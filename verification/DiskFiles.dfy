/** One process's view of the file system, and the routine by which the state
    store, the target table and fs_patch replace a file.  Every change is a
    step of the AtomicFile system, so its theorems hold of every Disk. */
module DiskFiles {
  import opened Text
  import opened AtomicFile

  /** Where a replacement stops: the call that fails or is never reached. */
  datatype Stop = AtCreate | AtChmod | AtWrite(n: nat) | AtSync | AtClose | AtRename

  /** It finishes, a call returns an error, or the process dies: before a call
      has had its effect, or with the rename done but nothing reported. */
  datatype Fate = Finishes | Errs(at: Stop) | Dies(at: Stop) | DiesRenamed

  predicate StopsAt(fate: Fate, stop: Stop) {
    (fate.Errs? || fate.Dies?) && fate.at == stop
  }

  class Disk {
    var files: Directory
    ghost var first: Directory
    ghost var W: World

    ghost predicate Valid()
      reads this
    {
      Reachable(first, W) && W.files == files && !W.lost
    }

    constructor (files: Directory)
      ensures Valid() && first == files && W == Start(files) && this.files == files
    {
      this.files := files;
      first := files;
      W := Start(files);
      new;
      assert Run(Start(files), []) == Some(Start(files));
    }

    /** A path that may be replaced and a temporary name for it that is free
        and was never used. */
    ghost predicate Usable(path: string, tmp: string)
      reads this
    {
      && path !in W.temps && tmp != path && tmp != ""
      && tmp !in W.files && tmp !in W.temps + W.removed && forall o | o in W.offered :: o.target != tmp
    }

    ghost method Take(step: Step)
      requires Reachable(first, W) && Enabled(W, step)
      modifies this`W
      ensures W == Apply(old(W), step) && Reachable(first, W)
    {
      ReachableStep(first, W, step);
      W := Apply(W, step);
    }

    /** What the rest of the world is left with while writer w is at work. */
    ghost predicate Working(w: nat, m: Writer)
      reads this
    {
      Valid() && w < |W.writers| && W.writers[w] == m
    }

    method CreateTemp(path: string, data: string, tmp: string) returns (ghost w: nat)
      requires Valid() && Usable(path, tmp)
      modifies this`files, this`W
      ensures Working(w, Writer(path, data, true, tmp, Created)) && files == old(files)[tmp := File("", false)]
      ensures W.temps == old(W.temps) + {tmp} && W.offered == old(W.offered) + {Offer(path, data, true)}
      ensures W.removed == old(W.removed)
    {
      w := |W.writers|;
      Take(Begin(path, data, true));
      ReachableInv(first, W);
      assert forall v | 0 <= v < |W.writers| :: WriterOk(W, W.writers[v]);
      files := files[tmp := File("", false)];
      Take(Create(w, tmp));
    }

    /** What the calls between create and rename leave untouched. */
    twostate predicate OnlyTemp(path: string, data: string, tmp: string, w: nat)
      reads this
    {
      && Valid() && w < |W.writers| && tmp in files && files - {tmp} == old(files) - {tmp}
      && W.writers[w].(stage := Created) == Writer(path, data, true, tmp, Created) && !Over(W.writers[w].stage)
      && W.temps == old(W.temps) && W.offered == old(W.offered) && W.removed == old(W.removed)
    }

    /** chmod and write. */
    method WriteTemp(ghost w: nat, path: string, data: string, tmp: string, fate: Fate) returns (ok: bool)
      requires Working(w, Writer(path, data, true, tmp, Created)) && tmp in files
      modifies this`files, this`W
      ensures OnlyTemp(path, data, tmp, w)
      ensures ok <==> !StopsAt(fate, AtChmod) && !((fate.Errs? || fate.Dies?) && fate.at.AtWrite?)
      ensures ok ==> W.writers[w].stage == Written(|data|)
    {
      if StopsAt(fate, AtChmod) { return false; }
      var short := (fate.Errs? || fate.Dies?) && fate.at.AtWrite?;
      var n := if short && fate.at.n < |data| then fate.at.n else |data|;
      files := files[tmp := File(data[..n], false)];
      Take(Write(w, n));
      return !short;
    }

    /** fsync and close. */
    method SyncTemp(ghost w: nat, path: string, data: string, tmp: string, fate: Fate) returns (ok: bool)
      requires Working(w, Writer(path, data, true, tmp, Written(|data|))) && tmp in files
      modifies this`files, this`W
      ensures OnlyTemp(path, data, tmp, w)
      ensures ok <==> !StopsAt(fate, AtSync) && !StopsAt(fate, AtClose)
      ensures ok ==> W.writers[w].stage.Closed? && files[tmp] == File(data, true)
    {
      if StopsAt(fate, AtSync) { return false; }
      files := files[tmp := File(data, true)];
      Take(Sync(w));
      if StopsAt(fate, AtClose) { return false; }
      Take(Close(w));
      return true;
    }

    /** The deferred removal of the temporary file on an error return. */
    method GiveUp(ghost w: nat, tmp: string)
      requires Valid() && w < |W.writers| && !Over(W.writers[w].stage) && W.writers[w].tmp == tmp != ""
      modifies this`files, this`W
      ensures Valid() && files == old(files) - {tmp}
      ensures W.temps == old(W.temps) && W.offered == old(W.offered) && W.removed == old(W.removed)
    {
      files := files - {tmp};
      Take(AtomicFile.Step.Fail(w));
      Take(Cleanup(w));
    }

    /** Rename over the target, then the deferred removal, which finds nothing. */
    method Finish(ghost w: nat, path: string, tmp: string, died: bool)
      requires Valid() && w < |W.writers| && W.writers[w].stage.Closed?
      requires W.writers[w].target == path && W.writers[w].tmp == tmp != "" && tmp in files && tmp != path
      modifies this`files, this`W
      ensures Valid() && files == (old(files) - {tmp})[path := old(files)[tmp]]
      ensures W.temps == old(W.temps) && W.offered == old(W.offered) && W.removed == old(W.removed)
    {
      files := (files - {tmp})[path := files[tmp]];
      Take(Rename(w));
      if !died {
        Take(Cleanup(w));
        assert files - {tmp} == files;
      }
    }

    /** atomicWrite.  It succeeds exactly when nothing goes wrong, and then
        only the target has changed; an error changes nothing; a death leaves
        the target old or new, and at most the temporary file behind. */
    method Replace(path: string, data: string, tmp: string, fate: Fate) returns (ok: bool)
      requires Valid() && Usable(path, tmp)
      modifies this`files, this`W
      ensures Valid() && first == old(first)
      ensures ok <==> fate.Finishes?
      ensures fate.Finishes? ==> files == old(files)[path := File(data, true)]
      ensures fate.Errs? ==> files == old(files)
      ensures fate.Dies? ==> files - {tmp} == old(files)
      ensures fate.DiesRenamed? ==> files == old(files)[path := File(data, true)]
      ensures old(W.temps) <= W.temps <= old(W.temps) + {tmp} && W.removed == old(W.removed)
      ensures old(W.offered) <= W.offered <= old(W.offered) + {Offer(path, data, true)}
    {
      if StopsAt(fate, AtCreate) {
        return false;
      }
      ghost var w := CreateTemp(path, data, tmp);
      assert files - {tmp} == old(files);
      var ok1 := WriteTemp(w, path, data, tmp, fate);
      if ok1 {
        var ok2 := SyncTemp(w, path, data, tmp, fate);
        if ok2 && !StopsAt(fate, AtRename) {
          assert files - {tmp} == old(files);
          Finish(w, path, tmp, fate.DiesRenamed?);
          return fate.Finishes?;
        }
      }
      assert files - {tmp} == old(files);
      if fate.Errs? {
        GiveUp(w, tmp);
      }
      return false;
    }

    /** os.Remove of a file nobody uses as a temporary one. */
    method RemoveFile(path: string) returns (ok: bool)
      requires Valid() && path !in W.temps
      modifies this`files, this`W
      ensures Valid() && (ok <==> path in old(files)) && files == old(files) - {path}
      ensures W.temps == old(W.temps) && W.offered == old(W.offered)
      ensures W.removed == if ok then old(W.removed) + {path} else old(W.removed)
    {
      ok := path in files;
      if ok {
        files := files - {path};
        Take(AtomicFile.Step.Remove(path));
      } else {
        assert files - {path} == files;
      }
    }
  }
}
