/** Replacing a file by writing a temporary one and renaming it over the
    target, by any number of writers at once, any of which may fail or be
    killed between any two steps; and what a power failure does to it. */
module AtomicFile {
  import opened Text

  /** A directory entry; synced: its content has been forced to disk. */
  datatype File = File(data: string, synced: bool)

  type Directory = map<string, File>

  datatype Stage = Begun | Created | Written(n: nat) | Synced | Closed | Renamed | Failed | Done

  /** One replacement; sync says whether it calls fsync before the rename, as
      the state store, the target table and fs_patch do and the job manager
      does not. */
  datatype Writer = Writer(target: string, data: string, sync: bool, tmp: string, stage: Stage)

  datatype Offer = Offer(target: string, data: string, sync: bool)

  datatype World = World(
    files: Directory,
    writers: seq<Writer>,
    offered: set<Offer>,       // every replacement ever begun
    temps: set<string>,        // every temporary name ever used
    removed: set<string>,      // every name deleted on purpose
    lost: bool)                // power has failed at least once

  datatype Step =
    | Begin(target: string, data: string, sync: bool)
    | Create(w: nat, tmp: string)       // a free name, or one used before and not in use now
    | Write(w: nat, n: nat)             // the first n bytes have reached the file
    | Sync(w: nat)
    | Close(w: nat)
    | Rename(w: nat)
    | Fail(w: nat)                      // an error before the rename
    | Cleanup(w: nat)                   // the deferred os.Remove
    | Remove(name: string)              // the store's Delete
    | PowerLoss(left: map<string, nat>) // how much is left of files not forced to disk

  predicate Enabled(s: World, step: Step) {
    match step
    case Begin(target, _, _) => target !in s.temps
    case Create(w, tmp) =>
      && w < |s.writers| && s.writers[w].stage.Begun?
      && tmp != "" && (tmp in s.temps || (tmp !in s.files && tmp !in s.removed))
      && (forall o | o in s.offered :: o.target != tmp)
      && (forall v | 0 <= v < |s.writers| && Active(s.writers[v].stage) :: s.writers[v].tmp != tmp)
    case Write(w, n) =>
      && w < |s.writers| && n <= |s.writers[w].data|
      && (s.writers[w].stage.Created? || (s.writers[w].stage.Written? && s.writers[w].stage.n <= n))
    case Sync(w) => w < |s.writers| && s.writers[w].sync && s.writers[w].stage == Written(|s.writers[w].data|)
    case Close(w) =>
      && w < |s.writers|
      && (if s.writers[w].sync then s.writers[w].stage.Synced? else s.writers[w].stage == Written(|s.writers[w].data|))
    case Rename(w) => w < |s.writers| && s.writers[w].stage.Closed? && s.writers[w].tmp in s.files
    case Fail(w) => w < |s.writers| && !Over(s.writers[w].stage)
    case Cleanup(w) => w < |s.writers| && (s.writers[w].stage.Renamed? || s.writers[w].stage.Failed?)
    case Remove(name) => name in s.files && name !in s.temps
    case PowerLoss(_) => true
  }

  /** Between creating and renaming the temporary file. */
  predicate Active(stage: Stage) {
    stage.Created? || stage.Written? || stage.Synced? || stage.Closed?
  }

  predicate Over(stage: Stage) {
    stage.Renamed? || stage.Failed? || stage.Done?
  }

  /** What is found of a file afterwards, and is on disk then. */
  function Survives(f: File, left: nat): File {
    File(if f.synced || left >= |f.data| then f.data else f.data[..left], true)
  }

  function Apply(s: World, step: Step): World
    requires Enabled(s, step)
  {
    match step
    case Begin(target, data, sync) =>
      s.(writers := s.writers + [Writer(target, data, sync, "", Begun)], offered := s.offered + {Offer(target, data, sync)})
    case Create(w, tmp) =>
      s.(files := s.files[tmp := File("", false)], temps := s.temps + {tmp},
         writers := s.writers[w := s.writers[w].(tmp := tmp, stage := Created)])
    case Write(w, n) => SetTemp(s, w, File(s.writers[w].data[..n], false), Written(n))
    case Sync(w) => SetTemp(s, w, File(s.writers[w].data, true), Synced)
    case Close(w) => SetStage(s, w, Closed)
    case Rename(w) =>
      SetStage(s, w, Renamed).(files := (s.files - {s.writers[w].tmp})[s.writers[w].target := s.files[s.writers[w].tmp]])
    case Fail(w) => SetStage(s, w, Failed)
    case Cleanup(w) =>
      SetStage(s, w, Done).(files := if s.writers[w].tmp == "" then s.files else s.files - {s.writers[w].tmp})
    case Remove(name) => s.(files := s.files - {name}, removed := s.removed + {name})
    case PowerLoss(left) =>
      s.(files := map name | name in s.files :: Survives(s.files[name], if name in left then left[name] else |s.files[name].data|),
         writers := [], lost := true)
  }

  function SetStage(s: World, w: nat, stage: Stage): World
    requires w < |s.writers|
  {
    s.(writers := s.writers[w := s.writers[w].(stage := stage)])
  }

  function SetTemp(s: World, w: nat, f: File, stage: Stage): World
    requires w < |s.writers|
  {
    SetStage(s, w, stage).(files := if s.writers[w].tmp in s.files then s.files[s.writers[w].tmp := f] else s.files)
  }

  function Run(s: World, steps: seq<Step>): Option<World>
    decreases |steps|
  {
    if steps == [] then Some(s)
    else if !Enabled(s, steps[0]) then None
    else Run(Apply(s, steps[0]), steps[1..])
  }

  function Start(files: Directory): World {
    World(files, [], {}, {}, {}, false)
  }

  ghost predicate Reachable(files: Directory, s: World) {
    exists steps :: Run(Start(files), steps) == Some(s)
  }

  // ------------------------------------------------------------ invariant

  /** What the directory began with under the name, or all of something some
      writer set out to put there. */
  ghost predicate Known(files: Directory, s: World, name: string, data: string) {
    || (name in files && data == files[name].data)
    || (exists o | o in s.offered :: o.target == name && o.data == data)
  }

  ghost predicate Whole(files: Directory, s: World, name: string)
    requires name in s.files
  {
    Known(files, s, name, s.files[name].data)
  }

  /** Every writer of this name forces its data to disk before renaming. */
  ghost predicate Forced(files: Directory, s: World, name: string) {
    && (name in files ==> files[name].synced)
    && (forall o | o in s.offered && o.target == name :: o.sync)
  }

  /** What must hold of a name that is not a temporary one. */
  ghost predicate NameOk(files: Directory, s: World, name: string) {
    && (name in files && name !in s.removed ==> name in s.files)
    && (name in s.files && (!s.lost || Forced(files, s, name)) ==> Whole(files, s, name))
    && (name in s.files && Forced(files, s, name) ==> s.files[name].synced)
  }

  ghost predicate NamesOk(files: Directory, s: World) {
    forall name | name !in s.temps :: NameOk(files, s, name)
  }

  predicate WriterOk(s: World, m: Writer) {
    && Offer(m.target, m.data, m.sync) in s.offered
    && (m.tmp == "" || m.tmp in s.temps)
    && (m.tmp == "" ==> m.stage.Begun? || m.stage.Failed? || m.stage.Done?) && (m.stage.Begun? ==> m.tmp == "")
    && match m.stage
       case Created => m.tmp in s.files ==> !s.files[m.tmp].synced
       case Written(n) => n <= |m.data| && (m.tmp in s.files ==> s.files[m.tmp] == File(m.data[..n], false))
       case Synced => m.sync && (m.tmp in s.files ==> s.files[m.tmp] == File(m.data, true))
       case Closed => m.tmp in s.files ==> s.files[m.tmp] == File(m.data, m.sync)
       case _ => true
  }

  ghost predicate WritersOk(s: World) {
    && (forall w | 0 <= w < |s.writers| :: WriterOk(s, s.writers[w]))
    && (forall v, w | 0 <= v < w < |s.writers| && Active(s.writers[v].stage) && Active(s.writers[w].stage) ::
          s.writers[v].tmp != s.writers[w].tmp)
    && (forall o | o in s.offered :: o.target !in s.temps) && "" !in s.temps
  }

  ghost predicate Inv(files: Directory, s: World) {
    NamesOk(files, s) && WritersOk(s) && s.temps !! files.Keys
  }

  lemma InvWriters(files: Directory, s: World, step: Step)
    requires Inv(files, s) && Enabled(s, step)
    ensures WritersOk(Apply(s, step))
  {
    match step
    case Begin(target, data, sync) => BeginWriters(s, target, data, sync);
    case Create(w, tmp) => CreateWriters(s, w, tmp);
    case PowerLoss(_) =>
    case Remove(name) => RemoveWriters(s, name);
    case _ => OneWriter(s, step.w, Apply(s, step));
  }

  lemma InvTemps(files: Directory, s: World, step: Step)
    requires Inv(files, s) && Enabled(s, step)
    ensures Apply(s, step).temps !! files.Keys
  {
    if step.Create? && step.tmp !in s.temps { assert NameOk(files, s, step.tmp); }
  }

  lemma BeginWriters(s: World, target: string, data: string, sync: bool)
    requires WritersOk(s) && Enabled(s, Begin(target, data, sync))
    ensures WritersOk(Apply(s, Begin(target, data, sync)))
  {
    var s' := Apply(s, Begin(target, data, sync));
    forall w | 0 <= w < |s'.writers| ensures WriterOk(s', s'.writers[w]) {
      if w < |s.writers| {
        assert s'.writers[w] == s.writers[w] && WriterOk(s, s.writers[w]);
      } else {
        assert s'.writers[w] == Writer(target, data, sync, "", Begun) && Offer(target, data, sync) in s'.offered;
      }
    }
  }

  lemma RemoveWriters(s: World, name: string)
    requires WritersOk(s) && Enabled(s, Remove(name))
    ensures WritersOk(Apply(s, Remove(name)))
  {
    var s' := Apply(s, Remove(name));
    forall v | 0 <= v < |s'.writers| ensures WriterOk(s', s'.writers[v]) {
      assert WriterOk(s, s.writers[v]);
    }
  }

  lemma CreateWriters(s: World, w: nat, tmp: string)
    requires WritersOk(s) && Enabled(s, Create(w, tmp))
    ensures WritersOk(Apply(s, Create(w, tmp)))
  {
    var s' := Apply(s, Create(w, tmp));
    forall v | 0 <= v < |s'.writers| ensures WriterOk(s', s'.writers[v]) {
      assert WriterOk(s, s.writers[v]);
    }
  }

  /** A step of one writer touches its own temporary file and its target only. */
  lemma OneWriter(s: World, w: nat, s': World)
    requires WritersOk(s) && w < |s.writers| == |s'.writers| && s'.offered == s.offered && s'.temps == s.temps
    requires forall v | 0 <= v < |s.writers| && v != w :: s'.writers[v] == s.writers[v]
    requires s'.writers[w].tmp == s.writers[w].tmp && WriterOk(s', s'.writers[w])
    requires Active(s'.writers[w].stage) ==> Active(s.writers[w].stage)
    requires forall name | name in s'.files && name in s.temps && !(Active(s.writers[w].stage) && name == s.writers[w].tmp) ::
               name in s.files && s'.files[name] == s.files[name]
    ensures WritersOk(s')
  {
    forall v | 0 <= v < |s'.writers| ensures WriterOk(s', s'.writers[v]) {
      assert WriterOk(s, s.writers[v]);
    }
  }

  lemma InvNames(files: Directory, s: World, step: Step)
    requires Inv(files, s) && Enabled(s, step)
    ensures NamesOk(files, Apply(s, step))
  {
    var s' := Apply(s, step);
    forall name | name !in s'.temps ensures NameOk(files, s', name) {
      assert NameOk(files, s, name);
      if step.Rename? && name == s.writers[step.w].target {
        assert WriterOk(s, s.writers[step.w]);
        var m := s.writers[step.w];
        assert Offer(m.target, m.data, m.sync) in s.offered;
      } else {
        StepKeepsName(files, s, step, name);
      }
    }
  }

  lemma StepKeepsName(files: Directory, s: World, step: Step, name: string)
    requires Inv(files, s) && Enabled(s, step) && name !in Apply(s, step).temps && NameOk(files, s, name)
    requires !(step.Rename? && name == s.writers[step.w].target)
    ensures NameOk(files, Apply(s, step), name)
  {
    var s' := Apply(s, step);
    if step.Write? || step.Sync? || step.Rename? || step.Cleanup? { assert WriterOk(s, s.writers[step.w]); }
    assert Forced(files, s', name) ==> Forced(files, s, name);
    if name in s'.files && Whole(files, s, name) && s'.files[name] == s.files[name] {
      assert Whole(files, s', name);
    }
  }

  lemma {:induction false} InvAlongRun(files: Directory, s: World, steps: seq<Step>)
    requires Inv(files, s) && Run(s, steps).Some?
    ensures Inv(files, Run(s, steps).value)
    decreases |steps|
  {
    if steps != [] {
      InvWriters(files, s, steps[0]);
      InvTemps(files, s, steps[0]);
      InvNames(files, s, steps[0]);
      InvAlongRun(files, Apply(s, steps[0]), steps[1..]);
    }
  }

  lemma ReachableInv(files: Directory, s: World)
    requires Reachable(files, s)
    ensures Inv(files, s)
  {
    var steps :| Run(Start(files), steps) == Some(s);
    assert Inv(files, Start(files)) by {
      forall name ensures NameOk(files, Start(files), name) { StartOk(files, name); }
    }
    InvAlongRun(files, Start(files), steps);
  }

  lemma StartOk(files: Directory, name: string)
    ensures NameOk(files, Start(files), name)
  {
  }

  // -------------------------------------------------------- main theorems

  /** However replacements interleave, fail or are cut short, a reader of any
      name sees all of its original content or all of what some replacement
      set out to put there; an existing file never goes missing unless it is
      deleted; and nothing appears under a name no replacement was for, but
      temporary names. */
  lemma ReaderSeesOldOrNew(files: Directory, s: World, name: string)
    requires Reachable(files, s) && !s.lost && name !in s.temps
    ensures name in files && name !in s.removed ==> name in s.files
    ensures name in s.files ==>
              || (name in files && s.files[name].data == files[name].data)
              || (exists o | o in s.offered :: o.target == name && o.data == s.files[name].data)
  {
    ReachableInv(files, s);
    assert NameOk(files, s, name);
  }

  /** A power failure changes nothing of that for names that are only ever
      replaced with fsync before the rename. */
  lemma ForcedSurvivesPowerLoss(files: Directory, s: World, name: string)
    requires Reachable(files, s) && name !in s.temps && Forced(files, s, name)
    ensures name in files && name !in s.removed ==> name in s.files
    ensures name in s.files ==> s.files[name].synced && Whole(files, s, name)
  {
    ReachableInv(files, s);
    assert NameOk(files, s, name);
  }

  /** Whatever has happened, power failures included: a replacement makes its
      target whole, and what is whole stays so under every step but a power
      failure. */
  lemma OnlyPowerLossBreaks(files: Directory, s: World, step: Step, name: string)
    requires Reachable(files, s) && Enabled(s, step) && !step.PowerLoss?
    requires name in Apply(s, step).files && name !in Apply(s, step).temps
    requires name in s.files ==> Whole(files, s, name) || (step.Rename? && s.writers[step.w].target == name)
    ensures Whole(files, Apply(s, step), name)
  {
    ReachableInv(files, s);
    if step.Write? || step.Sync? || step.Rename? || step.Cleanup? { assert WriterOk(s, s.writers[step.w]); }
    if step.Rename? && s.writers[step.w].target == name {
      RenamedContent(files, s, step.w);
    } else {
      assert name in s.files && Apply(s, step).files[name] == s.files[name];
      KnownKept(files, s, step, name, s.files[name].data);
    }
  }

  lemma KnownKept(files: Directory, s: World, step: Step, name: string, data: string)
    requires Enabled(s, step)
    ensures Known(files, s, name, data) ==> Known(files, Apply(s, step), name, data)
  {
    assert s.offered <= Apply(s, step).offered;
  }

  lemma RenamedContent(files: Directory, s: World, w: nat)
    requires Reachable(files, s) && Enabled(s, Rename(w))
    ensures var m, s' := s.writers[w], Apply(s, Rename(w));
            && m.target in s'.files && s'.files[m.target] == File(m.data, m.sync)
            && Known(files, s', m.target, m.data)
  {
    ReachableInv(files, s);
    var m := s.writers[w];
    assert WriterOk(s, m);
    assert Offer(m.target, m.data, m.sync) in Apply(s, Rename(w)).offered;
  }

  /** The name is whole after any power failure that comes now. */
  ghost predicate Durable(files: Directory, s: World, name: string) {
    forall left :: name in Apply(s, PowerLoss(left)).files && Whole(files, Apply(s, PowerLoss(left)), name)
  }

  ghost predicate AllPrefixesKnown(files: Directory, s: World, name: string, data: string) {
    forall n: nat | n <= |data| :: Known(files, s, name, data[..n])
  }

  /** A whole file survives every power failure exactly when it has been forced
      to disk, or whatever could be left of it would pass for whole too. */
  lemma DurableExactly(files: Directory, s: World, name: string)
    requires name in s.files && Whole(files, s, name)
    ensures Durable(files, s, name) <==> s.files[name].synced || AllPrefixesKnown(files, s, name, s.files[name].data)
  {
    var f := s.files[name];
    if Durable(files, s, name) && !f.synced {
      forall n: nat | n <= |f.data| ensures Known(files, s, name, f.data[..n]) {
        var s' := Apply(s, PowerLoss(map[name := n]));
        assert Whole(files, s', name);
        assert s'.files[name].data == f.data[..n];
      }
    }
    if f.synced || AllPrefixesKnown(files, s, name, f.data) {
      forall left ensures name in Apply(s, PowerLoss(left)).files && Whole(files, Apply(s, PowerLoss(left)), name) {
        LeftIsPrefix(s, left, name);
        assert f.data[..|f.data|] == f.data;
      }
    }
  }

  lemma LeftIsPrefix(s: World, left: map<string, nat>, name: string)
    requires name in s.files
    ensures var s' := Apply(s, PowerLoss(left));
            && name in s'.files && s'.offered == s.offered
            && (s.files[name].synced ==> s'.files[name].data == s.files[name].data)
            && exists n: nat :: n <= |s.files[name].data| && s'.files[name].data == s.files[name].data[..n]
  {
    var f := s.files[name];
    var n := if f.synced || name !in left || left[name] >= |f.data| then |f.data| else left[name];
    assert f.data[..|f.data|] == f.data;
    assert Apply(s, PowerLoss(left)).files[name].data == f.data[..n];
  }

  /** So a replacement just made survives every power failure exactly when its
      writer calls fsync, or every prefix of its data, the empty one included,
      is old content or another's new content. */
  lemma RenameDurableExactly(files: Directory, s: World, w: nat)
    requires Reachable(files, s) && Enabled(s, Rename(w))
    ensures var m := s.writers[w];
            Durable(files, Apply(s, Rename(w)), m.target) <==> m.sync || AllPrefixesKnown(files, s, m.target, m.data)
  {
    var m, s' := s.writers[w], Apply(s, Rename(w));
    RenamedContent(files, s, w);
    DurableExactly(files, s', m.target);
    assert s'.offered == s.offered;
    assert AllPrefixesKnown(files, s', m.target, m.data) <==> AllPrefixesKnown(files, s, m.target, m.data);
  }

  /** Without fsync the target may come back empty, neither the old content nor
      the new. */
  lemma UnforcedMayBeLost(files: Directory, target: string, data: string, tmp: string) returns (s: World)
    requires target in files && files[target].data != "" && data != ""
    requires tmp != "" && tmp !in files && tmp != target
    ensures Reachable(files, s) && target !in s.temps && target in s.files && s.files[target].data == ""
    ensures !Whole(files, s, target)
  {
    var s3 := Unforced(files, target, data, tmp);
    var s4 := Apply(s3, Close(0));
    var s5 := Apply(s4, Rename(0));
    var power := PowerLoss(map[target := 0]);
    ReachableStep(files, s3, Close(0));
    ReachableStep(files, s4, Rename(0));
    ReachableStep(files, s5, power);
    s := Apply(s5, power);
    assert s.files[target] == Survives(File(data, false), 0);
  }

  /** A replacement without fsync, as far as the write. */
  lemma Unforced(files: Directory, target: string, data: string, tmp: string) returns (s: World)
    requires tmp != "" && tmp !in files && tmp != target
    ensures Reachable(files, s)
    ensures s == World(files[tmp := File(data, false)], [Writer(target, data, false, tmp, Written(|data|))],
                       {Offer(target, data, false)}, {tmp}, {}, false)
  {
    var s0 := Start(files);
    var s1 := Apply(s0, Begin(target, data, false));
    var s2 := Apply(s1, Create(0, tmp));
    assert data[..|data|] == data;
    assert Run(s0, []) == Some(s0);
    ReachableStep(files, s0, Begin(target, data, false));
    ReachableStep(files, s1, Create(0, tmp));
    ReachableStep(files, s2, Write(0, |data|));
    s := Apply(s2, Write(0, |data|));
  }

  lemma ReachableStep(files: Directory, s: World, step: Step)
    requires Reachable(files, s) && Enabled(s, step)
    ensures Reachable(files, Apply(s, step))
  {
    var steps :| Run(Start(files), steps) == Some(s);
    RunAppend(Start(files), steps, step);
  }

  lemma {:induction false} RunAppend(s: World, steps: seq<Step>, last: Step)
    requires Run(s, steps).Some? && Enabled(Run(s, steps).value, last)
    ensures Run(s, steps + [last]) == Some(Apply(Run(s, steps).value, last))
    decreases |steps|
  {
    if steps == [] {
      assert Run(Apply(s, last), []) == Some(Apply(s, last));
      assert [last][1..] == [];
    } else {
      assert (steps + [last])[1..] == steps[1..] + [last];
      RunAppend(Apply(s, steps[0]), steps[1..], last);
    }
  }
}
