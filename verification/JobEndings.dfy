/** Which terminating jobs can still end before the runtime's next crash. */
module JobEndings {
  import opened Text
  import opened Jobs

  predicate CrashFree(steps: seq<Step>) {
    forall s | s in steps :: !s.Crash?
  }

  /** Before the next crash, some continuation ends the job. */
  ghost predicate CanEnd(w: World, id: JobId) {
    exists steps: seq<Step> :: EndsBy(w, id, steps)
  }

  ghost predicate EndsBy(w: World, id: JobId, steps: seq<Step>) {
    && CrashFree(steps) && Run(w, steps).Some?
    && id in Run(w, steps).value.mem && Ended(Run(w, steps).value.mem[id])
  }

  /** The job is watched by its parent waiter or its external monitor. */
  ghost predicate OwnWatcher(w: World, id: JobId) {
    exists watch :: watch in Watches(w) && watch.id == id && !watch.kind.RecoveryMonitor?
  }

  /** A terminating job can still end in this life of the runtime exactly when
      its own waiter or external monitor is attached: the recovery monitor
      ignores "terminating", and a job signalled after it ended has no watcher
      left.  Such jobs stay terminating until the next recovery. */
  lemma TerminatingEndsIffOwnWatcher(w: World, id: JobId)
    requires Reachable(w) && id in w.mem && w.mem[id].status == Terminating
    ensures CanEnd(w, id) <==> OwnWatcher(w, id)
  {
    ReachableInv(w);
    if OwnWatcher(w, id) {
      var steps := EndTerminating(w, id);
      assert EndsBy(w, id, steps);
    } else {
      forall steps: seq<Step> ensures !EndsBy(w, id, steps) {
        if CrashFree(steps) && Run(w, steps).Some? { StuckAlongRun(w, id, steps); }
      }
    }
  }

  lemma {:induction false} StuckAlongRun(w: World, id: JobId, steps: seq<Step>)
    requires Inv(w) && id in w.mem && w.mem[id].status == Terminating && !OwnWatcher(w, id)
    requires CrashFree(steps) && Run(w, steps).Some?
    ensures id in Run(w, steps).value.mem && Run(w, steps).value.mem[id].status == Terminating
    decreases |steps|
  {
    if steps != [] {
      var s := steps[0];
      assert s in steps && forall x | x in steps[1..] :: x in steps;
      StuckStep(w, id, s);
      InvStep(w, s);
      StuckAlongRun(Apply(w, s), id, steps[1..]);
    }
  }

  lemma StillTerminating(w: World, id: JobId, s: Step)
    requires Inv(w) && id in w.mem && w.mem[id].status == Terminating && !OwnWatcher(w, id)
    requires Enabled(w, s) && !s.Crash?
    ensures id in Apply(w, s).mem && Apply(w, s).mem[id].status == Terminating
  {
    if s.WaiterFires? || s.ExternalFires? { assert s.watch in Watches(w); }
  }

  lemma StuckStep(w: World, id: JobId, s: Step)
    requires Inv(w) && id in w.mem && w.mem[id].status == Terminating && !OwnWatcher(w, id)
    requires Enabled(w, s) && !s.Crash?
    ensures id in Apply(w, s).mem && Apply(w, s).mem[id].status == Terminating && !OwnWatcher(Apply(w, s), id)
  {
    var w' := Apply(w, s);
    StillTerminating(w, id, s);
    assert forall watch | watch in Watches(w') && watch.id == id && !watch.kind.RecoveryMonitor? :: watch in Watches(w);
  }

  /** The continuation: launch the goroutine if need be, let the process end,
      fire the watcher. */
  lemma EndTerminating(w: World, id: JobId) returns (steps: seq<Step>)
    requires Inv(w) && id in w.mem && w.mem[id].status == Terminating && OwnWatcher(w, id)
    ensures EndsBy(w, id, steps)
  {
    var watch :| watch in Watches(w) && watch.id == id && !watch.kind.RecoveryMonitor?;
    assert Guards(watch, w.mem);
    var s1 := if watch in w.starting then Attach(watch) else Tick(0);
    var w1 := Apply(w, s1);
    var s2 := if IsAlive(w1, watch.pid) then ProcessExit(watch.pid, 0) else Tick(0);
    var w2 := Apply(w1, s2);
    var s3 := FireEnding(w2, watch);
    steps := [s1, s2, s3];
    RunThree(w, s1, s2, s3);
  }

  lemma FireEnding(w: World, watch: Watch) returns (s: Step)
    requires watch in w.watchers && Guards(watch, w.mem) && !watch.kind.RecoveryMonitor? && !IsAlive(w, watch.pid)
    requires watch.kind.Waiter? ==> watch.pid in w.procs && watch.pid > 0
    ensures Enabled(w, s) && watch.id in Apply(w, s).mem && Ended(Apply(w, s).mem[watch.id])
  {
    s := if watch.kind.Waiter? then WaiterFires(watch, OtherError(""), true) else ExternalFires(watch, true);
  }

  lemma RunThree(w: World, s1: Step, s2: Step, s3: Step)
    requires Enabled(w, s1) && Enabled(Apply(w, s1), s2) && Enabled(Apply(Apply(w, s1), s2), s3)
    ensures Run(w, [s1, s2, s3]) == Some(Apply(Apply(Apply(w, s1), s2), s3))
  {
    var w1 := Apply(w, s1);
    var w2 := Apply(w1, s2);
    assert [s1, s2, s3][1..] == [s2, s3] && [s2, s3][1..] == [s3] && [s3][1..] == [];
    assert Run(w2, [s3]) == Some(Apply(w2, s3));
    assert Run(w1, [s2, s3]) == Some(Apply(w2, s3));
  }

  // ------------------------------------------- jobs of this life, and signals

  /** The waiter or external monitor of a job is there exactly while the job, of
      this life of the runtime, has no exit code; recovery monitors are for
      jobs of earlier lives. */
  ghost predicate BornOk(w: World) {
    && (!w.phase.Up? ==> w.born == {})
    && (forall watch | watch in Watches(w) :: WatchBorn(w, watch))
    && (forall id | id in w.born && id in w.mem && w.mem[id].exitCode.None? :: OwnWatcher(w, id))
  }

  predicate WatchBorn(w: World, watch: Watch) {
    if watch.kind.RecoveryMonitor? then watch.id !in w.born
    else watch.id in w.born && watch.id in w.mem && w.mem[watch.id].exitCode.None?
  }

  lemma BornStep(w: World, s: Step)
    requires Inv(w) && BornOk(w) && Enabled(w, s)
    ensures BornOk(Apply(w, s))
  {
    if s.WaiterFires? || s.ExternalFires? || s.RecoveryFires? {
      BornFired(w, s);
    } else if s.Record? {
      BornRecord(w, s);
    } else if s.RecoverOne? {
      BornRecover(w, s);
    } else if !s.Crash? {
      BornQuiet(w, s);
    }
  }

  lemma BornFired(w: World, s: Step)
    requires Inv(w) && BornOk(w) && Enabled(w, s) && (s.WaiterFires? || s.ExternalFires? || s.RecoveryFires?)
    ensures BornOk(Apply(w, s))
  {
    var w' := Apply(w, s);
    assert Guards(s.watch, w.mem) && WatchBorn(w, s.watch);
    forall watch | watch in Watches(w') ensures WatchBorn(w', watch) {
      assert watch in Watches(w) && WatchBorn(w, watch) && watch.id != s.watch.id;
    }
    forall id | id in w'.born && id in w'.mem && w'.mem[id].exitCode.None? ensures OwnWatcher(w', id) {
      assert id != s.watch.id && OwnWatcher(w, id);
      var watch :| watch in Watches(w) && watch.id == id && !watch.kind.RecoveryMonitor?;
      assert watch in Watches(w');
    }
  }

  lemma BornRecord(w: World, s: Step)
    requires Inv(w) && BornOk(w) && Enabled(w, s) && s.Record?
    ensures BornOk(Apply(w, s))
  {
    var w', new_ := Apply(w, s), Watch(s.kind, s.id, s.pid);
    assert Watches(w') == Watches(w) + {new_};
    forall watch | watch in Watches(w') ensures WatchBorn(w', watch) {
      if watch != new_ { assert WatchBorn(w, watch) && Guards(watch, w.mem) && watch.id != s.id; }
    }
    forall id | id in w'.born && id in w'.mem && w'.mem[id].exitCode.None? ensures OwnWatcher(w', id) {
      if id == s.id {
        assert new_ in Watches(w');
      } else {
        assert OwnWatcher(w, id);
      }
    }
  }

  lemma BornRecover(w: World, s: Step)
    requires Inv(w) && BornOk(w) && Enabled(w, s) && s.RecoverOne?
    ensures BornOk(Apply(w, s))
  {
    var w' := Apply(w, s);
    assert w'.born == {} && w.born == {};
    forall watch | watch in Watches(w') ensures WatchBorn(w', watch) {
      if watch in Watches(w) { assert WatchBorn(w, watch); }
    }
  }

  /** The other steps leave watches and exit codes alone, but for jobs forgotten. */
  lemma BornQuiet(w: World, s: Step)
    requires Inv(w) && BornOk(w) && Enabled(w, s)
    requires !s.WaiterFires? && !s.ExternalFires? && !s.RecoveryFires? && !s.Record? && !s.RecoverOne? && !s.Crash?
    ensures BornOk(Apply(w, s))
  {
    var w' := Apply(w, s);
    QuietEffect(w, s);
    forall watch | watch in Watches(w') ensures WatchBorn(w', watch) {
      assert WatchBorn(w, watch) && Guards(watch, w.mem);
    }
    forall id | id in w'.born && id in w'.mem && w'.mem[id].exitCode.None? ensures OwnWatcher(w', id) {
      assert OwnWatcher(w, id);
    }
  }

  lemma QuietEffect(w: World, s: Step)
    requires Inv(w) && Enabled(w, s)
    requires !s.WaiterFires? && !s.ExternalFires? && !s.RecoveryFires? && !s.Record? && !s.RecoverOne? && !s.Crash?
    ensures var w' := Apply(w, s);
            && w'.born == w.born && Watches(w') == Watches(w) && (!w'.phase.Up? ==> !w.phase.Up?)
            && (forall id | id in w'.mem :: id in w.mem && w'.mem[id].exitCode == w.mem[id].exitCode)
            && (forall id | id in w.mem && Live(w.mem[id].status) :: id in w'.mem)
  {
  }

  lemma {:induction false} BornAlongRun(w: World, steps: seq<Step>)
    requires Inv(w) && BornOk(w) && Run(w, steps).Some?
    ensures BornOk(Run(w, steps).value)
    decreases |steps|
  {
    if steps != [] {
      InvStep(w, steps[0]);
      BornStep(w, steps[0]);
      BornAlongRun(Apply(w, steps[0]), steps[1..]);
    }
  }

  lemma ReachableBorn(w: World)
    requires Reachable(w)
    ensures Inv(w) && BornOk(w)
  {
    var steps :| Run(INIT, steps) == Some(w);
    BornAlongRun(INIT, steps);
    ReachableInv(w);
  }

  lemma OwnWatcherExactly(w: World, id: JobId)
    requires Reachable(w) && id in w.mem
    ensures OwnWatcher(w, id) <==> id in w.born && w.mem[id].exitCode.None?
  {
    ReachableBorn(w);
    if OwnWatcher(w, id) {
      var watch :| watch in Watches(w) && watch.id == id && !watch.kind.RecoveryMonitor?;
      assert WatchBorn(w, watch);
    }
  }

  /** A terminating job can still end before the next crash exactly when it was
      started in this life of the runtime and has no exit code yet. */
  lemma TerminatingEndsIff(w: World, id: JobId)
    requires Reachable(w) && id in w.mem && w.mem[id].status == Terminating
    ensures CanEnd(w, id) <==> id in w.born && w.mem[id].exitCode.None?
  {
    TerminatingEndsIffOwnWatcher(w, id);
    OwnWatcherExactly(w, id);
  }

  /** Said before the call, of any job: after a TERM, INT or KILL it can still
      end before the next crash exactly when it was started, not recovered, in
      this life of the runtime and has no exit code yet. */
  lemma SignalledEndsIff(w: World, id: JobId, sig: Signal, ok: bool)
    requires Reachable(w) && w.phase.Up? && id in w.mem && Terminates(sig)
    ensures CanEnd(Apply(w, SendSignal(id, sig, ok)), id) <==> id in w.born && w.mem[id].exitCode.None?
  {
    ReachableStep(w, SendSignal(id, sig, ok));
    TerminatingEndsIff(Apply(w, SendSignal(id, sig, ok)), id);
  }

  /** It does happen: a job started, recovered after a crash and then told to
      terminate stays terminating, even once its process is gone, until the
      runtime crashes. */
  lemma SignalledMayStick(id: JobId, launch: Launch, pid: int, sig: Signal) returns (w: World)
    requires pid > 0 && Terminates(sig)
    ensures Reachable(w) && id in w.mem && w.mem[id].status == Terminating
    ensures !OwnWatcher(w, id) && !CanEnd(w, id)
  {
    var r := RecoveredOne(id, launch, pid);
    w := Apply(r, SendSignal(id, sig, true));
    ReachableStep(r, SendSignal(id, sig, true));
    SignalledEndsIff(r, id, sig, true);
    TerminatingEndsIffOwnWatcher(w, id);
  }

  lemma RecoveredOne(id: JobId, launch: Launch, pid: int) returns (w: World)
    requires pid > 0
    ensures Reachable(w) && w.phase.Up? && id in w.mem && w.mem[id].status == RunningRecovered && w.born == {}
  {
    var job := NewJob(id, launch, pid, 0);
    var d := StartedAndCrashed(id, launch, pid);
    ReachableStep(d, BeginRecovery);
    var b := Apply(d, BeginRecovery);
    assert Recovered(job, true, 0).status == RunningRecovered;
    ReachableStep(b, RecoverOne(id, true));
    w := Apply(b, RecoverOne(id, true));
    assert w.phase.todo == {};
    ReachableStep(w, EndRecovery);
    w := Apply(w, EndRecovery);
  }

  lemma StartedAndCrashed(id: JobId, launch: Launch, pid: int) returns (w: World)
    requires pid > 0
    ensures Reachable(w) && w.phase.Down? && w.now == 0 && IsAlive(w, pid) && w.born == {}
    ensures w.disk == map[id := NewJob(id, launch, pid, 0)]
  {
    assert Run(INIT, []) == Some(INIT);
    ReachableStep(INIT, Spawn(pid));
    w := Apply(INIT, Spawn(pid));
    ReachableStep(w, Record(Waiter, id, launch, pid, true));
    w := Apply(w, Record(Waiter, id, launch, pid, true));
    ReachableStep(w, Crash);
    w := Apply(w, Crash);
  }
}
