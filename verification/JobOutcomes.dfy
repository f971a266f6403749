/** What each event of the job manager makes of a job's record, field by field,
    and of the rest of the system. */
module JobOutcomes {
  import opened Text
  import opened Jobs

  /** Only job id's record may differ in memory; on disk it is the new record
      when the write went through, and nothing else differs. */
  ghost predicate OnlyJob(w: World, w': World, id: JobId, ok: bool) {
    && id in w'.mem && w'.mem == w.mem[id := w'.mem[id]]
    && w'.disk == (if ok then w.disk[id := w'.mem[id]] else w.disk)
  }

  /** A recorded job runs, has no exit code and no error, and is about to be
      watched. */
  lemma RecordOutcome(w: World, kind: Kind, id: JobId, launch: Launch, pid: int, ok: bool)
    requires Enabled(w, Record(kind, id, launch, pid, ok))
    ensures var w' := Apply(w, Record(kind, id, launch, pid, ok));
            && OnlyJob(w, w', id, ok) && Watch(kind, id, pid) in w'.starting
            && var r := w'.mem[id];
               && r.id == id && r.launch == launch && r.pid == pid && r.status == Running
               && r.exitCode == None && r.error == "" && r.updatedAt == w.now
  {
  }

  /** The parent's waiter records the code the process left with, or -1 and the
      message when waiting itself failed.  A job under termination becomes
      terminated and a running one exited. */
  lemma WaiterOutcome(w: World, watch: Watch, res: WaitResult, ok: bool)
    requires Reachable(w) && Enabled(w, WaiterFires(watch, res, ok))
    ensures var w' := Apply(w, WaiterFires(watch, res, ok));
            && watch.id in w.mem && OnlyJob(w, w', watch.id, ok)
            && var j, r := w.mem[watch.id], w'.mem[watch.id];
               && r.exitCode == Some(if res.OtherError? then -1 else w.procs[watch.pid].code)
               && r.error == (if res.OtherError? then res.message else j.error)
               && (r.status == Terminated <==> j.status == Terminating)
               && (r.status == Exited <==> j.status == Running)
               && r.status in {Terminated, Exited}
               && r.updatedAt == w.now && r.id == j.id && r.launch == j.launch && r.pid == j.pid == watch.pid
  {
    ReachableInv(w);
    assert Guards(watch, w.mem);
  }

  /** The external monitor cannot know the code.  A job under termination
      becomes terminated and a running one exited-external. */
  lemma ExternalOutcome(w: World, watch: Watch, ok: bool)
    requires Reachable(w) && Enabled(w, ExternalFires(watch, ok))
    ensures var w' := Apply(w, ExternalFires(watch, ok));
            && watch.id in w.mem && OnlyJob(w, w', watch.id, ok)
            && var j, r := w.mem[watch.id], w'.mem[watch.id];
               && r.exitCode == Some(-1) && r.error == j.error
               && (r.status == Terminated <==> j.status == Terminating)
               && (r.status == ExitedExternal <==> j.status == Running)
               && r.status in {Terminated, ExitedExternal}
               && r.updatedAt == w.now && r.id == j.id && r.launch == j.launch && r.pid == j.pid == watch.pid
  {
    ReachableInv(w);
    assert Guards(watch, w.mem);
  }

  /** The recovery monitor ends a job still running-recovered, and leaves one
      under termination alone. */
  lemma RecoveryOutcome(w: World, watch: Watch, ok: bool)
    requires Reachable(w) && Enabled(w, RecoveryFires(watch, ok))
    ensures var w' := Apply(w, RecoveryFires(watch, ok));
            && watch.id in w.mem && w.mem[watch.id].status in {RunningRecovered, Terminating}
            && (w.mem[watch.id].status == Terminating ==> w'.mem == w.mem && w'.disk == w.disk)
            && (w.mem[watch.id].status == RunningRecovered ==>
                  && OnlyJob(w, w', watch.id, ok)
                  && var j, r := w.mem[watch.id], w'.mem[watch.id];
                     && r.exitCode == Some(-1) && r.error == j.error && r.status == ExitedAfterRecovery
                     && r.updatedAt == w.now && r.id == j.id && r.launch == j.launch && r.pid == j.pid == watch.pid)
  {
    ReachableInv(w);
    assert Guards(watch, w.mem);
  }

  /** TERM, INT and KILL make the job terminating, whatever its status was; the
      other signals keep the status.  No signal touches code or error. */
  lemma SignalOutcome(w: World, id: JobId, sig: Signal, ok: bool)
    requires Enabled(w, SendSignal(id, sig, ok))
    ensures var w' := Apply(w, SendSignal(id, sig, ok));
            && (id !in w.mem ==> w'.mem == w.mem && w'.disk == w.disk)
            && (id in w.mem ==>
                  && OnlyJob(w, w', id, ok)
                  && var j, r := w.mem[id], w'.mem[id];
                     && r.status == (match sig
                                     case TERM => Terminating case INT => Terminating case KILL => Terminating
                                     case _ => j.status)
                     && r.exitCode == j.exitCode && r.error == j.error
                     && r.updatedAt == w.now && r.id == j.id && r.launch == j.launch && r.pid == j.pid)
  {
  }

  /** Recovery of one file: a job that was running, running-recovered or
      terminating runs again, under a recovery monitor, if its process lives,
      and is otherwise exited-while-offline with code -1; any other job comes
      back as it was. */
  lemma RecoverOutcome(w: World, id: JobId, ok: bool)
    requires Enabled(w, RecoverOne(id, ok))
    ensures var w' := Apply(w, RecoverOne(id, ok));
            && OnlyJob(w, w', id, ok)
            && var j, r := w.disk[id], w'.mem[id];
               var alive := j.pid > 0 && j.pid in w.procs && w.procs[j.pid] == Alive;
               && (j.status !in {Running, RunningRecovered, Terminating} ==> r == j && w'.watchers == w.watchers)
               && (j.status in {Running, RunningRecovered, Terminating} ==>
                     && r.status == (if alive then RunningRecovered else ExitedOffline)
                     && r.exitCode == (if alive then j.exitCode else Some(-1))
                     && r.error == j.error && r.updatedAt == w.now
                     && r.id == j.id && r.launch == j.launch && r.pid == j.pid
                     && w'.watchers == w.watchers + (if alive then {Watch(RecoveryMonitor, id, j.pid)} else {}))
  {
  }

  /** A prune forgets a job exactly when it neither runs nor is terminating and
      was last updated no later than the cutoff. */
  lemma PruneOutcome(w: World, cutoff: int, kept: set<JobId>)
    requires Enabled(w, Prune(cutoff, kept))
    ensures var w' := Apply(w, Prune(cutoff, kept));
            && (forall id :: id in w'.mem <==>
                  id in w.mem && (w.mem[id].status in {Running, RunningRecovered, Terminating} || w.mem[id].updatedAt > cutoff))
            && (forall id :: id in w'.disk <==> id in w.disk && (id in w.mem && id !in w'.mem ==> id in kept))
            && (forall id | id in w'.mem :: w'.mem[id] == w.mem[id])
            && (forall id | id in w'.disk :: w'.disk[id] == w.disk[id])
  {
  }
}
