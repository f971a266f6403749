/** The job manager's locked sections, over job objects shared by reference.
    Each is proved against the record updates that Jobs' step relation uses. */
module JobManager {
  import opened Text
  import opened Jobs

  /** One entry of the manager's map: the mutable fields of a job. */
  class Entry {
    const id: JobId
    const launch: Launch
    const pid: int
    var status: Status
    var exitCode: Option<int>
    var updatedAt: int
    var error: string

    ghost function Record(): Job
      reads this
    {
      Job(id, launch, pid, status, exitCode, updatedAt, error)
    }

    constructor (j: Job)
      ensures Record() == j
    {
      id, launch, pid := j.id, j.launch, j.pid;
      status, exitCode, updatedAt, error := j.status, j.exitCode, j.updatedAt, j.error;
    }
  }

  /** A prune half way: the entries in todo are still to be looked at. */
  ghost predicate PrunedBut(todo: set<JobId>, pruned: set<JobId>, before: map<JobId, Job>, records: map<JobId, Job>,
                            diskBefore: map<JobId, Job>, disk: map<JobId, Job>, cutoff: int, kept: set<JobId>) {
    && todo <= records.Keys && pruned <= before.Keys && todo !! pruned
    && records == before - pruned && disk == diskBefore - (pruned - kept)
    && (forall id | id in before && id !in todo :: id in pruned <==> Prunable(before[id], cutoff))
  }

  lemma PrunedOneMore(todo: set<JobId>, pruned: set<JobId>, before: map<JobId, Job>, records: map<JobId, Job>,
                      diskBefore: map<JobId, Job>, disk: map<JobId, Job>, cutoff: int, kept: set<JobId>, id: JobId)
    requires PrunedBut(todo, pruned, before, records, diskBefore, disk, cutoff, kept) && id in todo
    ensures records[id] == before[id]
    ensures if Prunable(records[id], cutoff)
            then PrunedBut(todo - {id}, pruned + {id}, before, records - {id}, diskBefore,
                           if id in kept then disk else disk - {id}, cutoff, kept)
            else PrunedBut(todo - {id}, pruned, before, records, diskBefore, disk, cutoff, kept)
  {
    if id in kept { assert (pruned + {id}) - kept == pruned - kept; }
    else { assert (pruned + {id}) - kept == (pruned - kept) + {id}; }
  }

  lemma PrunedAll(pruned: set<JobId>, before: map<JobId, Job>, records: map<JobId, Job>,
                  diskBefore: map<JobId, Job>, disk: map<JobId, Job>, cutoff: int, kept: set<JobId>)
    requires PrunedBut({}, pruned, before, records, diskBefore, disk, cutoff, kept)
    ensures pruned == PrunedIds(before, cutoff)
  {
  }

  /** Recovery half way: the files in todo are still to be read. */
  ghost predicate RecoveredBut(todo: set<JobId>, before: map<JobId, Job>, records: map<JobId, Job>, disk: map<JobId, Job>,
                               monitored: set<JobId>, alive: set<int>, oks: set<JobId>, now: int) {
    && todo <= before.Keys == disk.Keys && records.Keys == before.Keys - todo
    && (forall id | id in records :: records[id] == Recovered(before[id], before[id].pid in alive, now))
    && (forall id | id in disk :: disk[id] == if id in records && id in oks then records[id] else before[id])
    && (forall id :: id in monitored <==> id in records && records[id].status == RunningRecovered)
  }

  lemma RecoveredOneMore(todo: set<JobId>, before: map<JobId, Job>, records: map<JobId, Job>, disk: map<JobId, Job>,
                         monitored: set<JobId>, alive: set<int>, oks: set<JobId>, now: int, id: JobId)
    requires RecoveredBut(todo, before, records, disk, monitored, alive, oks, now) && id in todo
    ensures var r := Recovered(before[id], before[id].pid in alive, now);
            && disk[id] == before[id]
            && RecoveredBut(todo - {id}, before, records[id := r], if id in oks then disk[id := r] else disk,
                            if r.status == RunningRecovered then monitored + {id} else monitored, alive, oks, now)
  {
  }

  lemma RecoveredAll(before: map<JobId, Job>, records: map<JobId, Job>, disk: map<JobId, Job>,
                     monitored: set<JobId>, alive: set<int>, oks: set<JobId>, now: int)
    requires RecoveredBut({}, before, records, disk, monitored, alive, oks, now)
    ensures records == RecoverAll(before, alive, now)
    ensures disk == map id | id in before :: if id in oks then RecoverAll(before, alive, now)[id] else before[id]
    ensures monitored == set id | id in records && records[id].status == RunningRecovered
  {
  }

  /** Memory and disk change as this step of the Jobs system changes them, from
      every world that agrees with what they were. */
  ghost predicate Does(s: Step, now: int, mem: map<JobId, Job>, disk: map<JobId, Job>, mem': map<JobId, Job>, disk': map<JobId, Job>) {
    forall w: World | w.mem == mem && w.disk == disk && w.now == now && Enabled(w, s) ::
      Apply(w, s).mem == mem' && Apply(w, s).disk == disk'
  }

  function Set(m: map<JobId, Job>, id: JobId, j: Job, ok: bool): map<JobId, Job> {
    if ok then m[id := j] else m
  }

  lemma FinishDoes(id: JobId, res: WaitResult, ok: bool, now: int, mem: map<JobId, Job>, disk: map<JobId, Job>)
    ensures forall watch: Watch | watch.id == id ::
              Does(WaiterFires(watch, res, ok), now, mem, disk,
                   if id in mem then mem[id := Finished(mem[id], res, now)] else mem,
                   if id in mem then Set(disk, id, Finished(mem[id], res, now), ok) else disk)
  {
  }

  lemma ExternalDoes(id: JobId, ok: bool, now: int, mem: map<JobId, Job>, disk: map<JobId, Job>)
    ensures forall watch: Watch | watch.id == id ::
              Does(ExternalFires(watch, ok), now, mem, disk,
                   if id in mem && Live(mem[id].status) then mem[id := ExternalGone(mem[id], now)] else mem,
                   if id in mem && Live(mem[id].status) then Set(disk, id, ExternalGone(mem[id], now), ok) else disk)
  {
  }

  lemma RecoveryDoes(id: JobId, ok: bool, now: int, mem: map<JobId, Job>, disk: map<JobId, Job>)
    ensures forall watch: Watch | watch.id == id ::
              Does(RecoveryFires(watch, ok), now, mem, disk,
                   if id in mem && mem[id].status == RunningRecovered then mem[id := RecoveredGone(mem[id], now)] else mem,
                   if id in mem && mem[id].status == RunningRecovered then Set(disk, id, RecoveredGone(mem[id], now), ok) else disk)
  {
  }

  lemma SignalDoes(id: JobId, sig: Signal, ok: bool, now: int, mem: map<JobId, Job>, disk: map<JobId, Job>)
    ensures Does(Step.SendSignal(id, sig, ok), now, mem, disk,
                 if id in mem then mem[id := Signalled(mem[id], sig, now)] else mem,
                 if id in mem then Set(disk, id, Signalled(mem[id], sig, now), ok) else disk)
  {
  }

  lemma PruneDoes(cutoff: int, kept: set<JobId>, mem: map<JobId, Job>, disk: map<JobId, Job>)
    ensures forall now ::
              Does(Step.Prune(cutoff, kept), now, mem, disk,
                   mem - PrunedIds(mem, cutoff), disk - (PrunedIds(mem, cutoff) - kept))
  {
  }

  /** Recovering one job changes memory and disk as its step does. */
  ghost predicate DoesRecover(id: JobId, alive: set<int>, ok: bool, now: int,
                              mem: map<JobId, Job>, disk: map<JobId, Job>, mem': map<JobId, Job>, disk': map<JobId, Job>) {
    forall w: World | w.mem == mem && w.disk == disk && w.now == now && AlivePids(w) == alive
                      && Enabled(w, Step.RecoverOne(id, ok)) ::
      Apply(w, Step.RecoverOne(id, ok)).mem == mem' && Apply(w, Step.RecoverOne(id, ok)).disk == disk'
  }

  lemma RecoverDoes(id: JobId, alive: set<int>, ok: bool, now: int, mem: map<JobId, Job>, disk: map<JobId, Job>)
    requires id in disk
    ensures var r := Recovered(disk[id], disk[id].pid in alive, now);
            DoesRecover(id, alive, ok, now, mem, disk, mem[id := r], Set(disk, id, r, ok))
  {
    forall w: World | w.mem == mem && w.disk == disk && w.now == now && AlivePids(w) == alive
                      && Enabled(w, Step.RecoverOne(id, ok))
      ensures var r := Recovered(disk[id], disk[id].pid in alive, now);
              Apply(w, Step.RecoverOne(id, ok)).mem == mem[id := r] && Apply(w, Step.RecoverOne(id, ok)).disk == Set(disk, id, r, ok)
    {
      RecoverOneEffect(w, id, ok);
    }
  }

  class Manager {
    var jobs: map<JobId, Entry>
    var disk: map<JobId, Job>      // the .json files of the jobs directory

    ghost var Records: map<JobId, Job>   // what the entries say, by id

    ghost predicate Valid()
      reads this, jobs.Values
    {
      && jobs.Keys == Records.Keys
      && forall id | id in jobs :: jobs[id].id == id && jobs[id].Record() == Records[id]
    }

    constructor Empty()
      ensures Valid() && Records == map[] && disk == map[]
    {
      jobs, disk, Records := map[], map[], map[];
    }

    /** Valid but for what is noted about one entry, being updated. */
    ghost predicate ValidExcept(id: JobId)
      reads this, jobs.Values
    {
      && jobs.Keys == Records.Keys
      && forall x | x in jobs :: jobs[x].id == x && (x != id ==> jobs[x].Record() == Records[x])
    }

    /** persistLocked: the rename either happens or leaves the old file. */
    method PersistLocked(j: Entry, ok: bool)
      requires j.id in jobs && jobs[j.id] == j && ValidExcept(j.id)
      modifies this`disk, this`Records
      ensures Valid() && Records == old(Records)[j.id := j.Record()]
      ensures disk == if ok then old(disk)[j.id := j.Record()] else old(disk)
    {
      Records := Records[j.id := j.Record()];
      assert Valid() by {
        forall x | x in jobs ensures jobs[x].id == x && jobs[x].Record() == Records[x] {
          assert x == j.id ==> jobs[x] == j;
        }
      }
      if ok {
        disk := disk[j.id := Job(j.id, j.launch, j.pid, j.status, j.exitCode, j.updatedAt, j.error)];
      }
    }

    method RecordStartedJob(id: JobId, launch: Launch, pid: int, now: int, ok: bool) returns (j: Entry)
      requires Valid() && id !in jobs
      modifies this
      ensures Valid() && fresh(j) && jobs == old(jobs)[id := j]
      ensures Records == old(Records)[id := NewJob(id, launch, pid, now)]
      ensures disk == if ok then old(disk)[id := NewJob(id, launch, pid, now)] else old(disk)
      ensures forall kind: Kind ::
                Does(Step.Record(kind, id, launch, pid, ok), now, old(Records), old(disk), Records, disk)
    {
      j := new Entry(Job(id, launch, pid, Running, None, now, ""));
      Adopt(j, ok);
    }

    method FinishJob(id: JobId, res: WaitResult, now: int, ok: bool)
      requires Valid()
      modifies this`disk, this`Records, if id in jobs then {jobs[id]} else {}
      ensures Valid()
      ensures id !in jobs ==> Records == old(Records) && disk == old(disk)
      ensures id in jobs ==>
        Records == old(Records)[id := Finished(old(Records)[id], res, now)]
        && disk == if ok then old(disk)[id := Records[id]] else old(disk)
      ensures id in jobs ==>
        var j, r := old(Records)[id], Records[id];
        && r.status == (if j.status == Terminating then Terminated else Exited) && r.updatedAt == now
        && r.exitCode == Some(match res case Clean => 0 case ExitError(code) => code case OtherError(_) => -1)
        && r.error == (if res.OtherError? then res.message else j.error)
        && r.id == j.id && r.launch == j.launch && r.pid == j.pid
      ensures forall watch: Watch | watch.id == id ::
                Does(WaiterFires(watch, res, ok), now, old(Records), old(disk), Records, disk)
    {
      FinishDoes(id, res, ok, now, Records, disk);
      if id !in jobs {
        return;
      }
      var current := jobs[id];
      current.updatedAt := now;
      var code := 0;
      match res {
        case Clean =>
        case ExitError(c) => code := c;
        case OtherError(message) =>
          code := -1;
          current.error := message;
      }
      current.exitCode := Some(code);
      if current.status == Terminating {
        current.status := Terminated;
      } else {
        current.status := Exited;
      }
      PersistLocked(current, ok);
    }

    /** monitorExternal after the process is found gone. */
    method MonitorExternal(id: JobId, now: int, ok: bool)
      requires Valid()
      modifies this`disk, this`Records, if id in jobs then {jobs[id]} else {}
      ensures Valid()
      ensures !(id in jobs && Live(old(Records)[id].status)) ==> Records == old(Records) && disk == old(disk)
      ensures id in jobs && Live(old(Records)[id].status) ==>
        Records == old(Records)[id := ExternalGone(old(Records)[id], now)]
        && disk == if ok then old(disk)[id := Records[id]] else old(disk)
      ensures id in jobs && old(Records)[id].status in {Running, RunningRecovered, Terminating} ==>
        var j, r := old(Records)[id], Records[id];
        && r.status == (if j.status == Terminating then Terminated else ExitedExternal)
        && r.exitCode == Some(-1) && r.updatedAt == now
        && r.error == j.error && r.id == j.id && r.launch == j.launch && r.pid == j.pid
      ensures forall watch: Watch | watch.id == id ::
                Does(ExternalFires(watch, ok), now, old(Records), old(disk), Records, disk)
    {
      ExternalDoes(id, ok, now, Records, disk);
      if id in jobs {
        var j := jobs[id];
        if j.status == Running || j.status == RunningRecovered || j.status == Terminating {
          j.exitCode := Some(-1);
          if j.status == Terminating {
            j.status := Terminated;
          } else {
            j.status := ExitedExternal;
          }
          j.updatedAt := now;
          PersistLocked(j, ok);
        }
      }
    }

    /** monitorRecovered after the process is found gone. */
    method MonitorRecovered(id: JobId, now: int, ok: bool)
      requires Valid()
      modifies this`disk, this`Records, if id in jobs then {jobs[id]} else {}
      ensures Valid()
      ensures !(id in jobs && old(Records)[id].status == RunningRecovered) ==> Records == old(Records) && disk == old(disk)
      ensures id in jobs && old(Records)[id].status == RunningRecovered ==>
        Records == old(Records)[id := RecoveredGone(old(Records)[id], now)]
        && disk == if ok then old(disk)[id := Records[id]] else old(disk)
      ensures id in jobs && old(Records)[id].status == RunningRecovered ==>
        var j, r := old(Records)[id], Records[id];
        && r.status == ExitedAfterRecovery && r.exitCode == Some(-1) && r.updatedAt == now
        && r.error == j.error && r.id == j.id && r.launch == j.launch && r.pid == j.pid
      ensures forall watch: Watch | watch.id == id ::
                Does(RecoveryFires(watch, ok), now, old(Records), old(disk), Records, disk)
    {
      RecoveryDoes(id, ok, now, Records, disk);
      if id in jobs {
        var j := jobs[id];
        if j.status == RunningRecovered {
          j.exitCode := Some(-1);
          j.status := ExitedAfterRecovery;
          j.updatedAt := now;
          PersistLocked(j, ok);
        }
      }
    }

    /** Signal up to the kill: the pid or, negated, the process group to hit. */
    method SendSignal(id: JobId, sig: Signal, now: int, ok: bool) returns (target: Option<int>)
      requires Valid()
      modifies this`disk, this`Records, if id in jobs then {jobs[id]} else {}
      ensures Valid()
      ensures id !in jobs ==> target == None && Records == old(Records) && disk == old(disk)
      ensures id in jobs ==>
        && target == Some(if Records[id].launch.pgid > 0 then -Records[id].launch.pgid else Records[id].pid)
        && Records == old(Records)[id := Signalled(old(Records)[id], sig, now)]
        && disk == if ok then old(disk)[id := Records[id]] else old(disk)
      ensures id in jobs ==>
        var j, r := old(Records)[id], Records[id];
        && r.status == (if sig.TERM? || sig.INT? || sig.KILL? then Terminating else j.status)
        && r.updatedAt == now && r.exitCode == j.exitCode && r.error == j.error
        && r.id == j.id && r.launch == j.launch && r.pid == j.pid
      ensures Does(Step.SendSignal(id, sig, ok), now, old(Records), old(disk), Records, disk)
    {
      SignalDoes(id, sig, ok, now, Records, disk);
      if id !in jobs {
        return None;
      }
      var j := jobs[id];
      var pid := j.pid;
      if j.launch.pgid > 0 {
        pid := -j.launch.pgid;
      }
      if sig == TERM || sig == KILL || sig == INT {
        j.status := Terminating;
      }
      j.updatedAt := now;
      PersistLocked(j, ok);
      return Some(pid);
    }

    /** Prune's loop, in the map's own order. */
    method PruneAll(cutoff: int, kept: set<JobId>) returns (removed: nat)
      requires Valid()
      modifies this
      ensures Valid()
      ensures Records == old(Records) - PrunedIds(old(Records), cutoff)
      ensures disk == old(disk) - (PrunedIds(old(Records), cutoff) - kept)
      ensures removed == |PrunedIds(old(Records), cutoff)|
    {
      removed := 0;
      ghost var before, diskBefore := Records, disk;
      ghost var pruned: set<JobId> := {};
      var todo := jobs.Keys;
      while todo != {}
        invariant Valid() && PrunedBut(todo, pruned, before, Records, diskBefore, disk, cutoff, kept)
        invariant removed == |pruned|
        decreases todo
      {
        var id :| id in todo;
        PrunedOneMore(todo, pruned, before, Records, diskBefore, disk, cutoff, kept, id);
        todo := todo - {id};
        var gone := PruneOne(id, cutoff, id in kept);
        if gone {
          pruned := pruned + {id};
          removed := removed + 1;
        }
      }
      PrunedAll(pruned, before, Records, diskBefore, disk, cutoff, kept);
    }

    /** Prune; kept are the files os.Remove failed on. */
    method Prune(cutoff: int, kept: set<JobId>) returns (removed: nat)
      requires Valid()
      modifies this
      ensures Valid()
      ensures Records == old(Records) - PrunedIds(old(Records), cutoff)
      ensures disk == old(disk) - (PrunedIds(old(Records), cutoff) - kept)
      ensures removed == |PrunedIds(old(Records), cutoff)|
      ensures forall now :: Does(Step.Prune(cutoff, kept), now, old(Records), old(disk), Records, disk)
    {
      PruneDoes(cutoff, kept, Records, disk);
      removed := PruneAll(cutoff, kept);
    }

    method PruneOne(id: JobId, cutoff: int, keepFile: bool) returns (gone: bool)
      requires Valid() && id in jobs
      modifies this
      ensures Valid() && gone == Prunable(old(Records)[id], cutoff)
      ensures gone <==>
        old(Records)[id].status !in {Running, RunningRecovered, Terminating} && old(Records)[id].updatedAt <= cutoff
      ensures jobs == (if gone then old(jobs) - {id} else old(jobs))
      ensures Records == (if gone then old(Records) - {id} else old(Records))
      ensures disk == (if gone && !keepFile then old(disk) - {id} else old(disk))
    {
      var j := jobs[id];
      assert j.Record() == Records[id];
      gone := !(j.status == Running || j.status == RunningRecovered || j.status == Terminating || j.updatedAt > cutoff);
      if gone {
        if !keepFile {
          disk := disk - {id};
        }
        jobs := jobs - {id};
        Records := Records - {id};
      }
    }

    /** recover, into a manager that is still empty; oks says which persists
        go through.  Returns the jobs whose recovery monitor is launched. */
    method Recover(alive: set<int>, oks: set<JobId>, now: int) returns (monitored: set<JobId>)
      requires jobs == map[] && Records == map[] && forall id | id in disk :: disk[id].id == id
      modifies this
      ensures Valid() && Records == RecoverAll(old(disk), alive, now)
      ensures disk == map id | id in old(disk) ::
                if id in oks then RecoverAll(old(disk), alive, now)[id] else old(disk)[id]
      ensures monitored == set id | id in Records && Records[id].status == RunningRecovered
    {
      monitored := {};
      ghost var before := disk;
      var todo := disk.Keys;
      while todo != {}
        invariant Valid() && RecoveredBut(todo, before, Records, disk, monitored, alive, oks, now)
        decreases todo
      {
        var id :| id in todo;
        RecoveredOneMore(todo, before, Records, disk, monitored, alive, oks, now, id);
        todo := todo - {id};
        var status := RecoverOne(id, alive, id in oks, now);
        if status == RunningRecovered {
          monitored := monitored + {id};
        }
      }
      RecoveredAll(before, Records, disk, monitored, alive, oks, now);
    }

    method RecoverEntry(r: Job, alive: set<int>, now: int) returns (j: Entry)
      ensures fresh(j) && j.Record() == Recovered(r, r.pid in alive, now)
    {
      j := new Entry(r);
      if j.status == Running || j.status == Terminating || j.status == RunningRecovered {
        if j.pid in alive {
          j.status := RunningRecovered;
        } else {
          j.status := ExitedOffline;
          j.exitCode := Some(-1);
        }
        j.updatedAt := now;
      }
    }

    method RecoverOne(id: JobId, alive: set<int>, ok: bool, now: int) returns (status: Status)
      requires Valid() && id in disk && disk[id].id == id
      modifies this
      ensures Valid()
      ensures Records == old(Records)[id := Recovered(old(disk)[id], old(disk)[id].pid in alive, now)]
      ensures status == Records[id].status
      ensures PreservedJob(old(disk)[id], old(disk)[id].pid in alive, now, Records[id])
      ensures disk == if ok then old(disk)[id := Records[id]] else old(disk)
      ensures DoesRecover(id, alive, ok, now, old(Records), old(disk), Records, disk)
    {
      RecoverDoes(id, alive, ok, now, Records, disk);
      var j := RecoverEntry(disk[id], alive, now);
      Adopt(j, ok);
      status := j.status;
    }

    /** Enters a job under its own id and persists it. */
    method Adopt(j: Entry, ok: bool)
      requires Valid()
      modifies this
      ensures Valid() && jobs == old(jobs)[j.id := j] && Records == old(Records)[j.id := j.Record()]
      ensures disk == if ok then old(disk)[j.id := j.Record()] else old(disk)
    {
      jobs := jobs[j.id := j];
      Records := Records[j.id := j.Record()];
      PersistLocked(j, ok);
    }
  }
}
