/** The durable job manager: job records in memory and on disk, the processes
    they stand for, and the goroutines that watch those processes.

    A run is any interleaving of process starts and deaths, signals, prunes,
    runtime crashes and recoveries.  Each locked section of the program is one
    step; a persist inside it may fail.  So is the recovery of one file, which
    the program does before the manager is handed out, but without the lock. */
module Jobs {
  import opened Text

  type JobId = string

  datatype Status =
    | Running | RunningRecovered | Terminating
    | Exited | Terminated | ExitedExternal | ExitedOffline | ExitedAfterRecovery

  /** What never changes after a job is recorded, besides its id and pid. */
  datatype Launch = Launch(command: string, cwd: string, env: map<string, string>, shell: string,
                           pgid: int, logFile: string, createdAt: int, context: string)

  datatype Job = Job(id: JobId, launch: Launch, pid: int, status: Status,
                     exitCode: Option<int>, updatedAt: int, error: string)

  predicate Live(s: Status) {
    s == Running || s == RunningRecovered || s == Terminating
  }

  predicate Ended(j: Job) {
    !Live(j.status)
  }

  /** How cmd.Wait reports: nil, an ExitError with a code, or another error. */
  datatype WaitResult = Clean | ExitError(code: int) | OtherError(message: string)

  datatype Signal = TERM | INT | KILL | HUP | USR1 | USR2

  predicate Terminates(sig: Signal) {
    sig == TERM || sig == INT || sig == KILL
  }

  // ------------------------------------------- updates of a single record

  function NewJob(id: JobId, launch: Launch, pid: int, now: int): Job {
    Job(id, launch, pid, Running, None, now, "")
  }

  /** finishJob */
  function Finished(j: Job, res: WaitResult, now: int): Job {
    j.(updatedAt := now,
       exitCode := Some(match res case Clean => 0 case ExitError(c) => c case OtherError(_) => -1),
       error := if res.OtherError? then res.message else j.error,
       status := if j.status == Terminating then Terminated else Exited)
  }

  /** monitorExternal, once the process is gone */
  function ExternalGone(j: Job, now: int): Job {
    if Live(j.status) then
      j.(exitCode := Some(-1), updatedAt := now,
         status := if j.status == Terminating then Terminated else ExitedExternal)
    else j
  }

  /** monitorRecovered, once the process is gone: terminating is not handled. */
  function RecoveredGone(j: Job, now: int): Job {
    if j.status == RunningRecovered then
      j.(exitCode := Some(-1), updatedAt := now, status := ExitedAfterRecovery)
    else j
  }

  /** Signal, whatever status the job has */
  function Signalled(j: Job, sig: Signal, now: int): Job {
    j.(updatedAt := now, status := if Terminates(sig) then Terminating else j.status)
  }

  /** recover */
  function Recovered(j: Job, alive: bool, now: int): Job {
    if Live(j.status) then
      if alive then j.(status := RunningRecovered, updatedAt := now)
      else j.(status := ExitedOffline, exitCode := Some(-1), updatedAt := now)
    else j
  }

  predicate Prunable(j: Job, cutoff: int) {
    Ended(j) && j.updatedAt <= cutoff
  }

  // ------------------------------------------------------ the whole system

  datatype Process = Alive | Gone(code: int)

  datatype Kind = Waiter | External | RecoveryMonitor

  /** A goroutine bound to a job and a pid. */
  datatype Watch = Watch(kind: Kind, id: JobId, pid: int)

  datatype Phase = Down | Recovering(todo: set<JobId>) | Up

  datatype World = World(
    phase: Phase,
    mem: map<JobId, Job>,
    disk: map<JobId, Job>,
    procs: map<int, Process>,    // every process ever started
    starting: set<Watch>,        // recorded; its goroutine is about to be launched
    watchers: set<Watch>,
    used: set<JobId>,            // every job id ever generated
    stale: set<JobId>,           // last write (or removal) on disk failed
    born: set<JobId>,            // recorded in this life of the runtime, not recovered
    now: int)

  const INIT := World(Up, map[], map[], map[], {}, {}, {}, {}, {}, 0)

  /** processAlive */
  predicate IsAlive(w: World, pid: int) {
    pid > 0 && pid in w.procs && w.procs[pid].Alive?
  }

  datatype Step =
    | Tick(delta: nat)
    | Spawn(pid: int)
    | ProcessExit(pid: int, code: int)
    | Record(kind: Kind, id: JobId, launch: Launch, pid: int, ok: bool)
    | Attach(watch: Watch)
    | WaiterFires(watch: Watch, res: WaitResult, ok: bool)
    | ExternalFires(watch: Watch, ok: bool)
    | RecoveryFires(watch: Watch, ok: bool)
    | SendSignal(id: JobId, sig: Signal, ok: bool)
    | Prune(cutoff: int, kept: set<JobId>)   // kept: files that could not be removed
    | Crash
    | BeginRecovery
    | RecoverOne(id: JobId, ok: bool)
    | EndRecovery

  function WaitOf(code: int): WaitResult {
    if code == 0 then Clean else ExitError(code)
  }

  predicate Enabled(w: World, s: Step) {
    match s
    case Tick(_) => true
    case Spawn(pid) => pid > 0 && pid !in w.procs
    case ProcessExit(pid, _) => IsAlive(w, pid)
    case Record(kind, id, _, pid, _) =>
      w.phase.Up? && id !in w.used && pid > 0 && (kind.External? || (kind.Waiter? && pid in w.procs))
    case Attach(watch) => watch in w.starting
    case WaiterFires(watch, res, _) =>
      && watch in w.watchers && watch.kind.Waiter?
      && watch.pid in w.procs && w.procs[watch.pid].Gone?
      && (res.OtherError? || res == WaitOf(w.procs[watch.pid].code))
    case ExternalFires(watch, _) => watch in w.watchers && watch.kind.External? && !IsAlive(w, watch.pid)
    case RecoveryFires(watch, _) => watch in w.watchers && watch.kind.RecoveryMonitor? && !IsAlive(w, watch.pid)
    case SendSignal(id, _, _) => w.phase.Up?
    case Prune(_, _) => w.phase.Up?
    case Crash => true
    case BeginRecovery => w.phase.Down?
    case RecoverOne(id, _) => w.phase.Recovering? && id in w.phase.todo && id in w.disk
    case EndRecovery => w.phase.Recovering? && w.phase.todo == {}
  }

  /** A locked section that sets a job's record and persists it. */
  function Store(w: World, id: JobId, j: Job, ok: bool): World {
    w.(mem := w.mem[id := j],
       disk := if ok then w.disk[id := j] else w.disk,
       stale := if ok then w.stale - {id} else w.stale + {id})
  }

  /** A watcher finds its process gone, acts on its job and returns. */
  function Fire(w: World, watch: Watch, update: Option<Job>, ok: bool): World {
    var w' := w.(watchers := w.watchers - {watch});
    match update
    case Some(j) => Store(w', watch.id, j, ok)
    case None => w'
  }

  function PrunedIds(mem: map<JobId, Job>, cutoff: int): set<JobId> {
    set id | id in mem && Prunable(mem[id], cutoff)
  }

  function Apply(w: World, s: Step): World
    requires Enabled(w, s)
  {
    match s
    case Tick(delta) => w.(now := w.now + delta)
    case Spawn(pid) => w.(procs := w.procs[pid := Alive])
    case ProcessExit(pid, code) => w.(procs := w.procs[pid := Gone(code)])
    case Record(kind, id, launch, pid, ok) =>
      Store(w, id, NewJob(id, launch, pid, w.now), ok).(
        used := w.used + {id}, born := w.born + {id}, starting := w.starting + {Watch(kind, id, pid)})
    case Attach(watch) => w.(starting := w.starting - {watch}, watchers := w.watchers + {watch})
    case WaiterFires(watch, res, ok) =>
      Fire(w, watch, if watch.id in w.mem then Some(Finished(w.mem[watch.id], res, w.now)) else None, ok)
    case ExternalFires(watch, ok) =>
      Fire(w, watch, if watch.id in w.mem && Live(w.mem[watch.id].status)
                     then Some(ExternalGone(w.mem[watch.id], w.now)) else None, ok)
    case RecoveryFires(watch, ok) =>
      Fire(w, watch, if watch.id in w.mem && w.mem[watch.id].status == RunningRecovered
                     then Some(RecoveredGone(w.mem[watch.id], w.now)) else None, ok)
    case SendSignal(id, sig, ok) =>
      if id in w.mem then Store(w, id, Signalled(w.mem[id], sig, w.now), ok) else w
    case Prune(cutoff, kept) =>
      var gone := PrunedIds(w.mem, cutoff);
      w.(mem := w.mem - gone, disk := w.disk - (gone - kept), stale := (w.stale - gone) + (gone * kept))
    case Crash => w.(phase := Down, mem := map[], starting := {}, watchers := {}, stale := {}, born := {})
    case BeginRecovery => w.(phase := Recovering(w.disk.Keys))
    case RecoverOne(id, ok) =>
      var j := Recovered(w.disk[id], IsAlive(w, w.disk[id].pid), w.now);
      var w' := Store(w.(phase := Recovering(w.phase.todo - {id})), id, j, ok);
      if j.status == RunningRecovered then w'.(watchers := w'.watchers + {Watch(RecoveryMonitor, id, j.pid)}) else w'
    case EndRecovery => w.(phase := Up)
  }

  function Run(w: World, steps: seq<Step>): Option<World>
    decreases |steps|
  {
    if steps == [] then Some(w)
    else if !Enabled(w, steps[0]) then None
    else Run(Apply(w, steps[0]), steps[1..])
  }

  ghost predicate Reachable(w: World) {
    exists steps :: Run(INIT, steps) == Some(w)
  }

  // ------------------------------------------------------------ invariant

  /** An ended job has an exit code, and a code other than -1 is the one its
      own process returned. */
  predicate Truthful(j: Job, procs: map<int, Process>) {
    && (Ended(j) ==> j.exitCode.Some?)
    && (j.exitCode.Some? && j.exitCode.value != -1 ==>
          j.pid in procs && procs[j.pid] == Gone(j.exitCode.value))
  }

  ghost predicate RecordsOk(w: World) {
    && (forall id | id in w.mem :: w.mem[id].id == id && id in w.used && Truthful(w.mem[id], w.procs))
    && (forall id | id in w.disk :: w.disk[id].id == id && id in w.used && Truthful(w.disk[id], w.procs))
  }

  ghost predicate PhaseOk(w: World) {
    match w.phase
    case Down => w.mem == map[] && w.watchers == {} && w.starting == {} && w.stale == {}
    case Recovering(todo) => w.starting == {} && todo <= w.disk.Keys && w.mem.Keys == w.disk.Keys - todo
    case Up => true
  }

  function Watches(w: World): set<Watch> {
    w.watchers + w.starting
  }

  /** What a watch says about its job: which statuses that watcher can meet. */
  predicate Guards(watch: Watch, mem: map<JobId, Job>) {
    && watch.id in mem && mem[watch.id].pid == watch.pid
    && mem[watch.id].status in (if watch.kind.RecoveryMonitor? then {RunningRecovered, Terminating}
                                else {Running, Terminating})
  }

  ghost predicate WatchesOk(w: World) {
    && w.watchers !! w.starting
    && (forall watch | watch in w.starting :: !watch.kind.RecoveryMonitor?)
    && (forall watch | watch in Watches(w) :: Guards(watch, w.mem))
    && (forall watch | watch in Watches(w) && watch.kind.Waiter? :: watch.pid in w.procs && watch.pid > 0)
    && (forall a, b | a in Watches(w) && b in Watches(w) && a.id == b.id :: a == b)
  }

  ghost predicate Watched(w: World, id: JobId) {
    exists watch :: watch in Watches(w) && watch.id == id
  }

  ghost predicate RunningWatched(w: World) {
    forall id | id in w.mem && w.mem[id].status in {Running, RunningRecovered} :: Watched(w, id)
  }

  /** Memory and disk agree on every job whose last write went through. */
  ghost predicate Agree(w: World) {
    w.phase.Up? || w.phase.Recovering? ==>
      forall id | id !in w.stale && !(w.phase.Recovering? && id in w.phase.todo) ::
        (id in w.mem <==> id in w.disk) && (id in w.mem ==> w.mem[id] == w.disk[id])
  }

  ghost predicate Inv(w: World) {
    RecordsOk(w) && PhaseOk(w) && WatchesOk(w) && RunningWatched(w) && Agree(w)
  }

  lemma StoreRecords(w: World, id: JobId, j: Job, ok: bool)
    requires RecordsOk(w) && id in w.used && j.id == id && Truthful(j, w.procs)
    ensures RecordsOk(Store(w, id, j, ok))
  {
  }

  lemma ProcessRecords(w: World, pid: int, p: Process)
    requires RecordsOk(w) && (pid in w.procs ==> w.procs[pid].Alive?)
    ensures RecordsOk(w.(procs := w.procs[pid := p]))
  {
  }

  lemma FiredRecords(w: World, s: Step)
    requires Inv(w) && Enabled(w, s) && (s.WaiterFires? || s.ExternalFires? || s.RecoveryFires?)
    ensures RecordsOk(Apply(w, s))
  {
    assert Guards(s.watch, w.mem);
    var id := s.watch.id;
    match s
    case WaiterFires(_, res, ok) => StoreRecords(w, id, Finished(w.mem[id], res, w.now), ok);
    case ExternalFires(_, ok) => StoreRecords(w, id, ExternalGone(w.mem[id], w.now), ok);
    case RecoveryFires(_, ok) => StoreRecords(w, id, RecoveredGone(w.mem[id], w.now), ok);
  }

  lemma InvRecords(w: World, s: Step)
    requires Inv(w) && Enabled(w, s)
    ensures RecordsOk(Apply(w, s))
  {
    match s
    case Spawn(pid) => ProcessRecords(w, pid, Alive);
    case ProcessExit(pid, code) => ProcessRecords(w, pid, Gone(code));
    case Record(kind, id, launch, pid, ok) =>
      StoreRecords(w.(used := w.used + {id}), id, NewJob(id, launch, pid, w.now), ok);
    case WaiterFires(_, _, _) => FiredRecords(w, s);
    case ExternalFires(_, _) => FiredRecords(w, s);
    case RecoveryFires(_, _) => FiredRecords(w, s);
    case SendSignal(id, sig, ok) =>
      if id in w.mem { StoreRecords(w, id, Signalled(w.mem[id], sig, w.now), ok); }
    case RecoverOne(id, ok) =>
      StoreRecords(w, id, Recovered(w.disk[id], IsAlive(w, w.disk[id].pid), w.now), ok);
    case _ =>
  }

  lemma InvPhase(w: World, s: Step)
    requires Inv(w) && Enabled(w, s)
    ensures PhaseOk(Apply(w, s))
  {
    if s.RecoverOne? {
      RecoverPhase(w, s);
    } else if s.WaiterFires? || s.ExternalFires? || s.RecoveryFires? {
      FiredPhase(w, s);
    }
  }

  lemma RecoverPhase(w: World, s: Step)
    requires Inv(w) && Enabled(w, s) && s.RecoverOne?
    ensures PhaseOk(Apply(w, s))
  {
  }

  lemma FiredPhase(w: World, s: Step)
    requires Inv(w) && Enabled(w, s) && (s.WaiterFires? || s.ExternalFires? || s.RecoveryFires?)
    ensures PhaseOk(Apply(w, s))
  {
    assert Guards(s.watch, w.mem);
  }

  lemma WatchDropped(w: World, watch: Watch, update: Option<Job>, ok: bool)
    requires WatchesOk(w) && watch in w.watchers
    ensures WatchesOk(Fire(w, watch, update, ok))
  {
    var w' := Fire(w, watch, update, ok);
    forall x | x in Watches(w') ensures Guards(x, w'.mem) {
      assert x in Watches(w) && x != watch && Guards(x, w.mem);
      assert x.id != watch.id;
    }
  }

  lemma StoreWatches(w: World, id: JobId, j: Job, ok: bool)
    requires WatchesOk(w)
    requires forall watch | watch in Watches(w) && watch.id == id :: Guards(watch, w.mem[id := j])
    ensures WatchesOk(Store(w, id, j, ok))
  {
    var w' := Store(w, id, j, ok);
    forall x | x in Watches(w') ensures Guards(x, w'.mem) {
      assert Guards(x, w.mem);
    }
  }

  lemma WatchAdded(w: World, watch: Watch, w': World)
    requires WatchesOk(w) && Guards(watch, w.mem) && forall x | x in Watches(w) :: x.id != watch.id
    requires watch.kind.Waiter? ==> watch.pid in w.procs && watch.pid > 0
    requires w'.mem == w.mem && w'.procs == w.procs
    requires (w'.watchers == w.watchers + {watch} && w'.starting == w.starting)
          || (w'.watchers == w.watchers && w'.starting == w.starting + {watch} && !watch.kind.RecoveryMonitor?)
    ensures WatchesOk(w')
  {
  }

  lemma FiredWatches(w: World, s: Step)
    requires Inv(w) && Enabled(w, s) && (s.WaiterFires? || s.ExternalFires? || s.RecoveryFires?)
    ensures WatchesOk(Apply(w, s))
  {
    var watch := s.watch;
    assert Guards(watch, w.mem);
    var j := w.mem[watch.id];
    match s
    case WaiterFires(_, res, ok) => WatchDropped(w, watch, Some(Finished(j, res, w.now)), ok);
    case ExternalFires(_, ok) =>
      WatchDropped(w, watch, if Live(j.status) then Some(ExternalGone(j, w.now)) else None, ok);
    case RecoveryFires(_, ok) =>
      WatchDropped(w, watch, if j.status == RunningRecovered then Some(RecoveredGone(j, w.now)) else None, ok);
  }

  lemma RecordWatches(w: World, s: Step)
    requires Inv(w) && Enabled(w, s) && s.Record?
    ensures WatchesOk(Apply(w, s))
  {
    var j := NewJob(s.id, s.launch, s.pid, w.now);
    StoreWatches(w, s.id, j, s.ok);
    WatchAdded(Store(w, s.id, j, s.ok), Watch(s.kind, s.id, s.pid), Apply(w, s));
  }

  lemma InvWatches(w: World, s: Step)
    requires Inv(w) && Enabled(w, s)
    ensures WatchesOk(Apply(w, s))
  {
    if s.WaiterFires? || s.ExternalFires? || s.RecoveryFires? {
      FiredWatches(w, s);
    } else if s.Record? {
      RecordWatches(w, s);
    } else if s.RecoverOne? {
      RecoverWatches(w, s.id, s.ok);
    } else if s.SendSignal? {
      SignalWatches(w, s);
    } else {
      QuietWatches(w, s);
    }
  }

  lemma SignalWatches(w: World, s: Step)
    requires Inv(w) && Enabled(w, s) && s.SendSignal?
    ensures WatchesOk(Apply(w, s))
  {
    if s.id in w.mem { StoreWatches(w, s.id, Signalled(w.mem[s.id], s.sig, w.now), s.ok); }
  }

  lemma QuietWatches(w: World, s: Step)
    requires Inv(w) && Enabled(w, s)
    requires !s.WaiterFires? && !s.ExternalFires? && !s.RecoveryFires? && !s.Record? && !s.RecoverOne? && !s.SendSignal?
    ensures WatchesOk(Apply(w, s))
  {
    var w' := Apply(w, s);
    forall x | x in Watches(w') ensures Guards(x, w'.mem) {
      assert Guards(x, w.mem);
    }
  }

  lemma RecoverWatches(w: World, id: JobId, ok: bool)
    requires Inv(w) && Enabled(w, RecoverOne(id, ok))
    ensures WatchesOk(Apply(w, RecoverOne(id, ok)))
  {
    var j := Recovered(w.disk[id], IsAlive(w, w.disk[id].pid), w.now);
    var w1 := Store(w.(phase := Recovering(w.phase.todo - {id})), id, j, ok);
    StoreWatches(w.(phase := Recovering(w.phase.todo - {id})), id, j, ok);
    if j.status == RunningRecovered {
      WatchAdded(w1, Watch(RecoveryMonitor, id, j.pid), Apply(w, RecoverOne(id, ok)));
    }
  }

  lemma StoreRunning(w: World, id: JobId, j: Job, ok: bool)
    requires RunningWatched(w)
    requires j.status in {Running, RunningRecovered} ==> Watched(w, id)
    ensures RunningWatched(Store(w, id, j, ok))
  {
    var w' := Store(w, id, j, ok);
    forall x | x in w'.mem && w'.mem[x].status in {Running, RunningRecovered} ensures Watched(w', x) {
      assert Watched(w, x);
    }
  }

  /** Losing the watcher of a job that is not running any more. */
  lemma FireRunning(w: World, watch: Watch, w': World)
    requires RunningWatched(w) && w'.mem.Keys == w.mem.Keys
    requires forall x | x in w.mem && x != watch.id :: w'.mem[x] == w.mem[x]
    requires watch.id in w.mem ==> w'.mem[watch.id].status !in {Running, RunningRecovered}
    requires w'.watchers == w.watchers - {watch} && w'.starting == w.starting
    ensures RunningWatched(w')
  {
    forall x | x in w'.mem && w'.mem[x].status in {Running, RunningRecovered} ensures Watched(w', x) {
      assert Watched(w, x);
      var other :| other in Watches(w) && other.id == x;
      assert other in Watches(w');
    }
  }

  lemma MoreWatches(w: World, w': World)
    requires RunningWatched(w) && w'.mem == w.mem && Watches(w) <= Watches(w')
    ensures RunningWatched(w')
  {
    forall x | x in w'.mem && w'.mem[x].status in {Running, RunningRecovered} ensures Watched(w', x) {
      assert Watched(w, x);
    }
  }

  lemma FiredRunning(w: World, s: Step)
    requires Inv(w) && Enabled(w, s) && (s.WaiterFires? || s.ExternalFires? || s.RecoveryFires?)
    ensures RunningWatched(Apply(w, s))
  {
    FiredEffect(w, s);
    FireRunning(w, s.watch, Apply(w, s));
  }

  lemma FiredEffect(w: World, s: Step)
    requires Inv(w) && Enabled(w, s) && (s.WaiterFires? || s.ExternalFires? || s.RecoveryFires?)
    ensures var w' := Apply(w, s);
            && w'.watchers == w.watchers - {s.watch} && w'.starting == w.starting && w'.mem.Keys == w.mem.Keys
            && (forall x | x in w.mem && x != s.watch.id :: w'.mem[x] == w.mem[x])
            && (s.watch.id in w.mem ==> w'.mem[s.watch.id].status !in {Running, RunningRecovered})
  {
    assert Guards(s.watch, w.mem);
  }

  lemma InvRunning(w: World, s: Step)
    requires Inv(w) && Enabled(w, s)
    ensures RunningWatched(Apply(w, s))
  {
    match s
    case WaiterFires(_, _, _) => FiredRunning(w, s);
    case ExternalFires(_, _) => FiredRunning(w, s);
    case RecoveryFires(_, _) => FiredRunning(w, s);
    case Record(kind, id, launch, pid, ok) =>
      var w1 := w.(used := w.used + {id}, starting := w.starting + {Watch(kind, id, pid)});
      MoreWatches(w, w1);
      assert Watch(kind, id, pid) in Watches(w1);
      StoreRunning(w1, id, NewJob(id, launch, pid, w.now), ok);
    case SendSignal(id, sig, ok) =>
      if id in w.mem { StoreRunning(w, id, Signalled(w.mem[id], sig, w.now), ok); }
    case RecoverOne(id, ok) => RecoverRunning(w, id, ok);
    case _ => QuietRunning(w, Apply(w, s));
  }

  lemma QuietRunning(w: World, w': World)
    requires RunningWatched(w) && (w'.mem == map[] || Watches(w') == Watches(w))
    requires forall x | x in w'.mem :: x in w.mem && w'.mem[x] == w.mem[x]
    ensures RunningWatched(w')
  {
    forall x | x in w'.mem && w'.mem[x].status in {Running, RunningRecovered} ensures Watched(w', x) {
      assert Watched(w, x);
    }
  }

  lemma RecoverRunning(w: World, id: JobId, ok: bool)
    requires Inv(w) && Enabled(w, RecoverOne(id, ok))
    ensures RunningWatched(Apply(w, RecoverOne(id, ok)))
  {
    var j := Recovered(w.disk[id], IsAlive(w, w.disk[id].pid), w.now);
    var w1 := w.(phase := Recovering(w.phase.todo - {id}),
                 watchers := if j.status == RunningRecovered then w.watchers + {Watch(RecoveryMonitor, id, j.pid)} else w.watchers);
    assert j.status == RunningRecovered ==> Watch(RecoveryMonitor, id, j.pid) in Watches(w1);
    MoreWatches(w, w1);
    StoreRunning(w1, id, j, ok);
  }

  lemma StoreAgrees(w: World, id: JobId, j: Job, ok: bool)
    requires Agree(w) && !w.phase.Down?
    ensures Agree(Store(w, id, j, ok))
  {
  }

  lemma FiredAgrees(w: World, s: Step)
    requires Inv(w) && Enabled(w, s) && (s.WaiterFires? || s.ExternalFires? || s.RecoveryFires?)
    ensures Agree(Apply(w, s))
  {
    assert Guards(s.watch, w.mem);
    var id := s.watch.id;
    match s
    case WaiterFires(_, res, ok) => StoreAgrees(w, id, Finished(w.mem[id], res, w.now), ok);
    case ExternalFires(_, ok) => StoreAgrees(w, id, ExternalGone(w.mem[id], w.now), ok);
    case RecoveryFires(_, ok) => StoreAgrees(w, id, RecoveredGone(w.mem[id], w.now), ok);
  }

  lemma InvAgree(w: World, s: Step)
    requires Inv(w) && Enabled(w, s)
    ensures Agree(Apply(w, s))
  {
    match s
    case WaiterFires(_, _, _) => FiredAgrees(w, s);
    case ExternalFires(_, _) => FiredAgrees(w, s);
    case RecoveryFires(_, _) => FiredAgrees(w, s);
    case SendSignal(id, sig, ok) =>
      if id in w.mem { StoreAgrees(w, id, Signalled(w.mem[id], sig, w.now), ok); }
    case Record(kind, id, launch, pid, ok) =>
      StoreAgrees(w, id, NewJob(id, launch, pid, w.now), ok);
    case _ =>
  }

  /** Every reachable state satisfies the invariant. */
  lemma {:induction false} InvAlongRun(w: World, steps: seq<Step>)
    requires Inv(w) && Run(w, steps).Some?
    ensures Inv(Run(w, steps).value)
    decreases |steps|
  {
    if steps != [] {
      InvStep(w, steps[0]);
      InvAlongRun(Apply(w, steps[0]), steps[1..]);
    }
  }

  lemma InvStep(w: World, s: Step)
    requires Inv(w) && Enabled(w, s)
    ensures Inv(Apply(w, s))
  {
    InvRecords(w, s);
    InvPhase(w, s);
    InvWatches(w, s);
    InvRunning(w, s);
    InvAgree(w, s);
  }

  lemma ReachableInv(w: World)
    requires Reachable(w)
    ensures Inv(w)
  {
    var steps :| Run(INIT, steps) == Some(w);
    InvAlongRun(INIT, steps);
  }

  // -------------------------------------------------------- main theorems

  predicate Fires(s: Step, watch: Watch) {
    (s.WaiterFires? || s.ExternalFires? || s.RecoveryFires?) && s.watch == watch
  }

  /** A running job has exactly one watcher, bound to its own pid. */
  lemma RunningHasOneWatcher(w: World, id: JobId) returns (watch: Watch)
    requires Reachable(w) && id in w.mem && w.mem[id].status in {Running, RunningRecovered}
    ensures watch in Watches(w) && watch.id == id && watch.pid == w.mem[id].pid
    ensures forall x | x in Watches(w) && x.id == id :: x == watch
    ensures watch.kind.RecoveryMonitor? <==> w.mem[id].status == RunningRecovered
  {
    ReachableInv(w);
    assert Watched(w, id);
    watch :| watch in Watches(w) && watch.id == id;
    assert Guards(watch, w.mem);
  }

  /** Once the process of a running job is gone, its attached watcher can
      fire, and however it fires the job ends with an exit code. */
  lemma GoneJobEnds(w: World, id: JobId, watch: Watch)
    requires Reachable(w) && id in w.mem && w.mem[id].status in {Running, RunningRecovered}
    requires watch in w.watchers && watch.id == id
    requires !IsAlive(w, watch.pid)
    ensures exists s :: Fires(s, watch) && Enabled(w, s)
    ensures forall s | Fires(s, watch) && Enabled(w, s) ::
              id in Apply(w, s).mem && Ended(Apply(w, s).mem[id]) && Apply(w, s).mem[id].exitCode.Some?
  {
    ReachableInv(w);
    assert Guards(watch, w.mem);
    var s := GoneJobFires(w, watch);
    forall s | Fires(s, watch) && Enabled(w, s)
      ensures id in Apply(w, s).mem && Ended(Apply(w, s).mem[id]) && Apply(w, s).mem[id].exitCode.Some?
    {
      FiringEnds(w, id, s);
    }
  }

  lemma GoneJobFires(w: World, watch: Watch) returns (s: Step)
    requires Inv(w) && watch in w.watchers && !IsAlive(w, watch.pid)
    ensures Fires(s, watch) && Enabled(w, s)
  {
    s := match watch.kind
         case Waiter => WaiterFires(watch, OtherError(""), true)
         case External => ExternalFires(watch, true)
         case RecoveryMonitor => RecoveryFires(watch, true);
  }

  lemma FiringEnds(w: World, id: JobId, s: Step)
    requires Inv(w) && id in w.mem && w.mem[id].status in {Running, RunningRecovered}
    requires (s.WaiterFires? || s.ExternalFires? || s.RecoveryFires?) && s.watch.id == id && Enabled(w, s)
    ensures id in Apply(w, s).mem && Ended(Apply(w, s).mem[id]) && Apply(w, s).mem[id].exitCode.Some?
  {
    assert Guards(s.watch, w.mem);
  }

  /** "Ended" is absorbing for everything but Signal: an ended job that stays
      in memory keeps its whole record unless it is signalled, and changes
      status exactly when the signal is TERM, INT or KILL. */
  lemma EndedLeftOnlyBySignal(w: World, s: Step, id: JobId)
    requires Reachable(w) && Enabled(w, s)
    requires id in w.mem && Ended(w.mem[id]) && id in Apply(w, s).mem
    ensures !(s.SendSignal? && s.id == id) ==> Apply(w, s).mem[id] == w.mem[id]
    ensures Apply(w, s).mem[id].status != w.mem[id].status <==>
              s.SendSignal? && s.id == id && Terminates(s.sig)
    ensures Apply(w, s).mem[id].status in {w.mem[id].status, Terminating}
  {
    ReachableInv(w);
    if s.WaiterFires? || s.ExternalFires? || s.RecoveryFires? {
      FiredKeepsEnded(w, s, id);
    } else {
      OtherKeepsEnded(w, s, id);
    }
  }

  lemma FiredKeepsEnded(w: World, s: Step, id: JobId)
    requires Inv(w) && Enabled(w, s) && (s.WaiterFires? || s.ExternalFires? || s.RecoveryFires?)
    requires id in w.mem && Ended(w.mem[id])
    ensures id in Apply(w, s).mem && Apply(w, s).mem[id] == w.mem[id]
  {
    assert Guards(s.watch, w.mem);
  }

  lemma OtherKeepsEnded(w: World, s: Step, id: JobId)
    requires Inv(w) && Enabled(w, s) && !s.WaiterFires? && !s.ExternalFires? && !s.RecoveryFires?
    requires id in w.mem && Ended(w.mem[id]) && id in Apply(w, s).mem
    ensures Apply(w, s).mem[id] ==
            if s.SendSignal? && s.id == id then Signalled(w.mem[id], s.sig, w.now) else w.mem[id]
  {
  }

  lemma ReachableStep(w: World, s: Step)
    requires Reachable(w) && Enabled(w, s)
    ensures Reachable(Apply(w, s))
  {
    var steps :| Run(INIT, steps) == Some(w);
    RunAppend(INIT, steps, s);
  }

  lemma {:induction false} RunAppend(w: World, steps: seq<Step>, last: Step)
    requires Run(w, steps).Some? && Enabled(Run(w, steps).value, last)
    ensures Run(w, steps + [last]) == Some(Apply(Run(w, steps).value, last))
    decreases |steps|
  {
    if steps == [] {
      assert Run(Apply(w, last), []) == Some(Apply(w, last));
      assert [last][1..] == [];
    } else {
      assert (steps + [last])[1..] == steps[1..] + [last];
      RunAppend(Apply(w, steps[0]), steps[1..], last);
    }
  }

  // ------------------------------------------------- crash and recovery

  function AlivePids(w: World): set<int> {
    set pid | pid in w.procs && IsAlive(w, pid)
  }

  /** What recovery makes of a directory of persisted jobs. */
  function RecoverAll(disk: map<JobId, Job>, alive: set<int>, now: int): map<JobId, Job> {
    map id | id in disk :: Recovered(disk[id], disk[id].pid in alive, now)
  }

  predicate SameButTime(a: Job, b: Job) {
    a.(updatedAt := 0) == b.(updatedAt := 0)
  }

  /** Every persisted job is kept and no other appears; what a job is does not
      change; none is running or terminating; one is restored to running exactly
      when it was live on disk and its process still is, and otherwise exited
      while offline with code -1; ended ones keep their whole record. */
  ghost predicate Preserved(disk: map<JobId, Job>, alive: set<int>, now: int, mem: map<JobId, Job>) {
    && mem.Keys == disk.Keys
    && forall id | id in disk :: PreservedJob(disk[id], disk[id].pid in alive, now, mem[id])
  }

  predicate PreservedJob(j: Job, alive: bool, now: int, r: Job) {
    && r.id == j.id && r.launch == j.launch && r.pid == j.pid && r.error == j.error
    && r.status !in {Running, Terminating}
    && (j.status !in {Running, RunningRecovered, Terminating} ==> r == j)
    && (j.status in {Running, RunningRecovered, Terminating} ==>
          && r.updatedAt == now
          && (alive ==> r.status == RunningRecovered && r.exitCode == j.exitCode)
          && (!alive ==> r.status == ExitedOffline && r.exitCode == Some(-1)))
  }

  function RecoverSteps(order: seq<JobId>, oks: seq<bool>): seq<Step>
    requires |oks| == |order|
  {
    seq(|order|, i requires 0 <= i < |order| => RecoverOne(order[i], oks[i]))
  }

  ghost predicate Enumerates(order: seq<JobId>, ids: set<JobId>) {
    (forall id :: id in order <==> id in ids) && forall i, j | 0 <= i < j < |order| :: order[i] != order[j]
  }

  lemma RecoverOneEffect(w: World, id: JobId, ok: bool)
    requires Enabled(w, RecoverOne(id, ok))
    ensures var w' := Apply(w, RecoverOne(id, ok));
            && w'.phase == Recovering(w.phase.todo - {id}) && w'.now == w.now && w'.procs == w.procs
            && w'.mem == w.mem[id := Recovered(w.disk[id], w.disk[id].pid in AlivePids(w), w.now)]
            && w'.disk.Keys == w.disk.Keys && (forall x | x in w.disk && x != id :: w'.disk[x] == w.disk[x])
            && w'.disk[id] == (if ok then w'.mem[id] else w.disk[id])
            && (ok ==> w'.stale <= w.stale)
  {
  }

  ghost predicate RecoveredFrom(w: World, r: World) {
    && r.phase == Recovering({}) && r.now == w.now && r.procs == w.procs
    && r.mem.Keys == w.mem.Keys + (if w.phase.Recovering? then w.phase.todo else {})
    && (forall id | id in w.mem :: id in r.mem && r.mem[id] == w.mem[id])
    && (w.phase.Recovering? ==> forall id | id in w.phase.todo && id in w.disk ::
          id in r.mem && r.mem[id] == Recovered(w.disk[id], w.disk[id].pid in AlivePids(w), w.now))
  }

  lemma RecoveredFromStep(w: World, id: JobId, ok: bool, r: World)
    requires w.phase.Recovering? && w.phase.todo !! w.mem.Keys && Enabled(w, RecoverOne(id, ok))
    requires RecoveredFrom(Apply(w, RecoverOne(id, ok)), r)
    ensures RecoveredFrom(w, r)
  {
    var w1 := Apply(w, RecoverOne(id, ok));
    RecoverOneEffect(w, id, ok);
    assert AlivePids(w1) == AlivePids(w);
    assert w.mem.Keys + w.phase.todo == w1.mem.Keys + w1.phase.todo;
    forall x | x in w.mem ensures x in r.mem && r.mem[x] == w.mem[x] {
      assert x in w1.mem && x != id;
    }
  }

  lemma {:induction false} RecoverEach(w: World, order: seq<JobId>, oks: seq<bool>)
    requires w.phase.Recovering? && w.phase.todo <= w.disk.Keys && w.phase.todo !! w.mem.Keys
    requires Enumerates(order, w.phase.todo) && |oks| == |order|
    ensures var r := Run(w, RecoverSteps(order, oks));
            && r.Some? && RecoveredFrom(w, r.value)
            && ((forall ok | ok in oks :: ok) ==> r.value.stale <= w.stale)
    decreases |order|
  {
    if order == [] {
      assert forall x | x in w.phase.todo :: x in order;
    } else {
      var id, ok := order[0], oks[0];
      assert id in order && ok in oks && forall x | x in oks[1..] :: x in oks;
      var w1 := Apply(w, RecoverOne(id, ok));
      RecoverOneEffect(w, id, ok);
      EnumeratesTail(order, w.phase.todo);
      RecoverEach(w1, order[1..], oks[1..]);
      RecoverStepsTail(order, oks);
      RecoveredFromStep(w, id, ok, Run(w1, RecoverSteps(order[1..], oks[1..])).value);
    }
  }

  lemma RecoverStepsTail(order: seq<JobId>, oks: seq<bool>)
    requires order != [] && |oks| == |order|
    ensures RecoverSteps(order, oks)[0] == RecoverOne(order[0], oks[0])
    ensures RecoverSteps(order, oks)[1..] == RecoverSteps(order[1..], oks[1..])
  {
  }

  lemma EnumeratesTail(order: seq<JobId>, ids: set<JobId>)
    requires Enumerates(order, ids) && order != []
    ensures Enumerates(order[1..], ids - {order[0]})
  {
    forall x ensures x in order[1..] <==> x in ids - {order[0]} {
      assert order == [order[0]] + order[1..];
    }
  }

  /** Recovery after a crash, in whatever order the directory is read and with
      whatever persists failing, brings memory to RecoverAll of the disk. */
  lemma RecoveryYieldsPersisted(w: World, order: seq<JobId>, oks: seq<bool>)
    requires Reachable(w) && w.phase.Down? && Enumerates(order, w.disk.Keys) && |oks| == |order|
    ensures var r := Run(w, [BeginRecovery] + RecoverSteps(order, oks));
            && r.Some? && Enabled(r.value, EndRecovery)
            && r.value.mem == RecoverAll(w.disk, AlivePids(w), w.now)
            && Preserved(w.disk, AlivePids(w), w.now, r.value.mem)
            && ((forall ok | ok in oks :: ok) ==> r.value.disk == r.value.mem)
  {
    ReachableInv(w);
    RunBegin(w, RecoverSteps(order, oks));
    var w1 := w.(phase := Recovering(w.disk.Keys));
    RecoverEach(w1, order, oks);
    var r := Run(w1, RecoverSteps(order, oks)).value;
    RecoveredFromDown(w, r);
    RecoverAllPreserves(w.disk, AlivePids(w), w.now);
    if forall ok | ok in oks :: ok {
      InvAlongRun(w, [BeginRecovery] + RecoverSteps(order, oks));
      AgreeEverywhere(r);
    }
  }

  lemma RunBegin(w: World, steps: seq<Step>)
    requires w.phase.Down?
    ensures Run(w, [BeginRecovery] + steps) == Run(w.(phase := Recovering(w.disk.Keys)), steps)
  {
    assert ([BeginRecovery] + steps)[1..] == steps;
  }

  lemma RecoverAllPreserves(disk: map<JobId, Job>, alive: set<int>, now: int)
    ensures Preserved(disk, alive, now, RecoverAll(disk, alive, now))
  {
  }

  /** What a recovery that got through part of the directory left on disk. */
  ghost predicate HalfRecovered(w: World, part: seq<JobId>, r: World) {
    && r.now == w.now && r.procs == w.procs && r.disk.Keys == w.disk.Keys
    && forall id | id in w.disk ::
         || r.disk[id] == w.disk[id]
         || (id in part && r.disk[id] == Recovered(w.disk[id], w.disk[id].pid in AlivePids(w), w.now))
  }

  lemma {:induction false} RecoverPart(w: World, part: seq<JobId>, oks: seq<bool>)
    requires w.phase.Recovering? && |oks| == |part|
    requires (forall id | id in part :: id in w.phase.todo && id in w.disk)
    requires forall i, j | 0 <= i < j < |part| :: part[i] != part[j]
    ensures Run(w, RecoverSteps(part, oks)).Some? && HalfRecovered(w, part, Run(w, RecoverSteps(part, oks)).value)
    decreases |part|
  {
    if part != [] {
      var id, ok := part[0], oks[0];
      assert id in part && forall x | x in part[1..] :: x in part && x != id;
      var w1 := Apply(w, RecoverOne(id, ok));
      RecoverOneEffect(w, id, ok);
      RecoverPart(w1, part[1..], oks[1..]);
      RecoverStepsTail(part, oks);
      HalfRecoveredStep(w, part, ok, Run(w1, RecoverSteps(part[1..], oks[1..])).value);
    }
  }

  lemma HalfRecoveredStep(w: World, part: seq<JobId>, ok: bool, r: World)
    requires part != [] && w.phase.Recovering? && Enabled(w, RecoverOne(part[0], ok))
    requires part[0] !in part[1..] && HalfRecovered(Apply(w, RecoverOne(part[0], ok)), part[1..], r)
    ensures HalfRecovered(w, part, r)
  {
    var w1 := Apply(w, RecoverOne(part[0], ok));
    RecoverOneEffect(w, part[0], ok);
    assert AlivePids(w1) == AlivePids(w) && forall x | x in part[1..] :: x in part;
  }

  /** A recovery cut short by another crash, anywhere in the directory, and a
      full one any time after it give the jobs the first would have given, but
      for times, while the same processes live. */
  lemma RecoveryInterrupted(w: World, part: seq<JobId>, oks1: seq<bool>, delta: nat, order: seq<JobId>, oks2: seq<bool>)
    requires Reachable(w) && w.phase.Down? && |oks1| == |part| && |oks2| == |order|
    requires (forall id | id in part :: id in w.disk) && forall i, j | 0 <= i < j < |part| :: part[i] != part[j]
    requires Enumerates(order, w.disk.Keys)
    ensures Run(w, [BeginRecovery] + RecoverSteps(part, oks1) + [Crash] + [Tick(delta)]).Some?
    ensures var d := Run(w, [BeginRecovery] + RecoverSteps(part, oks1) + [Crash] + [Tick(delta)]).value;
            var r := Run(d, [BeginRecovery] + RecoverSteps(order, oks2));
            && r.Some? && r.value.mem.Keys == w.disk.Keys
            && forall id | id in w.disk :: SameButTime(r.value.mem[id], RecoverAll(w.disk, AlivePids(w), w.now)[id])
  {
    var d := CutShort(w, part, oks1, delta);
    RecoveryYieldsPersisted(d, order, oks2);
    RecoveredAgain(w, part, d);
  }

  lemma RecoveredAgain(w: World, part: seq<JobId>, d: World)
    requires HalfRecovered(w, part, d.(now := w.now))
    ensures var r1, r2 := RecoverAll(w.disk, AlivePids(w), w.now), RecoverAll(d.disk, AlivePids(d), d.now);
            r2.Keys == r1.Keys && forall id | id in r1 :: SameButTime(r2[id], r1[id])
  {
    assert AlivePids(d) == AlivePids(w);
  }

  lemma CutShort(w: World, part: seq<JobId>, oks: seq<bool>, delta: nat) returns (d: World)
    requires Reachable(w) && w.phase.Down? && |oks| == |part|
    requires (forall id | id in part :: id in w.disk) && forall i, j | 0 <= i < j < |part| :: part[i] != part[j]
    ensures Run(w, [BeginRecovery] + RecoverSteps(part, oks) + [Crash] + [Tick(delta)]) == Some(d)
    ensures Reachable(d) && d.phase.Down? && HalfRecovered(w, part, d.(now := w.now))
  {
    var w1, steps := w.(phase := Recovering(w.disk.Keys)), [BeginRecovery] + RecoverSteps(part, oks);
    RunBegin(w, RecoverSteps(part, oks));
    RecoverPart(w1, part, oks);
    assert AlivePids(w1) == AlivePids(w);
    RunAppend(w, steps, Crash);
    RunAppend(w, steps + [Crash], Tick(delta));
    d := Run(w, steps + [Crash] + [Tick(delta)]).value;
    ReachableRun(w, steps + [Crash] + [Tick(delta)]);
  }

  lemma {:induction false} ReachableRun(w: World, steps: seq<Step>)
    requires Reachable(w) && Run(w, steps).Some?
    ensures Reachable(Run(w, steps).value)
    decreases |steps|
  {
    if steps != [] {
      ReachableStep(w, steps[0]);
      ReachableRun(Apply(w, steps[0]), steps[1..]);
    }
  }

  lemma RecoveredFromDown(w: World, r: World)
    requires w.mem == map[] && RecoveredFrom(w.(phase := Recovering(w.disk.Keys)), r)
    ensures r.mem == RecoverAll(w.disk, AlivePids(w), w.now)
  {
    assert AlivePids(w.(phase := Recovering(w.disk.Keys))) == AlivePids(w);
  }

  lemma AgreeEverywhere(w: World)
    requires Agree(w) && (w.phase.Up? || w.phase == Recovering({})) && w.stale == {}
    ensures w.disk == w.mem
  {
  }

  /** A crash at any moment: a job whose last write went through comes back
      from recovery with the record memory held, as recovery updates it. */
  lemma CrashLosesNothingPersisted(w: World, id: JobId, now: int)
    requires Reachable(w) && w.phase.Up? && id !in w.stale
    ensures var r := RecoverAll(Apply(w, Crash).disk, AlivePids(w), now);
            && (id in r <==> id in w.mem)
            && (id in r ==> r[id] == Recovered(w.mem[id], w.mem[id].pid in AlivePids(w), now))
  {
    ReachableInv(w);
  }

  /** Prune forgets exactly the ended jobs not updated after the cutoff, in
      memory and, but for the files that could not be removed, on disk, and
      touches no other; memory and disk agree afterwards wherever they did and
      no removal failed. */
  lemma PruneExact(w: World, cutoff: int, kept: set<JobId>)
    requires Reachable(w) && w.phase.Up?
    ensures var w' := Apply(w, Prune(cutoff, kept));
            forall id :: id in w'.mem <==> id in w.mem && !(Ended(w.mem[id]) && w.mem[id].updatedAt <= cutoff)
    ensures var w' := Apply(w, Prune(cutoff, kept));
            forall id :: id in w'.disk <==>
              id in w.disk && (id in w.mem && Ended(w.mem[id]) && w.mem[id].updatedAt <= cutoff ==> id in kept)
    ensures var w' := Apply(w, Prune(cutoff, kept));
            && (forall id | id in w'.mem :: w'.mem[id] == w.mem[id])
            && (forall id | id in w'.disk :: w'.disk[id] == w.disk[id])
            && (forall id | id !in w.stale && !(id in kept && id !in w'.mem) ::
                  (id in w'.mem <==> id in w'.disk) && (id in w'.mem ==> w'.mem[id] == w'.disk[id]))
  {
    ReachableInv(w);
    PrunedAgree(w, cutoff, kept);
  }

  lemma PrunedAgree(w: World, cutoff: int, kept: set<JobId>)
    requires Agree(w) && w.phase.Up?
    ensures var w' := Apply(w, Prune(cutoff, kept));
            forall id | id !in w.stale && !(id in kept && id !in w'.mem) ::
              (id in w'.mem <==> id in w'.disk) && (id in w'.mem ==> w'.mem[id] == w'.disk[id])
  {
  }
}
