/** The call pipeline: any number of Registry.Call runs side by side, each
    going through its own snapshot of the interceptors, one of which is the
    audit logger with its map of active calls and its log.

    Call ids are a hash of tool and arguments, taken here as any function at
    all: nothing below needs ids of different calls to differ. */
module Calls {
  import opened Text
  import opened Reason

  datatype Interceptor = Logger | Guard(name: string)

  /** Where a call stands: rejected by validation, about to run BeforeCall i
      (or the handler, when i is past the last), or about to run AfterCall i;
      deleted: the logger has removed the active entry, not yet appended. */
  datatype Pc = Rejected | Before(i: nat) | After(i: nat, deleted: bool)

  datatype Call = Call(tool: string, args: Raw, chain: seq<Interceptor>, pc: Pc,
                       vetoed: Option<nat>, err: Option<string>)

  datatype Event =
    | BeforeRan(call: nat, i: nat, ok: bool)
    | HandlerRan(call: nat, args: Raw)
    | AfterRan(call: nat, i: nat, args: Raw, err: Option<string>)

  /** The logger, at place j of a call's chain, puts the call's id into the map
      of active calls or deletes it. */
  datatype Touch = Touch(call: nat, j: nat, put: bool)

  datatype Entry = Entry(call: nat, tool: string, args: Raw, err: Option<string>)

  type Hash = (string, Raw) -> int

  datatype World = World(
    interceptors: seq<Interceptor>,
    calls: seq<Call>,
    active: map<int, (string, Raw)>,
    log: seq<Entry>,
    history: seq<Event>,
    touches: seq<Touch>)     // every change of active, in order

  const INIT := World([], [], map[], [], [], [])

  datatype Step =
    | AddInterceptor(i: Interceptor)
    | Start(tool: string, args: Raw)
    | RunBefore(c: nat, veto: Option<string>)
    | RunHandler(c: nat, err: Option<string>)
    | DeleteActive(c: nat)
    | RunAfter(c: nat)

  predicate AtBefore(w: World, c: nat) {
    c < |w.calls| && w.calls[c].pc.Before?
  }

  predicate AtAfter(w: World, c: nat) {
    c < |w.calls| && w.calls[c].pc.After? && w.calls[c].pc.i < |w.calls[c].chain|
  }

  predicate Enabled(w: World, s: Step) {
    match s
    case AddInterceptor(_) => true
    case Start(_, _) => true
    case RunBefore(c, veto) =>
      AtBefore(w, c) && w.calls[c].pc.i < |w.calls[c].chain|
      && (w.calls[c].chain[w.calls[c].pc.i].Logger? ==> veto.None?)   // the logger never fails
    case RunHandler(c, _) => AtBefore(w, c) && w.calls[c].pc.i == |w.calls[c].chain|
    case DeleteActive(c) => AtAfter(w, c) && w.calls[c].chain[w.calls[c].pc.i].Logger? && !w.calls[c].pc.deleted
    case RunAfter(c) => AtAfter(w, c) && (w.calls[c].chain[w.calls[c].pc.i].Logger? ==> w.calls[c].pc.deleted)
  }

  function Id(hash: Hash, call: Call): int {
    hash(call.tool, call.args)
  }

  ghost function Apply(hash: Hash, w: World, s: Step): World
    requires Enabled(w, s)
  {
    match s
    case AddInterceptor(i) => w.(interceptors := w.interceptors + [i])
    case Start(tool, args) =>
      w.(calls := w.calls + [Call(tool, args, w.interceptors, if Check(args).None? then Before(0) else Rejected, None, None)])
    case RunBefore(c, veto) =>
      var call := w.calls[c];
      w.(calls := w.calls[c := if veto.None? then call.(pc := Before(call.pc.i + 1))
                               else call.(pc := After(0, false), vetoed := Some(call.pc.i), err := veto)],
         active := if call.chain[call.pc.i].Logger? then w.active[Id(hash, call) := (call.tool, call.args)] else w.active,
         history := w.history + [BeforeRan(c, call.pc.i, veto.None?)],
         touches := if call.chain[call.pc.i].Logger? then w.touches + [Touch(c, call.pc.i, true)] else w.touches)
    case RunHandler(c, err) =>
      var call := w.calls[c];
      w.(calls := w.calls[c := call.(pc := After(0, false), err := err)],
         history := w.history + [HandlerRan(c, Strip(call.args))])
    case DeleteActive(c) =>
      var call := w.calls[c];
      w.(calls := w.calls[c := call.(pc := After(call.pc.i, true))], active := w.active - {Id(hash, call)},
         touches := w.touches + [Touch(c, call.pc.i, false)])
    case RunAfter(c) =>
      var call := w.calls[c];
      w.(calls := w.calls[c := call.(pc := After(call.pc.i + 1, false))],
         log := if call.chain[call.pc.i].Logger? then w.log + [Entry(c, call.tool, call.args, call.err)] else w.log,
         history := w.history + [AfterRan(c, call.pc.i, call.args, call.err)])
  }

  ghost function Run(hash: Hash, w: World, steps: seq<Step>): Option<World>
    decreases |steps|
  {
    if steps == [] then Some(w)
    else if !Enabled(w, steps[0]) then None
    else Run(hash, Apply(hash, w, steps[0]), steps[1..])
  }

  ghost predicate Reachable(hash: Hash, w: World) {
    exists steps :: Run(hash, INIT, steps) == Some(w)
  }

  // ------------------------------------------- what one call has done so far

  predicate Done(call: Call) {
    call.pc.Rejected? || (call.pc.After? && call.pc.i >= |call.chain|)
  }

  function BeforesOk(c: nat, n: nat): seq<Event> {
    seq(n, i requires 0 <= i < n => BeforeRan(c, i, true))
  }

  function Afters(c: nat, call: Call, n: nat): seq<Event> {
    seq(n, i requires 0 <= i < n => AfterRan(c, i, call.args, call.err))
  }

  /** The events a single-threaded run of the call would have produced up to
      its present point. */
  ghost function Expected(c: nat, call: Call): seq<Event> {
    match call.pc
    case Rejected => []
    case Before(i) => BeforesOk(c, i)
    case After(i, _) =>
      (match call.vetoed
       case None => BeforesOk(c, |call.chain|) + [HandlerRan(c, Strip(call.args))]
       case Some(j) => BeforesOk(c, j) + [BeforeRan(c, j, false)])
      + Afters(c, call, i)
  }

  function EventsOf(history: seq<Event>, c: nat): seq<Event> {
    if history == [] then []
    else EventsOf(history[..|history| - 1], c)
         + (if history[|history| - 1].call == c then [history[|history| - 1]] else [])
  }

  function EntriesOf(log: seq<Entry>, c: nat): seq<Entry> {
    if log == [] then []
    else EntriesOf(log[..|log| - 1], c) + (if log[|log| - 1].call == c then [log[|log| - 1]] else [])
  }

  function Loggers(chain: seq<Interceptor>): nat {
    if chain == [] then 0
    else Loggers(chain[..|chain| - 1]) + if chain[|chain| - 1].Logger? then 1 else 0
  }

  function Appended(call: Call): nat {
    if call.pc.After? && call.pc.i <= |call.chain| then Loggers(call.chain[..call.pc.i]) else 0
  }

  // ------------------------------------------------------------ invariant

  predicate CallOk(call: Call) {
    match call.pc
    case Rejected => call.vetoed.None?
    case Before(i) => i <= |call.chain| && call.vetoed.None? && call.err.None?
    case After(i, deleted) =>
      && i <= |call.chain| && (deleted ==> i < |call.chain| && call.chain[i].Logger?)
      && (call.vetoed.Some? ==> call.vetoed.value < |call.chain| && call.err.Some?)
  }

  ghost predicate CallsOk(w: World) {
    && (forall c | 0 <= c < |w.calls| :: CallOk(w.calls[c]))
    && (forall c | 0 <= c < |w.calls| :: w.calls[c].pc.Rejected? <==> Check(w.calls[c].args).Some?)
  }

  ghost predicate HistoryOk(w: World) {
    && (forall c | 0 <= c < |w.calls| :: EventsOf(w.history, c) == Expected(c, w.calls[c]))
    && (forall c | c >= |w.calls| :: EventsOf(w.history, c) == [])
  }

  ghost predicate LogOk(w: World) {
    && (forall c | 0 <= c < |w.calls| ::
          EntriesOf(w.log, c) == Owed(c, w.calls[c]))
    && (forall c | c >= |w.calls| :: EntriesOf(w.log, c) == [])
  }

  /** The call still has a deletion of its id to come. */
  ghost predicate WillDelete(call: Call) {
    exists j | 0 <= j < |call.chain| :: WillDeleteAt(call, j)
  }

  predicate WillDeleteAt(call: Call, j: nat) {
    && j < |call.chain| && call.chain[j].Logger?
    && (call.pc.Before? || (call.pc.After? && (j > call.pc.i || (j == call.pc.i && !call.pc.deleted))))
  }

  /** The logger's BeforeCall at j has run. */
  predicate Inserted(call: Call, j: nat) {
    && j < |call.chain| && call.chain[j].Logger?
    && match call.pc
       case Rejected => false
       case Before(i) => j < i
       case After(_, _) => call.vetoed.None? || j < call.vetoed.value
  }

  ghost predicate HasInserted(call: Call) {
    exists j | 0 <= j < |call.chain| :: Inserted(call, j)
  }

  /** The logger has seen the call begin and not yet seen it end. */
  ghost predicate Registered(call: Call) {
    HasInserted(call) && WillDelete(call)
  }

  ghost predicate ActiveOk(hash: Hash, w: World) {
    forall id | id in w.active :: exists c | 0 <= c < |w.calls| :: Claims(hash, w.calls[c], id)
  }

  ghost predicate Claims(hash: Hash, call: Call, id: int) {
    Id(hash, call) == id && Registered(call)
  }

  ghost predicate Inv(hash: Hash, w: World) {
    CallsOk(w) && HistoryOk(w) && LogOk(w) && ActiveOk(hash, w)
  }

  lemma EventsOfAppend(history: seq<Event>, e: Event, c: nat)
    ensures EventsOf(history + [e], c) == EventsOf(history, c) + (if e.call == c then [e] else [])
  {
    assert (history + [e])[..|history|] == history;
  }

  lemma EntriesOfAppend(log: seq<Entry>, e: Entry, c: nat)
    ensures EntriesOf(log + [e], c) == EntriesOf(log, c) + (if e.call == c then [e] else [])
  {
    assert (log + [e])[..|log|] == log;
  }

  lemma InvCalls(hash: Hash, w: World, s: Step)
    requires Inv(hash, w) && Enabled(w, s)
    ensures CallsOk(Apply(hash, w, s))
  {
    var w' := Apply(hash, w, s);
    forall c | 0 <= c < |w'.calls|
      ensures CallOk(w'.calls[c]) && (w'.calls[c].pc.Rejected? <==> Check(w'.calls[c].args).Some?)
    {
      CallStep(hash, w, s, c);
    }
  }

  lemma CallStep(hash: Hash, w: World, s: Step, c: nat)
    requires CallsOk(w) && Enabled(w, s) && c < |Apply(hash, w, s).calls|
    ensures var call := Apply(hash, w, s).calls[c];
            CallOk(call) && (call.pc.Rejected? <==> Check(call.args).Some?)
  {
    if c < |w.calls| { assert CallOk(w.calls[c]); }
  }

  lemma InvHistory(hash: Hash, w: World, s: Step)
    requires Inv(hash, w) && Enabled(w, s)
    ensures HistoryOk(Apply(hash, w, s))
  {
    var w' := Apply(hash, w, s);
    if |w'.history| > |w.history| {
      var e := w'.history[|w.history|];
      assert w'.history == w.history + [e];
      forall c: nat ensures EventsOf(w'.history, c) == EventsOf(w.history, c) + (if e.call == c then [e] else []) {
        EventsOfAppend(w.history, e, c);
      }
      ExpectedGrows(hash, w, s);
    } else {
      QuietExpected(hash, w, s);
    }
  }

  lemma ExpectedGrows(hash: Hash, w: World, s: Step)
    requires CallsOk(w) && Enabled(w, s) && (s.RunBefore? || s.RunHandler? || s.RunAfter?)
    ensures var w' := Apply(hash, w, s);
            var e := w'.history[|w.history|];
            && e.call == s.c && |w'.calls| == |w.calls| && (forall c | 0 <= c < |w.calls| && c != s.c :: w'.calls[c] == w.calls[c])
            && Expected(s.c, w'.calls[s.c]) == Expected(s.c, w.calls[s.c]) + [e]
  {
    var call := w.calls[s.c];
    match s
    case RunBefore(c, veto) => BeforesGrow(c, call, veto);
    case RunHandler(c, err) => HandlerGrows(c, call, err);
    case RunAfter(c) => AftersGrow(c, call, call.(pc := After(call.pc.i + 1, false)));
  }

  lemma BeforesGrow(c: nat, call: Call, veto: Option<string>)
    requires CallOk(call) && call.pc.Before?
    ensures var call' := if veto.None? then call.(pc := Before(call.pc.i + 1))
                         else call.(pc := After(0, false), vetoed := Some(call.pc.i), err := veto);
            Expected(c, call') == Expected(c, call) + [BeforeRan(c, call.pc.i, veto.None?)]
  {
    if veto.None? {
      assert BeforesOk(c, call.pc.i + 1) == BeforesOk(c, call.pc.i) + [BeforeRan(c, call.pc.i, true)];
    } else {
      var call' := call.(pc := After(0, false), vetoed := Some(call.pc.i), err := veto);
      assert Afters(c, call', 0) == [];
    }
  }

  lemma HandlerGrows(c: nat, call: Call, err: Option<string>)
    requires CallOk(call) && call.pc == Before(|call.chain|)
    ensures var call' := call.(pc := After(0, false), err := err);
            Expected(c, call') == Expected(c, call) + [HandlerRan(c, Strip(call.args))]
  {
    assert Afters(c, call.(pc := After(0, false), err := err), 0) == [];
  }

  lemma AftersGrow(c: nat, call: Call, call': Call)
    requires call.pc.After? && call' == call.(pc := After(call.pc.i + 1, false))
    ensures Expected(c, call') == Expected(c, call) + [AfterRan(c, call.pc.i, call.args, call.err)]
  {
    assert Afters(c, call', call.pc.i + 1) == Afters(c, call, call.pc.i) + [AfterRan(c, call.pc.i, call.args, call.err)];
  }

  lemma QuietExpected(hash: Hash, w: World, s: Step)
    requires CallsOk(w) && Enabled(w, s) && (s.AddInterceptor? || s.Start? || s.DeleteActive?)
    ensures var w' := Apply(hash, w, s);
            && w'.history == w.history && |w'.calls| >= |w.calls|
            && (forall c | 0 <= c < |w.calls| :: Expected(c, w'.calls[c]) == Expected(c, w.calls[c]))
            && (forall c | |w.calls| <= c < |w'.calls| :: Expected(c, w'.calls[c]) == [])
  {
  }

  /** The entries a call owes the log at its present point. */
  function Owed(c: nat, call: Call): seq<Entry> {
    seq(Appended(call), _ => Entry(c, call.tool, call.args, call.err))
  }

  lemma InvLog(hash: Hash, w: World, s: Step)
    requires Inv(hash, w) && Enabled(w, s)
    ensures LogOk(Apply(hash, w, s))
  {
    var w' := Apply(hash, w, s);
    if s.RunAfter? && |w'.log| > |w.log| {
      var e := w'.log[|w.log|];
      forall c: nat ensures EntriesOf(w'.log, c) == EntriesOf(w.log, c) + (if e.call == c then [e] else []) {
        EntriesOfAppend(w.log, e, c);
      }
    }
    forall c | 0 <= c < |w'.calls| ensures EntriesOf(w'.log, c) == Owed(c, w'.calls[c]) {
      if s.RunAfter? && s.c == c { AfterOwes(hash, w, c); } else { QuietOwes(hash, w, s, c); }
    }
  }

  lemma AfterOwes(hash: Hash, w: World, c: nat)
    requires CallsOk(w) && Enabled(w, RunAfter(c))
    ensures var call := w.calls[c];
            Owed(c, Apply(hash, w, RunAfter(c)).calls[c]) ==
            Owed(c, call) + if call.chain[call.pc.i].Logger? then [Entry(c, call.tool, call.args, call.err)] else []
  {
    AppendedGrows(hash, w, c);
  }

  lemma QuietOwes(hash: Hash, w: World, s: Step, c: nat)
    requires CallsOk(w) && Enabled(w, s) && c < |Apply(hash, w, s).calls| && !(s.RunAfter? && s.c == c)
    ensures Owed(c, Apply(hash, w, s).calls[c]) == if c < |w.calls| then Owed(c, w.calls[c]) else []
  {
    var w' := Apply(hash, w, s);
    assert w'.calls[c].pc.After? && w'.calls[c].pc.i == 0 ==> w'.calls[c].chain[..0] == [];
  }

  lemma AppendedGrows(hash: Hash, w: World, c: nat)
    requires CallsOk(w) && Enabled(w, RunAfter(c))
    ensures var call := w.calls[c];
            Appended(Apply(hash, w, RunAfter(c)).calls[c]) == Appended(call) + if call.chain[call.pc.i].Logger? then 1 else 0
  {
    var call := w.calls[c];
    assert call.chain[..call.pc.i + 1][..call.pc.i] == call.chain[..call.pc.i];
  }

  /** A deletion to come stays to come until it happens. */
  lemma ClaimKept(hash: Hash, w: World, s: Step, c: nat, j: nat, k: nat)
    requires CallsOk(w) && Enabled(w, s) && c < |w.calls| && Inserted(w.calls[c], j) && WillDeleteAt(w.calls[c], k)
    requires !(s.DeleteActive? && s.c == c)
    ensures var w' := Apply(hash, w, s);
            && c < |w'.calls| && Inserted(w'.calls[c], j) && WillDeleteAt(w'.calls[c], k)
            && Id(hash, w'.calls[c]) == Id(hash, w.calls[c])
  {
  }

  lemma ClaimStays(hash: Hash, w: World, s: Step, c: nat, id: int)
    requires CallsOk(w) && Enabled(w, s) && c < |w.calls| && Claims(hash, w.calls[c], id)
    requires !(s.DeleteActive? && s.c == c)
    ensures c < |Apply(hash, w, s).calls| && Claims(hash, Apply(hash, w, s).calls[c], id)
  {
    var j :| 0 <= j < |w.calls[c].chain| && Inserted(w.calls[c], j);
    var k :| 0 <= k < |w.calls[c].chain| && WillDeleteAt(w.calls[c], k);
    ClaimKept(hash, w, s, c, j, k);
  }

  lemma ClaimMade(hash: Hash, w: World, s: Step, id: int)
    requires CallsOk(w) && Enabled(w, s) && id !in w.active && id in Apply(hash, w, s).active
    ensures s.RunBefore? && s.c < |Apply(hash, w, s).calls| && Claims(hash, Apply(hash, w, s).calls[s.c], id)
  {
    var call, i := Apply(hash, w, s).calls[s.c], w.calls[s.c].pc.i;
    assert WillDeleteAt(call, i) && Inserted(call, i);
  }

  lemma InvActive(hash: Hash, w: World, s: Step)
    requires Inv(hash, w) && Enabled(w, s)
    ensures ActiveOk(hash, Apply(hash, w, s))
  {
    var w' := Apply(hash, w, s);
    forall id | id in w'.active ensures exists c | 0 <= c < |w'.calls| :: Claims(hash, w'.calls[c], id) {
      if id !in w.active {
        ClaimMade(hash, w, s, id);
      } else {
        var c :| 0 <= c < |w.calls| && Claims(hash, w.calls[c], id);
        ClaimStays(hash, w, s, c, id);
      }
    }
  }

  lemma {:induction false} InvAlongRun(hash: Hash, w: World, steps: seq<Step>)
    requires Inv(hash, w) && Run(hash, w, steps).Some?
    ensures Inv(hash, Run(hash, w, steps).value)
    decreases |steps|
  {
    if steps != [] {
      InvStep(hash, w, steps[0]);
      InvAlongRun(hash, Apply(hash, w, steps[0]), steps[1..]);
    }
  }

  lemma InvStep(hash: Hash, w: World, s: Step)
    requires Inv(hash, w) && Enabled(w, s)
    ensures Inv(hash, Apply(hash, w, s))
  {
    InvCalls(hash, w, s);
    InvHistory(hash, w, s);
    InvLog(hash, w, s);
    InvActive(hash, w, s);
  }

  lemma ReachableInv(hash: Hash, w: World)
    requires Reachable(hash, w)
    ensures Inv(hash, w)
  {
    var steps :| Run(hash, INIT, steps) == Some(w);
    InvAlongRun(hash, INIT, steps);
  }

  // -------------------------------------------------------- main theorems

  /** What a call does from beginning to end: every BeforeCall up to the first
      that fails; the handler, on the stripped arguments, just when none
      failed; then every AfterCall once, in order, with the unstripped
      arguments and the error the caller gets.  With an invalid reason, nothing. */
  ghost function WholeCall(c: nat, call: Call): seq<Event> {
    if Check(call.args).Some? then []
    else (match call.vetoed
          case None => BeforesOk(c, |call.chain|) + [HandlerRan(c, Strip(call.args))]
          case Some(j) => BeforesOk(c, j) + [BeforeRan(c, j, false)])
         + Afters(c, call, |call.chain|)
  }

  lemma FinishedCallDid(hash: Hash, w: World, c: nat)
    requires Reachable(hash, w) && c < |w.calls| && Done(w.calls[c])
    ensures EventsOf(w.history, c) == WholeCall(c, w.calls[c])
  {
    ReachableInv(hash, w);
    assert CallOk(w.calls[c]);
  }

  /** The same, event by event: with n interceptors a call that was not vetoed
      is 2n + 1 events, and one vetoed by interceptor j is j + 1 + n. */
  lemma FinishedCallExactly(hash: Hash, w: World, c: nat)
    requires Reachable(hash, w) && c < |w.calls| && Done(w.calls[c])
    ensures var call, es := w.calls[c], EventsOf(w.history, c);
            var n := |call.chain|;
            && (Check(call.args).Some? ==> es == [])
            && (Check(call.args).None? && call.vetoed.None? ==>
                  && |es| == 2 * n + 1 && es[n] == HandlerRan(c, Strip(call.args))
                  && (forall i | 0 <= i < n :: es[i] == BeforeRan(c, i, true))
                  && (forall i | 0 <= i < n :: es[n + 1 + i] == AfterRan(c, i, call.args, call.err)))
            && (Check(call.args).None? && call.vetoed.Some? ==>
                  var j := call.vetoed.value;
                  && j < n && call.err.Some? && |es| == j + 1 + n && es[j] == BeforeRan(c, j, false)
                  && (forall i | 0 <= i < j :: es[i] == BeforeRan(c, i, true))
                  && (forall i | 0 <= i < n :: es[j + 1 + i] == AfterRan(c, i, call.args, call.err)))
  {
    FinishedCallDid(hash, w, c);
    CallKept(hash, w, c);
    WholeCallAt(c, w.calls[c]);
  }

  lemma CallKept(hash: Hash, w: World, c: nat)
    requires Reachable(hash, w) && c < |w.calls|
    ensures CallOk(w.calls[c]) && (w.calls[c].pc.Rejected? <==> Check(w.calls[c].args).Some?)
  {
    ReachableInv(hash, w);
  }

  lemma WholeCallAt(c: nat, call: Call)
    requires call.vetoed.Some? ==> call.vetoed.value < |call.chain|
    ensures var es, n := WholeCall(c, call), |call.chain|;
            && (Check(call.args).Some? ==> es == [])
            && (Check(call.args).None? && call.vetoed.None? ==>
                  && |es| == 2 * n + 1 && es[n] == HandlerRan(c, Strip(call.args))
                  && (forall i | 0 <= i < n :: es[i] == BeforeRan(c, i, true))
                  && (forall i | 0 <= i < n :: es[n + 1 + i] == AfterRan(c, i, call.args, call.err)))
            && (Check(call.args).None? && call.vetoed.Some? ==>
                  var j := call.vetoed.value;
                  && |es| == j + 1 + n && es[j] == BeforeRan(c, j, false)
                  && (forall i | 0 <= i < j :: es[i] == BeforeRan(c, i, true))
                  && (forall i | 0 <= i < n :: es[j + 1 + i] == AfterRan(c, i, call.args, call.err)))
  {
  }

  /** The handler has run for a finished call exactly when its reason was
      valid and no BeforeCall failed. */
  lemma HandlerRunsExactlyWhen(hash: Hash, w: World, c: nat)
    requires Reachable(hash, w) && c < |w.calls| && Done(w.calls[c])
    ensures HandlerRan(c, Strip(w.calls[c].args)) in EventsOf(w.history, c) <==>
              Check(w.calls[c].args).None? && forall j :: BeforeRan(c, j, false) !in EventsOf(w.history, c)
  {
    FinishedCallDid(hash, w, c);
    HandlerInWholeCall(c, w.calls[c]);
  }

  lemma HandlerInWholeCall(c: nat, call: Call)
    ensures HandlerRan(c, Strip(call.args)) in WholeCall(c, call) <==> Check(call.args).None? && call.vetoed.None?
    ensures (exists j :: BeforeRan(c, j, false) in WholeCall(c, call)) <==> Check(call.args).None? && call.vetoed.Some?
  {
    if Check(call.args).None? {
      var afters := Afters(c, call, |call.chain|);
      var n := if call.vetoed.None? then |call.chain| else call.vetoed.value;
      var turn := if call.vetoed.None? then HandlerRan(c, Strip(call.args)) else BeforeRan(c, n, false);
      assert WholeCall(c, call) == BeforesOk(c, n) + [turn] + afters;
      forall e ensures e in WholeCall(c, call) <==> e in BeforesOk(c, n) || e == turn || e in afters {
        InThree(BeforesOk(c, n), turn, afters, e);
      }
      assert turn in WholeCall(c, call);
    }
  }

  lemma InThree(a: seq<Event>, x: Event, b: seq<Event>, e: Event)
    ensures e in a + [x] + b <==> e in a || e == x || e in b
  {
  }

  lemma LoggersCount(chain: seq<Interceptor>, i: Interceptor)
    ensures Loggers([]) == 0 && Loggers(chain + [i]) == Loggers(chain) + if i == Logger then 1 else 0
  {
    assert (chain + [i])[..|chain|] == chain;
  }

  /** A finished, validated call has added one log entry for each place the
      logger has among its interceptors: exactly one in the usual chain. */
  lemma OneEntryPerCall(hash: Hash, w: World, c: nat)
    requires Reachable(hash, w) && c < |w.calls| && Done(w.calls[c])
    ensures var call := w.calls[c];
            EntriesOf(w.log, c) ==
              seq(if Check(call.args).Some? then 0 else Loggers(call.chain), _ => Entry(c, call.tool, call.args, call.err))
  {
    ReachableInv(hash, w);
    assert CallOk(w.calls[c]);
    var call := w.calls[c];
    if call.pc.After? { assert call.chain[..call.pc.i] == call.chain; }
  }

  /** Every active id is the id of a call in flight; so with no call in flight
      nothing is active, even if ids collide. */
  lemma ActiveInFlight(hash: Hash, w: World)
    requires Reachable(hash, w)
    ensures forall id | id in w.active :: exists c | 0 <= c < |w.calls| :: !Done(w.calls[c]) && Id(hash, w.calls[c]) == id
    ensures (forall c | 0 <= c < |w.calls| :: Done(w.calls[c])) ==> w.active == map[]
  {
    ReachableInv(hash, w);
    forall id | id in w.active ensures exists c | 0 <= c < |w.calls| :: !Done(w.calls[c]) && Id(hash, w.calls[c]) == id {
      var c :| 0 <= c < |w.calls| && Claims(hash, w.calls[c], id);
      assert CallOk(w.calls[c]) && !Done(w.calls[c]);
    }
  }

  lemma ReachableStep(hash: Hash, w: World, s: Step)
    requires Reachable(hash, w) && Enabled(w, s)
    ensures Reachable(hash, Apply(hash, w, s))
  {
    var steps :| Run(hash, INIT, steps) == Some(w);
    RunAppend(hash, INIT, steps, s);
  }

  lemma {:induction false} RunAppend(hash: Hash, w: World, steps: seq<Step>, s: Step)
    requires Run(hash, w, steps).Some? && Enabled(Run(hash, w, steps).value, s)
    ensures Run(hash, w, steps + [s]) == Some(Apply(hash, Run(hash, w, steps).value, s))
    decreases |steps|
  {
    if steps == [] {
      assert [s][1..] == [] && steps + [s] == [s];
    } else {
      assert (steps + [s])[1..] == steps[1..] + [s];
      RunAppend(hash, Apply(hash, w, steps[0]), steps[1..], s);
    }
  }
}
