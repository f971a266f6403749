/** A tools/call request from the client's side to the handler: the reason is
    translated, validated and stripped, and the call runs beside others. */
module ToolsCall {
  import opened Text
  import opened Reason
  import opened Calls

  /** Call c runs on the arguments the server makes of the request. */
  ghost predicate Serves(w: World, c: nat, p: CallParams, mode: Mode) {
    c < |w.calls| && w.calls[c].args == Defaulted(Compatible(p, mode))
  }

  lemma {:induction false} EventKept(history: seq<Event>, e: Event)
    requires e in history
    ensures e in EventsOf(history, e.call)
  {
    var front, last := history[..|history| - 1], history[|history| - 1];
    assert history == front + [last];
    if e != last {
      EventKept(front, e);
    }
  }

  lemma ExpectedHandler(c: nat, call: Call, a: Raw)
    requires CallOk(call) && HandlerRan(c, a) in Expected(c, call)
    ensures !call.pc.Rejected? && call.vetoed.None? && a == Strip(call.args)
  {
    if call.pc.After? {
      var n := if call.vetoed.None? then |call.chain| else call.vetoed.value;
      var turn := if call.vetoed.None? then HandlerRan(c, Strip(call.args)) else BeforeRan(c, n, false);
      InThree(BeforesOk(c, n), turn, Afters(c, call, call.pc.i), HandlerRan(c, a));
    }
  }

  /** At any moment of any interleaving: if the handler has run for a request,
      the request was acceptable as the client sent it, and the handler was
      given exactly the client's arguments without the reason: once for each
      other name the client sent, the value of its last member. */
  lemma HandlerGetsClientArguments(hash: Hash, w: World, c: nat, a: Raw, p: CallParams, mode: Mode)
    requires Reachable(hash, w) && Serves(w, c, p, mode) && HandlerRan(c, a) in w.history
    ensures Acceptable(p, mode) && a == Obj(Encode(ClientArguments(p)), Closed)
    ensures forall k, v :: (k, v) in a.members <==>
              && k != "reason" && p.arguments.Obj?
              && exists i :: IsLast(p.arguments.members, i, k) && p.arguments.members[i].1 == v
    ensures forall i, j | 0 <= i < j < |a.members| :: a.members[i].0 != a.members[j].0
  {
    ReachableInv(hash, w);
    EventKept(w.history, HandlerRan(c, a));
    assert CallOk(w.calls[c]) && EventsOf(w.history, c) == Expected(c, w.calls[c]);
    ExpectedHandler(c, w.calls[c], a);
    AcceptedExactly(p, mode);
    StrippedIsClients(p, mode);
    PassedOnExactly(p);
  }

  /** And for a finished call the handler has run, on just those arguments,
      exactly when the request was acceptable and no BeforeCall failed. */
  lemma HandlerRunsIffAcceptable(hash: Hash, w: World, c: nat, p: CallParams, mode: Mode)
    requires Reachable(hash, w) && Serves(w, c, p, mode) && Done(w.calls[c])
    ensures HandlerRan(c, Obj(Encode(ClientArguments(p)), Closed)) in w.history <==>
              Acceptable(p, mode) && forall j :: BeforeRan(c, j, false) !in w.history
    ensures (exists a :: HandlerRan(c, a) in w.history) <==>
              Acceptable(p, mode) && forall j :: BeforeRan(c, j, false) !in w.history
    ensures forall a | HandlerRan(c, a) in w.history ::
              && a.Obj? && a.ending.Closed?
              && (forall k, v :: (k, v) in a.members <==>
                    && k != "reason" && p.arguments.Obj?
                    && exists i :: IsLast(p.arguments.members, i, k) && p.arguments.members[i].1 == v)
  {
    forall a | HandlerRan(c, a) in w.history
      ensures && a == Obj(Encode(ClientArguments(p)), Closed)
              && (forall k, v :: (k, v) in a.members <==>
                    && k != "reason" && p.arguments.Obj?
                    && exists i :: IsLast(p.arguments.members, i, k) && p.arguments.members[i].1 == v)
    {
      HandlerGetsClientArguments(hash, w, c, a, p, mode);
    }
    HandlerRunsExactlyWhen(hash, w, c);
    AcceptedExactly(p, mode);
    forall e: Event | e.call == c ensures e in w.history <==> e in EventsOf(w.history, c) {
      if e in w.history { EventKept(w.history, e); }
      EventsAreHistory(w.history, c);
    }
    if Acceptable(p, mode) {
      HandlerSeesClientArguments(p, mode);
    } else if HandlerRan(c, Obj(Encode(ClientArguments(p)), Closed)) in w.history {
      HandlerGetsClientArguments(hash, w, c, Obj(Encode(ClientArguments(p)), Closed), p, mode);
    }
  }

  lemma {:induction false} EventsAreHistory(history: seq<Event>, c: nat)
    ensures forall e | e in EventsOf(history, c) :: e in history
  {
    if history != [] {
      EventsAreHistory(history[..|history| - 1], c);
    }
  }
}
