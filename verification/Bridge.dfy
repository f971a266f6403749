/** The browser bridge: API callers, extension connections with one reader
    each, and the table that routes replies back.  A step is one locked section
    or one channel operation; they interleave freely. */
module Bridge {
  import opened Text

  datatype Response = Response(id: string, body: string)

  /** Where a reply that was read is now. */
  datatype Place = Dropped | AtReader(c: nat) | InChannel(k: nat) | With(k: nat)

  /** A reply, numbered by its position in the log, as read from connection via. */
  datatype Received = Received(reply: Response, via: nat, place: Place)

  datatype Reader = Idle | Sending(n: nat, k: nat) | Closing | Ended

  datatype Outcome = WriteError | Timeout | Reply(n: nat)

  datatype Stage = Writing | Waiting | Leaving(outcome: Outcome) | Done(outcome: Outcome)

  /** An API call that got past the connection check; channel is its
      capacity-one channel. */
  datatype Call = Call(id: string, conn: nat, stage: Stage, channel: Option<nat>)

  /** A call puts its id into the table, or deletes it. */
  datatype Touch = Entered(k: nat) | Left(k: nat)

  datatype World = World(
    conn: Option<nat>,
    readers: seq<Reader>,        // one per connection ever accepted
    calls: seq<Call>,
    pending: map<string, nat>,
    log: seq<Received>,
    touches: seq<Touch>)         // every change of pending, in order

  const INIT := World(None, [], [], map[], [], [])

  datatype Step =
    | Accept                          // a new connection replaces the one in the slot
    | Register(id: string)            // api: read the slot, enter the channel
    | WriteOk(k: nat)
    | WriteFails(k: nat)
    | Lookup(c: nat, x: Response)     // a reader parses a reply and looks its id up
    | Send(c: nat)                    // ch <- x; waits while the channel is full
    | Receive(k: nat)                 // select takes the channel
    | GivesUp(k: nat)                 // select takes the context
    | Cleanup(k: nat)                 // the deferred delete, by id
    | ReadFails(c: nat)
    | Clear(c: nat)                   // the deferred conn == c check

  predicate Enabled(s: World, step: Step) {
    match step
    case Accept => true
    case Register(id) => s.conn.Some?
    case WriteOk(k) => k < |s.calls| && s.calls[k].stage.Writing?
    case WriteFails(k) => k < |s.calls| && s.calls[k].stage.Writing?
    case Lookup(c, x) => c < |s.readers| && s.readers[c].Idle? && x.id != ""
    case Send(c) => c < |s.readers| && s.readers[c].Sending? && !Full(s, s.readers[c].k) && s.readers[c].n < |s.log|
    case Receive(k) =>
      k < |s.calls| && s.calls[k].stage.Waiting? && s.calls[k].channel.Some? && s.calls[k].channel.value < |s.log|
    case GivesUp(k) => k < |s.calls| && s.calls[k].stage.Waiting?
    case Cleanup(k) => k < |s.calls| && s.calls[k].stage.Leaving?
    case ReadFails(c) => c < |s.readers| && s.readers[c].Idle?
    case Clear(c) => c < |s.readers| && s.readers[c].Closing?
  }

  predicate Full(s: World, k: nat) {
    k >= |s.calls| || s.calls[k].channel.Some?
  }

  function Apply(s: World, step: Step): World
    requires Enabled(s, step)
  {
    match step
    case Accept => s.(conn := Some(|s.readers|), readers := s.readers + [Idle])
    case Register(id) =>
      s.(calls := s.calls + [Call(id, s.conn.value, Writing, None)], pending := s.pending[id := |s.calls|],
         touches := s.touches + [Entered(|s.calls|)])
    case WriteOk(k) => SetStage(s, k, Waiting)
    case WriteFails(k) => SetStage(s, k, Leaving(WriteError))
    case Lookup(c, x) =>
      var found := x.id in s.pending;
      s.(readers := if found then s.readers[c := Sending(|s.log|, s.pending[x.id])] else s.readers,
         log := s.log + [Received(x, c, if found then AtReader(c) else Dropped)])
    case Send(c) =>
      var k := s.readers[c].k;
      var n := s.readers[c].n;
      s.(readers := s.readers[c := Idle],
         calls := s.calls[k := s.calls[k].(channel := Some(n))],
         log := s.log[n := s.log[n].(place := InChannel(k))])
    case Receive(k) =>
      var n := s.calls[k].channel.value;
      s.(calls := s.calls[k := s.calls[k].(stage := Leaving(Reply(n)), channel := None)],
         log := s.log[n := s.log[n].(place := With(k))])
    case GivesUp(k) => SetStage(s, k, Leaving(Timeout))
    case Cleanup(k) =>
      SetStage(s, k, Done(s.calls[k].stage.outcome)).(pending := s.pending - {s.calls[k].id}, touches := s.touches + [Left(k)])
    case ReadFails(c) => s.(readers := s.readers[c := Closing])
    case Clear(c) => s.(readers := s.readers[c := Ended], conn := if s.conn == Some(c) then None else s.conn)
  }

  function SetStage(s: World, k: nat, stage: Stage): World
    requires k < |s.calls|
  {
    s.(calls := s.calls[k := s.calls[k].(stage := stage)])
  }

  function Run(s: World, steps: seq<Step>): Option<World>
    decreases |steps|
  {
    if steps == [] then Some(s)
    else if !Enabled(s, steps[0]) then None
    else Run(Apply(s, steps[0]), steps[1..])
  }

  ghost predicate Reachable(s: World) {
    exists steps :: Run(INIT, steps) == Some(s)
  }

  lemma ReachableStep(s: World, step: Step)
    requires Reachable(s) && Enabled(s, step)
    ensures Reachable(Apply(s, step))
  {
    var steps :| Run(INIT, steps) == Some(s);
    RunAppend(INIT, steps, step);
  }

  lemma {:induction false} RunAppend(s: World, steps: seq<Step>, last: Step)
    requires Run(s, steps).Some? && Enabled(Run(s, steps).value, last)
    ensures Run(s, steps + [last]) == Some(Apply(Run(s, steps).value, last))
    decreases |steps|
  {
    if steps == [] {
      assert Run(Apply(s, last), []) == Some(Apply(s, last));
      assert [last][1..] == [];
    } else {
      assert (steps + [last])[1..] == steps[1..] + [last];
      RunAppend(Apply(s, steps[0]), steps[1..], last);
    }
  }

  // ------------------------------------------------------------ invariant

  /** Reply n is on its way to, or with, call k, at the given place. */
  predicate Routed(s: World, n: nat, k: nat, place: Place) {
    && n < |s.log| && k < |s.calls|
    && s.log[n].place == place && s.log[n].reply.id == s.calls[k].id
  }

  ghost predicate ReadersOk(s: World) {
    forall c | 0 <= c < |s.readers| && s.readers[c].Sending? :: Routed(s, s.readers[c].n, s.readers[c].k, AtReader(c))
  }

  ghost predicate CallsOk(s: World) {
    forall k | 0 <= k < |s.calls| ::
      && (s.calls[k].channel.Some? ==> Routed(s, s.calls[k].channel.value, k, InChannel(k)))
      && (Answered(s.calls[k]) ==> Routed(s, s.calls[k].stage.outcome.n, k, With(k)))
  }

  predicate Answered(call: Call) {
    (call.stage.Leaving? || call.stage.Done?) && call.stage.outcome.Reply?
  }

  ghost predicate PendingOk(s: World) {
    forall id | id in s.pending ::
      s.pending[id] < |s.calls| && s.calls[s.pending[id]].id == id && !s.calls[s.pending[id]].stage.Done?
  }

  predicate ConnOk(s: World) {
    s.conn == if s.readers == [] || s.readers[|s.readers| - 1].Ended? then None else Some(|s.readers| - 1)
  }

  ghost predicate Distinct(s: World) {
    forall j, k | 0 <= j < k < |s.calls| :: s.calls[j].id != s.calls[k].id
  }

  ghost predicate Registered(s: World) {
    forall k | 0 <= k < |s.calls| && !s.calls[k].stage.Done? :: s.calls[k].id in s.pending && s.pending[s.calls[k].id] == k
  }

  ghost predicate Inv(s: World) {
    ReadersOk(s) && CallsOk(s) && PendingIds(s) && ConnOk(s) && (Distinct(s) ==> PendingOk(s) && Registered(s))
  }

  /** Even when two calls share an id, a table entry leads to a call with it. */
  ghost predicate PendingIds(s: World) {
    forall id | id in s.pending :: s.pending[id] < |s.calls| && s.calls[s.pending[id]].id == id
  }

  lemma InvRouting(s: World, step: Step)
    requires Inv(s) && Enabled(s, step)
    ensures ReadersOk(Apply(s, step)) && CallsOk(Apply(s, step))
  {
    var s' := Apply(s, step);
    forall c | 0 <= c < |s'.readers| && s'.readers[c].Sending?
      ensures Routed(s', s'.readers[c].n, s'.readers[c].k, AtReader(c))
    {
      KeepsReader(s, step, c);
    }
    forall k | 0 <= k < |s'.calls|
      ensures s'.calls[k].channel.Some? ==> Routed(s', s'.calls[k].channel.value, k, InChannel(k))
      ensures Answered(s'.calls[k]) ==> Routed(s', s'.calls[k].stage.outcome.n, k, With(k))
    {
      KeepsCall(s, step, k);
    }
  }

  lemma KeepsReader(s: World, step: Step, c: nat)
    requires Inv(s) && Enabled(s, step) && c < |Apply(s, step).readers| && Apply(s, step).readers[c].Sending?
    ensures var s' := Apply(s, step); Routed(s', s'.readers[c].n, s'.readers[c].k, AtReader(c))
  {
    if step.Receive? {
      assert Routed(s, s.calls[step.k].channel.value, step.k, InChannel(step.k));
    }
  }

  lemma KeepsCall(s: World, step: Step, k: nat)
    requires Inv(s) && Enabled(s, step) && k < |Apply(s, step).calls|
    ensures var s' := Apply(s, step); s'.calls[k].channel.Some? ==> Routed(s', s'.calls[k].channel.value, k, InChannel(k))
    ensures var s' := Apply(s, step); Answered(s'.calls[k]) ==> Routed(s', s'.calls[k].stage.outcome.n, k, With(k))
  {
    if step.Send? {
      assert Routed(s, s.readers[step.c].n, s.readers[step.c].k, AtReader(step.c));
    }
    if step.Receive? {
      assert Routed(s, s.calls[step.k].channel.value, step.k, InChannel(step.k));
    }
  }

  lemma InvTable(s: World, step: Step)
    requires Inv(s) && Enabled(s, step)
    ensures PendingIds(Apply(s, step)) && ConnOk(Apply(s, step))
  {
  }

  lemma DistinctBefore(s: World, step: Step)
    requires Enabled(s, step) && Distinct(Apply(s, step))
    ensures Distinct(s)
  {
    var s' := Apply(s, step);
    forall j, k | 0 <= j < k < |s.calls| ensures s.calls[j].id != s.calls[k].id {
      assert s'.calls[j].id == s.calls[j].id && s'.calls[k].id == s.calls[k].id;
    }
  }

  lemma InvPending(s: World, step: Step)
    requires Inv(s) && Enabled(s, step) && Distinct(Apply(s, step))
    ensures PendingOk(Apply(s, step))
  {
    DistinctBefore(s, step);
  }

  lemma InvRegistered(s: World, step: Step)
    requires Inv(s) && Enabled(s, step) && Distinct(Apply(s, step))
    ensures Registered(Apply(s, step))
  {
    DistinctBefore(s, step);
    var s' := Apply(s, step);
    if step.Cleanup? || step.Register? {
      var j := if step.Cleanup? then step.k else |s.calls|;
      forall k | 0 <= k < |s'.calls| && !s'.calls[k].stage.Done?
        ensures s'.calls[k].id in s'.pending && s'.pending[s'.calls[k].id] == k
      {
        assert k != j ==> s'.calls[k].id != s'.calls[j].id;
      }
    }
  }

  lemma {:induction false} InvAlongRun(s: World, steps: seq<Step>)
    requires Inv(s) && Run(s, steps).Some?
    ensures Inv(Run(s, steps).value)
    decreases |steps|
  {
    if steps != [] {
      InvRouting(s, steps[0]);
      InvTable(s, steps[0]);
      if Distinct(Apply(s, steps[0])) {
        InvPending(s, steps[0]);
        InvRegistered(s, steps[0]);
      }
      InvAlongRun(Apply(s, steps[0]), steps[1..]);
    }
  }

  lemma ReachableInv(s: World)
    requires Reachable(s)
    ensures Inv(s)
  {
    var steps :| Run(INIT, steps) == Some(s);
    InvAlongRun(INIT, steps);
  }

  // -------------------------------------------------------- main theorems

  /** Whatever ids are used, a caller that gets a reply gets one with its own
      id, and no other caller gets that reply too. */
  lemma CallerGetsOwnReply(s: World, k: nat)
    requires Reachable(s) && k < |s.calls| && Answered(s.calls[k])
    ensures var n := s.calls[k].stage.outcome.n;
            && n < |s.log| && s.log[n].reply.id == s.calls[k].id
            && (forall j | 0 <= j < |s.calls| && j != k && Answered(s.calls[j]) :: s.calls[j].stage.outcome.n != n)
  {
    ReachableInv(s);
    assert Routed(s, s.calls[k].stage.outcome.n, k, With(k));
  }

  /** With distinct ids the table holds exactly the calls that have not
      returned. */
  lemma PendingExactlyUnfinished(s: World, id: string, k: nat)
    requires Reachable(s) && Distinct(s)
    ensures (id in s.pending && s.pending[id] == k) <==> (k < |s.calls| && s.calls[k].id == id && !s.calls[k].stage.Done?)
  {
    ReachableInv(s);
  }

  /** So a reply is kept exactly when a call with its id has not returned: a
      late one is dropped, never passed to another call. */
  lemma LateReplyDropped(s: World, c: nat, x: Response)
    requires Reachable(s) && Distinct(s) && Enabled(s, Lookup(c, x))
    ensures Apply(s, Lookup(c, x)).log[|s.log|].place.Dropped? <==>
            forall k | 0 <= k < |s.calls| && s.calls[k].id == x.id :: s.calls[k].stage.Done?
  {
    ReachableInv(s);
    if x.id in s.pending {
      assert s.calls[s.pending[x.id]].id == x.id;
    }
  }

  /** The slot holds the newest connection until that connection's own reader
      has cleared it: an older one closing never does. */
  lemma SlotIsNewest(s: World)
    requires Reachable(s)
    ensures s.conn.Some? ==> s.conn.value == |s.readers| - 1
    ensures s.conn.None? <==> s.readers == [] || s.readers[|s.readers| - 1].Ended?
  {
    ReachableInv(s);
  }

  /** A reader can be kept waiting only by a second reply for one id. */
  predicate Stuck(s: World, c: nat) {
    c < |s.readers| && s.readers[c].Sending? && !Enabled(s, Send(c))
  }

  lemma StuckNeedsTwoReplies(s: World, c: nat) returns (m: nat, n: nat)
    requires Reachable(s) && Stuck(s, c)
    ensures m < |s.log| && n < |s.log| && m != n && s.log[m].reply.id == s.log[n].reply.id
    ensures n == s.readers[c].n && s.readers[c].k < |s.calls| && s.calls[s.readers[c].k].channel == Some(m)
  {
    ReachableInv(s);
    n := s.readers[c].n;
    var k := s.readers[c].k;
    assert Routed(s, n, k, AtReader(c));
    m := s.calls[k].channel.value;
    assert Routed(s, m, k, InChannel(k));
  }

  /** With at most one reply per id, no reader is ever kept waiting. */
  lemma OneReplyNeverStuck(s: World, c: nat)
    requires Reachable(s)
    requires forall m, n | 0 <= m < n < |s.log| :: s.log[m].reply.id != s.log[n].reply.id
    ensures !Stuck(s, c)
  {
    if Stuck(s, c) {
      var m, n := StuckNeedsTwoReplies(s, c);
    }
  }

  /** A reader kept waiting is released only by the caller taking the first
      reply: so it can still go on exactly when that caller has not yet left
      its select. */
  lemma ReleasedOnlyByCaller(s: World, c: nat)
    requires Reachable(s) && Stuck(s, c)
    ensures s.readers[c].k < |s.calls|
    ensures (exists steps :: Run(s, steps).Some? && !Stuck(Run(s, steps).value, c)) <==>
            !Returning(s.calls[s.readers[c].k])
  {
    ReachableInv(s);
    var k := s.readers[c].k;
    assert Routed(s, s.readers[c].n, k, AtReader(c));
    if Returning(s.calls[k]) {
      forall steps | Run(s, steps).Some? ensures Stuck(Run(s, steps).value, c) {
        StuckForGood(s, c, steps);
      }
    } else {
      var steps := Release(s, c);
    }
  }

  predicate Returning(call: Call) {
    call.stage.Leaving? || call.stage.Done?
  }

  lemma {:induction false} StuckForGood(s: World, c: nat, steps: seq<Step>)
    requires Stuck(s, c) && Run(s, steps).Some?
    requires var k := s.readers[c].k; k < |s.calls| && s.calls[k].channel.Some? && Returning(s.calls[k])
    ensures Stuck(Run(s, steps).value, c)
    decreases |steps|
  {
    if steps != [] {
      var s' := Apply(s, steps[0]);
      assert s'.readers[c] == s.readers[c];
      assert s'.calls[s.readers[c].k].channel == s.calls[s.readers[c].k].channel;
      StuckForGood(s', c, steps[1..]);
    }
  }

  lemma Release(s: World, c: nat) returns (steps: seq<Step>)
    requires Inv(s) && Stuck(s, c) && s.readers[c].k < |s.calls| && !Returning(s.calls[s.readers[c].k])
    ensures Run(s, steps).Some? && !Stuck(Run(s, steps).value, c)
  {
    var k := s.readers[c].k;
    assert Routed(s, s.readers[c].n, k, AtReader(c));
    assert Routed(s, s.calls[k].channel.value, k, InChannel(k));
    if s.calls[k].stage.Waiting? {
      steps := [Receive(k)];
      assert Run(Apply(s, Receive(k)), []) == Some(Apply(s, Receive(k)));
      assert [Receive(k)][1..] == [];
    } else {
      steps := [WriteOk(k), Receive(k)];
      var s1 := Apply(s, WriteOk(k));
      assert Run(Apply(s1, Receive(k)), []) == Some(Apply(s1, Receive(k)));
      assert [Receive(k)][1..] == [] && steps[1..] == [Receive(k)];
      assert Run(s1, [Receive(k)]) == Some(Apply(s1, Receive(k)));
    }
  }

  /** One step of a run written out by its states. */
  lemma Next(s: World, step: Step, s': World)
    requires Reachable(s) && Enabled(s, step)
    requires var a := Apply(s, step);
             a.conn == s'.conn && a.readers == s'.readers && a.calls == s'.calls && a.pending == s'.pending && a.log == s'.log
             && a.touches == s'.touches
    ensures Reachable(s')
  {
    ReachableStep(s, step);
    assert Apply(s, step) == s';
  }

  /** Two replies can do it: the caller gives up with the first in its
      channel, and the reader waits to send the second. */
  lemma TwoRepliesMayStick(id: string, x: string, y: string) returns (s: World)
    requires id != ""
    ensures Reachable(s) && Distinct(s) && Stuck(s, 0) && s.readers[0].k == 0
    ensures s.calls == [Call(id, 0, Done(Timeout), Some(0))]
  {
    var s5 := OneReplyInChannel(id, x);
    var s6 := s5.(readers := [Sending(1, 0)], log := s5.log + [Received(Response(id, y), 0, AtReader(0))]);
    var s7 := s6.(calls := [Call(id, 0, Leaving(Timeout), Some(0))]);
    s := s7.(calls := [Call(id, 0, Done(Timeout), Some(0))], pending := map[], touches := s7.touches + [Left(0)]);
    Next(s5, Lookup(0, Response(id, y)), s6);
    Next(s6, GivesUp(0), s7);
    Next(s7, Cleanup(0), s);
  }

  lemma OneReplyInChannel(id: string, x: string) returns (s: World)
    requires id != ""
    ensures Reachable(s)
    ensures s == World(Some(0), [Idle], [Call(id, 0, Waiting, Some(0))], map[id := 0],
                       [Received(Response(id, x), 0, InChannel(0))], [Entered(0)])
  {
    var s1 := World(Some(0), [Idle], [], map[], [], []);
    var s2 := World(Some(0), [Idle], [Call(id, 0, Writing, None)], map[id := 0], [], [Entered(0)]);
    var s3 := s2.(calls := [Call(id, 0, Waiting, None)]);
    var s4 := s3.(readers := [Sending(0, 0)], log := [Received(Response(id, x), 0, AtReader(0))]);
    s := s3.(calls := [Call(id, 0, Waiting, Some(0))], log := [Received(Response(id, x), 0, InChannel(0))]);
    assert Run(INIT, []) == Some(INIT);
    Next(INIT, Accept, s1);
    Next(s1, Register(id), s2);
    Next(s2, WriteOk(0), s3);
    Next(s3, Lookup(0, Response(id, x)), s4);
    Next(s4, Send(0), s);
  }
}
