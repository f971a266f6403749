/** stdioMCPState's locked methods.  Each is proved to take steps of the
    StdioRpc system, so what holds of every run of that system holds of any
    sequence of calls. */
module StdioClient {
  import opened Text
  import opened StdioRpc

  /** What reaches a waiting call: messages, or a failure to decode one. */
  datatype Event = Arrives(msg: Message) | DecodeFails

  /** One wait: the events until the context is done, and whether select takes
      the context even though the channel is ready too. */
  datatype Wait = Wait(written: bool, events: seq<Event>, contextWins: bool)

  /** What rpcLocked returns. */
  datatype Reply = WriteError | ContextError | ReadError | UpstreamError(msg: Message) | Result(msg: Message)

  /** What a reader that waits for this id meets first, if anything: a failure
      to decode, or a message with the id, whatever else comes before it. */
  datatype Seen = Nothing | Broken | Found(msg: Message)

  function Awaited(id: nat, events: seq<Event>): Seen {
    if events == [] then Nothing
    else
      match events[0]
      case DecodeFails => Broken
      case Arrives(m) => if m.id == Uint64(id) then Found(m) else Awaited(id, events[1..])
  }

  /** What a request with this id must be answered. */
  function Answering(id: nat, wait: Wait): Reply {
    if !wait.written then WriteError
    else if wait.contextWins then ContextError
    else
      match Awaited(id, wait.events)
      case Nothing => ContextError
      case Broken => ReadError
      case Found(m) => if m.isError then UpstreamError(m) else Result(m)
  }

  /** Found is exactly the first message with the id, if no decode failure
      comes before it. */
  lemma {:induction false} AwaitedIsFirst(id: nat, events: seq<Event>, m: Message)
    ensures Awaited(id, events) == Found(m) <==>
              exists i | 0 <= i < |events| ::
                && events[i] == Arrives(m) && m.id == Uint64(id)
                && forall j | 0 <= j < i :: events[j].Arrives? && events[j].msg.id != Uint64(id)
  {
    if events != [] {
      AwaitedIsFirst(id, events[1..], m);
      var rest := events[1..];
      if events[0].Arrives? && events[0].msg.id != Uint64(id) {
        if Awaited(id, rest) == Found(m) {
          var i :| 0 <= i < |rest| && rest[i] == Arrives(m) && forall j | 0 <= j < i :: rest[j].Arrives? && rest[j].msg.id != Uint64(id);
          assert events[i + 1] == Arrives(m);
          assert forall j | 1 <= j < i + 1 :: events[j] == rest[j - 1];
        }
        if i :| 0 <= i < |events| && events[i] == Arrives(m) && m.id == Uint64(id)
                && forall j | 0 <= j < i :: events[j].Arrives? && events[j].msg.id != Uint64(id) {
          assert rest[i - 1] == Arrives(m);
          assert forall j | 0 <= j < i - 1 :: rest[j] == events[j + 1];
        }
      }
    }
  }

  /** A failure to decode is met when only messages with other ids come
      before it, and nothing when there are no others. */
  lemma {:induction false} AwaitedOtherwise(id: nat, events: seq<Event>)
    ensures Awaited(id, events).Broken? <==>
              exists i | 0 <= i < |events| ::
                events[i].DecodeFails? && forall j | 0 <= j < i :: events[j].Arrives? && events[j].msg.id != Uint64(id)
    ensures Awaited(id, events).Nothing? <==>
              forall j | 0 <= j < |events| :: events[j].Arrives? && events[j].msg.id != Uint64(id)
  {
    if events != [] {
      var rest := events[1..];
      AwaitedOtherwise(id, rest);
      if events[0].Arrives? && events[0].msg.id != Uint64(id) {
        if Awaited(id, rest).Broken? {
          var i :| 0 <= i < |rest| && rest[i].DecodeFails? && forall j | 0 <= j < i :: rest[j].Arrives? && rest[j].msg.id != Uint64(id);
          assert events[i + 1].DecodeFails?;
          assert forall j | 1 <= j < i + 1 :: events[j] == rest[j - 1];
        }
        if i :| 0 <= i < |events| && events[i].DecodeFails?
                && forall j | 0 <= j < i :: events[j].Arrives? && events[j].msg.id != Uint64(id) {
          assert rest[i - 1].DecodeFails?;
          assert forall j | 0 <= j < i - 1 :: rest[j] == events[j + 1];
        }
        assert forall j | 0 <= j < |rest| :: rest[j] == events[j + 1];
      }
    }
  }

  /** A reply with this message, as a result or as the upstream error it
      carries: the request was written, the context does not win, and the
      message is the first with the id, only messages with other ids coming
      before it. */
  lemma ReplyExactly(id: nat, wait: Wait, m: Message)
    ensures Answering(id, wait) == Result(m) <==>
              && wait.written && !wait.contextWins && !m.isError
              && exists i | 0 <= i < |wait.events| ::
                   && wait.events[i] == Arrives(m) && m.id == Uint64(id)
                   && forall j | 0 <= j < i :: wait.events[j].Arrives? && wait.events[j].msg.id != Uint64(id)
    ensures Answering(id, wait) == UpstreamError(m) <==>
              && wait.written && !wait.contextWins && m.isError
              && exists i | 0 <= i < |wait.events| ::
                   && wait.events[i] == Arrives(m) && m.id == Uint64(id)
                   && forall j | 0 <= j < i :: wait.events[j].Arrives? && wait.events[j].msg.id != Uint64(id)
  {
    AwaitedIsFirst(id, wait.events, m);
  }

  /** The three ways to get no reply, each of which stops the client. */
  lemma NoReplyExactly(id: nat, wait: Wait)
    ensures Answering(id, wait).WriteError? <==> !wait.written
    ensures Answering(id, wait).ContextError? <==>
              && wait.written
              && (wait.contextWins || forall j | 0 <= j < |wait.events| ::
                    wait.events[j].Arrives? && wait.events[j].msg.id != Uint64(id))
    ensures Answering(id, wait).ReadError? <==>
              && wait.written && !wait.contextWins
              && exists i | 0 <= i < |wait.events| ::
                   && wait.events[i].DecodeFails?
                   && forall j | 0 <= j < i :: wait.events[j].Arrives? && wait.events[j].msg.id != Uint64(id)
  {
    AwaitedOtherwise(id, wait.events);
  }

  /** What becomes of the start-up: nothing to do when the process is reused,
      else the process must start, greet without error and take the
      notification. */
  function Starting(reuse: bool, started: bool, greeting: Wait, notified: bool): Option<CallResult> {
    if reuse then None
    else if !started then Some(NotStarted)
    else if Answering(1, greeting).Result? && notified then None
    else Some(HandshakeFailed)
  }

  /** A process is ready exactly when it is reused or has started, been sent
      the greeting, answered it without an error and taken the notification. */
  lemma StartingExactly(reuse: bool, started: bool, greeting: Wait, notified: bool)
    ensures Starting(reuse, started, greeting, notified).None? <==>
              reuse ||
              (&& started && notified && greeting.written && !greeting.contextWins
               && exists i | 0 <= i < |greeting.events| ::
                    && greeting.events[i].Arrives? && greeting.events[i].msg.id == Uint64(1)
                    && !greeting.events[i].msg.isError
                    && forall j | 0 <= j < i :: greeting.events[j].Arrives? && greeting.events[j].msg.id != Uint64(1))
    ensures Starting(reuse, started, greeting, notified) == Some(NotStarted) <==> !reuse && !started
  {
    var reply := Answering(1, greeting);
    if reply.Result? {
      ReplyExactly(1, greeting, reply.msg);
    }
    if i :| 0 <= i < |greeting.events| && greeting.events[i].Arrives? && greeting.events[i].msg.id == Uint64(1)
            && forall j | 0 <= j < i :: greeting.events[j].Arrives? && greeting.events[j].msg.id != Uint64(1) {
      ReplyExactly(1, greeting, greeting.events[i].msg);
    }
  }

  predicate Reports(reply: Reply, o: Outcome) {
    match reply
    case WriteError => o.WriteFailed?
    case ContextError => o.Cancelled?
    case ReadError => o.ReadFailed?
    case UpstreamError(m) => o.RpcError? && o.msg == m && m.isError
    case Result(m) => o.Answer? && o.msg == m && !m.isError
  }

  datatype CallResult = NotStarted | HandshakeFailed | Called(reply: Reply)

  class StdioState {
    var cmd: Option<nat>
    var stdin: Option<nat>
    var decoder: Option<nat>
    var nextId: nat
    var envSig: string
    var starts: nat          // processes started so far: the next one's handle
    ghost var W: World

    ghost function Fields(): Client
      reads this
    {
      Client(cmd, stdin, decoder, nextId, envSig)
    }

    /** The fields are the client of a reachable state of the system.  (Output
        is taken to arrive when the decoder asks for it.) */
    ghost predicate Valid()
      reads this
    {
      Fields() == W.client && starts == |W.gens| && Reachable(W) && CaughtUp(W)
    }

    constructor ()
      ensures Valid() && W == INIT
    {
      cmd, stdin, decoder, nextId, envSig, starts := None, None, None, 0, "", 0;
      W := INIT;
      new;
      assert Run(INIT, []) == Some(INIT);
    }

    ghost method Take(s: Step)
      requires Reachable(W) && Enabled(W, s)
      modifies this`W
      ensures W == Apply(old(W), s) && Reachable(W) && Consistent(W)
    {
      ReachableStep(W, s);
      W := Apply(W, s);
      ReachableConsistent(W);
    }

    method StopLocked()
      modifies this`cmd, this`stdin, this`decoder, this`envSig
      ensures cmd == None && stdin == None && decoder == None && envSig == "" && Fields() == Stop(old(Fields()))
    {
      cmd := None;
      stdin := None;
      decoder := None;
      envSig := "";
    }

    /** rpcLocked: one request is written, then messages are read until one
        answers it. */
    method RpcLocked(wait: Wait) returns (reply: Reply)
      requires Valid() && W.pc.Issue?
      modifies this
      ensures Valid() && W.wanted == old(W.wanted) && starts == old(starts)
      ensures |W.requests| == |old(W.requests)| + 1 && old(W.requests) < W.requests
      ensures var r := W.requests[|old(W.requests)|]; r.call == old(W.pc.call) && r.purpose == old(W.pc.purpose)
      ensures |W.outcomes| == |old(W.outcomes)| + 1 && old(W.outcomes) < W.outcomes
      ensures Reports(reply, W.outcomes[|old(W.outcomes)|])
      ensures reply == Answering(W.requests[|old(W.requests)|].id, wait)
      ensures W.requests[|old(W.requests)|].id == nextId == (old(nextId) + 1) % ID_SPACE
      ensures W.pc == if old(W.pc.purpose).Initialize? && (reply.Result? || reply.UpstreamError?)
                      then Greeted(old(W.pc.call), reply.Result?) else Idle
      ensures if reply.Result? || reply.UpstreamError?
              then cmd == old(cmd) && stdin == old(stdin) && decoder == old(decoder) && envSig == old(envSig)
              else cmd == None && stdin == None && decoder == None && envSig == ""
    {
      ReachableConsistent(W);
      nextId := (nextId + 1) % ID_SPACE;
      var id := nextId;
      ghost var k := |W.requests|;
      Take(Write(wait.written));
      if !wait.written {
        StopLocked();
        return WriteError;
      }
      reply := Select(id, wait, k);
    }

    /** The reader goroutine and the select that waits for it. */
    method Select(id: nat, wait: Wait, ghost k: nat) returns (reply: Reply)
      requires Valid() && W.pc == Waiting(k) && k in W.readers && k < |W.requests| && W.requests[k].id == id
      requires k == |W.outcomes| && wait.written
      modifies this
      ensures Valid() && W.wanted == old(W.wanted) && starts == old(starts) && W.requests == old(W.requests)
      ensures |W.outcomes| == k + 1 && old(W.outcomes) < W.outcomes && Reports(reply, W.outcomes[k])
      ensures reply == Answering(id, wait) && nextId == old(nextId)
      ensures W.pc == if W.requests[k].purpose.Initialize? && (reply.Result? || reply.UpstreamError?)
                      then Greeted(W.requests[k].call, reply.Result?) else Idle
      ensures if reply.Result? || reply.UpstreamError?
              then cmd == old(cmd) && stdin == old(stdin) && decoder == old(decoder) && envSig == old(envSig)
              else cmd == None && stdin == None && decoder == None && envSig == ""
    {
      var found, failed := ReadUntil(id, wait.events, k);
      if wait.contextWins || (found.None? && !failed) {
        Take(Cancel);
        StopLocked();
        return ContextError;
      }
      Take(Receive);
      if failed {
        StopLocked();
        return ReadError;
      }
      if found.value.isError {
        return UpstreamError(found.value);
      }
      return Result(found.value);
    }

    /** The reader goroutine: it skips messages without an id, and with any id
        but the request's. */
    method ReadUntil(id: nat, events: seq<Event>, ghost k: nat) returns (found: Option<Message>, failed: bool)
      requires Valid() && W.pc == Waiting(k) && k in W.readers && k < |W.requests| && W.requests[k].id == id
      modifies this`W
      ensures Valid() && Reading(W, old(W), k)
      ensures found.Some? && !failed ==> k in W.delivered && W.delivered[k].Got? && W.delivered[k].msg == found.value
      ensures failed ==> found.None? && k in W.delivered && W.delivered[k].Failed?
      ensures found == match Awaited(id, events) case Found(m) => Some(m) case _ => None
      ensures failed <==> Awaited(id, events).Broken?
    {
      found, failed := None, false;
      var i := 0;
      ReachableConsistent(W);
      while i < |events| && found.None? && !failed
        invariant 0 <= i <= |events| && Valid() && Consistent(W) && Reading(W, old(W), k)
        invariant found.Some? ==> k in W.delivered && W.delivered[k].Got? && W.delivered[k].msg == found.value
        invariant failed ==> found.None? && k in W.delivered && W.delivered[k].Failed?
        invariant found.None? && !failed ==> k in W.readers && Awaited(id, events) == Awaited(id, events[i..])
        invariant found.Some? ==> Awaited(id, events) == Found(found.value)
        invariant failed ==> Awaited(id, events) == Broken
      {
        assert events[i..][0] == events[i] && events[i..][1..] == events[i + 1..];
        match events[i] {
          case DecodeFails =>
            Take(ReadFails(k));
            failed := true;
          case Arrives(m) =>
            Take(Emit(W.requests[k].gen, m));
            Take(ReadOne(k));
            if m.id == Uint64(id) {
              found := Some(m);
            }
        }
        i := i + 1;
      }
    }

    /** ensureStartedLocked: a running process is reused exactly when it was
        started under the wanted signature. */
    method EnsureStartedLocked(sig: string, started: bool, greeting: Wait, notified: bool) returns (failure: Option<CallResult>)
      requires Valid() && W.pc.Idle?
      modifies this
      ensures Valid() && W.wanted == old(W.wanted) + [sig]
      ensures W.pc == if failure.None? then Issue(|old(W.wanted)|, Invoke) else Idle
      ensures failure == Starting(old(cmd).Some? && old(envSig) == sig, started, greeting, notified)
      ensures failure.None? ==> nextId == if old(cmd).Some? && old(envSig) == sig then old(nextId) else 1
      ensures old(cmd).Some? && old(envSig) == sig ==>
        failure.None? && starts == old(starts) && W.requests == old(W.requests)
      ensures !(old(cmd).Some? && old(envSig) == sig) && started ==> starts == old(starts) + 1
      ensures failure.None? ==> cmd.Some? && envSig == sig
      ensures failure.Some? ==> cmd == None && stdin == None && decoder == None && envSig == ""
      ensures Added(old(W), W) && !Invokes(old(W), W)
    {
      ReachableConsistent(W);
      var running := cmd.Some? && envSig == sig;
      Take(Begin(sig, started));
      if running {
        return None;
      }
      StopLocked();
      if !started {
        return Some(NotStarted);
      }
      cmd, stdin, decoder := Some(starts), Some(starts), Some(starts);
      starts := starts + 1;
      envSig := sig;
      nextId := 0;
      var ok := Greet(greeting, notified);
      if !ok {
        return Some(HandshakeFailed);
      }
      return None;
    }

    /** The initialize request and the notification that follows it. */
    method Greet(greeting: Wait, notified: bool) returns (ok: bool)
      requires Valid() && W.pc.Issue? && W.pc.purpose.Initialize? && nextId == 0
      modifies this
      ensures Valid() && W.wanted == old(W.wanted) && starts == old(starts)
      ensures W.pc == if ok then Issue(old(W.pc.call), Invoke) else Idle
      ensures ok <==> Answering(1, greeting).Result? && notified
      ensures ok ==> nextId == 1 && cmd == old(cmd) && envSig == old(envSig)
      ensures !ok ==> cmd == None && stdin == None && decoder == None && envSig == ""
      ensures old(W.requests) < W.requests && old(W.outcomes) <= W.outcomes
      ensures forall k | |old(W.requests)| <= k < |W.requests| ::
                W.requests[k].purpose.Initialize? && W.requests[k].call == old(W.pc.call)
    {
      var hello := RpcLocked(greeting);
      if hello.Result? || hello.UpstreamError? {
        Take(Conclude(notified));
      }
      ok := hello.Result? && notified;
      if !ok {
        StopLocked();
      }
    }

    /** The whole of a tool call: its own request is written exactly when the
        process is ready, and the reply reported is the one to that request. */
    method CallTool(sig: string, started: bool, greeting: Wait, notified: bool, request: Wait) returns (result: CallResult)
      requires Valid() && W.pc.Idle?
      modifies this
      ensures Valid() && W.pc.Idle? && W.wanted == old(W.wanted) + [sig]
      ensures Added(old(W), W)
      ensures result.Called? <==> Invokes(old(W), W)
      ensures result.Called? ==>
        var last := |W.outcomes| - 1;
        last >= 0 && |W.requests| == |W.outcomes| && Reports(result.reply, W.outcomes[last])
        && W.requests[last].purpose.Invoke? && W.requests[last].call == |old(W.wanted)|
      ensures old(cmd).Some? && old(envSig) == sig ==> result.Called? && starts == old(starts)
      ensures if result.Called? && (result.reply.Result? || result.reply.UpstreamError?)
              then cmd.Some? && envSig == sig
              else cmd == None && stdin == None && decoder == None && envSig == ""
      ensures var reuse := old(cmd).Some? && old(envSig) == sig;
              result == match Starting(reuse, started, greeting, notified)
                        case Some(failure) => failure
                        case None => Called(Answering(if reuse then (old(nextId) + 1) % ID_SPACE else 2, request))
    {
      var failure := EnsureStartedLocked(sig, started, greeting, notified);
      if failure.Some? {
        return failure.value;
      }
      var reply := RpcLocked(request);
      ReachableConsistent(W);
      return Called(reply);
    }
  }

  /** Only requests of the one new call were added. */
  ghost predicate Added(from: World, w: World) {
    && from.requests <= w.requests && from.outcomes <= w.outcomes
    && forall k | |from.requests| <= k < |w.requests| :: w.requests[k].call == |from.wanted|
  }

  ghost predicate Invokes(from: World, w: World) {
    exists k | |from.requests| <= k < |w.requests| :: w.requests[k].purpose.Invoke?
  }

  ghost predicate Consistent(w: World) {
    ClientOk(w) && PcOk(w)
  }

  lemma ReachableConsistent(w: World)
    requires Reachable(w)
    ensures Consistent(w)
  {
    ReachableInv(w);
  }

  ghost predicate CaughtUp(w: World) {
    w.client.cmd.Some? && w.client.cmd.value < |w.gens| ==>
      w.gens[w.client.cmd.value].read == |w.gens[w.client.cmd.value].inbox|
  }

  /** What reading replies leaves alone. */
  ghost predicate Reading(w: World, from: World, k: nat) {
    && w.client == from.client && w.pc == from.pc == Waiting(k) && w.requests == from.requests
    && w.outcomes == from.outcomes && w.wanted == from.wanted && |w.gens| == |from.gens|
  }

  lemma ReachableStep(w: World, s: Step)
    requires Reachable(w) && Enabled(w, s)
    ensures Reachable(Apply(w, s))
  {
    var steps :| Run(INIT, steps) == Some(w);
    RunAppend(INIT, steps, s);
  }

  lemma {:induction false} RunAppend(w: World, steps: seq<Step>, s: Step)
    requires Run(w, steps).Some? && Enabled(Run(w, steps).value, s)
    ensures Run(w, steps + [s]) == Some(Apply(Run(w, steps).value, s))
    decreases |steps|
  {
    if steps == [] {
      assert [s][1..] == [] && steps + [s] == [s];
    } else {
      assert (steps + [s])[1..] == steps[1..] + [s];
      RunAppend(Apply(w, steps[0]), steps[1..], s);
    }
  }
}
