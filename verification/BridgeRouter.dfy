/** The bridge's shared variables.  Each method is one locked section or one
    channel operation of the handlers, and takes the step of the Bridge system
    it stands for. */
module BridgeRouter {
  import opened Text
  import opened Bridge

  class Router {
    var conn: Option<nat>
    var accepted: nat                        // connections so far: the next one's handle
    var pending: map<string, nat>            // id to channel
    var channels: seq<Option<Response>>      // the capacity-one channels, by handle
    ghost var W: World

    ghost predicate Valid()
      reads this
    {
      && Reachable(W) && conn == W.conn && accepted == |W.readers| && pending == W.pending
      && |channels| == |W.calls|
      && forall k | 0 <= k < |channels| :: Holds(W, k, channels[k])
    }

    constructor ()
      ensures Valid() && W == INIT
    {
      conn, accepted, pending, channels, W := None, 0, map[], [], INIT;
      new;
      assert Run(INIT, []) == Some(INIT);
    }

    ghost method Take(s: Step)
      requires Reachable(W) && Enabled(W, s)
      modifies this`W
      ensures W == Apply(old(W), s) && Reachable(W)
    {
      ReachableStep(W, s);
      W := Apply(W, s);
    }

    /** ext, on accepting a connection: it takes the slot; replaced tells the
        connection to close. */
    method Accept() returns (c: nat, replaced: Option<nat>)
      requires Valid()
      modifies this`conn, this`accepted, this`W
      ensures Valid() && W == Apply(old(W), Step.Accept)
      ensures c == |old(W).readers| && conn == Some(c) && replaced == old(conn)
      ensures replaced.Some? ==> replaced.value == c - 1
    {
      SlotIsNewest(W);
      c, replaced := accepted, conn;
      conn, accepted := Some(c), accepted + 1;
      Take(Step.Accept);
    }

    /** ext, after reading a reply: the channel to send it to, if any. */
    method Lookup(c: nat, x: Response) returns (k: Option<nat>)
      requires Valid() && c < |W.readers| && W.readers[c].Idle?
      modifies this`W
      ensures Valid() && if x.id == "" then W == old(W) && k.None? else W == Apply(old(W), Step.Lookup(c, x))
      ensures k.Some? ==> c < |W.readers| && W.readers[c] == Sending(|W.log| - 1, k.value)
      ensures k.Some? ==> k.value < |W.calls| && W.calls[k.value].id == x.id
      ensures k.None? ==> W.readers == old(W).readers
      ensures k == if x.id != "" && x.id in pending then Some(pending[x.id]) else None
    {
      if x.id == "" {
        return None;
      }
      ReachableInv(W);
      k := if x.id in pending then Some(pending[x.id]) else None;
      Take(Step.Lookup(c, x));
      LookupHolds(old(W), c, x, channels);
    }

    /** ch <- x, when the channel has room. */
    method Send(c: nat, k: nat, x: Response)
      requires Valid() && c < |W.readers| && W.readers[c].Sending? && W.readers[c].k == k
      requires W.readers[c].n < |W.log| && W.log[W.readers[c].n].reply == x && !Stuck(W, c)
      modifies this`channels, this`W
      ensures Valid() && W == Apply(old(W), Step.Send(c)) && W.readers[c].Idle?
      ensures k < |old(channels)| && old(channels)[k].None? && channels == old(channels)[k := Some(x)]
    {
      ReachableInv(W);
      SendHolds(W, c, channels);
      channels := channels[k := Some(x)];
      Take(Step.Send(c));
    }

    /** ext, on a read error: the connection leaves the slot if it is still in
        it, and it is the newest when it does. */
    method Leave(c: nat)
      requires Valid() && c < |W.readers| && W.readers[c].Idle?
      modifies this`conn, this`W
      ensures Valid() && W == Apply(Apply(old(W), Step.ReadFails(c)), Step.Clear(c))
      ensures conn == if c == accepted - 1 then None else old(conn)
    {
      SlotIsNewest(W);
      Take(Step.ReadFails(c));
      if conn == Some(c) {
        conn := None;
      }
      Take(Step.Clear(c));
    }

    /** api, first section: refused without a connection, else the call is
        entered with a channel of its own. */
    method Register(id: string) returns (r: Option<(nat, nat)>)
      requires Valid()
      modifies this`pending, this`channels, this`W
      ensures Valid() && (r.None? <==> old(conn).None?)
      ensures r.None? ==> W == old(W) && pending == old(pending) && channels == old(channels)
      ensures r.Some? ==> r.value == (old(conn).value, |old(channels)|) && r.value.0 == accepted - 1
      ensures r.Some? ==> W == Apply(old(W), Step.Register(id))
      ensures r.Some? ==> pending == old(pending)[id := r.value.1] && channels == old(channels) + [None]
    {
      SlotIsNewest(W);
      if conn.None? {
        return None;
      }
      var k := |channels|;
      r := Some((conn.value, k));
      channels := channels + [None];
      pending := pending[id := k];
      Take(Step.Register(id));
      assert forall j | 0 <= j < k :: Holds(old(W), j, channels[j]);
    }

    /** api's select.  It can take the channel only when something is in it. */
    method Select(k: nat, ready: bool) returns (r: Option<Response>)
      requires Valid() && k < |W.calls| && W.calls[k].stage.Waiting?
      requires ready ==> channels[k].Some?
      modifies this`channels, this`W
      ensures Valid() && W == Apply(old(W), if ready then Receive(k) else GivesUp(k))
      ensures r == if ready then old(channels)[k] else None
      ensures r.Some? ==> r.value.id == W.calls[k].id
      ensures channels == if ready then old(channels)[k := None] else old(channels)
    {
      ReachableInv(W);
      assert Holds(W, k, channels[k]);
      if ready {
        r := channels[k];
        ReceiveHolds(W, k, channels);
        channels := channels[k := None];
        Take(Step.Receive(k));
      } else {
        r := None;
        Take(Step.GivesUp(k));
        assert forall j | 0 <= j < |channels| :: Holds(old(W), j, channels[j]);
      }
    }

    method SetStage(k: nat, s: Step)
      requires Valid() && Enabled(W, s) && (s == WriteOk(k) || s == WriteFails(k))
      modifies this`W
      ensures Valid() && W == Apply(old(W), s)
    {
      assert forall j | 0 <= j < |channels| :: Holds(W, j, channels[j]);
      Take(s);
    }

    /** api's deferred delete, by id. */
    method Delete(k: nat, id: string)
      requires Valid() && Enabled(W, Step.Cleanup(k)) && W.calls[k].id == id
      modifies this`pending, this`W
      ensures Valid() && W == Apply(old(W), Step.Cleanup(k)) && pending == old(pending) - {id}
      ensures k < |W.calls| && W.calls[k].stage == Done(old(W.calls[k].stage.outcome))
    {
      assert forall j | 0 <= j < |channels| :: Holds(W, j, channels[j]);
      pending := pending - {id};
      Take(Step.Cleanup(k));
    }

    /** api, the write to the connection: a failed one returns at once, a good
        one leaves the call to wait while replies come in. */
    method Write(id: string, k: nat, written: bool)
      requires Valid() && k < |W.calls| && W.calls[k].stage.Writing? && W.calls[k].id == id
      modifies this`pending, this`W
      ensures Valid() && k < |W.calls| && W.calls[k].id == id
      ensures W.calls[k].stage == if written then Waiting else Done(WriteError)
      ensures pending == if written then old(pending) else old(pending) - {id}
    {
      if written {
        SetStage(k, Step.WriteOk(k));
      } else {
        SetStage(k, Step.WriteFails(k));
        Delete(k, id);
      }
    }

    /** api, from the select on, whatever has happened since the write: the
        caller gets what is in its channel now, or a timeout, and its id leaves
        the table. */
    method Await(id: string, k: nat, ready: bool) returns (r: Option<Response>)
      requires Valid() && k < |W.calls| && W.calls[k].stage.Waiting? && W.calls[k].id == id
      requires ready ==> channels[k].Some?
      modifies this`pending, this`channels, this`W
      ensures Valid() && k < |W.calls| && W.calls[k].stage.Done?
      ensures W.calls[k].stage.outcome.Reply? <==> ready
      ensures r == if ready then old(channels)[k] else None
      ensures r.Some? ==> r.value.id == id
      ensures pending == old(pending) - {id}
      ensures channels == if ready then old(channels)[k := None] else old(channels)
    {
      r := Select(k, ready);
      Delete(k, id);
    }
  }

  /** The channel of call k holds this. */
  ghost predicate Holds(s: World, k: nat, held: Option<Response>) {
    && k < |s.calls|
    && match s.calls[k].channel
       case None => held.None?
       case Some(n) => n < |s.log| && held == Some(s.log[n].reply)
  }

  ghost predicate AllHold(s: World, channels: seq<Option<Response>>) {
    |channels| == |s.calls| && forall k | 0 <= k < |channels| :: Holds(s, k, channels[k])
  }

  lemma LookupHolds(s: World, c: nat, x: Response, channels: seq<Option<Response>>)
    requires AllHold(s, channels) && Enabled(s, Step.Lookup(c, x))
    ensures AllHold(Apply(s, Step.Lookup(c, x)), channels)
  {
    assert forall k | 0 <= k < |channels| :: Holds(s, k, channels[k]);
  }

  lemma SendHolds(s: World, c: nat, channels: seq<Option<Response>>)
    requires AllHold(s, channels) && Inv(s) && Enabled(s, Step.Send(c))
    ensures var r := s.readers[c];
            r.k < |channels| && channels[r.k].None? &&
            AllHold(Apply(s, Step.Send(c)), channels[r.k := Some(s.log[r.n].reply)])
  {
    var r := s.readers[c];
    assert Routed(s, r.n, r.k, AtReader(c));
    assert forall k | 0 <= k < |channels| :: Holds(s, k, channels[k]);
  }

  lemma ReceiveHolds(s: World, k: nat, channels: seq<Option<Response>>)
    requires AllHold(s, channels) && Inv(s) && Enabled(s, Step.Receive(k))
    ensures AllHold(Apply(s, Step.Receive(k)), channels[k := None])
    ensures channels[k].Some? && channels[k].value.id == s.calls[k].id
  {
    assert Routed(s, s.calls[k].channel.value, k, InChannel(k));
    assert forall j | 0 <= j < |channels| :: Holds(s, j, channels[j]);
  }
}
