/** The bridge's table of waiting calls when ids may be shared: whose entry an
    id has, exactly. */
module BridgeTable {
  import opened Text
  import opened Bridge

  /** The last call to enter or leave under an id. */
  function LastTouch(calls: seq<Call>, touches: seq<Touch>, id: string): Option<Touch> {
    if touches == [] then None
    else
      var t := touches[|touches| - 1];
      if t.k < |calls| && calls[t.k].id == id then Some(t) else LastTouch(calls, touches[..|touches| - 1], id)
  }

  lemma {:induction false} LastTouchKept(calls: seq<Call>, calls': seq<Call>, touches: seq<Touch>, id: string)
    requires |calls| <= |calls'| && forall k | 0 <= k < |calls| :: calls'[k].id == calls[k].id
    requires forall t | t in touches :: t.k < |calls|
    ensures LastTouch(calls', touches, id) == LastTouch(calls, touches, id)
  {
    if touches != [] {
      assert touches[|touches| - 1] in touches;
      assert forall t | t in touches[..|touches| - 1] :: t in touches;
      LastTouchKept(calls, calls', touches[..|touches| - 1], id);
    }
  }

  lemma {:induction false} LastTouchIn(calls: seq<Call>, touches: seq<Touch>, id: string)
    ensures LastTouch(calls, touches, id).Some? ==>
              var t := LastTouch(calls, touches, id).value; t in touches && t.k < |calls| && calls[t.k].id == id
    ensures (exists t :: t in touches && t.k < |calls| && calls[t.k].id == id) ==> LastTouch(calls, touches, id).Some?
  {
    if touches != [] {
      var front, last := touches[..|touches| - 1], touches[|touches| - 1];
      assert touches == front + [last];
      LastTouchIn(calls, front, id);
    }
  }

  /** Every call has entered, and only those that have returned have left. */
  ghost predicate TouchesOk(s: World) {
    && (forall t | t in s.touches :: t.k < |s.calls| && (t.Left? ==> s.calls[t.k].stage.Done?))
    && (forall k | 0 <= k < |s.calls| :: Entered(k) in s.touches)
  }

  /** The entry an id has in the table. */
  function EntryOf(s: World, id: string): Option<nat> {
    if id in s.pending then Some(s.pending[id]) else None
  }

  function EntryAfter(t: Option<Touch>): Option<nat> {
    match t case Some(Entered(k)) => Some(k) case _ => None
  }

  ghost predicate LastTouchRules(s: World) {
    forall id :: EntryOf(s, id) == EntryAfter(LastTouch(s.calls, s.touches, id))
  }

  lemma TouchesStep(s: World, step: Step)
    requires TouchesOk(s) && Enabled(s, step)
    ensures TouchesOk(Apply(s, step))
  {
    var s' := Apply(s, step);
    forall k | 0 <= k < |s'.calls| ensures Entered(k) in s'.touches {
      if k < |s.calls| { assert Entered(k) in s.touches; }
    }
  }

  /** The change of the table a step makes, if it makes one. */
  function NewTouch(s: World, step: Step): Option<Touch>
    requires Enabled(s, step)
  {
    match step
    case Register(_) => Some(Entered(|s.calls|))
    case Cleanup(k) => Some(Left(k))
    case _ => None
  }

  lemma TouchesGrow(s: World, step: Step)
    requires Enabled(s, step)
    ensures var s', t := Apply(s, step), NewTouch(s, step);
            && s'.touches == s.touches + (if t.Some? then [t.value] else []) && (t.Some? ==> t.value.k < |s'.calls|)
            && |s.calls| <= |s'.calls| && forall k | 0 <= k < |s.calls| :: s'.calls[k].id == s.calls[k].id
  {
  }

  lemma LastTouchStep(s: World, step: Step, id: string)
    requires TouchesOk(s) && Enabled(s, step)
    ensures var s', t := Apply(s, step), NewTouch(s, step);
            && (t.Some? ==> t.value.k < |s'.calls|)
            && LastTouch(s'.calls, s'.touches, id) ==
               if t.Some? && s'.calls[t.value.k].id == id then t else LastTouch(s.calls, s.touches, id)
  {
    var s' := Apply(s, step);
    TouchesGrow(s, step);
    LastTouchKept(s.calls, s'.calls, s.touches, id);
    if NewTouch(s, step).Some? {
      assert s'.touches[..|s'.touches| - 1] == s.touches;
    }
  }

  lemma EntryStep(s: World, step: Step, id: string)
    requires Enabled(s, step)
    ensures var s', t := Apply(s, step), NewTouch(s, step);
            && (t.Some? ==> t.value.k < |s'.calls|)
            && EntryOf(s', id) == if t.Some? && s'.calls[t.value.k].id == id then EntryAfter(t) else EntryOf(s, id)
  {
  }

  lemma RuleStep(s: World, step: Step, id: string)
    requires TouchesOk(s) && Enabled(s, step) && EntryOf(s, id) == EntryAfter(LastTouch(s.calls, s.touches, id))
    ensures var s' := Apply(s, step); EntryOf(s', id) == EntryAfter(LastTouch(s'.calls, s'.touches, id))
  {
    LastTouchStep(s, step, id);
    EntryStep(s, step, id);
  }

  lemma {:induction false} RulesAlongRun(s: World, steps: seq<Step>)
    requires TouchesOk(s) && LastTouchRules(s) && Run(s, steps).Some?
    ensures TouchesOk(Run(s, steps).value) && LastTouchRules(Run(s, steps).value)
    decreases |steps|
  {
    if steps != [] {
      var s' := Apply(s, steps[0]);
      TouchesStep(s, steps[0]);
      forall id ensures EntryOf(s', id) == EntryAfter(LastTouch(s'.calls, s'.touches, id)) {
        RuleStep(s, steps[0], id);
      }
      RulesAlongRun(s', steps[1..]);
    }
  }

  lemma ReachableTouches(s: World)
    requires Reachable(s)
    ensures TouchesOk(s) && LastTouchRules(s)
  {
    var steps :| Run(INIT, steps) == Some(s);
    RulesAlongRun(INIT, steps);
  }

  // -------------------------------------------------------- main theorems

  /** Whatever ids are used, the table holds for an id exactly the call that
      was the last to enter under it, if none has left under it since. */
  lemma TableIsLastTouch(s: World, id: string, k: nat)
    requires Reachable(s)
    ensures (id in s.pending && s.pending[id] == k) <==> LastTouch(s.calls, s.touches, id) == Some(Entered(k))
  {
    ReachableTouches(s);
    assert EntryOf(s, id) == EntryAfter(LastTouch(s.calls, s.touches, id));
  }

  /** The last change under the call's id was another call's. */
  predicate Displaced(s: World, k: nat)
    requires k < |s.calls|
  {
    var last := LastTouch(s.calls, s.touches, s.calls[k].id);
    last.Some? && last.value.k != k
  }

  /** So a call that has not returned can be reached by replies exactly unless
      another call with its id has entered or left after it entered. */
  lemma InTableUnlessDisplaced(s: World, k: nat)
    requires Reachable(s) && k < |s.calls| && !s.calls[k].stage.Done?
    ensures (s.calls[k].id in s.pending && s.pending[s.calls[k].id] == k) <==> !Displaced(s, k)
  {
    var id := s.calls[k].id;
    ReachableTouches(s);
    TableIsLastTouch(s, id, k);
    assert Entered(k) in s.touches;
    LastTouchIn(s.calls, s.touches, id);
  }

  /** Were two calls to share an id, one returning would take the other out of
      the table, and the other's reply would be dropped. */
  lemma SharedIdLosesCall(id: string) returns (s: World)
    ensures Reachable(s) && |s.calls| == 2 && s.calls[1] == Call(id, 0, Waiting, None) && id !in s.pending
  {
    var s1 := World(Some(0), [Idle], [], map[], [], []);
    var s2 := World(Some(0), [Idle], [Call(id, 0, Writing, None)], map[id := 0], [], [Entered(0)]);
    var s3 := World(Some(0), [Idle], [Call(id, 0, Writing, None), Call(id, 0, Writing, None)], map[id := 1], [],
                    [Entered(0), Entered(1)]);
    var s4 := s3.(calls := [Call(id, 0, Writing, None), Call(id, 0, Waiting, None)]);
    var s5 := s4.(calls := [Call(id, 0, Leaving(WriteError), None), Call(id, 0, Waiting, None)]);
    s := s5.(calls := [Call(id, 0, Done(WriteError), None), Call(id, 0, Waiting, None)], pending := map[],
               touches := s5.touches + [Left(0)]);
    assert Run(INIT, []) == Some(INIT);
    Next(INIT, Accept, s1);
    Next(s1, Register(id), s2);
    Next(s2, Register(id), s3);
    Next(s3, WriteOk(1), s4);
    Next(s4, WriteFails(0), s5);
    Next(s5, Cleanup(0), s);
  }
}
