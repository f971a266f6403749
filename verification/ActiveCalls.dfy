/** The logger's map of active calls: when exactly it lists a call in flight,
    ids being any function of tool and arguments. */
module ActiveCalls {
  import opened Text
  import opened Reason
  import opened Calls

  /** The last put or deletion of an id. */
  ghost function LastTouch(hash: Hash, calls: seq<Call>, touches: seq<Touch>, id: int): Option<Touch> {
    if touches == [] then None
    else
      var t := touches[|touches| - 1];
      if t.call < |calls| && Id(hash, calls[t.call]) == id then Some(t)
      else LastTouch(hash, calls, touches[..|touches| - 1], id)
  }

  lemma {:induction false} LastTouchKept(hash: Hash, calls: seq<Call>, calls': seq<Call>, touches: seq<Touch>, id: int)
    requires |calls| <= |calls'| && forall c | 0 <= c < |calls| :: Id(hash, calls'[c]) == Id(hash, calls[c])
    requires forall t | t in touches :: t.call < |calls|
    ensures LastTouch(hash, calls', touches, id) == LastTouch(hash, calls, touches, id)
  {
    if touches != [] {
      assert touches[|touches| - 1] in touches;
      assert forall t | t in touches[..|touches| - 1] :: t in touches;
      LastTouchKept(hash, calls, calls', touches[..|touches| - 1], id);
    }
  }

  lemma {:induction false} LastTouchIn(hash: Hash, calls: seq<Call>, touches: seq<Touch>, id: int)
    ensures LastTouch(hash, calls, touches, id).Some? ==>
              var t := LastTouch(hash, calls, touches, id).value;
              t in touches && t.call < |calls| && Id(hash, calls[t.call]) == id
    ensures (exists t :: t in touches && t.call < |calls| && Id(hash, calls[t.call]) == id) ==>
              LastTouch(hash, calls, touches, id).Some?
  {
    if touches != [] {
      var front, last := touches[..|touches| - 1], touches[|touches| - 1];
      assert touches == front + [last];
      LastTouchIn(hash, calls, front, id);
    }
  }

  /** Puts were made by calls past that BeforeCall, deletions by calls past
      that half of AfterCall, and no put is missing. */
  ghost predicate TouchesOk(w: World) {
    && (forall t | t in w.touches :: TouchOk(w.calls, t))
    && (forall c, j | 0 <= c < |w.calls| && Inserted(w.calls[c], j) :: Touch(c, j, true) in w.touches)
  }

  predicate TouchOk(calls: seq<Call>, t: Touch) {
    && t.call < |calls| && t.j < |calls[t.call].chain| && calls[t.call].chain[t.j].Logger?
    && (if t.put then Inserted(calls[t.call], t.j) else !WillDeleteAt(calls[t.call], t.j) && calls[t.call].pc.After?)
  }

  ghost predicate LastTouchRules(hash: Hash, w: World) {
    forall id :: id in w.active <==> Puts(LastTouch(hash, w.calls, w.touches, id))
  }

  predicate Puts(t: Option<Touch>) {
    t.Some? && t.value.put
  }

  lemma TouchesStep(hash: Hash, w: World, s: Step)
    requires CallsOk(w) && TouchesOk(w) && Enabled(w, s)
    ensures TouchesOk(Apply(hash, w, s))
  {
    var w' := Apply(hash, w, s);
    forall t | t in w'.touches ensures TouchOk(w'.calls, t) {
      if t in w.touches { TouchStays(hash, w, s, t); } else { TouchAdded(hash, w, s); }
    }
    forall c, j | 0 <= c < |w'.calls| && Inserted(w'.calls[c], j) ensures Touch(c, j, true) in w'.touches {
      PutRecorded(hash, w, s, c, j);
    }
  }

  lemma TouchStays(hash: Hash, w: World, s: Step, t: Touch)
    requires CallsOk(w) && Enabled(w, s) && TouchOk(w.calls, t)
    ensures TouchOk(Apply(hash, w, s).calls, t)
  {
  }

  lemma TouchAdded(hash: Hash, w: World, s: Step)
    requires CallsOk(w) && Enabled(w, s)
    ensures var t := NewTouch(w, s);
            && Apply(hash, w, s).touches == w.touches + (if t.Some? then [t.value] else [])
            && (t.Some? ==> TouchOk(Apply(hash, w, s).calls, t.value))
  {
  }

  lemma PutRecorded(hash: Hash, w: World, s: Step, c: nat, j: nat)
    requires CallsOk(w) && TouchesOk(w) && Enabled(w, s)
    requires c < |Apply(hash, w, s).calls| && Inserted(Apply(hash, w, s).calls[c], j)
    ensures Touch(c, j, true) in Apply(hash, w, s).touches
  {
    if c < |w.calls| && Inserted(w.calls[c], j) { assert Touch(c, j, true) in w.touches; }
  }

  lemma RulesStep(hash: Hash, w: World, s: Step)
    requires CallsOk(w) && TouchesOk(w) && LastTouchRules(hash, w) && Enabled(w, s)
    ensures LastTouchRules(hash, Apply(hash, w, s))
  {
    var w' := Apply(hash, w, s);
    forall id ensures id in w'.active <==> Puts(LastTouch(hash, w'.calls, w'.touches, id)) {
      LastTouchStep(hash, w, s, id);
      ActiveStep(hash, w, s, id);
    }
  }

  /** The change of active a step makes, if it makes one. */
  function NewTouch(w: World, s: Step): Option<Touch>
    requires Enabled(w, s)
  {
    match s
    case RunBefore(c, _) =>
      if w.calls[c].chain[w.calls[c].pc.i].Logger? then Some(Touch(c, w.calls[c].pc.i, true)) else None
    case DeleteActive(c) => Some(Touch(c, w.calls[c].pc.i, false))
    case _ => None
  }

  lemma LastTouchStep(hash: Hash, w: World, s: Step, id: int)
    requires TouchesOk(w) && Enabled(w, s)
    ensures var w', t := Apply(hash, w, s), NewTouch(w, s);
            LastTouch(hash, w'.calls, w'.touches, id) ==
            if t.Some? && Id(hash, w.calls[t.value.call]) == id then t else LastTouch(hash, w.calls, w.touches, id)
  {
    var w' := Apply(hash, w, s);
    assert forall t | t in w.touches :: TouchOk(w.calls, t);
    LastTouchKept(hash, w.calls, w'.calls, w.touches, id);
    if NewTouch(w, s).Some? {
      assert w'.touches[..|w'.touches| - 1] == w.touches;
    }
  }

  lemma ActiveStep(hash: Hash, w: World, s: Step, id: int)
    requires Enabled(w, s)
    ensures var t := NewTouch(w, s);
            id in Apply(hash, w, s).active <==>
            if t.Some? && Id(hash, w.calls[t.value.call]) == id then t.value.put else id in w.active
  {
  }

  lemma {:induction false} RulesAlongRun(hash: Hash, w: World, steps: seq<Step>)
    requires Inv(hash, w) && TouchesOk(w) && LastTouchRules(hash, w) && Run(hash, w, steps).Some?
    ensures TouchesOk(Run(hash, w, steps).value) && LastTouchRules(hash, Run(hash, w, steps).value)
    decreases |steps|
  {
    if steps != [] {
      InvStep(hash, w, steps[0]);
      TouchesStep(hash, w, steps[0]);
      RulesStep(hash, w, steps[0]);
      RulesAlongRun(hash, Apply(hash, w, steps[0]), steps[1..]);
    }
  }

  lemma ReachableTouches(hash: Hash, w: World)
    requires Reachable(hash, w)
    ensures TouchesOk(w) && LastTouchRules(hash, w)
  {
    var steps :| Run(hash, INIT, steps) == Some(w);
    RulesAlongRun(hash, INIT, steps);
  }

  // -------------------------------------------------------- main theorems

  /** An id is active exactly when it was last put, not deleted, by whichever
      calls have it. */
  lemma ActiveIsLastTouch(hash: Hash, w: World, id: int)
    requires Reachable(hash, w)
    ensures id in w.active <==> Puts(LastTouch(hash, w.calls, w.touches, id))
  {
    ReachableTouches(hash, w);
  }

  predicate OneLogger(chain: seq<Interceptor>) {
    forall i, j | 0 <= i < j < |chain| :: !(chain[i].Logger? && chain[j].Logger?)
  }

  /** The last change of the call's entry was a deletion by another call. */
  ghost predicate Hidden(hash: Hash, w: World, c: nat)
    requires c < |w.calls|
  {
    var last := LastTouch(hash, w.calls, w.touches, Id(hash, w.calls[c]));
    last.Some? && !last.value.put && last.value.call != c
  }

  /** A call the logger has seen begin and not end is listed exactly when no
      other call with its id has deleted the entry since it was last put. */
  lemma ListedUnlessHidden(hash: Hash, w: World, c: nat)
    requires Reachable(hash, w) && c < |w.calls| && Registered(w.calls[c]) && OneLogger(w.calls[c].chain)
    ensures Id(hash, w.calls[c]) in w.active <==> !Hidden(hash, w, c)
  {
    ReachableTouches(hash, w);
    var call := w.calls[c];
    var id := Id(hash, call);
    var j :| 0 <= j < |call.chain| && Inserted(call, j);
    var k :| 0 <= k < |call.chain| && WillDeleteAt(call, k);
    assert Touch(c, j, true) in w.touches;
    LastTouchIn(hash, w.calls, w.touches, id);
    var last := LastTouch(hash, w.calls, w.touches, id).value;
    assert TouchOk(w.calls, last);
  }

  ghost predicate RegisteredActive(hash: Hash, w: World, c: nat) {
    c < |w.calls| && Registered(w.calls[c]) ==> Id(hash, w.calls[c]) in w.active
  }

  /** Every other call with this call's id has ended. */
  ghost predicate Alone(hash: Hash, w: World, c: nat) {
    && c < |w.calls| && OneLogger(w.calls[c].chain)
    && forall b | 0 <= b < |w.calls| && b != c && Id(hash, w.calls[b]) == Id(hash, w.calls[c]) :: Done(w.calls[b])
  }

  /** A call that no call with its id overlaps, those that came before having
      ended when it starts and none starting before it ends, is listed exactly
      while the logger has seen it begin and not end.  Repeating a call after
      it has ended is no harm. */
  lemma UnoverlappedListed(hash: Hash, before: World, tool: string, args: Raw, steps: seq<Step>)
    requires Reachable(hash, before) && OneLogger(before.interceptors)
    requires forall b | 0 <= b < |before.calls| && Id(hash, before.calls[b]) == hash(tool, args) :: Done(before.calls[b])
    requires Run(hash, Apply(hash, before, Start(tool, args)), steps).Some?
    requires NoneLater(hash, |before.calls| + 1, Run(hash, Apply(hash, before, Start(tool, args)), steps).value, hash(tool, args))
    ensures var w, c := Run(hash, Apply(hash, before, Start(tool, args)), steps).value, |before.calls|;
            c < |w.calls| && Id(hash, w.calls[c]) == hash(tool, args)
            && (hash(tool, args) in w.active <==> Registered(w.calls[c]))
  {
    var c, w0 := |before.calls|, Apply(hash, before, Start(tool, args));
    JustStarted(hash, before, tool, args);
    CallsKept(hash, w0, steps);
    AloneAlongRun(hash, w0, steps, c);
    InvAlongRun(hash, w0, steps);
    AloneExact(hash, Run(hash, w0, steps).value, c);
  }

  lemma JustStarted(hash: Hash, before: World, tool: string, args: Raw)
    requires Reachable(hash, before) && OneLogger(before.interceptors)
    requires forall b | 0 <= b < |before.calls| && Id(hash, before.calls[b]) == hash(tool, args) :: Done(before.calls[b])
    ensures var w0, c := Apply(hash, before, Start(tool, args)), |before.calls|;
            && Inv(hash, w0) && |w0.calls| == c + 1 && Id(hash, w0.calls[c]) == hash(tool, args)
            && Alone(hash, w0, c) && !Registered(w0.calls[c])
  {
    ReachableInv(hash, before);
    InvStep(hash, before, Start(tool, args));
  }

  lemma AloneExact(hash: Hash, w: World, c: nat)
    requires Inv(hash, w) && Alone(hash, w, c) && RegisteredActive(hash, w, c)
    ensures Id(hash, w.calls[c]) in w.active <==> Registered(w.calls[c])
  {
    if Id(hash, w.calls[c]) in w.active {
      var d :| 0 <= d < |w.calls| && Claims(hash, w.calls[d], Id(hash, w.calls[c]));
      assert CallOk(w.calls[d]) && !Done(w.calls[d]);
    }
  }

  lemma {:induction false} AloneAlongRun(hash: Hash, w: World, steps: seq<Step>, c: nat)
    requires Inv(hash, w) && Run(hash, w, steps).Some? && Alone(hash, w, c) && RegisteredActive(hash, w, c)
    requires NoneLater(hash, |w.calls|, Run(hash, w, steps).value, Id(hash, w.calls[c]))
    ensures Alone(hash, Run(hash, w, steps).value, c) && RegisteredActive(hash, Run(hash, w, steps).value, c)
    decreases |steps|
  {
    if steps != [] {
      var w1 := Apply(hash, w, steps[0]);
      InvStep(hash, w, steps[0]);
      StartsOther(hash, w, steps, Id(hash, w.calls[c]));
      AloneStep(hash, w, steps[0], c);
      RegisteredStep(hash, w, steps[0], c);
      AloneAlongRun(hash, w1, steps[1..], c);
    }
  }

  /** No call from number n on has this id. */
  ghost predicate NoneLater(hash: Hash, n: nat, w: World, id: int) {
    forall b | n <= b < |w.calls| :: Id(hash, w.calls[b]) != id
  }

  lemma StartsOther(hash: Hash, w: World, steps: seq<Step>, id: int)
    requires steps != [] && Run(hash, w, steps).Some? && NoneLater(hash, |w.calls|, Run(hash, w, steps).value, id)
    ensures steps[0].Start? ==> hash(steps[0].tool, steps[0].args) != id
    ensures NoneLater(hash, |Apply(hash, w, steps[0]).calls|, Run(hash, w, steps).value, id)
  {
    var w1 := Apply(hash, w, steps[0]);
    CallsKept(hash, w1, steps[1..]);
    if steps[0].Start? {
      assert Id(hash, Run(hash, w, steps).value.calls[|w.calls|]) == Id(hash, w1.calls[|w.calls|]);
    }
  }

  lemma AloneStep(hash: Hash, w: World, s: Step, c: nat)
    requires CallsOk(w) && Enabled(w, s) && Alone(hash, w, c)
    requires s.Start? ==> hash(s.tool, s.args) != Id(hash, w.calls[c])
    ensures Alone(hash, Apply(hash, w, s), c)
  {
    var w' := Apply(hash, w, s);
    forall b | 0 <= b < |w'.calls| && b != c && Id(hash, w'.calls[b]) == Id(hash, w'.calls[c]) ensures Done(w'.calls[b]) {
      if b < |w.calls| { assert Done(w.calls[b]); }
    }
  }

  /** Later calls are added behind; a call's tool, arguments and chain are fixed. */
  lemma {:induction false} CallsKept(hash: Hash, w: World, steps: seq<Step>)
    requires Run(hash, w, steps).Some?
    ensures var r := Run(hash, w, steps).value;
            && |w.calls| <= |r.calls|
            && forall c | 0 <= c < |w.calls| ::
                 && r.calls[c].tool == w.calls[c].tool && r.calls[c].args == w.calls[c].args
                 && r.calls[c].chain == w.calls[c].chain
    decreases |steps|
  {
    if steps != [] { CallsKept(hash, Apply(hash, w, steps[0]), steps[1..]); }
  }

  lemma RegisteredStep(hash: Hash, w: World, s: Step, c: nat)
    requires CallsOk(w) && Enabled(w, s) && Alone(hash, w, c) && RegisteredActive(hash, w, c)
    ensures RegisteredActive(hash, Apply(hash, w, s), c)
  {
    var w' := Apply(hash, w, s);
    if c < |w'.calls| && Registered(w'.calls[c]) {
      var j :| 0 <= j < |w'.calls[c].chain| && Inserted(w'.calls[c], j);
      var k :| 0 <= k < |w'.calls[c].chain| && WillDeleteAt(w'.calls[c], k);
      assert OneLogger(w'.calls[c].chain);
      WasRegistered(hash, w, s, c, j);
      if !(s.RunBefore? && s.c == c && w.calls[c].pc.i == j) {
        StaysActive(hash, w, s, c);
      }
    }
  }

  /** A registered call was registered before the step, or is being inserted. */
  lemma WasRegistered(hash: Hash, w: World, s: Step, c: nat, j: nat)
    requires CallsOk(w) && Enabled(w, s) && c < |Apply(hash, w, s).calls|
    requires Inserted(Apply(hash, w, s).calls[c], j) && WillDeleteAt(Apply(hash, w, s).calls[c], j)
    ensures c < |w.calls|
    ensures if s.RunBefore? && s.c == c && w.calls[c].pc.i == j then Id(hash, w.calls[c]) in Apply(hash, w, s).active
            else Registered(w.calls[c]) && !(s.DeleteActive? && s.c == c && w.calls[c].pc.i == j)
    ensures !(s.DeleteActive? && s.c == c && w.calls[c].pc.i == j)
  {
    if !(s.RunBefore? && s.c == c && w.calls[c].pc.i == j) {
      assert Inserted(w.calls[c], j) && WillDeleteAt(w.calls[c], j);
    }
  }

  lemma StaysActive(hash: Hash, w: World, s: Step, c: nat)
    requires Enabled(w, s) && c < |w.calls| && Id(hash, w.calls[c]) in w.active
    requires s.DeleteActive? ==> Id(hash, w.calls[s.c]) != Id(hash, w.calls[c])
    ensures c < |Apply(hash, w, s).calls| && Id(hash, Apply(hash, w, s).calls[c]) in Apply(hash, w, s).active
  {
  }

  /** The logger is installed once and no other call ever has this call's id. */
  ghost predicate Distinct(hash: Hash, w: World, c: nat) {
    c < |w.calls| ==>
      OneLogger(w.calls[c].chain) && forall b | 0 <= b < |w.calls| && b != c :: Id(hash, w.calls[b]) != Id(hash, w.calls[c])
  }

  /** Then nothing can hide it. */
  lemma ActiveExactWhenDistinct(hash: Hash, w: World, c: nat)
    requires Reachable(hash, w) && c < |w.calls| && Distinct(hash, w, c)
    ensures Id(hash, w.calls[c]) in w.active <==> Registered(w.calls[c])
  {
    ReachableInv(hash, w);
    LastTouchIn(hash, w.calls, w.touches, Id(hash, w.calls[c]));
    if Registered(w.calls[c]) {
      ListedUnlessHidden(hash, w, c);
    }
    if Id(hash, w.calls[c]) in w.active {
      var d :| 0 <= d < |w.calls| && Claims(hash, w.calls[d], Id(hash, w.calls[c]));
      assert d == c;
    }
  }

  // ------------------------------------------------------------ a witness

  lemma TwoBegun(hash: Hash, tool: string, args: Raw) returns (w: World)
    requires Check(args).None?
    ensures Reachable(hash, w) && w.active == map[hash(tool, args) := (tool, args)]
    ensures var call := Call(tool, args, [Logger], Before(1), None, None); w.calls == [call, call]
  {
    w := TwoStarted(hash, tool, args);
    ReachableStep(hash, w, RunBefore(0, None));
    w := Apply(hash, w, RunBefore(0, None));
    ReachableStep(hash, w, RunBefore(1, None));
    w := Apply(hash, w, RunBefore(1, None));
    assert |w.calls| == 2;
  }

  lemma TwoStarted(hash: Hash, tool: string, args: Raw) returns (w: World)
    requires Check(args).None?
    ensures Reachable(hash, w) && w.active == map[] && w.interceptors == [Logger]
    ensures var call := Call(tool, args, [Logger], Before(0), None, None); w.calls == [call, call]
  {
    w := INIT;
    assert Run(hash, INIT, []) == Some(INIT);
    ReachableStep(hash, w, AddInterceptor(Logger));
    w := Apply(hash, w, AddInterceptor(Logger));
    assert w.interceptors == [Logger];
    ReachableStep(hash, w, Start(tool, args));
    w := Apply(hash, w, Start(tool, args));
    ReachableStep(hash, w, Start(tool, args));
    w := Apply(hash, w, Start(tool, args));
  }

  /** Two overlapping calls of one tool with the same arguments: when the
      first ends, the second, still in flight, is no longer listed as active. */
  lemma CollisionHidesCall(hash: Hash, tool: string, args: Raw) returns (w: World)
    requires Check(args).None?
    ensures Reachable(hash, w) && |w.calls| == 2 && Registered(w.calls[1]) && w.active == map[]
  {
    w := TwoBegun(hash, tool, args);
    ReachableStep(hash, w, RunHandler(0, None));
    w := Apply(hash, w, RunHandler(0, None));
    ReachableStep(hash, w, DeleteActive(0));
    w := Apply(hash, w, DeleteActive(0));
    assert Inserted(w.calls[1], 0) && WillDeleteAt(w.calls[1], 0);
  }
}
