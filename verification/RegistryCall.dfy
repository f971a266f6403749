/** Registry.Call with the audit logger, run to completion by one caller.  It
    is proved to take steps of the Calls system, so everything said of finished
    calls there is said of it. */
module RegistryCall {
  import opened Text
  import opened Reason
  import opened Calls

  datatype Reply = Invalid(reason: ReasonError) | Vetoed(veto: string) | Handled(error: Option<string>)

  class Registry {
    const hash: Hash
    var interceptors: seq<Interceptor>
    var active: map<int, (string, Raw)>   // the logger's map of active calls
    var log: seq<Entry>                   // the logger's file
    var started: nat                      // calls so far; the next one's number
    ghost var W: World

    ghost predicate Valid()
      reads this
    {
      && W.interceptors == interceptors && W.active == active && W.log == log && started == |W.calls|
      && Reachable(hash, W)
    }

    constructor (hash: Hash)
      ensures Valid() && W == INIT
    {
      this.hash := hash;
      interceptors, active, log, started, W := [], map[], [], 0, INIT;
      new;
      assert Run(hash, INIT, []) == Some(INIT);
    }

    ghost method Take(s: Step)
      requires Reachable(hash, W) && Enabled(W, s)
      modifies this`W
      ensures W == Apply(hash, old(W), s) && Reachable(hash, W)
    {
      ReachableStep(hash, W, s);
      W := Apply(hash, W, s);
    }

    method Install(i: Interceptor)
      requires Valid()
      modifies this
      ensures Valid() && interceptors == old(interceptors) + [i]
    {
      interceptors := interceptors + [i];
      Take(AddInterceptor(i));
    }

    /** vetoes: what each guard's BeforeCall answers; handlerError: what the
        handler answers, should it be run. */
    method Call(tool: string, raw: Raw, vetoes: seq<Option<string>>, handlerError: Option<string>)
      returns (reply: Reply, ghost first: nat)
      requires Valid() && |vetoes| == |interceptors|
      modifies this
      ensures Valid() && interceptors == old(interceptors)
      ensures var c := |old(W.calls)|;
              && |W.calls| == c + 1 && Done(W.calls[c]) && W.calls[..c] == old(W.calls)
              && W.calls[c].tool == tool && W.calls[c].args == Defaulted(raw) && W.calls[c].chain == interceptors
              && EventsOf(W.history, c) == WholeCall(c, W.calls[c])
      ensures reply.Invalid? <==> Check(Defaulted(raw)).Some?
      ensures reply.Vetoed? <==>
        Check(Defaulted(raw)).None? && exists j :: 0 <= j < |vetoes| && interceptors[j].Guard? && vetoes[j].Some?
      ensures reply.Vetoed? ==> W.calls[|old(W.calls)|].err == Some(reply.veto)
      ensures reply.Vetoed? ==>
        && first < |vetoes| && interceptors[first].Guard? && vetoes[first] == Some(reply.veto)
        && forall i | 0 <= i < first :: interceptors[i].Guard? ==> vetoes[i].None?
      ensures reply.Handled? ==> reply.error == handlerError == W.calls[|old(W.calls)|].err
    {
      first := 0;
      var args := Defaulted(raw);
      var invalid := ValidateReason(args);
      var c := started;
      Take(Start(tool, args));
      started := started + 1;
      if invalid.Some? {
        reply := Invalid(invalid.value);
      } else {
        var answer, j := RunChain(c, tool, args, vetoes, handlerError);
        reply, first := answer, j;
      }
      FinishedCallDid(hash, W, c);
    }

    /** The part of Call after validation. */
    method RunChain(c: nat, tool: string, args: Raw, vetoes: seq<Option<string>>, handlerError: Option<string>)
      returns (reply: Reply, ghost first: nat)
      requires Valid() && c == |W.calls| - 1 && |vetoes| == |interceptors| && Check(args).None?
      requires W.calls[c] == Calls.Call.Call(tool, args, interceptors, Before(0), None, None)
      modifies this`active, this`log, this`W
      ensures Valid() && |W.calls| == c + 1 && W.calls[..c] == old(W.calls[..c])
      ensures Done(W.calls[c]) && W.calls[c].tool == tool && W.calls[c].args == args && W.calls[c].chain == interceptors
      ensures !reply.Invalid?
      ensures reply.Vetoed? <==> exists j :: 0 <= j < |vetoes| && interceptors[j].Guard? && vetoes[j].Some?
      ensures reply.Vetoed? ==>
        && W.calls[c].err == Some(reply.veto)
        && first < |vetoes| && interceptors[first].Guard? && vetoes[first] == Some(reply.veto)
        && forall i | 0 <= i < first :: interceptors[i].Guard? ==> vetoes[i].None?
      ensures reply.Handled? ==> reply.error == handlerError == W.calls[c].err
    {
      var veto, j := BeforeAll(c, tool, args, vetoes);
      first := j;
      if veto.Some? {
        AfterAll(c, tool, args, veto);
        return Vetoed(veto.value), first;
      }
      Take(RunHandler(c, handlerError));
      AfterAll(c, tool, args, handlerError);
      return Handled(handlerError), first;
    }

    /** The loop over BeforeCall, up to the first that fails. */
    method BeforeAll(c: nat, tool: string, args: Raw, vetoes: seq<Option<string>>)
      returns (veto: Option<string>, ghost first: nat)
      requires Valid() && c == |W.calls| - 1 && |vetoes| == |interceptors|
      requires W.calls[c] == Calls.Call.Call(tool, args, interceptors, Before(0), None, None)
      modifies this`active, this`W
      ensures Valid() && |W.calls| == c + 1 && W.calls[..c] == old(W.calls[..c])
      ensures veto.Some? <==> exists j :: 0 <= j < |vetoes| && interceptors[j].Guard? && vetoes[j].Some?
      ensures veto.Some? ==>
        && first < |vetoes| && interceptors[first].Guard? && vetoes[first] == veto
        && forall i | 0 <= i < first :: interceptors[i].Guard? ==> vetoes[i].None?
      ensures var call := W.calls[c];
              && call.tool == tool && call.args == args && call.chain == interceptors && call.err == veto
              && call.pc == if veto.Some? then After(0, false) else Before(|interceptors|)
    {
      first := 0;
      for i := 0 to |interceptors|
        invariant Valid() && |W.calls| == c + 1 && W.calls[..c] == old(W.calls[..c])
        invariant W.calls[c] == Calls.Call.Call(tool, args, interceptors, Before(i), None, None)
        invariant forall j | 0 <= j < i :: interceptors[j].Guard? ==> vetoes[j].None?
      {
        veto := if interceptors[i].Guard? then vetoes[i] else None;
        Take(RunBefore(c, veto));
        if interceptors[i].Logger? {
          active := active[hash(tool, args) := (tool, args)];
        }
        if veto.Some? {
          first := i;
          return;
        }
      }
      veto := None;
    }

    /** The loop over AfterCall, the logger's two locked sections included. */
    method AfterAll(c: nat, tool: string, args: Raw, err: Option<string>)
      requires Valid() && c == |W.calls| - 1 && Check(args).None?
      requires var call := W.calls[c];
               && call.tool == tool && call.args == args && call.chain == interceptors && call.err == err
               && call.pc == After(0, false)
      modifies this`active, this`log, this`W
      ensures Valid() && |W.calls| == c + 1 && W.calls[..c] == old(W.calls[..c])
      ensures W.calls[c] == old(W.calls[c]).(pc := After(|interceptors|, false))
    {
      for i := 0 to |interceptors|
        invariant Valid() && |W.calls| == c + 1 && W.calls[..c] == old(W.calls[..c])
        invariant W.calls[c] == old(W.calls[c]).(pc := After(i, false))
      {
        if interceptors[i].Logger? {
          Take(DeleteActive(c));
          active := active - {hash(tool, args)};
        }
        Take(RunAfter(c));
        if interceptors[i].Logger? {
          log := log + [Entry(c, tool, args, err)];
        }
      }
    }
  }
}
