/** The JSON-RPC client of a helper process, as a system of steps: calls take
    one lock, but the goroutine that reads a reply runs beside them and may
    outlive its call, the helper may write anything at any time, and every
    start makes a new generation with its own pipes. */
module StdioRpc {
  import opened Text

  const ID_SPACE := 0x1_0000_0000_0000_0000   // ids are uint64

  /** The id member of a message.  JSON null decodes to 0. */
  datatype MessageId = Absent | NotUint64 | Uint64(n: nat)
  datatype Message = Message(id: MessageId, isError: bool, body: string)

  /** One helper process: what it has written, and how much of that its
      decoder has consumed. */
  datatype Generation = Generation(sig: string, inbox: seq<Message>, read: nat, issued: nat)

  datatype Purpose = Initialize | Invoke

  /** One request: the call it was made for, the process it was written to,
      its place among that process's requests and its id. */
  datatype Request = Request(call: nat, purpose: Purpose, gen: nat, ordinal: nat, id: nat)

  /** What a reader goroutine leaves in its channel. */
  datatype Delivery = Failed | Got(msg: Message, gen: nat, pos: nat)

  /** How a request ended.  A reply with an error member is an RpcError. */
  datatype Outcome =
    | WriteFailed
    | Cancelled
    | ReadFailed
    | RpcError(msg: Message, gen: nat, pos: nat)
    | Answer(msg: Message, gen: nat, pos: nat)

  /** The fields of stdioMCPState; generations stand for the pipes. */
  datatype Client = Client(cmd: Option<nat>, stdin: Option<nat>, decoder: Option<nat>, nextId: nat, envSig: string)

  /** Who holds the lock: nobody, a call about to write, a call in select, or
      a call whose handshake request has been answered. */
  datatype Pc = Idle | Issue(call: nat, purpose: Purpose) | Waiting(request: nat) | Greeted(call: nat, ok: bool)

  datatype World = World(
    client: Client, pc: Pc,
    gens: seq<Generation>,
    requests: seq<Request>,
    readers: set<nat>,               // requests whose reader goroutine is running
    delivered: map<nat, Delivery>,
    outcomes: seq<Outcome>,          // by request, once decided
    wanted: seq<string>)             // the environment signature each call asked for

  const STOPPED := Client(None, None, None, 0, "")
  const INIT := World(STOPPED, Idle, [], [], {}, map[], [], [])

  datatype Step =
    | Begin(sig: string, started: bool)   // lock and ensureStartedLocked up to its first request
    | Write(ok: bool)                     // the write in rpcLocked, and launching the reader
    | ReadOne(request: nat)               // a reader decodes one message
    | ReadFails(request: nat)             // its decoder fails
    | Emit(gen: nat, msg: Message)        // a helper writes something
    | Cancel                              // select takes ctx.Done
    | Receive                             // select takes the channel
    | Conclude(notified: bool)            // the end of ensureStartedLocked, with its last write

  /** stopLocked.  nextID is left alone. */
  function Stop(c: Client): Client {
    Client(None, None, None, c.nextId, "")
  }

  predicate Matches(m: Message, r: Request) {
    m.id == Uint64(r.id)
  }

  predicate Enabled(w: World, s: Step) {
    match s
    case Begin(_, _) => w.pc.Idle?
    case Write(_) => w.pc.Issue? && w.client.stdin.Some? && w.client.stdin.value < |w.gens|
    case ReadOne(k) => k in w.readers && k < |w.requests| && w.requests[k].gen < |w.gens|
                       && w.gens[w.requests[k].gen].read < |w.gens[w.requests[k].gen].inbox|
    case ReadFails(k) => k in w.readers
    case Emit(g, _) => g < |w.gens|
    case Cancel => w.pc.Waiting?
    case Receive => w.pc.Waiting? && w.pc.request in w.delivered && w.pc.request < |w.requests|
    case Conclude(_) => w.pc.Greeted?
  }

  function Apply(w: World, s: Step): World
    requires Enabled(w, s)
  {
    match s
    case Begin(sig, started) =>
      var call := |w.wanted|;
      var w' := w.(wanted := w.wanted + [sig]);
      if w.client.cmd.Some? && w.client.envSig == sig then w'.(pc := Issue(call, Invoke))
      else if !started then w'.(client := Stop(w.client))
      else
        var g := |w.gens|;
        w'.(gens := w.gens + [Generation(sig, [], 0, 0)],
            client := Client(Some(g), Some(g), Some(g), 0, sig),
            pc := Issue(call, Initialize))
    case Write(ok) =>
      var g, k := w.client.stdin.value, |w.requests|;
      var id := (w.client.nextId + 1) % ID_SPACE;
      var r := Request(w.pc.call, w.pc.purpose, g, w.gens[g].issued + 1, id);
      var w' := w.(requests := w.requests + [r], gens := w.gens[g := w.gens[g].(issued := w.gens[g].issued + 1)]);
      if ok then w'.(client := w.client.(nextId := id), pc := Waiting(k), readers := w.readers + {k})
      else w'.(client := Stop(w.client.(nextId := id)), pc := Idle, outcomes := w.outcomes + [WriteFailed])
    case ReadOne(k) =>
      var r := w.requests[k];
      var pos := w.gens[r.gen].read;
      var m := w.gens[r.gen].inbox[pos];
      var w' := w.(gens := w.gens[r.gen := w.gens[r.gen].(read := pos + 1)]);
      if Matches(m, r) then w'.(readers := w.readers - {k}, delivered := w.delivered[k := Got(m, r.gen, pos)]) else w'
    case ReadFails(k) => w.(readers := w.readers - {k}, delivered := w.delivered[k := Failed])
    case Emit(g, m) => w.(gens := w.gens[g := w.gens[g].(inbox := w.gens[g].inbox + [m])])
    case Cancel => w.(client := Stop(w.client), pc := Idle, outcomes := w.outcomes + [Cancelled])
    case Receive =>
      var r := w.requests[w.pc.request];
      var o := Decided(w.delivered[w.pc.request]);
      w.(outcomes := w.outcomes + [o],
         client := if o.ReadFailed? then Stop(w.client) else w.client,
         pc := if r.purpose.Initialize? && !o.ReadFailed? then Greeted(r.call, o.Answer?) else Idle)
    case Conclude(notified) =>
      w.(client := if w.pc.ok && notified then w.client else Stop(w.client),
         pc := if w.pc.ok && notified then Issue(w.pc.call, Invoke) else Idle)
  }

  function Decided(d: Delivery): Outcome {
    match d
    case Failed => ReadFailed
    case Got(m, g, pos) => if m.isError then RpcError(m, g, pos) else Answer(m, g, pos)
  }

  function Run(w: World, steps: seq<Step>): Option<World>
    decreases |steps|
  {
    if steps == [] then Some(w)
    else if !Enabled(w, steps[0]) then None
    else Run(Apply(w, steps[0]), steps[1..])
  }

  ghost predicate Reachable(w: World) {
    exists steps :: Run(INIT, steps) == Some(w)
  }

  // ------------------------------------------------------------ invariant

  /** cmd, stdin and decoder are all nil, or all belong to the newest process,
      started under the recorded signature. */
  predicate ClientOk(w: World) {
    var c := w.client;
    && c.cmd == c.stdin == c.decoder
    && (c.cmd.Some? ==>
          && c.cmd.value == |w.gens| - 1
          && w.gens[c.cmd.value].sig == c.envSig
          && c.nextId == w.gens[c.cmd.value].issued % ID_SPACE)
    && (!w.pc.Idle? ==> c.cmd.Some?)
  }

  predicate PcOk(w: World) {
    match w.pc
    case Idle => |w.outcomes| == |w.requests|
    case Issue(call, purpose) =>
      && |w.outcomes| == |w.requests|
      && call == |w.wanted| - 1 && w.client.envSig == w.wanted[call]
      && (forall r | r in w.requests && r.call == call :: r.purpose.Initialize? && purpose.Invoke?)
    case Greeted(call, ok) =>
      && |w.outcomes| == |w.requests|
      && call == |w.wanted| - 1 && w.client.envSig == w.wanted[call]
      && (forall r | r in w.requests && r.call == call :: r.purpose.Initialize?)
    case Waiting(k) =>
      && k == |w.outcomes| == |w.requests| - 1 && w.requests[k].call == |w.wanted| - 1
      && w.client.cmd == Some(w.requests[k].gen)
      && w.client.envSig == w.wanted[w.requests[k].call]
      && (k in w.readers <==> k !in w.delivered)
  }

  /** Each request went to a process started under the signature its call
      wanted; a process's requests are numbered in order; a call makes at most
      one Initialize request and then at most one Invoke request. */
  ghost predicate RequestsOk(w: World) {
    && (forall k | 0 <= k < |w.requests| :: RequestOk(w, w.requests[k]))
    && (forall i, j | 0 <= i < j < |w.requests| :: Ordered(w.requests[i], w.requests[j]))
  }

  predicate RequestOk(w: World, r: Request) {
    && r.gen < |w.gens| && r.call < |w.wanted|
    && w.gens[r.gen].sig == w.wanted[r.call]
    && 1 <= r.ordinal <= w.gens[r.gen].issued && r.id == r.ordinal % ID_SPACE
  }

  predicate Ordered(a: Request, b: Request) {
    && a.gen <= b.gen && a.call <= b.call
    && (a.gen == b.gen ==> a.ordinal < b.ordinal)
    && (a.call == b.call ==> a.purpose.Initialize? && b.purpose.Invoke?)
  }

  ghost predicate ReadersOk(w: World) {
    && (forall k | k in w.readers :: k < |w.requests| && k !in w.delivered)
    && (forall k | k in w.readers && w.client.cmd == Some(w.requests[k].gen) :: w.pc == Waiting(k))
    && (forall i, j | i in w.readers && j in w.readers && w.requests[i].gen == w.requests[j].gen :: i == j)
  }

  ghost predicate DeliveriesOk(w: World) {
    && (forall k | k in w.delivered :: k < |w.requests| && (w.delivered[k].Got? ==> DeliveryOk(w, k, w.delivered[k])))
    && (forall i, j | i in w.delivered && j in w.delivered && i != j && w.delivered[i].Got? && w.delivered[j].Got? ::
          w.delivered[i].gen != w.delivered[j].gen || w.delivered[i].pos != w.delivered[j].pos)
  }

  predicate DeliveryOk(w: World, k: nat, d: Delivery)
    requires d.Got? && k < |w.requests|
  {
    && d.gen == w.requests[k].gen && d.gen < |w.gens|
    && d.pos < w.gens[d.gen].read <= |w.gens[d.gen].inbox| && w.gens[d.gen].inbox[d.pos] == d.msg
    && Matches(d.msg, w.requests[k])
  }

  predicate ProcessKept(o: Outcome) {
    o.Answer? || o.RpcError?
  }

  /** An outcome that stopped the process: that process is never used again. */
  ghost predicate OutcomesOk(w: World) {
    && |w.outcomes| <= |w.requests|
    && (forall k | 0 <= k < |w.outcomes| && ProcessKept(w.outcomes[k]) ::
          && k in w.delivered && w.delivered[k] == Got(w.outcomes[k].msg, w.outcomes[k].gen, w.outcomes[k].pos)
          && (w.outcomes[k].Answer? <==> !w.outcomes[k].msg.isError))
    && (forall k | 0 <= k < |w.outcomes| && !ProcessKept(w.outcomes[k]) :: Abandoned(w, k))
  }

  /** The request's process is not the current one, nor that of any later request. */
  ghost predicate Abandoned(w: World, k: nat)
    requires k < |w.requests|
  {
    && w.client.cmd != Some(w.requests[k].gen)
    && forall j | k < j < |w.requests| :: w.requests[j].gen != w.requests[k].gen
  }

  predicate GensOk(w: World) {
    forall g | 0 <= g < |w.gens| :: w.gens[g].read <= |w.gens[g].inbox|
  }

  ghost predicate Inv(w: World) {
    ClientOk(w) && PcOk(w) && RequestsOk(w) && ReadersOk(w) && DeliveriesOk(w) && OutcomesOk(w) && GensOk(w)
  }

  /** What no step undoes. */
  ghost predicate Grows(w: World, w': World) {
    && w.requests <= w'.requests && w.wanted <= w'.wanted && |w.gens| <= |w'.gens|
    && forall g | 0 <= g < |w.gens| :: GenGrows(w.gens[g], w'.gens[g])
  }

  predicate GenGrows(a: Generation, b: Generation) {
    a.sig == b.sig && a.read <= b.read && a.inbox <= b.inbox && a.issued <= b.issued
  }

  lemma StepGrows(w: World, s: Step)
    requires Inv(w) && Enabled(w, s)
    ensures Grows(w, Apply(w, s)) && GensOk(Apply(w, s))
  {
    match s
    case Begin(sig, started) => BeginGrows(w, sig, started);
    case Write(ok) => OneGenGrows(w, Apply(w, s), w.client.stdin.value);
    case ReadOne(k) => OneGenGrows(w, Apply(w, s), w.requests[k].gen);
    case Emit(g, _) => OneGenGrows(w, Apply(w, s), g);
    case _ =>
  }

  lemma BeginGrows(w: World, sig: string, started: bool)
    requires Inv(w) && Enabled(w, Begin(sig, started))
    ensures Grows(w, Apply(w, Begin(sig, started))) && GensOk(Apply(w, Begin(sig, started)))
  {
  }

  lemma OneGenGrows(w: World, w': World, g: nat)
    requires GensOk(w) && g < |w.gens| == |w'.gens| && GenGrows(w.gens[g], w'.gens[g])
    requires w'.gens == w.gens[g := w'.gens[g]] && w'.gens[g].read <= |w'.gens[g].inbox|
    requires w.requests <= w'.requests && w.wanted == w'.wanted
    ensures Grows(w, w') && GensOk(w')
  {
  }

  lemma InvStep(w: World, s: Step)
    requires Inv(w) && Enabled(w, s)
    ensures Inv(Apply(w, s))
  {
    StepGrows(w, s);
    InvClient(w, s);
    InvPc(w, s);
    InvRequests(w, s);
    InvReaders(w, s);
    InvDeliveries(w, s);
    InvOutcomes(w, s);
  }

  lemma InvClient(w: World, s: Step)
    requires Inv(w) && Enabled(w, s)
    ensures ClientOk(Apply(w, s))
  {
  }

  lemma InvPc(w: World, s: Step)
    requires Inv(w) && Enabled(w, s)
    ensures PcOk(Apply(w, s))
  {
    match s
    case Begin(sig, started) => BeginPc(w, sig, started);
    case Receive => ReceivePc(w);
    case _ =>
  }

  lemma BeginPc(w: World, sig: string, started: bool)
    requires Inv(w) && Enabled(w, Begin(sig, started))
    ensures PcOk(Apply(w, Begin(sig, started)))
  {
    assert forall r | r in w.requests :: RequestOk(w, r) by {
      forall r | r in w.requests ensures RequestOk(w, r) {
        var k :| 0 <= k < |w.requests| && w.requests[k] == r;
      }
    }
  }

  lemma ReceivePc(w: World)
    requires Inv(w) && Enabled(w, Receive)
    ensures PcOk(Apply(w, Receive))
  {
    var k := w.pc.request;
    forall r | r in w.requests && r.call == w.requests[k].call
      ensures r.purpose.Initialize? || w.requests[k].purpose.Invoke?
    {
      var j :| 0 <= j < |w.requests| && w.requests[j] == r;
      if j < k { assert Ordered(w.requests[j], w.requests[k]); }
    }
  }

  lemma InvRequests(w: World, s: Step)
    requires Inv(w) && Enabled(w, s)
    ensures RequestsOk(Apply(w, s))
  {
    var w' := Apply(w, s);
    StepGrows(w, s);
    forall k | 0 <= k < |w.requests| ensures RequestOk(w', w.requests[k]) {
      assert RequestOk(w, w.requests[k]);
      assert GenGrows(w.gens[w.requests[k].gen], w'.gens[w.requests[k].gen]);
    }
    if s.Write? {
      WriteOrdered(w, s.ok);
    } else {
      assert w'.requests == w.requests;
    }
  }

  lemma WriteOrdered(w: World, ok: bool)
    requires Inv(w) && Enabled(w, Write(ok))
    ensures var w' := Apply(w, Write(ok));
            var r := w'.requests[|w.requests|];
            w'.requests == w.requests + [r] && RequestOk(w', r) && forall i | 0 <= i < |w.requests| :: Ordered(w.requests[i], r)
  {
    var w' := Apply(w, Write(ok));
    var r := w'.requests[|w.requests|];
    forall i | 0 <= i < |w.requests| ensures Ordered(w.requests[i], r) {
      assert RequestOk(w, w.requests[i]) && w.requests[i] in w.requests;
    }
  }

  lemma InvReaders(w: World, s: Step)
    requires Inv(w) && Enabled(w, s)
    ensures ReadersOk(Apply(w, s))
  {
    match s
    case Write(ok) => WriteReaders(w, ok);
    case Begin(_, _) => assert forall k | k in w.readers :: RequestOk(w, w.requests[k]);
    case ReadOne(k) => FewerReaders(w, Apply(w, s));
    case ReadFails(k) => FewerReaders(w, Apply(w, s));
    case _ =>
  }

  lemma FewerReaders(w: World, w': World)
    requires ReadersOk(w) && w'.readers <= w.readers && w'.requests == w.requests
    requires w'.client == w.client && w'.pc == w.pc
    requires forall k | k in w'.readers :: k !in w'.delivered
    ensures ReadersOk(w')
  {
  }

  /** While a call is about to write, no reader is on its process. */
  lemma WriteReaders(w: World, ok: bool)
    requires Inv(w) && Enabled(w, Write(ok))
    ensures ReadersOk(Apply(w, Write(ok)))
  {
    var w' := Apply(w, Write(ok));
    assert forall k | k in w.readers :: w'.requests[k] == w.requests[k] && w.requests[k].gen != w.client.cmd.value;
  }

  lemma DeliveryKept(w: World, w': World, k: nat)
    requires DeliveriesOk(w) && k in w.delivered && w.delivered[k].Got? && Grows(w, w') && GensOk(w')
    ensures k < |w'.requests| && DeliveryOk(w', k, w.delivered[k])
  {
    var d := w.delivered[k];
    assert DeliveryOk(w, k, d);
    assert GenGrows(w.gens[d.gen], w'.gens[d.gen]);
  }

  lemma DeliveriesKept(w: World, w': World)
    requires DeliveriesOk(w) && Grows(w, w') && GensOk(w') && w'.delivered == w.delivered
    ensures DeliveriesOk(w')
  {
    forall k | k in w.delivered && w.delivered[k].Got? ensures DeliveryOk(w', k, w.delivered[k]) {
      DeliveryKept(w, w', k);
    }
  }

  lemma DeliveryAdded(w: World, w': World, k: nat, d: Delivery)
    requires DeliveriesOk(w) && Grows(w, w') && GensOk(w')
    requires k < |w.requests| && k !in w.delivered && w'.delivered == w.delivered[k := d]
    requires d.Got? ==> DeliveryOk(w', k, d) && forall j | j in w.delivered && w.delivered[j].Got? ::
               w.delivered[j].gen != d.gen || w.delivered[j].pos != d.pos
    ensures DeliveriesOk(w')
  {
    forall j | j in w.delivered && w.delivered[j].Got? ensures DeliveryOk(w', j, w.delivered[j]) {
      DeliveryKept(w, w', j);
    }
  }

  lemma InvDeliveries(w: World, s: Step)
    requires Inv(w) && Enabled(w, s)
    ensures DeliveriesOk(Apply(w, s))
  {
    if s.ReadOne? {
      ReadDelivers(w, s.request);
    } else if s.ReadFails? {
      FailureDelivers(w, s.request);
    } else {
      QuietDelivers(w, s);
    }
  }

  lemma QuietDelivers(w: World, s: Step)
    requires Inv(w) && Enabled(w, s) && !s.ReadOne? && !s.ReadFails?
    ensures DeliveriesOk(Apply(w, s))
  {
    var w' := Apply(w, s);
    QuietDelivered(w, s);
    StepGrows(w, s);
    DeliveriesKept(w, w');
  }

  lemma QuietDelivered(w: World, s: Step)
    requires Enabled(w, s) && !s.ReadOne? && !s.ReadFails?
    ensures Apply(w, s).delivered == w.delivered
  {
  }

  lemma FailureDelivers(w: World, k: nat)
    requires Inv(w) && Enabled(w, ReadFails(k))
    ensures DeliveriesOk(Apply(w, ReadFails(k)))
  {
    StepGrows(w, ReadFails(k));
    DeliveryAdded(w, Apply(w, ReadFails(k)), k, Failed);
  }

  /** A match is at a position no earlier delivery came from. */
  lemma ReadDelivers(w: World, k: nat)
    requires Inv(w) && Enabled(w, ReadOne(k))
    ensures DeliveriesOk(Apply(w, ReadOne(k)))
  {
    var w' := Apply(w, ReadOne(k));
    StepGrows(w, ReadOne(k));
    var r := w.requests[k];
    var pos := w.gens[r.gen].read;
    var m := w.gens[r.gen].inbox[pos];
    if Matches(m, r) {
      var d := Got(m, r.gen, pos);
      assert DeliveryOk(w', k, d);
      forall j | j in w.delivered && w.delivered[j].Got?
        ensures w.delivered[j].gen != d.gen || w.delivered[j].pos != d.pos
      {
        assert DeliveryOk(w, j, w.delivered[j]);
      }
      DeliveryAdded(w, w', k, d);
    } else {
      DeliveriesKept(w, w');
    }
  }

  /** An abandoned request stays so: its process is gone from the client, and
      the next process is a new one. */
  lemma AbandonedKept(w: World, s: Step, k: nat)
    requires Inv(w) && Enabled(w, s) && k < |w.requests| && Abandoned(w, k)
    ensures k < |Apply(w, s).requests| && Abandoned(Apply(w, s), k)
  {
    assert RequestOk(w, w.requests[k]);
  }

  lemma AllAbandonedKept(w: World, s: Step)
    requires Inv(w) && Enabled(w, s)
    ensures forall k | 0 <= k < |w.outcomes| && !ProcessKept(w.outcomes[k]) ::
              k < |Apply(w, s).requests| && Abandoned(Apply(w, s), k)
  {
    forall k | 0 <= k < |w.outcomes| && !ProcessKept(w.outcomes[k])
      ensures k < |Apply(w, s).requests| && Abandoned(Apply(w, s), k)
    {
      AbandonedKept(w, s, k);
    }
  }

  lemma OutcomesKept(w: World, w': World)
    requires OutcomesOk(w) && w'.outcomes == w.outcomes && w.requests <= w'.requests
    requires forall k | k in w.delivered :: k in w'.delivered && w'.delivered[k] == w.delivered[k]
    requires forall k | 0 <= k < |w.outcomes| && !ProcessKept(w.outcomes[k]) :: Abandoned(w', k)
    ensures OutcomesOk(w')
  {
  }

  lemma OutcomeAdded(w: World, w': World, o: Outcome)
    requires OutcomesOk(w) && w'.outcomes == w.outcomes + [o] && |w'.outcomes| == |w'.requests|
    requires w.requests <= w'.requests && w'.delivered == w.delivered
    requires forall k | 0 <= k < |w.outcomes| && !ProcessKept(w.outcomes[k]) :: Abandoned(w', k)
    requires ProcessKept(o) ==>
               && |w.outcomes| in w.delivered && w.delivered[|w.outcomes|] == Got(o.msg, o.gen, o.pos)
               && (o.Answer? <==> !o.msg.isError)
    requires !ProcessKept(o) ==> w'.client.cmd.None?
    ensures OutcomesOk(w')
  {
  }

  lemma InvOutcomes(w: World, s: Step)
    requires Inv(w) && Enabled(w, s)
    ensures OutcomesOk(Apply(w, s))
  {
    if s.Write? {
      WriteOutcome(w, s.ok);
    } else if s.Receive? {
      ReceiveOutcome(w);
    } else if s.Cancel? {
      CancelOutcome(w);
    } else {
      QuietOutcome(w, s);
    }
  }

  lemma WriteOutcome(w: World, ok: bool)
    requires Inv(w) && Enabled(w, Write(ok))
    ensures OutcomesOk(Apply(w, Write(ok)))
  {
    AllAbandonedKept(w, Write(ok));
    if ok { OutcomesKept(w, Apply(w, Write(ok))); } else { OutcomeAdded(w, Apply(w, Write(ok)), WriteFailed); }
  }

  lemma ReceiveOutcome(w: World)
    requires Inv(w) && Enabled(w, Receive)
    ensures OutcomesOk(Apply(w, Receive))
  {
    var w' := Apply(w, Receive);
    AllAbandonedKept(w, Receive);
    OutcomeAdded(w, w', w'.outcomes[|w.outcomes|]);
  }

  lemma CancelOutcome(w: World)
    requires Inv(w) && Enabled(w, Cancel)
    ensures OutcomesOk(Apply(w, Cancel))
  {
    AllAbandonedKept(w, Cancel);
    OutcomeAdded(w, Apply(w, Cancel), Cancelled);
  }

  lemma QuietOutcome(w: World, s: Step)
    requires Inv(w) && Enabled(w, s) && !s.Write? && !s.Receive? && !s.Cancel?
    ensures OutcomesOk(Apply(w, s))
  {
    AllAbandonedKept(w, s);
    OutcomesKept(w, Apply(w, s));
  }

  lemma {:induction false} InvAlongRun(w: World, steps: seq<Step>)
    requires Inv(w) && Run(w, steps).Some?
    ensures Inv(Run(w, steps).value)
    decreases |steps|
  {
    if steps != [] {
      InvStep(w, steps[0]);
      InvAlongRun(Apply(w, steps[0]), steps[1..]);
    }
  }

  lemma ReachableInv(w: World)
    requires Reachable(w)
    ensures Inv(w)
  {
    var steps :| Run(INIT, steps) == Some(w);
    InvAlongRun(INIT, steps);
  }

  // -------------------------------------------------------- main theorems

  /** An answer carries the id of the request that waited for it and was read
      from the output of the very process that request was written to, a
      process started under the signature the call asked for.  It counts as
      an answer exactly when it has no error member. */
  lemma AnswerMatchesRequest(w: World, k: nat)
    requires Reachable(w) && k < |w.outcomes| && (w.outcomes[k].Answer? || w.outcomes[k].RpcError?)
    ensures k < |w.requests| && w.outcomes[k].msg.id == Uint64(w.requests[k].id)
    ensures w.outcomes[k].Answer? <==> !w.outcomes[k].msg.isError
    ensures var g := w.requests[k].gen;
            && w.outcomes[k].gen == g < |w.gens| && w.outcomes[k].pos < |w.gens[g].inbox|
            && w.gens[g].inbox[w.outcomes[k].pos] == w.outcomes[k].msg
            && w.requests[k].call < |w.wanted| && w.gens[g].sig == w.wanted[w.requests[k].call]
  {
    ReachableInv(w);
    assert ProcessKept(w.outcomes[k]);
    assert DeliveryOk(w, k, w.delivered[k]) && RequestOk(w, w.requests[k]);
  }

  /** After a cancelled, broken or unwritten request nothing is ever asked of,
      or answered by, the process it was sent to: a late reply goes nowhere. */
  lemma LateReplyNeverUsed(w: World, j: nat, k: nat)
    requires Reachable(w) && j < |w.outcomes| && j < k < |w.requests|
    requires w.outcomes[j].WriteFailed? || w.outcomes[j].Cancelled? || w.outcomes[j].ReadFailed?
    ensures w.requests[k].gen != w.requests[j].gen
    ensures k < |w.outcomes| && (w.outcomes[k].Answer? || w.outcomes[k].RpcError?) ==>
              w.outcomes[k].gen != w.requests[j].gen
  {
    ReachableInv(w);
    assert Abandoned(w, j);
    if k < |w.outcomes| && ProcessKept(w.outcomes[k]) { AnswerMatchesRequest(w, k); }
  }

  /** No message is the reply to two requests. */
  lemma AnswersDistinct(w: World, j: nat, k: nat)
    requires Reachable(w) && j < k < |w.outcomes|
    requires w.outcomes[j].Answer? || w.outcomes[j].RpcError?
    requires w.outcomes[k].Answer? || w.outcomes[k].RpcError?
    ensures w.outcomes[j].gen != w.outcomes[k].gen || w.outcomes[j].pos != w.outcomes[k].pos
  {
    ReachableInv(w);
  }

  /** No decoder ever has two readers, and the current process's decoder has a
      reader only while the call that launched it waits. */
  lemma OneReader(w: World)
    requires Reachable(w)
    ensures forall i, j | i in w.readers && j in w.readers && i < |w.requests| && j < |w.requests| ::
              w.requests[i].gen == w.requests[j].gen ==> i == j
    ensures forall k | k in w.readers :: k < |w.requests| && (w.client.decoder == Some(w.requests[k].gen) ==> w.pc == Waiting(k))
  {
    ReachableInv(w);
  }

  /** No replay: a call writes its own request at most once, after at most one
      handshake, whatever is cancelled, broken or restarted in between. */
  lemma WrittenAtMostOnce(w: World, i: nat, j: nat)
    requires Reachable(w) && i < j < |w.requests| && w.requests[i].call == w.requests[j].call
    ensures w.requests[i].purpose.Initialize? && w.requests[j].purpose.Invoke?
  {
    ReachableInv(w);
    assert Ordered(w.requests[i], w.requests[j]);
  }

  /** cmd, stdin and decoder are all set or all nil, and when set belong to one
      process, started under the signature on record. */
  lemma FieldsTogether(w: World)
    requires Reachable(w)
    ensures w.client.cmd == w.client.stdin == w.client.decoder
    ensures w.client.cmd.Some? ==> w.client.cmd.value < |w.gens| && w.gens[w.client.cmd.value].sig == w.client.envSig
  {
    ReachableInv(w);
  }

  /** Ids repeat within a process only when uint64 has wrapped around. */
  lemma IdsRepeatOnlyOnWrap(w: World, i: nat, j: nat)
    requires Reachable(w) && i < j < |w.requests| && w.requests[i].gen == w.requests[j].gen
    requires w.requests[i].id == w.requests[j].id
    ensures w.requests[j].ordinal - w.requests[i].ordinal >= ID_SPACE
  {
    ReachableInv(w);
    assert Ordered(w.requests[i], w.requests[j]);
    assert RequestOk(w, w.requests[i]) && RequestOk(w, w.requests[j]);
    SameResidue(w.requests[i].ordinal, w.requests[j].ordinal);
  }

  lemma SameResidue(a: nat, b: nat)
    requires a < b && a % ID_SPACE == b % ID_SPACE
    ensures b - a >= ID_SPACE
  {
    assert b == a + (b / ID_SPACE - a / ID_SPACE) * ID_SPACE;
  }
}
