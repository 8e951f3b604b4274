/** What holds over every run of a handler: any sequence of calls from the initial
    state, in any order and with any arguments. */
module HandlerRuns {
  import opened Prelude
  import opened BusTypes
  import opened Packets
  import opened HandlerSpec

  datatype Op =
    | Rx(b: byte)
    | Tx
    | Send(request: BusRequest)
    | Receive
    | Accept
    | Complete(response: BusResponse)

  /** A handler state with the record of what has passed through it.
      `rx` are the bytes taken in, `accepted` and `sent` are the requests that
      `accept_request` returned and `send_request` took, `tx` are the bytes handed
      out, `packets` the packets begun, and `onWire` the positions in `sent` of those
      that were begun. `overdue` tells whether the final byte of a request with payload
      has ever arrived while the request slot was taken. */
  datatype History = History(
    view: HandlerView,
    rx: seq<byte>,
    overdue: bool,
    accepted: seq<BusRequest>,
    sent: seq<BusRequest>,
    tx: seq<byte>,
    packets: seq<Packet>,
    onWire: seq<nat>)

  const START := History(INITIAL, [], false, [], [], [], [], [])

  predicate IsRequestKind(kind: nat) {
    kind == 0 || kind == 2
  }

  /** The packet under way is a request with payload. */
  predicate CarriesRequest(frame: seq<byte>) {
    LacksOne(frame) && |frame| > 7 && IsRequestKind(KindOf(frame[0]))
  }

  /** This byte completes a request with payload although the request slot is taken. */
  predicate Overdue(v: HandlerView, op: Op) {
    op.Rx? && CarriesRequest(v.frame) && v.request.Some?
  }

  function Next(h: History, op: Op): History
    requires Sound(h.view)
  {
    match op
    case Rx(b) =>
      var (v, r) := RxByte(h.view, b);
      h.(view := v, rx := if r.Ok? then h.rx + [b] else h.rx, overdue := h.overdue || Overdue(h.view, op))
    case Tx =>
      var (v, out) := TxByte(h.view);
      var begun := h.view.txRest == [] && NextPacket(h.view).Some?;
      var h' := h.(view := v, tx := if out.Some? then h.tx + [out.value] else h.tx);
      if !begun then h'
      else
        var p := NextPacket(h.view).value.1;
        h'.(packets := h.packets + [p],
            onWire := if p.kind == 2 && |h.sent| > 0 then h.onWire + [|h.sent| - 1] else h.onWire)
    case Send(request) =>
      var (v, r) := SendRequest(h.view, request);
      h.(view := v, sent := if r.Ok? then h.sent + [request] else h.sent)
    case Receive => h.(view := ReceiveResponse(h.view).0)
    case Accept =>
      var (v, r) := AcceptRequest(h.view);
      h.(view := v, accepted := if r.Ok? then h.accepted + [r.value] else h.accepted)
    case Complete(response) => h.(view := CompleteRequest(h.view, response).0)
  }

  lemma NextSound(h: History, op: Op)
    requires Sound(h.view)
    ensures Sound(Next(h, op).view)
  {
    hide Partial, LacksOne, SendError, Encode, Assemble, Deliver;
    match op
    case Rx(b) =>
      hide SoundRx, SoundSlots;
      RxByteSound(h.view, b);
    case _ =>
  }

  function Run(ops: seq<Op>): (h: History)
    ensures Sound(h.view)
  {
    if |ops| == 0 then START
    else
      var h := Run(ops[..|ops| - 1]);
      NextSound(h, ops[|ops| - 1]);
      Next(h, ops[|ops| - 1])
  }

  // ---- Receiving: the handler is an online form of the whole-stream parser ----

  /** The requests among the items of a stream. */
  function Requests(items: seq<Item>): seq<BusRequest> {
    if |items| == 0 then []
    else
      var last := items[|items| - 1];
      var init := Requests(items[..|items| - 1]);
      if last.Framed? && IsRequestKind(last.packet.kind)
      then init + [RequestOf(last.packet)] else init
  }

  function Slot<T>(o: Option<T>): seq<T> {
    if o.Some? then [o.value] else []
  }

  /** The requests handed to the user, with the one still buffered. */
  function Delivered(h: History): seq<BusRequest> {
    h.accepted + Slot(h.view.request)
  }

  /** A request with payload waits with its final byte absorbed but refused. */
  predicate HoldsRefused(v: HandlerView) {
    v.refused != [] && CarriesRequest(v.frame)
  }

  /** The handler keeps the bytes that the parser could not finish, and has delivered one
      request for each that the parser found. They are the right ones exactly as long as
      no request with payload has been overdue. */
  ghost predicate RxFaithful(h: History) {
    && h.view.frame == Parse(h.rx).rest
    && (forall b <- h.view.refused :: b == h.view.refused[0])
    && |Delivered(h)| == |Requests(Parse(h.rx).items)|
    && (h.overdue <==> Delivered(h) != Requests(Parse(h.rx).items) || HoldsRefused(h.view))
  }

  /** A refused byte is offered again before any other. */
  predicate Reoffered(v: HandlerView, op: Op) {
    op.Rx? && v.refused != [] ==> op.b == v.refused[0]
  }

  lemma ParseGrows(s: seq<byte>, b: byte)
    ensures var part := Parse(s).rest;
            var t := part + [b];
            && Partial(part)
            && Parse(s + [b]) ==
               (if (|part| == 0 && !IsStart(b)) || (|part| == 1 && b > 1) then Parsed(Parse(s).items + [Junk(t)], [])
                else if LacksOne(part) then Parsed(Parse(s).items + [Framed(Decode(t))], [])
                else Parsed(Parse(s).items, t))
  {
    hide Parse, Decode, PayloadLen;
    var part := Parse(s).rest;
    PrintAfterParse(s);
    ParseContinues(s, [b]);
    ParseOneMore(part, b);
    LacksOneMeans(part, b);
    assert Parse(s).items + [] == Parse(s).items;
  }

  lemma LacksOneMeans(part: seq<byte>, b: byte)
    requires Partial(part)
    ensures LacksOne(part) <==> |part| >= 7 && |part + [b]| == PacketLen(part + [b])
    ensures LacksOne(part) ==> (|part + [b]| >= 8 && IsStart((part + [b])[0]))
  {
    if |part| >= 7 {
      assert PacketLen(part) == PacketLen(part + [b]);
    }
  }

  /** The request that a finished item adds. */
  function Asked(item: Item): seq<BusRequest> {
    if item.Framed? && IsRequestKind(item.packet.kind) then [RequestOf(item.packet)] else []
  }

  lemma RequestsGrow(items: seq<Item>, item: Item)
    ensures Requests(items + [item]) == Requests(items) + Asked(item)
  {
    assert (items + [item])[..|items|] == items;
    assert Requests(items) + [] == Requests(items);
  }

  lemma DeliverFills(v: HandlerView, p: Packet)
    requires Deliver(v, p).Some?
    ensures Slot(Deliver(v, p).value.request) == Slot(v.request) + Asked(Framed(p))
  {
  }

  lemma DeliverRefuses(v: HandlerView, p: Packet)
    ensures IsRequestKind(p.kind) ==> (Deliver(v, p).None? <==> v.request.Some?)
    ensures !IsRequestKind(p.kind) ==> (Deliver(v, p).None? <==> v.response.Some?)
  {
  }

  function Copies(n: nat, b: byte): (bs: seq<byte>)
    ensures |bs| == n
  {
    seq(n, _ => b)
  }

  /** A final byte absorbed `n` times before it is taken: the packet is the intended one
      if and only if it was not refused at all or has no payload. */
  lemma RefusedCopies(frame: seq<byte>, n: nat, b: byte)
    requires LacksOne(frame)
    ensures var p := Assemble(frame, Copies(n, b) + [b]);
            var q := Decode(frame + [b]);
            && p.kind == q.kind == KindOf(frame[0])
            && (p == q <==> n == 0 || |frame| == 7)
            && (RequestOf(p) == RequestOf(q) <==> n == 0 || |frame| == 7)
  {
    hide Partial, PayloadLen, OrAll, OrByte;
    var final := Copies(n, b) + [b];
    if |frame| == 7 {
      OrCopies(n, b);
    } else {
      assert (frame + final)[8..] == frame[8..] + final;
      assert (frame + [b])[8..] == frame[8..] + [b];
      if n == 0 {
        assert final == [b];
      }
    }
  }

  lemma {:induction false} OrCopies(n: nat, b: byte)
    ensures OrAll(Copies(n, b) + [b]) == b
  {
    hide OrByte;
    var final := Copies(n, b) + [b];
    assert final[..n] == Copies(n, b);
    OrByteLaws(b);
    if n == 0 {
      assert OrAll(final) == OrByte(OrAll([]), b);
    } else {
      OrCopies(n - 1, b);
      assert Copies(n, b) == Copies(n - 1, b) + [b];
      assert OrAll(final) == OrByte(OrAll(Copies(n, b)), b);
    }
  }

  lemma SameLengthAppend(a: seq<BusRequest>, c: seq<BusRequest>, x: seq<BusRequest>, y: seq<BusRequest>)
    requires |a| == |c| && |x| == |y|
    ensures a + x == c + y <==> a == c && x == y
  {
    assert (a + x)[..|a|] == a && (c + y)[..|c|] == c;
    assert (a + x)[|a|..] == x && (c + y)[|c|..] == y;
  }

  lemma RxStepFaithful(h: History, b: byte)
    requires Sound(h.view) && RxFaithful(h) && Reoffered(h.view, Rx(b))
    ensures RxFaithful(Next(h, Rx(b)))
  {
    hide Parse, Partial, LacksOne, IsStart, Sound, Decode, Deliver, Assemble, Requests, Asked, Slot;
    ParseGrows(h.rx, b);
    var v := h.view;
    var items := Parse(h.rx).items;
    if LacksOne(v.frame) {
      LacksOneMeans(v.frame, b);
      AllCopies(v.refused, b);
      FinalByteFaithful(v, h.accepted, h.overdue, items, b);
      hide RxByte, HoldsRefused, Overdue;
    } else {
      var t := v.frame + [b];
      RequestsGrow(items, Junk(t));
      JunkAsksNothing(t);
      assert Requests(items) + [] == Requests(items);
      NotRefused(v);
    }
  }

  lemma NotRefused(v: HandlerView)
    requires Sound(v) && !LacksOne(v.frame)
    ensures v.refused == []
  {
  }

  lemma AllCopies(bs: seq<byte>, b: byte)
    requires forall c <- bs :: c == b
    ensures bs == Copies(|bs|, b)
  {
    forall i | 0 <= i < |bs| ensures bs[i] == b { assert bs[i] in bs; }
  }

  /** The final byte of a packet, for requests delivered and requests found so far. */
  lemma FinalByteFaithful(v: HandlerView, accepted: seq<BusRequest>, overdue: bool, items: seq<Item>, b: byte)
    requires Sound(v) && LacksOne(v.frame) && |v.frame| >= 7 && IsStart((v.frame + [b])[0])
    requires v.refused == Copies(|v.refused|, b)
    requires |accepted + Slot(v.request)| == |Requests(items)|
    requires overdue <==> accepted + Slot(v.request) != Requests(items) || HoldsRefused(v)
    ensures var (v', r) := RxByte(v, b);
            var overdue' := overdue || Overdue(v, Rx(b));
            var items' := if r.Ok? then items + [Framed(Decode(v.frame + [b]))] else items;
            && v'.frame == (if r.Ok? then [] else v.frame)
            && v'.refused == (if r.Ok? then [] else v.refused + [b])
            && |accepted + Slot(v'.request)| == |Requests(items')|
            && (overdue' <==> accepted + Slot(v'.request) != Requests(items') || HoldsRefused(v'))
  {
    hide Partial, LacksOne, IsStart, Sound, Decode, Deliver, Assemble, Requests, Asked, Slot, RequestOf;
    var n := |v.refused|;
    RefusedCopies(v.frame, n, b);
    var p, q := Assemble(v.frame, v.refused + [b]), Decode(v.frame + [b]);
    DeliverRefuses(v, p);
    if Deliver(v, p).Some? {
      RequestsGrow(items, Framed(q));
      AskedTogether(p, q);
      DeliverFills(v, p);
      assert accepted + (Slot(v.request) + Asked(Framed(p))) == (accepted + Slot(v.request)) + Asked(Framed(p));
      SameLengthAppend(accepted + Slot(v.request), Requests(items), Asked(Framed(p)), Asked(Framed(q)));
    }
  }

  lemma AskedTogether(p: Packet, q: Packet)
    requires p.kind == q.kind
    ensures |Asked(Framed(p))| == |Asked(Framed(q))|
    ensures Asked(Framed(p)) == Asked(Framed(q)) <==> (IsRequestKind(p.kind) ==> RequestOf(p) == RequestOf(q))
  {
    hide RequestOf;
    if IsRequestKind(p.kind) {
      assert Asked(Framed(p))[0] == RequestOf(p) && Asked(Framed(q))[0] == RequestOf(q);
    }
  }

  lemma JunkAsksNothing(bytes: seq<byte>)
    ensures Asked(Junk(bytes)) == []
  {
  }

  lemma UnspoiledPacket(frame: seq<byte>, b: byte)
    requires LacksOne(frame)
    ensures Assemble(frame, [b]) == Decode(frame + [b])
  {
    assert [b][..0] == [];
    assert OrAll([b]) == OrByte(OrAll([]), b);
    OrByteLaws(b);
  }

  lemma OtherStepFaithful(h: History, op: Op)
    requires Sound(h.view) && RxFaithful(h) && !op.Rx?
    ensures RxFaithful(Next(h, op))
  {
    OtherLeavesRx(h, op);
    hide Next, Parse, Requests, Delivered, CarriesRequest, Sound;
  }

  lemma OtherLeavesRx(h: History, op: Op)
    requires Sound(h.view) && !op.Rx?
    ensures var h' := Next(h, op);
            && h'.view.frame == h.view.frame && h'.view.refused == h.view.refused && h'.rx == h.rx
            && h'.overdue == h.overdue && Delivered(h') == Delivered(h)
  {
    hide Sound, SendError, Encode, Answers, FillIn;
  }

  /** Every refused byte of a run is offered again before any other. */
  ghost predicate Reoffers(ops: seq<Op>) {
    |ops| > 0 ==> Reoffers(ops[..|ops| - 1]) && Reoffered(Run(ops[..|ops| - 1]).view, ops[|ops| - 1])
  }

  /** Whenever the final byte of a request with payload arrives, the request slot is free. */
  ghost predicate Prompt(ops: seq<Op>) {
    |ops| > 0 ==> Prompt(ops[..|ops| - 1]) && !Overdue(Run(ops[..|ops| - 1]).view, ops[|ops| - 1])
  }

  lemma {:induction false} PromptIsNotOverdue(ops: seq<Op>)
    ensures Prompt(ops) <==> !Run(ops).overdue
  {
    hide Overdue, Next;
    if |ops| > 0 {
      PromptIsNotOverdue(ops[..|ops| - 1]);
      OverdueRecorded(Run(ops[..|ops| - 1]), ops[|ops| - 1]);
    }
  }

  lemma OverdueRecorded(h: History, op: Op)
    requires Sound(h.view)
    ensures Next(h, op).overdue == (h.overdue || Overdue(h.view, op))
  {
  }

  /** The handler understands its input as the whole-stream parser does, over every run
      in which refused bytes are offered again. */
  lemma {:induction false} HandlerParsesItsStream(ops: seq<Op>)
    requires Reoffers(ops)
    ensures RxFaithful(Run(ops))
  {
    hide RxFaithful, Next, Reoffered;
    if |ops| == 0 {
      StartFaithful();
    } else {
      var op := ops[|ops| - 1];
      HandlerParsesItsStream(ops[..|ops| - 1]);
      if op.Rx? {
        RxStepFaithful(Run(ops[..|ops| - 1]), op.b);
      } else {
        OtherStepFaithful(Run(ops[..|ops| - 1]), op);
      }
    }
  }

  lemma StartFaithful()
    ensures RxFaithful(START)
  {
    assert Parse([]) == Parsed([], []);
  }

  /** The bytes of well-formed items, one after the other. */
  ghost predicate IsStream(bytes: seq<byte>, items: seq<Item>) {
    (forall item <- items :: WellFormed(item)) && bytes == Print(items)
  }

  /** The request packets among the items of a stream. */
  function RequestPackets(items: seq<Item>): seq<Packet> {
    if |items| == 0 then []
    else
      var last := items[|items| - 1];
      RequestPackets(items[..|items| - 1])
      + if last.Framed? && last.packet.kind % 2 == 0 then [last.packet] else []
  }

  /** Each request of a stream has every field and payload byte of its packet. */
  lemma {:induction false} RequestsSpelledOut(items: seq<Item>)
    requires forall item <- items :: item.Framed? ==> item.packet.kind <= 3
    ensures |Requests(items)| == |RequestPackets(items)|
    ensures forall k :: 0 <= k < |Requests(items)| ==> SameRequest(Requests(items)[k], RequestPackets(items)[k])
  {
    hide SameRequest, RequestOf;
    if |items| > 0 {
      RequestsSpelledOut(items[..|items| - 1]);
      var last := items[|items| - 1];
      assert last in items;
      if last.Framed? {
        ScalarOfPayload(last.packet);
      }
    }
  }

  /** Streams survive the handler. When what arrived is any mix of printed legal packets
      and ignorable bytes, and refused bytes are offered again, the handler has delivered
      exactly the requests among them, in order and with every field and payload byte
      intact, if and only if the request slot was free at the final byte of each request
      with payload. */
  lemma StreamDelivered(ops: seq<Op>, items: seq<Item>)
    ensures IsStream(Run(ops).rx, items) && Reoffers(ops) ==>
              && (Delivered(Run(ops)) == Requests(items) <==> Prompt(ops))
              && |Delivered(Run(ops))| == |Requests(items)| && Run(ops).view.frame == []
              && (Prompt(ops) ==>
                    && |Delivered(Run(ops))| == |RequestPackets(items)|
                    && forall k :: 0 <= k < |Delivered(Run(ops))| ==>
                         SameRequest(Delivered(Run(ops))[k], RequestPackets(items)[k]))
  {
    hide Print, Requests, RequestPackets, Delivered, Reoffers, Prompt, SameRequest;
    if IsStream(Run(ops).rx, items) && Reoffers(ops) {
      RequestsSpelledOut(items);
      HandlerParsesItsStream(ops);
      PromptIsNotOverdue(ops);
      ParseAfterPrint(items);
    }
  }

  /** A request that was printed as a packet is delivered unchanged, apart from the
      scalar mirror `wdata`, which the receiver recomputes from the payload. */
  lemma RequestSurvivesPacket(r: BusRequest, kind: nat)
    requires kind == 0 || kind == 2
    requires LegalBurst(r.burstLen)
    requires |r.data| == if r.we then r.size.Span(r.burstLen) else 0
    ensures var p := RequestPacket(r).(kind := kind);
            var q := RequestOf(Decode(Encode(p)));
            p.Legal() && q == r.(wdata := q.wdata) && Mirrors(q.wdata, r.data)
  {
    hide Encode, Decode, Mirrors, FirstScalar;
    DecodeEncode(RequestPacket(r).(kind := kind));
    ScalarOfPayload(RequestPacket(r).(kind := kind));
  }

  // ---- A refused final byte ---------------------------------------------------

  /** Offering the same byte `n` times. */
  function Offered(v: HandlerView, b: byte, n: nat): (v': HandlerView)
    requires Sound(v)
    ensures Sound(v')
  {
    if n == 0 then v
    else
      var before := Offered(v, b, n - 1);
      RxByteSound(before, b);
      RxByte(before, b).0
  }

  lemma {:induction false} OffersRefused(v: HandlerView, b: byte, n: nat)
    requires Sound(v) && LacksOne(v.frame) && v.refused == [] && Deliver(v, Decode(v.frame + [b])).None?
    ensures Offered(v, b, n) == v.(refused := Copies(n, b))
  {
    hide LacksOne, Decode, Sound, Deliver, RxByte;
    if n > 0 {
      OffersRefused(v, b, n - 1);
      OneOffer(v, b, n - 1);
      assert Copies(n, b) == Copies(n - 1, b) + [b];
    }
  }

  lemma OneOffer(v: HandlerView, b: byte, n: nat)
    requires Sound(v) && LacksOne(v.frame) && v.refused == [] && Deliver(v, Decode(v.frame + [b])).None?
    ensures var w := v.(refused := Copies(n, b));
            Sound(w) && RxByte(w, b) == (w.(refused := Copies(n, b) + [b]), Err(BufferFull))
  {
    assert |v.frame| >= 7;
    hide LacksOne, Partial, Assemble, Decode, Deliver, SendError, Answers;
    RefusedCopies(v.frame, n, b);
    DeliverRefuses(v, Decode(v.frame + [b]));
    DeliverRefuses(v.(refused := Copies(n, b)), Assemble(v.frame, Copies(n, b) + [b]));
  }

  /** The final byte of a packet is absorbed every time it is refused. Once its slot is
      free, the next offer delivers the intended packet if and only if the byte was never
      refused or the packet has no payload; otherwise it is counted once per offer. */
  lemma OfferedAgain(v: HandlerView, b: byte, n: nat)
    requires Sound(v) && LacksOne(v.frame) && v.refused == []
    requires Deliver(v, Decode(v.frame + [b])).None?
    ensures RxByte(Offered(v, b, n), b).1 == Err(BufferFull)
    ensures var p := Assemble(v.frame, Copies(n, b) + [b]);
            var freed := Offered(v, b, n).(request := None, response := None);
            && Sound(freed)
            && RxByte(freed, b) == (Deliver(freed, p).value.(frame := [], refused := []), Ok(Unit))
            && (p == Decode(v.frame + [b]) <==> n == 0 || |v.frame| == 7)
  {
    assert |v.frame| >= 7;
    OffersRefused(v, b, n);
    OneOffer(v, b, n);
    RefusedCopies(v.frame, n, b);
    hide LacksOne, Partial, Assemble, Decode, Offered, SendError, Answers;
  }

  // ---- Feeding packets ----------------------------------------------------------

  function RxOps(bytes: seq<byte>): (ops: seq<Op>)
    ensures |ops| == |bytes|
  {
    seq(|bytes|, i requires 0 <= i < |bytes| => Rx(bytes[i]))
  }

  lemma RunOneMore(ops: seq<Op>, op: Op)
    ensures Run(ops + [op]) == Next(Run(ops), op)
  {
    assert (ops + [op])[..|ops|] == ops;
  }

  /** Between packets, with room for the next one. */
  predicate Ready(v: HandlerView) {
    v.frame == [] && v.refused == [] && (v.response.None? || v.request.None?)
  }

  lemma CutLacksMore(s: seq<byte>, k: nat)
    requires Whole(s) && k < |s|
    ensures LacksOne(s[..k]) <==> k + 1 == |s|
  {
    if k >= 4 {
      assert PacketLen(s[..k]) == PacketLen(s);
    }
  }

  /** All bytes of a packet but the last only fill the frame. */
  lemma {:induction false} FeedPart(ops: seq<Op>, s: seq<byte>, k: nat)
    requires Whole(s) && k < |s| && Ready(Run(ops).view)
    ensures var h := Run(ops);
            Run(ops + RxOps(s[..k])) == h.(view := h.view.(frame := s[..k]), rx := h.rx + s[..k])
  {
    hide Run, Next, Sound, Whole;
    var h := Run(ops);
    if k == 0 {
      assert s[..0] == [] && ops + RxOps([]) == ops && h.rx + [] == h.rx;
    } else {
      FeedPart(ops, s, k - 1);
      var before := ops + RxOps(s[..k - 1]);
      var b := s[k - 1];
      assert s[..k] == s[..k - 1] + [b];
      assert ops + RxOps(s[..k]) == before + [Rx(b)];
      RunOneMore(before, Rx(b));
      assert h.rx + s[..k] == (h.rx + s[..k - 1]) + [b];
      FeedByte(Run(before), s, k - 1);
    }
  }

  lemma FeedByte(h: History, s: seq<byte>, k: nat)
    requires Sound(h.view) && Whole(s) && k + 1 < |s| && h.view.refused == []
    requires h.view.frame == s[..k] && (k == 0 ==> h.view.response.None? || h.view.request.None?)
    ensures Next(h, Rx(s[k])) == h.(view := h.view.(frame := s[..k] + [s[k]]), rx := h.rx + [s[k]])
  {
    CutLacksMore(s, k);
    hide LacksOne, Deliver, Assemble;
  }

  lemma RxOpsSnoc(ops: seq<Op>, s: seq<byte>)
    requires |s| > 0
    ensures var n := |s| - 1;
            ops + RxOps(s) == (ops + RxOps(s[..n])) + [Rx(s[n])]
  {
    var n := |s| - 1;
    assert s == s[..n] + [s[n]];
    assert RxOps(s) == RxOps(s[..n]) + [Rx(s[n])];
  }

  lemma FeedWhole(ops: seq<Op>, s: seq<byte>)
    requires Whole(s) && Ready(Run(ops).view)
    ensures Run(ops + RxOps(s)).view == Fed(Run(ops).view, s)
  {
    var n := |s| - 1;
    assert n >= 0;
    hide Run, Next, Sound, Whole, Fed, RxByte, Ready;
    FeedPart(ops, s, n);
    RxOpsSnoc(ops, s);
    RunOneMore(ops + RxOps(s[..n]), Rx(s[n]));
    RxNext(Run(ops + RxOps(s[..n])), s[n]);
    FeedLast(Run(ops).view, s, n);
  }

  /** Where the bytes of a whole packet take a handler that is ready: the packet is
      delivered or, with its slot taken, left with its final byte refused. */
  function Fed(v: HandlerView, s: seq<byte>): HandlerView
    requires Whole(s)
  {
    match Deliver(v, Decode(s))
    case Some(v') => v'
    case None => v.(frame := s[..|s| - 1], refused := [s[|s| - 1]])
  }

  lemma FeedLast(v: HandlerView, s: seq<byte>, n: nat)
    requires Ready(v) && Whole(s) && n == |s| - 1 && Sound(v.(frame := s[..n]))
    ensures RxByte(v.(frame := s[..n]), s[n]).0 == Fed(v, s)
  {
    CutLacksMore(s, n);
    assert s == s[..n] + [s[n]];
    assert [] + [s[n]] == [s[n]];
    hide LacksOne, Sound, Partial, Assemble, Decode, IsStart;
    UnspoiledPacket(s[..n], s[n]);
    DeliverFrame(v, Decode(s), s[..n]);
  }

  lemma DeliverFrame(v: HandlerView, p: Packet, frame: seq<byte>)
    ensures Deliver(v.(frame := frame), p) ==
            match Deliver(v, p) case Some(v') => Some(v'.(frame := frame)) case None => None
    ensures Deliver(v, p).Some? ==> Deliver(v, p).value.frame == v.frame && Deliver(v, p).value.refused == v.refused
  {
  }

  /** A run that corrupts a payload: a request arrives before the one in front of it has
      been accepted, so its final byte is refused, and offered again afterwards. The
      request delivered ends in that byte twice. */
  lemma CorruptedPayload(first: Packet, second: Packet)
    requires first.Legal() && IsRequestKind(first.kind)
    requires second.Legal() && IsRequestKind(second.kind) && second.payload != []
    ensures var s := Encode(second);
            var last := second.payload[|second.payload| - 1];
            var h := Run(RxOps(Encode(first)) + RxOps(s) + [Accept, Rx(last)]);
            h.view.request == Some(RequestOf(second.(payload := second.payload + [last])))
  {
    hide Run, Encode, Decode, Deliver, Packet.Legal, LacksOne, Whole, RequestOf;
    LastPayloadByte(second);
    FeedFirst(first);
    AcceptAndRepeat(RxOps(Encode(first)), first, Encode(second), second);
  }

  lemma LastPayloadByte(p: Packet)
    requires p.Legal() && p.payload != []
    ensures var s := Encode(p);
            && Whole(s) && Decode(s) == p && |s| > 8 && LacksOne(s[..|s| - 1])
            && s[|s| - 1] == p.payload[|p.payload| - 1]
  {
    var s := Encode(p);
    DecodeEncode(p);
    assert |s| == 8 + |p.payload| && s[|s| - 1] == p.payload[|p.payload| - 1];
    hide Encode, Packet.Legal;
    CutLacksMore(s, |s| - 1);
  }

  lemma AcceptAndRepeat(ops: seq<Op>, first: Packet, s: seq<byte>, second: Packet)
    requires IsRequestKind(first.kind) && Run(ops).view == Deliver(INITIAL, first).value
    requires Whole(s) && |s| > 8 && LacksOne(s[..|s| - 1]) && Decode(s) == second && IsRequestKind(second.kind)
    ensures var last := s[|s| - 1];
            Run(ops + RxOps(s) + [Accept, Rx(last)]).view.request ==
            Some(RequestOf(second.(payload := second.payload + [last])))
  {
    hide Run, Decode, LacksOne, Next, RequestOf, Whole;
    var last := s[|s| - 1];
    var fed := ops + RxOps(s);
    FeedWhole(ops, s);
    RunOneMore(fed, Accept);
    RunOneMore(fed + [Accept], Rx(last));
    assert fed + [Accept, Rx(last)] == (fed + [Accept]) + [Rx(last)];
    AcceptNext(Run(fed));
    RxNext(Run(fed + [Accept]), last);
    assert s == s[..|s| - 1] + [last];
    AcceptThenLast(Run(fed).view, second, s[..|s| - 1], last);
  }

  /** The first packet of a run enters its slot. */
  lemma FeedFirst(p: Packet)
    requires p.Legal()
    ensures Run(RxOps(Encode(p))).view == Deliver(INITIAL, p).value
  {
    DecodeEncode(p);
    assert [] + RxOps(Encode(p)) == RxOps(Encode(p));
    FeedWhole([], Encode(p));
  }

  lemma AcceptNext(h: History)
    requires Sound(h.view)
    ensures Next(h, Accept).view == AcceptRequest(h.view).0
  {
  }

  lemma AcceptThenLast(v: HandlerView, p: Packet, frame: seq<byte>, last: byte)
    requires Sound(v) && v.frame == frame && v.refused == [last] && LacksOne(frame) && |frame| > 7
    requires v.request.Some? && v.accepted.None?
    requires Decode(frame + [last]) == p && IsRequestKind(p.kind)
    ensures var freed := AcceptRequest(v).0;
            && Sound(freed)
            && RxByte(freed, last).0.request == Some(RequestOf(p.(payload := p.payload + [last])))
  {
    hide Partial, PayloadLen, SendError, Answers;
    assert [last] + [last] == [last, last];
    assert (frame + [last, last])[8..] == (frame + [last])[8..] + [last];
    assert (frame + [last, last])[4..8] == (frame + [last])[4..8];
  }

  // ---- Transmitting -----------------------------------------------------------

  /** The packets of one kind, in order. */
  function OfKind(packets: seq<Packet>, kind: nat): seq<Packet> {
    if |packets| == 0 then []
    else
      var last := packets[|packets| - 1];
      var init := OfKind(packets[..|packets| - 1], kind);
      if last.kind == kind then init + [last] else init
  }

  lemma OfKindGrows(packets: seq<Packet>, p: Packet, kind: nat)
    ensures OfKind(packets + [p], kind) == OfKind(packets, kind) + if p.kind == kind then [p] else []
  {
    assert (packets + [p])[..|packets|] == packets;
  }

  /** Bytes handed out and bytes still to come are whole packets in sequence; only the
      last of them can be unfinished. */
  ghost predicate TxFramed(h: History) {
    && h.tx + h.view.txRest == EncodeAll(h.packets)
    && (h.view.txRest != [] ==> |h.packets| > 0 && |h.view.txRest| < |Encode(h.packets[|h.packets| - 1])|)
    && (forall p <- h.packets :: p.Legal() && (p.kind == 1 || p.kind == 2))
  }

  /** A response packet that echoes the request and carries exactly its data. */
  predicate Echoes(p: Packet, request: BusRequest) {
    && p.kind == 1 && MetadataMatches(request, p)
    && |p.payload| == if request.we then 0 else request.size.Span(request.burstLen)
  }

  lemma AnswerEchoes(response: BusResponse, request: BusRequest)
    requires Answers(response, request)
    ensures Echoes(ResponsePacket(response), request)
  {
  }

  /** Responses on the wire answer the accepted requests one by one, in order. */
  ghost predicate TxAnswers(h: History) {
    var replies := OfKind(h.packets, 1);
    && |h.accepted| == |replies| + |Slot(h.view.accepted)|
    && (forall i :: 0 <= i < |replies| ==> Echoes(replies[i], h.accepted[i]))
    && (h.view.accepted.Some? ==> h.view.accepted.value == h.accepted[|h.accepted| - 1])
  }

  /** Requests on the wire are sent requests in order, each at most once. */
  ghost predicate TxRequests(h: History) {
    var asked := OfKind(h.packets, 2);
    && |asked| == |h.onWire|
    && (forall i :: 0 <= i < |asked| ==> h.onWire[i] < |h.sent| && asked[i] == RequestPacket(h.sent[h.onWire[i]]))
    && (forall i, j :: 0 <= i < j < |h.onWire| ==> h.onWire[i] < h.onWire[j])
    && (h.view.outgoing.Some? ==> |h.sent| > 0 && h.view.outgoing.value == h.sent[|h.sent| - 1])
    && (h.view.outgoing.Some? && !h.view.started ==>
          forall i :: 0 <= i < |h.onWire| ==> h.onWire[i] < |h.sent| - 1)
  }

  lemma TxStepFramed(h: History)
    requires Sound(h.view) && TxFramed(h)
    ensures TxFramed(Next(h, Tx))
  {
    hide Encode, PayloadLen, SoundRx, SendError, Answers;
    var h' := Next(h, Tx);
    if h.view.txRest != [] {
      assert h'.tx + h'.view.txRest == h.tx + h.view.txRest;
    } else if NextPacket(h.view).Some? {
      var p := NextPacket(h.view).value.1;
      NextPacketLegal(h.view);
      EncodeAllAppend(h.packets, p);
      assert |Encode(p)| >= 8 by { EncodedLength(p); }
      assert h'.tx + h'.view.txRest == h.tx + ([Encode(p)[0]] + Encode(p)[1..]);
    }
  }

  lemma EncodedLength(p: Packet)
    ensures |Encode(p)| == 8 + |p.payload|
  {
  }

  lemma TxStepAnswers(h: History)
    requires Sound(h.view) && TxAnswers(h)
    ensures TxAnswers(Next(h, Tx))
  {
    hide Encode, SoundRx, SendError, Answers, OfKind, Echoes;
    if h.view.txRest == [] && NextPacket(h.view).Some? {
      OfKindGrows(h.packets, NextPacket(h.view).value.1, 1);
      if h.view.pending.Some? {
        AnswerEchoes(h.view.pending.value, h.view.accepted.value);
      }
    }
  }

  lemma TxStepRequests(h: History)
    requires Sound(h.view) && TxRequests(h)
    ensures TxRequests(Next(h, Tx))
  {
    hide Encode, SoundRx, SendError, Answers, OfKind;
    if h.view.txRest == [] && NextPacket(h.view).Some? {
      OfKindGrows(h.packets, NextPacket(h.view).value.1, 2);
    }
  }

  /** Receiving a byte leaves the transmit side alone. */
  lemma RxLeavesTx(v: HandlerView, b: byte)
    requires Sound(v)
    ensures var v' := RxByte(v, b).0;
            && v'.txRest == v.txRest && v'.accepted == v.accepted && v'.pending == v.pending
            && v'.outgoing == v.outgoing && v'.started == v.started
  {
    hide Partial, LacksOne, IsStart, Assemble, SoundSlots;
  }

  lemma RxStepTx(h: History, b: byte)
    requires Sound(h.view) && TxFramed(h) && TxAnswers(h) && TxRequests(h)
    ensures TxFramed(Next(h, Rx(b))) && TxAnswers(Next(h, Rx(b))) && TxRequests(Next(h, Rx(b)))
  {
    hide Encode, EncodeAll, SoundRx, SoundSlots, OfKind, Echoes, RxByte;
    RxLeavesTx(h.view, b);
  }

  lemma UserStepTx(h: History, op: Op)
    requires Sound(h.view) && TxFramed(h) && TxAnswers(h) && TxRequests(h) && !op.Tx? && !op.Rx?
    ensures TxFramed(Next(h, op)) && TxAnswers(Next(h, op)) && TxRequests(Next(h, op))
  {
    UserStepAnswers(h, op);
    UserStepRequests(h, op);
    UserStepFramed(h, op);
    hide TxFramed, TxAnswers, TxRequests, Next;
  }

  lemma UserStepFramed(h: History, op: Op)
    requires Sound(h.view) && TxFramed(h) && !op.Tx? && !op.Rx?
    ensures TxFramed(Next(h, op))
  {
    hide Encode, EncodeAll, Sound, SendError, Answers, FillIn;
  }

  lemma UserStepAnswers(h: History, op: Op)
    requires Sound(h.view) && TxAnswers(h) && !op.Tx? && !op.Rx?
    ensures TxAnswers(Next(h, op))
  {
    hide SoundRx, SoundSlots, SendError, Answers, FillIn, OfKind, Echoes;
  }

  lemma UserStepRequests(h: History, op: Op)
    requires Sound(h.view) && TxRequests(h) && !op.Tx? && !op.Rx?
    ensures TxRequests(Next(h, op))
  {
    hide SoundRx, SoundSlots, SendError, Answers, FillIn, OfKind;
  }

  /** The transmit stream, over all runs: it consists of whole legal packets that never
      interleave; its responses answer the accepted requests one by one and in order;
      its requests are those sent, in order, each put on the wire at most once. */
  lemma {:induction false} TransmitStream(ops: seq<Op>)
    ensures TxFramed(Run(ops)) && TxAnswers(Run(ops)) && TxRequests(Run(ops))
  {
    hide Next, TxFramed, TxAnswers, TxRequests;
    if |ops| == 0 {
      StartTx();
    } else {
      var op := ops[|ops| - 1];
      TransmitStream(ops[..|ops| - 1]);
      var h := Run(ops[..|ops| - 1]);
      if op.Tx? {
        TxStepFramed(h);
        TxStepAnswers(h);
        TxStepRequests(h);
      } else if op.Rx? {
        RxStepTx(h, op.b);
      } else {
        UserStepTx(h, op);
      }
    }
  }

  lemma StartTx()
    ensures TxFramed(START) && TxAnswers(START) && TxRequests(START)
  {
  }

  /** At a packet boundary a ready response goes before a waiting host request, which
      keeps its place. */
  lemma ResponseGoesFirst(v: HandlerView, request: BusRequest)
    requires Sound(v) && v.txRest == [] && v.pending.Some?
    requires v.outgoing == Some(request) && !v.started
    ensures var response := v.pending.value;
            var (v', out) := TxByte(v);
            && out == Some(Encode(ResponsePacket(response))[0])
            && [out.value] + v'.txRest == Encode(ResponsePacket(response))
            && NextPacket(v'.(txRest := [])) == Some((v'.(txRest := [], started := true), RequestPacket(request)))
  {
    hide Encode, SoundRx, SendError, Answers;
    EncodedLength(ResponsePacket(v.pending.value));
  }

  // ---- Response matching --------------------------------------------------------

  /** The packet that this byte finishes, if any. */
  function Finishes(v: HandlerView, op: Op): Option<Packet>
    requires Sound(v)
  {
    if op.Rx? && LacksOne(v.frame) then Some(Assemble(v.frame, v.refused + [op.b])) else None
  }

  /** A buffered response is the answer to the outstanding request. */
  ghost predicate ResponseFits(v: HandlerView) {
    v.response.Some? ==> v.outgoing.Some? && Answers(v.response.value, v.outgoing.value)
  }

  /** The packet that this byte finishes may enter the response slot: either the slot is
      taken anyway, or a request is outstanding whose metadata the packet repeats, with no
      byte of its payload counted twice, or it is of type 3 and will be dropped. */
  predicate Answerable(v: HandlerView, op: Op)
    requires Sound(v)
  {
    var p := Finishes(v, op);
    p.Some? && !IsRequestKind(p.value.kind) && v.response.None? ==>
      && v.outgoing.Some?
      && if MetadataMatches(v.outgoing.value, p.value) then v.refused == [] || |v.frame| == 7 else p.value.kind == 3
  }

  lemma AssembledResponse(v: HandlerView, b: byte, request: BusRequest)
    requires Sound(v) && LacksOne(v.frame)
    ensures var p := Assemble(v.frame, v.refused + [b]);
            && p.kind == KindOf(v.frame[0]) <= 3
            && (!IsRequestKind(p.kind) && MetadataMatches(request, p) ==>
                  (Answers(ResponseOf(p), request) <==> v.refused == [] || |v.frame| == 7))
  {
    hide FirstScalar, OrAll, LeValue;
    var final := v.refused + [b];
    if |v.frame| > 7 {
      assert (v.frame + final)[8..] == v.frame[8..] + final;
    }
  }

  /** One byte keeps the response slot right exactly when its packet is answerable. */
  lemma RxKeepsFit(v: HandlerView, b: byte)
    requires Sound(v) && ResponseFits(v)
    ensures ResponseFits(RxByte(v, b).0) <==> Answerable(v, Rx(b))
  {
    assert LacksOne(v.frame) ==> |v.frame| >= 7;
    hide Partial, LacksOne, SoundSlots, IsStart, Assemble, KindOf, Answers, MetadataMatches, ResponseOf;
    if LacksOne(v.frame) {
      var p := Assemble(v.frame, v.refused + [b]);
      if v.outgoing.Some? {
        AssembledResponse(v, b, v.outgoing.value);
        ResponseMetadata(p, v.outgoing.value);
      }
    }
  }

  lemma ResponseMetadata(p: Packet, request: BusRequest)
    ensures Answers(ResponseOf(p), request) ==> MetadataMatches(request, p)
  {
  }

  lemma OtherKeepsFit(h: History, op: Op)
    requires Sound(h.view) && ResponseFits(h.view) && !op.Rx?
    ensures ResponseFits(Next(h, op).view)
  {
    hide SoundRx, SoundSlots, SendError, KindOf, Answers, FillIn, Encode;
  }

  /** At every moment of the run a buffered response answers the outstanding request. */
  ghost predicate FitsThroughout(ops: seq<Op>) {
    ResponseFits(Run(ops).view) && (|ops| > 0 ==> FitsThroughout(ops[..|ops| - 1]))
  }

  /** Every packet of the run is answerable when its final byte arrives. */
  ghost predicate AnswerableRun(ops: seq<Op>) {
    |ops| > 0 ==>
      AnswerableRun(ops[..|ops| - 1]) && Answerable(Run(ops[..|ops| - 1]).view, ops[|ops| - 1])
  }

  /** Over every run: a buffered response always answers the outstanding host request, all
      metadata echoed and data of exactly the right length, if and only if every response
      packet that found the slot free was answerable when its final byte arrived. */
  lemma {:induction false} ResponsesMatch(ops: seq<Op>)
    ensures FitsThroughout(ops) <==> AnswerableRun(ops)
  {
    hide Next, Answerable, ResponseFits;
    if |ops| == 0 {
      StartFits();
    } else {
      ResponsesMatch(ops[..|ops| - 1]);
      var h := Run(ops[..|ops| - 1]);
      var op := ops[|ops| - 1];
      if FitsThroughout(ops[..|ops| - 1]) {
        FitsNow(ops[..|ops| - 1]);
        if op.Rx? {
          RxKeepsFit(h.view, op.b);
          RxNext(h, op.b);
        } else {
          OtherKeepsFit(h, op);
          OnlyBytesFinish(h.view, op);
        }
      }
    }
  }

  lemma FitsNow(ops: seq<Op>)
    requires FitsThroughout(ops)
    ensures ResponseFits(Run(ops).view)
  {
  }

  lemma OnlyBytesFinish(v: HandlerView, op: Op)
    requires Sound(v) && !op.Rx?
    ensures Answerable(v, op)
  {
  }

  lemma RxNext(h: History, b: byte)
    requires Sound(h.view)
    ensures Next(h, Rx(b)).view == RxByte(h.view, b).0
  {
  }

  lemma StartFits()
    ensures ResponseFits(INITIAL)
  {
  }

  /** A run that breaks the match: any response packet that arrives first of all is kept,
      and answers whatever request is sent later. */
  lemma UnaskedResponseIsKept(p: Packet, later: BusRequest)
    requires p.Legal() && !IsRequestKind(p.kind) && SendError(later).None?
    ensures !ResponseFits(Run(RxOps(Encode(p))).view)
    ensures ReceiveResponse(Run(RxOps(Encode(p)) + [Send(later)]).view).1 == Some(ResponseOf(p))
  {
    var ops := RxOps(Encode(p));
    FeedFirst(p);
    RunOneMore(ops, Send(later));
    hide SendError, Encode, Run;
  }
}
