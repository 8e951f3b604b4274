/** Two handlers joined by lossless first-in first-out byte links, each serving the
    requests of the other at the same time. */
module LinkedHandlers {
  import opened Prelude
  import opened BusTypes
  import opened Packets
  import opened HandlerSpec
  import opened HandlerRuns

  // ---- The life of one side's requests ----------------------------------------

  /** Everything that concerns the requests of one side: its own request slot, the
      request packets in flight, the serving side's slots, the response packets in
      flight, and its response slot; with the record of what was asked, taken over by
      the server, given by it, replied and got back. */
  datatype Path = Path(
    outgoing: Option<BusRequest>,
    started: bool,
    outbound: seq<Packet>,
    request: Option<BusRequest>,
    accepted: Option<BusRequest>,
    pending: Option<BusResponse>,
    inbound: seq<Packet>,
    response: Option<BusResponse>,
    book: Book)

  /** `offered` is the last response that the server's user gave for the request being
      served; `given` holds those whose packet has begun. */
  datatype Book = Book(
    asked: seq<BusRequest>,
    taken: seq<BusRequest>,
    offered: Option<BusResponse>,
    given: seq<BusResponse>,
    replied: seq<BusResponse>,
    got: seq<BusResponse>)

  const BLANK := Book([], [], None, [], [], [])

  /** A request as the far side sees it: the scalar mirror is recomputed. */
  function Arrived(r: BusRequest): BusRequest {
    r.(wdata := FirstScalar(r.data, 4))
  }

  /** A response as it comes back: the scalar mirror is recomputed. */
  function Returned(r: BusResponse): BusResponse {
    r.(rdata := if r.we then 0 else FirstScalar(r.data, 4))
  }

  /** A reply carries what was given: direction, size, scalar and every data byte. */
  predicate Carries(reply: BusResponse, given: BusResponse) {
    reply.we == given.we && reply.size == given.size && reply.rdata == given.rdata && reply.data == given.data
  }

  /** The request that arrives is the one asked, its scalar the first four payload bytes. */
  predicate SameAsked(taken: BusRequest, asked: BusRequest) {
    taken == asked.(wdata := taken.wdata) && Mirrors(taken.wdata, asked.data)
  }

  /** The response that arrives has the data given, under the request's own address,
      length and flags; its scalar is the first four data bytes, or zero after a write. */
  predicate SameGiven(got: BusResponse, given: BusResponse, request: BusRequest) {
    && got.we == given.we == request.we && got.size == given.size == request.size && got.data == given.data
    && got.addr == request.addr && got.burstLen == request.burstLen
    && got.srcFixed == request.srcFixed && got.dstFixed == request.dstFixed
    && (if got.we then got.rdata == 0 && got.data == [] else Mirrors(got.rdata, given.data))
  }

  lemma ArrivesSame(taken: BusRequest, asked: BusRequest)
    requires taken == Arrived(asked)
    ensures SameAsked(taken, asked)
  {
    hide FirstScalar, Mirrors;
    FirstScalarMirrors(asked.data, 4);
    LeadingBytes(taken.wdata, asked.data);
  }

  lemma ReturnsSame(got: BusResponse, reply: BusResponse, given: BusResponse, request: BusRequest)
    requires got == Returned(reply) && Carries(reply, given) && Answers(reply, request)
    ensures SameGiven(got, given, request)
  {
    hide FirstScalar, Mirrors;
    FirstScalarMirrors(reply.data, 4);
    LeadingBytes(FirstScalar(reply.data, 4), reply.data);
  }

  function Last<T>(s: seq<T>): T
    requires |s| > 0
  {
    s[|s| - 1]
  }

  /** Once its request is on the wire, it is in exactly one place until the response
      has been fetched. */
  ghost predicate OnePlace(p: Path) {
    && (p.started ==> p.outgoing.Some?)
    && |p.outbound| + |Slot(p.request)| + |Slot(p.accepted)| + |p.inbound| + |Slot(p.response)|
       == if p.started then 1 else 0
  }

  /** Whatever is at that place belongs to the outstanding request. */
  ghost predicate RightContent(p: Path) {
    && (p.outgoing.Some? ==> |p.book.asked| > 0 && p.outgoing.value == Last(p.book.asked))
    && (forall q <- p.outbound :: p.outgoing.Some? && q == RequestPacket(p.outgoing.value))
    && (p.request.Some? ==> p.outgoing.Some? && p.request.value == Arrived(p.outgoing.value))
    && (p.accepted.Some? ==> |p.book.taken| > 0 && p.accepted.value == Last(p.book.taken))
    && (p.pending.Some? ==> p.accepted.Some? && Answers(p.pending.value, p.accepted.value))
    && (p.pending.Some? ==> p.book.offered.Some? && Carries(p.pending.value, p.book.offered.value))
    && (forall q <- p.inbound :: |p.book.replied| > 0 && q == ResponsePacket(Last(p.book.replied)))
    && (p.response.Some? ==> |p.book.replied| > 0 && p.response.value == Returned(Last(p.book.replied)))
  }

  /** The books: taken requests are the asked ones in order, replies answer the taken
      requests in order, and what came back are the replies in order. */
  ghost predicate Balanced(p: Path) {
    var b := p.book;
    && |b.asked| == |b.taken| + |p.outbound| + |Slot(p.request)| + (if p.outgoing.Some? && !p.started then 1 else 0)
    && |b.taken| == |b.replied| + |Slot(p.accepted)|
    && |b.given| == |b.replied| == |b.got| + |p.inbound| + |Slot(p.response)|
    && (forall i :: 0 <= i < |b.taken| ==> b.taken[i] == Arrived(b.asked[i]))
    && (forall i :: 0 <= i < |b.replied| ==> Answers(b.replied[i], b.taken[i]) && Carries(b.replied[i], b.given[i]))
    && (forall i :: 0 <= i < |b.got| ==> b.got[i] == Returned(b.replied[i]))
  }

  ghost predicate PathInv(p: Path) {
    OnePlace(p) && RightContent(p) && Balanced(p)
  }

  /** What may happen to a request: it is sent, its packet begins, arrives, is taken
      over, is answered, the reply begins, returns, and is fetched. */
  ghost predicate PathStep(p: Path, p': Path) {
    || p' == p
    || (p.outgoing.None? && p'.outgoing.Some?
        && p' == p.(outgoing := p'.outgoing, book := p.book.(asked := p.book.asked + [p'.outgoing.value])))
    || (p.outgoing.Some? && !p.started
        && p' == p.(started := true, outbound := p.outbound + [RequestPacket(p.outgoing.value)]))
    || (|p.outbound| == 1 && p.outgoing.Some? && p.request.None?
        && p' == p.(outbound := [], request := Some(Arrived(p.outgoing.value))))
    || (p.request.Some? && p.accepted.None?
        && p' == p.(request := None, accepted := p.request, book := p.book.(taken := p.book.taken + [p.request.value])))
    || (p.accepted.Some? && p'.pending.Some? && Answers(p'.pending.value, p.accepted.value)
        && p'.book.offered.Some? && Carries(p'.pending.value, p'.book.offered.value)
        && p' == p.(pending := p'.pending, book := p.book.(offered := p'.book.offered)))
    || (p.accepted.Some? && p.pending.Some? && p.book.offered.Some?
        && p' == p.(accepted := None, pending := None, inbound := p.inbound + [ResponsePacket(p.pending.value)],
                    book := p.book.(given := p.book.given + [p.book.offered.value],
                                    replied := p.book.replied + [p.pending.value])))
    || (|p.inbound| == 1 && |p.book.replied| > 0 && p.response.None?
        && p' == p.(inbound := [], response := Some(Returned(Last(p.book.replied)))))
    || (p.response.Some?
        && p' == p.(outgoing := None, started := false, response := None,
                    book := p.book.(got := p.book.got + [p.response.value])))
  }

  lemma PathStepKeepsInv(p: Path, p': Path)
    requires PathInv(p) && PathStep(p, p')
    ensures PathInv(p')
  {
    hide Answers, Carries, Returned, Arrived, RequestPacket, ResponsePacket;
  }

  // ---- Two handlers and two links ----------------------------------------------

  /** Handlers `a` and `b`; the bytes in transit each way; and, for the record, the
      packets begun by one side and not yet finished by the other, and the books. */
  datatype Duplex = Duplex(
    a: HandlerView,
    b: HandlerView,
    ab: seq<byte>,
    ba: seq<byte>,
    flightsAB: seq<Packet>,
    flightsBA: seq<Packet>,
    bookA: Book,
    bookB: Book)

  const CONNECTED := Duplex(INITIAL, INITIAL, [], [], [], [], BLANK, BLANK)

  /** The same connection seen from the other end. */
  function Swap(s: Duplex): Duplex {
    Duplex(s.b, s.a, s.ba, s.ab, s.flightsBA, s.flightsAB, s.bookB, s.bookA)
  }

  /** The requests of side `a`. */
  function PathOf(s: Duplex): Path {
    Path(s.a.outgoing, s.a.started, OfKind(s.flightsAB, 2), s.b.request, s.b.accepted, s.b.pending,
         OfKind(s.flightsBA, 1), s.a.response, s.bookA)
  }

  datatype Act =
    | Ask(request: BusRequest)
    | Fetch
    | Take
    | Answer(response: BusResponse)
    | Emit
    | Absorb

  /** One act of side `a`: a call of its user, handing one byte to the link, or taking
      one byte from the link. A byte that the handler refuses stays on the link. */
  function Step(s: Duplex, act: Act): Duplex
    requires Sound(s.a)
  {
    match act
    case Ask(request) =>
      var (v, r) := SendRequest(s.a, request);
      s.(a := v, bookA := if r.Ok? then s.bookA.(asked := s.bookA.asked + [request]) else s.bookA)
    case Fetch =>
      var (v, r) := ReceiveResponse(s.a);
      s.(a := v, bookA := if r.Some? then s.bookA.(got := s.bookA.got + [r.value]) else s.bookA)
    case Take =>
      var (v, r) := AcceptRequest(s.a);
      s.(a := v, bookB := if r.Ok? then s.bookB.(taken := s.bookB.taken + [r.value]) else s.bookB)
    case Answer(response) =>
      var (v, r) := CompleteRequest(s.a, response);
      s.(a := v, bookB := if r.Ok? then s.bookB.(offered := Some(response)) else s.bookB)
    case Emit => EmitByte(s)
    case Absorb => AbsorbByte(s)
  }

  function EmitByte(s: Duplex): Duplex {
    var (v, out) := TxByte(s.a);
    if out.None? then s.(a := v)
    else
      var sent := s.(a := v, ab := s.ab + [out.value]);
      if s.a.txRest != [] then sent
      else
        var p := NextPacket(s.a).value.1;
        sent.(flightsAB := s.flightsAB + [p],
              bookB := if s.a.pending.None? || s.bookB.offered.None? then s.bookB
                       else s.bookB.(given := s.bookB.given + [s.bookB.offered.value],
                                     replied := s.bookB.replied + [s.a.pending.value]))
  }

  function AbsorbByte(s: Duplex): Duplex
    requires Sound(s.a)
  {
    if s.ba == [] then s
    else
      var (v, r) := RxByte(s.a, s.ba[0]);
      if r.Err? then s.(a := v)
      else
        var finished := LacksOne(s.a.frame) && s.flightsBA != [];
        s.(a := v, ba := s.ba[1..], flightsBA := if finished then s.flightsBA[1..] else s.flightsBA)
  }

  /** Partial packet at the receiver, bytes on the link and bytes not yet handed out
      are together the packets in flight. */
  ghost predicate WireInv(frame: seq<byte>, link: seq<byte>, txRest: seq<byte>, flights: seq<Packet>) {
    && frame + link + txRest == EncodeAll(flights)
    && (flights != [] ==> |frame| < |Encode(flights[0])|)
    && (forall p <- flights :: p.Legal() && (p.kind == 1 || p.kind == 2))
  }

  ghost predicate Inv(s: Duplex) {
    && Sound(s.a) && Sound(s.b)
    && s.a.refused == [] && s.b.refused == []
    && WireInv(s.b.frame, s.ab, s.a.txRest, s.flightsAB)
    && WireInv(s.a.frame, s.ba, s.b.txRest, s.flightsBA)
    && PathInv(PathOf(s)) && PathInv(PathOf(Swap(s)))
  }

  // ---- User calls ----------------------------------------------------------------

  lemma UserAct(s: Duplex, act: Act)
    requires Inv(s) && !act.Emit? && !act.Absorb?
    ensures Inv(Step(s, act))
  {
    hide OfKind, WireInv, SoundRx, SendError, FillIn, Answers, Arrived, RequestPacket, ResponsePacket, PathInv;
    UserActOnPaths(s, act);
    PathStepKeepsInv(PathOf(s), PathOf(Step(s, act)));
    PathStepKeepsInv(PathOf(Swap(s)), PathOf(Swap(Step(s, act))));
  }

  lemma UserActOnPaths(s: Duplex, act: Act)
    requires Inv(s) && !act.Emit? && !act.Absorb?
    ensures PathStep(PathOf(s), PathOf(Step(s, act)))
    ensures PathStep(PathOf(Swap(s)), PathOf(Swap(Step(s, act))))
  {
    hide OfKind, WireInv, SoundRx, SendError, FillIn, Arrived, RequestPacket, ResponsePacket, Balanced, RightContent;
    hide Carries;
    if act.Answer? {
      AnswerCarries(s.a, act.response);
    }
  }

  /** A response that is accepted is kept with the data given, under the metadata of the
      request. */
  lemma AnswerCarries(v: HandlerView, response: BusResponse)
    ensures var (v', r) := CompleteRequest(v, response);
            if r.Ok? then
              && v.accepted.Some? && v'.pending.Some? && v' == v.(pending := v'.pending)
              && Answers(v'.pending.value, v.accepted.value) && Carries(v'.pending.value, response)
            else v' == v
  {
  }

  lemma PendingWasOffered(p: Path)
    requires PathInv(p)
    ensures p.pending.Some? ==> p.book.offered.Some?
  {
    hide OnePlace, Balanced, Answers, Carries, Returned, Arrived, RequestPacket, ResponsePacket;
  }

  // ---- Handing out a byte -----------------------------------------------------------

  lemma WireGrows(frame: seq<byte>, link: seq<byte>, flights: seq<Packet>, p: Packet)
    requires WireInv(frame, link, [], flights)
    requires p.Legal() && (p.kind == 1 || p.kind == 2)
    ensures WireInv(frame, link + [Encode(p)[0]], Encode(p)[1..], flights + [p])
  {
    hide Encode;
    EncodedLength(p);
    EncodeAllAppend(flights, p);
    assert frame + (link + [Encode(p)[0]]) + Encode(p)[1..] == (frame + link + []) + Encode(p);
    if flights == [] {
      assert EncodeAll([]) == [];
    }
  }

  lemma WireMoves(frame: seq<byte>, link: seq<byte>, txRest: seq<byte>, flights: seq<Packet>)
    requires WireInv(frame, link, txRest, flights) && txRest != []
    ensures WireInv(frame, link + [txRest[0]], txRest[1..], flights)
  {
    hide Encode, EncodeAll;
    assert frame + (link + [txRest[0]]) + txRest[1..] == frame + link + txRest;
  }

  lemma EmitAct(s: Duplex)
    requires Inv(s)
    ensures Inv(Step(s, Emit))
  {
    hide OfKind, WireInv, SoundRx, SendError, Answers, RequestPacket, ResponsePacket, PathInv, Encode;
    var s' := Step(s, Emit);
    if s.a.txRest != [] {
      WireMoves(s.b.frame, s.ab, s.a.txRest, s.flightsAB);
      assert PathOf(s') == PathOf(s) && PathOf(Swap(s')) == PathOf(Swap(s));
    } else if NextPacket(s.a).Some? {
      var p := NextPacket(s.a).value.1;
      NextPacketLegal(s.a);
      NextPacketKind(s.a);
      WireGrows(s.b.frame, s.ab, s.flightsAB, p);
      OfKindGrows(s.flightsAB, p, 1);
      OfKindGrows(s.flightsAB, p, 2);
      EmitOnPaths(s);
      PathStepKeepsInv(PathOf(s), PathOf(s'));
      PathStepKeepsInv(PathOf(Swap(s)), PathOf(Swap(s')));
    }
  }

  lemma NextPacketKind(v: HandlerView)
    requires Sound(v) && NextPacket(v).Some?
    ensures var p := NextPacket(v).value.1;
            if v.pending.Some? then p.kind == 1 && p == ResponsePacket(v.pending.value)
            else p.kind == 2 && v.outgoing.Some? && p == RequestPacket(v.outgoing.value)
  {
  }

  lemma EmitOnPaths(s: Duplex)
    requires Inv(s) && s.a.txRest == [] && NextPacket(s.a).Some?
    ensures PathStep(PathOf(s), PathOf(Step(s, Emit)))
    ensures PathStep(PathOf(Swap(s)), PathOf(Swap(Step(s, Emit))))
  {
    hide OfKind, WireInv, SoundRx, SendError, Answers, RequestPacket, ResponsePacket, PathInv, Encode;
    var p := NextPacket(s.a).value.1;
    NextPacketKind(s.a);
    PendingWasOffered(PathOf(Swap(s)));
    OfKindGrows(s.flightsAB, p, 1);
    OfKindGrows(s.flightsAB, p, 2);
  }

  // ---- Taking in a byte -----------------------------------------------------------------

  lemma {:induction false} OfKindFirst(packets: seq<Packet>, kind: nat)
    requires |packets| > 0
    ensures OfKind(packets, kind) == (if packets[0].kind == kind then [packets[0]] else []) + OfKind(packets[1..], kind)
  {
    if |packets| == 1 {
      assert packets[..0] == [] && packets[1..] == [];
    } else {
      var init := packets[..|packets| - 1];
      OfKindFirst(init, kind);
      assert packets[1..][..|packets| - 2] == init[1..];
    }
  }

  /** The next byte on the link continues the first packet in flight. */
  lemma NextByteContinues(frame: seq<byte>, link: seq<byte>, txRest: seq<byte>, flights: seq<Packet>)
    requires WireInv(frame, link, txRest, flights) && link != []
    ensures flights != []
    ensures var s := Encode(flights[0]);
            |frame| < |s| && frame + [link[0]] == s[..|frame| + 1]
  {
    hide Encode;
    var all := frame + link + txRest;
    assert |all| > 0 && (flights == [] ==> EncodeAll(flights) == []);
    var s := Encode(flights[0]);
    assert all == s + EncodeAll(flights[1..]);
    assert all[..|frame| + 1] == frame + [link[0]];
    assert all[..|frame| + 1] == s[..|frame| + 1];
  }

  /** That byte either extends the partial packet or finishes the packet in flight. */
  lemma ByteInPacket(frame: seq<byte>, b: byte, p: Packet)
    requires p.Legal() && |frame| < |Encode(p)| && frame + [b] == Encode(p)[..|frame| + 1]
    ensures Partial(frame)
    ensures |frame| == 0 ==> IsStart(b)
    ensures |frame| == 1 ==> b <= 1
    ensures LacksOne(frame) <==> |frame| + 1 == |Encode(p)|
    ensures LacksOne(frame) ==> Assemble(frame, [b]) == p
  {
    hide Encode, Decode, Partial, Assemble;
    var s := Encode(p);
    DecodeEncode(p);
    CutIsPartial(s, |frame|);
    assert frame == (frame + [b])[..|frame|] == s[..|frame|];
    assert (frame + [b])[|frame|] == s[|frame|];
    SameLength(frame, s);
    if |frame| + 1 == |s| {
      assert s[..|s|] == s;
    }
    if LacksOne(frame) {
      UnspoiledPacket(frame, b);
    }
  }

  lemma SameLength(frame: seq<byte>, s: seq<byte>)
    requires Whole(s) && |frame| < |s| && frame == s[..|frame|]
    ensures |frame| >= 1 ==> IsStart(frame[0])
    ensures |frame| >= 4 ==> PacketLen(frame) == |s|
    ensures |frame| == 0 ==> IsStart(s[|frame|])
    ensures |frame| == 1 ==> s[|frame|] <= 1
  {
  }

  lemma WireAbsorbs(frame: seq<byte>, link: seq<byte>, txRest: seq<byte>, flights: seq<Packet>)
    requires WireInv(frame, link, txRest, flights) && link != [] && flights != []
    ensures |frame| + 1 < |Encode(flights[0])| ==> WireInv(frame + [link[0]], link[1..], txRest, flights)
    ensures |frame| + 1 == |Encode(flights[0])| ==> WireInv([], link[1..], txRest, flights[1..])
  {
    hide Encode;
    var s := Encode(flights[0]);
    assert (frame + [link[0]]) + link[1..] + txRest == frame + link + txRest;
    if |frame| + 1 == |s| {
      NextByteContinues(frame, link, txRest, flights);
      assert s[..|s|] == s;
      assert s + ([] + link[1..] + txRest) == s + EncodeAll(flights[1..]);
      assert (s + ([] + link[1..] + txRest))[|s|..] == [] + link[1..] + txRest;
      assert (s + EncodeAll(flights[1..]))[|s|..] == EncodeAll(flights[1..]);
      if |flights| > 1 {
        EncodedLength(flights[1]);
      }
    }
  }

  /** The slot that the first packet in flight is bound for is free. */
  lemma SlotIsFree(s: Duplex)
    requires Inv(s) && s.flightsBA != []
    ensures var p := s.flightsBA[0];
            && (p.kind == 2 ==> s.a.request.None? && OfKind(s.flightsBA, 2) == [p] && OfKind(s.flightsBA[1..], 2) == [])
            && (p.kind == 1 ==>
                  s.a.response.None? && OfKind(s.flightsBA, 1) == [p] && OfKind(s.flightsBA[1..], 1) == [])
            && (p.kind == 2 ==> OfKind(s.flightsBA[1..], 1) == OfKind(s.flightsBA, 1))
            && (p.kind == 1 ==> OfKind(s.flightsBA[1..], 2) == OfKind(s.flightsBA, 2))
            && (p.kind == 1 || p.kind == 2)
  {
    hide OfKind, SoundRx, SoundSlots, RightContent, Balanced, Encode, EncodeAll;
    OfKindFirst(s.flightsBA, 1);
    OfKindFirst(s.flightsBA, 2);
  }

  /** What the first packet in flight turns into on arrival. */
  lemma ArrivalContent(s: Duplex)
    requires Inv(s) && s.flightsBA != []
    ensures var p := s.flightsBA[0];
            && (p.kind == 2 ==> s.b.outgoing.Some? && RequestOf(p) == Arrived(s.b.outgoing.value))
            && (p.kind == 1 ==> |s.bookA.replied| > 0 && ResponseOf(p) == Returned(Last(s.bookA.replied)))
  {
    hide OfKind, SoundRx, SoundSlots, OnePlace, Encode, EncodeAll;
    OfKindFirst(s.flightsBA, 1);
    OfKindFirst(s.flightsBA, 2);
    var p := s.flightsBA[0];
    if p.kind == 1 {
      assert p in OfKind(s.flightsBA, 1);
      var n := |s.bookA.replied|;
      assert Answers(s.bookA.replied[n - 1], s.bookA.taken[n - 1]);
    } else {
      assert p in OfKind(s.flightsBA, 2);
    }
  }

  /** No byte is ever refused, and it does just what the packet in flight calls for. */
  lemma AbsorbOutcome(s: Duplex)
    requires Inv(s) && s.ba != []
    ensures s.flightsBA != []
    ensures var p := s.flightsBA[0];
            var b := s.ba[0];
            var (v, r) := RxByte(s.a, b);
            && r == Ok(Unit)
            && (|s.a.frame| + 1 < |Encode(p)| ==> !LacksOne(s.a.frame) && v == s.a.(frame := s.a.frame + [b]))
            && (|s.a.frame| + 1 == |Encode(p)| ==>
                  && LacksOne(s.a.frame)
                  && (p.kind == 2 ==> v == s.a.(frame := [], request := Some(RequestOf(p))))
                  && (p.kind == 1 ==> v == s.a.(frame := [], response := Some(ResponseOf(p)))))
            && |s.a.frame| + 1 <= |Encode(p)|
  {
    hide OfKind, SoundRx, SoundSlots, PathInv, Encode, Partial, Assemble, IsStart, RequestOf, ResponseOf;
    NextByteContinues(s.a.frame, s.ba, s.b.txRest, s.flightsBA);
    ByteInPacket(s.a.frame, s.ba[0], s.flightsBA[0]);
    SlotIsFree(s);
    assert s.a.refused + [s.ba[0]] == [s.ba[0]];
    EncodedLength(s.flightsBA[0]);
    LacksOneLong(s.a.frame);
  }

  lemma LacksOneLong(frame: seq<byte>)
    ensures LacksOne(frame) ==> |frame| >= 7
  {
  }

  lemma AbsorbAct(s: Duplex)
    requires Inv(s)
    ensures Inv(Step(s, Absorb))
  {
    hide OfKind, WireInv, SoundRx, SoundSlots, PathInv, Encode, RxByte, RequestOf, ResponseOf;
    if s.ba != [] {
      var s' := Step(s, Absorb);
      AbsorbOutcome(s);
      SlotIsFree(s);
      RxByteSound(s.a, s.ba[0]);
      WireAbsorbs(s.a.frame, s.ba, s.b.txRest, s.flightsBA);
      AbsorbOnPaths(s);
      PathStepKeepsInv(PathOf(s), PathOf(s'));
      PathStepKeepsInv(PathOf(Swap(s)), PathOf(Swap(s')));
    }
  }

  lemma AbsorbOnPaths(s: Duplex)
    requires Inv(s) && s.ba != []
    ensures PathStep(PathOf(s), PathOf(Step(s, Absorb)))
    ensures PathStep(PathOf(Swap(s)), PathOf(Swap(Step(s, Absorb))))
  {
    hide OfKind, WireInv, SoundRx, SoundSlots, PathInv, Encode, RxByte, RequestOf, ResponseOf;
    AbsorbOutcome(s);
    SlotIsFree(s);
    ArrivalContent(s);
  }

  // ---- All runs ---------------------------------------------------------------------------

  datatype Side = SideA | SideB

  function StepSide(s: Duplex, side: Side, act: Act): Duplex
    requires Sound(s.a) && Sound(s.b)
  {
    match side
    case SideA => Step(s, act)
    case SideB => Swap(Step(Swap(s), act))
  }

  lemma ActKeepsInv(s: Duplex, act: Act)
    requires Inv(s)
    ensures Inv(Step(s, act))
  {
    hide Inv, Step;
    match act
    case Emit => EmitAct(s);
    case Absorb => AbsorbAct(s);
    case _ => UserAct(s, act);
  }

  lemma StepSideKeepsInv(s: Duplex, side: Side, act: Act)
    requires Inv(s)
    ensures Inv(StepSide(s, side, act))
  {
    hide Inv, Step;
    SwapInv(s);
    match side
    case SideA => ActKeepsInv(s, act);
    case SideB =>
      ActKeepsInv(Swap(s), act);
      SwapInv(Step(Swap(s), act));
  }

  lemma ConnectedInv()
    ensures Inv(CONNECTED)
  {
    assert EncodeAll([]) == [];
  }

  ghost function Connection(acts: seq<(Side, Act)>): (s: Duplex)
    ensures Inv(s)
  {
    if |acts| == 0 then
      ConnectedInv();
      CONNECTED
    else
      var s := Connection(acts[..|acts| - 1]);
      var (side, act) := acts[|acts| - 1];
      StepSideKeepsInv(s, side, act);
      StepSide(s, side, act)
  }

  /** Over every interleaving of user calls and byte transfers on both sides at once:
      the far side takes over exactly the requests asked, in order and unchanged apart
      from the scalar mirror, never more than one behind; every reply answers its
      request; and the asking side fetches, in order, exactly the data that the user of
      the far side gave for them. */
  lemma LinkDelivers(acts: seq<(Side, Act)>)
    ensures forall book <- [Connection(acts).bookA, Connection(acts).bookB] ::
              && |book.got| <= |book.replied| == |book.given| <= |book.taken| <= |book.asked| <= |book.got| + 1
              && (forall i :: 0 <= i < |book.taken| ==> SameAsked(book.taken[i], book.asked[i]))
              && (forall i :: 0 <= i < |book.replied| ==>
                    Answers(book.replied[i], book.taken[i]) && Carries(book.replied[i], book.given[i]))
              && (forall i :: 0 <= i < |book.got| ==> SameGiven(book.got[i], book.given[i], book.asked[i]))
  {
    hide Connection, Inv, PathInv, SameAsked, SameGiven, Answers, Carries;
    var s := Connection(acts);
    BothPaths(s);
    BooksAgree(PathOf(s));
    BooksAgree(PathOf(Swap(s)));
  }

  lemma BothPaths(s: Duplex)
    requires Inv(s)
    ensures PathInv(PathOf(s)) && PathInv(PathOf(Swap(s)))
  {
    hide PathInv, OfKind, WireInv, SoundRx, SoundSlots;
  }

  lemma BooksAgree(p: Path)
    requires PathInv(p)
    ensures var book := p.book;
            && |book.got| <= |book.replied| == |book.given| <= |book.taken| <= |book.asked| <= |book.got| + 1
            && (forall i :: 0 <= i < |book.taken| ==> SameAsked(book.taken[i], book.asked[i]))
            && (forall i :: 0 <= i < |book.replied| ==>
                  Answers(book.replied[i], book.taken[i]) && Carries(book.replied[i], book.given[i]))
            && (forall i :: 0 <= i < |book.got| ==> SameGiven(book.got[i], book.given[i], book.asked[i]))
  {
    hide RightContent, Answers, Carries, SameAsked, SameGiven, Returned;
    var book := p.book;
    forall i | 0 <= i < |book.taken|
      ensures SameAsked(book.taken[i], book.asked[i])
    {
      ArrivesSame(book.taken[i], book.asked[i]);
    }
    forall i | 0 <= i < |book.got|
      ensures SameGiven(book.got[i], book.given[i], book.asked[i])
    {
      ReturnsSame(book.got[i], book.replied[i], book.given[i], book.taken[i]);
      SameMetadata(book.got[i], book.given[i], book.taken[i], book.asked[i]);
    }
  }

  lemma SameMetadata(got: BusResponse, given: BusResponse, taken: BusRequest, asked: BusRequest)
    requires SameGiven(got, given, taken) && taken == Arrived(asked)
    ensures SameGiven(got, given, asked)
  {
    hide FirstScalar, Mirrors;
  }

  /** No byte on either link is ever refused. */
  lemma NeverRefused(acts: seq<(Side, Act)>)
    ensures var s := Connection(acts);
            && (s.ba != [] ==> RxByte(s.a, s.ba[0]).1 == Ok(Unit))
            && (s.ab != [] ==> RxByte(s.b, s.ab[0]).1 == Ok(Unit))
  {
    hide Connection, Inv, RxByte;
    var s := Connection(acts);
    assert Inv(Swap(s)) by { SwapInv(s); }
    if s.ba != [] {
      AbsorbOutcome(s);
    }
    if s.ab != [] {
      AbsorbOutcome(Swap(s));
    }
  }

  lemma SwapInv(s: Duplex)
    requires Inv(s)
    ensures Inv(Swap(s))
  {
    assert Swap(Swap(s)) == s;
  }

  /** The links are empty, side `b` has served what it got, and side `a` has neither a
      response to fetch nor a request still to send. */
  ghost predicate Quiescent(s: Duplex) {
    && s.b.frame + s.ab + s.a.txRest == [] && s.a.frame + s.ba + s.b.txRest == []
    && s.b.request.None? && s.b.accepted.None? && s.a.response.None?
    && (s.a.outgoing.Some? ==> s.a.started)
  }

  /** Nothing is lost: at quiescence every request asked has been answered and fetched. */
  lemma NothingLost(acts: seq<(Side, Act)>)
    ensures var s := Connection(acts);
            Quiescent(s) ==> s.a.outgoing.None? && |s.bookA.got| == |s.bookA.asked|
  {
    hide Connection, Answers, SoundRx, SoundSlots, RightContent, Encode;
    var s := Connection(acts);
    if Quiescent(s) {
      EmptyWire(s.b.frame, s.ab, s.a.txRest, s.flightsAB);
      EmptyWire(s.a.frame, s.ba, s.b.txRest, s.flightsBA);
      assert PathInv(PathOf(s));
    }
  }

  lemma EmptyWire(frame: seq<byte>, link: seq<byte>, txRest: seq<byte>, flights: seq<Packet>)
    requires WireInv(frame, link, txRest, flights) && frame + link + txRest == []
    ensures flights == []
  {
  }
}
