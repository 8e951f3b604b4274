/** What one operation on a host-bus handler means, stated on an abstract state
    that knows nothing of the receive state machine or of buffer indices. */
module HandlerSpec {
  import opened Prelude
  import opened BusTypes
  import opened Packets

  /** Abstract state of a handler.
      `frame` holds the bytes of the packet being received. `refused` holds final
      bytes of that packet that the handler absorbed although it answered
      BufferFull. `txRest` holds the bytes of the packet being sent that are still
      to be handed out. */
  datatype HandlerView = HandlerView(
    frame: seq<byte>,
    refused: seq<byte>,
    response: Option<BusResponse>,
    request: Option<BusRequest>,
    accepted: Option<BusRequest>,
    txRest: seq<byte>,
    outgoing: Option<BusRequest>,
    started: bool,
    pending: Option<BusResponse>)

  const INITIAL := HandlerView([], [], None, None, None, [], None, false, None)

  // ---- Receiving ------------------------------------------------------------

  /** Bitwise or of two bytes. */
  function OrByte(a: byte, b: byte): byte {
    ((a as bv8) | (b as bv8)) as int
  }

  lemma OrByteLaws(a: byte)
    ensures OrByte(0, a) == a
    ensures OrByte(a, a) == a
  {
    assert (0 as bv8) | (a as bv8) == a as bv8;
    assert (a as bv8) | (a as bv8) == a as bv8;
  }

  function OrAll(bs: seq<byte>): byte {
    if |bs| == 0 then 0 else OrByte(OrAll(bs[..|bs| - 1]), bs[|bs| - 1])
  }

  /** Only the last byte of this packet is missing. */
  predicate LacksOne(frame: seq<byte>) {
    && Partial(frame)
    && |frame| >= 7
    && |frame| + 1 == PacketLen(frame)
  }

  /** The packet built when the final byte arrives. Refused offers of that byte
      have left their mark: in the address they are or-ed into the top byte, in a
      payload they stay as extra bytes. */
  function Assemble(frame: seq<byte>, final: seq<byte>): Packet
    requires LacksOne(frame) && |final| > 0
  {
    if |frame| == 7 then Decode(frame + [OrAll(final)]) else Decode(frame + final)
  }

  function RequestOf(p: Packet): BusRequest {
    BusRequest(p.addr, FirstScalar(p.payload, 4), p.we, p.size, p.burstLen, p.srcFixed, p.dstFixed, p.payload)
  }

  function ResponseOf(p: Packet): BusResponse {
    if p.we then BusResponse(0, p.size, true, p.addr, p.burstLen, p.srcFixed, p.dstFixed, [])
    else BusResponse(FirstScalar(p.payload, 4), p.size, false, p.addr, p.burstLen, p.srcFixed, p.dstFixed, p.payload)
  }

  /** The request spelled out by a packet. */
  predicate SameRequest(request: BusRequest, p: Packet) {
    && request.addr == p.addr && request.we == p.we && request.size == p.size && request.burstLen == p.burstLen
    && request.srcFixed == p.srcFixed && request.dstFixed == p.dstFixed && request.data == p.payload
    && Mirrors(request.wdata, p.payload)
  }

  /** The response spelled out by a packet; one to a write has neither data nor scalar. */
  predicate SameResponse(response: BusResponse, p: Packet) {
    && response.addr == p.addr && response.we == p.we && response.size == p.size && response.burstLen == p.burstLen
    && response.srcFixed == p.srcFixed && response.dstFixed == p.dstFixed
    && response.data == (if p.we then [] else p.payload)
    && (if p.we then response.rdata == 0 else Mirrors(response.rdata, p.payload))
  }

  lemma ScalarOfPayload(p: Packet)
    ensures SameRequest(RequestOf(p), p) && SameResponse(ResponseOf(p), p)
  {
    hide FirstScalar, Mirrors;
    FirstScalarMirrors(p.payload, 4);
    LeadingBytes(FirstScalar(p.payload, 4), p.payload);
  }

  lemma LeadingBytes(x: uint32, data: seq<byte>)
    ensures Mirrors(x, if |data| < 4 then data else data[..4]) <==> Mirrors(x, data)
  {
    hide Le4;
  }

  predicate MetadataMatches(request: BusRequest, p: Packet) {
    && request.we == p.we && request.size == p.size && request.addr == p.addr
    && request.burstLen == p.burstLen && request.srcFixed == p.srcFixed && request.dstFixed == p.dstFixed
  }

  /** Store a received packet in the slot for its kind; `None` when that slot is
      taken. A type-3 response that does not fit the outstanding request is dropped. */
  function Deliver(v: HandlerView, p: Packet): Option<HandlerView> {
    if p.kind == 0 || p.kind == 2 then
      if v.request.Some? then None else Some(v.(request := Some(RequestOf(p))))
    else if v.response.Some? then None
    else if p.kind == 3 && v.outgoing.Some? && !MetadataMatches(v.outgoing.value, p) then Some(v)
    else Some(v.(response := Some(ResponseOf(p))))
  }

  predicate CanAcceptRx(v: HandlerView) {
    v.frame != [] || v.response.None? || v.request.None?
  }

  function RxByte(v: HandlerView, b: byte): (HandlerView, Result<Unit, HandlerError>)
    requires Sound(v)
  {
    if !CanAcceptRx(v) then (v, Err(BufferFull))
    else if |v.frame| == 0 && !IsStart(b) then (v, Ok(Unit))
    else if |v.frame| == 1 && b > 1 then (v.(frame := []), Ok(Unit))
    else if LacksOne(v.frame) then
      match Deliver(v, Assemble(v.frame, v.refused + [b]))
      case Some(v') => (v'.(frame := [], refused := []), Ok(Unit))
      case None => (v.(refused := v.refused + [b]), Err(BufferFull))
    else (v.(frame := v.frame + [b]), Ok(Unit))
  }

  // ---- Sending --------------------------------------------------------------

  function RequestPacket(r: BusRequest): Packet {
    Packet(2, r.size, r.we, r.srcFixed, r.dstFixed, r.burstLen, r.addr, r.data)
  }

  function ResponsePacket(r: BusResponse): Packet {
    Packet(1, r.size, r.we, r.srcFixed, r.dstFixed, r.burstLen, r.addr, r.data)
  }

  /** The packet that goes out next when the previous one is finished: a ready
      response first, then a waiting host request. */
  function NextPacket(v: HandlerView): Option<(HandlerView, Packet)> {
    if v.accepted.Some? && v.pending.Some? then
      Some((v.(accepted := None, pending := None), ResponsePacket(v.pending.value)))
    else if v.outgoing.Some? && !v.started then
      Some((v.(started := true), RequestPacket(v.outgoing.value)))
    else None
  }

  function TxByte(v: HandlerView): (HandlerView, Option<byte>) {
    if v.txRest != [] then (v.(txRest := v.txRest[1..]), Some(v.txRest[0]))
    else match NextPacket(v)
      case None => (v, None)
      case Some((v', p)) => (v'.(txRest := Encode(p)[1..]), Some(Encode(p)[0]))
  }

  /** The payload shape and region that `send_request` insists on. */
  function SendError(request: BusRequest): Option<HandlerError> {
    if request.burstLen == 0 || request.burstLen > MAX_BURST_BEATS then Some(InvalidBurstConfig)
    else if |request.data| != (if request.we then request.size.Span(request.burstLen) else 0) then
      Some(InvalidBurstConfig)
    else if ClassifyRequestRegion(request) != RtlPeripheral then Some(InvalidAddressRange)
    else None
  }

  function SendRequest(v: HandlerView, request: BusRequest): (HandlerView, Result<Unit, HandlerError>) {
    if v.outgoing.Some? then (v, Err(RequestPending))
    else match SendError(request)
      case Some(e) => (v, Err(e))
      case None => (v.(outgoing := Some(request)), Ok(Unit))
  }

  function ReceiveResponse(v: HandlerView): (HandlerView, Option<BusResponse>) {
    if v.response.None? || (v.outgoing.None? && v.accepted.None?) then (v, None)
    else (v.(outgoing := None, started := false, response := None), v.response)
  }

  function AcceptRequest(v: HandlerView): (HandlerView, Result<BusRequest, HandlerError>) {
    if v.request.None? || v.accepted.Some? then (v, Err(NoRequestAvailable))
    else (v.(accepted := v.request, request := None), Ok(v.request.value))
  }

  /** A zero address in a response asks the handler to fill in the metadata. */
  function FillIn(response: BusResponse, accepted: BusRequest): BusResponse {
    if response.addr == 0 then
      response.(addr := accepted.addr, burstLen := accepted.burstLen,
                srcFixed := accepted.srcFixed, dstFixed := accepted.dstFixed)
    else response
  }

  /** The response echoes the request and carries exactly its data. */
  predicate Answers(response: BusResponse, request: BusRequest) {
    && response.we == request.we && response.size == request.size && response.addr == request.addr
    && response.burstLen == request.burstLen
    && response.srcFixed == request.srcFixed && response.dstFixed == request.dstFixed
    && |response.data| == if request.we then 0 else request.size.Span(request.burstLen)
  }

  function CompleteRequest(v: HandlerView, response: BusResponse): (HandlerView, Result<Unit, HandlerError>) {
    if v.accepted.None? then (v, Err(NoOutstandingRequest))
    else
      var filled := FillIn(response, v.accepted.value);
      if Answers(filled, v.accepted.value) then (v.(pending := Some(filled)), Ok(Unit))
      else (v, Err(InvalidBurstConfig))
  }

  // ---- Invariant of every handler state --------------------------------------

  predicate LegalBurst(burstLen: uint32) {
    1 <= burstLen <= MAX_BURST_BEATS
  }

  /** The bytes under way form a partial packet, refused ones its final byte. */
  predicate SoundRx(frame: seq<byte>, refused: seq<byte>) {
    && Partial(frame)
    && (refused != [] ==> LacksOne(frame))
  }

  predicate SoundSlots(v: HandlerView) {
    && (v.request.Some? ==> LegalBurst(v.request.value.burstLen))
    && (v.accepted.Some? ==> LegalBurst(v.accepted.value.burstLen))
    && (v.outgoing.Some? ==> SendError(v.outgoing.value).None?)
    && (v.started ==> v.outgoing.Some?)
    && (v.pending.Some? ==> v.accepted.Some? && Answers(v.pending.value, v.accepted.value))
  }

  predicate Sound(v: HandlerView) {
    SoundRx(v.frame, v.refused) && SoundSlots(v)
  }

  lemma AssembledBurst(frame: seq<byte>, final: seq<byte>)
    requires LacksOne(frame) && |final| > 0
    ensures LegalBurst(Assemble(frame, final).burstLen) && Assemble(frame, final).kind <= 3
  {
  }

  lemma AssembledKind(frame: seq<byte>, final: seq<byte>)
    requires LacksOne(frame) && |final| > 0
    ensures Assemble(frame, final).kind == KindOf(frame[0])
  {
  }

  lemma GrowPartial(frame: seq<byte>, b: byte)
    requires Partial(frame) && !LacksOne(frame)
    requires |frame| == 0 ==> IsStart(b)
    requires |frame| == 1 ==> b <= 1
    ensures Partial(frame + [b])
  {
    if |frame| >= 8 {
      assert PacketLen(frame + [b]) == PacketLen(frame);
    }
  }

  lemma CompleteSound(v: HandlerView, response: BusResponse)
    requires Sound(v)
    ensures Sound(CompleteRequest(v, response).0)
  {
    hide SoundRx, SendError;
  }

  lemma RxByteSound(v: HandlerView, b: byte)
    requires Sound(v)
    ensures Sound(RxByte(v, b).0)
  {
    hide Assemble, IsStart, SendError, Answers;
    if LacksOne(v.frame) {
      AssembledBurst(v.frame, v.refused + [b]);
    } else if (|v.frame| == 0 ==> IsStart(b)) && (|v.frame| == 1 ==> b <= 1) {
      GrowPartial(v.frame, b);
    }
    hide LacksOne, Partial;
  }

  /** Whatever is sent next is a legal packet, so its printed form loses nothing. */
  lemma NextPacketLegal(v: HandlerView)
    requires Sound(v) && NextPacket(v).Some?
    ensures NextPacket(v).value.1.Legal() && Sound(NextPacket(v).value.0)
  {
  }

  /** `has_tx_data` holds exactly when the next `transfer_tx_byte` yields a byte. */
  predicate HasTxData(v: HandlerView) {
    v.txRest != [] || (v.accepted.Some? && v.pending.Some?) || (v.outgoing.Some? && !v.started)
  }
}

/** The handler as the source keeps it: a receive state machine with accumulators,
    buffered packets, and a transmit buffer with an index. */
module HostBusHandlers {
  import opened Prelude
  import opened BusTypes
  import opened Packets
  import opened HandlerSpec

  datatype RxState =
    | Idle
    | Ctrl1
    | Len0
    | Len1
    | Addr(byteIdx: nat)
    | Payload(remaining: nat)

  datatype IncomingResponse = IncomingResponse(valid: bool, response: Option<BusResponse>)
  datatype IncomingRequest = IncomingRequest(valid: bool, request: Option<BusRequest>)

  /** The receive state that a partial packet puts the handler in. */
  function StateFor(frame: seq<byte>): RxState
    requires Partial(frame)
  {
    if |frame| == 0 then Idle
    else if |frame| == 1 then Ctrl1
    else if |frame| == 2 then Len0
    else if |frame| == 3 then Len1
    else if |frame| < 8 then Addr(|frame| - 4)
    else Payload(PacketLen(frame) - |frame|)
  }

  /** The receive state machine and the fields it accumulates. The address
      accumulator is kept as its four little-endian bytes, so that or-ing a shifted
      byte into it touches one of them. */
  datatype RxRegs = RxRegs(
    state: RxState,
    packetType: nat,
    we: bool,
    size: nat,
    srcFixed: bool,
    dstFixed: bool,
    burstLen: uint32,
    addrBytes: seq<byte>,
    payload: seq<byte>)

  const RX_IDLE := RxRegs(Idle, 0, false, 0, false, false, 0, [0, 0, 0, 0], [])

  /** The receive fields are those of the partial packet `frame`, with the marks
      that refused final bytes leave behind. */
  ghost predicate RxMatches(rx: RxRegs, frame: seq<byte>, refused: seq<byte>) {
    && Partial(frame)
    && (refused != [] ==> LacksOne(frame))
    && rx.state == StateFor(frame)
    && (|frame| >= 1 ==>
          && rx.packetType == KindOf(frame[0]) && rx.size == SizeCodeOf(frame[0])
          && rx.srcFixed == SrcFixedOf(frame[0]) && rx.dstFixed == DstFixedOf(frame[0]))
    && (|frame| >= 2 ==> rx.we == (frame[1] == 1))
    && (|frame| == 3 ==> rx.burstLen == frame[2])
    && (|frame| >= 4 ==> rx.burstLen == BurstLenOf(frame))
    && |rx.addrBytes| == 4
    && (4 <= |frame| <= 7 ==>
          && rx.addrBytes[..|frame| - 4] == frame[4..]
          && (forall j :: |frame| - 4 <= j < 3 ==> rx.addrBytes[j] == 0)
          && rx.addrBytes[3] == OrAll(refused))
    && (|frame| >= 8 ==> rx.addrBytes == frame[4..8])
    && rx.payload == if |frame| >= 8 then frame[8..] + refused else []
  }

  /** The accumulated fields are those of packet `p`. */
  ghost predicate Spells(rx: RxRegs, p: Packet) {
    && p.kind == rx.packetType <= 3
    && AccessSize.FromCode(rx.size) == Some(p.size)
    && p.we == rx.we && p.srcFixed == rx.srcFixed && p.dstFixed == rx.dstFixed
    && p.burstLen == rx.burstLen && p.payload == rx.payload
    && |rx.addrBytes| == 4 && p.addr == LeValue(rx.addrBytes)
  }

  // ---- What each receive state does with one more byte ------------------------

  lemma IdleStep(rx: RxRegs, frame: seq<byte>, refused: seq<byte>, b: byte)
    requires RxMatches(rx, frame, refused) && rx.state.Idle?
    ensures frame == refused == [] && !LacksOne(frame)
    ensures IsStart(b) <==> !(b / 16 > 3 || b / 4 % 4 == 3)
    ensures IsStart(b) ==>
              RxMatches(rx.(packetType := b / 16, size := b / 4 % 4, srcFixed := b / 2 % 2 != 0,
                            dstFixed := b % 2 != 0, state := Ctrl1), frame + [b], [])
  {
  }

  lemma Ctrl1Step(rx: RxRegs, frame: seq<byte>, refused: seq<byte>, b: byte)
    requires RxMatches(rx, frame, refused) && rx.state.Ctrl1?
    ensures |frame| == 1 && refused == [] && !LacksOne(frame)
    ensures b > 1 <==> b / 2 != 0
    ensures b > 1 ==> RxMatches(rx.(state := Idle), [], [])
    ensures b <= 1 ==> RxMatches(rx.(we := b % 2 != 0, state := Len0), frame + [b], [])
  {
  }

  lemma LengthStep(rx: RxRegs, frame: seq<byte>, refused: seq<byte>, b: byte)
    requires RxMatches(rx, frame, refused) && (rx.state.Len0? || rx.state.Len1?)
    ensures |frame| == (if rx.state.Len0? then 2 else 3) && refused == [] && !LacksOne(frame)
    ensures rx.state.Len0? ==> RxMatches(rx.(burstLen := b, state := Len1), frame + [b], [])
    ensures rx.state.Len1? ==>
              && rx.burstLen + b as int * 0x100 + 1 <= MAX_BURST_BEATS
              && RxMatches(rx.(burstLen := rx.burstLen + b as int * 0x100 + 1, addrBytes := [0, 0, 0, 0],
                               state := Addr(0)), frame + [b], [])
  {
  }

  lemma AddressStep(rx: RxRegs, frame: seq<byte>, refused: seq<byte>, b: byte)
    requires RxMatches(rx, frame, refused) && rx.state.Addr?
    ensures 4 <= |frame| == rx.state.byteIdx + 4 <= 7 && |rx.addrBytes| == 4
    ensures var idx := rx.state.byteIdx;
            var acc := rx.(addrBytes := rx.addrBytes[idx := OrByte(rx.addrBytes[idx], b)]);
            && (idx < 3 ==>
                  && !LacksOne(frame) && refused == []
                  && RxMatches(acc.(state := Addr(idx + 1)), frame + [b], []))
            && (idx == 3 ==>
                  var n := ExpectedPayloadLen(rx.packetType, rx.we, rx.size, rx.burstLen);
                  && (n == 0 <==> LacksOne(frame))
                  && (n == 0 ==>
                        && Spells(acc, Assemble(frame, refused + [b]))
                        && RxMatches(acc, frame, refused + [b])
                        && RxMatches(acc.(payload := [], state := Idle), [], []))
                  && (n > 0 ==>
                        refused == [] && RxMatches(acc.(payload := [], state := Payload(n)), frame + [b], [])))
  {
    hide LacksOne, Partial, Assemble, Spells;
    assert 4 <= |frame| == rx.state.byteIdx + 4 <= 7;
    hide RxMatches;
    if rx.state.byteIdx == 3 {
      LastAddressByte(rx, frame, refused, b);
    } else {
      EarlyAddressByte(rx, frame, refused, b);
    }
  }

  lemma EarlyAddressByte(rx: RxRegs, frame: seq<byte>, refused: seq<byte>, b: byte)
    requires RxMatches(rx, frame, refused) && rx.state.Addr? && rx.state.byteIdx < 3
    ensures |rx.addrBytes| == 4 && !LacksOne(frame) && refused == []
    ensures var idx := rx.state.byteIdx;
            var acc := rx.(addrBytes := rx.addrBytes[idx := OrByte(rx.addrBytes[idx], b)]);
            RxMatches(acc.(state := Addr(idx + 1)), frame + [b], [])
  {
    OrByteLaws(b);
    hide OrByte;
  }

  lemma LastAddressByte(rx: RxRegs, frame: seq<byte>, refused: seq<byte>, b: byte)
    requires RxMatches(rx, frame, refused) && rx.state.Addr? && rx.state.byteIdx == 3
    ensures |rx.addrBytes| == 4
    ensures var acc := rx.(addrBytes := rx.addrBytes[3 := OrByte(rx.addrBytes[3], b)]);
            var n := ExpectedPayloadLen(rx.packetType, rx.we, rx.size, rx.burstLen);
            && (n == 0 <==> LacksOne(frame))
            && (n == 0 ==>
                  && Spells(acc, Assemble(frame, refused + [b]))
                  && RxMatches(acc, frame, refused + [b])
                  && RxMatches(acc.(payload := [], state := Idle), [], []))
            && (n > 0 ==>
                  refused == [] && RxMatches(acc.(payload := [], state := Payload(n)), frame + [b], []))
  {
    OrByteLaws(b);
    assert (refused + [b])[..|refused|] == refused;
    assert rx.size == SizeOf(frame[0]).SizeCode();
    if LacksOne(frame) {
      AddressComplete(rx.addrBytes[3 := OrByte(rx.addrBytes[3], b)], frame, refused, b);
    } else {
      assert PacketLen(frame + [b]) == PacketLen(frame);
    }
  }

  lemma AddressComplete(addrBytes: seq<byte>, frame: seq<byte>, refused: seq<byte>, b: byte)
    requires Partial(frame) && LacksOne(frame) && |frame| == 7
    requires |addrBytes| == 4 && addrBytes[..3] == frame[4..]
    requires addrBytes[3] == OrByte(OrAll(refused), b)
    ensures OrAll(refused + [b]) == addrBytes[3]
    ensures var p := Assemble(frame, refused + [b]);
            && p.addr == LeValue(addrBytes) && p.payload == []
            && p.burstLen == BurstLenOf(frame)
  {
    assert (refused + [b])[..|refused|] == refused;
    assert (frame + [OrAll(refused + [b])])[4..8] == addrBytes;
  }

  lemma PayloadStep(rx: RxRegs, frame: seq<byte>, refused: seq<byte>, b: byte)
    requires RxMatches(rx, frame, refused) && rx.state.Payload?
    ensures |frame| >= 8 && rx.state.remaining >= 1
    ensures var acc := rx.(payload := rx.payload + [b]);
            && (rx.state.remaining == 1 <==> LacksOne(frame))
            && (rx.state.remaining == 1 ==>
                  && Spells(acc, Assemble(frame, refused + [b]))
                  && RxMatches(acc, frame, refused + [b])
                  && RxMatches(acc.(payload := [], state := Idle), [], []))
            && (rx.state.remaining > 1 ==>
                  && refused == []
                  && RxMatches(acc.(state := Payload(rx.state.remaining - 1)), frame + [b], []))
  {
    assert PacketLen(frame + [b]) == PacketLen(frame);
    assert (frame + [b])[8..] == frame[8..] + [b];
    assert frame[8..] + refused + [b] == frame[8..] + (refused + [b]);
    if LacksOne(frame) {
      PayloadComplete(frame, refused, b);
    }
  }

  lemma PayloadComplete(frame: seq<byte>, refused: seq<byte>, b: byte)
    requires Partial(frame) && LacksOne(frame) && |frame| >= 8
    ensures var p := Assemble(frame, refused + [b]);
            && p.addr == LeValue(frame[4..8]) && p.payload == frame[8..] + refused + [b]
            && p.burstLen == BurstLenOf(frame)
  {
    assert (frame + (refused + [b]))[4..8] == frame[4..8];
    assert (frame + (refused + [b]))[8..] == frame[8..] + refused + [b];
  }

  class HostBusHandler {
    var rx: RxRegs

    var outgoingResponse: IncomingResponse
    var incomingRequest: IncomingRequest
    var acceptedRequest: Option<BusRequest>

    var txBuffer: seq<byte>
    var txIndex: nat
    var outgoingRequest: Option<BusRequest>
    var outgoingRequestTxStarted: bool
    var pendingResponse: Option<BusResponse>

    // The bytes that led to the current receive state.
    ghost var frame: seq<byte>
    ghost var refused: seq<byte>

    ghost predicate Valid()
      reads this
    {
      && RxMatches(rx, frame, refused)
      && (outgoingResponse.valid <==> outgoingResponse.response.Some?)
      && (incomingRequest.valid <==> incomingRequest.request.Some?)
      && txIndex <= |txBuffer|
      && Sound(View())
    }

    ghost function View(): HandlerView
      reads this
      requires txIndex <= |txBuffer|
    {
      HandlerView(frame, refused, outgoingResponse.response, incomingRequest.request, acceptedRequest,
                txBuffer[txIndex..], outgoingRequest, outgoingRequestTxStarted, pendingResponse)
    }

    constructor ()
      ensures Valid() && View() == INITIAL
    {
      rx := RX_IDLE;
      outgoingResponse := IncomingResponse(false, None);
      incomingRequest := IncomingRequest(false, None);
      acceptedRequest := None;
      txBuffer, txIndex := [], 0;
      outgoingRequest, outgoingRequestTxStarted, pendingResponse := None, false, None;
      frame, refused := [], [];
    }

    method Reset()
      modifies this
      ensures Valid() && View() == INITIAL
    {
      rx := RX_IDLE;
      outgoingResponse := IncomingResponse(false, None);
      incomingRequest := IncomingRequest(false, None);
      acceptedRequest := None;
      txBuffer, txIndex := [], 0;
      outgoingRequest, outgoingRequestTxStarted, pendingResponse := None, false, None;
      frame, refused := [], [];
    }

    function CanAcceptRx(): (r: bool)
      reads this
      requires Valid()
      ensures r == HandlerSpec.CanAcceptRx(View())
    {
      rx.state != Idle || !outgoingResponse.valid || !incomingRequest.valid
    }

    method TransferRxByte(b: byte) returns (r: Result<Unit, HandlerError>)
      requires Valid()
      modifies this
      ensures Valid()
      ensures View() == RxByte(old(View()), b).0
      ensures r == RxByte(old(View()), b).1
    {
      RxByteSound(View(), b);
      if !CanAcceptRx() {
        return Err(BufferFull);
      }
      match rx.state
      case Addr(byteIdx) => r := ReceiveAddressByte(byteIdx, b);
      case Payload(remaining) => r := ReceivePayloadByte(remaining, b);
      case _ =>
        ReceiveControlByte(b);
        r := Ok(Unit);
    }

    /** The states that fill in the two control bytes and the length. */
    method ReceiveControlByte(b: byte)
      requires Valid() && HandlerSpec.CanAcceptRx(View())
      requires !rx.state.Addr? && !rx.state.Payload?
      modifies this`rx, this`frame
      ensures Valid()
      ensures RxByte(old(View()), b) == (View(), Ok(Unit))
    {
      hide RxMatches, Partial, LacksOne, IsStart, SoundSlots, Deliver;
      RxByteSound(View(), b);
      match rx.state
      case Idle =>
        IdleStep(rx, frame, refused, b);
        var packetType := b / 16;
        var size := b / 4 % 4;
        if !(packetType > 3 || size == 3) {
          rx := rx.(packetType := packetType, size := size, srcFixed := b / 2 % 2 != 0, dstFixed := b % 2 != 0,
                    state := Ctrl1);
          frame := frame + [b];
        }
      case Ctrl1 =>
        Ctrl1Step(rx, frame, refused, b);
        if b / 2 != 0 {
          rx := rx.(state := Idle);
          frame := [];
        } else {
          rx := rx.(we := b % 2 != 0, state := Len0);
          frame := frame + [b];
        }
      case Len0 =>
        LengthStep(rx, frame, refused, b);
        rx := rx.(burstLen := b, state := Len1);
        frame := frame + [b];
      case Len1 =>
        LengthStep(rx, frame, refused, b);
        rx := rx.(burstLen := rx.burstLen + b as int * 0x100 + 1, addrBytes := [0, 0, 0, 0], state := Addr(0));
        frame := frame + [b];
    }

    method ReceiveAddressByte(byteIdx: nat, b: byte) returns (r: Result<Unit, HandlerError>)
      requires Valid() && rx.state == Addr(byteIdx)
      modifies this`rx, this`frame, this`refused, this`outgoingResponse, this`incomingRequest
      ensures Valid()
      ensures RxByte(old(View()), b) == (View(), r)
    {
      hide RxMatches, Partial, LacksOne, IsStart, SoundSlots, Deliver, Assemble, SameRequest, SameResponse;
      RxByteSound(View(), b);
      AddressStep(rx, frame, refused, b);
      rx := rx.(addrBytes := rx.addrBytes[byteIdx := OrByte(rx.addrBytes[byteIdx], b)]);
      if byteIdx == 3 {
        var payloadLen := ExpectedPayloadLen(rx.packetType, rx.we, rx.size, rx.burstLen);
        if payloadLen == 0 {
          r := FinalizeRxPacket(Assemble(frame, refused + [b]));
          if r.Err? {
            refused := refused + [b];
            return;
          }
          rx := rx.(state := Idle);
          frame, refused := [], [];
        } else {
          rx := rx.(payload := [], state := Payload(payloadLen));
          frame := frame + [b];
          r := Ok(Unit);
        }
      } else {
        rx := rx.(state := Addr(byteIdx + 1));
        frame := frame + [b];
        r := Ok(Unit);
      }
    }

    method ReceivePayloadByte(remaining: nat, b: byte) returns (r: Result<Unit, HandlerError>)
      requires Valid() && rx.state == Payload(remaining)
      modifies this`rx, this`frame, this`refused, this`outgoingResponse, this`incomingRequest
      ensures Valid()
      ensures RxByte(old(View()), b) == (View(), r)
    {
      hide RxMatches, Partial, LacksOne, IsStart, SoundSlots, Deliver, Assemble, SameRequest, SameResponse;
      RxByteSound(View(), b);
      PayloadStep(rx, frame, refused, b);
      rx := rx.(payload := rx.payload + [b]);
      if remaining == 1 {
        r := FinalizeRxPacket(Assemble(frame, refused + [b]));
        if r.Err? {
          refused := refused + [b];
          return;
        }
        rx := rx.(state := Idle);
        frame, refused := [], [];
      } else {
        rx := rx.(state := Payload(remaining - 1));
        frame := frame + [b];
        r := Ok(Unit);
      }
    }

    /** Buffer the packet spelled out by the accumulators, which is `p`. */
    method FinalizeRxPacket(ghost p: Packet) returns (r: Result<Unit, HandlerError>)
      requires txIndex <= |txBuffer|
      requires outgoingResponse.valid <==> outgoingResponse.response.Some?
      requires incomingRequest.valid <==> incomingRequest.request.Some?
      requires Spells(rx, p)
      modifies this`outgoingResponse, this`incomingRequest, this`rx
      ensures outgoingResponse.valid <==> outgoingResponse.response.Some?
      ensures incomingRequest.valid <==> incomingRequest.request.Some?
      ensures r == match Deliver(old(View()), p) case Some(_) => Ok(Unit) case None => Err(BufferFull)
      ensures View() == match Deliver(old(View()), p) case Some(v) => v case None => old(View())
      ensures rx == if r.Ok? then old(rx).(payload := []) else old(rx)
      ensures r.Ok? && p.kind % 2 == 0 ==>
                incomingRequest.request.Some? && SameRequest(incomingRequest.request.value, p)
      ensures r.Ok? && p.kind == 1 ==>
                outgoingResponse.response.Some? && SameResponse(outgoingResponse.response.value, p)
    {
      ScalarOfPayload(p);
      hide FirstScalar, Mirrors, SoundSlots;
      var size := AccessSize.FromCode(rx.size).value;
      var addr: uint32 := LeValue(rx.addrBytes);
      if rx.packetType == 0 || rx.packetType == 2 {
        if incomingRequest.valid {
          return Err(BufferFull);
        }
        incomingRequest := IncomingRequest(true, Some(
          BusRequest(addr, FirstScalar(rx.payload, 4), rx.we, size, rx.burstLen,
                     rx.srcFixed, rx.dstFixed, rx.payload)));
      } else {
        if outgoingResponse.valid {
          return Err(BufferFull);
        }
        if rx.packetType == 3 && outgoingRequest.Some? {
          var out := outgoingRequest.value;
          if !(out.we == rx.we && out.size == size && out.addr == addr
               && out.burstLen == rx.burstLen && out.srcFixed == rx.srcFixed
               && out.dstFixed == rx.dstFixed) {
            rx := rx.(payload := []);
            return Ok(Unit);
          }
        }
        var response;
        if rx.we {
          response := BusResponse(0, size, true, addr, rx.burstLen,
                                  rx.srcFixed, rx.dstFixed, []);
        } else {
          response := BusResponse(FirstScalar(rx.payload, 4), size, false, addr, rx.burstLen,
                                  rx.srcFixed, rx.dstFixed, rx.payload);
        }
        outgoingResponse := IncomingResponse(true, Some(response));
      }
      rx := rx.(payload := []);
      r := Ok(Unit);
    }

    /** Pull one byte of the packet being sent, starting a new packet if needed. */
    method TransferTxByte() returns (r: Option<byte>)
      requires Valid()
      modifies this
      ensures Valid()
      ensures View() == TxByte(old(View())).0
      ensures r == TxByte(old(View())).1
      ensures r.Some? == HandlerSpec.HasTxData(old(View()))
    {
      hide RxMatches, SoundRx, SendError, Answers;
      if txIndex >= |txBuffer| {
        txBuffer, txIndex := [], 0;
        var started := StartTxPacket();
        if !started {
          return None;
        }
      }
      r := Some(txBuffer[txIndex]);
      txIndex := txIndex + 1;
      if txIndex >= |txBuffer| {
        txBuffer, txIndex := [], 0;
      }
    }

    method StartTxPacket() returns (started: bool)
      requires Valid() && txBuffer == [] && txIndex == 0
      modifies this`txBuffer, this`acceptedRequest, this`pendingResponse, this`outgoingRequestTxStarted
      ensures Valid()
      ensures match NextPacket(old(View()))
              case None => !started && View() == old(View())
              case Some((v, p)) => started && View() == v.(txRest := Encode(p))
    {
      hide RxMatches, SoundRx, SendError, Answers;
      if acceptedRequest.Some? && pendingResponse.Some? {
        var response := pendingResponse.value;
        pendingResponse := None;
        txBuffer := Encode(Packet(1, response.size, response.we, response.srcFixed, response.dstFixed,
                                  response.burstLen, response.addr, response.data));
        acceptedRequest := None;
        return true;
      }
      if outgoingRequest.Some? && !outgoingRequestTxStarted {
        var request := outgoingRequest.value;
        txBuffer := Encode(Packet(2, request.size, request.we, request.srcFixed, request.dstFixed,
                                  request.burstLen, request.addr, request.data));
        outgoingRequestTxStarted := true;
        return true;
      }
      return false;
    }

    function HasTxData(): (r: bool)
      reads this
      requires Valid()
      ensures r == TxByte(View()).1.Some?
    {
      txIndex < |txBuffer|
      || (acceptedRequest.Some? && pendingResponse.Some?)
      || (outgoingRequest.Some? && !outgoingRequestTxStarted)
    }

    method SendRequest(request: BusRequest) returns (r: Result<Unit, HandlerError>)
      requires Valid()
      modifies this
      ensures Valid()
      ensures View() == HandlerSpec.SendRequest(old(View()), request).0
      ensures r == HandlerSpec.SendRequest(old(View()), request).1
    {
      if outgoingRequest.Some? {
        return Err(RequestPending);
      }
      if request.burstLen == 0 || request.burstLen > MAX_BURST_BEATS {
        return Err(InvalidBurstConfig);
      }
      if request.we {
        var expected := request.size.Span(request.burstLen);
        if |request.data| != expected {
          return Err(InvalidBurstConfig);
        }
      } else if request.data != [] {
        return Err(InvalidBurstConfig);
      }
      if ClassifyRequestRegion(request) != RtlPeripheral {
        return Err(InvalidAddressRange);
      }
      outgoingRequest := Some(request);
      r := Ok(Unit);
    }

    method ReceiveResponse() returns (r: Option<BusResponse>)
      requires Valid()
      modifies this
      ensures Valid()
      ensures View() == HandlerSpec.ReceiveResponse(old(View())).0
      ensures r == HandlerSpec.ReceiveResponse(old(View())).1
    {
      if !outgoingResponse.valid {
        return None;
      }
      if outgoingRequest.None? && acceptedRequest.None? {
        return None;
      }
      outgoingRequest := None;
      outgoingRequestTxStarted := false;
      r := outgoingResponse.response;
      outgoingResponse := IncomingResponse(false, None);
    }

    method AcceptRequest() returns (r: Result<BusRequest, HandlerError>)
      requires Valid()
      modifies this
      ensures Valid()
      ensures View() == HandlerSpec.AcceptRequest(old(View())).0
      ensures r == HandlerSpec.AcceptRequest(old(View())).1
    {
      if !incomingRequest.valid || acceptedRequest.Some? {
        return Err(NoRequestAvailable);
      }
      var request := incomingRequest.request.value;
      acceptedRequest := Some(request);
      incomingRequest := IncomingRequest(false, None);
      r := Ok(request);
    }

    method CompleteRequest(response: BusResponse) returns (r: Result<Unit, HandlerError>)
      requires Valid()
      modifies this
      ensures Valid()
      ensures View() == HandlerSpec.CompleteRequest(old(View()), response).0
      ensures r == HandlerSpec.CompleteRequest(old(View()), response).1
      ensures r.Ok? ==>
                acceptedRequest.Some? && acceptedRequest == old(acceptedRequest)
                && var a := acceptedRequest.value;
                   pendingResponse == Some(BusResponse(response.rdata, a.size, a.we, a.addr, a.burstLen, a.srcFixed,
                                                       a.dstFixed, response.data))
    {
      CompleteSound(View(), response);
      hide RxMatches, Sound;
      if acceptedRequest.None? {
        return Err(NoOutstandingRequest);
      }
      var accepted := acceptedRequest.value;
      var filled := response;
      if filled.addr == 0 {
        filled := filled.(addr := accepted.addr, burstLen := accepted.burstLen,
                          srcFixed := accepted.srcFixed, dstFixed := accepted.dstFixed);
      }
      if filled.we != accepted.we || filled.size != accepted.size || filled.addr != accepted.addr
         || filled.burstLen != accepted.burstLen || filled.srcFixed != accepted.srcFixed
         || filled.dstFixed != accepted.dstFixed {
        return Err(InvalidBurstConfig);
      }
      var expectedDataLen := if accepted.we then 0 else accepted.size.Span(accepted.burstLen);
      if |filled.data| != expectedDataLen {
        return Err(InvalidBurstConfig);
      }
      pendingResponse := Some(filled);
      r := Ok(Unit);
    }
  }

  function ExpectedPayloadLen(packetType: nat, we: bool, size: nat, burstLen: uint32): (n: nat)
    ensures AccessSize.FromCode(size).Some? && packetType <= 3 ==>
              n == PayloadLen(packetType, we, AccessSize.FromCode(size).value, burstLen)
  {
    var bytes := if size == 0 then burstLen else if size == 1 then 2 * burstLen as int else 4 * burstLen as int;
    if (packetType == 0 || packetType == 2) && we then bytes
    else if (packetType == 1 || packetType == 3) && !we then bytes
    else 0
  }
}
