/** Requests of the target: the FPGA runtime accepts one, makes a single bus access for it,
    and answers with a single-beat response. */
module CpuRequests {
  import opened Prelude
  import opened BusTypes
  import opened Packets
  import opened HandlerSpec
  import opened HandlerRuns
  import opened HostBusHandlers
  import opened Memories
  import opened SystemBuses
  import opened DirectBurst
  import HandlerLaws

  /** `BusResponse::write_ack` */
  function WriteAck(size: AccessSize): BusResponse {
    BusResponse(0, size, true, 0, 1, false, false, [])
  }

  /** `BusResponse::read_data` */
  function ReadData(data: uint32, size: AccessSize): BusResponse {
    BusResponse(data, size, false, 0, 1, false, false, Le4(data)[..size.ByteCount()])
  }

  /** The runtime's answer is taken if and only if the request is a write or has one beat.
      It then goes back under the request's own address, length and flags, with the bytes
      read; otherwise nothing changes. */
  lemma ReplyTaken(v: HandlerView, request: BusRequest, rdata: uint32)
    requires v.accepted == Some(request)
    ensures var reply := if request.we then WriteAck(request.size) else ReadData(rdata, request.size);
            CompleteRequest(v, reply) ==
            if request.we || request.burstLen == 1 then
              (v.(pending := Some(BusResponse(if request.we then 0 else rdata, request.size, request.we, request.addr,
                                              request.burstLen, request.srcFixed, request.dstFixed,
                                              if request.we then [] else Le4(rdata)[..request.size.ByteCount()]))),
               Ok(Unit))
            else (v, Err(InvalidBurstConfig))
  {
    hide CompleteRequest, Le4;
    HandlerLaws.CompleteExact(v, if request.we then WriteAck(request.size) else ReadData(rdata, request.size));
    SizesExact(request.size, request.burstLen);
    assert request.size.ByteCount() * request.burstLen == request.size.ByteCount() <==> request.burstLen == 1 by {
      OneBeat(request.size.ByteCount(), request.burstLen);
    }
  }

  lemma OneBeat(width: nat, beats: nat)
    requires width > 0
    ensures width * beats == width <==> beats == 1
  {
    if beats > 1 {
      assert width * beats >= width * 2;
    }
  }

  /** The bus panics on an unmapped address of the RTL half, which the target must not use. */
  method ProcessCpuRequest(handler: HostBusHandler, request: BusRequest, bus: SystemBus) returns (event: BusEvent)
    requires handler.Valid() && handler.acceptedRequest == Some(request)
    requires Reachable(bus.memoryMap, request.addr)
    modifies handler, bus`accesses, bus.memory
    ensures handler.Valid()
    ensures var isDram := 0x8000_0000 <= request.addr && request.addr + request.size.ByteCount() <= 0x9000_0000;
            if request.we then event == CpuWrite(request.addr, request.wdata, request.size, isDram)
            else event.CpuRead? && event == CpuRead(request.addr, event.data, request.size, isDram)
    ensures request.we ==> bus.State() == BusWrite(old(bus.State()), request.addr, request.size, request.wdata)
    ensures !request.we ==>
              (bus.State(), event.data) == BusRead(old(bus.State()), bus.answers, request.addr, request.size)
    ensures handler.View() ==
            CompleteRequest(old(handler.View()), if request.we then WriteAck(request.size)
                                                 else ReadData(event.data, request.size)).0
  {
    DramRangeExact(request.addr, request.size.ByteCount());
    hide BusWrite, BusRead, CompleteRequest, Reachable, RxMatches, Sound, SystemBus.State;
    var isDram := IsValidDramRange(request.addr, request.size.ByteCount());
    if request.we {
      bus.Write(request.addr, request.size, request.wdata);
      var completed := handler.CompleteRequest(WriteAck(request.size));
      event := CpuWrite(request.addr, request.wdata, request.size, isDram);
    } else {
      var rdata := bus.Read(request.addr, request.size);
      var completed := handler.CompleteRequest(ReadData(rdata, request.size));
      event := CpuRead(request.addr, rdata, request.size, isDram);
    }
  }

  /** Of a received write only the first beat is stored, however many it has. */
  lemma FirstBeatStored(s: BusState, p: Packet)
    requires MapSound(s.entries) && p.Legal() && p.we && p.kind % 2 == 0
    requires DramRegion(p.addr, p.size.ByteCount())
    ensures var request := RequestOf(p);
            && p.size.ByteCount() <= |p.payload|
            && BusWrite(s, request.addr, request.size, request.wdata) ==
               s.(mem := Store(s.mem, p.addr, p.payload[..p.size.ByteCount()]))
  {
    var width := p.size.ByteCount();
    SizesExact(p.size, p.burstLen);
    ScalarOfPayload(p);
    hide FirstScalar, Le4, Store, MapSound, BusWrite, FindDevice;
    assert width <= |p.payload|;
    var beat := p.payload[..width];
    FirstBytes(RequestOf(p).wdata, p.payload, width);
    DramBeatWrite(s, p.addr, p.size, beat);
    SameLowBytes(s, p.addr, p.size, RequestOf(p).wdata, Scalar(beat));
    NarrowKeepsBytes(beat, p.size);
  }

  lemma FirstBytes(x: uint32, data: seq<byte>, width: nat)
    requires width <= 4 && width <= |data| && Mirrors(x, data)
    ensures Le4(x)[..width] == data[..width]
  {
    hide Le4;
  }

  /** A bus write looks at the low bytes of its value only. */
  lemma SameLowBytes(s: BusState, addr: uint32, size: AccessSize, x: uint32, y: uint32)
    ensures Le4(x)[..size.ByteCount()] == Le4(y)[..size.ByteCount()] ==>
              BusWrite(s, addr, size, x) == BusWrite(s, addr, size, y)
  {
    hide FindDevice, Le4, LeValue;
  }

  // ---- A burst read of the target -----------------------------------------------------

  /** A handler's state after more calls. */
  function After(h: History, ops: seq<Op>): (h': History)
    requires Sound(h.view)
    ensures Sound(h'.view)
    decreases |ops|
  {
    if |ops| == 0 then h
    else
      NextSound(h, ops[0]);
      After(Next(h, ops[0]), ops[1..])
  }

  /** The responses a runtime gives. */
  predicate SingleBeat(response: BusResponse) {
    response == WriteAck(response.size) || response == ReadData(response.rdata, response.size)
  }

  /** Once a read of more than one beat has been accepted, no runtime ever completes it: over
      all calls that answer with single-beat responses it stays accepted, no response is sent
      and no further request of the target is handed over. */
  lemma {:induction false} BurstReadNeverAnswered(h: History, request: BusRequest, ops: seq<Op>)
    requires Sound(h.view) && h.view.accepted == Some(request) && h.view.pending.None?
    requires !request.we && request.burstLen > 1
    requires forall op <- ops :: op.Complete? ==> SingleBeat(op.response)
    ensures var h' := After(h, ops);
            && h'.view.accepted == Some(request) && h'.view.pending.None? && h'.accepted == h.accepted
            && OfKind(h'.packets, 1) == OfKind(h.packets, 1)
    decreases |ops|
  {
    if |ops| > 0 {
      var op := ops[0];
      assert op in ops;
      StaysUnanswered(h, request, op);
      NextSound(h, op);
      hide Next, SingleBeat;
      BurstReadNeverAnswered(Next(h, op), request, ops[1..]);
    }
  }

  lemma StaysUnanswered(h: History, request: BusRequest, op: Op)
    requires Sound(h.view) && h.view.accepted == Some(request) && h.view.pending.None?
    requires !request.we && request.burstLen > 1
    requires op.Complete? ==> SingleBeat(op.response)
    ensures var h' := Next(h, op);
            && h'.view.accepted == Some(request) && h'.view.pending.None? && h'.accepted == h.accepted
            && OfKind(h'.packets, 1) == OfKind(h.packets, 1)
  {
    match op
    case Complete(response) => RefusedReply(h.view, request, response);
    case Rx(b) =>
      RxLeavesTx(h.view, b);
      hide RxByte, Sound;
    case Tx =>
      if h.view.outgoing.Some? {
        OfKindGrows(h.packets, RequestPacket(h.view.outgoing.value), 1);
      }
      hide Encode, OfKind, Sound;
    case _ => hide SendError, Sound;
  }

  lemma RefusedReply(v: HandlerView, request: BusRequest, response: BusResponse)
    requires v.accepted == Some(request) && !request.we && request.burstLen > 1 && SingleBeat(response)
    ensures CompleteRequest(v, response) == (v, Err(InvalidBurstConfig))
  {
    hide CompleteRequest, Le4;
    HandlerLaws.CompleteExact(v, response);
    OneBeat(request.size.ByteCount(), request.burstLen);
  }
}
