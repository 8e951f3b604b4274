/** Host requests outside RTL space go straight to the system bus, beat by beat. The
    FPGA runtime and the simulator each have their own copy of that loop. */
module DirectBurst {
  import opened Prelude
  import opened BusTypes
  import opened Memories
  import opened SystemBuses

  /** Both loops run at least one beat. */
  function Beats(request: BusRequest): nat {
    if request.burstLen == 0 then 1 else request.burstLen
  }

  /** The value written by one beat: its bytes of the payload; failing that, the scalar
      mirror for the first beat and zero for the others. */
  function BeatValue(request: BusRequest, beat: nat): uint32 {
    var bytes := request.size.ByteCount();
    var offset := request.size.Span(beat);
    if |request.data| >= offset + bytes then Scalar(request.data[offset..offset + bytes])
    else if beat == 0 then request.wdata
    else 0
  }

  predicate Direct(request: BusRequest) {
    ClassifyHostRequestRoute(request).ToSystemBus?
  }

  function AddrOf(request: BusRequest, beat: nat): (addr: uint32)
    requires Direct(request) && beat < Beats(request)
    ensures addr == BeatAddr(request, beat) && !IsRtlPeripheralAddr(addr)
  {
    RouteKeepsHalf(request, beat);
    BeatAddr(request, beat)
  }

  /** Bus state after the first `n` beats of a write. */
  function AfterWrites(s: BusState, request: BusRequest, n: nat): BusState
    requires Direct(request) && n <= Beats(request)
  {
    if n == 0 then s
    else BusWrite(AfterWrites(s, request, n - 1), AddrOf(request, n - 1), request.size, BeatValue(request, n - 1))
  }

  /** Bus state and bytes collected after the first `n` beats of a read. */
  function AfterReads(s: BusState, answers: DeviceAnswers, request: BusRequest, n: nat): (r: (BusState, seq<byte>))
    requires Direct(request) && n <= Beats(request)
    ensures |r.1| == request.size.Span(n)
  {
    if n == 0 then (s, [])
    else
      var (s', bytes) := AfterReads(s, answers, request, n - 1);
      var (s'', value) := BusRead(s', answers, AddrOf(request, n - 1), request.size);
      (s'', bytes + Le4(value)[..request.size.ByteCount()])
  }

  datatype BusEvent =
    | CpuRead(addr: uint32, data: uint32, size: AccessSize, isDram: bool)
    | CpuWrite(addr: uint32, data: uint32, size: AccessSize, isDram: bool)
    | TohostTermination(value: uint32)
    | HostReadResponse(addr: uint32, data: uint32, size: AccessSize, burstData: seq<byte>)
    | HostWriteResponse(addr: uint32, wdata: uint32, size: AccessSize)
    | HostRequestTimeout(addr: uint32)

  /** The event a worker reports for a response, given the request that is pending. */
  function CompletionEvent(addr: uint32, wdata: uint32, response: BusResponse): BusEvent {
    if response.we then HostWriteResponse(addr, wdata, response.size)
    else HostReadResponse(addr, response.rdata, response.size, response.data)
  }

  /** What the FPGA runtime reports once the beats are done. */
  function FpgaEvent(request: BusRequest, bytes: seq<byte>): BusEvent {
    if request.we then HostWriteResponse(request.addr, request.wdata, request.size)
    else HostReadResponse(request.addr, FirstScalar(bytes, request.size.ByteCount()), request.size, bytes)
  }

  /** The response the simulator keeps for its worker loop. */
  function SimResponse(request: BusRequest, bytes: seq<byte>): BusResponse {
    if request.we then
      BusResponse(0, request.size, true, request.addr, request.burstLen, request.srcFixed, request.dstFixed, [])
    else
      BusResponse(FirstScalar(bytes, request.size.ByteCount()), request.size, false, request.addr,
                  request.burstLen, request.srcFixed, request.dstFixed, bytes)
  }

  /** Bus state and bytes read once every beat of a request is done. */
  function Outcome(s: BusState, answers: DeviceAnswers, request: BusRequest): (BusState, seq<byte>)
    requires Direct(request)
  {
    if request.we then (AfterWrites(s, request, Beats(request)), [])
    else AfterReads(s, answers, request, Beats(request))
  }

  /** Both runtimes report the same completion, for all bytes read: the simulator's
      worker turns its response into the event the FPGA runtime produces directly. */
  lemma RuntimesAgree(request: BusRequest, bytes: seq<byte>)
    ensures CompletionEvent(request.addr, request.wdata, SimResponse(request, bytes)) == FpgaEvent(request, bytes)
  {
  }

  /** What a completion says: a write repeats the address, the scalar and the size of its
      request; a read gives all bytes read, and as its scalar those of the first beat. */
  lemma EventExact(request: BusRequest, bytes: seq<byte>)
    ensures var event := FpgaEvent(request, bytes);
            if request.we then event == HostWriteResponse(request.addr, request.wdata, request.size)
            else
              && event.HostReadResponse? && event.addr == request.addr && event.size == request.size
              && event.burstData == bytes
              && Mirrors(event.data, if |bytes| < request.size.ByteCount() then bytes
                                     else bytes[..request.size.ByteCount()])
  {
    hide FirstScalar, Mirrors;
    FirstScalarMirrors(bytes, request.size.ByteCount());
  }

  /** FPGA runtime. Neither the range expectations nor the bus panic can fire. */
  method ProcessSystemBusRequest(request: BusRequest, bus: SystemBus) returns (event: BusEvent)
    requires Direct(request)
    modifies bus`accesses, bus.memory
    ensures var (s, bytes) := Outcome(old(bus.State()), bus.answers, request);
            bus.State() == s && event == FpgaEvent(request, bytes)
  {
    var beatBytes := request.size.ByteCount();
    var beats := Beats(request);
    if request.we {
      for beat := 0 to beats
        invariant bus.State() == AfterWrites(old(bus.State()), request, beat)
      {
        RouteKeepsHalf(request, beat);
        var addr: uint32 := if request.dstFixed then request.addr else request.addr + request.size.Span(beat);
        var offset := request.size.Span(beat);
        var wdata := 0;
        if |request.data| >= offset + beatBytes {
          wdata := Scalar(request.data[offset..offset + beatBytes]);
        } else if beat == 0 {
          wdata := request.wdata;
        }
        bus.Write(addr, request.size, wdata);
      }
      event := HostWriteResponse(request.addr, request.wdata, request.size);
    } else {
      var burstData := [];
      for beat := 0 to beats
        invariant (bus.State(), burstData) == AfterReads(old(bus.State()), bus.answers, request, beat)
      {
        RouteKeepsHalf(request, beat);
        var addr: uint32 := if request.srcFixed then request.addr else request.addr + request.size.Span(beat);
        var rdata := bus.Read(addr, request.size);
        burstData := burstData + Le4(rdata)[..beatBytes];
      }
      event := HostReadResponse(request.addr, FirstScalar(burstData, beatBytes), request.size, burstData);
    }
  }

  /** Simulator: the same beats, then a response kept for the worker loop. */
  method SendDirectRequest(request: BusRequest, bus: SystemBus) returns (response: BusResponse)
    requires Direct(request)
    modifies bus`accesses, bus.memory
    ensures var (s, bytes) := Outcome(old(bus.State()), bus.answers, request);
            bus.State() == s && response == SimResponse(request, bytes)
  {
    var beatBytes := request.size.ByteCount();
    var beats := Beats(request);
    if request.we {
      for beat := 0 to beats
        invariant bus.State() == AfterWrites(old(bus.State()), request, beat)
      {
        RouteKeepsHalf(request, beat);
        var addr: uint32 := if request.dstFixed then request.addr else request.addr + request.size.Span(beat);
        var offset := request.size.Span(beat);
        var wdata := 0;
        if |request.data| >= offset + beatBytes {
          wdata := Scalar(request.data[offset..offset + beatBytes]);
        } else if beat == 0 {
          wdata := request.wdata;
        }
        bus.Write(addr, request.size, wdata);
      }
      response := BusResponse(0, request.size, true, 0, 1, false, false, []);
      response := response.(addr := request.addr, burstLen := request.burstLen,
                            srcFixed := request.srcFixed, dstFixed := request.dstFixed);
    } else {
      var burstData := [];
      for beat := 0 to beats
        invariant (bus.State(), burstData) == AfterReads(old(bus.State()), bus.answers, request, beat)
      {
        RouteKeepsHalf(request, beat);
        var addr: uint32 := if request.srcFixed then request.addr else request.addr + request.size.Span(beat);
        var rdata := bus.Read(addr, request.size);
        burstData := burstData + Le4(rdata)[..beatBytes];
      }
      response := BusResponse(FirstScalar(burstData, beatBytes), request.size, false, request.addr, request.burstLen,
                              request.srcFixed, request.dstFixed, burstData);
    }
  }

  // ---- Bursts into DRAM are bytewise copies -----------------------------------------

  predicate DramRegion(addr: uint32, len: nat) {
    len > 0 ==> InDram(addr) && addr + len - 1 <= DRAM_END
  }

  lemma DramBeatWrite(s: BusState, addr: uint32, size: AccessSize, bs: seq<byte>)
    requires MapSound(s.entries) && |bs| == size.ByteCount() && DramRegion(addr, |bs|)
    ensures BusWrite(s, addr, size, Scalar(bs)) == s.(mem := Store(s.mem, addr, bs))
  {
    hide MapSound, FindDevice, Scalar, Le4, Store;
    DramIsRouted(s.entries, addr);
    NarrowKeepsBytes(bs, size);
    assert WrapAdd(DRAM_BASE, addr - DRAM_BASE) == addr;
  }

  lemma NarrowKeepsBytes(bs: seq<byte>, size: AccessSize)
    requires |bs| == size.ByteCount()
    ensures Le4(Scalar(bs))[..size.ByteCount()] == bs
  {
    LeValueUnfolds(bs);
    match size
    case Byte =>
    case Halfword => assert Scalar(bs) / 0x100 == bs[1];
    case Word => Le4Bytes(bs); assert Le4(Scalar(bs))[..4] == Le4(Scalar(bs));
  }

  lemma DramBeatRead(s: BusState, answers: DeviceAnswers, addr: uint32, size: AccessSize)
    requires MapSound(s.entries) && DramRegion(addr, size.ByteCount())
    ensures var (s', v) := BusRead(s, answers, addr, size);
            s' == s && Le4(v)[..size.ByteCount()] == Load(s.mem, addr, size.ByteCount())
  {
    hide MapSound, FindDevice, Scalar, Le4, Load;
    DramIsRouted(s.entries, addr);
    NarrowKeepsBytes(Load(s.mem, addr, size.ByteCount()), size);
    assert WrapAdd(DRAM_BASE, addr - DRAM_BASE) == addr;
  }

  /** One more beat of an incrementing burst. */
  lemma SpanStep(request: BusRequest, n: nat)
    requires n <= request.burstLen
    ensures request.size.Span(0) == 0
    ensures request.size.Span(n) <= request.size.Span(request.burstLen)
    ensures n < request.burstLen ==>
              && request.size.Span(n + 1) == request.size.Span(n) + request.size.ByteCount()
              && request.size.Span(n + 1) <= request.size.Span(request.burstLen)
    ensures n < Beats(request) && Direct(request) && !AddressFixed(request) ==>
              AddrOf(request, n) == request.addr + request.size.Span(n) == WrapAdd(request.addr, request.size.Span(n))
  {
  }

  lemma StoreNothing(m: ByteMap, addr: uint32)
    ensures Store(m, addr, []) == m
  {
  }

  /** An incrementing write burst with full payload, inside DRAM, stores its payload
      bytewise and touches nothing else. */
  lemma {:induction false} DramBurstWrite(s: BusState, request: BusRequest, n: nat)
    requires MapSound(s.entries) && Direct(request) && request.we && !request.dstFixed
    requires n <= request.burstLen && |request.data| == request.size.Span(request.burstLen)
    requires DramRegion(request.addr, |request.data|)
    ensures AfterWrites(s, request, n) == s.(mem := Store(s.mem, request.addr, request.data[..request.size.Span(n)]))
  {
    hide MapSound, BusWrite, ClassifyHostRequestRoute, Scalar, Store, AccessSize.Span, AccessSize.ByteCount, AddrOf;
    if n == 0 {
      SpanStep(request, 0);
      assert request.data[..0] == [];
      StoreNothing(s.mem, request.addr);
    } else {
      SpanStep(request, n - 1);
      var k := request.size.Span(n - 1);
      var width := request.size.ByteCount();
      var beat := request.data[k..k + width];
      DramBurstWrite(s, request, n - 1);
      assert request.data[..k + width] == request.data[..k] + beat;
      StoreAppend(s.mem, request.addr, request.data[..k], beat);
      DramBeatWrite(AfterWrites(s, request, n - 1), AddrOf(request, n - 1), request.size, beat);
    }
  }

  /** An incrementing read burst inside DRAM collects the bytes of its range and
      changes nothing. */
  lemma {:induction false} DramBurstRead(s: BusState, answers: DeviceAnswers, request: BusRequest, n: nat)
    requires MapSound(s.entries) && Direct(request) && !request.we && !request.srcFixed
    requires n <= request.burstLen && DramRegion(request.addr, request.size.Span(request.burstLen))
    ensures AfterReads(s, answers, request, n) == (s, Load(s.mem, request.addr, request.size.Span(n)))
  {
    hide MapSound, BusRead, ClassifyHostRequestRoute, Scalar, Load, AccessSize.Span, AccessSize.ByteCount, AddrOf;
    SpanStep(request, if n == 0 then 0 else n - 1);
    if n > 0 {
      var k := request.size.Span(n - 1);
      DramBurstRead(s, answers, request, n - 1);
      LoadAppend(s.mem, request.addr, k, request.size.ByteCount());
      DramBeatRead(s, answers, AddrOf(request, n - 1), request.size);
    }
  }

  /** A burst write is undone by nothing less than the same bytes read back: reading the
      range just written returns the payload. */
  lemma BurstRoundTrip(s: BusState, answers: DeviceAnswers, w: BusRequest, r: BusRequest)
    requires MapSound(s.entries) && Direct(w) && Direct(r)
    requires w.we && !w.dstFixed && |w.data| == w.size.Span(w.burstLen) && DramRegion(w.addr, |w.data|)
    requires !r.we && !r.srcFixed && r.addr == w.addr && r.size == w.size && r.burstLen == w.burstLen
    ensures AfterReads(AfterWrites(s, w, w.burstLen), answers, r, r.burstLen).1 == w.data
  {
    DramBurstWrite(s, w, w.burstLen);
    assert w.data[..|w.data|] == w.data;
    var s' := AfterWrites(s, w, w.burstLen);
    DramBurstRead(s', answers, r, r.burstLen);
    LoadAfterStore(s.mem, w.addr, w.data);
  }
}
