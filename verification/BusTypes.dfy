/** Requests and responses on the host bus, and the address-region rules that
    decide how a request is routed. */
module BusTypes {
  import opened Prelude

  datatype AccessSize = Byte | Halfword | Word {
    function ByteCount(): (n: uint32)
      ensures 1 <= n <= 4
    {
      match this
      case Byte => 1
      case Halfword => 2
      case Word => 4
    }

    /** Protocol encoding in bits 3:2 of the first control byte. */
    function SizeCode(): byte {
      match this
      case Byte => 0
      case Halfword => 1
      case Word => 2
    }

    /** Bytes moved by `beats` beats of this size. */
    function Span(beats: nat): nat {
      match this
      case Byte => beats
      case Halfword => 2 * beats
      case Word => 4 * beats
    }

    static function FromCode(code: nat): Option<AccessSize> {
      if code == 0 then Some(Byte)
      else if code == 1 then Some(Halfword)
      else if code == 2 then Some(Word)
      else None
    }
  }

  /** The three sizes: bytes per beat, code on the wire, and bytes of a whole transfer. */
  lemma SizesExact(size: AccessSize, beats: nat)
    ensures Byte.ByteCount() == 1 && Halfword.ByteCount() == 2 && Word.ByteCount() == 4
    ensures Byte.SizeCode() == 0 && Halfword.SizeCode() == 1 && Word.SizeCode() == 2
    ensures size.Span(beats) == size.ByteCount() * beats
  {
  }

  const MAX_BURST_BEATS: uint32 := 65536

  datatype BusRequest = BusRequest(
    addr: uint32,
    wdata: uint32,
    we: bool,
    size: AccessSize,
    burstLen: uint32,
    srcFixed: bool,
    dstFixed: bool,
    data: seq<byte>)

  datatype BusResponse = BusResponse(
    rdata: uint32,
    size: AccessSize,
    we: bool,
    addr: uint32,
    burstLen: uint32,
    srcFixed: bool,
    dstFixed: bool,
    data: seq<byte>)

  datatype HandlerError =
    | BufferFull
    | RequestPending
    | NoDataAvailable
    | NoRequestAvailable
    | NoOutstandingRequest
    | InvalidAddressRange
    | InvalidBurstConfig

  /** Errors of a device's register interface. */
  datatype BusDeviceError =
    | WriteToReadOnly(offset: uint32)
    | ReadFromWriteOnly(offset: uint32)
    | InvalidAddress(offset: uint32)

  /** The first bytes of a payload as a zero-extended little-endian scalar. */
  function FirstScalar(data: seq<byte>, width: nat): uint32
    requires width <= 4
  {
    var first := if |data| < width then data else data[..width];
    LeValueUnfolds(first);
    LeValue(first)
  }

  /** The scalar holds the leading bytes of the payload and nothing else. */
  lemma FirstScalarMirrors(data: seq<byte>, width: nat)
    requires width <= 4
    ensures Mirrors(FirstScalar(data, width), if |data| < width then data else data[..width])
  {
    ValueMirrors(if |data| < width then data else data[..width]);
  }

  /** `BusRequest::read` */
  function SingleRead(addr: uint32, size: AccessSize): BusRequest {
    BurstRead(addr, size, 1, false, false)
  }

  /** `BusRequest::write` */
  function SingleWrite(addr: uint32, value: uint32, size: AccessSize): BusRequest {
    BusRequest(addr, value, true, size, 1, false, false, Le4(value)[..size.ByteCount()])
  }

  /** `BusRequest::burst_read` */
  function BurstRead(addr: uint32, size: AccessSize, burstLen: uint32, srcFixed: bool, dstFixed: bool): BusRequest {
    BusRequest(addr, 0, false, size, burstLen, srcFixed, dstFixed, [])
  }

  /** `BusRequest::burst_write`: the scalar mirror is zero when the payload is
      shorter than one beat. */
  function BurstWrite(addr: uint32, size: AccessSize, burstLen: uint32, srcFixed: bool, dstFixed: bool,
                      data: seq<byte>): BusRequest {
    var mirror := if |data| < size.ByteCount() then 0 else FirstScalar(data, size.ByteCount());
    BusRequest(addr, mirror, true, size, burstLen, srcFixed, dstFixed, data)
  }

  /** What the four constructors build: a read carries nothing; a single write carries the low
      bytes of its value, which is its scalar; a burst write carries its payload, with the
      first beat as its scalar, or zero when the payload is shorter than one beat. */
  lemma ConstructorsExact(addr: uint32, value: uint32, size: AccessSize, burstLen: uint32, srcFixed: bool,
                          dstFixed: bool, data: seq<byte>)
    ensures SingleRead(addr, size) == BusRequest(addr, 0, false, size, 1, false, false, [])
    ensures BurstRead(addr, size, burstLen, srcFixed, dstFixed) ==
            BusRequest(addr, 0, false, size, burstLen, srcFixed, dstFixed, [])
    ensures var w := SingleWrite(addr, value, size);
            && w == BusRequest(addr, value, true, size, 1, false, false, w.data) && |w.data| == size.ByteCount()
            && forall k :: 0 <= k < |w.data| ==> w.data[k] == Le4(value)[k]
    ensures var w := BurstWrite(addr, size, burstLen, srcFixed, dstFixed, data);
            && w == BusRequest(addr, w.wdata, true, size, burstLen, srcFixed, dstFixed, data)
            && (if |data| < size.ByteCount() then w.wdata == 0 else Mirrors(w.wdata, data[..size.ByteCount()]))
  {
    hide FirstScalar, Mirrors, Le4;
    FirstScalarMirrors(data, size.ByteCount());
  }

  datatype AddressRegion = RtlPeripheral | NonRtl | SpansRtlBoundary

  /** RTL peripherals own the lower half of the address space. */
  predicate IsRtlPeripheralAddr(addr: uint32) {
    addr < 0x8000_0000
  }

  /** Whether the side of the transfer that the request addresses stays put. */
  predicate AddressFixed(request: BusRequest) {
    if request.we then request.dstFixed else request.srcFixed
  }

  /** Inclusive end address of a request, if it exists in 32-bit arithmetic. */
  function RequestEndAddr(request: BusRequest): Option<uint32> {
    var span := if AddressFixed(request) then 1 else request.burstLen;
    var total := request.size.Span(span);
    if total >= ADDRESS_SPACE || total == 0 then None
    else CheckedAdd(request.addr, total - 1)
  }

  function ClassifyRequestRegion(request: BusRequest): AddressRegion {
    match RequestEndAddr(request)
    case None => NonRtl
    case Some(end) =>
      if IsRtlPeripheralAddr(request.addr) && IsRtlPeripheralAddr(end) then RtlPeripheral
      else if !IsRtlPeripheralAddr(request.addr) && !IsRtlPeripheralAddr(end) then NonRtl
      else SpansRtlBoundary
  }

  datatype HostRequestRoute = ToHostBusHandler | ToSystemBus | InvalidSpanningRegion

  function ClassifyHostRequestRoute(request: BusRequest): HostRequestRoute {
    if RequestEndAddr(request).None? then InvalidSpanningRegion
    else match ClassifyRequestRegion(request)
      case RtlPeripheral => ToHostBusHandler
      case NonRtl => ToSystemBus
      case SpansRtlBoundary => InvalidSpanningRegion
  }

  /** The route in plain arithmetic. `width` bytes a beat; a transfer whose own side of the
      bus stays put covers one beat, any other covers all. It is routed to the handler
      if and only if it is not empty and lies in the lower half, to the system bus if and
      only if it is not empty and lies in the upper half, and is refused otherwise. */
  lemma RouteExact(request: BusRequest)
    ensures var width := match request.size case Byte => 1 case Halfword => 2 case Word => 4;
            var stays := if request.we then request.dstFixed else request.srcFixed;
            var n := if stays then width else width * request.burstLen;
            var route := ClassifyHostRequestRoute(request);
            && (route == ToHostBusHandler <==> 0 < n && request.addr + n <= 0x8000_0000)
            && (route == ToSystemBus <==> 0 < n && 0x8000_0000 <= request.addr && request.addr + n <= 0x1_0000_0000)
            && (route == InvalidSpanningRegion <==>
                  n == 0 || request.addr < 0x8000_0000 < request.addr + n || 0x1_0000_0000 < request.addr + n)
  {
    var stays := AddressFixed(request);
    match request.size
    case Byte => assert request.size.Span(1) == 1;
    case Halfword => assert request.size.Span(1) == 2;
    case Word => assert request.size.Span(1) == 4;
  }

  /** Address of one beat of a request. */
  function BeatAddr(request: BusRequest, beat: nat): int {
    if AddressFixed(request) then request.addr else request.addr + request.size.Span(beat)
  }

  /** Whenever a request has an end address, each beat lies between its start and
      that end, so no beat address can overflow. */
  lemma BeatStaysInSpan(request: BusRequest, beat: nat)
    requires RequestEndAddr(request).Some?
    requires beat < request.burstLen || (beat == 0 && AddressFixed(request))
    ensures request.addr <= BeatAddr(request, beat)
    ensures BeatAddr(request, beat) + request.size.ByteCount() - 1 <= RequestEndAddr(request).value
  {
  }

  /** A routed request keeps every beat in the half of the address space that its
      route serves; only requests without an end address or crossing the halves are
      refused. */
  lemma RouteKeepsHalf(request: BusRequest, beat: nat)
    requires beat < request.burstLen || (beat == 0 && AddressFixed(request))
    ensures ClassifyHostRequestRoute(request).ToSystemBus? ==>
              && 0x8000_0000 <= BeatAddr(request, beat)
              && BeatAddr(request, beat) + request.size.ByteCount() - 1 < ADDRESS_SPACE
    ensures ClassifyHostRequestRoute(request).ToHostBusHandler? ==>
              0 <= BeatAddr(request, beat) <= BeatAddr(request, beat) + request.size.ByteCount() - 1 < 0x8000_0000
  {
    if RequestEndAddr(request).Some? {
      BeatStaysInSpan(request, beat);
    }
  }
}
