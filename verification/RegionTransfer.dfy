/** Region transfers: any byte range is split into word bursts, halfwords and bytes,
    each sent as one host request. */
module RegionTransfer {
  import opened Prelude
  import opened BusTypes
  import opened Memories
  import opened SystemBuses
  import opened DirectBurst
  import HandlerSpec

  // ---- The planner ---------------------------------------------------------------

  datatype Piece = Piece(size: AccessSize, beats: nat) {
    function Len(): nat {
      size.Span(beats)
    }
  }

  /** The largest request that may start here: a burst of words, a halfword or a byte. */
  function NextPiece(addr: uint32, remaining: nat): Piece {
    if remaining >= 4 && addr % 4 == 0 then
      Piece(Word, if remaining / 4 < MAX_BURST_BEATS then remaining / 4 else MAX_BURST_BEATS)
    else if remaining >= 2 && addr % 2 == 0 then Piece(Halfword, 1)
    else Piece(Byte, 1)
  }

  predicate RegionFits(start: uint32, len: nat) {
    len == 0 || start + len - 1 < ADDRESS_SPACE
  }

  lemma PieceShape(addr: uint32, remaining: nat)
    requires remaining > 0
    ensures var p := NextPiece(addr, remaining);
            && 0 < p.Len() <= remaining
            && 1 <= p.beats <= MAX_BURST_BEATS && (p.size != Word ==> p.beats == 1)
            && addr % p.size.ByteCount() == 0
  {
  }

  /** The requests issued for the part of a region from `offset` on, as pairs of offset
      and piece. */
  function Plan(start: uint32, len: nat, offset: nat): seq<(nat, Piece)>
    requires RegionFits(start, len) && offset <= len
    decreases len - offset
  {
    if offset == len then []
    else
      PieceShape(start + offset, len - offset);
      var p := NextPiece(start + offset, len - offset);
      [(offset, p)] + Plan(start, len, offset + p.Len())
  }

  lemma PlanStep(issued: seq<(nat, Piece)>, start: uint32, len: nat, offset: nat)
    requires RegionFits(start, len) && offset <= len
    ensures offset == len ==> issued + Plan(start, len, offset) == issued
    ensures offset < len ==>
              var p := NextPiece(start + offset, len - offset);
              && offset + p.Len() <= len
              && issued + Plan(start, len, offset) == (issued + [(offset, p)]) + Plan(start, len, offset + p.Len())
    ensures [] + Plan(start, len, offset) == Plan(start, len, offset)
  {
    if offset < len {
      PieceShape(start + offset, len - offset);
      var p := NextPiece(start + offset, len - offset);
      assert issued + ([(offset, p)] + Plan(start, len, offset + p.Len())) ==
             (issued + [(offset, p)]) + Plan(start, len, offset + p.Len());
    }
  }

  /** Consecutive pieces from `offset` to `end`, each naturally aligned and of legal
      burst length. */
  ghost predicate Tiles(start: uint32, pieces: seq<(nat, Piece)>, offset: nat, end: nat) {
    if |pieces| == 0 then offset == end
    else
      var (at, p) := pieces[0];
      && at == offset && 0 < p.Len() && offset + p.Len() <= end
      && 1 <= p.beats <= MAX_BURST_BEATS && (p.size != Word ==> p.beats == 1)
      && (start + offset) % p.size.ByteCount() == 0
      && Tiles(start, pieces[1..], offset + p.Len(), end)
  }

  /** The planned requests cover the region in increasing order with no gap, no overlap
      and no byte outside it. */
  lemma {:induction false} PlanTiles(start: uint32, len: nat, offset: nat)
    requires RegionFits(start, len) && offset <= len
    ensures Tiles(start, Plan(start, len, offset), offset, len)
    decreases len - offset
  {
    hide NextPiece;
    if offset < len {
      PieceShape(start + offset, len - offset);
      PlanTiles(start, len, offset + NextPiece(start + offset, len - offset).Len());
    }
  }

  /** Bursts needed for `n` bytes at most, rounding up. */
  function BurstsFor(n: nat): nat {
    (n + 262143) / 262144
  }

  lemma {:induction false} ShortTailCount(start: uint32, len: nat, offset: nat)
    requires RegionFits(start, len) && offset <= len && len - offset < 4 && (start + offset) % 4 == 0
    ensures |Plan(start, len, offset)| <= 2
  {
    if offset < len {
      var p := NextPiece(start + offset, len - offset);
      var next := offset + p.Len();
      assert |Plan(start, len, offset)| == 1 + |Plan(start, len, next)|;
      if next < len {
        assert next + 1 == len;
        assert |Plan(start, len, next)| == 1 + |Plan(start, len, len)|;
      }
    }
  }

  lemma {:induction false} AlignedCount(start: uint32, len: nat, offset: nat)
    requires RegionFits(start, len) && offset <= len && (start + offset) % 4 == 0
    ensures |Plan(start, len, offset)| <= BurstsFor(len - offset) + 2
    decreases len - offset
  {
    var remaining := len - offset;
    if remaining < 4 {
      ShortTailCount(start, len, offset);
    } else {
      var next := offset + NextPiece(start + offset, remaining).Len();
      assert |Plan(start, len, offset)| == 1 + |Plan(start, len, next)|;
      if remaining / 4 < MAX_BURST_BEATS {
        assert len - next == remaining % 4;
        ShortTailCount(start, len, next);
      } else {
        assert next == offset + 262144;
        AlignedCount(start, len, next);
      }
    }
  }

  /** A region of `len` bytes takes at most ceil(len / 262144) + 4 requests. */
  lemma PlanCount(start: uint32, len: nat)
    requires RegionFits(start, len)
    ensures |Plan(start, len, 0)| <= BurstsFor(len) + 4
  {
    UnalignedCount(start, len, 0, (4 - start % 4) % 4);
  }

  lemma {:induction false} UnalignedCount(start: uint32, len: nat, offset: nat, missing: nat)
    requires RegionFits(start, len) && offset <= len
    requires missing == (4 - (start + offset) % 4) % 4
    ensures |Plan(start, len, offset)| <=
            BurstsFor(len - offset) + 2 + if missing == 0 then 0 else if missing == 3 then 2 else 1
    decreases missing
  {
    if missing == 0 {
      AlignedCount(start, len, offset);
    } else if offset < len {
      hide NextPiece, BurstsFor;
      UnalignedStep(start + offset, len - offset, missing);
      var step := NextPiece(start + offset, len - offset).Len();
      assert |Plan(start, len, offset)| == 1 + |Plan(start, len, offset + step)|;
      if offset + step < len {
        UnalignedCount(start, len, offset + step, missing - step);
      }
    }
  }

  lemma UnalignedStep(addr: uint32, remaining: nat, missing: nat)
    requires remaining > 0 && 0 < missing == (4 - addr % 4) % 4
    ensures var step := NextPiece(addr, remaining).Len();
            && 0 < step <= remaining && BurstsFor(remaining - step) <= BurstsFor(remaining)
            && (step < remaining ==>
                  && step == (if missing == 2 then 2 else 1)
                  && missing - step == (4 - (addr + step) % 4) % 4)
  {
  }

  // ---- The requests ------------------------------------------------------------------

  function Slice(data: seq<byte>, offset: nat, len: nat): seq<byte>
    requires offset + len <= |data|
  {
    data[offset..offset + len]
  }

  function WriteRequest(addr: uint32, p: Piece, bytes: seq<byte>): BusRequest
    requires |bytes| == p.Len() && p.beats < ADDRESS_SPACE
    requires p.size != Word ==> p.beats == 1
  {
    if p.size.Word? then BurstWrite(addr, Word, p.beats, false, false, bytes)
    else SingleWrite(addr, Scalar(bytes), p.size)
  }

  function ReadRequest(addr: uint32, p: Piece): BusRequest
    requires p.beats < ADDRESS_SPACE
  {
    if p.size.Word? then BurstRead(addr, Word, p.beats, false, false) else SingleRead(addr, p.size)
  }

  /** The request writes exactly this piece of the data, its scalar being the first beat. */
  predicate WritesPiece(request: BusRequest, start: uint32, data: seq<byte>, piece: (nat, Piece)) {
    var (at, p) := piece;
    && request.we && request.addr == start + at && request.size == p.size && request.burstLen == p.beats
    && !request.srcFixed && !request.dstFixed
    && at + p.Len() <= |data| && request.data == data[at..at + p.Len()]
    && p.size.ByteCount() <= p.Len() && Mirrors(request.wdata, data[at..at + p.size.ByteCount()])
  }

  /** The request reads exactly this piece of the region. */
  predicate ReadsPiece(request: BusRequest, start: uint32, piece: (nat, Piece)) {
    request == BusRequest(request.addr, 0, false, piece.1.size, request.burstLen, false, false, [])
    && request.addr == start + piece.0 && request.burstLen == piece.1.beats
  }

  lemma RequestCovers(start: uint32, data: seq<byte>, at: nat, p: Piece)
    requires 1 <= p.beats <= MAX_BURST_BEATS && (p.size != Word ==> p.beats == 1)
    requires start + at < ADDRESS_SPACE && at + p.Len() <= |data|
    ensures |Slice(data, at, p.Len())| == p.Len()
    ensures WritesPiece(WriteRequest(start + at, p, Slice(data, at, p.Len())), start, data, (at, p))
    ensures ReadsPiece(ReadRequest(start + at, p), start, (at, p))
  {
    hide Mirrors, FirstScalar, Scalar;
    var bytes := Slice(data, at, p.Len());
    RequestShape(start + at, p, bytes);
    if p.size.Word? {
      FirstScalarMirrors(bytes, 4);
      assert bytes[..4] == data[at..at + 4];
    } else {
      ScalarMirrors(bytes);
    }
  }

  lemma ScalarMirrors(bytes: seq<byte>)
    requires |bytes| <= 4
    ensures Mirrors(Scalar(bytes), bytes)
  {
    ValueMirrors(bytes);
  }

  /** Either request is an incrementing burst over exactly the piece. */
  lemma RequestShape(addr: uint32, p: Piece, bytes: seq<byte>)
    requires |bytes| == p.Len() && 1 <= p.beats <= MAX_BURST_BEATS && (p.size != Word ==> p.beats == 1)
    ensures var w := WriteRequest(addr, p, bytes);
            && w.addr == addr && w.we && w.size == p.size && w.burstLen == p.beats && !w.dstFixed && w.data == bytes
    ensures var r := ReadRequest(addr, p);
            && r.addr == addr && !r.we && r.size == p.size && r.burstLen == p.beats && !r.srcFixed && r.data == []
  {
    if p.size != Word {
      NarrowKeepsBytes(bytes, p.size);
    }
  }

  /** In a region that lies in one half of the address space no request is refused: in
      the upper half each goes straight to the bus, in the lower half each passes the
      handler's own validation. */
  lemma NoneRefused(start: uint32, data: seq<byte>, offset: nat, p: Piece)
    requires RegionFits(start, |data|) && offset + p.Len() <= |data| && p.Len() > 0
    requires 1 <= p.beats <= MAX_BURST_BEATS && (p.size != Word ==> p.beats == 1)
    ensures var w := WriteRequest(start + offset, p, Slice(data, offset, p.Len()));
            var r := ReadRequest(start + offset, p);
            && (!IsRtlPeripheralAddr(start) ==> Direct(w) && Direct(r))
            && (start + |data| - 1 < 0x8000_0000 ==>
                  && ClassifyHostRequestRoute(w).ToHostBusHandler? && HandlerSpec.SendError(w).None?
                  && ClassifyHostRequestRoute(r).ToHostBusHandler? && HandlerSpec.SendError(r).None?)
            && (IsRtlPeripheralAddr(start + offset) ==> !Direct(w) && !Direct(r))
  {
    hide WriteRequest, ReadRequest, Slice;
    SliceLen(data, offset, p.Len());
    RequestShape(start + offset, p, Slice(data, offset, p.Len()));
  }

  lemma SliceLen(data: seq<byte>, offset: nat, len: nat)
    requires offset + len <= |data|
    ensures |Slice(data, offset, len)| == len
  {
  }

  // ---- What a transfer does to the bus ------------------------------------------------

  /** Bus state after the write requests from `offset` on. */
  function WriteFrom(s: BusState, start: uint32, data: seq<byte>, offset: nat): BusState
    requires RegionFits(start, |data|) && !IsRtlPeripheralAddr(start) && offset <= |data|
    decreases |data| - offset
  {
    if offset == |data| then s
    else
      PieceShape(start + offset, |data| - offset);
      var p := NextPiece(start + offset, |data| - offset);
      NoneRefused(start, data, offset, p);
      var request := WriteRequest(start + offset, p, Slice(data, offset, p.Len()));
      WriteFrom(AfterWrites(s, request, Beats(request)), start, data, offset + p.Len())
  }

  /** Bus state and bytes after the read requests from `offset` on. A burst delivers all
      its bytes; a single beat delivers its scalar, whose low bytes are kept. */
  function ReadFrom(s: BusState, answers: DeviceAnswers, start: uint32, len: nat, offset: nat): (BusState, seq<byte>)
    requires RegionFits(start, len) && !IsRtlPeripheralAddr(start) && offset <= len
    decreases len - offset
  {
    if offset == len then (s, [])
    else
      PieceShape(start + offset, len - offset);
      var p := NextPiece(start + offset, len - offset);
      NoneRefused(start, seq(len, _ => 0), offset, p);
      var request := ReadRequest(start + offset, p);
      var (s', bytes) := AfterReads(s, answers, request, Beats(request));
      Prepend(bytes, ReadFrom(s', answers, start, len, offset + p.Len()))
  }

  function Prepend(bytes: seq<byte>, r: (BusState, seq<byte>)): (BusState, seq<byte>) {
    (r.0, bytes + r.1)
  }

  /** One piece read, then the rest of the region. */
  lemma ReadStep(s: BusState, answers: DeviceAnswers, start: uint32, len: nat, offset: nat, p: Piece)
    requires RegionFits(start, len) && !IsRtlPeripheralAddr(start) && offset < len
    requires p == NextPiece(start + offset, len - offset)
    ensures 0 < p.Len() <= len - offset && p.beats <= MAX_BURST_BEATS && Direct(ReadRequest(start + offset, p))
    ensures var request := ReadRequest(start + offset, p);
            var (s', bytes) := AfterReads(s, answers, request, Beats(request));
            ReadFrom(s, answers, start, len, offset) ==
            Prepend(bytes, ReadFrom(s', answers, start, len, offset + p.Len()))
  {
    hide AfterReads, ReadRequest, NextPiece, Direct, Prepend;
    PieceShape(start + offset, len - offset);
    NoneRefused(start, seq(len, _ => 0), offset, p);
  }

  lemma {:induction false} DramWriteFrom(s: BusState, start: uint32, data: seq<byte>, offset: nat)
    requires MapSound(s.entries) && DramRegion(start, |data|) && offset <= |data|
    requires |data| > 0
    ensures WriteFrom(s, start, data, offset) ==
            s.(mem := Store(s.mem, WrapAdd(start, offset), data[offset..]))
    decreases |data| - offset
  {
    hide MapSound, Store, AfterWrites, NextPiece, WriteRequest, Direct;
    if offset == |data| {
      StoreNothing(s.mem, WrapAdd(start, offset));
      assert data[offset..] == [];
    } else {
      var p := NextPiece(start + offset, |data| - offset);
      PieceShape(start + offset, |data| - offset);
      var bytes := Slice(data, offset, p.Len());
      var request := WriteRequest(start + offset, p, bytes);
      NoneRefused(start, data, offset, p);
      DramPieceWrite(s, start + offset, p, bytes);
      var s' := AfterWrites(s, request, Beats(request));
      DramWriteFrom(s', start, data, offset + p.Len());
      assert data[offset..] == bytes + data[offset + p.Len()..];
      assert start + offset < ADDRESS_SPACE;
      StoreAppend(s.mem, start + offset, bytes, data[offset + p.Len()..]);
      WrapTwice(start, offset, p.Len());
    }
  }

  lemma DramPieceWrite(s: BusState, addr: uint32, p: Piece, bytes: seq<byte>)
    requires MapSound(s.entries) && DramRegion(addr, |bytes|)
    requires |bytes| == p.Len() && 1 <= p.beats <= MAX_BURST_BEATS && (p.size != Word ==> p.beats == 1)
    requires Direct(WriteRequest(addr, p, bytes))
    ensures var request := WriteRequest(addr, p, bytes);
            AfterWrites(s, request, Beats(request)) == s.(mem := Store(s.mem, addr, bytes))
  {
    hide MapSound, Store, AfterWrites, WriteRequest, Direct;
    var request := WriteRequest(addr, p, bytes);
    RequestShape(addr, p, bytes);
    DramBurstWrite(s, request, request.burstLen);
    assert bytes[..|bytes|] == bytes;
  }

  lemma {:induction false} DramReadFrom(s: BusState, answers: DeviceAnswers, start: uint32, len: nat, offset: nat)
    requires MapSound(s.entries) && DramRegion(start, len) && 0 < len && offset <= len
    ensures ReadFrom(s, answers, start, len, offset) == (s, Load(s.mem, WrapAdd(start, offset), len - offset))
    decreases len - offset
  {
    hide MapSound, Load, AfterReads, ReadFrom, NextPiece, ReadRequest, Direct, WrapAdd;
    assert RegionFits(start, len) && !IsRtlPeripheralAddr(start);
    hide DramRegion;
    if offset == len {
      NothingRead(s, answers, start, len);
    } else {
      var p := NextPiece(start + offset, len - offset);
      PieceShape(start + offset, len - offset);
      ReadStep(s, answers, start, len, offset, p);
      SubRegion(start, len, offset, p.Len());
      DramPieceRead(s, answers, start + offset, p);
      DramReadFrom(s, answers, start, len, offset + p.Len());
      WrapTwice(start, offset, p.Len());
      LoadAppend(s.mem, WrapAdd(start, offset), p.Len(), len - offset - p.Len());
    }
  }

  lemma NothingRead(s: BusState, answers: DeviceAnswers, start: uint32, len: nat)
    requires RegionFits(start, len) && !IsRtlPeripheralAddr(start)
    ensures ReadFrom(s, answers, start, len, len) == (s, [])
    ensures Load(s.mem, WrapAdd(start, len), 0) == []
  {
  }

  lemma SubRegion(start: uint32, len: nat, offset: nat, part: nat)
    requires DramRegion(start, len) && offset < len && part <= len - offset
    ensures WrapAdd(start, offset) == start + offset && DramRegion(start + offset, part)
  {
  }

  lemma DramPieceRead(s: BusState, answers: DeviceAnswers, addr: uint32, p: Piece)
    requires MapSound(s.entries) && DramRegion(addr, p.Len()) && p.Len() > 0
    requires 1 <= p.beats <= MAX_BURST_BEATS && (p.size != Word ==> p.beats == 1)
    requires Direct(ReadRequest(addr, p))
    ensures var request := ReadRequest(addr, p);
            AfterReads(s, answers, request, Beats(request)) == (s, Load(s.mem, addr, p.Len()))
  {
    hide MapSound, Load, AfterReads, ReadRequest, Direct;
    var request := ReadRequest(addr, p);
    RequestShape(addr, p, seq(p.Len(), _ => 0));
    DramBurstRead(s, answers, request, request.burstLen);
  }

  lemma ScalarKeepsBytes(bytes: seq<byte>, size: AccessSize)
    requires |bytes| == size.ByteCount()
    ensures Le4(FirstScalar(bytes, size.ByteCount()))[..size.ByteCount()] == bytes
  {
    NarrowKeepsBytes(bytes, size);
    assert bytes[..|bytes|] == bytes;
  }

  // ---- Waiting for a completion -------------------------------------------------------------

  /** `NeverReturns` is no error of the source: the wait loop polls on for ever. */
  datatype DeviceError =
    | TooLong
    | AddressOverflow
    | Rejected(error: HandlerError)
    | TimedOut
    | PayloadMismatch
    | NeverReturns

  /** One poll, and what `has_pending_host_request` says right after it. */
  datatype Polled = Polled(event: Option<BusEvent>, pending: bool)

  /** The completion that the wait loop of a request looks for. */
  predicate Matches(request: BusRequest, event: BusEvent) {
    if request.we then event.HostWriteResponse? && event.addr == request.addr && event.size == request.size
    else event.HostReadResponse? && event.addr == request.addr && event.size == request.size
  }

  /** Where the loop stops, if it does, and the events it passes to the callback. */
  function Await(request: BusRequest, polls: seq<Polled>): (Option<Result<BusEvent, DeviceError>>, seq<BusEvent>) {
    if |polls| == 0 then (None, [])
    else
      match polls[0].event
      case None => Await(request, polls[1..])
      case Some(event) =>
        if Matches(request, event) && !polls[0].pending then (Some(Ok(event)), [])
        else if event.HostRequestTimeout? && event.addr == request.addr then (Some(Err(TimedOut)), [])
        else
          var (outcome, skipped) := Await(request, polls[1..]);
          (outcome, [event] + skipped)
  }

  /** One more poll, after events `skipped` so far. */
  lemma AwaitStep(request: BusRequest, polls: seq<Polled>, i: nat, skipped: seq<BusEvent>)
    requires i < |polls|
    ensures var now := Await(request, polls[i..]);
            var later := Await(request, polls[i + 1..]);
            match polls[i].event
            case None => now == later
            case Some(event) =>
              if Matches(request, event) && !polls[i].pending then now == (Some(Ok(event)), [])
              else if event.HostRequestTimeout? && event.addr == request.addr then now == (Some(Err(TimedOut)), [])
              else now.0 == later.0 && skipped + now.1 == (skipped + [event]) + later.1
    ensures skipped + [] == skipped
  {
    hide Matches;
    assert polls[i..][0] == polls[i] && polls[i..][1..] == polls[i + 1..];
    if polls[i].event.Some? {
      var event, more := polls[i].event.value, Await(request, polls[i + 1..]).1;
      assert skipped + ([event] + more) == (skipped + [event]) + more;
    }
  }

  method AwaitCompletion(request: BusRequest, polls: seq<Polled>)
    returns (outcome: Option<Result<BusEvent, DeviceError>>, skipped: seq<BusEvent>)
    ensures (outcome, skipped) == Await(request, polls)
  {
    hide Matches;
    skipped := [];
    assert polls[0..] == polls && Await(request, []) == (None, []);
    for i := 0 to |polls|
      invariant Await(request, polls).0 == Await(request, polls[i..]).0
      invariant Await(request, polls).1 == skipped + Await(request, polls[i..]).1
    {
      hide Await;
      AwaitStep(request, polls, i, skipped);
      if polls[i].event.Some? {
        var event := polls[i].event.value;
        if Matches(request, event) && !polls[i].pending {
          return Some(Ok(event)), skipped;
        } else if event.HostRequestTimeout? && event.addr == request.addr {
          return Some(Err(TimedOut)), skipped;
        }
        skipped := skipped + [event];
      }
    }
    assert polls[|polls|..] == [] && skipped + [] == skipped;
    outcome := None;
  }

  predicate IsOther(event: BusEvent) {
    event.CpuRead? || event.CpuWrite? || event.TohostTermination?
  }

  /** Events that answer no host request. */
  type OtherEvent = event: BusEvent | IsOther(event) witness TohostTermination(0)

  /** What is polled for a request: polls that find nothing or other events while it is
      pending, then its one completion, the slot being empty. */
  function PollsUntil(traffic: seq<Option<OtherEvent>>, completion: BusEvent): seq<Polled> {
    if |traffic| == 0 then [Polled(Some(completion), false)]
    else [Polled(traffic[0], true)] + PollsUntil(traffic[1..], completion)
  }

  function Others(traffic: seq<Option<OtherEvent>>): seq<BusEvent> {
    if |traffic| == 0 then []
    else (match traffic[0] case None => [] case Some(e) => [e]) + Others(traffic[1..])
  }

  /** The loop ends with a completion that matches or a time-out for its address, having
      passed on all other events and nothing else; any other completion is passed on like
      them, and the loop never ends. */
  lemma {:induction false} AwaitFinds(request: BusRequest, traffic: seq<Option<OtherEvent>>, completion: BusEvent)
    ensures var (outcome, skipped) := Await(request, PollsUntil(traffic, completion));
            if Matches(request, completion) then outcome == Some(Ok(completion)) && skipped == Others(traffic)
            else if completion.HostRequestTimeout? && completion.addr == request.addr then
              outcome == Some(Err(TimedOut)) && skipped == Others(traffic)
            else outcome == None && skipped == Others(traffic) + [completion]
    decreases |traffic|
  {
    if |traffic| == 0 {
      assert PollsUntil(traffic, completion)[1..] == [];
      assert Await(request, []) == (None, []);
    } else {
      assert PollsUntil(traffic, completion)[1..] == PollsUntil(traffic[1..], completion);
      AwaitFinds(request, traffic[1..], completion);
      if traffic[0].Some? {
        assert ([traffic[0].value] + Others(traffic[1..])) + [completion] ==
               [traffic[0].value] + (Others(traffic[1..]) + [completion]);
      } else {
        assert [] + Others(traffic[1..]) == Others(traffic[1..]);
      }
    }
  }

  lemma {:induction false} OthersAreOther(traffic: seq<Option<OtherEvent>>)
    ensures forall event <- Others(traffic) :: IsOther(event)
  {
    if |traffic| > 0 {
      OthersAreOther(traffic[1..]);
    }
  }

  // ---- What one request does ---------------------------------------------------------------

  /** How the RTL half answers a request, given those it was asked before: not at all, or
      with any response. */
  type Target = (seq<BusRequest>, BusRequest) -> Option<BusResponse>

  /** What is polled while a request is pending, given the events heard before. */
  type Traffic = (seq<BusEvent>, BusRequest) -> seq<Option<OtherEvent>>

  datatype Environment = Environment(answers: DeviceAnswers, target: Target, traffic: Traffic)

  /** The system bus, the requests that went to the RTL half, and the events passed to the
      callback. */
  datatype World = World(bus: BusState, asked: seq<BusRequest>, heard: seq<BusEvent>)

  /** Routing a request, and the completion event it leads to. A request that the worker
      refuses ends like one that is never answered. */
  function Serve(w: World, env: Environment, request: BusRequest): (World, BusEvent)
    requires !ClassifyHostRequestRoute(request).InvalidSpanningRegion?
  {
    if Direct(request) then
      var (s, bytes) := Outcome(w.bus, env.answers, request);
      (w.(bus := s), FpgaEvent(request, bytes))
    else if HandlerSpec.SendError(request).Some? then (w, HostRequestTimeout(request.addr))
    else
      (w.(asked := w.asked + [request]),
       match env.target(w.asked, request)
       case None => HostRequestTimeout(request.addr)
       case Some(response) => CompletionEvent(request.addr, request.wdata, response))
  }

  /** Sending one request and waiting for its completion. */
  function Completed(w: World, env: Environment, request: BusRequest): (World, Result<BusEvent, DeviceError>) {
    if ClassifyHostRequestRoute(request).InvalidSpanningRegion? then (w, Err(Rejected(InvalidAddressRange)))
    else
      var (w', completion) := Serve(w, env, request);
      var heard := w.heard + Others(env.traffic(w.heard, request));
      if Matches(request, completion) then (w'.(heard := heard), Ok(completion))
      else if completion.HostRequestTimeout? then (w'.(heard := heard), Err(TimedOut))
      else (w'.(heard := heard + [completion]), Err(NeverReturns))
  }

  /** The bytes that a read completion contributes. */
  function Extract(event: BusEvent, p: Piece): Result<seq<byte>, DeviceError>
    requires event.HostReadResponse? && (p.size != Word ==> p.beats == 1)
  {
    if p.size.Word? then (if |event.burstData| != 4 * p.beats then Err(PayloadMismatch) else Ok(event.burstData))
    else Ok(Le4(event.data)[..p.Len()])
  }

  lemma CompletionMatches(w: World, env: Environment, request: BusRequest)
    ensures var r := Completed(w, env, request).1; r.Ok? ==> Matches(request, r.value)
  {
    hide Serve, Matches, ClassifyHostRequestRoute;
  }

  // ---- What a whole transfer does ------------------------------------------------------------

  /** The pieces from `offset` on are written one after the other, up to the first error. */
  function WriteAll(w: World, env: Environment, start: uint32, data: seq<byte>, offset: nat)
    : (World, Option<DeviceError>)
    requires RegionFits(start, |data|) && offset <= |data|
    decreases |data| - offset
  {
    if offset == |data| then (w, None)
    else
      PieceShape(start + offset, |data| - offset);
      var p := NextPiece(start + offset, |data| - offset);
      var (w', r) := Completed(w, env, WriteRequest(start + offset, p, Slice(data, offset, p.Len())));
      if r.Err? then (w', Some(r.error)) else WriteAll(w', env, start, data, offset + p.Len())
  }

  /** The pieces from `offset` on are read one after the other, up to the first error. */
  function ReadAll(w: World, env: Environment, start: uint32, len: nat, offset: nat)
    : (World, Result<seq<byte>, DeviceError>)
    requires RegionFits(start, len) && offset <= len
    decreases len - offset
  {
    if offset == len then (w, Ok([]))
    else
      PieceShape(start + offset, len - offset);
      var p := NextPiece(start + offset, len - offset);
      var request := ReadRequest(start + offset, p);
      RequestShape(start + offset, p, seq(p.Len(), _ => 0));
      CompletionMatches(w, env, request);
      var (w', r) := Completed(w, env, request);
      if r.Err? then (w', Err(r.error))
      else
        match Extract(r.value, p)
        case Err(e) => (w', Err(e))
        case Ok(bytes) => AddFront(bytes, ReadAll(w', env, start, len, offset + p.Len()))
  }

  function AddFront(bytes: seq<byte>, r: (World, Result<seq<byte>, DeviceError>))
    : (World, Result<seq<byte>, DeviceError>)
  {
    (r.0, match r.1 case Ok(more) => Ok(bytes + more) case Err(e) => Err(e))
  }

  lemma AddFrontTwice(bytes: seq<byte>, more: seq<byte>, r: (World, Result<seq<byte>, DeviceError>))
    ensures AddFront(bytes, AddFront(more, r)) == AddFront(bytes + more, r)
    ensures AddFront([], r) == r
    ensures AddFront(bytes, (r.0, Ok([]))) == (r.0, Ok(bytes))
  {
    if r.1.Ok? {
      assert bytes + (more + r.1.value) == (bytes + more) + r.1.value;
      assert [] + r.1.value == r.1.value;
    }
    assert bytes + [] == bytes;
  }

  /** From `w` to `w'` the callback has heard other events only: no completion was
      discarded. */
  ghost predicate HeardOthers(w: World, w': World) {
    w.heard <= w'.heard && forall event <- w'.heard[|w.heard|..] :: IsOther(event)
  }

  lemma HeardMore(w: World, w': World, w'': World)
    requires HeardOthers(w, w') && HeardOthers(w', w'')
    ensures HeardOthers(w, w'')
  {
    assert w''.heard[|w.heard|..] == w'.heard[|w.heard|..] + w''.heard[|w'.heard|..];
  }

  lemma HeardTraffic(w: World, w': World, traffic: seq<Option<OtherEvent>>)
    requires w'.heard == w.heard + Others(traffic)
    ensures HeardOthers(w, w')
  {
    OthersAreOther(traffic);
    assert w'.heard[|w.heard|..] == Others(traffic);
  }

  /** A request outside the RTL half is served at once. */
  lemma DirectCompletes(w: World, env: Environment, request: BusRequest)
    requires Direct(request)
    ensures var (s, bytes) := Outcome(w.bus, env.answers, request);
            var (w', r) := Completed(w, env, request);
            && w'.bus == s && w'.asked == w.asked && HeardOthers(w, w')
            && r == Ok(FpgaEvent(request, bytes))
  {
    hide AfterWrites, AfterReads, FirstScalar, Others;
    HeardTraffic(w, Completed(w, env, request).0, env.traffic(w.heard, request));
  }

  /** In the upper half nothing can fail, the target is never asked, and no completion is
      discarded. */
  lemma {:induction false} UpperWrite(w: World, env: Environment, start: uint32, data: seq<byte>, offset: nat)
    requires RegionFits(start, |data|) && !IsRtlPeripheralAddr(start) && offset <= |data|
    ensures var (w', e) := WriteAll(w, env, start, data, offset);
            && e == None && w'.bus == WriteFrom(w.bus, start, data, offset)
            && w'.asked == w.asked && HeardOthers(w, w')
    decreases |data| - offset
  {
    hide NextPiece, WriteRequest, Slice, AfterWrites, AfterReads, FpgaEvent, Direct, Completed, HeardOthers;
    if offset == |data| {
      HeardNothing(w);
    } else {
      PieceShape(start + offset, |data| - offset);
      var p := NextPiece(start + offset, |data| - offset);
      SliceLen(data, offset, p.Len());
      NoneRefused(start, data, offset, p);
      var request := WriteRequest(start + offset, p, Slice(data, offset, p.Len()));
      RequestShape(start + offset, p, Slice(data, offset, p.Len()));
      DirectCompletes(w, env, request);
      var w' := Completed(w, env, request).0;
      UpperWrite(w', env, start, data, offset + p.Len());
      HeardMore(w, w', WriteAll(w, env, start, data, offset).0);
    }
  }

  lemma HeardNothing(w: World)
    ensures HeardOthers(w, w)
  {
  }

  lemma {:induction false} UpperRead(w: World, env: Environment, start: uint32, len: nat, offset: nat)
    requires RegionFits(start, len) && !IsRtlPeripheralAddr(start) && offset <= len
    ensures var (s, bytes) := ReadFrom(w.bus, env.answers, start, len, offset);
            var (w', r) := ReadAll(w, env, start, len, offset);
            && r == Ok(bytes) && w'.bus == s && w'.asked == w.asked && HeardOthers(w, w')
    decreases len - offset
  {
    hide NextPiece, ReadRequest, AfterReads, Extract, Direct, Completed, HeardOthers;
    if offset == len {
      HeardNothing(w);
    } else {
      PieceShape(start + offset, len - offset);
      var p := NextPiece(start + offset, len - offset);
      ReadStep(w.bus, env.answers, start, len, offset, p);
      var request := ReadRequest(start + offset, p);
      RequestShape(start + offset, p, seq(p.Len(), _ => 0));
      UpperPieceRead(w, env, request, p);
      var w' := Completed(w, env, request).0;
      UpperRead(w', env, start, len, offset + p.Len());
      HeardMore(w, w', ReadAll(w, env, start, len, offset).0);
    }
  }

  lemma UpperPieceRead(w: World, env: Environment, request: BusRequest, p: Piece)
    requires Direct(request) && !request.we && request.size == p.size && request.burstLen == p.beats
    requires 1 <= p.beats && (p.size != Word ==> p.beats == 1)
    ensures var (s, bytes) := AfterReads(w.bus, env.answers, request, Beats(request));
            var (w', r) := Completed(w, env, request);
            && w'.bus == s && w'.asked == w.asked && HeardOthers(w, w')
            && r.Ok? && r.value.HostReadResponse? && Extract(r.value, p) == Ok(bytes)
  {
    hide AfterReads, Le4, FirstScalar, Completed;
    DirectCompletes(w, env, request);
    var (s, bytes) := AfterReads(w.bus, env.answers, request, Beats(request));
    if p.size != Word {
      ScalarKeepsBytes(bytes, p.size);
    }
  }

  /** Why a transfer in the RTL half stops, told by the target's answer to the last request
      asked: none, one of another kind or size, or for a read burst one of another
      length. */
  ghost predicate Explained(env: Environment, w: World, e: DeviceError) {
    && |w.asked| > 0
    && var last := w.asked[|w.asked| - 1];
       var answer := env.target(w.asked[..|w.asked| - 1], last);
       match e
       case TimedOut => answer == None
       case NeverReturns => answer.Some? && (answer.value.we != last.we || answer.value.size != last.size)
       case PayloadMismatch => !last.we && answer.Some? && |answer.value.data| != last.size.Span(last.burstLen)
       case _ => false
  }

  lemma LowerRequest(w: World, env: Environment, request: BusRequest)
    requires ClassifyHostRequestRoute(request).ToHostBusHandler? && HandlerSpec.SendError(request).None?
    ensures var (w', r) := Completed(w, env, request);
            && w'.bus == w.bus && w'.asked == w.asked + [request]
            && (r.Err? ==> Explained(env, w', r.error))
            && (r.Ok? ==> Matches(request, r.value) && env.target(w.asked, request).Some?
                          && (!request.we ==>
                                && r.value.data == env.target(w.asked, request).value.rdata
                                && r.value.burstData == env.target(w.asked, request).value.data))
  {
    hide ClassifyHostRequestRoute, HandlerSpec.SendError, Others;
    var asked := w.asked + [request];
    assert asked[..|asked| - 1] == w.asked;
  }

  /** In the lower half the bus is untouched. The target is asked to write the planned
      pieces, each with its own bytes, in order and up to the first failure, and there is a
      failure only for want of a proper answer. */
  lemma {:induction false} LowerWrite(w: World, env: Environment, start: uint32, data: seq<byte>, offset: nat)
    requires RegionFits(start, |data|) && start + |data| - 1 < 0x8000_0000 && offset <= |data|
    ensures var (w', e) := WriteAll(w, env, start, data, offset);
            var plan := Plan(start, |data|, offset);
            && w'.bus == w.bus && w.asked <= w'.asked && |w'.asked| <= |w.asked| + |plan|
            && (forall k :: |w.asked| <= k < |w'.asked| ==>
                  WritesPiece(w'.asked[k], start, data, plan[k - |w.asked|]))
            && (e.Some? ==> Explained(env, w', e.value))
            && (e == None ==> |w'.asked| == |w.asked| + |plan|)
    decreases |data| - offset
  {
    hide NextPiece, WriteRequest, Slice, Completed, Explained, HandlerSpec.SendError, WritesPiece;
    if offset < |data| {
      PieceShape(start + offset, |data| - offset);
      var p := NextPiece(start + offset, |data| - offset);
      SliceLen(data, offset, p.Len());
      NoneRefused(start, data, offset, p);
      RequestCovers(start, data, offset, p);
      var request := WriteRequest(start + offset, p, Slice(data, offset, p.Len()));
      LowerRequest(w, env, request);
      var w' := Completed(w, env, request).0;
      LowerWrite(w', env, start, data, offset + p.Len());
    }
  }

  /** The bytes that the target's answer to a request contributes: all data of a burst, the
      low bytes of the scalar of a single beat. */
  ghost predicate AnswerHolds(env: Environment, before: seq<BusRequest>, request: BusRequest, p: Piece,
                              bytes: seq<byte>) {
    var answer := env.target(before, request);
    answer.Some? &&
    if p.size.Word? then bytes == answer.value.data
    else |bytes| <= 4 && bytes == Le4(answer.value.rdata)[..|bytes|]
  }

  /** The k-th request read its piece, whose bytes are in place. `value` starts at
      `offset` of the region. */
  ghost predicate PieceRead(env: Environment, asked: seq<BusRequest>, k: nat, start: uint32, offset: nat,
                            value: seq<byte>, piece: (nat, Piece)) {
    var (at, p) := piece;
    && k < |asked| && ReadsPiece(asked[k], start, piece)
    && offset <= at && at - offset + p.Len() <= |value|
    && AnswerHolds(env, asked[..k], asked[k], p, value[at - offset..at - offset + p.Len()])
  }

  /** The requests from number `first` on read the planned pieces, one each. */
  ghost predicate PiecesRead(env: Environment, asked: seq<BusRequest>, first: nat, start: uint32, offset: nat,
                             value: seq<byte>, plan: seq<(nat, Piece)>) {
    && |asked| == first + |plan|
    && forall i :: 0 <= i < |plan| ==> PieceRead(env, asked, first + i, start, offset, value, plan[i])
  }

  /** So is it for reading, where a burst of the wrong length is an error too. On success
      the region is made of the answers to the planned pieces, each in its place. */
  lemma {:induction false} LowerRead(w: World, env: Environment, start: uint32, len: nat, offset: nat)
    requires RegionFits(start, len) && start + len - 1 < 0x8000_0000 && offset <= len
    ensures var (w', r) := ReadAll(w, env, start, len, offset);
            var plan := Plan(start, len, offset);
            && w'.bus == w.bus && w.asked <= w'.asked
            && (r.Err? ==> Explained(env, w', r.error))
            && (r.Ok? ==>
                  && |r.value| == len - offset
                  && PiecesRead(env, w'.asked, |w.asked|, start, offset, r.value, plan))
    decreases len - offset
  {
    hide NextPiece, ReadRequest, Completed, Explained, HandlerSpec.SendError, Extract, PiecesRead;
    if offset == len {
      NoPieces(env, w.asked, start, offset);
    } else {
      PieceShape(start + offset, len - offset);
      var p := NextPiece(start + offset, len - offset);
      NoneRefused(start, seq(len, _ => 0), offset, p);
      var request := ReadRequest(start + offset, p);
      RequestShape(start + offset, p, seq(p.Len(), _ => 0));
      LowerRequest(w, env, request);
      var (w', r) := Completed(w, env, request);
      if r.Ok? {
        LowerExtract(env, w, w', request, r.value, p);
        LowerRead(w', env, start, len, offset + p.Len());
        var (final, rest) := ReadAll(w', env, start, len, offset + p.Len());
        if Extract(r.value, p).Ok? && rest.Ok? {
          var bytes := Extract(r.value, p).value;
          RequestCovers(start, seq(len, _ => 0), offset, p);
          PieceThenRest(env, w.asked, request, final.asked, start, offset, bytes, rest.value, p,
                        Plan(start, len, offset + p.Len()));
        }
      }
    }
  }

  lemma NoPieces(env: Environment, asked: seq<BusRequest>, start: uint32, offset: nat)
    ensures PiecesRead(env, asked, |asked|, start, offset, [], [])
  {
  }

  lemma PieceThenRest(env: Environment, before: seq<BusRequest>, request: BusRequest, asked: seq<BusRequest>,
                      start: uint32, offset: nat, bytes: seq<byte>, more: seq<byte>, p: Piece,
                      plan: seq<(nat, Piece)>)
    requires before + [request] <= asked && ReadsPiece(request, start, (offset, p)) && |bytes| == p.Len()
    requires AnswerHolds(env, before, request, p, bytes)
    requires PiecesRead(env, asked, |before| + 1, start, offset + p.Len(), more, plan)
    ensures PiecesRead(env, asked, |before|, start, offset, bytes + more, [(offset, p)] + plan)
  {
    hide PieceRead, ReadsPiece, AnswerHolds;
    var all := [(offset, p)] + plan;
    FirstPieceRead(env, before, request, asked, start, offset, bytes, more, p);
    forall i | 0 <= i < |all|
      ensures PieceRead(env, asked, |before| + i, start, offset, bytes + more, all[i])
    {
      if i > 0 {
        assert PieceRead(env, asked, |before| + 1 + (i - 1), start, offset + p.Len(), more, plan[i - 1]);
        LaterPieceRead(env, asked, |before| + i, start, offset, bytes, more, all[i]);
      }
    }
  }

  lemma FirstPieceRead(env: Environment, before: seq<BusRequest>, request: BusRequest, asked: seq<BusRequest>,
                       start: uint32, offset: nat, bytes: seq<byte>, more: seq<byte>, p: Piece)
    requires before + [request] <= asked && ReadsPiece(request, start, (offset, p)) && |bytes| == p.Len()
    requires AnswerHolds(env, before, request, p, bytes)
    ensures PieceRead(env, asked, |before|, start, offset, bytes + more, (offset, p))
  {
    assert asked[..|before|] == before && asked[|before|] == request;
    assert (bytes + more)[0..p.Len()] == bytes;
  }

  lemma LaterPieceRead(env: Environment, asked: seq<BusRequest>, k: nat, start: uint32, offset: nat,
                       bytes: seq<byte>, more: seq<byte>, piece: (nat, Piece))
    requires PieceRead(env, asked, k, start, offset + |bytes|, more, piece)
    ensures PieceRead(env, asked, k, start, offset, bytes + more, piece)
  {
    var (at, p) := piece;
    var from := at - offset - |bytes|;
    assert (bytes + more)[at - offset..at - offset + p.Len()] == more[from..from + p.Len()];
  }

  lemma LowerExtract(env: Environment, w: World, w': World, request: BusRequest, event: BusEvent, p: Piece)
    requires !request.we && request.size == p.size && request.burstLen == p.beats && (p.size != Word ==> p.beats == 1)
    requires Matches(request, event) && w'.asked == w.asked + [request]
    requires env.target(w.asked, request).Some? && event.burstData == env.target(w.asked, request).value.data
    requires event.data == env.target(w.asked, request).value.rdata
    ensures match Extract(event, p)
            case Ok(bytes) => |bytes| == p.Len() && AnswerHolds(env, w.asked, request, p, bytes)
            case Err(e) => Explained(env, w', e)
  {
    assert w'.asked[..|w'.asked| - 1] == w.asked;
  }

  /** Writing a DRAM region is one bytewise store of its data: every byte lands at its
      address and every other address, the memory map and all devices stay as they were. */
  lemma RegionWriteIsStore(w: World, env: Environment, start: uint32, data: seq<byte>)
    requires MapSound(w.bus.entries) && DramRegion(start, |data|) && !IsRtlPeripheralAddr(start)
    ensures RegionFits(start, |data|)
    ensures var (w', e) := WriteAll(w, env, start, data, 0);
            && e == None && w'.bus == w.bus.(mem := Store(w.bus.mem, start, data))
            && w'.asked == w.asked && HeardOthers(w, w')
    ensures forall i :: 0 <= i < |data| ==> ByteAt(Store(w.bus.mem, start, data), start + i) == data[i]
    ensures forall other: uint32 :: !(start <= other < start + |data|) ==>
              ByteAt(Store(w.bus.mem, start, data), other) == ByteAt(w.bus.mem, other)
  {
    hide MapSound, WriteFrom, WriteAll, Store, ByteAt, HeardOthers;
    UpperWrite(w, env, start, data, 0);
    DramWriteAll(w.bus, start, data);
    forall i | 0 <= i < |data|
      ensures ByteAt(Store(w.bus.mem, start, data), start + i) == data[i]
    {
      StoredByte(w.bus.mem, start, data, i);
    }
    forall other: uint32 | !(start <= other < start + |data|)
      ensures ByteAt(Store(w.bus.mem, start, data), other) == ByteAt(w.bus.mem, other)
    {
      Untouched(w.bus.mem, start, data, other);
    }
  }

  lemma DramWriteAll(s: BusState, start: uint32, data: seq<byte>)
    requires MapSound(s.entries) && DramRegion(start, |data|) && !IsRtlPeripheralAddr(start)
    ensures RegionFits(start, |data|)
    ensures WriteFrom(s, start, data, 0) == s.(mem := Store(s.mem, start, data))
  {
    hide MapSound, WriteFrom, Store;
    if |data| == 0 {
      EmptyTransfer(s, (_, _) => None, start, data);
    } else {
      DramWriteFrom(s, start, data, 0);
      assert data[0..] == data;
    }
  }

  lemma EmptyTransfer(s: BusState, answers: DeviceAnswers, start: uint32, data: seq<byte>)
    requires !IsRtlPeripheralAddr(start) && data == []
    ensures WriteFrom(s, start, data, 0) == s && Store(s.mem, start, data) == s.mem
    ensures ReadFrom(s, answers, start, 0, 0) == (s, [])
  {
  }

  /** The region round trip: what is written to a DRAM region is read back from it. */
  lemma RegionRoundTrip(w: World, env: Environment, start: uint32, data: seq<byte>)
    requires MapSound(w.bus.entries) && DramRegion(start, |data|) && !IsRtlPeripheralAddr(start)
    ensures RegionFits(start, |data|)
    ensures var (written, e) := WriteAll(w, env, start, data, 0);
            var (after, r) := ReadAll(written, env, start, |data|, 0);
            e == None && r == Ok(data) && after.bus == written.bus
  {
    hide MapSound, WriteFrom, ReadFrom, WriteAll, ReadAll, Store, Load, ByteAt, HeardOthers;
    RegionWriteIsStore(w, env, start, data);
    var written := WriteAll(w, env, start, data, 0).0;
    UpperRead(written, env, start, |data|, 0);
    if |data| == 0 {
      EmptyTransfer(written.bus, env.answers, start, data);
    } else {
      assert WrapAdd(start, 0) == start;
      DramReadFrom(written.bus, env.answers, start, |data|, 0);
      LoadAfterStore(w.bus.mem, start, data);
    }
  }

  // ---- The runtime ------------------------------------------------------------------------

  class DeviceRuntime {
    const bus: SystemBus
    const target: Target
    const traffic: Traffic
    var asked: seq<BusRequest>
    /** Calls of the event callback. */
    var heard: seq<BusEvent>

    ghost function State(): World
      reads this, bus, bus.memory
    {
      World(bus.State(), asked, heard)
    }

    ghost function Env(): Environment {
      Environment(bus.answers, target, traffic)
    }

    constructor (bus: SystemBus, target: Target, traffic: Traffic)
      ensures this.bus == bus && this.target == target && this.traffic == traffic && asked == [] && heard == []
    {
      this.bus, this.target, this.traffic := bus, target, traffic;
      asked, heard := [], [];
    }

    /** The worker's side of a request: what `send_host_request` leads to. */
    method ServeRequest(request: BusRequest) returns (completion: BusEvent)
      requires !ClassifyHostRequestRoute(request).InvalidSpanningRegion?
      modifies this`asked, bus`accesses, bus.memory
      ensures (State(), completion) == Serve(old(State()), Env(), request)
    {
      if Direct(request) {
        completion := ProcessSystemBusRequest(request, bus);
      } else if HandlerSpec.SendError(request).Some? {
        completion := HostRequestTimeout(request.addr);
      } else {
        var answer := target(asked, request);
        asked := asked + [request];
        completion := match answer
          case None => HostRequestTimeout(request.addr)
          case Some(response) => CompletionEvent(request.addr, request.wdata, response);
      }
    }

    /** Sends a request and polls until its completion arrives. */
    method Transact(request: BusRequest) returns (r: Result<BusEvent, DeviceError>)
      modifies this`asked, this`heard, bus`accesses, bus.memory
      ensures (State(), r) == Completed(old(State()), Env(), request)
    {
      hide Serve, Direct, HandlerSpec.SendError;
      if ClassifyHostRequestRoute(request).InvalidSpanningRegion? {
        return Err(Rejected(InvalidAddressRange));
      }
      var others := traffic(heard, request);
      ghost var before := State();
      var completion := ServeRequest(request);
      CompletionAddress(before, Env(), request);
      AwaitFinds(request, others, completion);
      var outcome, skipped := AwaitCompletion(request, PollsUntil(others, completion));
      ghost var told := heard;
      heard := heard + skipped;
      assert (told + Others(others)) + [completion] == told + (Others(others) + [completion]);
      r := if outcome.None? then Err(NeverReturns) else outcome.value;
    }

    /** The whole effect, for every region: the plan is carried out up to the first error. */
    method WriteMemoryRegion(start: uint32, data: seq<byte>)
        returns (r: Result<Unit, DeviceError>, ghost issued: seq<(nat, Piece)>)
      modifies this`asked, this`heard, bus`accesses, bus.memory
      ensures |data| >= ADDRESS_SPACE ==> r == Err(TooLong) && State() == old(State())
      ensures |data| < ADDRESS_SPACE < start + |data| ==> r == Err(AddressOverflow) && State() == old(State())
      ensures |data| < ADDRESS_SPACE && start + |data| <= ADDRESS_SPACE ==>
                var (w, e) := WriteAll(old(State()), Env(), start, data, 0);
                && State() == w && r == (match e case None => Ok(Unit) case Some(error) => Err(error))
                && issued <= Plan(start, |data|, 0) && (r.Ok? ==> issued == Plan(start, |data|, 0))
    {
      hide WriteRequest, ReadRequest, NextPiece, Completed, Slice, Plan;
      if |data| >= ADDRESS_SPACE {
        return Err(TooLong), [];
      }
      if |data| > 0 && start + (|data| - 1) >= ADDRESS_SPACE {
        return Err(AddressOverflow), [];
      }
      issued := [];
      PlanStep(issued, start, |data|, 0);
      var offset := 0;
      while offset < |data|
        invariant offset <= |data|
        invariant issued + Plan(start, |data|, offset) == Plan(start, |data|, 0)
        invariant WriteAll(old(State()), Env(), start, data, 0) == WriteAll(State(), Env(), start, data, offset)
      {
        var addr := start + offset;
        var p := NextPiece(addr, |data| - offset);
        PieceShape(addr, |data| - offset);
        SliceLen(data, offset, p.Len());
        var request := WriteRequest(addr, p, Slice(data, offset, p.Len()));
        var event := Transact(request);
        if event.Err? {
          return Err(event.error), issued;
        }
        PlanStep(issued, start, |data|, offset);
        issued := issued + [(offset, p)];
        offset := offset + p.Len();
      }
      PlanStep(issued, start, |data|, offset);
      r := Ok(Unit);
    }

    method ReadMemoryRegion(start: uint32, size: uint32)
        returns (r: Result<seq<byte>, DeviceError>, ghost issued: seq<(nat, Piece)>)
      modifies this`asked, this`heard, bus`accesses, bus.memory
      ensures ADDRESS_SPACE < start + size ==> r == Err(AddressOverflow) && State() == old(State())
      ensures start + size <= ADDRESS_SPACE ==>
                && (State(), r) == ReadAll(old(State()), Env(), start, size, 0)
                && issued <= Plan(start, size, 0) && (r.Ok? ==> issued == Plan(start, size, 0))
    {
      hide ReadRequest, NextPiece, Completed, AddFront, Plan, Le4, FirstScalar;
      if size > 0 && start + (size - 1) >= ADDRESS_SPACE {
        return Err(AddressOverflow), [];
      }
      issued := [];
      PlanStep(issued, start, size, 0);
      var data: seq<byte> := [];
      var offset := 0;
      AddFrontTwice([], [], ReadAll(State(), Env(), start, size, 0));
      while offset < size
        invariant offset <= size
        invariant issued + Plan(start, size, offset) == Plan(start, size, 0)
        invariant ReadAll(old(State()), Env(), start, size, 0) ==
                  AddFront(data, ReadAll(State(), Env(), start, size, offset))
      {
        var addr := start + offset;
        var p := NextPiece(addr, size - offset);
        PieceShape(addr, size - offset);
        var request := ReadRequest(addr, p);
        RequestShape(addr, p, seq(p.Len(), _ => 0));
        CompletionMatches(State(), Env(), request);
        var event := Transact(request);
        if event.Err? {
          AddFrontError(data, State(), event.error);
          return Err(event.error), issued;
        }
        var bytes;
        if p.size.Word? {
          bytes := event.value.burstData;
          if |bytes| != p.beats * 4 {
            AddFrontError(data, State(), PayloadMismatch);
            return Err(PayloadMismatch), issued;
          }
        } else {
          bytes := Le4(event.value.data)[..p.Len()];
        }
        AddFrontTwice(data, bytes, ReadAll(State(), Env(), start, size, offset + p.Len()));
        data := data + bytes;
        PlanStep(issued, start, size, offset);
        issued := issued + [(offset, p)];
        offset := offset + p.Len();
      }
      PlanStep(issued, start, size, offset);
      AddFrontTwice(data, [], (State(), Ok([])));
      r := Ok(data);
    }
  }

  lemma CompletionAddress(w: World, env: Environment, request: BusRequest)
    requires !ClassifyHostRequestRoute(request).InvalidSpanningRegion?
    ensures var e := Serve(w, env, request).1; e.HostRequestTimeout? ==> e.addr == request.addr
    ensures Serve(w, env, request).0.heard == w.heard
  {
  }

  lemma AddFrontError(bytes: seq<byte>, w: World, e: DeviceError)
    ensures AddFront(bytes, (w, Err(e))) == (w, Err(e))
  {
  }
}
