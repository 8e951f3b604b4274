/** Direct bursts that do not increment through DRAM: to other devices, beat by beat, and
    to one DRAM address. */
module BurstEffects {
  import opened Prelude
  import opened BusTypes
  import opened Memories
  import opened SystemBuses
  import opened DirectBurst

  /** Address of beat `k`, counted in beats of `width` bytes from the start. */
  function BeatStart(request: BusRequest, k: nat): int {
    request.addr + if AddressFixed(request) then 0 else request.size.ByteCount() * k
  }

  /** Every beat of the request falls into this range. */
  predicate InRange(entry: MemoryMapEntry, request: BusRequest) {
    && entry.base <= request.addr
    && (if AddressFixed(request) then request.addr < entry.end
        else request.addr + request.size.ByteCount() * (Beats(request) - 1) < entry.end)
  }

  lemma BeatInRange(entry: MemoryMapEntry, request: BusRequest, k: nat)
    requires InRange(entry, request) && Direct(request) && k < Beats(request)
    ensures AddrOf(request, k) == BeatStart(request, k)
    ensures entry.base <= BeatStart(request, k) < entry.end
  {
    SizesExact(request.size, k);
    hide ClassifyHostRequestRoute;
  }

  /** The value of beat `k` of a write: its own bytes of the payload; failing that, the
      scalar of the request for the first beat and zero for the others. */
  predicate BeatCarries(value: uint32, request: BusRequest, k: nat) {
    var width := request.size.ByteCount();
    if width * k + width <= |request.data| then
      forall j :: 0 <= j < 4 ==> Le4(value)[j] == if j < width then request.data[width * k + j] else 0
    else value == if k == 0 then request.wdata % Capacity(request.size) else 0
  }

  /** The access that beat `k` of a write makes. */
  predicate WritesBeat(access: DeviceAccess, entry: MemoryMapEntry, request: BusRequest, k: nat) {
    && access.id == entry.id && access.we && access.size == request.size
    && access.offset == BeatStart(request, k) - entry.base
    && BeatCarries(access.value, request, k)
  }

  lemma BeatValueCarries(request: BusRequest, k: nat)
    ensures BeatCarries(BeatValue(request, k) % Capacity(request.size), request, k)
  {
    hide Le4;
    var width := request.size.ByteCount();
    SizesExact(request.size, k);
    if width * k + width <= |request.data| {
      var beat := request.data[width * k..width * k + width];
      ValueMirrors(beat);
      FitsBeat(beat, request.size);
    }
  }

  lemma BeatReaches(s: BusState, i: nat, request: BusRequest, k: nat)
    requires MapSound(s.entries) && i < |s.entries| && s.entries[i].id != Dram
    requires Direct(request) && InRange(s.entries[i], request) && k < Beats(request)
    ensures var s' := BusWrite(s, AddrOf(request, k), request.size, BeatValue(request, k));
            && s'.mem == s.mem && s'.entries == s.entries && |s'.log| == |s.log| + 1 && s'.log[..|s.log|] == s.log
            && WritesBeat(s'.log[|s.log|], s.entries[i], request, k)
  {
    BeatInRange(s.entries[i], request, k);
    hide MapSound, Direct, InRange, BusWrite, AddrOf, BeatValue, BeatCarries, Capacity, BeatStart;
    DeviceWrite(s, i, AddrOf(request, k), request.size, BeatValue(request, k));
    BeatValueCarries(request, k);
  }

  lemma FitsBeat(bs: seq<byte>, size: AccessSize)
    requires |bs| == size.ByteCount()
    ensures Scalar(bs) % Capacity(size) == Scalar(bs)
  {
    LeValueUnfolds(bs);
  }

  /** A write burst to a device other than DRAM reaches it once a beat, in order, with the
      beat's bytes, and changes nothing else. */
  lemma {:induction false} DeviceBurstWrite(s: BusState, i: nat, request: BusRequest, n: nat)
    requires MapSound(s.entries) && i < |s.entries| && s.entries[i].id != Dram
    requires Direct(request) && InRange(s.entries[i], request) && n <= Beats(request)
    ensures var s' := AfterWrites(s, request, n);
            && s'.mem == s.mem && s'.entries == s.entries && |s'.log| == |s.log| + n && s'.log[..|s.log|] == s.log
            && forall k :: |s.log| <= k < |s'.log| ==> WritesBeat(s'.log[k], s.entries[i], request, k - |s.log|)
  {
    hide MapSound, Direct, InRange, BusWrite, WritesBeat, AddrOf, BeatValue;
    if n > 0 {
      DeviceBurstWrite(s, i, request, n - 1);
      BeatReaches(AfterWrites(s, request, n - 1), i, request, n - 1);
    }
  }

  /** The access that beat `k` of a read makes, and the bytes it adds: those of the answer,
      or zeros when the device reports an error. */
  predicate ReadsBeat(before: seq<DeviceAccess>, access: DeviceAccess, answers: DeviceAnswers, bytes: seq<byte>,
                      entry: MemoryMapEntry, request: BusRequest, k: nat) {
    && access == DeviceAccess(entry.id, access.offset, request.size, false, 0)
    && access.offset == BeatStart(request, k) - entry.base
    && |bytes| == request.size.ByteCount()
    && forall j :: 0 <= j < |bytes| ==>
         bytes[j] == match answers(before, access) case None => 0 case Some(v) => Le4(v)[j]
  }

  lemma BeatAnswered(s: BusState, answers: DeviceAnswers, i: nat, request: BusRequest, k: nat)
    requires MapSound(s.entries) && i < |s.entries| && s.entries[i].id != Dram
    requires Direct(request) && InRange(s.entries[i], request) && k < Beats(request)
    ensures var (s', v) := BusRead(s, answers, AddrOf(request, k), request.size);
            && s'.mem == s.mem && s'.entries == s.entries && |s'.log| == |s.log| + 1 && s'.log[..|s.log|] == s.log
            && ReadsBeat(s.log, s'.log[|s.log|], answers, Le4(v)[..request.size.ByteCount()],
                         s.entries[i], request, k)
  {
    BeatInRange(s.entries[i], request, k);
    hide MapSound, Direct, InRange, BusRead, AddrOf;
    DeviceRead(s, answers, i, AddrOf(request, k), request.size);
    var access := DeviceAccess(s.entries[i].id, AddrOf(request, k) - s.entries[i].base, request.size, false, 0);
    if answers(s.log, access).Some? {
      CutBytes(answers(s.log, access).value, request.size);
    }
  }

  lemma CutBytes(v: uint32, size: AccessSize)
    ensures Le4(v % Capacity(size))[..size.ByteCount()] == Le4(v)[..size.ByteCount()]
  {
    match size
    case Byte =>
    case Halfword => LowHalf(v);
    case Word =>
  }

  /** The accesses since `start` are those of a read's beats, and `bytes` what they found. */
  ghost predicate BeatsRead(start: nat, log: seq<DeviceAccess>, answers: DeviceAnswers, bytes: seq<byte>,
                      entry: MemoryMapEntry, request: BusRequest) {
    var width := request.size.ByteCount();
    && start <= |log| && |bytes| == width * (|log| - start)
    && forall k :: start <= k < |log| ==>
         var from := width * (k - start);
         && 0 <= from <= from + width <= |bytes|
         && ReadsBeat(log[..k], log[k], answers, bytes[from..from + width], entry, request, k - start)
  }

  lemma OneMoreBeat(start: nat, log: seq<DeviceAccess>, answers: DeviceAnswers, bytes: seq<byte>,
                    entry: MemoryMapEntry, request: BusRequest, access: DeviceAccess, last: seq<byte>)
    requires start <= |log| && BeatsRead(start, log, answers, bytes, entry, request)
    requires ReadsBeat(log, access, answers, last, entry, request, |log| - start)
    requires |last| == request.size.ByteCount()
    ensures BeatsRead(start, log + [access], answers, bytes + last, entry, request)
  {
    hide ReadsBeat, AccessSize.ByteCount;
    var width := request.size.ByteCount();
    EarlierBeats(width, |log| - start);
    var log' := log + [access];
    var all := bytes + last;
    assert width * (|log'| - start) == width * (|log| - start) + width;
    assert all[..|bytes|] == bytes;
    forall k | start <= k < |log'|
      ensures var from := width * (k - start);
              && 0 <= from <= from + width <= |all|
              && ReadsBeat(log'[..k], log'[k], answers, all[from..from + width], entry, request, k - start)
    {
      var from := width * (k - start);
      assert log'[..k] == log[..k];
      if k < |log| {
        assert 0 <= from <= from + width <= |bytes|;
        SliceOfPrefix(all, bytes, from, from + width);
        assert log'[k] == log[k];
      } else {
        assert log[..k] == log && from == |bytes|;
        assert all[from..from + width] == last;
      }
    }
  }

  /** A read burst from a device other than DRAM reaches it once a beat, in order, and
      collects its answers. */
  lemma {:induction false} DeviceBurstRead(s: BusState, answers: DeviceAnswers, i: nat, request: BusRequest, n: nat)
    requires MapSound(s.entries) && i < |s.entries| && s.entries[i].id != Dram
    requires Direct(request) && InRange(s.entries[i], request) && n <= Beats(request)
    ensures var (s', bytes) := AfterReads(s, answers, request, n);
            && s'.mem == s.mem && s'.entries == s.entries && |s'.log| == |s.log| + n && s'.log[..|s.log|] == s.log
            && BeatsRead(|s.log|, s'.log, answers, bytes, s.entries[i], request)
  {
    hide MapSound, Direct, InRange, BusRead, ReadsBeat, AddrOf, Le4, AccessSize.ByteCount;
    if n > 0 {
      DeviceBurstRead(s, answers, i, request, n - 1);
      hide BeatsRead;
      var (s', bytes) := AfterReads(s, answers, request, n - 1);
      BeatAnswered(s', answers, i, request, n - 1);
      var (t, value) := BusRead(s', answers, AddrOf(request, n - 1), request.size);
      assert t.log == s'.log + [t.log[|s'.log|]];
      OneMoreBeat(|s.log|, s'.log, answers, bytes, s.entries[i], request, t.log[|s'.log|],
                  Le4(value)[..request.size.ByteCount()]);
    }
  }

  lemma EarlierBeat(width: nat, k: nat, n: nat)
    requires k < n
    ensures 0 <= width * k <= width * k + width <= width * n
  {
    if k + 1 < n {
      EarlierBeat(width, k, n - 1);
    }
    assert width * n == width * (n - 1) + width;
  }

  lemma EarlierBeats(width: nat, n: nat)
    ensures forall k: nat :: k < n ==> 0 <= width * k <= width * k + width <= width * n
  {
    forall k: nat | k < n
      ensures 0 <= width * k <= width * k + width <= width * n
    {
      EarlierBeat(width, k, n);
    }
  }

  lemma SliceOfPrefix<T>(all: seq<T>, first: seq<T>, lo: nat, hi: nat)
    requires lo <= hi <= |first| <= |all| && all[..|first|] == first
    ensures all[lo..hi] == first[lo..hi]
  {
    forall i | 0 <= i < hi - lo
      ensures all[lo..hi][i] == first[lo..hi][i]
    {
      assert all[..|first|][lo + i] == all[lo + i];
    }
  }

  lemma FullPayload(request: BusRequest, n: nat)
    requires n <= request.burstLen && |request.data| == request.size.ByteCount() * request.burstLen
    ensures request.size.ByteCount() * n <= |request.data|
  {
  }

  lemma FixedBeatWrite(s: BusState, request: BusRequest, k: nat)
    requires MapSound(s.entries) && Direct(request) && request.we && request.dstFixed
    requires k < request.burstLen && |request.data| == request.size.ByteCount() * request.burstLen
    requires DramRegion(request.addr, request.size.ByteCount())
    ensures var width := request.size.ByteCount();
            && 0 <= width * k <= width * k + width <= |request.data|
            && BusWrite(s, AddrOf(request, k), request.size, BeatValue(request, k)) ==
               s.(mem := Store(s.mem, request.addr, request.data[width * k..width * k + width]))
  {
    SizesExact(request.size, k);
    FullPayload(request, k + 1);
    assert AddrOf(request, k) == request.addr;
    hide MapSound, Direct, BusWrite, AddrOf, Scalar, Store, AccessSize.ByteCount, AccessSize.Span;
    var width := request.size.ByteCount();
    assert width * (k + 1) == width * k + width;
    DramBeatWrite(s, request.addr, request.size, request.data[width * k..width * k + width]);
  }

  /** A write burst to one DRAM address leaves its last beat there and touches nothing else. */
  lemma {:induction false} FixedBurstWrite(s: BusState, request: BusRequest, n: nat)
    requires MapSound(s.entries) && Direct(request) && request.we && request.dstFixed
    requires n <= request.burstLen && |request.data| == request.size.ByteCount() * request.burstLen
    requires DramRegion(request.addr, request.size.ByteCount())
    ensures var s' := AfterWrites(s, request, n);
            var width := request.size.ByteCount();
            && s'.entries == s.entries && s'.log == s.log
            && (n > 0 ==>
                  && 0 <= width * (n - 1) <= width * (n - 1) + width <= |request.data|
                  && Load(s'.mem, request.addr, width) == request.data[width * (n - 1)..width * (n - 1) + width])
            && (forall a: uint32 :: a < request.addr || request.addr + width <= a ==>
                  ByteAt(s'.mem, a) == ByteAt(s.mem, a))
  {
    hide MapSound, Direct, BusWrite, AddrOf, BeatValue, Store, Load, ByteAt, AccessSize.ByteCount;
    if n > 0 {
      FixedBurstWrite(s, request, n - 1);
      var before := AfterWrites(s, request, n - 1);
      FixedBeatWrite(before, request, n - 1);
      var width := request.size.ByteCount();
      var from := width * (n - 1);
      var beat := request.data[from..from + width];
      LoadAfterStore(before.mem, request.addr, beat);
      StoreElsewhere(before.mem, request.addr, beat);
    }
  }

  lemma StoreElsewhere(m: ByteMap, addr: uint32, bs: seq<byte>)
    requires addr + |bs| <= ADDRESS_SPACE
    ensures forall a: uint32 :: a < addr || addr + |bs| <= a ==> ByteAt(Store(m, addr, bs), a) == ByteAt(m, a)
  {
    hide Store, ByteAt;
    forall a: uint32 | a < addr || addr + |bs| <= a
      ensures ByteAt(Store(m, addr, bs), a) == ByteAt(m, a)
    {
      Untouched(m, addr, bs, a);
    }
  }

  /** `n` times the same bytes, one after the other. */
  ghost predicate Repeats(bytes: seq<byte>, beat: seq<byte>, n: nat) {
    && |bytes| == |beat| * n
    && forall k: nat :: k < n ==>
         |beat| * k + |beat| <= |bytes| && bytes[|beat| * k..|beat| * k + |beat|] == beat
  }

  /** A read burst from one DRAM address repeats the bytes found there, once a beat, and
      changes nothing. */
  lemma {:induction false} FixedBurstRead(s: BusState, answers: DeviceAnswers, request: BusRequest, n: nat)
    requires MapSound(s.entries) && Direct(request) && !request.we && request.srcFixed && n <= Beats(request)
    requires DramRegion(request.addr, request.size.ByteCount())
    ensures var (s', bytes) := AfterReads(s, answers, request, n);
            s' == s && Repeats(bytes, Load(s.mem, request.addr, request.size.ByteCount()), n)
  {
    hide MapSound, Direct, BusRead, AddrOf, Le4, Load, AccessSize.ByteCount;
    if n > 0 {
      FixedBurstRead(s, answers, request, n - 1);
      hide Repeats;
      FixedBeatRead(s, answers, request, n - 1);
      RepeatsOnceMore(AfterReads(s, answers, request, n - 1).1,
                      Load(s.mem, request.addr, request.size.ByteCount()), n - 1);
    }
  }

  lemma FixedBeatRead(s: BusState, answers: DeviceAnswers, request: BusRequest, k: nat)
    requires MapSound(s.entries) && Direct(request) && !request.we && request.srcFixed && k < Beats(request)
    requires DramRegion(request.addr, request.size.ByteCount())
    ensures var (s', v) := BusRead(s, answers, AddrOf(request, k), request.size);
            s' == s && Le4(v)[..request.size.ByteCount()] == Load(s.mem, request.addr, request.size.ByteCount())
  {
    DramBeatRead(s, answers, request.addr, request.size);
    assert AddrOf(request, k) == request.addr;
    hide MapSound, Direct, BusRead, AddrOf, Le4, Load;
  }

  lemma RepeatsOnceMore(bytes: seq<byte>, beat: seq<byte>, n: nat)
    requires Repeats(bytes, beat, n)
    ensures Repeats(bytes + beat, beat, n + 1)
  {
    var width := |beat|;
    var all := bytes + beat;
    assert width * (n + 1) == width * n + width;
    forall k: nat | k < n + 1
      ensures width * k + width <= |all| && all[width * k..width * k + width] == beat
    {
      if k < n {
        EarlierBeat(width, k, n);
        SliceOfPrefix(all, bytes, width * k, width * k + width);
      } else {
        assert all[|bytes|..|bytes| + width] == beat;
      }
    }
  }
}
