/** The DMA controller: one byte per clock cycle from latched addresses. */
module Dmas {
  import opened Prelude
  import opened BusTypes
  import opened Memories
  import opened Clocked

  datatype ActiveTransfer = ActiveTransfer(bytesRemaining: uint32, currentSrc: uint32, currentDst: uint32)

  datatype DmaView = DmaView(srcAddr: uint32, dstAddr: uint32, size: uint32, active: Option<ActiveTransfer>) {
    ghost predicate Valid() {
      active.Some? ==> active.value.bytesRemaining > 0
    }
  }

  const SRC_ADDR := 0x00
  const DST_ADDR := 0x04
  const SIZE := 0x08
  const STATUS := 0x0C
  const DISPATCH := 0x10

  // ---- Steps ---------------------------------------------------------------------

  function Dispatched(d: DmaView): DmaView {
    if d.active.Some? || d.size == 0 then d
    else d.(active := Some(ActiveTransfer(d.size, d.srcAddr, d.dstAddr)))
  }

  /** One byte read and written through the device's view of memory. */
  function CopyByte(m: ByteMap, src: uint32, dst: uint32): ByteMap {
    CheckedStore(m, dst, Checked(m, src, Byte))
  }

  function Clock(d: DmaView, m: ByteMap): (DmaView, ByteMap)
    requires d.Valid()
  {
    match d.active
    case None => (d, m)
    case Some(t) =>
      var next := ActiveTransfer(t.bytesRemaining - 1, WrapAdd(t.currentSrc, 1), WrapAdd(t.currentDst, 1));
      (d.(active := if next.bytesRemaining == 0 then None else Some(next)), CopyByte(m, t.currentSrc, t.currentDst))
  }

  function WriteRegister(d: DmaView, offset: uint32, value: uint32): Result<DmaView, BusDeviceError> {
    if offset == SRC_ADDR then Ok(d.(srcAddr := value))
    else if offset == DST_ADDR then Ok(d.(dstAddr := value))
    else if offset == SIZE then Ok(d.(size := value))
    else if offset == STATUS then Err(WriteToReadOnly(offset))
    else if offset == DISPATCH then Ok(Dispatched(d))
    else Err(InvalidAddress(offset))
  }

  function ReadRegister(d: DmaView, offset: uint32): Result<uint32, BusDeviceError> {
    if offset == SRC_ADDR then Ok(d.srcAddr)
    else if offset == DST_ADDR then Ok(d.dstAddr)
    else if offset == SIZE then Ok(d.size)
    else if offset == STATUS then Ok(if d.active.Some? then 1 else 0)
    else if offset == DISPATCH then Err(ReadFromWriteOnly(offset))
    else Err(InvalidAddress(offset))
  }

  /** A configuration register holds what was written to it last, whatever is in
      progress, and shares nothing with the others. */
  lemma RegistersHold(d: DmaView, offset: uint32, value: uint32, other: uint32)
    requires offset in [SRC_ADDR, DST_ADDR, SIZE] && other in [SRC_ADDR, DST_ADDR, SIZE]
    ensures var w := WriteRegister(d, offset, value);
            && w.Ok? && w.value.active == d.active
            && ReadRegister(w.value, other) ==
               if other == offset then Ok(value) else ReadRegister(d, other)
  {
  }

  /** The register interface: three registers that hold what is written, a status that only
      reads and says whether a transfer is in progress, a trigger that only writes, and
      nothing else. */
  lemma InterfaceExact(d: DmaView, offset: uint32, value: uint32)
    ensures var w := WriteRegister(d, offset, value);
            var r := ReadRegister(d, offset);
            if offset == 0x00 then w == Ok(d.(srcAddr := value)) && r == Ok(d.srcAddr)
            else if offset == 0x04 then w == Ok(d.(dstAddr := value)) && r == Ok(d.dstAddr)
            else if offset == 0x08 then w == Ok(d.(size := value)) && r == Ok(d.size)
            else if offset == 0x0C then
              w == Err(WriteToReadOnly(0x0C)) && (r == Ok(1) <==> d.active.Some?) && (r == Ok(0) <==> d.active.None?)
            else if offset == 0x10 then w.Ok? && r == Err(ReadFromWriteOnly(0x10))
            else w == Err(InvalidAddress(offset)) && r == Err(InvalidAddress(offset))
    ensures WriteRegister(d, 0x10, value).value ==
            if d.active.None? && d.size > 0 then d.(active := Some(ActiveTransfer(d.size, d.srcAddr, d.dstAddr)))
            else d
  {
  }

  // ---- The device ------------------------------------------------------------------

  class Dma {
    var srcAddr: uint32
    var dstAddr: uint32
    var size: uint32
    var activeTransfer: Option<ActiveTransfer>

    ghost function View(): DmaView
      reads this
    {
      DmaView(srcAddr, dstAddr, size, activeTransfer)
    }

    constructor ()
      ensures View() == DmaView(0, 0, 0, None)
    {
      srcAddr, dstAddr, size, activeTransfer := 0, 0, 0, None;
    }

    function IsBusy(): bool
      reads this
    {
      activeTransfer.Some?
    }

    method StartTransfer()
      modifies this
      ensures View() == Dispatched(old(View()))
    {
      if IsBusy() || size == 0 {
        return;
      }
      activeTransfer := Some(ActiveTransfer(size, srcAddr, dstAddr));
    }

    /** `clock_cycle` */
    method TransferOneByte(ctx: SystemContext)
      requires View().Valid()
      modifies this, ctx.memory
      ensures (View(), ctx.memory.data) == Clock(old(View()), old(ctx.memory.data))
      ensures View().Valid()
    {
      if activeTransfer.None? {
        return;
      }
      var transfer := activeTransfer.value;
      var b := ctx.ReadByte(transfer.currentSrc);
      ctx.WriteByte(transfer.currentDst, b);
      transfer := transfer.(currentSrc := WrapAdd(transfer.currentSrc, 1),
                            currentDst := WrapAdd(transfer.currentDst, 1));
      transfer := transfer.(bytesRemaining := transfer.bytesRemaining - 1);
      activeTransfer := if transfer.bytesRemaining == 0 then None else Some(transfer);
    }

    method ReadWord(offset: uint32) returns (r: Result<uint32, BusDeviceError>)
      ensures r == ReadRegister(View(), offset)
    {
      if offset == SRC_ADDR {
        r := Ok(srcAddr);
      } else if offset == DST_ADDR {
        r := Ok(dstAddr);
      } else if offset == SIZE {
        r := Ok(size);
      } else if offset == STATUS {
        r := Ok(if IsBusy() then 1 else 0);
      } else if offset == DISPATCH {
        r := Err(ReadFromWriteOnly(offset));
      } else {
        r := Err(InvalidAddress(offset));
      }
    }

    method WriteWord(offset: uint32, value: uint32) returns (r: Result<Unit, BusDeviceError>)
      modifies this
      ensures var w := WriteRegister(old(View()), offset, value);
              && (w.Ok? ==> r.Ok? && View() == w.value)
              && (w.Err? ==> r == Err(w.error) && View() == old(View()))
    {
      r := Ok(Unit);
      if offset == SRC_ADDR {
        srcAddr := value;
      } else if offset == DST_ADDR {
        dstAddr := value;
      } else if offset == SIZE {
        size := value;
      } else if offset == STATUS {
        r := Err(WriteToReadOnly(offset));
      } else if offset == DISPATCH {
        StartTransfer();
      } else {
        r := Err(InvalidAddress(offset));
      }
    }

    method Reset()
      modifies this
      ensures View() == DmaView(0, 0, 0, None)
    {
      srcAddr, dstAddr, size := 0, 0, 0;
      activeTransfer := None;
    }
  }

  // ---- Runs ---------------------------------------------------------------------------

  function Next(d: DmaView, m: ByteMap, e: Event): (DmaView, ByteMap)
    requires d.Valid()
  {
    match e.op
    case ClockOp => Clock(d, m)
    case WriteOp(offset, value) =>
      (match WriteRegister(d, offset, value) case Ok(d') => d' case Err(_) => d, m)
  }

  function Run(d: DmaView, m: ByteMap, events: seq<Event>): (r: (DmaView, ByteMap))
    requires d.Valid()
    ensures r.0.Valid()
    decreases |events|
  {
    if |events| == 0 then (d, m)
    else
      var (d', m') := Next(d, m, events[0]);
      Run(d', m', events[1..])
  }

  /** Forward bytewise copy, one byte after the other. */
  function CopyForward(m: ByteMap, src: uint32, dst: uint32, n: nat): ByteMap {
    if n == 0 then m
    else CopyByte(CopyForward(m, src, dst, n - 1), WrapAdd(src, n - 1), WrapAdd(dst, n - 1))
  }

  lemma {:induction false} CopyFirst(m: ByteMap, src: uint32, dst: uint32, n: nat)
    ensures CopyForward(m, src, dst, n + 1) ==
            CopyForward(CopyByte(m, src, dst), WrapAdd(src, 1), WrapAdd(dst, 1), n)
  {
    hide CopyByte, WrapAdd;
    WrapNothing(src);
    WrapNothing(dst);
    if n > 0 {
      CopyFirst(m, src, dst, n - 1);
      WrapTwice(src, 1, n - 1);
      WrapTwice(dst, 1, n - 1);
    } else {
      assert CopyForward(m, src, dst, 0) == m;
    }
  }

  lemma WrapNothing(a: uint32)
    ensures WrapAdd(a, 0) == a
  {
  }

  /** A transfer of `t.bytesRemaining` bytes under any writes and dispatches: after k
      clock cycles memory holds k steps of the copy from the latched addresses; the
      controller stays busy until the last byte and is idle with its clock cycle. */
  lemma {:induction false} TransferInFlight(d: DmaView, m: ByteMap, events: seq<Event>, t: ActiveTransfer)
    requires d.active == Some(t) && d.Valid()
    requires Clocks(events) <= t.bytesRemaining
    requires Clocks(events) == t.bytesRemaining ==> EndsWithClock(events)
    ensures var k := Clocks(events);
            var (d', m') := Run(d, m, events);
            && m' == CopyForward(m, t.currentSrc, t.currentDst, k)
            && d'.active == if k == t.bytesRemaining then None
                            else Some(ActiveTransfer(t.bytesRemaining - k,
                                                     WrapAdd(t.currentSrc, k), WrapAdd(t.currentDst, k)))
    decreases |events|
  {
    hide CopyByte, WrapAdd;
    WrapNothing(t.currentSrc);
    WrapNothing(t.currentDst);
    if |events| == 0 {
    } else {
      var (d1, m1) := Next(d, m, events[0]);
      if events[0].op.ClockOp? {
        CopyFirst(m, t.currentSrc, t.currentDst, Clocks(events) - 1);
        WrapTwice(t.currentSrc, 1, Clocks(events) - 1);
        WrapTwice(t.currentDst, 1, Clocks(events) - 1);
        if t.bytesRemaining == 1 {
          NoMoreClocks(events[1..]);
        } else {
          TransferInFlight(d1, m1, events[1..], d1.active.value);
        }
      } else {
        assert Clocks(events) == Clocks(events[1..]);
        TransferInFlight(d1, m1, events[1..], t);
      }
    }
  }

  /** Only a dispatch while idle with a non-zero size starts a transfer; it takes the
      addresses and size of that moment. */
  lemma DispatchLatches(d: DmaView, m: ByteMap, now: nat, value: uint32, events: seq<Event>)
    requires d.active.None? && d.size > 0
    requires Clocks(events) <= d.size && (Clocks(events) == d.size ==> EndsWithClock(events))
    ensures var (d', m') := Run(d, m, [Event(now, WriteOp(DISPATCH, value))] + events);
            && m' == CopyForward(m, d.srcAddr, d.dstAddr, Clocks(events))
            && (d'.active.None? <==> Clocks(events) == d.size)
            && ReadRegister(d', 0x0C) == Ok(if Clocks(events) < d.size then 1 else 0)
  {
    hide CopyByte, WrapAdd;
    var started := Dispatched(d);
    var dispatch := Event(now, WriteOp(DISPATCH, value));
    assert ([dispatch] + events)[1..] == events;
    assert Next(d, m, dispatch) == (started, m);
    TransferInFlight(started, m, events, started.active.value);
  }

  /** An idle controller that is not dispatched with a non-zero size leaves memory alone. */
  lemma {:induction false} IdleKeepsMemory(d: DmaView, m: ByteMap, events: seq<Event>)
    requires d.active.None?
    requires forall e <- events :: !Writes(e, DISPATCH)
    ensures var (d', m') := Run(d, m, events); m' == m && d'.active.None?
    decreases |events|
  {
    if |events| > 0 {
      assert events[0] in events;
      var (d1, m1) := Next(d, m, events[0]);
      IdleKeepsMemory(d1, m1, events[1..]);
    }
  }

  // ---- What the copy computes ------------------------------------------------------------

  lemma CopyByteEffect(m: ByteMap, src: uint32, dst: uint32, addr: uint32)
    ensures ByteAt(CopyByte(m, src, dst), addr) ==
            if addr == dst && InDram(dst) then DeviceByte(m, src) else ByteAt(m, addr)
  {
    LoadOne(m, src);
    StoreOne(m, dst, DeviceByte(m, src));
    assert [0, 0, 0, 0][..1] == [0];
  }

  /** Which source byte ends up at offset `i` of the destination. */
  function SourceOffset(src: uint32, dst: uint32, i: nat): nat {
    if dst <= src then i else i % (dst - src)
  }

  predicate Fits(src: uint32, dst: uint32, n: nat) {
    src + n <= ADDRESS_SPACE && dst + n <= ADDRESS_SPACE
  }

  /** The copy in closed form, for ranges that do not wrap: overlapping forward ranges
      repeat the first dst - src bytes, all others are copied exactly; destinations
      outside DRAM are skipped, sources outside DRAM read as zero, and nothing else
      changes. */
  lemma {:induction false} CopyEffect(m: ByteMap, src: uint32, dst: uint32, n: nat, addr: uint32)
    requires Fits(src, dst, n)
    ensures ByteAt(CopyForward(m, src, dst, n), addr) ==
            if dst <= addr < dst + n && InDram(addr)
            then DeviceByte(m, src + SourceOffset(src, dst, addr - dst))
            else ByteAt(m, addr)
    decreases n
  {
    hide CopyByte, ByteAt, WrapAdd, SourceOffset;
    if n > 0 {
      var from: uint32, to: uint32 := src + n - 1, dst + n - 1;
      var before := CopyForward(m, src, dst, n - 1);
      InRange(src, n - 1);
      InRange(dst, n - 1);
      CopyByteEffect(before, from, to, addr);
      if addr == to && InDram(to) {
        CopyEffect(m, src, dst, n - 1, from);
        SourceChain(m, src, dst, n - 1);
      } else {
        CopyEffect(m, src, dst, n - 1, addr);
      }
    }
  }

  lemma InRange(a: uint32, i: nat)
    requires a + i < ADDRESS_SPACE
    ensures WrapAdd(a, i) == a + i
  {
  }

  /** Reading source offset `i` after `i` bytes gives the byte that offset stands for. */
  lemma SourceChain(m: ByteMap, src: uint32, dst: uint32, i: nat)
    requires src + i < ADDRESS_SPACE && dst + i < ADDRESS_SPACE && InDram(dst + i)
    ensures SourceOffset(src, dst, i) <= i
    ensures DeviceByte(m, src + SourceOffset(src, dst, i)) ==
            if !InDram(src + i) then 0
            else if dst <= src + i < dst + i then DeviceByte(m, src + SourceOffset(src, dst, src + i - dst))
            else ByteAt(m, src + i)
  {
    hide ByteAt;
    if dst > src {
      ModStep(i, dst - src);
    }
  }

  lemma ModStep(i: nat, d: nat)
    requires d > 0
    ensures i % d <= i && i % d < d
    ensures i < d ==> i % d == i
    ensures i >= d ==> i % d == (i - d) % d
  {
    if i >= d {
      var q := (i - d) / d;
      assert i - d == q * d + (i - d) % d;
      ModUnique(i, d, q + 1, (i - d) % d);
    }
  }

  lemma ModUnique(i: nat, d: nat, q: nat, r: nat)
    requires d > 0 && r < d && i == q * d + r
    ensures i % d == r
  {
    var q' := i / d;
    assert i == q' * d + i % d;
    if q' > q {
      Gap(q', q, d);
    } else if q' < q {
      Gap(q, q', d);
    }
  }

  lemma Gap(a: nat, b: nat, d: nat)
    requires a > b
    ensures a * d >= b * d + d
  {
    var k := a - b;
    AtLeastOnce(k, d);
    assert (b + k) * d == b * d + k * d;
  }

  lemma AtLeastOnce(k: nat, d: nat)
    requires k > 0
    ensures k * d >= d
  {
  }

  /** Inside DRAM, a copy downwards or between separate ranges is exact. */
  lemma ExactCopy(m: ByteMap, src: uint32, dst: uint32, n: nat)
    requires n > 0 ==> InDram(src) && src + n - 1 <= DRAM_END && InDram(dst) && dst + n - 1 <= DRAM_END
    requires dst <= src || src + n <= dst
    ensures forall addr: uint32 :: dst <= addr < dst + n ==>
              ByteAt(CopyForward(m, src, dst, n), addr) == ByteAt(m, src + (addr - dst))
    ensures forall addr: uint32 :: !(dst <= addr < dst + n) ==>
              ByteAt(CopyForward(m, src, dst, n), addr) == ByteAt(m, addr)
  {
    hide ByteAt, CopyForward;
    forall addr: uint32 | dst <= addr < dst + n
      ensures ByteAt(CopyForward(m, src, dst, n), addr) == ByteAt(m, src + (addr - dst))
    {
      CopyEffect(m, src, dst, n, addr);
      if dst > src {
        ModStep(addr - dst, dst - src);
      }
    }
    forall addr: uint32 | !(dst <= addr < dst + n)
      ensures ByteAt(CopyForward(m, src, dst, n), addr) == ByteAt(m, addr)
    {
      if n == 0 { NothingCopied(m, src, dst); } else { CopyEffect(m, src, dst, n, addr); }
    }
  }

  lemma NothingCopied(m: ByteMap, src: uint32, dst: uint32)
    ensures CopyForward(m, src, dst, 0) == m
  {
  }

  /** Inside DRAM, a copy upwards into its own source repeats the bytes between
      the two start addresses. */
  lemma RepeatingCopy(m: ByteMap, src: uint32, dst: uint32, n: nat)
    requires src < dst < src + n && InDram(src) && dst + n - 1 <= DRAM_END
    ensures forall addr: uint32 :: dst <= addr < dst + n ==>
              ByteAt(CopyForward(m, src, dst, n), addr) == ByteAt(m, src + (addr - dst) % (dst - src))
    ensures forall addr: uint32 :: !(dst <= addr < dst + n) ==>
              ByteAt(CopyForward(m, src, dst, n), addr) == ByteAt(m, addr)
  {
    hide ByteAt, CopyForward;
    forall addr: uint32 | dst <= addr < dst + n
      ensures ByteAt(CopyForward(m, src, dst, n), addr) == ByteAt(m, src + (addr - dst) % (dst - src))
    {
      CopyEffect(m, src, dst, n, addr);
      ModStep(addr - dst, dst - src);
    }
    forall addr: uint32 | !(dst <= addr < dst + n)
      ensures ByteAt(CopyForward(m, src, dst, n), addr) == ByteAt(m, addr)
    {
      CopyEffect(m, src, dst, n, addr);
    }
  }
}
