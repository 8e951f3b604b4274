/** Sparse byte memory, and the DRAM-checked view of it that devices get. */
module Memories {
  import opened Prelude
  import opened BusTypes

  type ByteMap = map<uint32, byte>

  /** Bytes never written read as zero. */
  function ByteAt(m: ByteMap, addr: uint32): byte {
    if addr in m then m[addr] else 0
  }

  // ---- Bytewise reference: addresses wrap at 2^32 ------------------------------

  function Store(m: ByteMap, addr: uint32, bs: seq<byte>): ByteMap
    decreases |bs|
  {
    if |bs| == 0 then m else Store(m[addr := bs[0]], WrapAdd(addr, 1), bs[1..])
  }

  function Load(m: ByteMap, addr: uint32, n: nat): (bs: seq<byte>)
    ensures |bs| == n
    decreases n
  {
    if n == 0 then [] else [ByteAt(m, addr)] + Load(m, WrapAdd(addr, 1), n - 1)
  }

  lemma WrapTwice(addr: uint32, i: nat, j: nat)
    ensures WrapAdd(WrapAdd(addr, i), j) == WrapAdd(addr, i + j)
  {
    var q := (addr + i) / ADDRESS_SPACE;
    assert addr + i == q * ADDRESS_SPACE + WrapAdd(addr, i);
    assert addr + i + j == q * ADDRESS_SPACE + (WrapAdd(addr, i) + j);
    ModShift(WrapAdd(addr, i) + j, q);
  }

  lemma ModShift(x: nat, q: nat)
    ensures (q * ADDRESS_SPACE + x) % ADDRESS_SPACE == x % ADDRESS_SPACE
  {
    if q > 0 {
      ModShift(x, q - 1);
      assert q * ADDRESS_SPACE + x == ADDRESS_SPACE + ((q - 1) * ADDRESS_SPACE + x);
    }
  }

  /** Offsets below 2^32 lead to different addresses. */
  lemma WrapDistinct(addr: uint32, i: nat)
    requires 0 < i < ADDRESS_SPACE
    ensures WrapAdd(addr, i) != addr
  {
    if addr + i < ADDRESS_SPACE {
    } else {
      assert WrapAdd(addr, i) == addr + i - ADDRESS_SPACE;
    }
  }

  /** Each stored byte is found at its address. */
  lemma {:induction false} StoredByte(m: ByteMap, addr: uint32, bs: seq<byte>, i: nat)
    requires i < |bs| <= ADDRESS_SPACE
    ensures ByteAt(Store(m, addr, bs), WrapAdd(addr, i)) == bs[i]
    decreases i
  {
    if i == 0 {
      forall j: nat | j < |bs| - 1
        ensures WrapAdd(WrapAdd(addr, 1), j) != addr
      {
        WrapTwice(addr, 1, j);
        WrapDistinct(addr, 1 + j);
      }
      Untouched(m[addr := bs[0]], WrapAdd(addr, 1), bs[1..], addr);
    } else {
      WrapTwice(addr, 1, i - 1);
      StoredByte(m[addr := bs[0]], WrapAdd(addr, 1), bs[1..], i - 1);
    }
  }

  /** Bytes outside the stored range keep their value. */
  lemma {:induction false} Untouched(m: ByteMap, addr: uint32, bs: seq<byte>, other: uint32)
    requires forall i: nat :: i < |bs| ==> WrapAdd(addr, i) != other
    ensures ByteAt(Store(m, addr, bs), other) == ByteAt(m, other)
    decreases |bs|
  {
    if |bs| > 0 {
      assert WrapAdd(addr, 0) != other;
      forall i: nat | i < |bs| - 1
        ensures WrapAdd(WrapAdd(addr, 1), i) != other
      {
        WrapTwice(addr, 1, i);
        assert WrapAdd(addr, 1 + i) != other;
      }
      Untouched(m[addr := bs[0]], WrapAdd(addr, 1), bs[1..], other);
    }
  }

  lemma {:induction false} LoadedByte(m: ByteMap, addr: uint32, n: nat, i: nat)
    requires i < n
    ensures Load(m, addr, n)[i] == ByteAt(m, WrapAdd(addr, i))
    decreases i
  {
    if i > 0 {
      WrapTwice(addr, 1, i - 1);
      LoadedByte(m, WrapAdd(addr, 1), n - 1, i - 1);
    }
  }

  /** What is stored is loaded back. */
  lemma LoadAfterStore(m: ByteMap, addr: uint32, bs: seq<byte>)
    requires |bs| <= ADDRESS_SPACE
    ensures Load(Store(m, addr, bs), addr, |bs|) == bs
  {
    forall i | 0 <= i < |bs|
      ensures Load(Store(m, addr, bs), addr, |bs|)[i] == bs[i]
    {
      StoredByte(m, addr, bs, i);
      LoadedByte(Store(m, addr, bs), addr, |bs|, i);
    }
  }

  lemma {:induction false} StoreAppend(m: ByteMap, addr: uint32, bs: seq<byte>, cs: seq<byte>)
    ensures Store(m, addr, bs + cs) == Store(Store(m, addr, bs), WrapAdd(addr, |bs|), cs)
    decreases |bs|
  {
    if |bs| == 0 {
      assert bs + cs == cs;
    } else {
      assert (bs + cs)[1..] == bs[1..] + cs;
      WrapTwice(addr, 1, |bs| - 1);
      StoreAppend(m[addr := bs[0]], WrapAdd(addr, 1), bs[1..], cs);
    }
  }

  lemma {:induction false} LoadAppend(m: ByteMap, addr: uint32, i: nat, j: nat)
    ensures Load(m, addr, i + j) == Load(m, addr, i) + Load(m, WrapAdd(addr, i), j)
    decreases i
  {
    if i > 0 {
      WrapTwice(addr, 1, i - 1);
      LoadAppend(m, WrapAdd(addr, 1), i - 1, j);
    }
  }

  // ---- Unfolded forms for one access -------------------------------------------

  lemma StoreUnfolds(m: ByteMap, addr: uint32, bs: seq<byte>)
    ensures |bs| == 1 ==> Store(m, addr, bs) == m[addr := bs[0]]
    ensures |bs| == 2 ==> Store(m, addr, bs) == m[addr := bs[0]][WrapAdd(addr, 1) := bs[1]]
    ensures |bs| == 4 ==>
              Store(m, addr, bs) ==
              m[addr := bs[0]][WrapAdd(addr, 1) := bs[1]][WrapAdd(addr, 2) := bs[2]][WrapAdd(addr, 3) := bs[3]]
  {
    hide WrapAdd, Store;
    if |bs| >= 1 {
      StoreOne(m, addr, bs[0]);
      assert bs[..1] == [bs[0]];
    }
    if |bs| >= 2 {
      StoreSnoc(m, addr, bs, 1);
    }
    if |bs| >= 4 {
      StoreSnoc(m, addr, bs, 2);
      StoreSnoc(m, addr, bs, 3);
    }
    assert bs[..|bs|] == bs;
  }

  lemma StoreOne(m: ByteMap, addr: uint32, b: byte)
    ensures Store(m, addr, [b]) == m[addr := b]
  {
    assert Store(m[addr := b], WrapAdd(addr, 1), []) == m[addr := b];
  }

  lemma StoreSnoc(m: ByteMap, addr: uint32, bs: seq<byte>, i: nat)
    requires i < |bs|
    ensures Store(m, addr, bs[..i + 1]) == Store(m, addr, bs[..i])[WrapAdd(addr, i) := bs[i]]
  {
    hide WrapAdd;
    assert bs[..i + 1] == bs[..i] + [bs[i]];
    StoreAppend(m, addr, bs[..i], [bs[i]]);
    StoreOne(Store(m, addr, bs[..i]), WrapAdd(addr, i), bs[i]);
  }

  lemma LoadUnfolds(m: ByteMap, addr: uint32)
    ensures Load(m, addr, 1) == [ByteAt(m, addr)]
    ensures Load(m, addr, 2) == [ByteAt(m, addr), ByteAt(m, WrapAdd(addr, 1))]
    ensures Load(m, addr, 4) ==
            [ByteAt(m, addr), ByteAt(m, WrapAdd(addr, 1)), ByteAt(m, WrapAdd(addr, 2)), ByteAt(m, WrapAdd(addr, 3))]
  {
    hide WrapAdd, ByteAt, Load;
    LoadOne(m, addr);
    LoadSnoc(m, addr, 1);
    LoadSnoc(m, addr, 2);
    LoadSnoc(m, addr, 3);
  }

  lemma LoadSnoc(m: ByteMap, addr: uint32, i: nat)
    ensures Load(m, addr, i + 1) == Load(m, addr, i) + [ByteAt(m, WrapAdd(addr, i))]
  {
    hide WrapAdd, ByteAt, Load;
    LoadAppend(m, addr, i, 1);
    LoadOne(m, WrapAdd(addr, i));
  }

  lemma LoadOne(m: ByteMap, addr: uint32)
    ensures Load(m, addr, 1) == [ByteAt(m, addr)]
  {
    assert Load(m, WrapAdd(addr, 1), 0) == [];
  }

  // ---- The memory object ---------------------------------------------------------

  class Memory {
    var data: ByteMap

    constructor ()
      ensures data == map[]
    {
      data := map[];
    }

    function ReadByte(addr: uint32): (r: byte)
      reads this
      ensures [r] == Load(data, addr, 1)
    {
      LoadUnfolds(data, addr);
      ByteAt(data, addr)
    }

    function ReadHalfword(addr: uint32): (r: uint16)
      reads this
      ensures r == LeValue(Load(data, addr, 2))
    {
      LoadUnfolds(data, addr);
      LeValueUnfolds(Load(data, addr, 2));
      ByteAt(data, addr) as int + 0x100 * (ByteAt(data, WrapAdd(addr, 1)) as int)
    }

    function ReadWord(addr: uint32): (r: uint32)
      reads this
      ensures r == LeValue(Load(data, addr, 4))
    {
      LoadUnfolds(data, addr);
      LeValueUnfolds(Load(data, addr, 4));
      ByteAt(data, addr) as int + 0x100 * (ByteAt(data, WrapAdd(addr, 1)) as int)
      + 0x1_0000 * (ByteAt(data, WrapAdd(addr, 2)) as int) + 0x100_0000 * (ByteAt(data, WrapAdd(addr, 3)) as int)
    }

    method WriteByte(addr: uint32, value: byte)
      modifies this
      ensures data == Store(old(data), addr, [value])
    {
      StoreUnfolds(data, addr, [value]);
      data := data[addr := value];
    }

    method WriteHalfword(addr: uint32, value: uint16)
      modifies this
      ensures data == Store(old(data), addr, Le4(value)[..2])
    {
      StoreUnfolds(data, addr, Le4(value)[..2]);
      data := data[addr := value % 0x100];
      data := data[WrapAdd(addr, 1) := value / 0x100 % 0x100];
    }

    method WriteWord(addr: uint32, value: uint32)
      modifies this
      ensures data == Store(old(data), addr, Le4(value))
    {
      StoreUnfolds(data, addr, Le4(value));
      data := data[addr := value % 0x100];
      data := data[WrapAdd(addr, 1) := value / 0x100 % 0x100];
      data := data[WrapAdd(addr, 2) := value / 0x1_0000 % 0x100];
      data := data[WrapAdd(addr, 3) := value / 0x100_0000 % 0x100];
    }

    method Reset()
      modifies this
      ensures data == map[]
    {
      data := map[];
    }
  }

  // ---- DRAM checking --------------------------------------------------------------

  const DRAM_BASE: uint32 := 0x8000_0000
  const DRAM_END: uint32 := 0x8FFF_FFFF
  const DRAM_SIZE: uint32 := 0x1000_0000

  predicate InDram(addr: uint32) {
    DRAM_BASE <= addr <= DRAM_END
  }

  predicate IsValidDramRange(addr: uint32, size: uint32) {
    if size == 0 then false
    else match CheckedAdd(addr, size - 1)
      case None => false
      case Some(end) => InDram(addr) && InDram(end)
  }

  /** DRAM is the 256 MiB from 2 GiB up; a range is valid if it is not empty and lies in it. */
  lemma DramRangeExact(addr: uint32, size: uint32)
    ensures InDram(addr) <==> 0x8000_0000 <= addr < 0x9000_0000
    ensures IsValidDramRange(addr, size) <==> size > 0 && 0x8000_0000 <= addr && addr + size <= 0x9000_0000
    ensures forall m :: DeviceByte(m, addr) == if 0x8000_0000 <= addr < 0x9000_0000 then ByteAt(m, addr) else 0
  {
  }

  /** Access width of one context or bus operation. */
  function Checked(m: ByteMap, addr: uint32, size: AccessSize): (bs: seq<byte>)
    ensures |bs| == size.ByteCount()
  {
    if IsValidDramRange(addr, size.ByteCount()) then Load(m, addr, size.ByteCount())
    else [0, 0, 0, 0][..size.ByteCount()]
  }

  function CheckedStore(m: ByteMap, addr: uint32, bs: seq<byte>): ByteMap
    requires |bs| < ADDRESS_SPACE
  {
    if IsValidDramRange(addr, |bs|) then Store(m, addr, bs) else m
  }

  /** A device's read gives the bytes at its addresses when all of them are in DRAM, and zeros
      otherwise. */
  lemma CheckedExact(m: ByteMap, addr: uint32, size: AccessSize)
    ensures var bs := Checked(m, addr, size);
            var fits := 0x8000_0000 <= addr && addr + size.ByteCount() <= 0x9000_0000;
            && |bs| == size.ByteCount()
            && forall k :: 0 <= k < |bs| ==> bs[k] == if fits then ByteAt(m, addr + k) else 0
  {
    hide Load, ByteAt;
    if 0x8000_0000 <= addr && addr + size.ByteCount() <= 0x9000_0000 {
      forall k | 0 <= k < size.ByteCount()
        ensures Load(m, addr, size.ByteCount())[k] == ByteAt(m, addr + k)
      {
        LoadedByte(m, addr, size.ByteCount(), k);
      }
    }
  }

  /** A device's write is stored byte by byte when all its bytes are in DRAM, and dropped as
      a whole otherwise. */
  lemma CheckedStoreExact(m: ByteMap, addr: uint32, bs: seq<byte>)
    requires 0 < |bs| <= 4
    ensures var m' := CheckedStore(m, addr, bs);
            var fits := 0x8000_0000 <= addr && addr + |bs| <= 0x9000_0000;
            && (fits ==> forall k :: 0 <= k < |bs| ==> ByteAt(m', addr + k) == bs[k])
            && (fits ==> forall a: uint32 :: a < addr || addr + |bs| <= a ==> ByteAt(m', a) == ByteAt(m, a))
            && (!fits ==> m' == m)
  {
    hide Store, ByteAt;
    if 0x8000_0000 <= addr && addr + |bs| <= 0x9000_0000 {
      forall k | 0 <= k < |bs|
        ensures ByteAt(Store(m, addr, bs), addr + k) == bs[k]
      {
        StoredByte(m, addr, bs, k);
      }
      forall a: uint32 | a < addr || addr + |bs| <= a
        ensures ByteAt(Store(m, addr, bs), a) == ByteAt(m, a)
      {
        Untouched(m, addr, bs, a);
      }
    }
  }

  /** What a device reads at one address. */
  function DeviceByte(m: ByteMap, addr: uint32): byte {
    if InDram(addr) then ByteAt(m, addr) else 0
  }

  /** `n` single-byte device reads, one after the other. */
  function DeviceBytes(m: ByteMap, addr: uint32, n: nat): (bs: seq<byte>)
    ensures |bs| == n
    decreases n
  {
    if n == 0 then [] else [DeviceByte(m, addr)] + DeviceBytes(m, WrapAdd(addr, 1), n - 1)
  }

  lemma {:induction false} DeviceBytesAppend(m: ByteMap, addr: uint32, i: nat, j: nat)
    ensures DeviceBytes(m, addr, i + j) == DeviceBytes(m, addr, i) + DeviceBytes(m, WrapAdd(addr, i), j)
    decreases i
  {
    if i > 0 {
      WrapTwice(addr, 1, i - 1);
      DeviceBytesAppend(m, WrapAdd(addr, 1), i - 1, j);
    }
  }

  /** An aligned access sees what single-byte reads would see: DRAM is word-aligned at
      both ends, so no aligned access straddles it. */
  lemma AlignedIsBytewise(m: ByteMap, addr: uint32, size: AccessSize)
    requires addr % size.ByteCount() == 0
    ensures Checked(m, addr, size) == DeviceBytes(m, addr, size.ByteCount())
  {
    hide ByteAt, Checked, DeviceBytes, DeviceByte;
    var n := size.ByteCount();
    CheckedExact(m, addr, size);
    AlignedRange(addr, n);
    forall i | 0 <= i < n
      ensures Checked(m, addr, size)[i] == DeviceBytes(m, addr, n)[i]
    {
      DeviceByteOf(m, addr, n, i);
      DramRangeExact(addr + i, 1);
    }
  }

  /** An aligned range neither wraps nor straddles an end of DRAM. */
  lemma AlignedRange(addr: uint32, n: nat)
    requires n in {1, 2, 4} && addr % n == 0
    ensures forall i :: 0 <= i < n ==> WrapAdd(addr, i) == addr + i
    ensures 0x8000_0000 <= addr && addr + n <= 0x9000_0000 <==> 0x8000_0000 <= addr < 0x9000_0000
    ensures 0x8000_0000 <= addr <==> 0x8000_0000 <= addr + n - 1
  {
    assert addr + n <= ADDRESS_SPACE;
  }

  lemma {:induction false} DeviceByteOf(m: ByteMap, addr: uint32, n: nat, i: nat)
    requires i < n
    ensures DeviceBytes(m, addr, n)[i] == DeviceByte(m, WrapAdd(addr, i))
    decreases i
  {
    if i > 0 {
      WrapTwice(addr, 1, i - 1);
      DeviceByteOf(m, WrapAdd(addr, 1), n - 1, i - 1);
    }
  }

  /** The zero-extended value of the bytes of one access. */
  function Scalar(bs: seq<byte>): uint32
    requires |bs| <= 4
  {
    LeValueUnfolds(bs);
    LeValue(bs)
  }

  /** A device's window on memory: reads outside DRAM give zero, writes there are
      dropped. */
  class SystemContext {
    const memory: Memory
    const elapsedTimeUs: nat

    constructor (memory: Memory, elapsedTimeUs: nat)
      ensures this.memory == memory && this.elapsedTimeUs == elapsedTimeUs
    {
      this.memory := memory;
      this.elapsedTimeUs := elapsedTimeUs;
    }

    function ReadByte(addr: uint32): (r: byte)
      reads memory
      ensures [r] == Checked(memory.data, addr, Byte)
    {
      if !IsValidDramRange(addr, 1) then 0 else memory.ReadByte(addr)
    }

    function ReadHalfword(addr: uint32): (r: uint16)
      reads memory
      ensures r == Scalar(Checked(memory.data, addr, Halfword))
    {
      LeValueUnfolds([0, 0, 0, 0][..2]);
      if !IsValidDramRange(addr, 2) then 0 else memory.ReadHalfword(addr)
    }

    function ReadWord(addr: uint32): (r: uint32)
      reads memory
      ensures r == Scalar(Checked(memory.data, addr, Word))
    {
      LeValueUnfolds([0, 0, 0, 0]);
      assert [0, 0, 0, 0][..4] == [0, 0, 0, 0];
      if !IsValidDramRange(addr, 4) then 0 else memory.ReadWord(addr)
    }

    method WriteByte(addr: uint32, value: byte)
      modifies memory
      ensures memory.data == CheckedStore(old(memory.data), addr, [value])
    {
      if IsValidDramRange(addr, 1) {
        memory.WriteByte(addr, value);
      }
    }

    method WriteHalfword(addr: uint32, value: uint16)
      modifies memory
      ensures memory.data == CheckedStore(old(memory.data), addr, Le4(value)[..2])
    {
      if IsValidDramRange(addr, 2) {
        memory.WriteHalfword(addr, value);
      }
    }

    method WriteWord(addr: uint32, value: uint32)
      modifies memory
      ensures memory.data == CheckedStore(old(memory.data), addr, Le4(value))
    {
      if IsValidDramRange(addr, 4) {
        memory.WriteWord(addr, value);
      }
    }
  }
}
