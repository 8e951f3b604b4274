/** The system bus: routing by address, DRAM behind it, and other devices. */
module SystemBuses {
  import opened Prelude
  import opened BusTypes
  import opened Memories

  datatype DeviceId = Dram | SimControl | External(index: nat)

  /** An address range [base, end) and the device that owns it. */
  datatype MemoryMapEntry = MemoryMapEntry(base: uint32, end: uint32, id: DeviceId)

  datatype RegistrationError =
    | AddressOverlap(newBase: uint32, newEnd: uint32, existing: MemoryMapEntry)
    | InvalidAlignment(size: uint32)
    | InvalidBaseAlignment(base: uint32)
    | ZeroSize

  /** One access that reached a device other than DRAM. */
  datatype DeviceAccess = DeviceAccess(id: DeviceId, offset: uint32, size: AccessSize, we: bool, value: uint32)

  /** How those devices answer a read, given all accesses before it; `None` is a device
      error. */
  type DeviceAnswers = (seq<DeviceAccess>, DeviceAccess) -> Option<uint32>

  const SIM_CONTROL_BASE: uint32 := 0xF000_0000
  const SIM_CONTROL_ENTRY := MemoryMapEntry(SIM_CONTROL_BASE, SIM_CONTROL_BASE + 4, SimControl)
  const DRAM_ENTRY := MemoryMapEntry(DRAM_BASE, DRAM_BASE + DRAM_SIZE, Dram)

  predicate Covers(entry: MemoryMapEntry, addr: uint32) {
    entry.base <= addr < entry.end
  }

  predicate RangesOverlap(aStart: uint32, aEnd: uint32, bStart: uint32, bEnd: uint32) {
    aStart < bEnd && bStart < aEnd
  }

  /** Two non-empty ranges overlap if and only if some address is in both. */
  lemma OverlapExact(a: MemoryMapEntry, b: MemoryMapEntry)
    requires a.base < a.end && b.base < b.end
    ensures RangesOverlap(a.base, a.end, b.base, b.end) <==> exists x: uint32 :: Covers(a, x) && Covers(b, x)
  {
    if a.base < b.end && b.base < a.end {
      var x: uint32 := if a.base < b.base then b.base else a.base;
      assert Covers(a, x) && Covers(b, x);
    }
  }

  /** First entry that covers the address, and the offset into it. */
  function FindDevice(entries: seq<MemoryMapEntry>, addr: uint32): Option<(DeviceId, uint32)> {
    if |entries| == 0 then None
    else if Covers(entries[0], addr) then Some((entries[0].id, addr - entries[0].base))
    else FindDevice(entries[1..], addr)
  }

  /** Every map that registration can produce: the two internal devices first, then
      the external ones in order, all ranges non-empty and apart. */
  predicate MapSound(entries: seq<MemoryMapEntry>) {
    && |entries| >= 2 && entries[0] == SIM_CONTROL_ENTRY && entries[1] == DRAM_ENTRY
    && (forall i :: 2 <= i < |entries| ==> entries[i].id == External(i - 2))
    && (forall i :: 0 <= i < |entries| ==> entries[i].base < entries[i].end)
    && (forall i, j :: 0 <= i < j < |entries| ==>
          !RangesOverlap(entries[i].base, entries[i].end, entries[j].base, entries[j].end))
  }

  /** The search finds the covering entry, wherever it stands, and nothing else. */
  lemma {:induction false} FindDeviceFinds(entries: seq<MemoryMapEntry>, addr: uint32, i: nat)
    requires i < |entries| && Covers(entries[i], addr)
    requires forall j, k :: 0 <= j < k < |entries| ==>
               !RangesOverlap(entries[j].base, entries[j].end, entries[k].base, entries[k].end)
    ensures FindDevice(entries, addr) == Some((entries[i].id, addr - entries[i].base))
  {
    if i > 0 {
      assert !RangesOverlap(entries[0].base, entries[0].end, entries[i].base, entries[i].end);
      FindDeviceFinds(entries[1..], addr, i - 1);
    }
  }

  lemma {:induction false} FindDeviceMisses(entries: seq<MemoryMapEntry>, addr: uint32)
    requires forall entry <- entries :: !Covers(entry, addr)
    ensures FindDevice(entries, addr) == None
  {
    if |entries| > 0 {
      FindDeviceMisses(entries[1..], addr);
    }
  }

  /** Every DRAM address is routed to DRAM, whatever has been registered. */
  lemma DramIsRouted(entries: seq<MemoryMapEntry>, addr: uint32)
    requires MapSound(entries) && InDram(addr)
    ensures FindDevice(entries, addr) == Some((Dram, addr - DRAM_BASE))
  {
    FindDeviceFinds(entries, addr, 1);
  }

  /** The word at 0xF000_0000 is the simulation control's, whatever has been registered. */
  lemma ControlIsRouted(entries: seq<MemoryMapEntry>, addr: uint32)
    requires MapSound(entries) && 0xF000_0000 <= addr < 0xF000_0004
    ensures FindDevice(entries, addr) == Some((SimControl, addr - 0xF000_0000))
  {
    FindDeviceFinds(entries, addr, 0);
  }

  /** Registering a device routes its range to it and moves no other address. */
  lemma {:induction false} RegistrationRoutes(entries: seq<MemoryMapEntry>, entry: MemoryMapEntry, addr: uint32)
    requires forall e <- entries :: !RangesOverlap(entry.base, entry.end, e.base, e.end)
    ensures FindDevice(entries + [entry], addr) ==
            if Covers(entry, addr) then Some((entry.id, addr - entry.base)) else FindDevice(entries, addr)
    ensures Covers(entry, addr) ==> FindDevice(entries, addr) == None
  {
    if |entries| == 0 {
      assert entries + [entry] == [entry];
      assert FindDevice([entry][1..], addr) == None;
    } else {
      assert (entries + [entry])[1..] == entries[1..] + [entry];
      RegistrationRoutes(entries[1..], entry, addr);
      assert !RangesOverlap(entry.base, entry.end, entries[0].base, entries[0].end);
    }
  }

  // ---- What one bus access does ----------------------------------------------------

  datatype BusState = BusState(mem: ByteMap, entries: seq<MemoryMapEntry>, log: seq<DeviceAccess>)

  /** The low bytes of a value, as many as the access is wide. */
  function Narrow(size: AccessSize, value: uint32): uint32 {
    Scalar(Le4(value)[..size.ByteCount()])
  }

  function BusRead(s: BusState, answers: DeviceAnswers, addr: uint32, size: AccessSize): (BusState, uint32) {
    match FindDevice(s.entries, addr)
    case None => (s, 0)
    case Some((id, offset)) =>
      if id.Dram? then (s, Scalar(Checked(s.mem, WrapAdd(DRAM_BASE, offset), size)))
      else
        var access := DeviceAccess(id, offset, size, false, 0);
        (s.(log := s.log + [access]),
         match answers(s.log, access) case None => 0 case Some(v) => Narrow(size, v))
  }

  function BusWrite(s: BusState, addr: uint32, size: AccessSize, value: uint32): BusState {
    match FindDevice(s.entries, addr)
    case None => s
    case Some((id, offset)) =>
      if id.Dram? then
        s.(mem := CheckedStore(s.mem, WrapAdd(DRAM_BASE, offset), Le4(value)[..size.ByteCount()]))
      else s.(log := s.log + [DeviceAccess(id, offset, size, true, Narrow(size, value))])
  }

  /** Values that fit one access. */
  function Capacity(size: AccessSize): nat {
    match size case Byte => 0x100 case Halfword => 0x1_0000 case Word => 0x1_0000_0000
  }

  lemma NarrowIsModulo(size: AccessSize, value: uint32)
    ensures Narrow(size, value) == value % Capacity(size)
  {
    var bs := Le4(value);
    LeValueUnfolds(bs[..size.ByteCount()]);
    match size
    case Byte =>
    case Halfword => assert value % 0x1_0000 == value % 0x100 + 0x100 * (value / 0x100 % 0x100);
    case Word => Le4Value(value); assert bs[..4] == bs;
  }

  /** Writing inside the range of a device other than DRAM, wherever its entry stands,
      leaves memory and the map alone and reaches that device exactly once: with the offset
      from the start of its range and the value cut to the width of the access. */
  lemma DeviceWrite(s: BusState, i: nat, addr: uint32, size: AccessSize, value: uint32)
    requires MapSound(s.entries) && i < |s.entries| && s.entries[i].id != Dram
    requires s.entries[i].base <= addr < s.entries[i].end
    ensures BusWrite(s, addr, size, value) ==
            BusState(s.mem, s.entries,
                     s.log + [DeviceAccess(s.entries[i].id, addr - s.entries[i].base, size, true,
                                           value % Capacity(size))])
  {
    hide Narrow, FindDevice;
    FindDeviceFinds(s.entries, addr, i);
    NarrowIsModulo(size, value);
  }

  /** Reading there reaches that device exactly once, and gives what it answers, cut to the
      width of the access, or zero when it reports an error. */
  lemma DeviceRead(s: BusState, answers: DeviceAnswers, i: nat, addr: uint32, size: AccessSize)
    requires MapSound(s.entries) && i < |s.entries| && s.entries[i].id != Dram
    requires s.entries[i].base <= addr < s.entries[i].end
    ensures var access := DeviceAccess(s.entries[i].id, addr - s.entries[i].base, size, false, 0);
            var (s', value) := BusRead(s, answers, addr, size);
            && s' == BusState(s.mem, s.entries, s.log + [access])
            && (answers(s.log, access).None? ==> value == 0)
            && (answers(s.log, access).Some? ==> value == answers(s.log, access).value % Capacity(size))
  {
    hide Narrow, FindDevice;
    FindDeviceFinds(s.entries, addr, i);
    var access := DeviceAccess(s.entries[i].id, addr - s.entries[i].base, size, false, 0);
    if answers(s.log, access).Some? {
      NarrowIsModulo(size, answers(s.log, access).value);
    }
  }

  /** At an address of no device nothing changes and a read gives zero. */
  lemma UnmappedAccess(s: BusState, answers: DeviceAnswers, addr: uint32, size: AccessSize, value: uint32)
    requires forall entry <- s.entries :: !(entry.base <= addr < entry.end)
    ensures BusWrite(s, addr, size, value) == s && BusRead(s, answers, addr, size) == (s, 0)
  {
    hide FindDevice;
    FindDeviceMisses(s.entries, addr);
  }

  /** A write at a DRAM address whose last byte is in DRAM too stores the low bytes of the
      value, least first; one that runs past the end is dropped. No device is reached. */
  lemma DramWrite(s: BusState, addr: uint32, size: AccessSize, value: uint32)
    requires MapSound(s.entries) && 0x8000_0000 <= addr <= 0x8FFF_FFFF
    ensures var s' := BusWrite(s, addr, size, value);
            var fits := addr + size.ByteCount() - 1 <= 0x8FFF_FFFF;
            && s'.log == s.log && s'.entries == s.entries
            && (forall k :: 0 <= k < size.ByteCount() && fits ==> ByteAt(s'.mem, addr + k) == Le4(value)[k])
            && (forall a: uint32 :: !fits || a < addr || addr + size.ByteCount() <= a ==>
                  ByteAt(s'.mem, a) == ByteAt(s.mem, a))
  {
    hide FindDevice, Le4, Store, ByteAt;
    DramIsRouted(s.entries, addr);
    assert WrapAdd(DRAM_BASE, addr - DRAM_BASE) == addr;
    hide MapSound;
    var bs := Le4(value)[..size.ByteCount()];
    if addr + |bs| - 1 <= DRAM_END {
      forall k | 0 <= k < |bs|
        ensures ByteAt(Store(s.mem, addr, bs), addr + k) == Le4(value)[k]
      {
        StoredByte(s.mem, addr, bs, k);
      }
      forall a: uint32 | a < addr || addr + |bs| <= a
        ensures ByteAt(Store(s.mem, addr, bs), a) == ByteAt(s.mem, a)
      {
        Untouched(s.mem, addr, bs, a);
      }
    }
  }

  /** A read at a DRAM address gives the value of its bytes, least first, or zero when it
      runs past the end; it changes nothing. */
  lemma DramRead(s: BusState, answers: DeviceAnswers, addr: uint32, size: AccessSize)
    requires MapSound(s.entries) && 0x8000_0000 <= addr <= 0x8FFF_FFFF
    ensures var (s', value) := BusRead(s, answers, addr, size);
            var fits := addr + size.ByteCount() - 1 <= 0x8FFF_FFFF;
            && s' == s
            && (forall k :: 0 <= k < 4 ==>
                  Le4(value)[k] == if fits && k < size.ByteCount() then ByteAt(s.mem, addr + k) else 0)
  {
    hide FindDevice, Le4, LeValue, Load, ByteAt;
    DramIsRouted(s.entries, addr);
    assert WrapAdd(DRAM_BASE, addr - DRAM_BASE) == addr;
    hide MapSound;
    var bs := Checked(s.mem, addr, size);
    ValueMirrors(bs);
    if addr + |bs| - 1 <= DRAM_END {
      forall k | 0 <= k < |bs|
        ensures bs[k] == ByteAt(s.mem, addr + k)
      {
        LoadedByte(s.mem, addr, |bs|, k);
      }
    }
  }

  /** The bus panics on an unmapped address in the RTL half. */
  predicate Reachable(entries: seq<MemoryMapEntry>, addr: uint32) {
    FindDevice(entries, addr).Some? || !IsRtlPeripheralAddr(addr)
  }

  class SystemBus {
    const memory: Memory
    const answers: DeviceAnswers
    var memoryMap: seq<MemoryMapEntry>
    var externalDevices: nat
    var accesses: seq<DeviceAccess>

    ghost predicate Valid()
      reads this
    {
      MapSound(memoryMap) && externalDevices == |memoryMap| - 2
    }

    ghost function State(): BusState
      reads this, memory
    {
      BusState(memory.data, memoryMap, accesses)
    }

    constructor (answers: DeviceAnswers)
      ensures Valid() && fresh(memory) && this.answers == answers
      ensures State() == BusState(map[], [SIM_CONTROL_ENTRY, DRAM_ENTRY], [])
    {
      this.answers := answers;
      memory := new Memory();
      memoryMap := [SIM_CONTROL_ENTRY, DRAM_ENTRY];
      externalDevices, accesses := 0, [];
    }

    /** A device of `size` bytes asks for the range at `base`. It gets it exactly when
        size and base are legal and no existing range overlaps; otherwise nothing changes
        and the first overlapping entry is reported. The end of the range saturates at
        the last address. */
    method RegisterDevice(base: uint32, size: uint32) returns (r: Result<Unit, RegistrationError>)
      requires Valid()
      modifies this`memoryMap, this`externalDevices
      ensures Valid()
      ensures var end: uint32 := if base + size < ADDRESS_SPACE then base + size else ADDRESS_SPACE - 1;
              && (size == 0 ==> r == Err(ZeroSize))
              && (size > 0 && size % 4 != 0 ==> r == Err(InvalidAlignment(size)))
              && (size > 0 && size % 4 == 0 && base % 4 != 0 ==> r == Err(InvalidBaseAlignment(base)))
              && (size > 0 && size % 4 == 0 && base % 4 == 0 ==>
                    if forall e <- old(memoryMap) :: !RangesOverlap(base, end, e.base, e.end)
                    then r.Ok? else r.Err? && r.error.AddressOverlap?)
              && (r.Ok? ==> memoryMap == old(memoryMap) + [MemoryMapEntry(base, end, External(old(externalDevices)))])
              && (r.Err? ==> memoryMap == old(memoryMap))
              && (r.Err? && r.error.AddressOverlap? ==>
                    && r.error.newBase == base && r.error.newEnd == end && r.error.existing in old(memoryMap)
                    && RangesOverlap(base, end, r.error.existing.base, r.error.existing.end))
    {
      if size == 0 {
        return Err(ZeroSize);
      }
      if size % 4 != 0 {
        return Err(InvalidAlignment(size));
      }
      if base % 4 != 0 {
        return Err(InvalidBaseAlignment(base));
      }
      var end: uint32 := if base + size < ADDRESS_SPACE then base + size else ADDRESS_SPACE - 1;
      for i := 0 to |memoryMap|
        invariant forall j :: 0 <= j < i ==> !RangesOverlap(base, end, memoryMap[j].base, memoryMap[j].end)
      {
        if RangesOverlap(base, end, memoryMap[i].base, memoryMap[i].end) {
          return Err(AddressOverlap(base, end, memoryMap[i]));
        }
      }
      memoryMap := memoryMap + [MemoryMapEntry(base, end, External(externalDevices))];
      externalDevices := externalDevices + 1;
      r := Ok(Unit);
    }

    method FindDeviceId(addr: uint32) returns (r: Option<(DeviceId, uint32)>)
      ensures r == FindDevice(memoryMap, addr)
    {
      for i := 0 to |memoryMap|
        invariant FindDevice(memoryMap, addr) == FindDevice(memoryMap[i..], addr)
      {
        if memoryMap[i].base <= addr < memoryMap[i].end {
          return Some((memoryMap[i].id, addr - memoryMap[i].base));
        }
      }
      r := None;
    }

    /** `read_byte`, `read_halfword` and `read_word`. */
    method Read(addr: uint32, size: AccessSize) returns (value: uint32)
      requires Reachable(memoryMap, addr)
      modifies this`accesses
      ensures (State(), value) == BusRead(old(State()), answers, addr, size)
    {
      var found := FindDeviceId(addr);
      match found
      case None => value := 0;
      case Some((id, offset)) =>
        if id.Dram? {
          value := ReadDram(offset, size);
        } else {
          var access := DeviceAccess(id, offset, size, false, 0);
          value := match answers(accesses, access) case None => 0 case Some(v) => Narrow(size, v);
          accesses := accesses + [access];
        }
    }

    method ReadDram(offset: uint32, size: AccessSize) returns (value: uint32)
      ensures value == Scalar(Checked(memory.data, WrapAdd(DRAM_BASE, offset), size))
    {
      var ctx := new SystemContext(memory, 0);
      var addr := WrapAdd(DRAM_BASE, offset);
      match size
      case Byte =>
        value := ctx.ReadByte(addr);
        LeValueUnfolds([value]);
      case Halfword => value := ctx.ReadHalfword(addr);
      case Word => value := ctx.ReadWord(addr);
    }

    /** `write_byte`, `write_halfword` and `write_word`. */
    method Write(addr: uint32, size: AccessSize, value: uint32)
      requires Reachable(memoryMap, addr)
      modifies this`accesses, memory
      ensures State() == BusWrite(old(State()), addr, size, value)
    {
      var found := FindDeviceId(addr);
      match found
      case None =>
      case Some((id, offset)) =>
        if id.Dram? {
          WriteDram(offset, size, value);
        } else {
          accesses := accesses + [DeviceAccess(id, offset, size, true, Narrow(size, value))];
        }
    }

    method WriteDram(offset: uint32, size: AccessSize, value: uint32)
      modifies memory
      ensures memory.data ==
              CheckedStore(old(memory.data), WrapAdd(DRAM_BASE, offset), Le4(value)[..size.ByteCount()])
    {
      var ctx := new SystemContext(memory, 0);
      var addr := WrapAdd(DRAM_BASE, offset);
      match size
      case Byte =>
        assert Le4(value)[..1] == [value % 0x100];
        ctx.WriteByte(addr, value % 0x100);
      case Halfword =>
        LowHalf(value);
        ctx.WriteHalfword(addr, value % 0x1_0000);
      case Word =>
        assert Le4(value)[..4] == Le4(value);
        ctx.WriteWord(addr, value);
    }
  }

  /** Truncating a word to its low half keeps its two low bytes. */
  lemma LowHalf(value: uint32)
    ensures Le4(value % 0x1_0000)[..2] == Le4(value)[..2]
  {
    var high := value / 0x100;
    assert value % 0x1_0000 == value % 0x100 + 0x100 * (high % 0x100);
  }
}
