/** Bulk reads by devices: each clock cycle takes the largest aligned chunk. */
module ChunkedReads {
  import opened Prelude
  import opened BusTypes
  import opened Memories

  function OptimalReadSize(addr: uint32, remaining: uint32): AccessSize {
    if remaining >= 4 && addr % 4 == 0 then Word
    else if remaining >= 2 && addr % 2 == 0 then Halfword
    else Byte
  }

  /** A chunk is exactly the bytes that single-byte reads would return. */
  method ReadMemoryChunk(ctx: SystemContext, addr: uint32, remaining: uint32)
    returns (bytes: seq<byte>, readSize: uint32)
    ensures |bytes| == 4 && readSize == OptimalReadSize(addr, remaining).ByteCount()
    ensures bytes[..readSize] == DeviceBytes(ctx.memory.data, addr, readSize)
    ensures forall i :: readSize <= i < 4 ==> bytes[i] == 0
  {
    hide DeviceBytes, Checked, Le4;
    var size := OptimalReadSize(addr, remaining);
    readSize := size.ByteCount();
    AlignedIsBytewise(ctx.memory.data, addr, size);
    match size
    case Word =>
      bytes := Le4(ctx.ReadWord(addr));
      Le4Bytes(Checked(ctx.memory.data, addr, Word));
    case Halfword =>
      var chunk := Le4(ctx.ReadHalfword(addr))[..2];
      HalfwordBytes(Checked(ctx.memory.data, addr, Halfword));
      bytes := chunk + [0, 0];
    case Byte =>
      bytes := [ctx.ReadByte(addr), 0, 0, 0];
  }

  lemma HalfwordBytes(bs: seq<byte>)
    requires |bs| == 2
    ensures Le4(Scalar(bs))[..2] == bs
  {
    LeValueUnfolds(bs);
    assert Scalar(bs) / 0x100 == bs[1];
  }

  /** A bulk read in progress. */
  datatype Fetch = Fetch(addr: uint32, remaining: uint32, data: seq<byte>)

  function FetchChunk(f: Fetch, m: ByteMap): Fetch
    requires f.remaining > 0
  {
    var n := OptimalReadSize(f.addr, f.remaining).ByteCount();
    Fetch(WrapAdd(f.addr, n), f.remaining - n, f.data + DeviceBytes(m, f.addr, n))
  }

  /** Clock cycles a bulk read takes. */
  function Cycles(addr: uint32, remaining: uint32): nat
    decreases remaining
  {
    if remaining == 0 then 0
    else
      var n := OptimalReadSize(addr, remaining).ByteCount();
      1 + Cycles(WrapAdd(addr, n), remaining - n)
  }

  /** What has been collected and what single-byte reads would still give add up to the
      same bytes after every chunk. */
  lemma FetchKeepsTotal(f: Fetch, m: ByteMap)
    requires f.remaining > 0
    ensures var f' := FetchChunk(f, m);
            && f'.data + DeviceBytes(m, f'.addr, f'.remaining) == f.data + DeviceBytes(m, f.addr, f.remaining)
            && Cycles(f.addr, f.remaining) == 1 + Cycles(f'.addr, f'.remaining)
  {
    hide OptimalReadSize, DeviceBytes;
    assert OptimalReadSize(f.addr, f.remaining).ByteCount() <= f.remaining by { ChunkFits(f.addr, f.remaining); }
    var n := OptimalReadSize(f.addr, f.remaining).ByteCount();
    DeviceBytesAppend(m, f.addr, n, f.remaining - n);
    var f' := FetchChunk(f, m);
    assert f'.data + DeviceBytes(m, f'.addr, f'.remaining) ==
           f.data + (DeviceBytes(m, f.addr, n) + DeviceBytes(m, f'.addr, f'.remaining));
  }

  lemma NothingLeft(m: ByteMap, f: Fetch)
    ensures f.data + DeviceBytes(m, f.addr, 0) == f.data
  {
  }

  lemma ChunkFits(addr: uint32, remaining: uint32)
    requires remaining > 0
    ensures 0 < OptimalReadSize(addr, remaining).ByteCount() <= remaining
  {
  }

  lemma WrapMod4(addr: uint32, k: nat)
    requires k <= 4
    ensures WrapAdd(addr, k) % 4 == (addr % 4 + k) % 4
  {
    assert addr + k < ADDRESS_SPACE || WrapAdd(addr, k) == addr + k - ADDRESS_SPACE;
  }

  lemma ChunkSize(addr: uint32, n: uint32)
    requires n > 0
    ensures var r := addr % 4;
            OptimalReadSize(addr, n).ByteCount() ==
            if n >= 4 && r == 0 then 4 else if n >= 2 && r != 1 && r != 3 then 2 else 1
  {
  }

  /** Only the address modulo 4 matters for the size of a chunk. */
  lemma CyclesStep(addr: uint32, n: uint32)
    ensures n == 0 ==> Cycles(addr, n) == 0
    ensures n > 0 ==>
              var r := addr % 4;
              var k := if n >= 4 && r == 0 then 4 else if n >= 2 && r != 1 && r != 3 then 2 else 1;
              && Cycles(addr, n) == 1 + Cycles(WrapAdd(addr, k), n - k)
              && WrapAdd(addr, k) % 4 == (r + k) % 4
  {
    hide WrapAdd;
    if n > 0 {
      ChunkSize(addr, n);
    }
    hide OptimalReadSize;
    WrapMod4(addr, OptimalReadSize(addr, n).ByteCount());
  }

  /** Cycles for the bytes after the last whole word. */
  function TailCycles(n: nat): nat {
    if n == 0 then 0 else if n == 3 then 2 else 1
  }

  lemma {:induction false} AlignedCycles(addr: uint32, n: uint32)
    requires addr % 4 == 0
    ensures Cycles(addr, n) == n / 4 + TailCycles(n % 4)
    decreases n
  {
    hide Cycles, WrapAdd;
    CyclesStep(addr, n);
    if n >= 4 {
      AlignedCycles(WrapAdd(addr, 4), n - 4);
    } else if n >= 2 {
      CyclesStep(WrapAdd(addr, 2), n - 2);
      if n == 3 {
        CyclesStep(WrapAdd(WrapAdd(addr, 2), 1), 0);
      }
    } else if n == 1 {
      CyclesStep(WrapAdd(addr, 1), 0);
    }
  }

  lemma HalfAlignedCycles(addr: uint32, n: uint32)
    requires addr % 4 == 2
    ensures Cycles(addr, n) == if n < 2 then n else 1 + (n - 2) / 4 + TailCycles((n - 2) % 4)
  {
    hide Cycles, WrapAdd;
    CyclesStep(addr, n);
    if n >= 2 {
      AlignedCycles(WrapAdd(addr, 2), n - 2);
    } else if n == 1 {
      CyclesStep(WrapAdd(addr, 1), 0);
    }
  }

  /** At most two cycles more than reading everything in words. */
  lemma CycleBound(addr: uint32, n: uint32)
    requires n > 0
    ensures (n + 3) / 4 <= Cycles(addr, n) <= (n + 3) / 4 + 2
  {
    hide Cycles, WrapAdd;
    if addr % 4 == 0 {
      AlignedCycles(addr, n);
    } else if addr % 4 == 2 {
      HalfAlignedCycles(addr, n);
    } else {
      CyclesStep(addr, n);
      if addr % 4 == 3 {
        AlignedCycles(WrapAdd(addr, 1), n - 1);
      } else {
        HalfAlignedCycles(WrapAdd(addr, 1), n - 1);
      }
    }
  }
}
