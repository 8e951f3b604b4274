/** The host-bus packet format: printing a packet, the whole-stream reference
    parser, and the proof that they are inverse to each other. */
module Packets {
  import opened Prelude
  import opened BusTypes

  // Packet types: 0 CPU request, 1 host response, 2 host request, 3 FPGA response.
  datatype Packet = Packet(
    kind: nat,
    size: AccessSize,
    we: bool,
    srcFixed: bool,
    dstFixed: bool,
    burstLen: uint32,
    addr: uint32,
    payload: seq<byte>)
  {
    /** What a parser can produce and a printer can print without loss. */
    predicate Legal() {
      && kind <= 3
      && 1 <= burstLen <= MAX_BURST_BEATS
      && |payload| == PayloadLen(kind, we, size, burstLen)
    }
  }

  /** Requests carry data when writing, responses when reading. */
  predicate CarriesPayload(kind: nat, we: bool) {
    if kind == 0 || kind == 2 then we else (kind == 1 || kind == 3) && !we
  }

  function PayloadLen(kind: nat, we: bool, size: AccessSize, burstLen: uint32): nat {
    if CarriesPayload(kind, we) then size.Span(burstLen) else 0
  }

  // ---- Printing -------------------------------------------------------------

  function Flag(b: bool): nat {
    if b then 1 else 0
  }

  function Ctrl0(kind: nat, size: AccessSize, srcFixed: bool, dstFixed: bool): byte {
    kind % 16 * 16 + size.SizeCode() as int * 4 + Flag(srcFixed) * 2 + Flag(dstFixed)
  }

  function Header(p: Packet): (bytes: seq<byte>)
    ensures |bytes| == 8
  {
    var lenM1: uint32 := (if p.burstLen == 0 then 0 else p.burstLen - 1) % 0x1_0000;
    [Ctrl0(p.kind, p.size, p.srcFixed, p.dstFixed), Flag(p.we), lenM1 % 0x100, lenM1 / 0x100] + Le4(p.addr)
  }

  function Encode(p: Packet): (bytes: seq<byte>)
    ensures |bytes| == 8 + |p.payload|
  {
    Header(p) + p.payload
  }

  function EncodeAll(ps: seq<Packet>): seq<byte> {
    if |ps| == 0 then [] else Encode(ps[0]) + EncodeAll(ps[1..])
  }

  // ---- Header fields --------------------------------------------------------

  function KindOf(ctrl0: byte): nat { ctrl0 / 16 }
  function SizeCodeOf(ctrl0: byte): nat { ctrl0 / 4 % 4 }
  predicate SrcFixedOf(ctrl0: byte) { ctrl0 / 2 % 2 != 0 }
  predicate DstFixedOf(ctrl0: byte) { ctrl0 % 2 != 0 }

  /** Bytes that can open a packet; the idle parser skips all others. */
  predicate IsStart(b: byte) {
    KindOf(b) <= 3 && SizeCodeOf(b) != 3
  }

  function SizeOf(ctrl0: byte): AccessSize
    requires IsStart(ctrl0)
  {
    if SizeCodeOf(ctrl0) == 0 then Byte else if SizeCodeOf(ctrl0) == 1 then Halfword else Word
  }

  function BurstLenOf(h: seq<byte>): (n: uint32)
    requires |h| >= 4
    ensures 1 <= n <= MAX_BURST_BEATS
  {
    h[2] as int + 0x100 * (h[3] as int) + 1
  }

  /** Length of the packet that starts with these header bytes. */
  function PacketLen(h: seq<byte>): nat
    requires |h| >= 4 && IsStart(h[0])
  {
    8 + PayloadLen(KindOf(h[0]), h[1] == 1, SizeOf(h[0]), BurstLenOf(h))
  }

  /** A proper prefix of some packet. */
  predicate Partial(s: seq<byte>) {
    && (|s| >= 1 ==> IsStart(s[0]))
    && (|s| >= 2 ==> s[1] <= 1)
    && (|s| >= 8 ==> |s| < PacketLen(s))
  }

  /** Exactly one packet. */
  predicate Whole(s: seq<byte>) {
    |s| >= 8 && IsStart(s[0]) && s[1] <= 1 && |s| == PacketLen(s)
  }

  function Decode(s: seq<byte>): Packet
    requires |s| >= 8 && IsStart(s[0])
  {
    LeValueUnfolds(s[4..8]);
    Packet(KindOf(s[0]), SizeOf(s[0]), s[1] == 1, SrcFixedOf(s[0]), DstFixedOf(s[0]), BurstLenOf(s),
           LeValue(s[4..8]), s[8..])
  }

  lemma Ctrl0Fields(kind: nat, size: AccessSize, srcFixed: bool, dstFixed: bool)
    requires kind <= 3
    ensures var b := Ctrl0(kind, size, srcFixed, dstFixed);
            && IsStart(b) && KindOf(b) == kind && SizeOf(b) == size
            && SrcFixedOf(b) == srcFixed && DstFixedOf(b) == dstFixed
  {
    var b := Ctrl0(kind, size, srcFixed, dstFixed);
    var code := size.SizeCode() as int;
    assert b == kind * 16 + code * 4 + Flag(srcFixed) * 2 + Flag(dstFixed);
    assert b / 2 == kind * 8 + code * 2 + Flag(srcFixed);
    assert b / 4 == kind * 4 + code;
    assert b / 16 == kind;
  }

  lemma Ctrl0Rebuilt(b: byte)
    requires IsStart(b)
    ensures Ctrl0(KindOf(b), SizeOf(b), SrcFixedOf(b), DstFixedOf(b)) == b
  {
    var q := b / 2;
    var r := q / 2;
    assert b == 2 * q + Flag(DstFixedOf(b));
    assert q == 2 * r + Flag(SrcFixedOf(b));
    assert b / 4 == r;
    assert r == 4 * (r / 4) + r % 4;
    assert b / 16 == r / 4;
  }

  lemma LengthField(burstLen: uint32, h: seq<byte>)
    requires 1 <= burstLen <= MAX_BURST_BEATS && |h| >= 4
    requires h[2] == (burstLen - 1) % 0x1_0000 % 0x100
    requires h[3] == (burstLen - 1) % 0x1_0000 / 0x100
    ensures BurstLenOf(h) == burstLen
  {
  }

  lemma HeaderFields(p: Packet)
    requires p.Legal()
    ensures var h := Header(p);
            && IsStart(h[0]) && KindOf(h[0]) == p.kind && SizeOf(h[0]) == p.size
            && SrcFixedOf(h[0]) == p.srcFixed && DstFixedOf(h[0]) == p.dstFixed
            && h[1] == Flag(p.we) && BurstLenOf(h) == p.burstLen && h[4..] == Le4(p.addr)
  {
    Ctrl0Fields(p.kind, p.size, p.srcFixed, p.dstFixed);
    LengthField(p.burstLen, Header(p));
  }

  /** Printing a legal packet yields exactly one packet, which decodes to itself. */
  lemma DecodeEncode(p: Packet)
    requires p.Legal()
    ensures Whole(Encode(p)) && Decode(Encode(p)) == p
  {
    hide IsStart, KindOf, SizeOf, SrcFixedOf, DstFixedOf, Header, Le4;
    var s := Encode(p);
    HeaderFields(p);
    Le4Value(p.addr);
    assert s[4..8] == Header(p)[4..];
    assert s[8..] == p.payload;
  }

  /** The wire format, byte by byte: kind, size code and fixed flags; the direction; the
      number of beats less one and the address, least byte first; then the payload, which
      requests have when they write and responses when they read. */
  lemma WireFormat(p: Packet)
    requires p.Legal()
    ensures var s := Encode(p);
            var code := match p.size case Byte => 0 case Halfword => 1 case Word => 2;
            var width := match p.size case Byte => 1 case Halfword => 2 case Word => 4;
            && s[0] == 16 * p.kind + 4 * code + (if p.srcFixed then 2 else 0) + (if p.dstFixed then 1 else 0)
            && s[1] == (if p.we then 1 else 0)
            && s[2] as int + 0x100 * s[3] as int == p.burstLen - 1
            && s[4] as int + 0x100 * s[5] as int + 0x1_0000 * s[6] as int + 0x100_0000 * s[7] as int == p.addr
            && s[8..] == p.payload
            && |s| == 8 + if (p.kind % 2 == 0) == p.we then width * p.burstLen else 0
  {
    hide IsStart, KindOf, SizeOf, SrcFixedOf, DstFixedOf, Le4;
    Le4Value(p.addr);
    LeValueUnfolds(Le4(p.addr));
    assert Encode(p)[4..8] == Le4(p.addr);
    assert p.payload == Encode(p)[8..];
  }

  lemma HeaderRebuilt(s: seq<byte>)
    requires |s| >= 8 && IsStart(s[0]) && s[1] <= 1
    ensures Header(Decode(s)) == s[..8]
  {
    hide IsStart, KindOf, SizeOf, SrcFixedOf, DstFixedOf, Ctrl0, Le4;
    Ctrl0Rebuilt(s[0]);
    Ctrl0KindSmall(s[0]);
    LeValueUnfolds(s[4..8]);
    Le4Bytes(s[4..8]);
    var h := Header(Decode(s));
    assert h[4..] == s[4..8];
    assert s[..8] == s[..4] + s[4..8] && h == h[..4] + h[4..];
    LengthRebuilt(s);
    assert h[..4] == s[..4];
  }

  lemma Ctrl0KindSmall(b: byte)
    requires IsStart(b)
    ensures KindOf(b) <= 3
  {
  }

  lemma LengthRebuilt(s: seq<byte>)
    requires |s| >= 4
    ensures var lenM1 := (BurstLenOf(s) - 1) % 0x1_0000;
            lenM1 % 0x100 == s[2] && lenM1 / 0x100 == s[3]
  {
    assert BurstLenOf(s) - 1 == s[2] as int + 0x100 * (s[3] as int);
  }

  /** Decoding a packet loses nothing: printing gives back its very bytes. */
  lemma EncodeDecode(s: seq<byte>)
    requires Whole(s)
    ensures Decode(s).Legal() && Encode(Decode(s)) == s
  {
    hide SizeOf, SrcFixedOf, DstFixedOf, Header;
    HeaderRebuilt(s);
    assert s == s[..8] + s[8..];
  }

  /** A packet cut anywhere is a partial packet. */
  lemma CutIsPartial(s: seq<byte>, n: nat)
    requires Whole(s) && n < |s|
    ensures Partial(s[..n])
  {
    if n >= 8 {
      assert PacketLen(s[..n]) == PacketLen(s);
    }
  }

  // ---- Whole-stream reference parser ----------------------------------------

  /** What a byte stream splits into: packets, and bytes dropped between them. */
  datatype Item = Junk(bytes: seq<byte>) | Framed(packet: Packet)

  datatype Parsed = Parsed(items: seq<Item>, rest: seq<byte>)

  /** Length of the first item of a stream; zero when it is still unfinished. A byte
      that cannot open a packet is dropped alone, and an opening byte is dropped
      together with a second byte whose reserved bits are set. */
  function HeadLen(s: seq<byte>): (n: nat)
    ensures n <= |s|
  {
    if |s| == 0 then 0
    else if !IsStart(s[0]) then 1
    else if |s| == 1 then 0
    else if s[1] > 1 then 2
    else if |s| < 8 || |s| < PacketLen(s) then 0
    else PacketLen(s)
  }

  function Head(s: seq<byte>): Item
    requires HeadLen(s) > 0
  {
    var n := HeadLen(s);
    if n <= 2 then Junk(s[..n]) else Framed(Decode(s[..n]))
  }

  function Parse(s: seq<byte>): Parsed {
    if HeadLen(s) == 0 then Parsed([], s)
    else
      var tail := Parse(s[HeadLen(s)..]);
      Parsed([Head(s)] + tail.items, tail.rest)
  }

  /** Items a sender may put on the wire: legal packets, single bytes that cannot
      open a packet, and aborted openings. */
  predicate WellFormed(item: Item) {
    match item
    case Framed(p) => p.Legal()
    case Junk(bs) => (|bs| == 1 && !IsStart(bs[0])) || (|bs| == 2 && IsStart(bs[0]) && bs[1] > 1)
  }

  function PrintItem(item: Item): seq<byte> {
    match item
    case Framed(p) => Encode(p)
    case Junk(bs) => bs
  }

  function Print(items: seq<Item>): seq<byte> {
    if |items| == 0 then [] else PrintItem(items[0]) + Print(items[1..])
  }

  /** The head of a stream is a well-formed item that prints to its own bytes. */
  lemma HeadPrints(s: seq<byte>)
    requires HeadLen(s) > 0
    ensures WellFormed(Head(s)) && PrintItem(Head(s)) == s[..HeadLen(s)]
  {
    var n := HeadLen(s);
    if n > 2 {
      assert PacketLen(s[..n]) == n;
      EncodeDecode(s[..n]);
    }
  }

  lemma UnfinishedIsPartial(s: seq<byte>)
    requires HeadLen(s) == 0
    ensures Partial(s)
  {
  }

  /** Bytes that follow a finished head do not change it. */
  lemma HeadIsStable(s: seq<byte>, t: seq<byte>)
    requires HeadLen(s) > 0
    ensures HeadLen(s + t) == HeadLen(s) && Head(s + t) == Head(s)
    ensures (s + t)[HeadLen(s)..] == s[HeadLen(s)..] + t
  {
    var n := HeadLen(s);
    if n > 2 {
      assert PacketLen(s + t) == PacketLen(s);
    }
    assert (s + t)[..n] == s[..n];
  }

  /** A well-formed item is the whole head of its own printed form. */
  lemma PrintedHead(item: Item)
    requires WellFormed(item)
    ensures HeadLen(PrintItem(item)) == |PrintItem(item)| > 0 && Head(PrintItem(item)) == item
  {
    var s := PrintItem(item);
    assert s[..|s|] == s;
    if item.Framed? {
      DecodeEncode(item.packet);
    }
  }

  /** Parse after print: any interleaving of legal packets and ignorable bytes is
      recovered item by item, with nothing left over. */
  lemma {:induction false} ParseAfterPrint(items: seq<Item>)
    requires forall item <- items :: WellFormed(item)
    ensures Parse(Print(items)) == Parsed(items, [])
  {
    hide HeadLen, Head, PrintItem, WellFormed;
    if |items| > 0 {
      var first := PrintItem(items[0]);
      var tail := Print(items[1..]);
      PrintedHead(items[0]);
      HeadIsStable(first, tail);
      assert first[|first|..] + tail == tail;
      ParseAfterPrint(items[1..]);
      assert [items[0]] + items[1..] == items;
    }
  }

  /** Print after parse: on any byte stream, printing the parsed items followed by
      the unfinished rest gives back every byte, and that rest is a partial packet. */
  lemma {:induction false} PrintAfterParse(s: seq<byte>)
    ensures Print(Parse(s).items) + Parse(s).rest == s
    ensures Partial(Parse(s).rest)
    decreases |s|
  {
    hide HeadLen, Head, PrintItem, WellFormed, Partial;
    var n := HeadLen(s);
    if n > 0 {
      HeadPrints(s);
      PrintAfterParse(s[n..]);
      var tail := Parse(s[n..]);
      assert Parse(s) == Parsed([Head(s)] + tail.items, tail.rest);
      PrintCons(Head(s), tail);
      SplitAt(s, n);
    } else {
      UnfinishedIsPartial(s);
      assert Print([]) == [] && [] + s == s;
    }
  }

  lemma SplitAt(s: seq<byte>, n: nat)
    requires n <= |s|
    ensures s[..n] + s[n..] == s
  {
  }

  /** Every parsed item is one a sender may legally put on the wire. */
  lemma {:induction false} ParsedItemsWellFormed(s: seq<byte>)
    ensures forall item <- Parse(s).items :: WellFormed(item)
    decreases |s|
  {
    hide HeadLen, Head, PrintItem, WellFormed;
    var n := HeadLen(s);
    if n > 0 {
      HeadPrints(s);
      ParsedItemsWellFormed(s[n..]);
    }
  }

  lemma PrintCons(item: Item, tail: Parsed)
    ensures Print([item] + tail.items) + tail.rest == PrintItem(item) + (Print(tail.items) + tail.rest)
  {
    hide PrintItem;
    assert ([item] + tail.items)[1..] == tail.items;
    assert Print([item] + tail.items) == PrintItem(item) + Print(tail.items);
  }

  lemma ParseHead(s: seq<byte>)
    ensures HeadLen(s) == 0 ==> Parse(s) == Parsed([], s)
    ensures HeadLen(s) > 0 ==>
              var tail := Parse(s[HeadLen(s)..]);
              Parse(s) == Parsed([Head(s)] + tail.items, tail.rest)
  {
    hide HeadLen, Head;
  }

  /** Parsing needs no more memory of the past than the unfinished rest. */
  lemma {:induction false} ParseContinues(s: seq<byte>, t: seq<byte>)
    ensures Parse(s + t) == Parsed(Parse(s).items + Parse(Parse(s).rest + t).items, Parse(Parse(s).rest + t).rest)
    decreases |s|
  {
    hide HeadLen, Head, Parse;
    var n := HeadLen(s);
    ParseHead(s);
    if n > 0 {
      HeadIsStable(s, t);
      ParseContinues(s[n..], t);
      ParseHead(s + t);
      var tail, more := Parse(s[n..]), Parse(Parse(s).rest + t);
      assert ([Head(s)] + tail.items) + more.items == [Head(s)] + (tail.items + more.items);
    } else {
      assert [] + Parse(s + t).items == Parse(s + t).items;
    }
  }

  /** How one more byte extends a partial packet. */
  lemma ParseOneMore(part: seq<byte>, b: byte)
    requires Partial(part)
    ensures var s := part + [b];
            Parse(s) == (if |s| == 1 && !IsStart(b) then Parsed([Junk(s)], [])
                         else if |s| == 2 && b > 1 then Parsed([Junk(s)], [])
                         else if |s| < 8 || |s| < PacketLen(s) then Parsed([], s)
                         else Parsed([Framed(Decode(s))], []))
    ensures |part| >= 7 ==> |part + [b]| <= PacketLen(part + [b])
  {
    var s := part + [b];
    if |part| >= 8 {
      assert PacketLen(part) == PacketLen(s);
    }
    assert s[..|s|] == s && s[|s|..] == [];
    assert Parse([]) == Parsed([], []);
  }

  lemma {:induction false} EncodeAllAppend(ps: seq<Packet>, p: Packet)
    ensures EncodeAll(ps + [p]) == EncodeAll(ps) + Encode(p)
  {
    hide Encode;
    if |ps| == 0 {
      assert ps + [p] == [p];
      assert EncodeAll([]) == [];
      assert EncodeAll([p]) == Encode(p) + EncodeAll([p][1..]);
    } else {
      EncodeAllAppend(ps[1..], p);
      assert (ps + [p])[1..] == ps[1..] + [p];
      assert EncodeAll(ps) == Encode(ps[0]) + EncodeAll(ps[1..]);
      assert EncodeAll(ps + [p]) == Encode(ps[0]) + (EncodeAll(ps[1..]) + Encode(p));
    }
  }
}
