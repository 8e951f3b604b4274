/** Shared vocabulary: optional values, results, machine-width integers and
    little-endian conversions. */
module Prelude {

  datatype Option<+T> = None | Some(value: T)

  datatype Result<+T, +E> = Ok(value: T) | Err(error: E)

  datatype Unit = Unit

  type byte = x: int | 0 <= x < 0x100
  type uint16 = x: int | 0 <= x < 0x1_0000
  type uint32 = x: int | 0 <= x < 0x1_0000_0000

  const ADDRESS_SPACE: int := 0x1_0000_0000

  /** `u32::wrapping_add` */
  function WrapAdd(a: uint32, b: nat): uint32 {
    (a + b) % ADDRESS_SPACE
  }

  /** `u32::checked_add` */
  function CheckedAdd(a: uint32, b: uint32): Option<uint32> {
    if a + b < ADDRESS_SPACE then Some(a + b) else None
  }

  /** Value of a little-endian byte string; missing high bytes count as zero. */
  function LeValue(bs: seq<byte>): nat {
    if |bs| == 0 then 0 else bs[0] + 0x100 * LeValue(bs[1..])
  }

  /** The four little-endian bytes of a word. */
  function Le4(x: uint32): (bs: seq<byte>)
    ensures |bs| == 4
  {
    var high := x / 0x100;
    var higher := high / 0x100;
    [x % 0x100, high % 0x100, higher % 0x100, higher / 0x100]
  }

  lemma LeValueUnfolds(bs: seq<byte>)
    requires |bs| <= 4
    ensures |bs| == 0 ==> LeValue(bs) == 0
    ensures |bs| == 1 ==> LeValue(bs) == bs[0]
    ensures |bs| == 2 ==> LeValue(bs) == bs[0] as int + 0x100 * (bs[1] as int)
    ensures |bs| == 3 ==> LeValue(bs) == bs[0] as int + 0x100 * (bs[1] as int) + 0x1_0000 * (bs[2] as int)
    ensures |bs| == 4 ==>
              LeValue(bs) == bs[0] as int + 0x100 * (bs[1] as int) + 0x1_0000 * (bs[2] as int)
                             + 0x100_0000 * (bs[3] as int)
    ensures LeValue(bs) < ADDRESS_SPACE
    ensures |bs| <= 2 ==> LeValue(bs) < 0x1_0000
  {
    if |bs| > 0 {
      LeValueUnfolds(bs[1..]);
    }
  }

  /** A word is recovered from its little-endian bytes. */
  lemma Le4Value(x: uint32)
    ensures LeValue(Le4(x)) == x
  {
    LeValueUnfolds(Le4(x));
  }

  /** Four bytes are recovered from the word they spell. */
  lemma Le4Bytes(bs: seq<byte>)
    requires |bs| == 4
    ensures LeValue(bs) < ADDRESS_SPACE && Le4(LeValue(bs)) == bs
  {
    LeValueUnfolds(bs);
    var higher := bs[2] as int + 0x100 * (bs[3] as int);
    var high := bs[1] as int + 0x100 * higher;
    assert LeValue(bs) == bs[0] as int + 0x100 * high;
    assert LeValue(bs) / 0x100 == high;
    assert high / 0x100 == higher;
  }

  /** The scalar `x` holds the first four bytes of `data`, missing ones as zero. */
  predicate Mirrors(x: uint32, data: seq<byte>) {
    forall k :: 0 <= k < 4 ==> Le4(x)[k] == if k < |data| then data[k] else 0
  }

  /** The value of at most four bytes holds just those bytes. */
  lemma ValueMirrors(bs: seq<byte>)
    requires |bs| <= 4
    ensures LeValue(bs) < ADDRESS_SPACE && Mirrors(LeValue(bs), bs)
  {
    hide LeValue, Le4;
    var padded := bs + [0, 0, 0, 0][..4 - |bs|];
    LeValueUnfolds(bs);
    LeValueUnfolds(padded);
    Le4Bytes(padded);
  }
}
