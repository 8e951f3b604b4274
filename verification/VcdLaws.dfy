/** What the waveform queries mean, element by element. */
module VcdLaws {
  import opened Prelude
  import opened VcdQueries

  // ---- Bits and edges -----------------------------------------------------------------

  /** The number that a fully known vector spells, most significant bit first. */
  function Number(bits: seq<Logic>): nat {
    if |bits| == 0 then 0 else 2 * Number(bits[..|bits| - 1]) + if bits[|bits| - 1].V1? then 1 else 0
  }

  function Power2(k: nat): nat {
    if k == 0 then 1 else 2 * Power2(k - 1)
  }

  /** Bit `k` of a known vector is the one of weight 2^k in its number. */
  lemma {:induction false} BitHasWeight(bits: seq<Logic>, k: nat)
    requires k < |bits| && forall bit <- bits :: bit.V0? || bit.V1?
    ensures Power2(k) > 0
    ensures Vector(bits).GetBit(k) == Some(Number(bits) / Power2(k) % 2 == 1)
  {
    var init := bits[..|bits| - 1];
    var low := if bits[|bits| - 1].V1? then 1 else 0;
    assert Number(bits) == 2 * Number(init) + low;
    if k > 0 {
      BitHasWeight(init, k - 1);
      HalfThenRest(Number(init), low, Power2(k - 1));
      assert init[|init| - 1 - (k - 1)] == bits[|bits| - 1 - k];
    }
  }

  lemma HalfThenRest(n: nat, low: nat, d: nat)
    requires low <= 1 && d > 0
    ensures (2 * n + low) / (2 * d) == n / d
  {
    var q, r := n / d, n % d;
    assert n == q * d + r;
    assert 2 * n + low == q * (2 * d) + (2 * r + low) && 2 * r + low < 2 * d;
    QuotientIs(2 * n + low, 2 * d, q, 2 * r + low);
  }

  lemma QuotientIs(n: nat, d: nat, q: nat, r: nat)
    requires d > 0 && n == q * d + r && r < d
    ensures n / d == q
  {
    var p := n / d;
    assert p * d <= n < p * d + d;
    assert p < q ==> (p + 1) * d <= q * d;
    assert q < p ==> (q + 1) * d <= p * d;
  }

  /** A bit has a value exactly when the signal is a scalar or vector that has this bit, and
      the bit is 0 or 1; a scalar has one bit. Its width counts its bits, 64 for a real. */
  lemma BitExact(value: VcdValue, k: nat)
    ensures value.GetBit(k).Some? <==>
            || (value.Scalar? && k == 0 && (value.bit.V0? || value.bit.V1?))
            || (value.Vector? && k < |value.bits| && value.bits[|value.bits| - 1 - k] in {V0, V1})
    ensures value.Scalar? && value.GetBit(k).Some? ==> value.GetBit(k).value == value.bit.V1?
    ensures value.BitWidth() == match value
                                case Scalar(_) => 1 case Vector(bits) => |bits| case Real(_) => 64 case Text(_) => 0
  {
  }

  /** A rising edge goes from 0 to 1, a falling edge from 1 to 0; an unknown bit on either
      side is no edge. */
  lemma EdgeExact(kind: EdgeType, before: Option<bool>, after: Option<bool>)
    ensures IsEdge(kind, before, after) <==>
            || (kind != Falling && before == Some(false) && after == Some(true))
            || (kind != Rising && before == Some(true) && after == Some(false))
  {
  }

  // ---- Histories -----------------------------------------------------------------------

  /** The position of the j-th change of entry i in the history of its signal. */
  function Place(timeline: seq<Entry>, id: SignalId, i: nat, j: nat): nat
    requires i < |timeline| && j < |timeline[i].changes|
  {
    |History(timeline[..i], id)| + |Picks(timeline[i].time, timeline[i].changes[..j], id)|
  }

  lemma {:induction false} PickedAt(time: Time, changes: seq<(SignalId, VcdValue)>, id: SignalId, j: nat)
    requires j < |changes| && changes[j].0 == id
    ensures var k := |Picks(time, changes[..j], id)|;
            k < |Picks(time, changes, id)| && Picks(time, changes, id)[k] == Change(time, changes[j].1)
    decreases |changes|
  {
    var init := changes[..|changes| - 1];
    if j < |init| {
      PickedAt(time, init, id, j);
      assert init[..j] == changes[..j];
    }
  }

  lemma {:induction false} PickedFrom(time: Time, changes: seq<(SignalId, VcdValue)>, id: SignalId, k: nat)
    returns (j: nat)
    requires k < |Picks(time, changes, id)|
    ensures j < |changes| && changes[j].0 == id && k == |Picks(time, changes[..j], id)|
    decreases |changes|
  {
    var init := changes[..|changes| - 1];
    if k < |Picks(time, init, id)| {
      j := PickedFrom(time, init, id, k);
      assert init[..j] == changes[..j];
    } else {
      j := |init|;
    }
  }

  /** Every recorded change of the signal is in its history, at the place that the changes
      before it leave, with the time of its entry and its own value. */
  lemma {:induction false} HistoryHas(timeline: seq<Entry>, id: SignalId, i: nat, j: nat)
    requires i < |timeline| && j < |timeline[i].changes| && timeline[i].changes[j].0 == id
    ensures var k := Place(timeline, id, i, j);
            && k < |History(timeline, id)|
            && History(timeline, id)[k] == Change(timeline[i].time, timeline[i].changes[j].1)
    decreases |timeline|
  {
    var init := timeline[..|timeline| - 1];
    if i < |init| {
      HistoryHas(init, id, i, j);
      assert init[..i] == timeline[..i];
    } else {
      PickedAt(timeline[i].time, timeline[i].changes, id, j);
    }
  }

  /** Nothing else is in the history: each place belongs to one recorded change. */
  lemma {:induction false} HistoryOnly(timeline: seq<Entry>, id: SignalId, k: nat) returns (i: nat, j: nat)
    requires k < |History(timeline, id)|
    ensures i < |timeline| && j < |timeline[i].changes| && timeline[i].changes[j].0 == id
    ensures k == Place(timeline, id, i, j)
    decreases |timeline|
  {
    var init := timeline[..|timeline| - 1];
    var last := timeline[|timeline| - 1];
    if k < |History(init, id)| {
      i, j := HistoryOnly(init, id, k);
      assert init[..i] == timeline[..i];
    } else {
      i := |init|;
      j := PickedFrom(last.time, last.changes, id, k - |History(init, id)|);
    }
  }

  // ---- Ranges ----------------------------------------------------------------------------

  predicate InRange(change: Change, start: Time, end: Time) {
    start <= change.time && change.time <= end
  }

  /** Exactly the changes from `lo` to before `hi` are in range. */
  ghost predicate Stretch(h: seq<Change>, lo: nat, hi: nat, start: Time, end: Time) {
    lo <= hi <= |h| && forall i :: 0 <= i < |h| ==> (lo <= i < hi <==> InRange(h[i], start, end))
  }

  /** In an ordered history the changes in range are one stretch, and all of them. */
  lemma {:induction false} WithinIsStretch(h: seq<Change>, start: Time, end: Time) returns (lo: nat, hi: nat)
    requires InOrder(h)
    ensures Stretch(h, lo, hi, start, end) && Within(h, start, end) == h[lo..hi]
  {
    if |h| == 0 {
      lo, hi := 0, 0;
    } else {
      InOrderInit(h);
      var last := h[|h| - 1];
      var init := h[..|h| - 1];
      lo, hi := WithinIsStretch(init, start, end);
      WithinOneMore(h, start, end);
      hide Within, InOrder, Stretch;
      if InRange(last, start, end) {
        StretchGrows(h, lo, hi, start, end);
        lo, hi := if lo < hi then lo else |h| - 1, |h|;
      } else {
        StretchStays(h, lo, hi, start, end);
      }
    }
  }

  lemma StretchStays(h: seq<Change>, lo: nat, hi: nat, start: Time, end: Time)
    requires |h| > 0 && Stretch(h[..|h| - 1], lo, hi, start, end) && !InRange(h[|h| - 1], start, end)
    ensures Stretch(h, lo, hi, start, end) && h[lo..hi] == h[..|h| - 1][lo..hi]
  {
    hide InRange;
    var init := h[..|h| - 1];
    assert forall i :: 0 <= i < |init| ==> init[i] == h[i];
  }

  lemma StretchGrows(h: seq<Change>, lo: nat, hi: nat, start: Time, end: Time)
    requires InOrder(h) && |h| > 0
    requires Stretch(h[..|h| - 1], lo, hi, start, end) && InRange(h[|h| - 1], start, end)
    ensures var from: nat := if lo < hi then lo else |h| - 1;
            Stretch(h, from, |h|, start, end) && h[from..|h|] == h[..|h| - 1][lo..hi] + [h[|h| - 1]]
  {
    hide InRange, InOrder;
    var n := |h| - 1;
    var init := h[..n];
    assert forall i :: 0 <= i < n ==> init[i] == h[i];
    if lo < hi {
      assert InRange(init[lo], start, end);
      ReachesEnd(h, lo, start, end);
      assert InRange(init[n - 1], start, end);
      assert hi == n;
    }
  }

  lemma InOrderInit(h: seq<Change>)
    requires InOrder(h) && |h| > 0
    ensures InOrder(h[..|h| - 1])
  {
  }

  lemma ReachesEnd(h: seq<Change>, lo: nat, start: Time, end: Time)
    requires InOrder(h) && lo < |h| - 1 && InRange(h[lo], start, end) && InRange(h[|h| - 1], start, end)
    ensures InRange(h[|h| - 2], start, end)
  {
    assert h[lo].time <= h[|h| - 2].time <= h[|h| - 1].time;
  }

  lemma WithinOneMore(h: seq<Change>, start: Time, end: Time)
    requires |h| > 0
    ensures var last := h[|h| - 1];
            Within(h, start, end) ==
            Within(h[..|h| - 1], start, end) + if InRange(last, start, end) then [last] else []
  {
  }

  /** Whether a query over [start, end] looks at this change. */
  predicate LookedAt(change: Change, start: Time, end: Time) {
    change.time < start || change.time <= end
  }

  /** The value before or in the range is that of the last change the query looks at, and
      the width that of the first. */
  lemma {:induction false} KnownExact(h: seq<Change>, start: Time, end: Time)
    ensures match LastKnown(h, start, end)
            case None => forall i :: 0 <= i < |h| ==> !LookedAt(h[i], start, end)
            case Some(change) =>
              exists i :: 0 <= i < |h| && h[i] == change && LookedAt(h[i], start, end)
                          && forall j :: i < j < |h| ==> !LookedAt(h[j], start, end)
    ensures match FirstKnown(h, start, end)
            case None => forall i :: 0 <= i < |h| ==> !LookedAt(h[i], start, end)
            case Some(change) =>
              exists i :: 0 <= i < |h| && h[i] == change && LookedAt(h[i], start, end)
                          && forall j :: 0 <= j < i ==> !LookedAt(h[j], start, end)
  {
    if |h| > 0 {
      var init := h[..|h| - 1];
      KnownExact(init, start, end);
      assert forall i :: 0 <= i < |init| ==> init[i] == h[i];
    }
  }

  /** The width in a summary is that of the signal's very first change. */
  lemma SummaryWidth(h: seq<Change>, start: Time, end: Time)
    requires InOrder(h) && start <= end && SummaryOf(h, start, end).Some?
    ensures |h| > 0 && SummaryOf(h, start, end).value.bitWidth == h[0].value.BitWidth()
  {
    hide LastKnown, FirstKnown, Within;
    KnownExact(h, start, end);
    assert forall i :: 0 <= i < |h| && LookedAt(h[i], start, end) ==> LookedAt(h[0], start, end);
  }

  /** The changes that are edges in range: a known bit before, the opposite bit now. */
  predicate EdgeAt(h: seq<Change>, i: nat, kind: EdgeType, bit: nat, start: Time, end: Time) {
    && 0 < i < |h| && InRange(h[i], start, end)
    && var before, after := h[i - 1].value.GetBit(bit), h[i].value.GetBit(bit);
       || (kind != Falling && before == Some(false) && after == Some(true))
       || (kind != Rising && before == Some(true) && after == Some(false))
  }

  function EdgePlaces(h: seq<Change>, kind: EdgeType, bit: nat, start: Time, end: Time): set<nat> {
    set i: nat | i < |h| && EdgeAt(h, i, kind, bit, start, end)
  }

  /** The edge count is the number of places in the history with an edge in range. */
  lemma {:induction false} EdgesCounted(h: seq<Change>, kind: EdgeType, bit: nat, start: Time, end: Time)
    ensures Edges(h, kind, bit, start, end) == |EdgePlaces(h, kind, bit, start, end)|
  {
    if |h| == 0 {
      assert EdgePlaces(h, kind, bit, start, end) == {};
    } else {
      var init := h[..|h| - 1];
      EdgesCounted(init, kind, bit, start, end);
      LastEdge(h, kind, bit, start, end);
      PlacesGrow(h, kind, bit, start, end);
      hide EdgeAt, Edges, EdgePlaces;
    }
  }

  lemma PlacesGrow(h: seq<Change>, kind: EdgeType, bit: nat, start: Time, end: Time)
    requires |h| > 0
    ensures var n := |h| - 1;
            var places := EdgePlaces(h[..n], kind, bit, start, end);
            && n !in places
            && EdgePlaces(h, kind, bit, start, end) ==
               places + if EdgeAt(h, n, kind, bit, start, end) then {n} else {}
  {
    var n := |h| - 1;
    forall i: nat | i < n
      ensures EdgeAt(h[..n], i, kind, bit, start, end) <==> EdgeAt(h, i, kind, bit, start, end)
    {
      hide VcdValue.GetBit;
      assert i > 0 ==> h[..n][i - 1] == h[i - 1];
    }
    hide EdgeAt;
  }

  lemma LastEdge(h: seq<Change>, kind: EdgeType, bit: nat, start: Time, end: Time)
    requires |h| > 0
    ensures var n := |h| - 1;
            Edges(h, kind, bit, start, end) ==
            Edges(h[..n], kind, bit, start, end) + if EdgeAt(h, n, kind, bit, start, end) then 1 else 0
  {
    EdgeExact(kind, BitBefore(h[..|h| - 1], bit), h[|h| - 1].value.GetBit(bit));
    hide IsEdge, VcdValue.GetBit;
  }
}
