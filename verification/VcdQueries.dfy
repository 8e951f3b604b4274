/** Queries on a recorded waveform: one pass over a time-sorted timeline each. */
module VcdQueries {
  import opened Prelude

  type Time = nat
  type SignalId = nat

  datatype Logic = V0 | V1 | X | Z

  datatype VcdValue = Scalar(bit: Logic) | Vector(bits: seq<Logic>) | Real(number: real) | Text(text: string) {
    function BitWidth(): nat {
      match this
      case Scalar(_) => 1
      case Vector(bits) => |bits|
      case Real(_) => 64
      case Text(_) => 0
    }

    /** Vectors list their most significant bit first; unknown and missing bits have no
        value. */
    function GetBit(index: nat): Option<bool> {
      match this
      case Scalar(bit) => if index == 0 then Known(bit) else None
      case Vector(bits) => if index < |bits| then Known(bits[|bits| - 1 - index]) else None
      case _ => None
    }
  }

  function Known(bit: Logic): Option<bool> {
    match bit
    case V0 => Some(false)
    case V1 => Some(true)
    case _ => None
  }

  datatype Entry = Entry(time: Time, changes: seq<(SignalId, VcdValue)>)

  datatype Change = Change(time: Time, value: VcdValue)

  ghost predicate Sorted(timeline: seq<Entry>) {
    forall i, j :: 0 <= i < j < |timeline| ==> timeline[i].time <= timeline[j].time
  }

  // ---- The history of one signal ----------------------------------------------------------

  /** Changes of a signal within one entry, in file order. */
  function Picks(time: Time, changes: seq<(SignalId, VcdValue)>, id: SignalId): seq<Change> {
    if |changes| == 0 then []
    else
      var (changed, value) := changes[|changes| - 1];
      Picks(time, changes[..|changes| - 1], id) + if changed == id then [Change(time, value)] else []
  }

  /** All changes of a signal, oldest first. */
  function History(timeline: seq<Entry>, id: SignalId): seq<Change> {
    if |timeline| == 0 then []
    else
      var last := timeline[|timeline| - 1];
      History(timeline[..|timeline| - 1], id) + Picks(last.time, last.changes, id)
  }

  // ---- Answers as functions of the history ---------------------------------------------------

  /** The changes in [start, end]. */
  function Within(h: seq<Change>, start: Time, end: Time): seq<Change> {
    if |h| == 0 then []
    else
      var last := h[|h| - 1];
      Within(h[..|h| - 1], start, end) + if start <= last.time <= end then [last] else []
  }

  /** The last change known when looking at [start, end]: changes before the start
      count as well. */
  function LastKnown(h: seq<Change>, start: Time, end: Time): Option<Change> {
    if |h| == 0 then None
    else if h[|h| - 1].time < start || h[|h| - 1].time <= end then Some(h[|h| - 1])
    else LastKnown(h[..|h| - 1], start, end)
  }

  function FirstKnown(h: seq<Change>, start: Time, end: Time): Option<Change> {
    if |h| == 0 then None
    else
      var last := h[|h| - 1];
      var first := FirstKnown(h[..|h| - 1], start, end);
      if first.None? && (last.time < start || last.time <= end) then Some(last) else first
  }

  function ValueAt(h: seq<Change>, time: Time): Option<VcdValue> {
    match LastKnown(h, 0, time) case None => None case Some(change) => Some(change.value)
  }

  /** The changes in range; if there are none, the one that set the value before. */
  function ChangesIn(h: seq<Change>, start: Time, end: Time): seq<Change> {
    var inside := Within(h, start, end);
    if inside != [] then inside
    else match LastKnown(h, start, end) case None => [] case Some(change) => [change]
  }

  datatype EdgeType = Rising | Falling | Both

  predicate IsEdge(kind: EdgeType, before: Option<bool>, after: Option<bool>) {
    before.Some? && after.Some? &&
    match kind
    case Rising => !before.value && after.value
    case Falling => before.value && !after.value
    case Both => before.value != after.value
  }

  function BitBefore(h: seq<Change>, bit: nat): Option<bool> {
    if |h| == 0 then None else h[|h| - 1].value.GetBit(bit)
  }

  /** Neighbouring changes that form an edge and of which the later lies in range. */
  function Edges(h: seq<Change>, kind: EdgeType, bit: nat, start: Time, end: Time): nat {
    if |h| == 0 then 0
    else
      var last := h[|h| - 1];
      var init := h[..|h| - 1];
      Edges(init, kind, bit, start, end) +
      if start <= last.time <= end && IsEdge(kind, BitBefore(init, bit), last.value.GetBit(bit)) then 1 else 0
  }

  // ---- The answers agree ------------------------------------------------------------------------

  /** Edge counts over adjoining ranges add up, and every edge rises or falls. */
  lemma {:induction false} EdgesSplit(h: seq<Change>, kind: EdgeType, bit: nat, start: Time, middle: Time, end: Time)
    requires start <= middle + 1 && middle <= end
    ensures Edges(h, kind, bit, start, middle) + Edges(h, kind, bit, middle + 1, end) == Edges(h, kind, bit, start, end)
    ensures Edges(h, Rising, bit, start, end) + Edges(h, Falling, bit, start, end) == Edges(h, Both, bit, start, end)
  {
    if |h| > 0 {
      EdgesSplit(h[..|h| - 1], kind, bit, start, middle, end);
    }
  }

  ghost predicate InOrder(h: seq<Change>) {
    forall i, j :: 0 <= i < j < |h| ==> h[i].time <= h[j].time
  }

  lemma {:induction false} WithinKeeps(h: seq<Change>, start: Time, end: Time)
    ensures Within(Within(h, start, end), start, end) == Within(h, start, end)
    ensures forall change <- Within(h, start, end) :: start <= change.time <= end
  {
    if |h| > 0 {
      WithinKeeps(h[..|h| - 1], start, end);
      var inside := Within(h, start, end);
      if start <= h[|h| - 1].time <= end {
        assert inside[..|inside| - 1] == Within(h[..|h| - 1], start, end);
      } else {
        assert inside == Within(h[..|h| - 1], start, end);
      }
    }
  }

  /** In an ordered history the last change in range, if there is any, is the last known
      one; otherwise that one lies before the range. */
  lemma {:induction false} LastOfRange(h: seq<Change>, start: Time, end: Time)
    requires InOrder(h) && start <= end
    ensures LastKnown(h, start, end) == LastKnown(h, 0, end)
    ensures var inside := Within(h, start, end);
            if inside != [] then LastKnown(h, start, end) == Some(inside[|inside| - 1])
            else LastKnown(h, start, end).Some? ==> LastKnown(h, start, end).value.time < start
  {
    if |h| > 0 {
      LastOfRange(h[..|h| - 1], start, end);
      if h[|h| - 1].time < start {
        NoneInside(h, start, end);
      }
    }
  }

  lemma {:induction false} NoneInside(h: seq<Change>, start: Time, end: Time)
    requires forall change <- h :: change.time < start
    ensures Within(h, start, end) == []
  {
    if |h| > 0 {
      assert h[|h| - 1] in h;
      NoneInside(h[..|h| - 1], start, end);
    }
  }

  /** A sorted timeline gives an ordered history. */
  lemma {:induction false} HistoryInOrder(timeline: seq<Entry>, id: SignalId)
    requires Sorted(timeline)
    ensures InOrder(History(timeline, id))
    ensures |timeline| > 0 ==> forall change <- History(timeline, id) :: change.time <= timeline[|timeline| - 1].time
  {
    if |timeline| > 0 {
      var init := timeline[..|timeline| - 1];
      var last := timeline[|timeline| - 1];
      HistoryInOrder(init, id);
      PicksAt(last.time, last.changes, id);
      if |init| > 0 {
        assert init[|init| - 1].time <= last.time;
      }
    }
  }

  datatype SignalSummary = SignalSummary(
    changeCount: nat,
    firstChangeTime: Option<Time>,
    lastChangeTime: Option<Time>,
    lastValue: Option<VcdValue>,
    bitWidth: nat)

  /** Counts and times of the changes in range, the last known value, and the width of
      the first known one; nothing when no value is known. */
  function SummaryOf(h: seq<Change>, start: Time, end: Time): Option<SignalSummary> {
    var inside := Within(h, start, end);
    match LastKnown(h, start, end)
    case None => None
    case Some(last) =>
      Some(SignalSummary(
        |inside|,
        if inside == [] then None else Some(inside[0].time),
        if inside == [] then None else Some(inside[|inside| - 1].time),
        Some(last.value),
        match FirstKnown(h, start, end) case None => 0 case Some(first) => first.value.BitWidth()))
  }

  /** The three queries agree. A summary exists exactly when the change list is not empty;
      it counts the entries of that list in range and gives the times of the first and the
      last of them, and its last value is both the last of the list and the value at the end
      of the range. */
  lemma SummaryAgrees(h: seq<Change>, start: Time, end: Time)
    requires InOrder(h) && start <= end
    ensures var changes := ChangesIn(h, start, end);
            var inside := Within(changes, start, end);
            match SummaryOf(h, start, end)
            case None => changes == [] && ValueAt(h, end) == None
            case Some(s) =>
              && changes != [] && s.changeCount == |inside|
              && s.firstChangeTime == (if inside == [] then None else Some(inside[0].time))
              && s.lastChangeTime == (if inside == [] then None else Some(inside[|inside| - 1].time))
              && s.lastValue == ValueAt(h, end) == Some(changes[|changes| - 1].value)
  {
    WithinKeeps(h, start, end);
    LastOfRange(h, start, end);
    var changes := ChangesIn(h, start, end);
    if Within(h, start, end) == [] && changes != [] {
      assert changes[..0] == [];
      assert Within(changes, start, end) == Within([], start, end) + [];
    }
  }

  // ---- Passes over the timeline ---------------------------------------------------------------------

  lemma HistoryStep(timeline: seq<Entry>, id: SignalId, i: nat)
    requires i < |timeline|
    ensures History(timeline[..i + 1], id) ==
            History(timeline[..i], id) + Picks(timeline[i].time, timeline[i].changes, id)
  {
    assert timeline[..i + 1][..i] == timeline[..i];
  }

  lemma PickStep(h: seq<Change>, entry: Entry, id: SignalId, j: nat)
    requires j < |entry.changes|
    ensures var before := h + Picks(entry.time, entry.changes[..j], id);
            var after := h + Picks(entry.time, entry.changes[..j + 1], id);
            after == if entry.changes[j].0 == id then before + [Change(entry.time, entry.changes[j].1)] else before
  {
    assert entry.changes[..j + 1][..j] == entry.changes[..j];
  }

  lemma {:induction false} PicksAt(time: Time, changes: seq<(SignalId, VcdValue)>, id: SignalId)
    ensures forall change <- Picks(time, changes, id) :: change.time == time
  {
    if |changes| > 0 {
      PicksAt(time, changes[..|changes| - 1], id);
    }
  }

  /** What the entries from `i` on contribute is no earlier than entry `i`. */
  lemma {:induction false} HistoryRest(timeline: seq<Entry>, id: SignalId, i: nat) returns (rest: seq<Change>)
    requires Sorted(timeline) && i < |timeline|
    ensures History(timeline, id) == History(timeline[..i], id) + rest
    ensures forall change <- rest :: change.time >= timeline[i].time
    decreases |timeline|
  {
    var n := |timeline| - 1;
    var last := timeline[n];
    PicksAt(last.time, last.changes, id);
    assert timeline[..n][..i] == timeline[..i];
    if i == n {
      rest := Picks(last.time, last.changes, id);
    } else {
      var init := HistoryRest(timeline[..n], id, i);
      assert last.time >= timeline[i].time;
      rest := init + Picks(last.time, last.changes, id);
      assert History(timeline[..i], id) + rest ==
             (History(timeline[..i], id) + init) + Picks(last.time, last.changes, id);
    }
  }

  /** Changes after the end of the range do not count. */
  lemma {:induction false} Beyond(h: seq<Change>, rest: seq<Change>, bit: nat, kind: EdgeType, start: Time, end: Time)
    requires forall change <- rest :: change.time >= start && change.time > end
    ensures Within(h + rest, start, end) == Within(h, start, end)
    ensures LastKnown(h + rest, start, end) == LastKnown(h, start, end)
    ensures FirstKnown(h + rest, start, end) == FirstKnown(h, start, end)
    ensures Edges(h + rest, kind, bit, start, end) == Edges(h, kind, bit, start, end)
    decreases |rest|
  {
    if |rest| == 0 {
      assert h + rest == h;
    } else {
      var init := rest[..|rest| - 1];
      assert rest[|rest| - 1] in rest;
      assert (h + rest)[..|h + rest| - 1] == h + init;
      assert Within(h + init, start, end) + [] == Within(h + init, start, end);
      Beyond(h, init, bit, kind, start, end);
    }
  }

  lemma OneMore(h: seq<Change>, change: Change, bit: nat, kind: EdgeType, start: Time, end: Time)
    ensures Within(h + [change], start, end) ==
            Within(h, start, end) + if start <= change.time <= end then [change] else []
    ensures LastKnown(h + [change], start, end) ==
            if change.time < start || change.time <= end then Some(change) else LastKnown(h, start, end)
    ensures FirstKnown(h + [change], start, end) ==
            if FirstKnown(h, start, end).None? && (change.time < start || change.time <= end) then Some(change)
            else FirstKnown(h, start, end)
    ensures Edges(h + [change], kind, bit, start, end) ==
            Edges(h, kind, bit, start, end) +
            if start <= change.time <= end && IsEdge(kind, BitBefore(h, bit), change.value.GetBit(bit)) then 1 else 0
    ensures BitBefore(h + [change], bit) == change.value.GetBit(bit)
  {
    assert (h + [change])[..|h|] == h;
  }

  /** The bit's value before the range starts counts for the first edge in it. The scan
      over one entry is the same before and inside the range but for the counting; this
      holds for all four queries. */
  method CountSignalEdges(timeline: seq<Entry>, id: SignalId, kind: EdgeType, bitIndex: Option<nat>,
                          start: Time, end: Time)
    returns (count: nat)
    requires Sorted(timeline)
    ensures count == Edges(History(timeline, id), kind, if bitIndex.Some? then bitIndex.value else 0, start, end)
  {
    hide History, Picks, Edges, Within, LastKnown, FirstKnown, BitBefore, IsEdge;
    var bit := if bitIndex.Some? then bitIndex.value else 0;
    count := 0;
    var lastBit: Option<bool> := None;
    Nothing(id, kind, bit, start, end);
    for i := 0 to |timeline|
      invariant count == Edges(History(timeline[..i], id), kind, bit, start, end)
      invariant lastBit == BitBefore(History(timeline[..i], id), bit)
    {
      var entry := timeline[i];
      ghost var h := History(timeline[..i], id);
      HistoryStep(timeline, id, i);
      if entry.time >= start && entry.time > end {
        ghost var rest := HistoryRest(timeline, id, i);
        Beyond(h, rest, bit, kind, start, end);
        return;
      }
      NoPicks(h, entry, id);
      for j := 0 to |entry.changes|
        invariant count == Edges(h + Picks(entry.time, entry.changes[..j], id), kind, bit, start, end)
        invariant lastBit == BitBefore(h + Picks(entry.time, entry.changes[..j], id), bit)
      {
        PickStep(h, entry, id, j);
        var (changed, value) := entry.changes[j];
        if changed == id {
          OneMore(h + Picks(entry.time, entry.changes[..j], id), Change(entry.time, value), bit, kind, start, end);
          var currentBit := value.GetBit(bit);
          if entry.time >= start && IsEdge(kind, lastBit, currentBit) {
            count := count + 1;
          }
          lastBit := currentBit;
        }
      }
      assert entry.changes[..|entry.changes|] == entry.changes;
    }
    assert timeline[..|timeline|] == timeline;
  }

  method GetSignalValueAt(timeline: seq<Entry>, id: SignalId, target: Time) returns (current: Option<VcdValue>)
    requires Sorted(timeline)
    ensures current == ValueAt(History(timeline, id), target)
  {
    hide History, Picks, Edges, Within, LastKnown, FirstKnown, BitBefore;
    current := None;
    Nothing(id, Both, 0, 0, target);
    for i := 0 to |timeline|
      invariant current == ValueAt(History(timeline[..i], id), target)
    {
      var entry := timeline[i];
      ghost var h := History(timeline[..i], id);
      HistoryStep(timeline, id, i);
      if entry.time > target {
        ghost var rest := HistoryRest(timeline, id, i);
        Beyond(h, rest, 0, Both, 0, target);
        return;
      }
      NoPicks(h, entry, id);
      for j := 0 to |entry.changes|
        invariant current == ValueAt(h + Picks(entry.time, entry.changes[..j], id), target)
      {
        PickStep(h, entry, id, j);
        var (changed, value) := entry.changes[j];
        if changed == id {
          OneMore(h + Picks(entry.time, entry.changes[..j], id), Change(entry.time, value), 0, Both, 0, target);
          current := Some(value);
        }
      }
      assert entry.changes[..|entry.changes|] == entry.changes;
    }
    assert timeline[..|timeline|] == timeline;
  }

  method GetSignalChanges(timeline: seq<Entry>, id: SignalId, start: Time, end: Time) returns (changes: seq<Change>)
    requires Sorted(timeline)
    ensures changes == ChangesIn(History(timeline, id), start, end)
  {
    hide History, Picks, Edges, Within, LastKnown, FirstKnown, BitBefore;
    changes := [];
    var lastValue: Option<Change> := None;
    Nothing(id, Both, 0, start, end);
    for i := 0 to |timeline|
      invariant changes == Within(History(timeline[..i], id), start, end)
      invariant lastValue == LastKnown(History(timeline[..i], id), start, end)
    {
      var entry := timeline[i];
      ghost var h := History(timeline[..i], id);
      HistoryStep(timeline, id, i);
      if entry.time >= start && entry.time > end {
        ghost var rest := HistoryRest(timeline, id, i);
        Beyond(h, rest, 0, Both, start, end);
        assert changes == Within(History(timeline, id), start, end);
        assert lastValue == LastKnown(History(timeline, id), start, end);
        return if changes == [] && lastValue.Some? then [lastValue.value] else changes;
      }
      NoPicks(h, entry, id);
      for j := 0 to |entry.changes|
        invariant changes == Within(h + Picks(entry.time, entry.changes[..j], id), start, end)
        invariant lastValue == LastKnown(h + Picks(entry.time, entry.changes[..j], id), start, end)
      {
        PickStep(h, entry, id, j);
        var (changed, value) := entry.changes[j];
        if changed == id {
          var change := Change(entry.time, value);
          OneMore(h + Picks(entry.time, entry.changes[..j], id), change, 0, Both, start, end);
          if entry.time >= start {
            changes := changes + [change];
          }
          lastValue := Some(change);
        }
      }
      assert entry.changes[..|entry.changes|] == entry.changes;
    }
    assert timeline[..|timeline|] == timeline;
    if changes == [] && lastValue.Some? {
      changes := [lastValue.value];
    }
  }

  function OrZero(width: Option<nat>): nat {
    match width case None => 0 case Some(w) => w
  }

  /** The summary's variables during the pass, after the history `h`. */
  ghost predicate Summarizes(h: seq<Change>, start: Time, end: Time, s: SignalSummary, width: Option<nat>) {
    var inside := Within(h, start, end);
    && s.changeCount == |inside|
    && s.firstChangeTime == (if inside == [] then None else Some(inside[0].time))
    && s.lastChangeTime == (if inside == [] then None else Some(inside[|inside| - 1].time))
    && s.lastValue == (match LastKnown(h, start, end) case None => None case Some(last) => Some(last.value))
    && width == (match FirstKnown(h, start, end) case None => None case Some(first) => Some(first.value.BitWidth()))
    && (s.lastValue.None? <==> width.None?)
  }

  method GetSignalSummary(timeline: seq<Entry>, id: SignalId, start: Time, end: Time) returns (r: Option<SignalSummary>)
    requires Sorted(timeline)
    ensures r == SummaryOf(History(timeline, id), start, end)
  {
    hide History, Picks, Edges, Within, LastKnown, FirstKnown, BitBefore;
    var s := SignalSummary(0, None, None, None, 0);
    var bitWidth: Option<nat> := None;
    Nothing(id, Both, 0, start, end);
    var i := 0;
    while i < |timeline|
      invariant i <= |timeline|
      invariant Summarizes(History(timeline[..i], id), start, end, s, bitWidth)
    {
      var entry := timeline[i];
      ghost var h := History(timeline[..i], id);
      HistoryStep(timeline, id, i);
      if entry.time >= start && entry.time > end {
        break;
      }
      NoPicks(h, entry, id);
      for j := 0 to |entry.changes|
        invariant Summarizes(h + Picks(entry.time, entry.changes[..j], id), start, end, s, bitWidth)
      {
        PickStep(h, entry, id, j);
        var (changed, value) := entry.changes[j];
        if changed == id {
          OneMore(h + Picks(entry.time, entry.changes[..j], id), Change(entry.time, value), 0, Both, start, end);
          if entry.time >= start {
            s := s.(changeCount := s.changeCount + 1, lastChangeTime := Some(entry.time));
            if s.firstChangeTime.None? {
              s := s.(firstChangeTime := Some(entry.time));
            }
          }
          s := s.(lastValue := Some(value));
          if bitWidth.None? {
            bitWidth := Some(value.BitWidth());
          }
        }
      }
      assert entry.changes[..|entry.changes|] == entry.changes;
      i := i + 1;
    }
    if i < |timeline| {
      ghost var rest := HistoryRest(timeline, id, i);
      Beyond(History(timeline[..i], id), rest, 0, Both, start, end);
    }
    assert timeline[..|timeline|] == timeline;
    assert Summarizes(History(timeline, id), start, end, s, bitWidth);
    r := if s.lastValue.Some? || bitWidth.Some? then Some(s.(bitWidth := OrZero(bitWidth))) else None;
  }

  lemma Nothing(id: SignalId, kind: EdgeType, bit: nat, start: Time, end: Time)
    ensures History([], id) == []
    ensures Edges([], kind, bit, start, end) == 0 && BitBefore([], bit) == None
    ensures Within([], start, end) == [] && LastKnown([], start, end) == None && FirstKnown([], start, end) == None
  {
  }

  lemma NoPicks(h: seq<Change>, entry: Entry, id: SignalId)
    ensures h + Picks(entry.time, entry.changes[..0], id) == h
  {
  }
}
