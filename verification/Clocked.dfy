/** Events of a device that is clocked and written to. */
module Clocked {
  import opened Prelude

  /** What can happen to a device that is not reset. */
  datatype Op = WriteOp(offset: uint32, value: uint32) | ClockOp

  datatype Event = Event(now: nat, op: Op)

  function Clocks(events: seq<Event>): (n: nat)
    ensures n <= |events|
  {
    if |events| == 0 then 0 else (if events[0].op.ClockOp? then 1 else 0) + Clocks(events[1..])
  }

  predicate EndsWithClock(events: seq<Event>) {
    |events| > 0 && events[|events| - 1].op.ClockOp?
  }

  predicate Writes(e: Event, offset: uint32) {
    e.op.WriteOp? && e.op.offset == offset
  }

  lemma {:induction false} NoMoreClocks(events: seq<Event>)
    requires Clocks(events) == 0 && (|events| > 0 ==> EndsWithClock(events))
    ensures events == []
  {
    if |events| > 1 {
      NoMoreClocks(events[1..]);
    }
  }
}
