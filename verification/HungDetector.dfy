/** The detector that watches a simulated CPU for a stuck program counter and for
    instructions that never complete. */
module HungDetectors {
  import opened Prelude

  datatype Config = Config(
    pcStuckThreshold: uint32,
    maxCyclesPerInstruction: nat,
    pcHistorySize: nat,
    enablePcLoopDetection: bool,
    enableLongInstructionDetection: bool)

  datatype HungStateError =
    | PcStuck(pc: uint32, instruction: uint32, count: nat, history: seq<uint32>)
    | LongInstruction(pc: uint32, instruction: uint32, cycleCount: nat, fsmState: byte)

  /** One clock cycle as the detector sees it. */
  datatype Cycle = Cycle(count: nat, pc: uint32, instruction: uint32, fsmState: byte, complete: bool)

  // ---- Verdict on a trace ----------------------------------------------------------------

  /** Program counters of the completed instructions, oldest first. */
  function Completed(trace: seq<Cycle>): seq<uint32> {
    if |trace| == 0 then []
    else
      var last := trace[|trace| - 1];
      Completed(trace[..|trace| - 1]) + if last.complete then [last.pc] else []
  }

  function LastOf(pcs: seq<uint32>, n: nat): seq<uint32> {
    if |pcs| <= n then pcs else pcs[|pcs| - n..]
  }

  /** The last `n` program counters exist and are all equal. */
  predicate Stuck(pcs: seq<uint32>, n: nat) {
    n <= |pcs| && forall i :: |pcs| - n <= i < |pcs| ==> pcs[i] == pcs[|pcs| - 1]
  }

  /** A single completed instruction never counts as stuck. */
  function EffectiveThreshold(config: Config): nat {
    if config.pcStuckThreshold < 2 then 2 else config.pcStuckThreshold
  }

  /** The cycle since which the current instruction is timed: the last completion, or
      the first cycle seen. */
  function TimedSince(trace: seq<Cycle>): Cycle
    requires |trace| > 0
  {
    var last := trace[|trace| - 1];
    if last.complete || |trace| == 1 then last else TimedSince(trace[..|trace| - 1])
  }

  function Since(start: nat, now: nat): nat {
    if now >= start then now - start else 0
  }

  /** What has to be reported at a cycle, as a function of the cycles before it. */
  function Verdict(config: Config, trace: seq<Cycle>, cycle: Cycle): Option<HungStateError> {
    var pcs := Completed(trace + [cycle]);
    if config.enablePcLoopDetection && cycle.complete && Stuck(pcs, EffectiveThreshold(config)) then
      Some(PcStuck(cycle.pc, cycle.instruction, EffectiveThreshold(config), LastOf(pcs, config.pcHistorySize)))
    else if config.enableLongInstructionDetection && !cycle.complete && |trace| > 0
            && Since(TimedSince(trace).count, cycle.count) > config.maxCyclesPerInstruction then
      Some(LongInstruction(TimedSince(trace).pc, TimedSince(trace).instruction,
                           Since(TimedSince(trace).count, cycle.count), cycle.fsmState))
    else None
  }

  /** No report so far. */
  ghost predicate Healthy(config: Config, trace: seq<Cycle>) {
    |trace| == 0 ||
    (Healthy(config, trace[..|trace| - 1]) && Verdict(config, trace[..|trace| - 1], trace[|trace| - 1]) == None)
  }

  /** The completed counters are those of the completed cycles, in order: cycle `i` stands
      behind those completed before it. */
  lemma {:induction false} CompletedHas(trace: seq<Cycle>, i: nat)
    requires i < |trace| && trace[i].complete
    ensures var k := |Completed(trace[..i])|;
            k < |Completed(trace)| && Completed(trace)[k] == trace[i].pc
    decreases |trace|
  {
    var init := trace[..|trace| - 1];
    if i < |init| {
      CompletedHas(init, i);
      assert init[..i] == trace[..i];
    }
  }

  /** There are no others. */
  lemma {:induction false} CompletedOnly(trace: seq<Cycle>, k: nat) returns (i: nat)
    requires k < |Completed(trace)|
    ensures i < |trace| && trace[i].complete && k == |Completed(trace[..i])|
    decreases |trace|
  {
    var init := trace[..|trace| - 1];
    if k < |Completed(init)| {
      i := CompletedOnly(init, k);
      assert init[..i] == trace[..i];
    } else {
      i := |init|;
    }
  }

  /** The cycle an instruction is timed from is the last completed one, or the very first
      when none has been completed. */
  lemma {:induction false} TimedSinceIs(trace: seq<Cycle>) returns (k: nat)
    requires |trace| > 0
    ensures k < |trace| && TimedSince(trace) == trace[k] && (trace[k].complete || k == 0)
    ensures forall j :: k < j < |trace| ==> !trace[j].complete
  {
    k := |trace| - 1;
    if !trace[k].complete && k > 0 {
      k := TimedSinceIs(trace[..k]);
    }
  }

  /** What is reported, in full. A stuck counter: detection is on, this cycle completes an
      instruction, and the last so many completed ones, two at least, are all at its
      address. Failing that, a long instruction: detection is on, this cycle completes
      nothing, and more than the allowed cycles have gone by since the last completion, or
      since the first cycle when there is none. Otherwise nothing. */
  lemma VerdictExact(config: Config, trace: seq<Cycle>, cycle: Cycle) returns (k: nat)
    ensures |trace| > 0 ==>
              && k < |trace| && (trace[k].complete || k == 0)
              && forall j :: k < j < |trace| ==> !trace[j].complete
    ensures var n := if config.pcStuckThreshold < 2 then 2 else config.pcStuckThreshold;
            var pcs := Completed(trace + [cycle]);
            var stuck := && config.enablePcLoopDetection && cycle.complete && n <= |pcs|
                         && forall i :: |pcs| - n <= i < |pcs| ==> pcs[i] == cycle.pc;
            var long := && config.enableLongInstructionDetection && !cycle.complete && |trace| > 0
                        && trace[k].count + config.maxCyclesPerInstruction < cycle.count;
            match Verdict(config, trace, cycle)
            case None => !stuck && !long
            case Some(PcStuck(pc, instruction, count, history)) =>
              && stuck && pc == cycle.pc && instruction == cycle.instruction && count == n
              && |history| == (if |pcs| < config.pcHistorySize then |pcs| else config.pcHistorySize)
              && history == pcs[|pcs| - |history|..]
            case Some(LongInstruction(pc, instruction, count, fsmState)) =>
              && long && !stuck && pc == trace[k].pc && instruction == trace[k].instruction
              && count == cycle.count - trace[k].count && fsmState == cycle.fsmState
  {
    k := 0;
    if |trace| > 0 {
      k := TimedSinceIs(trace);
    }
    var pcs := Completed(trace + [cycle]);
    assert (trace + [cycle])[..|trace|] == trace;
    assert cycle.complete ==> |pcs| > 0 && pcs[|pcs| - 1] == cycle.pc;
    hide Completed, TimedSince;
  }

  // ---- The detector ----------------------------------------------------------------------------

  datatype PcLoop = PcLoop(history: seq<uint32>, last: Option<uint32>, stuckCount: nat)

  datatype Timing = Timing(pc: Option<uint32>, word: uint32, startCycle: nat)

  /** Length of the run of equal program counters at the end. */
  function RunLength(pcs: seq<uint32>): (n: nat)
    ensures n <= |pcs| && (|pcs| > 0 ==> n > 0)
  {
    if |pcs| == 0 then 0
    else if |pcs| > 1 && pcs[|pcs| - 1] == pcs[|pcs| - 2] then 1 + RunLength(pcs[..|pcs| - 1])
    else 1
  }

  lemma {:induction false} RunLengthIsStuck(pcs: seq<uint32>, n: nat)
    requires n > 0
    ensures RunLength(pcs) >= n <==> Stuck(pcs, n)
  {
    if |pcs| > 1 && pcs[|pcs| - 1] == pcs[|pcs| - 2] {
      var init := pcs[..|pcs| - 1];
      if n > 1 {
        RunLengthIsStuck(init, n - 1);
        if Stuck(init, n - 1) {
          forall i | |pcs| - n <= i < |pcs| ensures pcs[i] == pcs[|pcs| - 1] {
            assert i < |init| ==> init[i] == init[|init| - 1];
          }
        }
        if Stuck(pcs, n) {
          forall i | |init| - (n - 1) <= i < |init| ensures init[i] == init[|init| - 1] {
            assert pcs[i] == pcs[|pcs| - 1];
          }
        }
      }
    }
  }

  function Pushed(history: seq<uint32>, pc: uint32, size: nat): seq<uint32> {
    var pushed := history + [pc];
    if |pushed| > size then pushed[1..] else pushed
  }

  function NextCount(loop: PcLoop, pc: uint32): nat {
    if loop.last == Some(pc) then loop.stuckCount + 1 else 1
  }

  predicate Reports(config: Config, loop: PcLoop, pc: uint32) {
    loop.last == Some(pc) && loop.stuckCount + 1 >= config.pcStuckThreshold
  }

  /** The loop fields after these completed instructions, none of them reported. */
  ghost predicate LoopFollows(config: Config, loop: PcLoop, pcs: seq<uint32>) {
    && loop.history == LastOf(pcs, config.pcHistorySize)
    && loop.last == (if |pcs| == 0 then None else Some(pcs[|pcs| - 1]))
    && loop.stuckCount == RunLength(pcs) < EffectiveThreshold(config)
  }

  lemma PushedIsLast(pcs: seq<uint32>, pc: uint32, size: nat)
    ensures Pushed(LastOf(pcs, size), pc, size) == LastOf(pcs + [pc], size)
  {
  }

  /** One more completed instruction: the counter reports exactly when the last
      instructions are all at one address. */
  lemma LoopVerdict(config: Config, loop: PcLoop, pcs: seq<uint32>, pc: uint32)
    requires LoopFollows(config, loop, pcs)
    ensures Reports(config, loop, pc) <==> Stuck(pcs + [pc], EffectiveThreshold(config))
    ensures Reports(config, loop, pc) ==> NextCount(loop, pc) == EffectiveThreshold(config)
    ensures Pushed(loop.history, pc, config.pcHistorySize) == LastOf(pcs + [pc], config.pcHistorySize)
    ensures !Reports(config, loop, pc) ==>
              var history := Pushed(loop.history, pc, config.pcHistorySize);
              LoopFollows(config, PcLoop(history, Some(pc), NextCount(loop, pc)), pcs + [pc])
  {
    hide LastOf, Pushed, Stuck;
    PushedIsLast(pcs, pc, config.pcHistorySize);
    assert (pcs + [pc])[..|pcs|] == pcs;
    assert RunLength(pcs + [pc]) == NextCount(loop, pc);
    RunLengthIsStuck(pcs + [pc], EffectiveThreshold(config));
  }

  /** The timing fields after a trace. */
  ghost predicate TimingFollows(timing: Timing, trace: seq<Cycle>) {
    if |trace| == 0 then timing.pc.None?
    else timing == Timing(Some(TimedSince(trace).pc), TimedSince(trace).instruction, TimedSince(trace).count)
  }

  ghost predicate Follows(config: Config, loop: PcLoop, timing: Timing, trace: seq<Cycle>) {
    && (config.enablePcLoopDetection ==> LoopFollows(config, loop, Completed(trace)))
    && (config.enableLongInstructionDetection ==> TimingFollows(timing, trace))
  }

  lemma ExtendTrace(trace: seq<Cycle>, cycle: Cycle)
    ensures Completed(trace + [cycle]) == Completed(trace) + if cycle.complete then [cycle.pc] else []
    ensures TimedSince(trace + [cycle]) == if cycle.complete || trace == [] then cycle else TimedSince(trace)
    ensures forall config :: Healthy(config, trace + [cycle]) <==>
                             Healthy(config, trace) && Verdict(config, trace, cycle).None?
  {
    hide Verdict;
    assert (trace + [cycle])[..|trace|] == trace;
  }

  class HungDetector {
    const config: Config
    var loop: PcLoop
    var timing: Timing
    /** The cycles checked since the last reset. */
    ghost var trace: seq<Cycle>

    ghost predicate Valid()
      reads this
    {
      Healthy(config, trace) && Follows(config, loop, timing, trace)
    }

    constructor (config: Config)
      ensures Valid() && trace == [] && this.config == config
    {
      this.config := config;
      loop := PcLoop([], None, 0);
      timing := Timing(None, 0, 0);
      trace := [];
    }

    /** Up to the first report, what is reported is exactly the verdict on the cycles
        since the last reset. */
    method CheckCycle(cycle: Cycle) returns (r: Result<Unit, HungStateError>)
      requires Valid()
      modifies this
      ensures r.Ok? <==> Verdict(config, old(trace), cycle).None?
      ensures r.Err? ==> Verdict(config, old(trace), cycle) == Some(r.error)
      ensures r.Ok? ==> Valid() && trace == old(trace) + [cycle]
    {
      hide LastOf, Stuck, RunLength, Healthy, LoopFollows, Reports, NextCount, Pushed, Completed, TimedSince;
      ExtendTrace(trace, cycle);
      if config.enablePcLoopDetection {
        LoopVerdict(config, loop, Completed(trace), cycle.pc);
      }
      if cycle.complete {
        timing := timing.(pc := None, startCycle := cycle.count);
        if config.enablePcLoopDetection {
          var checked := CheckPcLoop(cycle.pc, cycle.instruction);
          if checked.Err? {
            return checked;
          }
        }
      } else {
        assert Completed(trace) + [] == Completed(trace);
      }
      if config.enableLongInstructionDetection {
        if timing.pc.Some? {
          var cycles := Since(timing.startCycle, cycle.count);
          if cycles > config.maxCyclesPerInstruction {
            return Err(LongInstruction(timing.pc.value, timing.word, cycles, cycle.fsmState));
          }
        } else {
          timing := Timing(Some(cycle.pc), cycle.instruction, cycle.count);
        }
      }
      trace := trace + [cycle];
      r := Ok(Unit);
    }

    method CheckPcLoop(pc: uint32, instruction: uint32) returns (r: Result<Unit, HungStateError>)
      modifies this`loop
      ensures r.Err? <==> Reports(config, old(loop), pc)
      ensures r.Err? ==>
                r.error == PcStuck(pc, instruction, NextCount(old(loop), pc),
                                   Pushed(old(loop).history, pc, config.pcHistorySize))
      ensures r.Ok? ==>
                loop == PcLoop(Pushed(old(loop).history, pc, config.pcHistorySize), Some(pc), NextCount(old(loop), pc))
    {
      loop := loop.(history := loop.history + [pc]);
      if |loop.history| > config.pcHistorySize {
        loop := loop.(history := loop.history[1..]);
      }
      if loop.last.Some? {
        if loop.last.value == pc {
          loop := loop.(stuckCount := loop.stuckCount + 1);
          if loop.stuckCount >= config.pcStuckThreshold {
            return Err(PcStuck(pc, instruction, loop.stuckCount, loop.history));
          }
        } else {
          loop := loop.(stuckCount := 1);
        }
      } else {
        loop := loop.(stuckCount := 1);
      }
      loop := loop.(last := Some(pc));
      r := Ok(Unit);
    }

    method Reset()
      modifies this
      ensures Valid() && trace == []
    {
      loop := PcLoop([], None, 0);
      timing := Timing(None, 0, 0);
      trace := [];
    }
  }
}
