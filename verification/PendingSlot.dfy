/** The simulator runtime's hand-off: a caller thread and a worker thread share one
    locked pending slot and two queues. */
module PendingSlots {
  import opened Prelude
  import opened BusTypes
  import opened DirectBurst
  import HandlerSpec

  // ---- State -----------------------------------------------------------------------

  /** The shared slot; `fill` counts how often it has been filled. */
  datatype Slot = Slot(addr: uint32, wdata: uint32, fill: nat)

  /** A response, and the filling whose request it answers, if any. */
  datatype Reply = Reply(answers: Option<nat>, response: BusResponse)

  /** The part of the simulator that holds a host request or its response. */
  datatype Simulator = Simulator(direct: Option<Reply>, outgoing: Option<nat>, arrived: Option<Reply>)

  datatype Caller = Idle | Sending

  /** Where the worker loop stands. `Rejecting`, `TimingOut` and `Responding` are inside
      a locked section. */
  datatype Worker =
    | Receiving
    | Rejected
    | Rejecting
    | Stepping
    | CheckingTimeout
    | TimingOut(timedOut: Slot)
    | CheckingResponse
    | Responding(completed: Slot, reply: Reply)

  /** A completion event, and which request the reported response answers. */
  datatype Emission = Emission(event: BusEvent, answers: Option<nat>)

  /** What was found for a request: the bytes of a direct access, or the response of the
      target. */
  datatype Found = Bytes(bytes: seq<byte>) | Answer(response: BusResponse)

  /** `fills` are the requests that filled the slot so far; `commands` the fillings whose
      request is queued for the worker; of `emitted` the first `polled` have been
      dequeued by the caller. `found` records, for each filling, what was first found for
      its request. */
  datatype State = State(
    slot: Option<Slot>,
    caller: Caller,
    worker: Worker,
    commands: seq<nat>,
    sim: Simulator,
    fills: seq<BusRequest>,
    emitted: seq<Emission>,
    polled: nat,
    found: map<nat, Found>)
  {
    predicate Locked() {
      worker.Rejecting? || worker.TimingOut? || worker.Responding?
    }
  }

  function Initial(): State {
    State(None, Idle, Receiving, [], Simulator(None, None, None), [], [], 0, map[])
  }

  // ---- Steps -------------------------------------------------------------------------

  /** Steps of either thread. Choices of the environment are arguments: the bytes a
      direct read finds, a response frame from the target, whether time is up, and
      whether the target has a request of its own in progress. */
  datatype Step =
    | Send(request: BusRequest)
    | PushCommand
    | Poll
    | HasPending
    | Receive(bytes: seq<byte>)
    | RejectLocked
    | RejectClear
    | Cycle(arrival: Option<Reply>)
    | CheckTimeout(expired: bool)
    | EmitTimeout
    | CheckResponse(accepted: bool)
    | EmitResponse

  ghost predicate Enabled(s: State, step: Step) {
    match step
    case Send(_) => s.caller.Idle? && !s.Locked()
    case PushCommand => s.caller.Sending? && |s.fills| > 0
    case Poll => s.caller.Idle? && s.polled < |s.emitted|
    case HasPending => s.caller.Idle? && !s.Locked()
    case Receive(_) => s.worker.Receiving? && (s.commands != [] ==> s.commands[0] < |s.fills|)
    case RejectLocked => s.worker.Rejected?
    case RejectClear => s.worker.Rejecting?
    case Cycle(arrival) => s.worker.Stepping? && (arrival.Some? ==> s.sim.arrived.None?)
    case CheckTimeout(_) => s.worker.CheckingTimeout?
    case EmitTimeout => s.worker.TimingOut?
    case CheckResponse(_) => s.worker.CheckingResponse?
    case EmitResponse => s.worker.Responding?
  }

  /** `send_host_request` up to its queue: the slot is checked and filled under the lock. */
  function Fill(s: State, request: BusRequest): Result<State, HandlerError> {
    if ClassifyHostRequestRoute(request).InvalidSpanningRegion? then Err(InvalidAddressRange)
    else if s.slot.Some? then Err(RequestPending)
    else Ok(s.(slot := Some(Slot(request.addr, request.wdata, |s.fills|)),
               caller := Sending,
               fills := s.fills + [request]))
  }

  /** `send_bus_request` */
  function Submit(sim: Simulator, fill: nat, request: BusRequest, bytes: seq<byte>): Option<Simulator> {
    if RequestEndAddr(request).None? || sim.outgoing.Some? || sim.direct.Some? then None
    else match ClassifyRequestRegion(request)
      case RtlPeripheral =>
        if HandlerSpec.SendError(request).Some? then None else Some(sim.(outgoing := Some(fill)))
      case NonRtl => Some(sim.(direct := Some(Reply(Some(fill), SimResponse(request, bytes)))))
      case SpansRtlBoundary => None
  }

  /** `receive_bus_response` */
  function Take(sim: Simulator, accepted: bool): (Simulator, Option<Reply>) {
    if sim.direct.Some? then (sim.(direct := None), sim.direct)
    else if sim.arrived.Some? && (sim.outgoing.Some? || accepted) then (Simulator(None, None, None), sim.arrived)
    else (sim, None)
  }

  function Record(found: map<nat, Found>, fill: nat, what: Found): map<nat, Found> {
    if fill in found then found else found[fill := what]
  }

  /** What a step finds: the bytes for a direct request that the simulator takes, or the
      response that arrives for a filling. */
  function FoundBy(s: State, step: Step): map<nat, Found>
    requires Enabled(s, step)
  {
    match step
    case Receive(bytes) =>
      if s.commands != [] && Submit(s.sim, s.commands[0], s.fills[s.commands[0]], bytes).Some?
         && ClassifyHostRequestRoute(s.fills[s.commands[0]]).ToSystemBus?
      then Record(s.found, s.commands[0], Bytes(bytes)) else s.found
    case Cycle(arrival) =>
      if arrival.Some? && arrival.value.answers.Some?
      then Record(s.found, arrival.value.answers.value, Answer(arrival.value.response)) else s.found
    case _ => s.found
  }

  function Apply(s: State, step: Step): State
    requires Enabled(s, step)
  {
    Advance(s, step).(found := FoundBy(s, step))
  }

  function Advance(s: State, step: Step): State
    requires Enabled(s, step)
  {
    match step
    case Send(request) => (match Fill(s, request) case Ok(s') => s' case Err(_) => s)
    case PushCommand => s.(caller := Idle, commands := s.commands + [|s.fills| - 1])
    case Poll => s.(polled := s.polled + 1)
    case HasPending => s
    case Receive(bytes) =>
      if s.commands == [] then s.(worker := Stepping)
      else
        (match Submit(s.sim, s.commands[0], s.fills[s.commands[0]], bytes)
         case Some(sim) => s.(worker := Stepping, commands := s.commands[1..], sim := sim)
         case None => s.(worker := Rejected, commands := s.commands[1..]))
    case RejectLocked =>
      (match s.slot
       case Some(p) => s.(worker := Rejecting, emitted := s.emitted + [Emission(HostRequestTimeout(p.addr), None)])
       case None => s.(worker := Stepping))
    case RejectClear => s.(worker := Stepping, slot := None)
    case Cycle(arrival) =>
      s.(worker := CheckingTimeout, sim := s.sim.(arrived := if arrival.Some? then arrival else s.sim.arrived))
    case CheckTimeout(expired) =>
      if s.slot.Some? && expired then s.(worker := TimingOut(s.slot.value), slot := None)
      else s.(worker := CheckingResponse)
    case EmitTimeout =>
      s.(worker := CheckingResponse,
         emitted := s.emitted + [Emission(HostRequestTimeout(s.worker.timedOut.addr), None)])
    case CheckResponse(accepted) =>
      if s.slot.None? then s.(worker := Receiving)
      else
        var (sim, reply) := Take(s.sim, accepted);
        (match reply
         case Some(r) => s.(worker := Responding(s.slot.value, r), slot := None, sim := sim)
         case None => s.(worker := Receiving))
    case EmitResponse =>
      var p := s.worker.completed;
      var reply := s.worker.reply;
      s.(worker := Receiving,
         emitted := s.emitted + [Emission(CompletionEvent(p.addr, p.wdata, reply.response), reply.answers)])
  }

  /** The states after each step of an interleaving. */
  ghost predicate IsRun(s: State, steps: seq<Step>)
    decreases |steps|
  {
    steps == [] || (Enabled(s, steps[0]) && IsRun(Apply(s, steps[0]), steps[1..]))
  }

  function Run(s: State, steps: seq<Step>): State
    requires IsRun(s, steps)
    decreases |steps|
  {
    if steps == [] then s else Run(Apply(s, steps[0]), steps[1..])
  }

  // ---- One completion per filling --------------------------------------------------------

  /** A completion that names the request that filled the slot. */
  predicate Completes(request: BusRequest, event: BusEvent) {
    match event
    case HostReadResponse(addr, _, _, _) => addr == request.addr
    case HostWriteResponse(addr, wdata, _) => addr == request.addr && wdata == request.wdata
    case HostRequestTimeout(addr) => addr == request.addr
    case _ => false
  }

  predicate FilledBy(p: Slot, s: State) {
    && p.fill == |s.fills| - 1 == |s.emitted|
    && p.addr == s.fills[p.fill].addr && p.wdata == s.fills[p.fill].wdata
  }

  /** The i-th completion is for the i-th filling, and at most the last filling is still
      without one. */
  ghost predicate OneEach(s: State) {
    && s.polled <= |s.emitted| <= |s.fills|
    && (forall i :: 0 <= i < |s.emitted| ==> Completes(s.fills[i], s.emitted[i].event))
    && (s.caller.Sending? ==> |s.fills| > 0)
    && (forall c <- s.commands :: c < |s.fills|)
    && (match s.worker
        case Rejecting => s.slot.Some? && |s.emitted| == |s.fills|
        case TimingOut(p) => s.slot.None? && FilledBy(p, s)
        case Responding(p, _) => s.slot.None? && FilledBy(p, s)
        case _ => if s.slot.Some? then FilledBy(s.slot.value, s) else |s.emitted| == |s.fills|)
  }

  lemma StepKeepsOneEach(s: State, step: Step)
    requires OneEach(s) && Enabled(s, step)
    ensures OneEach(Apply(s, step))
  {
    if step.Send? || step.PushCommand? || step.Poll? || step.HasPending? {
      CallerKeepsOneEach(s, step);
    } else if step.RejectLocked? || step.EmitTimeout? || step.EmitResponse? {
      EmitKeepsOneEach(s, step);
    } else if step.Receive? {
      ReceiveKeepsOneEach(s, step.bytes);
    } else {
      WorkerKeepsOneEach(s, step);
    }
  }

  lemma CallerKeepsOneEach(s: State, step: Step)
    requires OneEach(s) && Enabled(s, step)
    requires step.Send? || step.PushCommand? || step.Poll? || step.HasPending?
    ensures OneEach(Apply(s, step))
  {
    hide ClassifyHostRequestRoute, Completes, Submit, Take;
  }

  lemma EmitKeepsOneEach(s: State, step: Step)
    requires OneEach(s) && Enabled(s, step) && (step.RejectLocked? || step.EmitTimeout? || step.EmitResponse?)
    ensures OneEach(Apply(s, step))
  {
    hide Fill, Submit, Take;
  }

  lemma ReceiveKeepsOneEach(s: State, bytes: seq<byte>)
    requires OneEach(s) && Enabled(s, Receive(bytes))
    ensures OneEach(Apply(s, Receive(bytes)))
  {
    hide Fill, Submit, Take, Completes;
    assert s.commands != [] ==> forall c <- s.commands[1..] :: c in s.commands;
  }

  lemma WorkerKeepsOneEach(s: State, step: Step)
    requires OneEach(s) && Enabled(s, step)
    requires step.RejectClear? || step.Cycle? || step.CheckTimeout? || step.CheckResponse?
    ensures OneEach(Apply(s, step))
  {
    hide Fill, Submit, Take, Completes;
  }

  /** Over every interleaving: each filling of the slot gets at most one completion event,
      in order, naming the address that filled it, and an empty slot gets none. Whoever
      finds the slot unlocked sees it full exactly when a completion is still due. */
  lemma {:induction false} OneCompletionPerFilling(s: State, steps: seq<Step>)
    requires OneEach(s) && IsRun(s, steps)
    ensures var s' := Run(s, steps);
            && OneEach(s')
            && (!s'.Locked() ==> (s'.slot.Some? <==> |s'.fills| == |s'.emitted| + 1))
            && (!s'.Locked() ==> (s'.slot.None? <==> |s'.fills| == |s'.emitted|))
    decreases |steps|
  {
    hide Apply, Enabled;
    if steps != [] {
      StepKeepsOneEach(s, steps[0]);
      OneCompletionPerFilling(Apply(s, steps[0]), steps[1..]);
    }
  }

  lemma InitialState()
    ensures OneEach(Initial()) && Quiet(Initial())
  {
  }

  /** While the slot is full a second request is refused and changes nothing. */
  lemma SecondSendRefused(s: State, request: BusRequest)
    requires Enabled(s, Send(request)) && s.slot.Some?
    ensures Fill(s, request).Err? && Apply(s, Send(request)) == s
    ensures !ClassifyHostRequestRoute(request).InvalidSpanningRegion? ==> Fill(s, request) == Err(RequestPending)
  {
    hide ClassifyHostRequestRoute;
  }

  /** A request that lies in one half of the address space and finds the slot empty fills
      it; one that does not lie in one half is refused and changes nothing. */
  lemma FirstSendFills(s: State, request: BusRequest)
    requires Enabled(s, Send(request)) && s.slot.None?
    ensures var s' := Apply(s, Send(request));
            if ClassifyHostRequestRoute(request).InvalidSpanningRegion? then
              s' == s && Fill(s, request) == Err(InvalidAddressRange)
            else
              && s'.slot.Some? && s'.slot.value.addr == request.addr && s'.slot.value.wdata == request.wdata
              && s'.fills == s.fills + [request] && s'.emitted == s.emitted && s'.sim == s.sim
              && Enabled(s', PushCommand)
  {
    hide ClassifyHostRequestRoute;
  }

  /** A time-out noticed while the slot is full empties it and is reported under the
      address of the request that filled it. */
  lemma TimeoutReported(s: State)
    requires OneEach(s) && s.worker.CheckingTimeout? && s.slot.Some?
    ensures var s1 := Apply(s, CheckTimeout(true));
            && Enabled(s1, EmitTimeout)
            && var s2 := Apply(s1, EmitTimeout);
               && s2.slot.None? && s2.fills == s.fills
               && s2.emitted == s.emitted + [Emission(HostRequestTimeout(s.fills[|s.emitted|].addr), None)]
  {
    hide Completes;
  }

  /** A request that the simulator cannot take is reported as timed out under its address and
      gives up the slot. */
  lemma RefusalReported(s: State)
    requires OneEach(s) && s.worker.Rejected? && s.slot.Some?
    ensures var s1 := Apply(s, RejectLocked);
            && s1.Locked() && Enabled(s1, RejectClear)
            && var s2 := Apply(s1, RejectClear);
               && s2.slot.None? && !s2.Locked() && s2.fills == s.fills
               && s2.emitted == s.emitted + [Emission(HostRequestTimeout(s.fills[|s.emitted|].addr), None)]
  {
    hide Completes;
  }

  // ---- The wait loops' guard ------------------------------------------------------------------

  /** A caller that sends only after dequeuing the completion of everything it sent. */
  ghost predicate Patient(s: State, steps: seq<Step>)
    requires IsRun(s, steps)
    decreases |steps|
  {
    steps == [] ||
    ((steps[0].Send? ==> s.polled == |s.fills|) && Patient(Apply(s, steps[0]), steps[1..]))
  }

  lemma PatientStep(s: State, step: Step)
    requires OneEach(s) && Enabled(s, step) && s.polled + 1 >= |s.fills|
    requires step.Send? ==> s.polled == |s.fills|
    ensures var s' := Apply(s, step);
            s'.polled + 1 >= |s'.fills| && (step.Poll? ==> s'.polled == |s'.fills|)
  {
    hide ClassifyHostRequestRoute, Submit, Take;
  }

  /** A patient caller that has dequeued a completion, and then gets the lock after any
      steps of the worker, finds the slot empty: the guard of the wait loops never
      discards a completion. */
  lemma {:induction false} GuardNeverDiscards(s: State, before: seq<Step>, after: seq<Step>)
    requires OneEach(s) && s.polled + 1 >= |s.fills|
    requires IsRun(s, before + [Poll] + after) && Patient(s, before + [Poll] + after)
    requires forall step <- after :: !step.Send? && !step.PushCommand?
    ensures var s' := Run(s, before + [Poll] + after);
            Enabled(s', HasPending) ==> s'.slot.None?
    decreases |before|
  {
    hide Apply, Enabled, OneEach;
    var steps := before + [Poll] + after;
    if before == [] {
      assert steps[0] == Poll && steps[1..] == after;
      PatientStep(s, Poll);
      StepKeepsOneEach(s, Poll);
      StaysPolled(Apply(s, Poll), after);
    } else {
      assert steps[0] == before[0] && steps[1..] == before[1..] + [Poll] + after;
      PatientStep(s, steps[0]);
      StepKeepsOneEach(s, steps[0]);
      GuardNeverDiscards(Apply(s, steps[0]), before[1..], after);
    }
  }

  lemma {:induction false} StaysPolled(s: State, steps: seq<Step>)
    requires OneEach(s) && s.polled == |s.fills| && IsRun(s, steps)
    requires forall step <- steps :: !step.Send? && !step.PushCommand?
    ensures Enabled(Run(s, steps), HasPending) ==> Run(s, steps).slot.None?
    decreases |steps|
  {
    if steps != [] {
      assert steps[0] in steps;
      StepKeepsOneEach(s, steps[0]);
      StaysPolled(Apply(s, steps[0]), steps[1..]);
    }
  }

  /** What a caller can tell from its own counts: dequeuing the completion of its last
      filling leaves the unlocked slot empty. */
  lemma DequeuedLast(s: State)
    requires OneEach(s) && Enabled(s, Poll) && s.polled + 1 >= |s.fills| && !s.Locked()
    ensures Apply(s, Poll).slot.None?
  {
  }

  // ---- Which response belongs to which request ---------------------------------------------------

  /** A request that the simulator takes when it is free. */
  predicate Acceptable(request: BusRequest) {
    match ClassifyHostRequestRoute(request)
    case ToSystemBus => true
    case ToHostBusHandler => HandlerSpec.SendError(request).None?
    case InvalidSpanningRegion => false
  }

  /** No time-out, no request the simulator refuses, and a target that sends one response
      of the right kind and size to an outstanding request, and no others. */
  ghost predicate Calm(s: State, step: Step) {
    match step
    case Send(request) => Acceptable(request)
    case CheckTimeout(expired) => !expired
    case Cycle(Some(reply)) =>
      && s.sim.outgoing.Some? && reply.answers == s.sim.outgoing && s.sim.outgoing.value < |s.fills|
      && reply.response.we == s.fills[s.sim.outgoing.value].we
      && reply.response.size == s.fills[s.sim.outgoing.value].size
    case _ => true
  }

  ghost predicate CalmRun(s: State, steps: seq<Step>)
    requires IsRun(s, steps)
    decreases |steps|
  {
    steps == [] || (Calm(s, steps[0]) && CalmRun(Apply(s, steps[0]), steps[1..]))
  }

  const NOTHING := Simulator(None, None, None)

  /** The response gives what was found for the request: the target's own scalar and data,
      or the bytes of the direct access, with those of the first beat as its scalar. */
  predicate Gives(response: BusResponse, what: Found, request: BusRequest) {
    match what
    case Answer(r) =>
      ClassifyHostRequestRoute(request).ToHostBusHandler? && response.rdata == r.rdata && response.data == r.data
    case Bytes(bytes) =>
      && ClassifyHostRequestRoute(request).ToSystemBus?
      && (!request.we ==>
            && response.data == bytes
            && Mirrors(response.rdata, if |bytes| < request.size.ByteCount() then bytes
                                       else bytes[..request.size.ByteCount()]))
  }

  /** The reply is tagged with this filling, fits its request and gives what was found. */
  predicate Answers(reply: Reply, s: State, fill: nat)
    requires fill < |s.fills|
  {
    && reply.answers == Some(fill)
    && reply.response.we == s.fills[fill].we && reply.response.size == s.fills[fill].size
    && fill in s.found && Gives(reply.response, s.found[fill], s.fills[fill])
  }

  /** The last request sits in exactly one place. */
  ghost predicate InOnePlace(s: State, fill: nat)
    requires fill < |s.fills|
  {
    || (s.caller.Sending? && s.commands == [] && s.sim == NOTHING && fill !in s.found)
    || (s.caller.Idle? && s.commands == [fill] && s.sim == NOTHING && fill !in s.found)
    || (s.caller.Idle? && s.commands == [] && s.sim.direct.None? && s.sim.outgoing == Some(fill)
        && ClassifyHostRequestRoute(s.fills[fill]).ToHostBusHandler?
        && (s.sim.arrived.None? ==> fill !in s.found)
        && (s.sim.arrived.Some? ==> Answers(s.sim.arrived.value, s, fill)))
    || (s.caller.Idle? && s.commands == [] && s.sim.direct.Some? && Answers(s.sim.direct.value, s, fill)
        && s.sim.outgoing.None? && s.sim.arrived.None?)
  }

  /** What a read completion says of what was found, and what a write completion leaves
      out. */
  predicate Tells(event: BusEvent, what: Found, request: BusRequest) {
    if request.we then event == HostWriteResponse(request.addr, request.wdata, request.size)
    else
      && event.HostReadResponse? && event.addr == request.addr && event.size == request.size
      && match what
         case Answer(r) => event.data == r.rdata && event.burstData == r.data
         case Bytes(bytes) =>
           && event.burstData == bytes
           && Mirrors(event.data, if |bytes| < request.size.ByteCount() then bytes
                                  else bytes[..request.size.ByteCount()])
  }

  /** The completion is that of this very request: of its kind and size, and with exactly
      what was found for it, which for a direct request are the bytes of the access and
      for any other the response of the target. */
  predicate Fulfils(i: nat, request: BusRequest, e: Emission, found: map<nat, Found>) {
    && e.answers == Some(i) && i in found && Tells(e.event, found[i], request)
    && (found[i].Bytes? <==> ClassifyHostRequestRoute(request).ToSystemBus?)
  }

  ghost predicate Quiet(s: State) {
    && (forall request <- s.fills :: Acceptable(request))
    && (forall fill <- s.found :: fill < |s.fills|)
    && |s.emitted| <= |s.fills|
    && (forall i :: 0 <= i < |s.emitted| ==> Fulfils(i, s.fills[i], s.emitted[i], s.found))
    && (match s.worker
        case Rejected => false
        case Rejecting => false
        case TimingOut(_) => false
        case Responding(p, reply) =>
          && |s.fills| == |s.emitted| + 1 && s.caller.Idle? && s.commands == [] && s.sim == NOTHING
          && Answers(reply, s, |s.fills| - 1)
        case _ =>
          if |s.fills| > |s.emitted| then InOnePlace(s, |s.fills| - 1)
          else s.caller.Idle? && s.commands == [] && s.sim == NOTHING)
  }

  lemma StepKeepsQuiet(s: State, step: Step)
    requires OneEach(s) && Quiet(s) && Enabled(s, step) && Calm(s, step)
    ensures Quiet(Apply(s, step))
  {
    if step.Receive? {
      ReceiveKeepsQuiet(s, step.bytes);
    } else if step.Cycle? {
      CycleKeepsQuiet(s, step.arrival);
    } else if step.EmitResponse? {
      ResponseKeepsQuiet(s);
    } else if step.CheckResponse? {
      TakeKeepsQuiet(s, step.accepted);
    } else {
      OtherKeepsQuiet(s, step);
    }
  }

  lemma ReceiveKeepsQuiet(s: State, bytes: seq<byte>)
    requires OneEach(s) && Quiet(s) && Enabled(s, Receive(bytes))
    ensures Quiet(Apply(s, Receive(bytes)))
  {
    hide ClassifyHostRequestRoute, Acceptable, Submit, Take, Fill, Tells, Gives, Completes, FilledBy;
    if s.commands != [] {
      AcceptableIsTaken(s.sim, s.commands[0], s.fills[s.commands[0]], bytes);
    }
  }

  lemma CycleKeepsQuiet(s: State, arrival: Option<Reply>)
    requires OneEach(s) && Quiet(s) && Enabled(s, Cycle(arrival)) && Calm(s, Cycle(arrival))
    ensures Quiet(Apply(s, Cycle(arrival)))
  {
    hide ClassifyHostRequestRoute, Acceptable, Submit, Take, Fill, Tells, Completes, FilledBy;
  }

  lemma ResponseKeepsQuiet(s: State)
    requires OneEach(s) && Quiet(s) && Enabled(s, EmitResponse)
    ensures Quiet(Apply(s, EmitResponse))
  {
    hide ClassifyHostRequestRoute, Acceptable, Submit, Take, Fill, Mirrors, Completes;
    assert !s.fills[|s.fills| - 1].we || s.worker.reply.response.we;
  }

  lemma TakeKeepsQuiet(s: State, accepted: bool)
    requires OneEach(s) && Quiet(s) && Enabled(s, CheckResponse(accepted))
    ensures Quiet(Apply(s, CheckResponse(accepted)))
  {
    hide ClassifyHostRequestRoute, Acceptable, Submit, Fill, Tells, Gives, Completes;
  }

  lemma OtherKeepsQuiet(s: State, step: Step)
    requires OneEach(s) && Quiet(s) && Enabled(s, step) && Calm(s, step)
    requires !step.Receive? && !step.Cycle? && !step.EmitResponse? && !step.CheckResponse?
    ensures Quiet(Apply(s, step))
  {
    hide ClassifyHostRequestRoute, HandlerSpec.SendError, Submit, Take, Tells, Gives, Completes, FilledBy;
  }

  /** What a simulator that is free does with an acceptable request. */
  lemma AcceptableIsTaken(sim: Simulator, fill: nat, request: BusRequest, bytes: seq<byte>)
    requires Acceptable(request) && sim == NOTHING
    ensures var sim' := Submit(sim, fill, request, bytes);
            && sim'.Some?
            && (ClassifyHostRequestRoute(request).ToHostBusHandler? ==>
                  sim'.value == NOTHING.(outgoing := Some(fill)))
            && (ClassifyHostRequestRoute(request).ToSystemBus? ==>
                  && sim'.value.direct.Some? && sim'.value == NOTHING.(direct := sim'.value.direct)
                  && sim'.value.direct.value.answers == Some(fill)
                  && sim'.value.direct.value.response.we == request.we
                  && sim'.value.direct.value.response.size == request.size
                  && Gives(sim'.value.direct.value.response, Bytes(bytes), request))
            && (ClassifyHostRequestRoute(request).ToHostBusHandler? || ClassifyHostRequestRoute(request).ToSystemBus?)
  {
    hide Mirrors, FirstScalar;
    FirstScalarMirrors(bytes, request.size.ByteCount());
  }

  /** Over every calm interleaving each completion is that of the request that filled the
      slot: its address and size, and with exactly the data found for it, be it by the
      direct access or by the target. */
  lemma {:induction false} ResponsesBelong(s: State, steps: seq<Step>)
    requires OneEach(s) && Quiet(s) && IsRun(s, steps) && CalmRun(s, steps)
    ensures var s' := Run(s, steps);
            Quiet(s') && forall i :: 0 <= i < |s'.emitted| ==>
                           && Completes(s'.fills[i], s'.emitted[i].event)
                           && Fulfils(i, s'.fills[i], s'.emitted[i], s'.found)
    decreases |steps|
  {
    hide Apply, Enabled, Calm, Completes, Fulfils;
    if steps != [] {
      StepKeepsOneEach(s, steps[0]);
      StepKeepsQuiet(s, steps[0]);
      ResponsesBelong(Apply(s, steps[0]), steps[1..]);
    }
  }

  /** Once what was asked for has been found, the worker's next look for responses reports
      it and empties the slot. */
  lemma CompletionFollows(s: State, accepted: bool)
    requires OneEach(s) && Quiet(s) && s.worker.CheckingResponse? && s.slot.Some?
    requires |s.fills| - 1 in s.found
    ensures var s1 := Apply(s, CheckResponse(accepted));
            && Enabled(s1, EmitResponse)
            && var s2 := Apply(s1, EmitResponse);
               var i := |s.emitted|;
               && s2.slot.None? && s2.fills == s.fills && s2.found == s.found && |s2.emitted| == i + 1
               && s2.emitted[..i] == s.emitted && Fulfils(i, s.fills[i], s2.emitted[i], s2.found)
  {
    var s1 := Apply(s, CheckResponse(accepted));
    TakeKeepsQuiet(s, accepted);
    StepKeepsOneEach(s, CheckResponse(accepted));
    hide ClassifyHostRequestRoute, Acceptable, Submit, Fill, Tells, Gives, Completes;
    assert s1.worker.Responding?;
    ResponseKeepsQuiet(s1);
  }

  // ---- With time-outs ------------------------------------------------------------------------------

  /** No request the simulator cannot take, and a target that sends one response of the
      right kind and size to an outstanding request, and no others. Time may run out. */
  ghost predicate Solicited(s: State, step: Step) {
    step.CheckTimeout? || Calm(s, step)
  }

  ghost predicate SolicitedRun(s: State, steps: seq<Step>)
    requires IsRun(s, steps)
    decreases |steps|
  {
    steps == [] || (Solicited(s, steps[0]) && SolicitedRun(Apply(s, steps[0]), steps[1..]))
  }

  /** The position of the first time-out event, or the end. */
  function FirstTimeout(emitted: seq<Emission>): (k: nat)
    ensures k <= |emitted|
  {
    if |emitted| == 0 then 0
    else
      var k := FirstTimeout(emitted[..|emitted| - 1]);
      if k < |emitted| - 1 || emitted[|emitted| - 1].event.HostRequestTimeout? then k else |emitted|
  }

  lemma {:induction false} FirstTimeoutIsFirst(emitted: seq<Emission>, i: nat)
    requires i < |emitted|
    ensures i < FirstTimeout(emitted) <==> forall j :: 0 <= j <= i ==> !emitted[j].event.HostRequestTimeout?
  {
    var n := |emitted| - 1;
    if i < n {
      FirstTimeoutIsFirst(emitted[..n], i);
      assert forall j :: 0 <= j <= i ==> emitted[..n][j] == emitted[j];
    } else if n > 0 {
      FirstTimeoutIsFirst(emitted[..n], n - 1);
      assert forall j :: 0 <= j < n ==> emitted[..n][j] == emitted[j];
    }
  }

  /** A completion is right exactly up to the first time-out event. */
  ghost predicate RightUntilTimeout(fills: seq<BusRequest>, emitted: seq<Emission>, found: map<nat, Found>) {
    |emitted| <= |fills| &&
    forall i :: 0 <= i < |emitted| ==>
      if i < FirstTimeout(emitted) then Fulfils(i, fills[i], emitted[i], found) else emitted[i].answers != Some(i)
  }

  /** The filling whose request or response the simulator holds. */
  function HeldBySimulator(sim: Simulator): seq<nat> {
    if sim.direct.Some? && sim.direct.value.answers.Some? then [sim.direct.value.answers.value]
    else if sim.outgoing.Some? then [sim.outgoing.value]
    else []
  }

  /** The request being handed to the queue. */
  function Unsent(s: State): seq<nat> {
    if s.caller.Sending? && |s.fills| > 0 then [|s.fills| - 1] else []
  }

  /** All fillings whose request has not been answered or refused yet, oldest first. */
  function Unsettled(s: State): seq<nat> {
    HeldBySimulator(s.sim) + s.commands + Unsent(s)
  }

  ghost predicate Increasing(xs: seq<nat>) {
    forall i, j :: 0 <= i < j < |xs| ==> xs[i] < xs[j]
  }

  /** The simulator holds one thing at a time, tagged with its filling. */
  ghost predicate SimulatorSound(sim: Simulator) {
    && (sim.direct.Some? ==> sim.direct.value.answers.Some? && sim.outgoing.None? && sim.arrived.None?)
    && (sim.arrived.Some? ==> sim.outgoing.Some? && sim.arrived.value.answers == sim.outgoing)
  }

  /** Unsettled fillings out of `n`: `oldest` asks that the first of them is stale,
      `newest` that the last filling is among them. */
  ghost predicate Waiting(held: seq<nat>, n: nat, oldest: bool, newest: bool) {
    && held != [] && Increasing(held) && held[|held| - 1] < n
    && (oldest ==> held[0] < n - 1)
    && (newest ==> held[|held| - 1] == n - 1)
  }

  /** What a time-out leaves behind for good: some filling is always unsettled, and while
      the slot is full the oldest unsettled one is not the one in the slot. */
  ghost predicate Behind(s: State) {
    && SimulatorSound(s.sim)
    && Waiting(Unsettled(s), |s.fills|, s.slot.Some? && !s.worker.Rejecting?,
               s.slot.Some? && !s.worker.Rejected? && !s.worker.Rejecting?)
    && (s.worker.Rejected? || s.worker.Rejecting? ==> HeldBySimulator(s.sim) != [])
    && (match s.worker
        case Responding(p, reply) => reply.answers.Some? && reply.answers.value < p.fill
        case _ => true)
  }

  ghost predicate AfterTimeout(s: State) {
    && (FirstTimeout(s.emitted) < |s.emitted| || s.worker.TimingOut?)
    && Behind(s)
  }

  /** Either no time-out has been noticed yet, or one has and the rest is behind. */
  ghost predicate Ordered(s: State) {
    && RightUntilTimeout(s.fills, s.emitted, s.found) && (forall request <- s.fills :: Acceptable(request))
    && (Quiet(s) || AfterTimeout(s))
  }

  lemma QuietIsRight(s: State)
    requires Quiet(s)
    ensures RightUntilTimeout(s.fills, s.emitted, s.found) && FirstTimeout(s.emitted) == |s.emitted|
  {
    NoTimeout(s.emitted);
  }

  lemma {:induction false} NoTimeout(emitted: seq<Emission>)
    requires forall i :: 0 <= i < |emitted| ==> !emitted[i].event.HostRequestTimeout?
    ensures FirstTimeout(emitted) == |emitted|
  {
    if |emitted| > 0 {
      NoTimeout(emitted[..|emitted| - 1]);
    }
  }

  lemma FirstTimeoutStays(emitted: seq<Emission>, e: Emission)
    requires FirstTimeout(emitted) < |emitted| || e.event.HostRequestTimeout?
    ensures FirstTimeout(emitted + [e]) == FirstTimeout(emitted)
  {
    assert (emitted + [e])[..|emitted|] == emitted;
  }

  lemma EmitKeepsRight(fills: seq<BusRequest>, emitted: seq<Emission>, found: map<nat, Found>, e: Emission)
    requires RightUntilTimeout(fills, emitted, found) && |emitted| < |fills|
    requires e.answers != Some(|emitted|)
    requires FirstTimeout(emitted) < |emitted| || e.event.HostRequestTimeout?
    ensures RightUntilTimeout(fills, emitted + [e], found) && FirstTimeout(emitted + [e]) == FirstTimeout(emitted)
  {
    FirstTimeoutStays(emitted, e);
    hide Fulfils, FirstTimeout;
    var after := emitted + [e];
    forall i | 0 <= i < |after|
      ensures if i < FirstTimeout(after) then Fulfils(i, fills[i], after[i], found) else after[i].answers != Some(i)
    {
      assert i < |emitted| ==> after[i] == emitted[i];
    }
  }

  lemma TimeoutStartsBehind(s: State)
    requires OneEach(s) && Quiet(s) && s.worker.CheckingTimeout? && s.slot.Some?
    ensures Behind(Apply(s, CheckTimeout(true)))
  {
    hide Acceptable, Fulfils, Completes, Fill, Submit, Take;
  }

  lemma CallerStaysBehind(s: State, step: Step)
    requires OneEach(s) && Behind(s) && Enabled(s, step)
    requires step.Send? || step.PushCommand? || step.Poll? || step.HasPending?
    ensures Behind(Apply(s, step))
  {
    hide Acceptable, ClassifyHostRequestRoute, Completes, Submit, Take;
    var held := Unsettled(s);
    if step.PushCommand? {
      assert HeldBySimulator(s.sim) + (s.commands + [|s.fills| - 1]) + [] == held;
    } else if step.Send? {
      assert Apply(s, step) == s || Unsettled(Apply(s, step)) == held + [|s.fills|];
    }
  }

  lemma ReceiveStaysBehind(s: State, bytes: seq<byte>)
    requires OneEach(s) && Behind(s) && Enabled(s, Receive(bytes))
    requires forall request <- s.fills :: Acceptable(request)
    ensures Behind(Apply(s, Receive(bytes)))
  {
    hide ClassifyHostRequestRoute, RequestEndAddr, ClassifyRequestRegion, HandlerSpec.SendError, Completes, Waiting;
    hide Gives, Acceptable, FilledBy;
    if s.commands == [] {
      IdleReceive(s, bytes);
    } else {
      var fill := s.commands[0];
      var rest := s.commands[1..] + Unsent(s);
      assert Unsettled(s) == HeldBySimulator(s.sim) + ([fill] + rest);
      if s.sim == NOTHING {
        AcceptableIsTaken(s.sim, fill, s.fills[fill], bytes);
        var s' := Apply(s, Receive(bytes));
        assert Unsettled(s') == [fill] + rest == Unsettled(s);
      } else {
        BusySimulator(s.sim, fill, s.fills[fill], bytes);
        var s' := Apply(s, Receive(bytes));
        assert s' == s.(worker := Rejected, commands := s.commands[1..]);
        assert Unsettled(s') == HeldBySimulator(s.sim) + rest;
        DropSecond(HeldBySimulator(s.sim), fill, rest, |s.fills|, s.slot.Some?);
      }
    }
  }

  lemma IdleReceive(s: State, bytes: seq<byte>)
    requires Behind(s) && Enabled(s, Receive(bytes)) && s.commands == []
    ensures Behind(Apply(s, Receive(bytes)))
  {
    hide Waiting, Submit;
    assert Unsettled(Apply(s, Receive(bytes))) == Unsettled(s);
  }

  lemma BusySimulator(sim: Simulator, fill: nat, request: BusRequest, bytes: seq<byte>)
    requires SimulatorSound(sim) && sim != NOTHING
    ensures Submit(sim, fill, request, bytes).None? && |HeldBySimulator(sim)| == 1
  {
  }

  lemma DropSecond(first: seq<nat>, second: nat, rest: seq<nat>, n: nat, oldest: bool)
    requires |first| == 1
    requires exists newest :: Waiting(first + ([second] + rest), n, oldest, newest)
    ensures Waiting(first + rest, n, oldest, false)
  {
    var held := first + ([second] + rest);
    var held' := first + rest;
    assert Increasing(held) && held[|held| - 1] < n;
    forall i, j | 0 <= i < j < |held'|
      ensures held'[i] < held'[j]
    {
      assert held'[i] == held[if i == 0 then 0 else i + 1] && held'[j] == held[j + 1];
    }
    assert held'[|held'| - 1] == if rest == [] then held[0] else held[|held| - 1];
    assert held[0] <= held[|held| - 1];
  }

  lemma TakenWasHeld(sim: Simulator, accepted: bool)
    requires SimulatorSound(sim)
    ensures var (sim', reply) := Take(sim, accepted);
            match reply
            case Some(r) => sim' == NOTHING && r.answers.Some? && HeldBySimulator(sim) == [r.answers.value]
            case None => sim' == sim
  {
  }

  lemma TakeStaysBehind(s: State, accepted: bool)
    requires OneEach(s) && Behind(s) && Enabled(s, CheckResponse(accepted))
    ensures Behind(Apply(s, CheckResponse(accepted)))
  {
    TakenWasHeld(s.sim, accepted);
    hide Completes, Submit, Fill, Waiting, Take, SimulatorSound;
    assert SimulatorSound(NOTHING) by { NothingIsSound(); }
    var rest := s.commands + Unsent(s);
    assert Unsettled(s) == HeldBySimulator(s.sim) + rest;
    var s' := Apply(s, CheckResponse(accepted));
    if s.slot.Some? && Take(s.sim, accepted).1.Some? {
      assert Unsettled(s') == rest;
      hide Unsettled, HeldBySimulator;
      DropFirst(HeldBySimulator(s.sim), rest, |s.fills|);
    } else {
      assert Unsettled(s') == Unsettled(s);
      hide Unsettled, HeldBySimulator;
    }
  }

  lemma NothingIsSound()
    ensures SimulatorSound(NOTHING)
  {
  }

  lemma DropFirst(first: seq<nat>, rest: seq<nat>, n: nat)
    requires |first| == 1 && Waiting(first + rest, n, true, true)
    ensures first[0] < n - 1 && Waiting(rest, n, false, false)
  {
    var held := first + rest;
    assert rest != [];
    assert forall i :: 0 <= i < |rest| ==> rest[i] == held[i + 1];
  }

  lemma WorkerStaysBehind(s: State, step: Step)
    requires OneEach(s) && Behind(s) && Enabled(s, step) && Solicited(s, step)
    requires step.RejectLocked? || step.RejectClear? || step.Cycle?
             || step.CheckTimeout? || step.EmitTimeout? || step.EmitResponse?
    ensures Behind(Apply(s, step))
  {
    hide Completes, Submit, Take, Fill, Acceptable, CompletionEvent, Waiting, FilledBy;
    assert Unsettled(Apply(s, step)) == Unsettled(s);
    hide Unsettled;
    WaitingLess(Unsettled(s), |s.fills|);
  }

  lemma WaitingLess(held: seq<nat>, n: nat)
    ensures forall oldest, newest :: Waiting(held, n, oldest, newest) ==> Waiting(held, n, oldest, false)
    ensures forall oldest, newest :: Waiting(held, n, oldest, newest) ==> Waiting(held, n, false, false)
  {
  }

  lemma BehindStaysBehind(s: State, step: Step)
    requires OneEach(s) && Behind(s) && Enabled(s, step) && Solicited(s, step)
    requires forall request <- s.fills :: Acceptable(request)
    ensures Behind(Apply(s, step))
  {
    hide OneEach, Behind, Enabled, Apply, Solicited, Acceptable;
    match step
    case Receive(bytes) => ReceiveStaysBehind(s, bytes);
    case CheckResponse(accepted) => TakeStaysBehind(s, accepted);
    case Send(_) => CallerStaysBehind(s, step);
    case PushCommand => CallerStaysBehind(s, step);
    case Poll => CallerStaysBehind(s, step);
    case HasPending => CallerStaysBehind(s, step);
    case _ => WorkerStaysBehind(s, step);
  }

  /** After a time-out, what a step emits is a time-out or the response to another
      filling. */
  lemma BehindEmitsWrong(s: State, step: Step)
    requires OneEach(s) && AfterTimeout(s) && Enabled(s, step)
    requires RightUntilTimeout(s.fills, s.emitted, s.found)
    ensures var s' := Apply(s, step);
            && RightUntilTimeout(s'.fills, s'.emitted, s'.found)
            && (FirstTimeout(s'.emitted) < |s'.emitted| || s'.worker.TimingOut?)
  {
    hide Completes, Submit, Take, Unsettled, Increasing, FirstTimeout, ClassifyHostRequestRoute;
    var s' := Apply(s, step);
    if |s'.emitted| > |s.emitted| {
      var e := s'.emitted[|s.emitted|];
      assert s'.emitted == s.emitted + [e];
      assert |s.emitted| < |s.fills|;
      EmitKeepsRight(s.fills, s.emitted, s.found, e);
    }
  }

  lemma StepKeepsOrdered(s: State, step: Step)
    requires OneEach(s) && Ordered(s) && Enabled(s, step) && Solicited(s, step)
    ensures Ordered(Apply(s, step))
  {
    StillAcceptable(s, step);
    hide OneEach, Behind, Enabled, Apply, Acceptable, Fulfils, RightUntilTimeout, FirstTimeout;
    if AfterTimeout(s) {
      BehindStaysBehind(s, step);
      BehindEmitsWrong(s, step);
    } else if Calm(s, step) {
      StepKeepsQuiet(s, step);
      QuietIsRight(Apply(s, step));
    } else {
      QuietTimesOut(s, step);
    }
  }

  lemma StillAcceptable(s: State, step: Step)
    requires Enabled(s, step) && Solicited(s, step) && forall request <- s.fills :: Acceptable(request)
    ensures forall request <- Apply(s, step).fills :: Acceptable(request)
  {
    hide Acceptable, Submit, Take;
  }

  lemma QuietTimesOut(s: State, step: Step)
    requires OneEach(s) && Quiet(s) && Enabled(s, step) && Solicited(s, step) && !Calm(s, step)
    ensures var s' := Apply(s, step);
            && RightUntilTimeout(s'.fills, s'.emitted, s'.found) && (Quiet(s') || AfterTimeout(s'))
  {
    QuietIsRight(s);
    if s.slot.Some? {
      TimeoutStartsBehind(s);
    } else {
      StepKeepsQuiet(s, CheckTimeout(false));
    }
    hide Behind, OneEach, RightUntilTimeout, FirstTimeout;
  }

  /** Over every interleaving in which time may run out, every request is acceptable and
      every reply solicited: a completion is the response to the request that filled the
      slot, of its kind and size, if and only if neither it nor any completion before it
      is a time-out. After the first one no completion is ever right again. */
  lemma FirstTimeoutDecides(s: State, steps: seq<Step>)
    requires OneEach(s) && Quiet(s) && IsRun(s, steps) && SolicitedRun(s, steps)
    ensures var s' := Run(s, steps);
            && |s'.emitted| <= |s'.fills|
            && forall i :: 0 <= i < |s'.emitted| ==>
                 (Fulfils(i, s'.fills[i], s'.emitted[i], s'.found) <==>
                  forall j :: 0 <= j <= i ==> !s'.emitted[j].event.HostRequestTimeout?)
  {
    QuietIsRight(s);
    RunKeepsOrdered(s, steps);
    var s' := Run(s, steps);
    hide Run, Quiet, AfterTimeout, Fulfils, Acceptable, FirstTimeout;
    forall i | 0 <= i < |s'.emitted|
      ensures Fulfils(i, s'.fills[i], s'.emitted[i], s'.found) <==>
              forall j :: 0 <= j <= i ==> !s'.emitted[j].event.HostRequestTimeout?
    {
      FirstTimeoutIsFirst(s'.emitted, i);
    }
  }

  lemma {:induction false} RunKeepsOrdered(s: State, steps: seq<Step>)
    requires OneEach(s) && Ordered(s) && IsRun(s, steps) && SolicitedRun(s, steps)
    ensures Ordered(Run(s, steps))
    decreases |steps|
  {
    hide Apply, Enabled, Solicited, Ordered, OneEach;
    if steps != [] {
      StepKeepsOneEach(s, steps[0]);
      StepKeepsOrdered(s, steps[0]);
      RunKeepsOrdered(Apply(s, steps[0]), steps[1..]);
    }
  }

  // ---- Runs that show the failures -----------------------------------------------------------------

  /** These steps form a run from `s` to `t`. */
  ghost predicate Reaches(s: State, steps: seq<Step>, t: State) {
    IsRun(s, steps) && Run(s, steps) == t
  }

  lemma NoSteps(s: State)
    ensures Reaches(s, [], s)
  {
  }

  /** One more step at the end of a run. */
  lemma {:induction false} OneMoreStep(s: State, steps: seq<Step>, t: State, step: Step) returns (more: seq<Step>)
    requires Reaches(s, steps, t) && Enabled(t, step)
    ensures more == steps + [step] && Reaches(s, more, Apply(t, step))
    decreases |steps|
  {
    hide Apply, Enabled;
    more := steps + [step];
    if steps == [] {
      assert more[0] == step && more[1..] == [];
      assert IsRun(Apply(s, step), []) && Run(Apply(s, step), []) == Apply(s, step);
    } else {
      assert more[0] == steps[0] && more[1..] == steps[1..] + [step];
      var rest := OneMoreStep(Apply(s, steps[0]), steps[1..], t, step);
      assert rest == more[1..];
    }
  }

  /** The state after a direct request has timed out and the caller knows: its response
      stays behind in the simulator. */
  function TimedOut(first: BusRequest, bytes: seq<byte>): State {
    State(None, Idle, Receiving, [], Simulator(Some(Reply(Some(0), SimResponse(first, bytes))), None, None), [first],
          [Emission(HostRequestTimeout(first.addr), None)], 1, map[0 := Bytes(bytes)])
  }

  function TimedOutSteps(first: BusRequest, bytes: seq<byte>): seq<Step> {
    ServedSteps(first, bytes) + [Cycle(None), CheckTimeout(true), EmitTimeout, CheckResponse(false), Poll]
  }

  /** A direct request has been served, and its response waits in the simulator. */
  function Served(first: BusRequest, bytes: seq<byte>): State {
    State(Some(Slot(first.addr, first.wdata, 0)), Idle, Stepping, [],
          Simulator(Some(Reply(Some(0), SimResponse(first, bytes))), None, None), [first], [], 0,
          map[0 := Bytes(bytes)])
  }

  function ServedSteps(first: BusRequest, bytes: seq<byte>): seq<Step> {
    [Send(first), PushCommand, Receive(bytes)]
  }

  lemma RequestServed(first: BusRequest, bytes: seq<byte>)
    requires ClassifyHostRequestRoute(first).ToSystemBus?
    ensures Reaches(Initial(), ServedSteps(first, bytes), Served(first, bytes))
  {
    hide SimResponse;
    var s0 := Initial();
    var s1 := Apply(s0, Send(first));
    var s2 := Apply(s1, PushCommand);
    assert Apply(s2, Receive(bytes)) == Served(first, bytes);
    hide Apply, Reaches;
    NoSteps(s0);
    var steps := OneMoreStep(s0, [], s0, Send(first));
    steps := OneMoreStep(s0, steps, s1, PushCommand);
    steps := OneMoreStep(s0, steps, s2, Receive(bytes));
    assert steps == ServedSteps(first, bytes);
  }

  lemma ResponseStaysBehind(first: BusRequest, bytes: seq<byte>)
    requires ClassifyHostRequestRoute(first).ToSystemBus?
    ensures Reaches(Initial(), TimedOutSteps(first, bytes), TimedOut(first, bytes))
  {
    hide SimResponse, ClassifyHostRequestRoute;
    RequestServed(first, bytes);
    var s0 := Served(first, bytes);
    var s1 := Apply(s0, Cycle(None));
    var s2 := Apply(s1, CheckTimeout(true));
    var s3 := Apply(s2, EmitTimeout);
    var s4 := Apply(s3, CheckResponse(false));
    var s5 := Apply(s4, Poll);
    assert s5 == TimedOut(first, bytes);
    hide Apply, Reaches;
    var steps := ServedSteps(first, bytes);
    steps := OneMoreStep(Initial(), steps, s0, Cycle(None));
    steps := OneMoreStep(Initial(), steps, s1, CheckTimeout(true));
    steps := OneMoreStep(Initial(), steps, s2, EmitTimeout);
    steps := OneMoreStep(Initial(), steps, s3, CheckResponse(false));
    steps := OneMoreStep(Initial(), steps, s4, Poll);
    assert steps == TimedOutSteps(first, bytes);
  }

  function OvertakenSteps(second: BusRequest): seq<Step> {
    [Send(second), Receive([]), Cycle(None), CheckTimeout(false), CheckResponse(false), EmitResponse]
  }

  /** What a time-out can lead to: the late response to any first direct request is
      reported as the response to any second request, when the worker looks for responses
      after the slot has been filled again but before the second command is queued. */
  lemma StaleResponse(first: BusRequest, second: BusRequest, bytes: seq<byte>) returns (s: State)
    requires ClassifyHostRequestRoute(first).ToSystemBus? && !ClassifyHostRequestRoute(second).InvalidSpanningRegion?
    ensures Reaches(Initial(), TimedOutSteps(first, bytes) + OvertakenSteps(second), s)
    ensures s.fills == [first, second] && |s.emitted| == 2
    ensures s.emitted[1] == Emission(CompletionEvent(second.addr, second.wdata, SimResponse(first, bytes)), Some(0))
  {
    hide SimResponse, CompletionEvent;
    ResponseStaysBehind(first, bytes);
    var s0 := TimedOut(first, bytes);
    var s1 := Apply(s0, Send(second));
    var s2 := Apply(s1, Receive([]));
    var s3 := Apply(s2, Cycle(None));
    var s4 := Apply(s3, CheckTimeout(false));
    var s5 := Apply(s4, CheckResponse(false));
    var s6 := Apply(s5, EmitResponse);
    assert s6.fills == [first, second] && |s6.emitted| == 2;
    hide Apply, Reaches;
    var steps := TimedOutSteps(first, bytes);
    steps := OneMoreStep(Initial(), steps, s0, Send(second));
    steps := OneMoreStep(Initial(), steps, s1, Receive([]));
    steps := OneMoreStep(Initial(), steps, s2, Cycle(None));
    steps := OneMoreStep(Initial(), steps, s3, CheckTimeout(false));
    steps := OneMoreStep(Initial(), steps, s4, CheckResponse(false));
    steps := OneMoreStep(Initial(), steps, s5, EmitResponse);
    assert steps == TimedOutSteps(first, bytes) + OvertakenSteps(second);
    s := s6;
  }

  function ImpatientSteps(first: BusRequest, second: BusRequest, bytes: seq<byte>): seq<Step> {
    ServedSteps(first, bytes) +
    [Cycle(None), CheckTimeout(false), CheckResponse(false), EmitResponse, Send(second), PushCommand]
  }

  /** A caller that sends again before dequeuing what is due dequeues the completion of
      its first request while the slot is full with the second. */
  lemma DequeuedWhileFull(first: BusRequest, second: BusRequest, bytes: seq<byte>) returns (s: State)
    requires ClassifyHostRequestRoute(first).ToSystemBus? && !ClassifyHostRequestRoute(second).InvalidSpanningRegion?
    ensures Reaches(Initial(), ImpatientSteps(first, second, bytes), s)
    ensures s.polled + 1 < |s.fills| && !s.Locked()
    ensures Enabled(s, Poll) && Apply(s, Poll).slot.Some?
  {
    hide SimResponse, CompletionEvent;
    RequestServed(first, bytes);
    var s0 := Served(first, bytes);
    var s1 := Apply(s0, Cycle(None));
    var s2 := Apply(s1, CheckTimeout(false));
    var s3 := Apply(s2, CheckResponse(false));
    var s4 := Apply(s3, EmitResponse);
    var s5 := Apply(s4, Send(second));
    var s6 := Apply(s5, PushCommand);
    assert Enabled(s6, Poll) && Apply(s6, Poll).slot.Some?;
    assert !s6.Locked() && |s6.fills| == 2 && s6.polled == 0;
    hide Apply, Reaches;
    var steps := ServedSteps(first, bytes);
    steps := OneMoreStep(Initial(), steps, s0, Cycle(None));
    steps := OneMoreStep(Initial(), steps, s1, CheckTimeout(false));
    steps := OneMoreStep(Initial(), steps, s2, CheckResponse(false));
    steps := OneMoreStep(Initial(), steps, s3, EmitResponse);
    steps := OneMoreStep(Initial(), steps, s4, Send(second));
    steps := OneMoreStep(Initial(), steps, s5, PushCommand);
    assert steps == ImpatientSteps(first, second, bytes);
    s := s6;
  }
}
