/** The 64-byte staging buffers between the serial port and the handler. */
module Staging {
  import opened Prelude
  import opened BusTypes
  import opened Packets
  import opened HandlerSpec
  import opened HandlerRuns
  import HandlerLaws
  import opened HostBusHandlers

  const BUFFER_SIZE := 64

  /** Feeding staged bytes to the handler until one is not taken: the resulting state
      and the number of bytes taken. */
  function Drained(v: HandlerView, bytes: seq<byte>): (r: (HandlerView, nat))
    requires Sound(v)
    ensures Sound(r.0) && r.1 <= |bytes|
    decreases |bytes|
  {
    if |bytes| == 0 || !HandlerSpec.CanAcceptRx(v) then (v, 0)
    else
      RxByteSound(v, bytes[0]);
      var (v', taken) := RxByte(v, bytes[0]);
      if taken.Err? then (v', 0)
      else
        var (last, n) := Drained(v', bytes[1..]);
        (last, n + 1)
  }

  lemma DrainStep(v: HandlerView, bytes: seq<byte>)
    requires Sound(v)
    ensures |bytes| == 0 || !HandlerSpec.CanAcceptRx(v) ==> Drained(v, bytes) == (v, 0)
    ensures |bytes| > 0 && HandlerSpec.CanAcceptRx(v) ==>
              var (v', taken) := RxByte(v, bytes[0]);
              && Sound(v')
              && Drained(v, bytes) == if taken.Err? then (v', 0)
                                      else (Drained(v', bytes[1..]).0, 1 + Drained(v', bytes[1..]).1)
  {
    RxByteSound(v, if |bytes| > 0 then bytes[0] else 0);
    hide RxByte, Sound, HandlerSpec.CanAcceptRx;
  }

  /** Pulling up to `room` bytes out of the handler. */
  function Pulled(v: HandlerView, room: nat): (r: (HandlerView, seq<byte>))
    ensures |r.1| <= room
    decreases room
  {
    if room == 0 then (v, [])
    else
      var (v', out) := TxByte(v);
      if out.None? then (v', [])
      else
        var (last, more) := Pulled(v', room - 1);
        (last, [out.value] + more)
  }

  function Prepend(done: seq<byte>, r: (HandlerView, seq<byte>)): (HandlerView, seq<byte>) {
    (r.0, done + r.1)
  }

  lemma PrependNothing(r: (HandlerView, seq<byte>))
    ensures Prepend([], r) == r
  {
    assert [] + r.1 == r.1;
  }

  lemma PullStep(done: seq<byte>, v: HandlerView, room: nat)
    ensures room == 0 || TxByte(v).1.None? ==>
              Prepend(done, Pulled(v, room)) == (if room == 0 then v else TxByte(v).0, done)
    ensures room > 0 && TxByte(v).1.Some? ==>
              Prepend(done, Pulled(v, room)) == Prepend(done + [TxByte(v).1.value], Pulled(TxByte(v).0, room - 1))
  {
    hide TxByte;
    assert done + [] == done;
    if room > 0 && TxByte(v).1.Some? {
      var more := Pulled(TxByte(v).0, room - 1).1;
      assert done + ([TxByte(v).1.value] + more) == (done + [TxByte(v).1.value]) + more;
    }
  }

  /** Draining stops for want of bytes or because the handler refuses the next one, and would
      refuse it again. */
  lemma {:induction false} DrainExhausts(v: HandlerView, bytes: seq<byte>)
    requires Sound(v)
    ensures var (v', n) := Drained(v, bytes);
            n < |bytes| ==> RxByte(v', bytes[n]).1 == Err(BufferFull)
    decreases |bytes|
  {
    hide RxByte, Sound;
    if |bytes| > 0 {
      StillRefused(v, bytes[0]);
      if HandlerSpec.CanAcceptRx(v) && RxByte(v, bytes[0]).1.Ok? {
        RxByteSound(v, bytes[0]);
        DrainExhausts(RxByte(v, bytes[0]).0, bytes[1..]);
      }
    }
  }

  lemma StillRefused(v: HandlerView, b: byte)
    requires Sound(v)
    ensures !HandlerSpec.CanAcceptRx(v) ==> RxByte(v, b) == (v, Err(BufferFull))
    ensures RxByte(v, b).1.Err? ==> Sound(RxByte(v, b).0) && RxByte(RxByte(v, b).0, b).1 == Err(BufferFull)
  {
    RxByteSound(v, b);
    HandlerLaws.RefusalExact(v, b);
    HandlerLaws.RefusalExact(RxByte(v, b).0, b);
    hide Sound, LacksOne, Assemble, Deliver;
  }

  /** Pulling stops for want of room or because the handler has nothing more to send. */
  lemma {:induction false} PullExhausts(v: HandlerView, room: nat)
    ensures var (v', bytes) := Pulled(v, room);
            |bytes| < room ==> v'.txRest == [] && (v'.accepted.None? || v'.pending.None?)
                               && (v'.outgoing.None? || v'.started)
    decreases room
  {
    if room > 0 {
      HandlerLaws.TransmitExact(v);
      hide TxByte;
      if TxByte(v).1.Some? {
        PullExhausts(TxByte(v).0, room - 1);
      }
    }
  }

  /** `copy_within(from..len, 0)` */
  method CopyDown(buffer: array<byte>, from: nat, len: nat)
    requires from <= len <= buffer.Length
    modifies buffer
    ensures buffer[..len - from] == old(buffer[from..len])
  {
    forall i | 0 <= i < len - from {
      buffer[i] := buffer[from + i];
    }
  }

  class StagingBuffers {
    const handler: HostBusHandler
    const rxBuffer: array<byte>
    const txBuffer: array<byte>
    var rxLen: nat
    var txLen: nat

    ghost predicate Valid()
      reads this, handler
    {
      && rxBuffer.Length == txBuffer.Length == BUFFER_SIZE
      && rxBuffer != txBuffer
      && rxLen <= BUFFER_SIZE && txLen <= BUFFER_SIZE
      && handler.Valid()
    }

    constructor (handler: HostBusHandler)
      requires handler.Valid()
      ensures Valid() && this.handler == handler && fresh(rxBuffer) && fresh(txBuffer)
      ensures rxLen == txLen == 0
    {
      this.handler := handler;
      rxBuffer := new byte[BUFFER_SIZE](_ => 0);
      txBuffer := new byte[BUFFER_SIZE](_ => 0);
      rxLen, txLen := 0, 0;
    }

    /** `delivered` are the bytes that the port's read call stores; it stores no more
        than the space it is given. */
    method FillRxBuffer(delivered: seq<byte>)
      requires Valid() && |delivered| <= BUFFER_SIZE - rxLen
      modifies this`rxLen, rxBuffer
      ensures Valid()
      ensures rxBuffer[..rxLen] == old(rxBuffer[..rxLen]) + delivered
    {
      var available := BUFFER_SIZE - rxLen;
      if available == 0 {
        return;
      }
      forall i | 0 <= i < |delivered| {
        rxBuffer[rxLen + i] := delivered[i];
      }
      rxLen := rxLen + |delivered|;
    }

    method DrainRxBufferToHandler()
      requires Valid()
      modifies this`rxLen, rxBuffer, handler
      ensures Valid()
      ensures handler.View() == Drained(old(handler.View()), old(rxBuffer[..rxLen])).0
      ensures rxBuffer[..rxLen] == old(rxBuffer[..rxLen])[Drained(old(handler.View()), old(rxBuffer[..rxLen])).1..]
    {
      hide Sound, RxByte, HandlerSpec.CanAcceptRx, Drained;
      ghost var v := handler.View();
      ghost var staged := rxBuffer[..rxLen];
      var consumed := 0;
      var stopped := false;
      while consumed < rxLen && !stopped
        invariant Valid() && consumed <= rxLen == |staged| && rxBuffer[..rxLen] == staged
        invariant !stopped ==>
                    && Drained(v, staged).0 == Drained(handler.View(), staged[consumed..]).0
                    && Drained(v, staged).1 == consumed + Drained(handler.View(), staged[consumed..]).1
        invariant stopped ==> Drained(v, staged) == (handler.View(), consumed)
        decreases rxLen - consumed, !stopped
      {
        assert staged[consumed..][0] == staged[consumed] && staged[consumed..][1..] == staged[consumed + 1..];
        DrainStep(handler.View(), staged[consumed..]);
        if !handler.CanAcceptRx() {
          stopped := true;
        } else {
          var r := handler.TransferRxByte(rxBuffer[consumed]);
          if r.Err? {
            stopped := true;
          } else {
            consumed := consumed + 1;
          }
        }
      }
      if !stopped {
        DrainStep(handler.View(), staged[consumed..]);
      }
      if 0 < consumed < rxLen {
        CopyDown(rxBuffer, consumed, rxLen);
      }
      rxLen := rxLen - consumed;
    }

    method FillTxBufferFromHandler()
      requires Valid()
      modifies this`txLen, txBuffer, handler
      ensures Valid()
      ensures handler.View() == Pulled(old(handler.View()), BUFFER_SIZE - old(txLen)).0
      ensures txBuffer[..txLen] == old(txBuffer[..txLen]) + Pulled(old(handler.View()), BUFFER_SIZE - old(txLen)).1
    {
      hide Pulled, Prepend, TxByte, Sound, HandlerSpec.HasTxData, RxMatches, HostBusHandler.View;
      ghost var v, room := handler.View(), BUFFER_SIZE - txLen;
      ghost var staged, taken := txBuffer[..txLen], [];
      var more := true;
      PrependNothing(Pulled(v, room));
      while txLen < BUFFER_SIZE && more
        invariant Valid()
        invariant txBuffer[..txLen] == staged + taken
        invariant more ==> Pulled(v, room) == Prepend(taken, Pulled(handler.View(), BUFFER_SIZE - txLen))
        invariant !more ==> Pulled(v, room) == (handler.View(), taken)
        decreases BUFFER_SIZE - txLen, more
      {
        PullStep(taken, handler.View(), BUFFER_SIZE - txLen);
        var out := handler.TransferTxByte();
        if out.Some? {
          ghost var before := txBuffer[..txLen];
          txBuffer[txLen] := out.value;
          txLen := txLen + 1;
          taken := taken + [out.value];
          assert txBuffer[..txLen] == before + [out.value] == staged + taken;
        } else {
          more := false;
        }
      }
      if more {
        PullStep(taken, handler.View(), 0);
      }
    }

    /** `written` is how many staged bytes the port's write call took. */
    method DrainTxBuffer(written: nat)
      requires Valid() && written <= txLen
      modifies this`txLen, txBuffer
      ensures Valid()
      ensures txBuffer[..txLen] == old(txBuffer[..txLen])[written..]
    {
      if txLen == 0 {
        return;
      }
      if 0 < written < txLen {
        CopyDown(txBuffer, written, txLen);
      }
      txLen := txLen - written;
    }
  }

  // ---- Any chunking, over all runs ------------------------------------------------

  /** The handler with its record, the staged bytes of both directions, and the bytes
      that have come from and gone to the port. */
  datatype Pipeline = Pipeline(
    history: History,
    rxStaged: seq<byte>,
    txStaged: seq<byte>,
    received: seq<byte>,
    written: seq<byte>)

  const DISCONNECTED := Pipeline(START, [], [], [], [])

  datatype Stage =
    | Fill(chunk: seq<byte>)
    | DrainRx
    | FillTx
    | DrainTx(count: nat)
    | User(op: Op)

  function DrainHistory(h: History, bytes: seq<byte>): (r: History)
    requires Sound(h.view)
    decreases |bytes|
  {
    if |bytes| == 0 || !HandlerSpec.CanAcceptRx(h.view) then h
    else
      RxByteSound(h.view, bytes[0]);
      var h' := Next(h, Rx(bytes[0]));
      if RxByte(h.view, bytes[0]).1.Err? then h' else DrainHistory(h', bytes[1..])
  }

  function PullHistory(h: History, room: nat): History
    requires Sound(h.view)
    decreases room
  {
    if room == 0 then h
    else
      NextSound(h, Tx);
      if TxByte(h.view).1.None? then Next(h, Tx) else PullHistory(Next(h, Tx), room - 1)
  }

  ghost predicate Consistent(h: History) {
    Sound(h.view) && RxFaithful(h) && TxFramed(h) && TxAnswers(h) && TxRequests(h)
  }

  lemma NextConsistent(h: History, op: Op)
    requires Consistent(h) && Reoffered(h.view, op)
    ensures Consistent(Next(h, op))
  {
    hide Next, RxFaithful, TxFramed, TxAnswers, TxRequests, Reoffered;
    NextSound(h, op);
    match op
    case Rx(b) =>
      RxStepFaithful(h, b);
      RxStepTx(h, b);
    case Tx =>
      OtherStepFaithful(h, op);
      TxStepFramed(h);
      TxStepAnswers(h);
      TxStepRequests(h);
    case _ =>
      OtherStepFaithful(h, op);
      UserStepTx(h, op);
  }

  lemma RxRecord(h: History, b: byte)
    requires Sound(h.view)
    ensures var h' := Next(h, Rx(b));
            var (v, r) := RxByte(h.view, b);
            && h'.view == v && h'.rx == (if r.Ok? then h.rx + [b] else h.rx) && h'.tx == h.tx
            && h'.overdue == (h.overdue || Overdue(h.view, Rx(b)))
  {
  }

  lemma TxRecord(h: History)
    requires Sound(h.view)
    ensures var h' := Next(h, Tx);
            var (v, out) := TxByte(h.view);
            && h'.view == v && h'.tx == (if out.Some? then h.tx + [out.value] else h.tx)
            && h'.rx == h.rx && h'.overdue == h.overdue
  {
  }

  /** A refused byte is still the first one staged. */
  predicate StillStaged(v: HandlerView, bytes: seq<byte>) {
    v.refused != [] ==> |bytes| > 0 && bytes[0] == v.refused[0]
  }

  /** Draining these bytes reaches the final byte of a request with payload while the
      request slot is taken. */
  predicate DrainOverdue(v: HandlerView, bytes: seq<byte>)
    requires Sound(v)
    decreases |bytes|
  {
    |bytes| > 0 && HandlerSpec.CanAcceptRx(v) &&
    (Overdue(v, Rx(bytes[0])) ||
     (RxByteSound(v, bytes[0]);
      RxByte(v, bytes[0]).1.Ok? && DrainOverdue(RxByte(v, bytes[0]).0, bytes[1..])))
  }

  lemma RefusedByteStays(v: HandlerView, b: byte)
    requires Sound(v) && (v.refused != [] ==> b == v.refused[0])
    ensures RxByte(v, b).1.Ok? ==> RxByte(v, b).0.refused == []
    ensures RxByte(v, b).1.Err? && HandlerSpec.CanAcceptRx(v) ==>
              RxByte(v, b).0.refused != [] && RxByte(v, b).0.refused[0] == b
    ensures !HandlerSpec.CanAcceptRx(v) ==> v.refused == [] && !Overdue(v, Rx(b))
  {
    hide Assemble, IsStart, SoundSlots;
    assert LacksOne(v.frame) ==> |v.frame| >= 7;
    hide LacksOne, Partial;
  }

  /** The recorded drain takes the handler where the buffer's drain takes it. */
  lemma {:induction false} DrainRecorded(h: History, bytes: seq<byte>)
    requires Consistent(h) && StillStaged(h.view, bytes)
    ensures Sound(h.view)
    ensures var h' := DrainHistory(h, bytes);
            && Consistent(h') && h'.view == Drained(h.view, bytes).0
            && h'.rx == h.rx + bytes[..Drained(h.view, bytes).1] && h'.tx == h.tx
    decreases |bytes|
  {
    hide Next, Consistent, RxByte, HandlerSpec.CanAcceptRx, Overdue;
    ConsistentSound(h);
    if |bytes| == 0 || !HandlerSpec.CanAcceptRx(h.view) {
    } else {
      RxByteSound(h.view, bytes[0]);
      RxRecord(h, bytes[0]);
      NextConsistent(h, Rx(bytes[0]));
      RefusedByteStays(h.view, bytes[0]);
      if RxByte(h.view, bytes[0]).1.Ok? {
        DrainRecorded(Next(h, Rx(bytes[0])), bytes[1..]);
        var n := Drained(RxByte(h.view, bytes[0]).0, bytes[1..]).1;
        assert bytes[..n + 1] == [bytes[0]] + bytes[1..][..n];
      }
    }
  }

  lemma {:induction false} DrainKeepsStaged(v: HandlerView, bytes: seq<byte>)
    requires Sound(v) && StillStaged(v, bytes)
    ensures StillStaged(Drained(v, bytes).0, bytes[Drained(v, bytes).1..])
    decreases |bytes|
  {
    hide RxByte, HandlerSpec.CanAcceptRx, Overdue, Sound, Drained;
    DrainStep(v, bytes);
    if |bytes| > 0 && HandlerSpec.CanAcceptRx(v) {
      RefusedByteStays(v, bytes[0]);
      if RxByte(v, bytes[0]).1.Ok? {
        DrainKeepsStaged(RxByte(v, bytes[0]).0, bytes[1..]);
        var n := Drained(RxByte(v, bytes[0]).0, bytes[1..]).1;
        assert bytes[n + 1..] == bytes[1..][n..];
      }
    }
  }

  lemma {:induction false} DrainRecordsOverdue(h: History, bytes: seq<byte>)
    requires Sound(h.view) && StillStaged(h.view, bytes)
    ensures DrainHistory(h, bytes).overdue == (h.overdue || DrainOverdue(h.view, bytes))
    decreases |bytes|
  {
    hide Next, RxByte, HandlerSpec.CanAcceptRx, Overdue, Sound;
    if |bytes| > 0 && HandlerSpec.CanAcceptRx(h.view) {
      RxByteSound(h.view, bytes[0]);
      RxRecord(h, bytes[0]);
      RefusedByteStays(h.view, bytes[0]);
      if RxByte(h.view, bytes[0]).1.Ok? {
        RefusedIsOverdue(h.view, bytes[0]);
        DrainRecordsOverdue(Next(h, Rx(bytes[0])), bytes[1..]);
      }
    }
  }

  lemma RefusedIsOverdue(v: HandlerView, b: byte)
    requires Sound(v)
    ensures !Overdue(v, Rx(b)) || RxByte(v, b).1.Err?
  {
    hide Assemble, SoundSlots, PayloadLen;
    if Overdue(v, Rx(b)) {
      AssembledKind(v.frame, v.refused + [b]);
    }
  }

  lemma ConsistentSound(h: History)
    requires Consistent(h)
    ensures Sound(h.view)
  {
  }

  lemma {:induction false} PullRecorded(h: History, room: nat)
    requires Consistent(h)
    ensures var h' := PullHistory(h, room);
            && Consistent(h') && h'.view == Pulled(h.view, room).0
            && h'.tx == h.tx + Pulled(h.view, room).1 && h'.rx == h.rx && h'.overdue == h.overdue
    decreases room
  {
    hide Next, Consistent, TxByte;
    assert Sound(h.view) by { ConsistentSound(h); }
    if room > 0 {
      TxRecord(h);
      NextConsistent(h, Tx);
      if TxByte(h.view).1.Some? {
        PullRecorded(Next(h, Tx), room - 1);
      }
    }
  }

  function Advance(p: Pipeline, stage: Stage): Pipeline
    requires Sound(p.history.view)
  {
    match stage
    case Fill(chunk) =>
      if |p.rxStaged| + |chunk| > BUFFER_SIZE then p
      else p.(rxStaged := p.rxStaged + chunk, received := p.received + chunk)
    case DrainRx =>
      p.(history := DrainHistory(p.history, p.rxStaged),
         rxStaged := p.rxStaged[Drained(p.history.view, p.rxStaged).1..])
    case FillTx =>
      if |p.txStaged| > BUFFER_SIZE then p
      else
        var room := BUFFER_SIZE - |p.txStaged|;
        p.(history := PullHistory(p.history, room), txStaged := p.txStaged + Pulled(p.history.view, room).1)
    case DrainTx(count) =>
      if count > |p.txStaged| then p
      else p.(txStaged := p.txStaged[count..], written := p.written + p.txStaged[..count])
    case User(op) => if op.Rx? || op.Tx? then p else p.(history := Next(p.history, op))
  }

  /** No byte is lost, doubled or reordered between port and handler, either way. */
  ghost predicate PipelineInv(p: Pipeline) {
    && Consistent(p.history) && StillStaged(p.history.view, p.rxStaged)
    && p.history.rx + p.rxStaged == p.received
    && p.written + p.txStaged == p.history.tx
  }

  lemma AdvanceKeepsInv(p: Pipeline, stage: Stage)
    requires PipelineInv(p)
    ensures PipelineInv(Advance(p, stage))
  {
    hide Consistent, DrainHistory, PullHistory, Drained, Pulled;
    ConsistentSound(p.history);
    match stage
    case Fill(chunk) => assert p.history.rx + (p.rxStaged + chunk) == p.received + chunk;
    case DrainRx =>
      DrainRecorded(p.history, p.rxStaged);
      DrainKeepsStaged(p.history.view, p.rxStaged);
    case FillTx =>
      if |p.txStaged| <= BUFFER_SIZE {
        PullLeavesRx(p.history.view, BUFFER_SIZE - |p.txStaged|);
        PullRecorded(p.history, BUFFER_SIZE - |p.txStaged|);
      }
    case DrainTx(count) =>
    case User(op) =>
      if !op.Rx? && !op.Tx? {
        NextConsistent(p.history, op);
        UserRecord(p.history, op);
      }
  }

  lemma UserRecord(h: History, op: Op)
    requires Sound(h.view) && !op.Rx? && !op.Tx?
    ensures Next(h, op).rx == h.rx && Next(h, op).tx == h.tx && Next(h, op).view.refused == h.view.refused
    ensures Next(h, op).overdue == h.overdue
  {
    hide Sound, SendError, Answers, FillIn;
  }

  lemma {:induction false} PullLeavesRx(v: HandlerView, room: nat)
    ensures Pulled(v, room).0.refused == v.refused
    decreases room
  {
    hide Encode;
    if room > 0 && TxByte(v).1.Some? {
      PullLeavesRx(TxByte(v).0, room - 1);
    }
  }

  function Flow(stages: seq<Stage>): (p: Pipeline)
    ensures PipelineInv(p)
  {
    if |stages| == 0 then
      StartFaithful();
      StartTx();
      DISCONNECTED
    else
      var p := Flow(stages[..|stages| - 1]);
      AdvanceKeepsInv(p, stages[|stages| - 1]);
      Advance(p, stages[|stages| - 1])
  }

  /** Whenever a drain reaches the final byte of a request with payload, the request slot
      is free. */
  ghost predicate PromptFlow(stages: seq<Stage>) {
    |stages| > 0 ==>
      var p := Flow(stages[..|stages| - 1]);
      && PromptFlow(stages[..|stages| - 1])
      && (stages[|stages| - 1].DrainRx? ==> !DrainOverdue(p.history.view, p.rxStaged))
  }

  lemma {:induction false} PromptFlowIsNotOverdue(stages: seq<Stage>)
    ensures PromptFlow(stages) <==> !Flow(stages).history.overdue
  {
    if |stages| > 0 {
      hide Advance, DrainOverdue;
      PromptFlowIsNotOverdue(stages[..|stages| - 1]);
      AdvanceOverdue(Flow(stages[..|stages| - 1]), stages[|stages| - 1]);
    }
  }

  lemma AdvanceOverdue(p: Pipeline, stage: Stage)
    requires PipelineInv(p)
    ensures Advance(p, stage).history.overdue ==
            (p.history.overdue || (stage.DrainRx? && DrainOverdue(p.history.view, p.rxStaged)))
  {
    hide Consistent, DrainHistory, PullHistory, Drained, Pulled, DrainOverdue, Next;
    ConsistentSound(p.history);
    match stage
    case DrainRx => DrainRecordsOverdue(p.history, p.rxStaged);
    case FillTx =>
      if |p.txStaged| <= BUFFER_SIZE {
        PullRecorded(p.history, BUFFER_SIZE - |p.txStaged|);
      }
    case User(op) =>
      if !op.Rx? && !op.Tx? {
        UserRecord(p.history, op);
      }
    case _ =>
  }

  /** However the port cuts the stream into chunks and whenever the buffers are drained:
      if what has come in is a mix of printed legal packets and ignorable bytes, all of it
      drained, then the requests handed over and the one still buffered are exactly the
      requests of that mix, in order, if and only if the request slot was free whenever a
      drain reached the final byte of a request with payload. What has gone out, is staged
      or is still to be handed out are whole packets in sequence. */
  lemma ChunkingIsInvisible(stages: seq<Stage>, items: seq<Item>)
    ensures var p := Flow(stages);
            && (IsStream(p.received, items) && p.rxStaged == [] ==>
                  && (Delivered(p.history) == Requests(items) <==> PromptFlow(stages))
                  && |Delivered(p.history)| == |Requests(items)|)
            && p.written + p.txStaged + p.history.view.txRest == EncodeAll(p.history.packets)
  {
    hide Flow, Parse, Print, Requests, Delivered, PromptFlow;
    var p := Flow(stages);
    if IsStream(p.received, items) && p.rxStaged == [] {
      PromptFlowIsNotOverdue(stages);
      assert p.history.rx + [] == p.history.rx;
      ParseAfterPrint(items);
    }
  }
}
