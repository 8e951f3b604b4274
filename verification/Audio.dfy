/** The audio device: batches of samples fetched from memory, decoded, handed over once,
    and paced by a one-second window. */
module Audios {
  import opened Prelude
  import opened BusTypes
  import opened Memories
  import opened ChunkedReads
  import opened Clocked

  datatype SampleRate = Hz48000 | Hz44100 | Hz22050

  datatype Channels = Mono | Stereo {
    /** Values in `n` samples. */
    function Values(n: nat): nat {
      match this
      case Mono => n
      case Stereo => 2 * n
    }
  }

  type SampleCount = x: int | 1 <= x <= 65536 witness 1

  datatype AudioConfig = AudioConfig(sampleRate: SampleRate, channels: Channels, sampleCount: SampleCount) {
    function TotalBytes(): (n: uint32)
      ensures n > 0
    {
      2 * channels.Values(sampleCount)
    }
  }

  function RateFromCode(code: nat): Option<SampleRate> {
    if code == 0 then Some(Hz48000)
    else if code == 1 then Some(Hz44100)
    else if code == 2 then Some(Hz22050)
    else None
  }

  function ConfigFromRegister(value: uint32): Option<AudioConfig> {
    match RateFromCode(value % 4)
    case None => None
    case Some(rate) =>
      Some(AudioConfig(rate, if value / 4 % 2 == 0 then Mono else Stereo, value / 8 % 65536 + 1))
  }

  /** The configuration register: two bits of rate code, of which three are in use, one bit
      that asks for two channels, and sixteen bits of the number of samples less one. */
  lemma ConfigExact(value: uint32)
    ensures var code := value % 4;
            var config := ConfigFromRegister(value);
            var count := value / 8 % 65536 + 1;
            var channels := if value / 4 % 2 == 1 then 2 else 1;
            if code == 3 then config == None
            else
              && config == Some(AudioConfig([Hz48000, Hz44100, Hz22050][code],
                                            if channels == 2 then Stereo else Mono, count))
              && config.value.TotalBytes() == 2 * channels * count
              && config.value.channels.Values(count) == channels * count
  {
  }

  datatype ActiveDma = ActiveDma(fetch: Fetch, config: AudioConfig)

  datatype AudioView = AudioView(
    audioAddr: uint32,
    audioConfig: uint32,
    active: Option<ActiveDma>,
    samplesInWindow: uint32,
    windowStart: Option<nat>,
    delivered: seq<seq<int16>>,
    configured: seq<AudioConfig>)
  {
    /** A transfer has bytes left, and will have collected all bytes of its batch. */
    ghost predicate Valid() {
      active.Some? ==>
        && active.value.fetch.remaining > 0
        && |active.value.fetch.data| + active.value.fetch.remaining == active.value.config.TotalBytes()
    }
  }

  const AUDIO_ADDR := 0x00
  const AUDIO_CONFIG := 0x04
  const AUDIO_STATUS := 0x08
  const AUDIO_DMA := 0x0C

  const WINDOW_US := 1_000_000

  /** Samples that may be ahead per window: the product of rate and multiplier. */
  type Thresholds = SampleRate -> uint32

  // ---- Samples ---------------------------------------------------------------------

  type int16 = x: int | -0x8000 <= x < 0x8000

  /** `i16::from_le_bytes` */
  function SampleOf(low: byte, high: byte): int16 {
    var v := low as int + 0x100 * (high as int);
    if v < 0x8000 then v else v - 0x1_0000
  }

  function Decode(data: seq<byte>): (samples: seq<int16>)
    ensures |samples| == |data| / 2
  {
    seq(|data| / 2, i requires 0 <= i < |data| / 2 => SampleOf(data[2 * i], data[2 * i + 1]))
  }

  /** Decoding loses nothing: the two's-complement bytes of each sample are the bytes it
      was decoded from, in order. */
  lemma DecodeIsComplete(data: seq<byte>, i: nat)
    requires |data| % 2 == 0 && i < |data| / 2
    ensures var s := Decode(data)[i];
            var v: int := if s < 0 then s as int + 0x1_0000 else s;
            data[2 * i] == v % 0x100 && data[2 * i + 1] == v / 0x100
  {
  }

  function Min(a: nat, b: nat): nat {
    if a < b then a else b
  }

  // ---- Steps -------------------------------------------------------------------------

  function Elapsed(start: nat, now: nat): nat {
    if now >= start then now - start else 0
  }

  predicate SampleBufferReady(v: AudioView, thresholds: Thresholds, now: nat) {
    match ConfigFromRegister(v.audioConfig)
    case None => true
    case Some(config) =>
      || (v.windowStart.Some? && Elapsed(v.windowStart.value, now) >= WINDOW_US)
      || v.samplesInWindow < thresholds(config.sampleRate)
  }

  function Started(v: AudioView): AudioView {
    match ConfigFromRegister(v.audioConfig)
    case Some(config) =>
      if v.active.Some? then v
      else v.(active := Some(ActiveDma(Fetch(v.audioAddr, config.TotalBytes(), []), config)))
    case None => v
  }

  /** A batch is complete: it opens a new window or counts towards the current one. */
  function Completed(v: AudioView, dma: ActiveDma, now: nat): AudioView {
    var v' := v.(active := None, delivered := v.delivered + [Decode(dma.fetch.data)]);
    if v.windowStart.None? || Elapsed(v.windowStart.value, now) >= WINDOW_US then
      v'.(windowStart := Some(now), samplesInWindow := dma.config.sampleCount)
    else
      v'.(samplesInWindow := WrapAdd(v.samplesInWindow, dma.config.sampleCount))
  }

  function Clock(v: AudioView, m: ByteMap, now: nat): AudioView
    requires v.Valid()
  {
    match v.active
    case None => v
    case Some(dma) =>
      var dma' := dma.(fetch := FetchChunk(dma.fetch, m));
      if dma'.fetch.remaining > 0 then v.(active := Some(dma')) else Completed(v, dma', now)
  }

  function Configured(v: AudioView, value: uint32): AudioView {
    var v' := v.(audioConfig := value, samplesInWindow := 0, windowStart := None);
    match ConfigFromRegister(value)
    case None => v'
    case Some(config) => v'.(configured := v.configured + [config])
  }

  function WriteRegister(v: AudioView, offset: uint32, value: uint32): Result<AudioView, BusDeviceError> {
    if offset == AUDIO_ADDR then Ok(v.(audioAddr := value))
    else if offset == AUDIO_CONFIG then Ok(Configured(v, value))
    else if offset == AUDIO_STATUS then Err(WriteToReadOnly(offset))
    else if offset == AUDIO_DMA then Ok(Started(v))
    else Err(InvalidAddress(offset))
  }

  function ReadRegister(v: AudioView, offset: uint32, bufferReady: bool): Result<uint32, BusDeviceError> {
    if offset == AUDIO_ADDR then Ok(v.audioAddr)
    else if offset == AUDIO_CONFIG then Ok(v.audioConfig)
    else if offset == AUDIO_STATUS then Ok((if v.active.None? then 1 else 0) + (if bufferReady then 2 else 0))
    else if offset == AUDIO_DMA then Err(ReadFromWriteOnly(offset))
    else Err(InvalidAddress(offset))
  }

  /** A configuration register holds what was written to it last, whatever is in
      progress, and shares nothing with the others. */
  lemma RegistersHold(v: AudioView, offset: uint32, value: uint32, other: uint32, bufferReady: bool)
    requires offset in [AUDIO_ADDR, AUDIO_CONFIG] && other in [AUDIO_ADDR, AUDIO_CONFIG]
    ensures var w := WriteRegister(v, offset, value);
            && w.Ok? && w.value.active == v.active
            && ReadRegister(w.value, other, bufferReady) ==
               if other == offset then Ok(value) else ReadRegister(v, other, bufferReady)
  {
  }

  /** The register interface: two registers that hold what is written, the second of which
      also starts a new window and, when it is valid, reports the configuration; a status
      that only reads, with a bit for no transfer in progress and a bit for room in the
      buffer; a trigger that only writes; and nothing else. */
  lemma InterfaceExact(v: AudioView, offset: uint32, value: uint32, bufferReady: bool)
    ensures var w := WriteRegister(v, offset, value);
            var r := ReadRegister(v, offset, bufferReady);
            if offset == 0x00 then w == Ok(v.(audioAddr := value)) && r == Ok(v.audioAddr)
            else if offset == 0x04 then
              && r == Ok(v.audioConfig) && w.Ok?
              && w.value == v.(audioConfig := value, samplesInWindow := 0, windowStart := None,
                               configured := w.value.configured)
              && (value % 4 == 3 ==> w.value.configured == v.configured)
              && (value % 4 != 3 ==> ConfigFromRegister(value).Some?
                                     && w.value.configured == v.configured + [ConfigFromRegister(value).value])
            else if offset == 0x08 then
              && w == Err(WriteToReadOnly(0x08)) && r.Ok? && r.value < 4
              && (r.value % 2 == 1 <==> v.active.None?) && (r.value / 2 == 1 <==> bufferReady)
            else if offset == 0x0C then w.Ok? && r == Err(ReadFromWriteOnly(0x0C))
            else w == Err(InvalidAddress(offset)) && r == Err(InvalidAddress(offset))
  {
  }

  /** A trigger that finds a transfer in progress, or the unused rate code, starts nothing. */
  lemma NothingStarted(v: AudioView, value: uint32)
    requires v.active.Some? || v.audioConfig % 4 == 3
    ensures WriteRegister(v, 0x0C, value) == Ok(v)
  {
  }

  /** There is room if the configuration is invalid, if a second has passed since the window
      opened, or if the window holds fewer samples than its threshold. */
  lemma ReadyExact(v: AudioView, thresholds: Thresholds, now: nat)
    ensures var code := v.audioConfig % 4;
            SampleBufferReady(v, thresholds, now) <==>
            || code == 3
            || (v.windowStart.Some? && v.windowStart.value + 1_000_000 <= now)
            || v.samplesInWindow < thresholds([Hz48000, Hz44100, Hz22050][code])
  {
    ConfigExact(v.audioConfig);
    hide ConfigFromRegister;
  }

  // ---- The device ----------------------------------------------------------------------

  class Audio {
    var audioAddr: uint32
    var audioConfig: uint32
    var activeDma: Option<ActiveDma>
    var samplesInCurrentWindow: uint32
    var windowStartTimeUs: Option<nat>
    var delivered: seq<seq<int16>>
    var configured: seq<AudioConfig>
    const thresholds: Thresholds

    ghost function View(): AudioView
      reads this
    {
      AudioView(audioAddr, audioConfig, activeDma, samplesInCurrentWindow, windowStartTimeUs, delivered, configured)
    }

    constructor (thresholds: Thresholds)
      ensures View() == AudioView(0, 0, None, 0, None, [], []) && this.thresholds == thresholds
    {
      audioAddr, audioConfig, activeDma, samplesInCurrentWindow, windowStartTimeUs := 0, 0, None, 0, None;
      delivered, configured := [], [];
      this.thresholds := thresholds;
    }

    method IsSampleBufferReady(now: nat) returns (ready: bool)
      ensures ready == SampleBufferReady(View(), thresholds, now)
    {
      var config := ConfigFromRegister(audioConfig);
      if config.None? {
        return true;
      }
      var windowElapsed := match windowStartTimeUs case None => 0 case Some(start) => Elapsed(start, now);
      if windowElapsed >= WINDOW_US {
        return true;
      }
      ready := samplesInCurrentWindow < thresholds(config.value.sampleRate);
    }

    method StartDma()
      modifies this`activeDma
      ensures View() == Started(old(View()))
    {
      if activeDma.Some? {
        return;
      }
      var config := ConfigFromRegister(audioConfig);
      if config.None? {
        return;
      }
      activeDma := Some(ActiveDma(Fetch(audioAddr, config.value.TotalBytes(), []), config.value));
    }

    /** `clock_cycle` */
    method DmaChunk(ctx: SystemContext)
      requires View().Valid()
      modifies this
      ensures View() == Clock(old(View()), ctx.memory.data, ctx.elapsedTimeUs)
      ensures View().Valid()
    {
      hide Decode, DeviceBytes, OptimalReadSize;
      if activeDma.None? {
        return;
      }
      var dma := activeDma.value;
      ChunkFits(dma.fetch.addr, dma.fetch.remaining);
      var bytes, readSize := ReadMemoryChunk(ctx, dma.fetch.addr, dma.fetch.remaining);
      dma := dma.(fetch := Fetch(WrapAdd(dma.fetch.addr, readSize), dma.fetch.remaining - readSize,
                                 dma.fetch.data + bytes[..readSize]));
      activeDma := Some(dma);
      if dma.fetch.remaining == 0 {
        activeDma := None;
        InvokeSampleCallback(dma, ctx.elapsedTimeUs);
      }
    }

    method InvokeSampleCallback(dma: ActiveDma, now: nat)
      requires activeDma.None? && |dma.fetch.data| <= dma.config.TotalBytes()
      modifies this`samplesInCurrentWindow, this`windowStartTimeUs, this`delivered
      ensures View() == Completed(old(View()), dma, now)
    {
      var samples := ParseSamples(dma.fetch.data, dma.config);
      if windowStartTimeUs.None? || Elapsed(windowStartTimeUs.value, now) >= WINDOW_US {
        windowStartTimeUs := Some(now);
        samplesInCurrentWindow := dma.config.sampleCount;
      } else {
        samplesInCurrentWindow := WrapAdd(samplesInCurrentWindow, dma.config.sampleCount);
      }
      delivered := delivered + [samples];
    }

    /** Decodes up to a full batch; of a complete batch no sample is skipped. */
    static method ParseSamples(data: seq<byte>, config: AudioConfig) returns (samples: seq<int16>)
      ensures |data| <= config.TotalBytes() ==> samples == Decode(data)
      ensures |data| > config.TotalBytes() ==> samples == Decode(data)[..config.channels.Values(config.sampleCount)]
    {
      hide SampleOf;
      samples := [];
      var channelCount := config.channels.Values(1);
      for sampleIdx := 0 to config.sampleCount
        invariant |samples| == Min(config.channels.Values(sampleIdx), |data| / 2)
        invariant samples == Decode(data)[..|samples|]
      {
        for channelIdx := 0 to channelCount
          invariant |samples| == Min(config.channels.Values(sampleIdx) + channelIdx, |data| / 2)
          invariant samples == Decode(data)[..|samples|]
        {
          var byteOffset := 2 * (config.channels.Values(sampleIdx) + channelIdx);
          if byteOffset + 1 < |data| {
            samples := samples + [SampleOf(data[byteOffset], data[byteOffset + 1])];
          }
        }
      }
    }

    method HandleConfigWrite(value: uint32)
      modifies this`audioConfig, this`samplesInCurrentWindow, this`windowStartTimeUs, this`configured
      ensures View() == Configured(old(View()), value)
    {
      audioConfig := value;
      samplesInCurrentWindow := 0;
      windowStartTimeUs := None;
      var config := ConfigFromRegister(value);
      if config.Some? {
        configured := configured + [config.value];
      }
    }

    method ReadWord(ctx: SystemContext, offset: uint32) returns (r: Result<uint32, BusDeviceError>)
      ensures r == ReadRegister(View(), offset, SampleBufferReady(View(), thresholds, ctx.elapsedTimeUs))
    {
      if offset == AUDIO_ADDR {
        r := Ok(audioAddr);
      } else if offset == AUDIO_CONFIG {
        r := Ok(audioConfig);
      } else if offset == AUDIO_STATUS {
        var status := 0;
        if activeDma.None? {
          status := status + 1;
        }
        var ready := IsSampleBufferReady(ctx.elapsedTimeUs);
        if ready {
          status := status + 2;
        }
        r := Ok(status);
      } else if offset == AUDIO_DMA {
        r := Err(ReadFromWriteOnly(offset));
      } else {
        r := Err(InvalidAddress(offset));
      }
    }

    method WriteWord(offset: uint32, value: uint32) returns (r: Result<Unit, BusDeviceError>)
      modifies this
      ensures var w := WriteRegister(old(View()), offset, value);
              && (w.Ok? ==> r.Ok? && View() == w.value)
              && (w.Err? ==> r == Err(w.error) && View() == old(View()))
    {
      r := Ok(Unit);
      if offset == AUDIO_ADDR {
        audioAddr := value;
      } else if offset == AUDIO_CONFIG {
        HandleConfigWrite(value);
      } else if offset == AUDIO_STATUS {
        r := Err(WriteToReadOnly(offset));
      } else if offset == AUDIO_DMA {
        StartDma();
      } else {
        r := Err(InvalidAddress(offset));
      }
    }
  }

  // ---- Runs --------------------------------------------------------------------------------

  function Next(v: AudioView, m: ByteMap, e: Event): (v': AudioView)
    requires v.Valid()
    ensures v'.Valid()
  {
    match e.op
    case ClockOp => ClockKeepsValid(v, m, e.now); Clock(v, m, e.now)
    case WriteOp(offset, value) => match WriteRegister(v, offset, value) case Ok(v') => v' case Err(_) => v
  }

  lemma ClockKeepsValid(v: AudioView, m: ByteMap, now: nat)
    requires v.Valid()
    ensures Clock(v, m, now).Valid()
  {
    hide DeviceBytes;
    if v.active.Some? {
      ChunkFits(v.active.value.fetch.addr, v.active.value.fetch.remaining);
    }
  }

  function Run(v: AudioView, m: ByteMap, events: seq<Event>): (v': AudioView)
    requires v.Valid()
    ensures v'.Valid()
    decreases |events|
  {
    if |events| == 0 then v else Run(Next(v, m, events[0]), m, events[1..])
  }

  /** A batch under any register writes, memory being stable: nothing is handed over
      before the last clock cycle, and that cycle hands over the decoding of exactly the
      bytes that single-byte reads would return. */
  lemma {:induction false} BatchInFlight(v: AudioView, m: ByteMap, events: seq<Event>, dma: ActiveDma)
    requires v.active == Some(dma) && v.Valid()
    requires var cycles := Cycles(dma.fetch.addr, dma.fetch.remaining);
             Clocks(events) <= cycles && (Clocks(events) == cycles ==> EndsWithClock(events))
    ensures var v' := Run(v, m, events);
            if Clocks(events) < Cycles(dma.fetch.addr, dma.fetch.remaining) then
              v'.active.Some? && v'.delivered == v.delivered
            else
              && v'.active.None?
              && v'.delivered ==
                 v.delivered + [Decode(dma.fetch.data + DeviceBytes(m, dma.fetch.addr, dma.fetch.remaining))]
    decreases |events|
  {
    hide FetchChunk, DeviceBytes, Cycles, Decode, ConfigFromRegister;
    CyclesStep(dma.fetch.addr, dma.fetch.remaining);
    if |events| > 0 {
      var v1 := Next(v, m, events[0]);
      if events[0].op.ClockOp? {
        FetchKeepsTotal(dma.fetch, m);
        var fetch := FetchChunk(dma.fetch, m);
        CyclesStep(fetch.addr, fetch.remaining);
        if fetch.remaining == 0 {
          NoMoreClocks(events[1..]);
          NothingLeft(m, fetch);
        } else {
          BatchInFlight(v1, m, events[1..], dma.(fetch := fetch));
        }
      } else {
        assert Clocks(events) == Clocks(events[1..]);
        BatchInFlight(v1, m, events[1..], dma);
      }
    }
  }

  /** Triggering from idle with a valid configuration delivers one complete batch after
      at most ceil(n / 4) + 2 clock cycles. */
  lemma TriggerDeliversBatch(v: AudioView, m: ByteMap, now: nat, value: uint32, events: seq<Event>)
    requires v.active.None? && ConfigFromRegister(v.audioConfig).Some?
    requires var cycles := Cycles(v.audioAddr, ConfigFromRegister(v.audioConfig).value.TotalBytes());
             Clocks(events) == cycles && EndsWithClock(events)
    ensures var config := ConfigFromRegister(v.audioConfig).value;
            var batch := Decode(DeviceBytes(m, v.audioAddr, config.TotalBytes()));
            var v' := Run(v, m, [Event(now, WriteOp(AUDIO_DMA, value))] + events);
            && Clocks(events) <= (config.TotalBytes() + 3) / 4 + 2
            && v'.active.None? && v'.delivered == v.delivered + [batch]
            && |batch| == (v.audioConfig / 8 % 65536 + 1) * if v.audioConfig / 4 % 2 == 1 then 2 else 1
  {
    ConfigExact(v.audioConfig);
    hide FetchChunk, DeviceBytes, Cycles, Decode, ConfigFromRegister;
    var started := Started(v);
    var config := ConfigFromRegister(v.audioConfig).value;
    var trigger := Event(now, WriteOp(AUDIO_DMA, value));
    assert ([trigger] + events)[1..] == events;
    assert Next(v, m, trigger) == started;
    CycleBound(v.audioAddr, config.TotalBytes());
    BatchInFlight(started, m, events, started.active.value);
    assert [] + DeviceBytes(m, v.audioAddr, config.TotalBytes()) == DeviceBytes(m, v.audioAddr, config.TotalBytes());
  }

  /** From idle, nothing is handed over until a transfer is triggered. */
  lemma {:induction false} IdleDeliversNothing(v: AudioView, m: ByteMap, events: seq<Event>)
    requires v.active.None? && forall e <- events :: !Writes(e, AUDIO_DMA)
    ensures Run(v, m, events).active.None? && Run(v, m, events).delivered == v.delivered
    decreases |events|
  {
    if |events| > 0 {
      assert events[0] in events;
      IdleDeliversNothing(Next(v, m, events[0]), m, events[1..]);
    }
  }

  // ---- Flow control ----------------------------------------------------------------------------

  /** Time and sample count of every batch completed since the last configuration write,
      and which of them opened the current window. */
  datatype History = History(v: AudioView, now: nat, log: Log, opener: nat)

  function Sum(log: Log): nat {
    if |log| == 0 then 0 else Sum(log[..|log| - 1]) + log[|log| - 1].1
  }

  /** Whether this event completes a batch. */
  predicate Completes(v: AudioView, m: ByteMap, e: Event)
    requires v.Valid()
  {
    e.op.ClockOp? && v.active.Some? && Next(v, m, e).active.None?
  }

  function Observe(h: History, m: ByteMap, e: Event): (h': History)
    requires h.v.Valid()
    ensures h'.v.Valid()
  {
    var v' := Next(h.v, m, e);
    if Completes(h.v, m, e) then
      var opens := h.log == [] || (h.opener < |h.log| && Elapsed(h.log[h.opener].0, e.now) >= WINDOW_US);
      History(v', e.now, h.log + [(e.now, h.v.active.value.config.sampleCount)], if opens then |h.log| else h.opener)
    else if Writes(e, AUDIO_CONFIG) then History(v', e.now, [], 0)
    else h.(v := v', now := e.now)
  }

  function Replay(h: History, m: ByteMap, events: seq<Event>): (h': History)
    requires h.v.Valid()
    ensures h'.v.Valid()
    decreases |events|
  {
    if |events| == 0 then h else Replay(Observe(h, m, events[0]), m, events[1..])
  }

  /** The history only watches the device. */
  lemma {:induction false} ReplayWatches(h: History, m: ByteMap, events: seq<Event>)
    requires h.v.Valid()
    ensures Replay(h, m, events).v == Run(h.v, m, events)
    decreases |events|
  {
    if |events| > 0 {
      hide Next;
      ReplayWatches(Observe(h, m, events[0]), m, events[1..]);
    }
  }

  function Threshold(v: AudioView, thresholds: Thresholds): uint32 {
    match ConfigFromRegister(v.audioConfig)
    case None => 0
    case Some(config) => thresholds(config.sampleRate)
  }

  /** Time never runs backwards, and the guest triggers an idle device only while
      SAMPLE_BUFFER_READY is set. */
  ghost predicate Polite(h: History, m: ByteMap, thresholds: Thresholds, events: seq<Event>)
    requires h.v.Valid()
    decreases |events|
  {
    |events| > 0 ==>
      && events[0].now >= h.now
      && (Writes(events[0], AUDIO_DMA) && h.v.active.None? ==>
            SampleBufferReady(h.v, thresholds, events[0].now))
      && Polite(Observe(h, m, events[0]), m, thresholds, events[1..])
  }

  type Log = seq<(nat, SampleCount)>

  /** The counter is the sum of the samples completed since the window opened, in 32-bit
      arithmetic, all of them within one second of its opening. */
  ghost predicate WindowIs(log: Log, opener: nat, start: Option<nat>, samples: uint32, now: nat) {
    if log == [] then start.None? && samples == 0
    else
      && opener < |log|
      && start == Some(log[opener].0)
      && samples == Sum(log[opener..]) % ADDRESS_SPACE
      && forall j :: opener <= j < |log| ==> log[opener].0 <= log[j].0 < log[opener].0 + WINDOW_US && log[j].0 <= now
  }

  ghost predicate CountsWindow(h: History) {
    WindowIs(h.log, h.opener, h.v.windowStart, h.v.samplesInWindow, h.now)
  }

  /** A batch in flight was triggered with room in the window. */
  ghost predicate RoomForFlight(h: History, thresholds: Thresholds) {
    h.v.active.Some? ==>
      || h.v.windowStart.None?
      || Elapsed(h.v.windowStart.value, h.now) >= WINDOW_US
      || h.v.samplesInWindow < Threshold(h.v, thresholds)
  }

  /** The samples completed since the window opened. */
  function WindowSum(log: Log, opener: nat): nat {
    if opener < |log| then Sum(log[opener..]) else 0
  }

  /** The counter wraps around only if the threshold leaves no room for one batch. */
  ghost predicate FlowSound(h: History, thresholds: Thresholds) {
    && CountsWindow(h)
    && RoomForFlight(h, thresholds)
    && h.v.samplesInWindow <= 65536 + Threshold(h.v, thresholds)
    && (Threshold(h.v, thresholds) < 0xFFFF_0000 ==> h.v.samplesInWindow == WindowSum(h.log, h.opener))
  }

  lemma FlowStep(h: History, m: ByteMap, thresholds: Thresholds, e: Event)
    requires h.v.Valid() && FlowSound(h, thresholds) && e.now >= h.now
    requires Writes(e, AUDIO_DMA) && h.v.active.None? ==> SampleBufferReady(h.v, thresholds, e.now)
    ensures FlowSound(Observe(h, m, e), thresholds)
  {
    if Completes(h.v, m, e) {
      BatchCounts(h, m, thresholds, e);
    } else if Writes(e, AUDIO_CONFIG) {
      hide FetchChunk, Decode, ConfigFromRegister, Sum;
    } else {
      QuietEvent(h.v, m, e, thresholds);
      hide Next, Completes, ConfigFromRegister, Sum, Threshold, AudioView.Valid, SampleBufferReady;
    }
  }

  /** An event that neither completes a batch nor configures leaves the window alone, and
      a batch it starts finds room. */
  lemma QuietEvent(v: AudioView, m: ByteMap, e: Event, thresholds: Thresholds)
    requires v.Valid() && !Completes(v, m, e) && !Writes(e, AUDIO_CONFIG)
    requires Writes(e, AUDIO_DMA) && v.active.None? ==> SampleBufferReady(v, thresholds, e.now)
    ensures var v' := Next(v, m, e);
            && v'.windowStart == v.windowStart && v'.samplesInWindow == v.samplesInWindow
            && Threshold(v', thresholds) == Threshold(v, thresholds)
            && (v'.active.Some? && v.active.None? ==>
                  || (v.windowStart.Some? && Elapsed(v.windowStart.value, e.now) >= WINDOW_US)
                  || v.samplesInWindow < Threshold(v, thresholds))
  {
    hide FetchChunk, Decode, ConfigFromRegister;
  }

  lemma BatchCounts(h: History, m: ByteMap, thresholds: Thresholds, e: Event)
    requires h.v.Valid() && FlowSound(h, thresholds) && e.now >= h.now && Completes(h.v, m, e)
    ensures FlowSound(Observe(h, m, e), thresholds)
  {
    hide Next, Completes, ConfigFromRegister, WindowIs, WindowSum, AudioView.Valid;
    CompletedWindow(h.v, m, e);
    WindowStart(h.log, h.opener, h.v.windowStart, h.v.samplesInWindow, h.now);
    hide Threshold;
    var count := h.v.active.value.config.sampleCount;
    if h.log == [] || Elapsed(h.v.windowStart.value, e.now) >= WINDOW_US {
      WindowOpens(h.log, e.now, count);
    } else {
      RoomStays(h, thresholds, e.now);
      WindowGrows(h.log, h.opener, h.v.samplesInWindow, h.now, e.now, count);
    }
  }

  lemma WindowStart(log: Log, opener: nat, start: Option<nat>, samples: uint32, now: nat)
    requires WindowIs(log, opener, start, samples, now)
    ensures if log == [] then start.None? else opener < |log| && start == Some(log[opener].0)
  {
  }

  /** While the window lasts, a batch in flight keeps the room it was triggered with. */
  lemma RoomStays(h: History, thresholds: Thresholds, now: nat)
    requires RoomForFlight(h, thresholds) && h.v.active.Some? && h.v.windowStart.Some?
    requires h.now <= now && Elapsed(h.v.windowStart.value, now) < WINDOW_US
    ensures h.v.samplesInWindow < Threshold(h.v, thresholds)
  {
  }

  lemma WindowOpens(log: Log, now: nat, count: SampleCount)
    ensures WindowIs(log + [(now, count)], |log|, Some(now), count, now)
    ensures WindowSum(log + [(now, count)], |log|) == count
  {
    SumSnoc(log, |log|, (now, count));
  }

  lemma WindowGrows(log: Log, opener: nat, samples: uint32, before: nat, now: nat, count: SampleCount)
    requires log != [] && opener < |log| && WindowIs(log, opener, Some(log[opener].0), samples, before)
    requires before <= now && Elapsed(log[opener].0, now) < WINDOW_US
    ensures WindowIs(log + [(now, count)], opener, Some(log[opener].0), WrapAdd(samples, count), now)
    ensures WindowSum(log + [(now, count)], opener) == WindowSum(log, opener) + count
  {
    SumSnoc(log, opener, (now, count));
    hide WrapAdd, Sum;
    WrapSum(Sum(log[opener..]), count);
  }

  lemma WrapSum(sum: nat, count: nat)
    ensures WrapAdd(sum % ADDRESS_SPACE, count) == (sum + count) % ADDRESS_SPACE
  {
    var q := sum / ADDRESS_SPACE;
    assert sum + count == q * ADDRESS_SPACE + (sum % ADDRESS_SPACE + count);
    ModShift(sum % ADDRESS_SPACE + count, q);
  }

  lemma CompletedWindow(v: AudioView, m: ByteMap, e: Event)
    requires v.Valid() && Completes(v, m, e)
    ensures v.active.Some?
    ensures var v' := Next(v, m, e);
            var count := v.active.value.config.sampleCount;
            && v'.active.None? && v'.audioConfig == v.audioConfig
            && if v.windowStart.None? || Elapsed(v.windowStart.value, e.now) >= WINDOW_US
               then v'.windowStart == Some(e.now) && v'.samplesInWindow == count
               else v'.windowStart == v.windowStart && v'.samplesInWindow == WrapAdd(v.samplesInWindow, count)
    ensures forall thresholds :: Threshold(Next(v, m, e), thresholds) == Threshold(v, thresholds)
  {
    hide FetchChunk, Decode, ConfigFromRegister;
  }

  lemma SumSnoc(log: Log, opener: nat, batch: (nat, SampleCount))
    requires opener <= |log|
    ensures Sum((log + [batch])[opener..]) == Sum(log[opener..]) + batch.1
    ensures opener == |log| ==> Sum(log[opener..]) == 0
  {
    var all := (log + [batch])[opener..];
    assert all[..|all| - 1] == log[opener..];
  }

  /** Flow control, over every polite run from a new device: the window counter is the
      samples completed since the window opened, and never exceeds the threshold of the
      configured rate by more than one batch. It counts in 32-bit arithmetic, which is
      exact whenever the threshold leaves room for one batch. */
  lemma {:induction false} FlowControl(h: History, m: ByteMap, thresholds: Thresholds, events: seq<Event>)
    requires h.v.Valid() && FlowSound(h, thresholds) && Polite(h, m, thresholds, events)
    ensures FlowSound(Replay(h, m, events), thresholds)
    decreases |events|
  {
    hide FlowSound, Observe, SampleBufferReady;
    if |events| > 0 {
      FlowStep(h, m, thresholds, events[0]);
      FlowControl(Observe(h, m, events[0]), m, thresholds, events[1..]);
    }
  }

  lemma NewDeviceFlows(now: nat, thresholds: Thresholds)
    ensures FlowSound(History(AudioView(0, 0, None, 0, None, [], []), now, [], 0), thresholds)
  {
  }

  /** The guest never waits for more than a second: then there is room again, unless no
      batch has been completed since the configuration was written and its threshold is
      zero, in which case there is never any. */
  lemma RoomAgain(h: History, thresholds: Thresholds, now: nat)
    requires CountsWindow(h) && h.now + 1_000_000 <= now
    ensures var code := h.v.audioConfig % 4;
            SampleBufferReady(h.v, thresholds, now) <==>
            h.log != [] || code == 3 || thresholds([Hz48000, Hz44100, Hz22050][code]) > 0
  {
    ReadyExact(h.v, thresholds, now);
    hide SampleBufferReady, Sum;
    if h.log != [] {
      assert h.log[h.opener].0 <= h.now;
    }
  }
}
