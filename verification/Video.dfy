/** The video device: a present reads the whole frame from memory, chunk by chunk, and
    hands it over once. */
module Videos {
  import opened Prelude
  import opened BusTypes
  import opened Memories
  import opened ChunkedReads
  import opened Clocked

  datatype VideoFormat = Rgba8 | Rgb8 | Rgb565 | R8 {
    function BytesPerPixel(): nat {
      match this
      case Rgba8 => 4
      case Rgb8 => 3
      case Rgb565 => 2
      case R8 => 1
    }
  }

  type Dimension = x: int | 1 <= x <= 4096 witness 1

  datatype VideoConfig = VideoConfig(width: Dimension, height: Dimension, format: VideoFormat) {
    /** Never zero, and far from overflowing 32 bits. */
    function TotalBytes(): (n: uint32)
      ensures 0 < n <= 0x400_0000
    {
      AreaBound(width, height);
      width * height * format.BytesPerPixel()
    }
  }

  lemma AreaBound(w: Dimension, h: Dimension)
    ensures 1 <= w * h <= 0x100_0000
  {
    assert w * h <= 4096 * h;
  }

  /** A whole number reaches a quotient if and only if one more of it passes the dividend. */
  lemma QuotientReached(total: nat, rate: nat, n: nat)
    requires rate > 0
    ensures n >= total / rate <==> total < (n + 1) * rate
  {
    var q := total / rate;
    assert q * rate <= total < (q + 1) * rate;
    if n >= q {
      assert (n + 1) * rate >= (q + 1) * rate;
    } else {
      assert (n + 1) * rate <= q * rate;
    }
  }

  function FormatFromCode(code: nat): Option<VideoFormat> {
    if code == 0 then Some(Rgba8)
    else if code == 1 then Some(Rgb8)
    else if code == 2 then Some(Rgb565)
    else if code == 3 then Some(R8)
    else None
  }

  function ConfigFromRegister(value: uint32): Option<VideoConfig> {
    match FormatFromCode(value / 0x100_0000)
    case None => None
    case Some(format) => Some(VideoConfig(value % 4096 + 1, value / 4096 % 4096 + 1, format))
  }

  /** The configuration register: the top byte is the format, which has four codes; below
      it are height and width less one, in twelve bits each. */
  lemma ConfigExact(value: uint32)
    ensures var code := value / 0x100_0000;
            var config := ConfigFromRegister(value);
            if code > 3 then config == None
            else
              && config == Some(VideoConfig(value % 4096 + 1, value / 4096 % 4096 + 1,
                                            [Rgba8, Rgb8, Rgb565, R8][code]))
              && config.value.TotalBytes() == (value % 4096 + 1) * (value / 4096 % 4096 + 1) * [4, 3, 2, 1][code]
  {
  }

  datatype ActivePresent = ActivePresent(fetch: Fetch, config: VideoConfig)

  /** One call of the present callback. */
  datatype Frame = Frame(pixels: seq<byte>, config: VideoConfig)

  datatype VideoView = VideoView(
    videoAddr: uint32,
    videoConfig: uint32,
    active: Option<ActivePresent>,
    lastFrameTime: Option<nat>,
    presented: seq<Frame>)
  {
    ghost predicate Valid() {
      active.Some? ==> active.value.fetch.remaining > 0
    }
  }

  const VIDEO_ADDR := 0x00
  const VIDEO_CONFIG := 0x04
  const VIDEO_STATUS := 0x08
  const VIDEO_PRESENT := 0x0C

  // ---- Steps ---------------------------------------------------------------------

  function Started(v: VideoView): VideoView {
    match ConfigFromRegister(v.videoConfig)
    case Some(config) =>
      if v.active.Some? then v
      else v.(active := Some(ActivePresent(Fetch(v.videoAddr, config.TotalBytes(), []), config)))
    case None => v
  }

  function Clock(v: VideoView, m: ByteMap, now: nat): VideoView
    requires v.Valid()
  {
    match v.active
    case None => v
    case Some(p) =>
      var fetch := FetchChunk(p.fetch, m);
      if fetch.remaining > 0 then v.(active := Some(p.(fetch := fetch)))
      else v.(active := None, lastFrameTime := Some(now), presented := v.presented + [Frame(fetch.data, p.config)])
  }

  function WriteRegister(v: VideoView, offset: uint32, value: uint32): Result<VideoView, BusDeviceError> {
    if offset == VIDEO_ADDR then Ok(v.(videoAddr := value))
    else if offset == VIDEO_CONFIG then Ok(v.(videoConfig := value))
    else if offset == VIDEO_STATUS then Err(WriteToReadOnly(offset))
    else if offset == VIDEO_PRESENT then Ok(Started(v))
    else Err(InvalidAddress(offset))
  }

  function ReadRegister(v: VideoView, offset: uint32, frameReady: bool): Result<uint32, BusDeviceError> {
    if offset == VIDEO_ADDR then Ok(v.videoAddr)
    else if offset == VIDEO_CONFIG then Ok(v.videoConfig)
    else if offset == VIDEO_STATUS then Ok((if frameReady then 1 else 0) + (if v.active.None? then 2 else 0))
    else if offset == VIDEO_PRESENT then Err(ReadFromWriteOnly(offset))
    else Err(InvalidAddress(offset))
  }

  /** A configuration register holds what was written to it last, whatever is in
      progress, and shares nothing with the others. */
  lemma RegistersHold(v: VideoView, offset: uint32, value: uint32, other: uint32, frameReady: bool)
    requires offset in [VIDEO_ADDR, VIDEO_CONFIG] && other in [VIDEO_ADDR, VIDEO_CONFIG]
    ensures var w := WriteRegister(v, offset, value);
            && w.Ok? && w.value.active == v.active
            && ReadRegister(w.value, other, frameReady) ==
               if other == offset then Ok(value) else ReadRegister(v, other, frameReady)
  {
  }

  /** The register interface: two registers that hold what is written, a status that only
      reads, with a bit for a frame being due and a bit for no present in progress, a
      trigger that only writes, and nothing else. */
  lemma InterfaceExact(v: VideoView, offset: uint32, value: uint32, frameReady: bool)
    ensures var w := WriteRegister(v, offset, value);
            var r := ReadRegister(v, offset, frameReady);
            if offset == 0x00 then w == Ok(v.(videoAddr := value)) && r == Ok(v.videoAddr)
            else if offset == 0x04 then w == Ok(v.(videoConfig := value)) && r == Ok(v.videoConfig)
            else if offset == 0x08 then
              && w == Err(WriteToReadOnly(0x08)) && r.Ok? && r.value < 4
              && (r.value % 2 == 1 <==> frameReady) && (r.value / 2 == 1 <==> v.active.None?)
            else if offset == 0x0C then w.Ok? && r == Err(ReadFromWriteOnly(0x0C))
            else w == Err(InvalidAddress(offset)) && r == Err(InvalidAddress(offset))
  {
    hide ConfigFromRegister;
  }

  /** A present that finds another in progress, or a format code above 3, starts nothing. */
  lemma NothingStarted(v: VideoView, value: uint32)
    requires v.active.Some? || v.videoConfig / 0x100_0000 > 3
    ensures WriteRegister(v, 0x0C, value) == Ok(v)
  {
  }

  // ---- The device ------------------------------------------------------------------

  class Video {
    var videoAddr: uint32
    var videoConfig: uint32
    var activePresent: Option<ActivePresent>
    var lastFrameTimeUs: Option<nat>
    var presented: seq<Frame>
    const targetFps: nat

    ghost function View(): VideoView
      reads this
    {
      VideoView(videoAddr, videoConfig, activePresent, lastFrameTimeUs, presented)
    }

    constructor (fps: nat)
      ensures View() == VideoView(0, 0, None, None, []) && targetFps == fps
    {
      videoAddr, videoConfig, activePresent, lastFrameTimeUs, presented := 0, 0, None, None, [];
      targetFps := fps;
    }

    /** A frame time of whole microseconds has passed since the last frame; a rate of
        zero divides by zero once a frame has been shown. */
    predicate IsFrameReady(now: nat): (ready: bool)
      requires lastFrameTimeUs.Some? ==> targetFps > 0
      reads this
      ensures lastFrameTimeUs.None? ==> ready
      ensures lastFrameTimeUs.Some? ==>
                var elapsed := if now >= lastFrameTimeUs.value then now - lastFrameTimeUs.value else 0;
                ready <==> 1_000_000 < (elapsed + 1) * targetFps
    {
      match lastFrameTimeUs
      case None => true
      case Some(last) =>
        var elapsed := if now >= last then now - last else 0;
        QuotientReached(1_000_000, targetFps, elapsed);
        elapsed >= 1_000_000 / targetFps
    }

    method StartPresent()
      modifies this`activePresent
      ensures View() == Started(old(View()))
    {
      if activePresent.Some? {
        return;
      }
      var config := ConfigFromRegister(videoConfig);
      if config.None? {
        return;
      }
      var totalBytes := config.value.TotalBytes();
      activePresent := Some(ActivePresent(Fetch(videoAddr, totalBytes, []), config.value));
    }

    /** `clock_cycle` */
    method PresentChunk(ctx: SystemContext)
      requires View().Valid()
      modifies this
      ensures View() == Clock(old(View()), ctx.memory.data, ctx.elapsedTimeUs)
      ensures View().Valid()
    {
      if activePresent.None? {
        return;
      }
      var present := activePresent.value;
      var bytes, readSize := ReadMemoryChunk(ctx, present.fetch.addr, present.fetch.remaining);
      var fetch := Fetch(WrapAdd(present.fetch.addr, readSize), present.fetch.remaining - readSize,
                         present.fetch.data + bytes[..readSize]);
      activePresent := Some(present.(fetch := fetch));
      if fetch.remaining == 0 {
        activePresent := None;
        InvokePresentCallback(fetch.data, present.config, ctx.elapsedTimeUs);
      }
    }

    method InvokePresentCallback(pixels: seq<byte>, config: VideoConfig, now: nat)
      modifies this`presented, this`lastFrameTimeUs
      ensures presented == old(presented) + [Frame(pixels, config)] && lastFrameTimeUs == Some(now)
    {
      presented := presented + [Frame(pixels, config)];
      lastFrameTimeUs := Some(now);
    }

    method ReadWord(ctx: SystemContext, offset: uint32) returns (r: Result<uint32, BusDeviceError>)
      requires offset == VIDEO_STATUS && lastFrameTimeUs.Some? ==> targetFps > 0
      ensures r == ReadRegister(View(), offset, offset == VIDEO_STATUS && IsFrameReady(ctx.elapsedTimeUs))
    {
      if offset == VIDEO_ADDR {
        r := Ok(videoAddr);
      } else if offset == VIDEO_CONFIG {
        r := Ok(videoConfig);
      } else if offset == VIDEO_STATUS {
        var status := 0;
        if IsFrameReady(ctx.elapsedTimeUs) {
          status := status + 1;
        }
        if activePresent.None? {
          status := status + 2;
        }
        r := Ok(status);
      } else if offset == VIDEO_PRESENT {
        r := Err(ReadFromWriteOnly(offset));
      } else {
        r := Err(InvalidAddress(offset));
      }
    }

    method WriteWord(offset: uint32, value: uint32) returns (r: Result<Unit, BusDeviceError>)
      modifies this
      ensures var w := WriteRegister(old(View()), offset, value);
              && (w.Ok? ==> r.Ok? && View() == w.value)
              && (w.Err? ==> r == Err(w.error) && View() == old(View()))
    {
      r := Ok(Unit);
      if offset == VIDEO_ADDR {
        videoAddr := value;
      } else if offset == VIDEO_CONFIG {
        videoConfig := value;
      } else if offset == VIDEO_STATUS {
        r := Err(WriteToReadOnly(offset));
      } else if offset == VIDEO_PRESENT {
        StartPresent();
      } else {
        r := Err(InvalidAddress(offset));
      }
    }

    method Reset()
      modifies this
      ensures View() == VideoView(0, 0, None, None, old(presented))
    {
      videoAddr, videoConfig, activePresent, lastFrameTimeUs := 0, 0, None, None;
    }
  }

  // ---- Runs ---------------------------------------------------------------------------

  function Next(v: VideoView, m: ByteMap, e: Event): VideoView
    requires v.Valid()
  {
    match e.op
    case ClockOp => Clock(v, m, e.now)
    case WriteOp(offset, value) => match WriteRegister(v, offset, value) case Ok(v') => v' case Err(_) => v
  }

  function Run(v: VideoView, m: ByteMap, events: seq<Event>): (v': VideoView)
    requires v.Valid()
    ensures v'.Valid()
    decreases |events|
  {
    if |events| == 0 then v else Run(Next(v, m, events[0]), m, events[1..])
  }

  /** A present under any register writes, memory being stable: nothing is handed over
      before the last clock cycle, and that cycle hands over exactly the bytes that
      single-byte reads would return, with the configuration of the start. */
  lemma {:induction false} PresentInFlight(v: VideoView, m: ByteMap, events: seq<Event>, p: ActivePresent)
    requires v.active == Some(p) && v.Valid()
    requires var cycles := Cycles(p.fetch.addr, p.fetch.remaining);
             Clocks(events) <= cycles && (Clocks(events) == cycles ==> EndsWithClock(events))
    ensures var v' := Run(v, m, events);
            if Clocks(events) < Cycles(p.fetch.addr, p.fetch.remaining) then
              v'.active.Some? && v'.presented == v.presented && v'.lastFrameTime == v.lastFrameTime
            else
              && v'.active.None? && v'.lastFrameTime == Some(events[|events| - 1].now)
              && v'.presented ==
                 v.presented + [Frame(p.fetch.data + DeviceBytes(m, p.fetch.addr, p.fetch.remaining), p.config)]
    decreases |events|
  {
    hide FetchChunk, DeviceBytes, Cycles, ConfigFromRegister, VideoConfig.TotalBytes;
    CyclesStep(p.fetch.addr, p.fetch.remaining);
    if |events| > 0 {
      var v1 := Next(v, m, events[0]);
      if events[0].op.ClockOp? {
        FetchKeepsTotal(p.fetch, m);
        var fetch := FetchChunk(p.fetch, m);
        CyclesStep(fetch.addr, fetch.remaining);
        if fetch.remaining == 0 {
          NoMoreClocks(events[1..]);
          NothingLeft(m, fetch);
        } else {
          PresentInFlight(v1, m, events[1..], p.(fetch := fetch));
        }
      } else {
        assert Clocks(events) == Clocks(events[1..]);
        PresentInFlight(v1, m, events[1..], p);
      }
    }
  }

  /** Triggering a present from idle with a valid configuration shows the whole frame,
      once, after at most ceil(n / 4) + 2 clock cycles: as many bytes as the register's
      width, height and format call for, each as a single-byte read finds it. */
  lemma PresentShowsFrame(v: VideoView, m: ByteMap, now: nat, value: uint32, events: seq<Event>)
    requires v.active.None? && v.videoConfig / 0x100_0000 <= 3
    requires var cycles := Cycles(v.videoAddr, ConfigFromRegister(v.videoConfig).value.TotalBytes());
             Clocks(events) == cycles && EndsWithClock(events)
    ensures var code := v.videoConfig / 0x100_0000;
            var width: Dimension := v.videoConfig % 4096 + 1;
            var height: Dimension := v.videoConfig / 4096 % 4096 + 1;
            var n := width * height * [4, 3, 2, 1][code];
            var v' := Run(v, m, [Event(now, WriteOp(VIDEO_PRESENT, value))] + events);
            && n >= 0 && (n + 3) / 4 <= Clocks(events) <= (n + 3) / 4 + 2
            && v'.active.None? && |v'.presented| == |v.presented| + 1 && v'.presented[..|v.presented|] == v.presented
            && var frame := v'.presented[|v.presented|];
               && frame.config == VideoConfig(width, height, [Rgba8, Rgb8, Rgb565, R8][code])
               && |frame.pixels| == n
               && forall k :: 0 <= k < n ==> frame.pixels[k] == DeviceByte(m, WrapAdd(v.videoAddr, k))
  {
    ConfigExact(v.videoConfig);
    hide FetchChunk, DeviceBytes, Cycles, ConfigFromRegister, VideoConfig.TotalBytes, DeviceByte, WrapAdd;
    var started := Started(v);
    var config := ConfigFromRegister(v.videoConfig).value;
    var n := config.TotalBytes();
    var trigger := Event(now, WriteOp(VIDEO_PRESENT, value));
    assert ([trigger] + events)[1..] == events;
    assert Next(v, m, trigger) == started;
    CycleBound(v.videoAddr, n);
    PresentInFlight(started, m, events, started.active.value);
    assert [] + DeviceBytes(m, v.videoAddr, n) == DeviceBytes(m, v.videoAddr, n);
    forall k: nat | k < n
      ensures DeviceBytes(m, v.videoAddr, n)[k] == DeviceByte(m, WrapAdd(v.videoAddr, k))
    {
      DeviceByteOf(m, v.videoAddr, n, k);
    }
  }

  /** From idle, nothing is handed over until a present is triggered. */
  lemma {:induction false} IdleShowsNothing(v: VideoView, m: ByteMap, events: seq<Event>)
    requires v.active.None? && forall e <- events :: !Writes(e, VIDEO_PRESENT)
    ensures var v' := Run(v, m, events);
            v'.active.None? && v'.presented == v.presented && v'.lastFrameTime == v.lastFrameTime
    decreases |events|
  {
    if |events| > 0 {
      assert events[0] in events;
      IdleShowsNothing(Next(v, m, events[0]), m, events[1..]);
    }
  }
}
