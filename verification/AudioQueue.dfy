/** The bounded queue of audio chunks between the simulation and an audio backend, and
    the backend that records everything it pulls. */
module AudioQueues {
  import opened Prelude
  import opened Audios

  const MAX_AUDIO_CHUNKS := 100
  const CHUNK_SIZE := 1024

  datatype Chunk = Chunk(samples: seq<int16>, config: Option<AudioConfig>)

  /** All buffered samples, oldest first. */
  function Buffered(chunks: seq<Chunk>): seq<int16> {
    if |chunks| == 0 then [] else chunks[0].samples + Buffered(chunks[1..])
  }

  ghost predicate QueueSound(chunks: seq<Chunk>) {
    |chunks| <= MAX_AUDIO_CHUNKS && forall chunk <- chunks :: chunk.samples != []
  }

  lemma {:induction false} BufferedAppend(a: seq<Chunk>, b: seq<Chunk>)
    ensures Buffered(a + b) == Buffered(a) + Buffered(b)
  {
    if |a| == 0 {
      assert a + b == b;
    } else {
      assert (a + b)[1..] == a[1..] + b;
      BufferedAppend(a[1..], b);
    }
  }

  /** The chunk that a push has to give up. */
  function Evicted(chunks: seq<Chunk>): seq<int16> {
    if |chunks| >= MAX_AUDIO_CHUNKS then chunks[0].samples else []
  }

  /** What stays are the last chunks unchanged, but that the first of them may have lost
      samples. */
  predicate Keeps(was: seq<Chunk>, now: seq<Chunk>) {
    |now| <= |was| &&
    (now == [] || (now[0].config == was[|was| - |now|].config && now[1..] == was[|was| - |now| + 1..]))
  }

  lemma KeepsWhole(was: seq<Chunk>, now: seq<Chunk>)
    requires |now| <= |was| && now == was[|was| - |now|..]
    ensures Keeps(was, now)
  {
  }

  lemma KeepsRest(was: seq<Chunk>, chunk: Chunk, kept: Chunk, now: seq<Chunk>)
    requires |now| < |was| && [chunk] + now == was[|was| - |now| - 1..] && kept.config == chunk.config
    ensures Keeps(was, [kept] + now)
  {
    assert now == ([chunk] + now)[1..] == was[|was| - |now|..];
    assert chunk == ([chunk] + now)[0];
  }

  lemma TakePart(result: seq<int16>, chunk: Chunk, rest: seq<Chunk>, n: nat)
    requires n < |chunk.samples|
    ensures var kept := chunk.(samples := chunk.samples[n..]);
            (result + chunk.samples[..n]) + Buffered([kept] + rest) == result + (chunk.samples + Buffered(rest))
  {
    var kept := chunk.(samples := chunk.samples[n..]);
    assert ([kept] + rest)[1..] == rest;
    assert chunk.samples == chunk.samples[..n] + kept.samples;
    assert result + ((chunk.samples[..n] + kept.samples) + Buffered(rest)) ==
           (result + chunk.samples[..n]) + (kept.samples + Buffered(rest));
  }

  class SharedAudioBuffer {
    var chunks: seq<Chunk>
    var currentConfig: Option<AudioConfig>

    ghost predicate Valid()
      reads this
    {
      QueueSound(chunks)
    }

    constructor ()
      ensures Valid() && chunks == [] && currentConfig == None
    {
      chunks, currentConfig := [], None;
    }

    /** Pushed samples go to the back with the current configuration; a queue of 100 chunks
        first gives up its oldest one. */
    method PushSamples(samples: seq<int16>)
      requires Valid()
      modifies this`chunks
      ensures Valid()
      ensures samples == [] ==> chunks == old(chunks)
      ensures samples != [] ==> Evicted(old(chunks)) + Buffered(chunks) == Buffered(old(chunks)) + samples
      ensures samples != [] ==>
                chunks == (if |old(chunks)| < 100 then old(chunks) else old(chunks)[1..])
                          + [Chunk(samples, currentConfig)]
    {
      if samples == [] {
        return;
      }
      if |chunks| >= MAX_AUDIO_CHUNKS {
        chunks := chunks[1..];
      }
      ghost var kept := chunks;
      chunks := chunks + [Chunk(samples, currentConfig)];
      BufferedAppend(kept, [Chunk(samples, currentConfig)]);
      assert Buffered([Chunk(samples, currentConfig)][1..]) == [];
    }

    method SetConfig(config: AudioConfig)
      modifies this`currentConfig
      ensures currentConfig == Some(config)
    {
      currentConfig := Some(config);
    }

    /** Exactly the oldest samples leave, in order, as many as asked for and present; what
        stays keeps its configuration. */
    method PullSamples(maxSamples: nat) returns (result: seq<int16>)
      requires Valid()
      modifies this`chunks
      ensures Valid()
      ensures result + Buffered(chunks) == Buffered(old(chunks))
      ensures |result| == Min(maxSamples, |Buffered(old(chunks))|)
      ensures Keeps(old(chunks), chunks)
    {
      hide Keeps;
      result := [];
      while |result| < maxSamples && |chunks| > 0
        invariant Valid() && |result| <= maxSamples
        invariant result + Buffered(chunks) == Buffered(old(chunks))
        invariant |chunks| <= |old(chunks)| && chunks == old(chunks)[|old(chunks)| - |chunks|..]
        decreases |chunks|
      {
        var chunk := chunks[0];
        chunks := chunks[1..];
        var remainingSpace := maxSamples - |result|;
        if |chunk.samples| <= remainingSpace {
          assert result + (chunk.samples + Buffered(chunks)) == (result + chunk.samples) + Buffered(chunks);
          result := result + chunk.samples;
        } else {
          var kept := chunk.(samples := chunk.samples[remainingSpace..]);
          TakePart(result, chunk, chunks, remainingSpace);
          KeepsRest(old(chunks), chunk, kept, chunks);
          chunks := [kept] + chunks;
          result := result + chunk.samples[..remainingSpace];
          return;
        }
      }
      KeepsWhole(old(chunks), chunks);
      assert |chunks| == 0 ==> Buffered(chunks) == [];
    }

    predicate HasSamples()
      reads this
    {
      |chunks| > 0
    }

    method SampleCount() returns (n: nat)
      ensures n == |Buffered(chunks)|
    {
      n := 0;
      for i := 0 to |chunks|
        invariant n + |Buffered(chunks[i..])| == |Buffered(chunks)|
      {
        n := n + |chunks[i].samples|;
      }
    }
  }

  lemma SoundQueueHasSamples(chunks: seq<Chunk>)
    requires QueueSound(chunks)
    ensures |chunks| > 0 <==> Buffered(chunks) != []
  {
    if |chunks| > 0 {
      assert chunks[0] in chunks;
    }
  }

  // ---- Runs ----------------------------------------------------------------------------

  /** A sample that has left the queue, and whether a pull took it. */
  datatype Settled = Settled(sample: int16, pulled: bool)

  /** Every sample pushed so far, as far as it has left the queue. */
  datatype Ledger = Ledger(pushed: seq<int16>, settled: seq<Settled>, pulled: seq<int16>)

  function Marked(samples: seq<int16>, pulled: bool): seq<Settled> {
    seq(|samples|, i requires 0 <= i < |samples| => Settled(samples[i], pulled))
  }

  function Samples(settled: seq<Settled>): (samples: seq<int16>)
    ensures |samples| == |settled|
  {
    seq(|settled|, i requires 0 <= i < |settled| => settled[i].sample)
  }

  function Taken(settled: seq<Settled>): seq<int16> {
    if |settled| == 0 then []
    else
      var last := settled[|settled| - 1];
      Taken(settled[..|settled| - 1]) + if last.pulled then [last.sample] else []
  }

  /** Every pushed sample is, in order, pulled, dropped or still buffered, and the pulled
      ones come out in the order they went in. */
  ghost predicate Balanced(l: Ledger, chunks: seq<Chunk>) {
    l.pushed == Samples(l.settled) + Buffered(chunks) && l.pulled == Taken(l.settled)
  }

  lemma {:induction false} TakenMarked(settled: seq<Settled>, samples: seq<int16>, pulled: bool)
    ensures Taken(settled + Marked(samples, pulled)) == Taken(settled) + if pulled then samples else []
    decreases |samples|
  {
    if |samples| == 0 {
      assert settled + Marked(samples, pulled) == settled;
    } else {
      var init := samples[..|samples| - 1];
      hide Marked;
      MarkedSnoc(samples, pulled);
      var all := settled + Marked(samples, pulled);
      TakenMarked(settled, init, pulled);
      assert all[..|all| - 1] == settled + Marked(init, pulled);
      assert samples == init + [samples[|samples| - 1]];
      if pulled {
        assert Taken(settled) + init + [samples[|samples| - 1]] == Taken(settled) + (init + [samples[|samples| - 1]]);
      }
    }
  }

  lemma MarkedSnoc(samples: seq<int16>, pulled: bool)
    requires samples != []
    ensures Marked(samples, pulled) ==
            Marked(samples[..|samples| - 1], pulled) + [Settled(samples[|samples| - 1], pulled)]
  {
  }

  datatype Op = PushOp(samples: seq<int16>) | PullOp(max: nat) | ConfigOp(config: AudioConfig)

  /** Any sequence of pushes, pulls and configuration changes keeps the ledger balanced. */
  method Replay(buffer: SharedAudioBuffer, ops: seq<Op>) returns (ghost l: Ledger, outputs: seq<seq<int16>>)
    requires buffer.Valid() && buffer.chunks == []
    modifies buffer
    ensures buffer.Valid() && Balanced(l, buffer.chunks)
    ensures l.pushed == Pushes(ops) && l.pulled == Concat(outputs)
  {
    l, outputs := Ledger([], [], []), [];
    for i := 0 to |ops|
      invariant buffer.Valid() && Balanced(l, buffer.chunks)
      invariant l.pushed == Pushes(ops[..i]) && l.pulled == Concat(outputs)
    {
      assert ops[..i + 1][..i] == ops[..i];
      ghost var before := buffer.chunks;
      match ops[i]
      case PushOp(samples) =>
        buffer.PushSamples(samples);
        PushBalances(l, before, buffer.chunks, samples);
        l := AfterPush(l, before, samples);
      case PullOp(max) =>
        var output := buffer.PullSamples(max);
        PullBalances(l, before, buffer.chunks, output);
        l := AfterPull(l, output);
        assert (outputs + [output])[..|outputs|] == outputs;
        outputs := outputs + [output];
      case ConfigOp(config) =>
        buffer.SetConfig(config);
    }
    assert ops[..|ops|] == ops;
  }

  function Pushes(ops: seq<Op>): seq<int16> {
    if |ops| == 0 then []
    else
      var last := ops[|ops| - 1];
      Pushes(ops[..|ops| - 1]) + if last.PushOp? then last.samples else []
  }

  function Concat(outputs: seq<seq<int16>>): seq<int16> {
    if |outputs| == 0 then [] else Concat(outputs[..|outputs| - 1]) + outputs[|outputs| - 1]
  }

  function AfterPush(l: Ledger, before: seq<Chunk>, samples: seq<int16>): Ledger {
    var settled := if samples == [] then l.settled else l.settled + Marked(Evicted(before), false);
    Ledger(l.pushed + samples, settled, l.pulled)
  }

  function AfterPull(l: Ledger, output: seq<int16>): Ledger {
    Ledger(l.pushed, l.settled + Marked(output, true), l.pulled + output)
  }

  lemma PushBalances(l: Ledger, before: seq<Chunk>, after: seq<Chunk>, samples: seq<int16>)
    requires Balanced(l, before)
    requires samples == [] ==> after == before
    requires samples != [] ==> Evicted(before) + Buffered(after) == Buffered(before) + samples
    ensures Balanced(AfterPush(l, before, samples), after)
  {
    hide Buffered, Evicted, Taken;
    if samples == [] {
      assert l.pushed + samples == l.pushed;
    } else {
      TakenMarked(l.settled, Evicted(before), false);
      assert Samples(l.settled + Marked(Evicted(before), false)) == Samples(l.settled) + Evicted(before);
      assert l.pushed + samples == Samples(l.settled) + (Buffered(before) + samples);
    }
  }

  lemma PullBalances(l: Ledger, before: seq<Chunk>, after: seq<Chunk>, output: seq<int16>)
    requires Balanced(l, before) && output + Buffered(after) == Buffered(before)
    ensures Balanced(AfterPull(l, output), after)
  {
    hide Buffered, Taken;
    TakenMarked(l.settled, output, true);
    assert Samples(l.settled + Marked(output, true)) == Samples(l.settled) + output;
    assert l.pushed == (Samples(l.settled) + output) + Buffered(after);
  }

  // ---- The recording backend ----------------------------------------------------------------

  datatype CapturedChunk = CapturedChunk(samples: seq<int16>, sampleOffset: nat, config: Option<AudioConfig>)

  function Captured(chunks: seq<CapturedChunk>): seq<int16> {
    if |chunks| == 0 then [] else Captured(chunks[..|chunks| - 1]) + chunks[|chunks| - 1].samples
  }

  /** Every captured chunk is non-empty, of bounded size, and starts where the samples
      before it end. */
  ghost predicate Contiguous(chunks: seq<CapturedChunk>) {
    forall i :: 0 <= i < |chunks| ==>
      0 < |chunks[i].samples| <= CHUNK_SIZE && chunks[i].sampleOffset == |Captured(chunks[..i])|
  }

  class HeadlessAudioBackend {
    var capturedChunks: seq<CapturedChunk>
    var sampleCount: nat
    var currentConfig: Option<AudioConfig>
    const audioSource: SharedAudioBuffer

    ghost predicate Valid()
      reads this
    {
      Contiguous(capturedChunks) && sampleCount == |Captured(capturedChunks)|
    }

    constructor (source: SharedAudioBuffer)
      ensures Valid() && capturedChunks == [] && audioSource == source
    {
      capturedChunks, sampleCount, currentConfig, audioSource := [], 0, None, source;
    }

    /** Records everything that is buffered, in order, and leaves the buffer empty. */
    method Update()
      requires Valid() && audioSource.Valid()
      modifies this`capturedChunks, this`sampleCount, audioSource`chunks
      ensures Valid() && audioSource.Valid() && audioSource.chunks == []
      ensures old(capturedChunks) <= capturedChunks
      ensures Captured(capturedChunks) == Captured(old(capturedChunks)) + Buffered(old(audioSource.chunks))
      ensures forall i :: |old(capturedChunks)| <= i < |capturedChunks| ==> capturedChunks[i].config == currentConfig
    {
      hide Captured, Buffered, Contiguous, QueueSound;
      NothingBuffered();
      ghost var goal := Captured(capturedChunks) + Buffered(audioSource.chunks);
      while audioSource.HasSamples()
        invariant Valid() && audioSource.Valid()
        invariant old(capturedChunks) <= capturedChunks
        invariant Captured(capturedChunks) + Buffered(audioSource.chunks) == goal
        invariant forall i :: |old(capturedChunks)| <= i < |capturedChunks| ==>
                    capturedChunks[i].config == currentConfig
        decreases |Buffered(audioSource.chunks)|
      {
        SoundQueueHasSamples(audioSource.chunks);
        var samples := audioSource.PullSamples(CHUNK_SIZE);
        if samples == [] {
          break;
        }
        ghost var before := capturedChunks;
        assert Captured(before) + (samples + Buffered(audioSource.chunks)) == goal;
        capturedChunks := capturedChunks + [CapturedChunk(samples, sampleCount, currentConfig)];
        sampleCount := sampleCount + |samples|;
        CaptureOne(before, CapturedChunk(samples, |Captured(before)|, currentConfig));
        assert (Captured(before) + samples) + Buffered(audioSource.chunks) == goal;
      }
      SoundQueueHasSamples(audioSource.chunks);
    }
  }

  lemma NothingBuffered()
    ensures Buffered([]) == []
  {
  }

  lemma CaptureOne(before: seq<CapturedChunk>, chunk: CapturedChunk)
    requires Contiguous(before) && chunk.sampleOffset == |Captured(before)| && 0 < |chunk.samples| <= CHUNK_SIZE
    ensures Contiguous(before + [chunk])
    ensures Captured(before + [chunk]) == Captured(before) + chunk.samples
  {
    var after := before + [chunk];
    assert after[..|before|] == before;
    forall i | 0 <= i < |after|
      ensures 0 < |after[i].samples| <= CHUNK_SIZE && after[i].sampleOffset == |Captured(after[..i])|
    {
      assert i < |before| ==> after[..i] == before[..i];
    }
  }
}
