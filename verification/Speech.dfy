/** Speech synthesis: the bounded engine call with its cancellation fence, and the cutting of its result into chunks. */
module Speech {
  import opened Prelude
  import opened Pcm
  import Stt
  import T = Transcription
  import W = Realtime

  datatype TtsError = InvalidInput | Busy | Cancelled | DeadlineExceeded | Engine | Output

  datatype TtsLimits = TtsLimits(maxConcurrent: nat, maxTextBytes: nat, maxOutputSamples: nat, maxChunkSamples: nat)

  datatype Generated = Generated(rate: nat, samples: seq<real>)

  /** The native synthesizer, a function of its input whenever it does not fail. */
  datatype Voice = Voice(generate: (string, real) -> Generated)

  function Utf8Length(text: string): nat {
    if |text| == 0 then 0
    else
      var c := text[|text| - 1] as int;
      Utf8Length(text[..|text| - 1]) + (if c < 0x80 then 1 else if c < 0x800 then 2 else if c < 0x1_0000 then 3 else 4)
  }

  /** Unicode `White_Space`, which `str::trim` removes. */
  predicate IsWhitespace(c: char) {
    var n := c as int;
    || 0x09 <= n <= 0x0D || n in {0x20, 0x85, 0xA0, 0x1680, 0x2028, 0x2029, 0x202F, 0x205F, 0x3000}
    || 0x2000 <= n <= 0x200A
  }

  predicate Speakable(limits: TtsLimits, text: string, speed: real) {
    && (exists i :: 0 <= i < |text| && !IsWhitespace(text[i]))
    && Utf8Length(text) <= limits.maxTextBytes
    && (forall i :: 0 <= i < |text| ==> text[i] as int != 0)
    && 0.5 <= speed <= 2.0
  }

  // ---- Which texts are accepted

  lemma {:induction false} Utf8Adds(a: string, b: string)
    ensures Utf8Length(a + b) == Utf8Length(a) + Utf8Length(b)
  {
    if |b| == 0 {
      assert a + b == a;
    } else {
      assert (a + b)[..|a + b| - 1] == a + b[..|b| - 1];
      Utf8Adds(a, b[..|b| - 1]);
    }
  }

  /** Printable ASCII: no white space, no control character. */
  predicate IsPrintable(c: char) {
    '!' <= c <= '~'
  }

  /** A character takes one to four bytes, by the ranges of UTF-8. */
  lemma Utf8OfOne(c: char)
    ensures var n, bytes := c as int, Utf8Length([c]);
            && 1 <= bytes <= 4
            && (bytes == 1 <==> n <= 127)
            && (bytes <= 2 <==> n <= 2047)
            && (bytes <= 3 <==> n <= 65535)
  {
    assert [c][..0] == [];
  }

  lemma {:induction false} Utf8OfAscii(text: string)
    requires forall i :: 0 <= i < |text| ==> text[i] as int <= 127
    ensures Utf8Length(text) == |text|
  {
    if |text| > 0 {
      Utf8OfAscii(text[..|text| - 1]);
    }
  }

  /** Blanks, line ends and the separators beyond ASCII are white space, printable characters are not. */
  lemma WhitespaceIs(c: char)
    ensures c in {' ', '\t', '\n', '\r', '\U{A0}', '\U{2003}', '\U{2028}', '\U{3000}'} ==> IsWhitespace(c)
    ensures IsPrintable(c) ==> !IsWhitespace(c)
  {
  }

  /** A text of printable ASCII within the bound is accepted at every speed from half to double. */
  lemma PlainTextIsSpeakable(limits: TtsLimits, text: string, speed: real)
    requires 0 < |text| <= limits.maxTextBytes && 0.5 <= speed <= 2.0
    requires forall i :: 0 <= i < |text| ==> IsPrintable(text[i])
    ensures Speakable(limits, text, speed)
  {
    Utf8OfAscii(text);
    WhitespaceIs(text[0]);
  }

  /** Nothing but white space, a NUL anywhere, more bytes than the bound, or another speed: each is refused. */
  lemma OtherTextIsRefused(limits: TtsLimits, before: string, after: string, blank: string, text: string, speed: real)
    requires forall i :: 0 <= i < |blank| ==> blank[i] in {' ', '\t', '\n', '\r'}
    ensures !Speakable(limits, blank, speed)
    ensures !Speakable(limits, before + ['\0'] + after, speed)
    ensures |text| > limits.maxTextBytes ==> !Speakable(limits, text, speed)
    ensures speed < 0.5 || speed > 2.0 ==> !Speakable(limits, text, speed)
  {
    forall i | 0 <= i < |blank|
      ensures IsWhitespace(blank[i])
    {
      WhitespaceIs(blank[i]);
    }
    assert (before + ['\0'] + after)[|before|] as int == 0;
    Utf8AtLeast(text);
  }

  lemma {:induction false} Utf8AtLeast(text: string)
    ensures Utf8Length(text) >= |text|
  {
    if |text| > 0 {
      Utf8AtLeast(text[..|text| - 1]);
    }
  }

  datatype Synthesis = Synthesis(audio: MonoPcm, maxChunkSamples: nat)

  /** What `synthesize` answers on a live request with a free permit and a working voice. */
  function Spoken(limits: TtsLimits, voice: Voice, text: string, speed: real): Result<Synthesis, TtsError> {
    var g := voice.generate(text, speed);
    if |g.samples| > limits.maxOutputSamples then Failure(Output)
    else
      match MonoPcm.New(g.rate, g.samples)
      case Success(audio) => Success(Synthesis(audio, limits.maxChunkSamples))
      case Failure(_) => Failure(Output)
  }

  /** The voice's audio is handed out as it is, or not at all: if it is too long, empty, out of range or at a rate unknown. */
  lemma SpokenIsGenerated(limits: TtsLimits, voice: Voice, text: string, speed: real)
    ensures var g, r := voice.generate(text, speed), Spoken(limits, voice, text, speed);
            && (r.Success? <==> |g.samples| <= limits.maxOutputSamples && MonoPcm(g.rate, g.samples).Valid())
            && (r.Success? ==>
                  r.value.audio == MonoPcm(g.rate, g.samples) && r.value.maxChunkSamples == limits.maxChunkSamples)
            && (r.Failure? ==> r.error == Output)
  {
  }

  function MapStop(error: T.SttError): TtsError {
    match error
    case Cancelled => Cancelled
    case DeadlineExceeded => DeadlineExceeded
    case Busy => Busy
    case _ => Engine
  }

  class TtsEngine {
    const voice: Voice
    const limits: TtsLimits
    const limiter: Stt.Limiter

    ghost predicate Valid()
      reads limiter
    {
      limiter.Valid() && limiter.maximum == limits.maxConcurrent > 0 && limits.maxChunkSamples > 0
    }

    constructor (voice: Voice, limits: TtsLimits, limiter: Stt.Limiter)
      ensures this.voice == voice && this.limits == limits && this.limiter == limiter
    {
      this.voice, this.limits, this.limiter := voice, limits, limiter;
    }

    /** `with_backend`: an engine is built exactly when no bound is zero. */
    static method WithBackend(voice: Voice, limits: TtsLimits) returns (r: Result<TtsEngine, TtsError>)
      ensures r == Failure(InvalidInput) <==>
                limits.maxConcurrent == 0 || limits.maxTextBytes == 0 || limits.maxOutputSamples == 0
                || limits.maxChunkSamples == 0
      ensures r.Failure? ==> r.error == InvalidInput
      ensures r.Success? ==> r.value.Valid() && r.value.voice == voice && r.value.limits == limits
      ensures r.Success? ==> fresh(r.value) && fresh(r.value.limiter) && r.value.limiter.active == 0
    {
      if limits.maxConcurrent == 0 || limits.maxTextBytes == 0 || limits.maxOutputSamples == 0
         || limits.maxChunkSamples == 0 {
        return Failure(InvalidInput);
      }
      var limiter := new Stt.Limiter(limits.maxConcurrent);
      var engine := new TtsEngine(voice, limits, limiter);
      r := Success(engine);
    }

    /**
     * One synthesis. The permit is back on every path. Audio is returned only if the request was live both before
     * the native call and after it: whatever stops the request meanwhile fences the finished audio.
     */
    method Synthesize(text: string, speed: real, env: Stt.Environment) returns (r: Result<Synthesis, TtsError>)
      requires Valid()
      modifies limiter, env
      ensures Valid() && limiter.active == old(limiter.active)
      ensures r.Success? ==>
                && Speakable(limits, text, speed)
                && r == Spoken(limits, voice, text, speed)
                && old(limiter.active) < limits.maxConcurrent
                && env.ticks == old(env.ticks) + 3
                && env.stops(old(env.ticks)).None? && env.stops(env.ticks - 1).None?
      ensures Speakable(limits, text, speed) && env.stops(old(env.ticks)) == Some(Stt.Cancel) ==> r == Failure(Cancelled)
      ensures Speakable(limits, text, speed) && env.stops(old(env.ticks)) == Some(Stt.Deadline) ==>
                r == Failure(DeadlineExceeded)
      ensures env.Quiet() ==>
                r == if !Speakable(limits, text, speed) then Failure(InvalidInput)
                     else if old(limiter.active) == limits.maxConcurrent then Failure(Busy)
                     else Spoken(limits, voice, text, speed)
    {
      hide Speakable, Spoken;
      if !Speakable(limits, text, speed) {
        return Failure(InvalidInput);
      }
      var live := env.EnsureActive();
      if live.Failure? {
        return Failure(MapStop(live.error));
      }
      var permit := limiter.Acquire();
      if permit.Failure? {
        return Failure(Busy);
      }
      r := GenerateAdmitted(text, speed, env);
      limiter.Release();
    }

    /** The part of `synthesize` that runs under the permit. */
    method GenerateAdmitted(text: string, speed: real, env: Stt.Environment) returns (r: Result<Synthesis, TtsError>)
      modifies env
      ensures r.Success? ==>
                && r == Spoken(limits, voice, text, speed)
                && env.ticks == old(env.ticks) + 2 && env.stops(old(env.ticks) + 1).None?
      ensures env.Quiet() ==> r == Spoken(limits, voice, text, speed)
    {
      var native := env.NativeCall();
      if native.Failure? {
        return Failure(Engine);
      }
      var generated := voice.generate(text, speed);
      var live := env.EnsureActive();
      if live.Failure? {
        return Failure(MapStop(live.error));
      }
      if |generated.samples| > limits.maxOutputSamples {
        return Failure(Output);
      }
      var audio := MonoPcm.New(generated.rate, generated.samples);
      r := match audio
        case Failure(_) => Failure(Output)
        case Success(pcm) => Success(Synthesis(pcm, limits.maxChunkSamples));
    }
  }

  // ---- Chunks

  datatype TransportChunk = TransportChunk(samples: seq<real>, finalChunk: bool)

  function TransportChunks(s: Synthesis): (chunks: seq<TransportChunk>)
    requires s.maxChunkSamples > 0
  {
    var pieces := Chunks(s.audio.samples, s.maxChunkSamples);
    var count := (|s.audio.samples| + s.maxChunkSamples - 1) / s.maxChunkSamples;
    seq(|pieces|, i requires 0 <= i < |pieces| => TransportChunk(pieces[i], i + 1 == count))
  }

  function Samples(chunks: seq<TransportChunk>): seq<seq<real>> {
    seq(|chunks|, i requires 0 <= i < |chunks| => chunks[i].samples)
  }

  /**
   * The chunks partition the audio: together they are the audio, each is bounded and not empty, all but the last
   * are full, and exactly the last is marked final.
   */
  lemma TransportChunksPartition(s: Synthesis)
    requires s.maxChunkSamples > 0 && s.audio.Valid()
    ensures var chunks := TransportChunks(s);
            && |chunks| > 0
            && Flatten(Samples(chunks)) == s.audio.samples
            && (forall i :: 0 <= i < |chunks| ==> 0 < |chunks[i].samples| <= s.maxChunkSamples)
            && (forall i :: 0 <= i < |chunks| - 1 ==> |chunks[i].samples| == s.maxChunkSamples)
            && (forall i :: 0 <= i < |chunks| ==> (chunks[i].finalChunk <==> i == |chunks| - 1))
  {
    hide Chunks;
    var pieces := Chunks(s.audio.samples, s.maxChunkSamples);
    ChunksShape(s.audio.samples, s.maxChunkSamples);
    ChunksFlatten(s.audio.samples, s.maxChunkSamples);
    CountIs(|s.audio.samples|, s.maxChunkSamples, |pieces|);
    assert Samples(TransportChunks(s)) == pieces;
  }

  /** `div_ceil`. */
  lemma CountIs(length: nat, size: nat, count: nat)
    requires size > 0 && count > 0 && (count - 1) * size < length <= count * size
    ensures (length + size - 1) / size == count
  {
    assert count * size == (count - 1) * size + size;
    DivBound(length + size - 1, size, count);
  }

  /** An item of `StreamSynthesize`. */
  datatype AudioItem = AudioChunk(audio: seq<Byte>, sequence: nat, isFinal: bool, rate: nat) | SequenceOverflow

  function AudioItems(pcm: seq<Byte>, rate: nat): (items: seq<AudioItem>)
    ensures var pieces := Chunks(pcm, W.TTS_CHUNK_BYTES);
            |items| == if |pieces| <= U32_MAX + 1 then |pieces| else U32_MAX + 2
  {
    var pieces := Chunks(pcm, W.TTS_CHUNK_BYTES);
    var count := (|pcm| + W.TTS_CHUNK_BYTES - 1) / W.TTS_CHUNK_BYTES;
    if |pieces| <= U32_MAX + 1 then
      seq(|pieces|, i requires 0 <= i < |pieces| => AudioChunk(pieces[i], i, i + 1 == count, rate))
    else
      seq(U32_MAX + 1, i requires 0 <= i < U32_MAX + 1 => AudioChunk(pieces[i], i, i + 1 == count, rate))
      + [SequenceOverflow]
  }

  /** The loop of `stream_synthesize`; `room` is how many sends succeed before the client goes away. */
  method StreamSynthesize(pcm: seq<Byte>, rate: nat, room: nat) returns (sent: seq<AudioItem>)
    ensures var all := AudioItems(pcm, rate); sent == if room < |all| then all[..room] else all
  {
    hide Chunks;
    var pieces := Chunks(pcm, W.TTS_CHUNK_BYTES);
    var count := (|pcm| + W.TTS_CHUNK_BYTES - 1) / W.TTS_CHUNK_BYTES;
    ghost var all := AudioItems(pcm, rate);
    sent := [];
    var index := 0;
    while index < |pieces|
      invariant 0 <= index <= |pieces| && index <= U32_MAX + 1
      invariant index <= room && sent == all[..index]
    {
      if index > U32_MAX {
        if index < room {
          sent := sent + [SequenceOverflow];
        }
        return;
      }
      if index == room {
        return;
      }
      assert all[..index + 1] == all[..index] + [all[index]];
      sent := sent + [AudioChunk(pieces[index], index, index + 1 == count, rate)];
      index := index + 1;
    }
  }

  function ChunkAudio(items: seq<AudioItem>): seq<seq<Byte>>
    requires forall i :: 0 <= i < |items| ==> items[i].AudioChunk?
  {
    seq(|items|, i requires 0 <= i < |items| => items[i].audio)
  }

  function Payloads(sent: seq<W.Sent>): seq<seq<Byte>>
    requires forall i :: 0 <= i < |sent| ==> sent[i].SpeechChunk?
  {
    seq(|sent|, i requires 0 <= i < |sent| => sent[i].audio)
  }

  /**
   * Both streaming transports deliver exactly the synthesized audio: the WebSocket chunks always concatenate to it,
   * and the gRPC chunks do, numbered from zero and with exactly the last marked final, if and only if they can be
   * numbered in 32 bits.
   */
  lemma SpeechIsDelivered(pcm: seq<Byte>, rate: nat)
    requires |pcm| > 0
    ensures Flatten(Payloads(W.SpeechChunks(pcm))) == pcm
    ensures var items := AudioItems(pcm, rate);
            && (SequenceOverflow !in items <==> |pcm| <= W.TTS_CHUNK_BYTES * (U32_MAX + 1))
            && (SequenceOverflow !in items ==>
                  && (forall i :: 0 <= i < |items| ==> items[i].AudioChunk?)
                  && Flatten(ChunkAudio(items)) == pcm
                  && |items| > 0
                  && (forall i :: 0 <= i < |items| ==>
                        && items[i].sequence == i && items[i].rate == rate
                        && 0 < |items[i].audio| <= W.TTS_CHUNK_BYTES
                        && (items[i].isFinal <==> i == |items| - 1)))
  {
    hide Chunks;
    var pieces := Chunks(pcm, W.TTS_CHUNK_BYTES);
    var items := AudioItems(pcm, rate);
    ChunksShape(pcm, W.TTS_CHUNK_BYTES);
    ChunksFlatten(pcm, W.TTS_CHUNK_BYTES);
    CountIs(|pcm|, W.TTS_CHUNK_BYTES, |pieces|);
    assert Payloads(W.SpeechChunks(pcm)) == pieces;
    if |pieces| <= U32_MAX + 1 {
      assert ChunkAudio(items) == pieces;
    } else {
      assert items[U32_MAX + 1] == SequenceOverflow;
    }
  }
}
