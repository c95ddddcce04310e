/** Audio admission limits, PCM16 samples, and the incremental PCM16 decoder. */
module Pcm {
  import opened Prelude

  const SUPPORTED_SAMPLE_RATES: seq<nat> := [8000, 16000, 22050, 24000, 32000, 44100, 48000]

  datatype AudioError =
    | EncodedTooLarge
    | DurationTooLong
    | NoSamples
    | InvalidSamples
    | InvalidByteLength
    | PartialSample
    | UnsupportedRate
    | ResampleTooLarge
    | ResamplerInputInvalid
    | VadFrameInvalid
    | VadConfigInvalid
    | WavMalformed
    | WavLengthInvalid
    | WavChunkMalformed
    | WavFormatMalformed
    | WavEncodingUnsupported
    | WavFormatMissing
    | WavDataMissing
    | WavOutputTooLarge

  predicate SupportedRate(rate: nat) {
    rate in SUPPORTED_SAMPLE_RATES
  }

  lemma SupportedRateRange(rate: nat)
    requires SupportedRate(rate)
    ensures 8000 <= rate <= 48000
  {
  }

  /** Encoded-size and duration bounds; both are machine words and `AudioLimits::new` rejects zero. */
  datatype AudioLimits = AudioLimits(maxEncodedBytes: nat, maxDurationMs: nat) {
    predicate Valid() {
      0 < maxEncodedBytes <= U64_MAX && 0 < maxDurationMs <= U64_MAX
    }

    function Admit(encodedBytes: nat, rate: nat, samples: nat): Result<(), AudioError> {
      if encodedBytes > maxEncodedBytes then Failure(EncodedTooLarge)
      else if samples > U64_MAX || samples * 1000 > U64_MAX then Failure(DurationTooLong)
      else if rate * maxDurationMs > U64_MAX then Failure(DurationTooLong)
      else if samples * 1000 > rate * maxDurationMs then Failure(DurationTooLong)
      else Success(())
    }

    function ValidatePcm(audio: MonoPcm): Result<(), AudioError> {
      if |audio.samples| * 2 > U64_MAX then Failure(EncodedTooLarge)
      else Admit(|audio.samples| * 2, audio.rate, |audio.samples|)
    }

    lemma AdmitBounds(encodedBytes: nat, rate: nat, samples: nat)
      ensures Admit(encodedBytes, rate, samples).Success? ==> encodedBytes <= maxEncodedBytes
    {
    }

    /** A shorter recording at the same rate is admitted whenever a longer one is. */
    lemma AdmitMonotone(bytes: nat, more: nat, rate: nat)
      requires bytes <= more
      ensures Admit(more, rate, more / 2).Success? ==> Admit(bytes, rate, bytes / 2).Success?
    {
      assert bytes / 2 <= more / 2;
    }
  }

  predicate InRange(sample: real) {
    -1.0 <= sample <= 1.0
  }

  predicate AllInRange(samples: seq<real>) {
    forall i :: 0 <= i < |samples| ==> InRange(samples[i])
  }

  /** Validated mono audio. Samples are reals, so the source's finiteness test is always passed. */
  datatype MonoPcm = MonoPcm(rate: nat, samples: seq<real>) {
    ghost predicate Valid() {
      SupportedRate(rate) && samples != [] && AllInRange(samples)
    }

    static function New(rate: nat, samples: seq<real>): (r: Result<MonoPcm, AudioError>)
      ensures r.Success? <==> MonoPcm(rate, samples).Valid()
      ensures r.Success? ==> r.value == MonoPcm(rate, samples)
    {
      if !SupportedRate(rate) then Failure(UnsupportedRate)
      else if |samples| == 0 then Failure(NoSamples)
      else if !AllInRange(samples) then Failure(InvalidSamples)
      else Success(MonoPcm(rate, samples))
    }
  }

  /** `i16::from_le_bytes`. */
  function I16(low: Byte, high: Byte): (v: int)
    ensures -32768 <= v <= 32767
  {
    var u := low + 256 * high;
    if u >= 32768 then u - 65536 else u
  }

  function SampleOf(low: Byte, high: Byte): (s: real)
    ensures -1.0 <= s < 1.0
  {
    I16(low, high) as real / 32768.0
  }

  /** The samples held by a PCM16 byte string; a trailing odd byte belongs to no sample. */
  function Decode(bytes: seq<Byte>): (samples: seq<real>)
    ensures |samples| == |bytes| / 2
    ensures AllInRange(samples)
  {
    seq(|bytes| / 2, i requires 0 <= i < |bytes| / 2 => SampleOf(bytes[2 * i], bytes[2 * i + 1]))
  }

  /** One-shot decoding, `MonoPcm::from_pcm16_le`. */
  function FromPcm16(bytes: seq<Byte>, rate: nat, limits: AudioLimits): Result<MonoPcm, AudioError> {
    if !SupportedRate(rate) then Failure(UnsupportedRate)
    else if bytes == [] || |bytes| % 2 != 0 then Failure(InvalidByteLength)
    else
      var _ :- limits.Admit(|bytes|, rate, |bytes| / 2);
      MonoPcm.New(rate, Decode(bytes))
  }

  /** Samples are refused for their rate, for being none, or for one out of range, in this order. */
  lemma SamplesRefused(rate: nat, samples: seq<real>)
    ensures !SupportedRate(rate) ==> MonoPcm.New(rate, samples) == Failure(UnsupportedRate)
    ensures SupportedRate(rate) && samples == [] ==> MonoPcm.New(rate, samples) == Failure(NoSamples)
    ensures SupportedRate(rate) && (exists i :: 0 <= i < |samples| && (samples[i] < -1.0 || samples[i] > 1.0)) <==>
              MonoPcm.New(rate, samples) == Failure(InvalidSamples)
  {
  }

  /** The rates the program knows. */
  lemma RatesAre(rate: nat)
    ensures SupportedRate(rate) <==> rate in {8000, 16000, 22050, 24000, 32000, 44100, 48000}
  {
  }

  /**
   * What decoding refuses, and why: a rate that is not supported, bytes that are no whole samples, or a recording beyond
   * the limits. Decoded samples themselves are never at fault.
   */
  lemma DecodingRefuses(bytes: seq<Byte>, rate: nat, limits: AudioLimits)
    ensures var r := FromPcm16(bytes, rate, limits);
            var seconds := (|bytes| / 2) as real / (if rate == 0 then 1 else rate) as real;
            && (!SupportedRate(rate) <==> r == Failure(UnsupportedRate))
            && (SupportedRate(rate) && (bytes == [] || |bytes| % 2 != 0) <==> r == Failure(InvalidByteLength))
            && (SupportedRate(rate) && bytes != [] && |bytes| % 2 == 0 && |bytes| > limits.maxEncodedBytes <==>
                  r == Failure(EncodedTooLarge))
            && (SupportedRate(rate) && |bytes| % 2 == 0 && 0 < |bytes| <= limits.maxEncodedBytes
                && rate * limits.maxDurationMs <= U64_MAX ==>
                  (r.Success? <==> seconds * 1000.0 <= limits.maxDurationMs as real))
  {
    hide Decode;
    if SupportedRate(rate) {
      SupportedRateRange(rate);
      Lasting(|bytes| / 2, rate, limits.maxDurationMs);
    }
  }

  /** So many samples last at most so many milliseconds. */
  lemma Lasting(samples: nat, rate: nat, ms: nat)
    requires rate > 0
    ensures samples * 1000 <= rate * ms <==> samples as real / rate as real * 1000.0 <= ms as real
  {
    var seconds := samples as real / rate as real;
    assert seconds * rate as real == samples as real;
    if seconds * 1000.0 <= ms as real {
      ScaledOrder(seconds * 1000.0, ms as real, rate as real);
    } else {
      ScaledOrder(ms as real, seconds * 1000.0, rate as real);
      ScaledStrict(ms as real, seconds * 1000.0, rate as real);
    }
    assert seconds * 1000.0 * rate as real == (samples * 1000) as real;
    assert ms as real * rate as real == (rate * ms) as real;
  }

  lemma ScaledOrder(a: real, b: real, c: real)
    requires a <= b && c >= 0.0
    ensures a * c <= b * c
  {
  }

  lemma ScaledStrict(a: real, b: real, c: real)
    requires a < b && c > 0.0
    ensures b * c - a * c > 0.0
  {
    var gap := b - a;
    assert gap * c > 0.0;
    assert gap * c == b * c - a * c;
  }

  lemma DecodePrefix(a: seq<Byte>, b: seq<Byte>)
    ensures Decode(a) <= Decode(a + b)
  {
  }

  lemma DecodeSnoc(bytes: seq<Byte>, k: nat)
    requires 2 * k + 1 < |bytes|
    ensures k < |Decode(bytes)|
    ensures Decode(bytes)[..k + 1] == Decode(bytes)[..k] + [SampleOf(bytes[2 * k], bytes[2 * k + 1])]
  {
  }

  /** Decoder for PCM16 bytes that arrive in frames of any length. */
  class IncrementalPcm16 {
    const rate: nat
    const limits: AudioLimits
    var samples: seq<real>
    var pending: Option<Byte>
    // Every byte accepted so far.
    ghost var history: seq<Byte>

    ghost predicate Valid()
      reads this
    {
      && SupportedRate(rate)
      && limits.Valid()
      && |history| <= limits.maxEncodedBytes
      && (history == [] || limits.Admit(|history|, rate, |history| / 2).Success?)
      && samples == Decode(history)
      && pending == (if |history| % 2 == 0 then None else Some(history[|history| - 1]))
    }

    constructor (rate: nat, limits: AudioLimits)
      requires SupportedRate(rate) && limits.Valid()
      ensures Valid() && history == []
      ensures this.rate == rate && this.limits == limits
    {
      this.rate := rate;
      this.limits := limits;
      samples := [];
      pending := None;
      history := [];
    }

    /** Appends one frame, returning exactly the samples it completes; a rejected frame changes nothing. */
    method Push(bytes: seq<Byte>) returns (r: Result<seq<real>, AudioError>)
      requires Valid()
      modifies this
      ensures Valid()
      ensures
        var total := old(history) + bytes;
        var admitted := limits.Admit(|total|, rate, |total| / 2);
        && (r.Success? <==> admitted.Success?)
        && (r.Success? ==> history == total && Decode(history) == Decode(old(history)) + r.value)
        && (r.Success? ==> AllInRange(r.value))
        && (r.Failure? ==> r.error == admitted.error && history == old(history))
        && (r.Failure? ==> samples == old(samples) && pending == old(pending))
    {
      hide AudioLimits.Admit, Decode, SampleOf;
      var existing := |samples| * 2 + (if pending.Some? then 1 else 0);
      var total := existing + |bytes|;
      ghost var all := history + bytes;
      limits.AdmitBounds(total, rate, total / 2);
      var _ :- limits.Admit(total, rate, total / 2);

      ghost var carried, known := |samples|, |history|;
      DecodePrefix(history, bytes);
      assert samples == Decode(all)[..carried];
      var decoded: seq<real> := [];
      var index := 0;
      if pending.Some? {
        var low := pending.value;
        pending := None;
        if |bytes| > 0 {
          decoded := [SampleOf(low, bytes[0])];
          index := 1;
          DecodeSnoc(all, carried);
        } else {
          pending := Some(low);
        }
      }
      var rest;
      rest, index := DecodePairs(bytes, index, history);
      decoded := decoded + rest;
      if index < |bytes| {
        pending := Some(bytes[index]);
      }
      assert carried + |decoded| == |Decode(all)|;
      assert samples + decoded == Decode(all);
      forall i | 0 <= i < |decoded|
        ensures InRange(decoded[i])
      {
        assert decoded[i] == Decode(all)[carried + i];
      }
      samples := samples + decoded;
      history := all;
      r := Success(decoded);
    }

    /** The loop over the whole pairs of a frame, from where they start. */
    method DecodePairs(bytes: seq<Byte>, from: nat, ghost before: seq<Byte>) returns (decoded: seq<real>, index: nat)
      requires from <= |bytes| && (|bytes| > 0 ==> (|before| + from) % 2 == 0)
      ensures from <= index <= |bytes| <= index + 1
      ensures |bytes| == 0 ==> decoded == []
      ensures |bytes| > 0 ==>
                && (|before| + index) % 2 == 0
                && Decode(before + bytes)[..(|before| + from) / 2] + decoded
                   == Decode(before + bytes)[..(|before| + index) / 2]
    {
      hide Decode, SampleOf;
      ghost var all := before + bytes;
      decoded, index := [], from;
      while index + 1 < |bytes|
        invariant from <= index <= |bytes| && (|bytes| > 0 ==> (|before| + index) % 2 == 0)
        invariant |bytes| == 0 ==> decoded == []
        invariant |bytes| > 0 ==>
                    Decode(all)[..(|before| + from) / 2] + decoded == Decode(all)[..(|before| + index) / 2]
      {
        ghost var k := (|before| + index) / 2;
        DecodeSnoc(all, k);
        assert all[2 * k] == bytes[index] && all[2 * k + 1] == bytes[index + 1];
        decoded := decoded + [SampleOf(bytes[index], bytes[index + 1])];
        index := index + 2;
      }
    }

    /**
     * Ends the stream: it succeeds exactly if one-shot decoding of all the bytes does, with the same audio. An odd
     * total is refused as a partial sample.
     */
    method Finish() returns (r: Result<MonoPcm, AudioError>)
      requires Valid()
      ensures r.Success? <==> FromPcm16(history, rate, limits).Success?
      ensures r.Success? ==> r == FromPcm16(history, rate, limits) == Success(MonoPcm(rate, Decode(history)))
      ensures r.Success? <==> |history| % 2 == 0 && history != []
      ensures r.Failure? ==> r.error == if |history| % 2 != 0 then PartialSample else NoSamples
    {
      hide AudioLimits.Admit;
      if pending.Some? {
        return Failure(PartialSample);
      }
      r := MonoPcm.New(rate, samples);
    }
  }

  /** Feeds frames to a fresh decoder until one is refused: the bytes accepted and the first error. */
  function AcceptFrames(limits: AudioLimits, rate: nat, frames: seq<seq<Byte>>): (seq<Byte>, Option<AudioError>) {
    if |frames| == 0 then ([], None)
    else
      var (bytes, error) := AcceptFrames(limits, rate, frames[..|frames| - 1]);
      if error.Some? then (bytes, error)
      else
        var total := bytes + frames[|frames| - 1];
        match limits.Admit(|total|, rate, |total| / 2)
        case Success(_) => (total, None)
        case Failure(e) => (bytes, Some(e))
  }

  /** A recording is accepted through frames iff it is accepted whole: the split never matters. */
  lemma {:induction false} AcceptFramesSplitInvariant(limits: AudioLimits, rate: nat, frames: seq<seq<Byte>>)
    requires limits.Admit(0, rate, 0).Success?
    ensures var whole := Flatten(frames);
            var (bytes, error) := AcceptFrames(limits, rate, frames);
            && (error.None? <==> limits.Admit(|whole|, rate, |whole| / 2).Success?)
            && (error.None? ==> bytes == whole)
            && bytes <= whole
  {
    if |frames| > 0 {
      var init := frames[..|frames| - 1];
      AcceptFramesSplitInvariant(limits, rate, init);
      limits.AdmitMonotone(|Flatten(init)|, |Flatten(frames)|, rate);
    }
  }

  /**
   * A client of the decoder: however a byte string is cut into frames, decoding it frame by frame succeeds exactly
   * if decoding it at once does, with the same audio, and the samples delivered on the way are that audio.
   */
  method DecodeInFrames(frames: seq<seq<Byte>>, rate: nat, limits: AudioLimits)
    returns (r: Result<MonoPcm, AudioError>, delivered: seq<real>)
    requires SupportedRate(rate) && limits.Valid()
    ensures r.Success? <==> FromPcm16(Flatten(frames), rate, limits).Success?
    ensures r.Success? ==> r == FromPcm16(Flatten(frames), rate, limits) && delivered == r.value.samples
  {
    hide AudioLimits.Admit, Decode, Flatten, SupportedRate;
    var decoder := new IncrementalPcm16(rate, limits);
    delivered := [];
    FlattenNil<Byte>(frames[..0]);
    assert |Decode([])| == 0;
    for i := 0 to |frames|
      invariant decoder.Valid() && decoder.rate == rate && decoder.limits == limits
      invariant decoder.history == Flatten(frames[..i]) && delivered == Decode(decoder.history)
    {
      assert frames[..i + 1] == frames[..i] + [frames[i]];
      FlattenSnoc(frames[..i], frames[i]);
      var pushed := decoder.Push(frames[i]);
      if pushed.Failure? {
        PrefixRefused(frames, i + 1, rate, limits);
        return Failure(pushed.error), delivered;
      }
      delivered := delivered + pushed.value;
    }
    assert frames[..|frames|] == frames;
    r := decoder.Finish();
  }

  /** If the first frames together are not admissible, neither is the whole. */
  lemma PrefixRefused(frames: seq<seq<Byte>>, k: nat, rate: nat, limits: AudioLimits)
    requires k <= |frames|
    requires limits.Admit(|Flatten(frames[..k])|, rate, |Flatten(frames[..k])| / 2).Failure?
    ensures FromPcm16(Flatten(frames), rate, limits).Failure?
  {
    assert frames[..k] + frames[k..] == frames;
    FlattenAppend(frames[..k], frames[k..]);
    limits.AdmitMonotone(|Flatten(frames[..k])|, |Flatten(frames)|, rate);
  }

  /** `float_to_i16`: scale, round half away from zero, clamp. */
  function FloatToI16(sample: real): (v: int)
    ensures -32768 <= v <= 32767
  {
    if sample <= -1.0 then -32768
    else
      var clamped := if sample > 1.0 then 1.0 else sample;
      var rounded := RoundHalfAway(clamped * 32768.0);
      if rounded > 32767 then 32767 else if rounded < -32768 then -32768 else rounded
  }

  function RoundHalfAway(x: real): int {
    if x >= 0.0 then (x + 0.5).Floor else -((0.5 - x).Floor)
  }

  /** `i16::to_le_bytes`. */
  function LowByte(v: int): Byte {
    v % 256
  }

  function HighByte(v: int): Byte {
    (v / 256) % 256
  }

  lemma I16RoundTrip(v: int)
    requires -32768 <= v <= 32767
    ensures I16(LowByte(v), HighByte(v)) == v
  {
    var quotient := v / 256;
    assert -128 <= quotient < 128;
    WrapByte(quotient);
    assert v == LowByte(v) + 256 * quotient;
  }

  lemma WrapByte(q: int)
    requires -128 <= q < 128
    ensures q % 256 == if q >= 0 then q else q + 256
  {
  }

  /** Encodes samples as little-endian PCM16, `to_pcm16_le`. */
  function Encode(samples: seq<real>): (bytes: seq<Byte>)
    ensures |bytes| == 2 * |samples|
    ensures forall i :: 0 <= i < |samples| ==> bytes[2 * i] == LowByte(FloatToI16(samples[i]))
    ensures forall i :: 0 <= i < |samples| ==> bytes[2 * i + 1] == HighByte(FloatToI16(samples[i]))
  {
    if |samples| == 0 then []
    else
      var v := FloatToI16(samples[|samples| - 1]);
      Encode(samples[..|samples| - 1]) + [LowByte(v), HighByte(v)]
  }

  method ToPcm16(samples: seq<real>) returns (bytes: seq<Byte>)
    ensures bytes == Encode(samples)
  {
    bytes := [];
    for i := 0 to |samples|
      invariant bytes == Encode(samples[..i])
    {
      assert samples[..i + 1][..i] == samples[..i];
      var v := FloatToI16(samples[i]);
      bytes := bytes + [LowByte(v), HighByte(v)];
    }
    assert samples[..|samples|] == samples;
  }

  /** Quantization moves a valid sample by at most one step of 1/32768. */
  lemma QuantizationError(sample: real)
    requires InRange(sample)
    ensures -1.0 <= sample * 32768.0 - FloatToI16(sample) as real <= 1.0
  {
  }

  /**
   * Quantization rounds to the nearest level, halves away from zero, and clamps: there is no level above 32767, so
   * everything from half a step below the next one up is written as that, and what is out of range as its end.
   */
  lemma QuantizationNearest(sample: real)
    ensures var scaled, v := sample * 32768.0, FloatToI16(sample) as real;
            && (-32768.0 <= scaled < 32767.5 ==> -0.5 <= scaled - v <= 0.5)
            && (0.0 <= scaled < 32767.5 && scaled - v == -0.5 ==> scaled < v)
            && (0.0 <= scaled < 32767.5 ==> scaled - v != 0.5)
            && (-32768.0 <= scaled < 0.0 ==> scaled - v != -0.5)
            && (scaled >= 32767.5 ==> v == 32767.0)
            && (scaled <= -32768.0 ==> v == -32768.0)
  {
  }

  /** The bytes of a level: the first counts ones, the second 256s and the sign. */
  lemma LittleEndian(v: int, low: Byte, high: Byte)
    requires -32768 <= v <= 32767
    ensures low == LowByte(v) && high == HighByte(v) <==>
              v == low + 256 * high - (if high < 128 then 0 else 65536)
    ensures I16(low, high) == low + 256 * high - (if high < 128 then 0 else 65536)
  {
    var quotient := v / 256;
    assert -128 <= quotient < 128;
    WrapByte(quotient);
  }

  /** A recording and its bytes: which level each pair holds. */
  lemma DecodedLevel(bytes: seq<Byte>, i: nat)
    requires 2 * i + 1 < |bytes|
    ensures var low: int, high: int := bytes[2 * i], bytes[2 * i + 1];
            Decode(bytes)[i] * 32768.0 == (low + 256 * high - (if high < 128 then 0 else 65536)) as real
  {
    LittleEndian(0, bytes[2 * i], bytes[2 * i + 1]);
  }

  /** One sample in its two bytes: 0.1 is 3277 of 32768, that is 12 * 256 + 205. */
  lemma EncodedExample()
    ensures Encode([0.1, -0.1]) == [205, 12, 51, 243]
  {
    assert FloatToI16(0.1) == 3277 && FloatToI16(-0.1) == -3277;
    var samples := [0.1, -0.1];
    assert Encode(samples) == [LowByte(3277), HighByte(3277), LowByte(-3277), HighByte(-3277)];
  }

  /** A value that is already a PCM16 level survives encoding. */
  lemma QuantizationFixed(v: int)
    requires -32768 <= v <= 32767
    ensures FloatToI16(v as real / 32768.0) == v
  {
    var s := v as real / 32768.0;
    assert s * 32768.0 == v as real;
  }

  /** Decoding an encoding is accurate to 1/32768 per sample. */
  lemma DecodeEncodeAccuracy(samples: seq<real>)
    requires AllInRange(samples)
    ensures |Decode(Encode(samples))| == |samples|
    ensures forall i :: 0 <= i < |samples| ==>
              -1.0 / 32768.0 <= samples[i] - Decode(Encode(samples))[i] <= 1.0 / 32768.0
  {
    forall i | 0 <= i < |samples|
      ensures -1.0 / 32768.0 <= samples[i] - Decode(Encode(samples))[i] <= 1.0 / 32768.0
    {
      assert InRange(samples[i]);
      QuantizationError(samples[i]);
      I16RoundTrip(FloatToI16(samples[i]));
      assert Decode(Encode(samples))[i] == FloatToI16(samples[i]) as real / 32768.0;
    }
  }

  lemma SampleBytes(low: Byte, high: Byte)
    ensures LowByte(FloatToI16(SampleOf(low, high))) == low
    ensures HighByte(FloatToI16(SampleOf(low, high))) == high
  {
    hide FloatToI16;
    var v := I16(low, high);
    QuantizationFixed(v);
    assert v % 256 == low && (v / 256) % 256 == high;
  }

  /** Re-encoding a decoded byte string of even length gives the same bytes. */
  lemma EncodeDecode(bytes: seq<Byte>)
    requires |bytes| % 2 == 0
    ensures Encode(Decode(bytes)) == bytes
  {
    hide Encode, FloatToI16, LowByte, HighByte, SampleOf;
    forall k | 0 <= k < |bytes|
      ensures Encode(Decode(bytes))[k] == bytes[k]
    {
      var i := k / 2;
      assert k == 2 * i || k == 2 * i + 1;
      assert Decode(bytes)[i] == SampleOf(bytes[2 * i], bytes[2 * i + 1]);
      SampleBytes(bytes[2 * i], bytes[2 * i + 1]);
    }
  }
}
