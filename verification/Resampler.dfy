/** Linear resampling: the one-shot conversion and its streaming form. */
module Resampler {
  import opened Prelude
  import opened Pcm

  /** Output samples determined by `n` input samples. */
  function Available(n: nat, source: nat, target: nat): nat
    requires n > 0 && source > 0
  {
    (n - 1) * target / source + 1
  }

  /** The `u64` product of the last input index and the target rate overflows. */
  predicate TooLarge(n: nat, target: nat)
    requires n > 0
  {
    (n - 1) * target > U64_MAX
  }

  lemma ProductOrder(a: nat, b: nat, m: nat)
    requires a <= b
    ensures a * m <= b * m
  {
  }

  lemma ProductStrict(a: nat, b: nat, m: nat)
    requires a * m < b * m
    ensures a < b
  {
    if b <= a {
      ProductOrder(b, a, m);
    }
  }

  /** An output index is available iff its source position is not past the last input sample. */
  lemma AvailableIff(i: nat, n: nat, source: nat, target: nat)
    requires n > 0 && source > 0
    ensures i < Available(n, source, target) <==> i * source <= (n - 1) * target
  {
    var p := (n - 1) * target;
    DivIs(p, source);
    var q := p / source;
    if i <= q {
      ProductOrder(i, q, source);
    } else {
      ProductOrder(q + 1, i, source);
      assert (q + 1) * source == q * source + source;
    }
  }

  /** The left neighbour of an available output exists, and is the last input only at remainder zero. */
  lemma LeftNeighbour(i: nat, n: nat, source: nat, target: nat)
    requires n > 0 && source > 0 && target > 0
    requires i < Available(n, source, target)
    ensures i * source / target <= n - 1
    ensures i * source / target == n - 1 ==> i * source % target == 0
  {
    AvailableIff(i, n, source, target);
    QuotientWithin(i * source, n - 1, target);
  }

  lemma QuotientWithin(p: nat, last: nat, target: nat)
    requires target > 0 && p <= last * target
    ensures p / target <= last
    ensures p / target == last ==> p % target == 0
  {
    var left := p / target;
    assert p == left * target + p % target;
    ProductStrict(left, last + 1, target) by {
      assert (last + 1) * target == last * target + target;
    }
  }

  /** Linear interpolation from `a` towards `b` at the fraction `remainder / whole`. */
  function Blend(a: real, b: real, remainder: nat, whole: nat): real
    requires whole > 0
  {
    a + (b - a) * (remainder as real / whole as real)
  }

  lemma BlendAtStart(a: real, b: real, whole: nat)
    requires whole > 0
    ensures Blend(a, b, 0, whole) == a
  {
    assert 0 as real / whole as real == 0.0;
  }

  lemma ProductSign(a: real, b: real)
    requires a >= 0.0 && b >= 0.0
    ensures a * b >= 0.0
  {
  }

  lemma BlendBetween(a: real, b: real, remainder: nat, whole: nat)
    requires remainder < whole
    ensures a <= Blend(a, b, remainder, whole) <= b || b <= Blend(a, b, remainder, whole) <= a
  {
    var f := remainder as real / whole as real;
    assert f >= 0.0 && f * whole as real == remainder as real;
    assert 0.0 <= f < 1.0;
    var d := b - a;
    if d >= 0.0 {
      ProductSign(d, f);
      ProductSign(d, 1.0 - f);
      assert d * (1.0 - f) == d - d * f;
    } else {
      ProductSign(-d, f);
      ProductSign(-d, 1.0 - f);
      assert (-d) * (1.0 - f) == d * f - d;
      assert (-d) * f == -(d * f);
    }
  }

  function RightOf(left: nat, n: nat): (right: nat)
    requires left < n
    ensures right < n
  {
    if left + 1 < n then left + 1 else n - 1
  }

  /** One interpolated output sample, reading the two inputs around its source position. */
  function Tap(input: seq<real>, i: nat, source: nat, target: nat): real
    requires input != [] && source > 0 && target > 0
    requires i < Available(|input|, source, target)
  {
    LeftNeighbour(i, |input|, source, target);
    var left := i * source / target;
    Blend(input[left], input[RightOf(left, |input|)], i * source % target, target)
  }

  function ResampledLength(n: nat, source: nat, target: nat): nat
    requires source > 0
  {
    if n == 0 then 0 else Available(n, source, target)
  }

  /** All outputs determined by `input`. */
  function Resampled(input: seq<real>, source: nat, target: nat): (output: seq<real>)
    requires source > 0 && target > 0
    ensures |output| == ResampledLength(|input|, source, target)
  {
    if |input| == 0 then []
    else
      seq(Available(|input|, source, target),
          i requires 0 <= i < Available(|input|, source, target) => Tap(input, i, source, target))
  }

  lemma AvailableMonotone(n: nat, m: nat, source: nat, target: nat)
    requires 0 < n <= m && source > 0
    ensures Available(n, source, target) <= Available(m, source, target)
  {
    var last := Available(n, source, target) - 1;
    AvailableIff(last, n, source, target);
    ProductOrder(n - 1, m - 1, target);
    AvailableIff(last, m, source, target);
  }

  lemma LengthMonotone(n: nat, m: nat, source: nat, target: nat)
    requires n <= m && source > 0
    ensures ResampledLength(n, source, target) <= ResampledLength(m, source, target)
  {
    if n > 0 {
      AvailableMonotone(n, m, source, target);
    }
  }

  /** An output computed from a prefix is final: later input cannot change it, even where `right` was clamped. */
  lemma TapStable(input: seq<real>, more: seq<real>, i: nat, source: nat, target: nat)
    requires input != [] && source > 0 && target > 0
    requires i < Available(|input|, source, target)
    ensures i < Available(|input + more|, source, target)
    ensures Tap(input + more, i, source, target) == Tap(input, i, source, target)
  {
    AvailableMonotone(|input|, |input + more|, source, target);
    LeftNeighbour(i, |input|, source, target);
    var left := i * source / target;
    if left == |input| - 1 {
      BlendAtStart(input[left], input[left], target);
      BlendAtStart(input[left], (input + more)[RightOf(left, |input + more|)], target);
    }
  }

  lemma BlendScaled(a: real, b: real, remainder: nat, whole: nat)
    requires whole > 0
    ensures (Blend(a, b, remainder, whole) - a) * whole as real == (b - a) * remainder as real
  {
    var f := remainder as real / whole as real;
    assert f * whole as real == remainder as real;
    Associates(b - a, f, whole as real);
  }

  lemma Associates(a: real, b: real, c: real)
    ensures a * b * c == a * (b * c)
  {
  }

  /**
   * What linear interpolation is: output `i` lies at `i * source / target` between the inputs, and if that is `rest`
   * of `target` parts of the way from input `j` to the next, the output has gone as much of the way between them.
   */
  lemma Interpolates(input: seq<real>, i: nat, j: nat, rest: nat, source: nat, target: nat)
    requires input != [] && source > 0 && target > 0
    requires i < Available(|input|, source, target)
    requires i * source == j * target + rest && rest < target
    ensures j < |input|
    ensures j == |input| - 1 ==> Tap(input, i, source, target) == input[j]
    ensures j < |input| - 1 ==>
              (Tap(input, i, source, target) - input[j]) * target as real == (input[j + 1] - input[j]) * rest as real
  {
    LeftNeighbour(i, |input|, source, target);
    DivBound(i * source, target, j);
    assert i * source % target == rest;
    BlendScaled(input[j], input[RightOf(j, |input|)], rest, target);
    if j == |input| - 1 {
      BlendAtStart(input[j], input[j], target);
    }
  }

  /** Input that rises by `d` from sample to sample. */
  predicate IsRamp(input: seq<real>, c: real, d: real) {
    forall j :: 0 <= j < |input| ==> input[j] == c + d * j as real
  }

  /** A ramp is reproduced, at every pair of rates: resampling changes how often it is read, not where it is. */
  lemma RampIsKept(input: seq<real>, c: real, d: real, source: nat, target: nat)
    requires source > 0 && target > 0 && IsRamp(input, c, d)
    ensures forall i :: 0 <= i < |Resampled(input, source, target)| ==>
              Resampled(input, source, target)[i] * target as real == c * target as real + d * (i * source) as real
  {
    hide IsRamp, Resampled;
    forall i | 0 <= i < |Resampled(input, source, target)|
      ensures Resampled(input, source, target)[i] * target as real == c * target as real + d * (i * source) as real
    {
      ResampledAt(input, i, source, target);
      TapOfRamp(input, c, d, i, source, target);
    }
  }

  lemma ResampledAt(input: seq<real>, i: nat, source: nat, target: nat)
    requires source > 0 && target > 0 && i < |Resampled(input, source, target)|
    ensures input != [] && i < Available(|input|, source, target)
    ensures Resampled(input, source, target)[i] == Tap(input, i, source, target)
  {
    hide Tap, Available;
  }

  lemma TapOfRamp(input: seq<real>, c: real, d: real, i: nat, source: nat, target: nat)
    requires input != [] && source > 0 && target > 0 && IsRamp(input, c, d)
    requires i < Available(|input|, source, target)
    ensures Tap(input, i, source, target) * target as real == c * target as real + d * (i * source) as real
  {
    hide Tap, Available;
    LeftNeighbour(i, |input|, source, target);
    var p := i * source;
    var j, rest := p / target, p % target;
    assert p == j * target + rest;
    Interpolates(input, i, j, rest, source, target);
    OnRamp(Tap(input, i, source, target), c, d, j, rest, target, p);
  }

  lemma OnRamp(tap: real, c: real, d: real, j: nat, rest: nat, target: nat, p: nat)
    requires p == j * target + rest
    requires if rest == 0 then tap == c + d * j as real
             else (tap - (c + d * j as real)) * target as real == d * rest as real
    ensures tap * target as real == c * target as real + d * p as real
  {
    var at := c + d * j as real;
    assert (tap - at) * target as real == d * rest as real;
    assert tap * target as real == at * target as real + d * rest as real;
    Associates(d, j as real, target as real);
    assert p as real == j as real * target as real + rest as real;
  }

  /** Resampling a prefix yields a prefix of the resampled whole. */
  lemma ResampledPrefix(a: seq<real>, b: seq<real>, source: nat, target: nat)
    requires source > 0 && target > 0
    ensures Resampled(a, source, target) <= Resampled(a + b, source, target)
  {
    if |a| > 0 {
      AvailableMonotone(|a|, |a + b|, source, target);
      forall i | 0 <= i < |Resampled(a, source, target)|
        ensures Resampled(a, source, target)[i] == Resampled(a + b, source, target)[i]
      {
        TapStable(a, b, i, source, target);
      }
    }
  }

  lemma ResampledExtend(a: seq<real>, b: seq<real>, source: nat, target: nat)
    requires source > 0 && target > 0
    ensures ResampledLength(|a|, source, target) <= ResampledLength(|a + b|, source, target)
    ensures Resampled(a + b, source, target)
         == Resampled(a, source, target) + Resampled(a + b, source, target)[ResampledLength(|a|, source, target)..]
  {
    hide Resampled, ResampledLength;
    ResampledPrefix(a, b, source, target);
  }

  /** An output whose source position is an input position repeats that input. */
  lemma TapAtInput(input: seq<real>, j: nat, i: nat, source: nat, target: nat)
    requires input != [] && source > 0 && target > 0
    requires j < |input| && i * source == j * target
    ensures i < Available(|input|, source, target)
    ensures Tap(input, i, source, target) == input[j]
  {
    ProductOrder(j, |input| - 1, target);
    AvailableIff(i, |input|, source, target);
    var p := i * source;
    DivBound(p, target, j);
    assert p == p / target * target + p % target;
    BlendAtStart(input[j], input[RightOf(j, |input|)], target);
  }

  lemma ResampledSameRate(input: seq<real>, rate: nat)
    requires rate > 0
    ensures Resampled(input, rate, rate) == input
  {
    if |input| > 0 {
      DivBound((|input| - 1) * rate, rate, |input| - 1);
      forall i | 0 <= i < |input|
        ensures Resampled(input, rate, rate)[i] == input[i]
      {
        TapAtInput(input, i, i, rate, rate);
      }
    }
  }

  /** An output lies between its two neighbours. */
  lemma TapBetween(input: seq<real>, i: nat, source: nat, target: nat)
    requires input != [] && source > 0 && target > 0
    requires i < Available(|input|, source, target)
    ensures i * source / target < |input|
    ensures var left := i * source / target;
            var right := RightOf(left, |input|);
            var tap := Tap(input, i, source, target);
            input[left] <= tap <= input[right] || input[right] <= tap <= input[left]
  {
    LeftNeighbour(i, |input|, source, target);
    var left := i * source / target;
    BlendBetween(input[left], input[RightOf(left, |input|)], i * source % target, target);
  }

  /** Hence resampled audio is valid audio: the final validation of `resample` cannot fail. */
  lemma ResampledInRange(input: seq<real>, source: nat, target: nat)
    requires source > 0 && target > 0 && AllInRange(input)
    ensures AllInRange(Resampled(input, source, target))
  {
    if |input| > 0 {
      forall i | 0 <= i < |Resampled(input, source, target)|
        ensures InRange(Resampled(input, source, target)[i])
      {
        TapBetween(input, i, source, target);
        var left := i * source / target;
        assert InRange(input[left]) && InRange(input[RightOf(left, |input|)]);
      }
    }
  }

  /** The output covers the input exactly: the last output is not past the last input, one more would be. */
  lemma OutputLengthBounds(n: nat, source: nat, target: nat)
    requires n > 0 && source > 0
    ensures var out := Available(n, source, target);
            (out - 1) * source <= (n - 1) * target < out * source
  {
    AvailableIff(Available(n, source, target) - 1, n, source, target);
    AvailableIff(Available(n, source, target), n, source, target);
  }

  /** Going up by an integer factor and back down restores the recording. */
  lemma UpThenDown(input: seq<real>, rate: nat, factor: nat)
    requires rate > 0 && factor > 0
    ensures factor * rate > 0
    ensures Resampled(Resampled(input, rate, factor * rate), factor * rate, rate) == input
  {
    var high := factor * rate;
    assert high > 0 by { ProductOrder(1, factor, rate); }
    if |input| > 0 {
      var n := |input|;
      var up := Resampled(input, rate, high);
      assert (n - 1) * high == (n - 1) * factor * rate;
      DivBound((n - 1) * high, rate, (n - 1) * factor);
      assert |up| == (n - 1) * factor + 1;
      assert (n - 1) * factor * rate == (n - 1) * high;
      DivBound((|up| - 1) * rate, high, n - 1);
      forall j | 0 <= j < n
        ensures Resampled(up, high, rate)[j] == input[j]
      {
        ProductOrder(j, n - 1, factor);
        assert j * high == j * factor * rate;
        TapAtInput(up, j * factor, j, high, rate);
        TapAtInput(input, j, j * factor, rate, high);
      }
    }
  }

  /** What `MonoPcm::resample` returns. */
  function ResampleOutcome(audio: MonoPcm, target: nat): Result<MonoPcm, AudioError>
    requires audio.Valid()
  {
    if !SupportedRate(target) then Failure(UnsupportedRate)
    else if target != audio.rate && TooLarge(|audio.samples|, target) then Failure(ResampleTooLarge)
    else Success(MonoPcm(target, Resampled(audio.samples, audio.rate, target)))
  }

  /** The loop body shared by both conversions; the source's overflow checks on it never fire. */
  method OutputSample(input: seq<real>, i: nat, source: nat, target: nat) returns (sample: real)
    requires input != [] && SupportedRate(source) && SupportedRate(target)
    requires i < Available(|input|, source, target)
    requires !TooLarge(|input|, target)
    ensures sample == Tap(input, i, source, target)
  {
    AvailableIff(i, |input|, source, target);
    LeftNeighbour(i, |input|, source, target);
    var position := i * source;
    assert position <= U64_MAX;
    var left := position / target;
    var remainder := position % target;
    assert remainder < 0x1_0000 && target < 0x1_0000;
    sample := Blend(input[left], input[RightOf(left, |input|)], remainder, target);
  }

  /** `MonoPcm::resample`. */
  method Resample(audio: MonoPcm, target: nat) returns (r: Result<MonoPcm, AudioError>)
    requires audio.Valid()
    ensures r == ResampleOutcome(audio, target)
    ensures r.Success? ==> r.value.Valid()
  {
    if !SupportedRate(target) {
      return Failure(UnsupportedRate);
    }
    if target == audio.rate {
      ResampledSameRate(audio.samples, target);
      return Success(audio);
    }
    if TooLarge(|audio.samples|, target) {
      return Failure(ResampleTooLarge);
    }
    var outputLen := Available(|audio.samples|, audio.rate, target);
    ghost var expected := Resampled(audio.samples, audio.rate, target);
    var output: seq<real> := [];
    for index := 0 to outputLen
      invariant output == expected[..index]
    {
      var sample := OutputSample(audio.samples, index, audio.rate, target);
      SliceSnoc(expected, 0, index);
      output := output + [sample];
    }
    assert output == expected;
    ResampledInRange(audio.samples, audio.rate, target);
    r := MonoPcm.New(target, output);
  }

  /** Resampler for audio that arrives in pieces. */
  class StreamingResampler {
    const source: nat
    const target: nat
    var input: seq<real>
    var nextOutput: nat

    ghost predicate Valid()
      reads this
    {
      && SupportedRate(source)
      && SupportedRate(target)
      && AllInRange(input)
      && nextOutput <= ResampledLength(|input|, source, target)
    }

    /** Every output determined by the input so far has been delivered. */
    ghost predicate CaughtUp()
      requires Valid()
      reads this
    {
      nextOutput == ResampledLength(|input|, source, target)
    }

    constructor (source: nat, target: nat)
      requires SupportedRate(source) && SupportedRate(target)
      ensures Valid() && CaughtUp() && input == []
      ensures this.source == source && this.target == target
    {
      this.source := source;
      this.target := target;
      input := [];
      nextOutput := 0;
    }

    /** Appends one piece and returns precisely the outputs it adds to the resampling of everything so far. */
    method Push(samples: seq<real>) returns (r: Result<seq<real>, AudioError>)
      requires Valid()
      modifies this
      ensures Valid()
      ensures samples == [] || !AllInRange(samples) ==>
                r == Failure(ResamplerInputInvalid) && input == old(input) && nextOutput == old(nextOutput)
      ensures samples != [] && AllInRange(samples) ==> input == old(input) + samples
      ensures samples != [] && AllInRange(samples) && TooLarge(|input|, target) ==>
                r == Failure(ResampleTooLarge)
      ensures samples != [] && AllInRange(samples) && !TooLarge(|input|, target) ==>
                && r.Success?
                && CaughtUp()
                && old(nextOutput) <= nextOutput
                && r.value == Resampled(input, source, target)[old(nextOutput)..]
    {
      if samples == [] || !AllInRange(samples) {
        return Failure(ResamplerInputInvalid);
      }
      ghost var before := |input|;
      input := input + samples;
      LengthMonotone(before, |input|, source, target);
      if TooLarge(|input|, target) {
        return Failure(ResampleTooLarge);
      }
      var output := Drain();
      r := Success(output);
    }

    /** The output loop of `push`. */
    method Drain() returns (output: seq<real>)
      requires Valid() && input != [] && !TooLarge(|input|, target)
      modifies this`nextOutput
      ensures Valid() && CaughtUp()
      ensures old(nextOutput) <= nextOutput
      ensures output == Resampled(input, source, target)[old(nextOutput)..nextOutput]
    {
      hide Available, Tap, TooLarge, AllInRange;
      var available := Available(|input|, source, target);
      ghost var expected := Resampled(input, source, target);
      output := [];
      while nextOutput < available
        invariant old(nextOutput) <= nextOutput <= |expected|
        invariant output == expected[old(nextOutput)..nextOutput]
      {
        var sample := OutputSample(input, nextOutput, source, target);
        SliceSnoc(expected, old(nextOutput), nextOutput);
        output := output + [sample];
        nextOutput := nextOutput + 1;
      }
    }
  }

  /**
   * Streaming in any non-empty pieces delivers the one-shot conversion of the whole recording. The only
   * recordings on which the two differ are equal-rate ones whose length product overflows, where streaming
   * reports an error and the one-shot form returns its input.
   */
  method ResampleInPieces(pieces: seq<seq<real>>, source: nat, target: nat) returns (r: Result<seq<real>, AudioError>)
    requires SupportedRate(source) && SupportedRate(target) && pieces != []
    requires GoodPieces(pieces)
    ensures Flatten(pieces) != [] && AllInRange(Flatten(pieces))
    ensures r.Success? <==> !TooLarge(|Flatten(pieces)|, target)
    ensures r.Success? ==> ResampleOutcome(MonoPcm(source, Flatten(pieces)), target) == Success(MonoPcm(target, r.value))
    ensures r.Failure? ==>
              (ResampleOutcome(MonoPcm(source, Flatten(pieces)), target) == Failure(r.error) <==> source != target)
  {
    hide Available, Tap, TooLarge, Flatten, SupportedRate;
    SupportedRateRange(source);
    SupportedRateRange(target);
    GoodPiecesFlatten(pieces);
    FlattenNil<real>([]);
    var resampler := new StreamingResampler(source, target);
    var output: seq<real> := [];
    for i := 0 to |pieces|
      invariant resampler.Valid() && resampler.CaughtUp()
      invariant resampler.source == source && resampler.target == target
      invariant resampler.input == Flatten(pieces[..i])
      invariant output == Resampled(resampler.input, source, target)
      invariant fresh(resampler)
      invariant i > 0 ==> resampler.input != [] && !TooLarge(|resampler.input|, target)
    {
      FlattenPrefix(pieces, i + 1);
      FlattenSnoc(pieces[..i], pieces[i]);
      assert pieces[..i + 1] == pieces[..i] + [pieces[i]];
      ghost var before := resampler.input;
      ResampledExtend(before, pieces[i], source, target);
      var piece := resampler.Push(pieces[i]);
      if piece.Failure? {
        TooLargeMonotone(|resampler.input|, |Flatten(pieces)|, target);
        return Failure(piece.error);
      }
      output := output + piece.value;
    }
    assert pieces[..|pieces|] == pieces;
    r := Success(output);
  }

  /**
   * A recording on which the two differ: silence at 8 kHz, a few samples more than 64 bits can count in samples times
   * rate. No machine could hold it, so the exception is one of the arithmetic only.
   */
  lemma EqualRatesDiffer()
    ensures var silence := seq(U64_MAX / 8000 + 2, _ => 0.0);
            && MonoPcm(8000, silence).Valid()
            && ResampleOutcome(MonoPcm(8000, silence), 8000) == Success(MonoPcm(8000, silence))
            && TooLarge(|silence|, 8000) && !TooLarge(|silence| - 1, 8000)
  {
    var silence := seq(U64_MAX / 8000 + 2, _ => 0.0);
    ResampledSameRate(silence, 8000);
  }

  predicate GoodPieces(pieces: seq<seq<real>>) {
    forall i :: 0 <= i < |pieces| ==> |pieces[i]| > 0 && AllInRange(pieces[i])
  }

  lemma {:induction false} GoodPiecesFlatten(pieces: seq<seq<real>>)
    requires GoodPieces(pieces)
    ensures AllInRange(Flatten(pieces))
    ensures |Flatten(pieces)| >= |pieces|
  {
    if |pieces| > 0 {
      GoodPiecesFlatten(pieces[..|pieces| - 1]);
    }
  }

  lemma FlattenPrefix<T>(pieces: seq<seq<T>>, k: nat)
    requires k <= |pieces|
    ensures Flatten(pieces[..k]) <= Flatten(pieces)
  {
    hide Flatten;
    assert pieces[..k] + pieces[k..] == pieces;
    FlattenAppend(pieces[..k], pieces[k..]);
  }

  lemma TooLargeMonotone(n: nat, m: nat, target: nat)
    requires 0 < n <= m
    ensures TooLarge(n, target) ==> TooLarge(m, target)
  {
    ProductOrder(n - 1, m - 1, target);
  }
}
