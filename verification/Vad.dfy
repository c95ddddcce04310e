/** Energy voice-activity detection, specified by the frames heard since the last reset. */
module Vad {
  import opened Prelude
  import opened Pcm

  type Frame = seq<real>

  datatype VadEvent = NoTransition | Started | Ended

  datatype VadConfig = VadConfig(rmsThreshold: real, minSpeechMs: nat, trailingSilenceMs: nat, maxUtteranceMs: nat)

  function SumOfSquares(samples: Frame): real {
    if |samples| == 0 then 0.0
    else SumOfSquares(samples[..|samples| - 1]) + samples[|samples| - 1] * samples[|samples| - 1]
  }

  function TotalSamples(frames: seq<Frame>): nat {
    if |frames| == 0 then 0 else TotalSamples(frames[..|frames| - 1]) + |frames[|frames| - 1]|
  }

  lemma {:induction false} TotalSamplesAppend(a: seq<Frame>, b: seq<Frame>)
    ensures TotalSamples(a + b) == TotalSamples(a) + TotalSamples(b)
  {
    if |b| == 0 {
      assert a + b == a;
    } else {
      assert (a + b)[..|a + b| - 1] == a + b[..|b| - 1];
      TotalSamplesAppend(a, b[..|b| - 1]);
    }
  }

  // ---- Energy

  lemma {:induction false} EnergyAdds(a: Frame, b: Frame)
    ensures SumOfSquares(a + b) == SumOfSquares(a) + SumOfSquares(b)
  {
    if |b| == 0 {
      assert a + b == a;
    } else {
      assert (a + b)[..|a + b| - 1] == a + b[..|b| - 1];
      EnergyAdds(a, b[..|b| - 1]);
    }
  }

  lemma {:induction false} EnergyOfLevel(frame: Frame, level: real)
    requires forall i :: 0 <= i < |frame| ==> frame[i] == level || frame[i] == -level
    ensures SumOfSquares(frame) == |frame| as real * (level * level)
  {
    if |frame| > 0 {
      EnergyOfLevel(frame[..|frame| - 1], level);
    }
  }

  function Magnitude(sample: real): real {
    if sample < 0.0 then -sample else sample
  }

  lemma SquareOrder(a: real, b: real)
    requires 0.0 <= a <= b
    ensures a * a <= b * b
    ensures a < b ==> b * b - a * a > 0.0
  {
    var difference, sum := b - a, b + a;
    ProductSigned(difference, sum);
    assert difference * sum == b * b - a * a;
    if a < b {
      ProductPositive(difference, sum);
    }
  }

  lemma SquareOfMagnitude(sample: real)
    ensures Magnitude(sample) * Magnitude(sample) == sample * sample
  {
  }

  lemma {:induction false} EnergyAtLeast(frame: Frame, level: real)
    requires level >= 0.0 && forall i :: 0 <= i < |frame| ==> Magnitude(frame[i]) >= level
    ensures SumOfSquares(frame) >= (level * level) * |frame| as real
  {
    hide Magnitude;
    if |frame| > 0 {
      var last := frame[|frame| - 1];
      EnergyAtLeast(frame[..|frame| - 1], level);
      SquareOrder(level, Magnitude(last));
      SquareOfMagnitude(last);
      OneMore(level * level, |frame| - 1);
    }
  }

  lemma {:induction false} EnergyBelow(frame: Frame, level: real)
    requires frame != [] && forall i :: 0 <= i < |frame| ==> Magnitude(frame[i]) < level
    ensures SumOfSquares(frame) < (level * level) * |frame| as real
  {
    hide Magnitude;
    var last := frame[|frame| - 1];
    assert Magnitude(last) >= 0.0 by {
      IsMagnitude(last);
    }
    SquareOrder(Magnitude(last), level);
    SquareOfMagnitude(last);
    OneMore(level * level, |frame| - 1);
    if |frame| > 1 {
      EnergyBelow(frame[..|frame| - 1], level);
    }
  }

  lemma IsMagnitude(sample: real)
    ensures Magnitude(sample) >= 0.0
  {
  }

  lemma OneMore(x: real, n: nat)
    ensures x * (n + 1) as real == x * n as real + x
  {
  }

  lemma QuotientOrder(sum: real, n: real, x: real)
    requires n > 0.0
    ensures sum / n >= x <==> sum >= x * n
  {
    var quotient := sum / n;
    assert quotient * n == sum;
    if quotient >= x {
      ProductSigned(quotient - x, n);
      assert (quotient - x) * n == sum - x * n;
    } else {
      ProductPositive(x - quotient, n);
      assert (x - quotient) * n == x * n - sum;
    }
  }

  lemma ProductSigned(a: real, b: real)
    requires a >= 0.0 && b >= 0.0
    ensures a * b >= 0.0
  {
  }

  lemma ProductPositive(a: real, b: real)
    requires a > 0.0 && b > 0.0
    ensures a * b > 0.0
  {
  }

  function Max(a: int, b: int): int {
    if a < b then b else a
  }

  /** A configuration at a sample rate, and what it means for a sequence of frames. */
  datatype Tuning = Tuning(config: VadConfig, rate: nat) {
    predicate Valid() {
      && SupportedRate(rate)
      && 0.0 <= config.rmsThreshold <= 1.0
      && 0 < config.minSpeechMs <= config.maxUtteranceMs <= U32_MAX
      && 0 < config.trailingSilenceMs <= U32_MAX
    }

    /** `samples_for`; the product of a rate and a `u32` never saturates. */
    function SamplesFor(ms: nat): nat {
      rate * ms / 1000
    }

    function MinSamples(): nat { SamplesFor(config.minSpeechMs) }

    function TrailingSamples(): nat { SamplesFor(config.trailingSilenceMs) }

    function MaxSamples(): nat { SamplesFor(config.maxUtteranceMs) }

    lemma Thresholds()
      requires Valid()
      ensures 0 < MinSamples() <= MaxSamples() <= U64_MAX
      ensures 0 < TrailingSamples() <= U64_MAX
    {
      SupportedRateRange(rate);
      Scale(1, config.minSpeechMs);
      Scale(1, config.trailingSilenceMs);
      Scale(config.minSpeechMs, config.maxUtteranceMs);
      Scale(config.maxUtteranceMs, U32_MAX);
      Scale(config.trailingSilenceMs, U32_MAX);
      assert rate * U32_MAX <= 48000 * U32_MAX;
    }

    lemma Scale(a: nat, b: nat)
      requires a <= b
      ensures rate * a <= rate * b && SamplesFor(a) <= SamplesFor(b)
    {
    }

    /** The root mean square reaches the threshold; over the reals both sides may be squared. */
    predicate Voiced(frame: Frame)
      requires frame != []
    {
      SumOfSquares(frame) / |frame| as real >= config.rmsThreshold * config.rmsThreshold
    }

    predicate Frames(h: seq<Frame>) {
      forall i :: 0 <= i < |h| ==> |h[i]| > 0
    }

    /** Samples in the run of voiced frames that ends the history. */
    function VoicedRun(h: seq<Frame>): nat
      requires Frames(h)
    {
      if |h| == 0 || !Voiced(h[|h| - 1]) then 0 else VoicedRun(h[..|h| - 1]) + |h[|h| - 1]|
    }

    /** Samples in the run of unvoiced frames that ends the history. */
    function UnvoicedRun(h: seq<Frame>): nat
      requires Frames(h)
    {
      if |h| == 0 || Voiced(h[|h| - 1]) then 0 else UnvoicedRun(h[..|h| - 1]) + |h[|h| - 1]|
    }

    /** How many frames had been heard when speech first lasted long enough to open an utterance. */
    function Onset(h: seq<Frame>): (k: Option<nat>)
      requires Frames(h)
      ensures k.Some? ==> 0 < k.value <= |h|
    {
      if |h| == 0 then None
      else
        var before := Onset(h[..|h| - 1]);
        if before.Some? then before
        else if VoicedRun(h) >= MinSamples() then Some(|h|)
        else None
    }

    /** The voiced run that opened the utterance and everything since. */
    function UtteranceLength(h: seq<Frame>): nat
      requires Frames(h) && Onset(h).Some?
    {
      var k := Onset(h).value;
      VoicedRun(h[..k]) + TotalSamples(h[k..])
    }

    /** The last frame of the history closes the utterance that is open in it. */
    predicate Closes(h: seq<Frame>)
      requires Frames(h)
    {
      && Onset(h).Some?
      && Onset(h).value < |h|
      && (UnvoicedRun(h) >= TrailingSamples() || UtteranceLength(h) >= MaxSamples())
    }

    /** The transition reported for the last frame of the history. */
    function EventOf(h: seq<Frame>): VadEvent
      requires Frames(h) && h != []
    {
      if Closes(h) then Ended
      else if Onset(h) == Some(|h|) then Started
      else NoTransition
    }

    /** The frames heard since the last closed utterance. */
    function SinceReset(frames: seq<Frame>): (h: seq<Frame>)
      requires Frames(frames)
      ensures Frames(h)
    {
      if |frames| == 0 then []
      else
        var h := SinceReset(frames[..|frames| - 1]) + [frames[|frames| - 1]];
        if Closes(h) then [] else h
    }

    // ---- What the threshold means

    /** A frame that is nowhere below the threshold is voiced, and one that is below it everywhere is not. */
    lemma LoudIsVoiced(frame: Frame)
      requires frame != [] && config.rmsThreshold >= 0.0
      ensures (forall i :: 0 <= i < |frame| ==> Magnitude(frame[i]) >= config.rmsThreshold) ==> Voiced(frame)
      ensures (forall i :: 0 <= i < |frame| ==> Magnitude(frame[i]) < config.rmsThreshold) ==> !Voiced(frame)
    {
      hide SumOfSquares, Magnitude;
      var threshold := config.rmsThreshold;
      QuotientOrder(SumOfSquares(frame), |frame| as real, threshold * threshold);
      if forall i :: 0 <= i < |frame| ==> Magnitude(frame[i]) >= threshold {
        EnergyAtLeast(frame, threshold);
      }
      if forall i :: 0 <= i < |frame| ==> Magnitude(frame[i]) < threshold {
        EnergyBelow(frame, threshold);
      }
    }

    /** It is the energy of the frame that counts: a burst is voiced exactly if it is as strong as it is short. */
    lemma BurstIsVoiced(burst: Frame, rest: Frame, level: real)
      requires burst + rest != []
      requires forall i :: 0 <= i < |burst| ==> burst[i] == level || burst[i] == -level
      requires forall i :: 0 <= i < |rest| ==> rest[i] == 0.0
      ensures Voiced(burst + rest) <==>
                |burst| as real * (level * level)
                >= (config.rmsThreshold * config.rmsThreshold) * (|burst| + |rest|) as real
    {
      hide SumOfSquares;
      EnergyAdds(burst, rest);
      EnergyOfLevel(burst, level);
      EnergyOfLevel(rest, 0.0);
      QuotientOrder(SumOfSquares(burst + rest), |burst + rest| as real, config.rmsThreshold * config.rmsThreshold);
    }

    // ---- What the configuration's durations mean

    /** Reaching the sample count of a duration, told from the duration. */
    lemma Reaches(samples: nat, ms: nat)
      ensures samples >= SamplesFor(ms) <==> (samples + 1) * 1000 > rate * ms
    {
      var p := rate * ms;
      DivIs(p, 1000);
      assert samples >= p / 1000 + 1 ==> samples * 1000 >= (p / 1000 + 1) * 1000;
    }

    /** So many samples last at least so many milliseconds, short of less than one sample. */
    predicate Lasts(samples: nat, ms: nat) {
      (samples + 1) * 1000 > rate * ms
    }

    predicate AllVoiced(frames: seq<Frame>) {
      forall i :: 0 <= i < |frames| ==> frames[i] != [] && Voiced(frames[i])
    }

    predicate AllUnvoiced(frames: seq<Frame>) {
      forall i :: 0 <= i < |frames| ==> frames[i] != [] && !Voiced(frames[i])
    }

    /** Runs are what their names say: they are as long as the frames of one kind at the end. */
    lemma {:induction false} RunsAtEnd(before: seq<Frame>, run: seq<Frame>)
      requires Frames(before)
      ensures AllVoiced(run) ==> Frames(before + run)
      ensures AllUnvoiced(run) ==> Frames(before + run)
      ensures AllVoiced(run) ==> VoicedRun(before + run) == VoicedRun(before) + TotalSamples(run)
      ensures AllUnvoiced(run) ==> UnvoicedRun(before + run) == UnvoicedRun(before) + TotalSamples(run)
      ensures AllVoiced(run) && run != [] ==> UnvoicedRun(before + run) == 0
      ensures AllUnvoiced(run) && run != [] ==> VoicedRun(before + run) == 0
    {
      hide Voiced;
      if run == [] {
        assert before + run == before;
      } else {
        var init := run[..|run| - 1];
        RunsAtEnd(before, init);
        assert (before + run)[..|before + run| - 1] == before + init;
      }
    }

    /** Speech opens an utterance exactly if it lasts `min_speech_ms`. */
    lemma {:induction false} SpeechOpens(speech: seq<Frame>)
      requires Valid() && AllVoiced(speech)
      ensures Frames(speech) && (Onset(speech).Some? <==> Lasts(TotalSamples(speech), config.minSpeechMs))
    {
      hide Voiced, SamplesFor;
      Thresholds();
      Reaches(TotalSamples(speech), config.minSpeechMs);
      RunsAtEnd([], speech);
      assert [] + speech == speech;
      if speech != [] {
        SpeechOpens(speech[..|speech| - 1]);
        Reaches(TotalSamples(speech[..|speech| - 1]), config.minSpeechMs);
      }
    }

    /**
     * Speech that has opened an utterance, and then silence: the utterance is closed exactly when the silence has lasted
     * `trailing_silence_ms`, or speech and silence together `max_utterance_ms`.
     */
    lemma SpeechThenSilence(speech: seq<Frame>, silence: seq<Frame>)
      requires Valid() && AllVoiced(speech) && AllUnvoiced(silence) && silence != []
      requires Lasts(TotalSamples(speech), config.minSpeechMs)
      ensures Frames(speech + silence)
      ensures Closes(speech + silence) <==>
                || Lasts(TotalSamples(silence), config.trailingSilenceMs)
                || Lasts(TotalSamples(speech) + TotalSamples(silence), config.maxUtteranceMs)
    {
      hide Voiced, SamplesFor;
      SpeechOpens(speech);
      RunsAtEnd([], speech);
      RunsAtEnd(speech, silence);
      assert [] + speech == speech;
      if speech != [] {
        UnvoicedRunIsZero(speech);
      }
      SpeechIsUtterance(speech);
      OpenExtendsBy(speech, silence);
      Reaches(TotalSamples(silence), config.trailingSilenceMs);
      Reaches(TotalSamples(speech) + TotalSamples(silence), config.maxUtteranceMs);
    }

    lemma VoicedOnly(speech: seq<Frame>)
      requires AllVoiced(speech)
      ensures Frames(speech) && VoicedRun(speech) == TotalSamples(speech)
    {
      hide Voiced;
      RunsAtEnd([], speech);
      assert [] + speech == speech;
    }

    lemma UnvoicedRunIsZero(speech: seq<Frame>)
      requires AllVoiced(speech) && speech != []
      ensures Frames(speech) && UnvoicedRun(speech) == 0
    {
    }

    /** An utterance of nothing but speech has counted all of it, from before it was opened. */
    lemma SpeechIsUtterance(speech: seq<Frame>)
      requires AllVoiced(speech) && Frames(speech) && Onset(speech).Some?
      ensures UtteranceLength(speech) == TotalSamples(speech)
    {
      hide Voiced, Onset, VoicedRun, TotalSamples;
      var k := Onset(speech).value;
      VoicedOnly(speech[..k]);
      assert speech[..k] + speech[k..] == speech;
      TotalSamplesAppend(speech[..k], speech[k..]);
    }

    /** Speech without a pause is closed, once open, exactly when it has lasted `max_utterance_ms`. */
    lemma SpeechWithoutPause(speech: seq<Frame>, last: Frame)
      requires Valid() && AllVoiced(speech) && last != [] && Voiced(last)
      requires Lasts(TotalSamples(speech), config.minSpeechMs)
      ensures Frames(speech + [last])
      ensures Closes(speech + [last]) <==> Lasts(TotalSamples(speech) + |last|, config.maxUtteranceMs)
    {
      hide Voiced, SamplesFor;
      SpeechOpens(speech);
      SpeechIsUtterance(speech);
      NextFrame(speech, last);
      Thresholds();
      Reaches(TotalSamples(speech) + |last|, config.maxUtteranceMs);
    }

    /** One more frame of any history, in the durations of the configuration. */
    lemma NextFrameLasts(h: seq<Frame>, frame: Frame)
      requires Frames(h) && frame != []
      ensures Frames(h + [frame])
      ensures var g := h + [frame];
              && (Onset(h).Some? ==>
                    (Closes(g) <==>
                       || Lasts(UnvoicedRun(g), config.trailingSilenceMs)
                       || Lasts(UtteranceLength(g), config.maxUtteranceMs)))
              && (Onset(h).None? ==> !Closes(g) && (Onset(g).Some? <==> Lasts(VoicedRun(g), config.minSpeechMs)))
    {
      hide Voiced, SamplesFor;
      NextFrame(h, frame);
      var g := h + [frame];
      Reaches(UnvoicedRun(g), config.trailingSilenceMs);
      Reaches(VoicedRun(g), config.minSpeechMs);
      if Onset(h).Some? {
        Reaches(UtteranceLength(g), config.maxUtteranceMs);
      }
    }

    /** The transition reported for each frame. */
    function Events(frames: seq<Frame>): (events: seq<VadEvent>)
      requires Frames(frames)
      ensures |events| == |frames|
    {
      if |frames| == 0 then []
      else
        var init := frames[..|frames| - 1];
        Events(init) + [EventOf(SinceReset(init) + [frames[|frames| - 1]])]
    }

    /** Whether an utterance is open after these frames. */
    predicate Open(frames: seq<Frame>)
      requires Frames(frames)
    {
      Onset(SinceReset(frames)).Some?
    }

    /** The onset is the earliest prefix whose voiced run is long enough; without one, no prefix is. */
    lemma {:induction false} OnsetIsEarliest(h: seq<Frame>)
      requires Valid() && Frames(h)
      ensures Onset(h).Some? ==> VoicedRun(h[..Onset(h).value]) >= MinSamples()
      ensures forall j :: 0 <= j < (if Onset(h).Some? then Onset(h).value else |h| + 1) ==>
                VoicedRun(h[..j]) < MinSamples()
    {
      Thresholds();
      assert h[..|h|] == h;
      if |h| > 0 {
        var init := h[..|h| - 1];
        OnsetIsEarliest(init);
        forall j | 0 <= j <= |init|
          ensures init[..j] == h[..j]
        {
        }
      }
    }

    /** Appending a frame to an open history keeps the onset and extends the utterance by that frame. */
    lemma OpenExtends(h: seq<Frame>, frame: Frame)
      requires Frames(h) && frame != [] && Onset(h).Some?
      ensures Frames(h + [frame]) && Onset(h + [frame]) == Onset(h)
      ensures UtteranceLength(h + [frame]) == UtteranceLength(h) + |frame|
    {
      var k := Onset(h).value;
      var g := h + [frame];
      assert g[..|g| - 1] == h;
      assert g[..k] == h[..k];
      assert g[k..] == h[k..] + [frame];
      assert g[k..][..|g[k..]| - 1] == h[k..];
    }

    /** How one more frame moves each quantity of the history. */
    lemma NextFrame(h: seq<Frame>, frame: Frame)
      requires Frames(h) && |frame| > 0
      ensures Frames(h + [frame])
      ensures var g := h + [frame];
              && VoicedRun(g) == (if Voiced(frame) then VoicedRun(h) + |frame| else 0)
              && UnvoicedRun(g) == (if Voiced(frame) then 0 else UnvoicedRun(h) + |frame|)
              && Onset(g) == (if Onset(h).Some? then Onset(h)
                              else if VoicedRun(g) >= MinSamples() then Some(|g|) else None)
              && (Onset(g).Some? ==>
                    UtteranceLength(g) == if Onset(h).Some? then UtteranceLength(h) + |frame| else VoicedRun(g))
              && (Onset(h).None? ==> !Closes(g))
              && (Onset(h).Some? ==>
                    (Closes(g) <==> UnvoicedRun(g) >= TrailingSamples() || UtteranceLength(g) >= MaxSamples()))
    {
      var g := h + [frame];
      assert g[..|g| - 1] == h;
      if Onset(h).Some? {
        OpenExtends(h, frame);
      } else {
        assert g[|g|..] == [] && g[..|g|] == g;
      }
    }

    /** An utterance that opens on this frame opens with a voiced one. */
    lemma OpensVoiced(h: seq<Frame>, frame: Frame)
      requires Valid() && Frames(h) && |frame| > 0 && Onset(h).None?
      ensures Frames(h + [frame])
      ensures Onset(h + [frame]).Some? ==> UnvoicedRun(h + [frame]) == 0
    {
      Thresholds();
      NextFrame(h, frame);
    }

    lemma {:induction false} OpenExtendsBy(h: seq<Frame>, more: seq<Frame>)
      requires Frames(h) && Frames(more) && Onset(h).Some?
      ensures Frames(h + more) && Onset(h + more) == Onset(h)
      ensures UtteranceLength(h + more) == UtteranceLength(h) + TotalSamples(more)
    {
      hide VoicedRun, Onset, UtteranceLength, Voiced;
      if |more| == 0 {
        assert h + more == h;
      } else {
        var init := more[..|more| - 1];
        OpenExtendsBy(h, init);
        OpenExtends(h + init, more[|more| - 1]);
        assert h + init + [more[|more| - 1]] == h + more;
      }
    }

    /** An open history is closed by the time `max_utterance_ms` more audio has been added to it. */
    lemma OpenHistoryCloses(h: seq<Frame>, more: seq<Frame>)
      requires Valid() && Frames(h) && Frames(more) && Onset(h).Some?
      requires TotalSamples(more) >= MaxSamples()
      ensures Closes(h + more)
    {
      Thresholds();
      OpenExtendsBy(h, more);
      assert more != [];
    }

    /** The last frame ends an utterance. */
    predicate EndsWith(frames: seq<Frame>) {
      Frames(frames) && |frames| > 0 && Events(frames)[|frames| - 1] == Ended
    }

    /** Without an Ended, the history since the last reset just grows. */
    lemma {:induction false} NotEnded(frames: seq<Frame>, more: seq<Frame>)
      requires Frames(frames) && Frames(more)
      requires forall k :: 0 < k <= |more| ==> !EndsWith(frames + more[..k])
      ensures SinceReset(frames + more) == SinceReset(frames) + more
    {
      hide Onset, UtteranceLength, Voiced, VoicedRun, UnvoicedRun, Closes, SinceReset, Events;
      if |more| == 0 {
        assert frames + more == frames;
      } else {
        var init, last := more[..|more| - 1], more[|more| - 1];
        forall k | 0 < k <= |init|
          ensures !EndsWith(frames + init[..k])
        {
          assert init[..k] == more[..k];
        }
        NotEnded(frames, init);
        assert frames + init + [last] == frames + more && more[..|more|] == more;
        EventsSnoc(frames + init, last);
        assert !EndsWith(frames + more);
      }
    }

    /** Unless an utterance has ended before, the frame that closes the grown history ends it. */
    lemma EndsAtLast(frames: seq<Frame>, init: seq<Frame>, last: Frame)
      requires Frames(frames) && Frames(init) && |last| > 0 && Frames(SinceReset(frames) + init + [last])
      requires forall k :: 0 < k <= |init| ==> !EndsWith(frames + init[..k])
      requires Closes(SinceReset(frames) + init + [last])
      ensures EndsWith(frames + init + [last])
    {
      hide Onset, UtteranceLength, Voiced, VoicedRun, UnvoicedRun, Closes, SinceReset, Events;
      NotEnded(frames, init);
      EventsSnoc(frames + init, last);
    }

    /**
     * Over any run: an utterance that is open is ended by the time `max_utterance_ms` more audio has arrived, at the
     * end of some prefix of that audio.
     */
    lemma OpenUtteranceIsBounded(frames: seq<Frame>, more: seq<Frame>)
      requires Valid() && Frames(frames) && Frames(more) && Open(frames)
      requires TotalSamples(more) >= MaxSamples()
      ensures exists k :: 0 < k <= |more| && EndsWith(frames + more[..k])
    {
      hide Onset, UtteranceLength, Voiced, VoicedRun, UnvoicedRun, Closes, SinceReset, Events, EndsWith, MaxSamples;
      MoreIsSome(more);
      OpenHistoryCloses(SinceReset(frames), more);
      var init, last := more[..|more| - 1], more[|more| - 1];
      assert forall k :: 0 < k <= |init| ==> init[..k] == more[..k];
      assert SinceReset(frames) + init + [last] == SinceReset(frames) + more;
      assert frames + init + [last] == frames + more[..|more|];
      if forall k :: 0 < k <= |init| ==> !EndsWith(frames + init[..k]) {
        EndsAtLast(frames, init, last);
      }
    }

    lemma MoreIsSome(more: seq<Frame>)
      requires Valid() && TotalSamples(more) >= MaxSamples()
      ensures |more| > 0
    {
      Thresholds();
    }

    /** No history since a reset closes: closing is what resets. */
    lemma {:induction false} SinceResetDoesNotClose(frames: seq<Frame>)
      requires Frames(frames)
      ensures !Closes(SinceReset(frames))
    {
    }

    /** With frames of at most `size` samples, a closed utterance has a hard upper bound. */
    lemma ClosedUtteranceIsBounded(frames: seq<Frame>, frame: Frame, size: nat)
      requires Valid() && Frames(frames) && frame != [] && |frame| <= size
      requires forall i :: 0 <= i < |frames| ==> |frames[i]| <= size
      requires Closes(SinceReset(frames) + [frame])
      ensures UtteranceLength(SinceReset(frames) + [frame]) <= Max(MinSamples() - 1 + size, MaxSamples() - 1) + size
    {
      Thresholds();
      var h := SinceReset(frames);
      var g := h + [frame];
      assert g[..|g| - 1] == h;
      assert Onset(h).Some?;
      OpenExtends(h, frame);
      SinceResetDoesNotClose(frames);
      var k := Onset(h).value;
      if k == |h| {
        OnsetRunIsShort(frames, size);
        assert h[k..] == [] && h[..k] == h;
      }
    }

    /** A history that has only just opened holds at most one frame more than the minimum. */
    lemma {:induction false} OnsetRunIsShort(frames: seq<Frame>, size: nat)
      requires Valid() && Frames(frames)
      requires forall i :: 0 <= i < |frames| ==> |frames[i]| <= size
      requires Onset(SinceReset(frames)) == Some(|SinceReset(frames)|)
      ensures VoicedRun(SinceReset(frames)) <= MinSamples() - 1 + size
    {
      Thresholds();
      var init := frames[..|frames| - 1];
      var last := frames[|frames| - 1];
      var h := SinceReset(init) + [last];
      assert SinceReset(frames) == h;
      assert h[..|h| - 1] == SinceReset(init);
      OnsetIsEarliest(h);
      assert VoicedRun(h[..|h| - 1]) < MinSamples();
    }

    lemma EventsSnoc(init: seq<Frame>, last: Frame)
      requires Frames(init) && |last| > 0
      ensures Frames(init + [last]) && Frames(SinceReset(init) + [last])
      ensures var h := SinceReset(init) + [last];
              && SinceReset(init + [last]) == (if Closes(h) then [] else h)
              && Events(init + [last]) == Events(init) + [EventOf(h)]
    {
      assert (init + [last])[..|init|] == init;
    }

    lemma OnsetWithin(h: seq<Frame>)
      requires Frames(h)
      ensures Onset(h).Some? ==> Onset(h).value <= |h|
    {
    }

    /** Started and Ended alternate strictly, beginning with Started, and tell whether an utterance is open. */
    lemma {:induction false} EventsAlternate(frames: seq<Frame>)
      requires Valid() && Frames(frames)
      ensures Alternates(Events(frames), Open(frames))
    {
      hide VoicedRun, UnvoicedRun, Onset, Closes, UtteranceLength, Voiced, SinceReset, Events, Valid, SamplesFor, Alternates;
      AlternatesNothing();
      if |frames| == 0 {
        NoEvents();
        assert frames == [];
      } else {
        var init, last := frames[..|frames| - 1], frames[|frames| - 1];
        assert init + [last] == frames;
        EventsAlternate(init);
        EventsSnoc(init, last);
        NextFrame(SinceReset(init), last);
        OnsetWithin(SinceReset(init));
        AlternatesSnoc(Events(init), EventOf(SinceReset(init) + [last]));
      }
    }

    lemma NoEvents()
      ensures Events([]) == [] && SinceReset([]) == [] && Onset([]).None?
    {
    }
  }

  lemma AlternatesNothing()
    ensures Alternates([], false)
  {
  }

  lemma AlternatesSnoc(events: seq<VadEvent>, last: VadEvent)
    ensures Alternates(events + [last], false) ==
              match last case NoTransition => Alternates(events, false) case Started => false case Ended => Alternates(events, true)
    ensures Alternates(events + [last], true) ==
              match last case NoTransition => Alternates(events, true) case Started => Alternates(events, false) case Ended => false
  {
    assert (events + [last])[..|events|] == events;
  }

  /** Every Started is answered by an Ended before the next, and the last one is unanswered iff `open`. */
  predicate Alternates(events: seq<VadEvent>, open: bool) {
    if |events| == 0 then !open
    else
      var init := events[..|events| - 1];
      match events[|events| - 1]
      case NoTransition => Alternates(init, open)
      case Started => open && Alternates(init, false)
      case Ended => !open && Alternates(init, true)
  }

  function Sat(n: nat): nat {
    if n > U64_MAX then U64_MAX else n
  }

  /** The energy detector: four counters that refine the history of frames. */
  class EnergyVad {
    const tuning: Tuning
    var speechRun: nat
    var silenceRun: nat
    var utteranceSamples: nat
    var active: bool
    // The frames processed since the last reset.
    ghost var heard: seq<Frame>

    ghost predicate Valid()
      reads this
    {
      && tuning.Valid()
      && tuning.Frames(heard)
      && active == tuning.Onset(heard).Some?
      && speechRun == Sat(tuning.VoicedRun(heard))
      && silenceRun == (if active then Sat(tuning.UnvoicedRun(heard)) else 0)
      && utteranceSamples == (if active then Sat(tuning.UtteranceLength(heard)) else 0)
    }

    constructor (tuning: Tuning)
      requires tuning.Valid()
      ensures Valid() && heard == [] && this.tuning == tuning
    {
      this.tuning := tuning;
      speechRun, silenceRun, utteranceSamples, active := 0, 0, 0, false;
      heard := [];
    }

    /** Processes one frame: the transition is the one the history of frames calls for. */
    method Process(samples: Frame) returns (r: Result<VadEvent, AudioError>)
      requires Valid()
      modifies this
      ensures Valid()
      ensures samples == [] || |samples| > U32_MAX ==> r == Failure(VadFrameInvalid) && heard == old(heard)
      ensures samples != [] && |samples| <= U32_MAX ==>
                && tuning.Frames(old(heard) + [samples])
                && r == Success(tuning.EventOf(old(heard) + [samples]))
                && heard == (if r.value == Ended then [] else old(heard) + [samples])
    {
      hide Tuning.VoicedRun, Tuning.UnvoicedRun, Tuning.Onset, Tuning.UtteranceLength, Tuning.Voiced, Tuning.Closes,
           Tuning.SamplesFor;
      if samples == [] || |samples| > U32_MAX {
        return Failure(VadFrameInvalid);
      }
      tuning.Thresholds();
      tuning.NextFrame(heard, samples);
      if !active {
        tuning.OpensVoiced(heard, samples);
      }
      heard := heard + [samples];

      var voiced := IsVoiced(samples);
      if voiced {
        speechRun := SatAdd(speechRun, |samples|);
        silenceRun := 0;
      } else {
        speechRun := 0;
        if active {
          silenceRun := SatAdd(silenceRun, |samples|);
        }
      }
      if active {
        utteranceSamples := SatAdd(utteranceSamples, |samples|);
        if silenceRun >= tuning.TrailingSamples() || utteranceSamples >= tuning.MaxSamples() {
          Reset();
          return Success(Ended);
        }
      } else if speechRun >= tuning.MinSamples() {
        active := true;
        utteranceSamples := speechRun;
        return Success(Started);
      }
      r := Success(NoTransition);
    }

    /** The energy computation of `process`. */
    method IsVoiced(samples: Frame) returns (voiced: bool)
      requires |samples| > 0
      ensures voiced == tuning.Voiced(samples)
    {
      var energy := 0.0;
      for i := 0 to |samples|
        invariant energy == SumOfSquares(samples[..i])
      {
        assert samples[..i + 1][..i] == samples[..i];
        energy := energy + samples[i] * samples[i];
      }
      assert samples[..|samples|] == samples;
      var mean := energy / |samples| as real;
      voiced := mean >= tuning.config.rmsThreshold * tuning.config.rmsThreshold;
    }

    method Reset()
      requires tuning.Valid()
      modifies this
      ensures Valid() && heard == []
    {
      speechRun, silenceRun, utteranceSamples, active := 0, 0, 0, false;
      heard := [];
    }
  }
}
