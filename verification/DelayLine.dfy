/** The encoder's delay buffer: the samples that came before the current frame. */
module DelayLine {
  import opened Wrappers
  import opened OpusEncoder
  import opened Streams

  /** What the longer of the two updates leaves: part of the old buffer, and the new samples. */
  lemma PartlyNew(n: nat, stream: seq<real>, t: nat, frame: seq<real>)
    requires t <= n && t + |frame| <= n
    ensures Last(n, stream)[|frame|..n - t] + (Last(t, stream) + frame) == Last(n, stream + frame)
  {
    LastOfLast(t, n, stream);
    LastOn(n, stream, frame);
    assert Last(n, stream)[|frame|..] == Last(n, stream)[|frame|..n - t] + Last(n, stream)[n - t..];
  }

  /** What the shorter one leaves: new samples only. */
  lemma AllNew(n: nat, stream: seq<real>, t: nat, frame: seq<real>)
    requires t <= n <= t + |frame|
    ensures (Last(t, stream) + frame)[t + |frame| - n..] == Last(n, stream + frame)
  {
    LastOfLast(t, n, stream);
    LastOn(n, stream, frame);
    if |frame| <= n {
      assert Last(n, stream)[|frame|..] == Last(t, stream)[t + |frame| - n..];
    } else {
      assert (Last(t, stream) + frame)[t + |frame| - n..] == frame[|frame| - n..];
    }
  }

  /** The first `n` samples of the buffer are the end of the stream. */
  ghost predicate Holds(delayBuffer: array<real>, n: nat, stream: seq<real>) reads delayBuffer {
    n <= delayBuffer.Length && delayBuffer[..n] == Last(n, stream)
  }

  /** Moves the samples that stay, and adds the new ones behind them. */
  method MoveAndAdd(delayBuffer: array<real>, n: nat, t: nat, pcmBuf: seq<real>, ghost stream: seq<real>,
                    ghost frame: seq<real>, frameLen: nat)
    requires Holds(delayBuffer, n, stream) && |frame| == frameLen && t + frameLen <= n
    requires t + frameLen <= |pcmBuf| && pcmBuf[..t + frameLen] == Last(t, stream) + frame
    modifies delayBuffer
    ensures Holds(delayBuffer, n, stream + frame)
  {
    hide Last, Holds;
    HistoryOf(delayBuffer, n, stream);
    var moveLen := n - (frameLen + t);
    ghost var before := delayBuffer[..];
    CopyWithin(delayBuffer, frameLen, frameLen + moveLen, 0);
    ghost var mid := delayBuffer[..];
    CopyTo(delayBuffer, moveLen, pcmBuf[..t + frameLen]);
    MovedOn(before, mid, delayBuffer[..], n, t, stream, frame, pcmBuf[..t + frameLen]);
    IsHistory(delayBuffer, n, stream + frame);
  }

  lemma HistoryOf(delayBuffer: array<real>, n: nat, stream: seq<real>)
    requires Holds(delayBuffer, n, stream)
    ensures n <= delayBuffer.Length && delayBuffer[..][..n] == Last(n, stream)
  {}

  lemma IsHistory(delayBuffer: array<real>, n: nat, stream: seq<real>)
    requires n <= delayBuffer.Length && delayBuffer[..][..n] == Last(n, stream)
    ensures Holds(delayBuffer, n, stream)
  {}

  lemma MovedOn(before: seq<real>, mid: seq<real>, after: seq<real>, n: nat, t: nat, stream: seq<real>,
                frame: seq<real>, added: seq<real>)
    requires |before| >= n >= t + |frame| == |added| && before[..n] == Last(n, stream)
    requires added == Last(t, stream) + frame
    requires var len := n - (|frame| + t);
             && mid == before[..0] + before[|frame|..|frame| + len] + before[0 + (|frame| + len - |frame|)..]
             && after == mid[..len] + added + mid[len + |added|..]
    ensures |after| >= n && after[..n] == Last(n, stream + frame)
  {
    hide Last;
    PartlyNew(n, stream, t, frame);
    Moved(before, mid, after, n, |frame|, n - (|frame| + t), added);
  }

  lemma Moved(before: seq<real>, mid: seq<real>, after: seq<real>, n: nat, from: nat, len: nat, added: seq<real>)
    requires n <= |before| && from + len <= n && len + |added| == n
    requires mid == before[..0] + before[from..from + len] + before[0 + (from + len - from)..]
    requires after == mid[..len] + added + mid[len + |added|..]
    ensures |after| >= n && after[..n] == before[..n][from..from + len] + added
  {
    assert mid[..len] == before[from..from + len] == before[..n][from..from + len];
  }

  /** Only new samples: the end of what was encoded. */
  method Replace(delayBuffer: array<real>, n: nat, t: nat, pcmBuf: seq<real>, ghost stream: seq<real>,
                 ghost frame: seq<real>, srcStart: nat)
    requires Holds(delayBuffer, n, stream) && t <= n && srcStart + n == t + |frame|
    requires t + |frame| <= |pcmBuf| && pcmBuf[..t + |frame|] == Last(t, stream) + frame
    modifies delayBuffer
    ensures Holds(delayBuffer, n, stream + frame)
  {
    CopyTo(delayBuffer, 0, pcmBuf[srcStart..srcStart + n]);
    AllNew(n, stream, t, frame);
    assert delayBuffer[..n] == pcmBuf[srcStart..srcStart + n];
    assert pcmBuf[srcStart..srcStart + n] == pcmBuf[..t + |frame|][srcStart..];
  }

  lemma EndOfHistory(s: seq<real>, n: nat, t: nat, stream: seq<real>)
    requires t <= n <= |s| && s[..n] == Last(n, stream)
    ensures s[n - t..n] == Last(t, stream)
  {
    LastOfLast(t, n, stream);
    assert s[n - t..n] == s[..n][n - t..];
  }

  /** A stream that is as long as what is kept of it is kept whole. */
  lemma WholeHistory(s: seq<real>)
    ensures Last(|s|, s) == s
  {}

  lemma SameEnd(n: nat, t: nat, s: seq<real>, s': seq<real>, stream: seq<real>)
    requires t <= n == |s| == |s'| && s == Last(n, stream) && s'[n - t..] == s[n - t..]
    ensures Last(t, s') == Last(t, stream)
  {
    LastOfLast(t, n, stream);
    LastOfLast(t, n, s');
    WholeHistory(s');
  }

  lemma SameShorterEnd(n: nat, t: nat, stream: seq<real>, stream': seq<real>)
    requires t <= n && Last(n, stream') == Last(n, stream)
    ensures Last(t, stream') == Last(t, stream)
  {
    LastOfLast(t, n, stream);
    LastOfLast(t, n, stream');
  }

  /** A number of samples per channel, for all channels. */
  function Samples(n: nat, channels: nat): nat {
    n * channels
  }

  lemma SamplesAre(n: nat, channels: nat)
    ensures Samples(n, channels) == n * channels
  {}

  lemma SamplesSum(a: nat, b: nat, channels: nat)
    ensures Samples(a + b, channels) == Samples(a, channels) + Samples(b, channels)
  {}

  // ----- fading -----

  /** The gain of a sample: from `g1` to `g2` with the square of the window, and then `g2`. */
  function Gain(window: seq<real>, inc: nat, overlap: nat, g1: real, g2: real, sample: nat): real {
    if sample >= overlap then g2
    else
      var w := if sample * inc < |window| then window[sample * inc] else 0.0;
      w * w * g2 + (1.0 - w * w) * g1
  }

  /** A fade begins with the first gain, where the window is 0, and is over at the second, where it is 1. */
  lemma GainEnds(window: seq<real>, inc: nat, overlap: nat, g1: real, g2: real, sample: nat)
    ensures sample >= overlap ==> Gain(window, inc, overlap, g1, g2, sample) == g2
    ensures sample < overlap && sample * inc >= |window| ==> Gain(window, inc, overlap, g1, g2, sample) == g1
    ensures sample < overlap && sample * inc < |window| && window[sample * inc] == 0.0 ==>
              Gain(window, inc, overlap, g1, g2, sample) == g1
    ensures sample < overlap && sample * inc < |window| && window[sample * inc] == 1.0 ==>
              Gain(window, inc, overlap, g1, g2, sample) == g2
  {}

  /** From silence it is the square of the window. */
  lemma GainFromSilence(window: seq<real>, inc: nat, overlap: nat, sample: nat)
    requires sample < overlap && sample * inc < |window|
    ensures Gain(window, inc, overlap, 0.0, 1.0, sample) == window[sample * inc] * window[sample * inc]
  {}

  function Gains(window: seq<real>, inc: nat, overlap: nat, g1: real, g2: real): nat -> real {
    (sample: nat) => Gain(window, inc, overlap, g1, g2, sample)
  }

  /** A part of a signal with a gain for each sample of `channels` values. */
  ghost function Faded(x: seq<real>, channels: nat, gain: nat -> real): (y: seq<real>)
    requires channels > 0
    ensures |y| == |x|
  {
    seq(|x|, k requires 0 <= k < |x| => x[k] * gain(k / channels))
  }

  /** Silence up to `offset`, a fade of `ramp` values, and the rest of a signal. */
  ghost function FadeIn(s: seq<real>, offset: nat, ramp: nat, channels: nat, gain: nat -> real): (t: seq<real>)
    requires offset + ramp <= |s| && channels > 0
    ensures |t| == |s|
  {
    Zeros(offset) + Faded(s[offset..offset + ramp], channels, gain) + s[offset + ramp..]
  }

  lemma FadeInAt(s: seq<real>, offset: nat, ramp: nat, channels: nat, gain: nat -> real, k: nat)
    requires offset + ramp <= |s| && channels > 0 && k < |s|
    ensures FadeIn(s, offset, ramp, channels, gain)[k]
         == if k < offset then 0.0 else if k < offset + ramp then s[k] * gain((k - offset) / channels) else s[k]
  {}

  lemma FadeKeepsEnd(s: seq<real>, offset: nat, ramp: nat, channels: nat, gain: nat -> real)
    requires offset + ramp <= |s| && channels > 0
    ensures FadeIn(s, offset, ramp, channels, gain)[offset + ramp..] == s[offset + ramp..]
  {
    hide Faded;
  }

  lemma SampleOf(sample: nat, c: nat, channels: nat)
    requires c < channels
    ensures (Samples(sample, channels) + c) / channels == sample
  {
    var k := Samples(sample, channels) + c;
    Between(k / channels, sample, k, channels);
  }

  /** Only one quotient is right. */
  lemma Between(q: int, s: int, k: int, channels: nat)
    requires q * channels <= k < q * channels + channels && s * channels <= k < s * channels + channels
    ensures q == s
  {
    if q < s {
      Apart(q, s, channels);
    } else if s < q {
      Apart(s, q, channels);
    }
  }

  lemma Apart(q: int, s: int, channels: nat)
    requires q < s
    ensures q * channels + channels <= s * channels
  {
    Distributes(q, 1, channels);
    Distributes(q + 1, s - q - 1, channels);
  }

  lemma Distributes(a: int, b: nat, c: nat)
    ensures (a + b) * c == a * c + b * c && b * c >= 0
  {}

  lemma InFrame(sample: nat, c: nat, frameSize: nat, channels: nat)
    requires sample < frameSize && c < channels
    ensures Samples(sample, channels) + c < Samples(frameSize, channels)
  {
    Apart(sample, frameSize, channels);
  }

  /** Fades `frameSize` samples of the signal in `pcm[from..]`. */
  method GainFade(pcm: array<real>, from: nat, g1: real, g2: real, overlap48: nat, frameSize: nat, channels: nat,
                  window: seq<real>, fs: nat)
    requires 0 < fs <= 48000 && channels > 0 && from + Samples(frameSize, channels) <= pcm.Length
    modifies pcm
    ensures var gain := Gains(window, 48000 / fs, overlap48 / (48000 / fs), g1, g2);
            var end := from + Samples(frameSize, channels);
            pcm[..] == old(pcm[..from]) + Faded(old(pcm[from..end]), channels, gain) + old(pcm[end..])
  {
    hide Samples, Gain, Gains, FadedUpTo, Faded;
    var inc := 48000 / fs;
    var overlap := overlap48 / inc;
    ghost var gain := Gains(window, inc, overlap, g1, g2);
    ghost var before, end := pcm[..], from + Samples(frameSize, channels);
    NoSamples(channels);
    NothingFaded(before, from, channels, gain);
    for sample := 0 to frameSize
      invariant Samples(sample, channels) <= Samples(frameSize, channels)
      invariant FadedUpTo(pcm[..], before, from, Samples(sample, channels), channels, gain)
    {
      SamplesSum(sample, 1, channels);
      OneSample(channels);
      InFrame(sample, channels - 1, frameSize, channels);
      GainAt(window, inc, overlap, g1, g2, sample);
      FadeSample(pcm, from, sample, channels, Gain(window, inc, overlap, g1, g2, sample), before, gain);
    }
    FadedDone(pcm[..], before, from, Samples(frameSize, channels), channels, gain);
  }

  /** Fades all channels of one sample. */
  method FadeSample(pcm: array<real>, from: nat, sample: nat, channels: nat, g: real,
                    ghost before: seq<real>, ghost gain: nat -> real)
    requires channels > 0 && g == gain(sample) && from + Samples(sample, channels) + channels <= pcm.Length
    requires FadedUpTo(pcm[..], before, from, Samples(sample, channels), channels, gain)
    modifies pcm
    ensures FadedUpTo(pcm[..], before, from, Samples(sample, channels) + channels, channels, gain)
  {
    hide Samples, FadedUpTo;
    for c := 0 to channels
      invariant FadedUpTo(pcm[..], before, from, Samples(sample, channels) + c, channels, gain)
    {
      SampleOf(sample, c, channels);
      ghost var s, n := pcm[..], Samples(sample, channels) + c;
      var i := from + Samples(sample, channels) + c;
      var value := pcm[i] * g;
      FadedStep(s, before, from, n, channels, gain, value);
      pcm[i] := value;
      assert pcm[..] == s[i := value];
    }
  }

  lemma GainAt(window: seq<real>, inc: nat, overlap: nat, g1: real, g2: real, sample: nat)
    ensures Gains(window, inc, overlap, g1, g2)(sample) == Gain(window, inc, overlap, g1, g2, sample)
  {}

  lemma NothingFaded(before: seq<real>, from: nat, channels: nat, gain: nat -> real)
    requires channels > 0
    ensures FadedUpTo(before, before, from, 0, channels, gain)
  {}

  lemma FadedStep(s: seq<real>, before: seq<real>, from: nat, n: nat, channels: nat, gain: nat -> real, value: real)
    requires channels > 0 && FadedUpTo(s, before, from, n, channels, gain) && from + n < |s|
    requires value == s[from + n] * gain(n / channels)
    ensures FadedUpTo(s[from + n := value], before, from, n + 1, channels, gain)
  {}

  lemma FadedDone(s: seq<real>, before: seq<real>, from: nat, n: nat, channels: nat, gain: nat -> real)
    requires channels > 0 && FadedUpTo(s, before, from, n, channels, gain) && from + n <= |before|
    ensures s == before[..from] + Faded(before[from..from + n], channels, gain) + before[from + n..]
  {
    var part := before[from..from + n];
    forall k | 0 <= k < n
      ensures s[from..from + n][k] == Faded(part, channels, gain)[k]
    {
      assert s[from + k] == before[from + k] * gain((from + k - from) / channels);
      assert from + k - from == k && part[k] == before[from + k];
    }
    assert s[from..from + n] == Faded(part, channels, gain);
    assert s == s[..from] + s[from..from + n] + s[from + n..];
    assert s[..from] == before[..from] && s[from + n..] == before[from + n..];
  }

  lemma NothingToFade(s: seq<real>, offset: nat, channels: nat, gain: nat -> real)
    requires offset <= |s| && channels > 0
    ensures s == s[..offset] + Faded(s[offset..offset], channels, gain) + s[offset..]
  {}

  /** Silence, a fade, and the rest, in place. */
  method FadeHistory(delayBuffer: array<real>, n: nat, offset: nat, ramp: nat, channels: nat,
                     overlap48: nat, window: seq<real>, fs: nat)
    requires 0 < fs <= 48000 && channels > 0 && n <= delayBuffer.Length && offset + Samples(ramp, channels) <= n
    modifies delayBuffer
    ensures delayBuffer[..n] == FadeIn(old(delayBuffer[..n]), offset, Samples(ramp, channels), channels,
                                       Gains(window, 48000 / fs, overlap48 / (48000 / fs), 0.0, 1.0))
  {
    hide Samples, Gains, Faded, FadeIn;
    ghost var gain := Gains(window, 48000 / fs, overlap48 / (48000 / fs), 0.0, 1.0);
    ghost var before, len := delayBuffer[..], Samples(ramp, channels);
    if ramp > 0 {
      GainFade(delayBuffer, offset, 0.0, 1.0, overlap48, ramp, channels, window, fs);
    } else {
      NoSamples(channels);
      NothingToFade(before, offset, channels, gain);
    }
    ghost var mid := delayBuffer[..];
    if offset > 0 {
      CopyTo(delayBuffer, 0, Zeros(offset));
    }
    Rewritten(before, mid, delayBuffer[..], n, offset, len, channels, gain);
  }

  lemma Rewritten(before: seq<real>, mid: seq<real>, after: seq<real>, n: nat, offset: nat, len: nat,
                  channels: nat, gain: nat -> real)
    requires offset + len <= n <= |before| && channels > 0
    requires mid == before[..offset] + Faded(before[offset..offset + len], channels, gain) + before[offset + len..]
    requires after == if offset > 0 then mid[..0] + Zeros(offset) + mid[0 + |Zeros(offset)|..] else mid
    ensures |after| == |before| && after[..n] == FadeIn(before[..n], offset, len, channels, gain)
  {
    hide Faded, Zeros;
    var part := Faded(before[offset..offset + len], channels, gain);
    WithoutFront(before[..offset], part, before[offset + len..]);
    ZerosInFront(mid, offset);
    FrontOf(Zeros(offset), part, before, n);
    assert before[..n][offset..offset + len] == before[offset..offset + len];
  }

  lemma WithoutFront(a: seq<real>, b: seq<real>, c: seq<real>)
    ensures (a + b + c)[|a|..] == b + c
  {}

  lemma ZerosInFront(mid: seq<real>, offset: nat)
    requires offset <= |mid|
    ensures mid[..0] + Zeros(offset) + mid[0 + |Zeros(offset)|..] == Zeros(offset) + mid[offset..]
    ensures offset == 0 ==> mid == Zeros(offset) + mid[offset..]
  {}

  lemma FrontOf(a: seq<real>, b: seq<real>, s: seq<real>, n: nat)
    requires |a| + |b| <= n <= |s|
    ensures (a + (b + s[|a| + |b|..]))[..n] == a + b + s[..n][|a| + |b|..]
  {}

  lemma NoSamples(channels: nat)
    ensures Samples(0, channels) == 0
  {}

  lemma OneSample(channels: nat)
    ensures Samples(1, channels) == channels
  {}

  /** `n` values from `from` on are done. */
  ghost predicate FadedUpTo(s: seq<real>, before: seq<real>, from: nat, n: nat, channels: nat, gain: nat -> real)
    requires channels > 0
  {
    && |s| == |before|
    && forall k :: 0 <= k < |s| ==>
         s[k] == if from <= k < from + n then before[k] * gain((k - from) / channels) else before[k]
  }

  class Encoder {
    const encoderBuffer: nat
    const delayCompensation: nat
    const restrictedLowDelay: bool
    const channels: nat
    const delayBuffer: array<real>
    /** All frames so far, interleaved. */
    ghost var stream: seq<real>

    ghost predicate Valid() reads this, delayBuffer {
      delayCompensation <= encoderBuffer && Holds(delayBuffer, Samples(encoderBuffer, channels), stream)
    }

    constructor (encoderBuffer: nat, delayCompensation: nat, restrictedLowDelay: bool, channels: nat, capacity: nat)
      requires delayCompensation <= encoderBuffer && Samples(encoderBuffer, channels) <= capacity
      ensures Valid() && fresh(delayBuffer) && stream == []
      ensures this.encoderBuffer == encoderBuffer && this.channels == channels
    {
      hide Samples;
      this.encoderBuffer := encoderBuffer;
      this.delayCompensation := delayCompensation;
      this.restrictedLowDelay := restrictedLowDelay;
      this.channels := channels;
      delayBuffer := new real[capacity](_ => 0.0);
      stream := [];
    }

    /** How much history goes before a frame. */
    function TotalBuffer(): nat {
      if restrictedLowDelay then 0 else delayCompensation
    }

    /** Puts the end of the history and the frame into the scratch buffer. */
    method PreparePcmBuffer(pcm: seq<real>, frameSize: nat, scratch: array<real>)
      returns (r: Result<nat, OpusEncodeError>)
      requires Valid() && scratch != delayBuffer
      modifies scratch
      ensures Valid()
      ensures var t := Samples(if restrictedLowDelay then 0 else delayCompensation, channels);
              var n := Samples(frameSize, channels);
              && (r.Err? <==> t + n > scratch.Length || |pcm| < n)
              && (r.Ok? ==> r.value == t + n && scratch[..t + n] == Last(t, stream) + pcm[..n])
    {
      hide Samples, Last;
      var totalBuffer := TotalBuffer();
      SamplesSum(totalBuffer, frameSize, channels);
      var needed := Samples(totalBuffer + frameSize, channels);
      if needed > scratch.Length {
        return Err(BadArgument);
      }
      var delayLen := Samples(totalBuffer, channels);
      SamplesSum(totalBuffer, encoderBuffer - totalBuffer, channels);
      var delayStart := Samples(encoderBuffer - totalBuffer, channels);
      EndOfHistory(delayBuffer[..], Samples(encoderBuffer, channels), delayLen, stream);
      if delayLen > 0 {
        CopyTo(scratch, 0, delayBuffer[delayStart..delayStart + delayLen]);
      }
      assert scratch[..delayLen] == Last(delayLen, stream);
      var pcmLen := Samples(frameSize, channels);
      if |pcm| < pcmLen {
        return Err(BadArgument);
      }
      CopyTo(scratch, delayLen, pcm[..pcmLen]);
      return Ok(needed);
    }

    /** Keeps the end of the history that now includes the frame behind `totalBuffer` older samples. */
    method UpdateDelayBuffer(pcmBuf: seq<real>, frameSize: nat, totalBuffer: nat, ghost frame: seq<real>)
      returns (ok: bool)
      requires Valid() && totalBuffer <= encoderBuffer && |frame| == Samples(frameSize, channels)
      requires |pcmBuf| >= Samples(totalBuffer, channels) + |frame| ==>
                 pcmBuf[..Samples(totalBuffer, channels) + |frame|]
                 == Last(Samples(totalBuffer, channels), stream) + frame
      modifies this`stream, delayBuffer
      ensures Valid()
      ensures ok <==> |pcmBuf| >= Samples(totalBuffer, channels) + |frame|
      ensures stream == if ok then old(stream) + frame else old(stream)
    {
      hide Samples, Last, Holds;
      var encoderSamples := Samples(encoderBuffer, channels);
      var frameTotal := frameSize + totalBuffer;
      SamplesSum(frameSize, totalBuffer, channels);
      if Samples(frameTotal, channels) > |pcmBuf| {
        return false;
      }
      SamplesSum(totalBuffer, encoderBuffer - totalBuffer, channels);
      if encoderBuffer > frameTotal {
        SamplesSum(frameTotal, encoderBuffer - frameTotal, channels);
        MoveAndAdd(delayBuffer, encoderSamples, Samples(totalBuffer, channels), pcmBuf, stream, frame,
                   Samples(frameSize, channels));
      } else {
        SamplesSum(encoderBuffer, frameTotal - encoderBuffer, channels);
        Replace(delayBuffer, encoderSamples, Samples(totalBuffer, channels), pcmBuf, stream, frame,
                Samples(frameTotal - encoderBuffer, channels));
      }
      stream := stream + frame;
      return true;
    }

    /** There is room for the fade in front of the history of the next frame. */
    predicate FadeFits(fs: nat) {
      delayCompensation + fs / 400 <= encoderBuffer
    }

    /** The history with silence, a fade, and the part that is the history of the next frame. */
    ghost function Prefilled(fs: nat, overlap48: nat, window: seq<real>): seq<real>
      requires 0 < fs <= 48000 && channels > 0 && FadeFits(fs)
      reads this
    {
      PrefillSizes(fs);
      FadeIn(Last(Samples(encoderBuffer, channels), stream),
             Samples(encoderBuffer - delayCompensation - fs / 400, channels), Samples(fs / 400, channels), channels,
             Gains(window, 48000 / fs, overlap48 / (48000 / fs), 0.0, 1.0))
    }

    lemma PrefillSizes(fs: nat)
      requires FadeFits(fs)
      ensures Samples(encoderBuffer, channels)
           == Samples(encoderBuffer - delayCompensation - fs / 400, channels) + Samples(fs / 400, channels)
              + Samples(delayCompensation, channels)
    {
      hide Samples;
      SamplesSum(encoderBuffer - delayCompensation - fs / 400, fs / 400, channels);
      SamplesSum(encoderBuffer - delayCompensation, delayCompensation, channels);
    }

    /** The prepared history: a fade of 2.5 ms ends where the history of the next frame begins. */
    lemma PrefilledIs(fs: nat, overlap48: nat, window: seq<real>, s: seq<real>, offset: nat, ramp: nat)
      requires 0 < fs <= 48000 && channels > 0 && FadeFits(fs)
      requires s == Last(Samples(encoderBuffer, channels), stream) && offset + ramp <= |s|
      requires offset == Samples(encoderBuffer - delayCompensation - fs / 400, channels)
      requires ramp == Samples(fs / 400, channels)
      ensures Prefilled(fs, overlap48, window)
           == FadeIn(s, offset, ramp, channels, Gains(window, 48000 / fs, overlap48 / (48000 / fs), 0.0, 1.0))
      ensures offset + ramp + Samples(delayCompensation, channels) == |s|
    {
      hide Last, FadeIn, Samples, Gains;
      PrefillSizes(fs);
    }

    /** There is a fade of 2.5 ms only if it fits in front of the history of the next frame. */
    lemma FadeFitsIff(fs: nat)
      ensures FadeFits(fs) <==> encoderBuffer - delayCompensation >= fs / 400
    {}

    /** Prepares the history for an encoder that has been idle: it fades in what comes before the history of
        the next frame. That history itself stays. */
    method PrepareSilkPrefill(fs: nat, overlap48: nat, window: seq<real>, capacity: nat)
      returns (r: Result<seq<real>, OpusEncodeError>)
      requires Valid() && 0 < fs <= 48000 && channels > 0
      modifies this`stream, delayBuffer
      ensures Valid() && (r.Ok? <==> FadeFits(fs) && Samples(encoderBuffer, channels) <= capacity)
      ensures r.Err? ==> stream == old(stream) && r.error == BadArgument
      ensures r.Ok? ==> stream == old(Prefilled(fs, overlap48, window)) && r.value == stream
      ensures Last(Samples(delayCompensation, channels), stream)
           == old(Last(Samples(delayCompensation, channels), stream))
    {
      hide Samples, Last, Gains, FadeIn;
      var prefillLen := Samples(encoderBuffer, channels);
      if prefillLen > capacity {
        return Err(BadArgument);
      }
      var rampSamples := fs / 400;
      if encoderBuffer < delayCompensation + rampSamples {
        return Err(BadArgument);
      }
      PrefillSizes(fs);
      var prefillOffset := Samples(encoderBuffer - delayCompensation - rampSamples, channels);
      ghost var s := delayBuffer[..prefillLen];
      FadeHistory(delayBuffer, prefillLen, prefillOffset, rampSamples, channels, overlap48, window, fs);
      FadeKeepsEnd(s, prefillOffset, Samples(rampSamples, channels), channels,
                   Gains(window, 48000 / fs, overlap48 / (48000 / fs), 0.0, 1.0));
      WholeHistory(delayBuffer[..prefillLen]);
      SameEnd(prefillLen, Samples(delayCompensation, channels), s, delayBuffer[..prefillLen], stream);
      stream := delayBuffer[..prefillLen];
      return Ok(delayBuffer[..prefillLen]);
    }

    /** Both steps, with a frame that may be filtered in between, and a history that may be prepared for
        an encoder that joins in. */
    method EncodeFrame(pcm: seq<real>, frameSize: nat, scratch: array<real>, filtered: seq<real>,
                       prefill: bool, fs: nat, overlap48: nat, window: seq<real>, capacity: nat)
      returns (ok: bool)
      requires Valid() && scratch != delayBuffer && |filtered| == Samples(frameSize, channels)
      requires prefill ==> 0 < fs <= 48000 && channels > 0
      modifies this`stream, delayBuffer, scratch
      ensures Valid()
      ensures ok <==> && Samples(TotalBuffer(), channels) + |filtered| <= scratch.Length && |filtered| <= |pcm|
                      && (prefill ==> FadeFits(fs) && Samples(encoderBuffer, channels) <= capacity)
      ensures stream == if !ok then old(stream)
                        else if prefill then old(Prefilled(fs, overlap48, window)) + filtered
                        else old(stream) + filtered
    {
      hide Samples, Last, Holds;
      var len := PreparePcmBuffer(pcm, frameSize, scratch);
      if len.Err? {
        return false;
      }
      var delayLen := Samples(TotalBuffer(), channels);
      SamplesSum(TotalBuffer(), delayCompensation - TotalBuffer(), channels);
      ghost var history := Last(delayLen, stream);
      assert scratch[..delayLen] == scratch[..len.value][..delayLen] == history;
      CopyTo(scratch, delayLen, filtered);
      assert scratch[..len.value] == history + filtered;
      if prefill {
        var prepared := PrepareSilkPrefill(fs, overlap48, window, capacity);
        if prepared.Err? {
          return false;
        }
        SameShorterEnd(Samples(delayCompensation, channels), delayLen, old(stream), stream);
      }
      ok := UpdateDelayBuffer(scratch[..len.value], frameSize, TotalBuffer(), filtered);
    }
  }
}
