/** Soft clipping of interleaved channels in place. */
module SoftClipper {
  import opened SoftClipping

  // ----- channels -----

  /** Sample `i` of channel `c`. */
  function At(i: nat, channels: nat, c: nat): nat {
    i * channels + c
  }

  lemma AtBound(i: nat, n: nat, channels: nat, c: nat)
    requires i < n && c < channels
    ensures At(i, channels, c) < n * channels
  {
    assert (i + 1) * channels <= n * channels;
  }

  lemma AtOrdered(i: nat, j: nat, channels: nat, c: nat, d: nat)
    requires c < channels && d < channels && i < j
    ensures At(i, channels, c) < At(j, channels, d)
  {
    assert (i + 1) * channels <= j * channels;
  }

  lemma AtInjective(i: nat, j: nat, channels: nat, c: nat, d: nat)
    requires c < channels && d < channels && At(i, channels, c) == At(j, channels, d)
    ensures i == j && c == d
  {
    if i < j {
      AtOrdered(i, j, channels, c, d);
    } else if j < i {
      AtOrdered(j, i, channels, d, c);
    }
  }

  /** The first `n` samples of channel `c`. */
  ghost function Column(s: seq<real>, n: nat, channels: nat, c: nat): (x: seq<real>)
    requires n * channels <= |s| && c < channels
    ensures |x| == n
  {
    seq(n, i requires 0 <= i < n => (AtBound(i, n, channels, c); s[At(i, channels, c)]))
  }

  /** Nothing is different but channel `c`. */
  ghost predicate OthersKept(s: seq<real>, t: seq<real>, n: nat, channels: nat, c: nat) {
    && |s| == |t| && n * channels <= |s|
    && (forall d :: 0 <= d < channels && d != c ==> Column(t, n, channels, d) == Column(s, n, channels, d))
    && (forall k :: n * channels <= k < |s| ==> t[k] == s[k])
  }

  lemma Changed(s: seq<real>, n: nat, channels: nat, c: nat, i: nat, v: real)
    requires n * channels <= |s| && c < channels && i < n
    ensures At(i, channels, c) < |s|
    ensures var t := s[At(i, channels, c) := v];
            Column(t, n, channels, c) == Column(s, n, channels, c)[i := v] && OthersKept(s, t, n, channels, c)
  {
    hide At;
    AtBound(i, n, channels, c);
    var t := s[At(i, channels, c) := v];
    forall j, d | 0 <= j < n && 0 <= d < channels
      ensures At(j, channels, d) < n * channels
      ensures t[At(j, channels, d)] == if j == i && d == c then v else s[At(j, channels, d)]
    {
      AtBound(j, n, channels, d);
      if At(j, channels, d) == At(i, channels, c) {
        AtInjective(i, j, channels, c, d);
      }
    }
  }

  lemma OthersKeptOn(s: seq<real>, t: seq<real>, u: seq<real>, n: nat, channels: nat, c: nat)
    requires OthersKept(s, t, n, channels, c) && OthersKept(t, u, n, channels, c)
    ensures OthersKept(s, u, n, channels, c)
  {}

  method Store(pcm: array<real>, n: nat, channels: nat, c: nat, i: nat, v: real, ghost before: seq<real>)
    requires n * channels <= pcm.Length && c < channels && i < n && OthersKept(before, pcm[..], n, channels, c)
    modifies pcm
    ensures Column(pcm[..], n, channels, c) == old(Column(pcm[..], n, channels, c))[i := v]
    ensures OthersKept(before, pcm[..], n, channels, c)
  {
    hide OthersKept, Column;
    Changed(pcm[..], n, channels, c, i, v);
    OthersKeptOn(before, pcm[..], pcm[..][At(i, channels, c) := v], n, channels, c);
    ghost var s := pcm[..];
    pcm[i * channels + c] := v;
    assert pcm[..] == s[At(i, channels, c) := v];
  }

  method Load(pcm: array<real>, n: nat, channels: nat, c: nat, i: nat) returns (v: real)
    requires n * channels <= pcm.Length && c < channels && i < n
    ensures v == Column(pcm[..], n, channels, c)[i]
  {
    AtBound(i, n, channels, c);
    return pcm[i * channels + c];
  }

  // ----- the phases for one channel -----

  /** Continues the nonlinearity `a` of the previous frame up to the first zero crossing. */
  method Carry(pcm: array<real>, n: nat, channels: nat, c: nat, a: real, ghost before: seq<real>)
    requires n * channels <= pcm.Length && c < channels && OthersKept(before, pcm[..], n, channels, c)
    modifies pcm
    ensures OthersKept(before, pcm[..], n, channels, c)
    ensures var x := old(Column(pcm[..], n, channels, c));
            Column(pcm[..], n, channels, c) == BendRange(x, a, 0, CarryEnd(x, a, 0))
  {
    hide OthersKept, Column, At, Bent, SameSide;
    ghost var x := Column(pcm[..], n, channels, c);
    var i := 0;
    while i < n
      invariant i <= n && OthersKept(before, pcm[..], n, channels, c)
      invariant Column(pcm[..], n, channels, c) == BendRange(x, a, 0, i)
      invariant CarryEnd(x, a, i) == CarryEnd(x, a, 0)
    {
      var sample := Load(pcm, n, channels, c, i);
      if SameSide(sample, a) {
        return;
      }
      Store(pcm, n, channels, c, i, Bent(sample, a), before);
      i := i + 1;
    }
  }

  /** The first sample out of range. */
  method Scan(pcm: array<real>, n: nat, channels: nat, c: nat, curr: nat) returns (i: nat)
    requires n * channels <= pcm.Length && c < channels && curr <= n
    ensures i == FirstOutside(Column(pcm[..], n, channels, c), curr)
  {
    hide Column, At;
    ghost var x := Column(pcm[..], n, channels, c);
    i := curr;
    while i < n
      invariant curr <= i <= n && FirstOutside(x, i) == FirstOutside(x, curr)
    {
      var value := Load(pcm, n, channels, c, i);
      if !Within(value) {
        return;
      }
      i := i + 1;
    }
  }

  method FindStart(pcm: array<real>, n: nat, channels: nat, c: nat, v: real, i: nat) returns (start: nat)
    requires n * channels <= pcm.Length && c < channels && i < n
    ensures start == RegionStart(Column(pcm[..], n, channels, c), v, i)
  {
    hide Column, At, SameSide;
    ghost var x := Column(pcm[..], n, channels, c);
    start := i;
    while start > 0
      invariant start <= i && RegionStart(x, v, start) == RegionStart(x, v, i)
    {
      var sample := Load(pcm, n, channels, c, start - 1);
      if !SameSide(v, sample) {
        return;
      }
      start := start - 1;
    }
  }

  /** The end of the region, and the first of its largest samples. */
  method FindEnd(pcm: array<real>, n: nat, channels: nat, c: nat, v: real, i: nat)
    returns (end: nat, peakPos: nat, maxval: real)
    requires n * channels <= pcm.Length && c < channels && i < n
    requires v == Column(pcm[..], n, channels, c)[i] && !Within(v)
    ensures var x := Column(pcm[..], n, channels, c);
            && i < end <= n && end == RegionEnd(x, v, i) && peakPos == Peak(x, i, end) && maxval == Abs(x[peakPos])
  {
    hide Column, At, SameSide;
    ghost var x := Column(pcm[..], n, channels, c);
    Crossed(x, i);
    end, peakPos, maxval := i, i, Abs(v);
    while end < n
      invariant i <= end <= n && RegionEnd(x, v, end) == RegionEnd(x, v, i)
      invariant peakPos == (if end > i then Peak(x, i, end) else i) && maxval == Abs(x[peakPos])
    {
      var sample := Load(pcm, n, channels, c, end);
      if !SameSide(v, sample) {
        return;
      }
      if Abs(sample) > maxval {
        maxval, peakPos := Abs(sample), end;
      }
      end := end + 1;
    }
  }

  method Bend(pcm: array<real>, n: nat, channels: nat, c: nat, a: real, start: nat, end: nat, ghost before: seq<real>)
    requires n * channels <= pcm.Length && c < channels && OthersKept(before, pcm[..], n, channels, c)
    requires start <= end <= n
    modifies pcm
    ensures OthersKept(before, pcm[..], n, channels, c)
    ensures Column(pcm[..], n, channels, c) == BendRange(old(Column(pcm[..], n, channels, c)), a, start, end)
  {
    hide OthersKept, Column, At, Bent;
    ghost var x := Column(pcm[..], n, channels, c);
    for i := start to end
      invariant OthersKept(before, pcm[..], n, channels, c)
      invariant Column(pcm[..], n, channels, c) == BendRange(x, a, start, i)
    {
      var sample := Load(pcm, n, channels, c, i);
      Store(pcm, n, channels, c, i, Bent(sample, a), before);
    }
  }

  /** Adds a linear ramp, step by step. */
  method Ramp(pcm: array<real>, n: nat, channels: nat, c: nat, start: real, from: nat, peak: nat,
              ghost before: seq<real>)
    requires n * channels <= pcm.Length && c < channels && OthersKept(before, pcm[..], n, channels, c) && 0 < peak <= n
    modifies pcm
    ensures OthersKept(before, pcm[..], n, channels, c)
    ensures Column(pcm[..], n, channels, c) == RampRange(old(Column(pcm[..], n, channels, c)), start, from, peak, peak)
  {
    hide OthersKept, Column, At, Clamp, RampAt, RampRange;
    ghost var x := Column(pcm[..], n, channels, c);
    var offset, delta := start, start / peak as real;
    var i := from;
    RampBegins(start, peak);
    RampEmpty(x, start, from, if from <= peak then from else peak, peak);
    while i < peak
      invariant from <= i && (from <= peak ==> i <= peak) && OthersKept(before, pcm[..], n, channels, c)
      invariant offset == RampAt(start, i - from, peak)
      invariant Column(pcm[..], n, channels, c) == RampRange(x, start, from, if from <= peak then i else peak, peak)
    {
      offset := offset - delta;
      RampGoesOn(start, i - from, peak);
      var sample := Load(pcm, n, channels, c, i);
      RampStep(x, start, from, i, peak);
      Store(pcm, n, channels, c, i, Clamp(sample + offset, 1.0), before);
      i := i + 1;
    }
  }

  lemma RampEmpty(x: seq<real>, offset: real, from: nat, end: nat, peak: nat)
    requires peak > 0 && end <= from
    ensures RampRange(x, offset, from, end, peak) == x
  {}

  /** One more sample with its part of the ramp. */
  lemma RampStep(x: seq<real>, offset: real, from: nat, i: nat, peak: nat)
    requires peak > 0 && from <= i < |x|
    ensures RampRange(x, offset, from, i, peak)[i] == x[i]
    ensures RampRange(x, offset, from, i, peak)[i := Clamp(x[i] + RampAt(offset, i - from + 1, peak), 1.0)]
         == RampRange(x, offset, from, i + 1, peak)
  {
    hide RampAt, Clamp;
  }

  lemma RampBegins(offset: real, peak: nat)
    requires peak > 0
    ensures RampAt(offset, 0, peak) == offset
  {}

  lemma RampGoesOn(offset: real, n: nat, peak: nat)
    requires peak > 0
    ensures RampAt(offset, n + 1, peak) == RampAt(offset, n, peak) - offset / peak as real
  {
    var d := offset / peak as real;
    assert (n + 1) as real * d == n as real * d + d;
  }

  method FindCoefficient(clipped: real, maxval: real) returns (a: real)
    requires maxval > 0.0
    ensures a == Coefficient(clipped, maxval)
  {
    a := (maxval - 1.0) / (maxval * maxval);
    a := a + a * EPS;
    if clipped > 0.0 {
      a := -a;
    }
  }

  /** One region: `i` is its first sample out of range. */
  method Region(pcm: array<real>, n: nat, channels: nat, c: nat, x0: real, curr: nat, i: nat, ghost before: seq<real>)
    returns (end: nat, a: real)
    requires n * channels <= pcm.Length && c < channels && OthersKept(before, pcm[..], n, channels, c)
    requires curr <= i < n && !Within(Column(pcm[..], n, channels, c)[i])
    modifies pcm
    ensures OthersKept(before, pcm[..], n, channels, c)
    ensures var x := old(Column(pcm[..], n, channels, c));
            && i < end <= n && end == RegionEnd(x, x[i], i)
            && Clipped(Column(pcm[..], n, channels, c), a) == ClipRegion(x, x0, curr, i)
  {
    hide OthersKept, Column, At, SameSide, BendRange, RampRange, Abs, Coefficient;
    ghost var x := Column(pcm[..], n, channels, c);
    var clipped := Load(pcm, n, channels, c, i);
    var start := FindStart(pcm, n, channels, c, clipped, i);
    var peakPos, maxval;
    end, peakPos, maxval := FindEnd(pcm, n, channels, c, clipped, i);
    PeakLarge(x, i, end);
    var first := Load(pcm, n, channels, c, 0);
    var special := start == 0 && SameSide(clipped, first);
    a := FindCoefficient(clipped, maxval);
    Bend(pcm, n, channels, c, a, start, end, before);
    if special && peakPos >= 2 {
      first := Load(pcm, n, channels, c, 0);
      Ramp(pcm, n, channels, c, x0 - first, curr, peakPos, before);
    }
  }

  /** One channel of a frame. */
  method ClipChannel(pcm: array<real>, n: nat, channels: nat, c: nat, memory: real, allWithin: bool) returns (a: real)
    requires n > 0 && n * channels <= pcm.Length && c < channels
    modifies pcm
    ensures OthersKept(old(pcm[..]), pcm[..], n, channels, c)
    ensures Clipped(Column(pcm[..], n, channels, c), a)
         == ClipHinted(old(Column(pcm[..], n, channels, c)), memory, allWithin)
  {
    hide OthersKept, Column, At, SameSide, BendRange, ClipRegion;
    ghost var before := pcm[..];
    NothingChanged(before, n, channels, c);
    Carry(pcm, n, channels, c, memory, before);
    ghost var y := Column(pcm[..], n, channels, c);
    var curr := 0;
    var x0 := Load(pcm, n, channels, c, 0);
    a := memory;
    while true
      invariant curr <= n && OthersKept(before, pcm[..], n, channels, c)
      invariant if allWithin then Column(pcm[..], n, channels, c) == y
                else ClipFrom(Column(pcm[..], n, channels, c), x0, curr) == ClipFrom(y, x0, 0)
      decreases n - curr
    {
      var i := n;
      if !allWithin {
        i := Scan(pcm, n, channels, c, curr);
      }
      if i == n {
        a := 0.0;
        return;
      }
      curr, a := Region(pcm, n, channels, c, x0, curr, i, before);
      if curr == n {
        return;
      }
    }
  }

  lemma NothingChanged(s: seq<real>, n: nat, channels: nat, c: nat)
    requires n * channels <= |s|
    ensures OthersKept(s, s, n, channels, c)
  {}

  // ----- a frame of all channels -----

  function Limited(x: seq<real>): (y: seq<real>)
    ensures |y| == |x|
  {
    seq(|x|, k requires 0 <= k < |x| => Clamp(x[k], 2.0))
  }

  /** Whether all samples are in [-1, 1]. */
  ghost predicate InRange(s: seq<real>, total: nat)
    requires total <= |s|
  {
    forall k :: 0 <= k < total ==> Within(s[k])
  }

  /** Limits the samples to [-2, 2]. Only an empty frame is reported as being within [-1, 1]. */
  method Limit2CheckWithin1Scalar(samples: array<real>, total: nat) returns (within: bool)
    requires total <= samples.Length
    modifies samples
    ensures within <==> total == 0
    ensures samples[..] == Limited(old(samples[..total])) + old(samples[total..])
  {
    if total == 0 {
      assert samples[..] == [] + samples[0..];
      return true;
    }
    for k := 0 to total
      invariant forall j :: 0 <= j < samples.Length ==>
                  samples[j] == if j < k then Clamp(old(samples[j]), 2.0) else old(samples[j])
    {
      samples[k] := Clamp(samples[k], 2.0);
    }
    within := false;
    assert samples[..] == Limited(old(samples[..total])) + old(samples[total..]);
  }

  /** The vector form: blocks of 16 samples are only limited if one of them has to be, and samples within
      [-1, 1] are reported as such. The lanes of a block are taken one after the other here. */
  method Limit2CheckWithin1Neon(samples: array<real>, total: nat) returns (within: bool)
    requires total <= samples.Length
    modifies samples
    ensures within <==> InRange(old(samples[..]), total)
    ensures samples[..] == Limited(old(samples[..total])) + old(samples[total..])
  {
    if total == 0 {
      assert samples[..] == [] + samples[0..];
      return true;
    }
    var blocked := total / 16 * 16;
    var min, max := 0.0, 0.0;
    for k := 0 to blocked
      invariant forall j :: 0 <= j < k ==> min <= samples[j] <= max
      invariant -1.0 <= min && max <= 1.0 <==> InRange(old(samples[..]), k)
    {
      max := if samples[k] > max then samples[k] else max;
      min := if samples[k] < min then samples[k] else min;
    }
    if min < -2.0 || max > 2.0 {
      for k := 0 to blocked
        invariant forall j :: 0 <= j < samples.Length ==>
                    samples[j] == if j < k then Clamp(old(samples[j]), 2.0) else old(samples[j])
      {
        samples[k] := Clamp(samples[k], 2.0);
      }
    }
    var exceeding := max > 1.0 || min < -1.0;
    for k := blocked to total
      invariant forall j :: 0 <= j < samples.Length ==>
                  samples[j] == if j < k then Clamp(old(samples[j]), 2.0) else old(samples[j])
      invariant !exceeding <==> InRange(old(samples[..]), k)
    {
      var sample := samples[k];
      samples[k] := Clamp(sample, 2.0);
      exceeding := exceeding || sample > 1.0 || sample < -1.0;
    }
    assert samples[..] == Limited(old(samples[..total])) + old(samples[total..]);
    return !exceeding;
  }

  /** Limits the samples; whether the target has the vector form is fixed when it is built. */
  method Limit2CheckWithin1(samples: array<real>, total: nat, neon: bool) returns (within: bool)
    requires total <= samples.Length
    modifies samples
    ensures within <==> total == 0 || (neon && InRange(old(samples[..]), total))
    ensures samples[..] == Limited(old(samples[..total])) + old(samples[total..])
  {
    if neon {
      within := Limit2CheckWithin1Neon(samples, total);
    } else {
      within := Limit2CheckWithin1Scalar(samples, total);
    }
  }

  lemma LimitedColumn(s: seq<real>, t: seq<real>, n: nat, channels: nat, c: nat)
    requires n * channels <= |s| && c < channels && t == Limited(s[..n * channels]) + s[n * channels..]
    ensures Column(t, n, channels, c) == Limited(Column(s, n, channels, c))
  {
    forall i | 0 <= i < n
      ensures At(i, channels, c) < n * channels && t[At(i, channels, c)] == Clamp(s[At(i, channels, c)], 2.0)
    {
      AtBound(i, n, channels, c);
    }
  }

  /** What becomes of a channel. */
  ghost function ClippedColumn(s: seq<real>, n: nat, channels: nat, c: nat, memory: real, hint: bool): Clipped
    requires n > 0 && n * channels <= |s| && c < channels
  {
    ClipHinted(Limited(Column(s, n, channels, c)), memory, hint)
  }

  /** Channel `d` of a frame: done, or only limited. */
  ghost predicate ChannelIs(s: seq<real>, t: seq<real>, memory: real, memory': real, n: nat, channels: nat, d: nat,
                            done: bool, hint: bool)
    requires n > 0 && n * channels <= |s| == |t| && d < channels
  {
    if done then Clipped(Column(t, n, channels, d), memory') == ClippedColumn(s, n, channels, d, memory, hint)
    else Column(t, n, channels, d) == Limited(Column(s, n, channels, d)) && memory' == memory
  }

  ghost predicate TailIs<T>(s: seq<T>, t: seq<T>, total: nat) {
    |s| == |t| && forall k :: total <= k < |s| ==> t[k] == s[k]
  }

  /** The channels before `c` are done, the others only limited. */
  ghost predicate ChannelsDone(s: seq<real>, t: seq<real>, memory: seq<real>, memory': seq<real>, n: nat, channels: nat,
                               c: nat, hint: bool)
    requires n > 0 && n * channels <= |s| == |t| && channels <= |memory| == |memory'|
  {
    && TailIs(s, t, n * channels) && TailIs(memory, memory', channels)
    && forall d :: 0 <= d < channels ==> ChannelIs(s, t, memory[d], memory'[d], n, channels, d, d < c, hint)
  }

  lemma ChannelDone(s: seq<real>, t: seq<real>, u: seq<real>, memory: seq<real>, memory': seq<real>,
                    n: nat, channels: nat, c: nat, a: real, hint: bool)
    requires n > 0 && n * channels <= |s| == |t| && channels <= |memory| == |memory'| && c < channels
    requires ChannelsDone(s, t, memory, memory', n, channels, c, hint) && OthersKept(t, u, n, channels, c)
    requires Clipped(Column(u, n, channels, c), a) == ClipHinted(Column(t, n, channels, c), memory'[c], hint)
    ensures ChannelsDone(s, u, memory, memory'[c := a], n, channels, c + 1, hint)
  {
    hide Column, ClipHinted, Limited;
  }

  /** Clips a frame in place, and keeps what the next frame needs to know of every channel. */
  method OpusPcmSoftClip(pcm: array<real>, frameSize: nat, channels: nat, softclipMem: array<real>, neon: bool)
    requires pcm != softclipMem
    modifies pcm, softclipMem
    ensures if frameSize == 0 || channels == 0 || pcm.Length < frameSize * channels || softclipMem.Length < channels
            then pcm[..] == old(pcm[..]) && softclipMem[..] == old(softclipMem[..])
            else ChannelsDone(old(pcm[..]), pcm[..], old(softclipMem[..]), softclipMem[..], frameSize, channels,
                              channels, neon && InRange(old(pcm[..]), frameSize * channels))
  {
    hide Column, OthersKept, ClippedColumn, Limited, ClipHinted, InRange;
    if frameSize == 0 || channels == 0 {
      return;
    }
    var total := frameSize * channels;
    if pcm.Length < total || softclipMem.Length < channels {
      return;
    }
    ghost var s, memory := pcm[..], softclipMem[..];
    var allWithin := Limit2CheckWithin1(pcm, total, neon);
    SomeSamples(frameSize, channels);
    LimitsDone(s, pcm[..], memory, frameSize, channels, allWithin);
    for channel := 0 to channels
      invariant ChannelsDone(s, pcm[..], memory, softclipMem[..], frameSize, channels, channel, allWithin)
    {
      ghost var t, memory' := pcm[..], softclipMem[..];
      var a := ClipChannel(pcm, frameSize, channels, channel, softclipMem[channel], allWithin);
      softclipMem[channel] := a;
      assert softclipMem[..] == memory'[channel := a];
      ChannelDone(s, t, pcm[..], memory, memory', frameSize, channels, channel, a, allWithin);
    }
  }

  lemma SomeSamples(n: nat, channels: nat)
    requires n > 0 && channels > 0
    ensures n * channels > 0
  {}

  lemma LimitsDone(s: seq<real>, t: seq<real>, memory: seq<real>, n: nat, channels: nat, hint: bool)
    requires n > 0 && n * channels <= |s| && channels <= |memory|
    requires t == Limited(s[..n * channels]) + s[n * channels..]
    ensures |t| == |s| && ChannelsDone(s, t, memory, memory, n, channels, 0, hint)
  {
    hide Column, Limited, ClippedColumn;
    forall d | 0 <= d < channels
      ensures Column(t, n, channels, d) == Limited(Column(s, n, channels, d))
    {
      LimitedColumn(s, t, n, channels, d);
    }
  }

  lemma PositionOf(k: nat, n: nat, channels: nat) returns (i: nat, c: nat)
    requires k < n * channels
    ensures i < n && c < channels && At(i, channels, c) == k
  {
    i, c := k / channels, k % channels;
    Quotient(n, i, channels);
  }

  lemma Quotient(n: nat, i: nat, channels: nat)
    ensures i >= n ==> i * channels >= n * channels
  {
    if i >= n {
      assert i * channels == n * channels + (i - n) * channels;
    }
  }

  /** A report of samples in range changes nothing, as long as the memory is no larger than 2. */
  lemma HintUnseen(s: seq<real>, t: seq<real>, memory: seq<real>, memory': seq<real>, n: nat, channels: nat, hint: bool)
    requires n > 0 && n * channels <= |s| == |t| && channels <= |memory| == |memory'|
    requires forall d :: 0 <= d < channels ==> Abs(memory[d]) <= 2.0
    requires hint ==> InRange(s, n * channels)
    ensures ChannelsDone(s, t, memory, memory', n, channels, channels, hint)
       <==> ChannelsDone(s, t, memory, memory', n, channels, channels, false)
  {
    hide Column, ClipHinted, Limited, Within, Abs, InRange;
    forall d | 0 <= d < channels
      ensures ClippedColumn(s, n, channels, d, memory[d], hint) == ClippedColumn(s, n, channels, d, memory[d], false)
    {
      if hint {
        LimitedWithin(s, n, channels, d);
        HintExact(Limited(Column(s, n, channels, d)), memory[d]);
        ClipHintedPlain(Limited(Column(s, n, channels, d)), memory[d]);
      }
    }
  }

  lemma ClipHintedPlain(x: seq<real>, memory: real)
    requires |x| > 0
    ensures ClipHinted(x, memory, false) == Clip(x, memory)
  {}

  lemma LimitedWithin(s: seq<real>, n: nat, channels: nat, c: nat)
    requires n * channels <= |s| && c < channels && InRange(s, n * channels)
    ensures AllWithin(Limited(Column(s, n, channels, c)))
  {
    forall i | 0 <= i < n
      ensures Within(Limited(Column(s, n, channels, c))[i])
    {
      AtBound(i, n, channels, c);
    }
  }

  /** A clipped frame is in [-1, 1] everywhere, keeps the sign of every sample, and leaves a memory
      for which the same is true of the next frame. */
  lemma FrameClipped(s: seq<real>, t: seq<real>, memory: seq<real>, memory': seq<real>, n: nat, channels: nat,
                     hint: bool)
    requires n > 0 && n * channels <= |s| == |t| && channels <= |memory| == |memory'|
    requires ChannelsDone(s, t, memory, memory', n, channels, channels, hint)
    requires hint ==> InRange(s, n * channels)
    requires forall d :: 0 <= d < channels ==> Abs(memory[d]) <= MAX_MEMORY
    ensures forall k :: 0 <= k < n * channels ==> Within(t[k]) && SignKept(s[k], t[k])
    ensures forall d :: 0 <= d < channels ==> Abs(memory'[d]) <= MAX_MEMORY
  {
    hide Column, Clip, ClipHinted, Limited, Within, SignKept, Abs, InRange;
    assert MAX_MEMORY <= 2.0;
    HintUnseen(s, t, memory, memory', n, channels, hint);
    forall d | 0 <= d < channels
      ensures Abs(memory'[d]) <= MAX_MEMORY
    {
      ColumnClipped(s, n, channels, d, memory[d]);
    }
    forall k | 0 <= k < n * channels
      ensures Within(t[k]) && SignKept(s[k], t[k])
    {
      var i, c := PositionOf(k, n, channels);
      ColumnClipped(s, n, channels, c, memory[c]);
      ColumnAt(s, n, channels, c, i);
      ColumnAt(t, n, channels, c, i);
      LimitKeepsSign(Column(s, n, channels, c), i);
      SignKeptOn(s[k], Limited(Column(s, n, channels, c))[i], t[k]);
    }
  }

  lemma ColumnClipped(s: seq<real>, n: nat, channels: nat, c: nat, memory: real)
    requires n > 0 && n * channels <= |s| && c < channels && Abs(memory) <= MAX_MEMORY
    ensures var x, y := Limited(Column(s, n, channels, c)), ClippedColumn(s, n, channels, c, memory, false);
            && (forall i :: 0 <= i < n ==> Within(y.samples[i])) && SignsKept(x, y.samples)
            && Abs(y.memory) <= MAX_MEMORY
  {
    hide Column, Clip, Limited, Within, SignKept, Abs;
    LimitedDone(Column(s, n, channels, c));
    ClipBounds(Limited(Column(s, n, channels, c)), memory);
  }

  lemma ColumnAt(s: seq<real>, n: nat, channels: nat, c: nat, i: nat)
    requires n * channels <= |s| && c < channels && i < n
    ensures At(i, channels, c) < n * channels && Column(s, n, channels, c)[i] == s[At(i, channels, c)]
  {
    AtBound(i, n, channels, c);
  }

  lemma LimitedDone(x: seq<real>)
    ensures Done(Limited(x), 0)
  {}

  lemma LimitKeepsSign(x: seq<real>, i: nat)
    requires i < |x|
    ensures SignKept(x[i], Limited(x)[i])
  {}
}
