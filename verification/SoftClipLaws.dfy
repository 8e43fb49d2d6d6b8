/** What the soft clipper does to a frame, said without the functions that describe how. */
module SoftClipLaws {
  import opened SoftClipping
  import opened SoftClipper

  /** There is a zero crossing between the two. */
  predicate Opposite(s: real, t: real) {
    s * t < 0.0
  }

  // ----- the carried nonlinearity -----

  lemma {:induction false} CarryEndAt(x: seq<real>, a: real, i: nat, e: nat)
    requires i <= e <= |x| && (forall k :: i <= k < e ==> Opposite(x[k], a)) && (e < |x| ==> !Opposite(x[e], a))
    ensures CarryEnd(x, a, i) == e
    decreases e - i
  {
    if i < e {
      CarryEndAt(x, a, i + 1, e);
    }
  }

  lemma BendKeeps(x: seq<real>, memory: real, e: nat)
    requires e <= |x| && AllWithin(x) && Abs(memory) <= 2.0 && forall k :: 0 <= k < e ==> Opposite(x[k], memory)
    ensures AllWithin(BendRange(x, memory, 0, e))
  {
    hide Bent, Within;
    var y := BendRange(x, memory, 0, e);
    forall k | 0 <= k < |y|
      ensures Within(y[k])
    {
      if k < e {
        CarryStays(x[k], memory);
      }
    }
  }

  /** A frame in range: the nonlinearity of the frame before goes on exactly up to the first sample that is
      not on the other side of it, and nothing else happens. */
  lemma CarriedOver(x: seq<real>, memory: real, e: nat)
    requires 0 < |x| && e <= |x| && -2.0 <= memory <= 2.0
    requires forall k :: 0 <= k < |x| ==> -1.0 <= x[k] <= 1.0
    requires (forall k :: 0 <= k < e ==> Opposite(x[k], memory)) && (e < |x| ==> !Opposite(x[e], memory))
    ensures var c := Clip(x, memory);
            && c.memory == 0.0
            && forall k :: 0 <= k < |x| ==> c.samples[k] == if k < e then x[k] + memory * x[k] * x[k] else x[k]
  {
    hide SameSide, CarryEnd;
    CarryEndAt(x, memory, 0, e);
    BendKeeps(x, memory, e);
    FirstOutsideAt(BendRange(x, memory, 0, e), 0, |x|);
  }

  // ----- one region -----

  lemma {:induction false} FirstOutsideAt(x: seq<real>, from: nat, i: nat)
    requires from <= i <= |x| && (forall k :: from <= k < i ==> Within(x[k])) && (i < |x| ==> !Within(x[i]))
    ensures FirstOutside(x, from) == i
    decreases i - from
  {
    if from < i {
      FirstOutsideAt(x, from + 1, i);
    }
  }

  lemma {:induction false} RegionStartAt(x: seq<real>, v: real, i: nat, start: nat)
    requires start <= i <= |x| && (forall k :: start <= k < i ==> !Opposite(v, x[k]))
    requires start > 0 ==> Opposite(v, x[start - 1])
    ensures RegionStart(x, v, i) == start
  {
    if start < i {
      RegionStartAt(x, v, i - 1, start);
    }
  }

  lemma {:induction false} RegionEndAt(x: seq<real>, v: real, i: nat, end: nat)
    requires i <= end <= |x| && (forall k :: i <= k < end ==> !Opposite(v, x[k])) && (end < |x| ==> Opposite(v, x[end]))
    ensures RegionEnd(x, v, i) == end
    decreases end - i
  {
    if i < end {
      RegionEndAt(x, v, i + 1, end);
    }
  }

  lemma {:induction false} PeakAt(x: seq<real>, i: nat, e: nat, p: nat)
    requires i <= p < e <= |x|
    requires forall k :: i <= k < e ==> Abs(x[k]) <= Abs(x[p])
    requires forall k :: i <= k < p ==> Abs(x[k]) < Abs(x[p])
    ensures Peak(x, i, e) == p
    decreases e
  {
    if p < e - 1 {
      PeakAt(x, i, e - 1, p);
    } else if i < p {
      assert i <= Peak(x, i, e - 1) < p;
    }
  }

  /** The first region out of range of a frame is the samples `start..end` on one side of zero around `i`, its
      first largest sample is `p`, and no other sample is out of range. */
  ghost predicate OnlyRegion(x: seq<real>, start: nat, i: nat, p: nat, end: nat) {
    && start <= i <= p < end <= |x|
    && (forall k :: 0 <= k < |x| && !(i <= k < end) ==> -1.0 <= x[k] <= 1.0) && !(-1.0 <= x[i] <= 1.0)
    && (forall k :: start <= k < end ==> !Opposite(x[i], x[k]))
    && (start > 0 ==> Opposite(x[i], x[start - 1])) && (end < |x| ==> Opposite(x[i], x[end]))
    && (forall k :: i <= k < end ==> Abs(x[k]) <= Abs(x[p])) && (forall k :: i <= k < p ==> Abs(x[k]) < Abs(x[p]))
  }

  /** The coefficient for a largest sample `v`: what it leaves of it is 1, but for 2.4e-7 of what is bent away. */
  function Against(v: real): real
    requires v != 0.0
  {
    var m := if v < 0.0 then -v else v;
    var a := (m - 1.0) / (m * m) + (m - 1.0) / (m * m) * 0.00000024;
    if v > 0.0 then -a else a
  }

  /** A bent sample `k` of those before sample `p`, with its part of a ramp from `jump` down to 0. */
  function Joined(bent: real, jump: real, p: nat, k: nat): real
    requires p > 0
  {
    var v := bent + (jump - (k + 1) as real * (jump / p as real));
    if v < -1.0 then -1.0 else if v > 1.0 then 1.0 else v
  }

  /** A sample with the nonlinearity. */
  function With(s: real, a: real): real {
    s + a * s * s
  }

  /** A sample after the region is bent, and after the ramp if the region reaches the start of the frame. */
  function RegionResult(x: seq<real>, start: nat, p: nat, end: nat, a: real, k: nat): real
    requires start <= p < end <= |x| && k < |x|
  {
    var bent := if start <= k < end then With(x[k], a) else x[k];
    if start == 0 && 2 <= p && k < p then Joined(bent, x[0] - With(x[0], a), p, k) else bent
  }

  lemma SameCoefficient(x: seq<real>, start: nat, i: nat, p: nat, end: nat)
    requires OnlyRegion(x, start, i, p, end)
    ensures x[p] != 0.0 && Abs(x[p]) > 1.0 && Coefficient(x[i], Abs(x[p])) == Against(x[p])
  {
    assert Abs(x[p]) >= Abs(x[i]) > 1.0;
    assert !Opposite(x[i], x[p]);
    SameSign(x[i], x[p]);
  }

  lemma SameSign(v: real, w: real)
    requires !Opposite(v, w) && v != 0.0 && w != 0.0
    ensures v > 0.0 <==> w > 0.0
  {}

  /** One region is bent and, at the start of a frame, joined to what came before it; the coefficient is kept
      for the next frame exactly if the region reaches the end. */
  lemma OneRegion(x: seq<real>, start: nat, i: nat, p: nat, end: nat)
    requires OnlyRegion(x, start, i, p, end)
    ensures x[p] != 0.0
    ensures var c, a := Clip(x, 0.0), Against(x[p]);
            && c.memory == (if end == |x| then a else 0.0)
            && forall k :: 0 <= k < |x| ==> c.samples[k] == RegionResult(x, start, p, end, a, k)
  {
    hide Strength, Against, Coefficient, Bent, RegionStart, RegionEnd, Peak, FirstOutside, RampRange, BendRange, Clamp;
    SameCoefficient(x, start, i, p, end);
    NothingCarried(x);
    FirstOutsideAt(x, 0, i);
    RegionStartAt(x, x[i], i, start);
    RegionEndAt(x, x[i], i, end);
    PeakAt(x, i, end, p);
    var a := Against(x[p]);
    Crossed(x, i);
    var c := ClipRegion(x, x[0], 0, i);
    RegionSamplesAre(x, start, i, p, end, a);
    if end < |x| {
      assert forall k :: end <= k < |x| ==> c.samples[k] == x[k];
      FirstOutsideAt(c.samples, end, |x|);
      assert ClipFrom(c.samples, x[0], end) == Clipped(c.samples, 0.0);
    }
  }

  lemma NothingCarried(x: seq<real>)
    requires |x| > 0
    ensures BendRange(x, 0.0, 0, CarryEnd(x, 0.0, 0)) == x
  {
    CarryEndAt(x, 0.0, 0, 0);
  }

  lemma RegionSamplesAre(x: seq<real>, start: nat, i: nat, p: nat, end: nat, a: real)
    requires OnlyRegion(x, start, i, p, end) && a == Coefficient(x[i], Abs(x[p])) && Abs(x[p]) > 0.0
    requires RegionStart(x, x[i], i) == start && RegionEnd(x, x[i], i) == end && Peak(x, i, end) == p
    ensures ClipRegion(x, x[0], 0, i).memory == a
    ensures forall k :: 0 <= k < |x| ==> ClipRegion(x, x[0], 0, i).samples[k] == RegionResult(x, start, p, end, a, k)
  {
    hide Coefficient, RegionStart, RegionEnd, Peak, RegionResult, RampRange, BendRange;
    if start == 0 {
      assert !Opposite(x[i], x[0]);
    }
    assert SameSide(x[i], x[0]) || start > 0;
    Crossed(x, i);
    forall k | 0 <= k < |x|
      ensures ClipRegion(x, x[0], 0, i).samples[k] == RegionResult(x, start, p, end, a, k)
    {
      ResultAt(x, start, p, end, a, k);
    }
  }

  lemma ResultAt(x: seq<real>, start: nat, p: nat, end: nat, a: real, k: nat)
    requires start <= p < end <= |x| && k < |x|
    ensures var y := BendRange(x, a, start, end);
            (if start == 0 && p >= 2 then RampRange(y, x[0] - y[0], 0, p, p)[k] else y[k])
            == RegionResult(x, start, p, end, a, k)
  {
    hide Clamp, RampAt, RampRange, Joined, With, Bent;
    BentIsWith(x[k], a);
    BentIsWith(x[0], a);
    if start == 0 && p >= 2 {
      var y := BendRange(x, a, start, end);
      RampedAt(y, x[0] - y[0], p, k);
      JoinedIs(y[k], x[0] - y[0], p, k);
    }
  }

  lemma BentIsWith(s: real, a: real)
    ensures Bent(s, a) == With(s, a)
  {}

  lemma RampedAt(y: seq<real>, jump: real, p: nat, k: nat)
    requires p > 0 && k < |y|
    ensures RampRange(y, jump, 0, p, p)[k] == if k < p then Clamp(y[k] + RampAt(jump, k + 1, p), 1.0) else y[k]
  {
    hide Clamp, RampAt;
  }

  lemma JoinedIs(bent: real, jump: real, p: nat, k: nat)
    requires p > 0
    ensures Clamp(bent + RampAt(jump, k + 1, p), 1.0) == Joined(bent, jump, p, k)
  {}

  // ----- frames -----

  /** The limiter cuts off at 2. */
  lemma LimitedAt2(x: seq<real>, k: nat)
    requires k < |x|
    ensures Limited(x)[k] == if x[k] < -2.0 then -2.0 else if x[k] > 2.0 then 2.0 else x[k]
  {}

  /** A channel of an interleaved frame in range: the nonlinearity goes on up to the first sample of that channel
      that is not on the other side of it, with either limiter. */
  lemma FrameCarried(s: seq<real>, t: seq<real>, memory: seq<real>, memory': seq<real>, n: nat, channels: nat,
                     hint: bool, c: nat, e: nat)
    requires n > 0 && n * channels <= |s| == |t| && channels <= |memory| == |memory'| && c < channels && e <= n
    requires ChannelsDone(s, t, memory, memory', n, channels, channels, hint) && InRange(s, n * channels)
    requires forall d :: 0 <= d < channels ==> -2.0 <= memory[d] <= 2.0
    requires forall k :: 0 <= k < n ==> 0 <= k * channels + c < n * channels
    requires forall k :: 0 <= k < e ==> Opposite(s[k * channels + c], memory[c])
    requires e < n ==> !Opposite(s[e * channels + c], memory[c])
    ensures memory'[c] == 0.0
    ensures forall k :: 0 <= k < n ==>
              var v := s[k * channels + c];
              t[k * channels + c] == if k < e then v + memory[c] * v * v else v
  {
    hide Clip, ClipHinted, ChannelsDone, InRange, Limited, ClippedColumn, Column;
    HintUnseen(s, t, memory, memory', n, channels, hint);
    var x := Column(s, n, channels, c);
    ColumnIs(s, n, channels, c);
    ColumnIs(t, n, channels, c);
    ChannelClipped(s, t, memory, memory', n, channels, c);
    Unlimited(s, n, channels, c);
    CarriedOver(x, memory[c], e);
  }

  lemma ColumnIs(s: seq<real>, n: nat, channels: nat, c: nat)
    requires n * channels <= |s| && c < channels
    ensures forall k :: 0 <= k < n ==>
              0 <= k * channels + c < |s| && Column(s, n, channels, c)[k] == s[k * channels + c]
  {
    hide Column;
    forall k | 0 <= k < n
      ensures 0 <= k * channels + c < |s| && Column(s, n, channels, c)[k] == s[k * channels + c]
    {
      ColumnAt(s, n, channels, c, k);
    }
  }

  lemma ChannelClipped(s: seq<real>, t: seq<real>, memory: seq<real>, memory': seq<real>, n: nat, channels: nat, c: nat)
    requires n > 0 && n * channels <= |s| == |t| && channels <= |memory| == |memory'| && c < channels
    requires ChannelsDone(s, t, memory, memory', n, channels, channels, false)
    ensures Clipped(Column(t, n, channels, c), memory'[c]) == Clip(Limited(Column(s, n, channels, c)), memory[c])
  {
    hide Clip, Limited, Column;
    assert ChannelIs(s, t, memory[c], memory'[c], n, channels, c, c < channels, false);
  }

  lemma Unlimited(s: seq<real>, n: nat, channels: nat, c: nat)
    requires n * channels <= |s| && c < channels && InRange(s, n * channels)
    ensures Limited(Column(s, n, channels, c)) == Column(s, n, channels, c)
    ensures forall k :: 0 <= k < n ==> -1.0 <= Column(s, n, channels, c)[k] <= 1.0
  {
    hide Column;
    forall k | 0 <= k < n
      ensures -1.0 <= Column(s, n, channels, c)[k] <= 1.0
    {
      ColumnAt(s, n, channels, c, k);
    }
  }
}
