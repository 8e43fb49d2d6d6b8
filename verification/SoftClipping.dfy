/** Soft clipping of one channel over real numbers: what comes out for what goes in. */
module SoftClipping {
  const EPS: real := 0.00000024

  function Abs(x: real): real {
    if x < 0.0 then -x else x
  }

  function Clamp(x: real, bound: real): real
    requires bound >= 0.0
  {
    if x < -bound then -bound else if x > bound then bound else x
  }

  /** Both at least 0 or both at most 0. */
  predicate SameSide(s: real, t: real) {
    s * t >= 0.0
  }

  /** The nonlinearity. */
  function Bent(s: real, a: real): real {
    s + a * s * s
  }

  function BendRange(x: seq<real>, a: real, start: nat, end: nat): (y: seq<real>)
    ensures |y| == |x|
  {
    seq(|x|, k requires 0 <= k < |x| => if start <= k < end then Bent(x[k], a) else x[k])
  }

  /** Where the nonlinearity of the previous frame ends: at its first zero crossing. */
  function CarryEnd(x: seq<real>, a: real, i: nat): (e: nat)
    requires i <= |x|
    ensures i <= e <= |x|
    decreases |x| - i
  {
    if i == |x| || SameSide(x[i], a) then i else CarryEnd(x, a, i + 1)
  }

  predicate Within(s: real) {
    -1.0 <= s <= 1.0
  }

  function FirstOutside(x: seq<real>, i: nat): (k: nat)
    requires i <= |x|
    ensures i <= k <= |x| && (k < |x| ==> !Within(x[k]))
    decreases |x| - i
  {
    if i == |x| || !Within(x[i]) then i else FirstOutside(x, i + 1)
  }

  /** The zero crossing before `i`, seen from the sample value `v`. */
  function RegionStart(x: seq<real>, v: real, i: nat): (s: nat)
    requires i <= |x|
    ensures s <= i
  {
    if i == 0 || !SameSide(v, x[i - 1]) then i else RegionStart(x, v, i - 1)
  }

  /** The zero crossing at `i` or after it. */
  function RegionEnd(x: seq<real>, v: real, i: nat): (e: nat)
    requires i <= |x|
    ensures i <= e <= |x|
    decreases |x| - i
  {
    if i == |x| || !SameSide(v, x[i]) then i else RegionEnd(x, v, i + 1)
  }

  /** The first of the largest magnitudes in `i..e`. */
  function Peak(x: seq<real>, i: nat, e: nat): (p: nat)
    requires i < e <= |x|
    ensures i <= p < e
    decreases e
  {
    if e == i + 1 then i
    else
      var p := Peak(x, i, e - 1);
      if Abs(x[e - 1]) > Abs(x[p]) then e - 1 else p
  }

  /** The strength of the nonlinearity that bends the magnitude `m` to a little less than 1. */
  function Strength(m: real): real
    requires m > 0.0
  {
    (m - 1.0) / (m * m) + (m - 1.0) / (m * m) * EPS
  }

  /** It is directed against the sign of `v`. */
  function Coefficient(v: real, m: real): real
    requires m > 0.0
  {
    if v > 0.0 then -Strength(m) else Strength(m)
  }

  /** What is left of `offset` after `n` of `peak` equal steps down to 0. */
  function RampAt(offset: real, n: nat, peak: nat): real
    requires peak > 0
  {
    offset - n as real * (offset / peak as real)
  }

  /** Adds a linear ramp from `offset` down to 0 at sample `peak`, over the samples `from..end`. */
  function RampRange(x: seq<real>, offset: real, from: nat, end: nat, peak: nat): (y: seq<real>)
    requires peak > 0
    ensures |y| == |x|
  {
    seq(|x|, k requires 0 <= k < |x| =>
      if from <= k < end then Clamp(x[k] + RampAt(offset, k - from + 1, peak), 1.0) else x[k])
  }

  /** The samples of a channel after a frame, and the coefficient that the next frame starts with. */
  datatype Clipped = Clipped(samples: seq<real>, memory: real)

  /** One region that goes beyond [-1, 1]: `i` is its first sample out of range. */
  function ClipRegion(x: seq<real>, x0: real, curr: nat, i: nat): (c: Clipped)
    requires curr <= i < |x| && !Within(x[i])
    ensures |c.samples| == |x|
  {
    Crossed(x, i);
    var start, end := RegionStart(x, x[i], i), RegionEnd(x, x[i], i);
    var peak := Peak(x, i, end);
    PeakLarge(x, i, end);
    var a := Coefficient(x[i], Abs(x[peak]));
    var y := BendRange(x, a, start, end);
    if start == 0 && SameSide(x[i], x[0]) && peak >= 2
    then Clipped(RampRange(y, x0 - y[0], curr, peak, peak), a)
    else Clipped(y, a)
  }

  /** Region after region from `curr` on. */
  function ClipFrom(x: seq<real>, x0: real, curr: nat): (c: Clipped)
    requires curr <= |x|
    ensures |c.samples| == |x|
    decreases |x| - curr
  {
    var i := FirstOutside(x, curr);
    if i == |x| then Clipped(x, 0.0)
    else
      Crossed(x, i);
      var end := RegionEnd(x, x[i], i);
      var c := ClipRegion(x, x0, curr, i);
      if end == |x| then c else ClipFrom(c.samples, x0, end)
  }

  /** A whole frame of one channel. */
  function Clip(x: seq<real>, memory: real): (c: Clipped)
    requires |x| > 0
    ensures |c.samples| == |x|
  {
    var y := BendRange(x, memory, 0, CarryEnd(x, memory, 0));
    ClipFrom(y, y[0], 0)
  }

  lemma SquarePositive(v: real)
    requires v != 0.0
    ensures v * v > 0.0
  {}

  /** The region that a sample out of range belongs to is not empty. */
  lemma Crossed(x: seq<real>, i: nat)
    requires i < |x| && !Within(x[i])
    ensures RegionEnd(x, x[i], i) > i
  {
    SquarePositive(x[i]);
  }

  lemma {:induction false} PeakIs(x: seq<real>, i: nat, e: nat)
    requires i < e <= |x|
    ensures forall k :: i <= k < e ==> Abs(x[k]) <= Abs(x[Peak(x, i, e)])
    decreases e
  {
    if e > i + 1 {
      PeakIs(x, i, e - 1);
    }
  }

  lemma PeakLarge(x: seq<real>, i: nat, e: nat)
    requires i < e <= |x| && !Within(x[i])
    ensures Abs(x[Peak(x, i, e)]) > 1.0
  {
    PeakIs(x, i, e);
  }

  // ----- the nonlinearity -----

  lemma StrengthTimes(m: real)
    requires 1.0 < m <= 2.0
    ensures Strength(m) * m * m == (m - 1.0) * (1.0 + EPS)
    ensures Strength(m) >= 0.0
  {
    var q := (m - 1.0) / (m * m);
    assert q * (m * m) == m - 1.0;
    assert q >= 0.0;
    assert Strength(m) == q * (1.0 + EPS);
    assert Strength(m) * m * m == q * (m * m) * (1.0 + EPS);
  }

  lemma ProductPositive(a: real, b: real)
    requires a >= 0.0 && b >= 0.0
    ensures a * b >= 0.0
  {}

  lemma ProductMonotone(a: real, b: real, c: real)
    requires a <= b && c >= 0.0
    ensures a * c <= b * c
  {}

  /** (m - 1) / m^2 is never more than 1/4. */
  lemma StrengthBound(m: real)
    requires 1.0 < m <= 2.0
    ensures 0.0 <= Strength(m) <= 0.25 * (1.0 + EPS)
  {
    StrengthTimes(m);
    var k := Strength(m);
    assert (m - 2.0) * (m - 2.0) >= 0.0;
    assert m - 1.0 <= 0.25 * (m * m);
    ProductMonotone(m - 1.0, 0.25 * (m * m), 1.0 + EPS);
    assert k * (m * m) <= 0.25 * (1.0 + EPS) * (m * m);
    if k > 0.25 * (1.0 + EPS) {
      StrictProduct(0.25 * (1.0 + EPS), k, m * m);
    }
  }

  lemma StrictProduct(a: real, b: real, c: real)
    requires a < b && c > 0.0
    ensures a * c < b * c
  {}

  function Shrunk(s: real, m: real): real
    requires m > 0.0
  {
    s - Strength(m) * s * s
  }

  /** Up to the magnitude `m` that the coefficient is made for, what comes out is at most 1. */
  lemma BendBounds(s: real, m: real)
    requires 1.0 < m <= 2.0 && 0.0 <= s <= m
    ensures 0.0 <= Shrunk(s, m) <= 1.0 && Shrunk(s, m) <= s && (s > 0.0 ==> Shrunk(s, m) > 0.0)
  {
    hide Strength;
    var k := Strength(m);
    StrengthBound(m);
    ProductMonotone(s, 2.0, k);
    var q := k * s;
    ProductPositive(k, s);
    var twice := 2.0 * k;
    assert q <= twice < 1.0;
    BentPositive(s, q);
    BentAtMostOne(s, m);
    assert Shrunk(s, m) == s - q * s;
  }

  lemma BentPositive(s: real, q: real)
    requires s >= 0.0 && 0.0 <= q < 1.0
    ensures 0.0 <= q * s <= s && (s > 0.0 ==> q * s < s)
  {
    if s > 0.0 {
      StrictProduct(q, 1.0, s);
    }
  }

  lemma BentAtMostOne(s: real, m: real)
    requires 1.0 < m <= 2.0 && 0.0 <= s <= m
    ensures s - Strength(m) * s * s <= 1.0
  {
    hide Strength;
    var k := Strength(m);
    StrengthTimes(m);
    SecondFactor(s, m);
    ProductPositive(m - s, m - s * (m - 1.0));
    ProductPositive((m - 1.0) * EPS, s * s);
    var d := 1.0 - s + k * s * s;
    Factored(s, m, k);
    if d < 0.0 {
      StrictProduct(d, 0.0, m * m);
    }
  }

  lemma AtMostItself(d: real, s: real)
    requires d <= 1.0 && 0.0 <= s
    ensures s * d <= s
  {
    ProductMonotone(d, 1.0, s);
  }

  lemma SecondFactor(s: real, m: real)
    requires 1.0 < m <= 2.0 && 0.0 <= s <= m
    ensures m - s * (m - 1.0) >= 0.0
  {
    AtMostItself(m - 1.0, s);
    NotAbove(s * (m - 1.0), s, m);
  }

  lemma NotAbove(a: real, b: real, c: real)
    requires a <= b <= c
    ensures c - a >= 0.0
  {}

  /** m^2 (1 - s + k s^2) as a sum of two terms that are not negative. */
  lemma Factored(s: real, m: real, k: real)
    requires k * m * m == (m - 1.0) * (1.0 + EPS)
    ensures (1.0 - s + k * s * s) * (m * m) == (m - s) * (m - s * (m - 1.0)) + (m - 1.0) * EPS * (s * s)
  {
    assert (k * s * s) * (m * m) == (k * m * m) * (s * s);
    assert (k * m * m) * (s * s) == (m - 1.0) * (1.0 + EPS) * (s * s);
  }

  /** The largest sample of a region comes out at almost exactly 1. */
  lemma PeakBent(v: real, m: real)
    requires 1.0 < m <= 2.0 && v != 0.0
    ensures var p := if v > 0.0 then m else -m;
            Abs(Bent(p, Coefficient(v, m))) == 1.0 - (m - 1.0) * EPS
  {
    StrengthTimes(m);
    assert Strength(m) * m * m == Strength(m) * (-m) * (-m);
  }

  /** The sign is kept, except that 0 may become anything. */
  predicate SignKept(s: real, t: real) {
    (s > 0.0 ==> t > 0.0) && (s < 0.0 ==> t < 0.0)
  }

  lemma SignedBend(s: real, v: real, m: real)
    requires 1.0 < m <= 2.0 && v != 0.0 && SameSide(v, s) && Abs(s) <= m
    ensures var t := Bent(s, Coefficient(v, m));
            Within(t) && SignKept(s, t) && SameSide(v, t) && SameSide(v, s - t)
  {
    hide Strength, Bent, Coefficient;
    SignOf(v, s);
    BentIs(s, v, m);
    if v > 0.0 {
      BendBounds(s, m);
      ProductPositive(v, Bent(s, Coefficient(v, m)));
      ProductPositive(v, s - Bent(s, Coefficient(v, m)));
    } else {
      BendBounds(-s, m);
      ProductPositive(-v, -Bent(s, Coefficient(v, m)));
      ProductPositive(-v, -(s - Bent(s, Coefficient(v, m))));
    }
  }

  lemma BentIs(s: real, v: real, m: real)
    requires m > 0.0 && v != 0.0
    ensures Bent(s, Coefficient(v, m)) == if v > 0.0 then Shrunk(s, m) else -Shrunk(-s, m)
  {
    hide Strength;
    var k := Strength(m);
    assert k * s * s == k * (-s) * (-s);
  }

  lemma SignOf(v: real, s: real)
    requires v != 0.0 && SameSide(v, s)
    ensures if v > 0.0 then s >= 0.0 else s <= 0.0
  {
    if v > 0.0 && s < 0.0 {
      StrictProduct(s, 0.0, v);
    } else if v < 0.0 && s > 0.0 {
      StrictProduct(0.0, s, -v);
    }
  }

  // ----- a region -----

  lemma {:induction false} RegionStartIs(x: seq<real>, v: real, i: nat)
    requires i <= |x|
    ensures forall k :: RegionStart(x, v, i) <= k < i ==> SameSide(v, x[k])
    ensures RegionStart(x, v, i) > 0 ==> !SameSide(v, x[RegionStart(x, v, i) - 1])
  {
    if i > 0 && SameSide(v, x[i - 1]) {
      RegionStartIs(x, v, i - 1);
    }
  }

  lemma {:induction false} RegionEndIs(x: seq<real>, v: real, i: nat)
    requires i <= |x|
    ensures forall k :: i <= k < RegionEnd(x, v, i) ==> SameSide(v, x[k])
    ensures RegionEnd(x, v, i) < |x| ==> !SameSide(v, x[RegionEnd(x, v, i)])
    decreases |x| - i
  {
    if i < |x| && SameSide(v, x[i]) {
      RegionEndIs(x, v, i + 1);
    }
  }

  lemma {:induction false} FirstOutsideIs(x: seq<real>, i: nat)
    requires i <= |x|
    ensures forall k :: i <= k < FirstOutside(x, i) ==> Within(x[k])
    decreases |x| - i
  {
    if i < |x| && Within(x[i]) {
      FirstOutsideIs(x, i + 1);
    }
  }

  /** The samples before `curr` are done; the others are at most 2. */
  ghost predicate Done(x: seq<real>, curr: nat) {
    forall k :: 0 <= k < |x| ==> Abs(x[k]) <= 2.0 && (k < curr ==> Within(x[k]))
  }

  ghost predicate SignsKept(x: seq<real>, y: seq<real>) {
    |x| == |y| && forall k :: 0 <= k < |x| ==> SignKept(x[k], y[k])
  }

  /** There is a zero crossing before `curr`. */
  ghost predicate CrossedBefore(x: seq<real>, curr: nat) {
    0 < curr < |x| ==> exists j :: 0 <= j < curr && !SameSide(x[j], x[curr])
  }

  lemma SameSideSelf(v: real)
    ensures SameSide(v, v)
  {}

  lemma OppositeSides(v: real, s: real, t: real)
    requires v != 0.0 && !SameSide(s, t)
    ensures !SameSide(v, s) || !SameSide(v, t)
  {
    if SameSide(v, s) && SameSide(v, t) {
      SignOf(v, s);
      SignOf(v, t);
      SameSides(s, t, v);
    }
  }

  lemma SameSides(s: real, t: real, v: real)
    requires if v > 0.0 then s >= 0.0 && t >= 0.0 else s <= 0.0 && t <= 0.0
    ensures s * t >= 0.0
  {
    if v > 0.0 {
      ProductPositive(s, t);
    } else {
      ProductPositive(-s, -t);
      assert s * t == (-s) * (-t);
    }
  }

  /** Only the first region can reach the start of the frame. */
  lemma LaterStart(x: seq<real>, curr: nat, i: nat)
    requires 0 < curr <= i < |x| && x[i] != 0.0 && CrossedBefore(x, curr)
    ensures RegionStart(x, x[i], i) > 0
  {
    hide SameSide;
    RegionStartIs(x, x[i], i);
    SameSideSelf(x[i]);
    var j :| 0 <= j < curr && !SameSide(x[j], x[curr]);
    OppositeSides(x[i], x[j], x[curr]);
  }

  lemma RampOffset(offset: real, n: nat, peak: nat, v: real)
    requires SameSide(v, offset) && v != 0.0 && 0 < n <= peak
    ensures SameSide(v, RampAt(offset, n, peak))
  {
    SignOf(v, offset);
    var d := offset / peak as real;
    assert d * peak as real == offset;
    var w := peak as real - n as real;
    assert w * d == offset - n as real * d;
    if v > 0.0 {
      assert d >= 0.0;
      ProductPositive(w, d);
      ProductPositive(v, w * d);
    } else {
      assert d <= 0.0;
      ProductPositive(w, -d);
      ProductPositive(-v, -(w * d));
    }
  }

  lemma RampSample(s: real, r: real, v: real)
    requires v != 0.0 && SameSide(v, s) && SameSide(v, r)
    ensures var t := Clamp(s + r, 1.0); Within(t) && SignKept(s, t)
  {
    SignOf(v, s);
    SignOf(v, r);
  }

  /** What a region has in common: its sign, and a magnitude that the coefficient is made for. */
  lemma RegionSamples(x: seq<real>, curr: nat, i: nat, k: nat)
    requires Done(x, curr) && curr <= |x| && i == FirstOutside(x, curr) < |x|
    requires RegionStart(x, x[i], i) <= k < RegionEnd(x, x[i], i)
    ensures RegionEnd(x, x[i], i) > i
    ensures var m := Abs(x[Peak(x, i, RegionEnd(x, x[i], i))]);
            1.0 < m <= 2.0 && SameSide(x[i], x[k]) && Abs(x[k]) <= m
  {
    hide SameSide;
    Crossed(x, i);
    var end := RegionEnd(x, x[i], i);
    RegionStartIs(x, x[i], i);
    RegionEndIs(x, x[i], i);
    PeakIs(x, i, end);
    PeakLarge(x, i, end);
    FirstOutsideIs(x, curr);
    assert k < i ==> Within(x[k]);
  }

  /** A region starts after a zero crossing, or else at the start of the frame. */
  ghost predicate RegionReady(x: seq<real>, x0: real, curr: nat) {
    0 < |x| && curr <= |x| && Done(x, curr) && CrossedBefore(x, curr) && (curr == 0 ==> x0 == x[0])
  }

  lemma SignKeptOn(s: real, t: real, u: real)
    requires SignKept(s, t) && SignKept(t, u)
    ensures SignKept(s, u)
  {}

  lemma RampedSample(x: seq<real>, i: nat, k: nat, peak: nat)
    requires |x| > 0 && Done(x, 0) && i == FirstOutside(x, 0) < |x| && RegionEnd(x, x[i], i) > i
    requires peak == Peak(x, i, RegionEnd(x, x[i], i)) && Abs(x[peak]) > 1.0
    requires RegionStart(x, x[i], i) == 0 && k < peak
    ensures var a := Coefficient(x[i], Abs(x[peak]));
            var t := Clamp(Bent(x[k], a) + RampAt(x[0] - Bent(x[0], a), k + 1, peak), 1.0);
            Within(t) && SignKept(x[k], t)
  {
    hide SameSide, Bent, Coefficient, Clamp, SignKept, RampAt, Peak, RegionEnd, RegionStart, FirstOutside, Done, Within;
    RegionSamples(x, 0, i, 0);
    RegionSamples(x, 0, i, k);
    var v, m := x[i], Abs(x[peak]);
    var a := Coefficient(v, m);
    OutsideNonzero(v);
    SignedBend(x[0], v, m);
    SignedBend(x[k], v, m);
    RampOffset(x[0] - Bent(x[0], a), k + 1, peak, v);
    RampSample(Bent(x[k], a), RampAt(x[0] - Bent(x[0], a), k + 1, peak), v);
    SignKeptOn(x[k], Bent(x[k], a), Clamp(Bent(x[k], a) + RampAt(x[0] - Bent(x[0], a), k + 1, peak), 1.0));
  }

  lemma OutsideNonzero(v: real)
    ensures !Within(v) ==> v != 0.0
  {}

  lemma RegionAt(x: seq<real>, x0: real, curr: nat, i: nat, k: nat)
    requires curr <= i < |x| && !Within(x[i]) && k < |x|
    ensures RegionEnd(x, x[i], i) > i && Abs(x[Peak(x, i, RegionEnd(x, x[i], i))]) > 1.0
    ensures var start, end := RegionStart(x, x[i], i), RegionEnd(x, x[i], i);
            var peak := Peak(x, i, end);
            var a := Coefficient(x[i], Abs(x[peak]));
            var b := if start <= k < end then Bent(x[k], a) else x[k];
            ClipRegion(x, x0, curr, i).samples[k]
              == if start == 0 && SameSide(x[i], x[0]) && peak >= 2 && curr <= k < peak
                 then Clamp(b + RampAt(x0 - Bent(x[0], a), k - curr + 1, peak), 1.0) else b
  {
    hide SameSide, Bent, Coefficient, Clamp, RampAt, Abs, Peak;
    Crossed(x, i);
    PeakLarge(x, i, RegionEnd(x, x[i], i));
  }

  /** What a region does to every sample. */
  lemma RegionSample(x: seq<real>, x0: real, curr: nat, i: nat, k: nat)
    requires RegionReady(x, x0, curr) && i == FirstOutside(x, curr) < |x| && k < |x|
    ensures var t := ClipRegion(x, x0, curr, i).samples[k];
            && (if k < RegionEnd(x, x[i], i) then Within(t) else t == x[k])
            && SignKept(x[k], t)
  {
    hide SameSide, Bent, Coefficient, Clamp, ClipRegion, RampAt, Peak, Abs;
    var start, end := RegionStart(x, x[i], i), RegionEnd(x, x[i], i);
    RegionAt(x, x0, curr, i, k);
    FirstOutsideIs(x, curr);
    if start <= k < end {
      RegionSamples(x, curr, i, k);
      SignedBend(x[k], x[i], Abs(x[Peak(x, i, end)]));
    }
    if start == 0 {
      if curr > 0 {
        LaterStart(x, curr, i);
      } else if k < Peak(x, i, end) {
        RampedSample(x, i, k, Peak(x, i, end));
      }
    }
  }

  // ----- a frame -----

  const MAX_MEMORY: real := 0.25 * (1.0 + EPS)

  lemma RegionNext(x: seq<real>, x0: real, curr: nat, i: nat)
    requires RegionReady(x, x0, curr) && i == FirstOutside(x, curr) < |x|
    ensures var c, end := ClipRegion(x, x0, curr, i), RegionEnd(x, x[i], i);
            && i < end && Done(c.samples, end) && CrossedBefore(c.samples, end) && SignsKept(x, c.samples)
            && Abs(c.memory) <= MAX_MEMORY
  {
    hide SameSide, ClipRegion, SignKept;
    var c, end := ClipRegion(x, x0, curr, i), RegionEnd(x, x[i], i);
    Crossed(x, i);
    forall k | 0 <= k < |x|
      ensures Abs(c.samples[k]) <= 2.0 && (k < end ==> Within(c.samples[k])) && SignKept(x[k], c.samples[k])
    {
      RegionSample(x, x0, curr, i, k);
    }
    RegionMemory(x, x0, curr, i);
    if end < |x| {
      RegionEndIs(x, x[i], i);
      RegionSample(x, x0, curr, i, end);
      StillOpposite(x[i], c.samples[i], x[end]);
    }
  }

  lemma StillOpposite(s: real, t: real, u: real)
    requires !SameSide(s, u) && SignKept(s, t)
    ensures !SameSide(t, u)
  {
    if s > 0.0 {
      StrictSide(s, u);
      StrictProduct(u, 0.0, t);
    } else {
      StrictSide(-s, -u);
      assert (-s) * (-u) == s * u;
      StrictProduct(0.0, u, -t);
    }
  }

  lemma StrictSide(s: real, u: real)
    requires s * u < 0.0 && s >= 0.0
    ensures s > 0.0 && u < 0.0
  {
    if u >= 0.0 {
      ProductPositive(s, u);
    }
  }

  lemma RegionMemory(x: seq<real>, x0: real, curr: nat, i: nat)
    requires RegionReady(x, x0, curr) && i == FirstOutside(x, curr) < |x|
    ensures Abs(ClipRegion(x, x0, curr, i).memory) <= MAX_MEMORY
  {
    hide SameSide, Strength, BendRange, RampRange;
    RegionStartIs(x, x[i], i);
    Crossed(x, i);
    RegionSamples(x, curr, i, i);
    StrengthBound(Abs(x[Peak(x, i, RegionEnd(x, x[i], i))]));
  }

  lemma SignsKeptOn(x: seq<real>, y: seq<real>, z: seq<real>)
    requires SignsKept(x, y) && SignsKept(y, z)
    ensures SignsKept(x, z)
  {
    hide SignKept;
    forall k | 0 <= k < |x|
      ensures SignKept(x[k], z[k])
    {
      SignKeptOn(x[k], y[k], z[k]);
    }
  }

  lemma {:induction false} ClipFromBounds(x: seq<real>, x0: real, curr: nat)
    requires RegionReady(x, x0, curr)
    ensures var c := ClipFrom(x, x0, curr);
            Done(c.samples, |x|) && SignsKept(x, c.samples) && Abs(c.memory) <= MAX_MEMORY
    decreases |x| - curr
  {
    hide ClipRegion, CrossedBefore, RegionEnd, SignsKept;
    var i := FirstOutside(x, curr);
    if i == |x| {
      FirstOutsideIs(x, curr);
      SignsSame(x);
    } else {
      RegionNext(x, x0, curr, i);
      var c, end := ClipRegion(x, x0, curr, i), RegionEnd(x, x[i], i);
      if end < |x| {
        ClipFromBounds(c.samples, x0, end);
        SignsKeptOn(x, c.samples, ClipFrom(c.samples, x0, end).samples);
      }
    }
  }

  lemma SignsSame(x: seq<real>)
    ensures SignsKept(x, x)
  {}

  lemma {:induction false} CarryEndIs(x: seq<real>, a: real, i: nat)
    requires i <= |x|
    ensures forall k :: i <= k < CarryEnd(x, a, i) ==> !SameSide(x[k], a)
    decreases |x| - i
  {
    if i < |x| && !SameSide(x[i], a) {
      CarryEndIs(x, a, i + 1);
    }
  }

  /** The nonlinearity of the previous frame makes samples smaller, without changing their sign. */
  lemma CarrySample(s: real, a: real)
    requires !SameSide(s, a) && Abs(s) <= 2.0 && Abs(a) <= MAX_MEMORY
    ensures Abs(Bent(s, a)) <= Abs(s) && SignKept(s, Bent(s, a))
  {
    var k, m := Abs(a), Abs(s);
    var d := CarryStep(m, k);
    if s >= 0.0 {
      StrictSide(s, a);
      assert a * s * s == -(k * m * m);
      assert Bent(s, a) == m - d;
    } else {
      assert (-s) * (-a) == s * a;
      StrictSide(-s, -a);
      assert a * s * s == k * m * m;
      assert Bent(s, a) == -(m - d);
    }
  }

  lemma HalfAtMost(m: real, k: real) returns (q: real)
    requires 0.0 <= m <= 2.0 && 0.0 <= k <= MAX_MEMORY
    ensures q == m * k && 0.0 <= q < 1.0
  {
    q := m * k;
    ProductMonotone(m, 2.0, k);
    ProductPositive(m, k);
    Below(m * k, 2.0 * k, 1.0);
  }

  lemma Below(a: real, b: real, c: real)
    requires a <= b < c
    ensures a < c
  {}

  lemma CarryStep(m: real, k: real) returns (d: real)
    requires 0.0 <= m <= 2.0 && 0.0 <= k <= MAX_MEMORY
    ensures d == k * m * m && 0.0 <= d <= m && (m > 0.0 ==> d < m)
  {
    var q := HalfAtMost(m, k);
    BentPositive(m, q);
    d := q * m;
    assert k * m == q;
  }

  /** Whatever goes in: all samples come out in [-1, 1] with their signs, and the next frame starts with
      a coefficient that is no larger than allowed. */
  lemma ClipBounds(x: seq<real>, memory: real)
    requires 0 < |x| && Done(x, 0) && Abs(memory) <= MAX_MEMORY
    ensures var c := Clip(x, memory);
            && (forall k :: 0 <= k < |x| ==> Within(c.samples[k]))
            && SignsKept(x, c.samples) && Abs(c.memory) <= MAX_MEMORY
  {
    hide Bent, SignKept, SameSide, ClipFrom, CarryEnd;
    var y := BendRange(x, memory, 0, CarryEnd(x, memory, 0));
    CarryEndIs(x, memory, 0);
    forall k | 0 <= k < |x|
      ensures Abs(y[k]) <= 2.0 && SignKept(x[k], y[k])
    {
      if k < CarryEnd(x, memory, 0) {
        CarrySample(x[k], memory);
      } else {
        SignsSame([x[k]]);
        assert [x[k]][0] == x[k];
      }
    }
    ClipFromBounds(y, y[0], 0);
    SignsKeptOn(x, y, ClipFrom(y, y[0], 0).samples);
  }

  /** A frame in range, after one that was in range, stays as it is. */
  lemma ClipNothing(x: seq<real>)
    requires 0 < |x| && forall k :: 0 <= k < |x| ==> Within(x[k])
    ensures Clip(x, 0.0) == Clipped(x, 0.0)
  {
    FirstOutsideIs(x, 0);
    assert BendRange(x, 0.0, 0, 0) == x;
  }

  // ----- without a scan -----

  /** A frame of one channel; with `hint`, the limiter has seen no sample out of range, and no region is
      looked for. */
  function ClipHinted(x: seq<real>, memory: real, hint: bool): (c: Clipped)
    requires |x| > 0
    ensures |c.samples| == |x|
  {
    if hint then Clipped(BendRange(x, memory, 0, CarryEnd(x, memory, 0)), 0.0) else Clip(x, memory)
  }

  ghost predicate AllWithin(x: seq<real>) {
    forall k :: 0 <= k < |x| ==> Within(x[k])
  }

  /** A coefficient of up to 2 bends no sample out of range. */
  lemma CarryStays(s: real, a: real)
    requires !SameSide(s, a) && Within(s) && Abs(a) <= 2.0
    ensures Within(Bent(s, a))
  {
    var k, m := Abs(a), Abs(s);
    var d := SquareAtMost(m, k);
    if s >= 0.0 {
      StrictSide(s, a);
      assert a * s * s == -(k * m * m);
      assert Bent(s, a) == m - d;
    } else {
      assert (-s) * (-a) == s * a;
      StrictSide(-s, -a);
      assert a * s * s == k * m * m;
      assert Bent(s, a) == -(m - d);
    }
  }

  lemma SquareAtMost(m: real, k: real) returns (d: real)
    requires 0.0 <= m <= 1.0 && 0.0 <= k <= 2.0
    ensures d == k * m * m && 0.0 <= d <= m + m
  {
    var q := k * m;
    ProductPositive(k, m);
    ProductMonotone(k, 2.0, m);
    AtMostItself(m, q);
    ProductPositive(q, m);
    d := q * m;
    SumAtMost(d, q, m);
  }

  lemma SumAtMost(d: real, q: real, m: real)
    requires d <= q && q <= 2.0 * m
    ensures d <= m + m
  {}

  lemma HintExact(x: seq<real>, memory: real)
    requires |x| > 0 && AllWithin(x) && Abs(memory) <= 2.0
    ensures ClipHinted(x, memory, true) == Clip(x, memory)
  {
    hide Bent, SameSide, Within, CarryEnd;
    var y := BendRange(x, memory, 0, CarryEnd(x, memory, 0));
    CarryEndIs(x, memory, 0);
    forall k | 0 <= k < |x|
      ensures Within(y[k])
    {
      if k < CarryEnd(x, memory, 0) {
        CarryStays(x[k], memory);
      }
    }
    FirstOutsideIs(y, 0);
  }

  ghost predicate HintHolds(x: seq<real>, memory: real) {
    |x| > 0 && AllWithin(x) ==> ClipHinted(x, memory, true) == Clip(x, memory)
  }

  lemma HintFails(memory: real)
    requires Abs(memory) > 2.0
    ensures !HintHolds([if memory > 0.0 then -1.0 else 1.0], memory)
  {
    hide ClipRegion, Coefficient;
    var s := if memory > 0.0 then -1.0 else 1.0;
    var x := [s];
    assert !SameSide(s, memory) && !Within(Bent(s, memory));
    assert CarryEnd(x, memory, 0) == 1;
    var y := BendRange(x, memory, 0, 1);
    Crossed(y, 0);
    assert Clip(x, memory) == ClipRegion(y, y[0], 0, 0);
    NeverZero(y, y[0]);
  }

  lemma NeverZero(y: seq<real>, x0: real)
    requires |y| == 1 && !Within(y[0])
    ensures ClipRegion(y, x0, 0, 0).memory != 0.0
  {
    hide BendRange, RampRange, SameSide;
    Crossed(y, 0);
    PeakLarge(y, 0, RegionEnd(y, y[0], 0));
    var m := Abs(y[Peak(y, 0, RegionEnd(y, y[0], 0))]);
    var q := (m - 1.0) / (m * m);
    SquarePositive(m);
    assert q * (m * m) == m - 1.0;
    assert q != 0.0;
  }

  /** The scan can be left out of every frame in range if and only if the memory is at most 2. */
  lemma HintIff(memory: real)
    ensures (forall x: seq<real> :: HintHolds(x, memory)) <==> Abs(memory) <= 2.0
  {
    hide Clip, ClipHinted;
    if Abs(memory) <= 2.0 {
      forall x: seq<real>
        ensures HintHolds(x, memory)
      {
        if |x| > 0 && AllWithin(x) {
          HintExact(x, memory);
        }
      }
    } else {
      HintFails(memory);
    }
  }

  // ----- symmetry -----

  function Negated(x: seq<real>): (y: seq<real>)
    ensures |y| == |x|
  {
    seq(|x|, k requires 0 <= k < |x| => -x[k])
  }

  lemma NegatedSides(s: real, t: real)
    ensures SameSide(-s, -t) == SameSide(s, t)
  {
    assert (-s) * (-t) == s * t;
  }

  lemma NegatedBent(s: real, a: real)
    ensures Bent(-s, -a) == -Bent(s, a)
  {
    assert (-a) * (-s) * (-s) == -(a * s * s);
  }

  lemma NegatedRange(x: seq<real>, a: real, start: nat, end: nat)
    ensures BendRange(Negated(x), -a, start, end) == Negated(BendRange(x, a, start, end))
  {
    hide Bent;
    forall k | 0 <= k < |x|
      ensures Bent(-x[k], -a) == -Bent(x[k], a)
    {
      NegatedBent(x[k], a);
    }
  }

  lemma NegatedRamp(x: seq<real>, offset: real, from: nat, peak: nat)
    requires peak > 0
    ensures RampRange(Negated(x), -offset, from, peak, peak) == Negated(RampRange(x, offset, from, peak, peak))
  {
    hide RampAt;
    forall k | 0 <= k < |x| && from <= k < peak
      ensures Clamp(-x[k] + RampAt(-offset, k - from + 1, peak), 1.0)
           == -Clamp(x[k] + RampAt(offset, k - from + 1, peak), 1.0)
    {
      NegatedStep(offset, k - from + 1, peak);
    }
  }

  lemma NegatedStep(offset: real, n: nat, peak: nat)
    requires peak > 0
    ensures RampAt(-offset, n, peak) == -RampAt(offset, n, peak)
  {
    var d, e := offset / peak as real, -offset / peak as real;
    assert d * peak as real == offset && e * peak as real == -offset;
    assert (d + e) * peak as real == 0.0;
    assert d + e == 0.0;
    assert n as real * e == -(n as real * d);
  }

  lemma {:induction false} NegatedCarryEnd(x: seq<real>, a: real, i: nat)
    requires i <= |x|
    ensures CarryEnd(Negated(x), -a, i) == CarryEnd(x, a, i)
    decreases |x| - i
  {
    hide SameSide;
    if i < |x| {
      NegatedSides(x[i], a);
      NegatedCarryEnd(x, a, i + 1);
    }
  }

  lemma {:induction false} NegatedOutside(x: seq<real>, i: nat)
    requires i <= |x|
    ensures FirstOutside(Negated(x), i) == FirstOutside(x, i)
    decreases |x| - i
  {
    if i < |x| {
      NegatedOutside(x, i + 1);
    }
  }

  lemma {:induction false} NegatedStart(x: seq<real>, v: real, i: nat)
    requires i <= |x|
    ensures RegionStart(Negated(x), -v, i) == RegionStart(x, v, i)
  {
    hide SameSide;
    if i > 0 {
      NegatedSides(v, x[i - 1]);
      NegatedStart(x, v, i - 1);
    }
  }

  lemma {:induction false} NegatedEnd(x: seq<real>, v: real, i: nat)
    requires i <= |x|
    ensures RegionEnd(Negated(x), -v, i) == RegionEnd(x, v, i)
    decreases |x| - i
  {
    hide SameSide;
    if i < |x| {
      NegatedSides(v, x[i]);
      NegatedEnd(x, v, i + 1);
    }
  }

  lemma {:induction false} NegatedPeak(x: seq<real>, i: nat, e: nat)
    requires i < e <= |x|
    ensures Peak(Negated(x), i, e) == Peak(x, i, e)
    decreases e
  {
    if e > i + 1 {
      NegatedPeak(x, i, e - 1);
    }
  }

  lemma NegatedRegion(x: seq<real>, x0: real, curr: nat, i: nat)
    requires curr <= i < |x| && !Within(x[i])
    ensures var c := ClipRegion(x, x0, curr, i);
            ClipRegion(Negated(x), -x0, curr, i) == Clipped(Negated(c.samples), -c.memory)
  {
    hide SameSide, Strength, BendRange, RampRange;
    var v := x[i];
    var start, end := RegionStart(x, v, i), RegionEnd(x, v, i);
    Crossed(x, i);
    PeakLarge(x, i, end);
    NegatedStart(x, v, i);
    NegatedEnd(x, v, i);
    NegatedPeak(x, i, end);
    NegatedSides(v, x[0]);
    var peak := Peak(x, i, end);
    var a := Coefficient(v, Abs(x[peak]));
    assert Coefficient(-v, Abs(x[peak])) == -a by {
      OutsideNonzero(v);
    }
    NegatedRange(x, a, start, end);
    if peak > 0 {
      var y := BendRange(x, a, start, end);
      NegatedRamp(y, x0 - y[0], curr, peak);
      assert -x0 - Negated(y)[0] == -(x0 - y[0]);
    }
  }

  lemma {:induction false} NegatedFrom(x: seq<real>, x0: real, curr: nat)
    requires curr <= |x|
    ensures var c := ClipFrom(x, x0, curr);
            ClipFrom(Negated(x), -x0, curr) == Clipped(Negated(c.samples), -c.memory)
    decreases |x| - curr
  {
    hide ClipRegion, SameSide;
    var i := FirstOutside(x, curr);
    NegatedOutside(x, curr);
    if i < |x| {
      Crossed(x, i);
      NegatedRegion(x, x0, curr, i);
      NegatedEnd(x, x[i], i);
      var end := RegionEnd(x, x[i], i);
      if end < |x| {
        NegatedFrom(ClipRegion(x, x0, curr, i).samples, x0, end);
      }
    }
  }

  /** Turning the waveform upside down, and the coefficient with it, turns the result upside down:
      both half-waves are treated alike. */
  lemma ClipNegated(x: seq<real>, memory: real)
    requires 0 < |x|
    ensures var c := Clip(x, memory); Clip(Negated(x), -memory) == Clipped(Negated(c.samples), -c.memory)
  {
    hide BendRange, ClipFrom;
    var e := CarryEnd(x, memory, 0);
    NegatedCarryEnd(x, memory, 0);
    NegatedRange(x, memory, 0, e);
    var y := BendRange(x, memory, 0, e);
    NegatedFrom(y, y[0], 0);
  }
}
