/** Laplace-distributed integers: a sign symbol and an escape sequence to the base of seven. */
module DredLaplace {
  import opened RangeCoding

  /** The probability parameters: eight-bit numbers, shifted by seven. */
  predicate Probability(p: nat) {
    0 < p <= 255 * 128
  }

  /** Zero, positive, negative. */
  function SignIcdf(p0: nat): seq<nat>
    requires p0 <= ICDF_TOTAL
  {
    [ICDF_TOTAL - p0, (ICDF_TOTAL - p0) / 2, 0]
  }

  function Max(a: nat, b: nat): nat {
    if a > b then a else b
  }

  function MagnitudeIcdf(decay: nat, i: nat): nat {
    if i == 0 then Max(decay, 7)
    else Max(if i < 7 then 7 - i else 0, MagnitudeIcdf(decay, i - 1) * decay / ICDF_TOTAL)
  }

  /** The distribution of the digits 0 to 7 of the magnitude. */
  function DigitIcdf(decay: nat): (icdf: seq<nat>)
    ensures |icdf| == 8
  {
    seq(8, i => if 0 <= i < 7 then MagnitudeIcdf(decay, i) else 0)
  }

  lemma ProductLess(m: nat, a: nat, b: nat)
    requires m > 0 && a < b
    ensures 0 <= m * a < m * b
  {}

  lemma QuotientLess(p: nat, m: nat)
    requires p < m * ICDF_TOTAL
    ensures 0 <= p / ICDF_TOTAL < m
  {}

  lemma MagnitudeStep(m: nat, decay: nat)
    requires m > 0 && decay < ICDF_TOTAL
    ensures 0 <= m * decay / ICDF_TOTAL < m
  {
    ProductLess(m, decay, ICDF_TOTAL);
    QuotientLess(m * decay, m);
  }

  lemma {:induction false} MagnitudeStrict(decay: nat, i: nat)
    requires Probability(decay) && i <= 6
    ensures 7 - i <= MagnitudeIcdf(decay, i) < ICDF_TOTAL
    ensures i > 0 ==> MagnitudeIcdf(decay, i) < MagnitudeIcdf(decay, i - 1)
  {
    if i > 0 {
      MagnitudeStrict(decay, i - 1);
      MagnitudeStep(MagnitudeIcdf(decay, i - 1), decay);
    }
  }

  lemma {:induction false} MagnitudeOrdered(decay: nat, i: nat, j: nat)
    requires Probability(decay) && i < j <= 6
    ensures MagnitudeIcdf(decay, j) < MagnitudeIcdf(decay, i)
  {
    MagnitudeStrict(decay, j);
    if i < j - 1 {
      MagnitudeOrdered(decay, i, j - 1);
    }
  }

  /** Every digit has a frequency, for all parameters that the tables can hold. */
  lemma DigitsCodable(decay: nat)
    requires Probability(decay)
    ensures StrictIcdf(DigitIcdf(decay)) && forall k :: 0 <= k < 8 ==> DigitIcdf(decay)[k] <= ICDF_TOTAL
  {
    hide MagnitudeIcdf;
    var icdf := DigitIcdf(decay);
    MagnitudeStrict(decay, 0);
    forall i | 0 <= i < 7
      ensures 0 < icdf[i] < ICDF_TOTAL
    {
      MagnitudeStrict(decay, i);
    }
    forall i, j | 0 <= i < j < 8
      ensures icdf[j] < icdf[i]
    {
      if j < 7 {
        MagnitudeOrdered(decay, i, j);
      }
    }
  }

  /** So has every sign, unless the probability of zero is 0 or almost 1. */
  lemma SignsCodable(p0: nat)
    requires p0 <= ICDF_TOTAL
    ensures StrictIcdf(SignIcdf(p0)) <==> 0 < p0 <= ICDF_TOTAL - 2
  {
    var icdf := SignIcdf(p0);
    assert icdf[1] < icdf[0] <==> p0 < ICDF_TOTAL;
    assert icdf[2] < icdf[1] <==> p0 <= ICDF_TOTAL - 2;
  }

  // ----- the code of an integer -----

  function Sign(value: int): nat {
    if value == 0 then 0 else if value > 0 then 1 else 2
  }

  function Abs(value: int): nat {
    if value < 0 then -value else value
  }

  ghost predicate Parameters(p0: nat, decay: nat) {
    Probability(decay) && 0 < p0 <= ICDF_TOTAL - 2
  }

  ghost function DigitInterval(decay: nat, digit: nat): Interval
    requires Probability(decay) && digit <= 7
  {
    DigitsCodable(decay);
    IcdfInterval(DigitIcdf(decay), digit)
  }

  ghost function SignInterval(p0: nat, sign: nat): Interval
    requires p0 <= ICDF_TOTAL && sign <= 2
  {
    IcdfInterval(SignIcdf(p0), sign)
  }

  /** Sevens while there are seven or more, and then the rest. */
  ghost function EscapeCode(m: nat, decay: nat): seq<Interval>
    requires Probability(decay)
  {
    if m < 7 then [DigitInterval(decay, m)] else [DigitInterval(decay, 7)] + EscapeCode(m - 7, decay)
  }

  ghost function LaplaceCode(value: int, p0: nat, decay: nat): seq<Interval>
    requires Parameters(p0, decay)
  {
    [SignInterval(p0, Sign(value))] + if value == 0 then [] else EscapeCode(Abs(value) - 1, decay)
  }

  lemma {:induction false} EscapeCodable(m: nat, decay: nat)
    requires Probability(decay)
    ensures AllCodable(EscapeCode(m, decay))
  {
    DigitsCodable(decay);
    StrictBounds(DigitIcdf(decay), if m < 7 then m else 7);
    if m >= 7 {
      EscapeCodable(m - 7, decay);
    }
  }

  lemma LaplaceCodable(value: int, p0: nat, decay: nat)
    requires Parameters(p0, decay)
    ensures AllCodable(LaplaceCode(value, p0, decay))
  {
    SignsCodable(p0);
    StrictBounds(SignIcdf(p0), Sign(value));
    if value != 0 {
      EscapeCodable(Abs(value) - 1, decay);
    }
  }

  lemma IntervalsDiffer(icdf: seq<nat>, s: nat, t: nat)
    requires StrictIcdf(icdf) && s < |icdf| && t < |icdf|
    requires forall k :: 0 <= k < |icdf| ==> icdf[k] <= ICDF_TOTAL
    requires IcdfInterval(icdf, s) == IcdfInterval(icdf, t)
    ensures s == t
  {}

  lemma EscapeShape(m: nat, decay: nat)
    requires Probability(decay)
    ensures var e := EscapeCode(m, decay);
            |e| > 0 && e[0] == DigitInterval(decay, if m < 7 then m else 7)
            && e[1..] == if m < 7 then [] else EscapeCode(m - 7, decay)
  {
    hide DigitInterval;
  }

  lemma DigitsDiffer(decay: nat, s: nat, t: nat)
    requires Probability(decay) && s <= 7 && t <= 7 && DigitInterval(decay, s) == DigitInterval(decay, t)
    ensures s == t
  {
    hide DigitIcdf;
    DigitsCodable(decay);
    IntervalsDiffer(DigitIcdf(decay), s, t);
  }

  lemma SignsDiffer(p0: nat, s: nat, t: nat)
    requires 0 < p0 <= ICDF_TOTAL - 2 && s <= 2 && t <= 2 && SignInterval(p0, s) == SignInterval(p0, t)
    ensures s == t
  {
    SignsCodable(p0);
    IntervalsDiffer(SignIcdf(p0), s, t);
  }

  lemma Peeled(a: seq<Interval>, b: seq<Interval>, x: seq<Interval>, y: seq<Interval>)
    requires |a| > 0 && |b| > 0 && a + x == b + y
    ensures a[0] == b[0] && a[1..] + x == b[1..] + y
  {
    assert (a + x)[0] == a[0] && (b + y)[0] == b[0];
    assert (a + x)[1..] == a[1..] + x;
    assert (b + y)[1..] == b[1..] + y;
  }

  lemma NothingBefore(x: seq<Interval>, y: seq<Interval>)
    requires [] + x == [] + y
    ensures x == y
  {
    assert [] + x == x && [] + y == y;
  }

  /** No code is the beginning of another one: escape sequences. */
  lemma {:induction false} EscapePrefixFree(m: nat, n: nat, decay: nat, x: seq<Interval>, y: seq<Interval>)
    requires Probability(decay) && EscapeCode(m, decay) + x == EscapeCode(n, decay) + y
    ensures m == n && x == y
  {
    hide DigitInterval, EscapeCode;
    EscapeShape(m, decay);
    EscapeShape(n, decay);
    Peeled(EscapeCode(m, decay), EscapeCode(n, decay), x, y);
    DigitsDiffer(decay, if m < 7 then m else 7, if n < 7 then n else 7);
    if m >= 7 {
      EscapePrefixFree(m - 7, n - 7, decay, x, y);
    } else {
      NothingBefore(x, y);
    }
  }

  lemma LaplaceShape(v: int, p0: nat, decay: nat)
    requires Parameters(p0, decay)
    ensures var e := LaplaceCode(v, p0, decay);
            |e| > 0 && e[0] == SignInterval(p0, Sign(v))
            && e[1..] == if v == 0 then [] else EscapeCode(Abs(v) - 1, decay)
  {
    hide SignInterval, EscapeCode;
  }

  /** No code is the beginning of another one, so the code of an integer says where it ends. */
  lemma LaplacePrefixFree(v: int, w: int, p0: nat, decay: nat, x: seq<Interval>, y: seq<Interval>)
    requires Parameters(p0, decay) && LaplaceCode(v, p0, decay) + x == LaplaceCode(w, p0, decay) + y
    ensures v == w && x == y
  {
    hide SignInterval, EscapeCode, LaplaceCode;
    LaplaceShape(v, p0, decay);
    LaplaceShape(w, p0, decay);
    Peeled(LaplaceCode(v, p0, decay), LaplaceCode(w, p0, decay), x, y);
    SignsDiffer(p0, Sign(v), Sign(w));
    if v != 0 {
      EscapePrefixFree(Abs(v) - 1, Abs(w) - 1, decay, x, y);
    } else {
      NothingBefore(x, y);
    }
  }

  // ----- encoding and decoding -----

  method BuildDigitIcdf(decay: nat) returns (icdf: seq<nat>)
    requires Probability(decay)
    ensures icdf == DigitIcdf(decay)
  {
    icdf := [Max(decay, 7)];
    for i := 1 to 7
      invariant |icdf| == i && forall k :: 0 <= k < i ==> icdf[k] == MagnitudeIcdf(decay, k)
    {
      var baseline := if i < 7 then 7 - i else 0;
      var decayed := icdf[i - 1] * decay / ICDF_TOTAL;
      icdf := icdf + [Max(baseline, decayed)];
    }
    icdf := icdf + [0];
  }

  method EcLaplaceEncodeP0(enc: EcEnc, value: int, p0: nat, decay: nat)
    requires enc.Valid() && Parameters(p0, decay)
    modifies enc
    ensures enc.Valid() && enc.code == old(enc.code) + LaplaceCode(value, p0, decay)
  {
    hide StrictIcdf, DigitIcdf, MagnitudeIcdf, MeterAt, AllCodable;
    SignsCodable(p0);
    enc.EncIcdf16(Sign(value), SignIcdf(p0));
    if value == 0 {
      return;
    }
    DigitsCodable(decay);
    var icdf := BuildDigitIcdf(decay);
    var remaining: int := Abs(value) - 1;
    ghost var whole := enc.code + EscapeCode(remaining, decay);
    while true
      invariant enc.Valid() && remaining >= 0 && enc.code + EscapeCode(remaining, decay) == whole
      decreases remaining
    {
      enc.EncIcdf16(if remaining < 7 then remaining else 7, icdf);
      remaining := remaining - 7;
      if remaining < 0 {
        break;
      }
    }
    assert enc.code == whole;
  }

  lemma NextSplit(dec: EcDec, a: Interval, b: seq<Interval>)
    requires dec.Next([a] + b)
    ensures dec.pos < |dec.code| && dec.code[dec.pos] == a
    ensures dec.code[dec.pos + 1..dec.pos + 1 + |b|] == b
  {
    assert dec.code[dec.pos..dec.pos + |[a] + b|][0] == a;
    assert dec.code[dec.pos + 1..dec.pos + 1 + |b|] == dec.code[dec.pos..dec.pos + |[a] + b|][1..];
  }

  /** Decodes what was encoded, up to its end. */
  method EcLaplaceDecodeP0(dec: EcDec, p0: nat, decay: nat, ghost encoded: int) returns (value: int)
    requires dec.Valid() && Parameters(p0, decay) && dec.Next(LaplaceCode(encoded, p0, decay))
    modifies dec
    ensures dec.Valid() && value == encoded && dec.pos == old(dec.pos) + |LaplaceCode(encoded, p0, decay)|
  {
    hide StrictIcdf, DigitIcdf, MagnitudeIcdf, MeterAt, AllCodable;
    SignsCodable(p0);
    ghost var m: int := Abs(encoded) - 1;
    NextSplit(dec, SignInterval(p0, Sign(encoded)), if encoded == 0 then [] else EscapeCode(m, decay));
    ghost var end := dec.pos + |LaplaceCode(encoded, p0, decay)|;
    var sign := dec.DecIcdf16(SignIcdf(p0), Sign(encoded));
    if sign == 0 {
      return 0;
    }
    value := DecodeMagnitude(dec, decay, m);
    if sign == 2 {
      value := -value;
    }
  }

  /** The next digit, and what comes behind it. */
  lemma NextDigit(dec: EcDec, m: nat, decay: nat)
    requires Probability(decay) && dec.Next(EscapeCode(m, decay))
    ensures dec.pos < |dec.code| && dec.code[dec.pos] == DigitInterval(decay, if m < 7 then m else 7)
    ensures var rest := if m < 7 then [] else EscapeCode(m - 7, decay);
            && |EscapeCode(m, decay)| == 1 + |rest| && dec.pos + 1 + |rest| <= |dec.code|
            && dec.code[dec.pos + 1..dec.pos + 1 + |rest|] == rest
  {
    hide DigitInterval;
    NextSplit(dec, DigitInterval(decay, if m < 7 then m else 7), if m < 7 then [] else EscapeCode(m - 7, decay));
  }

  /** The escape sequence, up to the first digit that is not 7. */
  method DecodeMagnitude(dec: EcDec, decay: nat, ghost rest: nat) returns (value: nat)
    requires dec.Valid() && Probability(decay) && dec.Next(EscapeCode(rest, decay))
    modifies dec
    ensures dec.Valid() && value == rest + 1 && dec.pos == old(dec.pos) + |EscapeCode(rest, decay)|
  {
    hide StrictIcdf, DigitIcdf, MagnitudeIcdf, MeterAt, AllCodable, EscapeCode;
    DigitsCodable(decay);
    var icdf := BuildDigitIcdf(decay);
    ghost var end, m := dec.pos + |EscapeCode(rest, decay)|, rest;
    value := 1;
    while true
      invariant dec.Valid() && value + m == rest + 1
      invariant dec.Next(EscapeCode(m, decay)) && dec.pos + |EscapeCode(m, decay)| == end
      decreases m
    {
      NextDigit(dec, m, decay);
      var v := dec.DecIcdf16(icdf, if m < 7 then m else 7);
      value := value + v;
      if v != 7 {
        return;
      }
      m := m - 7;
    }
  }
}
