/** The range coder as its users see it: what is encoded is a sequence of intervals, and what is decoded
    is some value inside the interval that comes next. How many bits that takes, both sides find out by
    narrowing the same range. */
module RangeCoding {
  /** The part `low..high` of the range 0..total. */
  datatype Interval = Interval(low: nat, high: nat, total: nat)

  const ICDF_TOTAL := 32768

  /** An interval without a frequency cannot be encoded. */
  predicate Codable(i: Interval) {
    i.low < i.high <= i.total <= ICDF_TOTAL
  }

  ghost predicate AllCodable(code: seq<Interval>) {
    forall k :: 0 <= k < |code| ==> Codable(code[k])
  }

  // ----- bits -----

  const CODE_TOP := 0x8000_0000
  const CODE_BOT := 0x80_0000
  const CODE_BITS := 32

  /** The width of the current range, and the bits shifted out so far. */
  datatype Meter = Meter(rng: nat, nbits: nat)

  /** Digits of `v` in base 2. */
  function Ilog(v: nat): nat {
    if v == 0 then 0 else 1 + Ilog(v / 2)
  }

  /** The range gets wider by whole bytes until it is wide enough. */
  function Normalized(m: Meter): Meter
    requires m.rng > 0
    decreases CODE_TOP - m.rng
  {
    if m.rng <= CODE_BOT then Normalized(Meter(m.rng * 256, m.nbits + 8)) else m
  }

  /** What is left of a range. */
  function Narrowed(rng: nat, i: Interval): int
    requires Codable(i)
  {
    var r := rng / i.total;
    if i.low > 0 then r * (i.high - i.low) else rng - r * (i.total - i.high)
  }

  lemma PartOf(r: nat, a: nat, b: nat)
    requires r > 0 && a < b
    ensures 0 <= r * a < r * b
  {}

  lemma Whole(rng: nat, total: nat)
    requires 0 < total <= ICDF_TOTAL && rng > CODE_BOT
    ensures 0 < rng / total && rng / total * total <= rng
  {}

  /** Some of the range is left, and no more than there was. */
  lemma NarrowedIs(rng: nat, i: Interval)
    requires Codable(i) && rng > CODE_BOT
    ensures 0 < Narrowed(rng, i) <= rng
  {
    var r := rng / i.total;
    Whole(rng, i.total);
    if i.low > 0 {
      PartOf(r, 0, i.high - i.low);
      PartOf(r, i.high - i.low, i.total);
    } else {
      PartOf(r, i.total - i.high, i.total);
    }
  }

  /** The meter after one more interval. */
  function Metered(m: Meter, i: Interval): Meter
    requires Codable(i) && m.rng > CODE_BOT
  {
    NarrowedIs(m.rng, i);
    Normalized(Meter(Narrowed(m.rng, i), m.nbits))
  }

  function Tell(m: Meter): int {
    m.nbits - Ilog(m.rng)
  }

  lemma {:induction false} IlogMonotone(a: nat, b: nat)
    requires a <= b
    ensures Ilog(a) <= Ilog(b)
  {
    if a > 0 {
      IlogMonotone(a / 2, b / 2);
    }
  }

  lemma IlogTwice(v: nat)
    requires v > 0
    ensures Ilog(2 * v) == Ilog(v) + 1
  {}

  lemma IlogByte(v: nat)
    requires v > 0
    ensures Ilog(256 * v) == Ilog(v) + 8
  {
    hide Ilog;
    IlogTwice(v);
    IlogTwice(2 * v);
    IlogTwice(4 * v);
    IlogTwice(8 * v);
    IlogTwice(16 * v);
    IlogTwice(32 * v);
    IlogTwice(64 * v);
    IlogTwice(128 * v);
  }

  /** Whole bytes more of both do not change the bits used. */
  lemma {:induction false} NormalizedIs(m: Meter)
    requires 0 < m.rng <= CODE_TOP
    ensures CODE_BOT < Normalized(m).rng <= CODE_TOP && Tell(Normalized(m)) == Tell(m)
    decreases CODE_TOP - m.rng
  {
    hide Ilog;
    if m.rng <= CODE_BOT {
      var next := Meter(m.rng * 256, m.nbits + 8);
      IlogByte(m.rng);
      NormalizedIs(next);
    }
  }

  const START := Meter(CODE_TOP, CODE_BITS + 1)

  /** The meter after the first `n` intervals. */
  ghost function MeterAt(code: seq<Interval>, n: nat): (m: Meter)
    requires n <= |code| && AllCodable(code)
    ensures CODE_BOT < m.rng <= CODE_TOP
  {
    if n == 0 then START
    else
      var m := MeterAt(code, n - 1);
      NarrowedIs(m.rng, code[n - 1]);
      NormalizedIs(Meter(Narrowed(m.rng, code[n - 1]), m.nbits));
      Metered(m, code[n - 1])
  }

  /** Bits used for the first `n` intervals. */
  ghost function Bits(code: seq<Interval>, n: nat): int
    requires n <= |code| && AllCodable(code)
  {
    Tell(MeterAt(code, n))
  }

  lemma MeterStep(m: Meter, i: Interval)
    requires Codable(i) && CODE_BOT < m.rng <= CODE_TOP
    ensures Tell(m) <= Tell(Metered(m, i)) && CODE_BOT < Metered(m, i).rng <= CODE_TOP
  {
    NarrowedIs(m.rng, i);
    IlogMonotone(Narrowed(m.rng, i), m.rng);
    NormalizedIs(Meter(Narrowed(m.rng, i), m.nbits));
  }

  /** More intervals never take fewer bits; one bit is used from the beginning. */
  lemma {:induction false} BitsGrow(code: seq<Interval>, m: nat, n: nat)
    requires m <= n <= |code| && AllCodable(code)
    ensures 1 <= Bits(code, m) <= Bits(code, n)
    decreases n
  {
    hide Normalized, Narrowed, Ilog;
    if n == 0 {
      BitsAtStart();
    } else if m < n {
      BitsGrow(code, m, n - 1);
      MeterStep(MeterAt(code, n - 1), code[n - 1]);
    } else {
      BitsGrow(code, n - 1, n - 1);
      MeterStep(MeterAt(code, n - 1), code[n - 1]);
    }
  }

  lemma BitsAtStart()
    ensures Tell(START) == 1 && Normalized(Meter(0x80, CODE_BITS + 1 - 24)) == START
  {
    hide Ilog;
    assert Ilog(1) == 1 && Ilog(0x80) == 8 by {
      SmallIlog();
    }
    IlogByte(0x80);
    IlogByte(0x8000);
    IlogByte(0x80_0000);
    assert Normalized(Meter(0x80_0000, CODE_BITS + 1 - 8)) == START;
    assert Normalized(Meter(0x8000, CODE_BITS + 1 - 16)) == START;
  }

  lemma SmallIlog()
    ensures Ilog(1) == 1 && Ilog(0x80) == 8
  {
    IlogTwice(0x40);
    IlogTwice(0x20);
    IlogTwice(0x10);
    IlogTwice(0x8);
    IlogTwice(0x4);
    IlogTwice(0x2);
    IlogTwice(0x1);
  }

  /** Bits do not depend on what comes later. */
  lemma {:induction false} BitsOfPrefix(code: seq<Interval>, more: seq<Interval>, n: nat)
    requires n <= |code| && AllCodable(code) && AllCodable(code + more)
    ensures MeterAt(code + more, n) == MeterAt(code, n)
  {
    hide Metered;
    if n > 0 {
      BitsOfPrefix(code, more, n - 1);
      assert (code + more)[n - 1] == code[n - 1];
    }
  }

  lemma MeterNext(code: seq<Interval>, i: Interval)
    requires AllCodable(code) && Codable(i)
    ensures AllCodable(code + [i]) && MeterAt(code + [i], |code| + 1) == Metered(MeterAt(code, |code|), i)
  {
    hide Metered;
    BitsOfPrefix(code, [i], |code|);
  }

  // ----- distributions -----

  /** An inverse distribution in which every symbol has a frequency. */
  ghost predicate StrictIcdf(icdf: seq<nat>) {
    && |icdf| > 0 && icdf[0] < ICDF_TOTAL && icdf[|icdf| - 1] == 0
    && forall i, j :: 0 <= i < j < |icdf| ==> icdf[j] < icdf[i]
  }

  function IcdfInterval(icdf: seq<nat>, s: nat): Interval
    requires s < |icdf| && forall k :: 0 <= k < |icdf| ==> icdf[k] <= ICDF_TOTAL
  {
    Interval(if s == 0 then 0 else ICDF_TOTAL - icdf[s - 1], ICDF_TOTAL - icdf[s], ICDF_TOTAL)
  }

  lemma StrictBounds(icdf: seq<nat>, s: nat)
    requires StrictIcdf(icdf) && s < |icdf|
    ensures forall k :: 0 <= k < |icdf| ==> icdf[k] < ICDF_TOTAL
    ensures Codable(IcdfInterval(icdf, s))
  {
    forall k | 0 <= k < |icdf|
      ensures icdf[k] < ICDF_TOTAL
    {
      assert icdf[k] <= icdf[0];
    }
  }

  // ----- the coders -----

  /** Widens the range byte by byte. */
  method Normalize(rng: nat, nbits: nat) returns (rng': nat, nbits': nat)
    requires rng > 0
    ensures Meter(rng', nbits') == Normalized(Meter(rng, nbits))
  {
    rng', nbits' := rng, nbits;
    while rng' <= CODE_BOT
      invariant rng' > 0 && Normalized(Meter(rng', nbits')) == Normalized(Meter(rng, nbits))
      decreases CODE_TOP - rng'
    {
      rng', nbits' := rng' * 256, nbits' + 8;
    }
  }

  /** What an encoder can be set back to. */
  datatype EcEncSnapshot = EcEncSnapshot(code: seq<Interval>, rng: nat, nbitsTotal: nat) {
    ghost predicate Valid() {
      AllCodable(code) && Meter(rng, nbitsTotal) == MeterAt(code, |code|)
    }
  }

  class EcEnc {
    var code: seq<Interval>
    var rng: nat
    var nbitsTotal: nat

    ghost predicate Valid() reads this {
      AllCodable(code) && Meter(rng, nbitsTotal) == MeterAt(code, |code|)
    }

    constructor ()
      ensures Valid() && code == []
    {
      code, rng, nbitsTotal := [], CODE_TOP, CODE_BITS + 1;
    }

    method Encode(low: nat, high: nat, total: nat)
      requires Valid() && Codable(Interval(low, high, total))
      modifies this
      ensures Valid() && code == old(code) + [Interval(low, high, total)]
    {
      hide Normalized, MeterAt, AllCodable;
      var i := Interval(low, high, total);
      NarrowedIs(rng, i);
      var r := rng / total;
      if low > 0 {
        rng := r * (high - low);
      } else {
        rng := rng - r * (total - high);
      }
      rng, nbitsTotal := Normalize(rng, nbitsTotal);
      MeterNext(code, i);
      code := code + [i];
    }

    method EncUint(v: nat, ft: nat)
      requires Valid() && v < ft && 1 < ft <= 256
      modifies this
      ensures Valid() && code == old(code) + [Interval(v, v + 1, ft)]
    {
      Encode(v, v + 1, ft);
    }

    method EncIcdf16(s: nat, icdf: seq<nat>)
      requires Valid() && StrictIcdf(icdf) && s < |icdf|
      requires forall k :: 0 <= k < |icdf| ==> icdf[k] <= ICDF_TOTAL
      modifies this
      ensures Valid() && code == old(code) + [IcdfInterval(icdf, s)]
    {
      StrictBounds(icdf, s);
      var i := IcdfInterval(icdf, s);
      Encode(i.low, i.high, i.total);
    }

    /** Bits used so far. */
    method EcTell() returns (bits: int)
      requires Valid()
      ensures bits == Bits(code, |code|)
    {
      return nbitsTotal - Ilog(rng);
    }

    method Capture() returns (s: EcEncSnapshot)
      requires Valid()
      ensures s.Valid() && s.code == code
    {
      return EcEncSnapshot(code, rng, nbitsTotal);
    }

    method Restore(s: EcEncSnapshot)
      requires s.Valid()
      modifies this
      ensures Valid() && code == s.code
    {
      code, rng, nbitsTotal := s.code, s.rng, s.nbitsTotal;
    }
  }

  class EcDec {
    const code: seq<Interval>
    var pos: nat
    var rng: nat
    var nbitsTotal: nat

    ghost predicate Valid() reads this {
      pos <= |code| && AllCodable(code) && Meter(rng, nbitsTotal) == MeterAt(code, pos)
    }

    /** What is still to be decoded begins with `next`. */
    ghost predicate Next(next: seq<Interval>) reads this {
      pos + |next| <= |code| && code[pos..pos + |next|] == next
    }

    constructor (code: seq<Interval>)
      requires AllCodable(code)
      ensures Valid() && this.code == code && pos == 0
    {
      this.code := code;
      pos, rng, nbitsTotal := 0, 0x80, CODE_BITS + 1 - 24;
      new;
      BitsAtStart();
      rng, nbitsTotal := Normalize(rng, nbitsTotal);
    }

    /** Any value inside the next interval, if it is one of the same range. */
    method Decode(total: nat) returns (s: nat)
      requires Valid() && pos < |code| && code[pos].total == total
      ensures code[pos].low <= s < code[pos].high
    {
      s :| code[pos].low <= s < code[pos].high;
    }

    /** Goes on to the next interval. The caller must have found out the one that was encoded. */
    method Update(low: nat, high: nat, total: nat)
      requires Valid() && pos < |code| && code[pos] == Interval(low, high, total)
      modifies this
      ensures Valid() && pos == old(pos) + 1
    {
      hide Normalized;
      NarrowedIs(rng, code[pos]);
      var ext := rng / total;
      var s := ext * (total - high);
      rng := if low > 0 then ext * (high - low) else rng - s;
      rng, nbitsTotal := Normalize(rng, nbitsTotal);
      pos := pos + 1;
    }

    method DecUint(ft: nat, ghost v: nat) returns (s: nat)
      requires Valid() && pos < |code| && code[pos] == Interval(v, v + 1, ft)
      modifies this
      ensures Valid() && pos == old(pos) + 1 && s == v
    {
      s := Decode(ft);
      Update(s, s + 1, ft);
    }

    method DecIcdf16(icdf: seq<nat>, ghost symbol: nat) returns (ret: nat)
      requires Valid() && StrictIcdf(icdf) && symbol < |icdf|
      requires forall k :: 0 <= k < |icdf| ==> icdf[k] <= ICDF_TOTAL
      requires pos < |code| && code[pos] == IcdfInterval(icdf, symbol)
      modifies this
      ensures Valid() && pos == old(pos) + 1 && ret == symbol
    {
      var s := Decode(ICDF_TOTAL);
      ret := 0;
      while s >= ICDF_TOTAL - icdf[ret]
        invariant ret <= symbol
        decreases symbol - ret
      {
        ret := ret + 1;
      }
      Update(if ret == 0 then 0 else ICDF_TOTAL - icdf[ret - 1], ICDF_TOTAL - icdf[ret], ICDF_TOTAL);
    }

    /** Bits used so far. */
    method EcTell() returns (bits: int)
      requires Valid()
      ensures bits == Bits(code, pos)
    {
      return nbitsTotal - Ilog(rng);
    }
  }
}
