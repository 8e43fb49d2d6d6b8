/** The checksum of Ogg pages (section 6 of RFC 3533): the table-driven form, the bitwise form that
    it refines, and the errors that it detects. */
module OggChecksum {
  const POLY: bv32 := 0x04c1_1db7

  // Words are polynomials over the field of two elements, the highest power first.

  function Plus(a: bv32, b: bv32): bv32 {
    a ^ b
  }

  function Twice(r: bv32): bv32 {
    r << 1
  }

  /** Whether the coefficient of the highest power is 1. */
  predicate Top(r: bv32) {
    r & 0x8000_0000 != 0
  }

  function Poly(present: bool): bv32 {
    if present then POLY else 0
  }

  /** One step of the division by the generator polynomial, for a message bit 0. */
  function Shift(r: bv32): bv32 {
    Plus(Twice(r), Poly(Top(r)))
  }

  function ShiftBy(r: bv32, n: nat): bv32
    decreases n
  {
    if n == 0 then r else ShiftBy(Shift(r), n - 1)
  }

  /** The register after a message bit has been divided in. */
  function BitStep(c: bv32, bit: bool): bv32 {
    Plus(Twice(c), Poly(Top(c) != bit))
  }

  /** Divides in `bits[i..j]`, the first one first. */
  function Divide(c: bv32, bits: seq<bool>, i: nat, j: nat): bv32
    requires i <= j <= |bits|
    decreases j - i
  {
    if i == j then c else Divide(BitStep(c, bits[i]), bits, i + 1, j)
  }

  // ----- the division step is linear and loses nothing -----

  lemma TwiceLinear(a: bv32, b: bv32)
    ensures Twice(Plus(a, b)) == Plus(Twice(a), Twice(b))
  {}

  lemma TopLinear(a: bv32, b: bv32)
    ensures Top(Plus(a, b)) == (Top(a) != Top(b))
  {}

  lemma PolyLinear(a: bool, b: bool)
    ensures Poly(a != b) == Plus(Poly(a), Poly(b))
  {}

  lemma Commutes(a: bv32, b: bv32)
    ensures Plus(a, b) == Plus(b, a)
  {}

  lemma Associates(a: bv32, b: bv32, c: bv32)
    ensures Plus(Plus(a, b), c) == Plus(a, Plus(b, c))
  {}

  lemma Exchange(a: bv32, b: bv32, p: bv32, q: bv32)
    ensures Plus(Plus(a, b), Plus(p, q)) == Plus(Plus(a, p), Plus(b, q))
  {
    hide Plus;
    Associates(a, b, Plus(p, q));
    Associates(b, p, q);
    Commutes(b, p);
    Associates(p, b, q);
    Associates(a, p, Plus(b, q));
  }

  lemma PlusZero(a: bv32)
    ensures Plus(a, 0) == a && Plus(a, a) == 0
  {}

  lemma PlusEqual(a: bv32, b: bv32)
    ensures Plus(a, b) == 0 <==> a == b
  {
    hide Plus;
    PlusZero(a);
    PlusZero(b);
    Associates(a, b, b);
    Commutes(0, b);
  }

  lemma ShiftLinear(a: bv32, b: bv32)
    ensures Shift(Plus(a, b)) == Plus(Shift(a), Shift(b))
  {
    hide Top, Twice, Plus, Poly;
    TwiceLinear(a, b);
    TopLinear(a, b);
    PolyLinear(Top(a), Top(b));
    Exchange(Twice(a), Twice(b), Poly(Top(a)), Poly(Top(b)));
  }

  /** Nothing but 0 is shifted to 0: the generator polynomial is odd. */
  lemma ShiftZero(r: bv32)
    ensures Shift(r) == 0 <==> r == 0
  {}

  lemma ShiftInjective(a: bv32, b: bv32)
    ensures Shift(a) == Shift(b) <==> a == b
  {
    hide Shift, Plus;
    ShiftLinear(a, b);
    ShiftZero(Plus(a, b));
    PlusEqual(a, b);
    PlusEqual(Shift(a), Shift(b));
  }

  lemma {:induction false} ShiftByLinear(a: bv32, b: bv32, n: nat)
    ensures ShiftBy(Plus(a, b), n) == Plus(ShiftBy(a, n), ShiftBy(b, n))
    decreases n
  {
    hide Shift, Plus;
    if n > 0 {
      ShiftLinear(a, b);
      ShiftByLinear(Shift(a), Shift(b), n - 1);
    }
  }

  lemma {:induction false} ShiftByInjective(a: bv32, b: bv32, n: nat)
    requires ShiftBy(a, n) == ShiftBy(b, n)
    ensures a == b
    decreases n
  {
    hide Shift;
    if n > 0 {
      ShiftByInjective(Shift(a), Shift(b), n - 1);
      ShiftInjective(a, b);
    }
  }

  // ----- shifting without reduction -----

  function TwiceBy(r: bv32, n: nat): bv32
    decreases n
  {
    if n == 0 then r else TwiceBy(Twice(r), n - 1)
  }

  lemma {:induction false} TwiceByJoin(r: bv32, m: nat, n: nat)
    ensures TwiceBy(r, m + n) == TwiceBy(TwiceBy(r, m), n)
    decreases m
  {
    hide Twice;
    if m > 0 {
      TwiceByJoin(Twice(r), m - 1, n);
    }
  }

  function Up4(r: bv32): bv32 {
    r << 4
  }

  function Up8(r: bv32): bv32 {
    r << 8
  }

  lemma TwiceBy4(r: bv32)
    ensures TwiceBy(r, 4) == Up4(r)
  {
    Twice2(r);
    Twice2(r << 2);
    TwiceByJoin(r, 2, 2);
  }

  lemma Twice2(r: bv32)
    ensures TwiceBy(r, 2) == r << 2
  {}

  lemma TwiceBy8(r: bv32)
    ensures TwiceBy(r, 8) == Up8(r)
  {
    hide TwiceBy, Up4, Up8;
    TwiceBy4(r);
    TwiceBy4(Up4(r));
    TwiceByJoin(r, 4, 4);
    Again4(r);
  }

  lemma Again4(r: bv32)
    ensures Up4(Up4(r)) == Up8(r)
  {}

  lemma TwiceBy16(r: bv32)
    ensures TwiceBy(r, 16) == r << 16
  {
    hide TwiceBy, Up8;
    TwiceBy8(r);
    TwiceBy8(Up8(r));
    TwiceByJoin(r, 8, 8);
    Again8(r);
  }

  lemma Again8(r: bv32)
    ensures Up8(Up8(r)) == r << 16
  {}

  predicate Odd(r: bv32) {
    r & 1 == 1
  }

  lemma {:induction false} TwiceByZero(n: nat)
    ensures TwiceBy(0, n) == 0
  {
    if n > 0 {
      TwiceByZero(n - 1);
    }
  }

  lemma OddShifted(r: bv32)
    ensures Twice(Twice(Twice(Up4(Up8(r << 16))))) == 0 ==> !Odd(r)
  {}

  lemma TwiceBy31(r: bv32)
    ensures TwiceBy(r, 31) == Twice(Twice(Twice(Up4(Up8(r << 16)))))
  {
    hide Twice, Up4, Up8;
    TwiceByJoin(r, 16, 15);
    TwiceBy16(r);
    var s := r << 16;
    TwiceByJoin(s, 8, 7);
    TwiceBy8(s);
    TwiceByJoin(Up8(s), 4, 3);
    TwiceBy4(Up8(s));
    var t := Up4(Up8(s));
    assert TwiceBy(t, 3) == TwiceBy(Twice(t), 2) == TwiceBy(Twice(Twice(t)), 1);
  }

  /** Fewer than 32 shifts do not lose the lowest bit. */
  lemma OddStays(r: bv32, n: nat)
    requires n <= 31 && TwiceBy(r, n) == 0
    ensures !Odd(r)
  {
    hide Odd, Twice, Up4, Up8;
    TwiceByJoin(r, n, 31 - n);
    TwiceByZero(31 - n);
    TwiceBy31(r);
    OddShifted(r);
  }

  // ----- bursts -----

  lemma StepDifference(c: bv32, c': bv32, bit: bool, bit': bool)
    ensures Plus(BitStep(c, bit), BitStep(c', bit'))
         == Plus(Twice(Plus(c, c')), Poly(Top(Plus(c, c')) != (bit != bit')))
  {
    hide Top, Twice, Plus, Poly;
    Exchange(Twice(c), Poly(Top(c) != bit), Twice(c'), Poly(Top(c') != bit'));
    TwiceLinear(c, c');
    TopLinear(c, c');
    PolyLinear(Top(c) != bit, Top(c') != bit');
  }

  lemma PolyOdd(r: bv32, present: bool)
    ensures Odd(Plus(Twice(r), Poly(present))) == present
  {}

  lemma SameStep(c: bv32, bit: bool, bit': bool)
    requires !(Top(Plus(c, c)) != (bit != bit'))
    ensures bit == bit'
  {}

  /** Registers that become equal after at most 32 bits differed in at most as many high bits, and
      if they did not differ at all then neither did the bits. */
  lemma {:induction false} Window(c: bv32, c': bv32, a: seq<bool>, b: seq<bool>, i: nat, j: nat)
    requires i <= j <= |a| == |b| && j - i <= 32 && Divide(c, a, i, j) == Divide(c', b, i, j)
    ensures TwiceBy(Plus(c, c'), j - i) == 0
    ensures c == c' ==> forall k :: i <= k < j ==> a[k] == b[k]
    decreases j - i
  {
    hide Top, Twice, Plus, Poly, BitStep, Odd;
    if i == j {
      PlusEqual(c, c');
    } else {
      Window(BitStep(c, a[i]), BitStep(c', b[i]), a, b, i + 1, j);
      StepDifference(c, c', a[i], b[i]);
      var reduced := Top(Plus(c, c')) != (a[i] != b[i]);
      PolyOdd(Plus(c, c'), reduced);
      OddStays(Plus(BitStep(c, a[i]), BitStep(c', b[i])), j - i - 1);
      NotReduced(Twice(Plus(c, c')));
      if c == c' {
        SameStep(c, a[i], b[i]);
      }
    }
  }

  lemma NotReduced(r: bv32)
    ensures Plus(r, Poly(false)) == r
  {}

  lemma {:induction false} DivideJoin(c: bv32, bits: seq<bool>, i: nat, m: nat, j: nat)
    requires i <= m <= j <= |bits|
    ensures Divide(c, bits, i, j) == Divide(Divide(c, bits, i, m), bits, m, j)
    decreases m - i
  {
    hide BitStep;
    if i < m {
      DivideJoin(BitStep(c, bits[i]), bits, i + 1, m, j);
    }
  }

  lemma {:induction false} DivideSame(c: bv32, a: seq<bool>, b: seq<bool>, i: nat, j: nat)
    requires i <= j <= |a| == |b| && forall k :: i <= k < j ==> a[k] == b[k]
    ensures Divide(c, a, i, j) == Divide(c, b, i, j)
    decreases j - i
  {
    hide BitStep;
    if i < j {
      DivideSame(BitStep(c, a[i]), a, b, i + 1, j);
    }
  }

  /** For a given bit, the step loses nothing of the register. */
  lemma StepInjective(c: bv32, c': bv32, bit: bool)
    requires BitStep(c, bit) == BitStep(c', bit)
    ensures c == c'
  {
    hide BitStep, Plus, Top, Twice, Poly, Shift;
    StepDifference(c, c', bit, bit);
    PlusEqual(BitStep(c, bit), BitStep(c', bit));
    ShiftIs(Plus(c, c'));
    ShiftZero(Plus(c, c'));
    PlusEqual(c, c');
  }

  lemma ShiftIs(r: bv32)
    ensures Shift(r) == Plus(Twice(r), Poly(Top(r)))
  {}

  lemma {:induction false} DivideInjective(c: bv32, c': bv32, bits: seq<bool>, i: nat, j: nat)
    requires i <= j <= |bits| && Divide(c, bits, i, j) == Divide(c', bits, i, j)
    ensures c == c'
    decreases j - i
  {
    hide BitStep;
    if i < j {
      DivideInjective(BitStep(c, bits[i]), BitStep(c', bits[i]), bits, i + 1, j);
      StepInjective(c, c', bits[i]);
    }
  }

  /** The two differ nowhere but in `from..from + 32`. */
  ghost predicate Burst(a: seq<bool>, b: seq<bool>, from: nat) {
    |a| == |b| && forall k :: 0 <= k < |a| && !(from <= k < from + 32) ==> a[k] == b[k]
  }

  /** Every burst of at most 32 bits, wherever it is, changes the result of the division. */
  lemma BurstChanges(c: bv32, a: seq<bool>, b: seq<bool>, from: nat)
    requires Burst(a, b, from) && Divide(c, a, 0, |a|) == Divide(c, b, 0, |a|)
    ensures a == b
  {
    hide Divide;
    var i := if from <= |a| then from else |a|;
    var j := if from + 32 <= |a| then from + 32 else |a|;
    DivideJoin(c, a, 0, i, |a|);
    DivideJoin(c, b, 0, i, |a|);
    DivideSame(c, a, b, 0, i);
    var d := Divide(c, a, 0, i);
    DivideJoin(d, a, i, j, |a|);
    DivideJoin(d, b, i, j, |a|);
    DivideSame(Divide(d, b, i, j), a, b, j, |a|);
    DivideInjective(Divide(d, a, i, j), Divide(d, b, i, j), a, j, |a|);
    Window(d, d, a, b, i, j);
    assert forall k :: 0 <= k < |a| ==> a[k] == b[k];
  }

  // ----- the table-driven form -----

  /** Bit `m` of a byte, the most significant one first. */
  function BitOf(v: bv8, m: nat): bool {
    Top(TwiceBy(High(v), m))
  }

  /** The bits of a sequence of bytes in the order of the division. */
  function Bits(s: seq<bv8>): (bits: seq<bool>)
    ensures |bits| == 8 * |s|
  {
    seq(8 * |s|, i requires 0 <= i < 8 * |s| => BitOf(s[i / 8], i % 8))
  }

  /** The reference: the bits of the bytes, divided in one after the other. */
  function Checksum(s: seq<bv8>): bv32 {
    Divide(0, Bits(s), 0, 8 * |s|)
  }

  function TableEntry(index: bv8): bv32 {
    ShiftBy(High(index), 8)
  }

  predicate TableUpTo(table: seq<bv32>, n: nat) {
    n <= 256 && n <= |table| && forall i :: 0 <= i < n ==> table[i] == TableEntry(i as bv8)
  }

  predicate IsTable(table: seq<bv32>) {
    |table| == 256 && TableUpTo(table, 256)
  }

  lemma StartOfEntry(i: nat)
    requires i < 256
    ensures TableEntry(i as bv8) == ShiftBy((i as bv32) << 24, 8)
  {
    assert (i as bv8) as bv32 == i as bv32;
  }

  lemma ShiftTop(r: bv32)
    requires Top(r)
    ensures Shift(r) == (r << 1) ^ POLY
  {}

  lemma ShiftLow(r: bv32)
    requires !Top(r)
    ensures Shift(r) == r << 1
  {
    hide Plus;
    PlusZero(r << 1);
  }

  ghost predicate HoldsTable(table: array<bv32>) reads table {
    IsTable(table[..])
  }

  method GenerateChecksumTable() returns (table: array<bv32>)
    ensures fresh(table) && HoldsTable(table)
  {
    hide Shift, TableEntry;
    table := new bv32[256](_ => 0);
    var i := 0;
    while i < 256
      invariant 0 <= i <= 256
      invariant table.Length == 256 && TableUpTo(table[..], i)
    {
      var r := (i as bv32) << 24;
      ghost var start := r;
      StartOfEntry(i);
      var j := 0;
      while j < 8
        invariant 0 <= j <= 8
        invariant ShiftBy(start, 8) == ShiftBy(r, 8 - j)
        invariant j > 0 ==> table[i] == r
        invariant table.Length == 256 && TableUpTo(table[..], i)
      {
        if r & 0x8000_0000 != 0 {
          ShiftTop(r);
          r := (r << 1) ^ POLY;
        } else {
          ShiftLow(r);
          r := r << 1;
        }
        table[i] := r;
        j := j + 1;
      }
      i := i + 1;
    }
  }

  /** The step that the reader makes for every byte. */
  method UpdateChecksum(checksum: bv32, value: bv8, table: array<bv32>) returns (r: bv32)
    requires HoldsTable(table)
    ensures r == DivideByte(checksum, value)
  {
    hide DivideByte, TableEntry, TableUpTo;
    var index := ((checksum >> 24) as bv8) ^ value;
    var entry := table[index as int];
    EntryAt(table[..], index);
    TableStep(checksum, value, index, entry);
    r := (checksum << 8) ^ entry;
  }

  lemma PlusIs(a: bv32, b: bv32)
    ensures Plus(a, b) == a ^ b
  {}

  lemma EntryAt(table: seq<bv32>, index: bv8)
    requires IsTable(table)
    ensures table[index as int] == TableEntry(index)
  {
    hide TableEntry;
    assert (index as int) as bv8 == index;
  }

  /** The register after the eight bits of a byte, the most significant one first. */
  function DivideByte(c: bv32, v: bv8): bv32 {
    Divide(c, ByteBits(v), 0, 8)
  }

  function ByteBits(v: bv8): (bits: seq<bool>)
    ensures |bits| == 8
  {
    seq(8, m requires 0 <= m < 8 => BitOf(v, m))
  }

  lemma StepIs(c: bv32, rem: bv32)
    ensures Shift(Plus(c, rem)) == Plus(BitStep(c, Top(rem)), Twice(rem))
  {
    hide Plus, Top, Twice, Poly;
    TopLinear(c, rem);
    TwiceLinear(c, rem);
    Associates(Twice(c), Twice(rem), Poly(Top(c) != Top(rem)));
    Commutes(Twice(rem), Poly(Top(c) != Top(rem)));
    Associates(Twice(c), Poly(Top(c) != Top(rem)), Twice(rem));
  }

  /** Bits can be put into the register at once, before the shifts. */
  lemma {:induction false} DivideWord(c: bv32, rem: bv32, bits: seq<bool>, i: nat, j: nat)
    requires i <= j <= |bits| && forall k :: i <= k < j ==> bits[k] == Top(TwiceBy(rem, k - i))
    ensures ShiftBy(Plus(c, rem), j - i) == Plus(Divide(c, bits, i, j), TwiceBy(rem, j - i))
    decreases j - i
  {
    hide Plus, Top, Twice, Poly, Shift, BitStep;
    if i < j {
      assert bits[i] == Top(TwiceBy(rem, 0));
      StepIs(c, rem);
      forall k | i + 1 <= k < j
        ensures bits[k] == Top(TwiceBy(Twice(rem), k - (i + 1)))
      {
        assert bits[k] == Top(TwiceBy(rem, k - i));
      }
      DivideWord(BitStep(c, Top(rem)), Twice(rem), bits, i + 1, j);
    }
  }

  /** A byte at the high end of a word. */
  function High(v: bv8): bv32 {
    (v as bv32) << 24
  }

  /** A word without its high byte. */
  function LowPart(c: bv32): bv32 {
    c & 0x00ff_ffff
  }

  lemma WordParts(c: bv32)
    ensures c == Plus(High((c >> 24) as bv8), LowPart(c))
  {}

  lemma HighLinear(a: bv8, b: bv8)
    ensures High(a ^ b) == Plus(High(a), High(b))
  {}

  lemma ByteParts(c: bv32, v: bv8)
    ensures Plus(c, High(v)) == Plus(High(((c >> 24) as bv8) ^ v), LowPart(c))
  {
    hide Plus, High, LowPart;
    var top := (c >> 24) as bv8;
    WordParts(c);
    HighLinear(top, v);
    Associates(High(top), LowPart(c), High(v));
    Commutes(LowPart(c), High(v));
    Associates(High(top), High(v), LowPart(c));
  }

  lemma ByteGone(c: bv32, v: bv8)
    ensures Up8(High(v)) == 0 && Up8(LowPart(c)) == Up8(c)
  {}

  /** Shifting n times reduces nothing. */
  predicate Clear(r: bv32, n: nat)
    decreases n
  {
    n == 0 || (!Top(r) && Clear(Twice(r), n - 1))
  }

  lemma {:induction false} ClearShifts(r: bv32, n: nat)
    requires Clear(r, n)
    ensures ShiftBy(r, n) == TwiceBy(r, n)
    decreases n
  {
    hide Top, Twice, Plus;
    if n > 0 {
      NotReduced(Twice(r));
      ClearShifts(Twice(r), n - 1);
    }
  }

  lemma {:induction false} ClearJoin(r: bv32, m: nat, n: nat)
    requires Clear(r, m) && Clear(TwiceBy(r, m), n)
    ensures Clear(r, m + n)
    decreases m
  {
    hide Top, Twice;
    if m > 0 {
      ClearJoin(Twice(r), m - 1, n);
    }
  }

  predicate FourZeros(x: bv32) {
    x & 0xf000_0000 == 0
  }

  lemma FourClear(x: bv32)
    requires FourZeros(x)
    ensures Clear(x, 4)
  {
    hide Top;
    NotTop(x);
    assert Clear(Twice(Twice(Twice(Twice(x)))), 0);
  }

  lemma NotTop(x: bv32)
    requires FourZeros(x)
    ensures !Top(x) && !Top(Twice(x)) && !Top(Twice(Twice(x))) && !Top(Twice(Twice(Twice(x))))
  {}

  lemma LowZeros(c: bv32)
    ensures FourZeros(LowPart(c)) && FourZeros(Up4(LowPart(c)))
  {
    assert (c & 0x00ff_ffff) & 0xf000_0000 == 0;
    assert ((c & 0x00ff_ffff) << 4) & 0xf000_0000 == 0;
  }

  lemma LowShifts(c: bv32)
    ensures ShiftBy(LowPart(c), 8) == Up8(c)
  {
    hide LowPart, ShiftBy, FourZeros, Up4, Up8, Clear, TwiceBy;
    LowZeros(c);
    FourClear(LowPart(c));
    FourClear(Up4(LowPart(c)));
    TwiceBy4(LowPart(c));
    ClearJoin(LowPart(c), 4, 4);
    ClearShifts(LowPart(c), 8);
    TwiceBy8(LowPart(c));
    ByteGone(c, 0);
  }

  lemma HighShifts(v: bv8)
    ensures TwiceBy(High(v), 8) == 0
  {
    hide High, TwiceBy;
    TwiceBy8(High(v));
    ByteGone(0, v);
  }

  /** A byte can be put into the register at once, before the shifts. */
  lemma ByteShifts(c: bv32, v: bv8)
    ensures ShiftBy(Plus(c, High(v)), 8) == DivideByte(c, v)
  {
    hide Plus, Top, Twice, Poly, Shift, BitStep, Divide, ShiftBy, TwiceBy, High;
    DivideWord(c, High(v), ByteBits(v), 0, 8);
    HighShifts(v);
    PlusZero(DivideByte(c, v));
  }

  lemma WordStep(c: bv32, v: bv8)
    ensures Plus(Up8(c), TableEntry(((c >> 24) as bv8) ^ v)) == DivideByte(c, v)
  {
    hide Plus, DivideByte, ShiftBy, High, LowPart, Up8;
    var index := ((c >> 24) as bv8) ^ v;
    ByteShifts(c, v);
    ByteParts(c, v);
    ShiftByLinear(High(index), LowPart(c), 8);
    LowShifts(c);
    Commutes(Up8(c), TableEntry(index));
  }

  /** One table look-up does what eight bit steps do. */
  lemma TableStep(c: bv32, v: bv8, index: bv8, entry: bv32)
    requires index == ((c >> 24) as bv8) ^ v && entry == TableEntry(index)
    ensures (c << 8) ^ entry == DivideByte(c, v)
  {
    hide Plus, TableEntry, DivideByte;
    WordStep(c, v);
    PlusIs(Up8(c), entry);
  }

  // ----- the remainder -----

  /** x^(32 + e) modulo the generator polynomial. */
  function Power(e: nat): bv32 {
    ShiftBy(POLY, e)
  }

  /** The sum of the powers of x that `bits[i..j]` name, modulo the generator polynomial. */
  function PowerSum(bits: seq<bool>, i: nat, j: nat): bv32
    requires i <= j <= |bits|
    decreases j - i
  {
    if i == j then 0
    else Plus(if bits[i] then Power(j - 1 - i) else 0, PowerSum(bits, i + 1, j))
  }

  lemma BitSum(c: bv32, bit: bool)
    ensures BitStep(c, bit) == Plus(Shift(c), Poly(bit))
  {
    hide Top, Twice, Plus, Poly;
    PolyLinear(Top(c), bit);
    Associates(Twice(c), Poly(Top(c)), Poly(bit));
  }

  lemma {:induction false} ZeroShifts(n: nat)
    ensures ShiftBy(0, n) == 0
  {
    hide Shift;
    if n > 0 {
      ShiftZero(0);
      ZeroShifts(n - 1);
    }
  }

  lemma PolyShifts(bit: bool, n: nat)
    ensures ShiftBy(Poly(bit), n) == if bit then Power(n) else 0
  {
    ZeroShifts(n);
  }

  /** Dividing bit by bit gives the remainder of the message polynomial, added to what the register
      held before. */
  lemma {:induction false} DivideIsRemainder(c: bv32, bits: seq<bool>, i: nat, j: nat)
    requires i <= j <= |bits|
    ensures Divide(c, bits, i, j) == Plus(ShiftBy(c, j - i), PowerSum(bits, i, j))
    decreases j - i
  {
    hide Plus, Poly, Shift, BitStep, Power;
    if i == j {
      PlusZero(c);
    } else {
      DivideIsRemainder(BitStep(c, bits[i]), bits, i + 1, j);
      BitSum(c, bits[i]);
      ShiftByLinear(Shift(c), Poly(bits[i]), j - 1 - i);
      PolyShifts(bits[i], j - 1 - i);
      Associates(ShiftBy(c, j - i), ShiftBy(Poly(bits[i]), j - 1 - i), PowerSum(bits, i + 1, j));
    }
  }

  /** The checksum is the remainder of the message, times x^32, by the generator polynomial. */
  lemma ChecksumIsRemainder(s: seq<bv8>)
    ensures Checksum(s) == PowerSum(Bits(s), 0, 8 * |s|)
  {
    hide Bits, Divide, Plus;
    DivideIsRemainder(0, Bits(s), 0, 8 * |s|);
    ZeroShifts(8 * |s|);
    Commutes(0, PowerSum(Bits(s), 0, 8 * |s|));
    PlusZero(PowerSum(Bits(s), 0, 8 * |s|));
  }

  // ----- whole sequences -----

  /** The division up to byte `n`. */
  function Prefix(s: seq<bv8>, n: nat): bv32
    requires n <= |s|
  {
    Divide(0, Bits(s), 0, 8 * n)
  }

  lemma ByteOfBits(s: seq<bv8>, n: nat, m: nat)
    requires n < |s| && m < 8
    ensures Bits(s)[8 * n + m] == ByteBits(s[n])[m]
  {
    assert (8 * n + m) / 8 == n && (8 * n + m) % 8 == m;
  }

  lemma {:induction false} DivideMoved(c: bv32, a: seq<bool>, i: nat, j: nat, b: seq<bool>, off: nat)
    requires off <= i <= j <= |a| && j - off <= |b| && forall k :: i <= k < j ==> a[k] == b[k - off]
    ensures Divide(c, a, i, j) == Divide(c, b, i - off, j - off)
    decreases j - i
  {
    hide BitStep;
    if i < j {
      DivideMoved(BitStep(c, a[i]), a, i + 1, j, b, off);
    }
  }

  lemma PrefixStep(s: seq<bv8>, n: nat)
    requires n < |s|
    ensures Prefix(s, n + 1) == DivideByte(Prefix(s, n), s[n])
  {
    hide Bits, ByteBits, Divide;
    DivideJoin(0, Bits(s), 0, 8 * n, 8 * n + 8);
    forall k | 8 * n <= k < 8 * n + 8
      ensures Bits(s)[k] == ByteBits(s[n])[k - 8 * n]
    {
      ByteOfBits(s, n, k - 8 * n);
    }
    DivideMoved(Prefix(s, n), Bits(s), 8 * n, 8 * n + 8, ByteBits(s[n]), 8 * n);
  }

  /** The bits determine the byte. */
  lemma BitsOfByte(v: bv8, w: bv8)
    requires forall m :: 0 <= m < 8 ==> BitOf(v, m) == BitOf(w, m)
    ensures v == w
  {
    hide Plus, High, BitOf, ShiftBy, Divide;
    ByteShifts(0, v);
    ByteShifts(0, w);
    DivideSame(0, ByteBits(v), ByteBits(w), 0, 8);
    ShiftByInjective(Plus(0, High(v)), Plus(0, High(w)), 8);
    HighInjective(v, w);
  }

  lemma HighInjective(v: bv8, w: bv8)
    requires Plus(0, High(v)) == Plus(0, High(w))
    ensures v == w
  {}

  lemma BitsInjective(s: seq<bv8>, t: seq<bv8>)
    requires |s| == |t| && Bits(s) == Bits(t)
    ensures s == t
  {
    hide Bits, BitOf;
    forall n | 0 <= n < |s|
      ensures s[n] == t[n]
    {
      forall m | 0 <= m < 8
        ensures BitOf(s[n], m) == BitOf(t[n], m)
      {
        ByteOfBits(s, n, m);
        ByteOfBits(t, n, m);
      }
      BitsOfByte(s[n], t[n]);
    }
  }

  /** Two byte sequences of the same length with the same checksum are equal if they differ only
      within 32 consecutive bits, wherever these are. */
  lemma BurstDetected(s: seq<bv8>, t: seq<bv8>, from: nat)
    requires |s| == |t| && Burst(Bits(s), Bits(t), from) && Checksum(s) == Checksum(t)
    ensures s == t
  {
    hide Bits, Divide;
    BurstChanges(0, Bits(s), Bits(t), from);
    BitsInjective(s, t);
  }
}
