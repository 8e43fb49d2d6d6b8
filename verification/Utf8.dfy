/** Which bytes are UTF-8 (section 4 of RFC 3629), and what becomes of them when they are cut off. */
module Utf8 {
  import ExtensionSyntax

  type byte = ExtensionSyntax.byte

  /** A byte that does not begin a character. */
  predicate IsContinuation(b: byte) {
    0x80 <= b < 0xC0
  }

  /** The bytes of a character that begins with `b`; 0 when none does. */
  function Announced(b: byte): nat {
    if b < 0x80 then 1
    else if b < 0xC2 then 0
    else if b < 0xE0 then 2
    else if b < 0xF0 then 3
    else if b < 0xF5 then 4
    else 0
  }

  /** Whether `c` may follow the first byte `b`: no overlong forms, no surrogates, nothing beyond U+10FFFF. */
  predicate MayFollow(b: byte, c: byte) {
    IsContinuation(c) && (b == 0xE0 ==> 0xA0 <= c) && (b == 0xED ==> c < 0xA0)
    && (b == 0xF0 ==> 0x90 <= c) && (b == 0xF4 ==> c < 0x90)
  }

  /** The bytes of the character at the front of `t[i..end]`; 0 when there is none. */
  function CharAt(t: seq<byte>, i: nat, end: nat): (n: nat)
    requires i < end <= |t|
    ensures i + n <= end
  {
    var n := Announced(t[i]);
    if i + n <= end && (n > 1 ==> MayFollow(t[i], t[i + 1]))
       && forall j :: i + 2 <= j < i + n ==> IsContinuation(t[j])
    then n else 0
  }

  /** Whether `t[i..end]` is a sequence of whole characters. */
  predicate WholeChars(t: seq<byte>, i: nat, end: nat)
    requires i <= end <= |t|
    decreases end - i
  {
    i == end || (CharAt(t, i, end) > 0 && WholeChars(t, i + CharAt(t, i, end), end))
  }

  predicate IsUtf8(t: seq<byte>) {
    WholeChars(t, 0, |t|)
  }

  /** What is left of a text is a text if and only if it is not cut inside a character. */
  lemma {:induction false} CutChars(t: seq<byte>, i: nat, cut: nat)
    requires i <= cut <= |t| && WholeChars(t, i, |t|)
    ensures WholeChars(t, i, cut) <==> cut == |t| || !IsContinuation(t[cut])
    decreases cut - i
  {
    if i < cut {
      var n := CharAt(t, i, |t|);
      if i + n <= cut {
        assert CharAt(t, i, cut) == n;
        CutChars(t, i + n, cut);
      } else {
        assert CharAt(t, i, cut) == 0;
      }
    }
  }

  lemma {:induction false} SamePart(t: seq<byte>, cut: nat, i: nat)
    requires i <= cut <= |t|
    ensures WholeChars(t[..cut], i, cut) == WholeChars(t, i, cut)
    decreases cut - i
  {
    if i < cut {
      assert CharAt(t[..cut], i, cut) == CharAt(t, i, cut);
      if CharAt(t, i, cut) > 0 {
        SamePart(t, cut, i + CharAt(t, i, cut));
      }
    }
  }

  lemma Cut(t: seq<byte>, cut: nat)
    requires cut <= |t| && IsUtf8(t)
    ensures IsUtf8(t[..cut]) <==> cut == |t| || !IsContinuation(t[cut])
  {
    hide CharAt;
    CutChars(t, 0, cut);
    SamePart(t, cut, 0);
  }

  /** Bytes below 128 are characters by themselves. */
  lemma {:induction false} AsciiFront(t: seq<byte>, i: nat, n: nat)
    requires i <= n <= |t| && forall j :: i <= j < n ==> t[j] < 0x80
    ensures WholeChars(t, i, |t|) == WholeChars(t, n, |t|)
    decreases n - i
  {
    if i < n {
      AsciiFront(t, i + 1, n);
    }
  }
}
