/** The weight format in literal bytes: what an entry is, and which bytes are a character. */
module WeightLaws {
  import opened Wrappers
  import opened Utf8
  import opened WeightBlob

  // ----- numbers -----

  /** A number in four bytes, the low one first. */
  function Value(data: seq<byte>, at: nat): nat
    requires at + 4 <= |data|
  {
    var a: int, b: int, c: int, d: int := data[at], data[at + 1], data[at + 2], data[at + 3];
    a + 256 * b + 65536 * c + 16777216 * d
  }

  lemma ReadIs(data: seq<byte>, at: nat)
    requires at + 4 <= |data|
    ensures Value(data, at) < 0x8000_0000 ==> ReadI32(data, at) == Value(data, at)
    ensures Value(data, at) >= 0x8000_0000 ==> ReadI32(data, at) == Value(data, at) - 0x1_0000_0000
  {}

  lemma WrittenIs(v: nat)
    requires v <= 0x7fff_ffff
    ensures Value(Bytes(v), 0) == v
  {
    assert v / 65536 == v / 256 / 256 && v / 16777216 == v / 65536 / 256;
  }

  /** The next multiple of 64. */
  lemma BlockIs(size: nat)
    ensures BlockSize(size) % 64 == 0 && size <= BlockSize(size) < size + 64
  {
    assert BlockSize(size) == (size + 63) / 64 * 64;
  }

  /** A written entry: the letters DNNw, version 0, the type, both sizes, the name and zeros in 44 bytes, the
      payload, and zeros up to the next multiple of 64. */
  lemma EntryIs(e: WeightEntry)
    requires 0 < |e.bytes| && BlockSize(|e.bytes|) <= 0x7fff_ffff && e.typeId <= 0x7fff_ffff
    ensures Fits(e)
    ensures var w := EntryBytes(e);
            && |w| == 64 + BlockSize(|e.bytes|)
            && w[..8] == [0x44, 0x4e, 0x4e, 0x77, 0, 0, 0, 0]
            && Value(w, 8) == e.typeId && Value(w, 12) == |e.bytes| && Value(w, 16) == BlockSize(|e.bytes|)
            && (forall k :: 0 <= k < 44 ==> w[20 + k] == if k < |e.name| && k < 43 then e.name[k] else 0)
            && w[64..64 + |e.bytes|] == e.bytes
            && forall k :: 64 + |e.bytes| <= k < |w| ==> w[k] == 0
  {
    hide Bytes, BlockSize;
    BlockFits(|e.bytes|);
    var w := EntryBytes(e);
    WrittenIs(e.typeId);
    WrittenIs(|e.bytes|);
    WrittenIs(BlockSize(|e.bytes|));
    assert Bytes(0) == [0, 0, 0, 0] by {
      ZeroBytes();
    }
    HeaderIs(e);
    assert w[..64] == Header(e);
    ValueOf(w, 8, Bytes(e.typeId));
    ValueOf(w, 12, Bytes(|e.bytes|));
    ValueOf(w, 16, Bytes(BlockSize(|e.bytes|)));
    assert w[..8] == Header(e)[..8];
    forall k | 0 <= k < 44
      ensures w[20 + k] == if k < |e.name| && k < 43 then e.name[k] else 0
    {
      assert w[20 + k] == Header(e)[20..64][k];
    }
  }

  lemma ZeroBytes()
    ensures Bytes(0) == [0, 0, 0, 0]
  {}

  lemma HeaderIs(e: WeightEntry)
    requires Fits(e)
    ensures Header(e)[..4] == [0x44, 0x4e, 0x4e, 0x77] && Header(e)[4..8] == Bytes(0)
    ensures Header(e)[8..12] == Bytes(e.typeId) && Header(e)[12..16] == Bytes(|e.bytes|)
    ensures Header(e)[16..20] == Bytes(BlockSize(|e.bytes|))
    ensures Header(e)[20..64] == Truncated(e.name) + Zeros(44 - |Truncated(e.name)|)
  {
    hide Bytes, BlockSize, Truncated;
  }

  lemma ValueOf(w: seq<byte>, at: nat, b: seq<byte>)
    requires |w| >= 64 && at + 4 <= 64 && |b| == 4 && w[..64][at..at + 4] == b
    ensures Value(w, at) == Value(b, 0)
  {
    var part := w[..64][at..at + 4];
    assert part[0] == w[at] && part[1] == w[at + 1] && part[2] == w[at + 2] && part[3] == w[at + 3];
    assert w[at] == b[0] && w[at + 1] == b[1] && w[at + 2] == b[2] && w[at + 3] == b[3];
  }

  // ----- what the parser takes for an entry -----

  /** `w` is an entry: whatever its first 12 bytes are, there are two sizes, a name of text with a zero behind it,
      the payload, and more up to the second size. */
  ghost predicate IsEntry(w: seq<byte>, name: seq<byte>, payload: seq<byte>) {
    && |w| >= 64 && Value(w, 12) == |payload| && Value(w, 16) == |w| - 64 && |payload| <= |w| - 64 <= 0x7fff_ffff
    && |name| < 44 && w[20..20 + |name|] == name && w[20 + |name|] == 0 && w[63] == 0
    && (forall k :: 0 <= k < |name| ==> name[k] != 0) && IsUtf8(name)
    && w[64..64 + |payload|] == payload
  }

  lemma {:induction false} NameLenIs(data: seq<byte>, pos: nat, k: nat, n: nat)
    requires k <= n < 44 && pos + 44 <= |data| && data[pos + n] == 0
    requires forall i :: pos + k <= i < pos + n ==> data[i] != 0
    ensures NameLen(data, pos, k) == n
    decreases n - k
  {
    if k < n {
      NameLenIs(data, pos, k + 1, n);
    }
  }

  lemma {:induction false} NameLenEnds(data: seq<byte>, pos: nat, k: nat)
    requires k <= 43 && pos + 44 <= |data| && data[pos + 43] == 0
    ensures var n := NameLen(data, pos, k);
            n < 44 && data[pos + n] == 0 && forall i :: pos + k <= i < pos + n ==> data[i] != 0
    decreases 43 - k
  {
    if data[pos + k] != 0 {
      NameLenEnds(data, pos, k + 1);
    }
  }

  /** Everything that is found is an entry. */
  lemma FoundIsEntry(data: seq<byte>, pos: nat)
    requires pos <= |data| && EntryAt(data, pos).Ok?
    ensures var f := EntryAt(data, pos).value;
            pos + 64 <= f.next <= |data| && IsEntry(data[pos..f.next], f.weights.name, f.weights.data)
  {
    hide NameLen, IsUtf8, ReadI32;
    var f := EntryAt(data, pos).value;
    NameLenEnds(data, pos + 20, 0);
    ReadIs(data, pos + 12);
    ReadIs(data, pos + 16);
    var w, n := data[pos..f.next], NameLen(data, pos + 20, 0);
    InPart(data, pos, f.next, 20, 20 + n);
    InPart(data, pos, f.next, 64, 64 + |f.weights.data|);
    assert forall k :: 0 <= k < n ==> f.weights.name[k] == data[pos + 20 + k];
  }

  lemma InPart(data: seq<byte>, pos: nat, end: nat, i: nat, j: nat)
    requires pos <= end <= |data| && i <= j <= end - pos
    ensures data[pos..end][i..j] == data[pos + i..pos + j]
  {
    forall k | 0 <= k < j - i
      ensures data[pos..end][i..j][k] == data[pos + i..pos + j][k]
    {
      assert data[pos..end][i + k] == data[pos + (i + k)];
    }
  }

  /** Every entry is found, with its end. */
  lemma EntryIsFound(data: seq<byte>, pos: nat, end: nat, name: seq<byte>, payload: seq<byte>)
    requires pos <= end <= |data| && IsEntry(data[pos..end], name, payload)
    ensures EntryAt(data, pos) == Ok(Found(WeightArray(name, payload), end))
  {
    hide NameLen, IsUtf8, ReadI32;
    var w := data[pos..end];
    ReadIs(data, pos + 12);
    ReadIs(data, pos + 16);
    InPart(data, pos, end, 20, 20 + |name|);
    InPart(data, pos, end, 64, 64 + |payload|);
    assert w[20 + |name|] == data[pos + 20 + |name|] && w[63] == data[pos + 63];
    forall i | pos + 20 <= i < pos + 20 + |name|
      ensures data[i] != 0
    {
      assert data[i] == name[i - (pos + 20)];
    }
    NameLenIs(data, pos + 20, 0, |name|);
  }

  /** An entry is found at a position if and only if some of the bytes from there on are one. */
  lemma EntryIff(data: seq<byte>, pos: nat)
    requires pos <= |data|
    ensures EntryAt(data, pos).Ok? <==>
              exists end: nat, name, payload :: pos <= end <= |data| && IsEntry(data[pos..end], name, payload)
  {
    hide EntryAt, IsEntry;
    if EntryAt(data, pos).Ok? {
      FoundIsEntry(data, pos);
    }
    if end: nat, name, payload :| pos <= end <= |data| && IsEntry(data[pos..end], name, payload) {
      EntryIsFound(data, pos, end, name, payload);
    }
  }

  // ----- text -----

  /** A character: not one half of a surrogate pair, and not beyond the last plane. */
  predicate IsScalar(c: nat) {
    c < 0xD800 || 0xE000 <= c < 0x11_0000
  }

  /** Its bytes: six bits in every byte but the first. */
  function Encoded(c: nat): (t: seq<byte>)
    requires IsScalar(c)
  {
    if c < 0x80 then [c]
    else if c < 0x800 then [0xC0 + c / 64, 0x80 + c % 64]
    else if c < 0x1_0000 then [0xE0 + c / 4096, 0x80 + c / 64 % 64, 0x80 + c % 64]
    else [0xF0 + c / 262144, 0x80 + c / 4096 % 64, 0x80 + c / 64 % 64, 0x80 + c % 64]
  }

  lemma EncodedIsChar(c: nat)
    requires IsScalar(c)
    ensures CharAt(Encoded(c), 0, |Encoded(c)|) == |Encoded(c)|
  {
    Digits(c);
  }

  lemma Digits(c: nat)
    ensures c / 4096 == c / 64 / 64 && c / 262144 == c / 4096 / 64
    ensures c == c / 64 * 64 + c % 64 && c / 64 == c / 4096 * 64 + c / 64 % 64
    ensures c / 4096 == c / 262144 * 64 + c / 4096 % 64
  {}

  lemma Join(high: nat, low: nat)
    requires low < 64
    ensures (high * 64 + low) / 64 == high && (high * 64 + low) % 64 == low
  {}

  lemma CharIsEncoded(t: seq<byte>) returns (c: nat)
    requires |t| > 0 && CharAt(t, 0, |t|) == |t|
    ensures IsScalar(c) && t == Encoded(c)
  {
    var a: int := t[0];
    if |t| == 1 {
      c := a;
    } else {
      var b: int := t[1];
      assert |t| == Announced(t[0]) && MayFollow(t[0], t[1]);
      if |t| == 2 {
        c := (a - 0xC0) * 64 + (b - 0x80);
        Join(a - 0xC0, b - 0x80);
      } else {
        assert IsContinuation(t[2]);
        if |t| == 3 {
          c := ThreeBytes(t);
        } else {
          assert IsContinuation(t[3]);
          c := FourBytes(t);
        }
      }
    }
  }

  lemma ThreeBytes(t: seq<byte>) returns (c: nat)
    requires |t| == 3 == Announced(t[0]) && MayFollow(t[0], t[1]) && IsContinuation(t[2])
    ensures IsScalar(c) && t == Encoded(c)
  {
    var a: int, b: int, d: int := t[0] as int - 0xE0, t[1] as int - 0x80, t[2] as int - 0x80;
    c := (a * 64 + b) * 64 + d;
    Join(a * 64 + b, d);
    Join(a, b);
    Digits(c);
  }

  lemma FourBytes(t: seq<byte>) returns (c: nat)
    requires |t| == 4 == Announced(t[0]) && MayFollow(t[0], t[1]) && IsContinuation(t[2]) && IsContinuation(t[3])
    ensures IsScalar(c) && t == Encoded(c)
  {
    var a: int, b: int := t[0] as int - 0xF0, t[1] as int - 0x80;
    var d: int, e: int := t[2] as int - 0x80, t[3] as int - 0x80;
    c := ((a * 64 + b) * 64 + d) * 64 + e;
    Join((a * 64 + b) * 64 + d, e);
    Join(a * 64 + b, d);
    Join(a, b);
    Digits(c);
  }

  /** Bytes are one character of text if and only if they are the bytes of a character. */
  lemma CharIff(t: seq<byte>)
    requires |t| > 0
    ensures CharAt(t, 0, |t|) == |t| <==> exists c: nat :: IsScalar(c) && t == Encoded(c)
  {
    hide CharAt, Encoded;
    if CharAt(t, 0, |t|) == |t| {
      var c := CharIsEncoded(t);
    }
    if c: nat :| IsScalar(c) && t == Encoded(c) {
      EncodedIsChar(c);
    }
  }

  /** Text is empty, or one character and then text. */
  lemma TextIff(t: seq<byte>)
    ensures IsUtf8(t) <==>
              t == [] || exists n: nat :: 0 < n <= |t| && CharAt(t[..n], 0, n) == n && IsUtf8(t[n..])
  {
    hide CharAt;
    if |t| > 0 {
      var n := CharAt(t, 0, |t|);
      if n > 0 {
        FrontChar(t, n);
        Shifted(t, n, n);
        assert n <= |t|;
      }
      if m: nat :| 0 < m <= |t| && CharAt(t[..m], 0, m) == m && IsUtf8(t[m..]) {
        SameChar(t, m);
        Shifted(t, m, m);
      }
    }
  }

  lemma FrontChar(t: seq<byte>, n: nat)
    requires |t| > 0 && CharAt(t, 0, |t|) == n > 0
    ensures n <= |t| && CharAt(t[..n], 0, n) == n
  {}

  lemma SameChar(t: seq<byte>, n: nat)
    requires 0 < n <= |t| && CharAt(t[..n], 0, n) == n
    ensures CharAt(t, 0, |t|) == n
  {
    assert forall j :: 2 <= j < n ==> t[j] == t[..n][j];
  }

  /** Text does not depend on where it is. */
  lemma {:induction false} Shifted(t: seq<byte>, n: nat, i: nat)
    requires n <= i <= |t|
    ensures WholeChars(t[n..], i - n, |t| - n) == WholeChars(t, i, |t|)
    decreases |t| - i
  {
    hide CharAt;
    if i < |t| {
      ShiftedChar(t, n, i);
      if CharAt(t, i, |t|) > 0 {
        Shifted(t, n, i + CharAt(t, i, |t|));
      }
    }
  }

  lemma ShiftedChar(t: seq<byte>, n: nat, i: nat)
    requires n <= i < |t|
    ensures CharAt(t[n..], i - n, |t| - n) == CharAt(t, i, |t|)
  {
    var m := Announced(t[i]);
    var u := t[n..];
    assert u[i - n] == t[i];
    if i + m <= |t| {
      assert forall j :: i + 2 <= j < i + m ==> t[j] == u[j - n];
      assert forall j :: i - n + 2 <= j < i - n + m ==> u[j] == t[j + n];
    }
  }
}
