/** The weight blob: entries of a header, a payload and padding. */
module WeightBlob {
  import opened Wrappers
  import opened Utf8

  const WEIGHT_BLOCK_SIZE := 64
  const WEIGHT_NAME_LEN := 44
  const WEIGHT_BLOB_VERSION := 0
  const MAX_I32 := 0x7fff_ffff

  datatype WeightError = InvalidBlob | MissingArray | SizeMismatch | InvalidIndex

  /** An array of weights as it is written. */
  datatype WeightEntry = WeightEntry(name: seq<byte>, bytes: seq<byte>, typeId: nat)

  /** An array of weights as it is found. */
  datatype WeightArray = WeightArray(name: seq<byte>, data: seq<byte>)

  // ----- integers -----

  function Bytes(v: nat): (b: seq<byte>)
    requires v <= MAX_I32
    ensures |b| == 4
  {
    [v % 256, v / 256 % 256, v / 65536 % 256, v / 16777216]
  }

  function FromBytes(a: byte, b: byte, c: byte, d: byte): int {
    var v := a + 256 * b + 65536 * c + 16777216 * d;
    if v > MAX_I32 then v - 0x1_0000_0000 else v
  }

  function ReadI32(data: seq<byte>, pos: nat): int
    requires pos + 4 <= |data|
  {
    FromBytes(data[pos], data[pos + 1], data[pos + 2], data[pos + 3])
  }

  lemma BytesRead(v: nat)
    requires v <= MAX_I32
    ensures ReadI32(Bytes(v), 0) == v
  {
    assert v / 65536 == v / 256 / 256 && v / 16777216 == v / 65536 / 256;
  }

  // ----- what is written -----

  function BlockSize(size: nat): nat {
    (size + WEIGHT_BLOCK_SIZE - 1) / WEIGHT_BLOCK_SIZE * WEIGHT_BLOCK_SIZE
  }

  lemma BlockFits(size: nat)
    ensures size <= BlockSize(size) < size + WEIGHT_BLOCK_SIZE
  {}

  function Zeros(n: nat): (z: seq<byte>)
    ensures |z| == n
  {
    seq(n, _ => 0)
  }

  /** The name as far as there is room for it. */
  function Truncated(name: seq<byte>): (t: seq<byte>)
    ensures |t| < WEIGHT_NAME_LEN
  {
    if |name| < WEIGHT_NAME_LEN then name else name[..WEIGHT_NAME_LEN - 1]
  }

  function Magic(): (b: seq<byte>)
    ensures |b| == 4
  {
    [0x44, 0x4e, 0x4e, 0x77]
  }

  predicate Fits(e: WeightEntry) {
    0 < |e.bytes| && BlockSize(|e.bytes|) <= MAX_I32 && e.typeId <= MAX_I32
  }

  function Header(e: WeightEntry): (h: seq<byte>)
    requires Fits(e)
    ensures |h| == WEIGHT_BLOCK_SIZE
  {
    BlockFits(|e.bytes|);
    Magic() + Bytes(WEIGHT_BLOB_VERSION) + Bytes(e.typeId) + Bytes(|e.bytes|) + Bytes(BlockSize(|e.bytes|))
    + Truncated(e.name) + Zeros(WEIGHT_NAME_LEN - |Truncated(e.name)|)
  }

  function EntryBytes(e: WeightEntry): seq<byte>
    requires Fits(e)
  {
    BlockFits(|e.bytes|);
    Header(e) + e.bytes + Zeros(BlockSize(|e.bytes|) - |e.bytes|)
  }

  /** Copies into a header of which `done` is done and the rest is zero. */
  method CopyTo(a: array<byte>, at: nat, s: seq<byte>, ghost done: seq<byte>)
    requires |done| == at && at + |s| <= a.Length && a[..] == done + Zeros(a.Length - at)
    modifies a
    ensures a[..] == (done + s) + Zeros(a.Length - at - |s|)
  {
    ghost var before := a[..];
    forall k | 0 <= k < |s| {
      a[at + k] := s[k];
    }
    assert a[..] == before[..at] + s + before[at + |s|..];
  }

  /** Writes one entry behind `out`. */
  method WriteWeightEntry(out: seq<byte>, e: WeightEntry) returns (ok: bool, written: seq<byte>)
    requires e.typeId <= MAX_I32
    ensures ok <==> Fits(e)
    ensures written == if ok then out + EntryBytes(e) else out
  {
    hide Bytes, BlockSize;
    var size := |e.bytes|;
    if size == 0 {
      return false, out;
    }
    var blockSize := BlockSize(size);
    BlockFits(size);
    if size > MAX_I32 || blockSize > MAX_I32 {
      return false, out;
    }
    var header := new byte[WEIGHT_BLOCK_SIZE](_ => 0);
    FillHeader(header, e);
    written := out + header[..];
    written := written + e.bytes;
    if blockSize > size {
      written := written + Zeros(blockSize - size);
    }
    Together(out, Header(e), e.bytes, Zeros(blockSize - size));
    return true, written;
  }

  lemma Together(out: seq<byte>, a: seq<byte>, b: seq<byte>, c: seq<byte>)
    ensures out + a + b + c == out + (a + b + c)
    ensures |c| == 0 ==> out + a + b == out + (a + b + c)
  {}

  method FillHeader(header: array<byte>, e: WeightEntry)
    requires Fits(e) && header.Length == WEIGHT_BLOCK_SIZE && header[..] == Zeros(WEIGHT_BLOCK_SIZE)
    modifies header
    ensures header[..] == Header(e)
  {
    hide Bytes, BlockSize;
    BlockFits(|e.bytes|);
    var copyLen := if |e.name| < WEIGHT_NAME_LEN then |e.name| else WEIGHT_NAME_LEN - 1;
    ghost var h0 := Magic();
    assert header[..] == [] + Zeros(header.Length - 0);
    CopyTo(header, 0, Magic(), []);
    assert [] + h0 == h0;
    CopyTo(header, 4, Bytes(WEIGHT_BLOB_VERSION), h0);
    ghost var h1 := h0 + Bytes(WEIGHT_BLOB_VERSION);
    CopyTo(header, 8, Bytes(e.typeId), h1);
    ghost var h2 := h1 + Bytes(e.typeId);
    CopyTo(header, 12, Bytes(|e.bytes|), h2);
    ghost var h3 := h2 + Bytes(|e.bytes|);
    CopyTo(header, 16, Bytes(BlockSize(|e.bytes|)), h3);
    ghost var h4 := h3 + Bytes(BlockSize(|e.bytes|));
    CopyTo(header, 20, e.name[..copyLen], h4);
    assert Truncated(e.name) == e.name[..copyLen];
  }

  // ----- what is found -----

  /** The length of the name in a header: up to the first zero byte. */
  function NameLen(data: seq<byte>, pos: nat, k: nat): (n: nat)
    requires k <= WEIGHT_NAME_LEN && pos + WEIGHT_NAME_LEN <= |data|
    ensures k <= n <= WEIGHT_NAME_LEN
    decreases WEIGHT_NAME_LEN - k
  {
    if k == WEIGHT_NAME_LEN || data[pos + k] == 0 then k else NameLen(data, pos, k + 1)
  }

  /** An entry, and where the next one begins. */
  datatype Found = Found(weights: WeightArray, next: nat)

  function EntryAt(data: seq<byte>, pos: nat): (f: Result<Found, WeightError>)
    requires pos <= |data|
    ensures f.Ok? ==> pos + WEIGHT_BLOCK_SIZE <= f.value.next <= |data|
  {
    if |data| - pos < WEIGHT_BLOCK_SIZE then Err(InvalidBlob)
    else
      var size, blockSize := ReadI32(data, pos + 12), ReadI32(data, pos + 16);
      if size < 0 || blockSize < size || blockSize > |data| - pos - WEIGHT_BLOCK_SIZE || data[pos + 63] != 0
      then Err(InvalidBlob)
      else
        var name := data[pos + 20..pos + 20 + NameLen(data, pos + 20, 0)];
        var start := pos + WEIGHT_BLOCK_SIZE;
        if !IsUtf8(name) then Err(InvalidBlob)
        else Ok(Found(WeightArray(name, data[start..start + size]), start + blockSize))
  }

  type Parsed = Result<seq<WeightArray>, WeightError>

  /** What was found before, and then the rest. */
  function Behind(arrays: seq<WeightArray>, rest: Parsed): Parsed {
    if rest.Err? then rest else Ok(arrays + rest.value)
  }

  /** All entries from `pos` on; an error when the blob is not valid. */
  function ParseFrom(data: seq<byte>, pos: nat): Parsed
    requires pos <= |data|
    decreases |data| - pos
  {
    if pos == |data| then Ok([])
    else
      var f := EntryAt(data, pos);
      if f.Err? then Err(f.error)
      else
        Behind([f.value.weights], ParseFrom(data, f.value.next))
  }

  method FindNameLen(data: seq<byte>, pos: nat) returns (n: nat)
    requires pos + WEIGHT_NAME_LEN <= |data|
    ensures n == NameLen(data, pos, 0)
  {
    n := 0;
    while n < WEIGHT_NAME_LEN && data[pos + n] != 0
      invariant n <= WEIGHT_NAME_LEN && NameLen(data, pos, n) == NameLen(data, pos, 0)
    {
      n := n + 1;
    }
  }

  method ReadEntry(data: seq<byte>, pos: nat) returns (f: Result<Found, WeightError>)
    requires pos <= |data|
    ensures f == EntryAt(data, pos)
  {
    hide ReadI32, NameLen;
    if |data| - pos < WEIGHT_BLOCK_SIZE {
      return Err(InvalidBlob);
    }
    var size := ReadI32(data, pos + 12);
    var blockSize := ReadI32(data, pos + 16);
    if size < 0 || blockSize < size {
      return Err(InvalidBlob);
    }
    if blockSize > |data| - pos - WEIGHT_BLOCK_SIZE {
      return Err(InvalidBlob);
    }
    if data[pos + 20 + WEIGHT_NAME_LEN - 1] != 0 {
      return Err(InvalidBlob);
    }
    var nameLen := FindNameLen(data, pos + 20);
    var name := data[pos + 20..pos + 20 + nameLen];
    if !IsUtf8(name) {
      return Err(InvalidBlob);
    }
    var start := pos + WEIGHT_BLOCK_SIZE;
    return Ok(Found(WeightArray(name, data[start..start + size]), start + blockSize));
  }

  /** Parses a whole blob. */
  method Parse(data: seq<byte>) returns (r: Parsed)
    ensures r == ParseFrom(data, 0)
  {
    hide EntryAt, Behind;
    var arrays := [];
    var pos := 0;
    NothingBehind(ParseFrom(data, 0), arrays);
    while pos < |data|
      invariant 0 <= pos <= |data| && ParseFrom(data, 0) == Behind(arrays, ParseFrom(data, pos))
      decreases |data| - pos
    {
      var f := ReadEntry(data, pos);
      if f.Err? {
        NothingBehind(Err(f.error), arrays);
        return Err(f.error);
      }
      Regroup(arrays, f.value.weights, ParseFrom(data, f.value.next));
      arrays := arrays + [f.value.weights];
      pos := f.value.next;
    }
    NothingBehind(Err(InvalidBlob), arrays);
    return Ok(arrays);
  }

  lemma NothingBehind(rest: Parsed, arrays: seq<WeightArray>)
    ensures Behind([], rest) == rest && (rest.Err? ==> Behind(arrays, rest) == rest)
    ensures Behind(arrays, Ok([])) == Ok(arrays)
  {
    assert arrays + [] == arrays;
    if rest.Ok? {
      assert [] + rest.value == rest.value;
    }
  }

  lemma Regroup(arrays: seq<WeightArray>, a: WeightArray, rest: Parsed)
    ensures Behind(arrays, Behind([a], rest)) == Behind(arrays + [a], rest)
  {
    if rest.Ok? {
      assert arrays + ([a] + rest.value) == arrays + [a] + rest.value;
    }
  }

  /** The first array of that name. */
  method Find(arrays: seq<WeightArray>, name: seq<byte>) returns (r: Option<WeightArray>)
    ensures r.None? <==> forall k :: 0 <= k < |arrays| ==> arrays[k].name != name
    ensures r.Some? ==> exists k :: 0 <= k < |arrays| && r == Some(arrays[k]) && arrays[k].name == name
                                    && forall j :: 0 <= j < k ==> arrays[j].name != name
  {
    for k := 0 to |arrays|
      invariant forall j :: 0 <= j < k ==> arrays[j].name != name
    {
      if arrays[k].name == name {
        return Some(arrays[k]);
      }
    }
    return None;
  }

  /** The bytes of the array of that name, which has to have as many as expected. */
  method RequireBytes(arrays: seq<WeightArray>, name: seq<byte>, expected: nat)
    returns (r: Result<seq<byte>, WeightError>)
    ensures r == Err(MissingArray) <==> forall k :: 0 <= k < |arrays| ==> arrays[k].name != name
    ensures r.Ok? || r == Err(MissingArray) || r == Err(SizeMismatch)
    ensures r != Err(MissingArray) ==>
              exists k :: 0 <= k < |arrays| && arrays[k].name == name
                          && (forall j :: 0 <= j < k ==> arrays[j].name != name)
                          && r == if |arrays[k].data| == expected then Ok(arrays[k].data) else Err(SizeMismatch)
  {
    var found := Find(arrays, name);
    if found.None? {
      return Err(MissingArray);
    }
    if |found.value.data| != expected {
      return Err(SizeMismatch);
    }
    return Ok(found.value.data);
  }

  // ----- writing and reading back -----

  function FirstZero(t: seq<byte>, k: nat): (n: nat)
    requires k <= |t|
    ensures k <= n <= |t|
    decreases |t| - k
  {
    if k == |t| || t[k] == 0 then k else FirstZero(t, k + 1)
  }

  /** What is found of a name that was written: as much as there is room for, up to the first zero byte. */
  function StoredName(name: seq<byte>): seq<byte> {
    Truncated(name)[..FirstZero(Truncated(name), 0)]
  }

  lemma {:induction false} NoZero(t: seq<byte>, k: nat)
    requires k <= |t|
    ensures FirstZero(t, k) == |t| <==> forall i :: k <= i < |t| ==> t[i] != 0
    decreases |t| - k
  {
    if k < |t| && t[k] != 0 {
      NoZero(t, k + 1);
    }
  }

  /** A name is found as it was written if and only if it is short enough and has no zero byte. */
  lemma NameKept(name: seq<byte>)
    ensures StoredName(name) == name <==> |name| < WEIGHT_NAME_LEN && forall i :: 0 <= i < |name| ==> name[i] != 0
  {
    NoZero(Truncated(name), 0);
  }

  lemma {:induction false} NameFound(data: seq<byte>, pos: nat, t: seq<byte>, k: nat)
    requires k <= |t| < WEIGHT_NAME_LEN && pos + WEIGHT_NAME_LEN <= |data|
    requires forall j :: pos <= j < pos + WEIGHT_NAME_LEN ==> data[j] == if j - pos < |t| then t[j - pos] else 0
    ensures NameLen(data, pos, k) == FirstZero(t, k)
    decreases |t| - k
  {
    if k < |t| && t[k] != 0 {
      NameFound(data, pos, t, k + 1);
    }
  }

  lemma HeaderParts(e: WeightEntry)
    requires Fits(e)
    ensures Header(e)[12..16] == Bytes(|e.bytes|) && Header(e)[16..20] == Bytes(BlockSize(|e.bytes|))
    ensures Header(e)[20..64] == Truncated(e.name) + Zeros(WEIGHT_NAME_LEN - |Truncated(e.name)|)
  {
    hide Bytes, BlockSize, Truncated;
    BlockFits(|e.bytes|);
  }

  lemma ReadAt(data: seq<byte>, pos: nat, v: nat)
    requires v <= MAX_I32 && pos + 4 <= |data| && data[pos..pos + 4] == Bytes(v)
    ensures ReadI32(data, pos) == v
  {
    hide Bytes, FromBytes;
    BytesRead(v);
    var b := data[pos..pos + 4];
    assert data[pos] == b[0] && data[pos + 1] == b[1] && data[pos + 2] == b[2] && data[pos + 3] == b[3];
  }

  ghost predicate At(data: seq<byte>, pos: nat, w: seq<byte>) {
    pos + |w| <= |data| && data[pos..pos + |w|] == w
  }

  lemma AtPart(data: seq<byte>, pos: nat, w: seq<byte>, i: nat, j: nat)
    requires At(data, pos, w) && i <= j <= |w|
    ensures data[pos + i..pos + j] == w[i..j]
  {
    forall k | 0 <= k < j - i
      ensures data[pos + i..pos + j][k] == w[i..j][k]
    {
      assert data[pos + (i + k)] == data[pos..pos + |w|][i + k];
    }
  }

  lemma EntryParts(e: WeightEntry)
    requires Fits(e)
    ensures |EntryBytes(e)| == WEIGHT_BLOCK_SIZE + BlockSize(|e.bytes|) && |e.bytes| <= BlockSize(|e.bytes|)
    ensures EntryBytes(e)[..64] == Header(e)
    ensures EntryBytes(e)[64..64 + |e.bytes|] == e.bytes
  {
    hide Header, BlockSize;
    BlockFits(|e.bytes|);
  }

  lemma NameAt(data: seq<byte>, pos: nat, t: seq<byte>)
    requires |t| < WEIGHT_NAME_LEN && pos + WEIGHT_NAME_LEN <= |data|
    requires data[pos..pos + WEIGHT_NAME_LEN] == t + Zeros(WEIGHT_NAME_LEN - |t|)
    ensures data[pos..pos + NameLen(data, pos, 0)] == t[..FirstZero(t, 0)] && data[pos + WEIGHT_NAME_LEN - 1] == 0
  {
    var w := data[pos..pos + WEIGHT_NAME_LEN];
    forall j | pos <= j < pos + WEIGHT_NAME_LEN
      ensures data[j] == if j - pos < |t| then t[j - pos] else 0
    {
      assert data[j] == w[j - pos];
    }
    NameFound(data, pos, t, 0);
    assert data[pos..pos + FirstZero(t, 0)] == w[..FirstZero(t, 0)] == t[..FirstZero(t, 0)];
  }

  /** An entry that was written is found again if what there is of its name is UTF-8. */
  lemma EntryRead(data: seq<byte>, pos: nat, e: WeightEntry)
    requires Fits(e) && At(data, pos, EntryBytes(e))
    ensures EntryAt(data, pos)
         == if IsUtf8(StoredName(e.name)) then Ok(Found(Stored(e), pos + |EntryBytes(e)|))
            else Err(InvalidBlob)
  {
    hide Bytes, ReadI32, Header, EntryBytes, BlockSize, NameLen, FirstZero;
    var w := EntryBytes(e);
    EntryParts(e);
    HeaderParts(e);
    AtPart(data, pos, w, 12, 16);
    AtPart(data, pos, w, 16, 20);
    AtPart(data, pos, w, 20, 64);
    AtPart(data, pos, w, 64, 64 + |e.bytes|);
    assert w[12..16] == w[..64][12..16] && w[16..20] == w[..64][16..20] && w[20..64] == w[..64][20..64];
    ReadAt(data, pos + 12, |e.bytes|);
    ReadAt(data, pos + 16, BlockSize(|e.bytes|));
    NameAt(data, pos + 20, Truncated(e.name));
  }

  ghost predicate AllFit(entries: seq<WeightEntry>) {
    forall k :: 0 <= k < |entries| ==> Fits(entries[k])
  }

  predicate AllNamed(entries: seq<WeightEntry>, i: nat)
    requires i <= |entries|
    decreases |entries| - i
  {
    i == |entries| || (IsUtf8(StoredName(entries[i].name)) && AllNamed(entries, i + 1))
  }

  /** The entries from `i` on, one after the other. */
  ghost function Blob(entries: seq<WeightEntry>, i: nat): seq<byte>
    requires AllFit(entries) && i <= |entries|
    decreases |entries| - i
  {
    if i == |entries| then [] else EntryBytes(entries[i]) + Blob(entries, i + 1)
  }

  function Stored(e: WeightEntry): WeightArray {
    WeightArray(StoredName(e.name), e.bytes)
  }

  function StoredFrom(entries: seq<WeightEntry>, i: nat): seq<WeightArray>
    requires i <= |entries|
    decreases |entries| - i
  {
    if i == |entries| then [] else [Stored(entries[i])] + StoredFrom(entries, i + 1)
  }

  lemma {:induction false} BlobRead(data: seq<byte>, pos: nat, entries: seq<WeightEntry>, i: nat)
    requires AllFit(entries) && i <= |entries|
    requires At(data, pos, Blob(entries, i)) && pos + |Blob(entries, i)| == |data|
    ensures ParseFrom(data, pos) == if AllNamed(entries, i) then Ok(StoredFrom(entries, i)) else Err(InvalidBlob)
    decreases |entries| - i
  {
    hide EntryAt, EntryBytes, StoredName, Fits;
    if i < |entries| {
      var e := entries[i];
      var w, rest := EntryBytes(e), Blob(entries, i + 1);
      assert (w + rest)[..|w|] == w && (w + rest)[|w|..] == rest;
      AtPart(data, pos, w + rest, 0, |w|);
      AtPart(data, pos, w + rest, |w|, |w + rest|);
      EntryRead(data, pos, e);
      SizeOf(e);
      BlobRead(data, pos + |w|, entries, i + 1);
    }
  }

  lemma SizeOf(e: WeightEntry)
    requires Fits(e)
    ensures |EntryBytes(e)| > WEIGHT_BLOCK_SIZE
  {
    EntryParts(e);
  }

  /** Parsing what was written gives every array back, in order and without its padding, if and only
      if what there is of every name is UTF-8. */
  lemma WeightsRoundTrip(entries: seq<WeightEntry>)
    requires AllFit(entries)
    ensures ParseFrom(Blob(entries, 0), 0)
         == if AllNamed(entries, 0) then Ok(StoredFrom(entries, 0)) else Err(InvalidBlob)
  {
    BlobRead(Blob(entries, 0), 0, entries, 0);
  }

  // ----- names that are cut -----

  /** The name is too long, and the first byte without room is not the first one of a character. */
  predicate CutInside(name: seq<byte>) {
    WEIGHT_NAME_LEN <= |name| && (forall i :: 0 <= i < WEIGHT_NAME_LEN - 1 ==> name[i] != 0)
    && IsContinuation(name[WEIGHT_NAME_LEN - 1])
  }

  lemma {:induction false} ZeroFound(t: seq<byte>, k: nat)
    requires k <= |t|
    ensures FirstZero(t, k) < |t| ==> t[FirstZero(t, k)] == 0
    decreases |t| - k
  {
    if k < |t| && t[k] != 0 {
      ZeroFound(t, k + 1);
    }
  }

  /** What is kept of a name stops being UTF-8 exactly when the name is cut inside a character. */
  lemma NameRefused(name: seq<byte>)
    requires IsUtf8(name)
    ensures !IsUtf8(StoredName(name)) <==> CutInside(name)
  {
    hide IsUtf8;
    var t := Truncated(name);
    var n := FirstZero(t, 0);
    NoZero(t, 0);
    ZeroFound(t, 0);
    Cut(name, n);
    assert t[..n] == name[..n];
  }

  ghost predicate AllUtf8(entries: seq<WeightEntry>) {
    forall k :: 0 <= k < |entries| ==> IsUtf8(entries[k].name)
  }

  lemma {:induction false} CutsRefused(entries: seq<WeightEntry>, i: nat)
    requires AllUtf8(entries) && i <= |entries|
    ensures AllNamed(entries, i) <==> forall k :: i <= k < |entries| ==> !CutInside(entries[k].name)
    decreases |entries| - i
  {
    hide IsUtf8, StoredName, CutInside;
    if i < |entries| {
      NameRefused(entries[i].name);
      CutsRefused(entries, i + 1);
    }
  }

  /** The parser refuses what the writer wrote if and only if one of the names is cut inside a character. */
  lemma BlobRefused(entries: seq<WeightEntry>)
    requires AllFit(entries) && AllUtf8(entries)
    ensures ParseFrom(Blob(entries, 0), 0).Err? <==> exists k :: 0 <= k < |entries| && CutInside(entries[k].name)
  {
    hide ParseFrom, Blob, AllFit, AllUtf8, CutInside;
    WeightsRoundTrip(entries);
    CutsRefused(entries, 0);
  }

  /** 42 letters a, and then one letter of two bytes. */
  const LONG_NAME: seq<byte> := seq(42, _ => 0x61) + [0xC3, 0xA9]

  /** One such name, and none of the arrays is found. */
  lemma LongNameRefused(entries: seq<WeightEntry>)
    requires AllFit(entries) && AllUtf8(entries) && exists e :: e in entries && e.name == LONG_NAME
    ensures IsUtf8(LONG_NAME) && ParseFrom(Blob(entries, 0), 0) == Err(InvalidBlob)
  {
    hide ParseFrom, Blob, AllFit;
    AsciiFront(LONG_NAME, 0, 42);
    assert WholeChars(LONG_NAME, 44, |LONG_NAME|);
    assert CharAt(LONG_NAME, 42, 44) == 2;
    assert CutInside(LONG_NAME);
    BlobRefused(entries);
    WeightsRoundTrip(entries);
  }

  /** Every array that is found uses up at least 64 bytes. */
  lemma {:induction false} ArraysAtMost(data: seq<byte>, pos: nat)
    requires pos <= |data| && ParseFrom(data, pos).Ok?
    ensures WEIGHT_BLOCK_SIZE * |ParseFrom(data, pos).value| <= |data| - pos
    decreases |data| - pos
  {
    hide EntryAt;
    if pos < |data| {
      ArraysAtMost(data, EntryAt(data, pos).value.next);
    }
  }
}
