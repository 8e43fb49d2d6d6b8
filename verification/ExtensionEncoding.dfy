/** What the writer puts into the padding, as a function of the extensions of each frame. */
module ExtensionEncoding {
  import opened ExtensionSyntax

  // ----- one extension -----

  /** What the writer accepts, once cut to its `len` bytes. */
  predicate Writable(e: Extension) {
    3 <= e.id <= 127 && e.len == |e.data| && (e.id < 32 ==> e.len <= 1)
  }

  predicate IsLongExt(e: Extension) {
    e.id >= 32
  }

  /** The id byte: for a short extension L is its length, for a long one L=0 means "no length". */
  function IdByte(e: Extension, last: bool): byte
    requires Writable(e)
  {
    e.id * 2 + if e.id < 32 then e.len else if last then 0 else 1
  }

  /** A length as bytes 255 and a smaller rest. */
  function LengthBytes(n: nat): seq<byte> {
    if n < 255 then [n] else [255] + LengthBytes(n - 255)
  }

  lemma LengthBytesShape(n: nat)
    ensures |LengthBytes(n)| == n / 255 + 1
    ensures forall i :: 0 <= i <= n / 255 ==> LengthBytes(n)[i] == if i < n / 255 then 255 else n % 255
  {}

  function LengthField(e: Extension, last: bool): seq<byte>
    requires Writable(e)
  {
    if IsLongExt(e) && !last then LengthBytes(e.len) else []
  }

  function PayloadBytes(e: Extension, last: bool): seq<byte>
    requires Writable(e)
  {
    LengthField(e, last) + e.data
  }

  function ExtensionBytes(e: Extension, last: bool): seq<byte>
    requires Writable(e)
  {
    [IdByte(e, last)] + PayloadBytes(e, last)
  }

  // ----- runs of extensions: es[i..j] -----

  ghost predicate AllWritable(es: seq<Extension>) {
    forall i :: 0 <= i < |es| ==> Writable(es[i])
  }

  predicate HasLongExt(es: seq<Extension>, i: nat, j: nat)
    requires j <= |es|
    decreases j - i
  {
    i < j && (IsLongExt(es[i]) || HasLongExt(es, i + 1, j))
  }

  /** Whole extensions; only the final one of the run is written as the last one of the data. */
  ghost function RunBytes(es: seq<Extension>, i: nat, j: nat, last: bool): seq<byte>
    requires AllWritable(es) && j <= |es|
    decreases j - i
  {
    if i >= j then [] else ExtensionBytes(es[i], last && i + 1 == j) + RunBytes(es, i + 1, j, last)
  }

  /** Payloads only; with `drop`, the last long one of the run goes without its length. */
  ghost function PayloadRun(es: seq<Extension>, i: nat, j: nat, drop: bool): seq<byte>
    requires AllWritable(es) && j <= |es|
    decreases j - i
  {
    if i >= j then []
    else PayloadBytes(es[i], drop && IsLongExt(es[i]) && !HasLongExt(es, i + 1, j)) + PayloadRun(es, i + 1, j, drop)
  }

  // ----- frames -----

  /** The extensions of every frame, in order. */
  type Frames = seq<seq<Extension>>

  ghost predicate WritableFrames(q: Frames) {
    forall g :: 0 <= g < |q| ==> AllWritable(q[g]) && InFrame(q[g], g)
  }

  ghost predicate InFrame(es: seq<Extension>, g: nat) {
    forall i :: 0 <= i < |es| ==> es[i].frame == g
  }

  /** A payload can be repeated when the id byte of the other extension describes it. */
  predicate Compatible(a: Extension, b: Extension) {
    a.id == b.id && (a.id < 32 ==> a.len == b.len)
  }

  /** Extension `i` of frame `f` is matched by extension `i` of every later frame. */
  ghost predicate Repeatable(q: Frames, f: nat, i: nat) {
    && f + 1 < |q| && i < |q[f]|
    && forall g :: f < g < |q| ==> i < |q[g]| && Compatible(q[f][i], q[g][i])
  }

  /** The end of the longest repeatable stretch of frame `f` that begins at `i`. */
  ghost function RepeatEnd(q: Frames, f: nat, i: nat): (j: nat)
    requires f < |q| && i <= |q[f]|
    ensures i <= j <= |q[f]|
    decreases |q[f]| - i
  {
    if Repeatable(q, f, i) then RepeatEnd(q, f, i + 1) else i
  }

  lemma {:induction false} RepeatEndIs(q: Frames, f: nat, i: nat)
    requires f < |q| && i <= |q[f]|
    ensures forall k :: i <= k < RepeatEnd(q, f, i) ==> Repeatable(q, f, k)
    ensures !Repeatable(q, f, RepeatEnd(q, f, i))
    decreases |q[f]| - i
  {
    if Repeatable(q, f, i) {
      RepeatEndIs(q, f, i + 1);
    }
  }

  /** All frames from `f` on have exactly `d` extensions. */
  ghost predicate AllEnd(q: Frames, f: nat, d: nat) {
    forall g :: f <= g < |q| ==> |q[g]| == d
  }

  ghost predicate AllReach(q: Frames, f: nat, d: nat) {
    forall g :: f <= g < |q| ==> d <= |q[g]|
  }

  /** The payloads `i..j` of every frame from `g` on. */
  ghost function RepeatBytes(q: Frames, i: nat, j: nat, g: nat, last: bool): seq<byte>
    requires WritableFrames(q) && AllReach(q, g, j)
    decreases |q| - g
  {
    if g >= |q| then [] else PayloadRun(q[g], i, j, last && g + 1 == |q|) + RepeatBytes(q, i, j, g + 1, last)
  }

  /** Whether the repeat in frame `f` of its extensions `d..e` ends the frame, so that the indicator
      can be written with L=0. */
  ghost predicate RepeatIsLast(q: Frames, f: nat, d: nat, e: nat)
    requires f < |q| && d <= e <= |q[f]|
  {
    AllEnd(q, f, e) || (|q[f]| == e && !HasLongExt(q[f], d, e))
  }

  ghost function IndicatorByte(last: bool): byte {
    if last then 4 else 5
  }

  /** Moving `n` frames forward. */
  function SeparatorBytes(n: nat): seq<byte>
    requires n < 256
  {
    if n == 0 then [] else if n == 1 then [2] else [3, n]
  }

  /** The repeat of extensions `d..e` of frame `f`, if there are any. */
  ghost function RepeatBlock(q: Frames, f: nat, d: nat, e: nat): seq<byte>
    requires WritableFrames(q) && f < |q| && d <= e && AllReach(q, f, e)
  {
    if d == e then []
    else [IndicatorByte(RepeatIsLast(q, f, d, e))] + RepeatBytes(q, d, e, f + 1, RepeatIsLast(q, f, d, e))
  }

  /** The frame in force after frame `f` is written. */
  ghost function FrameAfter(q: Frames, f: nat, d: nat, e: nat): nat
    requires f < |q| && d <= e <= |q[f]|
  {
    if d < e && RepeatIsLast(q, f, d, e) then f + 1 else f
  }

  /** The extensions from frame `f` on, of which the first `d` of every frame are written already,
      when the reader is at frame `curr`. */
  ghost function EncodeFrom(q: Frames, f: nat, d: nat, curr: nat): seq<byte>
    requires WritableFrames(q) && |q| <= MAX_FRAMES_PER_PACKET && AllReach(q, f, d) && curr <= f
    decreases |q| - f
  {
    if f >= |q| then []
    else if d == |q[f]| then EncodeFrom(q, f + 1, d, curr)
    else
      var e := RepeatEnd(q, f, d);
      RepeatReach(q, f, d);
      SeparatorBytes(f - curr) + RunBytes(q[f], d, e, false) + RepeatBlock(q, f, d, e)
        + RunBytes(q[f], e, |q[f]|, AllEnd(q, f + 1, e)) + EncodeFrom(q, f + 1, e, FrameAfter(q, f, d, e))
  }

  lemma RepeatReach(q: Frames, f: nat, d: nat)
    requires f < |q| && AllReach(q, f, d)
    ensures AllReach(q, f, RepeatEnd(q, f, d))
  {
    var e := RepeatEnd(q, f, d);
    RepeatEndIs(q, f, d);
    if e > d {
      assert Repeatable(q, f, e - 1);
    }
  }

  ghost function Encode(q: Frames): seq<byte>
    requires WritableFrames(q) && |q| <= MAX_FRAMES_PER_PACKET
  {
    EncodeFrom(q, 0, 0, 0)
  }
}
