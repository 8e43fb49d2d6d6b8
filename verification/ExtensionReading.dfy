/** Reading back what the writer wrote, piece by piece: the reference decoder on single extensions,
    on runs of extensions, and on repeats. */
module ExtensionReading {
  import opened ExtensionSyntax
  import opened ExtensionDecoding
  import opened ExtensionEncoding

  /** The bytes `w` stand in `data` at `pos`. */
  ghost predicate At(data: seq<byte>, pos: nat, w: seq<byte>) {
    pos + |w| <= |data| && forall i {:trigger w[i]} :: 0 <= i < |w| ==> data[pos + i] == w[i]
  }

  lemma AtSplit(data: seq<byte>, pos: nat, a: seq<byte>, b: seq<byte>)
    requires At(data, pos, a + b)
    ensures At(data, pos, a) && At(data, pos + |a|, b)
  {
    var w := a + b;
    forall i | 0 <= i < |a|
      ensures data[pos + i] == a[i]
    {
      assert w[i] == a[i];
    }
    forall i | 0 <= i < |b|
      ensures data[pos + |a| + i] == b[i]
    {
      assert w[|a| + i] == b[i];
    }
  }

  lemma AtSlice(data: seq<byte>, pos: nat, w: seq<byte>)
    requires At(data, pos, w)
    ensures data[pos..pos + |w|] == w
  {}

  // ----- the order in which the reader hands the extensions out -----

  /** es[i..j], and then `t`. */
  ghost function YieldRun(es: seq<Extension>, i: nat, j: nat, t: Trace): Trace
    requires j <= |es|
    decreases j - i
  {
    if i >= j then t else Yields(es[i], YieldRun(es, i + 1, j, t))
  }

  /** Extensions `i..j` of every frame from `g` on, and then `t`. */
  ghost function YieldRepeat(q: Frames, i: nat, j: nat, g: nat, t: Trace): Trace
    requires AllReach(q, g, j)
    decreases |q| - g
  {
    if g >= |q| then t else YieldRun(q[g], i, j, YieldRepeat(q, i, j, g + 1, t))
  }

  /** The trace of EncodeFrom. */
  ghost function TraceFrom(q: Frames, f: nat, d: nat): Trace
    requires AllReach(q, f, d)
    decreases |q| - f
  {
    if f >= |q| then Finished
    else
      var e := RepeatEnd(q, f, d);
      RepeatReach(q, f, d);
      YieldRun(q[f], d, e, YieldRepeat(q, d, e, f + 1, YieldRun(q[f], e, |q[f]|, TraceFrom(q, f + 1, e))))
  }

  // ----- one extension -----

  lemma {:induction false} LengthRead(data: seq<byte>, pos: nat, end: nat, n: nat)
    requires At(data, pos, LengthBytes(n)) && pos + |LengthBytes(n)| <= end <= |data|
    ensures Lacing(data, pos, end) == Extent(|LengthBytes(n)|, |LengthBytes(n)| + n)
    decreases n
  {
    if n >= 255 {
      AtSplit(data, pos, [255], LengthBytes(n - 255));
      LengthRead(data, pos + 1, end, n - 255);
    }
    assert data[pos] == LengthBytes(n)[0];
  }

  /** A payload reads back from its id byte; one without a length must end at the trailing reserve. */
  lemma PayloadRead(data: seq<byte>, pos: nat, end: nat, trailing: nat, e: Extension, last: bool)
    requires Writable(e) && At(data, pos, PayloadBytes(e, last))
    requires pos + |PayloadBytes(e, last)| <= end <= |data|
    requires last && IsLongExt(e) ==> end == pos + |PayloadBytes(e, last)| + trailing
    ensures PayloadExtent(data, pos, end, trailing, IdByte(e, last))
         == Extent(|LengthField(e, last)|, |PayloadBytes(e, last)|)
    ensures data[pos + |LengthField(e, last)|..pos + |PayloadBytes(e, last)|] == e.data
  {
    AtSplit(data, pos, LengthField(e, last), e.data);
    AtSlice(data, pos + |LengthField(e, last)|, e.data);
    if IsLongExt(e) && !last {
      LengthRead(data, pos, end, e.len);
    }
  }

  /** A reader of data[..end], in a frame. */
  datatype Reader = Reader(data: seq<byte>, end: nat, frame: nat, c: Config) {
    ghost function From(pos: nat, src: seq<byte>): Trace
      requires pos <= end <= |data|
    {
      Decode(data, pos, end, frame, src, c)
    }

    ghost predicate Holds(pos: nat, w: seq<byte>) {
      pos + |w| <= end <= |data| && At(data, pos, w)
    }
  }

  /** The reader at a whole extension. */
  lemma ExtensionRead(r: Reader, pos: nat, src: seq<byte>, e: Extension, last: bool)
    requires Writable(e) && e.frame == r.frame < r.c.frameMax && r.Holds(pos, ExtensionBytes(e, last))
    requires last && IsLongExt(e) ==> r.end == pos + |ExtensionBytes(e, last)|
    ensures r.From(pos, src) == Yields(e, r.From(pos + |ExtensionBytes(e, last)|, src + [IdByte(e, last)]))
  {
    var b := IdByte(e, last);
    AtSplit(r.data, pos, [b], PayloadBytes(e, last));
    assert r.data[pos] == [b][0];
    PayloadRead(r.data, pos + 1, r.end, 0, e, last);
    assert e == Extension(b / 2, r.frame, e.data, |e.data|);
  }

  // ----- the extensions of a frame -----

  /** The id bytes of es[i..j]. */
  ghost function IdRun(es: seq<Extension>, i: nat, j: nat): seq<byte>
    requires AllWritable(es) && j <= |es|
    decreases j - i
  {
    if i >= j then [] else [IdByte(es[i], false)] + IdRun(es, i + 1, j)
  }

  lemma GlueBytes(a: seq<byte>, b: seq<byte>, c: seq<byte>)
    ensures a + (b + c) == (a + b) + c
  {}

  lemma IdRunStep(src: seq<byte>, es: seq<Extension>, i: nat, j: nat)
    requires AllWritable(es) && i <= j <= |es|
    ensures i == j ==> src + IdRun(es, i, j) == src
    ensures i < j ==> src + IdRun(es, i, j) == src + [IdByte(es[i], false)] + IdRun(es, i + 1, j)
  {
    if i < j {
      GlueBytes(src, [IdByte(es[i], false)], IdRun(es, i + 1, j));
    }
  }

  /** The first extension of a run, and the rest of it. */
  lemma RunSplit(r: Reader, pos: nat, es: seq<Extension>, i: nat, j: nat, last: bool)
    requires AllWritable(es) && InFrame(es, r.frame) && i < j <= |es| && r.Holds(pos, RunBytes(es, i, j, last))
    ensures Writable(es[i]) && es[i].frame == r.frame
    ensures r.Holds(pos, ExtensionBytes(es[i], last && i + 1 == j))
    ensures r.Holds(pos + |ExtensionBytes(es[i], last && i + 1 == j)|, RunBytes(es, i + 1, j, last))
    ensures |RunBytes(es, i, j, last)| == |ExtensionBytes(es[i], last && i + 1 == j)| + |RunBytes(es, i + 1, j, last)|
    ensures i + 1 == j ==> |RunBytes(es, i + 1, j, last)| == 0
  {
    AtSplit(r.data, pos, ExtensionBytes(es[i], last && i + 1 == j), RunBytes(es, i + 1, j, last));
  }

  lemma RunEmpty(es: seq<Extension>, i: nat, last: bool)
    requires AllWritable(es) && i <= |es|
    ensures RunBytes(es, i, i, last) == []
  {}

  lemma ReadEnd(r: Reader, src: seq<byte>, pos: nat, w: seq<byte>)
    requires r.Holds(pos, w)
    ensures r.From(r.end, src) == Finished
  {}

  lemma {:induction false} RunRead(r: Reader, pos: nat, src: seq<byte>, es: seq<Extension>, i: nat, j: nat)
    requires AllWritable(es) && InFrame(es, r.frame) && i <= j <= |es| && r.frame < r.c.frameMax
    requires r.Holds(pos, RunBytes(es, i, j, false))
    ensures r.From(pos, src)
         == YieldRun(es, i, j, r.From(pos + |RunBytes(es, i, j, false)|, src + IdRun(es, i, j)))
    decreases j - i
  {
    hide Decode, Replay, Lacing, PayloadExtent, ExtensionExtent, IsLong, IsGreedy, LengthBytes, At, HasLong,
         TrailingFlags, Reader.From, Reader.Holds, ExtensionBytes, RunBytes, IdRun, Writable, AllWritable, InFrame,
         IdByte;
    if i == j {
      RunEmpty(es, i, false);
      IdRunStep(src, es, i, j);
    } else {
      RunSplit(r, pos, es, i, j, false);
      var n := pos + |ExtensionBytes(es[i], false)|;
      ExtensionRead(r, pos, src, es[i], false);
      RunRead(r, n, src + [IdByte(es[i], false)], es, i + 1, j);
      IdRunStep(src, es, i, j);
    }
  }

  /** The final run of the data: its last extension may go without a length. */
  lemma {:induction false} LastRunRead(r: Reader, pos: nat, src: seq<byte>, es: seq<Extension>, i: nat, j: nat)
    requires AllWritable(es) && InFrame(es, r.frame) && i <= j <= |es| && r.frame < r.c.frameMax
    requires r.Holds(pos, RunBytes(es, i, j, true)) && pos + |RunBytes(es, i, j, true)| == r.end
    ensures r.From(pos, src) == YieldRun(es, i, j, Finished)
    decreases j - i
  {
    hide Decode, Replay, Lacing, PayloadExtent, ExtensionExtent, IsLong, IsGreedy, LengthBytes, At, HasLong,
         TrailingFlags, Reader.From, Reader.Holds, ExtensionBytes, RunBytes, IdRun, Writable, AllWritable, InFrame,
         IdByte;
    if i == j {
      RunEmpty(es, i, true);
      ReadEnd(r, src, pos, []);
    } else {
      var last := i + 1 == j;
      RunSplit(r, pos, es, i, j, true);
      var n := pos + |ExtensionBytes(es[i], last)|;
      ExtensionRead(r, pos, src, es[i], last);
      LastRunRead(r, n, src + [IdByte(es[i], last)], es, i + 1, j);
    }
  }

  // ----- repeats -----

  /** `src` is some padding and then the id bytes of es[d..e]. */
  ghost predicate SourceIs(src: seq<byte>, base: nat, es: seq<Extension>, d: nat, e: nat) {
    && AllWritable(es) && d <= e <= |es| && |src| == base + (e - d)
    && (forall k :: 0 <= k < base ==> src[k] <= 3)
    && (forall k :: base <= k < |src| ==> src[k] == IdByte(es[d + (k - base)], false))
  }

  /** The extensions i..e of `es` and `other` have the same id bytes. */
  ghost predicate SameIds(es: seq<Extension>, other: seq<Extension>, i: nat, e: nat) {
    e <= |es| && e <= |other| && forall k :: i <= k < e ==> Compatible(es[k], other[k])
  }

  lemma {:induction false} SameLongs(src: seq<byte>, base: nat, es: seq<Extension>, other: seq<Extension>, d: nat,
                                     e: nat, i: nat)
    requires SourceIs(src, base, es, d, e) && SameIds(es, other, d, e) && d <= i <= e
    ensures HasLong(src, base + (i - d)) == HasLongExt(other, i, e)
    decreases e - i
  {
    if i < e {
      var k := base + (i - d);
      assert src[k] == IdByte(es[i], false) && Writable(es[i]) && Compatible(es[i], other[i]);
      SameLongs(src, base, es, other, d, e, i + 1);
    }
  }

  /** A short extension has as many payload bytes as its id byte says. */
  lemma FlagSize(e: Extension, other: Extension, last: bool)
    requires Writable(e) && Writable(other) && Compatible(e, other) && !IsLongExt(other)
    ensures |PayloadBytes(other, last)| == ShortFlag(IdByte(e, false)) && !IsLong(IdByte(e, false))
  {}

  /** Behind the last long extension, a replayed frame has as many bytes as the source has flags. */
  lemma {:induction false} TrailingBytes(src: seq<byte>, base: nat, es: seq<Extension>, other: seq<Extension>, d: nat,
                                         e: nat, i: nat, drop: bool)
    requires SourceIs(src, base, es, d, e) && SameIds(es, other, d, e) && d <= i <= e && AllWritable(other)
    requires !HasLongExt(other, i, e)
    ensures TrailingFlags(src, |src|) == TrailingFlags(src, base + (i - d)) + |PayloadRun(other, i, e, drop)|
    decreases e - i
  {
    hide IdByte, PayloadBytes, Writable, Compatible, ShortFlag, IsLong;
    if i < e {
      var k := base + (i - d);
      assert src[k] == IdByte(es[i], false) && Writable(es[i]) && Writable(other[i]) && Compatible(es[i], other[i]);
      FlagSize(es[i], other[i], false);
      assert TrailingFlags(src, k + 1) == TrailingFlags(src, k) + ShortFlag(src[k]);
      TrailingBytes(src, base, es, other, d, e, i + 1, drop);
    }
  }

  /** Where the reader stands in a repeat. */
  datatype Stand = Stand(data: seq<byte>, end: nat, frame: nat, src: seq<byte>, base: nat, l: byte, c: Config) {
    ghost function From(pos: nat, k: nat, g: nat, resumed: bool): Trace
      requires pos <= end <= |data| && k <= |src|
    {
      Replay(data, pos, end, frame, src, k, l, g, resumed, c)
    }

    /** Replaying the last frame, where the last long extension may have lost its length. */
    predicate Dropping(g: nat) {
      l == 0 && g + 1 == c.nbFrames
    }

    ghost predicate Ok() {
      end <= |data| && base <= |src| && c.frameMax == c.nbFrames
      && forall k :: 0 <= k < base ==> src[k] <= 3
    }
  }

  lemma {:induction false} SkipPadding(s: Stand, pos: nat, k: nat, g: nat, resumed: bool)
    requires s.Ok() && pos <= s.end && k <= s.base && g < s.c.nbFrames
    ensures s.From(pos, k, g, resumed) == s.From(pos, s.base, g, resumed)
    decreases s.base - k
  {
    if k < s.base {
      SkipPadding(s, pos, k + 1, g, resumed);
    }
  }

  lemma IdOfByte(e: Extension, last: bool)
    requires Writable(e)
    ensures IdByte(e, last) / 2 == e.id && IdByte(e, last) > 3 && e.len == |e.data|
  {}

  lemma IdWithoutLength(s: Stand, k: nat, g: nat, e: Extension, more: bool)
    requires k < |s.src| && Writable(e) && s.src[k] == IdByte(e, false) && more == HasLong(s.src, k + 1)
    requires g < s.c.nbFrames
    ensures ReplayedId(s.src, k, s.l, g, s.c.nbFrames) == IdByte(e, s.Dropping(g) && IsLongExt(e) && !more)
    ensures s.src[k] > 3
  {}

  lemma ReplayUnfold(s: Stand, pos: nat, k: nat, g: nat, resumed: bool, id: byte)
    requires s.Ok() && pos <= s.end && k < |s.src| && g < s.c.nbFrames && s.src[k] > 3
    requires id == ReplayedId(s.src, k, s.l, g, s.c.nbFrames)
    ensures s.From(pos, k, g, resumed) ==
            match PayloadExtent(s.data, pos, s.end, TrailingFlags(s.src, |s.src|), id)
            case Malformed => Failed
            case Extent(header, total) =>
              Yields(Extension(id / 2, g, s.data[pos + header..pos + total], total - header),
                     s.From(pos + total, k + 1, g, true))
  {}

  /** One replayed extension. */
  lemma ReplayOne(s: Stand, pos: nat, k: nat, g: nat, resumed: bool, e: Extension, more: bool)
    requires s.Ok() && s.base <= k < |s.src| && g < s.c.nbFrames
    requires Writable(e) && e.frame == g && s.src[k] == IdByte(e, false)
    requires more == HasLong(s.src, k + 1)
    requires At(s.data, pos, PayloadBytes(e, s.Dropping(g) && IsLongExt(e) && !more))
    requires pos + |PayloadBytes(e, s.Dropping(g) && IsLongExt(e) && !more)| <= s.end
    requires s.Dropping(g) && IsLongExt(e) && !more ==>
               s.end == pos + |PayloadBytes(e, true)| + TrailingFlags(s.src, |s.src|)
    ensures s.From(pos, k, g, resumed)
         == Yields(e, s.From(pos + |PayloadBytes(e, s.Dropping(g) && IsLongExt(e) && !more)|, k + 1, g, true))
  {
    hide Decode, Replay, Lacing, PayloadExtent, ExtensionExtent, IsLong, IsGreedy, LengthBytes, At, HasLong,
         TrailingFlags, Stand.From, PayloadBytes, IdByte, LengthField, ReplayedId, Writable;
    var last := s.Dropping(g) && IsLongExt(e) && !more;
    IdWithoutLength(s, k, g, e, more);
    ReplayUnfold(s, pos, k, g, resumed, IdByte(e, last));
    PayloadRead(s.data, pos, s.end, TrailingFlags(s.src, |s.src|), e, last);
    IdOfByte(e, last);
    assert e == Extension(IdByte(e, last) / 2, g, e.data, |e.data|);
  }

  /** The first payload of a run, and the rest of it. */
  lemma PayloadSplit(data: seq<byte>, pos: nat, es: seq<Extension>, i: nat, e: nat, drop: bool)
    requires AllWritable(es) && i < e <= |es| && At(data, pos, PayloadRun(es, i, e, drop))
    ensures var last := drop && IsLongExt(es[i]) && !HasLongExt(es, i + 1, e);
            && Writable(es[i])
            && At(data, pos, PayloadBytes(es[i], last))
            && At(data, pos + |PayloadBytes(es[i], last)|, PayloadRun(es, i + 1, e, drop))
            && |PayloadRun(es, i, e, drop)| == |PayloadBytes(es[i], last)| + |PayloadRun(es, i + 1, e, drop)|
  {
    AtSplit(data, pos, PayloadBytes(es[i], drop && IsLongExt(es[i]) && !HasLongExt(es, i + 1, e)),
            PayloadRun(es, i + 1, e, drop));
  }

  /** What a repeat of es[d..e] in frame `g` looks like, where `other` has the extensions of `g`. */
  ghost predicate RunOk(s: Stand, es: seq<Extension>, other: seq<Extension>, d: nat, e: nat, g: nat) {
    && s.Ok() && g < s.c.nbFrames && SourceIs(s.src, s.base, es, d, e) && SameIds(es, other, d, e)
    && AllWritable(other) && InFrame(other, g)
  }

  lemma SourceAt(src: seq<byte>, base: nat, es: seq<Extension>, other: seq<Extension>, d: nat, e: nat, i: nat, g: nat)
    requires SourceIs(src, base, es, d, e) && SameIds(es, other, d, e) && d <= i < e
    requires AllWritable(other) && InFrame(other, g)
    ensures e <= |other| && base <= base + (i - d) < |src| && |src| == base + (e - d) && Writable(other[i])
    ensures other[i].frame == g
    ensures src[base + (i - d)] == IdByte(other[i], false)
  {
    var k := base + (i - d);
    assert src[k] == IdByte(es[d + (k - base)], false) && Compatible(es[i], other[i]);
  }

  lemma LongAtFront(es: seq<Extension>, i: nat, e: nat)
    requires i < e <= |es|
    ensures HasLongExt(es, i, e) == (IsLongExt(es[i]) || HasLongExt(es, i + 1, e))
  {}

  lemma TrailingAtLong(src: seq<byte>, base: nat, es: seq<Extension>, other: seq<Extension>, d: nat, e: nat, i: nat,
                       drop: bool)
    requires SourceIs(src, base, es, d, e) && SameIds(es, other, d, e) && d <= i < e && AllWritable(other)
    requires IsLongExt(other[i]) && !HasLongExt(other, i + 1, e)
    ensures TrailingFlags(src, |src|) == |PayloadRun(other, i + 1, e, drop)|
  {
    var k := base + (i - d);
    assert src[k] == IdByte(es[d + (k - base)], false) && Compatible(es[i], other[i]) && Writable(es[i]);
    TrailingBytes(src, base, es, other, d, e, i + 1, drop);
    assert TrailingFlags(src, k + 1) == 0;
  }

  /** Replaying extension `i` of frame `g`. */
  lemma ReplayStep(s: Stand, pos: nat, es: seq<Extension>, other: seq<Extension>, d: nat, e: nat, g: nat, i: nat,
                   resumed: bool)
    requires RunOk(s, es, other, d, e, g) && d <= i < e
    requires At(s.data, pos, PayloadRun(other, i, e, s.Dropping(g)))
    requires pos + |PayloadRun(other, i, e, s.Dropping(g))| <= s.end
    requires s.Dropping(g) && HasLongExt(other, i, e) ==> s.end == pos + |PayloadRun(other, i, e, s.Dropping(g))|
    ensures var n := pos + |PayloadRun(other, i, e, s.Dropping(g))| - |PayloadRun(other, i + 1, e, s.Dropping(g))|;
            && pos <= n && At(s.data, n, PayloadRun(other, i + 1, e, s.Dropping(g)))
            && n + |PayloadRun(other, i + 1, e, s.Dropping(g))| <= s.end
            && s.From(pos, s.base + (i - d), g, resumed) == Yields(other[i], s.From(n, s.base + (i + 1 - d), g, true))
  {
    hide Decode, Replay, Lacing, PayloadExtent, ExtensionExtent, IsLong, IsGreedy, LengthBytes, At, HasLong,
         TrailingFlags, PayloadRun, Stand.From, SourceIs, SameIds, AllWritable, InFrame, HasLongExt, Stand.Ok,
         PayloadBytes, IdByte;
    var k := s.base + (i - d);
    SourceAt(s.src, s.base, es, other, d, e, i, g);
    PayloadSplit(s.data, pos, other, i, e, s.Dropping(g));
    SameLongs(s.src, s.base, es, other, d, e, i + 1);
    LongAtFront(other, i, e);
    if IsLongExt(other[i]) && !HasLongExt(other, i + 1, e) {
      TrailingAtLong(s.src, s.base, es, other, d, e, i, s.Dropping(g));
    }
    ReplayOne(s, pos, k, g, resumed, other[i], HasLongExt(other, i + 1, e));
  }

  lemma PayloadEmpty(es: seq<Extension>, i: nat, drop: bool)
    requires AllWritable(es) && i <= |es|
    ensures PayloadRun(es, i, i, drop) == []
  {}

  lemma RunFacts(s: Stand, es: seq<Extension>, other: seq<Extension>, d: nat, e: nat, g: nat)
    requires RunOk(s, es, other, d, e, g)
    ensures d <= e <= |other| && |s.src| == s.base + (e - d) && s.end <= |s.data| && AllWritable(other)
  {}

  lemma {:induction false} ReplayRun(s: Stand, pos: nat, es: seq<Extension>, other: seq<Extension>, d: nat, e: nat,
                                     g: nat, i: nat, resumed: bool)
    requires RunOk(s, es, other, d, e, g) && d <= i <= e
    requires At(s.data, pos, PayloadRun(other, i, e, s.Dropping(g)))
    requires pos + |PayloadRun(other, i, e, s.Dropping(g))| <= s.end
    requires s.Dropping(g) && HasLongExt(other, i, e) ==> s.end == pos + |PayloadRun(other, i, e, s.Dropping(g))|
    ensures s.From(pos, s.base + (i - d), g, resumed)
         == YieldRun(other, i, e, s.From(pos + |PayloadRun(other, i, e, s.Dropping(g))|, |s.src|, g, resumed || i < e))
    decreases e - i
  {
    hide Decode, Replay, Lacing, PayloadExtent, ExtensionExtent, IsLong, IsGreedy, LengthBytes, At, HasLong,
         TrailingFlags, PayloadRun, Stand.From, Stand.Dropping, SourceIs, SameIds, AllWritable, InFrame, HasLongExt,
         Stand.Ok, PayloadBytes;
    RunFacts(s, es, other, d, e, g);
    if i == e {
      PayloadEmpty(other, i, s.Dropping(g));
    } else {
      LongAtFront(other, i, e);
      var n := pos + |PayloadRun(other, i, e, s.Dropping(g))| - |PayloadRun(other, i + 1, e, s.Dropping(g))|;
      ReplayStep(s, pos, es, other, d, e, g, i, resumed);
      ReplayRun(s, n, es, other, d, e, g, i + 1, true);
    }
  }

  lemma ReplayNextFrame(s: Stand, pos: nat, g: nat, resumed: bool)
    requires s.Ok() && pos <= s.end && g < s.c.nbFrames
    ensures s.From(pos, |s.src|, g, resumed) == s.From(pos, 0, g + 1, resumed)
  {}

  /** The payloads of frame `g`, and those of the later frames. */
  lemma RepeatSplit(data: seq<byte>, pos: nat, q: Frames, d: nat, e: nat, g: nat, last: bool)
    requires WritableFrames(q) && AllReach(q, g, e) && g < |q| && At(data, pos, RepeatBytes(q, d, e, g, last))
    ensures e <= |q[g]| && AllWritable(q[g]) && InFrame(q[g], g)
    ensures At(data, pos, PayloadRun(q[g], d, e, last && g + 1 == |q|))
    ensures At(data, pos + |PayloadRun(q[g], d, e, last && g + 1 == |q|)|, RepeatBytes(q, d, e, g + 1, last))
    ensures |RepeatBytes(q, d, e, g, last)|
         == |PayloadRun(q[g], d, e, last && g + 1 == |q|)| + |RepeatBytes(q, d, e, g + 1, last)|
    ensures g + 1 == |q| ==> |RepeatBytes(q, d, e, g + 1, last)| == 0
  {
    AtSplit(data, pos, PayloadRun(q[g], d, e, last && g + 1 == |q|), RepeatBytes(q, d, e, g + 1, last));
  }

  /** The reader in a repeat of the extensions `d..e` of frame `f`, served for the frames from `g` on. */
  ghost predicate RepeatOk(s: Stand, q: Frames, f: nat, d: nat, e: nat, last: bool) {
    && s.Ok() && s.c.nbFrames == |q| && s.frame == f < |q| && WritableFrames(q) && d < e && AllReach(q, f, e)
    && (forall g :: f < g < |q| ==> SameIds(q[f], q[g], d, e))
    && SourceIs(s.src, s.base, q[f], d, e) && (s.l == 0 <==> last)
  }

  lemma RepeatOkFrame(s: Stand, q: Frames, f: nat, d: nat, e: nat, last: bool, g: nat)
    requires RepeatOk(s, q, f, d, e, last) && f < g <= |q|
    ensures s.Ok() && s.end <= |s.data| && WritableFrames(q) && AllReach(q, g, e) && s.c.nbFrames == |q| && d < e
    ensures g < |q| ==> RunOk(s, q[f], q[g], d, e, g) && (s.Dropping(g) <==> last && g + 1 == |q|)
  {}

  lemma {:induction false} RepeatRead(s: Stand, pos: nat, q: Frames, f: nat, d: nat, e: nat, last: bool, g: nat,
                                      resumed: bool)
    requires RepeatOk(s, q, f, d, e, last) && f < g <= |q|
    requires AllReach(q, g, e) && WritableFrames(q)
    requires At(s.data, pos, RepeatBytes(q, d, e, g, last)) && pos + |RepeatBytes(q, d, e, g, last)| <= s.end
    requires last && HasLongExt(q[f], d, e) ==> s.end == pos + |RepeatBytes(q, d, e, g, last)|
    ensures s.end <= |s.data|
    ensures s.From(pos, 0, g, resumed)
         == YieldRepeat(q, d, e, g, s.From(pos + |RepeatBytes(q, d, e, g, last)|, 0, |q|, resumed || g < |q|))
    decreases |q| - g
  {
    hide Decode, Replay, Lacing, PayloadExtent, ExtensionExtent, IsLong, IsGreedy, LengthBytes, At, HasLong,
         TrailingFlags, Stand.From, Stand.Dropping, Stand.Ok, PayloadBytes, IdByte, RunOk, RepeatOk, RepeatBytes,
         PayloadRun, SameIds, SourceIs, HasLongExt, WritableFrames, AllWritable, InFrame, YieldRun;
    RepeatOkFrame(s, q, f, d, e, last, g);
    if g == |q| {
      RepeatNone(q, d, e, last);
    } else {
      var n := pos + |PayloadRun(q[g], d, e, last && g + 1 == |q|)|;
      RepeatSplit(s.data, pos, q, d, e, g, last);
      SameLongExts(q[f], q[g], d, e, s, g);
      SkipPadding(s, pos, 0, g, resumed);
      ReplayRun(s, pos, q[f], q[g], d, e, g, d, resumed);
      ReplayNextFrame(s, n, g, true);
      RepeatRead(s, n, q, f, d, e, last, g + 1, true);
    }
  }

  lemma RepeatNone(q: Frames, d: nat, e: nat, last: bool)
    requires WritableFrames(q)
    ensures RepeatBytes(q, d, e, |q|, last) == []
  {}

  lemma SameLongExts(es: seq<Extension>, other: seq<Extension>, d: nat, e: nat, s: Stand, g: nat)
    requires RunOk(s, es, other, d, e, g)
    ensures HasLongExt(es, d, e) == HasLongExt(other, d, e)
  {
    SameLongsBetween(es, other, d, e);
  }

  lemma {:induction false} SameLongsBetween(es: seq<Extension>, other: seq<Extension>, i: nat, e: nat)
    requires SameIds(es, other, i, e)
    ensures HasLongExt(es, i, e) == HasLongExt(other, i, e)
    decreases e - i
  {
    if i < e {
      SameLongsBetween(es, other, i + 1, e);
    }
  }
}
