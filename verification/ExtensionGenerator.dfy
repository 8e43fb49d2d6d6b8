/** The generator of extension padding: index arrays over the unordered input, one pass per frame. */
module ExtensionGenerator {
  import opened Wrappers
  import opened ExtensionSyntax
  import opened ExtensionEncoding
  import opened ExtensionFrames
  import opened ExtensionWriter
  import opened ExtensionRepeats

  // ----- counting what is left -----

  /** Extensions of the frames from `f` on, without the first `d` of every one. */
  ghost function Left(q: Frames, f: nat, d: nat): nat
    requires AllReach(q, f, d)
    decreases |q| - f
  {
    if f >= |q| then 0 else |q[f]| - d + Left(q, f + 1, d)
  }

  lemma {:induction false} LeftZero(q: Frames, f: nat, d: nat)
    requires AllReach(q, f, d)
    ensures Left(q, f, d) == 0 <==> AllEnd(q, f, d)
    decreases |q| - f
  {
    if f < |q| {
      LeftZero(q, f + 1, d);
    }
  }

  lemma {:induction false} LeftDrop(q: Frames, f: nat, d: nat, e: nat)
    requires d <= e && AllReach(q, f, e) && f <= |q|
    ensures AllReach(q, f, d) && Left(q, f, d) == Left(q, f, e) + (e - d) * (|q| - f)
    decreases |q| - f
  {
    if f < |q| {
      LeftDrop(q, f + 1, d, e);
      assert (e - d) * (|q| - f) == (e - d) * (|q| - (f + 1)) + (e - d);
    }
  }

  /** Ranks of the frames from `g` on, added up. */
  function RankSum(exts: seq<Extension>, g: nat, nbFrames: nat, i: nat): nat
    requires i <= |exts|
    decreases nbFrames - g
  {
    if g >= nbFrames then 0 else Rank(exts, g, i) + RankSum(exts, g + 1, nbFrames, i)
  }

  lemma {:induction false} RankSumStep(exts: seq<Extension>, g: nat, nbFrames: nat, i: nat)
    requires i < |exts| && 0 <= exts[i].frame < nbFrames
    ensures RankSum(exts, g, nbFrames, i + 1) == RankSum(exts, g, nbFrames, i) + if g <= exts[i].frame then 1 else 0
    decreases nbFrames - g
  {
    if g < nbFrames {
      RankSumStep(exts, g + 1, nbFrames, i);
    }
  }

  lemma {:induction false} RankSumZero(exts: seq<Extension>, g: nat, nbFrames: nat)
    ensures RankSum(exts, g, nbFrames, 0) == 0
    decreases nbFrames - g
  {
    if g < nbFrames {
      RankSumZero(exts, g + 1, nbFrames);
    }
  }

  lemma {:induction false} RankSumIs(exts: seq<Extension>, nbFrames: nat, i: nat)
    requires AllValid(exts, nbFrames) && i <= |exts|
    ensures RankSum(exts, 0, nbFrames, i) == i
  {
    if i == 0 {
      RankSumZero(exts, 0, nbFrames);
    } else {
      assert ValidExtension(exts[i - 1], nbFrames);
      RankSumIs(exts, nbFrames, i - 1);
      RankSumStep(exts, 0, nbFrames, i - 1);
    }
  }

  lemma {:induction false} LeftIsRankSum(exts: seq<Extension>, nbFrames: nat, g: nat)
    requires AllValid(exts, nbFrames)
    ensures AllReach(FramesOf(exts, nbFrames), g, 0)
    ensures Left(FramesOf(exts, nbFrames), g, 0) == RankSum(exts, g, nbFrames, |exts|)
    decreases nbFrames - g
  {
    if g < nbFrames {
      LeftIsRankSum(exts, nbFrames, g + 1);
      SelectIs(exts, nbFrames, g, |exts|);
    }
  }

  /** Every input extension belongs to exactly one frame. */
  lemma LeftAll(exts: seq<Extension>, nbFrames: nat)
    requires AllValid(exts, nbFrames)
    ensures AllReach(FramesOf(exts, nbFrames), 0, 0) && Left(FramesOf(exts, nbFrames), 0, 0) == |exts|
  {
    LeftIsRankSum(exts, nbFrames, 0);
    RankSumIs(exts, nbFrames, |exts|);
  }

  // ----- repeats -----

  /** The test by which the generator recognizes the extension that loses its length. */
  lemma DropTest(exts: seq<Extension>, nbFrames: nat, f: nat, d: nat, e: nat, lastLong: Index, m: nat, g: nat, j: nat)
    requires AllValid(exts, nbFrames) && f < g < nbFrames
    requires d <= |FramesOf(exts, nbFrames)[f]| && e == RepeatEnd(FramesOf(exts, nbFrames), f, d)
    requires LastLongIs(exts, FramesOf(exts, nbFrames), f, d, e, lastLong, m)
    requires j < |exts| && exts[j].frame == g && d <= Rank(exts, g, j) < e <= |FramesOf(exts, nbFrames)[g]|
    ensures var k := Rank(exts, g, j);
            var es := FramesOf(exts, nbFrames)[g];
            lastLong == Index(j) <==> g + 1 == nbFrames && IsLongExt(es[k]) && !HasLongExt(es, k + 1, e)
  {
    var q := FramesOf(exts, nbFrames);
    var k := Rank(exts, g, j);
    RepeatEndIs(q, f, d);
    forall x | d <= x < e
      ensures x < |q[g]| && IsLongExt(q[f][x]) == IsLongExt(q[g][x])
    {
      assert Repeatable(q, f, x);
    }
    SameLongTail(q[f], q[g], k + 1, e);
    if g + 1 == nbFrames {
      if IsLongExt(q[g][k]) && !HasLongExt(q[g], k + 1, e) {
        LongIn(q[f], d, k, e);
        if m < k {
          LongIn(q[f], m + 1, k, e);
        } else if k < m {
          LongIn(q[f], k + 1, m, e);
        }
        SameRank(exts, g, j, lastLong.i);
      }
    }
  }

  lemma {:induction false} SameLongTail(a: seq<Extension>, b: seq<Extension>, i: nat, e: nat)
    requires e <= |a| && e <= |b| && forall x :: i <= x < e ==> IsLongExt(a[x]) == IsLongExt(b[x])
    ensures HasLongExt(a, i, e) == HasLongExt(b, i, e)
    decreases e - i
  {
    if i < e {
      SameLongTail(a, b, i + 1, e);
    }
  }

  lemma {:induction false} LongIn(es: seq<Extension>, i: nat, k: nat, e: nat)
    requires i <= k < e <= |es| && IsLongExt(es[k])
    ensures HasLongExt(es, i, e)
    decreases k - i
  {
    if i < k {
      LongIn(es, i + 1, k, e);
    }
  }

  lemma PayloadStep(es: seq<Extension>, k: nat, e: nat, drop: bool, out: seq<byte>)
    requires AllWritable(es) && k < e <= |es|
    ensures var w := PayloadBytes(es[k], drop && IsLongExt(es[k]) && !HasLongExt(es, k + 1, e));
            && Writable(es[k]) && out + PayloadRun(es, k, e, drop) == out + w + PayloadRun(es, k + 1, e, drop)
            && |PayloadRun(es, k, e, drop)| == |w| + |PayloadRun(es, k + 1, e, drop)|
  {
    GlueOut(out, PayloadBytes(es[k], drop && IsLongExt(es[k]) && !HasLongExt(es, k + 1, e)),
            PayloadRun(es, k + 1, e, drop));
  }

  lemma PayloadDone(es: seq<Extension>, e: nat, drop: bool, out: seq<byte>)
    requires AllWritable(es) && e <= |es|
    ensures out + PayloadRun(es, e, e, drop) == out
  {}

  lemma FrameIsWritable(exts: seq<Extension>, nbFrames: nat, g: nat)
    requires AllValid(exts, nbFrames) && g < nbFrames
    ensures AllWritable(FramesOf(exts, nbFrames)[g]) && |FramesOf(exts, nbFrames)[g]| == Rank(exts, g, |exts|)
  {
    SelectIs(exts, nbFrames, g, |exts|);
  }

  lemma ExtensionAt(exts: seq<Extension>, nbFrames: nat, g: nat, j: nat)
    requires AllValid(exts, nbFrames) && g < nbFrames && j < |exts|
    ensures Rank(exts, g, j + 1) == Rank(exts, g, j) + if exts[j].frame == g then 1 else 0
    ensures 0 <= exts[j].len <= |exts[j].data| && Writable(Cut(exts[j]))
    ensures exts[j].frame == g ==> Rank(exts, g, j) < |FramesOf(exts, nbFrames)[g]|
                                   && FramesOf(exts, nbFrames)[g][Rank(exts, g, j)] == Cut(exts[j])
  {
    assert ValidExtension(exts[j], nbFrames);
    if exts[j].frame == g {
      SelectAt(exts, nbFrames, g, j, |exts|);
    }
  }

  /** Writes the payloads `d..e` of frame `g`, which lie between the input indices `lo` and `hi`. */
  method WriteFrameRepeats(data: array?<byte>, len: nat, pos: nat, exts: seq<Extension>, nbFrames: nat, f: nat, g: nat,
                           lo: nat, hi: nat, last: bool, lastLongIdx: Index, written: nat,
                           ghost d: nat, ghost e: nat, ghost m: nat, ghost out: seq<byte>, ghost before: seq<byte>)
    returns (r: Result<nat, ExtensionError>, written': nat)
    requires AllValid(exts, nbFrames) && f < g < nbFrames
    requires d <= |FramesOf(exts, nbFrames)[f]| && e == RepeatEnd(FramesOf(exts, nbFrames), f, d)
    requires LastLongIs(exts, FramesOf(exts, nbFrames), f, d, e, lastLongIdx, m)
    requires lo <= hi <= |exts| && Rank(exts, g, lo) == d && Rank(exts, g, hi) == e
    requires AllWritable(FramesOf(exts, nbFrames)[g]) && e <= |FramesOf(exts, nbFrames)[g]|
    requires Holds(data, out, before) && pos == |out| <= len && (data != null ==> len <= data.Length)
    modifies data
    ensures var w := PayloadRun(FramesOf(exts, nbFrames)[g], d, e, last && g + 1 == nbFrames);
            && r == (if pos + |w| <= len then Ok(pos + |w|) else Err(BufferTooSmall))
            && (r.Ok? ==> Holds(data, out + w, before) && written' == written + (e - d))
            && (r.Err? ==> TailKept(data, len, before))
  {
    hide AllValid, FramesOf, Rank, RepeatEnd, LastLongIs, AllWritable, Writable, PayloadRun, PayloadBytes, Holds,
         TailKept, HasLongExt, Cut;
    ghost var es := FramesOf(exts, nbFrames)[g];
    ghost var drop := last && g + 1 == nbFrames;
    ghost var total := out + PayloadRun(es, d, e, drop);
    ghost var now, k := out, d;
    var p := pos;
    written' := written;
    var j := lo;
    while j < hi
      invariant lo <= j <= hi && k == Rank(exts, g, j) && d <= k <= e
      invariant Holds(data, now, before) && p == |now| <= len
      invariant now + PayloadRun(es, k, e, drop) == total
      invariant written' == written + (k - d)
    {
      ExtensionAt(exts, nbFrames, g, j);
      RankGrows(exts, g, j + 1, hi);
      if exts[j].frame == g {
        DropTest(exts, nbFrames, f, d, e, lastLongIdx, m, g, j);
        PayloadStep(es, k, e, drop, now);
        ghost var w := PayloadBytes(es[k], drop && IsLongExt(es[k]) && !HasLongExt(es, k + 1, e));
        assert |total| == |now| + |w| + |PayloadRun(es, k + 1, e, drop)|;
        var next := WriteExtensionPayload(data, len, p, exts[j], last && lastLongIdx == Index(j), now, before);
        if next.Err? {
          HoldsKeepsTail(data, now, before, len);
          return next, written';
        }
        p := next.value;
        now := now + w;
        written' := written' + 1;
        k := k + 1;
      }
      j := j + 1;
    }
    PayloadDone(es, e, drop, now);
    return Ok(p), written';
  }

  lemma RepeatStep(q: Frames, d: nat, e: nat, g: nat, last: bool, out: seq<byte>)
    requires WritableFrames(q) && AllReach(q, g, e) && g < |q|
    ensures var w := PayloadRun(q[g], d, e, last && g + 1 == |q|);
            && out + RepeatBytes(q, d, e, g, last) == out + w + RepeatBytes(q, d, e, g + 1, last)
            && |RepeatBytes(q, d, e, g, last)| == |w| + |RepeatBytes(q, d, e, g + 1, last)|
  {
    GlueOut(out, PayloadRun(q[g], d, e, last && g + 1 == |q|), RepeatBytes(q, d, e, g + 1, last));
  }

  lemma RepeatDone(q: Frames, d: nat, e: nat, last: bool, out: seq<byte>)
    requires WritableFrames(q)
    ensures out + RepeatBytes(q, d, e, |q|, last) == out
  {}

  /** The stretch of input that a repeat takes from frame `g`. */
  lemma RepeatRange(exts: seq<Extension>, nbFrames: nat, f: nat, minIdx: array<nat>, repeatIdx: array<nat>, d: nat,
                    e: nat, g: nat)
    requires AllValid(exts, nbFrames) && f < g < nbFrames <= minIdx.Length && nbFrames <= repeatIdx.Length && d < e
    requires AllPoint(exts, minIdx, g, nbFrames, d) && AllPoint(exts, repeatIdx, f + 1, nbFrames, e)
    ensures minIdx[g] <= repeatIdx[g] <= |exts| && Rank(exts, g, minIdx[g]) == d && Rank(exts, g, repeatIdx[g]) == e
    ensures e <= |FramesOf(exts, nbFrames)[g]| && AllWritable(FramesOf(exts, nbFrames)[g])
  {
    assert Points(exts, g, minIdx[g], d) && Points(exts, g, repeatIdx[g], e);
    if repeatIdx[g] < minIdx[g] {
      RankGrows(exts, g, repeatIdx[g], minIdx[g]);
    }
    RankGrows(exts, g, repeatIdx[g], |exts|);
    FrameIsWritable(exts, nbFrames, g);
  }

  /** Writes the payloads of a repeat for every later frame, and moves the first-extension pointers
      of those frames behind them. */
  method WriteRepeats(data: array?<byte>, len: nat, pos: nat, exts: seq<Extension>, nbFrames: nat, f: nat,
                      frameMinIdx: array<nat>, frameRepeatIdx: array<nat>, last: bool, lastLongIdx: Index, written: nat,
                      ghost d: nat, ghost e: nat, ghost m: nat, ghost out: seq<byte>, ghost before: seq<byte>)
    returns (r: Result<nat, ExtensionError>, written': nat)
    requires AllValid(exts, nbFrames) && f < nbFrames <= frameMinIdx.Length && nbFrames <= frameRepeatIdx.Length
    requires frameMinIdx != frameRepeatIdx
    requires data != null ==> data as object != frameMinIdx && data as object != frameRepeatIdx
    requires d < e && d <= |FramesOf(exts, nbFrames)[f]| && e == RepeatEnd(FramesOf(exts, nbFrames), f, d)
    requires LastLongIs(exts, FramesOf(exts, nbFrames), f, d, e, lastLongIdx, m)
    requires WritableFrames(FramesOf(exts, nbFrames)) && AllReach(FramesOf(exts, nbFrames), f, e)
    requires AllPoint(exts, frameMinIdx, f + 1, nbFrames, d) && AllPoint(exts, frameRepeatIdx, f + 1, nbFrames, e)
    requires Holds(data, out, before) && pos == |out| <= len && (data != null ==> len <= data.Length)
    modifies data, frameMinIdx
    ensures var w := RepeatBytes(FramesOf(exts, nbFrames), d, e, f + 1, last);
            && r == (if pos + |w| <= len then Ok(pos + |w|) else Err(BufferTooSmall))
            && (r.Ok? ==> Holds(data, out + w, before) && AllPoint(exts, frameMinIdx, f + 1, nbFrames, e)
                          && SamePointers(frameMinIdx, frameRepeatIdx, f + 1, nbFrames)
                          && written' == written + (e - d) * (nbFrames - (f + 1)))
            && (r.Err? ==> TailKept(data, len, before))
    ensures AllPoint(exts, frameRepeatIdx, f + 1, nbFrames, e) && frameMinIdx[f] == old(frameMinIdx[f])
  {
    hide FramesOf, Rank, RepeatEnd, LastLongIs, AllWritable, Writable, PayloadRun, RepeatBytes, Points, WritableFrames,
         InFrame, HasLongExt, Cut, AllValid;
    ghost var q := FramesOf(exts, nbFrames);
    ghost var total := out + RepeatBytes(q, d, e, f + 1, last);
    ghost var now := out;
    var p := pos;
    written' := written;
    var g := f + 1;
    while g < nbFrames
      invariant f < g <= nbFrames
      invariant AllPoint(exts, frameMinIdx, f + 1, g, e) && AllPoint(exts, frameMinIdx, g, nbFrames, d)
      invariant AllPoint(exts, frameRepeatIdx, f + 1, nbFrames, e) && frameMinIdx[f] == old(frameMinIdx[f])
      invariant SamePointers(frameMinIdx, frameRepeatIdx, f + 1, g)
      invariant Holds(data, now, before) && p == |now| <= len
      invariant now + RepeatBytes(q, d, e, g, last) == total
      invariant written' == written + (e - d) * (g - (f + 1))
    {
      RepeatRange(exts, nbFrames, f, frameMinIdx, frameRepeatIdx, d, e, g);
      RepeatStep(q, d, e, g, last, now);
      ghost var w := PayloadRun(q[g], d, e, last && g + 1 == nbFrames);
      assert |total| == |now| + |w| + |RepeatBytes(q, d, e, g + 1, last)|;
      var next;
      next, written' := WriteFrameRepeats(data, len, p, exts, nbFrames, f, g, frameMinIdx[g], frameRepeatIdx[g], last,
                                          lastLongIdx, written', d, e, m, now, before);
      if next.Err? {
        return next, written';
      }
      p := next.value;
      now := now + w;
      assert (e - d) * (g - (f + 1)) + (e - d) == (e - d) * (g + 1 - (f + 1));
      frameMinIdx[g] := frameRepeatIdx[g];
      g := g + 1;
    }
    RepeatDone(q, d, e, last, now);
    return Ok(p), written';
  }

  // ----- one frame -----

  /** Behind the repeat of frame `f`. */
  ghost function Tail(q: Frames, f: nat, d: nat, e: nat): seq<byte>
    requires WritableFrames(q) && |q| <= MAX_FRAMES_PER_PACKET && f < |q| && d <= e && AllReach(q, f, e)
  {
    RunBytes(q[f], e, |q[f]|, AllEnd(q, f + 1, e)) + EncodeFrom(q, f + 1, e, FrameAfter(q, f, d, e))
  }

  /** What is still to be written from extension `k` of frame `f` on, when the reader is at `curr`. */
  ghost function Rest(q: Frames, f: nat, d: nat, e: nat, k: nat, curr: nat): seq<byte>
    requires WritableFrames(q) && |q| <= MAX_FRAMES_PER_PACKET && f < |q| && d <= e && AllReach(q, f, e)
    requires k <= |q[f]| && (curr <= f || (k == |q[f]| && curr <= f + 1))
  {
    if k == |q[f]| then EncodeFrom(q, f + 1, e, curr) else SeparatorBytes(f - curr) + Body(q, f, d, e, k)
  }

  ghost function Body(q: Frames, f: nat, d: nat, e: nat, k: nat): seq<byte>
    requires WritableFrames(q) && |q| <= MAX_FRAMES_PER_PACKET && f < |q| && d <= e && AllReach(q, f, e)
    requires k < |q[f]|
  {
    if k < e then RunBytes(q[f], k, e, false) + (RepeatBlock(q, f, d, e) + Tail(q, f, d, e))
    else RunBytes(q[f], k, |q[f]|, AllEnd(q, f + 1, e)) + EncodeFrom(q, f + 1, e, f)
  }

  lemma BodyNotEmpty(q: Frames, f: nat, d: nat, e: nat, k: nat)
    requires WritableFrames(q) && |q| <= MAX_FRAMES_PER_PACKET && f < |q| && d <= e && AllReach(q, f, e)
    requires k < |q[f]|
    ensures |Body(q, f, d, e, k)| > 0
  {
    hide EncodeFrom, Tail, RepeatBlock, PayloadBytes;
  }

  lemma GlueFive(s: seq<byte>, a: seq<byte>, b: seq<byte>, z: seq<byte>, w: seq<byte>)
    ensures s + (a + (b + (z + w))) == s + a + b + z + w
  {}

  lemma RestStart(q: Frames, f: nat, d: nat, curr: nat)
    requires WritableFrames(q) && |q| <= MAX_FRAMES_PER_PACKET && f < |q| && AllReach(q, f, d) && curr <= f
    ensures AllReach(q, f, RepeatEnd(q, f, d))
    ensures Rest(q, f, d, RepeatEnd(q, f, d), d, curr) == EncodeFrom(q, f, d, curr)
  {
    hide SeparatorBytes, RepeatEnd;
    var e := RepeatEnd(q, f, d);
    RepeatReach(q, f, d);
    RepeatEndIs(q, f, d);
    GlueFive(SeparatorBytes(f - curr), RunBytes(q[f], d, e, false), RepeatBlock(q, f, d, e),
             RunBytes(q[f], e, |q[f]|, AllEnd(q, f + 1, e)), EncodeFrom(q, f + 1, e, FrameAfter(q, f, d, e)));
    if d < |q[f]| && d == e {
      assert RunBytes(q[f], d, e, false) == [] && RepeatBlock(q, f, d, e) == [];
      GlueEmpty(SeparatorBytes(f - curr), RunBytes(q[f], e, |q[f]|, AllEnd(q, f + 1, e)),
                EncodeFrom(q, f + 1, e, FrameAfter(q, f, d, e)));
    }
  }

  lemma GlueEmpty(s: seq<byte>, z: seq<byte>, w: seq<byte>)
    ensures s + [] + [] + z + w == s + (z + w)
  {}

  lemma GlueSeparator(out: seq<byte>, s: seq<byte>, body: seq<byte>)
    ensures out + (s + body) == out + s + ([] + body)
    ensures |s + body| == |s| + |[] + body| && |[] + body| == |body|
  {}

  lemma RestSeparator(q: Frames, f: nat, d: nat, e: nat, k: nat, curr: nat, out: seq<byte>)
    requires WritableFrames(q) && |q| <= MAX_FRAMES_PER_PACKET && f < |q| && d <= e && AllReach(q, f, e)
    requires k < |q[f]| && curr <= f
    ensures out + Rest(q, f, d, e, k, curr) == out + SeparatorBytes(f - curr) + Rest(q, f, d, e, k, f)
    ensures |Rest(q, f, d, e, k, curr)| == |SeparatorBytes(f - curr)| + |Rest(q, f, d, e, k, f)|
    ensures |Rest(q, f, d, e, k, f)| > 0
  {
    hide Body;
    BodyNotEmpty(q, f, d, e, k);
    GlueSeparator(out, SeparatorBytes(f - curr), Body(q, f, d, e, k));
  }

  /** The next extension, when it is before the end of the repeated ones. */
  lemma RestRepeated(q: Frames, f: nat, d: nat, e: nat, k: nat, out: seq<byte>)
    requires WritableFrames(q) && |q| <= MAX_FRAMES_PER_PACKET && f < |q| && d <= k < e && AllReach(q, f, e)
    ensures Writable(q[f][k])
    ensures var w := ExtensionBytes(q[f][k], false);
            var rest := if k + 1 < e then Rest(q, f, d, e, k + 1, f) else RepeatBlock(q, f, d, e) + Tail(q, f, d, e);
            && out + Rest(q, f, d, e, k, f) == out + w + rest
            && |Rest(q, f, d, e, k, f)| == |w| + |rest|
  {
    var w, run, z := ExtensionBytes(q[f][k], false), RunBytes(q[f], k + 1, e, false),
                     RepeatBlock(q, f, d, e) + Tail(q, f, d, e);
    assert RunBytes(q[f], k, e, false) == w + run;
    hide EncodeFrom, Tail, RepeatBlock, PayloadBytes, ExtensionBytes;
    GlueRun(out, w, run, z);
  }

  lemma GlueRun(out: seq<byte>, w: seq<byte>, run: seq<byte>, z: seq<byte>)
    ensures [] + ((w + run) + z) == w + ([] + (run + z)) == w + (run + z)
    ensures out + ([] + ((w + run) + z)) == out + w + ([] + (run + z))
    ensures run == [] ==> [] + (run + z) == z
  {}

  lemma RestUnrepeated(q: Frames, f: nat, d: nat, e: nat, k: nat, out: seq<byte>)
    requires WritableFrames(q) && |q| <= MAX_FRAMES_PER_PACKET && f < |q| && d <= e <= k < |q[f]| && AllReach(q, f, e)
    ensures Writable(q[f][k])
    ensures var w := ExtensionBytes(q[f][k], AllEnd(q, f + 1, e) && k + 1 == |q[f]|);
            && out + Rest(q, f, d, e, k, f) == out + w + Rest(q, f, d, e, k + 1, f)
            && |Rest(q, f, d, e, k, f)| == |w| + |Rest(q, f, d, e, k + 1, f)|
  {
    var last := AllEnd(q, f + 1, e);
    var w, run := ExtensionBytes(q[f][k], last && k + 1 == |q[f]|), RunBytes(q[f], k + 1, |q[f]|, last);
    var z := EncodeFrom(q, f + 1, e, f);
    assert RunBytes(q[f], k, |q[f]|, last) == w + run;
    hide EncodeFrom, Tail, RepeatBlock, PayloadBytes, ExtensionBytes;
    GlueRun(out, w, run, z);
  }

  lemma RestRepeat(q: Frames, f: nat, d: nat, e: nat, out: seq<byte>)
    requires WritableFrames(q) && |q| <= MAX_FRAMES_PER_PACKET && f < |q| && d < e && AllReach(q, f, e)
    ensures var last := RepeatIsLast(q, f, d, e);
            var w := RepeatBytes(q, d, e, f + 1, last);
            var rest := Rest(q, f, d, e, e, FrameAfter(q, f, d, e));
            && out + (RepeatBlock(q, f, d, e) + Tail(q, f, d, e)) == out + [IndicatorByte(last)] + w + rest
            && |RepeatBlock(q, f, d, e) + Tail(q, f, d, e)| == 1 + |w| + |rest|
  {
    hide EncodeFrom, RepeatBytes, IndicatorByte;
    var last := RepeatIsLast(q, f, d, e);
    GlueRepeat(out, [IndicatorByte(last)], RepeatBytes(q, d, e, f + 1, last),
               RunBytes(q[f], e, |q[f]|, AllEnd(q, f + 1, e)), EncodeFrom(q, f + 1, e, FrameAfter(q, f, d, e)));
  }

  lemma GlueRepeat(out: seq<byte>, b: seq<byte>, w: seq<byte>, run: seq<byte>, z: seq<byte>)
    ensures out + ((b + w) + (run + z)) == out + b + w + (run + z)
    ensures [] + (run + z) == run + z
    ensures run == [] ==> run + z == z
  {}

  /** Moves the reader from frame `currFrame` to frame `f`. */
  method PutSeparator(data: array?<byte>, len: nat, pos: nat, f: nat, currFrame: nat, ghost out: seq<byte>,
                      ghost before: seq<byte>)
    returns (r: Result<nat, ExtensionError>)
    requires currFrame <= f < MAX_FRAMES_PER_PACKET
    requires Holds(data, out, before) && pos == |out| <= len && (data != null ==> len <= data.Length)
    modifies data
    ensures r.Ok? ==> r.value == pos + |SeparatorBytes(f - currFrame)| <= len
                      && Holds(data, out + SeparatorBytes(f - currFrame), before)
    ensures r.Err? ==> r.error == BufferTooSmall && pos + |SeparatorBytes(f - currFrame)| + 1 > len
                       && TailKept(data, len, before)
  {
    hide Holds, TailKept;
    if f == currFrame {
      GlueNothing(out);
      return Ok(pos);
    }
    var diff := f - currFrame;
    if len - pos < 2 {
      HoldsKeepsTail(data, out, before, len);
      return Err(BufferTooSmall);
    }
    if diff == 1 {
      PutByte(data, pos, 2, out, before);
      return Ok(pos + 1);
    }
    PutByte(data, pos, 3, out, before);
    PutByte(data, pos + 1, diff, out + [3], before);
    GlueOut(out, [3], [diff]);
    assert [3] + [diff] == SeparatorBytes(diff);
    return Ok(pos + 2);
  }

  lemma GlueNothing(out: seq<byte>)
    ensures out + [] == out
  {}

  /** How many extensions are still to be written when extension `k` of frame `f` is next. */
  ghost function Remaining(q: Frames, f: nat, d: nat, e: nat, k: nat): nat
    requires f < |q| && d <= e && AllReach(q, f, e) && k <= |q[f]|
  {
    |q[f]| - k + if k < e then Left(q, f + 1, d) else Left(q, f + 1, e)
  }

  /** The test for the very last extension of the data. */
  lemma LastTest(q: Frames, f: nat, d: nat, e: nat, k: nat)
    requires f < |q| && d <= k < |q[f]| && d <= e && AllReach(q, f, e) && (d < e ==> f + 1 < |q|)
    ensures Remaining(q, f, d, e, k) == 1 <==> k >= e && AllEnd(q, f + 1, e) && k + 1 == |q[f]|
  {
    if k < e {
      LeftDrop(q, f + 1, d, e);
      ProductPositive(e - d, |q| - (f + 1));
    } else {
      LeftZero(q, f + 1, e);
    }
  }

  lemma ProductPositive(a: nat, b: nat)
    requires a > 0 && b > 0
    ensures a * b > 0
  {}

  /** The test for a repeat that ends the data. */
  lemma RepeatLastTest(q: Frames, f: nat, d: nat, e: nat)
    requires f < |q| && d < e && AllReach(q, f, e)
    ensures |q[f]| - e + Left(q, f + 1, d) == (e - d) * (|q| - (f + 1)) <==> AllEnd(q, f, e)
    ensures |q[f]| - e + Left(q, f + 1, d) == (e - d) * (|q| - (f + 1)) + Remaining(q, f, d, e, e)
  {
    LeftDrop(q, f + 1, d, e);
    LeftZero(q, f, e);
  }

  /** Everything that holds between two extensions of frame `f`. */
  ghost predicate FrameState(exts: seq<Extension>, nbFrames: nat, f: nat, d: nat, e: nat, repeatCount: nat,
                             lastLongIdx: Index, m: nat, frameMaxIdx: array<nat>, frameRepeatIdx: array<nat>)
    reads frameMaxIdx, frameRepeatIdx
  {
    && AllValid(exts, nbFrames) && f < nbFrames <= MAX_FRAMES_PER_PACKET
    && frameMaxIdx.Length == frameRepeatIdx.Length == MAX_FRAMES_PER_PACKET
    && WritableFrames(FramesOf(exts, nbFrames))
    && d <= |FramesOf(exts, nbFrames)[f]| && e == RepeatEnd(FramesOf(exts, nbFrames), f, d) == d + repeatCount
    && AllReach(FramesOf(exts, nbFrames), f, e)
    && LastLongIs(exts, FramesOf(exts, nbFrames), f, d, e, lastLongIdx, m)
    && AllPast(exts, frameMaxIdx, nbFrames)
    && AllPoint(exts, frameRepeatIdx, f + 1, nbFrames, e)
    && (repeatCount > 0 ==>
          && f + 1 < nbFrames && frameRepeatIdx[f] < |exts| && exts[frameRepeatIdx[f]].frame == f
          && Rank(exts, f, frameRepeatIdx[f]) == e - 1)
  }

  /** Where a repeat begins, and what its indicator says. */
  lemma RepeatHere(exts: seq<Extension>, nbFrames: nat, f: nat, d: nat, e: nat, repeatCount: nat, lastLongIdx: Index,
                   m: nat, frameMaxIdx: array<nat>, frameRepeatIdx: array<nat>, i: nat)
    requires FrameState(exts, nbFrames, f, d, e, repeatCount, lastLongIdx, m, frameMaxIdx, frameRepeatIdx)
    requires i < |exts| && exts[i].frame == f
    ensures repeatCount > 0 && frameRepeatIdx[f] == i <==> d < e && Rank(exts, f, i) + 1 == e
    ensures Rank(exts, f, i) + 1 == e ==> (i + 1 >= frameMaxIdx[f] <==> |FramesOf(exts, nbFrames)[f]| == e)
    ensures d < e ==> (lastLongIdx.NoIndex? <==> !HasLongExt(FramesOf(exts, nbFrames)[f], d, e))
  {
    hide FramesOf, AllPoint, WritableFrames, RepeatEnd;
    var q := FramesOf(exts, nbFrames);
    if repeatCount > 0 && Rank(exts, f, i) + 1 == e {
      SameRank(exts, f, i, frameRepeatIdx[f]);
    }
    PastAt(exts, nbFrames, f, i, frameMaxIdx);
    if lastLongIdx.Index? {
      LongIn(q[f], d, m, e);
    }
  }

  lemma PastAt(exts: seq<Extension>, nbFrames: nat, f: nat, i: nat, frameMaxIdx: array<nat>)
    requires AllValid(exts, nbFrames) && f < nbFrames <= frameMaxIdx.Length && AllPast(exts, frameMaxIdx, nbFrames)
    requires i < |exts| && exts[i].frame == f
    ensures i + 1 >= frameMaxIdx[f] <==> |FramesOf(exts, nbFrames)[f]| == Rank(exts, f, i) + 1
  {
    SelectIs(exts, nbFrames, f, |exts|);
    PastLastIff(exts, f, frameMaxIdx[f], i + 1);
    RankGrows(exts, f, i + 1, |exts|);
  }

  /** The buffer and the index arrays do not overlap. */
  ghost predicate Separate(data: array?<byte>, a: array<nat>, b: array<nat>, c: array<nat>) {
    && a != b && a != c && b != c
    && (data != null ==> data as object != a && data as object != b && data as object != c)
  }

  lemma StateFacts(exts: seq<Extension>, nbFrames: nat, f: nat, d: nat, e: nat, repeatCount: nat, lastLongIdx: Index,
                   m: nat, frameMaxIdx: array<nat>, frameRepeatIdx: array<nat>)
    requires FrameState(exts, nbFrames, f, d, e, repeatCount, lastLongIdx, m, frameMaxIdx, frameRepeatIdx)
    ensures var q := FramesOf(exts, nbFrames);
            && AllValid(exts, nbFrames) && f < nbFrames <= MAX_FRAMES_PER_PACKET
            && frameMaxIdx.Length == frameRepeatIdx.Length == MAX_FRAMES_PER_PACKET
            && WritableFrames(q) && d <= |q[f]| && e == RepeatEnd(q, f, d) == d + repeatCount && AllReach(q, f, e)
            && e <= |q[f]|
            && LastLongIs(exts, q, f, d, e, lastLongIdx, m) && AllPast(exts, frameMaxIdx, nbFrames)
            && AllPoint(exts, frameRepeatIdx, f + 1, nbFrames, e) && (d < e ==> f + 1 < nbFrames)
            && AllReach(q, f + 1, e) && AllReach(q, f + 1, d)
  {}

  /** Writes the repeat of frame `f`, whose last repeated extension is at input index `i`. */
  method WriteRepeatBlock(data: array?<byte>, len: nat, pos: nat, exts: seq<Extension>, nbFrames: nat, f: nat, i: nat,
                          frameMinIdx: array<nat>, frameMaxIdx: array<nat>, frameRepeatIdx: array<nat>,
                          repeatCount: nat, lastLongIdx: Index, written: nat, ghost d: nat, ghost e: nat, ghost m: nat,
                          ghost out: seq<byte>, ghost before: seq<byte>)
    returns (r: Result<nat, ExtensionError>, currFrame: nat, written': nat, ghost out': seq<byte>)
    requires Separate(data, frameMinIdx, frameMaxIdx, frameRepeatIdx) && frameMinIdx.Length == MAX_FRAMES_PER_PACKET
    requires FrameState(exts, nbFrames, f, d, e, repeatCount, lastLongIdx, m, frameMaxIdx, frameRepeatIdx)
    requires i < |exts| && exts[i].frame == f && Rank(exts, f, i) + 1 == e && d < e
    requires AllPoint(exts, frameMinIdx, f + 1, nbFrames, d)
    requires |exts| - written == |FramesOf(exts, nbFrames)[f]| - e + Left(FramesOf(exts, nbFrames), f + 1, d)
    requires Holds(data, out, before) && pos == |out| <= len && (data != null ==> len <= data.Length)
    modifies data, frameMinIdx
    ensures FrameState(exts, nbFrames, f, d, e, repeatCount, lastLongIdx, m, frameMaxIdx, frameRepeatIdx)
    ensures frameMinIdx[f] == old(frameMinIdx[f])
    ensures var q := FramesOf(exts, nbFrames);
            var block := RepeatBlock(q, f, d, e) + Tail(q, f, d, e);
            if r.Ok? then
              && Holds(data, out', before) && r.value == |out'| <= len && currFrame == FrameAfter(q, f, d, e)
              && out' + Rest(q, f, d, e, e, currFrame) == out + block
              && AllPoint(exts, frameMinIdx, f + 1, nbFrames, e) && |exts| - written' == Remaining(q, f, d, e, e)
              && SamePointers(frameMinIdx, frameRepeatIdx, f + 1, nbFrames)
            else r.error == BufferTooSmall && |out| + |block| > len && TailKept(data, len, before)
  {
    hide Holds, TailKept, AllValid, FramesOf, AllPoint, AllPast, LastLongIs, WritableFrames, RepeatEnd, RepeatBlock,
         Tail, Rest, AllReach, AllEnd, HasLongExt, Left, RepeatBytes, Rank, FrameState, AllWritable;
    StateFacts(exts, nbFrames, f, d, e, repeatCount, lastLongIdx, m, frameMaxIdx, frameRepeatIdx);
    ghost var q := FramesOf(exts, nbFrames);
    RepeatHere(exts, nbFrames, f, d, e, repeatCount, lastLongIdx, m, frameMaxIdx, frameRepeatIdx, i);
    RepeatLastTest(q, f, d, e);
    RestRepeat(q, f, d, e, out);
    currFrame, written', out' := f, written, out;
    var nbRepeated := repeatCount * (nbFrames - (f + 1));
    var last := written + nbRepeated == |exts| || (lastLongIdx.NoIndex? && i + 1 >= frameMaxIdx[f]);
    assert last == RepeatIsLast(q, f, d, e);
    if len - pos < 1 {
      HoldsKeepsTail(data, out, before, len);
      r := Err(BufferTooSmall);
      return;
    }
    var b := 4 + if last then 0 else 1;
    PutByte(data, pos, b, out, before);
    assert b == IndicatorByte(last);
    out' := out + [b];
    r, written' := WriteRepeats(data, len, pos + 1, exts, nbFrames, f, frameMinIdx, frameRepeatIdx, last, lastLongIdx,
                                written, d, e, m, out', before);
    if r.Err? {
      return;
    }
    out' := out' + RepeatBytes(q, d, e, f + 1, last);
    if last {
      currFrame := currFrame + 1;
    }
  }

  /** How many extensions of the later frames are written when `k` of frame `f` are. */
  ghost function Consumed(d: nat, e: nat, k: nat): nat {
    if k < e then d else e
  }

  /** What writing one extension leaves to be written. */
  lemma OneLess(q: Frames, f: nat, d: nat, e: nat, k: nat)
    requires f < |q| && d <= e && AllReach(q, f, e) && k < |q[f]|
    ensures AllReach(q, f + 1, d)
    ensures if d < e && k + 1 == e then Remaining(q, f, d, e, k) == 1 + (|q[f]| - e + Left(q, f + 1, d))
            else Remaining(q, f, d, e, k) == 1 + Remaining(q, f, d, e, k + 1)
  {}

  /** What is left behind extension `k`: the repeat, or the next extension. */
  ghost function Behind(q: Frames, f: nat, d: nat, e: nat, k: nat): seq<byte>
    requires WritableFrames(q) && |q| <= MAX_FRAMES_PER_PACKET && f < |q| && d <= e && AllReach(q, f, e) && k < |q[f]|
  {
    if d < e && k + 1 == e then RepeatBlock(q, f, d, e) + Tail(q, f, d, e) else Rest(q, f, d, e, k + 1, f)
  }

  lemma RestNext(q: Frames, f: nat, d: nat, e: nat, k: nat, out: seq<byte>)
    requires WritableFrames(q) && |q| <= MAX_FRAMES_PER_PACKET && f < |q| && d <= e && AllReach(q, f, e)
    requires d <= k < |q[f]|
    requires d < e ==> f + 1 < |q|
    ensures Writable(q[f][k])
    ensures var w := ExtensionBytes(q[f][k], Remaining(q, f, d, e, k) == 1);
            && out + Rest(q, f, d, e, k, f) == out + w + Behind(q, f, d, e, k)
            && |Rest(q, f, d, e, k, f)| == |w| + |Behind(q, f, d, e, k)|
  {
    hide EncodeFrom, Rest, RepeatBlock, Tail, ExtensionBytes, Remaining, AllEnd, AllReach;
    LastTest(q, f, d, e, k);
    if k < e {
      RestRepeated(q, f, d, e, k, out);
    } else {
      RestUnrepeated(q, f, d, e, k, out);
    }
  }

  /** Writes extension `i` of the input, which is number `k` of frame `f`, with the separator before
      it and the repeat behind it, if they are due. */
  method WriteNext(data: array?<byte>, len: nat, pos: nat, exts: seq<Extension>, nbFrames: nat, f: nat, i: nat,
                   frameMinIdx: array<nat>, frameMaxIdx: array<nat>, frameRepeatIdx: array<nat>, repeatCount: nat,
                   lastLongIdx: Index, curr: nat, written: nat, ghost d: nat, ghost e: nat, ghost m: nat, ghost k: nat,
                   ghost out: seq<byte>, ghost before: seq<byte>)
    returns (r: Result<nat, ExtensionError>, currFrame: nat, written': nat, ghost out': seq<byte>)
    requires Separate(data, frameMinIdx, frameMaxIdx, frameRepeatIdx) && frameMinIdx.Length == MAX_FRAMES_PER_PACKET
    requires FrameState(exts, nbFrames, f, d, e, repeatCount, lastLongIdx, m, frameMaxIdx, frameRepeatIdx)
    requires i < |exts| && exts[i].frame == f && d <= k == Rank(exts, f, i) < |FramesOf(exts, nbFrames)[f]| && curr <= f
    requires AllPoint(exts, frameMinIdx, f + 1, nbFrames, Consumed(d, e, k))
    requires k >= e ==> SamePointers(frameMinIdx, frameRepeatIdx, f + 1, nbFrames)
    requires |exts| - written == Remaining(FramesOf(exts, nbFrames), f, d, e, k)
    requires Holds(data, out, before) && pos == |out| <= len && (data != null ==> len <= data.Length)
    modifies data, frameMinIdx
    ensures FrameState(exts, nbFrames, f, d, e, repeatCount, lastLongIdx, m, frameMaxIdx, frameRepeatIdx)
    ensures frameMinIdx[f] == old(frameMinIdx[f])
    ensures var q := FramesOf(exts, nbFrames);
            if r.Ok? then
              && Holds(data, out', before) && r.value == |out'| <= len
              && currFrame <= f + 1 && (k + 1 < |q[f]| ==> currFrame <= f)
              && out' + Rest(q, f, d, e, k + 1, currFrame) == out + Rest(q, f, d, e, k, curr)
              && AllPoint(exts, frameMinIdx, f + 1, nbFrames, Consumed(d, e, k + 1))
              && (k + 1 >= e ==> SamePointers(frameMinIdx, frameRepeatIdx, f + 1, nbFrames))
              && |exts| - written' == Remaining(q, f, d, e, k + 1)
            else r.error == BufferTooSmall && |out| + |Rest(q, f, d, e, k, curr)| > len && TailKept(data, len, before)
  {
    hide Holds, TailKept, AllValid, FramesOf, AllPoint, AllPast, LastLongIs, WritableFrames, RepeatEnd, RepeatBlock,
         Tail, Rest, AllReach, AllEnd, HasLongExt, Left, Rank, FrameState, AllWritable, ExtensionBytes, Remaining,
         Behind, SeparatorBytes, Cut, Writable;
    StateFacts(exts, nbFrames, f, d, e, repeatCount, lastLongIdx, m, frameMaxIdx, frameRepeatIdx);
    ghost var q := FramesOf(exts, nbFrames);
    currFrame, written', out' := f, written, out;
    RestSeparator(q, f, d, e, k, curr, out);
    r := PutSeparator(data, len, pos, f, curr, out, before);
    if r.Err? {
      return;
    }
    out' := out + SeparatorBytes(f - curr);
    ExtensionAt(exts, nbFrames, f, i);
    RestNext(q, f, d, e, k, out');
    OneLess(q, f, d, e, k);
    r := WriteExtension(data, len, r.value, exts[i], written + 1 == |exts|, out', before);
    if r.Err? {
      return;
    }
    out' := out' + ExtensionBytes(q[f][k], Remaining(q, f, d, e, k) == 1);
    written' := written + 1;
    RepeatHere(exts, nbFrames, f, d, e, repeatCount, lastLongIdx, m, frameMaxIdx, frameRepeatIdx, i);
    BehindIs(q, f, d, e, k);
    if repeatCount > 0 && frameRepeatIdx[f] == i {
      r, currFrame, written', out' := WriteRepeatBlock(data, len, r.value, exts, nbFrames, f, i, frameMinIdx,
                                                       frameMaxIdx, frameRepeatIdx, repeatCount, lastLongIdx, written',
                                                       d, e, m, out', before);
    }
  }

  lemma BehindIs(q: Frames, f: nat, d: nat, e: nat, k: nat)
    requires WritableFrames(q) && |q| <= MAX_FRAMES_PER_PACKET && f < |q| && d <= e && AllReach(q, f, e) && k < |q[f]|
    ensures if d < e && k + 1 == e then Behind(q, f, d, e, k) == RepeatBlock(q, f, d, e) + Tail(q, f, d, e)
            else Behind(q, f, d, e, k) == Rest(q, f, d, e, k + 1, f)
    ensures d < e ==> FrameAfter(q, f, d, e) == f || (FrameAfter(q, f, d, e) == f + 1 && e == |q[f]|)
  {}

  /** Everything that holds between two frames: the first `d` extensions of every frame from `f` on
      are written, and both pointers of those frames are the same and at their extension `d`. */
  ghost predicate PassState(exts: seq<Extension>, nbFrames: nat, f: nat, d: nat, frameMinIdx: array<nat>,
                            frameMaxIdx: array<nat>, frameRepeatIdx: array<nat>)
    reads frameMinIdx, frameMaxIdx, frameRepeatIdx
  {
    && AllValid(exts, nbFrames) && f <= nbFrames <= MAX_FRAMES_PER_PACKET
    && frameMinIdx.Length == frameMaxIdx.Length == frameRepeatIdx.Length == MAX_FRAMES_PER_PACKET
    && WritableFrames(FramesOf(exts, nbFrames)) && AllReach(FramesOf(exts, nbFrames), f, d)
    && AllPast(exts, frameMaxIdx, nbFrames)
    && AllPoint(exts, frameMinIdx, f, nbFrames, d) && AllPoint(exts, frameRepeatIdx, f, nbFrames, d)
    && SamePointers(frameMinIdx, frameRepeatIdx, f, nbFrames)
  }

  lemma PassFacts(exts: seq<Extension>, nbFrames: nat, f: nat, d: nat, frameMinIdx: array<nat>, frameMaxIdx: array<nat>,
                  frameRepeatIdx: array<nat>)
    requires PassState(exts, nbFrames, f, d, frameMinIdx, frameMaxIdx, frameRepeatIdx)
    ensures var q := FramesOf(exts, nbFrames);
            && AllValid(exts, nbFrames) && f <= nbFrames <= MAX_FRAMES_PER_PACKET
            && frameMinIdx.Length == frameMaxIdx.Length == frameRepeatIdx.Length == MAX_FRAMES_PER_PACKET
            && WritableFrames(q) && AllReach(q, f, d) && AllPast(exts, frameMaxIdx, nbFrames)
            && AllPoint(exts, frameMinIdx, f, nbFrames, d) && AllPoint(exts, frameRepeatIdx, f, nbFrames, d)
            && (f < nbFrames ==> d <= |q[f]| && AllPoint(exts, frameMinIdx, f + 1, nbFrames, d)
                                 && AllPoint(exts, frameRepeatIdx, f + 1, nbFrames, d)
                                 && SamePointers(frameMinIdx, frameRepeatIdx, f + 1, nbFrames))
  {}

  /** The repeats of frame `f`; there are none in the last frame. */
  method PrepareFrame(exts: seq<Extension>, nbFrames: nat, f: nat, frameMinIdx: array<nat>, frameMaxIdx: array<nat>,
                      frameRepeatIdx: array<nat>, ghost d: nat)
    returns (repeatCount: nat, lastLongIdx: Index, ghost e: nat, ghost m: nat)
    requires frameRepeatIdx != frameMaxIdx && frameRepeatIdx != frameMinIdx && f < nbFrames
    requires PassState(exts, nbFrames, f, d, frameMinIdx, frameMaxIdx, frameRepeatIdx)
    modifies frameRepeatIdx
    ensures FrameState(exts, nbFrames, f, d, e, repeatCount, lastLongIdx, m, frameMaxIdx, frameRepeatIdx)
    ensures d <= e && AllReach(FramesOf(exts, nbFrames), f, e) && AllReach(FramesOf(exts, nbFrames), f + 1, e)
    ensures d >= e ==> SamePointers(frameMinIdx, frameRepeatIdx, f + 1, nbFrames)
  {
    hide AllValid, FramesOf, AllPoint, AllPast, LastLongIs, WritableFrames, RepeatEnd, Rank, Repeatable;
    PassFacts(exts, nbFrames, f, d, frameMinIdx, frameMaxIdx, frameRepeatIdx);
    repeatCount, lastLongIdx, m := 0, NoIndex, 0;
    ghost var q := FramesOf(exts, nbFrames);
    e := RepeatEnd(q, f, d);
    RepeatReach(q, f, d);
    if f + 1 < nbFrames {
      repeatCount, lastLongIdx, m := FindRepeats(exts, nbFrames, f, frameMinIdx, frameMaxIdx, frameRepeatIdx, d);
    } else {
      NoRepeatInLast(q, f, d);
      LastLongNone(exts, q, f, d);
    }
  }

  lemma NoRepeatInLast(q: Frames, f: nat, d: nat)
    requires f + 1 == |q| && d <= |q[f]|
    ensures RepeatEnd(q, f, d) == d
  {}

  lemma FrameStart(exts: seq<Extension>, nbFrames: nat, f: nat, d: nat, e: nat, frameMinIdx: array<nat>,
                   frameMaxIdx: array<nat>)
    requires AllValid(exts, nbFrames) && f < nbFrames <= frameMinIdx.Length && nbFrames <= frameMaxIdx.Length
    requires AllPoint(exts, frameMinIdx, f, nbFrames, d) && AllPast(exts, frameMaxIdx, nbFrames)
    requires d <= e && AllReach(FramesOf(exts, nbFrames), f, e)
    ensures AllReach(FramesOf(exts, nbFrames), f, d) && d <= |FramesOf(exts, nbFrames)[f]|
    ensures frameMinIdx[f] <= |exts| && frameMaxIdx[f] <= |exts| && Rank(exts, f, frameMinIdx[f]) == d
    ensures Remaining(FramesOf(exts, nbFrames), f, d, e, d) == Left(FramesOf(exts, nbFrames), f, d)
    ensures Consumed(d, e, d) == d
  {
    assert Points(exts, f, frameMinIdx[f], d) && PastLast(exts, f, frameMaxIdx[f]);
  }

  lemma FrameEnd(q: Frames, f: nat, d: nat, e: nat, curr: nat)
    requires WritableFrames(q) && |q| <= MAX_FRAMES_PER_PACKET && f < |q| && d <= e && AllReach(q, f, e)
    requires curr <= f + 1
    ensures Rest(q, f, d, e, |q[f]|, curr) == EncodeFrom(q, f + 1, e, curr)
    ensures Remaining(q, f, d, e, |q[f]|) == Left(q, f + 1, e) && Consumed(d, e, |q[f]|) == e
  {}

  /** Writes frame `f`. */
  method WriteFrame(data: array?<byte>, len: nat, pos: nat, exts: seq<Extension>, nbFrames: nat, f: nat,
                    frameMinIdx: array<nat>, frameMaxIdx: array<nat>, frameRepeatIdx: array<nat>, curr: nat,
                    written: nat, ghost d: nat, ghost out: seq<byte>, ghost before: seq<byte>)
    returns (r: Result<nat, ExtensionError>, currFrame: nat, written': nat, ghost e: nat, ghost out': seq<byte>)
    requires Separate(data, frameMinIdx, frameMaxIdx, frameRepeatIdx)
    requires PassState(exts, nbFrames, f, d, frameMinIdx, frameMaxIdx, frameRepeatIdx) && f < nbFrames && curr <= f
    requires |exts| - written == Left(FramesOf(exts, nbFrames), f, d)
    requires Holds(data, out, before) && pos == |out| <= len && (data != null ==> len <= data.Length)
    modifies data, frameMinIdx, frameRepeatIdx
    ensures var q := FramesOf(exts, nbFrames);
            if r.Ok? then
              && Holds(data, out', before) && r.value == |out'| <= len && currFrame <= f + 1
              && PassState(exts, nbFrames, f + 1, e, frameMinIdx, frameMaxIdx, frameRepeatIdx)
              && out' + EncodeFrom(q, f + 1, e, currFrame) == out + EncodeFrom(q, f, d, curr)
              && |exts| - written' == Left(q, f + 1, e)
            else r.error == BufferTooSmall && |out| + |EncodeFrom(q, f, d, curr)| > len && TailKept(data, len, before)
  {
    hide Holds, TailKept, AllValid, FramesOf, AllPoint, AllPast, LastLongIs, WritableFrames, RepeatEnd, Rest,
         EncodeFrom, AllReach, Left, Rank, FrameState, Remaining, Consumed, Cut, ValidExtension, HasLongExt, Writable;
    ghost var m;
    var repeatCount, lastLongIdx;
    PassFacts(exts, nbFrames, f, d, frameMinIdx, frameMaxIdx, frameRepeatIdx);
    repeatCount, lastLongIdx, e, m := PrepareFrame(exts, nbFrames, f, frameMinIdx, frameMaxIdx, frameRepeatIdx, d);
    StateFacts(exts, nbFrames, f, d, e, repeatCount, lastLongIdx, m, frameMaxIdx, frameRepeatIdx);
    FrameStart(exts, nbFrames, f, d, e, frameMinIdx, frameMaxIdx);
    ghost var q := FramesOf(exts, nbFrames);
    RestStart(q, f, d, curr);
    ghost var total := out + EncodeFrom(q, f, d, curr);
    r, currFrame, written', out' := Ok(pos), curr, written, out;
    var i := frameMinIdx[f];
    ghost var k := d;
    while i < frameMaxIdx[f]
      invariant i <= |exts| && d <= k == Rank(exts, f, i) <= |q[f]|
      invariant FrameState(exts, nbFrames, f, d, e, repeatCount, lastLongIdx, m, frameMaxIdx, frameRepeatIdx)
      invariant AllPoint(exts, frameMinIdx, f + 1, nbFrames, Consumed(d, e, k))
      invariant k >= e ==> SamePointers(frameMinIdx, frameRepeatIdx, f + 1, nbFrames)
      invariant r.Ok? && Holds(data, out', before) && r.value == |out'| <= len
      invariant currFrame <= f + 1 && (k < |q[f]| ==> currFrame <= f)
      invariant out' + Rest(q, f, d, e, k, currFrame) == total
      invariant |exts| - written' == Remaining(q, f, d, e, k)
      decreases |exts| - i
    {
      PositionAt(exts, nbFrames, f, i, frameMaxIdx);
      if exts[i].frame == f {
        assert |total| == |out'| + |Rest(q, f, d, e, k, currFrame)|;
        r, currFrame, written', out' := WriteNext(data, len, r.value, exts, nbFrames, f, i, frameMinIdx, frameMaxIdx,
                                                  frameRepeatIdx, repeatCount, lastLongIdx, currFrame, written', d, e,
                                                  m, k, out', before);
        if r.Err? {
          return;
        }
        k := k + 1;
      }
      i := i + 1;
    }
    PositionEnd(exts, nbFrames, f, i, frameMaxIdx);
    StateFacts(exts, nbFrames, f, d, e, repeatCount, lastLongIdx, m, frameMaxIdx, frameRepeatIdx);
    FrameEnd(q, f, d, e, currFrame);
  }

  // ----- the whole input -----

  /** `n` bytes of padding. */
  ghost function Padding(n: nat): seq<byte> {
    seq(n, _ => 1)
  }

  /** What the generator returns: the length of the data, which is `len` with padding. */
  ghost function Outcome(len: nat, size: nat, pad: bool): Result<nat, ExtensionError> {
    if size > len then Err(BufferTooSmall) else Ok(if pad then len else size)
  }

  /** The data that the generator leaves in the buffer. */
  ghost function Output(len: nat, w: seq<byte>, pad: bool): seq<byte>
    requires |w| <= len
  {
    if pad then Padding(len - |w|) + w else w
  }

  lemma HoldsBytes(data: array<byte>, w: seq<byte>, before: seq<byte>)
    requires Holds(data, w, before)
    ensures data.Length == |before| && |w| <= data.Length
    ensures forall k :: 0 <= k < |w| ==> data[k] == w[k]
    ensures forall k :: |w| <= k < data.Length ==> data[k] == before[k]
  {}

  lemma BytesHold(data: array<byte>, n: nat, w: seq<byte>, before: seq<byte>)
    requires data.Length == |before| && n + |w| <= data.Length
    requires forall k :: 0 <= k < n ==> data[k] == 1
    requires forall k :: n <= k < n + |w| ==> data[k] == w[k - n]
    requires forall k :: n + |w| <= k < data.Length ==> data[k] == before[k]
    ensures Holds(data, Padding(n) + w, before)
  {}

  /** Moves what is written to the end, and puts padding in front. */
  method PadFront(data: array<byte>, len: nat, pos: nat, ghost w: seq<byte>, ghost before: seq<byte>)
    requires Holds(data, w, before) && pos == |w| <= len <= data.Length
    modifies data
    ensures Holds(data, Padding(len - |w|) + w, before)
  {
    hide Holds, Padding;
    HoldsBytes(data, w, before);
    var padding := len - pos;
    forall i | 0 <= i < pos {
      data[padding + i] := data[i];
    }
    assert forall k :: padding <= k < len ==> data[k] == w[k - padding];
    for i := 0 to padding
      invariant forall k :: 0 <= k < i ==> data[k] == 1
      invariant forall k :: padding <= k < len ==> data[k] == w[k - padding]
      invariant forall k :: len <= k < data.Length ==> data[k] == before[k]
    {
      data[i] := 1;
    }
    BytesHold(data, padding, w, before);
  }

  lemma PassStart(exts: seq<Extension>, nbFrames: nat, frameMinIdx: array<nat>, frameMaxIdx: array<nat>,
                  frameRepeatIdx: array<nat>)
    requires AllValid(exts, nbFrames) && nbFrames <= MAX_FRAMES_PER_PACKET
    requires frameMinIdx.Length == frameMaxIdx.Length == frameRepeatIdx.Length == MAX_FRAMES_PER_PACKET
    requires forall g :: 0 <= g < nbFrames ==> Points(exts, g, frameMinIdx[g], 0) && PastLast(exts, g, frameMaxIdx[g])
    requires forall g :: 0 <= g < nbFrames ==> frameRepeatIdx[g] == frameMinIdx[g]
    ensures WritableFrames(FramesOf(exts, nbFrames))
    ensures PassState(exts, nbFrames, 0, 0, frameMinIdx, frameMaxIdx, frameRepeatIdx)
    ensures AllReach(FramesOf(exts, nbFrames), 0, 0) && Left(FramesOf(exts, nbFrames), 0, 0) == |exts|
  {
    FramesWritable(exts, nbFrames);
    LeftAll(exts, nbFrames);
  }

  lemma PassEnd(exts: seq<Extension>, nbFrames: nat, d: nat, curr: nat, frameMinIdx: array<nat>,
                frameMaxIdx: array<nat>, frameRepeatIdx: array<nat>, out: seq<byte>)
    requires PassState(exts, nbFrames, nbFrames, d, frameMinIdx, frameMaxIdx, frameRepeatIdx) && curr <= nbFrames
    ensures Left(FramesOf(exts, nbFrames), nbFrames, d) == 0
    ensures out + EncodeFrom(FramesOf(exts, nbFrames), nbFrames, d, curr) == out
  {}

  lemma HoldsAll(data: array<byte>, out: seq<byte>, before: seq<byte>)
    requires Holds(data, out, before)
    ensures |out| <= |before| && data[..] == out + before[|out|..]
  {}

  lemma TailIs(data: array<byte>, len: nat, before: seq<byte>)
    requires TailKept(data, len, before) && len <= data.Length
    ensures |before| == data.Length && data[len..] == before[len..]
  {}

  lemma HoldsNothing(data: array?<byte>, before: seq<byte>)
    requires data != null ==> before == data[..]
    ensures Holds(data, [], before)
  {}

  /** The encoding of a valid input. */
  ghost function Encoded(exts: seq<Extension>, nbFrames: nat): seq<byte>
    requires AllValid(exts, nbFrames) && nbFrames <= MAX_FRAMES_PER_PACKET
  {
    FramesWritable(exts, nbFrames);
    Encode(FramesOf(exts, nbFrames))
  }

  /** Writes all frames one after the other. */
  method WriteFrames(data: array?<byte>, len: nat, exts: seq<Extension>, nbFrames: nat, frameMinIdx: array<nat>,
                     frameMaxIdx: array<nat>, frameRepeatIdx: array<nat>, ghost before: seq<byte>)
    returns (r: Result<nat, ExtensionError>)
    requires Separate(data, frameMinIdx, frameMaxIdx, frameRepeatIdx)
    requires PassState(exts, nbFrames, 0, 0, frameMinIdx, frameMaxIdx, frameRepeatIdx)
    requires Left(FramesOf(exts, nbFrames), 0, 0) == |exts|
    requires Holds(data, [], before) && (data != null ==> len <= data.Length)
    modifies data, frameMinIdx, frameRepeatIdx
    ensures var w := Encoded(exts, nbFrames);
            && r == (if |w| > len then Err(BufferTooSmall) else Ok(|w|))
            && (r.Ok? ==> Holds(data, w, before))
            && (r.Err? ==> TailKept(data, len, before))
  {
    hide Holds, TailKept, AllValid, FramesOf, WritableFrames, EncodeFrom, Left, PassState, AllReach;
    PassFacts(exts, nbFrames, 0, 0, frameMinIdx, frameMaxIdx, frameRepeatIdx);
    ghost var q := FramesOf(exts, nbFrames);
    ghost var d: nat, out: seq<byte> := 0, [];
    var currFrame: nat, pos: nat, written: nat := 0, 0, 0;
    var f: nat := 0;
    assert out + EncodeFrom(q, 0, 0, 0) == Encoded(exts, nbFrames);
    while f < nbFrames
      invariant f <= nbFrames && currFrame <= f
      invariant PassState(exts, nbFrames, f, d, frameMinIdx, frameMaxIdx, frameRepeatIdx) && AllReach(q, f, d)
      invariant Holds(data, out, before) && pos == |out| <= len
      invariant out + EncodeFrom(q, f, d, currFrame) == Encoded(exts, nbFrames)
      invariant |exts| - written == Left(q, f, d)
    {
      assert |Encoded(exts, nbFrames)| == |out| + |EncodeFrom(q, f, d, currFrame)|;
      r, currFrame, written, d, out := WriteFrame(data, len, pos, exts, nbFrames, f, frameMinIdx, frameMaxIdx,
                                                  frameRepeatIdx, currFrame, written, d, out, before);
      if r.Err? {
        return;
      }
      pos := r.value;
      f := f + 1;
      PassFacts(exts, nbFrames, f, d, frameMinIdx, frameMaxIdx, frameRepeatIdx);
    }
    PassEnd(exts, nbFrames, d, currFrame, frameMinIdx, frameMaxIdx, frameRepeatIdx, out);
    assert written == |exts|;
    return Ok(pos);
  }

  /** Writes all extensions, or only finds the length when there is no buffer. */
  method Generate(data: array?<byte>, len: nat, extensions: seq<Extension>, nbFrames: nat, pad: bool)
    returns (r: Result<nat, ExtensionError>)
    modifies data
    ensures r == if nbFrames > 48 || (data != null && len > data.Length)
            || !AllValid(extensions, nbFrames)
                 then Err(BadArgument)
                 else Outcome(len, |Encoded(extensions, nbFrames)|, pad)
    ensures data != null && r.Ok? ==>
              data[..] == Output(len, Encoded(extensions, nbFrames), pad) + old(data[..])[r.value..]
    ensures data != null && len <= data.Length ==> data[len..] == old(data[len..])
  {
    hide Holds, TailKept, AllValid, FramesOf, WritableFrames, Encode, EncodeFrom, Left, PassState, AllReach, Points,
         PastLast, Encoded, Padding;
    ghost var before := if data == null then [] else data[..];
    if nbFrames > MAX_FRAMES_PER_PACKET {
      return Err(BadArgument);
    }
    if data != null && len > data.Length {
      return Err(BadArgument);
    }
    var ok, frameMinIdx, frameMaxIdx := ScanExtensions(extensions, nbFrames);
    if !ok {
      return Err(BadArgument);
    }
    var frameRepeatIdx := new nat[MAX_FRAMES_PER_PACKET];
    forall g | 0 <= g < MAX_FRAMES_PER_PACKET {
      frameRepeatIdx[g] := frameMinIdx[g];
    }
    PassStart(extensions, nbFrames, frameMinIdx, frameMaxIdx, frameRepeatIdx);
    HoldsNothing(data, before);
    ghost var w := Encoded(extensions, nbFrames);
    r := WriteFrames(data, len, extensions, nbFrames, frameMinIdx, frameMaxIdx, frameRepeatIdx, before);
    if r.Err? {
      if data != null {
        TailIs(data, len, before);
      }
      return;
    }
    var pos := r.value;
    if pad && pos < len {
      if data != null {
        PadFront(data, len, pos, w, before);
        PaddedTail(data, len, w, before);
      }
      r := Ok(len);
    } else if data != null {
      HoldsAll(data, w, before);
      HoldsKeepsTail(data, w, before, len);
      TailIs(data, len, before);
      PadNothing(len, w, pad);
    }
  }

  lemma PaddedTail(data: array<byte>, len: nat, w: seq<byte>, before: seq<byte>)
    requires |w| <= len && Holds(data, Padding(len - |w|) + w, before)
    ensures len <= |before| == data.Length
    ensures data[..] == Padding(len - |w|) + w + before[len..] && data[len..] == before[len..]
  {
    HoldsAll(data, Padding(len - |w|) + w, before);
  }

  lemma PadNothing(len: nat, w: seq<byte>, pad: bool)
    requires |w| <= len && (pad ==> |w| == len)
    ensures Output(len, w, pad) == w
  {
    assert Padding(0) + w == w;
  }
}
