/** How the generator finds out, with one pointer per frame, what can be repeated. */
module ExtensionRepeats {
  import opened ExtensionSyntax
  import opened ExtensionEncoding
  import opened ExtensionFrames

  /** An index into the input, or none. */
  datatype Index = NoIndex | Index(i: nat)

  lemma {:induction false} HasLongBack(es: seq<Extension>, i: nat, j: nat)
    requires i <= j < |es|
    ensures HasLongExt(es, i, j + 1) == (HasLongExt(es, i, j) || IsLongExt(es[j]))
    decreases j - i
  {
    if i < j {
      HasLongBack(es, i + 1, j);
    }
  }

  /** `last` is the input index, in the last frame, of the last long extension among `d..k`; that
      extension is number `m` of its frame. */
  ghost predicate LastLongIs(exts: seq<Extension>, q: Frames, f: nat, d: nat, k: nat, last: Index, m: nat)
    requires f < |q| && k <= |q[f]|
  {
    && (last.NoIndex? ==> !HasLongExt(q[f], d, k))
    && (last.Index? ==>
          && d <= m < k && IsLongExt(q[f][m]) && !HasLongExt(q[f], m + 1, k)
          && last.i < |exts| && exts[last.i].frame == |q| - 1 && Rank(exts, |q| - 1, last.i) == m)
  }

  lemma LastLongStep(exts: seq<Extension>, q: Frames, f: nat, d: nat, k: nat, last: Index, m: nat, p: nat)
    requires f < |q| && d <= k < |q[f]| && LastLongIs(exts, q, f, d, k, last, m)
    requires p < |exts| && exts[p].frame == |q| - 1 && Rank(exts, |q| - 1, p) == k
    ensures if IsLongExt(q[f][k]) then LastLongIs(exts, q, f, d, k + 1, Index(p), k)
            else LastLongIs(exts, q, f, d, k + 1, last, m)
  {
    HasLongBack(q[f], d, k);
    if last.Index? {
      HasLongBack(q[f], m + 1, k);
    }
  }

  /** All frames in `lo..hi` are pointed at by `idx` at their extension `k`. */
  ghost predicate AllPoint(exts: seq<Extension>, idx: array<nat>, lo: nat, hi: nat, k: nat)
    requires hi <= idx.Length
    reads idx
  {
    forall g :: lo <= g < hi ==> Points(exts, g, idx[g], k)
  }

  /** Both arrays have the same pointers for the frames in `lo..hi`. */
  ghost predicate SamePointers(a: array<nat>, b: array<nat>, lo: nat, hi: nat)
    requires hi <= a.Length && hi <= b.Length
    reads a, b
  {
    forall g :: lo <= g < hi ==> a[g] == b[g]
  }

  ghost predicate AllPast(exts: seq<Extension>, idx: array<nat>, hi: nat)
    requires hi <= idx.Length
    reads idx
  {
    forall g :: 0 <= g < hi ==> PastLast(exts, g, idx[g])
  }

  lemma PointsAtFrame(exts: seq<Extension>, nbFrames: nat, idx: array<nat>, maxIdx: array<nat>, lo: nat, k: nat, g: nat)
    requires AllValid(exts, nbFrames) && nbFrames <= idx.Length && nbFrames <= maxIdx.Length && lo <= g < nbFrames
    requires AllPoint(exts, idx, lo, nbFrames, k) && AllPast(exts, maxIdx, nbFrames)
    ensures Points(exts, g, idx[g], k) && PastLast(exts, g, maxIdx[g])
    ensures k <= |FramesOf(exts, nbFrames)[g]|
    ensures idx[g] < maxIdx[g] <==> k < |FramesOf(exts, nbFrames)[g]|
    ensures idx[g] < maxIdx[g] ==> idx[g] < |exts| && exts[idx[g]].frame == g && ValidExtension(exts[idx[g]], nbFrames)
                                   && FramesOf(exts, nbFrames)[g][k] == Cut(exts[idx[g]])
  {
    PointsAt(exts, nbFrames, g, idx[g], k, maxIdx[g]);
  }

  /** Whether every later frame's next extension is matched by extension `i`, which is number `k` of
      frame `f`. */
  method MatchLater(exts: seq<Extension>, nbFrames: nat, f: nat, i: nat, frameRepeatIdx: array<nat>,
                    frameMaxIdx: array<nat>, ghost k: nat)
    returns (all: bool)
    requires AllValid(exts, nbFrames) && f + 1 < nbFrames <= frameRepeatIdx.Length && nbFrames <= frameMaxIdx.Length
    requires AllPoint(exts, frameRepeatIdx, f + 1, nbFrames, k) && AllPast(exts, frameMaxIdx, nbFrames)
    requires i < |exts| && ValidExtension(exts[i], nbFrames)
    requires k < |FramesOf(exts, nbFrames)[f]| && FramesOf(exts, nbFrames)[f][k] == Cut(exts[i])
    ensures all <==> Repeatable(FramesOf(exts, nbFrames), f, k)
  {
    hide AllValid, AllPoint, AllPast, FramesOf, Rank, Points, PastLast;
    ghost var q := FramesOf(exts, nbFrames);
    var g := f + 1;
    while g < nbFrames
      invariant f < g <= nbFrames
      invariant forall h :: f < h < g ==> k < |q[h]| && Compatible(q[f][k], q[h][k])
    {
      PointsAtFrame(exts, nbFrames, frameRepeatIdx, frameMaxIdx, f + 1, k, g);
      if frameRepeatIdx[g] >= frameMaxIdx[g] {
        break;
      }
      var other := exts[frameRepeatIdx[g]];
      if other.id != exts[i].id {
        break;
      }
      if other.id < 32 && other.len != exts[i].len {
        break;
      }
      g := g + 1;
    }
    return g >= nbFrames;
  }

  /** Moves the pointer of every later frame to its next extension, and that of frame `f` to `i`. */
  method AdvanceLater(exts: seq<Extension>, nbFrames: nat, f: nat, i: nat, frameRepeatIdx: array<nat>,
                      frameMaxIdx: array<nat>, ghost k: nat)
    requires f < nbFrames <= frameRepeatIdx.Length && nbFrames <= frameMaxIdx.Length && frameRepeatIdx != frameMaxIdx
    requires AllPoint(exts, frameRepeatIdx, f + 1, nbFrames, k) && AllPast(exts, frameMaxIdx, nbFrames)
    requires forall g :: f < g < nbFrames ==> k < Rank(exts, g, |exts|)
    modifies frameRepeatIdx
    ensures AllPoint(exts, frameRepeatIdx, f + 1, nbFrames, k + 1)
    ensures AllPast(exts, frameMaxIdx, nbFrames) && frameRepeatIdx[f] == i
  {
    hide Rank;
    for g := f + 1 to nbFrames
      invariant AllPoint(exts, frameRepeatIdx, f + 1, g, k + 1) && AllPoint(exts, frameRepeatIdx, g, nbFrames, k)
    {
      assert Points(exts, g, frameRepeatIdx[g], k) && PastLast(exts, g, frameMaxIdx[g]);
      var j := NextOfFrame(exts, g, frameRepeatIdx[g], frameMaxIdx[g], k);
      frameRepeatIdx[g] := j;
    }
    frameRepeatIdx[f] := i;
  }

  method NextOfFrame(exts: seq<Extension>, g: nat, p: nat, last: nat, ghost k: nat) returns (j: nat)
    requires Points(exts, g, p, k) && PastLast(exts, g, last) && k < Rank(exts, g, |exts|)
    ensures Points(exts, g, j, k + 1)
  {
    PastLastIff(exts, g, last, p);
    j := p + 1;
    while j < last && exts[j].frame != g
      invariant p < j <= last && Rank(exts, g, j) == k + 1
    {
      j := j + 1;
    }
    PastLastIff(exts, g, last, j);
  }

  lemma LastLongNone(exts: seq<Extension>, q: Frames, f: nat, d: nat)
    requires f < |q| && d <= |q[f]|
    ensures LastLongIs(exts, q, f, d, d, NoIndex, 0)
  {}

  lemma ShrinkPoint(exts: seq<Extension>, idx: array<nat>, f: nat, nbFrames: nat, k: nat)
    requires f < nbFrames <= idx.Length && AllPoint(exts, idx, f, nbFrames, k)
    ensures AllPoint(exts, idx, f + 1, nbFrames, k)
  {}

  /** An extension of frame `f` is the one that its rank says; one of another frame has no rank there. */
  lemma PositionAt(exts: seq<Extension>, nbFrames: nat, f: nat, i: nat, maxIdx: array<nat>)
    requires AllValid(exts, nbFrames) && f < nbFrames <= maxIdx.Length && AllPast(exts, maxIdx, nbFrames)
    requires i < maxIdx[f]
    ensures i < |exts| && ValidExtension(exts[i], nbFrames)
    ensures exts[i].frame == f ==>
              && Rank(exts, f, i) < |FramesOf(exts, nbFrames)[f]|
              && FramesOf(exts, nbFrames)[f][Rank(exts, f, i)] == Cut(exts[i])
    ensures Rank(exts, f, i + 1) == Rank(exts, f, i) + if exts[i].frame == f then 1 else 0
  {
    assert PastLast(exts, f, maxIdx[f]);
    if exts[i].frame == f {
      SelectAt(exts, nbFrames, f, i, |exts|);
    }
  }

  lemma PositionEnd(exts: seq<Extension>, nbFrames: nat, f: nat, i: nat, maxIdx: array<nat>)
    requires AllValid(exts, nbFrames) && f < nbFrames <= maxIdx.Length && AllPast(exts, maxIdx, nbFrames)
    requires maxIdx[f] <= i <= |exts|
    ensures Rank(exts, f, i) == |FramesOf(exts, nbFrames)[f]|
  {
    assert PastLast(exts, f, maxIdx[f]);
    PastLastIff(exts, f, maxIdx[f], i);
    RankGrows(exts, f, i, |exts|);
    SelectIs(exts, nbFrames, f, |exts|);
  }

  lemma RepeatEndStep(q: Frames, f: nat, k: nat)
    requires f < |q| && k <= |q[f]|
    ensures k == |q[f]| ==> RepeatEnd(q, f, k) == k
    ensures k < |q[f]| ==> RepeatEnd(q, f, k) == if Repeatable(q, f, k) then RepeatEnd(q, f, k + 1) else k
  {}

  lemma RepeatableReach(exts: seq<Extension>, nbFrames: nat, f: nat, k: nat)
    requires AllValid(exts, nbFrames) && f < nbFrames && Repeatable(FramesOf(exts, nbFrames), f, k)
    ensures forall g :: f < g < nbFrames ==> k < |FramesOf(exts, nbFrames)[g]| == Rank(exts, g, |exts|)
  {
    forall g | f < g < nbFrames
      ensures k < |FramesOf(exts, nbFrames)[g]| == Rank(exts, g, |exts|)
    {
      SelectIs(exts, nbFrames, g, |exts|);
    }
  }

  /** Finds how many extensions of frame `f`, from its extension `d` on, can be repeated in every
      later frame, and leaves the pointers of those frames behind them. */
  method FindRepeats(exts: seq<Extension>, nbFrames: nat, f: nat, frameMinIdx: array<nat>, frameMaxIdx: array<nat>,
                     frameRepeatIdx: array<nat>, ghost d: nat)
    returns (repeatCount: nat, lastLongIdx: Index, ghost m: nat)
    requires AllValid(exts, nbFrames) && f + 1 < nbFrames
    requires frameMinIdx.Length == frameMaxIdx.Length == frameRepeatIdx.Length == MAX_FRAMES_PER_PACKET >= nbFrames
    requires frameRepeatIdx != frameMaxIdx && frameRepeatIdx != frameMinIdx
    requires AllPoint(exts, frameMinIdx, f, nbFrames, d) && AllPoint(exts, frameRepeatIdx, f, nbFrames, d)
    requires AllPast(exts, frameMaxIdx, nbFrames)
    requires d <= |FramesOf(exts, nbFrames)[f]|
    modifies frameRepeatIdx
    ensures d + repeatCount == RepeatEnd(FramesOf(exts, nbFrames), f, d)
    ensures AllPoint(exts, frameRepeatIdx, f + 1, nbFrames, d + repeatCount)
    ensures repeatCount > 0 ==>
              && frameRepeatIdx[f] < |exts| && exts[frameRepeatIdx[f]].frame == f
              && Rank(exts, f, frameRepeatIdx[f]) == d + repeatCount - 1
    ensures LastLongIs(exts, FramesOf(exts, nbFrames), f, d, d + repeatCount, lastLongIdx, m)
    ensures repeatCount == 0 ==>
              forall g :: 0 <= g < frameRepeatIdx.Length ==> frameRepeatIdx[g] == old(frameRepeatIdx[g])
  {
    hide AllPoint, FramesOf, Rank, PastLast, LastLongIs, AllPast, RepeatEnd, Repeatable, HasLongExt, ValidExtension,
         AllValid;
    ghost var q := FramesOf(exts, nbFrames);
    repeatCount, lastLongIdx, m := 0, NoIndex, 0;
    PointsAtFrame(exts, nbFrames, frameMinIdx, frameMaxIdx, f, d, f);
    LastLongNone(exts, q, f, d);
    ShrinkPoint(exts, frameRepeatIdx, f, nbFrames, d);
    var i := frameMinIdx[f];
    while i < frameMaxIdx[f]
      invariant d + repeatCount <= |q[f]| && RepeatEnd(q, f, d) == RepeatEnd(q, f, d + repeatCount)
      invariant i <= |exts| && Rank(exts, f, i) == d + repeatCount
      invariant AllPoint(exts, frameRepeatIdx, f + 1, nbFrames, d + repeatCount) && AllPast(exts, frameMaxIdx, nbFrames)
      invariant repeatCount > 0 ==>
                  && frameRepeatIdx[f] < |exts| && exts[frameRepeatIdx[f]].frame == f
                  && Rank(exts, f, frameRepeatIdx[f]) == d + repeatCount - 1
      invariant LastLongIs(exts, q, f, d, d + repeatCount, lastLongIdx, m)
      invariant repeatCount == 0 ==>
                  forall g :: 0 <= g < frameRepeatIdx.Length ==> frameRepeatIdx[g] == old(frameRepeatIdx[g])
      decreases |exts| - i
    {
      ghost var k := d + repeatCount;
      PositionAt(exts, nbFrames, f, i, frameMaxIdx);
      if exts[i].frame == f {
        var all := MatchLater(exts, nbFrames, f, i, frameRepeatIdx, frameMaxIdx, k);
        RepeatEndStep(q, f, k);
        if !all {
          return;
        }
        RepeatableReach(exts, nbFrames, f, k);
        PointsAtFrame(exts, nbFrames, frameRepeatIdx, frameMaxIdx, f + 1, k, nbFrames - 1);
        LastLongStep(exts, q, f, d, k, lastLongIdx, m, frameRepeatIdx[nbFrames - 1]);
        if exts[i].id >= 32 {
          lastLongIdx := Index(frameRepeatIdx[nbFrames - 1]);
          m := k;
        }
        AdvanceLater(exts, nbFrames, f, i, frameRepeatIdx, frameMaxIdx, k);
        repeatCount := repeatCount + 1;
      }
      i := i + 1;
    }
    PositionEnd(exts, nbFrames, f, i, frameMaxIdx);
    RepeatEndStep(q, f, d + repeatCount);
  }
}
