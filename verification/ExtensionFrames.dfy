/** Sorting an unordered list of extensions by frame, and pointers into that list. */
module ExtensionFrames {
  import opened ExtensionSyntax
  import opened ExtensionEncoding

  /** What the writer checks of an extension. */
  predicate ValidExtension(e: Extension, nbFrames: nat) {
    && 3 <= e.id <= 127 && 0 <= e.frame < nbFrames
    && (if e.id < 32 then 0 <= e.len <= 1 else 0 <= e.len)
    && (e.len > 0 ==> e.len <= |e.data|)
  }

  ghost predicate AllValid(exts: seq<Extension>, nbFrames: nat) {
    forall i :: 0 <= i < |exts| ==> ValidExtension(exts[i], nbFrames)
  }

  /** An extension cut to the bytes that belong to it. */
  function Cut(e: Extension): Extension
    requires 0 <= e.len <= |e.data|
  {
    e.(data := e.data[..e.len])
  }

  /** How many of the first `i` extensions belong to frame `g`. */
  function Rank(exts: seq<Extension>, g: int, i: nat): nat
    requires i <= |exts|
  {
    if i == 0 then 0 else Rank(exts, g, i - 1) + if exts[i - 1].frame == g then 1 else 0
  }

  /** The extensions of frame `g` among the first `i`, in order. */
  function Select(exts: seq<Extension>, g: int, i: nat): seq<Extension>
    requires i <= |exts| && forall k :: 0 <= k < i ==> 0 <= exts[k].len <= |exts[k].data|
  {
    if i == 0 then []
    else if exts[i - 1].frame == g then Select(exts, g, i - 1) + [Cut(exts[i - 1])]
    else Select(exts, g, i - 1)
  }

  /** The extensions of every frame, in input order. */
  ghost function FramesOf(exts: seq<Extension>, nbFrames: nat): (q: Frames)
    requires AllValid(exts, nbFrames)
    ensures |q| == nbFrames
  {
    seq(nbFrames, g requires 0 <= g => Select(exts, g, |exts|))
  }

  lemma {:induction false} SelectIs(exts: seq<Extension>, nbFrames: nat, g: nat, i: nat)
    requires AllValid(exts, nbFrames) && i <= |exts|
    ensures |Select(exts, g, i)| == Rank(exts, g, i)
    ensures AllWritable(Select(exts, g, i)) && InFrame(Select(exts, g, i), g)
  {
    if i > 0 {
      SelectIs(exts, nbFrames, g, i - 1);
      assert ValidExtension(exts[i - 1], nbFrames);
    }
  }

  lemma FramesWritable(exts: seq<Extension>, nbFrames: nat)
    requires AllValid(exts, nbFrames)
    ensures WritableFrames(FramesOf(exts, nbFrames))
  {
    forall g | 0 <= g < nbFrames
      ensures AllWritable(FramesOf(exts, nbFrames)[g]) && InFrame(FramesOf(exts, nbFrames)[g], g)
    {
      SelectIs(exts, nbFrames, g, |exts|);
    }
  }

  lemma {:induction false} RankGrows(exts: seq<Extension>, g: int, i: nat, j: nat)
    requires i <= j <= |exts|
    ensures Rank(exts, g, i) <= Rank(exts, g, j)
    decreases j - i
  {
    if i < j {
      RankGrows(exts, g, i, j - 1);
    }
  }

  /** The extension at `i` is the one that its rank says. */
  lemma {:induction false} SelectAt(exts: seq<Extension>, nbFrames: nat, g: nat, i: nat, j: nat)
    requires AllValid(exts, nbFrames) && i < j <= |exts| && exts[i].frame == g
    ensures Rank(exts, g, i) < |Select(exts, g, j)| && Select(exts, g, j)[Rank(exts, g, i)] == Cut(exts[i])
    decreases j
  {
    SelectIs(exts, nbFrames, g, j - 1);
    assert ValidExtension(exts[j - 1], nbFrames);
    if i < j - 1 {
      SelectAt(exts, nbFrames, g, i, j - 1);
    }
  }

  /** `p` names extension `k` of frame `g`, or is past the last one when there are only `k`. */
  ghost predicate Points(exts: seq<Extension>, g: nat, p: nat, k: nat) {
    && p <= |exts| && Rank(exts, g, p) == k
    && (k < Rank(exts, g, |exts|) ==> p < |exts| && exts[p].frame == g)
  }

  /** `p` is just past the last extension of frame `g`. */
  ghost predicate PastLast(exts: seq<Extension>, g: nat, p: nat) {
    && p <= |exts| && Rank(exts, g, p) == Rank(exts, g, |exts|)
    && (p > 0 ==> exts[p - 1].frame == g)
  }

  lemma PastLastIff(exts: seq<Extension>, g: nat, last: nat, p: nat)
    requires PastLast(exts, g, last) && p <= |exts|
    ensures p < last <==> Rank(exts, g, p) < Rank(exts, g, |exts|)
  {
    if p < last {
      RankGrows(exts, g, p, last - 1);
    } else {
      RankGrows(exts, g, last, p);
      RankGrows(exts, g, p, |exts|);
    }
  }

  /** What a pointer that is not exhausted leads to. */
  lemma PointsAt(exts: seq<Extension>, nbFrames: nat, g: nat, p: nat, k: nat, last: nat)
    requires AllValid(exts, nbFrames) && g < nbFrames && Points(exts, g, p, k) && PastLast(exts, g, last)
    ensures |FramesOf(exts, nbFrames)[g]| == Rank(exts, g, |exts|) && k <= |FramesOf(exts, nbFrames)[g]|
    ensures p < last <==> k < |FramesOf(exts, nbFrames)[g]|
    ensures p < last ==> p < |exts| && exts[p].frame == g && ValidExtension(exts[p], nbFrames)
                         && FramesOf(exts, nbFrames)[g][k] == Cut(exts[p])
  {
    SelectIs(exts, nbFrames, g, |exts|);
    RankGrows(exts, g, p, |exts|);
    PastLastIff(exts, g, last, p);
    if p < last {
      SelectAt(exts, nbFrames, g, p, |exts|);
    }
  }

  lemma RankStrict(exts: seq<Extension>, g: nat, i: nat, j: nat)
    requires i < j <= |exts| && exts[i].frame == g
    ensures Rank(exts, g, i) < Rank(exts, g, j)
  {
    RankGrows(exts, g, i + 1, j);
  }

  /** Two positions of the same frame with the same rank are the same. */
  lemma SameRank(exts: seq<Extension>, g: nat, i: nat, j: nat)
    requires i < |exts| && j < |exts| && exts[i].frame == g && exts[j].frame == g
    requires Rank(exts, g, i) == Rank(exts, g, j)
    ensures i == j
  {
    if i < j {
      RankStrict(exts, g, i, j);
    } else if j < i {
      RankStrict(exts, g, j, i);
    }
  }

  function Min(a: nat, b: nat): nat {
    if a < b then a else b
  }

  function Max(a: nat, b: nat): nat {
    if a > b then a else b
  }

  /** Finds the first and the last extension of every frame, and checks all of them on the way. */
  method ScanExtensions(exts: seq<Extension>, nbFrames: nat)
    returns (ok: bool, frameMinIdx: array<nat>, frameMaxIdx: array<nat>)
    requires nbFrames <= MAX_FRAMES_PER_PACKET
    ensures fresh(frameMinIdx) && fresh(frameMaxIdx) && frameMinIdx != frameMaxIdx
    ensures frameMinIdx.Length == frameMaxIdx.Length == MAX_FRAMES_PER_PACKET
    ensures ok <==> AllValid(exts, nbFrames)
    ensures ok ==> forall g :: 0 <= g < nbFrames ==>
                     Points(exts, g, frameMinIdx[g], 0) && PastLast(exts, g, frameMaxIdx[g])
  {
    var n := |exts|;
    frameMinIdx := new nat[MAX_FRAMES_PER_PACKET](_ => n);
    frameMaxIdx := new nat[MAX_FRAMES_PER_PACKET](_ => 0);
    for i := 0 to n
      invariant AllValid(exts[..i], nbFrames)
      invariant forall g :: 0 <= g < nbFrames ==> SeenOk(exts, g, i, frameMinIdx[g], frameMaxIdx[g])
    {
      var ext := exts[i];
      assert exts[..i + 1] == exts[..i] + [ext];
      if !(3 <= ext.id <= 127) || ext.frame < 0 || ext.frame >= nbFrames
         || (if ext.id < 32 then ext.len < 0 || ext.len > 1 else ext.len < 0)
         || (ext.len > 0 && |ext.data| < ext.len) {
        assert !ValidExtension(exts[i], nbFrames);
        return false, frameMinIdx, frameMaxIdx;
      }
      var frame := ext.frame;
      frameMinIdx[frame] := Min(frameMinIdx[frame], i);
      frameMaxIdx[frame] := Max(frameMaxIdx[frame], i + 1);
    }
    assert exts[..n] == exts;
    return true, frameMinIdx, frameMaxIdx;
  }

  /** The first and last extension of frame `g` among the first `i`. */
  ghost predicate SeenOk(exts: seq<Extension>, g: nat, i: nat, lo: nat, hi: nat)
    requires i <= |exts|
  {
    && hi <= i && Rank(exts, g, hi) == Rank(exts, g, i) && (hi > 0 ==> exts[hi - 1].frame == g)
    && (if Rank(exts, g, i) == 0 then lo == |exts| else lo < i && exts[lo].frame == g && Rank(exts, g, lo) == 0)
  }
}
