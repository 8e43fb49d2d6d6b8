/** Reading back everything the writer wrote: the reference decoder on the bytes of Encode. */
module ExtensionRoundTrip {
  import opened ExtensionSyntax
  import opened ExtensionDecoding
  import opened ExtensionEncoding
  import opened ExtensionReading

  ghost predicate Silent(src: seq<byte>) {
    forall i :: 0 <= i < |src| ==> src[i] <= 3
  }

  // ----- the pieces of a frame -----

  /** The five pieces of a frame that has something to write. */
  ghost predicate FrameAt(data: seq<byte>, pos: nat, q: Frames, f: nat, d: nat, curr: nat, e: nat, p1: nat, p2: nat,
                          p3: nat, p4: nat)
    requires WritableFrames(q) && |q| <= MAX_FRAMES_PER_PACKET && f < |q| && curr <= f && d <= e && AllReach(q, f, e)
  {
    && At(data, pos, SeparatorBytes(f - curr)) && p1 == pos + |SeparatorBytes(f - curr)|
    && At(data, p1, RunBytes(q[f], d, e, false)) && p2 == p1 + |RunBytes(q[f], d, e, false)|
    && At(data, p2, RepeatBlock(q, f, d, e)) && p3 == p2 + |RepeatBlock(q, f, d, e)|
    && At(data, p3, RunBytes(q[f], e, |q[f]|, AllEnd(q, f + 1, e)))
    && p4 == p3 + |RunBytes(q[f], e, |q[f]|, AllEnd(q, f + 1, e))|
    && At(data, p4, EncodeFrom(q, f + 1, e, FrameAfter(q, f, d, e)))
    && |data| == p4 + |EncodeFrom(q, f + 1, e, FrameAfter(q, f, d, e))|
  }

  lemma SplitFive(data: seq<byte>, pos: nat, s: seq<byte>, a: seq<byte>, b: seq<byte>, z: seq<byte>, w: seq<byte>)
    returns (p1: nat, p2: nat, p3: nat, p4: nat)
    requires At(data, pos, s + a + b + z + w)
    ensures At(data, pos, s) && p1 == pos + |s| && At(data, p1, a) && p2 == p1 + |a| && At(data, p2, b)
    ensures p3 == p2 + |b|
    ensures At(data, p3, z) && p4 == p3 + |z| && At(data, p4, w)
    ensures p4 + |w| == pos + |s + a + b + z + w|
  {
    hide At;
    AtSplit(data, pos, s + a + b + z, w);
    AtSplit(data, pos, s + a + b, z);
    AtSplit(data, pos, s + a, b);
    AtSplit(data, pos, s, a);
    p1, p2, p3, p4 := pos + |s|, pos + |s| + |a|, pos + |s| + |a| + |b|, pos + |s| + |a| + |b| + |z|;
  }

  lemma FrameSplit(data: seq<byte>, pos: nat, q: Frames, f: nat, d: nat, curr: nat)
    returns (e: nat, p1: nat, p2: nat, p3: nat, p4: nat)
    requires WritableFrames(q) && |q| <= MAX_FRAMES_PER_PACKET && f < |q| && curr <= f && d < |q[f]|
    requires AllReach(q, f, d)
    requires At(data, pos, EncodeFrom(q, f, d, curr)) && pos + |EncodeFrom(q, f, d, curr)| == |data|
    ensures e == RepeatEnd(q, f, d) && d <= e && AllReach(q, f, e)
    ensures FrameAt(data, pos, q, f, d, curr, e, p1, p2, p3, p4)
  {
    hide At, RunBytes, SeparatorBytes, RepeatBlock;
    e := RepeatEnd(q, f, d);
    RepeatReach(q, f, d);
    p1, p2, p3, p4 := SplitFive(data, pos, SeparatorBytes(f - curr), RunBytes(q[f], d, e, false),
                                RepeatBlock(q, f, d, e), RunBytes(q[f], e, |q[f]|, AllEnd(q, f + 1, e)),
                                EncodeFrom(q, f + 1, e, FrameAfter(q, f, d, e)));
  }

  /** The reader at a separator. */
  lemma SeparatorRead(data: seq<byte>, pos: nat, f: nat, curr: nat, src: seq<byte>, c: Config)
    requires curr <= f < c.nbFrames == c.frameMax <= MAX_FRAMES_PER_PACKET
    requires At(data, pos, SeparatorBytes(f - curr))
    ensures pos + |SeparatorBytes(f - curr)| <= |data|
    ensures Decode(data, pos, |data|, curr, src, c)
         == Decode(data, pos + |SeparatorBytes(f - curr)|, |data|, f, if curr == f then src else [], c)
  {
    var w := SeparatorBytes(f - curr);
    if f - curr == 1 {
      assert data[pos + 0] == w[0];
    } else if f - curr > 1 {
      assert data[pos + 0] == w[0] && data[pos + 1] == w[1];
    }
  }

  lemma {:induction false} YieldRepeatNone(q: Frames, d: nat, g: nat, t: Trace)
    requires AllReach(q, g, d)
    ensures YieldRepeat(q, d, d, g, t) == t
    decreases |q| - g
  {
    if g < |q| {
      YieldRepeatNone(q, d, g + 1, t);
    }
  }

  lemma {:induction false} NothingLeft(q: Frames, f: nat, d: nat, curr: nat)
    requires WritableFrames(q) && |q| <= MAX_FRAMES_PER_PACKET && AllReach(q, f, d) && curr <= f && AllEnd(q, f, d)
    ensures EncodeFrom(q, f, d, curr) == [] && TraceFrom(q, f, d) == Finished
    decreases |q| - f
  {
    if f < |q| {
      YieldRepeatNone(q, d, f + 1, TraceFrom(q, f + 1, d));
      NothingLeft(q, f + 1, d, curr);
    }
  }

  lemma {:induction false} IdRunSize(es: seq<Extension>, i: nat, j: nat)
    requires AllWritable(es) && i <= j <= |es|
    ensures |IdRun(es, i, j)| == j - i
    decreases j - i
  {
    hide IdByte, AllWritable;
    if i < j {
      IdRunSize(es, i + 1, j);
    }
  }

  lemma {:induction false} IdRunAt(es: seq<Extension>, i: nat, j: nat, k: nat)
    requires AllWritable(es) && i <= k < j <= |es|
    ensures |IdRun(es, i, j)| == j - i && IdRun(es, i, j)[k - i] == IdByte(es[k], false)
    decreases j - i
  {
    hide IdByte, AllWritable;
    IdRunSize(es, i, j);
    if i < k {
      IdRunAt(es, i + 1, j, k);
    }
  }

  lemma SourceBuilt(p: seq<byte>, es: seq<Extension>, d: nat, e: nat)
    requires Silent(p) && AllWritable(es) && d <= e <= |es|
    ensures SourceIs(p + IdRun(es, d, e), |p|, es, d, e)
  {
    hide IdByte, IdRun;
    IdRunSize(es, d, e);
    forall k | d <= k < e
      ensures (p + IdRun(es, d, e))[|p| + k - d] == IdByte(es[k], false)
    {
      IdRunAt(es, d, e, k);
    }
  }

  lemma RepeatableIds(q: Frames, f: nat, d: nat, g: nat)
    requires f < g < |q| && d <= |q[f]| && AllReach(q, f, d)
    ensures SameIds(q[f], q[g], d, RepeatEnd(q, f, d))
  {
    RepeatEndIs(q, f, d);
    RepeatReach(q, f, d);
    var e := RepeatEnd(q, f, d);
    forall k | d <= k < e
      ensures Compatible(q[f][k], q[g][k])
    {
      assert Repeatable(q, f, k);
    }
  }

  /** A repeat is never in the last frame. */
  lemma RepeatHasLaterFrames(q: Frames, f: nat, d: nat)
    requires f < |q| && d <= |q[f]| && d < RepeatEnd(q, f, d)
    ensures f + 1 < |q|
  {
    RepeatEndIs(q, f, d);
    assert Repeatable(q, f, d);
  }

  lemma IndicatorRead(data: seq<byte>, pos: nat, frame: nat, src: seq<byte>, c: Config, last: bool, w: seq<byte>)
    requires At(data, pos, [IndicatorByte(last)] + w)
    ensures pos + 1 <= |data| && At(data, pos + 1, w)
    ensures Decode(data, pos, |data|, frame, src, c)
         == Replay(data, pos + 1, |data|, frame, src, 0, if last then 0 else 1, frame + 1, false, c)
  {
    AtSplit(data, pos, [IndicatorByte(last)], w);
    assert data[pos + 0] == [IndicatorByte(last)][0];
  }

  lemma ReplayEnds(s: Stand, pos: nat, q: Frames, resumed: bool, next: nat)
    requires s.Ok() && s.end == |s.data| && pos <= s.end && s.c.nbFrames == |q|
    requires next == (if s.l == 0 then s.frame + 1 else s.frame) && next < |q|
    ensures s.From(pos, 0, |q|, resumed) == Decode(s.data, pos, |s.data|, next, [], s.c)
  {}

  /** The reader at a repeat of the extensions `d..e` of frame `f`. */
  lemma RepeatBlockRead(data: seq<byte>, pos: nat, q: Frames, f: nat, d: nat, e: nat, p: seq<byte>, c: Config)
    requires WritableFrames(q) && f < |q| && AllReach(q, f, d) && d < e == RepeatEnd(q, f, d) && AllReach(q, f, e)
    requires c == Config(|q|, |q|) && Silent(p)
    requires At(data, pos, RepeatBlock(q, f, d, e))
    requires AllEnd(q, f, e) ==> pos + |RepeatBlock(q, f, d, e)| == |data|
    ensures pos + |RepeatBlock(q, f, d, e)| <= |data|
    ensures Decode(data, pos, |data|, f, p + IdRun(q[f], d, e), c)
         == YieldRepeat(q, d, e, f + 1,
                        Decode(data, pos + |RepeatBlock(q, f, d, e)|, |data|, FrameAfter(q, f, d, e), [], c))
  {
    hide At, Decode, Replay, RepeatBytes, IdRun, SourceIs, Stand.From, YieldRepeat, HasLongExt, IndicatorByte;
    var last := RepeatIsLast(q, f, d, e);
    var src := p + IdRun(q[f], d, e);
    var s := Stand(data, |data|, f, src, |p|, if last then 0 else 1, c);
    var w := RepeatBytes(q, d, e, f + 1, last);
    RepeatHasLaterFrames(q, f, d);
    IndicatorRead(data, pos, f, src, c, last, w);
    SourceBuilt(p, q[f], d, e);
    forall g | f < g < |q|
      ensures SameIds(q[f], q[g], d, e)
    {
      RepeatableIds(q, f, d, g);
    }
    BlockStand(s, q, f, d, e, last);
    BlockLength(data, pos, q, f, d, e);
    RepeatRead(s, pos + 1, q, f, d, e, last, f + 1, false);
    ReplayEnds(s, pos + 1 + |w|, q, true, FrameAfter(q, f, d, e));
    StandFrom(s, pos + 1);
  }

  lemma StandFrom(s: Stand, pos: nat)
    requires pos <= s.end <= |s.data|
    ensures s.From(pos, 0, s.frame + 1, false)
         == Replay(s.data, pos, s.end, s.frame, s.src, 0, s.l, s.frame + 1, false, s.c)
  {}

  lemma BlockStand(s: Stand, q: Frames, f: nat, d: nat, e: nat, last: bool)
    requires s.c == Config(|q|, |q|) && s.frame == f < |q| && WritableFrames(q) && d < e && AllReach(q, f, e)
    requires forall g :: f < g < |q| ==> SameIds(q[f], q[g], d, e)
    requires SourceIs(s.src, s.base, q[f], d, e) && (s.l == 0 <==> last) && s.end <= |s.data|
    ensures RepeatOk(s, q, f, d, e, last) && s.Ok()
  {}

  lemma BlockLength(data: seq<byte>, pos: nat, q: Frames, f: nat, d: nat, e: nat)
    requires WritableFrames(q) && f < |q| && d < e && AllReach(q, f, e)
    requires At(data, pos, RepeatBlock(q, f, d, e))
    ensures |RepeatBlock(q, f, d, e)| == 1 + |RepeatBytes(q, d, e, f + 1, RepeatIsLast(q, f, d, e))|
    ensures pos + |RepeatBlock(q, f, d, e)| <= |data|
  {}

  lemma FrameAfterIs(q: Frames, f: nat, d: nat, e: nat)
    requires f < |q| && d <= e <= |q[f]|
    ensures FrameAfter(q, f, d, e) == f || (FrameAfter(q, f, d, e) == f + 1 && e == |q[f]| && d < e)
  {}

  /** The last piece but one: the extensions of the frame that are not repeated. */
  lemma RestRead(data: seq<byte>, pos: nat, q: Frames, f: nat, d: nat, e: nat, src: seq<byte>, c: Config, p4: nat)
    requires WritableFrames(q) && |q| <= MAX_FRAMES_PER_PACKET && f < |q| && d <= e && AllReach(q, f, e)
    requires c == Config(|q|, |q|)
    requires At(data, pos, RunBytes(q[f], e, |q[f]|, AllEnd(q, f + 1, e)))
    requires p4 == pos + |RunBytes(q[f], e, |q[f]|, AllEnd(q, f + 1, e))|
    requires p4 + |EncodeFrom(q, f + 1, e, FrameAfter(q, f, d, e))| == |data|
    requires var src' := if FrameAfter(q, f, d, e) == f then src + IdRun(q[f], e, |q[f]|) else src;
             Decode(data, p4, |data|, FrameAfter(q, f, d, e), src', c) == TraceFrom(q, f + 1, e)
    ensures pos <= |data|
    ensures Decode(data, pos, |data|, FrameAfter(q, f, d, e), src, c)
         == YieldRun(q[f], e, |q[f]|, TraceFrom(q, f + 1, e))
  {
    hide At, Decode, RunBytes, IdRun, EncodeFrom, TraceFrom, FrameAfter, AllEnd;
    FrameAfterIs(q, f, d, e);
    var r := Reader(data, |data|, f, c);
    if FrameAfter(q, f, d, e) == f + 1 {
      RunEmpty(q[f], e, AllEnd(q, f + 1, e));
    } else if AllEnd(q, f + 1, e) {
      NothingLeft(q, f + 1, e, FrameAfter(q, f, d, e));
      LastRunRead(r, pos, src, q[f], e, |q[f]|);
    } else {
      RunRead(r, pos, src, q[f], e, |q[f]|);
    }
  }

  /** The reader at everything the writer puts down from frame `f` on. */
  lemma {:induction false} FramesRead(data: seq<byte>, pos: nat, q: Frames, f: nat, d: nat, curr: nat, src: seq<byte>)
    requires WritableFrames(q) && |q| <= MAX_FRAMES_PER_PACKET && AllReach(q, f, d) && curr <= f
    requires At(data, pos, EncodeFrom(q, f, d, curr)) && pos + |EncodeFrom(q, f, d, curr)| == |data|
    requires curr == f ==> Silent(src)
    ensures Decode(data, pos, |data|, curr, src, Config(|q|, |q|)) == TraceFrom(q, f, d)
    decreases |q| - f
  {
    hide At, Decode, RunBytes, IdRun, RepeatBlock, FrameAfter, SeparatorBytes, AllEnd, YieldRun, YieldRepeat, Silent,
         RepeatEnd;
    var c := Config(|q|, |q|);
    if f >= |q| {
      DecodeAtEnd(data, curr, src, c);
    } else if d == |q[f]| {
      FrameSkipped(q, f, d);
      FramesRead(data, pos, q, f + 1, d, curr, src);
    } else {
      var e, p1, p2, p3, p4 := FrameSplit(data, pos, q, f, d, curr);
      var p := if curr == f then src else [];
      SilentEmpty();
      SeparatorRead(data, pos, f, curr, src, c);
      var src2 := p + IdRun(q[f], d, e);
      var src3 := if d == e then src2 else [];
      var curr' := FrameAfter(q, f, d, e);
      FrameAfterIs(q, f, d, e);
      var src4 := if curr' == f then src3 + IdRun(q[f], e, |q[f]|) else src3;
      FramesRead(data, p4, q, f + 1, e, curr', src4);
      RestRead(data, p3, q, f, d, e, src3, c, p4);
      RunRead(Reader(data, |data|, f, c), p1, p, q[f], d, e);
      if AllEnd(q, f, e) {
        BlockIsFinal(q, f, d, e);
      }
      BlockRead(data, p2, q, f, d, e, p, c, p3);
    }
  }

  /** Nothing is written behind a repeat that exhausts every frame. */
  lemma BlockIsFinal(q: Frames, f: nat, d: nat, e: nat)
    requires WritableFrames(q) && |q| <= MAX_FRAMES_PER_PACKET && f < |q| && d <= e && AllReach(q, f, e)
    requires AllEnd(q, f, e)
    ensures RunBytes(q[f], e, |q[f]|, AllEnd(q, f + 1, e)) == []
    ensures EncodeFrom(q, f + 1, e, FrameAfter(q, f, d, e)) == []
  {
    NothingLeft(q, f + 1, e, FrameAfter(q, f, d, e));
  }

  lemma DecodeAtEnd(data: seq<byte>, frame: nat, src: seq<byte>, c: Config)
    ensures Decode(data, |data|, |data|, frame, src, c) == Finished
  {}

  lemma SilentEmpty()
    ensures Silent([])
  {}

  /** A frame with nothing left is passed over. */
  lemma FrameSkipped(q: Frames, f: nat, d: nat)
    requires f < |q| && AllReach(q, f, d) && d == |q[f]|
    ensures TraceFrom(q, f, d) == TraceFrom(q, f + 1, d)
  {
    YieldRepeatNone(q, d, f + 1, TraceFrom(q, f + 1, d));
  }

  lemma BlockRead(data: seq<byte>, pos: nat, q: Frames, f: nat, d: nat, e: nat, p: seq<byte>, c: Config, p3: nat)
    requires WritableFrames(q) && f < |q| && AllReach(q, f, d) && d <= e == RepeatEnd(q, f, d) && AllReach(q, f, e)
    requires c == Config(|q|, |q|) && Silent(p)
    requires At(data, pos, RepeatBlock(q, f, d, e)) && p3 == pos + |RepeatBlock(q, f, d, e)|
    requires AllEnd(q, f, e) ==> p3 == |data|
    ensures p3 <= |data|
    ensures Decode(data, pos, |data|, f, p + IdRun(q[f], d, e), c)
         == YieldRepeat(q, d, e, f + 1,
                        Decode(data, p3, |data|, FrameAfter(q, f, d, e), if d == e then p + IdRun(q[f], d, e) else [],
                               c))
  {
    hide At, Decode, IdRun, YieldRepeat, Silent;
    if d < e {
      RepeatBlockRead(data, pos, q, f, d, e, p, c);
    } else {
      AtBound(data, pos, RepeatBlock(q, f, d, e));
      YieldRepeatNone(q, d, f + 1, Decode(data, p3, |data|, f, p + IdRun(q[f], d, e), c));
    }
  }

  lemma AtBound(data: seq<byte>, pos: nat, w: seq<byte>)
    requires At(data, pos, w)
    ensures pos + |w| <= |data|
  {}

  // ----- padding in front -----

  lemma {:induction false} PaddingRead(data: seq<byte>, pos: nat, n: nat, src: seq<byte>, c: Config)
    requires pos <= n <= |data| && Silent(src)
    requires forall i :: pos <= i < n ==> data[i] == 1
    ensures exists src' :: Silent(src') && Decode(data, pos, |data|, 0, src, c) == Decode(data, n, |data|, 0, src', c)
    decreases n - pos
  {
    if pos < n {
      PaddingStep(data, pos, src, c);
      PaddingRead(data, pos + 1, n, src + [1], c);
    }
  }

  lemma PaddingStep(data: seq<byte>, pos: nat, src: seq<byte>, c: Config)
    requires pos < |data| && data[pos] == 1 && Silent(src)
    ensures Silent(src + [1]) && Decode(data, pos, |data|, 0, src, c) == Decode(data, pos + 1, |data|, 0, src + [1], c)
  {}

  // ----- which extensions come back -----

  lemma {:induction false} RunOfFrame(es: seq<Extension>, h: nat, i: nat, j: nat, t: Trace, g: int)
    requires InFrame(es, h) && i <= j <= |es|
    ensures OfFrame(YieldRun(es, i, j, t), g) == (if g == h then es[i..j] else []) + OfFrame(t, g)
    ensures Complete(YieldRun(es, i, j, t)) == Complete(t)
    decreases j - i
  {
    if i < j {
      RunOfFrame(es, h, i + 1, j, t, g);
      GlueHead(es, i, j, OfFrame(t, g));
    }
  }

  lemma GlueHead(es: seq<Extension>, i: nat, j: nat, t: seq<Extension>)
    requires i < j <= |es|
    ensures [es[i]] + (es[i + 1..j] + t) == es[i..j] + t
  {}

  lemma {:induction false} RepeatOfFrame(q: Frames, d: nat, e: nat, h: nat, t: Trace, g: nat)
    requires WritableFrames(q) && AllReach(q, h, e) && d <= e && g < |q|
    ensures OfFrame(YieldRepeat(q, d, e, h, t), g) == (if h <= g then q[g][d..e] else []) + OfFrame(t, g)
    ensures Complete(YieldRepeat(q, d, e, h, t)) == Complete(t)
    decreases |q| - h
  {
    hide YieldRun, OfFrame, Complete, AllWritable, InFrame;
    if h < |q| {
      RepeatOfFrame(q, d, e, h + 1, t, g);
      RunOfFrame(q[h], h, d, e, YieldRepeat(q, d, e, h + 1, t), g);
    }
  }

  lemma GlueParts(es: seq<Extension>, d: nat, e: nat)
    requires d <= e <= |es|
    ensures es[d..e] + es[e..] == es[d..] && es[e..|es|] == es[e..]
  {}

  /** From frame `f` on, every frame gets back exactly what was not repeated earlier, in order. */
  lemma {:induction false} FramesRecovered(q: Frames, f: nat, d: nat, g: nat)
    requires WritableFrames(q) && AllReach(q, f, d) && g < |q|
    ensures OfFrame(TraceFrom(q, f, d), g) == if f <= g then q[g][d..] else []
    ensures Complete(TraceFrom(q, f, d))
    decreases |q| - f
  {
    hide YieldRun, YieldRepeat, OfFrame, AllWritable, InFrame, Complete, RepeatEnd, WritableFrames;
    if f >= |q| {
      NothingRecovered(g);
    } else {
      var e := RepeatEnd(q, f, d);
      RepeatReach(q, f, d);
      var t4 := TraceFrom(q, f + 1, e);
      var t3 := YieldRun(q[f], e, |q[f]|, t4);
      var t2 := YieldRepeat(q, d, e, f + 1, t3);
      FramesRecovered(q, f + 1, e, g);
      FrameWritable(q, f);
      RunOfFrame(q[f], f, e, |q[f]|, t4, g);
      RepeatOfFrame(q, d, e, f + 1, t3, g);
      RunOfFrame(q[f], f, d, e, t2, g);
      if f <= g {
        GlueParts(q[g], d, e);
      }
    }
  }

  lemma NothingRecovered(g: nat)
    ensures OfFrame(Finished, g) == [] && Complete(Finished)
  {}

  lemma FrameWritable(q: Frames, f: nat)
    requires WritableFrames(q) && f < |q|
    ensures AllWritable(q[f]) && InFrame(q[f], f)
  {}

  // ----- the round trip -----

  /** Reading padding followed by what was written gives every frame its extensions back, in order,
      and never fails. */
  lemma RoundTrip(q: Frames, data: seq<byte>, n: nat)
    requires WritableFrames(q) && |q| <= MAX_FRAMES_PER_PACKET
    requires n + |Encode(q)| == |data| && At(data, n, Encode(q)) && forall i :: 0 <= i < n ==> data[i] == 1
    ensures var t := DecodeAll(data, Config(|q|, |q|));
            Complete(t) && forall g :: 0 <= g < |q| ==> OfFrame(t, g) == q[g]
  {
    hide At, Decode, RepeatEnd, EncodeFrom, OfFrame, TraceFrom, WritableFrames, Complete;
    var c := Config(|q|, |q|);
    if |q| == 0 {
      NothingRecovered(0);
    } else {
      SilentEmpty();
      PaddingRead(data, 0, n, [], c);
      var src :| Silent(src) && Decode(data, 0, |data|, 0, [], c) == Decode(data, n, |data|, 0, src, c);
      FramesRead(data, n, q, 0, 0, 0, src);
      forall g | 0 <= g < |q|
        ensures OfFrame(TraceFrom(q, 0, 0), g) == q[g]
      {
        FramesRecovered(q, 0, 0, g);
        assert q[g][0..] == q[g];
      }
      FramesRecovered(q, 0, 0, 0);
    }
  }
}
