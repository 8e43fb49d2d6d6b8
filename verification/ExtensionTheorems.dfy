/** The generator, the iterator and the parsers together. */
module ExtensionTheorems {
  import opened ExtensionSyntax
  import opened ExtensionDecoding
  import opened ExtensionEncoding
  import opened ExtensionReading
  import opened ExtensionRoundTrip
  import opened ExtensionFrames
  import opened ExtensionGenerator
  import opened ExtensionLimits
  import opened ExtensionParsing

  /** `data` is what the generator makes of `exts`, in a buffer of `len` bytes and with or without padding. */
  ghost predicate Generated(exts: seq<Extension>, nbFrames: nat, len: nat, pad: bool, data: seq<byte>) {
    && AllValid(exts, nbFrames) && nbFrames <= MAX_FRAMES_PER_PACKET
    && |Encoded(exts, nbFrames)| <= len && data == Output(len, Encoded(exts, nbFrames), pad)
  }

  lemma OutputShape(len: nat, w: seq<byte>, pad: bool) returns (n: nat)
    requires |w| <= len
    ensures n + |w| == |Output(len, w, pad)| && At(Output(len, w, pad), n, w)
    ensures forall i :: 0 <= i < n ==> Output(len, w, pad)[i] == 1
  {
    n := if pad then len - |w| else 0;
  }

  /** Iterating over what was generated never fails and gives every frame its own input, in input
      order; nothing comes out for any other frame. */
  lemma GeneratedRead(exts: seq<Extension>, nbFrames: nat, len: nat, pad: bool, data: seq<byte>, g: int)
    requires Generated(exts, nbFrames, len, pad, data)
    ensures var t := DecodeAll(data, Config(nbFrames, nbFrames));
            && Complete(t)
            && OfFrame(t, g) == if 0 <= g < nbFrames then FramesOf(exts, nbFrames)[g] else []
  {
    hide Encode, Output, FramesOf, AllValid, DecodeAll, WritableFrames, OfFrame, Complete, At, AllFrom;
    FramesWritable(exts, nbFrames);
    var n := OutputShape(len, Encoded(exts, nbFrames), pad);
    RoundTrip(FramesOf(exts, nbFrames), data, n);
    if !(0 <= g < nbFrames) {
      var c := Config(nbFrames, nbFrames);
      LimitedFrames(data, c);
      NothingOutside(DecodeAll(data, c), c, g);
    }
  }

  lemma {:induction false} NothingOutside(t: Trace, c: Config, g: int)
    requires AllFrom(t, 0, c) && !(0 <= g < c.frameMax)
    ensures OfFrame(t, g) == []
  {
    if t.Yields? {
      NothingOutside(t.rest, c, g);
    }
  }

  // ----- sorting by frame -----

  ghost predicate FrameSorted(exts: seq<Extension>) {
    forall i, j :: 0 <= i <= j < |exts| ==> exts[i].frame <= exts[j].frame
  }

  lemma {:induction false} FrameIs(t: Trace, g: int, i: nat)
    requires i < |OfFrame(t, g)|
    ensures OfFrame(t, g)[i].frame == g
  {
    if t.ext.frame != g {
      FrameIs(t.rest, g, i);
    } else if i > 0 {
      FrameIs(t.rest, g, i - 1);
    }
  }

  lemma FrameAt(t: Trace, n: nat, i: nat)
    requires i < StartOf(t, n)
    ensures var g := SortedByFrame(t, n)[i].frame; 0 <= g < n && StartOf(t, g) <= i < StartOf(t, g + 1)
  {
    hide OfFrame, SortedByFrame;
    var g := FrameOfPosition(t, n, i);
    SortedAt(t, n, g, i - StartOf(t, g));
    FrameIs(t, g, i - StartOf(t, g));
  }

  lemma SortedPair(t: Trace, n: nat, i: nat, j: nat)
    requires i <= j < StartOf(t, n)
    ensures SortedByFrame(t, n)[i].frame <= SortedByFrame(t, n)[j].frame
  {
    hide OfFrame, SortedByFrame, StartOf;
    FrameAt(t, n, i);
    FrameAt(t, n, j);
    var a, b := SortedByFrame(t, n)[i].frame, SortedByFrame(t, n)[j].frame;
    if b < a {
      StartGrows(t, b + 1, a);
    }
  }

  lemma {:induction false} SortedContents(t: Trace, n: nat)
    requires t.Yields? && 0 <= t.ext.frame
    ensures multiset(SortedByFrame(t, n)) ==
              multiset(SortedByFrame(t.rest, n)) + if t.ext.frame < n then multiset{t.ext} else multiset{}
  {
    hide OfFrame;
    if n > 0 {
      SortedContents(t, n - 1);
      FrameContents(t, n - 1);
    }
  }

  lemma FrameContents(t: Trace, g: int)
    requires t.Yields?
    ensures multiset(OfFrame(t, g))
         == multiset(OfFrame(t.rest, g)) + if t.ext.frame == g then multiset{t.ext} else multiset{}
  {
    YieldOfFrame(t, g);
  }

  lemma {:induction false} SortedNothing(t: Trace, n: nat)
    requires !t.Yields?
    ensures SortedByFrame(t, n) == []
  {
    if n > 0 {
      SortedNothing(t, n - 1);
    }
  }

  lemma {:induction false} SortedPermutes(t: Trace, c: Config)
    requires AllFrom(t, 0, c) && c.frameMax == c.nbFrames
    ensures multiset(SortedByFrame(t, c.nbFrames)) == multiset(Extensions(t))
  {
    if t.Yields? {
      SortedPermutes(t.rest, c);
      SortedContents(t, c.nbFrames);
    } else {
      SortedNothing(t, c.nbFrames);
    }
  }

  /** Whatever the bytes, the sorted list is a permutation of what the iteration hands out, in frame
      order; within a frame the order is that of the iteration (SortedAt). */
  lemma SortedIsSort(data: seq<byte>, nbFrames: nat)
    ensures var t := DecodeAll(data, Config(nbFrames, nbFrames));
            FrameSorted(SortedByFrame(t, nbFrames)) && multiset(SortedByFrame(t, nbFrames)) == multiset(Extensions(t))
  {
    var t := DecodeAll(data, Config(nbFrames, nbFrames));
    LimitedFrames(data, Config(nbFrames, nbFrames));
    SortedPermutes(t, Config(nbFrames, nbFrames));
    forall i, j | 0 <= i <= j < StartOf(t, nbFrames)
      ensures SortedByFrame(t, nbFrames)[i].frame <= SortedByFrame(t, nbFrames)[j].frame
    {
      SortedPair(t, nbFrames, i, j);
    }
  }

  // ----- generating and then parsing -----

  ghost predicate LengthsOk(exts: seq<Extension>, n: nat) {
    n <= |exts| && forall k :: 0 <= k < n ==> 0 <= exts[k].len <= |exts[k].data|
  }

  /** Every extension cut to its length. */
  ghost function CutAll(exts: seq<Extension>, n: nat): (s: seq<Extension>)
    requires LengthsOk(exts, n)
    ensures |s| == n
  {
    if n == 0 then [] else CutAll(exts, n - 1) + [Cut(exts[n - 1])]
  }

  /** The first `i` extensions of the input, frame by frame. */
  ghost function ByFrame(exts: seq<Extension>, i: nat, n: nat): seq<Extension>
    requires LengthsOk(exts, i)
  {
    if n == 0 then [] else ByFrame(exts, i, n - 1) + Select(exts, n - 1, i)
  }

  lemma {:induction false} ByFrameNothing(exts: seq<Extension>, n: nat)
    ensures ByFrame(exts, 0, n) == []
  {
    if n > 0 {
      ByFrameNothing(exts, n - 1);
    }
  }

  lemma {:induction false} ByFrameCount(exts: seq<Extension>, i: nat, n: nat)
    requires 0 < i && LengthsOk(exts, i) && 0 <= exts[i - 1].frame
    ensures |ByFrame(exts, i, n)| == |ByFrame(exts, i - 1, n)| + if exts[i - 1].frame < n then 1 else 0
  {
    if n > 0 {
      ByFrameCount(exts, i, n - 1);
    }
  }

  /** Sorting by frame keeps every extension. */
  lemma {:induction false} ByFrameLength(exts: seq<Extension>, i: nat, n: nat)
    requires LengthsOk(exts, i) && forall k :: 0 <= k < i ==> 0 <= exts[k].frame < n
    ensures |ByFrame(exts, i, n)| == i
  {
    if i == 0 {
      ByFrameNothing(exts, n);
    } else {
      ByFrameLength(exts, i - 1, n);
      ByFrameCount(exts, i, n);
    }
  }

  lemma {:induction false} SelectLater(exts: seq<Extension>, g: int, i: nat)
    requires LengthsOk(exts, i) && forall k :: 0 <= k < i ==> exts[k].frame < g
    ensures Select(exts, g, i) == []
  {
    if i > 0 {
      SelectLater(exts, g, i - 1);
    }
  }

  lemma {:induction false} ByFrameLast(exts: seq<Extension>, i: nat, n: nat)
    requires 0 < i && LengthsOk(exts, i) && 0 <= exts[i - 1].frame
    requires forall k :: 0 <= k < i ==> exts[k].frame <= exts[i - 1].frame
    ensures ByFrame(exts, i, n) == ByFrame(exts, i - 1, n) + if exts[i - 1].frame < n then [Cut(exts[i - 1])] else []
  {
    if n > 0 {
      ByFrameLast(exts, i, n - 1);
      if exts[i - 1].frame < n - 1 {
        SelectLater(exts, n - 1, i);
        SelectLater(exts, n - 1, i - 1);
      }
    }
  }

  /** Sorted input stays as it is. */
  lemma {:induction false} ByFrameSorted(exts: seq<Extension>, i: nat, n: nat)
    requires LengthsOk(exts, i) && FrameSorted(exts) && forall k :: 0 <= k < i ==> 0 <= exts[k].frame < n
    ensures ByFrame(exts, i, n) == CutAll(exts, i)
  {
    if i == 0 {
      ByFrameNothing(exts, n);
    } else {
      ByFrameSorted(exts, i - 1, n);
      ByFrameLast(exts, i, n);
    }
  }

  lemma ValidParts(exts: seq<Extension>, nbFrames: nat)
    requires AllValid(exts, nbFrames)
    ensures LengthsOk(exts, |exts|) && forall k :: 0 <= k < |exts| ==> 0 <= exts[k].frame < nbFrames
  {
    forall k | 0 <= k < |exts|
      ensures 0 <= exts[k].len <= |exts[k].data| && 0 <= exts[k].frame < nbFrames
    {
      assert ValidExtension(exts[k], nbFrames);
    }
  }

  lemma {:induction false} GeneratedByFrame(exts: seq<Extension>, nbFrames: nat, len: nat, pad: bool, data: seq<byte>,
                                            n: nat)
    requires Generated(exts, nbFrames, len, pad, data) && n <= nbFrames && LengthsOk(exts, |exts|)
    ensures SortedByFrame(DecodeAll(data, Config(nbFrames, nbFrames)), n) == ByFrame(exts, |exts|, n)
  {
    hide Generated, DecodeAll, OfFrame, Select;
    if n > 0 {
      GeneratedByFrame(exts, nbFrames, len, pad, data, n - 1);
      GeneratedFrame(exts, nbFrames, len, pad, data, n - 1);
    }
  }

  lemma GeneratedFrame(exts: seq<Extension>, nbFrames: nat, len: nat, pad: bool, data: seq<byte>, g: nat)
    requires Generated(exts, nbFrames, len, pad, data) && g < nbFrames && LengthsOk(exts, |exts|)
    ensures OfFrame(DecodeAll(data, Config(nbFrames, nbFrames)), g) == Select(exts, g, |exts|)
  {
    GeneratedRead(exts, nbFrames, len, pad, data, g);
  }

  /** Counting what was generated finds every input extension, and parsing it sorted by frame gives
      the input back, each extension cut to its length, when the input is in frame order. */
  lemma GeneratedParsed(exts: seq<Extension>, nbFrames: nat, len: nat, pad: bool, data: seq<byte>)
    requires Generated(exts, nbFrames, len, pad, data)
    ensures var t := DecodeAll(data, Config(nbFrames, nbFrames));
            && Complete(t) && Count(t) == |exts| && LengthsOk(exts, |exts|)
            && SortedByFrame(t, nbFrames) == ByFrame(exts, |exts|, nbFrames)
            && (FrameSorted(exts) ==> SortedByFrame(t, nbFrames) == CutAll(exts, |exts|))
  {
    hide DecodeAll, OfFrame, Select, SortedByFrame, ByFrame, CutAll, AllValid, Output, Encoded, Complete, AllFrom,
         StartOf, FrameSorted;
    var c := Config(nbFrames, nbFrames);
    ValidParts(exts, nbFrames);
    GeneratedRead(exts, nbFrames, len, pad, data, 0);
    GeneratedByFrame(exts, nbFrames, len, pad, data, nbFrames);
    LimitedFrames(data, c);
    SortedCount(DecodeAll(data, c), c);
    ByFrameLength(exts, |exts|, nbFrames);
    if FrameSorted(exts) {
      ByFrameSorted(exts, |exts|, nbFrames);
    }
  }

  /** What counting and parsing read, with more data behind: the generated extensions, each once. */
  lemma GeneratedFound(exts: seq<Extension>, nbFrames: nat, len: nat, pad: bool, data: seq<byte>, more: seq<byte>)
    requires Generated(exts, nbFrames, len, pad, data)
    ensures var t := Parsed(data + more, |data|, nbFrames);
            && Complete(t) && Count(t) == |exts| && LengthsOk(exts, |exts|)
            && SortedByFrame(t, nbFrames) == ByFrame(exts, |exts|, nbFrames)
            && multiset(Extensions(t)) == multiset(ByFrame(exts, |exts|, nbFrames))
  {
    hide DecodeAll, SortedByFrame, ByFrame, Complete, Count, Extensions, Generated, FrameSorted;
    assert (data + more)[..|data|] == data;
    GeneratedParsed(exts, nbFrames, len, pad, data);
    SortedIsSort(data, nbFrames);
  }

  // ----- parsing and then generating -----

  lemma {:induction false} SelectFirst(e: Extension, s: seq<Extension>, g: int, i: nat)
    requires LengthsOk(s, i) && 0 <= e.len <= |e.data| && LengthsOk([e] + s, i + 1)
    ensures Select([e] + s, g, i + 1) == (if e.frame == g then [Cut(e)] else []) + Select(s, g, i)
  {
    if i > 0 {
      SelectFirst(e, s, g, i - 1);
      assert ([e] + s)[i] == s[i - 1];
    }
  }

  lemma CutWhole(e: Extension)
    requires e.len == |e.data|
    ensures Cut(e) == e
  {
    assert e.data[..e.len] == e.data;
  }

  /** What an iteration hands out is a valid input for the generator. */
  lemma {:induction false} HandedOutValid(t: Trace, c: Config)
    requires AllFrom(t, 0, c) && 0 < c.nbFrames
    ensures AllValid(Extensions(t), c.nbFrames) && LengthsOk(Extensions(t), Count(t))
  {
    if t.Yields? {
      HandedOutValid(t.rest, c);
      ValidParts(Extensions(t), c.nbFrames);
    }
  }

  lemma {:induction false} HandedOutFrames(t: Trace, g: int, c: Config)
    requires AllFrom(t, 0, c) && LengthsOk(Extensions(t), Count(t))
    ensures Select(Extensions(t), g, Count(t)) == OfFrame(t, g)
  {
    if t.Yields? {
      var s := Extensions(t.rest);
      assert LengthsOk(s, Count(t.rest)) by {
        assert forall k :: 0 <= k < |s| ==> s[k] == Extensions(t)[k + 1];
      }
      HandedOutFrames(t.rest, g, c);
      SelectFirst(t.ext, s, g, Count(t.rest));
      CutWhole(t.ext);
    }
  }

  /** Whatever bytes were parsed, with or without an error at the end: generating again from what came
      out, and parsing that, gives every frame the same extensions. */
  lemma ParsedRegenerated(data: seq<byte>, nbFrames: nat, len: nat, pad: bool, again: seq<byte>, g: int)
    requires 0 < nbFrames <= MAX_FRAMES_PER_PACKET
    ensures AllValid(Extensions(DecodeAll(data, Config(nbFrames, nbFrames))), nbFrames)
    ensures var t := DecodeAll(data, Config(nbFrames, nbFrames));
            Generated(Extensions(t), nbFrames, len, pad, again) ==>
              var t' := DecodeAll(again, Config(nbFrames, nbFrames));
              Complete(t') && OfFrame(t', g) == OfFrame(t, g) && Count(t') == Count(t)
  {
    hide Generated, DecodeAll, OfFrame, Select, Complete, AllFrom, AllValid;
    var c := Config(nbFrames, nbFrames);
    var t := DecodeAll(data, c);
    LimitedFrames(data, c);
    HandedOutValid(t, c);
    if Generated(Extensions(t), nbFrames, len, pad, again) {
      GeneratedRead(Extensions(t), nbFrames, len, pad, again, g);
      GeneratedParsed(Extensions(t), nbFrames, len, pad, again);
      HandedOutFrames(t, g, c);
      if !(0 <= g < nbFrames) {
        NothingOutside(t, c, g);
      }
    }
  }
}
