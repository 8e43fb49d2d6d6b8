/** Counting and parsing extensions with the iterator, in stream order or sorted by frame. */
module ExtensionParsing {
  import opened Wrappers
  import opened ExtensionSyntax
  import opened ExtensionDecoding
  import opened ExtensionIterator
  import opened ExtensionLimits

  /** The extensions handed out, in order. */
  function Extensions(t: Trace): (s: seq<Extension>)
    ensures |s| == Count(t)
  {
    if t.Yields? then [t.ext] + Extensions(t.rest) else []
  }

  /** The decoding of the first `len` bytes. */
  function Parsed(data: seq<byte>, len: nat, nbFrames: nat): Trace
    requires len <= |data|
  {
    DecodeAll(data[..len], Config(nbFrames, nbFrames))
  }

  /** The number of extensions before the end, or before the first error. */
  method CountExtensions(data: seq<byte>, len: nat, nbFrames: nat) returns (count: nat)
    requires len <= |data| && len <= MAX_I32 && nbFrames <= MAX_FRAMES_PER_PACKET
    ensures count == Count(Parsed(data, len, nbFrames))
  {
    hide Decode, Replay, RegionOk, LastLongOk;
    var iter := new OpusExtensionIterator(data[..len], nbFrames);
    count := 0;
    while true
      invariant iter.Valid() && count + Count(iter.Remaining()) == Count(Parsed(data, len, nbFrames))
      decreases iter.Remaining()
    {
      assert iter.currLen >= 0;
      var r := iter.NextExtension();
      if r.Err? || r.value.None? {
        return;
      }
      count := count + 1;
    }
  }

  lemma YieldOfFrame(t: Trace, g: int)
    requires t.Yields?
    ensures OfFrame(t, g) == if t.ext.frame == g then [t.ext] + OfFrame(t.rest, g) else OfFrame(t.rest, g)
    ensures Count(t) == 1 + Count(t.rest)
  {}

  /** The number of extensions of every frame, before the end or the first error. */
  method CountExt(data: seq<byte>, len: nat, nbFrameExts: array<int>, nbFrames: nat) returns (count: nat)
    requires len <= |data| && len <= MAX_I32 && nbFrames <= MAX_FRAMES_PER_PACKET && nbFrames <= nbFrameExts.Length
    modifies nbFrameExts
    ensures count == Count(Parsed(data, len, nbFrames))
    ensures forall g :: 0 <= g < nbFrames ==> nbFrameExts[g] == |OfFrame(Parsed(data, len, nbFrames), g)|
    ensures forall g :: nbFrames <= g < nbFrameExts.Length ==> nbFrameExts[g] == old(nbFrameExts[g])
  {
    hide Decode, Replay, RegionOk, LastLongOk;
    ghost var t := Parsed(data, len, nbFrames);
    LimitedFrames(data[..len], Config(nbFrames, nbFrames));
    var iter := new OpusExtensionIterator(data[..len], nbFrames);
    for g := 0 to nbFrames
      invariant iter.Valid() && iter.Remaining() == t
      invariant forall h :: 0 <= h < g ==> nbFrameExts[h] == 0
      invariant forall h :: nbFrames <= h < nbFrameExts.Length ==> nbFrameExts[h] == old(nbFrameExts[h])
    {
      nbFrameExts[g] := 0;
    }
    count := 0;
    while true
      invariant iter.Valid() && fresh(iter) && AllFrom(iter.Remaining(), 0, Config(nbFrames, nbFrames))
      invariant count + Count(iter.Remaining()) == Count(t)
      invariant forall g :: 0 <= g < nbFrames ==> nbFrameExts[g] + |OfFrame(iter.Remaining(), g)| == |OfFrame(t, g)|
      invariant forall g :: nbFrames <= g < nbFrameExts.Length ==> nbFrameExts[g] == old(nbFrameExts[g])
      decreases iter.Remaining()
    {
      assert iter.currLen >= 0;
      ghost var now := iter.Remaining();
      var r := iter.NextExtension();
      if r.Err? || r.value.None? {
        return;
      }
      var frame := r.value.value.frame;
      forall g | 0 <= g < nbFrames
        ensures |OfFrame(now, g)| == |OfFrame(now.rest, g)| + if g == frame then 1 else 0
      {
        YieldOfFrame(now, g);
      }
      nbFrameExts[frame] := nbFrameExts[frame] + 1;
      count := count + 1;
    }
  }

  lemma PrefixStep(all: seq<Extension>, k: nat, rest: seq<Extension>, e: Extension)
    requires k <= |all| && all[k..] == [e] + rest
    ensures k < |all| && all[k] == e && all[k + 1..] == rest
  {
    assert all[k..][0] == e && all[k..][1..] == rest;
  }

  /** Parses into an array, in stream order. */
  method Parse(data: seq<byte>, len: nat, nbFrames: nat, extensions: array<Extension>)
    returns (r: Result<nat, ExtensionError>)
    requires len <= |data| && len <= MAX_I32 && nbFrames <= MAX_FRAMES_PER_PACKET
    modifies extensions
    ensures var t := Parsed(data, len, nbFrames);
            r == if Count(t) > extensions.Length then Err(BufferTooSmall)
                 else if Complete(t) then Ok(Count(t)) else Err(InvalidPacket)
    ensures forall k :: 0 <= k < extensions.Length ==>
              extensions[k] == if k < Count(Parsed(data, len, nbFrames)) then Extensions(Parsed(data, len, nbFrames))[k]
                               else old(extensions[k])
  {
    hide Decode, Replay, RegionOk, LastLongOk;
    ghost var t := Parsed(data, len, nbFrames);
    ghost var all := Extensions(t);
    var iter := new OpusExtensionIterator(data[..len], nbFrames);
    var count := 0;
    while true
      invariant iter.Valid() && fresh(iter) && count <= extensions.Length && count + Count(iter.Remaining()) == Count(t)
      invariant all[count..] == Extensions(iter.Remaining()) && (Complete(t) <==> Complete(iter.Remaining()))
      invariant forall k :: 0 <= k < extensions.Length ==>
                  extensions[k] == if k < count then all[k] else old(extensions[k])
      decreases iter.Remaining()
    {
      assert iter.currLen >= 0;
      ghost var now := iter.Remaining();
      var next := iter.NextExtension();
      if next.Err? {
        return Err(next.error);
      }
      if next.value.None? {
        return Ok(count);
      }
      PrefixStep(all, count, Extensions(now.rest), next.value.value);
      if count == extensions.Length {
        return Err(BufferTooSmall);
      }
      extensions[count] := next.value.value;
      count := count + 1;
    }
  }

  // ----- sorted by frame -----

  /** How many extensions belong to frames before `g`. */
  function StartOf(t: Trace, g: nat): nat {
    if g == 0 then 0 else StartOf(t, g - 1) + |OfFrame(t, g - 1)|
  }

  /** The extensions of the first `n` frames, frame by frame, each in stream order. */
  function SortedByFrame(t: Trace, n: nat): (s: seq<Extension>)
    ensures |s| == StartOf(t, n)
  {
    if n == 0 then [] else SortedByFrame(t, n - 1) + OfFrame(t, n - 1)
  }

  lemma {:induction false} SortedAt(t: Trace, n: nat, g: nat, k: nat)
    requires g < n && k < |OfFrame(t, g)|
    ensures StartOf(t, g) + k < StartOf(t, n) && SortedByFrame(t, n)[StartOf(t, g) + k] == OfFrame(t, g)[k]
    decreases n
  {
    if g < n - 1 {
      SortedAt(t, n - 1, g, k);
    }
  }

  /** Every sorted position belongs to a frame. */
  lemma {:induction false} FrameOfPosition(t: Trace, n: nat, p: nat) returns (g: nat)
    requires p < StartOf(t, n)
    ensures g < n && StartOf(t, g) <= p < StartOf(t, g + 1)
  {
    if p < StartOf(t, n - 1) {
      g := FrameOfPosition(t, n - 1, p);
    } else {
      g := n - 1;
    }
  }

  lemma {:induction false} StartGrows(t: Trace, g: nat, n: nat)
    requires g <= n
    ensures StartOf(t, g) <= StartOf(t, n)
    decreases n
  {
    if g < n {
      StartGrows(t, g, n - 1);
    }
  }

  /** One extension moves the starts of all later frames by one. */
  lemma {:induction false} StartYield(t: Trace, n: nat)
    requires t.Yields? && 0 <= t.ext.frame
    ensures StartOf(t, n) == StartOf(t.rest, n) + if t.ext.frame < n then 1 else 0
  {
    if n > 0 {
      StartYield(t, n - 1);
    }
  }

  lemma {:induction false} StartOfEnd(t: Trace, n: nat)
    requires !t.Yields?
    ensures StartOf(t, n) == 0
  {
    if n > 0 {
      StartOfEnd(t, n - 1);
    }
  }

  /** Sorting by frame loses nothing. */
  lemma {:induction false} SortedCount(t: Trace, c: Config)
    requires AllFrom(t, 0, c) && c.frameMax == c.nbFrames
    ensures StartOf(t, c.nbFrames) == Count(t)
  {
    if t.Yields? {
      SortedCount(t.rest, c);
      StartYield(t, c.nbFrames);
    } else {
      StartOfEnd(t, c.nbFrames);
    }
  }

  /** `counts` holds the numbers that CountExt finds. */
  ghost predicate CountsMatch(t: Trace, counts: seq<int>, n: nat) {
    n <= |counts| && forall g :: 0 <= g < n ==> counts[g] == |OfFrame(t, g)|
  }

  /** The first position of frame `g`, by the counts of the frames before it. */
  function StartBy(counts: seq<int>, g: nat): int
    requires g <= |counts|
  {
    if g == 0 then 0 else StartBy(counts, g - 1) + counts[g - 1]
  }

  lemma StartNext(counts: seq<int>, g: nat)
    requires g < |counts|
    ensures StartBy(counts, g + 1) == StartBy(counts, g) + counts[g]
  {}

  lemma StartFirst(counts: seq<int>)
    ensures StartBy(counts, 0) == 0
  {}

  /** With counts that match, that is where the frame begins in the sorted list. */
  lemma {:induction false} StartsMatch(t: Trace, counts: seq<int>, n: nat, g: nat)
    requires CountsMatch(t, counts, n) && g <= n
    ensures StartBy(counts, g) == StartOf(t, g)
  {
    if g > 0 {
      StartsMatch(t, counts, n, g - 1);
    }
  }

  /** With counts that match, everything fits if and only if the array is large enough for all extensions. */
  lemma FitsIff(t: Trace, counts: seq<int>, length: nat, c: Config)
    requires AllFrom(t, 0, c) && c.frameMax == c.nbFrames && CountsMatch(t, counts, c.nbFrames)
    ensures AllFit(t, counts, c.nbFrames, length) <==> Count(t) <= length
  {
    hide StartOf, StartBy, OfFrame, Count;
    SortedCount(t, c);
    MatchingStarts(t, counts, c.nbFrames);
    if Count(t) <= length {
      forall g | 0 <= g < c.nbFrames
        ensures FrameFits(t, counts, length, g)
      {
        StartGrows(t, g + 1, c.nbFrames);
        NextStart(t, g);
      }
    } else {
      var g := FrameOfPosition(t, c.nbFrames, Count(t) - 1);
      NextStart(t, g);
      assert !FrameFits(t, counts, length, g);
    }
  }

  lemma NextStart(t: Trace, g: nat)
    ensures StartOf(t, g + 1) == StartOf(t, g) + |OfFrame(t, g)|
  {}

  /** Turns the counts into the first position of every frame. */
  method Cumulate(nbFrameExts: array<int>, nbFrames: nat) returns (ok: bool, nbFramesCum: array<nat>)
    requires nbFrames <= MAX_FRAMES_PER_PACKET && nbFrames <= nbFrameExts.Length
    ensures fresh(nbFramesCum) && nbFramesCum.Length == MAX_FRAMES_PER_PACKET + 1
    ensures ok <==> forall g :: 0 <= g < nbFrames ==> nbFrameExts[g] >= 0
    ensures ok ==> forall g :: 0 <= g <= nbFrames ==> nbFramesCum[g] == StartBy(nbFrameExts[..], g)
  {
    hide StartBy;
    nbFramesCum := new nat[MAX_FRAMES_PER_PACKET + 1](_ => 0);
    var prevTotal: nat := 0;
    ghost var counts := nbFrameExts[..];
    StartFirst(counts);
    for g := 0 to nbFrames
      invariant forall h :: 0 <= h < g ==> nbFrameExts[h] >= 0
      invariant nbFrameExts[..] == counts && prevTotal == StartBy(counts, g)
      invariant forall h :: 0 <= h < g ==> nbFramesCum[h] == StartBy(counts, h)
    {
      var count := nbFrameExts[g];
      if count < 0 {
        return false, nbFramesCum;
      }
      StartNext(counts, g);
      nbFramesCum[g] := prevTotal;
      prevTotal := prevTotal + count;
    }
    nbFramesCum[nbFrames] := prevTotal;
    return true, nbFramesCum;
  }

  /** The slots of frame `g` up to `upTo` hold what belongs there. */
  ghost predicate Filled(extensions: array<Extension>, all: seq<Extension>, from: nat, upTo: nat)
    reads extensions
  {
    && upTo <= |all| && (from < upTo ==> upTo <= extensions.Length)
    && forall p :: from <= p < upTo ==> extensions[p] == all[p]
  }

  /** `rest` still has the end of what `t` has for frame `g`. */
  ghost predicate TailOf(t: Trace, rest: Trace, g: nat) {
    && |OfFrame(rest, g)| <= |OfFrame(t, g)|
    && OfFrame(t, g)[|OfFrame(t, g)| - |OfFrame(rest, g)|..] == OfFrame(rest, g)
  }

  /** The number of extensions of frame `g` that `t` has and `rest` has not. */
  ghost function Gone(t: Trace, rest: Trace, g: nat): nat
    requires TailOf(t, rest, g)
  {
    |OfFrame(t, g)| - |OfFrame(rest, g)|
  }

  lemma TailYield(t: Trace, rest: Trace, g: nat)
    requires TailOf(t, rest, g) && rest.Yields?
    ensures TailOf(t, rest.rest, g)
    ensures Gone(t, rest.rest, g) == Gone(t, rest, g) + if rest.ext.frame == g then 1 else 0
    ensures rest.ext.frame == g ==> Gone(t, rest, g) < |OfFrame(t, g)| && OfFrame(t, g)[Gone(t, rest, g)] == rest.ext
  {
    YieldOfFrame(rest, g);
    if rest.ext.frame == g {
      PrefixStep(OfFrame(t, g), Gone(t, rest, g), OfFrame(rest.rest, g), rest.ext);
    }
  }

  /** How far the placing has come: frame by frame, `rest` is still to come. */
  ghost predicate Placed(t: Trace, rest: Trace, n: nat, cum: array<nat>, extensions: array<Extension>)
    reads cum, extensions
  {
    n < cum.Length && forall g :: 0 <= g < n ==>
      && TailOf(t, rest, g) && cum[g] == StartOf(t, g) + Gone(t, rest, g)
      && Filled(extensions, SortedByFrame(t, n), StartOf(t, g), cum[g])
  }

  /** How far the placing has come with any counts: a position that has been used is in the array. */
  ghost predicate Reached(t: Trace, rest: Trace, n: nat, cum: array<nat>, counts: seq<int>, length: nat)
    reads cum
  {
    n < cum.Length && n <= |counts| && forall g :: 0 <= g < n ==>
      && TailOf(t, rest, g) && cum[g] == StartBy(counts, g) + Gone(t, rest, g)
      && (Gone(t, rest, g) > 0 ==> cum[g] <= length)
  }

  /** There is a position in the array for every extension of frame `g`. */
  ghost predicate FrameFits(t: Trace, counts: seq<int>, length: nat, g: nat)
    requires g < |counts|
  {
    OfFrame(t, g) != [] ==> StartBy(counts, g) + |OfFrame(t, g)| <= length
  }

  ghost predicate AllFit(t: Trace, counts: seq<int>, n: nat, length: nat)
    requires n <= |counts|
  {
    forall g :: 0 <= g < n ==> FrameFits(t, counts, length, g)
  }

  lemma ReachedStart(t: Trace, n: nat, cum: array<nat>, counts: seq<int>, length: nat)
    requires n < cum.Length && n <= |counts| && forall g :: 0 <= g <= n ==> cum[g] == StartBy(counts, g)
    ensures Reached(t, t, n, cum, counts, length)
  {
    hide StartBy;
    forall g | 0 <= g < n
      ensures TailOf(t, t, g) && Gone(t, t, g) == 0
    {
    }
  }

  /** Without room for the next extension, its frame does not fit. */
  lemma NoPlace(t: Trace, rest: Trace, n: nat, cum: array<nat>, counts: seq<int>, length: nat)
    requires Reached(t, rest, n, cum, counts, length) && rest.Yields? && 0 <= rest.ext.frame < n
    ensures cum[rest.ext.frame] >= length ==> !AllFit(t, counts, n, length)
  {
    hide TailOf, Gone, StartBy;
    var f := rest.ext.frame;
    TailYield(t, rest, f);
    if cum[f] >= length {
      assert !FrameFits(t, counts, length, f);
    }
  }

  /** When nothing is left to come, everything has fit. */
  lemma AllReached(t: Trace, rest: Trace, n: nat, cum: array<nat>, counts: seq<int>, length: nat)
    requires Reached(t, rest, n, cum, counts, length) && !rest.Yields?
    ensures AllFit(t, counts, n, length)
  {
    forall g | 0 <= g < n
      ensures FrameFits(t, counts, length, g)
    {
      assert TailOf(t, rest, g) && Gone(t, rest, g) == |OfFrame(t, g)|;
    }
  }

  lemma PlacedStart(t: Trace, n: nat, cum: array<nat>, extensions: array<Extension>)
    requires n < cum.Length && forall g :: 0 <= g <= n ==> cum[g] == StartOf(t, g)
    ensures Placed(t, t, n, cum, extensions)
  {
    forall g | 0 <= g < n
      ensures TailOf(t, t, g) && Gone(t, t, g) == 0 && StartOf(t, g) <= StartOf(t, n)
    {
      StartGrows(t, g, n);
    }
  }

  /** Where the next extension belongs. */
  lemma NextPlace(t: Trace, rest: Trace, n: nat, cum: array<nat>, extensions: array<Extension>)
    requires Placed(t, rest, n, cum, extensions) && rest.Yields? && 0 <= rest.ext.frame < n
    ensures var f := rest.ext.frame;
            cum[f] < StartOf(t, n) && SortedByFrame(t, n)[cum[f]] == rest.ext && cum[f] + 1 <= StartOf(t, f + 1)
  {
    hide TailOf, Gone, SortedByFrame, Filled;
    var f := rest.ext.frame;
    TailYield(t, rest, f);
    SortedAt(t, n, f, Gone(t, rest, f));
  }

  lemma TailsYield(t: Trace, rest: Trace, n: nat)
    requires rest.Yields? && forall g :: 0 <= g < n ==> TailOf(t, rest, g)
    ensures forall g :: 0 <= g < n ==>
              TailOf(t, rest.rest, g)
              && Gone(t, rest.rest, g) == Gone(t, rest, g) + if rest.ext.frame == g then 1 else 0
  {
    hide TailOf, Gone, OfFrame;
    forall g | 0 <= g < n
      ensures TailOf(t, rest.rest, g)
              && Gone(t, rest.rest, g) == Gone(t, rest, g) + if rest.ext.frame == g then 1 else 0
    {
      TailYield(t, rest, g);
    }
  }

  /** Puts the next extension in its place. */
  method Place(ghost t: Trace, ghost rest: Trace, n: nat, cum: array<nat>, extensions: array<Extension>, idx: nat,
               e: Extension, ghost counts: seq<int>)
    requires Reached(t, rest, n, cum, counts, extensions.Length)
    requires n < cum.Length && rest.Yields? && e == rest.ext && 0 <= e.frame < n
    requires idx == cum[e.frame] < extensions.Length
    modifies cum, extensions
    ensures Reached(t, rest.rest, n, cum, counts, extensions.Length)
    ensures old(Placed(t, rest, n, cum, extensions)) ==> Placed(t, rest.rest, n, cum, extensions)
  {
    hide TailOf, Gone, SortedByFrame, StartOf, OfFrame, StartBy;
    TailsYield(t, rest, n);
    if Placed(t, rest, n, cum, extensions) {
      NextPlace(t, rest, n, cum, extensions);
    }
    extensions[idx] := e;
    cum[e.frame] := idx + 1;
  }

  lemma FramePlaced(t: Trace, rest: Trace, n: nat, cum: array<nat>, extensions: array<Extension>, g: nat)
    requires Placed(t, rest, n, cum, extensions) && !rest.Yields? && g < n
    ensures Filled(extensions, SortedByFrame(t, n), StartOf(t, g), StartOf(t, g + 1))
  {
    assert TailOf(t, rest, g) && Gone(t, rest, g) == |OfFrame(t, g)|;
  }

  lemma PlacedAt(t: Trace, rest: Trace, n: nat, cum: array<nat>, extensions: array<Extension>, p: nat)
    requires Placed(t, rest, n, cum, extensions) && !rest.Yields? && p < StartOf(t, n)
    ensures p < extensions.Length && extensions[p] == SortedByFrame(t, n)[p]
  {
    hide Placed, SortedByFrame, StartOf, OfFrame;
    var g := FrameOfPosition(t, n, p);
    FramePlaced(t, rest, n, cum, extensions, g);
    var all := SortedByFrame(t, n);
    assert Filled(extensions, all, StartOf(t, g), StartOf(t, g + 1));
    assert StartOf(t, g) <= p < StartOf(t, g + 1) && extensions[p] == all[p];
  }

  /** When nothing is left to come, every place is taken. */
  lemma AllPlaced(t: Trace, rest: Trace, n: nat, cum: array<nat>, extensions: array<Extension>)
    requires Placed(t, rest, n, cum, extensions) && !rest.Yields?
    ensures StartOf(t, n) <= extensions.Length && extensions[..StartOf(t, n)] == SortedByFrame(t, n)
  {
    hide Placed, SortedByFrame, StartOf, OfFrame;
    var all := SortedByFrame(t, n);
    if |all| > 0 {
      PlacedAt(t, rest, n, cum, extensions, |all| - 1);
    }
    forall p | 0 <= p < |all|
      ensures extensions[..|all|][p] == all[p]
    {
      PlacedAt(t, rest, n, cum, extensions, p);
    }
    assert extensions[..|all|] == all;
  }

  /** Parses into an array. With the counts that CountExt finds, the array is sorted by frame; with any
      other counts, every frame begins where the counts say. */
  method ParseExt(data: seq<byte>, len: nat, nbFrames: nat, extensions: array<Extension>, nbFrameExts: array<int>)
    returns (r: Result<nat, ExtensionError>)
    requires len <= |data| && len <= MAX_I32 && nbFrames <= MAX_FRAMES_PER_PACKET && nbFrames <= nbFrameExts.Length
    requires extensions as object != nbFrameExts
    modifies extensions
    ensures var t := Parsed(data, len, nbFrames);
            r == if exists g :: 0 <= g < nbFrames && nbFrameExts[g] < 0 then Err(BadArgument)
                 else if !AllFit(t, nbFrameExts[..], nbFrames, extensions.Length) then Err(BufferTooSmall)
                 else if Complete(t) then Ok(Count(t)) else Err(InvalidPacket)
    ensures var t := Parsed(data, len, nbFrames);
            r.Ok? && CountsMatch(t, nbFrameExts[..], nbFrames) ==>
              Count(t) <= extensions.Length && extensions[..Count(t)] == SortedByFrame(t, nbFrames)
  {
    hide Decode, Replay, RegionOk, LastLongOk, Placed, Reached, CountsMatch, StartOf, StartBy, SortedByFrame, OfFrame,
         AllFit;
    ghost var t, counts := Parsed(data, len, nbFrames), nbFrameExts[..];
    ghost var matching := CountsMatch(t, counts, nbFrames);
    LimitedFrames(data[..len], Config(nbFrames, nbFrames));
    SortedCount(t, Config(nbFrames, nbFrames));
    var ok, nbFramesCum := Cumulate(nbFrameExts, nbFrames);
    if !ok {
      return Err(BadArgument);
    }
    ReachedStart(t, nbFrames, nbFramesCum, counts, extensions.Length);
    if matching {
      MatchingStarts(t, counts, nbFrames);
      PlacedStart(t, nbFrames, nbFramesCum, extensions);
    }
    var iter := new OpusExtensionIterator(data[..len], nbFrames);
    var count := 0;
    while true
      invariant iter.Valid() && fresh(iter) && AllFrom(iter.Remaining(), 0, Config(nbFrames, nbFrames))
      invariant iter.frameMax == nbFrames && nbFrameExts[..] == counts
      invariant count + Count(iter.Remaining()) == Count(t) && (Complete(t) <==> Complete(iter.Remaining()))
      invariant Reached(t, iter.Remaining(), nbFrames, nbFramesCum, counts, extensions.Length)
      invariant matching ==> Placed(t, iter.Remaining(), nbFrames, nbFramesCum, extensions)
      decreases iter.Remaining()
    {
      assert iter.currLen >= 0;
      ghost var now := iter.Remaining();
      var next := iter.NextExtension();
      if next.Err? {
        AllReached(t, now, nbFrames, nbFramesCum, counts, extensions.Length);
        return Err(next.error);
      }
      if next.value.None? {
        AllReached(t, now, nbFrames, nbFramesCum, counts, extensions.Length);
        if matching {
          AllPlaced(t, now, nbFrames, nbFramesCum, extensions);
        }
        return Ok(count);
      }
      var frame := next.value.value.frame;
      CumLength(t, now, nbFrames, nbFramesCum, counts, extensions.Length);
      var idx := nbFramesCum[frame];
      if idx >= extensions.Length {
        NoPlace(t, now, nbFrames, nbFramesCum, counts, extensions.Length);
        return Err(BufferTooSmall);
      }
      Place(t, now, nbFrames, nbFramesCum, extensions, idx, next.value.value, counts);
      count := count + 1;
    }
  }

  lemma MatchingStarts(t: Trace, counts: seq<int>, n: nat)
    requires CountsMatch(t, counts, n)
    ensures forall g :: 0 <= g <= n ==> StartBy(counts, g) == StartOf(t, g)
  {
    hide StartBy, StartOf;
    forall g | 0 <= g <= n
      ensures StartBy(counts, g) == StartOf(t, g)
    {
      StartsMatch(t, counts, n, g);
    }
  }

  lemma CumLength(t: Trace, rest: Trace, n: nat, cum: array<nat>, counts: seq<int>, length: nat)
    requires Reached(t, rest, n, cum, counts, length)
    ensures n < cum.Length
  {}
}
