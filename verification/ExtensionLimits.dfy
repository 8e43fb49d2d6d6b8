/** What holds of the decoding of any bytes at all: how much it can yield, that what it yields can be
    written again, and what a frame limit leaves out. */
module ExtensionLimits {
  import opened ExtensionSyntax
  import opened ExtensionDecoding
  import opened ExtensionFrames

  /** The number of extensions handed out. */
  function Count(t: Trace): nat {
    if t.Yields? then 1 + Count(t.rest) else 0
  }

  function AtLeastOne(n: nat): nat {
    if n == 0 then 1 else n
  }

  // ----- how much comes out -----

  /** What `bytes` bytes can yield when `listed` id bytes are already listed for a repeat: every byte
      at most one extension for each of `n` frames, once directly and once for each later frame. */
  function DecodeBound(bytes: nat, listed: nat, n: nat): int {
    bytes * n + listed * (n - 1)
  }

  /** The same inside a repeat, from extension `k` of frame `g` on. */
  function ReplayBound(bytes: nat, listed: nat, k: nat, g: nat, nbFrames: nat): int {
    bytes * AtLeastOne(nbFrames) + if g >= nbFrames then 0 else listed - k + listed * (nbFrames - g - 1)
  }

  lemma Distribute(a: int, b: int, n: int)
    ensures (a + b) * n == a * n + b * n
  {}

  lemma Monotone(a: nat, b: nat, n: nat)
    requires a <= b
    ensures 0 <= a * n <= b * n && (a < b ==> a * n + n <= b * n)
  {
    Distribute(a, b - a, n);
    assert (b - a) * n >= 0;
    if a < b {
      Distribute(1, b - a - 1, n);
      assert (b - a - 1) * n >= 0;
    }
  }

  lemma BoundItem(before: nat, after: nat, listed: nat, n: nat)
    requires after < before && n >= 1
    ensures DecodeBound(after, listed + 1, n) + 1 <= DecodeBound(before, listed, n)
    ensures DecodeBound(after, 0, n) <= DecodeBound(before, listed, n)
  {
    Monotone(after, before, n);
    Distribute(listed, 1, n - 1);
    Monotone(0, listed, n - 1);
  }

  lemma BoundPositive(bytes: nat, listed: nat, n: nat)
    requires n >= 1
    ensures DecodeBound(bytes, listed, n) >= 0
  {
    Monotone(0, listed, n - 1);
    Monotone(0, bytes, n);
  }

  lemma BoundRepeat(before: nat, after: nat, listed: nat, frame: nat, nbFrames: nat)
    requires after < before
    ensures ReplayBound(after, listed, 0, frame + 1, nbFrames) <= DecodeBound(before, listed, AtLeastOne(nbFrames))
  {
    var n := AtLeastOne(nbFrames);
    Monotone(after, before, n);
    Monotone(0, listed, n - 1);
    if frame + 1 < nbFrames {
      assert listed * (n - 1) == listed + listed * (n - (frame + 1) - 1) + listed * frame;
      assert listed * frame >= 0;
    }
  }

  lemma BoundEnd(bytes: nat, listed: nat, k: nat, g: nat, nbFrames: nat)
    requires g >= nbFrames
    ensures DecodeBound(bytes, 0, AtLeastOne(nbFrames)) == ReplayBound(bytes, listed, k, g, nbFrames)
    ensures ReplayBound(bytes, listed, k, g, nbFrames) >= 0
  {
    Monotone(0, bytes, AtLeastOne(nbFrames));
  }

  lemma BoundReplay(before: nat, after: nat, listed: nat, k: nat, g: nat, nbFrames: nat)
    requires after <= before && g < nbFrames && k <= listed
    ensures ReplayBound(before, listed, k, g, nbFrames) >= 0
    ensures k == listed ==>
              ReplayBound(before, listed, 0, g + 1, nbFrames) <= ReplayBound(before, listed, k, g, nbFrames)
    ensures k < listed ==>
              ReplayBound(after, listed, k + 1, g, nbFrames) + 1 <= ReplayBound(before, listed, k, g, nbFrames)
  {
    Monotone(after, before, AtLeastOne(nbFrames));
    Monotone(0, listed, nbFrames - g - 1);
    if g + 1 < nbFrames {
      assert listed * (nbFrames - g - 1) == listed + listed * (nbFrames - (g + 1) - 1);
    }
  }

  lemma {:induction false} DecodeCount(data: seq<byte>, pos: nat, end: nat, frame: nat, src: seq<byte>, c: Config)
    requires pos <= end <= |data|
    ensures Count(Decode(data, pos, end, frame, src, c)) <= DecodeBound(end - pos, |src|, AtLeastOne(c.nbFrames))
    decreases end - pos, 0, 0, 0
  {
    hide DecodeBound, ReplayBound, PayloadExtent, ExtensionExtent;
    BoundPositive(end - pos, |src|, AtLeastOne(c.nbFrames));
    if pos < end && ExtensionExtent(data, pos, end).Extent? {
      var next := pos + ExtensionExtent(data, pos, end).total;
      BoundItem(end - pos, end - next, |src|, AtLeastOne(c.nbFrames));
      DecodeCount(data, next, end, frame, src + [data[pos]], c);
      if data[pos] / 2 == 1 && (data[pos] == 2 || pos + 1 < end) {
        DecodeCount(data, next, end, frame + if data[pos] == 2 then 1 else data[pos + 1], [], c);
      } else if data[pos] / 2 == 2 {
        ReplayCount(data, next, end, frame, src, 0, data[pos] % 2, frame + 1, false, c);
        BoundRepeat(end - pos, end - next, |src|, frame, c.nbFrames);
      }
    }
  }

  lemma {:induction false} ReplayCount(data: seq<byte>, pos: nat, end: nat, frame: nat, src: seq<byte>, k: nat,
                                       l: byte, g: nat, resumed: bool, c: Config)
    requires pos <= end <= |data| && k <= |src|
    ensures Count(Replay(data, pos, end, frame, src, k, l, g, resumed, c))
         <= ReplayBound(end - pos, |src|, k, g, c.nbFrames)
    decreases end - pos, 1, if g < c.nbFrames then c.nbFrames - g else 0, |src| - k
  {
    hide DecodeBound, ReplayBound, PayloadExtent, ExtensionExtent;
    if g >= c.nbFrames {
      BoundEnd(end - pos, |src|, k, g, c.nbFrames);
      DecodeCount(data, pos, end, if l == 0 then frame + 1 else frame, [], c);
    } else {
      BoundReplay(end - pos, end - pos, |src|, k, g, c.nbFrames);
      if k == |src| {
        ReplayCount(data, pos, end, frame, src, 0, l, g + 1, resumed, c);
      } else if src[k] <= 3 {
        ReplayCount(data, pos, end, frame, src, k + 1, l, g, resumed, c);
      } else {
        var x := PayloadExtent(data, pos, end, TrailingFlags(src, |src|), ReplayedId(src, k, l, g, c.nbFrames));
        if x.Extent? {
          ReplayCount(data, pos + x.total, end, frame, src, k + 1, l, g, resumed || g < c.frameMax, c);
          BoundReplay(end - pos, end - (pos + x.total), |src|, k, g, c.nbFrames);
        }
      }
    }
  }

  /** From n bytes, an iteration over `nbFrames` frames yields at most n * nbFrames extensions. */
  lemma CountBound(data: seq<byte>, c: Config)
    ensures Count(DecodeAll(data, c)) <= |data| * AtLeastOne(c.nbFrames)
  {
    DecodeCount(data, 0, |data|, 0, [], c);
    Monotone(0, |data|, AtLeastOne(c.nbFrames));
  }

  // ----- what comes out -----

  /** Every extension handed out belongs to a wanted frame from `frame` on, and is one that the
      generator accepts, cut to its length. */
  ghost predicate AllFrom(t: Trace, frame: nat, c: Config) {
    t.Yields? ==>
      && frame <= t.ext.frame < c.frameMax && (t.ext.frame < c.nbFrames || t.ext.frame == 0)
      && ValidExtension(t.ext, t.ext.frame + 1) && t.ext.len == |t.ext.data|
      && AllFrom(t.rest, frame, c)
  }

  lemma {:induction false} AllFromLater(t: Trace, frame: nat, later: nat, c: Config)
    requires AllFrom(t, later, c) && frame <= later
    ensures AllFrom(t, frame, c)
  {
    if t.Yields? {
      AllFromLater(t.rest, frame, later, c);
    }
  }

  /** No listed byte is a repeat indicator. */
  ghost predicate NoIndicator(src: seq<byte>) {
    forall i :: 0 <= i < |src| ==> src[i] / 2 != 2
  }

  lemma {:induction false} DecodeFrom(data: seq<byte>, pos: nat, end: nat, frame: nat, src: seq<byte>, c: Config)
    requires pos <= end <= |data| && NoIndicator(src) && (frame < c.nbFrames || frame == 0)
    ensures AllFrom(Decode(data, pos, end, frame, src, c), frame, c)
    decreases end - pos, 0, 0, 0
  {
    if pos < end && ExtensionExtent(data, pos, end).Extent? {
      var next := pos + ExtensionExtent(data, pos, end).total;
      if data[pos] / 2 == 2 {
        ReplayFrom(data, next, end, frame, src, 0, data[pos] % 2, frame + 1, false, c);
      } else {
        DecodeFrom(data, next, end, frame, src + [data[pos]], c);
        if data[pos] / 2 == 1 {
          var incr := if data[pos] == 2 then 1 else data[pos + 1];
          if frame + incr < c.nbFrames {
            DecodeFrom(data, next, end, frame + incr, [], c);
            AllFromLater(Decode(data, next, end, frame + incr, [], c), frame, frame + incr, c);
          }
        }
      }
    }
  }

  lemma {:induction false} ReplayFrom(data: seq<byte>, pos: nat, end: nat, frame: nat, src: seq<byte>, k: nat, l: byte,
                                      g: nat, resumed: bool, c: Config)
    requires pos <= end <= |data| && k <= |src| && NoIndicator(src) && frame < g && (frame < c.nbFrames || frame == 0)
    ensures AllFrom(Replay(data, pos, end, frame, src, k, l, g, resumed, c), frame, c)
    decreases end - pos, 1, if g < c.nbFrames then c.nbFrames - g else 0, |src| - k
  {
    if g >= c.nbFrames {
      var next := if l == 0 then frame + 1 else frame;
      if next < c.nbFrames || next == 0 {
        DecodeFrom(data, pos, end, next, [], c);
        AllFromLater(Decode(data, pos, end, next, [], c), frame, next, c);
      }
    } else if k == |src| {
      ReplayFrom(data, pos, end, frame, src, 0, l, g + 1, resumed, c);
    } else if src[k] <= 3 {
      ReplayFrom(data, pos, end, frame, src, k + 1, l, g, resumed, c);
    } else {
      var x := PayloadExtent(data, pos, end, TrailingFlags(src, |src|), ReplayedId(src, k, l, g, c.nbFrames));
      if x.Extent? {
        ReplayFrom(data, pos + x.total, end, frame, src, k + 1, l, g, resumed || g < c.frameMax, c);
      }
    }
  }

  // ----- frame limits -----

  /** The part of a trace in frames below `m`, as a normal end. */
  function Below(t: Trace, m: nat): Trace {
    if !t.Yields? then Finished
    else if t.ext.frame < m then Yields(t.ext, Below(t.rest, m))
    else Below(t.rest, m)
  }

  lemma {:induction false} NothingBelow(t: Trace, frame: nat, m: nat, c: Config)
    requires AllFrom(t, frame, c) && m <= frame
    ensures Below(t, m) == Finished
  {
    if t.Yields? {
      NothingBelow(t.rest, frame, m, c);
    }
  }

  /** `t` hands out what `full` does in frames below `m`; it may end normally where `full` fails later. */
  ghost predicate Limits(t: Trace, full: Trace, m: nat) {
    Below(t, m) == Below(full, m) && (Complete(full) ==> t == Below(full, m))
  }

  lemma {:induction false} DecodeBelow(data: seq<byte>, pos: nat, end: nat, frame: nat, src: seq<byte>, n: nat, m: nat)
    requires pos <= end <= |data| && NoIndicator(src) && frame < n && m <= n
    ensures Limits(Decode(data, pos, end, frame, src, Config(n, m)), Decode(data, pos, end, frame, src, Config(n, n)),
                   m)
    decreases end - pos, 0, 0, 0
  {
    var c := Config(n, n);
    if pos < end && ExtensionExtent(data, pos, end).Extent? {
      var next := pos + ExtensionExtent(data, pos, end).total;
      if data[pos] / 2 == 2 {
        ReplayBelow(data, next, end, frame, src, 0, data[pos] % 2, frame + 1, false, false, n, m);
      } else if data[pos] / 2 == 1 && (data[pos] == 2 || data[pos + 1] != 0) {
        var incr := if data[pos] == 2 then 1 else data[pos + 1];
        if frame + incr < n {
          DecodeBelow(data, next, end, frame + incr, [], n, m);
          DecodeFrom(data, next, end, frame + incr, [], c);
          if m <= frame + incr {
            NothingBelow(Decode(data, next, end, frame + incr, [], c), frame + incr, m, c);
          }
        }
      } else {
        DecodeBelow(data, next, end, frame, src + [data[pos]], n, m);
      }
    }
  }

  lemma {:induction false} ReplayBelow(data: seq<byte>, pos: nat, end: nat, frame: nat, src: seq<byte>, k: nat,
                                       l: byte, g: nat, resumed: bool, resumed': bool, n: nat, m: nat)
    requires pos <= end <= |data| && k <= |src| && NoIndicator(src) && frame < n && m <= n && frame < g
    ensures Limits(Replay(data, pos, end, frame, src, k, l, g, resumed', Config(n, m)),
                   Replay(data, pos, end, frame, src, k, l, g, resumed, Config(n, n)), m)
    decreases end - pos, 1, if g < n then n - g else 0, |src| - k
  {
    var c := Config(n, n);
    if g >= n {
      var next := if l == 0 then frame + 1 else frame;
      if next < n {
        DecodeBelow(data, pos, end, next, [], n, m);
        DecodeFrom(data, pos, end, next, [], c);
        if m <= next {
          NothingBelow(Decode(data, pos, end, next, [], c), next, m, c);
        }
      }
    } else if k == |src| {
      ReplayBelow(data, pos, end, frame, src, 0, l, g + 1, resumed, resumed', n, m);
    } else if src[k] <= 3 {
      ReplayBelow(data, pos, end, frame, src, k + 1, l, g, resumed, resumed', n, m);
    } else {
      var x := PayloadExtent(data, pos, end, TrailingFlags(src, |src|), ReplayedId(src, k, l, g, n));
      if x.Extent? {
        ReplayBelow(data, pos + x.total, end, frame, src, k + 1, l, g, true, resumed' || g < m, n, m);
      }
    }
  }

  lemma LowerLimit(data: seq<byte>, n: nat, m: nat)
    requires m <= n
    ensures Limits(DecodeAll(data, Config(n, m)), DecodeAll(data, Config(n, n)), m)
  {
    if n > 0 {
      DecodeBelow(data, 0, |data|, 0, [], n, m);
      DecodeFrom(data, 0, |data|, 0, [], Config(n, n));
      if m == 0 {
        NothingBelow(Decode(data, 0, |data|, 0, [], Config(n, n)), 0, 0, Config(n, n));
      }
    }
  }

  /** A limit beyond the last frame changes nothing. */
  lemma {:induction false} DecodeBeyond(data: seq<byte>, pos: nat, end: nat, frame: nat, src: seq<byte>, n: nat, m: nat)
    requires pos <= end <= |data| && frame < n <= m
    ensures Decode(data, pos, end, frame, src, Config(n, m)) == Decode(data, pos, end, frame, src, Config(n, n))
    decreases end - pos, 0, 0, 0
  {
    hide PayloadExtent, ExtensionExtent, ReplayedId;
    if pos < end && ExtensionExtent(data, pos, end).Extent? {
      var next := pos + ExtensionExtent(data, pos, end).total;
      if data[pos] / 2 == 2 {
        ReplayBeyond(data, next, end, frame, src, 0, data[pos] % 2, frame + 1, false, n, m);
      } else {
        DecodeBeyond(data, next, end, frame, src + [data[pos]], n, m);
        if data[pos] / 2 == 1 && (data[pos] == 2 || pos + 1 < end) {
          var incr := if data[pos] == 2 then 1 else data[pos + 1];
          if frame + incr < n {
            DecodeBeyond(data, next, end, frame + incr, [], n, m);
          }
        }
      }
    }
  }

  lemma {:induction false} ReplayBeyond(data: seq<byte>, pos: nat, end: nat, frame: nat, src: seq<byte>, k: nat,
                                        l: byte, g: nat, resumed: bool, n: nat, m: nat)
    requires pos <= end <= |data| && k <= |src| && l <= 1 && frame < n <= m
    ensures Replay(data, pos, end, frame, src, k, l, g, resumed, Config(n, m))
         == Replay(data, pos, end, frame, src, k, l, g, resumed, Config(n, n))
    decreases end - pos, 1, if g < n then n - g else 0, |src| - k
  {
    hide PayloadExtent, ExtensionExtent, ReplayedId;
    if g >= n {
      var next := if l == 0 then frame + 1 else frame;
      if next < n {
        DecodeBeyond(data, pos, end, next, [], n, m);
      }
    } else if k == |src| {
      ReplayBeyond(data, pos, end, frame, src, 0, l, g + 1, resumed, n, m);
    } else if src[k] <= 3 {
      ReplayBeyond(data, pos, end, frame, src, k + 1, l, g, resumed, n, m);
    } else {
      var x := PayloadExtent(data, pos, end, TrailingFlags(src, |src|), ReplayedId(src, k, l, g, n));
      if x.Extent? {
        ReplayBeyond(data, pos + x.total, end, frame, src, k + 1, l, g, true, n, m);
      }
    }
  }

  lemma {:induction false} BelowWhole(t: Trace, n: nat, m: nat)
    requires AllFrom(t, 0, Config(n, n)) && n <= m && Complete(t)
    ensures Below(t, m) == t
  {
    if t.Yields? {
      BelowWhole(t.rest, n, m);
    }
  }

  /** An extension of frame 0, with no frames at all. */
  const STRAY: seq<byte> := [6]

  lemma StrayAlways(m: nat)
    requires m > 0
    ensures Below(DecodeAll(STRAY, Config(0, m)), m) != Below(DecodeAll(STRAY, Config(0, 0)), m)
  {
    assert ExtensionExtent(STRAY, 0, 1) == Extent(1, 1);
    assert Decode(STRAY, 1, 1, 0, [6], Config(0, m)) == Finished;
    assert DecodeAll(STRAY, Config(0, m)).Yields?;
  }

  /** On any bytes, limiting the frames to those below `m` hands out exactly the extensions of those
      frames, in the same order; and it ends without an error if the unlimited iteration does. */
  lemma FrameLimit(data: seq<byte>, n: nat, m: nat)
    requires n > 0 || m == 0
    ensures Below(DecodeAll(data, Config(n, m)), m) == Below(DecodeAll(data, Config(n, n)), m)
    ensures Complete(DecodeAll(data, Config(n, n))) ==>
              DecodeAll(data, Config(n, m)) == Below(DecodeAll(data, Config(n, n)), m)
  {
    hide Decode;
    if m <= n {
      LowerLimit(data, n, m);
    } else {
      DecodeBeyond(data, 0, |data|, 0, [], n, m);
      if Complete(DecodeAll(data, Config(n, n))) {
        LimitedFrames(data, Config(n, n));
        BelowWhole(DecodeAll(data, Config(n, n)), n, m);
      }
    }
  }

  ghost predicate LimitExact(data: seq<byte>, n: nat, m: nat) {
    Below(DecodeAll(data, Config(n, m)), m) == Below(DecodeAll(data, Config(n, n)), m)
  }

  /** That is so for all bytes if and only if there are frames, or none are wanted. */
  lemma FrameLimitIff(n: nat, m: nat)
    ensures (forall data: seq<byte> :: LimitExact(data, n, m)) <==> n > 0 || m == 0
  {
    if n > 0 || m == 0 {
      forall data: seq<byte>
        ensures LimitExact(data, n, m)
      {
        FrameLimit(data, n, m);
      }
    } else {
      StrayAlways(m);
      assert !LimitExact(STRAY, n, m);
    }
  }

  // ----- errors behind the limit -----

  /** The frame in which the reader is when it comes to the end, or to what it cannot read. */
  function StopFrame(data: seq<byte>, pos: nat, end: nat, frame: nat, src: seq<byte>, c: Config): nat
    requires pos <= end <= |data|
    decreases end - pos, 0, 0, 0
  {
    if pos == end then frame
    else match ExtensionExtent(data, pos, end)
      case Malformed => frame
      case Extent(_, total) =>
        var next := pos + total;
        var id, l := data[pos] / 2, data[pos] % 2;
        if id == 1 then
          var incr := if l == 0 then 1 else data[pos + 1];
          if incr == 0 then StopFrame(data, next, end, frame, src + [data[pos]], c)
          else if frame + incr >= c.nbFrames || frame + incr >= c.frameMax then frame
          else StopFrame(data, next, end, frame + incr, [], c)
        else if id == 2 then ReplayStop(data, next, end, frame, src, 0, l, frame + 1, false, c)
        else StopFrame(data, next, end, frame, src + [data[pos]], c)
  }

  /** The same inside a repeat, where the reader is still in the frame of the indicator. */
  function ReplayStop(data: seq<byte>, pos: nat, end: nat, frame: nat, src: seq<byte>, k: nat, l: byte,
                      g: nat, resumed: bool, c: Config): nat
    requires pos <= end <= |data| && k <= |src|
    decreases end - pos, 1, if g < c.nbFrames then c.nbFrames - g else 0, |src| - k
  {
    if g >= c.nbFrames then
      var next := if l == 0 then frame + 1 else frame;
      if (resumed && next >= c.frameMax) || (l == 0 && next >= c.nbFrames) then next
      else StopFrame(data, pos, end, next, [], c)
    else if k == |src| then ReplayStop(data, pos, end, frame, src, 0, l, g + 1, resumed, c)
    else if src[k] <= 3 then ReplayStop(data, pos, end, frame, src, k + 1, l, g, resumed, c)
    else match PayloadExtent(data, pos, end, TrailingFlags(src, |src|), ReplayedId(src, k, l, g, c.nbFrames))
      case Malformed => frame
      case Extent(_, total) =>
        ReplayStop(data, pos + total, end, frame, src, k + 1, l, g, resumed || g < c.frameMax, c)
  }

  /** The iteration fails at bytes that the reader comes to in a frame that is not wanted. */
  ghost predicate FailsBehind(data: seq<byte>, n: nat, m: nat) {
    !Complete(DecodeAll(data, Config(n, m))) && StopFrame(data, 0, |data|, 0, [], Config(n, m)) >= m
  }

  lemma {:induction false} DecodeStops(data: seq<byte>, pos: nat, end: nat, frame: nat, src: seq<byte>, c: Config)
    requires pos <= end <= |data| && (frame < c.nbFrames || frame == 0)
    ensures Complete(Decode(data, pos, end, frame, src, c))
            || StopFrame(data, pos, end, frame, src, c) < AtLeastOne(c.nbFrames)
    decreases end - pos, 0, 0, 0
  {
    hide PayloadExtent, ExtensionExtent, ReplayedId;
    if pos < end && ExtensionExtent(data, pos, end).Extent? {
      var next := pos + ExtensionExtent(data, pos, end).total;
      if data[pos] / 2 == 2 {
        ReplayStops(data, next, end, frame, src, 0, data[pos] % 2, frame + 1, false, c);
      } else {
        DecodeStops(data, next, end, frame, src + [data[pos]], c);
        if data[pos] / 2 == 1 && (data[pos] == 2 || pos + 1 < end) {
          var incr := if data[pos] == 2 then 1 else data[pos + 1];
          if frame + incr < c.nbFrames {
            DecodeStops(data, next, end, frame + incr, [], c);
          }
        }
      }
    }
  }

  lemma {:induction false} ReplayStops(data: seq<byte>, pos: nat, end: nat, frame: nat, src: seq<byte>, k: nat,
                                       l: byte, g: nat, resumed: bool, c: Config)
    requires pos <= end <= |data| && k <= |src| && l <= 1 && (frame < c.nbFrames || frame == 0)
    ensures Complete(Replay(data, pos, end, frame, src, k, l, g, resumed, c))
         || ReplayStop(data, pos, end, frame, src, k, l, g, resumed, c) < AtLeastOne(c.nbFrames)
    decreases end - pos, 1, if g < c.nbFrames then c.nbFrames - g else 0, |src| - k
  {
    hide PayloadExtent, ExtensionExtent, ReplayedId;
    if g >= c.nbFrames {
      var next := if l == 0 then frame + 1 else frame;
      if next < c.nbFrames || next == 0 {
        DecodeStops(data, pos, end, next, [], c);
      }
    } else if k == |src| {
      ReplayStops(data, pos, end, frame, src, 0, l, g + 1, resumed, c);
    } else if src[k] <= 3 {
      ReplayStops(data, pos, end, frame, src, k + 1, l, g, resumed, c);
    } else {
      var x := PayloadExtent(data, pos, end, TrailingFlags(src, |src|), ReplayedId(src, k, l, g, c.nbFrames));
      if x.Extent? {
        ReplayStops(data, pos + x.total, end, frame, src, k + 1, l, g, resumed || g < c.frameMax, c);
      }
    }
  }

  /** One frame after the other up to frame `m - 1`, a repeat of nothing, and an extension without its length. */
  function LateError(m: nat): seq<byte>
    requires m > 0
  {
    seq(m - 1, _ => 2) + [4, 67]
  }

  lemma {:induction false} EmptyRepeat(data: seq<byte>, pos: nat, end: nat, frame: nat, g: nat, c: Config)
    requires pos <= end <= |data| && frame < g && frame + 1 < c.nbFrames
    ensures Replay(data, pos, end, frame, [], 0, 0, g, false, c) == Decode(data, pos, end, frame + 1, [], c)
    ensures ReplayStop(data, pos, end, frame, [], 0, 0, g, false, c) == StopFrame(data, pos, end, frame + 1, [], c)
    decreases c.nbFrames - g
  {
    hide Decode, StopFrame;
    if g < c.nbFrames {
      EmptyRepeat(data, pos, end, frame, g + 1, c);
    }
  }

  lemma {:induction false} LateErrorFound(m: nat, f: nat, c: Config)
    requires f < m == c.frameMax < c.nbFrames
    ensures !Complete(Decode(LateError(m), f, m + 1, f, [], c)) && StopFrame(LateError(m), f, m + 1, f, [], c) == m
    decreases m - f
  {
    hide Replay, ReplayStop, Lacing;
    var data := LateError(m);
    if f < m - 1 {
      assert ExtensionExtent(data, f, m + 1) == Extent(1, 1);
      LateErrorFound(m, f + 1, c);
    } else {
      assert data[m - 1] == 4 && data[m] == 67;
      assert ExtensionExtent(data, f, m + 1) == Extent(1, 1);
      EmptyRepeat(data, m, m + 1, f, f + 1, c);
      NoLength(data, m);
    }
  }

  lemma NoLength(data: seq<byte>, pos: nat)
    requires pos < |data| && data[pos] == 67
    ensures ExtensionExtent(data, pos, pos + 1) == Malformed
  {}

  /** No bytes make an iteration fail in a frame that is not wanted if and only if all frames are
      wanted, or none: a repeat that hands out nothing takes the reader past the limit. */
  lemma LateErrorIff(n: nat, m: nat)
    ensures (forall data: seq<byte> :: !FailsBehind(data, n, m)) <==> m == 0 || m >= n
  {
    hide Decode, StopFrame;
    if m == 0 || m >= n {
      forall data: seq<byte>
        ensures !FailsBehind(data, n, m)
      {
        DecodeStops(data, 0, |data|, 0, [], Config(n, m));
      }
    } else {
      LateErrorFound(m, 0, Config(n, m));
      assert FailsBehind(LateError(m), n, m);
    }
  }

  /** One extension of frame 0 of two, which alone is wanted. Behind a separator the rest is not looked
      at; behind a repeat it is, although nothing of frame 1 has been handed out either. */
  lemma LimitAfterRepeat(e: Extension)
    requires e == Extension(3, 0, [], 0)
    ensures DecodeAll([6, 2, 2], Config(2, 1)) == Yields(e, Finished)
    ensures DecodeAll([6, 4, 2], Config(2, 1)) == Yields(e, Failed)
  {
    hide Replay, Lacing;
    var c := Config(2, 1);
    var a: seq<byte>, b: seq<byte> := [6, 2, 2], [6, 4, 2];
    assert a[1..1] == [] && b[1..1] == [];
    assert ExtensionExtent(a, 0, 3) == ExtensionExtent(a, 1, 3) == Extent(1, 1);
    assert ExtensionExtent(b, 0, 3) == ExtensionExtent(b, 1, 3) == ExtensionExtent(b, 2, 3) == Extent(1, 1);
    assert Decode(a, 1, 3, 0, [6], c) == Finished;
    assert Decode(b, 2, 3, 1, [], c) == Failed;
    NothingWanted(b, c);
    assert Decode(b, 1, 3, 0, [6], c) == Failed;
    assert [] + [b[0]] == [6];
  }

  lemma NothingWanted(data: seq<byte>, c: Config)
    requires data == [6, 4, 2] && c == Config(2, 1)
    ensures Replay(data, 2, 3, 0, [6], 0, 0, 1, false, c) == Decode(data, 2, 3, 1, [], c)
  {
    hide Decode;
    assert PayloadExtent(data, 2, 3, 0, 6) == Extent(0, 0);
    assert Replay(data, 2, 3, 0, [6], 1, 0, 1, false, c) == Replay(data, 2, 3, 0, [6], 0, 0, 2, false, c);
  }

  /** Every extension belongs to one of the frames. */
  ghost predicate InFrames(t: Trace, n: nat) {
    t.Yields? ==> t.ext.frame < n && InFrames(t.rest, n)
  }

  lemma {:induction false} FromInFrames(t: Trace, c: Config)
    requires AllFrom(t, 0, c) && (c.nbFrames > 0 || c.frameMax == 0)
    ensures InFrames(t, c.nbFrames)
  {
    if t.Yields? {
      FromInFrames(t.rest, c);
    }
  }

  /** Whatever the bytes, only extensions of the packet's frames come out, if and only if there are
      frames or none are wanted. */
  lemma InFramesIff(c: Config)
    ensures (forall data: seq<byte> :: InFrames(DecodeAll(data, c), c.nbFrames)) <==> c.nbFrames > 0 || c.frameMax == 0
  {
    hide Decode;
    if c.nbFrames > 0 || c.frameMax == 0 {
      forall data: seq<byte>
        ensures InFrames(DecodeAll(data, c), c.nbFrames)
      {
        LimitedFrames(data, c);
        FromInFrames(DecodeAll(data, c), c);
      }
    } else {
      StrayFirst(c.frameMax);
      assert !InFrames(DecodeAll(STRAY, c), c.nbFrames);
    }
  }

  lemma StrayFirst(m: nat)
    requires m > 0
    ensures DecodeAll(STRAY, Config(0, m)).Yields? && DecodeAll(STRAY, Config(0, m)).ext.frame == 0
  {
    assert ExtensionExtent(STRAY, 0, 1) == Extent(1, 1);
  }

  /** The limit never lets a later frame through. */
  lemma LimitedFrames(data: seq<byte>, c: Config)
    ensures AllFrom(DecodeAll(data, c), 0, c)
  {
    DecodeFrom(data, 0, |data|, 0, [], c);
  }
}
