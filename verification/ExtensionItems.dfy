/** What the reader makes of every item, in particular of those that the writer never writes: padding
    inside a frame, long separators, repeats of nothing, and items that are cut short. */
module ExtensionItems {
  import opened ExtensionSyntax
  import opened ExtensionDecoding
  import opened ExtensionEncoding
  import opened ExtensionReading
  import opened ExtensionFormat
  import ExtensionIterator

  // ----- items by themselves -----

  /** Where an extension was written, it is handed out, and decoding goes on behind it. */
  lemma ItemRead(data: seq<byte>, pos: nat, end: nat, frame: nat, src: seq<byte>, c: Config, e: Extension, last: bool)
    requires Written(data, pos, end, e, last) && pos < end
    ensures var next := pos + |ExtensionBytes(e, last)|;
            Decode(data, pos, end, frame, src, c)
            == Yield(frame < c.frameMax, e.id, frame, e.data,
                     Decode(data, next, end, frame, src + [IdByte(e, last)], c))
  {
    hide Lacing, LengthField, PayloadExtent, At;
    var b := IdByte(e, last);
    AtSplit(data, pos, [b], PayloadBytes(e, last));
    FirstByte(data, pos, b);
    PayloadRead(data, pos + 1, end, 0, e, last);
    ExtensionIterator.DecodeExtension(data, pos, end, frame, src, c);
  }

  lemma FirstByte(data: seq<byte>, pos: nat, b: byte)
    requires At(data, pos, [b])
    ensures pos < |data| && data[pos] == b
  {
    assert [b][0] == b;
  }

  /** Where none was written, decoding fails. */
  lemma ItemMissing(data: seq<byte>, pos: nat, end: nat, frame: nat, src: seq<byte>, c: Config)
    requires pos < end <= |data| && data[pos] >= 6 && forall e, last: bool :: !Written(data, pos, end, e, last)
    ensures Decode(data, pos, end, frame, src, c) == Failed
  {
    hide ExtensionExtent, Written;
    ExtentIff(data, pos, end);
  }

  /** A byte 2, or a byte 3 and a number `n`, leads to a later frame of the packet, or fails. */
  lemma SeparatorIs(data: seq<byte>, pos: nat, end: nat, frame: nat, src: seq<byte>, c: Config, n: nat)
    requires pos < end <= |data| && n > 0
    requires if data[pos] == 2 then n == 1 else data[pos] == 3 && pos + 1 < end && n == data[pos + 1]
    ensures var next := if data[pos] == 2 then pos + 1 else pos + 2;
            Decode(data, pos, end, frame, src, c)
            == if frame + n >= c.nbFrames then Failed
               else if frame + n >= c.frameMax then Finished
               else Decode(data, next, end, frame + n, [], c)
  {
    hide Lacing;
    assert ExtensionExtent(data, pos, end) == Extent(1, if data[pos] == 2 then 1 else 2);
  }

  lemma SeparatorCut(data: seq<byte>, pos: nat, frame: nat, src: seq<byte>, c: Config)
    requires pos < |data| && data[pos] == 3
    ensures Decode(data, pos, pos + 1, frame, src, c) == Failed
  {}

  // ----- repeats -----

  /** The payload that the id byte `b` announces was written with its end in front of `end`. */
  ghost predicate PayloadAt(data: seq<byte>, pos: nat, end: nat, b: byte, e: Extension) {
    Writable(e) && IdByte(e, false) == b && pos + |PayloadBytes(e, false)| <= end <= |data|
    && At(data, pos, PayloadBytes(e, false))
  }

  /** Where the payload of a repeated extension was written, it is handed out for the later frame. */
  lemma RepeatedRead(data: seq<byte>, pos: nat, end: nat, frame: nat, src: seq<byte>, k: nat, l: byte, g: nat,
                     resumed: bool, c: Config, e: Extension)
    requires g < c.nbFrames && k < |src| && src[k] >= 6
    requires PayloadAt(data, pos, end, ReplayedId(src, k, l, g, c.nbFrames), e)
    ensures var next := pos + |PayloadBytes(e, false)|;
            Replay(data, pos, end, frame, src, k, l, g, resumed, c)
            == Yield(g < c.frameMax, e.id, g, e.data,
                     Replay(data, next, end, frame, src, k + 1, l, g, resumed || g < c.frameMax, c))
  {
    hide Lacing, LengthField, PayloadExtent, At, ReplayedId;
    PayloadRead(data, pos, end, TrailingFlags(src, |src|), e, false);
  }

  /** Where it was not, decoding fails. */
  lemma RepeatedMissing(data: seq<byte>, pos: nat, end: nat, frame: nat, src: seq<byte>, k: nat, l: byte, g: nat,
                        resumed: bool, c: Config)
    requires pos <= end <= |data| && g < c.nbFrames && k < |src| && src[k] >= 6
    requires !IsGreedy(ReplayedId(src, k, l, g, c.nbFrames))
    requires forall e :: !PayloadAt(data, pos, end, ReplayedId(src, k, l, g, c.nbFrames), e)
    ensures Replay(data, pos, end, frame, src, k, l, g, resumed, c) == Failed
  {
    hide Lacing, PayloadExtent, ReplayedId, PayloadAt;
    var b := ReplayedId(src, k, l, g, c.nbFrames);
    var x := PayloadExtent(data, pos, end, TrailingFlags(src, |src|), b);
    if x.Extent? {
      PayloadWritten(data, pos, end, TrailingFlags(src, |src|), b);
    }
  }

  lemma PayloadWritten(data: seq<byte>, pos: nat, end: nat, trailing: nat, b: byte)
    requires pos <= end <= |data| && b >= 6 && !IsGreedy(b) && PayloadExtent(data, pos, end, trailing, b).Extent?
    ensures var x := PayloadExtent(data, pos, end, trailing, b);
            PayloadAt(data, pos, end, b, Read(b / 2, data, pos + x.header, pos + x.total))
  {
    hide Lacing, LengthBytes, At;
    var x := PayloadExtent(data, pos, end, trailing, b);
    var from, to := pos + x.header, pos + x.total;
    if b >= 64 {
      LacingWritten(data, pos, end);
    }
    assert data[pos..from] == LengthField(Read(b / 2, data, from, to), false);
    assert data[pos..to] == data[pos..from] + data[from..to];
    SliceAt(data, pos, to);
  }

  lemma {:induction false} ReplayNothing(data: seq<byte>, pos: nat, end: nat, frame: nat, src: seq<byte>, l: byte,
                                         g: nat, c: Config)
    requires pos <= end <= |data| && (src == [] || g >= c.nbFrames)
    ensures Replay(data, pos, end, frame, src, 0, l, g, false, c)
         == if l == 0 && frame + 1 >= c.nbFrames then Finished
            else Decode(data, pos, end, if l == 0 then frame + 1 else frame, [], c)
    decreases c.nbFrames - g
  {
    hide Decode;
    if g < c.nbFrames {
      ReplayNothing(data, pos, end, frame, src, l, g + 1, c);
    }
  }

  // ----- padding between items -----

  /** The first `n` of the id bytes without those of padding. */
  function Items(src: seq<byte>, n: nat): seq<byte>
    requires n <= |src|
  {
    if n == 0 then [] else if src[n - 1] <= 3 then Items(src, n - 1) else Items(src, n - 1) + [src[n - 1]]
  }

  lemma {:induction false} ItemsAppend(src: seq<byte>, b: byte, n: nat)
    requires n <= |src|
    ensures Items(src + [b], n) == Items(src, n)
  {
    if n > 0 {
      ItemsAppend(src, b, n - 1);
    }
  }

  lemma AllItems(src: seq<byte>, b: byte)
    ensures Items(src + [b], |src| + 1) == if b <= 3 then Items(src, |src|) else Items(src, |src|) + [b]
  {
    ItemsAppend(src, b, |src|);
  }

  lemma {:induction false} ItemsOfItems(src: seq<byte>, n: nat)
    requires n <= |src|
    ensures Items(Items(src, n), |Items(src, n)|) == Items(src, n)
  {
    if n > 0 {
      ItemsOfItems(src, n - 1);
      AllItems(Items(src, n - 1), src[n - 1]);
    }
  }

  /** Where item `k` is among the items. */
  lemma {:induction false} ItemAt(src: seq<byte>, k: nat, n: nat)
    requires k <= n <= |src|
    ensures |Items(src, k)| <= |Items(src, n)|
    ensures k < n && src[k] > 3 ==> |Items(src, k)| < |Items(src, n)| && Items(src, n)[|Items(src, k)|] == src[k]
  {
    if k < n {
      ItemAt(src, k, n - 1);
    }
  }

  lemma {:induction false} ItemsLong(src: seq<byte>, k: nat)
    requires k <= |src|
    ensures HasLong(Items(src, |src|), |Items(src, k)|) == HasLong(src, k)
    decreases |src| - k
  {
    if k < |src| {
      ItemsLong(src, k + 1);
      ItemAt(src, k, |src|);
    }
  }

  lemma {:induction false} ItemsTrailing(src: seq<byte>, n: nat)
    requires n <= |src|
    ensures TrailingFlags(Items(src, n), |Items(src, n)|) == TrailingFlags(src, n)
  {
    if n > 0 {
      ItemsTrailing(src, n - 1);
      if src[n - 1] > 3 {
        ExtensionIterator.TrailingStep(Items(src, n - 1), src[n - 1]);
      }
    }
  }

  lemma ItemsReplayed(src: seq<byte>, k: nat, l: byte, g: nat, nbFrames: nat)
    requires k < |src| && src[k] > 3
    ensures |Items(src, k)| < |Items(src, |src|)|
    ensures Items(src, |src|)[|Items(src, k)|] == src[k]
    ensures ReplayedId(Items(src, |src|), |Items(src, k)|, l, g, nbFrames) == ReplayedId(src, k, l, g, nbFrames)
    ensures |Items(src, k + 1)| == |Items(src, k)| + 1
  {
    hide HasLong;
    ItemAt(src, k, |src|);
    ItemsLong(src, k + 1);
  }

  /** What follows does not depend on padding that was read before. */
  lemma {:induction false} PaddingForgotten(data: seq<byte>, pos: nat, end: nat, frame: nat, src: seq<byte>, c: Config)
    requires pos <= end <= |data|
    ensures Decode(data, pos, end, frame, src, c) == Decode(data, pos, end, frame, Items(src, |src|), c)
    decreases end - pos, 0, 0, 0
  {
    hide Decode, Replay, PayloadExtent, Items;
    SeparatorCount(data, pos, end);
    var t := Items(src, |src|);
    if pos == end {
      ExtensionIterator.DecodeNothing(data, pos, frame, src, c);
      ExtensionIterator.DecodeNothing(data, pos, frame, t, c);
    } else if ExtensionExtent(data, pos, end).Malformed? {
      ExtensionIterator.DecodeMalformed(data, pos, end, frame, src, c);
      ExtensionIterator.DecodeMalformed(data, pos, end, frame, t, c);
    } else if data[pos] / 2 == 2 {
      ExtensionIterator.DecodeIndicator(data, pos, end, frame, src, c);
      ExtensionIterator.DecodeIndicator(data, pos, end, frame, t, c);
      NoItems(src);
      ReplayForgotten(data, pos + 1, end, frame, src, 0, data[pos] % 2, frame + 1, false, c);
    } else if data[pos] / 2 == 1 && !(data[pos] == 3 && data[pos + 1] == 0) {
      var incr := if data[pos] == 2 then 1 else data[pos + 1];
      ExtensionIterator.DecodeSeparator(data, pos, end, frame, src, c, incr);
      ExtensionIterator.DecodeSeparator(data, pos, end, frame, t, c, incr);
    } else {
      var next := pos + ExtensionExtent(data, pos, end).total;
      PaddingForgotten(data, next, end, frame, src + [data[pos]], c);
      PaddingForgotten(data, next, end, frame, t + [data[pos]], c);
      SameItems(src, data[pos]);
      if data[pos] <= 3 {
        ExtensionIterator.DecodePadding(data, pos, end, frame, src, c);
        ExtensionIterator.DecodePadding(data, pos, end, frame, t, c);
      } else {
        ExtensionIterator.DecodeExtension(data, pos, end, frame, src, c);
        ExtensionIterator.DecodeExtension(data, pos, end, frame, t, c);
      }
    }
  }

  lemma SeparatorCount(data: seq<byte>, pos: nat, end: nat)
    requires pos <= end <= |data|
    ensures pos < end && data[pos] == 3 && ExtensionExtent(data, pos, end).Extent? ==> pos + 1 < end
  {}

  lemma NoItems(src: seq<byte>)
    ensures Items(src, 0) == []
  {}

  lemma SameItems(src: seq<byte>, b: byte)
    ensures var t := Items(src, |src|); Items(t + [b], |t + [b]|) == Items(src + [b], |src + [b]|)
  {
    hide Items;
    AllItems(src, b);
    AllItems(Items(src, |src|), b);
    ItemsOfItems(src, |src|);
  }

  lemma NoItem(src: seq<byte>, k: nat)
    requires k < |src| && src[k] <= 3
    ensures Items(src, k + 1) == Items(src, k)
  {}

  lemma {:induction false} ReplayForgotten(data: seq<byte>, pos: nat, end: nat, frame: nat, src: seq<byte>, k: nat,
                                           l: byte, g: nat, resumed: bool, c: Config)
    requires pos <= end <= |data| && k <= |src|
    ensures |Items(src, k)| <= |Items(src, |src|)|
    ensures Replay(data, pos, end, frame, src, k, l, g, resumed, c)
         == Replay(data, pos, end, frame, Items(src, |src|), |Items(src, k)|, l, g, resumed, c)
    decreases end - pos, 1, if g < c.nbFrames then c.nbFrames - g else 0, |src| - k
  {
    hide Decode, PayloadExtent, Items, ReplayedId, TrailingFlags;
    ItemAt(src, k, |src|);
    if g < c.nbFrames {
      if k == |src| {
        NoItems(src);
        ReplayForgotten(data, pos, end, frame, src, 0, l, g + 1, resumed, c);
      } else if src[k] <= 3 {
        NoItem(src, k);
        ReplayForgotten(data, pos, end, frame, src, k + 1, l, g, resumed, c);
      } else {
        ItemsReplayed(src, k, l, g, c.nbFrames);
        ItemsTrailing(src, |src|);
        var x := PayloadExtent(data, pos, end, TrailingFlags(src, |src|), ReplayedId(src, k, l, g, c.nbFrames));
        if x.Extent? {
          ReplayForgotten(data, pos + x.total, end, frame, src, k + 1, l, g, resumed || g < c.frameMax, c);
        }
      }
    }
  }

  /** Padding between extensions changes nothing, not even in a repeat of these extensions. */
  lemma PaddingInside(data: seq<byte>, pos: nat, end: nat, frame: nat, src: seq<byte>, c: Config)
    requires pos < end <= |data|
    ensures data[pos] == 1 ==> Decode(data, pos, end, frame, src, c) == Decode(data, pos + 1, end, frame, src, c)
    ensures pos + 1 < end && data[pos] == 3 && data[pos + 1] == 0 ==>
              Decode(data, pos, end, frame, src, c) == Decode(data, pos + 2, end, frame, src, c)
  {
    hide Decode, Items;
    SmallPadding(data, pos, end, frame, src, c);
    AllItems(src, data[pos]);
    if data[pos] == 1 {
      PaddingForgotten(data, pos + 1, end, frame, src, c);
      PaddingForgotten(data, pos + 1, end, frame, src + [data[pos]], c);
    }
    if pos + 1 < end && data[pos] == 3 && data[pos + 1] == 0 {
      PaddingForgotten(data, pos + 2, end, frame, src, c);
      PaddingForgotten(data, pos + 2, end, frame, src + [data[pos]], c);
    }
  }

  /** A repeat of nothing but padding, or for no frame at all: 5 goes on in the same frame, and 4 in
      the next one, if there is one, but ends the data if there is none. */
  lemma NothingRepeated(data: seq<byte>, pos: nat, end: nat, frame: nat, src: seq<byte>, c: Config)
    requires pos < end <= |data| && (Items(src, |src|) == [] || frame + 1 >= c.nbFrames)
    ensures data[pos] == 5 ==> Decode(data, pos, end, frame, src, c) == Decode(data, pos + 1, end, frame, [], c)
    ensures data[pos] == 4 ==>
              Decode(data, pos, end, frame, src, c)
              == if frame + 1 < c.nbFrames then Decode(data, pos + 1, end, frame + 1, [], c) else Finished
  {
    hide Decode, Items;
    if data[pos] == 4 || data[pos] == 5 {
      PaddingForgotten(data, pos, end, frame, src, c);
      var t := Items(src, |src|);
      ExtensionIterator.DecodeIndicator(data, pos, end, frame, t, c);
      ReplayNothing(data, pos + 1, end, frame, t, data[pos] % 2, frame + 1, c);
    }
  }
}
