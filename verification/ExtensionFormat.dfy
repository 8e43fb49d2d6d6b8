/** The format in literal bytes: what is read is what can be written, in the shortest form, and what
    padding means. */
module ExtensionFormat {
  import opened ExtensionSyntax
  import opened ExtensionDecoding
  import opened ExtensionEncoding
  import opened ExtensionReading
  import ExtensionIterator

  // ----- one extension -----

  /** A length field is the one that the writer would write. */
  lemma {:induction false} LacingWritten(data: seq<byte>, pos: nat, end: nat)
    requires pos <= end <= |data| && Lacing(data, pos, end).Extent?
    ensures var x := Lacing(data, pos, end);
            pos + x.header <= end && data[pos..pos + x.header] == LengthBytes(x.total - x.header)
    decreases end - pos
  {
    if data[pos] == 255 {
      LacingWritten(data, pos + 1, end);
      var x := Lacing(data, pos, end);
      assert data[pos..pos + x.header] == [255] + data[pos + 1..pos + x.header];
    } else {
      assert data[pos..pos + 1] == [data[pos]];
    }
  }

  /** The extension whose payload is `data[from..to]`. */
  function Read(id: byte, data: seq<byte>, from: nat, to: nat): Extension
    requires from <= to <= |data|
  {
    Extension(id, 0, data[from..to], to - from)
  }

  /** What is read as an extension is what the writer writes for it; without a length only if it runs to
      the end. */
  lemma ReadIsWritten(data: seq<byte>, pos: nat, end: nat)
    requires pos < end <= |data| && data[pos] >= 6 && ExtensionExtent(data, pos, end).Extent?
    ensures var x := ExtensionExtent(data, pos, end);
            var e := Read(data[pos] / 2, data, pos + x.header, pos + x.total);
            var open := data[pos] >= 64 && data[pos] % 2 == 0;
            Writable(e) && data[pos..pos + x.total] == ExtensionBytes(e, open) && (open ==> pos + x.total == end)
  {
    hide Lacing, LengthBytes;
    var x := ExtensionExtent(data, pos, end);
    var from, to := pos + x.header, pos + x.total;
    var e, open := Read(data[pos] / 2, data, from, to), data[pos] >= 64 && data[pos] % 2 == 0;
    if data[pos] >= 64 && !open {
      LacingWritten(data, pos + 1, end);
    }
    assert data[pos + 1..from] == LengthField(e, open);
    Parts(data, pos, from, to);
  }

  lemma Parts(data: seq<byte>, pos: nat, from: nat, to: nat)
    requires pos < from <= to <= |data|
    ensures data[pos..to] == [data[pos]] + (data[pos + 1..from] + data[from..to])
  {}

  /** `w` is one extension with that id and payload. */
  ghost predicate Says(w: seq<byte>, e: Extension) {
    && |w| > 0 && w[0] / 2 == e.id && ExtensionExtent(w, 0, |w|).Extent?
    && ExtensionExtent(w, 0, |w|).total == |w| && w[ExtensionExtent(w, 0, |w|).header..] == e.data
  }

  /** No bytes that end the data say the same in fewer bytes than those written for the last extension,
      which does without its length. */
  lemma ShortestLast(e: Extension, w: seq<byte>)
    requires Writable(e) && Says(w, e)
    ensures |ExtensionBytes(e, true)| == 1 + |e.data| <= |w|
  {
    hide Lacing;
  }

  /** No other bytes that tell where they end say it at all. */
  lemma OnlyForm(e: Extension, w: seq<byte>)
    requires Writable(e) && Says(w, e) && !(w[0] >= 64 && w[0] % 2 == 0)
    ensures w == ExtensionBytes(e, false)
  {
    hide Lacing, LengthBytes;
    ReadIsWritten(w, 0, |w|);
    assert w[0..|w|] == w;
  }

  /** What is written says what it should. */
  lemma WrittenSays(e: Extension, last: bool)
    requires Writable(e)
    ensures Says(ExtensionBytes(e, last), e)
  {
    hide PayloadExtent, LengthField, At;
    var w, b := ExtensionBytes(e, last), IdByte(e, last);
    AtWhole(w);
    AtSplit(w, 0, [b], PayloadBytes(e, last));
    PayloadRead(w, 1, |w|, 0, e, last);
    assert w[1 + |LengthField(e, last)|..|w|] == w[1 + |LengthField(e, last)|..];
  }

  lemma AtWhole(w: seq<byte>)
    ensures At(w, 0, w)
  {}

  /** An extension is read if and only if one was written there that ends in time. */
  lemma ExtentIff(data: seq<byte>, pos: nat, end: nat)
    requires pos < end <= |data| && data[pos] >= 6
    ensures ExtensionExtent(data, pos, end).Extent? <==>
              exists e, last: bool :: Written(data, pos, end, e, last)
  {
    hide Lacing, LengthBytes, At;
    if ExtensionExtent(data, pos, end).Extent? {
      ReadIsWritten(data, pos, end);
      var x := ExtensionExtent(data, pos, end);
      var e, open := Read(data[pos] / 2, data, pos + x.header, pos + x.total), data[pos] >= 64 && data[pos] % 2 == 0;
      SliceAt(data, pos, pos + x.total);
      assert Written(data, pos, end, e, open);
    }
    if e, last: bool :| Written(data, pos, end, e, last) {
      WrittenExtent(data, pos, end, e, last);
    }
  }

  ghost predicate Written(data: seq<byte>, pos: nat, end: nat, e: Extension, last: bool) {
    && Writable(e) && pos + |ExtensionBytes(e, last)| <= end <= |data| && At(data, pos, ExtensionBytes(e, last))
    && (last && e.id >= 32 ==> pos + |ExtensionBytes(e, last)| == end)
  }

  lemma SliceAt(data: seq<byte>, pos: nat, to: nat)
    requires pos <= to <= |data|
    ensures At(data, pos, data[pos..to])
  {}

  lemma WrittenExtent(data: seq<byte>, pos: nat, end: nat, e: Extension, last: bool)
    requires Written(data, pos, end, e, last) && pos < end
    ensures ExtensionExtent(data, pos, end).Extent?
  {
    var b := IdByte(e, last);
    AtSplit(data, pos, [b], PayloadBytes(e, last));
    assert data[pos] == [b][0];
    PayloadRead(data, pos + 1, end, 0, e, last);
  }

  /** A long payload without a length leaves the bytes that are reserved for what follows, if there are so many. */
  lemma OpenPayload(data: seq<byte>, pos: nat, end: nat, trailing: nat, idByte: byte)
    requires pos <= end <= |data| && idByte >= 64 && idByte % 2 == 0
    ensures PayloadExtent(data, pos, end, trailing, idByte)
         == if end - pos < trailing then Malformed else Extent(0, end - pos - trailing)
  {}

  /** No separator that moves as far is shorter than the one written. */
  lemma ShortestSeparator(n: nat, w: seq<byte>)
    requires 0 < n < 256 && |w| > 0 && w[0] / 2 == 1 && ExtensionExtent(w, 0, |w|) == Extent(|w|, |w|)
    requires n == if w[0] == 2 then 1 else w[1]
    ensures |SeparatorBytes(n)| <= |w| && (n > 1 ==> SeparatorBytes(n) == w)
  {}

  // ----- padding -----

  /** A zero byte is padding up to the end, whatever follows. */
  lemma ZeroEnds(data: seq<byte>, pos: nat, end: nat, frame: nat, src: seq<byte>, c: Config)
    requires pos < end <= |data| && data[pos] == 0
    ensures Decode(data, pos, end, frame, src, c) == Finished
  {
    assert ExtensionExtent(data, pos, end) == Extent(1, end - pos);
  }

  /** Zeros alone are empty padding, however many there are. */
  lemma ZerosOnly(data: seq<byte>, c: Config)
    requires forall i :: 0 <= i < |data| ==> data[i] == 0
    ensures DecodeAll(data, c) == Finished
  {
    if |data| > 0 && c.frameMax > 0 {
      ZeroEnds(data, 0, |data|, 0, [], c);
    }
  }

  /** A byte 1 is padding of one byte, and so are two bytes 3, 0: the frame stays. */
  lemma SmallPadding(data: seq<byte>, pos: nat, end: nat, frame: nat, src: seq<byte>, c: Config)
    requires pos < end <= |data|
    ensures data[pos] == 1 ==> Decode(data, pos, end, frame, src, c) == Decode(data, pos + 1, end, frame, src + [1], c)
    ensures pos + 1 < end && data[pos] == 3 && data[pos + 1] == 0 ==>
              Decode(data, pos, end, frame, src, c) == Decode(data, pos + 2, end, frame, src + [3], c)
  {
    hide Lacing;
    if data[pos] == 1 {
      assert ExtensionExtent(data, pos, end) == Extent(1, 1);
    }
    if pos + 1 < end && data[pos] == 3 && data[pos + 1] == 0 {
      assert ExtensionExtent(data, pos, end) == Extent(1, 2);
    }
  }

  // ----- zeros behind -----

  /** Everything that is read from `pos` on tells where it ends. */
  predicate Delimited(data: seq<byte>, pos: nat, end: nat, frame: nat, src: seq<byte>, c: Config)
    requires pos <= end <= |data|
    decreases end - pos, 0, 0, 0
  {
    pos == end
    || (!IsGreedy(data[pos])
        && match ExtensionExtent(data, pos, end)
           case Malformed => false
           case Extent(header, total) =>
             var next, id, l := pos + total, data[pos] / 2, data[pos] % 2;
             if id == 1 then
               var incr := if l == 0 then 1 else data[pos + 1];
               if incr == 0 then Delimited(data, next, end, frame, src + [data[pos]], c)
               else if frame + incr >= c.nbFrames || frame + incr >= c.frameMax then true
               else Delimited(data, next, end, frame + incr, [], c)
             else if id == 2 then ReplayDelimited(data, next, end, frame, src, 0, l, frame + 1, false, c)
             else Delimited(data, next, end, frame, src + [data[pos]], c))
  }

  predicate ReplayDelimited(data: seq<byte>, pos: nat, end: nat, frame: nat, src: seq<byte>, k: nat, l: byte,
                            g: nat, resumed: bool, c: Config)
    requires pos <= end <= |data| && k <= |src|
    decreases end - pos, 1, if g < c.nbFrames then c.nbFrames - g else 0, |src| - k
  {
    if g >= c.nbFrames then
      var next := if l == 0 then frame + 1 else frame;
      (resumed && next >= c.frameMax) || (l == 0 && next >= c.nbFrames) || Delimited(data, pos, end, next, [], c)
    else if k == |src| then ReplayDelimited(data, pos, end, frame, src, 0, l, g + 1, resumed, c)
    else if src[k] <= 3 then ReplayDelimited(data, pos, end, frame, src, k + 1, l, g, resumed, c)
    else
      var b := ReplayedId(src, k, l, g, c.nbFrames);
      !IsGreedy(b)
      && match PayloadExtent(data, pos, end, TrailingFlags(src, |src|), b)
         case Malformed => false
         case Extent(header, total) =>
           ReplayDelimited(data, pos + total, end, frame, src, k + 1, l, g, resumed || g < c.frameMax, c)
  }

  /** `more` is `data` with nothing or zeros behind `end`. */
  ghost predicate ZerosBehind(data: seq<byte>, more: seq<byte>, end: nat) {
    && end <= |data| && end <= |more| && data[..end] == more[..end]
    && forall i :: end <= i < |more| ==> more[i] == 0
  }

  lemma {:induction false} SameLacing(data: seq<byte>, more: seq<byte>, pos: nat, end: nat)
    requires pos <= end && ZerosBehind(data, more, end) && Lacing(data, pos, end).Extent?
    ensures Lacing(more, pos, |more|) == Lacing(data, pos, end)
    decreases end - pos
  {
    assert data[pos] == data[..end][pos] == more[pos];
    if data[pos] == 255 {
      SameLacing(data, more, pos + 1, end);
    }
  }

  /** A payload with its own end is the same with zeros behind the data. */
  lemma SamePayload(data: seq<byte>, more: seq<byte>, pos: nat, end: nat, trailing: nat, b: byte)
    requires pos <= end && ZerosBehind(data, more, end) && !IsGreedy(b)
    requires PayloadExtent(data, pos, end, trailing, b).Extent?
    ensures PayloadExtent(more, pos, |more|, trailing, b) == PayloadExtent(data, pos, end, trailing, b)
  {
    hide Lacing;
    if b >= 64 {
      SameLacing(data, more, pos, end);
    }
  }

  lemma SameBytes(data: seq<byte>, more: seq<byte>, end: nat, i: nat, j: nat)
    requires ZerosBehind(data, more, end) && i <= j <= end
    ensures data[i..j] == more[i..j] && (i < end ==> data[i] == more[i])
  {
    assert data[i..j] == data[..end][i..j] && more[i..j] == more[..end][i..j];
    if i < end {
      assert data[i] == data[..end][i] == more[..end][i];
    }
  }

  lemma {:induction false} ZerosChangeNothing(data: seq<byte>, more: seq<byte>, pos: nat, end: nat, frame: nat,
                                              src: seq<byte>, c: Config)
    requires pos <= end && ZerosBehind(data, more, end) && Delimited(data, pos, end, frame, src, c)
    ensures Decode(more, pos, |more|, frame, src, c) == Decode(data, pos, end, frame, src, c)
    decreases end - pos, 0, 0, 0
  {
    hide Decode, Replay, PayloadExtent, ZerosBehind;
    SizeBehind(data, more, end);
    if pos == end {
      ExtensionIterator.DecodeNothing(data, pos, frame, src, c);
      ExtensionIterator.DecodeNothing(more, pos, frame, src, c);
      if pos < |more| {
        ZeroEnds(more, pos, |more|, frame, src, c);
      }
    } else {
      SameItem(data, more, pos, end);
      var next := pos + ExtensionExtent(data, pos, end).total;
      if data[pos] / 2 == 2 {
        ExtensionIterator.DecodeIndicator(data, pos, end, frame, src, c);
        ExtensionIterator.DecodeIndicator(more, pos, |more|, frame, src, c);
        ReplayChangesNothing(data, more, next, end, frame, src, 0, data[pos] % 2, frame + 1, false, c);
      } else if data[pos] / 2 == 1 && !(data[pos] == 3 && data[pos + 1] == 0) {
        var incr := if data[pos] == 2 then 1 else data[pos + 1];
        ExtensionIterator.DecodeSeparator(data, pos, end, frame, src, c, incr);
        ExtensionIterator.DecodeSeparator(more, pos, |more|, frame, src, c, incr);
        ExtensionIterator.DecodeNothing(data, next, frame + incr, [], c);
        ExtensionIterator.DecodeNothing(more, next, frame + incr, [], c);
        if frame + incr < c.nbFrames && frame + incr < c.frameMax {
          ZerosChangeNothing(data, more, next, end, frame + incr, [], c);
        }
      } else {
        ZerosChangeNothing(data, more, next, end, frame, src + [data[pos]], c);
        if data[pos] <= 3 {
          ExtensionIterator.DecodePadding(data, pos, end, frame, src, c);
          ExtensionIterator.DecodePadding(more, pos, |more|, frame, src, c);
        } else {
          ExtensionIterator.DecodeExtension(data, pos, end, frame, src, c);
          ExtensionIterator.DecodeExtension(more, pos, |more|, frame, src, c);
        }
      }
    }
  }

  /** An item with its own end is the same with zeros behind the data. */
  lemma SameItem(data: seq<byte>, more: seq<byte>, pos: nat, end: nat)
    requires pos < end && ZerosBehind(data, more, end) && !IsGreedy(data[pos])
    requires ExtensionExtent(data, pos, end).Extent?
    ensures pos < |more| && ExtensionExtent(more, pos, |more|) == ExtensionExtent(data, pos, end)
    ensures more[pos] == data[pos] && (data[pos] == 3 ==> pos + 1 < end && more[pos + 1] == data[pos + 1])
    ensures var x := ExtensionExtent(data, pos, end);
            more[pos + x.header..pos + x.total] == data[pos + x.header..pos + x.total]
  {
    hide Lacing, ZerosBehind;
    SizeBehind(data, more, end);
    SameBytes(data, more, end, pos, pos);
    SamePayload(data, more, pos + 1, end, 0, data[pos]);
    var x := ExtensionExtent(data, pos, end);
    SameBytes(data, more, end, pos + x.header, pos + x.total);
    if data[pos] == 3 {
      SameBytes(data, more, end, pos + 1, pos + 1);
    }
  }

  lemma SizeBehind(data: seq<byte>, more: seq<byte>, end: nat)
    requires ZerosBehind(data, more, end)
    ensures end <= |data| && end <= |more| && forall i :: end <= i < |more| ==> more[i] == 0
  {}

  lemma {:induction false} ReplayChangesNothing(data: seq<byte>, more: seq<byte>, pos: nat, end: nat, frame: nat,
                                                src: seq<byte>, k: nat, l: byte, g: nat, resumed: bool, c: Config)
    requires pos <= end && k <= |src| && ZerosBehind(data, more, end)
    requires ReplayDelimited(data, pos, end, frame, src, k, l, g, resumed, c)
    ensures Replay(more, pos, |more|, frame, src, k, l, g, resumed, c)
         == Replay(data, pos, end, frame, src, k, l, g, resumed, c)
    decreases end - pos, 1, if g < c.nbFrames then c.nbFrames - g else 0, |src| - k
  {
    hide PayloadExtent, ZerosBehind, ReplayedId;
    SizeBehind(data, more, end);
    if g >= c.nbFrames {
      var next := if l == 0 then frame + 1 else frame;
      if !(resumed && next >= c.frameMax) && !(l == 0 && next >= c.nbFrames) {
        ZerosChangeNothing(data, more, pos, end, next, [], c);
      }
    } else if k == |src| {
      ReplayChangesNothing(data, more, pos, end, frame, src, 0, l, g + 1, resumed, c);
    } else if src[k] <= 3 {
      ReplayChangesNothing(data, more, pos, end, frame, src, k + 1, l, g, resumed, c);
    } else {
      var b := ReplayedId(src, k, l, g, c.nbFrames);
      var trailing := TrailingFlags(src, |src|);
      SamePayload(data, more, pos, end, trailing, b);
      var x := PayloadExtent(data, pos, end, trailing, b);
      SameBytes(data, more, end, pos + x.header, pos + x.total);
      ReplayChangesNothing(data, more, pos + x.total, end, frame, src, k + 1, l, g, resumed || g < c.frameMax, c);
    }
  }

  /** Zeros behind data in which everything tells where it ends change nothing. */
  lemma ZerosBehindData(data: seq<byte>, zeros: seq<byte>, c: Config)
    requires Delimited(data, 0, |data|, 0, [], c) && forall i :: 0 <= i < |zeros| ==> zeros[i] == 0
    ensures DecodeAll(data + zeros, c) == DecodeAll(data, c)
  {
    hide Decode, Delimited;
    assert (data + zeros)[..|data|] == data[..|data|];
    if c.frameMax > 0 {
      ZerosChangeNothing(data, data + zeros, 0, |data|, 0, [], c);
    }
  }
}
