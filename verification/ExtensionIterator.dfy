/** The two-cursor iterator over packet extensions. It keeps no list of past extensions: a repeat is
    replayed by re-reading the bytes of the source region with a second cursor. */
module ExtensionIterator {
  import opened Wrappers
  import opened ExtensionSyntax
  import opened ExtensionDecoding

  /** `data[st..en]` is an item that can be replayed: padding, a separator that does not move, or a
      complete self-delimiting extension. */
  ghost predicate ItemAt(data: seq<byte>, st: nat, en: nat) {
    && st < en <= |data| && !IsGreedy(data[st]) && data[st] / 2 != 2
    && (data[st] / 2 == 1 ==> data[st] == 3 && st + 1 < en && data[st + 1] == 0)
    && ExtensionExtent(data, st, en).Extent? && ExtensionExtent(data, st, en).total == en - st
  }

  /** The bytes between the marks are replayable items, and `src` lists their id bytes. */
  ghost predicate RegionOk(data: seq<byte>, src: seq<byte>, marks: seq<nat>) {
    && |marks| == |src| + 1
    && forall i {:trigger src[i]} {:trigger marks[i]} :: 0 <= i < |src| ==>
         ItemAt(data, marks[i], marks[i + 1]) && src[i] == data[marks[i]]
  }

  /** The part of a trace that begins with its first extension with the given id. */
  function FirstWith(t: Trace, id: byte): Trace {
    if t.Yields? && t.ext.id != id then FirstWith(t.rest, id) else t
  }

  datatype Position = Nowhere | At(pos: nat)

  /** `lastLong` is where the last long extension of the region ends. */
  ghost predicate LastLongOk(src: seq<byte>, marks: seq<nat>, lastLong: Position) {
    && |marks| == |src| + 1
    && (lastLong.At? ==> lastLong.pos <= marks[|src|])
    && forall i {:trigger src[i]} :: 0 <= i < |src| ==>
         (lastLong == At(marks[i + 1]) <==> IsLong(src[i]) && !HasLong(src, i + 1))
  }

  lemma {:induction false} HasLongAppend(src: seq<byte>, b: byte, k: nat)
    requires k <= |src|
    ensures HasLong(src + [b], k) <==> HasLong(src, k) || IsLong(b)
    decreases |src| - k
  {
    if k < |src| {
      HasLongAppend(src, b, k + 1);
    }
  }

  lemma {:induction false} TrailingAppend(src: seq<byte>, b: byte, n: nat)
    requires n <= |src|
    ensures TrailingFlags(src + [b], n) == TrailingFlags(src, n)
  {
    if n > 0 {
      TrailingAppend(src, b, n - 1);
    }
  }

  lemma {:induction false} HasLongAt(src: seq<byte>, k: nat, i: nat)
    requires k <= i < |src| && IsLong(src[i])
    ensures HasLong(src, k)
    decreases i - k
  {
    if k < i {
      HasLongAt(src, k + 1, i);
    }
  }

  lemma {:induction false} MarksIncrease(data: seq<byte>, src: seq<byte>, marks: seq<nat>, i: nat, j: nat)
    requires RegionOk(data, src, marks) && i <= j <= |src|
    ensures marks[i] <= marks[j] && (i < j ==> marks[i] < marks[j])
    decreases j - i
  {
    if i < j {
      MarksIncrease(data, src, marks, i, j - 1);
      assert ItemAt(data, marks[j - 1], marks[j - 1 + 1]);
    }
  }

  lemma RegionAppend(data: seq<byte>, src: seq<byte>, marks: seq<nat>, en: nat)
    requires RegionOk(data, src, marks) && ItemAt(data, marks[|src|], en)
    ensures RegionOk(data, src + [data[marks[|src|]]], marks + [en])
  {
    var b := data[marks[|src|]];
    var src', marks' := src + [b], marks + [en];
    forall i | 0 <= i < |src'|
      ensures ItemAt(data, marks'[i], marks'[i + 1]) && src'[i] == data[marks'[i]]
    {
      if i < |src| {
        assert ItemAt(data, marks[i], marks[i + 1]);
      }
    }
  }

  lemma LastLongAppend(data: seq<byte>, src: seq<byte>, marks: seq<nat>, last: Position, b: byte, en: nat)
    requires RegionOk(data, src, marks) && LastLongOk(src, marks, last) && marks[|src|] < en
    ensures LastLongOk(src + [b], marks + [en], if IsLong(b) then At(en) else last)
  {
    var src', marks', last' := src + [b], marks + [en], if IsLong(b) then At(en) else last;
    forall i | 0 <= i < |src'|
      ensures last' == At(marks'[i + 1]) <==> IsLong(src'[i]) && !HasLong(src', i + 1)
    {
      if i < |src| {
        HasLongAppend(src, b, i + 1);
        MarksIncrease(data, src, marks, i + 1, |src|);
        assert last == At(marks[i + 1]) <==> IsLong(src[i]) && !HasLong(src, i + 1);
      }
    }
  }

  lemma EmptyRegion(data: seq<byte>, p: nat, last: Position)
    requires last.At? ==> last.pos <= p
    ensures RegionOk(data, [], [p]) && LastLongOk([], [p], last) && !HasLong([], 0)
  {}

  /** The item at index `k` of a region, seen through a window that reaches the end of the region. */
  lemma ItemInWindow(data: seq<byte>, src: seq<byte>, marks: seq<nat>, k: nat)
    requires RegionOk(data, src, marks) && k <= |src| && marks[k] < marks[|src|]
    ensures k < |src| && |marks| == |src| + 1 && marks[k] < marks[k + 1] <= marks[|src|] <= |data|
    ensures src[k] == data[marks[k]]
    ensures src[k] > 3 ==> src[k] / 2 > 2 && !IsGreedy(src[k])
    ensures ExtensionExtent(data, marks[k], marks[|src|]).Extent?
    ensures ExtensionExtent(data, marks[k], marks[|src|]).total == marks[k + 1] - marks[k]
  {
    MarksIncrease(data, src, marks, k, |src|);
    assert ItemAt(data, marks[k], marks[k + 1]);
    MarksIncrease(data, src, marks, k + 1, |src|);
    assert ItemAt(data, marks[|src| - 1], marks[|src| - 1 + 1]);
    ExtentIsLocal(data, marks[k], marks[k + 1], marks[|src|]);
  }

  lemma LastLongTest(src: seq<byte>, marks: seq<nat>, last: Position, k: nat)
    requires LastLongOk(src, marks, last) && k < |src|
    ensures last == At(marks[k + 1]) <==> IsLong(src[k]) && !HasLong(src, k + 1)
    ensures IsLong(src[k]) ==> HasLong(src, 0)
  {
    assert last == At(marks[k + 1]) <==> IsLong(src[k]) && !HasLong(src, k + 1);
    if IsLong(src[k]) {
      HasLongAt(src, 0, k);
    }
  }

  lemma SourceUsedUp(data: seq<byte>, src: seq<byte>, marks: seq<nat>, k: nat)
    requires RegionOk(data, src, marks) && k <= |src| && marks[k] >= marks[|src|]
    ensures k == |src|
  {
    MarksIncrease(data, src, marks, k, |src|);
  }

  /** Replaying a padding item does nothing. */
  lemma ReplayPadding(data: seq<byte>, pos: nat, end: nat, frame: nat, src: seq<byte>, k: nat, l: byte, g: nat,
                      resumed: bool, c: Config)
    requires pos <= end <= |data| && k < |src| && g < c.nbFrames && src[k] <= 3
    ensures Replay(data, pos, end, frame, src, k, l, g, resumed, c)
         == Replay(data, pos, end, frame, src, k + 1, l, g, resumed, c)
  {}

  /** Replaying an extension, with any trailing reserve that is right where it is looked at. */
  lemma ReplayExtension(data: seq<byte>, pos: nat, end: nat, frame: nat, src: seq<byte>, k: nat, l: byte, g: nat,
                        resumed: bool, c: Config, trailing: nat)
    requires pos <= end <= |data| && k < |src| && g < c.nbFrames && src[k] / 2 > 2 && !IsGreedy(src[k])
    requires IsLong(src[k]) ==> trailing == TrailingFlags(src, |src|)
    ensures var id := ReplayedId(src, k, l, g, c.nbFrames);
            Replay(data, pos, end, frame, src, k, l, g, resumed, c) ==
            match PayloadExtent(data, pos, end, trailing, id)
            case Malformed => Failed
            case Extent(header, total) =>
              Yield(g < c.frameMax, id / 2, g, data[pos + header..pos + total],
                    Replay(data, pos + total, end, frame, src, k + 1, l, g, resumed || g < c.frameMax, c))
  {}

  lemma ReplayNextFrame(data: seq<byte>, pos: nat, end: nat, frame: nat, src: seq<byte>, l: byte, g: nat,
                        resumed: bool, c: Config)
    requires pos <= end <= |data| && g < c.nbFrames
    ensures Replay(data, pos, end, frame, src, |src|, l, g, resumed, c)
         == Replay(data, pos, end, frame, src, 0, l, g + 1, resumed, c)
  {}

  /** The end of a repeat. */
  lemma ReplayEnd(data: seq<byte>, pos: nat, end: nat, frame: nat, src: seq<byte>, k: nat, l: byte, g: nat,
                  resumed: bool, c: Config)
    requires pos <= end <= |data| && k <= |src| && g >= c.nbFrames
    ensures var next := if l == 0 then frame + 1 else frame;
            var end' := if l == 0 && next >= c.nbFrames then pos else end;
            Replay(data, pos, end, frame, src, k, l, g, resumed, c)
            == if resumed && next >= c.frameMax then Finished else Decode(data, pos, end', next, [], c)
  {}

  /** Decoding a padding item, or a separator that does not move. */
  lemma DecodePadding(data: seq<byte>, pos: nat, end: nat, frame: nat, src: seq<byte>, c: Config)
    requires pos < end <= |data| && ExtensionExtent(data, pos, end).Extent?
    requires data[pos] <= 1 || (data[pos] == 3 && data[pos + 1] == 0)
    ensures Decode(data, pos, end, frame, src, c)
         == Decode(data, pos + ExtensionExtent(data, pos, end).total, end, frame, src + [data[pos]], c)
  {}

  lemma DecodeMalformed(data: seq<byte>, pos: nat, end: nat, frame: nat, src: seq<byte>, c: Config)
    requires pos < end <= |data| && ExtensionExtent(data, pos, end).Malformed?
    ensures Decode(data, pos, end, frame, src, c) == Failed
  {}

  /** Decoding a separator that moves on by `incr` frames; a cut window ends the decoding. */
  lemma DecodeSeparator(data: seq<byte>, pos: nat, end: nat, frame: nat, src: seq<byte>, c: Config, incr: nat)
    requires pos < end <= |data| && ExtensionExtent(data, pos, end).Extent? && data[pos] / 2 == 1 && incr > 0
    requires incr == if data[pos] == 2 then 1 else data[pos + 1]
    ensures var next := pos + ExtensionExtent(data, pos, end).total;
            Decode(data, pos, end, frame, src, c) ==
            if frame + incr >= c.nbFrames then Failed
            else Decode(data, next, if frame + incr >= c.frameMax then next else end, frame + incr, [], c)
  {}

  lemma DecodeIndicator(data: seq<byte>, pos: nat, end: nat, frame: nat, src: seq<byte>, c: Config)
    requires pos < end <= |data| && data[pos] / 2 == 2
    ensures ExtensionExtent(data, pos, end) == Extent(1, 1)
    ensures Decode(data, pos, end, frame, src, c)
         == Replay(data, pos + 1, end, frame, src, 0, data[pos] % 2, frame + 1, false, c)
  {}

  lemma DecodeExtension(data: seq<byte>, pos: nat, end: nat, frame: nat, src: seq<byte>, c: Config)
    requires pos < end <= |data| && ExtensionExtent(data, pos, end).Extent? && data[pos] / 2 > 2
    ensures var x := ExtensionExtent(data, pos, end);
            Decode(data, pos, end, frame, src, c) ==
            Yield(frame < c.frameMax, data[pos] / 2, frame, data[pos + x.header..pos + x.total],
                  Decode(data, pos + x.total, end, frame, src + [data[pos]], c))
  {}

  lemma DecodeNothing(data: seq<byte>, pos: nat, frame: nat, src: seq<byte>, c: Config)
    requires pos <= |data|
    ensures Decode(data, pos, pos, frame, src, c) == Finished
  {}

  lemma TrailingStep(src: seq<byte>, b: byte)
    ensures TrailingFlags(src + [b], |src| + 1) == if IsLong(b) then 0 else TrailingFlags(src, |src|) + ShortFlag(b)
  {
    TrailingAppend(src, b, |src|);
  }

  lemma RegionSize(data: seq<byte>, src: seq<byte>, marks: seq<nat>)
    requires RegionOk(data, src, marks)
    ensures |marks| == |src| + 1
  {}

  /** The region after one more item, with what the source keeps about its last long extension. */
  lemma RegionGrows(data: seq<byte>, src: seq<byte>, marks: seq<nat>, last: Position, trailing: nat, en: nat)
    requires RegionOk(data, src, marks) && LastLongOk(src, marks, last) && |marks| == |src| + 1
    requires ItemAt(data, marks[|src|], en)
    requires HasLong(src, 0) ==> trailing == TrailingFlags(src, |src|)
    ensures var b := data[marks[|src|]];
            var src', trailing' := src + [b], if IsLong(b) then 0 else trailing + ShortFlag(b);
            && RegionOk(data, src', marks + [en]) && LastLongOk(src', marks + [en], if IsLong(b) then At(en) else last)
            && (HasLong(src', 0) ==> trailing' == TrailingFlags(src', |src'|))
  {
    hide RegionOk, LastLongOk, HasLong, TrailingFlags;
    var b := data[marks[|src|]];
    RegionAppend(data, src, marks, en);
    LastLongAppend(data, src, marks, last, b, en);
    HasLongAppend(src, b, 0);
    TrailingStep(src, b);
  }

  /** What reading one item adds to the region, if it can be replayed at all. */
  lemma ReadItemAt(data: seq<byte>, pos: nat, end: nat)
    requires pos < end <= |data| && ExtensionExtent(data, pos, end).Extent?
    requires data[pos] / 2 != 2 && (data[pos] / 2 == 1 ==> data[pos] == 3 && data[pos + 1] == 0)
    ensures var en := pos + ExtensionExtent(data, pos, end).total;
            en < end ==> ItemAt(data, pos, en)
    ensures data[pos] == 3 ==> pos + 1 < end && ExtensionExtent(data, pos, end).total == 2
  {
    var en := pos + ExtensionExtent(data, pos, end).total;
    if en < end {
      ExtentIsLocal(data, pos, end, en);
    }
  }

  class OpusExtensionIterator {
    const data: seq<byte>
    var currPos: nat
    var repeatStart: nat
    var lastLong: Position
    var srcPos: nat
    var currLen: int
    var repeatLen: int
    var srcLen: int
    var trailingShortLen: nat
    const nbFrames: nat
    var frameMax: nat
    var currFrame: nat
    var repeatFrame: nat
    var repeatL: byte

    /** The id bytes since the last boundary, where each item begins, and the item that the source
        cursor is at. */
    ghost var src: seq<byte>
    ghost var marks: seq<nat>
    ghost var k: nat

    ghost function Cfg(): Config
      reads this
    {
      Config(nbFrames, frameMax)
    }

    /** The main cursor owns everything from its position on, unless it was cut off. */
    ghost predicate CursorOk()
      reads this
    {
      && nbFrames <= MAX_FRAMES_PER_PACKET && |data| <= MAX_I32
      && 0 <= currLen && currPos + currLen <= |data|
      && (currPos + currLen == |data| || currLen == 0)
    }

    ghost predicate TailOk()
      reads this
    {
      && RegionOk(data, src, marks) && LastLongOk(src, marks, lastLong) && marks[0] == repeatStart
      && (HasLong(src, 0) ==> trailingShortLen == TrailingFlags(src, |src|))
    }

    /** Between repeats: everything since the last boundary can be replayed. */
    ghost predicate ReadingOk()
      reads this
    {
      CursorOk() && repeatFrame == 0 && (currLen > 0 ==> TailOk() && marks[|src|] == currPos)
    }

    /** Inside a repeat: the source region ends at the indicator, and the source cursor is at one of
        its items. */
    ghost predicate ReplayingOk()
      reads this
    {
      && CursorOk() && currFrame < repeatFrame && TailOk() && marks[|src|] == repeatStart + repeatLen
      && k <= |src| && srcPos == marks[k] && srcPos + srcLen == marks[|src|]
    }

    ghost predicate Valid()
      reads this
    {
      if repeatFrame == 0 then ReadingOk() else ReplayingOk()
    }

    ghost function ReadingTrace(): Trace
      requires CursorOk()
      reads this
    {
      Decode(data, currPos, currPos + currLen, currFrame, src, Cfg())
    }

    ghost function ReplayTrace(resumed: bool): Trace
      requires ReplayingOk()
      reads this
    {
      Replay(data, currPos, currPos + currLen, currFrame, src, k, repeatL, repeatFrame, resumed, Cfg())
    }

    /** Everything that later calls of NextExtension will yield, by the reference decoder. */
    ghost function Remaining(): Trace
      requires Valid()
      reads this
    {
      if repeatFrame > 0 then ReplayTrace(true)
      else if currFrame >= frameMax then Finished
      else ReadingTrace()
    }

    /** Nothing has been read yet. */
    ghost predicate Fresh()
      reads this
    {
      currPos == 0 && currLen == |data| && currFrame == 0 && repeatFrame == 0 && src == []
    }

    constructor (data: seq<byte>, nbFrames: nat)
      requires nbFrames <= MAX_FRAMES_PER_PACKET && |data| <= MAX_I32
      ensures Fresh() && Valid() && Remaining() == DecodeAll(data, Config(nbFrames, nbFrames))
      ensures this.data == data && this.nbFrames == nbFrames && frameMax == nbFrames
    {
      this.data := data;
      currPos := 0;
      repeatStart := 0;
      lastLong := Nowhere;
      srcPos := 0;
      currLen := |data|;
      repeatLen := 0;
      srcLen := 0;
      trailingShortLen := 0;
      this.nbFrames := nbFrames;
      frameMax := nbFrames;
      currFrame := 0;
      repeatFrame := 0;
      repeatL := 0;
      src, marks, k := [], [0], 0;
      new;
      FreshState();
    }

    /** What the state means when nothing has been read. */
    lemma FreshState()
      requires nbFrames <= MAX_FRAMES_PER_PACKET && |data| <= MAX_I32
      requires currPos == 0 && repeatStart == 0 && lastLong == Nowhere && currLen == |data| && repeatLen == 0
      requires currFrame == 0 && repeatFrame == 0 && src == [] && marks == [0]
      ensures Fresh() && Valid() && Remaining() == DecodeAll(data, Config(nbFrames, frameMax))
    {
      hide Decode, RegionOk, LastLongOk, HasLong, TrailingFlags, Replay;
      EmptyRegion(data, 0, Nowhere);
    }

    ghost method ForgetRegion()
      modifies this`src, this`marks, this`k
      ensures src == [] && marks == [0]
    {
      src, marks, k := [], [0], 0;
    }

    method Reset()
      requires nbFrames <= MAX_FRAMES_PER_PACKET && |data| <= MAX_I32
      modifies this
      ensures Fresh() && Valid() && frameMax == old(frameMax)
      ensures Remaining() == DecodeAll(data, Config(nbFrames, frameMax))
    {
      hide *;
      currPos := 0;
      repeatStart := 0;
      lastLong := Nowhere;
      srcPos := 0;
      currLen := |data|;
      repeatLen := 0;
      srcLen := 0;
      trailingShortLen := 0;
      currFrame := 0;
      repeatFrame := 0;
      repeatL := 0;
      ForgetRegion();
      FreshState();
    }

    /** Limits the iteration to the frames below `frameMax`. */
    method SetFrameMax(frameMax: nat)
      requires Valid()
      modifies this`frameMax
      ensures Valid() && this.frameMax == frameMax && (old(Fresh()) ==> Fresh())
      ensures Fresh() ==> Remaining() == DecodeAll(data, Config(nbFrames, frameMax))
    {
      this.frameMax := frameMax;
    }

    /** Moves the source cursor over one item and returns its id byte. */
    method StepSource() returns (idByte: byte)
      requires ReplayingOk() && srcLen > 0
      modifies this`srcPos, this`srcLen, this`k
      ensures ReplayingOk() && srcLen < old(srcLen) && k == old(k) + 1 && idByte == src[k - 1]
      ensures idByte > 3 ==> idByte / 2 > 2 && !IsGreedy(idByte)
      ensures lastLong == At(srcPos) <==> IsLong(idByte) && !HasLong(src, k)
      ensures IsLong(idByte) ==> HasLong(src, 0)
    {
      hide ExtensionExtent, RegionOk, LastLongOk, HasLong;
      ItemInWindow(data, src, marks, k);
      LastLongTest(src, marks, lastLong, k);
      idByte := data[srcPos];
      var skip, _ := SkipExtension(data, srcPos, srcLen);
      assert skip == Ok(Cursor(marks[k + 1], srcPos + srcLen - marks[k + 1]));
      srcPos, srcLen := skip.value.pos, skip.value.len;
      k := k + 1;
    }

    /** The id byte in force for the item that the source cursor has just passed. */
    method AdjustedId(idByte: byte) returns (adjusted: byte)
      requires 0 < k <= |src| && idByte == src[k - 1]
      requires lastLong == At(srcPos) <==> IsLong(idByte) && !HasLong(src, k)
      ensures adjusted == ReplayedId(src, k - 1, repeatL, repeatFrame, nbFrames)
    {
      adjusted := idByte;
      if repeatL == 0 && repeatFrame + 1 >= nbFrames && lastLong == At(srcPos) {
        adjusted := adjusted - adjusted % 2;
      }
    }

    /** One item of the source region: skipped if it is padding, else replayed against the payload
        at the main cursor. None means that nothing is handed out. */
    method ReplayItem(ghost resumed: bool) returns (r: Result<Option<Extension>, ExtensionError>)
      requires ReplayingOk() && srcLen > 0 && repeatFrame < nbFrames
      modifies this`srcPos, this`srcLen, this`currPos, this`currLen, this`k
      ensures r.Ok? ==> ReplayingOk() && currLen <= old(currLen) && srcLen < old(srcLen)
      ensures match r
              case Ok(Some(e)) =>
                old(ReplayTrace(resumed)) == Yields(e, ReplayTrace(true))
              case Ok(None) => old(ReplayTrace(resumed)) == ReplayTrace(resumed)
              case Err(err) => err == InvalidPacket && old(ReplayTrace(resumed)) == Failed
    {
      hide Replay, Decode, PayloadExtent, TrailingFlags, RegionOk, LastLongOk, HasLong, ReplayedId;
      ghost var c := Cfg();
      var repeatIdByte := StepSource();
      if repeatIdByte <= 3 {
        ReplayPadding(data, currPos, currPos + currLen, currFrame, src, k - 1, repeatL, repeatFrame, resumed, c);
        return Ok(None);
      }
      var adjustedIdByte := AdjustedId(repeatIdByte);
      ReplayExtension(data, currPos, currPos + currLen, currFrame, src, k - 1, repeatL, repeatFrame, resumed, c,
                      trailingShortLen);
      var currStart := currPos;
      var next, headerSize := SkipExtensionPayload(data, currPos, currLen, trailingShortLen, adjustedIdByte);
      if next.Err? {
        return Err(next.error);
      }
      currPos, currLen := next.value.pos, next.value.len;
      if currLen < 0 {
        return Err(InvalidPacket);
      }
      if repeatFrame >= frameMax {
        return Ok(None);
      }
      var payloadStart := currStart + headerSize;
      var payload := data[payloadStart..currPos];
      return Ok(Some(Extension(adjustedIdByte / 2, repeatFrame, payload, |payload|)));
    }

    /** Continues a repeat: the next replayed extension, or None once all later frames are served. */
    method NextRepeat(ghost resumed: bool) returns (r: Result<Option<Extension>, ExtensionError>)
      requires ReplayingOk()
      modifies this
      ensures frameMax == old(frameMax)
      ensures r.Ok? ==> currLen <= old(currLen)
      ensures match r
              case Ok(Some(e)) =>
                ReplayingOk() && old(ReplayTrace(resumed)) == Yields(e, ReplayTrace(true))
              case Ok(None) =>
                && ReadingOk()
                && old(ReplayTrace(resumed)) ==
                   (if resumed && currFrame >= frameMax then Finished else ReadingTrace())
              case Err(err) => err == InvalidPacket && old(ReplayTrace(resumed)) == Failed
    {
      hide Replay, Decode, RegionOk, LastLongOk, HasLong, TrailingFlags;
      while repeatFrame < nbFrames
        invariant ReplayingOk() && currLen <= old(currLen) && frameMax == old(frameMax)
        invariant ReplayTrace(resumed) == old(ReplayTrace(resumed))
        decreases nbFrames - repeatFrame
      {
        ghost var g := repeatFrame;
        while srcLen > 0
          invariant ReplayingOk() && currLen <= old(currLen) && frameMax == old(frameMax)
          invariant repeatFrame == g && ReplayTrace(resumed) == old(ReplayTrace(resumed))
          decreases srcLen
        {
          r := ReplayItem(resumed);
          if r.Err? || r.value.Some? {
            return;
          }
        }
        NextFrame(resumed);
      }
      ReplayEnd(data, currPos, currPos + currLen, currFrame, src, k, repeatL, repeatFrame, resumed, Cfg());
      EndRepeat();
      return Ok(None);
    }

    /** The source cursor goes back to the beginning of the region, for the next frame. */
    method NextFrame(ghost resumed: bool)
      requires ReplayingOk() && srcLen <= 0 && repeatFrame < nbFrames
      modifies this`srcPos, this`srcLen, this`k, this`repeatFrame
      ensures ReplayingOk() && repeatFrame == old(repeatFrame) + 1
      ensures ReplayTrace(resumed) == old(ReplayTrace(resumed))
    {
      hide Replay, Decode, RegionOk, LastLongOk, HasLong, TrailingFlags;
      SourceUsedUp(data, src, marks, k);
      ReplayNextFrame(data, currPos, currPos + currLen, currFrame, src, repeatL, repeatFrame, resumed, Cfg());
      MarksIncrease(data, src, marks, 0, |src|);
      srcPos, srcLen := repeatStart, repeatLen;
      k := 0;
      repeatFrame := repeatFrame + 1;
    }

    /** Leaves a repeat: a new region begins, in the next frame if the indicator had L=0. */
    method EndRepeat()
      requires ReplayingOk()
      modifies this`repeatStart, this`lastLong, this`currFrame, this`currLen, this`repeatFrame, this`src, this`marks
      ensures ReadingOk() && src == []
      ensures currFrame == if repeatL == 0 then old(currFrame) + 1 else old(currFrame)
      ensures currLen == if repeatL == 0 && currFrame >= nbFrames then 0 else old(currLen)
    {
      hide RegionOk, LastLongOk, HasLong;
      EmptyRegion(data, currPos, Nowhere);
      repeatStart := currPos;
      lastLong := Nowhere;
      src, marks := [], [currPos];
      if repeatL == 0 {
        currFrame := currFrame + 1;
        if currFrame >= nbFrames {
          currLen := 0;
        }
      }
      repeatFrame := 0;
    }

    /** The item at `st` has just been passed by the main cursor, and is not yet part of the region. */
    ghost predicate PassedItem(st: nat)
      reads this
    {
      && CursorOk() && repeatFrame == 0 && TailOk() && marks[|src|] == st
      && st < currPos && currPos + currLen == |data|
      && ExtensionExtent(data, st, |data|).Extent? && ExtensionExtent(data, st, |data|).total == currPos - st
    }

    ghost function PassedTrace(st: nat): Trace
      requires st <= |data|
      reads this
    {
      Decode(data, st, |data|, currFrame, src, Cfg())
    }

    /** Padding, and a separator that does not move, become part of the region. */
    ghost method TakePadding(st: nat)
      requires PassedItem(st) && (data[st] <= 1 || (data[st] == 3 && data[st + 1] == 0))
      modifies this`src, this`marks
      ensures ReadingOk() && old(PassedTrace(st)) == ReadingTrace()
    {
      hide RegionOk, LastLongOk, HasLong, TrailingFlags, ItemAt, ExtensionExtent, Decode, IsGreedy;
      var b := data[st];
      ReadItemAt(data, st, |data|);
      DecodePadding(data, st, |data|, currFrame, src, Cfg());
      if currLen > 0 {
        RegionSize(data, src, marks);
        RegionGrows(data, src, marks, lastLong, trailingShortLen, currPos);
      }
      src, marks := src + [b], marks + [currPos];
    }

    /** A separator: a new region begins `incr` frames later. */
    method EnterFrame(st: nat) returns (r: Result<bool, ExtensionError>)
      requires PassedItem(st) && data[st] / 2 == 1
      modifies this
      ensures frameMax == old(frameMax)
      ensures r.Ok? ==> ReadingOk() && currLen <= old(currLen) && old(PassedTrace(st)) == ReadingTrace()
      ensures r.Err? ==> r.error == InvalidPacket && old(PassedTrace(st)) == Failed
    {
      hide RegionOk, LastLongOk, HasLong, TrailingFlags, ItemAt, Lacing, Decode;
      var incr := 1;
      if data[st] % 2 != 0 {
        incr := data[st + 1];
        if incr == 0 {
          TakePadding(st);
          return Ok(true);
        }
      }
      DecodeSeparator(data, st, |data|, currFrame, src, Cfg(), incr);
      EmptyRegion(data, currPos, Nowhere);
      currFrame := currFrame + incr;
      if currFrame >= nbFrames {
        currLen := -1;
        return Err(InvalidPacket);
      }
      if currFrame >= frameMax {
        currLen := 0;
      }
      repeatStart := currPos;
      lastLong := Nowhere;
      trailingShortLen := 0;
      src, marks := [], [currPos];
      return Ok(true);
    }

    /** A repeat indicator: the source cursor is set to the beginning of the region. */
    method BeginRepeat(st: nat)
      requires PassedItem(st) && data[st] / 2 == 2
      modifies this`repeatL, this`repeatFrame, this`repeatLen, this`srcPos, this`srcLen, this`k
      ensures ReplayingOk() && old(PassedTrace(st)) == ReplayTrace(false)
    {
      hide RegionOk, LastLongOk, HasLong, TrailingFlags, ItemAt, Decode, Replay;
      DecodeIndicator(data, st, |data|, currFrame, src, Cfg());
      MarksIncrease(data, src, marks, 0, |src|);
      repeatL := data[st] % 2;
      repeatFrame := currFrame + 1;
      repeatLen := st - repeatStart;
      srcPos, srcLen := repeatStart, repeatLen;
      k := 0;
    }

    /** An extension: it becomes part of the region, and is handed out if its frame is wanted. */
    method TakeExtension(st: nat, headerSize: nat) returns (r: Option<Extension>)
      requires PassedItem(st) && data[st] / 2 > 2 && headerSize == ExtensionExtent(data, st, |data|).header
      modifies this`lastLong, this`trailingShortLen, this`src, this`marks
      ensures ReadingOk()
      ensures match r
              case None => old(PassedTrace(st)) == ReadingTrace()
              case Some(e) => old(PassedTrace(st)) == Yields(e, ReadingTrace())
      ensures r.Some? ==> currFrame < frameMax
    {
      hide RegionOk, LastLongOk, HasLong, TrailingFlags, ItemAt, ExtensionExtent, Decode, IsGreedy;
      var idByte := data[st];
      ReadItemAt(data, st, |data|);
      DecodeExtension(data, st, |data|, currFrame, src, Cfg());
      if currLen > 0 {
        RegionSize(data, src, marks);
        RegionGrows(data, src, marks, lastLong, trailingShortLen, currPos);
      }
      if idByte / 2 >= 32 {
        lastLong := At(currPos);
        trailingShortLen := 0;
      } else {
        trailingShortLen := trailingShortLen + idByte % 2;
      }
      src, marks := src + [idByte], marks + [currPos];
      if currFrame >= frameMax {
        return None;
      }
      var payload := data[st + headerSize..currPos];
      return Some(Extension(idByte / 2, currFrame, payload, |payload|));
    }

    /** One item at the main cursor. */
    method ReadItem() returns (r: Result<Option<Extension>, ExtensionError>)
      requires ReadingOk() && currLen > 0
      modifies this
      ensures frameMax == old(frameMax)
      ensures r.Ok? ==> currLen < old(currLen)
      ensures match r
              case Ok(Some(e)) =>
                Valid() && old(ReadingTrace()) == Yields(e, Remaining())
              case Ok(None) => ReadingOk() && old(ReadingTrace()) == ReadingTrace()
              case Err(err) => err == InvalidPacket && old(ReadingTrace()) == Failed
    {
      hide RegionOk, LastLongOk, HasLong, TrailingFlags, ItemAt, PayloadExtent, Decode, Replay;
      var currData0 := currPos;
      var idByte := data[currData0];
      var id := idByte / 2;
      var skip, headerSize := SkipExtension(data, currPos, currLen);
      if ExtensionExtent(data, currPos, currPos + currLen).Malformed? {
        DecodeMalformed(data, currPos, currPos + currLen, currFrame, src, Cfg());
      }
      if skip.Err? {
        return Err(skip.error);
      }
      currPos, currLen := skip.value.pos, skip.value.len;
      if currLen < 0 {
        return Err(InvalidPacket);
      }
      if id == 1 {
        var entered := EnterFrame(currData0);
        return if entered.Err? then Err(entered.error) else Ok(None);
      } else if id == 2 {
        BeginRepeat(currData0);
        r := NextRepeat(false);
      } else if id > 2 {
        var e := TakeExtension(currData0, headerSize);
        return Ok(e);
      } else {
        TakePadding(currData0);
        return Ok(None);
      }
    }

    /** The next extension, None at the end of the data, or an error where the data is malformed. */
    method NextExtension() returns (r: Result<Option<Extension>, ExtensionError>)
      requires currLen < 0 || Valid()
      modifies this
      ensures frameMax == old(frameMax)
      ensures old(currLen < 0) ==> r == Err(InvalidPacket)
      ensures old(currLen >= 0) ==>
                match r
                case Ok(Some(e)) => Valid() && old(Remaining()) == Yields(e, Remaining())
                case Ok(None) => old(Remaining()) == Finished && Valid() && Remaining() == Finished
                case Err(err) => err == InvalidPacket && old(Remaining()) == Failed
    {
      hide RegionOk, LastLongOk, HasLong, TrailingFlags, Decode, Replay;
      if currLen < 0 {
        return Err(InvalidPacket);
      }
      if repeatFrame > 0 {
        r := NextRepeat(true);
        if r.Err? || r.value.Some? {
          return;
        }
      }
      if currFrame >= frameMax {
        return Ok(None);
      }
      while currLen > 0
        invariant ReadingOk() && frameMax == old(frameMax) && ReadingTrace() == old(Remaining())
        decreases currLen
      {
        r := ReadItem();
        if r.Err? || r.value.Some? {
          return;
        }
      }
      DecodeNothing(data, currPos, currFrame, src, Cfg());
      return Ok(None);
    }

    /** The next extension with the given id; the iteration then goes on behind it. */
    method Find(id: byte) returns (r: Result<Option<Extension>, ExtensionError>)
      requires currLen < 0 || Valid()
      modifies this
      ensures frameMax == old(frameMax)
      ensures old(currLen < 0) ==> r == Err(InvalidPacket)
      ensures old(currLen >= 0) ==>
                match r
                case Ok(Some(e)) => Valid() && FirstWith(old(Remaining()), id) == Yields(e, Remaining()) && e.id == id
                case Ok(None) => FirstWith(old(Remaining()), id) == Finished
                case Err(err) => FirstWith(old(Remaining()), id) == Failed && err == InvalidPacket
    {
      hide RegionOk, LastLongOk, HasLong, TrailingFlags, Decode, Replay;
      while true
        invariant currLen < 0 || Valid()
        invariant frameMax == old(frameMax) && (currLen < 0 <==> old(currLen < 0))
        invariant currLen >= 0 ==> FirstWith(old(Remaining()), id) == FirstWith(Remaining(), id)
        decreases if currLen < 0 then Finished else Remaining()
      {
        r := NextExtension();
        if r.Err? || r.value.None? || r.value.value.id == id {
          return;
        }
      }
    }
  }
}
