/** How the encoder divides the bytes of a packet among several frames. */
module PacketBudget {
  import opened Wrappers
  import opened OpusEncoder

  const MAX_PACKET_BYTES := 1276 * 6
  const MAX_REPACKETIZER_BYTES := MAX_PACKET_BYTES + 6

  // ----- the merged packet (section 3.2 of RFC 6716) -----

  function Sum(s: seq<nat>, n: nat): nat
    requires n <= |s|
  {
    if n == 0 then 0 else Sum(s, n - 1) + s[n - 1]
  }

  /** Bytes that say the length of a frame. */
  function LengthBytes(len: nat): nat {
    if len >= 252 then 2 else 1
  }

  function LengthsSize(s: seq<nat>, n: nat): nat
    requires n <= |s|
  {
    if n == 0 then 0 else LengthsSize(s, n - 1) + LengthBytes(s[n - 1])
  }

  predicate SameLengths(s: seq<nat>) {
    forall i :: 0 <= i < |s| ==> s[i] == s[0]
  }

  /** The size of a packet without padding that holds frames of these sizes. */
  function PacketSize(frames: seq<nat>): nat
    requires |frames| > 0
  {
    var total := Sum(frames, |frames|);
    if |frames| == 1 then 1 + total
    else if |frames| == 2 then if frames[0] == frames[1] then 1 + total else 1 + LengthBytes(frames[0]) + total
    else if SameLengths(frames) then 2 + total
    else 2 + LengthsSize(frames, |frames| - 1) + total
  }

  /** What is set aside for the header. */
  function MaxHeaderBytes(nbFrames: nat): int {
    if nbFrames == 2 then 3 else 2 + (nbFrames - 1) * 2
  }

  lemma {:induction false} LengthsAtMost(s: seq<nat>, n: nat)
    requires n <= |s|
    ensures LengthsSize(s, n) <= 2 * n
  {
    if n > 0 {
      LengthsAtMost(s, n - 1);
    }
  }

  /** It is enough for every combination of sizes. */
  lemma HeaderFits(frames: seq<nat>)
    requires |frames| > 0
    ensures PacketSize(frames) <= MaxHeaderBytes(|frames|) + Sum(frames, |frames|)
  {
    LengthsAtMost(frames, |frames| - 1);
  }

  /** What is set aside, in bytes. */
  lemma HeaderIs(n: nat)
    requires 1 <= n <= 6
    ensures MaxHeaderBytes(n) == if n == 2 then 3 else 2 * n
  {}

  /** Some sizes need all of it, unless the packet has a single frame. */
  lemma HeaderNeeded(n: nat)
    requires 2 <= n <= 6
    ensures exists frames: seq<nat> ::
              |frames| == n && PacketSize(frames) == MaxHeaderBytes(n) + Sum(frames, n)
  {
    var frames: seq<nat> := seq(n, i => if i == n - 1 then 0 else 252);
    assert frames[0] == 252 && frames[n - 1] == 0;
    LongLengths(frames, n - 1);
  }

  lemma {:induction false} LongLengths(s: seq<nat>, n: nat)
    requires n <= |s| && forall i :: 0 <= i < n ==> s[i] >= 252
    ensures LengthsSize(s, n) == 2 * n
  {
    if n > 0 {
      LongLengths(s, n - 1);
    }
  }

  /** One or two frames, with one length if they differ. */
  lemma SmallPackets(a: nat, b: nat)
    ensures PacketSize([a]) == 1 + a
    ensures PacketSize([a, b])
         == if a == b then 1 + a + b else if a < 252 then 2 + a + b else 3 + a + b
  {
    var one, two := [a], [a, b];
    assert Sum(one, 0) == 0 && Sum(one, 1) == a;
    assert Sum(two, 0) == 0 && Sum(two, 1) == a && Sum(two, 2) == a + b;
    assert two[0] == a && two[1] == b;
  }

  /** Three of the same size have none, and three others have one for all but the last. */
  lemma LargerPackets(a: nat, b: nat, c: nat)
    requires a < 252 <= b
    ensures PacketSize([a, a, a]) == 2 + 3 * a
    ensures PacketSize([a, b, c]) == 2 + 1 + 2 + a + b + c
  {
    var same, other := [a, a, a], [a, b, c];
    assert Sum(same, 0) == 0 && Sum(same, 1) == a && Sum(same, 2) == 2 * a && Sum(same, 3) == 3 * a;
    assert Sum(other, 0) == 0 && Sum(other, 1) == a && Sum(other, 2) == a + b && Sum(other, 3) == a + b + c;
    assert LengthsSize(other, 0) == 0 && LengthsSize(other, 1) == 1 && LengthsSize(other, 2) == 3;
    assert other[1] == b && other[0] == a;
  }

  /** Without the byte that begins every single-frame packet. */
  function Payloads(lens: seq<nat>): (p: seq<nat>)
    requires forall i :: 0 <= i < |lens| ==> lens[i] >= 1
    ensures |p| == |lens|
  {
    seq(|lens|, i requires 0 <= i < |lens| => lens[i] - 1)
  }

  lemma {:induction false} PayloadsSum(lens: seq<nat>, n: nat)
    requires n <= |lens| && forall i :: 0 <= i < |lens| ==> lens[i] >= 1
    ensures Sum(Payloads(lens), n) == Sum(lens, n) - n
  {
    if n > 0 {
      PayloadsSum(lens, n - 1);
    }
  }

  // ----- the division -----

  /** Bytes for all frames, each with its first byte. */
  function MaxLenSum(nbFrames: nat, maxDataBytes: nat): int {
    nbFrames + maxDataBytes - MaxHeaderBytes(nbFrames)
  }

  /** There are at least 2 bytes for every frame. */
  predicate Divisible(nbFrames: nat, maxDataBytes: nat) {
    2 * nbFrames <= MaxLenSum(nbFrames, maxDataBytes)
  }

  /** What is used of a buffer. */
  function MaxDataBytes(dataLen: nat): (m: nat)
    ensures m <= dataLen && m <= MAX_PACKET_BYTES
  {
    if dataLen < MAX_PACKET_BYTES then dataLen else MAX_PACKET_BYTES
  }

  /** Six times 1276 bytes at most. */
  lemma MaxDataIs(dataLen: nat)
    ensures MaxDataBytes(dataLen) == if dataLen < 7656 then dataLen else 7656
  {}

  /** Every frame can have 2 bytes if there are 5 bytes for two frames, or 3 for each of any other number. */
  lemma DivisibleIff(n: nat, maxDataBytes: nat)
    requires 1 <= n <= 6
    ensures Divisible(n, maxDataBytes) <==> maxDataBytes >= if n == 2 then 5 else 3 * n
  {}

  /** That never exceeds the scratch buffer: the test for it cannot fail. */
  lemma ScratchFits(nbFrames: nat, dataLen: nat)
    requires 1 <= nbFrames <= 6
    ensures MaxLenSum(nbFrames, MaxDataBytes(dataLen)) <= MAX_REPACKETIZER_BYTES
  {}

  function Min(a: int, b: int): int {
    if a < b then a else b
  }

  function Quotient(a: int, b: nat): int
    requires b > 0
  {
    a / b
  }

  lemma QuotientIs(a: int, b: nat)
    requires b > 0
    ensures Quotient(a, b) * b <= a < (Quotient(a, b) + 1) * b
  {}

  lemma Ordered(p: int, q: int, b: nat)
    ensures p <= q ==> p * b <= q * b
  {
    if p <= q {
      assert (q - p) * b >= 0;
    }
  }

  lemma QuotientAtLeast(a: int, b: nat, q: int)
    requires b > 0 && a >= q * b
    ensures Quotient(a, b) >= q
  {
    hide Quotient;
    QuotientIs(a, b);
    Ordered(Quotient(a, b) + 1, q, b);
  }

  lemma QuotientInside(rest: int, left: nat)
    requires left > 0 && rest >= 0
    ensures 0 <= Quotient(rest, left) <= rest
  {
    hide Quotient;
    QuotientIs(rest, left);
    QuotientAtLeast(rest, left, 0);
    Ordered(1, left, Quotient(rest, left));
    assert Quotient(rest, left) * left == left * Quotient(rest, left);
  }

  /** What frame `i` may use after the frames before it. */
  function Share(total: int, lens: seq<nat>, i: nat, nbFrames: nat): int
    requires i <= |lens| && i < nbFrames
  {
    Quotient(total - Sum(lens, i), nbFrames - i)
  }

  /** As much as all that are left can have, and for the last one all there is. */
  lemma ShareIs(total: int, lens: seq<nat>, i: nat, nbFrames: nat)
    requires i <= |lens| && i < nbFrames
    ensures var rest, left, share := total - Sum(lens, i), nbFrames - i, Share(total, lens, i, nbFrames);
            share * left <= rest < (share + 1) * left && (left == 1 ==> share == rest)
  {
    hide Quotient, Sum;
    QuotientIs(total - Sum(lens, i), nbFrames - i);
  }

  /** A frame that keeps to its share leaves at least as much to each of the others. */
  lemma ShareKept(rest: int, left: nat, len: int)
    requires left > 1 && len <= Quotient(rest, left)
    ensures Quotient(rest - len, left - 1) >= Quotient(rest, left)
  {
    hide Quotient;
    var q := Quotient(rest, left);
    QuotientIs(rest, left);
    assert q * (left - 1) == q * left - q;
    QuotientAtLeast(rest - len, left - 1, q);
  }

  /** Frame `i` keeps to its share, which lies in the scratch buffer behind the frames before it. */
  ghost predicate InShare(total: int, lens: seq<nat>, i: nat, nbFrames: nat)
    requires i < |lens| <= nbFrames
  {
    1 <= lens[i] <= Share(total, lens, i, nbFrames) && Sum(lens, i) + Share(total, lens, i, nbFrames) <= total
  }

  ghost predicate Shared(total: int, lens: seq<nat>, nbFrames: nat) {
    |lens| <= nbFrames && forall i :: 0 <= i < |lens| ==> InShare(total, lens, i, nbFrames)
  }

  /** The frame encoder during one run: what comes of encoding a frame, for the first or the second time,
      into so many bytes. Whatever state it has may change with every call, because no call happens twice. */
  type FrameEncoder = (nat, nat, int) -> Result<nat, OpusEncodeError>

  /** A size that was found is not empty, and not more than there is room for. */
  ghost predicate Keeps(encode: FrameEncoder) {
    forall i: nat, attempt: nat, room: int :: encode(i, attempt, room).Ok? ==>
      1 <= encode(i, attempt, room).value <= room
  }

  /** A frame is tried with the rate's limit first when that is less than its share; only a lack of room is
      a reason to try again. */
  function Tried(encode: FrameEncoder, i: nat, share: int, useVbr: bool, rateBytes: int): Result<nat, OpusEncodeError> {
    var first := encode(i, 0, if useVbr then Min(share, rateBytes) else share);
    if first == Err(BufferTooSmall) && useVbr && rateBytes < share then encode(i, 1, share) else first
  }

  /** A frame that has too little room at the rate's limit is tried again with its share, and only then. */
  lemma TriedIs(encode: FrameEncoder, i: nat, share: int, rateBytes: int)
    ensures Tried(encode, i, share, false, rateBytes) == encode(i, 0, share)
    ensures rateBytes >= share ==> Tried(encode, i, share, true, rateBytes) == encode(i, 0, share)
    ensures rateBytes < share && encode(i, 0, rateBytes) == Err(BufferTooSmall) ==>
              Tried(encode, i, share, true, rateBytes) == encode(i, 1, share)
    ensures rateBytes < share && encode(i, 0, rateBytes) != Err(BufferTooSmall) ==>
              Tried(encode, i, share, true, rateBytes) == encode(i, 0, rateBytes)
  {}

  ghost predicate Encoded(encode: FrameEncoder, total: int, lens: seq<nat>, i: nat, nbFrames: nat,
                          useVbr: bool, rateBytes: int)
    requires i < |lens| <= nbFrames
  {
    Tried(encode, i, Share(total, lens, i, nbFrames), useVbr, rateBytes) == Ok(lens[i])
  }

  lemma EncodedOn(encode: FrameEncoder, total: int, lens: seq<nat>, len: nat, i: nat, nbFrames: nat,
                  useVbr: bool, rateBytes: int)
    requires i < |lens| < nbFrames && Encoded(encode, total, lens, i, nbFrames, useVbr, rateBytes)
    ensures Encoded(encode, total, lens + [len], i, nbFrames, useVbr, rateBytes)
  {
    ShareOf(total, lens, len, i, nbFrames);
  }

  /** Encodes one frame after the other into a buffer of `dataLen` bytes, each within its share of what is left. */
  method EncodeFrames(nbFrames: nat, dataLen: nat, useVbr: bool, rateBytes: int, encode: FrameEncoder)
    returns (r: Result<seq<nat>, OpusEncodeError>)
    requires Keeps(encode)
    ensures r.Ok? ==>
              |r.value| == nbFrames && Shared(MaxLenSum(nbFrames, MaxDataBytes(dataLen)), r.value, nbFrames)
    ensures r.Ok? ==> nbFrames > 0 && (forall i :: 0 <= i < nbFrames ==> r.value[i] >= 1)
                      && PacketSize(Payloads(r.value)) <= MaxDataBytes(dataLen)
    ensures r.Ok? ==> forall i :: 0 <= i < nbFrames ==>
              Encoded(encode, MaxLenSum(nbFrames, MaxDataBytes(dataLen)), r.value, i, nbFrames, useVbr, rateBytes)
    ensures !(1 <= nbFrames <= 6) ==> r == Err(Unimplemented)
    ensures 1 <= nbFrames <= 6 && !Divisible(nbFrames, MaxDataBytes(dataLen)) ==> r == Err(BufferTooSmall)
    ensures r.Err? && 1 <= nbFrames <= 6 && Divisible(nbFrames, MaxDataBytes(dataLen)) ==>
              || (useVbr && rateBytes < 2 && r == Err(BufferTooSmall))
              || exists i: nat, share: int ::
                   i < nbFrames && share >= 2 && Tried(encode, i, share, useVbr, rateBytes) == Err(r.error)
  {
    hide Quotient, Shared;
    if !(1 <= nbFrames <= 6) {
      return Err(Unimplemented);
    }
    var maxDataBytes := MaxDataBytes(dataLen);
    ScratchFits(nbFrames, dataLen);
    var maxLenSum := nbFrames + maxDataBytes - MaxHeaderBytes(nbFrames);
    if maxLenSum < 2 * nbFrames || maxLenSum > MAX_REPACKETIZER_BYTES {
      return Err(BufferTooSmall);
    }
    var lens: seq<nat>, totSize := [], 0;
    SharedFirst(maxLenSum, nbFrames);
    for frameIdx := 0 to nbFrames
      invariant |lens| == frameIdx && totSize == Sum(lens, frameIdx) <= maxLenSum && Shared(maxLenSum, lens, nbFrames)
      invariant forall i :: 0 <= i < frameIdx ==> Encoded(encode, maxLenSum, lens, i, nbFrames, useVbr, rateBytes)
      invariant frameIdx < nbFrames ==> Share(maxLenSum, lens, frameIdx, nbFrames) >= 2
    {
      var framesLeft := nbFrames - frameIdx;
      var maxLenPerFrame := Quotient(maxLenSum - totSize, framesLeft);
      var currMax := maxLenPerFrame;
      if useVbr {
        currMax := Min(currMax, rateBytes);
      }
      if currMax < 2 {
        return Err(BufferTooSmall);
      }
      QuotientInside(maxLenSum - totSize, framesLeft);
      assert totSize + maxLenPerFrame <= maxLenSum;
      var len := encode(frameIdx, 0, currMax);
      if len == Err(BufferTooSmall) && currMax < maxLenPerFrame {
        len := encode(frameIdx, 1, maxLenPerFrame);
      }
      assert len == Tried(encode, frameIdx, maxLenPerFrame, useVbr, rateBytes);
      if len.Err? {
        return Err(len.error);
      }
      SharedNext(maxLenSum, lens, nbFrames, len.value);
      if frameIdx + 1 < nbFrames {
        ShareRises(maxLenSum, lens, nbFrames, len.value);
      }
      forall i | 0 <= i < frameIdx
        ensures Encoded(encode, maxLenSum, lens + [len.value], i, nbFrames, useVbr, rateBytes)
      {
        EncodedOn(encode, maxLenSum, lens, len.value, i, nbFrames, useVbr, rateBytes);
      }
      ShareOf(maxLenSum, lens, len.value, frameIdx, nbFrames);
      lens := lens + [len.value];
      assert Encoded(encode, maxLenSum, lens, frameIdx, nbFrames, useVbr, rateBytes);
      totSize := totSize + len.value;
    }
    SharedSizes(maxLenSum, lens, nbFrames);
    PayloadsSum(lens, nbFrames);
    HeaderFits(Payloads(lens));
    return Ok(lens);
  }

  lemma SharedFirst(total: int, nbFrames: nat)
    requires nbFrames > 0 && 2 * nbFrames <= total
    ensures Shared(total, [], nbFrames) && Share(total, [], 0, nbFrames) >= 2
  {
    hide Quotient;
    QuotientAtLeast(total, nbFrames, 2);
  }

  lemma SharedSizes(total: int, lens: seq<nat>, nbFrames: nat)
    requires Shared(total, lens, nbFrames)
    ensures forall i :: 0 <= i < |lens| ==> lens[i] >= 1
  {
    forall i | 0 <= i < |lens|
      ensures lens[i] >= 1
    {
      assert InShare(total, lens, i, nbFrames);
    }
  }

  lemma {:induction false} SumOf(lens: seq<nat>, len: nat, n: nat)
    requires n <= |lens|
    ensures Sum(lens + [len], n) == Sum(lens, n)
  {
    if n > 0 {
      SumOf(lens, len, n - 1);
    }
  }

  lemma ShareOf(total: int, lens: seq<nat>, len: nat, i: nat, nbFrames: nat)
    requires i <= |lens| && i < nbFrames
    ensures Share(total, lens + [len], i, nbFrames) == Share(total, lens, i, nbFrames)
  {
    SumOf(lens, len, i);
  }

  /** The share of the next frame is no smaller than that of the last one. */
  lemma ShareRises(total: int, lens: seq<nat>, nbFrames: nat, len: nat)
    requires |lens| + 1 < nbFrames && len <= Share(total, lens, |lens|, nbFrames)
    ensures Share(total, lens + [len], |lens| + 1, nbFrames) >= Share(total, lens, |lens|, nbFrames)
  {
    hide Quotient;
    SumOf(lens, len, |lens|);
    ShareKept(total - Sum(lens, |lens|), nbFrames - |lens|, len);
  }

  lemma ShareFits(total: int, lens: seq<nat>, nbFrames: nat)
    requires |lens| < nbFrames && Sum(lens, |lens|) <= total
    ensures Share(total, lens, |lens|, nbFrames) <= total - Sum(lens, |lens|)
  {
    hide Quotient;
    QuotientInside(total - Sum(lens, |lens|), nbFrames - |lens|);
  }

  lemma SharedNext(total: int, lens: seq<nat>, nbFrames: nat, len: nat)
    requires |lens| < nbFrames && Shared(total, lens, nbFrames) && Sum(lens, |lens|) <= total
    requires 1 <= len <= Share(total, lens, |lens|, nbFrames)
    ensures Shared(total, lens + [len], nbFrames) && Sum(lens + [len], |lens| + 1) == Sum(lens, |lens|) + len <= total
  {
    hide Quotient, Share, Sum, InShare;
    var next := lens + [len];
    SumLast(lens, len);
    ShareFits(total, lens, nbFrames);
    forall i | 0 <= i < |next|
      ensures InShare(total, next, i, nbFrames)
    {
      InShareOn(total, lens, len, i, nbFrames);
    }
  }

  lemma SumLast(lens: seq<nat>, len: nat)
    ensures Sum(lens + [len], |lens| + 1) == Sum(lens, |lens|) + len
  {
    SumOf(lens, len, |lens|);
  }

  lemma InShareOn(total: int, lens: seq<nat>, len: nat, i: nat, nbFrames: nat)
    requires i <= |lens| < nbFrames && Sum(lens, |lens|) <= total
    requires if i < |lens| then InShare(total, lens, i, nbFrames) else 1 <= len <= Share(total, lens, i, nbFrames)
    ensures InShare(total, lens + [len], i, nbFrames)
  {
    hide Quotient, Share, Sum;
    ShareOf(total, lens, len, i, nbFrames);
    SumOf(lens, len, i);
    ShareFits(total, lens, nbFrames);
  }
}
