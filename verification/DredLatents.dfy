/** When latents are computed, and which time they stand for. */
module DredLatents {
  const DRED_FRAME_SIZE := 160
  const DRED_DFRAME_SIZE := 2 * DRED_FRAME_SIZE
  const DRED_SILK_ENCODER_DELAY := 79 + 12 - 80
  const DRED_NUM_REDUNDANCY_FRAMES := 52

  /** Division that rounds toward 0. */
  function Quotient(a: int, b: int): int
    requires b > 0
  {
    if a >= 0 then a / b else -(-a / b)
  }

  /** The position of the newest latent, in units of 40 samples. */
  function Position(currOffset16k: int): int {
    (currOffset16k + 20) / 40
  }

  function Min(a: int, b: int): int {
    if a < b then a else b
  }

  /** The offset after `n` processed frames, when it was `start` before. */
  function OffsetAfter(start: int, n: nat): int {
    if n == 0 then start
    else
      var offset := OffsetAfter(start, n - 1);
      if offset < 6 then offset + 8 else offset
  }

  lemma {:induction false} OffsetAfterIs(start: int, n: nat)
    ensures start <= OffsetAfter(start, n) <= Max(start, 13)
  {
    if n > 0 {
      OffsetAfterIs(start, n - 1);
    }
  }

  /** The state of the encoder that decides about positions. */
  class DredEnc {
    const fs: nat
    var inputBufferFill: nat
    var dredOffset: int
    var latentOffset: nat
    var lastExtraDredOffset: nat
    var latentsBufferFill: nat
    ghost var received: nat
    ghost var frames: nat

    /** All that has been received is in frames, or waits in the buffer. */
    ghost predicate Valid() reads this {
      && fs > 0 && inputBufferFill < DRED_DFRAME_SIZE && -7 <= dredOffset
      && lastExtraDredOffset <= DRED_NUM_REDUNDANCY_FRAMES
      && latentsBufferFill == Min(frames, DRED_NUM_REDUNDANCY_FRAMES)
      && received + DRED_SILK_ENCODER_DELAY == DRED_DFRAME_SIZE * frames + inputBufferFill
    }

    constructor (fs: nat)
      requires fs > 0
      ensures Valid() && this.fs == fs && received == 0 && dredOffset == 0
    {
      this.fs := fs;
      inputBufferFill := DRED_SILK_ENCODER_DELAY;
      dredOffset, latentOffset, latentsBufferFill := 0, 0, 0;
      lastExtraDredOffset := 0;
      received, frames := 0, 0;
    }

    method ProcessFrame()
      requires frames >= 0 && latentsBufferFill == Min(frames, DRED_NUM_REDUNDANCY_FRAMES)
      modifies this`latentsBufferFill, this`frames
      ensures frames == old(frames) + 1 && latentsBufferFill == Min(frames, DRED_NUM_REDUNDANCY_FRAMES)
    {
      latentsBufferFill := Min(latentsBufferFill + 1, DRED_NUM_REDUNDANCY_FRAMES);
      frames := frames + 1;
    }

    /** Takes up to one frame of samples into the buffer, and processes the frame when it is full. */
    method Step(processSize16k: nat, currOffset16k: int) returns (next: int)
      requires Valid() && 0 < processSize16k <= DRED_DFRAME_SIZE
      requires dredOffset + 8 * latentOffset == Position(currOffset16k)
      modifies this
      ensures Valid() && received == old(received) + processSize16k
      ensures old(dredOffset) <= dredOffset <= Max(old(dredOffset), 13)
      ensures if frames == old(frames) then dredOffset == old(dredOffset)
              else frames == old(frames) + 1
                   && dredOffset == if old(dredOffset) < 6 then old(dredOffset) + 8 else old(dredOffset)
      ensures dredOffset + 8 * latentOffset == Position(next)
      ensures next + inputBufferFill == currOffset16k + old(inputBufferFill) + processSize16k
      ensures old(latentOffset > 0 ==> dredOffset >= 6) ==> (latentOffset > 0 ==> dredOffset >= 6)
    {
      next := currOffset16k;
      inputBufferFill := inputBufferFill + processSize16k;
      received := received + processSize16k;
      if inputBufferFill >= 2 * DRED_FRAME_SIZE {
        next := next + 320;
        ProcessFrame();
        inputBufferFill := inputBufferFill - 2 * DRED_FRAME_SIZE;
        if dredOffset < 6 {
          dredOffset := dredOffset + 8;
        } else {
          latentOffset := latentOffset + 1;
        }
      }
    }

    /** Takes the samples of a frame part by part. */
    method TakeSamples(total: nat, currOffset16k: int) returns (next: int, pcmPos: nat)
      requires Valid() && latentOffset == 0 && dredOffset == Position(currOffset16k)
      modifies this
      ensures Valid() && received == old(received) + total && (latentOffset > 0 ==> dredOffset >= 6)
      ensures dredOffset + 8 * latentOffset == Position(next)
      ensures next + inputBufferFill == currOffset16k + old(inputBufferFill) + total
      ensures frames >= old(frames) && dredOffset == OffsetAfter(old(dredOffset), frames - old(frames))
      ensures InPcm(pcmPos, total, fs)
    {
      hide Quotient, Position, InPcm, OffsetAfter;
      var frameSize16k: int := total;
      next, pcmPos := currOffset16k, 0;
      NoPcm(fs);
      NothingProcessed(dredOffset);
      while frameSize16k > 0
        invariant 0 <= frameSize16k <= total && Valid() && (latentOffset > 0 ==> dredOffset >= 6)
        invariant dredOffset + 8 * latentOffset == Position(next)
        invariant received == old(received) + (total - frameSize16k)
        invariant next + inputBufferFill == currOffset16k + old(inputBufferFill) + (total - frameSize16k)
        invariant frames >= old(frames) && dredOffset == OffsetAfter(old(dredOffset), frames - old(frames))
        invariant InPcm(pcmPos, total - frameSize16k, fs)
      {
        var processSize16k := Min(2 * DRED_FRAME_SIZE, frameSize16k);
        var processSize := Quotient(processSize16k * fs, 16000);
        NextPcm(pcmPos, total - frameSize16k, processSize16k, fs);
        OffsetNext(old(dredOffset), frames - old(frames));
        next := Step(processSize16k, next);
        pcmPos := pcmPos + processSize;
        frameSize16k := frameSize16k - processSize16k;
      }
    }

    /** Takes a frame of `frameSize` samples, in an encoder that is `extraDelay` samples behind. */
    method ComputeLatents(frameSize: nat, extraDelay: nat)
      requires Valid()
      modifies this
      ensures Valid()
      ensures dredOffset <= Max(13, Position(40 + Quotient(extraDelay * 16000, fs)))
      ensures dredOffset
           == CallOffset(old(inputBufferFill), Quotient(extraDelay * 16000, fs), Quotient(frameSize * 16000, fs))
      ensures received == old(received) + Quotient(frameSize * 16000, fs)
      ensures dredOffset + 8 * latentOffset
           == Position(40 + Quotient(extraDelay * 16000, fs) + Quotient(frameSize * 16000, fs) - inputBufferFill)
      ensures latentOffset > 0 ==> dredOffset >= 6
    {
      hide Quotient, Position, InPcm, OffsetAfter, CallOffset;
      QuotientNat(frameSize * 16000, fs);
      QuotientNat(extraDelay * 16000, fs);
      var frameSize16k: nat := Quotient(frameSize * 16000, fs);
      ghost var delay: nat := Quotient(extraDelay * 16000, fs);
      var currOffset16k := 40 + Quotient(extraDelay * 16000, fs) - inputBufferFill;
      dredOffset := Position(currOffset16k);
      latentOffset := 0;
      PositionBounds(40 + delay, inputBufferFill);
      ghost var start := dredOffset;
      var pcmPos;
      currOffset16k, pcmPos := TakeSamples(frameSize16k, currOffset16k);
      OffsetAfterIs(start, frames - old(frames));
      PcmUsed(pcmPos, frameSize, fs);
      CallOffsetIs(old(inputBufferFill), delay, frameSize16k, frames - old(frames), inputBufferFill);
    }

    /** Where a redundancy frame begins: at the first latent with speech, or at the one where the last
        frame would have begun when speech has only just come back. The header says how long ago that
        is, and can always say it. */
    method FrameStart(recent: bool, active: nat -> bool) returns (start: nat, totalOffset: int)
      requires Valid()
      modifies this`lastExtraDredOffset
      ensures Valid()
      ensures var first := if recent && old(lastExtraDredOffset) > 0 then old(lastExtraDredOffset) else latentOffset;
              && first <= start <= Max(first, latentsBufferFill)
              && (forall k :: first <= k < start ==> !active(k))
              && (start < latentsBufferFill ==> active(start))
              && totalOffset == 16 - dredOffset + 8 * (start - first)
              && lastExtraDredOffset == if recent && old(lastExtraDredOffset) > 0 then 0 else start - first
      ensures 16 - dredOffset <= totalOffset < 8192
    {
      start := latentOffset;
      var extraDredOffset := 0;
      var delayedDred := false;
      if recent && lastExtraDredOffset > 0 {
        start := lastExtraDredOffset;
        delayedDred := true;
        lastExtraDredOffset := 0;
      }
      ghost var first := start;
      while start < latentsBufferFill && !active(start)
        invariant first <= start <= Max(first, latentsBufferFill) && extraDredOffset == start - first
        invariant forall k :: first <= k < start ==> !active(k)
        invariant lastExtraDredOffset == if delayedDred then 0 else old(lastExtraDredOffset)
      {
        start := start + 1;
        extraDredOffset := extraDredOffset + 1;
      }
      if !delayedDred {
        lastExtraDredOffset := extraDredOffset;
      }
      totalOffset := 16 - (dredOffset - extraDredOffset * 8);
    }
  }

  function Max(a: int, b: int): int {
    if a > b then a else b
  }

  /** `pos` input samples are no more than `done` samples at 16 kHz. */
  ghost predicate InPcm(pos: nat, done: int, fs: nat) {
    pos * 16000 <= done * fs
  }

  lemma NextPcm(pos: nat, done: nat, n: nat, fs: nat)
    requires InPcm(pos, done, fs)
    ensures Quotient(n * fs, 16000) >= 0 && InPcm(pos + Quotient(n * fs, 16000), done + n, fs)
  {
    ProductNat(n, fs);
    QuotientNat(n * fs, 16000);
    assert (done + n) * fs == done * fs + n * fs;
  }

  lemma ProductNat(a: nat, b: nat)
    ensures a * b >= 0
  {}

  lemma QuotientNat(a: nat, b: nat)
    requires b > 0
    ensures Quotient(a, b) >= 0 && Quotient(a, b) * b <= a
  {}

  lemma PositionBounds(delay: int, fill: nat)
    requires delay >= 40 && fill < DRED_DFRAME_SIZE
    ensures -7 <= Position(delay - fill) <= Position(delay)
  {}

  lemma NoPcm(fs: nat)
    ensures InPcm(0, 0, fs)
  {}

  lemma PcmUsed(pos: nat, frameSize: nat, fs: nat)
    requires fs > 0 && InPcm(pos, Quotient(frameSize * 16000, fs), fs)
    ensures pos <= frameSize
  {
    QuotientNat(frameSize * 16000, fs);
  }

  lemma NothingProcessed(start: int)
    ensures OffsetAfter(start, 0) == start
  {}

  lemma OffsetNext(start: int, n: nat)
    ensures OffsetAfter(start, n + 1)
         == if OffsetAfter(start, n) < 6 then OffsetAfter(start, n) + 8 else OffsetAfter(start, n)
  {}

  lemma CallOffsetIs(fill: nat, delay: int, total: nat, n: nat, rest: nat)
    requires fill + total == DRED_DFRAME_SIZE * n + rest && rest < DRED_DFRAME_SIZE
    ensures CallOffset(fill, delay, total) == OffsetAfter(Position(40 + delay - fill), n)
  {
    hide OffsetAfter, Position;
  }

  // ----- how far behind an encoder may be -----

  /** The offset after a call: where it begins with that much in the buffer, and the frames of the call. */
  function CallOffset(fill: nat, delay: int, total: nat): int {
    OffsetAfter(Position(40 + delay - fill), (fill + total) / DRED_DFRAME_SIZE)
  }

  /** Frames are multiples of 2.5 ms, or 40 samples at 16 kHz; so is all that has been received. */
  predicate WholeSlots(samples16k: nat) {
    samples16k % 40 == 0
  }

  /** What is in the buffer after such frames. */
  predicate Reachable(fill: nat) {
    fill < DRED_DFRAME_SIZE && fill % 40 == DRED_SILK_ENCODER_DELAY
  }

  lemma FillReachable(enc: DredEnc)
    requires enc.Valid() && WholeSlots(enc.received)
    ensures Reachable(enc.inputBufferFill)
  {}

  /** What the header says at the first latent. */
  function HeaderOffset(dredOffset: int): int {
    16 - dredOffset
  }

  /** The header's offset is never negative after a call, in any state that is reached by frames of whole
      slots, if and only if the encoder is at most 630 samples behind. */
  lemma DelayAllowed(delay: nat)
    ensures (forall fill: nat, total: nat :: Reachable(fill) && WholeSlots(total) ==>
               HeaderOffset(CallOffset(fill, delay, total)) >= 0)
       <==> delay <= 630
  {
    if delay <= 630 {
      forall fill: nat, total: nat | Reachable(fill) && WholeSlots(total)
        ensures HeaderOffset(CallOffset(fill, delay, total)) >= 0
      {
        OffsetAfterIs(Position(40 + delay - fill), (fill + total) / DRED_DFRAME_SIZE);
      }
    } else {
      OffsetAfterIs(Position(40 + delay - 11), 0);
      assert Reachable(11) && WholeSlots(40) && HeaderOffset(CallOffset(11, delay, 40)) < 0;
    }
  }

  /** Two calls after reset with a delay of 631 samples, and a frame that begins at the latent of the first:
      the header would have to say -1. */
  method LateRun() returns (totalOffset: int)
    ensures totalOffset == -1
  {
    var enc := new DredEnc(16000);
    enc.ComputeLatents(320, 631);
    assert enc.inputBufferFill == 11 && enc.frames == 1;
    enc.ComputeLatents(40, 631);
    assert CallOffset(11, 631, 40) == 17 && enc.latentOffset == 0;
    var active := (k: nat) => true;
    var start;
    start, totalOffset := enc.FrameStart(false, active);
    assert active(0);
    assert start == 0;
  }

  /** The position and these bounds determine both offsets. */
  lemma OffsetsDetermined(d: int, l: nat, d': int, l': nat)
    requires d + 8 * l == d' + 8 * l' && d <= 13 && d' <= 13
    requires (l > 0 ==> d >= 6) && (l' > 0 ==> d' >= 6)
    ensures d == d' && l == l'
  {}
}
