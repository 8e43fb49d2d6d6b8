/** A deep redundancy frame: header, initial state and chunks of latents, encoded and decoded. */
module DredStream {
  import opened Wrappers
  import opened RangeCoding
  import opened DredLaplace

  const LEVELS := 16
  const MAX_OFFSET := 8192

  // ----- the header -----

  /** The code of the largest quantizer level: half of the range for 15, and the other half for the
      levels from q0 + 1 to 14. */
  function QmaxInterval(q0: nat, qmax: nat): Interval
    requires q0 < 14 && q0 < qmax
  {
    var nvals := 15 - (q0 + 1);
    if qmax >= 15 then Interval(0, nvals, 2 * nvals)
    else Interval(nvals + qmax - (q0 + 1), nvals + qmax - q0, 2 * nvals)
  }

  /** The level whose interval holds `s`. */
  function QmaxOf(q0: nat, s: nat): nat
    requires q0 < 14
  {
    var nvals := 15 - (q0 + 1);
    if s >= nvals then q0 + (s - nvals) + 1 else 15
  }

  /** The intervals of all the levels are a partition of the range. */
  lemma QmaxPartition(q0: nat, s: nat, qmax: nat)
    requires q0 < 14 && s < 2 * (14 - q0) && q0 < qmax <= 15
    ensures Codable(QmaxInterval(q0, qmax)) && QmaxInterval(q0, qmax).total == 2 * (14 - q0)
    ensures QmaxInterval(q0, qmax).low <= s < QmaxInterval(q0, qmax).high <==> qmax == QmaxOf(q0, s)
  {}

  predicate HasQmax(q0: nat, dQ: nat) {
    q0 < 14 && dQ > 0
  }

  function Uint(v: nat, ft: nat): Interval {
    Interval(v, v + 1, ft)
  }

  function OffsetCode(offset: nat): seq<Interval> {
    if offset > 31 then [Uint(1, 2), Uint(offset / 32, 256), Uint(offset % 32, 32)] else [Uint(0, 2), Uint(offset, 32)]
  }

  function HeaderCode(q0: nat, dQ: nat, qmax: nat, offset: nat): seq<Interval>
    requires HasQmax(q0, dQ) ==> q0 < qmax
  {
    [Uint(q0, 16), Uint(dQ, 8)] + OffsetCode(offset) + if HasQmax(q0, dQ) then [QmaxInterval(q0, qmax)] else []
  }

  predicate HeaderOk(q0: nat, dQ: nat, qmax: nat, offset: nat) {
    q0 < 16 && dQ < 8 && q0 <= qmax && (HasQmax(q0, dQ) ==> q0 < qmax) && offset < MAX_OFFSET
  }

  method EncodeHeader(enc: EcEnc, q0: nat, dQ: nat, qmax: nat, offset: nat)
    requires enc.Valid() && HeaderOk(q0, dQ, qmax, offset)
    modifies enc
    ensures enc.Valid() && enc.code == old(enc.code) + HeaderCode(q0, dQ, qmax, offset)
  {
    hide MeterAt, AllCodable;
    enc.EncUint(q0, 16);
    enc.EncUint(dQ, 8);
    if offset > 31 {
      enc.EncUint(1, 2);
      enc.EncUint(offset / 32, 256);
      enc.EncUint(offset % 32, 32);
    } else {
      enc.EncUint(0, 2);
      enc.EncUint(offset, 32);
    }
    if HasQmax(q0, dQ) {
      var nvals := 15 - (q0 + 1);
      var low := if qmax >= 15 then 0 else nvals + qmax - (q0 + 1);
      var high := if qmax >= 15 then nvals else nvals + qmax - q0;
      enc.Encode(low, high, 2 * nvals);
    }
  }

  /** The largest level that the decoder learns. */
  function DecodedQmax(q0: nat, dQ: nat, qmax: nat): nat {
    if HasQmax(q0, dQ) && qmax < 15 then qmax else 15
  }

  lemma NextAt(dec: EcDec, code: seq<Interval>, k: nat)
    requires dec.Next(code) && k < |code|
    ensures dec.pos + k < |dec.code| && dec.code[dec.pos + k] == code[k]
  {
    assert dec.code[dec.pos..dec.pos + |code|][k] == code[k];
  }

  /** Decodes the header that was encoded: q0, dQ and the offset are the same, and the largest level is
      DecodedQmax. */
  method DecodeHeader(dec: EcDec, ghost q0': nat, ghost dQ': nat, ghost qmax': nat, ghost offset': nat)
    returns (q0: nat, dQ: nat, qmax: nat, offset: nat)
    requires dec.Valid() && HeaderOk(q0', dQ', qmax', offset') && dec.Next(HeaderCode(q0', dQ', qmax', offset'))
    modifies dec
    ensures dec.Valid() && dec.pos == old(dec.pos) + |HeaderCode(q0', dQ', qmax', offset')|
    ensures q0 == q0' && dQ == dQ' && offset == offset' && qmax == DecodedQmax(q0', dQ', qmax')
  {
    hide MeterAt, AllCodable;
    ghost var code := HeaderCode(q0', dQ', qmax', offset');
    ghost var start := dec.pos;
    forall k | 0 <= k < |code|
      ensures start + k < |dec.code| && dec.code[start + k] == code[k]
    {
      NextAt(dec, code, k);
    }
    assert dec.code[start] == code[0] && dec.code[start + 1] == code[1] && dec.code[start + 2] == code[2];
    assert dec.code[start + 3] == code[3];
    q0 := dec.DecUint(16, q0');
    dQ := dec.DecUint(8, dQ');
    var escape := dec.DecUint(2, if offset' > 31 then 1 else 0);
    var extra := 0;
    if escape != 0 {
      assert dec.code[start + 4] == code[4];
      extra := dec.DecUint(256, offset' / 32);
      extra := 32 * extra;
    }
    var low := dec.DecUint(32, if offset' > 31 then offset' % 32 else offset');
    offset := low + extra;
    qmax := 15;
    if HasQmax(q0, dQ) {
      ghost var last := |code| - 1;
      assert dec.code[start + last] == code[last] == QmaxInterval(q0, qmax');
      var nvals := 15 - (q0 + 1);
      var ft := 2 * nvals;
      var s := dec.Decode(ft);
      if s >= nvals {
        qmax := q0 + (s - nvals) + 1;
        dec.Update(s, s + 1, ft);
      } else {
        dec.Update(0, nvals, ft);
      }
    }
  }

  // ----- the quantizer level of a chunk -----

  const D_Q_TABLE := [0, 2, 3, 4, 6, 8, 12, 16]

  function ComputeQuantizer(q0: nat, dQ: nat, qmax: nat, index: nat): (level: nat)
    requires dQ < 8 && q0 <= qmax
    ensures q0 <= level <= qmax
  {
    var quant := q0 + (D_Q_TABLE[dQ] * index + 8) / 16;
    if quant < qmax then quant else qmax
  }

  /** Quantization gets coarser from chunk to chunk, and never finer. */
  lemma LevelsRise(q0: nat, dQ: nat, qmax: nat, i: nat, j: nat)
    requires dQ < 8 && q0 <= qmax && i <= j
    ensures ComputeQuantizer(q0, dQ, qmax, i) <= ComputeQuantizer(q0, dQ, qmax, j)
  {
    var t := D_Q_TABLE[dQ];
    assert t * j == t * i + t * (j - i);
    assert t * (j - i) >= 0;
  }

  predicate LevelsAgree(q0: nat, dQ: nat, qmax: nat, i: nat)
    requires dQ < 8 && q0 <= qmax <= 15
  {
    ComputeQuantizer(q0, dQ, qmax, i) == ComputeQuantizer(q0, dQ, DecodedQmax(q0, dQ, qmax), i)
  }

  /** Encoder and decoder use the same table row for every chunk, unless the limit is one that the header
      cannot express: 14, with levels that begin at 14 and rise. */
  lemma SameLevels(q0: nat, dQ: nat, qmax: nat)
    requires q0 < 16 && dQ < 8 && q0 <= qmax <= 15 && (HasQmax(q0, dQ) ==> q0 < qmax)
    ensures (forall i: nat :: LevelsAgree(q0, dQ, qmax, i)) <==> !(q0 == 14 && qmax == 14 && dQ > 0)
  {
    if q0 == 14 && qmax == 14 && dQ > 0 {
      assert D_Q_TABLE[dQ] >= 2;
      assert !LevelsAgree(q0, dQ, qmax, 8);
    } else {
      forall i: nat
        ensures LevelsAgree(q0, dQ, qmax, i)
      {
        if dQ == 0 {
          assert D_Q_TABLE[dQ] * i == 0;
        }
      }
    }
  }

  // ----- vectors of quantized values -----

  /** A table row: decays and probabilities of zero, as eight-bit numbers. */
  datatype Row = Row(r: seq<nat>, p0: seq<nat>)

  /** A value that is always 0 is not coded. */
  predicate Skipped(row: Row, i: nat)
    requires i < |row.r| && i < |row.p0|
  {
    row.r[i] == 0 || row.p0[i] == 255
  }

  ghost predicate RowOk(row: Row, dim: nat) {
    && |row.r| == |row.p0| == dim
    && forall i :: 0 <= i < dim ==> row.r[i] <= 255 && row.p0[i] <= 255 && (!Skipped(row, i) ==> row.p0[i] > 0)
  }

  ghost predicate TableOk(table: seq<Row>, dim: nat) {
    |table| == LEVELS && forall level :: 0 <= level < LEVELS ==> RowOk(table[level], dim)
  }

  ghost function ValueCode(q: int, row: Row, i: nat, dim: nat): seq<Interval>
    requires RowOk(row, dim) && i < dim
  {
    if Skipped(row, i) then [] else LaplaceCode(q, row.p0[i] * 128, row.r[i] * 128)
  }

  /** The code of the values from `i` on. */
  ghost function LatentsCode(q: seq<int>, row: Row, i: nat): seq<Interval>
    requires RowOk(row, |q|) && i <= |q|
    decreases |q| - i
  {
    if i == |q| then [] else ValueCode(q[i], row, i, |q|) + LatentsCode(q, row, i + 1)
  }

  /** What arrives of a vector: the values that are coded. */
  function Kept(q: seq<int>, row: Row): (k: seq<int>)
    requires |q| == |row.r| == |row.p0|
    ensures |k| == |q|
  {
    seq(|q|, i requires 0 <= i < |q| => if Skipped(row, i) then 0 else q[i])
  }

  lemma Joined(a: seq<Interval>, b: seq<Interval>, c: seq<Interval>)
    ensures a + (b + c) == (a + b) + c
  {}

  method EncodeLatents(enc: EcEnc, q: seq<int>, row: Row)
    requires enc.Valid() && RowOk(row, |q|)
    modifies enc
    ensures enc.Valid() && enc.code == old(enc.code) + LatentsCode(q, row, 0)
  {
    hide LaplaceCode, MeterAt, AllCodable;
    ghost var whole := enc.code + LatentsCode(q, row, 0);
    for i := 0 to |q|
      invariant enc.Valid() && enc.code + LatentsCode(q, row, i) == whole
    {
      Joined(enc.code, ValueCode(q[i], row, i, |q|), LatentsCode(q, row, i + 1));
      if !Skipped(row, i) {
        EcLaplaceEncodeP0(enc, q[i], row.p0[i] * 128, row.r[i] * 128);
      }
    }
    assert enc.code == whole;
  }

  lemma NextParts(dec: EcDec, a: seq<Interval>, b: seq<Interval>)
    requires dec.Next(a + b)
    ensures dec.Next(a) && dec.pos + |a| + |b| <= |dec.code|
    ensures dec.code[dec.pos + |a|..dec.pos + |a| + |b|] == b
  {
    assert dec.code[dec.pos..dec.pos + |a|] == dec.code[dec.pos..dec.pos + |a + b|][..|a|];
    assert dec.code[dec.pos + |a|..dec.pos + |a| + |b|] == dec.code[dec.pos..dec.pos + |a + b|][|a|..];
  }

  method DecodeLatents(dec: EcDec, row: Row, dim: nat, ghost q: seq<int>) returns (out: seq<int>)
    requires dec.Valid() && |q| == dim && RowOk(row, dim) && dec.Next(LatentsCode(q, row, 0))
    modifies dec
    ensures dec.Valid() && out == Kept(q, row) && dec.pos == old(dec.pos) + |LatentsCode(q, row, 0)|
  {
    hide LaplaceCode, MeterAt, AllCodable;
    ghost var end := dec.pos + |LatentsCode(q, row, 0)|;
    out := [];
    for i := 0 to dim
      invariant dec.Valid() && dec.Next(LatentsCode(q, row, i)) && dec.pos + |LatentsCode(q, row, i)| == end
      invariant |out| == i && forall k :: 0 <= k < i ==> out[k] == if Skipped(row, k) then 0 else q[k]
    {
      NextParts(dec, ValueCode(q[i], row, i, dim), LatentsCode(q, row, i + 1));
      var v := 0;
      if !Skipped(row, i) {
        v := EcLaplaceDecodeP0(dec, row.p0[i] * 128, row.r[i] * 128, q[i]);
      }
      out := out + [v];
    }
  }

  // ----- whole frames -----

  /** A frame as the encoder has it: the chunks are those that may be sent. */
  datatype Frame = Frame(q0: nat, dQ: nat, qmax: nat, offset: nat, state: seq<int>, latents: seq<seq<int>>)

  /** A row for every level, for the state and for the chunks. */
  datatype Tables = Tables(states: seq<Row>, latents: seq<Row>, stateDim: nat, latentDim: nat)

  ghost predicate FrameOk(f: Frame, t: Tables) {
    && HeaderOk(f.q0, f.dQ, f.qmax, f.offset) && f.qmax <= 15 && !(f.q0 == 14 && f.qmax == 14 && f.dQ > 0)
    && TableOk(t.states, t.stateDim) && TableOk(t.latents, t.latentDim)
    && |f.state| == t.stateDim && forall i :: 0 <= i < |f.latents| ==> |f.latents[i]| == t.latentDim
  }

  function Level(f: Frame, i: nat): (level: nat)
    requires f.dQ < 8 && f.q0 <= f.qmax <= 15
    ensures level < LEVELS
  {
    ComputeQuantizer(f.q0, f.dQ, f.qmax, i)
  }

  ghost function ChunkCode(f: Frame, t: Tables, i: nat): seq<Interval>
    requires FrameOk(f, t) && i < |f.latents|
  {
    LatentsCode(f.latents[i], t.latents[Level(f, i)], 0)
  }

  /** The header, the state and the first `n` chunks. */
  ghost function FrameCode(f: Frame, t: Tables, n: nat): seq<Interval>
    requires FrameOk(f, t) && n <= |f.latents|
  {
    if n == 0 then HeaderCode(f.q0, f.dQ, f.qmax, f.offset) + LatentsCode(f.state, t.states[f.q0], 0)
    else FrameCode(f, t, n - 1) + ChunkCode(f, t, n - 1)
  }

  lemma CodableParts(a: seq<Interval>, b: seq<Interval>)
    requires AllCodable(a) && AllCodable(b)
    ensures AllCodable(a + b)
  {}

  lemma {:induction false} LatentsCodable(q: seq<int>, row: Row, i: nat)
    requires RowOk(row, |q|) && i <= |q|
    ensures AllCodable(LatentsCode(q, row, i))
    decreases |q| - i
  {
    hide AllCodable, LaplaceCode;
    Nothing();
    if i < |q| {
      LatentsCodable(q, row, i + 1);
      if !Skipped(row, i) {
        LaplaceCodable(q[i], row.p0[i] * 128, row.r[i] * 128);
      }
      CodableParts(ValueCode(q[i], row, i, |q|), LatentsCode(q, row, i + 1));
    }
  }

  lemma Nothing()
    ensures AllCodable([])
  {}

  lemma HeaderCodable(q0: nat, dQ: nat, qmax: nat, offset: nat)
    requires HeaderOk(q0, dQ, qmax, offset)
    ensures AllCodable(HeaderCode(q0, dQ, qmax, offset))
  {}

  /** Every interval of a frame has a frequency, so the range coder can encode it. */
  lemma {:induction false} FrameCodable(f: Frame, t: Tables, n: nat)
    requires FrameOk(f, t) && n <= |f.latents|
    ensures AllCodable(FrameCode(f, t, n))
  {
    hide AllCodable, LatentsCode, RowOk, HeaderCode;
    if n == 0 {
      HeaderCodable(f.q0, f.dQ, f.qmax, f.offset);
      LatentsCodable(f.state, t.states[f.q0], 0);
      CodableParts(HeaderCode(f.q0, f.dQ, f.qmax, f.offset), LatentsCode(f.state, t.states[f.q0], 0));
    } else {
      FrameCodable(f, t, n - 1);
      LatentsCodable(f.latents[n - 1], t.latents[Level(f, n - 1)], 0);
      CodableParts(FrameCode(f, t, n - 1), ChunkCode(f, t, n - 1));
    }
  }

  /** The code of fewer chunks is the beginning of the code of more. */
  lemma {:induction false} FrameCodeGrows(f: Frame, t: Tables, m: nat, n: nat)
    requires FrameOk(f, t) && m <= n <= |f.latents|
    ensures |FrameCode(f, t, m)| <= |FrameCode(f, t, n)|
    ensures FrameCode(f, t, n)[..|FrameCode(f, t, m)|] == FrameCode(f, t, m)
    decreases n
  {
    hide ChunkCode, FrameOk;
    if m < n {
      FrameCodeGrows(f, t, m, n - 1);
      CodeStep(f, t, n);
      Shorter(FrameCode(f, t, n - 1), ChunkCode(f, t, n - 1), |FrameCode(f, t, m)|);
    }
  }

  lemma CodeStep(f: Frame, t: Tables, n: nat)
    requires FrameOk(f, t) && 0 < n <= |f.latents|
    ensures FrameCode(f, t, n) == FrameCode(f, t, n - 1) + ChunkCode(f, t, n - 1)
  {}

  lemma Shorter(a: seq<Interval>, b: seq<Interval>, n: nat)
    requires n <= |a|
    ensures |a + b| == |a| + |b| && (a + b)[..n] == a[..n] && (a + b)[|a|..] == b
  {}

  /** Bits that the first `n` chunks take, with all that is in front of them. */
  ghost function BitsOf(f: Frame, t: Tables, n: nat): int
    requires FrameOk(f, t) && n <= |f.latents|
  {
    FrameCodable(f, t, n);
    Bits(FrameCode(f, t, n), |FrameCode(f, t, n)|)
  }

  /** So many bits have been used in any longer code, when the first `m` chunks are done. */
  lemma BitsInside(f: Frame, t: Tables, m: nat, n: nat)
    requires FrameOk(f, t) && m <= n <= |f.latents|
    ensures |FrameCode(f, t, m)| <= |FrameCode(f, t, n)| && AllCodable(FrameCode(f, t, n))
    ensures Bits(FrameCode(f, t, n), |FrameCode(f, t, m)|) == BitsOf(f, t, m)
    ensures 1 <= BitsOf(f, t, m) <= BitsOf(f, t, n)
  {
    hide FrameOk, FrameCode, AllCodable, MeterAt;
    var a, b := FrameCode(f, t, m), FrameCode(f, t, n);
    FrameCodeGrows(f, t, m, n);
    FrameCodable(f, t, m);
    FrameCodable(f, t, n);
    assert b == a + b[|a|..];
    BitsOfPrefix(a, b[|a|..], |a|);
    BitsGrow(b, |a|, |b|);
  }

  /** More chunks never take fewer bits. */
  lemma BitsRise(f: Frame, t: Tables, m: nat, n: nat)
    requires FrameOk(f, t) && m <= n <= |f.latents|
    ensures 1 <= BitsOf(f, t, m) <= BitsOf(f, t, n)
  {
    hide FrameOk, BitsOf;
    BitsInside(f, t, m, n);
  }

  // ----- which chunks are sent -----

  /** The chunks that fit, from `n` on. */
  ghost function Fitting(f: Frame, t: Tables, budget: int, n: nat): (k: nat)
    requires FrameOk(f, t) && n <= |f.latents|
    ensures n <= k <= |f.latents|
    decreases |f.latents| - n
  {
    if n == |f.latents| || BitsOf(f, t, n + 1) > budget then n else Fitting(f, t, budget, n + 1)
  }

  /** There is speech in the last one of `n` chunks, or in the one before it. */
  predicate Speech(active: nat -> bool, n: nat) {
    n > 0 && (active(2 * (n - 1)) || (n > 1 && active(2 * (n - 2))))
  }

  /** As many chunks as end with speech, of the first `n`. */
  function LastSpeech(active: nat -> bool, n: nat): (k: nat)
    ensures k <= n
  {
    if n == 0 || Speech(active, n) then n else LastSpeech(active, n - 1)
  }

  /** The chunks of a frame that are sent; if there are none, nothing is. */
  ghost function Sent(f: Frame, t: Tables, active: nat -> bool, extraOffset: nat, maxBytes: int): (n: nat)
    requires FrameOk(f, t)
    ensures n <= |f.latents|
  {
    if maxBytes <= 0 || BitsOf(f, t, 0) > 8 * maxBytes then 0
    else
      var n := LastSpeech(active, Fitting(f, t, 8 * maxBytes, 0));
      if n <= 1 && extraOffset > 0 then 0 else n
  }

  lemma {:induction false} FittingIs(f: Frame, t: Tables, budget: int, n: nat, k: nat)
    requires FrameOk(f, t) && n <= k <= |f.latents| && BitsOf(f, t, n) <= budget
    ensures k <= Fitting(f, t, budget, n) <==> BitsOf(f, t, k) <= budget
    decreases |f.latents| - n
  {
    hide FrameOk, BitsOf;
    if n < |f.latents| {
      if n < k {
        BitsRise(f, t, n + 1, k);
      }
      if BitsOf(f, t, n + 1) <= budget && n < k {
        FittingIs(f, t, budget, n + 1, k);
      }
    }
  }

  lemma {:induction false} LastSpeechIs(active: nat -> bool, n: nat)
    ensures LastSpeech(active, n) == 0 || Speech(active, LastSpeech(active, n))
    ensures forall k :: LastSpeech(active, n) < k <= n ==> !Speech(active, k)
  {
    if n > 0 && !Speech(active, n) {
      LastSpeechIs(active, n - 1);
    }
  }

  /** A number of chunks that can be sent: they fit, they end with speech, and one alone does not come late. */
  ghost predicate Sendable(f: Frame, t: Tables, active: nat -> bool, extraOffset: nat, maxBytes: int, n: nat)
    requires FrameOk(f, t)
  {
    && 0 < n <= |f.latents| && BitsOf(f, t, n) <= 8 * maxBytes && (n > 1 || extraOffset == 0)
    && (active(2 * n - 2) || (n > 1 && active(2 * n - 4)))
  }

  /** As many chunks are sent as can be. */
  lemma SentMost(f: Frame, t: Tables, active: nat -> bool, extraOffset: nat, maxBytes: int)
    requires FrameOk(f, t)
    ensures var n := Sent(f, t, active, extraOffset, maxBytes);
            && (n > 0 ==> Sendable(f, t, active, extraOffset, maxBytes, n))
            && forall k: nat :: Sendable(f, t, active, extraOffset, maxBytes, k) ==> k <= n
  {
    hide FrameOk, Sendable, Sent;
    SentSendable(f, t, active, extraOffset, maxBytes);
    forall k: nat | Sendable(f, t, active, extraOffset, maxBytes, k)
      ensures k <= Sent(f, t, active, extraOffset, maxBytes)
    {
      SendableSent(f, t, active, extraOffset, maxBytes, k);
    }
  }

  lemma SentSendable(f: Frame, t: Tables, active: nat -> bool, extraOffset: nat, maxBytes: int)
    requires FrameOk(f, t)
    ensures var n := Sent(f, t, active, extraOffset, maxBytes);
            n > 0 ==> Sendable(f, t, active, extraOffset, maxBytes, n) && BitsOf(f, t, n) <= 8 * maxBytes
  {
    hide FrameOk, BitsOf, LastSpeech, Fitting;
    var budget := 8 * maxBytes;
    if maxBytes > 0 && BitsOf(f, t, 0) <= budget {
      var fitting := Fitting(f, t, budget, 0);
      LastSpeechIs(active, fitting);
      FittingIs(f, t, budget, 0, LastSpeech(active, fitting));
    }
  }

  lemma SendableSent(f: Frame, t: Tables, active: nat -> bool, extraOffset: nat, maxBytes: int, k: nat)
    requires FrameOk(f, t) && Sendable(f, t, active, extraOffset, maxBytes, k)
    ensures k <= Sent(f, t, active, extraOffset, maxBytes)
  {
    hide FrameOk, BitsOf, LastSpeech, Fitting;
    var budget := 8 * maxBytes;
    BitsRise(f, t, 0, k);
    FittingIs(f, t, budget, 0, k);
    assert Speech(active, k);
    LastSpeechIs(active, Fitting(f, t, budget, 0));
  }

  /** The bytes that so many bits take. */
  function Bytes(bits: int): int {
    (bits + 7) / 8
  }

  /** Chunks there are, given that every second latent that waits makes one, and the next one is needed. */
  function Chunks(maxChunks: nat, waiting: nat): nat {
    var maxIters := if 2 * maxChunks < waiting - 1 then 2 * maxChunks else waiting - 1;
    if maxIters <= 0 then 0 else (maxIters + 1) / 2
  }

  /** Encodes what comes before the chunks. */
  method EncodeStart(enc: EcEnc, f: Frame, t: Tables) returns (bits: int)
    requires enc.Valid() && enc.code == [] && FrameOk(f, t)
    modifies enc
    ensures enc.Valid() && enc.code == FrameCode(f, t, 0) && bits == BitsOf(f, t, 0)
  {
    hide HeaderCode, LatentsCode, RowOk, MeterAt, AllCodable, FrameCode, BitsOf;
    EncodeHeader(enc, f.q0, f.dQ, f.qmax, f.offset);
    EncodeLatents(enc, f.state, t.states[f.q0]);
    FirstCode(f, t, enc.code);
    bits := enc.EcTell();
  }

  /** Encodes chunk `n` with the row of its level. */
  method EncodeChunk(enc: EcEnc, f: Frame, t: Tables, n: nat) returns (bits: int)
    requires enc.Valid() && FrameOk(f, t) && n < |f.latents| && enc.code == FrameCode(f, t, n)
    modifies enc
    ensures enc.Valid() && enc.code == FrameCode(f, t, n + 1) && bits == BitsOf(f, t, n + 1)
  {
    hide LatentsCode, RowOk, MeterAt, AllCodable, FrameCode, BitsOf, ComputeQuantizer;
    var qLevel := ComputeQuantizer(f.q0, f.dQ, f.qmax, n);
    EncodeLatents(enc, f.latents[n], t.latents[qLevel]);
    NextCode(f, t, n, enc.code);
    bits := enc.EcTell();
  }

  /** Encodes as many chunks as fit into `maxBytes` bytes, and goes back to the last one with speech. */
  method EncodeFrame(f: Frame, t: Tables, active: nat -> bool, extraOffset: nat, maxChunks: nat, waiting: nat,
                     maxBytes: int)
    returns (bytes: int, code: seq<Interval>)
    requires FrameOk(f, t) && |f.latents| == Chunks(maxChunks, waiting)
    ensures var n := Sent(f, t, active, extraOffset, maxBytes);
            if n == 0 then bytes == 0
            else bytes == Bytes(BitsOf(f, t, n)) && code == FrameCode(f, t, n)
    ensures bytes != 0 ==> 0 < bytes <= maxBytes
  {
    hide FrameOk, AllCodable, MeterAt, FrameCode, Fitting, LastSpeech, Speech, BitsOf, Sendable;
    if maxBytes <= 0 {
      return 0, [];
    }
    var enc := new EcEnc();
    var bits := EncodeStart(enc, f, t);
    if bits > 8 * maxBytes {
      return 0, [];
    }
    var bak := enc.Capture();
    var encoded, prevActive := 0, false;
    var maxIters := if 2 * maxChunks < waiting - 1 then 2 * maxChunks else waiting - 1;
    var i := 0;
    NoSpeech(active);
    ghost var budget, fitting := 8 * maxBytes, Fitting(f, t, 8 * maxBytes, 0);
    while i < maxIters
      invariant i % 2 == 0 && i / 2 <= |f.latents| && (i >= maxIters ==> i / 2 == |f.latents|)
      invariant enc.Valid() && enc.code == FrameCode(f, t, i / 2) && fitting == Fitting(f, t, budget, i / 2)
      invariant prevActive == (i > 0 && active(i - 2))
      invariant encoded % 2 == 0 && encoded / 2 == LastSpeech(active, i / 2)
      invariant bak.Valid() && (encoded > 0 ==> bak.code == FrameCode(f, t, encoded / 2))
    {
      FittingStep(f, t, budget, i / 2);
      SpeechStep(active, i / 2);
      bits := EncodeChunk(enc, f, t, i / 2);
      if bits > 8 * maxBytes {
        if i == 0 {
          return 0, [];
        }
        break;
      }
      var now := active(i);
      if now || prevActive {
        bak := enc.Capture();
        encoded := i + 2;
      }
      prevActive := now;
      i := i + 2;
    }
    FittingEnd(f, t, budget, i / 2);
    if encoded == 0 || (encoded <= 2 && extraOffset > 0) {
      return 0, [];
    }
    SentBytes(f, t, active, extraOffset, maxBytes);
    enc.Restore(bak);
    CodeBits(f, t, encoded / 2, enc.code);
    bits := enc.EcTell();
    return (bits + 7) / 8, enc.code;
  }

  lemma SentBytes(f: Frame, t: Tables, active: nat -> bool, extraOffset: nat, maxBytes: int)
    requires FrameOk(f, t) && Sent(f, t, active, extraOffset, maxBytes) > 0
    ensures 0 < Bytes(BitsOf(f, t, Sent(f, t, active, extraOffset, maxBytes))) <= maxBytes
  {
    hide FrameOk, BitsOf, Sent, Sendable;
    SentSendable(f, t, active, extraOffset, maxBytes);
    BitsRise(f, t, 0, Sent(f, t, active, extraOffset, maxBytes));
  }

  lemma NoSpeech(active: nat -> bool)
    ensures LastSpeech(active, 0) == 0
  {}

  lemma SpeechStep(active: nat -> bool, n: nat)
    ensures LastSpeech(active, n + 1)
         == if active(2 * n) || (n > 0 && active(2 * n - 2)) then n + 1 else LastSpeech(active, n)
  {}

  lemma FittingStep(f: Frame, t: Tables, budget: int, n: nat)
    requires FrameOk(f, t) && n < |f.latents|
    ensures Fitting(f, t, budget, n) == if BitsOf(f, t, n + 1) > budget then n else Fitting(f, t, budget, n + 1)
  {
    hide FrameOk, BitsOf;
  }

  lemma FittingEnd(f: Frame, t: Tables, budget: int, n: nat)
    requires FrameOk(f, t) && n <= |f.latents|
    ensures n == |f.latents| ==> Fitting(f, t, budget, n) == n
  {
    hide FrameOk, BitsOf;
  }

  lemma CodeBits(f: Frame, t: Tables, n: nat, code: seq<Interval>)
    requires FrameOk(f, t) && n <= |f.latents| && code == FrameCode(f, t, n)
    ensures AllCodable(code) && Bits(code, |code|) == BitsOf(f, t, n)
  {
    hide FrameOk, FrameCode, AllCodable, MeterAt;
    FrameCodable(f, t, n);
  }

  lemma FirstCode(f: Frame, t: Tables, code: seq<Interval>)
    requires FrameOk(f, t)
    requires code == [] + HeaderCode(f.q0, f.dQ, f.qmax, f.offset) + LatentsCode(f.state, t.states[f.q0], 0)
    ensures code == FrameCode(f, t, 0) && AllCodable(code) && Bits(code, |code|) == BitsOf(f, t, 0)
  {
    hide HeaderCode, LatentsCode, RowOk, AllCodable, MeterAt;
    CodeBits(f, t, 0, FrameCode(f, t, 0));
    NothingInFront(HeaderCode(f.q0, f.dQ, f.qmax, f.offset));
  }

  lemma NothingInFront(a: seq<Interval>)
    ensures [] + a == a
  {}

  lemma NextCode(f: Frame, t: Tables, i: nat, code: seq<Interval>)
    requires FrameOk(f, t) && i < |f.latents|
    requires code == FrameCode(f, t, i) + LatentsCode(f.latents[i], t.latents[Level(f, i)], 0)
    ensures code == FrameCode(f, t, i + 1) && AllCodable(code) && Bits(code, |code|) == BitsOf(f, t, i + 1)
  {
    hide LatentsCode, FrameOk, AllCodable, MeterAt;
    CodeBits(f, t, i + 1, FrameCode(f, t, i + 1));
  }

  // ----- what arrives -----

  const DRED_MAX_DATA_SIZE := 1000
  const DRED_NUM_REDUNDANCY_FRAMES := 52

  datatype OpusDredError = BufferTooSmall

  /** What the decoder makes of a frame. */
  datatype OpusDred = OpusDred(dredOffset: int, state: seq<int>, latents: seq<seq<int>>)

  /** Chunks that the decoder is asked for. */
  function Asked(minFeatureFrames: int): nat {
    var frames := (minFeatureFrames + 1) / 2;
    (Clamped(frames, DRED_NUM_REDUNDANCY_FRAMES) + 1) / 2
  }

  function Clamped(v: int, limit: nat): nat {
    if v < 0 then 0 else if v > limit then limit else v
  }

  /** Where the decoder stops, from chunk `i` on: in the last byte, or when it has what it is asked for. */
  ghost function Arriving(f: Frame, t: Tables, n: nat, bytes: int, asked: nat, i: nat): (k: nat)
    requires FrameOk(f, t) && i <= n <= |f.latents|
    ensures i <= k <= n
    decreases n - i
  {
    if i == n || i >= asked || 8 * bytes - BitsOf(f, t, i) <= 7 then i else Arriving(f, t, n, bytes, asked, i + 1)
  }

  lemma {:induction false} ArrivingIs(f: Frame, t: Tables, n: nat, bytes: int, asked: nat, i: nat)
    requires FrameOk(f, t) && i < n <= |f.latents|
    ensures Arriving(f, t, n, bytes, asked, i) == n <==> n <= asked && 8 * bytes - BitsOf(f, t, n - 1) > 7
    decreases n - i
  {
    hide FrameOk, BitsOf;
    BitsRise(f, t, i, n - 1);
    if i + 1 < n {
      ArrivingIs(f, t, n, bytes, asked, i + 1);
    }
  }

  /** Of the chunks that were sent all arrive if and only if all were asked for, and the last one begins
      before the last byte. */
  lemma AllArrive(f: Frame, t: Tables, n: nat, asked: nat)
    requires FrameOk(f, t) && 0 < n <= |f.latents|
    ensures Arriving(f, t, n, Bytes(BitsOf(f, t, n)), asked, 0) == n
       <==> n <= asked && Bytes(BitsOf(f, t, n - 1)) < Bytes(BitsOf(f, t, n))
  {
    hide FrameOk, BitsOf;
    ArrivingIs(f, t, n, Bytes(BitsOf(f, t, n)), asked, 0);
  }

  /** No value of the row is coded. */
  predicate AllSkipped(row: Row)
    requires |row.r| == |row.p0|
  {
    forall i :: 0 <= i < |row.r| ==> Skipped(row, i)
  }

  lemma {:induction false} SkippedCode(q: seq<int>, row: Row, i: nat)
    requires RowOk(row, |q|) && AllSkipped(row) && i <= |q|
    ensures LatentsCode(q, row, i) == []
    decreases |q| - i
  {
    if i < |q| {
      SkippedCode(q, row, i + 1);
    }
  }

  /** A last chunk without coded values takes no bits, so it never arrives. */
  lemma SkippedLost(f: Frame, t: Tables, n: nat, asked: nat)
    requires FrameOk(f, t) && 0 < n <= |f.latents| && AllSkipped(t.latents[Level(f, n - 1)])
    ensures BitsOf(f, t, n) == BitsOf(f, t, n - 1)
    ensures Arriving(f, t, n, Bytes(BitsOf(f, t, n)), asked, 0) < n
  {
    hide LatentsCode, BitsOf;
    SkippedCode(f.latents[n - 1], t.latents[Level(f, n - 1)], 0);
    SameBits(f, t, n);
    AllArrive(f, t, n, asked);
  }

  lemma SameBits(f: Frame, t: Tables, n: nat)
    requires FrameOk(f, t) && 0 < n <= |f.latents| && ChunkCode(f, t, n - 1) == []
    ensures BitsOf(f, t, n) == BitsOf(f, t, n - 1)
  {
    hide FrameOk, ChunkCode, MeterAt;
    FrameCodable(f, t, n);
    CodeStep(f, t, n);
    assert FrameCode(f, t, n) == FrameCode(f, t, n - 1);
  }

  const SKIPPED_ROW := Row([0], [0])

  /** Tables without any coded value, and a frame of one chunk. */
  const SKIPPED_TABLES := Tables(seq(LEVELS, _ => SKIPPED_ROW), seq(LEVELS, _ => SKIPPED_ROW), 1, 1)

  const LOST_FRAME := Frame(0, 0, 15, 0, [0], [[5]])

  lemma LostFrameOk()
    ensures FrameOk(LOST_FRAME, SKIPPED_TABLES) && AllSkipped(SKIPPED_TABLES.latents[Level(LOST_FRAME, 0)])
  {
    assert RowOk(SKIPPED_ROW, 1);
    assert forall level :: 0 <= level < LEVELS ==> SKIPPED_TABLES.latents[level] == SKIPPED_ROW;
  }

  const LOST_CODE: seq<Interval> := [Interval(0, 1, 16), Interval(0, 1, 8), Interval(0, 1, 2), Interval(0, 1, 32)]

  lemma LostFrameCode()
    requires FrameOk(LOST_FRAME, SKIPPED_TABLES)
    ensures FrameCode(LOST_FRAME, SKIPPED_TABLES, 0) == LOST_CODE
  {
    hide LatentsCode, FrameOk;
    assert RowOk(SKIPPED_ROW, 1);
    SkippedCode([0], SKIPPED_ROW, 0);
    assert HeaderCode(0, 0, 15, 0) == LOST_CODE;
  }

  lemma LostMeter()
    requires AllCodable(LOST_CODE)
    ensures MeterAt(LOST_CODE, 4) == Meter(0x400_0000, 41)
  {
    assert MeterAt(LOST_CODE, 1) == Meter(0x800_0000, 33);
    assert MeterAt(LOST_CODE, 2) == Meter(0x100_0000, 33);
    assert MeterAt(LOST_CODE, 3) == Meter(0x8000_0000, 41);
  }

  /** The header takes 14 bits. */
  lemma LostFrameBits()
    requires FrameOk(LOST_FRAME, SKIPPED_TABLES)
    ensures BitsOf(LOST_FRAME, SKIPPED_TABLES, 0) == 14
  {
    hide FrameOk, FrameCode, MeterAt, AllCodable;
    FrameCodable(LOST_FRAME, SKIPPED_TABLES, 0);
    LostFrameCode();
    LostMeter();
    IlogByte(0x4_0000);
    IlogByte(0x400);
    IlogByte(4);
  }

  /** A frame whose one chunk is sent in two bytes, of which the decoder finds none. */
  lemma ChunkLost(active: nat -> bool, asked: nat)
    requires active(0)
    ensures FrameOk(LOST_FRAME, SKIPPED_TABLES)
    ensures Sent(LOST_FRAME, SKIPPED_TABLES, active, 0, 2) == 1
    ensures Bytes(BitsOf(LOST_FRAME, SKIPPED_TABLES, 1)) == 2
    ensures Arriving(LOST_FRAME, SKIPPED_TABLES, 1, 2, asked, 0) == 0
  {
    hide FrameOk, BitsOf, AllSkipped, Level;
    LostFrameOk();
    LostFrameBits();
    SkippedLost(LOST_FRAME, SKIPPED_TABLES, 1, asked);
    SpeechStep(active, 0);
  }

  /** What arrives of chunk `i`. */
  function KeptChunk(f: Frame, t: Tables, i: nat): seq<int>
    requires f.dQ < 8 && f.q0 <= f.qmax <= 15 && i < |f.latents| && |t.latents| == LEVELS
    requires |f.latents[i]| == |t.latents[Level(f, i)].r| == |t.latents[Level(f, i)].p0|
  {
    Kept(f.latents[i], t.latents[Level(f, i)])
  }

  ghost predicate ChunksArrived(f: Frame, t: Tables, chunks: seq<seq<int>>)
    requires FrameOk(f, t)
  {
    |chunks| <= |f.latents| && forall i :: 0 <= i < |chunks| ==> chunks[i] == KeptChunk(f, t, i)
  }

  /** Decodes what was sent of a frame, from that many bytes. */
  method DecodeFrame(bytes: nat, code: seq<Interval>, minFeatureFrames: int, frameOffset: int, t: Tables,
                     ghost f: Frame, ghost n: nat)
    returns (r: Result<OpusDred, OpusDredError>)
    requires FrameOk(f, t) && n <= |f.latents| && code == FrameCode(f, t, n) && bytes == Bytes(BitsOf(f, t, n))
    ensures r.Err? <==> bytes > 1000
    ensures r.Ok? ==>
              && r.value.dredOffset == 16 - f.offset + frameOffset && r.value.state == Kept(f.state, t.states[f.q0])
              && |r.value.latents| == Arriving(f, t, n, bytes, Asked(minFeatureFrames), 0)
              && ChunksArrived(f, t, r.value.latents)
  {
    hide HeaderCode, LatentsCode, ComputeQuantizer, MeterAt, AllCodable, ChunkCode, FrameCode, KeptChunk, BitsOf;
    if bytes > DRED_MAX_DATA_SIZE {
      return Err(BufferTooSmall);
    }
    FrameCodable(f, t, n);
    var dec := new EcDec(code);
    HeaderNext(dec, f, t, n);
    var q0, dQ, qmax, offset := DecodeHeader(dec, f.q0, f.dQ, f.qmax, f.offset);
    var dredOffset := 16 - offset + frameOffset;
    StateNext(dec, f, t, n);
    var state := DecodeLatents(dec, t.states[q0], t.stateDim, f.state);
    var maxFrames := Clamped((minFeatureFrames + 1) / 2, DRED_NUM_REDUNDANCY_FRAMES);
    var latents := [];
    var i := 0;
    while i < maxFrames
      invariant i % 2 == 0 && |latents| == i / 2 <= n && ChunksArrived(f, t, latents)
      invariant dec.Valid() && dec.pos == |FrameCode(f, t, i / 2)|
      invariant Arriving(f, t, n, bytes, Asked(minFeatureFrames), 0)
             == Arriving(f, t, n, bytes, Asked(minFeatureFrames), i / 2)
    {
      BitsInside(f, t, i / 2, n);
      var bits := dec.EcTell();
      if 8 * bytes - bits <= 7 {
        break;
      }
      SameLevels(f.q0, f.dQ, f.qmax);
      assert LevelsAgree(f.q0, f.dQ, f.qmax, i / 2);
      var qLevel := ComputeQuantizer(q0, dQ, qmax, i / 2);
      ChunkNext(dec, f, t, n, i / 2);
      var chunk := DecodeLatents(dec, t.latents[qLevel], t.latentDim, f.latents[i / 2]);
      ChunkArrived(f, t, latents, chunk);
      latents := latents + [chunk];
      i := i + 2;
    }
    return Ok(OpusDred(dredOffset, state, latents));
  }

  lemma ChunkArrived(f: Frame, t: Tables, chunks: seq<seq<int>>, chunk: seq<int>)
    requires FrameOk(f, t) && ChunksArrived(f, t, chunks) && |chunks| < |f.latents|
    requires chunk == Kept(f.latents[|chunks|], t.latents[Level(f, |chunks|)])
    ensures ChunksArrived(f, t, chunks + [chunk])
  {
    hide Kept, Level;
  }

  /** What the decoder has in front of it. */
  lemma HeaderNext(dec: EcDec, f: Frame, t: Tables, n: nat)
    requires FrameOk(f, t) && n <= |f.latents| && dec.code == FrameCode(f, t, n) && dec.pos == 0
    ensures dec.Next(HeaderCode(f.q0, f.dQ, f.qmax, f.offset))
  {
    hide HeaderCode, LatentsCode;
    FrameCodeGrows(f, t, 0, n);
  }

  lemma StateNext(dec: EcDec, f: Frame, t: Tables, n: nat)
    requires FrameOk(f, t) && n <= |f.latents| && dec.code == FrameCode(f, t, n)
    requires dec.pos == |HeaderCode(f.q0, f.dQ, f.qmax, f.offset)|
    ensures dec.Next(LatentsCode(f.state, t.states[f.q0], 0))
    ensures dec.pos + |LatentsCode(f.state, t.states[f.q0], 0)| == |FrameCode(f, t, 0)|
  {
    hide HeaderCode, LatentsCode;
    FrameCodeGrows(f, t, 0, n);
    NextInside(dec, HeaderCode(f.q0, f.dQ, f.qmax, f.offset), LatentsCode(f.state, t.states[f.q0], 0));
  }

  lemma ChunkNext(dec: EcDec, f: Frame, t: Tables, n: nat, i: nat)
    requires FrameOk(f, t) && i < n <= |f.latents| && dec.code == FrameCode(f, t, n)
    requires dec.pos == |FrameCode(f, t, i)|
    ensures dec.Next(LatentsCode(f.latents[i], t.latents[Level(f, i)], 0))
    ensures dec.pos + |LatentsCode(f.latents[i], t.latents[Level(f, i)], 0)| == |FrameCode(f, t, i + 1)|
  {
    hide LatentsCode;
    FrameCodeGrows(f, t, i + 1, n);
    NextInside(dec, FrameCode(f, t, i), ChunkCode(f, t, i));
  }

  lemma NextInside(dec: EcDec, a: seq<Interval>, b: seq<Interval>)
    requires dec.pos == |a| && |a + b| <= |dec.code| && dec.code[..|a + b|] == a + b
    ensures dec.Next(b)
  {
    assert dec.code[|a|..|a| + |b|] == dec.code[..|a + b|][|a|..];
  }
}
