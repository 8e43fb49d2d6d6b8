/** The redundancy format in literal numbers: levels, distributions, codes, and what is counted. */
module DredLaws {
  import opened RangeCoding
  import opened DredLaplace
  import opened DredStream
  import opened DredLatents

  // ----- levels -----

  /** Sixteenths of a level from chunk to chunk. */
  function Slope(dQ: nat): nat {
    if dQ == 0 then 0 else if dQ == 1 then 2 else if dQ == 2 then 3 else if dQ == 3 then 4
    else if dQ == 4 then 6 else if dQ == 5 then 8 else if dQ == 6 then 12 else 16
  }

  /** A chunk gets the level that is nearest to the slope, the upper one of two; the limit exactly if the nearest
      is not below it. */
  lemma LevelNearest(q0: nat, dQ: nat, qmax: nat, i: nat)
    requires dQ < 8 && q0 <= qmax
    ensures var level, t := ComputeQuantizer(q0, dQ, qmax, i), Slope(dQ);
            && q0 <= level <= qmax
            && (level < qmax ==> -8 <= t * i - 16 * (level - q0) < 8)
            && (level == qmax <==> t * i - 16 * (qmax - q0) >= -8)
  {
    assert D_Q_TABLE[dQ] == Slope(dQ);
    Rounded(Slope(dQ) * i, q0, qmax, ComputeQuantizer(q0, dQ, qmax, i));
  }

  lemma Rounded(p: nat, q0: nat, qmax: nat, level: nat)
    requires q0 <= qmax && level == if q0 + (p + 8) / 16 < qmax then q0 + (p + 8) / 16 else qmax
    ensures level < qmax ==> -8 <= p - 16 * (level - q0) < 8
    ensures level == qmax <==> p - 16 * (qmax - q0) >= -8
  {}

  // ----- distributions -----

  /** The range of 32768 is zero, positive and negative numbers, in this order; the last two share what the first
      leaves, the negative ones rounded down. */
  lemma SignIs(p0: nat)
    requires p0 <= 32768
    ensures SignInterval(p0, 0) == Interval(0, p0, 32768)
    ensures SignInterval(p0, 1) == Interval(p0, 32768 - (32768 - p0) / 2, 32768)
    ensures SignInterval(p0, 2) == Interval(32768 - (32768 - p0) / 2, 32768, 32768)
  {}

  /** What the digits from `k` on have in common, of 32768. */
  lemma TailIs(decay: nat, k: nat)
    requires Probability(decay) && k < 8
    ensures DigitIcdf(decay)[7] == 0
    ensures k == 0 ==> DigitIcdf(decay)[0] == if decay < 7 then 7 else decay
    ensures 0 < k < 7 ==>
              var next := DigitIcdf(decay)[k - 1] * decay / 32768;
              DigitIcdf(decay)[k] == if next < 7 - k then 7 - k else next
  {}

  /** Half of the range for every digit but what the ones before it take. */
  lemma TailsOfHalf()
    ensures DigitIcdf(16384) == [16384, 8192, 4096, 2048, 1024, 512, 256, 0]
    ensures DigitIcdf(7) == [7, 6, 5, 4, 3, 2, 1, 0]
  {
    assert MagnitudeIcdf(16384, 1) == 8192 && MagnitudeIcdf(16384, 2) == 4096 && MagnitudeIcdf(16384, 3) == 2048;
    assert MagnitudeIcdf(16384, 4) == 1024 && MagnitudeIcdf(16384, 5) == 512 && MagnitudeIcdf(16384, 6) == 256;
    assert MagnitudeIcdf(7, 1) == 6 && MagnitudeIcdf(7, 2) == 5 && MagnitudeIcdf(7, 3) == 4;
    assert MagnitudeIcdf(7, 4) == 3 && MagnitudeIcdf(7, 5) == 2 && MagnitudeIcdf(7, 6) == 1;
  }

  /** A digit is what its own tail has more than the next one, behind the digits before it. */
  lemma DigitIs(decay: nat, digit: nat)
    requires Probability(decay) && digit <= 7
    ensures DigitInterval(decay, digit)
         == Interval(if digit == 0 then 0 else 32768 - DigitIcdf(decay)[digit - 1],
                     32768 - DigitIcdf(decay)[digit], 32768)
  {
    hide DigitIcdf;
    DigitsCodable(decay);
  }

  /** A magnitude is sevens and what is left. */
  lemma {:induction false} EscapeDigits(m: nat, decay: nat)
    requires Probability(decay)
    ensures |EscapeCode(m, decay)| == m / 7 + 1
    ensures forall k :: 0 <= k < m / 7 ==> EscapeCode(m, decay)[k] == DigitInterval(decay, 7)
    ensures EscapeCode(m, decay)[m / 7] == DigitInterval(decay, m % 7)
  {
    hide DigitInterval;
    if m >= 7 {
      EscapeDigits(m - 7, decay);
      var rest := EscapeCode(m - 7, decay);
      assert m / 7 == (m - 7) / 7 + 1 && m % 7 == (m - 7) % 7;
      forall k | 0 <= k < m / 7
        ensures EscapeCode(m, decay)[k] == DigitInterval(decay, 7)
      {
        assert k > 0 ==> EscapeCode(m, decay)[k] == rest[k - 1];
      }
      assert EscapeCode(m, decay)[m / 7] == rest[(m - 7) / 7];
    }
  }

  /** A number is its sign, and then its magnitude less one. */
  lemma NumberIs(v: int, p0: nat, decay: nat)
    requires Parameters(p0, decay)
    ensures v == 0 ==> LaplaceCode(v, p0, decay) == [SignInterval(p0, 0)]
    ensures v > 0 ==> LaplaceCode(v, p0, decay) == [SignInterval(p0, 1)] + EscapeCode(v - 1, decay)
    ensures v < 0 ==> LaplaceCode(v, p0, decay) == [SignInterval(p0, 2)] + EscapeCode(-v - 1, decay)
  {
    hide SignInterval, EscapeCode;
  }

  // ----- the header -----

  lemma HeaderSmall()
    ensures HeaderCode(3, 2, 15, 5)
         == [Interval(3, 4, 16), Interval(2, 3, 8), Interval(0, 1, 2), Interval(5, 6, 32), Interval(0, 11, 22)]
  {}

  lemma HeaderLarge()
    ensures HeaderCode(3, 2, 7, 100)
         == [Interval(3, 4, 16), Interval(2, 3, 8), Interval(1, 2, 2), Interval(3, 4, 256), Interval(4, 5, 32),
             Interval(14, 15, 22)]
  {}

  /** q0, the slope, how far back, and the limit unless the level cannot rise. */
  lemma HeaderIs(q0: nat, dQ: nat, qmax: nat, offset: nat)
    requires HeaderOk(q0, dQ, qmax, offset)
    ensures var back := if offset <= 31 then [Interval(0, 1, 2), Interval(offset, offset + 1, 32)]
                        else [Interval(1, 2, 2), Interval(offset / 32, offset / 32 + 1, 256),
                              Interval(offset % 32, offset % 32 + 1, 32)];
            var n := 14 - q0;
            var limit := if q0 >= 14 || dQ == 0 then []
                         else if qmax >= 15 then [Interval(0, n, 2 * n)]
                         else [Interval(n + qmax - q0 - 1, n + qmax - q0, 2 * n)];
            HeaderCode(q0, dQ, qmax, offset) == [Interval(q0, q0 + 1, 16), Interval(dQ, dQ + 1, 8)] + back + limit
  {}

  // ----- a frame -----

  /** A value is left out exactly if its row has no decay, or is always 0. */
  lemma SkippedIff(q: int, row: Row, i: nat, dim: nat)
    requires RowOk(row, dim) && i < dim
    ensures ValueCode(q, row, i, dim) == [] <==> row.r[i] == 0 || row.p0[i] == 255
    ensures row.r[i] != 0 && row.p0[i] != 255 ==>
              ValueCode(q, row, i, dim) == LaplaceCode(q, row.p0[i] * 128, row.r[i] * 128)
    ensures Kept([q], Row([row.r[i]], [row.p0[i]])) == [if row.r[i] == 0 || row.p0[i] == 255 then 0 else q]
  {
    hide EscapeCode, SignInterval;
  }

  /** Tables in which every level has its own probability. */
  const TABLE: seq<Row> := seq(16, l requires 0 <= l < 16 => Row([100], [l + 1]))

  lemma TableRow(l: nat)
    requires l < 16
    ensures TABLE[l] == Row([100], [l + 1])
  {}

  /** A chunk with the value 0 at a level. */
  lemma ZeroAt(l: nat)
    requires l < 16
    ensures RowOk(TABLE[l], 1) && LatentsCode([0], TABLE[l], 0) == [Interval(0, 128 * (l + 1), 32768)]
  {
    hide SignInterval;
    TableRow(l);
    SignIs(128 * (l + 1));
    NumberIs(0, (l + 1) * 128, 100 * 128);
  }

  /** The state comes first, with the row of q0; the chunks follow with the rows of their levels: 6, and then 7. */
  lemma FrameIs()
    ensures var f, t := Frame(6, 5, 15, 0, [0], [[0], [0]]), Tables(TABLE, TABLE, 1, 1);
            && FrameOk(f, t)
            && FrameCode(f, t, 2)
               == HeaderCode(6, 5, 15, 0)
                  + [Interval(0, 128 * 7, 32768), Interval(0, 128 * 7, 32768), Interval(0, 128 * 8, 32768)]
  {
    hide HeaderCode, LatentsCode, RowOk;
    var f, t := Frame(6, 5, 15, 0, [0], [[0], [0]]), Tables(TABLE, TABLE, 1, 1);
    forall l | 0 <= l < 16
      ensures RowOk(TABLE[l], 1)
    {
      ZeroAt(l);
    }
    ZeroAt(6);
    ZeroAt(7);
    LevelNearest(6, 5, 15, 0);
    LevelNearest(6, 5, 15, 1);
    assert FrameCode(f, t, 0) == HeaderCode(6, 5, 15, 0) + [Interval(0, 128 * 7, 32768)];
    assert FrameCode(f, t, 1) == FrameCode(f, t, 0) + [Interval(0, 128 * 7, 32768)];
  }

  // ----- what is counted -----

  /** As few bytes as hold the bits. */
  lemma BytesHold(bits: int)
    ensures 8 * Bytes(bits) - 8 < bits <= 8 * Bytes(bits)
  {}

  /** Chunk `c` may be sent if it is one of those allowed, and there is a latent behind its own. */
  lemma ChunksIff(maxChunks: nat, waiting: nat, c: nat)
    ensures c < Chunks(maxChunks, waiting) <==> c < maxChunks && 2 * c + 1 < waiting
  {}

  /** The decoder is asked for chunks that begin within half of the feature frames, and within 52. */
  lemma AskedIff(minFeatureFrames: int, c: nat)
    ensures c < Asked(minFeatureFrames) <==> 2 * c < (minFeatureFrames + 1) / 2 && 2 * c < 52
  {}

  /** The decoder goes on while there are 8 bits or more that it has not used. */
  lemma {:induction false} ArrivingGoesOn(f: Frame, t: Tables, n: nat, bytes: int, asked: nat, i: nat, j: nat)
    requires FrameOk(f, t) && i <= n <= |f.latents| && i <= j < Arriving(f, t, n, bytes, asked, i)
    ensures j < asked && 8 * bytes - BitsOf(f, t, j) >= 8
    decreases n - i
  {
    hide FrameOk, BitsOf;
    if i < j {
      ArrivingGoesOn(f, t, n, bytes, asked, i + 1, j);
    }
  }

  /** It stops where there are fewer, or when it has what it was asked for, or all. */
  lemma {:induction false} ArrivingStops(f: Frame, t: Tables, n: nat, bytes: int, asked: nat, i: nat)
    requires FrameOk(f, t) && i <= n <= |f.latents|
    ensures var k := Arriving(f, t, n, bytes, asked, i);
            k == n || k >= asked || 8 * bytes - BitsOf(f, t, k) < 8
    decreases n - i
  {
    hide FrameOk, BitsOf;
    if i < n && i < asked && 8 * bytes - BitsOf(f, t, i) >= 8 {
      ArrivingStops(f, t, n, bytes, asked, i + 1);
    }
  }

  /** A chunk that arrives is the one that was sent, with 0 for the values that are left out. */
  lemma ArrivedAs(f: Frame, t: Tables, chunks: seq<seq<int>>, i: nat, j: nat)
    requires FrameOk(f, t) && ChunksArrived(f, t, chunks) && i < |chunks| && j < t.latentDim
    ensures |chunks[i]| == t.latentDim && i < |f.latents|
    ensures var row := t.latents[Level(f, i)];
            chunks[i][j] == if row.r[j] == 0 || row.p0[j] == 255 then 0 else f.latents[i][j]
  {
    hide ComputeQuantizer;
    assert chunks[i] == KeptChunk(f, t, i);
  }

  // ----- the range -----

  /** Two intervals next to each other take as much of the range as both together, and all of them take it all. */
  lemma RangeShared(rng: nat, low: nat, mid: nat, high: nat, total: nat)
    requires low < mid < high <= total <= 32768 && rng > CODE_BOT
    ensures Narrowed(rng, Interval(low, mid, total)) + Narrowed(rng, Interval(mid, high, total))
         == Narrowed(rng, Interval(low, high, total))
    ensures Narrowed(rng, Interval(0, total, total)) == rng
  {
    var r := rng / total;
    Split(r, mid - low, high - mid);
    Split(r, high - mid, total - high);
  }

  lemma Split(r: int, a: int, b: int)
    ensures r * (a + b) == r * a + r * b
  {}

  /** Parts of the same size behind the first one take the same. */
  lemma EqualShares(rng: nat, i: nat, total: nat)
    requires 0 < i < total <= 32768 && rng > CODE_BOT
    ensures Narrowed(rng, Interval(i, i + 1, total)) == rng / total
  {}

  function PowerOfTwo(n: nat): nat {
    if n == 0 then 1 else 2 * PowerOfTwo(n - 1)
  }

  /** The digits of a number in base 2. */
  lemma {:induction false} IlogIs(v: nat)
    requires v > 0
    ensures Ilog(v) > 0 && PowerOfTwo(Ilog(v) - 1) <= v < PowerOfTwo(Ilog(v))
  {
    if v > 1 {
      IlogIs(v / 2);
    }
  }

  // ----- latents -----

  /** The nearest multiple of 40 samples, the upper one of two. */
  lemma PositionNearest(offset16k: int)
    ensures -20 <= offset16k - 40 * Position(offset16k) < 20
  {}

  /** The buffer of latents has room for 52, of which the newest are kept. */
  lemma LatentsKept(enc: DredEnc)
    requires enc.Valid()
    ensures enc.latentsBufferFill == if enc.frames < 52 then enc.frames else 52
    ensures enc.received + 11 == 320 * enc.frames + enc.inputBufferFill && enc.inputBufferFill < 320
  {}

  /** A quotient is cut off toward zero. */
  lemma QuotientCut(a: int, b: int)
    requires b > 0
    ensures a >= 0 ==> 0 <= a - b * Quotient(a, b) < b
    ensures a < 0 ==> -b < a - b * Quotient(a, b) <= 0
  {
    if a < 0 {
      assert -a == b * (-a / b) + -a % b;
    }
  }
}
