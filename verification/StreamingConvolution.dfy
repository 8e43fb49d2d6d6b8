/** Convolutions that see a stream piece by piece. */
module StreamingConvolution {
  import opened Streams

  /** The memory holds the end of the stream. */
  ghost predicate Remembers(mem: array<real>, n: nat, stream: seq<real>) reads mem {
    n <= mem.Length && mem[..n] == Last(n, stream)
  }

  /** The vector that the layer gets is the end of the whole stream. */
  method ComputeGenericConv1d(nbInputs: nat, mem: array<real>, input: seq<real>, ghost stream: seq<real>)
    returns (tmp: seq<real>)
    requires |input| <= nbInputs && Remembers(mem, nbInputs - |input|, stream)
    modifies mem
    ensures tmp == Last(nbInputs, stream + input)
    ensures Remembers(mem, nbInputs - |input|, stream + input)
    ensures mem[nbInputs - |input|..] == old(mem[nbInputs - |input|..])
  {
    hide Last;
    var offset := nbInputs - |input|;
    if nbInputs != |input| {
      tmp := mem[..offset] + input;
    } else {
      tmp := input;
    }
    ConvVector(nbInputs, stream, input, tmp);
    ConvMemory(nbInputs, stream, input, tmp);
    if nbInputs != |input| {
      CopyTo(mem, 0, tmp[|input|..|input| + offset]);
    }
  }

  lemma ConvVector(nbInputs: nat, stream: seq<real>, input: seq<real>, tmp: seq<real>)
    requires |input| <= nbInputs && tmp == Last(nbInputs - |input|, stream) + input
    ensures tmp == Last(nbInputs, stream + input)
  {
    LastOn(nbInputs, stream, input);
    LastOfLast(nbInputs - |input|, nbInputs, stream);
  }

  lemma ConvMemory(nbInputs: nat, stream: seq<real>, input: seq<real>, tmp: seq<real>)
    requires |input| <= nbInputs && tmp == Last(nbInputs, stream + input)
    ensures tmp[|input|..nbInputs] == Last(nbInputs - |input|, stream + input)
  {
    LastOfLast(nbInputs - |input|, nbInputs, stream + input);
    assert tmp[|input|..nbInputs] == tmp[|input|..];
  }

  // ----- dilation -----

  /** Sample `k` of the input that came `back` inputs ago, 0 for the last one. */
  function Past(stream: seq<real>, inputSize: nat, back: nat, k: nat): real
    requires k < inputSize
  {
    var at := |stream| - inputSize * (back + 1) + k;
    if 0 <= at < |stream| then stream[at] else 0.0
  }

  lemma Product(a: nat, b: nat, c: nat)
    ensures a * (b + c) == a * b + a * c && 0 <= a * b && 0 <= a * c
  {}

  /** How much history a dilated convolution needs. */
  function Span(inputSize: nat, dilation: nat, ksize: nat): nat
    requires ksize > 0
  {
    inputSize * dilation * (ksize - 1)
  }

  lemma Regroup(a: nat, b: nat, c: nat)
    ensures a * b * c == a * (b * c) && c * a * b == a * b * c
  {}

  lemma SpanSplit(inputSize: nat, dilation: nat, ksize: nat, i: nat)
    requires i < ksize
    ensures Span(inputSize, dilation, ksize) == i * inputSize * dilation + inputSize * (dilation * (ksize - 1 - i))
    ensures i < ksize - 1 && dilation > 0 ==> inputSize <= inputSize * (dilation * (ksize - 1 - i))
  {
    var left := ksize - 1 - i;
    Product(inputSize * dilation, i, left);
    Regroup(inputSize, dilation, left);
    Regroup(inputSize, dilation, i);
    if left > 0 && dilation > 0 {
      AtLeast(left, dilation);
      Commutes(left, dilation);
      AtLeast(inputSize, dilation * left);
    }
  }

  lemma Commutes(a: nat, b: nat)
    ensures a * b == b * a
  {}

  lemma AtLeast(a: nat, b: nat)
    requires b >= 1
    ensures a <= a * b
  {}

  /** Where chunk `i` begins in the vector. */
  function Offset(i: nat, inputSize: nat): nat {
    i * inputSize
  }

  /** Where it comes from in the memory. */
  function Source(i: nat, inputSize: nat, dilation: nat): nat {
    i * inputSize * dilation
  }

  /** How many inputs ago it came. */
  function Back(dilation: nat, ksize: nat, i: nat): nat
    requires i < ksize
  {
    dilation * (ksize - 1 - i)
  }

  lemma SourceIn(inputSize: nat, dilation: nat, ksize: nat, i: nat)
    requires i < ksize - 1 && dilation > 0
    ensures Source(i, inputSize, dilation) + inputSize * Back(dilation, ksize, i) == Span(inputSize, dilation, ksize)
    ensures inputSize <= inputSize * Back(dilation, ksize, i)
    ensures inputSize * (Back(dilation, ksize, i) + 1) == inputSize * Back(dilation, ksize, i) + inputSize
    ensures Source(i, inputSize, dilation) + inputSize <= Span(inputSize, dilation, ksize)
  {
    SpanSplit(inputSize, dilation, ksize, i);
    Product(inputSize, Back(dilation, ksize, i), 1);
  }

  /** The input `back` inputs ago, in the memory that has been kept. */
  lemma MemoryIs(mem: seq<real>, stream: seq<real>, input: seq<real>, from: nat, back: nat, k: nat)
    requires k < |input| && |mem| == from + |input| * back && |input| <= |input| * back
    requires |input| * (back + 1) == |input| * back + |input| && mem == Last(|mem|, stream)
    ensures mem[from + k] == Past(stream + input, |input|, back, k)
  {
    LastAt(|mem|, stream, from + k);
    var p := |input| * back;
    assert |stream + input| - |input| * (back + 1) + k == |stream| - p + k;
  }

  /** The samples from `start` on are the input that came `back` inputs ago. */
  ghost predicate ChunkFrom(tmp: seq<real>, start: nat, stream: seq<real>, inputSize: nat, back: nat) {
    start + inputSize <= |tmp| && forall k :: 0 <= k < inputSize ==> tmp[start + k] == Past(stream, inputSize, back, k)
  }

  lemma ChunkKept(tmp: seq<real>, more: seq<real>, start: nat, stream: seq<real>, inputSize: nat, back: nat)
    requires ChunkFrom(tmp, start, stream, inputSize, back)
    ensures ChunkFrom(tmp + more, start, stream, inputSize, back)
  {
    hide Past;
  }

  lemma ChunkCopied(tmp: seq<real>, mem: seq<real>, stream: seq<real>, input: seq<real>, from: nat, back: nat)
    requires |mem| == from + |input| * back && |input| <= |input| * back
    requires |input| * (back + 1) == |input| * back + |input| && mem == Last(|mem|, stream)
    ensures ChunkFrom(tmp + mem[from..from + |input|], |tmp|, stream + input, |input|, back)
  {
    hide Past, Last;
    forall k | 0 <= k < |input|
      ensures mem[from + k] == Past(stream + input, |input|, back, k)
    {
      MemoryIs(mem, stream, input, from, back, k);
    }
  }

  /** The first `n` chunks of the vector of a dilated convolution: chunk `i` is the input that came
      `dilation * (ksize - 1 - i)` inputs ago. */
  ghost predicate Dilated(tmp: seq<real>, stream: seq<real>, inputSize: nat, dilation: nat, ksize: nat, n: nat)
    requires n <= ksize
  {
    |tmp| == Offset(n, inputSize)
    && forall i :: 0 <= i < n ==> ChunkFrom(tmp, Offset(i, inputSize), stream, inputSize, Back(dilation, ksize, i))
  }

  lemma NextOffset(n: nat, inputSize: nat)
    ensures Offset(n + 1, inputSize) == Offset(n, inputSize) + inputSize && Offset(0, inputSize) == 0
  {}

  lemma DilatedNext(tmp: seq<real>, chunk: seq<real>, stream: seq<real>, inputSize: nat, dilation: nat, ksize: nat,
                    n: nat)
    requires n < ksize && Dilated(tmp, stream, inputSize, dilation, ksize, n) && |chunk| == inputSize
    requires ChunkFrom(tmp + chunk, |tmp|, stream, inputSize, Back(dilation, ksize, n))
    ensures Dilated(tmp + chunk, stream, inputSize, dilation, ksize, n + 1)
  {
    hide ChunkFrom, Offset, Back;
    NextOffset(n, inputSize);
    forall i | 0 <= i < n
      ensures ChunkFrom(tmp + chunk, Offset(i, inputSize), stream, inputSize, Back(dilation, ksize, i))
    {
      ChunkKept(tmp, chunk, Offset(i, inputSize), stream, inputSize, Back(dilation, ksize, i));
    }
  }

  lemma UndilatedMemory(n: nat, stream: seq<real>, input: seq<real>)
    ensures (Last(n, stream) + input)[|input|..] == Last(n, stream + input)
  {
    LastOn(n, stream, input);
    if |input| >= n {
      assert (Last(n, stream) + input)[|input|..] == input[|input| - n..];
    }
  }

  /** Taps of a layer. */
  function Taps(nbInputs: nat, inputSize: nat): nat
    requires inputSize > 0
  {
    nbInputs / inputSize
  }

  lemma TapsIs(nbInputs: nat, inputSize: nat)
    requires 0 < inputSize <= nbInputs
    ensures Taps(nbInputs, inputSize) > 0
    ensures Offset(Taps(nbInputs, inputSize), inputSize) <= nbInputs < Offset(Taps(nbInputs, inputSize) + 1, inputSize)
    ensures 2 * inputSize <= nbInputs ==> Taps(nbInputs, inputSize) > 1
  {
    Quotient(nbInputs, inputSize);
    QuotientAtLeast(nbInputs, inputSize, 1);
    QuotientAtLeast(nbInputs, inputSize, 2);
  }

  lemma QuotientAtLeast(a: nat, b: nat, k: nat)
    requires b > 0
    ensures Offset(k, b) <= a ==> k <= a / b
  {
    Quotient(a, b);
    if a / b < k {
      OffsetOrder(a / b + 1, k, b);
    }
  }

  lemma Quotient(a: nat, b: nat)
    requires b > 0
    ensures a / b * b <= a < (a / b + 1) * b
  {}

  /** History that a layer needs: without dilation all that is not new. */
  function Need(nbInputs: nat, inputSize: nat, dilation: nat): nat
    requires 0 < inputSize <= nbInputs
  {
    TapsIs(nbInputs, inputSize);
    if dilation == 1 then nbInputs - inputSize else Span(inputSize, dilation, Taps(nbInputs, inputSize))
  }

  /** What a dilated layer gets: a chunk for every tap but the last, zeros where the inputs are not a
      multiple of the input size, and the new input. */
  ghost predicate DilatedVector(tmp: seq<real>, stream: seq<real>, input: seq<real>, dilation: nat, nbInputs: nat)
    requires 0 < |input| <= nbInputs
  {
    TapsIs(nbInputs, |input|);
    var ksize := Taps(nbInputs, |input|);
    var chunks := Offset(ksize - 1, |input|);
    NextOffset(ksize - 1, |input|);
    && |tmp| == nbInputs
    && Dilated(tmp[..chunks], stream, |input|, dilation, ksize, ksize - 1)
    && tmp[chunks..nbInputs - |input|] == Zeros(nbInputs - |input| - chunks)
    && tmp[nbInputs - |input|..] == input
  }

  /** The vector of a convolution, and the memory for the next one. */
  method ComputeGenericConv1dDilation(nbInputs: nat, dilation: nat, mem: array<real>, input: seq<real>,
                                      ghost stream: seq<real>)
    returns (tmp: seq<real>)
    requires 0 < |input| <= nbInputs && dilation > 0 && (dilation > 1 ==> 2 * |input| <= nbInputs)
    requires Remembers(mem, Need(nbInputs, |input|, dilation), stream)
    modifies mem
    ensures dilation == 1 ==> tmp == Last(nbInputs, stream + input)
    ensures dilation > 1 ==> DilatedVector(tmp, stream + input, input, dilation, nbInputs)
    ensures Remembers(mem, Need(nbInputs, |input|, dilation), stream + input)
  {
    hide ChunkFrom, Last, Span, Back, Source, Offset, Taps;
    TapsIs(nbInputs, |input|);
    var ksize := Taps(nbInputs, |input|);
    var n := Need(nbInputs, |input|, dilation);
    var offset := nbInputs - |input|;
    NextOffset(ksize - 1, |input|);
    if dilation == 1 {
      tmp := mem[..offset];
    } else {
      tmp := DilatedChunks(ksize, dilation, mem, input, stream);
      tmp := tmp + Zeros(offset - |tmp|);
    }
    ghost var front := tmp;
    tmp := tmp + input;
    if dilation == 1 {
      ConvVector(nbInputs, stream, input, tmp);
      UndilatedMemory(n, stream, input);
      assert tmp == mem[..n] + input;
      CopyTo(mem, 0, tmp[|input|..|input| + n]);
    } else {
      VectorParts(front, Offset(ksize - 1, |input|), input);
      SourceIn(|input|, dilation, ksize, 0);
      ShiftMemory(mem, n, input, stream);
    }
  }

  lemma VectorParts(front: seq<real>, chunks: nat, input: seq<real>)
    requires chunks <= |front|
    ensures (front + input)[..chunks] == front[..chunks] && (front + input)[chunks..|front|] == front[chunks..]
    ensures (front + input)[|front|..] == input
  {}

  /** The chunks that the memory has. */
  method DilatedChunks(ksize: nat, dilation: nat, mem: array<real>, input: seq<real>, ghost stream: seq<real>)
    returns (tmp: seq<real>)
    requires |input| > 0 && dilation > 0 && ksize > 1
    requires Remembers(mem, Span(|input|, dilation, ksize), stream)
    ensures Dilated(tmp, stream + input, |input|, dilation, ksize, ksize - 1)
  {
    hide ChunkFrom, Last, Span, Back, Source, Offset;
    var n := Span(|input|, dilation, ksize);
    tmp := [];
    NextOffset(0, |input|);
    for i := 0 to ksize - 1
      invariant Dilated(tmp, stream + input, |input|, dilation, ksize, i)
    {
      var src := Source(i, |input|, dilation);
      SourceIn(|input|, dilation, ksize, i);
      ChunkCopied(tmp, mem[..n], stream, input, src, Back(dilation, ksize, i));
      DilatedNext(tmp, mem[..n][src..src + |input|], stream + input, |input|, dilation, ksize, i);
      tmp := tmp + mem[..n][src..src + |input|];
    }
  }

  /** The end of a stream, cut into chunks, is what a layer without dilation would get for its taps. */
  lemma {:induction false} UndilatedChunks(stream: seq<real>, inputSize: nat, ksize: nat, i: nat)
    requires inputSize > 0 && i <= ksize
    ensures Offset(i, inputSize) <= Offset(ksize, inputSize)
    ensures Dilated(Last(Offset(ksize, inputSize), stream)[..Offset(i, inputSize)], stream, inputSize, 1, ksize, i)
  {
    hide Last, ChunkFrom, Offset, Back;
    OffsetOrder(i, ksize, inputSize);
    NextOffset(0, inputSize);
    if i > 0 {
      UndilatedChunks(stream, inputSize, ksize, i - 1);
      OffsetOrder(i - 1, ksize, inputSize);
      NextOffset(i - 1, inputSize);
      var all, at := Last(Offset(ksize, inputSize), stream), Offset(i - 1, inputSize);
      ChunkOfLast(stream, inputSize, ksize, i - 1);
      DilatedNext(all[..at], all[at..at + inputSize], stream, inputSize, 1, ksize, i - 1);
      assert all[..at] + all[at..at + inputSize] == all[..at + inputSize];
    }
  }

  lemma OffsetOrder(i: nat, k: nat, inputSize: nat)
    requires i <= k
    ensures Offset(i, inputSize) <= Offset(k, inputSize)
  {
    Product(inputSize, i, k - i);
    Commutes(inputSize, i);
    Commutes(inputSize, k);
  }

  lemma ChunkOfLast(stream: seq<real>, inputSize: nat, ksize: nat, i: nat)
    requires i < ksize
    ensures Offset(i, inputSize) + inputSize <= Offset(ksize, inputSize)
    ensures var all, at := Last(Offset(ksize, inputSize), stream), Offset(i, inputSize);
            ChunkFrom(all[..at] + all[at..at + inputSize], at, stream, inputSize, Back(1, ksize, i))
  {
    hide Last, Offset, Back;
    NextOffset(i, inputSize);
    OffsetOrder(i + 1, ksize, inputSize);
    var n, at := Offset(ksize, inputSize), Offset(i, inputSize);
    BackFrom(inputSize, ksize, i);
    forall k | 0 <= k < inputSize
      ensures Last(n, stream)[at + k] == Past(stream, inputSize, Back(1, ksize, i), k)
    {
      LastAt(n, stream, at + k);
    }
  }

  lemma BackFrom(inputSize: nat, ksize: nat, i: nat)
    requires i < ksize
    ensures inputSize * (Back(1, ksize, i) + 1) == Offset(ksize, inputSize) - Offset(i, inputSize)
  {
    Product(inputSize, i, ksize - i);
    Commutes(inputSize, i);
    Commutes(inputSize, ksize);
  }

  /** Forgets the oldest input and remembers the newest. */
  method ShiftMemory(mem: array<real>, n: nat, input: seq<real>, ghost stream: seq<real>)
    requires |input| <= n && Remembers(mem, n, stream)
    modifies mem
    ensures Remembers(mem, n, stream + input)
  {
    hide Last;
    var span := n - |input|;
    ghost var before := mem[..];
    CopyWithin(mem, |input|, |input| + span, 0);
    ghost var mid := mem[..];
    CopyTo(mem, span, input);
    LastOn(n, stream, input);
    assert mid[..span] == before[|input|..n] == before[..n][|input|..];
  }

  // ----- sample by sample -----

  /** History that a layer needs: all but the new input, or the span of its taps. */
  lemma NeedIs(nbInputs: nat, inputSize: nat, dilation: nat)
    requires 0 < inputSize <= nbInputs
    ensures dilation == 1 ==> Need(nbInputs, inputSize, dilation) == nbInputs - inputSize
    ensures dilation > 1 ==>
              Need(nbInputs, inputSize, dilation) == inputSize * dilation * (nbInputs / inputSize - 1)
  {}

  /** Value `k` of tap `i`: the input came as many inputs ago as there are taps behind it, times the dilation. */
  lemma TapValue(tmp: seq<real>, stream: seq<real>, input: seq<real>, dilation: nat, nbInputs: nat, i: nat, k: nat)
    requires 0 < |input| <= nbInputs && DilatedVector(tmp, stream, input, dilation, nbInputs)
    requires i < nbInputs / |input| - 1 && k < |input|
    ensures 0 <= i * |input| + k < |tmp|
    ensures var at := |stream| - |input| * (dilation * (nbInputs / |input| - 1 - i) + 1) + k;
            tmp[i * |input| + k] == if 0 <= at < |stream| then stream[at] else 0.0
  {
    hide Taps;
    TapsIs(nbInputs, |input|);
    var ksize := Taps(nbInputs, |input|);
    TapsAre(nbInputs, |input|);
    var chunks := Offset(ksize - 1, |input|);
    assert ChunkFrom(tmp[..chunks], Offset(i, |input|), stream, |input|, Back(dilation, ksize, i));
    ChunkAt(tmp, chunks, Offset(i, |input|), stream, |input|, Back(dilation, ksize, i), k);
    assert Back(dilation, ksize, i) == dilation * (nbInputs / |input| - 1 - i);
  }

  lemma ChunkAt(tmp: seq<real>, chunks: nat, start: nat, stream: seq<real>, inputSize: nat, back: nat, k: nat)
    requires chunks <= |tmp| && ChunkFrom(tmp[..chunks], start, stream, inputSize, back) && k < inputSize
    ensures start + k < |tmp|
    ensures var at := |stream| - inputSize * (back + 1) + k;
            tmp[start + k] == if 0 <= at < |stream| then stream[at] else 0.0
  {
    hide Past;
    assert tmp[start + k] == tmp[..chunks][start + k] == Past(stream, inputSize, back, k);
    PastIs(stream, inputSize, back, k);
  }

  lemma PastIs(stream: seq<real>, inputSize: nat, back: nat, k: nat)
    requires k < inputSize
    ensures var at := |stream| - inputSize * (back + 1) + k;
            Past(stream, inputSize, back, k) == if 0 <= at < |stream| then stream[at] else 0.0
  {}

  lemma TapsAre(nbInputs: nat, inputSize: nat)
    requires inputSize > 0
    ensures Taps(nbInputs, inputSize) == nbInputs / inputSize
  {}

  /** The last values are the new input, and zeros come before it if there is room. */
  lemma NewestValue(tmp: seq<real>, stream: seq<real>, input: seq<real>, dilation: nat, nbInputs: nat, k: nat)
    requires 0 < |input| <= nbInputs && DilatedVector(tmp, stream, input, dilation, nbInputs) && k < nbInputs
    ensures |tmp| == nbInputs
    ensures k >= nbInputs - |input| ==> tmp[k] == input[k - (nbInputs - |input|)]
    ensures (nbInputs / |input| - 1) * |input| <= k < nbInputs - |input| ==> tmp[k] == 0.0
  {
    TapsIs(nbInputs, |input|);
    var chunks := (nbInputs / |input| - 1) * |input|;
    if k >= nbInputs - |input| {
      assert tmp[k] == tmp[nbInputs - |input|..][k - (nbInputs - |input|)];
    } else if k >= chunks {
      assert tmp[k] == tmp[chunks..nbInputs - |input|][k - chunks];
    }
  }
}
