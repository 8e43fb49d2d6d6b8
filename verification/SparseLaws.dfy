/** The kernels' numbers, written out, and how far a quantized product is from the real one. */
module SparseLaws {
  import opened SparseKernels

  // ----- layouts -----

  /** A matrix is stored column after column. */
  lemma DenseLayout(w: seq<int>, x: seq<int>)
    requires |w| == 6 && |x| == 3
    ensures DenseRow(w, 2, 0, x, 3) == w[0] * x[0] + w[2] * x[1] + w[4] * x[2]
    ensures DenseRow(w, 2, 1, x, 3) == w[1] * x[0] + w[3] * x[1] + w[5] * x[2]
  {
    assert DenseRow(w, 2, 0, x, 1) == w[0] * x[0] && DenseRow(w, 2, 1, x, 1) == w[1] * x[0];
    assert DenseRow(w, 2, 0, x, 2) == w[0] * x[0] + w[2] * x[1];
    assert DenseRow(w, 2, 1, x, 2) == w[1] * x[0] + w[3] * x[1];
  }

  /** Two blocks for the first eight rows, and one for the next eight. */
  const INDEX: seq<int> := [2, 0, 4, 1, 4]

  lemma IndexValid()
    ensures ValidFrom(INDEX, 0, 16, 8) && BlocksFrom(INDEX, 0) == 3
    ensures ValidFrom(INDEX, 3, 8, 8) && BlocksFrom(INDEX, 3) == 1
  {
    assert ValidFrom(INDEX, 5, 0, 8) && BlocksFrom(INDEX, 5) == 0;
  }

  /** A block holds its rows one after the other, four weights each. */
  lemma BlockLayout(w: seq<int>, x: seq<int>, i: nat)
    requires |w| == 96 && |x| == 8 && i < 16
    ensures Sparse(INDEX, w, 0, 0, 16, 8)
    ensures i < 8 ==>
              RowFrom(INDEX, w, 0, 0, 16, 0, i, x, 8)
              == w[4 * i] * x[0] + w[4 * i + 1] * x[1] + w[4 * i + 2] * x[2] + w[4 * i + 3] * x[3]
               + (w[32 + 4 * i] * x[4] + w[33 + 4 * i] * x[5] + w[34 + 4 * i] * x[6] + w[35 + 4 * i] * x[7])
    ensures i >= 8 ==>
              RowFrom(INDEX, w, 0, 0, 16, 0, i, x, 8)
              == w[32 + 4 * i] * x[4] + w[33 + 4 * i] * x[5] + w[34 + 4 * i] * x[6] + w[35 + 4 * i] * x[7]
  {
    hide BlockSum;
    IndexValid();
    NextGroup(INDEX, w, 0, 0, 16, 8);
    NextGroup(INDEX, w, 3, 2, 8, 8);
    if i < 8 {
      BlockIs(w, 0, 0, i, x);
      BlockIs(w, 1, 4, i, x);
      assert GroupSum(INDEX, w, 0, 1, 0, i, x, 8) == BlockSum(w, 0, 0, i, x);
    } else {
      BlockIs(w, 2, 4, i - 8, x);
      assert GroupSum(INDEX, w, 3, 1, 2, i - 8, x, 8) == BlockSum(w, 2, 4, i - 8, x);
    }
  }

  lemma BlockIs(w: seq<int>, block: nat, offset: nat, r: nat, x: seq<int>)
    requires r < 8 && 32 * block + 32 <= |w| && offset + 4 <= |x|
    ensures BlockSum(w, block, offset, r, x)
         == w[32 * block + 4 * r] * x[offset] + w[32 * block + 4 * r + 1] * x[offset + 1]
            + w[32 * block + 4 * r + 2] * x[offset + 2] + w[32 * block + 4 * r + 3] * x[offset + 3]
  {}

  // ----- which indices are accepted -----

  /** Wrapping around gives the 32-bit integer that differs by a multiple of 2^32. */
  lemma WrapIs(x: int)
    ensures -2147483648 <= Wrap(x) <= 2147483647
    ensures (x - Wrap(x)) % 4294967296 == 0
  {}

  /** For eight rows: their number of blocks, and that many columns that are multiples of four inside the
      matrix. */
  lemma OneGroup(idx: seq<int>, cols: nat)
    ensures ValidFrom(idx, 0, 8, cols) <==>
              && |idx| > 0 && |idx| == 1 + idx[0]
              && forall k :: 0 < k < |idx| ==> 0 <= idx[k] <= cols - 4 && idx[k] % 4 == 0
  {
    if |idx| > 0 && |idx| == 1 + idx[0] {
      assert ValidFrom(idx, |idx|, 0, cols);
      if forall k :: 0 < k < |idx| ==> 0 <= idx[k] <= cols - 4 && idx[k] % 4 == 0 {
        assert forall k :: 0 < k <= idx[0] ==> OffsetOk(idx[k], cols);
      }
    }
    if ValidFrom(idx, 0, 8, cols) {
      RowsLeft(idx, 0, 8, cols);
      RowsLeft(idx, 1 + idx[0], 0, cols);
      forall k | 0 < k < |idx|
        ensures 0 <= idx[k] <= cols - 4 && idx[k] % 4 == 0
      {
        assert OffsetOk(idx[k], cols);
      }
    }
  }

  /** Groups follow one another. */
  lemma GroupsJoin(idx: seq<int>, rows: int, cols: nat)
    requires |idx| > 0 && 0 <= idx[0] < |idx|
    ensures ValidFrom(idx, 0, rows, cols) <==>
              ValidFrom(idx[..1 + idx[0]], 0, 8, cols) && ValidFrom(idx, 1 + idx[0], rows - 8, cols)
    ensures ValidFrom(idx, 0, rows, cols) ==> BlocksFrom(idx, 0) == idx[0] + BlocksFrom(idx, 1 + idx[0])
  {
    var first := idx[..1 + idx[0]];
    assert ValidFrom(first, 1 + idx[0], 0, cols);
    assert forall k :: 0 < k <= idx[0] ==> first[k] == idx[k];
    if ValidFrom(first, 0, 8, cols) {
      forall k | 0 < k <= idx[0]
        ensures OffsetOk(idx[k], cols)
      {
        assert OffsetOk(first[k], cols);
      }
    }
    if ValidFrom(idx, 0, rows, cols) {
      forall k | 0 < k <= idx[0]
        ensures OffsetOk(first[k], cols)
      {
        assert OffsetOk(idx[k], cols);
      }
    }
  }

  // ----- quantization -----

  /** Rounded half up, and cut off at -128 and 127. */
  lemma QuantizedIs(v: real)
    ensures var q := Quantized(v);
            && (q < 127 ==> 127.0 * v < q as real + 0.5)
            && (q > -128 ==> q as real - 0.5 <= 127.0 * v)
  {}

  /** Input j goes to column j; there are zeros where inputs are missing. */
  lemma QuantizedColumn(input: seq<real>, cols: nat, j: nat)
    requires j < cols
    ensures j >= |input| ==> QuantizedInput(input, cols)[j] == 0
    ensures j < |input| && -1.0 <= input[j] <= 1.0 ==>
              -0.5 <= 127.0 * input[j] - QuantizedInput(input, cols)[j] as real <= 0.5
  {
    if j < |input| && -1.0 <= input[j] <= 1.0 {
      QuantizedNear(input[j]);
    }
  }

  function Magnitude(v: int): int {
    if v < 0 then -v else v
  }

  /** Row `i` of the matrix times the inputs themselves. */
  ghost function RealRow(idx: seq<int>, weights: seq<int>, rows: nat, cols: nat, i: nat, input: seq<real>, n: nat): real
    requires Sparse(idx, weights, 0, 0, rows, cols) && i < rows && n <= |input|
  {
    if n == 0 then 0.0
    else RealRow(idx, weights, rows, cols, i, input, n - 1)
         + Entry(idx, weights, 0, 0, rows, cols, i, n - 1) as real * input[n - 1]
  }

  /** The magnitudes in row `i`. */
  ghost function Magnitudes(idx: seq<int>, weights: seq<int>, rows: nat, cols: nat, i: nat, n: nat): int
    requires Sparse(idx, weights, 0, 0, rows, cols) && i < rows
  {
    if n == 0 then 0
    else Magnitudes(idx, weights, rows, cols, i, n - 1) + Magnitude(Entry(idx, weights, 0, 0, rows, cols, i, n - 1))
  }

  /** One product: off by at most half the weight. */
  lemma OneProduct(w: int, v: real, q: int)
    requires -0.5 <= 127.0 * v - q as real <= 0.5
    ensures var bound := 0.5 * Magnitude(w) as real;
            -bound <= 127.0 * (w as real * v) - (w * q) as real <= bound
  {
    var m, d := w as real, 127.0 * v - q as real;
    ProductBound(w, m, d);
    WholeProduct(w, q);
    Difference(m, v, q as real);
    Same(127.0 * (m * v) - (w * q) as real, m * d, 0.5 * Magnitude(w) as real);
  }

  lemma Same(a: real, b: real, bound: real)
    requires a == b && -bound <= b <= bound
    ensures -bound <= a <= bound
  {}

  lemma WholeProduct(a: int, b: int)
    ensures (a * b) as real == a as real * b as real
  {}

  lemma Difference(m: real, v: real, q: real)
    ensures 127.0 * (m * v) - m * q == m * (127.0 * v - q)
  {}

  lemma ProductBound(w: int, m: real, d: real)
    requires m == w as real && -0.5 <= d <= 0.5
    ensures -(0.5 * Magnitude(w) as real) <= m * d <= 0.5 * Magnitude(w) as real
  {
    var size := Magnitude(w) as real;
    Grows(-0.5, d, size);
    Grows(d, 0.5, size);
    Swapped(d, m);
    if w < 0 {
      Negated(d, size);
    }
  }

  lemma Swapped(a: real, b: real)
    ensures a * b == b * a
  {}

  lemma Negated(a: real, b: real)
    ensures -b * a == -(a * b) && a * -b == -(a * b)
  {}

  lemma {:induction false} RowError(idx: seq<int>, weights: seq<int>, rows: nat, cols: nat, i: nat, input: seq<real>,
                                    n: nat)
    requires Sparse(idx, weights, 0, 0, rows, cols) && i < rows && n <= cols <= |input|
    requires forall j :: 0 <= j < cols ==> -1.0 <= input[j] <= 1.0
    ensures var error := 127.0 * RealRow(idx, weights, rows, cols, i, input, n)
                         - EntryRow(idx, weights, 0, 0, rows, cols, i, QuantizedInput(input, cols), n) as real;
            var bound := 0.5 * Magnitudes(idx, weights, rows, cols, i, n) as real;
            -bound <= error <= bound
  {
    hide Sparse, Entry, Quantized, QuantizedInput, Magnitude;
    if n > 0 {
      RowError(idx, weights, rows, cols, i, input, n - 1);
      QuantizedColumn(input, cols, n - 1);
      var w := Entry(idx, weights, 0, 0, rows, cols, i, n - 1);
      OneProduct(w, input[n - 1], QuantizedInput(input, cols)[n - 1]);
      Added(RealRow(idx, weights, rows, cols, i, input, n - 1), w as real * input[n - 1],
            EntryRow(idx, weights, 0, 0, rows, cols, i, QuantizedInput(input, cols), n - 1),
            w * QuantizedInput(input, cols)[n - 1],
            Magnitudes(idx, weights, rows, cols, i, n - 1), Magnitude(w));
    }
  }

  lemma Added(a: real, b: real, p: int, q: int, m: int, n: int)
    requires -0.5 * m as real <= 127.0 * a - p as real <= 0.5 * m as real
    requires -0.5 * n as real <= 127.0 * b - q as real <= 0.5 * n as real
    ensures -0.5 * (m + n) as real <= 127.0 * (a + b) - (p + q) as real <= 0.5 * (m + n) as real
  {}

  /** A quantized product with inputs in [-1, 1] is 127 times the product with the inputs themselves, except for
      half a unit for every unit of the weights in the row. */
  lemma QuantizationError(out: seq<real>, idx: seq<int>, weights: seq<int>, scale: seq<real>, rows: nat, cols: nat,
                          input: seq<real>, i: nat)
    requires Sparse(idx, weights, 0, 0, rows, cols) && rows <= |scale| && rows <= |out| && rows % 8 == 0
    requires ScaledProduct(out, idx, weights, scale, rows, cols, input) && i < rows && cols <= |input|
    requires forall j :: 0 <= j < cols ==> -1.0 <= input[j] <= 1.0
    requires scale[i] >= 0.0
    ensures var error := 127.0 * RealRow(idx, weights, rows, cols, i, input, cols) * scale[i] - out[i];
            var bound := 0.5 * Magnitudes(idx, weights, rows, cols, i, cols) as real * scale[i];
            -bound <= error <= bound
  {
    hide Sparse, Entry, EntryRow, RealRow, Magnitudes, Quantized, QuantizedInput, SparseRow, ScaledProduct;
    RowError(idx, weights, rows, cols, i, input, cols);
    OutputIs(out, idx, weights, scale, rows, cols, input, i);
    var s := EntryRow(idx, weights, 0, 0, rows, cols, i, QuantizedInput(input, cols), cols);
    Scaled(127.0 * RealRow(idx, weights, rows, cols, i, input, cols), s as real,
           0.5 * Magnitudes(idx, weights, rows, cols, i, cols) as real, scale[i], out[i]);
  }

  lemma OutputIs(out: seq<real>, idx: seq<int>, weights: seq<int>, scale: seq<real>, rows: nat, cols: nat,
                 input: seq<real>, i: nat)
    requires Sparse(idx, weights, 0, 0, rows, cols) && rows <= |scale| && rows <= |out| && rows % 8 == 0
    requires ScaledProduct(out, idx, weights, scale, rows, cols, input) && i < rows && cols <= |input|
    ensures out[i]
         == EntryRow(idx, weights, 0, 0, rows, cols, i, QuantizedInput(input, cols), cols) as real * scale[i]
  {
    hide Sparse, EntryRow, Quantized, QuantizedInput, SparseRow;
    SparseRowIs(idx, weights, 0, 0, rows, i, QuantizedInput(input, cols), cols);
  }

  lemma Scaled(a: real, p: real, bound: real, scale: real, out: real)
    requires -bound <= a - p <= bound && scale >= 0.0 && out == p * scale
    ensures -(bound * scale) <= a * scale - out <= bound * scale
  {
    Grows(a - p, bound, scale);
    Grows(-bound, a - p, scale);
    assert (a - p) * scale == a * scale - p * scale;
    assert -bound * scale == -(bound * scale);
  }

  lemma Grows(a: real, b: real, c: real)
    requires a <= b && c >= 0.0
    ensures a * c <= b * c
  {}
}
