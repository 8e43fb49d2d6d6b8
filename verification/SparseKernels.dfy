/** Sparse matrix-vector products, and the validator that makes them safe. Numbers are integers. */
module SparseKernels {
  import opened Wrappers
  import WeightBlob

  const MAX_I32 := 0x7fff_ffff
  const SPARSE_BLOCK_SIZE := 32

  // ----- what an index means -----

  /** A block of four columns that lies inside the matrix. */
  predicate OffsetOk(offset: int, nbInputs: nat) {
    0 <= offset && offset + 4 <= nbInputs && offset % 4 == 0
  }

  /** From `pos` on: for every eight rows the number of blocks and then the column of every block. */
  ghost predicate ValidFrom(idx: seq<int>, pos: nat, rows: int, nbInputs: nat)
    requires pos <= |idx|
    decreases |idx| - pos
  {
    if pos == |idx| then rows == 0
    else
      && 0 <= idx[pos] <= |idx| - pos - 1
      && (forall k :: pos < k <= pos + idx[pos] ==> OffsetOk(idx[k], nbInputs))
      && ValidFrom(idx, pos + 1 + idx[pos], rows - 8, nbInputs)
  }

  /** The number of blocks from `pos` on. */
  ghost function BlocksFrom(idx: seq<int>, pos: nat): int
    requires pos <= |idx|
    decreases |idx| - pos
  {
    if pos == |idx| || idx[pos] < 0 || idx[pos] > |idx| - pos - 1 then 0
    else idx[pos] + BlocksFrom(idx, pos + 1 + idx[pos])
  }

  lemma {:induction false} BlocksAtMost(idx: seq<int>, pos: nat)
    requires pos <= |idx|
    ensures 0 <= BlocksFrom(idx, pos) <= |idx| - pos
    decreases |idx| - pos
  {
    if pos < |idx| && 0 <= idx[pos] <= |idx| - pos - 1 {
      BlocksAtMost(idx, pos + 1 + idx[pos]);
    }
  }

  /** An index that is used up matches the rows exactly. */
  lemma {:induction false} RowsLeft(idx: seq<int>, pos: nat, rows: int, nbInputs: nat)
    requires pos <= |idx| && ValidFrom(idx, pos, rows, nbInputs)
    ensures rows >= 0 && rows % 8 == 0 && (rows == 0 <==> pos == |idx|)
    decreases |idx| - pos
  {
    if pos < |idx| {
      RowsLeft(idx, pos + 1 + idx[pos], rows - 8, nbInputs);
    }
  }

  // ----- the validator -----

  /** The value of a 32-bit integer after wrapping around. */
  function Wrap(x: int): int {
    (x + 0x8000_0000) % 0x1_0000_0000 - 0x8000_0000
  }

  /** The sum wraps around only for offsets that are refused anyway. */
  lemma OffsetTest(offset: int, nbInputs: nat)
    requires -0x8000_0000 <= offset <= MAX_I32 && nbInputs <= MAX_I32
    ensures (offset < 0 || Wrap(offset + 3) >= nbInputs || offset % 4 != 0) <==> !OffsetOk(offset, nbInputs)
  {}

  lemma WrapStep(x: int)
    ensures Wrap(Wrap(x) - 8) == Wrap(x - 8)
  {}

  lemma WrapZero(x: int)
    requires -0x1_0000_0000 < x <= MAX_I32
    ensures Wrap(x) == 0 <==> x == 0
  {}

  /** Accepts exactly the valid indices, and counts their blocks. The index comes from an array whose
      size in bytes is a 32-bit integer; for such an index wrapping around does no harm. */
  method ValidateSparseIdx(idx: seq<int>, nbInputs: nat, nbOutputs: nat)
    returns (r: Result<nat, WeightBlob.WeightError>)
    requires 4 * |idx| <= MAX_I32 && nbInputs <= MAX_I32 && nbOutputs <= MAX_I32
    requires forall k :: 0 <= k < |idx| ==> -0x8000_0000 <= idx[k] <= MAX_I32
    ensures r.Ok? <==> ValidFrom(idx, 0, nbOutputs, nbInputs)
    ensures r.Ok? ==> r.value == BlocksFrom(idx, 0)
  {
    hide Wrap;
    var remain, out, pos, totalBlocks := |idx|, nbOutputs as int, 0, 0;
    ghost var rows: int := nbOutputs;
    BlocksAtMost(idx, 0);
    InRange(out);
    while remain > 0
      invariant 0 <= pos <= |idx| && remain == |idx| - pos
      invariant out == Wrap(rows) && nbOutputs - 8 * pos <= rows <= nbOutputs
      invariant ValidFrom(idx, 0, nbOutputs, nbInputs) <==> ValidFrom(idx, pos, rows, nbInputs)
      invariant BlocksFrom(idx, 0) == totalBlocks + BlocksFrom(idx, pos) && totalBlocks >= 0
      decreases remain
    {
      var nbBlocks := idx[pos];
      ghost var start := pos;
      pos := pos + 1;
      remain := remain - 1;
      if nbBlocks < 0 || remain < nbBlocks {
        return Err(WeightBlob.InvalidIndex);
      }
      for k := 0 to nbBlocks
        invariant pos == start + 1 + k && remain == |idx| - pos
        invariant forall j :: start < j < pos ==> OffsetOk(idx[j], nbInputs)
      {
        var offset := idx[pos];
        OffsetTest(offset, nbInputs);
        pos := pos + 1;
        remain := remain - 1;
        if offset < 0 || Wrap(offset + 3) >= nbInputs || offset % 4 != 0 {
          return Err(WeightBlob.InvalidIndex);
        }
      }
      WrapStep(rows);
      out := Wrap(out - 8);
      rows := rows - 8;
      totalBlocks := totalBlocks + nbBlocks;
    }
    WrapZero(rows);
    if out != 0 {
      return Err(WeightBlob.InvalidIndex);
    }
    return Ok(totalBlocks);
  }

  lemma InRange(x: int)
    requires -0x8000_0000 <= x <= MAX_I32
    ensures Wrap(x) == x
  {}

  // ----- products -----

  /** Row `i` of a matrix stored column after column, times a vector, over the first `cols` columns. */
  function DenseRow(weights: seq<int>, rows: nat, i: nat, input: seq<int>, cols: nat): int
    requires i < rows && rows * cols <= |weights| && cols <= |input|
  {
    if cols == 0 then 0
    else
      LastColumn(rows, cols, i);
      DenseRow(weights, rows, i, input, cols - 1) + weights[(cols - 1) * rows + i] * input[cols - 1]
  }

  lemma LastColumn(rows: nat, cols: nat, i: nat)
    requires 0 < cols
    ensures rows * cols == rows * (cols - 1) + rows && rows * (cols - 1) == (cols - 1) * rows
    ensures i < rows ==> 0 <= (cols - 1) * rows + i < rows * cols
  {}

  method SgemvRow(weights: seq<int>, rows: nat, cols: nat, input: seq<int>, i: nat) returns (acc: int)
    requires i < rows && rows * cols <= |weights| && cols <= |input|
    ensures acc == DenseRow(weights, rows, i, input, cols)
  {
    acc := 0;
    Columns(rows, 0, cols);
    for j := 0 to cols
      invariant rows * j <= |weights| && acc == DenseRow(weights, rows, i, input, j)
    {
      LastColumn(rows, j + 1, i);
      Columns(rows, j + 1, cols);
      acc := acc + weights[j * rows + i] * input[j];
    }
  }

  /** The dense product. */
  method Sgemv(out: array<int>, weights: seq<int>, rows: nat, cols: nat, input: seq<int>)
    requires rows <= out.Length && rows * cols <= |weights| && cols <= |input|
    modifies out
    ensures forall i :: 0 <= i < out.Length ==>
              out[i] == if i < rows then DenseRow(weights, rows, i, input, cols) else 0
  {
    hide DenseRow;
    Fill(out);
    for i := 0 to rows
      invariant forall k :: 0 <= k < out.Length ==>
                  out[k] == if k < i then DenseRow(weights, rows, k, input, cols) else 0
    {
      var acc := SgemvRow(weights, rows, cols, input, i);
      out[i] := acc;
    }
  }

  lemma Columns(rows: nat, j: nat, cols: nat)
    requires j <= cols
    ensures rows * j <= rows * cols
  {}

  method Fill(out: array<int>)
    modifies out
    ensures forall i :: 0 <= i < out.Length ==> out[i] == 0
  {
    forall i | 0 <= i < out.Length {
      out[i] := 0;
    }
  }

  // ----- sparse matrices -----

  /** What one block says of row `r` of its eight rows and column `j`: the block holds four weights for
      every row, for the columns from `offset` on. */
  function BlockEntry(weights: seq<int>, block: nat, offset: int, r: nat, j: int): int
    requires r < 8 && SPARSE_BLOCK_SIZE * (block + 1) <= |weights|
  {
    if offset <= j < offset + 4 then weights[SPARSE_BLOCK_SIZE * block + 4 * r + (j - offset)] else 0
  }

  /** The same for the first `k` blocks of the group at `pos`, the first of which is block `block`. */
  function GroupEntry(idx: seq<int>, weights: seq<int>, pos: nat, k: nat, block: nat, r: nat, j: int): int
    requires r < 8 && pos + k < |idx| && SPARSE_BLOCK_SIZE * (block + k) <= |weights|
  {
    if k == 0 then 0
    else GroupEntry(idx, weights, pos, k - 1, block, r, j) + BlockEntry(weights, block + k - 1, idx[pos + k], r, j)
  }

  /** What one block adds to row `r` of the product. */
  function BlockSum(weights: seq<int>, block: nat, offset: int, r: nat, input: seq<int>): int
    requires r < 8 && SPARSE_BLOCK_SIZE * (block + 1) <= |weights| && 0 <= offset && offset + 4 <= |input|
  {
    var w := SPARSE_BLOCK_SIZE * block + 4 * r;
    weights[w] * input[offset] + weights[w + 1] * input[offset + 1]
    + weights[w + 2] * input[offset + 2] + weights[w + 3] * input[offset + 3]
  }

  /** A row of the matrix of one block times the first `cols` inputs. */
  function BlockRow(weights: seq<int>, block: nat, offset: int, r: nat, input: seq<int>, cols: nat): int
    requires r < 8 && SPARSE_BLOCK_SIZE * (block + 1) <= |weights| && cols <= |input|
  {
    if cols == 0 then 0
    else BlockRow(weights, block, offset, r, input, cols - 1)
         + BlockEntry(weights, block, offset, r, cols - 1) * input[cols - 1]
  }

  lemma {:induction false} BlockRowBefore(weights: seq<int>, block: nat, offset: int, r: nat, input: seq<int>,
                                          cols: nat)
    requires r < 8 && SPARSE_BLOCK_SIZE * (block + 1) <= |weights| && cols <= |input| && cols <= offset
    ensures BlockRow(weights, block, offset, r, input, cols) == 0
  {
    if cols > 0 {
      BlockRowBefore(weights, block, offset, r, input, cols - 1);
    }
  }

  /** Only the four columns of the block matter. */
  lemma {:induction false} BlockRowIs(weights: seq<int>, block: nat, offset: nat, r: nat, input: seq<int>, cols: nat)
    requires r < 8 && SPARSE_BLOCK_SIZE * (block + 1) <= |weights| && offset + 4 <= cols <= |input|
    ensures BlockRow(weights, block, offset, r, input, cols) == BlockSum(weights, block, offset, r, input)
    decreases cols
  {
    if cols > offset + 4 {
      BlockRowIs(weights, block, offset, r, input, cols - 1);
    } else {
      BlockRowBefore(weights, block, offset, r, input, offset);
      FourColumns(weights, block, offset, r, input);
    }
  }

  lemma FourColumns(weights: seq<int>, block: nat, offset: nat, r: nat, input: seq<int>)
    requires r < 8 && SPARSE_BLOCK_SIZE * (block + 1) <= |weights| && offset + 4 <= |input|
    ensures BlockRow(weights, block, offset, r, input, offset + 4)
         == BlockRow(weights, block, offset, r, input, offset) + BlockSum(weights, block, offset, r, input)
  {
    assert BlockRow(weights, block, offset, r, input, offset + 2)
        == BlockRow(weights, block, offset, r, input, offset + 1)
        + BlockEntry(weights, block, offset, r, offset + 1) * input[offset + 1];
    assert BlockRow(weights, block, offset, r, input, offset + 3)
        == BlockRow(weights, block, offset, r, input, offset + 2)
        + BlockEntry(weights, block, offset, r, offset + 2) * input[offset + 2];
  }

  ghost predicate OffsetsOk(idx: seq<int>, pos: nat, k: nat, nbInputs: nat) {
    pos + k < |idx| && forall b :: pos < b <= pos + k ==> OffsetOk(idx[b], nbInputs)
  }

  /** What the first `k` blocks of a group add to row `r`. */
  ghost function GroupSum(idx: seq<int>, weights: seq<int>, pos: nat, k: nat, block: nat, r: nat, input: seq<int>,
                          cols: nat): int
    requires r < 8 && OffsetsOk(idx, pos, k, cols) && cols <= |input| && SPARSE_BLOCK_SIZE * (block + k) <= |weights|
  {
    if k == 0 then 0
    else
      assert OffsetOk(idx[pos + k], cols);
      GroupSum(idx, weights, pos, k - 1, block, r, input, cols)
      + BlockSum(weights, block + k - 1, idx[pos + k], r, input)
  }

  function GroupRow(idx: seq<int>, weights: seq<int>, pos: nat, k: nat, block: nat, r: nat, input: seq<int>,
                    cols: nat): int
    requires r < 8 && pos + k < |idx| && SPARSE_BLOCK_SIZE * (block + k) <= |weights| && cols <= |input|
  {
    if cols == 0 then 0
    else GroupRow(idx, weights, pos, k, block, r, input, cols - 1)
         + GroupEntry(idx, weights, pos, k, block, r, cols - 1) * input[cols - 1]
  }

  lemma {:induction false} GroupRowSplit(idx: seq<int>, weights: seq<int>, pos: nat, k: nat, block: nat, r: nat,
                                         input: seq<int>, cols: nat)
    requires r < 8 && 0 < k && pos + k < |idx| && SPARSE_BLOCK_SIZE * (block + k) <= |weights| && cols <= |input|
    ensures GroupRow(idx, weights, pos, k, block, r, input, cols)
         == GroupRow(idx, weights, pos, k - 1, block, r, input, cols)
         + BlockRow(weights, block + k - 1, idx[pos + k], r, input, cols)
    decreases cols
  {
    hide BlockEntry;
    if cols > 0 {
      GroupRowSplit(idx, weights, pos, k, block, r, input, cols - 1);
      Distribute(GroupEntry(idx, weights, pos, k - 1, block, r, cols - 1),
                 BlockEntry(weights, block + k - 1, idx[pos + k], r, cols - 1), input[cols - 1]);
    }
  }

  lemma Distribute(a: int, b: int, x: int)
    ensures (a + b) * x == a * x + b * x
  {}

  lemma {:induction false} GroupRowNothing(idx: seq<int>, weights: seq<int>, pos: nat, block: nat, r: nat,
                                           input: seq<int>, cols: nat)
    requires r < 8 && pos < |idx| && SPARSE_BLOCK_SIZE * block <= |weights| && cols <= |input|
    ensures GroupRow(idx, weights, pos, 0, block, r, input, cols) == 0
  {
    if cols > 0 {
      GroupRowNothing(idx, weights, pos, block, r, input, cols - 1);
    }
  }

  /** Adding up the blocks of a group is multiplying by the rows of its matrix. */
  lemma {:induction false} GroupRowIs(idx: seq<int>, weights: seq<int>, pos: nat, k: nat, block: nat, r: nat,
                                      input: seq<int>, cols: nat)
    requires r < 8 && OffsetsOk(idx, pos, k, cols) && cols <= |input| && SPARSE_BLOCK_SIZE * (block + k) <= |weights|
    ensures GroupRow(idx, weights, pos, k, block, r, input, cols)
         == GroupSum(idx, weights, pos, k, block, r, input, cols)
  {
    hide BlockSum, BlockRow;
    if k == 0 {
      GroupRowNothing(idx, weights, pos, block, r, input, cols);
    } else {
      GroupRowIs(idx, weights, pos, k - 1, block, r, input, cols);
      GroupRowSplit(idx, weights, pos, k, block, r, input, cols);
      assert OffsetOk(idx[pos + k], cols);
      BlockRowIs(weights, block + k - 1, idx[pos + k], r, input, cols);
    }
  }

  /** An index and weights for a matrix of `rows` rows and `cols` columns, from a group on. */
  ghost predicate Sparse(idx: seq<int>, weights: seq<int>, pos: nat, block: nat, rows: int, cols: nat) {
    && pos <= |idx| && ValidFrom(idx, pos, rows, cols)
    && SPARSE_BLOCK_SIZE * (block + BlocksFrom(idx, pos)) <= |weights|
  }

  /** The group at `pos` and what comes after it. */
  lemma NextGroup(idx: seq<int>, weights: seq<int>, pos: nat, block: nat, rows: int, cols: nat)
    requires Sparse(idx, weights, pos, block, rows, cols) && 0 < rows
    ensures rows >= 8 && pos < |idx| && 0 <= idx[pos] && OffsetsOk(idx, pos, idx[pos], cols)
    ensures SPARSE_BLOCK_SIZE * (block + idx[pos]) <= |weights|
    ensures Sparse(idx, weights, pos + 1 + idx[pos], block + idx[pos], rows - 8, cols)
    ensures BlocksFrom(idx, pos) == idx[pos] + BlocksFrom(idx, pos + 1 + idx[pos])
  {
    RowsLeft(idx, pos, rows, cols);
    BlocksAtMost(idx, pos + 1 + idx[pos]);
  }

  /** Row `i` of the product as the kernel adds it up. */
  ghost function SparseRow(idx: seq<int>, weights: seq<int>, pos: nat, block: nat, rows: int, i: nat,
                           input: seq<int>, cols: nat): int
    requires Sparse(idx, weights, pos, block, rows, cols) && i < rows && cols <= |input|
    decreases |idx| - pos
  {
    NextGroup(idx, weights, pos, block, rows, cols);
    if i < 8 then GroupSum(idx, weights, pos, idx[pos], block, i, input, cols)
    else SparseRow(idx, weights, pos + 1 + idx[pos], block + idx[pos], rows - 8, i - 8, input, cols)
  }

  /** The matrix that an index and its weights stand for. */
  ghost function Entry(idx: seq<int>, weights: seq<int>, pos: nat, block: nat, rows: int, cols: nat, i: nat,
                       j: int): int
    requires Sparse(idx, weights, pos, block, rows, cols) && i < rows
    decreases |idx| - pos
  {
    NextGroup(idx, weights, pos, block, rows, cols);
    if i < 8 then GroupEntry(idx, weights, pos, idx[pos], block, i, j)
    else Entry(idx, weights, pos + 1 + idx[pos], block + idx[pos], rows - 8, cols, i - 8, j)
  }

  /** `dense` is that matrix, column after column. */
  ghost predicate Expands(dense: seq<int>, idx: seq<int>, weights: seq<int>, rows: nat, cols: nat)
    requires Sparse(idx, weights, 0, 0, rows, cols)
  {
    rows * cols <= |dense| && forall i, j :: 0 <= i < rows && 0 <= j < cols ==>
      ExpandsAt(dense, idx, weights, rows, cols, i, j)
  }

  ghost predicate ExpandsAt(dense: seq<int>, idx: seq<int>, weights: seq<int>, rows: nat, cols: nat, i: nat, j: nat)
    requires Sparse(idx, weights, 0, 0, rows, cols) && rows * cols <= |dense| && i < rows && j < cols
  {
    LastColumn(rows, j + 1, i);
    Columns(rows, j + 1, cols);
    dense[j * rows + i] == Entry(idx, weights, 0, 0, rows, cols, i, j)
  }

  /** Row `i` of the matrix times the first `n` inputs. */
  ghost function EntryRow(idx: seq<int>, weights: seq<int>, pos: nat, block: nat, rows: int, cols: nat, i: nat,
                          input: seq<int>, n: nat): int
    requires Sparse(idx, weights, pos, block, rows, cols) && i < rows && n <= |input|
  {
    if n == 0 then 0
    else EntryRow(idx, weights, pos, block, rows, cols, i, input, n - 1)
         + Entry(idx, weights, pos, block, rows, cols, i, n - 1) * input[n - 1]
  }

  lemma {:induction false} FirstGroupRow(idx: seq<int>, weights: seq<int>, pos: nat, block: nat, rows: int,
                                         cols: nat, i: nat, input: seq<int>, n: nat)
    requires Sparse(idx, weights, pos, block, rows, cols) && i < rows && n <= |input| && i < 8
    ensures 0 <= pos < |idx| && 0 <= idx[pos] && pos + idx[pos] < |idx|
    ensures SPARSE_BLOCK_SIZE * (block + idx[pos]) <= |weights|
    ensures EntryRow(idx, weights, pos, block, rows, cols, i, input, n)
         == GroupRow(idx, weights, pos, idx[pos], block, i, input, n)
  {
    hide GroupEntry;
    NextGroup(idx, weights, pos, block, rows, cols);
    if n > 0 {
      FirstGroupRow(idx, weights, pos, block, rows, cols, i, input, n - 1);
    }
  }

  lemma {:induction false} LaterGroupRow(idx: seq<int>, weights: seq<int>, pos: nat, block: nat, rows: int,
                                         cols: nat, i: nat, input: seq<int>, n: nat)
    requires Sparse(idx, weights, pos, block, rows, cols) && i < rows && n <= |input| && 8 <= i
    ensures 0 <= pos < |idx| && 0 <= idx[pos]
    ensures Sparse(idx, weights, pos + 1 + idx[pos], block + idx[pos], rows - 8, cols)
    ensures EntryRow(idx, weights, pos, block, rows, cols, i, input, n)
         == EntryRow(idx, weights, pos + 1 + idx[pos], block + idx[pos], rows - 8, cols, i - 8, input, n)
  {
    hide GroupEntry, Sparse;
    NextGroup(idx, weights, pos, block, rows, cols);
    if n > 0 {
      LaterGroupRow(idx, weights, pos, block, rows, cols, i, input, n - 1);
    }
  }

  /** The kernel's sums are the product of the matrix and the input. */
  lemma {:induction false} SparseRowIs(idx: seq<int>, weights: seq<int>, pos: nat, block: nat, rows: int, i: nat,
                                       input: seq<int>, cols: nat)
    requires Sparse(idx, weights, pos, block, rows, cols) && i < rows && cols <= |input|
    ensures SparseRow(idx, weights, pos, block, rows, i, input, cols)
         == EntryRow(idx, weights, pos, block, rows, cols, i, input, cols)
    decreases |idx| - pos
  {
    hide GroupSum, GroupRow, Sparse;
    NextGroup(idx, weights, pos, block, rows, cols);
    if i < 8 {
      FirstGroupRow(idx, weights, pos, block, rows, cols, i, input, cols);
      GroupRowIs(idx, weights, pos, idx[pos], block, i, input, cols);
    } else {
      LaterGroupRow(idx, weights, pos, block, rows, cols, i, input, cols);
      SparseRowIs(idx, weights, pos + 1 + idx[pos], block + idx[pos], rows - 8, i - 8, input, cols);
    }
  }

  lemma {:induction false} DenseRowIs(dense: seq<int>, idx: seq<int>, weights: seq<int>, rows: nat, cols: nat,
                                      i: nat, input: seq<int>, n: nat)
    requires Sparse(idx, weights, 0, 0, rows, cols) && Expands(dense, idx, weights, rows, cols)
    requires i < rows && n <= cols <= |input| && rows * n <= |dense|
    ensures DenseRow(dense, rows, i, input, n) == EntryRow(idx, weights, 0, 0, rows, cols, i, input, n)
  {
    hide Sparse, Entry;
    if n > 0 {
      LastColumn(rows, n, i);
      DenseRowIs(dense, idx, weights, rows, cols, i, input, n - 1);
      assert ExpandsAt(dense, idx, weights, rows, cols, i, n - 1);
    }
  }

  /** Whatever index the validator accepts, the sparse product is the dense product with the matrix that
      the index and the weights stand for. */
  lemma SparseIsDense(dense: seq<int>, idx: seq<int>, weights: seq<int>, rows: nat, cols: nat, i: nat, input: seq<int>)
    requires Sparse(idx, weights, 0, 0, rows, cols) && Expands(dense, idx, weights, rows, cols)
    requires i < rows && cols <= |input|
    ensures RowFrom(idx, weights, 0, 0, rows, 0, i, input, cols) == DenseRow(dense, rows, i, input, cols)
  {
    SparseRowIs(idx, weights, 0, 0, rows, i, input, cols);
    DenseRowIs(dense, idx, weights, rows, cols, i, input, cols);
  }

  /** The first `n` columns of the dense form of a sparse matrix. */
  ghost function Expanded(idx: seq<int>, weights: seq<int>, rows: nat, cols: nat, n: nat): (dense: seq<int>)
    requires Sparse(idx, weights, 0, 0, rows, cols)
    ensures |dense| == rows * n
  {
    if n == 0 then []
    else
      LastColumn(rows, n, 0);
      Expanded(idx, weights, rows, cols, n - 1)
      + seq(rows, i requires 0 <= i < rows => Entry(idx, weights, 0, 0, rows, cols, i, n - 1))
  }

  lemma {:induction false} ExpandedAt(idx: seq<int>, weights: seq<int>, rows: nat, cols: nat, n: nat, i: nat, j: nat)
    requires Sparse(idx, weights, 0, 0, rows, cols) && i < rows && j < n
    ensures j * rows + i < rows * n
    ensures Expanded(idx, weights, rows, cols, n)[j * rows + i] == Entry(idx, weights, 0, 0, rows, cols, i, j)
    decreases n
  {
    hide Sparse, Entry;
    LastColumn(rows, n, i);
    if j < n - 1 {
      ExpandedAt(idx, weights, rows, cols, n - 1, i, j);
    } else {
      assert j * rows + i - rows * (n - 1) == i;
    }
  }

  /** Every sparse matrix has a dense form. */
  lemma ExpandedExpands(idx: seq<int>, weights: seq<int>, rows: nat, cols: nat)
    requires Sparse(idx, weights, 0, 0, rows, cols)
    ensures Expands(Expanded(idx, weights, rows, cols, cols), idx, weights, rows, cols)
  {
    hide Sparse, Entry, Expanded;
    forall i, j | 0 <= i < rows && 0 <= j < cols
      ensures ExpandsAt(Expanded(idx, weights, rows, cols, cols), idx, weights, rows, cols, i, j)
    {
      ExpandedAt(idx, weights, rows, cols, cols, i, j);
    }
  }

  // ----- the kernel -----

  /** Adds a block to eight rows. */
  method AddBlock(out: array<int>, row: nat, weights: seq<int>, block: nat, input: seq<int>, pos: nat)
    requires row + 8 <= out.Length && SPARSE_BLOCK_SIZE * (block + 1) <= |weights| && pos + 4 <= |input|
    modifies out
    ensures forall k :: 0 <= k < out.Length ==>
              out[k] == old(out[k]) + if row <= k < row + 8 then BlockSum(weights, block, pos, k - row, input) else 0
  {
    var wPos := SPARSE_BLOCK_SIZE * block;
    var xj0, xj1, xj2, xj3 := input[pos], input[pos + 1], input[pos + 2], input[pos + 3];
    for r := 0 to 8
      invariant forall k :: 0 <= k < out.Length ==>
                  out[k] == old(out[k]) + if row <= k < row + r then BlockSum(weights, block, pos, k - row, input)
                                          else 0
    {
      var w := wPos + 4 * r;
      out[row + r] := out[row + r] + (weights[w] * xj0 + weights[w + 1] * xj1 + weights[w + 2] * xj2
                                      + weights[w + 3] * xj3);
    }
  }

  /** Eight rows: adds up the blocks of the group at `pos`. */
  method AddGroup(out: array<int>, row: nat, weights: seq<int>, idx: seq<int>, pos: nat, block: nat, input: seq<int>,
                  ghost cols: nat)
    requires row + 8 <= out.Length && pos < |idx| && 0 <= idx[pos] && OffsetsOk(idx, pos, idx[pos], cols)
    requires cols <= |input|
    requires SPARSE_BLOCK_SIZE * (block + idx[pos]) <= |weights|
    modifies out
    ensures forall k :: 0 <= k < out.Length ==>
              out[k] == old(out[k])
                + if row <= k < row + 8 then GroupSum(idx, weights, pos, idx[pos], block, k - row, input, cols) else 0
  {
    hide BlockSum;
    assert OffsetsOk(idx, pos, 0, cols);
    forall r | 0 <= r < 8
      ensures GroupSum(idx, weights, pos, 0, block, r, input, cols) == 0
    {
    }
    for b := 0 to idx[pos]
      invariant forall k :: 0 <= k < out.Length ==>
                  out[k] == old(out[k])
                    + if row <= k < row + 8 then GroupSum(idx, weights, pos, b, block, k - row, input, cols) else 0
    {
      assert OffsetOk(idx[pos + (b + 1)], cols);
      AddBlock(out, row, weights, block + b, input, idx[pos + 1 + b]);
    }
  }

  /** Row `i` of the whole product, seen from the group that begins at row `row`. */
  ghost function RowFrom(idx: seq<int>, weights: seq<int>, pos: nat, block: nat, rows: int, row: nat, i: nat,
                         input: seq<int>, cols: nat): int
    requires Sparse(idx, weights, pos, block, rows - row, cols) && row <= i < rows && cols <= |input|
  {
    SparseRow(idx, weights, pos, block, rows - row, i - row, input, cols)
  }

  lemma LaterRow(idx: seq<int>, weights: seq<int>, pos: nat, block: nat, rows: int, row: nat, i: nat, input: seq<int>,
                 cols: nat)
    requires Sparse(idx, weights, pos, block, rows - row, cols) && row <= i < rows && cols <= |input|
    ensures pos < |idx| && 0 <= idx[pos] && OffsetsOk(idx, pos, idx[pos], cols)
    ensures SPARSE_BLOCK_SIZE * (block + idx[pos]) <= |weights|
    ensures Sparse(idx, weights, pos + 1 + idx[pos], block + idx[pos], rows - (row + 8), cols)
    ensures RowFrom(idx, weights, pos, block, rows, row, i, input, cols)
         == if i < row + 8 then GroupSum(idx, weights, pos, idx[pos], block, i - row, input, cols)
            else RowFrom(idx, weights, pos + 1 + idx[pos], block + idx[pos], rows, row + 8, i, input, cols)
  {
    NextGroup(idx, weights, pos, block, rows - row, cols);
  }

  lemma LaterRows(idx: seq<int>, weights: seq<int>, pos: nat, block: nat, rows: int, row: nat, input: seq<int>,
                  cols: nat)
    requires Sparse(idx, weights, pos, block, rows - row, cols) && row < rows && cols <= |input|
    ensures pos < |idx| && 0 <= idx[pos] && OffsetsOk(idx, pos, idx[pos], cols)
    ensures SPARSE_BLOCK_SIZE * (block + idx[pos]) <= |weights|
    ensures Sparse(idx, weights, pos + 1 + idx[pos], block + idx[pos], rows - (row + 8), cols)
    ensures forall i :: row <= i < rows ==>
              RowFrom(idx, weights, pos, block, rows, row, i, input, cols)
              == if i < row + 8 then GroupSum(idx, weights, pos, idx[pos], block, i - row, input, cols)
                 else RowFrom(idx, weights, pos + 1 + idx[pos], block + idx[pos], rows, row + 8, i, input, cols)
  {
    hide Sparse, RowFrom, GroupSum, OffsetsOk;
    LaterRow(idx, weights, pos, block, rows, row, row, input, cols);
    forall i | row <= i < rows
      ensures RowFrom(idx, weights, pos, block, rows, row, i, input, cols)
           == if i < row + 8 then GroupSum(idx, weights, pos, idx[pos], block, i - row, input, cols)
              else RowFrom(idx, weights, pos + 1 + idx[pos], block + idx[pos], rows, row + 8, i, input, cols)
    {
      LaterRow(idx, weights, pos, block, rows, row, i, input, cols);
    }
  }

  /** The sparse product. It uses up the whole index and exactly the weights of its blocks. */
  method SparseSgemv8x4(out: array<int>, weights: seq<int>, idx: seq<int>, rows: nat, input: seq<int>, ghost cols: nat)
    requires Sparse(idx, weights, 0, 0, rows, cols) && cols <= |input| && rows <= out.Length
    modifies out
    ensures forall i :: 0 <= i < out.Length ==>
              out[i] == if i < rows then RowFrom(idx, weights, 0, 0, rows, 0, i, input, cols) else 0
  {
    hide Sparse, RowFrom, GroupSum, ValidFrom, BlocksFrom, OffsetsOk;
    Fill(out);
    var idxPos, block, row := 0, 0, 0;
    while row < rows
      invariant 0 <= row <= rows && 0 <= idxPos && 0 <= block && Sparse(idx, weights, idxPos, block, rows - row, cols)
      invariant forall i :: row <= i < rows ==>
                  RowFrom(idx, weights, 0, 0, rows, 0, i, input, cols)
                  == RowFrom(idx, weights, idxPos, block, rows, row, i, input, cols)
      invariant forall i :: 0 <= i < out.Length ==>
                  out[i] == if i < row then RowFrom(idx, weights, 0, 0, rows, 0, i, input, cols) else 0
      invariant idxPos <= |idx| && BlocksFrom(idx, 0) == block + BlocksFrom(idx, idxPos)
      decreases rows - row
    {
      NextGroup(idx, weights, idxPos, block, rows - row, cols);
      LaterRows(idx, weights, idxPos, block, rows, row, input, cols);
      AddGroup(out, row, weights, idx, idxPos, block, input, cols);
      block := block + idx[idxPos];
      idxPos := idxPos + 1 + idx[idxPos];
      row := row + 8;
    }
    UsedUp(idx, weights, idxPos, block, cols);
    assert idxPos == |idx| && block == BlocksFrom(idx, 0);
  }

  lemma UsedUp(idx: seq<int>, weights: seq<int>, pos: nat, block: nat, cols: nat)
    requires Sparse(idx, weights, pos, block, 0, cols)
    ensures pos == |idx| && BlocksFrom(idx, pos) == 0
  {
    RowsLeft(idx, pos, 0, cols);
  }

  // ----- the dense kernel in blocks -----

  /** An index that lists every block of a matrix: from `pos` on, `groups` times the columns of `n` blocks. */
  ghost predicate Full(idx: seq<int>, pos: nat, groups: nat, n: nat)
    decreases groups
  {
    if groups == 0 then pos == |idx|
    else
      && pos + 1 + n <= |idx| && idx[pos] == n
      && (forall k :: pos < k <= pos + n ==> idx[k] == 4 * (k - pos - 1))
      && Full(idx, pos + 1 + n, groups - 1, n)
  }

  ghost function FullIndex(groups: nat, n: nat): seq<int> {
    if groups == 0 then [] else [n] + seq(n, b => 4 * b) + FullIndex(groups - 1, n)
  }

  lemma {:induction false} FullIs(before: seq<int>, groups: nat, n: nat)
    ensures Full(before + FullIndex(groups, n), |before|, groups, n)
    decreases groups
  {
    if groups > 0 {
      var group: seq<int> := [n] + seq(n, b => 4 * b);
      FullIs(before + group, groups - 1, n);
      assert before + FullIndex(groups, n) == (before + group) + FullIndex(groups - 1, n);
    }
  }

  /** Such an index is one that the validator accepts. */
  lemma {:induction false} FullValid(idx: seq<int>, pos: nat, groups: nat, n: nat)
    requires Full(idx, pos, groups, n)
    ensures pos <= |idx| && ValidFrom(idx, pos, 8 * groups, 4 * n) && BlocksFrom(idx, pos) == Product(groups, n)
    decreases groups
  {
    hide Product;
    NextProduct(groups, n);
    if groups > 0 {
      FullValid(idx, pos + 1 + n, groups - 1, n);
    }
  }

  function Product(a: nat, b: nat): nat {
    a * b
  }

  lemma NextProduct(a: nat, b: nat)
    ensures if a == 0 then Product(a, b) == 0 else Product(a, b) == Product(a - 1, b) + b
  {}

  lemma FullSparse(idx: seq<int>, weights: seq<int>, pos: nat, block: nat, groups: nat, n: nat)
    requires Full(idx, pos, groups, n) && SPARSE_BLOCK_SIZE * (block + Product(groups, n)) <= |weights|
    ensures Sparse(idx, weights, pos, block, 8 * groups, 4 * n)
  {
    FullValid(idx, pos, groups, n);
  }

  lemma FullNext(idx: seq<int>, pos: nat, groups: nat, n: nat)
    requires Full(idx, pos, groups, n) && groups > 0
    ensures pos + n < |idx| && idx[pos] == n && forall b :: 0 <= b < n ==> FullColumn(idx, pos, b)
    ensures Full(idx, pos + 1 + n, groups - 1, n)
  {}

  ghost predicate FullColumn(idx: seq<int>, pos: nat, b: nat) {
    pos + 1 + b < |idx| && idx[pos + 1 + b] == 4 * b
  }

  /** Eight rows of the dense kernel: every block in turn. */
  method AddColumns(out: array<int>, row: nat, weights: seq<int>, block: nat, input: seq<int>, cols: nat,
                    ghost idx: seq<int>, ghost pos: nat)
    requires row + 8 <= out.Length && cols % 4 == 0 && cols <= |input|
    requires SPARSE_BLOCK_SIZE * (block + cols / 4) <= |weights|
    requires OffsetsOk(idx, pos, cols / 4, cols) && forall b :: 0 <= b < cols / 4 ==> FullColumn(idx, pos, b)
    modifies out
    ensures forall k :: 0 <= k < out.Length ==>
              out[k] == old(out[k])
                + if row <= k < row + 8 then GroupSum(idx, weights, pos, cols / 4, block, k - row, input, cols) else 0
  {
    hide BlockSum;
    assert OffsetsOk(idx, pos, 0, cols);
    forall r | 0 <= r < 8
      ensures GroupSum(idx, weights, pos, 0, block, r, input, cols) == 0
    {
    }
    var col, b := 0, 0;
    while col < cols
      invariant 0 <= b <= cols / 4 && col == 4 * b
      invariant forall k :: 0 <= k < out.Length ==>
                  out[k] == old(out[k])
                    + if row <= k < row + 8 then GroupSum(idx, weights, pos, b, block, k - row, input, cols) else 0
      decreases cols - col
    {
      assert OffsetOk(idx[pos + (b + 1)], cols) && FullColumn(idx, pos, b);
      AddBlock(out, row, weights, block + b, input, col);
      col := col + 4;
      b := b + 1;
    }
  }

  /** The sums of the dense kernel, with its weights in blocks: those of the sparse product for an index of
      all blocks. */
  method CgemvSums(out: array<int>, weights: seq<int>, rows: nat, cols: nat, input: seq<int>, ghost idx: seq<int>)
    requires rows % 8 == 0 && cols % 4 == 0 && cols <= |input| && rows <= out.Length
    requires Full(idx, 0, rows / 8, cols / 4) && Sparse(idx, weights, 0, 0, rows, cols)
    modifies out
    ensures forall i :: 0 <= i < out.Length ==>
              out[i] == if i < rows then RowFrom(idx, weights, 0, 0, rows, 0, i, input, cols) else 0
  {
    hide Sparse, RowFrom, GroupSum, ValidFrom, BlocksFrom, OffsetsOk, Full;
    Fill(out);
    var block, row := 0, 0;
    ghost var pos := 0;
    while row < rows
      invariant 0 <= row <= rows && row % 8 == 0 && 0 <= pos && Full(idx, pos, (rows - row) / 8, cols / 4)
      invariant 0 <= block && Sparse(idx, weights, pos, block, rows - row, cols)
      invariant forall i :: row <= i < rows ==>
                  RowFrom(idx, weights, 0, 0, rows, 0, i, input, cols)
                  == RowFrom(idx, weights, pos, block, rows, row, i, input, cols)
      invariant forall i :: 0 <= i < out.Length ==>
                  out[i] == if i < row then RowFrom(idx, weights, 0, 0, rows, 0, i, input, cols) else 0
      decreases rows - row
    {
      NextGroup(idx, weights, pos, block, rows - row, cols);
      LaterRows(idx, weights, pos, block, rows, row, input, cols);
      FullNext(idx, pos, (rows - row) / 8, cols / 4);
      AddColumns(out, row, weights, block, input, cols, idx, pos);
      block := block + cols / 4;
      pos := pos + 1 + cols / 4;
      row := row + 8;
    }
  }

  // ----- quantized inputs -----

  /** An input as a signed eight-bit number. */
  function Quantized(v: real): (q: int)
    ensures -128 <= q <= 127
  {
    var value := (127.0 * v + 0.5).Floor;
    if value < -128 then -128 else if value > 127 then 127 else value
  }

  /** Inputs in [-1, 1] are rounded to the nearest 127th. */
  lemma QuantizedNear(v: real)
    requires -1.0 <= v <= 1.0
    ensures -0.5 <= 127.0 * v - Quantized(v) as real <= 0.5
  {}

  /** As many inputs as there are columns; those that are missing are 0. */
  function QuantizedInput(input: seq<real>, cols: nat): (x: seq<int>)
    ensures |x| == cols
  {
    seq(cols, j requires 0 <= j < cols => if j < |input| then Quantized(input[j]) else 0)
  }

  method QuantizeInput(input: seq<real>, cols: nat) returns (x: seq<int>)
    ensures x == QuantizedInput(input, cols)
  {
    var buf := new int[cols](_ => 0);
    var n := if |input| < cols then |input| else cols;
    for j := 0 to n
      invariant forall k :: 0 <= k < cols ==> buf[k] == if k < j then Quantized(input[k]) else 0
    {
      buf[j] := Quantized(input[j]);
    }
    return buf[..];
  }

  /** The first rows get their scaled sums; all sums are whole numbers. */
  method ScaleSums(out: array<real>, sums: array<int>, scale: seq<real>, rows: nat)
    requires rows <= out.Length == sums.Length && rows <= |scale|
    modifies out
    ensures forall i :: 0 <= i < out.Length ==>
              out[i] == if i < rows then sums[i] as real * scale[i] else sums[i] as real
  {
    for i := 0 to out.Length
      invariant forall k :: 0 <= k < i ==>
                  out[k] == if k < rows then sums[k] as real * scale[k] else sums[k] as real
    {
      out[i] := if i < rows then sums[i] as real * scale[i] else sums[i] as real;
    }
  }

  /** What a quantized product of a sparse matrix is. */
  ghost predicate ScaledProduct(out: seq<real>, idx: seq<int>, weights: seq<int>, scale: seq<real>, rows: nat,
                                cols: nat, input: seq<real>)
    requires Sparse(idx, weights, 0, 0, rows, cols) && rows <= |scale| && rows <= |out| && rows % 8 == 0
  {
    forall i :: 0 <= i < |out| ==>
      out[i] == if i < rows
                then RowFrom(idx, weights, 0, 0, rows, 0, i, QuantizedInput(input, cols), cols) as real * scale[i]
                else 0.0
  }

  /** The sparse kernel on quantized inputs. */
  method SparseCgemv8x4(out: array<real>, weights: seq<int>, idx: seq<int>, scale: seq<real>, rows: nat, cols: nat,
                        input: seq<real>)
    requires rows % 8 == 0 && rows <= out.Length && rows <= |scale| && Sparse(idx, weights, 0, 0, rows, cols)
    modifies out
    ensures ScaledProduct(out[..], idx, weights, scale, rows, cols, input)
    ensures forall i :: rows <= i < out.Length ==> out[i] == 0.0
  {
    hide Sparse, RowFrom, Quantized;
    var x := QuantizeInput(input, cols);
    var sums := new int[out.Length](_ => 0);
    SparseSgemv8x4(sums, weights, idx, rows, x, cols);
    ScaleSums(out, sums, scale, rows);
  }

  /** The dense kernel on quantized inputs: it is the sparse one for an index of all blocks. */
  method Cgemv8x4(out: array<real>, weights: seq<int>, scale: seq<real>, rows: nat, cols: nat, input: seq<real>,
                  ghost idx: seq<int>)
    requires rows % 8 == 0 && cols % 4 == 0 && rows <= out.Length && rows <= |scale|
    requires Full(idx, 0, rows / 8, cols / 4) && Sparse(idx, weights, 0, 0, rows, cols)
    modifies out
    ensures ScaledProduct(out[..], idx, weights, scale, rows, cols, input)
    ensures forall i :: rows <= i < out.Length ==> out[i] == 0.0
  {
    hide Sparse, RowFrom, Quantized, Full;
    var x := QuantizeInput(input, cols);
    var sums := new int[out.Length](_ => 0);
    CgemvSums(sums, weights, rows, cols, x, idx);
    ScaleSums(out, sums, scale, rows);
  }
}
