/** The block descriptors handed to the workers and the row partitioner that
    builds them. */
module Blocks {
  import opened Primality
  import opened Counting
  import opened Reduction

  /** One worker's rectangle of the matrix; all four bounds are inclusive.
      The fields are in the order of the C struct `Block`. */
  datatype Block = Block(startRow: int, startColumn: int, endRow: int, endColumn: int)

  /** Every cell the worker would read lies inside a `rows` by `cols` matrix:
      one of the block's ranges is empty, or all its bounds are in range. */
  predicate WellPlaced(b: Block, rows: int, cols: int) {
    b.endRow < b.startRow || b.endColumn < b.startColumn ||
    (0 <= b.startRow && b.endRow < rows && 0 <= b.startColumn && b.endColumn < cols)
  }

  /** Row `r` is one of the block's rows. */
  predicate HasRow(b: Block, r: int) {
    b.startRow <= r <= b.endRow
  }

  /** Number of prime cells inside a block. */
  ghost function BlockCount(m: array2<int>, b: Block): (r: nat)
    requires WellPlaced(b, m.Length0, m.Length1)
    reads m
    ensures r <= Span(b.startRow, b.endRow + 1) * Span(b.startColumn, b.endColumn + 1)
  {
    RectCount(m, b.startRow, b.endRow + 1, b.startColumn, b.endColumn + 1)
  }

  /** Partial counts of a list of blocks, one per block. */
  ghost function BlockCounts(m: array2<int>, blocks: seq<Block>): (cs: seq<nat>)
    requires forall i :: 0 <= i < |blocks| ==> WellPlaced(blocks[i], m.Length0, m.Length1)
    reads m
    ensures |cs| == |blocks|
    ensures forall i :: 0 <= i < |blocks| ==> cs[i] == BlockCount(m, blocks[i])
  {
    seq(|blocks|, i requires 0 <= i < |blocks| reads m => BlockCount(m, blocks[i]))
  }

  /** `blocks` cut the rows `[0, covered)` of a `rows` by `cols` matrix into
      consecutive full-width bands, in order: the first starts at row 0, each
      starts on the row after the previous one ends, the last ends just before
      `covered`, and no band runs backwards. */
  predicate RowTiling(blocks: seq<Block>, rows: int, cols: int, covered: int) {
    |blocks| >= 1 &&
    covered <= rows &&
    blocks[0].startRow == 0 &&
    blocks[|blocks| - 1].endRow + 1 == covered &&
    (forall i :: 0 <= i < |blocks| ==>
      blocks[i].startColumn == 0 && blocks[i].endColumn == cols - 1 &&
      0 <= blocks[i].startRow <= blocks[i].endRow + 1 <= covered) &&
    (forall i :: 0 <= i < |blocks| - 1 ==> blocks[i].endRow + 1 == blocks[i + 1].startRow)
  }

  /** Every band of a tiling can be scanned without leaving the matrix. */
  lemma TilingWellPlaced(blocks: seq<Block>, rows: int, cols: int, covered: int)
    requires RowTiling(blocks, rows, cols, covered)
    ensures forall i :: 0 <= i < |blocks| ==> WellPlaced(blocks[i], rows, cols)
  {
  }

  /** Bands of a tiling are pairwise row-disjoint: an earlier band ends before a
      later one starts. */
  lemma {:induction false} TilingDisjoint(blocks: seq<Block>, rows: int, cols: int, covered: int, i: int, j: int)
    requires RowTiling(blocks, rows, cols, covered)
    requires 0 <= i < j < |blocks|
    ensures blocks[i].endRow < blocks[j].startRow
    decreases j - i
  {
    if i + 1 < j {
      TilingDisjoint(blocks, rows, cols, covered, i + 1, j);
    }
  }

  /** Every row below `covered` lies in some band of the tiling. */
  lemma {:induction false} TilingCovers(blocks: seq<Block>, rows: int, cols: int, covered: int, r: int)
    returns (i: nat)
    requires RowTiling(blocks, rows, cols, covered)
    requires 0 <= r < covered
    ensures i < |blocks| && HasRow(blocks[i], r)
  {
    i := 0;
    while blocks[i].endRow < r
      invariant 0 <= i < |blocks| && blocks[i].startRow <= r
      decreases |blocks| - i
    {
      i := i + 1;
    }
  }

  /** No row at or beyond `covered` lies in any band of the tiling. */
  lemma TilingMisses(blocks: seq<Block>, rows: int, cols: int, covered: int, r: int)
    requires RowTiling(blocks, rows, cols, covered)
    requires covered <= r
    ensures forall i :: 0 <= i < |blocks| ==> !HasRow(blocks[i], r)
  {
  }

  /** In a tiling each row below `covered` belongs to exactly one band. */
  lemma TilingOwner(blocks: seq<Block>, rows: int, cols: int, covered: int, r: int) returns (i: nat)
    requires RowTiling(blocks, rows, cols, covered)
    requires 0 <= r < covered
    ensures i < |blocks| && HasRow(blocks[i], r)
    ensures forall j :: 0 <= j < |blocks| && HasRow(blocks[j], r) ==> j == i
  {
    i := TilingCovers(blocks, rows, cols, covered, r);
    forall j | 0 <= j < |blocks| && HasRow(blocks[j], r)
      ensures j == i
    {
      if j < i {
        TilingDisjoint(blocks, rows, cols, covered, j, i);
      } else if i < j {
        TilingDisjoint(blocks, rows, cols, covered, i, j);
      }
    }
  }

  /** Dropping the last band leaves a tiling of the rows above it. */
  lemma TilingInit(blocks: seq<Block>, rows: int, cols: int, covered: int)
    requires RowTiling(blocks, rows, cols, covered) && |blocks| >= 2
    ensures RowTiling(blocks[..|blocks| - 1], rows, cols, blocks[|blocks| - 1].startRow)
  {
    forall i | 0 <= i < |blocks| - 1
      ensures blocks[i].endRow < blocks[|blocks| - 1].startRow
    {
      TilingDisjoint(blocks, rows, cols, covered, i, |blocks| - 1);
    }
  }

  /** The partial counts of a prefix of the blocks are a prefix of the partial counts. */
  lemma BlockCountsPrefix(m: array2<int>, blocks: seq<Block>, k: nat)
    requires forall i :: 0 <= i < |blocks| ==> WellPlaced(blocks[i], m.Length0, m.Length1)
    requires k <= |blocks|
    ensures BlockCounts(m, blocks)[..k] == BlockCounts(m, blocks[..k])
  {
  }

  /** The partial counts of a tiling add up to the count of the rows it covers. */
  lemma {:induction false} TilingCount(m: array2<int>, blocks: seq<Block>, covered: int)
    requires RowTiling(blocks, m.Length0, m.Length1, covered)
    ensures forall i :: 0 <= i < |blocks| ==> WellPlaced(blocks[i], m.Length0, m.Length1)
    ensures RectOk(m, 0, covered, 0, m.Length1)
    ensures Total(BlockCounts(m, blocks)) == RectCount(m, 0, covered, 0, m.Length1)
    decreases |blocks|
  {
    TilingWellPlaced(blocks, m.Length0, m.Length1, covered);
    var n := |blocks|;
    var last := blocks[n - 1];
    var cs := BlockCounts(m, blocks);
    assert Total(cs) == Total(cs[..n - 1]) + BlockCount(m, last);
    if n == 1 {
      assert cs[..0] == [];
    } else {
      var init := blocks[..n - 1];
      TilingInit(blocks, m.Length0, m.Length1, covered);
      TilingCount(m, init, last.startRow);
      BlockCountsPrefix(m, blocks, n - 1);
      RectCountSplit(m, 0, last.startRow, covered, 0, m.Length1);
    }
  }

  /** Block `i` as the coordinator's block loop builds it: `rows / workers` rows
      starting at `i * (rows / workers)`, and every column. */
  function BlockOf(rows: nat, cols: nat, workers: nat, i: nat): (b: Block)
    requires workers >= 1
    ensures b.endRow - b.startRow + 1 == rows / workers
    ensures b.startColumn == 0 && b.endColumn == cols - 1
    ensures i < workers ==> 0 <= b.startRow <= b.endRow + 1 <= workers * (rows / workers) <= rows
  {
    var span := rows / workers;
    BandWithin(span, i, workers);
    Block(i * span, 0, (i + 1) * span - 1, cols - 1)
  }

  /** Band `i` of `workers` bands of height `span` lies below band `workers`. */
  lemma BandWithin(span: nat, i: nat, workers: nat)
    ensures i * span <= (i + 1) * span
    ensures i < workers ==> (i + 1) * span <= workers * span
  {
    MulMonotone(span, i, i + 1);
    if i < workers {
      MulMonotone(span, i + 1, workers);
    }
  }

  /** All `workers` blocks, in index order. */
  function Partitioning(rows: nat, cols: nat, workers: nat): (blocks: seq<Block>)
    requires workers >= 1
    ensures |blocks| == workers
    ensures forall i :: 0 <= i < workers ==> blocks[i] == BlockOf(rows, cols, workers, i)
  {
    seq(workers, i requires 0 <= i < workers => BlockOf(rows, cols, workers, i))
  }

  /** The block loop of the coordinator: one block per worker, in index order. */
  method Partition(rows: nat, cols: nat, workers: nat) returns (blocks: seq<Block>)
    requires workers >= 1
    ensures blocks == Partitioning(rows, cols, workers)
    ensures RowTiling(blocks, rows, cols, workers * (rows / workers))
    ensures rows % workers == 0 ==> RowTiling(blocks, rows, cols, rows)
  {
    blocks := [];
    for i := 0 to workers
      invariant |blocks| == i
      invariant forall k :: 0 <= k < i ==> blocks[k] == BlockOf(rows, cols, workers, k)
    {
      var block := Block(i * (rows / workers), 0, (i + 1) * (rows / workers) - 1, cols - 1);
      blocks := blocks + [block];
    }
    PartitionIsTiling(rows, cols, workers);
  }

  /** The partitioner's blocks tile exactly the first `workers * (rows / workers)`
      rows; when `workers` divides `rows` that is every row. */
  lemma PartitionIsTiling(rows: nat, cols: nat, workers: nat)
    requires workers >= 1
    ensures RowTiling(Partitioning(rows, cols, workers), rows, cols, workers * (rows / workers))
    ensures rows % workers == 0 ==> workers * (rows / workers) == rows
  {
  }

  /** Rows from `workers * (rows / workers)` up are in no block, so no worker
      scans them. */
  lemma RemainderRowsSkipped(rows: nat, cols: nat, workers: nat, r: int)
    requires workers >= 1
    requires workers * (rows / workers) <= r < rows
    ensures forall i :: 0 <= i < workers ==> !HasRow(Partitioning(rows, cols, workers)[i], r)
  {
  }

  /** Five rows for two workers: the blocks are rows 0..1 and 2..3, and row 4
      belongs to neither; the corrected blocks are rows 0..1 and 2..4. */
  lemma FiveRowsTwoWorkers(cols: nat)
    ensures Partitioning(5, cols, 2) == [Block(0, 0, 1, cols - 1), Block(2, 0, 3, cols - 1)]
    ensures !HasRow(Partitioning(5, cols, 2)[0], 4) && !HasRow(Partitioning(5, cols, 2)[1], 4)
    ensures CorrectedPartitioning(5, cols, 2) == [Block(0, 0, 1, cols - 1), Block(2, 0, 4, cols - 1)]
  {
  }

  /** Block `i` when the last block also takes the rows left over by the
      division, so that every row is scanned. */
  function CorrectedBlockOf(rows: nat, cols: nat, workers: nat, i: nat): Block
    requires workers >= 1
  {
    var span := rows / workers;
    Block(i * span, 0, if i == workers - 1 then rows - 1 else (i + 1) * span - 1, cols - 1)
  }

  /** All `workers` corrected blocks, in index order. */
  function CorrectedPartitioning(rows: nat, cols: nat, workers: nat): (blocks: seq<Block>)
    requires workers >= 1
    ensures |blocks| == workers
    ensures forall i :: 0 <= i < workers ==> blocks[i] == CorrectedBlockOf(rows, cols, workers, i)
  {
    seq(workers, i requires 0 <= i < workers => CorrectedBlockOf(rows, cols, workers, i))
  }

  /** The corrected blocks tile every row, whatever the number of workers. */
  lemma CorrectedPartitionIsTiling(rows: nat, cols: nat, workers: nat)
    requires workers >= 1
    ensures RowTiling(CorrectedPartitioning(rows, cols, workers), rows, cols, rows)
  {
    var span := rows / workers;
    var blocks := CorrectedPartitioning(rows, cols, workers);
    assert workers * span <= rows;
    forall i | 0 <= i < workers
      ensures 0 <= blocks[i].startRow <= blocks[i].endRow + 1 <= rows
    {
      MulMonotone(span, i, i + 1);
      MulMonotone(span, i + 1, workers);
      assert (i + 1) * span <= workers * span;
    }
  }

  /** With the corrected blocks the partial counts always add up to the count
      of the whole matrix. */
  lemma CorrectedPartitionCount(m: array2<int>, workers: nat)
    requires workers >= 1
    ensures forall i :: 0 <= i < workers ==>
      WellPlaced(CorrectedPartitioning(m.Length0, m.Length1, workers)[i], m.Length0, m.Length1)
    ensures Total(BlockCounts(m, CorrectedPartitioning(m.Length0, m.Length1, workers)))
      == RectCount(m, 0, m.Length0, 0, m.Length1)
  {
    CorrectedPartitionIsTiling(m.Length0, m.Length1, workers);
    TilingCount(m, CorrectedPartitioning(m.Length0, m.Length1, workers), m.Length0);
  }
}
