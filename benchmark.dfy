/** The two counting paths over the shared matrix: the serial scan and the
    partitioned scan whose workers each merge one partial count into the shared
    total. */
module Benchmark {
  import opened Primality
  import opened Counting
  import opened Reduction
  import opened Blocks

  /** A block descriptor that may be missing: the C worker receives a
      possibly null pointer to its block. */
  datatype Option<T> = None | Some(value: T)

  /** A worker's scan: counts the prime cells of the block's inclusive row and
      column ranges into a private counter, touching no shared state. */
  method ScanBlock(m: array2<int>, b: Block) returns (localPrimes: nat)
    requires WellPlaced(b, m.Length0, m.Length1)
    ensures localPrimes == BlockCount(m, b)
    ensures localPrimes <= Span(b.startRow, b.endRow + 1) * Span(b.startColumn, b.endColumn + 1)
  {
    localPrimes := 0;
    var i := b.startRow;
    while i <= b.endRow
      invariant b.startRow <= i && (i <= b.endRow + 1 || i == b.startRow)
      invariant localPrimes == RectCount(m, b.startRow, i, b.startColumn, b.endColumn + 1)
    {
      var j := b.startColumn;
      while j <= b.endColumn
        invariant b.startColumn <= j && (j <= b.endColumn + 1 || j == b.startColumn)
        invariant localPrimes == RectCount(m, b.startRow, i, b.startColumn, b.endColumn + 1)
                                 + RowCount(m, i, b.startColumn, j)
      {
        var p := IsPrime(m[i, j]);
        if p != 0 {
          localPrimes := localPrimes + 1;
        }
        j := j + 1;
      }
      i := i + 1;
    }
  }

  /** With every cell equal to `v`, the count is every cell or none. */
  lemma {:induction false} UniformRowCount(m: array2<int>, v: int, i: int, j: int)
    requires 0 <= i < m.Length0 && 0 <= j <= m.Length1
    requires forall c :: 0 <= c < m.Length1 ==> m[i, c] == v
    ensures RowCount(m, i, 0, j) == if Prime(v) then j else 0
  {
    if j > 0 {
      UniformRowCount(m, v, i, j - 1);
    }
  }

  /** With every cell equal to `v`, the count is every cell or none. */
  lemma {:induction false} UniformMatrixCount(m: array2<int>, v: int, k: int)
    requires 0 <= k <= m.Length0
    requires forall r, c :: 0 <= r < m.Length0 && 0 <= c < m.Length1 ==> m[r, c] == v
    ensures RectCount(m, 0, k, 0, m.Length1) == if Prime(v) then k * m.Length1 else 0
  {
    if k > 0 {
      UniformMatrixCount(m, v, k - 1);
      UniformRowCount(m, v, k - 1, m.Length1);
    }
  }

  /** Whatever order the workers merge in, the partitioned count equals the
      count of every row the blocks cover; when `workers` divides the row count
      this is the serial count of the whole matrix. */
  lemma ParallelMatchesSerial(m: array2<int>, workers: nat, order: seq<nat>)
    requires workers >= 1 && IsSchedule(order, workers)
    ensures forall i :: 0 <= i < workers ==>
      WellPlaced(Partitioning(m.Length0, m.Length1, workers)[i], m.Length0, m.Length1)
    ensures InRange(order, workers)
    ensures SumInOrder(BlockCounts(m, Partitioning(m.Length0, m.Length1, workers)), order)
      == RectCount(m, 0, workers * (m.Length0 / workers), 0, m.Length1)
    ensures m.Length0 % workers == 0 ==>
      SumInOrder(BlockCounts(m, Partitioning(m.Length0, m.Length1, workers)), order)
      == RectCount(m, 0, m.Length0, 0, m.Length1)
  {
    var blocks := Partitioning(m.Length0, m.Length1, workers);
    PartitionIsTiling(m.Length0, m.Length1, workers);
    TilingCount(m, blocks, workers * (m.Length0 / workers));
    MergeOrderIrrelevant(BlockCounts(m, blocks), order);
  }

  /** A 4 by 4 matrix of sevens split among two workers counts 16 primes;
      a 4 by 4 matrix of fours split among four workers counts none. */
  lemma UniformScenarios(m: array2<int>, v: int, workers: nat, order: seq<nat>)
    requires m.Length0 == 4 && m.Length1 == 4
    requires forall r, c :: 0 <= r < 4 && 0 <= c < 4 ==> m[r, c] == v
    requires (v == 7 && workers == 2) || (v == 4 && workers == 4)
    requires IsSchedule(order, workers)
    ensures forall i :: 0 <= i < workers ==> WellPlaced(Partitioning(4, 4, workers)[i], 4, 4)
    ensures InRange(order, workers)
    ensures SumInOrder(BlockCounts(m, Partitioning(4, 4, workers)), order) == if v == 7 then 16 else 0
  {
    ParallelMatchesSerial(m, workers, order);
    UniformMatrixCount(m, v, 4);
    PrimeExamples();
    assert Prime(7) by {
      PrimeByTrialDivision(7, 3);
    }
  }

  /** The partitioned count misses exactly the primes in the rows left over by
      the division of rows among workers. */
  lemma ParallelMissesRemainder(m: array2<int>, workers: nat, order: seq<nat>)
    requires workers >= 1 && IsSchedule(order, workers)
    ensures forall i :: 0 <= i < workers ==>
      WellPlaced(Partitioning(m.Length0, m.Length1, workers)[i], m.Length0, m.Length1)
    ensures InRange(order, workers)
    ensures RectOk(m, workers * (m.Length0 / workers), m.Length0, 0, m.Length1)
    ensures RectCount(m, 0, m.Length0, 0, m.Length1)
      == SumInOrder(BlockCounts(m, Partitioning(m.Length0, m.Length1, workers)), order)
         + RectCount(m, workers * (m.Length0 / workers), m.Length0, 0, m.Length1)
  {
    ParallelMatchesSerial(m, workers, order);
    CoveredBound(m, workers);
  }

  /** Five rows of one prime cell each, two workers: the serial path counts 5,
      the partitioned path as written counts 4, and with the corrected blocks 5. */
  lemma FiveSevensTwoWorkers(m: array2<int>, order: seq<nat>)
    requires m.Length0 == 5 && m.Length1 == 1
    requires forall r, c :: 0 <= r < 5 && 0 <= c < 1 ==> m[r, c] == 7
    requires IsSchedule(order, 2)
    ensures forall i :: 0 <= i < 2 ==> WellPlaced(Partitioning(5, 1, 2)[i], 5, 1)
    ensures forall i :: 0 <= i < 2 ==> WellPlaced(CorrectedPartitioning(5, 1, 2)[i], 5, 1)
    ensures InRange(order, 2)
    ensures RectCount(m, 0, 5, 0, 1) == 5
    ensures SumInOrder(BlockCounts(m, Partitioning(5, 1, 2)), order) == 4
    ensures SumInOrder(BlockCounts(m, CorrectedPartitioning(5, 1, 2)), order) == 5
  {
    assert Prime(7) by {
      PrimeByTrialDivision(7, 3);
    }
    ParallelMatchesSerial(m, 2, order);
    UniformMatrixCount(m, 7, 4);
    UniformMatrixCount(m, 7, 5);
    CorrectedPartitionCount(m, 2);
    MergeOrderIrrelevant(BlockCounts(m, CorrectedPartitioning(5, 1, 2)), order);
  }

  /** The program state shared by both paths: the matrix, which no path
      writes, and the global prime counter. */
  class PrimeCounter {
    const matrix: array2<int>
    var primes: int

    /** The counter starts at 0; the matrix is supplied already filled. */
    constructor (m: array2<int>)
      ensures matrix == m && primes == 0
    {
      matrix := m;
      primes := 0;
    }

    /** `serial`: resets the counter, then counts every prime cell of the whole
        matrix in row-major order. The result depends on the matrix alone. */
    method Serial()
      modifies this
      ensures primes == RectCount(matrix, 0, matrix.Length0, 0, matrix.Length1)
      ensures 0 <= primes <= matrix.Length0 * matrix.Length1
    {
      primes := 0;
      for i := 0 to matrix.Length0
        invariant primes == RectCount(matrix, 0, i, 0, matrix.Length1)
      {
        for j := 0 to matrix.Length1
          invariant primes == RectCount(matrix, 0, i, 0, matrix.Length1) + RowCount(matrix, i, 0, j)
        {
          var p := IsPrime(matrix[i, j]);
          if p != 0 {
            primes := primes + 1;
          }
        }
      }
    }

    /** `multithread`: a missing block contributes nothing; otherwise the
        block's partial count is added to the counter exactly once. */
    method Worker(block: Option<Block>)
      requires block.Some? ==> WellPlaced(block.value, matrix.Length0, matrix.Length1)
      modifies this
      ensures primes == old(primes) + if block.Some? then BlockCount(matrix, block.value) else 0
    {
      if block.None? {
        return;
      }
      var localPrimes := ScanBlock(matrix, block.value);
      primes := primes + localPrimes;
    }

    /** `parallel`: resets the counter, builds one block per worker and lets
        every worker merge once, in the order `order` chosen by the scheduler. */
    method Parallel(workers: nat, order: seq<nat>)
      requires workers >= 1 && IsSchedule(order, workers)
      modifies this
      ensures primes == RectCount(matrix, 0, workers * (matrix.Length0 / workers), 0, matrix.Length1)
      ensures matrix.Length0 % workers == 0 ==>
        primes == RectCount(matrix, 0, matrix.Length0, 0, matrix.Length1)
      ensures 0 <= primes <= matrix.Length0 * matrix.Length1
    {
      primes := 0;
      var blocks := Partition(matrix.Length0, matrix.Length1, workers);
      ParallelMatchesSerial(matrix, workers, order);
      ScheduleInRange(order, workers);
      ghost var cs := BlockCounts(matrix, blocks);
      var k := 0;
      while k < |order|
        invariant 0 <= k <= |order|
        invariant primes == SumInOrder(cs, order[..k])
      {
        Worker(Some(blocks[order[k]]));
        assert order[..k + 1][..k] == order[..k];
        k := k + 1;
      }
      assert order[..k] == order;
      CoveredBound(matrix, workers);
    }

    /** The serial path followed by the parallel path, as the program runs them:
        when `workers` divides the row count both report the same number. */
    method SerialThenParallel(workers: nat, order: seq<nat>) returns (serialResult: int, parallelResult: int)
      requires workers >= 1 && IsSchedule(order, workers)
      modifies this
      ensures serialResult == RectCount(matrix, 0, matrix.Length0, 0, matrix.Length1)
      ensures matrix.Length0 % workers == 0 ==> parallelResult == serialResult
      ensures parallelResult == RectCount(matrix, 0, workers * (matrix.Length0 / workers), 0, matrix.Length1)
      ensures parallelResult <= serialResult
      ensures primes == parallelResult
    {
      Serial();
      serialResult := primes;
      primes := 0;
      Parallel(workers, order);
      parallelResult := primes;
      CoveredBound(matrix, workers);
    }
  }

  /** The whole-matrix count splits into the rows the partitioned path covers
      and the rows left over; the covered part has no more primes than cells. */
  lemma CoveredBound(m: array2<int>, workers: nat)
    requires workers >= 1
    ensures RectOk(m, 0, workers * (m.Length0 / workers), 0, m.Length1)
    ensures RectOk(m, workers * (m.Length0 / workers), m.Length0, 0, m.Length1)
    ensures RectCount(m, 0, m.Length0, 0, m.Length1)
      == RectCount(m, 0, workers * (m.Length0 / workers), 0, m.Length1)
         + RectCount(m, workers * (m.Length0 / workers), m.Length0, 0, m.Length1)
    ensures RectCount(m, 0, workers * (m.Length0 / workers), 0, m.Length1) <= m.Length0 * m.Length1
  {
    var covered := workers * (m.Length0 / workers);
    assert 0 <= covered <= m.Length0;
    RectCountSplit(m, 0, covered, m.Length0, 0, m.Length1);
  }
}
