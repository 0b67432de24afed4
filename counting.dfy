/** How many cells of a rectangular part of the matrix hold a prime.
    Ranges are half-open here; the block descriptors of the workers use
    inclusive bounds and are translated in module Blocks. */
module Counting {
  import opened Primality

  /** Number of integers in the half-open range `[lo, hi)`; 0 when it is empty. */
  function Span(lo: int, hi: int): (n: nat)
    ensures n == 0 <==> hi <= lo
  {
    if hi <= lo then 0 else hi - lo
  }

  /** The cells of row `i`, columns `[j0, j1)`, can be read: the column range is
      empty, or the row and every column lie inside the matrix. */
  predicate RowOk(m: array2<int>, i: int, j0: int, j1: int) {
    j1 <= j0 || (0 <= i < m.Length0 && 0 <= j0 && j1 <= m.Length1)
  }

  /** The cells of rows `[i0, i1)` by columns `[j0, j1)` can be read: one of the
      ranges is empty, or all of them lie inside the matrix. */
  predicate RectOk(m: array2<int>, i0: int, i1: int, j0: int, j1: int) {
    i1 <= i0 || j1 <= j0 || (0 <= i0 && i1 <= m.Length0 && 0 <= j0 && j1 <= m.Length1)
  }

  /** Number of prime cells in row `i`, columns `[j0, j1)`. */
  ghost function RowCount(m: array2<int>, i: int, j0: int, j1: int): (r: nat)
    requires RowOk(m, i, j0, j1)
    reads m
    ensures r <= Span(j0, j1)
    decreases j1 - j0
  {
    if j1 <= j0 then 0
    else RowCount(m, i, j0, j1 - 1) + (if Prime(m[i, j1 - 1]) then 1 else 0)
  }

  /** Number of prime cells in rows `[i0, i1)` by columns `[j0, j1)`. */
  ghost function RectCount(m: array2<int>, i0: int, i1: int, j0: int, j1: int): (r: nat)
    requires RectOk(m, i0, i1, j0, j1)
    reads m
    ensures r <= Span(i0, i1) * Span(j0, j1)
    decreases i1 - i0
  {
    if i1 <= i0 then 0
    else
      var above := RectCount(m, i0, i1 - 1, j0, j1);
      var last := RowCount(m, i1 - 1, j0, j1);
      assert Span(i0, i1) * Span(j0, j1) == Span(i0, i1 - 1) * Span(j0, j1) + Span(j0, j1);
      above + last
  }

  /** Counting a row range in two adjacent pieces gives the count of the whole range. */
  lemma {:induction false} RectCountSplit(m: array2<int>, i0: int, k: int, i1: int, j0: int, j1: int)
    requires i0 <= k <= i1
    requires RectOk(m, i0, i1, j0, j1)
    ensures RectOk(m, i0, k, j0, j1) && RectOk(m, k, i1, j0, j1)
    ensures RectCount(m, i0, i1, j0, j1) == RectCount(m, i0, k, j0, j1) + RectCount(m, k, i1, j0, j1)
    decreases i1 - k
  {
    if k < i1 {
      RectCountSplit(m, i0, k, i1 - 1, j0, j1);
    }
  }
}
