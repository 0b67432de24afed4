# Prime counting over a matrix: serial scan and row-partitioned workers

This project models the counting core of a small pthreads benchmark
(`Trabalho.c`). The program counts the prime-valued cells of an integer matrix
in two ways. The serial path scans every cell. The parallel path cuts the rows
into one block per worker. Each worker counts the primes of its block in a
private counter and then adds that count once into the global counter `primes`,
under a mutex.

The model is imperative, like the source:

- `Primality.IsPrime` is the trial-division `while` loop. It is proved
  against mathematical primality (`Primality.Prime`).
- `Benchmark.ScanBlock` is the worker's nested scan over an `array2<int>`.
- `Blocks.Partition` is the block-building loop.
- The class `Benchmark.PrimeCounter` holds the matrix (read-only) and the
  global counter `primes`. Its methods `Serial`, `Worker` and `Parallel` update
  `primes` as `serial`, `multithread` and `parallel` do.

The specifications are ghost functions. `Counting.RowCount` and
`Counting.RectCount` count the prime cells of a rectangle of rows and
columns. The C struct `Block` (Trabalho.c:104-109) is the datatype
`Blocks.Block`, with the same four inclusive bounds in the same order. `Blocks.BlockCount` converts a block's inclusive bounds to those
ranges. `Reduction.Total` and `Reduction.SumInOrder` describe the merged
counter.

Row count R, column count C and worker count W are parameters (the dimensions
of the array and the `workers` argument). The shipped values are ROW = COLUMN =
10000 and NUM_THREADS = 2.

The threads are modelled as workers that run one after another. The order is
an argument `order`, any permutation of the block indices (`Reduction.IsSchedule`).
Each worker's `primes += local_primes` under the mutex is a single step. Only
the order of these additions depends on scheduling, and
`Reduction.MergeOrderIrrelevant` proves the order does not matter.

Both `Serial` and `Parallel` set `primes` to 0 first. Their postconditions
give the final `primes` as a function of the matrix alone, never of the old
counter. So repeated runs on an unchanged matrix give the same value.

A row partition is normally expected to give the rows left over when W does
not divide R to the last block, so that no row is dropped. The code does not
do this, and the model follows the code: every block is
`R / W` rows long (Trabalho.c:144-145), so the last `R mod W` rows are never
scanned. So the model proves parallel == serial only when W divides R. For
other W it proves that the parallel count misses exactly the primes in the
leftover rows. See "## Findings".

## Model

| member | source | states |
|---|---|---|
| `Primality.IsPrime` | Trabalho.c:70-86 | The result is 0 or 1. It is 1 exactly when `n` is prime: `n >= 2` and no `d` in `2..n-1` divides it. So every `n <= 1` (0 and negatives too) gives 0. |
| `Primality.SmallDivisor` | Trabalho.c:79-81 | Any number with a divisor strictly between 1 and itself also has a divisor `e >= 2` with `e * e <= n`. This is why trial division can stop at the square root. |
| `Primality.PrimeByTrialDivision` | Trabalho.c:79-85 | If no `d` with `2 <= d < k` divides `n`, and `k * k > n`, then `n` is prime. This is the loop's exit case that returns 1. |
| `Primality.PrimeExamples` | Trabalho.c:70-86 | -5, 0, 1, 4 and 25 are not prime. 2, 3, 17 and 997 are. |
| `Counting.RowCount` | Trabalho.c:93-97 | The number of prime cells in part of one row is at most the number of cells in that part. |
| `Counting.RectCount` | Trabalho.c:92-98 | The number of prime cells in a rectangle of rows and columns is at most the rectangle's number of cells. So the total is between 0 and ROW*COLUMN. |
| `Counting.RectCountSplit` | Trabalho.c:121-127 | Counting two adjacent row ranges separately and adding the results gives the count of their union. |
| `Reduction.ScheduleInRange` | Trabalho.c:149-154 | A merge order that names each of the W workers once has W entries, each a valid block index. |
| `Reduction.SumInOrderAppend` | Trabalho.c:129-131 | Merging one batch of partial counts and then another adds the sums of both batches. |
| `Reduction.RemoveOne` | Trabalho.c:129-131 | Taking one worker out of a merge order removes exactly its partial count from the sum. |
| `Reduction.SumInOrderPermutation` | Trabalho.c:129-131 | Two merge orders with the same workers give the same total. |
| `Reduction.SumInIndexOrder` | Trabalho.c:129-131 | Merging workers 0..n-1 in index order gives the sum of their partial counts. |
| `Reduction.MergeOrderIrrelevant` | Trabalho.c:129-131 | Whatever order the W workers merge in, `primes` ends as the sum of all W partial counts. |
| `Blocks.BlockCount` | Trabalho.c:119-127 | A block's count is at most its number of cells, taking its bounds as inclusive. |
| `Blocks.TilingWellPlaced` | Trabalho.c:121-123 | Every band of a row tiling can be scanned without reading outside the matrix. |
| `Blocks.TilingDisjoint` | Trabalho.c:144-145 | In a row tiling, an earlier band ends before a later band starts. So the bands are pairwise row-disjoint. |
| `Blocks.TilingCovers` | Trabalho.c:144-145 | In a row tiling, every row below the covered limit lies in some band. |
| `Blocks.TilingOwner` | Trabalho.c:144-145 | In a row tiling, every covered row lies in exactly one band. |
| `Blocks.TilingMisses` | Trabalho.c:144-145 | In a row tiling, no row at or beyond the covered limit lies in any band. |
| `Blocks.TilingInit` | Trabalho.c:142-148 | Dropping the last band leaves a tiling of the rows above that band. |
| `Blocks.BlockCountsPrefix` | Trabalho.c:142-149 | The partial counts of the first k blocks are the first k partial counts. |
| `Blocks.TilingCount` | Trabalho.c:119-131 | The partial counts of the bands of a row tiling add up to the count of the rows the tiling covers. |
| `Blocks.BlockOf` | Trabalho.c:144-147 | Block `i` of the `Block` struct (Trabalho.c:104-109) is `R/W` rows high and spans columns `0..C-1`; for `i < W` its rows satisfy `0 <= start_row <= end_row + 1 <= W*(R/W) <= R`. |
| `Blocks.BandWithin` | Trabalho.c:144-145 | Band `i` ends no lower than it starts, and for `i < W` it ends within the first `W` bands. |
| `Blocks.Partitioning` | Trabalho.c:142-148 | There are exactly W blocks, and entry `i` is block `i` as the loop builds it. |
| `Blocks.Partition` | Trabalho.c:142-148 | The loop builds exactly those W blocks. They are contiguous, full-width and in bounds, and they tile rows `[0, W*(R/W))`. When W divides R they tile every row. |
| `Blocks.PartitionIsTiling` | Trabalho.c:144-147 | The partitioner's blocks form a row tiling of `[0, W*(R/W))`: contiguous (`end_row(i) + 1 == start_row(i+1)`), full-width, and `0 <= start_row <= end_row + 1 <= W*(R/W) <= R`, so every non-empty block lies inside `[0, R-1]` (when R < W every block is the empty band `0..-1`). When W divides R, `W*(R/W) == R`. |
| `Blocks.RemainderRowsSkipped` | Trabalho.c:144-145 | No block contains any row from `W*(R/W)` up to `R-1`. |
| `Blocks.FiveRowsTwoWorkers` | Trabalho.c:144-145 | With R = 5 and W = 2 the blocks are rows 0..1 and 2..3, and row 4 is in neither. The corrected blocks are rows 0..1 and 2..4. |
| `Blocks.CorrectedPartitionIsTiling` | Trabalho.c:144-147 | For every W >= 1, the corrected blocks tile every row `[0, R)`. |
| `Blocks.CorrectedPartitionCount` | Trabalho.c:138-157 | For every W >= 1, the partial counts of the corrected blocks add up to the serial count of the whole matrix. |
| `Benchmark.ScanBlock` | Trabalho.c:119-127 | `local_primes` equals the number of prime cells in the block's inclusive rows `start_row..end_row` and columns `start_column..end_column`. |
| `Benchmark.UniformRowCount` | Trabalho.c:93-97 | In a row whose cells all hold `v`, the count is every cell if `v` is prime and none otherwise. |
| `Benchmark.UniformMatrixCount` | Trabalho.c:92-98 | In a matrix whose cells all hold `v`, the count is every cell if `v` is prime and none otherwise. |
| `Benchmark.ParallelMatchesSerial` | Trabalho.c:138-157 | For any merge order, the merged total is the count of rows `[0, W*(R/W))`. When W divides R it equals the serial count over the whole matrix. |
| `Benchmark.ParallelMissesRemainder` | Trabalho.c:144-145 | The serial count equals the merged parallel total plus the primes in the leftover rows `[W*(R/W), R)`. |
| `Benchmark.FiveSevensTwoWorkers` | Trabalho.c:144-145 | A 5x1 matrix of sevens with two workers: the serial count is 5, the parallel count as written is 4, and with the corrected blocks it is 5. |
| `Benchmark.UniformScenarios` | Trabalho.c:138-157 | A 4x4 matrix of 7s with 2 workers merges to 16. A 4x4 matrix of 4s with 4 workers merges to 0. |
| `Benchmark.CoveredBound` | Trabalho.c:138-157 | The whole-matrix count is the count of the covered rows plus the count of the leftover rows. The covered count is at most ROW*COLUMN. |
| `Benchmark.PrimeCounter.constructor` | Trabalho.c:39-40 | The counter starts at 0 and the matrix is the one supplied. |
| `Benchmark.PrimeCounter.Serial` | Trabalho.c:89-100 | `primes` ends as the number of prime cells in `[0,R) x [0,C)`, within `0..R*C`. Only the counter changes; the matrix does not. |
| `Benchmark.PrimeCounter.Worker` | Trabalho.c:111-136 | A null block leaves `primes` unchanged. Otherwise the block's prime count is added to `primes` exactly once, and nothing else changes. |
| `Benchmark.PrimeCounter.Parallel` | Trabalho.c:138-157 | Whatever the merge order, `primes` ends as the count of rows `[0, W*(R/W))`, within `0..R*C`. When W divides R it equals the serial count. |
| `Benchmark.PrimeCounter.SerialThenParallel` | Trabalho.c:183-197 | Running serial and then parallel, as `main` does: the serial result is the whole-matrix count; the parallel result, which `primes` still holds at the end, is the count of rows `[0, W*(R/W))`. So it never exceeds the serial one, and the two are equal when W divides R. |

## Findings

| source | as written | input that shows it | evidently intended | confidence | as-written member | corrected member |
|---|---|---|---|---|---|---|
| Trabalho.c:145 | Every block ends at `(i+1)*(ROW/NUM_THREADS)-1`, the last block included. | ROW = 5, NUM_THREADS = 2: the blocks cover rows 0..3 and row 4 is never scanned. A matrix with a prime in row 4 then gets a parallel count one lower than the serial count. | The last block ends at row ROW-1, so that every row is scanned and parallel equals serial for every thread count. | not executed; the defect is latent with the shipped ROW = 10000, NUM_THREADS = 2 | `Benchmark.FiveSevensTwoWorkers` | `Blocks.CorrectedPartitionCount` |

`Benchmark.PrimeCounter.Parallel` keeps the partition as written, because it
models the code. The corrected partition (`Blocks.CorrectedPartitioning`) goes
through the same tiling lemmas. For it, the merged total equals the serial
count for every W >= 1, with no divisibility condition.

## Left out

- `CreateMatrix` (allocation and `rand()` filling) is not modelled. The matrix is an `array2<int>` that the caller supplies and no method writes.
- Threads, `pthread_create`/`pthread_join` and the two mutexes are not modelled. The workers run one after another, in a caller-given order, and each merge is one step. `mutex1` is never used in the source.
- The block loop in `parallel` starts each thread as soon as its block is built. The model builds all blocks first and then runs the workers. These are the same, because blocks do not depend on the counter.
- `Primality.IsPrime`: the floating-point test `divisor <= sqrt(n)` is modelled as the integer test `divisor * divisor <= n`. The two agree for the non-negative values the program generates (below RANGE = 32000).
- All integers are unbounded. 32-bit overflow does not occur at the shipped sizes (at most 10^8 cells) and is not modelled.
- The result of `isPrime` is kept as the int 0/1. The C truth test `if (isPrime(...))` is modelled as `!= 0`.
- A null block cannot reach a worker in the source, because `parallel` writes through the pointer first. `Benchmark.PrimeCounter.Worker` still models the null check.
- Timing (`clock()`, speedup), every `printf`, `free` and `cleanup` are not modelled: they are measurement, output and memory release.
