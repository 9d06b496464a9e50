# Matrix-Multiplication-Cache kernels in Dafny

A model of the four square matrix multiplication kernels of
Matrix-Multiplication-Cache (`main.cpp`) and the index arithmetic they share.
The kernels are the naive triple loop, the cache-blocked six-loop kernel, the
multi-threaded blocked kernel and the recursive divide-and-conquer kernel. The
model proves what each of them leaves in the output matrix C.

- Matrices are n-by-n buffers in row-major order: a `seq<int>` of n*n cells.
  `RowMajor.Access` is `access`, and `RowMajor.At` / `RowMajor.Store` read and
  write one cell through it. A kernel takes C and returns its new contents (C').
- The reference meaning is `Products.Dot` (Σ A[i][ka+t]·B[kb+t][j]), plus
  `Products.Entry` and `Products.Product` (A·B). Entries are exact integers, so
  "equals the naive result" is an equality.
- `BLOCK_SIZE`, `BASE_CASE`, `N` and the worker count are parameters
  (`bs`/`blockSize`, `baseCase`, `n`, `T`/`numThreads`).
- Modules follow the program:
  - `RowMajor`: addressing.
  - `Products`: the specification.
  - `Naive`.
  - `Tiling`: clipped tiles.
  - `Blocked`: one method per loop level.
  - `Parallel`: the worker partition and the workers run in sequence.
  - `Recursive`: the kernel as written.
  - `CorrectedRecursive`: see Findings.
  - `Benchmark`: the four runs in `main`.
  - `Arith`: division facts.
- Parallel workers run one after another, in any order given by a schedule.
  Their row sets are pairwise disjoint, so the order does not matter. That
  disjointness is also why the real threads need no locking.
- Recursive kernel, as written:
  - `Recursive.Kept` says which relative indices of a window survive the
    truncating halvings `half = size / 2` down to the base case.
  - `Recursive.Contribution` is what one call adds to a cell: the dot product
    restricted to the kept k-indices, and only for cells whose row and column
    are kept.
  - When every halving is exact (`Recursive.Exact`), this is the full window
    product.
  - When a size above the base case is odd, the window's last row, column and
    k-index are dropped.
- Every cell access is checked against the preconditions of `At`/`Store`. So
  the verified kernels never address outside `[0, n*n)`. For the recursive
  kernel this holds whenever each window offset plus `size` is at most n
  (`Recursive.Fits`).

## Model

| member | source | states |
|---|---|---|
| RowMajor.Access | main.cpp:23-25 | the offset of an in-range cell (row, col) lies inside the n*n buffer |
| RowMajor.AccessDecode | main.cpp:23-25 | the offset gives back the row by division by n and the column by the remainder |
| RowMajor.AccessInjective | main.cpp:23-25 | two different cells never share an offset |
| RowMajor.AccessOnto | main.cpp:23-25 | every offset in [0, n*n) is the address of the cell it decodes to, so cells and offsets correspond one to one |
| RowMajor.Store | main.cpp:46 | writing a value through `access` sets exactly the addressed cell and leaves every other cell as it was |
| RowMajor.SameCells | main.cpp:23-25 | two buffers that agree on every cell addressed through `access` are equal |
| Products.DotSplit | main.cpp:53-56 | a dot product over len1 + len2 k-indices is the one over the first len1 plus the one over the next len2, so k-ranges can be summed piecewise |
| Products.ProductIdentity | main.cpp:40-48 | multiplying by the identity on either side gives the matrix back |
| Products.ProductZero | main.cpp:40-48 | multiplying by the zero matrix on either side gives the zero matrix |
| Naive.NaiveMultiply | main.cpp:40-48 | every cell ends up as its full dot product, whatever C held before, because each cell is assigned and not accumulated; C' is A·B |
| Tiling.TileEnd | main.cpp:54-56 | the clipped tile end min(origin + bs, n) is at most n and at most origin + bs, equals one of them, and lies past origin when the tile starts inside the matrix |
| Tiling.TilesPartition | main.cpp:51-56 | every index in [0, n) lies in the clipped tile of exactly one visited origin, also when bs does not divide n |
| Blocked.AccumulateCell | main.cpp:56-57 | the kk loop adds to cell (ii, jj) the partial dot product over the clipped k-tile and changes no other cell |
| Blocked.TileRow | main.cpp:55-57 | the jj loop adds that partial dot product to the cells of row ii inside the j-tile and to nothing else |
| Blocked.Tile | main.cpp:54-57 | one (i, j, k) tile adds the k-tile's partial dot product to every cell of the i-tile × j-tile block and nothing elsewhere |
| Blocked.TileColumn | main.cpp:53-57 | the consecutive clipped k-tiles add up to the complete entry of A·B for every cell of the (i, j) block |
| Blocked.RowBand | main.cpp:52-57 | the rows of the band at i gain their complete entries of A·B and every other row is untouched |
| Blocked.BlockedMultiply | main.cpp:50-58 | every cell gains its entry of A·B exactly once, so C' is C + A·B for any positive block size, and A·B (the naive result) when C starts at zero |
| Parallel.WorkerOriginOwned | main.cpp:64 | every origin worker tid's loop visits is a band origin below n whose band is dealt to tid |
| Parallel.OwnedOriginVisited | main.cpp:64 | every band origin below n dealt to tid is visited by tid's loop |
| Parallel.WorkerOriginsByOwner | main.cpp:64 | worker tid's origins are exactly the band origins below n dealt to tid |
| Parallel.RowBandPartition | main.cpp:64 | the origin sets of distinct workers are disjoint and together cover every band origin below n; a worker with tid*bs >= n gets none |
| Parallel.OwnerBelowStart | main.cpp:64 | no row before worker tid's first origin tid*bs belongs to tid |
| Parallel.StrideStep | main.cpp:64 | between one of tid's origins i and the next origin i + bs*T, a row is tid's exactly when it lies in the first band |
| Parallel.StrideNext | main.cpp:64 | the next origin of tid's stride is again a band origin dealt to tid |
| Parallel.BandRows | main.cpp:64-70 | after one stride step, tid's rows below the next origin are tid's rows below i plus the band at i |
| Parallel.WorkerBand | main.cpp:64-70 | one iteration of the worker's stride loop keeps the invariant: every row tid owns below the next origin holds its entries of A·B, every other row holds its old value |
| Parallel.Worker | main.cpp:63-71 | a worker adds their entries of A·B to exactly the rows it owns and leaves every other row alone; a worker with tid*bs >= n changes nothing |
| Parallel.RunWorkers | main.cpp:73-77 | running every worker once, in any order, gives C + A·B, the blocked kernel's result; with no worker C is unchanged |
| Parallel.ParallelBlockedMultiply | main.cpp:60-78 | with at least one worker C' is C + A·B, and A·B when C starts at zero; with a worker count of 0 C is unchanged |
| Recursive.SubCallsFit | main.cpp:90-102 | each of the eight calls' A, B and C windows lies inside the buffers whenever the parent's do, so no recursive access leaves [0, n*n) |
| Recursive.KeptSplit | main.cpp:90 | above the base case an index in the lower half survives at `size` exactly when it survives at half, and one in the upper half exactly when its offset from half does |
| Recursive.KeptDotTail | main.cpp:90-102 | for an odd size above the base case the last k-index adds nothing |
| Recursive.KeptDotHalves | main.cpp:92-93 | the restricted dot product over a window above the base case is the sum of the two half-size ones over the two k-halves |
| Recursive.QuadrantPair | main.cpp:92-102 | for a cell in C quadrant (oi, oj), the call over the left half of A's columns and top half of B's rows plus the call over the right and bottom halves add what the parent call adds |
| Recursive.QuadrantCase | main.cpp:92-102 | calls 2q and 2q+1 issued by the source both target C quadrant q and together add the parent's share; the other six calls add nothing to that cell |
| Recursive.OutsideQuadrants | main.cpp:90-102 | a cell outside the 2*half window gets nothing from the call and nothing from any of its eight sub-calls |
| Recursive.ContributionSplit | main.cpp:90-102 | the eight recursive calls together add to every cell exactly what the parent call adds |
| Recursive.ExactKeepsAll | main.cpp:82-90 | when every halving down to the base case is exact, every index of the window survives |
| Recursive.KeptDotAll | main.cpp:82-90 | when every index survives, the restricted dot product is the full one |
| Recursive.ExactContribution | main.cpp:82-102 | when every halving is exact, a call adds the full window product entry to each cell of its C window and nothing elsewhere |
| Recursive.AddDot | main.cpp:85-86 | the base case's k loop adds the dot product of the A row and B column to one C cell and changes nothing else |
| Recursive.AddRow | main.cpp:84-86 | the base case's j loop adds to each cell of one window row its dot product and changes nothing else |
| Recursive.BaseCase | main.cpp:82-87 | the base case adds to every cell of the C window its window product entry over all `size` k-indices and changes nothing outside the window |
| Recursive.RecursiveMultiply | main.cpp:80-103 | for every size, each cell gains exactly its restricted dot product. Cells outside the reached part of the window (the 2*half window above the base case) are unchanged. An odd size above the base case leaves the last row and column alone. When every halving is exact, C' is C plus the window product |
| Recursive.Unreached | main.cpp:90-102 | a call adds nothing outside the part of its window it reaches, and nothing to the last row and column of an odd window above the base case |
| Recursive.OddSizeCounterexample | main.cpp:90-102 | with n = 3, BASE_CASE = 1 and all-ones A and B, the top-level call adds nothing to cell (2, 2), whose entry of A·B is 3 |
| CorrectedRecursive.SubCallsFit | main.cpp:90-102 | corrected split: the eight calls' windows of shapes d/2 and d - d/2 lie inside the buffers whenever the parent's do |
| CorrectedRecursive.SubCallsSmaller | main.cpp:90-102 | corrected split: above the base case every sub-call is strictly smaller, so the recursion ends |
| CorrectedRecursive.PairCoversCell | main.cpp:92-102 | corrected split: two calls into the same C part over the lower and upper inner ranges add what the parent adds to a cell of that part |
| CorrectedRecursive.QuadrantCase | main.cpp:92-102 | corrected split: calls 2q and 2q+1 target C part q and together add the parent's share, and the other six add nothing there |
| CorrectedRecursive.GainSplit | main.cpp:90-102 | corrected split: the eight calls together add to every cell exactly what the parent adds |
| CorrectedRecursive.ShapeBaseCase | main.cpp:82-87 | the base case on a rectangular window adds every C-window cell's full window product entry and nothing elsewhere |
| CorrectedRecursive.RowHalf | main.cpp:92-102 | corrected split: four consecutive calls into the top or bottom half of C's rows add their four window products |
| CorrectedRecursive.CorrectedMultiply | main.cpp:80-103 | corrected kernel: every cell of the C window gains its full window product entry for every shape, odd or even, and nothing outside changes |
| CorrectedRecursive.CorrectedProduct | main.cpp:161 | corrected kernel: a top-level call on a zeroed C gives A·B for every n |
| Benchmark.RunAll | main.cpp:125-163 | on zero-filled outputs: naive gives A·B; blocked gives the naive result; parallel gives it with at least one worker; recursive gives each cell's restricted dot product, and the naive result when every halving of n is exact |

## Left out

- `initializeMatrix` (main.cpp:31-38): random initialisation. A and B are parameters, so every property holds for all operands.
- `allocate_aligned_matrix`, `aligned_free` and the alignment macros (main.cpp:9-16, 27-29): buffers are immutable values, and C' is returned rather than written in place.
- `parsing_input` (main.cpp:105-123): it wraps the `kaizen.h` argument parser, which is not part of this model. `N`, `BLOCK_SIZE` and `BASE_CASE` are parameters.
  - The blocked and parallel kernels require a positive block size, which parsing guarantees.
  - `Recursive` accepts any base case.
  - `CorrectedRecursive` requires a positive base case, which parsing guarantees too.
- `std::thread::hardware_concurrency()` (main.cpp:127) is the parameter `numThreads`. It may be 0, and then no worker runs.
- Timing and the report (main.cpp:144-178): clocks and output are not modelled.
- Threads (main.cpp:73-77): workers run sequentially, in any order given by a schedule.
  - Memory interleaving is not modelled.
  - The disjointness of the workers' rows (`Parallel.RowBandPartition`, `Parallel.Worker`) is what makes every interleaving equivalent.
- Floating point: entries are unbounded integers, so rounding and the summation-order differences between kernels are not modelled.
- Integer width: `row * n + col`, `n * n` and `i += BLOCK_SIZE * num_threads` are computed in unbounded integers. 32-bit overflow for large N is not modelled.
- Blocked.BlockedMultiply: "every (ii, jj, kk) triple is visited exactly once" is stated through its consequence, not as a trace of visited triples. Each cell gains each term A[ii][kk]·B[kk][jj] of its entry exactly once. `Tiling.TilesPartition` states the per-dimension exactly-once fact.

## Findings

| source | as written | input that shows it | evidently intended | confidence | as-written member | corrected member |
|---|---|---|---|---|---|---|
| main.cpp:90-102 | `half = size / 2` truncates, and the eight calls cover only the first 2*half rows, columns and k-indices of an odd window above `BASE_CASE` | n = 3, `BASE_CASE` = 1, A = B = all ones, C zero-filled: C[2][2] stays 0 while entry (2, 2) of A·B is 3 | the recursive result equals the naive product for every n, e.g. by splitting each dimension into d/2 and d - d/2 | high; not executed | Recursive.OddSizeCounterexample | CorrectedRecursive.CorrectedProduct |

- `Recursive.RecursiveMultiply` states the as-written behaviour for every size.
- `CorrectedRecursive.CorrectedMultiply` splits each of the three dimensions into d/2 and d - d/2, so sub-problems are rectangular. It is proved to add the full window product for every shape.
- `Benchmark.RunAll` models `main` as it stands, so it calls the as-written kernel.
