/** The part of the benchmark's main routine that runs the four kernels on the
    same operands: four zero-filled output buffers, one per kernel, and the
    recursive kernel started on the whole matrix with all offsets at zero.
    Allocation, random initialisation, timing and the report are not modelled. */
module Benchmark {
  import opened RowMajor
  import opened Products
  import Naive
  import Blocked
  import Parallel
  import Recursive

  /** The outputs of the four kernels. The naive, blocked and (given at least
      one worker) parallel kernels all produce A·B; with no worker the parallel
      output stays zero. The recursive output is, cell by cell, the product
      restricted to the indices that survive the halvings of n, which is A·B
      whenever every halving of n is exact. */
  method RunAll(A: seq<int>, B: seq<int>, n: nat, blockSize: nat, baseCase: nat, numThreads: nat)
    returns (naive: seq<int>, blocked: seq<int>, parallel: seq<int>, recursive: seq<int>)
    requires IsMatrix(A, n) && IsMatrix(B, n)
    requires blockSize > 0
    ensures naive == Product(A, B, n)
    ensures blocked == naive
    ensures numThreads > 0 ==> parallel == naive
    ensures numThreads == 0 ==> parallel == Zero(n)
    ensures IsMatrix(recursive, n)
    ensures forall r, c :: 0 <= r < n && 0 <= c < n ==>
      At(recursive, n, r, c) == Recursive.Contribution(A, B, n, Recursive.Window(0, 0, 0, 0, 0, 0), n, baseCase, r, c)
    ensures Recursive.Exact(n, baseCase) ==> recursive == naive
  {
    naive := Naive.NaiveMultiply(A, B, Zero(n), n);
    blocked := Blocked.BlockedMultiply(A, B, Zero(n), n, blockSize);
    parallel := Parallel.ParallelBlockedMultiply(A, B, Zero(n), n, blockSize, numThreads);
    var origin := Recursive.Window(0, 0, 0, 0, 0, 0);
    recursive := Recursive.RecursiveMultiply(A, B, Zero(n), n, baseCase, origin, n);
    if Recursive.Exact(n, baseCase) {
      forall r, c | 0 <= r < n && 0 <= c < n
        ensures At(recursive, n, r, c) == At(naive, n, r, c)
      {
        assert Recursive.InWindow(origin, n, r, c);
      }
      SameCells(recursive, naive, n);
    }
  }
}
