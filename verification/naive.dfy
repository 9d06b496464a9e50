/** The reference kernel: a plain i/j/k triple loop that computes each cell's
    dot product in a local accumulator and then assigns it. */
module Naive {
  import opened RowMajor
  import opened Products

  /** naiveMatrixMultiply. Every cell of C is assigned, never accumulated, so
      the result is A·B whatever C held before the call. */
  method NaiveMultiply(A: seq<int>, B: seq<int>, C: seq<int>, n: nat) returns (C': seq<int>)
    requires IsMatrix(A, n) && IsMatrix(B, n) && IsMatrix(C, n)
    ensures IsMatrix(C', n)
    ensures forall i, j :: 0 <= i < n && 0 <= j < n ==> At(C', n, i, j) == Entry(A, B, n, i, j)
    ensures C' == Product(A, B, n)
  {
    C' := C;
    var i := 0;
    while i < n
      invariant 0 <= i <= n
      invariant IsMatrix(C', n)
      invariant forall r, c :: 0 <= r < i && 0 <= c < n ==> At(C', n, r, c) == Entry(A, B, n, r, c)
    {
      var j := 0;
      while j < n
        invariant 0 <= j <= n
        invariant IsMatrix(C', n)
        invariant forall r, c :: 0 <= r < i && 0 <= c < n ==> At(C', n, r, c) == Entry(A, B, n, r, c)
        invariant forall c :: 0 <= c < j ==> At(C', n, i, c) == Entry(A, B, n, i, c)
      {
        var sum := 0;
        var k := 0;
        while k < n
          invariant 0 <= k <= n
          invariant sum == Dot(A, B, n, i, j, 0, 0, k)
        {
          sum := sum + At(A, n, i, k) * At(B, n, k, j);
          k := k + 1;
        }
        C' := Store(C', n, i, j, sum);
        j := j + 1;
      }
      i := i + 1;
    }
    SameCells(C', Product(A, B, n), n);
  }
}
