/** The reference meaning of every kernel: dot products of a row of A with a
    column of B, and the full product A·B, in exact integer arithmetic. */
module Products {
  import opened RowMajor

  /** Σ_{t < len} A[i][ka+t] * B[kb+t][j], summed in ascending t.
      With ka == kb == 0 and len == n this is entry (i, j) of A·B; the other
      arguments select the k-range of one tile or one recursive window. */
  function Dot(A: seq<int>, B: seq<int>, n: nat, i: int, j: int, ka: int, kb: int, len: nat): int
    requires IsMatrix(A, n) && IsMatrix(B, n)
    requires 0 <= i < n && 0 <= j < n
    requires 0 <= ka && ka + len <= n && 0 <= kb && kb + len <= n
    decreases len
  {
    if len == 0 then 0
    else Dot(A, B, n, i, j, ka, kb, len - 1) + At(A, n, i, ka + len - 1) * At(B, n, kb + len - 1, j)
  }

  /** A k-range can be cut anywhere: the dot product over len1 + len2 terms is
      the dot product over the first len1 plus the one over the next len2. */
  lemma {:induction false} DotSplit(A: seq<int>, B: seq<int>, n: nat, i: int, j: int,
                                    ka: int, kb: int, len1: nat, len2: nat)
    requires IsMatrix(A, n) && IsMatrix(B, n)
    requires 0 <= i < n && 0 <= j < n
    requires 0 <= ka && ka + len1 + len2 <= n && 0 <= kb && kb + len1 + len2 <= n
    ensures Dot(A, B, n, i, j, ka, kb, len1 + len2)
         == Dot(A, B, n, i, j, ka, kb, len1) + Dot(A, B, n, i, j, ka + len1, kb + len1, len2)
    decreases len2
  {
    if len2 > 0 {
      DotSplit(A, B, n, i, j, ka, kb, len1, len2 - 1);
    }
  }

  /** Entry (i, j) of A·B. */
  function Entry(A: seq<int>, B: seq<int>, n: nat, i: int, j: int): int
    requires IsMatrix(A, n) && IsMatrix(B, n)
    requires 0 <= i < n && 0 <= j < n
  {
    Dot(A, B, n, i, j, 0, 0, n)
  }

  /** The product A·B as a row-major buffer. */
  function Product(A: seq<int>, B: seq<int>, n: nat): (P: seq<int>)
    requires IsMatrix(A, n) && IsMatrix(B, n)
    ensures IsMatrix(P, n)
    ensures forall i, j :: 0 <= i < n && 0 <= j < n ==> At(P, n, i, j) == Entry(A, B, n, i, j)
  {
    var P := seq(n * n, off requires 0 <= off < n * n => (AccessOnto(off, n); Entry(A, B, n, off / n, off % n)));
    AccessDecodeAll(n);
    P
  }

  /** Cell-wise sum of two n-by-n buffers: what an accumulating kernel leaves
      in C when it adds a product into it. */
  function Plus(X: seq<int>, Y: seq<int>, n: nat): (S: seq<int>)
    requires IsMatrix(X, n) && IsMatrix(Y, n)
    ensures IsMatrix(S, n)
    ensures forall i, j :: 0 <= i < n && 0 <= j < n ==> At(S, n, i, j) == At(X, n, i, j) + At(Y, n, i, j)
  {
    seq(n * n, off requires 0 <= off < n * n => X[off] + Y[off])
  }

  /** The all-zero n-by-n buffer, as the harness fills the outputs. */
  function Zero(n: nat): (Z: seq<int>)
    ensures IsMatrix(Z, n)
    ensures forall i, j :: 0 <= i < n && 0 <= j < n ==> At(Z, n, i, j) == 0
  {
    seq(n * n, off => 0)
  }

  /** The n-by-n identity matrix. */
  function Identity(n: nat): (I: seq<int>)
    ensures IsMatrix(I, n)
    ensures forall i, j :: 0 <= i < n && 0 <= j < n ==> At(I, n, i, j) == if i == j then 1 else 0
  {
    AccessDecodeAll(n);
    seq(n * n, off requires 0 <= off < n * n => if off / n == off % n then 1 else 0)
  }

  /** Adding the zero matrix changes nothing. */
  lemma PlusZero(X: seq<int>, n: nat)
    requires IsMatrix(X, n)
    ensures Plus(X, Zero(n), n) == X && Plus(Zero(n), X, n) == X
  {
    SameCells(Plus(X, Zero(n), n), X, n);
    SameCells(Plus(Zero(n), X, n), X, n);
  }

  /** Against column j of the identity, a row's dot product picks out its
      entry j once the range has passed j, and is 0 before. */
  lemma {:induction false} DotIdentityColumn(A: seq<int>, n: nat, i: int, j: int, len: nat)
    requires IsMatrix(A, n)
    requires 0 <= i < n && 0 <= j < n && len <= n
    ensures Dot(A, Identity(n), n, i, j, 0, 0, len) == if j < len then At(A, n, i, j) else 0
    decreases len
  {
    if len > 0 {
      DotIdentityColumn(A, n, i, j, len - 1);
    }
  }

  /** Against row i of the identity, a column's dot product picks out its
      entry i once the range has passed i, and is 0 before. */
  lemma {:induction false} DotIdentityRow(B: seq<int>, n: nat, i: int, j: int, len: nat)
    requires IsMatrix(B, n)
    requires 0 <= i < n && 0 <= j < n && len <= n
    ensures Dot(Identity(n), B, n, i, j, 0, 0, len) == if i < len then At(B, n, i, j) else 0
    decreases len
  {
    if len > 0 {
      DotIdentityRow(B, n, i, j, len - 1);
    }
  }

  /** Against a zero operand every dot product vanishes. */
  lemma {:induction false} DotZero(A: seq<int>, n: nat, i: int, j: int, len: nat)
    requires IsMatrix(A, n)
    requires 0 <= i < n && 0 <= j < n && len <= n
    ensures Dot(A, Zero(n), n, i, j, 0, 0, len) == 0
    ensures Dot(Zero(n), A, n, i, j, 0, 0, len) == 0
    decreases len
  {
    if len > 0 {
      DotZero(A, n, i, j, len - 1);
    }
  }

  /** A·I == A and I·B == B. */
  lemma ProductIdentity(A: seq<int>, n: nat)
    requires IsMatrix(A, n)
    ensures Product(A, Identity(n), n) == A
    ensures Product(Identity(n), A, n) == A
  {
    forall i, j | 0 <= i < n && 0 <= j < n
      ensures At(Product(A, Identity(n), n), n, i, j) == At(A, n, i, j)
      ensures At(Product(Identity(n), A, n), n, i, j) == At(A, n, i, j)
    {
      DotIdentityColumn(A, n, i, j, n);
      DotIdentityRow(A, n, i, j, n);
    }
    SameCells(Product(A, Identity(n), n), A, n);
    SameCells(Product(Identity(n), A, n), A, n);
  }

  /** A·0 == 0 and 0·A == 0. */
  lemma ProductZero(A: seq<int>, n: nat)
    requires IsMatrix(A, n)
    ensures Product(A, Zero(n), n) == Zero(n)
    ensures Product(Zero(n), A, n) == Zero(n)
  {
    forall i, j | 0 <= i < n && 0 <= j < n
      ensures At(Product(A, Zero(n), n), n, i, j) == 0
      ensures At(Product(Zero(n), A, n), n, i, j) == 0
    {
      DotZero(A, n, i, j, n);
    }
    SameCells(Product(A, Zero(n), n), Zero(n), n);
    SameCells(Product(Zero(n), A, n), Zero(n), n);
  }
}
