/** The cache-blocked kernel: three loops over tile origins (i, j, k) stepping
    by the block size, and inside each tile three loops over (ii, jj, kk) that
    stop at the clipped tile end. Each loop level is one method whose contract
    says which cells of C it adds which partial dot product to. */
module Blocked {
  import opened RowMajor
  import opened Products
  import opened Tiling

  /** The kk loop: C[ii][jj] += A[ii][kk] * B[kk][jj] for kk in the k-tile.
      Only cell (ii, jj) changes, and it gains the tile's partial dot product. */
  method AccumulateCell(A: seq<int>, B: seq<int>, C: seq<int>, n: nat, bs: nat, ii: int, jj: int, k: int)
    returns (C': seq<int>)
    requires IsMatrix(A, n) && IsMatrix(B, n) && IsMatrix(C, n)
    requires bs > 0 && 0 <= ii < n && 0 <= jj < n && 0 <= k < n
    ensures IsMatrix(C', n)
    ensures forall r, c :: 0 <= r < n && 0 <= c < n ==>
      At(C', n, r, c) == At(C, n, r, c)
        + (if r == ii && c == jj then Dot(A, B, n, r, c, k, k, TileEnd(k, bs, n) - k) else 0)
  {
    C' := C;
    var kk := k;
    assert Dot(A, B, n, ii, jj, k, k, 0) == 0;
    while kk < TileEnd(k, bs, n)
      invariant k <= kk <= TileEnd(k, bs, n)
      invariant IsMatrix(C', n)
      invariant forall r, c :: 0 <= r < n && 0 <= c < n ==>
        At(C', n, r, c) == At(C, n, r, c) + (if r == ii && c == jj then Dot(A, B, n, r, c, k, k, kk - k) else 0)
    {
      C' := Store(C', n, ii, jj, At(C', n, ii, jj) + At(A, n, ii, kk) * At(B, n, kk, jj));
      kk := kk + 1;
    }
  }

  /** The jj loop: row ii of the (j, k) tile pair. Cells (ii, jj) with jj in
      the j-tile gain the k-tile's partial dot product; nothing else changes. */
  method TileRow(A: seq<int>, B: seq<int>, C: seq<int>, n: nat, bs: nat, ii: int, j: int, k: int)
    returns (C': seq<int>)
    requires IsMatrix(A, n) && IsMatrix(B, n) && IsMatrix(C, n)
    requires bs > 0 && 0 <= ii < n && 0 <= j < n && 0 <= k < n
    ensures IsMatrix(C', n)
    ensures forall r, c :: 0 <= r < n && 0 <= c < n ==>
      At(C', n, r, c) == At(C, n, r, c)
        + (if r == ii && InTile(c, j, bs, n) then Dot(A, B, n, r, c, k, k, TileEnd(k, bs, n) - k) else 0)
  {
    C' := C;
    var jj := j;
    while jj < TileEnd(j, bs, n)
      invariant j <= jj <= TileEnd(j, bs, n)
      invariant IsMatrix(C', n)
      invariant forall r, c :: 0 <= r < n && 0 <= c < n ==>
        At(C', n, r, c) == At(C, n, r, c)
          + (if r == ii && j <= c < jj then Dot(A, B, n, r, c, k, k, TileEnd(k, bs, n) - k) else 0)
    {
      C' := AccumulateCell(A, B, C', n, bs, ii, jj, k);
      jj := jj + 1;
    }
  }

  /** The ii loop: one (i, j, k) tile. Every cell of the i-tile × j-tile block
      gains the k-tile's partial dot product; nothing else changes. */
  method Tile(A: seq<int>, B: seq<int>, C: seq<int>, n: nat, bs: nat, i: int, j: int, k: int)
    returns (C': seq<int>)
    requires IsMatrix(A, n) && IsMatrix(B, n) && IsMatrix(C, n)
    requires bs > 0 && 0 <= i < n && 0 <= j < n && 0 <= k < n
    ensures IsMatrix(C', n)
    ensures forall r, c :: 0 <= r < n && 0 <= c < n ==>
      At(C', n, r, c) == At(C, n, r, c)
        + (if InTile(r, i, bs, n) && InTile(c, j, bs, n) then Dot(A, B, n, r, c, k, k, TileEnd(k, bs, n) - k) else 0)
  {
    C' := C;
    var ii := i;
    while ii < TileEnd(i, bs, n)
      invariant i <= ii <= TileEnd(i, bs, n)
      invariant IsMatrix(C', n)
      invariant forall r, c :: 0 <= r < n && 0 <= c < n ==>
        At(C', n, r, c) == At(C, n, r, c)
          + (if i <= r < ii && InTile(c, j, bs, n) then Dot(A, B, n, r, c, k, k, TileEnd(k, bs, n) - k) else 0)
    {
      C' := TileRow(A, B, C', n, bs, ii, j, k);
      ii := ii + 1;
    }
  }

  /** The k loop over tile origins for one (i, j) block. The clipped k-tiles
      follow each other without gap or overlap, so every cell of the block
      gains its complete entry of A·B; nothing else changes. */
  method TileColumn(A: seq<int>, B: seq<int>, C: seq<int>, n: nat, bs: nat, i: int, j: int)
    returns (C': seq<int>)
    requires IsMatrix(A, n) && IsMatrix(B, n) && IsMatrix(C, n)
    requires bs > 0 && 0 <= i < n && 0 <= j < n
    ensures IsMatrix(C', n)
    ensures forall r, c :: 0 <= r < n && 0 <= c < n ==>
      At(C', n, r, c) == At(C, n, r, c)
        + (if InTile(r, i, bs, n) && InTile(c, j, bs, n) then Entry(A, B, n, r, c) else 0)
  {
    C' := C;
    var k := 0;
    while k < n
      invariant 0 <= k
      invariant IsMatrix(C', n)
      invariant forall r, c :: 0 <= r < n && 0 <= c < n ==>
        At(C', n, r, c) == At(C, n, r, c)
          + (if InTile(r, i, bs, n) && InTile(c, j, bs, n) then Dot(A, B, n, r, c, 0, 0, Min(k, n)) else 0)
      decreases n - k
    {
      forall r, c | 0 <= r < n && 0 <= c < n {
        DotSplit(A, B, n, r, c, 0, 0, k, TileEnd(k, bs, n) - k);
      }
      C' := Tile(A, B, C', n, bs, i, j, k);
      k := k + bs;
    }
  }

  /** The j loop over tile origins for one row band: the band's rows
      [i, min(i + bs, n)) gain their complete entries of A·B, every other row
      is untouched. The parallel worker runs this same loop nest. */
  method RowBand(A: seq<int>, B: seq<int>, C: seq<int>, n: nat, bs: nat, i: int)
    returns (C': seq<int>)
    requires IsMatrix(A, n) && IsMatrix(B, n) && IsMatrix(C, n)
    requires bs > 0 && 0 <= i < n
    ensures IsMatrix(C', n)
    ensures forall r, c :: 0 <= r < n && 0 <= c < n ==>
      At(C', n, r, c) == At(C, n, r, c) + (if InTile(r, i, bs, n) then Entry(A, B, n, r, c) else 0)
  {
    C' := C;
    var j := 0;
    while j < n
      invariant 0 <= j
      invariant IsMatrix(C', n)
      invariant forall r, c :: 0 <= r < n && 0 <= c < n ==>
        At(C', n, r, c) == At(C, n, r, c) + (if InTile(r, i, bs, n) && c < j then Entry(A, B, n, r, c) else 0)
      decreases n - j
    {
      C' := TileColumn(A, B, C', n, bs, i, j);
      j := j + bs;
    }
  }

  /** blockedMatrixMultiply: the i loop over row-band origins. Every cell gains
      its entry of A·B exactly once, so C' is C + A·B, and A·B itself (the
      naive kernel's result) when C starts at zero, for every block size and
      whether or not it divides n. */
  method BlockedMultiply(A: seq<int>, B: seq<int>, C: seq<int>, n: nat, bs: nat)
    returns (C': seq<int>)
    requires IsMatrix(A, n) && IsMatrix(B, n) && IsMatrix(C, n)
    requires bs > 0
    ensures IsMatrix(C', n)
    ensures forall r, c :: 0 <= r < n && 0 <= c < n ==> At(C', n, r, c) == At(C, n, r, c) + Entry(A, B, n, r, c)
    ensures C' == Plus(C, Product(A, B, n), n)
    ensures C == Zero(n) ==> C' == Product(A, B, n)
  {
    C' := C;
    var i := 0;
    while i < n
      invariant 0 <= i
      invariant IsMatrix(C', n)
      invariant forall r, c :: 0 <= r < n && 0 <= c < n ==>
        At(C', n, r, c) == At(C, n, r, c) + (if r < i then Entry(A, B, n, r, c) else 0)
      decreases n - i
    {
      C' := RowBand(A, B, C', n, bs, i);
      i := i + bs;
    }
    SameCells(C', Plus(C, Product(A, B, n), n), n);
    if C == Zero(n) {
      PlusZero(Product(A, B, n), n);
    }
  }
}
