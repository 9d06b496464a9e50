/** Row-major storage of an n-by-n matrix in one flat buffer of n*n cells.
    The buffer is a value (`seq<int>`): a kernel takes the output matrix and
    returns its new contents instead of writing through a pointer. */
module RowMajor {
  import opened Arith

  /** A buffer holds an n-by-n matrix when it has exactly n*n cells. */
  predicate IsMatrix(m: seq<int>, n: nat) {
    |m| == n * n
  }

  /** The offset `access` computes for cell (row, col): row*n + col, which
      lies inside the buffer. */
  function Access(row: int, col: int, n: int): (off: nat)
    requires 0 <= row < n && 0 <= col < n
    ensures off < n * n
  {
    OffsetFacts(row, col, n);
    row * n + col
  }

  /** The offset of a cell decodes back to the cell: division by n gives the
      row and the remainder the column. */
  lemma AccessDecode(row: int, col: int, n: int)
    requires 0 <= row < n && 0 <= col < n
    ensures Access(row, col, n) / n == row && Access(row, col, n) % n == col
  {
    OffsetFacts(row, col, n);
  }

  /** `AccessDecode` for every cell at once. */
  lemma AccessDecodeAll(n: int)
    ensures forall r, c :: 0 <= r < n && 0 <= c < n ==> Access(r, c, n) / n == r && Access(r, c, n) % n == c
  {
    forall r, c | 0 <= r < n && 0 <= c < n
      ensures Access(r, c, n) / n == r && Access(r, c, n) % n == c
    {
      AccessDecode(r, c, n);
    }
  }

  /** Two distinct cells never share an offset. */
  lemma AccessInjective(row: int, col: int, n: int)
    requires 0 <= row < n && 0 <= col < n
    ensures forall r, c :: 0 <= r < n && 0 <= c < n && Access(r, c, n) == Access(row, col, n) ==> r == row && c == col
  {
    forall r, c | 0 <= r < n && 0 <= c < n && Access(r, c, n) == Access(row, col, n)
      ensures r == row && c == col
    {
      AccessDecode(r, c, n);
      AccessDecode(row, col, n);
    }
  }

  /** The value stored at cell (row, col). */
  function At(m: seq<int>, n: nat, row: int, col: int): int
    requires IsMatrix(m, n)
    requires 0 <= row < n && 0 <= col < n
  {
    m[Access(row, col, n)]
  }

  /** The buffer after `m[access(row, col, n)] = v`: cell (row, col) holds v
      and every other cell keeps its value. */
  function Store(m: seq<int>, n: nat, row: int, col: int, v: int): (m': seq<int>)
    requires IsMatrix(m, n)
    requires 0 <= row < n && 0 <= col < n
    ensures IsMatrix(m', n)
    ensures forall r, c :: 0 <= r < n && 0 <= c < n ==>
      At(m', n, r, c) == if r == row && c == col then v else At(m, n, r, c)
  {
    AccessInjective(row, col, n);
    m[Access(row, col, n) := v]
  }

  lemma OffsetFacts(row: int, col: int, n: int)
    requires 0 <= row < n && 0 <= col < n
    ensures 0 <= row * n + col < n * n
    ensures (row * n + col) / n == row && (row * n + col) % n == col
  {
    OffsetBound(row, col, n);
    DivModUnique(row * n + col, n, row, col);
  }

  lemma OffsetBound(row: int, col: int, n: int)
    requires 0 <= row < n && 0 <= col < n
    ensures 0 <= row * n + col < n * n
  {
    var rest := n - row - 1;
    assert row * n >= 0 && rest * n >= 0;
    assert n * n == row * n + rest * n + n by {
      assert n == row + rest + 1;
    }
  }

  /** Every offset of the buffer is the address of the cell it decodes to:
      together with `AccessDecode`, the n*n cells and the n*n
      offsets are in one-to-one correspondence. */
  lemma AccessOnto(off: int, n: nat)
    requires 0 <= off < n * n
    ensures 0 <= off / n < n && 0 <= off % n < n
    ensures Access(off / n, off % n, n) == off
  {
    assert 0 <= off / n < n by {
      if off / n >= n {
        MulNoShrink(n, off / n);
      }
    }
  }

  /** Two buffers that agree on every cell are the same buffer. */
  lemma {:induction false} SameCells(m1: seq<int>, m2: seq<int>, n: nat)
    requires IsMatrix(m1, n) && IsMatrix(m2, n)
    requires forall r, c :: 0 <= r < n && 0 <= c < n ==> At(m1, n, r, c) == At(m2, n, r, c)
    ensures m1 == m2
  {
    forall off | 0 <= off < n * n
      ensures m1[off] == m2[off]
    {
      AccessOnto(off, n);
      assert At(m1, n, off / n, off % n) == At(m2, n, off / n, off % n);
    }
  }
}
