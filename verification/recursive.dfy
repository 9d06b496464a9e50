/** The recursive divide-and-conquer kernel. A call multiplies a size-by-size
    window of A (at rowA, colA) by one of B (at rowB, colB) and adds the result
    into a window of C (at rowC, colC). Above the base-case threshold it halves
    `size` with truncating division and recurses into eight quadrant products.

    When a size above the threshold is odd, the quadrants cover only the first
    2*(size/2) indices, so the last row, column and k-index of the window are
    dropped. The contract of `RecursiveMultiply` states exactly what is
    computed for every size: the indices that survive all the halvings
    (`Kept`) and only those. When every halving is exact (`Exact`) this is the
    whole window and the kernel adds the window product. */
module Recursive {
  import opened RowMajor
  import opened Products

  /** The six offsets of one call: the corners of its A, B and C windows. */
  datatype Window = Window(rowA: int, colA: int, rowB: int, colB: int, rowC: int, colC: int)

  /** All three windows of edge `size` lie inside the n-by-n buffers. */
  predicate Fits(w: Window, size: nat, n: nat) {
    && 0 <= w.rowA && w.rowA + size <= n && 0 <= w.colA && w.colA + size <= n
    && 0 <= w.rowB && w.rowB + size <= n && 0 <= w.colB && w.colB + size <= n
    && 0 <= w.rowC && w.rowC + size <= n && 0 <= w.colC && w.colC + size <= n
  }

  /** Call p multiplies by the upper half of the k-range: the odd calls. */
  predicate UpperInner(p: int) {
    p == 1 || p == 3 || p == 5 || p == 7
  }

  /** Call p writes the right half of C's columns: the calls into the
      top-right and bottom-right quadrants. */
  predicate UpperCols(p: int) {
    p == 2 || p == 3 || p == 6 || p == 7
  }

  /** The window of the p-th recursive call, p in [0, 8), in the order the
      calls are issued. Calls 2q and 2q+1 both target C quadrant q (top-left,
      top-right, bottom-left, bottom-right); the first multiplies the left half
      of A's columns by the top half of B's rows, the second the right half by
      the bottom half. Calls 4 to 7 work on the bottom half of A's and C's
      rows. */
  function SubCall(w: Window, half: int, p: int): Window
    requires 0 <= p < 8
  {
    var oi := if p < 4 then 0 else half;
    var ok := if UpperInner(p) then half else 0;
    var oj := if UpperCols(p) then half else 0;
    Window(w.rowA + oi, w.colA + ok, w.rowB + ok, w.colB + oj, w.rowC + oi, w.colC + oj)
  }

  /** Relative index x of a window of edge `size` survives the truncating
      halvings down to the base case. */
  predicate Kept(x: int, size: nat, baseCase: nat)
    decreases size
  {
    && 0 <= x < size
    && (size <= baseCase
        || (var half := size / 2;
            (x < half && Kept(x, half, baseCase)) || (half <= x < 2 * half && Kept(x - half, half, baseCase))))
  }

  /** Every halving from `size` down to the base case is exact. */
  predicate Exact(size: nat, baseCase: nat)
    decreases size
  {
    size <= baseCase || (size % 2 == 0 && Exact(size / 2, baseCase))
  }

  /** How far into the window a call can write: the whole edge in the base
      case, the 2*half its quadrants cover otherwise. */
  function Reach(size: nat, baseCase: nat): nat {
    if size <= baseCase then size else 2 * (size / 2)
  }

  /** Σ_{t < len, Kept(t)} A[i][ka+t] * B[kb+t][j]: the dot product restricted
      to the k-indices that survive the halvings. */
  function KeptDot(A: seq<int>, B: seq<int>, n: nat, i: int, j: int, ka: int, kb: int,
                   size: nat, baseCase: nat, len: nat): int
    requires IsMatrix(A, n) && IsMatrix(B, n)
    requires 0 <= i < n && 0 <= j < n
    requires 0 <= ka && ka + len <= n && 0 <= kb && kb + len <= n
    decreases len
  {
    if len == 0 then 0
    else
      KeptDot(A, B, n, i, j, ka, kb, size, baseCase, len - 1)
        + (if Kept(len - 1, size, baseCase) then At(A, n, i, ka + len - 1) * At(B, n, kb + len - 1, j) else 0)
  }

  /** What one call with window w and edge `size` adds to cell (r, c) of C:
      nothing unless both relative indices survive the halvings, else the
      restricted dot product of the matching A row and B column. */
  function Contribution(A: seq<int>, B: seq<int>, n: nat, w: Window, size: nat, baseCase: nat, r: int, c: int): int
    requires IsMatrix(A, n) && IsMatrix(B, n) && Fits(w, size, n)
    requires 0 <= r < n && 0 <= c < n
  {
    var i, j := r - w.rowC, c - w.colC;
    if Kept(i, size, baseCase) && Kept(j, size, baseCase)
    then KeptDot(A, B, n, w.rowA + i, w.colB + j, w.colA, w.rowB, size, baseCase, size)
    else 0
  }

  /** Cell (r, c) lies in the C window of edge `size`. */
  predicate InWindow(w: Window, size: nat, r: int, c: int) {
    w.rowC <= r < w.rowC + size && w.colC <= c < w.colC + size
  }

  /** The full window product entry for a C cell inside the window:
      Σ_{k < len} A[rowA+i][colA+k] * B[rowB+k][colB+j]. */
  function WindowDot(A: seq<int>, B: seq<int>, n: nat, w: Window, size: nat, r: int, c: int, len: nat): int
    requires IsMatrix(A, n) && IsMatrix(B, n) && Fits(w, size, n)
    requires InWindow(w, size, r, c) && len <= size
  {
    Dot(A, B, n, w.rowA + (r - w.rowC), w.colB + (c - w.colC), w.colA, w.rowB, len)
  }

  // ---------------------------------------------------------------------------
  // The restricted dot product over the two halves of the k-range

  /** Below half, the indices kept at `size` are those kept at half. */
  lemma {:induction false} KeptDotLow(A: seq<int>, B: seq<int>, n: nat, i: int, j: int, ka: int, kb: int,
                                      size: nat, baseCase: nat, len: nat)
    requires IsMatrix(A, n) && IsMatrix(B, n)
    requires 0 <= i < n && 0 <= j < n
    requires size > baseCase && len <= size / 2
    requires 0 <= ka && ka + len <= n && 0 <= kb && kb + len <= n
    ensures KeptDot(A, B, n, i, j, ka, kb, size, baseCase, len)
         == KeptDot(A, B, n, i, j, ka, kb, size / 2, baseCase, len)
    decreases len
  {
    if len > 0 {
      KeptDotLow(A, B, n, i, j, ka, kb, size, baseCase, len - 1);
    }
  }

  /** In [half, 2*half) the indices kept at `size` are half plus those kept at
      half, so that stretch is the second quadrant's product. */
  lemma {:induction false} KeptDotHigh(A: seq<int>, B: seq<int>, n: nat, i: int, j: int, ka: int, kb: int,
                                       size: nat, baseCase: nat, len: nat)
    requires IsMatrix(A, n) && IsMatrix(B, n)
    requires 0 <= i < n && 0 <= j < n
    requires size > baseCase && size / 2 <= len <= 2 * (size / 2)
    requires 0 <= ka && ka + len <= n && 0 <= kb && kb + len <= n
    ensures KeptDot(A, B, n, i, j, ka, kb, size, baseCase, len)
         == KeptDot(A, B, n, i, j, ka, kb, size / 2, baseCase, size / 2)
          + KeptDot(A, B, n, i, j, ka + size / 2, kb + size / 2, size / 2, baseCase, len - size / 2)
    decreases len
  {
    var half := size / 2;
    if len == half {
      KeptDotLow(A, B, n, i, j, ka, kb, size, baseCase, len);
    } else {
      KeptDotHigh(A, B, n, i, j, ka, kb, size, baseCase, len - 1);
      assert ka + half + (len - half - 1) == ka + len - 1;
    }
  }

  /** Past 2*half nothing is kept: an odd size's last k-index contributes
      nothing. */
  lemma {:induction false} KeptDotTail(A: seq<int>, B: seq<int>, n: nat, i: int, j: int, ka: int, kb: int,
                                       size: nat, baseCase: nat, len: nat)
    requires IsMatrix(A, n) && IsMatrix(B, n)
    requires 0 <= i < n && 0 <= j < n
    requires size > baseCase && 2 * (size / 2) <= len <= size
    requires 0 <= ka && ka + len <= n && 0 <= kb && kb + len <= n
    ensures KeptDot(A, B, n, i, j, ka, kb, size, baseCase, len)
         == KeptDot(A, B, n, i, j, ka, kb, size, baseCase, 2 * (size / 2))
    decreases len
  {
    if len > 2 * (size / 2) {
      KeptDotTail(A, B, n, i, j, ka, kb, size, baseCase, len - 1);
    }
  }

  /** The restricted dot product over a window of edge `size` above the base
      case is the sum of the two half-size ones over the two k-halves, which
      is what the two calls into each C quadrant add. */
  lemma KeptDotHalves(A: seq<int>, B: seq<int>, n: nat, i: int, j: int, ka: int, kb: int,
                      size: nat, baseCase: nat)
    requires IsMatrix(A, n) && IsMatrix(B, n)
    requires 0 <= i < n && 0 <= j < n
    requires size > baseCase
    requires 0 <= ka && ka + size <= n && 0 <= kb && kb + size <= n
    ensures KeptDot(A, B, n, i, j, ka, kb, size, baseCase, size)
         == KeptDot(A, B, n, i, j, ka, kb, size / 2, baseCase, size / 2)
          + KeptDot(A, B, n, i, j, ka + size / 2, kb + size / 2, size / 2, baseCase, size / 2)
  {
    KeptDotTail(A, B, n, i, j, ka, kb, size, baseCase, size);
    KeptDotHigh(A, B, n, i, j, ka, kb, size, baseCase, 2 * (size / 2));
  }

  /** Each sub-call's windows fit wherever the parent's do. */
  lemma SubCallsFit(w: Window, size: nat, n: nat)
    requires Fits(w, size, n)
    ensures forall p :: 0 <= p < 8 ==> Fits(SubCall(w, size / 2, p), size / 2, n)
  {
  }

  /** Above the base case, an index in the lower half is kept at `size`
      exactly when it is kept at half, and one in the upper half exactly when
      its offset from half is. */
  lemma KeptSplit(x: int, size: nat, baseCase: nat, offset: int)
    requires size > baseCase
    requires offset == 0 || offset == size / 2
    requires offset <= x < offset + size / 2
    ensures Kept(x, size, baseCase) <==> Kept(x - offset, size / 2, baseCase)
  {
  }

  /** What a call adds to cell (r, c), with the cell's A row ai and B column
      bj named: the restricted dot product when both relative indices are
      kept. */
  lemma ContributionAt(A: seq<int>, B: seq<int>, n: nat, w: Window, size: nat, baseCase: nat,
                       r: int, c: int, ai: int, bj: int)
    requires IsMatrix(A, n) && IsMatrix(B, n) && Fits(w, size, n)
    requires 0 <= r < n && 0 <= c < n
    requires ai == w.rowA + (r - w.rowC) && bj == w.colB + (c - w.colC)
    requires Kept(r - w.rowC, size, baseCase) && Kept(c - w.colC, size, baseCase)
    ensures 0 <= ai < n && 0 <= bj < n
    ensures Contribution(A, B, n, w, size, baseCase, r, c) == KeptDot(A, B, n, ai, bj, w.colA, w.rowB, size, baseCase, size)
  {
  }

  /** A cell in the C quadrant at (oi, oj) receives, from one call of edge
      `size`, exactly what the two calls into that quadrant add: w0 multiplies
      the left half of A's columns by the top half of B's rows, w1 the right
      half by the bottom half. */
  lemma QuadrantPair(A: seq<int>, B: seq<int>, n: nat, w: Window, size: nat, baseCase: nat,
                     r: int, c: int, oi: int, oj: int, w0: Window, w1: Window)
    requires IsMatrix(A, n) && IsMatrix(B, n) && Fits(w, size, n)
    requires 0 <= r < n && 0 <= c < n
    requires size > baseCase
    requires oi == 0 || oi == size / 2
    requires oj == 0 || oj == size / 2
    requires oi <= r - w.rowC < oi + size / 2 && oj <= c - w.colC < oj + size / 2
    requires Fits(w0, size / 2, n) && Fits(w1, size / 2, n)
    requires w0.rowA == w.rowA + oi && w0.rowC == w.rowC + oi && w0.colB == w.colB + oj && w0.colC == w.colC + oj
    requires w1.rowA == w.rowA + oi && w1.rowC == w.rowC + oi && w1.colB == w.colB + oj && w1.colC == w.colC + oj
    requires w0.colA == w.colA && w0.rowB == w.rowB
    requires w1.colA == w.colA + size / 2 && w1.rowB == w.rowB + size / 2
    ensures Contribution(A, B, n, w, size, baseCase, r, c)
         == Contribution(A, B, n, w0, size / 2, baseCase, r, c) + Contribution(A, B, n, w1, size / 2, baseCase, r, c)
  {
    var i, j := r - w.rowC, c - w.colC;
    var half := size / 2;
    assert r - w0.rowC == i - oi == r - w1.rowC && c - w0.colC == j - oj == c - w1.colC;
    KeptSplit(i, size, baseCase, oi);
    KeptSplit(j, size, baseCase, oj);
    if Kept(i, size, baseCase) && Kept(j, size, baseCase) {
      KeptPair(A, B, n, w, size, baseCase, r, c, w0, w1);
    } else {
      Dropped(A, B, n, w, size, baseCase, r, c);
      Dropped(A, B, n, w0, half, baseCase, r, c);
      Dropped(A, B, n, w1, half, baseCase, r, c);
    }
  }

  /** The kept case of QuadrantPair: the call's restricted dot product for
      the cell is the sum of the two half-size ones over the two k-halves. */
  lemma KeptPair(A: seq<int>, B: seq<int>, n: nat, w: Window, size: nat, baseCase: nat,
                 r: int, c: int, w0: Window, w1: Window)
    requires IsMatrix(A, n) && IsMatrix(B, n) && Fits(w, size, n)
    requires 0 <= r < n && 0 <= c < n
    requires size > baseCase
    requires Fits(w0, size / 2, n) && Fits(w1, size / 2, n)
    requires w0.rowA - w0.rowC == w.rowA - w.rowC == w1.rowA - w1.rowC
    requires w0.colB - w0.colC == w.colB - w.colC == w1.colB - w1.colC
    requires w0.colA == w.colA && w0.rowB == w.rowB
    requires w1.colA == w.colA + size / 2 && w1.rowB == w.rowB + size / 2
    requires Kept(r - w.rowC, size, baseCase) && Kept(c - w.colC, size, baseCase)
    requires Kept(r - w0.rowC, size / 2, baseCase) && Kept(c - w0.colC, size / 2, baseCase)
    requires Kept(r - w1.rowC, size / 2, baseCase) && Kept(c - w1.colC, size / 2, baseCase)
    ensures Contribution(A, B, n, w, size, baseCase, r, c)
         == Contribution(A, B, n, w0, size / 2, baseCase, r, c) + Contribution(A, B, n, w1, size / 2, baseCase, r, c)
  {
    var ai, bj := w.rowA + (r - w.rowC), w.colB + (c - w.colC);
    ContributionAt(A, B, n, w, size, baseCase, r, c, ai, bj);
    ContributionAt(A, B, n, w0, size / 2, baseCase, r, c, ai, bj);
    ContributionAt(A, B, n, w1, size / 2, baseCase, r, c, ai, bj);
    KeptDotHalves(A, B, n, ai, bj, w.colA, w.rowB, size, baseCase);
  }

  /** A call adds nothing to a cell whose row or column index it drops. */
  lemma Dropped(A: seq<int>, B: seq<int>, n: nat, w: Window, size: nat, baseCase: nat, r: int, c: int)
    requires IsMatrix(A, n) && IsMatrix(B, n) && Fits(w, size, n)
    requires 0 <= r < n && 0 <= c < n
    requires !Kept(r - w.rowC, size, baseCase) || !Kept(c - w.colC, size, baseCase)
    ensures Contribution(A, B, n, w, size, baseCase, r, c) == 0
  {
  }

  /** What the eight calls of a call with window w together add to cell
      (r, c), each with edge half. */
  function SubCallsTotal(A: seq<int>, B: seq<int>, n: nat, w: Window, half: nat, baseCase: nat, r: int, c: int): int
    requires IsMatrix(A, n) && IsMatrix(B, n)
    requires forall p :: 0 <= p < 8 ==> Fits(SubCall(w, half, p), half, n)
    requires 0 <= r < n && 0 <= c < n
  {
    Contribution(A, B, n, SubCall(w, half, 0), half, baseCase, r, c)
      + Contribution(A, B, n, SubCall(w, half, 1), half, baseCase, r, c)
      + Contribution(A, B, n, SubCall(w, half, 2), half, baseCase, r, c)
      + Contribution(A, B, n, SubCall(w, half, 3), half, baseCase, r, c)
      + Contribution(A, B, n, SubCall(w, half, 4), half, baseCase, r, c)
      + Contribution(A, B, n, SubCall(w, half, 5), half, baseCase, r, c)
      + Contribution(A, B, n, SubCall(w, half, 6), half, baseCase, r, c)
      + Contribution(A, B, n, SubCall(w, half, 7), half, baseCase, r, c)
  }

  /** A cell in the C quadrant that calls p and p+1 target (p even) gets its
      share from those two calls and nothing from the other six. */
  lemma QuadrantCase(A: seq<int>, B: seq<int>, n: nat, w: Window, size: nat, baseCase: nat,
                     r: int, c: int, p: int)
    requires IsMatrix(A, n) && IsMatrix(B, n) && Fits(w, size, n)
    requires 0 <= r < n && 0 <= c < n
    requires size > baseCase
    requires p == 0 || p == 2 || p == 4 || p == 6
    requires InWindow(SubCall(w, size / 2, p), size / 2, r, c)
    ensures forall q :: 0 <= q < 8 ==> Fits(SubCall(w, size / 2, q), size / 2, n)
    ensures Contribution(A, B, n, w, size, baseCase, r, c)
         == Contribution(A, B, n, SubCall(w, size / 2, p), size / 2, baseCase, r, c)
          + Contribution(A, B, n, SubCall(w, size / 2, p + 1), size / 2, baseCase, r, c)
    ensures forall q :: 0 <= q < 8 && q != p && q != p + 1 ==>
      Contribution(A, B, n, SubCall(w, size / 2, q), size / 2, baseCase, r, c) == 0
  {
    var half := size / 2;
    SubCallsFit(w, size, n);
    QuadrantPair(A, B, n, w, size, baseCase, r, c, if p < 4 then 0 else half, if UpperCols(p) then half else 0,
                 SubCall(w, half, p), SubCall(w, half, p + 1));
    Outside(A, B, n, w, half, baseCase, r, c, {0, 1, 2, 3, 4, 5, 6, 7} - {p, p + 1});
  }

  /** For a cell in a C quadrant, the eight calls together add what the one
      call adds. */
  lemma QuadrantTotal(A: seq<int>, B: seq<int>, n: nat, w: Window, size: nat, baseCase: nat,
                      r: int, c: int, p: int)
    requires IsMatrix(A, n) && IsMatrix(B, n) && Fits(w, size, n)
    requires 0 <= r < n && 0 <= c < n
    requires size > baseCase
    requires p == 0 || p == 2 || p == 4 || p == 6
    requires InWindow(SubCall(w, size / 2, p), size / 2, r, c)
    ensures forall q :: 0 <= q < 8 ==> Fits(SubCall(w, size / 2, q), size / 2, n)
    ensures Contribution(A, B, n, w, size, baseCase, r, c) == SubCallsTotal(A, B, n, w, size / 2, baseCase, r, c)
  {
    QuadrantCase(A, B, n, w, size, baseCase, r, c, p);
  }

  /** The eight calls together add exactly what one call of edge `size` adds:
      a cell outside every quadrant gets nothing from any of them, and a cell
      in C quadrant q gets the two k-half products from calls 2q and 2q+1 and
      nothing from the other six. */
  lemma ContributionSplit(A: seq<int>, B: seq<int>, n: nat, w: Window, size: nat, baseCase: nat, r: int, c: int)
    requires IsMatrix(A, n) && IsMatrix(B, n) && Fits(w, size, n)
    requires 0 <= r < n && 0 <= c < n
    requires size > baseCase
    ensures forall p :: 0 <= p < 8 ==> Fits(SubCall(w, size / 2, p), size / 2, n)
    ensures Contribution(A, B, n, w, size, baseCase, r, c) == SubCallsTotal(A, B, n, w, size / 2, baseCase, r, c)
  {
    var half := size / 2;
    var i, j := r - w.rowC, c - w.colC;
    SubCallsFit(w, size, n);
    if i < 0 || j < 0 || i >= 2 * half || j >= 2 * half {
      OutsideQuadrants(A, B, n, w, size, baseCase, r, c);
    } else if i < half && j < half {
      QuadrantTotal(A, B, n, w, size, baseCase, r, c, 0);
    } else if i < half {
      QuadrantTotal(A, B, n, w, size, baseCase, r, c, 2);
    } else if j < half {
      QuadrantTotal(A, B, n, w, size, baseCase, r, c, 4);
    } else {
      QuadrantTotal(A, B, n, w, size, baseCase, r, c, 6);
    }
  }

  /** A cell outside all four C quadrants gets nothing from the call nor
      from any of its eight sub-calls. */
  lemma OutsideQuadrants(A: seq<int>, B: seq<int>, n: nat, w: Window, size: nat, baseCase: nat, r: int, c: int)
    requires IsMatrix(A, n) && IsMatrix(B, n) && Fits(w, size, n)
    requires 0 <= r < n && 0 <= c < n
    requires size > baseCase
    requires !InWindow(w, 2 * (size / 2), r, c)
    ensures forall p :: 0 <= p < 8 ==> Fits(SubCall(w, size / 2, p), size / 2, n)
    ensures Contribution(A, B, n, w, size, baseCase, r, c) == 0 == SubCallsTotal(A, B, n, w, size / 2, baseCase, r, c)
  {
    SubCallsFit(w, size, n);
    Unreached(A, B, n, w, size, baseCase, r, c);
    Outside(A, B, n, w, size / 2, baseCase, r, c, {0, 1, 2, 3, 4, 5, 6, 7});
  }

  /** The calls in `calls` whose C windows miss cell (r, c) add nothing to it. */
  lemma Outside(A: seq<int>, B: seq<int>, n: nat, w: Window, half: nat, baseCase: nat, r: int, c: int, calls: set<int>)
    requires IsMatrix(A, n) && IsMatrix(B, n)
    requires 0 <= r < n && 0 <= c < n
    requires forall p :: p in calls ==> 0 <= p < 8 && Fits(SubCall(w, half, p), half, n)
    requires forall p :: p in calls ==> !InWindow(SubCall(w, half, p), half, r, c)
    ensures forall p :: p in calls ==> Contribution(A, B, n, SubCall(w, half, p), half, baseCase, r, c) == 0
  {
  }

  // ---------------------------------------------------------------------------
  // Exact halving: the kept indices are the whole window

  /** When every halving is exact, every index of the window survives. */
  lemma {:induction false} ExactKeepsAll(x: int, size: nat, baseCase: nat)
    requires Exact(size, baseCase)
    ensures Kept(x, size, baseCase) <==> 0 <= x < size
    decreases size
  {
    if size > baseCase {
      var half := size / 2;
      ExactKeepsAll(x, half, baseCase);
      ExactKeepsAll(x - half, half, baseCase);
    }
  }

  /** If every index below len is kept, the restricted dot product is the
      plain one. */
  lemma {:induction false} KeptDotAll(A: seq<int>, B: seq<int>, n: nat, i: int, j: int, ka: int, kb: int,
                                      size: nat, baseCase: nat, len: nat)
    requires IsMatrix(A, n) && IsMatrix(B, n)
    requires 0 <= i < n && 0 <= j < n
    requires 0 <= ka && ka + len <= n && 0 <= kb && kb + len <= n
    requires forall t :: 0 <= t < len ==> Kept(t, size, baseCase)
    ensures KeptDot(A, B, n, i, j, ka, kb, size, baseCase, len) == Dot(A, B, n, i, j, ka, kb, len)
    decreases len
  {
    if len > 0 {
      KeptDotAll(A, B, n, i, j, ka, kb, size, baseCase, len - 1);
    }
  }

  /** When every halving is exact, a call adds the full window product to
      every cell of its C window and nothing elsewhere. */
  lemma ExactContribution(A: seq<int>, B: seq<int>, n: nat, w: Window, size: nat, baseCase: nat, r: int, c: int)
    requires IsMatrix(A, n) && IsMatrix(B, n) && Fits(w, size, n)
    requires 0 <= r < n && 0 <= c < n
    requires Exact(size, baseCase)
    ensures Contribution(A, B, n, w, size, baseCase, r, c)
         == if InWindow(w, size, r, c) then WindowDot(A, B, n, w, size, r, c, size) else 0
  {
    ExactKeepsAll(r - w.rowC, size, baseCase);
    ExactKeepsAll(c - w.colC, size, baseCase);
    forall t | 0 <= t < size {
      ExactKeepsAll(t, size, baseCase);
    }
    if InWindow(w, size, r, c) {
      KeptDotAll(A, B, n, w.rowA + (r - w.rowC), w.colB + (c - w.colC), w.colA, w.rowB, size, baseCase, size);
    }
  }

  // ---------------------------------------------------------------------------
  // The kernel

  /** The base case's k loop for one cell: C[rc][cc] += A[ai][ka+k] *
      B[kb+k][bj] for k in [0, len). Only that cell changes, and it gains the
      dot product over the range. */
  method AddDot(A: seq<int>, B: seq<int>, C: seq<int>, n: nat, rc: int, cc: int,
                ai: int, bj: int, ka: int, kb: int, len: nat)
    returns (C': seq<int>)
    requires IsMatrix(A, n) && IsMatrix(B, n) && IsMatrix(C, n)
    requires 0 <= rc < n && 0 <= cc < n && 0 <= ai < n && 0 <= bj < n
    requires 0 <= ka && ka + len <= n && 0 <= kb && kb + len <= n
    ensures IsMatrix(C', n)
    ensures forall r, c :: 0 <= r < n && 0 <= c < n ==>
      At(C', n, r, c) == At(C, n, r, c) + (if r == rc && c == cc then Dot(A, B, n, ai, bj, ka, kb, len) else 0)
  {
    C' := C;
    var k := 0;
    assert Dot(A, B, n, ai, bj, ka, kb, 0) == 0;
    while k < len
      invariant 0 <= k <= len
      invariant IsMatrix(C', n)
      invariant forall r, c :: 0 <= r < n && 0 <= c < n ==>
        At(C', n, r, c) == At(C, n, r, c) + (if r == rc && c == cc then Dot(A, B, n, ai, bj, ka, kb, k) else 0)
    {
      C' := Store(C', n, rc, cc, At(C', n, rc, cc) + At(A, n, ai, ka + k) * At(B, n, kb + k, bj));
      k := k + 1;
    }
  }

  /** The base case's j loop for one row: cells (rc, cc + j), j in [0, cols),
      gain the dot product of A row ai with B column bj + j; nothing else
      changes. */
  method AddRow(A: seq<int>, B: seq<int>, C: seq<int>, n: nat, rc: int, cc: int, cols: nat,
                ai: int, bj: int, ka: int, kb: int, len: nat)
    returns (C': seq<int>)
    requires IsMatrix(A, n) && IsMatrix(B, n) && IsMatrix(C, n)
    requires 0 <= rc < n && 0 <= cc && cc + cols <= n && 0 <= ai < n && 0 <= bj && bj + cols <= n
    requires 0 <= ka && ka + len <= n && 0 <= kb && kb + len <= n
    ensures IsMatrix(C', n)
    ensures forall r, c :: 0 <= r < n && 0 <= c < n ==>
      At(C', n, r, c) == At(C, n, r, c)
        + (if r == rc && cc <= c < cc + cols then Dot(A, B, n, ai, bj + (c - cc), ka, kb, len) else 0)
  {
    C' := C;
    var j := 0;
    while j < cols
      invariant 0 <= j <= cols
      invariant IsMatrix(C', n)
      invariant forall r, c :: 0 <= r < n && 0 <= c < n ==>
        At(C', n, r, c) == At(C, n, r, c)
          + (if r == rc && cc <= c < cc + j then Dot(A, B, n, ai, bj + (c - cc), ka, kb, len) else 0)
    {
      C' := AddDot(A, B, C', n, rc, cc + j, ai, bj + j, ka, kb, len);
      j := j + 1;
    }
  }

  /** The base-case triple loop: every cell of the C window gains the full
      window product entry, accumulated k by k; nothing outside the window
      changes. */
  method BaseCase(A: seq<int>, B: seq<int>, C: seq<int>, n: nat, w: Window, size: nat)
    returns (C': seq<int>)
    requires IsMatrix(A, n) && IsMatrix(B, n) && IsMatrix(C, n)
    requires Fits(w, size, n)
    ensures IsMatrix(C', n)
    ensures forall r, c :: 0 <= r < n && 0 <= c < n ==>
      At(C', n, r, c) == At(C, n, r, c) + (if InWindow(w, size, r, c) then WindowDot(A, B, n, w, size, r, c, size) else 0)
  {
    C' := C;
    var i := 0;
    while i < size
      invariant 0 <= i <= size
      invariant IsMatrix(C', n)
      invariant forall r, c :: 0 <= r < n && 0 <= c < n ==>
        At(C', n, r, c) == At(C, n, r, c)
          + (if InWindow(w, size, r, c) && r < w.rowC + i then WindowDot(A, B, n, w, size, r, c, size) else 0)
    {
      C' := AddRow(A, B, C', n, w.rowC + i, w.colC, size, w.rowA + i, w.colB, w.colA, w.rowB, size);
      i := i + 1;
    }
  }

  /** recursiveMatrixMultiply. Every cell of C gains exactly its
      `Contribution`, the product restricted to the indices that survive the
      truncating halvings. Consequently only the first Reach(size) rows and
      columns of the C window can change; for an odd size above the base case
      the last row and column of the window are left as they were; and when
      every halving is exact the call adds the full window product A·B. All
      reads and writes stay inside the n-by-n buffers whenever each window
      fits. */
  method RecursiveMultiply(A: seq<int>, B: seq<int>, C: seq<int>, n: nat, baseCase: nat, w: Window, size: nat)
    returns (C': seq<int>)
    requires IsMatrix(A, n) && IsMatrix(B, n) && IsMatrix(C, n)
    requires Fits(w, size, n)
    ensures IsMatrix(C', n)
    ensures forall r, c :: 0 <= r < n && 0 <= c < n ==>
      At(C', n, r, c) == At(C, n, r, c) + Contribution(A, B, n, w, size, baseCase, r, c)
    ensures forall r, c :: 0 <= r < n && 0 <= c < n && !InWindow(w, Reach(size, baseCase), r, c) ==>
      At(C', n, r, c) == At(C, n, r, c)
    ensures baseCase < size && size % 2 == 1 ==>
      forall r, c :: 0 <= r < n && 0 <= c < n && (r == w.rowC + size - 1 || c == w.colC + size - 1) ==>
        At(C', n, r, c) == At(C, n, r, c)
    ensures Exact(size, baseCase) ==> forall r, c :: 0 <= r < n && 0 <= c < n ==>
      At(C', n, r, c) == At(C, n, r, c) + (if InWindow(w, size, r, c) then WindowDot(A, B, n, w, size, r, c, size) else 0)
    decreases size
  {
    if size <= baseCase {
      C' := BaseCase(A, B, C, n, w, size);
      forall r, c | 0 <= r < n && 0 <= c < n
        ensures At(C', n, r, c) == At(C, n, r, c) + Contribution(A, B, n, w, size, baseCase, r, c)
      {
        ExactContribution(A, B, n, w, size, baseCase, r, c);
      }
    } else {
      var half := size / 2;
      SubCallsFit(w, size, n);
      var C1 := RecursiveMultiply(A, B, C, n, baseCase, SubCall(w, half, 0), half);
      var C2 := RecursiveMultiply(A, B, C1, n, baseCase, SubCall(w, half, 1), half);
      var C3 := RecursiveMultiply(A, B, C2, n, baseCase, SubCall(w, half, 2), half);
      var C4 := RecursiveMultiply(A, B, C3, n, baseCase, SubCall(w, half, 3), half);
      var C5 := RecursiveMultiply(A, B, C4, n, baseCase, SubCall(w, half, 4), half);
      var C6 := RecursiveMultiply(A, B, C5, n, baseCase, SubCall(w, half, 5), half);
      var C7 := RecursiveMultiply(A, B, C6, n, baseCase, SubCall(w, half, 6), half);
      C' := RecursiveMultiply(A, B, C7, n, baseCase, SubCall(w, half, 7), half);
      forall r, c | 0 <= r < n && 0 <= c < n
        ensures At(C', n, r, c) == At(C, n, r, c) + Contribution(A, B, n, w, size, baseCase, r, c)
      {
        ContributionSplit(A, B, n, w, size, baseCase, r, c);
      }
    }
    forall r, c | 0 <= r < n && 0 <= c < n {
      Unreached(A, B, n, w, size, baseCase, r, c);
    }
    if Exact(size, baseCase) {
      forall r, c | 0 <= r < n && 0 <= c < n
        ensures At(C', n, r, c) == At(C, n, r, c)
          + (if InWindow(w, size, r, c) then WindowDot(A, B, n, w, size, r, c, size) else 0)
      {
        ExactContribution(A, B, n, w, size, baseCase, r, c);
      }
    }
  }

  /** A call adds nothing outside the part of its window it reaches; in
      particular, above the base case an odd size leaves the window's last
      row and last column alone. */
  lemma Unreached(A: seq<int>, B: seq<int>, n: nat, w: Window, size: nat, baseCase: nat, r: int, c: int)
    requires IsMatrix(A, n) && IsMatrix(B, n) && Fits(w, size, n)
    requires 0 <= r < n && 0 <= c < n
    ensures !InWindow(w, Reach(size, baseCase), r, c) ==> Contribution(A, B, n, w, size, baseCase, r, c) == 0
    ensures baseCase < size && size % 2 == 1 && (r == w.rowC + size - 1 || c == w.colC + size - 1) ==>
      Contribution(A, B, n, w, size, baseCase, r, c) == 0
  {
    if !Kept(r - w.rowC, size, baseCase) || !Kept(c - w.colC, size, baseCase) {
      Dropped(A, B, n, w, size, baseCase, r, c);
    }
  }

  /** The n-by-n matrix of ones. */
  function Ones(n: nat): (m: seq<int>)
    ensures IsMatrix(m, n)
    ensures forall i, j :: 0 <= i < n && 0 <= j < n ==> At(m, n, i, j) == 1
  {
    seq(n * n, _ => 1)
  }

  /** Against ones, a dot product counts its terms. */
  lemma {:induction false} DotOnes(n: nat, i: int, j: int, len: nat)
    requires 0 <= i < n && 0 <= j < n && len <= n
    ensures Dot(Ones(n), Ones(n), n, i, j, 0, 0, len) == len
    decreases len
  {
    if len > 0 {
      DotOnes(n, i, j, len - 1);
    }
  }

  /** The truncating halving loses cells: with n = size = 3 and a base case
      of 1, a top-level call on ones adds nothing to the corner cell (2, 2),
      so starting from a zero C the corner stays 0, while entry (2, 2) of the
      product is 3. */
  lemma OddSizeCounterexample()
    ensures !Kept(2, 3, 1)
    ensures Contribution(Ones(3), Ones(3), 3, Window(0, 0, 0, 0, 0, 0), 3, 1, 2, 2) == 0
    ensures Entry(Ones(3), Ones(3), 3, 2, 2) == 3
  {
    DotOnes(3, 2, 2, 3);
  }
}
