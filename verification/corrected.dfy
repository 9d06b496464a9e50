/** A corrected recursive kernel. Instead of halving one square edge with
    truncating division, each of the three dimensions of a (possibly
    rectangular) sub-problem is split into d/2 and d - d/2, so an odd edge
    loses nothing: every call adds the full window product, for every size. */
module CorrectedRecursive {
  import opened RowMajor
  import opened Products
  import opened Recursive

  /** Dimensions of a sub-problem: C gets a rows-by-cols window, summed over
      `inner` k-indices. */
  datatype Shape = Shape(rows: nat, inner: nat, cols: nat)

  /** The rows-by-inner A window, the inner-by-cols B window and the
      rows-by-cols C window all lie inside the n-by-n buffers. */
  predicate FitsShape(w: Window, s: Shape, n: nat) {
    && 0 <= w.rowA && w.rowA + s.rows <= n && 0 <= w.colA && w.colA + s.inner <= n
    && 0 <= w.rowB && w.rowB + s.inner <= n && 0 <= w.colB && w.colB + s.cols <= n
    && 0 <= w.rowC && w.rowC + s.rows <= n && 0 <= w.colC && w.colC + s.cols <= n
  }

  /** Cell (r, c) lies in the C window. */
  predicate InC(w: Window, s: Shape, r: int, c: int) {
    w.rowC <= r < w.rowC + s.rows && w.colC <= c < w.colC + s.cols
  }

  /** What a correct call adds to cell (r, c): the window product entry inside
      the C window, nothing outside it. */
  function Gain(A: seq<int>, B: seq<int>, n: nat, w: Window, s: Shape, r: int, c: int): int
    requires IsMatrix(A, n) && IsMatrix(B, n) && FitsShape(w, s, n)
    requires 0 <= r < n && 0 <= c < n
  {
    if InC(w, s, r, c)
    then Dot(A, B, n, w.rowA + (r - w.rowC), w.colB + (c - w.colC), w.colA, w.rowB, s.inner)
    else 0
  }

  /** The window of the p-th recursive call, p in [0, 8), in the order the
      calls are issued: calls 2q and 2q+1 both target C part q (top-left,
      top-right, bottom-left, bottom-right); the first multiplies by the lower
      part of the inner dimension, the second by the upper part. The lower
      part of a dimension d has d/2 indices, the upper part the other
      d - d/2. */
  function SubWindow(w: Window, s: Shape, p: int): Window
    requires 0 <= p < 8
  {
    var oi := if p < 4 then 0 else s.rows / 2;
    var ok := if UpperInner(p) then s.inner / 2 else 0;
    var oj := if UpperCols(p) then s.cols / 2 else 0;
    Window(w.rowA + oi, w.colA + ok, w.rowB + ok, w.colB + oj, w.rowC + oi, w.colC + oj)
  }

  /** The dimensions of the p-th recursive call. */
  function SubShape(s: Shape, p: int): Shape
    requires 0 <= p < 8
  {
    Shape(if p < 4 then s.rows / 2 else s.rows - s.rows / 2,
          if UpperInner(p) then s.inner - s.inner / 2 else s.inner / 2,
          if UpperCols(p) then s.cols - s.cols / 2 else s.cols / 2)
  }

  /** Every sub-call's windows fit wherever the parent's do. */
  lemma SubCallsFit(w: Window, s: Shape, n: nat)
    requires FitsShape(w, s, n)
    ensures forall p :: 0 <= p < 8 ==> FitsShape(SubWindow(w, s, p), SubShape(s, p), n)
  {
  }

  /** What the eight calls together add to cell (r, c). */
  function SubCallsGain(A: seq<int>, B: seq<int>, n: nat, w: Window, s: Shape, r: int, c: int): int
    requires IsMatrix(A, n) && IsMatrix(B, n)
    requires forall p :: 0 <= p < 8 ==> FitsShape(SubWindow(w, s, p), SubShape(s, p), n)
    requires 0 <= r < n && 0 <= c < n
  {
    Gain(A, B, n, SubWindow(w, s, 0), SubShape(s, 0), r, c)
      + Gain(A, B, n, SubWindow(w, s, 1), SubShape(s, 1), r, c)
      + Gain(A, B, n, SubWindow(w, s, 2), SubShape(s, 2), r, c)
      + Gain(A, B, n, SubWindow(w, s, 3), SubShape(s, 3), r, c)
      + Gain(A, B, n, SubWindow(w, s, 4), SubShape(s, 4), r, c)
      + Gain(A, B, n, SubWindow(w, s, 5), SubShape(s, 5), r, c)
      + Gain(A, B, n, SubWindow(w, s, 6), SubShape(s, 6), r, c)
      + Gain(A, B, n, SubWindow(w, s, 7), SubShape(s, 7), r, c)
  }

  /** Inside its C window a correct call adds the dot product of the cell's
      A row and B column over its inner range. */
  lemma GainInside(A: seq<int>, B: seq<int>, n: nat, w: Window, s: Shape, r: int, c: int, ai: int, bj: int)
    requires IsMatrix(A, n) && IsMatrix(B, n) && FitsShape(w, s, n)
    requires 0 <= r < n && 0 <= c < n
    requires InC(w, s, r, c)
    requires ai == w.rowA + (r - w.rowC) && bj == w.colB + (c - w.colC)
    ensures 0 <= ai < n && 0 <= bj < n
    ensures Gain(A, B, n, w, s, r, c) == Dot(A, B, n, ai, bj, w.colA, w.rowB, s.inner)
  {
  }

  /** Two calls w0 and w1 that target the same C part as w, with the same
      row and column alignment, one over the first h and one over the
      remaining indices of w's inner range, together add to a cell of that part exactly
      what w adds. */
  lemma PairCoversCell(A: seq<int>, B: seq<int>, n: nat, w: Window, s: Shape, r: int, c: int,
                       h: nat, w0: Window, s0: Shape, w1: Window, s1: Shape)
    requires IsMatrix(A, n) && IsMatrix(B, n)
    requires FitsShape(w, s, n) && FitsShape(w0, s0, n) && FitsShape(w1, s1, n)
    requires 0 <= r < n && 0 <= c < n
    requires InC(w, s, r, c) && InC(w0, s0, r, c) && InC(w1, s1, r, c)
    requires w0.rowA - w0.rowC == w.rowA - w.rowC && w0.colB - w0.colC == w.colB - w.colC
    requires w1.rowA - w1.rowC == w.rowA - w.rowC && w1.colB - w1.colC == w.colB - w.colC
    requires w0.colA == w.colA && w0.rowB == w.rowB && s0.inner == h
    requires w1.colA == w.colA + h && w1.rowB == w.rowB + h && s1.inner == s.inner - h
    ensures Gain(A, B, n, w, s, r, c) == Gain(A, B, n, w0, s0, r, c) + Gain(A, B, n, w1, s1, r, c)
  {
    var ai, bj := w.rowA + (r - w.rowC), w.colB + (c - w.colC);
    GainInside(A, B, n, w, s, r, c, ai, bj);
    GainInside(A, B, n, w0, s0, r, c, ai, bj);
    GainInside(A, B, n, w1, s1, r, c, ai, bj);
    DotSplit(A, B, n, ai, bj, w.colA, w.rowB, h, s.inner - h);
  }

  /** The calls in `calls` whose C windows miss cell (r, c) add nothing to it. */
  lemma Outside(A: seq<int>, B: seq<int>, n: nat, w: Window, s: Shape, r: int, c: int, calls: set<int>)
    requires IsMatrix(A, n) && IsMatrix(B, n)
    requires 0 <= r < n && 0 <= c < n
    requires forall p :: p in calls ==> 0 <= p < 8 && FitsShape(SubWindow(w, s, p), SubShape(s, p), n)
    requires forall p :: p in calls ==> !InC(SubWindow(w, s, p), SubShape(s, p), r, c)
    ensures forall p :: p in calls ==> Gain(A, B, n, SubWindow(w, s, p), SubShape(s, p), r, c) == 0
  {
  }

  /** A cell outside the C window gets nothing from the call nor from any of
      its eight sub-calls. */
  lemma OutsideWindow(A: seq<int>, B: seq<int>, n: nat, w: Window, s: Shape, r: int, c: int)
    requires IsMatrix(A, n) && IsMatrix(B, n) && FitsShape(w, s, n)
    requires 0 <= r < n && 0 <= c < n
    requires !InC(w, s, r, c)
    ensures forall p :: 0 <= p < 8 ==> FitsShape(SubWindow(w, s, p), SubShape(s, p), n)
    ensures Gain(A, B, n, w, s, r, c) == 0 == SubCallsGain(A, B, n, w, s, r, c)
  {
    SubCallsFit(w, s, n);
    Outside(A, B, n, w, s, r, c, {0, 1, 2, 3, 4, 5, 6, 7});
  }

  /** A cell in the C part that calls p and p+1 target (p even) gets its
      share from those two calls and nothing from the other six. */
  lemma QuadrantCase(A: seq<int>, B: seq<int>, n: nat, w: Window, s: Shape, r: int, c: int, p: int)
    requires IsMatrix(A, n) && IsMatrix(B, n) && FitsShape(w, s, n)
    requires 0 <= r < n && 0 <= c < n
    requires p == 0 || p == 2 || p == 4 || p == 6
    requires InC(SubWindow(w, s, p), SubShape(s, p), r, c)
    ensures forall q :: 0 <= q < 8 ==> FitsShape(SubWindow(w, s, q), SubShape(s, q), n)
    ensures Gain(A, B, n, w, s, r, c)
         == Gain(A, B, n, SubWindow(w, s, p), SubShape(s, p), r, c)
          + Gain(A, B, n, SubWindow(w, s, p + 1), SubShape(s, p + 1), r, c)
    ensures forall q :: 0 <= q < 8 && q != p && q != p + 1 ==> Gain(A, B, n, SubWindow(w, s, q), SubShape(s, q), r, c) == 0
  {
    SubCallsFit(w, s, n);
    PairCoversCell(A, B, n, w, s, r, c, s.inner / 2, SubWindow(w, s, p), SubShape(s, p), SubWindow(w, s, p + 1), SubShape(s, p + 1));
    Outside(A, B, n, w, s, r, c, {0, 1, 2, 3, 4, 5, 6, 7} - {p, p + 1});
  }

  /** For a cell in a C part, the eight calls together add what the one call
      adds. */
  lemma PartTotal(A: seq<int>, B: seq<int>, n: nat, w: Window, s: Shape, r: int, c: int, p: int)
    requires IsMatrix(A, n) && IsMatrix(B, n) && FitsShape(w, s, n)
    requires 0 <= r < n && 0 <= c < n
    requires p == 0 || p == 2 || p == 4 || p == 6
    requires InC(SubWindow(w, s, p), SubShape(s, p), r, c)
    ensures forall q :: 0 <= q < 8 ==> FitsShape(SubWindow(w, s, q), SubShape(s, q), n)
    ensures Gain(A, B, n, w, s, r, c) == SubCallsGain(A, B, n, w, s, r, c)
  {
    QuadrantCase(A, B, n, w, s, r, c, p);
  }

  /** The eight calls together add exactly what one correct call adds: a cell
      outside the C window gets nothing from any of them, and a cell in C
      part q gets the two inner-part products from calls 2q and 2q+1 and
      nothing from the other six. */
  lemma GainSplit(A: seq<int>, B: seq<int>, n: nat, w: Window, s: Shape, r: int, c: int)
    requires IsMatrix(A, n) && IsMatrix(B, n) && FitsShape(w, s, n)
    requires 0 <= r < n && 0 <= c < n
    ensures forall p :: 0 <= p < 8 ==> FitsShape(SubWindow(w, s, p), SubShape(s, p), n)
    ensures Gain(A, B, n, w, s, r, c) == SubCallsGain(A, B, n, w, s, r, c)
  {
    SubCallsFit(w, s, n);
    var top, left := r - w.rowC < s.rows / 2, c - w.colC < s.cols / 2;
    if !InC(w, s, r, c) {
      OutsideWindow(A, B, n, w, s, r, c);
    } else if top && left {
      PartTotal(A, B, n, w, s, r, c, 0);
    } else if top {
      PartTotal(A, B, n, w, s, r, c, 2);
    } else if left {
      PartTotal(A, B, n, w, s, r, c, 4);
    } else {
      PartTotal(A, B, n, w, s, r, c, 6);
    }
  }

  /** The base case on a rectangular window: every cell of the C window gains
      its window product entry; nothing outside it changes. */
  method ShapeBaseCase(A: seq<int>, B: seq<int>, C: seq<int>, n: nat, w: Window, s: Shape)
    returns (C': seq<int>)
    requires IsMatrix(A, n) && IsMatrix(B, n) && IsMatrix(C, n)
    requires FitsShape(w, s, n)
    ensures IsMatrix(C', n)
    ensures forall r, c :: 0 <= r < n && 0 <= c < n ==> At(C', n, r, c) == At(C, n, r, c) + Gain(A, B, n, w, s, r, c)
  {
    C' := C;
    var i := 0;
    while i < s.rows
      invariant 0 <= i <= s.rows
      invariant IsMatrix(C', n)
      invariant forall r, c :: 0 <= r < n && 0 <= c < n ==>
        At(C', n, r, c) == At(C, n, r, c) + (if r < w.rowC + i then Gain(A, B, n, w, s, r, c) else 0)
    {
      C' := AddRow(A, B, C', n, w.rowC + i, w.colC, s.cols, w.rowA + i, w.colB, w.colA, w.rowB, s.inner);
      i := i + 1;
    }
  }

  /** The sum of a shape's dimensions, which every recursive call reduces. */
  function Size(s: Shape): nat {
    s.rows + s.inner + s.cols
  }

  /** Above the base case every sub-call is strictly smaller: some dimension
      exceeds the base case, so it is at least 2 and both its parts are
      shorter than it. */
  lemma SubCallsSmaller(s: Shape, baseCase: nat)
    requires baseCase > 0
    requires s.rows > baseCase || s.inner > baseCase || s.cols > baseCase
    ensures forall p :: 0 <= p < 8 ==> Size(SubShape(s, p)) < Size(s)
  {
  }

  /** The corrected kernel: every cell of the C window gains its full window
      product entry, whatever the dimensions, odd or even; nothing outside the
      window changes. */
  method CorrectedMultiply(A: seq<int>, B: seq<int>, C: seq<int>, n: nat, baseCase: nat, w: Window, s: Shape)
    returns (C': seq<int>)
    requires IsMatrix(A, n) && IsMatrix(B, n) && IsMatrix(C, n)
    requires baseCase > 0 && FitsShape(w, s, n)
    ensures IsMatrix(C', n)
    ensures forall r, c :: 0 <= r < n && 0 <= c < n ==> At(C', n, r, c) == At(C, n, r, c) + Gain(A, B, n, w, s, r, c)
    decreases Size(s), 1
  {
    if s.rows <= baseCase && s.inner <= baseCase && s.cols <= baseCase {
      C' := ShapeBaseCase(A, B, C, n, w, s);
      return;
    }
    SubCallsFit(w, s, n);
    var C1 := RowHalf(A, B, C, n, baseCase, w, s, 0);
    C' := RowHalf(A, B, C1, n, baseCase, w, s, 4);
    forall r, c | 0 <= r < n && 0 <= c < n
      ensures At(C', n, r, c) == At(C, n, r, c) + Gain(A, B, n, w, s, r, c)
    {
      GainSplit(A, B, n, w, s, r, c);
    }
  }

  /** Calls first to first + 3 of a corrected call above the base case: the
      four calls into the top half of C's rows (first = 0) or the bottom half
      (first = 4), each adding its window product. */
  method RowHalf(A: seq<int>, B: seq<int>, C: seq<int>, n: nat, baseCase: nat, w: Window, s: Shape, first: int)
    returns (C': seq<int>)
    requires IsMatrix(A, n) && IsMatrix(B, n) && IsMatrix(C, n)
    requires baseCase > 0 && FitsShape(w, s, n)
    requires s.rows > baseCase || s.inner > baseCase || s.cols > baseCase
    requires first == 0 || first == 4
    ensures IsMatrix(C', n)
    ensures forall p :: 0 <= p < 8 ==> FitsShape(SubWindow(w, s, p), SubShape(s, p), n)
    ensures forall r, c :: 0 <= r < n && 0 <= c < n ==>
      At(C', n, r, c) == At(C, n, r, c)
        + Gain(A, B, n, SubWindow(w, s, first), SubShape(s, first), r, c)
        + Gain(A, B, n, SubWindow(w, s, first + 1), SubShape(s, first + 1), r, c)
        + Gain(A, B, n, SubWindow(w, s, first + 2), SubShape(s, first + 2), r, c)
        + Gain(A, B, n, SubWindow(w, s, first + 3), SubShape(s, first + 3), r, c)
    decreases Size(s), 0
  {
    SubCallsFit(w, s, n);
    SubCallsSmaller(s, baseCase);
    var C1 := CorrectedMultiply(A, B, C, n, baseCase, SubWindow(w, s, first), SubShape(s, first));
    var C2 := CorrectedMultiply(A, B, C1, n, baseCase, SubWindow(w, s, first + 1), SubShape(s, first + 1));
    var C3 := CorrectedMultiply(A, B, C2, n, baseCase, SubWindow(w, s, first + 2), SubShape(s, first + 2));
    C' := CorrectedMultiply(A, B, C3, n, baseCase, SubWindow(w, s, first + 3), SubShape(s, first + 3));
  }

  /** A top-level corrected call on a zeroed C computes A·B for every n. */
  method CorrectedProduct(A: seq<int>, B: seq<int>, n: nat, baseCase: nat) returns (C': seq<int>)
    requires IsMatrix(A, n) && IsMatrix(B, n)
    requires baseCase > 0
    ensures C' == Product(A, B, n)
  {
    var origin := Window(0, 0, 0, 0, 0, 0);
    C' := CorrectedMultiply(A, B, Zero(n), n, baseCase, origin, Shape(n, n, n));
    forall r, c | 0 <= r < n && 0 <= c < n
      ensures At(C', n, r, c) == At(Product(A, B, n), n, r, c)
    {
      assert InC(origin, Shape(n, n, n), r, c);
    }
    SameCells(C', Product(A, B, n), n);
  }
}
