/**
 * The homography solver of the viewport tools: Gaussian elimination with
 * partial pivoting on a flat row-major augmented matrix, followed by back
 * substitution, and the homography fit that builds the 8 x 9 system for four
 * point correspondences and places the eight solved coefficients into a 4 x 4
 * matrix.
 *
 * Each loop of the solver is a method proved against a function on the
 * matrix contents; the properties that make the result meaningful (the
 * solution set is kept, the echelon shape, the back-substituted column is the
 * unique solution) are lemmas about those functions.
 */
module HomographyMath {
  import opened LinearSystems
  import opened Vectors

  /** Mathf.Abs over reals. */
  function Abs(x: real): (r: real)
    ensures r >= 0.0 && (r == x || r == -x)
  {
    if x < 0.0 then -x else x
  }

  // ---------------------------------------------------------------------
  // Cell access on the flat array

  /** A[r*n + c]. */
  function Cell(a: array<real>, m: nat, n: nat, r: nat, c: nat): (v: real)
    reads a
    requires a.Length == m * n && r < m && c < n
    ensures v == Row(a[..], m, n, r)[c]
  {
    RowAt(a[..], m, n, r, c);
    a[r * n + c]
  }

  /** A[r*n + c] := v: that cell changes and no other. */
  method SetCell(a: array<real>, m: nat, n: nat, r: nat, c: nat, v: real)
    requires a.Length == m * n && r < m && c < n
    modifies a
    ensures forall q, d :: 0 <= q < m && 0 <= d < n ==>
      Row(a[..], m, n, q)[d] == if q == r && d == c then v else Row(old(a[..]), m, n, q)[d]
  {
    ghost var M := a[..];
    RowAt(M, m, n, r, c);
    a[r * n + c] := v;
    ghost var A := a[..];
    assert A == M[r * n + c := v];
    forall q, d | 0 <= q < m && 0 <= d < n
      ensures Row(A, m, n, q)[d] == if q == r && d == c then v else Row(M, m, n, q)[d]
    {
      RowAt(M, m, n, q, d);
      RowAt(A, m, n, q, d);
      CellsDistinct(n, q, d, r, c);
    }
  }

  // ---------------------------------------------------------------------
  // Pivot search

  /**
   * Scan rows k..m-1 for a larger |cell in column j| than the best so far;
   * only a strictly larger value replaces it.
   */
  function PivotScan(M: seq<real>, m: nat, n: nat, j: nat, best: nat, k: nat): (p: nat)
    requires |M| == m * n && best < m && k <= m && j < n
    ensures p < m && (p == best || k <= p)
    decreases m - k
  {
    if k == m then best
    else if Abs(Row(M, m, n, k)[j]) > Abs(Row(M, m, n, best)[j]) then PivotScan(M, m, n, j, k, k + 1)
    else PivotScan(M, m, n, j, best, k + 1)
  }

  /** When best is the first maximum of rows i..k-1, the scan ends on the first maximum of i..m-1. */
  lemma {:induction false} PivotScanFirstMax(M: seq<real>, m: nat, n: nat, i: nat, j: nat, best: nat, k: nat)
    requires |M| == m * n && i <= best < k <= m && j < n
    requires forall q :: i <= q < k ==> Abs(Row(M, m, n, q)[j]) <= Abs(Row(M, m, n, best)[j])
    requires forall q :: i <= q < best ==> Abs(Row(M, m, n, q)[j]) < Abs(Row(M, m, n, best)[j])
    ensures var p := PivotScan(M, m, n, j, best, k);
      && i <= p < m
      && (forall q :: i <= q < m ==> Abs(Row(M, m, n, q)[j]) <= Abs(Row(M, m, n, p)[j]))
      && (forall q :: i <= q < p ==> Abs(Row(M, m, n, q)[j]) < Abs(Row(M, m, n, p)[j]))
    decreases m - k
  {
    if k < m {
      if Abs(Row(M, m, n, k)[j]) > Abs(Row(M, m, n, best)[j]) {
        PivotScanFirstMax(M, m, n, i, j, k, k + 1);
      } else {
        PivotScanFirstMax(M, m, n, i, j, best, k + 1);
      }
    }
  }

  /** The row in [i, m) holding the first largest |cell| of column j. */
  function PivotRow(M: seq<real>, m: nat, n: nat, i: nat, j: nat): (p: nat)
    requires |M| == m * n && i < m && j < n
    ensures i <= p < m
    ensures forall q :: i <= q < m ==> Abs(Row(M, m, n, q)[j]) <= Abs(Row(M, m, n, p)[j])
    ensures forall q :: i <= q < p ==> Abs(Row(M, m, n, q)[j]) < Abs(Row(M, m, n, p)[j])
  {
    PivotScanFirstMax(M, m, n, i, j, i, i + 1);
    PivotScan(M, m, n, j, i, i + 1)
  }

  method FindPivot(a: array<real>, m: nat, n: nat, i: nat, j: nat) returns (maxi: nat)
    requires a.Length == m * n && i < m && j < n
    ensures maxi == PivotRow(a[..], m, n, i, j)
  {
    maxi := i;
    var k := i + 1;
    while k < m
      invariant i <= maxi < k <= m
      invariant PivotScan(a[..], m, n, j, maxi, k) == PivotRow(a[..], m, n, i, j)
      decreases m - k
    {
      if Abs(Cell(a, m, n, k, j)) > Abs(Cell(a, m, n, maxi, j)) {
        maxi := k;
      }
      k := k + 1;
    }
  }

  // ---------------------------------------------------------------------
  // The three row loops

  method SwapRowsInPlace(a: array<real>, m: nat, n: nat, i: nat, k: nat)
    requires a.Length == m * n && i < m && k < m
    modifies a
    ensures a[..] == SwapRows(old(a[..]), m, n, i, k)
  {
    ghost var M := a[..];
    RowFits(m, n, i);
    RowFits(m, n, k);
    RowsApart(n, i, k);
    var c := 0;
    while c < n
      invariant 0 <= c <= n
      invariant forall q {:trigger a[q]} :: 0 <= q < a.Length ==>
        a[q] == if k * n <= q < k * n + c then M[q - k * n + i * n]
                else if i * n <= q < i * n + c then M[q - i * n + k * n]
                else M[q]
    {
      var aux := a[i * n + c];
      a[i * n + c] := a[k * n + c];
      a[k * n + c] := aux;
      c := c + 1;
    }
    SwapRowsByCells(M, a[..], m, n, i, k);
  }

  /** A sequence whose cells are those of M with rows i and k exchanged is SwapRows of M. */
  lemma SwapRowsByCells(M: seq<real>, A: seq<real>, m: nat, n: nat, i: nat, k: nat)
    requires |M| == m * n && |A| == m * n && i < m && k < m
    requires i * n + n <= |M| && k * n + n <= |M|
    requires forall q {:trigger A[q]} :: 0 <= q < |A| ==>
      A[q] == if k * n <= q < k * n + n then M[q - k * n + i * n]
              else if i * n <= q < i * n + n then M[q - i * n + k * n]
              else M[q]
    ensures A == SwapRows(M, m, n, i, k)
  {
    forall q | 0 <= q < |A| ensures A[q] == SwapRows(M, m, n, i, k)[q] {
      SwapRowsAt(M, m, n, i, k, q);
    }
  }

  method DivideRowInPlace(a: array<real>, m: nat, n: nat, i: nat, p: real)
    requires a.Length == m * n && i < m && p != 0.0
    modifies a
    ensures a[..] == DivideRow(old(a[..]), m, n, i, p)
  {
    ghost var M := a[..];
    RowFits(m, n, i);
    var c := 0;
    while c < n
      invariant 0 <= c <= n
      invariant forall q :: 0 <= q < a.Length ==> a[q] == if i * n <= q < i * n + c then M[q] / p else M[q]
    {
      a[i * n + c] := a[i * n + c] / p;
      c := c + 1;
    }
    forall q | 0 <= q < a.Length ensures a[q] == DivideRow(M, m, n, i, p)[q] {
      DivideRowAt(M, m, n, i, p, q);
    }
  }

  method SubtractRowInPlace(a: array<real>, m: nat, n: nat, u: nat, i: nat, f: real)
    requires a.Length == m * n && u < m && i < m && u != i
    modifies a
    ensures a[..] == SubtractRow(old(a[..]), m, n, u, i, f)
  {
    ghost var M := a[..];
    RowFits(m, n, u);
    RowFits(m, n, i);
    RowsApart(n, u, i);
    var bu, bi := u * n, i * n;
    var c := 0;
    while c < n
      invariant 0 <= c <= n
      invariant forall q {:trigger a[q]} :: 0 <= q < a.Length ==>
        a[q] == if bu <= q < bu + c then Reduced(M[q], f, M[q - bu + bi]) else M[q]
    {
      a[bu + c] := Reduced(a[bu + c], f, a[bi + c]);
      c := c + 1;
    }
    forall q | 0 <= q < a.Length ensures a[q] == SubtractRow(M, m, n, u, i, f)[q] {
      SubtractRowAt(M, m, n, u, i, f, q);
    }
  }

  // ---------------------------------------------------------------------
  // Elimination below the pivot

  /** Rows u..m-1 each lose (their own cell in column j) times row i. */
  function EliminateFrom(M: seq<real>, m: nat, n: nat, i: nat, j: nat, u: nat): (M': seq<real>)
    requires |M| == m * n && i < m && j < n && i < u <= m
    ensures |M'| == |M|
    decreases m - u
  {
    if u == m then M
    else EliminateFrom(SubtractRow(M, m, n, u, i, Row(M, m, n, u)[j]), m, n, i, j, u + 1)
  }

  /** Every row from u on is reduced against the unchanged pivot row i; the others stay. */
  lemma {:induction false} EliminateFromRows(M: seq<real>, m: nat, n: nat, i: nat, j: nat, u: nat, r: nat)
    requires |M| == m * n && i < m && j < n && i < u <= m && r < m
    ensures Row(EliminateFrom(M, m, n, i, j, u), m, n, r)
         == if u <= r then Minus(Row(M, m, n, r), Row(M, m, n, r)[j], Row(M, m, n, i)) else Row(M, m, n, r)
    decreases m - u
  {
    if u < m {
      var f := Row(M, m, n, u)[j];
      EliminateFromRows(SubtractRow(M, m, n, u, i, f), m, n, i, j, u + 1, r);
      RowOfSubtract(M, m, n, u, i, f, r);
      RowOfSubtract(M, m, n, u, i, f, i);
    }
  }

  lemma {:induction false} EliminateFromEquivalent(M: seq<real>, m: nat, n: nat, i: nat, j: nat, u: nat)
    requires |M| == m * n && n >= 1 && i < m && j < n && i < u <= m
    ensures Equivalent(EliminateFrom(M, m, n, i, j, u), M, m, n)
    decreases m - u
  {
    if u < m {
      var f := Row(M, m, n, u)[j];
      var M1 := SubtractRow(M, m, n, u, i, f);
      EliminateFromStep(M, m, n, i, j, u, f);
      SubtractEquivalent(M, m, n, u, i, f);
      EliminateFromEquivalent(M1, m, n, i, j, u + 1);
      EquivalentTransitive(EliminateFrom(M1, m, n, i, j, u + 1), M1, M, m, n);
    }
  }

  method EliminateBelow(a: array<real>, m: nat, n: nat, i: nat, j: nat)
    requires a.Length == m * n && i < m && j < n
    modifies a
    ensures a[..] == EliminateFrom(old(a[..]), m, n, i, j, i + 1)
  {
    ghost var M := a[..];
    var u := i + 1;
    while u < m
      invariant i + 1 <= u <= m
      invariant EliminateFrom(a[..], m, n, i, j, u) == EliminateFrom(M, m, n, i, j, i + 1)
      decreases m - u
    {
      var f := Cell(a, m, n, u, j);
      EliminateFromStep(a[..], m, n, i, j, u, f);
      SubtractRowInPlace(a, m, n, u, i, f);
      u := u + 1;
    }
  }

  /** The first step of EliminateFrom reduces row u by its own cell in column j. */
  lemma EliminateFromStep(M: seq<real>, m: nat, n: nat, i: nat, j: nat, u: nat, f: real)
    requires |M| == m * n && i < u < m && j < n && f == Row(M, m, n, u)[j]
    ensures EliminateFrom(M, m, n, i, j, u) == EliminateFrom(SubtractRow(M, m, n, u, i, f), m, n, i, j, u + 1)
  {
  }

  // ---------------------------------------------------------------------
  // Forward elimination

  /**
   * One pivot step at row i and column j with the pivot found in row p: swap
   * rows i and p (only when they differ), divide row i by its cell in column
   * j, and clear column j below row i.
   */
  function PivotStep(M: seq<real>, m: nat, n: nat, i: nat, j: nat, p: nat): (Z: seq<real>)
    requires |M| == m * n && i <= p < m && j < n && Row(M, m, n, p)[j] != 0.0
    ensures |Z| == |M|
  {
    var S := if i != p then SwapRows(M, m, n, i, p) else M;
    RowOfSwap(M, m, n, i, p, i);
    var D := DivideRow(S, m, n, i, Row(S, m, n, i)[j]);
    EliminateFrom(D, m, n, i, j, i + 1)
  }

  /** The eliminated matrix together with the column of each pivot, row by row. */
  datatype Reduction = Reduction(matrix: seq<real>, pivots: seq<nat>)

  /**
   * The elimination loop from row i and column j on, with the pivot columns
   * piv found so far: pick the first largest |cell| of column j at or below
   * row i; if it is nonzero, swap it up, scale the row to a leading 1, clear
   * the column below and move to the next row; in any case move to the next
   * column.
   */
  function ForwardFrom(M: seq<real>, m: nat, n: nat, i: nat, j: nat, piv: seq<nat>): (e: Reduction)
    requires |M| == m * n && i <= m && j <= n
    ensures |e.matrix| == |M|
    decreases n - j
  {
    if i < m && j < n then
      var p := PivotRow(M, m, n, i, j);
      if Row(M, m, n, p)[j] != 0.0 then
        ForwardFrom(PivotStep(M, m, n, i, j, p), m, n, i + 1, j + 1, piv + [j])
      else
        ForwardFrom(M, m, n, i, j + 1, piv)
    else
      Reduction(M, piv)
  }

  /** The whole forward pass over the (n-1) x n system. */
  function Forward(M: seq<real>, n: nat): Reduction
    requires n >= 1 && |M| == (n - 1) * n
  {
    ForwardFrom(M, n - 1, n, 0, 0, [])
  }

  /** One unfolding of the forward pass at (i, j). */
  lemma ForwardFromStep(M: seq<real>, m: nat, n: nat, i: nat, j: nat, piv: seq<nat>)
    requires |M| == m * n && i < m && j < n
    ensures var p := PivotRow(M, m, n, i, j);
      ForwardFrom(M, m, n, i, j, piv)
        == if Row(M, m, n, p)[j] != 0.0 then ForwardFrom(PivotStep(M, m, n, i, j, p), m, n, i + 1, j + 1, piv + [j])
           else ForwardFrom(M, m, n, i, j + 1, piv)
  {
  }

  lemma PivotStepEquivalent(M: seq<real>, m: nat, n: nat, i: nat, j: nat, p: nat)
    requires |M| == m * n && n >= 1 && i <= p < m && j < n && Row(M, m, n, p)[j] != 0.0
    ensures Equivalent(PivotStep(M, m, n, i, j, p), M, m, n)
  {
    var S := if i != p then SwapRows(M, m, n, i, p) else M;
    RowOfSwap(M, m, n, i, p, i);
    SwapEquivalent(M, m, n, i, p);
    var D := DivideRow(S, m, n, i, Row(S, m, n, i)[j]);
    DivideEquivalent(S, m, n, i, Row(S, m, n, i)[j]);
    EliminateFromEquivalent(D, m, n, i, j, i + 1);
    EquivalentTransitive(D, S, M, m, n);
    EquivalentTransitive(EliminateFrom(D, m, n, i, j, i + 1), D, M, m, n);
  }

  lemma {:induction false} ForwardFromEquivalent(M: seq<real>, m: nat, n: nat, i: nat, j: nat, piv: seq<nat>)
    requires |M| == m * n && n >= 1 && i <= m && j <= n
    ensures Equivalent(ForwardFrom(M, m, n, i, j, piv).matrix, M, m, n)
    decreases n - j, 1
  {
    var e := ForwardFrom(M, m, n, i, j, piv);
    if i < m && j < n {
      var p := PivotRow(M, m, n, i, j);
      if Row(M, m, n, p)[j] != 0.0 {
        ForwardFromStep(M, m, n, i, j, piv);
        PivotStepEquivalent(M, m, n, i, j, p);
        PivotBranchEquivalent(M, PivotStep(M, m, n, i, j, p), m, n, i, j, piv);
      } else {
        ForwardFromStep(M, m, n, i, j, piv);
        ForwardFromEquivalent(M, m, n, i, j + 1, piv);
      }
    } else {
      assert e.matrix == M;
    }
  }

  /** The rest of the pass after a pivot step keeps the solutions of M. */
  lemma {:induction false} PivotBranchEquivalent(M: seq<real>, Z: seq<real>, m: nat, n: nat, i: nat, j: nat, piv: seq<nat>)
    requires |M| == m * n && |Z| == m * n && n >= 1 && i < m && j < n
    requires Equivalent(Z, M, m, n)
    ensures Equivalent(ForwardFrom(Z, m, n, i + 1, j + 1, piv + [j]).matrix, M, m, n)
    decreases n - j, 0
  {
    ForwardFromEquivalent(Z, m, n, i + 1, j + 1, piv + [j]);
    EquivalentTransitive(ForwardFrom(Z, m, n, i + 1, j + 1, piv + [j]).matrix, Z, M, m, n);
  }

  /** Clearing column j below a leading 1 in row |piv| pivots column j. */
  lemma EliminatePivoted(D: seq<real>, m: nat, n: nat, piv: seq<nat>, j: nat)
    requires |D| == m * n && |piv| < m && j < n && Pivoted(D, m, n, piv, j)
    requires Row(D, m, n, |piv|)[j] == 1.0
    ensures Pivoted(EliminateFrom(D, m, n, |piv|, j, |piv| + 1), m, n, piv + [j], j + 1)
  {
    var i := |piv|;
    var Z := EliminateFrom(D, m, n, i, j, i + 1);
    forall r | 0 <= r <= i ensures Row(Z, m, n, r) == Row(D, m, n, r) {
      EliminateFromRows(D, m, n, i, j, i + 1, r);
    }
    forall u, c | i < u < m && 0 <= c <= j ensures Row(Z, m, n, u)[c] == 0.0 {
      EliminateFromRows(D, m, n, i, j, i + 1, u);
      var f := Row(D, m, n, u)[j];
      assert Row(Z, m, n, u)[c] == Row(D, m, n, u)[c] - f * Row(D, m, n, i)[c];
      if c < j {
        assert Row(D, m, n, u)[c] == 0.0 && Row(D, m, n, i)[c] == 0.0;
      }
    }
    PivotedAdvance(D, Z, m, n, piv, j);
  }

  /** Swapping the pivot up and dividing by it keeps the shape and puts a 1 at (|piv|, j). */
  lemma SwapDividePivoted(M: seq<real>, m: nat, n: nat, piv: seq<nat>, j: nat, p: nat)
    requires |M| == m * n && |piv| <= p < m && j < n && Pivoted(M, m, n, piv, j) && Row(M, m, n, p)[j] != 0.0
    ensures var i := |piv|;
      var S := if i != p then SwapRows(M, m, n, i, p) else M;
      && Row(S, m, n, i)[j] != 0.0
      && Pivoted(DivideRow(S, m, n, i, Row(S, m, n, i)[j]), m, n, piv, j)
      && Row(DivideRow(S, m, n, i, Row(S, m, n, i)[j]), m, n, i)[j] == 1.0
  {
    var i := |piv|;
    var S := if i != p then SwapRows(M, m, n, i, p) else M;
    RowOfSwap(M, m, n, i, p, i);
    if i != p { PivotedSwap(M, m, n, piv, j, p); }
    var pv := Row(S, m, n, i)[j];
    PivotedDivide(S, m, n, piv, j, pv);
    RowOfDivide(S, m, n, i, pv, i);
    assert Row(DivideRow(S, m, n, i, pv), m, n, i)[j] == pv / pv == 1.0;
  }

  /**
   * One pivot step puts a 1 at (i, j), zeros below it in column j, and leaves
   * the rows above i alone.
   */
  lemma PivotStepColumn(M: seq<real>, m: nat, n: nat, i: nat, j: nat, p: nat)
    requires |M| == m * n && i <= p < m && j < n && Row(M, m, n, p)[j] != 0.0
    ensures var Z := PivotStep(M, m, n, i, j, p);
      && Row(Z, m, n, i)[j] == 1.0
      && (forall u :: i < u < m ==> Row(Z, m, n, u)[j] == 0.0)
      && (forall r :: 0 <= r < i ==> Row(Z, m, n, r) == Row(M, m, n, r))
  {
    var S := if i != p then SwapRows(M, m, n, i, p) else M;
    RowOfSwap(M, m, n, i, p, i);
    var pv := Row(S, m, n, i)[j];
    var D := DivideRow(S, m, n, i, pv);
    RowOfDivide(S, m, n, i, pv, i);
    assert Row(D, m, n, i)[j] == pv / pv == 1.0;
    var Z := PivotStep(M, m, n, i, j, p);
    EliminateFromRows(D, m, n, i, j, i + 1, i);
    forall u | i < u < m ensures Row(Z, m, n, u)[j] == 0.0 {
      EliminateFromRows(D, m, n, i, j, i + 1, u);
      var f := Row(D, m, n, u)[j];
      assert Row(Z, m, n, u)[j] == Reduced(f, f, 1.0);
    }
    forall r | 0 <= r < i ensures Row(Z, m, n, r) == Row(M, m, n, r) {
      EliminateFromRows(D, m, n, i, j, i + 1, r);
      RowOfDivide(S, m, n, i, pv, r);
      RowOfSwap(M, m, n, i, p, r);
    }
  }

  /** One pivot step keeps the echelon shape and adds column j to it. */
  lemma PivotStepPivoted(M: seq<real>, m: nat, n: nat, piv: seq<nat>, j: nat, p: nat)
    requires |M| == m * n && |piv| <= p < m && j < n && Pivoted(M, m, n, piv, j) && Row(M, m, n, p)[j] != 0.0
    ensures Pivoted(PivotStep(M, m, n, |piv|, j, p), m, n, piv + [j], j + 1)
  {
    var i := |piv|;
    var S := if i != p then SwapRows(M, m, n, i, p) else M;
    SwapDividePivoted(M, m, n, piv, j, p);
    EliminatePivoted(DivideRow(S, m, n, i, Row(S, m, n, i)[j]), m, n, piv, j);
  }

  /** A zero at the pivot row means column j is zero from row i down. */
  lemma ZeroPivotColumn(M: seq<real>, m: nat, n: nat, i: nat, j: nat)
    requires |M| == m * n && i < m && j < n && Row(M, m, n, PivotRow(M, m, n, i, j))[j] == 0.0
    ensures forall u :: i <= u < m ==> Row(M, m, n, u)[j] == 0.0
  {
    var p := PivotRow(M, m, n, i, j);
    forall u | i <= u < m ensures Row(M, m, n, u)[j] == 0.0 {
      assert Abs(Row(M, m, n, u)[j]) <= Abs(Row(M, m, n, p)[j]);
    }
  }

  lemma {:induction false} ForwardFromPivoted(M: seq<real>, m: nat, n: nat, i: nat, j: nat, piv: seq<nat>)
    requires |M| == m * n && i <= m && j <= n && |piv| == i && Pivoted(M, m, n, piv, j)
    ensures Pivoted(ForwardFrom(M, m, n, i, j, piv).matrix, m, n, ForwardFrom(M, m, n, i, j, piv).pivots, n)
    decreases n - j, 1
  {
    if i < m && j < n {
      var p := PivotRow(M, m, n, i, j);
      if Row(M, m, n, p)[j] != 0.0 {
        PivotBranchPivoted(M, m, n, i, j, piv, p);
      } else {
        ZeroPivotColumn(M, m, n, i, j);
        PivotedSkip(M, m, n, piv, j);
        ForwardFromPivoted(M, m, n, i, j + 1, piv);
      }
    }
  }

  lemma {:induction false} PivotBranchPivoted(M: seq<real>, m: nat, n: nat, i: nat, j: nat, piv: seq<nat>, p: nat)
    requires |M| == m * n && i <= p < m && j < n && |piv| == i && Pivoted(M, m, n, piv, j)
    requires Row(M, m, n, p)[j] != 0.0
    ensures var Z := PivotStep(M, m, n, i, j, p);
      Pivoted(ForwardFrom(Z, m, n, i + 1, j + 1, piv + [j]).matrix, m, n, ForwardFrom(Z, m, n, i + 1, j + 1, piv + [j]).pivots, n)
    decreases n - j, 0
  {
    PivotStepPivoted(M, m, n, piv, j, p);
    ForwardFromPivoted(PivotStep(M, m, n, i, j, p), m, n, i + 1, j + 1, piv + [j]);
  }

  /** Forward elimination keeps the solution set of the system. */
  lemma ForwardKeepsSolutions(M: seq<real>, n: nat)
    requires n >= 1 && |M| == (n - 1) * n
    ensures Equivalent(Forward(M, n).matrix, M, n - 1, n)
  {
    ForwardFromEquivalent(M, n - 1, n, 0, 0, []);
  }

  /** Forward elimination leaves a reduced echelon shape with increasing pivot columns. */
  lemma ForwardEchelon(M: seq<real>, n: nat)
    requires n >= 1 && |M| == (n - 1) * n
    ensures Pivoted(Forward(M, n).matrix, n - 1, n, Forward(M, n).pivots, n)
  {
    ForwardFromPivoted(M, n - 1, n, 0, 0, []);
  }

  // ---------------------------------------------------------------------
  // Back substitution and the whole solver

  /** x solves the system, and no other vector does. */
  ghost predicate UniqueSolution(M: seq<real>, m: nat, n: nat, x: seq<real>)
    requires |M| == m * n && n >= 1 && |x| == n - 1
  {
    IsSolution(M, m, n, x) && forall y :: |y| == n - 1 && IsSolution(M, m, n, y) ==> y == x
  }

  /** A keeps every coefficient of E; only the right-hand-side column may differ. */
  predicate SameCoefficients(A: seq<real>, E: seq<real>, m: nat, n: nat)
    requires n == m + 1 && |A| == m * n && |E| == m * n
  {
    forall r, c :: 0 <= r < m && 0 <= c < m ==> Row(A, m, n, r)[c] == Row(E, m, n, r)[c]
  }

  /** Every row of A's last column is back-substituted against E. */
  predicate BackSubstituted(A: seq<real>, E: seq<real>, m: nat, n: nat)
    requires n == m + 1 && |A| == m * n && |E| == m * n
  {
    forall r :: 0 <= r < m ==> BackRowHolds(A, E, m, n, r)
  }

  /**
   * The inner loop of back substitution for row i: subtract, column by
   * column right of the diagonal, the coefficient times the right-hand side
   * already computed for that column's row. Only cell (i, m) changes.
   */
  method SubstituteRow(a: array<real>, m: nat, n: nat, i: nat, ghost E: seq<real>, ghost x: seq<real>)
    requires n == m + 1 && a.Length == m * n && |E| == m * n && i < m && |x| == m
    requires SameCoefficients(a[..], E, m, n)
    requires forall r :: 0 <= r < m && r != i ==> Row(a[..], m, n, r)[m] == x[r]
    modifies a
    ensures forall r, c :: 0 <= r < m && 0 <= c < n && (r != i || c != m) ==>
      Row(a[..], m, n, r)[c] == Row(old(a[..]), m, n, r)[c]
    ensures Row(a[..], m, n, i)[m] + Tail(Row(E, m, n, i), x, i + 1, m) == Row(old(a[..]), m, n, i)[m]
  {
    ghost var A0 := a[..];
    RowAt(A0, m, n, i, m);
    var k := i * n + m;
    var j := i + 1;
    while j < n - 1
      invariant i + 1 <= j <= m
      invariant a[..] == A0[k := a[k]]
      invariant a[k] + Tail(Row(E, m, n, i), x, i + 1, j) == A0[k]
      decreases m - j
    {
      RowOfUpdate(A0, m, n, i, m, a[k], i, j);
      RowOfUpdate(A0, m, n, i, m, a[k], j, m);
      var coefficient, known := Cell(a, m, n, i, j), Cell(a, m, n, j, m);
      TailStep(Row(E, m, n, i), x, i + 1, j, coefficient, known);
      a[k] := a[k] - coefficient * known;
      j := j + 1;
    }
    forall r, c | 0 <= r < m && 0 <= c < n
      ensures Row(a[..], m, n, r)[c] == if r == i && c == m then a[k] else Row(A0, m, n, r)[c]
    {
      RowOfUpdate(A0, m, n, i, m, a[k], r, c);
    }
  }

  /**
   * Rows m-2 down to 0: give each row's right-hand side its back-substituted
   * value. Nothing but the last column changes.
   */
  method BackSubstitute(a: array<real>, m: nat, n: nat)
    requires n == m + 1 && a.Length == m * n
    modifies a
    ensures SameCoefficients(a[..], old(a[..]), m, n)
    ensures BackSubstituted(a[..], old(a[..]), m, n)
  {
    ghost var E := a[..];
    ghost var x := Column(E, m, n);
    var i: int := m - 2;
    while i >= 0
      invariant -2 <= i < m && |x| == m
      invariant SameCoefficients(a[..], E, m, n)
      invariant forall r :: 0 <= r < m ==> Row(a[..], m, n, r)[m] == x[r]
      invariant forall r :: 0 <= r < m && r <= i ==> x[r] == Row(E, m, n, r)[m]
      invariant SolvedBelow(E, x, m, n, i)
      decreases i + 1
    {
      SubstituteRow(a, m, n, i, E, x);
      SolvedBelowStep(E, x, m, n, i, Cell(a, m, n, i, m));
      x := x[i := Cell(a, m, n, i, m)];
      i := i - 1;
    }
    assert x == Column(a[..], m, n);
  }

  /** Rows below i already hold their back-substituted values in x. */
  ghost predicate SolvedBelow(E: seq<real>, x: seq<real>, m: nat, n: nat, i: int)
    requires n == m + 1 && |E| == m * n && |x| == m
  {
    forall r :: 0 <= r < m && i < r ==> x[r] + Tail(Row(E, m, n, r), x, r + 1, m) == Row(E, m, n, r)[m]
  }

  /** Settling row i keeps the rows below settled: their tails never read x[i]. */
  lemma SolvedBelowStep(E: seq<real>, x: seq<real>, m: nat, n: nat, i: nat, v: real)
    requires n == m + 1 && |E| == m * n && |x| == m && i < m
    requires SolvedBelow(E, x, m, n, i)
    requires v + Tail(Row(E, m, n, i), x, i + 1, m) == Row(E, m, n, i)[m]
    ensures SolvedBelow(E, x[i := v], m, n, i - 1)
  {
    var x1 := x[i := v];
    forall r | 0 <= r < m && i - 1 < r
      ensures x1[r] + Tail(Row(E, m, n, r), x1, r + 1, m) == Row(E, m, n, r)[m]
    {
      TailFrame(Row(E, m, n, r), x1, Row(E, m, n, r), x, r + 1, m);
    }
  }

  /**
   * When elimination turned M into a system E with the same solutions and a
   * pivot on every diagonal cell, the back-substituted last column is the one
   * and only solution of M.
   */
  lemma GaussianSolves(M: seq<real>, E: seq<real>, piv: seq<nat>, A: seq<real>, m: nat, n: nat)
    requires n == m + 1 && |M| == m * n && |E| == m * n && |A| == m * n
    requires Equivalent(E, M, m, n) && Pivoted(E, m, n, piv, n) && DiagonalPivots(piv, m)
    requires BackSubstituted(A, E, m, n)
    ensures UniqueSolution(M, m, n, Column(A, m, n))
  {
    assert forall r :: 0 <= r < m ==> LeadingOne(Row(E, m, n, r), r);
    BackSubstitutionSolves(A, E, m, n);
    var x := Column(A, m, n);
    forall y | |y| == m && IsSolution(M, m, n, y) ensures y == x {
      UnitUpperUniqueSolution(E, m, n, x, y);
    }
  }

  /** One round of the elimination loop at row i, column j; reports whether it pivoted. */
  method EliminationStep(a: array<real>, m: nat, n: nat, i: nat, j: nat) returns (pivoted: bool)
    requires a.Length == m * n && i < m && j < n
    modifies a
    ensures var p := PivotRow(old(a[..]), m, n, i, j);
      && pivoted == (Row(old(a[..]), m, n, p)[j] != 0.0)
      && a[..] == if pivoted then PivotStep(old(a[..]), m, n, i, j, p) else old(a[..])
  {
    ghost var A0 := a[..];
    var maxi := FindPivot(a, m, n, i, j);
    pivoted := Cell(a, m, n, maxi, j) != 0.0;
    if pivoted {
      if i != maxi {
        SwapRowsInPlace(a, m, n, i, maxi);
      }
      RowOfSwap(A0, m, n, i, maxi, i);
      var pivot := Cell(a, m, n, i, j);
      DivideRowInPlace(a, m, n, i, pivot);
      EliminateBelow(a, m, n, i, j);
    }
  }

  /** The elimination loop: columns left to right, rows top to bottom. */
  method ForwardEliminate(a: array<real>, m: nat, n: nat)
    requires a.Length == m * n
    modifies a
    ensures a[..] == ForwardFrom(old(a[..]), m, n, 0, 0, []).matrix
  {
    var i, j := 0, 0;
    ghost var piv: seq<nat> := [];
    while i < m && j < n
      invariant i <= m && j <= n && a.Length == m * n
      invariant ForwardFrom(a[..], m, n, i, j, piv) == ForwardFrom(old(a[..]), m, n, 0, 0, [])
      decreases n - j
    {
      ForwardFromStep(a[..], m, n, i, j, piv);
      var pivoted := EliminationStep(a, m, n, i, j);
      if pivoted {
        piv := piv + [j];
        i := i + 1;
      }
      j := j + 1;
    }
  }

  /**
   * The solver on the flat (n-1) x n augmented matrix, in place: forward
   * elimination with partial pivoting, then back substitution.
   */
  method GaussianElimination(a: array<real>, n: nat)
    requires n >= 1 && a.Length == (n - 1) * n
    modifies a
    ensures SameCoefficients(a[..], Forward(old(a[..]), n).matrix, n - 1, n)
    ensures BackSubstituted(a[..], Forward(old(a[..]), n).matrix, n - 1, n)
    ensures DiagonalPivots(Forward(old(a[..]), n).pivots, n - 1) ==>
      UniqueSolution(old(a[..]), n - 1, n, Column(a[..], n - 1, n))
  {
    ghost var M := a[..];
    ForwardEliminate(a, n - 1, n);
    ghost var R := Forward(M, n);
    BackSubstitute(a, n - 1, n);
    if DiagonalPivots(R.pivots, n - 1) {
      ForwardKeepsSolutions(M, n);
      ForwardEchelon(M, n);
      GaussianSolves(M, R.matrix, R.pivots, a[..], n - 1, n);
    }
  }

  // ---------------------------------------------------------------------
  // FindHomography

  /**
   * The equation x' (h31 x + h32 y + 1) == h11 x + h12 y + h13 for the
   * correspondence s -> d, as an augmented row over h11 h12 h13 h21 h22 h23
   * h31 h32.
   */
  function EquationX(s: Vec2, d: Vec2): (row: seq<real>)
    ensures |row| == 9
  {
    [-s.x, -s.y, -1.0, 0.0, 0.0, 0.0, s.x * d.x, s.y * d.x, -d.x]
  }

  /** y' (h31 x + h32 y + 1) == h21 x + h22 y + h23, likewise. */
  function EquationY(s: Vec2, d: Vec2): (row: seq<real>)
    ensures |row| == 9
  {
    [0.0, 0.0, 0.0, -s.x, -s.y, -1.0, s.x * d.y, s.y * d.y, -d.y]
  }

  /** The two rows of each correspondence from the k-th on. */
  function Equations(src: seq<Vec2>, dst: seq<Vec2>, k: nat): (P: seq<real>)
    requires k <= 4 && |src| >= 4 && |dst| >= 4
    ensures |P| == (8 - 2 * k) * 9
    decreases 4 - k
  {
    if k == 4 then [] else EquationX(src[k], dst[k]) + EquationY(src[k], dst[k]) + Equations(src, dst, k + 1)
  }

  /** The 72 cells of the 8 x 9 system, row by row. */
  function BuildSystem(src: seq<Vec2>, dst: seq<Vec2>): (P: seq<real>)
    requires |src| >= 4 && |dst| >= 4
    ensures |P| == 8 * 9
  {
    Equations(src, dst, 0)
  }

  /** Row 2j of the system is the x equation of correspondence k+j, row 2j+1 its y equation. */
  /** The first two rows of a system whose rows start with X and Y. */
  lemma FirstTwoRows(X: seq<real>, Y: seq<real>, Q: seq<real>, m: nat)
    requires |X| == 9 && |Y| == 9 && m >= 2 && |Q| == (m - 2) * 9
    ensures Row(X + Y + Q, m, 9, 0) == X && Row(X + Y + Q, m, 9, 1) == Y
  {
    var P := X + Y + Q;
    assert P[..9] == X;
    assert P[9..][..9] == Y;
  }

  /** Past the first two rows, the rows are those of the rest. */
  lemma LaterRow(X: seq<real>, Y: seq<real>, Q: seq<real>, mq: nat, r: nat)
    requires |X| == 9 && |Y| == 9 && |Q| == mq * 9 && r < mq
    ensures Row(X + Y + Q, mq + 2, 9, r + 2) == Row(Q, mq, 9, r)
  {
    var P := X + Y + Q;
    assert P[9..][9..] == Q;
  }

  lemma {:induction false} RowOfEquations(src: seq<Vec2>, dst: seq<Vec2>, k: nat, j: nat)
    requires k + j < 4 && |src| >= 4 && |dst| >= 4
    ensures Row(Equations(src, dst, k), 8 - 2 * k, 9, 2 * j) == EquationX(src[k + j], dst[k + j])
    ensures Row(Equations(src, dst, k), 8 - 2 * k, 9, 2 * j + 1) == EquationY(src[k + j], dst[k + j])
    decreases j
  {
    var X, Y, Q := EquationX(src[k], dst[k]), EquationY(src[k], dst[k]), Equations(src, dst, k + 1);
    var mq: nat := 8 - 2 * (k + 1);
    assert Equations(src, dst, k) == X + Y + Q;
    if j == 0 {
      FirstTwoRows(X, Y, Q, mq + 2);
    } else {
      var r: nat := 2 * (j - 1);
      RowOfEquations(src, dst, k + 1, j - 1);
      LaterRow(X, Y, Q, mq, r);
      LaterRow(X, Y, Q, mq, r + 1);
    }
  }

  /** The matrix FindHomography writes for the coefficients h11 ... h32. */
  function Placement(h: seq<real>): (T: Matrix4x4)
    requires |h| == 8
    ensures IsPlacement(T) && Coefficients(T) == h
  {
    Matrix4x4(h[0], h[1], 0.0, h[2],
              h[3], h[4], 0.0, h[5],
              0.0, 0.0, 0.0, 0.0,
              h[6], h[7], 0.0, 1.0)
  }

  /** The cells FindHomography always sets to 0, and [3,3] set to 1. */
  predicate IsPlacement(T: Matrix4x4)
  {
    T.m02 == 0.0 && T.m12 == 0.0 && T.m20 == 0.0 && T.m21 == 0.0
    && T.m22 == 0.0 && T.m23 == 0.0 && T.m32 == 0.0 && T.m33 == 1.0
  }

  /** The eight cells FindHomography fills from the solution, in its order. */
  function Coefficients(T: Matrix4x4): (h: seq<real>)
    ensures |h| == 8
  {
    [T.m00, T.m01, T.m03, T.m10, T.m11, T.m13, T.m30, T.m31]
  }

  lemma PlacementOfCoefficients(T: Matrix4x4)
    requires IsPlacement(T)
    ensures Placement(Coefficients(T)) == T
  {
  }

  /** The x image of s under T, in homogeneous coordinates, is d.x times its weight. */
  predicate MapsX(T: Matrix4x4, s: Vec2, d: Vec2)
  {
    var v := T.Transform(Vec4(s.x, s.y, 0.0, 1.0));
    v.x == d.x * v.w
  }

  /** The y image likewise. */
  predicate MapsY(T: Matrix4x4, s: Vec2, d: Vec2)
  {
    var v := T.Transform(Vec4(s.x, s.y, 0.0, 1.0));
    v.y == d.y * v.w
  }

  /** T, applied to s as the point (s.x, s.y, 0, 1), gives d in homogeneous coordinates. */
  predicate MapsPoint(T: Matrix4x4, s: Vec2, d: Vec2)
  {
    MapsX(T, s, d) && MapsY(T, s, d)
  }

  /** T maps each of the four source corners to its destination corner. */
  predicate Fits(T: Matrix4x4, src: seq<Vec2>, dst: seq<Vec2>)
    requires |src| >= 4 && |dst| >= 4
  {
    forall k :: 0 <= k < 4 ==> MapsPoint(T, src[k], dst[k])
  }

  /**
   * One equation of the system, rearranged: t (g sx + k sy + 1) == a sx + b sy + c
   * is the row (-sx, -sy, -1, sx t, sy t | -t) applied to (a, b, c, g, k).
   */
  lemma ProjectiveEquation(a: real, b: real, c: real, g: real, k: real, sx: real, sy: real, t: real)
    ensures (-sx) * a + (-sy) * b + (-1.0) * c + (sx * t) * g + (sy * t) * k == -t
        <==> a * sx + b * sy + c == t * (g * sx + k * sy + 1.0)
  {
    assert t * (g * sx + k * sy + 1.0) == (sx * t) * g + (sy * t) * k + t;
    assert (-sx) * a + (-sy) * b + (-1.0) * c == -(a * sx + b * sy + c);
  }

  /** Where Placement(h) sends the point (s.x, s.y, 0, 1). */
  lemma PlacementImage(h: seq<real>, s: Vec2)
    requires |h| == 8
    ensures var v := Placement(h).Transform(Vec4(s.x, s.y, 0.0, 1.0));
      && v.x == h[0] * s.x + h[1] * s.y + h[2]
      && v.y == h[3] * s.x + h[4] * s.y + h[5]
      && v.w == h[6] * s.x + h[7] * s.y + 1.0
  {
  }

  /** An eight-term tail sum written out. */
  lemma {:induction false} TailOfEight(row: seq<real>, h: seq<real>)
    requires |row| >= 8 && |h| == 8
    ensures Tail(row, h, 0, 8)
         == row[0] * h[0] + row[1] * h[1] + row[2] * h[2] + row[3] * h[3]
          + row[4] * h[4] + row[5] * h[5] + row[6] * h[6] + row[7] * h[7]
  {
    TailStep(row, h, 0, 0, row[0], h[0]);
    TailStep(row, h, 0, 1, row[1], h[1]);
    TailStep(row, h, 0, 2, row[2], h[2]);
    TailStep(row, h, 0, 3, row[3], h[3]);
    TailStep(row, h, 0, 4, row[4], h[4]);
    TailStep(row, h, 0, 5, row[5], h[5]);
    TailStep(row, h, 0, 6, row[6], h[6]);
    TailStep(row, h, 0, 7, row[7], h[7]);
  }

  lemma EquationXTail(s: Vec2, d: Vec2, h: seq<real>)
    requires |h| == 8
    ensures Tail(EquationX(s, d), h, 0, 8)
         == (-s.x) * h[0] + (-s.y) * h[1] + (-1.0) * h[2] + (s.x * d.x) * h[6] + (s.y * d.x) * h[7]
  {
    TailOfEight(EquationX(s, d), h);
  }

  lemma EquationYTail(s: Vec2, d: Vec2, h: seq<real>)
    requires |h| == 8
    ensures Tail(EquationY(s, d), h, 0, 8)
         == (-s.x) * h[3] + (-s.y) * h[4] + (-1.0) * h[5] + (s.x * d.y) * h[6] + (s.y * d.y) * h[7]
  {
    TailOfEight(EquationY(s, d), h);
  }

  /** The x row of a correspondence holds exactly when the placed matrix maps it in x. */
  lemma EquationXHolds(s: Vec2, d: Vec2, h: seq<real>)
    requires |h| == 8
    ensures RowHolds(EquationX(s, d), h) <==> MapsX(Placement(h), s, d)
  {
    EquationXTail(s, d, h);
    PlacementImage(h, s);
    ProjectiveEquation(h[0], h[1], h[2], h[6], h[7], s.x, s.y, d.x);
  }

  /** The y row likewise. */
  lemma EquationYHolds(s: Vec2, d: Vec2, h: seq<real>)
    requires |h| == 8
    ensures RowHolds(EquationY(s, d), h) <==> MapsY(Placement(h), s, d)
  {
    EquationYTail(s, d, h);
    PlacementImage(h, s);
    ProjectiveEquation(h[3], h[4], h[5], h[6], h[7], s.x, s.y, d.y);
  }

  /** Correspondence k holds for Placement(h) exactly when rows 2k and 2k+1 of the system do. */
  lemma CorrespondenceRows(src: seq<Vec2>, dst: seq<Vec2>, h: seq<real>, k: nat)
    requires |src| >= 4 && |dst| >= 4 && |h| == 8 && k < 4
    ensures MapsPoint(Placement(h), src[k], dst[k]) <==>
      RowHolds(Row(BuildSystem(src, dst), 8, 9, 2 * k), h) && RowHolds(Row(BuildSystem(src, dst), 8, 9, 2 * k + 1), h)
  {
    RowOfEquations(src, dst, 0, k);
    EquationXHolds(src[k], dst[k], h);
    EquationYHolds(src[k], dst[k], h);
  }

  /** The solutions of the system are exactly the coefficient vectors whose placement fits. */
  lemma SolutionsAreFits(src: seq<Vec2>, dst: seq<Vec2>, h: seq<real>)
    requires |src| >= 4 && |dst| >= 4 && |h| == 8
    ensures IsSolution(BuildSystem(src, dst), 8, 9, h) <==> Fits(Placement(h), src, dst)
  {
    var P := BuildSystem(src, dst);
    if IsSolution(P, 8, 9, h) {
      forall k | 0 <= k < 4 ensures MapsPoint(Placement(h), src[k], dst[k]) {
        CorrespondenceRows(src, dst, h, k);
      }
    }
    if Fits(Placement(h), src, dst) {
      forall r | 0 <= r < 8 ensures RowHolds(Row(P, 8, 9, r), h) {
        var k := r / 2;
        assert r == 2 * k || r == 2 * k + 1;
        CorrespondenceRows(src, dst, h, k);
      }
    }
  }

  /** The unique solution of the system is the only placement that fits. */
  lemma UniqueFit(src: seq<Vec2>, dst: seq<Vec2>, h: seq<real>)
    requires |src| >= 4 && |dst| >= 4 && |h| == 8
    requires UniqueSolution(BuildSystem(src, dst), 8, 9, h)
    ensures Fits(Placement(h), src, dst)
    ensures forall T :: IsPlacement(T) && Fits(T, src, dst) ==> T == Placement(h)
  {
    SolutionsAreFits(src, dst, h);
    forall T | IsPlacement(T) && Fits(T, src, dst) ensures T == Placement(h) {
      PlacementOfCoefficients(T);
      SolutionsAreFits(src, dst, Coefficients(T));
    }
  }

  /** The last column of the solved 8 x 9 system, cell by cell. */
  lemma LastColumnCells(M: seq<real>)
    requires |M| == 8 * 9
    ensures Column(M, 8, 9) == [M[8], M[17], M[26], M[35], M[44], M[53], M[62], M[71]]
  {
    RowAt(M, 8, 9, 0, 8);
    RowAt(M, 8, 9, 1, 8);
    RowAt(M, 8, 9, 2, 8);
    RowAt(M, 8, 9, 3, 8);
    RowAt(M, 8, 9, 4, 8);
    RowAt(M, 8, 9, 5, 8);
    RowAt(M, 8, 9, 6, 8);
    RowAt(M, 8, 9, 7, 8);
  }

  /** The cells FindHomography copies out of the solved P. */
  function ReadTransform(P: array<real>): (T: Matrix4x4)
    reads P
    requires P.Length == 8 * 9
    ensures T == Placement(Column(P[..], 8, 9))
  {
    LastColumnCells(P[..]);
    Matrix4x4(P[8], P[17], 0.0, P[26],
              P[35], P[44], 0.0, P[53],
              0.0, 0.0, 0.0, 0.0,
              P[62], P[71], 0.0, 1.0)
  }

  /** The array P of FindHomography, filled with the system. */
  method NewSystem(src: seq<Vec2>, dst: seq<Vec2>) returns (P: array<real>)
    requires |src| >= 4 && |dst| >= 4
    ensures fresh(P) && P[..] == BuildSystem(src, dst)
  {
    var system := BuildSystem(src, dst);
    P := new real[72](q requires 0 <= q < 72 => system[q]);
    assert P[..] == system;
  }

  /**
   * FindHomography: build the system for the four correspondences, solve it
   * in place, and place the last column into the matrix. When elimination
   * found a pivot on every diagonal the matrix maps all four points and is
   * the only such matrix.
   */
  method FindHomography(src: seq<Vec2>, dst: seq<Vec2>) returns (transform: Matrix4x4)
    requires |src| >= 4 && |dst| >= 4
    ensures IsPlacement(transform)
    ensures DiagonalPivots(Forward(BuildSystem(src, dst), 9).pivots, 8) ==>
      Fits(transform, src, dst) && forall T :: IsPlacement(T) && Fits(T, src, dst) ==> T == transform
  {
    var P := NewSystem(src, dst);
    GaussianElimination(P, 9);
    transform := ReadTransform(P);
    if DiagonalPivots(Forward(BuildSystem(src, dst), 9).pivots, 8) {
      UniqueFit(src, dst, Column(P[..], 8, 9));
    }
  }
}
