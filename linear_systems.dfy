/**
 * Specification-level theory of the augmented linear systems that the
 * homography solver works on: an m x n matrix stored row-major in a flat
 * sequence (cell (r, c) at index r*n + c), whose last column is the right-hand
 * side. It defines what a solution is, when two systems have the same
 * solutions, the three elementary row operations the solver performs, and the
 * echelon shape that elimination produces.
 */
module LinearSystems {

  lemma MulMonotone(a: nat, b: nat, n: nat)
    requires a <= b
    ensures a * n <= b * n
  {
    assert b * n == a * n + (b - a) * n;
  }

  /** Row r of an m x n matrix lies inside the flat storage. */
  lemma RowFits(m: nat, n: nat, r: nat)
    requires r < m
    ensures 0 <= r * n && r * n + n <= m * n
  {
    MulMonotone(r + 1, m, n);
  }

  /** Cell (r, c) lies before row i when r < i, and after it when r > i. */
  lemma RowBlocks(n: nat, r: nat, c: nat, i: nat)
    requires c < n
    ensures r < i ==> r * n + c < i * n
    ensures i < r ==> i * n + n <= r * n + c
  {
    if r < i { MulMonotone(r + 1, i, n); }
    if i < r { MulMonotone(i + 1, r, n); }
  }

  /** Distinct rows occupy disjoint index ranges. */
  lemma RowsApart(n: nat, i: nat, k: nat)
    ensures i < k ==> i * n + n <= k * n
    ensures k < i ==> k * n + n <= i * n
  {
    if i < k { MulMonotone(i + 1, k, n); }
    if k < i { MulMonotone(k + 1, i, n); }
  }

  /** Distinct cells of an m x n matrix have distinct flat indices. */
  lemma CellsDistinct(n: nat, r: nat, c: nat, i: nat, d: nat)
    requires c < n && d < n
    ensures r * n + c == i * n + d ==> r == i && c == d
  {
    RowBlocks(n, r, c, i);
  }

  /**
   * Row r of the flat m x n matrix M: the first n cells after dropping r rows.
   * (Defined row by row so that the solver does not see index products.)
   */
  function Row(M: seq<real>, m: nat, n: nat, r: nat): (row: seq<real>)
    requires |M| == m * n && r < m
    ensures |row| == n
    decreases r
  {
    assert m * n == (m - 1) * n + n;
    if r == 0 then M[..n] else Row(M[n..], m - 1, n, r - 1)
  }

  /** Cell (r, c) of M is at flat index r*n + c. */
  lemma {:induction false} RowAt(M: seq<real>, m: nat, n: nat, r: nat, c: nat)
    requires |M| == m * n && r < m && c < n
    ensures r * n + c < |M| && Row(M, m, n, r)[c] == M[r * n + c]
    decreases r
  {
    RowFits(m, n, r);
    assert m * n == (m - 1) * n + n;
    if r > 0 {
      RowAt(M[n..], m - 1, n, r - 1, c);
      assert (r - 1) * n + c + n == r * n + c;
    }
  }

  /** Writing one cell changes that cell of its row and nothing else. */
  lemma RowOfUpdate(M: seq<real>, m: nat, n: nat, r: nat, c: nat, v: real, q: nat, d: nat)
    requires |M| == m * n && r < m && c < n && q < m && d < n
    ensures r * n + c < |M|
    ensures Row(M[r * n + c := v], m, n, q)[d] == if q == r && d == c then v else Row(M, m, n, q)[d]
  {
    RowAt(M, m, n, r, c);
    RowAt(M, m, n, q, d);
    RowAt(M[r * n + c := v], m, n, q, d);
    CellsDistinct(n, q, d, r, c);
  }

  /** Two matrices of the same shape that agree cell by cell are equal. */
  lemma CellsDetermine(M1: seq<real>, M2: seq<real>, m: nat, n: nat)
    requires |M1| == m * n && |M2| == m * n
    requires forall r, c :: 0 <= r < m && 0 <= c < n ==> Row(M1, m, n, r)[c] == Row(M2, m, n, r)[c]
    ensures M1 == M2
  {
    forall q | 0 <= q < |M1| ensures M1[q] == M2[q] {
      var r, c := q / n, q % n;
      assert q == r * n + c;
      if m <= r { MulMonotone(m, r, n); }
      RowAt(M1, m, n, r, c);
      RowAt(M2, m, n, r, c);
    }
  }

  /** row[lo]*x[lo] + ... + row[hi-1]*x[hi-1]. */
  function Tail(row: seq<real>, x: seq<real>, lo: nat, hi: nat): real
    requires lo <= hi <= |row| && hi <= |x|
    decreases hi - lo
  {
    if lo == hi then 0.0 else Tail(row, x, lo, hi - 1) + row[hi - 1] * x[hi - 1]
  }

  /** One more term on the right of a tail sum. */
  lemma TailStep(row: seq<real>, x: seq<real>, lo: nat, hi: nat, coefficient: real, value: real)
    requires lo <= hi < |row| && hi < |x| && row[hi] == coefficient && x[hi] == value
    ensures Tail(row, x, lo, hi + 1) == Tail(row, x, lo, hi) + coefficient * value
  {
  }

  /** The equation an augmented row states about the unknowns x. */
  predicate RowHolds(row: seq<real>, x: seq<real>)
    requires |row| >= 1 && |x| == |row| - 1
  {
    Tail(row, x, 0, |row| - 1) == row[|row| - 1]
  }

  /** x satisfies every equation of the m x n augmented system M. */
  predicate IsSolution(M: seq<real>, m: nat, n: nat, x: seq<real>)
    requires |M| == m * n && n >= 1 && |x| == n - 1
  {
    forall r :: 0 <= r < m ==> RowHolds(Row(M, m, n, r), x)
  }

  /** Two augmented systems of the same shape have the same solutions. */
  ghost predicate Equivalent(M1: seq<real>, M2: seq<real>, m: nat, n: nat)
    requires |M1| == m * n && |M2| == m * n && n >= 1
  {
    forall x :: |x| == n - 1 ==> (IsSolution(M1, m, n, x) <==> IsSolution(M2, m, n, x))
  }

  lemma EquivalentTransitive(M1: seq<real>, M2: seq<real>, M3: seq<real>, m: nat, n: nat)
    requires |M1| == m * n && |M2| == m * n && |M3| == m * n && n >= 1
    requires Equivalent(M1, M2, m, n) && Equivalent(M2, M3, m, n)
    ensures Equivalent(M1, M3, m, n)
  {
  }

  // ---------------------------------------------------------------------
  // Row operations

  /** M with row r replaced by `row`. */
  function ReplaceRow(M: seq<real>, m: nat, n: nat, r: nat, row: seq<real>): (M': seq<real>)
    requires |M| == m * n && r < m && |row| == n
    ensures |M'| == |M|
  {
    RowFits(m, n, r);
    M[..r * n] + row + M[r * n + n..]
  }

  /** Where a flat index of the replaced matrix takes its value from. */
  lemma ReplaceRowAt(M: seq<real>, m: nat, n: nat, r: nat, row: seq<real>, q: nat)
    requires |M| == m * n && r < m && |row| == n && q < |M|
    ensures r * n <= q < r * n + n ==> ReplaceRow(M, m, n, r, row)[q] == row[q - r * n]
    ensures !(r * n <= q < r * n + n) ==> ReplaceRow(M, m, n, r, row)[q] == M[q]
  {
    RowFits(m, n, r);
  }

  lemma RowOfReplace(M: seq<real>, m: nat, n: nat, r: nat, row: seq<real>, s: nat)
    requires |M| == m * n && r < m && |row| == n && s < m
    ensures Row(ReplaceRow(M, m, n, r, row), m, n, s) == if s == r then row else Row(M, m, n, s)
  {
    var M' := ReplaceRow(M, m, n, r, row);
    var want := if s == r then row else Row(M, m, n, s);
    forall c | 0 <= c < n ensures Row(M', m, n, s)[c] == want[c] {
      RowAt(M', m, n, s, c);
      RowAt(M, m, n, s, c);
      RowBlocks(n, s, c, r);
      ReplaceRowAt(M, m, n, r, row, s * n + c);
    }
  }

  function Divided(row: seq<real>, p: real): (d: seq<real>)
    requires p != 0.0
    ensures |d| == |row|
  {
    seq(|row|, c requires 0 <= c < |row| => row[c] / p)
  }

  /** One cell of a row operation: v less f times w. */
  function Reduced(v: real, f: real, w: real): real
  {
    v - f * w
  }

  function Minus(a: seq<real>, f: real, b: seq<real>): (d: seq<real>)
    requires |a| == |b|
    ensures |d| == |a|
  {
    seq(|a|, c requires 0 <= c < |a| => Reduced(a[c], f, b[c]))
  }

  /** Exchange rows i and k; every other row stays. */
  function SwapRows(M: seq<real>, m: nat, n: nat, i: nat, k: nat): (M': seq<real>)
    requires |M| == m * n && i < m && k < m
    ensures |M'| == |M|
  {
    ReplaceRow(ReplaceRow(M, m, n, i, Row(M, m, n, k)), m, n, k, Row(M, m, n, i))
  }

  /** Divide every cell of row i by p. */
  function DivideRow(M: seq<real>, m: nat, n: nat, i: nat, p: real): (M': seq<real>)
    requires |M| == m * n && i < m && p != 0.0
    ensures |M'| == |M|
  {
    ReplaceRow(M, m, n, i, Divided(Row(M, m, n, i), p))
  }

  /** Subtract f times row i from row u. */
  function SubtractRow(M: seq<real>, m: nat, n: nat, u: nat, i: nat, f: real): (M': seq<real>)
    requires |M| == m * n && u < m && i < m
    ensures |M'| == |M|
  {
    ReplaceRow(M, m, n, u, Minus(Row(M, m, n, u), f, Row(M, m, n, i)))
  }

  lemma RowOfSwap(M: seq<real>, m: nat, n: nat, i: nat, k: nat, r: nat)
    requires |M| == m * n && i < m && k < m && r < m
    ensures Row(SwapRows(M, m, n, i, k), m, n, r)
         == Row(M, m, n, if r == i then k else if r == k then i else r)
  {
    var M1 := ReplaceRow(M, m, n, i, Row(M, m, n, k));
    RowOfReplace(M1, m, n, k, Row(M, m, n, i), r);
    RowOfReplace(M, m, n, i, Row(M, m, n, k), r);
  }

  lemma RowOfDivide(M: seq<real>, m: nat, n: nat, i: nat, p: real, r: nat)
    requires |M| == m * n && i < m && p != 0.0 && r < m
    ensures Row(DivideRow(M, m, n, i, p), m, n, r)
         == if r == i then Divided(Row(M, m, n, i), p) else Row(M, m, n, r)
  {
    RowOfReplace(M, m, n, i, Divided(Row(M, m, n, i), p), r);
  }

  lemma RowOfSubtract(M: seq<real>, m: nat, n: nat, u: nat, i: nat, f: real, r: nat)
    requires |M| == m * n && u < m && i < m && r < m
    ensures Row(SubtractRow(M, m, n, u, i, f), m, n, r)
         == if r == u then Minus(Row(M, m, n, u), f, Row(M, m, n, i)) else Row(M, m, n, r)
  {
    RowOfReplace(M, m, n, u, Minus(Row(M, m, n, u), f, Row(M, m, n, i)), r);
  }

  /** The row operations cell by cell, at flat indices. */
  lemma SwapRowsAt(M: seq<real>, m: nat, n: nat, i: nat, k: nat, q: nat)
    requires |M| == m * n && i < m && k < m && q < |M|
    ensures i * n + n <= |M| && k * n + n <= |M|
    ensures SwapRows(M, m, n, i, k)[q]
         == if k * n <= q < k * n + n then M[q - k * n + i * n]
            else if i * n <= q < i * n + n then M[q - i * n + k * n]
            else M[q]
  {
    RowFits(m, n, i);
    RowFits(m, n, k);
    var M1 := ReplaceRow(M, m, n, i, Row(M, m, n, k));
    ReplaceRowAt(M1, m, n, k, Row(M, m, n, i), q);
    ReplaceRowAt(M, m, n, i, Row(M, m, n, k), q);
    if k * n <= q < k * n + n { RowAt(M, m, n, i, q - k * n); }
    if i * n <= q < i * n + n { RowAt(M, m, n, k, q - i * n); }
  }

  lemma DivideRowAt(M: seq<real>, m: nat, n: nat, i: nat, p: real, q: nat)
    requires |M| == m * n && i < m && p != 0.0 && q < |M|
    ensures i * n + n <= |M|
    ensures DivideRow(M, m, n, i, p)[q] == if i * n <= q < i * n + n then M[q] / p else M[q]
  {
    RowFits(m, n, i);
    ReplaceRowAt(M, m, n, i, Divided(Row(M, m, n, i), p), q);
    if i * n <= q < i * n + n { RowAt(M, m, n, i, q - i * n); }
  }

  lemma SubtractRowAt(M: seq<real>, m: nat, n: nat, u: nat, i: nat, f: real, q: nat)
    requires |M| == m * n && u < m && i < m && q < |M|
    ensures u * n + n <= |M| && i * n + n <= |M|
    ensures SubtractRow(M, m, n, u, i, f)[q]
         == if u * n <= q < u * n + n then Reduced(M[q], f, M[q - u * n + i * n]) else M[q]
  {
    RowFits(m, n, u);
    RowFits(m, n, i);
    ReplaceRowAt(M, m, n, u, Minus(Row(M, m, n, u), f, Row(M, m, n, i)), q);
    if u * n <= q < u * n + n {
      RowAt(M, m, n, u, q - u * n);
      RowAt(M, m, n, i, q - u * n);
    }
  }

  // ---------------------------------------------------------------------
  // Sums

  lemma {:induction false} TailFrame(r1: seq<real>, x1: seq<real>, r2: seq<real>, x2: seq<real>, lo: nat, hi: nat)
    requires lo <= hi <= |r1| && hi <= |x1| && hi <= |r2| && hi <= |x2|
    requires forall c :: lo <= c < hi ==> r1[c] == r2[c] && x1[c] == x2[c]
    ensures Tail(r1, x1, lo, hi) == Tail(r2, x2, lo, hi)
    decreases hi - lo
  {
    if lo < hi { TailFrame(r1, x1, r2, x2, lo, hi - 1); }
  }

  lemma {:induction false} TailSplit(row: seq<real>, x: seq<real>, lo: nat, mid: nat, hi: nat)
    requires lo <= mid <= hi <= |row| && hi <= |x|
    ensures Tail(row, x, lo, mid) + Tail(row, x, mid, hi) == Tail(row, x, lo, hi)
    decreases hi - mid
  {
    if mid < hi { TailSplit(row, x, lo, mid, hi - 1); }
  }

  lemma {:induction false} TailOfZeros(row: seq<real>, x: seq<real>, lo: nat, hi: nat)
    requires lo <= hi <= |row| && hi <= |x|
    requires forall c :: lo <= c < hi ==> row[c] == 0.0
    ensures Tail(row, x, lo, hi) == 0.0
    decreases hi - lo
  {
    if lo < hi { TailOfZeros(row, x, lo, hi - 1); }
  }

  lemma {:induction false} TailDivided(row: seq<real>, p: real, x: seq<real>, lo: nat, hi: nat)
    requires p != 0.0 && lo <= hi <= |row| && hi <= |x|
    ensures Tail(Divided(row, p), x, lo, hi) * p == Tail(row, x, lo, hi)
    decreases hi - lo
  {
    if lo < hi {
      var d := Divided(row, p);
      TailDivided(row, p, x, lo, hi - 1);
      var t', a, b := Tail(d, x, lo, hi - 1), d[hi - 1], x[hi - 1];
      assert a * p == row[hi - 1];
      calc {
        Tail(d, x, lo, hi) * p;
        (t' + a * b) * p;
        t' * p + (a * p) * b;
        Tail(row, x, lo, hi - 1) + row[hi - 1] * b;
      }
    }
  }

  lemma {:induction false} TailMinus(a: seq<real>, f: real, b: seq<real>, x: seq<real>, lo: nat, hi: nat)
    requires |a| == |b| && lo <= hi <= |a| && hi <= |x|
    ensures Tail(Minus(a, f, b), x, lo, hi) == Tail(a, x, lo, hi) - f * Tail(b, x, lo, hi)
    decreases hi - lo
  {
    if lo < hi {
      TailMinus(a, f, b, x, lo, hi - 1);
      var ta, tb, xa, xb, v := Tail(a, x, lo, hi - 1), Tail(b, x, lo, hi - 1), a[hi - 1], b[hi - 1], x[hi - 1];
      var pa, pb := xa * v, xb * v;
      calc {
        Tail(Minus(a, f, b), x, lo, hi);
        (ta - f * tb) + (xa - f * xb) * v;
        (ta - f * tb) + (pa - f * pb);
        (ta + pa) - (f * tb + f * pb);
        (ta + xa * v) - f * (tb + xb * v);
      }
    }
  }

  // ---------------------------------------------------------------------
  // Row operations keep the solution set

  lemma SwapEquivalent(M: seq<real>, m: nat, n: nat, i: nat, k: nat)
    requires |M| == m * n && n >= 1 && i < m && k < m
    ensures Equivalent(SwapRows(M, m, n, i, k), M, m, n)
  {
    var M' := SwapRows(M, m, n, i, k);
    forall x | |x| == n - 1 ensures IsSolution(M', m, n, x) <==> IsSolution(M, m, n, x) {
      if IsSolution(M, m, n, x) {
        forall r | 0 <= r < m ensures RowHolds(Row(M', m, n, r), x) {
          RowOfSwap(M, m, n, i, k, r);
        }
      }
      if IsSolution(M', m, n, x) {
        forall r | 0 <= r < m ensures RowHolds(Row(M, m, n, r), x) {
          var s := if r == i then k else if r == k then i else r;
          RowOfSwap(M, m, n, i, k, s);
          assert RowHolds(Row(M', m, n, s), x);
        }
      }
    }
  }

  lemma DividedRowHolds(row: seq<real>, p: real, x: seq<real>)
    requires p != 0.0 && |row| >= 1 && |x| == |row| - 1
    ensures RowHolds(Divided(row, p), x) <==> RowHolds(row, x)
  {
    var d := Divided(row, p);
    var k := |row| - 1;
    TailDivided(row, p, x, 0, k);
    assert d[k] * p == row[k];
    var t := Tail(d, x, 0, k);
    if t == d[k] {
      assert t * p == d[k] * p;
    }
    if t * p == d[k] * p {
      assert (t - d[k]) * p == 0.0;
    }
  }

  lemma DivideEquivalent(M: seq<real>, m: nat, n: nat, i: nat, p: real)
    requires |M| == m * n && n >= 1 && i < m && p != 0.0
    ensures Equivalent(DivideRow(M, m, n, i, p), M, m, n)
  {
    var M' := DivideRow(M, m, n, i, p);
    forall x | |x| == n - 1 ensures IsSolution(M', m, n, x) <==> IsSolution(M, m, n, x) {
      forall r | 0 <= r < m ensures RowHolds(Row(M', m, n, r), x) <==> RowHolds(Row(M, m, n, r), x) {
        RowOfDivide(M, m, n, i, p, r);
        if r == i { DividedRowHolds(Row(M, m, n, i), p, x); }
      }
    }
  }

  lemma MinusRowHolds(a: seq<real>, f: real, b: seq<real>, x: seq<real>)
    requires |a| == |b| && |a| >= 1 && |x| == |a| - 1
    requires RowHolds(b, x)
    ensures RowHolds(Minus(a, f, b), x) <==> RowHolds(a, x)
  {
    var k := |a| - 1;
    TailMinus(a, f, b, x, 0, k);
    assert Minus(a, f, b)[k] == a[k] - f * b[k];
  }

  lemma SubtractEquivalent(M: seq<real>, m: nat, n: nat, u: nat, i: nat, f: real)
    requires |M| == m * n && n >= 1 && u < m && i < m && u != i
    ensures Equivalent(SubtractRow(M, m, n, u, i, f), M, m, n)
  {
    var M' := SubtractRow(M, m, n, u, i, f);
    var ru, ri := Row(M, m, n, u), Row(M, m, n, i);
    RowOfSubtract(M, m, n, u, i, f, u);
    RowOfSubtract(M, m, n, u, i, f, i);
    forall x | |x| == n - 1 ensures IsSolution(M', m, n, x) <==> IsSolution(M, m, n, x) {
      forall r | 0 <= r < m && r != u ensures Row(M', m, n, r) == Row(M, m, n, r) {
        RowOfSubtract(M, m, n, u, i, f, r);
      }
      if RowHolds(ri, x) {
        MinusRowHolds(ru, f, ri, x);
      }
    }
  }

  // ---------------------------------------------------------------------
  // Echelon shape produced by forward elimination

  /** row[c] is 1 and every cell left of it is 0. */
  predicate LeadingOne(row: seq<real>, c: nat)
    requires c < |row|
  {
    row[c] == 1.0 && forall d :: 0 <= d < c ==> row[d] == 0.0
  }

  /**
   * Forward elimination has dealt with columns 0..j-1: row r < |piv| has its
   * leading 1 in column piv[r], the pivot columns increase, and every row not
   * yet pivoted is zero in the columns before j.
   */
  predicate Pivoted(M: seq<real>, m: nat, n: nat, piv: seq<nat>, j: nat)
    requires |M| == m * n
  {
    && |piv| <= m && j <= n
    && (forall r :: 0 <= r < |piv| ==> piv[r] < j && LeadingOne(Row(M, m, n, r), piv[r]))
    && (forall r, s :: 0 <= r < s < |piv| ==> piv[r] < piv[s])
    && (forall u, c :: |piv| <= u < m && 0 <= c < j ==> Row(M, m, n, u)[c] == 0.0)
  }

  /** Every one of the m rows got its pivot on the diagonal. */
  predicate DiagonalPivots(piv: seq<nat>, m: nat)
  {
    |piv| == m && forall r :: 0 <= r < m ==> piv[r] == r
  }

  /** A column whose remaining cells are all zero is skipped. */
  lemma PivotedSkip(M: seq<real>, m: nat, n: nat, piv: seq<nat>, j: nat)
    requires |M| == m * n && Pivoted(M, m, n, piv, j) && j < n
    requires forall u :: |piv| <= u < m ==> Row(M, m, n, u)[j] == 0.0
    ensures Pivoted(M, m, n, piv, j + 1)
  {
  }

  lemma PivotedSwap(M: seq<real>, m: nat, n: nat, piv: seq<nat>, j: nat, k: nat)
    requires |M| == m * n && Pivoted(M, m, n, piv, j) && |piv| <= k < m
    ensures Pivoted(SwapRows(M, m, n, |piv|, k), m, n, piv, j)
  {
    var M' := SwapRows(M, m, n, |piv|, k);
    forall r | 0 <= r < m {
      RowOfSwap(M, m, n, |piv|, k, r);
    }
  }

  lemma PivotedDivide(M: seq<real>, m: nat, n: nat, piv: seq<nat>, j: nat, p: real)
    requires |M| == m * n && Pivoted(M, m, n, piv, j) && |piv| < m && p != 0.0
    ensures Pivoted(DivideRow(M, m, n, |piv|, p), m, n, piv, j)
  {
    var M' := DivideRow(M, m, n, |piv|, p);
    forall r | 0 <= r < m {
      RowOfDivide(M, m, n, |piv|, p, r);
    }
  }

  /**
   * After the pivot row i = |piv| holds a leading 1 in column j and every row
   * below it is zero up to and including column j, column j is pivoted.
   */
  lemma PivotedAdvance(M: seq<real>, M': seq<real>, m: nat, n: nat, piv: seq<nat>, j: nat)
    requires |M| == m * n && |M'| == m * n && Pivoted(M, m, n, piv, j) && |piv| < m && j < n
    requires Row(M, m, n, |piv|)[j] == 1.0
    requires forall r :: 0 <= r <= |piv| ==> Row(M', m, n, r) == Row(M, m, n, r)
    requires forall u, c :: |piv| < u < m && 0 <= c <= j ==> Row(M', m, n, u)[c] == 0.0
    ensures Pivoted(M', m, n, piv + [j], j + 1)
  {
    var i := |piv|;
    assert LeadingOne(Row(M, m, n, i), j);
  }

  // ---------------------------------------------------------------------
  // Back substitution

  /** The right-hand-side column, read as the vector of unknowns. */
  function Column(M: seq<real>, m: nat, n: nat): (x: seq<real>)
    requires |M| == m * n && n >= 1
    ensures |x| == m
  {
    seq(m, r requires 0 <= r < m => Row(M, m, n, r)[n - 1])
  }

  /**
   * The last column of A holds back-substituted values for row r of E: the
   * value in row r plus E's coefficients right of the diagonal times the
   * values in the rows below gives E's right-hand side.
   */
  predicate BackRowHolds(A: seq<real>, E: seq<real>, m: nat, n: nat, r: nat)
    requires n == m + 1 && |A| == m * n && |E| == m * n && r < m
  {
    Row(A, m, n, r)[n - 1] + Tail(Row(E, m, n, r), Column(A, m, n), r + 1, n - 1) == Row(E, m, n, r)[n - 1]
  }

  /** A row with its leading 1 at r contributes x[r] plus the cells to its right. */
  lemma UnitRowTail(row: seq<real>, x: seq<real>, r: nat)
    requires r < |row| - 1 && |x| == |row| - 1 && LeadingOne(row, r)
    ensures Tail(row, x, 0, |row| - 1) == x[r] + Tail(row, x, r + 1, |row| - 1)
  {
    var k := |row| - 1;
    TailSplit(row, x, 0, r, k);
    TailSplit(row, x, r, r + 1, k);
    TailOfZeros(row, x, 0, r);
  }

  lemma BackSubstitutionSolves(A: seq<real>, E: seq<real>, m: nat, n: nat)
    requires n == m + 1 && |A| == m * n && |E| == m * n
    requires forall r :: 0 <= r < m ==> LeadingOne(Row(E, m, n, r), r) && BackRowHolds(A, E, m, n, r)
    ensures IsSolution(E, m, n, Column(A, m, n))
  {
    var x := Column(A, m, n);
    forall r | 0 <= r < m ensures RowHolds(Row(E, m, n, r), x) {
      UnitRowTail(Row(E, m, n, r), x, r);
      assert BackRowHolds(A, E, m, n, r);
    }
  }

  /** Solutions of a unit upper-triangular system agree from row k on. */
  lemma {:induction false} SolutionsAgreeFrom(E: seq<real>, m: nat, n: nat, x: seq<real>, y: seq<real>, k: nat)
    requires n == m + 1 && |E| == m * n && |x| == m && |y| == m && k <= m
    requires forall r :: 0 <= r < m ==> LeadingOne(Row(E, m, n, r), r)
    requires IsSolution(E, m, n, x) && IsSolution(E, m, n, y)
    ensures forall r :: k <= r < m ==> x[r] == y[r]
    decreases m - k
  {
    if k < m {
      SolutionsAgreeFrom(E, m, n, x, y, k + 1);
      var row := Row(E, m, n, k);
      assert RowHolds(row, x) && RowHolds(row, y);
      UnitRowTail(row, x, k);
      UnitRowTail(row, y, k);
      TailFrame(row, x, row, y, k + 1, m);
    }
  }

  lemma UnitUpperUniqueSolution(E: seq<real>, m: nat, n: nat, x: seq<real>, y: seq<real>)
    requires n == m + 1 && |E| == m * n && |x| == m && |y| == m
    requires forall r :: 0 <= r < m ==> LeadingOne(Row(E, m, n, r), r)
    requires IsSolution(E, m, n, x) && IsSolution(E, m, n, y)
    ensures x == y
  {
    SolutionsAgreeFrom(E, m, n, x, y, 0);
  }
}
