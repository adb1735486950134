// The in-place Gaussian elimination over GF(2) of the stabilizer code example.  It exchanges
// rows, exchanges qubits (a column together with its partner in the other half), and adds rows.
module Elimination {
  import opened Gf2

  // The matrix an array holds, as a sequence of rows.
  function Mat(M: array2<bool>): (m: Matrix)
    reads M
    ensures |m| == M.Length0 && Wide(m, M.Length1)
    ensures forall i, j :: 0 <= i < M.Length0 && 0 <= j < M.Length1 ==> m[i][j] == M[i, j]
  {
    seq(M.Length0, i requires 0 <= i < M.Length0 reads M =>
      seq(M.Length1, j requires 0 <= j < M.Length1 reads M => M[i, j]))
  }

  ghost predicate Commuting(a: Matrix, n: nat)
    requires Wide(a, 2 * n)
  {
    forall i, j :: 0 <= i < |a| && 0 <= j < |a| ==> !Symplectic(a[i], a[j], n)
  }

  // The column range lies in one half of the matrix.
  ghost predicate OneHalf(minCol: nat, maxCol: nat, n: nat) {
    minCol <= maxCol && (maxCol <= n || (n <= minCol && maxCol <= 2 * n))
  }

  // The partner column: the same qubit in the other half.
  function OtherHalf(j: nat, n: nat): nat {
    if j < n then j + n else j - n
  }

  lemma {:induction false} OtherHalfIsModular(j: nat, n: nat)
    requires j < 2 * n
    ensures (j + n) % (2 * n) == OtherHalf(j, n)
  {
    if j < n {
    } else {
      assert j + n == 1 * (2 * n) + (j - n);
      assert (j + n) / (2 * n) == 1;
    }
  }

  // Qubit q has its X or its Z column in the column range.
  predicate Touches(q: nat, n: nat, minCol: nat, maxCol: nat) {
    minCol <= q < maxCol || minCol <= q + n < maxCol
  }

  // A permutation of the n qubits that moves only qubits of the column range.
  ghost predicate QubitPermutation(perm: seq<nat>, n: nat, minCol: nat, maxCol: nat) {
    && |perm| == n && Onto(perm, n)
    && forall q :: 0 <= q < n ==>
         if Touches(q, n, minCol, maxCol) then Touches(perm[q], n, minCol, maxCol) else perm[q] == q
  }

  // The same permutation applied to the columns of both halves.
  function Columns(perm: seq<nat>, n: nat): (cols: seq<nat>)
    requires |perm| == n && Below(perm, n)
    ensures |cols| == 2 * n && Below(cols, 2 * n)
  {
    seq(2 * n, j requires 0 <= j < 2 * n => if j < n then perm[j] else perm[j - n] + n)
  }

  // Up to the qubit permutation, rows outside [minRow, maxRow) are untouched and rows inside
  // span the same space.
  ghost predicate Rearranged(before: Matrix, after: Matrix, n: nat, minRow: nat, maxRow: nat, cols: seq<nat>)
    requires Wide(before, 2 * n) && Wide(after, 2 * n) && Below(cols, 2 * n) && |cols| == 2 * n
    requires minRow <= maxRow <= |before|
  {
    && |after| == |before|
    && (forall i :: 0 <= i < |before| && !(minRow <= i < maxRow) ==> after[i] == Pick(before[i], cols))
    && Span(after[minRow..maxRow], 2 * n) == Span(PickAll(before[minRow..maxRow], 2 * n, cols), 2 * n)
  }

  ghost predicate Preserved(before: Matrix, after: Matrix, n: nat, minRow: nat, maxRow: nat,
                            minCol: nat, maxCol: nat, perm: seq<nat>)
    requires Wide(before, 2 * n) && Wide(after, 2 * n)
    requires minRow <= maxRow <= |before|
  {
    && QubitPermutation(perm, n, minCol, maxCol)
    && Rearranged(before, after, n, minRow, maxRow, Columns(perm, n))
    && (Commuting(before, n) ==> Commuting(after, n))
  }

  // Below the diagonal of the first `rank` pivots everything in the row range is clear.
  ghost predicate Triangular(a: Matrix, w: nat, minRow: nat, maxRow: nat, minCol: nat, rank: nat)
    requires Wide(a, w) && minRow + rank <= maxRow <= |a| && minCol + rank <= w
  {
    forall k, j :: minCol <= j < minCol + rank && minRow + j - minCol <= k < maxRow
      ==> a[k][j] == (k - minRow == j - minCol)
  }

  // Identity in the pivot block, zeros below it across the whole column range.
  ghost predicate Reduced(a: Matrix, w: nat, minRow: nat, maxRow: nat, minCol: nat, maxCol: nat, rank: nat)
    requires Wide(a, w) && minRow + rank <= maxRow <= |a| && minCol + rank <= maxCol <= w
  {
    && (forall k, j :: minRow <= k < minRow + rank && minCol <= j < minCol + rank
          ==> a[k][j] == (k - minRow == j - minCol))
    && (forall k, j :: minRow + rank <= k < maxRow && minCol <= j < maxCol ==> !a[k][j])
  }

  ghost function Block(a: Matrix, w: nat, minRow: nat, maxRow: nat, minCol: nat, maxCol: nat): (b: Matrix)
    requires Wide(a, w) && minRow <= maxRow <= |a| && minCol <= maxCol <= w
    ensures Wide(b, maxCol - minCol)
  {
    PickAll(a[minRow..maxRow], w, Range(minCol, maxCol))
  }

  // ----- One step at a time -----

  lemma PreservedInitially(a: Matrix, n: nat, minRow: nat, maxRow: nat, minCol: nat, maxCol: nat)
    requires Wide(a, 2 * n) && minRow <= maxRow <= |a| && OneHalf(minCol, maxCol, n)
    ensures Preserved(a, a, n, minRow, maxRow, minCol, maxCol, Range(0, n))
  {
    var id := Range(0, n);
    forall q | 0 <= q < n ensures q in id { assert id[q] == q; }
    forall v: Vec | |v| == 2 * n ensures Pick(v, Columns(id, n)) == v {}
    assert PickAll(a[minRow..maxRow], 2 * n, Columns(id, n)) == a[minRow..maxRow];
  }

  lemma SwapRowsSpan(r: Matrix, w: nat, i: nat, p: nat)
    requires Wide(r, w) && i < |r| && p < |r|
    ensures Wide(Swap(r, i, p), w) && Span(Swap(r, i, p), w) == Span(r, w)
  {
    var r' := Swap(r, i, p);
    forall k | 0 <= k < |r| ensures r[k] in Span(r', w) && r'[k] in Span(r, w) {
      var k' := if k == i then p else if k == p then i else k;
      SpanHasRows(r, w, k');
      SpanHasRows(r', w, k');
      assert r'[k'] == r[k] && r[k'] == r'[k];
    }
    SpanLeast(r, r', w);
    SpanLeast(r', r, w);
  }

  lemma SliceOfSwap(a: Matrix, i: nat, p: nat, lo: nat, hi: nat)
    requires lo <= i < hi <= |a| && lo <= p < hi
    ensures Swap(a, i, p)[lo..hi] == Swap(a[lo..hi], i - lo, p - lo)
  {
  }

  lemma {:induction false} SwapRowsPreserves(before: Matrix, a: Matrix, n: nat, minRow: nat, maxRow: nat,
                          minCol: nat, maxCol: nat, perm: seq<nat>, i: nat, p: nat)
    requires Wide(before, 2 * n) && Wide(a, 2 * n) && minRow <= maxRow <= |before|
    requires Preserved(before, a, n, minRow, maxRow, minCol, maxCol, perm)
    requires minRow <= i < maxRow && minRow <= p < maxRow
    ensures Wide(Swap(a, i, p), 2 * n)
    ensures Preserved(before, Swap(a, i, p), n, minRow, maxRow, minCol, maxCol, perm)
  {
    hide Span, Symplectic, Columns;
    SwapRowsSpan(a[minRow..maxRow], 2 * n, i - minRow, p - minRow);
    SliceOfSwap(a, i, p, minRow, maxRow);
  }

  function AddRow(a: Matrix, k: nat, i: nat): (r: Matrix)
    requires k < |a| && i < |a| && |a[k]| == |a[i]|
  {
    a[k := Add(a[i], a[k])]
  }

  lemma AddRowSpan(r: Matrix, w: nat, k: nat, i: nat)
    requires Wide(r, w) && i < |r| && k < |r| && i != k
    ensures Wide(AddRow(r, k, i), w) && Span(AddRow(r, k, i), w) == Span(r, w)
  {
    var r' := AddRow(r, k, i);
    AddCancels(r[i], r[k]);
    assert Add(r'[i], r'[k]) == r[k];
    forall x | 0 <= x < |r| ensures r[x] in Span(r', w) && r'[x] in Span(r, w) {
      SpanHasRows(r, w, x);
      SpanHasRows(r', w, x);
      SpanHasRows(r, w, i);
      SpanHasRows(r', w, i);
      if x == k {
        SpanClosed(r, w, r[i], r[k]);
        SpanClosed(r', w, r'[i], r'[k]);
      }
    }
    SpanLeast(r, r', w);
    SpanLeast(r', r, w);
  }

  lemma AddRowCommuting(a: Matrix, n: nat, k: nat, i: nat)
    requires Wide(a, 2 * n) && i < |a| && k < |a|
    requires Commuting(a, n)
    ensures Wide(AddRow(a, k, i), 2 * n) && Commuting(AddRow(a, k, i), n)
  {
    var a' := AddRow(a, k, i);
    forall x, y | 0 <= x < |a| && 0 <= y < |a| ensures !Symplectic(a'[x], a'[y], n) {
      SymplecticAdd(a[i], a[k], a[y], n);
      SymplecticAdd(a[i], a[k], a[x], n);
      SymplecticSelf(a'[k], n);
    }
  }

  lemma {:induction false} AddRowPreserves(before: Matrix, a: Matrix, n: nat, minRow: nat, maxRow: nat,
                        minCol: nat, maxCol: nat, perm: seq<nat>, k: nat, i: nat)
    requires Wide(before, 2 * n) && Wide(a, 2 * n) && minRow <= maxRow <= |before|
    requires Preserved(before, a, n, minRow, maxRow, minCol, maxCol, perm)
    requires minRow <= i < maxRow && minRow <= k < maxRow && i != k
    ensures Wide(AddRow(a, k, i), 2 * n)
    ensures Preserved(before, AddRow(a, k, i), n, minRow, maxRow, minCol, maxCol, perm)
  {
    hide Span, Symplectic, Columns;
    AddRowSpan(a[minRow..maxRow], 2 * n, k - minRow, i - minRow);
    assert AddRow(a, k, i)[minRow..maxRow] == AddRow(a[minRow..maxRow], k - minRow, i - minRow);
    if Commuting(a, n) {
      AddRowCommuting(a, n, k, i);
    }
  }

  // Exchanging qubits p and q in every row.
  function SwapAllQubits(a: Matrix, p: nat, q: nat, n: nat): (r: Matrix)
    requires Wide(a, 2 * n) && p < n && q < n
    ensures |r| == |a| && Wide(r, 2 * n)
  {
    seq(|a|, i requires 0 <= i < |a| => SwapQubits(a[i], p, q, n))
  }

  lemma OntoSwap(cols: seq<nat>, w: nat, p: nat, q: nat)
    requires |cols| == w && Onto(cols, w) && p < w && q < w
    ensures Onto(Swap(cols, p, q), w)
  {
    var c := Swap(cols, p, q);
    forall j | 0 <= j < w ensures j in c {
      assert j in cols;
      var t :| 0 <= t < w && cols[t] == j;
      var t' := if t == p then q else if t == q then p else t;
      assert c[t'] == j;
    }
  }

  lemma SwapColumnsOf(perm: seq<nat>, n: nat, p: nat, q: nat)
    requires |perm| == n && Below(perm, n) && p < n && q < n
    ensures Below(Swap(perm, p, q), n)
    ensures Columns(Swap(perm, p, q), n) == SwapQubits(Columns(perm, n), p, q, n)
  {
  }

  // Selecting columns in exchanged order is exchanging the selected columns.
  lemma PickSwap(b: Matrix, n: nat, cols: seq<nat>, p: nat, q: nat)
    requires Wide(b, 2 * n) && |cols| == 2 * n && Below(cols, 2 * n) && p < n && q < n
    ensures Below(SwapQubits(cols, p, q, n), 2 * n)
    ensures PickAll(b, 2 * n, SwapQubits(cols, p, q, n)) == SwapAllQubits(PickAll(b, 2 * n, cols), p, q, n)
  {
    var cols' := SwapQubits(cols, p, q, n);
    forall i | 0 <= i < |b| ensures Pick(b[i], cols') == SwapQubits(Pick(b[i], cols), p, q, n) {}
  }

  lemma {:induction false} SwapQubitsSpan(r: Matrix, b: Matrix, n: nat, p: nat, q: nat)
    requires Wide(r, 2 * n) && Wide(b, 2 * n) && p < n && q < n
    requires Span(r, 2 * n) == Span(b, 2 * n)
    ensures Span(SwapAllQubits(r, p, q, n), 2 * n) == Span(SwapAllQubits(b, p, q, n), 2 * n)
  {
    var id := Range(0, 2 * n);
    PickSwap(r, n, id, p, q);
    PickSwap(b, n, id, p, q);
    assert PickAll(r, 2 * n, id) == r && PickAll(b, 2 * n, id) == b by {
      forall v: Vec | |v| == 2 * n ensures Pick(v, id) == v {}
    }
    SpanOfPickCongruent(r, b, 2 * n, SwapQubits(id, p, q, n));
  }

  lemma {:induction false} SwapQubitsCommuting(a: Matrix, n: nat, p: nat, q: nat)
    requires Wide(a, 2 * n) && p < n && q < n && Commuting(a, n)
    ensures Commuting(SwapAllQubits(a, p, q, n), n)
  {
    forall i, j | 0 <= i < |a| && 0 <= j < |a|
      ensures !Symplectic(SwapAllQubits(a, p, q, n)[i], SwapAllQubits(a, p, q, n)[j], n)
    {
      SymplecticSwap(a[i], a[j], p, q, n);
    }
  }

  lemma SliceOfSwapAll(a: Matrix, n: nat, p: nat, q: nat, lo: nat, hi: nat)
    requires Wide(a, 2 * n) && p < n && q < n && lo <= hi <= |a|
    ensures SwapAllQubits(a, p, q, n)[lo..hi] == SwapAllQubits(a[lo..hi], p, q, n)
  {
  }

  lemma {:induction false} SwapQubitsPreserves(before: Matrix, a: Matrix, n: nat, minRow: nat, maxRow: nat,
                            minCol: nat, maxCol: nat, perm: seq<nat>, p: nat, q: nat)
    requires Wide(before, 2 * n) && Wide(a, 2 * n) && minRow <= maxRow <= |before|
    requires Preserved(before, a, n, minRow, maxRow, minCol, maxCol, perm)
    requires p < n && q < n && Touches(p, n, minCol, maxCol) && Touches(q, n, minCol, maxCol)
    ensures Preserved(before, SwapAllQubits(a, p, q, n), n, minRow, maxRow, minCol, maxCol, Swap(perm, p, q))
  {
    hide Rearranged, SwapAllQubits, Columns;
    OntoSwap(perm, n, p, q);
    SwapQubitsRearranged(before, a, n, minRow, maxRow, perm, p, q);
    if Commuting(a, n) {
      hide Commuting;
      SwapQubitsCommuting(a, n, p, q);
    }
  }

  lemma SwapQubitsRearranged(before: Matrix, a: Matrix, n: nat, minRow: nat, maxRow: nat, perm: seq<nat>,
                             p: nat, q: nat)
    requires Wide(before, 2 * n) && Wide(a, 2 * n) && minRow <= maxRow <= |before|
    requires |perm| == n && Below(perm, n) && p < n && q < n
    requires Rearranged(before, a, n, minRow, maxRow, Columns(perm, n))
    ensures Below(Swap(perm, p, q), n)
    ensures Rearranged(before, SwapAllQubits(a, p, q, n), n, minRow, maxRow, Columns(Swap(perm, p, q), n))
  {
    hide Span, SwapQubits, Columns;
    SwapColumnsOf(perm, n, p, q);
    var a', cols, cols' := SwapAllQubits(a, p, q, n), Columns(perm, n), Columns(Swap(perm, p, q), n);
    var r, b := a[minRow..maxRow], before[minRow..maxRow];
    PickSwap(b, n, cols, p, q);
    PickSwap(before, n, cols, p, q);
    SwapQubitsSpan(r, PickAll(b, 2 * n, cols), n, p, q);
    SliceOfSwapAll(a, n, p, q, minRow, maxRow);
    forall i | 0 <= i < |before| && !(minRow <= i < maxRow) ensures a'[i] == Pick(before[i], cols') {
      assert PickAll(before, 2 * n, cols')[i] == SwapAllQubits(PickAll(before, 2 * n, cols), p, q, n)[i];
    }
  }

  // ----- Array primitives -----

  method SwapRows(M: array2<bool>, i: nat, p: nat)
    requires i < M.Length0 && p < M.Length0
    modifies M
    ensures Mat(M) == Swap(old(Mat(M)), i, p)
  {
    ghost var a := Mat(M);
    forall k, j | 0 <= k < M.Length0 && (k == i || k == p) && 0 <= j < M.Length1 {
      M[k, j] := M[if k == i then p else i, j];
    }
    forall k | 0 <= k < M.Length0 ensures Mat(M)[k] == Swap(a, i, p)[k] {
      assert Mat(M)[k] == if k == i then a[p] else if k == p then a[i] else a[k];
    }
  }

  method SwapColumns(M: array2<bool>, p: nat, q: nat)
    requires p < M.Length1 && q < M.Length1
    modifies M
    ensures forall i :: 0 <= i < M.Length0 ==> Mat(M)[i] == Swap(old(Mat(M))[i], p, q)
  {
    forall i, j | 0 <= i < M.Length0 && 0 <= j < M.Length1 && (j == p || j == q) {
      M[i, j] := M[i, if j == p then q else p];
    }
  }

  method AddRowInPlace(M: array2<bool>, k: nat, i: nat)
    requires k < M.Length0 && i < M.Length0
    modifies M
    ensures Mat(M) == AddRow(old(Mat(M)), k, i)
  {
    ghost var a := Mat(M);
    forall j | 0 <= j < M.Length1 {
      M[k, j] := M[i, j] != M[k, j];
    }
    forall x | 0 <= x < M.Length0 ensures Mat(M)[x] == AddRow(a, k, i)[x] {
      assert Mat(M)[x] == if x == k then Add(a[i], a[k]) else a[x];
    }
  }

  // The first non-zero entry, in row-major order, of the sub-matrix whose corner is (i, j).
  method FindPivot(M: array2<bool>, i: nat, maxRow: nat, j: nat, maxCol: nat)
    returns (found: bool, pi: nat, pj: nat)
    requires i <= maxRow <= M.Length0 && j <= maxCol <= M.Length1
    ensures found ==> i + pi < maxRow && j + pj < maxCol && M[i + pi, j + pj]
    ensures found ==> forall x, y :: x == i + pi && j <= y < j + pj ==> !M[x, y]
    ensures found ==> forall x, y :: i <= x < i + pi && j <= y < maxCol ==> !M[x, y]
    ensures !found ==> forall x, y :: i <= x < maxRow && j <= y < maxCol ==> !M[x, y]
  {
    found, pi, pj := false, 0, 0;
    while i + pi < maxRow
      invariant i + pi <= maxRow
      invariant forall x, y :: i <= x < i + pi && j <= y < maxCol ==> !M[x, y]
    {
      pj := 0;
      while j + pj < maxCol
        invariant j + pj <= maxCol
        invariant forall x, y :: x == i + pi && j <= y < j + pj ==> !M[x, y]
      {
        if M[i + pi, j + pj] {
          found := true;
          return;
        }
        pj := pj + 1;
      }
      pi := pi + 1;
    }
  }

  // ----- The elimination -----

  lemma SwapBothHalves(v: Vec, j: nat, pj: nat, n: nat)
    requires |v| == 2 * n && (j + pj < n || (n <= j && j + pj < 2 * n))
    ensures var h := if j < n then 0 else n;
      Swap(Swap(v, j + pj, j), OtherHalf(j, n) + pj, OtherHalf(j, n)) == SwapQubits(v, j - h, j + pj - h, n)
  {
  }

  // The partner column as the source computes it.
  method PartnerColumn(j: nat, n: nat) returns (other: nat)
    requires j < 2 * n
    ensures other == OtherHalf(j, n)
  {
    OtherHalfIsModular(j, n);
    other := (j + n) % (2 * n);
  }

  // Exchange column j with column j + pj and their partners in the other half.
  method SwapQubitColumns(M: array2<bool>, j: nat, pj: nat, n: nat)
    requires M.Length1 == 2 * n && (j + pj < n || (n <= j && j + pj < 2 * n))
    modifies M
    ensures var h := if j < n then 0 else n;
      Mat(M) == SwapAllQubits(old(Mat(M)), j - h, j + pj - h, n)
  {
    hide Mat, SwapQubits;
    ghost var a := Mat(M);
    ghost var h := if j < n then 0 else n;
    SwapColumns(M, j + pj, j);
    var other := PartnerColumn(j, n);
    SwapColumns(M, other + pj, other);
    forall i | 0 <= i < M.Length0 ensures Mat(M)[i] == SwapAllQubits(a, j - h, j + pj - h, n)[i] {
      SwapBothHalves(a[i], j, pj, n);
    }
  }

  // Clear column j below row i.
  method EliminateBelow(M: array2<bool>, ghost before: Matrix, n: nat, minRow: nat, maxRow: nat,
                        minCol: nat, maxCol: nat, ghost perm: seq<nat>, rank: nat)
    requires M.Length1 == 2 * n && |before| == M.Length0 && Wide(before, 2 * n)
    requires minRow + rank < maxRow <= M.Length0 && minCol + rank < maxCol && OneHalf(minCol, maxCol, n)
    requires Preserved(before, Mat(M), n, minRow, maxRow, minCol, maxCol, perm)
    requires Triangular(Mat(M), 2 * n, minRow, maxRow, minCol, rank)
    requires M[minRow + rank, minCol + rank]
    modifies M
    ensures Preserved(before, Mat(M), n, minRow, maxRow, minCol, maxCol, perm)
    ensures Triangular(Mat(M), 2 * n, minRow, maxRow, minCol, rank + 1)
  {
    hide Preserved;
    var i, j := minRow + rank, minCol + rank;
    for k := i + 1 to maxRow
      invariant Preserved(before, Mat(M), n, minRow, maxRow, minCol, maxCol, perm)
      invariant Triangular(Mat(M), 2 * n, minRow, maxRow, minCol, rank)
      invariant M[i, j]
      invariant forall x :: i < x < k ==> !M[x, j]
    {
      if M[k, j] {
        AddRowPreserves(before, Mat(M), n, minRow, maxRow, minCol, maxCol, perm, k, i);
        AddRowInPlace(M, k, i);
      }
    }
  }

  // Triangular, zero below the pivots, and columns of the pivots from `from` on are unit columns.
  ghost predicate Backward(a: Matrix, w: nat, minRow: nat, maxRow: nat, minCol: nat, maxCol: nat,
                           rank: nat, from: nat)
    requires Wide(a, w) && minRow + rank <= maxRow <= |a| && minCol + rank <= maxCol <= w && from <= rank
  {
    && Triangular(a, w, minRow, maxRow, minCol, rank)
    && (forall k, j :: minRow <= k < minRow + rank && minCol + from <= j < minCol + rank
          ==> a[k][j] == (k - minRow == j - minCol))
    && (forall k, j :: minRow + rank <= k < maxRow && minCol <= j < maxCol ==> !a[k][j])
  }

  // Adding a pivot row upwards touches no column of the earlier or the finished pivots.
  lemma BackwardStep(a: Matrix, w: nat, minRow: nat, maxRow: nat, minCol: nat, maxCol: nat, rank: nat, r: nat, k: nat)
    requires Wide(a, w) && minRow + rank <= maxRow <= |a| && minCol + rank <= maxCol <= w && r < rank
    requires minRow <= k < minRow + r && Backward(a, w, minRow, maxRow, minCol, maxCol, rank, r + 1)
    ensures var a' := AddRow(a, k, minRow + r);
      && Wide(a', w) && Backward(a', w, minRow, maxRow, minCol, maxCol, rank, r + 1)
      && a'[k][minCol + r] == !a[k][minCol + r]
  {
    var a' := AddRow(a, k, minRow + r);
    assert a[minRow + r][minCol + r];
  }

  lemma ColumnFinished(a: Matrix, w: nat, minRow: nat, maxRow: nat, minCol: nat, maxCol: nat, rank: nat, r: nat)
    requires Wide(a, w) && minRow + rank <= maxRow <= |a| && minCol + rank <= maxCol <= w && r < rank
    requires Backward(a, w, minRow, maxRow, minCol, maxCol, rank, r + 1)
    requires forall x :: minRow <= x < minRow + r ==> !a[x][minCol + r]
    ensures Backward(a, w, minRow, maxRow, minCol, maxCol, rank, r)
  {
  }

  // Clear column minCol + r above the pivot of row minRow + r, once the pivots after it are done.
  method EliminateAbove(M: array2<bool>, ghost before: Matrix, n: nat, minRow: nat, maxRow: nat,
                        minCol: nat, maxCol: nat, ghost perm: seq<nat>, rank: nat, r: nat)
    requires M.Length1 == 2 * n && |before| == M.Length0 && Wide(before, 2 * n)
    requires r < rank && minRow + rank <= maxRow <= M.Length0 && minCol + rank <= maxCol && OneHalf(minCol, maxCol, n)
    requires Preserved(before, Mat(M), n, minRow, maxRow, minCol, maxCol, perm)
    requires Backward(Mat(M), 2 * n, minRow, maxRow, minCol, maxCol, rank, r + 1)
    modifies M
    ensures Preserved(before, Mat(M), n, minRow, maxRow, minCol, maxCol, perm)
    ensures Backward(Mat(M), 2 * n, minRow, maxRow, minCol, maxCol, rank, r)
  {
    hide Preserved, Backward, Mat;
    var i, j := minRow + r, minCol + r;
    var k := i - 1;
    while k > minRow - 1
      invariant minRow - 1 <= k < i
      invariant Preserved(before, Mat(M), n, minRow, maxRow, minCol, maxCol, perm)
      invariant Backward(Mat(M), 2 * n, minRow, maxRow, minCol, maxCol, rank, r + 1)
      invariant forall x :: k < x < i ==> !Mat(M)[x][j]
    {
      if M[k, j] {
        BackwardStep(Mat(M), 2 * n, minRow, maxRow, minCol, maxCol, rank, r, k);
        AddRowPreserves(before, Mat(M), n, minRow, maxRow, minCol, maxCol, perm, k, i);
        AddRowInPlace(M, k, i);
      }
      k := k - 1;
    }
    ColumnFinished(Mat(M), 2 * n, minRow, maxRow, minCol, maxCol, rank, r);
  }

  // The whole outcome of an elimination.
  ghost predicate Eliminated(before: Matrix, after: Matrix, n: nat, minRow: nat, maxRow: nat,
                             minCol: nat, maxCol: nat, rank: nat, perm: seq<nat>)
    requires Wide(before, 2 * n) && Wide(after, 2 * n) && |after| == |before|
    requires minRow <= maxRow <= |before| && OneHalf(minCol, maxCol, n)
  {
    && minRow + rank <= maxRow && minCol + rank <= maxCol
    && Preserved(before, after, n, minRow, maxRow, minCol, maxCol, perm)
    && Reduced(after, 2 * n, minRow, maxRow, minCol, maxCol, rank)
    && IsRank(Block(before, 2 * n, minRow, maxRow, minCol, maxCol), maxCol - minCol, rank)
  }

  // Moving the pivot to the diagonal leaves the finished columns finished.
  lemma PivotMoved(a: Matrix, n: nat, minRow: nat, maxRow: nat, minCol: nat, rank: nat, pi: nat, pj: nat)
    requires Wide(a, 2 * n) && minRow + rank + pi < maxRow <= |a|
    requires minCol + rank + pj < n || (n <= minCol && minCol + rank + pj < 2 * n)
    requires Triangular(a, 2 * n, minRow, maxRow, minCol, rank)
    requires a[minRow + rank + pi][minCol + rank + pj]
    ensures var (i, j, h) := (minRow + rank, minCol + rank, if minCol < n then 0 else n);
      var a' := SwapAllQubits(Swap(a, i, i + pi), j - h, j + pj - h, n);
      Triangular(a', 2 * n, minRow, maxRow, minCol, rank) && a'[i][j]
  {
  }

  lemma PermutationLength(before: Matrix, a: Matrix, n: nat, minRow: nat, maxRow: nat,
                          minCol: nat, maxCol: nat, perm: seq<nat>)
    requires Wide(before, 2 * n) && Wide(a, 2 * n) && minRow <= maxRow <= |before|
    requires Preserved(before, a, n, minRow, maxRow, minCol, maxCol, perm)
    ensures |perm| == n
  {
  }

  // Bring the first non-zero entry to the diagonal and clear the column below it.
  method PivotStep(M: array2<bool>, ghost before: Matrix, n: nat, minRow: nat, maxRow: nat, minCol: nat, maxCol: nat,
                   ghost perm: seq<nat>, rank: nat, pi: nat, pj: nat) returns (ghost perm': seq<nat>)
    requires M.Length1 == 2 * n && |before| == M.Length0 && Wide(before, 2 * n)
    requires minRow + rank + pi < maxRow <= M.Length0 && minCol + rank + pj < maxCol && OneHalf(minCol, maxCol, n)
    requires Preserved(before, Mat(M), n, minRow, maxRow, minCol, maxCol, perm)
    requires Triangular(Mat(M), 2 * n, minRow, maxRow, minCol, rank)
    requires M[minRow + rank + pi, minCol + rank + pj]
    modifies M
    ensures Preserved(before, Mat(M), n, minRow, maxRow, minCol, maxCol, perm')
    ensures Triangular(Mat(M), 2 * n, minRow, maxRow, minCol, rank + 1)
  {
    hide Preserved, Triangular, Mat, SwapAllQubits;
    var i, j := minRow + rank, minCol + rank;
    ghost var h := if j < n then 0 else n;
    assert |perm| == n by {
      PermutationLength(before, Mat(M), n, minRow, maxRow, minCol, maxCol, perm);
    }
    PivotMoved(Mat(M), n, minRow, maxRow, minCol, rank, pi, pj);
    SwapRowsPreserves(before, Mat(M), n, minRow, maxRow, minCol, maxCol, perm, i, i + pi);
    SwapRows(M, i, i + pi);
    SwapQubitsPreserves(before, Mat(M), n, minRow, maxRow, minCol, maxCol, perm, j - h, j + pj - h);
    SwapQubitColumns(M, j, pj, n);
    perm' := Swap(perm, j - h, j + pj - h);
    EliminateBelow(M, before, n, minRow, maxRow, minCol, maxCol, perm', rank);
  }

  method GaussianElimination(M: array2<bool>, minRow: nat, maxRow: nat, minCol: nat, maxCol: nat)
    returns (rank: nat, ghost perm: seq<nat>)
    requires M.Length1 % 2 == 0
    requires minRow <= maxRow <= M.Length0 && OneHalf(minCol, maxCol, M.Length1 / 2)
    modifies M
    ensures Eliminated(old(Mat(M)), Mat(M), M.Length1 / 2, minRow, maxRow, minCol, maxCol, rank, perm)
  {
    hide Preserved, Block, IsRank, Mat;
    var n := M.Length1 / 2;
    ghost var before := Mat(M);
    perm := Range(0, n);
    PreservedInitially(before, n, minRow, maxRow, minCol, maxCol);
    var maxRank := if maxRow - minRow < maxCol - minCol then maxRow - minRow else maxCol - minCol;
    rank := 0;
    for r := 0 to maxRank
      invariant rank == r
      invariant Preserved(before, Mat(M), n, minRow, maxRow, minCol, maxCol, perm)
      invariant Triangular(Mat(M), 2 * n, minRow, maxRow, minCol, rank)
    {
      var found, pi, pj := FindPivot(M, minRow + r, maxRow, minCol + r, maxCol);
      if !found {
        break;
      }
      perm := PivotStep(M, before, n, minRow, maxRow, minCol, maxCol, perm, rank, pi, pj);
      rank := rank + 1;
    }
    ghost var pivots := rank;
    for r := rank downto 0
      invariant rank == pivots
      invariant Preserved(before, Mat(M), n, minRow, maxRow, minCol, maxCol, perm)
      invariant Backward(Mat(M), 2 * n, minRow, maxRow, minCol, maxCol, rank, r)
    {
      EliminateAbove(M, before, n, minRow, maxRow, minCol, maxCol, perm, rank, r);
    }
    RankOfReduced(before, Mat(M), n, minRow, maxRow, minCol, maxCol, perm, rank);
  }

  // The coordinates of a permuted block, relative to the block.
  ghost function BlockPermutation(perm: seq<nat>, n: nat, minCol: nat, maxCol: nat): (idx: seq<nat>)
    requires QubitPermutation(perm, n, minCol, maxCol) && OneHalf(minCol, maxCol, n)
    ensures |idx| == maxCol - minCol && Below(idx, maxCol - minCol)
  {
    var h := if maxCol <= n then 0 else n;
    seq(maxCol - minCol, t requires 0 <= t < maxCol - minCol =>
      assert Touches(minCol + t - h, n, minCol, maxCol); (perm[minCol + t - h] + h - minCol) as nat)
  }

  lemma BlockPermutationOnto(perm: seq<nat>, n: nat, minCol: nat, maxCol: nat)
    requires QubitPermutation(perm, n, minCol, maxCol) && OneHalf(minCol, maxCol, n)
    ensures Onto(BlockPermutation(perm, n, minCol, maxCol), maxCol - minCol)
  {
    var w, idx := maxCol - minCol, BlockPermutation(perm, n, minCol, maxCol);
    var h := if maxCol <= n then 0 else n;
    forall t | 0 <= t < w ensures t in idx {
      assert minCol + t - h in perm;
      var q :| 0 <= q < n && perm[q] == minCol + t - h;
      assert Touches(perm[q], n, minCol, maxCol);
      assert idx[q + h - minCol] == t;
    }
  }

  // Selecting a column range after a qubit permutation that keeps the range.
  lemma BlockOfPermuted(b: Matrix, n: nat, minCol: nat, maxCol: nat, perm: seq<nat>)
    requires Wide(b, 2 * n) && OneHalf(minCol, maxCol, n) && QubitPermutation(perm, n, minCol, maxCol)
    ensures var w := maxCol - minCol;
      PickAll(PickAll(b, 2 * n, Columns(perm, n)), 2 * n, Range(minCol, maxCol))
        == PickAll(PickAll(b, 2 * n, Range(minCol, maxCol)), w, BlockPermutation(perm, n, minCol, maxCol))
  {
    var cols, idx, range := Columns(perm, n), BlockPermutation(perm, n, minCol, maxCol), Range(minCol, maxCol);
    forall i | 0 <= i < |b| ensures Pick(Pick(b[i], cols), range) == Pick(Pick(b[i], range), idx) {}
  }

  // Identity rows above zero rows: the rank can be read off.
  lemma RankOfIdentity(b: Matrix, w: nat, rank: nat)
    requires Wide(b, w) && rank <= |b| && rank <= w
    requires forall k, j :: 0 <= k < rank && 0 <= j < rank ==> b[k][j] == (k == j)
    requires forall k, j :: rank <= k < |b| && 0 <= j < w ==> !b[k][j]
    ensures IsRank(b, w, rank)
  {
    forall k | rank <= k < |b| ensures b[k] == Zero(w) {}
    ZeroRowsAddNothing(b, w, rank);
    PivotsIndependent(b[..rank], w, Range(0, rank));
  }

  lemma RankOfReducedBlock(a: Matrix, w: nat, minRow: nat, maxRow: nat, minCol: nat, maxCol: nat, rank: nat)
    requires Wide(a, w) && minRow + rank <= maxRow <= |a| && minCol + rank <= maxCol <= w
    requires Reduced(a, w, minRow, maxRow, minCol, maxCol, rank)
    ensures IsRank(Block(a, w, minRow, maxRow, minCol, maxCol), maxCol - minCol, rank)
  {
    hide Span;
    RankOfIdentity(Block(a, w, minRow, maxRow, minCol, maxCol), maxCol - minCol, rank);
  }

  // A rearrangement keeps the rank of the sub-matrix.
  lemma {:induction false} BlockRank(before: Matrix, after: Matrix, n: nat, minRow: nat, maxRow: nat,
                  minCol: nat, maxCol: nat, perm: seq<nat>, rank: nat)
    requires Wide(before, 2 * n) && Wide(after, 2 * n) && |before| == |after| && minRow <= maxRow <= |before|
    requires OneHalf(minCol, maxCol, n)
    requires Preserved(before, after, n, minRow, maxRow, minCol, maxCol, perm)
    ensures IsRank(Block(after, 2 * n, minRow, maxRow, minCol, maxCol), maxCol - minCol, rank)
       <==> IsRank(Block(before, 2 * n, minRow, maxRow, minCol, maxCol), maxCol - minCol, rank)
  {
    hide Span, Commuting, Columns, PickAll, BlockPermutation;
    var w := maxCol - minCol;
    var idx := BlockPermutation(perm, n, minCol, maxCol);
    SpanOfPickCongruent(after[minRow..maxRow], PickAll(before[minRow..maxRow], 2 * n, Columns(perm, n)),
                        2 * n, Range(minCol, maxCol)) by { assert Below(Range(minCol, maxCol), 2 * n); }
    BlockOfPermuted(before[minRow..maxRow], n, minCol, maxCol, perm);
    BlockPermutationOnto(perm, n, minCol, maxCol);
    RankOfPick(Block(before, 2 * n, minRow, maxRow, minCol, maxCol), w, idx, rank);
  }

  // The number of pivots is the rank of the sub-matrix the elimination started from.
  lemma {:induction false} RankOfReduced(before: Matrix, after: Matrix, n: nat, minRow: nat, maxRow: nat,
                      minCol: nat, maxCol: nat, perm: seq<nat>, rank: nat)
    requires Wide(before, 2 * n) && Wide(after, 2 * n) && |before| == |after| && minRow <= maxRow <= |before|
    requires OneHalf(minCol, maxCol, n)
    requires Preserved(before, after, n, minRow, maxRow, minCol, maxCol, perm)
    requires minRow + rank <= maxRow && minCol + rank <= maxCol
    requires Reduced(after, 2 * n, minRow, maxRow, minCol, maxCol, rank)
    ensures IsRank(Block(before, 2 * n, minRow, maxRow, minCol, maxCol), maxCol - minCol, rank)
  {
    hide Span, Preserved, Reduced, Block, IsRank;
    RankOfReducedBlock(after, 2 * n, minRow, maxRow, minCol, maxCol, rank);
    BlockRank(before, after, n, minRow, maxRow, minCol, maxCol, perm, rank);
  }
}
