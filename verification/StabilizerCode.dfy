// The standard form of a stabilizer code and the logical operators read off from it.
module StabilizerCode {
  import opened Prelude
  import opened Gf2
  import opened Elimination

  // Blocks [I A1 A2 | B C1 C2] over [0 0 0 | D I E], with the first r rows on top.
  ghost predicate StandardForm(a: Matrix, n: nat, k: nat, r: nat)
    requires Wide(a, 2 * n) && |a| + k == n && r <= |a|
  {
    && (forall s, j :: 0 <= s < r && 0 <= j < r ==> a[s][j] == (s == j))
    && (forall s, j :: r <= s < |a| && 0 <= j < n ==> !a[s][j])
    && (forall s, j :: r <= s < |a| && n + r <= j < 2 * n - k ==> a[s][j] == (s - r == j - n - r))
  }

  // Column i of the block E.
  function ColumnOfE(a: Matrix, n: nat, k: nat, r: nat, i: nat): (c: Vec)
    requires Wide(a, 2 * n) && |a| + k == n && r <= |a| && i < k
    ensures |c| == |a| - r
  {
    seq(|a| - r, t requires 0 <= t < |a| - r => a[r + t][2 * n - k + i])
  }

  // Row i of E^T C1^T + C2^T.
  function CorrectionRow(a: Matrix, n: nat, k: nat, r: nat, i: nat): (c: Vec)
    requires Wide(a, 2 * n) && |a| + k == n && r <= |a| && i < k
    ensures |c| == r
  {
    seq(r, s requires 0 <= s < r =>
      Dot(ColumnOfE(a, n, k, r, i), a[s][n + r..2 * n - k]) != a[s][2 * n - k + i])
  }

  function LogicalX(a: Matrix, n: nat, k: nat, r: nat): (x: Matrix)
    requires Wide(a, 2 * n) && |a| + k == n && r <= |a|
    ensures |x| == k && Wide(x, 2 * n)
  {
    seq(k, i requires 0 <= i < k =>
      Zero(r) + ColumnOfE(a, n, k, r, i) + Unit(k, i) + (CorrectionRow(a, n, k, r, i) + Zero(n - r)))
  }

  // Column i of the block A2.
  function ColumnOfA2(a: Matrix, n: nat, k: nat, r: nat, i: nat): (c: Vec)
    requires Wide(a, 2 * n) && |a| + k == n && r <= |a| && i < k
    ensures |c| == r && forall s :: 0 <= s < r ==> c[s] == a[s][n - k + i]
  {
    seq(r, s requires 0 <= s < r => a[s][n - k + i])
  }

  function LogicalZ(a: Matrix, n: nat, k: nat, r: nat): (z: Matrix)
    requires Wide(a, 2 * n) && |a| + k == n && r <= |a|
    ensures |z| == k && Wide(z, 2 * n)
  {
    seq(k, i requires 0 <= i < k => Zero(n) + (ColumnOfA2(a, n, k, r, i) + Zero(n - k - r) + Unit(k, i)))
  }

  // ----- The logical operators of a standard form -----

  // The halves of the two kinds of operator.
  lemma LogicalXParts(a: Matrix, n: nat, k: nat, r: nat, i: nat)
    requires Wide(a, 2 * n) && |a| + k == n && r <= |a| && i < k
    ensures var x := LogicalX(a, n, k, r)[i];
      && x[..n] == Zero(r) + (ColumnOfE(a, n, k, r, i) + Unit(k, i))
      && x[n..] == CorrectionRow(a, n, k, r, i) + Zero(n - r)
  {
    hide ColumnOfE, CorrectionRow;
  }

  lemma LogicalZParts(a: Matrix, n: nat, k: nat, r: nat, i: nat)
    requires Wide(a, 2 * n) && |a| + k == n && r <= |a| && i < k
    ensures var z := LogicalZ(a, n, k, r)[i];
      && z[..n] == Zero(n)
      && z[n..] == ColumnOfA2(a, n, k, r, i) + (Zero(n - k - r) + Unit(k, i))
  {
    hide ColumnOfA2;
  }

  lemma ZeroMeetsNothing(m: nat, v: Vec)
    requires |v| == m
    ensures !Dot(Zero(m), v) && !Dot(v, Zero(m))
  {
    DotZero(Zero(m), v);
    DotZero(v, Zero(m));
  }

  // The shape of the X half of X_i against any Z half: the middle block meets the middle, and the
  // unit vector reads one entry of the last block.
  lemma XHalfDot(r: nat, m: Vec, k: nat, i: nat, z: Vec)
    requires i < k && |z| == r + |m| + k
    ensures Dot(Zero(r) + (m + Unit(k, i)), z) == (Dot(m, z[r..r + |m|]) != z[r + |m| + i])
  {
    hide Dot;
    var z1, z2, z3 := z[..r], z[r..r + |m|], z[r + |m|..];
    assert z == z1 + (z2 + z3);
    DotConcat(Zero(r), m + Unit(k, i), z1, z2 + z3);
    DotConcat(m, Unit(k, i), z2, z3);
    ZeroMeetsNothing(r, z1);
    DotSingle(Unit(k, i), z3, i);
  }

  lemma PaddedDot(c: Vec, m: nat, x: Vec)
    requires |x| == |c| + m
    ensures Dot(c + Zero(m), x) == Dot(c, x[..|c|])
  {
    hide Dot;
    assert x == x[..|c|] + x[|c|..];
    DotConcat(c, Zero(m), x[..|c|], x[|c|..]);
    ZeroMeetsNothing(m, x[|c|..]);
  }

  lemma ZHalfDot(c: Vec, m: nat, k: nat, i: nat, x: Vec)
    requires i < k && |x| == |c| + m + k
    ensures Dot(c + (Zero(m) + Unit(k, i)), x) == (Dot(c, x[..|c|]) != x[|c| + m + i])
  {
    hide Dot;
    var x1, x2, x3 := x[..|c|], x[|c|..|c| + m], x[|c| + m..];
    assert x == x1 + (x2 + x3);
    DotConcat(c, Zero(m) + Unit(k, i), x1, x2 + x3);
    DotConcat(Zero(m), Unit(k, i), x2, x3);
    ZeroMeetsNothing(m, x2);
    DotSingle(Unit(k, i), x3, i);
  }

  lemma LogicalXHalf(a: Matrix, n: nat, k: nat, r: nat, i: nat, z: Vec)
    requires Wide(a, 2 * n) && |a| + k == n && r <= |a| && i < k && |z| == n
    ensures Dot(LogicalX(a, n, k, r)[i][..n], z) == (Dot(ColumnOfE(a, n, k, r, i), z[r..n - k]) != z[n - k + i])
  {
    hide LogicalX, ColumnOfE, Dot;
    LogicalXParts(a, n, k, r, i);
    XHalfDot(r, ColumnOfE(a, n, k, r, i), k, i, z);
  }

  // The Z half of X_i is its correction row.
  lemma LogicalXOtherHalf(a: Matrix, n: nat, k: nat, r: nat, i: nat, x: Vec)
    requires Wide(a, 2 * n) && |a| + k == n && r <= |a| && i < k && |x| == n
    ensures Dot(LogicalX(a, n, k, r)[i][n..], x) == Dot(CorrectionRow(a, n, k, r, i), x[..r])
  {
    hide LogicalX, CorrectionRow, Dot;
    LogicalXParts(a, n, k, r, i);
    PaddedDot(CorrectionRow(a, n, k, r, i), n - r, x);
  }

  // The Z half of Z_i against any X half: the A2 column meets the first block and the unit
  // vector reads one entry of the last.
  lemma LogicalZHalf(a: Matrix, n: nat, k: nat, r: nat, i: nat, x: Vec)
    requires Wide(a, 2 * n) && |a| + k == n && r <= |a| && i < k && |x| == n
    ensures Dot(LogicalZ(a, n, k, r)[i][n..], x) == (Dot(ColumnOfA2(a, n, k, r, i), x[..r]) != x[n - k + i])
  {
    hide LogicalZ, ColumnOfA2, Dot;
    LogicalZParts(a, n, k, r, i);
    ZHalfDot(ColumnOfA2(a, n, k, r, i), n - k - r, k, i, x);
  }

  lemma DotUnit(c: Vec, i: nat)
    requires i < |c|
    ensures Dot(c, Unit(|c|, i)) == c[i]
  {
    DotSingle(c, Unit(|c|, i), i);
  }

  // The rows of a standard form, in their halves.
  lemma UpperRow(a: Matrix, n: nat, k: nat, r: nat, s: nat)
    requires Wide(a, 2 * n) && |a| + k == n && r <= |a| && s < r
    requires StandardForm(a, n, k, r)
    ensures a[s][..n][..r] == Unit(r, s)
  {
  }

  lemma LowerRow(a: Matrix, n: nat, k: nat, r: nat, s: nat)
    requires Wide(a, 2 * n) && |a| + k == n && r <= s < |a|
    requires StandardForm(a, n, k, r)
    ensures a[s][..n] == Zero(n) && a[s][n..][r..n - k] == Unit(n - k - r, s - r)
  {
    var z := a[s][n..][r..n - k];
    forall t | 0 <= t < |z| ensures z[t] == (t == s - r) {
      assert z[t] == a[s][n + r + t];
    }
  }

  lemma CorrectionEntry(a: Matrix, n: nat, k: nat, r: nat, i: nat, s: nat)
    requires Wide(a, 2 * n) && |a| + k == n && r <= |a| && i < k && s < r
    ensures CorrectionRow(a, n, k, r, i)[s]
         == (Dot(ColumnOfE(a, n, k, r, i), a[s][n..][r..n - k]) != a[s][n..][n - k + i])
  {
    hide ColumnOfE, Dot;
    assert a[s][n..][r..n - k] == a[s][n + r..2 * n - k];
  }

  // X_i against a row of the upper block: the correction cancels E^T C1^T + C2^T.
  lemma LogicalXMeetsUpper(a: Matrix, n: nat, k: nat, r: nat, i: nat, s: nat)
    requires Wide(a, 2 * n) && |a| + k == n && r <= |a| && i < k && s < r
    requires StandardForm(a, n, k, r)
    ensures !Symplectic(LogicalX(a, n, k, r)[i], a[s], n)
  {
    hide StandardForm, LogicalX, ColumnOfE, CorrectionRow, Dot, Unit;
    LogicalXHalf(a, n, k, r, i, a[s][n..]);
    LogicalXOtherHalf(a, n, k, r, i, a[s][..n]);
    CorrectionEntry(a, n, k, r, i, s);
    UpperRow(a, n, k, r, s);
    DotUnit(CorrectionRow(a, n, k, r, i), s);
  }

  lemma EntryOfE(a: Matrix, n: nat, k: nat, r: nat, i: nat, s: nat)
    requires Wide(a, 2 * n) && |a| + k == n && r <= s < |a| && i < k
    ensures ColumnOfE(a, n, k, r, i)[s - r] == a[s][2 * n - k + i] == a[s][n..][n - k + i]
  {
  }

  lemma LogicalXMeetsLower(a: Matrix, n: nat, k: nat, r: nat, i: nat, s: nat)
    requires Wide(a, 2 * n) && |a| + k == n && r <= s < |a| && i < k
    requires StandardForm(a, n, k, r)
    ensures !Symplectic(LogicalX(a, n, k, r)[i], a[s], n)
  {
    var e := ColumnOfE(a, n, k, r, i);
    EntryOfE(a, n, k, r, i, s);
    hide StandardForm, LogicalX, ColumnOfE, CorrectionRow, Dot, Unit, Zero;
    LogicalXHalf(a, n, k, r, i, a[s][n..]);
    LowerRow(a, n, k, r, s);
    DotUnit(e, s - r);
    ZeroMeetsNothing(n, LogicalX(a, n, k, r)[i][n..]);
  }

  lemma LogicalZMeetsRow(a: Matrix, n: nat, k: nat, r: nat, i: nat, s: nat)
    requires Wide(a, 2 * n) && |a| + k == n && r <= |a| && s < |a| && i < k
    requires StandardForm(a, n, k, r)
    ensures !Symplectic(LogicalZ(a, n, k, r)[i], a[s], n)
  {
    hide StandardForm, LogicalZ, ColumnOfA2, Dot, Unit, Zero;
    LogicalZParts(a, n, k, r, i);
    ZeroMeetsNothing(n, a[s][n..]);
    if r <= s {
      LowerRow(a, n, k, r, s);
      ZeroMeetsNothing(n, LogicalZ(a, n, k, r)[i][n..]);
    } else {
      LogicalZHalf(a, n, k, r, i, a[s][..n]);
      UpperRow(a, n, k, r, s);
      DotUnit(ColumnOfA2(a, n, k, r, i), s);
    }
  }

  // The X half of an X operator starts at column r and the Z half of another ends there.
  lemma LogicalXsCommute(a: Matrix, n: nat, k: nat, r: nat, i: nat, j: nat)
    requires Wide(a, 2 * n) && |a| + k == n && r <= |a| && i < k && j < k
    ensures !Symplectic(LogicalX(a, n, k, r)[i], LogicalX(a, n, k, r)[j], n)
  {
    hide LogicalX, ColumnOfE, CorrectionRow, Dot;
    LogicalXHalvesDisjoint(a, n, k, r, i, j);
    LogicalXHalvesDisjoint(a, n, k, r, j, i);
    DotSymmetric(LogicalX(a, n, k, r)[j][..n], LogicalX(a, n, k, r)[i][n..]);
  }

  lemma LogicalXHalvesDisjoint(a: Matrix, n: nat, k: nat, r: nat, i: nat, j: nat)
    requires Wide(a, 2 * n) && |a| + k == n && r <= |a| && i < k && j < k
    ensures !Dot(LogicalX(a, n, k, r)[i][..n], LogicalX(a, n, k, r)[j][n..])
  {
    hide LogicalX, ColumnOfE, CorrectionRow, Dot;
    LogicalXParts(a, n, k, r, i);
    LogicalXParts(a, n, k, r, j);
    var u, v := LogicalX(a, n, k, r)[i][..n], LogicalX(a, n, k, r)[j][n..];
    forall t | 0 <= t < n ensures !u[t] || !v[t] {
      if t < r {
        assert u[t] == Zero(r)[t];
      } else {
        assert v[t] == Zero(n - r)[t - r];
      }
    }
    DotZero(u, v);
  }

  lemma LogicalZsCommute(a: Matrix, n: nat, k: nat, r: nat, i: nat, j: nat)
    requires Wide(a, 2 * n) && |a| + k == n && r <= |a| && i < k && j < k
    ensures !Symplectic(LogicalZ(a, n, k, r)[i], LogicalZ(a, n, k, r)[j], n)
  {
    hide LogicalZ, ColumnOfA2, Dot;
    LogicalZParts(a, n, k, r, i);
    LogicalZParts(a, n, k, r, j);
    ZeroMeetsNothing(n, LogicalZ(a, n, k, r)[j][n..]);
    ZeroMeetsNothing(n, LogicalZ(a, n, k, r)[i][n..]);
  }

  lemma LogicalXMeetsZ(a: Matrix, n: nat, k: nat, r: nat, i: nat, j: nat)
    requires Wide(a, 2 * n) && |a| + k == n && r <= |a| && i < k && j < k
    ensures Symplectic(LogicalX(a, n, k, r)[i], LogicalZ(a, n, k, r)[j], n) == (i == j)
  {
    hide LogicalX, LogicalZ, ColumnOfE, ColumnOfA2, CorrectionRow, Dot;
    LogicalZParts(a, n, k, r, j);
    ZeroMeetsNothing(n, LogicalX(a, n, k, r)[i][n..]);
    var z := LogicalZ(a, n, k, r)[j][n..];
    LogicalXHalf(a, n, k, r, i, z);
    assert z[r..n - k] == Zero(n - k - r);
    ZeroMeetsNothing(n - k - r, ColumnOfE(a, n, k, r, i));
    assert z[n - k + i] == Unit(k, j)[i];
  }

  // The operators generate k independent qubits: they commute with the stabilizer and among
  // themselves, except that X_i and Z_i anticommute.
  ghost predicate LogicalOperators(a: Matrix, x: Matrix, z: Matrix, n: nat, k: nat)
    requires Wide(a, 2 * n)
  {
    && |x| == |z| == k && Wide(x, 2 * n) && Wide(z, 2 * n)
    && (forall i, s :: 0 <= i < k && 0 <= s < |a| ==> !Symplectic(x[i], a[s], n) && !Symplectic(z[i], a[s], n))
    && Commuting(x, n) && Commuting(z, n)
    && (forall i, j :: 0 <= i < k && 0 <= j < k ==> Symplectic(x[i], z[j], n) == (i == j))
  }

  lemma StandardFormGivesLogicalOperators(a: Matrix, n: nat, k: nat, r: nat)
    requires Wide(a, 2 * n) && |a| + k == n && r <= |a|
    requires StandardForm(a, n, k, r)
    ensures LogicalOperators(a, LogicalX(a, n, k, r), LogicalZ(a, n, k, r), n, k)
  {
    hide Symplectic, LogicalX, LogicalZ, StandardForm;
    var x, z := LogicalX(a, n, k, r), LogicalZ(a, n, k, r);
    forall i, s | 0 <= i < k && 0 <= s < |a|
      ensures !Symplectic(x[i], a[s], n) && !Symplectic(z[i], a[s], n)
    {
      LogicalZMeetsRow(a, n, k, r, i, s);
      if s < r {
        LogicalXMeetsUpper(a, n, k, r, i, s);
      } else {
        LogicalXMeetsLower(a, n, k, r, i, s);
      }
    }
    forall i, j | 0 <= i < k && 0 <= j < k
      ensures !Symplectic(x[i], x[j], n) && !Symplectic(z[i], z[j], n)
      ensures Symplectic(x[i], z[j], n) == (i == j)
    {
      LogicalXsCommute(a, n, k, r, i, j);
      LogicalZsCommute(a, n, k, r, i, j);
      LogicalXMeetsZ(a, n, k, r, i, j);
    }
  }

  // Among the operators of its shape, X_i is the only one that commutes with the stabilizer.
  ghost predicate XShape(v: Vec, n: nat, k: nat, r: nat, i: nat)
    requires |v| == 2 * n && r + k <= n
  {
    && (forall j :: 0 <= j < r ==> !v[j])
    && (forall j :: n - k <= j < n ==> v[j] == (j == n - k + i))
    && (forall j :: n + r <= j < 2 * n ==> !v[j])
  }

  ghost predicate CommutesWith(v: Vec, a: Matrix, n: nat)
    requires |v| == 2 * n && Wide(a, 2 * n)
  {
    forall s :: 0 <= s < |a| ==> !Symplectic(v, a[s], n)
  }

  lemma XShapeParts(v: Vec, n: nat, k: nat, r: nat, i: nat)
    requires |v| == 2 * n && r + k <= n && i < k && XShape(v, n, k, r, i)
    ensures v[..n] == Zero(r) + (v[r..n - k] + Unit(k, i)) && v[n..] == v[n..n + r] + Zero(n - r)
  {
    assert v[..n] == v[..r] + (v[r..n - k] + v[n - k..n]);
    assert v[n - k..n] == Unit(k, i);
    assert v[n + r..] == Zero(n - r) && v[n..] == v[n..n + r] + v[n + r..];
  }

  // A row of the lower block fixes one entry of the middle of v, a row of the upper block one
  // entry of its Z half.
  lemma XMiddleEntry(v: Vec, a: Matrix, n: nat, k: nat, r: nat, i: nat, s: nat)
    requires Wide(a, 2 * n) && |a| + k == n && r <= s < |a| && i < k && |v| == 2 * n
    requires StandardForm(a, n, k, r) && XShape(v, n, k, r, i) && !Symplectic(v, a[s], n)
    ensures v[r..n - k][s - r] == a[s][2 * n - k + i]
  {
    hide StandardForm, XShape, Dot, Unit, Zero;
    XShapeParts(v, n, k, r, i);
    var m, z := v[r..n - k], a[s][n..];
    XHalfDot(r, m, k, i, z);
    LowerRow(a, n, k, r, s);
    DotUnit(m, s - r);
    ZeroMeetsNothing(n, v[n..]);
    assert z[n - k + i] == a[s][2 * n - k + i];
  }

  lemma XCorrectionEntry(v: Vec, a: Matrix, n: nat, k: nat, r: nat, i: nat, s: nat)
    requires Wide(a, 2 * n) && |a| + k == n && r <= |a| && s < r && i < k && |v| == 2 * n
    requires StandardForm(a, n, k, r) && XShape(v, n, k, r, i) && !Symplectic(v, a[s], n)
    requires v[r..n - k] == ColumnOfE(a, n, k, r, i)
    ensures v[n..n + r][s] == CorrectionRow(a, n, k, r, i)[s]
  {
    hide StandardForm, XShape, Dot, Unit, Zero, ColumnOfE, CorrectionRow;
    XShapeParts(v, n, k, r, i);
    XHalfDot(r, v[r..n - k], k, i, a[s][n..]);
    PaddedDot(v[n..n + r], n - r, a[s][..n]);
    CorrectionEntry(a, n, k, r, i, s);
    UpperRow(a, n, k, r, s);
    DotUnit(v[n..n + r], s);
  }

  lemma LogicalXShape(a: Matrix, n: nat, k: nat, r: nat, i: nat)
    requires Wide(a, 2 * n) && |a| + k == n && r <= |a| && i < k
    ensures XShape(LogicalX(a, n, k, r)[i], n, k, r, i)
  {
    hide ColumnOfE, CorrectionRow;
  }

  lemma LogicalXIsTheOne(a: Matrix, n: nat, k: nat, r: nat, i: nat, v: Vec)
    requires Wide(a, 2 * n) && |a| + k == n && r <= |a| && i < k && |v| == 2 * n
    requires StandardForm(a, n, k, r)
    ensures v == LogicalX(a, n, k, r)[i] <==> XShape(v, n, k, r, i) && CommutesWith(v, a, n)
  {
    hide StandardForm, LogicalX, XShape, Dot, Unit, Zero, CorrectionRow;
    LogicalXShape(a, n, k, r, i);
    StandardFormGivesLogicalOperators(a, n, k, r);
    if XShape(v, n, k, r, i) && CommutesWith(v, a, n) {
      forall t | 0 <= t < |a| - r ensures v[r..n - k][t] == ColumnOfE(a, n, k, r, i)[t] {
        XMiddleEntry(v, a, n, k, r, i, r + t);
      }
      assert v[r..n - k] == ColumnOfE(a, n, k, r, i);
      forall s | 0 <= s < r ensures v[n..n + r][s] == CorrectionRow(a, n, k, r, i)[s] {
        XCorrectionEntry(v, a, n, k, r, i, s);
      }
      assert v[n..n + r] == CorrectionRow(a, n, k, r, i);
      XShapeParts(v, n, k, r, i);
      LogicalXParts(a, n, k, r, i);
      assert v == v[..n] + v[n..];
      assert LogicalX(a, n, k, r)[i] == LogicalX(a, n, k, r)[i][..n] + LogicalX(a, n, k, r)[i][n..];
    }
  }

  // The same for Z_i.
  ghost predicate ZShape(v: Vec, n: nat, k: nat, r: nat, i: nat)
    requires |v| == 2 * n && r + k <= n
  {
    && (forall j :: 0 <= j < n ==> !v[j])
    && (forall j :: n + r <= j < 2 * n ==> v[j] == (j == 2 * n - k + i))
  }

  lemma ZShapeParts(v: Vec, n: nat, k: nat, r: nat, i: nat)
    requires |v| == 2 * n && r + k <= n && i < k && ZShape(v, n, k, r, i)
    ensures v[..n] == Zero(n) && v[n..] == v[n..n + r] + (Zero(n - k - r) + Unit(k, i))
  {
    assert v[n + r..2 * n - k] == Zero(n - k - r) && v[2 * n - k..] == Unit(k, i);
    assert v[n..] == v[n..n + r] + (v[n + r..2 * n - k] + v[2 * n - k..]);
  }

  lemma ZEntry(v: Vec, a: Matrix, n: nat, k: nat, r: nat, i: nat, s: nat)
    requires Wide(a, 2 * n) && |a| + k == n && r <= |a| && s < r && i < k && |v| == 2 * n
    requires StandardForm(a, n, k, r) && ZShape(v, n, k, r, i) && !Symplectic(v, a[s], n)
    ensures v[n..n + r][s] == a[s][n - k + i]
  {
    hide StandardForm, ZShape, Dot, Unit, Zero;
    ZShapeParts(v, n, k, r, i);
    ZeroMeetsNothing(n, a[s][n..]);
    ZHalfDot(v[n..n + r], n - k - r, k, i, a[s][..n]);
    UpperRow(a, n, k, r, s);
    DotUnit(v[n..n + r], s);
  }

  lemma LogicalZShape(a: Matrix, n: nat, k: nat, r: nat, i: nat)
    requires Wide(a, 2 * n) && |a| + k == n && r <= |a| && i < k
    ensures ZShape(LogicalZ(a, n, k, r)[i], n, k, r, i)
  {
    hide ColumnOfA2;
  }

  lemma LogicalZIsTheOne(a: Matrix, n: nat, k: nat, r: nat, i: nat, v: Vec)
    requires Wide(a, 2 * n) && |a| + k == n && r <= |a| && i < k && |v| == 2 * n
    requires StandardForm(a, n, k, r)
    ensures v == LogicalZ(a, n, k, r)[i] <==> ZShape(v, n, k, r, i) && CommutesWith(v, a, n)
  {
    hide StandardForm, LogicalZ, ZShape, Dot, Unit, Zero, ColumnOfA2;
    LogicalZShape(a, n, k, r, i);
    StandardFormGivesLogicalOperators(a, n, k, r);
    if ZShape(v, n, k, r, i) && CommutesWith(v, a, n) {
      forall s | 0 <= s < r ensures v[n..n + r][s] == ColumnOfA2(a, n, k, r, i)[s] {
        ZEntry(v, a, n, k, r, i, s);
      }
      assert v[n..n + r] == ColumnOfA2(a, n, k, r, i);
      ZShapeParts(v, n, k, r, i);
      LogicalZParts(a, n, k, r, i);
      assert v == v[..n] + v[n..];
      assert LogicalZ(a, n, k, r)[i] == LogicalZ(a, n, k, r)[i][..n] + LogicalZ(a, n, k, r)[i][n..];
    }
  }

  // ----- Reaching the standard form -----

  // Elimination keeps the rank of the whole matrix.
  lemma EliminationKeepsRank(before: Matrix, after: Matrix, n: nat, minRow: nat, maxRow: nat,
                             minCol: nat, maxCol: nat, perm: seq<nat>, rank: nat)
    requires Wide(before, 2 * n) && Wide(after, 2 * n) && minRow <= maxRow <= |before|
    requires Preserved(before, after, n, minRow, maxRow, minCol, maxCol, perm)
    ensures IsRank(before, 2 * n, rank) <==> IsRank(after, 2 * n, rank)
  {
    hide Span, Commuting, Columns;
    var w, cols := 2 * n, Columns(perm, n);
    var picked := PickAll(before, w, cols);
    RearrangedSpan(after, picked, w, minRow, maxRow) by {
      assert picked[minRow..maxRow] == PickAll(before[minRow..maxRow], w, cols);
    }
    ColumnsOnto(perm, n);
    RankOfPick(before, w, cols, rank);
  }

  lemma ColumnsOnto(perm: seq<nat>, n: nat)
    requires |perm| == n && Onto(perm, n)
    ensures Onto(Columns(perm, n), 2 * n)
  {
    forall j | 0 <= j < 2 * n ensures j in Columns(perm, n) {
      var q := if j < n then j else j - n;
      assert q in perm;
      var t :| 0 <= t < n && perm[t] == q;
      assert Columns(perm, n)[if j < n then t else t + n] == j;
    }
  }

  lemma {:induction false} RearrangedSpan(a: Matrix, b: Matrix, w: nat, lo: nat, hi: nat)
    requires Wide(a, w) && Wide(b, w) && |a| == |b| && lo <= hi <= |a|
    requires forall i :: 0 <= i < |a| && !(lo <= i < hi) ==> a[i] == b[i]
    requires Span(a[lo..hi], w) == Span(b[lo..hi], w)
    ensures Span(a, w) == Span(b, w)
  {
    hide Span;
    RearrangedSpanIn(a, b, w, lo, hi);
    RearrangedSpanIn(b, a, w, lo, hi);
  }

  lemma {:induction false} RearrangedSpanIn(a: Matrix, b: Matrix, w: nat, lo: nat, hi: nat)
    requires Wide(a, w) && Wide(b, w) && |a| == |b| && lo <= hi <= |a|
    requires forall i :: 0 <= i < |a| && !(lo <= i < hi) ==> a[i] == b[i]
    requires Span(a[lo..hi], w) == Span(b[lo..hi], w)
    ensures Span(a, w) <= Span(b, w)
  {
    hide Span;
    forall i | 0 <= i < |a| ensures a[i] in Span(b, w) {
      if lo <= i < hi {
        SpanHasRows(a[lo..hi], w, i - lo);
        SpanMonotone(b, w, lo, hi);
      } else {
        SpanHasRows(b, w, i);
      }
    }
    SpanLeast(a, b, w);
  }

  // The two eliminations leave every block of the standard form in place, except that the
  // identity of the lower block may be too small.
  ghost predicate AlmostStandard(a: Matrix, n: nat, k: nat, r: nat, r2: nat)
    requires Wide(a, 2 * n) && |a| + k == n && r + r2 <= |a|
  {
    && (forall s, j :: 0 <= s < r && 0 <= j < r ==> a[s][j] == (s == j))
    && (forall s, j :: r <= s < |a| && 0 <= j < n ==> !a[s][j])
    && Reduced(a, 2 * n, r, |a|, n + r, 2 * n, r2)
  }

  lemma {:induction false} TwoEliminations(a1: Matrix, a2: Matrix, n: nat, k: nat, r: nat, r2: nat, perm: seq<nat>)
    requires Wide(a1, 2 * n) && Wide(a2, 2 * n) && |a1| == |a2| && |a1| + k == n && r + r2 <= |a1|
    requires Reduced(a1, 2 * n, 0, |a1|, 0, n, r)
    requires Eliminated(a1, a2, n, r, |a1|, n + r, 2 * n, r2, perm)
    ensures AlmostStandard(a2, n, k, r, r2)
  {
    hide Span, Commuting, Block, IsRank;
    var m, cols := |a1|, Columns(perm, n);
    forall s, j | 0 <= s < r && 0 <= j < r ensures a2[s][j] == (s == j) {
      assert !Touches(j, n, n + r, 2 * n);
      assert cols[j] == j;
      assert a2[s] == Pick(a1[s], cols);
    }
    var rows := PickAll(a1[r..m], 2 * n, cols);
    forall s, j | r <= s < m && 0 <= j < n ensures !a2[s][j] {
      SpanHasRows(a2[r..m], 2 * n, s - r);
      assert a2[s] == a2[r..m][s - r];
      forall i | 0 <= i < |rows| ensures !rows[i][j] {
        assert rows[i] == Pick(a1[r + i], cols);
      }
      SpanZeroAt(rows, 2 * n, j, a2[s]);
    }
  }

  // Commutation: a lower row that is clear in the last n - r columns is clear altogether.
  lemma CommutationClearsRow(a: Matrix, n: nat, k: nat, r: nat, r2: nat, s: nat)
    requires Wide(a, 2 * n) && |a| + k == n && r + r2 <= s < |a|
    requires AlmostStandard(a, n, k, r, r2) && Commuting(a, n)
    ensures a[s] == Zero(2 * n)
  {
    var row := a[s];
    forall j | 0 <= j < 2 * n ensures !row[j] {
      if n <= j < n + r {
        var i := j - n;
        assert !Symplectic(a[i], row, n);
        DotZero(a[i][n..], row[..n]);
        DotSingle(a[i][..n], row[n..], i);
      }
    }
  }

  lemma StandardFormIndependent(a: Matrix, n: nat, k: nat, r: nat)
    requires Wide(a, 2 * n) && |a| + k == n && r <= |a|
    requires StandardForm(a, n, k, r)
    ensures IsRank(a, 2 * n, |a|)
  {
    hide Span;
    var m, w := |a|, 2 * n;
    var b := a[r..] + a[..r];
    var pivots := Range(n + r, n + m) + Range(0, r);
    PivotsIndependent(b, w, pivots);
    RotationSpan(a, w, r);
  }

  lemma RotationSpan(a: Matrix, w: nat, r: nat)
    requires Wide(a, w) && r <= |a|
    ensures Span(a[r..] + a[..r], w) == Span(a, w)
  {
    hide Span;
    var m, b := |a|, a[r..] + a[..r];
    forall i | 0 <= i < m ensures a[i] in Span(b, w) {
      SpanHasRows(b, w, if i < r then m - r + i else i - r);
    }
    forall i | 0 <= i < m ensures b[i] in Span(a, w) {
      SpanHasRows(a, w, if i < m - r then r + i else i - (m - r));
    }
    SpanLeast(a, b, w);
    SpanLeast(b, a, w);
  }

  // For commuting generators, the standard form is reached exactly when they are independent;
  // the second elimination then has full rank n - k - r.
  lemma {:induction false} StandardFormReached(a0: Matrix, a1: Matrix, a2: Matrix, n: nat, k: nat, r: nat, r2: nat,
                            perm1: seq<nat>, perm2: seq<nat>)
    requires Wide(a0, 2 * n) && Wide(a1, 2 * n) && Wide(a2, 2 * n)
    requires |a0| == |a1| == |a2| && |a0| + k == n && r + r2 <= |a0|
    requires Commuting(a0, n)
    requires Eliminated(a0, a1, n, 0, |a0|, 0, n, r, perm1)
    requires Eliminated(a1, a2, n, r, |a0|, n + r, 2 * n, r2, perm2)
    ensures Commuting(a2, n)
    ensures StandardForm(a2, n, k, r) <==> IsRank(a0, 2 * n, n - k)
    ensures r2 == n - k - r <==> IsRank(a0, 2 * n, n - k)
  {
    hide Span, Commuting, Block, IsRank, Rearranged, StandardForm, Reduced, Columns;
    hide QubitPermutation;
    EliminationKeepsRank(a0, a1, n, 0, |a0|, 0, n, perm1, n - k);
    EliminationKeepsRank(a1, a2, n, r, |a0|, n + r, 2 * n, perm2, n - k);
    TwoEliminations(a1, a2, n, k, r, r2, perm2);
    RankOfAlmostStandard(a2, n, k, r, r2);
  }

  lemma RankOfAlmostStandard(a: Matrix, n: nat, k: nat, r: nat, r2: nat)
    requires Wide(a, 2 * n) && |a| + k == n && r + r2 <= |a|
    requires AlmostStandard(a, n, k, r, r2) && Commuting(a, n)
    ensures StandardForm(a, n, k, r) <==> IsRank(a, 2 * n, n - k)
    ensures r2 == n - k - r <==> IsRank(a, 2 * n, n - k)
  {
    hide Span, Symplectic, Commuting;
    if r2 == n - k - r {
      assert StandardForm(a, n, k, r);
      StandardFormIndependent(a, n, k, r);
    } else {
      var s := r + r2;
      CommutationClearsRow(a, n, k, r, r2, s);
      SpanHasZero(a[..s], 2 * n);
      IndependentIsFullRank(a, 2 * n);
      assert !a[s][n + s];
    }
  }

  // ----- The whole transformation, in place -----

  // Doing perm1 first and perm2 second.
  function Compose(perm1: seq<nat>, perm2: seq<nat>): (c: seq<nat>)
    requires Below(perm2, |perm1|)
    ensures |c| == |perm2|
  {
    seq(|perm2|, q requires 0 <= q < |perm2| => perm1[perm2[q]])
  }

  lemma ComposePermutations(perm1: seq<nat>, perm2: seq<nat>, n: nat, lo: nat, hi: nat)
    requires QubitPermutation(perm1, n, 0, n) && QubitPermutation(perm2, n, lo, hi)
    ensures QubitPermutation(Compose(perm1, perm2), n, 0, n)
  {
    var c := Compose(perm1, perm2);
    forall j | 0 <= j < n ensures j in c {
      assert j in perm1;
      var t :| 0 <= t < n && perm1[t] == j;
      assert t in perm2;
      var u :| 0 <= u < n && perm2[u] == t;
      assert c[u] == j;
    }
  }

  // Two rearrangements in a row are one.
  lemma {:induction false} ComposeRearrangements(a0: Matrix, a1: Matrix, a2: Matrix, n: nat, lo: nat,
                                                 minCol: nat, maxCol: nat,
                                                 perm1: seq<nat>, perm2: seq<nat>)
    requires Wide(a0, 2 * n) && Wide(a1, 2 * n) && Wide(a2, 2 * n) && lo <= |a0| == |a1| == |a2|
    requires Preserved(a0, a1, n, 0, |a0|, 0, n, perm1)
    requires Preserved(a1, a2, n, lo, |a0|, minCol, maxCol, perm2)
    ensures QubitPermutation(Compose(perm1, perm2), n, 0, n)
    ensures Span(a2, 2 * n) == Span(PickAll(a0, 2 * n, Columns(Compose(perm1, perm2), n)), 2 * n)
  {
    hide Span, Commuting, Columns, Pick;
    var w, m := 2 * n, |a0|;
    ComposePermutations(perm1, perm2, n, minCol, maxCol);
    var c1, c2, c := Columns(perm1, n), Columns(perm2, n), Columns(Compose(perm1, perm2), n);
    var p1 := PickAll(a1, w, c2);
    assert p1[lo..m] == PickAll(a1[lo..m], w, c2);
    RearrangedSpan(a2, p1, w, lo, m);
    assert a1[0..m] == a1 && a0[0..m] == a0;
    SpanOfPickCongruent(a1, PickAll(a0, w, c1), w, c2);
    PickComposed(a0, n, perm1, perm2);
  }

  lemma PickComposed(a: Matrix, n: nat, perm1: seq<nat>, perm2: seq<nat>)
    requires Wide(a, 2 * n) && |perm1| == |perm2| == n && Below(perm1, n) && Below(perm2, n)
    ensures PickAll(PickAll(a, 2 * n, Columns(perm1, n)), 2 * n, Columns(perm2, n))
         == PickAll(a, 2 * n, Columns(Compose(perm1, perm2), n))
  {
    var c1, c2, c := Columns(perm1, n), Columns(perm2, n), Columns(Compose(perm1, perm2), n);
    forall i | 0 <= i < |a| ensures Pick(Pick(a[i], c1), c2) == Pick(a[i], c) {}
  }

  method TransferToStandardForm(M: array2<bool>, n: nat, k: nat)
    returns (X: Matrix, Z: Matrix, r: nat, ghost perm: seq<nat>)
    requires M.Length0 + k == n && M.Length1 == 2 * n
    modifies M
    // r is the rank of the X half; the rows still generate the same code up to reordering qubits
    ensures r <= n - k && IsRank(Block(old(Mat(M)), 2 * n, 0, n - k, 0, n), n, r)
    ensures QubitPermutation(perm, n, 0, n)
    ensures Span(Mat(M), 2 * n) == Span(PickAll(old(Mat(M)), 2 * n, Columns(perm, n)), 2 * n)
    ensures X == LogicalX(Mat(M), n, k, r) && Z == LogicalZ(Mat(M), n, k, r)
    ensures Commuting(old(Mat(M)), n) ==>
      && Commuting(Mat(M), n)
      && (StandardForm(Mat(M), n, k, r) <==> IsRank(old(Mat(M)), 2 * n, n - k))
      && (IsRank(old(Mat(M)), 2 * n, n - k) ==> LogicalOperators(Mat(M), X, Z, n, k))
  {
    hide Mat, Span, Commuting, Rearranged, Reduced, Columns, IsRank, Block, LogicalX, LogicalZ,
      StandardForm, LogicalOperators, CorrectionRow, ColumnOfE, ColumnOfA2;
    ghost var a0 := Mat(M);
    ghost var perm1, perm2;
    r, perm1 := GaussianElimination(M, 0, n - k, 0, n);
    ghost var a1 := Mat(M);
    var r2;
    r2, perm2 := GaussianElimination(M, r, n - k, n + r, 2 * n);
    ghost var a2 := Mat(M);
    perm := Compose(perm1, perm2);
    ComposeRearrangements(a0, a1, a2, n, r, n + r, 2 * n, perm1, perm2);
    X, Z := LogicalX(Mat(M), n, k, r), LogicalZ(Mat(M), n, k, r);
    if Commuting(a0, n) {
      StandardFormReached(a0, a1, a2, n, k, r, r2, perm1, perm2);
      if StandardForm(a2, n, k, r) {
        StandardFormGivesLogicalOperators(a2, n, k, r);
      }
    }
  }

  // ----- Pauli strings -----

  function Letter(x: bool, z: bool): char {
    "IXZY"[(if z then 2 else 0) + (if x then 1 else 0)]
  }

  function PauliString(v: Vec, n: nat): string
    requires |v| >= 2 * n
  {
    seq(n, j requires 0 <= j < n => Letter(v[j], v[j + n]))
  }

  // Two single-qubit Paulis anticommute when both are proper and they differ.
  predicate LettersAnticommute(p: char, q: char) {
    p != 'I' && q != 'I' && p != q
  }

  // Two strings anticommute when an odd number of their positions do.
  predicate StringsAnticommute(p: string, q: string)
    requires |p| == |q|
  {
    Parity(seq(|p|, j requires 0 <= j < |p| => LettersAnticommute(p[j], q[j])))
  }

  // The symplectic product of two rows is anticommutation of the strings printed for them.
  lemma SymplecticIsAnticommutation(u: Vec, v: Vec, n: nat)
    requires |u| == |v| == 2 * n
    ensures StringsAnticommute(PauliString(u, n), PauliString(v, n)) == Symplectic(u, v, n)
  {
    var p, q := PauliString(u, n), PauliString(v, n);
    var s, t := And(u[..n], v[n..]), And(u[n..], v[..n]);
    ParityAdd(s, t);
    assert seq(n, j requires 0 <= j < n => LettersAnticommute(p[j], q[j])) == Add(s, t);
  }

  method BuildByCode(mat: array2<bool>) returns (out: seq<string>)
    ensures |out| == mat.Length0
    ensures forall i :: 0 <= i < |out| ==> out[i] == PauliString(Mat(mat)[i], mat.Length1 / 2)
    ensures forall i :: 0 <= i < |out| ==> |out[i]| == mat.Length1 / 2
    // the letter X or Y stands for a bit of the X half, the letter Z or Y for a bit of the Z half
    ensures forall i, j :: 0 <= i < |out| && 0 <= j < mat.Length1 / 2 ==>
      && out[i][j] in {'I', 'X', 'Y', 'Z'}
      && (mat[i, j] <==> out[i][j] in {'X', 'Y'})
      && (mat[i, j + mat.Length1 / 2] <==> out[i][j] in {'Z', 'Y'})
  {
    out := [];
    var n := mat.Length1 / 2;
    for i := 0 to mat.Length0
      invariant |out| == i
      invariant forall x :: 0 <= x < i ==> out[x] == PauliString(Mat(mat)[x], n)
    {
      var ps := "";
      for j := 0 to n
        invariant ps == PauliString(Mat(mat)[i], n)[..j]
      {
        var k := (if mat[i, j + n] then 2 else 0) + (if mat[i, j] then 1 else 0);
        ps := ps + ["IXZY"[k]];
      }
      out := out + [ps];
    }
    forall i, j | 0 <= i < |out| && 0 <= j < n
      ensures out[i][j] == Letter(mat[i, j], mat[i, j + n])
    {
      assert out[i] == PauliString(Mat(mat)[i], n);
    }
    LetterReads();
  }

  // X and Y hold the X bit, Z and Y hold the Z bit.
  lemma LetterReads()
    ensures forall x, z ::
              (Letter(x, z) in {'I', 'X', 'Y', 'Z'}
               && (x <==> Letter(x, z) in {'X', 'Y'}) && (z <==> Letter(x, z) in {'Z', 'Y'}))
  {
  }

  // ----- Reading generators -----

  // Row of a generator.  A letter Y sets its X bit and nothing else: the second branch of the
  // source is not taken for it.
  function GeneratorRow(g: string, n: nat): (v: Vec)
    ensures |v| == 2 * n
  {
    seq(2 * n, c requires 0 <= c => SetsColumn(g, n, c))
  }

  predicate SetsColumn(g: string, n: nat, c: nat) {
    || (c < |g| && g[c] in {'X', 'Y'})
    || (n <= c < n + |g| && g[c - n] == 'Z')
  }

  // Where a letter is written, if it is.
  function ColumnOfLetter(l: char, n: nat, j: nat): Option<nat> {
    if l == 'X' || l == 'Y' then Some(j) else if l == 'Z' then Some(n + j) else None
  }

  predicate LetterFits(l: char, n: nat, j: nat) {
    match ColumnOfLetter(l, n, j)
    case Some(c) => c < 2 * n
    case None => true
  }

  predicate GeneratorFits(g: string, n: nat) {
    forall j :: 0 <= j < |g| ==> LetterFits(g[j], n, j)
  }

  lemma NoLetters(n: nat, c: nat)
    ensures !SetsColumn("", n, c)
  {
  }

  lemma OneLetterMore(g: string, n: nat, j: nat, c: nat)
    requires j < |g|
    ensures SetsColumn(g[..j + 1], n, c) == (SetsColumn(g[..j], n, c) || ColumnOfLetter(g[j], n, j) == Some(c))
  {
    assert g[..j + 1] == g[..j] + [g[j]];
  }

  // The matrix of the generators; the first one gives the number of qubits.
  method BuildMatrix(generators: seq<string>) returns (r: Result<array2<bool>>)
    ensures r.Err? <==> generators == [] || exists g :: g in generators && !GeneratorFits(g, |generators[0]|)
    ensures r.Err? ==> r.error == IndexError
    ensures r.Ok? ==> fresh(r.value)
    ensures r.Ok? ==> r.value.Length0 == |generators| && r.value.Length1 == 2 * |generators[0]|
    ensures r.Ok? ==> forall i :: 0 <= i < |generators| ==>
      Mat(r.value)[i] == GeneratorRow(generators[i], |generators[0]|)
  {
    hide SetsColumn;
    if generators == [] {
      return Err(IndexError);
    }
    var n := |generators[0]|;
    var m := new bool[|generators|, 2 * n]((i, c) => false);
    for i := 0 to |generators|
      invariant forall x :: 0 <= x < i ==> GeneratorFits(generators[x], n)
      invariant forall x, c :: 0 <= x < i && 0 <= c < 2 * n ==> m[x, c] == SetsColumn(generators[x], n, c)
      invariant forall x, c :: i <= x < |generators| && 0 <= c < 2 * n ==> !m[x, c]
    {
      var g := generators[i];
      forall c: nat | c < 2 * n ensures !SetsColumn(g[..0], n, c) { NoLetters(n, c); }
      for j := 0 to |g|
        invariant forall l :: 0 <= l < j ==> LetterFits(g[l], n, l)
        invariant forall x, c :: 0 <= x < i && 0 <= c < 2 * n ==> m[x, c] == SetsColumn(generators[x], n, c)
        invariant forall c :: 0 <= c < 2 * n ==> m[i, c] == SetsColumn(g[..j], n, c)
        invariant forall x, c :: i < x < |generators| && 0 <= c < 2 * n ==> !m[x, c]
      {
        forall c: nat | c < 2 * n
          ensures SetsColumn(g[..j + 1], n, c) == (SetsColumn(g[..j], n, c) || ColumnOfLetter(g[j], n, j) == Some(c))
        {
          OneLetterMore(g, n, j, c);
        }
        if g[j] == 'X' || g[j] == 'Y' {
          if j >= 2 * n {
            assert !GeneratorFits(g, n);
            return Err(IndexError);
          }
          m[i, j] := true;
        } else if g[j] == 'Z' || g[j] == 'Y' {
          if n + j >= 2 * n {
            assert !GeneratorFits(g, n);
            return Err(IndexError);
          }
          m[i, n + j] := true;
        }
      }
      assert g[..|g|] == g;
    }
    return Ok(m);
  }

  predicate IsPauliString(g: string) {
    forall j :: 0 <= j < |g| ==> g[j] in {'I', 'X', 'Y', 'Z'}
  }

  // Printing the row of a generator gives it back with X for Y, so exactly the generators without
  // the letter Y are read as what they say.
  lemma PrintsBackIff(g: string)
    requires IsPauliString(g)
    ensures GeneratorFits(g, |g|)
    ensures var p := PauliString(GeneratorRow(g, |g|), |g|);
      && |p| == |g|
      && (forall j :: 0 <= j < |g| ==> p[j] == if g[j] == 'Y' then 'X' else g[j])
      && (p == g <==> 'Y' !in g)
  {
    var n, v := |g|, GeneratorRow(g, |g|);
    var p := PauliString(v, n);
    forall j | 0 <= j < n ensures p[j] == if g[j] == 'Y' then 'X' else g[j] {
      assert v[j] == SetsColumn(g, n, j) && v[j + n] == SetsColumn(g, n, j + n);
      assert p[j] == Letter(v[j], v[j + n]);
      LetterReads();
    }
  }
}
