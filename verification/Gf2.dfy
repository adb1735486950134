// Linear algebra over GF(2): vectors of bits, row spans, rank, and the symplectic product
// that decides whether two Pauli strings commute.
module Gf2 {
  import opened Prelude

  type Vec = seq<bool>

  // A matrix is the sequence of its rows.
  type Matrix = seq<Vec>

  predicate Wide(rows: Matrix, w: nat) {
    forall i :: 0 <= i < |rows| ==> |rows[i]| == w
  }

  function Zero(w: nat): Vec {
    seq(w, _ => false)
  }

  function Unit(w: nat, i: nat): Vec {
    seq(w, j => j == i)
  }

  // Addition over GF(2) is exclusive or.
  function Add(u: Vec, v: Vec): (r: Vec)
    requires |u| == |v|
    ensures |r| == |u|
    ensures forall i :: 0 <= i < |u| ==> r[i] == (u[i] != v[i])
  {
    seq(|u|, i requires 0 <= i < |u| => u[i] != v[i])
  }

  lemma AddCancels(u: Vec, v: Vec)
    requires |u| == |v|
    ensures Add(Add(u, v), v) == u
    ensures Add(u, v) == Add(v, u)
    ensures Add(u, u) == Zero(|u|)
    ensures Add(u, Zero(|u|)) == u
  {
  }

  // Adding x to one summand adds it to the sum, to both changes nothing.
  lemma AddShuffle(u: Vec, v: Vec, x: Vec)
    requires |u| == |v| == |x|
    ensures Add(Add(u, x), v) == Add(Add(u, v), x)
    ensures Add(u, Add(v, x)) == Add(Add(u, v), x)
    ensures Add(Add(u, x), Add(v, x)) == Add(u, v)
  {
  }

  // ----- Row spans -----

  // All sums of subsets of the rows.
  ghost function Span(rows: Matrix, w: nat): (s: set<Vec>)
    requires Wide(rows, w)
    ensures AllWide(s, w)
  {
    if rows == [] then {Zero(w)}
    else Span(rows[..|rows| - 1], w) + Shift(Span(rows[..|rows| - 1], w), w, rows[|rows| - 1])
  }

  ghost predicate AllWide(s: set<Vec>, w: nat) {
    forall v :: v in s ==> |v| == w
  }

  ghost function Shift(s: set<Vec>, w: nat, u: Vec): (t: set<Vec>)
    requires AllWide(s, w) && |u| == w
    ensures AllWide(t, w)
  {
    set v | v in s :: Add(v, u)
  }

  lemma InShift(s: set<Vec>, w: nat, u: Vec, v: Vec)
    requires AllWide(s, w) && |u| == w && |v| == w
    ensures v in Shift(s, w, u) <==> Add(v, u) in s
  {
    AddCancels(v, u);
    if v in Shift(s, w, u) {
      var x :| x in s && v == Add(x, u);
      AddCancels(x, u);
    }
    if Add(v, u) in s {
      assert Add(Add(v, u), u) in Shift(s, w, u);
    }
  }

  // One more row: v is a sum with or without that row.
  lemma InSpan(rows: Matrix, w: nat, v: Vec)
    requires Wide(rows, w) && rows != [] && |v| == w
    ensures v in Span(rows, w) <==>
      v in Span(rows[..|rows| - 1], w) || Add(v, rows[|rows| - 1]) in Span(rows[..|rows| - 1], w)
  {
    InShift(Span(rows[..|rows| - 1], w), w, rows[|rows| - 1], v);
  }

  lemma {:induction false} SpanHasZero(rows: Matrix, w: nat)
    requires Wide(rows, w)
    ensures Zero(w) in Span(rows, w)
  {
    if rows != [] {
      SpanHasZero(rows[..|rows| - 1], w);
    }
  }

  lemma {:induction false} SpanClosed(rows: Matrix, w: nat, u: Vec, v: Vec)
    requires Wide(rows, w)
    requires u in Span(rows, w) && v in Span(rows, w)
    ensures Add(u, v) in Span(rows, w)
  {
    if rows == [] {
      AddCancels(u, v);
    } else {
      hide Span, Add;
      var rest, last := rows[..|rows| - 1], rows[|rows| - 1];
      AddShuffle(u, v, last);
      InSpan(rows, w, u);
      InSpan(rows, w, v);
      InSpan(rows, w, Add(u, v));
      var u' := if u in Span(rest, w) then u else Add(u, last);
      var v' := if v in Span(rest, w) then v else Add(v, last);
      SpanClosed(rest, w, u', v');
    }
  }

  lemma {:induction false} SpanHasRows(rows: Matrix, w: nat, i: nat)
    requires Wide(rows, w) && i < |rows|
    ensures rows[i] in Span(rows, w)
  {
    hide Span;
    var rest, last := rows[..|rows| - 1], rows[|rows| - 1];
    InSpan(rows, w, rows[i]);
    if i < |rows| - 1 {
      SpanHasRows(rest, w, i);
    } else {
      SpanHasZero(rest, w);
      AddCancels(last, last);
    }
  }

  // The span is the least subspace holding the rows.
  lemma {:induction false} SpanLeast(rows: Matrix, other: Matrix, w: nat)
    requires Wide(rows, w) && Wide(other, w)
    requires forall i :: 0 <= i < |rows| ==> rows[i] in Span(other, w)
    ensures Span(rows, w) <= Span(other, w)
  {
    if rows == [] {
      SpanHasZero(other, w);
    } else {
      hide Span;
      var rest, last := rows[..|rows| - 1], rows[|rows| - 1];
      forall i | 0 <= i < |rest| ensures rest[i] in Span(other, w) {
        assert rest[i] == rows[i];
      }
      SpanLeast(rest, other, w);
      forall v | v in Span(rows, w) ensures v in Span(other, w) {
        InSpan(rows, w, v);
        if v !in Span(rest, w) {
          SpanClosed(other, w, Add(v, last), last);
          AddCancels(v, last);
        }
      }
    }
  }

  lemma {:induction false} SpanMonotone(rows: Matrix, w: nat, lo: nat, hi: nat)
    requires Wide(rows, w) && lo <= hi <= |rows|
    ensures Span(rows[lo..hi], w) <= Span(rows, w)
  {
    hide Span;
    forall i | 0 <= i < hi - lo ensures rows[lo..hi][i] in Span(rows, w) {
      SpanHasRows(rows, w, lo + i);
    }
    SpanLeast(rows[lo..hi], rows, w);
  }

  // A coordinate that is zero in every row is zero throughout the span.
  lemma {:induction false} SpanZeroAt(rows: Matrix, w: nat, j: nat, v: Vec)
    requires Wide(rows, w) && j < w
    requires forall i :: 0 <= i < |rows| ==> !rows[i][j]
    requires v in Span(rows, w)
    ensures !v[j]
  {
    if rows != [] {
      hide Span;
      var rest, last := rows[..|rows| - 1], rows[|rows| - 1];
      assert !last[j];
      InSpan(rows, w, v);
      if v in Span(rest, w) {
        SpanZeroAt(rest, w, j, v);
      } else {
        SpanZeroAt(rest, w, j, Add(v, last));
      }
    }
  }

  // ----- Rank -----

  // Over GF(2) a space has dimension r exactly when it has 2^r elements.
  ghost predicate IsRank(rows: Matrix, w: nat, r: nat)
    requires Wide(rows, w)
  {
    |Span(rows, w)| == Pow2(r)
  }

  ghost predicate Independent(rows: Matrix, w: nat)
    requires Wide(rows, w)
  {
    forall i :: 0 <= i < |rows| ==> rows[i] !in Span(rows[..i], w)
  }

  lemma ShiftOneMore(s: set<Vec>, w: nat, u: Vec, x: Vec)
    requires AllWide(s, w) && |u| == w && |x| == w
    ensures Shift(s + {x}, w, u) == Shift(s, w, u) + {Add(x, u)}
  {
    hide Add;
  }

  lemma {:induction false} ShiftSize(s: set<Vec>, w: nat, u: Vec)
    requires AllWide(s, w) && |u| == w
    ensures |Shift(s, w, u)| == |s|
    decreases |s|
  {
    if s == {} {
      assert Shift(s, w, u) == {};
    } else {
      var x :| x in s;
      var rest := s - {x};
      ShiftSize(rest, w, u);
      assert s == rest + {x};
      ShiftOneMore(rest, w, u, x);
      hide Add, Shift;
      AddCancels(x, u);
      InShift(rest, w, u, Add(x, u));
    }
  }

  // A new row either doubles the span or leaves it as it was.
  lemma SpanStep(rows: Matrix, w: nat)
    requires Wide(rows, w) && rows != []
    ensures var rest := rows[..|rows| - 1]; var last := rows[|rows| - 1];
      && (last in Span(rest, w) ==> Span(rows, w) == Span(rest, w))
      && (last !in Span(rest, w) ==> |Span(rows, w)| == 2 * |Span(rest, w)|)
  {
    var rest, last := rows[..|rows| - 1], rows[|rows| - 1];
    var s, t := Span(rest, w), Shift(Span(rest, w), w, last);
    if last in s {
      forall v | v in t ensures v in s {
        InShift(s, w, last, v);
        SpanClosed(rest, w, Add(v, last), last);
        AddCancels(v, last);
      }
    } else {
      ShiftSize(s, w, last);
      forall v | v in s ensures v !in t {
        InShift(s, w, last, v);
        assert Add(v, Add(v, last)) == last;
        if v in t {
          SpanClosed(rest, w, v, Add(v, last));
        }
      }
      assert s !! t;
    }
  }

  lemma IndependentStep(rows: Matrix, w: nat)
    requires Wide(rows, w) && rows != []
    ensures var rest := rows[..|rows| - 1];
      Independent(rows, w) <==> Independent(rest, w) && rows[|rest|] !in Span(rest, w)
  {
    hide Span;
    var rest := rows[..|rows| - 1];
    forall i | 0 <= i < |rest| ensures rest[i] == rows[i] && rest[..i] == rows[..i] {}
    if Independent(rows, w) {
      assert rows[|rest|] !in Span(rows[..|rest|], w);
    }
  }

  // Independence in the usual sense is full rank.
  lemma {:induction false} IndependentIsFullRank(rows: Matrix, w: nat)
    requires Wide(rows, w)
    ensures Independent(rows, w) <==> IsRank(rows, w, |rows|)
    ensures |Span(rows, w)| <= Pow2(|rows|)
  {
    if rows == [] {
    } else {
      hide Span, Independent;
      IndependentIsFullRank(rows[..|rows| - 1], w);
      SpanStep(rows, w);
      IndependentStep(rows, w);
    }
  }

  // Rows that each own a pivot column, clear in all earlier rows, are independent.
  lemma PivotsIndependent(rows: Matrix, w: nat, pivots: seq<nat>)
    requires Wide(rows, w) && |pivots| == |rows|
    requires forall i :: 0 <= i < |rows| ==> pivots[i] < w && rows[i][pivots[i]]
    requires forall i, j :: 0 <= j < i < |rows| ==> !rows[j][pivots[i]]
    ensures IsRank(rows, w, |rows|)
  {
    hide Span;
    forall i | 0 <= i < |rows| ensures rows[i] !in Span(rows[..i], w) {
      if rows[i] in Span(rows[..i], w) {
        SpanZeroAt(rows[..i], w, pivots[i], rows[i]);
      }
    }
    IndependentIsFullRank(rows, w);
  }

  // Zero rows at the bottom add nothing to the span.
  lemma {:induction false} ZeroRowsAddNothing(rows: Matrix, w: nat, r: nat)
    requires Wide(rows, w) && r <= |rows|
    requires forall i :: r <= i < |rows| ==> rows[i] == Zero(w)
    ensures Span(rows, w) == Span(rows[..r], w)
    decreases |rows|
  {
    if r == |rows| {
      assert rows[..r] == rows;
    } else {
      hide Span;
      var rest := rows[..|rows| - 1];
      ZeroRowsAddNothing(rest, w, r);
      assert rest[..r] == rows[..r];
      SpanHasZero(rest, w);
      SpanStep(rows, w);
    }
  }

  // ----- Selecting and permuting coordinates -----

  function Pick(v: Vec, idx: seq<nat>): (r: Vec)
    requires Below(idx, |v|)
    ensures |r| == |idx| && forall t :: 0 <= t < |idx| ==> r[t] == v[idx[t]]
  {
    seq(|idx|, t requires 0 <= t < |idx| => v[idx[t]])
  }

  predicate Below(idx: seq<nat>, w: nat) {
    forall t :: 0 <= t < |idx| ==> idx[t] < w
  }

  function PickAll(rows: Matrix, w: nat, idx: seq<nat>): (r: Matrix)
    requires Wide(rows, w) && Below(idx, w)
    ensures |r| == |rows| && Wide(r, |idx|)
    ensures forall i :: 0 <= i < |rows| ==> r[i] == Pick(rows[i], idx)
  {
    seq(|rows|, i requires 0 <= i < |rows| => Pick(rows[i], idx))
  }

  ghost function PickSet(s: set<Vec>, w: nat, idx: seq<nat>): set<Vec>
    requires AllWide(s, w) && Below(idx, w)
  {
    set v | v in s :: Pick(v, idx)
  }

  lemma PickAdd(u: Vec, v: Vec, idx: seq<nat>)
    requires |u| == |v| && Below(idx, |u|)
    ensures Pick(Add(u, v), idx) == Add(Pick(u, idx), Pick(v, idx))
  {
  }

  // Selecting coordinates is linear, so it commutes with taking the span.
  lemma {:induction false} SpanOfPick(rows: Matrix, w: nat, idx: seq<nat>)
    requires Wide(rows, w) && Below(idx, w)
    ensures Span(PickAll(rows, w, idx), |idx|) == PickSet(Span(rows, w), w, idx)
  {
    var picked := PickAll(rows, w, idx);
    if rows == [] {
      assert picked == [];
      assert Pick(Zero(w), idx) == Zero(|idx|);
      assert Zero(w) in Span(rows, w);
    } else {
      var rest, last := rows[..|rows| - 1], rows[|rows| - 1];
      SpanOfPick(rest, w, idx);
      assert picked[..|rows| - 1] == PickAll(rest, w, idx);
      var s := Span(rest, w);
      forall v | v in Span(picked, |idx|) ensures v in PickSet(Span(rows, w), w, idx) {
        InSpan(picked, |idx|, v);
        if v in PickSet(s, w, idx) {
          var x :| x in s && Pick(x, idx) == v;
          assert x in Span(rows, w);
        } else {
          var x :| x in s && Pick(x, idx) == Add(v, Pick(last, idx));
          AddCancels(x, last);
          InSpan(rows, w, Add(x, last));
          PickAdd(x, last, idx);
          AddCancels(v, Pick(last, idx));
        }
      }
      forall v | v in PickSet(Span(rows, w), w, idx) ensures v in Span(picked, |idx|) {
        var x :| x in Span(rows, w) && Pick(x, idx) == v;
        InSpan(rows, w, x);
        InSpan(picked, |idx|, v);
        PickAdd(x, last, idx);
        if x in s {
          assert Pick(x, idx) in PickSet(s, w, idx);
        } else {
          assert Pick(Add(x, last), idx) in PickSet(s, w, idx);
        }
      }
    }
  }

  lemma {:induction false} SpanOfPickCongruent(a: Matrix, b: Matrix, w: nat, idx: seq<nat>)
    requires Wide(a, w) && Wide(b, w) && Below(idx, w)
    requires Span(a, w) == Span(b, w)
    ensures Span(PickAll(a, w, idx), |idx|) == Span(PickAll(b, w, idx), |idx|)
  {
    hide Span;
    SpanOfPick(a, w, idx);
    SpanOfPick(b, w, idx);
  }

  // Every coordinate is selected at least once.
  ghost predicate Onto(idx: seq<nat>, w: nat) {
    Below(idx, w) && forall j :: 0 <= j < w ==> j in idx
  }

  lemma PickInjective(u: Vec, v: Vec, idx: seq<nat>)
    requires |u| == |v| && Onto(idx, |u|)
    requires Pick(u, idx) == Pick(v, idx)
    ensures u == v
  {
    forall j | 0 <= j < |u| ensures u[j] == v[j] {
      assert j in idx;
      var t :| 0 <= t < |idx| && idx[t] == j;
      assert Pick(u, idx)[t] == Pick(v, idx)[t];
    }
  }

  lemma {:induction false} PickSetSize(s: set<Vec>, w: nat, idx: seq<nat>)
    requires AllWide(s, w) && Onto(idx, w)
    ensures |PickSet(s, w, idx)| == |s|
    decreases |s|
  {
    if s == {} {
      assert PickSet(s, w, idx) == {};
    } else {
      var x :| x in s;
      var rest := s - {x};
      PickSetSize(rest, w, idx);
      assert PickSet(s, w, idx) == PickSet(rest, w, idx) + {Pick(x, idx)};
      if Pick(x, idx) in PickSet(rest, w, idx) {
        var y :| y in rest && Pick(y, idx) == Pick(x, idx);
        PickInjective(x, y, idx);
      }
    }
  }

  // The consecutive coordinates lo, lo + 1, ..., hi - 1.
  function Range(lo: nat, hi: nat): (r: seq<nat>)
    requires lo <= hi
    ensures |r| == hi - lo && forall t :: 0 <= t < |r| ==> r[t] == lo + t
  {
    seq(hi - lo, t => lo + t)
  }

  // Permuting coordinates keeps the rank.
  lemma RankOfPick(rows: Matrix, w: nat, idx: seq<nat>, r: nat)
    requires Wide(rows, w) && Onto(idx, w)
    ensures IsRank(PickAll(rows, w, idx), |idx|, r) <==> IsRank(rows, w, r)
  {
    hide Span;
    SpanOfPick(rows, w, idx);
    PickSetSize(Span(rows, w), w, idx);
  }

  // ----- Parity, dot product, symplectic product -----

  function Parity(s: Vec): bool {
    if s == [] then false else Parity(s[..|s| - 1]) != s[|s| - 1]
  }

  function And(u: Vec, v: Vec): (r: Vec)
    requires |u| == |v|
    ensures |r| == |u| && forall i :: 0 <= i < |u| ==> r[i] == (u[i] && v[i])
  {
    seq(|u|, i requires 0 <= i < |u| => u[i] && v[i])
  }

  function Dot(u: Vec, v: Vec): bool
    requires |u| == |v|
  {
    Parity(And(u, v))
  }

  // True when the Pauli strings of the two rows anticommute.
  function Symplectic(u: Vec, v: Vec, n: nat): bool
    requires |u| == |v| == 2 * n
  {
    Dot(u[..n], v[n..]) != Dot(u[n..], v[..n])
  }

  lemma {:induction false} ParityAdd(s: Vec, t: Vec)
    requires |s| == |t|
    ensures Parity(Add(s, t)) == (Parity(s) != Parity(t))
  {
    if s != [] {
      ParityAdd(s[..|s| - 1], t[..|t| - 1]);
      assert Add(s, t)[..|s| - 1] == Add(s[..|s| - 1], t[..|t| - 1]);
    }
  }

  lemma {:induction false} ParityConcat(s: Vec, t: Vec)
    ensures Parity(s + t) == (Parity(s) != Parity(t))
  {
    if t == [] {
      assert s + t == s;
    } else {
      ParityConcat(s, t[..|t| - 1]);
      assert (s + t)[..|s + t| - 1] == s + t[..|t| - 1];
    }
  }

  lemma {:induction false} ParityZero(s: Vec)
    requires forall i :: 0 <= i < |s| ==> !s[i]
    ensures !Parity(s)
  {
    if s != [] {
      ParityZero(s[..|s| - 1]);
    }
  }

  lemma {:induction false} ParityUpdate(s: Vec, i: nat, b: bool)
    requires i < |s|
    ensures Parity(s[i := b]) == (Parity(s) != (s[i] != b))
  {
    var rest := s[..|s| - 1];
    if i == |s| - 1 {
      assert s[i := b][..|s| - 1] == rest;
    } else {
      ParityUpdate(rest, i, b);
      assert s[i := b][..|s| - 1] == rest[i := b];
    }
  }

  lemma DotAdd(u: Vec, v: Vec, x: Vec)
    requires |u| == |v| == |x|
    ensures Dot(Add(u, v), x) == (Dot(u, x) != Dot(v, x))
  {
    ParityAdd(And(u, x), And(v, x));
    assert And(Add(u, v), x) == Add(And(u, x), And(v, x));
  }

  lemma DotSymmetric(u: Vec, v: Vec)
    requires |u| == |v|
    ensures Dot(u, v) == Dot(v, u)
  {
    assert And(u, v) == And(v, u);
  }

  lemma DotConcat(u: Vec, u': Vec, v: Vec, v': Vec)
    requires |u| == |v| && |u'| == |v'|
    ensures Dot(u + u', v + v') == (Dot(u, v) != Dot(u', v'))
  {
    ParityConcat(And(u, v), And(u', v'));
    assert And(u + u', v + v') == And(u, v) + And(u', v');
  }

  lemma DotZero(u: Vec, v: Vec)
    requires |u| == |v| && forall i :: 0 <= i < |u| ==> !u[i] || !v[i]
    ensures !Dot(u, v)
  {
    ParityZero(And(u, v));
  }

  // A product with a single overlapping coordinate reads that coordinate.
  lemma DotSingle(u: Vec, v: Vec, i: nat)
    requires |u| == |v| && i < |u| && forall j :: 0 <= j < |u| && j != i ==> !u[j] || !v[j]
    ensures Dot(u, v) == (u[i] && v[i])
  {
    var s := And(u, v);
    ParityUpdate(s, i, false);
    ParityZero(s[i := false]);
  }

  lemma SymplecticAdd(u: Vec, v: Vec, x: Vec, n: nat)
    requires |u| == |v| == |x| == 2 * n
    ensures Symplectic(Add(u, v), x, n) == (Symplectic(u, x, n) != Symplectic(v, x, n))
    ensures Symplectic(x, Add(u, v), n) == (Symplectic(x, u, n) != Symplectic(x, v, n))
  {
    DotAdd(u[..n], v[..n], x[n..]);
    DotAdd(u[n..], v[n..], x[..n]);
    assert Add(u, v)[..n] == Add(u[..n], v[..n]);
    assert Add(u, v)[n..] == Add(u[n..], v[n..]);
    SymplecticSymmetric(u, x, n);
    SymplecticSymmetric(v, x, n);
    SymplecticSymmetric(Add(u, v), x, n);
  }

  lemma SymplecticSymmetric(u: Vec, v: Vec, n: nat)
    requires |u| == |v| == 2 * n
    ensures Symplectic(u, v, n) == Symplectic(v, u, n)
  {
    DotSymmetric(u[..n], v[n..]);
    DotSymmetric(u[n..], v[..n]);
  }

  lemma SymplecticSelf(u: Vec, n: nat)
    requires |u| == 2 * n
    ensures !Symplectic(u, u, n)
  {
    DotSymmetric(u[..n], u[n..]);
  }

  // Exchanges two entries.
  function Swap<T>(s: seq<T>, p: nat, q: nat): (r: seq<T>)
    requires p < |s| && q < |s|
    ensures |r| == |s|
  {
    s[p := s[q]][q := s[p]]
  }

  lemma DotSwap(u: Vec, v: Vec, p: nat, q: nat)
    requires |u| == |v| && p < |u| && q < |u|
    ensures Dot(Swap(u, p, q), Swap(v, p, q)) == Dot(u, v)
  {
    var s := And(u, v);
    ParityUpdate(s, p, s[q]);
    ParityUpdate(s[p := s[q]], q, s[p]);
    assert And(Swap(u, p, q), Swap(v, p, q)) == Swap(s, p, q);
  }

  // Exchanging two qubits, in both halves, keeps the symplectic product.
  function SwapQubits<T>(v: seq<T>, p: nat, q: nat, n: nat): (r: seq<T>)
    requires |v| == 2 * n && p < n && q < n
    ensures |r| == |v|
  {
    Swap(Swap(v, p, q), p + n, q + n)
  }

  lemma SymplecticSwap(u: Vec, v: Vec, p: nat, q: nat, n: nat)
    requires |u| == |v| == 2 * n && p < n && q < n
    ensures Symplectic(SwapQubits(u, p, q, n), SwapQubits(v, p, q, n), n) == Symplectic(u, v, n)
  {
    assert SwapQubits(u, p, q, n) == Swap(u[..n], p, q) + Swap(u[n..], p, q);
    assert SwapQubits(v, p, q, n) == Swap(v[..n], p, q) + Swap(v[n..], p, q);
    DotSwap(u[..n], v[n..], p, q);
    DotSwap(u[n..], v[..n], p, q);
  }
}
