// The hidden shift circuit, exactly: amplitudes are integers because the Hadamard gates are
// taken without their factor 1/sqrt(2).
module HiddenShift {
  import opened Prelude

  type Bits = seq<bool>

  datatype Gate = H(q: nat) | X(q: nat) | CZ(q1: nat, q2: nat)

  function Sign(b: bool): int {
    if b then -1 else 1
  }

  // The amplitude of basis state y after the gates, started from the amplitudes phi.
  function Evolved(gates: seq<Gate>, phi: Bits -> int, y: Bits): int
    decreases |gates|, 0
  {
    if gates == [] then phi(y) else Evolve(gates[|gates| - 1], gates[..|gates| - 1], phi, y)
  }

  function Evolve(g: Gate, before: seq<Gate>, phi: Bits -> int, y: Bits): int
    decreases |before|, 1
  {
    match g
    case H(q) =>
      if q < |y| then Evolved(before, phi, y[q := false]) + Sign(y[q]) * Evolved(before, phi, y[q := true])
      else Evolved(before, phi, y)
    case X(q) => if q < |y| then Evolved(before, phi, y[q := !y[q]]) else Evolved(before, phi, y)
    case CZ(q1, q2) =>
      if q1 < |y| && q2 < |y| && y[q1] && y[q2] then -Evolved(before, phi, y) else Evolved(before, phi, y)
  }

  predicate ZeroFrom(y: Bits, t: nat) {
    forall i :: t <= i < |y| ==> !y[i]
  }

  function AllZeros(y: Bits): int {
    if ZeroFrom(y, 0) then 1 else 0
  }

  // Started from all zeros.
  function Amplitude(gates: seq<Gate>, y: Bits): int {
    Evolved(gates, AllZeros, y)
  }

  lemma EvolvedAppend(before: seq<Gate>, g: Gate, phi: Bits -> int, y: Bits)
    ensures Evolved(before + [g], phi, y) == Evolve(g, before, phi, y)
  {
    assert (before + [g])[..|before|] == before;
  }

  // ----- The circuit -----

  function OnEachH(t: nat): seq<Gate> {
    if t == 0 then [] else OnEachH(t - 1) + [H(t - 1)]
  }

  // X on the first t qubits k with shift[k].
  function OnEachX(shift: Bits, t: nat): seq<Gate>
    requires t <= |shift|
  {
    if t == 0 then [] else OnEachX(shift, t - 1) + (if shift[t - 1] then [X(t - 1)] else [])
  }

  function OracleF(pairs: nat): seq<Gate> {
    if pairs == 0 then [] else OracleF(pairs - 1) + [CZ(2 * (pairs - 1), 2 * (pairs - 1) + 1)]
  }

  // A gate on different qubits of an n-qubit register.
  predicate GateFits(g: Gate, n: nat) {
    match g
    case H(q) => q < n
    case X(q) => q < n
    case CZ(q1, q2) => q1 < n && q2 < n && q1 != q2
  }

  predicate Fits(gates: seq<Gate>, n: nat) {
    forall i :: 0 <= i < |gates| ==> GateFits(gates[i], n)
  }

  method MakeOracleF(n: nat) returns (gates: seq<Gate>)
    ensures gates == OracleF(n / 2)
    ensures |gates| == n / 2 && forall i :: 0 <= i < n / 2 ==> gates[i] == CZ(2 * i, 2 * i + 1)
    ensures Fits(gates, n)
  {
    gates := [];
    for i := 0 to n / 2
      invariant gates == OracleF(i)
      invariant |gates| == i && forall j :: 0 <= j < i ==> gates[j] == CZ(2 * j, 2 * j + 1)
    {
      gates := gates + [CZ(2 * i, 2 * i + 1)];
    }
  }

  function HsCircuit(n: nat, oracle: seq<Gate>, shift: Bits): seq<Gate> {
    OnEachH(n) + OnEachX(shift, |shift|) + oracle + OnEachX(shift, |shift|) + OnEachH(n) + oracle + OnEachH(n)
  }

  method HadamardLayer(n: nat) returns (gates: seq<Gate>)
    ensures gates == OnEachH(n)
    ensures |gates| == n && forall q :: 0 <= q < n ==> gates[q] == H(q)
  {
    gates := [];
    for q := 0 to n
      invariant gates == OnEachH(q)
      invariant |gates| == q && forall i :: 0 <= i < q ==> gates[i] == H(i)
    {
      gates := gates + [H(q)];
    }
  }

  // The qubits are looked up in order: the first set bit without a qubit raises.
  method ShiftLayer(n: nat, shift: Bits) returns (r: Result<seq<Gate>>)
    ensures r.Err? <==> exists k :: n <= k < |shift| && shift[k]
    ensures r.Err? ==> r.error == IndexError
    ensures r.Ok? ==> r.value == OnEachX(shift, |shift|)
    ensures r.Ok? ==> Fits(r.value, n) && forall g :: g in r.value ==> g.X?
    ensures r.Ok? ==> forall k: nat :: X(k) in r.value <==> k < |shift| && shift[k]
  {
    var gates := [];
    for k := 0 to |shift|
      invariant gates == OnEachX(shift, k)
      invariant Fits(gates, n) && forall g :: g in gates ==> g.X?
      invariant forall l: nat :: X(l) in gates <==> l < k && shift[l]
      invariant forall l :: n <= l < k ==> !shift[l]
    {
      if shift[k] {
        if k >= n {
          return Err(IndexError);
        }
        gates := gates + [X(k)];
      }
    }
    return Ok(gates);
  }

  lemma InnerFits(before: seq<Gate>, inner: seq<Gate>, gates: seq<Gate>, n: nat)
    requires before + inner <= gates
    ensures Fits(gates, n) ==> Fits(inner, n)
  {
    if Fits(gates, n) {
      forall i | 0 <= i < |inner| ensures GateFits(inner[i], n) {
        assert gates[|before| + i] == (before + inner)[|before| + i];
      }
    }
  }

  // ----- What one layer does -----

  // y with the first t shift bits added.
  function Shifted(y: Bits, shift: Bits, t: nat): (r: Bits)
    ensures |r| == |y|
  {
    seq(|y|, k requires 0 <= k < |y| => if k < t && k < |shift| then y[k] != shift[k] else y[k])
  }

  lemma AfterOneX(p: seq<Gate>, k: nat, y: Bits)
    ensures Amplitude(p + [X(k)], y) == Amplitude(p, if k < |y| then y[k := !y[k]] else y)
  {
    EvolvedAppend(p, X(k), AllZeros, y);
  }

  lemma {:induction false} AfterX(p: seq<Gate>, shift: Bits, t: nat, y: Bits)
    requires t <= |shift|
    ensures Amplitude(p + OnEachX(shift, t), y) == Amplitude(p, Shifted(y, shift, t))
  {
    hide Amplitude;
    if t == 0 {
      assert p + [] == p;
      assert Shifted(y, shift, 0) == y;
    } else {
      var rest := p + OnEachX(shift, t - 1);
      var y' := if shift[t - 1] && t - 1 < |y| then y[t - 1 := !y[t - 1]] else y;
      if shift[t - 1] {
        AfterOneX(rest, t - 1, y);
        assert p + OnEachX(shift, t) == rest + [X(t - 1)];
      } else {
        assert OnEachX(shift, t) == OnEachX(shift, t - 1);
      }
      AfterX(p, shift, t - 1, y');
      assert Shifted(y', shift, t - 1) == Shifted(y, shift, t);
    }
  }

  // f restricted to the first pairs: the parity of y_0 y_1 + y_2 y_3 + ...
  predicate F(y: Bits, pairs: nat)
    requires 2 * pairs <= |y|
  {
    if pairs == 0 then false
    else F(y, pairs - 1) != (y[2 * pairs - 2] && y[2 * pairs - 1])
  }

  lemma AfterOneCZ(p: seq<Gate>, q1: nat, q2: nat, y: Bits)
    requires q1 < |y| && q2 < |y|
    ensures Amplitude(p + [CZ(q1, q2)], y) == Sign(y[q1] && y[q2]) * Amplitude(p, y)
  {
    EvolvedAppend(p, CZ(q1, q2), AllZeros, y);
  }

  lemma {:induction false} AfterOracle(p: seq<Gate>, pairs: nat, y: Bits)
    requires 2 * pairs <= |y|
    ensures Amplitude(p + OracleF(pairs), y) == Sign(F(y, pairs)) * Amplitude(p, y)
  {
    hide Amplitude;
    if pairs == 0 {
      assert p + [] == p;
    } else {
      var rest := p + OracleF(pairs - 1);
      AfterOneCZ(rest, 2 * (pairs - 1), 2 * (pairs - 1) + 1, y);
      assert p + OracleF(pairs) == rest + [CZ(2 * (pairs - 1), 2 * (pairs - 1) + 1)];
      AfterOracle(p, pairs - 1, y);
    }
  }

  // One Hadamard more.
  lemma EvolvedH(t: nat, phi: Bits -> int, y: Bits)
    requires t < |y|
    ensures Evolved(OnEachH(t + 1), phi, y)
         == Evolved(OnEachH(t), phi, y[t := false]) + Sign(y[t]) * Evolved(OnEachH(t), phi, y[t := true])
  {
    EvolvedAppend(OnEachH(t), H(t), phi, y);
  }

  lemma AfterH(p: seq<Gate>, t: nat, y: Bits)
    requires t < |y|
    ensures Amplitude(p + OnEachH(t + 1), y)
         == Amplitude(p + OnEachH(t), y[t := false]) + Sign(y[t]) * Amplitude(p + OnEachH(t), y[t := true])
  {
    EvolvedAppend(p + OnEachH(t), H(t), AllZeros, y);
    assert p + OnEachH(t + 1) == p + OnEachH(t) + [H(t)];
  }

  // ----- First layer: the uniform superposition -----

  lemma ZeroFromUpdate(y: Bits, t: nat)
    requires t < |y|
    ensures ZeroFrom(y[t := false], t) == ZeroFrom(y, t + 1) && !ZeroFrom(y[t := true], t)
  {
    assert y[t := true][t];
    if ZeroFrom(y[t := false], t) {
      forall i | t + 1 <= i < |y| ensures !y[i] { assert y[t := false][i] == y[i]; }
    }
  }

  lemma NoGates(y: Bits)
    ensures Amplitude(OnEachH(0), y) == if ZeroFrom(y, 0) then 1 else 0
  {
  }

  lemma {:induction false} Uniform(t: nat, y: Bits)
    requires t <= |y|
    ensures Amplitude(OnEachH(t), y) == if ZeroFrom(y, t) then 1 else 0
  {
    hide Evolved, ZeroFrom, OnEachH;
    if t == 0 {
      NoGates(y);
    } else {
      EvolvedH(t - 1, AllZeros, y);
      Uniform(t - 1, y[t - 1 := false]);
      Uniform(t - 1, y[t - 1 := true]);
      ZeroFromUpdate(y, t - 1);
    }
  }

  // ----- The shifted oracle -----

  lemma ShiftedTwice(y: Bits, shift: Bits)
    ensures Shifted(Shifted(y, shift, |shift|), shift, |shift|) == y
  {
  }

  function ShiftedOracle(n: nat, shift: Bits): seq<Gate> {
    OnEachH(n) + OnEachX(shift, |shift|) + OracleF(n / 2) + OnEachX(shift, |shift|)
  }

  lemma AfterShiftedOracle(n: nat, shift: Bits, y: Bits)
    requires |y| == n
    ensures Amplitude(ShiftedOracle(n, shift), y) == Sign(F(Shifted(y, shift, |shift|), n / 2))
  {
    hide Amplitude, OnEachX, OnEachH, OracleF, F, Shifted;
    var x := OnEachX(shift, |shift|);
    var y' := Shifted(y, shift, |shift|);
    AfterX(OnEachH(n) + x + OracleF(n / 2), shift, |shift|, y);
    AfterOracle(OnEachH(n) + x, n / 2, y');
    AfterX(OnEachH(n), shift, |shift|, y');
    ShiftedTwice(y, shift);
    Uniform(n, y);
  }

  // ----- Second layer: f is its own Walsh-Hadamard transform -----

  function S(shift: Bits, k: nat): bool {
    k < |shift| && shift[k]
  }

  // The parity of s . y over the first t qubits.
  predicate D(shift: Bits, y: Bits, t: nat)
    requires t <= |y|
  {
    if t == 0 then false else D(shift, y, t - 1) != (S(shift, t - 1) && y[t - 1])
  }

  // The part of f, or of s . y, between two positions reads only the bits between them.
  lemma {:induction false} FBetween(y: Bits, z: Bits, lo: nat, hi: nat)
    requires lo <= hi && 2 * hi <= |y| == |z|
    requires forall i :: 2 * lo <= i < 2 * hi ==> y[i] == z[i]
    ensures (F(y, hi) != F(y, lo)) == (F(z, hi) != F(z, lo))
  {
    if lo < hi { FBetween(y, z, lo, hi - 1); }
  }

  lemma {:induction false} DBetween(shift: Bits, y: Bits, z: Bits, lo: nat, hi: nat)
    requires lo <= hi <= |y| == |z|
    requires forall i :: lo <= i < hi ==> y[i] == z[i]
    ensures (D(shift, y, hi) != D(shift, y, lo)) == (D(shift, z, hi) != D(shift, z, lo))
  {
    if lo < hi { DBetween(shift, y, z, lo, hi - 1); }
  }

  // The phase of y once the Hadamards have reached pair p of m.
  predicate Phase(shift: Bits, y: Bits, p: nat, m: nat)
    requires p <= m && 2 * m <= |y|
  {
    var z := Shifted(y, shift, |shift|);
    (D(shift, y, 2 * p) != F(y, p)) != (F(z, m) != F(z, p))
  }

  lemma ShiftedPair(shift: Bits, y: Bits, p: nat, u: bool, v: bool)
    requires 2 * p + 1 < |y|
    ensures var z, z' := Shifted(y, shift, |shift|), Shifted(y[2 * p := u][2 * p + 1 := v], shift, |shift|);
            z'[2 * p] == (u != S(shift, 2 * p)) && z'[2 * p + 1] == (v != S(shift, 2 * p + 1))
            && forall i :: 0 <= i < |y| && i != 2 * p && i != 2 * p + 1 ==> z'[i] == z[i]
  {
  }

  lemma OnePair(shift: Bits, y: Bits, p: nat)
    requires 2 * p + 1 < |y|
    ensures F(y, p + 1) == (F(y, p) != (y[2 * p] && y[2 * p + 1]))
    ensures D(shift, y, 2 * p + 2)
         == ((D(shift, y, 2 * p) != (S(shift, 2 * p) && y[2 * p])) != (S(shift, 2 * p + 1) && y[2 * p + 1]))
  {
    assert D(shift, y, 2 * p + 1) == (D(shift, y, 2 * p) != (S(shift, 2 * p) && y[2 * p]));
  }

  // How the phase of the pair p depends on its two bits.
  lemma PhaseOfPair(shift: Bits, y: Bits, p: nat, m: nat, u: bool, v: bool)
    requires p < m && 2 * m <= |y|
    ensures var s1, s2, a, b := S(shift, 2 * p), S(shift, 2 * p + 1), y[2 * p], y[2 * p + 1];
      Phase(shift, y[2 * p := u][2 * p + 1 := v], p, m)
        == (Phase(shift, y, p + 1, m) != ((((s1 && a) != (s2 && b)) != (a && b)) != ((u != s1) && (v != s2))))
  {
    hide F, D, S, Shifted;
    var y' := y[2 * p := u][2 * p + 1 := v];
    var z, z' := Shifted(y, shift, |shift|), Shifted(y', shift, |shift|);
    ShiftedPair(shift, y, p, u, v);
    FBetween(y, y', 0, p);
    DBetween(shift, y, y', 0, 2 * p);
    FBetween(z, z', p + 1, m);
    NoPairs(shift, y, y');
    OnePair(shift, y, p);
    OnePair(shift, z', p);
  }

  lemma NoPairs(shift: Bits, y: Bits, z: Bits)
    ensures F(y, 0) == F(z, 0) && D(shift, y, 0) == D(shift, z, 0)
  {
  }

  // The sign of one pair, relative to the sign c it leads to.
  function PairSign(c: bool, a: bool, b: bool, s1: bool, s2: bool, u: bool, v: bool): int {
    Sign(c != ((((s1 && a) != (s2 && b)) != (a && b)) != ((u != s1) && (v != s2))))
  }

  // Two Hadamards on the pair: this is what makes f self-dual.
  lemma PairTransform(w: int, c: bool, a: bool, b: bool, s1: bool, s2: bool, ff: int, tf: int, ft: int, tt: int)
    requires ff == w * PairSign(c, a, b, s1, s2, false, false) && tf == w * PairSign(c, a, b, s1, s2, true, false)
    requires ft == w * PairSign(c, a, b, s1, s2, false, true) && tt == w * PairSign(c, a, b, s1, s2, true, true)
    ensures (ff + Sign(a) * tf) + Sign(b) * (ft + Sign(a) * tt) == (2 * w) * Sign(c)
  {
  }

  // The two Hadamards of pair p, spelled out.
  lemma TwoHadamards(prefix: seq<Gate>, y: Bits, i: nat)
    requires i + 1 < |y|
    ensures var before := prefix + OnEachH(i); var a, b := y[i], y[i + 1];
      Amplitude(prefix + OnEachH(i + 2), y)
        == (Amplitude(before, y[i := false][i + 1 := false])
            + Sign(a) * Amplitude(before, y[i := true][i + 1 := false]))
         + Sign(b) * (Amplitude(before, y[i := false][i + 1 := true])
                      + Sign(a) * Amplitude(before, y[i := true][i + 1 := true]))
  {
    hide Amplitude, OnEachH;
    AfterH(prefix, i + 1, y);
    AfterH(prefix, i, y[i + 1 := false]);
    AfterH(prefix, i, y[i + 1 := true]);
    assert y[i := false][i + 1 := false] == y[i + 1 := false][i := false];
    assert y[i := true][i + 1 := false] == y[i + 1 := false][i := true];
    assert y[i := false][i + 1 := true] == y[i + 1 := true][i := false];
    assert y[i := true][i + 1 := true] == y[i + 1 := true][i := true];
  }

  lemma {:induction false} SecondLayer(shift: Bits, y: Bits, p: nat)
    requires 2 * p <= |y|
    ensures Amplitude(ShiftedOracle(|y|, shift) + OnEachH(2 * p), y) == Pow2(p) * Sign(Phase(shift, y, p, |y| / 2))
    decreases p, 1
  {
    hide Amplitude, ShiftedOracle, PairSign;
    var prefix := ShiftedOracle(|y|, shift);
    if p == 0 {
      assert prefix + [] == prefix;
      AfterShiftedOracle(|y|, shift, y);
    } else {
      hide Phase, Sign;
      var i, before := 2 * (p - 1), prefix + OnEachH(2 * (p - 1));
      TwoHadamards(prefix, y, i);
      PairAmplitude(shift, y, p, false, false);
      PairAmplitude(shift, y, p, true, false);
      PairAmplitude(shift, y, p, false, true);
      PairAmplitude(shift, y, p, true, true);
      PairTransform(Pow2(p - 1), Phase(shift, y, p, |y| / 2), y[i], y[i + 1], S(shift, i), S(shift, i + 1),
        Amplitude(before, y[i := false][i + 1 := false]), Amplitude(before, y[i := true][i + 1 := false]),
        Amplitude(before, y[i := false][i + 1 := true]), Amplitude(before, y[i := true][i + 1 := true]));
    }
  }

  lemma {:induction false} PairAmplitude(shift: Bits, y: Bits, p: nat, u: bool, v: bool)
    requires 1 <= p && 2 * p <= |y|
    ensures var i := 2 * (p - 1);
      Amplitude(ShiftedOracle(|y|, shift) + OnEachH(i), y[i := u][i + 1 := v])
        == Pow2(p - 1)
           * PairSign(Phase(shift, y, p, |y| / 2), y[i], y[i + 1], S(shift, i), S(shift, i + 1), u, v)
    decreases p, 0
  {
    hide Amplitude, Phase, Pow2;
    var i := 2 * (p - 1);
    SecondLayer(shift, y[i := u][i + 1 := v], p - 1);
    PhaseOfPair(shift, y, p - 1, |y| / 2, u, v);
  }

  // ----- Third layer: only the shift survives -----

  // The second layer over all pairs, then the oracle: the pairs carry the phase of s . y, and a
  // qubit without a partner carries 2 or 0.
  function Unpaired(y: Bits): int {
    if |y| % 2 == 0 then 1 else if y[|y| - 1] then 0 else 2
  }

  function Simplified(n: nat, shift: Bits): seq<Gate> {
    ShiftedOracle(n, shift) + OnEachH(n) + OracleF(n / 2)
  }

  lemma PairedPart(shift: Bits, y: Bits)
    ensures var m := |y| / 2;
      Amplitude(ShiftedOracle(|y|, shift) + OnEachH(2 * m), y) == Pow2(m) * Sign(D(shift, y, 2 * m) != F(y, m))
  {
    hide Amplitude, ShiftedOracle, Pow2, D, F;
    SecondLayer(shift, y, |y| / 2);
  }

  // Changing a bit at or after position t changes neither part before t.
  lemma PairedPartIgnores(shift: Bits, y: Bits, q: nat, b: bool, m: nat)
    requires 2 * m <= q < |y|
    ensures D(shift, y[q := b], 2 * m) == D(shift, y, 2 * m) && F(y[q := b], m) == F(y, m)
  {
    DBetween(shift, y, y[q := b], 0, 2 * m);
    FBetween(y, y[q := b], 0, m);
  }

  lemma FullSecondLayer(shift: Bits, y: Bits)
    ensures var m := |y| / 2;
      Amplitude(ShiftedOracle(|y|, shift) + OnEachH(|y|), y)
        == Pow2(m) * Sign(D(shift, y, 2 * m) != F(y, m)) * Unpaired(y)
  {
    hide Amplitude, ShiftedOracle, D, F, Pow2;
    var n, m := |y|, |y| / 2;
    PairedPart(shift, y);
    if n % 2 == 1 {
      AfterH(ShiftedOracle(n, shift), n - 1, y);
      PairedPart(shift, y[n - 1 := false]);
      PairedPart(shift, y[n - 1 := true]);
      PairedPartIgnores(shift, y, n - 1, false, m);
      PairedPartIgnores(shift, y, n - 1, true, m);
    }
  }

  // The oracle once more removes f and leaves the phase of s . y.
  lemma AfterSimplified(shift: Bits, y: Bits)
    ensures var m := |y| / 2;
      Amplitude(Simplified(|y|, shift), y) == Pow2(m) * Sign(D(shift, y, 2 * m)) * Unpaired(y)
  {
    hide Amplitude, ShiftedOracle, D, F, Pow2;
    var n, m := |y|, |y| / 2;
    AfterOracle(ShiftedOracle(n, shift) + OnEachH(n), m, y);
    FullSecondLayer(shift, y);
    CancelSign(Pow2(m), D(shift, y, 2 * m), F(y, m), Unpaired(y));
  }

  lemma CancelSign(w: int, d: bool, f: bool, u: int)
    ensures Sign(f) * (w * Sign(d != f) * u) == w * Sign(d) * u
  {
  }

  predicate Agree(y: Bits, shift: Bits, t: nat)
    requires t <= |y|
  {
    forall i :: 0 <= i < t ==> y[i] == S(shift, i)
  }

  // Amplitude weight once the third layer has reached qubit t.
  function Gathered(y: Bits, shift: Bits, t: nat): int
    requires t <= |y|
  {
    if Agree(y, shift, t) then Pow2(t) else 0
  }

  lemma OneInterference(g: int, d: bool, s: bool, b: bool)
    ensures g * Sign(d) + Sign(b) * (g * Sign(d != s)) == if b == s then (2 * g) * Sign(d) else 0
  {
  }

  // One Hadamard of the third layer on qubit t.
  lemma GatherStep(shift: Bits, y: Bits, t: nat, h: nat)
    requires t < h <= |y|
    ensures var (y0, y1) := (y[t := false], y[t := true]);
      Gathered(y0, shift, t) * Sign(D(shift, y0, h) != D(shift, y0, t))
        + Sign(y[t]) * (Gathered(y1, shift, t) * Sign(D(shift, y1, h) != D(shift, y1, t)))
        == Gathered(y, shift, t + 1) * Sign(D(shift, y, h) != D(shift, y, t + 1))
  {
    hide Pow2;
    var (y0, y1) := (y[t := false], y[t := true]);
    var d := D(shift, y, h) != D(shift, y, t + 1);
    DBetween(shift, y, y0, t + 1, h);
    DBetween(shift, y, y1, t + 1, h);
    assert D(shift, y0, t + 1) == D(shift, y0, t);
    assert D(shift, y1, t + 1) == (D(shift, y1, t) != S(shift, t));
    AgreeStep(shift, y, t, false);
    AgreeStep(shift, y, t, true);
    OneInterference(Gathered(y, shift, t), d, S(shift, t), y[t]);
    assert Pow2(t + 1) == 2 * Pow2(t) by { DoublePow(t); }
  }

  lemma DoublePow(t: nat)
    ensures Pow2(t + 1) == 2 * Pow2(t)
  {
  }

  lemma AgreeStep(shift: Bits, y: Bits, t: nat, b: bool)
    requires t < |y|
    ensures Agree(y[t := b], shift, t) == Agree(y, shift, t)
    ensures Agree(y, shift, t + 1) == (Agree(y, shift, t) && y[t] == S(shift, t))
  {
    if Agree(y[t := b], shift, t) {
      forall i | 0 <= i < t ensures y[i] == S(shift, i) { assert y[t := b][i] == y[i]; }
    }
  }

  function Triple(w: int, a: int, u: int): int {
    w * a * u
  }

  lemma TripleSum(w: int, a: int, s: int, b: int, u: int)
    ensures Triple(w, a, u) + s * Triple(w, b, u) == Triple(w, a + s * b, u)
  {
    assert s * (w * b * u) == w * (s * b) * u;
  }

  // The signed weight of y at qubit t of the third layer.
  function Weighted(shift: Bits, y: Bits, t: nat): int
    requires t <= 2 * (|y| / 2)
  {
    Gathered(y, shift, t) * Sign(D(shift, y, 2 * (|y| / 2)) != D(shift, y, t))
  }

  lemma {:induction false} ThirdLayer(shift: Bits, y: Bits, t: nat)
    requires t <= 2 * (|y| / 2)
    ensures Amplitude(Simplified(|y|, shift) + OnEachH(t), y)
         == Triple(Pow2(|y| / 2), Weighted(shift, y, t), Unpaired(y))
    decreases t
  {
    hide Amplitude, Simplified, D, Pow2, Triple;
    var w := Pow2(|y| / 2);
    if t == 0 {
      assert Simplified(|y|, shift) + [] == Simplified(|y|, shift);
      AfterSimplified(shift, y);
      ThirdLayerStart(shift, y);
    } else {
      hide Gathered, Sign, Weighted;
      var (y0, y1) := (y[t - 1 := false], y[t - 1 := true]);
      AfterH(Simplified(|y|, shift), t - 1, y);
      ThirdLayer(shift, y0, t - 1);
      ThirdLayer(shift, y1, t - 1);
      WeightedStep(shift, y, t - 1);
      TripleSum(w, Weighted(shift, y0, t - 1), Sign(y[t - 1]), Weighted(shift, y1, t - 1), Unpaired(y));
    }
  }

  lemma ThirdLayerStart(shift: Bits, y: Bits)
    ensures Pow2(|y| / 2) * Sign(D(shift, y, 2 * (|y| / 2))) * Unpaired(y)
         == Triple(Pow2(|y| / 2), Weighted(shift, y, 0), Unpaired(y))
  {
    var d := D(shift, y, 2 * (|y| / 2));
    assert Weighted(shift, y, 0) == Sign(d) by {
      assert !D(shift, y, 0) && Gathered(y, shift, 0) == 1;
    }
  }

  lemma WeightedStep(shift: Bits, y: Bits, t: nat)
    requires t < 2 * (|y| / 2)
    ensures Weighted(shift, y[t := false], t) + Sign(y[t]) * Weighted(shift, y[t := true], t)
         == Weighted(shift, y, t + 1)
  {
    hide D, Gathered, Sign;
    GatherStep(shift, y, t, 2 * (|y| / 2));
  }

  lemma {:induction false} PairedFinal(shift: Bits, y: Bits)
    ensures var m := |y| / 2;
      Amplitude(Simplified(|y|, shift) + OnEachH(2 * m), y)
        == (if Agree(y, shift, 2 * m) then Pow2(m + 2 * m) else 0) * Unpaired(y)
  {
    hide Amplitude, Simplified, D, Agree, Pow2;
    var m := |y| / 2;
    ThirdLayer(shift, y, 2 * m);
    Pow2Add(m, 2 * m);
  }

  // The final amplitudes, for every number of qubits: only the states that agree with the shift
  // on all paired qubits survive.
  lemma {:induction false} FinalAmplitude(shift: Bits, y: Bits)
    ensures var n := |y|;
      Amplitude(HsCircuit(n, OracleF(n / 2), shift), y)
        == if Agree(y, shift, 2 * (n / 2)) then Pow2(n / 2 + n) else 0
  {
    hide Amplitude, OnEachH, OnEachX, OracleF, Agree, Pow2;
    var n, m := |y|, |y| / 2;
    assert HsCircuit(n, OracleF(m), shift) == Simplified(n, shift) + OnEachH(n);
    hide Simplified;
    PairedFinal(shift, y);
    if n % 2 == 1 {
      AfterH(Simplified(n, shift), n - 1, y);
      PairedFinal(shift, y[n - 1 := false]);
      PairedFinal(shift, y[n - 1 := true]);
      AgreeStep(shift, y, n - 1, false);
      AgreeStep(shift, y, n - 1, true);
      DoublePow(m + 2 * m);
    }
  }

  // The state that spells the shift, padded with zeros.
  function ShiftState(n: nat, shift: Bits): (r: Bits)
    ensures |r| == n
  {
    seq(n, k requires 0 <= k => S(shift, k))
  }

  // Measuring gives the shift with certainty exactly when the number of qubits is even.
  lemma FindsShiftIffEven(n: nat, shift: Bits)
    ensures Amplitude(HsCircuit(n, OracleF(n / 2), shift), ShiftState(n, shift)) != 0
    ensures (forall y: Bits :: |y| == n && y != ShiftState(n, shift)
               ==> Amplitude(HsCircuit(n, OracleF(n / 2), shift), y) == 0) <==> n % 2 == 0
  {
    hide Amplitude, HsCircuit;
    var s := ShiftState(n, shift);
    FinalAmplitude(shift, s);
    if n % 2 == 0 {
      forall y: Bits | |y| == n && y != s ensures Amplitude(HsCircuit(n, OracleF(n / 2), shift), y) == 0 {
        FinalAmplitude(shift, y);
      }
    } else {
      var y := s[n - 1 := !s[n - 1]];
      FinalAmplitude(shift, y);
      assert y[n - 1] != s[n - 1];
    }
  }

  // The whole circuit.  A shift bit beyond the last qubit raises; otherwise, for the oracle of f,
  // the final amplitudes are those of the states that agree with the shift on the paired qubits.
  method MakeHsCircuit(n: nat, oracle: seq<Gate>, shift: Bits) returns (c: Result<seq<Gate>>)
    ensures c.Err? <==> exists k :: n <= k < |shift| && shift[k]
    ensures c.Err? ==> c.error == IndexError
    ensures c.Ok? ==> c.value == HsCircuit(n, oracle, shift)
    ensures c.Ok? ==> (Fits(c.value, n) <==> Fits(oracle, n))
    ensures c.Ok? && oracle == OracleF(n / 2) ==>
      forall y: Bits :: |y| == n ==>
        Amplitude(c.value, y) == if Agree(y, shift, 2 * (n / 2)) then Pow2(n / 2 + n) else 0
  {
    hide Amplitude, OnEachX, OnEachH, OracleF, Agree;
    var first := HadamardLayer(n);
    var gates := first;
    var layer := ShiftLayer(n, shift);
    match layer
    case Err(e) => return Err(e);
    case Ok(shiftGates) =>
      gates := gates + shiftGates;
      gates := gates + oracle;
      gates := gates + shiftGates;
      var second := HadamardLayer(n);
      gates := gates + second;
      gates := gates + oracle;
      var third := HadamardLayer(n);
      gates := gates + third;
      assert Fits(gates, n) ==> Fits(oracle, n) by { InnerFits(first + shiftGates, oracle, gates, n); }
      forall y: Bits | |y| == n && oracle == OracleF(n / 2)
        ensures Amplitude(gates, y) == if Agree(y, shift, 2 * (n / 2)) then Pow2(n / 2 + n) else 0
      {
        FinalAmplitude(shift, y);
      }
      return Ok(gates);
  }

  // ----- Any oracle -----

  // The sum of h over all bit strings that agree with x from position t on.
  function SumBits(h: Bits -> int, x: Bits, t: nat): int
    requires t <= |x|
    decreases t
  {
    if t == 0 then h(x) else SumBits(h, x[t - 1 := false], t - 1) + SumBits(h, x[t - 1 := true], t - 1)
  }

  lemma SumStep(h: Bits -> int, x: Bits, t: nat)
    requires t < |x|
    ensures SumBits(h, x, t + 1) == SumBits(h, x[t := false], t) + SumBits(h, x[t := true], t)
  {
  }

  predicate SameFrom(z: Bits, x: Bits, t: nat) {
    |z| == |x| && forall i :: t <= i < |x| ==> z[i] == x[i]
  }

  lemma SameFromNext(z: Bits, x: Bits, t: nat, b: bool)
    requires t < |x| && SameFrom(z, x[t := b], t)
    ensures SameFrom(z, x, t + 1) && z[t] == b
  {
    assert z[t] == x[t := b][t];
    forall i | t + 1 <= i < |x| ensures z[i] == x[i] { assert z[i] == x[t := b][i]; }
  }

  lemma {:induction false} SumScaled(h: Bits -> int, h': Bits -> int, c: int, x: Bits, t: nat)
    requires t <= |x|
    requires forall z: Bits :: SameFrom(z, x, t) ==> h'(z) == c * h(z)
    ensures SumBits(h', x, t) == c * SumBits(h, x, t)
    decreases t, 0
  {
    if t == 0 {
      assert SameFrom(x, x, 0);
    } else {
      hide SumBits, SameFrom;
      SumStep(h, x, t - 1);
      SumStep(h', x, t - 1);
      HalfScaled(h, h', c, x, t - 1, false);
      HalfScaled(h, h', c, x, t - 1, true);
    }
  }

  lemma {:induction false} HalfScaled(h: Bits -> int, h': Bits -> int, c: int, x: Bits, t: nat, b: bool)
    requires t < |x|
    requires forall z: Bits :: SameFrom(z, x, t + 1) ==> h'(z) == c * h(z)
    ensures SumBits(h', x[t := b], t) == c * SumBits(h, x[t := b], t)
    decreases t, 1
  {
    hide SumBits, SameFrom;
    forall z: Bits | SameFrom(z, x[t := b], t) ensures h'(z) == c * h(z) { SameFromNext(z, x, t, b); }
    SumScaled(h, h', c, x[t := b], t);
  }

  // The sign of y . x over the first t qubits, times the amplitude of x.
  function Term(psi: Bits -> int, y: Bits, x: Bits, t: nat): int
    requires t <= |x|
  {
    Sign(D(y, x, t)) * psi(x)
  }

  function Terms(psi: Bits -> int, y: Bits, t: nat): Bits -> int {
    x => if t <= |x| then Term(psi, y, x, t) else 0
  }

  // The Walsh-Hadamard transform: the sum of (-1)^(y . x) psi(x) over all x.
  function Transform(psi: Bits -> int, y: Bits): int {
    SumBits(Terms(psi, y, |y|), y, |y|)
  }

  // Adding qubit t to the product multiplies the term by a sign that depends on the bit x[t] alone.
  lemma TermStep(psi: Bits -> int, y: Bits, z: Bits, x: Bits, t: nat)
    requires t < |x| && |y| == |z| == |x| && forall i :: 0 <= i < t ==> y[i] == z[i]
    ensures Term(psi, y, x, t + 1) == (if x[t] then Sign(y[t]) else 1) * Term(psi, z, x, t)
  {
    hide D;
    assert D(y, x, t + 1) == (D(z, x, t) != (y[t] && x[t])) by {
      SameProduct(y, z, x, t);
      LastFactor(y, x, t);
    }
  }

  lemma LastFactor(y: Bits, x: Bits, t: nat)
    requires t < |x| == |y|
    ensures D(y, x, t + 1) == (D(y, x, t) != (y[t] && x[t]))
  {
  }

  lemma {:induction false} SameProduct(y: Bits, z: Bits, x: Bits, t: nat)
    requires t <= |x| == |y| == |z| && forall i :: 0 <= i < t ==> y[i] == z[i]
    ensures D(y, x, t) == D(z, x, t)
  {
    if t > 0 { SameProduct(y, z, x, t - 1); }
  }

  // A layer of Hadamard gates is the transform.
  lemma {:induction false} LayerSums(psi: Bits -> int, y: Bits, t: nat)
    requires t <= |y|
    ensures Evolved(OnEachH(t), psi, y) == SumBits(Terms(psi, y, t), y, t)
    decreases t
  {
    hide Evolved, SumBits, OnEachH;
    if t == 0 {
      LayerStart(psi, y);
    } else {
      var i := t - 1;
      EvolvedH(i, psi, y);
      LayerSums(psi, y[i := false], i);
      LayerSums(psi, y[i := true], i);
      HalfSum(psi, y, i, false);
      HalfSum(psi, y, i, true);
      SumStep(Terms(psi, y, t), y, i);
    }
  }

  lemma LayerStart(psi: Bits -> int, y: Bits)
    ensures Evolved(OnEachH(0), psi, y) == SumBits(Terms(psi, y, 0), y, 0)
  {
  }

  lemma HalfSum(psi: Bits -> int, y: Bits, t: nat, b: bool)
    requires t < |y|
    ensures SumBits(Terms(psi, y, t + 1), y[t := b], t)
         == (if b then Sign(y[t]) else 1) * SumBits(Terms(psi, y[t := b], t), y[t := b], t)
  {
    hide SumBits, D, Term;
    var c, z := if b then Sign(y[t]) else 1, y[t := b];
    forall x: Bits | SameFrom(x, z, t) ensures Terms(psi, y, t + 1)(x) == c * Terms(psi, z, t)(x) {
      SameFromNext(x, y, t, b);
      TermStep(psi, y, z, x, t);
    }
    SumScaled(Terms(psi, z, t), Terms(psi, y, t + 1), c, z, t);
  }

  // The amplitudes after more gates depend on the amplitudes so far alone.
  lemma {:induction false} EvolvedConcat(p: seq<Gate>, q: seq<Gate>, phi: Bits -> int, psi: Bits -> int, y: Bits)
    requires forall x: Bits :: |x| == |y| ==> psi(x) == Evolved(p, phi, x)
    ensures Evolved(p + q, phi, y) == Evolved(q, psi, y)
    decreases |q|
  {
    if q == [] {
      assert p + [] == p;
    } else {
      var g, before := q[|q| - 1], q[..|q| - 1];
      assert p + q == (p + before) + [g] && q == before + [g];
      EvolvedAppend(p + before, g, phi, y);
      forall x: Bits | |x| == |y| ensures Evolved(p + before, phi, x) == Evolved(before, psi, x) {
        EvolvedConcat(p, before, phi, psi, x);
      }
      StepAlike(g, p + before, phi, before, psi, y);
      EvolvedAppend(before, g, psi, y);
    }
  }

  lemma StepAlike(g: Gate, p: seq<Gate>, phi: Bits -> int, q: seq<Gate>, psi: Bits -> int, y: Bits)
    requires forall x: Bits :: |x| == |y| ==> Evolved(p, phi, x) == Evolved(q, psi, x)
    ensures Evolve(g, p, phi, y) == Evolve(g, q, psi, y)
  {
    hide Evolved;
  }

  lemma HAfter(p: seq<Gate>, psi: Bits -> int, y: Bits)
    requires forall x: Bits :: |x| == |y| ==> psi(x) == Amplitude(p, x)
    ensures Amplitude(p + OnEachH(|y|), y) == Transform(psi, y)
  {
    hide Evolved, OnEachH, SumBits;
    EvolvedConcat(p, OnEachH(|y|), AllZeros, psi, y);
    LayerSums(psi, y, |y|);
  }

  function One(y: Bits): int {
    1
  }

  // What the circuit makes of any oracle, given as what its gates do to amplitudes: the oracle,
  // queried on the uniform superposition of shifted inputs, its transform, the oracle again, and
  // the transform of that.
  function Queried(oracle: seq<Gate>, shift: Bits): Bits -> int {
    y => Evolved(oracle, One, Shifted(y, shift, |shift|))
  }

  function Twice(oracle: seq<Gate>, shift: Bits): Bits -> int {
    y => Evolved(oracle, w => Transform(Queried(oracle, shift), w), y)
  }

  function Prepared(n: nat, oracle: seq<Gate>, shift: Bits): seq<Gate> {
    OnEachH(n) + OnEachX(shift, |shift|) + oracle + OnEachX(shift, |shift|)
  }

  lemma AfterQuery(oracle: seq<Gate>, shift: Bits, y: Bits)
    ensures Amplitude(Prepared(|y|, oracle, shift), y) == Queried(oracle, shift)(y)
  {
    hide Evolved, OnEachH, OnEachX, Shifted;
    var n, x := |y|, OnEachX(shift, |shift|);
    AfterX(OnEachH(n) + x + oracle, shift, |shift|, y);
    var y' := Shifted(y, shift, |shift|);
    forall z: Bits | |z| == |y'| ensures One(z) == Evolved(OnEachH(n) + x, AllZeros, z) {
      AfterX(OnEachH(n), shift, |shift|, z);
      Uniform(n, Shifted(z, shift, |shift|));
    }
    EvolvedConcat(OnEachH(n) + x, oracle, AllZeros, One, y');
  }

  lemma {:induction false} AnyOracle(oracle: seq<Gate>, shift: Bits, y: Bits)
    ensures Amplitude(HsCircuit(|y|, oracle, shift), y) == Transform(Twice(oracle, shift), y)
  {
    hide Evolved, Transform, OnEachH, OnEachX, Shifted;
    var n, p := |y|, Prepared(|y|, oracle, shift);
    var psi := w => Transform(Queried(oracle, shift), w);
    forall w: Bits | |w| == n ensures psi(w) == Evolved(p + OnEachH(n), AllZeros, w) {
      forall u: Bits | |u| == n ensures Queried(oracle, shift)(u) == Amplitude(p, u) {
        AfterQuery(oracle, shift, u);
      }
      HAfter(p, Queried(oracle, shift), w);
    }
    forall z: Bits | |z| == n ensures Twice(oracle, shift)(z) == Amplitude(p + OnEachH(n) + oracle, z) {
      EvolvedConcat(p + OnEachH(n), oracle, AllZeros, psi, z);
    }
    HAfter(p + OnEachH(n) + oracle, Twice(oracle, shift), y);
    assert HsCircuit(n, oracle, shift) == p + OnEachH(n) + oracle + OnEachH(n);
  }
}
