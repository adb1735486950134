// The ripple-carry adder and the shift-and-add multiplier as reversible gate programs over
// classical bits.  Qubits are positions of a register; CNOT and TOFFOLI are all they need.
module BasicArithmetic {
  import opened Prelude
  import opened NumberTheory
  import opened Bits

  type State = seq<bool>

  datatype Gate = CNOT(control: nat, target: nat) | TOFFOLI(control1: nat, control2: nat, target: nat)

  // A gate on different qubits of the register.
  predicate Fits(g: Gate, size: nat) {
    g.target < size && match g
      case CNOT(c, t) => c < size && c != t
      case TOFFOLI(c1, c2, t) => c1 < size && c2 < size && c1 != c2 && c1 != t && c2 != t
  }

  predicate AllFit(gates: seq<Gate>, size: nat) {
    forall i :: 0 <= i < |gates| ==> Fits(gates[i], size)
  }

  function Step(g: Gate, s: State): (r: State)
    requires Fits(g, |s|)
    ensures |r| == |s|
  {
    match g
    case CNOT(c, t) => s[t := s[t] != s[c]]
    case TOFFOLI(c1, c2, t) => s[t := s[t] != (s[c1] && s[c2])]
  }

  function Run(gates: seq<Gate>, s: State): (r: State)
    requires AllFit(gates, |s|)
    ensures |r| == |s|
  {
    if gates == [] then s else Step(gates[|gates| - 1], Run(gates[..|gates| - 1], s))
  }

  lemma {:induction false} RunConcat(p: seq<Gate>, q: seq<Gate>, s: State)
    requires AllFit(p, |s|) && AllFit(q, |s|)
    ensures AllFit(p + q, |s|) && Run(p + q, s) == Run(q, Run(p, s))
  {
    if q == [] {
      assert p + q == p;
    } else {
      RunConcat(p, q[..|q| - 1], s);
      assert (p + q)[..|p + q| - 1] == p + q[..|q| - 1];
    }
  }

  // ----- The adder -----

  // Qubits 3i, 3i + 1 and 3i + 2 hold bit i of the carry, of a, and of b.
  function Carry(i: nat): seq<Gate> {
    [TOFFOLI(3 * i + 1, 3 * i + 2, 3 * i + 3), CNOT(3 * i + 1, 3 * i + 2), TOFFOLI(3 * i, 3 * i + 2, 3 * i + 3)]
  }

  function Uncarry(i: nat): seq<Gate> {
    [TOFFOLI(3 * i, 3 * i + 2, 3 * i + 3), CNOT(3 * i + 1, 3 * i + 2), TOFFOLI(3 * i + 1, 3 * i + 2, 3 * i + 3)]
  }

  function CarrySum(i: nat): seq<Gate> {
    [CNOT(3 * i + 1, 3 * i + 2), CNOT(3 * i, 3 * i + 2)]
  }

  // The adder on bits i, ..., n - 1: the carries nest.
  function AdderProgram(i: nat, n: nat): seq<Gate>
    requires i < n
    decreases n - i
  {
    if i == n - 1 then CarrySum(i)
    else Carry(i) + AdderProgram(i + 1, n) + (Uncarry(i) + CarrySum(i))
  }

  // The downward half for bits below i.
  function Downs(i: nat): seq<Gate> {
    if i == 0 then [] else Uncarry(i - 1) + CarrySum(i - 1) + Downs(i - 1)
  }

  lemma GoUp(gates: seq<Gate>, i: nat, n: nat)
    requires i < n - 1
    ensures gates + (AdderProgram(i, n) + Downs(i)) == (gates + Carry(i)) + (AdderProgram(i + 1, n) + Downs(i + 1))
  {
    hide AdderProgram, Carry, Uncarry, CarrySum;
    var c, p, u, d := Carry(i), AdderProgram(i + 1, n), Uncarry(i) + CarrySum(i), Downs(i);
    ProgramStep(i, n);
    assert gates + (c + p + u + d) == (gates + c) + (p + (u + d));
  }

  lemma ProgramStep(i: nat, n: nat)
    requires i < n - 1
    ensures AdderProgram(i, n) == Carry(i) + AdderProgram(i + 1, n) + (Uncarry(i) + CarrySum(i))
  {
  }

  lemma GoDown(gates: seq<Gate>, i: nat)
    requires i > 0
    ensures gates + Downs(i) == (gates + Uncarry(i - 1) + CarrySum(i - 1)) + Downs(i - 1)
  {
    hide Uncarry, CarrySum;
    var u, c, d := Uncarry(i - 1), CarrySum(i - 1), Downs(i - 1);
    assert gates + (u + c + d) == (gates + u + c) + d;
  }

  method DecomposeAdder(numQubits: nat) returns (gates: seq<Gate>)
    requires numQubits >= 3
    ensures gates == AdderProgram(0, numQubits / 3)
  {
    hide AdderProgram, Carry, Uncarry, CarrySum, Downs;
    var n := numQubits / 3;
    gates := [];
    DownsEnd(n);
    assert gates + (AdderProgram(0, n) + Downs(0)) == AdderProgram(0, n);
    for i := 0 to n - 1
      invariant gates + (AdderProgram(i, n) + Downs(i)) == AdderProgram(0, n)
    {
      GoUp(gates, i, n);
      gates := gates + Carry(i);
    }
    assert gates + (CarrySum(n - 1) + Downs(n - 1)) == (gates + CarrySum(n - 1)) + Downs(n - 1);
    gates := gates + CarrySum(n - 1);
    for i := n - 1 downto 0
      invariant gates + Downs(i) == AdderProgram(0, n)
    {
      GoDown(gates, i + 1);
      gates := gates + Uncarry(i);
      gates := gates + CarrySum(i);
    }
  }

  lemma DownsEnd(n: nat)
    requires n >= 1
    ensures Downs(0) == [] && AdderProgram(n - 1, n) == CarrySum(n - 1)
  {
  }

  function Majority(a: bool, b: bool, c: bool): bool {
    (a && b) || (a && c) || (b && c)
  }

  // The carry that reaches bit j when the adder starts at bit i; a carry qubit that is not
  // clean flips it.
  function Carried(s: State, i: nat, j: nat): bool
    requires i <= j && 3 * j + 2 < |s|
    decreases j - i
  {
    if j == i then s[3 * i]
    else s[3 * j] != Majority(s[3 * j - 2], s[3 * j - 1], Carried(s, i, j - 1))
  }

  // Qubit q holds one of the bits i, ..., n - 1 of b.
  predicate IsB(q: nat, i: nat, n: nat) {
    q % 3 == 2 && i <= q / 3 < n
  }

  // What the adder on bits i, ..., n - 1 does: it changes only the b qubits.
  function AddedFrom(s: State, i: nat, n: nat): (r: State)
    requires i < n && 3 * n <= |s|
    ensures |r| == |s|
  {
    seq(|s|, q requires 0 <= q < |s| =>
      if IsB(q, i, n) then (s[q - 1] != s[q]) != Carried(s, i, q / 3) else s[q])
  }

  function AfterCarry(s: State, i: nat): (r: State)
    requires 3 * i + 3 < |s|
    ensures |r| == |s|
  {
    s[3 * i + 2 := s[3 * i + 1] != s[3 * i + 2]]
     [3 * i + 3 := s[3 * i + 3] != Majority(s[3 * i + 1], s[3 * i + 2], s[3 * i])]
  }

  lemma RunAppend(p: seq<Gate>, g: Gate, s: State)
    requires AllFit(p, |s|) && Fits(g, |s|)
    ensures AllFit(p + [g], |s|) && Run(p + [g], s) == Step(g, Run(p, s))
  {
    assert (p + [g])[..|p|] == p;
  }

  lemma Run2(g1: Gate, g2: Gate, s: State)
    requires Fits(g1, |s|) && Fits(g2, |s|)
    ensures AllFit([g1, g2], |s|) && Run([g1, g2], s) == Step(g2, Step(g1, s))
  {
    hide Fits, Step;
    RunAppend([], g1, s);
    RunAppend([g1], g2, s);
    assert [g1, g2] == [g1] + [g2] && [g1] == [] + [g1];
  }

  lemma {:induction false} Run3(g1: Gate, g2: Gate, g3: Gate, s: State)
    requires Fits(g1, |s|) && Fits(g2, |s|) && Fits(g3, |s|)
    ensures AllFit([g1, g2, g3], |s|) && Run([g1, g2, g3], s) == Step(g3, Step(g2, Step(g1, s)))
  {
    hide Run, Fits, Step;
    Run2(g1, g2, s);
    RunAppend([g1, g2], g3, s);
    assert [g1, g2, g3] == [g1, g2] + [g3];
  }

  // Toggling c1, then b, then c1 again leaves one value in each.
  lemma Overwrite(s: State, b: nat, c1: nat, x: bool, y: bool, z: bool)
    requires b < c1 < |s|
    ensures s[c1 := x][b := y][c1 := z] == s[b := y][c1 := z]
  {
  }

  lemma CarryEffect(s: State, c0: nat, a: nat, b: nat, c1: nat)
    requires c0 < a < b < c1 < |s|
    ensures var gates := [TOFFOLI(a, b, c1), CNOT(a, b), TOFFOLI(c0, b, c1)];
      AllFit(gates, |s|) && Run(gates, s) == s[b := s[a] != s[b]][c1 := s[c1] != Majority(s[a], s[b], s[c0])]
  {
    hide Run, AllFit;
    var g1, g2, g3 := TOFFOLI(a, b, c1), CNOT(a, b), TOFFOLI(c0, b, c1);
    Run3(g1, g2, g3, s);
    var x, y := s[c1] != (s[a] && s[b]), s[b] != s[a];
    assert Step(g1, s) == s[c1 := x];
    assert Step(g2, s[c1 := x]) == s[c1 := x][b := y];
    Overwrite(s, b, c1, x, y, x != (s[c0] && y));
  }

  lemma RunCarry(s: State, i: nat)
    requires 3 * i + 3 < |s|
    ensures AllFit(Carry(i), |s|) && Run(Carry(i), s) == AfterCarry(s, i)
  {
    hide Run, AllFit;
    CarryEffect(s, 3 * i, 3 * i + 1, 3 * i + 2, 3 * i + 3);
  }

  lemma UncarryEffect(s: State, c0: nat, a: nat, b: nat, c1: nat)
    requires c0 < a < b < c1 < |s|
    ensures var gates := [TOFFOLI(c0, b, c1), CNOT(a, b), TOFFOLI(a, b, c1)];
      AllFit(gates, |s|) && Run(gates, s) == s[b := s[a] != s[b]][c1 := s[c1] != Majority(s[a], s[a] != s[b], s[c0])]
  {
    hide Run, AllFit;
    var g1, g2, g3 := TOFFOLI(c0, b, c1), CNOT(a, b), TOFFOLI(a, b, c1);
    Run3(g1, g2, g3, s);
    var x, y := s[c1] != (s[c0] && s[b]), s[b] != s[a];
    assert Step(g1, s) == s[c1 := x];
    assert Step(g2, s[c1 := x]) == s[c1 := x][b := y];
    Overwrite(s, b, c1, x, y, x != (s[a] && y));
  }

  lemma {:induction false} SumEffect(s: State, c0: nat, a: nat, b: nat)
    requires c0 < a < b < |s|
    ensures var gates := [CNOT(a, b), CNOT(c0, b)];
      AllFit(gates, |s|) && Run(gates, s) == s[b := (s[a] != s[b]) != s[c0]]
  {
    hide Run, AllFit;
    Run2(CNOT(a, b), CNOT(c0, b), s);
  }

  // Uncarry and sum, on a state whose bit i is as the carry left it.
  lemma {:induction false} RunUncarrySum(s: State, i: nat)
    requires 3 * i + 3 < |s|
    ensures AllFit(Uncarry(i) + CarrySum(i), |s|)
    ensures var a, b, c := s[3 * i + 1], s[3 * i + 1] != s[3 * i + 2], s[3 * i];
      Run(Uncarry(i) + CarrySum(i), s)
        == s[3 * i + 2 := (a != b) != c][3 * i + 3 := s[3 * i + 3] != Majority(a, b, c)]
  {
    hide Run, AllFit;
    UncarryEffect(s, 3 * i, 3 * i + 1, 3 * i + 2, 3 * i + 3);
    SumEffect(Run(Uncarry(i), s), 3 * i, 3 * i + 1, 3 * i + 2);
    RunConcat(Uncarry(i), CarrySum(i), s);
  }

  lemma {:induction false} CarriedAfterCarry(s: State, i: nat, j: nat)
    requires i < j && 3 * j + 2 < |s|
    ensures Carried(AfterCarry(s, i), i + 1, j) == Carried(s, i, j)
    decreases j
  {
    if j == i + 1 {
      assert Carried(s, i, j) == (s[3 * j] != Majority(s[3 * j - 2], s[3 * j - 1], Carried(s, i, i)));
    } else {
      CarriedAfterCarry(s, i, j - 1);
    }
  }

  lemma {:induction false} RunAdder(s: State, i: nat, n: nat)
    requires i < n && 3 * n <= |s|
    ensures AllFit(AdderProgram(i, n), |s|)
    ensures Run(AdderProgram(i, n), s) == AddedFrom(s, i, n)
    decreases n - i
  {
    if i == n - 1 {
      SumEffect(s, 3 * i, 3 * i + 1, 3 * i + 2);
      assert Run(CarrySum(i), s) == AddedFrom(s, i, n);
    } else {
      var s1 := AfterCarry(s, i);
      var s2 := AddedFrom(s1, i + 1, n);
      RunCarry(s, i);
      RunAdder(s1, i + 1, n);
      RunUncarrySum(s2, i);
      RunConcat(Carry(i), AdderProgram(i + 1, n), s);
      RunConcat(Carry(i) + AdderProgram(i + 1, n), Uncarry(i) + CarrySum(i), s);
      AdderStep(s, i, n);
    }
  }

  lemma FirstCarryOf(s: State, i: nat)
    requires 3 * i + 2 < |s|
    ensures Carried(s, i, i) == s[3 * i]
  {
  }

  // The b qubits from bit i on are the one of bit i and those from the next bit on.
  lemma FirstB(q: nat, i: nat, n: nat)
    requires i < n
    ensures IsB(q, i, n) <==> q == 3 * i + 2 || IsB(q, i + 1, n)
    ensures q <= 3 * i + 3 ==> !IsB(q, i + 1, n)
    ensures IsB(q, i + 1, n) ==> q / 3 > i && 3 * (q / 3) + 2 == q
  {
  }

  // Unwinding one bit of the nest gives the sum of that bit and restores its carry.
  lemma AdderStep(s: State, i: nat, n: nat)
    requires i < n - 1 && 3 * n <= |s|
    ensures var s2 := AddedFrom(AfterCarry(s, i), i + 1, n);
      var a, b, c := s2[3 * i + 1], s2[3 * i + 1] != s2[3 * i + 2], s2[3 * i];
      s2[3 * i + 2 := (a != b) != c][3 * i + 3 := s2[3 * i + 3] != Majority(a, b, c)] == AddedFrom(s, i, n)
  {
    hide Carried, Majority, IsB;
    var s2 := AddedFrom(AfterCarry(s, i), i + 1, n);
    var a, b, c := s2[3 * i + 1], s2[3 * i + 1] != s2[3 * i + 2], s2[3 * i];
    forall q | q == 3 * i || q == 3 * i + 1 || q == 3 * i + 2 || q == 3 * i + 3
      ensures s2[q] == AfterCarry(s, i)[q]
    {
      FirstB(q, i, n);
    }
    var s3 := s2[3 * i + 2 := (a != b) != c][3 * i + 3 := s2[3 * i + 3] != Majority(a, b, c)];
    forall q | 0 <= q < |s| ensures s3[q] == AddedFrom(s, i, n)[q] {
      FirstB(q, i, n);
      if q == 3 * i + 2 {
        FirstCarryOf(s, i);
      } else if IsB(q, i + 1, n) {
        CarriedAfterCarry(s, i, q / 3);
      }
    }
  }

  // Register k (0 the carries, 1 for a, 2 for b) as a bit string.
  function Register(s: State, k: nat, n: nat): (r: seq<bool>)
    requires k < 3 && 3 * n <= |s|
    ensures |r| == n && forall i :: 0 <= i < n ==> r[i] == s[3 * i + k]
  {
    seq(n, i requires 0 <= i < n => s[3 * i + k])
  }

  ghost predicate CleanCarries(s: State, n: nat)
    requires 3 * n <= |s|
  {
    forall i :: 1 <= i < n ==> !Register(s, 0, n)[i]
  }

  // The carry out of the low m bits.
  function CarryOut(s: State, m: nat): bool
    requires 1 <= m && 3 * m <= |s|
  {
    Majority(s[3 * m - 2], s[3 * m - 1], Carried(s, 0, m - 1))
  }

  lemma FullAdder(i: nat, a: bool, b: bool, c: bool)
    ensures Weight(i, (a != b) != c) + Weight(i + 1, Majority(a, b, c)) == Weight(i, a) + Weight(i, b) + Weight(i, c)
  {
  }

  lemma {:induction false} AddedAt(s: State, n: nat, i: nat)
    requires i < n && 3 * n <= |s|
    ensures AddedFrom(s, 0, n)[3 * i + 2] == ((s[3 * i + 1] != s[3 * i + 2]) != Carried(s, 0, i))
  {
    hide Carried;
    assert (3 * i + 2) / 3 == i && (3 * i + 2) % 3 == 2;
  }

  lemma {:induction false} SumBit(s: State, n: nat, i: nat)
    requires i < n && 3 * n <= |s|
    ensures Register(AddedFrom(s, 0, n), 2, n)[i]
         == ((Register(s, 1, n)[i] != Register(s, 2, n)[i]) != Carried(s, 0, i))
  {
    hide Carried, AddedFrom;
    AddedAt(s, n, i);
  }

  lemma FirstCarry(s: State)
    requires 2 < |s|
    ensures Carried(s, 0, 0) == s[0] && Weight(0, s[0]) == Bit(s[0])
  {
  }

  lemma CarriedIsCarryOut(s: State, n: nat, i: nat)
    requires 1 <= i < n && 3 * n <= |s| && CleanCarries(s, n)
    ensures Carried(s, 0, i) == CarryOut(s, i)
  {
    assert !Register(s, 0, n)[i];
  }

  lemma {:induction false} SumOfBits(s: State, n: nat, m: nat)
    requires 1 <= m <= n && 3 * n <= |s| && CleanCarries(s, n)
    ensures Value(Register(AddedFrom(s, 0, n), 2, n)[..m]) + Weight(m, CarryOut(s, m))
         == Value(Register(s, 1, n)[..m]) + Value(Register(s, 2, n)[..m]) + Bit(s[0])
    decreases m
  {
    hide AddedFrom, Value, Register, Weight, Carried, Majority;
    var t, a, b := Register(AddedFrom(s, 0, n), 2, n), Register(s, 1, n), Register(s, 2, n);
    var i := m - 1;
    SumBit(s, n, i);
    ValueStep(t, i);
    ValueStep(a, i);
    ValueStep(b, i);
    FullAdder(i, a[i], b[i], Carried(s, 0, i));
    if m == 1 {
      FirstCarry(s);
      ValueZero(t[..0]);
      ValueZero(a[..0]);
      ValueZero(b[..0]);
    } else {
      SumOfBits(s, n, i);
      CarriedIsCarryOut(s, n, i);
    }
  }

  // The adder adds: b becomes a + b + carry-in modulo 2^n and nothing else changes, for clean
  // carries.
  lemma {:induction false} AdderAdds(s: State, n: nat)
    requires n >= 1 && 3 * n <= |s| && CleanCarries(s, n)
    ensures var r := AddedFrom(s, 0, n);
      && Value(Register(r, 2, n)) == (Value(Register(s, 1, n)) + Value(Register(s, 2, n)) + Bit(s[0])) % Pow2(n)
      && forall q :: 0 <= q < |s| && !(q < 3 * n && q % 3 == 2) ==> r[q] == s[q]
  {
    SumModulo(s, n);
    forall q | 0 <= q < |s| && !(q < 3 * n && q % 3 == 2) ensures AddedFrom(s, 0, n)[q] == s[q] {
      assert !IsB(q, 0, n);
    }
  }

  lemma {:induction false} SumModulo(s: State, n: nat)
    requires n >= 1 && 3 * n <= |s| && CleanCarries(s, n)
    ensures Value(Register(AddedFrom(s, 0, n), 2, n))
         == (Value(Register(s, 1, n)) + Value(Register(s, 2, n)) + Bit(s[0])) % Pow2(n)
  {
    hide Value, AddedFrom, Register, CleanCarries, CarryOut, Pow2;
    SumOfBits(s, n, n);
    var t, a, b := Register(AddedFrom(s, 0, n), 2, n), Register(s, 1, n), Register(s, 2, n);
    assert t[..n] == t && a[..n] == a && b[..n] == b;
    ModOfMultiple(Bit(CarryOut(s, n)), Value(t), Pow2(n));
  }

  // The same state with its carries above bit 0 cleared.
  function Cleaned(s: State, n: nat): (r: State)
    requires 3 * n <= |s|
    ensures |r| == |s|
  {
    seq(|s|, q requires 0 <= q < |s| => if 0 < q < 3 * n && q % 3 == 0 then false else s[q])
  }

  lemma {:induction false} CarriedWhileClean(s: State, n: nat, j: nat)
    requires j < n && 3 * n <= |s| && forall i :: 1 <= i <= j ==> !Register(s, 0, n)[i]
    ensures Carried(Cleaned(s, n), 0, j) == Carried(s, 0, j)
    decreases j
  {
    if j > 0 {
      CarriedWhileClean(s, n, j - 1);
      assert !Register(s, 0, n)[j];
    }
  }

  lemma CleanedRegisters(s: State, n: nat)
    requires n >= 1 && 3 * n <= |s|
    ensures var clean := Cleaned(s, n);
            CleanCarries(clean, n) && Register(clean, 1, n) == Register(s, 1, n)
            && Register(clean, 2, n) == Register(s, 2, n) && clean[0] == s[0]
  {
  }

  lemma DirtyCarriesDiffer(s: State, n: nat)
    requires n >= 1 && 3 * n <= |s| && !CleanCarries(s, n)
    ensures Value(Register(AddedFrom(s, 0, n), 2, n)) != Value(Register(AddedFrom(Cleaned(s, n), 0, n), 2, n))
  {
    hide AddedFrom, Cleaned, Value;
    var k :| 1 <= k < n && Register(s, 0, n)[k];
    var j := FirstDirty(s, n, k);
    DirtyBitDiffers(s, n, j);
    var t, u := Register(AddedFrom(s, 0, n), 2, n), Register(AddedFrom(Cleaned(s, n), 0, n), 2, n);
    if Value(t) == Value(u) {
      ValueInjective(t, u);
    }
  }

  // A dirty carry qubit spoils the sum: the adder is right exactly when the carries start clean.
  lemma {:induction false} AdderRightIffClean(s: State, n: nat)
    requires n >= 1 && 3 * n <= |s|
    ensures Value(Register(AddedFrom(s, 0, n), 2, n))
         == (Value(Register(s, 1, n)) + Value(Register(s, 2, n)) + Bit(s[0])) % Pow2(n)
       <==> CleanCarries(s, n)
  {
    hide *;
    CleanedRegisters(s, n);
    AdderAdds(Cleaned(s, n), n);
    if CleanCarries(s, n) {
      AdderAdds(s, n);
    } else {
      DirtyCarriesDiffer(s, n);
    }
  }

  lemma DirtyBitDiffers(s: State, n: nat, j: nat)
    requires 1 <= j < n && 3 * n <= |s| && Register(s, 0, n)[j]
    requires forall i :: 1 <= i < j ==> !Register(s, 0, n)[i]
    ensures Register(AddedFrom(s, 0, n), 2, n)[j] != Register(AddedFrom(Cleaned(s, n), 0, n), 2, n)[j]
  {
    hide AddedFrom;
    SumBit(s, n, j);
    SumBit(Cleaned(s, n), n, j);
    CarriedWhileClean(s, n, j - 1);
  }

  lemma {:induction false} FirstDirty(s: State, n: nat, k: nat) returns (j: nat)
    requires 1 <= k < n && 3 * n <= |s| && Register(s, 0, n)[k]
    ensures 1 <= j < n && Register(s, 0, n)[j] && forall i :: 1 <= i < j ==> !Register(s, 0, n)[i]
    decreases k
  {
    if i :| 1 <= i < k && Register(s, 0, n)[i] {
      j := FirstDirty(s, n, i);
    } else {
      j := k;
    }
  }

  // ----- The multiplier -----

  // Qubits 3n, ..., 4n - 1 hold y and the qubits from 4n on hold x.  Loading adds x_i * (y << i)
  // to a, one qubit after another; the first t of them.
  function Load(i: nat, n: nat, t: nat): seq<Gate> {
    if t == 0 then []
    else Load(i, n, t - 1) + [TOFFOLI(4 * n + i, 3 * n + (t - 1), 3 * (i + t - 1) + 1)]
  }

  // How many qubits zip(a[i:], y[:n - i]) pairs.
  function Pairs(i: nat, n: nat): nat {
    if i < n then n - i else 0
  }

  function Round(i: nat, n: nat): seq<Gate>
    requires n >= 1
  {
    Load(i, n, Pairs(i, n)) + AdderProgram(0, n) + Load(i, n, Pairs(i, n))
  }

  function MultiplierProgram(k: nat, n: nat): seq<Gate>
    requires n >= 1
  {
    if k == 0 then [] else MultiplierProgram(k - 1, n) + Round(k - 1, n)
  }

  method DecomposeMultiplier(numQubits: nat) returns (gates: seq<Gate>)
    requires numQubits >= 5
    ensures gates == MultiplierProgram(numQubits - 4 * (numQubits / 5), numQubits / 5)
  {
    hide AdderProgram;
    var n := numQubits / 5;
    gates := [];
    for i := 0 to numQubits - 4 * n
      invariant gates == MultiplierProgram(i, n)
    {
      var load := [];
      for t := 0 to Pairs(i, n)
        invariant load == Load(i, n, t)
      {
        load := load + [TOFFOLI(4 * n + i, 3 * n + t, 3 * (i + t) + 1)];
      }
      var adder := DecomposeAdder(3 * n);
      gates := gates + (load + adder + load);
    }
  }

  function Loaded(s: State, i: nat, n: nat, t: nat): (r: State)
    requires i + t <= n || t == 0
    requires 4 * n + i < |s|
    ensures |r| == |s|
  {
    seq(|s|, q requires 0 <= q < |s| =>
      if q % 3 == 1 && i <= q / 3 < i + t then s[q] != (s[4 * n + i] && s[3 * n + (q / 3 - i)]) else s[q])
  }

  lemma {:induction false} RunLoad(s: State, i: nat, n: nat, t: nat)
    requires i + t <= n || t == 0
    requires 4 * n + i < |s|
    ensures AllFit(Load(i, n, t), |s|) && Run(Load(i, n, t), s) == Loaded(s, i, n, t)
  {
    if t == 0 {
      assert Loaded(s, i, n, t) == s;
    } else {
      RunLoad(s, i, n, t - 1);
      var target := 3 * (i + t - 1) + 1;
      var g := TOFFOLI(4 * n + i, 3 * n + (t - 1), target);
      RunAppend(Load(i, n, t - 1), g, s);
      LoadStep(s, i, n, t);
    }
  }

  lemma LoadStep(s: State, i: nat, n: nat, t: nat)
    requires 1 <= t && i + t <= n && 4 * n + i < |s|
    ensures var g := TOFFOLI(4 * n + i, 3 * n + (t - 1), 3 * (i + t - 1) + 1);
      Step(g, Loaded(s, i, n, t - 1)) == Loaded(s, i, n, t)
  {
    var target := 3 * (i + t - 1) + 1;
    assert target / 3 == i + t - 1 && target % 3 == 1;
  }

  // The state of one round, in closed form.
  function AfterRound(s: State, i: nat, n: nat): (r: State)
    requires n >= 1 && 4 * n + i < |s|
    ensures |r| == |s|
  {
    var t := Pairs(i, n);
    Loaded(AddedFrom(Loaded(s, i, n, t), 0, n), i, n, t)
  }

  lemma RunRound(s: State, i: nat, n: nat)
    requires n >= 1 && 4 * n + i < |s|
    ensures AllFit(Round(i, n), |s|) && Run(Round(i, n), s) == AfterRound(s, i, n)
  {
    hide Run, AllFit, Load, Loaded, AdderProgram, AddedFrom;
    var t := Pairs(i, n);
    var s1 := Loaded(s, i, n, t);
    var s2 := AddedFrom(s1, 0, n);
    RunLoad(s, i, n, t);
    RunAdder(s1, 0, n);
    RunLoad(s2, i, n, t);
    RunConcat(Load(i, n, t), AdderProgram(0, n), s);
    RunConcat(Load(i, n, t) + AdderProgram(0, n), Load(i, n, t), s);
  }

  // a and every carry are clear.
  ghost predicate Ready(s: State, n: nat)
    requires 3 * n <= |s|
  {
    (forall i :: 0 <= i < n ==> !Register(s, 0, n)[i]) && (forall i :: 0 <= i < n ==> !Register(s, 1, n)[i])
  }

  // A position outside the b register.
  predicate OffB(q: nat, n: nat) {
    q >= 3 * n || q % 3 != 2
  }

  // bits is y shifted left by i, times x, cut to n bits.
  lemma {:induction false} ShiftedValue(y: seq<bool>, i: nat, x: bool, bits: seq<bool>)
    requires |bits| == |y|
    requires forall j :: 0 <= j < |y| ==> bits[j] == (i <= j && x && y[j - i])
    ensures Value(bits) == (Weight(i, x) * Value(y)) % Pow2(|y|)
  {
    hide Value, Pow2, Weight;
    if !x || i >= |y| {
      ValueZero(bits);
      ShiftedOut(i, x, Value(y), |y|);
    } else {
      var n, zeros, low, high := |y|, bits[..i], y[..|y| - i], y[|y| - i..];
      assert bits == zeros + low && y == low + high;
      ValueZero(zeros);
      ValueConcat(zeros, low);
      ValueConcat(low, high);
      ShiftedIn(i, n, Value(low), Value(high));
    }
  }

  lemma {:induction false} ShiftedOut(i: nat, x: bool, v: nat, n: nat)
    requires !x || i >= n
    ensures (Weight(i, x) * v) % Pow2(n) == 0
  {
    if x {
      hide Pow2, Weight;
      WeightOne(i);
      Pow2Add(n, i - n);
      assert n + (i - n) == i;
      MultipleVanishes(Pow2(n), Pow2(i - n), v);
    } else {
      ModOfMultiple(0, 0, Pow2(n));
    }
  }

  lemma {:induction false} MultipleVanishes(p: int, q: int, v: int)
    requires p > 0
    ensures ((p * q) * v) % p == 0
  {
    assert (p * q) * v == p * (q * v) + 0;
    ModOfMultiple(q * v, 0, p);
  }

  lemma ShiftedIn(i: nat, n: nat, low: nat, high: nat)
    requires i < n && Pow2(i) * low < Pow2(n)
    ensures (Weight(i, true) * (low + Pow2(n - i) * high)) % Pow2(n) == Pow2(i) * low
  {
    hide Pow2;
    Pow2Add(i, n - i);
    var p, q := Pow2(i), Pow2(n - i);
    assert Pow2(n) == p * q by { assert i + (n - i) == n; }
    assert Weight(i, true) == p;
    ShiftedSplit(p, low, q, high);
    ModOfMultiple(high, p * low, Pow2(n));
  }

  lemma ShiftedSplit(p: int, l: int, q: int, h: int)
    ensures p * (l + q * h) == (p * q) * h + p * l
  {
    assert (p * q) * h == p * (q * h);
  }

  // What loading does to the registers of a ready state.
  lemma LoadedRegisters(s: State, i: nat, n: nat)
    requires n >= 1 && 4 * n + i < |s| && Ready(s, n)
    ensures var s1 := Loaded(s, i, n, Pairs(i, n));
      && CleanCarries(s1, n) && !s1[0]
      && Register(s1, 2, n) == Register(s, 2, n)
      && Value(Register(s1, 1, n)) == (Weight(i, s[4 * n + i]) * Value(s[3 * n..4 * n])) % Pow2(n)
  {
    hide Loaded, Value, Weight;
    var s1 := Loaded(s, i, n, Pairs(i, n));
    forall j | 0 <= j < n
      ensures s1[3 * j] == s[3 * j] && s1[3 * j + 2] == s[3 * j + 2] && !s[3 * j]
      ensures s1[3 * j + 1] == (i <= j && s[4 * n + i] && s[3 * n + (j - i)])
    {
      LoadedAt(s, i, n, j);
      assert !Register(s, 0, n)[j] && !Register(s, 1, n)[j];
    }
    assert !s1[3 * 0];
    ShiftedValue(s[3 * n..4 * n], i, s[4 * n + i], Register(s1, 1, n));
  }

  lemma LoadedAt(s: State, i: nat, n: nat, j: nat)
    requires 4 * n + i < |s| && j < n
    ensures var s1 := Loaded(s, i, n, Pairs(i, n));
      && s1[3 * j] == s[3 * j] && s1[3 * j + 2] == s[3 * j + 2]
      && s1[3 * j + 1] == (s[3 * j + 1] != (i <= j && s[4 * n + i] && s[3 * n + (j - i)]))
  {
    assert (3 * j + 1) / 3 == j && (3 * j + 1) % 3 == 1;
  }

  lemma AddedOffB(s: State, n: nat)
    requires n >= 1 && 3 * n <= |s|
    ensures forall q :: 0 <= q < |s| && OffB(q, n) ==> AddedFrom(s, 0, n)[q] == s[q]
  {
    hide Carried;
  }

  // Loading twice around anything that touches only b undoes itself.
  lemma LoadTwice(s: State, s2: State, i: nat, n: nat, t: nat)
    requires i + t <= n || t == 0
    requires 4 * n + i < |s| == |s2|
    requires forall q :: 0 <= q < |s| && OffB(q, n) ==> s2[q] == Loaded(s, i, n, t)[q]
    ensures forall q :: 0 <= q < |s| && OffB(q, n) ==> Loaded(s2, i, n, t)[q] == s[q]
  {
    forall q | 0 <= q < |s| && OffB(q, n) ensures Loaded(s2, i, n, t)[q] == s[q] {
      if q % 3 == 1 && i <= q / 3 < i + t {
        assert OffB(4 * n + i, n) && OffB(3 * n + (q / 3 - i), n);
      }
    }
  }

  lemma RoundRestores(s: State, i: nat, n: nat)
    requires n >= 1 && 4 * n + i < |s|
    ensures var r := AfterRound(s, i, n);
      && (forall q :: 0 <= q < |s| && OffB(q, n) ==> r[q] == s[q])
      && Register(r, 2, n) == Register(AddedFrom(Loaded(s, i, n, Pairs(i, n)), 0, n), 2, n)
  {
    hide AddedFrom, Loaded;
    var t := Pairs(i, n);
    var s1 := Loaded(s, i, n, t);
    var s2 := AddedFrom(s1, 0, n);
    AddedOffB(s1, n);
    LoadTwice(s, s2, i, n, t);
    forall j | 0 <= j < n ensures AfterRound(s, i, n)[3 * j + 2] == s2[3 * j + 2] {
      LoadedAt(s2, i, n, j);
    }
  }

  lemma RoundReady(s: State, i: nat, n: nat)
    requires n >= 1 && 4 * n + i < |s| && Ready(s, n)
    ensures Ready(AfterRound(s, i, n), n)
  {
    hide AddedFrom, Loaded, AfterRound;
    var r := AfterRound(s, i, n);
    RoundRestores(s, i, n);
    forall j | 0 <= j < n ensures !Register(r, 0, n)[j] && !Register(r, 1, n)[j] {
      assert !Register(s, 0, n)[j] && !Register(s, 1, n)[j];
      assert OffB(3 * j, n) && OffB(3 * j + 1, n);
    }
  }

  lemma {:induction false} RoundAdds(s: State, i: nat, n: nat)
    requires n >= 1 && 4 * n + i < |s| && Ready(s, n)
    ensures var r := AfterRound(s, i, n);
      && Ready(r, n)
      && Value(Register(r, 2, n))
           == MulAdd(Value(Register(s, 2, n)), Weight(i, s[4 * n + i]), Value(s[3 * n..4 * n]), Pow2(n))
  {
    hide AddedFrom, Loaded, AfterRound, Value, Register, CleanCarries, Ready, Weight, Pow2, OffB;
    RoundReady(s, i, n);
    RoundRestores(s, i, n);
    LoadedRegisters(s, i, n);
    AdderAdds(Loaded(s, i, n, Pairs(i, n)), n);
    ModAdd(Weight(i, s[4 * n + i]) * Value(s[3 * n..4 * n]), Value(Register(s, 2, n)), Pow2(n));
  }

  lemma {:induction false} ModAdd(a: int, b: int, n: int)
    requires n > 0
    ensures (a % n + b) % n == (b + a) % n
  {
    assert a == n * (a / n) + a % n;
    SameResidue(b + a, a % n + b, a / n, n);
  }

  function MulAdd(b: int, y: int, x: int, m: int): int
    requires m > 0
  {
    (b + y * x) % m
  }

  lemma {:induction false} AccumulateProduct(b: int, w: int, v: int, y: int, m: int)
    requires m > 0
    ensures MulAdd(MulAdd(b, y, v, m), w, y, m) == MulAdd(b, y, v + w, m)
  {
    ModAdd(b + y * v, w * y, m);
    assert w * y + (b + y * v) == b + y * (v + w);
  }

  // From s, with a and c clear, to r: b has become b + y * (low k bits of x) modulo 2^n, and
  // everything else is as it was.
  ghost predicate Multiplied(s: State, r: State, k: nat, n: nat)
    requires 4 * n + k <= |s| == |r|
  {
    && Ready(r, n)
    && (forall q :: 0 <= q < |s| && OffB(q, n) ==> r[q] == s[q])
    && Value(Register(r, 2, n))
         == MulAdd(Value(Register(s, 2, n)), Value(s[3 * n..4 * n]), Value(s[4 * n..4 * n + k]), Pow2(n))
  }

  lemma {:induction false} MultipliedStep(s: State, r: State, k: nat, n: nat)
    requires n >= 1 && 4 * n + k < |s| == |r| && Multiplied(s, r, k, n)
    ensures Multiplied(s, AfterRound(r, k, n), k + 1, n)
  {
    hide AfterRound, Weight, Value, Pow2, Register, AddedFrom, Loaded, MulAdd;
    RoundAdds(r, k, n);
    RoundRestores(r, k, n);
    assert r[3 * n..4 * n] == s[3 * n..4 * n];
    assert OffB(4 * n + k, n);
    var x := s[4 * n..];
    ValueStep(x, k);
    assert x[..k] == s[4 * n..4 * n + k] && x[..k + 1] == s[4 * n..4 * n + (k + 1)];
    AccumulateProduct(Value(Register(s, 2, n)), Weight(k, x[k]), Value(x[..k]), Value(s[3 * n..4 * n]), Pow2(n));
  }

  lemma {:induction false} MultipliedNothing(s: State, n: nat)
    requires 4 * n <= |s| && Ready(s, n)
    ensures Multiplied(s, s, 0, n)
  {
    var y := Value(s[3 * n..4 * n]);
    assert y * 0 == 0;
    ModOfMultiple(0, Value(Register(s, 2, n)), Pow2(n));
  }

  lemma {:induction false} RunMultiplier(s: State, k: nat, n: nat)
    requires n >= 1 && 4 * n + k <= |s| && Ready(s, n)
    ensures AllFit(MultiplierProgram(k, n), |s|)
    ensures Multiplied(s, Run(MultiplierProgram(k, n), s), k, n)
  {
    hide Round, AfterRound, Multiplied;
    if k == 0 {
      MultipliedNothing(s, n);
    } else {
      hide Run, AllFit;
      RunMultiplier(s, k - 1, n);
      var r := Run(MultiplierProgram(k - 1, n), s);
      RunRound(r, k - 1, n);
      MultipliedStep(s, r, k - 1, n);
      RunConcat(MultiplierProgram(k - 1, n), Round(k - 1, n), s);
    }
  }

  // The multiplier multiplies: with a and c clear, b becomes b + y * x modulo 2^n while a, c, x
  // and y come back unchanged.
  lemma {:induction false} MultiplierMultiplies(s: State, n: nat)
    requires |s| >= 5 && n == |s| / 5 && Ready(s, n)
    ensures var program := MultiplierProgram(|s| - 4 * n, n);
      && AllFit(program, |s|)
      && (forall q :: 0 <= q < |s| && OffB(q, n) ==> Run(program, s)[q] == s[q])
      && Value(Register(Run(program, s), 2, n))
           == (Value(Register(s, 2, n)) + Value(s[3 * n..4 * n]) * Value(s[4 * n..])) % Pow2(n)
  {
    hide MultiplierProgram, Run, AllFit, Value, Register, Pow2;
    RunMultiplier(s, |s| - 4 * n, n);
    assert s[4 * n..4 * n + (|s| - 4 * n)] == s[4 * n..];
  }
}
