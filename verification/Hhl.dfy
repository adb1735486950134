// The control ladder of the HHL eigenvalue rotation: before the k-th controlled rotation the X
// gates of k ^ (k - 1) turn the register into one that is all ones exactly for the value k.
module Hhl {
  import opened Prelude
  import opened Bits

  // The ancilla rotation for index k, wrapped in one control per register qubit.
  datatype KGate = Ancilla(k: nat) | Controlled(inner: KGate)

  function Controls(g: KGate): nat {
    match g
    case Ancilla(_) => 0
    case Controlled(h) => 1 + Controls(h)
  }

  function Index(g: KGate): nat {
    match g
    case Ancilla(k) => k
    case Controlled(h) => Index(h)
  }

  datatype Op = X(q: nat) | Apply(gate: KGate)

  // ----- Integers as infinite two's complement bit strings -----

  // z % 2 and z / 2 round towards minus infinity, as the source's operators do.
  function BitAt(z: int, i: nat): bool
    decreases i
  {
    if i == 0 then z % 2 == 1 else BitAt(z / 2, i - 1)
  }

  function Magnitude(z: int): nat {
    if z >= 0 then z else -1 - z
  }

  function Xor(a: int, b: int): int
    decreases Magnitude(a) + Magnitude(b)
  {
    if a in {0, -1} && b in {0, -1} then (if a == b then 0 else -1)
    else 2 * Xor(a / 2, b / 2) + (if a % 2 == b % 2 then 0 else 1)
  }

  lemma {:induction false} XorBits(a: int, b: int, i: nat)
    ensures BitAt(Xor(a, b), i) == (BitAt(a, i) != BitAt(b, i))
    decreases i
  {
    var x := Xor(a, b);
    if a in {0, -1} && b in {0, -1} {
      assert x / 2 == x && a / 2 == a && b / 2 == b;
      if i > 0 { XorBits(a, b, i - 1); }
    } else {
      assert x / 2 == Xor(a / 2, b / 2);
      if i > 0 { XorBits(a / 2, b / 2, i - 1); }
    }
  }

  lemma {:induction false} MinusOneBits(i: nat)
    ensures BitAt(-1, i)
  {
    if i > 0 {
      assert -1 / 2 == -1;
      MinusOneBits(i - 1);
    }
  }

  lemma {:induction false} AllOnesBits(m: nat, i: nat)
    requires i < m
    ensures BitAt(Pow2(m) - 1, i)
  {
    assert Pow2(m) == 2 * Pow2(m - 1);
    if i > 0 { AllOnesBits(m - 1, i - 1); }
  }

  // The register holds k exactly when it agrees with k bit by bit.
  lemma {:induction false} AgreesWithIndex(reg: seq<bool>, k: nat)
    requires k < Pow2(|reg|)
    ensures BigEndianValue(reg) == k <==> forall j :: 0 <= j < |reg| ==> reg[j] == BitAt(k, |reg| - 1 - j)
  {
    if reg != [] {
      var m := |reg|;
      var rest := reg[..m - 1];
      AgreesWithIndex(rest, k / 2);
      assert BigEndianValue(reg) == k <==> BigEndianValue(rest) == k / 2 && reg[m - 1] == BitAt(k, 0);
      forall j | 0 <= j < m - 1 ensures BitAt(k, m - 1 - j) == BitAt(k / 2, m - 2 - j) && rest[j] == reg[j] {}
    }
  }

  // ----- The emitted program -----

  // X gates for the one bits of xor, from the last register qubit before q down to the first.
  function Flips(xor: int, q: nat): seq<Op>
    decreases q
  {
    if q == 0 then [] else (if xor % 2 == 1 then [X(q - 1)] else []) + Flips(xor / 2, q - 1)
  }

  function Nest(k: nat, depth: nat): KGate {
    if depth == 0 then Ancilla(k) else Controlled(Nest(k, depth - 1))
  }

  // Rotations 0, ..., k - 1 on m register qubits.
  function Ladder(k: nat, m: nat): seq<Op> {
    if k == 0 then []
    else Ladder(k - 1, m) + (Flips(Xor(k - 1, k - 2), m) + [Apply(Nest(k - 1, m))])
  }

  // The X gates flip qubits below q, the last one first and each at most once.
  lemma {:induction false} FlipsDescend(xor: int, q: nat)
    ensures forall i :: 0 <= i < |Flips(xor, q)| ==> Flips(xor, q)[i].X? && Flips(xor, q)[i].q < q
    ensures forall i, j :: 0 <= i < j < |Flips(xor, q)| ==> Flips(xor, q)[j].q < Flips(xor, q)[i].q
    decreases q
  {
    if q > 0 {
      FlipsDescend(xor / 2, q - 1);
    }
  }

  lemma FlipsHead(xor: int, q: nat)
    requires q > 0
    ensures Flips(xor, q) == (if xor % 2 == 1 then [X(q - 1)] else []) + Flips(xor / 2, q - 1)
  {
  }

  lemma NoFlips(xor: int)
    ensures Flips(xor, 0) == []
  {
  }

  // They flip exactly the qubits of the one bits.
  lemma {:induction false} FlipsExactly(xor: int, q: nat, p: nat)
    requires p < q
    ensures X(p) in Flips(xor, q) <==> BitAt(xor, q - 1 - p)
    decreases q
  {
    FlipsHead(xor, q);
    if p < q - 1 {
      FlipsExactly(xor / 2, q - 1, p);
      assert BitAt(xor, q - 1 - p) == BitAt(xor / 2, q - 2 - p);
    } else {
      FlipsDescend(xor / 2, q - 1);
      assert BitAt(xor, 0) == (xor % 2 == 1);
    }
    hide Flips, BitAt;
  }

  // An operation that acts on the register alone, or a rotation under all register qubits.
  predicate OnRegister(op: Op, m: nat) {
    match op
    case X(q) => q < m
    case Apply(g) => Controls(g) == m
  }

  // The indices of the rotations, in the order they are emitted.
  function Rotations(ops: seq<Op>): seq<nat> {
    if ops == [] then []
    else RotationOf(ops[0]) + Rotations(ops[1..])
  }

  function RotationOf(op: Op): seq<nat> {
    match op
    case Apply(g) => [Index(g)]
    case X(_) => []
  }

  lemma {:induction false} RotationsConcat(a: seq<Op>, b: seq<Op>)
    ensures Rotations(a + b) == Rotations(a) + Rotations(b)
  {
    if a == [] {
      assert a + b == b;
    } else {
      hide Rotations, RotationOf;
      RotationsHead(a);
      RotationsHead(a + b);
      RotationsConcat(a[1..], b);
      ConcatTail(a, b);
      ConcatAssociates(RotationOf(a[0]), Rotations(a[1..]), Rotations(b));
    }
  }

  lemma RotationsHead(ops: seq<Op>)
    requires ops != []
    ensures Rotations(ops) == RotationOf(ops[0]) + Rotations(ops[1..])
  {
  }

  lemma {:induction false} NoRotations(ops: seq<Op>)
    requires forall i :: 0 <= i < |ops| ==> ops[i].X?
    ensures Rotations(ops) == []
  {
    if ops != [] { NoRotations(ops[1..]); }
  }

  lemma {:induction false} NestShape(k: nat, depth: nat)
    ensures Controls(Nest(k, depth)) == depth && Index(Nest(k, depth)) == k
  {
    if depth > 0 { NestShape(k, depth - 1); }
  }

  predicate AllOnRegister(ops: seq<Op>, m: nat) {
    forall i :: 0 <= i < |ops| ==> OnRegister(ops[i], m)
  }

  function Indices(k: nat): seq<nat> {
    seq(k, i => i)
  }

  // Nothing is emitted outside the register, and the rotations come in order.
  lemma {:induction false} LadderShape(k: nat, m: nat)
    ensures AllOnRegister(Ladder(k, m), m) && Rotations(Ladder(k, m)) == Indices(k)
  {
    hide Ladder, Flips, Nest, Xor, Rotations, OnRegister;
    LadderHead(k, m);
    if k > 0 {
      LadderShape(k - 1, m);
      StepShape(k - 1, m);
      RotationsConcat(Ladder(k - 1, m), Flips(Xor(k - 1, k - 2), m) + [Apply(Nest(k - 1, m))]);
      assert Indices(k) == Indices(k - 1) + [k - 1];
    }
  }

  lemma LadderHead(k: nat, m: nat)
    ensures k == 0 ==> Ladder(k, m) == [] && Rotations([]) == []
    ensures k > 0 ==> Ladder(k, m) == Ladder(k - 1, m) + (Flips(Xor(k - 1, k - 2), m) + [Apply(Nest(k - 1, m))])
  {
    hide Flips, Nest, Xor;
  }

  lemma {:induction false} StepShape(k: nat, m: nat)
    ensures var step := Flips(Xor(k, k - 1), m) + [Apply(Nest(k, m))];
            AllOnRegister(step, m) && Rotations(step) == [k]
  {
    var flips, last := Flips(Xor(k, k - 1), m), [Apply(Nest(k, m))];
    FlipsDescend(Xor(k, k - 1), m);
    NestShape(k, m);
    hide Flips, Nest, Xor;
    NoRotations(flips);
    RotationsConcat(flips, last);
    assert last[1..] == [] && Rotations(last) == [k] + Rotations([]);
  }

  // The program acts within its qubits: X gates on the register only, every rotation under all of
  // the register, one per index and in order.
  method Decompose(numQubits: nat) returns (ops: seq<Op>)
    requires numQubits >= 1
    ensures ops == Ladder(Pow2(numQubits - 1), numQubits - 1)
    ensures AllOnRegister(ops, numQubits - 1) && Rotations(ops) == Indices(Pow2(numQubits - 1))
  {
    hide AllOnRegister, Rotations, Indices, Xor, Pow2, Flips, Ladder;
    LadderHead(0, numQubits - 1);
    var m := numQubits - 1;
    ops := [];
    for k := 0 to Pow2(m)
      invariant ops == Ladder(k, m)
    {
      var kGate := Ancilla(k);
      var xor := Xor(k, k - 1);
      ghost var before, xor0 := ops, xor;
      for q := m downto 0
        invariant ops + Flips(xor, q) == before + Flips(xor0, m)
        invariant kGate == Nest(k, m - q)
      {
        FlipsHead(xor, q + 1);
        ConcatAssociates(ops, if xor % 2 == 1 then [X(q)] else [], Flips(xor / 2, q));
        assert ops + [] == ops;
        if xor % 2 == 1 {
          ops := ops + [X(q)];
        }
        xor := xor / 2;
        kGate := Controlled(kGate);
      }
      NoFlips(xor);
      assert ops + [] == ops;
      ConcatAssociates(before, Flips(xor0, m), [Apply(kGate)]);
      LadderHead(k + 1, m);
      ops := ops + [Apply(kGate)];
    }
    LadderShape(Pow2(m), m);
  }

  // ----- Running it on a basis state -----

  // The register and the indices of the rotations that fired, in order.
  datatype Outcome = Outcome(reg: seq<bool>, fired: seq<nat>)

  // A controlled rotation acts when its control qubits, the first ones, are all one.
  function Step(op: Op, s: Outcome): (r: Outcome)
    ensures |r.reg| == |s.reg|
  {
    match op
    case X(q) => if q < |s.reg| then Outcome(s.reg[q := !s.reg[q]], s.fired) else s
    case Apply(g) =>
      if forall j :: 0 <= j < Controls(g) && j < |s.reg| ==> s.reg[j]
      then Outcome(s.reg, s.fired + [Index(g)]) else s
  }

  function Run(ops: seq<Op>, s: Outcome): (r: Outcome)
    ensures |r.reg| == |s.reg|
  {
    if ops == [] then s else Run(ops[1..], Step(ops[0], s))
  }

  lemma {:induction false} RunConcat(p: seq<Op>, q: seq<Op>, s: Outcome)
    ensures Run(p + q, s) == Run(q, Run(p, s))
  {
    if p == [] {
      assert p + q == q;
    } else {
      assert (p + q)[1..] == p[1..] + q;
      RunConcat(p[1..], q, Step(p[0], s));
    }
  }

  lemma {:induction false} RunFlips(xor: int, q: nat, s: Outcome)
    requires q <= |s.reg|
    ensures Run(Flips(xor, q), s).fired == s.fired
    ensures forall j :: 0 <= j < |s.reg| ==>
      Run(Flips(xor, q), s).reg[j] == if j < q then s.reg[j] != BitAt(xor, q - 1 - j) else s.reg[j]
    decreases q
  {
    if q > 0 {
      var s1 := if xor % 2 == 1 then Step(X(q - 1), s) else s;
      RunFlips(xor / 2, q - 1, s1);
      var rest := Flips(xor / 2, q - 1);
      if xor % 2 == 1 {
        assert ([X(q - 1)] + rest)[1..] == rest;
      } else {
        assert [] + rest == rest;
      }
      var r := Run(rest, s1);
      forall j | 0 <= j < |s.reg|
        ensures r.reg[j] == if j < q then s.reg[j] != BitAt(xor, q - 1 - j) else s.reg[j]
      {
      }
    }
  }

  lemma {:induction false} NestFacts(k: nat, depth: nat)
    ensures Controls(Nest(k, depth)) == depth && Index(Nest(k, depth)) == k
  {
    if depth > 0 { NestFacts(k, depth - 1); }
  }

  // After rotation k the register has been flipped by the complement of k.
  ghost predicate Masked(reg: seq<bool>, now: seq<bool>, k: int) {
    |now| == |reg| && forall j :: 0 <= j < |reg| ==> now[j] == (reg[j] == BitAt(k, |reg| - 1 - j))
  }

  lemma MaskStep(reg: seq<bool>, s: Outcome, k: nat)
    requires Masked(reg, s.reg, k - 1)
    ensures Masked(reg, Run(Flips(Xor(k, k - 1), |reg|), s).reg, k)
  {
    var m := |reg|;
    RunFlips(Xor(k, k - 1), m, s);
    var now := Run(Flips(Xor(k, k - 1), m), s).reg;
    forall j | 0 <= j < m ensures now[j] == (reg[j] == BitAt(k, m - 1 - j)) {
      XorBits(k, k - 1, m - 1 - j);
    }
  }

  lemma {:induction false} FiresExactlyAt(reg: seq<bool>, s: Outcome, k: nat)
    requires k < Pow2(|reg|) && Masked(reg, s.reg, k)
    ensures Step(Apply(Nest(k, |reg|)), s)
         == if BigEndianValue(reg) == k then Outcome(s.reg, s.fired + [k]) else s
  {
    hide BitAt, BigEndianValue;
    NestFacts(k, |reg|);
    AgreesWithIndex(reg, k);
  }

  // Before the first rotation the register is as it was: the complement of -1 is zero.
  lemma MaskedInitially(reg: seq<bool>)
    ensures Masked(reg, reg, -1)
  {
    forall j | 0 <= j < |reg| ensures reg[j] == (reg[j] == BitAt(-1, |reg| - 1 - j)) {
      MinusOneBits(|reg| - 1 - j);
    }
  }

  // After the last rotation the register is restored.
  lemma MaskedFinally(reg: seq<bool>, now: seq<bool>)
    requires Masked(reg, now, Pow2(|reg|) - 1)
    ensures now == reg
  {
    forall j | 0 <= j < |reg| ensures now[j] == reg[j] {
      AllOnesBits(|reg|, |reg| - 1 - j);
    }
  }

  lemma LadderStep(reg: seq<bool>, s: Outcome, k: nat)
    requires k < Pow2(|reg|) && Masked(reg, s.reg, k - 1)
    ensures var r := Run(Flips(Xor(k, k - 1), |reg|) + [Apply(Nest(k, |reg|))], s);
      && Masked(reg, r.reg, k)
      && r.fired == if BigEndianValue(reg) == k then s.fired + [k] else s.fired
  {
    hide BitAt, Flips, BigEndianValue, Nest, Xor;
    var flips, last := Flips(Xor(k, k - 1), |reg|), [Apply(Nest(k, |reg|))];
    MaskStep(reg, s, k);
    RunFlips(Xor(k, k - 1), |reg|, s);
    FiresExactlyAt(reg, Run(flips, s), k);
    RunConcat(flips, last, s);
    assert last[1..] == [];
  }

  lemma {:induction false} RunLadder(reg: seq<bool>, k: nat)
    requires k <= Pow2(|reg|)
    ensures var r := Run(Ladder(k, |reg|), Outcome(reg, []));
      && Masked(reg, r.reg, k - 1)
      && r.fired == if BigEndianValue(reg) < k then [BigEndianValue(reg)] else []
  {
    hide Masked, Flips, BigEndianValue, Nest, Xor, Pow2;
    if k == 0 {
      MaskedInitially(reg);
    } else {
      hide Run;
      RunLadder(reg, k - 1);
      var s0 := Outcome(reg, []);
      LadderStep(reg, Run(Ladder(k - 1, |reg|), s0), k - 1);
      RunConcat(Ladder(k - 1, |reg|), Flips(Xor(k - 1, k - 2), |reg|) + [Apply(Nest(k - 1, |reg|))], s0);
    }
  }

  // On every basis state exactly one rotation fires, the one of the register's value, and the
  // register is restored.
  lemma {:induction false} LadderSelects(reg: seq<bool>)
    ensures Run(Ladder(Pow2(|reg|), |reg|), Outcome(reg, [])) == Outcome(reg, [BigEndianValue(reg)])
  {
    hide Run, Ladder, Masked, Pow2, BigEndianValue;
    RunLadder(reg, Pow2(|reg|));
    MaskedFinally(reg, Run(Ladder(Pow2(|reg|), |reg|), Outcome(reg, [])).reg);
  }
}
