// Subcircuits inside subcircuits, expanded all the way down.
module CircuitNesting {
  import opened Prelude
  import opened MeasurementKey
  import opened CircuitOperation
  import opened CircuitKeys

  // ----- Depth of nesting -----

  function DepthOfOp(op: Op): nat
    decreases op, 0
  {
    match op
    case Sub(c) => 1 + Depth(c.circuit)
    case _ => 0
  }

  function Depth(ops: seq<Op>): nat
    decreases ops, 0
  {
    if ops == [] then 0
    else
      var (rest, last) := (Depth(ops[..|ops| - 1]), DepthOfOp(ops[|ops| - 1]));
      if rest < last then last else rest
  }

  // Expansion wraps nothing deeper than it unwraps.
  lemma {:induction false} DepthConcat(a: seq<Op>, b: seq<Op>)
    ensures Depth(a + b) == if Depth(a) < Depth(b) then Depth(b) else Depth(a)
  {
    if b == [] {
      assert a + b == a;
    } else {
      DepthConcat(a, b[..|b| - 1]);
      assert (a + b)[..|a + b| - 1] == a + b[..|b| - 1];
    }
  }

  lemma DepthOfOne(op: Op)
    ensures Depth([op]) == DepthOfOp(op)
  {
    assert [op][..0] == [];
  }

  lemma {:induction false} InverseDepth(ops: seq<Op>)
    requires Inverse(ops).Some?
    ensures Depth(Inverse(ops).value) == Depth(ops)
  {
    if ops != [] {
      var n := |ops| - 1;
      InverseDepth(ops[..n]);
      DepthConcat([InverseOp(ops[n]).value], Inverse(ops[..n]).value);
      DepthOfOne(InverseOp(ops[n]).value);
    }
  }

  lemma {:induction false} RenameDepth(ops: seq<Op>, m: map<string, KeyName>)
    requires RenameOps(ops, m).Some?
    ensures Depth(RenameOps(ops, m).value) == Depth(ops)
  {
    if ops != [] {
      var n := |ops| - 1;
      RenameDepth(ops[..n], m);
      hide MeasurementKeys;
      DepthConcat(RenameOps(ops[..n], m).value, [RenameOp(ops[n], m).value]);
      DepthOfOne(RenameOp(ops[n], m).value);
    }
  }

  lemma {:induction false} RescopeDepth(ops: seq<Op>, path: seq<string>)
    ensures Depth(RescopeOps(ops, path)) == Depth(ops)
  {
    if ops != [] {
      var n := |ops| - 1;
      RescopeDepth(ops[..n], path);
      DepthConcat(RescopeOps(ops[..n], path), [RescopeOp(ops[n], path)]);
      DepthOfOne(RescopeOp(ops[n], path));
    }
  }

  lemma AnyLoopDepth(c: CircuitOp)
    requires AnyLoop(c).Some?
    ensures Depth(AnyLoop(c).value) == Depth(c.circuit)
  {
    var base := if c.repetitions < 0 then Inverse(c.circuit).value else c.circuit;
    if c.repetitions < 0 { InverseDepth(c.circuit); }
    if c.keyMap != map[] { RenameDepth(base, c.keyMap); }
  }

  lemma SingleLoopDepth(c: CircuitOp, id: Option<string>)
    requires SingleLoop(c, id).Some?
    ensures Depth(SingleLoop(c, id).value) == Depth(c.circuit)
  {
    var ops := AnyLoop(c).value;
    AnyLoopDepth(c);
    if id.Some? { RescopeDepth(ops, [id.value]); RescopeDepth(RescopeOps(ops, [id.value]), c.parentPath); }
    RescopeDepth(ops, c.parentPath);
  }

  lemma {:induction false} LoopPerIdDepth(c: CircuitOp, ids: seq<string>)
    requires LoopPerId(c, ids).Some?
    ensures Depth(LoopPerId(c, ids).value) <= Depth(c.circuit)
  {
    if ids != [] {
      var n := |ids| - 1;
      LoopPerIdDepth(c, ids[..n]);
      SingleLoopDepth(c, Some(ids[n]));
      DepthConcat(LoopPerId(c, ids[..n]).value, SingleLoop(c, Some(ids[n])).value);
    }
  }

  lemma {:induction false} TimesDepth(ops: seq<Op>, n: nat)
    ensures Depth(Times(ops, n)) <= Depth(ops)
  {
    if n > 0 {
      TimesDepth(ops, n - 1);
      DepthConcat(Times(ops, n - 1), ops);
    }
  }

  lemma MappedDepth(c: CircuitOp)
    requires MappedCircuit(c).Some?
    ensures Depth(MappedCircuit(c).value) <= Depth(c.circuit)
  {
    if c.repetitions == 0 {
    } else if c.repetitionIds.Some? && c.useRepetitionIds && IsMeasurement(c.circuit) {
      LoopPerIdDepth(c, c.repetitionIds.value);
    } else {
      SingleLoopDepth(c, None);
      TimesDepth(SingleLoop(c, None).value, Abs(c.repetitions));
    }
  }

  // mapped_circuit(deep=True)
  function DeepCircuit(c: CircuitOp): Option<seq<Op>>
    decreases 1 + Depth(c.circuit), 0
  {
    match MappedCircuit(c)
    case None => None
    case Some(ops) =>
      MappedDepth(c);
      DeepOps(ops)
  }

  function DeepOne(op: Op): Option<seq<Op>>
    decreases DepthOfOp(op), 1
  {
    match op
    case Sub(c) => DeepCircuit(c)
    case _ => Some([op])
  }

  function DeepOps(ops: seq<Op>): Option<seq<Op>>
    decreases Depth(ops), 2 + |ops|
  {
    if ops == [] then Some([])
    else match (DeepOps(ops[..|ops| - 1]), DeepOne(ops[|ops| - 1]))
      case (Some(rest), Some(last)) => Some(rest + last)
      case _ => None
  }

  predicate Flat(ops: seq<Op>) {
    forall i :: 0 <= i < |ops| ==> !ops[i].Sub?
  }

  // Every subcircuit, at every level, came from the constructor and, if checked, passes the
  // caller's check.
  predicate AllGood(ops: seq<Op>, checked: bool)
    decreases ops, 0
  {
    ops == [] || (AllGood(ops[..|ops| - 1], checked) && OpGood(ops[|ops| - 1], checked))
  }

  predicate OpGood(op: Op, checked: bool)
    decreases op, 0
  {
    match op
    case Sub(c) => Valid(c) && (checked ==> Consistent(c)) && AllGood(c.circuit, checked)
    case _ => true
  }

  lemma {:induction false} GoodConcat(a: seq<Op>, b: seq<Op>, checked: bool)
    ensures AllGood(a + b, checked) <==> AllGood(a, checked) && AllGood(b, checked)
  {
    if b == [] {
      assert a + b == a;
    } else {
      GoodConcat(a, b[..|b| - 1], checked);
      assert (a + b)[..|a + b| - 1] == a + b[..|b| - 1];
    }
  }

  lemma GoodOne(op: Op, checked: bool)
    ensures AllGood([op], checked) <==> OpGood(op, checked)
  {
    assert [op][..0] == [];
  }

  lemma InverseOpGood(op: Op, checked: bool)
    requires InverseOp(op).Some? && OpGood(op, checked)
    ensures OpGood(InverseOp(op).value, checked)
  {
  }

  lemma {:induction false} InverseGood(ops: seq<Op>, checked: bool)
    requires Inverse(ops).Some? && AllGood(ops, checked)
    ensures AllGood(Inverse(ops).value, checked)
  {
    if ops != [] {
      var n := |ops| - 1;
      InverseGood(ops[..n], checked);
      InverseOpGood(ops[n], checked);
      GoodConcat([InverseOp(ops[n]).value], Inverse(ops[..n]).value, checked);
      GoodOne(InverseOp(ops[n]).value, checked);
    }
  }

  lemma RenameOpGood(op: Op, m: map<string, KeyName>, checked: bool)
    requires RenameOp(op, m).Some? && OpGood(op, checked)
    ensures OpGood(RenameOp(op, m).value, checked)
  {
    hide MeasurementKeys, AllGood;
  }

  lemma {:induction false} RenameGood(ops: seq<Op>, m: map<string, KeyName>, checked: bool)
    requires RenameOps(ops, m).Some? && AllGood(ops, checked)
    ensures AllGood(RenameOps(ops, m).value, checked)
  {
    hide RenameOp, OpGood;
    if ops != [] {
      var n := |ops| - 1;
      RenameGood(ops[..n], m, checked);
      RenameOpGood(ops[n], m, checked);
      GoodConcat(RenameOps(ops[..n], m).value, [RenameOp(ops[n], m).value], checked);
      GoodOne(RenameOp(ops[n], m).value, checked);
    }
  }

  lemma {:induction false} RescopeGood(ops: seq<Op>, path: seq<string>, checked: bool)
    requires AllGood(ops, checked)
    ensures AllGood(RescopeOps(ops, path), checked)
  {
    if ops != [] {
      var n := |ops| - 1;
      RescopeGood(ops[..n], path, checked);
      GoodConcat(RescopeOps(ops[..n], path), [RescopeOp(ops[n], path)], checked);
      GoodOne(RescopeOp(ops[n], path), checked);
    }
  }

  lemma AnyLoopGood(c: CircuitOp, checked: bool)
    requires AnyLoop(c).Some? && AllGood(c.circuit, checked)
    ensures AllGood(AnyLoop(c).value, checked)
  {
    var base := if c.repetitions < 0 then Inverse(c.circuit).value else c.circuit;
    if c.repetitions < 0 { InverseGood(c.circuit, checked); }
    if c.keyMap != map[] { RenameGood(base, c.keyMap, checked); }
  }

  lemma SingleLoopGood(c: CircuitOp, id: Option<string>, checked: bool)
    requires SingleLoop(c, id).Some? && AllGood(c.circuit, checked)
    ensures AllGood(SingleLoop(c, id).value, checked)
  {
    var ops := AnyLoop(c).value;
    AnyLoopGood(c, checked);
    if id.Some? {
      RescopeGood(ops, [id.value], checked);
      RescopeGood(RescopeOps(ops, [id.value]), c.parentPath, checked);
    }
    RescopeGood(ops, c.parentPath, checked);
  }

  lemma {:induction false} LoopPerIdGood(c: CircuitOp, ids: seq<string>, checked: bool)
    requires LoopPerId(c, ids).Some? && AllGood(c.circuit, checked)
    ensures AllGood(LoopPerId(c, ids).value, checked)
  {
    if ids != [] {
      var n := |ids| - 1;
      LoopPerIdGood(c, ids[..n], checked);
      SingleLoopGood(c, Some(ids[n]), checked);
      GoodConcat(LoopPerId(c, ids[..n]).value, SingleLoop(c, Some(ids[n])).value, checked);
    }
  }

  lemma {:induction false} TimesGood(ops: seq<Op>, n: nat, checked: bool)
    requires AllGood(ops, checked)
    ensures AllGood(Times(ops, n), checked)
  {
    if n > 0 {
      TimesGood(ops, n - 1, checked);
      GoodConcat(Times(ops, n - 1), ops, checked);
    }
  }

  lemma MappedGood(c: CircuitOp, checked: bool)
    requires MappedCircuit(c).Some? && AllGood(c.circuit, checked)
    ensures AllGood(MappedCircuit(c).value, checked)
  {
    if c.repetitions == 0 {
    } else if c.repetitionIds.Some? && c.useRepetitionIds && IsMeasurement(c.circuit) {
      LoopPerIdGood(c, c.repetitionIds.value, checked);
    } else {
      SingleLoopGood(c, None, checked);
      TimesGood(SingleLoop(c, None).value, Abs(c.repetitions), checked);
    }
  }

  // Nested expansion: whatever the nesting, the summary of the outermost operation is the set of
  // keys of the flat circuit.
  lemma {:induction false} DeepKeys(c: CircuitOp)
    requires OpGood(Sub(c), true) && DeepCircuit(c).Some?
    ensures Flat(DeepCircuit(c).value) && Keys(DeepCircuit(c).value) == MeasurementKeys(c)
    decreases 1 + Depth(c.circuit), 0
  {
    MappedDepth(c);
    MappedGood(c, true);
    ConsistentKeys(c);
    DeepOpsKeys(MappedCircuit(c).value);
  }

  lemma {:induction false} DeepOneKeys(op: Op)
    requires OpGood(op, true) && DeepOne(op).Some?
    ensures Flat(DeepOne(op).value) && Keys(DeepOne(op).value) == KeysOfOp(op)
    decreases DepthOfOp(op), 1
  {
    if op.Sub? {
      DeepKeys(op.c);
    } else {
      assert [op][..0] == [];
    }
  }

  lemma {:induction false} DeepOpsKeys(ops: seq<Op>)
    requires AllGood(ops, true) && DeepOps(ops).Some?
    ensures Flat(DeepOps(ops).value) && Keys(DeepOps(ops).value) == Keys(ops)
    decreases Depth(ops), 2 + |ops|
  {
    if ops != [] {
      hide DeepOne, OpGood, KeysOfOp, DepthOfOp;
      var n := |ops| - 1;
      DeepOpsKeys(ops[..n]);
      DeepOneKeys(ops[n]);
      KeysConcat(DeepOps(ops[..n]).value, DeepOne(ops[n]).value);
    }
  }

  // ----- Both directions, over every level -----

  // Every subcircuit, at every level, expands.
  predicate AllExpand(ops: seq<Op>)
    decreases ops, 0
  {
    ops == [] || (AllExpand(ops[..|ops| - 1]) && OpExpands(ops[|ops| - 1]))
  }

  predicate OpExpands(op: Op)
    decreases op, 0
  {
    match op
    case Sub(c) => DeepCircuit(c).Some? && AllExpand(c.circuit)
    case _ => true
  }

  // Every subcircuit, at every level, reports the keys of its full expansion, compared by text.
  predicate AllAgree(ops: seq<Op>)
    requires AllExpand(ops)
    decreases ops, 0
  {
    ops == [] || (AllAgree(ops[..|ops| - 1]) && OpAgrees(ops[|ops| - 1]))
  }

  predicate OpAgrees(op: Op)
    requires OpExpands(op)
    decreases op, 0
  {
    match op
    case Sub(c) => Texts(Keys(DeepCircuit(c).value)) == Texts(MeasurementKeys(c)) && AllAgree(c.circuit)
    case _ => true
  }

  // The full expansion holds the keys of the one-level expansion, if the levels below are good.
  lemma DeepIsMapped(c: CircuitOp)
    requires AllGood(c.circuit, true) && DeepCircuit(c).Some?
    ensures MappedCircuit(c).Some? && Keys(DeepCircuit(c).value) == Keys(MappedCircuit(c).value)
  {
    hide AllGood, DeepOps, Keys, MappedCircuit;
    MappedDepth(c);
    MappedGood(c, true);
    DeepOpsKeys(MappedCircuit(c).value);
  }

  // The summaries of all nested operations agree with their full expansions exactly when every
  // level passes the caller's check.
  lemma {:induction false} SummariesAgreeIff(c: CircuitOp)
    requires OpGood(Sub(c), false) && OpExpands(Sub(c))
    ensures OpAgrees(Sub(c)) <==> OpGood(Sub(c), true)
    decreases c, 1
  {
    SummariesAgreeBelow(c.circuit);
    if AllGood(c.circuit, true) {
      hide AllGood, AllAgree, DeepCircuit, MappedCircuit, Consistent;
      DeepIsMapped(c);
      SummaryMatchesExpansion(c);
    }
  }

  lemma {:induction false} SummariesAgreeBelow(ops: seq<Op>)
    requires AllGood(ops, false) && AllExpand(ops)
    ensures AllAgree(ops) <==> AllGood(ops, true)
    decreases ops, 0
  {
    if ops != [] {
      hide OpGood, OpExpands, OpAgrees;
      SummariesAgreeBelow(ops[..|ops| - 1]);
      SummariesAgreeOne(ops[|ops| - 1]);
    }
  }

  lemma {:induction false} SummariesAgreeOne(op: Op)
    requires OpGood(op, false) && OpExpands(op)
    ensures OpAgrees(op) <==> OpGood(op, true)
    decreases op, 0
  {
    if op.Sub? {
      SummariesAgreeIff(op.c);
    }
  }
}
