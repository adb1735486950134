// When a nested subcircuit expands all the way down: its sign, its count, its ids and its parent
// path make no difference, as long as it runs at all.
module CircuitExpansion {
  import opened Prelude
  import opened MeasurementKey
  import opened CircuitOperation
  import opened CircuitNesting

  lemma {:induction false} ConcatExpands(a: seq<Op>, b: seq<Op>)
    ensures DeepOps(a + b).Some? <==> DeepOps(a).Some? && DeepOps(b).Some?
  {
    hide DeepOne;
    if b == [] {
      assert a + b == a;
    } else {
      var n := |b| - 1;
      ConcatExpands(a, b[..n]);
      assert (a + b)[..|a + b| - 1] == a + b[..n];
    }
  }

  lemma OneExpands(op: Op)
    ensures DeepOps([op]).Some? <==> DeepOne(op).Some?
  {
    hide DeepOne;
    assert [op][..0] == [];
  }

  lemma {:induction false} TimesExpands(ops: seq<Op>, n: nat)
    ensures DeepOps(Times(ops, n)).Some? <==> n == 0 || DeepOps(ops).Some?
  {
    if n > 0 {
      hide DeepOps;
      TimesExpands(ops, n - 1);
      ConcatExpands(Times(ops, n - 1), ops);
      if n == 1 { assert Times(ops, 0) + ops == ops; }
    }
  }

  // ----- Where it is placed makes no difference -----

  lemma {:induction false} RescopeExpands(ops: seq<Op>, path: seq<string>)
    requires AllGood(ops, false)
    ensures DeepOps(RescopeOps(ops, path)).Some? <==> DeepOps(ops).Some?
    decreases Depth(ops), 2 + |ops|
  {
    if ops != [] {
      var n := |ops| - 1;
      hide DeepOne, OpGood, DepthOfOp, RescopeOp;
      RescopeExpands(ops[..n], path);
      RescopeOneExpands(ops[n], path);
      ConcatExpands(RescopeOps(ops[..n], path), [RescopeOp(ops[n], path)]);
      OneExpands(RescopeOp(ops[n], path));
    }
  }

  lemma {:induction false} RescopeOneExpands(op: Op, path: seq<string>)
    requires OpGood(op, false)
    ensures DeepOne(RescopeOp(op, path)).Some? <==> DeepOne(op).Some?
    decreases DepthOfOp(op), 1
  {
    if op.Sub? && op.c.repetitions != 0 {
      hide AnyLoop, DeepOps, AllGood;
      LoopExpands(op.c);
      LoopExpands(op.c.(parentPath := path + op.c.parentPath));
      assert AnyLoop(op.c.(parentPath := path + op.c.parentPath)) == AnyLoop(op.c) by { SameLoop(op.c, path); }
    }
  }

  lemma SameLoop(c: CircuitOp, path: seq<string>)
    ensures AnyLoop(c.(parentPath := path + c.parentPath)) == AnyLoop(c)
  {
  }

  lemma {:induction false} SingleLoopExpands(c: CircuitOp, id: Option<string>)
    requires AllGood(c.circuit, false)
    ensures SingleLoop(c, id).Some? <==> AnyLoop(c).Some?
    ensures AnyLoop(c).Some? ==> (DeepOps(SingleLoop(c, id).value).Some? <==> DeepOps(AnyLoop(c).value).Some?)
    decreases 1 + Depth(c.circuit), 0, 0
  {
    hide DeepOps, AllGood, AnyLoop, RescopeOps, Depth;
    if AnyLoop(c).Some? {
      var ops := AnyLoop(c).value;
      AnyLoopDepth(c);
      AnyLoopGood(c, false);
      var scoped := if id.Some? && id.value != "" then RescopeOps(ops, [id.value]) else ops;
      if id.Some? && id.value != "" {
        RescopeGood(ops, [id.value], false);
        RescopeDepth(ops, [id.value]);
        RescopeExpands(ops, [id.value]);
      }
      RescopeExpands(scoped, c.parentPath);
    }
  }

  lemma {:induction false} LoopPerIdExpands(c: CircuitOp, ids: seq<string>)
    requires AllGood(c.circuit, false)
    ensures LoopPerId(c, ids).Some? <==> ids == [] || AnyLoop(c).Some?
    ensures LoopPerId(c, ids).Some? ==>
            (DeepOps(LoopPerId(c, ids).value).Some? <==> ids == [] || DeepOps(AnyLoop(c).value).Some?)
    decreases 1 + Depth(c.circuit), 0, 1, |ids|
  {
    if ids != [] {
      hide DeepOps, AllGood, AnyLoop, SingleLoop, Depth;
      var n := |ids| - 1;
      LoopPerIdExpands(c, ids[..n]);
      SingleLoopExpands(c, Some(ids[n]));
      if AnyLoop(c).Some? {
        ConcatExpands(LoopPerId(c, ids[..n]).value, SingleLoop(c, Some(ids[n])).value);
      }
    } else {
      assert LoopPerId(c, ids) == Some([]);
    }
  }

  // An operation that runs expands exactly when its inverted and renamed circuit does.
  lemma {:induction false} LoopExpands(c: CircuitOp)
    requires OpGood(Sub(c), false) && c.repetitions != 0
    ensures DeepCircuit(c).Some? <==> AnyLoop(c).Some? && DeepOps(AnyLoop(c).value).Some?
    decreases 1 + Depth(c.circuit), 0, 2
  {
    hide DeepOps, AllGood, AnyLoop, SingleLoop, LoopPerId, Times, IsMeasurement, Inverse, Depth;
    if c.repetitionIds.Some? && c.useRepetitionIds && IsMeasurement(c.circuit) {
      LoopPerIdExpands(c, c.repetitionIds.value);
    } else {
      SingleLoopExpands(c, None);
      if AnyLoop(c).Some? {
        TimesExpands(SingleLoop(c, None).value, Abs(c.repetitions));
      }
    }
  }

  // ----- Its sign makes no difference -----

  lemma {:induction false} RenameConcat(a: seq<Op>, b: seq<Op>, m: map<string, KeyName>)
    ensures RenameOps(a + b, m).Some? <==> RenameOps(a, m).Some? && RenameOps(b, m).Some?
    ensures RenameOps(a + b, m).Some? ==> RenameOps(a + b, m).value == RenameOps(a, m).value + RenameOps(b, m).value
  {
    hide RenameOp;
    if b == [] {
      assert a + b == a;
    } else {
      var n := |b| - 1;
      RenameConcat(a, b[..n], m);
      assert (a + b)[..|a + b| - 1] == a + b[..n];
    }
  }

  lemma RenameOne(op: Op, m: map<string, KeyName>)
    ensures RenameOps([op], m) == match RenameOp(op, m) case Some(o) => Some([o]) case None => None
  {
    hide RenameOp;
    assert [op][..0] == [] && RenameOps([], m) == Some([]);
    if RenameOp(op, m).Some? {
      assert [] + [RenameOp(op, m).value] == [RenameOp(op, m).value];
    }
  }

  // Renaming looks at no count, so it commutes with inversion.
  lemma RenameInverseOp(op: Op, m: map<string, KeyName>)
    requires InverseOp(op).Some?
    ensures RenameOp(InverseOp(op).value, m).Some? <==> RenameOp(op, m).Some?
    ensures RenameOp(op, m).Some? ==> InverseOp(RenameOp(op, m).value) == RenameOp(InverseOp(op).value, m)
  {
    hide Inverse, Keys, KeyText, MeasurementKeys;
    if op.Sub? {
      var c := op.c;
      var keyMap := ComposeMaps(Names(Keys(c.circuit)), c.keyMap, m);
      CountLeavesKeys(c, -c.repetitions);
      CountLeavesKeys(c.(keyMap := keyMap), -c.repetitions);
    }
  }

  lemma CountLeavesKeys(c: CircuitOp, count: int)
    ensures MeasurementKeys(c.(repetitions := count)) == MeasurementKeys(c)
  {
  }

  lemma {:induction false} RenameInverse(ops: seq<Op>, m: map<string, KeyName>)
    requires Inverse(ops).Some?
    ensures RenameOps(Inverse(ops).value, m).Some? <==> RenameOps(ops, m).Some?
    ensures RenameOps(ops, m).Some? ==> Inverse(RenameOps(ops, m).value) == RenameOps(Inverse(ops).value, m)
  {
    if ops != [] {
      hide RenameOp, InverseOp;
      var n := |ops| - 1;
      var o, rest := InverseOp(ops[n]).value, Inverse(ops[..n]).value;
      RenameInverse(ops[..n], m);
      RenameInverseOp(ops[n], m);
      RenameConcat([o], rest, m);
      RenameOne(o, m);
      if RenameOps(ops, m).Some? {
        var r := RenameOps(ops, m).value;
        assert r[..|r| - 1] == RenameOps(ops[..n], m).value && r[|r| - 1] == RenameOp(ops[n], m).value;
      }
    }
  }

  // The loops of two operations over one circuit and one key map are equal or inverse.
  lemma LoopsOpposite(c: CircuitOp, d: CircuitOp)
    requires c.circuit == d.circuit && c.keyMap == d.keyMap && c.repetitions >= 0 > d.repetitions
    requires Inverse(c.circuit).Some?
    ensures AnyLoop(c).Some? <==> AnyLoop(d).Some?
    ensures AnyLoop(c).Some? ==> Inverse(AnyLoop(c).value) == AnyLoop(d)
  {
    hide Inverse, RenameOps;
    RenameInverse(c.circuit, c.keyMap);
  }

  lemma {:induction false} InverseExpands(ops: seq<Op>)
    requires AllGood(ops, false) && Inverse(ops).Some?
    ensures DeepOps(Inverse(ops).value).Some? <==> DeepOps(ops).Some?
    decreases Depth(ops), 2 + |ops|
  {
    if ops != [] {
      hide DeepOne, OpGood, DepthOfOp, InverseOp;
      var n := |ops| - 1;
      InverseExpands(ops[..n]);
      InverseOneExpands(ops[n]);
      ConcatExpands([InverseOp(ops[n]).value], Inverse(ops[..n]).value);
      OneExpands(InverseOp(ops[n]).value);
    }
  }

  lemma {:induction false} InverseOneExpands(op: Op)
    requires OpGood(op, false) && InverseOp(op).Some?
    ensures DeepOne(InverseOp(op).value).Some? <==> DeepOne(op).Some?
    decreases DepthOfOp(op), 1
  {
    if op.Sub? && op.c.repetitions != 0 {
      hide AllGood, DeepCircuit, Inverse;
      CountsExpandAlike(op.c, op.c.(repetitions := -op.c.repetitions));
    }
  }

  // Two operations over one circuit and one key map that both run: one expands if the other does.
  lemma {:induction false} CountsExpandAlike(c: CircuitOp, d: CircuitOp)
    requires OpGood(Sub(c), false) && OpGood(Sub(d), false)
    requires c.circuit == d.circuit && c.keyMap == d.keyMap && c.repetitions != 0 && d.repetitions != 0
    ensures DeepCircuit(c).Some? <==> DeepCircuit(d).Some?
    decreases 1 + Depth(c.circuit), 0
  {
    hide AllGood, DeepCircuit, DeepOps, Inverse, Depth;
    LoopExpands(c);
    LoopExpands(d);
    if c.repetitions < 0 <==> d.repetitions < 0 {
      assert AnyLoop(c) == AnyLoop(d);
    } else {
      var up, down := if c.repetitions > 0 then c else d, if c.repetitions > 0 then d else c;
      LoopsOpposite(up, down);
      if AnyLoop(up).Some? {
        AnyLoopDepth(up);
        AnyLoopGood(up, false);
        hide AnyLoop;
        InverseExpands(AnyLoop(up).value);
      }
    }
  }
}
