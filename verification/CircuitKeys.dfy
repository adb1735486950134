// The measurement keys of subcircuit operations: what renaming, rescoping, inverting and expanding do
// to them, and when the summary of an operation is right.
module CircuitKeys {
  import opened Prelude
  import opened MeasurementKey
  import opened CircuitOperation

  // ----- Keys under renaming, rescoping and inversion -----

  lemma RenameAllUnion(a: set<Key>, b: set<Key>, m: map<string, KeyName>)
    ensures RenameAll(a + b, m) == RenameAll(a, m) + RenameAll(b, m)
  {
  }

  lemma PrefixAllUnion(a: set<Key>, b: set<Key>, path: seq<string>)
    ensures PrefixAll(a + b, path) == PrefixAll(a, path) + PrefixAll(b, path)
  {
  }

  lemma PrefixTwice(keys: set<Key>, inner: seq<string>, outer: seq<string>)
    ensures PrefixAll(PrefixAll(keys, inner), outer) == PrefixAll(keys, outer + inner)
  {
    forall k | k in keys ensures Prefixed(Prefixed(k, inner), outer) == Prefixed(k, outer + inner) {
      assert outer + (inner + k.path) == outer + inner + k.path;
    }
    forall k | k in PrefixAll(keys, outer + inner) ensures k in PrefixAll(PrefixAll(keys, inner), outer) {
      var x :| x in keys && k == Prefixed(x, outer + inner);
      assert Prefixed(x, inner) in PrefixAll(keys, inner);
    }
  }

  lemma RenamePrefixCommute(keys: set<Key>, m: map<string, KeyName>, path: seq<string>)
    ensures PrefixAll(RenameAll(keys, m), path) == RenameAll(PrefixAll(keys, path), m)
  {
    forall k | k in keys ensures Prefixed(Rename(k, m), path) == Rename(Prefixed(k, path), m) {}
    forall k | k in PrefixAll(RenameAll(keys, m), path) ensures k in RenameAll(PrefixAll(keys, path), m) {
      var x :| x in keys && k == Prefixed(Rename(x, m), path);
      assert Prefixed(x, path) in PrefixAll(keys, path);
    }
    forall k | k in RenameAll(PrefixAll(keys, path), m) ensures k in PrefixAll(RenameAll(keys, m), path) {
      var x :| x in keys && k == Rename(Prefixed(x, path), m);
      assert Rename(x, m) in RenameAll(keys, m);
    }
  }

  lemma {:induction false} RescopeKeys(ops: seq<Op>, path: seq<string>)
    ensures Keys(RescopeOps(ops, path)) == PrefixAll(Keys(ops), path)
  {
    if ops != [] {
      var n := |ops| - 1;
      RescopeKeys(ops[..n], path);
      RescopeKeysOfOp(ops[n], path);
      PrefixAllUnion(Keys(ops[..n]), KeysOfOp(ops[n]), path);
      assert RescopeOps(ops, path)[..|RescopeOps(ops, path)| - 1] == RescopeOps(ops[..n], path);
    }
  }

  lemma RescopeKeysOfOp(op: Op, path: seq<string>)
    ensures KeysOfOp(RescopeOp(op, path)) == PrefixAll(KeysOfOp(op), path)
  {
    match op
    case Gate(_, _) =>
    case Measure(k) =>
    case Sub(c) =>
      var indexed := IndexedKeys(c);
      PrefixTwice(indexed, c.parentPath, path);
      RenamePrefixCommute(PrefixAll(indexed, c.parentPath), c.keyMap, path);
  }

  // The keys before the parent path and the key map are applied.
  function IndexedKeys(c: CircuitOp): set<Key> {
    var keys := Keys(c.circuit);
    if keys != {} && c.useRepetitionIds && c.repetitionIds.Some? then Indexed(keys, c.repetitionIds.value) else keys
  }

  lemma {:induction false} IndexedNames(keys: set<Key>, ids: seq<string>)
    ensures Names(Indexed(keys, ids)) <= Names(keys)
  {
    if ids != [] {
      IndexedNames(keys, ids[..|ids| - 1]);
    }
  }

  // with_measurement_key_mapping on a subcircuit renames exactly the keys it reports.
  lemma RenameSubKeys(c: CircuitOp, m: map<string, KeyName>)
    ensures MeasurementKeys(c.(keyMap := ComposeMaps(Names(Keys(c.circuit)), c.keyMap, m)))
         == RenameAll(MeasurementKeys(c), m)
  {
    var names := Names(Keys(c.circuit));
    var scoped := PrefixAll(IndexedKeys(c), c.parentPath);
    if c.repetitionIds.Some? { IndexedNames(Keys(c.circuit), c.repetitionIds.value); }
    RenameComposed(scoped, names, c.keyMap, m);
  }

  lemma RenameKeysOfOp(op: Op, m: map<string, KeyName>)
    requires RenameOp(op, m).Some?
    ensures KeysOfOp(RenameOp(op, m).value) == RenameAll(KeysOfOp(op), m)
  {
    match op
    case Gate(_, _) =>
    case Measure(k) =>
    case Sub(c) => RenameSubKeys(c, m);
  }

  lemma RenameComposed(keys: set<Key>, names: set<KeyName>, first: map<string, KeyName>, second: map<string, KeyName>)
    requires Names(keys) <= names
    ensures RenameAll(keys, ComposeMaps(names, first, second)) == RenameAll(RenameAll(keys, first), second)
  {
    var composed := ComposeMaps(names, first, second);
    forall k | k in keys
      ensures Rename(k, composed) == Rename(Rename(k, first), second)
    {
      assert k.name in Names(keys);
    }
    forall k | k in RenameAll(keys, composed) ensures k in RenameAll(RenameAll(keys, first), second) {
      var x :| x in keys && k == Rename(x, composed);
      assert Rename(x, first) in RenameAll(keys, first);
    }
  }

  lemma {:induction false} RenameKeys(ops: seq<Op>, m: map<string, KeyName>)
    requires RenameOps(ops, m).Some?
    ensures Keys(RenameOps(ops, m).value) == RenameAll(Keys(ops), m)
  {
    if ops != [] {
      var n := |ops| - 1;
      RenameKeys(ops[..n], m);
      RenameKeysOfOp(ops[n], m);
      RenameAllUnion(Keys(ops[..n]), KeysOfOp(ops[n]), m);
      var r := RenameOps(ops, m).value;
      assert r[..|r| - 1] == RenameOps(ops[..n], m).value;
    }
  }

  lemma {:induction false} KeysConcat(a: seq<Op>, b: seq<Op>)
    ensures Keys(a + b) == Keys(a) + Keys(b)
  {
    if b == [] {
      assert a + b == a;
    } else {
      KeysConcat(a, b[..|b| - 1]);
      assert (a + b)[..|a + b| - 1] == a + b[..|b| - 1];
    }
  }

  lemma {:induction false} InverseKeys(ops: seq<Op>)
    requires Inverse(ops).Some?
    ensures Keys(Inverse(ops).value) == Keys(ops)
  {
    if ops != [] {
      var n := |ops| - 1;
      var o := InverseOp(ops[n]).value;
      InverseKeys(ops[..n]);
      KeysConcat([o], Inverse(ops[..n]).value);
      assert KeysOfOp(o) == KeysOfOp(ops[n]);
      assert Keys([o]) == Keys([]) + KeysOfOp(o) by { assert [o][..0] == []; }
    }
  }

  lemma {:induction false} TimesKeys(ops: seq<Op>, n: nat)
    ensures Keys(Times(ops, n)) == if n == 0 then {} else Keys(ops)
  {
    if n > 0 {
      TimesKeys(ops, n - 1);
      KeysConcat(Times(ops, n - 1), ops);
    }
  }

  // ----- The keys of the expansion -----

  lemma AnyLoopKeys(c: CircuitOp)
    requires AnyLoop(c).Some?
    ensures Keys(AnyLoop(c).value) == RenameAll(Keys(c.circuit), c.keyMap)
  {
    if c.repetitions < 0 { InverseKeys(c.circuit); }
    var ops := if c.repetitions < 0 then Inverse(c.circuit).value else c.circuit;
    if c.keyMap == map[] {
      assert RenameAll(Keys(c.circuit), map[]) == Keys(c.circuit) by {
        forall k | k in Keys(c.circuit) ensures Rename(k, map[]) == k {}
      }
    } else {
      RenameKeys(ops, c.keyMap);
    }
  }

  // The keys one loop contributes under an id, empty ids adding nothing.
  function KeysUnderId(c: CircuitOp, id: Option<string>): set<Key> {
    var keys := if id.Some? && id.value != "" then PrefixAll(Keys(c.circuit), [id.value]) else Keys(c.circuit);
    RenameAll(PrefixAll(keys, c.parentPath), c.keyMap)
  }

  lemma SingleLoopKeys(c: CircuitOp, id: Option<string>)
    requires SingleLoop(c, id).Some?
    ensures Keys(SingleLoop(c, id).value) == KeysUnderId(c, id)
  {
    var ops := AnyLoop(c).value;
    AnyLoopKeys(c);
    if id.Some? && id.value != "" {
      RescopeKeys(ops, [id.value]);
      RescopeKeys(RescopeOps(ops, [id.value]), c.parentPath);
      RenamePrefixCommute(Keys(c.circuit), c.keyMap, [id.value]);
      RenamePrefixCommute(PrefixAll(Keys(c.circuit), [id.value]), c.keyMap, c.parentPath);
    } else {
      RescopeKeys(ops, c.parentPath);
      RenamePrefixCommute(Keys(c.circuit), c.keyMap, c.parentPath);
    }
  }

  function KeysUnderIds(c: CircuitOp, ids: seq<string>): set<Key> {
    if ids == [] then {} else KeysUnderIds(c, ids[..|ids| - 1]) + KeysUnderId(c, Some(ids[|ids| - 1]))
  }

  lemma {:induction false} LoopPerIdKeys(c: CircuitOp, ids: seq<string>)
    requires LoopPerId(c, ids).Some?
    ensures Keys(LoopPerId(c, ids).value) == KeysUnderIds(c, ids)
  {
    if ids != [] {
      var n := |ids| - 1;
      LoopPerIdKeys(c, ids[..n]);
      SingleLoopKeys(c, Some(ids[n]));
      KeysConcat(LoopPerId(c, ids[..n]).value, SingleLoop(c, Some(ids[n])).value);
    }
  }

  // With no empty id, the loops contribute what the summary predicts.
  lemma {:induction false} SummaryOfIds(c: CircuitOp, ids: seq<string>)
    requires "" !in ids
    ensures KeysUnderIds(c, ids) == RenameAll(PrefixAll(Indexed(Keys(c.circuit), ids), c.parentPath), c.keyMap)
  {
    if ids != [] {
      var n := |ids| - 1;
      var keys := Keys(c.circuit);
      SummaryOfIds(c, ids[..n]);
      PrefixAllUnion(Indexed(keys, ids[..n]), PrefixAll(keys, [ids[n]]), c.parentPath);
      RenameAllUnion(PrefixAll(Indexed(keys, ids[..n]), c.parentPath),
                     PrefixAll(PrefixAll(keys, [ids[n]]), c.parentPath), c.keyMap);
    }
  }

  // The operation at a path of positions, each inside the subcircuit found so far, measures.
  predicate MeasuresAt(ops: seq<Op>, path: seq<nat>)
    decreases |path|
  {
    && path != [] && path[0] < |ops|
    && match ops[path[0]]
       case Gate(_, _) => false
       case Measure(_) => |path| == 1
       case Sub(c) => MeasuresAt(c.circuit, path[1..])
  }

  ghost predicate MeasuresSomewhere(ops: seq<Op>) {
    exists path :: MeasuresAt(ops, path)
  }

  lemma {:induction false} MeasurementFound(ops: seq<Op>) returns (path: seq<nat>)
    requires IsMeasurement(ops)
    ensures MeasuresAt(ops, path)
    decreases ops, 0
  {
    var last := |ops| - 1;
    if IsMeasurement(ops[..last]) {
      path := MeasurementFound(ops[..last]);
    } else {
      path := MeasurementFoundIn(ops[last]);
      assert ([last] + path)[1..] == path;
      path := [last] + path;
    }
  }

  lemma {:induction false} MeasurementFoundIn(op: Op) returns (inner: seq<nat>)
    requires IsMeasurementOp(op)
    ensures if op.Sub? then MeasuresAt(op.c.circuit, inner) else op.Measure? && inner == []
    decreases op, 0
  {
    if op.Sub? {
      inner := MeasurementFound(op.c.circuit);
    } else {
      inner := [];
    }
  }

  lemma {:induction false} MeasurementCounts(ops: seq<Op>, path: seq<nat>)
    requires MeasuresAt(ops, path)
    ensures IsMeasurement(ops)
    decreases |path|, |ops|
  {
    var last := |ops| - 1;
    if path[0] < last {
      assert MeasuresAt(ops[..last], path);
      MeasurementCounts(ops[..last], path);
    } else {
      match ops[last]
      case Measure(_) =>
      case Sub(c) => MeasurementCounts(c.circuit, path[1..]);
    }
  }

  // A circuit measures exactly when some operation does, at any depth.
  lemma IsMeasurementIff(ops: seq<Op>)
    ensures IsMeasurement(ops) <==> MeasuresSomewhere(ops)
  {
    if IsMeasurement(ops) {
      var path := MeasurementFound(ops);
      assert MeasuresAt(ops, path);
    }
    if MeasuresSomewhere(ops) {
      var path :| MeasuresAt(ops, path);
      MeasurementCounts(ops, path);
    }
  }

  lemma {:induction false} KeysMeanMeasurement(ops: seq<Op>)
    requires Keys(ops) != {}
    ensures IsMeasurement(ops)
    decreases ops, 0
  {
    var n := |ops| - 1;
    if Keys(ops[..n]) != {} {
      KeysMeanMeasurement(ops[..n]);
    } else {
      KeysMeanMeasurementOp(ops[n]);
    }
  }

  lemma {:induction false} KeysMeanMeasurementOp(op: Op)
    requires KeysOfOp(op) != {}
    ensures IsMeasurementOp(op)
    decreases op, 0
  {
    if op.Sub? {
      var k :| k in MeasurementKeys(op.c);
      assert Keys(op.c.circuit) != {};
      KeysMeanMeasurement(op.c.circuit);
    }
  }

  // Ids are in use: they decide the copies.
  predicate Indexes(c: CircuitOp) {
    c.useRepetitionIds && c.repetitionIds.Some?
  }

  // A caller's check: with ids in use none may be empty; without, the circuit must run at all.
  predicate Consistent(c: CircuitOp) {
    Keys(c.circuit) == {} || (if Indexes(c) then "" !in c.repetitionIds.value else c.repetitions != 0)
  }

  lemma NoKeys(c: CircuitOp, ids: seq<string>)
    requires Keys(c.circuit) == {}
    ensures MeasurementKeys(c) == {} && KeysUnderId(c, None) == {} && KeysUnderIds(c, ids) == {}
    decreases |ids|
  {
    forall path: seq<string> ensures PrefixAll({}, path) == {} {}
    assert RenameAll({}, c.keyMap) == {};
    if ids != [] { NoKeys(c, ids[..|ids| - 1]); }
  }

  lemma ConsistentKeys(c: CircuitOp)
    requires Valid(c) && MappedCircuit(c).Some? && Consistent(c)
    ensures Keys(MappedCircuit(c).value) == MeasurementKeys(c)
  {
    var keys := Keys(c.circuit);
    if keys == {} {
      NoKeys(c, if c.repetitionIds.Some? then c.repetitionIds.value else []);
    } else {
      KeysMeanMeasurement(c.circuit);
    }
    if Indexes(c) && keys != {} { SummaryOfIds(c, c.repetitionIds.value); }
    if c.repetitions == 0 {
      if keys != {} {
        assert c.repetitionIds.value == [];
      }
    } else if Indexes(c) && IsMeasurement(c.circuit) {
      LoopPerIdKeys(c, c.repetitionIds.value);
    } else {
      SingleLoopKeys(c, None);
      TimesKeys(SingleLoop(c, None).value, Abs(c.repetitions));
    }
  }

  // ----- When the summary is wrong -----

  lemma {:induction false} ShortestText(keys: set<Key>, m: map<string, KeyName>) returns (k: Key)
    requires keys != {}
    ensures k in keys && forall x :: x in keys ==> |KeyText(Rename(k, m))| <= |KeyText(Rename(x, m))|
    decreases |keys|
  {
    var y :| y in keys;
    if keys == {y} {
      k := y;
    } else {
      assert keys == keys - {y} + {y};
      k := ShortestText(keys - {y}, m);
      if |KeyText(Rename(y, m))| < |KeyText(Rename(k, m))| { k := y; }
    }
  }

  // Every id adds at least the separator.
  lemma {:induction false} IndexedLonger(keys: set<Key>, ids: seq<string>, m: map<string, KeyName>, low: nat, k: Key)
    requires forall x :: x in keys ==> low <= |KeyText(Rename(x, m))|
    requires k in Indexed(keys, ids)
    ensures low < |KeyText(Rename(k, m))|
  {
    hide KeyText;
    if k in Indexed(keys, ids[..|ids| - 1]) {
      IndexedLonger(keys, ids[..|ids| - 1], m, low, k);
    } else {
      var id := ids[|ids| - 1];
      var x :| x in keys && k == Prefixed(x, [id]);
      PrefixedText(Rename(x, m), [id]);
    }
  }

  lemma {:induction false} EmptyIdKeepsKeys(c: CircuitOp, ids: seq<string>)
    requires "" in ids
    ensures KeysUnderId(c, None) <= KeysUnderIds(c, ids)
  {
    if ids[|ids| - 1] != "" {
      EmptyIdKeepsKeys(c, ids[..|ids| - 1]);
    }
  }

  // An empty id leaves a key in the circuit whose text is shorter than any the summary knows.
  lemma EmptyIdBreaksSummary(c: CircuitOp)
    requires Valid(c) && MappedCircuit(c).Some? && Keys(c.circuit) != {} && Indexes(c) && "" in c.repetitionIds.value
    ensures Texts(Keys(MappedCircuit(c).value)) != Texts(MeasurementKeys(c))
  {
    hide KeyText;
    var keys, ids := Keys(c.circuit), c.repetitionIds.value;
    KeysMeanMeasurement(c.circuit);
    LoopPerIdKeys(c, ids);
    EmptyIdKeepsKeys(c, ids);
    var k := ShortestText(keys, c.keyMap);
    var seen := Rename(Prefixed(k, c.parentPath), c.keyMap);
    assert Prefixed(k, c.parentPath) in PrefixAll(keys, c.parentPath);
    assert seen in Keys(MappedCircuit(c).value);
    PrefixedText(Rename(k, c.keyMap), c.parentPath);
    if KeyText(seen) in Texts(MeasurementKeys(c)) {
      SummaryLonger(c, |KeyText(Rename(k, c.keyMap))|, KeyText(seen));
    }
  }

  lemma SummaryLonger(c: CircuitOp, low: nat, t: string)
    requires Keys(c.circuit) != {} && Indexes(c) && t in Texts(MeasurementKeys(c))
    requires forall x :: x in Keys(c.circuit) ==> low <= |KeyText(Rename(x, c.keyMap))|
    ensures |PathText(c.parentPath)| + low < |t|
  {
    hide KeyText;
    var indexed := Indexed(Keys(c.circuit), c.repetitionIds.value);
    var x :| x in PrefixAll(indexed, c.parentPath) && t == KeyText(Rename(x, c.keyMap));
    var y :| y in indexed && x == Prefixed(y, c.parentPath);
    IndexedLonger(Keys(c.circuit), c.repetitionIds.value, c.keyMap, low, y);
    PrefixedText(Rename(y, c.keyMap), c.parentPath);
  }

  // The summary of the measurement keys agrees with the expanded circuit exactly when the
  // caller's check holds, whether keys are compared by path and name or by text.
  lemma SummaryMatchesExpansion(c: CircuitOp)
    requires Valid(c) && MappedCircuit(c).Some?
    ensures Keys(MappedCircuit(c).value) == MeasurementKeys(c) <==> Consistent(c)
    ensures Texts(Keys(MappedCircuit(c).value)) == Texts(MeasurementKeys(c)) <==> Consistent(c)
  {
    hide KeyText;
    if Consistent(c) {
      ConsistentKeys(c);
    } else if Indexes(c) {
      EmptyIdBreaksSummary(c);
    } else {
      var k :| k in Keys(c.circuit);
      var seen := Rename(Prefixed(k, c.parentPath), c.keyMap);
      assert Prefixed(k, c.parentPath) in PrefixAll(Keys(c.circuit), c.parentPath);
      assert seen in MeasurementKeys(c) && KeyText(seen) in Texts(MeasurementKeys(c));
      assert Texts({}) == {};
    }
  }
}
