// The order of an expansion: which operation stands at which place, and in which order the
// measurement keys come, through any nesting.
module CircuitOrder {
  import opened Prelude
  import opened MeasurementKey
  import opened CircuitOperation
  import opened CircuitKeys
  import opened CircuitNesting

  // ----- Every operation of an expansion -----

  // The path an id adds: an empty id adds none.
  function IdPath(id: string): seq<string> {
    if id == "" then [] else [id]
  }

  // What an operation of the circuit becomes in a loop of c: its inverse for a negative count,
  // renamed by the key map of c, under the parent path of c and the path of the id.
  ghost predicate PlacedAs(op: Op, placed: Op, c: CircuitOp, path: seq<string>) {
    match op
    case Gate(id, inverted) => placed == Gate(id, if c.repetitions < 0 then !inverted else inverted)
    case Measure(k) =>
      && c.repetitions >= 0
      && placed == Measure(Key(c.parentPath + path + k.path, if k.name in c.keyMap then c.keyMap[k.name] else k.name))
    case Sub(d) =>
      && placed.Sub?
      && placed.c.circuit == d.circuit
      && placed.c.repetitions == (if c.repetitions < 0 then -d.repetitions else d.repetitions)
      && placed.c.repetitionIds == d.repetitionIds && placed.c.useRepetitionIds == d.useRepetitionIds
      && placed.c.parentPath == c.parentPath + path + d.parentPath
      && forall n :: n in Names(Keys(d.circuit)) ==>
        NewName(placed.c.keyMap, n) == NewName(c.keyMap, NewName(d.keyMap, n))
  }

  function NewName(m: map<string, KeyName>, n: KeyName): KeyName {
    if n in m then m[n] else n
  }

  lemma {:induction false} InverseAt(ops: seq<Op>, j: nat)
    requires Inverse(ops).Some? && j < |ops|
    ensures |Inverse(ops).value| == |ops| && InverseOp(ops[|ops| - 1 - j]).Some?
    ensures Inverse(ops).value[j] == InverseOp(ops[|ops| - 1 - j]).value
  {
    hide InverseOp;
    var n := |ops| - 1;
    if ops[..n] == [] {
      assert Inverse(ops[..n]) == Some([]);
    } else if j > 0 {
      InverseAt(ops[..n], j - 1);
    } else {
      InverseAt(ops[..n], 0);
    }
  }

  lemma {:induction false} RenameAt(ops: seq<Op>, m: map<string, KeyName>, j: nat)
    requires RenameOps(ops, m).Some? && j < |ops|
    ensures |RenameOps(ops, m).value| == |ops| && RenameOp(ops[j], m).Some?
    ensures RenameOps(ops, m).value[j] == RenameOp(ops[j], m).value
  {
    hide RenameOp;
    var n := |ops| - 1;
    if ops[..n] == [] {
      assert RenameOps(ops[..n], m) == Some([]);
    } else if j < n {
      RenameAt(ops[..n], m, j);
    } else {
      RenameAt(ops[..n], m, 0);
    }
  }

  lemma {:induction false} RescopeAt(ops: seq<Op>, path: seq<string>)
    ensures |RescopeOps(ops, path)| == |ops|
    ensures forall j :: 0 <= j < |ops| ==> RescopeOps(ops, path)[j] == RescopeOp(ops[j], path)
  {
    if ops != [] {
      RescopeAt(ops[..|ops| - 1], path);
    }
  }

  // The operation of the circuit that ends up at place j of a loop.
  function Origin(c: CircuitOp, j: nat): Op
    requires j < |c.circuit|
  {
    if c.repetitions < 0 then c.circuit[|c.circuit| - 1 - j] else c.circuit[j]
  }

  lemma RenamedPlace(op: Op, inverse: Op, c: CircuitOp)
    requires if c.repetitions < 0 then InverseOp(op) == Some(inverse) else inverse == op
    requires RenameOp(inverse, c.keyMap).Some?
    ensures PlacedAs(op, RenameOp(inverse, c.keyMap).value, c.(parentPath := []), [])
  {
    hide Keys, KeyText, Inverse;
    if op.Measure? {
      assert [] + [] + op.key.path == op.key.path;
    } else if op.Sub? {
      assert [] + [] + op.c.parentPath == op.c.parentPath;
    }
  }

  lemma UnmappedPlace(op: Op, inverse: Op, c: CircuitOp)
    requires if c.repetitions < 0 then InverseOp(op) == Some(inverse) else inverse == op
    requires c.keyMap == map[]
    ensures PlacedAs(op, inverse, c.(parentPath := []), [])
  {
    hide Keys, KeyText, Inverse;
    if op.Measure? {
      assert [] + [] + op.key.path == op.key.path;
    } else if op.Sub? {
      assert [] + [] + op.c.parentPath == op.c.parentPath;
    }
  }

  lemma {:induction false} AnyLoopAt(c: CircuitOp, j: nat)
    requires AnyLoop(c).Some? && j < |c.circuit|
    ensures |AnyLoop(c).value| == |c.circuit|
    ensures PlacedAs(Origin(c, j), AnyLoop(c).value[j], c.(parentPath := []), [])
  {
    hide PlacedAs, RenameOp, InverseOp;
    if c.repetitions < 0 { InverseAt(c.circuit, j); }
    var base := if c.repetitions < 0 then Inverse(c.circuit).value else c.circuit;
    if c.keyMap == map[] {
      UnmappedPlace(Origin(c, j), base[j], c);
    } else {
      RenameAt(base, c.keyMap, j);
      RenamedPlace(Origin(c, j), base[j], c);
    }
  }

  // A path in front of an operation already placed.
  lemma RescopedPlace(op: Op, placed: Op, c: CircuitOp, path: seq<string>)
    requires PlacedAs(op, placed, c.(parentPath := []), [])
    ensures PlacedAs(op, RescopeOp(placed, c.parentPath + path), c, path)
  {
    hide Keys;
    if op.Measure? {
      assert [] + [] + op.key.path == op.key.path;
    } else if op.Sub? {
      assert [] + [] + op.c.parentPath == op.c.parentPath;
    }
  }

  lemma RescopeTwice(op: Op, inner: seq<string>, outer: seq<string>)
    ensures RescopeOp(RescopeOp(op, inner), outer) == RescopeOp(op, outer + inner)
  {
    if op.Measure? {
      assert outer + (inner + op.key.path) == outer + inner + op.key.path;
    } else if op.Sub? {
      assert outer + (inner + op.c.parentPath) == outer + inner + op.c.parentPath;
    }
  }

  lemma {:induction false} SingleLoopAt(c: CircuitOp, id: Option<string>, j: nat)
    requires SingleLoop(c, id).Some? && j < |c.circuit|
    ensures |SingleLoop(c, id).value| == |c.circuit|
    ensures PlacedAs(Origin(c, j), SingleLoop(c, id).value[j], c, if id.Some? then IdPath(id.value) else [])
  {
    hide PlacedAs, RescopeOp, AnyLoop;
    var ops := AnyLoop(c).value;
    AnyLoopAt(c, j);
    var path := if id.Some? then IdPath(id.value) else [];
    RescopedPlace(Origin(c, j), ops[j], c, path);
    if path == [] {
      RescopeAt(ops, c.parentPath);
      assert c.parentPath + [] == c.parentPath;
    } else {
      RescopeAt(ops, path);
      RescopeAt(RescopeOps(ops, path), c.parentPath);
      RescopeTwice(ops[j], path, c.parentPath);
    }
  }

  lemma SingleLoopLength(c: CircuitOp, id: Option<string>)
    requires SingleLoop(c, id).Some?
    ensures |SingleLoop(c, id).value| == |c.circuit|
  {
    if c.circuit == [] {
      assert AnyLoop(c) == Some([]);
    } else {
      SingleLoopAt(c, id, 0);
    }
  }

  lemma Blocks(i: nat, j: nat, n: nat, m: nat)
    requires i < m && j < n
    ensures 0 <= i * n + j < m * n
  {
    assert (m - 1 - i) * n >= 0;
    assert m * n == (m - 1 - i) * n + i * n + n;
  }

  lemma {:induction false} LoopPerIdAt(c: CircuitOp, ids: seq<string>, i: nat, j: nat)
    requires LoopPerId(c, ids).Some? && i < |ids| && j < |c.circuit|
    ensures |LoopPerId(c, ids).value| == |ids| * |c.circuit| && i * |c.circuit| + j < |LoopPerId(c, ids).value|
    ensures PlacedAs(Origin(c, j), LoopPerId(c, ids).value[i * |c.circuit| + j], c, IdPath(ids[i]))
  {
    hide PlacedAs, SingleLoop;
    var n, w := |ids| - 1, |c.circuit|;
    var last := SingleLoop(c, Some(ids[n])).value;
    SingleLoopLength(c, Some(ids[n]));
    Blocks(i, j, w, |ids|);
    assert |ids| * w == n * w + w;
    if n > 0 {
      LoopPerIdAt(c, ids[..n], if i < n then i else 0, j);
    } else {
      assert LoopPerId(c, ids[..n]) == Some([]);
    }
    if i == n {
      SingleLoopAt(c, Some(ids[n]), j);
    }
  }

  lemma {:induction false} TimesAt(ops: seq<Op>, m: nat, i: nat, j: nat)
    requires i < m && j < |ops|
    ensures |Times(ops, m)| == m * |ops| && i * |ops| + j < |Times(ops, m)|
    ensures Times(ops, m)[i * |ops| + j] == ops[j]
  {
    Blocks(i, j, |ops|, m);
    assert m * |ops| == (m - 1) * |ops| + |ops|;
    if m > 1 {
      TimesAt(ops, m - 1, if i < m - 1 then i else 0, j);
    } else {
      assert Times(ops, 0) == [];
    }
  }

  // The path of repetition i.
  function PathOf(c: CircuitOp, i: nat): seq<string>
    requires Indexes(c) && IsMeasurement(c.circuit) ==> i < |c.repetitionIds.value|
  {
    if Indexes(c) && IsMeasurement(c.circuit) then IdPath(c.repetitionIds.value[i]) else []
  }

  // Place i * n + j of the expansion holds what operation j becomes in repetition i.
  lemma {:induction false} MappedAt(c: CircuitOp, i: nat, j: nat)
    requires Valid(c) && MappedCircuit(c).Some? && i < Abs(c.repetitions) && j < |c.circuit|
    ensures |MappedCircuit(c).value| == Abs(c.repetitions) * |c.circuit|
    ensures i * |c.circuit| + j < |MappedCircuit(c).value|
    ensures PlacedAs(Origin(c, j), MappedCircuit(c).value[i * |c.circuit| + j], c, PathOf(c, i))
  {
    hide PlacedAs, SingleLoop, LoopPerId, Times, IsMeasurement, Inverse;
    if Indexes(c) && IsMeasurement(c.circuit) {
      LoopPerIdAt(c, c.repetitionIds.value, i, j);
    } else {
      SingleLoopAt(c, None, j);
      TimesAt(SingleLoop(c, None).value, Abs(c.repetitions), i, j);
    }
  }

  // ----- The measurement keys, in order -----

  // What a key of the circuit becomes in a loop of c.
  function PlacedKey(k: Key, c: CircuitOp, path: seq<string>): Key {
    Key(c.parentPath + path + k.path, if k.name in c.keyMap then c.keyMap[k.name] else k.name)
  }

  function PlacedRow(row: seq<Key>, c: CircuitOp, path: seq<string>): (r: seq<Key>)
    ensures |r| == |row| && forall j :: 0 <= j < |row| ==> r[j] == PlacedKey(row[j], c, path)
  {
    seq(|row|, j requires 0 <= j < |row| => PlacedKey(row[j], c, path))
  }

  function RowPerId(row: seq<Key>, c: CircuitOp, ids: seq<string>): seq<Key> {
    if ids == [] then [] else RowPerId(row, c, ids[..|ids| - 1]) + PlacedRow(row, c, IdPath(ids[|ids| - 1]))
  }

  function RowTimes(row: seq<Key>, n: nat): seq<Key> {
    if n == 0 then [] else RowTimes(row, n - 1) + row
  }

  // The keys a circuit measures, in order, subcircuits unrolled where they stand.
  function KeyRow(ops: seq<Op>): seq<Key>
    decreases ops, 0
  {
    if ops == [] then [] else KeyRow(ops[..|ops| - 1]) + RowOfOp(ops[|ops| - 1])
  }

  function RowOfOp(op: Op): seq<Key>
    decreases op, 0
  {
    match op
    case Gate(_, _) => []
    case Measure(k) => [k]
    case Sub(c) => RowOfSub(c)
  }

  function RowOfSub(c: CircuitOp): seq<Key>
    decreases c, 0
  {
    var row := KeyRow(c.circuit);
    if c.repetitions == 0 then []
    else if Indexes(c) && IsMeasurement(c.circuit) then RowPerId(row, c, c.repetitionIds.value)
    else RowTimes(PlacedRow(row, c, []), Abs(c.repetitions))
  }

  lemma {:induction false} RowConcat(a: seq<Op>, b: seq<Op>)
    ensures KeyRow(a + b) == KeyRow(a) + KeyRow(b)
  {
    hide RowOfOp;
    if b == [] {
      assert a + b == a;
    } else {
      var n := |b| - 1;
      RowConcat(a, b[..n]);
      assert (a + b)[..|a + b| - 1] == a + b[..n];
      ConcatAssociates(KeyRow(a), KeyRow(b[..n]), RowOfOp(b[n]));
    }
  }

  lemma RowOfOne(op: Op)
    ensures KeyRow([op]) == RowOfOp(op) && KeyRow([]) == []
  {
    hide RowOfOp;
    assert [op][..0] == [];
    assert [] + RowOfOp(op) == RowOfOp(op);
  }

  lemma {:induction false} RowTimesAt(row: seq<Key>, m: nat, i: nat, j: nat)
    requires i < m && j < |row|
    ensures |RowTimes(row, m)| == m * |row| && i * |row| + j < |RowTimes(row, m)|
    ensures RowTimes(row, m)[i * |row| + j] == row[j]
  {
    Blocks(i, j, |row|, m);
    assert m * |row| == (m - 1) * |row| + |row|;
    if m > 1 {
      RowTimesAt(row, m - 1, if i < m - 1 then i else 0, j);
    } else {
      assert RowTimes(row, 0) == [];
    }
  }

  lemma {:induction false} RowPerIdAt(row: seq<Key>, c: CircuitOp, ids: seq<string>, i: nat, j: nat)
    requires i < |ids| && j < |row|
    ensures |RowPerId(row, c, ids)| == |ids| * |row| && i * |row| + j < |RowPerId(row, c, ids)|
    ensures RowPerId(row, c, ids)[i * |row| + j] == PlacedKey(row[j], c, IdPath(ids[i]))
  {
    hide PlacedKey, IdPath;
    var n, w := |ids| - 1, |row|;
    Blocks(i, j, w, |ids|);
    assert |ids| * w == n * w + w;
    if n > 0 {
      RowPerIdAt(row, c, ids[..n], if i < n then i else 0, j);
    } else {
      assert RowPerId(row, c, ids[..n]) == [];
    }
  }

  // Place i * p + j of a subcircuit's row is the j-th of the p keys of its circuit, in repetition i.
  lemma {:induction false} SubRowAt(c: CircuitOp, i: nat, j: nat)
    requires Valid(c) && i < Abs(c.repetitions) && j < |KeyRow(c.circuit)|
    ensures |RowOfSub(c)| == Abs(c.repetitions) * |KeyRow(c.circuit)|
    ensures i * |KeyRow(c.circuit)| + j < |RowOfSub(c)|
    ensures RowOfSub(c)[i * |KeyRow(c.circuit)| + j] == PlacedKey(KeyRow(c.circuit)[j], c, PathOf(c, i))
  {
    hide PlacedKey, RowPerId, RowTimes, KeyRow, IsMeasurement, IdPath, Inverse;
    var row := KeyRow(c.circuit);
    if Indexes(c) && IsMeasurement(c.circuit) {
      RowPerIdAt(row, c, c.repetitionIds.value, i, j);
    } else {
      RowTimesAt(PlacedRow(row, c, []), Abs(c.repetitions), i, j);
    }
  }

  // ----- Renaming and rescoping, in order -----

  function RenamedRow(row: seq<Key>, m: map<string, KeyName>): (r: seq<Key>)
    ensures |r| == |row| && forall j :: 0 <= j < |row| ==> r[j] == Rename(row[j], m)
  {
    seq(|row|, j requires 0 <= j < |row| => Rename(row[j], m))
  }

  function PrefixedRow(row: seq<Key>, path: seq<string>): (r: seq<Key>)
    ensures |r| == |row| && forall j :: 0 <= j < |row| ==> r[j] == Prefixed(row[j], path)
  {
    seq(|row|, j requires 0 <= j < |row| => Prefixed(row[j], path))
  }

  lemma {:induction false} PrefixPerId(row: seq<Key>, c: CircuitOp, ids: seq<string>, path: seq<string>)
    ensures RowPerId(row, c.(parentPath := path + c.parentPath), ids) == PrefixedRow(RowPerId(row, c, ids), path)
  {
    if ids != [] {
      var n := |ids| - 1;
      PrefixPerId(row, c, ids[..n], path);
      PrefixPlaced(row, c, IdPath(ids[n]), path);
    }
  }

  lemma PrefixPlaced(row: seq<Key>, c: CircuitOp, inner: seq<string>, path: seq<string>)
    ensures PlacedRow(row, c.(parentPath := path + c.parentPath), inner) == PrefixedRow(PlacedRow(row, c, inner), path)
  {
    forall j | 0 <= j < |row|
      ensures PlacedKey(row[j], c.(parentPath := path + c.parentPath), inner)
           == Prefixed(PlacedKey(row[j], c, inner), path)
    {
      assert path + c.parentPath + inner + row[j].path == path + (c.parentPath + inner + row[j].path);
    }
  }

  lemma {:induction false} PrefixTimes(row: seq<Key>, n: nat, path: seq<string>)
    ensures RowTimes(PrefixedRow(row, path), n) == PrefixedRow(RowTimes(row, n), path)
  {
    if n > 0 { PrefixTimes(row, n - 1, path); }
  }

  lemma RescopeRowOfOp(op: Op, path: seq<string>)
    ensures RowOfOp(RescopeOp(op, path)) == PrefixedRow(RowOfOp(op), path)
  {
    match op
    case Gate(_, _) =>
    case Measure(k) =>
    case Sub(c) =>
      hide KeyRow, IsMeasurement, RowPerId, RowTimes;
      var row := KeyRow(c.circuit);
      if c.repetitions == 0 {
      } else if Indexes(c) && IsMeasurement(c.circuit) {
        PrefixPerId(row, c, c.repetitionIds.value, path);
      } else {
        PrefixPlaced(row, c, [], path);
        PrefixTimes(PlacedRow(row, c, []), Abs(c.repetitions), path);
      }
  }

  lemma {:induction false} RescopeRow(ops: seq<Op>, path: seq<string>)
    ensures KeyRow(RescopeOps(ops, path)) == PrefixedRow(KeyRow(ops), path)
  {
    if ops != [] {
      hide RowOfOp, RescopeOp;
      var n := |ops| - 1;
      RescopeRow(ops[..n], path);
      RescopeRowOfOp(ops[n], path);
      RowConcat(RescopeOps(ops[..n], path), [RescopeOp(ops[n], path)]);
      RowOfOne(RescopeOp(ops[n], path));
    }
  }

  // Every key in the row has a name the summary knows.
  ghost predicate NamesKnown(row: seq<Key>, keys: set<Key>) {
    forall j :: 0 <= j < |row| ==> row[j].name in Names(keys)
  }

  lemma NamesUnion(a: set<Key>, b: set<Key>)
    ensures Names(a + b) == Names(a) + Names(b)
  {
  }

  lemma {:induction false} KnownRow(ops: seq<Op>)
    ensures NamesKnown(KeyRow(ops), Keys(ops))
    decreases ops, 0
  {
    if ops != [] {
      hide RowOfOp, KeysOfOp, Names;
      var n := |ops| - 1;
      KnownRow(ops[..n]);
      KnownRowOfOp(ops[n]);
      NamesUnion(Keys(ops[..n]), KeysOfOp(ops[n]));
    }
  }

  lemma {:induction false} KnownRowOfOp(op: Op)
    ensures NamesKnown(RowOfOp(op), KeysOfOp(op))
    decreases op, 0
  {
    match op
    case Gate(_, _) =>
    case Measure(k) =>
      assert k in {k};
    case Sub(c) =>
      hide KeyRow, Keys, IsMeasurement;
      KnownRow(c.circuit);
      KnownSub(c);
  }

  // Every name of the circuit comes back renamed, as soon as there is a repetition.
  lemma NamesOfSub(c: CircuitOp, n: KeyName)
    requires n in Names(Keys(c.circuit)) && (Indexes(c) ==> c.repetitionIds.value != [])
    ensures NewName(c.keyMap, n) in Names(MeasurementKeys(c))
  {
    var k :| k in Keys(c.circuit) && k.name == n;
    var indexed := IndexedKeys(c);
    var p := if Indexes(c) then Prefixed(k, [c.repetitionIds.value[|c.repetitionIds.value| - 1]]) else k;
    assert p in indexed;
    assert Prefixed(p, c.parentPath) in PrefixAll(indexed, c.parentPath);
    assert Rename(Prefixed(p, c.parentPath), c.keyMap) in MeasurementKeys(c);
  }

  lemma {:induction false} PerIdNames(row: seq<Key>, c: CircuitOp, ids: seq<string>, known: set<KeyName>)
    requires ids != [] ==> forall j :: 0 <= j < |row| ==> NewName(c.keyMap, row[j].name) in known
    ensures forall j :: 0 <= j < |RowPerId(row, c, ids)| ==> RowPerId(row, c, ids)[j].name in known
  {
    if ids != [] { PerIdNames(row, c, ids[..|ids| - 1], known); }
  }

  lemma {:induction false} TimesNames(row: seq<Key>, n: nat, known: set<KeyName>)
    requires forall j :: 0 <= j < |row| ==> row[j].name in known
    ensures forall j :: 0 <= j < |RowTimes(row, n)| ==> RowTimes(row, n)[j].name in known
  {
    if n > 0 { TimesNames(row, n - 1, known); }
  }

  lemma KnownSub(c: CircuitOp)
    requires NamesKnown(KeyRow(c.circuit), Keys(c.circuit))
    ensures NamesKnown(RowOfSub(c), MeasurementKeys(c))
  {
    hide KeyRow, Keys, IsMeasurement, RowPerId, RowTimes, MeasurementKeys;
    var row, known := KeyRow(c.circuit), Names(MeasurementKeys(c));
    if c.repetitions == 0 {
    } else if Indexes(c) && IsMeasurement(c.circuit) {
      if c.repetitionIds.value != [] {
        forall j | 0 <= j < |row| ensures NewName(c.keyMap, row[j].name) in known { NamesOfSub(c, row[j].name); }
      }
      PerIdNames(row, c, c.repetitionIds.value, known);
    } else if Indexes(c) {
      NoRow(c.circuit);
      TimesNames(PlacedRow(row, c, []), Abs(c.repetitions), known);
    } else {
      forall j | 0 <= j < |row| ensures NewName(c.keyMap, row[j].name) in known { NamesOfSub(c, row[j].name); }
      TimesNames(PlacedRow(row, c, []), Abs(c.repetitions), known);
    }
  }

  lemma {:induction false} NoRow(ops: seq<Op>)
    requires !IsMeasurement(ops)
    ensures KeyRow(ops) == []
    decreases ops, 0
  {
    if ops != [] {
      NoRow(ops[..|ops| - 1]);
      NoRowOfOp(ops[|ops| - 1]);
    }
  }

  lemma {:induction false} NoRowOfOp(op: Op)
    requires !IsMeasurementOp(op)
    ensures RowOfOp(op) == []
    decreases op, 0
  {
    if op.Sub? {
      NoRow(op.c.circuit);
      EmptyTimes(Abs(op.c.repetitions));
    }
  }

  lemma {:induction false} EmptyTimes(n: nat)
    ensures RowTimes([], n) == []
  {
    if n > 0 { EmptyTimes(n - 1); }
  }

  lemma {:induction false} EmptyPerId(c: CircuitOp, ids: seq<string>)
    ensures RowPerId([], c, ids) == []
  {
    if ids != [] { EmptyPerId(c, ids[..|ids| - 1]); }
  }

  lemma ComposedPlaced(row: seq<Key>, c: CircuitOp, d: CircuitOp, m: map<string, KeyName>, path: seq<string>)
    requires d.parentPath == c.parentPath
    requires forall j :: 0 <= j < |row| ==> NewName(d.keyMap, row[j].name) == NewName(m, NewName(c.keyMap, row[j].name))
    ensures PlacedRow(row, d, path) == RenamedRow(PlacedRow(row, c, path), m)
  {
  }

  lemma {:induction false} ComposedPerId(row: seq<Key>, c: CircuitOp, d: CircuitOp, m: map<string, KeyName>,
                                         ids: seq<string>)
    requires d.parentPath == c.parentPath
    requires forall j :: 0 <= j < |row| ==> NewName(d.keyMap, row[j].name) == NewName(m, NewName(c.keyMap, row[j].name))
    ensures RowPerId(row, d, ids) == RenamedRow(RowPerId(row, c, ids), m)
  {
    if ids != [] {
      ComposedPerId(row, c, d, m, ids[..|ids| - 1]);
      ComposedPlaced(row, c, d, m, IdPath(ids[|ids| - 1]));
    }
  }

  lemma {:induction false} RenameTimes(row: seq<Key>, n: nat, m: map<string, KeyName>)
    ensures RowTimes(RenamedRow(row, m), n) == RenamedRow(RowTimes(row, n), m)
  {
    if n > 0 { RenameTimes(row, n - 1, m); }
  }

  lemma RenameRowOfOp(op: Op, m: map<string, KeyName>)
    requires RenameOp(op, m).Some?
    ensures RowOfOp(RenameOp(op, m).value) == RenamedRow(RowOfOp(op), m)
  {
    match op
    case Gate(_, _) =>
    case Measure(k) =>
    case Sub(c) =>
      hide KeyRow, Keys, IsMeasurement, RowPerId, RowTimes, KeyText, MeasurementKeys;
      var d, row := RenameOp(op, m).value.c, KeyRow(c.circuit);
      KnownRow(c.circuit);
      if c.repetitions == 0 {
      } else if Indexes(c) && IsMeasurement(c.circuit) {
        ComposedPerId(row, c, d, m, c.repetitionIds.value);
      } else {
        ComposedPlaced(row, c, d, m, []);
        RenameTimes(PlacedRow(row, c, []), Abs(c.repetitions), m);
      }
  }

  lemma {:induction false} RenameRow(ops: seq<Op>, m: map<string, KeyName>)
    requires RenameOps(ops, m).Some?
    ensures KeyRow(RenameOps(ops, m).value) == RenamedRow(KeyRow(ops), m)
  {
    if ops != [] {
      hide RowOfOp, RenameOp;
      var n := |ops| - 1;
      RenameRow(ops[..n], m);
      RenameRowOfOp(ops[n], m);
      RowConcat(RenameOps(ops[..n], m).value, [RenameOp(ops[n], m).value]);
      RowOfOne(RenameOp(ops[n], m).value);
    }
  }

  // ----- The expansion, in order -----

  // A circuit that can be inverted measures nothing, and neither does its inverse.
  lemma {:induction false} InvertedRow(ops: seq<Op>)
    requires AllGood(ops, false) && Inverse(ops).Some?
    ensures KeyRow(ops) == [] && KeyRow(Inverse(ops).value) == []
    decreases ops, 0
  {
    if ops != [] {
      hide RowOfOp, InverseOp, OpGood;
      var n := |ops| - 1;
      InvertedRow(ops[..n]);
      InvertedRowOfOp(ops[n]);
      RowConcat([InverseOp(ops[n]).value], Inverse(ops[..n]).value);
      RowOfOne(InverseOp(ops[n]).value);
    } else {
      assert Inverse(ops) == Some([]);
    }
  }

  lemma {:induction false} InvertedRowOfOp(op: Op)
    requires OpGood(op, false) && InverseOp(op).Some?
    ensures RowOfOp(op) == [] && RowOfOp(InverseOp(op).value) == []
    decreases op, 0
  {
    if op.Sub? && op.c.repetitions != 0 {
      hide IsMeasurement, RowPerId, RowTimes;
      var c := op.c;
      InvertedRow(c.circuit);
      var d := c.(repetitions := -c.repetitions);
      EmptyTimes(Abs(c.repetitions));
      if Indexes(c) {
        EmptyPerId(c, c.repetitionIds.value);
        EmptyPerId(d, c.repetitionIds.value);
      }
      assert PlacedRow([], c, []) == [] && PlacedRow([], d, []) == [];
    }
  }

  lemma RenamedThenPrefixed(row: seq<Key>, c: CircuitOp, path: seq<string>)
    ensures PrefixedRow(RenamedRow(row, c.keyMap), c.parentPath + path) == PlacedRow(row, c, path)
  {
  }

  lemma {:induction false} AnyLoopRow(c: CircuitOp)
    requires AnyLoop(c).Some? && AllGood(c.circuit, false)
    ensures KeyRow(AnyLoop(c).value) == RenamedRow(KeyRow(c.circuit), c.keyMap)
  {
    hide KeyRow, RenameOps, Inverse, AllGood;
    if c.repetitions < 0 { InvertedRow(c.circuit); }
    var base := if c.repetitions < 0 then Inverse(c.circuit).value else c.circuit;
    assert KeyRow(base) == KeyRow(c.circuit);
    if c.keyMap == map[] {
      assert RenamedRow(KeyRow(base), map[]) == KeyRow(base);
    } else {
      RenameRow(base, c.keyMap);
    }
  }

  lemma PrefixedTwice(row: seq<Key>, inner: seq<string>, outer: seq<string>)
    ensures PrefixedRow(PrefixedRow(row, inner), outer) == PrefixedRow(row, outer + inner)
  {
    forall j | 0 <= j < |row| ensures Prefixed(Prefixed(row[j], inner), outer) == Prefixed(row[j], outer + inner) {
      assert outer + (inner + row[j].path) == outer + inner + row[j].path;
    }
  }

  lemma {:induction false} SingleLoopRow(c: CircuitOp, id: Option<string>)
    requires SingleLoop(c, id).Some? && AllGood(c.circuit, false)
    ensures KeyRow(SingleLoop(c, id).value)
         == PlacedRow(KeyRow(c.circuit), c, if id.Some? then IdPath(id.value) else [])
  {
    hide KeyRow, AnyLoop, AllGood, RescopeOps;
    var ops, row := AnyLoop(c).value, KeyRow(c.circuit);
    var path := if id.Some? then IdPath(id.value) else [];
    AnyLoopRow(c);
    RenamedThenPrefixed(row, c, path);
    if path == [] {
      RescopeRow(ops, c.parentPath);
      assert c.parentPath + [] == c.parentPath;
    } else {
      RescopeRow(ops, path);
      RescopeRow(RescopeOps(ops, path), c.parentPath);
      PrefixedTwice(RenamedRow(row, c.keyMap), path, c.parentPath);
    }
  }

  lemma {:induction false} LoopPerIdRow(c: CircuitOp, ids: seq<string>)
    requires LoopPerId(c, ids).Some? && AllGood(c.circuit, false)
    ensures KeyRow(LoopPerId(c, ids).value) == RowPerId(KeyRow(c.circuit), c, ids)
  {
    hide SingleLoop, AllGood;
    if ids != [] {
      var n := |ids| - 1;
      LoopPerIdRow(c, ids[..n]);
      SingleLoopRow(c, Some(ids[n]));
      RowConcat(LoopPerId(c, ids[..n]).value, SingleLoop(c, Some(ids[n])).value);
    }
  }

  lemma {:induction false} TimesRow(ops: seq<Op>, n: nat)
    ensures KeyRow(Times(ops, n)) == RowTimes(KeyRow(ops), n)
  {
    if n > 0 {
      TimesRow(ops, n - 1);
      RowConcat(Times(ops, n - 1), ops);
    }
  }

  // Expanding one level keeps the order of the keys.
  lemma {:induction false} MappedRow(c: CircuitOp)
    requires OpGood(Sub(c), false) && MappedCircuit(c).Some?
    ensures KeyRow(MappedCircuit(c).value) == RowOfSub(c)
  {
    hide SingleLoop, LoopPerId, Times, IsMeasurement, AllGood;
    if c.repetitions == 0 {
      RowOfOne(Sub(c));
    } else if Indexes(c) && IsMeasurement(c.circuit) {
      hide KeyRow;
      LoopPerIdRow(c, c.repetitionIds.value);
    } else {
      hide KeyRow;
      SingleLoopRow(c, None);
      TimesRow(SingleLoop(c, None).value, Abs(c.repetitions));
    }
  }

  // Expanding all levels keeps the order of the keys.
  lemma {:induction false} DeepRow(c: CircuitOp)
    requires OpGood(Sub(c), false) && DeepCircuit(c).Some?
    ensures KeyRow(DeepCircuit(c).value) == RowOfSub(c)
    decreases 1 + Depth(c.circuit), 0
  {
    hide KeyRow, RowOfSub, MappedCircuit;
    MappedDepth(c);
    MappedGood(c, false);
    MappedRow(c);
    DeepOpsRow(MappedCircuit(c).value);
  }

  lemma {:induction false} DeepOneRow(op: Op)
    requires OpGood(op, false) && DeepOne(op).Some?
    ensures KeyRow(DeepOne(op).value) == RowOfOp(op)
    decreases DepthOfOp(op), 1
  {
    if op.Sub? {
      DeepRow(op.c);
    } else {
      RowOfOne(op);
    }
  }

  lemma {:induction false} DeepOpsRow(ops: seq<Op>)
    requires AllGood(ops, false) && DeepOps(ops).Some?
    ensures KeyRow(DeepOps(ops).value) == KeyRow(ops)
    decreases Depth(ops), 2 + |ops|
  {
    if ops != [] {
      hide DeepOne, OpGood, DepthOfOp, RowOfOp;
      var n := |ops| - 1;
      DeepOpsRow(ops[..n]);
      DeepOneRow(ops[n]);
      RowConcat(DeepOps(ops[..n]).value, DeepOne(ops[n]).value);
    }
  }

  // The measurements of an expansion, one level or all levels deep, come in the order of the ids:
  // place i * p + j holds the j-th of the p keys of the circuit, renamed, under the parent path and
  // the id of repetition i.
  lemma {:induction false} MeasurementsInOrder(c: CircuitOp, i: nat, j: nat)
    requires OpGood(Sub(c), false) && DeepCircuit(c).Some?
    requires i < Abs(c.repetitions) && j < |KeyRow(c.circuit)|
    ensures MappedCircuit(c).Some? && KeyRow(MappedCircuit(c).value) == KeyRow(DeepCircuit(c).value)
    ensures var (flat, row) := (KeyRow(DeepCircuit(c).value), KeyRow(c.circuit));
            && |flat| == Abs(c.repetitions) * |row| && i * |row| + j < |flat|
            && flat[i * |row| + j].path == c.parentPath
                 + (if Indexes(c) && c.repetitionIds.value[i] != "" then [c.repetitionIds.value[i]] else [])
                 + row[j].path
            && flat[i * |row| + j].name
               == (if row[j].name in c.keyMap then c.keyMap[row[j].name] else row[j].name)
  {
    hide KeyRow, RowOfSub, MappedCircuit, DeepOps, AllGood, IsMeasurement;
    DeepRow(c);
    MappedRow(c);
    SubRowAt(c, i, j);
    if Indexes(c) && !IsMeasurement(c.circuit) {
      NoRow(c.circuit);
    }
  }
}
