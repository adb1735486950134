// Remapping a subcircuit operation: its qubits and its measurement keys.  Both calls refuse a map
// that would merge what the operation already distinguishes.
module CircuitMaps {
  import opened Prelude
  import opened MeasurementKey
  import opened CircuitOperation
  import opened CircuitKeys

  // ----- Qubits -----

  datatype Qid = Qid(name: string, dimension: nat)

  datatype Placed = Placed(gate: nat, qubits: seq<Qid>)

  function At(m: map<Qid, Qid>, q: Qid): Qid {
    if q in m then m[q] else q
  }

  function Qubits(circuit: seq<Placed>): set<Qid> {
    set i, j | 0 <= i < |circuit| && 0 <= j < |circuit[i].qubits| :: circuit[i].qubits[j]
  }

  function TransformOne(op: Placed, f: Qid -> Qid): Placed {
    Placed(op.gate, seq(|op.qubits|, j requires 0 <= j < |op.qubits| => f(op.qubits[j])))
  }

  // transform_qubits
  function Transform(circuit: seq<Placed>, f: Qid -> Qid): seq<Placed> {
    seq(|circuit|, i requires 0 <= i < |circuit| => TransformOne(circuit[i], f))
  }

  // Every gate stays where it is, on the images of its qubits in their order.
  ghost predicate Relocated(before: seq<Placed>, after: seq<Placed>, f: Qid -> Qid) {
    && |after| == |before|
    && forall i :: 0 <= i < |before| ==>
         && after[i].gate == before[i].gate && |after[i].qubits| == |before[i].qubits|
         && forall j :: 0 <= j < |before[i].qubits| ==> after[i].qubits[j] == f(before[i].qubits[j])
  }

  lemma TransformRelocates(circuit: seq<Placed>, f: Qid -> Qid)
    ensures Relocated(circuit, Transform(circuit, f), f)
  {
  }

  // Two transformations that agree on the circuit's qubits give the same circuit.
  lemma TransformTwice(circuit: seq<Placed>, f: Qid -> Qid, g: Qid -> Qid, h: Qid -> Qid)
    requires forall q :: q in Qubits(circuit) ==> h(q) == g(f(q))
    ensures Transform(circuit, h) == Transform(Transform(circuit, f), g)
  {
    forall i | 0 <= i < |circuit|
      ensures TransformOne(circuit[i], h) == TransformOne(TransformOne(circuit[i], f), g)
    {
      forall j | 0 <= j < |circuit[i].qubits| ensures h(circuit[i].qubits[j]) == g(f(circuit[i].qubits[j])) {
        assert circuit[i].qubits[j] in Qubits(circuit);
      }
    }
  }

  // The qubits the operation acts on under a qubit map.
  function Targets(circuit: seq<Placed>, m: map<Qid, Qid>): set<Qid> {
    set q | q in Qubits(circuit) :: At(m, q)
  }

  // What the operation unrolls to under a qubit map.
  function Unrolled(circuit: seq<Placed>, m: map<Qid, Qid>): seq<Placed> {
    Transform(circuit, q => At(m, q))
  }

  // A transformation the operation may take: dimensions are kept, and no two of the qubits it
  // acts on now are merged.
  ghost predicate Acceptable(circuit: seq<Placed>, current: map<Qid, Qid>, f: Qid -> Qid) {
    && (forall q :: q in Qubits(circuit) ==> f(At(current, q)).dimension == q.dimension)
    && Injective(Targets(circuit, current), f)
  }

  lemma ComposedMap(circuit: seq<Placed>, current: map<Qid, Qid>, f: Qid -> Qid, updated: map<Qid, Qid>)
    requires forall q :: q in Qubits(circuit) ==> At(updated, q) == f(At(current, q))
    ensures |Targets(circuit, updated)| == |Targets(circuit, current)| <==> Injective(Targets(circuit, current), f)
    ensures Unrolled(circuit, updated) == Transform(Unrolled(circuit, current), f)
    ensures Relocated(Unrolled(circuit, current), Unrolled(circuit, updated), f)
  {
    hide Qubits, Transform;
    assert Targets(circuit, updated) == Image(Targets(circuit, current), f) by {
      forall q | q in Qubits(circuit)
        ensures At(current, q) in Targets(circuit, current) && At(updated, q) in Targets(circuit, updated)
      {
      }
    }
    ImageSize(Targets(circuit, current), f);
    TransformTwice(circuit, q => At(current, q), f, q => At(updated, q));
    TransformRelocates(Unrolled(circuit, current), f);
  }

  // with_qubit_mapping: the result is the operation's new qubit map.
  method WithQubitMapping(circuit: seq<Placed>, current: map<Qid, Qid>, f: Qid -> Qid)
    returns (r: Result<map<Qid, Qid>>)
    ensures r.Ok? <==> Acceptable(circuit, current, f)
    ensures r.Err? ==> r.error == ValueError
    ensures r.Ok? ==> Unrolled(circuit, r.value) == Transform(Unrolled(circuit, current), f)
    ensures r.Ok? ==> Relocated(Unrolled(circuit, current), Unrolled(circuit, r.value), f)
    ensures r.Ok? ==> forall q :: q in r.value ==> q in Qubits(circuit) && r.value[q] != q
    ensures r.Ok? ==> forall q :: q in Qubits(circuit) ==> At(r.value, q) == f(At(current, q))
  {
    hide Qubits, Transform, Targets, Unrolled, Injective;
    var todo := Qubits(circuit);
    var updated: map<Qid, Qid> := map[];
    while todo != {}
      invariant todo <= Qubits(circuit)
      invariant forall q :: q in Qubits(circuit) - todo ==>
        At(updated, q) == f(At(current, q)) && At(updated, q).dimension == q.dimension
      invariant forall q :: q in updated ==> q in Qubits(circuit) - todo && updated[q] != q
    {
      var q :| q in todo;
      var target := f(At(current, q));
      if target != q {
        if target.dimension != q.dimension {
          return Err(ValueError);
        }
        updated := updated[q := target];
      }
      todo := todo - {q};
    }
    ComposedMap(circuit, current, f, updated);
    if |Targets(circuit, updated)| != |Targets(circuit, current)| {
      return Err(ValueError);
    }
    return Ok(updated);
  }

  // ----- Measurement keys -----

  // The map merges two keys the operation distinguishes, comparing keys by text.
  ghost predicate Merges(keys: set<Key>, m: map<string, KeyName>) {
    exists k1, k2 :: k1 in keys && k2 in keys
      && KeyText(Rename(k1, m)) == KeyText(Rename(k2, m)) && KeyText(k1) != KeyText(k2)
  }

  ghost function WithText(keys: set<Key>, t: string): (k: Key)
    requires t in Texts(keys)
    ensures k in keys && KeyText(k) == t
  {
    var k :| k in keys && KeyText(k) == t;
    k
  }

  // Renaming, on the texts of the keys.
  ghost function RenamedTextOf(keys: set<Key>, m: map<string, KeyName>, t: string): string {
    if t in Texts(keys) then KeyText(Rename(WithText(keys, t), m)) else t
  }

  // Renaming keeps the number of texts exactly when it merges none.
  lemma MergesIffFewer(keys: set<Key>, m: map<string, KeyName>)
    ensures |Texts(RenameAll(keys, m))| == |Texts(keys)| <==> !Merges(keys, m)
  {
    hide KeyText, Rename;
    var f := t => RenamedTextOf(keys, m, t);
    forall k | k in keys ensures KeyText(k) in Texts(keys) && f(KeyText(k)) == KeyText(Rename(k, m)) {
      RenamedText(WithText(keys, KeyText(k)), k, m);
    }
    assert Texts(RenameAll(keys, m)) == Image(Texts(keys), f) by {
      forall k | k in keys ensures KeyText(Rename(k, m)) in Texts(RenameAll(keys, m)) {
        assert Rename(k, m) in RenameAll(keys, m);
      }
    }
    ImageSize(Texts(keys), f);
    if Merges(keys, m) {
      var k1, k2 :| k1 in keys && k2 in keys
        && KeyText(Rename(k1, m)) == KeyText(Rename(k2, m)) && KeyText(k1) != KeyText(k2);
      assert f(KeyText(k1)) == f(KeyText(k2));
    }
  }

  // A valid key map succeeds exactly when it merges no keys, and then renames each.
  lemma RenameSucceedsIff(c: CircuitOp, m: map<string, KeyName>)
    ensures RenameOp(Sub(c), m).Some? <==> !Merges(MeasurementKeys(c), m)
    ensures RenameOp(Sub(c), m).Some? ==> KeysOfOp(RenameOp(Sub(c), m).value) == RenameAll(MeasurementKeys(c), m)
  {
    hide MeasurementKeys, RenameAll, Merges, Texts;
    RenameSubKeys(c, m);
    MergesIffFewer(MeasurementKeys(c), m);
  }

  function NewName(c: CircuitOp, m: map<string, string>, n: KeyName): string {
    var current := Get(c.keyMap, n);
    if current in m then m[current] else current
  }

  // with_measurement_key_mapping, for any map: an invalid new name is refused by the constructor.
  function WithMeasurementKeyMapping(c: CircuitOp, m: map<string, string>): Result<CircuitOp> {
    if exists n :: n in Names(Keys(c.circuit)) && COLON in NewName(c, m, n) then Err(ValueError)
    else match RenameOp(Sub(c), ValidPart(m))
      case Some(op) => Ok(op.c)
      case None => Err(ValueError)
  }

  function ValidPart(m: map<string, string>): map<string, KeyName> {
    map n | n in m && COLON !in m[n] :: m[n]
  }

  // It succeeds exactly when every new name is valid and no two keys merge; then the operation
  // reports its keys renamed.
  lemma KeyMappingSucceedsIff(c: CircuitOp, m: map<string, string>)
    ensures WithMeasurementKeyMapping(c, m).Ok? <==>
            (forall n :: n in Names(Keys(c.circuit)) ==> COLON !in NewName(c, m, n))
            && !Merges(MeasurementKeys(c), ValidPart(m))
    ensures WithMeasurementKeyMapping(c, m).Ok? ==>
            var r := WithMeasurementKeyMapping(c, m).value;
            && r == c.(keyMap := r.keyMap) && MeasurementKeys(r) == RenameAll(MeasurementKeys(c), ValidPart(m))
            && forall n :: n in Names(Keys(c.circuit)) ==> Get(r.keyMap, n) == NewName(c, m, n)
  {
    hide MeasurementKeys, Merges, RenameAll, Texts, Keys;
    RenameSucceedsIff(c, ValidPart(m));
  }
}
