// Subcircuit operations: a circuit with a repetition count, repetition ids, a measurement key
// map and a parent path, and its expansion to a flat circuit.  A circuit is the sequence of its
// operations; subcircuits nest.
module CircuitOperation {
  import opened Prelude
  import opened Text
  import opened MeasurementKey

  // ----- Data -----

  datatype Op =
    | Gate(id: nat, inverted: bool)
    | Measure(key: Key)
    | Sub(c: CircuitOp)

  datatype CircuitOp = CircuitOp(
    circuit: seq<Op>,
    repetitions: int,
    repetitionIds: Option<seq<string>>,
    useRepetitionIds: bool,
    keyMap: map<string, KeyName>,
    parentPath: seq<string>)

  // ----- Measurement keys, summarised -----

  function RenameAll(keys: set<Key>, m: map<string, KeyName>): set<Key> {
    set k | k in keys :: Rename(k, m)
  }

  function PrefixAll(keys: set<Key>, path: seq<string>): set<Key> {
    set k | k in keys :: Prefixed(k, path)
  }

  // One copy of the keys per id.
  function Indexed(keys: set<Key>, ids: seq<string>): set<Key> {
    if ids == [] then {} else Indexed(keys, ids[..|ids| - 1]) + PrefixAll(keys, [ids[|ids| - 1]])
  }

  function KeysOfOp(op: Op): set<Key>
    decreases op, 0
  {
    match op
    case Gate(_, _) => {}
    case Measure(k) => {k}
    case Sub(c) => MeasurementKeys(c)
  }

  function Keys(ops: seq<Op>): set<Key>
    decreases ops, 0
  {
    if ops == [] then {} else Keys(ops[..|ops| - 1]) + KeysOfOp(ops[|ops| - 1])
  }

  // _measurement_key_objs: ids first, then the parent path, then the key map.
  function MeasurementKeys(c: CircuitOp): set<Key>
    decreases c, 0
  {
    var keys := Keys(c.circuit);
    var indexed := if keys != {} && c.useRepetitionIds && c.repetitionIds.Some?
                   then Indexed(keys, c.repetitionIds.value) else keys;
    RenameAll(PrefixAll(indexed, c.parentPath), c.keyMap)
  }

  predicate IsMeasurement(ops: seq<Op>)
    decreases ops, 0
  {
    ops != [] && (IsMeasurement(ops[..|ops| - 1]) || IsMeasurementOp(ops[|ops| - 1]))
  }

  predicate IsMeasurementOp(op: Op)
    decreases op, 0
  {
    match op
    case Gate(_, _) => false
    case Measure(_) => true
    case Sub(c) => IsMeasurement(c.circuit)
  }

  // ----- Inverses -----

  function InverseOp(op: Op): Option<Op>
    decreases op, 0
  {
    match op
    case Gate(id, inverted) => Some(Gate(id, !inverted))
    case Measure(_) => None
    case Sub(c) =>
      if c.repetitions > 0 && Inverse(c.circuit).None? then None
      else Some(Sub(c.(repetitions := -c.repetitions)))
  }

  function Inverse(ops: seq<Op>): Option<seq<Op>>
    decreases ops, 0
  {
    if ops == [] then Some([])
    else match (InverseOp(ops[|ops| - 1]), Inverse(ops[..|ops| - 1]))
      case (Some(o), Some(rest)) => Some([o] + rest)
      case _ => None
  }

  // ----- Renaming and rescoping the operations of a circuit -----

  // with_measurement_key_mapping on a subcircuit composes the maps over the names it touches.
  function ComposeMaps(names: set<KeyName>, first: map<string, KeyName>, second: map<string, KeyName>)
    : map<string, KeyName>
  {
    map n: KeyName | n in names && Get(second, Get(first, n)) != n :: Get(second, Get(first, n))
  }

  function Get(m: map<string, KeyName>, n: KeyName): KeyName {
    if n in m then m[n] else n
  }

  function Names(keys: set<Key>): set<KeyName> {
    set k | k in keys :: k.name
  }

  // None when two keys of a subcircuit would collide.
  function RenameOp(op: Op, m: map<string, KeyName>): Option<Op> {
    match op
    case Gate(_, _) => Some(op)
    case Measure(k) => Some(Measure(Rename(k, m)))
    case Sub(c) =>
      var c' := c.(keyMap := ComposeMaps(Names(Keys(c.circuit)), c.keyMap, m));
      if |Texts(MeasurementKeys(c'))| != |Texts(MeasurementKeys(c))| then None else Some(Sub(c'))
  }

  function RenameOps(ops: seq<Op>, m: map<string, KeyName>): Option<seq<Op>> {
    if ops == [] then Some([])
    else match (RenameOps(ops[..|ops| - 1], m), RenameOp(ops[|ops| - 1], m))
      case (Some(rest), Some(o)) => Some(rest + [o])
      case _ => None
  }

  function RescopeOp(op: Op, path: seq<string>): Op {
    match op
    case Gate(_, _) => op
    case Measure(k) => Measure(Prefixed(k, path))
    case Sub(c) => Sub(c.(parentPath := path + c.parentPath))
  }

  function RescopeOps(ops: seq<Op>, path: seq<string>): seq<Op> {
    if ops == [] then [] else RescopeOps(ops[..|ops| - 1], path) + [RescopeOp(ops[|ops| - 1], path)]
  }

  // ----- Expansion -----

  // _mapped_any_loop: inverted for a negative count, then renamed.
  function AnyLoop(c: CircuitOp): Option<seq<Op>> {
    match if c.repetitions < 0 then Inverse(c.circuit) else Some(c.circuit)
    case None => None
    case Some(ops) => if c.keyMap == map[] then Some(ops) else RenameOps(ops, c.keyMap)
  }

  // _mapped_single_loop: an empty id is no id.
  function SingleLoop(c: CircuitOp, id: Option<string>): Option<seq<Op>> {
    match AnyLoop(c)
    case None => None
    case Some(ops) =>
      var scoped := if id.Some? && id.value != "" then RescopeOps(ops, [id.value]) else ops;
      Some(RescopeOps(scoped, c.parentPath))
  }

  function LoopPerId(c: CircuitOp, ids: seq<string>): Option<seq<Op>> {
    if ids == [] then Some([])
    else match (LoopPerId(c, ids[..|ids| - 1]), SingleLoop(c, Some(ids[|ids| - 1])))
      case (Some(rest), Some(ops)) => Some(rest + ops)
      case _ => None
  }

  function Times(ops: seq<Op>, n: nat): seq<Op> {
    if n == 0 then [] else Times(ops, n - 1) + ops
  }

  function MappedCircuit(c: CircuitOp): Option<seq<Op>> {
    if c.repetitions == 0 then Some([])
    else if c.repetitionIds.Some? && c.useRepetitionIds && IsMeasurement(c.circuit)
    then LoopPerId(c, c.repetitionIds.value)
    else match SingleLoop(c, None)
      case None => None
      case Some(ops) => Some(Times(ops, Abs(c.repetitions)))
  }

  // ----- The constructor -----

  function Numerals(n: nat): (ids: seq<string>)
    ensures |ids| == n && forall i :: 0 <= i < n ==> ids[i] == ToDecimal(i)
  {
    seq(n, i requires 0 <= i => ToDecimal(i))
  }

  function DefaultRepetitionIds(repetitions: int): Option<seq<string>> {
    if Abs(repetitions) == 1 then None else Some(Numerals(Abs(repetitions)))
  }

  function Construct(circuit: seq<Op>, repetitions: int, ids: Option<seq<string>>, use: bool,
                     keyMap: map<string, string>, parentPath: seq<string>): Result<CircuitOp>
  {
    if exists n :: n in keyMap && COLON in keyMap[n] then Err(ValueError)
    else if repetitions < 0 && Inverse(circuit).None? then Err(ValueError)
    else if ids.None? || ids.value == [] then
      var defaults := if use then DefaultRepetitionIds(repetitions) else None;
      Ok(CircuitOp(circuit, repetitions, defaults, use, keyMap, parentPath))
    else if |ids.value| != Abs(repetitions) then Err(ValueError)
    else Ok(CircuitOp(circuit, repetitions, ids, use, keyMap, parentPath))
  }

  // What the constructor guarantees.
  predicate Valid(c: CircuitOp) {
    && (c.repetitions < 0 ==> Inverse(c.circuit).Some?)
    && (c.repetitionIds.Some? ==> |c.repetitionIds.value| == Abs(c.repetitions))
    && (c.useRepetitionIds && c.repetitionIds.None? ==> Abs(c.repetitions) == 1)
    && (c.repetitionIds == Some([]) ==> c.useRepetitionIds)
  }

  lemma ConstructedIsValid(circuit: seq<Op>, repetitions: int, ids: Option<seq<string>>, use: bool,
                           keyMap: map<string, string>, parentPath: seq<string>)
    ensures var r := Construct(circuit, repetitions, ids, use, keyMap, parentPath); r.Ok? ==> Valid(r.value)
  {
  }
}
