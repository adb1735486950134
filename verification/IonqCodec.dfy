// Measurement keys and targets travel through a job's metadata: the serializer prints and cuts
// them, the job parses them back.
module IonqCodec {
  import opened Prelude
  import opened Text

  const UNIT: char := 31 as char
  const RECORD: char := 30 as char
  const MAX_VALUE_SIZE: nat := 40
  const MAX_CHUNKS: nat := 9
  const PREFIX: string := "measurement"

  // A serialized measurement gate.
  datatype Measurement = Measurement(key: string, targets: seq<nat>)

  // An insertion-ordered dictionary of strings.
  type Metadata = seq<(string, string)>

  // ----- Printing -----

  function PrintTargets(targets: seq<nat>): string {
    Join(seq(|targets|, i requires 0 <= i < |targets| => ToDecimal(targets[i])), ',')
  }

  function PrintMeasurement(m: Measurement): string {
    m.key + [UNIT] + PrintTargets(m.targets)
  }

  predicate PlainKey(key: string) {
    UNIT !in key && RECORD !in key
  }

  function PrintAll(ops: seq<Measurement>): string {
    Join(seq(|ops|, i requires 0 <= i < |ops| => PrintMeasurement(ops[i])), RECORD)
  }

  function Entries(chunks: seq<string>): (e: Metadata)
    ensures |e| == |chunks|
    ensures forall i :: 0 <= i < |chunks| ==> e[i] == (PREFIX + ToDecimal(i), chunks[i])
  {
    seq(|chunks|, i requires 0 <= i < |chunks| => (PREFIX + ToDecimal(i), chunks[i]))
  }

  // A key with a separator, or too many chunks, is an error.
  function SerializeMeasurements(ops: seq<Measurement>): (r: Result<Metadata>)
    ensures r.Err? ==> r.error == ValueError
  {
    if exists i :: 0 <= i < |ops| && !PlainKey(ops[i].key) then Err(ValueError)
    else
      var chunks := Chunks(PrintAll(ops), MAX_VALUE_SIZE);
      if |chunks| > MAX_CHUNKS then Err(ValueError) else Ok(Entries(chunks))
  }

  // The printed text, one measurement after another: the key, chr(31), the targets in base ten
  // with commas between them, and chr(30) in front of the next measurement.
  lemma {:induction false} PrintedText(ops: seq<Measurement>, m: Measurement)
    ensures PrintAll([]) == "" && PrintAll([m]) == m.key + [31 as char] + PrintTargets(m.targets)
    ensures ops != [] ==>
              PrintAll(ops + [m]) == PrintAll(ops) + [30 as char] + (m.key + [31 as char] + PrintTargets(m.targets))
  {
    hide Join, PrintTargets;
    var texts := seq(|ops|, i requires 0 <= i < |ops| => PrintMeasurement(ops[i]));
    JoinSnoc(texts, PrintMeasurement(m), RECORD);
    var none: seq<Measurement> := [];
    assert seq(|none|, i requires 0 <= i < |none| => PrintMeasurement(none[i])) == [];
    assert seq(1, i requires 0 <= i < 1 => PrintMeasurement([m][i])) == [PrintMeasurement(m)];
    var all := ops + [m];
    assert seq(|all|, i requires 0 <= i < |all| => PrintMeasurement(all[i])) == texts + [PrintMeasurement(m)];
  }

  lemma {:induction false} PrintedTargets(targets: seq<nat>, t: nat)
    ensures PrintTargets([]) == "" && PrintTargets([t]) == ToDecimal(t)
    ensures targets != [] ==> PrintTargets(targets + [t]) == PrintTargets(targets) + "," + ToDecimal(t)
  {
    hide Join, ToDecimal;
    var texts := seq(|targets|, i requires 0 <= i < |targets| => ToDecimal(targets[i]));
    JoinSnoc(texts, ToDecimal(t), ',');
    var none: seq<nat> := [];
    assert seq(|none|, i requires 0 <= i < |none| => ToDecimal(none[i])) == [];
    assert seq(1, i requires 0 <= i < 1 => ToDecimal([t][i])) == [ToDecimal(t)];
    var all := targets + [t];
    assert seq(|all|, i requires 0 <= i < |all| => ToDecimal(all[i])) == texts + [ToDecimal(t)];
    assert "," == [','];
  }

  // Exactly when the serializer raises.
  lemma SerializerRaisesIff(ops: seq<Measurement>)
    ensures SerializeMeasurements(ops).Err? <==>
            (|PrintAll(ops)| > 360
             || exists i :: 0 <= i < |ops| && (30 as char in ops[i].key || 31 as char in ops[i].key))
  {
    hide Chunks, PrintAll;
    ChunksFit(PrintAll(ops), 40, 9);
    if i :| 0 <= i < |ops| && !PlainKey(ops[i].key) {
      assert 30 as char in ops[i].key || 31 as char in ops[i].key;
    }
    if i :| 0 <= i < |ops| && (30 as char in ops[i].key || 31 as char in ops[i].key) {
      assert !PlainKey(ops[i].key);
    }
  }

  // What it returns otherwise: entry i holds characters 40 * i on, at most 40 of them, under
  // measurement0 to measurement8.
  lemma SerializedEntry(ops: seq<Measurement>, i: nat)
    requires SerializeMeasurements(ops).Ok? && i < |SerializeMeasurements(ops).value|
    ensures var (text, e) := (PrintAll(ops), SerializeMeasurements(ops).value[i]);
            && i < 9 && 40 * i < |text|
            && e == ("measurement" + [('0' as int + i) as char],
                     text[40 * i..if 40 * i + 40 <= |text| then 40 * i + 40 else |text|])
  {
    hide Chunks, PrintAll;
    ChunkAt(PrintAll(ops), 40, i);
    DecimalSteps(0, i);
  }

  // ----- The dictionary -----

  function Set(d: Metadata, key: string, value: string): Metadata {
    if d == [] then [(key, value)]
    else if d[0].0 == key then [(key, value)] + d[1..]
    else [d[0]] + Set(d[1..], key, value)
  }

  predicate HasKey(d: Metadata, key: string) {
    exists i :: 0 <= i < |d| && d[i].0 == key
  }

  function Merged(d: Metadata, entries: Metadata): Metadata
    decreases |entries|
  {
    if entries == [] then d else Merged(Set(d, entries[0].0, entries[0].1), entries[1..])
  }

  method UpdateMetadata(d: Metadata, entries: Metadata) returns (r: Metadata)
    ensures r == Merged(d, entries)
  {
    r := d;
    for i := 0 to |entries|
      invariant Merged(r, entries[i..]) == Merged(d, entries)
    {
      assert entries[i..][0] == entries[i] && entries[i..][1..] == entries[i + 1..];
      r := Set(r, entries[i].0, entries[i].1);
    }
  }

  function Lookup(d: Metadata, key: string): Option<string> {
    if d == [] then None else if d[0].0 == key then Some(d[0].1) else Lookup(d[1..], key)
  }

  // The value of the last entry for the key.
  function LastValue(entries: Metadata, key: string): Option<string> {
    if entries == [] then None
    else if LastValue(entries[1..], key).Some? then LastValue(entries[1..], key)
    else if entries[0].0 == key then Some(entries[0].1)
    else None
  }

  lemma {:induction false} SetLookup(d: Metadata, key: string, value: string, k: string)
    ensures Lookup(Set(d, key, value), k) == if k == key then Some(value) else Lookup(d, k)
  {
    if d != [] && d[0].0 != key {
      SetLookup(d[1..], key, value, k);
      assert ([d[0]] + Set(d[1..], key, value))[1..] == Set(d[1..], key, value);
    } else if d != [] {
      assert ([(key, value)] + d[1..])[1..] == d[1..];
    }
  }

  // A key takes the last value given for it and otherwise keeps the one it had.
  lemma {:induction false} MergedLookup(d: Metadata, entries: Metadata, key: string)
    ensures var last := LastValue(entries, key);
      Lookup(Merged(d, entries), key) == if last.Some? then last else Lookup(d, key)
    decreases |entries|
  {
    if entries != [] {
      hide Lookup, Set;
      var (k, v) := entries[0];
      SetLookup(d, k, v, key);
      MergedLookup(Set(d, k, v), entries[1..], key);
    }
  }

  lemma {:induction false} SetNew(d: Metadata, key: string, value: string)
    requires !HasKey(d, key)
    ensures Set(d, key, value) == d + [(key, value)]
  {
    if d != [] {
      assert d[0].0 != key;
      forall i | 0 <= i < |d[1..]| ensures d[1..][i].0 != key { assert d[1..][i] == d[i + 1]; }
      SetNew(d[1..], key, value);
      assert d == [d[0]] + d[1..];
    }
  }

  // New, pairwise distinct keys are appended in order.
  lemma {:induction false} MergedNew(d: Metadata, entries: Metadata)
    requires forall i :: 0 <= i < |entries| ==> !HasKey(d, entries[i].0)
    requires forall i, j :: 0 <= i < j < |entries| ==> entries[i].0 != entries[j].0
    ensures Merged(d, entries) == d + entries
    decreases |entries|
  {
    if entries == [] {
      assert d + [] == d;
    } else {
      var (key, value) := entries[0];
      var rest := entries[1..];
      assert !HasKey(d, entries[0].0);
      SetNew(d, key, value);
      var d' := d + [(key, value)];
      forall i | 0 <= i < |rest| ensures !HasKey(d', rest[i].0) {
        assert rest[i] == entries[i + 1];
        assert !HasKey(d, entries[i + 1].0);
        assert forall j :: 0 <= j < |d| ==> d'[j].0 == d[j].0;
      }
      MergedNew(d', rest);
      assert d + entries == d' + rest;
    }
  }

  // ----- Parsing -----

  predicate IsMeasurementKey(key: string) {
    PREFIX <= key
  }

  function MeasurementText(d: Metadata): string {
    if d == [] then ""
    else (if IsMeasurementKey(d[0].0) then d[0].1 else "") + MeasurementText(d[1..])
  }

  function ParseTargets(parts: seq<string>): Option<seq<nat>> {
    if parts == [] then Some([])
    else match (FromDecimal(parts[0]), ParseTargets(parts[1..]))
      case (Some(t), Some(rest)) => Some([t] + rest)
      case _ => None
  }

  function ParseMeasurement(text: string): Option<Measurement> {
    var fields := Split(text, UNIT);
    if |fields| != 2 then None
    else match ParseTargets(Split(fields[1], ','))
      case None => None
      case Some(targets) => Some(Measurement(fields[0], targets))
  }

  // Later records override earlier ones with the same key.
  function ParseRecords(records: seq<string>): Option<map<string, seq<nat>>> {
    if records == [] then Some(map[])
    else match (ParseRecords(records[..|records| - 1]), ParseMeasurement(records[|records| - 1]))
      case (Some(d), Some(m)) => Some(d[m.key := m.targets])
      case _ => None
  }

  function ParseMetadata(d: Metadata): Option<map<string, seq<nat>>> {
    var text := MeasurementText(d);
    if text == "" then Some(map[]) else ParseRecords(Split(text, RECORD))
  }

  method JoinMeasurementText(metadata: Metadata) returns (text: string)
    ensures text == MeasurementText(metadata)
  {
    text := "";
    for i := 0 to |metadata|
      invariant text + MeasurementText(metadata[i..]) == MeasurementText(metadata)
    {
      var (key, value) := metadata[i];
      assert metadata[i..][0] == metadata[i] && metadata[i..][1..] == metadata[i + 1..];
      ghost var before := text;
      if IsMeasurementKey(key) {
        text := text + value;
        assert before + (value + MeasurementText(metadata[i + 1..])) == text + MeasurementText(metadata[i + 1..]);
      } else {
        assert "" + MeasurementText(metadata[i + 1..]) == MeasurementText(metadata[i + 1..]);
      }
    }
    assert text + "" == text;
  }

  // The job's metadata, outside the batch form.
  method MeasurementDict(metadata: Metadata) returns (r: Result<map<string, seq<nat>>>)
    ensures r == match ParseMetadata(metadata) case Some(d) => Ok(d) case None => Err(ValueError)
  {
    hide MeasurementText, ParseMeasurement, Split;
    var text := JoinMeasurementText(metadata);
    var dict: map<string, seq<nat>> := map[];
    if text == "" {
      return Ok(dict);
    }
    var records := Split(text, RECORD);
    for i := 0 to |records|
      invariant ParseRecords(records[..i]) == Some(dict)
    {
      assert records[..i + 1][..i] == records[..i];
      var m := ParseMeasurement(records[i]);
      if m.None? {
        ParseFails(records, i + 1);
        return Err(ValueError);
      }
      dict := dict[m.value.key := m.value.targets];
    }
    assert records[..|records|] == records;
    return Ok(dict);
  }

  lemma {:induction false} ParseFails(records: seq<string>, i: nat)
    requires i <= |records| && ParseRecords(records[..i]) == None
    ensures ParseRecords(records) == None
    decreases |records| - i
  {
    if i == |records| {
      assert records[..i] == records;
    } else {
      assert records[..i + 1][..i] == records[..i];
      ParseFails(records, i + 1);
    }
  }

  // ----- Parsing undoes printing -----

  lemma {:induction false} TargetsRoundTrip(targets: seq<nat>, parts: seq<string>)
    requires |parts| == |targets| && forall i :: 0 <= i < |parts| ==> parts[i] == ToDecimal(targets[i])
    ensures ParseTargets(parts) == Some(targets)
  {
    if targets != [] {
      DecimalRoundTrip(targets[0]);
      TargetsRoundTrip(targets[1..], parts[1..]);
      assert targets == [targets[0]] + targets[1..];
    }
  }

  lemma DigitsOnly(n: nat, c: char)
    requires !IsDigit(c)
    ensures c !in ToDecimal(n)
  {
  }

  // The printed targets hold digits and commas only.
  lemma PrintedTargetsPlain(targets: seq<nat>, c: char)
    requires !IsDigit(c) && c != ','
    ensures c !in PrintTargets(targets)
  {
    var parts := seq(|targets|, i requires 0 <= i < |targets| => ToDecimal(targets[i]));
    forall i | 0 <= i < |parts| ensures c !in parts[i] { DigitsOnly(targets[i], c); }
    JoinLacks(parts, ',', c);
  }

  lemma PrintedTargetsRoundTrip(targets: seq<nat>)
    requires targets != []
    ensures ParseTargets(Split(PrintTargets(targets), ',')) == Some(targets)
  {
    hide Split, Join, ToDecimal;
    var parts := seq(|targets|, i requires 0 <= i < |targets| => ToDecimal(targets[i]));
    forall i | 0 <= i < |parts| ensures ',' !in parts[i] { DigitsOnly(targets[i], ','); }
    SplitJoin(parts, ',');
    TargetsRoundTrip(targets, parts);
  }

  lemma JoinTwo(a: string, b: string, sep: char)
    ensures Join([a, b], sep) == a + [sep] + b
  {
    assert [a, b][1..] == [b];
  }

  // A printed measurement reads back as itself; without targets it does not read back at all.
  lemma MeasurementRoundTrip(m: Measurement)
    requires PlainKey(m.key)
    ensures ParseMeasurement(PrintMeasurement(m)) == if m.targets == [] then None else Some(m)
    ensures RECORD !in PrintMeasurement(m)
  {
    hide Split, Join, PrintTargets, ParseTargets;
    var text := PrintTargets(m.targets);
    PrintedTargetsPlain(m.targets, UNIT);
    PrintedTargetsPlain(m.targets, RECORD);
    JoinTwo(m.key, text, UNIT);
    SplitJoin([m.key, text], UNIT);
    if m.targets == [] {
      NoTargets();
    } else {
      PrintedTargetsRoundTrip(m.targets);
    }
  }

  // An empty list of targets prints as the empty text, which is no number.
  lemma NoTargets()
    ensures ParseTargets(Split(PrintTargets([]), ',')) == None
  {
    assert PrintTargets([]) == "";
    assert Split("", ',') == [""];
  }

  predicate AllHaveTargets(ops: seq<Measurement>) {
    forall i :: 0 <= i < |ops| ==> ops[i].targets != []
  }

  // The dictionary a list of measurements stands for.
  function DictOf(ops: seq<Measurement>): map<string, seq<nat>> {
    if ops == [] then map[]
    else DictOf(ops[..|ops| - 1])[ops[|ops| - 1].key := ops[|ops| - 1].targets]
  }

  lemma {:induction false} RecordsRoundTrip(ops: seq<Measurement>, records: seq<string>)
    requires |records| == |ops|
    requires forall i :: 0 <= i < |ops| ==> PlainKey(ops[i].key)
    requires forall i :: 0 <= i < |ops| ==> records[i] == PrintMeasurement(ops[i])
    ensures ParseRecords(records) == if AllHaveTargets(ops) then Some(DictOf(ops)) else None
  {
    hide ParseMeasurement, PrintMeasurement;
    if ops != [] {
      var n := |ops| - 1;
      MeasurementRoundTrip(ops[n]);
      RecordsRoundTrip(ops[..n], records[..n]);
      assert AllHaveTargets(ops) <==> AllHaveTargets(ops[..n]) && ops[n].targets != [];
    }
  }

  lemma {:induction false} TextOfForeign(d: Metadata, entries: Metadata)
    requires forall i :: 0 <= i < |d| ==> !IsMeasurementKey(d[i].0)
    ensures MeasurementText(d + entries) == MeasurementText(entries)
  {
    if d == [] {
      assert d + entries == entries;
    } else {
      assert (d + entries)[1..] == d[1..] + entries;
      TextOfForeign(d[1..], entries);
    }
  }

  lemma {:induction false} TextOfEntries(entries: Metadata, chunks: seq<string>)
    requires |entries| == |chunks|
    requires forall i :: 0 <= i < |chunks| ==> IsMeasurementKey(entries[i].0) && entries[i].1 == chunks[i]
    ensures MeasurementText(entries) == Concat(chunks)
  {
    if entries != [] {
      TextOfEntries(entries[1..], chunks[1..]);
    }
  }

  // Whatever other metadata there is, the entries come back as the printed text.
  lemma {:induction false} MetadataCarriesText(extra: Metadata, chunks: seq<string>)
    requires forall i :: 0 <= i < |extra| ==> !IsMeasurementKey(extra[i].0)
    ensures MeasurementText(Merged(extra, Entries(chunks))) == Concat(chunks)
  {
    var entries := Entries(chunks);
    forall i | 0 <= i < |entries| ensures !HasKey(extra, entries[i].0) && IsMeasurementKey(entries[i].0) {
      assert entries[i].0 == PREFIX + ToDecimal(i);
    }
    forall i, j | 0 <= i < j < |entries| ensures entries[i].0 != entries[j].0 {
      assert entries[i].0[|PREFIX|..] == ToDecimal(i) && entries[j].0[|PREFIX|..] == ToDecimal(j);
      if entries[i].0 == entries[j].0 { DecimalInjective(i, j); }
    }
    MergedNew(extra, entries);
    TextOfForeign(extra, entries);
    TextOfEntries(entries, chunks);
  }

  lemma PrintNonempty(m: Measurement)
    ensures PrintMeasurement(m) != ""
  {
  }

  // Parsing undoes printing: whenever the serializer does not raise, the job recovers the
  // measurements, next to any metadata whose keys do not start with "measurement", exactly when
  // every measurement has a target; otherwise it raises.
  lemma {:induction false} ParseUndoesPrint(ops: seq<Measurement>, extra: Metadata)
    requires forall i :: 0 <= i < |extra| ==> !IsMeasurementKey(extra[i].0)
    requires SerializeMeasurements(ops).Ok?
    ensures ParseMetadata(Merged(extra, SerializeMeasurements(ops).value))
         == if AllHaveTargets(ops) then Some(DictOf(ops)) else None
  {
    hide Split, ParseRecords, PrintMeasurement, PrintTargets, Chunks, Merged, MeasurementText;
    var text := PrintAll(ops);
    ChunksRestore(text, MAX_VALUE_SIZE);
    MetadataCarriesText(extra, Chunks(text, MAX_VALUE_SIZE));
    if ops != [] {
      var records := seq(|ops|, i requires 0 <= i < |ops| => PrintMeasurement(ops[i]));
      forall i | 0 <= i < |ops| ensures RECORD !in records[i] { MeasurementRoundTrip(ops[i]); }
      SplitJoin(records, RECORD);
      RecordsRoundTrip(ops, records);
      PrintNonempty(ops[0]);
    }
  }

  lemma {:induction false} DictOfKeys(ops: seq<Measurement>, k: string)
    requires k in DictOf(ops)
    ensures exists i :: 0 <= i < |ops| && ops[i].key == k
  {
    var n := |ops| - 1;
    if k in DictOf(ops[..n]) {
      DictOfKeys(ops[..n], k);
      var i :| 0 <= i < n && ops[..n][i].key == k;
      assert ops[i].key == k;
    } else {
      assert ops[n].key == k;
    }
  }

  // With distinct keys the dictionary is exactly the list.
  lemma {:induction false} DictOfDistinct(ops: seq<Measurement>)
    requires forall i, j :: 0 <= i < j < |ops| ==> ops[i].key != ops[j].key
    ensures |DictOf(ops)| == |ops|
    ensures forall i :: 0 <= i < |ops| ==> ops[i].key in DictOf(ops) && DictOf(ops)[ops[i].key] == ops[i].targets
  {
    if ops != [] {
      var n := |ops| - 1;
      DictOfDistinct(ops[..n]);
      forall i | 0 <= i < n ensures ops[..n][i] == ops[i] {}
      if ops[n].key in DictOf(ops[..n]) {
        DictOfKeys(ops[..n], ops[n].key);
      }
    }
  }
}
