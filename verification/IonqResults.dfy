// Result histograms of a job: re-keyed from little to big endian, projected on measurement keys,
// expanded into shots.
module IonqResults {
  import opened Prelude
  import opened Bits
  import NumberTheory

  // ----- Endianness -----

  function LittleEndianToBig(value: nat, bitCount: nat): (v: nat)
    ensures v < Pow2(bitCount)
  {
    BigEndianValue(Reversed(BigEndianBits(value, bitCount)))
  }

  // Reversing the bits is an involution on the register's values.
  lemma EndianInvolution(value: nat, bitCount: nat)
    requires value < Pow2(bitCount)
    ensures LittleEndianToBig(LittleEndianToBig(value, bitCount), bitCount) == value
  {
    var bits := BigEndianBits(value, bitCount);
    BitsOfValue(Reversed(bits));
    ReversedTwice(bits);
    ValueOfBits(value, bitCount);
  }

  // Bit j, counted from the most significant end, is bit j counted from the least significant end.
  lemma {:induction false} EndianBits(value: nat, bitCount: nat, j: nat)
    requires j < bitCount
    ensures (LittleEndianToBig(value, bitCount) / Pow2(bitCount - 1 - j)) % 2 == (value / Pow2(j)) % 2
  {
    var bits := BigEndianBits(value, bitCount);
    BitOfIsBit(LittleEndianToBig(value, bitCount), bitCount, j);
    BitsOfValue(Reversed(bits));
    BitOfIsBit(value, bitCount, bitCount - 1 - j);
    assert Reversed(bits)[j] == bits[bitCount - 1 - j];
  }

  // The entries of a histogram, in the order of the dictionary.
  type Histogram = seq<(nat, nat)>

  ghost predicate DistinctKeys<V>(items: seq<(nat, V)>) {
    forall i, j :: 0 <= i < j < |items| ==> items[i].0 != items[j].0
  }

  ghost predicate InRegister<V>(items: seq<(nat, V)>, numQubits: nat) {
    forall i :: 0 <= i < |items| ==> items[i].0 < Pow2(numQubits)
  }

  // The dictionary comprehension over a histogram: a later entry replaces an earlier one.
  function Rekeyed<V>(items: seq<(nat, V)>, numQubits: nat): map<nat, V> {
    if items == [] then map[]
    else
      var last := items[|items| - 1];
      Rekeyed(items[..|items| - 1], numQubits)[LittleEndianToBig(last.0, numQubits) := last.1]
  }

  // Every re-keyed outcome comes from an entry.
  lemma {:induction false} RekeyedComesFrom<V>(items: seq<(nat, V)>, numQubits: nat, k: nat)
    requires k in Rekeyed(items, numQubits)
    ensures exists i :: 0 <= i < |items| && LittleEndianToBig(items[i].0, numQubits) == k
  {
    var n := |items| - 1;
    if k in Rekeyed(items[..n], numQubits) {
      RekeyedComesFrom(items[..n], numQubits, k);
      var i :| 0 <= i < n && LittleEndianToBig(items[..n][i].0, numQubits) == k;
      assert items[i] == items[..n][i];
    } else {
      assert LittleEndianToBig(items[n].0, numQubits) == k;
    }
  }

  lemma EndianInjective(v: nat, w: nat, bitCount: nat)
    requires v < Pow2(bitCount) && w < Pow2(bitCount)
    requires LittleEndianToBig(v, bitCount) == LittleEndianToBig(w, bitCount)
    ensures v == w
  {
    EndianInvolution(v, bitCount);
    EndianInvolution(w, bitCount);
  }

  lemma RekeyingFresh<V>(items: seq<(nat, V)>, numQubits: nat)
    requires DistinctKeys(items) && InRegister(items, numQubits) && items != []
    ensures LittleEndianToBig(items[|items| - 1].0, numQubits) !in Rekeyed(items[..|items| - 1], numQubits)
  {
    hide LittleEndianToBig;
    var n := |items| - 1;
    var k := LittleEndianToBig(items[n].0, numQubits);
    if k in Rekeyed(items[..n], numQubits) {
      RekeyedComesFrom(items[..n], numQubits, k);
      var i :| 0 <= i < n && LittleEndianToBig(items[..n][i].0, numQubits) == k;
      EndianInjective(items[i].0, items[n].0, numQubits);
    }
  }

  lemma {:induction false} RekeyedCarries<V>(items: seq<(nat, V)>, numQubits: nat, i: nat)
    requires DistinctKeys(items) && InRegister(items, numQubits) && i < |items|
    ensures Carries(Rekeyed(items, numQubits), numQubits, items[i])
  {
    hide LittleEndianToBig;
    var n := |items| - 1;
    if i < n {
      RekeyedCarries(items[..n], numQubits, i);
      if LittleEndianToBig(items[i].0, numQubits) == LittleEndianToBig(items[n].0, numQubits) {
        EndianInjective(items[i].0, items[n].0, numQubits);
      }
    }
  }

  lemma {:induction false} RekeyedSize<V>(items: seq<(nat, V)>, numQubits: nat)
    requires DistinctKeys(items) && InRegister(items, numQubits)
    ensures |Rekeyed(items, numQubits)| == |items|
  {
    if items != [] {
      hide LittleEndianToBig;
      RekeyedSize(items[..|items| - 1], numQubits);
      RekeyingFresh(items, numQubits);
    }
  }

  // No outcome of the register is merged with another or lost.
  lemma {:induction false} RekeyingMergesNothing<V>(items: seq<(nat, V)>, numQubits: nat)
    requires DistinctKeys(items) && InRegister(items, numQubits)
    ensures |Rekeyed(items, numQubits)| == |items|
    ensures forall i :: 0 <= i < |items| ==> Carries(Rekeyed(items, numQubits), numQubits, items[i])
  {
    hide *;
    RekeyedSize(items, numQubits);
    forall i | 0 <= i < |items| ensures Carries(Rekeyed(items, numQubits), numQubits, items[i]) {
      RekeyedCarries(items, numQubits, i);
    }
  }

  // The entry of an outcome sits under the key that spells the outcome's bits backwards.
  lemma RekeyedBits<V>(items: seq<(nat, V)>, numQubits: nat, i: nat)
    requires DistinctKeys(items) && InRegister(items, numQubits) && i < |items|
    ensures exists k :: k in Rekeyed(items, numQubits) && Rekeyed(items, numQubits)[k] == items[i].1
              && Backwards(k, items[i].0, numQubits)
  {
    hide LittleEndianToBig, Rekeyed;
    RekeyedCarries(items, numQubits, i);
    forall j | 0 <= j < numQubits
      ensures (LittleEndianToBig(items[i].0, numQubits) / Pow2(numQubits - 1 - j)) % 2 == (items[i].0 / Pow2(j)) % 2
    {
      EndianBits(items[i].0, numQubits, j);
    }
    assert Backwards(LittleEndianToBig(items[i].0, numQubits), items[i].0, numQubits);
  }

  ghost predicate Backwards(k: nat, v: nat, numQubits: nat) {
    k < Pow2(numQubits)
    && forall j :: 0 <= j < numQubits ==> (k / Pow2(numQubits - 1 - j)) % 2 == (v / Pow2(j)) % 2
  }

  // The re-keyed map holds the entry under its reversed key.
  ghost predicate Carries<V>(m: map<nat, V>, numQubits: nat, entry: (nat, V)) {
    var k := LittleEndianToBig(entry.0, numQubits);
    k in m && m[k] == entry.1
  }

  // ----- Projecting on targets -----

  // (value >> (numQubits - target - 1)) & 1
  function BitOf(value: nat, numQubits: nat, target: nat): bool
    requires target < numQubits
  {
    (value / Pow2(numQubits - target - 1)) % 2 == 1
  }

  predicate ValidTargets(targets: seq<nat>, numQubits: nat) {
    forall i :: 0 <= i < |targets| ==> targets[i] < numQubits
  }

  // A shift by a negative number raises, so targets beyond the register can be read off no value.
  predicate Readable<V>(items: seq<(nat, V)>, targets: seq<nat>, numQubits: nat) {
    items == [] || ValidTargets(targets, numQubits)
  }

  function TargetBits(value: nat, numQubits: nat, targets: seq<nat>): (bits: seq<bool>)
    requires ValidTargets(targets, numQubits)
    ensures |bits| == |targets|
  {
    seq(|targets|, i requires 0 <= i < |targets| => BitOf(value, numQubits, targets[i]))
  }

  // sum(bit * (1 << i) for i, bit in enumerate(bits[::-1]))
  function Project(value: nat, numQubits: nat, targets: seq<nat>): (v: nat)
    requires ValidTargets(targets, numQubits)
    ensures v < Pow2(|targets|)
  {
    Value(Reversed(TargetBits(value, numQubits, targets)))
  }

  lemma {:induction false} BitOfIsBit(value: nat, numQubits: nat, target: nat)
    requires target < numQubits
    ensures BitOf(value, numQubits, target) == BigEndianBits(value, numQubits)[target]
  {
    if target < numQubits - 1 {
      BitOfIsBit(value / 2, numQubits - 1, target);
      var p := Pow2(numQubits - target - 2);
      HalveFirst(value, p);
    }
  }

  lemma {:induction false} HalveFirst(value: nat, p: nat)
    requires p > 0
    ensures value / (2 * p) == (value / 2) / p
  {
    var q, r := (value / 2) / p, (value / 2) % p;
    assert value == 2 * (p * q + r) + value % 2;
    assert value == (2 * p) * q + (2 * r + value % 2);
    NumberTheory.ModOfMultiple(q, 2 * r + value % 2, 2 * p);
  }

  // Reading the projected value back gives the bits of the targets, in order.
  lemma ProjectedBits(value: nat, numQubits: nat, targets: seq<nat>)
    requires ValidTargets(targets, numQubits)
    ensures BigEndianBits(Project(value, numQubits, targets), |targets|) == TargetBits(value, numQubits, targets)
  {
    var bits := TargetBits(value, numQubits, targets);
    ReversedValue(bits);
    BitsOfValue(bits);
  }

  // Bit i of the projected value, from the most significant end, is the bit of target i.
  lemma {:induction false} ProjectReads(value: nat, numQubits: nat, targets: seq<nat>, i: nat)
    requires ValidTargets(targets, numQubits) && i < |targets|
    ensures (Project(value, numQubits, targets) / Pow2(|targets| - 1 - i)) % 2
         == (value / Pow2(numQubits - 1 - targets[i])) % 2
  {
    hide Project;
    BitOfIsBit(Project(value, numQubits, targets), |targets|, i);
    ProjectedBits(value, numQubits, targets);
    assert TargetBits(value, numQubits, targets)[i] == BitOf(value, numQubits, targets[i]);
  }

  function AllTargets(n: nat): (targets: seq<nat>)
    ensures |targets| == n && forall i :: 0 <= i < n ==> targets[i] == i
  {
    seq(n, i => i)
  }

  // Without a key every qubit is a target, and the projection is the identity.
  lemma {:induction false} ProjectAll(value: nat, numQubits: nat)
    requires value < Pow2(numQubits)
    ensures Project(value, numQubits, AllTargets(numQubits)) == value
  {
    var bits := TargetBits(value, numQubits, AllTargets(numQubits));
    forall i | 0 <= i < numQubits ensures bits[i] == BigEndianBits(value, numQubits)[i] {
      BitOfIsBit(value, numQubits, i);
    }
    assert bits == BigEndianBits(value, numQubits);
    ReversedValue(bits);
    ValueOfBits(value, numQubits);
  }

  // ----- Shots -----

  function Repeat(v: nat, count: nat): (r: seq<nat>)
    ensures |r| == count && forall i :: 0 <= i < count ==> r[i] == v
  {
    seq(count, _ => v)
  }

  function Shots(counts: Histogram, numQubits: nat, targets: seq<nat>): seq<nat>
    requires Readable(counts, targets, numQubits)
  {
    if counts == [] then []
    else
      var (value, count) := counts[|counts| - 1];
      Shots(counts[..|counts| - 1], numQubits, targets) + Repeat(Project(value, numQubits, targets), count)
  }

  function Total(counts: Histogram): nat {
    if counts == [] then 0 else Total(counts[..|counts| - 1]) + counts[|counts| - 1].1
  }

  // How often the projected outcome b occurs.
  function Marginal(counts: Histogram, numQubits: nat, targets: seq<nat>, b: nat): nat
    requires Readable(counts, targets, numQubits)
  {
    if counts == [] then 0
    else
      var (value, count) := counts[|counts| - 1];
      Marginal(counts[..|counts| - 1], numQubits, targets, b)
        + (if Project(value, numQubits, targets) == b then count else 0)
  }

  // The shots realise the marginal exactly and conserve the number of repetitions.
  lemma {:induction false} ShotsAreMarginal(counts: Histogram, numQubits: nat, targets: seq<nat>, b: nat)
    requires Readable(counts, targets, numQubits)
    ensures multiset(Shots(counts, numQubits, targets))[b] == Marginal(counts, numQubits, targets, b)
    ensures |Shots(counts, numQubits, targets)| == Total(counts)
  {
    if counts != [] {
      var (value, count) := counts[|counts| - 1];
      ShotsAreMarginal(counts[..|counts| - 1], numQubits, targets, b);
      RepeatCount(Project(value, numQubits, targets), count, b);
    }
  }

  // The o-th shot of the p-th entry comes after those of all entries before it.
  lemma {:induction false} ShotAt(counts: Histogram, numQubits: nat, targets: seq<nat>, p: nat, o: nat)
    requires ValidTargets(targets, numQubits) && p < |counts| && o < counts[p].1
    ensures Total(counts[..p]) + o < |Shots(counts, numQubits, targets)| == Total(counts)
    ensures Shots(counts, numQubits, targets)[Total(counts[..p]) + o] == Project(counts[p].0, numQubits, targets)
  {
    hide Project;
    var n := |counts| - 1;
    ShotsAreMarginal(counts, numQubits, targets, 0);
    ShotsAreMarginal(counts[..n], numQubits, targets, 0);
    if p < n {
      ShotAt(counts[..n], numQubits, targets, p, o);
      assert counts[..n][..p] == counts[..p];
    }
  }

  lemma TotalStep(counts: Histogram, p: nat)
    requires p < |counts|
    ensures Total(counts[..p + 1]) == Total(counts[..p]) + counts[p].1 && Total([]) == 0
  {
    assert counts[..p + 1][..p] == counts[..p];
  }

  // Every shot of the whole register is the value of some entry, in the order of the entries.
  lemma {:induction false} ShotFrom(counts: Histogram, numQubits: nat, i: nat) returns (p: nat)
    requires InRegister(counts, numQubits) && i < Total(counts)
    ensures p < |counts| && |Shots(counts, numQubits, AllTargets(numQubits))| == Total(counts)
    ensures Total(counts[..p]) <= i < Total(counts[..p + 1])
    ensures Shots(counts, numQubits, AllTargets(numQubits))[i] == counts[p].0
  {
    hide Shots, Project;
    var n := |counts| - 1;
    TotalStep(counts, n);
    assert counts[..n + 1] == counts;
    if i < Total(counts[..n]) {
      p := ShotFrom(counts[..n], numQubits, i);
      assert counts[..n][..p] == counts[..p] && counts[..n][..p + 1] == counts[..p + 1];
      assert counts[..n][p] == counts[p];
      TotalStep(counts, p);
      ShotAt(counts, numQubits, AllTargets(numQubits), p, i - Total(counts[..p]));
      ProjectAll(counts[p].0, numQubits);
    } else {
      p := n;
      ShotAt(counts, numQubits, AllTargets(numQubits), n, i - Total(counts[..n]));
      ProjectAll(counts[n].0, numQubits);
    }
  }

  lemma {:induction false} TotalMonotone(counts: Histogram, p: nat, q: nat)
    requires p <= q <= |counts|
    ensures Total(counts[..p]) <= Total(counts[..q])
    decreases q
  {
    if p < q {
      TotalMonotone(counts, p, q - 1);
      TotalStep(counts, q - 1);
    }
  }

  // Of a sorted histogram, the shots come in order.
  lemma {:induction false} ShotsAscend(counts: Histogram, numQubits: nat, i: nat, j: nat)
    requires InRegister(counts, numQubits) && Ascending(counts) && i <= j < Total(counts)
    ensures |Shots(counts, numQubits, AllTargets(numQubits))| == Total(counts)
    ensures Shots(counts, numQubits, AllTargets(numQubits))[i] <= Shots(counts, numQubits, AllTargets(numQubits))[j]
  {
    hide Shots, Total;
    var p := ShotFrom(counts, numQubits, i);
    var q := ShotFrom(counts, numQubits, j);
    if q < p {
      TotalMonotone(counts, q + 1, p);
    }
  }

  lemma {:induction false} RepeatCount(v: nat, count: nat, b: nat)
    ensures multiset(Repeat(v, count))[b] == if v == b then count else 0
  {
    if count > 0 {
      RepeatCount(v, count - 1, b);
      assert Repeat(v, count) == Repeat(v, count - 1) + [v];
    }
  }

  // Projecting a value on the register first makes no difference.
  lemma {:induction false} ProjectAgain(value: nat, numQubits: nat, targets: seq<nat>)
    requires ValidTargets(targets, numQubits)
    ensures Project(Project(value, numQubits, AllTargets(numQubits)), numQubits, targets)
         == Project(value, numQubits, targets)
  {
    hide Project, BitOf;
    var v := Project(value, numQubits, AllTargets(numQubits));
    ProjectedBits(value, numQubits, AllTargets(numQubits));
    forall i | 0 <= i < |targets| ensures BitOf(v, numQubits, targets[i]) == BitOf(value, numQubits, targets[i]) {
      BitOfIsBit(v, numQubits, targets[i]);
      assert BigEndianBits(v, numQubits)[targets[i]] == TargetBits(value, numQubits, AllTargets(numQubits))[targets[i]];
    }
    SameBits(v, value, numQubits, targets);
  }

  lemma {:induction false} SameBits(v: nat, w: nat, numQubits: nat, targets: seq<nat>)
    requires ValidTargets(targets, numQubits)
    requires forall i :: 0 <= i < |targets| ==> BitOf(v, numQubits, targets[i]) == BitOf(w, numQubits, targets[i])
    ensures Project(v, numQubits, targets) == Project(w, numQubits, targets)
  {
    hide BitOf;
    assert TargetBits(v, numQubits, targets) == TargetBits(w, numQubits, targets);
  }

  // Row i of every key is read off one underlying shot.
  lemma {:induction false} ShotsAgree(counts: Histogram, numQubits: nat, targets: seq<nat>, i: nat)
    requires ValidTargets(targets, numQubits) && i < Total(counts)
    ensures |Shots(counts, numQubits, targets)| == |Shots(counts, numQubits, AllTargets(numQubits))| == Total(counts)
    ensures Shots(counts, numQubits, targets)[i]
         == Project(Shots(counts, numQubits, AllTargets(numQubits))[i], numQubits, targets)
  {
    var all := AllTargets(numQubits);
    ShotsAreMarginal(counts, numQubits, targets, 0);
    ShotsAreMarginal(counts, numQubits, all, 0);
    var rest := counts[..|counts| - 1];
    var (value, count) := counts[|counts| - 1];
    ShotsAreMarginal(rest, numQubits, targets, 0);
    ShotsAreMarginal(rest, numQubits, all, 0);
    if i < Total(rest) {
      ShotsAgree(rest, numQubits, targets, i);
    } else {
      ProjectAgain(value, numQubits, targets);
    }
  }

  // ----- Results of a quantum processor -----

  // Insertion into entries sorted by value.
  function Inserted(sorted: Histogram, entry: (nat, nat)): (r: Histogram)
    ensures r != []
  {
    if sorted == [] || entry.0 <= sorted[0].0 then [entry] + sorted
    else [sorted[0]] + Inserted(sorted[1..], entry)
  }

  function SortedItems(items: Histogram): Histogram {
    if items == [] then [] else Inserted(SortedItems(items[1..]), items[0])
  }

  class QPUResult {
    const counts: Histogram
    const numQubits: nat
    const measurementDict: map<string, seq<nat>>
    const repetitions: nat

    constructor (items: Histogram, numQubits: nat, measurementDict: map<string, seq<nat>>)
      requires DistinctKeys(items)
      ensures this.numQubits == numQubits && this.measurementDict == measurementDict
      ensures multiset(counts) == multiset(items) && Ascending(counts) && Valid()
    {
      SortedSorts(items);
      SortedDistinct(items);
      this.counts, this.numQubits, this.measurementDict := SortedItems(items), numQubits, measurementDict;
      this.repetitions := Total(SortedItems(items));
    }

    ghost predicate Valid() {
      DistinctKeys(counts) && Ascending(counts) && repetitions == Total(counts)
    }

    // The targets of a key; without a key, all qubits.
    function TargetsOf(key: Option<string>): (targets: seq<nat>)
      requires key.Some? ==> key.value in measurementDict
    {
      match key
      case None => AllTargets(numQubits)
      case Some(k) => measurementDict[k]
    }

    method OrderedResults(key: Option<string>) returns (r: Result<seq<nat>>)
      requires Valid()
      ensures r.Err? <==>
        (key.Some? && key.value !in measurementDict) || !Readable(counts, TargetsOf(key), numQubits)
      ensures r.Err? ==> r.error == ValueError
      ensures r.Ok? ==> r.value == Shots(counts, numQubits, TargetsOf(key)) && |r.value| == repetitions
      // without a key the results come in ascending order
      ensures r.Ok? && key.None? && InRegister(counts, numQubits) ==>
        forall i, j :: 0 <= i <= j < |r.value| ==> r.value[i] <= r.value[j]
    {
      if key.Some? && key.value !in measurementDict {
        return Err(ValueError);
      }
      var targets := TargetsOf(key);
      var result := [];
      for i := 0 to |counts|
        invariant Readable(counts[..i], targets, numQubits)
        invariant result == Shots(counts[..i], numQubits, targets)
      {
        if !ValidTargets(targets, numQubits) {
          return Err(ValueError);
        }
        assert counts[..i + 1][..i] == counts[..i];
        var (value, count) := counts[i];
        result := result + Repeat(Project(value, numQubits, targets), count);
      }
      assert counts[..|counts|] == counts;
      ShotsAreMarginal(counts, numQubits, targets, 0);
      forall i, j | 0 <= i <= j < |result| && key.None? && InRegister(counts, numQubits)
        ensures result[i] <= result[j]
      {
        ShotsAscend(counts, numQubits, i, j);
      }
      return Ok(result);
    }

    // Counts of the outcomes: under a key the exact marginals, without one the histogram itself;
    // either way they add up to the repetitions.
    method Counts(key: Option<string>) returns (r: Result<multiset<nat>>)
      requires Valid()
      ensures r.Err? <==>
        key.Some? && (key.value !in measurementDict || !Readable(counts, TargetsOf(key), numQubits))
      ensures r.Err? ==> r.error == ValueError
      ensures r.Ok? ==> |r.value| == repetitions
      ensures r.Ok? && key.Some? ==> forall b :: r.value[b] == Marginal(counts, numQubits, TargetsOf(key), b)
      ensures r.Ok? && key.None? ==> forall b :: r.value[b] == Tally(counts, b)
    {
      if key == None {
        var all := HistogramCounts();
        return Ok(all);
      }
      var results := OrderedResults(key);
      match results
      case Err(e) => return Err(e);
      case Ok(shots) =>
        forall b ensures multiset(shots)[b] == Marginal(counts, numQubits, TargetsOf(key), b) {
          ShotsAreMarginal(counts, numQubits, TargetsOf(key), b);
        }
        return Ok(multiset(shots));
    }

    // The histogram itself, as a counter.
    method HistogramCounts() returns (r: multiset<nat>)
      requires Valid()
      ensures |r| == repetitions && forall b :: r[b] == Tally(counts, b)
    {
      r := multiset{};
      for i := 0 to |counts|
        invariant |r| == Total(counts[..i])
        invariant forall b :: r[b] == Tally(counts[..i], b)
      {
        assert counts[..i + 1][..i] == counts[..i];
        var (value, count) := counts[i];
        FreshOutcome(counts[..i], value);
        r := r[value := count];
      }
      assert counts[..|counts|] == counts;
    }

    // The bit rows of one key.
    method MeasurementRows(key: string) returns (rows: seq<seq<bool>>)
      requires Valid() && key in measurementDict && Readable(counts, measurementDict[key], numQubits)
      ensures rows == RowsOf(counts, numQubits, measurementDict[key]) && |rows| == repetitions
    {
      var targets := measurementDict[key];
      var results := OrderedResults(Some(key));
      var shots := results.value;
      rows := seq(|shots|, i requires 0 <= i < |shots| => BigEndianBits(shots[i], |targets|));
      ShotsAreMarginal(counts, numQubits, AllTargets(numQubits), 0);
      forall i | 0 <= i < repetitions ensures rows[i] == RowsOf(counts, numQubits, targets)[i] {
        ShotsAgree(counts, numQubits, targets, i);
        ProjectedBits(Shots(counts, numQubits, AllTargets(numQubits))[i], numQubits, targets);
      }
    }

    // to_cirq_result: the rows of every key; without measurements there is nothing to convert.
    method ToCirqResult() returns (r: Result<map<string, seq<seq<bool>>>>)
      requires Valid()
      ensures r.Err? <==>
        (measurementDict == map[]
         || exists k :: k in measurementDict && !Readable(counts, measurementDict[k], numQubits))
      ensures r.Err? ==> r.error == ValueError
      ensures r.Ok? ==> r.value == map k | k in measurementDict :: RowsOf(counts, numQubits, measurementDict[k])
    {
      if |measurementDict| == 0 {
        return Err(ValueError);
      }
      var measurements: map<string, seq<seq<bool>>> := map[];
      var todo := measurementDict.Keys;
      while todo != {}
        invariant todo <= measurementDict.Keys
        invariant forall k :: k in measurementDict && k !in todo ==> Readable(counts, measurementDict[k], numQubits)
        invariant measurements ==
          map k | k in measurementDict && k !in todo :: RowsOf(counts, numQubits, measurementDict[k])
      {
        var key :| key in todo;
        if !Readable(counts, measurementDict[key], numQubits) {
          return Err(ValueError);
        }
        var rows := MeasurementRows(key);
        measurements := measurements[key := rows];
        todo := todo - {key};
      }
      return Ok(measurements);
    }
  }

  // The bits of the targets in each shot of the full register.
  function RowsOf(counts: Histogram, numQubits: nat, targets: seq<nat>): seq<seq<bool>>
    requires Readable(counts, targets, numQubits)
  {
    var shots := Shots(counts, numQubits, AllTargets(numQubits));
    if counts == [] then []
    else seq(|shots|, i requires 0 <= i < |shots| => TargetBits(shots[i], numQubits, targets))
  }

  // Row i, column j is the bit of target j in the i-th shot of the whole register.
  lemma RowsRead(counts: Histogram, numQubits: nat, targets: seq<nat>, i: nat, j: nat)
    requires ValidTargets(targets, numQubits) && i < Total(counts) && j < |targets|
    ensures |Shots(counts, numQubits, AllTargets(numQubits))| == |RowsOf(counts, numQubits, targets)| == Total(counts)
    ensures |RowsOf(counts, numQubits, targets)[i]| == |targets|
    ensures var shot := Shots(counts, numQubits, AllTargets(numQubits))[i];
            RowsOf(counts, numQubits, targets)[i][j] == ((shot / Pow2(numQubits - 1 - targets[j])) % 2 == 1)
  {
    hide Shots;
    ShotsAreMarginal(counts, numQubits, AllTargets(numQubits), 0);
  }

  // How often the outcome b occurs in the histogram.
  function Tally(counts: Histogram, b: nat): nat {
    if counts == [] then 0
    else Tally(counts[..|counts| - 1], b) + (if counts[|counts| - 1].0 == b then counts[|counts| - 1].1 else 0)
  }

  // An outcome that no entry has does not occur.
  lemma {:induction false} FreshOutcome(counts: Histogram, value: nat)
    requires forall i :: 0 <= i < |counts| ==> counts[i].0 != value
    ensures Tally(counts, value) == 0
  {
    if counts != [] {
      FreshOutcome(counts[..|counts| - 1], value);
    }
  }

  // An outcome of the histogram occurs as often as its entry says.
  lemma {:induction false} TallyAt(counts: Histogram, i: nat)
    requires DistinctKeys(counts) && i < |counts|
    ensures Tally(counts, counts[i].0) == counts[i].1
  {
    var n := |counts| - 1;
    if i < n {
      TallyAt(counts[..n], i);
    } else {
      FreshOutcome(counts[..n], counts[n].0);
    }
  }

  // Within the register, the histogram is its own marginal on all qubits.
  lemma {:induction false} TallyIsMarginal(counts: Histogram, numQubits: nat, b: nat)
    requires InRegister(counts, numQubits)
    ensures Tally(counts, b) == Marginal(counts, numQubits, AllTargets(numQubits), b)
  {
    if counts != [] {
      hide Project;
      TallyIsMarginal(counts[..|counts| - 1], numQubits, b);
      ProjectAll(counts[|counts| - 1].0, numQubits);
    }
  }

  ghost predicate Ascending(counts: Histogram) {
    forall i, j :: 0 <= i < j < |counts| ==> counts[i].0 <= counts[j].0
  }

  lemma {:induction false} InsertedItems(sorted: Histogram, entry: (nat, nat))
    ensures multiset(Inserted(sorted, entry)) == multiset(sorted) + multiset{entry}
  {
    if sorted == [] || entry.0 <= sorted[0].0 {
    } else {
      InsertedItems(sorted[1..], entry);
      assert sorted == [sorted[0]] + sorted[1..];
    }
  }

  lemma {:induction false} InsertedSorts(sorted: Histogram, entry: (nat, nat))
    requires Ascending(sorted)
    ensures Ascending(Inserted(sorted, entry))
    ensures Inserted(sorted, entry)[0] == if sorted == [] || entry.0 <= sorted[0].0 then entry else sorted[0]
  {
    if sorted != [] && entry.0 > sorted[0].0 {
      InsertedSorts(sorted[1..], entry);
      var rest := Inserted(sorted[1..], entry);
      assert sorted[0].0 <= rest[0].0;
      assert forall i :: 0 <= i < |rest| ==> rest[0].0 <= rest[i].0;
    }
  }

  lemma {:induction false} SortedSorts(items: Histogram)
    ensures Ascending(SortedItems(items)) && multiset(SortedItems(items)) == multiset(items)
  {
    hide Inserted;
    if items != [] {
      SortedSorts(items[1..]);
      InsertedSorts(SortedItems(items[1..]), items[0]);
      InsertedItems(SortedItems(items[1..]), items[0]);
      assert items == [items[0]] + items[1..];
    }
  }

  lemma {:induction false} InsertedDistinct(sorted: Histogram, entry: (nat, nat))
    requires DistinctKeys(sorted) && forall i :: 0 <= i < |sorted| ==> sorted[i].0 != entry.0
    ensures DistinctKeys(Inserted(sorted, entry))
  {
    if sorted != [] && entry.0 > sorted[0].0 {
      InsertedDistinct(sorted[1..], entry);
      InsertedItems(sorted[1..], entry);
      var rest := Inserted(sorted[1..], entry);
      forall i | 0 <= i < |rest| ensures rest[i].0 != sorted[0].0 {
        assert rest[i] in multiset(rest);
        assert rest[i] == entry || rest[i] in sorted[1..];
      }
    }
  }

  lemma {:induction false} SortedDistinct(items: Histogram)
    requires DistinctKeys(items)
    ensures DistinctKeys(SortedItems(items))
  {
    if items != [] {
      SortedDistinct(items[1..]);
      SortedSorts(items[1..]);
      var rest := SortedItems(items[1..]);
      forall i | 0 <= i < |rest| ensures rest[i].0 != items[0].0 {
        assert rest[i] in multiset(items[1..]);
      }
      InsertedDistinct(rest, items[0]);
    }
  }

  // ----- Results of the simulator -----

  // The probability of the projected outcome b.
  function Mass(items: seq<(nat, real)>, numQubits: nat, targets: seq<nat>, b: nat): real
    requires Readable(items, targets, numQubits)
  {
    if items == [] then 0.0
    else
      var (value, p) := items[|items| - 1];
      Mass(items[..|items| - 1], numQubits, targets, b)
        + (if Project(value, numQubits, targets) == b then p else 0.0)
  }

  function TotalMass(items: seq<(nat, real)>): real {
    if items == [] then 0.0 else TotalMass(items[..|items| - 1]) + items[|items| - 1].1
  }

  ghost predicate Hit(items: seq<(nat, real)>, numQubits: nat, targets: seq<nat>, b: nat)
    requires Readable(items, targets, numQubits)
  {
    exists i :: 0 <= i < |items| && Project(items[i].0, numQubits, targets) == b
  }

  // r maps exactly the projected outcomes that occur, each to its mass.
  ghost predicate IsMarginal(r: map<nat, real>, items: seq<(nat, real)>, numQubits: nat, targets: seq<nat>)
    requires Readable(items, targets, numQubits)
  {
    && (forall b :: b in r <==> Hit(items, numQubits, targets, b))
    && (forall b :: b in r ==> r[b] == Mass(items, numQubits, targets, b))
  }

  // The dictionary with these entries.
  function AsMap(items: seq<(nat, real)>): map<nat, real> {
    if items == [] then map[] else AsMap(items[..|items| - 1])[items[|items| - 1].0 := items[|items| - 1].1]
  }

  lemma {:induction false} AsMapAt(items: seq<(nat, real)>, i: nat)
    requires DistinctKeys(items) && i < |items|
    ensures items[i].0 in AsMap(items) && AsMap(items)[items[i].0] == items[i].1
  {
    var n := |items| - 1;
    if i < n { AsMapAt(items[..n], i); }
  }

  // The probabilities under a key, or the stored ones.
  method Probabilities(items: seq<(nat, real)>, numQubits: nat, measurementDict: map<string, seq<nat>>,
                       key: Option<string>)
    returns (r: Result<map<nat, real>>)
    ensures r.Err? <==>
      key.Some? && (key.value !in measurementDict || !Readable(items, measurementDict[key.value], numQubits))
    ensures r.Err? ==> r.error == ValueError
    ensures key.None? ==> r == Ok(AsMap(items))
    ensures r.Ok? && key.Some? ==> IsMarginal(r.value, items, numQubits, measurementDict[key.value])
  {
    if key.None? {
      return Ok(AsMap(items));
    }
    if key.value !in measurementDict {
      return Err(ValueError);
    }
    hide IsMarginal, Hit, Mass, Project;
    var targets := measurementDict[key.value];
    var result: map<nat, real> := map[];
    MarginalOfNothing(numQubits, targets);
    assert items[..0] == [];
    for i := 0 to |items|
      invariant Readable(items[..i], targets, numQubits)
      invariant IsMarginal(result, items[..i], numQubits, targets)
    {
      if !ValidTargets(targets, numQubits) {
        return Err(ValueError);
      }
      var (value, p) := items[i];
      var b := Project(value, numQubits, targets);
      MarginalStep(result, items, i, numQubits, targets);
      if b in result {
        result := result[b := result[b] + p];
      } else {
        result := result[b := p];
      }
    }
    assert items[..|items|] == items;
    return Ok(result);
  }

  // Within the register, the stored probabilities are their own marginal on all qubits.
  lemma {:induction false} StoredIsMarginal(items: seq<(nat, real)>, numQubits: nat)
    requires DistinctKeys(items) && InRegister(items, numQubits)
    ensures IsMarginal(AsMap(items), items, numQubits, AllTargets(numQubits))
  {
    if items == [] {
      MarginalOfNothing(numQubits, AllTargets(numQubits));
    } else {
      var n := |items| - 1;
      if items[n].0 in AsMap(items[..n]) {
        var _ := AsMapKey(items[..n], items[n].0);
      }
      StoredIsMarginal(items[..n], numQubits);
      hide IsMarginal, Project, DistinctKeys;
      ProjectAll(items[n].0, numQubits);
      MarginalStep(AsMap(items[..n]), items, n, numQubits, AllTargets(numQubits));
      assert items[..n + 1] == items;
    }
  }

  lemma {:induction false} AsMapKey(items: seq<(nat, real)>, v: nat) returns (i: nat)
    requires v in AsMap(items)
    ensures i < |items| && items[i].0 == v
  {
    var n := |items| - 1;
    if items[n].0 == v {
      i := n;
    } else {
      i := AsMapKey(items[..n], v);
    }
  }

  lemma MarginalOfNothing(numQubits: nat, targets: seq<nat>)
    ensures IsMarginal(map[], [], numQubits, targets)
  {
  }

  lemma MarginalStep(r: map<nat, real>, items: seq<(nat, real)>, i: nat, numQubits: nat, targets: seq<nat>)
    requires i < |items| && ValidTargets(targets, numQubits) && IsMarginal(r, items[..i], numQubits, targets)
    ensures var (value, p) := items[i]; var b := Project(value, numQubits, targets);
      IsMarginal(if b in r then r[b := r[b] + p] else r[b := p], items[..i + 1], numQubits, targets)
  {
    hide Project, Hit;
    var (value, p) := items[i];
    var b := Project(value, numQubits, targets);
    HitStep(items, i, numQubits, targets);
    if b !in r { NoMassWithoutHit(items[..i], numQubits, targets, b); }
    assert items[..i + 1][..i] == items[..i];
    assert forall c :: Mass(items[..i + 1], numQubits, targets, c)
                    == Mass(items[..i], numQubits, targets, c) + (if b == c then p else 0.0);
  }

  lemma HitStep(items: seq<(nat, real)>, i: nat, numQubits: nat, targets: seq<nat>)
    requires i < |items| && ValidTargets(targets, numQubits)
    ensures items[..i + 1][..i] == items[..i]
    ensures forall b :: Hit(items[..i + 1], numQubits, targets, b) <==>
              (Hit(items[..i], numQubits, targets, b) || Project(items[i].0, numQubits, targets) == b)
  {
    forall b | Hit(items[..i], numQubits, targets, b) ensures Hit(items[..i + 1], numQubits, targets, b) {
      var j :| 0 <= j < i && Project(items[..i][j].0, numQubits, targets) == b;
      assert items[..i + 1][j] == items[..i][j];
    }
    forall b | Hit(items[..i + 1], numQubits, targets, b)
      ensures Hit(items[..i], numQubits, targets, b) || Project(items[i].0, numQubits, targets) == b
    {
      var j :| 0 <= j < i + 1 && Project(items[..i + 1][j].0, numQubits, targets) == b;
      if j < i { assert items[..i][j] == items[..i + 1][j]; }
    }
    assert Hit(items[..i + 1], numQubits, targets, Project(items[i].0, numQubits, targets)) by {
      assert items[..i + 1][i] == items[i];
    }
  }

  lemma {:induction false} NoMassWithoutHit(items: seq<(nat, real)>, numQubits: nat, targets: seq<nat>, b: nat)
    requires ValidTargets(targets, numQubits) && !Hit(items, numQubits, targets, b)
    ensures Mass(items, numQubits, targets, b) == 0.0
  {
    if items != [] {
      var n := |items| - 1;
      assert Project(items[n].0, numQubits, targets) != b;
      assert forall j :: 0 <= j < n ==> items[..n][j] == items[j];
      NoMassWithoutHit(items[..n], numQubits, targets, b);
    }
  }

  // The mass of all outcomes below a bound.
  function MassBelow(items: seq<(nat, real)>, numQubits: nat, targets: seq<nat>, bound: nat): real
    requires ValidTargets(targets, numQubits)
  {
    if bound == 0 then 0.0
    else MassBelow(items, numQubits, targets, bound - 1) + Mass(items, numQubits, targets, bound - 1)
  }

  lemma {:induction false} MassBelowStep(items: seq<(nat, real)>, numQubits: nat, targets: seq<nat>, bound: nat)
    requires ValidTargets(targets, numQubits) && items != []
    ensures MassBelow(items, numQubits, targets, bound)
         == MassBelow(items[..|items| - 1], numQubits, targets, bound)
            + (if Project(items[|items| - 1].0, numQubits, targets) < bound then items[|items| - 1].1 else 0.0)
  {
    if bound > 0 { MassBelowStep(items, numQubits, targets, bound - 1); }
  }

  lemma {:induction false} NoMassOfNothing(numQubits: nat, targets: seq<nat>, bound: nat)
    requires ValidTargets(targets, numQubits)
    ensures MassBelow([], numQubits, targets, bound) == 0.0
  {
    if bound > 0 { NoMassOfNothing(numQubits, targets, bound - 1); }
  }

  // Projecting conserves the total probability.
  lemma {:induction false} MassConserved(items: seq<(nat, real)>, numQubits: nat, targets: seq<nat>)
    requires ValidTargets(targets, numQubits)
    ensures MassBelow(items, numQubits, targets, Pow2(|targets|)) == TotalMass(items)
  {
    if items == [] {
      NoMassOfNothing(numQubits, targets, Pow2(|targets|));
    } else {
      MassConserved(items[..|items| - 1], numQubits, targets);
      MassBelowStep(items, numQubits, targets, Pow2(|targets|));
    }
  }
}
