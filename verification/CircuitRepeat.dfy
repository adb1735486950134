// Repeating a subcircuit operation: which calls succeed, how the repetition ids combine, and that
// repeating raises the unrolled meaning to a power.
module CircuitRepeat {
  import opened Prelude
  import opened Text
  import opened Groups
  import opened MeasurementKey
  import opened CircuitOperation
  import opened CircuitNesting
  import opened CircuitExpansion

  const SEPARATOR: char := '-'

  // ----- Joining repetition ids -----

  function JoinId(first: string, second: string): string {
    first + [SEPARATOR] + second
  }

  function JoinRow(first: string, list: seq<string>): (r: seq<string>)
    ensures |r| == |list| && forall j :: 0 <= j < |list| ==> r[j] == JoinId(first, list[j])
  {
    seq(|list|, j requires 0 <= j < |list| => JoinId(first, list[j]))
  }

  // The first list varies slowest.
  function JoinLists(list1: seq<string>, list2: seq<string>): seq<string> {
    if list1 == [] then [] else JoinLists(list1[..|list1| - 1], list2) + JoinRow(list1[|list1| - 1], list2)
  }

  // _full_join_string_lists
  function FullJoin(list1: Option<seq<string>>, list2: Option<seq<string>>): Option<seq<string>> {
    match (list1, list2)
    case (None, _) => list2
    case (_, None) => list1
    case (Some(l1), Some(l2)) => Some(JoinLists(l1, l2))
  }

  ghost predicate Distinct(s: seq<string>) {
    forall i, j :: 0 <= i < j < |s| ==> s[i] != s[j]
  }

  // A caller's check on new ids: none, closed by the separator, starts another.
  ghost predicate NoneExtends(s: seq<string>) {
    forall i, j :: 0 <= i < |s| && 0 <= j < |s| && i != j ==> !(s[i] + [SEPARATOR] <= s[j])
  }

  lemma {:induction false} JoinLength(list1: seq<string>, list2: seq<string>)
    ensures |JoinLists(list1, list2)| == |list1| * |list2|
  {
    if list1 != [] {
      JoinLength(list1[..|list1| - 1], list2);
      assert (|list1| - 1) * |list2| + |list2| == |list1| * |list2|;
    }
  }

  // Two joined ids that agree have the same new id, or one new id extends the other.
  lemma JoinIdEqual(a: string, b: string, a': string, b': string)
    requires JoinId(a, b) == JoinId(a', b')
    ensures (a == a' && b == b') || a + [SEPARATOR] <= a' || a' + [SEPARATOR] <= a
  {
    var t := JoinId(a, b);
    assert a + [SEPARATOR] == t[..|a| + 1] && b == t[|a| + 1..];
    assert a' + [SEPARATOR] == t[..|a'| + 1] && b' == t[|a'| + 1..];
    if |a| < |a'| {
      assert a + [SEPARATOR] <= a';
    } else if |a'| < |a| {
      assert a' + [SEPARATOR] <= a;
    } else {
      assert a == t[..|a|] == a';
    }
  }

  lemma {:induction false} JoinMembers(list1: seq<string>, list2: seq<string>, x: string)
    requires x in JoinLists(list1, list2)
    ensures exists i, j :: 0 <= i < |list1| && 0 <= j < |list2| && x == JoinId(list1[i], list2[j])
  {
    var n := |list1| - 1;
    if x in JoinLists(list1[..n], list2) {
      JoinMembers(list1[..n], list2, x);
      var i, j :| 0 <= i < n && 0 <= j < |list2| && x == JoinId(list1[..n][i], list2[j]);
      assert x == JoinId(list1[i], list2[j]);
    } else {
      var j :| 0 <= j < |list2| && JoinRow(list1[n], list2)[j] == x;
      assert x == JoinId(list1[n], list2[j]);
    }
  }

  // Distinct new ids none of which extends another, joined with distinct old ids, stay distinct.
  lemma {:induction false} JoinDistinct(list1: seq<string>, list2: seq<string>)
    requires Distinct(list1) && Distinct(list2) && NoneExtends(list1)
    ensures Distinct(JoinLists(list1, list2))
  {
    if list1 != [] {
      var n := |list1| - 1;
      var rest, row := JoinLists(list1[..n], list2), JoinRow(list1[n], list2);
      JoinDistinct(list1[..n], list2);
      forall i, j | 0 <= i < j < |row| ensures row[i] != row[j] {
        if row[i] == row[j] { JoinIdEqual(list1[n], list2[i], list1[n], list2[j]); }
      }
      forall i, j | 0 <= i < |rest| && 0 <= j < |row| ensures rest[i] != row[j] {
        JoinMembers(list1[..n], list2, rest[i]);
        var k, l :| 0 <= k < n && 0 <= l < |list2| && rest[i] == JoinId(list1[..n][k], list2[l]);
        if rest[i] == row[j] { JoinIdEqual(list1[k], list2[l], list1[n], list2[j]); }
      }
    }
  }

  // The place of the pair (i, j) in the joined list.
  lemma {:induction false} JoinHas(list1: seq<string>, list2: seq<string>, i: nat, j: nat)
    requires i < |list1| && j < |list2|
    ensures i * |list2| + j < |JoinLists(list1, list2)|
    ensures JoinLists(list1, list2)[i * |list2| + j] == JoinId(list1[i], list2[j])
  {
    var n := |list1| - 1;
    JoinLength(list1[..n], list2);
    if i < n {
      JoinHas(list1[..n], list2, i, j);
    }
  }

  // What is left of an extended id.
  lemma Rest(a: string, b: string) returns (s: string)
    requires a + [SEPARATOR] <= b
    ensures b == a + [SEPARATOR] + s
  {
    s := b[|a| + 1..];
  }

  lemma TwoOldIds(s: string)
    ensures Distinct([JoinId(s, "x"), "x"])
  {
    assert |JoinId(s, "x")| > |"x"|;
  }

  // If one new id extends another, some distinct old ids collide: what is left of the longer one
  // is spelled by an old id.
  lemma {:induction false} ExtendedIdsCollide(list1: seq<string>, i: nat, k: nat) returns (list2: seq<string>)
    requires i < |list1| && k < |list1| && i != k && list1[i] + [SEPARATOR] <= list1[k]
    ensures Distinct(list2) && !Distinct(JoinLists(list1, list2))
  {
    hide *;
    var s := Rest(list1[i], list1[k]);
    list2 := [JoinId(s, "x"), "x"];
    TwoOldIds(s);
    JoinHas(list1, list2, i, 0);
    JoinHas(list1, list2, k, 1);
    JoinIdNests(list1[i], s, "x");
    SameTwice(JoinLists(list1, list2), i * 2, k * 2 + 1);
  }

  lemma JoinIdNests(a: string, b: string, x: string)
    ensures JoinId(a, JoinId(b, x)) == JoinId(a + [SEPARATOR] + b, x)
  {
  }

  lemma SameTwice(s: seq<string>, p: nat, q: nat)
    requires p < |s| && q < |s| && p != q && s[p] == s[q]
    ensures !Distinct(s)
  {
  }

  // Exactly which distinct new ids join to distinct ids with every distinct list of old ids.
  lemma JoinDistinctIff(list1: seq<string>)
    requires Distinct(list1)
    ensures (forall list2 :: Distinct(list2) ==> Distinct(JoinLists(list1, list2))) <==> NoneExtends(list1)
  {
    hide JoinLists;
    if NoneExtends(list1) {
      forall list2 | Distinct(list2) ensures Distinct(JoinLists(list1, list2)) {
        JoinDistinct(list1, list2);
      }
    } else {
      var i, k :| 0 <= i < |list1| && 0 <= k < |list1| && i != k && list1[i] + [SEPARATOR] <= list1[k];
      var list2 := ExtendedIdsCollide(list1, i, k);
    }
  }

  // The check passes on to the joined ids, so that repeating again stays distinct.
  lemma JoinNoneExtends(list1: seq<string>, list2: seq<string>)
    requires NoneExtends(list1) && NoneExtends(list2) && Distinct(list1) && Distinct(list2)
    ensures NoneExtends(JoinLists(list1, list2))
  {
    var joined := JoinLists(list1, list2);
    forall i, j | 0 <= i < |joined| && 0 <= j < |joined| && i != j ensures !(joined[i] + [SEPARATOR] <= joined[j]) {
      JoinMembers(list1, list2, joined[i]);
      JoinMembers(list1, list2, joined[j]);
      var p, q :| 0 <= p < |list1| && 0 <= q < |list2| && joined[i] == JoinId(list1[p], list2[q]);
      var p', q' :| 0 <= p' < |list1| && 0 <= q' < |list2| && joined[j] == JoinId(list1[p'], list2[q']);
      if joined[i] + [SEPARATOR] <= joined[j] {
        JoinIdPrefix(list1[p], list2[q], list1[p'], list2[q']);
      }
    }
  }

  lemma JoinIdPrefix(a: string, b: string, a': string, b': string)
    requires JoinId(a, b) + [SEPARATOR] <= JoinId(a', b')
    ensures (a == a' && b + [SEPARATOR] <= b') || a + [SEPARATOR] <= a' || a' + [SEPARATOR] <= a
  {
    var t := JoinId(a', b');
    var b'' := t[|a| + 1..];
    assert a + [SEPARATOR] == (JoinId(a, b) + [SEPARATOR])[..|a| + 1] == t[..|a| + 1];
    assert t == JoinId(a, b'');
    JoinIdEqual(a, b'', a', b');
    assert b + [SEPARATOR] == (JoinId(a, b) + [SEPARATOR])[|a| + 1..];
  }

  lemma NumeralsDistinct(n: nat)
    ensures Distinct(Numerals(n)) && NoneExtends(Numerals(n)) && "" !in Numerals(n)
  {
    forall i, j | 0 <= i < j < n ensures Numerals(n)[i] != Numerals(n)[j] {
      if ToDecimal(i) == ToDecimal(j) { DecimalInjective(i, j); }
    }
    forall i, j | 0 <= i < n && 0 <= j < n && i != j ensures !(Numerals(n)[i] + [SEPARATOR] <= Numerals(n)[j]) {
      NotExtended(ToDecimal(i), ToDecimal(j));
    }
  }

  // An id without the separator extends no other.
  lemma NotExtended(a: string, b: string)
    requires SEPARATOR !in b
    ensures !(a + [SEPARATOR] <= b)
  {
    assert (a + [SEPARATOR])[|a|] == SEPARATOR;
    if |a| < |b| {
      assert b[|a|] != SEPARATOR;
    }
  }

  // Default ids exist unless the count is 1 or -1; there is one per repetition, they differ, none
  // is empty, none holds the separator of keys, and they pass the check on new ids.
  lemma DefaultIdsFit(repetitions: int)
    ensures DefaultRepetitionIds(repetitions).None? <==> repetitions == 1 || repetitions == -1
    ensures DefaultRepetitionIds(repetitions).Some? ==>
            var ids := DefaultRepetitionIds(repetitions).value;
            && |ids| == Abs(repetitions) && Distinct(ids) && NoneExtends(ids) && "" !in ids
            && forall i :: 0 <= i < |ids| ==> COLON !in ids[i] && FromDecimal(ids[i]) == Some(i)
  {
    hide ToDecimal, FromDecimal, NoneExtends, Distinct;
    NumeralsDistinct(Abs(repetitions));
    forall i | 0 <= i < Abs(repetitions) ensures FromDecimal(ToDecimal(i)) == Some(i) {
      DecimalRoundTrip(i);
    }
  }

  // ----- Repeating -----

  // The ids a call brings along, and whether ids are in use afterwards.
  function UseIds(c: CircuitOp, ids: Option<seq<string>>, use: Option<bool>): bool {
    match use
    case Some(u) => u
    case None => ids.Some? || c.useRepetitionIds
  }

  function OwnIds(r: int, ids: Option<seq<string>>, use: bool): Option<seq<string>> {
    if ids.None? && use then DefaultRepetitionIds(Abs(r)) else ids
  }

  // The count of a call: the length of the ids if none is given.
  function Count(repetitions: Option<int>, ids: Option<seq<string>>): int
    requires repetitions.Some? || ids.Some?
  {
    if repetitions.Some? then repetitions.value else |ids.value|
  }

  function Repeat(c: CircuitOp, repetitions: Option<int>, ids: Option<seq<string>>, useIds: Option<bool>)
    : Result<CircuitOp>
  {
    var use := UseIds(c, ids, useIds);
    if repetitions.None? && ids.None? then Err(ValueError)
    else
      var r := Count(repetitions, ids);
      if r == 1 && ids.None? then Ok(c)
      else if ids.Some? && |ids.value| != Abs(r) then Err(ValueError)
      else
        var joined := FullJoin(OwnIds(r, ids, use), c.repetitionIds);
        Construct(c.circuit, c.repetitions * r, joined, use, c.keyMap, c.parentPath)
  }

  // The joined ids fit the new count: either both sides number their repetitions, or the side
  // that does not repeats at most once.
  predicate IdsFit(c: CircuitOp, r: int, ids: Option<seq<string>>, use: bool) {
    if ids.Some? || (use && Abs(r) != 1) then c.repetitionIds.Some? || r == 0 || Abs(c.repetitions) == 1
    else c.repetitionIds.None? || c.repetitions == 0 || Abs(r) == 1
  }

  lemma AbsProduct(a: int, b: int)
    ensures Abs(a * b) == Abs(a) * Abs(b)
  {
  }

  lemma ProductIsFactor(a: nat, b: nat)
    ensures a * b == b <==> b == 0 || a == 1
  {
    if a >= 2 && b > 0 {
      assert a * b == b + (a - 1) * b;
      assert (a - 1) * b > 0;
    }
  }

  // The constructor's length check on the joined ids.
  lemma {:induction false} JoinFits(c: CircuitOp, r: int, own: Option<seq<string>>)
    requires Valid(c) && (own.Some? ==> |own.value| == Abs(r))
    ensures var joined := FullJoin(own, c.repetitionIds);
            (joined.None? || joined.value == [] || |joined.value| == Abs(c.repetitions * r))
            <==> (if own.Some? then c.repetitionIds.Some? || r == 0 || Abs(c.repetitions) == 1
                  else c.repetitionIds.None? || c.repetitions == 0 || Abs(r) == 1)
  {
    AbsProduct(c.repetitions, r);
    ProductIsFactor(Abs(c.repetitions), Abs(r));
    ProductIsFactor(Abs(r), Abs(c.repetitions));
    if own.Some? && c.repetitionIds.Some? {
      JoinLength(own.value, c.repetitionIds.value);
      assert Abs(r) * Abs(c.repetitions) == Abs(c.repetitions) * Abs(r);
    }
  }

  // Exactly which calls succeed.
  lemma {:induction false} RepeatSucceedsIff(c: CircuitOp, repetitions: Option<int>, ids: Option<seq<string>>,
                                             useIds: Option<bool>)
    requires Valid(c)
    ensures Repeat(c, repetitions, ids, useIds).Ok? <==>
            (repetitions.Some? || ids.Some?) &&
            var r := Count(repetitions, ids);
            ((r == 1 && ids.None?) ||
             ((ids.Some? ==> |ids.value| == Abs(r))
              && (c.repetitions * r < 0 ==> Inverse(c.circuit).Some?)
              && IdsFit(c, r, ids, UseIds(c, ids, useIds))))
  {
    hide JoinLists, Inverse;
    if repetitions.Some? || ids.Some? {
      var r := Count(repetitions, ids);
      var own := OwnIds(r, ids, UseIds(c, ids, useIds));
      if ids.Some? ==> |ids.value| == Abs(r) {
        assert own.Some? ==> |own.value| == Abs(r);
        JoinFits(c, r, own);
      }
    }
  }

  // Two calls that are turned away: three ids for an operation that repeats twice without ids,
  // and a plain repeat of an operation whose ids are switched off.
  lemma RefusedRepeats(ids: seq<string>)
    requires |ids| == 3
    ensures var plain := CircuitOp([], 2, None, false, map[], []);
            Valid(plain) && Repeat(plain, Some(3), Some(ids), None) == Err(ValueError)
    ensures var muted := CircuitOp([], 2, Some(["x", "y"]), false, map[], []);
            Valid(muted) && Repeat(muted, Some(3), None, None) == Err(ValueError)
  {
    RepeatSucceedsIff(CircuitOp([], 2, None, false, map[], []), Some(3), Some(ids), None);
    RepeatSucceedsIff(CircuitOp([], 2, Some(["x", "y"]), false, map[], []), Some(3), None, None);
  }

  // What a repetition leaves: a valid operation over the same circuit with the counts multiplied.
  lemma RepeatResult(c: CircuitOp, repetitions: Option<int>, ids: Option<seq<string>>, useIds: Option<bool>)
    requires Valid(c) && Repeat(c, repetitions, ids, useIds).Ok?
    ensures repetitions.Some? || ids.Some?
    ensures var r := Repeat(c, repetitions, ids, useIds).value;
            && Valid(r) && r.circuit == c.circuit && r.keyMap == c.keyMap && r.parentPath == c.parentPath
            && r.repetitions == c.repetitions * Count(repetitions, ids)
  {
    hide JoinLists, Inverse;
  }

  // With ids in use and more than one repetition, every repetition has its own id, provided the
  // new and old ids were distinct and, where they are joined, no new id extends another.
  lemma RepeatIds(c: CircuitOp, repetitions: Option<int>, ids: Option<seq<string>>, useIds: Option<bool>)
    requires Valid(c) && Repeat(c, repetitions, ids, useIds).Ok?
    requires c.repetitionIds.Some? ==> Distinct(c.repetitionIds.value)
    requires ids.Some? ==> Distinct(ids.value) && (c.repetitionIds.Some? ==> NoneExtends(ids.value))
    ensures repetitions.Some? || ids.Some?
    ensures var r := Repeat(c, repetitions, ids, useIds).value; var total := c.repetitions * Count(repetitions, ids);
            && (r.useRepetitionIds && r.repetitionIds.None? ==> Abs(total) == 1)
            && (r.repetitionIds.Some? ==> |r.repetitionIds.value| == Abs(total) && Distinct(r.repetitionIds.value))
    // and the check holds again for the result, if it held for both lists
    ensures var r := Repeat(c, repetitions, ids, useIds).value;
            ((c.repetitionIds.Some? ==> NoneExtends(c.repetitionIds.value)) && (ids.Some? ==> NoneExtends(ids.value)))
            ==> (r.repetitionIds.Some? ==> NoneExtends(r.repetitionIds.value))
  {
    hide JoinLists, Distinct, NoneExtends, Numerals;
    RepeatResult(c, repetitions, ids, useIds);
    var count := Count(repetitions, ids);
    var own := OwnIds(count, ids, UseIds(c, ids, useIds));
    NumeralsDistinct(Abs(count));
    NumeralsDistinct(Abs(c.repetitions * count));
    if own.Some? && c.repetitionIds.Some? {
      JoinDistinct(own.value, c.repetitionIds.value);
      if NoneExtends(own.value) && NoneExtends(c.repetitionIds.value) {
        JoinNoneExtends(own.value, c.repetitionIds.value);
      }
    }
  }

  // What the constructor keeps: the given ids, or the default ones if ids are in use and none
  // are given; and everything else as it is given.
  lemma ConstructedOperation(circuit: seq<Op>, repetitions: int, ids: Option<seq<string>>, use: bool,
                             keyMap: map<string, string>, parentPath: seq<string>)
    ensures Construct(circuit, repetitions, ids, use, keyMap, parentPath).Ok? <==>
            && (forall n :: n in keyMap ==> ':' !in keyMap[n])
            && (repetitions < 0 ==> Inverse(circuit).Some?)
            && (ids.Some? && ids.value != [] ==> |ids.value| == Abs(repetitions))
    ensures Construct(circuit, repetitions, ids, use, keyMap, parentPath).Ok? ==>
            var c := Construct(circuit, repetitions, ids, use, keyMap, parentPath).value;
            && c.circuit == circuit && c.repetitions == repetitions && c.useRepetitionIds == use
            && c.keyMap == keyMap && c.parentPath == parentPath
            && (ids.Some? && ids.value != [] ==> c.repetitionIds == ids)
            && (ids.None? || ids.value == [] ==>
                  c.repetitionIds == if use then DefaultRepetitionIds(repetitions) else None)
  {
    hide Inverse, DefaultRepetitionIds;
  }

  // Which ids a repetition ends up with: the call's own ids, given or numbered, where the operation
  // has none; the operation's where the call brings none; and otherwise every own id followed by
  // every old one, own ids varying slowest.
  lemma RepeatedIds(c: CircuitOp, repetitions: Option<int>, ids: Option<seq<string>>, useIds: Option<bool>)
    requires Valid(c) && Repeat(c, repetitions, ids, useIds).Ok?
    ensures repetitions.Some? || ids.Some?
    ensures var r := Repeat(c, repetitions, ids, useIds).value;
            var count := Count(repetitions, ids);
            if count == 1 && ids.None? then r == c
            else
              var use := if useIds.Some? then useIds.value else ids.Some? || c.useRepetitionIds;
              var own := if ids.Some? then ids else if use then DefaultRepetitionIds(Abs(count)) else None;
              && r.useRepetitionIds == use
              && (own.Some? && own.value != [] && c.repetitionIds.None? ==> r.repetitionIds == own)
              && (own.None? && c.repetitionIds.Some? && c.repetitionIds.value != [] ==>
                    r.repetitionIds == c.repetitionIds)
              && (own.Some? && own.value != [] && c.repetitionIds.Some? && c.repetitionIds.value != [] ==>
                    r.repetitionIds.Some? && IsJoined(own.value, c.repetitionIds.value, r.repetitionIds.value))
              && ((own.None? && c.repetitionIds.None?) || own == Some([]) || c.repetitionIds == Some([]) ==>
                    r.repetitionIds == if use then DefaultRepetitionIds(c.repetitions * count) else None)
  {
    hide Inverse, JoinLists, DefaultRepetitionIds, IsJoined;
    var own := OwnIds(Count(repetitions, ids), ids, UseIds(c, ids, useIds));
    if own.Some? && own.value != [] && c.repetitionIds.Some? && c.repetitionIds.value != [] {
      JoinedLists(own.value, c.repetitionIds.value);
      NonEmptyJoin(own.value, c.repetitionIds.value);
    }
    if own.Some? && c.repetitionIds.Some? && (own.value == [] || c.repetitionIds.value == []) {
      JoinLength(own.value, c.repetitionIds.value);
    }
  }

  // Position i * |old| + j holds new i and old j with a hyphen between them.
  ghost predicate IsJoined(newIds: seq<string>, oldIds: seq<string>, joined: seq<string>) {
    && |joined| == |newIds| * |oldIds|
    && forall i, j :: 0 <= i < |newIds| && 0 <= j < |oldIds| ==>
         Holds(joined, i * |oldIds| + j, newIds[i] + "-" + oldIds[j])
  }

  ghost predicate Holds(s: seq<string>, p: int, x: string) {
    0 <= p < |s| && s[p] == x
  }

  lemma JoinedLists(newIds: seq<string>, oldIds: seq<string>)
    ensures IsJoined(newIds, oldIds, JoinLists(newIds, oldIds))
  {
    hide JoinLists;
    JoinLength(newIds, oldIds);
    forall i, j | 0 <= i < |newIds| && 0 <= j < |oldIds|
      ensures Holds(JoinLists(newIds, oldIds), i * |oldIds| + j, newIds[i] + "-" + oldIds[j])
    {
      JoinHas(newIds, oldIds, i, j);
      assert "-" == [SEPARATOR];
    }
  }

  lemma NonEmptyJoin(newIds: seq<string>, oldIds: seq<string>)
    requires newIds != [] && oldIds != []
    ensures JoinLists(newIds, oldIds) != []
  {
    JoinHas(newIds, oldIds, 0, 0);
  }

  // A concrete collision: "a-a" extends "a".
  lemma SeparatorCollides()
    ensures var newIds, oldIds := ["a", "a-a"], ["a-b", "b"];
            Distinct(newIds) && Distinct(oldIds) && !Distinct(JoinLists(newIds, oldIds))
  {
    var newIds, oldIds := ["a", "a-a"], ["a-b", "b"];
    var first, second := JoinRow("a", oldIds), JoinRow("a-a", oldIds);
    assert newIds[..1] == ["a"] && ["a"][..0] == [];
    assert JoinLists(newIds, oldIds) == first + second;
    assert first[0] == "a-a-b" && second[1] == "a-a-b";
    assert (first + second)[0] == (first + second)[3];
    assert "a-b"[0] != "b"[0];
  }

  // Inverting a subcircuit is repeating it minus once.
  lemma InverseIsRepeat(c: CircuitOp)
    requires Valid(c)
    ensures InverseOp(Sub(c)) == match Repeat(c, Some(-1), None, None)
                                 case Ok(r) => Some(Sub(r))
                                 case Err(_) => None
  {
    hide Inverse, JoinLists;
    assert c.repetitions * -1 == -c.repetitions;
  }

  // ----- What an unrolled circuit means -----

  // An invertible interpretation: an element per gate, one for every measurement.
  datatype Interp<!G(!new)> = Interp(group: Group<G>, gate: nat -> G, measure: G)

  ghost function MeaningOfOp<G(!new)>(m: Interp<G>, op: Op): G
    decreases op, 0
  {
    match op
    case Gate(id, inverted) => if inverted then m.group.inv(m.gate(id)) else m.gate(id)
    case Measure(_) => m.measure
    case Sub(c) => PowerInt(m.group, Meaning(m, c.circuit), c.repetitions)
  }

  // Operations in order, first one leftmost.
  ghost function Meaning<G(!new)>(m: Interp<G>, ops: seq<Op>): G
    decreases ops, 0
  {
    if ops == [] then m.group.one
    else m.group.mul(Meaning(m, ops[..|ops| - 1]), MeaningOfOp(m, ops[|ops| - 1]))
  }

  lemma {:induction false} MeaningConcat<G(!new)>(m: Interp<G>, a: seq<Op>, b: seq<Op>)
    requires IsGroup(m.group)
    ensures Meaning(m, a + b) == m.group.mul(Meaning(m, a), Meaning(m, b))
  {
    hide IsGroup, MeaningOfOp;
    if b == [] {
      assert a + b == a;
      UnitAndInverse(m.group, Meaning(m, a));
    } else {
      var n := |b| - 1;
      MeaningConcat(m, a, b[..n]);
      assert (a + b)[..|a + b| - 1] == a + b[..n];
      Associate(m.group, Meaning(m, a), Meaning(m, b[..n]), MeaningOfOp(m, b[n]));
    }
  }

  lemma MeaningOne<G(!new)>(m: Interp<G>, op: Op)
    requires IsGroup(m.group)
    ensures Meaning(m, [op]) == MeaningOfOp(m, op)
  {
    hide IsGroup, MeaningOfOp;
    assert [op][..0] == [];
    UnitAndInverse(m.group, MeaningOfOp(m, op));
  }

  lemma {:induction false} InverseOpMeaning<G(!new)>(m: Interp<G>, op: Op)
    requires IsGroup(m.group) && InverseOp(op).Some?
    ensures MeaningOfOp(m, InverseOp(op).value) == m.group.inv(MeaningOfOp(m, op))
  {
    hide IsGroup, PowerInt, Meaning;
    match op
    case Gate(id, _) => InverseTwice(m.group, m.gate(id));
    case Measure(_) =>
    case Sub(c) => PowerIntInverse(m.group, Meaning(m, c.circuit), c.repetitions);
  }

  lemma {:induction false} InverseMeaning<G(!new)>(m: Interp<G>, ops: seq<Op>)
    requires IsGroup(m.group) && Inverse(ops).Some?
    ensures Meaning(m, Inverse(ops).value) == m.group.inv(Meaning(m, ops))
  {
    hide IsGroup, MeaningOfOp, InverseOp;
    if ops == [] {
      InverseTwice(m.group, m.group.one);
    } else {
      var n := |ops| - 1;
      var o, rest := InverseOp(ops[n]).value, Inverse(ops[..n]).value;
      InverseMeaning(m, ops[..n]);
      InverseOpMeaning(m, ops[n]);
      MeaningConcat(m, [o], rest);
      MeaningOne(m, o);
      InverseOfProduct(m.group, Meaning(m, ops[..n]), MeaningOfOp(m, ops[n]));
    }
  }

  lemma RenameOpMeaning<G(!new)>(m: Interp<G>, op: Op, keyMap: map<string, KeyName>)
    requires RenameOp(op, keyMap).Some?
    ensures MeaningOfOp(m, RenameOp(op, keyMap).value) == MeaningOfOp(m, op)
  {
    hide Meaning, PowerInt, MeasurementKeys;
  }

  lemma {:induction false} RenameMeaning<G(!new)>(m: Interp<G>, ops: seq<Op>, keyMap: map<string, KeyName>)
    requires RenameOps(ops, keyMap).Some?
    ensures Meaning(m, RenameOps(ops, keyMap).value) == Meaning(m, ops)
  {
    hide RenameOp, MeaningOfOp;
    if ops != [] {
      var n := |ops| - 1;
      RenameMeaning(m, ops[..n], keyMap);
      RenameOpMeaning(m, ops[n], keyMap);
      var r := RenameOps(ops, keyMap).value;
      assert r[..|r| - 1] == RenameOps(ops[..n], keyMap).value;
    }
  }

  lemma {:induction false} RescopeMeaning<G(!new)>(m: Interp<G>, ops: seq<Op>, path: seq<string>)
    ensures Meaning(m, RescopeOps(ops, path)) == Meaning(m, ops)
  {
    if ops != [] {
      var n := |ops| - 1;
      RescopeMeaning(m, ops[..n], path);
      var r := RescopeOps(ops, path);
      assert r[..|r| - 1] == RescopeOps(ops[..n], path);
    }
  }

  // One loop means the circuit, or its inverse for a negative count.
  ghost function LoopMeaning<G(!new)>(m: Interp<G>, c: CircuitOp): G {
    if c.repetitions < 0 then m.group.inv(Meaning(m, c.circuit)) else Meaning(m, c.circuit)
  }

  lemma SingleLoopMeaning<G(!new)>(m: Interp<G>, c: CircuitOp, id: Option<string>)
    requires IsGroup(m.group) && SingleLoop(c, id).Some?
    ensures Meaning(m, SingleLoop(c, id).value) == LoopMeaning(m, c)
  {
    hide IsGroup, Meaning, RenameOps, RescopeOps, Inverse;
    if c.repetitions < 0 { InverseMeaning(m, c.circuit); }
    var base := if c.repetitions < 0 then Inverse(c.circuit).value else c.circuit;
    if c.keyMap != map[] { RenameMeaning(m, base, c.keyMap); }
    var ops := AnyLoop(c).value;
    if id.Some? {
      RescopeMeaning(m, ops, [id.value]);
      RescopeMeaning(m, RescopeOps(ops, [id.value]), c.parentPath);
    }
    RescopeMeaning(m, ops, c.parentPath);
  }

  // The power grows on the right as well.
  lemma PowerStep<G(!new)>(g: Group<G>, x: G, n: nat)
    requires IsGroup(g)
    ensures g.mul(Power(g, x, n), x) == Power(g, x, n + 1)
  {
    hide IsGroup;
    PowerAdd(g, x, n, 1);
    PowerOne(g, x);
  }

  lemma {:induction false} LoopPerIdMeaning<G(!new)>(m: Interp<G>, c: CircuitOp, ids: seq<string>)
    requires IsGroup(m.group) && LoopPerId(c, ids).Some?
    ensures Meaning(m, LoopPerId(c, ids).value) == Power(m.group, LoopMeaning(m, c), |ids|)
  {
    hide IsGroup, SingleLoop, LoopMeaning;
    if ids != [] {
      var n := |ids| - 1;
      LoopPerIdMeaning(m, c, ids[..n]);
      SingleLoopMeaning(m, c, Some(ids[n]));
      MeaningConcat(m, LoopPerId(c, ids[..n]).value, SingleLoop(c, Some(ids[n])).value);
      PowerStep(m.group, LoopMeaning(m, c), n);
    }
  }

  lemma {:induction false} TimesMeaning<G(!new)>(m: Interp<G>, ops: seq<Op>, n: nat)
    requires IsGroup(m.group)
    ensures Meaning(m, Times(ops, n)) == Power(m.group, Meaning(m, ops), n)
  {
    hide IsGroup;
    if n > 0 {
      TimesMeaning(m, ops, n - 1);
      MeaningConcat(m, Times(ops, n - 1), ops);
      PowerStep(m.group, Meaning(m, ops), n - 1);
    }
  }

  // Expanding one level raises the circuit's meaning to the repetition count.
  lemma MappedMeaning<G(!new)>(m: Interp<G>, c: CircuitOp)
    requires IsGroup(m.group) && Valid(c) && MappedCircuit(c).Some?
    ensures Meaning(m, MappedCircuit(c).value) == PowerInt(m.group, Meaning(m, c.circuit), c.repetitions)
  {
    hide IsGroup, SingleLoop, LoopPerId, IsMeasurement, Times;
    if c.repetitions == 0 {
    } else if c.repetitionIds.Some? && c.useRepetitionIds && IsMeasurement(c.circuit) {
      LoopPerIdMeaning(m, c, c.repetitionIds.value);
    } else {
      SingleLoopMeaning(m, c, None);
      TimesMeaning(m, SingleLoop(c, None).value, Abs(c.repetitions));
    }
  }

  // Expanding every level changes nothing.
  lemma {:induction false} DeepMeaning<G(!new)>(m: Interp<G>, c: CircuitOp)
    requires IsGroup(m.group) && OpGood(Sub(c), false) && DeepCircuit(c).Some?
    ensures Meaning(m, DeepCircuit(c).value) == PowerInt(m.group, Meaning(m, c.circuit), c.repetitions)
    decreases 1 + Depth(c.circuit), 0
  {
    hide IsGroup, Meaning;
    MappedDepth(c);
    MappedGood(c, false);
    MappedMeaning(m, c);
    DeepOpsMeaning(m, MappedCircuit(c).value);
  }

  lemma {:induction false} DeepOneMeaning<G(!new)>(m: Interp<G>, op: Op)
    requires IsGroup(m.group) && OpGood(op, false) && DeepOne(op).Some?
    ensures Meaning(m, DeepOne(op).value) == MeaningOfOp(m, op)
    decreases DepthOfOp(op), 1
  {
    hide IsGroup;
    if op.Sub? {
      DeepMeaning(m, op.c);
    } else {
      MeaningOne(m, op);
    }
  }

  lemma {:induction false} DeepOpsMeaning<G(!new)>(m: Interp<G>, ops: seq<Op>)
    requires IsGroup(m.group) && AllGood(ops, false) && DeepOps(ops).Some?
    ensures Meaning(m, DeepOps(ops).value) == Meaning(m, ops)
    decreases Depth(ops), 2 + |ops|
  {
    if ops != [] {
      hide IsGroup, DeepOne, OpGood, DepthOfOp, MeaningOfOp;
      var n := |ops| - 1;
      DeepOpsMeaning(m, ops[..n]);
      DeepOneMeaning(m, ops[n]);
      MeaningConcat(m, DeepOps(ops[..n]).value, DeepOne(ops[n]).value);
    }
  }

  // Whenever an operation expands, so does what repeating it gives; a count of zero always does.
  lemma RepeatExpands(c: CircuitOp, repetitions: Option<int>, ids: Option<seq<string>>, useIds: Option<bool>)
    requires OpGood(Sub(c), false) && Repeat(c, repetitions, ids, useIds).Ok?
    ensures repetitions.Some? || ids.Some?
    ensures DeepCircuit(Repeat(c, repetitions, ids, useIds).value).Some?
        <==> c.repetitions * Count(repetitions, ids) == 0 || DeepCircuit(c).Some?
  {
    hide AllGood, DeepCircuit, Repeat;
    RepeatResult(c, repetitions, ids, useIds);
    var r := Repeat(c, repetitions, ids, useIds).value;
    NonZeroFactor(c.repetitions, Count(repetitions, ids));
    if r.repetitions == 0 {
      ZeroExpands(r);
    } else {
      CountsExpandAlike(c, r);
    }
  }

  lemma NonZeroFactor(a: int, b: int)
    ensures a == 0 ==> a * b == 0
  {
  }

  lemma ZeroExpands(c: CircuitOp)
    requires c.repetitions == 0
    ensures DeepCircuit(c) == Some([])
  {
  }

  // Repeating, then unrolling every level, raises what unrolling every level meant to the count:
  // negative, zero and nested counts included.
  lemma RepeatUnrolls<G(!new)>(m: Interp<G>, c: CircuitOp, repetitions: Option<int>,
                               ids: Option<seq<string>>, useIds: Option<bool>)
    requires IsGroup(m.group) && OpGood(Sub(c), false) && DeepCircuit(c).Some?
    requires Repeat(c, repetitions, ids, useIds).Ok?
    ensures repetitions.Some? || ids.Some?
    ensures var r := Repeat(c, repetitions, ids, useIds).value;
            && DeepCircuit(r).Some?
            && Meaning(m, DeepCircuit(r).value)
               == PowerInt(m.group, Meaning(m, DeepCircuit(c).value), Count(repetitions, ids))
  {
    hide IsGroup, Meaning, DeepCircuit, Repeat, PowerInt;
    RepeatResult(c, repetitions, ids, useIds);
    RepeatExpands(c, repetitions, ids, useIds);
    DeepMeaning(m, c);
    DeepMeaning(m, Repeat(c, repetitions, ids, useIds).value);
    PowerIntMul(m.group, Meaning(m, c.circuit), c.repetitions, Count(repetitions, ids));
  }
}
