// When two repetition ids keep the keys of their repetitions apart.  Keys are compared by their
// joined text, and nothing keeps the separator out of an id.
module CircuitIds {
  import opened Prelude
  import opened MeasurementKey
  import opened CircuitOperation
  import opened CircuitKeys

  // A caller's check: neither id, closed by the separator, starts the other.
  predicate KeptApart(id1: string, id2: string) {
    !(id1 + [COLON] <= id2 + [COLON]) && !(id2 + [COLON] <= id1 + [COLON])
  }

  // A constructed operation whose two repetitions carry these ids.
  predicate Carries(c: CircuitOp, id1: string, id2: string) {
    Valid(c) && c.useRepetitionIds && c.repetitionIds == Some([id1, id2])
  }

  function KeyTexts(c: CircuitOp, id: string): set<string> {
    Texts(KeysUnderId(c, Some(id)))
  }

  // Every key under an id starts with the parent path and the id.
  lemma TextUnderId(c: CircuitOp, id: string, t: string)
    requires id != "" && t in KeyTexts(c, id)
    ensures PathText(c.parentPath) + (id + [COLON]) <= t
  {
    hide KeyText;
    var x :| x in PrefixAll(PrefixAll(Keys(c.circuit), [id]), c.parentPath) && t == KeyText(Rename(x, c.keyMap));
    var y :| y in Keys(c.circuit) && x == Prefixed(Prefixed(y, [id]), c.parentPath);
    var z := Rename(y, c.keyMap);
    PrefixedText(z, [id]);
    PrefixedText(Prefixed(z, [id]), c.parentPath);
    assert PathText([id]) == id + [COLON];
    var p := PathText(c.parentPath);
    assert p + ((id + [COLON]) + KeyText(z)) == p + (id + [COLON]) + KeyText(z);
  }

  lemma PrefixesOfOne(p: string, a: string, b: string, t: string)
    requires p + a <= t && p + b <= t
    ensures a <= b || b <= a
  {
    var rest := t[|p|..];
    assert a == t[..|p + a|][|p|..] == rest[..|a|];
    assert b == t[..|p + b|][|p|..] == rest[..|b|];
  }

  lemma KeptApartDisjoint(c: CircuitOp, id1: string, id2: string)
    requires id1 != "" && id2 != "" && KeptApart(id1, id2)
    ensures KeyTexts(c, id1) !! KeyTexts(c, id2)
  {
    forall t | t in KeyTexts(c, id1) ensures t !in KeyTexts(c, id2) {
      if t in KeyTexts(c, id2) {
        TextUnderId(c, id1, t);
        TextUnderId(c, id2, t);
        PrefixesOfOne(PathText(c.parentPath), id1 + [COLON], id2 + [COLON], t);
      }
    }
  }

  // Two measurements, one of them with a path of its own.
  function TwoMeasurements(inner: string, id1: string, id2: string): CircuitOp {
    CircuitOp([Measure(Key([], "m")), Measure(Key([inner], "m"))], 2, Some([id1, id2]), true, map[], [])
  }

  lemma TwoMeasurementsKeys(inner: string, id1: string, id2: string)
    ensures Keys(TwoMeasurements(inner, id1, id2).circuit) == {Key([], "m"), Key([inner], "m")}
  {
    var ops := TwoMeasurements(inner, id1, id2).circuit;
    assert ops[..1] == [ops[0]] && ops[..1][..0] == [];
    assert Keys(ops[..1]) == Keys([]) + KeysOfOp(ops[0]);
    assert Keys(ops) == Keys(ops[..1]) + KeysOfOp(ops[1]);
  }

  lemma KeyUnderId(c: CircuitOp, k: Key, id: string)
    requires c.parentPath == [] && c.keyMap == map[] && k in Keys(c.circuit) && id != ""
    ensures KeyText(Key([id] + k.path, k.name)) in KeyTexts(c, id)
  {
    var p := Prefixed(k, [id]);
    assert p in PrefixAll(Keys(c.circuit), [id]);
    assert Prefixed(p, []) == p;
    assert p in PrefixAll(PrefixAll(Keys(c.circuit), [id]), []);
    assert Rename(p, c.keyMap) == p;
  }

  // Different ids may give one key: id1 with the inner path s, and id2 spelling id1:s.
  lemma SplitIdCollides(id1: string, s: string)
    requires id1 != ""
    ensures var id2 := id1 + [COLON] + s; var c := TwoMeasurements(s, id1, id2);
            && Carries(c, id1, id2)
            && KeyText(Key([id1, s], "m")) == KeyText(Key([id2], "m"))
            && KeyText(Key([id2], "m")) in KeyTexts(c, id1) * KeyTexts(c, id2)
  {
    hide KeysUnderId;
    var id2 := id1 + [COLON] + s;
    var c := TwoMeasurements(s, id1, id2);
    TwoMeasurementsKeys(s, id1, id2);
    KeyUnderId(c, Key([s], "m"), id1);
    KeyUnderId(c, Key([], "m"), id2);
    assert [id1] + [s] == [id1, s] && [id2] + [] == [id2];
    JoinPath([id1, s], "m");
    JoinPath([id2], "m");
    assert [id1, s][1..] == [s] && PathText([s]) == s + [COLON];
    assert id1 + [COLON] + (s + [COLON]) == id1 + [COLON] + s + [COLON];
  }

  // The ids "a" and "a:b" are different and give one key, a:b:m.
  lemma ColonCollision()
    ensures var c := TwoMeasurements("b", "a", "a:b");
            Carries(c, "a", "a:b") && "a:b:m" in KeyTexts(c, "a") * KeyTexts(c, "a:b")
  {
    SplitIdCollides("a", "b");
    assert "a" + [COLON] + "b" == "a:b";
    assert ["a:b"] + ["m"] == ["a:b", "m"] && ["a:b", "m"][1..] == ["m"];
    assert KeyText(Key(["a:b"], "m")) == "a:b" + [COLON] + "m" == "a:b:m";
  }

  lemma SameIdCollides(id: string)
    requires id != ""
    ensures var c := TwoMeasurements("", id, id);
            Carries(c, id, id) && KeyText(Key([id], "m")) in KeyTexts(c, id)
  {
    var c := TwoMeasurements("", id, id);
    TwoMeasurementsKeys("", id, id);
    KeyUnderId(c, Key([], "m"), id);
    assert [id] + [] == [id];
  }

  // If id1: starts id2:, the rest of id2 is the inner path that collides.
  lemma ExtendedIdCollides(id1: string, id2: string)
    requires id1 != "" && id1 + [COLON] <= id2 + [COLON]
    ensures exists c :: Carries(c, id1, id2) && !(KeyTexts(c, id1) !! KeyTexts(c, id2))
  {
    if id1 == id2 {
      SameIdCollides(id1);
      assert KeyText(Key([id1], "m")) in KeyTexts(TwoMeasurements("", id1, id2), id1);
    } else {
      var t := id2 + [COLON];
      assert t[..|id1| + 1] == id1 + [COLON];
      assert id1 == t[..|id1|] == id2[..|id1|];
      var s := id2[|id1| + 1..];
      assert id2 == id1 + [COLON] + s;
      SplitIdCollides(id1, s);
    }
  }

  lemma CarriesEitherWay(c: CircuitOp, id1: string, id2: string)
    requires Carries(c, id2, id1) && !(KeyTexts(c, id2) !! KeyTexts(c, id1))
    ensures exists d :: Carries(d, id1, id2) && !(KeyTexts(d, id1) !! KeyTexts(d, id2))
  {
    var d := c.(repetitionIds := Some([id1, id2]));
    assert KeyTexts(d, id1) == KeyTexts(c, id1) && KeyTexts(d, id2) == KeyTexts(c, id2);
  }

  // Two non-empty ids give disjoint keys in every operation that carries them exactly when neither,
  // closed by the separator, starts the other.
  lemma IdsDisjointIff(id1: string, id2: string)
    requires id1 != "" && id2 != ""
    ensures (forall c :: Carries(c, id1, id2) ==> KeyTexts(c, id1) !! KeyTexts(c, id2)) <==> KeptApart(id1, id2)
  {
    hide KeyTexts, Carries;
    if KeptApart(id1, id2) {
      forall c | Carries(c, id1, id2) ensures KeyTexts(c, id1) !! KeyTexts(c, id2) {
        KeptApartDisjoint(c, id1, id2);
      }
    } else if id1 + [COLON] <= id2 + [COLON] {
      ExtendedIdCollides(id1, id2);
    } else {
      ExtendedIdCollides(id2, id1);
      var c :| Carries(c, id2, id1) && !(KeyTexts(c, id2) !! KeyTexts(c, id1));
      CarriesEitherWay(c, id1, id2);
    }
  }

  // Ids without the separator are kept apart as soon as they differ; the default ids are such.
  lemma PlainIdsKeptApart(id1: string, id2: string)
    requires COLON !in id1 && COLON !in id2
    ensures KeptApart(id1, id2) <==> id1 != id2
  {
    if id1 + [COLON] <= id2 + [COLON] {
      PlainPrefix(id1, id2);
    }
    if id2 + [COLON] <= id1 + [COLON] {
      PlainPrefix(id2, id1);
    }
  }

  lemma PlainPrefix(a: string, b: string)
    requires COLON !in b && a + [COLON] <= b + [COLON]
    ensures a == b
  {
    var t := b + [COLON];
    assert t[..|a| + 1] == a + [COLON];
    assert t[|a|] == (a + [COLON])[|a|] == COLON;
    forall i | 0 <= i < |b| ensures t[i] != COLON {
      assert t[i] == b[i];
    }
    assert a == t[..|a|];
  }
}
