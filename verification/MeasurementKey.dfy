// Measurement keys: a path and a name, compared by their joined text.
module MeasurementKey {
  import opened Text

  // The measurement key separator.
  const COLON: char := ':'

  // The constructor of a key refuses a name with a separator.
  type KeyName = s: string | COLON !in s witness ""

  datatype Key = Key(path: seq<string>, name: KeyName)

  function Rename(k: Key, m: map<string, KeyName>): Key {
    if k.name in m then Key(k.path, m[k.name]) else k
  }

  function Prefixed(k: Key, path: seq<string>): Key {
    Key(path + k.path, k.name)
  }

  // ----- Keys as text -----

  // Keys are compared by this text: the path and the name, joined by the separator.
  function KeyText(k: Key): string {
    Join(k.path + [k.name], COLON)
  }

  function Texts(keys: set<Key>): set<string> {
    set k | k in keys :: KeyText(k)
  }

  function PathText(path: seq<string>): string {
    if path == [] then "" else path[0] + [COLON] + PathText(path[1..])
  }

  lemma {:induction false} JoinPath(path: seq<string>, name: string)
    ensures Join(path + [name], COLON) == PathText(path) + name
  {
    if path == [] {
      assert [] + [name] == [name];
    } else {
      JoinPath(path[1..], name);
      assert (path + [name])[1..] == path[1..] + [name];
    }
  }

  lemma {:induction false} PathTextConcat(a: seq<string>, b: seq<string>)
    ensures PathText(a + b) == PathText(a) + PathText(b)
  {
    if a == [] {
      assert a + b == b;
    } else {
      PathTextConcat(a[1..], b);
      assert (a + b)[1..] == a[1..] + b;
    }
  }

  // A path in front of a key is a text in front of its text.
  lemma PrefixedText(k: Key, path: seq<string>)
    ensures KeyText(Prefixed(k, path)) == PathText(path) + KeyText(k)
  {
    hide Join, PathText;
    JoinPath(path + k.path, k.name);
    JoinPath(k.path, k.name);
    PathTextConcat(path, k.path);
  }

  lemma {:induction false} PathTextEnds(path: seq<string>)
    requires path != []
    ensures PathText(path) != "" && PathText(path)[|PathText(path)| - 1] == COLON
  {
    if |path| > 1 { PathTextEnds(path[1..]); }
  }

  // The text determines the name, because no name holds the separator.
  lemma TextNames(k1: Key, k2: Key)
    requires KeyText(k1) == KeyText(k2)
    ensures k1.name == k2.name && PathText(k1.path) == PathText(k2.path)
  {
    hide Join;
    JoinPath(k1.path, k1.name);
    JoinPath(k2.path, k2.name);
    NameNotLonger(k1, k2);
    NameNotLonger(k2, k1);
    var t, n := KeyText(k1), |KeyText(k1)| - |k1.name|;
    assert k1.name == t[n..] && k2.name == t[n..];
    assert PathText(k1.path) == t[..n] && PathText(k2.path) == t[..n];
  }

  lemma NameNotLonger(k1: Key, k2: Key)
    requires PathText(k1.path) + k1.name == PathText(k2.path) + k2.name
    ensures |k1.name| >= |k2.name|
  {
    var p1, p2 := PathText(k1.path), PathText(k2.path);
    var t := p2 + k2.name;
    forall i | |p2| <= i < |t| ensures t[i] != COLON {
      assert t[i] == k2.name[i - |p2|];
    }
    if p1 != "" {
      PathTextEnds(k1.path);
      assert t[|p1| - 1] == COLON;
    }
  }

  // Renaming looks at the name only, so keys with one text get one text.
  lemma RenamedText(k1: Key, k2: Key, m: map<string, KeyName>)
    requires KeyText(k1) == KeyText(k2)
    ensures KeyText(Rename(k1, m)) == KeyText(Rename(k2, m))
  {
    hide Join;
    TextNames(k1, k2);
    JoinPath(k1.path, Rename(k1, m).name);
    JoinPath(k2.path, Rename(k2, m).name);
  }
}
