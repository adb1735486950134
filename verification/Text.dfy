// Decimal numerals, joining and splitting at a separator, and cutting into chunks.
module Text {
  import opened Prelude

  // ----- Decimal numerals -----

  predicate IsDigit(c: char) {
    '0' <= c <= '9'
  }

  function Digit(d: nat): (c: char)
    requires d < 10
    ensures IsDigit(c) && (c as int - '0' as int) == d
  {
    (d + '0' as int) as char
  }

  function ToDecimal(n: nat): (s: string)
    ensures s != "" && forall i :: 0 <= i < |s| ==> IsDigit(s[i])
  {
    if n < 10 then [Digit(n)] else ToDecimal(n / 10) + [Digit(n % 10)]
  }

  function FromDecimal(s: string): Option<nat> {
    if s == "" || !IsDigit(s[|s| - 1]) then None
    else
      var d := s[|s| - 1] as int - '0' as int;
      if |s| == 1 then Some(d)
      else match FromDecimal(s[..|s| - 1])
        case None => None
        case Some(n) => Some(10 * n + d)
  }

  // Base ten, most significant digit first.
  lemma DecimalSteps(n: nat, d: nat)
    requires d < 10
    ensures ToDecimal(d) == [('0' as int + d) as char]
    ensures n > 0 ==> ToDecimal(10 * n + d) == ToDecimal(n) + [('0' as int + d) as char]
  {
    assert (10 * n + d) / 10 == n && (10 * n + d) % 10 == d;
  }

  lemma {:induction false} DecimalRoundTrip(n: nat)
    ensures FromDecimal(ToDecimal(n)) == Some(n)
  {
    if n >= 10 {
      DecimalRoundTrip(n / 10);
      var s := ToDecimal(n);
      assert s[..|s| - 1] == ToDecimal(n / 10);
    }
  }

  lemma DecimalInjective(a: nat, b: nat)
    requires ToDecimal(a) == ToDecimal(b)
    ensures a == b
  {
    DecimalRoundTrip(a);
    DecimalRoundTrip(b);
  }

  // ----- Joining and splitting -----

  function Join(parts: seq<string>, sep: char): string {
    if parts == [] then ""
    else if |parts| == 1 then parts[0]
    else parts[0] + [sep] + Join(parts[1..], sep)
  }

  // The length of the text before the first separator.
  function Before(s: string, sep: char): (n: nat)
    ensures n <= |s|
    ensures sep !in s[..n] && (n < |s| ==> s[n] == sep)
  {
    if s == "" || s[0] == sep then 0
    else
      var n := 1 + Before(s[1..], sep);
      assert s[..n] == [s[0]] + s[1..][..n - 1];
      n
  }

  // Never empty: splitting the empty text gives one empty part.
  function Split(s: string, sep: char): (parts: seq<string>)
    ensures parts != []
    decreases |s|
  {
    var n := Before(s, sep);
    if n == |s| then [s] else [s[..n]] + Split(s[n + 1..], sep)
  }

  lemma {:induction false} BeforeSeparator(a: string, sep: char, rest: string)
    requires sep !in a
    ensures Before(a + [sep] + rest, sep) == |a| && Before(a, sep) == |a|
  {
    if a != "" {
      BeforeSeparator(a[1..], sep, rest);
      assert (a + [sep] + rest)[1..] == a[1..] + [sep] + rest;
    }
  }

  // Splitting undoes joining when no part holds the separator.
  lemma {:induction false} SplitJoin(parts: seq<string>, sep: char)
    requires parts != [] && forall i :: 0 <= i < |parts| ==> sep !in parts[i]
    ensures Split(Join(parts, sep), sep) == parts
  {
    hide Before;
    if |parts| == 1 {
      BeforeSeparator(parts[0], sep, "");
    } else {
      var rest := Join(parts[1..], sep);
      BeforeSeparator(parts[0], sep, rest);
      var s := parts[0] + [sep] + rest;
      assert s[..|parts[0]|] == parts[0] && s[|parts[0]| + 1..] == rest;
      SplitJoin(parts[1..], sep);
      assert parts == [parts[0]] + parts[1..];
    }
  }

  // Joining one more part puts the separator in front of it.
  lemma {:induction false} JoinSnoc(parts: seq<string>, part: string, sep: char)
    ensures Join([part], sep) == part && Join([], sep) == ""
    ensures parts != [] ==> Join(parts + [part], sep) == Join(parts, sep) + [sep] + part
  {
    if |parts| == 1 {
      assert (parts + [part])[1..] == [part];
    } else if |parts| > 1 {
      JoinSnoc(parts[1..], part, sep);
      assert (parts + [part])[1..] == parts[1..] + [part];
    }
  }

  lemma {:induction false} JoinLacks(parts: seq<string>, sep: char, c: char)
    requires c != sep && forall i :: 0 <= i < |parts| ==> c !in parts[i]
    ensures c !in Join(parts, sep)
  {
    if |parts| > 1 {
      JoinLacks(parts[1..], sep, c);
    }
  }

  // ----- Chunks -----

  function Chunks(s: string, size: nat): (chunks: seq<string>)
    requires size > 0
    decreases |s|
  {
    if s == "" then []
    else if |s| <= size then [s]
    else [s[..size]] + Chunks(s[size..], size)
  }

  function Concat(parts: seq<string>): string {
    if parts == [] then "" else parts[0] + Concat(parts[1..])
  }

  lemma {:induction false} ChunksRestore(s: string, size: nat)
    requires size > 0
    ensures Concat(Chunks(s, size)) == s
    ensures forall i :: 0 <= i < |Chunks(s, size)| ==> 0 < |Chunks(s, size)[i]| <= size
    decreases |s|
  {
    if |s| > size {
      ChunksRestore(s[size..], size);
      assert s == s[..size] + s[size..];
    }
  }

  // Chunk i holds the i-th stretch of the given size, the last one what is left.
  lemma {:induction false} ChunkAt(s: string, size: nat, i: nat)
    requires size > 0 && i < |Chunks(s, size)|
    ensures i * size < |s|
    ensures Chunks(s, size)[i] == s[i * size..if (i + 1) * size <= |s| then (i + 1) * size else |s|]
    decreases |s|
  {
    if i > 0 {
      var rest := s[size..];
      assert Chunks(s, size) == [s[..size]] + Chunks(rest, size);
      hide Chunks;
      ChunkAt(rest, size, i - 1);
      assert i * size == size + (i - 1) * size && (i + 1) * size == size + i * size;
      var lo, hi := (i - 1) * size, if i * size <= |rest| then i * size else |rest|;
      SliceOfRest(s, size, lo, hi);
    } else {
      assert 0 * size == 0 && 1 * size == size;
    }
  }

  lemma SliceOfRest(s: string, n: nat, lo: nat, hi: nat)
    requires n <= |s| && lo <= hi <= |s| - n
    ensures s[n..][lo..hi] == s[n + lo..n + hi]
  {
  }

  // There are no more than count chunks exactly when the text fits into them.
  lemma {:induction false} ChunksFit(s: string, size: nat, count: nat)
    requires size > 0
    ensures |Chunks(s, size)| <= count <==> |s| <= count * size
    decreases |s|
  {
    if |s| > size && count > 0 {
      ChunksFit(s[size..], size, count - 1);
      assert count * size == size + (count - 1) * size;
    } else if count > 0 {
      assert count * size == size + (count - 1) * size >= size;
    }
  }
}
