// Bit strings as numbers, in both byte orders.
module Bits {
  import opened Prelude

  // ----- Least significant bit first -----

  function Bit(b: bool): nat {
    if b then 1 else 0
  }

  // The weight of bit i.
  function Weight(i: nat, b: bool): nat {
    Pow2(i) * Bit(b)
  }

  function Value(bits: seq<bool>): (v: nat)
    ensures v < Pow2(|bits|)
  {
    if bits == [] then 0
    else Value(bits[..|bits| - 1]) + Weight(|bits| - 1, bits[|bits| - 1])
  }

  lemma {:induction false} ValueInjective(a: seq<bool>, b: seq<bool>)
    requires |a| == |b| && Value(a) == Value(b)
    ensures a == b
  {
    if a != [] {
      var m := |a| - 1;
      assert a[m] == b[m];
      ValueInjective(a[..m], b[..m]);
      assert a == a[..m] + [a[m]] && b == b[..m] + [b[m]];
    }
  }

  lemma {:induction false} ValueZero(bits: seq<bool>)
    requires forall i :: 0 <= i < |bits| ==> !bits[i]
    ensures Value(bits) == 0
  {
    if bits != [] { ValueZero(bits[..|bits| - 1]); }
  }

  lemma {:induction false} ValueConcat(a: seq<bool>, b: seq<bool>)
    ensures Value(a + b) == Value(a) + Pow2(|a|) * Value(b)
  {
    if b == [] {
      assert a + b == a;
    } else {
      var b', t := b[..|b| - 1], Bit(b[|b| - 1]);
      ValueConcat(a, b');
      assert (a + b)[..|a + b| - 1] == a + b';
      Pow2Add(|a|, |b| - 1);
      assert |a + b| - 1 == |a| + (|b| - 1);
      ShiftedSum(Value(a), Pow2(|a|), Value(b'), Pow2(|b| - 1), t);
    }
  }

  lemma ShiftedSum(v: int, p: int, w: int, q: int, t: int)
    ensures v + p * w + (p * q) * t == v + p * (w + q * t)
  {
    assert (p * q) * t == p * (q * t);
  }

  lemma ValueStep(bits: seq<bool>, i: nat)
    requires i < |bits|
    ensures Value(bits[..i + 1]) == Value(bits[..i]) + Weight(i, bits[i])
  {
    assert bits[..i + 1][..i] == bits[..i];
  }

  lemma WeightOne(i: nat)
    ensures Weight(i, true) == Pow2(i)
  {
  }

  // ----- Most significant bit first -----

  function BigEndianValue(bits: seq<bool>): (v: nat)
    ensures v < Pow2(|bits|)
  {
    if bits == [] then 0 else 2 * BigEndianValue(bits[..|bits| - 1]) + Bit(bits[|bits| - 1])
  }

  // The low `count` bits of v.
  function BigEndianBits(v: nat, count: nat): (bits: seq<bool>)
    ensures |bits| == count
  {
    if count == 0 then [] else BigEndianBits(v / 2, count - 1) + [v % 2 == 1]
  }

  lemma HalfAndParity(v: nat, b: bool)
    ensures (2 * v + Bit(b)) / 2 == v && ((2 * v + Bit(b)) % 2 == 1) == b
  {
  }

  lemma OneMoreBit(v: nat, b: bool, count: nat)
    ensures BigEndianBits(2 * v + Bit(b), count + 1) == BigEndianBits(v, count) + [b]
  {
    HalfAndParity(v, b);
  }

  lemma {:induction false} BitsOfValue(bits: seq<bool>)
    ensures BigEndianBits(BigEndianValue(bits), |bits|) == bits
  {
    if bits != [] {
      var rest, last := bits[..|bits| - 1], bits[|bits| - 1];
      BitsOfValue(rest);
      hide BigEndianBits;
      OneMoreBit(BigEndianValue(rest), last, |rest|);
      assert bits == rest + [last];
    }
  }

  lemma {:induction false} ValueOfBits(v: nat, count: nat)
    requires v < Pow2(count)
    ensures BigEndianValue(BigEndianBits(v, count)) == v
  {
    if count > 0 {
      ValueOfBits(v / 2, count - 1);
      assert BigEndianBits(v, count)[..count - 1] == BigEndianBits(v / 2, count - 1);
    }
  }

  function Reversed<T>(s: seq<T>): (r: seq<T>)
    ensures |r| == |s| && forall i :: 0 <= i < |s| ==> r[i] == s[|s| - 1 - i]
  {
    if s == [] then [] else Reversed(s[1..]) + [s[0]]
  }

  lemma ReversedTwice<T>(s: seq<T>)
    ensures Reversed(Reversed(s)) == s
  {
  }

  lemma ReversedSnoc<T>(s: seq<T>, x: T)
    ensures Reversed(s + [x]) == [x] + Reversed(s)
  {
    hide Reversed;
  }

  // Summing bit << i over the reversed bits reads them most significant bit first.
  lemma {:induction false} ReversedValue(bits: seq<bool>)
    ensures Value(Reversed(bits)) == BigEndianValue(bits)
  {
    if bits != [] {
      var n := |bits| - 1;
      var rest, last := bits[..n], bits[n];
      ReversedValue(rest);
      ReversedSnoc(rest, last);
      assert bits == rest + [last];
      hide Value, Reversed, BigEndianValue;
      ValueConcat([last], Reversed(rest));
      assert [last][..0] == [];
      assert Value([last]) == Bit(last) by { assert Value([last]) == Value([last][..0]) + Weight(0, last); }
    }
  }
}
