// The classical parts of the Shor example: order finding, the factoring reduction, and the
// arithmetic of the modular exponentiation gate.
module Shor {
  import opened Prelude
  import opened NumberTheory

  // ----- Order finding -----

  // The powers of x up to the r-th are pairwise distinct modulo n.
  ghost predicate DistinctPowers(x: int, n: int, r: nat)
    requires n > 0
  {
    forall i, j :: 1 <= i < j <= r ==> Pow(x, i) % n != Pow(x, j) % n
  }

  ghost function Residues(x: int, n: int, r: nat): set<int>
    requires n > 0
  {
    if r == 0 then {} else Residues(x, n, r - 1) + {Pow(x, r) % n}
  }

  lemma {:induction false} ResiduesMember(x: int, n: int, r: nat, v: int)
    requires n > 0 && v in Residues(x, n, r)
    ensures exists j :: 1 <= j <= r && Pow(x, j) % n == v
  {
    if v in Residues(x, n, r - 1) {
      ResiduesMember(x, n, r - 1, v);
    }
  }

  lemma {:induction false} ResiduesSize(x: int, n: int, r: nat)
    requires n > 1 && Gcd(x, n) == 1 && DistinctPowers(x, n, r)
    ensures |Residues(x, n, r)| == r
    ensures forall v :: v in Residues(x, n, r) ==> 1 <= v < n
  {
    if r > 0 {
      ResiduesSize(x, n, r - 1);
      PowUnit(x, r, n);
      var v := Pow(x, r) % n;
      if v in Residues(x, n, r - 1) {
        ResiduesMember(x, n, r - 1, v);
      }
    }
  }

  // Pigeonhole: at most n - 1 powers of a unit are distinct modulo n.
  lemma DistinctPowersBounded(x: int, n: int, r: nat)
    requires n > 1 && Gcd(x, n) == 1 && DistinctPowers(x, n, r)
    ensures r < n
  {
    ResiduesSize(x, n, r);
    BoundedSetSize(Residues(x, n, r), 1, n);
  }

  // Until a power reaches 1, the next one is new: cancelling x takes a repetition back by one.
  lemma {:induction false} NextPowerIsNew(x: int, n: int, r: nat)
    requires n > 1 && Gcd(x, n) == 1 && r >= 1 && DistinctPowers(x, n, r)
    requires Pow(x, r) % n != 1
    ensures DistinctPowers(x, n, r + 1)
  {
    forall i | 1 <= i <= r ensures Pow(x, i) % n != Pow(x, r + 1) % n {
      if Pow(x, i) % n == Pow(x, r + 1) % n {
        Cancel(x, Pow(x, i - 1), Pow(x, r), n);
        if i == 1 {
          ModOfMultiple(0, 1, n);
        }
      }
    }
  }

  lemma FirstPower(x: int, n: int)
    requires n > 0
    ensures Pow(x, 1) == x && DistinctPowers(x, n, 1)
  {
    assert Pow(x, 1) == x * Pow(x, 0);
  }

  lemma {:induction false} NextPower(x: int, r: nat, n: int)
    requires n > 0
    ensures (x * (Pow(x, r) % n)) % n == Pow(x, r + 1) % n
  {
    var p := Pow(x, r);
    var m := p % n;
    MulMod(p, x, n);
    assert x * m == m * x && x * p == p * x;
    assert Pow(x, r + 1) == x * p;
  }

  method NaiveOrderFinder(x: int, n: int) returns (res: Result<nat>)
    ensures x < 2 || n <= x || Gcd(x, n) > 1 ==> res == Err(ValueError)
    ensures !(x < 2 || n <= x || Gcd(x, n) > 1) ==>
      res.Ok? && res.value < n && IsOrder(x, n, res.value)
  {
    if x < 2 || n <= x || Gcd(x, n) > 1 {
      return Err(ValueError);
    }
    hide DistinctPowers, Gcd, Pow;
    GcdPositive(x, n);
    var r, y := 1, x;
    FirstPower(x, n);
    ModOfMultiple(0, x, n);
    DistinctPowersBounded(x, n, 1);
    while y != 1
      invariant 1 <= r < n && y == Pow(x, r) % n
      invariant DistinctPowers(x, n, r)
      invariant forall j :: 1 <= j < r ==> Pow(x, j) % n != 1
      decreases n - r
    {
      NextPowerIsNew(x, n, r);
      DistinctPowersBounded(x, n, r + 1);
      NextPower(x, r, n);
      y := (x * y) % n;
      r := r + 1;
    }
    return Ok(r);
  }

  // ----- The factoring reduction -----

  // No earlier candidate is a root, and c is the lower candidate for i if that is one.
  predicate FirstRoot(n: int, candidates: seq<(nat, nat)>, i: nat, c: nat)
    requires i < |candidates|
  {
    && (forall j :: 0 <= j < i ==> Pow(candidates[j].0, j + 2) != n && Pow(candidates[j].1, j + 2) != n)
    && Pow(c, i + 2) == n
    && (c == candidates[i].0 || (c == candidates[i].1 && Pow(candidates[i].0, i + 2) != n))
  }

  // Only the exact check c^k == n matters; the candidates may be any naturals.
  method FindFactorOfPrimePower(n: int, candidates: seq<(nat, nat)>) returns (c: Option<nat>)
    requires n >= 2
    ensures c.Some? ==> 1 < c.value < n && n % c.value == 0
    ensures c == None <==> forall i :: 0 <= i < |candidates| ==>
              Pow(candidates[i].0, i + 2) != n && Pow(candidates[i].1, i + 2) != n
    ensures c.Some? ==> exists k :: k >= 2 && Pow(c.value, k) == n
    // it is the first one that fits, the lower candidate before the upper
    ensures c.Some? ==> exists i :: 0 <= i < |candidates| && FirstRoot(n, candidates, i, c.value)
  {
    for k := 2 to |candidates| + 2
      invariant forall i :: 0 <= i < k - 2 ==>
        Pow(candidates[i].0, i + 2) != n && Pow(candidates[i].1, i + 2) != n
    {
      var (c1, c2) := candidates[k - 2];
      if Pow(c1, k) == n {
        ExactRootDivides(c1, k, n);
        assert FirstRoot(n, candidates, k - 2, c1);
        return Some(c1);
      }
      if Pow(c2, k) == n {
        ExactRootDivides(c2, k, n);
        assert FirstRoot(n, candidates, k - 2, c2);
        return Some(c2);
      }
    }
    return None;
  }

  lemma {:induction false} PowPositive(c: nat, k: nat)
    requires c >= 1
    ensures Pow(c, k) >= 1
  {
    if k > 0 {
      PowPositive(c, k - 1);
      ProductGrowsFrom(c, Pow(c, k - 1));
    }
  }

  lemma ProductGrowsFrom(c: int, p: int)
    requires c >= 1 && p >= 1
    ensures c * p >= c && c * p >= p && (c > 1 && p > 1 ==> c * p > c)
  {
    assert c * p == c + c * (p - 1);
    assert c * p == p + (c - 1) * p;
  }

  lemma {:induction false} ExactRootDivides(c: nat, k: nat, n: int)
    requires n >= 2 && k >= 2 && Pow(c, k) == n
    ensures 1 < c < n && n % c == 0
  {
    var p := Pow(c, k - 1);
    assert n == c * p;
    PowOne(k);
    assert c != 0 by { assert 0 * p == 0; }
    PowPositive(c, k - 2);
    assert p == c * Pow(c, k - 2);
    ProductGrowsFrom(c, Pow(c, k - 2));
    ProductGrowsFrom(c, p);
    ModOfMultiple(p, 0, c);
  }

  lemma {:induction false} PowMonotone(a: nat, b: nat, k: nat)
    requires a < b
    ensures Pow(a, k) <= Pow(b, k) && (k >= 1 ==> Pow(a, k) < Pow(b, k)) && Pow(a, k) >= 0
  {
    if k > 0 {
      PowMonotone(a, b, k - 1);
      ProductMonotone(a, b, Pow(a, k - 1), Pow(b, k - 1));
      PowPositive(b, k - 1);
      if k == 1 { assert Pow(a, 0) == 1; }
    }
  }

  lemma ProductMonotone(a: nat, b: nat, p: nat, q: nat)
    requires a < b && p <= q && q >= 1
    ensures 0 <= a * p < b * q
  {
    assert a * p <= a * q;
    assert b * q == a * q + (b - a) * q;
  }

  // The first candidate for each exponent is the root rounded down, up to the greatest exponent
  // that can matter.
  ghost predicate RoundedRoots(n: int, candidates: seq<(nat, nat)>) {
    && (forall i :: 0 <= i < |candidates| ==> Pow(candidates[i].0, i + 2) <= n < Pow(candidates[i].0 + 1, i + 2))
    && (forall k: nat :: Pow(2, k) <= n ==> k < |candidates| + 2)
  }

  // With correctly rounded roots every perfect power is found.
  lemma {:induction false} RoundedRootsFindPowers(n: int, candidates: seq<(nat, nat)>)
    requires n >= 2 && RoundedRoots(n, candidates)
    ensures (exists c: nat, k: nat :: k >= 2 && Pow(c, k) == n)
       <==> (exists i :: 0 <= i < |candidates|
               && (Pow(candidates[i].0, i + 2) == n || Pow(candidates[i].1, i + 2) == n))
  {
    forall c: nat, k: nat | k >= 2 && Pow(c, k) == n
      ensures k - 2 < |candidates| && Pow(candidates[k - 2].0, k) == n
    {
      PowOne(k);
      assert c != 0 by { assert 0 * Pow(0, k - 1) == 0; }
      if c > 2 { PowMonotone(2, c, k); }
      var r := candidates[k - 2].0;
      if c < r {
        PowMonotone(c, r, k);
      } else if c > r + 1 {
        PowMonotone(r + 1, c, k);
      }
    }
  }

  // x leads to a factor: it shares one with n, or its order is even with a half power other than -1.
  ghost predicate Lucky(x: int, n: int)
    requires n > 0
  {
    Gcd(x, n) > 1 || exists r: nat :: IsOrder(x, n, r) && r % 2 == 0 && Pow(x, r / 2) % n != n - 1
  }

  // The factor x leads to: the one it shares with n, or the one its half power less 1 shares.
  ghost predicate LeadsTo(x: int, n: int, c: int)
    requires n > 0
  {
    if Gcd(x, n) > 1 then c == Gcd(x, n)
    else exists r: nat :: IsOrder(x, n, r) && r % 2 == 0 && c == Gcd(Pow(x, r / 2) % n - 1, n)
  }

  // The half power squares to 1 modulo n.
  lemma {:induction false} HalfPowerSquared(x: int, n: int, r: nat) returns (q: int)
    requires n > 1 && IsOrder(x, n, r) && r % 2 == 0
    ensures var y := Pow(x, r / 2) % n; (y - 1) * (y + 1) == n * q
  {
    var h := Pow(x, r / 2);
    var y := h % n;
    PowAdd(x, r / 2, r / 2);
    assert r / 2 + r / 2 == r;
    MulMod(h, h, n);
    MulMod(h, y, n);
    assert (y * y) % n == 1;
    ModOfMultiple(0, 1, n);
    q := ResidueDifference(y * y, 1, n);
    assert (y - 1) * (y + 1) == y * y - 1;
  }

  // The middle of find_factor: for a unit x of even order, 1 < y < n, and y - 1 shares a proper
  // factor with n exactly when y is not -1 modulo n.
  lemma {:induction false} HalfPowerSplits(x: int, n: int, r: nat)
    requires n > 2 && n % 2 == 1 && Gcd(x, n) == 1 && IsOrder(x, n, r) && r % 2 == 0
    ensures var y := Pow(x, r / 2) % n;
      1 < y < n && (1 < Gcd(y - 1, n) < n <==> y != n - 1)
  {
    var y := Pow(x, r / 2) % n;
    PowUnit(x, r / 2, n);
    assert 1 <= r / 2 < r;
    assert y != 1;
    var g := Gcd(y - 1, n);
    GcdPositive(y - 1, n);
    var q := HalfPowerSquared(x, n, r);
    if g == 1 {
      UnitOnTheLeft(y, n, q);
    }
    if y == n - 1 {
      OddGcdTwo(n);
    }
  }

  lemma Distribute(s: int, a: int, t: int, n: int, b: int, q: int)
    requires a * b == n * q && s * a + t * n == 1
    ensures b == n * (s * q + t * b)
  {
    assert (s * a + t * n) * b == s * (a * b) + n * (t * b);
    assert s * (n * q) == n * (s * q);
  }

  lemma {:induction false} UnitOnTheLeft(y: int, n: int, q: int)
    requires n > 2 && 1 < y < n && (y - 1) * (y + 1) == n * q && Gcd(y - 1, n) == 1
    ensures y == n - 1
  {
    var s, t := Bezout(y - 1, n);
    var m := s * q + t * (y + 1);
    Distribute(s, y - 1, t, n, y + 1, q);
    ProductSign(n, m);
    if m >= 2 { MulAtLeast(n, m - 1, m, 1); }
  }

  // An odd n shares no factor with n - 2.
  lemma OddGcdTwo(n: int)
    requires n > 2 && n % 2 == 1
    ensures Gcd(n - 2, n) == 1
  {
    var g := Gcd(n - 2, n);
    var p, q := GcdDivides(n - 2, n);
    GcdPositive(n - 2, n);
    assert g * (q - p) == 2;
    ProductGrows(g, q - p);
    assert g == 2 ==> n == 2 * q;
  }

  // n composite or prime is decided by the caller's primality test; draws are the random
  // numbers of the attempts.
  method FindFactor(n: int, candidates: seq<(nat, nat)>, draws: seq<int>) returns (c: Option<nat>)
    requires n >= 2
    requires !IsPrime(n) ==> forall i :: 0 <= i < |draws| ==> 2 <= draws[i] < n
    ensures IsPrime(n) ==> c == None
    ensures c.Some? ==> 1 < c.value < n && n % c.value == 0
    ensures !IsPrime(n) && n % 2 == 0 ==> c == Some(2)
    ensures !IsPrime(n) ==> (c == None <==>
      && n % 2 == 1
      && (forall i :: 0 <= i < |candidates| ==>
            Pow(candidates[i].0, i + 2) != n && Pow(candidates[i].1, i + 2) != n)
      && (forall i :: 0 <= i < |draws| ==> !Lucky(draws[i], n)))
    // an odd composite number gives its first exact root, or else what the first lucky draw leads to
    ensures !IsPrime(n) && n % 2 == 1 && c.Some? ==>
      || (exists i :: 0 <= i < |candidates| && FirstRoot(n, candidates, i, c.value))
      || ((forall i :: 0 <= i < |candidates| ==>
             Pow(candidates[i].0, i + 2) != n && Pow(candidates[i].1, i + 2) != n)
          && exists i :: 0 <= i < |draws| && LeadsTo(draws[i], n, c.value)
               && forall j :: 0 <= j < i ==> !Lucky(draws[j], n))
  {
    if IsPrime(n) {
      return None;
    }
    if n % 2 == 0 {
      assert n != 2;
      return Some(2);
    }
    c := FindFactorOfPrimePower(n, candidates);
    if c.Some? {
      return;
    }
    for i := 0 to |draws|
      invariant forall j :: 0 <= j < i ==> !Lucky(draws[j], n)
      invariant c == None
    {
      var x := draws[i];
      c := Attempt(x, n);
      if c.Some? {
        return;
      }
    }
  }

  // One round of the loop; it cannot fail the source's assertion on y.
  method Attempt(x: int, n: int) returns (c: Option<nat>)
    requires n > 2 && n % 2 == 1 && 2 <= x < n
    ensures c.Some? <==> Lucky(x, n)
    ensures c.Some? ==> 1 < c.value < n && n % c.value == 0 && LeadsTo(x, n, c.value)
  {
    GcdPositive(x, n);
    var g := Gcd(x, n);
    if 1 < g < n {
      return Some(g);
    }
    var order := NaiveOrderFinder(x, n);
    var r := order.value;
    forall r' | IsOrder(x, n, r') ensures r' == r {
      OrderUnique(x, n, r, r');
    }
    if r % 2 != 0 {
      return None;
    }
    HalfPowerSplits(x, n, r);
    var y := Pow(x, r / 2) % n;
    assert 1 < y < n;
    g := Gcd(y - 1, n);
    GcdPositive(y - 1, n);
    if 1 < g < n {
      return Some(g);
    }
    return None;
  }

  // ----- The modular exponentiation gate -----

  function BitLength(n: nat): (l: nat)
    ensures n < Pow2(l)
    ensures l > 0 ==> Pow2(l - 1) <= n
  {
    if n == 0 then 0 else 1 + BitLength(n / 2)
  }

  datatype ModularExp = ModularExp(width: nat, base: int, modulus: int)

  function MakeModularExp(width: nat, base: int, modulus: int): (r: Result<ModularExp>)
    ensures r == if Abs(modulus) < Pow2(width) then Ok(ModularExp(width, base, modulus)) else Err(ValueError)
  {
    if width < BitLength(Abs(modulus)) then
      FewerBits(width, BitLength(Abs(modulus)));
      Err(ValueError)
    else
      FewerBits(BitLength(Abs(modulus)), width);
      Ok(ModularExp(width, base, modulus))
  }

  lemma FewerBits(a: nat, b: nat)
    requires a <= b
    ensures Pow2(a) <= Pow2(b) && (a < b ==> Pow2(a) <= Pow2(b - 1))
  {
    if a < b { Pow2Monotone(a, b); }
    if a < b - 1 { Pow2Monotone(a, b - 1); }
  }

  function Apply(gate: ModularExp, target: nat, exponent: nat): nat {
    if target >= gate.modulus then target
    else (target * Pow(gate.base, exponent)) % gate.modulus
  }

  // On its register the gate is a permutation.
  ghost predicate Permutes(gate: ModularExp, exponent: nat) {
    && (forall t: nat :: t < Pow2(gate.width) ==> Apply(gate, t, exponent) < Pow2(gate.width))
    && (forall t: nat, u: nat :: t < u < Pow2(gate.width) ==>
          Apply(gate, t, exponent) != Apply(gate, u, exponent))
    && (forall v: nat :: v < Pow2(gate.width) ==> Hit(gate, exponent, v))
  }

  ghost predicate Hit(gate: ModularExp, exponent: nat, v: nat) {
    exists t: nat :: t < Pow2(gate.width) && Apply(gate, t, exponent) == v
  }

  // One more step of the exponent multiplies by the base, so every exponent is fixed.
  lemma {:induction false} ApplyStep(gate: ModularExp, target: nat, exponent: nat)
    ensures target >= gate.modulus ==> Apply(gate, target, exponent) == target
    ensures target < gate.modulus ==>
      && Apply(gate, target, 0) == target
      && Apply(gate, target, 1) == (gate.base * target) % gate.modulus
      && Apply(gate, target, exponent + 1) == (gate.base * Apply(gate, target, exponent)) % gate.modulus
  {
    if target < gate.modulus {
      var n, p := gate.modulus, Pow(gate.base, exponent);
      ModOfMultiple(0, target, n);
      assert Pow(gate.base, 1) == gate.base * Pow(gate.base, 0) == gate.base;
      assert target * gate.base == gate.base * target;
      MulMod(target * p, gate.base, n);
      assert (target * p) * gate.base == target * (gate.base * p);
      assert ((target * p) % n) * gate.base == gate.base * ((target * p) % n);
    }
  }

  lemma ApplyAdds(gate: ModularExp, target: nat, e1: nat, e2: nat)
    ensures Apply(gate, Apply(gate, target, e1), e2) == Apply(gate, target, e1 + e2)
  {
    if target < gate.modulus {
      var b1, b2 := Pow(gate.base, e1), Pow(gate.base, e2);
      PowAdd(gate.base, e1, e2);
      MulMod(target * b1, b2, gate.modulus);
      assert (target * b1) * b2 == target * (b1 * b2);
    }
  }

  // The gate with an inverse base undoes the gate.
  lemma ApplyInverse(gate: ModularExp, s: int, target: nat, e: nat)
    requires gate.modulus > 0 && (gate.base * s) % gate.modulus == 1 % gate.modulus
    ensures Apply(gate.(base := s), Apply(gate, target, e), e) == target
  {
    var m := gate.modulus;
    if target < m {
      var b, c := Pow(gate.base, e), Pow(s, e);
      MulMod(target * b, c, m);
      assert (target * b) * c == (b * c) * target;
      PowMul(gate.base, s, e);
      PowMod(gate.base * s, e, m);
      PowMod(1, e, m);
      PowOne(e);
      MulMod(b * c, target, m);
      MulMod(1, target, m);
      ModOfMultiple(0, target, m);
    }
  }

  lemma ApplyInRange(gate: ModularExp, target: nat, e: nat)
    requires gate.modulus < Pow2(gate.width) && target < Pow2(gate.width)
    ensures Apply(gate, target, e) < Pow2(gate.width)
    ensures target >= gate.modulus ==> Apply(gate, target, e) == target
    ensures target < gate.modulus ==> Apply(gate, target, e) < gate.modulus
  {
  }

  lemma {:induction false} CoprimePermutes(gate: ModularExp, e: nat)
    requires 0 < gate.modulus < Pow2(gate.width) && Gcd(gate.base, gate.modulus) == 1
    ensures Permutes(gate, e)
  {
    var s := Inverse(gate.base, gate.modulus);
    forall t: nat | t < Pow2(gate.width) ensures Apply(gate, t, e) < Pow2(gate.width) {
      ApplyInRange(gate, t, e);
    }
    forall t: nat, u: nat | t < u < Pow2(gate.width) ensures Apply(gate, t, e) != Apply(gate, u, e) {
      ApplyInverse(gate, s, t, e);
      ApplyInverse(gate, s, u, e);
    }
    forall v: nat | v < Pow2(gate.width)
      ensures Hit(gate, e, v)
    {
      var back := gate.(base := s);
      ApplyInRange(back, v, e);
      assert s * gate.base == gate.base * s;
      ApplyInverse(back, gate.base, v, e);
      assert Apply(gate, Apply(back, v, e), e) == v;
    }
  }

  lemma MultipleOfModulus(g: int, p: int, q: int, b: int)
    ensures q * ((g * p) * b) == (g * q) * (p * b)
  {
    Exchange(g, p, q, b);
    assert (g * p) * (q * b) == q * ((g * p) * b);
  }

  // A shared factor sends two register values to zero.
  lemma SharedFactorCollides(gate: ModularExp, e: nat)
    requires 0 < gate.modulus < Pow2(gate.width) && Gcd(gate.base, gate.modulus) > 1 && e >= 1
    ensures !Permutes(gate, e)
  {
    var m, g := gate.modulus, Gcd(gate.base, gate.modulus);
    var p, q := GcdDivides(gate.base, m);
    ProductSign(g, q);
    ProductGrows(g, q);
    var b := Pow(gate.base, e - 1);
    assert q < m by { MulAtLeast(q, g - 1, g, 1); }
    MultipleOfModulus(g, p, q, b);
    ModOfMultiple(p * b, 0, m);
    ModOfMultiple(0, 0, m);
    assert Apply(gate, q, e) == 0 == Apply(gate, 0, e);
  }

  // Without an exponent, or without a positive modulus, the gate fixes every value.
  lemma IdentityPermutes(gate: ModularExp, e: nat)
    requires e == 0 || gate.modulus <= 0
    ensures Permutes(gate, e)
  {
    forall t: nat ensures Apply(gate, t, e) == t {
      if t < gate.modulus {
        ModOfMultiple(0, t, gate.modulus);
        assert t * Pow(gate.base, 0) == t;
      }
    }
    forall v: nat | v < Pow2(gate.width) ensures Hit(gate, e, v) {
      assert Apply(gate, v, e) == v;
    }
  }

  // The gate is unitary on the register exactly when its base is a unit, or nothing is moved at
  // all.
  lemma PermutesIff(gate: ModularExp, e: nat)
    requires gate.modulus < Pow2(gate.width)
    ensures Permutes(gate, e) <==> e == 0 || gate.modulus <= 0 || Gcd(gate.base, gate.modulus) == 1
  {
    if e == 0 || gate.modulus <= 0 {
      IdentityPermutes(gate, e);
    } else {
      GcdPositive(gate.base, gate.modulus);
      if Gcd(gate.base, gate.modulus) == 1 {
        CoprimePermutes(gate, e);
      } else {
        SharedFactorCollides(gate, e);
      }
    }
  }
}
