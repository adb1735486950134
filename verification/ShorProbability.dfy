// How likely one attempt of the factoring loop is to succeed: for an odd number with two different
// prime factors, more than half of all draws lead to a factor.
module ShorProbability {
  import opened Prelude
  import opened NumberTheory
  import opened Shor

  // ----- Congruences -----

  lemma {:induction false} MulCong(u: int, u': int, v: int, v': int, n: int)
    requires n > 0 && u % n == u' % n && v % n == v' % n
    ensures (u * v) % n == (u' * v') % n
  {
    MulMod(u, v, n);
    MulMod(u', v, n);
    MulMod(v, u', n);
    MulMod(v', u', n);
    assert v * u' == u' * v && v' * u' == u' * v';
  }

  lemma {:induction false} PowCong(u: int, v: int, e: nat, n: int)
    requires n > 0 && u % n == v % n
    ensures Pow(u, e) % n == Pow(v, e) % n
  {
    PowMod(u, e, n);
    PowMod(v, e, n);
  }

  // A congruence holds modulo every factor of the modulus.
  lemma {:induction false} CongFactor(u: int, v: int, a: int, b: int)
    requires a > 0 && b > 0 && a * b > 0 && u % (a * b) == v % (a * b)
    ensures u % a == v % a
  {
    var q := ResidueDifference(u, v, a * b);
    assert a * b * q == a * (b * q);
    SameResidue(u, v, b * q, a);
  }

  // Congruences modulo coprime factors combine.
  lemma {:induction false} CongCombine(u: int, v: int, a: int, b: int)
    requires a > 0 && b > 0 && a * b > 0 && Gcd(a, b) == 1
    requires u % a == v % a && u % b == v % b
    ensures u % (a * b) == v % (a * b)
  {
    var s, t := Bezout(a, b);
    var k := ResidueDifference(u, v, a);
    var l := ResidueDifference(u, v, b);
    CombineDifference(u - v, a, b, s, t, k, l);
    SameResidue(u, v, l * s + k * t, a * b);
  }

  lemma {:induction false} CombineDifference(d: int, a: int, b: int, s: int, t: int, k: int, l: int)
    requires s * a + t * b == 1 && d == a * k && d == b * l
    ensures d == a * b * (l * s + k * t)
  {
    assert d == d * (s * a) + d * (t * b);
    assert (b * l) * (s * a) == a * b * (l * s);
    assert (a * k) * (t * b) == a * b * (k * t);
    assert a * b * (l * s + k * t) == a * b * (l * s) + a * b * (k * t);
  }

  // ----- Units -----

  lemma {:induction false} UnitFromInverse(x: int, z: int, n: int)
    requires n > 1 && (x * z) % n == 1
    ensures Gcd(x, n) == 1
  {
    var p, q := GcdDivides(x, n);
    var g := Gcd(x, n);
    GcdPositive(x, n);
    ModOfMultiple(0, 1, n);
    var k := ResidueDifference(x * z, 1, n);
    UnitFactor(g, p, q, z, k, x, n);
    ProductGrows(g, p * z - q * k);
  }

  lemma {:induction false} UnitFactor(g: int, p: int, q: int, z: int, k: int, x: int, n: int)
    requires x == g * p && n == g * q && x * z == 1 + n * k
    ensures g * (p * z - q * k) == 1
  {
    assert (g * p) * z == g * (p * z) && (g * q) * k == g * (q * k);
  }

  lemma {:induction false} UnitProduct(x: int, y: int, n: int)
    requires n > 1 && Gcd(x, n) == 1 && Gcd(y, n) == 1
    ensures Gcd(x * y, n) == 1 && Gcd((x * y) % n, n) == 1 && 0 < (x * y) % n < n
  {
    var s := Inverse(x, n);
    var t := Inverse(y, n);
    ModOfMultiple(0, 1, n);
    MulCong(x * s, 1, y * t, 1, n);
    assert (x * s) * (y * t) == (x * y) * (s * t);
    UnitFromInverse(x * y, s * t, n);
    MulMod(x * y, s * t, n);
    UnitFromInverse((x * y) % n, s * t, n);
    assert 0 * (s * t) == 0;
  }

  lemma {:induction false} MinusOneUnit(n: int)
    requires n > 1
    ensures Gcd(n - 1, n) == 1
  {
    assert (n - 1) * (n - 1) == n * (n - 2) + 1;
    ModOfMultiple(n - 2, 1, n);
    UnitFromInverse(n - 1, n - 1, n);
  }

  // ----- Powers -----

  lemma {:induction false} PowPow(x: int, d: nat, e: nat)
    ensures Pow(Pow(x, d), e) == Pow(x, d * e)
  {
    if e > 0 {
      var q := d * (e - 1);
      PowPow(x, d, e - 1);
      assert d * e == d + q;
      PowAdd(x, d, q);
    }
  }

  lemma {:induction false} PowMinusOne(e: nat)
    ensures Pow(-1, e) == if e % 2 == 0 then 1 else -1
  {
    if e > 0 { PowMinusOne(e - 1); }
  }

  // A power of -1, or of 1, modulo n.
  lemma {:induction false} PowOfSign(h: int, e: nat, n: int)
    requires n > 1
    ensures h % n == n - 1 ==> Pow(h, e) % n == if e % 2 == 0 then 1 else n - 1
    ensures h % n == 1 ==> Pow(h, e) % n == 1
  {
    ModOfMultiple(0, 1, n);
    ModOfMultiple(-1, n - 1, n);
    if h % n == n - 1 {
      PowCong(h, -1, e, n);
      PowMinusOne(e);
    } else if h % n == 1 {
      PowCong(h, 1, e, n);
      PowOne(e);
    }
  }

  // The loop of the order finder always ends, so every unit has an order.
  lemma {:induction false} OrderExists(x: int, n: int) returns (r: nat)
    requires n > 1 && Gcd(x, n) == 1
    ensures IsOrder(x, n, r) && r < n
  {
    r := 1;
    FirstPower(x, n);
    DistinctPowersBounded(x, n, r);
    while Pow(x, r) % n != 1
      invariant 1 <= r < n && DistinctPowers(x, n, r)
      invariant forall j :: 1 <= j < r ==> Pow(x, j) % n != 1
      decreases n - r
    {
      NextPowerIsNew(x, n, r);
      r := r + 1;
      DistinctPowersBounded(x, n, r);
    }
  }

  // ----- An exponent that tells the unlucky units -----

  // The product of the odd numbers up to k.
  function OddProduct(k: nat): (m: nat)
    ensures m >= 1
  {
    if k == 0 then 1 else if k % 2 == 1 then k * OddProduct(k - 1) else OddProduct(k - 1)
  }

  lemma OddTimesOdd(a: int, b: int)
    ensures (a * b) % 2 == 1 <==> a % 2 == 1 && b % 2 == 1
  {
    var p, q := a / 2, b / 2;
    if a % 2 == 0 {
      assert a * b == 2 * (p * b);
    } else if b % 2 == 0 {
      assert a * b == 2 * (a * q);
    } else {
      assert a * b == 2 * (p * b + q) + 1;
    }
  }

  lemma {:induction false} OddProductOdd(k: nat)
    ensures OddProduct(k) % 2 == 1
  {
    if k > 0 {
      OddProductOdd(k - 1);
      OddTimesOdd(k, OddProduct(k - 1));
    }
  }

  lemma {:induction false} OddDivides(q: nat, k: nat) returns (d: nat)
    requires q % 2 == 1 && q <= k
    ensures OddProduct(k) == q * d && d % 2 == 1
  {
    if q == k {
      d := OddProduct(k - 1);
      OddProductOdd(k - 1);
    } else {
      var d' := OddDivides(q, k - 1);
      d := if k % 2 == 1 then k * d' else d';
      OddTimesOdd(k, d');
      LastFactors(k, q, d');
      LastFactors(q, k, d');
    }
  }

  lemma {:induction false} TwoPart(r: nat) returns (s: nat, q: nat)
    requires r >= 1
    ensures r == Pow2(s) * q && q % 2 == 1 && s < r
  {
    if r % 2 == 1 {
      s, q := 0, r;
    } else {
      var s' ;
      s', q := TwoPart(r / 2);
      s := s' + 1;
      assert r == 2 * (Pow2(s') * q) == Pow2(s) * q;
    }
  }

  // Some unit has -1 as the power with exponent 2^t * m.
  ghost predicate ReachesMinusOne(n: int, m: nat, t: nat)
    requires n > 0
  {
    exists x: int :: Gcd(x, n) == 1 && Pow(x, Pow2(t) * m) % n == n - 1
  }

  lemma {:induction false} GreatestReaching(n: int, m: nat, bound: nat) returns (t: nat)
    requires n > 1 && m % 2 == 1
    ensures ReachesMinusOne(n, m, t) && forall u :: t < u <= bound ==> !ReachesMinusOne(n, m, u)
  {
    t := bound;
    while t > 0 && !ReachesMinusOne(n, m, t)
      invariant t <= bound && forall u :: t < u <= bound ==> !ReachesMinusOne(n, m, u)
    {
      t := t - 1;
    }
    if t == 0 {
      MinusOneUnit(n);
      ModOfMultiple(0, n - 1, n);
      PowOfSign(n - 1, m, n);
      assert Pow2(0) * m == m;
      assert Gcd(n - 1, n) == 1 && Pow(n - 1, Pow2(0) * m) % n == n - 1;
    }
  }

  // The power of x with this exponent is 1 or -1.
  ghost predicate Close(x: int, e: nat, n: int)
    requires n > 0
  {
    Pow(x, e) % n == 1 || Pow(x, e) % n == n - 1
  }

  // With the greatest exponent that reaches -1, every unlucky unit is close.
  lemma {:induction false} UnluckyIsClose(x: int, n: int, m: nat, t: nat)
    requires n > 2 && Gcd(x, n) == 1 && !Lucky(x, n) && m == OddProduct(n)
    requires forall u :: t < u <= n ==> !ReachesMinusOne(n, m, u)
    ensures Close(x, Pow2(t) * m, n)
  {
    hide Pow2, Pow, OddProduct, Close;
    var r := OrderExists(x, n);
    var s, q := TwoPart(r);
    ProductGrowsFrom(Pow2(s), q);
    var d := OddDivides(q, n);
    if s == 0 {
      assert r == q by { PowerZeroOfTwo(q); }
      OddOrder(x, n, r, d, m, t);
    } else {
      EvenOrder(x, n, r, s, q);
      OddPowerOfHalf(x, n, r, s, q, d, m);
      assert ReachesMinusOne(n, m, s - 1);
      assert s - 1 <= t;
      ClimbToGreatest(x, n, m, s - 1, t);
    }
  }

  lemma PowerZeroOfTwo(q: nat)
    ensures Pow2(0) * q == q
  {
  }

  // An odd order divides m, so the power is 1.
  lemma {:induction false} OddOrder(x: int, n: int, r: nat, d: nat, m: nat, t: nat)
    requires n > 2 && IsOrder(x, n, r) && m == r * d
    ensures Close(x, Pow2(t) * m, n)
  {
    hide Pow2, Pow;
    PowPow(x, r, d);
    PowOfSign(Pow(x, r), d, n);
    PowPow(x, m, Pow2(t));
    PowOfSign(Pow(x, m), Pow2(t), n);
    assert m * Pow2(t) == Pow2(t) * m;
  }

  // An even order of an unlucky unit: the half power is -1.
  lemma {:induction false} EvenOrder(x: int, n: int, r: nat, s: nat, q: nat)
    requires n > 2 && Gcd(x, n) == 1 && !Lucky(x, n) && IsOrder(x, n, r) && s > 0 && r == Pow2(s) * q
    ensures r % 2 == 0 && r / 2 == Pow2(s - 1) * q && Pow(x, r / 2) % n == n - 1
  {
    assert r == 2 * (Pow2(s - 1) * q);
  }

  lemma {:induction false} OddPowerOfHalf(x: int, n: int, r: nat, s: nat, q: nat, d: nat, m: nat)
    requires n > 2 && s > 0 && r / 2 == Pow2(s - 1) * q && Pow(x, r / 2) % n == n - 1
    requires m == q * d && d % 2 == 1
    ensures Pow(x, Pow2(s - 1) * m) % n == n - 1
  {
    hide Pow2, Pow;
    PowPow(x, r / 2, d);
    PowOfSign(Pow(x, r / 2), d, n);
    LastFactors(Pow2(s - 1), q, d);
  }

  lemma LastFactors(p: int, q: int, d: int)
    ensures (p * q) * d == p * (q * d)
  {
  }

  lemma {:induction false} ClimbToGreatest(x: int, n: int, m: nat, u: nat, t: nat)
    requires n > 2 && u <= t && Pow(x, Pow2(u) * m) % n == n - 1
    ensures Close(x, Pow2(t) * m, n)
  {
    hide Pow2, Pow;
    var e, k := Pow2(u) * m, Pow2(t - u);
    PowPow(x, e, k);
    PowOfSign(Pow(x, e), k, n);
    Pow2Add(u, t - u);
    MiddleFactor(Pow2(u), m, k);
  }

  lemma MiddleFactor(p: int, m: int, k: int)
    ensures (p * m) * k == (p * k) * m
  {
    assert (p * m) * k == p * (m * k) == p * (k * m);
  }

  // ----- A unit that is not close -----

  // A number that is g modulo a and 1 modulo b.
  lemma {:induction false} Mixed(g: int, a: int, b: int) returns (y: int)
    requires a > 0 && b > 0 && Gcd(a, b) == 1
    ensures y % a == g % a && y % b == 1 % b
  {
    var s, t := Bezout(a, b);
    y := g * (t * b) + s * a;
    MixedDifference(g, a, b, s, t);
    SameResidue(y, g, s * (1 - g), a);
    SameResidue(y, 1, t * (g - 1), b);
  }

  lemma {:induction false} MixedDifference(g: int, a: int, b: int, s: int, t: int)
    requires s * a + t * b == 1
    ensures g * (t * b) + s * a == g + a * (s * (1 - g))
    ensures g * (t * b) + s * a == 1 + b * (t * (g - 1))
  {
    assert t * b == 1 - s * a;
    assert g * (t * b) == g * (1 - s * a) == g - a * (s * g);
    assert a * (s * (1 - g)) == s * a - a * (s * g);
    assert b * (t * (g - 1)) == g * (t * b) - t * b;
  }

  lemma {:induction false} FarUnit(n: int, a: int, b: int, m: nat, t: nat) returns (y: int)
    requires n == a * b && a > 2 && b > 2 && Gcd(a, b) == 1 && n > 2 && ReachesMinusOne(n, m, t)
    ensures Gcd(y, n) == 1 && !Close(y, Pow2(t) * m, n)
  {
    hide Pow2, Pow, Gcd;
    var e := Pow2(t) * m;
    var g: int :| Gcd(g, n) == 1 && Pow(g, e) % n == n - 1;
    y := Mixed(g, a, b);
    MixedUnit(g, y, n, a, b);
    PowCong(y, g, e, a);
    ResidueOfFactor(Pow(g, e), n, a, b);
    PowCong(y, 1, e, b);
    PowOne(e);
    ModOfMultiple(0, 1, b);
    MixedIsNoSign(Pow(y, e), n, a, b);
  }

  // 1 and -1 modulo n are 1 and -1 modulo a factor.
  lemma {:induction false} ResidueOfFactor(p: int, n: int, a: int, b: int)
    requires n == a * b && a > 2 && b > 0 && n > 2
    ensures p % n == n - 1 ==> p % a == a - 1
    ensures p % n == 1 ==> p % a == 1
  {
    if p % n == n - 1 {
      ModOfMultiple(0, n - 1, n);
      CongFactor(p, n - 1, a, b);
      assert n - 1 == a * (b - 1) + (a - 1);
      ModOfMultiple(b - 1, a - 1, a);
    } else if p % n == 1 {
      ModOfMultiple(0, 1, n);
      CongFactor(p, 1, a, b);
      ModOfMultiple(0, 1, a);
    }
  }

  // -1 modulo one factor and 1 modulo the other is neither modulo their product.
  lemma {:induction false} MixedIsNoSign(p: int, n: int, a: int, b: int)
    requires n == a * b && a > 2 && b > 2 && n > 2 && p % a == a - 1 && p % b == 1
    ensures p % n != 1 && p % n != n - 1
  {
    ResidueOfFactor(p, n, a, b);
    assert n == b * a;
    ResidueOfFactor(p, n, b, a);
  }

  lemma {:induction false} MixedUnit(g: int, y: int, n: int, a: int, b: int)
    requires n == a * b && a > 1 && b > 1 && n > 1 && Gcd(a, b) == 1 && Gcd(g, n) == 1
    requires y % a == g % a && y % b == 1 % b
    ensures Gcd(y, n) == 1
  {
    var h := Inverse(g, n);
    var z := Mixed(h, a, b);
    ModOfMultiple(0, 1, n);
    CongFactor(g * h, 1, a, b);
    MulCong(y, g, z, h, a);
    MulCong(y, 1, z, 1, b);
    CongCombine(y * z, 1, a, b);
    UnitFromInverse(y, z, n);
  }

  // ----- Counting -----

  ghost function Units(n: int): set<int> {
    set x: int | 0 < x < n && Gcd(x, n) == 1
  }

  ghost function CloseUnits(n: int, e: nat): set<int>
    requires n > 0
  {
    set x | x in Units(n) && Close(x, e, n)
  }

  ghost function UnluckyUnits(n: int): set<int>
    requires n > 0
  {
    set x | x in Units(n) && !Lucky(x, n)
  }

  lemma {:induction false} SignProduct(u: int, v: int, n: int)
    requires n > 2
    requires u % n == 1 || u % n == n - 1
    requires v % n == 1 || v % n == n - 1
    ensures (u * v) % n == 1 || (u * v) % n == n - 1
  {
    ModOfMultiple(0, 1, n);
    ModOfMultiple(-1, n - 1, n);
    var u', v' := if u % n == 1 then 1 else -1, if v % n == 1 then 1 else -1;
    MulCong(u, u', v, v', n);
  }

  // Multiplying a close unit by a far one gives a far one.
  lemma {:induction false} FarTimesClose(x: int, y: int, e: nat, n: int)
    requires n > 2 && Close(x, e, n) && !Close(y, e, n)
    ensures !Close((y * x) % n, e, n)
  {
    var u, v := Pow(y, e), Pow(x, e);
    PowMul(y, x, e);
    PowMod(y * x, e, n);
    SquareOfSign(v, n);
    MulCong(u, u, v * v, 1, n);
    assert (u * v) * v == u * (v * v);
    if Close((y * x) % n, e, n) {
      SignProduct(u * v, v, n);
    }
  }

  lemma {:induction false} SquareOfSign(v: int, n: int)
    requires n > 2 && (v % n == 1 || v % n == n - 1)
    ensures (v * v) % n == 1 % n
  {
    ModOfMultiple(0, 1, n);
    ModOfMultiple(-1, n - 1, n);
    var v' := if v % n == 1 then 1 else -1;
    MulCong(v, v', v, v', n);
  }

  // At most half of the units are close: a far unit moves them all outside.
  lemma {:induction false} CloseAtMostHalf(n: int, e: nat, y: int)
    requires n > 2 && Gcd(y, n) == 1 && !Close(y, e, n)
    ensures 2 * |CloseUnits(n, e)| <= |Units(n)|
  {
    hide Close, Gcd;
    var near, all := CloseUnits(n, e), Units(n);
    var move := (x: int) => (y * x) % n;
    forall x, x' | x in near && x' in near && move(x) == move(x') ensures x == x' {
      Cancel(y, x, x', n);
      ModOfMultiple(0, x, n);
      ModOfMultiple(0, x', n);
    }
    ImageSize(near, move);
    forall z | z in Image(near, move) ensures z in all && z !in near {
      var x :| x in near && z == move(x);
      UnitProduct(y, x, n);
      FarTimesClose(x, y, e, n);
    }
    Separate(near, Image(near, move), all);
  }

  lemma Separate(s: set<int>, t: set<int>, u: set<int>)
    requires s <= u && t <= u && s !! t
    ensures |s| + |t| <= |u|
  {
    assert |s + t| == |s| + |t|;
    Subset(s + t, u);
  }

  lemma {:induction false} Subset(s: set<int>, t: set<int>)
    requires s <= t
    ensures |s| <= |t|
  {
    assert t == s + (t - s);
  }

  // At most half of the units are unlucky.
  lemma {:induction false} UnluckyAtMostHalf(n: int, a: int, b: int)
    requires n == a * b && a > 2 && b > 2 && Gcd(a, b) == 1 && n > 2
    ensures 2 * |UnluckyUnits(n)| <= |Units(n)|
  {
    hide Close, Lucky, Gcd, Pow2;
    var m := OddProduct(n);
    OddProductOdd(n);
    var t := GreatestReaching(n, m, n);
    var e := Pow2(t) * m;
    var y := FarUnit(n, a, b, m, t);
    CloseAtMostHalf(n, e, y);
    forall x | x in UnluckyUnits(n) ensures x in CloseUnits(n, e) {
      UnluckyIsClose(x, n, m, t);
    }
    Subset(UnluckyUnits(n), CloseUnits(n, e));
  }

  // The draws of one attempt that lead nowhere.
  ghost function UnluckyDraws(n: int): set<int>
    requires n > 0
  {
    set x: int | 2 <= x < n && !Lucky(x, n)
  }

  lemma {:induction false} OneIsUnlucky(n: int)
    requires n > 2
    ensures 1 in UnluckyUnits(n)
  {
    ModOfMultiple(0, 1, n);
    UnitFromInverse(1, 1, n);
    forall r: nat | IsOrder(1, n, r) ensures r == 1 {
      assert Pow(1, 1) == 1;
    }
  }

  // More than half of the n - 2 draws of one attempt lead to a factor.
  lemma {:induction false} MostDrawsSucceed(n: int, a: int, b: int)
    requires n == a * b && a > 2 && b > 2 && Gcd(a, b) == 1 && n > 2
    ensures 2 * |UnluckyDraws(n)| < n - 2
  {
    hide Gcd;
    UnluckyAtMostHalf(n, a, b);
    OneIsUnlucky(n);
    forall x | x in UnluckyDraws(n) ensures x in UnluckyUnits(n) {
      GcdPositive(x, n);
    }
    assert UnluckyDraws(n) !! {1};
    Separate(UnluckyDraws(n), {1}, UnluckyUnits(n));
    BoundedSetSize(Units(n), 1, n);
  }

  // ----- The numbers that reach the loop -----

  lemma {:induction false} PrimeUnit(p: nat, x: int)
    requires IsPrime(p) && x % p != 0
    ensures Gcd(x, p) == 1
  {
    var g := Gcd(x, p);
    var s, t := GcdDivides(x, p);
    GcdPositive(x, p);
    ModOfMultiple(s, 0, g);
  }

  // Taking out all factors p.
  lemma {:induction false} SplitOff(n: nat, p: nat) returns (k: nat, b: nat)
    requires n >= 1 && p >= 2
    ensures n == Pow(p, k) * b && b >= 1 && b % p != 0 && (n % p == 0 ==> k >= 1)
  {
    if n % p != 0 {
      k, b := 0, n;
    } else {
      var k';
      k', b := SplitOff(n / p, p);
      k := k' + 1;
      var m := n / p;
      assert n == p * m by { assert n == p * (n / p) + n % p; }
      assert Pow(p, k) == p * Pow(p, k');
      hide Pow;
      LastFactors(p, Pow(p, k'), b);
    }
  }

  lemma {:induction false} PowerCoprime(p: nat, b: nat, k: nat)
    requires IsPrime(p) && b > 1 && b % p != 0
    ensures Gcd(Pow(p, k), b) == 1
  {
    ModOfMultiple(0, 1, b);
    if k == 0 {
      UnitFromInverse(1, 1, b);
    } else {
      PowerCoprime(p, b, k - 1);
      PrimeUnit(p, b);
      var s, t := Bezout(b, p);
      SameResidue(p * t, 1, -s, b);
      UnitFromInverse(p, t, b);
      UnitProduct(p, Pow(p, k - 1), b);
    }
  }

  // An odd number with a prime factor p that is no power of p has coprime factors above 2.
  lemma {:induction false} CoprimeFactors(n: nat, p: nat) returns (a: nat, b: nat)
    requires n > 2 && n % 2 == 1 && IsPrime(p) && n % p == 0 && forall k: nat :: Pow(p, k) != n
    ensures n == a * b && a > 2 && b > 2 && Gcd(a, b) == 1
  {
    var k;
    k, b := SplitOff(n, p);
    PowPositive(p, k);
    a := Pow(p, k);
    OddTimesOdd(a, b);
    assert b == 1 ==> a * b == a;
    PowerCoprime(p, b, k);
    PowPositive(p, k - 1);
    ProductGrowsFrom(p, Pow(p, k - 1));
  }

  lemma {:induction false} PrimeDivisor(n: nat) returns (p: nat)
    requires n >= 2
    ensures IsPrime(p) && n % p == 0 && p <= n
  {
    if IsPrime(n) {
      p := n;
    } else {
      var d: nat :| 2 <= d < n && n % d == 0;
      p := PrimeDivisor(d);
      var q, r := n / d, d / p;
      assert n == d * q && d == p * r;
      LastFactors(p, r, q);
      ModOfMultiple(r * q, 0, p);
    }
  }

  lemma {:induction false} DifferentPrimes(p: nat, q: nat)
    requires IsPrime(p) && IsPrime(q) && p != q
    ensures q % p != 0 && p > 1 && q > 1
  {
    if p > q { ModOfMultiple(0, q, p); }
  }

  // Two different prime factors: one attempt succeeds for more than half of the draws.
  lemma {:induction false} TwoPrimesSucceed(n: nat, p: nat, q: nat)
    requires n > 2 && n % 2 == 1 && IsPrime(p) && IsPrime(q) && p != q && n % p == 0 && n % q == 0
    ensures 2 * |UnluckyUnits(n)| <= |Units(n)| && 2 * |UnluckyDraws(n)| < n - 2
  {
    hide IsPrime, Gcd, UnluckyUnits, Units, UnluckyDraws;
    DifferentPrimes(p, q);
    forall k: nat ensures Pow(p, k) != n {
      PowerCoprime(p, q, k);
      UnitNotZero(Pow(p, k), q);
    }
    var a, b := CoprimeFactors(n, p);
    UnluckyAtMostHalf(n, a, b);
    MostDrawsSucceed(n, a, b);
  }

  lemma {:induction false} UnitNotZero(x: int, n: int)
    requires n > 1 && Gcd(x, n) == 1
    ensures x % n != 0
  {
    UnitProduct(x, x, n);
    MulMod(x, x, n);
    assert 0 * x == 0;
  }

  // What find_factor has excluded when it reaches its loop is enough: neither prime nor even nor
  // a perfect power.
  lemma {:induction false} LoopSucceeds(n: nat)
    requires n > 2 && n % 2 == 1 && !IsPrime(n) && forall c: nat, k: nat :: k >= 2 ==> Pow(c, k) != n
    ensures 2 * |UnluckyDraws(n)| < n - 2
  {
    var p := PrimeDivisor(n);
    forall k: nat ensures Pow(p, k) != n {
      if k == 1 { assert Pow(p, 1) == p; }
    }
    var a, b := CoprimeFactors(n, p);
    MostDrawsSucceed(n, a, b);
  }
}
