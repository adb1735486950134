// Elementary number theory: greatest common divisors, residues, powers, and the orders of
// units modulo n.
module NumberTheory {
  import opened Prelude

  // ----- Greatest common divisor -----

  function Gcd(a: int, b: int): nat
    decreases Abs(b)
  {
    if b == 0 then Abs(a) else Gcd(b, a % b)
  }

  lemma CommonFactor(g: int, b: int, k: int, m: int, p: int, q: int)
    requires b == g * p && m == g * q
    ensures b * k + m == g * (k * p + q)
  {
    assert (g * p) * k == g * (k * p);
  }

  lemma {:induction false} GcdDivides(a: int, b: int) returns (p: int, q: int)
    ensures a == Gcd(a, b) * p && b == Gcd(a, b) * q
    decreases Abs(b)
  {
    var g := Gcd(a, b);
    if b == 0 {
      p, q := if a < 0 then -1 else 1, 0;
    } else {
      var p', q' := GcdDivides(b, a % b);
      q := p';
      p := (a / b) * p' + q';
      CommonFactor(g, b, a / b, a % b, p', q');
    }
  }

  lemma BezoutStep(s: int, t: int, a: int, b: int, k: int, m: int)
    requires a == b * k + m
    ensures t * a + (s - t * k) * b == s * b + t * m
  {
    assert t * (b * k) == (t * k) * b;
  }

  lemma {:induction false} Bezout(a: int, b: int) returns (s: int, t: int)
    ensures s * a + t * b == Gcd(a, b)
    decreases Abs(b)
  {
    if b == 0 {
      s, t := if a < 0 then -1 else 1, 0;
    } else {
      var s', t' := Bezout(b, a % b);
      s, t := t', s' - t' * (a / b);
      BezoutStep(s', t', a, b, a / b, a % b);
    }
  }

  lemma GcdPositive(a: int, b: int)
    requires b != 0
    ensures Gcd(a, b) > 0
    ensures b > 0 ==> Gcd(a, b) <= b
    ensures a > 0 && b > 0 ==> Gcd(a, b) <= a
    ensures b % Gcd(a, b) == 0
  {
    var p, q := GcdDivides(a, b);
    var g := Gcd(a, b);
    ModOfMultiple(q, 0, g);
    if b > 0 && g > b { ProductSign(g, q); assert q >= 1; }
    if b > 0 { ProductGrows(g, q); }
    if a > 0 && b > 0 { ProductGrows(g, p); }
  }

  lemma ProductSign(g: int, q: int)
    requires g > 0 && g * q > 0
    ensures q >= 1
  {
  }

  lemma ProductGrows(g: int, q: int)
    requires g > 0 && g * q > 0
    ensures g <= g * q && q <= g * q
  {
    ProductSign(g, q);
    assert g * q == g + g * (q - 1);
    assert g * q == q + (g - 1) * q;
  }

  // ----- Residues -----

  lemma MulAtLeast(n: int, d: int, q: int, q': int)
    requires n > 0 && d >= 1 && q == q' + d
    ensures n * q >= n * q' + n
  {
    assert n * q == n * q' + n * d;
    assert n * d == n + n * (d - 1);
  }

  lemma {:induction false} DivisionUnique(n: int, q: int, r: int, q': int, r': int)
    requires n > 0 && 0 <= r < n && 0 <= r' < n && n * q + r == n * q' + r'
    ensures q == q' && r == r'
  {
    if q > q' { MulAtLeast(n, q - q', q, q'); }
    if q < q' { MulAtLeast(n, q' - q, q', q); }
  }

  lemma {:induction false} ModOfMultiple(q: int, r: int, n: int)
    requires n > 0 && 0 <= r < n
    ensures (n * q + r) % n == r && (n * q + r) / n == q
  {
    var a := n * q + r;
    DivisionUnique(n, q, r, a / n, a % n);
  }

  // Two numbers have the same residue when they differ by a multiple.
  lemma {:induction false} SameResidue(a: int, b: int, q: int, n: int)
    requires n > 0 && a == b + n * q
    ensures a % n == b % n
  {
    assert b == n * (b / n) + b % n;
    assert a == n * (b / n + q) + b % n;
    ModOfMultiple(b / n + q, b % n, n);
  }

  lemma ResidueDifference(a: int, b: int, n: int) returns (q: int)
    requires n > 0 && a % n == b % n
    ensures a == b + n * q
  {
    q := a / n - b / n;
    assert a == n * (a / n) + a % n && b == n * (b / n) + b % n;
    assert n * q == n * (a / n) - n * (b / n);
  }

  lemma {:induction false} MulMod(a: int, b: int, n: int)
    requires n > 0
    ensures ((a % n) * b) % n == (a * b) % n
  {
    assert a == n * (a / n) + a % n;
    assert a * b == (a % n) * b + n * ((a / n) * b);
    SameResidue(a * b, (a % n) * b, (a / n) * b, n);
  }

  // A unit can be cancelled.
  lemma Cancel(x: int, a: int, b: int, n: int)
    requires n > 0 && Gcd(x, n) == 1
    requires (x * a) % n == (x * b) % n
    ensures a % n == b % n
  {
    var s, t := Bezout(x, n);
    var q := ResidueDifference(x * a, x * b, n);
    CancelDifference(x, a - b, n, s, t, q) by {
      assert x * (a - b) == x * a - x * b;
    }
    SameResidue(a, b, s * q + t * (a - b), n);
  }

  lemma CancelDifference(x: int, d: int, n: int, s: int, t: int, q: int)
    requires s * x + t * n == 1 && x * d == n * q
    ensures d == n * (s * q + t * d)
  {
    assert d == (s * x + t * n) * d == s * (x * d) + n * (t * d);
    assert s * (n * q) == n * (s * q);
  }

  // ----- Powers -----

  function Pow(x: int, e: nat): int {
    if e == 0 then 1 else x * Pow(x, e - 1)
  }

  lemma {:induction false} PowAdd(x: int, d: nat, e: nat)
    ensures Pow(x, d + e) == Pow(x, d) * Pow(x, e)
  {
    if d == 0 {
    } else {
      PowAdd(x, d - 1, e);
      assert d + e - 1 == (d - 1) + e;
      calc {
        Pow(x, d + e);
        x * Pow(x, (d - 1) + e);
        x * (Pow(x, d - 1) * Pow(x, e));
        (x * Pow(x, d - 1)) * Pow(x, e);
      }
    }
  }

  lemma Exchange(x: int, y: int, p: int, q: int)
    ensures (x * y) * (p * q) == (x * p) * (y * q)
  {
    assert (x * y) * (p * q) == x * (y * (p * q));
    assert y * (p * q) == p * (y * q);
    assert (x * p) * (y * q) == x * (p * (y * q));
  }

  lemma {:induction false} PowMul(x: int, y: int, e: nat)
    ensures Pow(x * y, e) == Pow(x, e) * Pow(y, e)
  {
    if e == 0 {
    } else {
      PowMul(x, y, e - 1);
      Exchange(x, y, Pow(x, e - 1), Pow(y, e - 1));
    }
  }

  lemma {:induction false} PowMod(x: int, e: nat, n: int)
    requires n > 0
    ensures Pow(x % n, e) % n == Pow(x, e) % n
  {
    if e == 0 {
    } else {
      PowMod(x, e - 1, n);
      var p, p' := Pow(x, e - 1), Pow(x % n, e - 1);
      MulMod(x, p', n);
      MulMod(p', x, n);
      MulMod(p, x, n);
    }
  }

  lemma {:induction false} PowOne(e: nat)
    ensures Pow(1, e) == 1
  {
    if e > 0 { PowOne(e - 1); }
  }

  // An inverse modulo n, for a unit.
  lemma {:induction false} Inverse(x: int, n: int) returns (s: int)
    requires n > 0 && Gcd(x, n) == 1
    ensures (x * s) % n == 1 % n
  {
    var t;
    s, t := Bezout(x, n);
    SameResidue(x * s, 1, -t, n);
  }

  // Powers of a unit are units: they never vanish modulo n.
  lemma {:induction false} PowUnit(x: int, e: nat, n: int)
    requires n > 1 && Gcd(x, n) == 1
    ensures 1 <= Pow(x, e) % n < n
  {
    var s := Inverse(x, n);
    PowMul(x, s, e);
    PowMod(x * s, e, n);
    ModOfMultiple(0, 1, n);
    PowOne(e);
    assert (Pow(x, e) * Pow(s, e)) % n == 1;
    MulMod(Pow(x, e), Pow(s, e), n);
  }

  // ----- Orders -----

  // r is the least positive exponent with x^r = 1 modulo n.
  ghost predicate IsOrder(x: int, n: int, r: nat)
    requires n > 0
  {
    1 <= r && Pow(x, r) % n == 1 && forall j :: 1 <= j < r ==> Pow(x, j) % n != 1
  }

  lemma OrderUnique(x: int, n: int, r: nat, r': nat)
    requires n > 0 && IsOrder(x, n, r) && IsOrder(x, n, r')
    ensures r == r'
  {
  }

  // ----- Counting -----

  // At most hi - lo integers fit between lo and hi.
  lemma {:induction false} BoundedSetSize(s: set<int>, lo: int, hi: int)
    requires lo <= hi && forall i :: i in s ==> lo <= i < hi
    ensures |s| <= hi - lo
    decreases hi - lo
  {
    if lo == hi {
      assert s == {};
    } else {
      BoundedSetSize(s - {hi - 1}, lo, hi - 1);
      if hi - 1 !in s { assert s - {hi - 1} == s; }
    }
  }

  predicate IsPrime(n: int) {
    n >= 2 && forall d :: 2 <= d < n ==> n % d != 0
  }
}
