// Groups as values: an invertible interpretation of circuits.
module Groups {

  datatype Group<!G(!new)> = Group(one: G, mul: (G, G) -> G, inv: G -> G)

  ghost predicate IsGroup<G(!new)>(g: Group<G>) {
    && (forall x, y, z :: g.mul(g.mul(x, y), z) == g.mul(x, g.mul(y, z)))
    && (forall x :: g.mul(g.one, x) == x && g.mul(x, g.one) == x)
    && (forall x :: g.mul(g.inv(x), x) == g.one && g.mul(x, g.inv(x)) == g.one)
  }

  function Power<G(!new)>(g: Group<G>, x: G, n: nat): G {
    if n == 0 then g.one else g.mul(x, Power(g, x, n - 1))
  }

  // Integer powers: a negative power repeats the inverse.
  function PowerInt<G(!new)>(g: Group<G>, x: G, n: int): G {
    if n >= 0 then Power(g, x, n) else Power(g, g.inv(x), -n)
  }

  // The group laws, one instance at a time.
  lemma Associate<G(!new)>(g: Group<G>, x: G, y: G, z: G)
    requires IsGroup(g)
    ensures g.mul(g.mul(x, y), z) == g.mul(x, g.mul(y, z))
  {
  }

  lemma UnitAndInverse<G(!new)>(g: Group<G>, x: G)
    requires IsGroup(g)
    ensures g.mul(g.one, x) == x && g.mul(x, g.one) == x
    ensures g.mul(g.inv(x), x) == g.one && g.mul(x, g.inv(x)) == g.one
  {
  }

  lemma {:induction false} PowerAdd<G(!new)>(g: Group<G>, x: G, m: nat, n: nat)
    requires IsGroup(g)
    ensures Power(g, x, m + n) == g.mul(Power(g, x, m), Power(g, x, n))
  {
    hide IsGroup;
    if m == 0 {
      UnitAndInverse(g, Power(g, x, n));
    } else {
      PowerAdd(g, x, m - 1, n);
      assert m + n - 1 == (m - 1) + n;
      Associate(g, x, Power(g, x, m - 1), Power(g, x, n));
    }
  }

  lemma {:induction false} PowerMul<G(!new)>(g: Group<G>, x: G, m: nat, n: nat)
    requires IsGroup(g)
    ensures Power(g, Power(g, x, m), n) == Power(g, x, m * n)
  {
    hide IsGroup;
    if n == 0 {
      assert m * 0 == 0;
    } else {
      PowerMul(g, x, m, n - 1);
      var q := m * (n - 1);
      assert m * n == m + q;
      PowerAdd(g, x, m, q);
    }
  }

  lemma InverseUnique<G(!new)>(g: Group<G>, x: G, y: G)
    requires IsGroup(g) && g.mul(x, y) == g.one
    ensures y == g.inv(x)
  {
    hide IsGroup;
    Associate(g, g.inv(x), x, y);
    UnitAndInverse(g, x);
    UnitAndInverse(g, y);
    UnitAndInverse(g, g.inv(x));
  }

  lemma InverseOfProduct<G(!new)>(g: Group<G>, x: G, y: G)
    requires IsGroup(g)
    ensures g.inv(g.mul(x, y)) == g.mul(g.inv(y), g.inv(x))
  {
    hide IsGroup;
    var z := g.mul(g.inv(y), g.inv(x));
    Associate(g, x, y, z);
    Associate(g, y, g.inv(y), g.inv(x));
    UnitAndInverse(g, y);
    UnitAndInverse(g, g.inv(x));
    UnitAndInverse(g, x);
    InverseUnique(g, g.mul(x, y), z);
  }

  lemma InverseTwice<G(!new)>(g: Group<G>, x: G)
    requires IsGroup(g)
    ensures g.inv(g.inv(x)) == x && g.inv(g.one) == g.one
  {
    hide IsGroup;
    UnitAndInverse(g, x);
    UnitAndInverse(g, g.one);
    InverseUnique(g, g.inv(x), x);
    InverseUnique(g, g.one, g.one);
  }

  lemma PowerOne<G(!new)>(g: Group<G>, x: G)
    requires IsGroup(g)
    ensures Power(g, x, 1) == x
  {
    hide IsGroup;
    UnitAndInverse(g, x);
    assert Power(g, x, 1) == g.mul(x, Power(g, x, 0));
  }

  lemma {:induction false} PowerOfInverse<G(!new)>(g: Group<G>, x: G, n: nat)
    requires IsGroup(g)
    ensures Power(g, g.inv(x), n) == g.inv(Power(g, x, n))
  {
    hide IsGroup;
    if n == 0 {
      InverseTwice(g, x);
    } else {
      PowerOfInverse(g, x, n - 1);
      PowerAdd(g, x, n - 1, 1);
      PowerOne(g, x);
      InverseOfProduct(g, Power(g, x, n - 1), x);
    }
  }

  // (x^a)^b is x^(a*b) for integer exponents of either sign.
  lemma {:induction false} PowerIntMul<G(!new)>(g: Group<G>, x: G, a: int, b: int)
    requires IsGroup(g)
    ensures PowerInt(g, PowerInt(g, x, a), b) == PowerInt(g, x, a * b)
  {
    hide IsGroup, Power;
    var m: nat, n: nat := if a < 0 then -a else a, if b < 0 then -b else b;
    var p := Power(g, x, m);
    PowerMul(g, x, m, n);
    PowerOfInverse(g, x, m);
    InverseTwice(g, p);
    PowerOfInverse(g, p, n);
    PowerOfInverse(g, x, m * n);
    SignedProduct(a, b, m, n);
    if m * n == 0 { PowerZero(g, x); }
  }

  lemma PowerZero<G(!new)>(g: Group<G>, x: G)
    requires IsGroup(g)
    ensures g.inv(Power(g, x, 0)) == Power(g, x, 0)
  {
    InverseTwice(g, x);
  }

  lemma SignedProduct(a: int, b: int, m: int, n: int)
    requires m == (if a < 0 then -a else a) && n == if b < 0 then -b else b
    ensures m * n >= 0 && a * b == if a < 0 <==> b < 0 then m * n else -(m * n)
  {
  }

  // The inverse of an integer power is the power of the negated exponent.
  lemma PowerIntInverse<G(!new)>(g: Group<G>, x: G, n: int)
    requires IsGroup(g)
    ensures PowerInt(g, x, -n) == g.inv(PowerInt(g, x, n))
  {
    hide IsGroup, Power;
    var m: nat := if n < 0 then -n else n;
    PowerOfInverse(g, x, m);
    InverseTwice(g, Power(g, x, m));
    if m == 0 { PowerZero(g, x); }
  }
}
