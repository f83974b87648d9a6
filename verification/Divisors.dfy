/** Divisibility and greatest common divisors. */
module Divisors {
  import opened Arithmetic

  ghost predicate Divides(d: int, x: int)
    requires 0 < d
  {
    x % d == 0
  }

  lemma Cofactor(d: int, x: int) returns (q: int)
    requires 0 < d && Divides(d, x)
    ensures x == d * q
  {
    q := x / d;
    DivisionSum(x, d);
    Commute(q, d);
  }

  lemma Multiple(d: int, q: int)
    requires 0 < d
    ensures Divides(d, d * q)
  {
    DivMod(q, d, 0);
    Commute(q, d);
  }

  lemma AtLeastOne(d: int, q: int)
    requires 0 < d
    ensures q >= 1 ==> d * q >= d
    ensures q <= 0 ==> d * q <= 0
  {
    if q >= 1 {
      Monotone(1, q, d);
    } else {
      Monotone(q, 0, d);
    }
    Commute(q, d);
  }

  lemma DividesSum(d: int, x: int, y: int)
    requires 0 < d && Divides(d, x) && Divides(d, y)
    ensures Divides(d, x + y) && Divides(d, x - y)
  {
    var p := Cofactor(d, x);
    var q := Cofactor(d, y);
    Multiple(d, p + q);
    Multiple(d, p - q);
    assert d * (p + q) == d * p + d * q && d * (p - q) == d * p - d * q;
  }

  lemma DividesTransitive(d: int, e: int, x: int)
    requires 0 < d && 0 < e && Divides(d, e) && Divides(e, x)
    ensures Divides(d, x)
  {
    var p := Cofactor(d, e);
    var q := Cofactor(e, x);
    Multiple(d, p * q);
    assert d * (p * q) == d * p * q;
  }

  /** Multiples of `d` that differ by less than `d` are equal. */
  lemma MultiplesApart(d: int, x: int, y: int)
    requires 0 < d && Divides(d, x) && Divides(d, y) && x < y
    ensures x + d <= y
  {
    DividesSum(d, y, x);
    var q := Cofactor(d, y - x);
    AtLeastOne(d, q);
  }

  function Gcd(a: nat, b: nat): nat
    decreases a + b
  {
    if a == 0 then b
    else if b == 0 then a
    else if a < b then Gcd(a, b - a) else Gcd(a - b, b)
  }

  lemma {:induction false} GcdDivides(a: nat, b: nat)
    requires 0 < a && 0 < b
    ensures 0 < Gcd(a, b) && Divides(Gcd(a, b), a) && Divides(Gcd(a, b), b)
    decreases a + b
  {
    if a < b {
      GcdDivides(a, b - a);
      DividesSum(Gcd(a, b), a, b - a);
    } else if b < a {
      GcdDivides(a - b, b);
      DividesSum(Gcd(a, b), a - b, b);
    } else {
      assert Gcd(a, b) == Gcd(0, b) == b;
    }
  }

  lemma Gcd3Divides(a: nat, b: nat, c: nat)
    requires 0 < a && 0 < b && 0 < c
    ensures var g := Gcd(Gcd(a, b), c); 0 < g && Divides(g, a) && Divides(g, b) && Divides(g, c)
  {
    GcdDivides(a, b);
    GcdDivides(Gcd(a, b), c);
    DividesTransitive(Gcd(Gcd(a, b), c), Gcd(a, b), a);
    DividesTransitive(Gcd(Gcd(a, b), c), Gcd(a, b), b);
  }

  lemma {:induction false} GcdIsGreatest(e: int, a: nat, b: nat)
    requires 0 < e && 0 < a && 0 < b && Divides(e, a) && Divides(e, b)
    ensures Divides(e, Gcd(a, b))
    decreases a + b
  {
    if a < b {
      DividesSum(e, b, a);
      GcdIsGreatest(e, a, b - a);
    } else if b < a {
      DividesSum(e, a, b);
      GcdIsGreatest(e, a - b, b);
    } else {
      assert Gcd(a, b) == Gcd(0, b) == b;
    }
  }

  /** The divisors of the gcd are the common divisors. */
  lemma GcdDivisors(e: int, a: nat, b: nat)
    requires 0 < e && 0 < a && 0 < b
    ensures 0 < Gcd(a, b) && (Divides(e, Gcd(a, b)) <==> Divides(e, a) && Divides(e, b))
  {
    GcdDivides(a, b);
    if Divides(e, Gcd(a, b)) {
      DividesTransitive(e, Gcd(a, b), a);
      DividesTransitive(e, Gcd(a, b), b);
    }
    if Divides(e, a) && Divides(e, b) {
      GcdIsGreatest(e, a, b);
    }
  }

  lemma {:induction false} GcdSame(a: nat)
    requires 0 < a
    ensures Gcd(a, a) == a
  {
    assert Gcd(a, a) == Gcd(0, a);
  }

  lemma GcdOne(a: nat)
    requires 0 < a
    ensures Gcd(a, 1) == 1
  {
    GcdDivides(a, 1);
    var q := Cofactor(Gcd(a, 1), 1);
    AtLeastOne(Gcd(a, 1), q);
  }

  lemma DividesSame(g: int)
    requires 0 < g
    ensures Divides(g, g)
  {
    Multiple(g, 1);
  }

  lemma Negated(d: int, x: int)
    requires 0 < d
    ensures Divides(d, -x) <==> Divides(d, x)
  {
    if Divides(d, x) {
      var q := Cofactor(d, x);
      Multiple(d, -q);
      assert d * (-q) == -(d * q);
    }
    if Divides(d, -x) {
      var q := Cofactor(d, -x);
      Multiple(d, -q);
      assert d * (-q) == -(d * q);
    }
  }

  lemma SameQuotient(w: int, p: int, q: int)
    requires w != 0
    ensures w * p == w * q <==> p == q
  {
    if 0 < w {
      SamePositiveQuotient(w, p, q);
    } else {
      SamePositiveQuotient(-w, p, q);
      assert (-w) * p == -(w * p) && (-w) * q == -(w * q);
    }
  }

  lemma SamePositiveQuotient(w: int, p: int, q: int)
    requires 0 < w
    ensures w * p == w * q <==> p == q
  {
    AtLeastOne(w, p - q);
    AtLeastOne(w, q - p);
    assert w * (p - q) == w * p - w * q && w * (q - p) == w * q - w * p;
  }

  /** The gcd with a divisor is the divisor. */
  lemma GcdOfDivisor(a: nat, b: nat)
    requires 0 < a && 0 < b && Divides(b, a)
    ensures Gcd(a, b) == b && Gcd(b, a) == b
  {
    GcdDivides(a, b);
    GcdDivides(b, a);
    DividesSame(b);
    GcdIsGreatest(b, a, b);
    GcdIsGreatest(b, b, a);
    Antisymmetric(Gcd(a, b), b);
    Antisymmetric(Gcd(b, a), b);
  }

  lemma Antisymmetric(a: nat, b: nat)
    requires 0 < a && 0 < b && Divides(a, b) && Divides(b, a)
    ensures a == b
  {
    Multiple(a, 0);
    Multiple(b, 0);
    MultiplesApart(a, 0, b);
    MultiplesApart(b, 0, a);
  }
}
