/** The greatest common divisor, by the loop of blocker.cc, and what the blocker's delay needs to know of it. */
module GreatestCommonDivisor {

  ghost function Gcd(a: nat, b: nat): nat
    decreases b
  {
    if b == 0 then a else Gcd(b, a % b)
  }

  /** gcd. */
  method ComputeGcd(x: nat, y: nat) returns (a: nat)
    ensures a == Gcd(x, y)
  {
    a := x;
    var b := y;
    while b != 0
      invariant Gcd(a, b) == Gcd(x, y)
      decreases b
    {
      var tmp := a;
      a := b;
      b := tmp % b;
    }
  }

  ghost predicate Divides(g: int, x: int) {
    exists q: int :: Times(q, g) == x
  }

  function Times(q: int, g: int): int {
    q * g
  }

  lemma DividesCombination(g: int, x: int, y: int, u: int, v: int)
    requires Divides(g, x) && Divides(g, y)
    ensures Divides(g, u * x + v * y)
  {
    var q :| Times(q, g) == x;
    var r :| Times(r, g) == y;
    Combine(g, q, r, u, v);
    assert Times(u * q + v * r, g) == u * x + v * y;
  }

  lemma Combine(g: int, q: int, r: int, u: int, v: int)
    ensures (u * q + v * r) * g == u * (q * g) + v * (r * g)
  {
  }

  lemma DividesSum(g: int, x: int, y: int)
    requires Divides(g, x) && Divides(g, y)
    ensures Divides(g, x + y) && Divides(g, x - y)
  {
    DividesCombination(g, x, y, 1, 1);
    DividesCombination(g, x, y, 1, -1);
  }

  lemma DividesSelf(g: int)
    ensures Divides(g, g) && Divides(g, 0)
  {
    assert Times(1, g) == g && Times(0, g) == 0;
  }

  /** A positive multiple of a positive number is at least that number. */
  lemma DividesAtLeast(g: nat, x: int)
    requires g > 0 && x > 0 && Divides(g, x)
    ensures x >= g
  {
    var q :| Times(q, g) == x;
    PositiveFactor(q, g);
  }

  lemma PositiveFactor(q: int, g: nat)
    requires q * g > 0
    ensures q >= 1 && q * g >= g
  {
    if q <= 0 {
      NonPositive(-q, g);
      assert false;
    }
  }

  lemma NonPositive(s: nat, g: nat)
    ensures (-(s as int)) * g <= 0
  {
  }

  /** The greatest common divisor divides both numbers and is a combination of them. */
  lemma {:induction false} GcdFacts(a: nat, b: nat) returns (u: int, v: int)
    requires a > 0 || b > 0
    ensures Gcd(a, b) > 0 && Divides(Gcd(a, b), a) && Divides(Gcd(a, b), b)
    ensures u * a + v * b == Gcd(a, b)
    decreases b
  {
    hide Divides;
    if b == 0 {
      DividesSelf(a);
      u, v := 1, 0;
    } else {
      var q, r := a / b, a % b;
      var u', v' := GcdFacts(b, r);
      var g := Gcd(b, r);
      DividesCombination(g, b, r, q, 1);
      Division(a, b);
      u, v := v', u' - v' * q;
      Unroll(u', v', q, b, r);
    }
  }

  lemma Division(a: nat, b: nat)
    requires b > 0
    ensures (a / b) * b + 1 * (a % b) == a
  {
  }

  lemma Unroll(u: int, v: int, q: int, b: int, r: int)
    ensures v * (q * b + r) + (u - v * q) * b == u * b + v * r
  {
  }

  lemma GcdDivides(a: nat, b: nat)
    requires a > 0 || b > 0
    ensures Gcd(a, b) > 0 && Divides(Gcd(a, b), a) && Divides(Gcd(a, b), b)
  {
    var _, _ := GcdFacts(a, b);
  }

  /** Some multiple of b falls short of a multiple of a by exactly the greatest common divisor. */
  lemma ShortMultiple(a: nat, b: nat) returns (k: nat, m: nat)
    requires a > 0 && b > 0
    ensures m >= 1 && k * b == m * a - Gcd(a, b)
  {
    var u, v := GcdFacts(a, b);
    var t: nat := (if u < 0 then -u else u) + (if v < 0 then -v else v) + 1;
    // -v + t a times b, and u + t b times a
    AtLeastItself(t, a);
    AtLeastItself(t, b);
    k, m := t * a - v, t * b + u;
    Shift(u, v, t, a, b);
  }

  lemma AtLeastItself(t: nat, a: nat)
    requires a > 0
    ensures t * a >= t
  {
  }

  lemma Shift(u: int, v: int, t: int, a: int, b: int)
    ensures (t * a - v) * b == (t * b + u) * a - (u * a + v * b)
  {
  }
}
