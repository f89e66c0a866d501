/**
 * Exact cosines and sines.
 *
 * A `Turns` value stands for the function (j, m) -> (cos(2 pi j / m), sin(2 pi j / m)). Nothing is assumed of it
 * beyond the laws every such function has: the addition formulas, the Pythagorean identity, the fact that j/m and
 * 2j/2m are the same fraction of a turn, and that a quarter turn is the imaginary unit.
 */
module Circle {
  import opened Bits
  import opened ComplexNumbers

  type Turns = (nat, nat) -> Complex

  // Each law is named, so that a quantified law is only ever used at a place that mentions its name.

  ghost predicate AddLaw(turn: Turns, i: nat, j: nat, m: nat) {
    turn(i + j, m) == Mul(turn(i, m), turn(j, m))
  }

  ghost predicate UnitLaw(turn: Turns, j: nat, m: nat) {
    Norm2(turn(j, m)) == 1.0
  }

  ghost predicate HalvingLaw(turn: Turns, j: nat, m: nat) {
    turn(2 * j, 2 * m) == turn(j, m)
  }

  ghost predicate IsCircle(turn: Turns) {
    && turn(0, 1) == ONE
    && turn(1, 4) == I
    && (forall i: nat, j: nat, m: nat | m > 0 :: AddLaw(turn, i, j, m))
    && (forall j: nat, m: nat | m > 0 :: UnitLaw(turn, j, m))
    && (forall j: nat, m: nat | m > 0 :: HalvingLaw(turn, j, m))
  }

  lemma TurnAdd(turn: Turns, i: nat, j: nat, m: nat)
    requires IsCircle(turn) && m > 0
    ensures turn(i + j, m) == Mul(turn(i, m), turn(j, m))
  {
    assert AddLaw(turn, i, j, m);
  }

  lemma TurnUnit(turn: Turns, j: nat, m: nat)
    requires IsCircle(turn) && m > 0
    ensures Norm2(turn(j, m)) == 1.0
    ensures Mul(turn(j, m), Conj(turn(j, m))) == ONE
  {
    assert UnitLaw(turn, j, m);
    UnitInverse(turn(j, m));
  }

  lemma TurnZero(turn: Turns, m: nat)
    requires IsCircle(turn) && m > 0
    ensures turn(0, m) == ONE
  {
    var z := turn(0, m);
    TurnAdd(turn, 0, 0, m);
    TurnUnit(turn, 0, m);
    calc {
      z;
      { MulOne(z); }
      Mul(z, ONE);
      Mul(z, Mul(z, Conj(z)));
      { MulAssoc(z, z, Conj(z)); }
      Mul(Mul(z, z), Conj(z));
      ONE;
    }
  }

  /** Enlarging numerator and denominator by the same power of two leaves the angle alone. */
  lemma {:induction false} TurnScale(turn: Turns, j: nat, m: nat, d: nat)
    requires IsCircle(turn) && m > 0
    ensures Shl(m, d) > 0 && turn(Shl(j, d), Shl(m, d)) == turn(j, m)
  {
    if d > 0 {
      TurnScale(turn, j, m, d - 1);
      assert HalvingLaw(turn, Shl(j, d - 1), Shl(m, d - 1));
    }
  }

  lemma TurnHalf(turn: Turns, j: nat, m: nat)
    requires IsCircle(turn) && m > 0
    ensures turn(2 * j, 2 * m) == turn(j, m)
  {
    assert HalvingLaw(turn, j, m);
  }

  lemma BasicTurns(turn: Turns)
    requires IsCircle(turn)
    ensures turn(1, 1) == ONE && turn(1, 2) == Neg(ONE) && turn(1, 4) == I
  {
    TurnAdd(turn, 1, 1, 4);
    TurnHalf(turn, 1, 2);
    TurnAdd(turn, 1, 1, 2);
    TurnHalf(turn, 1, 1);
    assert turn(2, 4) == turn(1, 2) == Mul(I, I);
    assert turn(2, 2) == turn(1, 1) == Mul(Neg(ONE), Neg(ONE));
  }

  /** A full turn, a half turn and a quarter turn of 2^k parts. */
  lemma TurnParts(turn: Turns, k: nat)
    requires IsCircle(turn)
    ensures turn(Pow2(k), Pow2(k)) == ONE
    ensures k >= 1 ==> turn(Pow2(k - 1), Pow2(k)) == Neg(ONE)
    ensures k >= 2 ==> turn(Pow2(k - 2), Pow2(k)) == I
  {
    BasicTurns(turn);
    TurnScale(turn, 1, 1, k);
    ShlPow2(0, k);
    if k >= 1 {
      TurnScale(turn, 1, 2, k - 1);
      ShlPow2(0, k - 1);
      ShlPow2(1, k - 1);
    }
    if k >= 2 {
      TurnScale(turn, 1, 4, k - 2);
      ShlPow2(0, k - 2);
      ShlPow2(2, k - 2);
      assert Pow2(2) == 4;
    }
  }

  /** The r-th power of a complex number. */
  function Power(z: Complex, r: nat): Complex {
    if r == 0 then ONE else Mul(Power(z, r - 1), z)
  }

  lemma {:induction false} PowerAdd(z: Complex, r: nat, t: nat)
    ensures Power(z, r + t) == Mul(Power(z, r), Power(z, t))
  {
    hide Mul;
    if t == 0 {
      MulOne(Power(z, r));
    } else {
      PowerAdd(z, r, t - 1);
      MulAssoc(Power(z, r), Power(z, t - 1), z);
      assert Power(z, r + t) == Mul(Power(z, r + t - 1), z);
    }
  }

  lemma PowerTwice(z: Complex, r: nat)
    ensures Power(z, 2 * r) == Power(Mul(z, z), r)
    decreases r
  {
    hide Mul;
    if r > 0 {
      PowerTwice(z, r - 1);
      var p := Power(z, 2 * (r - 1));
      assert Power(z, 2 * r) == Mul(Mul(p, z), z);
      MulAssoc(p, z, z);
    }
  }

  lemma {:induction false} PowerOfOne(r: nat)
    ensures Power(ONE, r) == ONE
  {
    hide Mul;
    if r > 0 {
      PowerOfOne(r - 1);
      MulOne(ONE);
    }
  }

  /** De Moivre: the power of a rotation is the rotation by the multiple. */
  lemma {:induction false} PowerOfTurn(turn: Turns, j: nat, m: nat, r: nat)
    requires IsCircle(turn) && m > 0
    ensures Power(turn(j, m), r) == turn(r * j, m)
  {
    if r == 0 {
      TurnZero(turn, m);
    } else {
      PowerOfTurn(turn, j, m, r - 1);
      assert r * j == (r - 1) * j + j;
      TurnAdd(turn, (r - 1) * j, j, m);
    }
  }
}
