/** Arithmetic modulo a polynomial: remainders are canonical representatives,
    so two polynomials are congruent when their remainders are equal. */
module Residues {
  import opened Polynomials
  import opened PolyDivision

  lemma RemSmall(a: Poly, m: Poly)
    requires m != {} && Deg(a) < Deg(m)
    ensures Rem(a, m) == a
  {
    hide Mul, Deg, DivRem;
    MulZero(m);
    DivRemUnique(a, m, {}, a);
  }

  lemma RemAdd(a: Poly, b: Poly, m: Poly)
    requires m != {}
    ensures Rem(Add(a, b), m) == Add(Rem(a, m), Rem(b, m))
  {
    hide Mul, Deg, DivRem;
    var d, e := DivRem(a, m), DivRem(b, m);
    AddMul(d.q, e.q, m);
    DegAdd(d.r, e.r);
    DivRemUnique(Add(a, b), m, Add(d.q, e.q), Add(d.r, e.r));
  }

  lemma RemMultiple(q: Poly, m: Poly)
    requires m != {}
    ensures Rem(Mul(q, m), m) == {}
  {
    hide Mul, Deg, DivRem;
    DegAdd({}, {});
    DivRemUnique(Mul(q, m), m, q, {});
  }

  /** A factor may be reduced before it is multiplied. */
  lemma RemMulRem(a: Poly, b: Poly, m: Poly)
    requires m != {}
    ensures Rem(Mul(Rem(a, m), b), m) == Rem(Mul(a, b), m)
  {
    hide Mul, Deg, DivRem;
    var d := DivRem(a, m);
    AddMul(Mul(d.q, m), d.r, b);
    MulAssoc(d.q, m, b);
    MulComm(m, b);
    MulAssoc(d.q, b, m);
    RemAdd(Mul(Mul(d.q, b), m), Mul(d.r, b), m);
    RemMultiple(Mul(d.q, b), m);
  }

  lemma MulCong(a: Poly, a': Poly, b: Poly, b': Poly, m: Poly)
    requires m != {} && Rem(a, m) == Rem(a', m) && Rem(b, m) == Rem(b', m)
    ensures Rem(Mul(a, b), m) == Rem(Mul(a', b'), m)
  {
    hide Mul, Rem;
    RemMulRem(a, b, m);
    RemMulRem(a', b, m);
    MulComm(a', b);
    MulComm(a', b');
    RemMulRem(b, a', m);
    RemMulRem(b', a', m);
  }

  lemma ShiftCong(a: Poly, b: Poly, k: nat, m: Poly)
    requires m != {} && Rem(a, m) == Rem(b, m)
    ensures Rem(Shift(a, k), m) == Rem(Shift(b, k), m)
  {
    hide Mul, Rem, Shift;
    MonomialMul(k, a);
    MonomialMul(k, b);
    MulCong({k}, {k}, a, b, m);
  }

  lemma RemRem(a: Poly, m: Poly)
    requires m != {}
    ensures Rem(Rem(a, m), m) == Rem(a, m)
  {
    RemSmall(Rem(a, m), m);
  }

  lemma MulSign(k: int, d: int)
    requires 0 < k
    ensures 1 <= d ==> k <= k * d
    ensures d <= -1 ==> k * d <= -k
  {
  }

  lemma ModUnique(e: int, k: int, q: int, r: int)
    requires 0 <= r < k && e == k * q + r
    ensures e % k == r && e / k == q
  {
    MulSign(k, e / k - q);
    assert k * (e / k - q) == r - e % k;
  }

  lemma ModMinus(e: int, k: int)
    requires 0 < k
    ensures (e - k) % k == e % k
  {
    assert e - k == k * (e / k - 1) + e % k;
    ModUnique(e - k, k, e / k - 1, e % k);
  }

  /** If x^k + 1 is a multiple of m then exponents may be taken modulo k. */
  lemma {:induction false} ShiftModPeriod(a: Poly, k: nat, e: nat, m: Poly)
    requires m != {} && 0 < k && Rem(Shift(ONE, k), m) == Rem(ONE, m)
    ensures Rem(Shift(a, e), m) == Rem(Shift(a, e % k), m)
    decreases e
  {
    hide Mul, Rem, Shift;
    if k <= e {
      ShiftModPeriod(a, k, e - k, m);
      ModMinus(e, k);
      OnePeriod(a, k, e, m);
    } else {
      ModUnique(e, k, 0, e);
    }
  }

  lemma OnePeriod(a: Poly, k: nat, e: nat, m: Poly)
    requires m != {} && k <= e && Rem(Shift(ONE, k), m) == Rem(ONE, m)
    ensures Rem(Shift(a, e), m) == Rem(Shift(a, e - k), m)
  {
    hide Mul, Rem, Shift;
    var b := Shift(a, e - k);
    ShiftShift(a, e - k, k);
    MulShift(b, ONE, k);
    MulOne(b);
    MulCong(b, b, Shift(ONE, k), ONE, m);
  }
}
