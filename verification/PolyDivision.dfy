/** Degrees, exact division and greatest common divisors in GF(2)[x]. */
module PolyDivision {
  import opened Polynomials

  // ---------------------------------------------------------------- degrees

  lemma DegIs(a: Poly, d: nat)
    requires d in a && forall i :: i in a ==> i <= d
    ensures Deg(a) == d
  {
  }

  lemma DegShift(a: Poly, k: nat)
    ensures a != {} ==> Deg(Shift(a, k)) == Deg(a) + k
    ensures a == {} ==> Shift(a, k) == {}
  {
    hide Deg, Shift;
    if a != {} {
      var s, d: nat := Shift(a, k), Deg(a) + k;
      assert d - k in a && d in s;
      forall i | i in s
        ensures i <= d
      {
        assert i - k in a;
      }
      DegIs(s, d);
    }
  }

  lemma DegAdd(a: Poly, b: Poly)
    ensures Deg(Add(a, b)) <= (if Deg(a) <= Deg(b) then Deg(b) else Deg(a))
    ensures Deg(a) < Deg(b) ==> Deg(Add(a, b)) == Deg(b) == Deg(Add(b, a))
  {
    hide Deg;
    if Deg(a) < Deg(b) {
      DegIs(Add(a, b), Deg(b));
      assert Add(a, b) == Add(b, a);
    }
  }

  /** The leading terms of two polynomials of the same degree cancel. */
  lemma DegAddCancel(a: Poly, b: Poly)
    requires a != {} && Deg(a) == Deg(b)
    ensures Deg(Add(a, b)) < Deg(a)
  {
    hide Deg;
    DegAdd(a, b);
    assert Deg(a) !in Add(a, b);
  }

  lemma SplitAt(a: Poly, n: nat)
    ensures a == Add(Shift(High(a, n), n), Low(a, n))
    ensures n <= Deg(a) ==> Deg(High(a, n)) == Deg(a) - n
    ensures Deg(a) < n ==> High(a, n) == {}
    ensures Deg(Low(a, n)) < n || n == 0
  {
    hide Deg, Shift, High;
    var h := High(a, n);
    forall i: nat
      ensures i in a <==> i in Add(Shift(h, n), Low(a, n))
    {
      if n <= i {
        assert i - n in h <==> i in a;
      }
    }
    if n <= Deg(a) {
      forall i | i in h
        ensures i <= Deg(a) - n
      {
        assert i + n in a;
      }
      DegIs(h, Deg(a) - n);
    } else {
      forall i: nat
        ensures i !in h
      {
        assert i + n !in a;
      }
    }
  }

  lemma {:induction false} DegMulRows(a: Poly, b: Poly, n: nat)
    requires b != {}
    ensures Deg(MulRows(a, b, n)) < n + Deg(b)
  {
    hide Deg, Shift;
    if n > 0 {
      DegMulRows(a, b, n - 1);
      var row := if n - 1 in a then Shift(b, n - 1) else {};
      DegShift(b, n - 1);
      DegAdd(MulRows(a, b, n - 1), row);
    }
  }

  /** GF(2)[x] has no zero divisors: degrees add up. */
  lemma DegMul(a: Poly, b: Poly)
    ensures a != {} && b != {} ==> Mul(a, b) != {} && Deg(Mul(a, b)) == Deg(a) + Deg(b)
    ensures a == {} || b == {} ==> Mul(a, b) == {}
  {
    hide Deg, Shift;
    if a == {} || b == {} {
      hide Mul;
      MulZero(a);
      MulZero(b);
    } else {
      var top := Shift(b, Deg(a));
      assert Mul(a, b) == Add(MulRows(a, b, Deg(a)), top);
      DegMulRows(a, b, Deg(a));
      DegShift(b, Deg(a));
      DegAdd(MulRows(a, b, Deg(a)), top);
    }
  }

  // ---------------------------------------------------------------- division

  datatype QuoRem = QuoRem(q: Poly, r: Poly)

  /** Division with remainder, the contract of NTL's DivRem. */
  function DivRem(a: Poly, b: Poly): (d: QuoRem)
    requires b != {}
    ensures a == Add(Mul(d.q, b), d.r)
    ensures Deg(d.r) < Deg(b)
    ensures Deg(b) <= Deg(a) ==> d.q != {} && Deg(d.q) == Deg(a) - Deg(b)
    decreases Deg(a)
  {
    hide Mul, Deg, Shift;
    if Deg(a) < Deg(b) then
      MulZero(b);
      QuoRem({}, a)
    else
      var s: nat := Deg(a) - Deg(b);
      var a' := Add(a, Shift(b, s));
      DegShift(b, s);
      DegAddCancel(a, Shift(b, s));
      var d := DivRem(a', b);
      DivStep(a, b, s, d);
      QuoRem(Add(d.q, {s}), d.r)
  }

  lemma DivStep(a: Poly, b: Poly, s: nat, d: QuoRem)
    requires b != {} && a != {} && s == Deg(a) - Deg(b)
    requires Add(a, Shift(b, s)) == Add(Mul(d.q, b), d.r)
    requires Deg(b) <= Deg(Add(a, Shift(b, s))) ==> Deg(d.q) == Deg(Add(a, Shift(b, s))) - Deg(b)
    requires Deg(Add(a, Shift(b, s))) < Deg(a)
    requires Deg(d.r) < Deg(b)
    ensures a == Add(Mul(Add(d.q, {s}), b), d.r)
    ensures Add(d.q, {s}) != {} && Deg(Add(d.q, {s})) == s
  {
    hide Mul, Deg, Shift;
    AddMul(d.q, {s}, b);
    MonomialMul(s, b);
    if Deg(Add(a, Shift(b, s))) < Deg(b) {
      DegMul(d.q, b);
      DegAdd(Add(Mul(d.q, b), d.r), d.r);
      assert Add(Add(Mul(d.q, b), d.r), d.r) == Mul(d.q, b);
      assert d.q == {};
    }
    DegIs({s}, s);
    DegAdd(d.q, {s});
  }

  function Rem(a: Poly, b: Poly): (r: Poly)
    requires b != {}
    ensures Deg(r) < Deg(b)
  {
    DivRem(a, b).r
  }

  /** Quotient and remainder are determined by the division equation. */
  lemma DivRemUnique(a: Poly, b: Poly, q: Poly, r: Poly)
    requires b != {} && a == Add(Mul(q, b), r) && Deg(r) < Deg(b)
    ensures DivRem(a, b) == QuoRem(q, r)
  {
    hide Mul, Deg, DivRem;
    var d := DivRem(a, b);
    AddMul(q, d.q, b);
    assert Mul(Add(q, d.q), b) == Add(r, d.r) by {
      assert Add(Mul(q, b), r) == Add(Mul(d.q, b), d.r);
      forall i: nat
        ensures i in Add(Mul(q, b), Mul(d.q, b)) <==> i in Add(r, d.r)
      {
        assert i in Add(Mul(q, b), r) <==> i in Add(Mul(d.q, b), d.r);
      }
    }
    DegAdd(r, d.r);
    DegMul(Add(q, d.q), b);
    assert Add(q, d.q) == {} && Add(r, d.r) == {};
    AddIsZero(q, d.q);
    AddIsZero(r, d.r);
  }

  lemma AddIsZero(a: Poly, b: Poly)
    requires Add(a, b) == {}
    ensures a == b
  {
    forall i: nat
      ensures i in a <==> i in b
    {
      assert i !in Add(a, b);
    }
  }

  // ---------------------------------------------------------------- divisors

  ghost predicate Divides(d: Poly, a: Poly) {
    exists q :: Mul(q, d) == a
  }

  lemma DividesAdd(d: Poly, a: Poly, b: Poly)
    requires Divides(d, a) && Divides(d, b)
    ensures Divides(d, Add(a, b))
  {
    hide Mul;
    var p :| Mul(p, d) == a;
    var q :| Mul(q, d) == b;
    AddMul(p, q, d);
  }

  lemma DividesMul(d: Poly, a: Poly, c: Poly)
    requires Divides(d, a)
    ensures Divides(d, Mul(c, a))
  {
    hide Mul;
    var p :| Mul(p, d) == a;
    MulAssoc(c, p, d);
  }

  lemma DividesZero(d: Poly)
    ensures Divides(d, {})
  {
    hide Mul;
    MulZero(d);
    assert Mul({}, d) == {};
  }

  lemma DividesSelf(d: Poly)
    ensures Divides(d, d)
  {
    hide Mul;
    MulOne(d);
  }

  /** Polynomials over GF(2) that divide each other are equal. */
  lemma DividesAntisymmetric(a: Poly, b: Poly)
    requires Divides(a, b) && Divides(b, a)
    ensures a == b
  {
    hide Mul, Deg;
    var p :| Mul(p, a) == b;
    var q :| Mul(q, b) == a;
    DegMul(p, a);
    DegMul(q, b);
    if a != {} {
      assert Deg(p) == 0;
      assert p == ONE by {
        assert p == {0};
      }
      MulOne(a);
    }
  }

  ghost predicate IsGcd(g: Poly, a: Poly, b: Poly) {
    && Divides(g, a)
    && Divides(g, b)
    && forall d :: Divides(d, a) && Divides(d, b) ==> Divides(d, g)
  }

  lemma GcdUnique(g: Poly, h: Poly, a: Poly, b: Poly)
    requires IsGcd(g, a, b) && IsGcd(h, a, b)
    ensures g == h
  {
    hide Divides;
    DividesAntisymmetric(g, h);
  }

  /** Euclid's algorithm, the contract of NTL's GCD. */
  function Gcd(a: Poly, b: Poly): (g: Poly)
    ensures IsGcd(g, a, b)
    decreases Deg(b)
  {
    hide Divides, Mul, Rem, Deg;
    if b == {} then
      DividesSelf(a);
      DividesZero(a);
      a
    else
      var g := Gcd(b, Rem(a, b));
      GcdStep(a, b, g);
      g
  }

  lemma GcdStep(a: Poly, b: Poly, g: Poly)
    requires b != {} && IsGcd(g, b, Rem(a, b))
    ensures IsGcd(g, a, b)
  {
    hide Divides, Mul, DivRem;
    var q, r := DivRem(a, b).q, Rem(a, b);
    DividesMul(g, b, q);
    DividesAdd(g, Mul(q, b), r);
    forall d | Divides(d, a) && Divides(d, b)
      ensures Divides(d, g)
    {
      DividesMul(d, b, q);
      DividesAdd(d, a, Mul(q, b));
      assert Add(a, Mul(q, b)) == r;
    }
  }
}
