/** The ring GF(2)[x].  A polynomial is the finite set of the exponents whose
    coefficient is 1, so equal polynomials are equal sets. */
module Polynomials {

  type Poly = set<nat>

  const ZERO: Poly := {}
  const ONE: Poly := {0}

  /** Addition, which is also subtraction: coefficients are added modulo 2. */
  function Add(a: Poly, b: Poly): (r: Poly)
    ensures forall i {:trigger i in r} :: i in r <==> (i in a) != (i in b)
  {
    (a - b) + (b - a)
  }

  /** Degree, -1 for the zero polynomial. */
  function Deg(a: Poly): (d: int)
    ensures a == {} <==> d == -1
    ensures -1 <= d
    ensures a != {} ==> d in a
    ensures forall i :: i in a ==> i <= d
  {
    if a == {} then -1 else
      MaxExists(a);
      var m :| m in a && forall i :: i in a ==> i <= m;
      m
  }

  /** a * x^k. */
  function Shift(a: Poly, k: nat): (r: Poly)
    ensures forall i {:trigger i in r} :: i in r <==> k <= i && i - k in a
  {
    set i | i in a :: i + k
  }

  lemma MaxExists(a: Poly)
    requires a != {}
    ensures exists m :: m in a && forall i :: i in a ==> i <= m
  {
    var x :| x in a;
    if a == {x} {
    } else {
      MaxExists(a - {x});
      var m :| m in a - {x} && forall i :: i in a - {x} ==> i <= m;
      var top := if m < x then x else m;
      forall i | i in a
        ensures i <= top
      {
        assert i == x || i in a - {x};
      }
    }
  }

  /** a mod x^n. */
  function Low(a: Poly, n: nat): (r: Poly)
    ensures forall i {:trigger i in r} :: i in r <==> i in a && i < n
  {
    set i | i in a && i < n
  }

  /** a div x^n. */
  function High(a: Poly, n: nat): (r: Poly)
    ensures forall i: nat {:trigger i in r} :: i in r <==> i + n in a
  {
    set i | i in a && n <= i :: i - n
  }

  /** Schoolbook sum of the rows b * x^i for the exponents i < n of a. */
  function MulRows(a: Poly, b: Poly, n: nat): Poly
  {
    if n == 0 then {}
    else Add(MulRows(a, b, n - 1), if n - 1 in a then Shift(b, n - 1) else {})
  }

  /** The schoolbook product. */
  function Mul(a: Poly, b: Poly): Poly
  {
    MulRows(a, b, Deg(a) + 1)
  }

  // ---------------------------------------------------------------- ring laws

  lemma ShiftShift(a: Poly, k: nat, l: nat)
    ensures Shift(Shift(a, k), l) == Shift(a, k + l)
  {
    hide Shift;
  }

  lemma ShiftAdd(a: Poly, b: Poly, k: nat)
    ensures Shift(Add(a, b), k) == Add(Shift(a, k), Shift(b, k))
  {
    hide Shift, Add;
  }

  lemma {:induction false} MulRowsStable(a: Poly, b: Poly, n: nat)
    requires n >= Deg(a) + 1
    ensures MulRows(a, b, n) == Mul(a, b)
    decreases n
  {
    if n > Deg(a) + 1 {
      MulRowsStable(a, b, n - 1);
      assert n - 1 !in a;
    }
  }

  lemma {:induction false} MulRowsAddLeft(a: Poly, a': Poly, b: Poly, n: nat)
    ensures MulRows(Add(a, a'), b, n) == Add(MulRows(a, b, n), MulRows(a', b, n))
  {
    if n > 0 {
      MulRowsAddLeft(a, a', b, n - 1);
    }
  }

  lemma {:induction false} MulRowsAddRight(a: Poly, b: Poly, b': Poly, n: nat)
    ensures MulRows(a, Add(b, b'), n) == Add(MulRows(a, b, n), MulRows(a, b', n))
  {
    if n > 0 {
      MulRowsAddRight(a, b, b', n - 1);
    }
  }

  lemma {:induction false} MulRowsShift(a: Poly, b: Poly, k: nat, n: nat)
    ensures MulRows(a, Shift(b, k), n) == Shift(MulRows(a, b, n), k)
  {
    hide Mul, Deg, Shift;
    if n > 0 {
      MulRowsShift(a, b, k, n - 1);
    }
  }

  lemma AddMul(a: Poly, a': Poly, b: Poly)
    ensures Mul(Add(a, a'), b) == Add(Mul(a, b), Mul(a', b))
  {
    var n: nat := Deg(a) + Deg(a') + 2;
    MulRowsStable(a, b, n);
    MulRowsStable(a', b, n);
    MulRowsStable(Add(a, a'), b, n);
    MulRowsAddLeft(a, a', b, n);
  }

  lemma MulAdd(a: Poly, b: Poly, b': Poly)
    ensures Mul(a, Add(b, b')) == Add(Mul(a, b), Mul(a, b'))
  {
    MulRowsAddRight(a, b, b', Deg(a) + 1);
  }

  lemma {:induction false} MulRowsMonomial(k: nat, b: Poly, n: nat)
    ensures MulRows({k}, b, n) == if k < n then Shift(b, k) else {}
  {
    if n > 0 {
      MulRowsMonomial(k, b, n - 1);
    }
  }

  lemma MonomialMul(k: nat, b: Poly)
    ensures Mul({k}, b) == Shift(b, k)
  {
    MulRowsMonomial(k, b, Deg({k}) + 1);
  }

  lemma MulShift(a: Poly, b: Poly, k: nat)
    ensures Mul(a, Shift(b, k)) == Shift(Mul(a, b), k)
  {
    MulRowsShift(a, b, k, Deg(a) + 1);
  }

  lemma {:induction false} ShiftMul(a: Poly, b: Poly, k: nat)
    ensures Mul(Shift(a, k), b) == Shift(Mul(a, b), k)
    decreases a
  {
    hide Mul, MulRows, Deg, Shift;
    if a == {} {
      MulZero(b);
      assert Shift(a, k) == {};
    } else {
      var i :| i in a;
      var a' := a - {i};
      assert a == Add(a', {i});
      assert Shift(a, k) == Add(Shift(a', k), {i + k});
      AddMul(a', {i}, b);
      AddMul(Shift(a', k), {i + k}, b);
      ShiftMul(a', b, k);
      MonomialMul(i, b);
      MonomialMul(i + k, b);
      assert Shift(Shift(b, i), k) == Shift(b, i + k);
    }
  }

  lemma {:induction false} MulComm(a: Poly, b: Poly)
    ensures Mul(a, b) == Mul(b, a)
    decreases a
  {
    hide Mul, MulRows, Deg, Shift;
    if a == {} {
      MulZero(b);
    } else {
      var i :| i in a;
      var a' := a - {i};
      assert a == Add(a', {i});
      AddMul(a', {i}, b);
      MulAdd(b, a', {i});
      MulComm(a', b);
      MonomialMul(i, b);
      assert {i} == Shift(ONE, i);
      MulShift(b, ONE, i);
      MulOne(b);
    }
  }

  lemma {:induction false} MulZero(a: Poly)
    ensures Mul(a, {}) == {} == Mul({}, a)
  {
    MulAdd(a, {}, {});
    assert Add({}, {}) == {};
  }

  lemma {:induction false} MulOne(a: Poly)
    ensures Mul(a, ONE) == a == Mul(ONE, a)
    decreases a
  {
    hide Mul, MulRows, Deg, Shift;
    MonomialMul(0, a);
    if a == {} {
      MulZero(ONE);
    } else {
      var i :| i in a;
      var a' := a - {i};
      assert a == Add(a', {i});
      AddMul(a', {i}, ONE);
      MulOne(a');
      MonomialMul(i, ONE);
      assert Shift(ONE, i) == {i};
    }
  }

  lemma {:induction false} MulAssoc(a: Poly, b: Poly, c: Poly)
    ensures Mul(Mul(a, b), c) == Mul(a, Mul(b, c))
    decreases a
  {
    if a == {} {
    } else {
      var i :| i in a;
      var a' := a - {i};
      assert a == Add(a', {i});
      AddMul(a', {i}, b);
      AddMul(a', {i}, Mul(b, c));
      AddMul(Mul(a', b), Mul({i}, b), c);
      MulAssoc(a', b, c);
      MonomialMul(i, b);
      MonomialMul(i, Mul(b, c));
      ShiftMul(b, c, i);
    }
  }

  lemma AddAssoc(a: Poly, b: Poly, c: Poly)
    ensures Add(Add(a, b), c) == Add(a, Add(b, c))
  {
    hide Add;
  }

  /** If bit x of P is the parity of the size of s, bit x of P + Q is that of s with one member more if Q has the bit.
      */
  lemma ParityStep(P: Poly, Q: Poly, x: nat, s: set<nat>, t: set<nat>, e: nat)
    requires x in P <==> |s| % 2 == 1
    requires e !in s && t == if x in Q then s + {e} else s
    ensures x in Add(P, Q) <==> |t| % 2 == 1
  {
    hide Add;
  }

  lemma ParityNone(s: set<nat>)
    requires s == {}
    ensures |s| % 2 == 0
  {
  }

  lemma ParitySum(P: Poly, Q: Poly, x: nat, s: set<nat>, t: set<nat>)
    requires (x in P <==> |s| % 2 == 1) && (x in Q <==> |t| % 2 == 1) && s * t == {}
    ensures x in Add(P, Q) <==> |s + t| % 2 == 1
  {
    hide Add;
    assert |s + t| == |s| + |t|;
  }

  lemma AddNothing(P: Poly)
    ensures Add({}, P) == P == Add(P, {})
  {
    hide Add;
  }

  lemma HighHigh(a: Poly, m: nat, n: nat)
    ensures High(High(a, m), n) == High(a, m + n)
  {
    hide High;
    forall i: nat
      ensures i in High(High(a, m), n) <==> i in High(a, m + n)
    {
      assert i in High(High(a, m), n) <==> i + n in High(a, m);
    }
  }
}
