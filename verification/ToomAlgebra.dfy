/** The algebra of Toom-Cook multiplication over GF(2)[x]: operands cut into parts are
    polynomials in a second variable, their product is recovered from its values at
    chosen points by exact divisions. */
module ToomAlgebra {
  import opened Polynomials
  import opened WordMemory

  /** Parts p[0], p[1], ... as coefficients, evaluated at z. */
  function Eval(p: seq<Poly>, z: Poly): Poly {
    if p == [] then ZERO else Add(p[0], Mul(z, Eval(p[1..], z)))
  }

  function Scale(a: Poly, q: seq<Poly>): (r: seq<Poly>)
    ensures |r| == |q| && forall i {:trigger r[i]} :: 0 <= i < |q| ==> r[i] == Mul(a, q[i])
  {
    seq(|q|, i requires 0 <= i < |q| => Mul(a, q[i]))
  }

  function AddParts(p: seq<Poly>, q: seq<Poly>): seq<Poly> {
    if p == [] then q
    else if q == [] then p
    else [Add(p[0], q[0])] + AddParts(p[1..], q[1..])
  }

  /** The coefficients of the product of two polynomials with coefficients p and q. */
  function Conv(p: seq<Poly>, q: seq<Poly>): seq<Poly> {
    if p == [] then []
    else if |p| == 1 then Scale(p[0], q)
    else AddParts(Scale(p[0], q), [ZERO] + Conv(p[1..], q))
  }

  lemma {:induction false} EvalScale(a: Poly, q: seq<Poly>, z: Poly)
    ensures Eval(Scale(a, q), z) == Mul(a, Eval(q, z))
    decreases |q|
  {
    hide Mul, Add;
    var s := Scale(a, q);
    if q == [] {
      MulZero(a);
    } else {
      EvalScale(a, q[1..], z);
      assert s[1..] == Scale(a, q[1..]);
      var e := Eval(q[1..], z);
      MulAdd(a, q[0], Mul(z, e));
      MulAssoc(a, z, e);
      MulComm(a, z);
      MulAssoc(z, a, e);
    }
  }

  lemma {:induction false} EvalAdd(p: seq<Poly>, q: seq<Poly>, z: Poly)
    ensures Eval(AddParts(p, q), z) == Add(Eval(p, z), Eval(q, z))
    decreases |p|
  {
    hide Mul, Add;
    if p == [] {
      AddNothing(Eval(q, z));
    } else if q == [] {
      AddNothing(Eval(p, z));
    } else {
      var s := AddParts(p, q);
      assert s[1..] == AddParts(p[1..], q[1..]);
      EvalAdd(p[1..], q[1..], z);
      MulAdd(z, Eval(p[1..], z), Eval(q[1..], z));
      RegroupSum(p[0], q[0], Mul(z, Eval(p[1..], z)), Mul(z, Eval(q[1..], z)));
    }
  }

  lemma RegroupSum(P: Poly, Q: Poly, R: Poly, S: Poly)
    ensures Add(Add(P, Q), Add(R, S)) == Add(Add(P, R), Add(Q, S))
  {
    hide Add;
  }

  /** Evaluation turns the product of parts into the product of values, at every point. */
  lemma {:induction false} EvalConv(p: seq<Poly>, q: seq<Poly>, z: Poly)
    requires p != []
    ensures Eval(Conv(p, q), z) == Mul(Eval(p, z), Eval(q, z))
    decreases |p|
  {
    hide Mul, Add, Scale, AddParts;
    var e := Eval(q, z);
    EvalScale(p[0], q, z);
    if |p| == 1 {
      assert p[1..] == [];
      MulZero(z);
      AddNothing(p[0]);
      assert Eval(p, z) == p[0];
    } else {
      EvalConv(p[1..], q, z);
      var rest := Conv(p[1..], q);
      var shifted := [ZERO] + rest;
      EvalAdd(Scale(p[0], q), shifted, z);
      assert shifted[1..] == rest;
      AddNothing(Mul(z, Eval(rest, z)));
      AddMul(p[0], Mul(z, Eval(p[1..], z)), e);
      MulAssoc(z, Eval(p[1..], z), e);
    }
  }

  // ---------------------------------------------------------------- shape of the product

  lemma {:induction false} AddPartsLength(p: seq<Poly>, q: seq<Poly>)
    ensures |AddParts(p, q)| == if |p| < |q| then |q| else |p|
    ensures forall i {:trigger AddParts(p, q)[i]} :: 0 <= i < |AddParts(p, q)|
              ==> AddParts(p, q)[i] == Add(if i < |p| then p[i] else ZERO, if i < |q| then q[i] else ZERO)
    decreases |p|
  {
    hide Add;
    if p == [] {
      forall i | 0 <= i < |q|
        ensures q[i] == Add(ZERO, q[i])
      {
        AddNothing(q[i]);
      }
    } else if q == [] {
      forall i | 0 <= i < |p|
        ensures p[i] == Add(p[i], ZERO)
      {
        AddNothing(p[i]);
      }
    } else {
      AddPartsLength(p[1..], q[1..]);
    }
  }

  /** First and last coefficient of the product; no coefficient needs more than m + n words. */
  lemma {:induction false} ConvShape(p: seq<Poly>, q: seq<Poly>, m: nat, n: nat)
    requires p != [] && q != []
    requires (forall i :: 0 <= i < |p| ==> Fits(p[i], m)) && forall i :: 0 <= i < |q| ==> Fits(q[i], n)
    ensures var c := Conv(p, q);
      && |c| == |p| + |q| - 1
      && c[0] == Mul(p[0], q[0]) && c[|c| - 1] == Mul(p[|p| - 1], q[|q| - 1])
      && forall i :: 0 <= i < |c| ==> Fits(c[i], m + n)
    decreases |p|
  {
    hide Mul, Add, Fits;
    var c := Conv(p, q);
    var s := Scale(p[0], q);
    forall i | 0 <= i < |q|
      ensures Fits(s[i], m + n)
    {
      FitsMul(p[0], q[i], m, n);
    }
    if |p| > 1 {
      ConvShape(p[1..], q, m, n);
      var rest := [ZERO] + Conv(p[1..], q);
      AddPartsLength(s, rest);
      AddNothing(s[0]);
      AddNothing(rest[|rest| - 1]);
      FitsZero(m + n);
      forall i | 0 <= i < |c|
        ensures Fits(c[i], m + n)
      {
        FitsAdd(if i < |s| then s[i] else ZERO, if i < |rest| then rest[i] else ZERO, m + n);
      }
    }
  }

  lemma FitsZero(n: nat)
    ensures Fits(ZERO, n)
  {
  }

  // ---------------------------------------------------------------- three parts, five points

  /** (1 + x^e) P. */
  function Twice(P: Poly, e: nat): Poly {
    Add(P, Shift(P, e))
  }

  lemma TwiceMul(P: Poly, e: nat)
    requires 0 < e
    ensures Mul({0, e}, P) == Twice(P, e)
  {
    hide Mul, Shift;
    assert {0, e} == Add({0}, {e});
    AddMul({0}, {e}, P);
    MonomialMul(0, P);
    MonomialMul(e, P);
    assert Shift(P, 0) == P;
  }

  lemma EvalFive(c0: Poly, c1: Poly, c2: Poly, c3: Poly, c4: Poly, z: Poly)
    ensures Eval([c0, c1, c2, c3, c4], z)
         == Add(c0, Mul(z, Add(c1, Mul(z, Add(c2, Mul(z, Add(c3, Mul(z, c4))))))))
  {
    hide Mul, Add;
    EvalOne(c4, z);
    assert [c0, c1, c2, c3, c4][1..] == [c1, c2, c3, c4];
    assert Eval([c3, c4], z) == Add(c3, Mul(z, Eval([c4], z))) by { assert [c3, c4][1..] == [c4]; }
    assert Eval([c2, c3, c4], z) == Add(c2, Mul(z, Eval([c3, c4], z))) by { assert [c2, c3, c4][1..] == [c3, c4]; }
    assert Eval([c1, c2, c3, c4], z) == Add(c1, Mul(z, Eval([c2, c3, c4], z))) by {
      assert [c1, c2, c3, c4][1..] == [c2, c3, c4];
    }
  }

  lemma EvalOne(c: Poly, z: Poly)
    ensures Eval([c], z) == c
  {
    hide Mul, Add;
    assert [c][1..] == [];
    MulZero(z);
    AddNothing(c);
  }

  /** The value at 1. */
  lemma AtOne(c0: Poly, c1: Poly, c2: Poly, c3: Poly, c4: Poly)
    ensures Eval([c0, c1, c2, c3, c4], ONE) == Add(c0, Add(c1, Add(c2, Add(c3, c4))))
  {
    hide Mul, Add;
    EvalFive(c0, c1, c2, c3, c4, ONE);
    MulOne(c4);
    MulOne(Add(c3, c4));
    MulOne(Add(c2, Add(c3, c4)));
    MulOne(Add(c1, Add(c2, Add(c3, c4))));
  }

  /** The value at x^e. */
  lemma AtPower(c0: Poly, c1: Poly, c2: Poly, c3: Poly, c4: Poly, e: nat)
    ensures Eval([c0, c1, c2, c3, c4], {e})
         == Add(c0, Shift(Add(c1, Add(Shift(c2, e), Add(Shift(c3, 2 * e), Shift(c4, 3 * e)))), e))
  {
    hide Mul, Add, Shift;
    EvalFive(c0, c1, c2, c3, c4, {e});
    var d3 := Add(c3, Shift(c4, e));
    var d2 := Add(c2, Shift(d3, e));
    var d1 := Add(c1, Shift(d2, e));
    MonomialMul(e, c4);
    MonomialMul(e, d3);
    MonomialMul(e, d2);
    MonomialMul(e, d1);
    ShiftAdd(c3, Shift(c4, e), e);
    ShiftShift(c4, e, e);
    ShiftAdd(c2, Add(Shift(c3, e), Shift(c4, 2 * e)), e);
    ShiftAdd(Shift(c3, e), Shift(c4, 2 * e), e);
    ShiftShift(c3, e, e);
    ShiftShift(c4, 2 * e, e);
  }

  /** The value at 1 + x^e: the cube of 1 + x^e is 1 + x^e + x^2e + x^3e, its fourth power 1 + x^4e. */
  lemma AtSum(c0: Poly, c1: Poly, c2: Poly, c3: Poly, c4: Poly, e: nat)
    requires 0 < e
    ensures Eval([c0, c1, c2, c3, c4], {0, e})
         == Add(c0, Add(Add(c1, Shift(c1, e)), Add(Add(c2, Shift(c2, 2 * e)),
              Add(Add(Add(c3, Shift(c3, e)), Add(Shift(c3, 2 * e), Shift(c3, 3 * e))), Add(c4, Shift(c4, 4 * e))))))
  {
    hide Mul, Add, Shift, Twice;
    EvalFive(c0, c1, c2, c3, c4, {0, e});
    var d3 := Add(c3, Twice(c4, e));
    var d2 := Add(c2, Twice(d3, e));
    var d1 := Add(c1, Twice(d2, e));
    TwiceMul(c4, e);
    TwiceMul(d3, e);
    TwiceMul(d2, e);
    TwiceMul(d1, e);
    TwiceAdd(c3, Twice(c4, e), e);
    TwiceAdd(c2, Add(Twice(c3, e), Twice(Twice(c4, e), e)), e);
    TwiceAdd(Twice(c3, e), Twice(Twice(c4, e), e), e);
    TwiceAdd(c1, Add(Twice(c2, e), Add(Twice(Twice(c3, e), e), Twice(Twice(Twice(c4, e), e), e))), e);
    TwiceAdd(Twice(c2, e), Add(Twice(Twice(c3, e), e), Twice(Twice(Twice(c4, e), e), e)), e);
    TwiceAdd(Twice(Twice(c3, e), e), Twice(Twice(Twice(c4, e), e), e), e);
    TwicePowers(c1, e);
    TwicePowers(c2, e);
    TwicePowers(c3, e);
    TwicePowers(c4, e);
  }

  lemma TwiceAdd(P: Poly, Q: Poly, e: nat)
    ensures Twice(Add(P, Q), e) == Add(Twice(P, e), Twice(Q, e))
  {
    hide Add, Shift;
    ShiftAdd(P, Q, e);
    RegroupSum(P, Q, Shift(P, e), Shift(Q, e));
  }

  lemma TwicePowers(P: Poly, e: nat)
    ensures Twice(P, e) == Add(P, Shift(P, e))
    ensures Twice(Twice(P, e), e) == Add(P, Shift(P, 2 * e))
    ensures Twice(Twice(Twice(P, e), e), e) == Add(Add(P, Shift(P, e)), Add(Shift(P, 2 * e), Shift(P, 3 * e)))
    ensures Twice(Twice(Twice(Twice(P, e), e), e), e) == Add(P, Shift(P, 4 * e))
  {
    hide Add, Shift, Twice;
    TwiceTwice(P, e);
    TwiceTwice(Twice(P, e), e);
    TwiceTwice(Twice(Twice(P, e), e), e);
    TwiceShift(P, e, 2 * e);
    TwiceIs(P, e);
    TwiceIs(P, 2 * e);
    ShiftAdd(P, Shift(P, e), 2 * e);
    ShiftShift(P, e, 2 * e);
    TwiceIs(Twice(P, e), 2 * e);
    TwiceIs(Twice(Twice(P, e), e), 2 * e);
    ShiftAdd(P, Shift(P, 2 * e), 2 * e);
    ShiftShift(P, 2 * e, 2 * e);
    CancelMiddle(P, Shift(P, 2 * e), Shift(P, 4 * e));
  }

  lemma CancelMiddle(P: Poly, Q: Poly, R: Poly)
    ensures Add(Add(P, Q), Add(Q, R)) == Add(P, R)
  {
    hide Add;
  }

  lemma TwiceIs(P: Poly, e: nat)
    ensures Twice(P, e) == Add(P, Shift(P, e))
  {
  }

  lemma TwiceTwice(P: Poly, e: nat)
    ensures Twice(Twice(P, e), e) == Twice(P, 2 * e)
  {
    hide Add, Shift;
    ShiftAdd(P, Shift(P, e), e);
    ShiftShift(P, e, e);
    CancelMiddle(P, Shift(P, e), Shift(P, 2 * e));
  }

  lemma TwiceShift(P: Poly, e: nat, k: nat)
    ensures Twice(Shift(P, k), e) == Shift(Twice(P, e), k)
  {
    hide Add, Shift;
    ShiftAdd(P, Shift(P, e), k);
    ShiftShift(P, e, k);
    ShiftShift(P, k, e);
  }

  /** Interpolation from the values at 0, 1, x^e, 1 + x^e and infinity.  The three
      divisions (by x^e, 1 + x^e and x^e + x^2e) are exact. */
  lemma Interpolation(c0: Poly, c1: Poly, c2: Poly, c3: Poly, c4: Poly, e: nat)
    requires 0 < e
    ensures var C := [c0, c1, c2, c3, c4];
      var (P1, P2, P3) := (Eval(C, ONE), Eval(C, {e}), Eval(C, {0, e}));
      var (U, V) := (Add(P3, P2), Add(P1, c0));
      && Add(P2, c0) == Shift(High(Add(P2, c0), e), e)
      && Add(Add(Add(High(Add(P2, c0), e), U), c4), Shift(c4, 3 * e)) == Twice(Add(c2, c3), e)
      && Add(U, V) == Shift(Twice(c3, e), e)
      && Add(V, Add(Add(c2, c3), c4)) == c1
      && Add(Add(c2, c3), c3) == c2
  {
    hide Mul, Add, Shift, High, Twice, Eval;
    AtOne(c0, c1, c2, c3, c4);
    AtPower(c0, c1, c2, c3, c4, e);
    AtSum(c0, c1, c2, c3, c4, e);
    var D := Add(c1, Add(Shift(c2, e), Add(Shift(c3, 2 * e), Shift(c4, 3 * e))));
    AddBack(c0, Shift(D, e));
    HighShift(D, e);
    ShiftFour(c1, c2, c3, c4, e);
    TwiceIs(Add(c2, c3), e);
    ShiftAdd(c2, c3, e);
    TwiceIs(c3, e);
    ShiftAdd(c3, Shift(c3, e), e);
    ShiftShift(c3, e, e);
    FiveAtoms(c0, c1, Shift(c1, e), c2, Shift(c2, e), Shift(c2, 2 * e), c3, Shift(c3, e), Shift(c3, 2 * e),
      Shift(c3, 3 * e), c4, Shift(c4, 3 * e), Shift(c4, 4 * e));
  }

  lemma AddBack(P: Poly, Q: Poly)
    ensures Add(Add(P, Q), P) == Q
  {
    hide Add;
  }

  lemma HighShift(P: Poly, e: nat)
    ensures High(Shift(P, e), e) == P
  {
    hide High, Shift;
    var s := Shift(P, e);
    forall i: nat
      ensures i in High(s, e) <==> i in P
    {
      assert i + e in s <==> i in P;
    }
  }

  lemma ShiftFour(c1: Poly, c2: Poly, c3: Poly, c4: Poly, e: nat)
    ensures Shift(Add(c1, Add(Shift(c2, e), Add(Shift(c3, 2 * e), Shift(c4, 3 * e)))), e)
         == Add(Shift(c1, e), Add(Shift(c2, 2 * e), Add(Shift(c3, 3 * e), Shift(c4, 4 * e))))
  {
    hide Add, Shift;
    assert Shift(Shift(c2, e), e) == Shift(c2, 2 * e) by { ShiftShift(c2, e, e); }
    assert Shift(Shift(c3, 2 * e), e) == Shift(c3, 3 * e) by { ShiftShift(c3, 2 * e, e); }
    assert Shift(Shift(c4, 3 * e), e) == Shift(c4, 4 * e) by { ShiftShift(c4, 3 * e, e); }
    ShiftAddFour(c1, Shift(c2, e), Shift(c3, 2 * e), Shift(c4, 3 * e), e);
  }

  lemma ShiftAddFour(P: Poly, Q: Poly, R: Poly, S: Poly, e: nat)
    ensures Shift(Add(P, Add(Q, Add(R, S))), e) == Add(Shift(P, e), Add(Shift(Q, e), Add(Shift(R, e), Shift(S, e))))
  {
    hide Add, Shift;
    ShiftAdd(P, Add(Q, Add(R, S)), e);
    ShiftAdd(Q, Add(R, S), e);
    ShiftAdd(R, S, e);
  }

  /** The interpolation identities over the multiples that occur in the values. */
  lemma FiveAtoms(c0: Poly, c1: Poly, c1e: Poly, c2: Poly, c2e: Poly, c22e: Poly, c3: Poly, c3e: Poly, c32e: Poly,
                  c33e: Poly, c4: Poly, c43e: Poly, c44e: Poly)
    ensures var P1 := Add(c0, Add(c1, Add(c2, Add(c3, c4))));
      var P2 := Add(c0, Add(c1e, Add(c22e, Add(c33e, c44e))));
      var P3 := Add(c0, Add(Add(c1, c1e), Add(Add(c2, c22e), Add(Add(Add(c3, c3e), Add(c32e, c33e)), Add(c4, c44e)))));
      var D := Add(c1, Add(c2e, Add(c32e, c43e)));
      var (U, V) := (Add(P3, P2), Add(P1, c0));
      && Add(Add(Add(D, U), c4), c43e) == Add(Add(c2, c3), Add(c2e, c3e))
      && Add(U, V) == Add(c3e, c32e)
      && Add(V, Add(Add(c2, c3), c4)) == c1
      && Add(Add(c2, c3), c3) == c2
  {
    hide Add;
  }

  lemma EvalThree(c0: Poly, c1: Poly, c2: Poly, z: Poly)
    ensures Eval([c0, c1, c2], z) == Add(c0, Mul(z, Add(c1, Mul(z, c2))))
  {
    hide Mul, Add;
    EvalOne(c2, z);
    assert [c0, c1, c2][1..] == [c1, c2];
    assert Eval([c1, c2], z) == Add(c1, Mul(z, Eval([c2], z))) by { assert [c1, c2][1..] == [c2]; }
  }

  /** The values of an operand with three parts at 1, x^e and 1 + x^e. */
  lemma ThreeParts(a0: Poly, a1: Poly, a2: Poly, e: nat)
    requires 0 < e
    ensures var p := [a0, a1, a2];
      var (S, Q) := (Add(Add(a0, a1), a2), Add(Shift(a1, e), Shift(a2, 2 * e)));
      && Eval(p, ONE) == S && Eval(p, {e}) == Add(Q, a0) && Eval(p, {0, e}) == Add(S, Q)
  {
    hide Mul, Add, Shift, Twice;
    EvalThree(a0, a1, a2, ONE);
    MulOne(a2);
    MulOne(Add(a1, a2));
    AddRight(a0, a1, a2);
    EvalThree(a0, a1, a2, {e});
    MonomialMul(e, a2);
    MonomialMul(e, Add(a1, Shift(a2, e)));
    ShiftAdd(a1, Shift(a2, e), e);
    ShiftShift(a2, e, e);
    AddComm(a0, Add(Shift(a1, e), Shift(a2, 2 * e)));
    EvalThree(a0, a1, a2, {0, e});
    TwiceMul(a2, e);
    TwiceMul(Add(a1, Twice(a2, e)), e);
    TwiceAdd(a1, Twice(a2, e), e);
    TwicePowers(a1, e);
    TwicePowers(a2, e);
    ThreeAtoms(a0, a1, Shift(a1, e), a2, Shift(a2, 2 * e));
  }

  lemma AddRight(P: Poly, Q: Poly, R: Poly)
    ensures Add(P, Add(Q, R)) == Add(Add(P, Q), R)
  {
    hide Add;
  }

  lemma AddComm(P: Poly, Q: Poly)
    ensures Add(P, Q) == Add(Q, P)
  {
    hide Add;
  }

  lemma ThreeAtoms(a0: Poly, a1: Poly, a1e: Poly, a2: Poly, a22e: Poly)
    ensures Add(a0, Add(Add(a1, a1e), Add(a2, a22e))) == Add(Add(Add(a0, a1), a2), Add(a1e, a22e))
  {
    hide Add;
  }

  /** Word parts put together: the value at y^k. */
  lemma PartsTogether(a0: Poly, a1: Poly, a2: Poly, k: nat)
    requires 0 < k
    ensures Eval([a0, a1, a2], {64 * k}) == Add(a0, Add(Y(a1, k), Y(a2, 2 * k)))
  {
    hide Mul, Add, Shift;
    ThreeParts(a0, a1, a2, 64 * k);
    AddComm(a0, Add(Y(a1, k), Y(a2, 2 * k)));
    assert 2 * (64 * k) == 64 * (2 * k);
  }

  lemma FiveTogether(c0: Poly, c1: Poly, c2: Poly, c3: Poly, c4: Poly, k: nat)
    ensures Eval([c0, c1, c2, c3, c4], {64 * k})
         == Add(Add(Add(Add(c0, Y(c2, 2 * k)), Y(c4, 4 * k)), Y(c1, k)), Y(c3, 3 * k))
  {
    hide Mul, Add, Shift;
    var e := 64 * k;
    AtPower(c0, c1, c2, c3, c4, e);
    ShiftFour(c1, c2, c3, c4, e);
    assert 2 * e == 64 * (2 * k) && 3 * e == 64 * (3 * k) && 4 * e == 64 * (4 * k);
    FiveSum(c0, Y(c1, k), Y(c2, 2 * k), Y(c3, 3 * k), Y(c4, 4 * k));
  }

  lemma FiveSum(c0: Poly, c1: Poly, c2: Poly, c3: Poly, c4: Poly)
    ensures Add(c0, Add(c1, Add(c2, Add(c3, c4)))) == Add(Add(Add(Add(c0, c2), c4), c1), c3)
  {
    hide Add;
  }

  /** The coefficients c0 ... c4 of the product of two operands with three parts, in
      terms of the products of values that the three-way routines form. */
  lemma ThreeWayProduct(a0: Poly, a1: Poly, a2: Poly, b0: Poly, b1: Poly, b2: Poly, e: nat, k: nat, r: nat)
      returns (c0: Poly, c1: Poly, c2: Poly, c3: Poly, c4: Poly)
    requires 0 < e && 0 < k && r <= k && Fits(a0, k) && Fits(a1, k) && Fits(a2, r) && Fits(b0, k) && Fits(b1, k)
      && Fits(b2, r)
    ensures c0 == Mul(a0, b0) && c4 == Mul(a2, b2)
    ensures Fits(c0, 2 * k) && Fits(c1, 2 * k) && Fits(c2, 2 * k) && Fits(c3, 2 * k) && Fits(c4, 2 * r)
    ensures var C := [c0, c1, c2, c3, c4];
      var (SA, QA) := (Add(Add(a0, a1), a2), Add(Shift(a1, e), Shift(a2, 2 * e)));
      var (SB, QB) := (Add(Add(b0, b1), b2), Add(Shift(b1, e), Shift(b2, 2 * e)));
      && Eval(C, ONE) == Mul(SB, SA)
      && Eval(C, {e}) == Mul(Add(QA, a0), Add(QB, b0))
      && Eval(C, {0, e}) == Mul(Add(SB, QB), Add(SA, QA))
    ensures Add(Add(Add(Add(c0, Y(c2, 2 * k)), Y(c4, 4 * k)), Y(c1, k)), Y(c3, 3 * k))
         == Mul(Add(a0, Add(Y(a1, k), Y(a2, 2 * k))), Add(b0, Add(Y(b1, k), Y(b2, 2 * k))))
  {
    hide Mul, Add, Shift, Fits, Eval, Conv;
    var p, q := [a0, a1, a2], [b0, b1, b2];
    var C := Conv(p, q);
    FitsMore(a2, r, k);
    FitsMore(b2, r, k);
    ConvShape(p, q, k, k);
    c0, c1, c2, c3, c4 := C[0], C[1], C[2], C[3], C[4];
    assert C == [c0, c1, c2, c3, c4];
    FitsMul(a2, b2, r, r);
    EvalConv(p, q, ONE);
    EvalConv(p, q, {e});
    EvalConv(p, q, {0, e});
    EvalConv(p, q, {64 * k});
    ThreeParts(a0, a1, a2, e);
    ThreeParts(b0, b1, b2, e);
    MulComm(Add(Add(a0, a1), a2), Add(Add(b0, b1), b2));
    MulComm(Eval(p, {0, e}), Eval(q, {0, e}));
    PartsTogether(a0, a1, a2, k);
    PartsTogether(b0, b1, b2, k);
    FiveTogether(c0, c1, c2, c3, c4, k);
  }

  // ---------------------------------------------------------------- four parts by two, five points

  lemma EvalTwo(c0: Poly, c1: Poly, z: Poly)
    ensures Eval([c0, c1], z) == Add(c0, Mul(z, c1))
  {
    hide Mul, Add;
    EvalOne(c1, z);
    assert [c0, c1][1..] == [c1];
  }

  lemma EvalFour(c0: Poly, c1: Poly, c2: Poly, c3: Poly, z: Poly)
    ensures Eval([c0, c1, c2, c3], z) == Add(c0, Mul(z, Add(c1, Mul(z, Add(c2, Mul(z, c3))))))
  {
    hide Mul, Add;
    EvalThree(c1, c2, c3, z);
    assert [c0, c1, c2, c3][1..] == [c1, c2, c3];
  }

  /** The values of an operand with two parts at 1, x^e and 1 + x^e. */
  lemma TwoParts(b0: Poly, b1: Poly, e: nat)
    requires 0 < e
    ensures var p := [b0, b1]; var (S, Q) := (Add(b0, b1), Shift(b1, e));
      && Eval(p, ONE) == S && Eval(p, {e}) == Add(Add(S, Q), b1) && Eval(p, {0, e}) == Add(S, Q)
  {
    hide Mul, Add, Shift, Twice;
    EvalTwo(b0, b1, ONE);
    MulOne(b1);
    EvalTwo(b0, b1, {e});
    MonomialMul(e, b1);
    EvalTwo(b0, b1, {0, e});
    TwiceMul(b1, e);
    TwiceIs(b1, e);
    TwoAtoms(b0, b1, Shift(b1, e));
  }

  lemma TwoAtoms(b0: Poly, b1: Poly, b1e: Poly)
    ensures Add(b0, b1e) == Add(Add(Add(b0, b1), b1e), b1)
    ensures Add(b0, Add(b1, b1e)) == Add(Add(b0, b1), b1e)
  {
    hide Add;
  }

  /** The values of an operand with four parts at 1, x^e and 1 + x^e. */
  lemma FourParts(a0: Poly, a1: Poly, a2: Poly, a3: Poly, e: nat)
    requires 0 < e
    ensures var p := [a0, a1, a2, a3];
      var S := Add(Add(Add(a0, a1), a2), a3);
      var Q := Add(Add(Shift(a1, e), Shift(a2, 2 * e)), Shift(a3, 3 * e));
      && Eval(p, ONE) == S && Eval(p, {e}) == Add(Q, a0)
      && Eval(p, {0, e}) == Add(Add(S, Q), Add(Shift(a3, e), Shift(a3, 2 * e)))
  {
    hide Mul, Add, Shift, Twice;
    EvalFour(a0, a1, a2, a3, ONE);
    MulOne(a3);
    MulOne(Add(a2, a3));
    MulOne(Add(a1, Add(a2, a3)));
    EvalFour(a0, a1, a2, a3, {e});
    MonomialMul(e, a3);
    MonomialMul(e, Add(a2, Shift(a3, e)));
    MonomialMul(e, Add(a1, Shift(Add(a2, Shift(a3, e)), e)));
    ShiftAdd(a2, Shift(a3, e), e);
    assert Shift(Shift(a3, e), e) == Shift(a3, 2 * e) by { ShiftShift(a3, e, e); }
    assert Shift(Shift(a2, e), e) == Shift(a2, 2 * e) by { ShiftShift(a2, e, e); }
    assert Shift(Shift(a3, 2 * e), e) == Shift(a3, 3 * e) by { ShiftShift(a3, 2 * e, e); }
    ShiftAdd(a1, Add(Shift(a2, e), Shift(a3, 2 * e)), e);
    ShiftAdd(Shift(a2, e), Shift(a3, 2 * e), e);
    EvalFour(a0, a1, a2, a3, {0, e});
    TwiceMul(a3, e);
    TwiceMul(Add(a2, Twice(a3, e)), e);
    TwiceMul(Add(a1, Twice(Add(a2, Twice(a3, e)), e)), e);
    TwiceAdd(a2, Twice(a3, e), e);
    TwiceAdd(a1, Add(Twice(a2, e), Twice(Twice(a3, e), e)), e);
    TwiceAdd(Twice(a2, e), Twice(Twice(a3, e), e), e);
    TwicePowers(a1, e);
    TwicePowers(a2, e);
    TwicePowers(a3, e);
    FourAtoms(a0, a1, Shift(a1, e), a2, Shift(a2, 2 * e), a3, Shift(a3, e), Shift(a3, 2 * e), Shift(a3, 3 * e));
  }

  lemma FourAtoms(a0: Poly, a1: Poly, a1e: Poly, a2: Poly, a22e: Poly, a3: Poly, a3e: Poly, a32e: Poly, a33e: Poly)
    ensures Add(a0, Add(a1, Add(a2, a3))) == Add(Add(Add(a0, a1), a2), a3)
    ensures Add(a0, Add(a1e, Add(a22e, a33e))) == Add(Add(Add(a1e, a22e), a33e), a0)
    ensures Add(a0, Add(Add(a1, a1e), Add(Add(a2, a22e), Add(Add(a3, a3e), Add(a32e, a33e)))))
         == Add(Add(Add(Add(Add(a0, a1), a2), a3), Add(Add(a1e, a22e), a33e)), Add(a3e, a32e))
  {
    hide Add;
  }

  /** The coefficients of the product of operands with four and two parts. */
  lemma FourByTwoProduct(a0: Poly, a1: Poly, a2: Poly, a3: Poly, b0: Poly, b1: Poly, e: nat, k: nat, ra: nat, rb: nat)
      returns (c0: Poly, c1: Poly, c2: Poly, c3: Poly, c4: Poly)
    requires 0 < e && 0 < k && ra <= k && rb <= k
    requires Fits(a0, k) && Fits(a1, k) && Fits(a2, k) && Fits(a3, ra) && Fits(b0, k) && Fits(b1, rb)
    ensures c0 == Mul(a0, b0) && c4 == Mul(a3, b1)
    ensures Fits(c0, 2 * k) && Fits(c1, 2 * k) && Fits(c2, 2 * k) && Fits(c3, 2 * k) && Fits(c4, ra + rb)
    ensures var C := [c0, c1, c2, c3, c4];
      var SA := Add(Add(Add(a0, a1), a2), a3);
      var QA := Add(Add(Shift(a1, e), Shift(a2, 2 * e)), Shift(a3, 3 * e));
      var UA := Add(Add(SA, QA), Add(Shift(a3, e), Shift(a3, 2 * e)));
      var (SB, QB) := (Add(b0, b1), Shift(b1, e));
      && Eval(C, ONE) == Mul(SB, SA)
      && Eval(C, {e}) == Mul(Add(QA, a0), Add(Add(SB, QB), b1))
      && Eval(C, {0, e}) == Mul(UA, Add(SB, QB))
    ensures Add(Add(Add(Add(c0, Y(c2, 2 * k)), Y(c4, 4 * k)), Y(c1, k)), Y(c3, 3 * k))
         == Mul(Add(Add(Add(Y(a1, k), Y(a2, 2 * k)), Y(a3, 3 * k)), a0), Add(b0, Y(b1, k)))
  {
    hide Mul, Add, Shift, Fits, Eval, Conv;
    var p, q := [a0, a1, a2, a3], [b0, b1];
    var C := Conv(p, q);
    FitsMore(a3, ra, k);
    FitsMore(b1, rb, k);
    ConvShape(p, q, k, k);
    c0, c1, c2, c3, c4 := C[0], C[1], C[2], C[3], C[4];
    assert C == [c0, c1, c2, c3, c4];
    FitsMul(a3, b1, ra, rb);
    EvalConv(p, q, ONE);
    EvalConv(p, q, {e});
    EvalConv(p, q, {0, e});
    EvalConv(p, q, {64 * k});
    FourParts(a0, a1, a2, a3, e);
    TwoParts(b0, b1, e);
    MulComm(Add(Add(Add(a0, a1), a2), a3), Add(b0, b1));
    FourTogether(a0, a1, a2, a3, b0, b1, k);
    FiveTogether(c0, c1, c2, c3, c4, k);
  }

  lemma FourTogether(a0: Poly, a1: Poly, a2: Poly, a3: Poly, b0: Poly, b1: Poly, k: nat)
    requires 0 < k
    ensures Eval([a0, a1, a2, a3], {64 * k}) == Add(Add(Add(Y(a1, k), Y(a2, 2 * k)), Y(a3, 3 * k)), a0)
    ensures Eval([b0, b1], {64 * k}) == Add(b0, Y(b1, k))
  {
    hide Mul, Add, Shift;
    FourParts(a0, a1, a2, a3, 64 * k);
    assert 2 * (64 * k) == 64 * (2 * k) && 3 * (64 * k) == 64 * (3 * k);
    EvalTwo(b0, b1, {64 * k});
    MonomialMul(64 * k, b1);
  }
}
