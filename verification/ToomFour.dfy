/** The algebra of the four-way routine gf2x_mul_tc4 of gf2x-1.1/toom2.c: values at
    0, 1, x, 1 + x, 1/x, 1/(1 + x) and infinity, the values at the two inverse points
    being those of the product of the reversed operands. */
module ToomFour {
  import opened Polynomials
  import opened WordMemory
  import opened ToomAlgebra

  // ---------------------------------------------------------------- reversal

  lemma ConvStep(p: seq<Poly>, q: seq<Poly>, i: nat)
    requires |p| >= 2 && q != [] && i < |p| + |q| - 1
    requires |Conv(p[1..], q)| == |p| + |q| - 2
    ensures |Conv(p, q)| == |p| + |q| - 1
    ensures Conv(p, q)[i] == Add(if i < |q| then Mul(p[0], q[i])
      else ZERO, if i > 0 then Conv(p[1..], q)[i - 1] else ZERO)
  {
    hide Mul, Add;
    AddPartsLength(Scale(p[0], q), [ZERO] + Conv(p[1..], q));
  }

  lemma ConvLast(a: Poly, q: seq<Poly>)
    ensures Conv([a], q) == Scale(a, q)
  {
  }

  /** The seven coefficients of the product of two operands with four parts. */
  function Seven(a0: Poly, a1: Poly, a2: Poly, a3: Poly, b0: Poly, b1: Poly, b2: Poly, b3: Poly): seq<Poly> {
    [Mul(a0, b0),
     Add(Mul(a0, b1), Mul(a1, b0)),
     Add(Mul(a0, b2), Add(Mul(a1, b1), Mul(a2, b0))),
     Add(Add(Mul(a0, b3), Mul(a3, b0)), Add(Mul(a1, b2), Mul(a2, b1))),
     Add(Mul(a1, b3), Add(Mul(a2, b2), Mul(a3, b1))),
     Add(Mul(a2, b3), Mul(a3, b2)),
     Mul(a3, b3)]
  }

  lemma ConvSeven(a0: Poly, a1: Poly, a2: Poly, a3: Poly, b0: Poly, b1: Poly, b2: Poly, b3: Poly)
    ensures Conv([a0, a1, a2, a3], [b0, b1, b2, b3]) == Seven(a0, a1, a2, a3, b0, b1, b2, b3)
  {
    hide Mul, Add, Conv;
    var q := [b0, b1, b2, b3];
    ConvLast(a3, q);
    var c3 := Conv([a3], q);
    assert [a2, a3][1..] == [a3] && [a1, a2, a3][1..] == [a2, a3] && [a0, a1, a2, a3][1..] == [a1, a2, a3];
    var c2 := Conv([a2, a3], q);
    forall i | 0 <= i < 5
      ensures |c2| == 5 && c2[i] == Add(if i < 4 then Mul(a2, q[i]) else ZERO, if i > 0 then c3[i - 1] else ZERO)
    {
      ConvStep([a2, a3], q, i);
    }
    ConvStep([a2, a3], q, 0);
    var c1 := Conv([a1, a2, a3], q);
    forall i | 0 <= i < 6
      ensures |c1| == 6 && c1[i] == Add(if i < 4 then Mul(a1, q[i]) else ZERO, if i > 0 then c2[i - 1] else ZERO)
    {
      ConvStep([a1, a2, a3], q, i);
    }
    ConvStep([a1, a2, a3], q, 0);
    var c0 := Conv([a0, a1, a2, a3], q);
    forall i | 0 <= i < 7
      ensures |c0| == 7 && c0[i] == Add(if i < 4 then Mul(a0, q[i]) else ZERO, if i > 0 then c1[i - 1] else ZERO)
    {
      ConvStep([a0, a1, a2, a3], q, i);
    }
    ConvStep([a0, a1, a2, a3], q, 0);
    SevenSums(a0, a1, a2, a3, b0, b1, b2, b3, c0, c1, c2, c3);
  }

  lemma SevenSums(a0: Poly, a1: Poly, a2: Poly, a3: Poly, b0: Poly, b1: Poly, b2: Poly, b3: Poly,
                  c0: seq<Poly>, c1: seq<Poly>, c2: seq<Poly>, c3: seq<Poly>)
    requires |c3| == 4 && |c2| == 5 && |c1| == 6 && |c0| == 7
    requires c3 == [Mul(a3, b0), Mul(a3, b1), Mul(a3, b2), Mul(a3, b3)]
    requires var q := [b0, b1, b2, b3];
      && (forall i :: 0 <= i < 5
            ==> c2[i] == Add(if i < 4 then Mul(a2, q[i]) else ZERO, if i > 0 then c3[i - 1] else ZERO))
      && (forall i :: 0 <= i < 6
            ==> c1[i] == Add(if i < 4 then Mul(a1, q[i]) else ZERO, if i > 0 then c2[i - 1] else ZERO))
      && (forall i :: 0 <= i < 7
            ==> c0[i] == Add(if i < 4 then Mul(a0, q[i]) else ZERO, if i > 0 then c1[i - 1] else ZERO))
    ensures c0 == Seven(a0, a1, a2, a3, b0, b1, b2, b3)
  {
    hide Mul, Add;
    AddNothing(Mul(a2, b0));
    AddNothing(Mul(a1, b0));
    AddNothing(Mul(a0, b0));
    AddNothing(Mul(a3, b3));
    AddNothing(Add(Mul(a2, b3), Mul(a3, b2)));
    AddNothing(Add(Mul(a1, b3), Add(Mul(a2, b2), Mul(a3, b1))));
    FourSum(Mul(a0, b3), Mul(a1, b2), Mul(a2, b1), Mul(a3, b0));
  }

  lemma FourSum(P: Poly, Q: Poly, R: Poly, S: Poly)
    ensures Add(P, Add(Q, Add(R, S))) == Add(Add(P, S), Add(Q, R))
  {
    hide Add;
  }

  /** Reversing both operands reverses the product. */
  lemma ConvReversed(a0: Poly, a1: Poly, a2: Poly, a3: Poly, b0: Poly, b1: Poly, b2: Poly, b3: Poly)
    ensures var C := Conv([a0, a1, a2, a3], [b0, b1, b2, b3]);
      |C| == 7 && Conv([a3, a2, a1, a0], [b3, b2, b1, b0]) == [C[6], C[5], C[4], C[3], C[2], C[1], C[0]]
  {
    hide Mul, Add, Conv;
    ConvSeven(a0, a1, a2, a3, b0, b1, b2, b3);
    ConvSeven(a3, a2, a1, a0, b3, b2, b1, b0);
    AddComm(Mul(a0, b1), Mul(a1, b0));
    AddComm(Mul(a2, b3), Mul(a3, b2));
    ThreeReversed(Mul(a0, b2), Mul(a1, b1), Mul(a2, b0));
    ThreeReversed(Mul(a1, b3), Mul(a2, b2), Mul(a3, b1));
    AddComm(Mul(a0, b3), Mul(a3, b0));
    AddComm(Mul(a1, b2), Mul(a2, b1));
  }

  lemma ThreeReversed(P: Poly, Q: Poly, R: Poly)
    ensures Add(P, Add(Q, R)) == Add(R, Add(Q, P))
  {
    hide Add;
  }

  // ---------------------------------------------------------------- values

  lemma EvalSeven(c0: Poly, c1: Poly, c2: Poly, c3: Poly, c4: Poly, c5: Poly, c6: Poly, z: Poly)
    ensures Eval([c0, c1, c2, c3, c4, c5, c6], z)
         == Add(c0, Mul(z, Add(c1, Mul(z, Add(c2, Mul(z, Add(c3, Mul(z, Add(c4, Mul(z, Add(c5, Mul(z, c6))))))))))))
  {
    hide Mul, Add;
    EvalFive(c2, c3, c4, c5, c6, z);
    assert [c0, c1, c2, c3, c4, c5, c6][1..] == [c1, c2, c3, c4, c5, c6];
    assert [c1, c2, c3, c4, c5, c6][1..] == [c2, c3, c4, c5, c6];
  }

  /** The value at 1. */
  lemma SevenAtOne(c0: Poly, c1: Poly, c2: Poly, c3: Poly, c4: Poly, c5: Poly, c6: Poly)
    ensures Eval([c0, c1, c2, c3, c4, c5, c6], ONE) == Add(c0, Add(c1, Add(c2, Add(c3, Add(c4, Add(c5, c6))))))
  {
    hide Mul, Add;
    EvalSeven(c0, c1, c2, c3, c4, c5, c6, ONE);
    MulOne(c6);
    MulOne(Add(c5, c6));
    MulOne(Add(c4, Add(c5, c6)));
    MulOne(Add(c3, Add(c4, Add(c5, c6))));
    MulOne(Add(c2, Add(c3, Add(c4, Add(c5, c6)))));
    MulOne(Add(c1, Add(c2, Add(c3, Add(c4, Add(c5, c6))))));
  }

  /** The value at x. */
  lemma SevenAtX(c0: Poly, c1: Poly, c2: Poly, c3: Poly, c4: Poly, c5: Poly, c6: Poly)
    ensures Eval([c0, c1, c2, c3, c4, c5, c6], {1})
         == Add(c0, Add(Shift(c1, 1),
           Add(Shift(c2, 2), Add(Shift(c3, 3), Add(Shift(c4, 4), Add(Shift(c5, 5), Shift(c6, 6)))))))
  {
    hide Mul, Add, Shift;
    EvalSeven(c0, c1, c2, c3, c4, c5, c6, {1});
    EvalFive(c2, c3, c4, c5, c6, {1});
    AtPower(c2, c3, c4, c5, c6, 1);
    ShiftFour(c3, c4, c5, c6, 1);
    var d2 := Add(c2, Add(Shift(c3, 1), Add(Shift(c4, 2), Add(Shift(c5, 3), Shift(c6, 4)))));
    MonomialMul(1, d2);
    ShiftUp(c2, Shift(c3, 1), Shift(c4, 2), Shift(c5, 3), Shift(c6, 4));
    ShiftShift(c3, 1, 1);
    ShiftShift(c4, 2, 1);
    ShiftShift(c5, 3, 1);
    ShiftShift(c6, 4, 1);
    var d1 := Add(Shift(c2, 1), Add(Shift(c3, 2), Add(Shift(c4, 3), Add(Shift(c5, 4), Shift(c6, 5)))));
    MonomialMul(1, Add(c1, d1));
    ShiftAdd(c1, d1, 1);
    ShiftUp(Shift(c2, 1), Shift(c3, 2), Shift(c4, 3), Shift(c5, 4), Shift(c6, 5));
    ShiftShift(c2, 1, 1);
    ShiftShift(c3, 2, 1);
    ShiftShift(c4, 3, 1);
    ShiftShift(c5, 4, 1);
    ShiftShift(c6, 5, 1);
  }

  lemma ShiftUp(P: Poly, Q: Poly, R: Poly, S: Poly, T: Poly)
    ensures Shift(Add(P, Add(Q, Add(R, Add(S, T)))), 1)
         == Add(Shift(P, 1), Add(Shift(Q, 1), Add(Shift(R, 1), Add(Shift(S, 1), Shift(T, 1)))))
  {
    hide Add, Shift;
    ShiftAdd(P, Add(Q, Add(R, Add(S, T))), 1);
    ShiftAddFour(Q, R, S, T, 1);
  }

  /** (1 + x)^5 P and (1 + x)^6 P. */
  lemma HighPowers(P: Poly)
    ensures Twice(Twice(Twice(Twice(Twice(P, 1), 1), 1), 1), 1)
      == Add(Add(P, Shift(P, 1)), Add(Shift(P, 4), Shift(P, 5)))
    ensures Twice(Twice(Twice(Twice(Twice(Twice(P, 1), 1), 1), 1), 1), 1)
      == Add(Add(P, Shift(P, 2)), Add(Shift(P, 4), Shift(P, 6)))
  {
    hide Add, Shift, Twice;
    TwicePowers(P, 1);
    TwiceAdd(P, Shift(P, 4), 1);
    TwiceIs(P, 1);
    TwiceIs(Shift(P, 4), 1);
    ShiftShift(P, 4, 1);
    TwiceTwice(Twice(Twice(Twice(Twice(P, 1), 1), 1), 1), 1);
    TwiceAdd(P, Shift(P, 4), 2);
    TwiceIs(P, 2);
    TwiceIs(Shift(P, 4), 2);
    ShiftShift(P, 4, 2);
  }

  /** The value at 1 + x. */
  lemma SevenAtSum(c0: Poly, c1: Poly, c2: Poly, c3: Poly, c4: Poly, c5: Poly, c6: Poly)
    ensures Eval([c0, c1, c2, c3, c4, c5, c6], {0, 1})
         == Add(c0, Add(Add(c1, Shift(c1, 1)), Add(Add(c2, Shift(c2, 2)),
              Add(Add(Add(c3, Shift(c3, 1)), Add(Shift(c3, 2), Shift(c3, 3))), Add(Add(c4, Shift(c4, 4)),
                Add(Add(Add(c5, Shift(c5, 1)), Add(Shift(c5, 4), Shift(c5, 5))),
                  Add(Add(c6, Shift(c6, 2)), Add(Shift(c6, 4), Shift(c6, 6)))))))))
  {
    hide Mul, Add, Shift, Twice;
    EvalSeven(c0, c1, c2, c3, c4, c5, c6, {0, 1});
    var d5 := Add(c5, Twice(c6, 1));
    var d4 := Add(c4, Twice(d5, 1));
    var d3 := Add(c3, Twice(d4, 1));
    var d2 := Add(c2, Twice(d3, 1));
    var d1 := Add(c1, Twice(d2, 1));
    TwiceMul(c6, 1);
    TwiceMul(d5, 1);
    TwiceMul(d4, 1);
    TwiceMul(d3, 1);
    TwiceMul(d2, 1);
    TwiceMul(d1, 1);
    TwiceAdd(c5, Twice(c6, 1), 1);
    TwiceTail(c4, c5, c6);
    TwiceTail4(c3, c4, c5, c6);
    TwiceTail5(c2, c3, c4, c5, c6);
    TwiceTail6(c1, c2, c3, c4, c5, c6);
    TwicePowers(c1, 1);
    TwicePowers(c2, 1);
    TwicePowers(c3, 1);
    TwicePowers(c4, 1);
    HighPowers(c5);
    HighPowers(c6);
  }

  lemma TwiceTail(c4: Poly, c5: Poly, c6: Poly)
    ensures Twice(Add(c4, Twice(Add(c5, Twice(c6, 1)), 1)), 1)
         == Add(Twice(c4, 1), Add(Twice(Twice(c5, 1), 1), Twice(Twice(Twice(c6, 1), 1), 1)))
  {
    hide Add, Shift, Twice;
    TwiceAdd(c5, Twice(c6, 1), 1);
    TwiceAdd(c4, Add(Twice(c5, 1), Twice(Twice(c6, 1), 1)), 1);
    TwiceAdd(Twice(c5, 1), Twice(Twice(c6, 1), 1), 1);
  }

  lemma TwiceTail4(c3: Poly, c4: Poly, c5: Poly, c6: Poly)
    ensures Twice(Add(c3, Twice(Add(c4, Twice(Add(c5, Twice(c6, 1)), 1)), 1)), 1)
         == Add(Twice(c3, 1), Add(Twice(Twice(c4, 1), 1),
           Add(Twice(Twice(Twice(c5, 1), 1), 1), Twice(Twice(Twice(Twice(c6, 1), 1), 1), 1))))
  {
    hide Add, Shift, Twice;
    TwiceTail(c4, c5, c6);
    var t := Add(Twice(Twice(c5, 1), 1), Twice(Twice(Twice(c6, 1), 1), 1));
    TwiceAdd(c3, Add(Twice(c4, 1), t), 1);
    TwiceAdd(Twice(c4, 1), t, 1);
    TwiceAdd(Twice(Twice(c5, 1), 1), Twice(Twice(Twice(c6, 1), 1), 1), 1);
  }

  lemma TwiceTail5(c2: Poly, c3: Poly, c4: Poly, c5: Poly, c6: Poly)
    ensures Twice(Add(c2, Twice(Add(c3, Twice(Add(c4, Twice(Add(c5, Twice(c6, 1)), 1)), 1)), 1)), 1)
         == Add(Twice(c2, 1), Add(Twice(Twice(c3, 1), 1), Add(Twice(Twice(Twice(c4, 1), 1), 1),
              Add(Twice(Twice(Twice(Twice(c5, 1), 1), 1), 1), Twice(Twice(Twice(Twice(Twice(c6, 1), 1), 1), 1), 1)))))
  {
    hide Add, Shift, Twice;
    TwiceTail4(c3, c4, c5, c6);
    var t := Add(Twice(Twice(Twice(c5, 1), 1), 1), Twice(Twice(Twice(Twice(c6, 1), 1), 1), 1));
    TwiceAdd(c2, Add(Twice(c3, 1), Add(Twice(Twice(c4, 1), 1), t)), 1);
    TwiceAdd(Twice(c3, 1), Add(Twice(Twice(c4, 1), 1), t), 1);
    TwiceAdd(Twice(Twice(c4, 1), 1), t, 1);
    TwiceAdd(Twice(Twice(Twice(c5, 1), 1), 1), Twice(Twice(Twice(Twice(c6, 1), 1), 1), 1), 1);
  }

  lemma TwiceTail6(c1: Poly, c2: Poly, c3: Poly, c4: Poly, c5: Poly, c6: Poly)
    ensures Twice(Add(c1, Twice(Add(c2, Twice(Add(c3, Twice(Add(c4, Twice(Add(c5, Twice(c6, 1)), 1)), 1)), 1)), 1)), 1)
         == Add(Twice(c1, 1), Add(Twice(Twice(c2, 1), 1), Add(Twice(Twice(Twice(c3, 1), 1), 1),
              Add(Twice(Twice(Twice(Twice(c4, 1), 1), 1), 1), Add(Twice(Twice(Twice(Twice(Twice(c5, 1), 1), 1), 1), 1),
                Twice(Twice(Twice(Twice(Twice(Twice(c6, 1), 1), 1), 1), 1), 1))))))
  {
    hide Add, Shift, Twice;
    TwiceTail5(c2, c3, c4, c5, c6);
    var u := Add(Twice(Twice(Twice(Twice(c5, 1), 1), 1), 1), Twice(Twice(Twice(Twice(Twice(c6, 1), 1), 1), 1), 1));
    var t := Add(Twice(Twice(Twice(c4, 1), 1), 1), u);
    TwiceAdd(c1, Add(Twice(c2, 1), Add(Twice(Twice(c3, 1), 1), t)), 1);
    TwiceAdd(Twice(c2, 1), Add(Twice(Twice(c3, 1), 1), t), 1);
    TwiceAdd(Twice(Twice(c3, 1), 1), t, 1);
    TwiceAdd(Twice(Twice(Twice(c4, 1), 1), 1), u, 1);
    TwiceAdd(Twice(Twice(Twice(Twice(c5, 1), 1), 1), 1), Twice(Twice(Twice(Twice(Twice(c6, 1), 1), 1), 1), 1), 1);
  }

  // ---------------------------------------------------------------- interpolation

  /** (1 + x^2 + x^4) P. */
  function Odd(P: Poly): Poly {
    Add(P, Add(Shift(P, 2), Shift(P, 4)))
  }

  /** The divisors x + x^4 and x^2 + x^4. */
  function D1(P: Poly): Poly {
    Add(Shift(P, 1), Shift(P, 4))
  }

  function D2(P: Poly): Poly {
    Add(Shift(P, 2), Shift(P, 4))
  }

  /** (1/x + 1/(1 + x)) values: what W1 holds after its first step. */
  lemma FirstSum(c0: Poly, c1: Poly, c2: Poly, c3: Poly, c4: Poly, c5: Poly, c6: Poly)
    ensures var R := [c6, c5, c4, c3, c2, c1, c0];
      Add(Add(Eval(R, {0, 1}), Eval(R, {1})), Odd(c0))
        == Add(Add(c5, c4), Add(Add(c3, Add(Shift(c3, 1), Shift(c3, 2))),
          Add(c2, Add(c1, Add(Shift(c1, 1), Shift(c1, 4))))))
  {
    hide Add, Shift, Eval;
    SevenAtSum(c6, c5, c4, c3, c2, c1, c0);
    SevenAtX(c6, c5, c4, c3, c2, c1, c0);
    FirstAtoms(c6, c5, Shift(c5, 1), c4, Shift(c4, 2), c3, Shift(c3, 1), Shift(c3, 2), Shift(c3, 3), c2, Shift(c2, 4),
      c1, Shift(c1, 1), Shift(c1, 4), Shift(c1, 5), c0, Shift(c0, 2), Shift(c0, 4), Shift(c0, 6));
  }

  lemma FirstAtoms(c0: Poly, c1: Poly, c1a: Poly, c2: Poly, c2b: Poly, c3: Poly, c3a: Poly, c3b: Poly, c3c: Poly,
                   c4: Poly, c4d: Poly,
                   c5: Poly, c5a: Poly, c5d: Poly, c5e: Poly, c6: Poly, c6b: Poly, c6d: Poly, c6f: Poly)
    ensures var S := Add(c0, Add(Add(c1, c1a), Add(Add(c2, c2b), Add(Add(Add(c3, c3a), Add(c3b, c3c)), Add(Add(c4, c4d),
                Add(Add(Add(c5, c5a), Add(c5d, c5e)), Add(Add(c6, c6b), Add(c6d, c6f))))))));
      var X := Add(c0, Add(c1a, Add(c2b, Add(c3c, Add(c4d, Add(c5e, c6f))))));
      Add(Add(S, X), Add(c6, Add(c6b, c6d)))
        == Add(Add(c1, c2), Add(Add(c3, Add(c3a, c3b)), Add(c4, Add(c5, Add(c5a, c5d)))))
  {
    hide Add;
  }

  /** The numerator of W5 is (x + x^4)(c1 + c5). */
  lemma FifthQuotient(c0: Poly, c1: Poly, c2: Poly, c3: Poly, c4: Poly, c5: Poly, c6: Poly)
    ensures var C := [c0, c1, c2, c3, c4, c5, c6];
      var w1 := Add(Add(c5, c4), Add(Add(c3, Add(Shift(c3, 1), Shift(c3, 2))),
        Add(c2, Add(c1, Add(Shift(c1, 1), Shift(c1, 4))))));
      Add(Add(Eval(C, {0, 1}), Add(Eval(C, {1}), w1)), Odd(c6)) == D1(Add(c1, c5))
  {
    hide Add, Shift, Eval;
    SevenAtSum(c0, c1, c2, c3, c4, c5, c6);
    SevenAtX(c0, c1, c2, c3, c4, c5, c6);
    ShiftAdd(c1, c5, 1);
    ShiftAdd(c1, c5, 4);
    FifthAtoms(c0, c1, Shift(c1, 1), Shift(c1, 4), c2, Shift(c2, 2), c3, Shift(c3, 1), Shift(c3, 2), Shift(c3, 3), c4,
      Shift(c4, 4), c5, Shift(c5, 1), Shift(c5, 4), Shift(c5, 5), c6, Shift(c6, 2), Shift(c6, 4), Shift(c6, 6));
  }

  lemma FifthAtoms(c0: Poly, c1: Poly, c1a: Poly, c1d: Poly, c2: Poly, c2b: Poly, c3: Poly, c3a: Poly, c3b: Poly,
                   c3c: Poly, c4: Poly, c4d: Poly,
                   c5: Poly, c5a: Poly, c5d: Poly, c5e: Poly, c6: Poly, c6b: Poly, c6d: Poly, c6f: Poly)
    ensures var S := Add(c0, Add(Add(c1, c1a), Add(Add(c2, c2b), Add(Add(Add(c3, c3a), Add(c3b, c3c)), Add(Add(c4, c4d),
                Add(Add(Add(c5, c5a), Add(c5d, c5e)), Add(Add(c6, c6b), Add(c6d, c6f))))))));
      var X := Add(c0, Add(c1a, Add(c2b, Add(c3c, Add(c4d, Add(c5e, c6f))))));
      var w1 := Add(Add(c5, c4), Add(Add(c3, Add(c3a, c3b)), Add(c2, Add(c1, Add(c1a, c1d)))));
      Add(Add(S, Add(X, w1)), Add(c6, Add(c6b, c6d))) == Add(Add(c1a, c5a), Add(c1d, c5d))
  {
    hide Add;
  }

  /** W2 after its first step, and the numerator of W4, which is (x^2 + x^4)(c2 + c4). */
  lemma FourthQuotient(c0: Poly, c1: Poly, c2: Poly, c3: Poly, c4: Poly, c5: Poly, c6: Poly)
    ensures var (C, R) := ([c0, c1, c2, c3, c4, c5, c6], [c6, c5, c4, c3, c2, c1, c0]);
      var w2 := Add(Add(Eval(R, {1}), c6), Shift(c0, 6));
      var w5 := Add(c1, c5);
      && w2 == Add(Shift(c5, 1), Add(Shift(c4, 2), Add(Shift(c3, 3), Add(Shift(c2, 4), Shift(c1, 5)))))
      && Add(Add(Add(Eval(C, {1}), Add(w2, c0)), Shift(c6, 6)), Add(Shift(w5, 1), Shift(w5, 5))) == D2(Add(c2, c4))
  {
    hide Add, Shift, Eval;
    SevenAtX(c0, c1, c2, c3, c4, c5, c6);
    SevenAtX(c6, c5, c4, c3, c2, c1, c0);
    ShiftAdd(c1, c5, 1);
    ShiftAdd(c1, c5, 5);
    ShiftAdd(c2, c4, 2);
    ShiftAdd(c2, c4, 4);
    FourthAtoms(c0, Shift(c0, 6), Shift(c1, 1), Shift(c1, 5), Shift(c2, 2), Shift(c2, 4), Shift(c3, 3), Shift(c4, 2),
      Shift(c4, 4), Shift(c5, 1), Shift(c5, 5), c6, Shift(c6, 6));
  }

  lemma FourthAtoms(c0: Poly, c0f: Poly, c1a: Poly, c1e: Poly, c2b: Poly, c2d: Poly, c3c: Poly, c4b: Poly, c4d: Poly,
                    c5a: Poly, c5e: Poly, c6: Poly, c6f: Poly)
    ensures var X := Add(c0, Add(c1a, Add(c2b, Add(c3c, Add(c4d, Add(c5e, c6f))))));
      var Z := Add(c6, Add(c5a, Add(c4b, Add(c3c, Add(c2d, Add(c1e, c0f))))));
      var w2 := Add(Add(Z, c6), c0f);
      && w2 == Add(c5a, Add(c4b, Add(c3c, Add(c2d, c1e))))
      && Add(Add(Add(X, Add(w2, c0)), c6f), Add(Add(c1a, c5a), Add(c1e, c5e))) == Add(Add(c2b, c4b), Add(c2d, c4d))
  {
    hide Add;
  }

  /** The remaining steps: W3 becomes c3, the numerators of W1 and W2 are (x + x^4) c1
      and (x^2 + x^4) c2. */
  lemma LastQuotients(c0: Poly, c1: Poly, c2: Poly, c3: Poly, c4: Poly, c5: Poly, c6: Poly)
    ensures var w3 := Add(Eval([c0, c1, c2, c3, c4, c5, c6], ONE), Add(c0, c6));
      var w1 := Add(Add(Add(c5, c4), Add(Add(c3, Add(Shift(c3, 1), Shift(c3, 2))),
        Add(c2, Add(c1, Add(Shift(c1, 1), Shift(c1, 4)))))), w3);
      var w2 := Add(Add(Add(Shift(c5, 1), Add(Shift(c4, 2), Add(Shift(c3, 3), Add(Shift(c2, 4), Shift(c1, 5))))),
        Shift(w1, 1)), Shift(w3, 2));
      && Add(w3, Add(Add(c2, c4), Add(c1, c5))) == c3
      && Add(w1, Add(Shift(c3, 1), Shift(c3, 2))) == D1(c1)
      && Add(w2, Add(Shift(c5, 1), Shift(c5, 2))) == D2(c2)
      && Add(Add(c1, c5), c1) == c5 && Add(Add(c2, c4), c2) == c4
  {
    hide Add, Shift, Eval;
    SevenAtOne(c0, c1, c2, c3, c4, c5, c6);
    MiddleAtoms(c0, c1, Shift(c1, 1), Shift(c1, 4), c2, c3, Shift(c3, 1), Shift(c3, 2), c4, c5, c6);
    var s3 := Add(c1, Add(c2, Add(c3, Add(c4, c5))));
    var s1 := Add(Add(Shift(c3, 1), Shift(c3, 2)), Add(Shift(c1, 1), Shift(c1, 4)));
    ShiftAdd(Add(Shift(c3, 1), Shift(c3, 2)), Add(Shift(c1, 1), Shift(c1, 4)), 1);
    ShiftAdd(Shift(c3, 1), Shift(c3, 2), 1);
    ShiftAdd(Shift(c1, 1), Shift(c1, 4), 1);
    ShiftShift(c3, 1, 1);
    ShiftShift(c3, 2, 1);
    ShiftShift(c1, 1, 1);
    ShiftShift(c1, 4, 1);
    ShiftByTwo(c1, c2, c3, c4, c5);
    SecondAtoms(Shift(c1, 2), Shift(c1, 5), Shift(c2, 2), Shift(c2, 4), Shift(c3, 2), Shift(c3, 3), Shift(c4, 2),
      Shift(c5, 1), Shift(c5, 2));
  }

  lemma ShiftByTwo(P: Poly, Q: Poly, R: Poly, S: Poly, T: Poly)
    ensures Shift(Add(P, Add(Q, Add(R, Add(S, T)))), 2)
         == Add(Shift(P, 2), Add(Shift(Q, 2), Add(Shift(R, 2), Add(Shift(S, 2), Shift(T, 2)))))
  {
    hide Add, Shift;
    ShiftAdd(P, Add(Q, Add(R, Add(S, T))), 2);
    ShiftAddFour(Q, R, S, T, 2);
  }

  lemma MiddleAtoms(c0: Poly, c1: Poly, c1a: Poly, c1d: Poly, c2: Poly, c3: Poly, c3a: Poly, c3b: Poly, c4: Poly,
                    c5: Poly, c6: Poly)
    ensures var w3 := Add(Add(c0, Add(c1, Add(c2, Add(c3, Add(c4, Add(c5, c6)))))), Add(c0, c6));
      var w1 := Add(Add(Add(c5, c4), Add(Add(c3, Add(c3a, c3b)), Add(c2, Add(c1, Add(c1a, c1d))))), w3);
      && w3 == Add(c1, Add(c2, Add(c3, Add(c4, c5))))
      && w1 == Add(Add(c3a, c3b), Add(c1a, c1d))
      && Add(w3, Add(Add(c2, c4), Add(c1, c5))) == c3
      && Add(w1, Add(c3a, c3b)) == Add(c1a, c1d)
      && Add(Add(c1, c5), c1) == c5 && Add(Add(c2, c4), c2) == c4
  {
    hide Add;
  }

  lemma SecondAtoms(c1b: Poly, c1e: Poly, c2b: Poly, c2d: Poly, c3b: Poly, c3c: Poly, c4b: Poly, c5a: Poly, c5b: Poly)
    ensures var w1x := Add(Add(c3b, c3c), Add(c1b, c1e));
      var w3x := Add(c1b, Add(c2b, Add(c3b, Add(c4b, c5b))));
      var w2 := Add(Add(Add(c5a, Add(c4b, Add(c3c, Add(c2d, c1e)))), w1x), w3x);
      Add(w2, Add(c5a, c5b)) == Add(c2b, c2d)
  {
    hide Add;
  }

  /** The coefficients c0 ... c6 of the product of two operands with four parts, in terms
      of the products of values that gf2x_mul_tc4 forms. */
  lemma FourWayProduct(a0: Poly, a1: Poly, a2: Poly, a3: Poly, b0: Poly, b1: Poly, b2: Poly, b3: Poly, k: nat, r: nat)
      returns (c0: Poly, c1: Poly, c2: Poly, c3: Poly, c4: Poly, c5: Poly, c6: Poly)
    requires 0 < k && r <= k && Fits(a0, k) && Fits(a1, k) && Fits(a2, k) && Fits(a3, r)
    requires Fits(b0, k) && Fits(b1, k) && Fits(b2, k) && Fits(b3, r)
    ensures c0 == Mul(a0, b0) && c6 == Mul(a3, b3)
    ensures Fits(c0, 2 * k) && Fits(c1, 2 * k) && Fits(c2, 2 * k) && Fits(c3, 2 * k) && Fits(c4, 2 * k)
      && Fits(c5, 2 * k) && Fits(c6, 2 * r)
    ensures Eval([c0, c1, c2, c3, c4, c5, c6], ONE) == Mul(Eval([a0, a1, a2, a3], ONE), Eval([b0, b1, b2, b3], ONE))
    ensures Eval([c0, c1, c2, c3, c4, c5, c6], {1}) == Mul(Eval([a0, a1, a2, a3], {1}), Eval([b0, b1, b2, b3], {1}))
    ensures Eval([c0, c1, c2, c3, c4, c5, c6], {0, 1})
      == Mul(Eval([a0, a1, a2, a3], {0, 1}), Eval([b0, b1, b2, b3], {0, 1}))
    ensures Eval([c6, c5, c4, c3, c2, c1, c0], {1}) == Mul(Eval([a3, a2, a1, a0], {1}), Eval([b3, b2, b1, b0], {1}))
    ensures Eval([c6, c5, c4, c3, c2, c1, c0], {0, 1})
      == Mul(Eval([a3, a2, a1, a0], {0, 1}), Eval([b3, b2, b1, b0], {0, 1}))
    ensures Eval([c0, c1, c2, c3, c4, c5, c6], {64 * k})
         == Mul(Add(Add(Add(Y(a1, k), Y(a2, 2 * k)), Y(a3, 3 * k)), a0),
           Add(Add(Add(Y(b1, k), Y(b2, 2 * k)), Y(b3, 3 * k)), b0))
  {
    hide Mul, Add, Shift, Fits, Eval, Conv, Y;
    var p, q, u, v := [a0, a1, a2, a3], [b0, b1, b2, b3], [a3, a2, a1, a0], [b3, b2, b1, b0];
    var C := Conv(p, q);
    FitsMore(a3, r, k);
    FitsMore(b3, r, k);
    ConvShape(p, q, k, k);
    ConvReversed(a0, a1, a2, a3, b0, b1, b2, b3);
    c0, c1, c2, c3, c4, c5, c6 := C[0], C[1], C[2], C[3], C[4], C[5], C[6];
    assert C == [c0, c1, c2, c3, c4, c5, c6];
    FitsMul(a3, b3, r, r);
    EvalConv(p, q, ONE);
    EvalConv(p, q, {1});
    EvalConv(p, q, {0, 1});
    EvalConv(p, q, {64 * k});
    EvalConv(u, v, {1});
    EvalConv(u, v, {0, 1});
    FourTogether(a0, a1, a2, a3, a0, a1, k);
    FourTogether(b0, b1, b2, b3, b0, b1, k);
  }
}
