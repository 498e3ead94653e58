/** The subquadratic gcd of gf2x-1.1/apps/halfgcd.cpp. */
module HalfGcd {
  import opened Polynomials
  import opened PolyDivision

  // ---------------------------------------------------------------- 2x2 matrices

  datatype Mat = Mat(m00: Poly, m01: Poly, m10: Poly, m11: Poly)

  datatype Vec = Vec(u: Poly, v: Poly)

  const IDENTITY := Mat(ONE, ZERO, ZERO, ONE)

  /** a*x + b*y, the entry every matrix product is made of. */
  function Dot(a: Poly, b: Poly, x: Poly, y: Poly): Poly {
    Add(Mul(a, x), Mul(b, y))
  }

  function Apply(M: Mat, w: Vec): Vec {
    Vec(Dot(M.m00, M.m01, w.u, w.v), Dot(M.m10, M.m11, w.u, w.v))
  }

  function MatMul(A: Mat, B: Mat): Mat {
    Mat(Dot(A.m00, A.m01, B.m00, B.m10), Dot(A.m00, A.m01, B.m01, B.m11),
        Dot(A.m10, A.m11, B.m00, B.m10), Dot(A.m10, A.m11, B.m01, B.m11))
  }

  function Det(M: Mat): Poly {
    Dot(M.m00, M.m01, M.m11, M.m10)
  }

  /** One step of Euclid's algorithm with quotient q. */
  function EuclidStep(q: Poly): Mat {
    Mat(ZERO, ONE, ONE, q)
  }

  ghost predicate Entries(M: Mat, d: int) {
    Deg(M.m00) <= d && Deg(M.m01) <= d && Deg(M.m10) <= d && Deg(M.m11) <= d
  }

  /** M takes (w.u, w.v) to (w'.u, w'.v) as a sequence of Euclidean steps does:
      with determinant 1 and entries no larger than the degree lost by u. */
  ghost predicate Reduces(M: Mat, w: Vec, w': Vec) {
    && Apply(M, w) == w'
    && Det(M) == ONE
    && Entries(M, Deg(w.u) - Deg(w'.u))
    && Deg(w'.v) < Deg(w'.u)
  }

  // ---------------------------------------------------------------- algebra of matrices

  /** (r . B) . w == r . (B . w) for a row r = (a, b) of the left matrix. */
  lemma DotAssoc(a: Poly, b: Poly, B: Mat, x: Poly, y: Poly)
    ensures Dot(Dot(a, b, B.m00, B.m10), Dot(a, b, B.m01, B.m11), x, y)
         == Dot(a, b, Dot(B.m00, B.m01, x, y), Dot(B.m10, B.m11, x, y))
  {
    hide Mul;
    AddMul(Mul(a, B.m00), Mul(b, B.m10), x);
    AddMul(Mul(a, B.m01), Mul(b, B.m11), y);
    MulAdd(a, Mul(B.m00, x), Mul(B.m01, y));
    MulAdd(b, Mul(B.m10, x), Mul(B.m11, y));
    MulAssoc(a, B.m00, x);
    MulAssoc(a, B.m01, y);
    MulAssoc(b, B.m10, x);
    MulAssoc(b, B.m11, y);
  }

  lemma ApplyMatMul(A: Mat, B: Mat, w: Vec)
    ensures Apply(MatMul(A, B), w) == Apply(A, Apply(B, w))
  {
    hide Dot;
    DotAssoc(A.m00, A.m01, B, w.u, w.v);
    DotAssoc(A.m10, A.m11, B, w.u, w.v);
  }

  lemma Product4(a: Poly, b: Poly, c: Poly, d: Poly)
    ensures Mul(Add(a, b), Add(c, d)) == Add(Add(Mul(a, c), Mul(a, d)), Add(Mul(b, c), Mul(b, d)))
  {
    hide Mul;
    AddMul(a, b, Add(c, d));
    MulAdd(a, c, d);
    MulAdd(b, c, d);
  }

  lemma SwapInner(a: Poly, b: Poly, c: Poly, d: Poly)
    ensures Mul(Mul(a, b), Mul(c, d)) == Mul(Mul(a, c), Mul(b, d))
  {
    hide Mul;
    MulAssoc(a, b, Mul(c, d));
    MulAssoc(b, c, d);
    MulComm(b, c);
    MulAssoc(c, b, d);
    MulAssoc(a, c, Mul(b, d));
  }

  /** The determinant is multiplicative. */
  lemma DetMatMul(A: Mat, B: Mat)
    ensures Det(MatMul(A, B)) == Mul(Det(A), Det(B))
  {
    hide Mul;
    var P := MatMul(A, B);
    var a, b, c, d := A.m00, A.m01, A.m10, A.m11;
    var e, f, g, h := B.m00, B.m01, B.m10, B.m11;
    Product4(Mul(a, e), Mul(b, g), Mul(c, f), Mul(d, h));
    Product4(Mul(a, f), Mul(b, h), Mul(c, e), Mul(d, g));
    Product4(Mul(a, d), Mul(b, c), Mul(e, h), Mul(f, g));
    // the mixed terms cancel in pairs, the others regroup
    SwapInner(a, e, c, f);
    SwapInner(a, f, c, e);
    MulComm(e, f);
    SwapInner(b, g, d, h);
    SwapInner(b, h, d, g);
    MulComm(g, h);
    SwapInner(a, e, d, h);
    SwapInner(b, g, c, f);
    MulComm(g, f);
    SwapInner(a, f, d, g);
    SwapInner(b, h, c, e);
    MulComm(h, e);
  }

  lemma DotDegree(a: Poly, b: Poly, x: Poly, y: Poly, d: int, e: int)
    requires Deg(a) <= d && Deg(b) <= d && Deg(x) <= e && Deg(y) <= e && 0 <= d && 0 <= e + 1
    ensures Deg(Dot(a, b, x, y)) <= d + e
  {
    hide Mul, Deg;
    DegMul(a, x);
    DegMul(b, y);
    DegAdd(Mul(a, x), Mul(b, y));
  }

  lemma EntriesMatMul(A: Mat, B: Mat, d: nat, e: nat)
    requires Entries(A, d) && Entries(B, e)
    ensures Entries(MatMul(A, B), d + e)
  {
    hide Dot, Deg;
    DotDegree(A.m00, A.m01, B.m00, B.m10, d, e);
    DotDegree(A.m00, A.m01, B.m01, B.m11, d, e);
    DotDegree(A.m10, A.m11, B.m00, B.m10, d, e);
    DotDegree(A.m10, A.m11, B.m01, B.m11, d, e);
  }

  /** A matrix of determinant 1 is not zero. */
  lemma DetOneEntries(M: Mat, d: int)
    requires Det(M) == ONE && Entries(M, d)
    ensures 0 <= d
  {
    hide Mul, Deg;
    DegMul(M.m00, M.m11);
    DegMul(M.m01, M.m10);
    assert 0 in Add(Mul(M.m00, M.m11), Mul(M.m01, M.m10));
  }

  lemma ReducesIdentity(w: Vec)
    requires Deg(w.v) < Deg(w.u)
    ensures Reduces(IDENTITY, w, w)
  {
    hide Mul, Deg;
    MulOne(w.u);
    MulOne(w.v);
    MulZero(w.u);
    MulZero(w.v);
    MulOne(ONE);
    MulZero(ONE);
    MulZero(ZERO);
    DegIs(ONE, 0);
  }

  lemma ReducesStep(w: Vec)
    requires w.v != {} && Deg(w.v) < Deg(w.u)
    ensures Reduces(EuclidStep(DivRem(w.u, w.v).q), w, Vec(w.v, DivRem(w.u, w.v).r))
  {
    hide Mul, Deg, DivRem;
    var q, r := DivRem(w.u, w.v).q, DivRem(w.u, w.v).r;
    MulOne(w.u);
    MulOne(w.v);
    MulZero(w.u);
    MulZero(q);
    MulOne(ONE);
    DegIs(ONE, 0);
    assert Add(w.u, Mul(q, w.v)) == r;
  }

  lemma ReducesCompose(A: Mat, B: Mat, w: Vec, w1: Vec, w2: Vec)
    requires Reduces(B, w, w1) && Reduces(A, w1, w2)
    ensures Reduces(MatMul(A, B), w, w2)
  {
    hide Dot, Deg, Apply, Det, MatMul, Mul, Entries;
    ApplyMatMul(A, B, w);
    DetMatMul(A, B);
    MulOne(ONE);
    DetOneEntries(A, Deg(w1.u) - Deg(w2.u));
    DetOneEntries(B, Deg(w.u) - Deg(w1.u));
    EntriesMatMul(A, B, Deg(w1.u) - Deg(w2.u), Deg(w.u) - Deg(w1.u));
  }

  // ---------------------------------------------------------------- truncation

  lemma DotShift(a: Poly, b: Poly, xh: Poly, xl: Poly, yh: Poly, yl: Poly, n: nat)
    ensures Dot(a, b, Add(Shift(xh, n), xl), Add(Shift(yh, n), yl))
         == Add(Shift(Dot(a, b, xh, yh), n), Dot(a, b, xl, yl))
  {
    hide Mul, Shift;
    MulAdd(a, Shift(xh, n), xl);
    MulAdd(b, Shift(yh, n), yl);
    MulShift(a, xh, n);
    MulShift(b, yh, n);
    assert Add(Shift(Mul(a, xh), n), Shift(Mul(b, yh), n)) == Shift(Add(Mul(a, xh), Mul(b, yh)), n);
  }

  /** The heart of the half-gcd: a matrix computed from the leading 2d-1
      coefficients of u and v by losing less than d of them reduces the full
      polynomials exactly as far as it reduces the truncated ones. */
  lemma ReducesLift(M: Mat, w: Vec, h: Vec, h': Vec, l: Vec, n: nat, d: nat)
    requires 1 <= n && 1 <= d && Deg(w.u) == n + 2 * d - 2 && Deg(w.v) < Deg(w.u)
    requires h == Vec(High(w.u, n), High(w.v, n))
    requires l == Apply(M, Vec(Low(w.u, n), Low(w.v, n)))
    requires Reduces(M, h, h')
    requires Deg(h'.v) <= Deg(h.u) - d < Deg(h'.u)
    ensures var w' := Vec(Add(Shift(h'.u, n), l.u), Add(Shift(h'.v, n), l.v));
      Reduces(M, w, w') && Deg(w'.v) <= Deg(w.u) - d < Deg(w'.u)
  {
    hide Dot, Deg, Shift, High, Low, Det, Apply, Add, Entries;
    LiftApply(M, w, h, h', l, n);
    var e := Deg(h.u) - Deg(h'.u);
    DetOneEntries(M, e);
    SplitAt(w.u, n);
    SplitAt(w.v, n);
    ApplyDegree(M, Vec(Low(w.u, n), Low(w.v, n)), e, n - 1);
    DegShiftAdd(h'.u, l.u, n);
    DegShiftAdd(h'.v, l.v, n);
    ReducesIs(M, w, Apply(M, w), e);
  }

  lemma ReducesIs(M: Mat, w: Vec, w': Vec, e: int)
    requires Apply(M, w) == w' && Det(M) == ONE && Entries(M, e)
    requires e == Deg(w.u) - Deg(w'.u) && Deg(w'.v) < Deg(w'.u)
    ensures Reduces(M, w, w')
  {
    hide Apply, Det, Entries, Deg;
  }

  lemma ApplyDegree(M: Mat, w: Vec, d: nat, e: nat)
    requires Entries(M, d) && Deg(w.u) <= e && Deg(w.v) <= e
    ensures Deg(Apply(M, w).u) <= d + e && Deg(Apply(M, w).v) <= d + e
  {
    hide Dot, Deg;
    DotDegree(M.m00, M.m01, w.u, w.v, d, e);
    DotDegree(M.m10, M.m11, w.u, w.v, d, e);
  }

  lemma DegShiftAdd(h: Poly, l: Poly, n: nat)
    ensures Deg(l) < Deg(h) + n && h != {} ==> Deg(Add(Shift(h, n), l)) == Deg(h) + n
    ensures Deg(Add(Shift(h, n), l)) <= (if Deg(l) <= Deg(h) + n then Deg(h) + n else Deg(l))
  {
    hide Deg, Shift;
    DegShift(h, n);
    DegAdd(l, Shift(h, n));
    DegAdd(Shift(h, n), l);
    assert Add(l, Shift(h, n)) == Add(Shift(h, n), l);
  }

  lemma LiftApply(M: Mat, w: Vec, h: Vec, h': Vec, l: Vec, n: nat)
    requires h == Vec(High(w.u, n), High(w.v, n))
    requires l == Apply(M, Vec(Low(w.u, n), Low(w.v, n)))
    requires Apply(M, h) == h'
    ensures Apply(M, w) == Vec(Add(Shift(h'.u, n), l.u), Add(Shift(h'.v, n), l.v))
  {
    hide Dot, Deg, Shift, High, Low, Add;
    SplitAt(w.u, n);
    SplitAt(w.v, n);
    DotShift(M.m00, M.m01, h.u, Low(w.u, n), h.v, Low(w.v, n), n);
    DotShift(M.m10, M.m11, h.u, Low(w.u, n), h.v, Low(w.v, n), n);
  }

  // ---------------------------------------------------------------- gcd is kept

  lemma DividesDot(d: Poly, a: Poly, b: Poly, x: Poly, y: Poly)
    requires Divides(d, x) && Divides(d, y)
    ensures Divides(d, Dot(a, b, x, y))
  {
    hide Mul, Divides;
    DividesMul(d, x, a);
    DividesMul(d, y, b);
    DividesAdd(d, Mul(a, x), Mul(b, y));
  }

  /** The adjugate undoes a matrix of determinant 1. */
  lemma ApplyAdjugate(M: Mat, w: Vec)
    requires Det(M) == ONE
    ensures Apply(Mat(M.m11, M.m01, M.m10, M.m00), Apply(M, w)) == w
  {
    hide Mul;
    var J := Mat(M.m11, M.m01, M.m10, M.m00);
    ApplyMatMul(J, M, w);
    MulComm(M.m11, M.m00);
    MulComm(M.m11, M.m01);
    MulComm(M.m10, M.m00);
    MulComm(M.m10, M.m01);
    assert MatMul(J, M) == IDENTITY by {
      assert Dot(M.m11, M.m01, M.m00, M.m10) == ONE;
      assert Dot(M.m10, M.m00, M.m01, M.m11) == ONE;
    }
    MulOne(w.u);
    MulOne(w.v);
    MulZero(w.u);
    MulZero(w.v);
  }

  /** Determinant 1 keeps the gcd. */
  lemma GcdApply(M: Mat, w: Vec)
    requires Det(M) == ONE
    ensures Gcd(Apply(M, w).u, Apply(M, w).v) == Gcd(w.u, w.v)
  {
    hide Dot, Divides, Gcd;
    var w' := Apply(M, w);
    var g, g' := Gcd(w.u, w.v), Gcd(w'.u, w'.v);
    ApplyAdjugate(M, w);
    DividesDot(g, M.m00, M.m01, w.u, w.v);
    DividesDot(g, M.m10, M.m11, w.u, w.v);
    DividesDot(g', M.m11, M.m01, w'.u, w'.v);
    DividesDot(g', M.m10, M.m00, w'.u, w'.v);
    DividesAntisymmetric(g, g');
  }

  lemma GcdSwap(a: Poly, b: Poly)
    ensures Gcd(a, b) == Gcd(b, a)
  {
    hide Gcd, Divides;
    GcdUnique(Gcd(a, b), Gcd(b, a), a, b);
  }

  lemma GcdRem(a: Poly, b: Poly)
    requires b != {}
    ensures Gcd(b, Rem(a, b)) == Gcd(a, b)
  {
    hide Gcd, Divides, Rem;
    GcdStep(a, b, Gcd(b, Rem(a, b)));
    GcdUnique(Gcd(a, b), Gcd(b, Rem(a, b)), a, b);
  }

  // ---------------------------------------------------------------- the program

  const HALFGCD_CROSSOVER := 4 * 64
  const GCD_CROSSOVER := 5 * HALFGCD_CROSSOVER

  class GF2XMatrix {
    var e00: Poly
    var e01: Poly
    var e10: Poly
    var e11: Poly

    constructor ()
      ensures Value() == Mat(ZERO, ZERO, ZERO, ZERO)
    {
      e00, e01, e10, e11 := ZERO, ZERO, ZERO, ZERO;
    }

    function Value(): Mat
      reads this
    {
      Mat(e00, e01, e10, e11)
    }

    method SetIdentity()
      modifies this
      ensures Value() == IDENTITY
    {
      e00, e01, e10, e11 := ONE, ZERO, ZERO, ONE;
    }

    method Assign(M: GF2XMatrix)
      modifies this
      ensures Value() == old(M.Value())
    {
      e00, e01, e10, e11 := M.e00, M.e01, M.e10, M.e11;
    }

    method Kill()
      modifies this
      ensures Value() == Mat(ZERO, ZERO, ZERO, ZERO)
    {
      e00, e01, e10, e11 := ZERO, ZERO, ZERO, ZERO;
    }

    /** The division step on the matrix, in both half-gcd routines: this <- EuclidStep(q) * this. */
    method PrependStep(q: Poly)
      modifies this
      ensures Value() == MatMul(EuclidStep(q), old(Value()))
    {
      StepRow(q, e00, e10);
      StepRow(q, e01, e11);
      var t := Add(e00, Mul(q, e10));
      e00 := e10;
      e10 := t;
      t := Add(e01, Mul(q, e11));
      e01 := e11;
      e11 := t;
    }
  }

  lemma StepRow(q: Poly, a: Poly, c: Poly)
    ensures Dot(ZERO, ONE, a, c) == c && Dot(ONE, q, a, c) == Add(a, Mul(q, c))
  {
    hide Mul;
    MulZero(a);
    MulOne(a);
    MulOne(c);
  }

  /** (U, V) <- M * (U, V). */
  method MulVec(U0: Poly, V0: Poly, M: GF2XMatrix) returns (U: Poly, V: Poly)
    ensures Vec(U, V) == Apply(M.Value(), Vec(U0, V0))
  {
    var R1 := Mul(M.e00, U0);
    var R2 := Mul(M.e01, V0);
    R2 := Add(R1, R2);
    R1 := Mul(M.e10, U0);
    U := R2;
    R2 := Mul(M.e11, V0);
    V := Add(R1, R2);
  }

  /** Winograd's seven products give the matrix product. */
  lemma StrassenIdentity(A: Mat, B: Mat)
    ensures
      var s0 := Add(A.m10, A.m11);
      var t0 := Add(B.m01, B.m00);
      var s1 := Add(s0, A.m00);
      var t1 := Add(B.m11, t0);
      var u1 := Add(Mul(A.m00, B.m00), Mul(s1, t1));
      var u2 := Add(u1, Mul(Add(A.m00, A.m10), Add(B.m11, B.m01)));
      var P := MatMul(A, B);
      && Add(Mul(A.m00, B.m00), Mul(A.m01, B.m10)) == P.m00
      && Add(u2, Mul(A.m11, Add(B.m10, t1))) == P.m10
      && Add(u2, Mul(s0, t0)) == P.m11
      && Add(Add(u1, Mul(s0, t0)), Mul(Add(A.m01, s1), B.m11)) == P.m01
  {
    hide Mul;
    var a, b, c, d := A.m00, A.m01, A.m10, A.m11;
    var e, f, g, h := B.m00, B.m01, B.m10, B.m11;
    var s0, t0 := Add(c, d), Add(f, e);
    Product4(c, d, f, e);
    Product4(s0, a, h, t0);
    MulAdd(a, f, e);
    AddMul(c, d, h);
    Product4(a, c, h, f);
    AddMul(b, Add(s0, a), h);
    AddMul(s0, a, h);
    MulAdd(d, g, Add(h, t0));
    MulAdd(d, h, t0);
    MulAdd(d, f, e);
  }

  method StrassenMul(C: GF2XMatrix, A: GF2XMatrix, B: GF2XMatrix)
    requires C != A && C != B
    modifies C, A, B
    ensures C.Value() == MatMul(old(A.Value()), old(B.Value()))
  {
    StrassenIdentity(A.Value(), B.Value());
    hide Mul;
    var S0 := Add(A.e10, A.e11);
    var T0 := Add(B.e01, B.e00);
    var S1 := Add(S0, A.e00);
    var T1 := Add(B.e11, T0);
    var S2 := Add(A.e00, A.e10);
    var T2 := Add(B.e11, B.e01);
    var S3 := Add(A.e01, S1);
    var T3 := Add(B.e10, T1);
    var P0 := Mul(A.e00, B.e00);
    var P1 := Mul(A.e01, B.e10);
    var P2 := Mul(S0, T0);
    var P3 := Mul(S1, T1);
    var P4 := Mul(S2, T2);
    var P5 := Mul(S3, B.e11);
    var P6 := Mul(A.e11, T3);
    C.e00 := Add(P0, P1);
    C.e01 := Add(P0, P3);
    C.e11 := Add(C.e01, P4);
    C.e10 := Add(C.e11, P6);
    C.e11 := Add(C.e11, P2);
    C.e01 := Add(C.e01, P2);
    C.e01 := Add(C.e01, P5);
    A.Kill();
    B.Kill();
  }

  /** Quadratic reduction, one division at a time. */
  method IterHalfGCD(M_out: GF2XMatrix, U0: Poly, V0: Poly, d_red: int) returns (U: Poly, V: Poly)
    requires Deg(V0) < Deg(U0)
    requires 1 <= d_red <= Deg(U0) + 1
    modifies M_out
    ensures Reduces(M_out.Value(), Vec(U0, V0), Vec(U, V))
    ensures Deg(V) <= Deg(U0) - d_red < Deg(U)
  {
    hide Deg, Mul, DivRem, Dot;
    U, V := U0, V0;
    M_out.SetIdentity();
    ReducesIdentity(Vec(U0, V0));
    var goal := Deg(U) - d_red;
    if Deg(V) <= goal {
      return;
    }
    while Deg(V) > goal
      invariant Reduces(M_out.Value(), Vec(U0, V0), Vec(U, V))
      invariant goal < Deg(U)
      decreases Deg(V) + 1
    {
      ReducesStep(Vec(U, V));
      var d := DivRem(U, V);
      ReducesCompose(EuclidStep(d.q), M_out.Value(), Vec(U0, V0), Vec(U, V), Vec(V, d.r));
      U, V := V, d.r;
      M_out.PrependStep(d.q);
    }
  }

  /** The recursive reduction.  The ghost result M is the matrix of the whole
      reduction; it is stored in M_out when the caller asks for it. */
  method HalfGCD2(M_out: GF2XMatrix, U0: Poly, V0: Poly, d_red: int, extended: bool)
      returns (U: Poly, V: Poly, ghost M: Mat)
    requires Deg(V0) < Deg(U0)
    requires 1 <= d_red <= Deg(U0) + (if extended then 1 else 0)
    modifies M_out
    ensures Reduces(M, Vec(U0, V0), Vec(U, V))
    ensures Deg(V) <= Deg(U0) - d_red
    ensures extended ==> Deg(U0) - d_red < Deg(U) && M_out.Value() == M
    decreases Deg(U0), d_red
  {
    hide Deg, Mul, DivRem, Dot, Shift, High, Low, Rem;
    U, V, M := U0, V0, IDENTITY;
    var degU := Deg(U);
    if V == {} || Deg(V) <= degU - d_red {
      ReducesIdentity(Vec(U, V));
      if extended {
        M_out.SetIdentity();
      }
      return;
    }
    if d_red <= HALFGCD_CROSSOVER {
      U, V := IterHalfGCD(M_out, U, V, d_red);
      M := M_out.Value();
      return;
    }

    var d1 := (d_red + 1) / 2;
    if !extended { d1 := Deg(U) / 4; }
    if d1 < 1 { d1 := 1; }
    if d1 >= d_red { d1 := d_red - 1; }
    var n := degU - 2 * d1 + 2;
    if n < 0 { n := 0; }

    var M1 := new GF2XMatrix();
    ghost var G1: Mat;
    U, V, G1 := ReduceTop(M1, U, V, d1, n, extended || n != 0, d_red);

    var d2 := Deg(V) - (degU - d_red);
    if V == {} || d2 <= 0 {
      M := G1;
      if extended {
        M_out.Assign(M1);
      }
      return;
    }

    ghost var w := Vec(U, V);
    ReducesStep(w);
    var d := DivRem(U, V);
    ghost var G2 := MatMul(EuclidStep(d.q), G1);
    ReducesCompose(EuclidStep(d.q), G1, Vec(U0, V0), w, Vec(V, d.r));
    U, V := V, d.r;
    if extended {
      M1.PrependStep(d.q);
    } else {
      d2 := Deg(U);
    }
    if V == {} || Deg(V) <= degU - d_red {
      M := G2;
      if extended {
        M_out.Assign(M1);
      }
      return;
    }

    n := Deg(U) - 2 * d2 + 2;
    if n < 0 || !extended { n := 0; }
    var M2 := new GF2XMatrix();
    ghost var G3: Mat;
    ghost var w2 := Vec(U, V);
    U, V, G3 := ReduceTop(M2, U, V, d2, n, extended || n != 0, d2 + 1);
    ReducesCompose(G3, G2, Vec(U0, V0), w2, Vec(U, V));
    M := MatMul(G3, G2);
    if extended {
      StrassenMul(M_out, M2, M1);
    }
  }

  /** Each of the two recursive calls: cut both polynomials at x^n, reduce the upper parts, and add back the image of
      the lower parts under the matrix found. */
  method ReduceTop(M1: GF2XMatrix, U0: Poly, V0: Poly, d1: int, n: int, matrix: bool, ghost bound: int)
      returns (U: Poly, V: Poly, ghost M: Mat)
    requires Deg(V0) < Deg(U0)
    requires 0 <= n && (n != 0 ==> n == Deg(U0) - 2 * d1 + 2 && matrix)
    requires 1 <= d1 <= Deg(U0) + (if matrix then 1 else 0)
    requires n == 0 ==> d1 < bound
    modifies M1
    ensures Reduces(M, Vec(U0, V0), Vec(U, V))
    ensures Deg(V) <= Deg(U0) - d1
    ensures matrix ==> Deg(U0) - d1 < Deg(U) && M1.Value() == M
    decreases Deg(U0), bound, 0
  {
    hide Deg, Mul, DivRem, Dot, Shift, High, Low;
    U, V := U0, V0;
    var U1, V1 := ZERO, ZERO;
    if n != 0 {
      SplitAt(U, n);
      SplitAt(V, n);
      U1 := Low(U, n);
      V1 := Low(V, n);
      U := High(U, n);
      V := High(V, n);
    }
    ghost var h := Vec(U, V);
    U, V, M := HalfGCD2(M1, U, V, d1, matrix);
    if n != 0 {
      ghost var h' := Vec(U, V);
      U := Shift(U, n);
      V := Shift(V, n);
      U1, V1 := MulVec(U1, V1, M1);
      ReducesLift(M, Vec(U0, V0), h, h', Vec(U1, V1), n, d1);
      U := Add(U, U1);
      V := Add(V, V1);
    }
  }

  /** The driver: the result is the gcd of any two inputs. */
  method FastGCD(u: Poly, v: Poly) returns (d: Poly)
    ensures d == Gcd(u, v)
  {
    hide Deg, Mul, DivRem, Dot, Rem, Gcd;
    var u1, v1 := u, v;
    GcdSwap(u, v);
    if Deg(u1) == Deg(v1) {
      if u1 == {} {
        d := ZERO;
        GcdZero();
        return;
      }
      GcdRem(v1, u1);
      v1 := Rem(v1, u1);
    } else if Deg(u1) < Deg(v1) {
      u1, v1 := v1, u1;
    }
    var M1 := new GF2XMatrix();
    while Deg(u1) > GCD_CROSSOVER && v1 != {}
      invariant Deg(v1) < Deg(u1)
      invariant Gcd(u1, v1) == Gcd(u, v)
      decreases Deg(v1) + 1
    {
      ghost var w := Vec(u1, v1);
      ghost var M: Mat;
      u1, v1, M := HalfGCD2(M1, u1, v1, Deg(u1), false);
      GcdApply(M, w);
      if v1 != {} {
        GcdRem(u1, v1);
        u1, v1 := v1, Rem(u1, v1);
      }
    }
    d := Gcd(u1, v1);
  }

  lemma GcdZero()
    ensures Gcd({}, {}) == {}
  {
  }
}
