/** Cyclic convolution of coefficient sequences, and the cutting of a polynomial
    into blocks of M bits. */
module FftConvolution {
  import opened Numbers
  import opened Polynomials
  import opened PolyDivision
  import opened Residues
  import opened FftAlgebra

  // ---------------------------------------------------------------- cyclic convolution

  /** b moved u places up, the last u entries coming round to the front. */
  function Rotate(b: seq<Poly>, u: nat): (r: seq<Poly>)
    requires u <= |b|
    ensures |r| == |b|
  {
    b[|b| - u..] + b[..|b| - u]
  }

  /** Sum over u < n of a[u] * b[s - u], the index s - u taken modulo the length. */
  function CyclicTerm(a: seq<Poly>, b: seq<Poly>, s: nat, n: nat): Poly
    requires |a| == |b| && s < |b| && n <= |a|
  {
    if n == 0 then {}
    else Add(CyclicTerm(a, b, s, n - 1), Mul(a[n - 1], Rotate(b, n - 1)[s]))
  }

  function CyclicRows(a: seq<Poly>, b: seq<Poly>, n: nat): (r: seq<Poly>)
    requires |a| == |b| && n <= |a|
    ensures |r| == |a| && forall s :: 0 <= s < |r| ==> r[s] == CyclicTerm(a, b, s, n)
  {
    seq(|a|, s requires 0 <= s < |a| => CyclicTerm(a, b, s, n))
  }

  /** The cyclic convolution of two sequences of the same length. */
  function Cyclic(a: seq<Poly>, b: seq<Poly>): (r: seq<Poly>)
    requires |a| == |b|
    ensures |r| == |a|
  {
    CyclicRows(a, b, |a|)
  }

  lemma EvalCyclicRow(a: seq<Poly>, b: seq<Poly>, n: nat, e: nat)
    requires |a| == |b| && 0 < n <= |a|
    ensures EvalAt(CyclicRows(a, b, n), e)
         == Add(EvalAt(CyclicRows(a, b, n - 1), e), Mul(a[n - 1], EvalAt(Rotate(b, n - 1), e)))
  {
    hide EvalAt, Add, Mul, Rotate;
    var r := Rotate(b, n - 1);
    var row := seq(|b|, s requires 0 <= s < |r| => Mul(a[n - 1], r[s]));
    EvalScale(r, row, a[n - 1], e);
    EvalAdd(CyclicRows(a, b, n - 1), row, CyclicRows(a, b, n), e);
  }

  /** Rotation by u multiplies the value by x^(e*u) where x^(e*K) = 1 ... */
  lemma EvalRotate(b: seq<Poly>, u: nat, e: nat, m: Poly)
    requires u <= |b| && m != {}
    requires e * |b| >= 0 && Rem(Shift(ONE, e * |b|), m) == Rem(ONE, m)
    ensures e * u >= 0 && Rem(EvalAt(Rotate(b, u), e), m) == Rem(Shift(EvalAt(b, e), e * u), m)
  {
    hide EvalAt, Add, Mul, Shift, Rem;
    RotateSplit(b, u, e);
    var hi := EvalAt(b[|b| - u..], e);
    var lo := EvalAt(b[..|b| - u], e);
    MulOne(hi);
    MulShift(hi, ONE, e * |b|);
    MulCong(hi, hi, Shift(ONE, e * |b|), ONE, m);
    RemAdd(hi, Shift(lo, e * u), m);
    RemAdd(Shift(hi, e * |b|), Shift(lo, e * u), m);
  }

  lemma AddSwapped(P: Poly, Q: Poly)
    ensures Add(P, Q) == Add(Q, P)
  {
  }

  lemma RotateSplit(b: seq<Poly>, u: nat, e: nat)
    requires u <= |b|
    ensures e * u >= 0 && e * |b| >= 0
    ensures EvalAt(Rotate(b, u), e) == Add(EvalAt(b[|b| - u..], e), Shift(EvalAt(b[..|b| - u], e), e * u))
    ensures Shift(EvalAt(b, e), e * u)
         == Add(Shift(EvalAt(b[|b| - u..], e), e * |b|), Shift(EvalAt(b[..|b| - u], e), e * u))
  {
    hide EvalAt, Add, Mul, Shift;
    var w := |b| - u;
    NonNegative(e, u);
    NonNegative(e, w);
    EvalConcat(b[w..], b[..w], e);
    EvalConcat(b[..w], b[w..], e);
    assert b[..w] + b[w..] == b;
    assert e * w + e * u == e * |b|;
    ShiftAdd(EvalAt(b[..w], e), Shift(EvalAt(b[w..], e), e * w), e * u);
    ShiftShift(EvalAt(b[w..], e), e * w, e * u);
    AddSwapped(Shift(EvalAt(b[w..], e), e * |b|), Shift(EvalAt(b[..w], e), e * u));
  }

  /** ... and everywhere if the entries that come round are zero. */
  lemma EvalRotateZero(b: seq<Poly>, u: nat, e: nat)
    requires u <= |b| && forall i :: |b| - u <= i < |b| ==> b[i] == {}
    ensures e * u >= 0 && EvalAt(Rotate(b, u), e) == Shift(EvalAt(b, e), e * u)
  {
    hide EvalAt, Add, Mul, Shift;
    RotateSplit(b, u, e);
    EvalZero(b[|b| - u..], e);
  }

  lemma {:induction false} EvalCyclicRows(a: seq<Poly>, b: seq<Poly>, n: nat, e: nat, m: Poly)
    requires |a| == |b| && n <= |a| && m != {}
    requires e * |b| >= 0 && Rem(Shift(ONE, e * |b|), m) == Rem(ONE, m)
    ensures Rem(EvalAt(CyclicRows(a, b, n), e), m) == Rem(Mul(EvalAt(a[..n], e), EvalAt(b, e)), m)
    decreases n
  {
    hide Add, Mul, Shift, Rem, Rotate;
    if n == 0 {
      EvalZero(CyclicRows(a, b, 0), e);
      MulZero(EvalAt(b, e));
    } else {
      hide EvalAt, CyclicRows;
      EvalCyclicRow(a, b, n, e);
      EvalCyclicRows(a, b, n - 1, e, m);
      EvalRotate(b, n - 1, e, m);
      var r, v := EvalAt(Rotate(b, n - 1), e), EvalAt(b, e);
      MulCong(a[n - 1], a[n - 1], r, Shift(v, e * (n - 1)), m);
      EvalPrefix(a, v, n, e);
      RemAdd(EvalAt(CyclicRows(a, b, n - 1), e), Mul(a[n - 1], r), m);
      RemAdd(Mul(EvalAt(a[..n - 1], e), v), Mul(a[n - 1], Shift(v, e * (n - 1))), m);
    }
  }

  lemma EvalPrefix(a: seq<Poly>, v: Poly, n: nat, e: nat)
    requires 0 < n <= |a|
    ensures e * (n - 1) >= 0
    ensures Mul(EvalAt(a[..n], e), v)
         == Add(Mul(EvalAt(a[..n - 1], e), v), Mul(a[n - 1], Shift(v, e * (n - 1))))
  {
    hide EvalAt, Add, Mul, Shift;
    EvalAppend(a[..n - 1], a[n - 1], e);
    assert a[..n - 1] + [a[n - 1]] == a[..n];
    AddMul(EvalAt(a[..n - 1], e), Shift(a[n - 1], e * (n - 1)), v);
    ShiftMul(a[n - 1], v, e * (n - 1));
    MulShift(a[n - 1], v, e * (n - 1));
  }

  /** The cyclic convolution multiplies values wherever x^(e*K) = 1. */
  lemma EvalCyclic(a: seq<Poly>, b: seq<Poly>, e: nat, m: Poly)
    requires |a| == |b| && m != {}
    requires e * |b| >= 0 && Rem(Shift(ONE, e * |b|), m) == Rem(ONE, m)
    ensures Rem(EvalAt(Cyclic(a, b), e), m) == Rem(Mul(EvalAt(a, e), EvalAt(b, e)), m)
  {
    hide EvalAt, Add, Mul, Shift, Rem;
    EvalCyclicRows(a, b, |a|, e, m);
    assert a[..|a|] == a;
  }

  /** No product of coefficients comes round the end. */
  ghost predicate NoWrap(a: seq<Poly>, b: seq<Poly>)
    requires |a| == |b|
  {
    forall u, v :: 0 <= u < |a| && 0 <= v < |b| && |a| <= u + v ==> a[u] == {} || b[v] == {}
  }

  lemma {:induction false} EvalCyclicRowsExact(a: seq<Poly>, b: seq<Poly>, n: nat, e: nat)
    requires |a| == |b| && n <= |a| && NoWrap(a, b)
    ensures EvalAt(CyclicRows(a, b, n), e) == Mul(EvalAt(a[..n], e), EvalAt(b, e))
    decreases n
  {
    hide Add, Mul, Shift, Rotate;
    if n == 0 {
      EvalZero(CyclicRows(a, b, 0), e);
      MulZero(EvalAt(b, e));
    } else {
      hide EvalAt, CyclicRows;
      EvalCyclicRow(a, b, n, e);
      EvalCyclicRowsExact(a, b, n - 1, e);
      var v := EvalAt(b, e);
      EvalPrefix(a, v, n, e);
      if a[n - 1] == {} {
        MulZero(EvalAt(Rotate(b, n - 1), e));
        MulZero(Shift(v, e * (n - 1)));
      } else {
        EvalRotateZero(b, n - 1, e);
      }
    }
  }

  /** Without wrap-around the cyclic convolution gives the exact product. */
  lemma EvalCyclicExact(a: seq<Poly>, b: seq<Poly>, e: nat)
    requires |a| == |b| && NoWrap(a, b)
    ensures EvalAt(Cyclic(a, b), e) == Mul(EvalAt(a, e), EvalAt(b, e))
  {
    hide EvalAt, Add, Mul, Shift;
    EvalCyclicRowsExact(a, b, |a|, e);
    assert a[..|a|] == a;
  }

  // ---------------------------------------------------------------- blocks of M bits

  /** The K lowest blocks of M coefficients of a. */
  function Chunks(a: Poly, M: nat, K: nat): (r: seq<Poly>)
    ensures |r| == K
    decreases K
  {
    if K == 0 then [] else [Low(a, M)] + Chunks(High(a, M), M, K - 1)
  }

  lemma {:induction false} EvalChunks(a: Poly, M: nat, K: nat)
    requires 0 < M && K * M >= 0 && Deg(a) < K * M
    ensures EvalAt(Chunks(a, M, K), M) == a
    decreases K
  {
    hide Shift, Low, High, Deg;
    if K > 0 {
      hide Add, EvalAt;
      SplitAt(a, M);
      ProductStep(K, M);
      EvalChunks(High(a, M), M, K - 1);
      var r := Chunks(a, M, K);
      assert r[0] == Low(a, M) && r[1..] == Chunks(High(a, M), M, K - 1);
      EvalHead(r, M);
      var h := Shift(High(a, M), M);
      assert Add(h, Low(a, M)) == Add(Low(a, M), h);
    }
  }

  lemma ProductStep(K: nat, M: nat)
    requires 0 < K
    ensures K * M == (K - 1) * M + M && (K - 1) * M >= 0
  {
  }

  lemma {:induction false} ChunkAt(a: Poly, M: nat, K: nat, t: nat)
    requires t < K
    ensures t * M >= 0 && Chunks(a, M, K)[t] == Low(High(a, t * M), M)
    decreases t
  {
    hide Low, High, Deg, Add, Shift;
    if t == 0 {
      assert High(a, 0) == a;
    } else {
      ProductStep(t, M);
      ChunkAt(High(a, M), M, K - 1, t - 1);
      HighHigh(a, M, (t - 1) * M);
    }
  }

  lemma ChunkBits(a: Poly, M: nat, K: nat, t: nat)
    requires t < K && 0 < M
    ensures Deg(Chunks(a, M, K)[t]) < M
    ensures t * M >= 0 && (Deg(a) < t * M ==> Chunks(a, M, K)[t] == {})
  {
    hide Low, High, Deg, Add, Shift, Chunks;
    ChunkAt(a, M, K, t);
    SplitAt(a, t * M);
    SplitAt(High(a, t * M), M);
  }

  lemma {:induction false} CyclicDegree(a: seq<Poly>, b: seq<Poly>, s: nat, n: nat, M: nat)
    requires |a| == |b| && s < |b| && n <= |a| && 0 < M
    requires forall i :: 0 <= i < |a| ==> Deg(a[i]) < M && Deg(b[i]) < M
    ensures Deg(CyclicTerm(a, b, s, n)) < 2 * M - 1
    decreases n
  {
    hide Add, Mul, Deg;
    if n > 0 {
      CyclicDegree(a, b, s, n - 1, M);
      DegMul(a[n - 1], Rotate(b, n - 1)[s]);
      DegAdd(CyclicTerm(a, b, s, n - 1), Mul(a[n - 1], Rotate(b, n - 1)[s]));
    }
  }
}
