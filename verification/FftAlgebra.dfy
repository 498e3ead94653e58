/** The algebra behind gf2x-1.1/fft.c: sequences of coefficients evaluated at a
    power of x, modulo x^(2N) + x^N + 1, where x^N is a primitive cube root of 1. */
module FftAlgebra {
  import opened Numbers
  import opened Polynomials
  import opened PolyDivision
  import opened Residues

  // ---------------------------------------------------------------- the coefficient ring

  /** x^(2N) + x^N + 1. */
  function Phi(N: nat): (p: Poly)
    requires 0 < N
    ensures p != {} && Deg(p) == 2 * N
  {
    DegIs({0, N, 2 * N}, 2 * N);
    {0, N, 2 * N}
  }

  /** x^(3N) = 1: Phi(N) divides x^(3N) + 1. */
  lemma PhiPeriod(N: nat)
    requires 0 < N
    ensures Rem(Shift(ONE, 3 * N), Phi(N)) == Rem(ONE, Phi(N))
  {
    hide Mul, Shift, Rem;
    var p := Phi(N);
    AddMul({N}, ONE, p);
    MonomialMul(N, p);
    MulOne(p);
    assert Add(Shift(ONE, 3 * N), ONE) == Add(Shift(p, N), p);
    RemMultiple(Add({N}, ONE), p);
    RemAdd(Shift(ONE, 3 * N), ONE, p);
    AddIsZero(Rem(Shift(ONE, 3 * N), p), Rem(ONE, p));
  }

  lemma ModEqual(a: int, b: int, n: int, z: int)
    requires 0 < n && a == b + n * z
    ensures a % n == b % n
  {
    assert a == n * (b / n + z) + b % n;
    ModUnique(a, n, b / n + z, b % n);
  }

  /** Exponents count modulo 3N. */
  lemma ShiftExponent(a: Poly, e: nat, f: nat, N: nat)
    requires 0 < N && e % (3 * N) == f % (3 * N)
    ensures Rem(Shift(a, e), Phi(N)) == Rem(Shift(a, f), Phi(N))
  {
    hide Shift, Rem, Phi;
    PhiPeriod(N);
    ShiftModPeriod(a, 3 * N, e, Phi(N));
    ShiftModPeriod(a, 3 * N, f, Phi(N));
  }

  // ---------------------------------------------------------------- evaluation at x^e

  /** Sum of s[t] * x^(e*t). */
  function EvalAt(s: seq<Poly>, e: nat): Poly {
    if s == [] then {} else Add(s[0], Shift(EvalAt(s[1..], e), e))
  }

  lemma {:induction false} EvalAppend(s: seq<Poly>, v: Poly, e: nat)
    ensures e * |s| >= 0 && EvalAt(s + [v], e) == Add(EvalAt(s, e), Shift(v, e * |s|))
  {
    hide Shift;
    if s == [] {
      assert [] + [v] == [v];
      assert [v][1..] == [];
      assert EvalAt([], e) == {};
    } else {
      EvalAppend(s[1..], v, e);
      assert (s + [v])[1..] == s[1..] + [v];
      assert e * |s| == e * |s[1..]| + e;
    }
  }

  lemma {:induction false} EvalConcat(s: seq<Poly>, t: seq<Poly>, e: nat)
    ensures e * |s| >= 0 && EvalAt(s + t, e) == Add(EvalAt(s, e), Shift(EvalAt(t, e), e * |s|))
  {
    hide Shift;
    if s == [] {
      assert [] + t == t;
      assert Shift(EvalAt(t, e), 0) == EvalAt(t, e);
    } else {
      EvalConcat(s[1..], t, e);
      assert (s + t)[1..] == s[1..] + t;
      assert e * |s| == e * |s[1..]| + e;
    }
  }

  lemma {:induction false} EvalAdd(s: seq<Poly>, t: seq<Poly>, u: seq<Poly>, e: nat)
    requires |s| == |t| == |u| && forall i :: 0 <= i < |s| ==> u[i] == Add(s[i], t[i])
    ensures EvalAt(u, e) == Add(EvalAt(s, e), EvalAt(t, e))
  {
    hide Shift, Add;
    if s != [] {
      EvalAdd(s[1..], t[1..], u[1..], e);
    }
  }

  lemma {:induction false} EvalScale(s: seq<Poly>, u: seq<Poly>, a: Poly, e: nat)
    requires |s| == |u| && forall i :: 0 <= i < |s| ==> u[i] == Mul(a, s[i])
    ensures EvalAt(u, e) == Mul(a, EvalAt(s, e))
  {
    hide Shift, Add, Mul;
    if s == [] {
      MulZero(a);
    } else {
      EvalScale(s[1..], u[1..], a, e);
      MulAdd(a, s[0], Shift(EvalAt(s[1..], e), e));
      MulShift(a, EvalAt(s[1..], e), e);
    }
  }

  lemma {:induction false} EvalZero(s: seq<Poly>, e: nat)
    requires forall i :: 0 <= i < |s| ==> s[i] == {}
    ensures EvalAt(s, e) == {}
  {
    if s != [] {
      EvalZero(s[1..], e);
    }
  }

  /** Congruent coefficients and exponents give congruent values. */
  lemma {:induction false} EvalCong(s: seq<Poly>, t: seq<Poly>, e: nat, f: nat, N: nat)
    requires 0 < N && |s| == |t| && e % (3 * N) == f % (3 * N)
    requires forall i :: 0 <= i < |s| ==> Rem(s[i], Phi(N)) == Rem(t[i], Phi(N))
    ensures Rem(EvalAt(s, e), Phi(N)) == Rem(EvalAt(t, f), Phi(N))
  {
    hide Shift, Add, Rem, Phi;
    if s != [] {
      EvalCong(s[1..], t[1..], e, f, N);
      var a, b := EvalAt(s[1..], e), EvalAt(t[1..], f);
      ShiftCong(a, b, e, Phi(N));
      ShiftExponent(b, e, f, N);
      RemAdd(s[0], Shift(a, e), Phi(N));
      RemAdd(t[0], Shift(b, f), Phi(N));
    }
  }

  // ---------------------------------------------------------------- decimation in time

  /** The elements at the positions congruent to c modulo 3. */
  function Every3<T>(s: seq<T>, c: nat): (r: seq<T>)
    requires |s| % 3 == 0 && c < 3
    ensures |r| == |s| / 3 && forall i :: 0 <= i < |r| ==> r[i] == s[3 * i + c]
  {
    seq(|s| / 3, i requires 0 <= i < |s| / 3 => s[3 * i + c])
  }

  lemma {:induction false} EvalDecimate(s: seq<Poly>, e: nat)
    requires |s| % 3 == 0
    ensures EvalAt(s, e)
         == Add(Add(EvalAt(Every3(s, 0), 3 * e), Shift(EvalAt(Every3(s, 1), 3 * e), e)),
                Shift(EvalAt(Every3(s, 2), 3 * e), 2 * e))
    decreases |s|
  {
    hide Shift, Add, Every3;
    if s != [] {
      var t := s[3..];
      EvalDecimate(t, e);
      forall c: nat | c < 3
        ensures Every3(s, c)[1..] == Every3(t, c)
      {
      }
      assert s[1..][1..][1..] == t;
      Regroup(s[0], s[1], s[2], EvalAt(Every3(t, 0), 3 * e), EvalAt(Every3(t, 1), 3 * e),
              EvalAt(Every3(t, 2), 3 * e), e);
      assert EvalAt(s, e) == Add(s[0], Shift(Add(s[1], Shift(Add(s[2], Shift(EvalAt(t, e), e)), e)), e)) by {
        assert EvalAt(s[1..], e) == Add(s[1], Shift(EvalAt(s[1..][1..], e), e));
        assert EvalAt(s[1..][1..], e) == Add(s[2], Shift(EvalAt(t, e), e));
      }
    }
  }

  lemma Regroup(a: Poly, b: Poly, c: Poly, p: Poly, q: Poly, r: Poly, e: nat)
    ensures Add(a, Shift(Add(b, Shift(Add(c, Shift(Add(Add(p, Shift(q, e)), Shift(r, 2 * e)), e)), e)), e))
         == Add(Add(Add(a, Shift(p, 3 * e)), Shift(Add(b, Shift(q, 3 * e)), e)),
                Shift(Add(c, Shift(r, 3 * e)), 2 * e))
  {
    hide Shift, Add;
  }

  // ---------------------------------------------------------------- geometric sums

  predicate IsPow3(K: nat) {
    K == 1 || (K % 3 == 0 && K > 0 && IsPow3(K / 3))
  }

  /** Sum of x^(f*t) over t < n. */
  function GeoSum(f: nat, n: nat): Poly {
    if n == 0 then {} else Add(ONE, Shift(GeoSum(f, n - 1), f))
  }

  lemma {:induction false} GeoSumSplit(f: nat, n: nat, m: nat)
    ensures f * n >= 0 && GeoSum(f, n + m) == Add(GeoSum(f, n), Shift(GeoSum(f, m), f * n))
    decreases n
  {
    hide Shift, Add;
    if n == 0 {
      assert Shift(GeoSum(f, m), 0) == GeoSum(f, m);
    } else {
      GeoSumSplit(f, n - 1, m);
      assert f * n == f * (n - 1) + f;
    }
  }

  lemma {:induction false} GeoSumCong(f: nat, g: nat, n: nat, N: nat)
    requires 0 < N && f % (3 * N) == g % (3 * N)
    ensures Rem(GeoSum(f, n), Phi(N)) == Rem(GeoSum(g, n), Phi(N))
    decreases n
  {
    hide Shift, Add, Rem, Phi;
    if n > 0 {
      GeoSumCong(f, g, n - 1, N);
      ShiftCong(GeoSum(f, n - 1), GeoSum(g, n - 1), f, Phi(N));
      ShiftExponent(GeoSum(g, n - 1), f, g, N);
      RemAdd(ONE, Shift(GeoSum(f, n - 1), f), Phi(N));
      RemAdd(ONE, Shift(GeoSum(g, n - 1), g), Phi(N));
    }
  }

  lemma {:induction false} GeoSumOnes(n: nat)
    ensures GeoSum(0, n) == if n % 2 == 1 then ONE else {}
  {
    hide Shift, Add;
    if n > 0 {
      GeoSumOnes(n - 1);
      assert Shift(GeoSum(0, n - 1), 0) == GeoSum(0, n - 1);
    }
  }

  lemma {:induction false} Pow3Odd(K: nat)
    requires IsPow3(K)
    ensures K % 2 == 1
  {
    if K > 1 {
      Pow3Odd(K / 3);
    }
  }

  /** Three consecutive thirds of a geometric sum. */
  lemma GeoSumThirds(f: nat, k: nat, g: nat)
    requires g == f * k
    ensures GeoSum(f, 3 * k)
         == Add(Add(GeoSum(f, k), Shift(GeoSum(f, k), g)), Shift(GeoSum(f, k), 2 * g))
  {
    hide Shift, Add;
    GeoSumSplit(f, k, 2 * k);
    GeoSumSplit(f, k, k);
    var s := GeoSum(f, k);
    assert Shift(Add(s, Shift(s, g)), g) == Add(Shift(s, g), Shift(s, 2 * g));
  }

  /** 1 + x^g + x^(2g) = 0 when g is N times a number that 3 does not divide. */
  lemma CubeRootSum(s: Poly, g: nat, d: nat, N: nat)
    requires 0 < N && g == N * d && d % 3 != 0
    ensures Rem(Add(Add(s, Shift(s, g)), Shift(s, 2 * g)), Phi(N)) == {}
  {
    hide Shift, Add, Rem;
    var P := Phi(N);
    var c := d % 3;
    assert d == 3 * (d / 3) + c;
    assert g == N * c + 3 * N * (d / 3) by {
      assert N * d == N * c + N * (3 * (d / 3));
    }
    ModEqual(g, N * c, 3 * N, d / 3);
    ModEqual(2 * g, N * (3 - c), 3 * N, 2 * (d / 3) + c - 1);
    ShiftExponent(s, g, N * c, N);
    ShiftExponent(s, 2 * g, N * (3 - c), N);
    RemAdd(Add(s, Shift(s, g)), Shift(s, 2 * g), P);
    RemAdd(s, Shift(s, g), P);
    RemAdd(Add(s, Shift(s, N)), Shift(s, 2 * N), P);
    RemAdd(s, Shift(s, N), P);
    PhiTimes(s, N);
    RemMultiple(s, P);
  }

  lemma PhiTimes(s: Poly, N: nat)
    requires 0 < N
    ensures Mul(s, Phi(N)) == Add(Add(s, Shift(s, N)), Shift(s, 2 * N))
  {
    hide Shift, Add, Mul;
    var one: Poly := ONE;
    assert Phi(N) == Add(Add(one, Shift(one, N)), Shift(one, 2 * N));
    MulAdd(s, Add(one, Shift(one, N)), Shift(one, 2 * N));
    MulAdd(s, one, Shift(one, N));
    MulShift(s, one, N);
    MulShift(s, one, 2 * N);
    MulOne(s);
  }

  lemma FullPeriodSum(K: nat, f: nat, N: nat)
    requires IsPow3(K) && 0 < N && f % (3 * N) == 0
    ensures Rem(GeoSum(f, K), Phi(N)) == Rem(ONE, Phi(N))
  {
    hide Shift, Add, Rem, Phi, GeoSum;
    GeoSumCong(f, 0, K, N);
    GeoSumOnes(K);
    Pow3Odd(K);
  }

  lemma ExponentMultiple(K: nat, j: nat, d: nat, N: nat)
    requires 0 < K && 0 < N && j * K == 3 * N && d % K == 0
    ensures (j * d) % (3 * N) == 0
  {
    var q := d / K;
    assert d == K * q;
    assert j * (K * q) == j * K * q;
    ModUnique(j * d, 3 * N, q, 0);
  }

  lemma ExponentThird(K: nat, j: nat, d: nat, N: nat)
    requires j * K == 3 * N && K % 3 == 0
    ensures j * (K / 3) == N && (j * d) * (K / 3) == N * d
  {
    var k := K / 3;
    assert j * (3 * k) == 3 * (j * k);
    assert j * d * k == j * k * d;
  }

  /** Orthogonality: for a root x^j of order K = 3^e with j*K = 3N, the powers of
      x^(j*d) over a full period sum to 1 if K divides d and to 0 otherwise. */
  lemma {:induction false} Orthogonality(K: nat, j: nat, d: nat, N: nat)
    requires IsPow3(K) && 0 < N && j * K == 3 * N
    ensures Rem(GeoSum(j * d, K), Phi(N)) == if d % K == 0 then Rem(ONE, Phi(N)) else {}
    decreases K
  {
    hide Shift, Add, Rem, Phi, GeoSum;
    if d % K == 0 {
      ExponentMultiple(K, j, d, N);
      FullPeriodSum(K, j * d, N);
    } else {
      var k := K / 3;
      ExponentThird(K, j, d, N);
      GeoSumThirds(j * d, k, N * d);
      if d % 3 != 0 {
        CubeRootSum(GeoSum(j * d, k), N * d, d, N);
      } else {
        OrthogonalityStep(K, j, d, N);
        Orthogonality(k, 3 * j, d / 3, N);
        TripleSum(GeoSum(j * d, k), N * d, N);
      }
    }
  }

  lemma OrthogonalityStep(K: nat, j: nat, d: nat, N: nat)
    requires 0 < K && K % 3 == 0 && d % 3 == 0 && d % K != 0 && 0 < N && j * K == 3 * N
    ensures (3 * j) * (K / 3) == 3 * N && (3 * j) * (d / 3) == j * d
    ensures (N * d) % (3 * N) == 0 && (d / 3) % (K / 3) != 0
  {
    var e := d / 3;
    assert N * d == (3 * N) * e;
    ModUnique(N * d, 3 * N, e, 0);
    if e % (K / 3) == 0 {
      DivisibleThirds(e, K / 3);
    }
  }

  lemma DivisibleThirds(d: nat, k: nat)
    requires 0 < k && d % k == 0
    ensures (3 * d) % (3 * k) == 0
  {
    assert d == k * (d / k);
    assert 3 * d == (3 * k) * (d / k);
    ModUnique(3 * d, 3 * k, d / k, 0);
  }

  /** Three equal terms add up to one. */
  lemma TripleSum(s: Poly, g: nat, N: nat)
    requires 0 < N && g % (3 * N) == 0
    ensures Rem(Add(Add(s, Shift(s, g)), Shift(s, 2 * g)), Phi(N)) == Rem(s, Phi(N))
  {
    hide Shift, Add, Rem, Phi;
    var P := Phi(N);
    ModEqual(2 * g, 0, 3 * N, 2 * (g / (3 * N)));
    ShiftExponent(s, g, 0, N);
    ShiftExponent(s, 2 * g, 0, N);
    assert Shift(s, 0) == s;
    RemAdd(Add(s, Shift(s, g)), Shift(s, 2 * g), P);
    RemAdd(s, Shift(s, g), P);
  }

  // ---------------------------------------------------------------- the inverse transform

  /** Sum over t < n of x^(f*t) times the value of a at x^(j*t). */
  function DoubleSum(a: seq<Poly>, f: nat, j: nat, n: nat): Poly {
    if n == 0 then {}
    else Add(DoubleSum(a, f, j, n - 1), Shift(EvalAt(a, j * (n - 1)), f * (n - 1)))
  }

  lemma {:induction false} DoubleSumIsEval(a: seq<Poly>, X: seq<Poly>, f: nat, j: nat)
    requires forall t: nat :: t < |X| ==> j * t >= 0 && X[t] == EvalAt(a, j * t)
    ensures EvalAt(X, f) == DoubleSum(a, f, j, |X|)
    decreases |X|
  {
    hide Shift, Add;
    if X != [] {
      var n := |X| - 1;
      DoubleSumIsEval(a, X[..n], f, j);
      EvalAppend(X[..n], X[n], f);
      assert X[..n] + [X[n]] == X;
    }
  }

  /** The contribution of the first coefficient is a geometric sum. */
  lemma {:induction false} DoubleSumHead(a: seq<Poly>, f: nat, j: nat, n: nat)
    requires a != []
    ensures DoubleSum(a, f, j, n) == Add(Mul(a[0], GeoSum(f, n)), DoubleSum(a[1..], f + j, j, n))
    decreases n
  {
    hide Shift, Mul, EvalAt;
    if n == 0 {
      MulZero(a[0]);
    } else {
      hide Add, GeoSum;
      DoubleSumHead(a, f, j, n - 1);
      var e, g := j * (n - 1), f * (n - 1);
      assert (f + j) * (n - 1) == g + e;
      GeoSumTop(a[0], f, n, g);
      ShiftedHead(a, e, g);
      var p, q := Mul(a[0], GeoSum(f, n - 1)), DoubleSum(a[1..], f + j, j, n - 1);
      RegroupPairs(p, q, Shift(a[0], g), Shift(EvalAt(a[1..], e), g + e));
    }
  }

  lemma GeoSumTop(v: Poly, f: nat, n: nat, g: nat)
    requires 0 < n && g == f * (n - 1)
    ensures Mul(v, GeoSum(f, n)) == Add(Mul(v, GeoSum(f, n - 1)), Shift(v, g))
  {
    hide Shift, Add, Mul, GeoSum;
    GeoSumSplit(f, n - 1, 1);
    GeoSumOne(f);
    MulAdd(v, GeoSum(f, n - 1), Shift(ONE, g));
    MulShift(v, ONE, g);
    MulOne(v);
  }

  lemma ShiftedHead(a: seq<Poly>, e: nat, g: nat)
    requires a != []
    ensures Shift(EvalAt(a, e), g) == Add(Shift(a[0], g), Shift(EvalAt(a[1..], e), g + e))
  {
    hide Shift, Add, EvalAt;
    EvalHead(a, e);
  }

  lemma GeoSumOne(f: nat)
    ensures GeoSum(f, 1) == ONE
  {
    hide Shift;
    assert Shift(GeoSum(f, 0), f) == {};
  }

  lemma EvalHead(a: seq<Poly>, e: nat)
    requires a != []
    ensures EvalAt(a, e) == Add(a[0], Shift(EvalAt(a[1..], e), e))
  {
  }

  lemma RegroupPairs(p: Poly, q: Poly, r: Poly, s: Poly)
    ensures Add(Add(p, q), Add(r, s)) == Add(Add(p, r), Add(q, s))
  {
    hide Add;
  }

  /** The only coefficient that survives is the one whose index cancels d. */
  lemma {:induction false} DoubleSumPicks(a: seq<Poly>, d: nat, j: nat, K: nat, N: nat)
    requires IsPow3(K) && 0 < N && j * K == 3 * N && |a| <= K
    ensures var z := (K - d % K) % K;
      j * d >= 0 &&
      Rem(DoubleSum(a, j * d, j, K), Phi(N)) == if z < |a| then Rem(a[z], Phi(N)) else {}
    decreases |a|
  {
    hide Shift, Add, Mul, EvalAt, GeoSum, Rem, Phi;
    var P := Phi(N);
    var f := j * d;
    if a == [] {
      DoubleSumEmpty(f, j, K);
      RemZero(P);
    } else {
      DoubleSumHead(a, f, j, K);
      assert j * (d + 1) == f + j;
      DoubleSumPicks(a[1..], d + 1, j, K, N);
      RemAdd(Mul(a[0], GeoSum(f, K)), DoubleSum(a[1..], f + j, j, K), P);
      Orthogonality(K, j, d, N);
      ComplementStep(d, K);
      MulOne(a[0]);
      MulZero(a[0]);
      RemZero(P);
      if d % K == 0 {
        MulCong(a[0], a[0], GeoSum(f, K), ONE, P);
        assert Add(Rem(a[0], P), {}) == Rem(a[0], P);
      } else {
        MulCong(a[0], a[0], GeoSum(f, K), {}, P);
        var r := Rem(DoubleSum(a[1..], f + j, j, K), P);
        assert Add({}, r) == r;
      }
    }
  }

  lemma RemZero(m: Poly)
    requires m != {}
    ensures Rem({}, m) == {}
  {
    hide Rem;
    RemSmall({}, m);
  }

  lemma {:induction false} DoubleSumEmpty(f: nat, j: nat, n: nat)
    ensures DoubleSum([], f, j, n) == {}
    decreases n
  {
    hide Shift;
    if n > 0 {
      DoubleSumEmpty(f, j, n - 1);
      assert EvalAt([], j * (n - 1)) == {};
      assert Shift({}, f * (n - 1)) == {};
    }
  }

  lemma ComplementStep(d: nat, K: nat)
    requires 0 < K
    ensures var z, z' := (K - d % K) % K, (K - (d + 1) % K) % K;
      if d % K == 0 then z == 0 && z' == K - 1 else 0 < z < K && z' == z - 1
  {
    var c := d % K;
    if c == K - 1 {
      ModUnique(d + 1, K, d / K + 1, 0);
      if K == 1 { ModUnique(1, K, 1, 0); } else { ModUnique(1, K, 0, 1); }
      ModUnique(K, K, 1, 0);
    } else {
      ModUnique(d + 1, K, d / K, c + 1);
      ModUnique(K - c - 1, K, 0, K - c - 1);
      if c == 0 { ModUnique(K, K, 1, 0); } else { ModUnique(K - c, K, 0, K - c); }
    }
  }

  /** The transform with root x^(3N-j) undoes the transform with root x^j, and
      no division by the length is needed. */
  lemma InverseTransform(a: seq<Poly>, X: seq<Poly>, j: nat, K: nat, N: nat, i: nat)
    requires IsPow3(K) && 0 < N && j * K == 3 * N && |a| == |X| == K && i < K && j <= 3 * N
    requires forall t: nat :: t < K ==> j * t >= 0 && Rem(X[t], Phi(N)) == Rem(EvalAt(a, j * t), Phi(N))
    ensures (3 * N - j) * i >= 0 && Rem(EvalAt(X, (3 * N - j) * i), Phi(N)) == Rem(a[i], Phi(N))
  {
    hide Shift, Add, Mul, EvalAt, GeoSum, Rem, Phi, DoubleSum;
    var d := InverseIndex(j, K, N, i);
    var Y := seq(K, t requires 0 <= t < K => NonNegative(j, t); EvalAt(a, j * t));
    forall t: nat | t < K
      ensures j * t >= 0 && Y[t] == EvalAt(a, j * t)
    {
      NonNegative(j, t);
    }
    EvalCong(X, Y, j * d, j * d, N);
    DoubleSumIsEval(a, Y, j * d, j);
    DoubleSumPicks(a, d, j, K, N);
  }

  lemma InverseIndex(j: nat, K: nat, N: nat, i: nat) returns (d: nat)
    requires j * K == 3 * N && i < K && j <= 3 * N
    ensures (3 * N - j) * i == j * d && (K - d % K) % K == i
  {
    d := (K - 1) * i;
    assert (j * K - j) * i == j * ((K - 1) * i);
    Negated(d, K, i);
  }

  lemma Negated(d: nat, K: nat, i: nat)
    requires i < K && d == (K - 1) * i
    ensures (K - d % K) % K == i
  {
    assert d == K * i - i;
    if i == 0 {
      ModUnique(K, K, 1, 0);
      ModUnique(0, K, 0, 0);
    } else {
      assert d == K * (i - 1) + (K - i);
      ModUnique(d, K, i - 1, K - i);
      ModUnique(i, K, 0, i);
    }
  }
}
