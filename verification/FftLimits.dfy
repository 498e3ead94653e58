/** Where gf2x_mul_fft of gf2x-1.1/fft.c goes wrong: with residues of less than 64 bits
    the loss of bits in Lshift reaches the product.  The product of x^M and 1 shows it for every
    length of the transform. */
module FftLimits {
  import opened Numbers
  import opened Polynomials
  import opened PolyDivision
  import opened Residues
  import opened FftAlgebra
  import opened FftConvolution
  import opened Transform
  import opened FftMul
  import opened Blocks
  import opened Words
  import opened ResidueWords

  // ---------------------------------------------------------------- when residues are short

  lemma {:induction false} Powers(K: nat)
    requires IsPow3(K)
    ensures K in {1, 3, 9, 27, 81} || K >= 243
    decreases K
  {
    if K > 1 {
      Powers(K / 3);
    }
  }

  lemma ProductAtLeast(q: nat, k: nat)
    requires 0 < q && 0 < k
    ensures k <= q * k
  {
  }

  /** Only transforms of length 81 have short residues. */
  lemma ShortResidues(sc: nat, K: nat)
    requires MUL_FFT_THRESHOLD <= sc && IsPow3(K) && 3 <= K
    ensures ResidueSize(Ceil(64 * sc, K), K) < 64 <==> K == 81 && sc <= 68
  {
    Powers(K);
    var M := Ceil(64 * sc, K);
    Sizes(M, K);
    if K >= 243 {
      ProductAtLeast(RootExponent(M, K), K / 3);
    }
  }

  // ---------------------------------------------------------------- the transform on sparse inputs

  ghost predicate Zeros(s: seq<Poly>) {
    forall i :: 0 <= i < |s| ==> s[i] == {}
  }

  /** v at position 0, zeros behind. */
  ghost predicate Delta(s: seq<Poly>, v: Poly) {
    0 < |s| && s[0] == v && forall i :: 0 < i < |s| ==> s[i] == {}
  }

  lemma LshiftZero(k: nat, N: nat)
    requires 0 < N
    ensures Lshift({}, k, N) == {}
  {
    hide Deg, Rem, Phi;
    assert Shift({}, k) == {};
    DegAdd({}, {});
    RemSmall({}, Phi(N));
    if k % (3 * N) <= 2 * N {
      assert Low(High({}, 2 * N - k % (3 * N)), N) == {};
    }
  }

  lemma {:induction false} CodedZeros(s: seq<Poly>, j: nat, Np: nat)
    requires IsPow3(|s|) && 0 < Np && Zeros(s)
    ensures Zeros(Coded(s, j, Np))
    decreases |s|
  {
    hide Coded, Every3, Lshift;
    if |s| == 1 {
      assert s == [s[0]];
      CodedOne(s[0], j, Np);
    } else {
      var e := (3 * j) % (3 * Np);
      CodedZeros(Every3(s, 0), e, Np);
      CodedZeros(Every3(s, 1), e, Np);
      CodedZeros(Every3(s, 2), e, Np);
      forall t | 0 <= t < |s|
        ensures Coded(s, j, Np)[t] == {}
      {
        CodedStep(s, j, t, Np);
        ThirdFirst({}, PowerOf(|s| / 3, t), j, Np);
      }
    }
  }

  lemma ThirdFirst(v: Poly, r: nat, j: nat, Np: nat)
    requires 0 < Np
    ensures Third(v, {}, {}, r, j, Np) == v
  {
    hide Lshift;
    LshiftZero(r * j, Np);
    LshiftZero(2 * r * j, Np);
  }

  lemma ThirdSecond(v: Poly, r: nat, j: nat, Np: nat)
    requires 0 < Np
    ensures r * j >= 0 && Third({}, v, {}, r, j, Np) == Lshift(v, r * j, Np)
  {
    hide Lshift;
    LshiftZero(2 * r * j, Np);
  }

  lemma {:induction false} CodedDelta(s: seq<Poly>, v: Poly, j: nat, Np: nat)
    requires IsPow3(|s|) && 0 < Np && Delta(s, v)
    ensures forall t :: 0 <= t < |s| ==> Coded(s, j, Np)[t] == v
    decreases |s|
  {
    hide Coded, Every3, Third, PowerOf;
    if |s| == 1 {
      assert s == [s[0]];
      CodedOne(s[0], j, Np);
    } else {
      var e := (3 * j) % (3 * Np);
      CodedDelta(Every3(s, 0), v, e, Np);
      CodedZeros(Every3(s, 1), e, Np);
      CodedZeros(Every3(s, 2), e, Np);
      forall t | 0 <= t < |s|
        ensures Coded(s, j, Np)[t] == v
      {
        CodedStep(s, j, t, Np);
        ThirdFirst(v, PowerOf(|s| / 3, t), j, Np);
      }
    }
  }

  /** 1 at position 1: the powers of the root, as Lshift computes them. */
  lemma CodedShifted(s: seq<Poly>, j: nat, Np: nat, t: nat)
    requires IsPow3(|s|) && |s| > 1 && 0 < Np && t < |s|
    requires s[1] == ONE && forall i :: 0 <= i < |s| && i != 1 ==> s[i] == {}
    ensures Rev(|s|, t) * j >= 0 && Coded(s, j, Np)[t] == Lshift(ONE, Rev(|s|, t) * j, Np)
  {
    hide Coded, Every3, Third, Lshift;
    var e := (3 * j) % (3 * Np);
    CodedZeros(Every3(s, 0), e, Np);
    CodedDelta(Every3(s, 1), ONE, e, Np);
    CodedZeros(Every3(s, 2), e, Np);
    CodedStep(s, j, t, Np);
    ThirdSecond(ONE, PowerOf(|s| / 3, t), j, Np);
  }

  /** Position 0 is the sum of all inputs, whatever Np is. */
  lemma {:induction false} CodedAtZero(s: seq<Poly>, j: nat, Np: nat)
    requires IsPow3(|s|) && 0 < Np && forall i :: 0 <= i < |s| ==> Deg(s[i]) < 2 * Np
    ensures Coded(s, j, Np)[0] == EvalAt(s, 0) && Deg(EvalAt(s, 0)) < 2 * Np
    decreases |s|
  {
    hide Coded, Every3, Third, Lshift, Deg, EvalAt, PowerOf;
    if |s| == 1 {
      assert s == [s[0]];
      CodedOne(s[0], j, Np);
      EvalSingle(s[0]);
    } else {
      var e := (3 * j) % (3 * Np);
      EveryReduced(s, Np);
      CodedAtZero(Every3(s, 0), e, Np);
      CodedAtZero(Every3(s, 1), e, Np);
      CodedAtZero(Every3(s, 2), e, Np);
      CodedStep(s, j, 0, Np);
      PowerZero(|s| / 3);
      var v0, v1, v2 := EvalAt(Every3(s, 0), 0), EvalAt(Every3(s, 1), 0), EvalAt(Every3(s, 2), 0);
      ThirdSum(v0, v1, v2, j, Np);
      EvalDecimate(s, 0);
      DegAdd(v0, v1);
      DegAdd(Add(v0, v1), v2);
      NoShift(v1);
      NoShift(v2);
    }
  }

  lemma NoShift(a: Poly)
    ensures Shift(a, 0) == a
  {
  }

  lemma EvalSingle(v: Poly)
    ensures EvalAt([v], 0) == v
  {
    assert [v][1..] == [];
    assert EvalAt([v], 0) == Add(v, Shift(EvalAt([], 0), 0));
  }

  lemma PowerZero(k: nat)
    requires IsPow3(k)
    ensures PowerOf(k, 0) == 0 == Rev(k, 0)
  {
    RevZero(k);
  }

  lemma {:induction false} RevZero(K: nat)
    requires IsPow3(K)
    ensures Rev(K, 0) == 0
    decreases K
  {
    if K > 1 {
      RevZero(K / 3);
    }
  }

  lemma ThirdSum(a: Poly, b: Poly, c: Poly, j: nat, Np: nat)
    requires 0 < Np && Deg(b) < 2 * Np && Deg(c) < 2 * Np
    ensures Third(a, b, c, 0, j, Np) == Add(Add(a, b), c)
  {
    hide Deg, Rem, Shift, Add, Phi;
    NoShift(b);
    NoShift(c);
    RemSmall(b, Phi(Np));
    RemSmall(c, Phi(Np));
  }

  // ---------------------------------------------------------------- the product of x^M and 1

  /** The error of Lshift on 1: only x^(2N) comes out wrong, as x^N. */
  lemma LshiftOne(e: nat, N: nat)
    requires 0 < N < 64 && e < 3 * N
    ensures Lshift(ONE, e, N) == if e == 2 * N then Add(Rem(Shift(ONE, e), Phi(N)), ONE) else Rem(Shift(ONE, e), Phi(N))
  {
    hide Rem, Phi, Shift, Deg;
    ModUnique(e, 3 * N, 0, e);
    if N < e <= 2 * N {
      var lost := Low(High(ONE, 2 * N - e), N);
      if e == 2 * N {
        assert lost == ONE;
      } else {
        assert lost == {};
        AddNothing(Rem(Shift(ONE, e), Phi(N)));
      }
    }
  }

  /** x^e (1 + x^N + x^(2N)) vanishes. */
  lemma ThreePowers(e: nat, N: nat)
    requires 0 < N
    ensures Add(Add(Rem(Shift(ONE, e), Phi(N)), Rem(Shift(ONE, e + N), Phi(N))), Rem(Shift(ONE, e + 2 * N), Phi(N)))
      == {}
  {
    hide Rem, Deg, Mul;
    var p := Phi(N);
    var a, b, c := Shift(ONE, e), Shift(ONE, e + N), Shift(ONE, e + 2 * N);
    assert Shift(p, e) == Add(Add(a, b), c);
    MonomialMul(e, p);
    RemMultiple({e}, p);
    RemAdd(Add(a, b), c, p);
    RemAdd(a, b, p);
  }

  /** The powers of the root that Lshift computes: for a root x^j of order K = 3k with
      k j = N their sum is 1 instead of 0. */
  lemma SumOfPowers(X: seq<Poly>, k: nat, j: nat, N: nat)
    requires 0 < N < 64 && 0 < k && |X| == 3 * k && k * j == N
    requires forall i: nat :: i < |X| ==> i * j >= 0 && X[i] == Lshift(ONE, i * j, N)
    ensures EvalAt(X, 0) == ONE
  {
    hide EvalAt, Lshift, Shift, Add;
    var P0, P1, P2 := X[..k], X[k..2 * k], X[2 * k..];
    var Y := seq(k, i requires 0 <= i < k => Add(Add(P0[i], P1[i]), P2[i]));
    forall i: nat | i < k
      ensures Y[i] == if i == 0 then ONE else {}
    {
      ThreeInSum(k, j, N, i);
    }
    SumOfParts(X, P0, P1, P2, Y);
    EvalZero(Y[1..], 0);
    EvalHead(Y, 0);
    NoShift({});
  }

  lemma ThreeInSum(k: nat, j: nat, N: nat, i: nat)
    requires 0 < N < 64 && 0 < k && k * j == N && i < k
    ensures i * j >= 0 && (k + i) * j >= 0 && (2 * k + i) * j >= 0
    ensures Add(Add(Lshift(ONE, i * j, N), Lshift(ONE, (k + i) * j, N)), Lshift(ONE, (2 * k + i) * j, N))
      == if i == 0 then ONE else {}
  {
    hide Lshift, Shift, Add, Rem, Phi;
    Exponents(k, j, N, i);
    var e := i * j;
    LshiftOne(e, N);
    LshiftOne(e + N, N);
    LshiftOne(e + 2 * N, N);
    ThreePowers(e, N);
    var u, v, w := Rem(Shift(ONE, e), Phi(N)), Rem(Shift(ONE, e + N), Phi(N)), Rem(Shift(ONE, e + 2 * N), Phi(N));
    if i == 0 {
      AddExtra(u, v, w);
    }
  }

  lemma AddExtra(u: Poly, v: Poly, w: Poly)
    requires Add(Add(u, v), w) == {}
    ensures Add(Add(u, v), Add(w, ONE)) == ONE
  {
    assert Add(Add(u, v), Add(w, ONE)) == Add(Add(Add(u, v), w), ONE);
  }

  lemma Exponents(k: int, j: int, N: int, i: int)
    requires 0 < N && 0 < k && k * j == N && 0 <= i < k
    ensures 0 <= i * j < N && (i * j == 0 <==> i == 0)
    ensures (k + i) * j == i * j + N && (2 * k + i) * j == i * j + 2 * N
  {
    MulSign(k, j);
    SmallMultiple(i, k, j);
    SumOfMultiples(k, i, j);
    SumOfMultiples(k, k + i, j);
  }

  lemma SmallMultiple(i: int, k: int, j: int)
    requires 0 <= i < k && 0 < j
    ensures 0 <= i * j && i * j + j <= k * j && (0 < i ==> j <= i * j)
  {
    StepsAtMost(1, i, j);
    StepsAtMost(i + 1, k, j);
  }

  lemma StepsAtMost(i: int, n: int, d: int)
    requires 0 <= d
    ensures i <= n ==> i * d <= n * d
  {
  }

  lemma SumOfMultiples(a: int, b: int, j: int)
    ensures (a + b) * j == a * j + b * j
  {
  }

  lemma SumOfParts(X: seq<Poly>, P0: seq<Poly>, P1: seq<Poly>, P2: seq<Poly>, Y: seq<Poly>)
    requires X == P0 + P1 + P2 && |P0| == |P1| == |P2| == |Y|
    requires forall i :: 0 <= i < |Y| ==> Y[i] == Add(Add(P0[i], P1[i]), P2[i])
    ensures EvalAt(X, 0) == EvalAt(Y, 0)
  {
    hide EvalAt, Shift, Add;
    var Q := seq(|Y|, i requires 0 <= i < |Y| => Add(P0[i], P1[i]));
    EvalAdd(P0, P1, Q, 0);
    EvalAdd(Q, P2, Y, 0);
    EvalConcat(P0 + P1, P2, 0);
    EvalConcat(P0, P1, 0);
    NoShift(EvalAt(P1, 0));
    NoShift(EvalAt(P2, 0));
  }

  lemma MonomialChunks(M: nat, K: nat)
    requires 0 < M && 1 < K
    ensures Chunks({M}, M, K)[1] == ONE && forall i :: 0 <= i < K && i != 1 ==> Chunks({M}, M, K)[i] == {}
    ensures Delta(Chunks(ONE, M, K), ONE)
  {
    hide Chunks;
    forall t: nat | t < K
      ensures Chunks({M}, M, K)[t] == if t == 1 then ONE else {}
      ensures Chunks(ONE, M, K)[t] == if t == 0 then ONE else {}
    {
      ChunkAt({M}, M, K, t);
      ChunkAt(ONE, M, K, t);
      BlockOf(t, M);
    }
  }

  lemma BlockOf(t: nat, M: nat)
    requires 0 < M
    ensures t * M >= 0
    ensures Low(High({M}, t * M), M) == if t == 1 then ONE else {}
    ensures Low(High(ONE, t * M), M) == if t == 0 then ONE else {}
  {
    if t >= 2 {
      ProductAtLeast(t - 1, M);
      assert t * M == (t - 1) * M + M;
    }
  }

  /** With short residues 1 * x^M comes out with constant term 1, whatever lies behind the blocks. */
  lemma ProductWrong(M: nat, K: nat, cn: nat, x: seq<Word>)
    requires 0 < M && IsPow3(K) && 3 <= K && ResidueSize(M, K) < 64 && 0 < cn && |x| == K
    ensures 0 in CodedProduct({M}, ONE, M, K, cn, x) && CodedProduct({M}, ONE, M, K, cn, x) != Mul({M}, ONE)
  {
    hide Forward, Backward, Chunks, Mul, Assembled;
    Sizes(M, K);
    var s, t := Forward(Chunks({M}, M, K), M), Forward(Chunks(ONE, M, K), M);
    var u := Pointwise(s, t, ResidueSize(M, K));
    SpectrumWrong(M, K, u);
    BackwardZero(M, K, u);
    LowestBit(Backward(u, M), x, M, ResidueSize(M, K), cn);
    MulOne({M});
  }

  /** The powers of the root in the order of the transform, as Lshift computes them. */
  ghost predicate PowersOfRoot(u: seq<Poly>, M: nat)
    requires 0 < M && IsPow3(|u|) && 3 <= |u| && 0 < ResidueSize(M, |u|)
  {
    forall i: nat :: i < |u| ==> u[i] == Lshift(ONE, Times(Rev(|u|, i), RootExponent(M, |u|)), ResidueSize(M, |u|))
  }

  /** The spectrum of the product is that of x^M, with the one error. */
  lemma SpectrumWrong(M: nat, K: nat, u: seq<Poly>)
    requires 0 < M && IsPow3(K) && 3 <= K && 0 < ResidueSize(M, K)
    requires u == Pointwise(Forward(Chunks({M}, M, K), M), Forward(Chunks(ONE, M, K), M), ResidueSize(M, K))
    ensures PowersOfRoot(u, M)
  {
    hide Coded, Chunks, Lshift, Rev;
    MonomialChunks(M, K);
    var Mp, Np := RootExponent(M, K), ResidueSize(M, K);
    CodedDelta(Chunks(ONE, M, K), ONE, Mp, Np);
    forall i: nat | i < K
      ensures Rev(K, i) * Mp >= 0 && u[i] == Lshift(ONE, Rev(K, i) * Mp, Np)
    {
      CodedShifted(Chunks({M}, M, K), Mp, Np, i);
      TimesOne(Lshift(ONE, Rev(K, i) * Mp, Np), Np);
    }
  }

  lemma TimesOne(v: Poly, N: nat)
    requires 0 < N && Deg(v) < 2 * N
    ensures MulMod(v, ONE, N) == v
  {
    hide Deg, Mul, Rem, Phi;
    MulOne(v);
    RemSmall(v, Phi(N));
  }

  lemma BackwardZero(M: nat, K: nat, u: seq<Poly>)
    requires 0 < M && IsPow3(K) && 3 <= K == |u| && 0 < ResidueSize(M, K) < 64
    requires PowersOfRoot(u, M)
    ensures Backward(u, M)[0] == ONE
  {
    hide Coded, Lshift, Rev, EvalAt, Deg, IsPow3;
    Sizes(M, K);
    var Mp, Np := RootExponent(M, K), ResidueSize(M, K);
    var X := Permuted(u);
    forall i: nat | i < K
      ensures i * Mp >= 0 && X[i] == Lshift(ONE, i * Mp, Np) && Deg(X[i]) < 2 * Np
    {
      RevRev(K, i);
    }
    ThirdOfPower(K);
    assert K / 3 * Mp == Np;
    SumOfPowers(X, K / 3, Mp, Np);
    CodedAtZero(X, 3 * Np - Mp, Np);
    RevZero(K);
  }

  lemma ThirdOfPower(K: nat)
    requires IsPow3(K) && 3 <= K
    ensures K == 3 * (K / 3) && 0 < K / 3
  {
  }

  // ---------------------------------------------------------------- short blocks

  /** x^(M s) and x^(M t) in blocks of M bits. */
  ghost predicate OneAt(c: seq<Poly>, s: nat) {
    forall i :: 0 <= i < |c| ==> c[i] == if i == s then ONE else {}
  }

  lemma OneChunk(M: nat, K: nat, s: nat)
    requires 0 < M && s < K
    ensures s * M >= 0 && OneAt(Chunks({s * M}, M, K), s)
  {
    hide Chunks;
    NonNegative(s, M);
    forall t: nat | t < K
      ensures Chunks({s * M}, M, K)[t] == if t == s then ONE else {}
    {
      ChunkAt({s * M}, M, K, t);
      OneChunkAt(M, s, t);
    }
  }

  lemma OneChunkAt(M: nat, s: nat, t: nat)
    requires 0 < M && t * M >= 0 && s * M >= 0
    ensures Low(High({s * M}, t * M), M) == if t == s then ONE else {}
  {
    if t < s {
      ProductAtLeast(s - t, M);
      assert s * M == (s - t) * M + t * M;
    } else if s < t {
      ProductAtLeast(t - s, M);
      assert t * M == (t - s) * M + s * M;
    }
  }

  lemma RotateAt(b: seq<Poly>, u: nat, i: nat)
    requires u < |b| && i < |b|
    ensures Rotate(b, u)[i] == b[if u <= i then i - u else i + |b| - u]
  {
  }

  lemma {:induction false} CyclicOneTerm(a: seq<Poly>, b: seq<Poly>, s: nat, t: nat, i: nat, n: nat)
    requires |a| == |b| && OneAt(a, s) && OneAt(b, t) && s + t < |a| && i < |a| && n <= |a|
    ensures CyclicTerm(a, b, i, n) == if s < n && i == s + t then ONE else {}
    decreases n
  {
    hide Mul, Rotate;
    if n > 0 {
      CyclicOneTerm(a, b, s, t, i, n - 1);
      RotateAt(b, n - 1, i);
      MulOne(Rotate(b, n - 1)[i]);
      MulZero(Rotate(b, n - 1)[i]);
    }
  }

  lemma {:induction false} CyclicNone(a: seq<Poly>, b: seq<Poly>, i: nat, n: nat)
    requires |a| == |b| && Zeros(a) && i < |a| && n <= |a|
    ensures CyclicTerm(a, b, i, n) == {}
    decreases n
  {
    hide Mul, Rotate;
    if n > 0 {
      CyclicNone(a, b, i, n - 1);
      MulZero(Rotate(b, n - 1)[i]);
    }
  }

  lemma ZeroChunks(M: nat, K: nat)
    requires 0 < M
    ensures Zeros(Chunks({}, M, K))
  {
    hide Chunks;
    forall t: nat | t < K
      ensures Chunks({}, M, K)[t] == {}
    {
      ChunkAt({}, M, K, t);
      NothingHigh(t, M);
    }
  }

  lemma NothingHigh(t: nat, M: nat)
    requires t * M >= 0
    ensures Low(High({}, t * M), M) == {}
  {
  }

  /** Operands of an and bn words whose product is x^(M(j + 1)). */
  lemma FactorsExist(j: nat, M: nat, Np: nat, an: nat, bn: nat) returns (s: nat, t: nat)
    requires 0 < M <= Np && 0 < an && 0 < bn && ReadsBehind(M, Np, an + bn, BlockStart(j, M))
    ensures s + t == j + 1 && 0 <= s * M < 64 * an && 0 <= t * M < 64 * bn
  {
    NonNegative(j, M);
    if (j + 1) * M < 64 * an {
      s, t := j + 1, 0;
      NonNegative(j + 1, M);
    } else {
      s := (64 * an - 1) / M;
      Divided(64 * an - 1, M, s);
      NonNegative(s, M);
      SmallerFactor(s, j + 1, M, 64 * an);
      t := j + 1 - s;
      NonNegative(t, M);
      OtherFactor(s, t, j, M);
    }
  }

  lemma OtherFactor(s: int, t: int, j: int, M: int)
    requires t == j + 1 - s
    ensures t * M == j * M + M - s * M && (j + 1) * M == j * M + M
  {
  }

  lemma Divided(a: nat, M: nat, s: nat)
    requires 0 < M && s == a / M
    ensures s * M <= a < s * M + M
  {
  }

  lemma SmallerFactor(s: nat, n: nat, M: nat, T: nat)
    requires 0 < M && s * M < T <= n * M
    ensures s < n
  {
    NotSmaller(n, s, M);
  }

  lemma NotSmaller(n: nat, s: nat, M: nat)
    ensures n <= s ==> n * M <= s * M
  {
  }

  /** A block j that is read past its residue: operands and words behind the blocks such that nothing but one bit is
      read too much, whatever the number cw of words that are added up. */
  lemma StrayOperands(an: nat, bn: nat, M: nat, K: nat, cw: nat, j: nat) returns (a: Poly, b: Poly, x: seq<Word>)
    requires 0 < an && 0 < bn && IsPow3(K) && 3 <= K && 0 < M <= ResidueSize(M, K) && 64 <= ResidueSize(M, K)
    requires 1 <= j < K && ReadsBehind(M, ResidueSize(M, K), an + bn, BlockStart(j, M))
    ensures Deg(a) < an * 64 && Deg(b) < bn * 64 && Deg(a) < BlockStart(K, M) && Deg(b) < BlockStart(K, M) && |x| == K
    ensures OneBit(CodedBlocks(a, b, M, K), x, M, ResidueSize(M, K), cw, j)
  {
    hide Deg, CodedBlocks, ResidueSize, Chunks, ReadsBehind, WordsFor, IsPow3, OneBit;
    var Np := ResidueSize(M, K);
    if WordsFor(2 * Np) == 2 * WordsFor(Np) && j + 1 < K {
      var s, t := FactorsExist(j, M, Np, an, bn);
      a, b, x := {s * M}, {t * M}, seq(K, i => {});
      DegIs(a, s * M);
      DegIs(b, t * M);
      BlockBefore(s, K, M);
      BlockBefore(t, K, M);
      NextBlock(a, b, s, t, M, K, j, cw, x);
    } else {
      a, b, x := {}, {}, seq(K, i => if i == j then {0} else {});
      DegOfNothing();
      NonNegative(K, M);
      BehindFree(M, K, j, cw, x);
    }
  }

  lemma DegOfNothing()
    ensures Deg({}) < 0
  {
  }

  lemma BlockBefore(s: nat, K: nat, M: nat)
    requires s < K && 0 < M
    ensures s * M < K * M
  {
  }

  /** Then the product is wrong. */
  lemma UnclearWrong(an: nat, bn: nat, M: nat, K: nat, j: nat) returns (a: Poly, b: Poly, x: seq<Word>)
    requires 0 < an && 0 < bn && IsPow3(K) && 3 <= K && 0 < M && M == Ceil((an + bn) * 64, K) && 64 <= ResidueSize(M, K)
    requires 1 <= j < K && ReadsBehind(M, ResidueSize(M, K), an + bn, BlockStart(j, M)) && M <= ResidueSize(M, K)
    ensures Deg(a) < an * 64 && Deg(b) < bn * 64 && |x| == K
    ensures CodedProduct(a, b, M, K, an + bn, x) != Mul(a, b)
  {
    hide Deg, Mul, CodedBlocks, ResidueSize, Ceil, ReadsBehind, BlockStart, EvalAt, IsPow3, Assembled, Low, OneBit;
    a, b, x := StrayOperands(an, bn, M, K, an + bn, j);
    Sizes(M, K);
    AssembledWrong(CodedBlocks(a, b, M, K), x, M, ResidueSize(M, K), an + bn, j);
    BlocksExact(a, an, b, bn, M, K);
    LowOf(Mul(a, b), 64 * (an + bn));
  }

  lemma LowOf(a: Poly, n: nat)
    requires Deg(a) < n
    ensures Low(a, n) == a
  {
  }

  /** What lies behind block j is the next block. */
  lemma NextBlock(a: Poly, b: Poly, s: nat, t: nat, M: nat, K: nat, j: nat, cn: nat, x: seq<Word>)
    requires IsPow3(K) && 3 <= K && 0 < M && M <= ResidueSize(M, K) && 64 <= ResidueSize(M, K) && j + 1 < K
      && s + t == j + 1
    requires s * M >= 0 && t * M >= 0 && a == {s * M} && b == {t * M} && |x| == K
      && forall i :: 0 <= i < K ==> x[i] == {}
    requires var Np := ResidueSize(M, K); WordsFor(2 * Np) == 2 * WordsFor(Np)
    ensures OneBit(CodedBlocks(a, b, M, K), x, M, ResidueSize(M, K), cn, j)
  {
    hide CodedBlocks, ResidueSize, Chunks, Spoilt, WordsFor, IsPow3, Cyclic;
    CodedBlocksExact(a, b, M, K);
    OneChunk(M, K, s);
    OneChunk(M, K, t);
    var C := CodedBlocks(a, b, M, K);
    forall i: nat | i < K
      ensures C[i] == if i == j + 1 then ONE else {}
    {
      CyclicAt(Chunks(a, M, K), Chunks(b, M, K), i);
      CyclicOneTerm(Chunks(a, M, K), Chunks(b, M, K), s, t, i, K);
    }
    WordOfOne();
  }

  lemma CyclicAt(a: seq<Poly>, b: seq<Poly>, i: nat)
    requires |a| == |b| && i < |a|
    ensures Cyclic(a, b)[i] == CyclicTerm(a, b, i, |a|)
  {
    hide CyclicTerm;
  }

  lemma WordOfOne()
    ensures WordAt(ONE, 0) == {0} && WordAt({}, 0) == {}
  {
  }

  /** What lies behind block j can be any word. */
  lemma BehindFree(M: nat, K: nat, j: nat, cn: nat, x: seq<Word>)
    requires IsPow3(K) && 3 <= K && 0 < M && M <= ResidueSize(M, K) && 64 <= ResidueSize(M, K) && j < K
    requires |x| == K && forall i :: 0 <= i < K ==> x[i] == if i == j then {0} else {}
    requires var Np := ResidueSize(M, K); !(WordsFor(2 * Np) == 2 * WordsFor(Np) && j + 1 < K)
    ensures OneBit(CodedBlocks({}, {}, M, K), x, M, ResidueSize(M, K), cn, j)
  {
    hide CodedBlocks, ResidueSize, Chunks, Spoilt, WordsFor, IsPow3, Cyclic;
    CodedBlocksExact({}, {}, M, K);
    ZeroChunks(M, K);
    var C := CodedBlocks({}, {}, M, K);
    forall i: nat | i < K
      ensures C[i] == {}
    {
      CyclicAt(Chunks({}, M, K), Chunks({}, M, K), i);
      CyclicNone(Chunks({}, M, K), Chunks({}, M, K), i, K);
    }
    FreeBits(C, x, M, ResidueSize(M, K), cn, j);
  }

  lemma FreeBits(C: seq<Poly>, x: seq<Word>, M: nat, Np: nat, cn: nat, j: nat)
    requires |C| == |x| && Zeros(C) && M <= 2 * Np && j < |C|
      && forall i :: 0 <= i < |C| ==> x[i] == if i == j then {0} else {}
    requires !(WordsFor(2 * Np) == 2 * WordsFor(Np) && j + 1 < |C|)
    ensures OneBit(C, x, M, Np, cn, j)
  {
    hide Spoilt, WordsFor, WordAt;
    WordOfOne();
    forall i: nat | i < |C|
      ensures Behind(C, x, Np, i) == if i == j then {0} else {}
    {
    }
  }

  // ---------------------------------------------------------------- the exact range

  /** The exact range of gf2x_mul_fft with one transform: all operands of an and bn words are multiplied
      correctly, whatever lies behind the blocks, just when the residues have at least 64 bits - which fails
      for K = 81 and at most 68 words - and no block is read past its residue. */
  lemma SingleRight(an: nat, bn: nat, K: nat)
    requires 0 < an && 0 < bn && MUL_FFT_THRESHOLD <= an + bn && IsPow3(K) && 3 <= K
    ensures var M := Ceil((an + bn) * 64, K);
      && 0 < M
      && ((forall a: Poly, b: Poly, x: seq<Word> :: Deg(a) < an * 64 && Deg(b) < bn * 64 && |x| == K
             ==> CodedProduct(a, b, M, K, an + bn, x) == Mul(a, b))
          <==> !(K == 81 && an + bn <= 68) && SingleClear(an + bn, K))
  {
    hide Deg, Mul, CodedProduct, ResidueSize, IsPow3, Ceil, BlocksClear;
    var M := Ceil((an + bn) * 64, K);
    CeilBound((an + bn) * 64, K);
    Sizes(M, K);
    ShortResidues(an + bn, K);
    if K == 81 && an + bn <= 68 {
      var x: seq<Word> := seq(K, i => {});
      ProductWrong(M, K, an + bn, x);
      ShortBlocks(an + bn);
      DegIs({M}, M);
      DegIs(ONE, 0);
      assert CodedProduct({M}, ONE, M, K, an + bn, x) != Mul({M}, ONE);
    } else if !SingleClear(an + bn, K) {
      var j := UnclearBlock(M, ResidueSize(M, K), K, an + bn);
      var a, b, x := UnclearWrong(an, bn, M, K, j);
    } else {
      forall a: Poly, b: Poly, x: seq<Word> | Deg(a) < an * 64 && Deg(b) < bn * 64 && |x| == K
        ensures CodedProduct(a, b, M, K, an + bn, x) == Mul(a, b)
      {
        SingleExact(a, an, b, bn, M, K, x);
      }
    }
  }

  lemma UnclearBlock(M: nat, Np: nat, K: nat, cn: nat) returns (j: nat)
    requires M <= 2 * Np && !BlocksClear(M, Np, K, cn)
    ensures 1 <= j < K && ReadsBehind(M, Np, cn, BlockStart(j, M))
  {
    hide ReadsBehind, BlockStart;
    j :| j < K && 1 <= j && ReadsBehind(M, Np, cn, BlockStart(j, M));
  }

  lemma SingleExact(a: Poly, an: nat, b: Poly, bn: nat, M: nat, K: nat, x: seq<Word>)
    requires IsPow3(K) && 3 <= K && 0 < an + bn && M == Ceil((an + bn) * 64, K) && 0 < M && 64 <= ResidueSize(M, K)
      && SingleClear(an + bn, K)
    requires Deg(a) < an * 64 && Deg(b) < bn * 64 && |x| == K
    ensures CodedProduct(a, b, M, K, an + bn, x) == Mul(a, b)
  {
    hide Deg, Mul, CodedBlocks, Assembled, BlocksClear, ResidueSize, IsPow3, Ceil, EvalAt;
    Sizes(M, K);
    AssembledClear(CodedBlocks(a, b, M, K), x, M, ResidueSize(M, K), an + bn);
    BlocksExact(a, an, b, bn, M, K);
    LowOf(Mul(a, b), 64 * (an + bn));
  }

  lemma ShortBlocks(sc: nat)
    requires sc <= 68
    ensures Ceil(sc * 64, 81) < 64
  {
  }

  /** With at least 64 bits in a block nothing is read behind a residue. */
  lemma LongEnough(sc: nat, K: nat)
    requires 0 < sc && IsPow3(K) && 3 <= K && 63 * K < 64 * sc
    ensures SingleClear(sc, K)
  {
    hide ResidueSize, BlocksClear;
    CeilBound(64 * sc, K);
    Sizes(Ceil(64 * sc, K), K);
    ClearCeil(64 * sc, K);
    LongBlocksClear(Ceil(64 * sc, K), ResidueSize(Ceil(64 * sc, K), K), K, sc);
  }

  lemma ClearCeil(a: nat, K: nat)
    requires 0 < K && 63 * K < a
    ensures 64 <= Ceil(a, K)
  {
    CeilBound(a, K);
    TimesMonotone(Ceil(a, K), 63, K);
  }

  lemma TimesMonotone(q: int, r: int, K: int)
    requires 0 < K
    ensures q <= r ==> q * K <= r * K
  {
  }

  /** A transform of length 243 for 28 words has blocks of 8 bits, and block 7 is read past its residue. */
  lemma ShortBlocksRead()
    ensures IsPow3(243) && !SingleClear(28, 243)
  {
    assert Ceil(64 * 28, 243) == 8 && ResidueSize(8, 243) == 81;
    assert BlockStart(7, 8) == 56;
    assert ReadsBehind(8, 81, 28, BlockStart(7, 8));
    assert IsPow3(3) && IsPow3(9) && IsPow3(27) && IsPow3(81);
  }
}
