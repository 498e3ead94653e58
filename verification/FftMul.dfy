/** gf2x_mul_fft of gf2x-1.1/fft.c: cut into blocks, transform, multiply
    pointwise, transform back, reassemble. */
module FftMul {
  import opened Numbers
  import opened Polynomials
  import opened PolyDivision
  import opened Residues
  import opened FftAlgebra
  import opened FftConvolution
  import opened Transform
  import opened Blocks
  import opened Words

  const MUL_FFT_THRESHOLD: nat := 28

  function Ceil(a: nat, b: nat): nat
    requires 0 < b
  {
    (a + b - 1) / b
  }

  /** x^Mp is the root of order K; the residues have Np = Mp * (K/3) >= M. */
  function RootExponent(M: nat, K: nat): nat
    requires 3 <= K
  {
    Ceil(M, K / 3)
  }

  function ResidueSize(M: nat, K: nat): nat
    requires 3 <= K
  {
    NonNegative(RootExponent(M, K), K / 3);
    RootExponent(M, K) * (K / 3)
  }

  lemma CeilBound(a: nat, b: nat)
    requires 0 < b
    ensures a <= Ceil(a, b) * b && (0 < a ==> 0 < Ceil(a, b))
  {
    var q := Ceil(a, b);
    assert a + b - 1 == b * q + (a + b - 1) % b;
  }

  lemma Sizes(M: nat, K: nat)
    requires 0 < M && IsPow3(K) && 3 <= K
    ensures var Mp, Np := RootExponent(M, K), ResidueSize(M, K);
      0 < Mp < 3 * Np && M <= Np && Mp * K == 3 * Np
  {
    hide Ceil;
    CeilBound(M, K / 3);
    ProductOfThird(RootExponent(M, K), K, K / 3);
  }

  lemma ProductOfThird(m: int, K: int, k: int)
    requires K == 3 * k && 0 < m && 0 < k
    ensures m * K == 3 * (m * k) && m <= m * k
  {
  }

  ghost predicate IsPerm(perm: array<nat>, K: nat)
    requires IsPow3(K)
    reads perm
  {
    perm.Length == K && forall i: nat :: i < K ==> perm[i] == Rev(K, i)
  }

  lemma IsPermAt(perm: array<nat>, K: nat)
    requires IsPow3(K) && IsPerm(perm, K)
    ensures PermAt(perm, 1, K)
  {
    hide Rev;
    forall i: nat | i < K
      ensures 0 <= 1 * i < perm.Length && perm[1 * i] == Rev(K, i)
    {
      assert 1 * i == i;
    }
  }

  method MakePerm(K: nat) returns (perm: array<nat>)
    requires IsPow3(K)
    ensures fresh(perm) && IsPerm(perm, K)
  {
    hide Rev;
    perm := new nat[K];
    Bitrev(0, 0, K, 1, perm);
    forall i: nat | i < K
      ensures perm[i] == Rev(K, i)
    {
      RevSeqAt(0, K, 1, i);
      assert perm[i] == RevSeq(0, K, 1)[i - 0];
    }
  }

  /** gf2x_tfft_dft_inner as computed. */
  ghost function Forward(s: seq<Poly>, M: nat): (r: seq<Poly>)
    requires 0 < M && IsPow3(|s|) && 3 <= |s|
    ensures |r| == |s|
  {
    Sizes(M, |s|);
    Coded(s, RootExponent(M, |s|), ResidueSize(M, |s|))
  }

  lemma ExponentOfPower(j: nat, r: nat, K: nat, Np: nat)
    requires 0 < Np && j * K == 3 * Np
    ensures (j * r) * K >= 0 && ((j * r) * K) % (3 * Np) == 0 == 0 % (3 * Np)
  {
    assert j * r * K == (j * K) * r;
    ModUnique((j * r) * K, 3 * Np, r, 0);
    ModUnique(0, 3 * Np, 0, 0);
  }

  /** A product of spectra is the spectrum of the cyclic convolution. */
  lemma SpectrumProduct(s: seq<Poly>, t: seq<Poly>, M: nat, i: nat)
    requires |s| == |t| && IsPow3(|s|) && 3 <= |s| && 0 < M && i < |s|
    requires 0 < ResidueSize(M, |s|)
    ensures var j, Np := RootExponent(M, |s|), ResidueSize(M, |s|);
      MulMod(Spectrum(s, j, i, Np), Spectrum(t, j, i, Np), Np) == Spectrum(Cyclic(s, t), j, i, Np)
  {
    hide Rem, EvalAt, Mul, Phi, Cyclic, Rev, Shift;
    var K := |s|;
    Sizes(M, K);
    var j, Np := RootExponent(M, K), ResidueSize(M, K);
    var r := Rev(K, i);
    var e := j * r;
    var P := Phi(Np);
    ExponentOfPower(j, r, K, Np);
    ShiftExponent(ONE, e * K, 0, Np);
    assert Shift(ONE, 0) == ONE;
    EvalCyclic(s, t, e, P);
    RemRem(EvalAt(s, e), P);
    RemRem(EvalAt(t, e), P);
    MulCong(EvalAt(s, e), Rem(EvalAt(s, e), P), EvalAt(t, e), Rem(EvalAt(t, e), P), P);
  }

  /** The spectrum in the order in which the inverse transform reads it, and back. */
  ghost function Permuted(t: seq<Poly>): (r: seq<Poly>)
    requires IsPow3(|t|)
    ensures |r| == |t| && forall i: nat :: i < |t| ==> r[i] == t[Rev(|t|, i)]
  {
    seq(|t|, i requires 0 <= i < |t| => t[Rev(|t|, i)])
  }

  /** gf2x_tfft_ift_inner as computed, before the blocks are put together. */
  ghost function Backward(t: seq<Poly>, M: nat): (r: seq<Poly>)
    requires 0 < M && IsPow3(|t|) && 3 <= |t|
    ensures |r| == |t|
  {
    Sizes(M, |t|);
    var Mp, Np := RootExponent(M, |t|), ResidueSize(M, |t|);
    Permuted(Coded(Permuted(t), 3 * Np - Mp, Np))
  }

  lemma InversePeriod(Mp: nat, Np: nat, K: nat)
    requires 0 < Np && Mp * K == 3 * Np && Mp <= 3 * Np
    ensures (3 * Np - Mp) * K >= 0 && ((3 * Np - Mp) * K) % (3 * Np) == 0
  {
    assert (3 * Np - Mp) * K == 3 * Np * (K - 1);
    ModUnique((3 * Np - Mp) * K, 3 * Np, K - 1, 0);
  }

  /** Position i of the transform of the reordered spectrum holds coefficient Rev(i). */
  lemma InverseSpectrum(s: seq<Poly>, X: seq<Poly>, j: nat, N: nat, i: nat)
    requires IsPow3(|s|) && |s| == |X| && i < |s| && 0 < N && j <= 3 * N && j * |s| == 3 * N
    requires Deg(s[Rev(|s|, i)]) < 2 * N
    requires forall l: nat :: l < |s| ==> X[l] == Spectrum(s, j, Rev(|s|, l), N)
    ensures Spectrum(X, 3 * N - j, i, N) == s[Rev(|s|, i)]
  {
    hide Rev, Deg, EvalAt, Rem, Phi, Spectrum, IsPow3;
    InverseValue(s, X, j, N, Rev(|s|, i));
    SpectrumMeans(X, 3 * N - j, i, N);
  }

  lemma InverseValue(s: seq<Poly>, X: seq<Poly>, j: nat, N: nat, m: nat)
    requires IsPow3(|s|) && |s| == |X| && m < |s| && 0 < N && j <= 3 * N && j * |s| == 3 * N
    requires Deg(s[m]) < 2 * N
    requires forall l: nat :: l < |s| ==> X[l] == Spectrum(s, j, Rev(|s|, l), N)
    ensures (3 * N - j) * m >= 0 && Rem(EvalAt(X, (3 * N - j) * m), Phi(N)) == s[m]
  {
    hide Rev, Deg, EvalAt, Rem, Phi, Spectrum, IsPow3;
    ReorderedValues(s, X, j, N);
    InverseTransform(s, X, j, |s|, N, m);
    RemSmall(s[m], Phi(N));
  }

  lemma ReorderedValues(s: seq<Poly>, X: seq<Poly>, j: nat, N: nat)
    requires IsPow3(|s|) && |s| == |X| && 0 < N
    requires forall l: nat :: l < |s| ==> X[l] == Spectrum(s, j, Rev(|s|, l), N)
    ensures forall t: nat :: t < |s| ==> j * t >= 0 && Rem(X[t], Phi(N)) == Rem(EvalAt(s, j * t), Phi(N))
  {
    hide Rev, Deg, EvalAt, Rem, Phi, Spectrum, IsPow3;
    forall t: nat | t < |s|
      ensures j * t >= 0 && Rem(X[t], Phi(N)) == Rem(EvalAt(s, j * t), Phi(N))
    {
      SpectrumAtRev(s, j, t, N);
    }
  }

  lemma SpectrumMeans(s: seq<Poly>, j: nat, i: nat, N: nat)
    requires IsPow3(|s|) && i < |s| && 0 < N
    ensures j * Rev(|s|, i) >= 0 && Spectrum(s, j, i, N) == Rem(EvalAt(s, j * Rev(|s|, i)), Phi(N))
  {
  }

  lemma SpectrumAtRev(s: seq<Poly>, j: nat, t: nat, N: nat)
    requires IsPow3(|s|) && t < |s| && 0 < N
    ensures j * t >= 0
    ensures Rem(Spectrum(s, j, Rev(|s|, t), N), Phi(N)) == Rem(EvalAt(s, j * t), Phi(N))
  {
    hide Rev, EvalAt, Rem, Phi;
    RevRev(|s|, t);
    RemRem(EvalAt(s, j * t), Phi(N));
  }

  /** The blocks of the operands never meet past the end of the product. */
  lemma ChunksNoWrap(a: Poly, an: nat, b: Poly, bn: nat, M: nat, K: nat)
    requires 0 < M && K * M >= 0 && (an + bn) * 64 <= K * M
    requires Deg(a) < an * 64 && Deg(b) < bn * 64
    ensures NoWrap(Chunks(a, M, K), Chunks(b, M, K))
  {
    hide Deg, Chunks;
    forall u: nat, v: nat | u < K && v < K && K <= u + v
      ensures Chunks(a, M, K)[u] == {} || Chunks(b, M, K)[v] == {}
    {
      ChunkBits(a, M, K, u);
      ChunkBits(b, M, K, v);
      ProductsExceed(u, v, K, M);
    }
  }

  lemma ProductsExceed(u: int, v: int, K: int, M: int)
    requires K <= u + v && 0 < M
    ensures K * M <= u * M + v * M
  {
    assert (u + v) * M == u * M + v * M;
  }

  /** Every coefficient of the convolution is small enough to be recovered from
      its residue modulo x^(2 Np) + x^Np + 1. */
  lemma CyclicSmall(a: Poly, b: Poly, M: nat, K: nat, i: nat)
    requires 0 < M && IsPow3(K) && 3 <= K && i < K
    ensures Deg(Cyclic(Chunks(a, M, K), Chunks(b, M, K))[i]) < 2 * ResidueSize(M, K)
  {
    hide Deg, Chunks, CyclicTerm;
    Sizes(M, K);
    forall l: nat | l < K
      ensures Deg(Chunks(a, M, K)[l]) < M && Deg(Chunks(b, M, K)[l]) < M
    {
      ChunkBits(a, M, K, l);
      ChunkBits(b, M, K, l);
    }
    CyclicDegree(Chunks(a, M, K), Chunks(b, M, K), i, K, M);
  }

  ghost function Pointwise(s: seq<Poly>, t: seq<Poly>, Np: nat): (r: seq<Poly>)
    requires |s| == |t| && 0 < Np
    ensures |r| == |s| && forall i :: 0 <= i < |r| ==> r[i] == MulMod(s[i], t[i], Np)
  {
    seq(|s|, i requires 0 <= i < |s| => MulMod(s[i], t[i], Np))
  }

  /** What the transforms, the pointwise product and the inverse transform compute together. */
  ghost function CodedBlocks(a: Poly, b: Poly, M: nat, K: nat): (r: seq<Poly>)
    requires 0 < M && IsPow3(K) && 3 <= K
    ensures |r| == K
  {
    Sizes(M, K);
    Backward(Pointwise(Forward(Chunks(a, M, K), M), Forward(Chunks(b, M, K), M), ResidueSize(M, K)), M)
  }

  /** The cn words into which recompose puts these blocks, with the words x behind them. */
  ghost function CodedProduct(a: Poly, b: Poly, M: nat, K: nat, cn: nat, x: seq<Word>): Poly
    requires 0 < M && IsPow3(K) && 3 <= K && |x| == K
  {
    Sizes(M, K);
    Assembled(CodedBlocks(a, b, M, K), x, M, ResidueSize(M, K), cn)
  }

  /** With residues of at least 64 bits the blocks are the cyclic convolution of the chunks. */
  lemma CodedBlocksExact(a: Poly, b: Poly, M: nat, K: nat)
    requires 0 < M && IsPow3(K) && 3 <= K && 64 <= ResidueSize(M, K)
    ensures CodedBlocks(a, b, M, K) == Cyclic(Chunks(a, M, K), Chunks(b, M, K))
  {
    hide Spectrum, Rev, Deg, Chunks, Cyclic, MulMod, Forward, Backward;
    Sizes(M, K);
    var s, t := Chunks(a, M, K), Chunks(b, M, K);
    var q := Cyclic(s, t);
    var u := Pointwise(Forward(s, M), Forward(t, M), ResidueSize(M, K));
    forall i: nat | i < K
      ensures u[i] == Spectrum(q, RootExponent(M, K), i, ResidueSize(M, K))
      ensures Deg(q[i]) < 2 * ResidueSize(M, K)
    {
      ForwardIs(a, M, K, i);
      ForwardIs(b, M, K, i);
      SpectrumProduct(s, t, M, i);
      CyclicSmall(a, b, M, K, i);
    }
    BackwardIs(u, q, M);
  }

  lemma ForwardIs(a: Poly, M: nat, K: nat, i: nat)
    requires 0 < M && IsPow3(K) && 3 <= K && 64 <= ResidueSize(M, K) && i < K
    ensures Forward(Chunks(a, M, K), M)[i] == Spectrum(Chunks(a, M, K), RootExponent(M, K), i, ResidueSize(M, K))
  {
    hide Spectrum, Deg, Chunks, Coded;
    Sizes(M, K);
    var Mp, Np := RootExponent(M, K), ResidueSize(M, K);
    ModUnique(Mp * K, 3 * Np, 1, 0);
    forall l | 0 <= l < K
      ensures Deg(Chunks(a, M, K)[l]) < 2 * Np
    {
      ChunkBits(a, M, K, l);
    }
    CodedIsSpectrum(Chunks(a, M, K), Mp, i, Np);
  }

  lemma BackwardIs(t: seq<Poly>, s: seq<Poly>, M: nat)
    requires 0 < M && IsPow3(|s|) && 3 <= |s| == |t| && 64 <= ResidueSize(M, |s|)
    requires forall i :: 0 <= i < |s| ==> Deg(s[i]) < 2 * ResidueSize(M, |s|)
    requires forall i: nat :: i < |s| ==> t[i] == Spectrum(s, RootExponent(M, |s|), i, ResidueSize(M, |s|))
    ensures Backward(t, M) == s
  {
    hide Spectrum, Rev, Deg, Coded, IsPow3, Backward, RootExponent, ResidueSize;
    var K := |s|;
    Sizes(M, K);
    var Mp, Np := RootExponent(M, K), ResidueSize(M, K);
    var X := Permuted(t);
    InversePeriod(Mp, Np, K);
    forall i: nat | i < K
      ensures Deg(X[i]) < 2 * Np
    {
      assert X[i] == Spectrum(s, Mp, Rev(K, i), Np);
    }
    forall m: nat | m < K
      ensures Backward(t, M)[m] == s[m]
    {
      RevRev(K, m);
      CodedIsSpectrum(X, 3 * Np - Mp, Rev(K, m), Np);
      InverseSpectrum(s, X, Mp, Np, Rev(K, m));
      BackwardAt(t, M, m);
    }
  }

  lemma BackwardAt(t: seq<Poly>, M: nat, m: nat)
    requires 0 < M && IsPow3(|t|) && 3 <= |t| && m < |t|
    ensures var Mp, Np := RootExponent(M, |t|), ResidueSize(M, |t|);
      0 < Np && Mp <= 3 * Np && Backward(t, M)[m] == Coded(Permuted(t), 3 * Np - Mp, Np)[Rev(|t|, m)]
  {
    hide Coded, Rev, RootExponent, ResidueSize, IsPow3;
    Sizes(M, |t|);
  }

  /** The blocks of a product of sc words are added up without reading behind them. */
  predicate SingleClear(sc: nat, K: nat)
    requires IsPow3(K) && 3 <= K && 0 < sc
  {
    CeilBound(64 * sc, K);
    Sizes(Ceil(64 * sc, K), K);
    BlocksClear(Ceil(64 * sc, K), ResidueSize(Ceil(64 * sc, K), K), K, sc)
  }

  /** No wrap-around: with residues of at least 64 bits the blocks add up to the product. */
  lemma BlocksExact(a: Poly, an: nat, b: Poly, bn: nat, M: nat, K: nat)
    requires IsPow3(K) && 3 <= K && 0 < an + bn && M == Ceil((an + bn) * 64, K) && 0 < M && 64 <= ResidueSize(M, K)
    requires Deg(a) < an * 64 && Deg(b) < bn * 64
    ensures EvalAt(CodedBlocks(a, b, M, K), M) == Mul(a, b) && Deg(Mul(a, b)) < 64 * (an + bn)
  {
    hide Deg, Mul, Low, EvalAt, Chunks, Cyclic, CodedBlocks;
    CodedBlocksExact(a, b, M, K);
    CeilBound((an + bn) * 64, K);
    assert M * K == K * M;
    ChunksNoWrap(a, an, b, bn, M, K);
    EvalCyclicExact(Chunks(a, M, K), Chunks(b, M, K), M);
    EvalChunks(a, M, K);
    EvalChunks(b, M, K);
    DegMul(a, b);
  }
}
