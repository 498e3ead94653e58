/** gf2x_mul_fft of gf2x-1.1/fft.c with negative K, on words: two transforms modulo x^(K*m1) + 1 and
    x^(K*(m1-1)) + 1, put together by split_reconstruct. */
module SplitProduct {
  import opened Numbers
  import opened Polynomials
  import opened PolyDivision
  import opened FftAlgebra
  import opened FftConvolution
  import opened Blocks
  import opened FftMul
  import opened FftLimits
  import opened Words
  import opened WordMemory
  import opened ShiftLoops
  import opened ResidueWords
  import opened Regions
  import opened BlockWords
  import opened FftProduct
  import opened SplitFft
  import ToomSpace

  // ---------------------------------------------------------------- one half

  /** The words of the product of two operands wrapped at x^N. */
  function HalfWords(an: nat, bn: nat, N: nat): nat {
    WordsFor(Min(N, 64 * an)) + WordsFor(Min(N, 64 * bn))
  }

  /** What wrapping the cn lowest words at x^N makes of S. */
  function Wrapped(S: Poly, cn: nat, N: nat): Poly {
    if 64 * cn <= N then S else Add(Fold(Low(S, 64 * cn), N), From(S, 64 * cn))
  }

  /** One half of the product as computed, in cw words; x lies behind the blocks. */
  ghost function HalfValue(A: Poly, an: nat, B: Poly, bn: nat, M: nat, K: nat, cw: nat, x: seq<Word>): Poly
    requires 0 < M && IsPow3(K) && 3 <= K == |x|
  {
    var N := BlockStart(K, M);
    Wrapped(CodedProduct(Fold(A, N), Fold(B, N), M, K, cw, x), HalfWords(an, bn, N), N)
  }

  lemma OperandReach(a: Poly, an: nat, N: nat)
    requires 0 < an && Fits(a, an) && 0 < N && 64 * an <= 2 * N
    ensures Deg(a) < 64 * an && Deg(Fold(a, N)) < Min(N, 64 * an) && (64 * an <= N ==> Fold(a, N) == a)
  {
    hide Fold, Deg;
    FitsDegree(a, an);
    FoldIsRem(a, N);
    if Deg(a) < N {
      FoldSmall(a, N);
    }
  }

  lemma FitsDegree(a: Poly, n: nat)
    ensures 0 < n ==> (Fits(a, n) <==> Deg(a) < 64 * n)
  {
  }

  /** With residues of at least 64 bits, and if no block is read too far in the words of the product, these words of a
      half are the product modulo x^N + 1, whatever lies behind the blocks. */
  lemma HalfRight(A: Poly, an: nat, B: Poly, bn: nat, M: nat, K: nat, cw: nat, x: seq<Word>)
    requires 0 < M && IsPow3(K) && 3 <= K == |x| && 64 <= ResidueSize(M, K) && M <= ResidueSize(M, K)
    requires 0 < an && 0 < bn && Fits(A, an) && Fits(B, bn)
    requires var N := BlockStart(K, M); 0 < N <= 64 * (an + bn) <= 2 * N && an + bn <= cw
    requires BlocksClear(M, ResidueSize(M, K), K, an + bn)
    ensures Low(HalfValue(A, an, B, bn, M, K, cw, x), 64 * (an + bn)) == Fold(Mul(A, B), BlockStart(K, M))
  {
    hide Deg, Fold, EvalAt, Mul, Low, CodedBlocks, ResidueSize, BlocksClear, Assembled, Fits, Min, Wrapped;
    var N, cn, n := BlockStart(K, M), HalfWords(an, bn, BlockStart(K, M)), an + bn;
    var C := CodedBlocks(Fold(A, N), Fold(B, N), M, K);
    var E := EvalAt(C, M);
    HalfSum(A, an, B, bn, M, K);
    AssembledLow(C, x, M, ResidueSize(M, K), cw, n);
    LowWrapped(Assembled(C, x, M, ResidueSize(M, K), cw), cn, N, n);
    LowAll(E, 64 * n);
    WrappedReach(E, cn, N);
  }

  /** The sum of the exact blocks of a half. */
  lemma HalfSum(A: Poly, an: nat, B: Poly, bn: nat, M: nat, K: nat)
    requires 0 < M && IsPow3(K) && 3 <= K && 64 <= ResidueSize(M, K) && M <= ResidueSize(M, K)
    requires 0 < an && 0 < bn && Fits(A, an) && Fits(B, bn)
    requires var N := BlockStart(K, M); 0 < N <= 64 * (an + bn) <= 2 * N
    ensures var N := BlockStart(K, M); var E := EvalAt(CodedBlocks(Fold(A, N), Fold(B, N), M, K), M);
      && Fold(E, N) == Fold(Mul(A, B), N) && HalfWords(an, bn, N) <= an + bn
      && Deg(E) < 64 * (an + bn) && Deg(E) < 2 * N
      && Deg(E) < (if N <= 64 * HalfWords(an, bn, N) then 64 * HalfWords(an, bn, N) else N)
  {
    hide Deg, Fold, Chunks, Cyclic, EvalAt, Mul, CodedBlocks, ResidueSize, Fits, Min;
    var N := BlockStart(K, M);
    FitsDegree(A, an);
    FitsDegree(B, bn);
    CodedBlocksExact(Fold(A, N), Fold(B, N), M, K);
    HalfReach(A, an, B, bn, M, K, N, HalfWords(an, bn, N));
    DegMul(A, B);
    HalfProduct(A, B, M, K, N);
  }

  lemma LowWrapped(S: Poly, cn: nat, N: nat, k: nat)
    requires cn <= k && N <= 64 * k
    ensures Low(Wrapped(S, cn, N), 64 * k) == Wrapped(Low(S, 64 * k), cn, N)
  {
    hide Fold, Low, From;
    var L := Low(S, 64 * k);
    if 64 * cn > N {
      assert Low(L, 64 * cn) == Low(S, 64 * cn);
      forall i: nat
        ensures i in Low(Wrapped(S, cn, N), 64 * k) <==> i in Wrapped(L, cn, N)
      {
        FoldBit(Low(S, 64 * cn), N, i);
      }
    }
  }

  lemma HalfReach(a: Poly, an: nat, b: Poly, bn: nat, M: nat, K: nat, N: nat, cn: nat)
    requires 0 < M && 0 < N && N == K * M
    requires 0 < an && 0 < bn && Fits(a, an) && Fits(b, bn) && 64 * (an + bn) <= 2 * N
    requires cn == HalfWords(an, bn, N)
    ensures cn <= an + bn
    ensures var S := EvalAt(Cyclic(Chunks(Fold(a, N), M, K), Chunks(Fold(b, N), M, K)), M);
      Deg(S) < (if N <= 64 * cn then 64 * cn else N) && Deg(S) < 2 * N
  {
    hide Deg, Fold, Chunks, Cyclic, EvalAt, Fits, Min, HalfWords;
    OperandReach(a, an, N);
    OperandReach(b, bn, N);
    HalfWordsEnough(an, bn, N);
    CyclicProductReach(Fold(a, N), Fold(b, N), M, K, if N <= 64 * cn then 64 * cn else N);
    CyclicProductReach(Fold(a, N), Fold(b, N), M, K, 2 * N);
  }

  lemma HalfWordsEnough(an: nat, bn: nat, N: nat)
    ensures var cn, reach := HalfWords(an, bn, N), Min(N, 64 * an) + Min(N, 64 * bn);
      cn <= an + bn && reach <= 64 * cn && reach <= 2 * N
  {
  }

  /** Wrapping only the words that the product can reach wraps all of it. */
  lemma WrappedReach(S: Poly, cn: nat, N: nat)
    requires Deg(S) < (if N <= 64 * cn then 64 * cn else N) && Deg(S) < 2 * N
    ensures Wrapped(S, cn, N) == Fold(S, N)
  {
    hide Deg, Fold, Low;
    if 64 * cn <= N {
      FoldSmall(S, N);
    } else {
      LowAll(S, 64 * cn);
      NothingFrom(S, 64 * cn);
      assert Add(Fold(S, N), {}) == Fold(S, N);
    }
  }

  lemma NothingFrom(S: Poly, n: nat)
    requires Deg(S) < n
    ensures From(S, n) == {}
  {
  }

  // ---------------------------------------------------------------- one half on words

  /** A copy of the operand, wrapped at x^N. */
  method WrapOperand(src: array<Word>, a: nat, an: nat, M: nat, N: nat, ghost A: Poly) returns (buf: array<Word>)
    requires 0 < an && 0 < N && 64 * an <= 2 * N && Held(src[..], a, an, A) && Fits(A, an)
    ensures fresh(buf) && Held(buf[..], 0, WordsFor(Min(N, 64 * an)), Fold(A, N))
      && Fits(Fold(A, N), WordsFor(Min(N, 64 * an)))
  {
    hide Held, Fits, Only, Fold, Val, Deg;
    var size := if an > WordsFor(M) then an else WordsFor(M);
    buf := new Word[size];
    Copy(buf, 0, src, a, an, A);
    ghost var s := buf[..];
    HeldPart(s, 0, an, A);
    Clear(buf, an, size);
    assert buf[..an] == s[0..0 + an];
    OperandReach(A, an, N);
    assert (64 * an + 64 - 1) / 64 == an;
    Wrap(buf, 64 * an, N);
    ghost var v := buf[..];
    assert v[0..0 + an] == buf[..an];
    PartHeld(v, 0, an);
    HeldPrefix(v, 0, an, Fold(A, N), WordsFor(Min(N, 64 * an)));
    ReachFits(Fold(A, N), Min(N, 64 * an));
  }

  lemma ReachFits(P: Poly, T: nat)
    requires Deg(P) < T
    ensures Fits(P, WordsFor(T))
  {
  }

  /** gf2x_tfft_dft_inner_split. */
  method DftHalf(w: array<Word>, tr: nat, tmp: nat, src: array<Word>, a: nat, an: nat, M: nat, K: nat, N: nat,
                 perm: array<nat>, ghost A: Poly)
    requires w != src && 0 < M && IsPow3(K) && 3 <= K && IsPerm(perm, K) && Held(src[..], a, an, A) && Fits(A, an)
    requires 0 < an && 0 < N && N == BlockStart(K, M) && 64 * an <= 2 * N
    requires var np := WordsFor(ResidueSize(M, K));
      tr + Block(K, np) <= w.Length && tmp + 6 * np <= w.Length && Apart(tr, Block(K, np), tmp, 6 * np)
    modifies w
    ensures var np := WordsFor(ResidueSize(M, K));
      && BlocksHeld(w[..], tr, np, Forward(Chunks(Fold(A, N), M, K), M), ResidueSize(M, K))
      && Only2(old(w[..]), w[..], tr, Block(K, np), tmp, 6 * np)
  {
    hide Held, Fits, IsPow3, IsPerm, Only2, BlocksHeld, Chunks, Block, BlockStart, Forward, ResidueSize, WordsFor,
      Apart, Fold, Min;
    var buf := WrapOperand(src, a, an, M, N, A);
    DftInner(w, tr, tmp, buf, 0, WordsFor(Min(N, 64 * an)), M, K, perm, Fold(A, N));
  }

  /** One half of gf2x_tfft_ift: the inverse transform into cw words, of which cn are wrapped. */
  method IftHalf(w: array<Word>, tr: nat, tmp: nat, cw: nat, cn: nat, M: nat, K: nat, N: nat, perm: array<nat>,
                 ghost t: seq<Poly>)
      returns (c1: array<Word>, ghost x: seq<Word>)
    requires 0 < M && IsPow3(K) && 3 <= K == |t| && IsPerm(perm, K) && 0 < N && N == BlockStart(K, M) && cn <= cw
      && 64 * cn <= 2 * N
    requires var Np := ResidueSize(M, K); var np := WordsFor(Np);
      && BlocksHeld(w[..], tr, np, t, Np) && tr + Block(K, np) < w.Length && tmp + 6 * np <= w.Length
      && Apart(tr, Block(K, np), tmp, 6 * np)
    modifies w
    ensures fresh(c1) && c1.Length == cw
    ensures var Np := ResidueSize(M, K); var np := WordsFor(Np);
      && |x| == K && M <= 2 * Np && Val(c1[..]) == Wrapped(Assembled(Backward(t, M), x, M, Np, cw), cn, N)
      && Only2(old(w[..]), w[..], tr, Block(K, np), tmp, 6 * np)
  {
    hide Held, IsPow3, IsPerm, Only2, Only, BlocksHeld, Block, ResidueSize, BlockStart, WordsFor, Apart, Backward,
      Assembled, Fold, Val, Low;
    c1 := new Word[cw];
    Clear(c1, N / 64, cw);
    x := IftInner(w, tr, tmp, c1, 0, cw, M, K, perm, t);
    ghost var S := Assembled(Backward(t, M), x, M, ResidueSize(M, K), cw);
    ghost var s := c1[..];
    AssembledFits(Backward(t, M), x, M, ResidueSize(M, K), cw);
    HeldPart(s, 0, cw, S);
    assert s[0..0 + cw] == s;
    PrefixValue(s, cn);
    assert c1[..cn] == s[..cn];
    PrefixReach(s, cn);
    assert (64 * cn + 64 - 1) / 64 == cn;
    Wrap(c1, 64 * cn, N);
    ghost var v := c1[..];
    assert v[..cn] == c1[..cn] && v[cn..] == c1[cn..] && s[cn..] == v[cn..];
    WrappedValue(s, v, cn, N);
  }

  lemma AssembledFits(C: seq<Poly>, x: seq<Word>, M: nat, Np: nat, cn: nat)
    requires |C| == |x| && M <= 2 * Np
    ensures Fits(Assembled(C, x, M, Np, cn), cn)
  {
    hide EvalAt, Strays, Pending, Add;
  }

  lemma PrefixReach(s: seq<Word>, k: nat)
    requires k <= |s|
    ensures Deg(Val(s[..k])) < 64 * k || Deg(Val(s[..k])) == -1
  {
    hide Val;
    PrefixValue(s, k);
  }

  lemma WrappedValue(s: seq<Word>, v: seq<Word>, cn: nat, N: nat)
    requires cn <= |s| == |v| && v[cn..] == s[cn..]
    requires Val(v[..cn]) == if 64 * cn <= N then Val(s[..cn]) else Fold(Val(s[..cn]), N)
    ensures 64 * cn <= N ==> Val(v) == Wrapped(Val(s), cn, N)
    ensures 64 * cn > N ==> Val(v) == Wrapped(Val(s), cn, N)
  {
    hide Val, Fold, Low, High;
    PrefixValue(s, cn);
    PrefixValue(v, cn);
    if 64 * cn <= N {
      ValInjective(v[..cn], s[..cn]);
      assert v == v[..cn] + v[cn..] == s[..cn] + s[cn..] == s;
    } else {
      TwoParts(Val(v), Val(s), cn);
    }
  }

  lemma TwoParts(a: Poly, b: Poly, cn: nat)
    requires High(a, 64 * cn) == High(b, 64 * cn)
    ensures a == Add(Low(a, 64 * cn), From(b, 64 * cn))
  {
    hide High;
    forall i: nat | i >= 64 * cn
      ensures i in a <==> i in b
    {
      assert i - 64 * cn in High(a, 64 * cn) <==> i - 64 * cn + 64 * cn in a;
      assert i - 64 * cn in High(b, 64 * cn) <==> i - 64 * cn + 64 * cn in b;
    }
  }

  // ---------------------------------------------------------------- both halves

  ghost function SpectrumOf(A: Poly, M: nat, K: nat): (r: seq<Poly>)
    requires 0 < M && IsPow3(K) && 3 <= K
    ensures |r| == K
  {
    Forward(Chunks(Fold(A, BlockStart(K, M)), M, K), M)
  }

  /** The two halves of a transform with blocks of M + 1 and M bits lie at tr and behind the first at tr + off. */
  ghost predicate BothHeld(s: seq<Word>, tr: nat, off: nat, M: nat, K: nat, C1: seq<Poly>, C2: seq<Poly>)
    requires 3 <= K
  {
    && BlocksHeld(s, tr, WordsFor(ResidueSize(M + 1, K)), C1, ResidueSize(M + 1, K))
    && BlocksHeld(s, tr + off, WordsFor(ResidueSize(M, K)), C2, ResidueSize(M, K))
  }

  /** The sizes of the two halves. */
  ghost predicate HalfSizes(M: nat, K: nat, np1: nat, np2: nat, off: nat) {
    && 0 < M && IsPow3(K) && 3 <= K && np1 == WordsFor(ResidueSize(M + 1, K)) && np2 == WordsFor(ResidueSize(M, K))
    && off == Block(K, np1) && np2 <= np1 && Block(K, np2) <= off
    && WordsFor(2 * ResidueSize(M + 1, K)) <= 2 * np1 && WordsFor(2 * ResidueSize(M, K)) <= 2 * np2
    && 0 < ResidueSize(M, K) && 0 < ResidueSize(M + 1, K)
  }

  lemma SizesOf(M: nat, K: nat)
    requires 0 < M && IsPow3(K) && 3 <= K
    ensures var np1, np2 := WordsFor(ResidueSize(M + 1, K)), WordsFor(ResidueSize(M, K));
      HalfSizes(M, K, np1, np2, Block(K, np1))
  {
    hide WordsFor, IsPow3, ResidueSize, RootExponent;
    Sizes(M, K);
    Sizes(M + 1, K);
    ResidueGrows(M, K);
    var np1, np2 := WordsFor(ResidueSize(M + 1, K)), WordsFor(ResidueSize(M, K));
    MoreWords(ResidueSize(M, K), ResidueSize(M + 1, K));
    DoubleWords(ResidueSize(M, K));
    DoubleWords(ResidueSize(M + 1, K));
    BlockGrows(K, np2, np1);
  }

  lemma ResidueGrows(M: nat, K: nat)
    requires 3 <= K
    ensures ResidueSize(M, K) <= ResidueSize(M + 1, K)
  {
    hide Ceil;
    CeilGrows(M, K / 3);
    FactorGrows(RootExponent(M, K), RootExponent(M + 1, K), K / 3);
  }

  lemma CeilGrows(a: nat, b: nat)
    requires 0 < b
    ensures Ceil(a, b) <= Ceil(a + 1, b)
  {
    var q, q' := Ceil(a, b), Ceil(a + 1, b);
    assert a + b == b * q' + (a + b) % b && a + b - 1 == b * q + (a + b - 1) % b;
    OneMore(q', b);
    SmallerFactor(q, q' + 1, b, a + b);
  }

  lemma OneMore(q: int, b: int)
    ensures (q + 1) * b == b * q + b
  {
  }

  lemma FactorGrows(a: nat, b: nat, k: nat)
    ensures a <= b ==> a * k <= b * k
  {
  }

  lemma BlockGrows(K: nat, n: nat, m: nat)
    requires n <= m
    ensures Block(K, n) <= Block(K, m)
  {
    FactorGrows(2 * n, 2 * m, K);
  }

  /** Both halves keep what they hold if nothing but the regions {p, n} and {q, m} is written. */
  lemma BothKept(s: seq<Word>, t: seq<Word>, tr: nat, off: nat, M: nat, K: nat, C1: seq<Poly>, C2: seq<Poly>, np1: nat,
                 np2: nat, p: nat, n: nat, q: nat, m: nat)
    requires HalfSizes(M, K, np1, np2, off) && |C1| == |C2| == K && BothHeld(s, tr, off, M, K, C1, C2)
      && Only2(s, t, p, n, q, m)
    requires Apart(p, n, tr, 2 * off) && Apart(q, m, tr, 2 * off)
    ensures BothHeld(t, tr, off, M, K, C1, C2)
  {
    hide BlocksHeld, Only2, ResidueSize, WordsFor, Block, IsPow3;
    ResiduesKept(s, t, tr, np1, C1, ResidueSize(M + 1, K), p, n, q, m);
    ResiduesKept(s, t, tr + off, np2, C2, ResidueSize(M, K), p, n, q, m);
  }

  /** gf2x_tfft_dft for a split transform. */
  method DftSplit(w: array<Word>, tr: nat, off: nat, tmp: nat, src: array<Word>, a: nat, an: nat, M: nat, K: nat,
                  n1: nat, n2: nat, perm: array<nat>, ghost A: Poly, ghost np1: nat, ghost np2: nat)
    requires HalfSizes(M, K, np1, np2, off) && IsPerm(perm, K) && w != src && Held(src[..], a, an, A) && Fits(A, an)
      && 0 < an
    requires n1 == BlockStart(K, M + 1) && n2 == BlockStart(K, M) && 0 < n2 <= n1 && 64 * an <= 2 * n2
    requires tr + 2 * off <= w.Length && tmp + 6 * np1 <= w.Length && Apart(tr, 2 * off, tmp, 6 * np1)
    modifies w
    ensures BothHeld(w[..], tr, off, M, K, SpectrumOf(A, M + 1, K), SpectrumOf(A, M, K))
    ensures Only2(old(w[..]), w[..], tr, 2 * off, tmp, 6 * np1)
  {
    hide Held, Fits, IsPow3, IsPerm, Only2, BlocksHeld, Block, BlockStart, Forward, ResidueSize, WordsFor, Fold, Chunks;
    ghost var s := w[..];
    DftHalf(w, tr, tmp, src, a, an, M + 1, K, n1, perm, A);
    ghost var s1 := w[..];
    Only2Same(s, tr, 2 * off, tmp, 6 * np1);
    Only2Then(s, s, s1, tr, 2 * off, tmp, 6 * np1, tr, off, tmp, 6 * np1);
    DftHalf(w, tr + off, tmp, src, a, an, M, K, n2, perm, A);
    ResiduesKept(s1, w[..], tr, np1, SpectrumOf(A, M + 1, K), ResidueSize(M + 1, K), tr + off, Block(K, np2), tmp,
      6 * np2);
    Only2Then(s, s1, w[..], tr, 2 * off, tmp, 6 * np1, tr + off, Block(K, np2), tmp, 6 * np2);
  }

  /** gf2x_tfft_compose for a split transform. */
  method ComposeSplit(t: ToomSpace.Tuning, w: array<Word>, tc: nat, ta: nat, tb: nat, off: nat, tmp: nat, tl: nat,
                      M: nat, K: nat, ghost A: Poly, ghost B: Poly, ghost np1: nat, ghost np2: nat)
    requires t.Valid() && HalfSizes(M, K, np1, np2, off)
    requires BothHeld(w[..], ta, off, M, K, SpectrumOf(A, M + 1, K), SpectrumOf(A, M, K))
    requires BothHeld(w[..], tb, off, M, K, SpectrumOf(B, M + 1, K), SpectrumOf(B, M, K))
    requires Apart(tc, 2 * off, ta, 2 * off) && Apart(tc, 2 * off, tb, 2 * off)
    requires Apart(tmp, tl, tc, 2 * off) && Apart(tmp, tl, ta, 2 * off) && Apart(tmp, tl, tb, 2 * off)
    requires tc + 2 * off <= w.Length && tmp + tl <= w.Length && 4 * np1 + ToomSpace.Space(t, 2 * np1) <= tl
      && 6 * np1 <= tl
    modifies w
    ensures BothHeld(w[..], tc, off, M, K,
      Pointwise(SpectrumOf(A, M + 1, K), SpectrumOf(B, M + 1, K), ResidueSize(M + 1, K)),
                     Pointwise(SpectrumOf(A, M, K), SpectrumOf(B, M, K), ResidueSize(M, K)))
    ensures Only2(old(w[..]), w[..], tc, 2 * off, tmp, tl)
  {
    hide IsPow3, Only2, BlocksHeld, Block, ResidueSize, WordsFor, SpectrumOf, Pointwise, ToomSpace.Space;
    ghost var s := w[..];
    ghost var u1, u2, v1, v2 := SpectrumOf(A, M + 1, K), SpectrumOf(A, M, K), SpectrumOf(B, M + 1, K),
      SpectrumOf(B, M, K);
    ComposeInner(t, w, tc, ta, tb, tmp, tl, M + 1, K, u1, v1);
    ghost var s1 := w[..];
    BothKept(s, s1, ta, off, M, K, u1, u2, np1, np2, tc, off, tmp, tl);
    BothKept(s, s1, tb, off, M, K, v1, v2, np1, np2, tc, off, tmp, tl);
    Only2Same(s, tc, 2 * off, tmp, tl);
    Only2Then(s, s, s1, tc, 2 * off, tmp, tl, tc, off, tmp, tl);
    ToomSpace.SpaceMonotone(t, 2 * np2, 2 * np1);
    ComposeInner(t, w, tc + off, ta + off, tb + off, tmp, tl, M, K, u2, v2);
    ghost var P := Pointwise(u1, v1, ResidueSize(M + 1, K));
    PointwiseLength(u1, v1, ResidueSize(M + 1, K));
    ResiduesKept(s1, w[..], tc, np1, P, ResidueSize(M + 1, K), tc + off, Block(K, np2), tmp, tl);
    Only2Then(s, s1, w[..], tc, 2 * off, tmp, tl, tc + off, Block(K, np2), tmp, tl);
  }

  lemma PointwiseLength(u: seq<Poly>, v: seq<Poly>, Np: nat)
    requires |u| == |v| && 0 < Np
    ensures |Pointwise(u, v, Np)| == |u|
  {
  }

  // ---------------------------------------------------------------- the split product

  datatype Outcome = Done | TooShort | Inconsistent

  /** The words into which the two halves are put. */
  function SplitWords(an: nat, bn: nat, K: nat): nat
    requires 0 < K
  {
    WordsFor(2 * BlockStart(K, SplitLength(an, bn, K) + 1))
  }

  /** The half modulo x^(K m1) + 1. */
  ghost function HalfOne(A: Poly, an: nat, B: Poly, bn: nat, K: nat, x: seq<Word>): Poly
    requires IsPow3(K) && 3 <= K == |x|
  {
    HalfValue(A, an, B, bn, SplitLength(an, bn, K) + 1, K, SplitWords(an, bn, K), x)
  }

  /** The half modulo x^(K (m1 - 1)) + 1. */
  ghost function HalfTwo(A: Poly, an: nat, B: Poly, bn: nat, K: nat, x: seq<Word>): Poly
    requires IsPow3(K) && 3 <= K == |x| && 0 < SplitLength(an, bn, K)
  {
    HalfValue(A, an, B, bn, SplitLength(an, bn, K), K, SplitWords(an, bn, K), x)
  }

  /** The product C is in {c, an + bn}. */
  ghost predicate HasProduct(r: Outcome, s: seq<Word>, c: nat, n: nat, C: Poly) {
    r == Done && Held(s, c, n, C)
  }

  /** What can be said of the result when the two halves H1 and H2 are put together.  If H1 is right in the words of
      the product, the result is C just when H2 is right at the positions where it is read.  If H1 is wrong modulo
      x^n1 + 1, so is the result.  A result that is C has passed the test of the low word of H2. */
  ghost predicate SplitResult(r: Outcome, s: seq<Word>, c: nat, an: nat, bn: nat, K: nat, C: Poly, H1: Poly, H2: Poly)
    requires 0 < K
  {
    var n, n1, n2 := 64 * (an + bn), BlockStart(K, SplitLength(an, bn, K) + 1), BlockStart(K, SplitLength(an, bn, K));
    && (Low(H1, n) == Fold(C, n1) ==> (HasProduct(r, s, c, an + bn, C) <==> SameRead(H2, Fold(C, n2), K, n1, n)))
    && (n1 % 64 != 0 && Fold(Low(H1, n), n1) != Fold(C, n1) ==> !HasProduct(r, s, c, an + bn, C))
    && (HasProduct(r, s, c, an + bn, C) ==> LowWordFits(C, H2, n2))
  }

  method SplitTransforms(t: ToomSpace.Tuning, w: array<Word>, off: nat, tl: nat, mem: array<Word>, a: nat, an: nat,
                         b: nat, bn: nat,
                         M: nat, K: nat, n1: nat, n2: nat, perm: array<nat>, ghost A: Poly, ghost B: Poly,
                         ghost np1: nat, ghost np2: nat)
    requires t.Valid() && HalfSizes(M, K, np1, np2, off) && IsPerm(perm, K) && w != mem && 0 < an && 0 < bn
    requires Held(mem[..], a, an, A) && Held(mem[..], b, bn, B) && Fits(A, an) && Fits(B, bn)
    requires n1 == BlockStart(K, M + 1) && n2 == BlockStart(K, M) && 0 < n2 <= n1 && 64 * (an + bn) <= 2 * n2
    requires w.Length == 6 * off + tl + 1 && 4 * np1 + ToomSpace.Space(t, 2 * np1) <= tl && 6 * np1 <= tl
    modifies w
    ensures BothHeld(w[..], 4 * off + tl, off, M, K,
      Pointwise(SpectrumOf(A, M + 1, K), SpectrumOf(B, M + 1, K), ResidueSize(M + 1, K)),
                     Pointwise(SpectrumOf(A, M, K), SpectrumOf(B, M, K), ResidueSize(M, K)))
  {
    hide Held, Fits, IsPow3, IsPerm, Only2, BothHeld, BlockStart, ResidueSize, SpectrumOf, Pointwise, ToomSpace.Space,
      HalfSizes;
    HalfFacts(M, K, np1, np2, off);
    ghost var sm := mem[..];
    DftSplit(w, 0, off, 4 * off, mem, a, an, M, K, n1, n2, perm, A, np1, np2);
    ghost var s1 := w[..];
    assert mem[..] == sm;
    DftSplit(w, 2 * off, off, 4 * off, mem, b, bn, M, K, n1, n2, perm, B, np1, np2);
    BothKept(s1, w[..], 0, off, M, K, SpectrumOf(A, M + 1, K), SpectrumOf(A, M, K), np1, np2, 2 * off, 2 * off, 4 * off,
      6 * np1);
    ComposeSplit(t, w, 4 * off + tl, 0, 2 * off, off, 4 * off, tl, M, K, A, B, np1, np2);
  }

  lemma HalfFacts(M: nat, K: nat, np1: nat, np2: nat, off: nat)
    requires HalfSizes(M, K, np1, np2, off)
    ensures 0 < M && IsPow3(K) && 3 <= K && 0 < ResidueSize(M, K) && 0 < ResidueSize(M + 1, K) && np2 <= np1
    ensures np1 == WordsFor(ResidueSize(M + 1, K)) && np2 == WordsFor(ResidueSize(M, K)) && off == Block(K, np1)
      && Block(K, np2) <= off
    ensures WordsFor(2 * ResidueSize(M, K)) <= 2 * np2
  {
    hide WordsFor, ResidueSize, IsPow3, Block;
  }

  /** gf2x_tfft_ift for a split transform, up to the reconstruction. */
  method SplitInverse(w: array<Word>, tc: nat, off: nat, tmp: nat, an: nat, bn: nat, M: nat, K: nat, n1: nat, n2: nat,
                      perm: array<nat>, ghost A: Poly, ghost B: Poly, ghost np1: nat, ghost np2: nat)
      returns (c1: array<Word>, c2: array<Word>, ghost x1: seq<Word>, ghost x2: seq<Word>)
    requires HalfSizes(M, K, np1, np2, off) && IsPerm(perm, K) && M == SplitLength(an, bn, K)
    requires n1 == BlockStart(K, M + 1) && n2 == BlockStart(K, M) && 0 < n2 <= n1 && 64 * (an + bn) <= 2 * n2
    requires tc + 2 * off < w.Length && tmp + 6 * np1 <= w.Length && Apart(tc, 2 * off, tmp, 6 * np1)
    requires BothHeld(w[..], tc, off, M, K,
      Pointwise(SpectrumOf(A, M + 1, K), SpectrumOf(B, M + 1, K), ResidueSize(M + 1, K)),
                      Pointwise(SpectrumOf(A, M, K), SpectrumOf(B, M, K), ResidueSize(M, K)))
    modifies w
    ensures fresh(c1) && fresh(c2) && c1 != c2 && c1.Length == c2.Length == SplitWords(an, bn, K) && |x1| == K
      && |x2| == K
    ensures Val(c1[..]) == HalfOne(A, an, B, bn, K, x1) && Val(c2[..]) == HalfTwo(A, an, B, bn, K, x2)
  {
    hide Held, IsPow3, IsPerm, Only2, BlockStart, ResidueSize, Pointwise, HalfSizes, BlocksHeld, WordsFor, Block, Val,
      Wrapped, Assembled, Backward, Forward, Chunks, Fold, SplitLength, Min;
    HalfFacts(M, K, np1, np2, off);
    ghost var s := w[..];
    ghost var P1 := Pointwise(SpectrumOf(A, M + 1, K), SpectrumOf(B, M + 1, K), ResidueSize(M + 1, K));
    ghost var P2 := Pointwise(SpectrumOf(A, M, K), SpectrumOf(B, M, K), ResidueSize(M, K));
    PointwiseLength(SpectrumOf(A, M + 1, K), SpectrumOf(B, M + 1, K), ResidueSize(M + 1, K));
    PointwiseLength(SpectrumOf(A, M, K), SpectrumOf(B, M, K), ResidueSize(M, K));
    var cn := WordsFor(2 * n1);
    WordsOfHalf(an, bn, n1, n1);
    WordsOfHalf(an, bn, n2, n1);
    c1, x1 := IftHalf(w, tc, tmp, cn, HalfWords(an, bn, n1), M + 1, K, n1, perm, P1);
    ghost var v := c1[..];
    ResiduesKept(s, w[..], tc + off, np2, P2, ResidueSize(M, K), tc, off, tmp, 6 * np1);
    c2, x2 := IftHalf(w, tc + off, tmp, cn, HalfWords(an, bn, n2), M, K, n2, perm, P2);
    assert c1[..] == v;
  }

  lemma WordsOfHalf(an: nat, bn: nat, N: nat, N1: nat)
    requires 64 * (an + bn) <= 2 * N && N <= N1
    ensures HalfWords(an, bn, N) <= WordsFor(2 * N1) && 64 * HalfWords(an, bn, N) <= 2 * N
  {
    assert WordsFor(Min(N, 64 * an)) <= an && WordsFor(Min(N, 64 * bn)) <= bn;
  }

  /** The reconstruction, or the end of the program if the halves are found to be inconsistent. */
  method Reconstructed(mem: array<Word>, c: nat, c1: array<Word>, c2: array<Word>, an: nat, bn: nat, K: nat, n1: nat,
                       n2: nat, ghost C: Poly, ghost H1: Poly, ghost H2: Poly) returns (r: Outcome)
    requires mem != c1 && mem != c2 && c1 != c2 && c + an + bn <= mem.Length && 64 <= K <= n2 && n1 == n2 + K
    requires n1 == BlockStart(K, SplitLength(an, bn, K) + 1) && n2 == BlockStart(K, SplitLength(an, bn, K))
    requires 64 * (an + bn) <= 2 * n2 && n1 + 64 <= 64 * (an + bn) && an + bn <= c1.Length && an + bn <= c2.Length
    requires Val(c1[..]) == H1 && Val(c2[..]) == H2 && Deg(C) < 64 * (an + bn)
    modifies mem, c1
    ensures r != TooShort && SplitResult(r, mem[..], c, an, bn, K, C, H1, H2)
    ensures if r == Done then Only(old(mem[..]), mem[..], c, an + bn) else mem[..] == old(mem[..])
  {
    hide Held, Fits, Only, Val, Fold, SplitLength, BlockStart, Deg, LowWordFits, SameRead, Low;
    ghost var cn := an + bn;
    ghost var s1, s2 := c1[..], c2[..];
    assert c1[..cn] == s1[..cn] && c2[..cn] == s2[..cn];
    PrefixValue(s1, cn);
    PrefixValue(s2, cn);
    var ok;
    ghost var V;
    ok, V := SplitReconstruct(mem, c, c1, c2, an + bn, K, n1, n2, C);
    r := if ok then Done else Inconsistent;
    assert c2[..cn] == s2[..cn];
    ReadLow(H2, Fold(C, n2), K, n1, n2, 64 * cn);
    if ok {
      SameResult(mem[..], c, cn, V, C);
      LowWordOf(V, s2, cn, n2);
    }
  }

  /** The second half is read in the words of the product only. */
  lemma ReadLow(H: Poly, F: Poly, K: nat, n1: nat, n2: nat, n: nat)
    requires n1 == n2 + K && n1 + 64 <= n <= 2 * n2
    ensures SameRead(Low(H, n), F, K, n1, n) <==> SameRead(H, F, K, n1, n)
  {
    hide Low;
  }

  lemma SplitFacts(an: nat, bn: nat, K: nat, m2: nat, n1: int, n2: int)
    requires 0 < an + bn && 0 < K && m2 == SplitLength(an, bn, K) && n1 == K * (m2 + 1) && n2 == K * m2
      && n1 + 64 <= 64 * (an + bn)
    ensures 0 < m2 && n1 == BlockStart(K, m2 + 1) && n2 == BlockStart(K, m2) && 0 < n2 && n1 == n2 + K && K <= n2
    ensures 64 * (an + bn) <= 2 * n2 && an + bn <= SplitWords(an, bn, K) && SplitWords(an, bn, K) == WordsFor(2 * n1)
  {
    hide SplitLength;
    SplitSizes(an, bn, K);
  }

  lemma DegreeOfProduct(A: Poly, an: nat, B: Poly, bn: nat)
    requires Fits(A, an) && Fits(B, bn) && 0 < an && 0 < bn
    ensures Deg(Mul(A, B)) < 64 * (an + bn)
  {
    hide Deg, Mul, Fits;
    FitsDegree(A, an);
    FitsDegree(B, bn);
    DegMul(A, B);
  }

  lemma SameResult(s: seq<Word>, c: nat, n: nat, V: Poly, C: Poly)
    requires Held(s, c, n, V) && Fits(V, n) && Deg(C) < 64 * n
    ensures Held(s, c, n, C) ==> V == C
  {
    hide W;
    if Held(s, c, n, C) {
      ReachFits(C, 64 * n);
      assert WordsFor(64 * n) == n;
      forall j | 0 <= j < n
        ensures W(V, j) == W(C, j)
      {
        assert s[c + j] == W(V, c + j - c) && s[c + j] == W(C, c + j - c);
      }
      WordsDetermine(V, C, n);
    }
  }

  lemma LowWordOf(V: Poly, s: seq<Word>, k: nat, n2: nat)
    requires 0 < k <= |s| && LowWordFits(V, Val(s[..k]), n2)
    ensures LowWordFits(V, Val(s), n2)
  {
    hide Val;
    PrefixValue(s, k);
    forall b: nat | b < 64
      ensures b in Val(s) <==> (b in V) != (b + n2 in V)
    {
      assert b in Val(s[..k]) <==> b in Val(s);
    }
  }

  /** The two halves of the product, in buffers of the length that the source gives them. */
  method ProductHalves(t: ToomSpace.Tuning, mem: array<Word>, a: nat, an: nat, b: nat, bn: nat, K: nat, m2: nat,
                       n1: nat, n2: nat, ghost A: Poly, ghost B: Poly)
      returns (c1: array<Word>, c2: array<Word>, ghost x1: seq<Word>, ghost x2: seq<Word>)
    requires t.Valid() && IsPow3(K) && 64 <= K && 0 < an && 0 < bn && 0 < m2 && m2 == SplitLength(an, bn, K)
    requires Held(mem[..], a, an, A) && Held(mem[..], b, bn, B) && Fits(A, an) && Fits(B, bn)
    requires n1 == BlockStart(K, m2 + 1) && n2 == BlockStart(K, m2) && 0 < n2 <= n1 && 64 * (an + bn) <= 2 * n2
    ensures fresh(c1) && fresh(c2) && c1 != c2 && c1.Length == c2.Length == SplitWords(an, bn, K) && |x1| == K
      && |x2| == K
    ensures Val(c1[..]) == HalfOne(A, an, B, bn, K, x1) && Val(c2[..]) == HalfTwo(A, an, B, bn, K, x2)
  {
    hide Held, Fits, IsPow3, IsPerm, Block, BlockStart, ResidueSize, WordsFor, SplitLength, ToomSpace.Space, HalfOne,
      HalfTwo, HalfSizes, BothHeld, SplitWords;
    var np1 := WordsFor(ResidueSize(m2 + 1, K));
    ghost var np2 := WordsFor(ResidueSize(m2, K));
    SizesOf(m2, K);
    var off := Block(K, np1);
    var tl := 4 * np1 + (if ToomSpace.Space(t, 2 * np1) < 2 * np1 then 2 * np1 else ToomSpace.Space(t, 2 * np1));
    var perm := MakePerm(K);
    var w := new Word[2 * off + 2 * off + tl + 2 * off + 1];
    SplitTransforms(t, w, off, tl, mem, a, an, b, bn, m2, K, n1, n2, perm, A, B, np1, np2);
    c1, c2, x1, x2 := SplitInverse(w, 4 * off + tl, off, 4 * off, an, bn, m2, K, n1, n2, perm, A, B, np1, np2);
  }

  /** gf2x_mul_fft with transforms of length K for each of two halves: {c, an + bn} <- {a, an} * {b, bn} if the
      halves are right.  The ghost results say what the halves are: H1 modulo x^n1 + 1 and H2 modulo x^n2 + 1. */
  method MulFftSplit(t: ToomSpace.Tuning, mem: array<Word>, c: nat, a: nat, an: nat, b: nat, bn: nat, K: nat,
                     ghost A: Poly, ghost B: Poly)
      returns (r: Outcome, ghost x1: seq<Word>, ghost x2: seq<Word>)
    requires t.Valid() && IsPow3(K) && 64 <= K && 0 < an && 0 < bn && c + an + bn <= mem.Length
    requires Held(mem[..], a, an, A) && Held(mem[..], b, bn, B) && Fits(A, an) && Fits(B, bn)
    requires K * (SplitLength(an, bn, K) + 1) + 64 <= 64 * (an + bn)
    modifies mem
    ensures r == TooShort <==> an + bn < MUL_FFT_THRESHOLD
    ensures r != TooShort ==> var M := SplitLength(an, bn, K); 0 < M && |x1| == K && |x2| == K
    ensures r != TooShort ==> SplitResult(r, mem[..], c, an, bn, K, Mul(A, B), HalfOne(A, an, B, bn, K, x1),
                              HalfTwo(A, an, B, bn, K, x2))
    ensures if r == Done then Only(old(mem[..]), mem[..], c, an + bn) else mem[..] == old(mem[..])
  {
    hide Held, Fits, IsPow3, Only, BlockStart, SplitLength, Mul, HalfOne, HalfTwo, Deg, SplitResult, SplitWords,
      WordsFor;
    x1, x2 := [], [];
    if an + bn < MUL_FFT_THRESHOLD {
      return TooShort, x1, x2;
    }
    var m2 := SplitLength(an, bn, K);
    var n1 := K * (m2 + 1);
    var n2 := K * m2;
    SplitFacts(an, bn, K, m2, n1, n2);
    var c1, c2;
    c1, c2, x1, x2 := ProductHalves(t, mem, a, an, b, bn, K, m2, n1, n2, A, B);
    DegreeOfProduct(A, an, B, bn);
    r := Reconstructed(mem, c, c1, c2, an, bn, K, n1, n2, Mul(A, B), HalfOne(A, an, B, bn, K, x1),
      HalfTwo(A, an, B, bn, K, x2));
  }
}
