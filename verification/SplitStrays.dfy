/** What a word that is read behind a residue does to the split product of gf2x-1.1/fft.c: operands, and words behind
    the
    blocks, for which the product comes out wrong. */
module SplitStrays {
  import opened Numbers
  import opened Polynomials
  import opened FftAlgebra
  import opened Blocks
  import opened FftMul
  import opened FftLimits
  import opened Words
  import opened WordMemory
  import opened ResidueWords
  import opened SplitFft
  import opened SplitProduct
  import StrayPositions

  /** With the words x1 and x2 behind the blocks every result that is possible is the product. */
  ghost predicate Right(A: Poly, an: nat, B: Poly, bn: nat, K: nat, x1: seq<Word>, x2: seq<Word>)
    requires IsPow3(K) && 3 <= K == |x1| && |x2| == K && 0 < SplitLength(an, bn, K)
  {
    forall r: Outcome, s: seq<Word>, c: nat |
      SplitResult(r, s, c, an, bn, K, Mul(A, B), HalfOne(A, an, B, bn, K, x1), HalfTwo(A, an, B, bn, K, x2)) ::
      HasProduct(r, s, c, an + bn, Mul(A, B))
  }

  /** None of them is. */
  ghost predicate Wrong(A: Poly, an: nat, B: Poly, bn: nat, K: nat, x1: seq<Word>, x2: seq<Word>)
    requires IsPow3(K) && 3 <= K == |x1| && |x2| == K && 0 < SplitLength(an, bn, K)
  {
    forall r: Outcome, s: seq<Word>, c: nat |
      SplitResult(r, s, c, an, bn, K, Mul(A, B), HalfOne(A, an, B, bn, K, x1), HalfTwo(A, an, B, bn, K, x2)) ::
      !HasProduct(r, s, c, an + bn, Mul(A, B))
  }

  // ---------------------------------------------------------------- one bit too much

  /** More words are wrapped than x^N reaches. */
  lemma WrapsFar(an: nat, bn: nat, N: nat)
    requires 0 < an && 0 < bn && 0 < N && N + 64 <= 64 * (an + bn) <= 2 * N
    ensures N + 64 <= 64 * HalfWords(an, bn, N) <= 2 * N && HalfWords(an, bn, N) <= an + bn
  {
    WordsAtLeast(an, N);
    WordsAtLeast(bn, N);
  }

  lemma WordsAtLeast(an: nat, N: nat)
    requires 0 < an
    ensures 64 * WordsFor(Min(N, 64 * an)) >= Min(N, 64 * an) && (N > 0 ==> 1 <= WordsFor(Min(N, 64 * an)) <= an)
    ensures N >= 64 * an ==> WordsFor(Min(N, 64 * an)) == an
  {
  }

  lemma WrappedAt(S: Poly, cn: nat, N: nat, i: nat)
    requires N < 64 * cn <= 2 * N
    ensures i in Wrapped(S, cn, N)
      <==> if i < N then (i in S) != (i + N < 64 * cn && i + N in S) else 64 * cn <= i && i in S
  {
    hide Low, From, Fold;
    FoldBit(Low(S, 64 * cn), N, i);
  }

  /** The sum E with bit b added, in cw words of which cn are wrapped. */
  lemma StrayedBit(E: Poly, S: Poly, cn: nat, cw: nat, N: nat, b: nat, p: nat)
    requires S == Low(Add(E, {b}), 64 * cw) && N < 64 * cn <= 2 * N && cn <= cw && Deg(E) < 64 * cn && p < N
    ensures p in Wrapped(S, cn, N) <==> (p in Fold(E, N)) != (p == b || (p + N == b && b < 64 * cn))
  {
    hide Low, Add, Wrapped, Fold, Deg;
    WrappedAt(S, cn, N, p);
    FoldBit(E, N, p);
    BitAdded(E, b, p);
    BitAdded(E, b, p + N);
    if 64 * cn <= p + N {
      AboveDegree(E, p + N);
    }
  }

  lemma BitAdded(E: Poly, b: nat, i: nat)
    ensures i in Add(E, {b}) <==> (i in E) != (i == b)
  {
    hide Add;
  }

  lemma StrayedFold(E: Poly, S: Poly, cn: nat, cw: nat, n: nat, N: nat, b: nat)
    requires S == Low(Add(E, {b}), 64 * cw) && N < 64 * cn <= n <= 2 * N && n <= 64 * cw && Deg(E) < 64 * cn && b < n
    ensures Fold(Low(Wrapped(S, cn, N), n), N) != Fold(E, N)
  {
    hide Low, Add, Wrapped, Fold, Deg;
    var H, p := Wrapped(S, cn, N), if b < N then b else b - N;
    StrayedBit(E, S, cn, cw, N, b, p);
    FoldBit(Low(H, n), N, p);
    WrappedAt(S, cn, N, p + N);
    BitAdded(E, b, p + N);
    if 64 * cn <= p + N {
      AboveDegree(E, p + N);
    }
    assert p in Fold(Low(H, n), N) <==> p !in Fold(E, N);
  }

  /** A half for which one bit is read too much. */
  lemma HalfStrayed(A: Poly, an: nat, B: Poly, bn: nat, M: nat, K: nat, cw: nat, j: nat, x: seq<Word>)
    requires 0 < M && IsPow3(K) && 3 <= K == |x| && 64 <= ResidueSize(M, K) && M <= ResidueSize(M, K)
    requires 0 < an && 0 < bn && Fits(A, an) && Fits(B, bn) && Deg(A) < BlockStart(K, M) && Deg(B) < BlockStart(K, M)
    requires var N := BlockStart(K, M); N + 64 <= 64 * (an + bn) <= 2 * N && an + bn <= cw
    requires 1 <= j < K && ReadsBehind(M, ResidueSize(M, K), an + bn, BlockStart(j, M))
    requires OneBit(CodedBlocks(A, B, M, K), x, M, ResidueSize(M, K), cw, j)
    ensures var N, b, H := BlockStart(K, M), StrayStart(j, M, ResidueSize(M, K)), HalfValue(A, an, B, bn, M, K, cw, x);
      && Fold(Low(H, 64 * (an + bn)), N) != Fold(Mul(A, B), N)
      && forall p: nat {:trigger p in H} :: p < N ==>
           (p in H <==> (p in Fold(Mul(A, B), N)) != (p == b || (p + N == b && b < 64 * HalfWords(an, bn, N))))
  {
    hide Deg, Fold, EvalAt, Mul, Low, CodedBlocks, ResidueSize, Assembled, Fits, Wrapped, OneBit, BlockStart, HalfWords,
      StrayStart;
    var N, hw := BlockStart(K, M), HalfWords(an, bn, BlockStart(K, M));
    var Np := ResidueSize(M, K);
    FoldSmall(A, N);
    FoldSmall(B, N);
    WrapsFar(an, bn, N);
    HalfSum(A, an, B, bn, M, K);
    StrayInside(j, M, Np, an + bn, cw);
    var C := CodedBlocks(A, B, M, K);
    AssembledOne(C, x, M, Np, cw, j);
    var E, b, S := EvalAt(C, M), StrayStart(j, M, Np), Assembled(C, x, M, Np, cw);
    StrayedFold(E, S, hw, cw, 64 * (an + bn), N, b);
    forall p: nat | p < N
      ensures p in Wrapped(S, hw, N) <==> (p in Fold(E, N)) != (p == b || (p + N == b && b < 64 * hw))
    {
      StrayedBit(E, S, hw, cw, N, b, p);
    }
  }

  lemma StrayInside(j: nat, M: nat, Np: nat, n: nat, cw: nat)
    requires 1 <= j && M <= 2 * Np && ReadsBehind(M, Np, n, BlockStart(j, M)) && n <= cw
    ensures Spoilt(M, Np, cw, j) && StrayStart(j, M, Np) < 64 * n
  {
    hide WordsFor, BlockStart;
  }

  // ---------------------------------------------------------------- the larger half

  lemma {:induction false} OddLength(K: nat, M: nat)
    requires IsPow3(K) && 0 < M % 64
    ensures BlockStart(K, M) % 64 != 0
    decreases K
  {
    if K == 1 {
    } else {
      OddLength(K / 3, M);
      ThreeTimes(K / 3, M);
      NotMultiple(BlockStart(K / 3, M));
    }
  }

  lemma ThreeTimes(k: nat, M: nat)
    ensures BlockStart(3 * k, M) == 3 * BlockStart(k, M)
  {
  }

  lemma NotMultiple(e: nat)
    ensures (3 * e) % 64 == 0 ==> e % 64 == 0
  {
    var q, r := e / 64, e % 64;
    assert e == 64 * q + r;
    assert 3 * e == 64 * (3 * q) + 3 * r;
    StrayPositions.Multiple64(3 * r, 3 * q);
    ThreeOf(r);
  }

  lemma ThreeOf(r: nat)
    requires r < 64
    ensures (3 * r) % 64 == 0 ==> r == 0
  {
  }

  lemma ShortBlock(j: nat, M: nat, Np: nat, n: nat)
    requires M <= 2 * Np && ReadsBehind(M, Np, n, BlockStart(j, M))
    ensures M < 63
  {
    hide BlockStart;
  }

  lemma AllWrong(A: Poly, an: nat, B: Poly, bn: nat, K: nat, x1: seq<Word>, x2: seq<Word>)
    requires IsPow3(K) && 3 <= K == |x1| && |x2| == K && 0 < SplitLength(an, bn, K)
    requires var n1 := BlockStart(K, SplitLength(an, bn, K) + 1);
      n1 % 64 != 0 && Fold(Low(HalfOne(A, an, B, bn, K, x1), 64 * (an + bn)), n1) != Fold(Mul(A, B), n1)
    ensures Wrong(A, an, B, bn, K, x1, x2)
  {
    hide HalfOne, HalfTwo, Fold, Low, Mul, HasProduct, SplitLength, BlockStart, IsPow3, SameRead, LowWordFits;
  }

  /** A block of the larger half that is read too far. */
  lemma UnclearOne(an: nat, bn: nat, K: nat, M: nat, j: nat) returns (A: Poly, B: Poly, x1: seq<Word>, x2: seq<Word>)
    requires 0 < an && 0 < bn && IsPow3(K) && 64 <= K && M == SplitLength(an, bn, K)
      && K * (M + 1) + 64 <= 64 * (an + bn)
    requires 64 <= ResidueSize(M + 1, K) && M + 1 <= ResidueSize(M + 1, K)
    requires 1 <= j < K && ReadsBehind(M + 1, ResidueSize(M + 1, K), an + bn, BlockStart(j, M + 1))
    ensures 0 < M && |x1| == |x2| == K && Fits(A, an) && Fits(B, bn) && Wrong(A, an, B, bn, K, x1, x2)
  {
    hide Deg, Fold, Mul, Low, CodedBlocks, ResidueSize, Fits, OneBit, BlockStart, HalfWords, IsPow3, Wrong, ReadsBehind,
      WordsFor, SplitLength, StrayStart, HalfValue;
    SplitFacts(an, bn, K, M, K * (M + 1), K * M);
    var cw := SplitWords(an, bn, K);
    A, B, x1 := StrayOperands(an, bn, M + 1, K, cw, j);
    x2 := x1;
    FitsDegree(A, an);
    FitsDegree(B, bn);
    HalfStrayed(A, an, B, bn, M + 1, K, cw, j, x1);
    ShortBlock(j, M + 1, ResidueSize(M + 1, K), an + bn);
    OddLength(K, M + 1);
    AllWrong(A, an, B, bn, K, x1, x2);
  }

  // ---------------------------------------------------------------- the smaller half

  /** Bit b of the sum of the smaller half is wrapped to a position that is read. */
  predicate Felt(b: nat, an: nat, bn: nat, K: nat, M: nat) {
    var n1, n2 := BlockStart(K, M + 1), BlockStart(K, M);
    b < 64 * HalfWords(an, bn, n2) && Read(if b < n2 then b else b - n2, K, n1, 64 * (an + bn))
  }

  lemma AllWrongTwo(A: Poly, an: nat, B: Poly, bn: nat, K: nat, x1: seq<Word>, x2: seq<Word>)
    requires IsPow3(K) && 3 <= K == |x1| && |x2| == K && 0 < SplitLength(an, bn, K)
    requires var n, n1, n2 := 64 * (an + bn), BlockStart(K, SplitLength(an, bn, K) + 1),
      BlockStart(K, SplitLength(an, bn, K));
      && Low(HalfOne(A, an, B, bn, K, x1), n) == Fold(Mul(A, B), n1)
      && !SameRead(HalfTwo(A, an, B, bn, K, x2), Fold(Mul(A, B), n2), K, n1, n)
    ensures Wrong(A, an, B, bn, K, x1, x2)
  {
    hide HalfOne, HalfTwo, Fold, Low, Mul, HasProduct, SplitLength, BlockStart, IsPow3, SameRead, LowWordFits;
  }

  lemma NotSame(V2: Poly, F: Poly, K: nat, n1: nat, n: nat, p: nat)
    requires Read(p, K, n1, n) && !(p in V2 <==> p in F)
    ensures !SameRead(V2, F, K, n1, n)
  {
  }

  /** A block of the smaller half that is read too far, at a position that is read again. */
  lemma FeltTwo(an: nat, bn: nat, K: nat, M: nat, j: nat) returns (A: Poly, B: Poly, x1: seq<Word>, x2: seq<Word>)
    requires 0 < an && 0 < bn && IsPow3(K) && 64 <= K && M == SplitLength(an, bn, K)
      && K * (M + 1) + 64 <= 64 * (an + bn)
    requires 64 <= ResidueSize(M, K) && M <= ResidueSize(M, K) && 64 <= ResidueSize(M + 1, K)
      && M + 1 <= ResidueSize(M + 1, K)
    requires BlocksClear(M + 1, ResidueSize(M + 1, K), K, an + bn)
    requires 1 <= j < K && ReadsBehind(M, ResidueSize(M, K), an + bn, BlockStart(j, M))
      && Felt(StrayStart(j, M, ResidueSize(M, K)), an, bn, K, M)
    ensures 0 < M && |x1| == |x2| == K && Fits(A, an) && Fits(B, bn) && Wrong(A, an, B, bn, K, x1, x2)
  {
    hide Deg, Fold, Mul, Low, CodedBlocks, ResidueSize, Fits, OneBit, BlockStart, HalfWords, IsPow3, Wrong, ReadsBehind,
      WordsFor, SplitLength, StrayStart, HalfValue, BlocksClear, SameRead, Read;
    var n1, n2 := K * (M + 1), K * M;
    SplitFacts(an, bn, K, M, n1, n2);
    var cw := SplitWords(an, bn, K);
    A, B, x2 := StrayOperands(an, bn, M, K, cw, j);
    x1 := x2;
    FitsDegree(A, an);
    FitsDegree(B, bn);
    HalfStrayed(A, an, B, bn, M, K, cw, j, x2);
    HalfRight(A, an, B, bn, M + 1, K, cw, x1);
    var b := StrayStart(j, M, ResidueSize(M, K));
    var p := if b < n2 then b else b - n2;
    WrapsFar(an, bn, n2);
    assert p < n2;
    NotSame(HalfTwo(A, an, B, bn, K, x2), Fold(Mul(A, B), n2), K, n1, 64 * (an + bn), p);
    AllWrongTwo(A, an, B, bn, K, x1, x2);
  }

  // ---------------------------------------------------------------- which blocks are read too far

  /** The only lengths for which blocks of the smaller half are read too far and that does no harm: blocks of 3 bits,
      K = 9 modulo 64, and 92 bits more than n1. */
  predicate Harmless(sc: nat, K: nat)
    requires 0 < K
  {
    var M := SplitLength(sc, 0, K);
    StrayPositions.NoTopBit(K, M, BlockStart(K, M + 1), 64 * sc)
  }

  lemma ShapeOf(an: nat, bn: nat, K: nat, M: nat, w: nat)
    requires 0 < an && 0 < bn && IsPow3(K) && 243 <= K && M == SplitLength(an, bn, K)
      && K * (M + 1) + 64 <= 64 * (an + bn)
    requires w == WordsFor(2 * (K / 3))
    ensures StrayPositions.Shape(K, M, w, BlockStart(K, M + 1), BlockStart(K, M), 64 * (an + bn))
  {
    hide IsPow3, SplitLength;
    SplitFacts(an, bn, K, M, K * (M + 1), K * M);
    LengthBelow(an, bn, K, M);
  }

  lemma LengthBelow(an: nat, bn: nat, K: nat, M: nat)
    requires 0 < K && M == SplitLength(an, bn, K)
    ensures K * M < 32 * (an + bn) + 32 + K
  {
    var e := 64 * Ceil(an + bn, 2);
    assert K * M <= e + K - 1 by {
      assert e + K - 1 == K * M + (e + K - 1) % K;
    }
  }

  lemma OneResidue(M: nat, K: nat)
    requires 243 <= K && 0 < M < 64
    ensures ResidueSize(M, K) == K / 3
  {
    assert Ceil(M, K / 3) == 1;
  }

  /** A word that is read too much begins at a position that is read again. */
  lemma FeltBlock(an: nat, bn: nat, K: nat, M: nat, j0: nat) returns (j: nat)
    requires 0 < an && 0 < bn && IsPow3(K) && 243 <= K && M == SplitLength(an, bn, K)
      && K * (M + 1) + 64 <= 64 * (an + bn)
    requires M <= ResidueSize(M, K) && 1 <= j0 < K && ReadsBehind(M, ResidueSize(M, K), an + bn, BlockStart(j0, M))
      && !Harmless(an + bn, K)
    ensures 1 <= j < K && ReadsBehind(M, ResidueSize(M, K), an + bn, BlockStart(j, M))
      && Felt(StrayStart(j, M, ResidueSize(M, K)), an, bn, K, M)
  {
    hide IsPow3, SplitLength, ResidueSize, HalfWords, ReadsBehind, WordsFor, StrayPositions.TooFar,
      StrayPositions.NoTopBit;
    var n1, n2, n := K * (M + 1), K * M, 64 * (an + bn);
    SplitFacts(an, bn, K, M, n1, n2);
    SumLength(an, bn, K);
    ShortBlock(j0, M, ResidueSize(M, K), an + bn);
    OneResidue(M, K);
    var w := WordsFor(2 * (K / 3));
    ShapeOf(an, bn, K, M, w);
    TooFarIs(j0, M, K, an + bn, w);
    j := StrayPositions.StrayFound(K, M, w, n1, n2, n, j0);
    WindowInside(K, M, w, n1, n2, n, j);
    TooFarIs(j, M, K, an + bn, w);
    WindowFelt(64 * w + BlockStart(j, M), an, bn, K, M);
  }

  lemma WindowFelt(b: nat, an: nat, bn: nat, K: nat, M: nat)
    requires 0 < an && 0 < bn && 0 < M
    requires var n1, n2, n := BlockStart(K, M + 1), BlockStart(K, M), 64 * (an + bn);
      0 < n2 && n2 + 64 <= n <= 2 * n2 && K <= b < K + n - n1 && b < n2
    ensures Felt(b, an, bn, K, M)
  {
    hide HalfWords, BlockStart;
    WrapsFar(an, bn, BlockStart(K, M));
  }

  lemma SumLength(an: nat, bn: nat, K: nat)
    requires 0 < K
    ensures SplitLength(an, bn, K) == SplitLength(an + bn, 0, K) && SplitWords(an, bn, K) == SplitWords(an + bn, 0, K)
  {
    hide BlockStart;
  }

  lemma WindowInside(K: nat, M: nat, w: nat, n1: nat, n2: nat, n: nat, j: nat)
    requires StrayPositions.Shape(K, M, w, n1, n2, n) && K <= 64 * w + BlockStart(j, M) < K + n - n1
    ensures 1 <= j < K && 64 * w + BlockStart(j, M) < n2
  {
    hide IsPow3;
    if K <= j {
      StrayPositions.AtMost(K, j, M);
    }
  }

  lemma TooFarIs(j: nat, M: nat, K: nat, n: nat, w: nat)
    requires 243 <= K && 0 < M < 64 && M <= 2 * ResidueSize(M, K) && ResidueSize(M, K) == K / 3
      && w == WordsFor(2 * (K / 3))
    ensures ReadsBehind(M, ResidueSize(M, K), n, BlockStart(j, M)) <==>
      StrayPositions.TooFar(StrayPositions.Start(j, M) % 64, K, M, w) && 64 * w + BlockStart(j, M) < 64 * n
  {
    hide ResidueSize;
    var pos := BlockStart(j, M);
    assert pos / 64 + w < n <==> 64 * w + pos < 64 * n;
  }

  // ---------------------------------------------------------------- words that do no harm

  /** Bit b of the sum is right although words are read too much. */
  lemma HarmlessBit(K: nat, w: nat, n1: nat, n2: nat, n: nat, C: seq<Poly>, x: seq<Word>, cw: nat, b: nat)
    requires StrayPositions.Shape(K, 3, w, n1, n2, n) && StrayPositions.NoTopBit(K, 3, n1, n)
      && w == WordsFor(2 * (K / 3))
    requires |C| == |x| == K && b < 64 * cw
    requires b < 64 || K <= b < K + 92 || n2 <= b < n2 + 64 || n2 + K <= b
    ensures 3 <= 2 * ResidueSize(3, K) && (b in Assembled(C, x, 3, ResidueSize(3, K), cw) <==> b in EvalAt(C, 3))
  {
    hide IsPow3, Assembled, EvalAt, ResidueSize, Spoilt, Misses, Behind;
    OneResidue(3, K);
    forall i: nat | i < K
      ensures Misses(C, x, 3, ResidueSize(3, K), cw, i, b)
    {
      HarmlessBlock(K, w, n1, n2, n, C, x, cw, i, b);
    }
    LastBlock(K, w, n1, n2, n, cw);
    AssembledMissed(C, x, 3, ResidueSize(3, K), cw, b);
  }

  lemma HarmlessBlock(K: nat, w: nat, n1: nat, n2: nat, n: nat, C: seq<Poly>, x: seq<Word>, cw: nat, i: nat, b: nat)
    requires StrayPositions.Shape(K, 3, w, n1, n2, n) && StrayPositions.NoTopBit(K, 3, n1, n)
      && w == WordsFor(2 * (K / 3))
    requires |C| == |x| == K && i < K && ResidueSize(3, K) == K / 3
    requires b < 64 || K <= b < K + 92 || n2 <= b < n2 + 64 || n2 + K <= b
    ensures Misses(C, x, 3, ResidueSize(3, K), cw, i, b)
  {
    hide IsPow3, ResidueSize, Behind, WordsFor, ReadsBehind, StrayPositions.TooFar;
    if Spoilt(3, ResidueSize(3, K), cw, i) && 64 * w + BlockStart(i, 3) <= b < 64 * (BlockStart(i, 3) / 64 + w + 1) {
      TooFarIs(i, 3, K, cw, w);
      StrayPositions.NothingRead(K, w, n1, n2, n, i, b);
    }
  }

  lemma LastBlock(K: nat, w: nat, n1: nat, n2: nat, n: nat, cw: nat)
    requires StrayPositions.Shape(K, 3, w, n1, n2, n) && StrayPositions.NoTopBit(K, 3, n1, n)
      && w == WordsFor(2 * (K / 3))
    requires ResidueSize(3, K) == K / 3
    ensures !Spoilt(3, ResidueSize(3, K), cw, K - 1)
  {
    hide IsPow3, ResidueSize, WordsFor, ReadsBehind;
    StrayPositions.Excess(K, w);
    TooFarIs(K - 1, 3, K, cw, w);
    LastStart(K);
  }

  lemma LastStart(K: nat)
    requires K % 64 == 9
    ensures StrayPositions.Start(K - 1, 3) % 64 == 24
  {
    var q := K / 64;
    assert 3 * (K - 1) == 24 + 64 * (3 * q);
    StrayPositions.Multiple64(24, 3 * q);
  }

  /** In the harmless case the smaller half is right where it is read. */
  lemma HarmlessTwo(A: Poly, an: nat, B: Poly, bn: nat, K: nat, x: seq<Word>)
    requires 0 < an && 0 < bn && IsPow3(K) && 243 <= K == |x| && K * (SplitLength(an, bn, K) + 1) + 64 <= 64 * (an + bn)
    requires Harmless(an + bn, K) && Fits(A, an) && Fits(B, bn)
    ensures 0 < SplitLength(an, bn, K)
    ensures SameRead(HalfTwo(A, an, B, bn, K, x), Fold(Mul(A, B), BlockStart(K, SplitLength(an, bn, K))), K,
                     BlockStart(K, SplitLength(an, bn, K) + 1), 64 * (an + bn))
  {
    hide IsPow3, Assembled, EvalAt, ResidueSize, Fold, Mul, Fits, WordsFor, Wrapped, CodedBlocks, SplitLength,
      HalfWords, Deg;
    SumLength(an, bn, K);
    var n1, n2, n := K * 4, K * 3, 64 * (an + bn);
    SplitFacts(an, bn, K, 3, n1, n2);
    OneResidue(3, K);
    var w, cw := WordsFor(2 * (K / 3)), SplitWords(an, bn, K);
    ShapeOf(an, bn, K, 3, w);
    HalfSum(A, an, B, bn, 3, K);
    WrapsFar(an, bn, n2);
    var C := CodedBlocks(Fold(A, n2), Fold(B, n2), 3, K);
    var E, S, hw := EvalAt(C, 3), Assembled(C, x, 3, ResidueSize(3, K), cw), HalfWords(an, bn, n2);
    forall p: nat | Read(p, K, n1, n)
      ensures p in Wrapped(S, hw, n2) <==> p in Fold(Mul(A, B), n2)
    {
      WrappedAt(S, hw, n2, p);
      FoldBit(E, n2, p);
      HarmlessBit(K, w, n1, n2, n, C, x, cw, p);
      if p + n2 < 64 * hw {
        HarmlessBit(K, w, n1, n2, n, C, x, cw, p + n2);
      } else {
        AboveDegree(E, p + n2);
      }
    }
  }
}
