/** Where the split product of gf2x-1.1/fft.c goes wrong: transforms of length 81 for at most 136 words, whose
    smaller half has residues of less than 64 bits.  The product of x^r and 1 shows it for every number of words:
    one of the lowest bits of that half is wrong, so that the final test can not be passed with the product. */
module SplitLimits {
  import opened Numbers
  import opened Polynomials
  import opened PolyDivision
  import opened Residues
  import opened FftAlgebra
  import opened FftConvolution
  import opened Transform
  import opened Blocks
  import opened FftMul
  import opened FftLimits
  import opened Words
  import opened WordMemory
  import opened ResidueWords
  import opened ShiftLoops
  import opened FftProduct
  import opened SplitFft
  import opened SplitProduct
  import opened SplitStrays
  import opened FftWords
  import BlockWords

  // ---------------------------------------------------------------- sizes

  /** Residues of the smaller half are short for transforms of length 81 and at most 136 words only; otherwise
      those of the larger half are long as well. */
  lemma SplitResidues(sc: nat, K: nat)
    requires MUL_FFT_THRESHOLD <= sc && IsPow3(K) && 64 <= K
    ensures var m2 := Ceil(Ceil(sc, 2) * 64, K);
      && 0 < m2 && (ResidueSize(m2, K) < 64 <==> K == 81 && sc <= 136)
      && (!(K == 81 && sc <= 136) ==> 64 <= ResidueSize(m2 + 1, K))
      && (K == 81 && sc <= 136 ==> 12 <= m2 <= 54)
  {
    Powers(K);
    var m2 := Ceil(Ceil(sc, 2) * 64, K);
    CeilBound(Ceil(sc, 2) * 64, K);
    Sizes(m2, K);
    Sizes(m2 + 1, K);
    if K >= 243 {
      ProductAtLeast(RootExponent(m2, K), K / 3);
      ProductAtLeast(RootExponent(m2 + 1, K), K / 3);
    }
  }

  /** For sc words in all: in the words of the product no block of the larger half is read past its residue, and none of
      the smaller half, unless that does no harm. */
  predicate SplitSafe(sc: nat, K: nat)
    requires IsPow3(K) && 3 <= K && 0 < sc
  {
    var m2 := SplitLength(sc, 0, K);
    SplitSizes(sc, 0, K);
    Sizes(m2, K);
    Sizes(m2 + 1, K);
    BlocksClear(m2 + 1, ResidueSize(m2 + 1, K), K, sc)
      && (BlocksClear(m2, ResidueSize(m2, K), K, sc) || Harmless(sc, K))
  }

  // ---------------------------------------------------------------- the inverse transform of a constant

  /** x^r + x^(r+d) + ... + x^(r+(n-1)d). */
  function Comb(r: nat, d: nat, n: nat): Poly {
    if n == 0 then {} else Add(Comb(r, d, n - 1), {r + (NonNegative(n - 1, d); (n - 1) * d)})
  }

  lemma {:induction false} CombBelow(r: nat, d: nat, n: nat, b: nat)
    requires 0 < d && b in Comb(r, d, n)
    ensures r <= b && n * d >= 0 && b < r + n * d
    decreases n
  {
    NonNegative(n, d);
    NonNegative(n - 1, d);
    assert n * d == (n - 1) * d + d;
    if b in Comb(r, d, n - 1) {
      CombBelow(r, d, n - 1, b);
    }
  }

  lemma {:induction false} CombHas(r: nat, d: nat, n: nat, i: nat)
    requires 0 < d && i < n
    ensures i * d >= 0 && r + i * d in Comb(r, d, n)
    decreases n
  {
    NonNegative(i, d);
    if i == n - 1 {
      if r + i * d in Comb(r, d, n - 1) {
        CombBelow(r, d, n - 1, r + i * d);
      }
    } else {
      CombHas(r, d, n - 1, i);
      StepsGrow(i, n - 1, d);
    }
  }

  lemma StepsGrow(i: nat, n: nat, d: nat)
    requires i < n && 0 < d
    ensures i * d < n * d
  {
  }

  /** The teeth of a comb that starts at 0 lie at multiples of d. */
  lemma {:induction false} CombMultiple(d: nat, n: nat, b: nat)
    requires 0 < d && b in Comb(0, d, n)
    ensures b % d == 0
    decreases n
  {
    if b in Comb(0, d, n - 1) {
      CombMultiple(d, n - 1, b);
    } else {
      ModUnique(b, d, n - 1, 0);
    }
  }

  lemma ShiftOne(b: nat, e: nat)
    ensures Shift({b}, e) == {b + e}
  {
  }

  /** Three combs of n teeth make one with teeth at a third of the distance. */
  lemma {:induction false} CombRefine(r: nat, d: nat, n: nat)
    ensures Add(Add(Comb(r, 3 * d, n), Shift(Comb(r, 3 * d, n), d)), Shift(Comb(r, 3 * d, n), 2 * d))
      == Comb(r, d, 3 * n)
    decreases n
  {
    hide Shift, Comb, Add;
    if n == 0 {
      NoTeeth(r, d);
    } else {
      CombRefine(r, d, n - 1);
      NonNegative(n - 1, 3 * d);
      MoreTeeth(r, d, n, (n - 1) * (3 * d), Comb(r, 3 * d, n - 1), Comb(r, d, 3 * (n - 1)));
    }
  }

  lemma NoTeeth(r: nat, d: nat)
    ensures Add(Add(Comb(r, 3 * d, 0), Shift(Comb(r, 3 * d, 0), d)), Shift(Comb(r, 3 * d, 0), 2 * d))
      == Comb(r, d, 3 * 0)
  {
    ShiftNothing(d);
    ShiftNothing(2 * d);
  }

  lemma MoreTeeth(r: nat, d: nat, n: nat, t: nat, c: Poly, f: Poly)
    requires 0 < n && t == (n - 1) * (3 * d) && c == Comb(r, 3 * d, n - 1) && f == Comb(r, d, 3 * (n - 1))
    requires Add(Add(c, Shift(c, d)), Shift(c, 2 * d)) == f
    ensures Add(Add(Comb(r, 3 * d, n), Shift(Comb(r, 3 * d, n), d)), Shift(Comb(r, 3 * d, n), 2 * d))
      == Comb(r, d, 3 * n)
  {
    hide Shift, Comb, Add;
    OneTooth(r, 3 * d, n, t);
    ThreeTeeth(r, d, n, t);
    OneMoreTooth(c, r + t, d);
  }

  lemma ShiftNothing(d: nat)
    ensures Shift({}, d) == {}
  {
  }

  lemma OneTooth(r: nat, d: nat, n: nat, t: nat)
    requires 0 < n && t == (n - 1) * d
    ensures Comb(r, d, n) == Add(Comb(r, d, n - 1), {r + t})
  {
    hide Add;
  }

  lemma OneMoreTooth(c: Poly, t: nat, d: nat)
    ensures var c': Poly := Add(c, {t});
      Add(Add(c', Shift(c', d)), Shift(c', 2 * d))
        == Add(Add(Add(Add(Add(c, Shift(c, d)), Shift(c, 2 * d)), {t}), {t + d}), {t + 2 * d})
  {
    hide Shift, Add;
    ShiftAdd(c, {t}, d);
    ShiftAdd(c, {t}, 2 * d);
    ShiftOne(t, d);
    ShiftOne(t, 2 * d);
    Regrouped(c, Shift(c, d), Shift(c, 2 * d), {t}, {t + d}, {t + 2 * d});
  }

  lemma ThreeTeeth(r: nat, d: nat, n: nat, t: nat)
    requires 0 < n && t == (n - 1) * (3 * d)
    ensures Comb(r, d, 3 * n) == Add(Add(Add(Comb(r, d, 3 * (n - 1)), {r + t}), {r + t + d}), {r + t + 2 * d})
  {
    hide Add;
    NonNegative(3 * n - 1, d);
    NonNegative(3 * n - 2, d);
    NonNegative(3 * n - 3, d);
    TeethPlaces(n, d, t);
    assert Comb(r, d, 3 * n) == Add(Comb(r, d, 3 * n - 1), {r + (3 * n - 1) * d});
    assert Comb(r, d, 3 * n - 1) == Add(Comb(r, d, 3 * n - 2), {r + (3 * n - 2) * d});
    assert Comb(r, d, 3 * n - 2) == Add(Comb(r, d, 3 * n - 3), {r + (3 * n - 3) * d});
  }

  lemma TeethPlaces(n: int, d: int, t: int)
    requires t == (n - 1) * (3 * d)
    ensures (3 * n - 1) * d == t + 2 * d && (3 * n - 2) * d == t + d && (3 * n - 3) * d == t
  {
  }

  lemma Regrouped(a: Poly, b: Poly, c: Poly, x: Poly, y: Poly, z: Poly)
    ensures Add(Add(Add(a, x), Add(b, y)), Add(c, z)) == Add(Add(Add(Add(Add(a, b), c), x), y), z)
  {
    hide Add;
  }

  // ---------------------------------------------------------------- short shifts

  lemma LshiftPeriod(b: Poly, e: nat, k: nat, N: nat)
    requires 0 < N && e % (3 * N) == k < 3 * N
    ensures Lshift(b, e, N) == Lshift(b, k, N)
  {
    hide Rem, Shift, Phi, Lshift;
    RemainderOf(k, 3 * N);
    ShiftExponent(b, e, k, N);
    SameLshift(b, e, k, N);
  }

  lemma RemainderOf(k: nat, m: nat)
    requires k < m
    ensures k % m == k
  {
  }

  lemma SameLshift(b: Poly, e: nat, f: nat, N: nat)
    requires 0 < N && e % (3 * N) == f % (3 * N) && Rem(Shift(b, e), Phi(N)) == Rem(Shift(b, f), Phi(N))
    ensures Lshift(b, e, N) == Lshift(b, f, N)
  {
    hide Rem, Shift, Phi, Deg, WithLoss;
  }

  /** Nothing is reduced and nothing is lost. */
  lemma LshiftSmall(b: Poly, k: nat, N: nat)
    requires 0 < N && Reduced(b, T(N, k)) && k < 2 * N
    ensures Lshift(b, k, N) == Shift(b, k)
  {
    hide Rem, Shift, Phi, Deg;
    ModUnique(k, 3 * N, 0, k);
    forall i | i in Shift(b, k)
      ensures i < 2 * N
    {
    }
    ReducedIs2(Shift(b, k), 2 * N);
    ReducedDegree(Shift(b, k), 2 * N);
    RemSmall(Shift(b, k), Phi(N));
    assert Low(High(b, 2 * N - k), N) == {} by {
      hide Low;
      assert High(b, 2 * N - k) == {};
    }
    assert Add(Shift(b, k), {}) == Shift(b, k);
  }

  function T(N: nat, k: nat): nat {
    if k <= 2 * N then 2 * N - k else 0
  }

  lemma ReducedIs2(P: Poly, n: nat)
    requires forall b :: b in P ==> b < n
    ensures Reduced(P, n)
  {
  }

  /** The lost copy in the one exponent where it matters: x^(2N) acts like x^N on N bits. */
  lemma LshiftTwice(b: Poly, N: nat)
    requires 0 < N < 64 && Reduced(b, N)
    ensures Lshift(b, 2 * N, N) == Lshift(b, N, N) == Shift(b, N)
  {
    hide Rem, Phi, Deg, Shift, Mul, Add;
    ReducedMore(b, N, 2 * N - N);
    LshiftSmall(b, N, N);
    ModUnique(2 * N, 3 * N, 0, 2 * N);
    var R := Add(Shift(b, N), b);
    MulPhi(b, N);
    RemMultiple(b, Phi(N));
    forall i: nat
      ensures i in Mul(b, Phi(N)) <==> i in Add(Shift(b, 2 * N), R)
    {
    }
    assert Mul(b, Phi(N)) == Add(Shift(b, 2 * N), R);
    RemAdd(Shift(b, 2 * N), R, Phi(N));
    AddIsZero(Rem(Shift(b, 2 * N), Phi(N)), Rem(R, Phi(N)));
    forall i | i in R
      ensures i < 2 * N
    {
    }
    ReducedIs2(R, 2 * N);
    ReducedDegree(R, 2 * N);
    RemSmall(R, Phi(N));
    NothingCut(b, N);
    assert Add(R, b) == Shift(b, N);
  }

  lemma NothingCut(b: Poly, N: nat)
    requires Reduced(b, N)
    ensures Low(High(b, 2 * N - 2 * N), N) == b
  {
  }

  // ---------------------------------------------------------------- the inverse transform of a constant

  function Const(v: Poly, K: nat): (s: seq<Poly>)
    ensures |s| == K && forall i :: 0 <= i < K ==> s[i] == v
  {
    seq(K, i => v)
  }

  lemma ConstStep(v: Poly, K: nat, j: nat, t: nat, Np: nat)
    requires IsPow3(K) && K > 1 && t < K && 0 < Np
    ensures var e := (3 * j) % (3 * Np);
      var z := Coded(Const(v, K / 3), e, Np)[t / 3];
      Coded(Const(v, K), j, Np)[t] == Third(z, z, z, PowerOf(K / 3, t), j, Np)
  {
    hide Every3, Third, PowerOf, Coded;
    CodedStep(Const(v, K), j, t, Np);
    assert Every3(Const(v, K), 0) == Const(v, K / 3) && Every3(Const(v, K), 1) == Const(v, K / 3)
      && Every3(Const(v, K), 2) == Const(v, K / 3);
  }

  /** A level at which the exponents are d and 2d. */
  lemma ThirdComb(r: nat, d: nat, n: nat, p: nat, j: nat, Np: nat)
    requires 0 < Np && 0 < n && 0 < d && 2 * d < 2 * Np && (p * j) >= 0 && (p * j) % (3 * Np) == d
      && (2 * p * j) % (3 * Np) == 2 * d
    requires n * (3 * d) >= 0 && r + n * (3 * d) - d < 2 * Np
    ensures var z := Comb(r, 3 * d, n); Third(z, z, z, p, j, Np) == Comb(r, d, 3 * n)
  {
    hide Comb, Lshift, Add;
    var z := Comb(r, 3 * d, n);
    LshiftPeriod(z, p * j, d, Np);
    LshiftPeriod(z, 2 * p * j, 2 * d, Np);
    CombReduced(r, d, n, Np);
    LshiftSmall(z, d, Np);
    LshiftSmall(z, 2 * d, Np);
    CombRefine(r, d, n);
  }

  lemma CombReduced(r: nat, d: nat, n: nat, Np: nat)
    requires 0 < n && 0 < d && d <= Np && n * (3 * d) >= 0 && r + n * (3 * d) - d < 2 * Np
    ensures Reduced(Comb(r, 3 * d, n), T(Np, d)) && Reduced(Comb(r, 3 * d, n), T(Np, 2 * d))
  {
    hide Comb;
    var z := Comb(r, 3 * d, n);
    forall b | b in z
      ensures b < 2 * Np - 2 * d
    {
      CombLast(r, 3 * d, n, b);
    }
  }

  /** The last tooth. */
  lemma {:induction false} CombLast(r: nat, d: nat, n: nat, b: nat)
    requires 0 < n && 0 < d && b in Comb(r, d, n)
    ensures n * d >= 0 && b <= r + n * d - d
  {
    NonNegative(n, d);
    NonNegative(n - 1, d);
    assert n * d == (n - 1) * d + d;
    if b in Comb(r, d, n - 1) {
      CombBelow(r, d, n - 1, b);
    }
  }

  /** The innermost level: the error of Lshift makes the three values equal. */
  lemma ThirdLast(v: Poly, p: nat, j: nat, Np: nat)
    requires 0 < Np < 64 && Reduced(v, Np) && p * j >= 0
    requires ((p * j) % (3 * Np) == 0 && (2 * p * j) % (3 * Np) == 0)
      || ((p * j) % (3 * Np) == 2 * Np && (2 * p * j) % (3 * Np) == Np)
      || ((p * j) % (3 * Np) == Np && (2 * p * j) % (3 * Np) == 2 * Np)
    ensures Third(v, v, v, p, j, Np) == v
  {
    hide Lshift, Add, Shift;
    LshiftPeriod(v, p * j, (p * j) % (3 * Np), Np);
    LshiftPeriod(v, 2 * p * j, (2 * p * j) % (3 * Np), Np);
    LshiftTwice(v, Np);
    ReducedMore(v, Np, T(Np, 0));
    LshiftSmall(v, 0, Np);
    ShiftNone(v);
    var s := Shift(v, Np);
    assert Add(Add(v, s), s) == v && Add(Add(v, v), v) == v;
  }

  /** Exponent 0 at every level. */
  lemma ThirdZero(v: Poly, j: nat, Np: nat)
    requires 0 < Np && Reduced(v, 2 * Np)
    ensures Third(v, v, v, 0, j, Np) == v
  {
    hide Lshift, Add, Shift;
    LshiftSmall(v, 0, Np);
    ShiftNone(v);
    assert Add(Add(v, v), v) == v;
  }

  /** The inverse transform of length 81 of a constant, with the root exponent Mp. */
  ghost function Inverse81(v: Poly, Mp: nat): (D: seq<Poly>)
    requires 0 < Mp
    ensures |D| == 81
  {
    Lengths();
    Coded(Const(v, 81), 80 * Mp, 27 * Mp)
  }

  /** The four levels of the inverse transform of length 81. */
  lemma Levels(v: Poly, Mp: nat, t: nat)
    requires 1 <= Mp <= 2 && Reduced(v, 27 * Mp) && t < 81
    ensures var (z9, Np) := (Third(v, v, v, PowerOf(3, t / 9), 72 * Mp, 27 * Mp), 27 * Mp);
      var z27 := Third(z9, z9, z9, PowerOf(9, t / 3), 78 * Mp, Np);
      Inverse81(v, Mp)[t] == Third(z27, z27, z27, PowerOf(27, t), 80 * Mp, Np)
  {
    hide Coded, Third;
    Lengths();
    var Np := 27 * Mp;
    NextExponents(Mp);
    ConstStep(v, 81, 80 * Mp, t, Np);
    ConstStep(v, 27, 78 * Mp, t / 3, Np);
    ConstStep(v, 9, 72 * Mp, t / 9, Np);
    ConstStep(v, 3, 54 * Mp, t / 27, Np);
    assert t / 3 / 3 == t / 9 && t / 9 / 3 == t / 27 && t / 27 / 3 == 0;
    assert Const(v, 1) == [v];
    CodedOne(v, (3 * (54 * Mp)) % (3 * Np), Np);
    LastLevel(v, t / 27, Mp);
  }

  lemma Lengths()
    ensures IsPow3(1) && IsPow3(3) && IsPow3(9) && IsPow3(27) && IsPow3(81)
  {
    assert IsPow3(3) && IsPow3(9) && IsPow3(27);
  }

  lemma NextExponents(Mp: nat)
    requires 1 <= Mp <= 2
    ensures (3 * (80 * Mp)) % (3 * (27 * Mp)) == 78 * Mp && (3 * (78 * Mp)) % (3 * (27 * Mp)) == 72 * Mp
    ensures (3 * (72 * Mp)) % (3 * (27 * Mp)) == 54 * Mp
  {
  }

  lemma LastLevel(v: Poly, t: nat, Mp: nat)
    requires 1 <= Mp <= 2 && Reduced(v, 27 * Mp) && t < 3
    ensures IsPow3(1) && Third(v, v, v, PowerOf(1, t), 54 * Mp, 27 * Mp) == v
  {
    hide Third, Reduced, Rev;
    PowerOfOne(t);
    ExponentsLast(t, Mp);
    ThirdLast(v, t, 54 * Mp, 27 * Mp);
  }

  lemma PowerOfOne(t: nat)
    requires t < 3
    ensures IsPow3(1) && PowerOf(1, t) == t
  {
    assert Rev(1, 0) == 0;
  }

  lemma ExponentsLast(t: nat, Mp: nat)
    requires 1 <= Mp <= 2 && t < 3
    ensures var (a, b, m) := (t * (54 * Mp), 2 * t * (54 * Mp), 3 * (27 * Mp));
      a >= 0 && ((a % m == 0 && b % m == 0) || (a % m == 2 * (27 * Mp) && b % m == 27 * Mp)
        || (a % m == 27 * Mp && b % m == 2 * (27 * Mp)))
  {
    assert t == 0 || t == 1 || t == 2;
  }

  lemma RevValues()
    ensures IsPow3(3) && IsPow3(9) && IsPow3(27) && IsPow3(81)
    ensures Rev(3, 0) == 0 && Rev(3, 1) == 1 && Rev(3, 2) == 2
    ensures Rev(9, 0) == 0 && Rev(9, 2) == 6 && Rev(9, 5) == 7 && Rev(9, 8) == 8
    ensures Rev(27, 0) == 0 && Rev(27, 8) == 24 && Rev(27, 17) == 25 && Rev(27, 26) == 26
    ensures Rev(81, 0) == 0 && Rev(81, 26) == 78 && Rev(81, 53) == 79 && Rev(81, 80) == 80
  {
    Lengths();
    assert Rev(1, 0) == 0;
    hide Rev, IsPow3;
    RevDigits(3, 0, 0);
    RevDigits(3, 0, 1);
    RevDigits(3, 0, 2);
    RevDigits(9, 0, 0);
    RevDigits(9, 0, 2);
    RevDigits(9, 1, 2);
    RevDigits(9, 2, 2);
    RevDigits(27, 0, 0);
    RevDigits(27, 2, 2);
    RevDigits(27, 5, 2);
    RevDigits(27, 8, 2);
    RevDigits(81, 0, 0);
    RevDigits(81, 8, 2);
    RevDigits(81, 17, 2);
    RevDigits(81, 26, 2);
  }

  lemma ReverseAt(t: nat)
    requires t in {0, 26, 53, 80}
    ensures IsPow3(3) && IsPow3(9) && IsPow3(27) && IsPow3(81)
    ensures PowerOf(3, t / 9) == (if t == 0 then 0 else if t == 26 then 6 else if t == 53 then 7 else 8)
    ensures PowerOf(9, t / 3) == (if t == 0 then 0 else if t == 26 then 24 else if t == 53 then 25 else 26)
    ensures PowerOf(27, t) == (if t == 0 then 0 else if t == 26 then 78 else if t == 53 then 79 else 80)
    ensures Rev(81, t) == (if t == 0 then 0 else if t == 26 then 78 else if t == 53 then 79 else 80)
  {
    hide Rev, IsPow3, PowerOf;
    RevValues();
    if t == 0 {
      PowerIs(3, 0, 0);
      PowerIs(9, 0, 0);
      PowerIs(27, 0, 0);
    } else if t == 26 {
      PowerIs(3, 0, 2);
      PowerIs(9, 2, 2);
      PowerIs(27, 8, 2);
    } else if t == 53 {
      PowerIs(3, 1, 2);
      PowerIs(9, 5, 2);
      PowerIs(27, 17, 2);
    } else {
      PowerIs(3, 2, 2);
      PowerIs(9, 8, 2);
      PowerIs(27, 26, 2);
    }
  }

  lemma OneToothOnly(r: nat, d: nat)
    ensures Comb(r, d, 1) == {r}
  {
    assert Comb(r, d, 0) == {};
  }

  lemma Single(r: nat, N: nat)
    requires r < N
    ensures Reduced({r}, N)
  {
  }

  /** The blocks 0 and 80. */
  lemma LastBlock(r: nat, Mp: nat)
    requires 1 <= Mp <= 2 && r < 27 * Mp
    ensures IsPow3(81) && Inverse81({r}, Mp)[80] == Comb(r, Mp, 27)
    ensures Inverse81({r}, Mp)[0] == {r}
  {
    hide Coded, Third, Comb, PowerOf, Rev;
    Single(r, 27 * Mp);
    Single(r, 2 * (27 * Mp));
    Levels({r}, Mp, 80);
    Levels({r}, Mp, 0);
    ReverseAt(80);
    ReverseAt(0);
    ThirdZero({r}, 72 * Mp, 27 * Mp);
    ThirdZero({r}, 78 * Mp, 27 * Mp);
    ThirdZero({r}, 80 * Mp, 27 * Mp);
    OneToothOnly(r, 3 * (9 * Mp));
    LastExponents(Mp);
    ThirdComb(r, 9 * Mp, 1, 8, 72 * Mp, 27 * Mp);
    ThirdComb(r, 3 * Mp, 3, 26, 78 * Mp, 27 * Mp);
    ThirdComb(r, Mp, 9, 80, 80 * Mp, 27 * Mp);
    assert 3 * (3 * Mp) == 9 * Mp;
  }

  lemma LastExponents(Mp: nat)
    requires 1 <= Mp <= 2
    ensures (8 * (72 * Mp)) % (3 * (27 * Mp)) == 9 * Mp && (2 * 8 * (72 * Mp)) % (3 * (27 * Mp)) == 2 * (9 * Mp)
    ensures (26 * (78 * Mp)) % (3 * (27 * Mp)) == 3 * Mp && (2 * 26 * (78 * Mp)) % (3 * (27 * Mp)) == 2 * (3 * Mp)
    ensures (80 * (80 * Mp)) % (3 * (27 * Mp)) == Mp && (2 * 80 * (80 * Mp)) % (3 * (27 * Mp)) == 2 * Mp
  {
  }

  /** Blocks 79 and 78 for r = 0. */
  lemma BlocksBefore(Mp: nat)
    requires 1 <= Mp <= 2 && IsPow3(81)
    ensures var D := Inverse81({0}, Mp); D[53] == Comb(0, 2 * Mp, 27) && D[26] == Comb(0, 3 * Mp, 9)
  {
    hide Coded, Third, Comb, PowerOf, Rev;
    Single(0, 27 * Mp);
    Levels({0}, Mp, 53);
    Levels({0}, Mp, 26);
    ReverseAt(53);
    ReverseAt(26);
    OneToothOnly(0, 3 * (18 * Mp));
    OneToothOnly(0, 3 * (9 * Mp));
    ExponentsBefore(Mp);
    ThirdComb(0, 18 * Mp, 1, 7, 72 * Mp, 27 * Mp);
    ThirdComb(0, 6 * Mp, 3, 25, 78 * Mp, 27 * Mp);
    ThirdComb(0, 2 * Mp, 9, 79, 80 * Mp, 27 * Mp);
    assert 3 * (6 * Mp) == 18 * Mp && 3 * (2 * Mp) == 6 * Mp;
    ThirdLast({0}, 6, 72 * Mp, 27 * Mp);
    ThirdComb(0, 9 * Mp, 1, 24, 78 * Mp, 27 * Mp);
    ThirdComb(0, 3 * Mp, 3, 78, 80 * Mp, 27 * Mp);
    assert 3 * (3 * Mp) == 9 * Mp;
  }

  lemma ExponentsBefore(Mp: nat)
    requires 1 <= Mp <= 2
    ensures (7 * (72 * Mp)) % (3 * (27 * Mp)) == 18 * Mp && (2 * 7 * (72 * Mp)) % (3 * (27 * Mp)) == 2 * (18 * Mp)
    ensures (25 * (78 * Mp)) % (3 * (27 * Mp)) == 6 * Mp && (2 * 25 * (78 * Mp)) % (3 * (27 * Mp)) == 2 * (6 * Mp)
    ensures (79 * (80 * Mp)) % (3 * (27 * Mp)) == 2 * Mp && (2 * 79 * (80 * Mp)) % (3 * (27 * Mp)) == 2 * (2 * Mp)
    ensures (6 * (72 * Mp)) % (3 * (27 * Mp)) == 27 * Mp && (2 * 6 * (72 * Mp)) % (3 * (27 * Mp)) == 2 * (27 * Mp)
    ensures (24 * (78 * Mp)) % (3 * (27 * Mp)) == 9 * Mp && (2 * 24 * (78 * Mp)) % (3 * (27 * Mp)) == 2 * (9 * Mp)
    ensures (78 * (80 * Mp)) % (3 * (27 * Mp)) == 3 * Mp && (2 * 78 * (80 * Mp)) % (3 * (27 * Mp)) == 2 * (3 * Mp)
  {
  }

  /** The blocks of the product of x^r and 1. */
  lemma BlocksOfOne(r: nat, M: nat, Mp: nat)
    requires 0 < M && r < M && Mp == Ceil(M, 27) && 1 <= Mp <= 2
    ensures IsPow3(81) && ResidueSize(M, 81) == 27 * Mp
    ensures var C := CodedBlocks({r}, ONE, M, 81); C[0] == {r} && C[80] == Comb(r, Mp, 27)
    ensures var C := CodedBlocks({r}, ONE, M, 81);
      r == 0 ==> C[79] == Comb(0, 2 * Mp, 27) && C[78] == Comb(0, 3 * Mp, 9)
    ensures var C := CodedBlocks({r}, ONE, M, 81); AllReduced(C, 54 * Mp)
  {
    hide Coded, Comb, Rev, Permuted, Ceil, CodedBlocks, IsPow3, AllReduced;
    Lengths();
    CeilBound(M, 27);
    BlocksAre(r, M, Mp);
    var D := Inverse81({r}, Mp);
    LastBlock(r, Mp);
    if r == 0 {
      BlocksBefore(Mp);
    }
    PermutedAt(D);
    CodedLimits(r, Mp);
  }

  lemma BlocksAre(r: nat, M: nat, Mp: nat)
    requires 0 < M && r < M && Mp == Ceil(M, 27) && 1 <= Mp <= 2
    ensures IsPow3(81) && ResidueSize(M, 81) == 27 * Mp
    ensures CodedBlocks({r}, ONE, M, 81) == Permuted(Inverse81({r}, Mp))
  {
    hide Forward, Backward, Pointwise, Chunks, Permuted, Ceil, IsPow3, ResidueSize, RootExponent;
    Lengths();
    SizesAre(M, Mp);
    ForwardConst(r, r, M, Mp);
    ForwardConst(0, r, M, Mp);
    PointwiseConst(r, r, M, Mp);
    BackwardConst({r}, M, Mp);
  }

  lemma ForwardConst(q: nat, r: nat, M: nat, Mp: nat)
    requires q <= r < M && Mp == Ceil(M, 27) && 1 <= Mp <= 2
    ensures IsPow3(81) && Forward(Chunks({q}, M, 81), M) == Const({q}, 81)
  {
    hide Coded, Chunks, Ceil, IsPow3, ResidueSize, RootExponent;
    Lengths();
    SizesAre(M, Mp);
    FirstChunk(q, M);
    SmallDegree(q, M, Mp);
    CodedDelta(Chunks({q}, M, 81), {q}, Mp, 27 * Mp);
  }

  lemma PointwiseConst(q: nat, r: nat, M: nat, Mp: nat)
    requires q <= r < M && Mp == Ceil(M, 27) && 1 <= Mp <= 2
    ensures Pointwise(Const({q}, 81), Const(ONE, 81), 27 * Mp) == Const({q}, 81)
  {
    hide MulMod, Ceil, Deg;
    SmallDegree(q, M, Mp);
    TimesOne({q}, 27 * Mp);
  }

  lemma SmallDegree(q: nat, M: nat, Mp: nat)
    requires q < M && Mp == Ceil(M, 27)
    ensures Deg({q}) < 2 * (27 * Mp)
  {
    hide Deg, Ceil;
    DegIs({q}, q);
    CeilBound(M, 27);
  }

  lemma BackwardConst(v: Poly, M: nat, Mp: nat)
    requires 0 < M && Mp == Ceil(M, 27) && 1 <= Mp <= 2
    ensures IsPow3(81) && Backward(Const(v, 81), M) == Permuted(Inverse81(v, Mp))
  {
    hide Coded, Permuted, Backward, Ceil, IsPow3, ResidueSize, RootExponent;
    Lengths();
    SizesAre(M, Mp);
    PermutedConst(v);
    BackwardSized(Const(v, 81), M, Mp, 27 * Mp, 80 * Mp);
  }

  lemma BackwardSized(t: seq<Poly>, M: nat, Mp: nat, Np: nat, e: nat)
    requires 0 < M && IsPow3(|t|) && 3 <= |t|
    requires Mp == RootExponent(M, |t|) && Np == ResidueSize(M, |t|) && e == 3 * Np - Mp
    ensures 0 < Np && Backward(t, M) == Permuted(Coded(Permuted(t), e, Np))
  {
    hide Coded, Permuted, Backward, RootExponent, ResidueSize;
    BackwardOf(t, M);
  }

  lemma SizesAre(M: nat, Mp: nat)
    requires Mp == Ceil(M, 27)
    ensures RootExponent(M, 81) == Mp && ResidueSize(M, 81) == 27 * Mp
  {
    hide Ceil;
  }

  lemma FirstChunk(r: nat, M: nat)
    requires r < M
    ensures Delta(Chunks({r}, M, 81), {r})
  {
    hide Chunks;
    forall t: nat | t < 81
      ensures Chunks({r}, M, 81)[t] == if t == 0 then {r} else {}
    {
      ChunkAt({r}, M, 81, t);
      FirstChunkAt(r, t, M);
    }
  }

  lemma FirstChunkAt(r: nat, t: nat, M: nat)
    requires r < M && t * M >= 0
    ensures Low(High({r}, t * M), M) == if t == 0 then {r} else {}
  {
    if t > 0 {
      ProductAtLeast(t, M);
    }
  }

  lemma PermutedConst(v: Poly)
    ensures IsPow3(81) && Permuted(Const(v, 81)) == Const(v, 81)
  {
    hide Rev;
    Lengths();
  }

  lemma PermutedAt(D: seq<Poly>)
    requires |D| == 81
    ensures IsPow3(81) && Permuted(D)[0] == D[0] && Permuted(D)[80] == D[80] && Permuted(D)[79] == D[53]
      && Permuted(D)[78] == D[26]
  {
    hide Rev, PowerOf;
    Lengths();
    ReverseAt(0);
    ReverseAt(80);
    ReverseAt(53);
    ReverseAt(26);
    RevRev(81, 53);
    RevRev(81, 26);
  }

  lemma CodedLimits(r: nat, Mp: nat)
    requires 1 <= Mp <= 2 && r < 27 * Mp
    ensures IsPow3(81) && AllReduced(Permuted(Inverse81({r}, Mp)), 54 * Mp)
  {
    hide Coded, Rev, Reduced;
    Lengths();
    Single(r, 54 * Mp);
    CodedReduced(Const({r}, 81), 80 * Mp, 27 * Mp);
    assert 2 * (27 * Mp) == 54 * Mp;
  }

  // ---------------------------------------------------------------- a wrong bit

  /** The blocks below n do not reach bit d. */
  lemma BelowTop(C: seq<Poly>, M: nat, n: nat, T: nat, d: nat)
    requires 0 < n <= |C| && AllReduced(C, T) && 0 < T && (n - 1) * M >= 0 && (n - 1) * M + T <= d
    ensures forall b :: b in EvalAt(C[..n], M) ==> b < d
  {
    hide EvalAt, Deg;
    forall s: nat | s < n
      ensures s * M >= 0 && (C[..n][s] == {} || Deg(C[..n][s]) + s * M < d)
    {
      NonNegative(s, M);
      StepsAtMost(s, n - 1, M);
      ReducedDegree(C[s], T);
    }
    EvalReach(C[..n], M, d);
    forall b | b in EvalAt(C[..n], M)
      ensures b < d
    {
      DegreeBound(EvalAt(C[..n], M), b);
    }
  }

  lemma DegreeBound(a: Poly, b: nat)
    requires b in a
    ensures b <= Deg(a)
  {
  }

  /** One more block. */
  lemma NextBlockBit(C: seq<Poly>, M: nat, n: nat, b: nat)
    requires n < |C|
    ensures n * M >= 0 && (b in EvalAt(C[..n + 1], M)
      <==> (b in EvalAt(C[..n], M)) != (b >= n * M && b - n * M in C[n]))
  {
    hide EvalAt, Shift;
    NonNegative(n, M);
    BlockWords.EvalNext(C, M, n);
    assert b in Shift(C[n], n * M) <==> n * M <= b && b - n * M in C[n];
  }

  lemma LowestBlock(C: seq<Poly>, M: nat, b: nat)
    requires C != [] && b < M
    ensures b in EvalAt(C, M) <==> b in C[0]
  {
  }

  lemma OnlyLastBlock(M: nat, Mp: nat, r: nat, b: nat, i: nat)
    requires 1 <= Mp <= 2 && Mp == Ceil(M, 27) && 18 * Mp < M <= 27 * Mp && r < M && b < M && 54 * Mp <= 2 * M + b
    requires i < 27 && r + i * Mp == M + b
    ensures IsPow3(81) && SumSpoilt(M, r, b)
  {
    hide EvalAt, CodedBlocks, IsPow3, Comb, Ceil;
    BlocksOfOne(r, M, Mp);
    var C := CodedBlocks({r}, ONE, M, 81);
    LowestBlock(C, M, b);
    BelowTop(C, M, 80, 54 * Mp, 81 * M + b);
    NextBlockBit(C, M, 80, 81 * M + b);
    CombHas(r, Mp, 27, i);
    assert C[..81] == C;
  }

  lemma LastThreeBlocks(M: nat, Mp: nat, b: nat)
    requires 1 <= Mp <= 2 && Mp == Ceil(M, 27) && 12 <= M <= 18 * Mp && 27 * (Mp - 1) < M
    requires b == if Mp == 1 then 7 else if M % 2 == 0 then 2 else 1
    ensures IsPow3(81) && SumSpoilt(M, 0, b)
  {
    hide EvalAt, CodedBlocks, IsPow3, Comb, Ceil;
    BlocksOfOne(0, M, Mp);
    var C := CodedBlocks({0}, ONE, M, 81);
    LowestBlock(C, M, b);
    BelowTop(C, M, 78, 54 * Mp, 81 * M + b);
    NextBlockBit(C, M, 78, 81 * M + b);
    NextBlockBit(C, M, 79, 81 * M + b);
    NextBlockBit(C, M, 80, 81 * M + b);
    ThreeCombs(M, Mp, b);
    assert C[..81] == C;
  }

  lemma ThreeCombs(M: nat, Mp: nat, b: nat)
    requires 1 <= Mp <= 2 && 12 <= M <= 18 * Mp && 27 * (Mp - 1) < M
    requires b == if Mp == 1 then 7 else if M % 2 == 0 then 2 else 1
    ensures M + b in Comb(0, Mp, 27) && 2 * M + b !in Comb(0, 2 * Mp, 27) && 3 * M + b !in Comb(0, 3 * Mp, 9)
  {
    hide Comb;
    CombHas(0, Mp, 27, (M + b) / Mp);
    assert ((M + b) / Mp) * Mp == M + b;
    if 2 * M + b in Comb(0, 2 * Mp, 27) {
      CombMultiple(2 * Mp, 27, 2 * M + b);
    }
    if 3 * M + b in Comb(0, 3 * Mp, 9) {
      CombLast(0, 3 * Mp, 9, 3 * M + b);
    }
  }

  /** The bit that is wrong. */
  function WrongPosition(M: nat): nat
    requires 12 <= M <= 54
  {
    var Mp := if M <= 27 then 1 else 2;
    if M > 18 * Mp then 54 * Mp - 2 * M else if Mp == 1 then 7 else if M % 2 == 0 then 2 else 1
  }

  /** The blocks computed for x^r times 1 add up to a sum that has bit 81 M + b, and bit b just when b = r. */
  ghost predicate SumSpoilt(M: nat, r: nat, b: nat)
    requires 0 < M && IsPow3(81)
  {
    var S := EvalAt(CodedBlocks({r}, ONE, M, 81), M);
    81 * M + b in S && (b in S <==> b == r)
  }

  /** Operand x^r and bit b: the sum of the blocks has bit 81 M + b. */
  lemma WrongBit(M: nat) returns (r: nat, b: nat)
    requires 12 <= M <= 54
    ensures r < M && b < M && b == WrongPosition(M)
    ensures IsPow3(81) && SumSpoilt(M, r, b)
  {
    hide EvalAt, CodedBlocks, IsPow3, Comb;
    var Mp := Ceil(M, 27);
    assert 1 <= Mp <= 2 && 27 * (Mp - 1) < M <= 27 * Mp;
    if M > 18 * Mp {
      b := 54 * Mp - 2 * M;
      var i := b / Mp + 1;
      r := M + b - i * Mp;
      OnlyLastBlock(M, Mp, r, b, i);
    } else {
      r, b := 0, if Mp == 1 then 7 else if M % 2 == 0 then 2 else 1;
      LastThreeBlocks(M, Mp, b);
    }
  }

  // ---------------------------------------------------------------- what is read behind its blocks

  /** Blocks that are followed by others and are read too far do not spoil the wrong bit. */
  lemma WrongBitMissed(M: nat, i: nat, d: nat)
    requires 28 <= M <= 54 && d == 81 - i && 2 <= d && i < 80
    ensures i * M >= 0 && var pos := i * M;
      pos % 64 > M + 20 ==> 81 * M + WrongPosition(M) < 128 + pos || 64 * (pos / 64 + 3) <= 81 * M + WrongPosition(M)
  {
    NonNegative(i, M);
    var pos, b := i * M, WrongPosition(M);
    FromTheEnd(i, d, M);
    if d >= 6 {
      StepsAtMost(6, d, M);
    } else {
      assert pos == if d == 5 then 76 * M else if d == 4 then 77 * M else if d == 3 then 78 * M else 79 * M;
    }
  }

  lemma FromTheEnd(i: int, d: int, M: int)
    requires i + d == 81
    ensures i * M + d * M == 81 * M
  {
  }

  lemma ShortLengths(M: nat)
    requires 12 <= M <= 54
    ensures ResidueSize(M, 81) == if M <= 27 then 27 else 54
  {
  }

  /** With nothing behind the last block, or behind all if no block is followed by another, the two bits that are
      compared
      are those of the sum of the blocks. */
  lemma WrongBitStays(C: seq<Poly>, M: nat, cw: nat, e: nat)
    requires |C| == 81 && 12 <= M <= 54 && e < 64 * cw && (e < 64 || e == 81 * M + WrongPosition(M))
    ensures M <= 2 * ResidueSize(M, 81)
    ensures e in Assembled(C, seq(81, i => {}), M, ResidueSize(M, 81), cw) <==> e in EvalAt(C, M)
  {
    hide EvalAt, Assembled, Misses, Spoilt, ResidueSize;
    var x: seq<Word> := seq(81, i => {});
    ShortLengths(M);
    var Np := ResidueSize(M, 81);
    forall i: nat | i < 81
      ensures Misses(C, x, M, Np, cw, i, e)
      ensures M <= 27 ==> Behind(C, x, Np, i) == {}
    {
      BitOfBlockMissed(C, x, M, cw, i, e);
    }
    LastNotSpoilt(M, cw);
    AssembledMissed(C, x, M, Np, cw, e);
  }

  lemma BitOfBlockMissed(C: seq<Poly>, x: seq<Word>, M: nat, cw: nat, i: nat, e: nat)
    requires |C| == |x| == 81 && i < 81 && 12 <= M <= 54 && (e < 64 || e == 81 * M + WrongPosition(M)) && x[i] == {}
    requires ResidueSize(M, 81) == if M <= 27 then 27 else 54
    ensures Misses(C, x, M, ResidueSize(M, 81), cw, i, e)
    ensures M <= 27 ==> Behind(C, x, ResidueSize(M, 81), i) == {}
  {
    hide ResidueSize, WordAt, WrongPosition;
    if 28 <= M && i < 80 {
      WrongBitMissed(M, i, 81 - i);
    }
  }

  lemma LastNotSpoilt(M: nat, cw: nat)
    requires 28 <= M <= 54 ==> ResidueSize(M, 81) == 54
    ensures 28 <= M <= 54 ==> !Spoilt(M, 54, cw, 80)
  {
    if 28 <= M <= 54 {
      EightyBlocks(M);
    }
  }

  lemma EightyBlocks(M: nat)
    ensures BlockStart(80, M) % 64 <= 48
  {
    assert BlockStart(80, M) == 64 * (M + M / 4) + 16 * (M % 4);
  }

  // ---------------------------------------------------------------- the exact range

  /** One of the lowest bits of the smaller half of x^r * 1 is wrong. */
  lemma HalfTwoWrong(an: nat, bn: nat, M: nat, r: nat, b: nat)
    requires 0 < an && 0 < bn && IsPow3(81) && M == SplitLength(an, bn, 81) && 12 <= M <= 54
    requires 81 * (M + 1) + 64 <= 64 * (an + bn) && r < M && b < M && b == WrongPosition(M)
    requires SumSpoilt(M, r, b)
    ensures !LowWordFits(Mul({r}, ONE), HalfTwo({r}, an, ONE, bn, 81, seq(81, i => {})), BlockStart(81, M))
  {
    hide EvalAt, CodedBlocks, IsPow3, Mul, SplitLength, Assembled, ResidueSize, Wrapped, Deg, Fold, WordsFor,
      WrongPosition;
    var N, x: seq<Word> := BlockStart(81, M), seq(81, i => {});
    SplitFacts(an, bn, 81, M, 81 * (M + 1), 81 * M);
    Sizes(M, 81);
    MulOne({r});
    DegIs({r}, r);
    DegIs(ONE, 0);
    FoldSmall({r}, N);
    FoldSmall(ONE, N);
    var cw := SplitWords(an, bn, 81);
    var C := CodedBlocks({r}, ONE, M, 81);
    WrapsFar(an, bn, N);
    WrongBitStays(C, M, cw, b);
    WrongBitStays(C, M, cw, N + b);
    var S := Assembled(C, x, M, ResidueSize(M, 81), cw);
    WrappedAt(S, HalfWords(an, bn, N), N, b);
    assert b !in HalfTwo({r}, an, ONE, bn, 81, x) <==> b == r;
    FitsAt({r}, HalfTwo({r}, an, ONE, bn, 81, x), N, b);
  }

  lemma FitsAt(V: Poly, V2: Poly, n2: nat, b: nat)
    requires b < 64 && !(b in V2 <==> (b in V) != (b + n2 in V))
    ensures !LowWordFits(V, V2, n2)
  {
  }

  /** The exact range of gf2x_mul_fft with split transforms.  Unless transforms of length 81 are used for at most 136
      words, and if the words that are read behind residues do no harm, every product of an and bn words is right,
      whatever lies behind the blocks; otherwise there are operands, and words behind the blocks, for which it is never
      right. */
  lemma SplitRight(an: nat, bn: nat, K: nat)
    requires 0 < an && 0 < bn && MUL_FFT_THRESHOLD <= an + bn && IsPow3(K) && 64 <= K
    requires K * (SplitLength(an, bn, K) + 1) + 64 <= 64 * (an + bn)
    ensures 0 < SplitLength(an, bn, K)
    ensures !(K == 81 && an + bn <= 136) && SplitSafe(an + bn, K) ==>
      forall A: Poly, B: Poly, x1: seq<Word>, x2: seq<Word> ::
        Fits(A, an) && Fits(B, bn) && |x1| == |x2| == K ==> Right(A, an, B, bn, K, x1, x2)
    ensures !(!(K == 81 && an + bn <= 136) && SplitSafe(an + bn, K)) ==>
      exists A: Poly, B: Poly, x1: seq<Word>, x2: seq<Word> ::
        Fits(A, an) && Fits(B, bn) && |x1| == |x2| == K && Wrong(A, an, B, bn, K, x1, x2)
  {
    hide Fits, SplitLength, IsPow3, Right, Wrong, SplitSafe;
    SplitSizes(an, bn, K);
    if K == 81 && an + bn <= 136 {
      var A, B, x1, x2 := SplitWrong(an, bn);
    } else if SplitSafe(an + bn, K) {
      forall A: Poly, B: Poly, x1: seq<Word>, x2: seq<Word> | Fits(A, an) && Fits(B, bn) && |x1| == |x2| == K
        ensures Right(A, an, B, bn, K, x1, x2)
      {
        HalvesRight(A, an, B, bn, K, x1, x2);
      }
    } else {
      var A, B, x1, x2 := UnsafeWrong(an, bn, K);
    }
  }

  lemma SplitWrong(an: nat, bn: nat) returns (A: Poly, B: Poly, x1: seq<Word>, x2: seq<Word>)
    requires 0 < an && 0 < bn && MUL_FFT_THRESHOLD <= an + bn <= 136 && IsPow3(81)
    requires 81 * (SplitLength(an, bn, 81) + 1) + 64 <= 64 * (an + bn)
    ensures 0 < SplitLength(an, bn, 81) && Fits(A, an) && Fits(B, bn) && |x1| == |x2| == 81
      && Wrong(A, an, B, bn, 81, x1, x2)
  {
    hide IsPow3, Mul, LowWordFits, HasProduct, HalfOne, HalfTwo, EvalAt, CodedBlocks, ResidueSize, SameRead, Fold, Low,
      WrongPosition;
    SplitResidues(an + bn, 81);
    var M := SplitLength(an, bn, 81);
    var r, b := WrongBit(M);
    A, B, x1, x2 := {r}, ONE, seq(81, i => {}), seq(81, i => {});
    HalfTwoWrong(an, bn, M, r, b);
  }

  /** A block that is read too far and does harm. */
  lemma UnsafeWrong(an: nat, bn: nat, K: nat) returns (A: Poly, B: Poly, x1: seq<Word>, x2: seq<Word>)
    requires 0 < an && 0 < bn && MUL_FFT_THRESHOLD <= an + bn && IsPow3(K) && 64 <= K && !(K == 81 && an + bn <= 136)
    requires K * (SplitLength(an, bn, K) + 1) + 64 <= 64 * (an + bn) && !SplitSafe(an + bn, K)
    ensures 0 < SplitLength(an, bn, K) && Fits(A, an) && Fits(B, bn) && |x1| == |x2| == K
      && Wrong(A, an, B, bn, K, x1, x2)
  {
    hide Fits, SplitLength, IsPow3, Wrong, BlocksClear, ResidueSize, Harmless, ReadsBehind, Felt;
    SplitSizes(an, bn, K);
    SumLength(an, bn, K);
    ResiduesLong(an, bn, K);
    var M := SplitLength(an, bn, K);
    Sizes(M, K);
    Sizes(M + 1, K);
    if !BlocksClear(M + 1, ResidueSize(M + 1, K), K, an + bn) {
      var j := UnclearBlock(M + 1, ResidueSize(M + 1, K), K, an + bn);
      A, B, x1, x2 := UnclearOne(an, bn, K, M, j);
    } else {
      var j0 := UnclearBlock(M, ResidueSize(M, K), K, an + bn);
      LongTransform(an + bn, M, K, j0);
      var j := FeltBlock(an, bn, K, M, j0);
      A, B, x1, x2 := FeltTwo(an, bn, K, M, j);
    }
  }

  lemma ResiduesLong(an: nat, bn: nat, K: nat)
    requires 0 < an && 0 < bn && MUL_FFT_THRESHOLD <= an + bn && IsPow3(K) && 64 <= K && !(K == 81 && an + bn <= 136)
    ensures 64 <= ResidueSize(SplitLength(an, bn, K), K) && 64 <= ResidueSize(SplitLength(an, bn, K) + 1, K)
  {
    hide IsPow3, ResidueSize;
    SplitResidues(an + bn, K);
  }

  /** With transforms of length 81 nothing is read too far for more than 136 words. */
  lemma LongTransform(sc: nat, M: nat, K: nat, j: nat)
    requires IsPow3(K) && 64 <= K && M == SplitLength(sc, 0, K) && 0 < sc && !(K == 81 && sc <= 136)
    requires M <= 2 * ResidueSize(M, K) && ReadsBehind(M, ResidueSize(M, K), sc, BlockStart(j, M))
    ensures 243 <= K
  {
    hide IsPow3, ReadsBehind, BlockStart;
    Powers(K);
    ShortBlock(j, M, ResidueSize(M, K), sc);
    if K == 81 {
      assert 55 <= M;
      NotTooFar(j, M, sc);
    }
  }

  lemma NotTooFar(j: nat, M: nat, sc: nat)
    requires 55 <= M < 63
    ensures ResidueSize(M, 81) == 81 && !ReadsBehind(M, 81, sc, BlockStart(j, M))
  {
    hide BlockStart;
  }

  lemma HalvesRight(A: Poly, an: nat, B: Poly, bn: nat, K: nat, x1: seq<Word>, x2: seq<Word>)
    requires 0 < an && 0 < bn && MUL_FFT_THRESHOLD <= an + bn && IsPow3(K) && 64 <= K == |x1| && |x2| == K
      && SplitSafe(an + bn, K)
    requires K * (SplitLength(an, bn, K) + 1) + 64 <= 64 * (an + bn) && !(K == 81 && an + bn <= 136)
    requires Fits(A, an) && Fits(B, bn)
    ensures 0 < SplitLength(an, bn, K) && Right(A, an, B, bn, K, x1, x2)
  {
    hide IsPow3, Mul, HasProduct, ResidueSize, Fits, SplitLength, Fold, Low, BlocksClear, SameRead, LowWordFits,
      HalfValue, BlockStart;
    SumLength(an, bn, K);
    ResiduesLong(an, bn, K);
    var M := SplitLength(an, bn, K);
    SplitFacts(an, bn, K, M, K * (M + 1), K * M);
    Sizes(M, K);
    Sizes(M + 1, K);
    var cw := SplitWords(an, bn, K);
    HalfRight(A, an, B, bn, M + 1, K, cw, x1);
    if BlocksClear(M, ResidueSize(M, K), K, an + bn) {
      HalfRight(A, an, B, bn, M, K, cw, x2);
      LowRead(HalfTwo(A, an, B, bn, K, x2), Fold(Mul(A, B), BlockStart(K, M)), K, K * (M + 1), K * M, 64 * (an + bn));
    } else {
      HarmlessLength(an + bn, K);
      HarmlessTwo(A, an, B, bn, K, x2);
    }
  }

  lemma HarmlessLength(sc: nat, K: nat)
    requires IsPow3(K) && 64 <= K && Harmless(sc, K)
    ensures 243 <= K
  {
    hide IsPow3, SplitLength, BlockStart;
    Powers(K);
  }

  lemma LowRead(H: Poly, F: Poly, K: nat, n1: nat, n2: nat, n: nat)
    requires n1 == n2 + K && n1 + 64 <= n <= 2 * n2 && Low(H, n) == F
    ensures SameRead(H, F, K, n1, n)
  {
    hide Low;
    forall p: nat | Read(p, K, n1, n)
      ensures p in H <==> p in F
    {
      assert p in Low(H, n) <==> p in H && p < n;
    }
  }
}
