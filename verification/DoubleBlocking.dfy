/** Distinct-degree factorization by double blocking, gf2x-1.1/apps/factor.cpp:
    all arithmetic is modulo the trinomial x^r + x^s + 1. */
module DoubleBlocking {
  import opened Numbers
  import opened Polynomials
  import opened PolyDivision
  import opened Residues
  import opened HalfGcd

  // ---------------------------------------------------------------- Frobenius

  /** a(x^2). */
  function Sq(a: Poly): (r: Poly)
    ensures forall i {:trigger i in r} :: i in r <==> i % 2 == 0 && i / 2 in a
  {
    set i | i in a :: 2 * i
  }

  /** Squaring is substitution of x^2: the mixed terms appear twice. */
  lemma {:induction false} SquareIsSq(a: Poly)
    ensures Mul(a, a) == Sq(a)
    decreases a
  {
    hide Mul, Deg, Shift;
    if a == {} {
      MulZero(a);
    } else {
      hide Sq;
      var i :| i in a;
      var a' := a - {i};
      SquareIsSq(a');
      assert a == Add(a', {i});
      SquareStep(a', i);
      assert Sq(a) == Add(Sq(a'), {2 * i});
    }
  }

  lemma SquareStep(a: Poly, i: nat)
    ensures Mul(Add(a, {i}), Add(a, {i})) == Add(Mul(a, a), {2 * i})
  {
    hide Mul, Deg, Shift;
    var b := Add(a, {i});
    AddMul(a, {i}, b);
    MulAdd(a, a, {i});
    MulAdd({i}, a, {i});
    MulComm(a, {i});
    MonomialMul(i, {i});
    assert Shift({i}, i) == {2 * i};
  }

  /** a^(2^k). */
  function Frob(a: Poly, k: nat): Poly
    decreases k
  {
    if k == 0 then a else Frob(Sq(a), k - 1)
  }

  lemma {:induction false} FrobSq(a: Poly, k: nat)
    ensures Frob(a, k + 1) == Sq(Frob(a, k))
    decreases k
  {
    if k > 0 {
      FrobSq(Sq(a), k - 1);
    }
  }

  lemma {:induction false} FrobFrob(a: Poly, k: nat, l: nat)
    ensures Frob(a, k + l) == Frob(Frob(a, k), l)
    decreases l
  {
    if l > 0 {
      FrobSq(a, k + l - 1);
      FrobFrob(a, k, l - 1);
      FrobSq(Frob(a, k), l - 1);
    }
  }

  lemma {:induction false} FrobAdd(a: Poly, b: Poly, k: nat)
    ensures Frob(Add(a, b), k) == Add(Frob(a, k), Frob(b, k))
    decreases k
  {
    hide Sq, Add;
    if k > 0 {
      assert Sq(Add(a, b)) == Add(Sq(a), Sq(b));
      FrobAdd(Sq(a), Sq(b), k - 1);
    }
  }

  lemma {:induction false} FrobShift(a: Poly, e: nat, k: nat)
    ensures Frob(Shift(a, e), k) == Shift(Frob(a, k), e * Pow2(k))
    decreases k
  {
    hide Sq, Shift;
    if k > 0 {
      assert Sq(Shift(a, e)) == Shift(Sq(a), 2 * e);
      FrobShift(Sq(a), 2 * e, k - 1);
      assert 2 * e * Pow2(k - 1) == e * Pow2(k);
    }
  }

  // ---------------------------------------------------------------- elementary symmetric polynomials

  /** Number of ones in the binary expansion. */
  function Ones(s: nat): nat {
    if s == 0 then 0 else s % 2 + Ones(s / 2)
  }

  /** Sum of x^s over 0 <= s < 2^m of Hamming weight w: the w-th elementary
      symmetric polynomial of x, x^2, x^4, ..., x^(2^(m-1)). */
  function Weight(m: nat, w: nat): (r: Poly)
    ensures forall s: nat {:trigger s in r} :: s in r <==> s < Pow2(m) && Ones(s) == w
  {
    set s: nat | s < Pow2(m) && Ones(s) == w
  }

  /** Pascal's triangle, splitting on the lowest bit of s. */
  lemma WeightStep(m: nat, w: nat)
    requires 0 < m
    ensures Weight(m, w) == Add(Sq(Weight(m - 1, w)), if w == 0 then {} else Shift(Sq(Weight(m - 1, w - 1)), 1))
  {
    hide Sq, Shift, Weight, Add, Ones;
    var odd := if w == 0 then {} else Shift(Sq(Weight(m - 1, w - 1)), 1);
    forall s: nat
      ensures s in Weight(m, w) <==> s in Add(Sq(Weight(m - 1, w)), odd)
    {
      WeightBit(m, w, s);
    }
  }

  lemma WeightBit(m: nat, w: nat, s: nat)
    requires 0 < m
    ensures s in Weight(m, w)
      <==> s in Add(Sq(Weight(m - 1, w)), if w == 0 then {} else Shift(Sq(Weight(m - 1, w - 1)), 1))
  {
    hide Sq, Shift, Weight;
    var odd := if w == 0 then {} else Shift(Sq(Weight(m - 1, w - 1)), 1);
    assert Ones(s) == s % 2 + Ones(s / 2);
    if s % 2 == 1 {
      assert (s - 1) / 2 == s / 2;
    }
    assert w > 0 && s > 0 ==> (s in odd <==> s - 1 in Sq(Weight(m - 1, w - 1)));
  }

  lemma {:induction false} OnesBound(m: nat, s: nat)
    requires s < Pow2(m)
    ensures Ones(s) <= m
  {
    if m > 0 {
      OnesBound(m - 1, s / 2);
    }
  }

  lemma WeightEnds(m: nat, w: nat)
    requires m < w
    ensures Weight(m, w) == {} && Weight(m, 0) == ONE
  {
    hide Weight;
    forall s: nat
      ensures s !in Weight(m, w) && (s in Weight(m, 0) <==> s == 0)
    {
      if s < Pow2(m) {
        OnesBound(m, s);
      }
      OnesPositive(s);
      Pow2Positive(m);
    }
  }

  lemma {:induction false} OnesPositive(s: nat)
    ensures s > 0 ==> Ones(s) > 0
  {
    if s > 1 {
      OnesPositive(s / 2);
    }
  }

  lemma {:induction false} Pow2Positive(m: nat)
    ensures Pow2(m) >= 1
  {
    if m > 0 {
      Pow2Positive(m - 1);
    }
  }

  /** The w-th elementary symmetric polynomial of x^(2^k), ..., x^(2^(k+m-1)). */
  function Symmetric(m: nat, k: nat, w: nat): Poly {
    Frob(Weight(m, w), k)
  }

  lemma SymmetricStep(m: nat, k: nat, w: nat)
    requires 0 < m && 0 < w
    ensures Symmetric(m, k, w)
         == Add(Symmetric(m - 1, k + 1, w), Shift(Symmetric(m - 1, k + 1, w - 1), Pow2(k)))
  {
    hide Sq, Shift, Weight, Add;
    var low := Sq(Weight(m - 1, w - 1));
    WeightStep(m, w);
    FrobAdd(Sq(Weight(m - 1, w)), Shift(low, 1), k);
    FrobShift(low, 1, k);
  }

  lemma {:induction false} FrobConstant(k: nat)
    ensures Frob(ONE, k) == ONE && Frob({}, k) == {}
  {
    hide Sq;
    if k > 0 {
      assert Sq(ONE) == ONE && Sq({}) == {};
      FrobConstant(k - 1);
    }
  }

  lemma SymmetricZero(m: nat, k: nat)
    ensures Symmetric(m, k, 0) == ONE
  {
    WeightEnds(m, m + 1);
    FrobConstant(k);
  }

  /** Horner's rule of the inner loop: sum over w <= n of x^(n-w) * Symmetric(m, k, w). */
  function Horner(m: nat, k: nat, n: nat): Poly {
    if n == 0 then ONE else Add(Shift(Horner(m, k, n - 1), 1), Symmetric(m, k, n))
  }

  /** The product of x^(2^t) + x over k <= t < k + m. */
  function BlockProduct(m: nat, k: nat): Poly {
    if m == 0 then ONE else Mul(Add({1}, {Pow2(k)}), BlockProduct(m - 1, k + 1))
  }

  lemma {:induction false} HornerStep(m: nat, k: nat, n: nat)
    requires 0 < m && 0 < n
    ensures Horner(m, k, n)
         == Add(Horner(m - 1, k + 1, n), Shift(Horner(m - 1, k + 1, n - 1), Pow2(k)))
    decreases n
  {
    hide Sq, Shift, Weight, Add, Symmetric;
    SymmetricStep(m, k, n);
    var p := Horner(m - 1, k + 1, n - 1);
    if n == 1 {
      SymmetricZero(m - 1, k + 1);
    } else {
      HornerStep(m, k, n - 1);
      var p' := Horner(m - 1, k + 1, n - 2);
      assert Shift(Add(p, Shift(p', Pow2(k))), 1) == Add(Shift(p, 1), Shift(Shift(p', 1), Pow2(k)));
    }
  }

  /** Vieta: the Horner sum of the elementary symmetric polynomials is the product. */
  lemma {:induction false} HornerIsProduct(m: nat, k: nat)
    ensures Horner(m, k, m) == BlockProduct(m, k)
    decreases m
  {
    hide Horner, BlockProduct;
    if m == 0 {
      NoFactors(k);
    } else {
      HornerIsProduct(m - 1, k + 1);
      HornerNext(m, k);
    }
  }

  lemma NoFactors(k: nat)
    ensures Horner(0, k, 0) == BlockProduct(0, k)
  {
  }

  lemma HornerNext(m: nat, k: nat)
    requires 0 < m && Horner(m - 1, k + 1, m - 1) == BlockProduct(m - 1, k + 1)
    ensures Horner(m, k, m) == BlockProduct(m, k)
  {
    hide Sq, Shift, Weight, Add, Mul, Horner, BlockProduct, Pow2, Symmetric;
    HornerStep(m, k, m);
    LastFactor(m, k);
    FirstFactor(m, k);
  }

  lemma LastFactor(m: nat, k: nat)
    requires 0 < m
    ensures Horner(m - 1, k + 1, m) == Shift(Horner(m - 1, k + 1, m - 1), 1)
  {
    hide Shift, Weight, Add;
    WeightEnds(m - 1, m);
    FrobConstant(k + 1);
    var h := Shift(Horner(m - 1, k + 1, m - 1), 1);
    assert Add(h, {}) == h;
  }

  lemma FirstFactor(m: nat, k: nat)
    requires 0 < m
    ensures var p := BlockProduct(m - 1, k + 1); Add(Shift(p, 1), Shift(p, Pow2(k))) == BlockProduct(m, k)
  {
    hide Shift, Add, Mul, Pow2;
    var p := BlockProduct(m - 1, k + 1);
    AddMul({1}, {Pow2(k)}, p);
    MonomialMul(1, p);
    MonomialMul(Pow2(k), p);
    SumCommutes(Shift(p, 1), Shift(p, Pow2(k)));
  }

  lemma SumCommutes(a: Poly, b: Poly)
    ensures Add(a, b) == Add(b, a)
  {
    hide Add;
  }

  // ---------------------------------------------------------------- degree intervals

  lemma {:induction false} BlockProductSplit(m: nat, n: nat, k: nat)
    ensures BlockProduct(m + n, k) == Mul(BlockProduct(m, k), BlockProduct(n, k + m))
    decreases m
  {
    hide Mul, Add;
    if m == 0 {
      MulOne(BlockProduct(n, k));
    } else {
      BlockProductSplit(m - 1, n, k + 1);
      MulAssoc(Add({1}, {Pow2(k)}), BlockProduct(m - 1, k + 1), BlockProduct(n, k + m));
    }
  }

  /** What the blocks of length m starting at degree i contribute, leaving out
      those that lie within the degrees to skip. */
  function Blocks(m: nat, i: nat, k2: int, skipd: int): Poly
    requires 0 < m
    decreases k2 - i
  {
    if i + m - 1 > k2 then ONE
    else Mul(if i + m - 1 <= skipd then ONE else BlockProduct(m, i), Blocks(m, i + m, k2, skipd))
  }

  /** The degree at which the table stands after the blocks from i on. */
  function BlocksEnd(m: nat, i: nat, k2: int): nat
    requires 0 < m
    decreases k2 - i
  {
    if i + m - 1 > k2 then i else BlocksEnd(m, i + m, k2)
  }

  /** With nothing skipped, q blocks cover the whole interval of degrees. */
  lemma {:induction false} BlocksCoverInterval(m: nat, i: nat, q: nat, skipd: int)
    requires 0 < m && skipd < i
    ensures q * m >= 0 && Blocks(m, i, i + q * m - 1, skipd) == BlockProduct(q * m, i)
    ensures BlocksEnd(m, i, i + q * m - 1) == i + q * m
    decreases q
  {
    hide Mul;
    if q > 0 {
      BlocksCoverInterval(m, i + m, q - 1, skipd);
      assert q * m == m + (q - 1) * m;
      BlockProductSplit(m, (q - 1) * m, i);
    }
  }

  /** The start of the first block that is not skipped. */
  function FirstKept(m: nat, i: nat, k2: int, skipd: int): nat
    requires 0 < m
    decreases k2 - i
  {
    if i + m - 1 > k2 || i + m - 1 > skipd then i else FirstKept(m, i + m, k2, skipd)
  }

  /** The degrees f to end - 1 are those of the blocks of length m from k on, up to k2, of which the last degree exceeds
      skipd. */
  ghost predicate Kept(m: nat, k: nat, k2: int, skipd: int, f: nat, end: nat)
    requires 0 < m
  {
    && k <= f <= end && (f - k) % m == 0 && (end - k) % m == 0
    && (k < f ==> f - 1 <= skipd) && (f < end ==> skipd < f + m - 1)
    && (k < end ==> end - 1 <= k2) && k2 < end + m - 1
  }

  /** The blocks that are not skipped are all the degrees from the first of them on, whatever is to be skipped. */
  lemma {:induction false} BlocksAreKept(m: nat, k: nat, k2: int, skipd: int)
    requires 0 < m
    ensures var f, end := FirstKept(m, k, k2, skipd), BlocksEnd(m, k, k2);
      Kept(m, k, k2, skipd, f, end) && Blocks(m, k, k2, skipd) == BlockProduct(end - f, f)
    decreases k2 - k
  {
    hide Mul, BlockProduct, Kept;
    if k + m - 1 > k2 {
      NoBlock(k);
      KeptNone(m, k, k2, skipd);
    } else {
      BlocksAreKept(m, k + m, k2, skipd);
      var f, end := FirstKept(m, k + m, k2, skipd), BlocksEnd(m, k + m, k2);
      KeptNext(m, k, k2, skipd, f, end);
      if k + m - 1 > skipd {
        BlockProductSplit(m, end - f, k);
      } else {
        MulOne(Blocks(m, k + m, k2, skipd));
      }
    }
  }

  lemma KeptNone(m: nat, k: nat, k2: int, skipd: int)
    requires 0 < m && k + m - 1 > k2
    ensures Kept(m, k, k2, skipd, k, k)
  {
  }

  /** One block in front. */
  lemma KeptNext(m: nat, k: nat, k2: int, skipd: int, f: nat, end: nat)
    requires 0 < m && k + m - 1 <= k2 && Kept(m, k + m, k2, skipd, f, end)
    ensures Kept(m, k, k2, skipd, if k + m - 1 > skipd then k else f, end) && k + m <= f <= end
    ensures k + m - 1 > skipd ==> f == k + m
  {
    OneBlockMore(end - k, m);
    OneBlockMore(f - k, m);
    SelfMultiple(m);
    if k + m - 1 > skipd && k + m < f {
      assert false;
    }
  }

  lemma SelfMultiple(m: nat)
    requires 0 < m
    ensures 0 % m == 0
  {
  }

  lemma NoBlock(k: nat)
    ensures BlockProduct(0, k) == ONE
  {
  }

  lemma OneBlockMore(n: nat, m: nat)
    requires 0 < m <= n && (n - m) % m == 0
    ensures n % m == 0
  {
    var q := (n - m) / m;
    assert n == (q + 1) * m;
    ModUnique(n, m, q + 1, 0);
  }

  /** For every degree t that is not skipped, whatever divides x^(2^t) + x divides the product. */
  lemma DegreeKept(f: nat, end: nat, t: nat, d: Poly)
    requires f <= t < end && Divides(d, Add({1}, {Pow2(t)}))
    ensures Divides(d, BlockProduct(end - f, f))
  {
    hide Divides, Mul, Add;
    BlockProductSplit(t - f, end - t, f);
    var factor, rest := Add({1}, {Pow2(t)}), BlockProduct(end - t - 1, t + 1);
    MulComm(factor, rest);
    DividesMul(d, factor, rest);
    DividesMul(d, Mul(rest, factor), BlockProduct(t - f, f));
  }

  // ---------------------------------------------------------------- arithmetic modulo the trinomial

  function Trinomial(r: nat, s: nat): (t: Poly)
    requires 0 < s < r
    ensures t != {} && Deg(t) == r
  {
    DegIs({0, s, r}, r);
    {0, s, r}
  }

  /** a * x modulo the trinomial by flipping at most three coefficients. */
  method FastMulByXMod(a: Poly, r: nat, s: nat) returns (c: Poly)
    requires 0 < s < r && Deg(a) < r
    ensures c == Rem(Shift(a, 1), Trinomial(r, s))
  {
    hide Deg, Shift, Rem, Mul;
    DegShift(a, 1);
    c := Shift(a, 1);
    if Deg(c) >= r {
      ghost var full := c;
      c := c - {r};
      c := Add(c, {s});
      c := Add(c, {0});
      ghost var P := Trinomial(r, s);
      assert full == Add(c, P);
      DegAddCancel(full, P);
      assert Add(full, P) == c;
      MulOne(P);
      RemMultiple(ONE, P);
      RemAdd(c, P, P);
      RemSmall(c, P);
      assert Add(c, {}) == c;
    } else {
      RemSmall(c, Trinomial(r, s));
    }
  }

  /** One modular squaring, the contract of fastsqr and of NTL's SqrMod. */
  function SqrMod(a: Poly, r: nat, s: nat): Poly
    requires 0 < s < r
  {
    Rem(Mul(a, a), Trinomial(r, s))
  }

  lemma SqrModRem(a: Poly, r: nat, s: nat)
    requires 0 < s < r
    ensures SqrMod(Rem(a, Trinomial(r, s)), r, s) == Rem(Sq(a), Trinomial(r, s))
  {
    hide Mul, Rem, Trinomial;
    var P := Trinomial(r, s);
    RemRem(a, P);
    MulCong(a, Rem(a, P), a, Rem(a, P), P);
    SquareIsSq(a);
  }

  /** h[j] <- h[j]^(2^k), two squarings at a time when the fast squaring is used. */
  method Power(h: array<Poly>, j: nat, k: nat, r: nat, s: nat, usefs: bool, ghost g: Poly)
    requires 0 < s < r && j < h.Length
    requires h[j] == Rem(g, Trinomial(r, s))
    modifies h
    ensures h[j] == Rem(Frob(g, k), Trinomial(r, s))
    ensures forall i :: 0 <= i < h.Length && i != j ==> h[i] == old(h[i])
  {
    hide Rem, Trinomial, SqrMod, Sq;
    if usefs {
      var i := 0;
      while i < k / 2
        invariant 0 <= i <= k / 2
        invariant h[j] == Rem(Frob(g, 2 * i), Trinomial(r, s))
        invariant forall l :: 0 <= l < h.Length && l != j ==> h[l] == old(h[l])
      {
        SqrModRem(Frob(g, 2 * i), r, s);
        SqrModRem(Frob(g, 2 * i + 1), r, s);
        FrobSq(g, 2 * i);
        FrobSq(g, 2 * i + 1);
        var htemp := SqrMod(h[j], r, s);
        h[j] := SqrMod(htemp, r, s);
        i := i + 1;
      }
      if k % 2 == 1 {
        SqrModRem(Frob(g, k - 1), r, s);
        FrobSq(g, k - 1);
        var htemp := SqrMod(h[j], r, s);
        h[j] := htemp;
      }
    } else {
      for i := 0 to k
        invariant h[j] == Rem(Frob(g, i), Trinomial(r, s))
        invariant forall l :: 0 <= l < h.Length && l != j ==> h[l] == old(h[l])
      {
        SqrModRem(Frob(g, i), r, s);
        FrobSq(g, i);
        h[j] := SqrMod(h[j], r, s);
      }
    }
  }

  /** The table holds the elementary symmetric polynomials at level k. */
  ghost predicate Table(h: array<Poly>, m: nat, k: nat, r: nat, s: nat)
    requires 0 < s < r && m <= h.Length
    reads h
  {
    forall j :: 0 <= j < m ==> h[j] == Rem(Symmetric(m, k, j + 1), Trinomial(r, s))
  }

  /** h[j] becomes the sum of x^(s*2^k) over s < 2^m of Hamming weight j+1. */
  method InitH(h: array<Poly>, k: nat, m: nat, r: nat, s: nat, usefs: bool)
    requires 0 < s < r && m <= h.Length
    modifies h
    ensures Table(h, m, k, r, s)
    ensures forall l :: m <= l < h.Length ==> h[l] == old(h[l])
  {
    hide Rem, Trinomial, Weight;
    for j := 1 to m + 1
      invariant forall i :: 0 <= i < j - 1 ==> h[i] == Rem(Weight(j - 1, i + 1), Trinomial(r, s))
      invariant forall l :: m <= l < h.Length ==> h[l] == old(h[l])
    {
      WeightRow(h, j, r, s, usefs);
    }
    for j := 0 to m
      invariant forall i :: 0 <= i < j ==> h[i] == Rem(Symmetric(m, k, i + 1), Trinomial(r, s))
      invariant forall i :: j <= i < m ==> h[i] == Rem(Weight(m, i + 1), Trinomial(r, s))
      invariant forall l :: m <= l < h.Length ==> h[l] == old(h[l])
    {
      Power(h, j, k, r, s, usefs, Weight(m, j + 1));
    }
  }

  /** One row of Pascal's triangle, in place from the top down. */
  method WeightRow(h: array<Poly>, j: nat, r: nat, s: nat, usefs: bool)
    requires 0 < s < r && 0 < j <= h.Length
    requires forall i :: 0 <= i < j - 1 ==> h[i] == Rem(Weight(j - 1, i + 1), Trinomial(r, s))
    modifies h
    ensures forall i :: 0 <= i < j ==> h[i] == Rem(Weight(j, i + 1), Trinomial(r, s))
    ensures forall l :: j <= l < h.Length ==> h[l] == old(h[l])
  {
    hide Rem, Weight, Trinomial, SqrMod, Sq, Shift, Add, Deg;
    ghost var P := Trinomial(r, s);
    h[j - 1] := {};
    WeightEnds(j - 1, j);
    DegAdd({}, {});
    RemSmall({}, P);
    assert Sq({}) == {};
    for i := j downto 0
      invariant forall l :: i <= l < j ==> h[l] == Rem(Weight(j, l + 1), P)
      invariant forall l :: j <= l < h.Length ==> h[l] == old(h[l])
      invariant i > 0 ==> h[i - 1] == Rem(Sq(Weight(j - 1, i)), P)
      invariant forall l :: 0 <= l < i - 1 ==> h[l] == Rem(Weight(j - 1, l + 1), P)
    {
      var a: Poly;
      WeightStep(j, i + 1);
      if i > 0 {
        SqrModRem(Weight(j - 1, i), r, s);
        h[i - 1] := SqrMod(h[i - 1], r, s);
        a := FastMulByXMod(h[i - 1], r, s);
        RemRem(Sq(Weight(j - 1, i)), P);
        ShiftCong(h[i - 1], Sq(Weight(j - 1, i)), 1, P);
      } else {
        a := {1};
        DegIs({1}, 1);
        RemSmall({1}, P);
        WeightEnds(j - 1, j);
        assert Shift(Sq(ONE), 1) == {1};
      }
      RemAdd(Sq(Weight(j - 1, i + 1)), Shift(Sq(Weight(j - 1, i)), 1), P);
      h[i] := Add(h[i], a);
    }
  }

  /** One pass of the inner loop: c collects the Horner sum of the table while
      every entry moves on by m squarings. */
  method Block(h: array<Poly>, i: nat, m: nat, r: nat, s: nat, usefs: bool) returns (c: Poly)
    requires 0 < s < r && m <= h.Length
    requires Table(h, m, i, r, s)
    modifies h
    ensures Table(h, m, i + m, r, s)
    ensures c == Rem(BlockProduct(m, i), Trinomial(r, s))
    ensures forall l :: m <= l < h.Length ==> h[l] == old(h[l])
  {
    hide Rem, Trinomial, Weight, Add, Shift, Symmetric, Deg;
    ghost var P := Trinomial(r, s);
    c := ONE;
    DegIs(ONE, 0);
    RemSmall(ONE, P);
    for j := 0 to m
      invariant c == Rem(Horner(m, i, j), P)
      invariant forall l :: 0 <= l < j ==> h[l] == Rem(Symmetric(m, i + m, l + 1), P)
      invariant forall l :: j <= l < m ==> h[l] == Rem(Symmetric(m, i, l + 1), P)
      invariant forall l :: m <= l < h.Length ==> h[l] == old(h[l])
    {
      RemRem(Horner(m, i, j), P);
      ShiftCong(c, Horner(m, i, j), 1, P);
      c := FastMulByXMod(c, r, s);
      RemAdd(Shift(Horner(m, i, j), 1), Symmetric(m, i, j + 1), P);
      c := Add(c, h[j]);
      SymmetricAdvance(m, i, j + 1);
      Power(h, j, m, r, s, usefs, Symmetric(m, i, j + 1));
    }
    HornerIsProduct(m, i);
  }

  lemma SymmetricAdvance(m: nat, i: nat, w: nat)
    ensures Frob(Symmetric(m, i, w), m) == Symmetric(m, i + m, w)
  {
    FrobFrob(Weight(m, w), i, m);
  }

  /** The double-blocking loop over the degrees k .. k2: a is multiplied by the x^(2^t) + x of the degrees f to end - 1,
      those of all whole blocks but the ones that lie within the degrees to skip. */
  method DegreeInterval(h: array<Poly>, a0: Poly, k: nat, k2: int, m: nat, r: nat, s: nat,
      usefs: bool, skipd: int) returns (a: Poly, ghost f: nat, ghost end: nat)
    requires 0 < s < r && 0 < m <= h.Length && Deg(a0) < r
    requires Table(h, m, k, r, s)
    modifies h
    ensures k <= f <= end && (f - k) % m == 0 && (end - k) % m == 0
    ensures (k < f ==> f - 1 <= skipd) && (f < end ==> skipd < f + m - 1)
    ensures (k < end ==> end - 1 <= k2) && k2 < end + m - 1
    ensures a == Rem(Mul(a0, BlockProduct(end - f, f)), Trinomial(r, s))
    ensures Table(h, m, end, r, s) && forall l :: m <= l < h.Length ==> h[l] == old(h[l])
  {
    hide Rem, Trinomial, Mul, Deg, BlockProduct;
    ghost var P := Trinomial(r, s);
    ghost var all := Blocks(m, k, k2, skipd);
    BlocksAreKept(m, k, k2, skipd);
    f, end := FirstKept(m, k, k2, skipd), BlocksEnd(m, k, k2);
    a := a0;
    RemSmall(a0, P);
    var i := k;
    while i + m - 1 <= k2
      invariant Rem(a, P) == a
      invariant Rem(Mul(a, Blocks(m, i, k2, skipd)), P) == Rem(Mul(a0, all), P)
      invariant Table(h, m, i, r, s) && BlocksEnd(m, i, k2) == BlocksEnd(m, k, k2)
      invariant forall l :: m <= l < h.Length ==> h[l] == old(h[l])
    {
      ghost var rest := Blocks(m, i + m, k2, skipd);
      var c := Block(h, i, m, r, s, usefs);
      if i + m - 1 <= skipd {
        MulOne(rest);
      } else {
        ghost var p := BlockProduct(m, i);
        MulAssoc(a, p, rest);
        RemRem(p, P);
        MulCong(a, a, c, p, P);
        RemRem(Mul(a, p), P);
        MulCong(Mul(a, p), Rem(Mul(a, c), P), rest, rest, P);
        a := Rem(Mul(a, c), Trinomial(r, s));
      }
      i := i + m;
    }
    MulOne(a);
  }

  /** An interval of q blocks followed by the gcd, unless all degrees are to be skipped: the gcd of the trinomial with
      the product of x^(2^t) + x over all the degrees t of the interval from f on, where the first block begins that is
      not skipped.  The table is left ready for the next interval. */
  method CoarseStep(h: array<Poly>, k: nat, q: nat, m: nat, r: nat, s: nat, usefs: bool, skipd: int, init: bool)
      returns (a: Poly, ghost f: nat)
    requires 0 < s < r && 0 < m <= h.Length && 0 < k
    requires init || Table(h, m, k, r, s)
    modifies h
    ensures q * m >= 0 && k <= f <= k + q * m && (f - k) % m == 0
    ensures (k < f ==> f - 1 <= skipd) && (f < k + q * m ==> skipd < f + m - 1)
    ensures a == if k + q * m - 1 <= skipd then ONE else Gcd(BlockProduct(k + q * m - f, f), Trinomial(r, s))
    ensures Table(h, m, k + q * m, r, s) && forall l :: m <= l < h.Length ==> h[l] == old(h[l])
  {
    hide Rem, Trinomial, Mul, Deg, BlockProduct, Gcd, Blocks, BlocksEnd;
    ghost var P := Trinomial(r, s);
    if init {
      InitH(h, k, m, r, s, usefs);
    }
    DegIs(ONE, 0);
    ghost var end;
    a, f, end := DegreeInterval(h, ONE, k, k + q * m - 1, m, r, s, usefs, skipd);
    WholeBlocks(k, q, m, end);
    ghost var all := BlockProduct(end - f, f);
    MulOne(all);
    if k + q * m - 1 <= skipd {
      NothingKept(k, q, m, f, skipd);
      NoBlock(f);
      RemSmall(ONE, P);
    } else {
      GcdRem(all, P);
      GcdSwap(P, Rem(all, P));
      a := FastGCD(a, Trinomial(r, s));
    }
  }

  lemma WholeBlocks(k: nat, q: nat, m: nat, end: nat)
    requires 0 < m && k <= end && (end - k) % m == 0
    requires (k < end ==> end - 1 <= k + q * m - 1) && k + q * m - 1 < end + m - 1
    ensures end == k + q * m
  {
    NonNegative(q, m);
    SameMultiple(q, m, end - k);
  }

  lemma SameMultiple(q: nat, m: nat, n: nat)
    requires 0 < m && n % m == 0 && n <= q * m < n + m
    ensures n == q * m
  {
    var j := n / m;
    assert n == j * m;
    ModUnique(q * m, m, j, q * m - n);
    ModUnique(q * m, m, q, 0);
  }

  lemma NothingKept(k: nat, q: nat, m: nat, f: nat, skipd: int)
    requires 0 < m && q * m >= 0 && k <= f <= k + q * m && (f - k) % m == 0
    requires (f < k + q * m ==> skipd < f + m - 1) && k + q * m - 1 <= skipd
    ensures f == k + q * m
  {
    if f < k + q * m {
      SameMultiple(q, m, f - k);
    }
  }

  /** Whatever divides the trinomial and, for a degree t that is not skipped, x^(2^t) + x, divides the result of a pass.
      */
  lemma PassFinds(k: nat, q: nat, m: nat, f: nat, r: nat, s: nat, skipd: int, t: nat, d: Poly)
    requires 0 < s < r && 0 < m && q * m >= 0 && k <= f <= k + q * m && (k < f ==> f - 1 <= skipd)
    requires k <= t < k + q * m && skipd < t
    requires Divides(d, Trinomial(r, s)) && Divides(d, Add({1}, {Pow2(t)}))
    ensures Divides(d, Gcd(BlockProduct(k + q * m - f, f), Trinomial(r, s)))
  {
    hide Divides, BlockProduct, Trinomial, Add;
    DegreeKept(f, k + q * m, t, d);
  }
}
