/** The two-modulus product of gf2x-1.1/fft.c: the product is computed modulo
    x^(K*m1) + 1 and modulo x^(K*(m1-1)) + 1 and put together again. */
module SplitFft {
  import opened Polynomials
  import opened PolyDivision
  import opened Residues
  import opened FftAlgebra
  import opened FftConvolution
  import opened Words
  import opened WordMemory
  import opened ShiftLoops
  import opened FftMul

  // ---------------------------------------------------------------- reduction modulo x^N + 1

  /** a folded at x^N: the remainder modulo x^N + 1 of a polynomial of degree < 2N. */
  function Fold(a: Poly, N: nat): Poly {
    Add(Low(a, N), High(a, N))
  }

  function CyclicModulus(N: nat): (p: Poly)
    requires 0 < N
    ensures p != {} && Deg(p) == N
  {
    DegIs({0, N}, N);
    {0, N}
  }

  lemma FoldIsRem(a: Poly, N: nat)
    requires 0 < N && Deg(a) < 2 * N
    ensures Fold(a, N) == Rem(a, CyclicModulus(N)) && Deg(Fold(a, N)) < N
  {
    hide Deg, Low, High, Shift, Mul, Rem, Add, CyclicModulus, Fold;
    var p, h := CyclicModulus(N), High(a, N);
    FoldEquation(a, N);
    RemSmall(Fold(a, N), p);
    RemMultiple(h, p);
    RemAdd(Fold(a, N), Mul(h, p), p);
    assert Add(Rem(Fold(a, N), p), {}) == Rem(Fold(a, N), p);
  }

  lemma FoldEquation(a: Poly, N: nat)
    requires 0 < N
    ensures a == Add(Fold(a, N), Mul(High(a, N), CyclicModulus(N)))
    ensures Deg(a) < 2 * N ==> Deg(Fold(a, N)) < N
  {
    hide Deg, Low, High, Shift, Mul, CyclicModulus, Add;
    SplitAt(a, N);
    DegAdd(Low(a, N), High(a, N));
    ModulusTimes(High(a, N), N);
    FoldRegroup(Low(a, N), High(a, N), Shift(High(a, N), N));
  }

  lemma FoldRegroup(l: Poly, h: Poly, s: Poly)
    ensures Add(s, l) == Add(Add(l, h), Add(s, h))
  {
    hide Add;
  }

  lemma ModulusTimes(h: Poly, N: nat)
    requires 0 < N
    ensures Mul(h, CyclicModulus(N)) == Add(Shift(h, N), h)
  {
    hide Shift, Mul, Add;
    var one: Poly := ONE;
    assert CyclicModulus(N) == Add(Shift(one, N), one);
    MulAdd(h, Shift(one, N), one);
    MulShift(h, one, N);
    MulOne(h);
  }

  /** x^N = 1 modulo x^N + 1. */
  lemma ModulusPeriod(N: nat)
    requires 0 < N
    ensures Rem(Shift(ONE, N), CyclicModulus(N)) == Rem(ONE, CyclicModulus(N))
  {
    hide Shift, Mul, Add, Rem;
    var p := CyclicModulus(N);
    MulOne(p);
    RemMultiple(ONE, p);
    assert Add(Shift(ONE, N), ONE) == p;
    RemAdd(Shift(ONE, N), ONE, p);
    AddIsZero(Rem(Shift(ONE, N), p), Rem(ONE, p));
  }

  // ---------------------------------------------------------------- wrap, on words

  /** Word i of the part of c above bit N. */
  function HighWord(c: seq<Word>, N: nat, i: nat): Word
    requires i + N / 64 < |c|
  {
    if i + N / 64 + 1 < |c| && N % 64 != 0
    then Or(Shr(c[i + N / 64], N % 64), Shl(c[i + N / 64 + 1], 64 - N % 64))
    else Shr(c[i + N / 64], N % 64)
  }

  lemma HighWordBits(c: seq<Word>, N: nat, i: nat, b: nat)
    requires i + N / 64 < |c| && b < 64
    ensures b in HighWord(c, N, i) <==> 64 * i + b + N in Val(c)
  {
    hide HighWord, Val;
    var q, r := N / 64, N % 64;
    var e := 64 * i + b + N;
    if b + r < 64 {
      assert e == 64 * (i + q) + (b + r);
      ValBit(c, i + q, b + r);
    } else if i + q + 1 < |c| {
      assert e == 64 * (i + q + 1) + (b + r - 64);
      ValBit(c, i + q + 1, b + r - 64);
    } else {
      ValBound(c, e);
    }
    HighWordAtBit(c, N, i, b);
  }

  lemma HighWordAtBit(c: seq<Word>, N: nat, i: nat, b: nat)
    requires i + N / 64 < |c| && b < 64
    ensures b in HighWord(c, N, i) <==>
      var q, r := N / 64, N % 64;
      if b + r < 64 then b + r in c[i + q] else i + q + 1 < |c| && b + r - 64 in c[i + q + 1]
  {
    hide HighWord, Shr, Shl;
    var q, r := N / 64, N % 64;
    var x: Word := c[i + q];
    if i + q + 1 < |c| {
      HighWordUsual(c, N, i);
      if r != 0 {
        OrBits(x, c[i + q + 1], r, b);
      }
    } else {
      HighWordLast(c, N);
      if b + r >= 64 {
        WordBound(x, b + r);
      }
    }
  }

  lemma OrBits(x: Word, y: Word, r: nat, b: nat)
    requires 0 < r < 64 && b < 64
    ensures b in Or(Shr(x, r), Shl(y, 64 - r)) <==> if b + r < 64 then b + r in x else b + r - 64 in y
  {
    hide Shr, Shl;
    if b + r >= 64 {
      WordBound(x, b + r);
    }
  }

  lemma HighWordUsual(c: seq<Word>, N: nat, i: nat)
    requires i + N / 64 + 1 < |c|
    ensures N % 64 == 0 ==> HighWord(c, N, i) == c[i + N / 64]
    ensures N % 64 != 0 ==>
      HighWord(c, N, i) == Or(Shr(c[i + N / 64], N % 64), Shl(c[i + N / 64 + 1], 64 - N % 64))
  {
    hide Shl, Shr;
    ShrZero(c[i + N / 64]);
  }

  /** c[i] ^= word i of the part above bit N, for all i. */
  method XorHigh(c: array<Word>, cn: nat, N: nat)
    requires N / 64 < cn <= c.Length
    modifies c
    ensures forall k :: 0 <= k < cn - N / 64 ==> c[k] == Xor(old(c[k]), HighWord(old(c[..cn]), N, k))
    ensures forall k :: cn - N / 64 <= k < c.Length ==> c[k] == old(c[k])
  {
    hide Shl, Shr, Val, Xor, HighWord, Or;
    var Nw := N / 64;
    var Nb := N % 64;
    var Nbc := 64 - Nb;
    ghost var s := c[..cn];
    var i := 0;
    while i < cn - Nw - 1
      invariant 0 <= i <= cn - Nw - 1
      invariant forall k :: 0 <= k < i ==> c[k] == Xor(s[k], HighWord(s, N, k))
      invariant forall k :: i <= k < c.Length ==> c[k] == old(c[k])
    {
      HighWordUsual(s, N, i);
      if Nb == 0 {
        c[i] := Xor(c[i], c[i + Nw]);
      } else {
        c[i] := Xor(c[i], Or(Shr(c[i + Nw], Nb), Shl(c[i + Nw + 1], Nbc)));
      }
      i := i + 1;
    }
    HighWordLast(s, N);
    c[cn - Nw - 1] := Xor(c[cn - Nw - 1], Shr(c[cn - 1], Nb));
  }

  lemma HighWordLast(c: seq<Word>, N: nat)
    requires N / 64 < |c|
    ensures HighWord(c, N, |c| - N / 64 - 1) == Shr(c[|c| - 1], N % 64)
  {
  }

  lemma ShrZero(a: Word)
    ensures Shr(a, 0) == a
  {
    hide Shr;
  }

  method Clear(c: array<Word>, low: nat, high: nat)
    requires high <= c.Length
    modifies c
    ensures forall k :: 0 <= k < c.Length ==> c[k] == if low <= k < high then {} else old(c[k])
  {
    var i := low;
    while i < high
      invariant low <= i && (i <= high || i == low)
      invariant forall k :: 0 <= k < c.Length ==> c[k] == if low <= k < i then {} else old(c[k])
    {
      c[i] := {};
      i := i + 1;
    }
  }

  /** Folds {c, cn} at x^N in place. */
  method Wrap(c: array<Word>, bits_c: nat, N: nat)
    requires (bits_c + 64 - 1) / 64 <= c.Length
    requires 0 < N && Deg(Val(c[..(bits_c + 64 - 1) / 64])) < 2 * N
    modifies c
    ensures var cn := (bits_c + 64 - 1) / 64;
      && Val(c[..cn]) == (if bits_c <= N then old(Val(c[..cn])) else Fold(old(Val(c[..cn])), N))
      && c[cn..] == old(c[cn..])
  {
    hide Shl, Shr, Val, Deg, HighWord, Xor, Mask, Fold;
    var Nw := N / 64;
    var Nb := N % 64;
    var cn := (bits_c + 64 - 1) / 64;
    if N >= bits_c {
      return;
    }
    ghost var s := c[..cn];
    XorHigh(c, cn, N);
    c[Nw] := Mask(c[Nw], Nb);
    Clear(c, Nw + 1, cn);
    WrapFolds(s, c[..cn], N);
  }

  lemma WrapFolds(s: seq<Word>, t: seq<Word>, N: nat)
    requires var cn, Nw, Nb := |s|, N / 64, N % 64;
      && |t| == cn && Nw < cn && 0 < N && Deg(Val(s)) < 2 * N
      && (forall k :: 0 <= k < cn - Nw && k < Nw ==> t[k] == Xor(s[k], HighWord(s, N, k)))
      && (forall k :: cn - Nw <= k < Nw ==> t[k] == s[k])
      && t[Nw] == Mask(if Nw < cn - Nw then Xor(s[Nw], HighWord(s, N, Nw)) else s[Nw], Nb)
      && (forall k :: Nw < k < cn ==> t[k] == {})
    ensures Val(t) == Fold(Val(s), N)
  {
    hide Shl, Shr, Deg, HighWord, Low, High, Val;
    var Nw := N / 64;
    forall i: nat
      ensures i in Val(t) <==> i in Fold(Val(s), N)
    {
      var k, b := i / 64, i % 64;
      ValMember(t, i);
      ValMember(s, i);
      assert i in High(Val(s), N) <==> i + N in Val(s);
      ValMember(s, i + N);
      if k < |s| - Nw {
        HighWordBits(s, N, k, b);
        assert 64 * k + b + N == i + N;
      }
    }
  }

  // ---------------------------------------------------------------- reconstruction

  /** What the steps for the bits above j have made of V0 with the help of V2: each has added its bit of D at its
      place and n1 places further up, and this bit is the sum of the two halves K places further up. */
  ghost predicate Steps(V: Poly, V0: Poly, V2: Poly, D: Poly, j: int, K: nat, n1: nat, n: nat) {
    && V == Add(Add(V0, D), Shift(D, n1))
    && (forall i: nat {:trigger i in D} :: i in D ==> j < i < n - n1)
    && (forall i: nat {:trigger i in D} :: j < i < n - n1 ==> (i in D <==> (i + K in V) != (i + K in V2)))
  }

  lemma NoSteps(V0: Poly, V2: Poly, K: nat, n1: nat, n: nat)
    requires n1 < n
    ensures Steps(V0, V0, V2, {}, n - n1 - 1, K, n1, n)
  {
    hide Add;
    assert Shift({}, n1) == {};
    assert Add(Add(V0, {}), {}) == V0;
  }

  /** w positions at once. */
  lemma StepsDown(V: Poly, V0: Poly, V2: Poly, D: Poly, T: Poly, j: nat, w: nat, K: nat, n1: nat, n: nat)
    requires 1 <= w <= K && j + w <= n - n1 && n1 < n && n - n1 + K <= n1
    requires Steps(V, V0, V2, D, j + w - 1, K, n1, n)
    requires forall b: nat {:trigger b in T} :: b in T <==> b < w && (j + b + K in V) != (j + b + K in V2)
    ensures Steps(Add(Add(V, Shift(T, j)), Shift(T, j + n1)), V0, V2, Add(D, Shift(T, j)), j - 1, K, n1, n)
  {
    hide Shift, Add, Steps;
    var V', D' := Add(Add(V, Shift(T, j)), Shift(T, j + n1)), Add(D, Shift(T, j));
    StepsSum(V, V0, V2, D, j + w - 1, K, n1, n);
    ShiftAdd(D, Shift(T, j), n1);
    ShiftShift(T, j, n1);
    Regroup(V0, D, Shift(D, n1), Shift(T, j), Shift(T, j + n1));
    forall i: nat
      ensures i in D' ==> j - 1 < i < n - n1
      ensures j - 1 < i < n - n1 ==> (i in D' <==> (i + K in V') != (i + K in V2))
    {
      StepBit(V, V0, V2, D, T, j, w, K, n1, n, i);
    }
    StepsAre(V', V0, V2, D', j - 1, K, n1, n);
  }

  lemma StepsSum(V: Poly, V0: Poly, V2: Poly, D: Poly, j: int, K: nat, n1: nat, n: nat)
    requires Steps(V, V0, V2, D, j, K, n1, n)
    ensures V == Add(Add(V0, D), Shift(D, n1))
  {
    hide Shift, Add;
  }

  lemma StepsAt(V: Poly, V0: Poly, V2: Poly, D: Poly, j: int, K: nat, n1: nat, n: nat, i: nat)
    requires Steps(V, V0, V2, D, j, K, n1, n)
    ensures i in D ==> j < i < n - n1
    ensures j < i < n - n1 ==> (i in D <==> (i + K in V) != (i + K in V2))
  {
    hide Shift, Add;
  }

  lemma StepsAre(V: Poly, V0: Poly, V2: Poly, D: Poly, j: int, K: nat, n1: nat, n: nat)
    requires V == Add(Add(V0, D), Shift(D, n1))
    requires forall i: nat {:trigger i in D} :: i in D ==> j < i < n - n1
    requires forall i: nat {:trigger i in D} :: j < i < n - n1 ==> (i in D <==> (i + K in V) != (i + K in V2))
    ensures Steps(V, V0, V2, D, j, K, n1, n)
  {
    hide Shift, Add;
  }

  lemma StepBit(V: Poly, V0: Poly, V2: Poly, D: Poly, T: Poly, j: nat, w: nat, K: nat, n1: nat, n: nat, i: nat)
    requires 1 <= w <= K && j + w <= n - n1 && n1 < n && n - n1 + K <= n1
    requires Steps(V, V0, V2, D, j + w - 1, K, n1, n)
    requires forall b: nat {:trigger b in T} :: b in T <==> b < w && (j + b + K in V) != (j + b + K in V2)
    ensures var V', D' := Add(Add(V, Shift(T, j)), Shift(T, j + n1)), Add(D, Shift(T, j));
      && (i in D' ==> j - 1 < i < n - n1)
      && (j - 1 < i < n - n1 ==> (i in D' <==> (i + K in V') != (i + K in V2)))
  {
    hide Shift, Add, Steps;
    StepsAt(V, V0, V2, D, j + w - 1, K, n1, n, i);
    assert i in Add(D, Shift(T, j)) <==> (i in D) != (j <= i && i - j in T);
    if j <= i < n - n1 {
      var e := i + K;
      assert j <= e && e - j >= w;
      assert e !in Shift(T, j) && e !in Shift(T, j + n1);
      assert e in Add(V, Shift(T, j)) <==> e in V;
      if i < j + w {
        assert j + (i - j) + K == e;
      }
    }
  }

  lemma Regroup(a: Poly, b: Poly, c: Poly, d: Poly, e: Poly)
    ensures Add(Add(Add(Add(a, b), c), d), e) == Add(Add(a, Add(b, d)), Add(c, e))
  {
    hide Add;
  }

  /** V0 and all that becomes of it are the same modulo x^n1 + 1. */
  lemma StepsFold(V: Poly, V0: Poly, V2: Poly, D: Poly, j: int, K: nat, n1: nat, n: nat)
    requires Steps(V, V0, V2, D, j, K, n1, n) && n - n1 <= n1
    ensures Fold(V, n1) == Fold(V0, n1)
  {
    hide Shift, Add, Fold, Steps;
    StepsSum(V, V0, V2, D, j, K, n1, n);
    forall i: nat
      ensures i in Fold(V, n1) <==> i in Fold(V0, n1)
    {
      FoldBit(V, n1, i);
      FoldBit(V0, n1, i);
      AddedBit(V, V0, D, n1, i);
      AddedBit(V, V0, D, n1, i + n1);
      StepsAt(V, V0, V2, D, j, K, n1, n, i);
      StepsAt(V, V0, V2, D, j, K, n1, n, i + n1);
    }
  }

  lemma AddedBit(V: Poly, V0: Poly, D: Poly, n1: nat, e: nat)
    requires V == Add(Add(V0, D), Shift(D, n1))
    ensures e in V <==> ((e in V0) != (e in D)) != (n1 <= e && e - n1 in D)
  {
    hide Shift, Add;
    assert e in Add(V0, D) <==> (e in V0) != (e in D);
  }

  /** The positions at which the half modulo x^n2 + 1 is read, by the steps and by the final test. */
  predicate Read(p: nat, K: nat, n1: nat, n: nat) {
    p < 64 || K <= p < K + n - n1
  }

  ghost predicate SameRead(V2: Poly, F: Poly, K: nat, n1: nat, n: nat) {
    forall p: nat {:trigger p in F} :: Read(p, K, n1, n) ==> (p in V2 <==> p in F)
  }

  lemma FoldBit(C: Poly, N: nat, i: nat)
    ensures i in Fold(C, N) <==> if i < N then (i in C) != (i + N in C) else i + N in C
  {
    hide Low, High;
    assert i in High(C, N) <==> i + N in C;
  }

  /** With the right remainder in V0 and the right bits where V2 is read, D is the upper part of C. */
  lemma {:induction false} StepsRight(V: Poly, V2: Poly, D: Poly, C: Poly, i: nat, K: nat, n1: nat, n2: nat, n: nat)
    requires n1 == n2 + K && 1 <= K && n1 < n <= 2 * n2 && Deg(C) < n
    requires Steps(V, Fold(C, n1), V2, D, -1, K, n1, n) && SameRead(V2, Fold(C, n2), K, n1, n)
    ensures i in D <==> i + n1 in C
    decreases n - i
  {
    hide Fold, Add, Shift, SameRead, Deg, Steps;
    StepsAt(V, Fold(C, n1), V2, D, -1, K, n1, n, i);
    if i < n - n1 {
      var e := i + K;
      StepsRight(V, V2, D, C, e, K, n1, n2, n);
      StepsSum(V, Fold(C, n1), V2, D, -1, K, n1, n);
      AddedBit(V, Fold(C, n1), D, n1, e);
      FoldBit(C, n1, e);
      FoldBit(C, n2, e);
      ReadAt(V2, Fold(C, n2), K, n1, n, e);
    } else {
      AboveDegree(C, i + n1);
    }
  }

  lemma ReadAt(V2: Poly, F: Poly, K: nat, n1: nat, n: nat, p: nat)
    requires SameRead(V2, F, K, n1, n) && Read(p, K, n1, n)
    ensures p in V2 <==> p in F
  {
  }

  lemma AboveDegree(C: Poly, i: nat)
    requires Deg(C) < i
    ensures i !in C
  {
  }

  lemma StepsProduct(V: Poly, V2: Poly, D: Poly, C: Poly, K: nat, n1: nat, n2: nat, n: nat)
    requires n1 == n2 + K && 64 <= K && K <= n2 && n1 < n <= 2 * n2 && Deg(C) < n
    requires Steps(V, Fold(C, n1), V2, D, -1, K, n1, n) && SameRead(V2, Fold(C, n2), K, n1, n)
    ensures V == C && LowWordFits(V, V2, n2)
  {
    hide Fold, Add, Shift, SameRead, Deg, Steps;
    StepsSum(V, Fold(C, n1), V2, D, -1, K, n1, n);
    forall i: nat
      ensures i in V <==> i in C
    {
      StepsRight(V, V2, D, C, i, K, n1, n2, n);
      FoldBit(C, n1, i);
      AddedBit(V, Fold(C, n1), D, n1, i);
      if n1 <= i {
        StepsRight(V, V2, D, C, i - n1, K, n1, n2, n);
        AboveDegree(C, i + n1);
      }
    }
    forall b: nat | b < 64
      ensures b in V2 <==> (b in V) != (b + n2 in V)
    {
      FoldBit(C, n2, b);
      ReadAt(V2, Fold(C, n2), K, n1, n, b);
    }
  }

  /** Conversely: nothing but C can come out that passes the test if V2 is right where it is read. */
  lemma StepsOnlyProduct(V: Poly, V2: Poly, D: Poly, C: Poly, K: nat, n1: nat, n2: nat, n: nat)
    requires n1 == n2 + K && 64 <= K && K <= n2 && n1 < n <= 2 * n2 && Deg(C) < n
    requires Steps(V, Fold(C, n1), V2, D, -1, K, n1, n) && V == C && LowWordFits(V, V2, n2)
    ensures SameRead(V2, Fold(C, n2), K, n1, n)
  {
    hide Fold, Add, Shift, Deg, Steps, LowWordFits;
    forall p: nat | Read(p, K, n1, n)
      ensures p in V2 <==> p in Fold(C, n2)
    {
      FoldBit(C, n2, p);
      if K <= p < K + n - n1 {
        StepNeeds(V, V2, D, C, p - K, K, n1, n2, n);
      } else {
        LowWordAt(V, V2, n2, p);
      }
    }
  }

  lemma LowWordAt(V: Poly, V2: Poly, n2: nat, b: nat)
    requires LowWordFits(V, V2, n2) && b < 64
    ensures b in V2 <==> (b in V) != (b + n2 in V)
  {
  }

  lemma StepNeeds(V: Poly, V2: Poly, D: Poly, C: Poly, i: nat, K: nat, n1: nat, n2: nat, n: nat)
    requires n1 == n2 + K && 64 <= K && K <= n2 && n1 < n <= 2 * n2 && Deg(C) < n && i < n - n1
    requires Steps(V, Fold(C, n1), V2, D, -1, K, n1, n) && V == C
    ensures i + K in V2 <==> (i + K in C) != (i + n1 in C)
  {
    hide Fold, Add, Shift, Deg, Steps;
    StepsSum(V, Fold(C, n1), V2, D, -1, K, n1, n);
    StepsAt(V, Fold(C, n1), V2, D, -1, K, n1, n, i);
    StepsAt(V, Fold(C, n1), V2, D, -1, K, n1, n, i + n1);
    AddedBit(V, Fold(C, n1), D, n1, i + n1);
    FoldBit(C, n1, i + n1);
    AboveDegree(C, i + n1 + n1);
  }

  /** The partial word, bit by bit, down to a word boundary. */
  method ReconstructBits(c1: array<Word>, c2: array<Word>, cn: nat, K: nat, n1: nat, n2: nat)
      returns (j: nat, ghost D: Poly)
    requires c1 != c2 && cn <= c1.Length && cn <= c2.Length
    requires n1 == n2 + K && 64 <= K && 64 * cn <= 2 * n2 && n1 + 64 <= 64 * cn
    modifies c1
    ensures j % 64 == 63 && j < 64 * cn - n1
    ensures Steps(Val(c1[..cn]), old(Val(c1[..cn])), Val(c2[..cn]), D, j, K, n1, 64 * cn)
  {
    hide Val, Steps;
    ghost var V0 := Val(c1[..cn]);
    NoSteps(V0, Val(c2[..cn]), K, n1, 64 * cn);
    D := {};
    j := 64 * cn - n1 - 1;
    while j % 64 != 63
      invariant 63 <= j < 64 * cn - n1
      invariant Steps(Val(c1[..cn]), V0, Val(c2[..cn]), D, j, K, n1, 64 * cn)
      decreases j
    {
      D := ReconstructBit(c1, c2, cn, K, n1, n2, j, V0, D);
      j := j - 1;
    }
  }

  method ReconstructBit(c1: array<Word>, c2: array<Word>, cn: nat, K: nat, n1: nat, n2: nat, j: nat, ghost V0: Poly,
                        ghost D: Poly)
      returns (ghost D': Poly)
    requires c1 != c2 && cn <= c1.Length && cn <= c2.Length
    requires n1 == n2 + K && 64 <= K && 64 * cn <= 2 * n2 && n1 + 64 <= 64 * cn && j < 64 * cn - n1
    requires Steps(Val(c1[..cn]), V0, Val(c2[..cn]), D, j, K, n1, 64 * cn)
    modifies c1
    ensures Steps(Val(c1[..cn]), V0, Val(c2[..cn]), D', j - 1, K, n1, 64 * cn)
  {
    hide Val, Steps, GetBit, Shift, Add, Xor;
    ghost var V := Val(c1[..cn]);
    var t := GetBit(c1[..], j + K) != GetBit(c2[..], j + K);
    GetBitVal(c1[..], cn, j + K);
    GetBitVal(c2[..], cn, j + K);
    XorBitVal(c1[..], cn, j + n1, t);
    XorBit(c1, j + n1, t);
    XorBitVal(c1[..], cn, j, t);
    XorBit(c1, j, t);
    ghost var T: Poly := if t then {0} else {};
    D' := Add(D, Shift(T, j));
    BitStep(V, V0, Val(c2[..cn]), D, t, j, K, n1, 64 * cn);
  }

  lemma BitStep(V: Poly, V0: Poly, V2: Poly, D: Poly, t: bool, j: nat, K: nat, n1: nat, n: nat)
    requires 1 <= K && j < n - n1 && n1 < n && n - n1 + K <= n1
    requires Steps(V, V0, V2, D, j, K, n1, n)
    requires t == ((j + K in V) != (j + K in V2))
    ensures var T: Poly := if t then {0} else {};
      Steps(Add(Add(V, Shift(T, j + n1)), Shift(T, j)), V0, V2, Add(D, Shift(T, j)), j - 1, K, n1, n)
  {
    hide Steps, Shift, Add;
    var T: Poly := if t then {0} else {};
    StepsDown(V, V0, V2, D, T, j, 1, K, n1, n);
    AddExchange(V, Shift(T, j + n1), Shift(T, j));
  }

  lemma AddExchange(a: Poly, b: Poly, c: Poly)
    ensures Add(Add(a, b), c) == Add(Add(a, c), b)
  {
    hide Add;
  }

  lemma GetBitVal(s: seq<Word>, cn: nat, i: nat)
    requires cn <= |s| && i < 64 * cn
    ensures GetBit(s, i) <==> i in Val(s[..cn])
  {
    ValMember(s[..cn], i);
  }

  lemma XorBitVal(s: seq<Word>, cn: nat, i: nat, x: bool)
    requires cn <= |s| && i < 64 * cn
    ensures var T: Poly := if x then {0} else {};
      var b: Word := if x then {i % 64} else {};
      Val(s[i / 64 := Xor(s[i / 64], b)][..cn]) == Add(Val(s[..cn]), Shift(T, i))
  {
    hide Val, Shift, Add;
    var b: Word := if x then {i % 64} else {};
    ValXorWord(s[..cn], i / 64, b);
    assert s[i / 64 := Xor(s[i / 64], b)][..cn] == s[..cn][i / 64 := Xor(s[i / 64], b)];
    assert Shift(b, 64 * (i / 64)) == Shift(if x then {0} else {}, i);
  }

  /** 64 bits of the sum of two word arrays, read at a position that is not a
      multiple of 64, from two neighbouring words. */
  lemma WordOfSum(s1: seq<Word>, s2: seq<Word>, d: nat, r: nat, t: Word)
    requires d + 1 < |s1| && d + 1 < |s2| && r < 64
    requires t == Xor(Shl(Shl(Xor(s1[d + 1], s2[d + 1]), 1), 63 - r), Shr(Xor(s1[d], s2[d]), r))
    ensures forall b: nat {:trigger b in t} ::
      b in t <==> b < 64 && (64 * d + r + b in Val(s1)) != (64 * d + r + b in Val(s2))
  {
    hide Val, Shl, Shr, Add;
    forall b: nat
      ensures b in t <==> b < 64 && (64 * d + r + b in Val(s1)) != (64 * d + r + b in Val(s2))
    {
      if 64 <= b {
        WordBound(t, b);
      } else {
        UnalignedVal(s1, d, r, b);
        UnalignedVal(s2, d, r, b);
        UnalignedBits(s1[d], s1[d + 1], r, b);
        UnalignedBits(s2[d], s2[d + 1], r, b);
        UnalignedBits(Xor(s1[d], s2[d]), Xor(s1[d + 1], s2[d + 1]), r, b);
      }
    }
  }

  /** Unless n1 is a multiple of 64 - then words are stored instead of added - the words above x^n1 can hold anything.
      */
  ghost predicate Plain(V0: Poly, n1: nat) {
    n1 % 64 != 0 || forall i: nat {:trigger i in V0} :: n1 <= i ==> i !in V0
  }

  lemma HighHalfEmpty(s: seq<Word>, V0: Poly, V2: Poly, D: Poly, jw: nat, K: nat, n1: nat, n: nat)
    requires n1 % 64 == 0 && jw + n1 / 64 < |s| && Plain(V0, n1) && n - n1 <= n1
    requires Steps(Val(s), V0, V2, D, 64 * jw + 63, K, n1, n)
    ensures s[jw + n1 / 64] == {}
  {
    hide Val, Add, Shift, Steps;
    var k := jw + n1 / 64;
    StepsSum(Val(s), V0, V2, D, 64 * jw + 63, K, n1, n);
    forall b: nat
      ensures b !in s[k]
    {
      if b < 64 {
        var e := 64 * jw + n1 + b;
        ValBit(s, k, b);
        assert 64 * k + b == e;
        AddedBit(Val(s), V0, D, n1, e);
        StepsAt(Val(s), V0, V2, D, 64 * jw + 63, K, n1, n, e);
        StepsAt(Val(s), V0, V2, D, 64 * jw + 63, K, n1, n, e - n1);
        assert e !in V0;
      } else {
        WordBound(s[k], b);
      }
    }
  }

  lemma XorEmpty(t: Word)
    ensures Xor({}, t) == t
  {
  }

  lemma StraddleAdded(s1: seq<Word>, s': seq<Word>, t: Word, k: nat, r: nat)
    requires 0 < r < 64 && k + 1 < |s1|
    requires var s2 := s1[k := Xor(s1[k], Shl(t, r))];
      s' == s2[k + 1 := Xor(s2[k + 1], Shr(t, 64 - r))]
    ensures Val(s') == Add(Val(s1), Shift(t, 64 * k + r))
  {
    hide Val, Shl, Shr, Shift, Add, Xor;
    var lo, hi := Shl(t, r), Shr(t, 64 - r);
    var s2 := s1[k := Xor(s1[k], lo)];
    ValXorWord(s1, k, lo);
    ValXorWord(s2, k + 1, hi);
    ShiftStraddlesAt(t, k, r);
    AddAssoc(Val(s1), Shift(lo, 64 * k), Shift(hi, 64 * (k + 1)));
  }

  /** One word of the loop. */
  method ReconstructWord(c1: array<Word>, c2: array<Word>, cn: nat, K: nat, n1: nat, n2: nat,
      jw: nat, jdw: nat, jn1w: nat, next0: Word, ghost V0: Poly, ghost D: Poly) returns (next: Word, ghost D': Poly)
    requires c1 != c2 && cn <= c1.Length && cn <= c2.Length
    requires n1 == n2 + K && 64 <= K <= n2 && 64 * cn <= 2 * n2 && 64 * jw + 64 + n1 <= 64 * cn
    requires jdw == jw + K / 64 && jn1w == jw + n1 / 64
    requires jdw + 1 < cn && next0 == Xor(c1[jdw + 1], c2[jdw + 1])
    requires Plain(V0, n1) ==> Steps(Val(c1[..cn]), V0, Val(c2[..cn]), D, 64 * jw + 63, K, n1, 64 * cn)
    modifies c1
    ensures Plain(V0, n1) ==> Steps(Val(c1[..cn]), V0, Val(c2[..cn]), D', 64 * jw - 1, K, n1, 64 * cn)
    ensures next == Xor(c1[jdw], c2[jdw])
  {
    hide Val, Steps, Plain, Shl, Shr, Xor, Add, Shift;
    ghost var s := c1[..cn];
    var t;
    next, t := SumWord(c1, c2, cn, jdw, K % 64, next0);
    assert 64 * jdw + K % 64 == 64 * jw + K;
    D' := Add(D, Shift(t, 64 * jw));
    if Plain(V0, n1) {
      StepsDown(Val(s), V0, Val(c2[..cn]), D, t, 64 * jw, 64, K, n1, 64 * cn);
    }
    ValXorWord(s, jw, t);
    c1[jw] := Xor(c1[jw], t);
    assert c1[..cn] == s[jw := Xor(s[jw], t)];
    assert 64 * jw + n1 == 64 * jn1w + n1 % 64;
    if Plain(V0, n1) && n1 % 64 == 0 {
      HighHalfEmpty(s, V0, Val(c2[..cn]), D, jw, K, n1, 64 * cn);
    }
    AddAbove(c1, cn, jn1w, n1 % 64, t, Plain(V0, n1));
  }

  /** The word at bit r of word d of the sum of the halves; next0 is the next word of the sum. */
  method SumWord(c1: array<Word>, c2: array<Word>, cn: nat, d: nat, r: nat, next0: Word) returns (next: Word, t: Word)
    requires cn <= c1.Length && cn <= c2.Length && d + 1 < cn && r < 64
    requires next0 == Xor(c1[d + 1], c2[d + 1])
    ensures next == Xor(c1[d], c2[d])
    ensures forall b: nat {:trigger b in t} ::
      b in t <==> b < 64 && (64 * d + r + b in Val(c1[..cn])) != (64 * d + r + b in Val(c2[..cn]))
  {
    hide Val, Shl, Shr, Xor;
    t := Shl(Shl(next0, 1), 63 - r);
    next := Xor(c1[d], c2[d]);
    t := Xor(t, Shr(next, r));
    WordOfSum(c1[..cn], c2[..cn], d, r, t);
  }

  /** t is added at bit r of word k; an aligned word is stored, so it must have been zero. */
  method AddAbove(c1: array<Word>, cn: nat, k: nat, r: nat, t: Word, ghost plain: bool)
    requires cn <= c1.Length && r < 64 && (if r == 0 then k < cn else k + 1 < cn)
    requires plain && r == 0 ==> c1[k] == {}
    modifies c1
    ensures plain ==> Val(c1[..cn]) == Add(Val(old(c1[..cn])), Shift(t, 64 * k + r))
    ensures forall i :: 0 <= i < c1.Length && i != k && (r == 0 || i != k + 1) ==> c1[i] == old(c1[i])
  {
    hide Val, Shl, Shr, Xor, Add, Shift;
    ghost var s := c1[..cn];
    if r == 0 {
      XorEmpty(t);
      ValXorWord(s, k, t);
      c1[k] := t;
      assert c1[..cn] == s[k := t];
    } else {
      c1[k] := Xor(c1[k], Shl(t, r));
      c1[k + 1] := Xor(c1[k + 1], Shr(t, 64 - r));
      StraddleAdded(s, c1[..cn], t, k, r);
    }
  }

  /** The rest, a word at a time; next caches the word above the current one. */
  method ReconstructWords(c1: array<Word>, c2: array<Word>, cn: nat, K: nat, n1: nat, n2: nat, j: nat, ghost V0: Poly,
                          ghost D0: Poly)
      returns (ghost D: Poly)
    requires c1 != c2 && cn <= c1.Length && cn <= c2.Length
    requires n1 == n2 + K && 64 <= K <= n2 && 64 * cn <= 2 * n2 && n1 + 64 <= 64 * cn
    requires j % 64 == 0 && j + 63 < 64 * cn - n1
    requires Steps(Val(c1[..cn]), V0, Val(c2[..cn]), D0, j + 63, K, n1, 64 * cn)
    modifies c1
    ensures Plain(V0, n1) ==> Steps(Val(c1[..cn]), V0, Val(c2[..cn]), D, -1, K, n1, 64 * cn)
  {
    hide Val, Steps, Plain, Shl, Shr, Xor;
    var jw := j / 64;
    var jdw: int := (j + K) / 64;
    var jn1w: int := (j + n1) / 64;
    var next := Xor(c1[jdw + 1], c2[jdw + 1]);
    D := D0;
    jw := jw + 1;
    while jw > 0
      invariant 0 <= jw && 64 * jw <= j + 64 && 0 <= jdw + 1 < cn
      invariant jdw == jw - 1 + K / 64 && jn1w == jw - 1 + n1 / 64
      invariant next == Xor(c1[jdw + 1], c2[jdw + 1])
      invariant Plain(V0, n1) ==> Steps(Val(c1[..cn]), V0, Val(c2[..cn]), D, 64 * jw - 1, K, n1, 64 * cn)
    {
      jw := jw - 1;
      next, D := ReconstructWord(c1, c2, cn, K, n1, n2, jw, jdw, jn1w, next, V0, D);
      jdw := jdw - 1;
      jn1w := jn1w - 1;
    }
  }

  /** 64 bits read at position e of a word array. */
  function WordFrom(s: seq<Word>, e: nat): Word
    requires e / 64 + 1 < |s|
  {
    Xor(Shr(s[e / 64], e % 64), Shl(Shl(s[e / 64 + 1], 1), 63 - e % 64))
  }

  lemma WordFromBits(s: seq<Word>, e: nat, b: nat)
    requires e / 64 + 1 < |s| && b < 64
    ensures b in WordFrom(s, e) <==> b + e in Val(s)
  {
    hide Val, Shl, Shr, Xor;
    UnalignedVal(s, e / 64, e % 64, b);
    assert 64 * (e / 64) + e % 64 + b == b + e;
  }

  lemma UnalignedVal(s: seq<Word>, q: nat, r: nat, b: nat)
    requires q + 1 < |s| && r < 64 && b < 64
    ensures b in Xor(Shr(s[q], r), Shl(Shl(s[q + 1], 1), 63 - r)) <==> 64 * q + r + b in Val(s)
  {
    hide Val, Shl, Shr, Xor;
    UnalignedBits(s[q], s[q + 1], r, b);
    if b + r < 64 {
      ValBit(s, q, b + r);
      assert 64 * q + (b + r) == 64 * q + r + b;
    } else {
      ValBit(s, q + 1, b + r - 64);
      assert 64 * (q + 1) + (b + r - 64) == 64 * q + r + b;
    }
  }

  lemma UnalignedBits(x: Word, y: Word, r: nat, b: nat)
    requires r < 64 && b < 64
    ensures b in Xor(Shr(x, r), Shl(Shl(y, 1), 63 - r)) <==> if b + r < 64 then b + r in x else b + r - 64 in y
  {
    hide Shl, Shr;
    if b + r >= 64 {
      WordBound(x, b + r);
      assert b in Shl(Shl(y, 1), 63 - r) <==> b - (63 - r) in Shl(y, 1);
    }
  }

  /** The low word of V2 is that of V folded at x^n2. */
  ghost predicate LowWordFits(V: Poly, V2: Poly, n2: nat) {
    forall b: nat :: b < 64 ==> (b in V2 <==> (b in V) != (b + n2 in V))
  }

  /** What the final consistency check tests. */
  lemma CheckMeans(s1: seq<Word>, s2: seq<Word>, n2: nat)
    requires n2 / 64 + 1 < |s1| == |s2|
    ensures Xor(Xor(s2[0], s1[0]), WordFrom(s1, n2)) == {} <==> LowWordFits(Val(s1), Val(s2), n2)
  {
    hide Val, Add, WordFrom;
    var t := Xor(Xor(s2[0], s1[0]), WordFrom(s1, n2));
    forall b: nat
      ensures b in t <==> b < 64 && !(b in Val(s2) <==> (b in Val(s1)) != (b + n2 in Val(s1)))
    {
      if 64 <= b {
        WordBound(t, b);
      } else {
        ValBit(s1, 0, b);
        ValBit(s2, 0, b);
        WordFromBits(s1, n2, b);
      }
    }
    if t == {} {
      forall b: nat | b < 64
        ensures b in Val(s2) <==> (b in Val(s1)) != (b + n2 in Val(s1))
      {
        assert b !in t;
      }
    } else {
      var b :| b in t;
      assert b < 64 && !(b in Val(s2) <==> (b in Val(s1)) != (b + n2 in Val(s1)));
    }
  }

  /** From C modulo x^n1 + 1 and modulo x^n2 + 1, n1 = n2 + K, to C itself in {c, cn} of dst.  Whatever the two
      arrays hold, the result V is accepted just when its low word fits that of c2, and it is c1 modulo x^n1 + 1.  If
      c1 is right, it is C, and accepted, just when c2 is right at the positions where it is read. */
  method SplitReconstruct(dst: array<Word>, c: nat, c1: array<Word>, c2: array<Word>, cn: nat, K: nat, n1: nat, n2: nat,
      ghost C: Poly) returns (ok: bool, ghost V: Poly)
    requires dst != c1 && dst != c2 && c1 != c2 && c + cn <= dst.Length && cn <= c1.Length && cn <= c2.Length
    requires n1 == n2 + K && 64 <= K <= n2 && 64 * cn <= 2 * n2 && n1 + 64 <= 64 * cn && Deg(C) < 64 * cn
    modifies dst, c1
    ensures ok <==> LowWordFits(V, Val(c2[..cn]), n2)
    ensures ok ==> Held(dst[..], c, cn, V) && Fits(V, cn) && Only(old(dst[..]), dst[..], c, cn)
    ensures !ok ==> dst[..] == old(dst[..])
    ensures n1 % 64 != 0 ==> Fold(V, n1) == Fold(old(Val(c1[..cn])), n1)
    ensures old(Val(c1[..cn])) == Fold(C, n1)
      ==> (ok && V == C <==> SameRead(Val(c2[..cn]), Fold(C, n2), K, n1, 64 * cn))
  {
    hide Val, Fold, Steps, Plain, Deg, Xor, WordFrom, Held, Only, Fits, LowWordFits, SameRead;
    ghost var V0, V2 := Val(c1[..cn]), Val(c2[..cn]);
    var j;
    ghost var D;
    j, D := ReconstructBits(c1, c2, cn, K, n1, n2);
    D := ReconstructWords(c1, c2, cn, K, n1, n2, j - 63, V0, D);
    V := Val(c1[..cn]);
    PutTogether(V, V0, V2, D, C, K, n1, n2, 64 * cn);
    var t := Xor(Xor(c2[0], c1[0]), WordFrom(c1[..cn], n2));
    CheckMeans(c1[..cn], c2[..cn], n2);
    if t != {} {
      return false, V;
    }
    PartHeld(c1[..], 0, cn);
    assert c1[..][0..0 + cn] == c1[..cn];
    Copy(dst, c, c1, 0, cn, V);
    ok := true;
  }

  lemma PutTogether(V: Poly, V0: Poly, V2: Poly, D: Poly, C: Poly, K: nat, n1: nat, n2: nat, n: nat)
    requires n1 == n2 + K && 64 <= K && K <= n2 && n1 < n <= 2 * n2 && Deg(C) < n
    requires Plain(V0, n1) ==> Steps(V, V0, V2, D, -1, K, n1, n)
    ensures n1 % 64 != 0 ==> Fold(V, n1) == Fold(V0, n1)
    ensures V0 == Fold(C, n1) ==> (LowWordFits(V, V2, n2) && V == C <==> SameRead(V2, Fold(C, n2), K, n1, n))
  {
    hide Steps, Fold, LowWordFits, SameRead, Deg;
    if n1 % 64 != 0 {
      StepsFold(V, V0, V2, D, -1, K, n1, n);
    }
    if V0 == Fold(C, n1) {
      FoldPlain(C, n1, n);
      if SameRead(V2, Fold(C, n2), K, n1, n) {
        StepsProduct(V, V2, D, C, K, n1, n2, n);
      }
      if V == C && LowWordFits(V, V2, n2) {
        StepsOnlyProduct(V, V2, D, C, K, n1, n2, n);
      }
    }
  }

  lemma FoldPlain(C: Poly, n1: nat, n: nat)
    requires Deg(C) < n <= 2 * n1
    ensures Plain(Fold(C, n1), n1)
  {
    hide Fold, Deg;
    forall i: nat | n1 <= i
      ensures i !in Fold(C, n1)
    {
      FoldBit(C, n1, i);
      AboveDegree(C, i + n1);
    }
  }

  // ---------------------------------------------------------------- how far the reassembled product reaches

  lemma ChunkReach(a: Poly, M: nat, K: nat, t: nat)
    requires t < K && 0 < M
    ensures t * M >= 0
    ensures Chunks(a, M, K)[t] != {} ==> Deg(Chunks(a, M, K)[t]) + t * M <= Deg(a)
  {
    hide Low, High, Deg, Chunks, Add, Shift;
    ChunkAt(a, M, K, t);
    var h := High(a, t * M);
    var w := Low(h, M);
    SplitAt(a, t * M);
    if w != {} {
      assert Deg(w) in h;
    }
  }

  lemma {:induction false} EvalReach(q: seq<Poly>, M: nat, D: nat)
    requires forall s: nat :: s < |q| ==> s * M >= 0 && (q[s] == {} || Deg(q[s]) + s * M < D)
    ensures Deg(EvalAt(q, M)) < D || EvalAt(q, M) == {}
    decreases |q|
  {
    hide Deg, Shift, Add;
    if q != [] {
      hide EvalAt;
      var n := |q| - 1;
      EvalReach(q[..n], M, D);
      EvalAppend(q[..n], q[n], M);
      assert q[..n] + [q[n]] == q;
      DegShift(q[n], M * n);
      assert M * n == n * M;
      DegAdd(EvalAt(q[..n], M), Shift(q[n], M * n));
    }
  }

  /** A coefficient of the convolution, put at its place, stays below the sum of
      the operand sizes or, if it came round, below x^(K*M). */
  lemma {:induction false} CyclicReach(a: Poly, b: Poly, M: nat, K: nat, s: nat, n: nat, D: nat)
    requires 0 < M && s < K && n <= K
    requires K * M >= 0 && K * M <= D && Deg(a) + Deg(b) + 1 < D
    ensures s * M >= 0
    ensures var t := CyclicTerm(Chunks(a, M, K), Chunks(b, M, K), s, n);
      t == {} || Deg(t) + s * M < D
    decreases n
  {
    hide Deg, Chunks, Mul, Add;
    if n > 0 {
      CyclicReach(a, b, M, K, s, n - 1, D);
      var u := n - 1;
      var A, B := Chunks(a, M, K), Chunks(b, M, K);
      var v := if u <= s then s - u else s + K - u;
      assert Rotate(B, u)[s] == B[v];
      ChunkReach(a, M, K, u);
      ChunkReach(b, M, K, v);
      ChunkBits(a, M, K, u);
      ChunkBits(b, M, K, v);
      DegMul(A[u], B[v]);
      ReachArithmetic(u, v, s, K, M);
      DegAdd(CyclicTerm(A, B, s, n - 1), Mul(A[u], B[v]));
    }
  }

  lemma ReachArithmetic(u: int, v: int, s: int, K: int, M: int)
    requires 0 < M && 0 <= u < K && 0 <= v < K && (s == u + v || s == u + v - K)
    ensures s == u + v ==> s * M == u * M + v * M
    ensures s == u + v - K ==> s * M + 2 * M <= K * M
  {
    ProductOfSum(u, v, M);
    ProductMonotone(s + 2, K, M);
  }

  lemma ProductOfSum(u: int, v: int, M: int)
    ensures (u + v) * M == u * M + v * M
  {
  }

  lemma ProductMonotone(u: int, v: int, M: int)
    requires 0 < M
    ensures u <= v ==> u * M <= v * M
    ensures (u - 2) * M == u * M - 2 * M
  {
  }

  // ---------------------------------------------------------------- the product

  lemma CyclicProductReach(a: Poly, b: Poly, M: nat, K: nat, D: nat)
    requires 0 < M && K * M >= 0 && K * M <= D && 0 < D && Deg(a) + Deg(b) + 1 < D
    ensures Deg(EvalAt(Cyclic(Chunks(a, M, K), Chunks(b, M, K)), M)) < D
  {
    hide Deg, Chunks, CyclicTerm, EvalAt;
    var A, B := Chunks(a, M, K), Chunks(b, M, K);
    var q := Cyclic(A, B);
    forall s: nat | s < |q|
      ensures s * M >= 0 && (q[s] == {} || Deg(q[s]) + s * M < D)
    {
      CyclicReach(a, b, M, K, s, K, D);
    }
    EvalReach(q, M, D);
  }

  lemma FoldSmall(a: Poly, N: nat)
    requires Deg(a) < N
    ensures Fold(a, N) == a
  {
    hide Deg;
    forall i: nat
      ensures i in Fold(a, N) <==> i in a
    {
      assert i in High(a, N) <==> i + N in a;
      assert i + N !in a;
    }
  }

  lemma LowAll(a: Poly, n: nat)
    requires Deg(a) < n
    ensures Low(a, n) == a
  {
    hide Deg;
  }

  /** The value that one half of the split transform recovers is the product
      modulo x^(K*M) + 1. */
  lemma HalfProduct(a: Poly, b: Poly, M: nat, K: nat, N: nat)
    requires 0 < M && 0 < N && N == K * M && Deg(a) < 2 * N && Deg(b) < 2 * N && Deg(Mul(a, b)) < 2 * N
    requires Deg(EvalAt(Cyclic(Chunks(Fold(a, N), M, K), Chunks(Fold(b, N), M, K)), M)) < 2 * N
    ensures Fold(EvalAt(Cyclic(Chunks(Fold(a, N), M, K), Chunks(Fold(b, N), M, K)), M), N) == Fold(Mul(a, b), N)
  {
    hide Deg, Chunks, EvalAt, Fold, Mul, Rem, CyclicModulus, Cyclic, Shift;
    var p := CyclicModulus(N);
    var a', b' := Fold(a, N), Fold(b, N);
    FoldIsRem(a, N);
    FoldIsRem(b, N);
    ModulusPeriod(N);
    assert M * K == N;
    EvalCyclic(Chunks(a', M, K), Chunks(b', M, K), M, p);
    EvalChunks(a', M, K);
    EvalChunks(b', M, K);
    RemRem(a, p);
    RemRem(b, p);
    MulCong(a, a', b, b', p);
    FoldIsRem(Mul(a, b), N);
    FoldIsRem(EvalAt(Cyclic(Chunks(a', M, K), Chunks(b', M, K)), M), N);
  }

  lemma PrefixValue(s: seq<Word>, k: nat)
    requires k <= |s|
    ensures Val(s[..k]) == Low(Val(s), 64 * k) && Val(s[k..]) == High(Val(s), 64 * k)
    ensures Val(s[k..]) == {} ==> Val(s) == Val(s[..k])
  {
    hide Val, Shift, Deg, Low, High;
    assert s == s[..k] + s[k..];
    ValConcat(s[..k], s[k..]);
    var lo, hi := Val(s[..k]), Val(s[k..]);
    forall i: nat | 64 * k <= i
      ensures i !in lo
    {
      ValBound(s[..k], i);
    }
    LowHighOf(lo, hi, 64 * k);
  }

  lemma LowHighOf(lo: Poly, hi: Poly, n: nat)
    requires forall i: nat {:trigger i in lo} :: n <= i ==> i !in lo
    ensures Low(Add(lo, Shift(hi, n)), n) == lo && High(Add(lo, Shift(hi, n)), n) == hi
    ensures hi == {} ==> Add(lo, Shift(hi, n)) == lo
  {
    hide Deg;
  }

  /** The length of the smaller half of a split product. */
  function SplitLength(an: nat, bn: nat, K: nat): nat
    requires 0 < K
  {
    Ceil(Ceil(an + bn, 2) * 64, K)
  }

  lemma SplitSizes(an: nat, bn: nat, K: nat)
    requires 0 < an + bn && 0 < K
    ensures var m2 := SplitLength(an, bn, K);
      && 0 < m2 && 64 * (an + bn) <= 2 * (K * m2) && K <= K * m2
      && K * (m2 + 1) == K * m2 + K
  {
    hide Ceil;
    var half := Ceil(an + bn, 2);
    CeilBound(an + bn, 2);
    CeilBound(half * 64, K);
    SplitProduct(K, SplitLength(an, bn, K));
  }

  lemma SplitProduct(K: int, m: int)
    requires 0 < K && 0 < m
    ensures K * m == m * K && K <= K * m && K * (m + 1) == K * m + K
  {
  }
}
