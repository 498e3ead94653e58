/** MulMod of gf2x-1.1/fft.c on words: the product of two residues, by the Toom-Cook
    routines, reduced modulo x^(2N) + x^N + 1. */
module MulModWords {
  import opened Numbers
  import opened Polynomials
  import opened PolyDivision
  import opened Residues
  import opened FftAlgebra
  import opened Words
  import opened WordMemory
  import opened ShiftLoops
  import opened ResidueWords
  import opened Regions
  import ToomSpace
  import Karatsuba
  import Toom
  import Transform

  // ---------------------------------------------------------------- the steps

  /** T folded at x^(2N): |L0|L1|H0|H1| becomes |L0+H0+H1|L1+H0|. */
  function Folded(T: Poly, N: nat): (r: Poly)
    ensures forall i: nat {:trigger i in r} :: i in r <==>
      i < 2 * N && ((i in T) != ((if i < N then i + 2 * N else i + N) in T)) != (i < N && i + 3 * N in T)
  {
    hide Low, High, Shift, Add;
    var H0, H1 := Low(High(T, 2 * N), N), Low(High(T, 3 * N), N);
    assert forall i: nat :: i in H0 <==> i < N && i + 2 * N in T;
    assert forall i: nat :: i in H1 <==> i < N && i + 3 * N in T;
    Add(Add(Low(T, 2 * N), H0), Add(H1, Shift(H0, N)))
  }

  /** The folding is the reduction. */
  lemma FoldedIsRem(T: Poly, N: nat)
    requires 0 < N && Reduced(T, 4 * N)
    ensures Folded(T, N) == Rem(T, Phi(N)) && Reduced(Folded(T, N), 2 * N)
  {
    hide Mul, Rem, Phi, Deg, Folded, Low, High;
    var F, q := Folded(T, N), Quotient(T, N);
    FoldedDifference(T, N);
    MulPhi(q, N);
    RemMultiple(q, Phi(N));
    RemAdd(T, F, Phi(N));
    AddIsZero(Rem(T, Phi(N)), Rem(F, Phi(N)));
    FoldedReduced(T, N);
    ReducedDegree(F, 2 * N);
    RemSmall(F, Phi(N));
  }

  function Quotient(T: Poly, N: nat): (q: Poly)
    ensures forall i: nat {:trigger i in q} :: i in q <==>
      ((i < N && i + 2 * N in T) != (i < N && i + 3 * N in T)) != (N <= i < 2 * N && i + 2 * N in T)
  {
    hide Low, High, Shift, Add;
    var H0, H1 := Low(High(T, 2 * N), N), Low(High(T, 3 * N), N);
    assert forall i: nat :: i in H0 <==> i < N && i + 2 * N in T;
    assert forall i: nat :: i in H1 <==> i < N && i + 3 * N in T;
    Add(Add(H0, H1), Shift(H1, N))
  }

  lemma FoldedReduced(T: Poly, N: nat)
    ensures Reduced(Folded(T, N), 2 * N)
  {
    hide Folded;
  }

  lemma FoldedDifference(T: Poly, N: nat)
    requires 0 < N && Reduced(T, 4 * N)
    ensures var q := Quotient(T, N);
      Add(T, Folded(T, N)) == Add(Add(q, Shift(q, N)), Shift(q, 2 * N))
  {
    hide Shift, Add, Folded, Quotient;
    var q := Quotient(T, N);
    forall i: nat
      ensures i in Add(T, Folded(T, N)) <==> i in Add(Add(q, Shift(q, N)), Shift(q, 2 * N))
    {
    }
  }

  // ---------------------------------------------------------------- the routine

  /** H0 once more from bit N on; the shared word is restored last, so that it is right for every N. */
  lemma DoubledLate(V2: Poly, V3: Poly, V4: Poly, V5: Poly, V6: Poly, Q: Poly, u0: Word, u1: Word, N: nat, NI: nat,
                    NR: nat, i: nat)
    requires N == 64 * NI + NR && NR < 64 && 0 < N && i < 2 * N
    requires IsPart(Q, V2, 0, NI) && IsCarry(u1, Q, NI, NR) && (NR > 0 ==> IsWord(u0, V2, NI))
    requires forall i: nat {:trigger i in V2} :: NR > 0 && N <= i < 64 * NI + 64 ==> i !in V2
    requires V3 == Put(V2, NI, NI, Shift(Shift(Q, NR), 64 * NI))
    requires if NR > 0 then WordPut(V4, V3, 2 * NI, Xor(u1, Shl(u0, NR))) else V4 == V3
    requires if 2 * NR > 64 then WordPut(V5, V4, 2 * NI + 1, Shr(u0, 64 - NR)) else V5 == V4
    requires if NR > 0 then WordAdded(V6, V5, NI, u0) else V6 == V5
    ensures i in V6 <==> if i < N then i in V2 else i - N in V2
  {
    hide Put, Shift, Shl, Shr, Xor, WordPut, WordAdded, IsPart, IsCarry, IsWord;
    if i < 128 * NI {
      TailKept(V3, V4, V5, u0, u1, NI, NR, i);
      MovedBelow(V2, V3, Q, N, NI, NR, i);
      if NR > 0 {
        RestoredWord(V2, V3, V5, V6, u0, N, NI, NR, i);
      }
    } else {
      DoubledAbove(V2, V3, V4, V5, Q, u0, u1, N, NI, NR, i);
      AboveShared(V2, V5, V6, u0, N, NI, NR, i);
    }
  }

  lemma AboveShared(V2: Poly, V5: Poly, V6: Poly, u0: Word, N: nat, NI: nat, NR: nat, i: nat)
    requires N == 64 * NI + NR && 0 < NR < 64 && 128 * NI <= i < 2 * N && WordAdded(V6, V5, NI, u0)
      && IsWord(u0, V2, NI)
    requires forall i: nat {:trigger i in V2} :: NR > 0 && N <= i < 64 * NI + 64 ==> i !in V2
    requires i in V5 <==> i >= N && i - N in V2
    ensures i in V6 <==> if i < N then i in V2 else i - N in V2
  {
    hide WordAdded, IsWord;
    AddedAtWord(V6, V5, NI, u0, i);
    if NI == 0 {
      ResidueWords.WordBit(u0, V2, NI, i);
      WordBoundAt(u0, i);
    }
  }

  lemma WordBoundAt(w: Word, b: nat)
    ensures b in w ==> b < 64
  {
  }

  /** Below the two last words the last steps change nothing. */
  lemma TailKept(V3: Poly, V4: Poly, V5: Poly, u0: Word, u1: Word, NI: nat, NR: nat, i: nat)
    requires NR < 64 && i < 128 * NI
    requires if NR > 0 then WordPut(V4, V3, 2 * NI, Xor(u1, Shl(u0, NR))) else V4 == V3
    requires if 2 * NR > 64 then WordPut(V5, V4, 2 * NI + 1, Shr(u0, 64 - NR)) else V5 == V4
    ensures i in V5 <==> i in V3
  {
    hide Shl, Shr, Xor, WordPut;
    if NR > 0 {
      PutBit(V4, V3, 2 * NI, Xor(u1, Shl(u0, NR)), i);
    }
    if 2 * NR > 64 {
      PutBit(V5, V4, 2 * NI + 1, Shr(u0, 64 - NR), i);
    }
  }

  /** The shared word. */
  lemma RestoredWord(V2: Poly, V3: Poly, V5: Poly, V6: Poly, u0: Word, N: nat, NI: nat, NR: nat, i: nat)
    requires N == 64 * NI + NR && 0 < NR < 64 && i < 128 * NI && WordAdded(V6, V5, NI, u0) && IsWord(u0, V2, NI)
    requires forall i: nat {:trigger i in V2} :: NR > 0 && N <= i < 64 * NI + 64 ==> i !in V2
    requires i in V5 <==> if i < 64 * NI then i in V2 else i >= N && i - N in V2
    ensures i in V6 <==> if i < N then i in V2 else i - N in V2
  {
    hide WordAdded, IsWord;
    AddedAtWord(V6, V5, NI, u0, i);
    if 64 * NI <= i < 64 * NI + 64 {
      ResidueWords.WordBit(u0, V2, NI, i - 64 * NI);
      assert 64 * NI + (i - 64 * NI) == i;
    }
  }

  lemma AddedAtWord(V': Poly, V: Poly, x: nat, w: Word, i: nat)
    requires WordAdded(V', V, x, w)
    ensures i in V' <==> (i in V) != (64 * x <= i < 64 * x + 64 && i - 64 * x in w)
  {
    hide WordAdded;
    AddedWordBit(V', V, x, w, i);
    if i >= 64 * x + 64 {
      WordBound(w, i - 64 * x);
    }
  }

  lemma MovedBelow(V2: Poly, V3: Poly, Q: Poly, N: nat, NI: nat, NR: nat, i: nat)
    requires N == 64 * NI + NR && NR < 64 && i < 128 * NI && IsPart(Q, V2, 0, NI)
    requires V3 == Put(V2, NI, NI, Shift(Shift(Q, NR), 64 * NI))
    ensures i in V3 <==> if i < 64 * NI then i in V2 else i >= N && i - N in V2
  {
    hide Put, Shift;
    if 64 * NI <= i {
      assert i in V3 <==> i - 64 * NI >= NR && i - 64 * NI - NR in Q;
    }
  }

  /** A word of the scratch space, which lies outside the region {p, n}, is written. */
  method KeepWord(mem: array<Word>, x: nat, w: Word, p: nat, n: nat, ghost s: seq<Word>, ghost V: Poly)
      returns (ghost s': seq<Word>)
    requires Local(s, mem[..], p, n, V) && x < mem.Length && Apart(p, n, x, 1)
    modifies mem
    ensures Local(s', mem[..], p, n, V) && Only(s, s', x, 1)
  {
    hide Val;
    ghost var t := mem[..];
    mem[x] := w;
    assert mem[..][p..p + n] == t[p..p + n];
    s' := s[x := w];
  }

  /** The N lowest bits of V, which has nothing in the rest of their last word, once more from bit N on.
      The two words that are kept meanwhile are in {u, 2}. */
  method DoubleLocal(mem: array<Word>, p: nat, n: nat, N: nat, u: nat, ghost s: seq<Word>, ghost V: Poly)
      returns (ghost s': seq<Word>, ghost V': Poly)
    requires 0 < N && WordsFor(2 * N) <= n && Local(s, mem[..], p, n, V) && u + 2 <= mem.Length && Apart(p, n, u, 2)
    requires forall i: nat {:trigger i in V} :: R(N) > 0 && N <= i < 64 * I(N) + 64 ==> i !in V
    modifies mem
    ensures Local(s', mem[..], p, n, V') && Only(s, s', u, 2)
    ensures forall i: nat {:trigger i in V'} :: i < 2 * N ==> (i in V' <==> if i < N then i in V else i - N in V)
    ensures forall i: nat {:trigger i in V'} :: 64 * WordsFor(2 * N) <= i ==> (i in V' <==> i in V)
  {
    hide Part, Only, Shl, Shr, Xor, Put, Shift, I, R, WordsFor, IsPart, IsCarry, IsWord, WordPut, WordAdded, Local;
    var NI, NR := I(N), R(N);
    var u0: Word := {};
    ghost var s1 := s;
    LocalSize(s, mem[..], p, n, V);
    OnlySame(s, u, 2);
    if NR > 0 {
      ReadLocal(mem[..], p, n, NI);
      LocalValue(s, mem[..], p, n, V);
      u0 := mem[p + NI];
      s1 := KeepWord(mem, u, u0, p, n, s, V);
    }
    var u1: Word;
    ghost var V3: Poly, Q: Poly;
    u1, V3, Q := LshLocal(mem, p, n, NI, NI, NR, s1, V);
    s' := KeepWord(mem, u + 1, u1, p, n, s1, V3);
    KeptWords(s, s1, s', u);
    ghost var V4, V5 := V3, V3;
    V' := V3;
    if NR > 0 {
      V4 := SetWordLocal(mem, p, n, 2 * NI, Xor(u1, Shl(u0, NR)), s', V3);
      V5 := V4;
      if 2 * NR > 64 {
        V5 := SetWordLocal(mem, p, n, 2 * NI + 1, Shr(u0, 64 - NR), s', V4);
      }
      V' := XorWordLocal(mem, p, n, NI, u0, s', V5);
    }
    DoubledAll(V, V3, V4, V5, V', Q, u0, u1, N, NI, NR);
    DoubledBehind(V, V3, V4, V5, V', Q, u0, u1, N, NI, NR);
  }

  lemma KeptWords(s: seq<Word>, s1: seq<Word>, s': seq<Word>, u: nat)
    requires (s1 == s || Only(s, s1, u, 1)) && Only(s1, s', u + 1, 1)
    ensures Only(s, s', u, 2)
  {
  }

  /** The words behind those of 2N bits are left alone. */
  lemma DoubledBehind(V2: Poly, V3: Poly, V4: Poly, V5: Poly, V6: Poly, Q: Poly, u0: Word, u1: Word, N: nat, NI: nat,
                      NR: nat)
    requires N == 64 * NI + NR && NR < 64
    requires V3 == Put(V2, NI, NI, Shift(Shift(Q, NR), 64 * NI))
    requires if NR > 0 then WordPut(V4, V3, 2 * NI, Xor(u1, Shl(u0, NR))) else V4 == V3
    requires if 2 * NR > 64 then WordPut(V5, V4, 2 * NI + 1, Shr(u0, 64 - NR)) else V5 == V4
    requires if NR > 0 then WordAdded(V6, V5, NI, u0) else V6 == V5
    ensures forall i: nat {:trigger i in V6} :: 64 * WordsFor(2 * N) <= i ==> (i in V6 <==> i in V2)
  {
    hide Put, Shift, Shl, Shr, Xor, WordPut, WordAdded, WordsFor;
    var n := WordsFor(2 * N);
    assert 2 * NI <= n && (NR > 0 ==> 2 * NI + 1 <= n) && (2 * NR > 64 ==> 2 * NI + 2 <= n);
    forall i: nat | 64 * n <= i
      ensures i in V6 <==> i in V2
    {
      PutAbove(V2, V3, Q, NI, NR, i);
      if NR > 0 {
        TailAbove(V3, V4, V5, V6, u0, u1, NI, NR, i);
      }
    }
  }

  lemma PutAbove(V2: Poly, V3: Poly, Q: Poly, NI: nat, NR: nat, i: nat)
    requires V3 == Put(V2, NI, NI, Shift(Shift(Q, NR), 64 * NI)) && 128 * NI <= i
    ensures i in V3 <==> i in V2
  {
    hide Put, Shift;
  }

  lemma TailAbove(V3: Poly, V4: Poly, V5: Poly, V6: Poly, u0: Word, u1: Word, NI: nat, NR: nat, i: nat)
    requires 0 < NR < 64 && 128 * NI + 64 <= i && (2 * NR > 64 ==> 128 * NI + 128 <= i)
    requires WordPut(V4, V3, 2 * NI, Xor(u1, Shl(u0, NR))) && WordAdded(V6, V5, NI, u0)
    requires if 2 * NR > 64 then WordPut(V5, V4, 2 * NI + 1, Shr(u0, 64 - NR)) else V5 == V4
    ensures i in V6 <==> i in V3
  {
    hide Shl, Shr, Xor, WordPut, WordAdded;
    AddedAtWord(V6, V5, NI, u0, i);
    PutBit(V4, V3, 2 * NI, Xor(u1, Shl(u0, NR)), i);
    if 2 * NR > 64 {
      PutBit(V5, V4, 2 * NI + 1, Shr(u0, 64 - NR), i);
    }
  }

  lemma DoubledAll(V2: Poly, V3: Poly, V4: Poly, V5: Poly, V6: Poly, Q: Poly, u0: Word, u1: Word, N: nat, NI: nat,
                   NR: nat)
    requires N == 64 * NI + NR && NR < 64 && 0 < N
    requires IsPart(Q, V2, 0, NI) && IsCarry(u1, Q, NI, NR) && (NR > 0 ==> IsWord(u0, V2, NI))
    requires forall i: nat {:trigger i in V2} :: NR > 0 && N <= i < 64 * NI + 64 ==> i !in V2
    requires V3 == Put(V2, NI, NI, Shift(Shift(Q, NR), 64 * NI))
    requires if NR > 0 then WordPut(V4, V3, 2 * NI, Xor(u1, Shl(u0, NR))) else V4 == V3
    requires if 2 * NR > 64 then WordPut(V5, V4, 2 * NI + 1, Shr(u0, 64 - NR)) else V5 == V4
    requires if NR > 0 then WordAdded(V6, V5, NI, u0) else V6 == V5
    ensures forall i: nat {:trigger i in V6} :: i < 2 * N ==> (i in V6 <==> if i < N then i in V2 else i - N in V2)
  {
    hide Put, Shift, Shl, Shr, Xor, WordPut, WordAdded, IsPart, IsCarry, IsWord;
    forall i: nat {:trigger i in V6} | i < 2 * N
      ensures i in V6 <==> if i < N then i in V2 else i - N in V2
    {
      DoubledLate(V2, V3, V4, V5, V6, Q, u0, u1, N, NI, NR, i);
    }
  }

  // ---------------------------------------------------------------- the words that are touched

  /** The words that the first shift writes. */
  function FirstWords(N: nat): nat {
    WordsFor(3 * N) - I(2 * N)
  }

  /** The words that the last shift adds to. */
  function LastWords(N: nat): nat {
    WordsFor(4 * N) - I(3 * N)
  }

  /** The words from a on that MulMod reads and writes for a result of 2N bits. */
  function ResultWords(N: nat): nat {
    Max(WordsFor(2 * N), Max(FirstWords(N), LastWords(N)))
  }

  /** The first shift goes one word too far for the lengths from 22 to 31, the last one for those
      from 17 to 21; for all others the words of the result are enough. */
  lemma WordsTouched(N: nat)
    requires 0 < N
    ensures FirstWords(N) > WordsFor(2 * N) <==> 22 <= N <= 31
    ensures LastWords(N) > WordsFor(2 * N) <==> 17 <= N <= 21
    ensures ResultWords(N) == WordsFor(2 * N) + if 17 <= N <= 31 then 1 else 0
    ensures ResultWords(N) <= 2 * WordsFor(N)
  {
  }

  /** H0 twice, from the product T of at most 4N bits in {q, 2n}. */
  method ReduceTop(mem: array<Word>, p: nat, q: nat, N: nat, u: nat, ghost s: seq<Word>, ghost T: Poly)
      returns (ghost s': seq<Word>, ghost V6: Poly)
    requires 0 < N && p + ResultWords(N) <= mem.Length && Held(mem[..], q, 2 * WordsFor(2 * N), T) && Reduced(T, 4 * N)
    requires Apart(p, ResultWords(N), q, 2 * WordsFor(2 * N)) && s == mem[..]
    requires u + 2 <= mem.Length && Apart(p, ResultWords(N), u, 2)
    modifies mem
    ensures Local(s', mem[..], p, ResultWords(N), V6) && Only(s, s', u, 2)
    ensures forall i: nat {:trigger i in V6} ::
      i < 2 * N ==> (i in V6 <==> if i < N then i + 2 * N in T else i + N in T)
    ensures forall i: nat {:trigger i in V6} :: 64 * WordsFor(2 * N) <= i ==>
      (i in V6 <==> 64 * FirstWords(N) <= i && i in Part(s, p, ResultWords(N)))
  {
    hide Part, Only, Held, I, R, WordsFor, Put, Shift, High, Local, PartOf, Reduced, FirstWords, ResultWords;
    WordsEnough(N);
    ghost var V0, V1, V2;
    V0, V1, V2 := FirstShift(mem, p, q, N, s, T);
    s', V6 := DoubleLocal(mem, p, ResultWords(N), N, u, s, V2);
    EnoughBits(N);
    TopTwice(V0, V1, V2, V6, T, N, FirstWords(N));
    TopBehind(V0, V1, V2, V6, T, N, FirstWords(N));
  }

  /** H0, with the bits of H1 in its last word removed. */
  method FirstShift(mem: array<Word>, p: nat, q: nat, N: nat, ghost s: seq<Word>, ghost T: Poly)
      returns (ghost V0: Poly, ghost V1: Poly, ghost V2: Poly)
    requires 0 < N && p + ResultWords(N) <= mem.Length && Held(mem[..], q, 2 * WordsFor(2 * N), T)
    requires Apart(p, ResultWords(N), q, 2 * WordsFor(2 * N)) && s == mem[..]
    modifies mem
    ensures V0 == Part(s, p, ResultWords(N)) && Local(s, mem[..], p, ResultWords(N), V2)
    ensures V1 == Put(V0, 0, FirstWords(N), Shift(High(PartOf(T, I(2 * N), FirstWords(N)), R(2 * N)), 0))
    ensures forall i: nat {:trigger i in V2} :: i in V2 <==> i in V1 && !(R(N) > 0 && N <= i < 64 * I(N) + 64)
  {
    hide Part, Only, Held, Fits, I, R, WordsFor, Put, Shift, High, Local, PartOf, W;
    var m1, na := FirstWords(N), ResultWords(N);
    V0 := Part(s, p, na);
    LocalStart(s, p, na);
    ProductPart(s, q, 2 * WordsFor(2 * N), T, I(2 * N), m1);
    ghost var T1 := PartOf(T, I(2 * N), m1);
    RshLocal(mem, p, na, mem, q + I(2 * N), m1, R(2 * N), s, V0, T1);
    V1 := Put(V0, 0, m1, Shift(High(T1, R(2 * N)), 0));
    V2 := V1;
    if R(N) > 0 {
      V2 := MaskWordLocal(mem, p, na, I(N), R(N), s, V1);
    }
  }

  lemma EnoughBits(N: nat)
    ensures N + R(2 * N) <= 64 * FirstWords(N) && 64 * I(N) + 64 <= 64 * WordsFor(2 * N) + 64
      && (R(N) > 0 ==> 64 * I(N) + 64 <= 64 * WordsFor(2 * N))
  {
    hide I, R, WordsFor;
  }

  lemma TopTwice(V0: Poly, V1: Poly, V2: Poly, V6: Poly, T: Poly, N: nat, m: nat)
    requires 0 < N && N + R(2 * N) <= 64 * m
    requires V1 == Put(V0, 0, m, Shift(High(PartOf(T, I(2 * N), m), R(2 * N)), 0))
    requires forall i: nat {:trigger i in V2} :: i < N ==> (i in V2 <==> i in V1)
    requires forall i: nat {:trigger i in V6} :: i < 2 * N ==> (i in V6 <==> if i < N then i in V2 else i - N in V2)
    ensures forall i: nat {:trigger i in V6} ::
      i < 2 * N ==> (i in V6 <==> if i < N then i + 2 * N in T else i + N in T)
  {
    hide Put, Shift, High, I, R, PartOf;
    forall i: nat | i < 2 * N
      ensures i in V6 <==> if i < N then i + 2 * N in T else i + N in T
    {
      var k := if i < N then i else i - N;
      TopBits(T, 2 * N, m, k);
      assert k in V1 <==> k + 2 * N in T;
    }
  }

  /** Behind the words of 2N bits there is nothing of T: the first shift clears what it reaches. */
  lemma TopBehind(V0: Poly, V1: Poly, V2: Poly, V6: Poly, T: Poly, N: nat, m: nat)
    requires Reduced(T, 4 * N) && V1 == Put(V0, 0, m, Shift(High(PartOf(T, I(2 * N), m), R(2 * N)), 0))
    requires forall i: nat {:trigger i in V2} :: 64 * WordsFor(2 * N) <= i ==> (i in V2 <==> i in V1)
    requires forall i: nat {:trigger i in V6} :: 64 * WordsFor(2 * N) <= i ==> (i in V6 <==> i in V2)
    ensures forall i: nat {:trigger i in V6} :: 64 * WordsFor(2 * N) <= i ==> (i in V6 <==> 64 * m <= i && i in V0)
  {
    hide Put, Shift, High, I, R, PartOf, WordsFor;
    forall i: nat | 64 * WordsFor(2 * N) <= i
      ensures i in V6 <==> 64 * m <= i && i in V0
    {
      TopBits(T, 2 * N, m, i);
      assert i + 2 * N !in T;
      assert i in V2 <==> i in V1;
    }
  }

  /** L0:L1 and H1 added to H0:H0. */
  method AddLowAndTop(mem: array<Word>, p: nat, q: nat, N: nat, ghost s: seq<Word>, ghost V6: Poly, ghost T: Poly)
      returns (ghost V8: Poly)
    requires 0 < N && Local(s, mem[..], p, ResultWords(N), V6) && Held(s, q, 2 * WordsFor(2 * N), T)
    requires Apart(p, ResultWords(N), q, 2 * WordsFor(2 * N))
    modifies mem
    ensures Local(s, mem[..], p, ResultWords(N), V8)
    ensures V8 == Add(Add(V6, Shift(PartOf(T, 0, WordsFor(2 * N)), 0)),
                      Shift(High(PartOf(T, I(3 * N), LastWords(N)), R(3 * N)), 0))
  {
    hide Part, Only, Held, Fits, I, R, WordsFor, Shift, High, Local, Add, W, PartOf;
    var n, na, m3 := WordsFor(2 * N), ResultWords(N), LastWords(N);
    LocalOnly(s, mem[..], p, na, V6);
    HeldKept(s, mem[..], q, 2 * n, T, p, na);
    ProductPart(mem[..], q, 2 * n, T, 0, n);
    AddIntoLocal(mem, p, na, q, n, s, V6, PartOf(T, 0, n));
    ghost var V7 := Add(V6, Shift(PartOf(T, 0, n), 0));
    LocalOnly(s, mem[..], p, na, V7);
    HeldKept(s, mem[..], q, 2 * n, T, p, na);
    ProductPart(mem[..], q, 2 * n, T, I(3 * N), m3);
    AddRshLocal(mem, p, na, q + I(3 * N), m3, R(3 * N), s, V7, PartOf(T, I(3 * N), m3));
    V8 := Add(V7, Shift(High(PartOf(T, I(3 * N), m3), R(3 * N)), 0));
  }

  method MaskTop(mem: array<Word>, p: nat, N: nat, ghost s: seq<Word>, ghost V: Poly) returns (ghost V': Poly)
    requires 0 < N && Local(s, mem[..], p, ResultWords(N), V)
    modifies mem
    ensures Local(s, mem[..], p, ResultWords(N), V')
    ensures forall i: nat {:trigger i in V'} :: i in V' <==> i in V && !(2 * N <= i < 64 * WordsFor(2 * N))
  {
    hide Local, WordsFor, I, R;
    LastWord(N);
    V' := V;
    if R(2 * N) > 0 {
      V' := MaskWordLocal(mem, p, ResultWords(N), WordsFor(2 * N) - 1, R(2 * N), s, V);
    }
  }

  lemma WordsEnough(N: nat)
    ensures WordsFor(2 * N) <= ResultWords(N)
  {
    hide WordsFor;
  }

  /** The word that is touched behind the result, if there is one: the first shift clears it, the last one adds nothing
      to it. */
  ghost predicate BehindKept(s: seq<Word>, t: seq<Word>, p: nat, N: nat) {
    && p + ResultWords(N) <= |s| == |t|
    && forall i :: p + WordsFor(2 * N) <= i < p + ResultWords(N) ==> t[i] == if 22 <= N <= 31 then {} else s[i]
  }

  ghost predicate ChangesBehind(s: seq<Word>, t: seq<Word>, p: nat, N: nat) {
    BehindKept(s, t, p, N) && exists i :: p + WordsFor(2 * N) <= i < p + ResultWords(N) && t[i] != s[i]
  }

  /** A word behind the result is changed, for some content of the memory, exactly by the first shift. */
  lemma WordBehindChanges(N: nat)
    requires 0 < N
    ensures (exists s, t, p :: ChangesBehind(s, t, p, N)) <==> 22 <= N <= 31
  {
    hide WordsFor, FirstWords, LastWords, ResultWords;
    WordsTouched(N);
    if 22 <= N <= 31 {
      var s: seq<Word>, t: seq<Word> := [{0}, {0}], [{0}, {}];
      assert WordsFor(2 * N) == 1;
      assert t[1] != s[1];
      assert ChangesBehind(s, t, 0, N);
    }
  }

  /** The shortest lengths: with 17 bits the last shift reads and writes a second word, which keeps its
      content; with 22 bits the first one clears it. */
  lemma ShortestLengths(s: seq<Word>, t: seq<Word>, p: nat)
    requires p + 2 <= |s| == |t|
    ensures WordsFor(2 * 17) == 1 == FirstWords(17) && LastWords(17) == 2
      && (BehindKept(s, t, p, 17) ==> t[p + 1] == s[p + 1])
    ensures WordsFor(2 * 22) == 1 == LastWords(22) && FirstWords(22) == 2
      && (BehindKept(s, t, p, 22) ==> t[p + 1] == {})
  {
    hide BehindKept;
    if BehindKept(s, t, p, 17) {
      BehindAt(s, t, p, 17);
    }
    if BehindKept(s, t, p, 22) {
      BehindAt(s, t, p, 22);
    }
  }

  lemma BehindAt(s: seq<Word>, t: seq<Word>, p: nat, N: nat)
    requires 17 <= N <= 31 && BehindKept(s, t, p, N)
    ensures p + 2 <= |s| == |t| && t[p + 1] == if 22 <= N <= 31 then {} else s[p + 1]
  {
  }

  lemma BehindWords(s: seq<Word>, t: seq<Word>, p: nat, N: nat, V: Poly)
    requires 0 < N && p + ResultWords(N) <= |s| == |t| && Part(t, p, ResultWords(N)) == V
    requires forall i: nat {:trigger i in V} :: 64 * WordsFor(2 * N) <= i ==>
      (i in V <==> 64 * FirstWords(N) <= i && i in Part(s, p, ResultWords(N)))
    ensures BehindKept(s, t, p, N)
  {
    hide Part, WordsFor, FirstWords, ResultWords;
    WordsTouched(N);
    forall i | p + WordsFor(2 * N) <= i < p + ResultWords(N)
      ensures t[i] == if 22 <= N <= 31 then {} else s[i]
    {
      var j := i - p;
      ReadLocal(s, p, ResultWords(N), j);
      ReadLocal(t, p, ResultWords(N), j);
      var v, w := t[i], s[i];
      forall b: nat
        ensures b in v <==> !(22 <= N <= 31) && b in w
      {
        assert b in v <==> b < 64 && 64 * j + b in V;
      }
    }
  }

  /** The remainder of the product T of at most 4N bits, which is in {q, 2n}. */
  method Reduce(mem: array<Word>, p: nat, q: nat, N: nat, u: nat, ghost T: Poly)
    requires 0 < N && p + ResultWords(N) <= mem.Length && Held(mem[..], q, 2 * WordsFor(2 * N), T) && Reduced(T, 4 * N)
    requires Apart(p, ResultWords(N), q, 2 * WordsFor(2 * N))
    requires u + 2 <= mem.Length && Apart(p, ResultWords(N), u, 2) && Apart(q, 2 * WordsFor(2 * N), u, 2)
    modifies mem
    ensures Held(mem[..], p, WordsFor(2 * N), Rem(T, Phi(N))) && Only2(old(mem[..]), mem[..], p, ResultWords(N), u, 2)
    ensures BehindKept(old(mem[..]), mem[..], p, N)
  {
    hide Part, Only, Held, I, R, WordsFor, Shift, High, Local, Add, Rem, Phi, W, Reduced, PartOf, ResultWords,
      FirstWords, LastWords, BehindKept, Only2;
    WordsEnough(N);
    var n, na := WordsFor(2 * N), ResultWords(N);
    ghost var s := mem[..];
    ghost var s', V6 := ReduceTop(mem, p, q, N, u, s, T);
    HeldKept(s, s', q, 2 * n, T, u, 2);
    ghost var V8 := AddLowAndTop(mem, p, q, N, s', V6, T);
    ghost var V9 := MaskTop(mem, p, N, s', V8);
    ReducedResult(V6, Add(V6, Shift(PartOf(T, 0, n), 0)), V8, V9, T, N);
    ReducedBehind(V6, Add(V6, Shift(PartOf(T, 0, n), 0)), V8, V9, T, N);
    LocalValue(s', mem[..], p, na, V9);
    LocalResult(s', mem[..], p, na, n, V9, Rem(T, Phi(N)));
    BothOnly(s, s', mem[..], p, na, u);
    BehindWords(s, mem[..], p, N, V9);
  }

  lemma BothOnly(s: seq<Word>, s': seq<Word>, t: seq<Word>, p: nat, n: nat, u: nat)
    requires Only(s, s', u, 2) && Only(s', t, p, n)
    ensures Only2(s, t, p, n, u, 2)
  {
  }

  lemma ProductReduced(B: Poly, C: Poly, N: nat)
    requires 0 < N && Reduced(B, 2 * N) && Reduced(C, 2 * N)
    ensures Fits(B, WordsFor(2 * N)) && Fits(C, WordsFor(2 * N)) && Reduced(Mul(B, C), 4 * N)
  {
    hide Mul, Deg, WordsFor;
    ReducedDegree(B, 2 * N);
    ReducedDegree(C, 2 * N);
    DegMul(B, C);
    ReducedDegree(Mul(B, C), 4 * N);
  }

  predicate Outside(i: int, p: nat, n: nat) {
    i < p || p + n <= i
  }

  /** a <- b * c modulo x^(2N) + x^N + 1; a may be b or c.  The product goes to {q, 2n}, the
      Toom-Cook routines work in {u, space}, where two words are needed even if they need none. */
  method MulMod(t: ToomSpace.Tuning, mem: array<Word>, a: nat, b: nat, c: nat, N: nat, q: nat, u: nat, ghost space: nat,
                ghost B: Poly, ghost C: Poly)
    requires t.Valid() && 0 < N && Reduced(B, 2 * N) && Reduced(C, 2 * N)
    requires var n := WordsFor(2 * N);
      && Held(mem[..], b, n, B) && Held(mem[..], c, n, C) && ToomSpace.Space(t, n) <= space && 2 <= space
      && a + ResultWords(N) <= mem.Length && q + 2 * n <= mem.Length && u + space <= mem.Length
      && Karatsuba.Layout(q, 2 * n, b, c, n, u, space) && Apart(a, ResultWords(N), q, 2 * n)
      && Apart(a, ResultWords(N), u, space)
    modifies mem
    ensures Held(mem[..], a, WordsFor(2 * N), Transform.MulMod(B, C, N))
    ensures forall i :: 0 <= i < mem.Length && Outside(i, a, ResultWords(N)) && Outside(i, q, 2 * WordsFor(2 * N))
              && Outside(i, u, space)
              ==> mem[i] == old(mem[i])
    ensures BehindKept(old(mem[..]), mem[..], a, N)
  {
    hide Held, Mul, Rem, Phi, Reduced, WordsFor, Fits, ResultWords, Karatsuba.Layout, ToomSpace.Space, Apart,
      BehindKept;
    var n := WordsFor(2 * N);
    ghost var s := mem[..];
    ProductReduced(B, C, N);
    Toom.MulToom(t, mem, q, b, c, n, u, space, B, C);
    ghost var s1 := mem[..];
    ScratchApart(q, 2 * n, b, c, n, u, space, a, ResultWords(N));
    Reduce(mem, a, q, N, u, Mul(B, C));
    BehindSame(s, s1, mem[..], a, N, q, 2 * n, u, space);
  }

  lemma ScratchApart(q: nat, qn: nat, b: nat, c: nat, n: nat, u: nat, space: nat, a: nat, na: nat)
    requires Karatsuba.Layout(q, qn, b, c, n, u, space) && 2 <= space && Apart(a, na, u, space)
    ensures Apart(a, na, u, 2) && Apart(q, qn, u, 2)
  {
  }

  lemma BehindSame(s: seq<Word>, s1: seq<Word>, t: seq<Word>, a: nat, N: nat, q: nat, qn: nat, u: nat, space: nat)
    requires |s| == |s1| && forall i :: 0 <= i < |s| && Outside(i, q, qn) && Outside(i, u, space) ==> s1[i] == s[i]
    requires Apart(a, ResultWords(N), q, qn) && Apart(a, ResultWords(N), u, space) && BehindKept(s1, t, a, N)
    ensures BehindKept(s, t, a, N)
  {
    hide WordsFor, ResultWords;
  }

  lemma ReducedResult(V6: Poly, V7: Poly, V8: Poly, V9: Poly, T: Poly, N: nat)
    requires 0 < N && Reduced(T, 4 * N)
    requires var n, m3 := WordsFor(2 * N), LastWords(N);
      && (forall i: nat {:trigger i in V6} :: i < 2 * N ==> (i in V6 <==> if i < N then i + 2 * N in T else i + N in T))
      && V7 == Add(V6, Shift(PartOf(T, 0, n), 0))
      && V8 == Add(V7, Shift(High(PartOf(T, I(3 * N), m3), R(3 * N)), 0))
      && (forall i: nat {:trigger i in V9} :: i in V9 <==> i in V8 && !(2 * N <= i < 64 * n))
    ensures forall i: nat {:trigger i in V9} :: i < 64 * WordsFor(2 * N) ==> (i in V9 <==> i in Rem(T, Phi(N)))
  {
    hide Shift, High, Add, Rem, Phi, I, R, WordsFor, PartOf, Folded;
    FoldedIsRem(T, N);
    var n, m3 := WordsFor(2 * N), LastWords(N);
    forall i: nat | i < 64 * n
      ensures i in V9 <==> i in Folded(T, N)
    {
      if i < 2 * N {
        assert i in V7 <==> (i in V6) != (i in T);
        TopBits(T, 3 * N, m3, i);
        assert i in V8 <==> (i in V7) != (i + 3 * N in T);
      }
    }
  }

  lemma ReducedBehind(V6: Poly, V7: Poly, V8: Poly, V9: Poly, T: Poly, N: nat)
    requires Reduced(T, 4 * N)
    requires var n, m3 := WordsFor(2 * N), LastWords(N);
      && V7 == Add(V6, Shift(PartOf(T, 0, n), 0))
      && V8 == Add(V7, Shift(High(PartOf(T, I(3 * N), m3), R(3 * N)), 0))
      && (forall i: nat {:trigger i in V9} :: i in V9 <==> i in V8 && !(2 * N <= i < 64 * n))
    ensures forall i: nat {:trigger i in V9} :: 64 * WordsFor(2 * N) <= i ==> (i in V9 <==> i in V6)
  {
    hide Shift, High, Add, I, R, WordsFor, PartOf, LastWords;
    var n, m3 := WordsFor(2 * N), LastWords(N);
    forall i: nat | 64 * n <= i
      ensures i in V9 <==> i in V6
    {
      assert i in V7 <==> i in V6;
      TopBits(T, 3 * N, m3, i);
      assert i + 3 * N !in T;
      assert i in V8 <==> i in V7;
    }
  }

  lemma TopBits(T: Poly, e: nat, m: nat, i: nat)
    ensures i in Shift(High(PartOf(T, I(e), m), R(e)), 0) <==> i + R(e) < 64 * m && i + e in T
  {
    hide Shift, High, I, R, PartOf;
    var P := PartOf(T, I(e), m);
    assert i in Shift(High(P, R(e)), 0) <==> i + R(e) in P;
    assert 64 * I(e) + (i + R(e)) == i + e;
  }
}
