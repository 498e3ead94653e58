/** Lshift of gf2x-1.1/fft.c on words: the product of a residue by a power of x modulo
    x^(2N) + x^N + 1.  The destination {p, n} and the operand {q, n} do not overlap. */
module LshiftWords {
  import opened Polynomials
  import opened Words
  import opened WordMemory
  import opened ShiftLoops
  import opened ResidueWords
  import opened Regions
  import Transform

  // ---------------------------------------------------------------- 1 <= k <= N

  /** The m lowest bits of B are moved to bit h; what is above them in their last word
      follows them into the bits behind h + m. */
  method MoveUp(mem: array<Word>, p: nat, n: nat, q: nat, h: nat, m: nat, ghost s: seq<Word>, ghost V: Poly,
                ghost B: Poly)
      returns (ghost V': Poly)
    requires Local(s, mem[..], p, n, V) && Operand(s, p, n, q, n, B) && 64 * n - 64 < h + m <= 64 * n
    modifies mem
    ensures Local(s, mem[..], p, n, V') && MovedUp(V', B, h, 64 * I(h), h + m) && KeptBelow(V, V', 64 * I(h))
  {
    hide Local, Operand, Put, Shift, Mask, I, R, R2, WordsFor, IsPart, IsCarry, WordPut, MovedUp, KeptBelow;
    var mW := WordsFor(m);
    ghost var P, V1;
    var s1: Word;
    s1, V1, P := LshFrom(mem, p, n, I(h), q, n, 0, mW, R(h), s, V, B);
    var w: Word := {};
    V' := V1;
    if R(h) > R2(m) {
      w := Mask(s1, R(h) - R2(m));
      V' := SetWordLocal(mem, p, n, I(h) + mW, w, s, V1);
    }
    ShiftedUp(V, V1, V', B, P, s1, h, m, I(h), R(h), mW, R2(m));
    ShiftedUpRest(V, V1, V', Shift(Shift(P, R(h)), 64 * I(h)), w, h, m, n, I(h), R(h), mW, R2(m));
  }

  /** The m0 lowest words of the operand, without the bits below m, become the lowest words of the region. */
  method MoveDown(mem: array<Word>, p: nat, n: nat, q: nat, m: nat, m0: nat, ghost s: seq<Word>, ghost V: Poly,
                  ghost B: Poly)
      returns (ghost V': Poly)
    requires Local(s, mem[..], p, n, V) && Operand(s, p, n, q, n, B) && I(m) <= m0 <= n
    modifies mem
    ensures Local(s, mem[..], p, n, V') && MovedDown(V, V', PartOf(B, 0, m0), m, m0 - I(m))
  {
    hide Local, Operand, Put, Shift, I, R, High, IsPart, MovedDown, Reduced, PartOf;
    ghost var P;
    V', P := RshFrom(mem, p, n, q, n, I(m), m0 - I(m), R(m), s, V, B);
    PartTwice(P, B, I(m), m0);
    ShiftedDown(V, V', PartOf(B, 0, m0), P, m, m0, I(m), R(m));
  }

  lemma PartTwice(P: Poly, B: Poly, y: nat, m: nat)
    requires y <= m && IsPart(P, B, y, m - y)
    ensures IsPart(P, PartOf(B, 0, m), y, m - y) && Reduced(PartOf(B, 0, m), 64 * m)
  {
    hide PartOf;
  }

  lemma WholeOperand(B: Poly, n: nat, T: nat)
    requires Reduced(B, T) && T <= 64 * n
    ensures PartOf(B, 0, n) == B
  {
    hide PartOf;
  }

  method AddBack(mem: array<Word>, p: nat, n: nat, s1: Word, s2: Word, nm: nat, hI: nat, ghost s: seq<Word>,
                 ghost V3: Poly)
      returns (ghost V5: Poly)
    requires Local(s, mem[..], p, n, V3) && nm <= n
    modifies mem
    ensures Local(s, mem[..], p, n, V5)
    ensures var V4 := if nm > hI then Add(V3, Shift(s1, 64 * hI)) else V3;
      V5 == if nm > hI + 1 then Add(V4, Shift(s2, 64 * (hI + 1))) else V4
  {
    hide Local, Shift, Add;
    V5 := V3;
    if nm > hI {
      V5 := XorWordLocal(mem, p, n, hI, s1, s, V3);
    }
    if nm > hI + 1 {
      V5 := XorWordLocal(mem, p, n, hI + 1, s2, s, V5);
    }
  }

  lemma ReadRegion(s: seq<Word>, t: seq<Word>, p: nat, n: nat, V: Poly, x: nat)
    requires Local(s, t, p, n, V) && x < n
    ensures p + x < |t| && IsWord(t[p + x], V, x)
  {
    hide Part, Only, IsWord;
    ReadLocal(t, p, n, x);
  }

  /** H:L0:L1:L2 in the words of the region. */
  method TurnLow(mem: array<Word>, p: nat, n: nat, q: nat, h: nat, m: nat, ghost s: seq<Word>, ghost V: Poly,
                 ghost B: Poly)
      returns (ghost V5: Poly)
    requires Local(s, mem[..], p, n, V) && Operand(s, p, n, q, n, B) && 1 <= h <= m && n == WordsFor(h + m)
      && Reduced(B, h + m)
    modifies mem
    ensures Local(s, mem[..], p, n, V5) && Turned(V5, B, h, m)
  {
    hide Local, Operand, Shift, Add, I, R, WordsFor, IsWord, MovedUp, MovedDown, KeptBelow, Turned, Reduced;
    ghost var V2 := MoveUp(mem, p, n, q, h, m, s, V, B);
    var hI := I(h);
    var nm := n - I(m);
    assert hI < n && nm <= n && h <= 64 * nm <= 64 * hI + 128 && h == 64 * hI + R(h);
    var s1: Word, s2: Word := {}, {};
    if nm > hI {
      ReadRegion(s, mem[..], p, n, V2, hI);
      s1 := mem[p + hI];
    }
    if nm > hI + 1 {
      ReadRegion(s, mem[..], p, n, V2, hI + 1);
      s2 := mem[p + (hI + 1)];
    }
    ghost var V3 := MoveDown(mem, p, n, q, m, n, s, V2, B);
    WholeOperand(B, n, h + m);
    V5 := AddBack(mem, p, n, s1, s2, nm, hI, s, V3);
    ghost var V4 := if nm > hI then Add(V3, Shift(s1, 64 * hI)) else V3;
    Restored(V2, V3, V4, V5, B, s1, s2, h, m, nm, hI, R(h));
  }

  /** The bits of the operand from m on are added to the region from bit N on, where N <= m. */
  method AddHigh(mem: array<Word>, p: nat, n: nat, q: nat, N: nat, m: nat, ghost T: nat, ghost s: seq<Word>,
                 ghost V: Poly, ghost B: Poly)
      returns (ghost V': Poly)
    requires Local(s, mem[..], p, n, V) && Operand(s, p, n, q, n, B) && I(m) < n && N <= m && Reduced(B, T)
      && T <= 64 * n
    modifies mem
    ensures Local(s, mem[..], p, n, V') && AddedFrom(V', V, B, N, m)
  {
    hide Local, Operand, I, R, Reduced, AddedFrom;
    if R(m) <= R(N) {
      V' := AddHighUp(mem, p, n, q, N, m, T, s, V, B);
    } else {
      V' := AddHighDown(mem, p, n, q, N, m, T, s, V, B);
    }
  }

  method AddHighUp(mem: array<Word>, p: nat, n: nat, q: nat, N: nat, m: nat, ghost T: nat, ghost s: seq<Word>,
                   ghost V: Poly, ghost B: Poly)
      returns (ghost V8: Poly)
    requires Local(s, mem[..], p, n, V) && Operand(s, p, n, q, n, B) && I(m) < n && N <= m && R(m) <= R(N)
      && Reduced(B, T) && T <= 64 * n
    modifies mem
    ensures Local(s, mem[..], p, n, V8) && AddedFrom(V8, V, B, N, m)
  {
    hide Local, Operand, Shift, Add, I, R, IsWord, IsPart, IsCarry, Reduced, AddedFrom, Within, Shl, Mask, WordAdded;
    var mI, nm, NI, mR, NR := I(m), n - I(m), I(N), R(m), R(N);
    ghost var V6, P;
    var s1: Word;
    s1, V6, P := AddLshFrom(mem, p, n, NI, q, n, mI, nm, NR - mR, s, V, B);
    ReadFrom(s, mem[..], p, n, V6, q, n, B, mI);
    var x := mem[q + mI];
    ghost var V7 := XorWordLocal(mem, p, n, NI, Shl(Mask(x, mR), NR - mR), s, V6);
    V8 := V7;
    if s1 != {} {
      CarryInRange(s1, P, B, N, m, n, nm, NI, NR, mI, mR, T);
      V8 := XorWordLocal(mem, p, n, NI + nm, s1, s, V7);
    }
    ReducedMore(B, T, 64 * n);
    AddedUp(V, V6, V7, V8, B, P, x, s1, N, m, nm, NI, NR, mI, mR);
  }

  method AddHighDown(mem: array<Word>, p: nat, n: nat, q: nat, N: nat, m: nat, ghost T: nat, ghost s: seq<Word>,
                     ghost V: Poly, ghost B: Poly)
      returns (ghost V7: Poly)
    requires Local(s, mem[..], p, n, V) && Operand(s, p, n, q, n, B) && I(m) < n && N <= m && R(m) > R(N)
      && Reduced(B, T) && T <= 64 * n
    modifies mem
    ensures Local(s, mem[..], p, n, V7) && AddedFrom(V7, V, B, N, m)
  {
    hide Local, Operand, Shift, Add, I, R, IsWord, IsPart, Reduced, AddedFrom, High, Shr, Mask, WordAdded;
    var mI, nm, NI, mR, NR := I(m), n - I(m), I(N), R(m), R(N);
    ghost var V6, P := AddRshFrom(mem, p, n, NI, q, n, mI, nm, mR - NR, s, V, B);
    ReadFrom(s, mem[..], p, n, V6, q, n, B, mI);
    var x := mem[q + mI];
    V7 := V6;
    if NR > 0 {
      V7 := XorWordLocal(mem, p, n, NI, Shr(Mask(x, mR), mR - NR), s, V6);
    }
    ReducedMore(B, T, 64 * n);
    AddedDown(V, V6, V7, B, P, x, N, m, nm, NI, NR, mI, mR);
  }

  /** 1 <= k <= N: |L0|L1|L2|H| becomes |H|L0|L1+H|L2|. */
  method LshiftLow(mem: array<Word>, p: nat, n: nat, q: nat, h: nat, N: nat, ghost s: seq<Word>, ghost V: Poly,
                   ghost B: Poly)
      returns (ghost V': Poly)
    requires Local(s, mem[..], p, n, V) && Operand(s, p, n, q, n, B) && 1 <= h <= N && n == WordsFor(2 * N)
      && Reduced(B, 2 * N)
    modifies mem
    ensures Local(s, mem[..], p, n, V') && Agrees(V', Rotated(B, h, N), 2 * N)
  {
    hide Local, Operand, I, WordsFor, Turned, AddedFrom, Agrees, Reduced, Rotated;
    var l := N - h;
    ghost var V5 := TurnLow(mem, p, n, q, h, N + l, s, V, B);
    V' := AddHigh(mem, p, n, q, N, N + l, 2 * N, s, V5, B);
    LowCase(V5, V', B, h, N);
  }

  // ---------------------------------------------------------------- N < k <= 2N

  /** The copies of H0:H1; for N < 64 the lower one gets lost. */
  method Double(mem: array<Word>, p: nat, n: nat, N: nat, ghost s: seq<Word>, ghost V: Poly) returns (ghost V': Poly)
    requires Local(s, mem[..], p, n, V) && 0 < N && n == WordsFor(2 * N)
    modifies mem
    ensures Local(s, mem[..], p, n, V')
    ensures forall i: nat {:trigger i in V'} ::
      i < 2 * N ==> (i in V' <==> if i < N then N >= 64 && i in V else i - N in V)
  {
    hide Local, Put, Shift, I, R, WordsFor, IsWord, IsPart, IsCarry, Shl, Shr, Xor, WordPut, WordAdded;
    var NI, NR := I(N), R(N);
    ghost var V2 := V;
    var s1: Word := {};
    if NR > 0 {
      V2 := MaskWordLocal(mem, p, n, NI, NR, s, V);
      ReadRegion(s, mem[..], p, n, V2, NI);
      s1 := mem[p + NI];
    }
    ghost var V3, Q;
    var s2: Word;
    s2, V3, Q := LshLocal(mem, p, n, NI, NI, NR, s, V2);
    ghost var V4, V5;
    V4, V5, V' := SharedWords(mem, p, n, NI, NR, s1, s2, s, V3);
    DoubledFrom(V, V2, V3, V4, V5, V', Q, s1, s2, N, NI, NR);
  }

  lemma DoubledFrom(V: Poly, V2: Poly, V3: Poly, V4: Poly, V5: Poly, V6: Poly, Q: Poly, s: Word, c: Word, N: nat,
                    NI: nat, NR: nat)
    requires N == 64 * NI + NR && NR < 64
    requires if NR > 0 then forall i: nat {:trigger i in V2} ::
      i in V2 <==> i in V && !(64 * NI + NR <= i < 64 * NI + 64) else V2 == V
    requires IsPart(Q, V2, 0, NI) && IsCarry(c, Q, NI, NR) && (NR > 0 ==> IsWord(s, V2, NI))
    requires V3 == Put(V2, NI, NI, Shift(Shift(Q, NR), 64 * NI))
    requires if NR > 0 then WordAdded(V4, V3, NI, s) else V4 == V3
    requires if NR > 0 then WordPut(V5, V4, 2 * NI, Xor(c, Shl(s, NR))) else V5 == V4
    requires if 2 * NR > 64 then WordPut(V6, V5, 2 * NI + 1, Shr(s, 64 - NR)) else V6 == V5
    ensures forall i: nat {:trigger i in V6} ::
      i < 2 * N ==> (i in V6 <==> if i < N then N >= 64 && i in V else i - N in V)
  {
    hide Put, Shift, IsWord, IsPart, IsCarry, Shl, Shr, Xor, WordPut, WordAdded;
    Doubled(V2, V3, V4, V5, V6, Q, s, c, N, NI, NR);
    DoubledOf(V, V2, V6, N, NI, NR);
  }

  /** The words that the two copies share. */
  method SharedWords(mem: array<Word>, p: nat, n: nat, NI: nat, NR: nat, s1: Word, s2: Word, ghost s: seq<Word>,
                     ghost V3: Poly)
      returns (ghost V4: Poly, ghost V5: Poly, ghost V6: Poly)
    requires Local(s, mem[..], p, n, V3) && NR < 64 && 128 * NI + 2 * NR <= 64 * n
    modifies mem
    ensures Local(s, mem[..], p, n, V6)
    ensures if NR > 0 then WordAdded(V4, V3, NI, s1) else V4 == V3
    ensures if NR > 0 then WordPut(V5, V4, 2 * NI, Xor(s2, Shl(s1, NR))) else V5 == V4
    ensures if 2 * NR > 64 then WordPut(V6, V5, 2 * NI + 1, Shr(s1, 64 - NR)) else V6 == V5
  {
    hide Local, Shl, Shr, Xor, WordPut, WordAdded;
    V4, V5 := V3, V3;
    if NR > 0 {
      V4 := XorWordLocal(mem, p, n, NI, s1, s, V3);
      V5 := SetWordLocal(mem, p, n, 2 * NI, Xor(s2, Shl(s1, NR)), s, V4);
    }
    V6 := V5;
    if 2 * NR > 64 {
      V6 := SetWordLocal(mem, p, n, 2 * NI + 1, Shr(s1, 64 - NR), s, V5);
    }
  }

  lemma DoubledOf(V: Poly, V2: Poly, V6: Poly, N: nat, NI: nat, NR: nat)
    requires N == 64 * NI + NR && NR < 64
    requires if NR > 0 then forall i: nat {:trigger i in V2} ::
      i in V2 <==> i in V && !(64 * NI + NR <= i < 64 * NI + 64) else V2 == V
    requires forall i: nat {:trigger i in V6} :: i < N && (NI > 0 || NR == 0) ==> (i in V6 <==> i in V2)
    requires forall i: nat {:trigger i in V6} :: N <= i < 2 * N ==> (i in V6 <==> i - N in V2)
    requires forall i: nat {:trigger i in V6} :: i < N && NI == 0 ==> i !in V6
    ensures forall i: nat {:trigger i in V6} ::
      i < 2 * N ==> (i in V6 <==> if i < N then N >= 64 && i in V else i - N in V)
  {
  }

  /** The bits of the operand from m on are added to the lowest words of the region. */
  method AddTop(mem: array<Word>, p: nat, n: nat, q: nat, m: nat, ghost s: seq<Word>, ghost V: Poly, ghost B: Poly)
      returns (ghost V': Poly)
    requires Local(s, mem[..], p, n, V) && Operand(s, p, n, q, n, B) && I(m) <= n && Reduced(B, 64 * n)
    modifies mem
    ensures Local(s, mem[..], p, n, V') && AddedFrom(V', V, B, 0, m)
  {
    hide Local, Operand, Shift, Add, I, R, IsPart, High, Reduced, AddedFrom;
    ghost var P;
    V', P := AddRshFrom(mem, p, n, 0, q, n, I(m), n - I(m), R(m), s, V, B);
    TopAdded(V, V', B, P, m, n, I(m), R(m));
  }

  /** The l lowest bits of the operand are added from bit e on: the steps of the second case. */
  method AddLow(mem: array<Word>, p: nat, n: nat, q: nat, e: nat, l: nat, ghost s: seq<Word>, ghost V: Poly,
                ghost B: Poly) returns (ghost V': Poly)
    requires Local(s, mem[..], p, n, V) && Operand(s, p, n, q, n, B) && e + l <= 64 * n
    modifies mem
    ensures Local(s, mem[..], p, n, V') && AddedBits(V', V, B, e, l)
  {
    hide Local, Operand, Shift, I, R, R2, WordsFor, IsPart, IsCarry, IsWord, Within, Shl, Mask, HighBits, WordAdded,
      AddedBits;
    ghost var V8, P;
    var s1: Word;
    s1, V8, P := AddLshFrom(mem, p, n, I(e), q, n, 0, WordsFor(l), R(e), s, V, B);
    ghost var V9 := V8;
    var x: Word := {};
    if R(l) > 0 {
      ReadFrom(s, mem[..], p, n, V8, q, n, B, I(l));
      x := mem[q + I(l)];
      V9 := XorWordLocal(mem, p, n, I(e) + I(l), Shl(HighBits(x, R(l)), R(e)), s, V8);
      NothingToRemove(V8, V9, x, I(e) + I(l), R(l), R(e));
    }
    V' := V9;
    if R(e) > R2(l) {
      V' := XorWordLocal(mem, p, n, I(e) + WordsFor(l), Mask(s1, R(e) - R2(l)), s, V9);
    }
    AddedLow(V, V8, V9, V', B, P, x, s1, l, I(l), R(l), WordsFor(l), R2(l), e, I(e), R(e));
  }

  /** The same, with the test of the third case. */
  method AddLowTested(mem: array<Word>, p: nat, n: nat, q: nat, e: nat, l: nat, ghost s: seq<Word>, ghost V: Poly,
                      ghost B: Poly) returns (ghost V': Poly)
    requires Local(s, mem[..], p, n, V) && Operand(s, p, n, q, n, B) && e + l <= 64 * n
    modifies mem
    ensures Local(s, mem[..], p, n, V') && AddedBits(V', V, B, e, l)
  {
    hide Local, Operand, Shift, I, R, R2, WordsFor, IsPart, IsCarry, IsWord, Within, Shl, Mask, HighBits, WordAdded,
      AddedBits;
    ghost var V8, P;
    var s1: Word;
    s1, V8, P := AddLshFrom(mem, p, n, I(e), q, n, 0, WordsFor(l), R(e), s, V, B);
    ghost var V9, x: Word := V8, {};
    if R(l) > 0 {
      ReadFrom(s, mem[..], p, n, V8, q, n, B, I(l));
      x := mem[q + I(l)];
    }
    V' := V9;
    if R(e) > R2(l) {
      V' := XorWordLocal(mem, p, n, I(e) + WordsFor(l), Mask(s1, R(e) - R2(l)), s, V9);
    } else if R2(l) > R(e) {
      V9 := XorWordLocal(mem, p, n, I(e) + WordsFor(l) - 1, Shl(HighBits(mem[q + WordsFor(l) - 1], R(l)), R(e)), s, V8);
      V' := V9;
    }
    AddedLow(V, V8, V9, V', B, P, x, s1, l, I(l), R(l), WordsFor(l), R2(l), e, I(e), R(e));
  }

  /** N < k <= 2N: |L|H0|H1|H2| becomes |H0+H2|H1|H0|L+H1|. */
  method LshiftMid(mem: array<Word>, p: nat, n: nat, q: nat, h: nat, N: nat, ghost s: seq<Word>, ghost V: Poly,
                   ghost B: Poly)
      returns (ghost V': Poly)
    requires Local(s, mem[..], p, n, V) && Operand(s, p, n, q, n, B) && 1 <= h <= N && n == WordsFor(2 * N)
      && Reduced(B, 2 * N)
    modifies mem
    ensures Local(s, mem[..], p, n, V') && Agrees(V', MidResult(B, h, N), 2 * N)
  {
    hide Local, Operand, I, R, WordsFor, AddedFrom, AddedBits, Agrees, Reduced, MidResult, MovedDown, IsPart, PartOf;
    var l := N - h;
    ghost var V1 := MoveDown(mem, p, n, q, l, WordsFor(N + l), s, V, B);
    ghost var V6 := Double(mem, p, n, N, s, V1);
    ReducedMore(B, 2 * N, 64 * n);
    ghost var V7 := AddTop(mem, p, n, q, N + l, s, V6, B);
    V' := AddLow(mem, p, n, q, N + h, l, s, V7, B);
    PartOfIs(B, WordsFor(N + l));
    MidCase(V1, V6, V7, V', V, B, PartOf(B, 0, WordsFor(N + l)), h, N, WordsFor(N + l), WordsFor(N + l) - I(l));
  }

  lemma PartOfIs(B: Poly, m: nat)
    ensures IsPart(PartOf(B, 0, m), B, 0, m)
  {
    hide PartOf;
  }

  // ---------------------------------------------------------------- 2N < k < 3N

  /** 2N < k < 3N: |L|H0|H1|H2| becomes |H0|L+H1|H2|L|. */
  method LshiftHigh(mem: array<Word>, p: nat, n: nat, q: nat, h: nat, N: nat, ghost s: seq<Word>, ghost V: Poly,
                    ghost B: Poly)
      returns (ghost V': Poly)
    requires Local(s, mem[..], p, n, V) && Operand(s, p, n, q, n, B) && 1 <= h < N && n == WordsFor(2 * N)
      && Reduced(B, 2 * N)
    modifies mem
    ensures Local(s, mem[..], p, n, V') && Agrees(V', RotatedHigh(B, h, N), 2 * N)
  {
    hide Local, Operand, I, R, WordsFor, AddedBits, Agrees, KeptBelow, Reduced, MovedDown, MovedUp, IsWord, WordAdded,
      RotatedHigh;
    var l := N - h;
    var il := n - I(l);
    ghost var V1 := MoveDown(mem, p, n, q, l, n, s, V, B);
    WholeOperand(B, n, 2 * N);
    ghost var V3 := AddLowTested(mem, p, n, q, h, l, s, V1, B);
    HighGap(V, V1, V3, B, h, N, il);
    var ih := I(N + h);
    var s2: Word := {};
    if R(N + h) > 0 {
      ReadRegion(s, mem[..], p, n, V3, ih);
      s2 := mem[p + ih];
    }
    ghost var V5 := MoveUp(mem, p, n, q, N + h, l, s, V3, B);
    V' := V5;
    if R(N + h) > 0 {
      V' := XorWordLocal(mem, p, n, ih, s2, s, V5);
    }
    TopFilled(V3, V5, V', B, s2, 2 * N, N + h, ih, R(N + h));
    HighCase(V, V1, V3, V', B, h, N, il);
  }

  // ---------------------------------------------------------------- the whole routine

  /** The result, before the bits behind it are cleared. */
  method LshiftCases(mem: array<Word>, p: nat, n: nat, q: nat, k: nat, N: nat, ghost s: seq<Word>, ghost V: Poly,
                     ghost B: Poly)
      returns (ghost V': Poly)
    requires Local(s, mem[..], p, n, V) && Operand(s, p, n, q, n, B) && 0 < N && n == WordsFor(2 * N)
      && Reduced(B, 2 * N)
    modifies mem
    ensures Local(s, mem[..], p, n, V') && Agrees(V', Transform.Lshift(B, k, N), 2 * N)
  {
    hide Local, Operand, WordsFor, Agrees, Reduced, MidResult, Rotated, RotatedHigh, Transform.Lshift;
    CaseResults(B, k, N);
    var k' := k % (3 * N);
    if k' == 0 {
      V' := CopyOperand(mem, p, n, q, N, s, V, B);
    } else if k' <= N {
      V' := LshiftLow(mem, p, n, q, k', N, s, V, B);
    } else if k' <= 2 * N {
      V' := LshiftMid(mem, p, n, q, k' - N, N, s, V, B);
    } else {
      V' := LshiftHigh(mem, p, n, q, k' - 2 * N, N, s, V, B);
    }
  }

  method CopyOperand(mem: array<Word>, p: nat, n: nat, q: nat, N: nat, ghost s: seq<Word>, ghost V: Poly, ghost B: Poly)
      returns (ghost V': Poly)
    requires Local(s, mem[..], p, n, V) && Operand(s, p, n, q, n, B) && 2 * N <= 64 * n
    modifies mem
    ensures Local(s, mem[..], p, n, V') && Agrees(V', B, 2 * N)
  {
    hide Part, Held, Only, Fits;
    ghost var s0 := mem[..];
    OperandNow(s, s0, p, n, V, q, n, B);
    Copy(mem, p, mem, q, n, B);
    HeldPart(mem[..], p, n, B);
    OnlyTrans(s, s0, mem[..], p, n);
    V' := B;
  }

  /** {p, n} <- {q, n} * x^k modulo x^(2N) + x^N + 1, up to what Transform.Lshift says about N < 64. */
  method Lshift(mem: array<Word>, p: nat, q: nat, k: nat, N: nat, ghost B: Poly)
    requires 0 < N && p + WordsFor(2 * N) <= mem.Length && Apart(p, WordsFor(2 * N), q, WordsFor(2 * N))
    requires Held(mem[..], q, WordsFor(2 * N), B) && Reduced(B, 2 * N)
    modifies mem
    ensures Held(mem[..], p, WordsFor(2 * N), Transform.Lshift(B, k, N))
      && Only(old(mem[..]), mem[..], p, WordsFor(2 * N))
  {
    hide Local, Held, Part, WordsFor, Agrees, Reduced, Transform.Lshift, Fits;
    var n := WordsFor(2 * N);
    ghost var s := mem[..];
    HeldSize(s, q, n, B);
    ReducedFit(B, 2 * N, n);
    LocalStart(s, p, n);
    ResultReduced(B, k, N);
    ghost var V := LshiftCases(mem, p, n, q, k, N, s, Part(s, p, n), B);
    LastWord(N);
    ghost var V' := V;
    if R(2 * N) > 0 {
      V' := MaskWordLocal(mem, p, n, n - 1, R(2 * N), s, V);
    }
    Finished(V, V', Transform.Lshift(B, k, N), N, n);
    LocalResult(s, mem[..], p, n, n, V', Transform.Lshift(B, k, N));
  }

  lemma ReducedFit(B: Poly, T: nat, n: nat)
    requires Reduced(B, T) && T <= 64 * n
    ensures Fits(B, n)
  {
  }

  lemma Finished(V: Poly, V': Poly, F: Poly, N: nat, n: nat)
    requires 2 * N <= 64 * n && Reduced(F, 2 * N) && Agrees(V, F, 2 * N)
    requires if R(2 * N) > 0 then 64 * (n - 1) + R(2 * N) == 2 * N
      && forall i: nat {:trigger i in V'} :: i in V' <==> i in V && !(64 * (n - 1) + R(2 * N) <= i < 64 * (n - 1) + 64)
             else 64 * n == 2 * N && V' == V
    ensures forall i: nat {:trigger i in V'} :: i < 64 * n ==> (i in V' <==> i in F)
  {
    hide R;
  }
}
