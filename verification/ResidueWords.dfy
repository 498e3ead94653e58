/** What the steps of Lshift of gf2x-1.1/fft.c do to the value of a residue whose 2N bits are not
    aligned with the words: multiplication by a power of x modulo x^(2N) + x^N + 1. */
module ResidueWords {
  import opened Polynomials
  import opened PolyDivision
  import opened Residues
  import opened FftAlgebra
  import opened Words
  import opened WordMemory
  import opened ShiftLoops
  import Transform

  /** The word that bit b lies in. */
  function I(b: nat): (q: nat)
    ensures 64 * q <= b < 64 * q + 64
  {
    b / 64
  }

  /** Its position in that word. */
  function R(b: nat): (r: nat)
    ensures r < 64 && b == 64 * I(b) + r
  {
    b % 64
  }

  /** The number of words for b bits. */
  function WordsFor(b: nat): (n: nat)
    ensures b <= 64 * n < b + 64
  {
    (b + 63) / 64
  }

  /** The bits that b bits leave free in their last word. */
  function R2(b: nat): (r: nat)
    ensures r < 64 && b + r == 64 * WordsFor(b)
  {
    (64 - b % 64) % 64
  }

  // ---------------------------------------------------------------- single words

  /** V' is V with word x replaced by w. */
  ghost predicate WordPut(V': Poly, V: Poly, x: nat, w: Word) {
    V' == Put(V, x, 1, Shift(w, 64 * x))
  }

  /** V' is V with w added to word x. */
  ghost predicate WordAdded(V': Poly, V: Poly, x: nat, w: Word) {
    V' == Add(V, Shift(w, 64 * x))
  }

  lemma AssignWord(s: seq<Word>, x: nat, w: Word)
    requires x < |s|
    ensures WordPut(Val(s[x := w]), Val(s), x, w)
  {
    hide Val, Shift, Put;
    var t := s[x := w];
    forall i: nat
      ensures i in Val(t) <==> i in Put(Val(s), x, 1, Shift(w, 64 * x))
    {
      ValMember(s, i);
      ValMember(t, i);
      if 64 * x <= i < 64 * (x + 1) {
        assert i / 64 == x && i % 64 == i - 64 * x;
      }
    }
  }

  /** a[x] := w. */
  method SetWord(a: array<Word>, x: nat, w: Word)
    requires x < a.Length
    modifies a
    ensures WordPut(Val(a[..]), old(Val(a[..])), x, w)
  {
    hide Val, Put, Shift;
    ghost var s := a[..];
    AssignWord(s, x, w);
    a[x] := w;
    assert a[..] == s[x := w];
  }

  /** a[x] ^= w. */
  method XorWord(a: array<Word>, x: nat, w: Word)
    requires x < a.Length
    modifies a
    ensures WordAdded(Val(a[..]), old(Val(a[..])), x, w)
  {
    hide Val, Add, Shift;
    ghost var s := a[..];
    ValXorWord(s, x, w);
    a[x] := Xor(a[x], w);
    assert a[..] == s[x := Xor(s[x], w)];
  }

  /** A word read from an array. */
  ghost predicate IsWord(w: Word, V: Poly, x: nat) {
    forall b: nat {:trigger b in w} :: b in w <==> b < 64 && 64 * x + b in V
  }

  lemma ReadWord(s: seq<Word>, x: nat)
    requires x < |s|
    ensures IsWord(s[x], Val(s), x)
  {
    hide Val;
    forall b: nat
      ensures b in s[x] <==> b < 64 && 64 * x + b in Val(s)
    {
      if b < 64 {
        BitOfWord(s, x, b);
      } else {
        WordBound(s[x], b);
      }
    }
  }

  // ---------------------------------------------------------------- parts of the operand

  /** P is the part {q, m} of B. */
  ghost predicate IsPart(P: Poly, B: Poly, q: nat, m: nat) {
    forall i: nat {:trigger i in P} :: i in P <==> i < 64 * m && 64 * q + i in B
  }

  /** What a shift by k carries out of the m words of P. */
  ghost predicate IsCarry(cy: Word, P: Poly, m: nat, k: nat) {
    forall b: nat {:trigger b in cy} :: b in cy <==> 64 * m + b >= k && 64 * m + b - k in P
  }

  lemma CarryIs(P: Poly, m: nat, k: nat)
    requires Fits(P, m) && k < 64
    ensures IsCarry(Carry(P, m, k), P, m, k)
  {
    hide Carry, Fits;
    forall b: nat
      ensures b in Carry(P, m, k) <==> 64 * m + b >= k && 64 * m + b - k in P
    {
      CarryBits(P, m, k, b);
    }
  }

  // ---------------------------------------------------------------- the products by x^k

  /** B x^h modulo x^(2N) + x^N + 1 for a residue B and h <= N. */
  function Rotated(B: Poly, h: nat, N: nat): (r: Poly)
    requires h <= N
    ensures forall i: nat {:trigger i in r} ::
              i in r <==> (if i < h then i + 2 * N - h in B else i < 2 * N && i - h in B)
                          != (N <= i < N + h && i + N - h in B)
  {
    hide Low, High, Shift, Add;
    var top := Low(High(B, 2 * N - h), h);
    Add(Add(Low(Shift(B, h), 2 * N), top), Shift(top, N))
  }

  /** The operand has at most T bits. */
  ghost predicate Reduced(B: Poly, T: nat) {
    forall i :: i in B ==> i < T
  }

  lemma ReducedMore(P: Poly, T: nat, T': nat)
    requires Reduced(P, T) && T <= T'
    ensures Reduced(P, T')
  {
  }

  /** V and V' agree below bit k. */
  ghost predicate KeptBelow(V: Poly, V': Poly, k: nat) {
    forall i: nat {:trigger i in V'} :: i < k ==> (i in V' <==> i in V)
  }

  // ---------------------------------------------------------------- 1 <= k <= N

  /** The bits lo to T - 1 of V are those of B x^h. */
  ghost predicate MovedUp(V: Poly, B: Poly, h: nat, lo: nat, T: nat) {
    forall i: nat {:trigger i in V} :: lo <= i < T ==> (i in V <==> i >= h && i - h in B)
  }

  /** 0:L0:L1:L2 after the first shift, where m = 2N - h. */
  lemma ShiftedUp(V0: Poly, V1: Poly, V2: Poly, B: Poly, P: Poly, c: Word, h: nat, m: nat, hI: nat, hR: nat, mW: nat,
                  over: nat)
    requires h == 64 * hI + hR && hR < 64 && m + over == 64 * mW && over < 64
    requires IsPart(P, B, 0, mW) && IsCarry(c, P, mW, hR)
    requires V1 == Put(V0, hI, mW, Shift(Shift(P, hR), 64 * hI))
    requires if hR > over then WordPut(V2, V1, hI + mW, Mask(c, hR - over)) else V2 == V1
    ensures MovedUp(V2, B, h, 64 * hI, h + m)
  {
    hide Put, Shift, Mask, WordPut, IsPart, IsCarry;
    forall i: nat | 64 * hI <= i < h + m
      ensures i in V2 <==> i >= h && i - h in B
    {
      if hR > over {
        PutBit(V2, V1, hI + mW, Mask(c, hR - over), i);
      }
      if i < 64 * (hI + mW) {
        UpInside(V0, V1, B, P, h, hI, hR, mW, i);
      } else {
        UpCarried(B, P, c, h, hI, hR, mW, over, i);
      }
    }
  }

  lemma UpInside(V0: Poly, V1: Poly, B: Poly, P: Poly, h: nat, hI: nat, hR: nat, mW: nat, i: nat)
    requires h == 64 * hI + hR && hR < 64 && 64 * hI <= i < 64 * (hI + mW) && IsPart(P, B, 0, mW)
    requires V1 == Put(V0, hI, mW, Shift(Shift(P, hR), 64 * hI))
    ensures i in V1 <==> i >= h && i - h in B
  {
    hide Put, Shift;
    assert i in V1 <==> i >= h && i - 64 * hI - hR in P;
  }

  lemma UpCarried(B: Poly, P: Poly, c: Word, h: nat, hI: nat, hR: nat, mW: nat, over: nat, i: nat)
    requires h == 64 * hI + hR && hR < 64 && IsPart(P, B, 0, mW) && IsCarry(c, P, mW, hR)
    requires 64 * (hI + mW) <= i && hR > over && i - 64 * (hI + mW) < hR - over
    ensures i - 64 * (hI + mW) in Mask(c, hR - over) <==> i >= h && i - h in B
  {
    hide Mask;
    var b := i - 64 * (hI + mW);
    assert b in c <==> 64 * mW + b >= hR && 64 * mW + b - hR in P;
  }

  lemma ShiftedUpRest(V0: Poly, V1: Poly, V2: Poly, X: Poly, y: Word, h: nat, m: nat, n: nat, hI: nat, hR: nat, mW: nat,
                      over: nat)
    requires h == 64 * hI + hR && hR < 64 && m + over == 64 * mW && over < 64 && 64 * n - 64 < h + m <= 64 * n
    requires V1 == Put(V0, hI, mW, X) && if hR > over then WordPut(V2, V1, hI + mW, y) else V2 == V1
    ensures KeptBelow(V0, V2, 64 * hI)
  {
    hide Put, Shift;
  }

  /** The words below nm hold B div x^m. */
  ghost predicate MovedDown(V0: Poly, V: Poly, B: Poly, m: nat, nm: nat) {
    forall i: nat {:trigger i in V} :: i in V <==> if i < 64 * nm then i + m in B else i in V0
  }

  lemma ShiftedDown(V0: Poly, V: Poly, B: Poly, P: Poly, m: nat, n: nat, mI: nat, mR: nat)
    requires m == 64 * mI + mR && mR < 64 && mI <= n && Reduced(B, 64 * n)
    requires IsPart(P, B, mI, n - mI)
    requires V == Put(V0, 0, n - mI, Shift(High(P, mR), 0))
    ensures MovedDown(V0, V, B, m, n - mI)
  {
    hide Put, Shift, High;
    forall i: nat | i < 64 * (n - mI)
      ensures i in V <==> i + m in B
    {
      assert i in V <==> i + mR in P;
    }
  }

  /** H:L0:L1:L2. */
  ghost predicate Turned(V: Poly, B: Poly, h: nat, m: nat) {
    forall i: nat {:trigger i in V} :: i < h + m ==> (i in V <==> if i < h then i + m in B else i - h in B)
  }

  /** At most two of the words that H is copied to have bits of L0, which are added again. */
  lemma Restored(V2: Poly, V3: Poly, V4: Poly, V5: Poly, B: Poly, s1: Word, s2: Word, h: nat, m: nat, nm: nat, hI: nat,
                 hR: nat)
    requires h == 64 * hI + hR && hR < 64 && h <= 64 * nm <= 64 * hI + 128 && Reduced(B, h + m)
    requires (nm > hI ==> IsWord(s1, V2, hI)) && (nm > hI + 1 ==> IsWord(s2, V2, hI + 1))
    requires V4 == if nm > hI then Add(V3, Shift(s1, 64 * hI)) else V3
    requires V5 == if nm > hI + 1 then Add(V4, Shift(s2, 64 * (hI + 1))) else V4
    requires MovedUp(V2, B, h, 64 * hI, h + m) && MovedDown(V2, V3, B, m, nm)
    ensures Turned(V5, B, h, m)
  {
    hide Shift, Add;
    forall i: nat | i < h + m
      ensures i in V5 <==> if i < h then i + m in B else i - h in B
    {
      if i < 64 * hI || 64 * nm <= i {
        NotInWord(s1, i, hI);
        NotInWord(s2, i, hI + 1);
      } else if i < 64 * hI + 64 {
        NotInWord(s2, i, hI + 1);
        assert i in Shift(s1, 64 * hI) <==> i - 64 * hI in s1;
      } else {
        NotInWord(s1, i, hI);
        assert i in Shift(s2, 64 * (hI + 1)) <==> i - 64 * (hI + 1) in s2;
      }
    }
  }

  lemma NotInWord(w: Word, i: nat, x: nat)
    ensures i < 64 * x || 64 * x + 64 <= i ==> i !in Shift(w, 64 * x)
  {
  }

  /** B div x^m has been added to V from bit e on. */
  ghost predicate AddedFrom(V': Poly, V: Poly, B: Poly, e: nat, m: nat) {
    forall i: nat {:trigger i in V'} :: i in V' <==> (i in V) != (i >= e && i - e + m in B)
  }

  /** H is added from bit N on, moved up inside its words; what lies below it is taken out again. */
  lemma AddedUp(V5: Poly, V6: Poly, V7: Poly, V8: Poly, B: Poly, P: Poly, x: Word, c: Word,
                N: nat, m: nat, nm: nat, NI: nat, NR: nat, mI: nat, mR: nat)
    requires N == 64 * NI + NR && m == 64 * mI + mR && mR <= NR < 64 && Reduced(B, 64 * (mI + nm))
    requires IsPart(P, B, mI, nm) && IsWord(x, B, mI) && IsCarry(c, P, nm, NR - mR)
    requires V6 == Add(V5, Within(Shift(Shift(P, NR - mR), 64 * NI), NI, nm))
    requires WordAdded(V7, V6, NI, Shl(Mask(x, mR), NR - mR))
    requires if c != {} then WordAdded(V8, V7, NI + nm, c) else V8 == V7
    ensures AddedFrom(V8, V5, B, N, m)
  {
    hide Shift, Add, Within, Shl, Mask, WordAdded, IsPart, IsWord, IsCarry;
    forall i: nat
      ensures i in V8 <==> (i in V5) != (i >= N && i - N + m in B)
    {
      UpAdded(V5, V6, B, P, N, m, nm, NI, NR, mI, mR, i);
      AddedWordBit(V7, V6, NI, Shl(Mask(x, mR), NR - mR), i);
      UpRemoved(B, x, N, m, NI, NR, mI, mR, i);
      if c != {} {
        AddedWordBit(V8, V7, NI + nm, c, i);
      }
      UpOver(B, P, c, N, m, nm, NI, NR, mI, mR, i);
    }
  }

  lemma UpAdded(V5: Poly, V6: Poly, B: Poly, P: Poly, N: nat, m: nat, nm: nat, NI: nat, NR: nat, mI: nat, mR: nat,
                i: nat)
    requires N == 64 * NI + NR && m == 64 * mI + mR && mR <= NR < 64 && Reduced(B, 64 * (mI + nm))
      && IsPart(P, B, mI, nm)
    requires V6 == Add(V5, Within(Shift(Shift(P, NR - mR), 64 * NI), NI, nm))
    ensures i in V6 <==> (i in V5) != (N - mR <= i < 64 * (NI + nm) && i + m - N in B)
  {
    hide Shift, Add, Within;
    assert i in Shift(Shift(P, NR - mR), 64 * NI) <==> N - mR <= i && i - 64 * NI - (NR - mR) in P;
  }

  lemma UpRemoved(B: Poly, x: Word, N: nat, m: nat, NI: nat, NR: nat, mI: nat, mR: nat, i: nat)
    requires N == 64 * NI + NR && m == 64 * mI + mR && mR <= NR < 64 && IsWord(x, B, mI)
    ensures 64 * NI <= i && i - 64 * NI in Shl(Mask(x, mR), NR - mR) <==> N - mR <= i < N && i + m - N in B
  {
    hide Shl, Mask;
    if N - mR <= i < 64 * NI + 64 {
      var b := i - 64 * NI - (NR - mR);
      assert b in x <==> b < 64 && 64 * mI + b in B;
    }
  }

  lemma UpOver(B: Poly, P: Poly, c: Word, N: nat, m: nat, nm: nat, NI: nat, NR: nat, mI: nat, mR: nat, i: nat)
    requires N == 64 * NI + NR && m == 64 * mI + mR && mR <= NR < 64 && Reduced(B, 64 * (mI + nm))
    requires IsPart(P, B, mI, nm) && IsCarry(c, P, nm, NR - mR)
    ensures 64 * (NI + nm) <= i && i - 64 * (NI + nm) in c <==> 64 * (NI + nm) <= i && i >= N && i - N + m in B
  {
    hide IsPart, IsCarry, Reduced;
    if 64 * (NI + nm) <= i {
      var b, d := i - 64 * (NI + nm), NR - mR;
      CarryBit(c, P, nm, d, b);
      if 64 * nm + b >= d {
        PartBitIn(P, B, mI, nm, 64 * nm + b - d);
        assert 64 * mI + (64 * nm + b - d) == i - N + m;
      }
      if i >= N && 64 * (mI + nm) <= i - N + m {
        ReducedBit(B, 64 * (mI + nm), i - N + m);
      }
    }
  }

  lemma ReducedBit(B: Poly, T: nat, i: nat)
    requires Reduced(B, T) && T <= i
    ensures i !in B
  {
  }

  /** The same, moved down. */
  lemma AddedDown(V5: Poly, V6: Poly, V7: Poly, B: Poly, P: Poly, x: Word,
                  N: nat, m: nat, nm: nat, NI: nat, NR: nat, mI: nat, mR: nat)
    requires N == 64 * NI + NR && m == 64 * mI + mR && NR < mR < 64 && Reduced(B, 64 * (mI + nm))
    requires IsPart(P, B, mI, nm) && IsWord(x, B, mI)
    requires V6 == Add(V5, Shift(High(P, mR - NR), 64 * NI))
    requires if NR > 0 then WordAdded(V7, V6, NI, Shr(Mask(x, mR), mR - NR)) else V7 == V6
    ensures AddedFrom(V7, V5, B, N, m)
  {
    hide Shift, Add, High, Shr, Mask, WordAdded, IsPart, IsWord;
    forall i: nat
      ensures i in V7 <==> (i in V5) != (i >= N && i - N + m in B)
    {
      DownAdded(V5, V6, B, P, N, m, nm, NI, NR, mI, mR, i);
      if NR > 0 {
        AddedWordBit(V7, V6, NI, Shr(Mask(x, mR), mR - NR), i);
        DownRemoved(B, x, N, m, NI, NR, mI, mR, i);
      }
    }
  }

  lemma DownAdded(V5: Poly, V6: Poly, B: Poly, P: Poly, N: nat, m: nat, nm: nat, NI: nat, NR: nat, mI: nat, mR: nat,
                  i: nat)
    requires N == 64 * NI + NR && m == 64 * mI + mR && NR < mR < 64 && Reduced(B, 64 * (mI + nm))
      && IsPart(P, B, mI, nm)
    requires V6 == Add(V5, Shift(High(P, mR - NR), 64 * NI))
    ensures i in V6 <==> (i in V5) != (64 * NI <= i && i - N + m in B)
  {
    hide Shift, Add, High;
    if 64 * NI <= i {
      assert i in Shift(High(P, mR - NR), 64 * NI) <==> i - 64 * NI + (mR - NR) in P;
    }
  }

  lemma DownRemoved(B: Poly, x: Word, N: nat, m: nat, NI: nat, NR: nat, mI: nat, mR: nat, i: nat)
    requires N == 64 * NI + NR && m == 64 * mI + mR && NR < mR < 64 && IsWord(x, B, mI)
    ensures 64 * NI <= i && i - 64 * NI in Shr(Mask(x, mR), mR - NR) <==> 64 * NI <= i < N && i - N + m in B
  {
    hide Shr, Mask, IsWord;
    if 64 * NI <= i {
      var b := i - 64 * NI + (mR - NR);
      assert i - 64 * NI in Shr(Mask(x, mR), mR - NR) <==> b in x && b < mR;
      WordBit(x, B, mI, b);
    }
  }

  /** The N lowest bits once more from bit N on; restored is false when the
      word that the copies share has been lost. */
  lemma Doubled(V2: Poly, V3: Poly, V4: Poly, V5: Poly, V6: Poly, Q: Poly, s: Word, c: Word, N: nat, NI: nat, NR: nat)
    requires N == 64 * NI + NR && NR < 64
    requires IsPart(Q, V2, 0, NI) && IsCarry(c, Q, NI, NR) && (NR > 0 ==> IsWord(s, V2, NI))
    requires forall i: nat {:trigger i in V2} :: NR > 0 && N <= i < 64 * NI + 64 ==> i !in V2
    requires V3 == Put(V2, NI, NI, Shift(Shift(Q, NR), 64 * NI))
    requires if NR > 0 then WordAdded(V4, V3, NI, s) else V4 == V3
    requires if NR > 0 then WordPut(V5, V4, 2 * NI, Xor(c, Shl(s, NR))) else V5 == V4
    requires if 2 * NR > 64 then WordPut(V6, V5, 2 * NI + 1, Shr(s, 64 - NR)) else V6 == V5
    ensures forall i: nat {:trigger i in V6} :: i < N && (NI > 0 || NR == 0) ==> (i in V6 <==> i in V2)
    ensures forall i: nat {:trigger i in V6} :: N <= i < 2 * N ==> (i in V6 <==> i - N in V2)
    ensures forall i: nat {:trigger i in V6} :: i < N && NI == 0 ==> i !in V6
  {
    hide Put, Shift, Add, Shl, Shr, Xor, WordPut, WordAdded, IsPart, IsCarry, IsWord;
    forall i: nat | i < 2 * N
      ensures i < N && (NI > 0 || NR == 0) ==> (i in V6 <==> i in V2)
      ensures i < N && NI == 0 ==> i !in V6
      ensures N <= i ==> (i in V6 <==> i - N in V2)
    {
      if i < 128 * NI {
        DoubledWithin(V2, V3, V4, V5, V6, Q, s, Xor(c, Shl(s, NR)), Shr(s, 64 - NR), N, NI, NR, i);
      } else {
        DoubledAbove(V2, V4, V5, V6, Q, s, c, N, NI, NR, i);
      }
    }
  }

  lemma DoubledWithin(V2: Poly, V3: Poly, V4: Poly, V5: Poly, V6: Poly, Q: Poly, s: Word, w: Word, y: Word, N: nat,
                      NI: nat, NR: nat, i: nat)
    requires N == 64 * NI + NR && NR < 64 && i < 128 * NI
    requires IsPart(Q, V2, 0, NI) && (NR > 0 ==> IsWord(s, V2, NI))
    requires forall i: nat {:trigger i in V2} :: NR > 0 && N <= i < 64 * NI + 64 ==> i !in V2
    requires V3 == Put(V2, NI, NI, Shift(Shift(Q, NR), 64 * NI))
    requires if NR > 0 then WordAdded(V4, V3, NI, s) else V4 == V3
    requires if NR > 0 then WordPut(V5, V4, 2 * NI, w) else V5 == V4
    requires if 2 * NR > 64 then WordPut(V6, V5, 2 * NI + 1, y) else V6 == V5
    ensures i in V6 <==> if i < N then i in V2 else i - N in V2
  {
    hide Put, Shift, WordPut, WordAdded, IsPart, IsWord;
    if 2 * NR > 64 {
      PutBit(V6, V5, 2 * NI + 1, y, i);
    }
    if NR > 0 {
      PutBit(V5, V4, 2 * NI, w, i);
    }
    DoubledBelow(V2, V3, V4, Q, s, N, NI, NR, i);
  }

  lemma DoubledBelow(V2: Poly, V3: Poly, V4: Poly, Q: Poly, s: Word, N: nat, NI: nat, NR: nat, i: nat)
    requires N == 64 * NI + NR && NR < 64 && i < 128 * NI
    requires IsPart(Q, V2, 0, NI) && (NR > 0 ==> IsWord(s, V2, NI))
    requires forall i: nat {:trigger i in V2} :: NR > 0 && N <= i < 64 * NI + 64 ==> i !in V2
    requires V3 == Put(V2, NI, NI, Shift(Shift(Q, NR), 64 * NI))
    requires if NR > 0 then WordAdded(V4, V3, NI, s) else V4 == V3
    ensures i in V4 <==> if i < N then i in V2 else i - N in V2
  {
    hide Put, Shift, Add;
    if 64 * NI <= i {
      assert i in V3 <==> i - 64 * NI >= NR && i - 64 * NI - NR in Q;
    }
    if NR > 0 {
      assert i in Shift(s, 64 * NI) <==> 64 * NI <= i && i - 64 * NI in s;
    }
  }

  lemma DoubledAbove(V2: Poly, V4: Poly, V5: Poly, V6: Poly, Q: Poly, s: Word, c: Word, N: nat, NI: nat, NR: nat,
                     i: nat)
    requires N == 64 * NI + NR && NR < 64 && 128 * NI <= i < 2 * N
    requires IsPart(Q, V2, 0, NI) && IsCarry(c, Q, NI, NR) && IsWord(s, V2, NI)
    requires WordPut(V5, V4, 2 * NI, Xor(c, Shl(s, NR)))
    requires if 2 * NR > 64 then WordPut(V6, V5, 2 * NI + 1, Shr(s, 64 - NR)) else V6 == V5
    ensures i in V6 <==> i >= N && i - N in V2
  {
    hide Shl, Shr, Xor, IsPart, IsCarry, IsWord, WordPut;
    if i >= 128 * NI + 64 {
      PutBit(V6, V5, 2 * NI + 1, Shr(s, 64 - NR), i);
      TopWord(V2, s, N, NI, NR, i - 64 * (2 * NI + 1));
    } else if 2 * NR > 64 {
      PutBit(V6, V5, 2 * NI + 1, Shr(s, 64 - NR), i);
      DoubledShared(V2, V4, V5, Q, s, c, N, NI, NR, i);
    } else {
      DoubledShared(V2, V4, V5, Q, s, c, N, NI, NR, i);
    }
  }

  lemma DoubledShared(V2: Poly, V4: Poly, V5: Poly, Q: Poly, s: Word, c: Word, N: nat, NI: nat, NR: nat, i: nat)
    requires N == 64 * NI + NR && NR < 64 && 128 * NI <= i < 128 * NI + 64
    requires IsPart(Q, V2, 0, NI) && IsCarry(c, Q, NI, NR) && IsWord(s, V2, NI)
    requires WordPut(V5, V4, 2 * NI, Xor(c, Shl(s, NR)))
    ensures i in V5 <==> i >= N && i - N in V2
  {
    hide Shl, Shr, Xor, IsPart, IsCarry, IsWord, WordPut;
    PutBit(V5, V4, 2 * NI, Xor(c, Shl(s, NR)), i);
    SharedWord(V2, Q, s, c, N, NI, NR, i - 128 * NI);
  }

  lemma PutBit(V': Poly, V: Poly, x: nat, w: Word, i: nat)
    requires WordPut(V', V, x, w)
    ensures i in V' <==> if 64 * x <= i < 64 * x + 64 then i - 64 * x in w else i in V
  {
    hide Put, Shift;
  }

  lemma SharedWord(V2: Poly, Q: Poly, s: Word, c: Word, N: nat, NI: nat, NR: nat, b: nat)
    requires N == 64 * NI + NR && NR < 64 && b < 64
    requires IsPart(Q, V2, 0, NI) && IsCarry(c, Q, NI, NR) && IsWord(s, V2, NI)
    ensures b in Xor(c, Shl(s, NR)) <==> 128 * NI + b >= N && 128 * NI + b - N in V2
  {
    hide Shl, IsPart, IsCarry, IsWord;
    CarryBit(c, Q, NI, NR, b);
    if NR <= b {
      WordBit(s, V2, NI, b - NR);
    }
    if 64 * NI + b >= NR {
      PartBitIn(Q, V2, 0, NI, 64 * NI + b - NR);
    }
  }

  lemma CarryBit(c: Word, Q: Poly, m: nat, k: nat, b: nat)
    requires IsCarry(c, Q, m, k)
    ensures b in c <==> 64 * m + b >= k && 64 * m + b - k in Q
  {
  }

  lemma PartBitIn(P: Poly, B: Poly, q: nat, m: nat, i: nat)
    requires IsPart(P, B, q, m)
    ensures i in P <==> i < 64 * m && 64 * q + i in B
  {
  }

  lemma WordBit(w: Word, V: Poly, x: nat, b: nat)
    requires IsWord(w, V, x)
    ensures b in w <==> b < 64 && 64 * x + b in V
  {
  }

  lemma TopWord(V2: Poly, s: Word, N: nat, NI: nat, NR: nat, b: nat)
    requires N == 64 * NI + NR && 32 < NR < 64 && b < 2 * NR - 64
    requires IsWord(s, V2, NI)
    ensures b in Shr(s, 64 - NR) <==> 64 * (2 * NI + 1) + b - N in V2
  {
    hide Shr, IsWord;
    assert b in Shr(s, 64 - NR) <==> b + (64 - NR) in s;
    WordBit(s, V2, NI, b + (64 - NR));
    assert 64 * NI + (b + (64 - NR)) == 64 * (2 * NI + 1) + b - N;
  }

  /** The l lowest bits of B have been added to V from bit e on. */
  ghost predicate AddedBits(V': Poly, V: Poly, B: Poly, e: nat, l: nat) {
    forall i: nat {:trigger i in V'} :: i in V' <==> (i in V) != (e <= i < e + l && i - e in B)
  }

  /** Low(B, l) is added from bit e on; x is the word of B in which bit l lies, which is
      masked only when it can do harm. */
  lemma AddedLow(V7: Poly, V8: Poly, V9: Poly, V10: Poly, B: Poly, P: Poly, x: Word, c: Word,
                 l: nat, lI: nat, lR: nat, lW: nat, over: nat, e: nat, eI: nat, eR: nat)
    requires l == 64 * lI + lR && lR < 64 && l + over == 64 * lW && over < 64 && e == 64 * eI + eR && eR < 64
    requires IsPart(P, B, 0, lW) && IsCarry(c, P, lW, eR) && (lR > 0 ==> IsWord(x, B, lI))
    requires V8 == Add(V7, Within(Shift(Shift(P, eR), 64 * eI), eI, lW))
    requires if lR > 0 && over > eR then WordAdded(V9, V8, eI + lI, Shl(HighBits(x, lR), eR)) else V9 == V8
    requires if eR > over then WordAdded(V10, V9, eI + lW, Mask(c, eR - over)) else V10 == V9
    ensures AddedBits(V10, V7, B, e, l)
  {
    hide Shift, Add, Within, Shl, Mask, HighBits, IsPart, IsCarry, IsWord, WordAdded;
    forall i: nat
      ensures i in V10 <==> (i in V7) != (e <= i < e + l && i - e in B)
    {
      AddedLowBit(V7, V8, V9, V10, B, P, x, c, l, lI, lR, lW, over, e, eI, eR, i);
    }
  }

  lemma AddedLowBit(V7: Poly, V8: Poly, V9: Poly, V10: Poly, B: Poly, P: Poly, x: Word, c: Word,
                    l: nat, lI: nat, lR: nat, lW: nat, over: nat, e: nat, eI: nat, eR: nat, i: nat)
    requires l == 64 * lI + lR && lR < 64 && l + over == 64 * lW && over < 64 && e == 64 * eI + eR && eR < 64
    requires IsPart(P, B, 0, lW) && IsCarry(c, P, lW, eR) && (lR > 0 ==> IsWord(x, B, lI))
    requires V8 == Add(V7, Within(Shift(Shift(P, eR), 64 * eI), eI, lW))
    requires if lR > 0 && over > eR then WordAdded(V9, V8, eI + lI, Shl(HighBits(x, lR), eR)) else V9 == V8
    requires if eR > over then WordAdded(V10, V9, eI + lW, Mask(c, eR - over)) else V10 == V9
    ensures i in V10 <==> (i in V7) != (e <= i < e + l && i - e in B)
  {
    hide Shift, Add, Within, Shl, Mask, HighBits, IsPart, IsCarry, IsWord, WordAdded;
    LowInside(V7, V8, B, P, lW, e, eI, eR, i);
    if lR > 0 && over > eR {
      AddedWordBit(V9, V8, eI + lI, Shl(HighBits(x, lR), eR), i);
      LowExcess(B, x, l, lI, lR, e, eI, eR, i);
    }
    if eR > over {
      AddedWordBit(V10, V9, eI + lW, Mask(c, eR - over), i);
      LowCarry(B, P, c, l, lW, over, e, eI, eR, i);
    }
  }

  lemma AddedWordBit(V': Poly, V: Poly, x: nat, w: Word, i: nat)
    requires WordAdded(V', V, x, w)
    ensures i in V' <==> (i in V) != (64 * x <= i && i - 64 * x in w)
  {
    hide Add, Shift;
  }

  lemma LowInside(V7: Poly, V8: Poly, B: Poly, P: Poly, lW: nat, e: nat, eI: nat, eR: nat, i: nat)
    requires e == 64 * eI + eR && eR < 64 && IsPart(P, B, 0, lW)
    requires V8 == Add(V7, Within(Shift(Shift(P, eR), 64 * eI), eI, lW))
    ensures i in V8 <==> (i in V7) != (e <= i < 64 * (eI + lW) && i - e in B)
  {
    hide Shift, Add, Within;
    assert i in Shift(Shift(P, eR), 64 * eI) <==> e <= i && i - 64 * eI - eR in P;
  }

  lemma LowExcess(B: Poly, x: Word, l: nat, lI: nat, lR: nat, e: nat, eI: nat, eR: nat, i: nat)
    requires l == 64 * lI + lR && lR < 64 && e == 64 * eI + eR && eR < 64 && IsWord(x, B, lI)
    ensures 64 * (eI + lI) <= i && i - 64 * (eI + lI) in Shl(HighBits(x, lR), eR)
       <==> e + l <= i < 64 * (eI + lI) + 64 && i - e in B
  {
    hide Shl, HighBits;
    var base := 64 * (eI + lI);
    if base + eR <= i {
      assert i - base - eR in x <==> i - base - eR < 64 && 64 * lI + (i - base - eR) in B;
    }
  }

  lemma LowCarry(B: Poly, P: Poly, c: Word, l: nat, lW: nat, over: nat, e: nat, eI: nat, eR: nat, i: nat)
    requires l + over == 64 * lW && over < 64 && e == 64 * eI + eR && eR < 64
    requires eR > over && IsPart(P, B, 0, lW) && IsCarry(c, P, lW, eR)
    ensures 64 * (eI + lW) <= i && i - 64 * (eI + lW) in Mask(c, eR - over)
      <==> 64 * (eI + lW) <= i < e + l && i >= e && i - e in B
  {
    hide Mask;
    if 64 * (eI + lW) <= i {
      var b := i - 64 * (eI + lW);
      assert b in c <==> 64 * lW + b >= eR && 64 * lW + b - eR in P;
    }
  }

  /** L goes to the top, in words of which the first may already be in use. */
  lemma TopFilled(V3: Poly, V5: Poly, V6: Poly, B: Poly, s: Word, T: nat, e: nat, eI: nat, eR: nat)
    requires e == 64 * eI + eR && eR < 64
    requires MovedUp(V5, B, e, 64 * eI, T) && KeptBelow(V3, V5, 64 * eI)
    requires forall i: nat {:trigger i in V3} :: eR > 0 && e <= i < 64 * eI + 64 ==> i !in V3
    requires eR > 0 ==> IsWord(s, V3, eI)
    requires if eR > 0 then WordAdded(V6, V5, eI, s) else V6 == V5
    ensures forall i: nat {:trigger i in V6} :: i < T ==> (i in V6 <==> if i < e then i in V3 else i - e in B)
  {
    hide WordAdded;
    forall i: nat | i < T
      ensures i in V6 <==> if i < e then i in V3 else i - e in B
    {
      if eR > 0 {
        AddedWordBit(V6, V5, eI, s, i);
      }
    }
  }

  /** a & ~MASK(k). */
  function HighBits(a: Word, k: nat): (r: Word)
    ensures forall i {:trigger i in r} :: i in r <==> i in a && k <= i
  {
    set i | i in a && k <= i
  }


  // ---------------------------------------------------------------- the three cases on words

  lemma CarryInRange(c: Word, P: Poly, B: Poly, N: nat, m: nat, n: nat, nm: nat, NI: nat, NR: nat, mI: nat, mR: nat,
                     T: nat)
    requires N == 64 * NI + NR && m == 64 * mI + mR && mR <= NR < 64 && N <= m && mI + nm == n && Reduced(B, T)
      && T <= 64 * n
    requires IsPart(P, B, mI, nm) && IsCarry(c, P, nm, NR - mR) && c != {}
    ensures NI + nm < n
  {
    var b :| b in c;
    assert 64 * nm + b - (NR - mR) in P;
    assert 64 * mI + (64 * nm + b - (NR - mR)) in B;
  }

  /** The words that hold the bits below T agree. */
  ghost predicate Agrees(V: Poly, R: Poly, T: nat) {
    forall i: nat {:trigger i in V} :: i < T ==> (i in V <==> i in R)
  }

  lemma LowCase(V5: Poly, V: Poly, B: Poly, h: nat, N: nat)
    requires h <= N && Turned(V5, B, h, 2 * N - h) && AddedFrom(V, V5, B, N, 2 * N - h) && Reduced(B, 2 * N)
    ensures Agrees(V, Rotated(B, h, N), 2 * N)
  {
    hide Rotated;
    forall i: nat | i < 2 * N
      ensures i in V <==> i in Rotated(B, h, N)
    {
      assert i in V5 <==> if i < h then i + (2 * N - h) in B else i - h in B;
      assert i in V <==> (i in V5) != (i >= N && i - N + (2 * N - h) in B);
    }
  }

  lemma TopAdded(V: Poly, V': Poly, B: Poly, P: Poly, m: nat, n: nat, mI: nat, mR: nat)
    requires m == 64 * mI + mR && mR < 64 && mI <= n && Reduced(B, 64 * n) && IsPart(P, B, mI, n - mI)
    requires V' == Add(V, Shift(High(P, mR), 0))
    ensures AddedFrom(V', V, B, 0, m)
  {
    hide Add, Shift, High;
    forall i: nat
      ensures i in V' <==> (i in V) != (i + m in B)
    {
      assert i in Shift(High(P, mR), 0) <==> i + mR in P;
    }
  }

  lemma NothingToRemove(V: Poly, V': Poly, x: Word, at: nat, r: nat, k: nat)
    requires WordAdded(V', V, at, Shl(HighBits(x, r), k))
    ensures r + k >= 64 ==> V' == V
  {
    hide Shl, HighBits;
    var w := Shl(HighBits(x, r), k);
    if r + k >= 64 {
      assert w == {};
      assert Shift({}, 64 * at) == {};
    }
  }

  /** B x^(N + h) modulo x^(2N) + x^N + 1. */
  function RotatedMid(B: Poly, h: nat, N: nat): Poly
    requires h <= N
  {
    Rotated(Rotated(B, N, N), h, N)
  }

  /** B x^(2N + h) modulo x^(2N) + x^N + 1. */
  function RotatedHigh(B: Poly, h: nat, N: nat): Poly
    requires h <= N
  {
    Rotated(RotatedMid(B, N, N), h, N)
  }

  /** What the second case leaves: for N < 64 the copy of H0:H1 in the low half is missing. */
  function MidResult(B: Poly, h: nat, N: nat): Poly
    requires h <= N
  {
    if N < 64 then Add(RotatedMid(B, h, N), Low(High(B, N - h), N)) else RotatedMid(B, h, N)
  }

  lemma MidBits(B: Poly, h: nat, N: nat, i: nat)
    requires 1 <= h <= N && Reduced(B, 2 * N) && i < 2 * N
    ensures i in RotatedMid(B, h, N) <==>
      (if i < N then (i + N - h in B) != (i + 2 * N - h in B) else (i - h in B) != (i >= N + h && i - N - h in B))
  {
    hide Rotated;
    var B' := Rotated(B, N, N);
    assert i in RotatedMid(B, h, N) <==>
      (if i < h then i + 2 * N - h in B' else i - h in B') != (N <= i < N + h && i + N - h in B');
  }

  lemma HighCaseBits(B: Poly, h: nat, N: nat, i: nat)
    requires 1 <= h < N && Reduced(B, 2 * N) && i < 2 * N
    ensures i in RotatedHigh(B, h, N) <==>
      (if i < N + h then i + N - h in B else i - (N + h) in B) != (h <= i < N && i - h in B)
  {
    hide Rotated, RotatedMid;
    var B' := RotatedMid(B, N, N);
    assert i in RotatedHigh(B, h, N) <==>
      (if i < h then i + 2 * N - h in B' else i - h in B') != (N <= i < N + h && i + N - h in B');
    if i < h {
      MidBits(B, N, N, i + 2 * N - h);
    } else {
      MidBits(B, N, N, i - h);
    }
    if N <= i < N + h {
      MidBits(B, N, N, i + N - h);
    }
  }

  lemma MidCase(V1: Poly, V6: Poly, V7: Poly, V: Poly, V0: Poly, B: Poly, P: Poly, h: nat, N: nat, mW: nat, nm: nat)
    requires 1 <= h <= N && Reduced(B, 2 * N) && 2 * N - h <= 64 * mW && N <= 64 * nm
    requires IsPart(P, B, 0, mW) && MovedDown(V0, V1, P, N - h, nm)
    requires forall i: nat {:trigger i in V6} ::
      i < 2 * N ==> (i in V6 <==> if i < N then N >= 64 && i in V1 else i - N in V1)
    requires AddedFrom(V7, V6, B, 0, 2 * N - h) && AddedBits(V, V7, B, N + h, N - h)
    ensures Agrees(V, MidResult(B, h, N), 2 * N)
  {
    hide MidResult, RotatedMid, AddedFrom, AddedBits, MovedDown, IsPart;
    forall i: nat | i < 2 * N
      ensures i in V <==> i in MidResult(B, h, N)
    {
      MidBits(B, h, N, i);
      MidResultBit(B, h, N, i);
      AddedFromBit(V7, V6, B, 0, 2 * N - h, i);
      AddedBitsBit(V, V7, B, N + h, N - h, i);
      var b := if i < N then i else i - N;
      MovedDownBit(V0, V1, P, N - h, nm, b);
      PartBitIn(P, B, 0, mW, b + (N - h));
    }
  }

  lemma MidResultBit(B: Poly, h: nat, N: nat, i: nat)
    requires h <= N
    ensures i in MidResult(B, h, N) <==> (i in RotatedMid(B, h, N)) != (N < 64 && i < N && i + (N - h) in B)
  {
    hide RotatedMid, Low, High;
    assert i in Low(High(B, N - h), N) <==> i < N && i + (N - h) in B;
  }

  lemma AddedFromBit(V': Poly, V: Poly, B: Poly, e: nat, m: nat, i: nat)
    requires AddedFrom(V', V, B, e, m)
    ensures i in V' <==> (i in V) != (i >= e && i - e + m in B)
  {
  }

  lemma AddedBitsBit(V': Poly, V: Poly, B: Poly, e: nat, l: nat, i: nat)
    requires AddedBits(V', V, B, e, l)
    ensures i in V' <==> (i in V) != (e <= i < e + l && i - e in B)
  {
  }

  lemma MovedDownBit(V0: Poly, V: Poly, B: Poly, m: nat, nm: nat, i: nat)
    requires MovedDown(V0, V, B, m, nm)
    ensures i in V <==> if i < 64 * nm then i + m in B else i in V0
  {
  }

  lemma HighCase(V0: Poly, V1: Poly, V3: Poly, V: Poly, B: Poly, h: nat, N: nat, nm: nat)
    requires 1 <= h < N && Reduced(B, 2 * N) && N + h <= 64 * nm
    requires MovedDown(V0, V1, B, N - h, nm) && AddedBits(V3, V1, B, h, N - h)
    requires forall i: nat {:trigger i in V} ::
      i < 2 * N ==> (i in V <==> if i < N + h then i in V3 else i - (N + h) in B)
    ensures Agrees(V, RotatedHigh(B, h, N), 2 * N)
  {
    hide RotatedHigh;
    forall i: nat | i < 2 * N
      ensures i in V <==> i in RotatedHigh(B, h, N)
    {
      HighCaseBits(B, h, N, i);
      if i < N + h {
        assert i in V3 <==> (i in V1) != (h <= i < h + (N - h) && i - h in B);
        assert i in V1 <==> i + (N - h) in B;
      }
    }
  }

  lemma HighGap(V0: Poly, V1: Poly, V3: Poly, B: Poly, h: nat, N: nat, nm: nat)
    requires 1 <= h < N && Reduced(B, 2 * N)
    requires MovedDown(V0, V1, B, N - h, nm) && AddedBits(V3, V1, B, h, N - h)
    ensures forall i: nat {:trigger i in V3} :: N + h <= i < 64 * nm ==> i !in V3
  {
  }

  // ---------------------------------------------------------------- the whole routine

  lemma MulPhi(t: Poly, N: nat)
    requires 0 < N
    ensures Mul(t, Phi(N)) == Add(Add(t, Shift(t, N)), Shift(t, 2 * N))
  {
    hide Mul, Add, Shift;
    var one: Poly, mid: Poly, high: Poly := {0}, {N}, {2 * N};
    assert Phi(N) == Add(Add(one, mid), high);
    MulComm(t, Phi(N));
    AddMul(Add(one, mid), high, t);
    AddMul(one, mid, t);
    MonomialMul(0, t);
    MonomialMul(N, t);
    MonomialMul(2 * N, t);
    ShiftNone(t);
  }

  lemma RotatedIsRem(B: Poly, h: nat, N: nat)
    requires 0 < N && h <= N && Reduced(B, 2 * N)
    ensures Rotated(B, h, N) == Rem(Shift(B, h), Phi(N)) && Reduced(Rotated(B, h, N), 2 * N)
  {
    hide Mul, Rem, Phi, Deg, Rotated;
    var top, R, X := High(B, 2 * N - h), Rotated(B, h, N), Shift(B, h);
    MulPhi(top, N);
    RotatedDifference(B, h, N);
    RemMultiple(top, Phi(N));
    RemAdd(X, R, Phi(N));
    AddIsZero(Rem(X, Phi(N)), Rem(R, Phi(N)));
    RotatedReduced(B, h, N);
    ReducedDegree(R, 2 * N);
    RemSmall(R, Phi(N));
  }

  lemma ReducedDegree(B: Poly, T: nat)
    requires 0 < T
    ensures Reduced(B, T) <==> Deg(B) < T
  {
  }

  lemma RotatedReduced(B: Poly, h: nat, N: nat)
    requires h <= N && Reduced(B, 2 * N)
    ensures Reduced(Rotated(B, h, N), 2 * N)
  {
    hide Rotated;
  }

  lemma RotatedDifference(B: Poly, h: nat, N: nat)
    requires h <= N && Reduced(B, 2 * N)
    ensures var t := High(B, 2 * N - h);
      Add(Shift(B, h), Rotated(B, h, N)) == Add(Add(t, Shift(t, N)), Shift(t, 2 * N))
  {
    hide Rotated, Shift, High, Add;
    var t := High(B, 2 * N - h);
    forall i: nat
      ensures i in Add(Shift(B, h), Rotated(B, h, N)) <==> i in Add(Add(t, Shift(t, N)), Shift(t, 2 * N))
    {
      assert i in t <==> i + (2 * N - h) in B;
      if i >= N {
        assert i - N in t <==> i - N + (2 * N - h) in B;
      }
      if i >= 2 * N {
        assert i - 2 * N in t <==> i - 2 * N + (2 * N - h) in B;
      }
    }
  }

  /** Rotations compose. */
  lemma RotatedAgain(A: Poly, e: nat, h: nat, N: nat)
    requires 0 < N && h <= N
    ensures Rotated(Rem(Shift(A, e), Phi(N)), h, N) == Rem(Shift(A, e + h), Phi(N))
  {
    hide Rem, Phi, Deg, Rotated, Shift, Reduced;
    var B := Rem(Shift(A, e), Phi(N));
    ReducedDegree(B, 2 * N);
    RotatedIsRem(B, h, N);
    RemRem(Shift(A, e), Phi(N));
    ShiftCong(Shift(A, e), B, h, Phi(N));
    ShiftShift(A, e, h);
  }

  lemma MidIsRem(B: Poly, h: nat, N: nat)
    requires 0 < N && h <= N && Reduced(B, 2 * N)
    ensures RotatedMid(B, h, N) == Rem(Shift(B, N + h), Phi(N))
  {
    hide Rem, Phi, Rotated, Shift, Reduced;
    RotatedIsRem(B, N, N);
    RotatedAgain(B, N, h, N);
  }

  lemma RotatedTwice(B: Poly, R: Poly, h: nat, N: nat)
    requires 0 < N && h <= N && R == Rem(Shift(B, 2 * N), Phi(N))
    ensures Rotated(R, h, N) == Rem(Shift(B, 2 * N + h), Phi(N))
  {
    hide Rem, Phi, Rotated, Shift, Deg;
    RotatedAgain(B, 2 * N, h, N);
  }

  lemma HighIsRem(B: Poly, h: nat, N: nat)
    requires 0 < N && h <= N && Reduced(B, 2 * N)
    ensures RotatedHigh(B, h, N) == Rem(Shift(B, 2 * N + h), Phi(N))
  {
    hide Rem, Phi, Rotated, Shift, RotatedMid, Reduced;
    MidIsRem(B, N, N);
    assert N + N == 2 * N;
    RotatedTwice(B, RotatedMid(B, N, N), h, N);
  }

  /** The result of the three cases is what Transform.Lshift says. */
  lemma CaseResults(B: Poly, k: nat, N: nat)
    requires 0 < N && Reduced(B, 2 * N)
    ensures var k', R := k % (3 * N), Transform.Lshift(B, k, N);
      && Reduced(R, 2 * N) && k' < 3 * N
      && (k' == 0 ==> R == B)
      && (1 <= k' <= N ==> R == Rotated(B, k', N))
      && (N < k' <= 2 * N ==> R == MidResult(B, k' - N, N))
      && (2 * N < k' ==> R == RotatedHigh(B, k' - 2 * N, N))
  {
    hide Rem, Phi, Rotated, Shift, RotatedMid, RotatedHigh, Deg, Low, High;
    var k' := k % (3 * N);
    ReducedDegree(Transform.Lshift(B, k, N), 2 * N);
    ModUnique(k', 3 * N, 0, k');
    ShiftExponent(B, k, k', N);
    if k' == 0 {
      ShiftNone(B);
      ReducedDegree(B, 2 * N);
      RemSmall(B, Phi(N));
    } else if k' <= N {
      RotatedIsRem(B, k', N);
    } else if k' <= 2 * N {
      MidIsRem(B, k' - N, N);
    } else {
      HighIsRem(B, k' - 2 * N, N);
    }
  }

  lemma LastWord(N: nat)
    requires 0 < N
    ensures R(2 * N) > 0 ==> 64 * (WordsFor(2 * N) - 1) + R(2 * N) == 2 * N
    ensures R(2 * N) == 0 ==> 64 * WordsFor(2 * N) == 2 * N
  {
    hide WordsFor, I, R;
  }

  lemma ResultReduced(B: Poly, k: nat, N: nat)
    requires 0 < N
    ensures Reduced(Transform.Lshift(B, k, N), 2 * N)
  {
    hide Transform.Lshift;
    ReducedDegree(Transform.Lshift(B, k, N), 2 * N);
  }

}
