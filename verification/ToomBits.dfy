/** The phases of the bit-aligned three-way routine gf2x_mul_tc3 of gf2x-1.1/toom2.c
    between its recursive calls: evaluation at x and 1 + x, interpolation in place with
    the words that overlapping regions share kept aside, and recomposition. */
module ToomBits {
  import opened Polynomials
  import opened Words
  import opened WordMemory
  import opened BaseCase
  import opened ToomAlgebra
  import opened Karatsuba
  import opened OperandParts
  import opened ToomLoops
  import opened BitLoops

  // ---------------------------------------------------------------- evaluation

  /** Two writes next to each other hold one polynomial. */
  lemma HeldAppend(s: seq<Word>, p: nat, n: nat, m: nat, P: Poly)
    requires Held(s, p, n, P) && Held(s, p + n, m, High(P, 64 * n))
    ensures Held(s, p, n + m, P)
  {
    hide W, High;
    forall i | p <= i < p + n + m
      ensures s[i] == W(P, i - p)
    {
      if p + n <= i {
        WHigh(P, n, i - p - n);
      }
    }
  }

  /** Same words, same region. */
  lemma HeldEqual(s: seq<Word>, p: nat, n: nat, P: Poly, Q: Poly)
    requires Held(s, p, n, P) && forall i :: 0 <= i < n ==> W(P, i) == W(Q, i)
    ensures Held(s, p, n, Q)
  {
    hide W;
  }

  /** One more word behind those of P. */
  lemma HeldNext(s: seq<Word>, t: seq<Word>, p: nat, n: nat, P: Poly)
    requires Held(s, p, n, P) && Wrote(s, t, p + n, p + n) && p + n < |t| && t[p + n] == W(P, n)
    ensures Held(t, p, n + 1, P)
  {
    hide W;
  }

  /** W = x a1 + x^2 a2 over k + 1 words. */
  method EvaluateX(mem: array<Word>, a: nat, w: nat, k: nat, r: nat, ghost A0: Poly, ghost A1: Poly, ghost A2: Poly)
    requires 0 < r <= k && Parts(mem[..], a, k, r, A0, A1, A2) && w + k + 1 <= mem.Length
      && Apart(w, k + 1, a, 2 * k + r)
    modifies mem
    ensures Held(mem[..], w, k + 1, Add(Shift(A1, 1), Shift(A2, 2))) && Only(old(mem[..]), mem[..], w, k + 1)
  {
    hide W, Add, Xor, Fits, Held, Only, Wrote, Shift, Shl, Shr, Apart, High, Carry, Parts;
    ghost var s0 := mem[..];
    ghost var E := Add(A1, Shift(A2, 1));
    PartsSplit(s0, a, k, r, A0, A1, A2, w);
    var cy := AddLsh(mem, w, a + k, a + 2 * k, r, 1, A1, A2);
    ghost var s1 := mem[..];
    HeldKept(s0, s1, a + k + r, k - r, High(A1, 64 * r), w, r);
    cy := Add1(mem, w + r, a + k + r, k - r, cy, High(A1, 64 * r));
    ghost var s2 := mem[..];
    HeldKept(s1, s2, w, r, E, w + r, k - r);
    LongSumWords(A1, A2, k, r);
    HeldEqual(s2, w + r, k - r, Add(High(A1, 64 * r), Carry(A2, 1, r)), High(E, 64 * r));
    HeldAppend(s2, w, r, k - r, E);
    var top := Lsh1(mem, w, k, {}, E);
    assert Either(Shift(E, 1), {}) == Shift(E, 1);
    ghost var s3 := mem[..];
    WShiftCarry(E, 1, k);
    mem[w + k] := Xor(Shl(cy, 1), top);
    WroteTwo(s3, mem[..], w + k, w + k);
    HeldNext(s3, mem[..], w, k, Shift(E, 1));
    ShiftAdd(A1, Shift(A2, 1), 1);
    ShiftShift(A2, 1, 1);
    OnlyParts(s0, s1, s2, s3, mem[..], w, k, r);
  }

  lemma OnlyParts(s0: seq<Word>, s1: seq<Word>, s2: seq<Word>, s3: seq<Word>, s4: seq<Word>, w: nat, k: nat, r: nat)
    requires r <= k && Only(s0, s1, w, r) && Only(s1, s2, w + r, k - r) && Only(s2, s3, w, k)
      && Wrote(s3, s4, w + k, w + k)
    ensures Only(s0, s4, w, k + 1)
  {
  }

  lemma PartsSplit(s: seq<Word>, a: nat, k: nat, r: nat, A0: Poly, A1: Poly, A2: Poly, w: nat)
    requires 0 < r <= k && Parts(s, a, k, r, A0, A1, A2) && Apart(w, k + 1, a, 2 * k + r)
    ensures Held(s, a + k, r, A1) && Held(s, a + k + r, k - r, High(A1, 64 * r)) && Held(s, a + 2 * k, r, A2)
    ensures Fits(A1, k) && Fits(A2, r)
    ensures Apart(w, r, a + k, r) && Apart(w, r, a + 2 * k, r) && Apart(w, r, a + k + r, k - r)
    ensures Apart(w + r, k - r, a + k + r, k - r) && Apart(w + r, k - r, w, r)
  {
    hide W, Held, Fits, High, Low, Add;
    HeldPrefix(s, a + k, k, A1, r);
    SplitHeld(s, a + k, k, r, A1);
  }

  /** The words of A1 + x A2 above those of A2. */
  lemma LongSumWords(A1: Poly, A2: Poly, k: nat, r: nat)
    requires 0 < r <= k && Fits(A1, k) && Fits(A2, r)
    ensures var E := Add(A1, Shift(A2, 1)); var cy := Carry(A2, 1, r);
      && (forall i :: 0 <= i < k - r ==> W(Add(High(A1, 64 * r), cy), i) == W(High(E, 64 * r), i))
      && W(E, k) == (if k - r > 0 then {} else cy)
  {
    hide W, WordAt, Add, Xor, Fits, Shift, Shl, Shr, High, Carry;
    var E, cy := Add(A1, Shift(A2, 1)), Carry(A2, 1, r);
    forall i | 0 <= i < k - r
      ensures W(Add(High(A1, 64 * r), cy), i) == W(High(E, 64 * r), i)
    {
      WHigh(E, r, i);
      WHigh(A1, r, i);
      WAdd(High(A1, 64 * r), cy, i);
      WordWords(cy, i);
      WAdd(A1, Shift(A2, 1), r + i);
      ShiftTop(A2, r, i);
    }
    WAdd(A1, Shift(A2, 1), k);
    WBeyond(A1, k, k);
    ShiftTop(A2, r, k - r);
    XorEmptyLeft(W(Shift(A2, 1), k));
  }

  lemma ShiftTop(A2: Poly, r: nat, i: nat)
    requires 0 < r && Fits(A2, r)
    ensures W(Shift(A2, 1), r + i) == if i == 0 then Carry(A2, 1, r) else {}
  {
    hide W, Xor, Fits, Shift, Shl, Shr, Carry;
    WShiftCarry(A2, 1, r + i);
    WBeyond(A2, r, r + i);
    ShiftsOfZero(1);
    if i > 0 {
      WBeyond(A2, r, r + i - 1);
      CarryZero(A2, 1, r + i);
      XorEmptyLeft({});
    } else {
      XorEmptyLeft(Carry(A2, 1, r));
    }
  }

  lemma CarryZero(P: Poly, e: nat, j: nat)
    requires e <= 64 && 0 < j && W(P, j - 1) == {}
    ensures Carry(P, e, j) == {}
  {
    hide W, Shr;
    ShiftsOfZero(64 - e);
  }

  /** V = a0 + a1 + a2 over k words. */
  method SumParts(mem: array<Word>, a: nat, v: nat, k: nat, r: nat, ghost A0: Poly, ghost A1: Poly, ghost A2: Poly)
    requires 0 < r <= k && Parts(mem[..], a, k, r, A0, A1, A2) && v + k <= mem.Length && Apart(v, k, a, 2 * k + r)
    modifies mem
    ensures Held(mem[..], v, k, Add(Add(A0, A1), A2)) && Only(old(mem[..]), mem[..], v, k)
  {
    hide W, Add, Fits, Held, Only, Apart, Parts;
    ghost var s0 := mem[..];
    PartsSum(s0, a, k, r, A0, A1, A2, v);
    AddWords(mem, v, a, a + k, k, A0, A1);
    ghost var s1 := mem[..];
    HeldKept(s0, s1, a + 2 * k, r, A2, v, k);
    HeldPrefix(s1, v, k, Add(A0, A1), r);
    AddWords(mem, v, v, a + 2 * k, r, Add(A0, A1), A2);
    SumTop(s0, s1, mem[..], v, k, r, Add(A0, A1), A2);
  }

  lemma PartsSum(s: seq<Word>, a: nat, k: nat, r: nat, A0: Poly, A1: Poly, A2: Poly, v: nat)
    requires r <= k && Parts(s, a, k, r, A0, A1, A2) && Apart(v, k, a, 2 * k + r)
    ensures Held(s, a, k, A0) && Held(s, a + k, k, A1) && Held(s, a + 2 * k, r, A2) && Fits(A2, r)
    ensures Apart(v, k, a, k) && Apart(v, k, a + k, k) && Apart(v, k, a + 2 * k, r) && Apart(v, r, a + 2 * k, r)
  {
    hide W, Fits;
  }

  /** The high words of a sum with a shorter polynomial are those of the longer one. */
  lemma SumTop(s0: seq<Word>, s: seq<Word>, t: seq<Word>, v: nat, k: nat, r: nat, P: Poly, Q: Poly)
    requires r <= k && Only(s0, s, v, k) && Held(s, v, k, P) && Only(s, t, v, r) && Held(t, v, r, Add(P, Q))
      && Fits(Q, r)
    ensures Held(t, v, k, Add(P, Q)) && Only(s0, t, v, k)
  {
    hide W, Add, Fits;
    forall i | v <= i < v + k
      ensures t[i] == W(Add(P, Q), i - v)
    {
      if v + r <= i {
        WAddBeyond(P, Q, r, i - v);
      }
    }
  }

  /** V += W and W += a0, over k + 1 words. */
  method ShiftSums(mem: array<Word>, a: nat, w: nat, v: nat, k: nat, ghost A0: Poly, ghost Q: Poly, ghost S: Poly)
    requires Held(mem[..], a, k, A0) && Fits(A0, k) && Held(mem[..], w, k + 1, Q) && Held(mem[..], v, k, S)
      && Fits(S, k)
    requires v + k + 1 <= mem.Length && Apart(w, k + 1, v, k + 1) && Apart(w, k + 1, a, k) && Apart(v, k + 1, a, k)
    modifies mem
    ensures Held(mem[..], v, k + 1, Add(S, Q)) && Held(mem[..], w, k + 1, Add(Q, A0))
    ensures Only2(old(mem[..]), mem[..], w, k + 1, v, k + 1)
  {
    hide W, Add, Fits, Held, Only, Apart, Wrote;
    ghost var s0 := mem[..];
    ShiftApart(a, w, v, k);
    HeldPrefix(s0, w, k + 1, Q, k);
    HeldWord(mem, w, k + 1, Q, k);
    AddWords(mem, v, v, w, k, S, Q);
    ghost var s1 := mem[..];
    HeldKept(s0, s1, w, k + 1, Q, v, k);
    HeldKept(s0, s1, a, k, A0, v, k);
    HeldWord(mem, w, k + 1, Q, k);
    WAddBeyond(Q, S, k, k);
    mem[v + k] := mem[w + k];
    ghost var s2 := mem[..];
    WroteTwo(s1, s2, v + k, v + k);
    HeldNext(s1, s2, v, k, Add(S, Q));
    OneMore(s0, s1, s2, v, k);
    HeldKept(s0, s2, w, k + 1, Q, v, k + 1);
    HeldKept(s0, s2, a, k, A0, v, k + 1);
    HeldPrefix(s2, w, k + 1, Q, k);
    AddWords(mem, w, w, a, k, Q, A0);
    OnlyRefl(s2, w, k + 1);
    SumTop(s2, s2, mem[..], w, k + 1, k, Q, A0);
    HeldKept(s2, mem[..], v, k + 1, Add(S, Q), w, k + 1);
    OnlyBoth(s0, s2, mem[..], v, k + 1, w, k + 1);
  }

  lemma OnlyRefl(s: seq<Word>, q: nat, m: nat)
    ensures Only(s, s, q, m)
  {
  }

  lemma ShiftApart(a: nat, w: nat, v: nat, k: nat)
    requires Apart(w, k + 1, v, k + 1) && Apart(w, k + 1, a, k) && Apart(v, k + 1, a, k)
    ensures Apart(v, k, w, k) && Apart(v, k, w, k + 1) && Apart(v, k, a, k) && Apart(w, k, a, k)
    ensures Apart(v, k + 1, w, k + 1) && Apart(w, k + 1, v, k + 1)
  {
  }

  lemma OneMore(s: seq<Word>, t: seq<Word>, u: seq<Word>, v: nat, k: nat)
    requires Only(s, t, v, k) && Wrote(t, u, v + k, v + k)
    ensures Only(s, u, v, k + 1)
  {
  }

  lemma OnlyBoth(s: seq<Word>, t: seq<Word>, u: seq<Word>, v: nat, n: nat, w: nat, m: nat)
    requires Only(s, t, v, n) && Only(t, u, w, m)
    ensures Only2(s, u, w, m, v, n)
  {
  }

  // ---------------------------------------------------------------- interpolation

  /** c = (c + b) / x, where the word above those of c is hi: exact when bit 0 of the sum is 0. */
  method HalveSum(mem: array<Word>, c: nat, b: nat, n: nat, hi: Word, ghost C: Poly, ghost B: Poly)
    requires 0 < n && Held(mem[..], c, n, C) && Held(mem[..], b, n, B) && Apart(c, n, b, n)
    requires hi == W(Add(C, B), n)
    modifies mem
    ensures Held(mem[..], c, n, High(Add(C, B), 1)) && Only(old(mem[..]), mem[..], c, n)
  {
    hide W, Add, Held, Only, Wrote, High, Low, Shl, Or;
    ghost var s0 := mem[..];
    ghost var S := Add(C, B);
    var _ := Rsh1Add(mem, c, b, n, C, B);
    ghost var s1 := mem[..];
    HeldWord(mem, c, n, High(Low(S, 64 * n), 1), n - 1);
    mem[c + n - 1] := Or(mem[c + n - 1], Shl(hi, 63));
    WroteTwo(s1, mem[..], c + n - 1, c + n - 1);
    OnlySame(s1, c, n);
    WroteOnly(s0, s1, mem[..], c + n - 1, c + n - 1, c, n);
    TopBit(s1, mem[..], c, n, S, hi);
  }

  lemma TopBit(s: seq<Word>, t: seq<Word>, c: nat, n: nat, S: Poly, hi: Word)
    requires 0 < n && Held(s, c, n, High(Low(S, 64 * n), 1)) && Wrote(s, t, c + n - 1, c + n - 1) && hi == W(S, n)
    requires c + n <= |t| && t[c + n - 1] == Or(s[c + n - 1], Shl(hi, 63))
    ensures Held(t, c, n, High(S, 1))
  {
    hide W, High, Low, Shl, Or;
    forall i | c <= i < c + n
      ensures t[i] == W(High(S, 1), i - c)
    {
      HalfWord(S, n, i - c);
    }
  }

  /** Cutting S to n words affects the top word of S / x only. */
  lemma HalfWord(S: Poly, n: nat, j: nat)
    requires j < n
    ensures var w := W(High(Low(S, 64 * n), 1), j);
      W(High(S, 1), j) == if j < n - 1 then w else Or(w, Shl(W(S, n), 63))
  {
    hide W, High, Low, Shl, Shr, Or;
    WUnshift(S, 1, j);
    WUnshift(Low(S, 64 * n), 1, j);
    WLow(S, n, j);
    if j < n - 1 {
      WLow(S, n, j + 1);
    } else {
      LowFits(S, n);
      WBeyond(Low(S, 64 * n), n, n);
      ShiftsOfZero(63);
      OrEmpty(Shr(W(S, j), 1));
    }
  }

  lemma OrEmpty(w: Word)
    ensures Or(w, {}) == w
  {
  }

  /** The five values do not overlap; w3 has one word more than w0, w1 and w2. */
  predicate DisjointX(w0: nat, w1: nat, w2: nat, w3: nat, w4: nat, z: nat, z4: nat) {
    && Apart(w0, z, w1, z) && Apart(w0, z, w2, z) && Apart(w0, z, w3, z + 1) && Apart(w0, z, w4, z4)
    && Apart(w1, z, w2, z) && Apart(w1, z, w3, z + 1) && Apart(w1, z, w4, z4)
    && Apart(w2, z, w3, z + 1) && Apart(w2, z, w4, z4) && Apart(w3, z + 1, w4, z4)
  }

  /** The loops from the values at 1, x, 1 + x, 0 and infinity to c1 + c2 + c3, c2 + c3 and c3. */
  method InterpolateX(mem: array<Word>, w0: nat, w1: nat, w2: nat, w3: nat, w4: nat, k: nat, r: nat, cy: Word,
                      ghost c0: Poly, ghost c1: Poly, ghost c2: Poly, ghost c3: Poly, ghost c4: Poly,
                      ghost p: nat, ghost pn: nat, ghost q: nat, ghost qn: nat)
    requires 0 < r <= k && DisjointX(w0, w1, w2, w3, w4, 2 * k, 2 * r) && w3 + 2 * k + 1 <= mem.Length
    requires Inside(w1, 2 * k, p, pn, q, qn) && Inside(w2, 2 * k, p, pn, q, qn) && Inside(w3, 2 * k + 1, p, pn, q, qn)
    requires Fits(c0, 2 * k) && Fits(c4, 2 * r)
    requires var C := [c0, c1, c2, c3, c4];
      && Held(mem[..], w0, 2 * k, c0) && Held(mem[..], w4, 2 * r, c4)
      && Held(mem[..], w1, 2 * k, Eval(C, ONE)) && Fits(Eval(C, ONE), 2 * k)
      && Held(mem[..], w2, 2 * k, Eval(C, {1})) && cy == W(Eval(C, {1}), 2 * k)
      && Held(mem[..], w3, 2 * k + 1, Eval(C, {0, 1}))
    modifies mem
    ensures Held(mem[..], w0, 2 * k, c0) && Held(mem[..], w1, 2 * k, Add(Add(Eval([c0, c1, c2, c3, c4], ONE), c0), c4))
    ensures Held(mem[..], w2, 2 * k, Add(c2, c3)) && Held(mem[..], w3, 2 * k, c3) && Held(mem[..], w4, 2 * r, c4)
    ensures Only2(old(mem[..]), mem[..], p, pn, q, qn)
  {
    hide W, Add, Xor, Fits, Held, Only, Only2, Wrote, Shift, Twice, High, Eval, Apart, DisjointX, Inside, Carry;
    ghost var C := [c0, c1, c2, c3, c4];
    ghost var P1, P2, P3 := Eval(C, ONE), Eval(C, {1}), Eval(C, {0, 1});
    ghost var U, V, R := Add(P3, P2), Add(P1, c0), Add(c2, c3);
    ghost var z := 2 * k;
    Interpolation(c0, c1, c2, c3, c4, 1);
    XPairs(w0, w1, w2, w3, w4, 2 * k, 2 * r);
    ghost var s0 := mem[..];
    Only2Same(s0, p, pn, q, qn);

    AddBelow(mem, w3, w2, 2 * k, cy, P3, P2);
    ghost var s1 := mem[..];
    OnlyThen(s0, s0, s1, p, pn, q, qn, w3, z + 1);
    HeldKept(s0, s1, w0, z, c0, w3, z + 1);
    HeldKept(s0, s1, w1, z, P1, w3, z + 1);
    HeldKept(s0, s1, w2, z, P2, w3, z + 1);
    HeldKept(s0, s1, w4, 2 * r, c4, w3, z + 1);

    WAddBeyond(P2, c0, 2 * k, 2 * k);
    HalveSum(mem, w2, w0, 2 * k, cy, P2, c0);
    ghost var s2 := mem[..];
    OnlyThen(s0, s1, s2, p, pn, q, qn, w2, z);
    HeldKept(s1, s2, w0, z, c0, w2, z);
    HeldKept(s1, s2, w1, z, P1, w2, z);
    HeldKept(s1, s2, w3, z + 1, U, w2, z);
    HeldKept(s1, s2, w4, 2 * r, c4, w2, z);

    FirstQuotient(mem, w2, w3, w4, k, r, High(Add(P2, c0), 1), U, c4, R);
    ghost var s3 := mem[..];
    OnlyThen(s0, s2, s3, p, pn, q, qn, w2, z);
    HeldKept(s2, s3, w0, z, c0, w2, z);
    HeldKept(s2, s3, w1, z, P1, w2, z);
    HeldKept(s2, s3, w3, z + 1, U, w2, z);
    HeldKept(s2, s3, w4, 2 * r, c4, w2, z);

    SecondQuotient(mem, w0, w1, w2, w3, w4, k, r, c0, c3, c4, P1, U, R, p, pn, q, qn);
    OnlyThen2(s0, s3, mem[..], p, pn, q, qn);
  }

  lemma XPairs(w0: nat, w1: nat, w2: nat, w3: nat, w4: nat, z: nat, z4: nat)
    requires DisjointX(w0, w1, w2, w3, w4, z, z4) && z4 <= z
    ensures Apart(w3, z + 1, w2, z) && Apart(w3, z + 1, w0, z) && Apart(w3, z + 1, w1, z) && Apart(w3, z + 1, w4, z4)
    ensures Apart(w3, z, w1, z)
    ensures Apart(w2, z, w0, z) && Apart(w2, z, w1, z) && Apart(w2, z, w3, z) && Apart(w2, z, w3, z + 1)
      && Apart(w2, z, w4, z4)
    ensures Apart(w1, z, w0, z) && Apart(w1, z, w2, z) && Apart(w1, z, w3, z + 1) && Apart(w1, z, w4, z4)
      && Apart(w1, z4, w4, z4)
    ensures Apart(w1, z, w3, z)
  {
  }

  /** W3 += W2, where word 2k of W2 is kept in cy. */
  method AddBelow(mem: array<Word>, w3: nat, w2: nat, z: nat, cy: Word, ghost P3: Poly, ghost P2: Poly)
    requires Held(mem[..], w3, z + 1, P3) && Held(mem[..], w2, z, P2) && cy == W(P2, z) && Apart(w3, z + 1, w2, z)
    modifies mem
    ensures Held(mem[..], w3, z + 1, Add(P3, P2)) && Only(old(mem[..]), mem[..], w3, z + 1)
  {
    hide W, Add, Xor, Held, Only, Wrote;
    ghost var s0 := mem[..];
    HeldPrefix(s0, w3, z + 1, P3, z);
    ApartLess(w3, z, w2, z);
    AddWords(mem, w3, w3, w2, z, P3, P2);
    ghost var s1 := mem[..];
    HeldBeyond(s0, s1, w3, z, P3);
    WAdd(P3, P2, z);
    mem[w3 + z] := Xor(mem[w3 + z], cy);
    WroteTwo(s1, mem[..], w3 + z, w3 + z);
    HeldNext(s1, mem[..], w3, z, Add(P3, P2));
    OneMore(s0, s1, mem[..], w3, z);
  }

  lemma ApartLess(p: nat, n: nat, q: nat, m: nat)
    requires Apart(p, n + 1, q, m)
    ensures Apart(p, n, q, m)
  {
  }

  lemma HeldBeyond(s: seq<Word>, t: seq<Word>, p: nat, n: nat, P: Poly)
    requires Held(s, p, n + 1, P) && Only(s, t, p, n)
    ensures p + n < |t| && t[p + n] == W(P, n)
  {
    hide W;
  }

  /** W2 = (W2 + W3 + (1 + x^3) W4) / (1 + x). */
  method FirstQuotient(mem: array<Word>, w2: nat, w3: nat, w4: nat, k: nat, r: nat, ghost D: Poly, ghost U: Poly,
                       ghost c4: Poly, ghost R: Poly)
    requires 0 < r <= k && Held(mem[..], w2, 2 * k, D) && Held(mem[..], w3, 2 * k + 1, U)
      && Held(mem[..], w4, 2 * r, c4) && Fits(c4, 2 * r)
    requires Apart(w2, 2 * k, w3, 2 * k) && Apart(w2, 2 * k, w4, 2 * r)
    requires Add(Add(Add(D, U), c4), Shift(c4, 3)) == Twice(R, 1)
    modifies mem
    ensures Held(mem[..], w2, 2 * k, R) && Only(old(mem[..]), mem[..], w2, 2 * k)
  {
    hide W, Add, Xor, Fits, Held, Only, Wrote, Shift, Twice, Carry;
    ghost var s0, V := mem[..], Add(Add(Add(D, U), c4), Shift(c4, 3));
    HeldPrefix(s0, w3, 2 * k + 1, U, 2 * k);
    HeldSize(s0, w2, 2 * k, D);
    AddWords(mem, w2, w2, w3, 2 * k, D, U);
    ghost var s1 := mem[..];
    HeldKept(s0, s1, w4, 2 * r, c4, w2, 2 * k);
    HeldPrefix(s1, w2, 2 * k, Add(D, U), 2 * r);
    ApartPrefix(w2, 2 * k, 2 * r, w4);
    var cy := AddLsh13(mem, w2, w4, 2 * r, Add(D, U), c4);
    ghost var s2 := mem[..];
    HeldSize(s1, w2, 2 * k, Add(D, U));
    if r != k {
      mem[w2 + 2 * r] := Xor(mem[w2 + 2 * r], cy);
    }
    CarryAdded(s1, s2, mem[..], w2, 2 * k, 2 * r, Add(D, U), c4, cy);
    OnlyTrans(s0, s1, mem[..], w2, 2 * k);
    ghost var s3 := mem[..];
    var _ := DivOnePlusX(mem, w2, 2 * k, R);
    OnlyTrans(s0, s3, mem[..], w2, 2 * k);
  }

  lemma ApartPrefix(p: nat, n: nat, m: nat, q: nat)
    requires m <= n && Apart(p, n, q, m)
    ensures Apart(p, m, q, m)
  {
  }

  lemma CarryAdded(s: seq<Word>, t: seq<Word>, u: seq<Word>, c: nat, n: nat, m: nat, P: Poly, Q: Poly, cy: Word)
    requires 0 < m <= n && Held(s, c, n, P) && Only(s, t, c, m) && Held(t, c, m, Add(Add(P, Q), Shift(Q, 3)))
      && Fits(Q, m)
    requires cy == Carry(Q, 3, m) && c + n <= |t|
    requires u == if m < n then t[c + m := Xor(t[c + m], cy)] else t
    ensures Held(u, c, n, Add(Add(P, Q), Shift(Q, 3))) && Only(s, u, c, n)
  {
    hide W, Add, Xor, Fits, Shift, Carry, Shl;
    forall i | c <= i < c + n
      ensures u[i] == W(Add(Add(P, Q), Shift(Q, 3)), i - c)
    {
      var j := i - c;
      if m <= j {
        WAdd(Add(P, Q), Shift(Q, 3), j);
        WAddBeyond(P, Q, m, j);
        WShiftCarry(Q, 3, j);
        WBeyond(Q, m, j);
        ShiftsOfZero(3);
        XorEmptyLeft(Carry(Q, 3, j));
        XorEmptyLeft(W(P, j));
        if m < j {
          WBeyond(Q, m, j - 1);
          CarryZero(Q, 3, j);
        }
      }
    }
  }

  /** W1 += W0, W3 = (W3 + W1) / (x + x^2), W1 += W4. */
  method SecondQuotient(mem: array<Word>, w0: nat, w1: nat, w2: nat, w3: nat, w4: nat, k: nat, r: nat,
                        ghost c0: Poly, ghost c3: Poly, ghost c4: Poly, ghost P1: Poly, ghost U: Poly, ghost R: Poly,
                        ghost p: nat, ghost pn: nat, ghost q: nat, ghost qn: nat)
    requires 0 < r <= k && DisjointX(w0, w1, w2, w3, w4, 2 * k, 2 * r)
    requires Inside(w1, 2 * k, p, pn, q, qn) && Inside(w3, 2 * k + 1, p, pn, q, qn)
    requires Held(mem[..], w0, 2 * k, c0) && Held(mem[..], w1, 2 * k, P1) && Held(mem[..], w2, 2 * k, R)
    requires Held(mem[..], w3, 2 * k + 1, U) && Held(mem[..], w4, 2 * r, c4) && Fits(P1, 2 * k) && Fits(c0, 2 * k)
      && Fits(c4, 2 * r)
    requires Add(U, Add(P1, c0)) == Shift(Twice(c3, 1), 1)
    modifies mem
    ensures Held(mem[..], w0, 2 * k, c0) && Held(mem[..], w1, 2 * k, Add(Add(P1, c0), c4))
      && Held(mem[..], w2, 2 * k, R)
    ensures Held(mem[..], w3, 2 * k, c3) && Held(mem[..], w4, 2 * r, c4)
    ensures Only2(old(mem[..]), mem[..], p, pn, q, qn)
  {
    hide W, Add, Xor, Fits, Held, Only, Only2, Wrote, Shift, Twice, High, Apart, DisjointX, Inside;
    ghost var V, z := Add(P1, c0), 2 * k;
    ghost var s0 := mem[..];
    XPairs(w0, w1, w2, w3, w4, 2 * k, 2 * r);
    InsideLess(w3, z, z + 1, p, pn, q, qn);
    Only2Same(s0, p, pn, q, qn);

    HeldSize(s0, w1, 2 * k, P1);
    AddWords(mem, w1, w1, w0, 2 * k, P1, c0);
    ghost var s1 := mem[..];
    OnlyThen(s0, s0, s1, p, pn, q, qn, w1, z);
    HeldKept(s0, s1, w0, z, c0, w1, z);
    HeldKept(s0, s1, w2, z, R, w1, z);
    HeldKept(s0, s1, w3, z + 1, U, w1, z);
    HeldKept(s0, s1, w4, 2 * r, c4, w1, z);

    HeldWord(mem, w3, 2 * k + 1, U, 2 * k);
    HeldPrefix(s1, w3, 2 * k + 1, U, 2 * k);
    FitsAdd(P1, c0, 2 * k);
    WAddBeyond(U, V, 2 * k, 2 * k);
    HighShift(Twice(c3, 1), 1);
    HalveSum(mem, w3, w1, 2 * k, mem[w3 + 2 * k], U, V);
    ghost var s2 := mem[..];
    var _ := DivOnePlusX(mem, w3, 2 * k, c3);
    ghost var s3 := mem[..];
    OnlyTrans(s1, s2, s3, w3, z);
    OnlyThen(s0, s1, s3, p, pn, q, qn, w3, z);
    InsideLess(w3, z, z + 1, p, pn, q, qn);
    ThirdApart(w0, w1, w2, w3, w4, z, 2 * r);
    HeldKept(s1, s3, w0, z, c0, w3, z);
    HeldKept(s1, s3, w1, z, V, w3, z);
    HeldKept(s1, s3, w2, z, R, w3, z);
    HeldKept(s1, s3, w4, 2 * r, c4, w3, z);

    HeldPrefix(s3, w1, 2 * k, V, 2 * r);
    AddWords(mem, w1, w1, w4, 2 * r, V, c4);
    ghost var s4 := mem[..];
    OnlyRefl(s3, w1, z);
    SumTop(s3, s3, s4, w1, 2 * k, 2 * r, V, c4);
    OnlyThen(s0, s3, s4, p, pn, q, qn, w1, z);
    HeldKept(s3, s4, w0, z, c0, w1, z);
    HeldKept(s3, s4, w2, z, R, w1, z);
    HeldKept(s3, s4, w3, z, c3, w1, z);
    HeldKept(s3, s4, w4, 2 * r, c4, w1, z);
  }

  lemma ThirdApart(w0: nat, w1: nat, w2: nat, w3: nat, w4: nat, z: nat, z4: nat)
    requires DisjointX(w0, w1, w2, w3, w4, z, z4)
    ensures Apart(w3, z, w0, z) && Apart(w3, z, w1, z) && Apart(w3, z, w2, z) && Apart(w3, z, w4, z4)
  {
  }

  // ---------------------------------------------------------------- recomposition

  /** c0 + R y^2 + c4 y^4 with T = c1 + R and c3 outside becomes the product, y = x^(64 k). */
  lemma RecomposedWord(c0: Poly, R: Poly, c4: Poly, T: Poly, c3: Poly, k: nat, j: nat)
    requires Fits(c0, 2 * k) && Fits(R, 2 * k) && Fits(T, 2 * k) && Fits(c3, 2 * k)
    ensures var c1 := Add(T, R); var c2 := Add(R, c3);
      var C := Add(Add(Add(Add(c0, Y(c2, 2 * k)), Y(c4, 4 * k)), Y(c1, k)), Y(c3, 3 * k));
      && (j < k ==> W(C, j) == W(c0, j))
      && (k <= j < 2 * k ==> W(C, j) == Xor(W(c0, j), Xor(W(T, j - k), W(R, j - k))))
      && (2 * k <= j < 3 * k ==> W(C, j) == Xor(W(R, j - 2 * k), Xor(Xor(W(T, j - k), W(R, j - k)), W(c3, j - 2 * k))))
      && (3 * k <= j < 4 * k ==> W(C, j) == Xor(W(R, j - 2 * k), Xor(W(c3, j - 3 * k), W(c3, j - 2 * k))))
      && (4 * k <= j < 5 * k ==> W(C, j) == Xor(W(c4, j - 4 * k), W(c3, j - 3 * k)))
      && (5 * k <= j ==> W(C, j) == W(c4, j - 4 * k))
  {
    hide W, WordAt, Add, Xor, Fits, Y;
    var c1, c2 := Add(T, R), Add(R, c3);
    var C2 := Add(c0, Y(c2, 2 * k));
    var C3 := Add(C2, Y(c4, 4 * k));
    var C4 := Add(C3, Y(c1, k));
    WAdd(C4, Y(c3, 3 * k), j);
    WAdd(C3, Y(c1, k), j);
    WAdd(C2, Y(c4, 4 * k), j);
    WAdd(c0, Y(c2, 2 * k), j);
    WY(c3, 3 * k, j);
    WY(c1, k, j);
    WY(c4, 4 * k, j);
    WY(c2, 2 * k, j);
    WAdd(T, R, j - k);
    WAdd(R, c3, j - 2 * k);
    Around(c0, 2 * k, j);
    Around(T, 2 * k, j - k);
    Around(R, 2 * k, j - k);
    Around(R, 2 * k, j - 2 * k);
    Around(c3, 2 * k, j - 2 * k);
    Around(c3, 2 * k, j - 3 * k);
    if j < 4 * k {
      WZero(c4, j - 4 * k);
    }
    QuarterSums(W(c0, j), W(R, j - 2 * k), W(c3, j - 2 * k), W(c4, j - 4 * k), W(T, j - k), W(R, j - k),
      W(c3, j - 3 * k));
  }

  lemma Around(P: Poly, n: nat, j: int)
    requires Fits(P, n)
    ensures j < 0 || n <= j ==> W(P, j) == {}
  {
    if j < 0 {
      WZero(P, j);
    } else {
      WOutside(P, n, j);
    }
  }

  lemma QuarterSums(c0: Word, r2: Word, c32: Word, c4: Word, t: Word, r1: Word, c33: Word)
    ensures var s := Xor(Xor(Xor(Xor(c0, Xor(r2, c32)), c4), Xor(t, r1)), c33);
      && (r2 == c32 == c4 == t == r1 == c33 == {} ==> s == c0)
      && (r2 == c32 == c4 == c33 == {} ==> s == Xor(c0, Xor(t, r1)))
      && (c0 == c4 == c33 == {} ==> s == Xor(r2, Xor(Xor(t, r1), c32)))
      && (c0 == c4 == t == r1 == {} ==> s == Xor(r2, Xor(c33, c32)))
      && (c0 == r2 == c32 == t == r1 == {} ==> s == Xor(c4, c33))
      && (c0 == r2 == c32 == t == r1 == c33 == {} ==> s == c4)
  {
    hide Add;
  }

  /** The last four additions, all into regions of the result that still serve as operands. */
  method RecomposeX(mem: array<Word>, c: nat, k: nat, zt: nat, w1: nat, w3: nat,
                    ghost c0: Poly, ghost R: Poly, ghost c4: Poly, ghost T: Poly, ghost c3: Poly)
    requires k <= zt && c + 4 * k + zt <= mem.Length
    requires Held(mem[..], c, 2 * k, c0) && Held(mem[..], c + 2 * k, 2 * k, R) && Held(mem[..], c + 4 * k, zt, c4)
    requires Held(mem[..], w1, 2 * k, T) && Held(mem[..], w3, 2 * k, c3)
    requires Fits(c0, 2 * k) && Fits(R, 2 * k) && Fits(T, 2 * k) && Fits(c3, 2 * k)
    requires Apart(c, 4 * k + zt, w1, 2 * k) && Apart(c, 4 * k + zt, w3, 2 * k)
    modifies mem
    ensures Held(mem[..], c, 4 * k + zt,
                 Add(Add(Add(Add(c0, Y(Add(R, c3), 2 * k)), Y(c4, 4 * k)), Y(Add(T, R), k)), Y(c3, 3 * k)))
    ensures Only(old(mem[..]), mem[..], c, 4 * k + zt)
  {
    hide W, Add, Fits, Held, Only, Apart, High, Low;
    ghost var n, e := 4 * k + zt, 64 * k;
    ghost var s0 := mem[..];
    QuarterApart(c, k, zt, w1, w3);
    SplitHeld(s0, c, 2 * k, k, c0);
    SplitHeld(s0, w1, 2 * k, k, T);
    SplitHeld(s0, w3, 2 * k, k, c3);
    SplitHeld(s0, c + 2 * k, 2 * k, k, R);
    HeldPrefix(s0, w1, 2 * k, T, k);
    HeldPrefix(s0, w3, 2 * k, c3, k);
    HeldPrefix(s0, c + 2 * k, 2 * k, R, k);
    HeldPrefix(s0, c + 4 * k, zt, c4, k);
    Add3(mem, c + k, w1, c + 2 * k, k, High(c0, e), T, R);
    ghost var s1 := mem[..];
    HeldKept(s0, s1, c + 2 * k, k, R, c + k, k);
    HeldKept(s0, s1, w1 + k, k, High(T, e), c + k, k);
    HeldKept(s0, s1, c + 3 * k, k, High(R, e), c + k, k);
    HeldKept(s0, s1, w3, k, c3, c + k, k);
    Add4(mem, c + 2 * k, w1 + k, c + 3 * k, w3, k, R, High(T, e), High(R, e), c3);
    ghost var s2 := mem[..];
    HeldKept(s1, s2, c + 3 * k, k, High(R, e), c + 2 * k, k);
    HeldKept(s1, s2, w3, k, c3, c + 2 * k, k);
    HeldKept(s0, s1, w3 + k, k, High(c3, e), c + k, k);
    HeldKept(s1, s2, w3 + k, k, High(c3, e), c + 2 * k, k);
    Add3(mem, c + 3 * k, w3, w3 + k, k, High(R, e), c3, High(c3, e));
    ghost var s3 := mem[..];
    HeldKept(s0, s1, c + 4 * k, k, c4, c + k, k);
    HeldKept(s1, s2, c + 4 * k, k, c4, c + 2 * k, k);
    HeldKept(s2, s3, c + 4 * k, k, c4, c + 3 * k, k);
    HeldKept(s2, s3, w3 + k, k, High(c3, e), c + 3 * k, k);
    AddWords(mem, c + 4 * k, c + 4 * k, w3 + k, k, c4, High(c3, e));
    RecomposedX(s0, s1, s2, s3, mem[..], c, k, zt, c0, R, c4, T, c3);
  }

  lemma QuarterApart(c: nat, k: nat, zt: nat, w1: nat, w3: nat)
    requires k <= zt && Apart(c, 4 * k + zt, w1, 2 * k) && Apart(c, 4 * k + zt, w3, 2 * k)
    ensures Apart(c + k, k, w1, k) && Apart(c + k, k, c + 2 * k, k) && Apart(c + k, k, w1 + k, k)
      && Apart(c + k, k, c + 3 * k, k)
    ensures Apart(c + k, k, w3, k) && Apart(c + k, k, w3 + k, k) && Apart(c + k, k, c + 4 * k, k)
    ensures Apart(c + 2 * k, k, w1 + k, k) && Apart(c + 2 * k, k, c + 3 * k, k) && Apart(c + 2 * k, k, w3, k)
    ensures Apart(c + 2 * k, k, w3 + k, k) && Apart(c + 2 * k, k, c + 4 * k, k)
    ensures Apart(c + 3 * k, k, w3, k) && Apart(c + 3 * k, k, w3 + k, k) && Apart(c + 3 * k, k, c + 4 * k, k)
    ensures Apart(c + 4 * k, k, w3 + k, k)
  {
  }

  lemma RecomposedX(s0: seq<Word>, s1: seq<Word>, s2: seq<Word>, s3: seq<Word>, s4: seq<Word>, c: nat, k: nat, zt: nat,
                    c0: Poly, R: Poly, c4: Poly, T: Poly, c3: Poly)
    requires k <= zt && Held(s0, c, 2 * k, c0) && Held(s0, c + 4 * k, zt, c4)
    requires Fits(c0, 2 * k) && Fits(R, 2 * k) && Fits(T, 2 * k) && Fits(c3, 2 * k)
    requires Only(s0, s1, c + k, k) && Only(s1, s2, c + 2 * k, k) && Only(s2, s3, c + 3 * k, k)
      && Only(s3, s4, c + 4 * k, k)
    requires Held(s1, c + k, k, Add(High(c0, 64 * k), Add(T, R)))
    requires Held(s2, c + 2 * k, k, Add(R, Add(Add(High(T, 64 * k), High(R, 64 * k)), c3)))
    requires Held(s3, c + 3 * k, k, Add(High(R, 64 * k), Add(c3, High(c3, 64 * k))))
    requires Held(s4, c + 4 * k, k, Add(c4, High(c3, 64 * k)))
    ensures Held(s4, c, 4 * k + zt,
                 Add(Add(Add(Add(c0, Y(Add(R, c3), 2 * k)), Y(c4, 4 * k)), Y(Add(T, R), k)), Y(c3, 3 * k)))
    ensures Only(s0, s4, c, 4 * k + zt)
  {
    hide W, Add, Xor, Fits, High, Y;
    var C := Add(Add(Add(Add(c0, Y(Add(R, c3), 2 * k)), Y(c4, 4 * k)), Y(Add(T, R), k)), Y(c3, 3 * k));
    forall i | c <= i < c + 4 * k + zt
      ensures s4[i] == W(C, i - c)
    {
      var j := i - c;
      RecomposedWord(c0, R, c4, T, c3, k, j);
      if j < k {
      } else if j < 2 * k {
        SumWord3(High(c0, 64 * k), T, R, j - k);
        WHigh(c0, k, j - k);
      } else if j < 3 * k {
        SumWord4(R, High(T, 64 * k), High(R, 64 * k), c3, j - 2 * k);
        WHigh(T, k, j - 2 * k);
        WHigh(R, k, j - 2 * k);
      } else if j < 4 * k {
        SumWord3(High(R, 64 * k), c3, High(c3, 64 * k), j - 3 * k);
        WHigh(R, k, j - 3 * k);
        WHigh(c3, k, j - 3 * k);
      } else if j < 5 * k {
        WAdd(c4, High(c3, 64 * k), j - 4 * k);
        WHigh(c3, k, j - 4 * k);
      }
    }
  }

  lemma SumWord3(P: Poly, Q: Poly, R: Poly, j: nat)
    ensures W(Add(P, Add(Q, R)), j) == Xor(W(P, j), Xor(W(Q, j), W(R, j)))
  {
    hide W, Add, Xor;
    WAdd(P, Add(Q, R), j);
    WAdd(Q, R, j);
  }

  lemma SumWord4(P: Poly, Q: Poly, R: Poly, S: Poly, j: nat)
    ensures W(Add(P, Add(Add(Q, R), S)), j) == Xor(W(P, j), Xor(Xor(W(Q, j), W(R, j)), W(S, j)))
  {
    hide W, Add, Xor;
    WAdd(P, Add(Add(Q, R), S), j);
    WAdd(Add(Q, R), S, j);
    WAdd(Q, R, j);
  }
}
