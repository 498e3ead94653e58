/** The phases of the four-way routine gf2x_mul_tc4 of gf2x-1.1/toom2.c between its
    recursive calls. */
module ToomFourBits {
  import opened Polynomials
  import opened Words
  import opened WordMemory
  import opened BaseCase
  import opened ToomAlgebra
  import opened Karatsuba
  import opened OperandParts
  import opened BitLoops
  import opened ToomBits
  import opened ToomFour

  // ---------------------------------------------------------------- three written regions

  /** The contents s and t differ in three regions at most. */
  ghost predicate Only3(s: seq<Word>, t: seq<Word>, p: nat, pn: nat, q: nat, qn: nat, u: nat, un: nat) {
    |s| == |t| && forall i :: 0 <= i < |s| && !(p <= i < p + pn) && !(q <= i < q + qn) && !(u <= i < u + un)
                    ==> t[i] == s[i]
  }

  lemma Only3Same(s: seq<Word>, p: nat, pn: nat, q: nat, qn: nat, u: nat, un: nat)
    ensures Only3(s, s, p, pn, q, qn, u, un)
  {
  }

  lemma Only3Then(s: seq<Word>, t: seq<Word>, v: seq<Word>, p: nat, pn: nat, q: nat, qn: nat, u: nat, un: nat, x: nat,
                  xn: nat)
    requires Only3(s, t, p, pn, q, qn, u, un) && Only(t, v, x, xn)
    requires (p <= x && x + xn <= p + pn) || (q <= x && x + xn <= q + qn) || (u <= x && x + xn <= u + un)
    ensures Only3(s, v, p, pn, q, qn, u, un)
  {
  }

  lemma HeldKept3(s: seq<Word>, t: seq<Word>, x: nat, k: nat, P: Poly, p: nat, pn: nat, q: nat, qn: nat, u: nat,
                  un: nat)
    requires Held(s, x, k, P) && Only3(s, t, p, pn, q, qn, u, un) && Apart(p, pn, x, k) && Apart(q, qn, x, k)
      && Apart(u, un, x, k)
    ensures Held(t, x, k, P)
  {
    hide W;
  }

  lemma Only3Inside(s: seq<Word>, t: seq<Word>, p: nat, pn: nat, q: nat, qn: nat, u: nat, un: nat, c: nat, cn: nat,
                    stk: nat, sn: nat)
    requires Only3(s, t, p, pn, q, qn, u, un)
    requires Inside(p, pn, c, cn, stk, sn) && Inside(q, qn, c, cn, stk, sn) && Inside(u, un, c, cn, stk, sn)
    ensures Only2(s, t, c, cn, stk, sn)
  {
  }

  // ---------------------------------------------------------------- composite loops

  /** w = p + x q, where q has r of the n words; the word above is returned. */
  method LongLsh1(mem: array<Word>, w: nat, p: nat, q: nat, n: nat, r: nat, ghost P: Poly, ghost Q: Poly)
      returns (cy: Word)
    requires 0 < r <= n && Held(mem[..], p, n, P) && Held(mem[..], q, r, Q) && Fits(P, n) && Fits(Q, r)
    requires w + n <= mem.Length && Apart(w, n, p, n) && Apart(w, n, q, r)
    modifies mem
    ensures Held(mem[..], w, n, Add(P, Shift(Q, 1))) && Only(old(mem[..]), mem[..], w, n)
      && cy == W(Add(P, Shift(Q, 1)), n)
  {
    hide W, Add, Fits, Held, Only, Shift, Apart, High, Low, Carry;
    ghost var s0 := mem[..];
    ghost var E := Add(P, Shift(Q, 1));
    LongApart(w, p, q, n, r);
    HeldPrefix(s0, p, n, P, r);
    SplitHeld(s0, p, n, r, P);
    cy := AddLsh(mem, w, p, q, r, 1, P, Q);
    ghost var s1 := mem[..];
    HeldKept(s0, s1, p + r, n - r, High(P, 64 * r), w, r);
    cy := Add1(mem, w + r, p + r, n - r, cy, High(P, 64 * r));
    ghost var s2 := mem[..];
    HeldKept(s1, s2, w, r, E, w + r, n - r);
    LongSumWords(P, Q, n, r);
    HeldEqual(s2, w + r, n - r, Add(High(P, 64 * r), Carry(Q, 1, r)), High(E, 64 * r));
    HeldAppend(s2, w, r, n - r, E);
    OnlyAdjacent(s0, s1, s2, w, n, r);
  }

  lemma LongApart(w: nat, p: nat, q: nat, n: nat, r: nat)
    requires r <= n && Apart(w, n, p, n) && Apart(w, n, q, r)
    ensures Apart(w, r, p, r) && Apart(w, r, q, r) && Apart(w, r, p + r, n - r) && Apart(w + r, n - r, p + r, n - r)
      && Apart(w + r, n - r, w, r)
  {
  }

  lemma OnlyAdjacent(s: seq<Word>, t: seq<Word>, u: seq<Word>, w: nat, n: nat, r: nat)
    requires r <= n && Only(s, t, w, r) && Only(t, u, w + r, n - r)
    ensures Only(s, u, w, n)
  {
  }

  /** g = x + x g over k + 1 words: the word above is moved up by hand. */
  method ShiftIn(mem: array<Word>, g: nat, x: nat, k: nat, ghost P: Poly, ghost X: Poly)
    requires Held(mem[..], g, k + 1, P) && Held(mem[..], x, k, X) && Fits(X, k) && Apart(g, k, x, k)
    modifies mem
    ensures Held(mem[..], g, k + 1, Add(X, Shift(P, 1))) && Only(old(mem[..]), mem[..], g, k + 1)
  {
    hide W, Add, Xor, Fits, Held, Only, Shift, Apart, Shl, Wrote, Carry;
    ghost var s0 := mem[..];
    HeldWord(mem, g, k + 1, P, k);
    HeldPrefix(s0, g, k + 1, P, k);
    var u := Shl(mem[g + k], 1);
    var cy := AddLsh(mem, g, x, g, k, 1, X, P);
    ghost var s1 := mem[..];
    HeldBeyond(s0, s1, g, k, P);
    mem[g + k] := Xor(u, cy);
    WroteTwo(s1, mem[..], g + k, g + k);
    WAddBeyond(Shift(P, 1), X, k, k);
    WShiftCarry(P, 1, k);
    HeldNext(s1, mem[..], g, k, Add(X, Shift(P, 1)));
    OneMore(s0, s1, mem[..], g, k);
  }

  /** g = x + x e over k + 1 words, where word k of e is cy. */
  method ShiftInCarry(mem: array<Word>, g: nat, x: nat, k: nat, cy: Word, ghost P: Poly, ghost X: Poly)
    requires Held(mem[..], g, k, P) && cy == W(P, k) && Held(mem[..], x, k, X) && Fits(X, k) && Apart(g, k + 1, x, k)
      && g + k < mem.Length
    modifies mem
    ensures Held(mem[..], g, k + 1, Add(X, Shift(P, 1))) && Only(old(mem[..]), mem[..], g, k + 1)
  {
    hide W, Add, Xor, Fits, Held, Only, Shift, Shl, Wrote, Carry;
    ghost var s0 := mem[..];
    var top := AddLsh(mem, g, x, g, k, 1, X, P);
    ghost var s1 := mem[..];
    mem[g + k] := Xor(Shl(cy, 1), top);
    WroteTwo(s1, mem[..], g + k, g + k);
    WAddBeyond(Shift(P, 1), X, k, k);
    WShiftCarry(P, 1, k);
    HeldNext(s1, mem[..], g, k, Add(X, Shift(P, 1)));
    OneMore(s0, s1, mem[..], g, k);
  }

  /** Where the four parts of an operand are. */
  lemma FourHeld(s: seq<Word>, t: seq<Word>, a: nat, k: nat, r: nat, A0: Poly, A1: Poly, A2: Poly, A3: Poly, w: nat,
                 n: nat)
    requires r <= k && Parts4(s, a, k, r, A0, A1, A2, A3) && Only(s, t, w, n) && Apart(w, n, a, 3 * k + r)
    ensures Held(t, a, k, A0) && Held(t, a + k, k, A1) && Held(t, a + 2 * k, k, A2) && Held(t, a + 3 * k, r, A3)
    ensures Fits(A0, k) && Fits(A1, k) && Fits(A2, k) && Fits(A3, r)
    ensures Apart(w, n, a, k) && Apart(w, n, a + k, k) && Apart(w, n, a + 2 * k, k) && Apart(w, n, a + 3 * k, r)
  {
    hide W, Fits, Held, Only;
    HeldKept(s, t, a, k, A0, w, n);
    HeldKept(s, t, a + k, k, A1, w, n);
    HeldKept(s, t, a + 2 * k, k, A2, w, n);
    HeldKept(s, t, a + 3 * k, r, A3, w, n);
  }

  /** s = a0 + a3 + a1 + a2. */
  method SumFourX(mem: array<Word>, a: nat, s: nat, k: nat, r: nat, ghost A0: Poly, ghost A1: Poly, ghost A2: Poly,
                  ghost A3: Poly)
    requires 0 < r <= k && Parts4(mem[..], a, k, r, A0, A1, A2, A3) && s + k <= mem.Length && Apart(s, k, a, 3 * k + r)
    modifies mem
    ensures Held(mem[..], s, k, Add(Add(A0, A3), Add(A1, A2))) && Only(old(mem[..]), mem[..], s, k)
  {
    hide W, Add, Fits, Held, Only, Apart, High, Low, Parts4;
    ghost var s0 := mem[..];
    OnlyRefl(s0, s, k);
    FourHeld(s0, s0, a, k, r, A0, A1, A2, A3, s, k);
    LongApart(s, a, a + 3 * k, k, r);
    HeldPrefix(s0, a, k, A0, r);
    SplitHeld(s0, a, k, r, A0);
    AddWords(mem, s, a, a + 3 * k, r, A0, A3);
    ghost var s1 := mem[..];
    HeldKept(s0, s1, a + r, k - r, High(A0, 64 * r), s, r);
    var cy := Add1(mem, s + r, a + r, k - r, {}, High(A0, 64 * r));
    ghost var s2 := mem[..];
    HeldKept(s1, s2, s, r, Add(A0, A3), s + r, k - r);
    AddNothing(High(A0, 64 * r));
    UpperSum(A0, A3, k, r);
    HeldEqual(s2, s + r, k - r, High(A0, 64 * r), High(Add(A0, A3), 64 * r));
    HeldAppend(s2, s, r, k - r, Add(A0, A3));
    OnlyAdjacent(s0, s1, s2, s, k, r);
    FourHeld(s0, s2, a, k, r, A0, A1, A2, A3, s, k);
    Add3(mem, s, a + k, a + 2 * k, k, Add(A0, A3), A1, A2);
    OnlyTrans(s0, s2, mem[..], s, k);
  }

  lemma UpperSum(P: Poly, Q: Poly, k: nat, r: nat)
    requires r <= k && Fits(Q, r)
    ensures forall i :: 0 <= i < k - r ==> W(High(P, 64 * r), i) == W(High(Add(P, Q), 64 * r), i)
  {
    hide W, Add, Fits, High;
    forall i | 0 <= i < k - r
      ensures W(High(P, 64 * r), i) == W(High(Add(P, Q), 64 * r), i)
    {
      WHigh(P, r, i);
      WHigh(Add(P, Q), r, i);
      WAddBeyond(P, Q, r, r + i);
    }
  }

  /** g = a1 + x (a2 + x a3). */
  method NestFour(mem: array<Word>, a: nat, g: nat, k: nat, r: nat, ghost A0: Poly, ghost A1: Poly, ghost A2: Poly,
                  ghost A3: Poly)
    requires 0 < r <= k && Parts4(mem[..], a, k, r, A0, A1, A2, A3) && g + k + 1 <= mem.Length
      && Apart(g, k + 1, a, 3 * k + r)
    modifies mem
    ensures Held(mem[..], g, k + 1, Add(A1, Shift(Add(A2, Shift(A3, 1)), 1))) && Only(old(mem[..]), mem[..], g, k + 1)
  {
    hide W, Add, Fits, Held, Only, Apart, Shift, Parts4;
    ghost var s0 := mem[..];
    OnlyRefl(s0, g, k + 1);
    FourHeld(s0, s0, a, k, r, A0, A1, A2, A3, g, k + 1);
    NestApart(g, a, k, r);
    var cy := LongLsh1(mem, g, a + 2 * k, a + 3 * k, k, r, A2, A3);
    ghost var s1 := mem[..];
    OnlyWiden(s0, s1, g, k, k + 1);
    FourHeld(s0, s1, a, k, r, A0, A1, A2, A3, g, k + 1);
    ShiftInCarry(mem, g, a + k, k, cy, Add(A2, Shift(A3, 1)), A1);
    OnlyTrans(s0, s1, mem[..], g, k + 1);
  }

  lemma NestApart(g: nat, a: nat, k: nat, r: nat)
    requires r <= k && Apart(g, k + 1, a, 3 * k + r)
    ensures Apart(g, k, a, k) && Apart(g, k, a + 2 * k, k) && Apart(g, k, a + 3 * k, r) && Apart(g, k + 1, a + k, k)
      && Apart(g, k, a + k, k)
    ensures Apart(g, k + 1, a + 3 * k, r) && Apart(g, r, a + 3 * k, r)
  {
  }

  lemma OnlyWiden(s: seq<Word>, t: seq<Word>, g: nat, n: nat, m: nat)
    requires Only(s, t, g, n) && n <= m
    ensures Only(s, t, g, m)
  {
  }

  /** h = S + x (G + (1 + x) a3), and then g = a0 + x G. */
  method FinishFirst(mem: array<Word>, a: nat, s: nat, g: nat, h: nat, k: nat, r: nat,
                     ghost A0: Poly, ghost A1: Poly, ghost A2: Poly, ghost A3: Poly, ghost S: Poly, ghost G: Poly)
    requires 0 < r <= k && Parts4(mem[..], a, k, r, A0, A1, A2, A3) && h + k + 1 <= mem.Length
    requires Held(mem[..], s, k, S) && Fits(S, k) && Held(mem[..], g, k + 1, G) && Fits(G, k + 1)
    requires Apart(h, k + 1, a, 3 * k + r) && Apart(g, k + 1, a, 3 * k + r) && Apart(h, k + 1, s, k)
      && Apart(g, k + 1, s, k)
    requires Apart(h, k + 1, g, k + 1) && Apart(g, k + 1, h, k + 1)
    modifies mem
    ensures Held(mem[..], s, k, S) && Held(mem[..], h, k + 1, Add(S, Shift(Add(Add(G, Shift(A3, 1)), A3), 1)))
    ensures Held(mem[..], g, k + 1, Add(A0, Shift(G, 1)))
    ensures Only2(old(mem[..]), mem[..], g, k + 1, h, k + 1)
  {
    hide W, Add, Fits, Held, Only, Only2, Apart, Shift, Parts4;
    ghost var s0 := mem[..];
    ghost var J := Add(Add(G, Shift(A3, 1)), A3);
    OnlyRefl(s0, h, k + 1);
    FourHeld(s0, s0, a, k, r, A0, A1, A2, A3, h, k + 1);
    NestApart(h, a, k, r);
    NestApart(g, a, k, r);
    SApart(h, s, k);
    var cy := LongLsh1(mem, h, g, a + 3 * k, k + 1, r, G, A3);
    ghost var s1 := mem[..];
    FourHeld(s0, s1, a, k, r, A0, A1, A2, A3, h, k + 1);
    HeldKept(s0, s1, s, k, S, h, k + 1);
    HeldKept(s0, s1, g, k + 1, G, h, k + 1);
    HeldPrefix(s1, h, k + 1, Add(G, Shift(A3, 1)), r);
    AddWords(mem, h, h, a + 3 * k, r, Add(G, Shift(A3, 1)), A3);
    ghost var s2 := mem[..];
    SumTop(s0, s1, s2, h, k + 1, r, Add(G, Shift(A3, 1)), A3);
    HeldKept(s0, s2, s, k, S, h, k + 1);
    ShiftIn(mem, h, s, k, J, S);
    ghost var s3 := mem[..];
    OnlyTrans(s0, s2, s3, h, k + 1);
    HeldKept(s0, s3, s, k, S, h, k + 1);
    HeldKept(s0, s3, g, k + 1, G, h, k + 1);
    FourHeld(s0, s3, a, k, r, A0, A1, A2, A3, h, k + 1);
    ShiftIn(mem, g, a, k, G, A0);
    ghost var s4 := mem[..];
    HeldKept(s3, s4, s, k, S, g, k + 1);
    HeldKept(s3, s4, h, k + 1, Add(S, Shift(J, 1)), g, k + 1);
    OnlyBoth(s0, s3, s4, h, k + 1, g, k + 1);
  }

  lemma SApart(h: nat, s: nat, k: nat)
    requires Apart(h, k + 1, s, k)
    ensures Apart(h, k, s, k)
  {
  }

  /** Values at 1, x and 1 + x of one operand: at s, g and h. */
  method EvaluateFirst(mem: array<Word>, a: nat, s: nat, g: nat, h: nat, k: nat, r: nat,
                       ghost A0: Poly, ghost A1: Poly, ghost A2: Poly, ghost A3: Poly)
    requires 0 < r <= k && Parts4(mem[..], a, k, r, A0, A1, A2, A3)
    requires s + k <= mem.Length && g + k + 1 <= mem.Length && h + k + 1 <= mem.Length
    requires Apart(s, k, a, 3 * k + r) && Apart(h, k + 1, a, 3 * k + r) && Apart(g, k + 1, a, 3 * k + r)
    requires Apart(h, k + 1, s, k) && Apart(g, k + 1, s, k) && Apart(h, k + 1, g, k + 1)
    modifies mem
    ensures var p := [A0, A1, A2, A3];
      && Held(mem[..], s, k, Eval(p, ONE)) && Held(mem[..], g, k + 1, Eval(p, {1}))
      && Held(mem[..], h, k + 1, Eval(p, {0, 1}))
    ensures Only3(old(mem[..]), mem[..], s, k, g, k + 1, h, k + 1)
  {
    hide W, Add, Fits, Held, Only, Only2, Only3, Apart, Shift, Parts4, Eval;
    ghost var s0 := mem[..];
    ghost var S, G := Add(Add(A0, A3), Add(A1, A2)), Add(A1, Shift(Add(A2, Shift(A3, 1)), 1));
    Only3Same(s0, s, k, g, k + 1, h, k + 1);
    SumFourX(mem, a, s, k, r, A0, A1, A2, A3);
    ghost var s1 := mem[..];
    Only3Then(s0, s0, s1, s, k, g, k + 1, h, k + 1, s, k);
    FourKept(s0, s1, a, k, r, A0, A1, A2, A3, s, k);
    NestFour(mem, a, g, k, r, A0, A1, A2, A3);
    ghost var s2 := mem[..];
    Only3Then(s0, s1, s2, s, k, g, k + 1, h, k + 1, g, k + 1);
    FourKept(s1, s2, a, k, r, A0, A1, A2, A3, g, k + 1);
    HeldKept(s1, s2, s, k, S, g, k + 1);
    FirstFits(s2, a, k, r, A0, A1, A2, A3);
    ApartSwap(h, k + 1, g, k + 1);
    FinishFirst(mem, a, s, g, h, k, r, A0, A1, A2, A3, S, G);
    Only3Then2(s0, s2, mem[..], s, k, g, k + 1, h, k + 1);
    FirstValues(A0, A1, A2, A3);
  }

  lemma ApartSwap(p: nat, n: nat, q: nat, m: nat)
    requires Apart(p, n, q, m)
    ensures Apart(q, m, p, n)
  {
  }

  lemma Only3Then2(s: seq<Word>, t: seq<Word>, v: seq<Word>, p: nat, pn: nat, q: nat, qn: nat, u: nat, un: nat)
    requires Only3(s, t, p, pn, q, qn, u, un) && Only2(t, v, q, qn, u, un)
    ensures Only3(s, v, p, pn, q, qn, u, un)
  {
  }

  lemma FourKept(s: seq<Word>, t: seq<Word>, a: nat, k: nat, r: nat, A0: Poly, A1: Poly, A2: Poly, A3: Poly, w: nat,
                 n: nat)
    requires r <= k && Parts4(s, a, k, r, A0, A1, A2, A3) && Only(s, t, w, n) && Apart(w, n, a, 3 * k + r)
    ensures Parts4(t, a, k, r, A0, A1, A2, A3)
  {
    hide W, Fits, Held, Only, Apart;
    FourHeld(s, t, a, k, r, A0, A1, A2, A3, w, n);
  }

  lemma FirstFits(s: seq<Word>, a: nat, k: nat, r: nat, A0: Poly, A1: Poly, A2: Poly, A3: Poly)
    requires r <= k && Parts4(s, a, k, r, A0, A1, A2, A3)
    ensures Fits(Add(Add(A0, A3), Add(A1, A2)), k) && Fits(Add(A1, Shift(Add(A2, Shift(A3, 1)), 1)), k + 1)
  {
    hide Fits, Add, Shift, Held;
    FitsLess(A3, r, k);
    FitsAdd(A0, A3, k);
    FitsAdd(A1, A2, k);
    FitsAdd(Add(A0, A3), Add(A1, A2), k);
    ShiftAdd(A2, Shift(A3, 1), 1);
    ShiftShift(A3, 1, 1);
    FitsShiftAny(A2, k, 1);
    FitsShiftAny(A3, k, 2);
    FitsAdd(Shift(A2, 1), Shift(A3, 2), k + 1);
    FitsLess(A1, k, k + 1);
    FitsAdd(A1, Add(Shift(A2, 1), Shift(A3, 2)), k + 1);
  }

  /** The nested forms are the values. */
  lemma FirstValues(A0: Poly, A1: Poly, A2: Poly, A3: Poly)
    ensures var p := [A0, A1, A2, A3];
      var (S, G) := (Add(Add(A0, A3), Add(A1, A2)), Add(A1, Shift(Add(A2, Shift(A3, 1)), 1)));
      && S == Eval(p, ONE) && Add(A0, Shift(G, 1)) == Eval(p, {1})
      && Add(S, Shift(Add(Add(G, Shift(A3, 1)), A3), 1)) == Eval(p, {0, 1})
  {
    hide Add, Shift, Eval;
    FourParts(A0, A1, A2, A3, 1);
    ShiftAdd(A2, Shift(A3, 1), 1);
    ShiftShift(A3, 1, 1);
    var G := Add(A1, Add(Shift(A2, 1), Shift(A3, 2)));
    ShiftAdd(A1, Add(Shift(A2, 1), Shift(A3, 2)), 1);
    ShiftAdd(Shift(A2, 1), Shift(A3, 2), 1);
    ShiftShift(A2, 1, 1);
    ShiftShift(A3, 2, 1);
    ShiftAdd(Add(G, Shift(A3, 1)), A3, 1);
    ShiftAdd(G, Shift(A3, 1), 1);
    FirstValueAtoms(A0, A1, Shift(A1, 1), A2, Shift(A2, 2), A3, Shift(A3, 1), Shift(A3, 2), Shift(A3, 3));
  }

  lemma FirstValueAtoms(a0: Poly, a1: Poly, a1a: Poly, a2: Poly, a2b: Poly, a3: Poly, a3a: Poly, a3b: Poly, a3c: Poly)
    ensures Add(Add(a0, a3), Add(a1, a2)) == Add(Add(Add(a0, a1), a2), a3)
    ensures var xG := Add(a1a, Add(a2b, a3c));
      && Add(a0, xG) == Add(Add(Add(a1a, a2b), a3c), a0)
      && Add(Add(Add(a0, a3), Add(a1, a2)), Add(Add(xG, a3b), a3a))
           == Add(Add(Add(Add(Add(a0, a1), a2), a3), Add(Add(a1a, a2b), a3c)), Add(a3a, a3b))
  {
    hide Add;
  }

  // ---------------------------------------------------------------- the reversed values

  /** g = x a2 + x^2 (a1 + x a0). */
  method NestReversed(mem: array<Word>, a: nat, g: nat, k: nat, r: nat, ghost A0: Poly, ghost A1: Poly, ghost A2: Poly,
                      ghost A3: Poly)
    requires 0 < r <= k && Parts4(mem[..], a, k, r, A0, A1, A2, A3) && g + k + 1 <= mem.Length
      && Apart(g, k + 1, a, 3 * k + r)
    modifies mem
    ensures Held(mem[..], g, k + 1, Add(Shift(A2, 1), Shift(Add(A1, Shift(A0, 1)), 2)))
      && Only(old(mem[..]), mem[..], g, k + 1)
  {
    hide W, Add, Xor, Fits, Held, Only, Apart, Shift, Shl, Carry, Parts4, Wrote;
    ghost var s0 := mem[..];
    ghost var N := Add(A1, Shift(A0, 1));
    OnlyRefl(s0, g, k + 1);
    FourHeld(s0, s0, a, k, r, A0, A1, A2, A3, g, k + 1);
    NestApart(g, a, k, r);
    CarryIs(A1, A0, 1, k);
    var cy := AddLsh(mem, g, a + k, a, k, 1, A1, A0);
    ghost var s1 := mem[..];
    OnlyWiden(s0, s1, g, k, k + 1);
    FourHeld(s0, s1, a, k, r, A0, A1, A2, A3, g, k + 1);
    var top := AddLsh1Lsh2(mem, g, a + 2 * k, g, k, A2, N);
    ghost var s2 := mem[..];
    mem[g + k] := Xor(Shl(cy, 2), top);
    WroteTwo(s2, mem[..], g + k, g + k);
    ReversedTop(A2, N, k);
    HeldNext(s2, mem[..], g, k, Add(Shift(A2, 1), Shift(N, 2)));
    OneMore(s1, s2, mem[..], g, k);
    OnlyTrans(s0, s1, mem[..], g, k + 1);
  }

  lemma ReversedTop(A2: Poly, N: Poly, k: nat)
    requires Fits(A2, k)
    ensures W(Add(Shift(A2, 1), Shift(N, 2)), k) == Xor(Shl(W(N, k), 2), Xor(Carry(A2, 1, k), Carry(N, 2, k)))
  {
    hide W, Add, Xor, Fits, Shift, Shl, Carry;
    WAdd(Shift(A2, 1), Shift(N, 2), k);
    WShiftCarry(A2, 1, k);
    WShiftCarry(N, 2, k);
    WBeyond(A2, k, k);
    ShiftsOfZero(1);
    XorEmptyLeft(Carry(A2, 1, k));
    ThreeXors(Carry(A2, 1, k), Shl(W(N, k), 2), Carry(N, 2, k));
  }

  lemma ThreeXors(u: Word, v: Word, w: Word)
    ensures Xor(u, Xor(v, w)) == Xor(v, Xor(u, w))
  {
    hide Add;
  }

  /** s = S + (x + x^2) a0 over k + 1 words. */
  method AddBottom(mem: array<Word>, a: nat, s: nat, k: nat, ghost A0: Poly, ghost S: Poly)
    requires 0 < k && Held(mem[..], a, k, A0) && Fits(A0, k) && Held(mem[..], s, k, S) && Fits(S, k)
      && s + k < mem.Length
    requires Apart(s, k + 1, a, k)
    modifies mem
    ensures Held(mem[..], s, k + 1, Add(S, Mul(A0, {1, 2}))) && Only(old(mem[..]), mem[..], s, k + 1)
  {
    hide W, Add, Mul, Fits, Held, Only, Wrote;
    ghost var s0 := mem[..];
    var cy := AddMultiple(mem, s, a, k, {1, 2}, S, A0);
    ghost var s1 := mem[..];
    mem[s + k] := cy;
    WroteTwo(s1, mem[..], s + k, s + k);
    WAddBeyond(Mul(A0, {1, 2}), S, k, k);
    HeldNext(s1, mem[..], s, k, Add(S, Mul(A0, {1, 2})));
    OneMore(s0, s1, mem[..], s, k);
  }

  /** Values at 1/(1 + x) and 1/x of one operand, up to a power: at h and g; h may be s. */
  method EvaluateSecond(mem: array<Word>, a: nat, s: nat, g: nat, h: nat, k: nat, r: nat,
                        ghost A0: Poly, ghost A1: Poly, ghost A2: Poly, ghost A3: Poly, ghost S: Poly)
    requires 0 < r <= k && Parts4(mem[..], a, k, r, A0, A1, A2, A3) && Held(mem[..], s, k, S)
      && S == Eval([A0, A1, A2, A3], ONE)
    requires s + k + 1 <= mem.Length && g + k + 1 <= mem.Length && h + k + 1 <= mem.Length
    requires Apart(s, k + 1, a, 3 * k + r) && Apart(h, k + 1, a, 3 * k + r) && Apart(g, k + 1, a, 3 * k + r)
    requires Apart(g, k + 1, s, k + 1) && Apart(h, k + 1, g, k + 1) && InPlace(h, s, k + 1)
    modifies mem
    ensures var p := [A3, A2, A1, A0]; Held(mem[..], g, k + 1, Eval(p, {1})) && Held(mem[..], h, k + 1, Eval(p, {0, 1}))
    ensures Only3(old(mem[..]), mem[..], s, k + 1, g, k + 1, h, k + 1)
  {
    hide W, Add, Mul, Fits, Held, Only, Only3, Apart, Shift, Parts4, Eval;
    ghost var s0 := mem[..];
    ghost var F := Add(Shift(A2, 1), Shift(Add(A1, Shift(A0, 1)), 2));
    ghost var S1 := Add(S, Mul(A0, {1, 2}));
    FirstFits(s0, a, k, r, A0, A1, A2, A3);
    FirstValues(A0, A1, A2, A3);
    SecondApart(s, g, k);
    Only3Same(s0, s, k + 1, g, k + 1, h, k + 1);
    NestReversed(mem, a, g, k, r, A0, A1, A2, A3);
    ghost var s1 := mem[..];
    Only3Then(s0, s0, s1, s, k + 1, g, k + 1, h, k + 1, g, k + 1);
    HeldKept(s0, s1, s, k, S, g, k + 1);
    FourKept(s0, s1, a, k, r, A0, A1, A2, A3, g, k + 1);
    OnlyRefl(s1, s, k + 1);
    FourHeld(s1, s1, a, k, r, A0, A1, A2, A3, s, k + 1);
    AddBottom(mem, a, s, k, A0, S);
    ghost var s2 := mem[..];
    Only3Then(s0, s1, s2, s, k + 1, g, k + 1, h, k + 1, s, k + 1);
    HeldKept(s1, s2, g, k + 1, F, s, k + 1);
    FourKept(s1, s2, a, k, r, A0, A1, A2, A3, s, k + 1);
    AddWords(mem, h, s, g, k + 1, S1, F);
    ghost var s3 := mem[..];
    Only3Then(s0, s2, s3, s, k + 1, g, k + 1, h, k + 1, h, k + 1);
    HeldKept(s2, s3, g, k + 1, F, h, k + 1);
    FourKept(s2, s3, a, k, r, A0, A1, A2, A3, h, k + 1);
    OnlyRefl(s3, g, k + 1);
    FourHeld(s3, s3, a, k, r, A0, A1, A2, A3, g, k + 1);
    NestApart(g, a, k, r);
    HeldPrefix(s3, g, k + 1, F, r);
    AddWords(mem, g, g, a + 3 * k, r, F, A3);
    ghost var s4 := mem[..];
    SumTop(s3, s3, s4, g, k + 1, r, F, A3);
    Only3Then(s0, s3, s4, s, k + 1, g, k + 1, h, k + 1, g, k + 1);
    ApartSwap(h, k + 1, g, k + 1);
    HeldKept(s3, s4, h, k + 1, Add(S1, F), g, k + 1);
    SecondValues(A0, A1, A2, A3);
  }

  lemma SecondApart(s: nat, g: nat, k: nat)
    requires Apart(g, k + 1, s, k + 1)
    ensures Apart(g, k + 1, s, k) && Apart(s, k + 1, g, k + 1)
  {
  }

  lemma SmallMultiples(P: Poly)
    ensures Mul(P, {1, 2}) == Add(Shift(P, 1), Shift(P, 2))
    ensures Mul(P, {1, 5}) == Add(Shift(P, 1), Shift(P, 5))
    ensures Mul(P, {0, 2, 4}) == Odd(P)
  {
    hide Mul, Shift;
    assert {1, 2} == Add({1}, {2}) && {1, 5} == Add({1}, {5}) && {0, 2, 4} == Add({0}, Add({2}, {4}));
    MulComm(P, {1, 2});
    MulComm(P, {1, 5});
    MulComm(P, {0, 2, 4});
    AddMul({1}, {2}, P);
    AddMul({1}, {5}, P);
    AddMul({0}, Add({2}, {4}), P);
    AddMul({2}, {4}, P);
    MonomialMul(0, P);
    MonomialMul(1, P);
    MonomialMul(2, P);
    MonomialMul(4, P);
    MonomialMul(5, P);
    assert Shift(P, 0) == P;
  }

  lemma SecondValues(A0: Poly, A1: Poly, A2: Poly, A3: Poly)
    ensures var p := [A3, A2, A1, A0];
      var F := Add(Shift(A2, 1), Shift(Add(A1, Shift(A0, 1)), 2));
      && Add(F, A3) == Eval(p, {1})
      && Add(Add(Eval([A0, A1, A2, A3], ONE), Mul(A0, {1, 2})), F) == Eval(p, {0, 1})
  {
    hide Add, Mul, Shift, Eval;
    FourParts(A3, A2, A1, A0, 1);
    FourParts(A0, A1, A2, A3, 1);
    SmallMultiples(A0);
    ShiftAdd(A1, Shift(A0, 1), 2);
    ShiftShift(A0, 1, 2);
    SecondValueAtoms(A0, Shift(A0, 1), Shift(A0, 2), Shift(A0, 3), A1, Shift(A1, 2), A2, Shift(A2, 1), A3);
  }

  lemma SecondValueAtoms(a0: Poly, a0a: Poly, a0b: Poly, a0c: Poly, a1: Poly, a1b: Poly, a2: Poly, a2a: Poly, a3: Poly)
    ensures var F := Add(a2a, Add(a1b, a0c));
      && Add(F, a3) == Add(Add(Add(a2a, a1b), a0c), a3)
      && Add(Add(Add(Add(Add(a0, a1), a2), a3), Add(a0a, a0b)), F)
           == Add(Add(Add(Add(Add(a3, a2), a1), a0), Add(Add(a2a, a1b), a0c)), Add(a0a, a0b))
  {
    hide Add;
  }
}
