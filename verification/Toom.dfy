/** The balanced Toom-Cook routines of gf2x-1.1/toom.c and toom2.c, which call each
    other: gf2x_mul_toom strips zero words and selects a routine, and every routine
    multiplies its parts by gf2x_mul_toom again. */
module Toom {
  import opened Polynomials
  import opened Words
  import opened WordMemory
  import opened BaseCase
  import opened ToomSpace
  import opened ToomAlgebra
  import opened Karatsuba
  import opened OperandParts
  import opened ToomLoops
  import opened ToomBits
  import opened ToomFour
  import opened ToomFourBits
  import opened ToomFourSteps

  // ---------------------------------------------------------------- the word-aligned three-way routine

  /** Sizes of the three-way routine: parts of k, k and r words, values of at most m. */
  predicate Sizes3(n: nat, k: nat, r: nat, m: nat) {
    && 8 <= n == 2 * k + r && r <= k <= r + 2 && m == (if r < k then k + 1 else k + 2)
  }

  lemma EvaluationLayout(c: nat, a: nat, b: nat, n: nat, k: nat, r: nat, m: nat, stk: nat, sn: nat)
    requires Sizes3(n, k, r, m) && 8 * (k + 2) <= sn && Layout(c, 2 * n, a, b, n, stk, sn)
    ensures var k2 := 2 * (k + 2); var (w2, w4, w5) := (c + 2 * k, stk + 2 * k2, stk + 3 * k2);
      && Apart(c, k + 2, a, n) && Apart(w5, k, a, n) && Apart(c, k + 2, w5, k)
      && Apart(w4, k + 2, b, n) && Apart(w2, k, b, n) && Apart(w4, k + 2, w2, k)
      && Apart(w4, k + 2, c, k + 2) && Apart(w2, k, c, k + 2) && Apart(w4, k + 2, w5, k) && Apart(w2, k, w5, k)
      && Inside(c, k + 2, c, 2 * n, stk, sn) && Inside(w5, k, c, 2 * n, stk, sn)
      && Inside(w4, k + 2, c, 2 * n, stk, sn) && Inside(w2, k, c, 2 * n, stk, sn)
  {
  }

  /** W0, W5 and W4, W2 of the evaluation phase for both operands. */
  method EvaluateBoth(mem: array<Word>, c: nat, a: nat, b: nat, ghost n: nat, k: nat, r: nat, ghost m: nat, stk: nat,
                      ghost sn: nat,
                      ghost A0: Poly, ghost A1: Poly, ghost A2: Poly, ghost B0: Poly, ghost B1: Poly, ghost B2: Poly)
    requires Sizes3(n, k, r, m) && 8 * (k + 2) <= sn && Layout(c, 2 * n, a, b, n, stk, sn)
    requires c + 2 * n <= mem.Length && stk + sn <= mem.Length
    requires Parts(mem[..], a, k, r, A0, A1, A2) && Parts(mem[..], b, k, r, B0, B1, B2)
    modifies mem
    ensures Held(mem[..], c, k + 2, Add(Y(A1, 1), Y(A2, 2)))
      && Held(mem[..], stk + 6 * (k + 2), k, Add(Add(A0, A1), A2))
    ensures Held(mem[..], stk + 4 * (k + 2), k + 2, Add(Y(B1, 1), Y(B2, 2)))
      && Held(mem[..], c + 2 * k, k, Add(Add(B0, B1), B2))
    ensures Only2(old(mem[..]), mem[..], c, 2 * n, stk, sn)
  {
    hide W, Add, Y, Fits, Held, Only2, Apart, Inside, Parts;
    ghost var s0 := mem[..];
    EvaluationLayout(c, a, b, n, k, r, m, stk, sn);
    var w2, w4, w5 := c + 2 * k, stk + 4 * (k + 2), stk + 6 * (k + 2);
    EvaluateOperand(mem, a, c, w5, k, r, A0, A1, A2);
    ghost var s1 := mem[..];
    Only2Same(s0, c, 2 * n, stk, sn);
    Only2Then(s0, s0, s1, c, 2 * n, stk, sn, c, k + 2, w5, k);
    PartsKept(s0, s1, b, k, r, B0, B1, B2, c, 2 * n, stk, sn);
    EvaluateOperand(mem, b, w4, w2, k, r, B0, B1, B2);
    HeldKept2(s1, mem[..], c, k + 2, Add(Y(A1, 1), Y(A2, 2)), w4, k + 2, w2, k);
    HeldKept2(s1, mem[..], w5, k, Add(Add(A0, A1), A2), w4, k + 2, w2, k);
    Only2Then(s0, s1, mem[..], c, 2 * n, stk, sn, w4, k + 2, w2, k);
  }

  lemma ShiftLayout(c: nat, a: nat, b: nat, n: nat, k: nat, r: nat, m: nat, stk: nat, sn: nat)
    requires Sizes3(n, k, r, m) && 8 * (k + 2) <= sn && Layout(c, 2 * n, a, b, n, stk, sn)
    ensures var k2 := 2 * (k + 2); var (w1, w2, w4, w5) := (stk, c + 2 * k, stk + 2 * k2, stk + 3 * k2);
      && Apart(c, m, a, k) && Apart(w5, m, a, k) && Apart(c, m, w5, m)
      && Apart(w4, m, b, k) && Apart(w2, m, b, k) && Apart(w4, m, w2, m)
      && Apart(c, m, w4, m) && Apart(c, m, w2, k) && Apart(c, m, w1, 2 * k)
      && Apart(w5, m, w4, m) && Apart(w5, m, w2, k) && Apart(w5, m, w1, 2 * k)
      && Apart(w4, m, c, m) && Apart(w4, m, w5, m) && Apart(w4, m, w1, 2 * k)
      && Apart(w2, m, c, m) && Apart(w2, m, w5, m) && Apart(w2, m, w1, 2 * k)
      && Inside(c, m, c, 2 * n, stk, sn) && Inside(w5, m, c, 2 * n, stk, sn)
      && Inside(w4, m, c, 2 * n, stk, sn) && Inside(w2, m, c, 2 * n, stk, sn)
  {
  }

  /** The values at 1 + y and y of both operands. */
  method ShiftBoth(mem: array<Word>, c: nat, a: nat, b: nat, ghost n: nat, k: nat, ghost r: nat, m: nat, stk: nat,
                   ghost sn: nat,
                   ghost A0: Poly, ghost QA: Poly, ghost SA: Poly, ghost B0: Poly, ghost QB: Poly, ghost SB: Poly,
                   ghost P1: Poly)
    requires Sizes3(n, k, r, m) && 8 * (k + 2) <= sn && Layout(c, 2 * n, a, b, n, stk, sn)
    requires c + 2 * n <= mem.Length && stk + sn <= mem.Length
    requires Held(mem[..], a, k, A0) && Fits(A0, k) && Fits(SA, k) && Held(mem[..], b, k, B0) && Fits(B0, k)
      && Fits(SB, k)
    requires Held(mem[..], c, m, QA) && Held(mem[..], stk + 6 * (k + 2), k, SA)
    requires Held(mem[..], stk + 4 * (k + 2), m, QB) && Held(mem[..], c + 2 * k, k, SB) && Held(mem[..], stk, 2 * k, P1)
    modifies mem
    ensures Held(mem[..], c, m, Add(QA, A0)) && Held(mem[..], stk + 6 * (k + 2), m, Add(SA, QA))
    ensures Held(mem[..], stk + 4 * (k + 2), m, Add(QB, B0)) && Held(mem[..], c + 2 * k, m, Add(SB, QB))
    ensures Held(mem[..], stk, 2 * k, P1) && Only2(old(mem[..]), mem[..], c, 2 * n, stk, sn)
  {
    hide W, Add, Fits, Held, Only2, Apart, Inside;
    ghost var s0 := mem[..];
    ShiftLayout(c, a, b, n, k, r, m, stk, sn);
    var w2, w4, w5 := c + 2 * k, stk + 4 * (k + 2), stk + 6 * (k + 2);
    ShiftOperand(mem, a, c, w5, k, m, A0, QA, SA);
    ghost var s1 := mem[..];
    Only2Same(s0, c, 2 * n, stk, sn);
    Only2Then(s0, s0, s1, c, 2 * n, stk, sn, c, m, w5, m);
    OperandKept(s0, s1, b, n, k, B0, c, 2 * n, stk, sn);
    HeldKept2(s0, s1, w4, m, QB, c, m, w5, m);
    HeldKept2(s0, s1, w2, k, SB, c, m, w5, m);
    HeldKept2(s0, s1, stk, 2 * k, P1, c, m, w5, m);
    ShiftOperand(mem, b, w4, w2, k, m, B0, QB, SB);
    ghost var s2 := mem[..];
    HeldKept2(s1, s2, c, m, Add(QA, A0), w4, m, w2, m);
    HeldKept2(s1, s2, w5, m, Add(SA, QA), w4, m, w2, m);
    HeldKept2(s1, s2, stk, 2 * k, P1, w4, m, w2, m);
    Only2Then(s0, s1, s2, c, 2 * n, stk, sn, w4, m, w2, m);
  }

  lemma OperandKept(s: seq<Word>, t: seq<Word>, a: nat, n: nat, k: nat, P: Poly, p: nat, pn: nat, q: nat, qn: nat)
    requires Held(s, a, k, P) && k <= n && Only2(s, t, p, pn, q, qn) && Apart(p, pn, a, n) && Apart(q, qn, a, n)
    ensures Held(t, a, k, P)
  {
    hide W;
  }

  lemma ProductLayout(c: nat, a: nat, b: nat, n: nat, k: nat, r: nat, m: nat, stk: nat, sp: nat)
    requires Sizes3(n, k, r, m) && Layout(c, 2 * n, a, b, n, stk, 8 * (k + 2) + sp)
    ensures var k2 := 2 * (k + 2);
      var (w2, w3, w4, w5, st) := (c + 2 * k, stk + k2, stk + 2 * k2, stk + 3 * k2, stk + 4 * k2);
      && Layout(stk, 2 * k, w2, w5, k, st, sp) && Layout(w3, 2 * m, w2, w5, m, st, sp)
      && Layout(w2, 2 * m, c, w4, m, st, sp)
      && Layout(c, 2 * k, a, b, k, st, sp) && Layout(w4, 2 * r, a + 2 * k, b + 2 * k, r, st, sp)
  {
  }

  lemma ProductKeeps(c: nat, a: nat, b: nat, n: nat, k: nat, r: nat, m: nat, stk: nat, sp: nat)
    requires Sizes3(n, k, r, m) && Layout(c, 2 * n, a, b, n, stk, 8 * (k + 2) + sp)
    ensures var k2 := 2 * (k + 2);
      var (w2, w3, w4, w5, st) := (c + 2 * k, stk + k2, stk + 2 * k2, stk + 3 * k2, stk + 4 * k2);
      && Apart(st, sp, c, k + 2) && Apart(st, sp, w5, k) && Apart(st, sp, w4, k + 2) && Apart(st, sp, w2, k)
      && Apart(stk, 2 * k, c, k + 2) && Apart(stk, 2 * k, w5, k) && Apart(stk, 2 * k, w4, k + 2)
      && Apart(stk, 2 * k, w2, k)
      && Apart(st, sp, stk, 2 * k) && Apart(st, sp, w3, 2 * m) && Apart(st, sp, w2, 2 * m) && Apart(st, sp, c, 2 * k)
      && Apart(st, sp, c, m) && Apart(st, sp, w4, m)
      && Apart(w3, 2 * m, stk, 2 * k) && Apart(w3, 2 * m, c, m) && Apart(w3, 2 * m, w4, m)
      && Apart(w2, 2 * m, stk, 2 * k) && Apart(w2, 2 * m, w3, 2 * m)
      && Apart(c, 2 * k, stk, 2 * k) && Apart(c, 2 * k, w3, 2 * m) && Apart(c, 2 * k, w2, 2 * m)
      && Apart(w4, 2 * r, stk, 2 * k) && Apart(w4, 2 * r, w3, 2 * m) && Apart(w4, 2 * r, w2, 2 * m)
      && Apart(w4, 2 * r, c, 2 * k)
  {
  }

  lemma ProductInside(c: nat, n: nat, k: nat, r: nat, m: nat, stk: nat, sp: nat)
    requires Sizes3(n, k, r, m)
    ensures var k2 := 2 * (k + 2); var (w2, w3, w4, st) := (c + 2 * k, stk + k2, stk + 2 * k2, stk + 4 * k2);
      var sn := 8 * (k + 2) + sp;
      && Inside(stk, 2 * k, c, 2 * n, stk, sn) && Inside(st, sp, c, 2 * n, stk, sn)
      && Inside(w3, 2 * m, c, 2 * n, stk, sn)
      && Inside(w2, 2 * m, c, 2 * n, stk, sn) && Inside(c, 2 * k, c, 2 * n, stk, sn)
      && Inside(w4, 2 * r, c, 2 * n, stk, sn)
      && Inside(stk, 2 * m, c, 2 * n, stk, sn) && Inside(c, 2 * n, c, 2 * n, stk, sn)
  {
  }

  /** The four products after the one at 1. */
  method FourProducts(t: Tuning, mem: array<Word>, c: nat, a: nat, b: nat, n: nat, k: nat, r: nat, m: nat, stk: nat,
                      ghost sp: nat,
                      ghost A0: Poly, ghost A1: Poly, ghost A2: Poly, ghost B0: Poly, ghost B1: Poly, ghost B2: Poly,
                      ghost TA: Poly, ghost UA: Poly, ghost TB: Poly, ghost UB: Poly, ghost P1: Poly)
    requires t.Valid() && Sizes3(n, k, r, m) && Layout(c, 2 * n, a, b, n, stk, 8 * (k + 2) + sp) && k < n && m < n
    requires c + 2 * n <= mem.Length && stk + 8 * (k + 2) + sp <= mem.Length
    requires Space(t, k) <= sp && Space(t, m) <= sp && Space(t, r) <= sp
    requires Parts(mem[..], a, k, r, A0, A1, A2) && Parts(mem[..], b, k, r, B0, B1, B2)
    requires Held(mem[..], c, m, TA) && Held(mem[..], stk + 6 * (k + 2), m, UA) && Fits(TA, m) && Fits(UA, m)
    requires Held(mem[..], stk + 4 * (k + 2), m, TB) && Held(mem[..], c + 2 * k, m, UB) && Fits(TB, m) && Fits(UB, m)
    requires Held(mem[..], stk, 2 * k, P1)
    modifies mem
    ensures Held(mem[..], stk, 2 * k, P1) && Held(mem[..], c + 2 * k, 2 * m, Mul(TA, TB))
    ensures Held(mem[..], stk + 2 * (k + 2), 2 * m, Mul(UB, UA)) && Held(mem[..], c, 2 * k, Mul(A0, B0))
    ensures Held(mem[..], stk + 4 * (k + 2), 2 * r, Mul(A2, B2))
    ensures Only2(old(mem[..]), mem[..], c, 2 * n, stk, 8 * (k + 2) + sp)
    decreases n, 1
  {
    hide W, Mul, Fits, Held, Only2, Apart, Inside, Parts, Space;
    ghost var s0, sn := mem[..], 8 * (k + 2) + sp;
    ProductLayout(c, a, b, n, k, r, m, stk, sp);
    ProductKeeps(c, a, b, n, k, r, m, stk, sp);
    ProductInside(c, n, k, r, m, stk, sp);
    var w2, w3, w4, w5, st := c + 2 * k, stk + 2 * (k + 2), stk + 4 * (k + 2), stk + 6 * (k + 2), stk + 8 * (k + 2);

    MulToom(t, mem, w3, w2, w5, m, st, sp, UB, UA);
    ghost var s1 := mem[..];
    HeldKept2(s0, s1, stk, 2 * k, P1, w3, 2 * m, st, sp);
    HeldKept2(s0, s1, c, m, TA, w3, 2 * m, st, sp);
    HeldKept2(s0, s1, w4, m, TB, w3, 2 * m, st, sp);
    Only2Same(s0, c, 2 * n, stk, sn);
    Only2Then(s0, s0, s1, c, 2 * n, stk, sn, w3, 2 * m, st, sp);

    MulToom(t, mem, w2, c, w4, m, st, sp, TA, TB);
    ghost var s2 := mem[..];
    HeldKept2(s1, s2, stk, 2 * k, P1, w2, 2 * m, st, sp);
    HeldKept2(s1, s2, w3, 2 * m, Mul(UB, UA), w2, 2 * m, st, sp);
    Only2Then(s0, s1, s2, c, 2 * n, stk, sn, w2, 2 * m, st, sp);

    PartsKept(s0, s2, a, k, r, A0, A1, A2, c, 2 * n, stk, sn);
    PartsKept(s0, s2, b, k, r, B0, B1, B2, c, 2 * n, stk, sn);
    OuterProducts3(t, mem, c, a, b, n, k, r, m, stk, sp, A0, A1, A2, B0, B1, B2, P1, Mul(TA, TB), Mul(UB, UA));
    OnlyThen2(s0, s2, mem[..], c, 2 * n, stk, sn);
  }

  /** The products at 0 and at infinity. */
  method OuterProducts3(t: Tuning, mem: array<Word>, c: nat, a: nat, b: nat, n: nat, k: nat, r: nat, m: nat, stk: nat,
                        ghost sp: nat,
                        ghost A0: Poly, ghost A1: Poly, ghost A2: Poly, ghost B0: Poly, ghost B1: Poly, ghost B2: Poly,
                        ghost P1: Poly, ghost P2: Poly, ghost P3: Poly)
    requires t.Valid() && Sizes3(n, k, r, m) && Layout(c, 2 * n, a, b, n, stk, 8 * (k + 2) + sp) && k < n && m < n
    requires c + 2 * n <= mem.Length && stk + 8 * (k + 2) + sp <= mem.Length
    requires Space(t, k) <= sp && Space(t, r) <= sp
    requires Parts(mem[..], a, k, r, A0, A1, A2) && Parts(mem[..], b, k, r, B0, B1, B2)
    requires Held(mem[..], stk, 2 * k, P1) && Held(mem[..], c + 2 * k, 2 * m, P2)
      && Held(mem[..], stk + 2 * (k + 2), 2 * m, P3)
    modifies mem
    ensures Held(mem[..], stk, 2 * k, P1) && Held(mem[..], c + 2 * k, 2 * m, P2)
    ensures Held(mem[..], stk + 2 * (k + 2), 2 * m, P3) && Held(mem[..], c, 2 * k, Mul(A0, B0))
    ensures Held(mem[..], stk + 4 * (k + 2), 2 * r, Mul(A2, B2))
    ensures Only2(old(mem[..]), mem[..], c, 2 * n, stk, 8 * (k + 2) + sp)
    decreases n, 0
  {
    hide W, Mul, Fits, Held, Only2, Apart, Inside, Parts, Space;
    ghost var s0, sn := mem[..], 8 * (k + 2) + sp;
    ProductLayout(c, a, b, n, k, r, m, stk, sp);
    ProductKeeps(c, a, b, n, k, r, m, stk, sp);
    ProductInside(c, n, k, r, m, stk, sp);
    var w2, w3, w4, st := c + 2 * k, stk + 2 * (k + 2), stk + 4 * (k + 2), stk + 8 * (k + 2);
    PartsHeld(s0, a, k, r, A0, A1, A2);
    PartsHeld(s0, b, k, r, B0, B1, B2);
    MulToom(t, mem, c, a, b, k, st, sp, A0, B0);
    ghost var s1 := mem[..];
    HeldKept2(s0, s1, stk, 2 * k, P1, c, 2 * k, st, sp);
    HeldKept2(s0, s1, w2, 2 * m, P2, c, 2 * k, st, sp);
    HeldKept2(s0, s1, w3, 2 * m, P3, c, 2 * k, st, sp);
    Only2Same(s0, c, 2 * n, stk, sn);
    Only2Then(s0, s0, s1, c, 2 * n, stk, sn, c, 2 * k, st, sp);

    PartsKept(s0, s1, a, k, r, A0, A1, A2, c, 2 * n, stk, sn);
    PartsKept(s0, s1, b, k, r, B0, B1, B2, c, 2 * n, stk, sn);
    PartsHeld(s1, a, k, r, A0, A1, A2);
    PartsHeld(s1, b, k, r, B0, B1, B2);
    MulToom(t, mem, w4, a + 2 * k, b + 2 * k, r, st, sp, A2, B2);
    ghost var s2 := mem[..];
    HeldKept2(s1, s2, stk, 2 * k, P1, w4, 2 * r, st, sp);
    HeldKept2(s1, s2, w2, 2 * m, P2, w4, 2 * r, st, sp);
    HeldKept2(s1, s2, w3, 2 * m, P3, w4, 2 * r, st, sp);
    HeldKept2(s1, s2, c, 2 * k, Mul(A0, B0), w4, 2 * r, st, sp);
    Only2Then(s0, s1, s2, c, 2 * n, stk, sn, w4, 2 * r, st, sp);
  }

  // ---------------------------------------------------------------- the choice of the routine

  lemma StripFits(P: Poly, m: nat)
    requires 0 < m && Fits(P, m) && W(P, m - 1) == {}
    ensures Fits(P, m - 1)
  {
    hide WordAt, W;
    forall i | i in P
      ensures i < 64 * (m - 1)
    {
      WordBit(P, i);
    }
  }

  /** Drops the high words that are zero in both operands; their share of the product is zero. */
  method StripZeros(mem: array<Word>, c: nat, a: nat, b: nat, n: nat, ghost A: Poly, ghost B: Poly) returns (m: nat)
    requires c + 2 * n <= mem.Length && Held(mem[..], a, n, A) && Held(mem[..], b, n, B) && Fits(A, n) && Fits(B, n)
    requires Apart(c, 2 * n, a, n) && Apart(c, 2 * n, b, n)
    modifies mem
    ensures m <= n && Fits(A, m) && Fits(B, m) && Rest(mem[..], c, 2 * n, ZERO, 2 * m)
    ensures Only(old(mem[..]), mem[..], c, 2 * n)
  {
    hide W, Fits, Held, Only, Rest, Wrote, Apart;
    ghost var s0 := mem[..];
    m := n;
    OnlySame(s0, c, 2 * n);
    NothingLeft(s0, c, 2 * n, ZERO);
    HeldSize(s0, a, n, A);
    HeldSize(s0, b, n, B);
    while m > 0 && mem[a + m - 1] == {} && mem[b + m - 1] == {}
      invariant 0 <= m <= n && Fits(A, m) && Fits(B, m) && Held(mem[..], a, n, A) && Held(mem[..], b, n, B)
      invariant Rest(mem[..], c, 2 * n, ZERO, 2 * m) && Only(s0, mem[..], c, 2 * n)
    {
      ghost var now := mem[..];
      HeldWord(mem, a, n, A, m - 1);
      HeldWord(mem, b, n, B, m - 1);
      StripFits(A, m);
      StripFits(B, m);
      mem[c + 2 * m - 1] := {};
      mem[c + 2 * m - 2] := {};
      WroteTwo(now, mem[..], c + 2 * m - 1, c + 2 * m - 2);
      WroteOnly(s0, now, mem[..], c + 2 * m - 1, c + 2 * m - 2, c, 2 * n);
      ZeroTail(now, mem[..], c, n, m);
      HeldKept(s0, mem[..], a, n, A, c, 2 * n);
      HeldKept(s0, mem[..], b, n, B, c, 2 * n);
      m := m - 1;
    }
  }

  lemma NothingLeft(s: seq<Word>, p: nat, n: nat, P: Poly)
    requires p + n <= |s|
    ensures Rest(s, p, n, P, n)
  {
  }

  lemma ZeroTail(s: seq<Word>, t: seq<Word>, c: nat, n: nat, m: nat)
    requires 0 < m <= n && Rest(s, c, 2 * n, ZERO, 2 * m) && Wrote(s, t, c + 2 * m - 1, c + 2 * m - 2)
    requires t[c + 2 * m - 1] == t[c + 2 * m - 2] == {}
    ensures Rest(t, c, 2 * n, ZERO, 2 * (m - 1))
  {
    hide WordAt;
    forall i | c + 2 * (m - 1) <= i < c + 2 * n
      ensures t[i] == W(ZERO, i - c)
    {
      WBeyond(ZERO, 0, i - c);
    }
  }

  /** The product of the low words and zeros above are the whole product. */
  lemma StrippedProduct(s: seq<Word>, c: nat, n: nat, m: nat, A: Poly, B: Poly)
    requires m <= n && 0 < n && Fits(A, m) && Fits(B, m)
    requires Held(s, c, 2 * Count(m), Mul(A, B)) && Rest(s, c, 2 * n, ZERO, 2 * Count(m))
    ensures Held(s, c, 2 * n, Mul(A, B))
  {
    hide W, Fits, Held, Rest, Mul;
    FitsMul(A, B, m, m);
    forall i | 2 * Count(m) <= i < 2 * n
      ensures W(Mul(A, B), i) == W(ZERO, i)
    {
      FitsZero(0);
      WBeyond(Mul(A, B), 2 * m, i);
      WBeyond(ZERO, 0, i);
    }
    RestSame(s, c, 2 * n, Mul(A, B), ZERO, 2 * Count(m));
  }

  /** {c, 2n} <- {a, n} * {b, n} with scratch space {stk, space}. */
  method MulToom(t: Tuning, mem: array<Word>, c: nat, a: nat, b: nat, n: nat, stk: nat, ghost space: nat, ghost A: Poly,
                 ghost B: Poly)
    requires t.Valid() && 0 < n && Space(t, n) <= space && c + 2 * n <= mem.Length && stk + space <= mem.Length
    requires Held(mem[..], a, n, A) && Held(mem[..], b, n, B) && Fits(A, n) && Fits(B, n)
    requires Layout(c, 2 * n, a, b, n, stk, space)
    modifies mem
    ensures Held(mem[..], c, 2 * n, Mul(A, B)) && Only2(old(mem[..]), mem[..], c, 2 * n, stk, space)
    decreases n, 6
  {
    hide W, Mul, Fits, Held, Only, Only2, Rest, Apart, Space, Inside;
    ghost var s0 := mem[..];
    var m := StripZeros(mem, c, a, b, n, A, B);
    ghost var s1 := mem[..];
    ToomLayout(c, a, b, n, m, stk, space);
    HeldKept(s0, s1, a, n, A, c, 2 * n);
    HeldKept(s0, s1, b, n, B, c, 2 * n);
    HeldPrefix(s1, a, n, A, Count(m));
    HeldPrefix(s1, b, n, B, Count(m));
    FitsLess(A, m, Count(m));
    FitsLess(B, m, Count(m));
    SpaceMonotone(t, m, n);
    MulChosen(t, mem, c, a, b, m, stk, space, A, B);
    Only2Same(s0, c, 2 * n, stk, space);
    OnlyThen(s0, s0, s1, c, 2 * n, stk, space, c, 2 * n);
    Only2Then(s0, s1, mem[..], c, 2 * n, stk, space, c, 2 * Count(m), stk, space);
    RestKept(s1, mem[..], c, n, m, stk, space);
    StrippedProduct(mem[..], c, n, m, A, B);
  }

  lemma ToomLayout(c: nat, a: nat, b: nat, n: nat, m: nat, stk: nat, space: nat)
    requires 0 < n && m <= n && Layout(c, 2 * n, a, b, n, stk, space)
    ensures Layout(c, 2 * Count(m), a, b, Count(m), stk, space)
    ensures Inside(c, 2 * n, c, 2 * n, stk, space) && Inside(c, 2 * Count(m), c, 2 * n, stk, space)
      && Inside(stk, space, c, 2 * n, stk, space)
  {
  }

  lemma RestKept(s: seq<Word>, t: seq<Word>, c: nat, n: nat, m: nat, stk: nat, space: nat)
    requires 0 < n && m <= n && Rest(s, c, 2 * n, ZERO, 2 * m) && Apart(stk, space, c, 2 * n)
    requires Only2(s, t, c, 2 * Count(m), stk, space)
    ensures Rest(t, c, 2 * n, ZERO, 2 * Count(m))
  {
    hide W;
  }

  /** The routine that is selected for n words. */
  method MulChosen(t: Tuning, mem: array<Word>, c: nat, a: nat, b: nat, n: nat, stk: nat, ghost space: nat,
                   ghost A: Poly, ghost B: Poly)
    requires t.Valid() && Space(t, n) <= space && c + 2 * Count(n) <= mem.Length && stk + space <= mem.Length
    requires Held(mem[..], a, Count(n), A) && Held(mem[..], b, Count(n), B) && Fits(A, Count(n)) && Fits(B, Count(n))
    requires Layout(c, 2 * Count(n), a, b, Count(n), stk, space)
    modifies mem
    ensures Held(mem[..], c, 2 * Count(n), Mul(A, B)) && Only2(old(mem[..]), mem[..], c, 2 * Count(n), stk, space)
    decreases n, 5
  {
    hide W, Mul, Fits, Held, Only2, Apart, Space, Inside, KaraSpace;
    match t.BestToom(n)
    case Kara =>
      KaraCovered(t, n);
      KaraLayout(c, a, b, Count(n), stk, KaraSpace(t, n), space);
      ghost var s0 := mem[..];
      MulKara(t, mem, c, a, b, n, stk, A, B);
      Only2Same(s0, c, 2 * Count(n), stk, space);
      Only2Then(s0, s0, mem[..], c, 2 * Count(n), stk, space, c, 2 * Count(n), stk, KaraSpace(t, n));
    case Tc3w =>
      MulTc3w(t, mem, c, a, b, n, stk, space, A, B);
    case Tc3 =>
      MulTc3(t, mem, c, a, b, n, stk, space, A, B);
    case Tc4 =>
      MulTc4(t, mem, c, a, b, n, stk, space, A, B);
  }

  lemma KaraLayout(c: nat, a: nat, b: nat, n: nat, stk: nat, s: nat, space: nat)
    requires Layout(c, 2 * n, a, b, n, stk, space) && s <= space
    ensures Layout(c, 2 * n, a, b, n, stk, s)
    ensures Inside(c, 2 * n, c, 2 * n, stk, space) && Inside(stk, s, c, 2 * n, stk, space)
  {
  }

  method MulTc3w(t: Tuning, mem: array<Word>, c: nat, a: nat, b: nat, n: nat, stk: nat, ghost space: nat, ghost A: Poly,
                 ghost B: Poly)
    requires t.Valid() && 8 <= n && t.Low() <= n && Space(t, n) <= space && c + 2 * n <= mem.Length
      && stk + space <= mem.Length
    requires Held(mem[..], a, n, A) && Held(mem[..], b, n, B) && Fits(A, n) && Fits(B, n)
    requires Layout(c, 2 * n, a, b, n, stk, space)
    modifies mem
    ensures Held(mem[..], c, 2 * n, Mul(A, B)) && Only2(old(mem[..]), mem[..], c, 2 * n, stk, space)
    decreases n, 3
  {
    hide W, Mul, Fits, Held, Only, Only2, Apart, Space, Inside, Low, High, Add, Shift, Eval, Parts;
    var k := (n + 2) / 3;
    var r := n - 2 * k;
    var d := if r < k then 1 else 0;
    var m := k - d + 2;
    ghost var sp := space - 8 * (k + 2);
    ghost var s0 := mem[..];
    Tc3wSizes(t, n, space);
    ghost var A0, A1, A2 := Low(A, 64 * k), Low(High(A, 64 * k), 64 * k), High(High(A, 64 * k), 64 * k);
    ghost var B0, B1, B2 := Low(B, 64 * k), Low(High(B, 64 * k), 64 * k), High(High(B, 64 * k), 64 * k);
    CutThree(s0, a, k, r, A);
    CutThree(s0, b, k, r, B);
    PartsHeld(s0, a, k, r, A0, A1, A2);
    PartsHeld(s0, b, k, r, B0, B1, B2);
    ghost var c0, c1, c2, c3, c4 := ThreeWayProduct(A0, A1, A2, B0, B1, B2, 64, k, r);
    MulValues(t, mem, c, a, b, n, k, r, m, stk, sp, A0, A1, A2, B0, B1, B2);
    ghost var s1 := mem[..];
    ValueFits(A0, A1, A2, k, r, m);
    ValueFits(B0, B1, B2, k, r, m);
    FitsMul(Add(Add(B0, B1), B2), Add(Add(A0, A1), A2), k, k);
    FitsMul(Add(Add(Y(A1, 1), Y(A2, 2)), A0), Add(Add(Y(B1, 1), Y(B2, 2)), B0), m, m);
    FinishTc3w(mem, c, a, b, n, k, r, m, stk, sp, c0, c1, c2, c3, c4);
    OnlyThen2(s0, s1, mem[..], c, 2 * n, stk, space);
  }

  /** Interpolation and recomposition. */
  method FinishTc3w(mem: array<Word>, c: nat, ghost a: nat, ghost b: nat, ghost n: nat, k: nat, r: nat, m: nat,
                    stk: nat, ghost sp: nat,
                    ghost c0: Poly, ghost c1: Poly, ghost c2: Poly, ghost c3: Poly, ghost c4: Poly)
    requires Sizes3(n, k, r, m) && Layout(c, 2 * n, a, b, n, stk, 8 * (k + 2) + sp)
    requires c + 2 * n <= mem.Length && stk + 8 * (k + 2) + sp <= mem.Length
    requires Fits(c0, 2 * k) && Fits(c1, 2 * k) && Fits(c2, 2 * k) && Fits(c3, 2 * k) && Fits(c4, 2 * r)
    requires var C := [c0, c1, c2, c3, c4];
      && Held(mem[..], stk, 2 * k, Eval(C, ONE)) && Fits(Eval(C, ONE), 2 * k)
      && Held(mem[..], c + 2 * k, 2 * m, Eval(C, {64})) && Fits(Eval(C, {64}), 2 * m)
      && Held(mem[..], stk + 2 * (k + 2), 2 * m, Eval(C, {0, 64}))
      && Held(mem[..], c, 2 * k, c0) && Held(mem[..], stk + 4 * (k + 2), 2 * r, c4)
    modifies mem
    ensures Held(mem[..], c, 2 * n, Add(Add(Add(Add(c0, Y(c2, 2 * k)), Y(c4, 4 * k)), Y(c1, k)), Y(c3, 3 * k)))
    ensures Only2(old(mem[..]), mem[..], c, 2 * n, stk, 8 * (k + 2) + sp)
  {
    hide W, Fits, Held, Only, Only2, Apart, Inside, Add, Y, Eval, Disjoint;
    ghost var s0, sn := mem[..], 8 * (k + 2) + sp;
    var w1, w2, w3, w4 := stk, c + 2 * k, stk + 2 * (k + 2), stk + 4 * (k + 2);
    Tc3wLayout(c, a, b, n, k, r, m, stk, sp);
    ProductInside(c, n, k, r, m, stk, sp);
    Interpolate(mem, c, w1, w2, w3, w4, 2 * k, 2 * r, 2 * m, 2 * m, c0, c1, c2, c3, c4, c, 2 * n, stk, sn);
    ghost var s1 := mem[..];
    FitsLess(c1, 2 * k, 2 * m);
    FitsLess(c2, 2 * k, 2 * m);
    FitsLess(c3, 2 * k, 2 * m - 2);
    Recompose(mem, c, k, 2 * r, 2 * m, 2 * m - 2, w1, w3, w4, c0, c1, c2, c3, c4);
    OnlyThen(s0, s1, mem[..], c, 2 * n, stk, sn, c, 2 * n);
  }

  lemma Tc3wSizes(t: Tuning, n: nat, space: nat)
    requires t.Valid() && 8 <= n && t.Low() <= n && Space(t, n) <= space
    ensures var k := (n + 2) / 3; var r := n - 2 * k; var m := k - (if r < k then 1 else 0) + 2;
      && Sizes3(n, k, r, m) && k < n && m < n && r < n && 8 * (k + 2) <= space
      && Space(t, k) <= space - 8 * (k + 2) && Space(t, m) <= space - 8 * (k + 2) && Space(t, r) <= space - 8 * (k + 2)
  {
    hide Space;
    var k := (n + 2) / 3;
    var r := n - 2 * k;
    Tc3wCovered(t, n, k);
    Tc3wCovered(t, n, r);
    Tc3wCovered(t, n, k - (if r < k then 1 else 0) + 2);
  }

  lemma Tc3wLayout(c: nat, a: nat, b: nat, n: nat, k: nat, r: nat, m: nat, stk: nat, sp: nat)
    requires Sizes3(n, k, r, m) && Layout(c, 2 * n, a, b, n, stk, 8 * (k + 2) + sp)
    ensures var (w2, w3, w4) := (c + 2 * k, stk + 2 * (k + 2), stk + 4 * (k + 2));
      && Disjoint(c, stk, w2, w3, w4, 2 * k, 2 * r, 2 * m)
      && Apart(c, 2 * n, stk, 2 * m) && Apart(c, 2 * n, w3, 2 * m - 2) && Apart(c, 2 * n, w4, 2 * r)
  {
  }

  lemma ValueFits(A0: Poly, A1: Poly, A2: Poly, k: nat, r: nat, m: nat)
    requires Fits(A0, k) && Fits(A1, k) && Fits(A2, r) && r <= k && m == (if r < k then k + 1 else k + 2)
    ensures var (S, Q) := (Add(Add(A0, A1), A2), Add(Y(A1, 1), Y(A2, 2)));
      Fits(S, k) && Fits(Q, m) && Fits(Add(Q, A0), m) && Fits(Add(S, Q), m)
  {
    hide Fits, Add, Y;
    FitsLess(A2, r, k);
    FitsAdd(A0, A1, k);
    FitsAdd(Add(A0, A1), A2, k);
    FitsLess(Add(Add(A0, A1), A2), k, m);
    FitsLess(A0, k, m);
    FitsY(A1, k, 1);
    FitsLess(Y(A1, 1), k + 1, m);
    FitsY(A2, r, 2);
    FitsLess(Y(A2, 2), r + 2, m);
    FitsAdd(Y(A1, 1), Y(A2, 2), m);
    FitsAdd(Add(Y(A1, 1), Y(A2, 2)), A0, m);
    FitsAdd(Add(Add(A0, A1), A2), Add(Y(A1, 1), Y(A2, 2)), m);
  }

  /** Evaluation and the five products. */
  method MulValues(t: Tuning, mem: array<Word>, c: nat, a: nat, b: nat, n: nat, k: nat, r: nat, m: nat, stk: nat,
                   ghost sp: nat,
                   ghost A0: Poly, ghost A1: Poly, ghost A2: Poly, ghost B0: Poly, ghost B1: Poly, ghost B2: Poly)
    requires t.Valid() && Sizes3(n, k, r, m) && Layout(c, 2 * n, a, b, n, stk, 8 * (k + 2) + sp) && k < n && m < n
    requires c + 2 * n <= mem.Length && stk + 8 * (k + 2) + sp <= mem.Length
    requires Space(t, k) <= sp && Space(t, m) <= sp && Space(t, r) <= sp
    requires Parts(mem[..], a, k, r, A0, A1, A2) && Parts(mem[..], b, k, r, B0, B1, B2)
    modifies mem
    ensures var (SA, QA) := (Add(Add(A0, A1), A2), Add(Y(A1, 1), Y(A2, 2)));
      var (SB, QB) := (Add(Add(B0, B1), B2), Add(Y(B1, 1), Y(B2, 2)));
      && Held(mem[..], stk, 2 * k, Mul(SB, SA)) && Held(mem[..], c + 2 * k, 2 * m, Mul(Add(QA, A0), Add(QB, B0)))
      && Held(mem[..], stk + 2 * (k + 2), 2 * m, Mul(Add(SB, QB), Add(SA, QA))) && Held(mem[..], c, 2 * k, Mul(A0, B0))
      && Held(mem[..], stk + 4 * (k + 2), 2 * r, Mul(A2, B2))
    ensures Only2(old(mem[..]), mem[..], c, 2 * n, stk, 8 * (k + 2) + sp)
    decreases n, 2
  {
    hide W, Mul, Fits, Held, Only2, Apart, Inside, Parts, Space, Add, Y;
    ghost var s0, sn := mem[..], 8 * (k + 2) + sp;
    ghost var SA, QA := Add(Add(A0, A1), A2), Add(Y(A1, 1), Y(A2, 2));
    ghost var SB, QB := Add(Add(B0, B1), B2), Add(Y(B1, 1), Y(B2, 2));
    PartsHeld(s0, a, k, r, A0, A1, A2);
    PartsHeld(s0, b, k, r, B0, B1, B2);
    ValueFits(A0, A1, A2, k, r, m);
    ValueFits(B0, B1, B2, k, r, m);
    ProductLayout(c, a, b, n, k, r, m, stk, sp);
    ProductKeeps(c, a, b, n, k, r, m, stk, sp);
    ProductInside(c, n, k, r, m, stk, sp);
    var w2, w4, w5, st := c + 2 * k, stk + 4 * (k + 2), stk + 6 * (k + 2), stk + 8 * (k + 2);

    EvaluateBoth(mem, c, a, b, n, k, r, m, stk, sn, A0, A1, A2, B0, B1, B2);
    ghost var s1 := mem[..];
    MulToom(t, mem, stk, w2, w5, k, st, sp, SB, SA);
    ghost var s2 := mem[..];
    Only2Then(s0, s1, s2, c, 2 * n, stk, sn, stk, 2 * k, st, sp);
    HeldKept2(s1, s2, c, k + 2, QA, stk, 2 * k, st, sp);
    HeldKept2(s1, s2, w5, k, SA, stk, 2 * k, st, sp);
    HeldKept2(s1, s2, w4, k + 2, QB, stk, 2 * k, st, sp);
    HeldKept2(s1, s2, w2, k, SB, stk, 2 * k, st, sp);
    HeldPrefix(s2, c, k + 2, QA, m);
    HeldPrefix(s2, w4, k + 2, QB, m);
    PartsKept(s0, s2, a, k, r, A0, A1, A2, c, 2 * n, stk, sn);
    PartsKept(s0, s2, b, k, r, B0, B1, B2, c, 2 * n, stk, sn);
    PartsHeld(s2, a, k, r, A0, A1, A2);
    PartsHeld(s2, b, k, r, B0, B1, B2);
    ShiftBoth(mem, c, a, b, n, k, r, m, stk, sn, A0, QA, SA, B0, QB, SB, Mul(SB, SA));
    ghost var s3 := mem[..];
    OnlyThen2(s0, s2, s3, c, 2 * n, stk, sn);
    PartsKept(s0, s3, a, k, r, A0, A1, A2, c, 2 * n, stk, sn);
    PartsKept(s0, s3, b, k, r, B0, B1, B2, c, 2 * n, stk, sn);
    FourProducts(t, mem, c, a, b, n, k, r, m, stk, sp, A0, A1, A2, B0, B1, B2,
      Add(QA, A0), Add(SA, QA), Add(QB, B0), Add(SB, QB), Mul(SB, SA));
    OnlyThen2(s0, s3, mem[..], c, 2 * n, stk, sn);
  }

  // ---------------------------------------------------------------- the bit-aligned three-way routine

  /** Sizes of gf2x_mul_tc3. */
  predicate SizesX(n: nat, k: nat, r: nat) {
    17 <= n == 2 * k + r && r <= k && k + 3 <= 2 * r
  }

  lemma XEvaluationLayout(c: nat, a: nat, b: nat, n: nat, k: nat, r: nat, stk: nat, sn: nat)
    requires SizesX(n, k, r) && Layout(c, 2 * n, a, b, n, stk, sn)
    ensures var (va, vb, wb) := (c + k + 1, c + 2 * k + 2, c + 4 * k + 2); var m := k + 1;
      && Apart(c, m, a, n) && Apart(wb, m, b, n) && Apart(va, k, a, n) && Apart(vb, k, b, n)
      && Apart(wb, m, c, m) && Apart(va, k, c, m) && Apart(va, k, wb, m)
      && Apart(vb, k, c, m) && Apart(vb, k, wb, m) && Apart(vb, k, va, k)
      && Inside(c, m, c, 2 * n, stk, sn) && Inside(wb, m, c, 2 * n, stk, sn)
      && Inside(va, k, c, 2 * n, stk, sn) && Inside(vb, k, c, 2 * n, stk, sn)
  {
  }

  /** x a1 + x^2 a2 and a0 + a1 + a2 for both operands, all in the result region. */
  method EvaluateBits(mem: array<Word>, c: nat, a: nat, b: nat, ghost n: nat, k: nat, r: nat, ghost stk: nat,
                      ghost sn: nat,
                      ghost A0: Poly, ghost A1: Poly, ghost A2: Poly, ghost B0: Poly, ghost B1: Poly, ghost B2: Poly)
    requires SizesX(n, k, r) && Layout(c, 2 * n, a, b, n, stk, sn) && c + 2 * n <= mem.Length
    requires Parts(mem[..], a, k, r, A0, A1, A2) && Parts(mem[..], b, k, r, B0, B1, B2)
    modifies mem
    ensures Held(mem[..], c, k + 1, Add(Shift(A1, 1), Shift(A2, 2)))
      && Held(mem[..], c + k + 1, k, Add(Add(A0, A1), A2))
    ensures Held(mem[..], c + 4 * k + 2, k + 1, Add(Shift(B1, 1), Shift(B2, 2)))
      && Held(mem[..], c + 2 * k + 2, k, Add(Add(B0, B1), B2))
    ensures Only2(old(mem[..]), mem[..], c, 2 * n, stk, sn)
  {
    hide W, Add, Shift, Fits, Held, Only, Only2, Apart, Inside, Parts;
    ghost var QA, QB := Add(Shift(A1, 1), Shift(A2, 2)), Add(Shift(B1, 1), Shift(B2, 2));
    ghost var s0 := mem[..];
    XEvaluationLayout(c, a, b, n, k, r, stk, sn);
    var va, vb, wb := c + k + 1, c + 2 * k + 2, c + 4 * k + 2;
    Only2Same(s0, c, 2 * n, stk, sn);
    EvaluateX(mem, a, c, k, r, A0, A1, A2);
    ghost var s1 := mem[..];
    OnlyThen(s0, s0, s1, c, 2 * n, stk, sn, c, k + 1);
    PartsKept(s0, s1, b, k, r, B0, B1, B2, c, 2 * n, stk, sn);
    EvaluateX(mem, b, wb, k, r, B0, B1, B2);
    ghost var s2 := mem[..];
    OnlyThen(s0, s1, s2, c, 2 * n, stk, sn, wb, k + 1);
    HeldKept(s1, s2, c, k + 1, QA, wb, k + 1);
    PartsKept(s0, s2, a, k, r, A0, A1, A2, c, 2 * n, stk, sn);
    SumParts(mem, a, va, k, r, A0, A1, A2);
    ghost var s3 := mem[..];
    OnlyThen(s0, s2, s3, c, 2 * n, stk, sn, va, k);
    HeldKept(s2, s3, c, k + 1, QA, va, k);
    HeldKept(s2, s3, wb, k + 1, QB, va, k);
    PartsKept(s0, s3, b, k, r, B0, B1, B2, c, 2 * n, stk, sn);
    SumParts(mem, b, vb, k, r, B0, B1, B2);
    ghost var s4 := mem[..];
    OnlyThen(s0, s3, s4, c, 2 * n, stk, sn, vb, k);
    HeldKept(s3, s4, c, k + 1, QA, vb, k);
    HeldKept(s3, s4, wb, k + 1, QB, vb, k);
    HeldKept(s3, s4, va, k, Add(Add(A0, A1), A2), vb, k);
  }

  lemma XShiftLayout(c: nat, a: nat, b: nat, n: nat, k: nat, r: nat, stk: nat, sp: nat)
    requires SizesX(n, k, r) && Layout(c, 2 * n, a, b, n, stk, 5 * k + 2 + sp)
    ensures var (va, vb, wb) := (c + k + 1, c + 2 * k + 2, c + 4 * k + 2); var (m, sn) := (k + 1, 5 * k + 2 + sp);
      && Layout(stk, 2 * k, va, vb, k, stk + 2 * k, sp)
      && Apart(stk, 2 * k, c, m) && Apart(stk, 2 * k, va, k) && Apart(stk, 2 * k, vb, k) && Apart(stk, 2 * k, wb, m)
      && Apart(stk + 2 * k, sp, c, m) && Apart(stk + 2 * k, sp, va, k) && Apart(stk + 2 * k, sp, vb, k)
      && Apart(stk + 2 * k, sp, wb, m)
      && Apart(c, m, va, m) && Apart(c, m, a, k) && Apart(va, m, a, k) && Apart(wb, m, vb, m) && Apart(wb, m, b, k)
      && Apart(vb, m, b, k)
      && Apart(c, m, vb, k) && Apart(c, m, wb, m) && Apart(c, m, stk, 2 * k) && Apart(va, m, vb, k)
      && Apart(va, m, wb, m) && Apart(va, m, stk, 2 * k)
      && Apart(wb, m, c, m) && Apart(wb, m, va, m) && Apart(wb, m, stk, 2 * k) && Apart(vb, m, c, m)
      && Apart(vb, m, va, m) && Apart(vb, m, stk, 2 * k)
      && Inside(stk, 2 * k, c, 2 * n, stk, sn) && Inside(stk + 2 * k, sp, c, 2 * n, stk, sn)
      && Inside(c, m, c, 2 * n, stk, sn) && Inside(va, m, c, 2 * n, stk, sn) && Inside(wb, m, c, 2 * n, stk, sn)
      && Inside(vb, m, c, 2 * n, stk, sn)
  {
  }

  /** The product at 1 and the values at x and 1 + x. */
  method ValuesAtX(t: Tuning, mem: array<Word>, c: nat, a: nat, b: nat, n: nat, k: nat, r: nat, stk: nat, ghost sp: nat,
                   ghost A0: Poly, ghost QA: Poly, ghost SA: Poly, ghost B0: Poly, ghost QB: Poly, ghost SB: Poly)
    requires t.Valid() && SizesX(n, k, r) && Layout(c, 2 * n, a, b, n, stk, 5 * k + 2 + sp) && Space(t, k) <= sp
      && 0 < k < n
    requires c + 2 * n <= mem.Length && stk + 5 * k + 2 + sp <= mem.Length
    requires Held(mem[..], a, k, A0) && Fits(A0, k) && Held(mem[..], b, k, B0) && Fits(B0, k) && Fits(SA, k)
      && Fits(SB, k)
    requires Held(mem[..], c, k + 1, QA) && Held(mem[..], c + k + 1, k, SA)
    requires Held(mem[..], c + 4 * k + 2, k + 1, QB) && Held(mem[..], c + 2 * k + 2, k, SB)
    modifies mem
    ensures Held(mem[..], stk, 2 * k, Mul(SA, SB))
    ensures Held(mem[..], c, k + 1, Add(QA, A0)) && Held(mem[..], c + k + 1, k + 1, Add(SA, QA))
    ensures Held(mem[..], c + 4 * k + 2, k + 1, Add(QB, B0)) && Held(mem[..], c + 2 * k + 2, k + 1, Add(SB, QB))
    ensures Only2(old(mem[..]), mem[..], c, 2 * n, stk, 5 * k + 2 + sp)
    decreases n, 0
  {
    hide W, Mul, Add, Fits, Held, Only, Only2, Apart, Inside, Space;
    ghost var s0, sn := mem[..], 5 * k + 2 + sp;
    var va, vb, wb := c + k + 1, c + 2 * k + 2, c + 4 * k + 2;
    XShiftLayout(c, a, b, n, k, r, stk, sp);
    Only2Same(s0, c, 2 * n, stk, sn);
    MulToom(t, mem, stk, va, vb, k, stk + 2 * k, sp, SA, SB);
    ghost var s1 := mem[..];
    Only2Then(s0, s0, s1, c, 2 * n, stk, sn, stk, 2 * k, stk + 2 * k, sp);
    HeldKept2(s0, s1, c, k + 1, QA, stk, 2 * k, stk + 2 * k, sp);
    HeldKept2(s0, s1, va, k, SA, stk, 2 * k, stk + 2 * k, sp);
    HeldKept2(s0, s1, vb, k, SB, stk, 2 * k, stk + 2 * k, sp);
    HeldKept2(s0, s1, wb, k + 1, QB, stk, 2 * k, stk + 2 * k, sp);
    OperandKept(s0, s1, a, n, k, A0, c, 2 * n, stk, sn);
    ShiftSums(mem, a, c, va, k, A0, QA, SA);
    ghost var s2 := mem[..];
    Only2Then(s0, s1, s2, c, 2 * n, stk, sn, c, k + 1, va, k + 1);
    HeldKept2(s1, s2, stk, 2 * k, Mul(SA, SB), c, k + 1, va, k + 1);
    HeldKept2(s1, s2, vb, k, SB, c, k + 1, va, k + 1);
    HeldKept2(s1, s2, wb, k + 1, QB, c, k + 1, va, k + 1);
    OperandKept(s0, s2, b, n, k, B0, c, 2 * n, stk, sn);
    ShiftSums(mem, b, wb, vb, k, B0, QB, SB);
    ghost var s3 := mem[..];
    Only2Then(s0, s2, s3, c, 2 * n, stk, sn, wb, k + 1, vb, k + 1);
    HeldKept2(s2, s3, stk, 2 * k, Mul(SA, SB), wb, k + 1, vb, k + 1);
    HeldKept2(s2, s3, c, k + 1, Add(QA, A0), wb, k + 1, vb, k + 1);
    HeldKept2(s2, s3, va, k + 1, Add(SA, QA), wb, k + 1, vb, k + 1);
  }

  lemma XProductLayout(c: nat, a: nat, b: nat, n: nat, k: nat, r: nat, stk: nat, sp: nat)
    requires SizesX(n, k, r) && Layout(c, 2 * n, a, b, n, stk, 5 * k + 2 + sp)
    ensures var (va, vb, wb, w2, w3, u) :=
      (c + k + 1, c + 2 * k + 2, c + 4 * k + 2, c + 2 * k, stk + 2 * k, stk + 4 * k + 3);
      var (m, st) := (k + 1, stk + 5 * k + 2);
      && Layout(w3, 2 * m, vb, va, m, st, sp) && Layout(w2, 2 * m, c, wb, m, u, sp)
      && Apart(w3, 2 * m, stk, 2 * k) && Apart(w3, 2 * m, c, m) && Apart(w3, 2 * m, wb, m)
      && Apart(st, sp, stk, 2 * k) && Apart(st, sp, c, m) && Apart(st, sp, wb, m)
      && Apart(w2, 2 * m, stk, 2 * k) && Apart(w2, 2 * m, w3, 2 * m) && Apart(u, sp, stk, 2 * k)
      && Apart(u, sp, w3, 2 * k + 1)
  {
  }

  lemma XProductKeeps(c: nat, a: nat, b: nat, n: nat, k: nat, r: nat, stk: nat, sp: nat)
    requires SizesX(n, k, r) && Layout(c, 2 * n, a, b, n, stk, 5 * k + 2 + sp)
    ensures var (w2, w3, w4, u, st) := (c + 2 * k, stk + 2 * k, c + 4 * k, stk + 4 * k + 3, stk + 5 * k + 2);
      var (m, sn) := (k + 1, 5 * k + 2 + sp);
      && Apart(w2, 2 * m, w3, 2 * k + 1)
      && Inside(w3, 2 * m, c, 2 * n, stk, sn) && Inside(st, sp, c, 2 * n, stk, sn)
      && Inside(w2, 2 * m, c, 2 * n, stk, sn)
      && Inside(u, sp, c, 2 * n, stk, sn)
      && DisjointX(c, stk, w2, w3, w4, 2 * k, 2 * r)
      && Inside(stk, 2 * k, c, 2 * n, stk, sn) && Inside(w2, 2 * k, c, 2 * n, stk, sn)
      && Inside(w3, 2 * k + 1, c, 2 * n, stk, sn)
      && Apart(c, 2 * n, stk, 2 * k) && Apart(c, 2 * n, w3, 2 * k) && Inside(c, 2 * n, c, 2 * n, stk, sn)
  {
  }

  /** The other four products; word 2k of the value at x, which lies where c4 goes, is returned. */
  method FourProductsX(t: Tuning, mem: array<Word>, c: nat, a: nat, b: nat, n: nat, k: nat, r: nat, stk: nat,
                       ghost sp: nat,
                       ghost A0: Poly, ghost A1: Poly, ghost A2: Poly, ghost B0: Poly, ghost B1: Poly, ghost B2: Poly,
                       ghost TA: Poly, ghost UA: Poly, ghost TB: Poly, ghost UB: Poly, ghost P1: Poly)
                       returns (cy: Word)
    requires t.Valid() && SizesX(n, k, r) && Layout(c, 2 * n, a, b, n, stk, 5 * k + 2 + sp) && 0 < r && k + 1 < n
    requires Space(t, k) <= sp && Space(t, k + 1) <= sp && Space(t, r) <= sp
    requires c + 2 * n <= mem.Length && stk + 5 * k + 2 + sp <= mem.Length
    requires Parts(mem[..], a, k, r, A0, A1, A2) && Parts(mem[..], b, k, r, B0, B1, B2)
    requires Held(mem[..], stk, 2 * k, P1) && Held(mem[..], c, k + 1, TA) && Held(mem[..], c + k + 1, k + 1, UA)
    requires Held(mem[..], c + 4 * k + 2, k + 1, TB) && Held(mem[..], c + 2 * k + 2, k + 1, UB)
    requires Fits(TA, k + 1) && Fits(UA, k + 1) && Fits(TB, k + 1) && Fits(UB, k + 1)
    modifies mem
    ensures Held(mem[..], stk, 2 * k, P1) && Held(mem[..], stk + 2 * k, 2 * k + 1, Mul(UB, UA))
    ensures Held(mem[..], c + 2 * k, 2 * k, Mul(TA, TB)) && cy == W(Mul(TA, TB), 2 * k)
    ensures Held(mem[..], c, 2 * k, Mul(A0, B0)) && Held(mem[..], c + 4 * k, 2 * r, Mul(A2, B2))
    ensures Only2(old(mem[..]), mem[..], c, 2 * n, stk, 5 * k + 2 + sp)
    decreases n, 2
  {
    hide W, Mul, Fits, Held, Only2, Apart, Inside, Parts, Space, DisjointX;
    ghost var s0, sn := mem[..], 5 * k + 2 + sp;
    var va, vb, wb, w3, m := c + k + 1, c + 2 * k + 2, c + 4 * k + 2, stk + 2 * k, k + 1;
    ghost var P3 := Mul(UB, UA);
    XProductLayout(c, a, b, n, k, r, stk, sp);
    XProductKeeps(c, a, b, n, k, r, stk, sp);
    Only2Same(s0, c, 2 * n, stk, sn);

    MulToom(t, mem, w3, vb, va, m, stk + 5 * k + 2, sp, UB, UA);
    ghost var s1 := mem[..];
    Only2Then(s0, s0, s1, c, 2 * n, stk, sn, w3, 2 * m, stk + 5 * k + 2, sp);
    HeldKept2(s0, s1, stk, 2 * k, P1, w3, 2 * m, stk + 5 * k + 2, sp);
    HeldKept2(s0, s1, c, m, TA, w3, 2 * m, stk + 5 * k + 2, sp);
    HeldKept2(s0, s1, wb, m, TB, w3, 2 * m, stk + 5 * k + 2, sp);

    HeldPrefix(s1, w3, 2 * m, P3, 2 * k + 1);
    PartsKept(s0, s1, a, k, r, A0, A1, A2, c, 2 * n, stk, sn);
    PartsKept(s0, s1, b, k, r, B0, B1, B2, c, 2 * n, stk, sn);
    cy := ThreeProductsX(t, mem, c, a, b, n, k, r, stk, sp, A0, A1, A2, B0, B1, B2, TA, TB, P1, P3);
    OnlyThen2(s0, s1, mem[..], c, 2 * n, stk, sn);
  }

  /** The product at x, whose highest word the next one overwrites, and the products at 0 and at infinity. */
  method ThreeProductsX(t: Tuning, mem: array<Word>, c: nat, a: nat, b: nat, n: nat, k: nat, r: nat, stk: nat,
                        ghost sp: nat,
                        ghost A0: Poly, ghost A1: Poly, ghost A2: Poly, ghost B0: Poly, ghost B1: Poly, ghost B2: Poly,
                        ghost TA: Poly, ghost TB: Poly, ghost P1: Poly, ghost P3: Poly) returns (cy: Word)
    requires t.Valid() && SizesX(n, k, r) && Layout(c, 2 * n, a, b, n, stk, 5 * k + 2 + sp) && 0 < r && k + 1 < n
    requires Space(t, k) <= sp && Space(t, k + 1) <= sp && Space(t, r) <= sp
    requires c + 2 * n <= mem.Length && stk + 5 * k + 2 + sp <= mem.Length
    requires Parts(mem[..], a, k, r, A0, A1, A2) && Parts(mem[..], b, k, r, B0, B1, B2)
    requires Held(mem[..], stk, 2 * k, P1) && Held(mem[..], stk + 2 * k, 2 * k + 1, P3)
    requires Held(mem[..], c, k + 1, TA) && Held(mem[..], c + 4 * k + 2, k + 1, TB) && Fits(TA, k + 1)
      && Fits(TB, k + 1)
    modifies mem
    ensures Held(mem[..], stk, 2 * k, P1) && Held(mem[..], stk + 2 * k, 2 * k + 1, P3)
    ensures Held(mem[..], c + 2 * k, 2 * k, Mul(TA, TB)) && cy == W(Mul(TA, TB), 2 * k)
    ensures Held(mem[..], c, 2 * k, Mul(A0, B0)) && Held(mem[..], c + 4 * k, 2 * r, Mul(A2, B2))
    ensures Only2(old(mem[..]), mem[..], c, 2 * n, stk, 5 * k + 2 + sp)
    decreases n, 1
  {
    hide W, Mul, Fits, Held, Only2, Apart, Inside, Parts, Space, DisjointX;
    ghost var s0, sn := mem[..], 5 * k + 2 + sp;
    var wb, w2, w3, w4, u, m := c + 4 * k + 2, c + 2 * k, stk + 2 * k, c + 4 * k, stk + 4 * k + 3, k + 1;
    ghost var P2 := Mul(TA, TB);
    XProductLayout(c, a, b, n, k, r, stk, sp);
    XProductKeeps(c, a, b, n, k, r, stk, sp);
    Only2Same(s0, c, 2 * n, stk, sn);
    MulToom(t, mem, w2, c, wb, m, u, sp, TA, TB);
    ghost var s1 := mem[..];
    Only2Then(s0, s0, s1, c, 2 * n, stk, sn, w2, 2 * m, u, sp);
    HeldKept2(s0, s1, stk, 2 * k, P1, w2, 2 * m, u, sp);
    HeldKept2(s0, s1, w3, 2 * k + 1, P3, w2, 2 * m, u, sp);
    HeldWord(mem, w2, 2 * m, P2, 2 * k);
    cy := mem[w4];
    HeldPrefix(s1, w2, 2 * m, P2, 2 * k);
    PartsKept(s0, s1, a, k, r, A0, A1, A2, c, 2 * n, stk, sn);
    PartsKept(s0, s1, b, k, r, B0, B1, B2, c, 2 * n, stk, sn);
    OuterProductsX(t, mem, c, a, b, n, k, r, stk, sp, A0, A1, A2, B0, B1, B2, P1, P2, P3);
    OnlyThen2(s0, s1, mem[..], c, 2 * n, stk, sn);
  }

  lemma OuterLayoutX(c: nat, a: nat, b: nat, n: nat, k: nat, r: nat, stk: nat, sp: nat)
    requires SizesX(n, k, r) && Layout(c, 2 * n, a, b, n, stk, 5 * k + 2 + sp)
    ensures var (w2, w3, w4, u) := (c + 2 * k, stk + 2 * k, c + 4 * k, stk + 4 * k + 3); var sn := 5 * k + 2 + sp;
      && Layout(c, 2 * k, a, b, k, u, sp) && Layout(w4, 2 * r, a + 2 * k, b + 2 * k, r, u, sp)
      && Apart(u, sp, stk, 2 * k) && Apart(u, sp, w3, 2 * k + 1) && Apart(u, sp, w2, 2 * k) && Apart(u, sp, c, 2 * k)
      && Apart(c, 2 * k, stk, 2 * k) && Apart(c, 2 * k, w3, 2 * k + 1) && Apart(c, 2 * k, w2, 2 * k)
      && Apart(w4, 2 * r, stk, 2 * k) && Apart(w4, 2 * r, w3, 2 * k + 1) && Apart(w4, 2 * r, w2, 2 * k)
      && Apart(w4, 2 * r, c, 2 * k)
      && Inside(u, sp, c, 2 * n, stk, sn) && Inside(c, 2 * k, c, 2 * n, stk, sn) && Inside(w4, 2 * r, c, 2 * n, stk, sn)
  {
  }

  /** The products at 0 and infinity. */
  method OuterProductsX(t: Tuning, mem: array<Word>, c: nat, a: nat, b: nat, n: nat, k: nat, r: nat, stk: nat,
                        ghost sp: nat,
                        ghost A0: Poly, ghost A1: Poly, ghost A2: Poly, ghost B0: Poly, ghost B1: Poly, ghost B2: Poly,
                        ghost P1: Poly, ghost P2: Poly, ghost P3: Poly)
    requires t.Valid() && SizesX(n, k, r) && Layout(c, 2 * n, a, b, n, stk, 5 * k + 2 + sp) && 0 < r && k + 1 < n
    requires Space(t, k) <= sp && Space(t, r) <= sp && c + 2 * n <= mem.Length && stk + 5 * k + 2 + sp <= mem.Length
    requires Parts(mem[..], a, k, r, A0, A1, A2) && Parts(mem[..], b, k, r, B0, B1, B2)
    requires Held(mem[..], stk, 2 * k, P1) && Held(mem[..], stk + 2 * k, 2 * k + 1, P3)
      && Held(mem[..], c + 2 * k, 2 * k, P2)
    modifies mem
    ensures Held(mem[..], stk, 2 * k, P1) && Held(mem[..], stk + 2 * k, 2 * k + 1, P3)
      && Held(mem[..], c + 2 * k, 2 * k, P2)
    ensures Held(mem[..], c, 2 * k, Mul(A0, B0)) && Held(mem[..], c + 4 * k, 2 * r, Mul(A2, B2))
    ensures Only2(old(mem[..]), mem[..], c, 2 * n, stk, 5 * k + 2 + sp)
    decreases n, 0
  {
    hide W, Mul, Fits, Held, Only2, Apart, Inside, Parts, Space;
    ghost var s0, sn := mem[..], 5 * k + 2 + sp;
    var w2, w3, w4, u := c + 2 * k, stk + 2 * k, c + 4 * k, stk + 4 * k + 3;
    OuterLayoutX(c, a, b, n, k, r, stk, sp);
    PartsHeld(s0, a, k, r, A0, A1, A2);
    PartsHeld(s0, b, k, r, B0, B1, B2);
    Only2Same(s0, c, 2 * n, stk, sn);
    MulToom(t, mem, c, a, b, k, u, sp, A0, B0);
    ghost var s1 := mem[..];
    Only2Then(s0, s0, s1, c, 2 * n, stk, sn, c, 2 * k, u, sp);
    HeldKept2(s0, s1, stk, 2 * k, P1, c, 2 * k, u, sp);
    HeldKept2(s0, s1, w3, 2 * k + 1, P3, c, 2 * k, u, sp);
    HeldKept2(s0, s1, w2, 2 * k, P2, c, 2 * k, u, sp);
    PartsKept(s0, s1, a, k, r, A0, A1, A2, c, 2 * n, stk, sn);
    PartsKept(s0, s1, b, k, r, B0, B1, B2, c, 2 * n, stk, sn);
    PartsHeld(s1, a, k, r, A0, A1, A2);
    PartsHeld(s1, b, k, r, B0, B1, B2);
    MulToom(t, mem, w4, a + 2 * k, b + 2 * k, r, u, sp, A2, B2);
    ghost var s2 := mem[..];
    Only2Then(s0, s1, s2, c, 2 * n, stk, sn, w4, 2 * r, u, sp);
    HeldKept2(s1, s2, stk, 2 * k, P1, w4, 2 * r, u, sp);
    HeldKept2(s1, s2, w3, 2 * k + 1, P3, w4, 2 * r, u, sp);
    HeldKept2(s1, s2, w2, 2 * k, P2, w4, 2 * r, u, sp);
    HeldKept2(s1, s2, c, 2 * k, Mul(A0, B0), w4, 2 * r, u, sp);
  }

  lemma Tc3Sizes(t: Tuning, n: nat, space: nat)
    requires t.Valid() && 17 <= n && Space(t, n) <= space
    ensures var k := (n + 2) / 3; var r := n - 2 * k;
      && SizesX(n, k, r) && 0 < r && k + 1 < n && 5 * k + 2 <= space
      && Space(t, k) <= space - (5 * k + 2) && Space(t, k + 1) <= space - (5 * k + 2)
      && Space(t, r) <= space - (5 * k + 2)
  {
    hide Space;
    var k := (n + 2) / 3;
    Tc3Covered(t, n, k);
    Tc3Covered(t, n, k + 1);
    Tc3Covered(t, n, n - 2 * k);
  }

  lemma ValueFitsX(A0: Poly, A1: Poly, A2: Poly, k: nat, r: nat)
    requires Fits(A0, k) && Fits(A1, k) && Fits(A2, r) && r <= k
    ensures var (S, Q) := (Add(Add(A0, A1), A2), Add(Shift(A1, 1), Shift(A2, 2)));
      Fits(S, k) && Fits(Add(Q, A0), k + 1) && Fits(Add(S, Q), k + 1)
  {
    hide Fits, Add, Shift;
    var m := k + 1;
    FitsLess(A2, r, k);
    FitsAdd(A0, A1, k);
    FitsAdd(Add(A0, A1), A2, k);
    FitsLess(Add(Add(A0, A1), A2), k, m);
    FitsLess(A0, k, m);
    FitsShift(A1, k, 1);
    FitsShift(A2, k, 2);
    FitsAdd(Shift(A1, 1), Shift(A2, 2), m);
    FitsAdd(Add(Shift(A1, 1), Shift(A2, 2)), A0, m);
    FitsAdd(Add(Add(A0, A1), A2), Add(Shift(A1, 1), Shift(A2, 2)), m);
  }

  lemma FitsShift(P: Poly, k: nat, e: nat)
    requires Fits(P, k) && e <= 64
    ensures Fits(Shift(P, e), k + 1)
  {
    hide Shift;
    forall i | i in Shift(P, e)
      ensures i < 64 * (k + 1)
    {
      assert i - e in P;
    }
  }

  /** Evaluation and the five products of gf2x_mul_tc3. */
  method MulValuesX(t: Tuning, mem: array<Word>, c: nat, a: nat, b: nat, n: nat, k: nat, r: nat, stk: nat,
                    ghost sp: nat,
                    ghost A0: Poly, ghost A1: Poly, ghost A2: Poly, ghost B0: Poly, ghost B1: Poly, ghost B2: Poly)
                    returns (cy: Word)
    requires t.Valid() && SizesX(n, k, r) && Layout(c, 2 * n, a, b, n, stk, 5 * k + 2 + sp) && 0 < r && k + 1 < n
    requires Space(t, k) <= sp && Space(t, k + 1) <= sp && Space(t, r) <= sp
    requires c + 2 * n <= mem.Length && stk + 5 * k + 2 + sp <= mem.Length
    requires Parts(mem[..], a, k, r, A0, A1, A2) && Parts(mem[..], b, k, r, B0, B1, B2)
    modifies mem
    ensures var (SA, QA) := (Add(Add(A0, A1), A2), Add(Shift(A1, 1), Shift(A2, 2)));
      var (SB, QB) := (Add(Add(B0, B1), B2), Add(Shift(B1, 1), Shift(B2, 2)));
      && Held(mem[..], stk, 2 * k, Mul(SA, SB)) && Held(mem[..], stk + 2 * k, 2 * k + 1, Mul(Add(SB, QB), Add(SA, QA)))
      && Held(mem[..], c + 2 * k, 2 * k, Mul(Add(QA, A0), Add(QB, B0))) && cy == W(Mul(Add(QA, A0), Add(QB, B0)), 2 * k)
      && Held(mem[..], c, 2 * k, Mul(A0, B0)) && Held(mem[..], c + 4 * k, 2 * r, Mul(A2, B2))
    ensures Only2(old(mem[..]), mem[..], c, 2 * n, stk, 5 * k + 2 + sp)
    decreases n, 3
  {
    hide W, Mul, Fits, Held, Only2, Apart, Inside, Parts, Space, Add, Shift;
    ghost var s0, sn := mem[..], 5 * k + 2 + sp;
    ghost var SA, QA := Add(Add(A0, A1), A2), Add(Shift(A1, 1), Shift(A2, 2));
    ghost var SB, QB := Add(Add(B0, B1), B2), Add(Shift(B1, 1), Shift(B2, 2));
    PartsHeld(s0, a, k, r, A0, A1, A2);
    PartsHeld(s0, b, k, r, B0, B1, B2);
    ValueFitsX(A0, A1, A2, k, r);
    ValueFitsX(B0, B1, B2, k, r);
    EvaluateBits(mem, c, a, b, n, k, r, stk, sn, A0, A1, A2, B0, B1, B2);
    ghost var s1 := mem[..];
    PartsKept(s0, s1, a, k, r, A0, A1, A2, c, 2 * n, stk, sn);
    PartsKept(s0, s1, b, k, r, B0, B1, B2, c, 2 * n, stk, sn);
    PartsHeld(s1, a, k, r, A0, A1, A2);
    PartsHeld(s1, b, k, r, B0, B1, B2);
    ValuesAtX(t, mem, c, a, b, n, k, r, stk, sp, A0, QA, SA, B0, QB, SB);
    ghost var s2 := mem[..];
    OnlyThen2(s0, s1, s2, c, 2 * n, stk, sn);
    PartsKept(s0, s2, a, k, r, A0, A1, A2, c, 2 * n, stk, sn);
    PartsKept(s0, s2, b, k, r, B0, B1, B2, c, 2 * n, stk, sn);
    cy := FourProductsX(t, mem, c, a, b, n, k, r, stk, sp, A0, A1, A2, B0, B1, B2,
      Add(QA, A0), Add(SA, QA), Add(QB, B0), Add(SB, QB), Mul(SA, SB));
    OnlyThen2(s0, s2, mem[..], c, 2 * n, stk, sn);
  }

  method MulTc3(t: Tuning, mem: array<Word>, c: nat, a: nat, b: nat, n: nat, stk: nat, ghost space: nat, ghost A: Poly,
                ghost B: Poly)
    requires t.Valid() && 17 <= n && Space(t, n) <= space && c + 2 * n <= mem.Length && stk + space <= mem.Length
    requires Held(mem[..], a, n, A) && Held(mem[..], b, n, B) && Fits(A, n) && Fits(B, n)
    requires Layout(c, 2 * n, a, b, n, stk, space)
    modifies mem
    ensures Held(mem[..], c, 2 * n, Mul(A, B)) && Only2(old(mem[..]), mem[..], c, 2 * n, stk, space)
    decreases n, 4
  {
    hide W, Mul, Fits, Held, Only, Only2, Apart, Space, Inside, Low, High, Add, Shift, Eval, Parts, DisjointX;
    var k := (n + 2) / 3;
    var r := n - 2 * k;
    ghost var s0, sp := mem[..], space - (5 * k + 2);
    Tc3Sizes(t, n, space);
    ghost var A0, A1, A2 := Low(A, 64 * k), Low(High(A, 64 * k), 64 * k), High(High(A, 64 * k), 64 * k);
    ghost var B0, B1, B2 := Low(B, 64 * k), Low(High(B, 64 * k), 64 * k), High(High(B, 64 * k), 64 * k);
    CutThree(s0, a, k, r, A);
    CutThree(s0, b, k, r, B);
    PartsHeld(s0, a, k, r, A0, A1, A2);
    PartsHeld(s0, b, k, r, B0, B1, B2);
    ghost var c0, c1, c2, c3, c4 := ThreeWayProduct(A0, A1, A2, B0, B1, B2, 1, k, r);
    var cy := MulValuesX(t, mem, c, a, b, n, k, r, stk, sp, A0, A1, A2, B0, B1, B2);
    ghost var s1 := mem[..];
    MulComm(Add(Add(A0, A1), A2), Add(Add(B0, B1), B2));
    XProductKeeps(c, a, b, n, k, r, stk, sp);
    ValueFitsX(A0, A1, A2, k, r);
    ValueFitsX(B0, B1, B2, k, r);
    FitsMul(Add(Add(B0, B1), B2), Add(Add(A0, A1), A2), k, k);
    InterpolateX(mem, c, stk, c + 2 * k, stk + 2 * k, c + 4 * k, k, r, cy, c0, c1, c2, c3, c4, c, 2 * n, stk, space);
    ghost var s2 := mem[..];
    OnlyThen2(s0, s1, s2, c, 2 * n, stk, space);
    FinishX(mem, c, n, k, r, stk, c0, c1, c2, c3, c4);
    OnlyThen(s0, s2, mem[..], c, 2 * n, stk, space, c, 2 * n);
  }

  /** The recomposition with the coefficients named. */
  method FinishX(mem: array<Word>, c: nat, n: nat, k: nat, r: nat, stk: nat,
                 ghost c0: Poly, ghost c1: Poly, ghost c2: Poly, ghost c3: Poly, ghost c4: Poly)
    requires SizesX(n, k, r) && c + 2 * n <= mem.Length && Apart(c, 2 * n, stk, 2 * k)
      && Apart(c, 2 * n, stk + 2 * k, 2 * k)
    requires Fits(c0, 2 * k) && Fits(c1, 2 * k) && Fits(c2, 2 * k) && Fits(c3, 2 * k) && Fits(c4, 2 * r)
    requires Held(mem[..], c, 2 * k, c0) && Held(mem[..], stk, 2 * k, Add(Add(Eval([c0, c1, c2, c3, c4], ONE), c0), c4))
    requires Held(mem[..], c + 2 * k, 2 * k, Add(c2, c3)) && Held(mem[..], stk + 2 * k, 2 * k, c3)
      && Held(mem[..], c + 4 * k, 2 * r, c4)
    modifies mem
    ensures Held(mem[..], c, 2 * n, Add(Add(Add(Add(c0, Y(c2, 2 * k)), Y(c4, 4 * k)), Y(c1, k)), Y(c3, 3 * k)))
    ensures Only(old(mem[..]), mem[..], c, 2 * n)
  {
    hide W, Fits, Held, Only, Apart, Add, Y, Eval, Shift, High, Twice;
    ghost var T, R := Add(Add(Eval([c0, c1, c2, c3, c4], ONE), c0), c4), Add(c2, c3);
    Interpolation(c0, c1, c2, c3, c4, 1);
    SumParts3(Add(Eval([c0, c1, c2, c3, c4], ONE), c0), c1, c2, c3, c4);
    FitsAdd(c2, c3, 2 * k);
    FitsAdd(c1, R, 2 * k);
    RecomposeX(mem, c, k, 2 * r, stk, stk + 2 * k, c0, R, c4, T, c3);
  }

  lemma SumParts3(V: Poly, c1: Poly, c2: Poly, c3: Poly, c4: Poly)
    requires Add(V, Add(Add(c2, c3), c4)) == c1
    ensures var (T, R) := (Add(V, c4), Add(c2, c3)); Add(T, R) == c1 && Add(R, c3) == c2 && T == Add(c1, R)
  {
    hide Add;
  }

  // ---------------------------------------------------------------- the four-way routine

  /** Sizes of gf2x_mul_tc4. */
  predicate SizesF(n: nat, k: nat, r: nat) {
    30 <= n == 3 * k + r && 0 < r <= k && k + 3 <= 2 * r
  }

  lemma FirstLayout(c: nat, a: nat, b: nat, n: nat, k: nat, r: nat, stk: nat, sn: nat)
    requires SizesF(n, k, r) && Layout(c, 2 * n, a, b, n, stk, sn) && 6 * k + 2 <= sn
    ensures var (ga, ha, sb, gb, hb, m) := (c, c + 4 * k + 2, c + 2 * k + 2, c + 6 * k + 2, stk + 2 * k + 2, k + 1);
      && Apart(stk, k, a, n) && Apart(ga, m, a, n) && Apart(ha, m, a, n) && Apart(sb, k, b, n) && Apart(gb, m, b, n)
      && Apart(hb, m, b, n)
      && Apart(ha, m, stk, k) && Apart(ga, m, stk, k) && Apart(ha, m, ga, m) && Apart(hb, m, sb, k)
      && Apart(gb, m, sb, k) && Apart(hb, m, gb, m)
      && Apart(sb, k, stk, k) && Apart(gb, m, stk, k) && Apart(hb, m, stk, k) && Apart(sb, k, ga, m)
      && Apart(gb, m, ga, m) && Apart(hb, m, ga, m)
      && Apart(sb, k, ha, m) && Apart(gb, m, ha, m) && Apart(hb, m, ha, m)
      && Inside(stk, k, c, 2 * n, stk, sn) && Inside(ga, m, c, 2 * n, stk, sn) && Inside(ha, m, c, 2 * n, stk, sn)
      && Inside(sb, k, c, 2 * n, stk, sn) && Inside(gb, m, c, 2 * n, stk, sn) && Inside(hb, m, c, 2 * n, stk, sn)
  {
  }

  /** Values at 1, x and 1 + x of both operands. */
  method FirstValuesBoth(mem: array<Word>, c: nat, a: nat, b: nat, ghost n: nat, k: nat, r: nat, stk: nat,
                         ghost sn: nat,
                         ghost A0: Poly, ghost A1: Poly, ghost A2: Poly, ghost A3: Poly, ghost B0: Poly, ghost B1: Poly,
                         ghost B2: Poly, ghost B3: Poly)
    requires SizesF(n, k, r) && Layout(c, 2 * n, a, b, n, stk, sn) && 6 * k + 2 <= sn && c + 2 * n <= mem.Length
      && stk + sn <= mem.Length
    requires Parts4(mem[..], a, k, r, A0, A1, A2, A3) && Parts4(mem[..], b, k, r, B0, B1, B2, B3)
    modifies mem
    ensures var (p, q) := ([A0, A1, A2, A3], [B0, B1, B2, B3]);
      && Held(mem[..], stk, k, Eval(p, ONE)) && Held(mem[..], c, k + 1, Eval(p, {1}))
      && Held(mem[..], c + 4 * k + 2, k + 1, Eval(p, {0, 1}))
      && Held(mem[..], c + 2 * k + 2, k, Eval(q, ONE)) && Held(mem[..], c + 6 * k + 2, k + 1, Eval(q, {1}))
      && Held(mem[..], stk + 2 * k + 2, k + 1, Eval(q, {0, 1}))
    ensures Only2(old(mem[..]), mem[..], c, 2 * n, stk, sn)
  {
    hide W, Held, Fits, Only2, Only3, Apart, Inside, Parts4, Eval;
    ghost var p := [A0, A1, A2, A3];
    ghost var s0 := mem[..];
    var ga, ha, sb, gb, hb := c, c + 4 * k + 2, c + 2 * k + 2, c + 6 * k + 2, stk + 2 * k + 2;
    FirstLayout(c, a, b, n, k, r, stk, sn);
    EvaluateFirst(mem, a, stk, ga, ha, k, r, A0, A1, A2, A3);
    ghost var s1 := mem[..];
    Only3Inside(s0, s1, stk, k, ga, k + 1, ha, k + 1, c, 2 * n, stk, sn);
    Parts4Kept(s0, s1, b, k, r, B0, B1, B2, B3, c, 2 * n, stk, sn);
    EvaluateFirst(mem, b, sb, gb, hb, k, r, B0, B1, B2, B3);
    ghost var s2 := mem[..];
    Only3Inside(s1, s2, sb, k, gb, k + 1, hb, k + 1, c, 2 * n, stk, sn);
    OnlyThen2(s0, s1, s2, c, 2 * n, stk, sn);
    HeldKept3(s1, s2, stk, k, Eval(p, ONE), sb, k, gb, k + 1, hb, k + 1);
    HeldKept3(s1, s2, ga, k + 1, Eval(p, {1}), sb, k, gb, k + 1, hb, k + 1);
    HeldKept3(s1, s2, ha, k + 1, Eval(p, {0, 1}), sb, k, gb, k + 1, hb, k + 1);
  }

  lemma ThreeLayout(c: nat, a: nat, b: nat, n: nat, k: nat, r: nat, stk: nat, sp: nat)
    requires SizesF(n, k, r) && Layout(c, 2 * n, a, b, n, stk, 6 * k + 2 + sp)
    ensures var (ha, sb, gb, hb, m, st) :=
      (c + 4 * k + 2, c + 2 * k + 2, c + 6 * k + 2, stk + 2 * k + 2, k + 1, stk + 6 * k + 2);
      var (w5, w4) := (stk + 4 * k, c + 4 * k);
      && Layout(w5, 2 * m, ha, hb, m, st, sp) && Layout(w4, 2 * m, c, gb, m, st, sp)
      && Apart(w5, 2 * m, stk, k) && Apart(w5, 2 * m, c, m) && Apart(w5, 2 * m, sb, k) && Apart(w5, 2 * m, gb, m)
      && Apart(st, sp, stk, k) && Apart(st, sp, c, m) && Apart(st, sp, sb, k) && Apart(st, sp, gb, m)
      && Apart(w4, 2 * m, stk, k) && Apart(w4, 2 * m, sb, k) && Apart(w4, 2 * m, w5, 2 * k + 1)
      && Apart(st, sp, w5, 2 * k + 1)
  {
  }

  lemma ThreeInside(c: nat, n: nat, k: nat, r: nat, stk: nat, sp: nat)
    requires SizesF(n, k, r)
    ensures var (m, st, sn) := (k + 1, stk + 6 * k + 2, 6 * k + 2 + sp);
      && Inside(stk + 4 * k, 2 * m, c, 2 * n, stk, sn) && Inside(st, sp, c, 2 * n, stk, sn)
      && Inside(c + 4 * k, 2 * m, c, 2 * n, stk, sn)
  {
  }

  /** The products at 1 + x, x and 1; word 2k of the second is returned. */
  method FirstProducts(t: Tuning, mem: array<Word>, c: nat, a: nat, b: nat, n: nat, k: nat, r: nat, stk: nat,
                       ghost sp: nat,
                       ghost SA: Poly, ghost TA: Poly, ghost UA: Poly, ghost SB: Poly, ghost TB: Poly, ghost UB: Poly)
                       returns (cy: Word)
    requires t.Valid() && SizesF(n, k, r) && Layout(c, 2 * n, a, b, n, stk, 6 * k + 2 + sp) && k + 1 < n
    requires Space(t, k) <= sp && Space(t, k + 1) <= sp && c + 2 * n <= mem.Length && stk + 6 * k + 2 + sp <= mem.Length
    requires Held(mem[..], stk, k, SA) && Held(mem[..], c, k + 1, TA) && Held(mem[..], c + 4 * k + 2, k + 1, UA)
    requires Held(mem[..], c + 2 * k + 2, k, SB) && Held(mem[..], c + 6 * k + 2, k + 1, TB)
      && Held(mem[..], stk + 2 * k + 2, k + 1, UB)
    requires Fits(SA, k) && Fits(TA, k + 1) && Fits(UA, k + 1) && Fits(SB, k) && Fits(TB, k + 1) && Fits(UB, k + 1)
    modifies mem
    ensures Held(mem[..], stk, k, SA) && Held(mem[..], c + 2 * k + 2, k, SB)
    ensures Held(mem[..], stk + 4 * k, 2 * k + 1, Mul(UA, UB)) && Held(mem[..], c + 4 * k, 2 * k, Mul(TA, TB))
      && Held(mem[..], stk + 2 * k, 2 * k, Mul(SA, SB))
    ensures cy == W(Mul(TA, TB), 2 * k) && Only2(old(mem[..]), mem[..], c, 2 * n, stk, 6 * k + 2 + sp)
    decreases n, 1
  {
    hide W, Mul, Held, Fits, Only2, Apart, Inside, Space;
    ghost var s0, sn := mem[..], 6 * k + 2 + sp;
    var ha, sb, gb, hb, m, st := c + 4 * k + 2, c + 2 * k + 2, c + 6 * k + 2, stk + 2 * k + 2, k + 1, stk + 6 * k + 2;
    var w5, w4 := stk + 4 * k, c + 4 * k;
    ThreeLayout(c, a, b, n, k, r, stk, sp);
    ThreeInside(c, n, k, r, stk, sp);
    Only2Same(s0, c, 2 * n, stk, sn);
    MulToom(t, mem, w5, ha, hb, m, st, sp, UA, UB);
    ghost var s1 := mem[..];
    Only2Then(s0, s0, s1, c, 2 * n, stk, sn, w5, 2 * m, st, sp);
    HeldKept2(s0, s1, stk, k, SA, w5, 2 * m, st, sp);
    HeldKept2(s0, s1, c, m, TA, w5, 2 * m, st, sp);
    HeldKept2(s0, s1, sb, k, SB, w5, 2 * m, st, sp);
    HeldKept2(s0, s1, gb, m, TB, w5, 2 * m, st, sp);
    HeldPrefix(s1, w5, 2 * m, Mul(UA, UB), 2 * k + 1);
    MulToom(t, mem, w4, c, gb, m, st, sp, TA, TB);
    ghost var s2 := mem[..];
    Only2Then(s0, s1, s2, c, 2 * n, stk, sn, w4, 2 * m, st, sp);
    HeldKept2(s1, s2, stk, k, SA, w4, 2 * m, st, sp);
    HeldKept2(s1, s2, sb, k, SB, w4, 2 * m, st, sp);
    HeldKept2(s1, s2, w5, 2 * k + 1, Mul(UA, UB), w4, 2 * m, st, sp);
    HeldWord(mem, w4, 2 * m, Mul(TA, TB), 2 * k);
    cy := mem[c + 6 * k];
    HeldPrefix(s2, w4, 2 * m, Mul(TA, TB), 2 * k);
    ProductAtOne(t, mem, c, a, b, n, k, r, stk, sp, SA, SB, Mul(UA, UB), Mul(TA, TB));
    OnlyThen2(s0, s2, mem[..], c, 2 * n, stk, sn);
  }

  lemma OneLayout(c: nat, a: nat, b: nat, n: nat, k: nat, r: nat, stk: nat, sp: nat)
    requires SizesF(n, k, r) && Layout(c, 2 * n, a, b, n, stk, 6 * k + 2 + sp)
    ensures var (sb, st, sn) := (c + 2 * k + 2, stk + 6 * k + 2, 6 * k + 2 + sp);
      var (w5, w4, w3) := (stk + 4 * k, c + 4 * k, stk + 2 * k);
      && Layout(w3, 2 * k, stk, sb, k, st, sp) && Inside(w3, 2 * k, c, 2 * n, stk, sn)
      && Inside(st, sp, c, 2 * n, stk, sn)
      && Apart(w3, 2 * k, stk, k) && Apart(w3, 2 * k, sb, k) && Apart(w3, 2 * k, w5, 2 * k + 1)
      && Apart(w3, 2 * k, w4, 2 * k)
      && Apart(st, sp, stk, k) && Apart(st, sp, sb, k) && Apart(st, sp, w5, 2 * k + 1) && Apart(st, sp, w4, 2 * k)
  {
  }

  /** The product at 1. */
  method ProductAtOne(t: Tuning, mem: array<Word>, c: nat, ghost a: nat, ghost b: nat, n: nat, k: nat, ghost r: nat,
                      stk: nat, ghost sp: nat, ghost SA: Poly, ghost SB: Poly, ghost P5: Poly, ghost P4: Poly)
    requires t.Valid() && SizesF(n, k, r) && Layout(c, 2 * n, a, b, n, stk, 6 * k + 2 + sp) && 0 < k < n
      && Space(t, k) <= sp
    requires c + 2 * n <= mem.Length && stk + 6 * k + 2 + sp <= mem.Length
    requires Held(mem[..], stk, k, SA) && Held(mem[..], c + 2 * k + 2, k, SB) && Fits(SA, k) && Fits(SB, k)
    requires Held(mem[..], stk + 4 * k, 2 * k + 1, P5) && Held(mem[..], c + 4 * k, 2 * k, P4)
    modifies mem
    ensures Held(mem[..], stk, k, SA) && Held(mem[..], c + 2 * k + 2, k, SB)
      && Held(mem[..], stk + 2 * k, 2 * k, Mul(SA, SB))
    ensures Held(mem[..], stk + 4 * k, 2 * k + 1, P5) && Held(mem[..], c + 4 * k, 2 * k, P4)
    ensures Only2(old(mem[..]), mem[..], c, 2 * n, stk, 6 * k + 2 + sp)
    decreases n, 0
  {
    hide W, Mul, Held, Fits, Only2, Apart, Inside, Space;
    ghost var s0 := mem[..];
    var sb, st, w3 := c + 2 * k + 2, stk + 6 * k + 2, stk + 2 * k;
    OneLayout(c, a, b, n, k, r, stk, sp);
    Only2Same(s0, c, 2 * n, stk, 6 * k + 2 + sp);
    MulToom(t, mem, w3, stk, sb, k, st, sp, SA, SB);
    ghost var s1 := mem[..];
    Only2Then(s0, s0, s1, c, 2 * n, stk, 6 * k + 2 + sp, w3, 2 * k, st, sp);
    HeldKept2(s0, s1, stk, k, SA, w3, 2 * k, st, sp);
    HeldKept2(s0, s1, sb, k, SB, w3, 2 * k, st, sp);
    HeldKept2(s0, s1, stk + 4 * k, 2 * k + 1, P5, w3, 2 * k, st, sp);
    HeldKept2(s0, s1, c + 4 * k, 2 * k, P4, w3, 2 * k, st, sp);
  }

  lemma SecondLayout(c: nat, a: nat, b: nat, n: nat, k: nat, r: nat, stk: nat, sn: nat)
    requires SizesF(n, k, r) && Layout(c, 2 * n, a, b, n, stk, sn) && 6 * k + 2 <= sn
    ensures var (sb, gb, h, m) := (c + 2 * k + 2, c + 6 * k + 2, c + k + 1, k + 1);
      var (w5, w4, w3) := (stk + 4 * k, c + 4 * k, stk + 2 * k);
      && Apart(stk, m, a, n) && Apart(c, m, a, n) && Apart(h, m, a, n) && Apart(sb, m, b, n) && Apart(gb, m, b, n)
      && Apart(c, m, stk, m) && Apart(h, m, c, m) && Apart(h, m, stk, m) && Apart(gb, m, sb, m) && Apart(sb, m, gb, m)
      && Apart(stk, m, sb, k) && Apart(c, m, sb, k) && Apart(h, m, sb, k)
      && Apart(stk, m, w5, 2 * k + 1) && Apart(c, m, w5, 2 * k + 1) && Apart(h, m, w5, 2 * k + 1)
      && Apart(sb, m, w5, 2 * k + 1) && Apart(gb, m, w5, 2 * k + 1)
      && Apart(stk, m, w4, 2 * k) && Apart(c, m, w4, 2 * k) && Apart(h, m, w4, 2 * k) && Apart(sb, m, w4, 2 * k)
      && Apart(gb, m, w4, 2 * k)
      && Apart(stk, m, w3, 2 * k) && Apart(c, m, w3, 2 * k) && Apart(h, m, w3, 2 * k) && Apart(sb, m, w3, 2 * k)
      && Apart(gb, m, w3, 2 * k)
      && Apart(sb, m, c, m) && Apart(gb, m, c, m) && Apart(sb, m, h, m) && Apart(gb, m, h, m)
      && Inside(stk, m, c, 2 * n, stk, sn) && Inside(c, m, c, 2 * n, stk, sn) && Inside(h, m, c, 2 * n, stk, sn)
      && Inside(sb, m, c, 2 * n, stk, sn) && Inside(gb, m, c, 2 * n, stk, sn)
  {
  }

  /** The values at the inverse points of both operands. */
  method SecondValuesBoth(mem: array<Word>, c: nat, a: nat, b: nat, ghost n: nat, k: nat, r: nat, stk: nat,
                          ghost sn: nat,
                          ghost A0: Poly, ghost A1: Poly, ghost A2: Poly, ghost A3: Poly, ghost B0: Poly,
                          ghost B1: Poly, ghost B2: Poly, ghost B3: Poly,
                          ghost P5: Poly, ghost P4: Poly, ghost P3: Poly)
    requires SizesF(n, k, r) && Layout(c, 2 * n, a, b, n, stk, sn) && 6 * k + 2 <= sn && c + 2 * n <= mem.Length
      && stk + sn <= mem.Length
    requires Parts4(mem[..], a, k, r, A0, A1, A2, A3) && Parts4(mem[..], b, k, r, B0, B1, B2, B3)
    requires Held(mem[..], stk, k, Eval([A0, A1, A2, A3], ONE))
      && Held(mem[..], c + 2 * k + 2, k, Eval([B0, B1, B2, B3], ONE))
    requires Held(mem[..], stk + 4 * k, 2 * k + 1, P5) && Held(mem[..], c + 4 * k, 2 * k, P4)
      && Held(mem[..], stk + 2 * k, 2 * k, P3)
    modifies mem
    ensures var (u, v) := ([A3, A2, A1, A0], [B3, B2, B1, B0]);
      && Held(mem[..], c, k + 1, Eval(u, {1})) && Held(mem[..], c + k + 1, k + 1, Eval(u, {0, 1}))
      && Held(mem[..], c + 6 * k + 2, k + 1, Eval(v, {1})) && Held(mem[..], c + 2 * k + 2, k + 1, Eval(v, {0, 1}))
    ensures Held(mem[..], stk + 4 * k, 2 * k + 1, P5) && Held(mem[..], c + 4 * k, 2 * k, P4)
      && Held(mem[..], stk + 2 * k, 2 * k, P3)
    ensures Only2(old(mem[..]), mem[..], c, 2 * n, stk, sn)
  {
    hide W, Held, Fits, Only2, Only3, Apart, Inside, Parts4, Eval;
    ghost var u := [A3, A2, A1, A0];
    ghost var SA, SB := Eval([A0, A1, A2, A3], ONE), Eval([B0, B1, B2, B3], ONE);
    ghost var s0, m := mem[..], k + 1;
    var sb, gb, h, w5, w4, w3 := c + 2 * k + 2, c + 6 * k + 2, c + k + 1, stk + 4 * k, c + 4 * k, stk + 2 * k;
    SecondLayout(c, a, b, n, k, r, stk, sn);
    EvaluateSecond(mem, a, stk, c, h, k, r, A0, A1, A2, A3, SA);
    ghost var s1 := mem[..];
    Only3Inside(s0, s1, stk, m, c, m, h, m, c, 2 * n, stk, sn);
    HeldKept3(s0, s1, sb, k, SB, stk, m, c, m, h, m);
    HeldKept3(s0, s1, w5, 2 * k + 1, P5, stk, m, c, m, h, m);
    HeldKept3(s0, s1, w4, 2 * k, P4, stk, m, c, m, h, m);
    HeldKept3(s0, s1, w3, 2 * k, P3, stk, m, c, m, h, m);
    Parts4Kept(s0, s1, b, k, r, B0, B1, B2, B3, c, 2 * n, stk, sn);
    EvaluateSecond(mem, b, sb, gb, sb, k, r, B0, B1, B2, B3, SB);
    ghost var s2 := mem[..];
    Only3Inside(s1, s2, sb, m, gb, m, sb, m, c, 2 * n, stk, sn);
    OnlyThen2(s0, s1, s2, c, 2 * n, stk, sn);
    HeldKept3(s1, s2, c, m, Eval(u, {1}), sb, m, gb, m, sb, m);
    HeldKept3(s1, s2, h, m, Eval(u, {0, 1}), sb, m, gb, m, sb, m);
    HeldKept3(s1, s2, w5, 2 * k + 1, P5, sb, m, gb, m, sb, m);
    HeldKept3(s1, s2, w4, 2 * k, P4, sb, m, gb, m, sb, m);
    HeldKept3(s1, s2, w3, 2 * k, P3, sb, m, gb, m, sb, m);
  }

  /** A product of 2k + 2 words at w, whose last two lie on the value behind it: these are
      put back, and word 2k of the product is returned. */
  method MulOver(t: Tuning, mem: array<Word>, w: nat, x: nat, y: nat, ghost n: nat, k: nat, st: nat, ghost sp: nat,
                 ghost X: Poly, ghost Z: Poly, ghost P: Poly) returns (cy: Word)
    requires t.Valid() && 2 <= k && k + 1 < n && Space(t, k + 1) <= sp && w + 4 * k <= mem.Length
      && st + sp <= mem.Length
    requires Held(mem[..], x, k + 1, X) && Held(mem[..], y, k + 1, Z) && Fits(X, k + 1) && Fits(Z, k + 1)
      && Held(mem[..], w + 2 * k, 2 * k, P)
    requires Layout(w, 2 * (k + 1), x, y, k + 1, st, sp) && Apart(st, sp, w, 4 * k)
    modifies mem
    ensures Held(mem[..], w, 2 * k, Mul(X, Z)) && Held(mem[..], w + 2 * k, 2 * k, P) && cy == W(Mul(X, Z), 2 * k)
    ensures Only2(old(mem[..]), mem[..], w, 2 * k, st, sp)
    decreases n, 0
  {
    hide W, Mul, Held, Fits, Only2, Apart, Space, Wrote;
    ghost var s0 := mem[..];
    var z := 2 * k;
    HeldSize(s0, w + z, z, P);
    var u, v := mem[w + z], mem[w + z + 1];
    MulToom(t, mem, w, x, y, k + 1, st, sp, X, Z);
    ghost var s1 := mem[..];
    HeldWord(mem, w, z + 2, Mul(X, Z), z);
    cy := mem[w + z];
    mem[w + z] := u;
    mem[w + z + 1] := v;
    WroteTwo(s1, mem[..], w + z, w + z + 1);
    PutBack(s0, s1, mem[..], w, z, st, sp, Mul(X, Z), P);
  }

  lemma PutBack(s: seq<Word>, t: seq<Word>, u: seq<Word>, w: nat, z: nat, st: nat, sp: nat, Q: Poly, P: Poly)
    requires 2 <= z && Only2(s, t, w, z + 2, st, sp) && Wrote(t, u, w + z, w + z + 1) && Held(t, w, z + 2, Q)
      && Held(s, w + z, z, P)
    requires u[w + z] == s[w + z] && u[w + z + 1] == s[w + z + 1] && Apart(st, sp, w, 2 * z)
    ensures Held(u, w, z, Q) && Held(u, w + z, z, P) && Only2(s, u, w, z, st, sp)
  {
    hide W;
  }

  lemma OverLayout(c: nat, a: nat, b: nat, n: nat, k: nat, r: nat, stk: nat, sp: nat)
    requires SizesF(n, k, r) && Layout(c, 2 * n, a, b, n, stk, 6 * k + 2 + sp)
    ensures var (sb, gb, h, m, st, z) := (c + 2 * k + 2, c + 6 * k + 2, c + k + 1, k + 1, stk + 6 * k + 2, 2 * k);
      var (w2, w3, w4, w5, w6) := (c + z, stk + z, c + 2 * z, stk + 2 * z, c + 3 * z);
      && Layout(stk, 2 * m, h, sb, m, st, sp) && Apart(st, sp, stk, 4 * k) && Layout(w2, 2 * m, c, gb, m, st, sp)
      && Apart(st, sp, w2, 4 * k)
      && Layout(c, z, a, b, k, st, sp) && Layout(w6, 2 * r, a + 3 * k, b + 3 * k, r, st, sp)
      && Apart(stk, z, c, m) && Apart(stk, z, gb, m) && Apart(stk, z, w5, z + 1) && Apart(stk, z, w4, z)
      && Apart(st, sp, c, m) && Apart(st, sp, gb, m) && Apart(st, sp, w5, z + 1) && Apart(st, sp, w4, z)
      && Apart(w2, z, stk, z) && Apart(w2, z, w3, z) && Apart(w2, z, w5, z + 1) && Apart(st, sp, stk, z)
      && Apart(st, sp, w3, z)
  {
  }

  lemma OverKeeps(c: nat, a: nat, b: nat, n: nat, k: nat, r: nat, stk: nat, sp: nat)
    requires SizesF(n, k, r) && Layout(c, 2 * n, a, b, n, stk, 6 * k + 2 + sp)
    ensures var (st, z, sn) := (stk + 6 * k + 2, 2 * k, 6 * k + 2 + sp);
      var (w2, w3, w4, w5, w6) := (c + z, stk + z, c + 2 * z, stk + 2 * z, c + 3 * z);
      && Apart(c, z, stk, z) && Apart(c, z, w2, z) && Apart(c, z, w3, z) && Apart(c, z, w4, z) && Apart(c, z, w5, z + 1)
      && Apart(st, sp, w2, z)
      && Apart(st, sp, c, z)
      && Apart(w6, 2 * r, c, z) && Apart(w6, 2 * r, stk, z) && Apart(w6, 2 * r, w2, z) && Apart(w6, 2 * r, w3, z)
      && Apart(w6, 2 * r, w4, z) && Apart(w6, 2 * r, w5, z + 1)
      && Inside(stk, z, c, 2 * n, stk, sn) && Inside(w2, z, c, 2 * n, stk, sn) && Inside(c, z, c, 2 * n, stk, sn)
      && Inside(w6, 2 * r, c, 2 * n, stk, sn)
      && Inside(st, sp, c, 2 * n, stk, sn) && Inside(c, 2 * n, c, 2 * n, stk, sn)
      && Place(c, stk, k, r).Valid()
  {
  }

  lemma InverseLayout(c: nat, a: nat, b: nat, n: nat, k: nat, r: nat, stk: nat, sp: nat, sb: nat, gb: nat, h: nat,
                      st: nat, z: nat, sn: nat)
    requires SizesF(n, k, r) && Layout(c, 2 * n, a, b, n, stk, 6 * k + 2 + sp)
    requires sb == c + 2 * k + 2 && gb == c + 6 * k + 2 && h == c + k + 1 && st == stk + 6 * k + 2 && z == 2 * k
      && sn == 6 * k + 2 + sp
    ensures 2 <= k && 6 * k <= 2 * n
    ensures Layout(stk, 2 * (k + 1), h, sb, k + 1, st, sp) && Apart(st, sp, stk, 4 * k)
    ensures Layout(c + 2 * k, 2 * (k + 1), c, gb, k + 1, st, sp) && Apart(st, sp, c + 2 * k, 4 * k)
    ensures Inside(stk, z, c, 2 * n, stk, sn) && Inside(st, sp, c, 2 * n, stk, sn)
      && Inside(c + 2 * k, z, c, 2 * n, stk, sn)
    ensures Apart(stk, z, c, k + 1) && Apart(st, sp, c, k + 1) && Apart(stk, z, gb, k + 1) && Apart(st, sp, gb, k + 1)
    ensures Apart(stk, z, stk + 4 * k, z + 1) && Apart(st, sp, stk + 4 * k, z + 1) && Apart(stk, z, c + 4 * k, z)
      && Apart(st, sp, c + 4 * k, z)
    ensures Apart(c + 2 * k, z, stk, z) && Apart(st, sp, stk, z) && Apart(c + 2 * k, z, stk + 2 * k, z)
      && Apart(st, sp, stk + 2 * k, z)
    ensures Apart(c + 2 * k, z, stk + 4 * k, z + 1)
  {
  }

  /** The products at the two inverse points. */
  method InverseProducts(t: Tuning, mem: array<Word>, c: nat, ghost a: nat, ghost b: nat, ghost n: nat, k: nat,
                         ghost r: nat, stk: nat, ghost sp: nat,
                         ghost TA: Poly, ghost UA: Poly, ghost TB: Poly, ghost UB: Poly, ghost P5: Poly, ghost P4: Poly,
                         ghost P3: Poly)
      returns (cy1: Word, cy2: Word)
    requires t.Valid() && SizesF(n, k, r) && Layout(c, 2 * n, a, b, n, stk, 6 * k + 2 + sp) && k + 1 < n
    requires Space(t, k + 1) <= sp && c + 2 * n <= mem.Length && stk + 6 * k + 2 + sp <= mem.Length
    requires Held(mem[..], c, k + 1, TA) && Held(mem[..], c + k + 1, k + 1, UA)
      && Held(mem[..], c + 6 * k + 2, k + 1, TB) && Held(mem[..], c + 2 * k + 2, k + 1, UB)
    requires Fits(TA, k + 1) && Fits(UA, k + 1) && Fits(TB, k + 1) && Fits(UB, k + 1)
    requires Held(mem[..], stk + 4 * k, 2 * k + 1, P5) && Held(mem[..], c + 4 * k, 2 * k, P4)
      && Held(mem[..], stk + 2 * k, 2 * k, P3)
    modifies mem
    ensures Held(mem[..], stk, 2 * k, Mul(UA, UB)) && Held(mem[..], c + 2 * k, 2 * k, Mul(TA, TB))
      && Held(mem[..], stk + 2 * k, 2 * k, P3)
    ensures Held(mem[..], c + 4 * k, 2 * k, P4) && Held(mem[..], stk + 4 * k, 2 * k + 1, P5)
    ensures cy1 == W(Mul(UA, UB), 2 * k) && cy2 == W(Mul(TA, TB), 2 * k)
    ensures Only2(old(mem[..]), mem[..], c, 2 * n, stk, 6 * k + 2 + sp)
    decreases n, 1
  {
    hide W, Mul, Held, Fits, Only2, Apart, Inside, Space, Layout, SizesF;
    ghost var s0, sn := mem[..], 6 * k + 2 + sp;
    var sb, gb, h, st, z := c + 2 * k + 2, c + 6 * k + 2, c + k + 1, stk + 6 * k + 2, 2 * k;
    InverseLayout(c, a, b, n, k, r, stk, sp, sb, gb, h, st, z, sn);
    Only2Same(s0, c, 2 * n, stk, sn);
    cy1 := MulOver(t, mem, stk, h, sb, n, k, st, sp, UA, UB, P3);
    ghost var s1 := mem[..];
    Only2Then(s0, s0, s1, c, 2 * n, stk, sn, stk, z, st, sp);
    HeldKept2(s0, s1, c, k + 1, TA, stk, z, st, sp);
    HeldKept2(s0, s1, gb, k + 1, TB, stk, z, st, sp);
    HeldKept2(s0, s1, stk + 4 * k, z + 1, P5, stk, z, st, sp);
    HeldKept2(s0, s1, c + 4 * k, z, P4, stk, z, st, sp);
    cy2 := MulOver(t, mem, c + 2 * k, c, gb, n, k, st, sp, TA, TB, P4);
    Only2Then(s0, s1, mem[..], c, 2 * n, stk, sn, c + 2 * k, z, st, sp);
    HeldKept2(s1, mem[..], stk, z, Mul(UA, UB), c + 2 * k, z, st, sp);
    HeldKept2(s1, mem[..], stk + 2 * k, z, P3, c + 2 * k, z, st, sp);
    HeldKept2(s1, mem[..], stk + 4 * k, z + 1, P5, c + 2 * k, z, st, sp);
  }

  /** The products at the inverse points, at 0 and at infinity. */
  method LastProducts(t: Tuning, mem: array<Word>, c: nat, a: nat, b: nat, n: nat, k: nat, r: nat, stk: nat,
                      ghost sp: nat,
                      ghost A0: Poly, ghost A1: Poly, ghost A2: Poly, ghost A3: Poly, ghost B0: Poly, ghost B1: Poly,
                      ghost B2: Poly, ghost B3: Poly,
                      ghost TA: Poly, ghost UA: Poly, ghost TB: Poly, ghost UB: Poly, ghost P5: Poly, ghost P4: Poly,
                      ghost P3: Poly)
      returns (cy1: Word, cy2: Word)
    requires t.Valid() && SizesF(n, k, r) && Layout(c, 2 * n, a, b, n, stk, 6 * k + 2 + sp) && k + 1 < n
    requires Space(t, k) <= sp && Space(t, k + 1) <= sp && Space(t, r) <= sp && c + 2 * n <= mem.Length
      && stk + 6 * k + 2 + sp <= mem.Length
    requires Parts4(mem[..], a, k, r, A0, A1, A2, A3) && Parts4(mem[..], b, k, r, B0, B1, B2, B3)
    requires Held(mem[..], c, k + 1, TA) && Held(mem[..], c + k + 1, k + 1, UA)
      && Held(mem[..], c + 6 * k + 2, k + 1, TB) && Held(mem[..], c + 2 * k + 2, k + 1, UB)
    requires Fits(TA, k + 1) && Fits(UA, k + 1) && Fits(TB, k + 1) && Fits(UB, k + 1)
    requires Held(mem[..], stk + 4 * k, 2 * k + 1, P5) && Held(mem[..], c + 4 * k, 2 * k, P4)
      && Held(mem[..], stk + 2 * k, 2 * k, P3)
    modifies mem
    ensures All(mem[..], Place(c, stk, k, r), Mul(A0, B0), Mul(UA, UB), Mul(TA, TB), P3, P4, P5, Mul(A3, B3))
    ensures cy1 == W(Mul(UA, UB), 2 * k) && cy2 == W(Mul(TA, TB), 2 * k)
    ensures Only2(old(mem[..]), mem[..], c, 2 * n, stk, 6 * k + 2 + sp)
    decreases n, 2
  {
    hide W, Mul, Held, Fits, Only2, Inside, Space, Parts4, All;
    ghost var s0, sn := mem[..], 6 * k + 2 + sp;
    cy1, cy2 := InverseProducts(t, mem, c, a, b, n, k, r, stk, sp, TA, UA, TB, UB, P5, P4, P3);
    ghost var s2 := mem[..];
    Parts4Kept(s0, s2, a, k, r, A0, A1, A2, A3, c, 2 * n, stk, sn);
    Parts4Kept(s0, s2, b, k, r, B0, B1, B2, B3, c, 2 * n, stk, sn);
    OuterProducts(t, mem, c, a, b, n, k, r, stk, sp, A0, A1, A2, A3, B0, B1, B2, B3, Mul(UA, UB), Mul(TA, TB), P3, P4,
      P5);
    OnlyThen2(s0, s2, mem[..], c, 2 * n, stk, sn);
  }

  method OuterProducts(t: Tuning, mem: array<Word>, c: nat, a: nat, b: nat, n: nat, k: nat, r: nat, stk: nat,
                       ghost sp: nat,
                       ghost A0: Poly, ghost A1: Poly, ghost A2: Poly, ghost A3: Poly, ghost B0: Poly, ghost B1: Poly,
                       ghost B2: Poly, ghost B3: Poly,
                       ghost P1: Poly, ghost P2: Poly, ghost P3: Poly, ghost P4: Poly, ghost P5: Poly)
    requires t.Valid() && SizesF(n, k, r) && Layout(c, 2 * n, a, b, n, stk, 6 * k + 2 + sp) && k + 1 < n
    requires Space(t, k) <= sp && Space(t, r) <= sp && c + 2 * n <= mem.Length && stk + 6 * k + 2 + sp <= mem.Length
    requires Parts4(mem[..], a, k, r, A0, A1, A2, A3) && Parts4(mem[..], b, k, r, B0, B1, B2, B3)
    requires Held(mem[..], stk, 2 * k, P1) && Held(mem[..], c + 2 * k, 2 * k, P2)
      && Held(mem[..], stk + 2 * k, 2 * k, P3)
    requires Held(mem[..], c + 4 * k, 2 * k, P4) && Held(mem[..], stk + 4 * k, 2 * k + 1, P5)
    modifies mem
    ensures All(mem[..], Place(c, stk, k, r), Mul(A0, B0), P1, P2, P3, P4, P5, Mul(A3, B3))
    ensures Only2(old(mem[..]), mem[..], c, 2 * n, stk, 6 * k + 2 + sp)
    decreases n, 1
  {
    hide W, Mul, Held, Fits, Only2, Apart, Inside, Space, Parts4;
    ghost var s0, sn := mem[..], 6 * k + 2 + sp;
    var st, z := stk + 6 * k + 2, 2 * k;
    OverLayout(c, a, b, n, k, r, stk, sp);
    OverKeeps(c, a, b, n, k, r, stk, sp);
    Parts4Fit(s0, a, k, r, A0, A1, A2, A3);
    Parts4Fit(s0, b, k, r, B0, B1, B2, B3);
    Only2Same(s0, c, 2 * n, stk, sn);
    MulToom(t, mem, c, a, b, k, st, sp, A0, B0);
    ghost var s1 := mem[..];
    Only2Then(s0, s0, s1, c, 2 * n, stk, sn, c, z, st, sp);
    HeldKept2(s0, s1, stk, z, P1, c, z, st, sp);
    HeldKept2(s0, s1, c + 2 * k, z, P2, c, z, st, sp);
    HeldKept2(s0, s1, stk + 2 * k, z, P3, c, z, st, sp);
    HeldKept2(s0, s1, c + 4 * k, z, P4, c, z, st, sp);
    HeldKept2(s0, s1, stk + 4 * k, z + 1, P5, c, z, st, sp);
    Parts4Kept(s0, s1, a, k, r, A0, A1, A2, A3, c, 2 * n, stk, sn);
    Parts4Kept(s0, s1, b, k, r, B0, B1, B2, B3, c, 2 * n, stk, sn);
    Parts4Fit(s1, a, k, r, A0, A1, A2, A3);
    Parts4Fit(s1, b, k, r, B0, B1, B2, B3);
    InfinityProduct(t, mem, c, a, b, n, k, r, stk, sp, A3, B3, Mul(A0, B0), P1, P2, P3, P4, P5);
    OnlyThen2(s0, s1, mem[..], c, 2 * n, stk, sn);
  }

  /** The product at infinity. */
  method InfinityProduct(t: Tuning, mem: array<Word>, c: nat, a: nat, b: nat, n: nat, k: nat, r: nat, stk: nat,
                         ghost sp: nat, ghost A3: Poly, ghost B3: Poly,
                         ghost P0: Poly, ghost P1: Poly, ghost P2: Poly, ghost P3: Poly, ghost P4: Poly, ghost P5: Poly)
    requires t.Valid() && SizesF(n, k, r) && Layout(c, 2 * n, a, b, n, stk, 6 * k + 2 + sp) && k + 1 < n
    requires Space(t, r) <= sp && c + 2 * n <= mem.Length && stk + 6 * k + 2 + sp <= mem.Length
    requires Held(mem[..], a + 3 * k, r, A3) && Held(mem[..], b + 3 * k, r, B3) && Fits(A3, r) && Fits(B3, r)
    requires Held(mem[..], c, 2 * k, P0) && Held(mem[..], stk, 2 * k, P1) && Held(mem[..], c + 2 * k, 2 * k, P2)
    requires Held(mem[..], stk + 2 * k, 2 * k, P3) && Held(mem[..], c + 4 * k, 2 * k, P4)
    requires Held(mem[..], stk + 4 * k, 2 * k + 1, P5)
    modifies mem
    ensures All(mem[..], Place(c, stk, k, r), P0, P1, P2, P3, P4, P5, Mul(A3, B3))
    ensures Only2(old(mem[..]), mem[..], c, 2 * n, stk, 6 * k + 2 + sp)
    decreases n, 0
  {
    hide W, Mul, Held, Fits, Only2, Apart, Inside, Space;
    ghost var s0, sn := mem[..], 6 * k + 2 + sp;
    var st, z := stk + 6 * k + 2, 2 * k;
    OverLayout(c, a, b, n, k, r, stk, sp);
    OverKeeps(c, a, b, n, k, r, stk, sp);
    Only2Same(s0, c, 2 * n, stk, sn);
    MulToom(t, mem, c + 6 * k, a + 3 * k, b + 3 * k, r, st, sp, A3, B3);
    ghost var s1 := mem[..];
    Only2Then(s0, s0, s1, c, 2 * n, stk, sn, c + 6 * k, 2 * r, st, sp);
    HeldKept2(s0, s1, c, z, P0, c + 6 * k, 2 * r, st, sp);
    HeldKept2(s0, s1, stk, z, P1, c + 6 * k, 2 * r, st, sp);
    HeldKept2(s0, s1, c + 2 * k, z, P2, c + 6 * k, 2 * r, st, sp);
    HeldKept2(s0, s1, stk + 2 * k, z, P3, c + 6 * k, 2 * r, st, sp);
    HeldKept2(s0, s1, c + 4 * k, z, P4, c + 6 * k, 2 * r, st, sp);
    HeldKept2(s0, s1, stk + 4 * k, z + 1, P5, c + 6 * k, 2 * r, st, sp);
  }

  lemma Tc4Sizes(t: Tuning, n: nat, space: nat)
    requires t.Valid() && 30 <= n && Space(t, n) <= space
    ensures var k := (n + 3) / 4; var r := n - 3 * k;
      && SizesF(n, k, r) && k + 1 < n && 6 * k + 2 <= space
      && Space(t, k) <= space - (6 * k + 2) && Space(t, k + 1) <= space - (6 * k + 2)
      && Space(t, r) <= space - (6 * k + 2)
  {
    hide Space;
    var k := (n + 3) / 4;
    Tc4Covered(t, n, k);
    Tc4Covered(t, n, k + 1);
    Tc4Covered(t, n, n - 3 * k);
  }

  /** The values of an operand with four parts need at most one word more than a part. */
  lemma FourValuesFit(A0: Poly, A1: Poly, A2: Poly, A3: Poly, k: nat)
    requires Fits(A0, k) && Fits(A1, k) && Fits(A2, k) && Fits(A3, k)
    ensures var p := [A0, A1, A2, A3];
      Fits(Eval(p, ONE), k) && Fits(Eval(p, {1}), k + 1) && Fits(Eval(p, {0, 1}), k + 1)
  {
    hide Fits, Add, Shift, Eval;
    var m := k + 1;
    FourParts(A0, A1, A2, A3, 1);
    FitsAdd(A0, A1, k);
    FitsAdd(Add(A0, A1), A2, k);
    FitsAdd(Add(Add(A0, A1), A2), A3, k);
    FitsLess(Add(Add(Add(A0, A1), A2), A3), k, m);
    FitsLess(A0, k, m);
    FitsShift(A1, k, 1);
    FitsShift(A2, k, 2);
    FitsShift(A3, k, 3);
    FitsShift(A3, k, 1);
    FitsShift(A3, k, 2);
    FitsAdd(Shift(A1, 1), Shift(A2, 2), m);
    FitsAdd(Add(Shift(A1, 1), Shift(A2, 2)), Shift(A3, 3), m);
    var Q := Add(Add(Shift(A1, 1), Shift(A2, 2)), Shift(A3, 3));
    FitsAdd(Q, A0, m);
    FitsAdd(Add(Add(Add(A0, A1), A2), A3), Q, m);
    FitsAdd(Shift(A3, 1), Shift(A3, 2), m);
    FitsAdd(Add(Add(Add(Add(A0, A1), A2), A3), Q), Add(Shift(A3, 1), Shift(A3, 2)), m);
  }

  /** All seven products. */
  method MulValuesF(t: Tuning, mem: array<Word>, c: nat, a: nat, b: nat, n: nat, k: nat, r: nat, stk: nat,
                    ghost sp: nat,
                    ghost A0: Poly, ghost A1: Poly, ghost A2: Poly, ghost A3: Poly, ghost B0: Poly, ghost B1: Poly,
                    ghost B2: Poly, ghost B3: Poly)
      returns (cy1: Word, cy2: Word, cy4: Word)
    requires t.Valid() && SizesF(n, k, r) && Layout(c, 2 * n, a, b, n, stk, 6 * k + 2 + sp) && k + 1 < n
    requires Space(t, k) <= sp && Space(t, k + 1) <= sp && Space(t, r) <= sp && c + 2 * n <= mem.Length
      && stk + 6 * k + 2 + sp <= mem.Length
    requires Parts4(mem[..], a, k, r, A0, A1, A2, A3) && Parts4(mem[..], b, k, r, B0, B1, B2, B3)
    modifies mem
    ensures var (p, q, u, v) := ([A0, A1, A2, A3], [B0, B1, B2, B3], [A3, A2, A1, A0], [B3, B2, B1, B0]);
      && All(mem[..], Place(c, stk, k, r), Mul(A0, B0), Mul(Eval(u, {0, 1}), Eval(v, {0, 1})),
        Mul(Eval(u, {1}), Eval(v, {1})),
             Mul(Eval(p, ONE), Eval(q, ONE)), Mul(Eval(p, {1}), Eval(q, {1})), Mul(Eval(p, {0, 1}), Eval(q, {0, 1})),
               Mul(A3, B3))
      && cy1 == W(Mul(Eval(u, {0, 1}), Eval(v, {0, 1})), 2 * k) && cy2 == W(Mul(Eval(u, {1}), Eval(v, {1})), 2 * k)
      && cy4 == W(Mul(Eval(p, {1}), Eval(q, {1})), 2 * k)
    ensures Only2(old(mem[..]), mem[..], c, 2 * n, stk, 6 * k + 2 + sp)
    decreases n, 3
  {
    hide W, Mul, Held, Fits, Only2, Apart, Inside, Space, Parts4, Eval, All;
    ghost var s0, sn := mem[..], 6 * k + 2 + sp;
    ghost var p, q, u, v := [A0, A1, A2, A3], [B0, B1, B2, B3], [A3, A2, A1, A0], [B3, B2, B1, B0];
    Parts4Fit(s0, a, k, r, A0, A1, A2, A3);
    Parts4Fit(s0, b, k, r, B0, B1, B2, B3);
    FitsLess(A3, r, k);
    FitsLess(B3, r, k);
    FourValuesFit(A0, A1, A2, A3, k);
    FourValuesFit(B0, B1, B2, B3, k);
    FourValuesFit(A3, A2, A1, A0, k);
    FourValuesFit(B3, B2, B1, B0, k);
    FirstValuesBoth(mem, c, a, b, n, k, r, stk, sn, A0, A1, A2, A3, B0, B1, B2, B3);
    ghost var s1 := mem[..];
    cy4 := FirstProducts(t, mem, c, a, b, n, k, r, stk, sp, Eval(p, ONE), Eval(p, {1}), Eval(p, {0, 1}), Eval(q, ONE),
      Eval(q, {1}), Eval(q, {0, 1}));
    ghost var s2 := mem[..];
    OnlyThen2(s0, s1, s2, c, 2 * n, stk, sn);
    ghost var P5, P4, P3 := Mul(Eval(p, {0, 1}), Eval(q, {0, 1})), Mul(Eval(p, {1}), Eval(q, {1})),
      Mul(Eval(p, ONE), Eval(q, ONE));
    Parts4Kept(s0, s2, a, k, r, A0, A1, A2, A3, c, 2 * n, stk, sn);
    Parts4Kept(s0, s2, b, k, r, B0, B1, B2, B3, c, 2 * n, stk, sn);
    SecondValuesBoth(mem, c, a, b, n, k, r, stk, sn, A0, A1, A2, A3, B0, B1, B2, B3, P5, P4, P3);
    ghost var s3 := mem[..];
    OnlyThen2(s0, s2, s3, c, 2 * n, stk, sn);
    Parts4Kept(s0, s3, a, k, r, A0, A1, A2, A3, c, 2 * n, stk, sn);
    Parts4Kept(s0, s3, b, k, r, B0, B1, B2, B3, c, 2 * n, stk, sn);
    cy1, cy2 := LastProducts(t, mem, c, a, b, n, k, r, stk, sp, A0, A1, A2, A3, B0, B1, B2, B3,
      Eval(u, {1}), Eval(u, {0, 1}), Eval(v, {1}), Eval(v, {0, 1}), P5, P4, P3);
    OnlyThen2(s0, s3, mem[..], c, 2 * n, stk, sn);
  }

  method MulTc4(t: Tuning, mem: array<Word>, c: nat, a: nat, b: nat, n: nat, stk: nat, ghost space: nat, ghost A: Poly,
                ghost B: Poly)
    requires t.Valid() && 30 <= n && Space(t, n) <= space && c + 2 * n <= mem.Length && stk + space <= mem.Length
    requires Held(mem[..], a, n, A) && Held(mem[..], b, n, B) && Fits(A, n) && Fits(B, n)
    requires Layout(c, 2 * n, a, b, n, stk, space)
    modifies mem
    ensures Held(mem[..], c, 2 * n, Mul(A, B)) && Only2(old(mem[..]), mem[..], c, 2 * n, stk, space)
    decreases n, 4
  {
    hide W, Mul, Fits, Held, Only, Only2, Apart, Space, Inside, Add, Y, Eval, Parts4, All;
    var k := (n + 3) / 4;
    var r := n - 3 * k;
    ghost var s0, sp := mem[..], space - (6 * k + 2);
    Tc4Sizes(t, n, space);
    ghost var A0, A1, A2, A3 := CutFour(s0, a, k, r, A);
    ghost var B0, B1, B2, B3 := CutFour(s0, b, k, r, B);
    Parts4Fit(s0, a, k, r, A0, A1, A2, A3);
    Parts4Fit(s0, b, k, r, B0, B1, B2, B3);
    ghost var c0, c1, c2, c3, c4, c5, c6 := FourWayProduct(A0, A1, A2, A3, B0, B1, B2, B3, k, r);
    var cy1, cy2, cy4 := MulValuesF(t, mem, c, a, b, n, k, r, stk, sp, A0, A1, A2, A3, B0, B1, B2, B3);
    ghost var s1 := mem[..];
    OverKeeps(c, a, b, n, k, r, stk, sp);
    var l := Place(c, stk, k, r);
    InterpolateFour(mem, l, cy1, cy2, cy4, space, c0, c1, c2, c3, c4, c5, c6);
    ghost var s2 := mem[..];
    OnlyThen2(s0, s1, s2, c, 2 * n, stk, space);
    RecomposeFour(mem, l, c0, c1, c2, c3, c4, c5, c6);
    OnlyThen(s0, s2, mem[..], c, 2 * n, stk, space, c, 2 * n);
  }
}
