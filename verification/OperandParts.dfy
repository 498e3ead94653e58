/** Operands cut into parts: what a region of the memory holds, part by part. */
module OperandParts {
  import opened Polynomials
  import opened Words
  import opened WordMemory
  import opened Karatsuba

  // ---------------------------------------------------------------- three parts

  /** The three parts of an operand of 2k + r words. */
  ghost predicate Parts(s: seq<Word>, a: nat, k: nat, r: nat, A0: Poly, A1: Poly, A2: Poly) {
    && Held(s, a, k, A0) && Held(s, a + k, k, A1) && Held(s, a + 2 * k, r, A2)
    && Fits(A0, k) && Fits(A1, k) && Fits(A2, r)
  }

  lemma PartWords(mem: array<Word>, before: seq<Word>, a: nat, k: nat, r: nat, j: nat, A0: Poly, A1: Poly, A2: Poly,
                  p: nat, n: nat, q: nat, m: nat)
    requires Parts(before, a, k, r, A0, A1, A2) && j < k && Only2(before, mem[..], p, n, q, m)
    requires Apart(p, n, a, 2 * k + r) && Apart(q, m, a, 2 * k + r)
    ensures a + 2 * k + r <= mem.Length && mem[a + j] == W(A0, j) && mem[a + k + j] == W(A1, j)
    ensures j < r ==> mem[a + 2 * k + j] == W(A2, j)
  {
    hide W, Fits;
    assert mem[..][a + j] == before[a + j];
    assert mem[..][a + k + j] == before[a + k + j];
    if j < r {
      assert mem[..][a + 2 * k + j] == before[a + 2 * k + j];
    }
  }

  lemma FitsOf(s: seq<Word>, a: nat, k: nat, r: nat, A0: Poly, A1: Poly, A2: Poly)
    requires Parts(s, a, k, r, A0, A1, A2)
    ensures Fits(A0, k) && Fits(A1, k) && Fits(A2, r)
  {
  }

  lemma PartsKept(s: seq<Word>, t: seq<Word>, a: nat, k: nat, r: nat, A0: Poly, A1: Poly, A2: Poly,
                  p: nat, n: nat, q: nat, m: nat)
    requires Parts(s, a, k, r, A0, A1, A2) && Only2(s, t, p, n, q, m)
    requires Apart(p, n, a, 2 * k + r) && Apart(q, m, a, 2 * k + r)
    ensures Parts(t, a, k, r, A0, A1, A2)
  {
    hide W, Fits, Held, Only2;
    HeldKept2(s, t, a, k, A0, p, n, q, m);
    HeldKept2(s, t, a + k, k, A1, p, n, q, m);
    HeldKept2(s, t, a + 2 * k, r, A2, p, n, q, m);
  }

  lemma PartsHeld(s: seq<Word>, a: nat, k: nat, r: nat, A0: Poly, A1: Poly, A2: Poly)
    requires Parts(s, a, k, r, A0, A1, A2)
    ensures Held(s, a, k, A0) && Held(s, a + 2 * k, r, A2) && Fits(A0, k) && Fits(A1, k) && Fits(A2, r)
  {
  }

  /** The three parts of an operand. */
  lemma CutThree(s: seq<Word>, a: nat, k: nat, r: nat, A: Poly)
    requires Held(s, a, 2 * k + r, A) && Fits(A, 2 * k + r)
    ensures var H := High(A, 64 * k);
      && Parts(s, a, k, r, Low(A, 64 * k), Low(H, 64 * k), High(H, 64 * k))
      && A == Add(Low(A, 64 * k), Add(Y(Low(H, 64 * k), k), Y(High(H, 64 * k), 2 * k)))
  {
    hide W, Fits, Held, Low, High, Add, Y;
    var H := High(A, 64 * k);
    SplitHeld(s, a, 2 * k + r, k, A);
    SplitHeld(s, a + k, k + r, k, H);
    NestedY(Low(H, 64 * k), High(H, 64 * k), k);
  }

  lemma NestedY(P: Poly, Q: Poly, k: nat)
    ensures Y(Add(P, Y(Q, k)), k) == Add(Y(P, k), Y(Q, 2 * k))
  {
    hide Add, Shift;
    ShiftAdd(P, Y(Q, k), 64 * k);
    ShiftShift(Q, 64 * k, 64 * k);
    assert 64 * k + 64 * k == 64 * (2 * k);
  }

  // ---------------------------------------------------------------- four parts

  /** The four parts of an operand of 3k + ra words. */
  ghost predicate Parts4(s: seq<Word>, a: nat, k: nat, ra: nat, A0: Poly, A1: Poly, A2: Poly, A3: Poly) {
    && Held(s, a, k, A0) && Held(s, a + k, k, A1) && Held(s, a + 2 * k, k, A2) && Held(s, a + 3 * k, ra, A3)
    && Fits(A0, k) && Fits(A1, k) && Fits(A2, k) && Fits(A3, ra)
  }

  lemma Parts4Fit(s: seq<Word>, a: nat, k: nat, ra: nat, A0: Poly, A1: Poly, A2: Poly, A3: Poly)
    requires Parts4(s, a, k, ra, A0, A1, A2, A3)
    ensures Fits(A0, k) && Fits(A1, k) && Fits(A2, k) && Fits(A3, ra) && a + 3 * k + ra <= |s|
    ensures Held(s, a, k, A0) && Held(s, a + 3 * k, ra, A3)
  {
    hide W, Fits;
  }

  lemma Part4Words(mem: array<Word>, before: seq<Word>, a: nat, k: nat, ra: nat, j: nat,
                   A0: Poly, A1: Poly, A2: Poly, A3: Poly, q: nat, m: nat)
    requires Parts4(before, a, k, ra, A0, A1, A2, A3) && Only(before, mem[..], q, m) && Apart(q, m, a, 3 * k + ra)
    ensures a + 3 * k + ra <= mem.Length
    ensures j < k ==> mem[a + j] == W(A0, j) && mem[a + k + j] == W(A1, j) && mem[a + 2 * k + j] == W(A2, j)
    ensures j < ra ==> mem[a + 3 * k + j] == W(A3, j)
  {
    hide W, Fits;
    if j < k {
      assert mem[..][a + j] == before[a + j];
      assert mem[..][a + k + j] == before[a + k + j];
      assert mem[..][a + 2 * k + j] == before[a + 2 * k + j];
    }
    if j < ra {
      assert mem[..][a + 3 * k + j] == before[a + 3 * k + j];
    }
  }

  lemma Parts4Kept(s: seq<Word>, t: seq<Word>, a: nat, k: nat, ra: nat, A0: Poly, A1: Poly, A2: Poly, A3: Poly,
                   p: nat, n: nat, q: nat, m: nat)
    requires Parts4(s, a, k, ra, A0, A1, A2, A3) && Only2(s, t, p, n, q, m)
    requires Apart(p, n, a, 3 * k + ra) && Apart(q, m, a, 3 * k + ra)
    ensures Parts4(t, a, k, ra, A0, A1, A2, A3)
  {
    hide W, Fits, Held, Only2;
    HeldKept2(s, t, a, k, A0, p, n, q, m);
    HeldKept2(s, t, a + k, k, A1, p, n, q, m);
    HeldKept2(s, t, a + 2 * k, k, A2, p, n, q, m);
    HeldKept2(s, t, a + 3 * k, ra, A3, p, n, q, m);
  }

  /** The four parts of an operand. */
  lemma CutFour(s: seq<Word>, a: nat, k: nat, ra: nat, A: Poly) returns (A0: Poly, A1: Poly, A2: Poly, A3: Poly)
    requires Held(s, a, 3 * k + ra, A) && Fits(A, 3 * k + ra)
    ensures Parts4(s, a, k, ra, A0, A1, A2, A3)
    ensures A == Add(Add(Add(Y(A1, k), Y(A2, 2 * k)), Y(A3, 3 * k)), A0)
  {
    hide W, Fits, Held, Low, High, Add, Y;
    var H := High(A, 64 * k);
    var G := High(H, 64 * k);
    SplitHeld(s, a, 3 * k + ra, k, A);
    SplitHeld(s, a + k, 2 * k + ra, k, H);
    SplitHeld(s, a + 2 * k, k + ra, k, G);
    A0, A1, A2, A3 := Low(A, 64 * k), Low(H, 64 * k), Low(G, 64 * k), High(G, 64 * k);
    YAdd(A1, Y(G, k), k);
    YY(G, k, k);
    YAdd(A2, Y(A3, k), 2 * k);
    YY(A3, k, 2 * k);
    LastFirst(A0, Y(A1, k), Y(A2, 2 * k), Y(A3, 3 * k));
  }

  lemma LastFirst(P: Poly, Q: Poly, R: Poly, S: Poly)
    ensures Add(P, Add(Q, Add(R, S))) == Add(Add(Add(Q, R), S), P)
  {
    hide Add;
  }
}
