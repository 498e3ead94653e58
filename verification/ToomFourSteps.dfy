/** Interpolation of the four-way routine gf2x_mul_tc4 of gf2x-1.1/toom2.c.  The values
    W0, W2, W4, W6 lie one behind the other in the result and W1, W3, W5 in the scratch
    space; word 2k of a value, which lies where the next one begins, is kept aside. */
module ToomFourSteps {
  import opened Polynomials
  import opened Words
  import opened WordMemory
  import opened BaseCase
  import opened ToomAlgebra
  import opened Karatsuba
  import opened ToomLoops
  import opened BitLoops
  import opened ToomBits
  import opened ToomFour
  import opened ToomFourBits

  /** The seven regions. */
  datatype Place = Place(c: nat, stk: nat, k: nat, r: nat) {
    predicate Valid() {
      0 < r <= k <= 2 * r && Apart(c, 6 * k + 2 * r, stk, 6 * k + 1)
    }
  }

  ghost predicate All(s: seq<Word>, l: Place, P0: Poly, P1: Poly, P2: Poly, P3: Poly, P4: Poly, P5: Poly, P6: Poly) {
    var z := 2 * l.k;
    && Held(s, l.c, z, P0) && Held(s, l.c + z, z, P2) && Held(s, l.c + 2 * z, z, P4)
    && Held(s, l.c + 3 * z, 2 * l.r, P6)
    && Held(s, l.stk, z, P1) && Held(s, l.stk + z, z, P3) && Held(s, l.stk + 2 * z, z + 1, P5)
  }

  lemma PlaceApart(l: Place)
    requires l.Valid()
    ensures var z := 2 * l.k;
      var (w0, w2, w4, w6, w1, w3, w5) := (l.c, l.c + z, l.c + 2 * z, l.c + 3 * z, l.stk, l.stk + z, l.stk + 2 * z);
      && Apart(w1, z, w2, z) && Apart(w1, z, w0, z) && Apart(w1, z, w3, z) && Apart(w1, z, w5, z)
      && Apart(w5, z, w4, z) && Apart(w5, z, w1, z) && Apart(w5, 2 * l.r, w6, 2 * l.r) && Apart(w5, z + 1, w6, 2 * l.r)
      && Apart(w2, 2 * l.r, w6, 2 * l.r) && Apart(w2, z, w0, z) && Apart(w2, z, w1, z) && Apart(w2, z, w3, z)
      && Apart(w2, z, w5, z)
      && Apart(w4, z, w2, z) && Apart(w4, z, w0, z) && Apart(w4, 2 * l.r, w6, 2 * l.r) && Apart(w4, z + 1, w5, z + 1)
      && Apart(w3, 2 * l.r, w0, 2 * l.r) && Apart(w3, 2 * l.r, w6, 2 * l.r) && Apart(w3, z, w4, z)
      && Apart(w3, z, w5, z)
  {
  }

  lemma PlaceApart2(l: Place)
    requires l.Valid()
    ensures var z := 2 * l.k;
      var (w0, w2, w4, w6, w1, w3, w5) := (l.c, l.c + z, l.c + 2 * z, l.c + 3 * z, l.stk, l.stk + z, l.stk + 2 * z);
      && Apart(w1, z, w4, z) && Apart(w1, z, w6, 2 * l.r) && Apart(w1, z, w5, z + 1)
      && Apart(w2, z, w4, z) && Apart(w2, z, w6, 2 * l.r) && Apart(w2, z, w5, z + 1)
      && Apart(w3, z, w0, z) && Apart(w3, z, w2, z) && Apart(w3, z, w1, z) && Apart(w3, z, w6, 2 * l.r)
      && Apart(w3, z, w5, z + 1)
      && Apart(w4, z, w1, z) && Apart(w4, z, w3, z) && Apart(w4, z, w6, 2 * l.r) && Apart(w4, z, w5, z + 1)
      && Apart(w5, z + 1, w0, z) && Apart(w5, z + 1, w2, z) && Apart(w5, z + 1, w4, z) && Apart(w5, z + 1, w1, z)
      && Apart(w5, z + 1, w3, z)
  {
  }

  // ---------------------------------------------------------------- one value is replaced

  lemma Put1(s: seq<Word>, t: seq<Word>, l: Place, P0: Poly, P1: Poly, P2: Poly, P3: Poly, P4: Poly, P5: Poly, P6: Poly,
             X: Poly)
    requires l.Valid() && All(s, l, P0, P1, P2, P3, P4, P5, P6) && Only(s, t, l.stk, 2 * l.k)
      && Held(t, l.stk, 2 * l.k, X)
    ensures All(t, l, P0, X, P2, P3, P4, P5, P6)
  {
    hide Held, Only, Apart;
    PlaceApart(l);
    PlaceApart2(l);
    KeepFive(s, t, l.stk, 2 * l.k, l.c, 2 * l.k, P0, l.c + 2 * l.k, 2 * l.k, P2, l.c + 4 * l.k, 2 * l.k, P4,
      l.c + 6 * l.k, 2 * l.r, P6, l.stk + 2 * l.k, 2 * l.k, P3);
    HeldKept(s, t, l.stk + 4 * l.k, 2 * l.k + 1, P5, l.stk, 2 * l.k);
  }

  lemma Put2(s: seq<Word>, t: seq<Word>, l: Place, P0: Poly, P1: Poly, P2: Poly, P3: Poly, P4: Poly, P5: Poly, P6: Poly,
             X: Poly)
    requires l.Valid() && All(s, l, P0, P1, P2, P3, P4, P5, P6) && Only(s, t, l.c + 2 * l.k, 2 * l.k)
      && Held(t, l.c + 2 * l.k, 2 * l.k, X)
    ensures All(t, l, P0, P1, X, P3, P4, P5, P6)
  {
    hide Held, Only, Apart;
    PlaceApart(l);
    PlaceApart2(l);
    KeepFive(s, t, l.c + 2 * l.k, 2 * l.k, l.c, 2 * l.k, P0, l.stk, 2 * l.k, P1, l.c + 4 * l.k, 2 * l.k, P4,
      l.c + 6 * l.k, 2 * l.r, P6, l.stk + 2 * l.k, 2 * l.k, P3);
    HeldKept(s, t, l.stk + 4 * l.k, 2 * l.k + 1, P5, l.c + 2 * l.k, 2 * l.k);
  }

  lemma Put3(s: seq<Word>, t: seq<Word>, l: Place, P0: Poly, P1: Poly, P2: Poly, P3: Poly, P4: Poly, P5: Poly, P6: Poly,
             X: Poly)
    requires l.Valid() && All(s, l, P0, P1, P2, P3, P4, P5, P6) && Only(s, t, l.stk + 2 * l.k, 2 * l.k)
      && Held(t, l.stk + 2 * l.k, 2 * l.k, X)
    ensures All(t, l, P0, P1, P2, X, P4, P5, P6)
  {
    hide Held, Only, Apart;
    PlaceApart(l);
    PlaceApart2(l);
    KeepFive(s, t, l.stk + 2 * l.k, 2 * l.k, l.c, 2 * l.k, P0, l.c + 2 * l.k, 2 * l.k, P2, l.c + 4 * l.k, 2 * l.k, P4,
      l.c + 6 * l.k, 2 * l.r, P6, l.stk, 2 * l.k, P1);
    HeldKept(s, t, l.stk + 4 * l.k, 2 * l.k + 1, P5, l.stk + 2 * l.k, 2 * l.k);
  }

  lemma Put4(s: seq<Word>, t: seq<Word>, l: Place, P0: Poly, P1: Poly, P2: Poly, P3: Poly, P4: Poly, P5: Poly, P6: Poly,
             X: Poly)
    requires l.Valid() && All(s, l, P0, P1, P2, P3, P4, P5, P6) && Only(s, t, l.c + 4 * l.k, 2 * l.k)
      && Held(t, l.c + 4 * l.k, 2 * l.k, X)
    ensures All(t, l, P0, P1, P2, P3, X, P5, P6)
  {
    hide Held, Only, Apart;
    PlaceApart(l);
    PlaceApart2(l);
    KeepFive(s, t, l.c + 4 * l.k, 2 * l.k, l.c, 2 * l.k, P0, l.c + 2 * l.k, 2 * l.k, P2, l.stk, 2 * l.k, P1,
      l.c + 6 * l.k, 2 * l.r, P6, l.stk + 2 * l.k, 2 * l.k, P3);
    HeldKept(s, t, l.stk + 4 * l.k, 2 * l.k + 1, P5, l.c + 4 * l.k, 2 * l.k);
  }

  lemma Put5(s: seq<Word>, t: seq<Word>, l: Place, P0: Poly, P1: Poly, P2: Poly, P3: Poly, P4: Poly, P5: Poly, P6: Poly,
             X: Poly)
    requires l.Valid() && All(s, l, P0, P1, P2, P3, P4, P5, P6) && Only(s, t, l.stk + 4 * l.k, 2 * l.k + 1)
      && Held(t, l.stk + 4 * l.k, 2 * l.k + 1, X)
    ensures All(t, l, P0, P1, P2, P3, P4, X, P6)
  {
    hide Held, Only, Apart;
    PlaceApart(l);
    PlaceApart2(l);
    KeepFive(s, t, l.stk + 4 * l.k, 2 * l.k + 1, l.c, 2 * l.k, P0, l.c + 2 * l.k, 2 * l.k, P2, l.c + 4 * l.k, 2 * l.k,
      P4, l.c + 6 * l.k, 2 * l.r, P6, l.stk, 2 * l.k, P1);
    HeldKept(s, t, l.stk + 2 * l.k, 2 * l.k, P3, l.stk + 4 * l.k, 2 * l.k + 1);
  }

  lemma KeepFive(s: seq<Word>, t: seq<Word>, x: nat, xn: nat, a: nat, an: nat, A: Poly, b: nat, bn: nat, B: Poly,
                 c: nat, cn: nat, C: Poly, d: nat, dn: nat, D: Poly, e: nat, en: nat, E: Poly)
    requires Only(s, t, x, xn) && Held(s, a, an, A) && Held(s, b, bn, B) && Held(s, c, cn, C) && Held(s, d, dn, D)
      && Held(s, e, en, E)
    requires Apart(x, xn, a, an) && Apart(x, xn, b, bn) && Apart(x, xn, c, cn) && Apart(x, xn, d, dn)
      && Apart(x, xn, e, en)
    ensures Held(t, a, an, A) && Held(t, b, bn, B) && Held(t, c, cn, C) && Held(t, d, dn, D) && Held(t, e, en, E)
  {
    hide Held, Only, Apart;
    HeldKept(s, t, a, an, A, x, xn);
    HeldKept(s, t, b, bn, B, x, xn);
    HeldKept(s, t, c, cn, C, x, xn);
    HeldKept(s, t, d, dn, D, x, xn);
    HeldKept(s, t, e, en, E, x, xn);
  }

  // ---------------------------------------------------------------- divisions that borrow a word

  /** w = w / (x + x^4), where word z of w is cy; the word behind w is put back. */
  method DivideD1(mem: array<Word>, w: nat, z: nat, cy: Word, ghost R: Poly)
    requires 0 < z && w + z < mem.Length && Held(mem[..], w, z, D1(R)) && cy == W(D1(R), z) && Fits(R, z)
    modifies mem
    ensures Held(mem[..], w, z, R) && Only(old(mem[..]), mem[..], w, z)
  {
    hide W, Fits, Held, Only, Wrote, Shift, Add;
    ghost var s0 := mem[..];
    var save := mem[w + z];
    mem[w + z] := cy;
    ghost var s1 := mem[..];
    WroteTwo(s0, s1, w + z, w + z);
    HeldNext(s0, s1, w, z, D1(R));
    ExactD1(R, z + 1);
    var _ := DivExactD1(mem, w, z + 1, D1(R), R);
    ghost var s2 := mem[..];
    mem[w + z] := save;
    WroteTwo(s2, mem[..], w + z, w + z);
    Restored(s0, s1, s2, mem[..], w, z, R);
  }

  lemma Restored(s: seq<Word>, t: seq<Word>, u: seq<Word>, v: seq<Word>, w: nat, z: nat, R: Poly)
    requires Wrote(s, t, w + z, w + z) && Only(t, u, w, z + 1) && Wrote(u, v, w + z, w + z) && w + z < |s|
      && v[w + z] == s[w + z]
    requires Held(u, w, z + 1, R)
    ensures Held(v, w, z, R) && Only(s, v, w, z)
  {
    hide W;
  }

  /** w = w / (x^2 + x^4), likewise. */
  method DivideD2(mem: array<Word>, w: nat, z: nat, cy: Word, ghost R: Poly)
    requires 0 < z && w + z < mem.Length && Held(mem[..], w, z, D2(R)) && cy == W(D2(R), z) && Fits(R, z)
    modifies mem
    ensures Held(mem[..], w, z, R) && Only(old(mem[..]), mem[..], w, z)
  {
    hide W, Fits, Held, Only, Wrote, Shift, Add;
    ghost var s0 := mem[..];
    var save := mem[w + z];
    mem[w + z] := cy;
    ghost var s1 := mem[..];
    WroteTwo(s0, s1, w + z, w + z);
    HeldNext(s0, s1, w, z, D2(R));
    ExactD2(R, z + 1);
    var _ := DivExactD2(mem, w, z + 1, D2(R), R);
    ghost var s2 := mem[..];
    mem[w + z] := save;
    WroteTwo(s2, mem[..], w + z, w + z);
    Restored(s0, s1, s2, mem[..], w, z, R);
  }

  // ---------------------------------------------------------------- additions of shorter operands

  /** What lies in the seven places, with the sizes of the steps. */
  lemma AllParts(s: seq<Word>, l: Place, P0: Poly, P1: Poly, P2: Poly, P3: Poly, P4: Poly, P5: Poly, P6: Poly, z: nat,
                 m: nat)
    requires All(s, l, P0, P1, P2, P3, P4, P5, P6) && z == 2 * l.k && m == 2 * l.r
    ensures Held(s, l.c, z, P0) && Held(s, l.c + 2 * l.k, z, P2) && Held(s, l.c + 4 * l.k, z, P4)
      && Held(s, l.c + 6 * l.k, m, P6)
    ensures Held(s, l.stk, z, P1) && Held(s, l.stk + 2 * l.k, z, P3) && Held(s, l.stk + 4 * l.k, z + 1, P5)
  {
    hide Held;
  }

  /** The carry of an addition to m of n words goes to word m. */
  lemma CarryPlaced(s: seq<Word>, t: seq<Word>, u: seq<Word>, w: nat, n: nat, m: nat, P: Poly, X: Poly, cy: Word)
    requires m < n && Held(s, w, n, P) && Only(s, t, w, m) && Held(t, w, m, Add(P, X)) && Fits(X, m + 1)
      && cy == W(X, m)
    requires w + n <= |t| && Wrote(t, u, w + m, w + m) && u[w + m] == Xor(t[w + m], cy)
    ensures Held(u, w, n, Add(P, X)) && Only(s, u, w, n)
  {
    hide W, Add, Xor, Fits;
    forall i | w <= i < w + n
      ensures u[i] == W(Add(P, X), i - w)
    {
      WAdd(P, X, i - w);
      if m < i - w {
        WBeyond(X, m + 1, i - w);
        XorEmptyLeft(W(P, i - w));
      }
    }
  }

  // ---------------------------------------------------------------- the steps

  /** W1 += W2 + (1 + x^2 + x^4) W0. */
  method Step1(mem: array<Word>, l: Place, cy1: Word, cy2: Word, ghost c0: Poly, ghost P1: Poly, ghost P2: Poly,
               ghost P3: Poly, ghost P4: Poly, ghost P5: Poly, ghost c6: Poly) returns (cy: Word)
    requires l.Valid() && All(mem[..], l, c0, P1, P2, P3, P4, P5, c6) && Fits(c0, 2 * l.k) && cy1 == W(P1, 2 * l.k)
      && cy2 == W(P2, 2 * l.k)
    modifies mem
    ensures var Q1 := Add(Add(P1, P2), Odd(c0)); All(mem[..], l, c0, Q1, P2, P3, P4, P5, c6) && cy == W(Q1, 2 * l.k)
    ensures Only(old(mem[..]), mem[..], l.stk, 2 * l.k)
  {
    hide W, Add, Xor, Mul, Fits, Held, Only, Apart, Odd;
    ghost var s0 := mem[..];
    var w0, w1, w2, z := l.c, l.stk, l.c + 2 * l.k, 2 * l.k;
    PlaceApart(l);
    SmallMultiples(c0);
    HeldSize(s0, w1, z, P1);
    AddWords(mem, w1, w1, w2, z, P1, P2);
    ghost var s1 := mem[..];
    HeldKept(s0, s1, w0, z, c0, w1, z);
    var m := AddMultiple(mem, w1, w0, z, {0, 2, 4}, Add(P1, P2), c0);
    OnlyTrans(s0, s1, mem[..], w1, z);
    WAdd(Add(P1, P2), Odd(c0), z);
    WAdd(P1, P2, z);
    cy := Xor(Xor(cy1, cy2), m);
    Put1(s0, mem[..], l, c0, P1, P2, P3, P4, P5, c6, Add(Add(P1, P2), Odd(c0)));
  }

  /** W5 = (W5 + W4 + W1 + (1 + x^2 + x^4) W6) / (x + x^4). */
  method Step2(mem: array<Word>, l: Place, cy1: Word, cy4: Word, ghost c0: Poly, ghost Q1: Poly, ghost P2: Poly,
               ghost P3: Poly, ghost P4: Poly, ghost P5: Poly, ghost c6: Poly, ghost R: Poly)
    requires l.Valid() && All(mem[..], l, c0, Q1, P2, P3, P4, P5, c6) && Fits(c6, 2 * l.r) && cy1 == W(Q1, 2 * l.k)
      && cy4 == W(P4, 2 * l.k)
    requires Add(Add(P5, Add(P4, Q1)), Odd(c6)) == D1(R) && Fits(R, 2 * l.k)
    modifies mem
    ensures All(mem[..], l, c0, Q1, P2, P3, P4, R, c6)
    ensures Only(old(mem[..]), mem[..], l.stk + 4 * l.k, 2 * l.k + 1)
  {
    hide W, Add, Xor, Mul, Fits, Held, Only, Apart, Odd, Shift, Wrote, All;
    ghost var s0 := mem[..];
    var w1, w4, w5, w6, z := l.stk, l.c + 4 * l.k, l.stk + 4 * l.k, l.c + 6 * l.k, 2 * l.k;
    AllParts(s0, l, c0, Q1, P2, P3, P4, P5, c6, z, 2 * l.r);
    ghost var N := Add(P5, Add(P4, Q1));
    PlaceApart(l);
    PlaceApart2(l);
    FifthSum(mem, w1, w4, w5, z, cy1, cy4, Q1, P4, P5);
    ghost var s2 := mem[..];
    HeldKept(s0, s2, w6, 2 * l.r, c6, w5, z + 1);
    AddOdd(mem, w5, w6, z + 1, 2 * l.r, N, c6);
    ghost var s4 := mem[..];
    OnlyTrans(s0, s2, s4, w5, z + 1);
    ExactD1(R, z + 1);
    var _ := DivExactD1(mem, w5, z + 1, D1(R), R);
    OnlyTrans(s0, s4, mem[..], w5, z + 1);
    Put5(s0, mem[..], l, c0, Q1, P2, P3, P4, P5, c6, R);
  }

  /** {w, n} += (1 + x^2 + x^4) {v, m}, the carry included. */
  method AddOdd(mem: array<Word>, w: nat, v: nat, n: nat, m: nat, ghost N: Poly, ghost c6: Poly)
    requires 0 < m < n && Held(mem[..], w, n, N) && Held(mem[..], v, m, c6) && Fits(c6, m) && Apart(w, m, v, m)
    modifies mem
    ensures Held(mem[..], w, n, Add(N, Odd(c6))) && Only(old(mem[..]), mem[..], w, n)
  {
    hide W, Add, Xor, Mul, Fits, Held, Only, Odd, Shift, Wrote;
    ghost var s2 := mem[..];
    HeldSize(s2, w, n, N);
    HeldPrefix(s2, w, n, N, m);
    SmallMultiples(c6);
    var cy := AddMultiple(mem, w, v, m, {0, 2, 4}, N, c6);
    ghost var s3 := mem[..];
    mem[w + m] := Xor(mem[w + m], cy);
    WroteTwo(s3, mem[..], w + m, w + m);
    WordFits({0, 2, 4});
    FitsMul(c6, {0, 2, 4}, m, 1);
    CarryPlaced(s2, s3, mem[..], w, n, m, N, Odd(c6), cy);
  }

  /** W5 + W4 + W1, each with its word z. */
  method FifthSum(mem: array<Word>, w1: nat, w4: nat, w5: nat, z: nat, cy1: Word, cy4: Word, ghost Q1: Poly,
                  ghost P4: Poly, ghost P5: Poly)
    requires Held(mem[..], w1, z, Q1) && Held(mem[..], w4, z, P4) && Held(mem[..], w5, z + 1, P5) && cy1 == W(Q1, z)
      && cy4 == W(P4, z)
    requires Apart(w5, z, w4, z) && Apart(w5, z, w1, z)
    modifies mem
    ensures Held(mem[..], w5, z + 1, Add(P5, Add(P4, Q1))) && Only(old(mem[..]), mem[..], w5, z + 1)
  {
    hide W, Add, Xor, Held, Only, Wrote;
    ghost var s0, N := mem[..], Add(P5, Add(P4, Q1));
    HeldSize(s0, w5, z + 1, P5);
    HeldPrefix(s0, w5, z + 1, P5, z);
    Add3(mem, w5, w4, w1, z, P5, P4, Q1);
    ghost var s1 := mem[..];
    HeldBeyond(s0, s1, w5, z, P5);
    WAdd(P5, Add(P4, Q1), z);
    WAdd(P4, Q1, z);
    XorSwap(cy1, cy4);
    mem[w5 + z] := Xor(mem[w5 + z], Xor(cy1, cy4));
    ghost var s2 := mem[..];
    WroteTwo(s1, s2, w5 + z, w5 + z);
    HeldNext(s1, s2, w5, z, N);
    OneMore(s0, s1, s2, w5, z);
  }

  lemma XorSwap(u: Word, v: Word)
    ensures Xor(u, v) == Xor(v, u)
  {
    hide Add;
  }

  /** W2 += W6 + x^6 W0. */
  method Step3(mem: array<Word>, l: Place, cy2: Word, ghost c0: Poly, ghost P1: Poly, ghost P2: Poly, ghost P3: Poly,
               ghost P4: Poly, ghost P5: Poly, ghost c6: Poly) returns (cy: Word)
    requires l.Valid() && All(mem[..], l, c0, P1, P2, P3, P4, P5, c6) && Fits(c0, 2 * l.k) && Fits(c6, 2 * l.r)
      && cy2 == W(P2, 2 * l.k)
    modifies mem
    ensures var Q2 := Add(Add(P2, c6), Shift(c0, 6));
      All(mem[..], l, c0, P1, Q2, P3, P4, P5, c6) && cy == W(Q2, 2 * l.k)
    ensures Only(old(mem[..]), mem[..], l.c + 2 * l.k, 2 * l.k)
  {
    hide W, Add, Xor, Fits, Held, Only, Apart, Shift, Carry;
    ghost var s0 := mem[..];
    var w0, w2, w6, z := l.c, l.c + 2 * l.k, l.c + 6 * l.k, 2 * l.k;
    PlaceApart(l);
    HeldSize(s0, w2, z, P2);
    HeldPrefix(s0, w2, z, P2, 2 * l.r);
    AddWords(mem, w2, w2, w6, 2 * l.r, P2, c6);
    ghost var s1 := mem[..];
    OnlySame(s0, w2, z);
    SumTop(s0, s0, s1, w2, z, 2 * l.r, P2, c6);
    HeldKept(s0, s1, w0, z, c0, w2, z);
    var m := AddLsh(mem, w2, w2, w0, z, 6, Add(P2, c6), c0);
    OnlyTrans(s0, s1, mem[..], w2, z);
    WAdd(Add(P2, c6), Shift(c0, 6), z);
    WAddBeyond(P2, c6, 2 * l.r, z);
    TopCarry(c0, 6, z);
    cy := Xor(cy2, m);
    Put2(s0, mem[..], l, c0, P1, P2, P3, P4, P5, c6, Add(Add(P2, c6), Shift(c0, 6)));
  }

  lemma TopCarry(P: Poly, e: nat, z: nat)
    requires 0 < e < 64 && Fits(P, z)
    ensures W(Shift(P, e), z) == Carry(P, e, z)
  {
    hide W, Fits, Shift, Carry, Shl;
    WShiftCarry(P, e, z);
    WBeyond(P, z, z);
    ShiftsOfZero(e);
    XorEmptyLeft(Carry(P, e, z));
  }

  /** W4 = (W4 + W2 + W0 + x^6 W6 + (x + x^5) W5) / (x^2 + x^4), with word 2k in the first word of W6. */
  method Step4(mem: array<Word>, l: Place, cy2: Word, cy4: Word, ghost c0: Poly, ghost Q1: Poly, ghost Q2: Poly,
               ghost P3: Poly, ghost P4: Poly, ghost R5: Poly, ghost c6: Poly, ghost R: Poly)
    requires l.Valid() && All(mem[..], l, c0, Q1, Q2, P3, P4, R5, c6) && Fits(c0, 2 * l.k) && Fits(c6, 2 * l.r)
      && Fits(R5, 2 * l.k)
    requires cy2 == W(Q2, 2 * l.k) && cy4 == W(P4, 2 * l.k)
    requires Add(Add(Add(P4, Add(Q2, c0)), Shift(c6, 6)), Add(Shift(R5, 1), Shift(R5, 5))) == D2(R) && Fits(R, 2 * l.k)
    modifies mem
    ensures All(mem[..], l, c0, Q1, Q2, P3, R, R5, c6)
    ensures Only(old(mem[..]), mem[..], l.c + 4 * l.k, 2 * l.k)
  {
    hide W, Add, Xor, Mul, Fits, Held, Only, Apart, Shift, Wrote, All;
    ghost var s0 := mem[..];
    var w0, w2, w4, w5, w6, z, m := l.c, l.c + 2 * l.k, l.c + 4 * l.k, l.stk + 4 * l.k, l.c + 6 * l.k, 2 * l.k, 2 * l.r;
    AllParts(s0, l, c0, Q1, Q2, P3, P4, R5, c6, z, m);
    PlaceApart(l);
    PlaceApart2(l);
    var save := FourthNumerator(mem, w0, w2, w4, w5, z, m, cy2, cy4, c0, Q2, P4, R5, c6);
    ghost var s4 := mem[..];
    FitsLess(R5, z, z + 1);
    SmallMultiples(R5);
    var c := AddMultiple(mem, w4, w5, z + 1, {1, 5}, Add(Add(P4, Add(Q2, c0)), Shift(c6, 6)), R5);
    ghost var s5 := mem[..];
    ExactD2(R, z + 1);
    var _ := DivExactD2(mem, w4, z + 1, D2(R), R);
    ghost var s6 := mem[..];
    mem[w6] := save;
    WroteTwo(s6, mem[..], w4 + z, w4 + z);
    FourthRestored(s0, s4, s5, s6, mem[..], w4, z, R);
    Put4(s0, mem[..], l, c0, Q1, Q2, P3, P4, R5, c6, R);
  }

  /** W4 + W2 + W0 + W6 x^6 with its word z in W6[0], whose content is saved. */
  method FourthNumerator(mem: array<Word>, w0: nat, w2: nat, w4: nat, w5: nat, z: nat, m: nat, cy2: Word, cy4: Word,
                         ghost c0: Poly, ghost Q2: Poly, ghost P4: Poly, ghost R5: Poly, ghost c6: Poly)
                         returns (save: Word)
    requires 0 < m <= z && Held(mem[..], w0, z, c0) && Held(mem[..], w2, z, Q2) && Held(mem[..], w4, z, P4)
    requires Held(mem[..], w5, z + 1, R5) && Held(mem[..], w4 + z, m, c6) && Fits(c0, z) && Fits(c6, m)
    requires Apart(w4, z, w2, z) && Apart(w4, z, w0, z) && Apart(w4, z + 1, w5, z + 1)
    requires cy2 == W(Q2, z) && cy4 == W(P4, z)
    modifies mem
    ensures w4 + z < mem.Length && save == old(mem[..])[w4 + z]
    ensures Held(mem[..], w4, z + 1, Add(Add(P4, Add(Q2, c0)), Shift(c6, 6))) && Held(mem[..], w5, z + 1, R5)
    ensures Only(old(mem[..]), mem[..], w4, z + 1)
  {
    hide W, Add, Xor, Fits, Held, Only, Shift, Wrote, Carry;
    ghost var s0, w6 := mem[..], w4 + z;
    HeldSize(s0, w6, m, c6);
    ghost var N := Add(P4, Add(Q2, c0));
    Add3(mem, w4, w2, w0, z, P4, Q2, c0);
    ghost var s1 := mem[..];
    HeldKept(s0, s1, w6, m, c6, w4, z);
    HeldPrefix(s1, w4, z, N, m);
    var cy3 := AddLsh(mem, w4, w4, w4 + z, m, 6, N, c6);
    ghost var s2 := mem[..];
    save := mem[w4 + z];
    mem[w4 + z] := Xor(cy4, cy2);
    ghost var s3 := mem[..];
    mem[w4 + m] := Xor(mem[w4 + m], cy3);
    WroteTwo(s2, s3, w4 + z, w4 + z);
    WroteTwo(s3, mem[..], w4 + m, w4 + m);
    NumeratorTop(P4, Q2, c0, z);
    TopCarry(c6, 6, m);
    FitsShiftAny(c6, m, 6);
    BorrowedHeld(s1, s2, s3, mem[..], w4, z, m, N, Shift(c6, 6), cy3);
    HeldKept(s0, s1, w5, z + 1, R5, w4, z);
    FourthKept(s1, s2, s3, mem[..], w4, z, m, w5, R5);
    FourthOnly(s0, s1, s2, s3, mem[..], w4, z, m);
  }

  lemma FourthOnly(s0: seq<Word>, s1: seq<Word>, s2: seq<Word>, s3: seq<Word>, s4: seq<Word>, w: nat, z: nat, m: nat)
    requires m <= z && w + z < |s0| && Only(s0, s1, w, z) && Only(s1, s2, w, m) && Wrote(s2, s3, w + z, w + z)
      && Wrote(s3, s4, w + m, w + m)
    ensures Only(s0, s4, w, z + 1) && |s2| == |s0| && (w + z < |s0| ==> s2[w + z] == s0[w + z])
  {
  }

  lemma NumeratorTop(P4: Poly, Q2: Poly, c0: Poly, z: nat)
    requires Fits(c0, z)
    ensures W(Add(P4, Add(Q2, c0)), z) == Xor(W(P4, z), W(Q2, z))
  {
    hide W, Add, Xor, Fits;
    WAdd(P4, Add(Q2, c0), z);
    WAddBeyond(Q2, c0, z, z);
  }

  /** The sum of z words with its word z, and then the shorter operand with its carry. */
  lemma BorrowedHeld(s: seq<Word>, t: seq<Word>, u: seq<Word>, v: seq<Word>, w: nat, z: nat, m: nat, N: Poly, X: Poly,
                     cy: Word)
    requires m <= z && Held(s, w, z, N) && Only(s, t, w, m) && Held(t, w, m, Add(N, X)) && Fits(X, m + 1)
      && cy == W(X, m)
    requires w + z < |s| && Wrote(t, u, w + z, w + z) && u[w + z] == W(N, z)
    requires Wrote(u, v, w + m, w + m) && v[w + m] == Xor(u[w + m], cy)
    ensures Held(v, w, z + 1, Add(N, X))
  {
    hide W, Add, Xor, Fits;
    forall i | w <= i < w + z + 1
      ensures v[i] == W(Add(N, X), i - w)
    {
      WAdd(N, X, i - w);
      if m < i - w {
        WBeyond(X, m + 1, i - w);
        XorEmptyLeft(W(N, i - w));
      }
    }
  }

  lemma FourthKept(s: seq<Word>, t: seq<Word>, u: seq<Word>, v: seq<Word>, w: nat, z: nat, m: nat, w5: nat, R5: Poly)
    requires m <= z && Only(s, t, w, m) && Wrote(t, u, w + z, w + z) && Wrote(u, v, w + m, w + m)
    requires Held(s, w5, z + 1, R5) && Apart(w, z + 1, w5, z + 1)
    ensures Held(v, w5, z + 1, R5)
  {
    hide W;
  }

  lemma FourthRestored(s0: seq<Word>, s4: seq<Word>, s5: seq<Word>, s6: seq<Word>, s7: seq<Word>, w: nat, z: nat,
                       R: Poly)
    requires Only(s0, s4, w, z + 1) && Only(s4, s5, w, z + 1) && Only(s5, s6, w, z + 1) && Wrote(s6, s7, w + z, w + z)
      && Held(s6, w, z + 1, R)
    requires w + z < |s0| && s7[w + z] == s0[w + z]
    ensures Held(s7, w, z, R) && Only(s0, s7, w, z)
  {
    hide W;
  }

  /** W3 += W0 + W6. */
  method Step5(mem: array<Word>, l: Place, ghost c0: Poly, ghost P1: Poly, ghost P2: Poly, ghost P3: Poly,
               ghost P4: Poly, ghost P5: Poly, ghost c6: Poly)
    requires l.Valid() && All(mem[..], l, c0, P1, P2, P3, P4, P5, c6) && Fits(c6, 2 * l.r)
    modifies mem
    ensures All(mem[..], l, c0, P1, P2, Add(P3, Add(c0, c6)), P4, P5, c6)
    ensures Only(old(mem[..]), mem[..], l.stk + 2 * l.k, 2 * l.k)
  {
    hide W, Add, Fits, Held, Only, Apart, High, Low;
    ghost var s0 := mem[..];
    var w0, w3, w6, z, m := l.c, l.stk + 2 * l.k, l.c + 6 * l.k, 2 * l.k, 2 * l.r;
    PlaceApart(l);
    PlaceApart2(l);
    ghost var X := Add(c0, c6);
    HeldPrefix(s0, w3, z, P3, m);
    HeldPrefix(s0, w0, z, c0, m);
    SplitHeld(s0, w3, z, m, P3);
    SplitHeld(s0, w0, z, m, c0);
    HeldSize(s0, w3, z, P3);
    Add3(mem, w3, w0, w6, m, P3, c0, c6);
    ghost var s1 := mem[..];
    UpperApart(w3, w0, z, m);
    HeldKept(s0, s1, w3 + m, z - m, High(P3, 64 * m), w3, m);
    HeldKept(s0, s1, w0 + m, z - m, High(c0, 64 * m), w3, m);
    if l.r != l.k {
      AddWords(mem, w3 + m, w3 + m, w0 + m, z - m, High(P3, 64 * m), High(c0, 64 * m));
    } else {
      OnlySame(s1, w3 + m, z - m);
      NoWords(s1, w3 + m, z - m, Add(High(P3, 64 * m), High(c0, 64 * m)));
    }
    ghost var s2 := mem[..];
    HeldKept(s1, s2, w3, m, Add(P3, X), w3 + m, z - m);
    UpperAdded(P3, c0, c6, z, m);
    HeldEqual(s2, w3 + m, z - m, Add(High(P3, 64 * m), High(c0, 64 * m)), High(Add(P3, X), 64 * m));
    HeldAppend(s2, w3, m, z - m, Add(P3, X));
    OnlyAdjacent(s0, s1, s2, w3, z, m);
    Put3(s0, s2, l, c0, P1, P2, P3, P4, P5, c6, Add(P3, X));
  }

  lemma NoWords(s: seq<Word>, p: nat, n: nat, P: Poly)
    requires n == 0 && p <= |s|
    ensures Held(s, p, n, P)
  {
  }

  lemma UpperApart(w3: nat, w0: nat, z: nat, m: nat)
    requires m <= z && Apart(w3, z, w0, z)
    ensures Apart(w3, m, w3 + m, z - m) && Apart(w3, m, w0 + m, z - m) && Apart(w3 + m, z - m, w0 + m, z - m)
      && Apart(w3 + m, z - m, w3, m)
  {
  }

  lemma UpperAdded(P3: Poly, c0: Poly, c6: Poly, z: nat, m: nat)
    requires m <= z && Fits(c6, m)
    ensures forall i :: 0 <= i < z - m
              ==> W(Add(High(P3, 64 * m), High(c0, 64 * m)), i) == W(High(Add(P3, Add(c0, c6)), 64 * m), i)
  {
    hide W, Add, Fits, High;
    forall i | 0 <= i < z - m
      ensures W(Add(High(P3, 64 * m), High(c0, 64 * m)), i) == W(High(Add(P3, Add(c0, c6)), 64 * m), i)
    {
      WAdd(High(P3, 64 * m), High(c0, 64 * m), i);
      WHigh(P3, m, i);
      WHigh(c0, m, i);
      WHigh(Add(P3, Add(c0, c6)), m, i);
      WAdd(P3, Add(c0, c6), m + i);
      WAddBeyond(c0, c6, m, m + i);
    }
  }

  /** W1 += W3. */
  method Step6(mem: array<Word>, l: Place, cy1: Word, ghost c0: Poly, ghost Q1: Poly, ghost P2: Poly, ghost Q3: Poly,
               ghost P4: Poly, ghost P5: Poly, ghost c6: Poly)
    requires l.Valid() && All(mem[..], l, c0, Q1, P2, Q3, P4, P5, c6) && Fits(Q3, 2 * l.k) && cy1 == W(Q1, 2 * l.k)
    modifies mem
    ensures All(mem[..], l, c0, Add(Q1, Q3), P2, Q3, P4, P5, c6) && cy1 == W(Add(Q1, Q3), 2 * l.k)
    ensures Only(old(mem[..]), mem[..], l.stk, 2 * l.k)
  {
    hide W, Add, Fits, Held, Only, Apart;
    ghost var s0 := mem[..];
    PlaceApart(l);
    HeldSize(s0, l.stk, 2 * l.k, Q1);
    AddWords(mem, l.stk, l.stk, l.stk + 2 * l.k, 2 * l.k, Q1, Q3);
    WAddBeyond(Q1, Q3, 2 * l.k, 2 * l.k);
    Put1(s0, mem[..], l, c0, Q1, P2, Q3, P4, P5, c6, Add(Q1, Q3));
  }

  /** W2 += x W1 + x^2 W3. */
  method Step7(mem: array<Word>, l: Place, cy1: Word, cy2: Word, ghost c0: Poly, ghost R1: Poly, ghost Q2: Poly,
               ghost Q3: Poly, ghost P4: Poly, ghost P5: Poly, ghost c6: Poly) returns (cy: Word)
    requires l.Valid() && All(mem[..], l, c0, R1, Q2, Q3, P4, P5, c6) && Fits(Q3, 2 * l.k) && cy1 == W(R1, 2 * l.k)
      && cy2 == W(Q2, 2 * l.k)
    modifies mem
    ensures var R2 := Add(Add(Q2, Shift(R1, 1)), Shift(Q3, 2));
      All(mem[..], l, c0, R1, R2, Q3, P4, P5, c6) && cy == W(R2, 2 * l.k)
    ensures Only(old(mem[..]), mem[..], l.c + 2 * l.k, 2 * l.k)
  {
    hide W, Add, Xor, Fits, Held, Only, Apart, Shift, Carry, Shl;
    ghost var s0 := mem[..];
    var w1, w2, w3, z := l.stk, l.c + 2 * l.k, l.stk + 2 * l.k, 2 * l.k;
    PlaceApart(l);
    HeldSize(s0, w2, z, Q2);
    var u := AddLsh(mem, w2, w2, w1, z, 1, Q2, R1);
    ghost var s1 := mem[..];
    HeldKept(s0, s1, w3, z, Q3, w2, z);
    var v := AddLsh(mem, w2, w2, w3, z, 2, Add(Q2, Shift(R1, 1)), Q3);
    OnlyTrans(s0, s1, mem[..], w2, z);
    WAdd(Add(Q2, Shift(R1, 1)), Shift(Q3, 2), z);
    WAdd(Q2, Shift(R1, 1), z);
    WShiftCarry(R1, 1, z);
    TopCarry(Q3, 2, z);
    SevenXors(cy2, Shl(cy1, 1), u, v);
    cy := Xor(cy2, Xor(Xor(u, v), Shl(cy1, 1)));
    Put2(s0, mem[..], l, c0, R1, Q2, Q3, P4, P5, c6, Add(Add(Q2, Shift(R1, 1)), Shift(Q3, 2)));
  }

  lemma SevenXors(a: Word, b: Word, u: Word, v: Word)
    ensures Xor(a, Xor(Xor(u, v), b)) == Xor(Xor(a, Xor(b, u)), v)
  {
    hide Add;
  }

  /** W3 += W4 + W5. */
  method Step8(mem: array<Word>, l: Place, ghost c0: Poly, ghost P1: Poly, ghost P2: Poly, ghost Q3: Poly,
               ghost R4: Poly, ghost R5: Poly, ghost c6: Poly)
    requires l.Valid() && All(mem[..], l, c0, P1, P2, Q3, R4, R5, c6)
    modifies mem
    ensures All(mem[..], l, c0, P1, P2, Add(Q3, Add(R4, R5)), R4, R5, c6)
    ensures Only(old(mem[..]), mem[..], l.stk + 2 * l.k, 2 * l.k)
  {
    hide W, Add, Held, Only, Apart;
    ghost var s0 := mem[..];
    PlaceApart(l);
    HeldPrefix(s0, l.stk + 4 * l.k, 2 * l.k + 1, R5, 2 * l.k);
    Add3(mem, l.stk + 2 * l.k, l.c + 4 * l.k, l.stk + 4 * l.k, 2 * l.k, Q3, R4, R5);
    Put3(s0, mem[..], l, c0, P1, P2, Q3, R4, R5, c6, Add(Q3, Add(R4, R5)));
  }

  /** W1 = (W1 + (x + x^2) W3) / (x + x^4), with word 2k in the first word of W3. */
  method Step9(mem: array<Word>, l: Place, cy1: Word, ghost c0: Poly, ghost R1: Poly, ghost P2: Poly, ghost c3: Poly,
               ghost P4: Poly, ghost P5: Poly, ghost c6: Poly, ghost c1: Poly)
    requires l.Valid() && All(mem[..], l, c0, R1, P2, c3, P4, P5, c6) && Fits(c3, 2 * l.k) && cy1 == W(R1, 2 * l.k)
    requires Add(R1, Add(Shift(c3, 1), Shift(c3, 2))) == D1(c1) && Fits(c1, 2 * l.k)
    modifies mem
    ensures All(mem[..], l, c0, c1, P2, c3, P4, P5, c6)
    ensures Only(old(mem[..]), mem[..], l.stk, 2 * l.k)
  {
    hide W, Add, Xor, Mul, Fits, Held, Only, Apart, Shift;
    ghost var s0 := mem[..];
    var w1, w3, z := l.stk, l.stk + 2 * l.k, 2 * l.k;
    PlaceApart(l);
    SmallMultiples(c3);
    HeldSize(s0, w3, z, c3);
    var m := AddMultiple(mem, w1, w3, z, {1, 2}, R1, c3);
    ghost var s1 := mem[..];
    WAdd(R1, Add(Shift(c3, 1), Shift(c3, 2)), z);
    DivideD1(mem, w1, z, Xor(cy1, m), c1);
    OnlyTrans(s0, s1, mem[..], w1, z);
    Put1(s0, mem[..], l, c0, R1, P2, c3, P4, P5, c6, c1);
  }

  /** W5 += W1. */
  method Step10(mem: array<Word>, l: Place, ghost c0: Poly, ghost c1: Poly, ghost P2: Poly, ghost P3: Poly,
                ghost P4: Poly, ghost R5: Poly, ghost c6: Poly)
    requires l.Valid() && All(mem[..], l, c0, c1, P2, P3, P4, R5, c6) && Fits(c1, 2 * l.k)
    modifies mem
    ensures All(mem[..], l, c0, c1, P2, P3, P4, Add(R5, c1), c6)
    ensures Only(old(mem[..]), mem[..], l.stk + 4 * l.k, 2 * l.k + 1)
  {
    hide W, Add, Fits, Held, Only, Apart;
    ghost var s0 := mem[..];
    var w1, w5, z := l.stk, l.stk + 4 * l.k, 2 * l.k;
    PlaceApart(l);
    HeldSize(s0, w5, z + 1, R5);
    HeldPrefix(s0, w5, z + 1, R5, z);
    AddWords(mem, w5, w5, w1, z, R5, c1);
    OnlySame(s0, w5, z + 1);
    SumTop(s0, s0, mem[..], w5, z + 1, z, R5, c1);
    Put5(s0, mem[..], l, c0, c1, P2, P3, P4, R5, c6, Add(R5, c1));
  }

  /** W2 = (W2 + (x + x^2) W5) / (x^2 + x^4), with word 2k in the first word of W4. */
  method Step11(mem: array<Word>, l: Place, cy2: Word, ghost c0: Poly, ghost P1: Poly, ghost R2: Poly, ghost P3: Poly,
                ghost P4: Poly, ghost c5: Poly, ghost c6: Poly, ghost c2: Poly)
    requires l.Valid() && All(mem[..], l, c0, P1, R2, P3, P4, c5, c6) && Fits(c5, 2 * l.k) && cy2 == W(R2, 2 * l.k)
    requires Add(R2, Add(Shift(c5, 1), Shift(c5, 2))) == D2(c2) && Fits(c2, 2 * l.k)
    modifies mem
    ensures All(mem[..], l, c0, P1, c2, P3, P4, c5, c6)
    ensures Only(old(mem[..]), mem[..], l.c + 2 * l.k, 2 * l.k)
  {
    hide W, Add, Xor, Mul, Fits, Held, Only, Apart, Shift;
    ghost var s0 := mem[..];
    var w2, w5, z := l.c + 2 * l.k, l.stk + 4 * l.k, 2 * l.k;
    PlaceApart(l);
    SmallMultiples(c5);
    HeldSize(s0, l.c + 4 * l.k, z, P4);
    HeldPrefix(s0, w5, z + 1, c5, z);
    var m := AddMultiple(mem, w2, w5, z, {1, 2}, R2, c5);
    ghost var s1 := mem[..];
    WAdd(R2, Add(Shift(c5, 1), Shift(c5, 2)), z);
    DivideD2(mem, w2, z, Xor(cy2, m), c2);
    OnlyTrans(s0, s1, mem[..], w2, z);
    Put2(s0, mem[..], l, c0, P1, R2, P3, P4, c5, c6, c2);
  }

  /** W4 += W2. */
  method Step12(mem: array<Word>, l: Place, ghost c0: Poly, ghost P1: Poly, ghost c2: Poly, ghost P3: Poly,
                ghost R4: Poly, ghost P5: Poly, ghost c6: Poly)
    requires l.Valid() && All(mem[..], l, c0, P1, c2, P3, R4, P5, c6)
    modifies mem
    ensures All(mem[..], l, c0, P1, c2, P3, Add(R4, c2), P5, c6)
    ensures Only(old(mem[..]), mem[..], l.c + 4 * l.k, 2 * l.k)
  {
    hide W, Add, Held, Only, Apart;
    ghost var s0 := mem[..];
    PlaceApart(l);
    HeldSize(s0, l.c + 4 * l.k, 2 * l.k, R4);
    AddWords(mem, l.c + 4 * l.k, l.c + 4 * l.k, l.c + 2 * l.k, 2 * l.k, R4, c2);
    Put4(s0, mem[..], l, c0, P1, c2, P3, R4, P5, c6, Add(R4, c2));
  }

  // ---------------------------------------------------------------- all steps

  lemma PlaceInside(l: Place, sn: nat)
    requires l.Valid() && 6 * l.k + 1 <= sn
    ensures var z := 2 * l.k; var cn := 6 * l.k + 2 * l.r;
      && Inside(l.c + z, z, l.c, cn, l.stk, sn) && Inside(l.c + 2 * z, z, l.c, cn, l.stk, sn)
      && Inside(l.stk, z, l.c, cn, l.stk, sn) && Inside(l.stk + z, z, l.c, cn, l.stk, sn)
      && Inside(l.stk + 2 * z, z + 1, l.c, cn, l.stk, sn)
  {
  }

  lemma SumsFit(c1: Poly, c2: Poly, c3: Poly, c4: Poly, c5: Poly, Q3: Poly, z: nat)
    requires Fits(c1, z) && Fits(c2, z) && Fits(c3, z) && Fits(c4, z) && Fits(c5, z)
    requires Add(Q3, Add(Add(c2, c4), Add(c1, c5))) == c3
    ensures Fits(Add(c1, c5), z) && Fits(Add(c2, c4), z) && Fits(Q3, z)
  {
    hide Fits, Add;
    FitsAdd(c1, c5, z);
    FitsAdd(c2, c4, z);
    FitsAdd(Add(c2, c4), Add(c1, c5), z);
    FitsAdd(c3, Add(Add(c2, c4), Add(c1, c5)), z);
    Solve(Q3, Add(Add(c2, c4), Add(c1, c5)));
  }

  lemma Solve(P: Poly, X: Poly)
    ensures Add(Add(P, X), X) == P
  {
    hide Add;
  }

  /** The interpolation sequence, from the seven values to the seven coefficients. */
  method InterpolateFour(mem: array<Word>, l: Place, cy1: Word, cy2: Word, cy4: Word, ghost sn: nat,
                         ghost c0: Poly, ghost c1: Poly, ghost c2: Poly, ghost c3: Poly, ghost c4: Poly, ghost c5: Poly,
                         ghost c6: Poly)
    requires l.Valid() && 6 * l.k + 1 <= sn
    requires Fits(c0, 2 * l.k) && Fits(c1, 2 * l.k) && Fits(c2, 2 * l.k) && Fits(c3, 2 * l.k) && Fits(c4, 2 * l.k)
      && Fits(c5, 2 * l.k)
    requires Fits(c6, 2 * l.r)
    requires var (C, R) := ([c0, c1, c2, c3, c4, c5, c6], [c6, c5, c4, c3, c2, c1, c0]);
      && All(mem[..], l, c0, Eval(R, {0, 1}), Eval(R, {1}), Eval(C, ONE), Eval(C, {1}), Eval(C, {0, 1}), c6)
      && cy1 == W(Eval(R, {0, 1}), 2 * l.k) && cy2 == W(Eval(R, {1}), 2 * l.k) && cy4 == W(Eval(C, {1}), 2 * l.k)
    modifies mem
    ensures All(mem[..], l, c0, c1, c2, c3, c4, c5, c6)
    ensures Only2(old(mem[..]), mem[..], l.c, 6 * l.k + 2 * l.r, l.stk, sn)
  {
    hide W, Add, Fits, Held, Only, Only2, Apart, Shift, Eval, All, Odd, D1, D2, Inside;
    ghost var C, R := [c0, c1, c2, c3, c4, c5, c6], [c6, c5, c4, c3, c2, c1, c0];
    ghost var P1, P2, P3, P4, P5 := Eval(R, {0, 1}), Eval(R, {1}), Eval(C, ONE), Eval(C, {1}), Eval(C, {0, 1});
    ghost var Q1, Q2, Q3 := Add(Add(P1, P2), Odd(c0)), Add(Add(P2, c6), Shift(c0, 6)), Add(P3, Add(c0, c6));
    ghost var cn, z := 6 * l.k + 2 * l.r, 2 * l.k;
    FirstSum(c0, c1, c2, c3, c4, c5, c6);
    FifthQuotient(c0, c1, c2, c3, c4, c5, c6);
    FourthQuotient(c0, c1, c2, c3, c4, c5, c6);
    LastQuotients(c0, c1, c2, c3, c4, c5, c6);
    SumsFit(c1, c2, c3, c4, c5, Q3, z);
    PlaceInside(l, sn);
    ghost var s0 := mem[..];
    Only2Same(s0, l.c, cn, l.stk, sn);
    var x1 := Step1(mem, l, cy1, cy2, c0, P1, P2, P3, P4, P5, c6);
    ghost var s1 := mem[..];
    OnlyThen(s0, s0, s1, l.c, cn, l.stk, sn, l.stk, z);
    Step2(mem, l, x1, cy4, c0, Q1, P2, P3, P4, P5, c6, Add(c1, c5));
    ghost var s2 := mem[..];
    OnlyThen(s0, s1, s2, l.c, cn, l.stk, sn, l.stk + 4 * l.k, z + 1);
    var x2 := Step3(mem, l, cy2, c0, Q1, P2, P3, P4, Add(c1, c5), c6);
    ghost var s3 := mem[..];
    OnlyThen(s0, s2, s3, l.c, cn, l.stk, sn, l.c + 2 * l.k, z);
    Step4(mem, l, x2, cy4, c0, Q1, Q2, P3, P4, Add(c1, c5), c6, Add(c2, c4));
    ghost var s4 := mem[..];
    OnlyThen(s0, s3, s4, l.c, cn, l.stk, sn, l.c + 4 * l.k, z);
    Step5(mem, l, c0, Q1, Q2, P3, Add(c2, c4), Add(c1, c5), c6);
    ghost var s5 := mem[..];
    OnlyThen(s0, s4, s5, l.c, cn, l.stk, sn, l.stk + 2 * l.k, z);
    InterpolateTail(mem, l, x1, x2, sn, c0, c1, c2, c3, c4, c5, c6, Q1, Q2, Q3);
    OnlyThen2(s0, s5, mem[..], l.c, cn, l.stk, sn);
  }

  /** The steps from the sixth on. */
  method InterpolateTail(mem: array<Word>, l: Place, cy1: Word, cy2: Word, ghost sn: nat,
                         ghost c0: Poly, ghost c1: Poly, ghost c2: Poly, ghost c3: Poly, ghost c4: Poly, ghost c5: Poly,
                         ghost c6: Poly, ghost Q1: Poly, ghost Q2: Poly, ghost Q3: Poly)
    requires l.Valid() && 6 * l.k + 1 <= sn
    requires Fits(c1, 2 * l.k) && Fits(c2, 2 * l.k) && Fits(c3, 2 * l.k) && Fits(c5, 2 * l.k) && Fits(Q3, 2 * l.k)
    requires All(mem[..], l, c0, Q1, Q2, Q3, Add(c2, c4), Add(c1, c5), c6) && cy1 == W(Q1, 2 * l.k)
      && cy2 == W(Q2, 2 * l.k)
    requires var R1 := Add(Q1, Q3); var R2 := Add(Add(Q2, Shift(R1, 1)), Shift(Q3, 2));
      && Add(Q3, Add(Add(c2, c4), Add(c1, c5))) == c3 && Add(R1, Add(Shift(c3, 1), Shift(c3, 2))) == D1(c1)
      && Add(R2, Add(Shift(c5, 1), Shift(c5, 2))) == D2(c2) && Add(Add(c1, c5), c1) == c5 && Add(Add(c2, c4), c2) == c4
    modifies mem
    ensures All(mem[..], l, c0, c1, c2, c3, c4, c5, c6)
    ensures Only2(old(mem[..]), mem[..], l.c, 6 * l.k + 2 * l.r, l.stk, sn)
  {
    hide W, Add, Fits, Held, Only, Only2, Apart, Shift, All, D1, D2, Inside;
    ghost var R1 := Add(Q1, Q3);
    ghost var R2 := Add(Add(Q2, Shift(R1, 1)), Shift(Q3, 2));
    ghost var cn, z := 6 * l.k + 2 * l.r, 2 * l.k;
    PlaceInside(l, sn);
    ghost var s0 := mem[..];
    Only2Same(s0, l.c, cn, l.stk, sn);
    Step6(mem, l, cy1, c0, Q1, Q2, Q3, Add(c2, c4), Add(c1, c5), c6);
    ghost var s1 := mem[..];
    OnlyThen(s0, s0, s1, l.c, cn, l.stk, sn, l.stk, z);
    var x2 := Step7(mem, l, cy1, cy2, c0, R1, Q2, Q3, Add(c2, c4), Add(c1, c5), c6);
    ghost var s2 := mem[..];
    OnlyThen(s0, s1, s2, l.c, cn, l.stk, sn, l.c + 2 * l.k, z);
    Step8(mem, l, c0, R1, R2, Q3, Add(c2, c4), Add(c1, c5), c6);
    ghost var s3 := mem[..];
    OnlyThen(s0, s2, s3, l.c, cn, l.stk, sn, l.stk + 2 * l.k, z);
    Step9(mem, l, cy1, c0, R1, R2, c3, Add(c2, c4), Add(c1, c5), c6, c1);
    ghost var s4 := mem[..];
    OnlyThen(s0, s3, s4, l.c, cn, l.stk, sn, l.stk, z);
    Step10(mem, l, c0, c1, R2, c3, Add(c2, c4), Add(c1, c5), c6);
    ghost var s5 := mem[..];
    OnlyThen(s0, s4, s5, l.c, cn, l.stk, sn, l.stk + 4 * l.k, z + 1);
    Step11(mem, l, x2, c0, c1, R2, c3, Add(c2, c4), c5, c6, c2);
    ghost var s6 := mem[..];
    OnlyThen(s0, s5, s6, l.c, cn, l.stk, sn, l.c + 2 * l.k, z);
    Step12(mem, l, c0, c1, c2, c3, Add(c2, c4), c5, c6);
    OnlyThen(s0, s6, mem[..], l.c, cn, l.stk, sn, l.c + 4 * l.k, z);
  }

  // ---------------------------------------------------------------- recomposition

  /** The even coefficients already lie in c, the odd ones in the scratch space. */
  method RecomposeFour(mem: array<Word>, l: Place,
                       ghost c0: Poly, ghost c1: Poly, ghost c2: Poly, ghost c3: Poly, ghost c4: Poly, ghost c5: Poly,
                       ghost c6: Poly)
    requires l.Valid() && All(mem[..], l, c0, c1, c2, c3, c4, c5, c6)
    requires Fits(c0, 2 * l.k) && Fits(c1, 2 * l.k) && Fits(c2, 2 * l.k) && Fits(c3, 2 * l.k) && Fits(c4, 2 * l.k)
      && Fits(c5, 2 * l.k)
    modifies mem
    ensures Held(mem[..], l.c, 6 * l.k + 2 * l.r, Eval([c0, c1, c2, c3, c4, c5, c6], {64 * l.k}))
    ensures Only(old(mem[..]), mem[..], l.c, 6 * l.k + 2 * l.r)
  {
    hide W, Add, Fits, Held, Only, Apart, Y, Eval;
    ghost var s0, k, z, n := mem[..], l.k, 2 * l.k, 6 * l.k + 2 * l.r;
    ghost var E, O := Add(Add(Add(c0, Y(c2, z)), Y(c4, 2 * z)), Y(c6, 3 * z)), Add(Add(c1, Y(c3, z)), Y(c5, 2 * z));
    HeldPrefix(s0, l.stk + 4 * l.k, z + 1, c5, z);
    HeldJoin(s0, l.c, z, c0, z, c2);
    JoinFits(c0, c2, c4, z);
    HeldJoin(s0, l.c, 2 * z, Add(c0, Y(c2, z)), z, c4);
    HeldJoin(s0, l.c, 3 * z, Add(Add(c0, Y(c2, z)), Y(c4, 2 * z)), 2 * l.r, c6);
    HeldJoin(s0, l.stk, z, c1, z, c3);
    JoinFits(c1, c3, c5, z);
    HeldJoin(s0, l.stk, 2 * z, Add(c1, Y(c3, z)), z, c5);
    FourApart(l);
    AddShifted(mem, l.c, n, l.stk, 6 * l.k, l.k, E, O);
    SevenTogether(c0, c1, c2, c3, c4, c5, c6, l.k);
  }

  lemma FourApart(l: Place)
    requires l.Valid()
    ensures Apart(l.c, 6 * l.k + 2 * l.r, l.stk, 6 * l.k)
  {
  }

  lemma JoinFits(P: Poly, Q: Poly, R: Poly, z: nat)
    requires Fits(P, z) && Fits(Q, z) && Fits(R, z)
    ensures Fits(Add(P, Y(Q, z)), 2 * z) && Fits(Add(Add(P, Y(Q, z)), Y(R, 2 * z)), 3 * z)
  {
    hide Fits, Add, Y;
    FitsLess(P, z, 2 * z);
    FitsY(Q, z, z);
    FitsAdd(P, Y(Q, z), 2 * z);
    FitsLess(Add(P, Y(Q, z)), 2 * z, 3 * z);
    FitsY(R, z, 2 * z);
    FitsAdd(Add(P, Y(Q, z)), Y(R, 2 * z), 3 * z);
  }

  /** Even and odd coefficients put together are the value at y^k. */
  lemma SevenTogether(c0: Poly, c1: Poly, c2: Poly, c3: Poly, c4: Poly, c5: Poly, c6: Poly, k: nat)
    ensures var z := 2 * k;
      Add(Add(Add(Add(c0, Y(c2, z)), Y(c4, 2 * z)), Y(c6, 3 * z)), Y(Add(Add(c1, Y(c3, z)), Y(c5, 2 * z)), k))
        == Eval([c0, c1, c2, c3, c4, c5, c6], {64 * k})
  {
    hide Mul, Add, Y, Shift, Eval;
    var z := 2 * k;
    EvalSeven(c0, c1, c2, c3, c4, c5, c6, {64 * k});
    YAdd(Add(c1, Y(c3, z)), Y(c5, 2 * z), k);
    YAdd(c1, Y(c3, z), k);
    YY(c3, z, k);
    YY(c5, 2 * z, k);
    var d5 := Add(c5, Y(c6, k));
    var d4 := Add(c4, Y(d5, k));
    var d3 := Add(c3, Y(d4, k));
    var d2 := Add(c2, Y(d3, k));
    var d1 := Add(c1, Y(d2, k));
    TimesY(c6, k);
    TimesY(d5, k);
    TimesY(d4, k);
    TimesY(d3, k);
    TimesY(d2, k);
    TimesY(d1, k);
    YAdd(c5, Y(c6, k), k);
    YY(c6, k, k);
    Spread2(c4, c5, c6, k);
    Spread4(c2, c3, c4, c5, c6, k);
    Spread6(c1, c2, c3, c4, c5, c6, k);
    EvenOdd(c0, Y(c1, k), Y(c2, 2 * k), Y(c3, 3 * k), Y(c4, 4 * k), Y(c5, 5 * k), Y(c6, 6 * k));
  }

  lemma TimesY(P: Poly, k: nat)
    ensures Mul({64 * k}, P) == Y(P, k)
  {
    hide Mul, Shift;
    MonomialMul(64 * k, P);
  }

  lemma Spread2(c4: Poly, c5: Poly, c6: Poly, k: nat)
    ensures Add(c4, Y(Add(c5, Y(c6, k)), k)) == Add(c4, Add(Y(c5, k), Y(c6, 2 * k)))
  {
    hide Add, Y;
    YAdd(c5, Y(c6, k), k);
    YY(c6, k, k);
  }

  lemma Spread4(c2: Poly, c3: Poly, c4: Poly, c5: Poly, c6: Poly, k: nat)
    ensures Add(c2, Y(Add(c3, Y(Add(c4, Add(Y(c5, k), Y(c6, 2 * k))), k)), k))
         == Add(c2, Add(Y(c3, k), Add(Y(c4, 2 * k), Add(Y(c5, 3 * k), Y(c6, 4 * k)))))
  {
    hide Add, Y;
    YAdd(c4, Add(Y(c5, k), Y(c6, 2 * k)), k);
    YAdd(Y(c5, k), Y(c6, 2 * k), k);
    YY(c5, k, k);
    YY(c6, 2 * k, k);
    YAdd(c3, Add(Y(c4, k), Add(Y(c5, 2 * k), Y(c6, 3 * k))), k);
    YAdd(Y(c4, k), Add(Y(c5, 2 * k), Y(c6, 3 * k)), k);
    YAdd(Y(c5, 2 * k), Y(c6, 3 * k), k);
    YY(c4, k, k);
    YY(c5, 2 * k, k);
    YY(c6, 3 * k, k);
  }

  lemma Spread6(c1: Poly, c2: Poly, c3: Poly, c4: Poly, c5: Poly, c6: Poly, k: nat)
    ensures var t := Add(c2, Add(Y(c3, k), Add(Y(c4, 2 * k), Add(Y(c5, 3 * k), Y(c6, 4 * k)))));
      Y(Add(c1, Y(t, k)), k) == Add(Y(c1, k),
        Add(Y(c2, 2 * k), Add(Y(c3, 3 * k), Add(Y(c4, 4 * k), Add(Y(c5, 5 * k), Y(c6, 6 * k))))))
  {
    hide Add, Y;
    var u := Add(Y(c3, k), Add(Y(c4, 2 * k), Add(Y(c5, 3 * k), Y(c6, 4 * k))));
    YAdd(c1, Y(Add(c2, u), k), k);
    YY(Add(c2, u), k, k);
    YAdd(c2, u, 2 * k);
    YAdd(Y(c3, k), Add(Y(c4, 2 * k), Add(Y(c5, 3 * k), Y(c6, 4 * k))), 2 * k);
    YAdd(Y(c4, 2 * k), Add(Y(c5, 3 * k), Y(c6, 4 * k)), 2 * k);
    YAdd(Y(c5, 3 * k), Y(c6, 4 * k), 2 * k);
    YY(c3, k, 2 * k);
    YY(c4, 2 * k, 2 * k);
    YY(c5, 3 * k, 2 * k);
    YY(c6, 4 * k, 2 * k);
  }

  lemma EvenOdd(a: Poly, b: Poly, c: Poly, d: Poly, e: Poly, f: Poly, g: Poly)
    ensures Add(Add(Add(Add(a, c), e), g), Add(Add(b, d), f)) == Add(a, Add(b, Add(c, Add(d, Add(e, Add(f, g))))))
  {
    hide Add;
  }
}
