/** Unbalanced Toom-Cook multiplication: gf2x_mul_tc3u of gf2x-1.1/toom2.c multiplies
    sa words by (sa + 1) / 2 words with five products of about a quarter of sa.  The
    long operand is cut into four parts and the short one into two. */
module ToomUnbalanced {
  import opened Polynomials
  import opened Words
  import opened WordMemory
  import opened BaseCase
  import opened ToomSpace
  import opened ToomAlgebra
  import opened Karatsuba
  import opened OperandParts
  import opened ToomLoops
  import opened Toom

  // ---------------------------------------------------------------- evaluation loops

  /** V = a0 + a1 + a2 + a3. */
  method SumFour(mem: array<Word>, a: nat, v: nat, k: nat, ra: nat, ghost A0: Poly, ghost A1: Poly, ghost A2: Poly,
                 ghost A3: Poly)
    requires ra <= k && Parts4(mem[..], a, k, ra, A0, A1, A2, A3) && v + k <= mem.Length && Apart(v, k, a, 3 * k + ra)
    modifies mem
    ensures Held(mem[..], v, k, Add(Add(Add(A0, A1), A2), A3)) && Only(old(mem[..]), mem[..], v, k)
  {
    hide W, Add, Xor, Fits, Held, Only, Wrote, Parts4;
    ghost var before := mem[..];
    ghost var S := Add(Add(Add(A0, A1), A2), A3);
    Parts4Fit(before, a, k, ra, A0, A1, A2, A3);
    HeldNone(before, v, S);
    OnlySame(before, v, k);
    var j := 0;
    while j < k
      invariant 0 <= j <= k && Held(mem[..], v, j, S) && Only(before, mem[..], v, k)
    {
      ghost var now := mem[..];
      Part4Words(mem, before, a, k, ra, j, A0, A1, A2, A3, v, k);
      SumWord(A0, A1, A2, A3, ra, j);
      if j < ra {
        mem[v + j] := Xor(Xor(Xor(mem[a + 3 * k + j], mem[a + 2 * k + j]), mem[a + k + j]), mem[a + j]);
      } else {
        mem[v + j] := Xor(Xor(mem[a + 2 * k + j], mem[a + k + j]), mem[a + j]);
      }
      WroteTwo(now, mem[..], v + j, v + j);
      WroteGrow(now, mem[..], v + j, v + j, v, j, S);
      WroteOnly(before, now, mem[..], v + j, v + j, v, k);
      j := j + 1;
    }
  }

  lemma SumWord(A0: Poly, A1: Poly, A2: Poly, A3: Poly, ra: nat, j: nat)
    requires Fits(A3, ra)
    ensures W(Add(Add(Add(A0, A1), A2), A3), j)
         == if j < ra then Xor(Xor(Xor(W(A3, j), W(A2, j)), W(A1, j)), W(A0, j))
           else Xor(Xor(W(A2, j), W(A1, j)), W(A0, j))
  {
    hide WordAt, W, Add, Xor, Fits;
    WAdd(Add(Add(A0, A1), A2), A3, j);
    WAdd(Add(A0, A1), A2, j);
    WAdd(A0, A1, j);
    WOutside(A3, ra, j);
    XorReverse(W(A0, j), W(A1, j), W(A2, j), W(A3, j));
  }

  lemma XorReverse(u: Word, v: Word, w: Word, x: Word)
    ensures Xor(Xor(Xor(u, v), w), x) == Xor(Xor(Xor(x, w), v), u)
    ensures x == {} ==> Xor(Xor(Xor(u, v), w), x) == Xor(Xor(w, v), u)
  {
    hide Add;
  }

  /** V = b1 + b0, where b1 has rb words. */
  method SumTwo(mem: array<Word>, b: nat, v: nat, k: nat, rb: nat, ghost B0: Poly, ghost B1: Poly)
    requires rb <= k && Held(mem[..], b, k, B0) && Held(mem[..], b + k, rb, B1) && Fits(B1, rb)
    requires v + k <= mem.Length && Apart(v, k, b, k) && Apart(v, k, b + k, rb)
    modifies mem
    ensures Held(mem[..], v, k, Add(B0, B1)) && Only(old(mem[..]), mem[..], v, k)
  {
    hide W, Add, Xor, Fits, Held, Only, Wrote;
    ghost var before := mem[..];
    ghost var S := Add(B0, B1);
    HeldNone(before, v, S);
    OnlySame(before, v, k);
    var j := 0;
    while j < k
      invariant 0 <= j <= k && Held(mem[..], v, j, S) && Only(before, mem[..], v, k)
      invariant Held(mem[..], b, k, B0) && Held(mem[..], b + k, rb, B1)
    {
      ghost var now := mem[..];
      HeldWord(mem, b, k, B0, j);
      WAdd(B0, B1, j);
      XorComm(W(B0, j), W(B1, j));
      if j < rb {
        HeldWord(mem, b + k, rb, B1, j);
        mem[v + j] := Xor(mem[b + k + j], mem[b + j]);
      } else {
        WAddBeyond(B0, B1, rb, j);
        mem[v + j] := mem[b + j];
      }
      WroteTwo(now, mem[..], v + j, v + j);
      WroteGrow(now, mem[..], v + j, v + j, v, j, S);
      WroteKeep(now, mem[..], v + j, v + j, b, k, B0);
      WroteKeep(now, mem[..], v + j, v + j, b + k, rb, B1);
      WroteOnly(before, now, mem[..], v + j, v + j, v, k);
      j := j + 1;
    }
  }

  /** a1 y + a2 y^2 + a3 y^3. */
  function Quad(A1: Poly, A2: Poly, A3: Poly): Poly {
    Add(Add(Y(A1, 1), Y(A2, 2)), Y(A3, 3))
  }

  lemma QuadWord(A1: Poly, A2: Poly, A3: Poly, i: int)
    ensures W(Quad(A1, A2, A3), i) == Xor(Xor(W(A1, i - 1), W(A2, i - 2)), W(A3, i - 3))
  {
    hide WordAt, W, Add, Y, Xor;
    WAdd(Add(Y(A1, 1), Y(A2, 2)), Y(A3, 3), i);
    WAdd(Y(A1, 1), Y(A2, 2), i);
    WY(A1, 1, i);
    WY(A2, 2, i);
    WY(A3, 3, i);
  }

  /** The words of Quad with a3 cut off after k - 3 words, as the first loops leave them. */
  lemma QuadWords(A1: Poly, A2: Poly, A3: Poly, k: nat, i: nat)
    requires 3 <= k && Fits(A1, k) && Fits(A2, k)
    ensures var w := W(Quad(A1, A2, Low(A3, 64 * (k - 3))), i);
      && (i == 0 ==> w == {}) && (i == 1 ==> w == W(A1, 0)) && (i == 2 ==> w == Xor(W(A2, 0), W(A1, 1)))
      && (3 <= i < k ==> w == Xor(Xor(W(A3, i - 3), W(A2, i - 2)), W(A1, i - 1)))
      && (i == k ==> w == Xor(W(A2, i - 2), W(A1, i - 1))) && (i == k + 1 ==> w == W(A2, i - 2))
      && (i >= k + 2 ==> w == {})
  {
    hide WordAt, W, Fits, Xor, Low, Quad;
    var T := Low(A3, 64 * (k - 3));
    QuadWord(A1, A2, T, i);
    LowFits(A3, k - 3);
    Beyond(A1, k, i - 1);
    Beyond(A2, k, i - 2);
    Beyond(T, k - 3, i - 3);
    if 3 <= i < k {
      WLow(A3, k - 3, i - 3);
    }
    XorCases(W(A1, i - 1), W(A2, i - 2), W(T, i - 3));
  }

  lemma Beyond(P: Poly, n: nat, j: int)
    requires Fits(P, n)
    ensures j < 0 || n <= j ==> W(P, j) == {}
  {
    if j < 0 {
      WZero(P, j);
    } else {
      WOutside(P, n, j);
    }
  }

  lemma XorCases(u: Word, v: Word, w: Word)
    ensures Xor(Xor(u, v), w) == Xor(Xor(w, v), u)
    ensures w == {} ==> Xor(Xor(u, v), w) == Xor(v, u)
    ensures w == {} && v == {} ==> Xor(Xor(u, v), w) == u
    ensures w == {} && u == {} ==> Xor(Xor(u, v), w) == v
    ensures w == {} && u == {} && v == {} ==> Xor(Xor(u, v), w) == {}
  {
    hide Add;
  }

  /** W = a1 y + a2 y^2 + a3 y^3 over m = rb + 3 words, a3 from word k - 3 on being added last. */
  method ShiftFour(mem: array<Word>, a: nat, w: nat, k: nat, ra: nat, m: nat, ghost A0: Poly, ghost A1: Poly,
                   ghost A2: Poly, ghost A3: Poly)
    requires 4 <= k && k - 3 <= ra && ra + 3 <= m && k + 2 <= m <= k + 3
    requires Parts4(mem[..], a, k, ra, A0, A1, A2, A3) && w + m <= mem.Length && Apart(w, m, a, 3 * k + ra)
    modifies mem
    ensures Held(mem[..], w, m, Quad(A1, A2, A3)) && Only(old(mem[..]), mem[..], w, m)
  {
    hide W, Add, Xor, Fits, Held, Only, Wrote, Parts4, Quad, Low, High, Y, Apart;
    ghost var before := mem[..];
    ghost var T := Low(A3, 64 * (k - 3));
    ghost var Q := Quad(A1, A2, T);
    Parts4Fit(before, a, k, ra, A0, A1, A2, A3);
    HeldNone(before, w, Q);
    OnlySame(before, w, m);
    var j := 0;
    while j < m
      invariant 0 <= j <= m && Held(mem[..], w, j, Q) && Only(before, mem[..], w, m)
    {
      ghost var now := mem[..];
      QuadWords(A1, A2, A3, k, j);
      ReadFour(mem, before, a, k, ra, j, A0, A1, A2, A3, w, m);
      if j == 0 {
        mem[w] := {};
      } else if j == 1 {
        mem[w + 1] := mem[a + k];
      } else if j == 2 {
        mem[w + 2] := Xor(mem[a + 2 * k], mem[a + k + 1]);
      } else if j < k {
        mem[w + j] := Xor(Xor(mem[a + 3 * k + j - 3], mem[a + 2 * k + j - 2]), mem[a + k + j - 1]);
      } else if j == k {
        mem[w + j] := Xor(mem[a + 2 * k + j - 2], mem[a + k + j - 1]);
      } else if j == k + 1 {
        mem[w + j] := mem[a + 2 * k + j - 2];
      } else {
        mem[w + j] := {};
      }
      WroteTwo(now, mem[..], w + j, w + j);
      WroteGrow(now, mem[..], w + j, w + j, w, j, Q);
      WroteOnly(before, now, mem[..], w + j, w + j, w, m);
      j := j + 1;
    }
    ghost var now := mem[..];
    ghost var H := High(A3, 64 * (k - 3));
    TopPart(before, now, a, k, ra, A0, A1, A2, A3, w, m);
    AddShifted(mem, w, m, a + 3 * k + (k - 3), ra - (k - 3), k, Q, H);
    OnlyTrans(before, now, mem[..], w, m);
    QuadTop(A1, A2, A3, k);
  }

  /** The words that word j of W is made of. */
  lemma ReadFour(mem: array<Word>, before: seq<Word>, a: nat, k: nat, ra: nat, j: nat,
                 A0: Poly, A1: Poly, A2: Poly, A3: Poly, w: nat, m: nat)
    requires 4 <= k && k - 3 <= ra && Parts4(before, a, k, ra, A0, A1, A2, A3) && Only(before, mem[..], w, m)
      && Apart(w, m, a, 3 * k + ra)
    ensures a + 3 * k + ra <= mem.Length
    ensures 1 <= j <= k ==> mem[a + k + j - 1] == W(A1, j - 1)
    ensures 2 <= j <= k + 1 ==> mem[a + 2 * k + j - 2] == W(A2, j - 2)
    ensures 3 <= j < k ==> mem[a + 3 * k + j - 3] == W(A3, j - 3)
  {
    hide W, Only, Parts4, Apart;
    Part4Words(mem, before, a, k, ra, 0, A0, A1, A2, A3, w, m);
    if 1 <= j <= k {
      Part4Words(mem, before, a, k, ra, j - 1, A0, A1, A2, A3, w, m);
    }
    if 2 <= j <= k + 1 {
      Part4Words(mem, before, a, k, ra, j - 2, A0, A1, A2, A3, w, m);
    }
    if 3 <= j < k {
      Part4Words(mem, before, a, k, ra, j - 3, A0, A1, A2, A3, w, m);
    }
  }

  lemma TopPart(s: seq<Word>, t: seq<Word>, a: nat, k: nat, ra: nat, A0: Poly, A1: Poly, A2: Poly, A3: Poly, w: nat,
                m: nat)
    requires 3 <= k && k - 3 <= ra && Parts4(s, a, k, ra, A0, A1, A2, A3) && Only(s, t, w, m)
      && Apart(w, m, a, 3 * k + ra)
    ensures Held(t, a + 3 * k + (k - 3), ra - (k - 3), High(A3, 64 * (k - 3)))
      && Fits(High(A3, 64 * (k - 3)), ra - (k - 3))
    ensures Apart(w, m, a + 3 * k + (k - 3), ra - (k - 3))
  {
    hide W, Held, Fits, Low, High, Only, Add;
    HeldKept(s, t, a + 3 * k, ra, A3, w, m);
    SplitHeld(t, a + 3 * k, ra, k - 3, A3);
  }

  lemma QuadTop(A1: Poly, A2: Poly, A3: Poly, k: nat)
    requires 3 <= k
    ensures Add(Quad(A1, A2, Low(A3, 64 * (k - 3))), Y(High(A3, 64 * (k - 3)), k)) == Quad(A1, A2, A3)
  {
    hide Low, High, Add, Y;
    var L, H := Low(A3, 64 * (k - 3)), High(A3, 64 * (k - 3));
    LowHigh(A3, k - 3);
    YAdd(L, Y(H, k - 3), 3);
    YY(H, k - 3, 3);
    AddRight(Add(Y(A1, 1), Y(A2, 2)), Y(L, 3), Y(H, k));
  }

  /** Zero words above the words of P. */
  method Extend(mem: array<Word>, v: nat, k: nat, m: nat, ghost P: Poly)
    requires k <= m && Held(mem[..], v, k, P) && Fits(P, k) && v + m <= mem.Length
    modifies mem
    ensures Held(mem[..], v, m, P) && Only(old(mem[..]), mem[..], v, m)
  {
    hide W, Fits, Held, Only, Wrote;
    ghost var before := mem[..];
    OnlySame(before, v, m);
    var j := k;
    while j < m
      invariant k <= j <= m && Held(mem[..], v, j, P) && Only(before, mem[..], v, m)
    {
      ghost var now := mem[..];
      WBeyond(P, k, j);
      mem[v + j] := {};
      WroteTwo(now, mem[..], v + j, v + j);
      WroteGrow(now, mem[..], v + j, v + j, v, j, P);
      WroteOnly(before, now, mem[..], v + j, v + j, v, m);
      j := j + 1;
    }
  }

  /** V += W + a3 (y + y^2) and W += a0. */
  method ShiftLong(mem: array<Word>, a: nat, w: nat, v: nat, k: nat, ra: nat, m: nat,
                   ghost A0: Poly, ghost A3: Poly, ghost Q: Poly, ghost S: Poly)
    requires k <= m && Held(mem[..], a, k, A0) && Held(mem[..], a + 3 * k, ra, A3) && Fits(A0, k) && Fits(A3, ra)
    requires Held(mem[..], w, m, Q) && Held(mem[..], v, m, S)
    requires Apart(w, m, a, k) && Apart(w, m, a + 3 * k, ra) && Apart(v, m, a, k) && Apart(v, m, a + 3 * k, ra)
      && Apart(w, m, v, m)
    modifies mem
    ensures Held(mem[..], v, m, Add(Add(S, Q), Add(Y(A3, 1), Y(A3, 2)))) && Held(mem[..], w, m, Add(Q, A0))
    ensures Only2(old(mem[..]), mem[..], w, m, v, m)
  {
    hide W, Add, Y, Xor, Fits, Held, Rest, Only2, Wrote;
    ghost var before := mem[..];
    ghost var U, T := Add(Add(S, Q), Add(Y(A3, 1), Y(A3, 2))), Add(Q, A0);
    HeldRest(before, w, m, Q);
    HeldRest(before, v, m, S);
    HeldSize(before, w, m, Q);
    HeldSize(before, v, m, S);
    HeldNone(before, w, T);
    HeldNone(before, v, U);
    Only2Same(before, w, m, v, m);
    var j := 0;
    while j < m
      invariant 0 <= j <= m && Held(mem[..], a, k, A0) && Held(mem[..], a + 3 * k, ra, A3)
      invariant Held(mem[..], w, j, T) && Rest(mem[..], w, m, Q, j)
      invariant Held(mem[..], v, j, U) && Rest(mem[..], v, m, S, j)
      invariant Only2(before, mem[..], w, m, v, m)
    {
      ghost var now := mem[..];
      RestWord(mem, w, m, Q, j);
      RestWord(mem, v, m, S, j);
      var s := LongOperandWord(mem, a + 3 * k, ra, j - 1, A3);
      var t := LongOperandWord(mem, a + 3 * k, ra, j - 2, A3);
      var u, x: Word := mem[w + j], {};
      if j < k {
        HeldWord(mem, a, k, A0, j);
        x := mem[a + j];
      } else {
        WAddBeyond(Q, A0, k, j);
      }
      LongWord(S, Q, A3, j);
      WAdd(Q, A0, j);
      mem[v + j] := Xor(mem[v + j], Xor(s, Xor(t, u)));
      mem[w + j] := if j < k then Xor(u, x) else u;
      WroteTwo(now, mem[..], w + j, v + j);
      WroteKeep(now, mem[..], w + j, v + j, a, k, A0);
      WroteKeep(now, mem[..], w + j, v + j, a + 3 * k, ra, A3);
      WroteGrow(now, mem[..], w + j, v + j, w, j, T);
      WroteGrow(now, mem[..], w + j, v + j, v, j, U);
      WroteRest(now, mem[..], w + j, v + j, w, m, Q, j);
      WroteRest(now, mem[..], w + j, v + j, v, m, S, j);
      WroteOnly2(before, now, mem[..], w + j, v + j, w, m, v, m);
      j := j + 1;
    }
  }

  /** Word j of a3, zero outside. */
  method LongOperandWord(mem: array<Word>, p: nat, ra: nat, j: int, ghost A3: Poly) returns (x: Word)
    requires Held(mem[..], p, ra, A3) && Fits(A3, ra)
    ensures x == W(A3, j)
  {
    hide W, Fits, Held;
    Beyond(A3, ra, j);
    if 0 <= j < ra {
      HeldWord(mem, p, ra, A3, j);
      x := mem[p + j];
    } else {
      x := {};
    }
  }

  lemma LongWord(S: Poly, Q: Poly, A3: Poly, j: nat)
    ensures W(Add(Add(S, Q), Add(Y(A3, 1), Y(A3, 2))), j)
         == Xor(W(S, j), Xor(W(A3, j - 1), Xor(W(A3, j - 2), W(Q, j))))
  {
    hide WordAt, W, Add, Y, Xor;
    WAdd(Add(S, Q), Add(Y(A3, 1), Y(A3, 2)), j);
    WAdd(S, Q, j);
    WAdd(Y(A3, 1), Y(A3, 2), j);
    WY(A3, 1, j);
    WY(A3, 2, j);
    XorRegroupFour(W(S, j), W(Q, j), W(A3, j - 1), W(A3, j - 2));
  }

  lemma XorRegroupFour(s: Word, q: Word, u: Word, v: Word)
    ensures Xor(Xor(s, q), Xor(u, v)) == Xor(s, Xor(u, Xor(v, q)))
  {
    hide Add;
  }

  /** W2 += b1 y and W4 = W2 + b1. */
  method ShiftShort(mem: array<Word>, b1: nat, v: nat, w: nat, rb: nat, m: nat, ghost B1: Poly, ghost S: Poly)
    requires rb < m && Held(mem[..], b1, rb, B1) && Fits(B1, rb) && Held(mem[..], v, m, S) && w + m <= mem.Length
    requires Apart(v, m, b1, rb) && Apart(w, m, b1, rb) && Apart(v, m, w, m)
    modifies mem
    ensures Held(mem[..], v, m, Add(S, Y(B1, 1))) && Held(mem[..], w, m, Add(Add(S, Y(B1, 1)), B1))
    ensures Only2(old(mem[..]), mem[..], v, m, w, m)
  {
    hide W, Add, Y, Xor, Fits, Held, Rest, Only2, Wrote;
    ghost var before := mem[..];
    ghost var U, T := Add(S, Y(B1, 1)), Add(Add(S, Y(B1, 1)), B1);
    HeldRest(before, v, m, S);
    HeldSize(before, v, m, S);
    HeldNone(before, v, U);
    HeldNone(before, w, T);
    Only2Same(before, v, m, w, m);
    WZero(B1, -1);
    var j := 0;
    var t: Word := {};
    while j < m
      invariant 0 <= j <= m && Held(mem[..], b1, rb, B1) && t == W(B1, j - 1)
      invariant Held(mem[..], v, j, U) && Rest(mem[..], v, m, S, j) && Held(mem[..], w, j, T)
      invariant Only2(before, mem[..], v, m, w, m)
    {
      ghost var now := mem[..];
      RestWord(mem, v, m, S, j);
      WAdd(S, Y(B1, 1), j);
      WY(B1, 1, j);
      WAdd(U, B1, j);
      var s := Xor(mem[v + j], t);
      if j < rb {
        HeldWord(mem, b1, rb, B1, j);
        t := mem[b1 + j];
      } else {
        WBeyond(B1, rb, j);
        t := {};
      }
      XorEmptyLeft(s);
      mem[v + j] := s;
      mem[w + j] := Xor(s, t);
      WroteTwo(now, mem[..], v + j, w + j);
      WroteKeep(now, mem[..], v + j, w + j, b1, rb, B1);
      WroteGrow(now, mem[..], v + j, w + j, v, j, U);
      WroteGrow(now, mem[..], v + j, w + j, w, j, T);
      WroteRest(now, mem[..], v + j, w + j, v, m, S, j);
      WroteOnly2(before, now, mem[..], v + j, w + j, v, m, w, m);
      j := j + 1;
    }
  }

  /** a3 copied and padded to rb words. */
  method CopyPadded(mem: array<Word>, a3: nat, v: nat, ra: nat, rb: nat, ghost A3: Poly)
    requires ra <= rb && Held(mem[..], a3, ra, A3) && Fits(A3, ra) && v + rb <= mem.Length && Apart(v, rb, a3, ra)
    modifies mem
    ensures Held(mem[..], v, rb, A3) && Only(old(mem[..]), mem[..], v, rb)
  {
    hide W, Fits, Held, Only, Wrote;
    ghost var before := mem[..];
    HeldNone(before, v, A3);
    OnlySame(before, v, rb);
    var j := 0;
    while j < ra
      invariant 0 <= j <= ra && Held(mem[..], v, j, A3) && Only(before, mem[..], v, rb) && Held(mem[..], a3, ra, A3)
    {
      ghost var now := mem[..];
      HeldWord(mem, a3, ra, A3, j);
      mem[v + j] := mem[a3 + j];
      WroteTwo(now, mem[..], v + j, v + j);
      WroteGrow(now, mem[..], v + j, v + j, v, j, A3);
      WroteKeep(now, mem[..], v + j, v + j, a3, ra, A3);
      WroteOnly(before, now, mem[..], v + j, v + j, v, rb);
      j := j + 1;
    }
    ghost var now := mem[..];
    Extend(mem, v, ra, rb, A3);
    OnlyTrans(before, now, mem[..], v, rb);
  }

  // ---------------------------------------------------------------- the routine

  /** Sizes for operands of sa and n words: parts of k and ra words, k and rb words. */
  predicate SizesU(sa: nat, n: nat, k: nat, ra: nat, rb: nat) {
    33 <= sa && n == (sa + 1) / 2 && k == (n + 1) / 2 && n == k + rb && sa == 3 * k + ra
  }

  lemma SizesUFacts(sa: nat, n: nat, k: nat, ra: nat, rb: nat)
    requires SizesU(sa, n, k, ra, rb)
    ensures 9 <= k && rb <= k <= rb + 1 && ra <= rb && k <= ra + 3 && sa + n == 4 * k + ra + rb
  {
  }

  predicate LayoutU(c: nat, sc: nat, a: nat, sa: nat, b: nat, n: nat, stk: nat, sn: nat) {
    && Apart(c, sc, a, sa) && Apart(c, sc, b, n) && Apart(stk, sn, a, sa) && Apart(stk, sn, b, n)
    && Apart(stk, sn, c, sc)
  }

  /** The two parts of the short operand. */
  ghost predicate Parts2(s: seq<Word>, b: nat, k: nat, rb: nat, B0: Poly, B1: Poly) {
    Held(s, b, k, B0) && Held(s, b + k, rb, B1) && Fits(B0, k) && Fits(B1, rb)
  }

  lemma Parts2Kept(s: seq<Word>, t: seq<Word>, b: nat, k: nat, rb: nat, B0: Poly, B1: Poly, p: nat, n: nat, q: nat,
                   m: nat)
    requires Parts2(s, b, k, rb, B0, B1) && Only2(s, t, p, n, q, m) && Apart(p, n, b, k + rb) && Apart(q, m, b, k + rb)
    ensures Parts2(t, b, k, rb, B0, B1)
  {
    hide W, Fits, Held, Only2;
    HeldKept2(s, t, b, k, B0, p, n, q, m);
    HeldKept2(s, t, b + k, rb, B1, p, n, q, m);
  }

  lemma ULayoutOne(c: nat, a: nat, sa: nat, b: nat, n: nat, k: nat, ra: nat, rb: nat, stk: nat, sp: nat)
    requires SizesU(sa, n, k, ra, rb) && LayoutU(c, sa + n, a, sa, b, n, stk, 8 * (k + 3) + sp)
    ensures var k2 := 2 * (k + 3); var sn := 8 * (k + 3) + sp;
      var (w2, w5, st) := (c + 2 * k, stk + 3 * k2, stk + 4 * k2);
      && Apart(w5, k, a, sa) && Apart(w2, k, b, k) && Apart(w2, k, b + k, rb) && Apart(w2, k, w5, k)
      && Layout(stk, 2 * k, w2, w5, k, st, sp)
      && Apart(stk, 2 * k, w2, k) && Apart(stk, 2 * k, w5, k) && Apart(st, sp, w2, k) && Apart(st, sp, w5, k)
      && Inside(w5, k, c, sa + n, stk, sn) && Inside(w2, k, c, sa + n, stk, sn)
      && Inside(stk, 2 * k, c, sa + n, stk, sn) && Inside(st, sp, c, sa + n, stk, sn)
  {
  }

  /** The values at 1 and their product. */
  method ProductAtOne(t: Tuning, mem: array<Word>, c: nat, a: nat, sa: nat, b: nat, n: nat, k: nat, ra: nat, rb: nat,
                      stk: nat, ghost sp: nat, ghost A0: Poly, ghost A1: Poly, ghost A2: Poly, ghost A3: Poly,
                      ghost B0: Poly, ghost B1: Poly)
    requires t.Valid() && SizesU(sa, n, k, ra, rb) && LayoutU(c, sa + n, a, sa, b, n, stk, 8 * (k + 3) + sp)
      && Space(t, k) <= sp
    requires c + sa + n <= mem.Length && stk + 8 * (k + 3) + sp <= mem.Length
    requires Parts4(mem[..], a, k, ra, A0, A1, A2, A3) && Parts2(mem[..], b, k, rb, B0, B1)
    modifies mem
    ensures var (SA, SB) := (Add(Add(Add(A0, A1), A2), A3), Add(B0, B1));
      && Held(mem[..], stk, 2 * k, Mul(SB, SA)) && Held(mem[..], stk + 6 * (k + 3), k, SA)
      && Held(mem[..], c + 2 * k, k, SB)
      && Fits(SA, k) && Fits(SB, k)
    ensures Only2(old(mem[..]), mem[..], c, sa + n, stk, 8 * (k + 3) + sp)
  {
    hide W, Mul, Fits, Held, Only, Only2, Apart, Inside, Parts4, Space, Add, SizesU;
    ghost var s0, sc, sn := mem[..], sa + n, 8 * (k + 3) + sp;
    SizesUFacts(sa, n, k, ra, rb);
    ULayoutOne(c, a, sa, b, n, k, ra, rb, stk, sp);
    ghost var SA, SB := Add(Add(Add(A0, A1), A2), A3), Add(B0, B1);
    Parts4Fit(s0, a, k, ra, A0, A1, A2, A3);
    SumsFit(A0, A1, A2, A3, B0, B1, k, ra, rb);
    assert sa == 3 * k + ra && n == k + rb by { SizesUEqual(sa, n, k, ra, rb); }
    var w2, w5, st := c + 2 * k, stk + 6 * (k + 3), stk + 8 * (k + 3);
    SumFour(mem, a, w5, k, ra, A0, A1, A2, A3);
    ghost var s1 := mem[..];
    Only2Same(s0, c, sc, stk, sn);
    OnlyThen(s0, s0, s1, c, sc, stk, sn, w5, k);
    Parts2Kept(s0, s1, b, k, rb, B0, B1, c, sc, stk, sn);
    SumTwo(mem, b, w2, k, rb, B0, B1);
    ghost var s2 := mem[..];
    OnlyThen(s0, s1, s2, c, sc, stk, sn, w2, k);
    HeldKept(s1, s2, w5, k, SA, w2, k);
    MulToom(t, mem, stk, w2, w5, k, st, sp, SB, SA);
    Only2Then(s0, s2, mem[..], c, sc, stk, sn, stk, 2 * k, st, sp);
    HeldKept2(s2, mem[..], w2, k, SB, stk, 2 * k, st, sp);
    HeldKept2(s2, mem[..], w5, k, SA, stk, 2 * k, st, sp);
  }

  lemma SizesUEqual(sa: nat, n: nat, k: nat, ra: nat, rb: nat)
    requires SizesU(sa, n, k, ra, rb)
    ensures sa == 3 * k + ra && n == k + rb
  {
  }

  lemma SumsFit(A0: Poly, A1: Poly, A2: Poly, A3: Poly, B0: Poly, B1: Poly, k: nat, ra: nat, rb: nat)
    requires Fits(A0, k) && Fits(A1, k) && Fits(A2, k) && Fits(A3, ra) && Fits(B0, k) && Fits(B1, rb) && ra <= k
      && rb <= k
    ensures Fits(Add(Add(Add(A0, A1), A2), A3), k) && Fits(Add(B0, B1), k)
  {
    hide Fits, Add;
    FitsLess(A3, ra, k);
    FitsLess(B1, rb, k);
    FitsAdd(A0, A1, k);
    FitsAdd(Add(A0, A1), A2, k);
    FitsAdd(Add(Add(A0, A1), A2), A3, k);
    FitsAdd(B0, B1, k);
  }

  lemma ULayoutTwo(c: nat, a: nat, sa: nat, b: nat, n: nat, k: nat, ra: nat, rb: nat, stk: nat, sp: nat)
    requires SizesU(sa, n, k, ra, rb) && LayoutU(c, sa + n, a, sa, b, n, stk, 8 * (k + 3) + sp)
    ensures var k2 := 2 * (k + 3); var sn := 8 * (k + 3) + sp; var m := rb + 3;
      var (w2, w4, w5) := (c + 2 * k, stk + 2 * k2, stk + 3 * k2);
      && Apart(c, m, a, sa) && Apart(c, m, stk, 2 * k) && Apart(c, m, w5, k) && Apart(c, m, w2, k) && Apart(c, m, w2, m)
      && Apart(w5, m, stk, 2 * k) && Apart(w5, m, c, m) && Apart(w5, m, w2, k)
      && Apart(c, m, a, k) && Apart(c, m, a + 3 * k, ra) && Apart(w5, m, a, k) && Apart(w5, m, a + 3 * k, ra)
      && Apart(c, m, w5, m)
      && Apart(w2, m, stk, 2 * k) && Apart(w2, m, c, m) && Apart(w2, m, w5, m)
      && Apart(w2, m, b + k, rb) && Apart(w4, m, b + k, rb) && Apart(w2, m, w4, m)
      && Apart(w4, m, stk, 2 * k) && Apart(w4, m, c, m) && Apart(w4, m, w5, m)
      && Inside(c, m, c, sa + n, stk, sn) && Inside(w5, m, c, sa + n, stk, sn)
      && Inside(w2, m, c, sa + n, stk, sn) && Inside(w4, m, c, sa + n, stk, sn)
  {
  }

  /** The values at 1 + y and y of both operands. */
  method ValuesAtY(mem: array<Word>, c: nat, a: nat, sa: nat, b: nat, n: nat, k: nat, ra: nat, rb: nat,
                   stk: nat, ghost sp: nat, ghost A0: Poly, ghost A1: Poly, ghost A2: Poly, ghost A3: Poly,
                   ghost B0: Poly, ghost B1: Poly, ghost SA: Poly, ghost SB: Poly, ghost P1: Poly)
    requires SizesU(sa, n, k, ra, rb) && LayoutU(c, sa + n, a, sa, b, n, stk, 8 * (k + 3) + sp)
    requires c + sa + n <= mem.Length && stk + 8 * (k + 3) + sp <= mem.Length
    requires Parts4(mem[..], a, k, ra, A0, A1, A2, A3) && Parts2(mem[..], b, k, rb, B0, B1)
    requires Held(mem[..], stk, 2 * k, P1) && Held(mem[..], stk + 6 * (k + 3), k, SA) && Held(mem[..], c + 2 * k, k, SB)
    requires Fits(SA, k) && Fits(SB, k)
    modifies mem
    ensures var m := rb + 3;
      && Held(mem[..], stk, 2 * k, P1) && Held(mem[..], c, m, Add(Quad(A1, A2, A3), A0))
      && Held(mem[..], stk + 6 * (k + 3), m, Add(Add(SA, Quad(A1, A2, A3)), Add(Y(A3, 1), Y(A3, 2))))
      && Held(mem[..], c + 2 * k, m, Add(SB, Y(B1, 1)))
      && Held(mem[..], stk + 4 * (k + 3), m, Add(Add(SB, Y(B1, 1)), B1))
    ensures Only2(old(mem[..]), mem[..], c, sa + n, stk, 8 * (k + 3) + sp)
  {
    hide W, Fits, Held, Only, Only2, Apart, Inside, Parts4, Add, Y, Quad, SizesU;
    ghost var s0, sc, sn := mem[..], sa + n, 8 * (k + 3) + sp;
    SizesUFacts(sa, n, k, ra, rb);
    SizesUEqual(sa, n, k, ra, rb);
    ULayoutTwo(c, a, sa, b, n, k, ra, rb, stk, sp);
    Parts4Fit(s0, a, k, ra, A0, A1, A2, A3);
    var m, w2, w4, w5 := rb + 3, c + 2 * k, stk + 4 * (k + 3), stk + 6 * (k + 3);
    ghost var Q := Quad(A1, A2, A3);
    Only2Same(s0, c, sc, stk, sn);

    ShiftFour(mem, a, c, k, ra, m, A0, A1, A2, A3);
    ghost var s1 := mem[..];
    OnlyThen(s0, s0, s1, c, sc, stk, sn, c, m);
    HeldKept(s0, s1, stk, 2 * k, P1, c, m);
    HeldKept(s0, s1, w5, k, SA, c, m);
    HeldKept(s0, s1, w2, k, SB, c, m);

    Extend(mem, w5, k, m, SA);
    ghost var s2 := mem[..];
    OnlyThen(s0, s1, s2, c, sc, stk, sn, w5, m);
    HeldKept(s1, s2, stk, 2 * k, P1, w5, m);
    HeldKept(s1, s2, c, m, Q, w5, m);
    HeldKept(s1, s2, w2, k, SB, w5, m);
    Parts4Kept(s0, s2, a, k, ra, A0, A1, A2, A3, c, sc, stk, sn);
    Parts4Fit(s2, a, k, ra, A0, A1, A2, A3);

    ShiftLong(mem, a, c, w5, k, ra, m, A0, A3, Q, SA);
    ghost var s3 := mem[..];
    ghost var TA, UA := Add(Q, A0), Add(Add(SA, Q), Add(Y(A3, 1), Y(A3, 2)));
    Only2Then(s0, s2, s3, c, sc, stk, sn, c, m, w5, m);
    HeldKept2(s2, s3, stk, 2 * k, P1, c, m, w5, m);
    HeldKept2(s2, s3, w2, k, SB, c, m, w5, m);

    Extend(mem, w2, k, m, SB);
    ghost var s4 := mem[..];
    OnlyThen(s0, s3, s4, c, sc, stk, sn, w2, m);
    HeldKept(s3, s4, stk, 2 * k, P1, w2, m);
    HeldKept(s3, s4, c, m, TA, w2, m);
    HeldKept(s3, s4, w5, m, UA, w2, m);
    Parts2Kept(s0, s4, b, k, rb, B0, B1, c, sc, stk, sn);

    ShiftShort(mem, b + k, w2, w4, rb, m, B1, SB);
    ghost var s5 := mem[..];
    Only2Then(s0, s4, s5, c, sc, stk, sn, w2, m, w4, m);
    HeldKept2(s4, s5, stk, 2 * k, P1, w2, m, w4, m);
    HeldKept2(s4, s5, c, m, TA, w2, m, w4, m);
    HeldKept2(s4, s5, w5, m, UA, w2, m, w4, m);
  }

  lemma ULayoutThree(c: nat, a: nat, sa: nat, b: nat, n: nat, k: nat, ra: nat, rb: nat, stk: nat, sp: nat)
    requires SizesU(sa, n, k, ra, rb) && LayoutU(c, sa + n, a, sa, b, n, stk, 8 * (k + 3) + sp)
    ensures var k2 := 2 * (k + 3); var m := rb + 3;
      var (w2, w3, w4, w5, st) := (c + 2 * k, stk + k2, stk + 2 * k2, stk + 3 * k2, stk + 4 * k2);
      && Layout(w3, 2 * m, w5, w2, m, st, sp) && Layout(w2, 2 * m, c, w4, m, st, sp)
      && Layout(w4, 2 * rb, w5, b + k, rb, st, sp) && (ra == rb ==> Layout(w4, 2 * rb, a + 3 * k, b + k, rb, st, sp))
      && Layout(c, 2 * k, a, b, k, st, sp) && Apart(w5, rb, a + 3 * k, ra)
  {
  }

  lemma UKeeps(c: nat, a: nat, sa: nat, b: nat, n: nat, k: nat, ra: nat, rb: nat, stk: nat, sp: nat)
    requires SizesU(sa, n, k, ra, rb) && LayoutU(c, sa + n, a, sa, b, n, stk, 8 * (k + 3) + sp)
    ensures var k2 := 2 * (k + 3); var m := rb + 3;
      var (w2, w3, w4, w5, st) := (c + 2 * k, stk + k2, stk + 2 * k2, stk + 3 * k2, stk + 4 * k2);
      && Apart(st, sp, stk, 2 * k) && Apart(st, sp, c, m) && Apart(st, sp, w4, m) && Apart(st, sp, w3, 2 * m)
      && Apart(st, sp, w2, 2 * m) && Apart(st, sp, w4, 2 * rb)
      && Apart(w3, 2 * m, stk, 2 * k) && Apart(w3, 2 * m, c, m) && Apart(w3, 2 * m, w4, m)
      && Apart(w2, 2 * m, stk, 2 * k) && Apart(w2, 2 * m, w3, 2 * m)
      && Apart(w5, rb, stk, 2 * k) && Apart(w5, rb, w3, 2 * m) && Apart(w5, rb, w2, 2 * m)
      && Apart(w4, 2 * rb, stk, 2 * k) && Apart(w4, 2 * rb, w3, 2 * m) && Apart(w4, 2 * rb, w2, 2 * m)
      && Apart(c, 2 * k, stk, 2 * k) && Apart(c, 2 * k, w3, 2 * m) && Apart(c, 2 * k, w2, 2 * m)
      && Apart(c, 2 * k, w4, 2 * rb)
  {
  }

  lemma UInside(c: nat, sa: nat, n: nat, k: nat, ra: nat, rb: nat, stk: nat, sp: nat)
    requires SizesU(sa, n, k, ra, rb)
    ensures var k2 := 2 * (k + 3); var sn := 8 * (k + 3) + sp; var m := rb + 3;
      var (w2, w3, w4, w5, st) := (c + 2 * k, stk + k2, stk + 2 * k2, stk + 3 * k2, stk + 4 * k2);
      && Inside(w3, 2 * m, c, sa + n, stk, sn) && Inside(st, sp, c, sa + n, stk, sn)
      && Inside(w2, 2 * m, c, sa + n, stk, sn)
      && Inside(w5, rb, c, sa + n, stk, sn) && Inside(w4, 2 * rb, c, sa + n, stk, sn)
      && Inside(c, 2 * k, c, sa + n, stk, sn)
      && Inside(stk, 2 * m - 2, c, sa + n, stk, sn) && Inside(w2, 2 * m - 2, c, sa + n, stk, sn)
      && Inside(w3, 2 * m - 2, c, sa + n, stk, sn)
      && Inside(c, sa + n, c, sa + n, stk, sn)
  {
  }

  /** The other four products. */
  method OtherProducts(t: Tuning, mem: array<Word>, c: nat, a: nat, sa: nat, b: nat, n: nat, k: nat, ra: nat, rb: nat,
                       stk: nat, ghost sp: nat, ghost A0: Poly, ghost A1: Poly, ghost A2: Poly, ghost A3: Poly,
                       ghost B0: Poly, ghost B1: Poly,
                       ghost TA: Poly, ghost UA: Poly, ghost TB: Poly, ghost UB: Poly, ghost P1: Poly)
    requires t.Valid() && SizesU(sa, n, k, ra, rb) && LayoutU(c, sa + n, a, sa, b, n, stk, 8 * (k + 3) + sp)
    requires Space(t, k) <= sp && Space(t, rb + 3) <= sp && Space(t, rb) <= sp
    requires c + sa + n <= mem.Length && stk + 8 * (k + 3) + sp <= mem.Length
    requires Parts4(mem[..], a, k, ra, A0, A1, A2, A3) && Parts2(mem[..], b, k, rb, B0, B1)
    requires var m := rb + 3;
      && Held(mem[..], stk, 2 * k, P1) && Held(mem[..], c, m, TA) && Held(mem[..], stk + 6 * (k + 3), m, UA)
      && Held(mem[..], c + 2 * k, m, UB) && Held(mem[..], stk + 4 * (k + 3), m, TB)
      && Fits(TA, m) && Fits(UA, m) && Fits(TB, m) && Fits(UB, m)
    modifies mem
    ensures var m := rb + 3;
      && Held(mem[..], stk, 2 * k, P1) && Held(mem[..], stk + 2 * (k + 3), 2 * m, Mul(UA, UB))
      && Held(mem[..], c + 2 * k, 2 * m, Mul(TA, TB)) && Held(mem[..], stk + 4 * (k + 3), 2 * rb, Mul(A3, B1))
      && Held(mem[..], c, 2 * k, Mul(A0, B0))
    ensures Only2(old(mem[..]), mem[..], c, sa + n, stk, 8 * (k + 3) + sp)
  {
    hide W, Mul, Fits, Held, Only, Only2, Apart, Inside, Parts4, Space, SizesU;
    ghost var s0, sc, sn := mem[..], sa + n, 8 * (k + 3) + sp;
    SizesUFacts(sa, n, k, ra, rb);
    SizesUEqual(sa, n, k, ra, rb);
    ULayoutThree(c, a, sa, b, n, k, ra, rb, stk, sp);
    UKeeps(c, a, sa, b, n, k, ra, rb, stk, sp);
    UInside(c, sa, n, k, ra, rb, stk, sp);
    var m, w2, w3, w4, w5, st := rb + 3, c + 2 * k, stk + 2 * (k + 3), stk + 4 * (k + 3), stk + 6 * (k + 3),
      stk + 8 * (k + 3);
    Only2Same(s0, c, sc, stk, sn);

    MulToom(t, mem, w3, w5, w2, m, st, sp, UA, UB);
    ghost var s1 := mem[..];
    Only2Then(s0, s0, s1, c, sc, stk, sn, w3, 2 * m, st, sp);
    HeldKept2(s0, s1, stk, 2 * k, P1, w3, 2 * m, st, sp);
    HeldKept2(s0, s1, c, m, TA, w3, 2 * m, st, sp);
    HeldKept2(s0, s1, w4, m, TB, w3, 2 * m, st, sp);

    MulToom(t, mem, w2, c, w4, m, st, sp, TA, TB);
    ghost var s2 := mem[..];
    Only2Then(s0, s1, s2, c, sc, stk, sn, w2, 2 * m, st, sp);
    HeldKept2(s1, s2, stk, 2 * k, P1, w2, 2 * m, st, sp);
    HeldKept2(s1, s2, w3, 2 * m, Mul(UA, UB), w2, 2 * m, st, sp);
    Parts4Kept(s0, s2, a, k, ra, A0, A1, A2, A3, c, sc, stk, sn);
    Parts2Kept(s0, s2, b, k, rb, B0, B1, c, sc, stk, sn);

    ProductAtInfinity(t, mem, c, a, sa, b, n, k, ra, rb, stk, sp, A0, A1, A2, A3, B0, B1, Mul(UA, UB), Mul(TA, TB), P1);
    ghost var s3 := mem[..];
    OnlyThen2(s0, s2, s3, c, sc, stk, sn);
    Parts4Kept(s0, s3, a, k, ra, A0, A1, A2, A3, c, sc, stk, sn);
    Parts4Fit(s3, a, k, ra, A0, A1, A2, A3);
    Parts2Kept(s0, s3, b, k, rb, B0, B1, c, sc, stk, sn);

    MulToom(t, mem, c, a, b, k, st, sp, A0, B0);
    ghost var s4 := mem[..];
    Only2Then(s0, s3, s4, c, sc, stk, sn, c, 2 * k, st, sp);
    HeldKept2(s3, s4, stk, 2 * k, P1, c, 2 * k, st, sp);
    HeldKept2(s3, s4, w3, 2 * m, Mul(UA, UB), c, 2 * k, st, sp);
    HeldKept2(s3, s4, w2, 2 * m, Mul(TA, TB), c, 2 * k, st, sp);
    HeldKept2(s3, s4, w4, 2 * rb, Mul(A3, B1), c, 2 * k, st, sp);
  }

  /** W4 = a3 * b1; a3 is copied and padded when it is shorter than b1. */
  method ProductAtInfinity(t: Tuning, mem: array<Word>, c: nat, a: nat, sa: nat, b: nat, n: nat, k: nat, ra: nat,
                           rb: nat,
                           stk: nat, ghost sp: nat, ghost A0: Poly, ghost A1: Poly, ghost A2: Poly, ghost A3: Poly,
                           ghost B0: Poly, ghost B1: Poly, ghost P3: Poly, ghost P2: Poly, ghost P1: Poly)
    requires t.Valid() && SizesU(sa, n, k, ra, rb) && LayoutU(c, sa + n, a, sa, b, n, stk, 8 * (k + 3) + sp)
      && Space(t, rb) <= sp
    requires c + sa + n <= mem.Length && stk + 8 * (k + 3) + sp <= mem.Length
    requires Parts4(mem[..], a, k, ra, A0, A1, A2, A3) && Parts2(mem[..], b, k, rb, B0, B1)
    requires Held(mem[..], stk, 2 * k, P1) && Held(mem[..], stk + 2 * (k + 3), 2 * rb + 6, P3)
      && Held(mem[..], c + 2 * k, 2 * rb + 6, P2)
    modifies mem
    ensures Held(mem[..], stk, 2 * k, P1) && Held(mem[..], stk + 2 * (k + 3), 2 * rb + 6, P3)
      && Held(mem[..], c + 2 * k, 2 * rb + 6, P2)
    ensures Held(mem[..], stk + 4 * (k + 3), 2 * rb, Mul(A3, B1))
    ensures Only2(old(mem[..]), mem[..], c, sa + n, stk, 8 * (k + 3) + sp)
  {
    hide W, Mul, Fits, Held, Only, Only2, Apart, Inside, Parts4, Space, SizesU;
    ghost var s0, sc, sn := mem[..], sa + n, 8 * (k + 3) + sp;
    SizesUFacts(sa, n, k, ra, rb);
    SizesUEqual(sa, n, k, ra, rb);
    ULayoutThree(c, a, sa, b, n, k, ra, rb, stk, sp);
    UKeeps(c, a, sa, b, n, k, ra, rb, stk, sp);
    UInside(c, sa, n, k, ra, rb, stk, sp);
    Parts4Fit(s0, a, k, ra, A0, A1, A2, A3);
    FitsLess(A3, ra, rb);
    var w2, w3, w4, w5, st := c + 2 * k, stk + 2 * (k + 3), stk + 4 * (k + 3), stk + 6 * (k + 3), stk + 8 * (k + 3);
    Only2Same(s0, c, sc, stk, sn);
    var a3 := a + 3 * k;
    ghost var s1 := s0;
    if ra < rb {
      CopyPadded(mem, a3, w5, ra, rb, A3);
      s1 := mem[..];
      OnlyThen(s0, s0, s1, c, sc, stk, sn, w5, rb);
      HeldKept(s0, s1, stk, 2 * k, P1, w5, rb);
      HeldKept(s0, s1, w3, 2 * rb + 6, P3, w5, rb);
      HeldKept(s0, s1, w2, 2 * rb + 6, P2, w5, rb);
      Parts2Kept(s0, s1, b, k, rb, B0, B1, c, sc, stk, sn);
      a3 := w5;
    }
    MulToom(t, mem, w4, a3, b + k, rb, st, sp, A3, B1);
    ghost var s2 := mem[..];
    Only2Then(s0, s1, s2, c, sc, stk, sn, w4, 2 * rb, st, sp);
    HeldKept2(s1, s2, stk, 2 * k, P1, w4, 2 * rb, st, sp);
    HeldKept2(s1, s2, w3, 2 * rb + 6, P3, w4, 2 * rb, st, sp);
    HeldKept2(s1, s2, w2, 2 * rb + 6, P2, w4, 2 * rb, st, sp);
  }

  lemma UValuesFit(A0: Poly, A1: Poly, A2: Poly, A3: Poly, SA: Poly, B1: Poly, SB: Poly, k: nat, ra: nat, rb: nat)
    requires Fits(A0, k) && Fits(A1, k) && Fits(A2, k) && Fits(A3, ra) && Fits(SA, k) && Fits(B1, rb) && Fits(SB, k)
    requires ra <= rb <= k <= rb + 1
    ensures var (m, Q, UB) := (rb + 3, Quad(A1, A2, A3), Add(SB, Y(B1, 1)));
      && Fits(Add(Q, A0), m) && Fits(Add(Add(SA, Q), Add(Y(A3, 1), Y(A3, 2))), m)
      && Fits(UB, rb + 1) && Fits(Add(UB, B1), rb + 1) && Fits(UB, m) && Fits(Add(UB, B1), m)
  {
    hide Fits, Add, Y;
    var m := rb + 3;
    FitsY(A1, k, 1);
    FitsY(A2, k, 2);
    FitsY(A3, ra, 1);
    FitsY(A3, ra, 2);
    FitsY(A3, ra, 3);
    FitsLess(Y(A1, 1), k + 1, m);
    FitsLess(Y(A2, 2), k + 2, m);
    FitsLess(Y(A3, 1), ra + 1, m);
    FitsLess(Y(A3, 2), ra + 2, m);
    FitsLess(Y(A3, 3), ra + 3, m);
    FitsLess(A0, k, m);
    FitsLess(SA, k, m);
    FitsAdd(Y(A1, 1), Y(A2, 2), m);
    FitsAdd(Add(Y(A1, 1), Y(A2, 2)), Y(A3, 3), m);
    var Q := Quad(A1, A2, A3);
    FitsAdd(Q, A0, m);
    FitsAdd(SA, Q, m);
    FitsAdd(Y(A3, 1), Y(A3, 2), m);
    FitsAdd(Add(SA, Q), Add(Y(A3, 1), Y(A3, 2)), m);
    FitsY(B1, rb, 1);
    FitsLess(SB, k, rb + 1);
    FitsAdd(SB, Y(B1, 1), rb + 1);
    FitsLess(B1, rb, rb + 1);
    FitsAdd(Add(SB, Y(B1, 1)), B1, rb + 1);
    FitsLess(Add(SB, Y(B1, 1)), rb + 1, m);
    FitsLess(Add(Add(SB, Y(B1, 1)), B1), rb + 1, m);
  }

  lemma ULayoutLast(c: nat, a: nat, sa: nat, b: nat, n: nat, k: nat, ra: nat, rb: nat, stk: nat, sp: nat)
    requires SizesU(sa, n, k, ra, rb) && LayoutU(c, sa + n, a, sa, b, n, stk, 8 * (k + 3) + sp)
    ensures var (w2, w3, w4) := (c + 2 * k, stk + 2 * (k + 3), stk + 4 * (k + 3));
      && Disjoint(c, stk, w2, w3, w4, 2 * k, 2 * rb, 2 * rb + 4)
      && Apart(c, sa + n, stk, 2 * rb + 3) && Apart(c, sa + n, w3, 2 * rb + 2) && Apart(c, sa + n, w4, ra + rb)
  {
  }

  lemma USpaceCovers(t: Tuning, sa: nat, n: nat, k: nat, ra: nat, rb: nat, space: nat)
    requires t.Valid() && t.toomu <= sa && SizesU(sa, n, k, ra, rb) && USpace(t, sa) <= space
    ensures 8 * (k + 3) <= space && Space(t, k) <= space - 8 * (k + 3)
    ensures Space(t, rb + 3) <= space - 8 * (k + 3) && Space(t, rb) <= space - 8 * (k + 3)
  {
    hide Space;
    assert rb + 3 <= sa / 4 + 4 && k <= sa / 4 + 4 && 8 * (k + 3) <= 2 * sa + 32;
    SpaceMonotone(t, k, sa / 4 + 4);
    SpaceMonotone(t, rb + 3, sa / 4 + 4);
    SpaceMonotone(t, rb, sa / 4 + 4);
  }

  /** {c, sa + n} <- {a, sa} * {b, n} for n = (sa + 1) / 2, with scratch space {stk, space}. */
  method MulTc3u(t: Tuning, mem: array<Word>, c: nat, a: nat, sa: nat, b: nat, stk: nat, ghost space: nat,
                 ghost A: Poly, ghost B: Poly)
    requires t.Valid() && t.toomu <= sa && USpace(t, sa) <= space
    requires c + sa + (sa + 1) / 2 <= mem.Length && stk + space <= mem.Length
    requires Held(mem[..], a, sa, A) && Fits(A, sa) && Held(mem[..], b, (sa + 1) / 2, B) && Fits(B, (sa + 1) / 2)
    requires LayoutU(c, sa + (sa + 1) / 2, a, sa, b, (sa + 1) / 2, stk, space)
    modifies mem
    ensures Held(mem[..], c, sa + (sa + 1) / 2, Mul(A, B))
    ensures Only2(old(mem[..]), mem[..], c, sa + (sa + 1) / 2, stk, space)
  {
    hide W, Mul, Fits, Held, Only, Only2, Apart, Inside, Parts4, Space, USpace, Add, Y, Quad, Eval;
    var n := (sa + 1) / 2;
    var k := (n + 1) / 2;
    var rb := n - k;
    var ra := sa - 3 * k;
    SizesUFacts(sa, n, k, ra, rb);
    USpaceCovers(t, sa, n, k, ra, rb, space);
    ghost var s0, sp := mem[..], space - 8 * (k + 3);
    ghost var A0, A1, A2, A3 := CutFour(s0, a, k, ra, A);
    ghost var B0, B1 := Low(B, 64 * k), High(B, 64 * k);
    SplitHeld(s0, b, n, k, B);
    Parts4Fit(s0, a, k, ra, A0, A1, A2, A3);
    ghost var c0, c1, c2, c3, c4 := FourByTwoProduct(A0, A1, A2, A3, B0, B1, 64, k, ra, rb);
    QuadIs(A1, A2, A3, B1);
    MulU(t, mem, c, a, sa, b, n, k, ra, rb, stk, sp, A0, A1, A2, A3, B0, B1, c0, c1, c2, c3, c4);
  }

  lemma QuadIs(A1: Poly, A2: Poly, A3: Poly, B1: Poly)
    ensures Quad(A1, A2, A3) == Add(Add(Shift(A1, 64), Shift(A2, 2 * 64)), Shift(A3, 3 * 64))
    ensures Y(A3, 1) == Shift(A3, 64) && Y(A3, 2) == Shift(A3, 2 * 64) && Y(B1, 1) == Shift(B1, 64)
  {
    hide Add, Shift;
  }

  /** Evaluation, products, interpolation and recomposition. */
  method MulU(t: Tuning, mem: array<Word>, c: nat, a: nat, sa: nat, b: nat, n: nat, k: nat, ra: nat, rb: nat,
              stk: nat, ghost sp: nat, ghost A0: Poly, ghost A1: Poly, ghost A2: Poly, ghost A3: Poly, ghost B0: Poly,
              ghost B1: Poly, ghost c0: Poly, ghost c1: Poly, ghost c2: Poly, ghost c3: Poly, ghost c4: Poly)
    requires t.Valid() && SizesU(sa, n, k, ra, rb) && LayoutU(c, sa + n, a, sa, b, n, stk, 8 * (k + 3) + sp)
    requires Space(t, k) <= sp && Space(t, rb + 3) <= sp && Space(t, rb) <= sp
    requires c + sa + n <= mem.Length && stk + 8 * (k + 3) + sp <= mem.Length
    requires Parts4(mem[..], a, k, ra, A0, A1, A2, A3) && Parts2(mem[..], b, k, rb, B0, B1)
    requires c0 == Mul(A0, B0) && c4 == Mul(A3, B1)
    requires Fits(c0, 2 * k) && Fits(c1, 2 * k) && Fits(c2, 2 * k) && Fits(c3, 2 * k) && Fits(c4, ra + rb)
    requires var C := [c0, c1, c2, c3, c4];
      var (SA, SB, Q) := (Add(Add(Add(A0, A1), A2), A3), Add(B0, B1), Quad(A1, A2, A3));
      var UA := Add(Add(SA, Q), Add(Y(A3, 1), Y(A3, 2)));
      && Eval(C, ONE) == Mul(SB, SA)
      && Eval(C, {64}) == Mul(Add(Q, A0), Add(Add(SB, Y(B1, 1)), B1))
      && Eval(C, {0, 64}) == Mul(UA, Add(SB, Y(B1, 1)))
    modifies mem
    ensures Held(mem[..], c, sa + n, Add(Add(Add(Add(c0, Y(c2, 2 * k)), Y(c4, 4 * k)), Y(c1, k)), Y(c3, 3 * k)))
    ensures Only2(old(mem[..]), mem[..], c, sa + n, stk, 8 * (k + 3) + sp)
  {
    hide W, Mul, Fits, Held, Only, Only2, Apart, Inside, Parts4, Space, Add, Y, Quad, Eval, SizesU, Disjoint;
    ghost var s0, sc, sn := mem[..], sa + n, 8 * (k + 3) + sp;
    ghost var SA, SB, Q := Add(Add(Add(A0, A1), A2), A3), Add(B0, B1), Quad(A1, A2, A3);
    ghost var UA, UB := Add(Add(SA, Q), Add(Y(A3, 1), Y(A3, 2))), Add(SB, Y(B1, 1));
    SizesUFacts(sa, n, k, ra, rb);
    SizesUEqual(sa, n, k, ra, rb);
    Parts4Fit(s0, a, k, ra, A0, A1, A2, A3);
    ProductAtOne(t, mem, c, a, sa, b, n, k, ra, rb, stk, sp, A0, A1, A2, A3, B0, B1);
    ghost var s1 := mem[..];
    Parts4Kept(s0, s1, a, k, ra, A0, A1, A2, A3, c, sc, stk, sn);
    Parts2Kept(s0, s1, b, k, rb, B0, B1, c, sc, stk, sn);
    ValuesAtY(mem, c, a, sa, b, n, k, ra, rb, stk, sp, A0, A1, A2, A3, B0, B1, SA, SB, Mul(SB, SA));
    ghost var s2 := mem[..];
    OnlyThen2(s0, s1, s2, c, sc, stk, sn);
    Parts4Kept(s0, s2, a, k, ra, A0, A1, A2, A3, c, sc, stk, sn);
    Parts2Kept(s0, s2, b, k, rb, B0, B1, c, sc, stk, sn);
    UValuesFit(A0, A1, A2, A3, SA, B1, SB, k, ra, rb);
    OtherProducts(t, mem, c, a, sa, b, n, k, ra, rb, stk, sp, A0, A1, A2, A3, B0, B1,
      Add(Q, A0), UA, Add(UB, B1), UB, Mul(SB, SA));
    ghost var s3 := mem[..];
    OnlyThen2(s0, s2, s3, c, sc, stk, sn);
    FitsMul(SB, SA, k, k);
    FitsMul(Add(Q, A0), Add(UB, B1), rb + 3, rb + 1);
    FinishU(mem, c, a, sa, b, n, k, ra, rb, stk, sp, c0, c1, c2, c3, c4);
    OnlyThen2(s0, s3, mem[..], c, sc, stk, sn);
  }

  /** Interpolation and recomposition. */
  method FinishU(mem: array<Word>, c: nat, ghost a: nat, sa: nat, ghost b: nat, n: nat, k: nat, ra: nat, rb: nat,
                 stk: nat, ghost sp: nat,
                 ghost c0: Poly, ghost c1: Poly, ghost c2: Poly, ghost c3: Poly, ghost c4: Poly)
    requires SizesU(sa, n, k, ra, rb) && LayoutU(c, sa + n, a, sa, b, n, stk, 8 * (k + 3) + sp)
    requires c + sa + n <= mem.Length && stk + 8 * (k + 3) + sp <= mem.Length
    requires Fits(c0, 2 * k) && Fits(c1, 2 * k) && Fits(c2, 2 * k) && Fits(c3, 2 * k) && Fits(c4, ra + rb)
    requires var C := [c0, c1, c2, c3, c4];
      && Held(mem[..], stk, 2 * k, Eval(C, ONE)) && Fits(Eval(C, ONE), 2 * k)
      && Held(mem[..], c + 2 * k, 2 * (rb + 3), Eval(C, {64})) && Fits(Eval(C, {64}), 2 * rb + 4)
      && Held(mem[..], stk + 2 * (k + 3), 2 * (rb + 3), Eval(C, {0, 64}))
      && Held(mem[..], c, 2 * k, c0) && Held(mem[..], stk + 4 * (k + 3), 2 * rb, c4)
    modifies mem
    ensures Held(mem[..], c, sa + n, Add(Add(Add(Add(c0, Y(c2, 2 * k)), Y(c4, 4 * k)), Y(c1, k)), Y(c3, 3 * k)))
    ensures Only2(old(mem[..]), mem[..], c, sa + n, stk, 8 * (k + 3) + sp)
  {
    hide W, Fits, Held, Only, Only2, Apart, Inside, Add, Y, Eval, SizesU, Disjoint;
    ghost var s0, sc, sn := mem[..], sa + n, 8 * (k + 3) + sp;
    ghost var C := [c0, c1, c2, c3, c4];
    SizesUFacts(sa, n, k, ra, rb);
    ULayoutLast(c, a, sa, b, n, k, ra, rb, stk, sp);
    UInside(c, sa, n, k, ra, rb, stk, sp);
    var w2, w3, w4 := c + 2 * k, stk + 2 * (k + 3), stk + 4 * (k + 3);
    HeldPrefix(s0, w2, 2 * (rb + 3), Eval(C, {64}), 2 * rb + 4);
    HeldPrefix(s0, w3, 2 * (rb + 3), Eval(C, {0, 64}), 2 * rb + 4);
    FitsLess(c4, ra + rb, 2 * rb);
    Interpolate(mem, c, stk, w2, w3, w4, 2 * k, 2 * rb, 2 * rb + 4, 2 * rb + 3, c0, c1, c2, c3, c4, c, sc, stk, sn);
    ghost var s1 := mem[..];
    HeldPrefix(s1, w4, 2 * rb, c4, ra + rb);
    FitsLess(c1, 2 * k, 2 * rb + 3);
    FitsLess(c2, 2 * k, 2 * rb + 3);
    FitsLess(c3, 2 * k, 2 * rb + 2);
    Recompose(mem, c, k, ra + rb, 2 * rb + 3, 2 * rb + 2, stk, w3, w4, c0, c1, c2, c3, c4);
    OnlyThen(s0, s1, mem[..], c, sc, stk, sn, c, sc);
  }
}
