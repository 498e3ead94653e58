/** The loops of the word-aligned Toom-Cook routines gf2x_mul_tc3w and gf2x_mul_tc3u
    of gf2x-1.1/toom2.c.  With y = x^64 the product is evaluated at 0, 1, y, 1 + y and
    infinity and interpolated in place, the values W0 and W2 lying in the result and
    the others in the scratch space. */
module ToomLoops {
  import opened Polynomials
  import opened Words
  import opened WordMemory
  import opened BaseCase
  import opened ToomAlgebra
  import opened Karatsuba
  import opened OperandParts

  // ---------------------------------------------------------------- evaluation loops

  /** All but the last word of A2, which the loop adds last. */
  function Init(A2: Poly, r: nat): Poly
    requires 0 < r
  {
    Low(A2, 64 * (r - 1))
  }

  lemma InitWord(A2: Poly, r: nat, j: int)
    requires 0 < r && Fits(A2, r)
    ensures W(Init(A2, r), j) == if j < r - 1 then W(A2, j) else {}
  {
    hide W, Low, Fits;
    if j < 0 {
      WZero(Init(A2, r), j);
      WZero(A2, j);
    } else if j < r - 1 {
      WLow(A2, r - 1, j);
    } else {
      LowFits(A2, r - 1);
      WBeyond(Low(A2, 64 * (r - 1)), r - 1, j);
    }
  }

  /** W = a1 y + a2 y^2 and V = a0 + a1 + a2 for one operand. */
  method EvaluateOperand(mem: array<Word>, a: nat, w: nat, v: nat, k: nat, r: nat, ghost A0: Poly, ghost A1: Poly,
                         ghost A2: Poly)
    requires 0 < r <= k && Parts(mem[..], a, k, r, A0, A1, A2) && w + k + 2 <= mem.Length && v + k <= mem.Length
    requires Apart(w, k + 2, a, 2 * k + r) && Apart(v, k, a, 2 * k + r) && Apart(w, k + 2, v, k)
    modifies mem
    ensures Held(mem[..], w, k + 2, Add(Y(A1, 1), Y(A2, 2))) && Held(mem[..], v, k, Add(Add(A0, A1), A2))
    ensures Only2(old(mem[..]), mem[..], w, k + 2, v, k)
  {
    hide W, Add, Y, Xor, Fits, Held, Only2, Wrote, Parts, Init;
    ghost var before := mem[..];
    ghost var Q, S := Add(Y(A1, 1), Y(Init(A2, r), 2)), Add(Add(A0, A1), A2);
    Only2Same(before, w, k + 2, v, k);
    FitsOf(before, a, k, r, A0, A1, A2);
    ZeroWord(A1, Init(A2, r));
    mem[w] := {};
    WroteTwo(before, mem[..], w, w);
    WroteOnly2(before, before, mem[..], w, w, w, k + 2, v, k);
    HeldNone(before, w, Q);
    WroteGrow(before, mem[..], w, w, w, 0, Q);
    HeldNone(mem[..], v, S);
    WZero(A2, -1);
    var j := 0;
    var u: Word := {};
    while j < k
      invariant 0 <= j <= k && u == (if j <= r then W(A2, j - 1) else u)
      invariant Held(mem[..], w, j + 1, Q) && Held(mem[..], v, j, S)
      invariant Only2(before, mem[..], w, k + 2, v, k)
    {
      ghost var now := mem[..];
      PartWords(mem, before, a, k, r, j, A0, A1, A2, w, k + 2, v, k);
      EvaluatedWord(A0, A1, A2, r, j);
      if j < r {
        mem[w + j + 1] := Xor(mem[a + k + j], u);
        u := mem[a + 2 * k + j];
        mem[v + j] := Xor(Xor(mem[a + j], mem[a + k + j]), u);
      } else {
        mem[w + j + 1] := mem[a + k + j];
        mem[v + j] := Xor(mem[a + j], mem[a + k + j]);
      }
      WroteValues(before, now, mem[..], w, v, k, j, Q, S);
      j := j + 1;
    }
    FinishOperand(mem, before, a, w, v, k, r, A0, A1, A2);
  }

  lemma WroteValues(before: seq<Word>, now: seq<Word>, after: seq<Word>, w: nat, v: nat, k: nat, j: nat, Q: Poly,
                    S: Poly)
    requires j < k && w + k + 2 <= |now| && v + k <= |now| && Apart(w, k + 2, v, k)
    requires |now| == |after| && forall i :: 0 <= i < |now| && i != w + j + 1 && i != v + j ==> after[i] == now[i]
    requires after[w + j + 1] == W(Q, j + 1) && after[v + j] == W(S, j)
    requires Held(now, w, j + 1, Q) && Held(now, v, j, S) && Only2(before, now, w, k + 2, v, k)
    ensures Held(after, w, j + 2, Q) && Held(after, v, j + 1, S) && Only2(before, after, w, k + 2, v, k)
  {
    hide W, Held, Only2, Wrote;
    WroteTwo(now, after, w + j + 1, v + j);
    WroteGrow(now, after, w + j + 1, v + j, w, j + 1, Q);
    WroteGrow(now, after, w + j + 1, v + j, v, j, S);
    WroteOnly2(before, now, after, w + j + 1, v + j, w, k + 2, v, k);
  }

  lemma ZeroWord(A1: Poly, I: Poly)
    ensures W(Add(Y(A1, 1), Y(I, 2)), 0) == {}
  {
    hide WordAt, W, Add, Y;
    WAdd(Y(A1, 1), Y(I, 2), 0);
    WY(A1, 1, 0);
    WY(I, 2, 0);
    WZero(A1, -1);
    WZero(I, -2);
    XorEmptyLeft({});
  }

  lemma EvaluatedWord(A0: Poly, A1: Poly, A2: Poly, r: nat, j: nat)
    requires 0 < r && Fits(A2, r)
    ensures W(Add(Y(A1, 1), Y(Init(A2, r), 2)), j + 1) == if j < r then Xor(W(A1, j), W(A2, j - 1)) else W(A1, j)
    ensures W(Add(Add(A0, A1), A2), j)
         == if j < r then Xor(Xor(W(A0, j), W(A1, j)), W(A2, j)) else Xor(W(A0, j), W(A1, j))
  {
    hide WordAt, W, Add, Y, Init, Fits, Xor;
    var I := Init(A2, r);
    WAdd(Y(A1, 1), Y(I, 2), j + 1);
    WY(A1, 1, j + 1);
    WY(I, 2, j + 1);
    InitWord(A2, r, j - 1);
    XorEmptyLeft(W(A1, j));
    WAdd(Add(A0, A1), A2, j);
    WAdd(A0, A1, j);
    WOutside(A2, r, j);
    XorEmptyLeft(Xor(W(A0, j), W(A1, j)));
  }

  /** The last word of W and the word that the loop left without its share of a2. */
  method FinishOperand(mem: array<Word>, ghost before: seq<Word>, a: nat, w: nat, v: nat, k: nat, r: nat,
                       ghost A0: Poly, ghost A1: Poly, ghost A2: Poly)
    requires 0 < r <= k && w + k + 2 <= mem.Length && Parts(before, a, k, r, A0, A1, A2)
    requires Held(mem[..], w, k + 1, Add(Y(A1, 1), Y(Init(A2, r), 2))) && Held(mem[..], v, k, Add(Add(A0, A1), A2))
    requires Only2(before, mem[..], w, k + 2, v, k)
    requires Apart(w, k + 2, a, 2 * k + r) && Apart(v, k, a, 2 * k + r) && Apart(w, k + 2, v, k)
    modifies mem
    ensures Held(mem[..], w, k + 2, Add(Y(A1, 1), Y(A2, 2))) && Held(mem[..], v, k, Add(Add(A0, A1), A2))
    ensures Only2(before, mem[..], w, k + 2, v, k)
  {
    hide W, Add, Y, Xor, Fits, Held, Only2, Wrote, Parts, Init;
    ghost var Q, S := Add(Y(A1, 1), Y(Init(A2, r), 2)), Add(Add(A0, A1), A2);
    FitsOf(before, a, k, r, A0, A1, A2);
    ghost var now := mem[..];
    PartWords(mem, before, a, k, r, r - 1, A0, A1, A2, w, k + 2, v, k);
    var top := mem[a + 2 * k + r - 1];
    mem[w + k + 1] := {};
    EvaluatedWord(A0, A1, A2, r, k);
    WBeyond(A1, k, k);
    WroteTwo(now, mem[..], w + k + 1, w + k + 1);
    WroteGrow(now, mem[..], w + k + 1, w + k + 1, w, k + 1, Q);
    WroteKeep(now, mem[..], w + k + 1, w + k + 1, v, k, S);
    WroteOnly2(before, now, mem[..], w + k + 1, w + k + 1, w, k + 2, v, k);
    now := mem[..];
    HeldSize(now, w, k + 2, Q);
    mem[w + r + 1] := Xor(mem[w + r + 1], top);
    WroteTwo(now, mem[..], w + r + 1, w + r + 1);
    WroteKeep(now, mem[..], w + r + 1, w + r + 1, v, k, S);
    WroteOnly2(before, now, mem[..], w + r + 1, w + r + 1, w, k + 2, v, k);
    TopAdded(now, mem[..], w, k, r, A1, A2);
  }

  lemma TopAdded(s: seq<Word>, t: seq<Word>, w: nat, k: nat, r: nat, A1: Poly, A2: Poly)
    requires 0 < r <= k && Fits(A2, r) && Held(s, w, k + 2, Add(Y(A1, 1), Y(Init(A2, r), 2)))
    requires Wrote(s, t, w + r + 1, w + r + 1) && t[w + r + 1] == Xor(s[w + r + 1], W(A2, r - 1))
    ensures Held(t, w, k + 2, Add(Y(A1, 1), Y(A2, 2)))
  {
    hide WordAt, W, Add, Y, Init, Fits, Xor;
    var I := Init(A2, r);
    forall i | w <= i < w + k + 2
      ensures t[i] == W(Add(Y(A1, 1), Y(A2, 2)), i - w)
    {
      var j := i - w;
      WAdd(Y(A1, 1), Y(I, 2), j);
      WAdd(Y(A1, 1), Y(A2, 2), j);
      WY(I, 2, j);
      WY(A2, 2, j);
      InitWord(A2, r, j - 2);
      if j > r + 1 {
        WBeyond(A2, r, j - 2);
      } else if j == r + 1 {
        XorEmptyLeft(W(Y(A1, 1), j));
      }
    }
  }

  /** V += W and W += a0 for one operand, over m words: the values at 1 + y and at y. */
  method ShiftOperand(mem: array<Word>, a: nat, w: nat, v: nat, k: nat, m: nat, ghost A0: Poly, ghost Q: Poly,
                      ghost S: Poly)
    requires k <= m && Held(mem[..], a, k, A0) && Fits(A0, k) && Held(mem[..], w, m, Q) && Held(mem[..], v, k, S)
      && Fits(S, k)
    requires v + m <= mem.Length && Apart(w, m, a, k) && Apart(v, m, a, k) && Apart(w, m, v, m)
    modifies mem
    ensures Held(mem[..], v, m, Add(S, Q)) && Held(mem[..], w, m, Add(Q, A0))
    ensures Only2(old(mem[..]), mem[..], w, m, v, m)
  {
    hide W, Add, Xor, Fits, Held, Rest, Only2, Wrote;
    ghost var before := mem[..];
    HeldRest(before, w, m, Q);
    HeldRest(before, v, k, S);
    HeldSize(before, w, m, Q);
    HeldNone(before, w, Add(Q, A0));
    HeldNone(before, v, Add(S, Q));
    Only2Same(before, w, m, v, m);
    var j := 0;
    while j < m
      invariant 0 <= j <= m && Held(mem[..], a, k, A0)
      invariant Held(mem[..], w, j, Add(Q, A0)) && Rest(mem[..], w, m, Q, j)
      invariant Held(mem[..], v, j, Add(S, Q)) && Rest(mem[..], v, k, S, j)
      invariant Only2(before, mem[..], w, m, v, m)
    {
      ghost var now := mem[..];
      RestWord(mem, w, m, Q, j);
      WAdd(S, Q, j);
      WAdd(Q, A0, j);
      if j < k {
        RestWord(mem, v, k, S, j);
        HeldWord(mem, a, k, A0, j);
        var u := mem[w + j];
        mem[v + j] := Xor(mem[v + j], u);
        mem[w + j] := Xor(u, mem[a + j]);
      } else {
        WAddBeyond(Q, A0, k, j);
        WAddBeyond(Q, S, k, j);
        mem[v + j] := mem[w + j];
      }
      WroteTwo(now, mem[..], w + j, v + j);
      WroteKeep(now, mem[..], w + j, v + j, a, k, A0);
      WroteGrow(now, mem[..], w + j, v + j, w, j, Add(Q, A0));
      WroteGrow(now, mem[..], w + j, v + j, v, j, Add(S, Q));
      WroteRest(now, mem[..], w + j, v + j, w, m, Q, j);
      WroteRest(now, mem[..], w + j, v + j, v, k, S, j);
      WroteOnly2(before, now, mem[..], w + j, v + j, w, m, v, m);
      j := j + 1;
    }
  }

  // ---------------------------------------------------------------- interpolation loops

  /** W3 += W2, W2 += W0, where W0 has z words and the others len. */
  method AddValues(mem: array<Word>, w0: nat, w2: nat, w3: nat, z: nat, len: nat, ghost P0: Poly, ghost P2: Poly,
                   ghost P3: Poly)
    requires z <= len && Held(mem[..], w0, z, P0) && Fits(P0, z) && Held(mem[..], w2, len, P2)
      && Held(mem[..], w3, len, P3)
    requires Apart(w2, len, w3, len) && Apart(w2, len, w0, z) && Apart(w3, len, w0, z)
    modifies mem
    ensures Held(mem[..], w2, len, Add(P2, P0)) && Held(mem[..], w3, len, Add(P3, P2))
    ensures Only2(old(mem[..]), mem[..], w2, len, w3, len)
  {
    hide W, Add, Xor, Fits, Held, Rest, Only2, Wrote;
    ghost var before := mem[..];
    HeldRest(before, w2, len, P2);
    HeldRest(before, w3, len, P3);
    HeldSize(before, w2, len, P2);
    HeldSize(before, w3, len, P3);
    HeldNone(before, w2, Add(P2, P0));
    HeldNone(before, w3, Add(P3, P2));
    Only2Same(before, w2, len, w3, len);
    var j := 0;
    while j < len
      invariant 0 <= j <= len && Held(mem[..], w0, z, P0)
      invariant Held(mem[..], w2, j, Add(P2, P0)) && Rest(mem[..], w2, len, P2, j)
      invariant Held(mem[..], w3, j, Add(P3, P2)) && Rest(mem[..], w3, len, P3, j)
      invariant Only2(before, mem[..], w2, len, w3, len)
    {
      ghost var now := mem[..];
      RestWord(mem, w2, len, P2, j);
      RestWord(mem, w3, len, P3, j);
      WAdd(P3, P2, j);
      WAdd(P2, P0, j);
      if j < z {
        HeldWord(mem, w0, z, P0, j);
        var s := mem[w2 + j];
        mem[w3 + j] := Xor(mem[w3 + j], s);
        mem[w2 + j] := Xor(s, mem[w0 + j]);
      } else {
        WAddBeyond(P2, P0, z, j);
        mem[w3 + j] := Xor(mem[w3 + j], mem[w2 + j]);
      }
      WroteTwo(now, mem[..], w2 + j, w3 + j);
      WroteKeep(now, mem[..], w2 + j, w3 + j, w0, z, P0);
      WroteGrow(now, mem[..], w2 + j, w3 + j, w2, j, Add(P2, P0));
      WroteGrow(now, mem[..], w2 + j, w3 + j, w3, j, Add(P3, P2));
      WroteRest(now, mem[..], w2 + j, w3 + j, w2, len, P2, j);
      WroteRest(now, mem[..], w2 + j, w3 + j, w3, len, P3, j);
      WroteOnly2(before, now, mem[..], w2 + j, w3 + j, w2, len, w3, len);
      j := j + 1;
    }
  }

  /** W2 = W2 / y + W3 for a multiple Q of y in W2. */
  method DivideByY(mem: array<Word>, w2: nat, w3: nat, len: nat, ghost Q: Poly, ghost U: Poly)
    requires 0 < len && Held(mem[..], w2, len, Q) && Fits(Q, len) && Held(mem[..], w3, len, U)
      && Apart(w2, len, w3, len)
    modifies mem
    ensures Held(mem[..], w2, len, Add(High(Q, 64), U))
    ensures Only(old(mem[..]), mem[..], w2, len)
  {
    hide W, Add, High, Xor, Fits, Held, Rest, Only, Wrote;
    ghost var before := mem[..];
    ghost var R := Add(High(Q, 64), U);
    HeldRest(before, w2, len, Q);
    HeldSize(before, w2, len, Q);
    HeldNone(before, w2, R);
    OnlySame(before, w2, len);
    var j := 0;
    while j < len
      invariant 0 <= j <= len && Held(mem[..], w3, len, U)
      invariant Held(mem[..], w2, j, R) && Rest(mem[..], w2, len, Q, j)
      invariant Only(before, mem[..], w2, len)
    {
      ghost var now := mem[..];
      RestWord(mem, w2, len, Q, j);
      HeldWord(mem, w3, len, U, j);
      WAdd(High(Q, 64), U, j);
      WHigh(Q, 1, j);
      if j < len - 1 {
        mem[w2 + j] := Xor(mem[w2 + j + 1], mem[w3 + j]);
      } else {
        WBeyond(Q, len, len);
        XorEmptyLeft(W(U, j));
        mem[w2 + j] := mem[w3 + j];
      }
      WroteTwo(now, mem[..], w2 + j, w2 + j);
      WroteKeep(now, mem[..], w2 + j, w2 + j, w3, len, U);
      WroteGrow(now, mem[..], w2 + j, w2 + j, w2, j, R);
      WroteRest(now, mem[..], w2 + j, w2 + j, w2, len, Q, j);
      WroteOnly(before, now, mem[..], w2 + j, w2 + j, w2, len);
      j := j + 1;
    }
  }

  /** The running sum over the words of (1 + y) R gives the words of R. */
  lemma DivisionWord(V: Poly, C4: Poly, R: Poly, z: nat, j: nat)
    requires Add(Add(V, C4), Shift(C4, 3 * 64)) == Twice(R, 64) && Fits(C4, z)
    ensures Xor(W(R, j - 1), Xor(Xor(W(V, j), if j < z then W(C4, j) else {}),
      if 3 <= j < z + 3 then W(C4, j - 3) else {}))
         == W(R, j)
  {
    hide WordAt, Add, W, Y, Xor, Shift;
    TwiceWord(R, j);
    WAdd(Add(V, C4), Y(C4, 3), j);
    WAdd(V, C4, j);
    WY(C4, 3, j);
    assert Y(C4, 3) == Shift(C4, 3 * 64) by { YIs(C4, 3); }
    WOutside(C4, z, j);
    if j < 3 {
      WZero(C4, j - 3);
    } else {
      WOutside(C4, z, j - 3);
    }
    XorSolve(W(R, j - 1), W(R, j));
  }

  lemma YIs(P: Poly, m: nat)
    ensures Y(P, m) == Shift(P, m * 64)
  {
  }

  lemma TwiceWord(R: Poly, j: nat)
    ensures W(Twice(R, 64), j) == Xor(W(R, j), W(R, j - 1))
  {
    hide WordAt, Add, W, Xor, Shift;
    assert Shift(R, 64) == Y(R, 1) by { YIs(R, 1); }
    WAdd(R, Shift(R, 64), j);
    WY(R, 1, j);
  }

  lemma XorSolve(u: Word, v: Word)
    ensures Xor(u, Xor(v, u)) == v
  {
    hide Add;
  }

  /** W2 = (W2 + W4 (1 + y^3)) / (1 + y), an exact division with quotient R. */
  method DivideByOnePlusY(mem: array<Word>, w2: nat, w4: nat, z: nat, len: nat, ghost V: Poly, ghost C4: Poly,
                          ghost R: Poly)
    requires 3 <= z <= z + 3 <= len && Held(mem[..], w2, len, V) && Held(mem[..], w4, z, C4) && Fits(C4, z)
    requires Apart(w2, len, w4, z) && Add(Add(V, C4), Shift(C4, 3 * 64)) == Twice(R, 64)
    modifies mem
    ensures Held(mem[..], w2, len, R)
    ensures Only(old(mem[..]), mem[..], w2, len)
  {
    hide W, Add, Xor, Fits, Held, Rest, Only, Wrote, Shift, Twice;
    ghost var before := mem[..];
    HeldRest(before, w2, len, V);
    HeldSize(before, w2, len, V);
    HeldNone(before, w2, R);
    OnlySame(before, w2, len);
    WZero(R, -1);
    var j := 0;
    var s: Word := {};
    while j < len
      invariant 0 <= j <= len && Held(mem[..], w4, z, C4) && s == W(R, j - 1)
      invariant Held(mem[..], w2, j, R) && Rest(mem[..], w2, len, V, j)
      invariant Only(before, mem[..], w2, len)
    {
      ghost var now := mem[..];
      DivisionWord(V, C4, R, z, j);
      RestWord(mem, w2, len, V, j);
      var x: Word, y: Word := {}, {};
      if j < z {
        HeldWord(mem, w4, z, C4, j);
        x := mem[w4 + j];
      }
      if 3 <= j < z + 3 {
        HeldWord(mem, w4, z, C4, j - 3);
        y := mem[w4 + j - 3];
      }
      s := Xor(s, Xor(Xor(mem[w2 + j], x), y));
      mem[w2 + j] := s;
      WroteTwo(now, mem[..], w2 + j, w2 + j);
      WroteKeep(now, mem[..], w2 + j, w2 + j, w4, z, C4);
      WroteGrow(now, mem[..], w2 + j, w2 + j, w2, j, R);
      WroteRest(now, mem[..], w2 + j, w2 + j, w2, len, V, j);
      WroteOnly(before, now, mem[..], w2 + j, w2 + j, w2, len);
      j := j + 1;
    }
  }

  /** W1 += W0, W3 += W1, where W0 and W1 have z words and W3 has len. */
  method AddSums(mem: array<Word>, w0: nat, w1: nat, w3: nat, z: nat, len: nat, ghost C0: Poly, ghost P1: Poly,
                 ghost U: Poly)
    requires z <= len && Held(mem[..], w0, z, C0) && Held(mem[..], w1, z, P1) && Held(mem[..], w3, len, U)
    requires Fits(C0, z) && Fits(P1, z) && Apart(w1, z, w0, z) && Apart(w3, len, w0, z) && Apart(w1, z, w3, len)
    modifies mem
    ensures Held(mem[..], w1, z, Add(P1, C0)) && Held(mem[..], w3, len, Add(U, Add(P1, C0)))
    ensures Only2(old(mem[..]), mem[..], w1, z, w3, len)
  {
    hide W, Add, Xor, Fits, Held, Rest, Only2, Wrote;
    ghost var before := mem[..];
    ghost var V := Add(P1, C0);
    HeldRest(before, w1, z, P1);
    HeldRest(before, w3, len, U);
    HeldSize(before, w1, z, P1);
    HeldSize(before, w3, len, U);
    HeldNone(before, w1, V);
    HeldNone(before, w3, Add(U, V));
    Only2Same(before, w1, z, w3, len);
    var j := 0;
    while j < z
      invariant 0 <= j <= z && Held(mem[..], w0, z, C0)
      invariant Held(mem[..], w1, j, V) && Rest(mem[..], w1, z, P1, j)
      invariant Held(mem[..], w3, j, Add(U, V)) && Rest(mem[..], w3, len, U, j)
      invariant Only2(before, mem[..], w1, z, w3, len)
    {
      ghost var now := mem[..];
      HeldWord(mem, w0, z, C0, j);
      RestWord(mem, w1, z, P1, j);
      RestWord(mem, w3, len, U, j);
      WAdd(P1, C0, j);
      WAdd(U, V, j);
      XorComm(W(C0, j), W(P1, j));
      var s := Xor(mem[w0 + j], mem[w1 + j]);
      mem[w1 + j] := s;
      mem[w3 + j] := Xor(mem[w3 + j], s);
      WroteTwo(now, mem[..], w1 + j, w3 + j);
      WroteKeep(now, mem[..], w1 + j, w3 + j, w0, z, C0);
      WroteGrow(now, mem[..], w1 + j, w3 + j, w1, j, V);
      WroteGrow(now, mem[..], w1 + j, w3 + j, w3, j, Add(U, V));
      WroteRest(now, mem[..], w1 + j, w3 + j, w1, z, P1, j);
      WroteRest(now, mem[..], w1 + j, w3 + j, w3, len, U, j);
      WroteOnly2(before, now, mem[..], w1 + j, w3 + j, w1, z, w3, len);
      j := j + 1;
    }
    FitsAdd(P1, C0, z);
    AddShort(mem[..], w3, z, len, U, V);
  }

  lemma XorComm(u: Word, v: Word)
    ensures Xor(u, v) == Xor(v, u)
  {
    hide Add;
  }

  /** Adding V changes no word beyond the words of V. */
  lemma AddShort(s: seq<Word>, p: nat, z: nat, len: nat, U: Poly, V: Poly)
    requires Held(s, p, z, Add(U, V)) && Rest(s, p, len, U, z) && Fits(V, z) && z <= len
    ensures Held(s, p, len, Add(U, V))
  {
    hide W, Add, Held, Rest, Fits;
    forall i | z <= i < len
      ensures W(Add(U, V), i) == W(U, i)
    {
      WAddBeyond(U, V, z, i);
    }
    RestSame(s, p, len, Add(U, V), U, z);
  }

  /** W3 = W3 / (y + y^2), an exact division with quotient R. */
  method DivideByYPlusYY(mem: array<Word>, w3: nat, len: nat, ghost Q: Poly, ghost R: Poly)
    requires 0 < len && Held(mem[..], w3, len, Q) && Q == Shift(Twice(R, 64), 64)
    modifies mem
    ensures Held(mem[..], w3, len - 1, R)
    ensures Only(old(mem[..]), mem[..], w3, len)
  {
    hide W, Xor, Fits, Held, Rest, Only, Wrote, Shift, Twice;
    ghost var before := mem[..];
    HeldRest(before, w3, len, Q);
    HeldSize(before, w3, len, Q);
    HeldNone(before, w3, R);
    OnlySame(before, w3, len);
    WZero(R, -1);
    var j := 0;
    var s: Word := {};
    while j < len - 1
      invariant 0 <= j <= len - 1 && s == W(R, j - 1)
      invariant Held(mem[..], w3, j, R) && Rest(mem[..], w3, len, Q, j)
      invariant Only(before, mem[..], w3, len)
    {
      ghost var now := mem[..];
      RestWord(mem, w3, len, Q, j);
      QuotientWord(Q, R, j);
      s := Xor(s, mem[w3 + j + 1]);
      mem[w3 + j] := s;
      WroteTwo(now, mem[..], w3 + j, w3 + j);
      WroteGrow(now, mem[..], w3 + j, w3 + j, w3, j, R);
      WroteRest(now, mem[..], w3 + j, w3 + j, w3, len, Q, j);
      WroteOnly(before, now, mem[..], w3 + j, w3 + j, w3, len);
      j := j + 1;
    }
  }

  lemma QuotientWord(Q: Poly, R: Poly, j: nat)
    requires Q == Shift(Twice(R, 64), 64)
    ensures Xor(W(R, j - 1), W(Q, j + 1)) == W(R, j)
  {
    hide WordAt, W, Y, Xor, Shift, Twice;
    assert Q == Y(Twice(R, 64), 1) by { YIs(Twice(R, 64), 1); }
    WY(Twice(R, 64), 1, j + 1);
    TwiceWord(R, j);
    XorSolve(W(R, j - 1), W(R, j));
  }

  /** W1 += W2 + W4, W2 += W3, where W1 grows from z1 words to len and W3 has z3. */
  method AddQuotients(mem: array<Word>, w1: nat, w2: nat, w3: nat, w4: nat, z1: nat, z3: nat, z4: nat, len: nat,
                      ghost V: Poly, ghost R: Poly, ghost C3: Poly, ghost C4: Poly)
    requires z4 <= z1 <= z3 <= len && w1 + len <= mem.Length
    requires Held(mem[..], w1, z1, V) && Fits(V, z1) && Held(mem[..], w2, len, R)
    requires Held(mem[..], w3, z3, C3) && Fits(C3, z3) && Held(mem[..], w4, z4, C4) && Fits(C4, z4)
    requires Apart(w1, len, w2, len) && Apart(w1, len, w3, z3) && Apart(w1, len, w4, z4)
    requires Apart(w2, len, w3, z3) && Apart(w2, len, w4, z4)
    modifies mem
    ensures Held(mem[..], w1, len, Add(V, Add(R, C4))) && Held(mem[..], w2, len, Add(R, C3))
    ensures Only2(old(mem[..]), mem[..], w1, len, w2, len)
  {
    hide W, Add, Xor, Fits, Held, Rest, Only2, Wrote;
    ghost var before := mem[..];
    ghost var C1, C2 := Add(V, Add(R, C4)), Add(R, C3);
    HeldRest(before, w1, z1, V);
    HeldRest(before, w2, len, R);
    HeldSize(before, w2, len, R);
    HeldNone(before, w1, C1);
    HeldNone(before, w2, C2);
    Only2Same(before, w1, len, w2, len);
    var j := 0;
    while j < len
      invariant 0 <= j <= len && Held(mem[..], w3, z3, C3) && Held(mem[..], w4, z4, C4)
      invariant Held(mem[..], w1, j, C1) && Rest(mem[..], w1, z1, V, j)
      invariant Held(mem[..], w2, j, C2) && Rest(mem[..], w2, len, R, j)
      invariant Only2(before, mem[..], w1, len, w2, len)
    {
      ghost var now := mem[..];
      RestWord(mem, w2, len, R, j);
      CombinedWord(V, R, C3, C4, z1, z3, z4, j);
      var s, u: Word := mem[w2 + j], {};
      if j < z3 {
        HeldWord(mem, w3, z3, C3, j);
        u := mem[w3 + j];
      }
      if j < z1 {
        RestWord(mem, w1, z1, V, j);
        if j < z4 {
          HeldWord(mem, w4, z4, C4, j);
          mem[w1 + j] := Xor(mem[w1 + j], Xor(s, mem[w4 + j]));
        } else {
          mem[w1 + j] := Xor(mem[w1 + j], s);
        }
      } else {
        mem[w1 + j] := s;
      }
      if j < z3 {
        mem[w2 + j] := Xor(s, u);
      }
      WroteTwo(now, mem[..], w1 + j, w2 + j);
      WroteKeep(now, mem[..], w1 + j, w2 + j, w3, z3, C3);
      WroteKeep(now, mem[..], w1 + j, w2 + j, w4, z4, C4);
      WroteGrow(now, mem[..], w1 + j, w2 + j, w1, j, C1);
      WroteGrow(now, mem[..], w1 + j, w2 + j, w2, j, C2);
      WroteRest(now, mem[..], w1 + j, w2 + j, w1, z1, V, j);
      WroteRest(now, mem[..], w1 + j, w2 + j, w2, len, R, j);
      WroteOnly2(before, now, mem[..], w1 + j, w2 + j, w1, len, w2, len);
      j := j + 1;
    }
  }

  lemma CombinedWord(V: Poly, R: Poly, C3: Poly, C4: Poly, z1: nat, z3: nat, z4: nat, j: nat)
    requires z4 <= z1 && Fits(V, z1) && Fits(C3, z3) && Fits(C4, z4)
    ensures W(Add(V, Add(R, C4)), j)
         == (if j < z4 then Xor(W(V, j), Xor(W(R, j), W(C4, j))) else if j < z1 then Xor(W(V, j), W(R, j)) else W(R, j))
    ensures W(Add(R, C3), j) == if j < z3 then Xor(W(R, j), W(C3, j)) else W(R, j)
  {
    hide WordAt, W, Add, Xor, Fits;
    WAdd(V, Add(R, C4), j);
    WAdd(R, C4, j);
    WAdd(R, C3, j);
    WOutside(C4, z4, j);
    WOutside(V, z1, j);
    WOutside(C3, z3, j);
    XorEmptyLeft(W(R, j));
  }

  /** The five temporaries do not overlap; w1, w2, w3 have room for len words. */
  predicate Disjoint(w0: nat, w1: nat, w2: nat, w3: nat, w4: nat, z: nat, z4: nat, len: nat) {
    && Apart(w0, z, w1, len) && Apart(w0, z, w2, len) && Apart(w0, z, w3, len) && Apart(w0, z, w4, z4)
    && Apart(w1, len, w2, len) && Apart(w1, len, w3, len) && Apart(w1, len, w4, z4)
    && Apart(w2, len, w3, len) && Apart(w2, len, w4, z4) && Apart(w3, len, w4, z4)
  }

  lemma DisjointPairs(w0: nat, w1: nat, w2: nat, w3: nat, w4: nat, z: nat, z4: nat, len: nat, ql: nat)
    requires Disjoint(w0, w1, w2, w3, w4, z, z4, len) && z <= len && ql <= len
    ensures Apart(w1, z, w0, z) && Apart(w2, len, w0, z) && Apart(w3, len, w0, z) && Apart(w4, z4, w0, z)
      && Apart(w1, len, w0, z)
    ensures Apart(w2, len, w1, z) && Apart(w3, len, w1, z) && Apart(w1, z, w2, len) && Apart(w1, z, w3, len)
    ensures Apart(w1, z, w4, z4) && Apart(w3, len, w2, len)
    ensures Apart(w1, len, w2, len) && Apart(w1, len, w3, len) && Apart(w1, len, w4, z4)
    ensures Apart(w2, len, w3, len) && Apart(w2, len, w4, z4) && Apart(w3, len, w4, z4)
    ensures Apart(w1, ql, w0, z) && Apart(w1, ql, w2, ql) && Apart(w1, ql, w4, z4) && Apart(w2, ql, w0, z)
      && Apart(w2, ql, w4, z4)
    ensures len >= 2 ==> Apart(w1, ql, w3, len - 2) && Apart(w2, ql, w3, len - 2) && Apart(w3, len, w2, ql)
    ensures Apart(w2, ql, w1, z) && Apart(w2, ql, w3, len) && Apart(w1, z, w2, ql)
  {
  }

  /** The interpolation loops in order, from the values of the product to its coefficients.
      The values at y and 1 + y have len words; c1 and c2 are computed for ql words, which
      is len in gf2x_mul_tc3w and len - 1 in gf2x_mul_tc3u. */
  method Interpolate(mem: array<Word>, w0: nat, w1: nat, w2: nat, w3: nat, w4: nat, z: nat, z4: nat, len: nat, ql: nat,
                     ghost c0: Poly, ghost c1: Poly, ghost c2: Poly, ghost c3: Poly, ghost c4: Poly,
                     ghost p: nat, ghost pn: nat, ghost q: nat, ghost qn: nat)
    requires 3 <= z4 <= z <= len - 2 && z4 + 3 <= ql && len - 1 <= ql <= len && w1 + len <= mem.Length
    requires Disjoint(w0, w1, w2, w3, w4, z, z4, len)
    requires Inside(w1, len, p, pn, q, qn) && Inside(w2, len, p, pn, q, qn) && Inside(w3, len, p, pn, q, qn)
    requires Fits(c0, z) && Fits(c3, z) && Fits(c4, z4)
    requires var C := [c0, c1, c2, c3, c4];
      && Held(mem[..], w0, z, c0) && Held(mem[..], w4, z4, c4)
      && Held(mem[..], w1, z, Eval(C, ONE)) && Fits(Eval(C, ONE), z)
      && Held(mem[..], w2, len, Eval(C, {64})) && Fits(Eval(C, {64}), len)
      && Held(mem[..], w3, len, Eval(C, {0, 64}))
    modifies mem
    ensures Held(mem[..], w0, z, c0) && Held(mem[..], w1, ql, c1) && Held(mem[..], w2, ql, c2)
    ensures Held(mem[..], w3, len - 2, c3) && Held(mem[..], w4, z4, c4)
    ensures Only2(old(mem[..]), mem[..], p, pn, q, qn)
  {
    hide W, Add, Xor, Fits, Held, Rest, Only, Only2, Wrote, Shift, Twice, High, Eval, Apart, Disjoint, Inside;
    ghost var C := [c0, c1, c2, c3, c4];
    ghost var P1, P2, P3 := Eval(C, ONE), Eval(C, {64}), Eval(C, {0, 64});
    ghost var U, V, R := Add(P3, P2), Add(P1, c0), Add(c2, c3);
    Interpolation(c0, c1, c2, c3, c4, 64);
    DisjointPairs(w0, w1, w2, w3, w4, z, z4, len, ql);
    FitsLess(c0, z, len);
    FitsLess(c3, z, len - 1);
    FitsLess(c3, z, len - 2);
    FitsAdd(P2, c0, len);
    FitsAdd(P1, c0, z);
    ghost var s0 := mem[..];

    AddValues(mem, w0, w2, w3, z, len, c0, P2, P3);
    ghost var s1 := mem[..];
    Only2Same(s0, p, pn, q, qn);
    Only2Then(s0, s0, s1, p, pn, q, qn, w2, len, w3, len);
    HeldKept2(s0, s1, w0, z, c0, w2, len, w3, len);
    HeldKept2(s0, s1, w1, z, P1, w2, len, w3, len);
    HeldKept2(s0, s1, w4, z4, c4, w2, len, w3, len);

    DivideByY(mem, w2, w3, len, Add(P2, c0), U);
    ghost var s2 := mem[..];
    OnlyThen(s0, s1, s2, p, pn, q, qn, w2, len);
    HeldKept(s1, s2, w0, z, c0, w2, len);
    HeldKept(s1, s2, w1, z, P1, w2, len);
    HeldKept(s1, s2, w3, len, U, w2, len);
    HeldKept(s1, s2, w4, z4, c4, w2, len);

    HeldPrefix(s2, w2, len, Add(High(Add(P2, c0), 64), U), ql);
    DivideByOnePlusY(mem, w2, w4, z4, ql, Add(High(Add(P2, c0), 64), U), c4, R);
    ghost var s3 := mem[..];
    InsideLess(w2, ql, len, p, pn, q, qn);
    OnlyThen(s0, s2, s3, p, pn, q, qn, w2, ql);
    HeldKept(s2, s3, w0, z, c0, w2, ql);
    HeldKept(s2, s3, w1, z, P1, w2, ql);
    HeldKept(s2, s3, w3, len, U, w2, ql);
    HeldKept(s2, s3, w4, z4, c4, w2, ql);

    InterpolateRest(mem, w0, w1, w2, w3, w4, z, z4, len, ql, c0, c3, c4, P1, U, R, p, pn, q, qn);
    OnlyThen2(s0, s3, mem[..], p, pn, q, qn);
  }

  /** The loops after the first division. */
  method InterpolateRest(mem: array<Word>, w0: nat, w1: nat, w2: nat, w3: nat, w4: nat, z: nat, z4: nat, len: nat,
                         ql: nat,
                         ghost c0: Poly, ghost c3: Poly, ghost c4: Poly, ghost P1: Poly, ghost U: Poly, ghost R: Poly,
                         ghost p: nat, ghost pn: nat, ghost q: nat, ghost qn: nat)
    requires 3 <= z4 <= z <= len - 2 && len - 1 <= ql <= len && w1 + len <= mem.Length
      && Disjoint(w0, w1, w2, w3, w4, z, z4, len)
    requires Inside(w1, len, p, pn, q, qn) && Inside(w2, len, p, pn, q, qn) && Inside(w3, len, p, pn, q, qn)
    requires Fits(c0, z) && Fits(c3, z) && Fits(c4, z4) && Fits(P1, z)
    requires Held(mem[..], w0, z, c0) && Held(mem[..], w4, z4, c4) && Held(mem[..], w1, z, P1)
    requires Held(mem[..], w2, ql, R) && Held(mem[..], w3, len, U)
    requires Add(U, Add(P1, c0)) == Shift(Twice(c3, 64), 64)
    modifies mem
    ensures Held(mem[..], w0, z, c0) && Held(mem[..], w1, ql, Add(Add(P1, c0), Add(R, c4)))
    ensures Held(mem[..], w2, ql, Add(R, c3)) && Held(mem[..], w3, len - 2, c3) && Held(mem[..], w4, z4, c4)
    ensures Only2(old(mem[..]), mem[..], p, pn, q, qn)
  {
    hide W, Add, Xor, Fits, Held, Rest, Only, Only2, Wrote, Shift, Twice, Apart, Disjoint, Inside;
    ghost var V := Add(P1, c0);
    DisjointPairs(w0, w1, w2, w3, w4, z, z4, len, ql);
    FitsLess(c3, z, len - 1);
    FitsLess(c3, z, len - 2);
    FitsAdd(P1, c0, z);
    ghost var s0 := mem[..];

    AddSums(mem, w0, w1, w3, z, len, c0, P1, U);
    ghost var s1 := mem[..];
    Only2Same(s0, p, pn, q, qn);
    InsideLess(w1, z, len, p, pn, q, qn);
    Only2Then(s0, s0, s1, p, pn, q, qn, w1, z, w3, len);
    HeldKept2(s0, s1, w0, z, c0, w1, z, w3, len);
    HeldKept2(s0, s1, w2, ql, R, w1, z, w3, len);
    HeldKept2(s0, s1, w4, z4, c4, w1, z, w3, len);

    DivideByYPlusYY(mem, w3, len, Add(U, V), c3);
    ghost var s2 := mem[..];
    HeldPrefix(s2, w3, len - 1, c3, len - 2);
    HeldSize(s1, w3, len, Add(U, V));
    if ql == len {
      mem[w3 + len - 1] := {};
      LastZero(s2, mem[..], w3, len, c3);
      OnlyTrans(s1, s2, mem[..], w3, len);
    }
    ghost var s3 := mem[..];
    OnlyThen(s0, s1, s3, p, pn, q, qn, w3, len);
    HeldKept(s1, s3, w0, z, c0, w3, len);
    HeldKept(s1, s3, w1, z, V, w3, len);
    HeldKept(s1, s3, w2, ql, R, w3, len);
    HeldKept(s1, s3, w4, z4, c4, w3, len);

    AddQuotients(mem, w1, w2, w3, w4, z, len - 2, z4, ql, V, R, c3, c4);
    InsideLess(w1, ql, len, p, pn, q, qn);
    InsideLess(w2, ql, len, p, pn, q, qn);
    Only2Then(s0, s3, mem[..], p, pn, q, qn, w1, ql, w2, ql);
    HeldKept2(s3, mem[..], w0, z, c0, w1, ql, w2, ql);
    HeldKept2(s3, mem[..], w3, len - 2, c3, w1, ql, w2, ql);
    HeldKept2(s3, mem[..], w4, z4, c4, w1, ql, w2, ql);
  }

  lemma LastZero(s: seq<Word>, t: seq<Word>, w3: nat, len: nat, P: Poly)
    requires 2 <= len && w3 + len <= |s| && t == s[w3 + len - 1 := {}] && Held(s, w3, len - 2, P)
    ensures Held(t, w3, len - 2, P) && Only(s, t, w3, len)
  {
    hide W;
  }

  lemma InsideLess(w: nat, z: nat, len: nat, p: nat, pn: nat, q: nat, qn: nat)
    requires Inside(w, len, p, pn, q, qn) && z <= len
    ensures Inside(w, z, p, pn, q, qn)
  {
  }

  // ---------------------------------------------------------------- recomposition

  /** c += w * y^off. */
  method AddShifted(mem: array<Word>, c: nat, ghost n: nat, w: nat, len: nat, off: nat, ghost P: Poly, ghost Q: Poly)
    requires off + len <= n && Held(mem[..], c, n, P) && Held(mem[..], w, len, Q) && Fits(Q, len) && Apart(c, n, w, len)
    modifies mem
    ensures Held(mem[..], c, n, Add(P, Y(Q, off)))
    ensures Only(old(mem[..]), mem[..], c, n)
  {
    hide W, Add, Y, Xor, Fits, Held, Rest, Only, Wrote;
    ghost var before := mem[..];
    ghost var R := Add(P, Y(Q, off));
    HeldSize(before, c, n, P);
    BelowShift(before, c, n, off, P, Q);
    OnlySame(before, c, n);
    var j := 0;
    while j < len
      invariant 0 <= j <= len && Held(mem[..], w, len, Q)
      invariant Held(mem[..], c, off + j, R) && Rest(mem[..], c, n, P, off + j)
      invariant Only(before, mem[..], c, n)
    {
      ghost var now := mem[..];
      RestWord(mem, c, n, P, off + j);
      HeldWord(mem, w, len, Q, j);
      WAdd(P, Y(Q, off), off + j);
      WY(Q, off, off + j);
      mem[c + off + j] := Xor(mem[c + off + j], mem[w + j]);
      WroteTwo(now, mem[..], c + off + j, c + off + j);
      WroteKeep(now, mem[..], c + off + j, c + off + j, w, len, Q);
      WroteGrow(now, mem[..], c + off + j, c + off + j, c, off + j, R);
      WroteRest(now, mem[..], c + off + j, c + off + j, c, n, P, off + j);
      WroteOnly(before, now, mem[..], c + off + j, c + off + j, c, n);
      j := j + 1;
    }
    FitsY(Q, len, off);
    AddShort(mem[..], c, off + len, n, P, Y(Q, off));
  }

  lemma BelowShift(s: seq<Word>, c: nat, n: nat, off: nat, P: Poly, Q: Poly)
    requires off <= n && Held(s, c, n, P)
    ensures Held(s, c, off, Add(P, Y(Q, off))) && Rest(s, c, n, P, off)
  {
    hide W, Add, Y;
    forall i | c <= i < c + off
      ensures s[i] == W(Add(P, Y(Q, off)), i - c)
    {
      WAdd(P, Y(Q, off), i - c);
      WY(Q, off, i - c);
      WZero(Q, i - c - off);
      XorEmptyLeft(W(P, i - c));
    }
  }

  /** Adds the high part at off, where c holds no more than ov words beyond off yet. */
  method PlaceTop(mem: array<Word>, c: nat, off: nat, ov: nat, w: nat, z: nat, ghost P: Poly, ghost Q: Poly)
    requires ov <= z && c + off + z <= mem.Length && Held(mem[..], c, off + ov, P) && Fits(P, off + ov)
    requires Held(mem[..], w, z, Q) && Apart(c, off + z, w, z)
    modifies mem
    ensures Held(mem[..], c, off + z, Add(P, Y(Q, off)))
    ensures Only(old(mem[..]), mem[..], c, off + z)
  {
    hide W, Add, Y, Xor, Fits, Held, Rest, Only, Wrote;
    ghost var before := mem[..];
    ghost var R := Add(P, Y(Q, off));
    BelowShift(before, c, off + ov, off, P, Q);
    OnlySame(before, c, off + z);
    var j := 0;
    while j < z
      invariant 0 <= j <= z && Held(mem[..], w, z, Q)
      invariant Held(mem[..], c, off + j, R) && Rest(mem[..], c, off + ov, P, off + j)
      invariant Only(before, mem[..], c, off + z)
    {
      ghost var now := mem[..];
      HeldWord(mem, w, z, Q, j);
      WAdd(P, Y(Q, off), off + j);
      WY(Q, off, off + j);
      if j < ov {
        RestWord(mem, c, off + ov, P, off + j);
        mem[c + off + j] := Xor(mem[c + off + j], mem[w + j]);
      } else {
        WBeyond(P, off + ov, off + j);
        XorEmptyLeft(W(Q, j));
        mem[c + off + j] := mem[w + j];
      }
      WroteTwo(now, mem[..], c + off + j, c + off + j);
      WroteKeep(now, mem[..], c + off + j, c + off + j, w, z, Q);
      WroteGrow(now, mem[..], c + off + j, c + off + j, c, off + j, R);
      WroteRest(now, mem[..], c + off + j, c + off + j, c, off + ov, P, off + j);
      WroteOnly(before, now, mem[..], c + off + j, c + off + j, c, off + z);
      j := j + 1;
    }
  }

  /** The coefficients put together in c, which already holds the first and, at 2k, the third. */
  method Recompose(mem: array<Word>, c: nat, k: nat, zt: nat, ql: nat, l3: nat, w1: nat, w3: nat, w4: nat,
                   ghost c0: Poly, ghost c1: Poly, ghost c2: Poly, ghost c3: Poly, ghost c4: Poly)
    requires 2 * k <= ql <= 2 * k + zt && k + ql <= 4 * k + zt && 3 * k + l3 <= 4 * k + zt
      && c + 4 * k + zt <= mem.Length
    requires Held(mem[..], c, 2 * k, c0) && Held(mem[..], c + 2 * k, ql, c2) && Held(mem[..], w4, zt, c4)
    requires Held(mem[..], w1, ql, c1) && Held(mem[..], w3, l3, c3)
    requires Fits(c0, 2 * k) && Fits(c1, ql) && Fits(c2, ql) && Fits(c3, l3)
    requires Apart(c, 4 * k + zt, w1, ql) && Apart(c, 4 * k + zt, w3, l3) && Apart(c, 4 * k + zt, w4, zt)
    modifies mem
    ensures Held(mem[..], c, 4 * k + zt, Add(Add(Add(Add(c0, Y(c2, 2 * k)), Y(c4, 4 * k)), Y(c1, k)), Y(c3, 3 * k)))
    ensures Only(old(mem[..]), mem[..], c, 4 * k + zt)
  {
    hide W, Add, Y, Fits, Held, Only, Apart;
    ghost var n := 4 * k + zt;
    ghost var s0 := mem[..];
    HeldJoin(s0, c, 2 * k, c0, ql, c2);
    FitsLess(c0, 2 * k, 2 * k + ql);
    FitsY(c2, ql, 2 * k);
    ghost var P := Add(c0, Y(c2, 2 * k));
    FitsAdd(c0, Y(c2, 2 * k), 2 * k + ql);
    PlaceTop(mem, c, 4 * k, ql - 2 * k, w4, zt, P, c4);
    ghost var s1 := mem[..];
    HeldKept(s0, s1, w1, ql, c1, c, n);
    HeldKept(s0, s1, w3, l3, c3, c, n);
    ghost var Q := Add(P, Y(c4, 4 * k));
    AddShifted(mem, c, n, w1, ql, k, Q, c1);
    ghost var s2 := mem[..];
    HeldKept(s1, s2, w3, l3, c3, c, n);
    OnlyTrans(s0, s1, s2, c, n);
    AddShifted(mem, c, n, w3, l3, 3 * k, Add(Q, Y(c1, k)), c3);
    OnlyTrans(s0, s2, mem[..], c, n);
  }

  lemma HeldJoin(s: seq<Word>, p: nat, n: nat, P: Poly, m: nat, Q: Poly)
    requires Held(s, p, n, P) && Held(s, p + n, m, Q) && Fits(P, n)
    ensures Held(s, p, n + m, Add(P, Y(Q, n)))
  {
    hide W, Add, Y, Fits;
    forall i | p <= i < p + n + m
      ensures s[i] == W(Add(P, Y(Q, n)), i - p)
    {
      WAdd(P, Y(Q, n), i - p);
      WY(Q, n, i - p);
      WOutside(P, n, i - p);
      if i < p + n {
        WZero(Q, i - p - n);
        XorEmptyLeft(W(P, i - p));
      } else {
        XorEmptyLeft(W(Q, i - p - n));
      }
    }
  }
}
