/** Karatsuba multiplication with minimal temporary storage: gf2x_mul_kara of
    gf2x-1.1/toom.c.  The halves of the product are accumulated in place in the
    result, where the middle product overlaps both outer ones. */
module Karatsuba {
  import opened Polynomials
  import opened Words
  import opened WordMemory
  import opened BaseCase
  import opened ToomSpace

  // ---------------------------------------------------------------- the identity

  /** L + y^k (M + L + H) + y^2k H. */
  function Recombined(L: Poly, M: Poly, H: Poly, k: nat): Poly {
    Add(L, Add(Y(Add(M, Add(L, H)), k), Y(H, 2 * k)))
  }

  lemma KaraIdentity(A0: Poly, A1: Poly, B0: Poly, B1: Poly, k: nat)
    ensures Mul(Add(A0, Y(A1, k)), Add(B0, Y(B1, k)))
         == Recombined(Mul(A0, B0), Mul(Add(A0, A1), Add(B0, B1)), Mul(A1, B1), k)
  {
    hide Mul, Add, Y;
    var B := Add(B0, Y(B1, k));
    AddMul(A0, Y(A1, k), B);
    MulAdd(A0, B0, Y(B1, k));
    MulAdd(Y(A1, k), B0, Y(B1, k));
    MulY(A0, B1, k);
    MulY(A1, B0, k);
    MulY(A1, Y(B1, k), k);
    MulY(A1, B1, k);
    AddMul(A0, A1, Add(B0, B1));
    MulAdd(A0, B0, B1);
    MulAdd(A1, B0, B1);
    Cancel(Mul(A0, B0), Mul(A0, B1), Mul(A1, B0), Mul(A1, B1), k);
  }

  lemma Cancel(P: Poly, Q: Poly, R: Poly, S: Poly, k: nat)
    ensures Add(Add(P, Y(Q, k)), Add(Y(R, k), Y(Y(S, k), k)))
         == Recombined(P, Add(Add(P, Q), Add(R, S)), S, k)
  {
    hide Add, Shift;
    var M := Add(Add(P, Q), Add(R, S));
    assert Add(M, Add(P, S)) == Add(Q, R);
    ShiftAdd(Q, R, 64 * k);
    ShiftShift(S, 64 * k, 64 * k);
    assert 64 * k + 64 * k == 64 * (2 * k);
    Regroup(P, Y(Q, k), Y(R, k), Y(S, 2 * k));
  }

  lemma Regroup(P: Poly, Q: Poly, R: Poly, S: Poly)
    ensures Add(Add(P, Q), Add(R, S)) == Add(P, Add(Add(Q, R), S))
  {
    hide Add;
  }

  // ---------------------------------------------------------------- splitting the operands

  /** A region that holds P holds its low and its high words. */
  lemma SplitHeld(s: seq<Word>, p: nat, n: nat, k: nat, P: Poly)
    requires k <= n && Held(s, p, n, P)
    ensures Held(s, p, k, Low(P, 64 * k)) && Held(s, p + k, n - k, High(P, 64 * k))
    ensures P == Add(Low(P, 64 * k), Y(High(P, 64 * k), k))
    ensures Fits(Low(P, 64 * k), k) && (Fits(P, n) ==> Fits(High(P, 64 * k), n - k))
  {
    hide W, Low, High;
    forall j | p <= j < p + k
      ensures s[j] == W(Low(P, 64 * k), j - p)
    {
      WLow(P, k, j - p);
    }
    forall j | p + k <= j < p + n
      ensures s[j] == W(High(P, 64 * k), j - (p + k))
    {
      WHigh(P, k, j - (p + k));
    }
    LowFits(P, k);
    LowHigh(P, k);
    if Fits(P, n) {
      HighFits(P, n, k);
    }
  }

  lemma WLow(P: Poly, k: nat, j: nat)
    requires j < k
    ensures W(Low(P, 64 * k), j) == W(P, j)
  {
    hide WordAt, Low;
    forall b: nat
      ensures b in W(Low(P, 64 * k), j) <==> b in W(P, j)
    {
    }
  }

  lemma HighFits(P: Poly, n: nat, k: nat)
    requires k <= n && Fits(P, n)
    ensures Fits(High(P, 64 * k), n - k)
  {
    hide High;
    var h := High(P, 64 * k);
    forall i | i in h
      ensures i < 64 * (n - k)
    {
      assert i + 64 * k in P;
    }
  }

  lemma LowHigh(P: Poly, k: nat)
    ensures P == Add(Low(P, 64 * k), Y(High(P, 64 * k), k))
  {
    hide Low, High, Shift, Add;
    var h := High(P, 64 * k);
    forall i: nat
      ensures i in P <==> i in Add(Low(P, 64 * k), Y(h, k))
    {
      if 64 * k <= i {
        assert i in Y(h, k) <==> i - 64 * k in h;
      }
    }
  }

  // ---------------------------------------------------------------- the loops

  lemma OnlyThree(s: seq<Word>, t: seq<Word>, u: seq<Word>, p: nat, n: nat, j: nat)
    requires j < n && p + 3 * n <= |t| == |u| && Only(s, t, p, 3 * n)
    requires forall i :: 0 <= i < |t| && i != p + j && i != p + n + j && i != p + 2 * n + j ==> u[i] == t[i]
    ensures Only(s, u, p, 3 * n)
  {
  }

  /** The operands of the sums of halves in the content s of the memory. */
  ghost predicate Halves(s: seq<Word>, a: nat, b: nat, c: nat, n2: nat, k: nat,
                         A0: Poly, A1: Poly, B0: Poly, B1: Poly, L: Poly, H: Poly) {
    && Held(s, a, n2, A0) && Held(s, a + n2, k, A1) && Fits(A1, k)
    && Held(s, b, n2, B0) && Held(s, b + n2, k, B1) && Fits(B1, k)
    && Held(s, c + n2, n2, L) && Held(s, c + 2 * n2, n2, H)
  }

  /** Words j of the sums of halves. */
  method SumWords(mem: array<Word>, a: nat, b: nat, c: nat, aa: nat, n2: nat, k: nat, j: nat, ghost before: seq<Word>,
                  ghost A0: Poly, ghost A1: Poly, ghost B0: Poly, ghost B1: Poly, ghost L: Poly, ghost H: Poly)
    requires j < n2 && k <= n2 && aa + 3 * n2 <= mem.Length == |before|
    requires Halves(before, a, b, c, n2, k, A0, A1, B0, B1, L, H)
    requires Only(before, mem[..], aa, 3 * n2)
    requires Apart(aa, 3 * n2, a, n2) && Apart(aa, 3 * n2, a + n2, k)
    requires Apart(aa, 3 * n2, b, n2) && Apart(aa, 3 * n2, b + n2, k)
    requires Apart(aa, 3 * n2, c + n2, n2) && Apart(aa, 3 * n2, c + 2 * n2, n2)
    modifies mem
    ensures mem[aa + j] == W(Add(A0, A1), j) && mem[aa + n2 + j] == W(Add(B0, B1), j)
    ensures mem[aa + 2 * n2 + j] == W(Add(L, H), j)
    ensures forall m :: 0 <= m < mem.Length && m != aa + j && m != aa + n2 + j && m != aa + 2 * n2 + j
              ==> mem[m] == old(mem[m])
    ensures Only(before, mem[..], aa, 3 * n2)
  {
    hide W, Add, Held, Apart, Only, Halves;
    var u, v, w := ReadSums(mem, a, b, c, aa, n2, k, j, before, A0, A1, B0, B1, L, H);
    ghost var now := mem[..];
    mem[aa + j] := u;
    mem[aa + n2 + j] := v;
    mem[aa + 2 * n2 + j] := w;
    OnlyThree(before, now, mem[..], aa, n2, j);
  }

  /** The three words that this iteration stores. */
  method ReadSums(mem: array<Word>, a: nat, b: nat, c: nat, aa: nat, n2: nat, k: nat, j: nat, ghost before: seq<Word>,
                  ghost A0: Poly, ghost A1: Poly, ghost B0: Poly, ghost B1: Poly, ghost L: Poly, ghost H: Poly)
      returns (u: Word, v: Word, w: Word)
    requires j < n2 && k <= n2 && aa + 3 * n2 <= mem.Length == |before|
    requires Halves(before, a, b, c, n2, k, A0, A1, B0, B1, L, H)
    requires Only(before, mem[..], aa, 3 * n2)
    requires Apart(aa, 3 * n2, a, n2) && Apart(aa, 3 * n2, a + n2, k)
    requires Apart(aa, 3 * n2, b, n2) && Apart(aa, 3 * n2, b + n2, k)
    requires Apart(aa, 3 * n2, c + n2, n2) && Apart(aa, 3 * n2, c + 2 * n2, n2)
    ensures u == W(Add(A0, A1), j) && v == W(Add(B0, B1), j) && w == W(Add(L, H), j)
  {
    hide W, Add, Fits, Xor, Held, Apart, Only;
    WordKept(mem, before, a, n2, A0, j, aa, 3 * n2);
    WordKept(mem, before, b, n2, B0, j, aa, 3 * n2);
    WordKept(mem, before, c + n2, n2, L, j, aa, 3 * n2);
    WordKept(mem, before, c + 2 * n2, n2, H, j, aa, 3 * n2);
    WAdd(L, H, j);
    u, v, w := mem[a + j], mem[b + j], Xor(mem[c + n2 + j], mem[c + 2 * n2 + j]);
    if j < k {
      WordKept(mem, before, a + n2, k, A1, j, aa, 3 * n2);
      WordKept(mem, before, b + n2, k, B1, j, aa, 3 * n2);
      WAdd(A0, A1, j);
      WAdd(B0, B1, j);
      u, v := Xor(u, mem[a + n2 + j]), Xor(v, mem[b + n2 + j]);
    } else {
      WAddBeyond(A0, A1, k, j);
      WAddBeyond(B0, B1, k, j);
    }
  }

  /** aa = a0 + a1, bb = b0 + b1, cc = high half of the low product + low half of the high one. */
  method SumHalves(mem: array<Word>, a: nat, b: nat, c: nat, aa: nat, n2: nat, d: nat,
                   ghost A0: Poly, ghost A1: Poly, ghost B0: Poly, ghost B1: Poly, ghost L: Poly, ghost H: Poly)
    requires d <= 1 && 2 * d <= n2 && aa + 3 * n2 <= mem.Length
    requires Halves(mem[..], a, b, c, n2, n2 - d, A0, A1, B0, B1, L, H)
    requires Apart(aa, 3 * n2, a, n2) && Apart(aa, 3 * n2, a + n2, n2 - d)
    requires Apart(aa, 3 * n2, b, n2) && Apart(aa, 3 * n2, b + n2, n2 - d)
    requires Apart(aa, 3 * n2, c + n2, n2) && Apart(aa, 3 * n2, c + 2 * n2, n2)
    modifies mem
    ensures Held(mem[..], aa, n2, Add(A0, A1)) && Held(mem[..], aa + n2, n2, Add(B0, B1))
    ensures Held(mem[..], aa + 2 * n2, n2, Add(L, H))
    ensures Only(old(mem[..]), mem[..], aa, 3 * n2)
  {
    hide W, Add, Fits, Xor, Apart, Held, Halves, Only;
    ghost var before := mem[..];
    HeldNone(before, aa, Add(A0, A1));
    HeldNone(before, aa + n2, Add(B0, B1));
    HeldNone(before, aa + 2 * n2, Add(L, H));
    OnlySame(before, aa, 3 * n2);
    var j := 0;
    while j < n2
      invariant 0 <= j <= n2
      invariant Held(mem[..], aa, j, Add(A0, A1)) && Held(mem[..], aa + n2, j, Add(B0, B1))
      invariant Held(mem[..], aa + 2 * n2, j, Add(L, H))
      invariant Only(before, mem[..], aa, 3 * n2)
    {
      ghost var now := mem[..];
      SumWords(mem, a, b, c, aa, n2, n2 - d, j, before, A0, A1, B0, B1, L, H);
      Grow(mem, now, aa, j, Add(A0, A1));
      Grow(mem, now, aa + n2, j, Add(B0, B1));
      Grow(mem, now, aa + 2 * n2, j, Add(L, H));
      j := j + 1;
    }
  }

  lemma WAddBeyond(P: Poly, Q: Poly, n: nat, j: nat)
    requires Fits(Q, n) && n <= j
    ensures W(Add(P, Q), j) == W(P, j) == W(Add(Q, P), j)
  {
    hide WordAt, Add, W;
    WAdd(P, Q, j);
    WAdd(Q, P, j);
    WBeyond(Q, n, j);
    XorEmptyLeft(W(P, j));
  }

  /** The words of the recombined product. */
  lemma RecombinedWord(L: Poly, M: Poly, H: Poly, k: nat, d: nat, j: nat)
    requires 2 * d <= k && j < k && Fits(L, 2 * k) && Fits(M, 2 * k) && Fits(H, 2 * (k - d))
    ensures var R := Recombined(L, M, H, k);
      var t := Xor(W(L, k + j), W(H, j));
      && W(R, j) == W(L, j)
      && W(R, k + j) == Xor(W(M, j), Xor(t, W(L, j)))
      && W(R, 2 * k + j) == Xor(W(M, k + j), Xor(t, W(H, k + j)))
      && W(R, 3 * k + j) == W(H, k + j)
      && (j >= k - 2 * d ==> W(R, 2 * k + j) == Xor(W(M, k + j), t))
  {
    hide WordAt, Add, W, Y, Xor, Fits;
    RecombinedAt(L, M, H, k, j);
    RecombinedAt(L, M, H, k, k + j);
    RecombinedAt(L, M, H, k, 2 * k + j);
    RecombinedAt(L, M, H, k, 3 * k + j);
    FitsLess(H, 2 * (k - d), 2 * k);
    WOutside(L, 2 * k, 2 * k + j);
    WOutside(L, 2 * k, 3 * k + j);
    WOutside(M, 2 * k, 2 * k + j);
    WOutside(H, 2 * k, 2 * k + j);
    WOutside(H, 2 * (k - d), k + j);
    NegativeWords(L, M, H, k, j);
    Rearrange(W(L, k + j), W(L, j), W(M, j), W(H, j));
    Rearrange2(W(L, k + j), W(M, k + j), W(H, j), W(H, k + j));
  }

  lemma FitsLess(P: Poly, n: nat, m: nat)
    requires Fits(P, n) && n <= m
    ensures Fits(P, m)
  {
  }

  lemma WOutside(P: Poly, n: nat, j: nat)
    requires Fits(P, n)
    ensures n <= j ==> W(P, j) == {}
  {
    if n <= j {
      WBeyond(P, n, j);
    }
  }

  lemma NegativeWords(L: Poly, M: Poly, H: Poly, k: nat, j: nat)
    requires j < k
    ensures W(M, j - k) == W(L, j - k) == W(H, j - k) == W(H, j - 2 * k) == W(H, k + j - 2 * k) == {}
  {
  }

  lemma RecombinedAt(L: Poly, M: Poly, H: Poly, k: nat, j: nat)
    ensures W(Recombined(L, M, H, k), j)
         == Xor(W(L, j), Xor(Xor(W(M, j - k), Xor(W(L, j - k), W(H, j - k))), W(H, j - 2 * k)))
  {
    hide WordAt, Add, W, Y;
    var mid := Add(M, Add(L, H));
    WAdd(L, Add(Y(mid, k), Y(H, 2 * k)), j);
    WAdd(Y(mid, k), Y(H, 2 * k), j);
    WY(mid, k, j);
    WY(H, 2 * k, j);
    WAdd(M, Add(L, H), j - k);
    WAdd(L, H, j - k);
  }

  lemma Rearrange(lh: Word, l: Word, m: Word, h: Word)
    ensures Xor(lh, Xor(Xor(m, Xor(l, h)), {})) == Xor(m, Xor(Xor(lh, h), l))
    ensures Xor(l, Xor(Xor({}, Xor({}, {})), {})) == l
  {
    hide Add;
  }

  lemma Rearrange2(lh: Word, mh: Word, h: Word, hh: Word)
    ensures Xor({}, Xor(Xor(mh, Xor(lh, hh)), h)) == Xor(mh, Xor(Xor(lh, h), hh))
    ensures Xor({}, Xor(Xor({}, Xor({}, {})), hh)) == hh
    ensures hh == {} ==> Xor(mh, Xor(Xor(lh, h), hh)) == Xor(mh, Xor(lh, h))
  {
    hide Add;
  }

  /** The three products as they lie in the content s before they are combined. */
  ghost predicate Quarters(s: seq<Word>, c: nat, cc: nat, n2: nat, d: nat, L: Poly, M: Poly, H: Poly) {
    && d <= 1 && 2 * d <= n2 && c + 4 * n2 - 2 * d <= |s|
    && Fits(L, 2 * n2) && Fits(M, 2 * n2) && Fits(H, 2 * (n2 - d))
    && Held(s, c, n2, L) && Held(s, c + n2, 2 * n2, M) && Held(s, c + 3 * n2, n2 - 2 * d, High(H, 64 * n2))
    && Held(s, cc, n2, Add(High(L, 64 * n2), H))
  }

  /** What word j of the loop reads, which no earlier iteration has written. */
  lemma QuarterWords(mem: array<Word>, s: seq<Word>, c: nat, cc: nat, n2: nat, d: nat, j: nat, L: Poly, M: Poly,
                     H: Poly)
    requires Quarters(s, c, cc, n2, d, L, M, H) && j < n2 && Apart(c, 4 * n2 - 2 * d, cc, n2)
    requires Only2(s, mem[..], c + n2, j, c + 2 * n2, j)
    ensures c + 4 * n2 - 2 * d <= mem.Length == |s| && cc + n2 <= mem.Length
    ensures mem[c + j] == W(L, j) && mem[c + n2 + j] == W(M, j) && mem[c + 2 * n2 + j] == W(M, n2 + j)
    ensures j < n2 - 2 * d ==> mem[c + 3 * n2 + j] == W(H, n2 + j)
    ensures mem[cc + j] == Xor(W(L, n2 + j), W(H, j))
  {
    hide W, High, Add, Fits, Xor;
    assert mem[..][c + j] == s[c + j];
    assert mem[..][c + n2 + j] == s[c + n2 + j];
    assert mem[..][c + 2 * n2 + j] == s[c + 2 * n2 + j];
    assert mem[..][cc + j] == s[cc + j];
    WAdd(High(L, 64 * n2), H, j);
    WHigh(L, n2, j);
    if j < n2 - 2 * d {
      assert mem[..][c + 3 * n2 + j] == s[c + 3 * n2 + j];
      WHigh(H, n2, j);
    }
  }

  /** Adds what is missing from word j of the two middle quarters. */
  method CombineWords(mem: array<Word>, c: nat, cc: nat, n2: nat, d: nat, j: nat, ghost before: seq<Word>,
                      ghost L: Poly, ghost M: Poly, ghost H: Poly)
    requires Quarters(before, c, cc, n2, d, L, M, H) && j < n2 && Apart(c, 4 * n2 - 2 * d, cc, n2)
    requires Only2(before, mem[..], c + n2, j, c + 2 * n2, j)
    modifies mem
    ensures mem.Length == |before|
    ensures mem[c + n2 + j] == W(Recombined(L, M, H, n2), n2 + j)
    ensures mem[c + 2 * n2 + j] == W(Recombined(L, M, H, n2), 2 * n2 + j)
    ensures forall m :: 0 <= m < mem.Length && m != c + n2 + j && m != c + 2 * n2 + j ==> mem[m] == old(mem[m])
  {
    hide W, Recombined, Fits, Xor, High, Add, Held, Only2;
    QuarterWords(mem, before, c, cc, n2, d, j, L, M, H);
    RecombinedWord(L, M, H, n2, d, j);
    var c1, c2, c3 := c + n2, c + 2 * n2, c + 3 * n2;
    if j < n2 - 2 * d {
      var t := mem[cc + j];
      mem[c1 + j] := Xor(mem[c1 + j], Xor(t, mem[c + j]));
      mem[c2 + j] := Xor(mem[c2 + j], Xor(t, mem[c3 + j]));
    } else {
      mem[c1 + j] := Xor(mem[c1 + j], Xor(mem[cc + j], mem[c + j]));
      mem[c2 + j] := Xor(mem[c2 + j], mem[cc + j]);
    }
  }

  lemma OnlyTwo(s: seq<Word>, t: seq<Word>, u: seq<Word>, p: nat, q: nat, j: nat)
    requires p + j < |t| == |u| && q + j < |t| && Only2(s, t, p, j, q, j)
    requires forall i :: 0 <= i < |t| && i != p + j && i != q + j ==> u[i] == t[i]
    ensures Only2(s, u, p, j + 1, q, j + 1)
  {
  }

  /** Adds what is missing from the middle half of the product. */
  method CombineHalves(mem: array<Word>, c: nat, cc: nat, n2: nat, d: nat, ghost L: Poly, ghost M: Poly, ghost H: Poly)
    requires Quarters(mem[..], c, cc, n2, d, L, M, H) && Apart(c, 4 * n2 - 2 * d, cc, n2)
    modifies mem
    ensures Held(mem[..], c, 4 * n2 - 2 * d, Recombined(L, M, H, n2))
    ensures Only(old(mem[..]), mem[..], c, 4 * n2 - 2 * d)
  {
    hide W, High, Add, Recombined, Fits, Xor, Held, Only, Only2, Apart;
    ghost var before := mem[..];
    ghost var R := Recombined(L, M, H, n2);
    ghost var R1, R2 := High(R, 64 * n2), High(R, 64 * (2 * n2));
    HeldNone(before, c + n2, R1);
    HeldNone(before, c + 2 * n2, R2);
    Only2Same(before, c + n2, 0, c + 2 * n2, 0);
    var j := 0;
    while j < n2
      invariant 0 <= j <= n2
      invariant Held(mem[..], c + n2, j, R1) && Held(mem[..], c + 2 * n2, j, R2)
      invariant Only2(before, mem[..], c + n2, j, c + 2 * n2, j)
    {
      ghost var now := mem[..];
      CombineWords(mem, c, cc, n2, d, j, before, L, M, H);
      WHigh(R, n2, j);
      WHigh(R, 2 * n2, j);
      Grow(mem, now, c + n2, j, R1);
      Grow(mem, now, c + 2 * n2, j, R2);
      OnlyTwo(before, now, mem[..], c + n2, c + 2 * n2, j);
      j := j + 1;
    }
    CombinedHeld(before, mem[..], c, cc, n2, d, L, M, H);
  }

  lemma CombinedHeld(s: seq<Word>, t: seq<Word>, c: nat, cc: nat, n2: nat, d: nat, L: Poly, M: Poly, H: Poly)
    requires Quarters(s, c, cc, n2, d, L, M, H) && Only2(s, t, c + n2, n2, c + 2 * n2, n2)
    requires Held(t, c + n2, n2, High(Recombined(L, M, H, n2), 64 * n2))
    requires Held(t, c + 2 * n2, n2, High(Recombined(L, M, H, n2), 64 * (2 * n2)))
    ensures Held(t, c, 4 * n2 - 2 * d, Recombined(L, M, H, n2)) && Only(s, t, c, 4 * n2 - 2 * d)
  {
    hide W, Recombined, Fits, Xor, High, Add;
    var R := Recombined(L, M, H, n2);
    forall i | c <= i < c + 4 * n2 - 2 * d
      ensures t[i] == W(R, i - c)
    {
      if i < c + n2 {
        RecombinedWord(L, M, H, n2, d, i - c);
      } else if i < c + 2 * n2 {
        WHigh(R, n2, i - c - n2);
      } else if i < c + 3 * n2 {
        WHigh(R, 2 * n2, i - c - 2 * n2);
      } else {
        RecombinedWord(L, M, H, n2, d, i - c - 3 * n2);
        WHigh(H, n2, i - c - 3 * n2);
      }
    }
  }

  // ---------------------------------------------------------------- the routine

  /** The caller's side of gf2x_mul_kara: the result and the scratch space overlap
      neither each other nor the operands. */
  predicate Layout(c: nat, cn: nat, a: nat, b: nat, n: nat, stk: nat, space: nat) {
    && Apart(c, cn, a, n) && Apart(c, cn, b, n)
    && Apart(stk, space, a, n) && Apart(stk, space, b, n) && Apart(stk, space, c, cn)
  }

  lemma OuterLayout(c: nat, a: nat, b: nat, n2: nat, d: nat, stk: nat, s: nat, s': nat)
    requires d <= 1 && 2 * d <= n2 && s' <= s
    requires Layout(c, 4 * n2 - 2 * d, a, b, 2 * n2 - d, stk, 3 * n2 + s)
    ensures Layout(c, 2 * n2, a, b, n2, stk + 3 * n2, s)
    ensures Layout(c + 2 * n2, 2 * (n2 - d), a + n2, b + n2, n2 - d, stk + 3 * n2, s')
    ensures Apart(c + 2 * n2, 2 * (n2 - d), c, 2 * n2) && Apart(stk + 3 * n2, s', c, 2 * n2)
  {
  }

  lemma SumLayout(c: nat, a: nat, b: nat, n2: nat, d: nat, stk: nat, s: nat)
    requires d <= 1 && 2 * d <= n2
    requires Layout(c, 4 * n2 - 2 * d, a, b, 2 * n2 - d, stk, 3 * n2 + s)
    ensures Apart(stk, 3 * n2, a, n2) && Apart(stk, 3 * n2, a + n2, n2 - d)
    ensures Apart(stk, 3 * n2, b, n2) && Apart(stk, 3 * n2, b + n2, n2 - d)
    ensures Apart(stk, 3 * n2, c + n2, n2) && Apart(stk, 3 * n2, c + 2 * n2, n2)
    ensures Apart(stk, 3 * n2, c, 2 * n2) && Apart(stk, 3 * n2, c + 2 * n2, 2 * (n2 - d))
  {
  }

  lemma MiddleLayout(c: nat, n2: nat, d: nat, stk: nat, s: nat)
    requires d <= 1 && 2 * d <= n2 && Apart(stk, 3 * n2 + s, c, 4 * n2 - 2 * d)
    ensures Layout(c + n2, 2 * n2, stk, stk + n2, n2, stk + 3 * n2, s)
    ensures Apart(c + n2, 2 * n2, c, n2) && Apart(stk + 3 * n2, s, c, n2)
    ensures Apart(c + n2, 2 * n2, c + 3 * n2, n2 - 2 * d) && Apart(stk + 3 * n2, s, c + 3 * n2, n2 - 2 * d)
    ensures Apart(c + n2, 2 * n2, stk + 2 * n2, n2) && Apart(stk + 3 * n2, s, stk + 2 * n2, n2)
    ensures Apart(c, 4 * n2 - 2 * d, stk + 2 * n2, n2)
  {
  }

  lemma KaraSizes(t: Tuning, n: nat)
    requires t.Valid() && n >= t.kara
    ensures var n2 := (n + 1) / 2; var d := n % 2;
      && n == 2 * n2 - d && 2 * d <= n2 && 0 < n2 - d && n2 < n
      && KaraSpace(t, n) == 3 * n2 + KaraSpace(t, n2) && KaraSpace(t, n2 - d) <= KaraSpace(t, n2)
  {
    KaraSpaceMonotone(t, (n + 1) / 2 - n % 2, (n + 1) / 2);
  }

  /** {c, 2n} <- {a, n} * {b, n}; a length of zero is read as one word. */
  method MulKara(t: Tuning, mem: array<Word>, c: nat, a: nat, b: nat, n: nat, stk: nat, ghost A: Poly, ghost B: Poly)
    requires t.Valid() && c + 2 * Count(n) <= mem.Length && stk + KaraSpace(t, n) <= mem.Length
    requires Held(mem[..], a, Count(n), A) && Held(mem[..], b, Count(n), B) && Fits(A, Count(n)) && Fits(B, Count(n))
    requires Layout(c, 2 * Count(n), a, b, Count(n), stk, KaraSpace(t, n))
    modifies mem
    ensures Held(mem[..], c, 2 * Count(n), Mul(A, B))
    ensures Only2(old(mem[..]), mem[..], c, 2 * Count(n), stk, KaraSpace(t, n))
    decreases n, 1
  {
    hide Mul, W, Fits, Held, Only2, Apart, KaraSpace;
    if n < t.kara {
      MulSmall(mem, c, a, b, n, A, B);
      OnlyEither(old(mem[..]), mem[..], c, 2 * Count(n), stk, KaraSpace(t, n));
    } else {
      KaraSizes(t, n);
      MulHalves(t, mem, c, a, b, (n + 1) / 2, n % 2, stk, A, B);
    }
  }

  lemma OnlyEither(s: seq<Word>, t: seq<Word>, p: nat, n: nat, q: nat, m: nat)
    requires Only(s, t, p, n)
    ensures Only2(s, t, p, n, q, m)
  {
  }

  /** The call of gf2x_mul_basecase below the threshold. */
  method MulSmall(mem: array<Word>, c: nat, a: nat, b: nat, n: nat, ghost A: Poly, ghost B: Poly)
    requires n < 10 && c + 2 * Count(n) <= mem.Length
    requires Held(mem[..], a, Count(n), A) && Held(mem[..], b, Count(n), B) && Fits(A, Count(n)) && Fits(B, Count(n))
    requires Apart(c, 2 * Count(n), a, Count(n)) && Apart(c, 2 * Count(n), b, Count(n))
    modifies mem
    ensures Held(mem[..], c, 2 * Count(n), Mul(A, B))
    ensures Only(old(mem[..]), mem[..], c, 2 * Count(n))
  {
    hide Mul, W, Fits, Held, Holds, Apart;
    HoldsHeld(mem, a, Count(n), A);
    HoldsHeld(mem, b, Count(n), B);
    var ok := MulBasecase(mem, c, a, n, b, n, A, B);
    HoldsHeld(mem, c, 2 * Count(n), Mul(A, B));
  }

  /** The three recursive products and their combination, for n = 2 * n2 - d words. */
  method MulHalves(t: Tuning, mem: array<Word>, c: nat, a: nat, b: nat, n2: nat, d: nat, stk: nat,
                   ghost A: Poly, ghost B: Poly)
    requires t.Valid() && d <= 1 && 2 * d <= n2 && 0 < n2 - d && KaraSpace(t, n2 - d) <= KaraSpace(t, n2)
    requires c + 4 * n2 - 2 * d <= mem.Length && stk + 3 * n2 + KaraSpace(t, n2) <= mem.Length
    requires Held(mem[..], a, 2 * n2 - d, A) && Held(mem[..], b, 2 * n2 - d, B) && Fits(A, 2 * n2 - d)
      && Fits(B, 2 * n2 - d)
    requires Layout(c, 4 * n2 - 2 * d, a, b, 2 * n2 - d, stk, 3 * n2 + KaraSpace(t, n2))
    modifies mem
    ensures Held(mem[..], c, 4 * n2 - 2 * d, Mul(A, B))
    ensures Only2(old(mem[..]), mem[..], c, 4 * n2 - 2 * d, stk, 3 * n2 + KaraSpace(t, n2))
    decreases 2 * n2 - d, 0
  {
    hide Mul, W, High, Low, Add, Recombined, Fits, Held, Only, Only2, Apart, KaraSpace, Inside;
    ghost var n, cn, s := 2 * n2 - d, 4 * n2 - 2 * d, KaraSpace(t, n2);
    ghost var sn := 3 * n2 + s;
    ghost var A0, A1, B0, B1 := Low(A, 64 * n2), High(A, 64 * n2), Low(B, 64 * n2), High(B, 64 * n2);
    ghost var L, H, M := Mul(A0, B0), Mul(A1, B1), Mul(Add(A0, A1), Add(B0, B1));
    ghost var s0 := mem[..];
    HalvesInside(c, n2, d, stk, s, KaraSpace(t, n2 - d));
    OuterLayout(c, a, b, n2, d, stk, s, KaraSpace(t, n2 - d));
    Only2Same(s0, c, cn, stk, sn);

    OperandHalves(s0, s0, a, n, n2, A, c, cn, stk, sn);
    OperandHalves(s0, s0, b, n, n2, B, c, cn, stk, sn);
    MulKara(t, mem, c, a, b, n2, stk + 3 * n2, A0, B0);
    ghost var s1 := mem[..];
    Only2Then(s0, s0, s1, c, cn, stk, sn, c, 2 * n2, stk + 3 * n2, s);

    OperandHalves(s0, s1, a, n, n2, A, c, cn, stk, sn);
    OperandHalves(s0, s1, b, n, n2, B, c, cn, stk, sn);
    MulKara(t, mem, c + 2 * n2, a + n2, b + n2, n2 - d, stk + 3 * n2, A1, B1);
    ghost var s2 := mem[..];
    HeldKept2(s1, s2, c, 2 * n2, L, c + 2 * n2, 2 * (n2 - d), stk + 3 * n2, KaraSpace(t, n2 - d));
    Only2Then(s0, s1, s2, c, cn, stk, sn, c + 2 * n2, 2 * (n2 - d), stk + 3 * n2, KaraSpace(t, n2 - d));

    OperandHalves(s0, s2, a, n, n2, A, c, cn, stk, sn);
    OperandHalves(s0, s2, b, n, n2, B, c, cn, stk, sn);
    MulMiddle(t, mem, c, a, b, n2, d, stk, A0, A1, B0, B1);
    OnlyThen2(s0, s2, mem[..], c, cn, stk, sn);
    KaraIdentity(A0, A1, B0, B1, n2);
  }

  lemma OnlyThen2(s: seq<Word>, t: seq<Word>, u: seq<Word>, p: nat, n: nat, q: nat, m: nat)
    requires Only2(s, t, p, n, q, m) && Only2(t, u, p, n, q, m)
    ensures Only2(s, u, p, n, q, m)
  {
  }

  /** The regions that the three products and the loops write. */
  lemma HalvesInside(c: nat, n2: nat, d: nat, stk: nat, s: nat, s': nat)
    requires d <= 1 && 2 * d <= n2 && s' <= s
    ensures var cn := 4 * n2 - 2 * d; var sn := 3 * n2 + s;
      && Inside(c, 2 * n2, c, cn, stk, sn) && Inside(stk + 3 * n2, s, c, cn, stk, sn)
      && Inside(c + 2 * n2, 2 * (n2 - d), c, cn, stk, sn) && Inside(stk + 3 * n2, s', c, cn, stk, sn)
      && Inside(stk, 3 * n2, c, cn, stk, sn) && Inside(c + n2, 2 * n2, c, cn, stk, sn) && Inside(c, cn, c, cn, stk, sn)
  {
  }

  /** The halves of an operand while only result and scratch space have been written. */
  lemma OperandHalves(s: seq<Word>, t: seq<Word>, a: nat, n: nat, n2: nat, A: Poly, p: nat, pn: nat, q: nat, qn: nat)
    requires n2 <= n && Held(s, a, n, A) && Fits(A, n) && Only2(s, t, p, pn, q, qn) && Apart(p, pn, a, n)
      && Apart(q, qn, a, n)
    ensures Held(t, a, n2, Low(A, 64 * n2)) && Held(t, a + n2, n - n2, High(A, 64 * n2))
    ensures Fits(Low(A, 64 * n2), n2) && Fits(High(A, 64 * n2), n - n2)
    ensures A == Add(Low(A, 64 * n2), Y(High(A, 64 * n2), n2))
  {
    hide W, High, Low, Add, Fits, Held, Only2, Apart;
    HeldKept2(s, t, a, n, A, p, pn, q, qn);
    SplitHeld(t, a, n, n2, A);
  }

  /** The sums of halves, the middle product and the combination. */
  method MulMiddle(t: Tuning, mem: array<Word>, c: nat, a: nat, b: nat, n2: nat, d: nat, stk: nat,
                   ghost A0: Poly, ghost A1: Poly, ghost B0: Poly, ghost B1: Poly)
    requires t.Valid() && d <= 1 && 2 * d <= n2 && 0 < n2 - d
    requires c + 4 * n2 - 2 * d <= mem.Length && stk + 3 * n2 + KaraSpace(t, n2) <= mem.Length
    requires Held(mem[..], a, n2, A0) && Held(mem[..], a + n2, n2 - d, A1) && Fits(A0, n2) && Fits(A1, n2 - d)
    requires Held(mem[..], b, n2, B0) && Held(mem[..], b + n2, n2 - d, B1) && Fits(B0, n2) && Fits(B1, n2 - d)
    requires Held(mem[..], c, 2 * n2, Mul(A0, B0)) && Held(mem[..], c + 2 * n2, 2 * (n2 - d), Mul(A1, B1))
    requires Layout(c, 4 * n2 - 2 * d, a, b, 2 * n2 - d, stk, 3 * n2 + KaraSpace(t, n2))
    modifies mem
    ensures Held(mem[..], c, 4 * n2 - 2 * d,
                 Recombined(Mul(A0, B0), Mul(Add(A0, A1), Add(B0, B1)), Mul(A1, B1), n2))
    ensures Only2(old(mem[..]), mem[..], c, 4 * n2 - 2 * d, stk, 3 * n2 + KaraSpace(t, n2))
    decreases n2, 2
  {
    hide Mul, W, High, Low, Add, Recombined, Fits, Held, Only, Only2, Apart, KaraSpace, Inside;
    ghost var n, cn, s := 2 * n2 - d, 4 * n2 - 2 * d, KaraSpace(t, n2);
    ghost var sn := 3 * n2 + s;
    ghost var L, H, M := Mul(A0, B0), Mul(A1, B1), Mul(Add(A0, A1), Add(B0, B1));
    ghost var s0 := mem[..];
    HalvesInside(c, n2, d, stk, s, s);
    SumLayout(c, a, b, n2, d, stk, s);
    MiddleLayout(c, n2, d, stk, s);
    FitsMul(A0, B0, n2, n2);
    FitsMul(A1, B1, n2 - d, n2 - d);
    FitsLess(A1, n2 - d, n2);
    FitsLess(B1, n2 - d, n2);
    FitsAdd(A0, A1, n2);
    FitsAdd(B0, B1, n2);
    FitsMul(Add(A0, A1), Add(B0, B1), n2, n2);

    SplitHeld(s0, c, 2 * n2, n2, L);
    HeldPrefix(s0, c + 2 * n2, 2 * (n2 - d), H, n2);
    SumHalves(mem, a, b, c, stk, n2, d, A0, A1, B0, B1, High(L, 64 * n2), H);
    ghost var s1 := mem[..];
    HeldKept(s0, s1, c, 2 * n2, L, stk, 3 * n2);
    HeldKept(s0, s1, c + 2 * n2, 2 * (n2 - d), H, stk, 3 * n2);
    HeldPrefix(s1, c, 2 * n2, L, n2);
    SplitHeld(s1, c + 2 * n2, 2 * (n2 - d), n2, H);
    Only2Same(s0, c, cn, stk, sn);
    OnlyThen(s0, s0, s1, c, cn, stk, sn, stk, 3 * n2);

    MulKara(t, mem, c + n2, stk, stk + n2, n2, stk + 3 * n2, Add(A0, A1), Add(B0, B1));
    ghost var s2 := mem[..];
    HeldKept2(s1, s2, c, n2, L, c + n2, 2 * n2, stk + 3 * n2, s);
    HeldKept2(s1, s2, c + 3 * n2, n2 - 2 * d, High(H, 64 * n2), c + n2, 2 * n2, stk + 3 * n2, s);
    HeldKept2(s1, s2, stk + 2 * n2, n2, Add(High(L, 64 * n2), H), c + n2, 2 * n2, stk + 3 * n2, s);
    Only2Then(s0, s1, s2, c, cn, stk, sn, c + n2, 2 * n2, stk + 3 * n2, s);

    CombineHalves(mem, c, stk + 2 * n2, n2, d, L, M, H);
    OnlyThen(s0, s2, mem[..], c, cn, stk, sn, c, cn);
  }
}
