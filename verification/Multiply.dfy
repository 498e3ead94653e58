/** The top-level product gf2x_mul_r of gf2x-1.1/gf2x.c: base case, FFT, balanced and
    unbalanced Toom-Cook, or the Euclid-like loop over slices of the long operand. */
module Multiply {
  import opened Numbers
  import opened Polynomials
  import opened Words
  import opened WordMemory
  import opened BaseCase
  import opened ToomSpace
  import opened ToomAlgebra
  import opened Karatsuba
  import opened ToomLoops
  import opened Toom
  import opened ToomUnbalanced
  import FftMul
  import FftEntry

  /** The table of transform lengths; off when the FFT has not been tuned. */
  datatype FftTable = FftTable(enabled: bool, threshold: nat, length: nat -> int)

  predicate UsesFft(f: FftTable, sc: nat) {
    f.enabled && sc >= f.threshold && f.length(sc / 2) != 0 && f.length(sc / 2) != 1
  }

  /** The table holds lengths that gf2x_mul_fft accepts and for which it is right. */
  ghost predicate ValidTable(f: FftTable) {
    forall sc: nat {:trigger UsesFft(f, sc)} :: UsesFft(f, sc) ==>
      FftEntry.LengthAccepted(f.length(sc / 2), sc) && FftMul.MUL_FFT_THRESHOLD <= sc
        && FftEntry.LengthRight(f.length(sc / 2), sc)
  }

  // ---------------------------------------------------------------- scratch space

  /** The pool that gf2x_mul_r reserves. */
  function PoolSize(t: Tuning, sa: nat): nat {
    var u, v := USpace(t, 2 * sa), 2 * sa + Space(t, sa);
    if u < v then v else u
  }

  lemma USpaceMonotone(t: Tuning, n: nat, m: nat)
    requires n <= m
    ensures USpace(t, n) <= USpace(t, m)
  {
    hide Space;
    SpaceMonotone(t, n / 4 + 4, m / 4 + 4);
  }

  // ---------------------------------------------------------------- slices

  lemma ApartInside(c: nat, cn: nat, p: nat, n: nat, a: nat, an: nat, b: nat, bn: nat)
    requires Inside(p, n, a, an, b, bn) && Apart(c, cn, a, an) && Apart(c, cn, b, bn)
    ensures Apart(c, cn, p, n)
  {
  }

  /** dst += B x y^off, a row with its carry. */
  method AddRowAt(mem: array<Word>, dst: nat, ghost sc: nat, off: nat, b: nat, sb: nat, x: Word, ghost P: Poly,
                  ghost B: Poly)
    requires 0 < sb && off + sb + 1 <= sc && Held(mem[..], dst, sc, P) && Held(mem[..], b, sb, B) && Fits(B, sb)
    requires Apart(dst, sc, b, sb)
    modifies mem
    ensures Held(mem[..], dst, sc, Add(P, Y(Mul(B, x), off))) && Only(old(mem[..]), mem[..], dst, sc)
  {
    hide W, Mul, Fits, Held, Holds, Only, Add, Y, High, Xor, Apart;
    ghost var s0 := mem[..];
    HeldSize(s0, dst, sc, P);
    SplitHeld(s0, dst, sc, off, P);
    HeldPrefix(s0, dst + off, sc - off, High(P, 64 * off), sb);
    HoldsHeld(mem, dst + off, sb, High(P, 64 * off));
    HoldsHeld(mem, b, sb, B);
    RowApart(dst, sc, off, b, sb);
    var cy := AddMul1N(mem, dst + off, dst + off, b, sb, x, High(P, 64 * off), B);
    ghost var s1 := mem[..];
    HoldsHeld(mem, dst + off, sb, Add(High(P, 64 * off), Mul(B, x)));
    mem[dst + off + sb] := Xor(mem[dst + off + sb], cy);
    RowHeld(s0, s1, mem[..], dst, sc, off, sb, x, P, B, cy);
  }

  lemma RowApart(dst: nat, sc: nat, off: nat, b: nat, sb: nat)
    requires Apart(dst, sc, b, sb) && off + sb + 1 <= sc
    ensures Apart(dst + off, sb, b, sb)
  {
  }

  lemma RowHeld(s: seq<Word>, t: seq<Word>, u: seq<Word>, dst: nat, sc: nat, off: nat, sb: nat, x: Word, P: Poly,
                B: Poly, cy: Word)
    requires off + sb + 1 <= sc && Held(s, dst, sc, P) && Fits(B, sb) && |s| == |t| && cy == W(Mul(B, x), sb)
    requires forall i :: 0 <= i < |s| && !(dst + off <= i < dst + off + sb) ==> t[i] == s[i]
    requires Held(t, dst + off, sb, Add(High(P, 64 * off), Mul(B, x)))
    requires dst + off + sb < |t| && u == t[dst + off + sb := Xor(t[dst + off + sb], cy)]
    ensures Held(u, dst, sc, Add(P, Y(Mul(B, x), off))) && Only(s, u, dst, sc)
  {
    hide W, Mul, Fits, Add, Y, High, Xor;
    var R := Mul(B, x);
    WordFits(x);
    FitsMul(B, x, sb, 1);
    forall i | dst <= i < dst + sc
      ensures u[i] == W(Add(P, Y(R, off)), i - dst)
    {
      var j := i - dst;
      WAdd(P, Y(R, off), j);
      WY(R, off, j);
      Beyond(R, sb + 1, j - off);
      XorEmptyLeft(W(P, j));
      if off <= j < off + sb {
        WAdd(High(P, 64 * off), R, j - off);
        WHigh(P, off, j - off);
      }
    }
  }

  lemma OneWord(A: Poly)
    requires Fits(A, 1)
    ensures A == W(A, 0)
  {
    hide W;
    FirstWord(A);
    LowIsAll(A, 1);
  }

  /** dst += a * {b, i} slice by slice, for the largest multiple i of sa up to sb. */
  method AddSlices(t: Tuning, mem: array<Word>, dst: nat, ghost sc: nat, off: nat, a: nat, sa: nat, b: nat, sb: nat,
                   stk: nat, v: nat, ghost space: nat, ghost pn: nat, ghost P: Poly, ghost A: Poly, ghost B: Poly)
                   returns (i: nat)
    requires t.Valid() && 0 < sa <= sb && off + sa + sb <= sc && Space(t, sa) <= space
    requires v == stk + space && space + 2 * sa <= pn && stk + pn <= mem.Length
    requires Held(mem[..], dst, sc, P) && Held(mem[..], a, sa, A) && Held(mem[..], b, sb, B) && Fits(A, sa)
      && Fits(B, sb)
    requires LayoutU(dst, sc, a, sa, b, sb, stk, pn)
    modifies mem
    ensures i <= sb && sb - i < sa
    ensures Held(mem[..], dst, sc, Add(P, Y(Mul(A, Low(B, 64 * i)), off)))
    ensures Only2(old(mem[..]), mem[..], dst, sc, stk, pn)
  {
    hide W, Mul, Fits, Held, Only, Only2, Add, Y, High, Low, Apart, Space, Inside, LayoutU;
    ghost var s0 := mem[..];
    NoSlice(P, A, B, off);
    Only2Same(s0, dst, sc, stk, pn);
    i := 0;
    while i + sa <= sb
      invariant 0 <= i <= sb
      invariant Held(mem[..], dst, sc, Add(P, Y(Mul(A, Low(B, 64 * i)), off)))
      invariant Only2(s0, mem[..], dst, sc, stk, pn)
    {
      ghost var s1 := mem[..];
      ghost var D := Add(P, Y(Mul(A, Low(B, 64 * i)), off));
      ghost var S := Low(High(B, 64 * i), 64 * sa);
      SliceLayout(dst, sc, a, sa, b, sb, stk, pn, v, space, i);
      SliceHeld(s0, s1, a, sa, b, sb, i, A, B, dst, sc, stk, pn);
      MulToom(t, mem, v, a, b + i, sa, stk, space, A, S);
      ghost var s2 := mem[..];
      HeldKept2(s1, s2, dst, sc, D, v, 2 * sa, stk, space);
      Only2Then(s0, s1, s2, dst, sc, stk, pn, v, 2 * sa, stk, space);
      FitsMul(A, S, sa, sa);
      AddShifted(mem, dst, sc, v, 2 * sa, off + i, D, Mul(A, S));
      OnlyThen(s0, s2, mem[..], dst, sc, stk, pn, dst, sc);
      NextSlice(P, A, B, off, i, sa);
      i := i + sa;
    }
  }

  lemma NoSlice(P: Poly, A: Poly, B: Poly, off: nat)
    ensures Add(P, Y(Mul(A, Low(B, 64 * 0)), off)) == P
  {
    hide Mul, Add, Shift;
    assert Low(B, 0) == {};
    MulZero(A);
    assert Shift({}, 64 * off) == {};
    AddNothing(P);
  }

  lemma LowSlice(B: Poly, i: nat, n: nat)
    ensures Low(B, 64 * (i + n)) == Add(Low(B, 64 * i), Y(Low(High(B, 64 * i), 64 * n), i))
  {
    hide Low, High, Shift, Add;
    var h := High(B, 64 * i);
    var S := Low(h, 64 * n);
    forall b: nat
      ensures b in Low(B, 64 * (i + n)) <==> b in Add(Low(B, 64 * i), Y(S, i))
    {
      if 64 * i <= b {
        assert b in Y(S, i) <==> b - 64 * i in S;
        assert b - 64 * i in h <==> b in B;
      }
    }
  }

  lemma NextSlice(P: Poly, A: Poly, B: Poly, off: nat, i: nat, n: nat)
    ensures Add(P, Y(Mul(A, Low(B, 64 * (i + n))), off))
         == Add(Add(P, Y(Mul(A, Low(B, 64 * i)), off)), Y(Mul(A, Low(High(B, 64 * i), 64 * n)), off + i))
  {
    hide Mul, Add, Y, Low, High;
    var L, S := Low(B, 64 * i), Low(High(B, 64 * i), 64 * n);
    LowSlice(B, i, n);
    MulAdd(A, L, Y(S, i));
    MulY(S, A, i);
    MulComm(A, Y(S, i));
    MulComm(A, S);
    YAdd(Mul(A, L), Y(Mul(A, S), i), off);
    YY(Mul(A, S), i, off);
    AddRight(P, Y(Mul(A, L), off), Y(Mul(A, S), off + i));
  }

  lemma SliceLayout(dst: nat, sc: nat, a: nat, sa: nat, b: nat, sb: nat, stk: nat, pn: nat, v: nat, space: nat, i: nat)
    requires LayoutU(dst, sc, a, sa, b, sb, stk, pn) && v == stk + space && space + 2 * sa <= pn && i + sa <= sb
    ensures Layout(v, 2 * sa, a, b + i, sa, stk, space)
    ensures Apart(v, 2 * sa, dst, sc) && Apart(stk, space, dst, sc) && Apart(dst, sc, v, 2 * sa)
    ensures Inside(v, 2 * sa, dst, sc, stk, pn) && Inside(stk, space, dst, sc, stk, pn)
      && Inside(dst, sc, dst, sc, stk, pn)
  {
  }

  lemma SliceHeld(s: seq<Word>, t: seq<Word>, a: nat, sa: nat, b: nat, sb: nat, i: nat, A: Poly, B: Poly, dst: nat,
                  sc: nat, stk: nat, pn: nat)
    requires i + sa <= sb && Held(s, a, sa, A) && Held(s, b, sb, B) && Fits(B, sb) && Only2(s, t, dst, sc, stk, pn)
    requires LayoutU(dst, sc, a, sa, b, sb, stk, pn)
    ensures var S := Low(High(B, 64 * i), 64 * sa); Held(t, a, sa, A) && Held(t, b + i, sa, S) && Fits(S, sa)
  {
    hide W, Fits, Held, Only2, Low, High, Apart, Add, Y;
    HeldKept2(s, t, a, sa, A, dst, sc, stk, pn);
    HeldKept2(s, t, b, sb, B, dst, sc, stk, pn);
    SplitHeld(t, b, sb, i, B);
    SplitHeld(t, b + i, sb - i, sa, High(B, 64 * i));
  }

  // ---------------------------------------------------------------- the Euclid-like loop

  /** What is left of the product once the low slices of the long operand have been used. */
  lemma SwapStep(P: Poly, A: Poly, B: Poly, off: nat, i: nat)
    ensures Add(Add(P, Y(Mul(A, Low(B, 64 * i)), off)), Y(Mul(High(B, 64 * i), A), off + i))
      == Add(P, Y(Mul(A, B), off))
  {
    hide Mul, Add, Y, Low, High;
    var L, H := Low(B, 64 * i), High(B, 64 * i);
    LowHigh(B, i);
    MulAdd(A, L, Y(H, i));
    MulY(H, A, i);
    MulComm(A, Y(H, i));
    YAdd(Mul(A, L), Y(Mul(H, A), i), off);
    YY(Mul(H, A), i, off);
    AddRight(P, Y(Mul(A, L), off), Y(Mul(H, A), off + i));
  }

  lemma StartProduct(A: Poly, B: Poly)
    ensures Add(ZERO, Y(Mul(A, B), 0)) == Mul(A, B)
  {
    hide Mul, Add, Shift;
    AddNothing(Y(Mul(A, B), 0));
    assert Shift(Mul(A, B), 0) == Mul(A, B);
  }

  lemma EmptyProduct(P: Poly, A: Poly, B: Poly, off: nat)
    requires Fits(A, 0)
    ensures Add(P, Y(Mul(A, B), off)) == P
  {
    hide Mul, Add, Shift;
    assert A == {};
    MulZero(B);
    assert Shift({}, 64 * off) == {};
    AddNothing(P);
  }

  /** A slice of one operand or the other: the pointers a and b of the loop. */
  ghost predicate Slice(s: seq<Word>, p: nat, n: nat, P: Poly, a: nat, an: nat, b: nat, bn: nat) {
    Held(s, p, n, P) && Fits(P, n) && Inside(p, n, a, an, b, bn)
  }

  lemma SliceNow(s: seq<Word>, t: seq<Word>, p: nat, n: nat, P: Poly, a: nat, an: nat, b: nat, bn: nat,
                 dst: nat, sc: nat, stk: nat, pn: nat)
    requires Slice(s, p, n, P, a, an, b, bn) && Only2(s, t, dst, sc, stk, pn) && LayoutU(dst, sc, a, an, b, bn, stk, pn)
    ensures Held(t, p, n, P) && Fits(P, n) && Apart(dst, sc, p, n) && Apart(stk, pn, p, n)
  {
    hide W, Fits, Held, Only2, Apart, Inside;
    ApartInside(dst, sc, p, n, a, an, b, bn);
    ApartInside(stk, pn, p, n, a, an, b, bn);
    HeldKept2(s, t, p, n, P, dst, sc, stk, pn);
  }

  lemma SliceRest(s: seq<Word>, p: nat, n: nat, P: Poly, i: nat, a: nat, an: nat, b: nat, bn: nat)
    requires Slice(s, p, n, P, a, an, b, bn) && i <= n
    ensures Slice(s, p + i, n - i, High(P, 64 * i), a, an, b, bn)
  {
    hide W, Fits, Held, Low, High, Add, Y;
    SplitHeld(s, p, n, i, P);
  }

  /** {dst, sa + sb} <- {a, sa} * {b, sb} by balanced products of ever shorter slices: the
      remainder of the long operand and the short operand change roles until one is used up. */
  method MulUnbalanced(t: Tuning, mem: array<Word>, dst: nat, a0: nat, sa0: nat, b0: nat, sb0: nat, stk: nat,
                       space: nat, ghost pn: nat, ghost A: Poly, ghost B: Poly)
    requires t.Valid() && 0 < sa0 <= sb0 && space == Space(t, sa0) && space + 2 * sa0 <= pn
    requires dst + sa0 + sb0 <= mem.Length && stk + pn <= mem.Length
    requires Held(mem[..], a0, sa0, A) && Held(mem[..], b0, sb0, B) && Fits(A, sa0) && Fits(B, sb0)
    requires LayoutU(dst, sa0 + sb0, a0, sa0, b0, sb0, stk, pn)
    modifies mem
    ensures Held(mem[..], dst, sa0 + sb0, Mul(A, B)) && Only2(old(mem[..]), mem[..], dst, sa0 + sb0, stk, pn)
  {
    hide W, Mul, Fits, Held, Only, Only2, Add, Y, High, Low, Apart, Space, LayoutU, Slice;
    var sc := sa0 + sb0;
    ghost var s0 := mem[..];
    var a: nat, sa: nat, b: nat, sb: nat, off: nat := a0, sa0, b0, sb0, 0;
    ghost var S, L, P := A, B, ZERO;
    HeldNone(s0, dst, ZERO);
    FitsZero(0);
    Extend(mem, dst, 0, sc, ZERO);
    Only2Same(s0, dst, sc, stk, pn);
    OnlyThen(s0, s0, mem[..], dst, sc, stk, pn, dst, sc);
    FirstSlices(s0, a0, sa0, A, b0, sb0, B);
    StartProduct(A, B);
    while sa > 1
      invariant sa <= sb && 0 < sb && sa <= sa0 && off + sa + sb <= sc
      invariant Slice(s0, a, sa, S, a0, sa0, b0, sb0) && Slice(s0, b, sb, L, a0, sa0, b0, sb0)
      invariant Held(mem[..], dst, sc, P) && Add(P, Y(Mul(S, L), off)) == Mul(A, B)
      invariant Only2(s0, mem[..], dst, sc, stk, pn)
      decreases sa
    {
      ghost var s1 := mem[..];
      SliceNow(s0, s1, a, sa, S, a0, sa0, b0, sb0, dst, sc, stk, pn);
      SliceNow(s0, s1, b, sb, L, a0, sa0, b0, sb0, dst, sc, stk, pn);
      SlicesLayout(dst, sc, a, sa, b, sb, a0, sa0, b0, sb0, stk, pn);
      SpaceMonotone(t, sa, sa0);
      var i := AddSlices(t, mem, dst, sc, off, a, sa, b, sb, stk, stk + space, space, pn, P, S, L);
      OnlyThen2(s0, s1, mem[..], dst, sc, stk, pn);
      SwapStep(P, S, L, off, i);
      SliceRest(s0, b, sb, L, i, a0, sa0, b0, sb0);
      P := Add(P, Y(Mul(S, Low(L, 64 * i)), off));
      S, L := High(L, 64 * i), S;
      a, sa, b, sb := b + i, sb - i, a, sa;
      off := off + i;
    }
    ghost var s1 := mem[..];
    SliceNow(s0, s1, a, sa, S, a0, sa0, b0, sb0, dst, sc, stk, pn);
    SliceNow(s0, s1, b, sb, L, a0, sa0, b0, sb0, dst, sc, stk, pn);
    if sa == 1 {
      HeldWord(mem, a, 1, S, 0);
      OneWord(S);
      MulComm(S, L);
      AddRowAt(mem, dst, sc, off, b, sb, mem[a], P, L);
      OnlyThen(s0, s1, mem[..], dst, sc, stk, pn, dst, sc);
    } else {
      EmptyProduct(P, S, L, off);
    }
  }

  lemma FirstSlices(s: seq<Word>, a: nat, sa: nat, A: Poly, b: nat, sb: nat, B: Poly)
    requires Held(s, a, sa, A) && Held(s, b, sb, B) && Fits(A, sa) && Fits(B, sb)
    ensures Slice(s, a, sa, A, a, sa, b, sb) && Slice(s, b, sb, B, a, sa, b, sb)
  {
    hide Held, Fits;
  }

  lemma SlicesLayout(dst: nat, sc: nat, a: nat, sa: nat, b: nat, sb: nat, a0: nat, sa0: nat, b0: nat, sb0: nat,
                     stk: nat, pn: nat)
    requires LayoutU(dst, sc, a0, sa0, b0, sb0, stk, pn)
    requires Apart(dst, sc, a, sa) && Apart(stk, pn, a, sa) && Apart(dst, sc, b, sb) && Apart(stk, pn, b, sb)
    ensures LayoutU(dst, sc, a, sa, b, sb, stk, pn)
  {
    hide Apart;
  }

  // ---------------------------------------------------------------- the choice of the routine

  /** The routines that do not allow the result to overlap an operand, for kara <= sa <= sb. */
  method MulApart(t: Tuning, mem: array<Word>, dst: nat, a: nat, sa: nat, b: nat, sb: nat, stk: nat, ghost A: Poly,
                  ghost B: Poly)
    requires t.Valid() && 0 < sa <= sb && dst + sa + sb <= mem.Length && stk + PoolSize(t, sa) <= mem.Length
    requires Held(mem[..], a, sa, A) && Held(mem[..], b, sb, B) && Fits(A, sa) && Fits(B, sb)
    requires LayoutU(dst, sa + sb, a, sa, b, sb, stk, PoolSize(t, sa))
    modifies mem
    ensures Held(mem[..], dst, sa + sb, Mul(A, B)) && Only2(old(mem[..]), mem[..], dst, sa + sb, stk, PoolSize(t, sa))
  {
    hide W, Mul, Fits, Held, Only, Only2, Apart, Space, USpace;
    ghost var pn := PoolSize(t, sa);
    if sa == sb {
      MulToom(t, mem, dst, a, b, sa, stk, pn, A, B);
    } else if sa == (sb + 1) / 2 && t.BestUToom(sb) {
      USpaceMonotone(t, sb, 2 * sa);
      MulComm(A, B);
      MulTc3u(t, mem, dst, b, sb, a, stk, pn, B, A);
    } else {
      var space := ToomSpace.ToomSpace(t, sa);
      MulUnbalanced(t, mem, dst, a, sa, b, sb, stk, space, pn, A, B);
    }
  }

  /** {dst, n} <- {src, n}. */
  method CopyWords(mem: array<Word>, dst: nat, src: nat, n: nat, ghost P: Poly)
    requires Held(mem[..], src, n, P) && dst + n <= mem.Length && Apart(dst, n, src, n)
    modifies mem
    ensures Held(mem[..], dst, n, P) && Only(old(mem[..]), mem[..], dst, n)
  {
    hide W, Held, Only, Wrote;
    ghost var before := mem[..];
    HeldNone(before, dst, P);
    OnlySame(before, dst, n);
    var j := 0;
    while j < n
      invariant 0 <= j <= n && Held(mem[..], dst, j, P) && Only(before, mem[..], dst, n) && Held(mem[..], src, n, P)
    {
      ghost var now := mem[..];
      HeldWord(mem, src, n, P, j);
      mem[dst + j] := mem[src + j];
      WroteTwo(now, mem[..], dst + j, dst + j);
      WroteGrow(now, mem[..], dst + j, dst + j, dst, j, P);
      WroteKeep(now, mem[..], dst + j, dst + j, src, n, P);
      WroteOnly(before, now, mem[..], dst + j, dst + j, dst, n);
      j := j + 1;
    }
  }

  /** The call of gf2x_mul_fft, which has read both operands before it writes the result:
      the result may overlap them. */
  method MulByFft(t: Tuning, f: FftTable, mem: array<Word>, c: nat, a: nat, sa: nat, b: nat, sb: nat, ghost A: Poly,
                  ghost B: Poly)
    requires t.Valid() && ValidTable(f) && 0 < sa && 0 < sb && UsesFft(f, sa + sb) && c + sa + sb <= mem.Length
    requires Held(mem[..], a, sa, A) && Held(mem[..], b, sb, B) && Fits(A, sa) && Fits(B, sb)
    modifies mem
    ensures Held(mem[..], c, sa + sb, Mul(A, B)) && Only(old(mem[..]), mem[..], c, sa + sb)
  {
    hide Mul, Fits, Held, Only, FftEntry.LengthAccepted, FftEntry.LengthRight;
    var r;
    ghost var x1, x2;
    r, x1, x2 := FftEntry.MulFft(t, mem, c, a, sa, b, sb, f.length((sa + sb) / 2), A, B);
  }

  /** Where the product of {a, an} and {b, bn} may go: c is one of the operands, or overlaps
      neither; tmp is the buffer that is allocated when c is one of them. */
  predicate Places(c: nat, a: nat, an: nat, b: nat, bn: nat, stk: nat, pn: nat, tmp: nat) {
    && (if c == a || c == b then Apart(tmp, an + bn, a, an) && Apart(tmp, an + bn, b, bn)
      && Apart(tmp, an + bn, c, an + bn)
        else Apart(c, an + bn, a, an) && Apart(c, an + bn, b, bn))
    && Apart(stk, pn, a, an) && Apart(stk, pn, b, bn) && Apart(stk, pn, c, an + bn) && Apart(stk, pn, tmp, an + bn)
  }

  /** {c, sa + sb} <- {a, sa} * {b, sb}; an operand of no words is read as one word. */
  method MulR(t: Tuning, f: FftTable, mem: array<Word>, c: nat, a: nat, sa: nat, b: nat, sb: nat, stk: nat, tmp: nat,
              ghost A: Poly, ghost B: Poly)
    requires t.Valid() && ValidTable(f)
    requires Held(mem[..], a, Count(sa), A) && Held(mem[..], b, Count(sb), B) && Fits(A, Count(sa))
      && Fits(B, Count(sb))
    requires c + Count(sa) + Count(sb) <= mem.Length && tmp + Count(sa) + Count(sb) <= mem.Length
    requires stk + PoolSize(t, Min(sa, sb)) <= mem.Length
    requires Places(c, a, Count(sa), b, Count(sb), stk, PoolSize(t, Min(sa, sb)), tmp)
    modifies mem
    ensures Held(mem[..], c, Count(sa) + Count(sb), Mul(A, B))
    ensures forall i :: (0 <= i < mem.Length && !(c <= i < c + Count(sa) + Count(sb))
                         && !(stk <= i < stk + PoolSize(t, Min(sa, sb)))
                         && !((c == a || c == b) && tmp <= i < tmp + Count(sa) + Count(sb))) ==> mem[i] == old(mem[i])
    decreases sa > sb
  {
    hide W, Mul, Fits, Held, PoolSize, ValidTable, UsesFft;
    if sa > sb {
      MulComm(A, B);
      MulR(t, f, mem, c, b, sb, a, sa, stk, tmp, B, A);
      return;
    }
    var dst := c;
    if sa < t.kara {
      if dst == a || dst == b {
        dst := tmp;
      }
      MulBase(mem, dst, a, sa, b, sb, A, B);
    } else if UsesFft(f, sa + sb) {
      MulByFft(t, f, mem, c, a, sa, b, sb, A, B);
      return;
    } else {
      if dst == a || dst == b {
        dst := tmp;
      }
      MulApart(t, mem, dst, a, sa, b, sb, stk, A, B);
    }
    if dst != c {
      CopyWords(mem, c, dst, Count(sa) + Count(sb), Mul(A, B));
    }
  }

  /** The base case below the Karatsuba threshold. */
  method MulBase(mem: array<Word>, dst: nat, a: nat, sa: nat, b: nat, sb: nat, ghost A: Poly, ghost B: Poly)
    requires (sa == sb ==> sa <= 9) && dst + Count(sa) + Count(sb) <= mem.Length
    requires Held(mem[..], a, Count(sa), A) && Held(mem[..], b, Count(sb), B) && Fits(A, Count(sa))
      && Fits(B, Count(sb))
    requires Apart(dst, Count(sa) + Count(sb), a, Count(sa)) && Apart(dst, Count(sa) + Count(sb), b, Count(sb))
    modifies mem
    ensures Held(mem[..], dst, Count(sa) + Count(sb), Mul(A, B))
    ensures Only(old(mem[..]), mem[..], dst, Count(sa) + Count(sb))
  {
    hide W, Mul, Fits, Held, Holds, Apart;
    HoldsHeld(mem, a, Count(sa), A);
    HoldsHeld(mem, b, Count(sb), B);
    var ok := MulBasecase(mem, dst, a, sa, b, sb, A, B);
    HoldsHeld(mem, dst, Count(sa) + Count(sb), Mul(A, B));
  }
}
