/** What recompose of gf2x-1.1/fft.c computes from the blocks and from the words that happen to lie
    behind them: the sum of the blocks, spoilt where a block is read past its residue. */
module Blocks {
  import opened Numbers
  import opened Polynomials
  import opened FftAlgebra
  import opened Words
  import opened ResidueWords

  /** The first bit of block i. */
  function BlockStart(i: nat, M: nat): nat {
    NonNegative(i, M);
    i * M
  }

  /** The word behind the residue of a block that begins at bit pos is read, because the block before
      it reaches one word further. */
  predicate ReadsBehind(M: nat, Np: nat, cn: nat, pos: nat)
    requires M <= 2 * Np
  {
    && WordsFor(pos % 64 + 2 * Np - M) > WordsFor(2 * Np)
    && pos / 64 + WordsFor(2 * Np) < cn
  }

  /** No block is read past its residue. */
  predicate BlocksClear(M: nat, Np: nat, K: nat, cn: nat)
    requires M <= 2 * Np
  {
    forall i: nat {:trigger BlockStart(i, M)} | i < K :: 1 <= i ==> !ReadsBehind(M, Np, cn, BlockStart(i, M))
  }

  /** Blocks of at least one word are safe. */
  lemma LongBlocksClear(M: nat, Np: nat, K: nat, cn: nat)
    requires 64 <= M <= 2 * Np
    ensures BlocksClear(M, Np, K, cn)
  {
    hide WordsFor;
  }

  // ---------------------------------------------------------------- what is read behind a block

  /** The bits of a from bit n on. */
  function From(a: Poly, n: nat): (r: Poly)
    ensures forall i {:trigger i in r} :: i in r <==> i in a && n <= i
  {
    set i | i in a && n <= i
  }

  /** A block lies in 2 W(Np) words.  If the residue fills them, the word behind it is the first word of
      the next block, otherwise any word x[i]. */
  function Behind(C: seq<Poly>, x: seq<Word>, Np: nat, i: nat): Word
    requires i < |C| == |x|
  {
    if WordsFor(2 * Np) == 2 * WordsFor(Np) && i + 1 < |C| then WordAt(C[i + 1], 0) else x[i]
  }

  /** The word w behind a residue that begins at bit pos is added to the word that it begins in, ... */
  function StrayLow(w: Word, Np: nat, pos: nat): Poly {
    Low(Shift(w, 64 * WordsFor(2 * Np) + pos), 64 * (pos / 64 + WordsFor(2 * Np) + 1))
  }

  /** ... and to the next word, until that word is written by another block. */
  function StrayHigh(w: Word, Np: nat, pos: nat): Poly {
    From(Shift(w, 64 * WordsFor(2 * Np) + pos), 64 * (pos / 64 + WordsFor(2 * Np) + 1))
  }

  predicate Spoilt(M: nat, Np: nat, cn: nat, i: nat)
    requires M <= 2 * Np
  {
    1 <= i && ReadsBehind(M, Np, cn, BlockStart(i, M))
  }

  /** What the first n blocks have added too much. */
  function Strays(C: seq<Poly>, x: seq<Word>, M: nat, Np: nat, cn: nat, n: nat): Poly
    requires |C| == |x| && n <= |C| && M <= 2 * Np
  {
    if n == 0 then {} else
      Add(Strays(C, x, M, Np, cn, n - 1),
        if Spoilt(M, Np, cn, n - 1) then StrayLow(Behind(C, x, Np, n - 1), Np, BlockStart(n - 1, M)) else {})
  }

  /** What they have left in the word behind their sum. */
  function Pending(C: seq<Poly>, x: seq<Word>, M: nat, Np: nat, cn: nat, n: nat): Poly
    requires |C| == |x| && n <= |C| && M <= 2 * Np
  {
    if n == 0 || !Spoilt(M, Np, cn, n - 1) then {} else
      Add(Pending(C, x, M, Np, cn, n - 1), StrayHigh(Behind(C, x, Np, n - 1), Np, BlockStart(n - 1, M)))
  }

  /** The cn words that recompose leaves. */
  function Assembled(C: seq<Poly>, x: seq<Word>, M: nat, Np: nat, cn: nat): Poly
    requires |C| == |x| && M <= 2 * Np
  {
    Low(Add(Add(EvalAt(C, M), Strays(C, x, M, Np, cn, |C|)), Pending(C, x, M, Np, cn, |C|)), 64 * cn)
  }

  // ---------------------------------------------------------------- when the sum is right

  lemma ClearAt(M: nat, Np: nat, K: nat, cn: nat, i: nat)
    requires M <= 2 * Np && BlocksClear(M, Np, K, cn) && i < K
    ensures !Spoilt(M, Np, cn, i)
  {
    hide ReadsBehind, BlockStart;
  }

  lemma {:induction false} NoStrays(C: seq<Poly>, x: seq<Word>, M: nat, Np: nat, cn: nat, n: nat)
    requires |C| == |x| && n <= |C| && M <= 2 * Np && BlocksClear(M, Np, |C|, cn)
    ensures Strays(C, x, M, Np, cn, n) == {} && Pending(C, x, M, Np, cn, n) == {}
    decreases n
  {
    hide Spoilt, StrayLow, StrayHigh, Behind, BlockStart, BlocksClear;
    if n > 0 {
      NoStrays(C, x, M, Np, cn, n - 1);
      ClearAt(M, Np, |C|, cn, n - 1);
    }
  }

  /** If no block is read past its residue the words behind do not matter. */
  lemma AssembledClear(C: seq<Poly>, x: seq<Word>, M: nat, Np: nat, cn: nat)
    requires |C| == |x| && M <= 2 * Np && BlocksClear(M, Np, |C|, cn)
    ensures Assembled(C, x, M, Np, cn) == Low(EvalAt(C, M), 64 * cn)
  {
    hide Strays, Pending, EvalAt, BlocksClear, Low;
    NoStrays(C, x, M, Np, cn, |C|);
    assert Add(Add(EvalAt(C, M), {}), {}) == EvalAt(C, M);
  }

  lemma {:induction false} StraysFrom(C: seq<Poly>, x: seq<Word>, M: nat, Np: nat, cw: nat, cn: nat, n: nat)
    requires |C| == |x| && n <= |C| && M <= 2 * Np && cn <= cw && BlocksClear(M, Np, |C|, cn)
    ensures forall b :: b in Strays(C, x, M, Np, cw, n) || b in Pending(C, x, M, Np, cw, n) ==> 64 * cn <= b
    decreases n
  {
    hide Spoilt, StrayLow, StrayHigh, Behind, BlockStart, BlocksClear;
    if n > 0 {
      StraysFrom(C, x, M, Np, cw, cn, n - 1);
      if Spoilt(M, Np, cw, n - 1) {
        var w, pos := Behind(C, x, Np, n - 1), BlockStart(n - 1, M);
        SpoiltFrom(w, M, Np, |C|, cw, cn, n - 1);
        EitherFrom(Strays(C, x, M, Np, cw, n - 1), StrayLow(w, Np, pos), 64 * cn);
        EitherFrom(Pending(C, x, M, Np, cw, n - 1), StrayHigh(w, Np, pos), 64 * cn);
      } else {
        EitherFrom(Strays(C, x, M, Np, cw, n - 1), {}, 64 * cn);
      }
    }
  }

  lemma EitherFrom(P: Poly, Q: Poly, n: nat)
    requires forall b :: b in P || b in Q ==> n <= b
    ensures forall b :: b in Add(P, Q) ==> n <= b
  {
  }

  lemma SpoiltFrom(w: Word, M: nat, Np: nat, K: nat, cw: nat, cn: nat, i: nat)
    requires M <= 2 * Np && cn <= cw && BlocksClear(M, Np, K, cn) && i < K && Spoilt(M, Np, cw, i)
    ensures forall b :: b in StrayLow(w, Np, BlockStart(i, M)) || b in StrayHigh(w, Np, BlockStart(i, M))
              ==> 64 * cn <= b
  {
    hide BlockStart, WordsFor, Low, BlocksClear;
    ClearAt(M, Np, K, cn, i);
  }

  /** If no block is read too far in the cn lowest words, they are right whatever lies behind. */
  lemma AssembledLow(C: seq<Poly>, x: seq<Word>, M: nat, Np: nat, cw: nat, cn: nat)
    requires |C| == |x| && M <= 2 * Np && cn <= cw && BlocksClear(M, Np, |C|, cn)
    ensures Low(Assembled(C, x, M, Np, cw), 64 * cn) == Low(EvalAt(C, M), 64 * cn)
  {
    hide Strays, Pending, EvalAt, BlocksClear, Low, Add;
    StraysFrom(C, x, M, Np, cw, cn, |C|);
    var E, S, P := EvalAt(C, M), Strays(C, x, M, Np, cw, |C|), Pending(C, x, M, Np, cw, |C|);
    forall b: nat
      ensures b in Low(Assembled(C, x, M, Np, cw), 64 * cn) <==> b in Low(E, 64 * cn)
    {
      assert b in Add(Add(E, S), P) <==> (b in Add(E, S)) != (b in P);
    }
  }

  /** One bit behind block j and nothing behind the other blocks that are read too far. */
  ghost predicate OneBit(C: seq<Poly>, x: seq<Word>, M: nat, Np: nat, cn: nat, j: nat)
    requires |C| == |x| && M <= 2 * Np
  {
    forall i: nat :: i < |C| && Spoilt(M, Np, cn, i) ==> Behind(C, x, Np, i) == if i == j then {0} else {}
  }

  lemma {:induction false} OneStray(C: seq<Poly>, x: seq<Word>, M: nat, Np: nat, cn: nat, j: nat, n: nat)
    requires |C| == |x| && n <= |C| && M <= 2 * Np && j < |C| && Spoilt(M, Np, cn, j) && OneBit(C, x, M, Np, cn, j)
    ensures Strays(C, x, M, Np, cn, n) == if j < n then {64 * WordsFor(2 * Np) + BlockStart(j, M)} else {}
    ensures Pending(C, x, M, Np, cn, n) == {}
    decreases n
  {
    hide Spoilt, StrayLow, StrayHigh, Behind, BlockStart, WordsFor, OneBit;
    if n > 0 {
      OneStray(C, x, M, Np, cn, j, n - 1);
      if Spoilt(M, Np, cn, n - 1) {
        BitBehind(C, x, M, Np, cn, j, n - 1);
        StrayBit(Np, BlockStart(n - 1, M));
      }
    }
  }

  lemma BitBehind(C: seq<Poly>, x: seq<Word>, M: nat, Np: nat, cn: nat, j: nat, i: nat)
    requires |C| == |x| && M <= 2 * Np && OneBit(C, x, M, Np, cn, j) && i < |C| && Spoilt(M, Np, cn, i)
    ensures Behind(C, x, Np, i) == if i == j then {0} else {}
  {
    hide Spoilt, Behind;
  }

  lemma StrayBit(Np: nat, pos: nat)
    ensures StrayLow({0}, Np, pos) == {64 * WordsFor(2 * Np) + pos} && StrayHigh({0}, Np, pos) == {}
    ensures StrayLow({}, Np, pos) == {} && StrayHigh({}, Np, pos) == {}
  {
    hide WordsFor;
  }

  /** The position of the word behind block j in the sum. */
  function StrayStart(j: nat, M: nat, Np: nat): nat {
    64 * WordsFor(2 * Np) + BlockStart(j, M)
  }

  /** One such bit is all that is wrong with the sum. */
  lemma AssembledOne(C: seq<Poly>, x: seq<Word>, M: nat, Np: nat, cn: nat, j: nat)
    requires |C| == |x| && M <= 2 * Np && j < |C| && Spoilt(M, Np, cn, j) && OneBit(C, x, M, Np, cn, j)
    ensures StrayStart(j, M, Np) < 64 * cn
    ensures Assembled(C, x, M, Np, cn) == Low(Add(EvalAt(C, M), {StrayStart(j, M, Np)}), 64 * cn)
  {
    hide EvalAt, WordsFor, Low, Add, Strays, Pending;
    var b := StrayStart(j, M, Np);
    OneStray(C, x, M, Np, cn, j, |C|);
    assert Add(Add(EvalAt(C, M), {b}), {}) == Add(EvalAt(C, M), {b});
  }

  /** It makes the sum wrong. */
  lemma AssembledWrong(C: seq<Poly>, x: seq<Word>, M: nat, Np: nat, cn: nat, j: nat)
    requires |C| == |x| && M <= 2 * Np && j < |C| && Spoilt(M, Np, cn, j) && OneBit(C, x, M, Np, cn, j)
    ensures Assembled(C, x, M, Np, cn) != Low(EvalAt(C, M), 64 * cn)
  {
    hide EvalAt, Low, Add, Assembled, StrayStart, OneBit, Spoilt;
    var b := StrayStart(j, M, Np);
    AssembledOne(C, x, M, Np, cn, j);
    assert b in Add(EvalAt(C, M), {b}) <==> b !in EvalAt(C, M);
    assert b in Assembled(C, x, M, Np, cn) <==> b !in Low(EvalAt(C, M), 64 * cn);
  }

  /** What lies behind block i does not reach bit b. */
  predicate Misses(C: seq<Poly>, x: seq<Word>, M: nat, Np: nat, cn: nat, i: nat, b: nat)
    requires |C| == |x| && i < |C| && M <= 2 * Np
  {
    Spoilt(M, Np, cn, i) ==>
      Behind(C, x, Np, i) == {} || b < StrayStart(i, M, Np) || 64 * (BlockStart(i, M) / 64 + WordsFor(2 * Np) + 1) <= b
  }

  lemma {:induction false} StraysMiss(C: seq<Poly>, x: seq<Word>, M: nat, Np: nat, cn: nat, n: nat, b: nat)
    requires |C| == |x| && n <= |C| && M <= 2 * Np && forall i: nat :: i < n ==> Misses(C, x, M, Np, cn, i, b)
    ensures b !in Strays(C, x, M, Np, cn, n)
    decreases n
  {
    hide Spoilt, StrayLow, Behind, BlockStart, Misses, StrayStart;
    if n > 0 {
      StraysMiss(C, x, M, Np, cn, n - 1, b);
      if Spoilt(M, Np, cn, n - 1) {
        StrayMisses(C, x, M, Np, cn, n - 1, b);
      }
    }
  }

  lemma StrayMisses(C: seq<Poly>, x: seq<Word>, M: nat, Np: nat, cn: nat, i: nat, b: nat)
    requires |C| == |x| && i < |C| && M <= 2 * Np && Misses(C, x, M, Np, cn, i, b) && Spoilt(M, Np, cn, i)
    ensures b !in StrayLow(Behind(C, x, Np, i), Np, BlockStart(i, M))
  {
    hide Spoilt, Behind, BlockStart, WordsFor, Low, Shift;
    var w, e := Behind(C, x, Np, i), StrayStart(i, M, Np);
    assert b in Shift(w, e) <==> e <= b && b - e in w;
  }

  lemma {:induction false} NothingPending(C: seq<Poly>, x: seq<Word>, M: nat, Np: nat, cn: nat, n: nat)
    requires |C| == |x| && n <= |C| && M <= 2 * Np
    requires n == 0 || !Spoilt(M, Np, cn, n - 1) || forall i: nat :: i < n ==> Behind(C, x, Np, i) == {}
    ensures Pending(C, x, M, Np, cn, n) == {}
    decreases n
  {
    hide Spoilt, StrayHigh, Behind, BlockStart;
    if n > 0 && Spoilt(M, Np, cn, n - 1) {
      NothingPending(C, x, M, Np, cn, n - 1);
      NothingStrays(Np, BlockStart(n - 1, M));
    }
  }

  lemma NothingStrays(Np: nat, pos: nat)
    ensures StrayHigh({}, Np, pos) == {}
  {
    hide WordsFor;
    StrayBit(Np, pos);
  }

  /** A bit that is missed is right. */
  lemma AssembledMissed(C: seq<Poly>, x: seq<Word>, M: nat, Np: nat, cn: nat, b: nat)
    requires |C| == |x| && C != [] && M <= 2 * Np && b < 64 * cn
      && forall i: nat :: i < |C| ==> Misses(C, x, M, Np, cn, i, b)
    requires !Spoilt(M, Np, cn, |C| - 1) || forall i: nat :: i < |C| ==> Behind(C, x, Np, i) == {}
    ensures b in Assembled(C, x, M, Np, cn) <==> b in EvalAt(C, M)
  {
    hide EvalAt, Low, Add, Strays, Pending, Misses, Spoilt, Behind;
    StraysMiss(C, x, M, Np, cn, |C|, b);
    NothingPending(C, x, M, Np, cn, |C|);
    var E, S := EvalAt(C, M), Strays(C, x, M, Np, cn, |C|);
    assert b in Add(Add(E, S), {}) <==> b in Add(E, S);
  }

  // ---------------------------------------------------------------- the lowest word

  lemma {:induction false} StraysAbove(C: seq<Poly>, x: seq<Word>, M: nat, Np: nat, cn: nat, n: nat)
    requires |C| == |x| && n <= |C| && M <= 2 * Np && 0 < Np
    ensures 0 !in Strays(C, x, M, Np, cn, n) && 0 !in Pending(C, x, M, Np, cn, n)
    decreases n
  {
    hide Spoilt, StrayLow, StrayHigh, Behind, BlockStart;
    if n > 0 {
      StraysAbove(C, x, M, Np, cn, n - 1);
      StrayAbove(Behind(C, x, Np, n - 1), Np, BlockStart(n - 1, M));
    }
  }

  lemma StrayAbove(w: Word, Np: nat, pos: nat)
    requires 0 < Np
    ensures 0 !in StrayLow(w, Np, pos) && 0 !in StrayHigh(w, Np, pos)
  {
    hide Low;
  }

  /** Bit 0 of the sum is always right. */
  lemma LowestBit(C: seq<Poly>, x: seq<Word>, M: nat, Np: nat, cn: nat)
    requires |C| == |x| && M <= 2 * Np && 0 < Np && 0 < cn && 0 < M && C != []
    ensures 0 in Assembled(C, x, M, Np, cn) <==> 0 in C[0]
  {
    hide Strays, Pending, Low, Add;
    StraysAbove(C, x, M, Np, cn, |C|);
  }
}
