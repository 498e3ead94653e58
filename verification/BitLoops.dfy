/** The word loops with bit shifts and carries that the bit-aligned Toom-Cook routines
    of gf2x-1.1/toom2.c are made of: additions of multiples and exact divisions. */
module BitLoops {
  import opened Polynomials
  import opened Words
  import opened WordMemory
  import opened BaseCase
  import opened ToomAlgebra
  import opened Karatsuba

  // ---------------------------------------------------------------- words of multiples

  /** Word j of P x^e: the word moved up and the bits carried out of the word below. */
  lemma WShift(P: Poly, e: nat, j: nat)
    requires 0 < e < 64
    ensures W(Shift(P, e), j) == Xor(Shl(W(P, j), e), Shr(W(P, j - 1), 64 - e))
    ensures W(Shift(P, e), j) == Or(Shl(W(P, j), e), Shr(W(P, j - 1), 64 - e))
  {
    hide WordAt, Shift, Shl, Shr;
    var lo, hi := Shl(W(P, j), e), Shr(W(P, j - 1), 64 - e);
    forall b: nat
      ensures b in W(Shift(P, e), j) <==> b in Xor(lo, hi)
      ensures b in W(Shift(P, e), j) <==> b in Or(lo, hi)
    {
      ShiftBit(P, e, j, b);
    }
  }

  lemma BitOf(P: Poly, j: nat, b: nat)
    ensures b < 64 ==> (b in W(P, j) <==> 64 * j + b in P)
    ensures b >= 64 ==> b !in W(P, j)
  {
    hide WordAt;
  }

  lemma BitAt(P: Poly, j: nat, b: nat, i: nat)
    requires b < 64 && i == 64 * j + b
    ensures b in W(P, j) <==> i in P
  {
    hide W;
    BitOf(P, j, b);
  }

  lemma ShiftMember(P: Poly, e: nat, i: nat)
    ensures i in Shift(P, e) <==> e <= i && i - e in P
  {
  }

  lemma ShiftBit(P: Poly, e: nat, j: nat, b: nat)
    requires 0 < e < 64
    ensures b in W(Shift(P, e), j) <==> b < 64 && (if e <= b then b - e in W(P, j) else b + 64 - e in W(P, j - 1))
    ensures b in Shl(W(P, j), e) <==> e <= b < 64 && b - e in W(P, j)
    ensures b in Shr(W(P, j - 1), 64 - e) <==> b < e && b + 64 - e in W(P, j - 1)
  {
    hide W, Shift, Shl, Shr;
    ShlBit(W(P, j), e, b);
    CarriedBit(W(P, j - 1), e, b);
    if b < 64 {
      ShiftedBit(P, e, j, b);
    } else {
      WordBound(W(Shift(P, e), j), b);
    }
  }

  lemma CarriedBit(w: Word, e: nat, b: nat)
    requires 0 < e < 64
    ensures b in Shr(w, 64 - e) <==> b < e && b + 64 - e in w
  {
    hide Shr;
    ShrBit(w, 64 - e, b);
    assert b + (64 - e) == b + 64 - e;
  }

  lemma ShiftedBit(P: Poly, e: nat, j: nat, b: nat)
    requires 0 < e < 64 && b < 64
    ensures b in W(Shift(P, e), j) <==> if e <= b then b - e in W(P, j) else b + 64 - e in W(P, j - 1)
  {
    hide W, Shift;
    var i := 64 * j + b;
    BitAt(Shift(P, e), j, b, i);
    ShiftMember(P, e, i);
    if e <= b {
      BitAt(P, j, b - e, i - e);
    } else if 0 < j {
      BitAt(P, j - 1, b + 64 - e, i - e);
    } else {
      WZero(P, j - 1);
    }
  }

  lemma ShlBit(w: Word, e: nat, b: nat)
    ensures b in Shl(w, e) <==> e <= b < 64 && b - e in w
  {
  }

  lemma ShrBit(w: Word, k: nat, b: nat)
    ensures b in Shr(w, k) <==> b + k < 64 && b + k in w
  {
    if 64 <= b + k {
      WordBound(w, b + k);
    }
  }

  /** Word j of P div x^e. */
  lemma WUnshift(P: Poly, e: nat, j: nat)
    requires 0 < e < 64
    ensures W(High(P, e), j) == Or(Shr(W(P, j), e), Shl(W(P, j + 1), 64 - e))
  {
    hide W, High, Shl, Shr;
    forall b: nat
      ensures b in W(High(P, e), j) <==> b in Or(Shr(W(P, j), e), Shl(W(P, j + 1), 64 - e))
    {
      UnshiftBit(P, e, j, b);
    }
  }

  lemma HighMember(P: Poly, e: nat, i: nat)
    ensures i in High(P, e) <==> i + e in P
  {
  }

  lemma UnshiftBit(P: Poly, e: nat, j: nat, b: nat)
    requires 0 < e < 64
    ensures b in W(High(P, e), j) <==> b < 64 && (if b + e < 64 then b + e in W(P, j) else b + e - 64 in W(P, j + 1))
    ensures b in Shr(W(P, j), e) <==> b + e < 64 && b + e in W(P, j)
    ensures b in Shl(W(P, j + 1), 64 - e) <==> 64 - e <= b < 64 && b + e - 64 in W(P, j + 1)
  {
    hide W, High, Shl, Shr;
    ShrBit(W(P, j), e, b);
    ShlBit(W(P, j + 1), 64 - e, b);
    if b < 64 {
      UnshiftedBit(P, e, j, b);
    } else {
      WordBound(W(High(P, e), j), b);
    }
  }

  lemma UnshiftedBit(P: Poly, e: nat, j: nat, b: nat)
    requires 0 < e < 64 && b < 64
    ensures b in W(High(P, e), j) <==> if b + e < 64 then b + e in W(P, j) else b + e - 64 in W(P, j + 1)
  {
    hide W, High;
    var i := 64 * j + b;
    BitAt(High(P, e), j, b, i);
    HighMember(P, e, i);
    if b + e < 64 {
      BitAt(P, j, b + e, i + e);
    } else {
      BitAt(P, j + 1, b + e - 64, i + e);
    }
  }

  // ---------------------------------------------------------------- additions

  /** c is written over an operand or apart from it. */
  predicate InPlace(c: nat, a: nat, n: nat) {
    c == a || Apart(c, n, a, n)
  }

  /** c = a + b. */
  method AddWords(mem: array<Word>, c: nat, a: nat, b: nat, n: nat, ghost A: Poly, ghost B: Poly)
    requires c + n <= mem.Length && Held(mem[..], a, n, A) && Held(mem[..], b, n, B) && InPlace(c, a, n)
      && InPlace(c, b, n)
    modifies mem
    ensures Held(mem[..], c, n, Add(A, B)) && Only(old(mem[..]), mem[..], c, n)
  {
    hide W, Add, Xor, Held, Rest, Only, Wrote;
    ghost var before := mem[..];
    HeldRest(before, a, n, A);
    HeldRest(before, b, n, B);
    HeldNone(before, c, Add(A, B));
    OnlySame(before, c, n);
    var j := 0;
    while j < n
      invariant 0 <= j <= n && Held(mem[..], c, j, Add(A, B)) && Only(before, mem[..], c, n)
      invariant Rest(mem[..], a, n, A, j) && Rest(mem[..], b, n, B, j)
    {
      ghost var now := mem[..];
      RestWord(mem, a, n, A, j);
      RestWord(mem, b, n, B, j);
      WAdd(A, B, j);
      mem[c + j] := Xor(mem[a + j], mem[b + j]);
      WroteTwo(now, mem[..], c + j, c + j);
      WroteGrow(now, mem[..], c + j, c + j, c, j, Add(A, B));
      WroteRest(now, mem[..], c + j, c + j, a, n, A, j);
      WroteRest(now, mem[..], c + j, c + j, b, n, B, j);
      WroteOnly(before, now, mem[..], c + j, c + j, c, n);
      j := j + 1;
    }
  }

  /** c = c + a + b. */
  method Add3(mem: array<Word>, c: nat, a: nat, b: nat, n: nat, ghost C: Poly, ghost A: Poly, ghost B: Poly)
    requires Held(mem[..], c, n, C) && Held(mem[..], a, n, A) && Held(mem[..], b, n, B) && Apart(c, n, a, n)
      && Apart(c, n, b, n)
    modifies mem
    ensures Held(mem[..], c, n, Add(C, Add(A, B))) && Only(old(mem[..]), mem[..], c, n)
  {
    hide W, Add, Xor, Held, Rest, Only, Wrote;
    ghost var before := mem[..];
    ghost var R := Add(C, Add(A, B));
    HeldRest(before, c, n, C);
    HeldSize(before, c, n, C);
    HeldNone(before, c, R);
    OnlySame(before, c, n);
    var j := 0;
    while j < n
      invariant 0 <= j <= n && Held(mem[..], c, j, R) && Only(before, mem[..], c, n)
      invariant Rest(mem[..], c, n, C, j) && Held(mem[..], a, n, A) && Held(mem[..], b, n, B)
    {
      ghost var now := mem[..];
      RestWord(mem, c, n, C, j);
      HeldWord(mem, a, n, A, j);
      HeldWord(mem, b, n, B, j);
      WAdd(C, Add(A, B), j);
      WAdd(A, B, j);
      mem[c + j] := Xor(mem[c + j], Xor(mem[a + j], mem[b + j]));
      WroteTwo(now, mem[..], c + j, c + j);
      WroteGrow(now, mem[..], c + j, c + j, c, j, R);
      WroteRest(now, mem[..], c + j, c + j, c, n, C, j);
      WroteKeep(now, mem[..], c + j, c + j, a, n, A);
      WroteKeep(now, mem[..], c + j, c + j, b, n, B);
      WroteOnly(before, now, mem[..], c + j, c + j, c, n);
      j := j + 1;
    }
  }

  /** c = c + a + b + d. */
  method Add4(mem: array<Word>, c: nat, a: nat, b: nat, d: nat, n: nat, ghost C: Poly, ghost A: Poly, ghost B: Poly,
              ghost D: Poly)
    requires Held(mem[..], c, n, C) && Held(mem[..], a, n, A) && Held(mem[..], b, n, B) && Held(mem[..], d, n, D)
    requires Apart(c, n, a, n) && Apart(c, n, b, n) && Apart(c, n, d, n)
    modifies mem
    ensures Held(mem[..], c, n, Add(C, Add(Add(A, B), D))) && Only(old(mem[..]), mem[..], c, n)
  {
    hide W, Add, Xor, Held, Rest, Only, Wrote;
    ghost var before := mem[..];
    ghost var R := Add(C, Add(Add(A, B), D));
    HeldRest(before, c, n, C);
    HeldSize(before, c, n, C);
    HeldNone(before, c, R);
    OnlySame(before, c, n);
    var j := 0;
    while j < n
      invariant 0 <= j <= n && Held(mem[..], c, j, R) && Only(before, mem[..], c, n) && Rest(mem[..], c, n, C, j)
      invariant Held(mem[..], a, n, A) && Held(mem[..], b, n, B) && Held(mem[..], d, n, D)
    {
      ghost var now := mem[..];
      RestWord(mem, c, n, C, j);
      HeldWord(mem, a, n, A, j);
      HeldWord(mem, b, n, B, j);
      HeldWord(mem, d, n, D, j);
      WAdd(C, Add(Add(A, B), D), j);
      WAdd(Add(A, B), D, j);
      WAdd(A, B, j);
      mem[c + j] := Xor(mem[c + j], Xor(Xor(mem[a + j], mem[b + j]), mem[d + j]));
      WroteTwo(now, mem[..], c + j, c + j);
      WroteGrow(now, mem[..], c + j, c + j, c, j, R);
      WroteRest(now, mem[..], c + j, c + j, c, n, C, j);
      WroteKeep(now, mem[..], c + j, c + j, a, n, A);
      WroteKeep(now, mem[..], c + j, c + j, b, n, B);
      WroteKeep(now, mem[..], c + j, c + j, d, n, D);
      WroteOnly(before, now, mem[..], c + j, c + j, c, n);
      j := j + 1;
    }
  }

  /** c = a + cy, returning what is not stored: nothing, or cy when there is no word. */
  method Add1(mem: array<Word>, c: nat, a: nat, n: nat, cy: Word, ghost A: Poly) returns (out: Word)
    requires c + n <= mem.Length && Held(mem[..], a, n, A) && Apart(c, n, a, n)
    modifies mem
    ensures Held(mem[..], c, n, Add(A, cy)) && Only(old(mem[..]), mem[..], c, n)
    ensures out == if n > 0 then {} else cy
  {
    hide W, Add, Xor, Held, Only, Wrote;
    ghost var before := mem[..];
    HeldNone(before, c, Add(A, cy));
    OnlySame(before, c, n);
    var j := 0;
    while j < n
      invariant 0 <= j <= n && Held(mem[..], c, j, Add(A, cy)) && Only(before, mem[..], c, n) && Held(mem[..], a, n, A)
    {
      ghost var now := mem[..];
      HeldWord(mem, a, n, A, j);
      WAdd(A, cy, j);
      WordWords(cy, j);
      XorEmptyLeft(W(A, j));
      mem[c + j] := if j == 0 then Xor(mem[a], cy) else mem[a + j];
      WroteTwo(now, mem[..], c + j, c + j);
      WroteGrow(now, mem[..], c + j, c + j, c, j, Add(A, cy));
      WroteKeep(now, mem[..], c + j, c + j, a, n, A);
      WroteOnly(before, now, mem[..], c + j, c + j, c, n);
      j := j + 1;
    }
    out := if n > 0 then {} else cy;
  }

  lemma WordWords(w: Word, j: nat)
    ensures W(w, j) == if j == 0 then w else {}
  {
    WordFits(w);
    if j > 0 {
      WBeyond(w, 1, j);
    } else {
      assert forall b: nat :: b in WordAt(w, 0) <==> b in w;
    }
  }

  // ---------------------------------------------------------------- additions of multiples

  /** What B x^e carries out of n words. */
  function Carry(B: Poly, e: nat, n: nat): Word
    requires e <= 64
  {
    Shr(W(B, n - 1), 64 - e)
  }

  lemma WShiftCarry(P: Poly, e: nat, j: nat)
    requires 0 < e < 64
    ensures W(Shift(P, e), j) == Xor(Shl(W(P, j), e), Carry(P, e, j))
  {
    hide W, Shift, Shl, Shr, Xor;
    WShift(P, e, j);
  }

  lemma ShiftsOfZero(e: nat)
    ensures Shl({}, e) == {} && Shr({}, e) == {}
  {
    hide Shl, Shr;
  }

  lemma CarryIs(A: Poly, B: Poly, e: nat, n: nat)
    requires 0 < e < 64 && Fits(A, n) && Fits(B, n)
    ensures Carry(B, e, n) == W(Add(A, Shift(B, e)), n)
  {
    hide WordAt, W, Shift, Add, Shl, Shr, Fits;
    WAdd(A, Shift(B, e), n);
    WShift(B, e, n);
    WBeyond(A, n, n);
    WBeyond(B, n, n);
    assert Shl({}, e) == {};
    XorEmptyLeft(Carry(B, e, n));
  }

  /** c = a + x^e b, returning the carry: AddLsh1, AddLsh2 and AddLsh6. */
  method AddLsh(mem: array<Word>, c: nat, a: nat, b: nat, n: nat, e: nat, ghost A: Poly, ghost B: Poly)
      returns (cy: Word)
    requires 0 < e < 64 && c + n <= mem.Length && Held(mem[..], a, n, A) && Held(mem[..], b, n, B)
    requires InPlace(c, a, n) && InPlace(c, b, n)
    modifies mem
    ensures Held(mem[..], c, n, Add(A, Shift(B, e))) && Only(old(mem[..]), mem[..], c, n) && cy == Carry(B, e, n)
  {
    hide W, Add, Xor, Held, Rest, Only, Wrote, Shift, Shl, Shr, Or;
    ghost var before := mem[..];
    ghost var R := Add(A, Shift(B, e));
    HeldRest(before, a, n, A);
    HeldRest(before, b, n, B);
    HeldNone(before, c, R);
    OnlySame(before, c, n);
    NoCarry(B, e);
    cy := {};
    var j := 0;
    while j < n
      invariant 0 <= j <= n && Held(mem[..], c, j, R) && Only(before, mem[..], c, n) && cy == Carry(B, e, j)
      invariant Rest(mem[..], a, n, A, j) && Rest(mem[..], b, n, B, j)
    {
      ghost var now := mem[..];
      RestWord(mem, a, n, A, j);
      RestWord(mem, b, n, B, j);
      WAdd(A, Shift(B, e), j);
      WShift(B, e, j);
      var s := Xor(mem[a + j], Or(Shl(mem[b + j], e), cy));
      cy := Shr(mem[b + j], 64 - e);
      mem[c + j] := s;
      WroteTwo(now, mem[..], c + j, c + j);
      WroteGrow(now, mem[..], c + j, c + j, c, j, R);
      WroteRest(now, mem[..], c + j, c + j, a, n, A, j);
      WroteRest(now, mem[..], c + j, c + j, b, n, B, j);
      WroteOnly(before, now, mem[..], c + j, c + j, c, n);
      j := j + 1;
    }
  }

  lemma NoCarry(B: Poly, e: nat)
    requires e <= 64
    ensures Carry(B, e, 0) == {}
  {
    assert Shr({}, 64 - e) == {};
  }

  /** The bits of both, as P | Q. */
  function Either(P: Poly, Q: Poly): Poly {
    P + Q
  }

  /** c = x c with cy0 or-ed to the lowest word, returning the carry. */
  method Lsh1(mem: array<Word>, c: nat, n: nat, cy0: Word, ghost P: Poly) returns (cy: Word)
    requires Held(mem[..], c, n, P)
    modifies mem
    ensures Held(mem[..], c, n, Either(Shift(P, 1), cy0)) && Only(old(mem[..]), mem[..], c, n)
    ensures cy == if n == 0 then cy0 else Carry(P, 1, n)
  {
    hide W, Held, Rest, Only, Wrote, Shift, Shl, Shr, Or, Carry;
    ghost var before := mem[..];
    ghost var R: Poly := Either(Shift(P, 1), cy0);
    HeldRest(before, c, n, P);
    HeldSize(before, c, n, P);
    HeldNone(before, c, R);
    OnlySame(before, c, n);
    cy := cy0;
    var j := 0;
    while j < n
      invariant 0 <= j <= n && Held(mem[..], c, j, R) && Only(before, mem[..], c, n)
        && cy == (if j == 0 then cy0 else Carry(P, 1, j))
      invariant Rest(mem[..], c, n, P, j)
    {
      ghost var now := mem[..];
      RestWord(mem, c, n, P, j);
      Lsh1Word(P, cy0, j);
      var s := Or(Shl(mem[c + j], 1), cy);
      cy := Shr(mem[c + j], 63);
      mem[c + j] := s;
      WroteTwo(now, mem[..], c + j, c + j);
      WroteGrow(now, mem[..], c + j, c + j, c, j, R);
      WroteRest(now, mem[..], c + j, c + j, c, n, P, j);
      WroteOnly(before, now, mem[..], c + j, c + j, c, n);
      j := j + 1;
    }
  }

  lemma Lsh1Word(P: Poly, cy0: Word, j: nat)
    ensures W(Either(Shift(P, 1), cy0), j) == Or(Shl(W(P, j), 1), if j == 0 then cy0 else Carry(P, 1, j))
    ensures Carry(P, 1, j + 1) == Shr(W(P, j), 63)
  {
    hide W, Shift, Shl, Shr, Or, Xor, Carry;
    CarryIsWord(P, j);
    CarryIsWord(P, j + 1);
    WShift(P, 1, j);
    WEither(Shift(P, 1), cy0, j);
    WordWords(cy0, j);
    NoCarry(P, 1);
    OrNothing(Shl(W(P, j), 1));
    OrNothing(W(Shift(P, 1), j));
  }

  lemma WEither(P: Poly, Q: Poly, j: nat)
    ensures W(Either(P, Q), j) == Or(W(P, j), W(Q, j))
  {
    hide WordAt;
    forall b: nat
      ensures b in W(Either(P, Q), j) <==> b in Or(W(P, j), W(Q, j))
    {
      BitOf(Either(P, Q), j, b);
      BitOf(P, j, b);
      BitOf(Q, j, b);
    }
  }

  lemma OrNothing(a: Word)
    ensures Or(a, {}) == a
  {
  }

  lemma CarryIsWord(P: Poly, j: nat)
    ensures Carry(P, 1, j) == Shr(W(P, j - 1), 63)
  {
    hide W, Shr;
  }

  /** c = c + (1 + x^3) b, returning the carry. */
  method AddLsh13(mem: array<Word>, c: nat, b: nat, n: nat, ghost C: Poly, ghost B: Poly) returns (cy: Word)
    requires Held(mem[..], c, n, C) && Held(mem[..], b, n, B) && Apart(c, n, b, n)
    modifies mem
    ensures Held(mem[..], c, n, Add(Add(C, B), Shift(B, 3))) && Only(old(mem[..]), mem[..], c, n)
      && cy == Carry(B, 3, n)
  {
    hide W, Add, Xor, Held, Rest, Only, Wrote, Shift, Shl, Shr;
    ghost var before := mem[..];
    ghost var R := Add(Add(C, B), Shift(B, 3));
    HeldRest(before, c, n, C);
    HeldSize(before, c, n, C);
    HeldNone(before, c, R);
    OnlySame(before, c, n);
    NoCarry(B, 3);
    cy := {};
    var j := 0;
    while j < n
      invariant 0 <= j <= n && Held(mem[..], c, j, R) && Only(before, mem[..], c, n) && cy == Carry(B, 3, j)
      invariant Rest(mem[..], c, n, C, j) && Held(mem[..], b, n, B)
    {
      ghost var now := mem[..];
      RestWord(mem, c, n, C, j);
      HeldWord(mem, b, n, B, j);
      WAdd(Add(C, B), Shift(B, 3), j);
      WAdd(C, B, j);
      WShift(B, 3, j);
      var t := mem[b + j];
      XorFour(mem[c + j], t, Shl(t, 3), cy);
      mem[c + j] := Xor(mem[c + j], Xor(Xor(t, Shl(t, 3)), cy));
      cy := Shr(t, 61);
      WroteTwo(now, mem[..], c + j, c + j);
      WroteGrow(now, mem[..], c + j, c + j, c, j, R);
      WroteRest(now, mem[..], c + j, c + j, c, n, C, j);
      WroteKeep(now, mem[..], c + j, c + j, b, n, B);
      WroteOnly(before, now, mem[..], c + j, c + j, c, n);
      j := j + 1;
    }
  }

  lemma XorFour(s: Word, t: Word, u: Word, v: Word)
    ensures Xor(s, Xor(Xor(t, u), v)) == Xor(Xor(s, t), Xor(u, v))
  {
    hide Add;
  }

  // ---------------------------------------------------------------- divisions

  /** c = (c + b) / x from the top word down, the top bit being left zero.  What is returned is the lowest word of c +
      b. */
  method Rsh1Add(mem: array<Word>, c: nat, b: nat, n: nat, ghost C: Poly, ghost B: Poly) returns (cy: Word)
    requires Held(mem[..], c, n, C) && Held(mem[..], b, n, B) && Apart(c, n, b, n)
    modifies mem
    ensures Held(mem[..], c, n, High(Low(Add(C, B), 64 * n), 1)) && Only(old(mem[..]), mem[..], c, n)
    ensures cy == if n == 0 then {} else W(Add(C, B), 0)
  {
    hide W, Add, Xor, Held, Rest, Only, Wrote, High, Low, Shl, Shr, Or;
    ghost var before := mem[..];
    ghost var S := Low(Add(C, B), 64 * n);
    ghost var R := High(S, 1);
    HeldSize(before, c, n, C);
    NothingLeft(before, c, n, R);
    OnlySame(before, c, n);
    LowFits(Add(C, B), n);
    WBeyond(S, n, n);
    cy := {};
    if n > 0 {
      WLow(Add(C, B), n, 0);
    }
    var i := n;
    while i > 0
      invariant 0 <= i <= n && Held(mem[..], c, i, C) && Rest(mem[..], c, n, R, i) && cy == W(S, i)
      invariant Held(mem[..], b, n, B) && Only(before, mem[..], c, n)
    {
      ghost var now := mem[..];
      i := i - 1;
      HeldWord(mem, c, i + 1, C, i);
      HeldWord(mem, b, n, B, i);
      WAdd(C, B, i);
      WLow(Add(C, B), n, i);
      WUnshift(S, 1, i);
      var t := Xor(mem[c + i], mem[b + i]);
      mem[c + i] := Or(Shr(t, 1), Shl(cy, 63));
      cy := t;
      WroteTwo(now, mem[..], c + i, c + i);
      HeldPrefix(now, c, i + 1, C, i);
      WroteKeep(now, mem[..], c + i, c + i, c, i, C);
      WroteKeep(now, mem[..], c + i, c + i, b, n, B);
      WroteDown(now, mem[..], c + i, c, n, R, i);
      WroteOnly(before, now, mem[..], c + i, c + i, c, n);
    }
    HeldRest(mem[..], c, n, R);
  }

  lemma NothingLeft(s: seq<Word>, p: nat, n: nat, P: Poly)
    requires p + n <= |s|
    ensures Rest(s, p, n, P, n)
  {
  }

  lemma WroteDown(s: seq<Word>, t: seq<Word>, x: nat, p: nat, n: nat, P: Poly, i: nat)
    requires Wrote(s, t, x, x) && Rest(s, p, n, P, i + 1) && x == p + i && i < n && x < |t| && t[x] == W(P, i)
    ensures Rest(t, p, n, P, i)
  {
    hide W;
  }

  /** t ^ (t << e), a multiplication by 1 + x^e in one word. */
  function Fold(t: Word, e: nat): Word {
    Xor(t, Shl(t, e))
  }

  /** Squaring: folding (1 + x^e) u by e gives (1 + x^2e) u. */
  lemma FoldTwice(u: Word, e: nat)
    ensures Fold(Fold(u, e), e) == Fold(u, 2 * e)
  {
    hide Shl, Add;
    forall b: nat
      ensures b in Fold(Fold(u, e), e) <==> b in Fold(u, 2 * e)
    {
      assert b in Shl(Fold(u, e), e) <==> e <= b < 64 && b - e in Fold(u, e);
      if e <= b {
        assert b - e in Shl(u, e) <==> e <= b - e < 64 && b - e - e in u;
      }
      if 64 <= b {
        WordBound(u, b);
      }
    }
  }

  lemma FoldAll(u: Word)
    ensures Fold(u, 64) == u
  {
    hide Shl;
    assert Shl(u, 64) == {};
    XorEmptyLeft(u);
  }

  /** The word-parallel division by 1 + x: six folds undo the multiplication by 1 + x. */
  function DivideWord(t: Word): Word {
    Fold(Fold(Fold(Fold(Fold(Fold(t, 1), 2), 4), 8), 16), 32)
  }

  lemma DivideWordInverts(u: Word)
    ensures DivideWord(Fold(u, 1)) == u
  {
    hide Fold;
    FoldTwice(u, 1);
    FoldTwice(u, 2);
    FoldTwice(u, 4);
    FoldTwice(u, 8);
    FoldTwice(u, 16);
    FoldTwice(u, 32);
    FoldAll(u);
  }

  // The divisions that follow take any c: for each there is one polynomial R of n words such that c and (1 + x^e) R
  // have
  // the same n lowest words (Division), and c becomes R, with what (1 + x^e) R has above them as the remainder.

  /** Bit i of the quotient is bit i of C plus bit i - e of the quotient. */
  function Quotient(C: Poly, e: nat, N: nat): (q: Poly)
    requires 0 < e
    ensures forall i :: i in q ==> i < N
  {
    if N == 0 then {} else
      var q := Quotient(C, e, N - 1);
      if (N - 1 in C) != (e <= N - 1 && N - 1 - e in q) then q + {N - 1} else q
  }

  lemma {:induction false} QuotientBit(C: Poly, e: nat, N: nat, i: nat)
    requires 0 < e && i < N
    ensures i in Quotient(C, e, N) <==> (i in C) != (e <= i && i - e in Quotient(C, e, N))
    decreases N
  {
    if i < N - 1 {
      QuotientBit(C, e, N - 1, i);
    }
  }

  ghost predicate SameWords(P: Poly, Q: Poly, n: nat) {
    forall j :: 0 <= j < n ==> W(P, j) == W(Q, j)
  }

  /** For every C of n words: C = (1 + x^e) R + x^(64 n) r for a polynomial R of n words, where r is what R x^e carries
      out of them. */
  lemma Division(C: Poly, e: nat, n: nat) returns (R: Poly)
    requires 0 < e < 64 && Fits(C, n)
    ensures Fits(R, n) && C == Add(Twice(R, e), Y(Carry(R, e, n), n)) && SameWords(C, Twice(R, e), n)
  {
    hide WordAt, Add, Shift, Shr, Carry;
    R := Quotient(C, e, 64 * n);
    forall i: nat
      ensures i in C <==> i in Add(Twice(R, e), Y(Carry(R, e, n), n))
    {
      DivisionBit(C, R, e, n, i);
    }
    forall j | 0 <= j < n
      ensures W(C, j) == W(Twice(R, e), j)
    {
      WAdd(Twice(R, e), Y(Carry(R, e, n), n), j);
      WY(Carry(R, e, n), n, j);
      assert Xor(W(Twice(R, e), j), {}) == W(Twice(R, e), j);
    }
  }

  lemma DivisionBit(C: Poly, R: Poly, e: nat, n: nat, i: nat)
    requires 0 < e < 64 && Fits(C, n) && R == Quotient(C, e, 64 * n)
    ensures i in C <==> i in Add(Twice(R, e), Y(Carry(R, e, n), n))
  {
    hide WordAt, Shift, Shr, Quotient, Carry;
    assert i in Twice(R, e) <==> (i in R) != (e <= i && i - e in R);
    assert i in Y(Carry(R, e, n), n) <==> 64 * n <= i && i - 64 * n in Carry(R, e, n);
    if i < 64 * n {
      QuotientBit(C, e, 64 * n, i);
    } else {
      CarryBit(R, e, n, i - 64 * n);
    }
  }

  lemma CarryBit(R: Poly, e: nat, n: nat, b: nat)
    requires 0 < e < 64 && Fits(R, n)
    ensures b in Carry(R, e, n) <==> 64 * n + b >= e && 64 * n + b - e in R
  {
    hide W, Shr;
    if n == 0 {
      WZero(R, -1);
    } else if b < e {
      BitOf(R, n - 1, b + 64 - e);
      assert 64 * (n - 1) + (b + 64 - e) == 64 * n + b - e;
    } else {
      WordBound(W(R, n - 1), b + (64 - e));
    }
  }

  /** c = c / (1 + x) with the remainder r. */
  method DivOnePlusX(mem: array<Word>, c: nat, n: nat, ghost R: Poly) returns (r: Word)
    requires Held(mem[..], c, n, Twice(R, 1))
    modifies mem
    ensures Held(mem[..], c, n, R) && Only(old(mem[..]), mem[..], c, n) && r == Carry(R, 1, n)
  {
    hide W, Add, Xor, Held, Rest, Only, Wrote, Twice, Shl, Shr, DivideWord, Fold;
    ghost var before := mem[..];
    ghost var Q := Twice(R, 1);
    HeldRest(before, c, n, Q);
    HeldSize(before, c, n, Q);
    HeldNone(before, c, R);
    OnlySame(before, c, n);
    NoCarry(R, 1);
    var t: Word := {};
    var i := 0;
    while i < n
      invariant 0 <= i <= n && Held(mem[..], c, i, R) && Only(before, mem[..], c, n) && t == Carry(R, 1, i)
      invariant Rest(mem[..], c, n, Q, i)
    {
      ghost var now := mem[..];
      RestWord(mem, c, n, Q, i);
      QuotientStep(R, i);
      t := DivideWord(Xor(t, mem[c + i]));
      mem[c + i] := t;
      t := Shr(t, 63);
      WroteTwo(now, mem[..], c + i, c + i);
      WroteGrow(now, mem[..], c + i, c + i, c, i, R);
      WroteRest(now, mem[..], c + i, c + i, c, n, Q, i);
      WroteOnly(before, now, mem[..], c + i, c + i, c, n);
      i := i + 1;
    }
    r := t;
  }

  lemma QuotientStep(R: Poly, i: nat)
    ensures DivideWord(Xor(Carry(R, 1, i), W(Twice(R, 1), i))) == W(R, i)
  {
    hide WordAt, W, Add, Xor, Shift, Shl, Shr, DivideWord;
    WAdd(R, Shift(R, 1), i);
    WShift(R, 1, i);
    CancelCarry(Carry(R, 1, i), W(R, i), Shl(W(R, i), 1));
    DivideWordInverts(W(R, i));
  }

  lemma CancelCarry(cy: Word, u: Word, v: Word)
    ensures Xor(cy, Xor(u, Xor(v, cy))) == Xor(u, v)
  {
    hide Add;
  }

  // ---------------------------------------------------------------- four-way routine

  /** c = x a + x^2 b, returning the carry. */
  method AddLsh1Lsh2(mem: array<Word>, c: nat, a: nat, b: nat, n: nat, ghost A: Poly, ghost B: Poly) returns (cy: Word)
    requires c + n <= mem.Length && Held(mem[..], a, n, A) && Held(mem[..], b, n, B) && InPlace(c, a, n)
      && InPlace(c, b, n)
    modifies mem
    ensures Held(mem[..], c, n, Add(Shift(A, 1), Shift(B, 2))) && Only(old(mem[..]), mem[..], c, n)
    ensures cy == Xor(Carry(A, 1, n), Carry(B, 2, n))
  {
    hide W, Add, Xor, Held, Rest, Only, Wrote, Shift, Shl, Shr, Or, Carry;
    ghost var before := mem[..];
    ghost var R := Add(Shift(A, 1), Shift(B, 2));
    HeldRest(before, a, n, A);
    HeldRest(before, b, n, B);
    HeldNone(before, c, R);
    OnlySame(before, c, n);
    NoCarry(A, 1);
    NoCarry(B, 2);
    XorEmptyLeft({});
    cy := {};
    var j := 0;
    while j < n
      invariant 0 <= j <= n && Held(mem[..], c, j, R) && Only(before, mem[..], c, n)
      invariant cy == Xor(Carry(A, 1, j), Carry(B, 2, j))
      invariant Rest(mem[..], a, n, A, j) && Rest(mem[..], b, n, B, j)
    {
      ghost var now := mem[..];
      RestWord(mem, a, n, A, j);
      RestWord(mem, b, n, B, j);
      BothShifted(A, B, j);
      var s := Xor(Shl(mem[a + j], 1), Or(Shl(mem[b + j], 2), cy));
      cy := Xor(Shr(mem[a + j], 63), Shr(mem[b + j], 62));
      mem[c + j] := s;
      WroteTwo(now, mem[..], c + j, c + j);
      WroteGrow(now, mem[..], c + j, c + j, c, j, R);
      WroteRest(now, mem[..], c + j, c + j, a, n, A, j);
      WroteRest(now, mem[..], c + j, c + j, b, n, B, j);
      WroteOnly(before, now, mem[..], c + j, c + j, c, n);
      j := j + 1;
    }
  }

  lemma BothShifted(A: Poly, B: Poly, j: nat)
    ensures W(Add(Shift(A, 1), Shift(B, 2)), j)
      == Xor(Shl(W(A, j), 1), Or(Shl(W(B, j), 2), Xor(Carry(A, 1, j), Carry(B, 2, j))))
    ensures Xor(Carry(A, 1, j + 1), Carry(B, 2, j + 1)) == Xor(Shr(W(A, j), 63), Shr(W(B, j), 62))
  {
    hide W, Add, Xor, Shift, Shl, Shr, Or, Carry;
    WAdd(Shift(A, 1), Shift(B, 2), j);
    WShiftCarry(A, 1, j);
    WShiftCarry(B, 2, j);
    NextCarry(A, 1, j);
    NextCarry(B, 2, j);
    LowCarry(W(A, j), W(B, j), Carry(A, 1, j), Carry(B, 2, j), A, B, j);
  }

  lemma NextCarry(P: Poly, e: nat, j: nat)
    requires e <= 64
    ensures Carry(P, e, j + 1) == Shr(W(P, j), 64 - e)
  {
    hide W, Shr;
  }

  /** The carry of both operands fits below a word moved up by two. */
  lemma LowCarry(u: Word, v: Word, p: Word, q: Word, A: Poly, B: Poly, j: nat)
    requires p == Carry(A, 1, j) && q == Carry(B, 2, j)
    ensures Xor(Shl(u, 1), Or(Shl(v, 2), Xor(p, q))) == Xor(Xor(Shl(u, 1), p), Xor(Shl(v, 2), q))
  {
    hide W, Shl, Shr, Xor, Or, Carry;
    CarrySmall(A, 1, j);
    CarrySmall(B, 2, j);
    XorSmall(p, q);
    OrSmall(v, Xor(p, q));
    FourXors(Shl(u, 1), Shl(v, 2), p, q);
  }

  lemma CarrySmall(P: Poly, e: nat, j: nat)
    requires e <= 64
    ensures forall b :: b in Carry(P, e, j) ==> b < e
  {
    hide W, Shr;
    forall b | b in Carry(P, e, j)
      ensures b < e
    {
      assert b + (64 - e) in W(P, j - 1);
    }
  }

  lemma XorSmall(p: Word, q: Word)
    requires (forall b :: b in p ==> b < 2) && forall b :: b in q ==> b < 2
    ensures forall b :: b in Xor(p, q) ==> b < 2
  {
    hide Add;
  }

  lemma OrSmall(v: Word, w: Word)
    requires forall b :: b in w ==> b < 2
    ensures Or(Shl(v, 2), w) == Xor(Shl(v, 2), w)
  {
    hide Shl, Add;
  }

  lemma FourXors(u: Word, v: Word, p: Word, q: Word)
    ensures Xor(u, Xor(v, Xor(p, q))) == Xor(Xor(u, p), Xor(v, q))
  {
    hide Add;
  }

  /** Six words of folds by 2, 4, ..., 32: the division by 1 + x^2 in a word. */
  function DivideWord2(t: Word): Word {
    Fold(Fold(Fold(Fold(Fold(t, 2), 4), 8), 16), 32)
  }

  lemma DivideWord2Inverts(u: Word)
    ensures DivideWord2(Fold(u, 2)) == u
  {
    hide Fold;
    FoldTwice(u, 2);
    FoldTwice(u, 4);
    FoldTwice(u, 8);
    FoldTwice(u, 16);
    FoldTwice(u, 32);
    FoldAll(u);
  }

  /** c = c / (1 + x^2) with the remainder r. */
  method DivOnePlusX2(mem: array<Word>, c: nat, n: nat, ghost R: Poly) returns (r: Word)
    requires Held(mem[..], c, n, Twice(R, 2))
    modifies mem
    ensures Held(mem[..], c, n, R) && Only(old(mem[..]), mem[..], c, n) && r == Carry(R, 2, n)
  {
    hide W, Add, Xor, Held, Rest, Only, Wrote, Twice, Shl, Shr, DivideWord2, Fold;
    ghost var before := mem[..];
    ghost var Q := Twice(R, 2);
    HeldRest(before, c, n, Q);
    HeldSize(before, c, n, Q);
    HeldNone(before, c, R);
    OnlySame(before, c, n);
    NoCarry(R, 2);
    var t: Word := {};
    var i := 0;
    while i < n
      invariant 0 <= i <= n && Held(mem[..], c, i, R) && Only(before, mem[..], c, n) && t == Carry(R, 2, i)
      invariant Rest(mem[..], c, n, Q, i)
    {
      ghost var now := mem[..];
      RestWord(mem, c, n, Q, i);
      QuotientStep2(R, i);
      t := DivideWord2(Xor(t, mem[c + i]));
      mem[c + i] := t;
      t := Shr(t, 62);
      WroteTwo(now, mem[..], c + i, c + i);
      WroteGrow(now, mem[..], c + i, c + i, c, i, R);
      WroteRest(now, mem[..], c + i, c + i, c, n, Q, i);
      WroteOnly(before, now, mem[..], c + i, c + i, c, n);
      i := i + 1;
    }
    r := t;
  }

  lemma QuotientStep2(R: Poly, i: nat)
    ensures DivideWord2(Xor(Carry(R, 2, i), W(Twice(R, 2), i))) == W(R, i)
  {
    hide W, Add, Xor, Shift, Shl, Shr, DivideWord2, Carry;
    WAdd(R, Shift(R, 2), i);
    WShiftCarry(R, 2, i);
    CancelCarry(Carry(R, 2, i), W(R, i), Shl(W(R, i), 2));
    DivideWord2Inverts(W(R, i));
  }

  /** t ^ (t << e) ^ (t << 2e), a multiplication by 1 + x^e + x^2e in one word. */
  function Triple(t: Word, e: nat): Word {
    Xor(t, Xor(Shl(t, e), Shl(t, 2 * e)))
  }

  /** (1 + x^e)(1 + x^e + x^2e) = 1 + x^3e. */
  lemma TripleFold(u: Word, e: nat)
    ensures Triple(Fold(u, e), e) == Fold(u, 3 * e)
  {
    hide Shl, Add;
    var f := Fold(u, e);
    forall b: nat
      ensures b in Triple(f, e) <==> b in Fold(u, 3 * e)
    {
      TripleBit(u, e, b);
    }
  }

  lemma TripleBit(u: Word, e: nat, b: nat)
    ensures b in Shl(Fold(u, e), e) <==> e <= b < 64 && ((b - e in u) != (2 * e <= b && b - 2 * e in u))
    ensures b in Shl(Fold(u, e), 2 * e) <==> 2 * e <= b < 64 && ((b - 2 * e in u) != (3 * e <= b && b - 3 * e in u))
    ensures b in Fold(u, e) <==> b < 64 && ((b in u) != (e <= b && b - e in u))
  {
    hide Shl, Fold;
    FoldBit(u, e, b);
    if e <= b {
      FoldBit(u, e, b - e);
    }
    if 2 * e <= b {
      FoldBit(u, e, b - 2 * e);
    }
  }

  lemma FoldBit(u: Word, e: nat, b: nat)
    ensures b in Fold(u, e) <==> b < 64 && ((b in u) != (e <= b && b - e in u))
  {
    hide Shl;
    if 64 <= b {
      WordBound(u, b);
    }
  }

  /** The division by 1 + x^3 in a word. */
  function DivideWord3(t: Word): Word {
    Triple(Triple(Triple(t, 3), 9), 27)
  }

  lemma DivideWord3Inverts(u: Word)
    ensures DivideWord3(Fold(u, 3)) == u
  {
    hide Fold, Triple, Shl;
    TripleFold(u, 3);
    TripleFold(u, 9);
    TripleFold(u, 27);
    FoldFar(u);
  }

  lemma FoldFar(u: Word)
    ensures Fold(u, 81) == u
  {
    hide Shl;
    assert Shl(u, 81) == {};
    XorEmptyLeft(u);
  }

  /** c = c / (x + x^4): the lowest bit of c is dropped and the rest divided by 1 + x^3, with the remainder r. */
  method DivExactD1(mem: array<Word>, c: nat, n: nat, ghost C: Poly, ghost R: Poly) returns (r: Word)
    requires Held(mem[..], c, n, C) && Fits(C, n) && SameWords(High(C, 1), Twice(R, 3), n)
    modifies mem
    ensures Held(mem[..], c, n, R) && Only(old(mem[..]), mem[..], c, n) && r == Carry(R, 3, n)
  {
    hide W, Add, Xor, Held, Rest, Only, Wrote, Shift, Shl, Shr, Or, DivideWord3, Fold, Fits, Carry, High, Twice;
    ghost var before := mem[..];
    HeldRest(before, c, n, C);
    HeldSize(before, c, n, C);
    HeldNone(before, c, R);
    OnlySame(before, c, n);
    NoCarry(R, 3);
    WBeyond(C, n, n);
    var t: Word := {};
    var i := 0;
    while i < n
      invariant 0 <= i <= n && Held(mem[..], c, i, R) && Only(before, mem[..], c, n) && t == Carry(R, 3, i)
      invariant Rest(mem[..], c, n, C, i)
    {
      ghost var now := mem[..];
      RestWord(mem, c, n, C, i);
      QuotientStep3(C, R, n, i);
      NextCarry(R, 3, i);
      ShiftsOfZero(63);
      t := Xor(t, Or(Shr(mem[c + i], 1), if i + 1 < n then Shl(mem[c + i + 1], 63) else {}));
      t := DivideWord3(t);
      mem[c + i] := t;
      t := Shr(t, 61);
      WroteTwo(now, mem[..], c + i, c + i);
      WroteGrow(now, mem[..], c + i, c + i, c, i, R);
      WroteRest(now, mem[..], c + i, c + i, c, n, C, i);
      WroteOnly(before, now, mem[..], c + i, c + i, c, n);
      i := i + 1;
    }
    r := t;
  }

  /** The exact division: nothing is dropped. */
  lemma ExactD1(R: Poly, n: nat)
    requires 0 < n && Fits(R, n - 1)
    ensures var C := Add(Shift(R, 1), Shift(R, 4)); Fits(C, n) && SameWords(High(C, 1), Twice(R, 3), n)
  {
    hide W, Add, Shift, High;
    FitsShiftAny(R, n - 1, 1);
    FitsShiftAny(R, n - 1, 4);
    FitsAdd(Shift(R, 1), Shift(R, 4), n);
    DropX(R);
  }

  /** With quotient R and remainder r of C / x^k by 1 + x^e, the sum of (x^k + x^(k+e)) R and x^(64 n) r, as the
      comments
      on the divisions say, is C if and only if the lowest k bits of C are zero and there is no remainder. */
  lemma NoRemainder(C: Poly, R: Poly, r: Poly, k: nat, e: nat, n: nat)
    requires 0 < k && High(C, k) == Add(Twice(R, e), Y(r, n))
    ensures C == Add(Shift(Twice(R, e), k), Y(r, n)) <==> Low(C, k) == {} && r == {}
  {
    hide Add, Shift, High, Low, Twice;
    var q, z := Twice(R, e), Y(r, n);
    var S := Add(Shift(q, k), z);
    if r == {} {
      assert forall i: nat :: i !in z;
      forall i: nat
        ensures (i in C) != (i in S) <==> i in Low(C, k)
      {
        DifferentBit(C, q, z, k, i);
      }
    } else {
      var b :| b in r;
      assert b + 64 * n in z;
      var m := TopBit(z);
      DifferentBit(C, q, z, k, m + k);
    }
  }

  lemma DifferentBit(C: Poly, q: Poly, z: Poly, k: nat, i: nat)
    requires High(C, k) == Add(q, z)
    ensures (i in C) != (i in Add(Shift(q, k), z)) <==> (if i < k then i in C else i - k in z) != (i in z)
  {
    hide Add, Shift, High;
    if k <= i {
      HighMember(C, k, i - k);
      assert i - k in Add(q, z) <==> (i - k in q) != (i - k in z);
    }
  }

  lemma TopBit(z: Poly) returns (m: nat)
    requires z != {}
    ensures m in z && forall i :: i in z ==> i <= m
  {
    m := Deg(z);
  }

  lemma FitsShiftAny(P: Poly, k: nat, e: nat)
    requires Fits(P, k) && e <= 64
    ensures Fits(Shift(P, e), k + 1)
  {
    hide Shift;
    forall i | i in Shift(P, e)
      ensures i < 64 * (k + 1)
    {
      assert i - e in P;
    }
  }

  lemma QuotientStep3(C: Poly, R: Poly, n: nat, i: nat)
    requires i < n && SameWords(High(C, 1), Twice(R, 3), n)
    ensures DivideWord3(Xor(Carry(R, 3, i), Or(Shr(W(C, i), 1), Shl(W(C, i + 1), 63)))) == W(R, i)
  {
    hide W, Add, Xor, Shift, Shl, Shr, Or, High, DivideWord3, Carry;
    WUnshift(C, 1, i);
    WAdd(R, Shift(R, 3), i);
    WShiftCarry(R, 3, i);
    CancelCarry(Carry(R, 3, i), W(R, i), Shl(W(R, i), 3));
    DivideWord3Inverts(W(R, i));
  }

  lemma DropX(R: Poly)
    ensures High(Add(Shift(R, 1), Shift(R, 4)), 1) == Add(R, Shift(R, 3))
  {
    hide High, Shift, Add;
    ShiftAdd(R, Shift(R, 3), 1);
    ShiftShift(R, 3, 1);
    HighShift(Add(R, Shift(R, 3)), 1);
  }

  /** c = c / x^2 from the top word down, the top two bits being left zero. */
  method Rsh2(mem: array<Word>, c: nat, n: nat, ghost C: Poly)
    requires Held(mem[..], c, n, C) && Fits(C, n)
    modifies mem
    ensures Held(mem[..], c, n, High(C, 2)) && Only(old(mem[..]), mem[..], c, n)
  {
    hide W, Held, Rest, Only, Wrote, High, Shl, Shr, Or, Fits;
    ghost var before := mem[..];
    ghost var R := High(C, 2);
    HeldSize(before, c, n, C);
    NothingLeft(before, c, n, R);
    OnlySame(before, c, n);
    WBeyond(C, n, n);
    var cy: Word := {};
    var i := n;
    while i > 0
      invariant 0 <= i <= n && Held(mem[..], c, i, C) && Rest(mem[..], c, n, R, i) && cy == W(C, i)
      invariant Only(before, mem[..], c, n)
    {
      ghost var now := mem[..];
      i := i - 1;
      HeldWord(mem, c, i + 1, C, i);
      WUnshift(C, 2, i);
      var t := Or(Shr(mem[c + i], 2), Shl(cy, 62));
      cy := mem[c + i];
      mem[c + i] := t;
      WroteTwo(now, mem[..], c + i, c + i);
      HeldPrefix(now, c, i + 1, C, i);
      WroteKeep(now, mem[..], c + i, c + i, c, i, C);
      WroteDown(now, mem[..], c + i, c, n, R, i);
      WroteOnly(before, now, mem[..], c + i, c + i, c, n);
    }
    HeldRest(mem[..], c, n, R);
  }

  /** c = c / (x^2 + x^4): the two lowest bits of c are dropped and the rest divided by 1 + x^2, with the remainder r.
      */
  method DivExactD2(mem: array<Word>, c: nat, n: nat, ghost C: Poly, ghost R: Poly) returns (r: Word)
    requires Held(mem[..], c, n, C) && Fits(C, n) && SameWords(High(C, 2), Twice(R, 2), n)
    modifies mem
    ensures Held(mem[..], c, n, R) && Only(old(mem[..]), mem[..], c, n) && r == Carry(R, 2, n)
  {
    hide W, Held, Only, High, Fits, Twice, Carry;
    ghost var s0 := mem[..];
    Rsh2(mem, c, n, C);
    ghost var s1 := mem[..];
    SameHeld(s1, c, n, High(C, 2), Twice(R, 2));
    r := DivOnePlusX2(mem, c, n, R);
    OnlyTrans(s0, s1, mem[..], c, n);
  }

  lemma SameHeld(s: seq<Word>, p: nat, n: nat, P: Poly, Q: Poly)
    requires Held(s, p, n, P) && SameWords(P, Q, n)
    ensures Held(s, p, n, Q)
  {
    hide W;
    forall i | p <= i < p + n
      ensures s[i] == W(Q, i - p)
    {
      assert W(P, i - p) == W(Q, i - p);
    }
  }

  lemma ExactD2(R: Poly, n: nat)
    requires 0 < n && Fits(R, n - 1)
    ensures var C := Add(Shift(R, 2), Shift(R, 4)); Fits(C, n) && SameWords(High(C, 2), Twice(R, 2), n)
  {
    hide W, Add, Shift, High;
    FitsShiftAny(R, n - 1, 2);
    FitsShiftAny(R, n - 1, 4);
    FitsAdd(Shift(R, 2), Shift(R, 4), n);
    DropXX(R);
  }

  lemma DropXX(R: Poly)
    ensures High(Add(Shift(R, 2), Shift(R, 4)), 2) == Twice(R, 2)
  {
    hide High, Shift, Add;
    ShiftAdd(R, Shift(R, 2), 2);
    ShiftShift(R, 2, 2);
    HighShift(Add(R, Shift(R, 2)), 2);
  }

  /** c = c + x b for a one-word multiplier x, returning the carry: gf2x_addmul_1_n in place. */
  method AddMultiple(mem: array<Word>, c: nat, b: nat, n: nat, x: Word, ghost C: Poly, ghost B: Poly) returns (cy: Word)
    requires 0 < n && Held(mem[..], c, n, C) && Held(mem[..], b, n, B) && Fits(B, n) && Apart(c, n, b, n)
    modifies mem
    ensures Held(mem[..], c, n, Add(C, Mul(B, x))) && Only(old(mem[..]), mem[..], c, n) && cy == W(Mul(B, x), n)
  {
    hide W, Mul, Add, Held, Holds, Fits, Only;
    ghost var s0 := mem[..];
    HoldsHeld(mem, c, n, C);
    HoldsHeld(mem, b, n, B);
    HeldSize(s0, c, n, C);
    cy := AddMul1N(mem, c, c, b, n, x, C, B);
    HoldsHeld(mem, c, n, Add(C, Mul(B, x)));
    OnlyIntro(s0, mem[..], c, n);
  }

  lemma OnlyIntro(s: seq<Word>, t: seq<Word>, q: nat, m: nat)
    requires |s| == |t| && forall i :: 0 <= i < |s| && !(q <= i < q + m) ==> t[i] == s[i]
    ensures Only(s, t, q, m)
  {
  }
}
