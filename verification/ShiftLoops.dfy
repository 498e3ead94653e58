/** The word loops of gf2x-1.1/fft.c that move bits: a region of an array is
    shifted, copied or added into another region.  Each loop is described by what it does
    to the whole array, read as one polynomial. */
module ShiftLoops {
  import opened Polynomials
  import opened Words
  import opened WordMemory
  import BitLoops

  /** The polynomial in {p, n}. */
  function Part(s: seq<Word>, p: nat, n: nat): Poly
    requires p + n <= |s|
  {
    Val(s[p..p + n])
  }

  /** V with the bits of the words p to p + n - 1 replaced by those of X. */
  function Put(V: Poly, p: nat, n: nat, X: Poly): (r: Poly)
    ensures forall i: nat {:trigger i in r} :: i in r <==> if 64 * p <= i < 64 * (p + n) then i in X else i in V
  {
    (set i | i in V && !(64 * p <= i < 64 * (p + n))) + (set i | i in X && 64 * p <= i < 64 * (p + n))
  }

  /** The bits of X in the words p to p + n - 1. */
  function Within(X: Poly, p: nat, n: nat): (r: Poly)
    ensures forall i: nat {:trigger i in r} :: i in r <==> 64 * p <= i < 64 * (p + n) && i in X
  {
    set i | i in X && 64 * p <= i < 64 * (p + n)
  }

  // ---------------------------------------------------------------- from words to bits

  lemma BitOfWord(s: seq<Word>, x: nat, b: nat)
    requires x < |s| && b < 64
    ensures b in s[x] <==> 64 * x + b in Val(s)
  {
    hide Val;
    ValBit(s, x, b);
  }

  lemma PartBit(s: seq<Word>, p: nat, n: nat, i: nat)
    requires p + n <= |s|
    ensures i in Part(s, p, n) <==> i < 64 * n && 64 * p + i in Val(s)
  {
    hide Val;
    ValMember(s[p..p + n], i);
    ValMember(s, 64 * p + i);
    assert (64 * p + i) / 64 == p + i / 64 && (64 * p + i) % 64 == i % 64;
  }

  lemma PartHeld(s: seq<Word>, p: nat, n: nat)
    requires p + n <= |s|
    ensures Held(s, p, n, Part(s, p, n)) && Fits(Part(s, p, n), n)
  {
    hide Val, WordAt;
    var t := s[p..p + n];
    forall i | p <= i < p + n
      ensures s[i] == W(Val(t), i - p)
    {
      forall b: nat
        ensures b in s[i] <==> b in W(Val(t), i - p)
      {
        if b < 64 {
          ValBit(t, i - p, b);
        } else {
          WordBound(s[i], b);
        }
      }
    }
    forall i | i in Val(t)
      ensures i < 64 * n
    {
      ValMember(t, i);
    }
  }

  /** What a region holds decides the bits of the whole array. */
  lemma HeldPut(s: seq<Word>, t: seq<Word>, p: nat, n: nat, X: Poly)
    requires Only(s, t, p, n) && Held(t, p, n, X)
    ensures Val(t) == Put(Val(s), p, n, Shift(X, 64 * p))
  {
    hide Val, W, Shift, Put;
    forall i: nat
      ensures i in Val(t) <==> i in Put(Val(s), p, n, Shift(X, 64 * p))
    {
      ValMember(t, i);
      ValMember(s, i);
      if 64 * p <= i < 64 * (p + n) {
        WordBit(X, i - 64 * p);
        assert (i - 64 * p) / 64 == i / 64 - p && (i - 64 * p) % 64 == i % 64;
      }
    }
  }

  lemma HeldAdd(s: seq<Word>, t: seq<Word>, p: nat, n: nat, X: Poly)
    requires p + n <= |s| && Only(s, t, p, n) && Held(t, p, n, Add(Part(s, p, n), X))
    ensures Val(t) == Add(Val(s), Within(Shift(X, 64 * p), p, n))
  {
    hide Val, W, Shift, Put, Add, Part, Within;
    HeldPut(s, t, p, n, Add(Part(s, p, n), X));
    ShiftAdd(Part(s, p, n), X, 64 * p);
    forall i: nat
      ensures i in Val(t) <==> i in Add(Val(s), Within(Shift(X, 64 * p), p, n))
    {
      if 64 * p <= i < 64 * (p + n) {
        PartBit(s, p, n, i - 64 * p);
      }
    }
  }

  lemma UnshiftedWord(P: Poly, n: nat, j: nat, k: nat)
    requires 0 < k < 64 && j < n && Fits(P, n)
    ensures W(High(P, k), j) == Or(Shr(W(P, j), k), if j + 1 < n then Shl(W(P, j + 1), 64 - k) else {})
  {
    hide W, High, Shl, Shr;
    BitLoops.WUnshift(P, k, j);
    if j + 1 == n {
      WBeyond(P, n, n);
      ShlNothing(64 - k);
    }
  }

  lemma ShlNothing(k: nat)
    ensures Shl({}, k) == {}
  {
  }

  // ---------------------------------------------------------------- the loops

  /** What is shifted out of n words. */
  function Carry(P: Poly, n: nat, k: nat): Word
    requires k < 64
  {
    Shr(W(P, n - 1), 64 - k)
  }

  /** The bits of the carry lie 64 n - k above those of P. */
  lemma CarryBits(P: Poly, n: nat, k: nat, b: nat)
    requires k < 64 && Fits(P, n)
    ensures b in Carry(P, n, k) <==> 64 * n + b >= k && 64 * n + b - k in P
  {
    hide W, Carry, Fits;
    var w := W(P, n - 1);
    CarryWord(P, n, k, b);
    if b >= k {
      FitsBound(P, n, 64 * n + b - k);
    }
    if n == 0 {
      NoWordBelow(P);
    } else if b < k {
      BitLoops.BitOf(P, n - 1, b + (64 - k));
      assert 64 * (n - 1) + (b + (64 - k)) == 64 * n + b - k;
    } else {
      WordBound(w, b + (64 - k));
    }
  }

  lemma FitsBound(P: Poly, n: nat, i: nat)
    requires Fits(P, n) && 64 * n <= i
    ensures i !in P
  {
  }

  lemma CarryWord(P: Poly, n: nat, k: nat, b: nat)
    requires k < 64
    ensures b in Carry(P, n, k) <==> b + (64 - k) in W(P, n - 1)
  {
    hide W;
  }

  lemma NoWordBelow(P: Poly)
    ensures W(P, -1) == {}
  {
  }

  lemma CarryNext(P: Poly, i: nat, k: nat)
    requires 0 < k < 64
    ensures Carry(P, i + 1, k) == Shr(W(P, i), 64 - k)
  {
    hide W, Shr;
  }

  lemma CarryIn(P: Poly, i: nat, k: nat)
    requires 0 < k < 64
    ensures Carry(P, i, k) == Shr(W(P, i - 1), 64 - k)
  {
    hide W, Shr;
  }

  lemma ShiftNone(P: Poly)
    ensures Shift(P, 0) == P && High(P, 0) == P
  {
    hide Shift, High;
  }

  method Copy(c: array<Word>, cp: nat, a: array<Word>, ap: nat, n: nat, ghost P: Poly)
    requires cp + n <= c.Length && Held(a[..], ap, n, P)
    requires c != a || cp <= ap || ap + n <= cp
    modifies c
    ensures Held(c[..], cp, n, P) && Only(old(c[..]), c[..], cp, n)
  {
    hide Held, Only, W, Wrote, Rest;
    ghost var s0 := c[..];
    HeldNone(s0, cp, P);
    OnlySame(s0, cp, n);
    HeldRest(a[..], ap, n, P);
    for i := 0 to n
      invariant Held(c[..], cp, i, P) && Only(s0, c[..], cp, n) && Rest(a[..], ap, n, P, i)
    {
      RestWord(a, ap, n, P, i);
      ghost var s, t := c[..], a[..];
      c[cp + i] := a[ap + i];
      WroteTwo(s, c[..], cp + i, cp + i);
      WroteGrow(s, c[..], cp + i, cp + i, cp, i, P);
      WroteOnly(s0, s, c[..], cp + i, cp + i, cp, n);
      if c == a {
        WroteRest(s, c[..], cp + i, cp + i, ap, n, P, i);
      } else {
        assert a[..] == t;
        RestLater(t, ap, n, P, i);
      }
    }
  }

  lemma RestLater(s: seq<Word>, p: nat, n: nat, P: Poly, j: nat)
    requires Rest(s, p, n, P, j)
    ensures Rest(s, p, n, P, j + 1)
  {
    hide W;
  }

  /** c <- a * x^k, returns the carry. */
  method Lsh(c: array<Word>, cp: nat, a: array<Word>, ap: nat, n: nat, k: nat) returns (cy: Word)
    requires cp + n <= c.Length && ap + n <= a.Length && k < 64
    requires c != a || cp <= ap || ap + n <= cp
    modifies c
    ensures Val(c[..]) == Put(old(Val(c[..])), cp, n, Shift(Shift(old(Part(a[..], ap, n)), k), 64 * cp))
    ensures cy == Carry(old(Part(a[..], ap, n)), n, k)
  {
    hide Held, Only, Part, Val, Put, Shift, Carry;
    ghost var s0, P := c[..], Part(a[..], ap, n);
    PartHeld(a[..], ap, n);
    if k == 0 {
      ShiftNone(P);
      Copy(c, cp, a, ap, n, P);
      CarryNone(P, n);
      cy := {};
    } else {
      cy := LshLoop(c, cp, a, ap, n, k, P);
    }
    HeldPut(s0, c[..], cp, n, Shift(P, k));
  }

  method LshLoop(c: array<Word>, cp: nat, a: array<Word>, ap: nat, n: nat, k: nat, ghost P: Poly) returns (cy: Word)
    requires cp + n <= c.Length && 0 < k < 64 && Held(a[..], ap, n, P)
    requires c != a || cp <= ap || ap + n <= cp
    modifies c
    ensures Held(c[..], cp, n, Shift(P, k)) && Only(old(c[..]), c[..], cp, n)
    ensures cy == Carry(P, n, k)
  {
    hide Held, Only, W, Wrote, Rest, Shift, Shl, Shr, Or, Carry;
    ghost var s0, X := c[..], Shift(P, k);
    HeldNone(s0, cp, X);
    OnlySame(s0, cp, n);
    HeldRest(a[..], ap, n, P);
    cy := {};
    CarryStart(P, k);
    for i := 0 to n
      invariant Held(c[..], cp, i, X) && Only(s0, c[..], cp, n) && Rest(a[..], ap, n, P, i)
      invariant cy == Carry(P, i, k)
    {
      RestWord(a, ap, n, P, i);
      BitLoops.WShift(P, k, i);
      CarryIn(P, i, k);
      CarryNext(P, i, k);
      ghost var s, t := c[..], a[..];
      var w := a[ap + i];
      c[cp + i] := Or(Shl(w, k), cy);
      cy := Shr(w, 64 - k);
      WroteTwo(s, c[..], cp + i, cp + i);
      WroteGrow(s, c[..], cp + i, cp + i, cp, i, X);
      WroteOnly(s0, s, c[..], cp + i, cp + i, cp, n);
      if c == a {
        WroteRest(s, c[..], cp + i, cp + i, ap, n, P, i);
      } else {
        assert a[..] == t;
        RestLater(t, ap, n, P, i);
      }
    }
  }

  lemma CarryStart(P: Poly, k: nat)
    requires k < 64
    ensures Carry(P, 0, k) == {}
  {
  }

  lemma CarryNone(P: Poly, n: nat)
    ensures Carry(P, n, 0) == {}
  {
    hide W, Shr;
    var w := W(P, n - 1);
    forall b: nat
      ensures b !in Shr(w, 64)
    {
      WordBound(w, b + 64);
    }
  }

  /** c <- c + a * x^k, returns the carry. */
  method AddLsh(c: array<Word>, cp: nat, a: array<Word>, ap: nat, n: nat, k: nat) returns (cy: Word)
    requires cp + n <= c.Length && ap + n <= a.Length && k < 64
    requires c != a || cp <= ap || ap + n <= cp
    modifies c
    ensures Val(c[..]) == Add(old(Val(c[..])), Within(Shift(Shift(old(Part(a[..], ap, n)), k), 64 * cp), cp, n))
    ensures cy == Carry(old(Part(a[..], ap, n)), n, k)
  {
    hide Held, Only, Part, Val, Within, Shift, Add, Carry;
    ghost var s0, P, C := c[..], Part(a[..], ap, n), Part(c[..], cp, n);
    PartHeld(a[..], ap, n);
    PartHeld(c[..], cp, n);
    if k == 0 {
      ShiftNone(P);
      AddInto(c, cp, a, ap, n, C, P);
      CarryNone(P, n);
      cy := {};
    } else {
      cy := AddLshLoop(c, cp, a, ap, n, k, P, C);
    }
    HeldAdd(s0, c[..], cp, n, Shift(P, k));
  }

  method AddLshLoop(c: array<Word>, cp: nat, a: array<Word>, ap: nat, n: nat, k: nat, ghost P: Poly, ghost C: Poly)
      returns (cy: Word)
    requires 0 < k < 64 && Held(a[..], ap, n, P) && Held(c[..], cp, n, C)
    requires c != a || cp <= ap || ap + n <= cp
    modifies c
    ensures Held(c[..], cp, n, Add(C, Shift(P, k))) && Only(old(c[..]), c[..], cp, n)
    ensures cy == Carry(P, n, k)
  {
    hide Held, Only, W, Wrote, Rest, Shift, Shl, Shr, Or, Add, Carry;
    ghost var s0, X := c[..], Shift(P, k);
    HeldSize(s0, cp, n, C);
    HeldNone(s0, cp, Add(C, X));
    OnlySame(s0, cp, n);
    HeldRest(a[..], ap, n, P);
    HeldRest(c[..], cp, n, C);
    cy := {};
    CarryStart(P, k);
    for i := 0 to n
      invariant Held(c[..], cp, i, Add(C, X)) && Only(s0, c[..], cp, n)
      invariant Rest(a[..], ap, n, P, i) && Rest(c[..], cp, n, C, i)
      invariant cy == Carry(P, i, k)
    {
      RestWord(a, ap, n, P, i);
      RestWord(c, cp, n, C, i);
      BitLoops.WShift(P, k, i);
      CarryIn(P, i, k);
      CarryNext(P, i, k);
      WAdd(C, X, i);
      ghost var s, t := c[..], a[..];
      var w := a[ap + i];
      c[cp + i] := Xor(c[cp + i], Or(Shl(w, k), cy));
      cy := Shr(w, 64 - k);
      AddedWord(c, s, cp, i, n, s0, C, Add(C, X));
      if c == a {
        WroteTwo(s, c[..], cp + i, cp + i);
        WroteRest(s, c[..], cp + i, cp + i, ap, n, P, i);
      } else {
        assert a[..] == t;
        RestLater(t, ap, n, P, i);
      }
    }
  }

  lemma AddedWord(c: array<Word>, s: seq<Word>, cp: nat, i: nat, n: nat, s0: seq<Word>, C: Poly, S: Poly)
    requires i < n && cp + n <= |s| == c.Length && forall x :: 0 <= x < |s| && x != cp + i ==> c[x] == s[x]
    requires Held(s, cp, i, S) && Only(s0, s, cp, n) && Rest(s, cp, n, C, i) && c[cp + i] == W(S, i)
    ensures Held(c[..], cp, i + 1, S) && Only(s0, c[..], cp, n) && Rest(c[..], cp, n, C, i + 1)
  {
    hide Held, Only, W, Wrote, Rest;
    WroteTwo(s, c[..], cp + i, cp + i);
    WroteGrow(s, c[..], cp + i, cp + i, cp, i, S);
    WroteOnly(s0, s, c[..], cp + i, cp + i, cp, n);
    WroteRest(s, c[..], cp + i, cp + i, cp, n, C, i);
  }

  /** c <- c + a. */
  method AddInto(c: array<Word>, cp: nat, a: array<Word>, ap: nat, n: nat, ghost C: Poly, ghost P: Poly)
    requires Held(c[..], cp, n, C) && Held(a[..], ap, n, P)
    requires c != a || cp <= ap || ap + n <= cp
    modifies c
    ensures Held(c[..], cp, n, Add(C, P)) && Only(old(c[..]), c[..], cp, n)
  {
    hide Held, Only, W, Wrote, Rest, Add;
    ghost var s0 := c[..];
    HeldSize(s0, cp, n, C);
    HeldNone(s0, cp, Add(C, P));
    OnlySame(s0, cp, n);
    HeldRest(a[..], ap, n, P);
    HeldRest(c[..], cp, n, C);
    for i := 0 to n
      invariant Held(c[..], cp, i, Add(C, P)) && Only(s0, c[..], cp, n)
      invariant Rest(a[..], ap, n, P, i) && Rest(c[..], cp, n, C, i)
    {
      RestWord(a, ap, n, P, i);
      RestWord(c, cp, n, C, i);
      WAdd(C, P, i);
      ghost var s, t := c[..], a[..];
      var w := a[ap + i];
      c[cp + i] := Xor(c[cp + i], w);
      AddedWord(c, s, cp, i, n, s0, C, Add(C, P));
      if c == a {
        WroteTwo(s, c[..], cp + i, cp + i);
        WroteRest(s, c[..], cp + i, cp + i, ap, n, P, i);
      } else {
        assert a[..] == t;
        RestLater(t, ap, n, P, i);
      }
    }
  }

  /** Upwards - for k = 0 - c may begin in a or below it, downwards in a or above it. */
  predicate RshOverlap(cp: nat, ap: nat, n: nat, k: nat) {
    Apart(cp, n, ap, n) || (if k == 0 then cp <= ap else ap <= cp)
  }

  /** The bits that are shifted out of the lowest word. */
  function LowCarry(P: Poly, n: nat, k: nat): Word
    requires k < 64
  {
    if n == 0 || k == 0 then {} else Shl(W(P, 0), 64 - k)
  }

  /** c <- a / x^k, returns the carry. */
  method Rsh(c: array<Word>, cp: nat, a: array<Word>, ap: nat, n: nat, k: nat) returns (cy: Word)
    requires cp + n <= c.Length && ap + n <= a.Length && k < 64
    requires c != a || RshOverlap(cp, ap, n, k)
    modifies c
    ensures Val(c[..]) == Put(old(Val(c[..])), cp, n, Shift(High(old(Part(a[..], ap, n)), k), 64 * cp))
    ensures cy == LowCarry(old(Part(a[..], ap, n)), n, k)
  {
    hide Held, Only, W, Wrote, Rest, Part, Val, Put, Shift, High, Shl, Shr, Or;
    ghost var s0, P := c[..], Part(a[..], ap, n);
    ghost var X := High(P, k);
    PartHeld(a[..], ap, n);
    if k == 0 {
      ShiftNone(P);
      Copy(c, cp, a, ap, n, P);
      HeldPut(s0, c[..], cp, n, P);
      return {};
    }
    RestNone(s0, cp, n, X);
    OnlySame(s0, cp, n);
    cy := {};
    var i := n;
    while i > 0
      invariant 0 <= i <= n && Rest(c[..], cp, n, X, i) && Only(s0, c[..], cp, n) && Held(a[..], ap, i, P)
      invariant cy == if i < n then Shl(W(P, i), 64 - k) else {}
    {
      i := i - 1;
      HeldWord(a, ap, i + 1, P, i);
      HeldPrefix(a[..], ap, i + 1, P, i);
      UnshiftedWord(P, n, i, k);
      ghost var s, t := c[..], a[..];
      var w := a[ap + i];
      c[cp + i] := Or(Shr(w, k), cy);
      cy := Shl(w, 64 - k);
      WroteTwo(s, c[..], cp + i, cp + i);
      WroteBelow(s, c[..], cp, n, X, i);
      WroteOnly(s0, s, c[..], cp + i, cp + i, cp, n);
      if c == a {
        WroteKeep(s, c[..], cp + i, cp + i, ap, i, P);
      } else {
        assert a[..] == t;
      }
    }
    HeldRest(c[..], cp, n, X);
    HeldPut(s0, c[..], cp, n, X);
  }

  lemma RestNone(s: seq<Word>, p: nat, n: nat, P: Poly)
    requires p + n <= |s|
    ensures Rest(s, p, n, P, n)
  {
  }

  lemma WroteBelow(s: seq<Word>, t: seq<Word>, p: nat, n: nat, P: Poly, j: nat)
    requires j < n && Wrote(s, t, p + j, p + j) && Rest(s, p, n, P, j + 1) && p + j < |t| && t[p + j] == W(P, j)
    ensures Rest(t, p, n, P, j)
  {
    hide W;
  }

  /** c <- c + a / x^k, returns the carry. */
  method AddRsh(c: array<Word>, cp: nat, a: array<Word>, ap: nat, n: nat, k: nat) returns (cy: Word)
    requires cp + n <= c.Length && ap + n <= a.Length && k < 64
    requires c != a || RshOverlap(cp, ap, n, k)
    modifies c
    ensures Val(c[..]) == Add(old(Val(c[..])), Shift(High(old(Part(a[..], ap, n)), k), 64 * cp))
    ensures cy == LowCarry(old(Part(a[..], ap, n)), n, k)
  {
    hide Held, Only, W, Wrote, Rest, Part, Val, Within, Shift, High, Shl, Shr, Or, Add;
    ghost var s0, P, C := c[..], Part(a[..], ap, n), Part(c[..], cp, n);
    ghost var X := High(P, k);
    PartHeld(a[..], ap, n);
    PartHeld(c[..], cp, n);
    AllWithin(X, cp, n, P, k);
    if k == 0 {
      ShiftNone(P);
      AddInto(c, cp, a, ap, n, C, P);
      HeldAdd(s0, c[..], cp, n, P);
      return {};
    }
    RestNone(s0, cp, n, Add(C, X));
    OnlySame(s0, cp, n);
    cy := {};
    var i := n;
    while i > 0
      invariant 0 <= i <= n && Rest(c[..], cp, n, Add(C, X), i) && Only(s0, c[..], cp, n)
      invariant Held(a[..], ap, i, P) && Held(c[..], cp, i, C)
      invariant cy == if i < n then Shl(W(P, i), 64 - k) else {}
    {
      HeldWord(c, cp, i, C, i - 1);
      HeldPrefix(c[..], cp, i, C, i - 1);
      i := i - 1;
      HeldWord(a, ap, i + 1, P, i);
      HeldPrefix(a[..], ap, i + 1, P, i);
      UnshiftedWord(P, n, i, k);
      WAdd(C, X, i);
      ghost var s, t := c[..], a[..];
      var w := a[ap + i];
      c[cp + i] := Xor(c[cp + i], Or(Shr(w, k), cy));
      cy := Shl(w, 64 - k);
      WroteTwo(s, c[..], cp + i, cp + i);
      WroteBelow(s, c[..], cp, n, Add(C, X), i);
      WroteKeep(s, c[..], cp + i, cp + i, cp, i, C);
      WroteOnly(s0, s, c[..], cp + i, cp + i, cp, n);
      if c == a {
        WroteKeep(s, c[..], cp + i, cp + i, ap, i, P);
      } else {
        assert a[..] == t;
      }
    }
    HeldRest(c[..], cp, n, Add(C, X));
    HeldAdd(s0, c[..], cp, n, X);
  }

  lemma AllWithin(X: Poly, p: nat, n: nat, P: Poly, k: nat)
    requires Fits(P, n) && X == High(P, k)
    ensures Within(Shift(X, 64 * p), p, n) == Shift(X, 64 * p)
  {
    hide Shift, High, Within;
    forall i: nat
      ensures i in Within(Shift(X, 64 * p), p, n) <==> i in Shift(X, 64 * p)
    {
      if i in Shift(X, 64 * p) {
        assert i - 64 * p in X;
        assert i - 64 * p + k in P;
      }
    }
  }
}
