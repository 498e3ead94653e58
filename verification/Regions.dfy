/** A region of the memory seen by itself: the routines of gf2x-1.1/fft.c that shift and add words,
    on a region {p, n} whose value is V. */
module Regions {
  import opened Polynomials
  import opened Words
  import opened WordMemory
  import opened ShiftLoops
  import opened ResidueWords

  lemma LocalPut(s: seq<Word>, t: seq<Word>, p: nat, n: nat, x: nat, m: nat, X: Poly)
    requires p + n <= |s| == |t| && x + m <= n
    requires Val(t) == Put(Val(s), p + x, m, Shift(X, 64 * (p + x)))
    ensures Part(t, p, n) == Put(Part(s, p, n), x, m, Shift(X, 64 * x)) && Only(s, t, p, n)
  {
    hide Val, Part, Put, Shift;
    forall i: nat
      ensures i in Part(t, p, n) <==> i in Put(Part(s, p, n), x, m, Shift(X, 64 * x))
    {
      PartBit(s, p, n, i);
      PartBit(t, p, n, i);
      LocalShift(X, p, x, i);
    }
    forall y | 0 <= y < |s| && !(p <= y < p + n)
      ensures t[y] == s[y]
    {
      SameWord(s, t, y);
    }
  }

  lemma LocalShift(X: Poly, p: nat, x: nat, i: nat)
    ensures 64 * p + i in Shift(X, 64 * (p + x)) <==> i in Shift(X, 64 * x)
  {
    hide Shift;
    assert 64 * p + i - 64 * (p + x) == i - 64 * x;
  }

  lemma SameWord(s: seq<Word>, t: seq<Word>, y: nat)
    requires y < |s| == |t| && forall i :: 64 * y <= i < 64 * y + 64 ==> (i in Val(t) <==> i in Val(s))
    ensures t[y] == s[y]
  {
    hide Val;
    forall b: nat
      ensures b in t[y] <==> b in s[y]
    {
      if b < 64 {
        BitOfWord(s, y, b);
        BitOfWord(t, y, b);
      } else {
        WordBound(s[y], b);
        WordBound(t[y], b);
      }
    }
  }

  lemma ShiftRange(Y: Poly, k: nat, e: nat, i: nat)
    requires Fits(Y, k)
    ensures i in Shift(Y, 64 * e) ==> 64 * e <= i < 64 * (e + k)
  {
    hide Shift;
    if i in Shift(Y, 64 * e) {
      assert i - 64 * e in Y;
    }
  }

  lemma LocalAdd(s: seq<Word>, t: seq<Word>, p: nat, n: nat, x: nat, Y: Poly)
    requires p + n <= |s| == |t| && x <= n && Fits(Y, n - x)
    requires Val(t) == Add(Val(s), Shift(Y, 64 * (p + x)))
    ensures Part(t, p, n) == Add(Part(s, p, n), Shift(Y, 64 * x)) && Only(s, t, p, n)
  {
    hide Val, Part, Shift, Add;
    forall i: nat
      ensures i in Part(t, p, n) <==> i in Add(Part(s, p, n), Shift(Y, 64 * x))
    {
      PartBit(s, p, n, i);
      PartBit(t, p, n, i);
      LocalShift(Y, p, x, i);
      ShiftRange(Y, n - x, x, i);
    }
    forall y | 0 <= y < |s| && !(p <= y < p + n)
      ensures t[y] == s[y]
    {
      forall i | 64 * y <= i < 64 * y + 64
        ensures i in Val(t) <==> i in Val(s)
      {
        ShiftRange(Y, n - x, p + x, i);
      }
      SameWord(s, t, y);
    }
  }

  lemma HighFits(P: Poly, m: nat, k: nat)
    requires Fits(P, m)
    ensures Fits(High(P, k), m)
  {
  }

  /** The region {p, n} holds V; nothing outside it has changed since s. */
  ghost predicate Local(s: seq<Word>, t: seq<Word>, p: nat, n: nat, V: Poly) {
    p + n <= |t| && Part(t, p, n) == V && Only(s, t, p, n)
  }

  /** V' is V with the words from x on replaced by the part {q, m} of t without its k lowest bits. */
  method RshLocal(mem: array<Word>, p: nat, n: nat, src: array<Word>, q: nat, m: nat, k: nat, ghost s: seq<Word>,
                  ghost V: Poly, ghost T: Poly)
    requires Local(s, mem[..], p, n, V) && Held(src[..], q, m, T) && Fits(T, m) && m <= n && k < 64
      && (src != mem || Apart(p, n, q, m))
    modifies mem
    ensures Local(s, mem[..], p, n, Put(V, 0, m, Shift(High(T, k), 0)))
  {
    hide Val, Part, Put, Shift, High, Only, Held, Fits;
    ghost var s0 := mem[..];
    HeldSize(src[..], q, m, T);
    HeldPart(src[..], q, m, T);
    var _ := Rsh(mem, p, src, q, m, k);
    LocalPut(s0, mem[..], p, n, 0, m, High(T, k));
    OnlyTrans(s, s0, mem[..], p, n);
  }

  lemma HeldPart(s: seq<Word>, p: nat, n: nat, P: Poly)
    requires Held(s, p, n, P) && Fits(P, n)
    ensures p + n <= |s| && Part(s, p, n) == P
  {
    hide Part, W, Val;
    HeldSize(s, p, n, P);
    PartHeld(s, p, n);
    forall j | 0 <= j < n
      ensures W(Part(s, p, n), j) == W(P, j)
    {
      assert s[p + j] == W(P, p + j - p) && s[p + j] == W(Part(s, p, n), p + j - p);
    }
    WordsDetermine(Part(s, p, n), P, n);
  }

  method AddRshLocal(mem: array<Word>, p: nat, n: nat, q: nat, m: nat, k: nat, ghost s: seq<Word>, ghost V: Poly,
                     ghost T: Poly)
    requires Local(s, mem[..], p, n, V) && Held(mem[..], q, m, T) && Fits(T, m) && m <= n && k < 64 && Apart(p, n, q, m)
    modifies mem
    ensures Local(s, mem[..], p, n, Add(V, Shift(High(T, k), 0)))
  {
    hide Val, Part, Shift, High, Only, Held, Fits, Add;
    ghost var s0 := mem[..];
    HeldSize(s0, q, m, T);
    HeldPart(s0, q, m, T);
    var _ := AddRsh(mem, p, mem, q, m, k);
    HighFits(T, m, k);
    FitsMore(High(T, k), m, n - 0);
    LocalAdd(s0, mem[..], p, n, 0, High(T, k));
    OnlyTrans(s, s0, mem[..], p, n);
  }

  method AddIntoLocal(mem: array<Word>, p: nat, n: nat, q: nat, m: nat, ghost s: seq<Word>, ghost V: Poly,
                      ghost T: Poly)
    requires Local(s, mem[..], p, n, V) && Held(mem[..], q, m, T) && Fits(T, m) && m <= n && Apart(p, n, q, m)
    modifies mem
    ensures Local(s, mem[..], p, n, Add(V, Shift(T, 0)))
  {
    hide Val, Part, Shift, High, Only, Held, Fits, Add, Within;
    ghost var s0 := mem[..];
    PartHeld(s0, p, m);
    AddInto(mem, p, mem, q, m, Part(s0, p, m), T);
    AddedLocal(s, s0, mem[..], p, n, m, V, T);
  }

  lemma AddedLocal(s: seq<Word>, s0: seq<Word>, t: seq<Word>, p: nat, n: nat, m: nat, V: Poly, T: Poly)
    requires Local(s, s0, p, n, V) && m <= n && Fits(T, m)
    requires Held(t, p, m, Add(Part(s0, p, m), T)) && Only(s0, t, p, m)
    ensures Local(s, t, p, n, Add(V, Shift(T, 0)))
  {
    hide Val, Part, Shift, High, Held, Fits, Add, Within, Only;
    SameLength(s0, t, p, m);
    HeldAdd(s0, t, p, m, T);
    ShiftNone(T);
    AllWithin(T, p, m, T, 0);
    FitsMore(T, m, n);
    assert 64 * (p + 0) == 64 * p && 64 * 0 == 0;
    LocalAdd(s0, t, p, n, 0, T);
    OnlyTrans(s, s0, t, p, n);
  }

  lemma SameLength(s: seq<Word>, t: seq<Word>, p: nat, n: nat)
    requires Only(s, t, p, n)
    ensures |s| == |t|
  {
  }

  method SetWordLocal(mem: array<Word>, p: nat, n: nat, x: nat, w: Word, ghost s: seq<Word>, ghost V: Poly)
      returns (ghost V': Poly)
    requires Local(s, mem[..], p, n, V) && x < n
    modifies mem
    ensures Local(s, mem[..], p, n, V') && WordPut(V', V, x, w)
  {
    hide Val, Part, Shift, Put, Only;
    ghost var s0 := mem[..];
    SetWord(mem, p + x, w);
    LocalPut(s0, mem[..], p, n, x, 1, w);
    OnlyTrans(s, s0, mem[..], p, n);
    V' := Part(mem[..], p, n);
  }

  method XorWordLocal(mem: array<Word>, p: nat, n: nat, x: nat, w: Word, ghost s: seq<Word>, ghost V: Poly)
      returns (ghost V': Poly)
    requires Local(s, mem[..], p, n, V) && x < n
    modifies mem
    ensures Local(s, mem[..], p, n, V') && WordAdded(V', V, x, w)
  {
    hide Val, Part, Shift, Add, Only, Fits;
    ghost var s0 := mem[..];
    XorWord(mem, p + x, w);
    OneWordFits(w, n - x);
    LocalAdd(s0, mem[..], p, n, x, w);
    OnlyTrans(s, s0, mem[..], p, n);
    V' := Part(mem[..], p, n);
  }

  lemma OneWordFits(w: Word, n: nat)
    requires 0 < n
    ensures Fits(w, n)
  {
  }

  method MaskWordLocal(mem: array<Word>, p: nat, n: nat, x: nat, m: nat, ghost s: seq<Word>, ghost V: Poly)
      returns (ghost V': Poly)
    requires Local(s, mem[..], p, n, V) && x < n && m < 64
    modifies mem
    ensures Local(s, mem[..], p, n, V')
    ensures forall i: nat {:trigger i in V'} :: i in V' <==> i in V && !(64 * x + m <= i < 64 * x + 64)
  {
    hide Val, Part, Shift, Put, Only, Mask, WordPut;
    var w := Mask(mem[p + x], m);
    ReadLocal(mem[..], p, n, x);
    ghost var r := mem[p + x];
    V' := SetWordLocal(mem, p, n, x, w, s, V);
    forall i: nat
      ensures i in V' <==> i in V && !(64 * x + m <= i < 64 * x + 64)
    {
      PutBit(V', V, x, w, i);
      if 64 * x <= i < 64 * x + 64 {
        assert i - 64 * x in r <==> i - 64 * x < 64 && 64 * x + (i - 64 * x) in V;
      }
    }
  }

  lemma ReadLocal(s: seq<Word>, p: nat, n: nat, x: nat)
    requires p + n <= |s| && x < n
    ensures IsWord(s[p + x], Part(s, p, n), x)
  {
    hide Val, Part;
    ReadWord(s, p + x);
    var w := s[p + x];
    forall b: nat
      ensures b in w <==> b < 64 && 64 * x + b in Part(s, p, n)
    {
      PartBit(s, p, n, 64 * x + b);
      assert 64 * p + (64 * x + b) == 64 * (p + x) + b;
    }
  }

  method LshLocal(mem: array<Word>, p: nat, n: nat, x: nat, m: nat, k: nat, ghost s: seq<Word>, ghost V: Poly)
      returns (cy: Word, ghost V': Poly, ghost Q: Poly)
    requires Local(s, mem[..], p, n, V) && x + m <= n && m <= x && k < 64
    modifies mem
    ensures Local(s, mem[..], p, n, V') && IsPart(Q, V, 0, m) && IsCarry(cy, Q, m, k)
    ensures V' == Put(V, x, m, Shift(Shift(Q, k), 64 * x))
  {
    hide Val, Part, Shift, Put, Only, Carry, Fits, IsPart, IsCarry;
    ghost var s0 := mem[..];
    Q := Part(s0, p, m);
    PartHeld(s0, p, m);
    CarryIs(Q, m, k);
    FirstPart(s0, p, n, m);
    cy := Lsh(mem, p + x, mem, p, m, k);
    LocalPut(s0, mem[..], p, n, x, m, Shift(Q, k));
    OnlyTrans(s, s0, mem[..], p, n);
    V' := Part(mem[..], p, n);
  }

  lemma FirstPart(s: seq<Word>, p: nat, n: nat, m: nat)
    requires p + n <= |s| && m <= n
    ensures IsPart(Part(s, p, m), Part(s, p, n), 0, m)
  {
    hide Val, Part;
    forall i: nat
      ensures i in Part(s, p, m) <==> i < 64 * m && 64 * 0 + i in Part(s, p, n)
    {
      PartBit(s, p, m, i);
      PartBit(s, p, n, i);
    }
  }

  lemma LocalSize(s: seq<Word>, t: seq<Word>, p: nat, n: nat, V: Poly)
    requires Local(s, t, p, n, V)
    ensures p + n <= |t|
  {
  }

  lemma LocalValue(s: seq<Word>, t: seq<Word>, p: nat, n: nat, V: Poly)
    requires Local(s, t, p, n, V)
    ensures p + n <= |t| && Part(t, p, n) == V
  {
  }

  /** The part {x, m} of T. */
  function PartOf(T: Poly, x: nat, m: nat): (r: Poly)
    ensures forall i: nat {:trigger i in r} :: i in r <==> i < 64 * m && 64 * x + i in T
  {
    hide Low, High;
    Low(High(T, 64 * x), 64 * m)
  }

  lemma ProductPart(s: seq<Word>, q: nat, n: nat, T: Poly, x: nat, m: nat)
    requires Held(s, q, n, T) && x + m <= n
    ensures Held(s, q + x, m, PartOf(T, x, m)) && Fits(PartOf(T, x, m), m)
  {
    hide W;
    forall j | q + x <= j < q + x + m
      ensures s[j] == W(PartOf(T, x, m), j - (q + x))
    {
      PartOfWord(T, x, m, j - (q + x));
      assert x + (j - (q + x)) == j - q;
    }
  }

  lemma PartOfWord(T: Poly, x: nat, m: nat, k: nat)
    requires k < m
    ensures W(PartOf(T, x, m), k) == W(T, x + k)
  {
    hide WordAt, PartOf;
    var u, v := W(PartOf(T, x, m), k), W(T, x + k);
    forall b: nat
      ensures b in u <==> b in v
    {
      if b < 64 {
        assert 64 * x + (64 * k + b) == 64 * (x + k) + b;
      }
    }
  }

  lemma LocalStart(s: seq<Word>, p: nat, n: nat)
    requires p + n <= |s|
    ensures Local(s, s, p, n, Part(s, p, n))
  {
  }

  lemma LocalOnly(s: seq<Word>, t: seq<Word>, p: nat, n: nat, V: Poly)
    requires Local(s, t, p, n, V)
    ensures Only(s, t, p, n)
  {
  }

  lemma SameWordAt(V: Poly, F: Poly, n: nat, k: nat)
    requires k < n && forall i: nat {:trigger i in V} :: i < 64 * n ==> (i in V <==> i in F)
    ensures W(V, k) == W(F, k)
  {
    hide WordAt;
    var u, v := W(V, k), W(F, k);
    forall b: nat
      ensures b in u <==> b in v
    {
      assert b in u <==> b < 64 && 64 * k + b in V;
    }
  }

  lemma LocalResult(s: seq<Word>, t: seq<Word>, p: nat, na: nat, n: nat, V: Poly, F: Poly)
    requires Local(s, t, p, na, V) && n <= na
    requires forall i: nat {:trigger i in V} :: i < 64 * n ==> (i in V <==> i in F)
    ensures Held(t, p, n, F) && Only(s, t, p, na)
  {
    hide Part, WordAt, Only;
    PartHeld(t, p, na);
    forall j | p <= j < p + n
      ensures t[j] == W(F, j - p)
    {
      SameWordAt(V, F, n, j - p);
    }
  }
  lemma SubPart(s: seq<Word>, p: nat, n: nat, q: nat, m: nat, P: Poly)
    requires Held(s, p, n, P) && Fits(P, n) && q + m <= n
    ensures p + n <= |s| && IsPart(Part(s, p + q, m), P, q, m) && Fits(Part(s, p + q, m), m)
  {
    hide Val, Part, Held, Fits;
    HeldSize(s, p, n, P);
    HeldPart(s, p, n, P);
    PartHeld(s, p + q, m);
    var Q := Part(s, p + q, m);
    forall i: nat
      ensures i in Q <==> i < 64 * m && 64 * q + i in P
    {
      PartBit(s, p + q, m, i);
      PartBit(s, p, n, 64 * q + i);
      assert 64 * (p + q) + i == 64 * p + (64 * q + i);
    }
  }

  // ---------------------------------------------------------------- an operand elsewhere

  /** The operand {q, m} holds B and lies apart from the region {p, n}. */
  ghost predicate Operand(s: seq<Word>, p: nat, n: nat, q: nat, m: nat, B: Poly) {
    q + m <= |s| && Held(s, q, m, B) && Fits(B, m) && Apart(p, n, q, m)
  }

  lemma OperandNow(s: seq<Word>, t: seq<Word>, p: nat, n: nat, V: Poly, q: nat, m: nat, B: Poly)
    requires Local(s, t, p, n, V) && Operand(s, p, n, q, m, B)
    ensures |t| == |s| && q + m <= |t| && Held(t, q, m, B) && Fits(B, m) && Apart(p, n, q, m)
  {
    hide Held, Only, Fits, Part;
    SameLength(s, t, p, n);
    HeldKept(s, t, q, m, B, p, n);
  }

  lemma LocalAddWithin(s: seq<Word>, t: seq<Word>, p: nat, n: nat, x: nat, m: nat, Y: Poly)
    requires p + n <= |s| == |t| && x + m <= n
    requires Val(t) == Add(Val(s), Within(Shift(Y, 64 * (p + x)), p + x, m))
    ensures Part(t, p, n) == Add(Part(s, p, n), Within(Shift(Y, 64 * x), x, m)) && Only(s, t, p, n)
  {
    hide Val, Part, Shift, Add;
    forall i: nat
      ensures i in Part(t, p, n) <==> i in Add(Part(s, p, n), Within(Shift(Y, 64 * x), x, m))
    {
      PartBit(s, p, n, i);
      PartBit(t, p, n, i);
      LocalShift(Y, p, x, i);
    }
    forall y | 0 <= y < |s| && !(p <= y < p + n)
      ensures t[y] == s[y]
    {
      SameWord(s, t, y);
    }
  }

  /** The part {x, m} of the operand is shifted up to word x of the region. */
  method LshFrom(mem: array<Word>, p: nat, n: nat, x: nat, q: nat, nb: nat, y: nat, m: nat, k: nat, ghost s: seq<Word>,
                 ghost V: Poly, ghost B: Poly)
      returns (cy: Word, ghost V': Poly, ghost P: Poly)
    requires Local(s, mem[..], p, n, V) && Operand(s, p, n, q, nb, B) && x + m <= n && y + m <= nb && k < 64
    modifies mem
    ensures Local(s, mem[..], p, n, V') && IsPart(P, B, y, m) && IsCarry(cy, P, m, k)
    ensures V' == Put(V, x, m, Shift(Shift(P, k), 64 * x))
  {
    hide Val, Part, Shift, Put, Only, Carry, Fits, IsPart, IsCarry, Held, Operand;
    ghost var s0 := mem[..];
    OperandNow(s, s0, p, n, V, q, nb, B);
    SubPart(s0, q, nb, y, m, B);
    P := Part(s0, q + y, m);
    CarryIs(P, m, k);
    cy := Lsh(mem, p + x, mem, q + y, m, k);
    LocalPut(s0, mem[..], p, n, x, m, Shift(P, k));
    OnlyTrans(s, s0, mem[..], p, n);
    V' := Part(mem[..], p, n);
  }

  /** The same, added to the region; the carry is left to the caller. */
  method AddLshFrom(mem: array<Word>, p: nat, n: nat, x: nat, q: nat, nb: nat, y: nat, m: nat, k: nat,
                    ghost s: seq<Word>, ghost V: Poly, ghost B: Poly)
      returns (cy: Word, ghost V': Poly, ghost P: Poly)
    requires Local(s, mem[..], p, n, V) && Operand(s, p, n, q, nb, B) && x + m <= n && y + m <= nb && k < 64
    modifies mem
    ensures Local(s, mem[..], p, n, V') && IsPart(P, B, y, m) && IsCarry(cy, P, m, k)
    ensures V' == Add(V, Within(Shift(Shift(P, k), 64 * x), x, m))
  {
    hide Val, Part, Shift, Add, Within, Only, Carry, Fits, IsPart, IsCarry, Held, Operand;
    ghost var s0 := mem[..];
    OperandNow(s, s0, p, n, V, q, nb, B);
    SubPart(s0, q, nb, y, m, B);
    P := Part(s0, q + y, m);
    CarryIs(P, m, k);
    cy := AddLsh(mem, p + x, mem, q + y, m, k);
    LocalAddWithin(s0, mem[..], p, n, x, m, Shift(P, k));
    OnlyTrans(s, s0, mem[..], p, n);
    V' := Part(mem[..], p, n);
  }

  /** The part {y, m} of the operand without its k lowest bits becomes the lowest words of the region. */
  method RshFrom(mem: array<Word>, p: nat, n: nat, q: nat, nb: nat, y: nat, m: nat, k: nat, ghost s: seq<Word>,
                 ghost V: Poly, ghost B: Poly)
      returns (ghost V': Poly, ghost P: Poly)
    requires Local(s, mem[..], p, n, V) && Operand(s, p, n, q, nb, B) && m <= n && y + m <= nb && k < 64
    modifies mem
    ensures Local(s, mem[..], p, n, V') && IsPart(P, B, y, m)
    ensures V' == Put(V, 0, m, Shift(High(P, k), 0))
  {
    hide Val, Part, Shift, Put, High, Only, Fits, IsPart, Held, Operand;
    ghost var s0 := mem[..];
    OperandNow(s, s0, p, n, V, q, nb, B);
    SubPart(s0, q, nb, y, m, B);
    P := Part(s0, q + y, m);
    var _ := Rsh(mem, p, mem, q + y, m, k);
    LocalPut(s0, mem[..], p, n, 0, m, High(P, k));
    OnlyTrans(s, s0, mem[..], p, n);
    V' := Part(mem[..], p, n);
  }

  /** The same, added from word x on. */
  method AddRshFrom(mem: array<Word>, p: nat, n: nat, x: nat, q: nat, nb: nat, y: nat, m: nat, k: nat,
                    ghost s: seq<Word>, ghost V: Poly, ghost B: Poly)
      returns (ghost V': Poly, ghost P: Poly)
    requires Local(s, mem[..], p, n, V) && Operand(s, p, n, q, nb, B) && x + m <= n && y + m <= nb && k < 64
    modifies mem
    ensures Local(s, mem[..], p, n, V') && IsPart(P, B, y, m)
    ensures V' == Add(V, Shift(High(P, k), 64 * x))
  {
    hide Val, Part, Shift, Add, High, Only, Fits, IsPart, Held, Operand;
    ghost var s0 := mem[..];
    OperandNow(s, s0, p, n, V, q, nb, B);
    SubPart(s0, q, nb, y, m, B);
    P := Part(s0, q + y, m);
    var _ := AddRsh(mem, p + x, mem, q + y, m, k);
    HighFits(P, m, k);
    FitsMore(High(P, k), m, n - x);
    LocalAdd(s0, mem[..], p, n, x, High(P, k));
    OnlyTrans(s, s0, mem[..], p, n);
    V' := Part(mem[..], p, n);
  }

  lemma ReadFrom(s: seq<Word>, t: seq<Word>, p: nat, n: nat, V: Poly, q: nat, nb: nat, B: Poly, y: nat)
    requires Local(s, t, p, n, V) && Operand(s, p, n, q, nb, B) && y < nb
    ensures q + y < |t| && IsWord(t[q + y], B, y)
  {
    hide Val, Part, Held, Operand, IsWord;
    OperandNow(s, t, p, n, V, q, nb, B);
    HeldPart(t, q, nb, B);
    ReadLocal(t, q, nb, y);
  }
}
