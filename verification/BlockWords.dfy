/** decompose and recompose of gf2x-1.1/fft.c on words: an operand is cut into
    blocks of M bits, and overlapping blocks are added up again. */
module BlockWords {
  import opened Numbers
  import opened Polynomials
  import opened FftAlgebra
  import opened FftConvolution
  import opened Blocks
  import opened Words
  import opened WordMemory
  import opened ShiftLoops
  import opened ResidueWords
  import opened Regions

  /** Where the buffer of block i begins; each has 2 np words. */
  function Block(i: nat, np: nat): nat {
    NonNegative(i, 2 * np);
    i * (2 * np)
  }

  lemma BlockNext(i: nat, np: nat)
    ensures Block(i + 1, np) == Block(i, np) + 2 * np
  {
  }

  lemma {:induction false} BlockOrder(i: nat, l: nat, np: nat)
    requires i < l
    ensures Block(i, np) + 2 * np <= Block(l, np)
    decreases l
  {
    hide Block;
    BlockNext(l - 1, np);
    if i < l - 1 {
      BlockOrder(i, l - 1, np);
    }
  }

  // ---------------------------------------------------------------- cutting

  /** Words x to n - 1 of the region become zero. */
  method ZeroLocal(mem: array<Word>, p: nat, n: nat, x: nat, ghost s: seq<Word>, ghost V: Poly) returns (ghost V': Poly)
    requires Local(s, mem[..], p, n, V) && x <= n
    modifies mem
    ensures Local(s, mem[..], p, n, V')
    ensures forall i: nat {:trigger i in V'} :: i in V' <==> i in V && i < 64 * x
  {
    hide Val, Part, Only, Put, Shift;
    ghost var s0 := mem[..];
    HeldNone(s0, p + x, {});
    OnlySame(s0, p + x, n - x);
    ZeroWords(mem, p + x, n - x);
    HeldPut(s0, mem[..], p + x, n - x, {});
    LocalPut(s0, mem[..], p, n, x, n - x, {});
    OnlyTrans(s, s0, mem[..], p, n);
    V' := Part(mem[..], p, n);
    Cleared(V', V, n, x);
    PartHeld(s0, p, n);
  }

  lemma Cleared(V': Poly, V: Poly, n: nat, x: nat)
    requires x <= n && V' == Put(V, x, n - x, Shift({}, 64 * x))
    ensures Fits(V, n) ==> forall i: nat {:trigger i in V'} :: i in V' <==> i in V && i < 64 * x
  {
    hide Put, Shift;
  }

  method ZeroWords(mem: array<Word>, p: nat, n: nat)
    requires p + n <= mem.Length
    modifies mem
    ensures Held(mem[..], p, n, {}) && Only(old(mem[..]), mem[..], p, n)
  {
    hide Held, Only, W, Wrote;
    ghost var s0 := mem[..];
    HeldNone(s0, p, {});
    OnlySame(s0, p, n);
    for i := 0 to n
      invariant Held(mem[..], p, i, {}) && Only(s0, mem[..], p, n)
    {
      ghost var s := mem[..];
      mem[p + i] := {};
      WZeroWord(i);
      WroteTwo(s, mem[..], p + i, p + i);
      WroteGrow(s, mem[..], p + i, p + i, p, i, {});
      WroteOnly(s0, s, mem[..], p + i, p + i, p, n);
    }
  }

  lemma WZeroWord(i: nat)
    ensures W({}, i) == {}
  {
  }

  /** One block: the M bits of a from bit 64 j + k on, with zeros behind. */
  method CutBlock(tr: array<Word>, p: nat, np: nat, a: array<Word>, ap: nat, an: nat, j: nat, k: nat, M: nat,
                  ghost s: seq<Word>, ghost A: Poly)
    requires tr != a && 0 < M && k < 64 && WordsFor(M) <= np && p + 2 * np <= tr.Length && s == tr[..]
    requires Held(a[..], ap, an, A) && Fits(A, an)
    modifies tr
    ensures Held(tr[..], p, 2 * np, Low(High(A, 64 * j + k), M)) && Only(s, tr[..], p, 2 * np)
  {
    hide Held, Only, Fits, Local, WordsFor, I, R, Put, Shift, High, Low, Part, PartOf;
    var l := WordsFor(k + M);
    if j + l > an {
      l := if an > j then an - j else 0;
    }
    ghost var V := Part(s, p, 2 * np);
    LocalStart(s, p, 2 * np);
    ghost var V2 := V;
    if l > 0 {
      ProductPart(a[..], ap, an, A, j, l);
      RshLocal(tr, p, 2 * np, a, ap + j, l, k, s, V, PartOf(A, j, l));
      ghost var V1 := Put(V, 0, l, Shift(High(PartOf(A, j, l), k), 0));
      V2 := V1;
      if R(M) > 0 {
        V2 := MaskWordLocal(tr, p, 2 * np, I(M), R(M), s, V1);
      }
      if l > WordsFor(M) {
        l := WordsFor(M);
      }
      ghost var V3 := ZeroLocal(tr, p, 2 * np, l, s, V2);
      BlockCut(V, V1, V2, V3, A, an, j, k, M, l);
      LocalResult(s, tr[..], p, 2 * np, 2 * np, V3, Low(High(A, 64 * j + k), M));
    } else {
      ghost var V3 := ZeroLocal(tr, p, 2 * np, 0, s, V2);
      NothingLeft(A, an, j, k, M);
      LocalResult(s, tr[..], p, 2 * np, 2 * np, V3, Low(High(A, 64 * j + k), M));
    }
  }

  /** How many words of a are read for a block. */
  function Available(an: nat, j: nat, k: nat, M: nat): nat {
    if j + WordsFor(k + M) > an then (if an > j then an - j else 0) else WordsFor(k + M)
  }

  lemma BlockCut(V: Poly, V1: Poly, V2: Poly, V3: Poly, A: Poly, an: nat, j: nat, k: nat, M: nat, l: nat)
    requires 0 < M && k < 64 && Fits(A, an)
    requires var l0 := Available(an, j, k, M);
      && 0 < l0 && l == (if l0 > WordsFor(M) then WordsFor(M) else l0)
      && V1 == Put(V, 0, l0, Shift(High(PartOf(A, j, l0), k), 0))
      && (if R(M) > 0 then forall i: nat {:trigger i in V2} ::
        i in V2 <==> i in V1 && !(64 * I(M) + R(M) <= i < 64 * I(M) + 64) else V2 == V1)
      && forall i: nat {:trigger i in V3} :: i in V3 <==> i in V2 && i < 64 * l
    ensures V3 == Low(High(A, 64 * j + k), M)
  {
    hide Fits, WordsFor, I, R, Put, Shift, High, Low, PartOf;
    forall i: nat
      ensures i in V3 <==> i < M && i + (64 * j + k) in A
    {
      BlockBit(V, V1, V2, V3, A, an, j, k, M, l, i);
    }
  }

  lemma BlockBit(V: Poly, V1: Poly, V2: Poly, V3: Poly, A: Poly, an: nat, j: nat, k: nat, M: nat, l: nat, i: nat)
    requires 0 < M && k < 64 && Fits(A, an)
    requires var l0 := Available(an, j, k, M);
      && 0 < l0 && l == (if l0 > WordsFor(M) then WordsFor(M) else l0)
      && V1 == Put(V, 0, l0, Shift(High(PartOf(A, j, l0), k), 0))
      && (if R(M) > 0 then forall i: nat {:trigger i in V2} ::
        i in V2 <==> i in V1 && !(64 * I(M) + R(M) <= i < 64 * I(M) + 64) else V2 == V1)
      && forall i: nat {:trigger i in V3} :: i in V3 <==> i in V2 && i < 64 * l
    ensures i in V3 <==> i < M && i + (64 * j + k) in A
  {
    hide Fits, WordsFor, I, R, Put, Shift, High, Low, PartOf;
    var l0 := Available(an, j, k, M);
    FitsBound(A, an, if i + 64 * j + k >= 64 * an then i + 64 * j + k else 64 * an);
    if i < 64 * l {
      assert i in V1 <==> i + k in PartOf(A, j, l0);
      assert 64 * j + (i + k) == i + (64 * j + k);
    }
  }

  lemma NothingLeft(A: Poly, an: nat, j: nat, k: nat, M: nat)
    requires Fits(A, an) && 0 < M && Available(an, j, k, M) == 0
    ensures Low(High(A, 64 * j + k), M) == {}
  {
    hide WordsFor, High, Low;
    var H := High(A, 64 * j + k);
    forall i: nat
      ensures i in H ==> false
    {
      assert i in H <==> i + (64 * j + k) in A;
    }
  }

  /** Block i holds chunk i for all i below n. */
  ghost predicate Cut(s: seq<Word>, base: nat, np: nat, A: Poly, M: nat, K: nat, n: nat)
    requires n <= K
  {
    forall i :: 0 <= i < n ==> Held(s, base + Block(i, np), 2 * np, Chunks(A, M, K)[i])
  }

  lemma CutMore(s: seq<Word>, t: seq<Word>, base: nat, np: nat, A: Poly, M: nat, K: nat, n: nat)
    requires n < K && Cut(s, base, np, A, M, K, n) && Only(s, t, base + Block(n, np), 2 * np)
    requires Held(t, base + Block(n, np), 2 * np, Chunks(A, M, K)[n])
    ensures Cut(t, base, np, A, M, K, n + 1)
  {
    hide Held, Only, Block, Chunks;
    forall i | 0 <= i < n
      ensures Held(t, base + Block(i, np), 2 * np, Chunks(A, M, K)[i])
    {
      BlockOrder(i, n, np);
      HeldKept(s, t, base + Block(i, np), 2 * np, Chunks(A, M, K)[i], base + Block(n, np), 2 * np);
    }
  }

  lemma CutNone(s: seq<Word>, base: nat, np: nat, A: Poly, M: nat, K: nat)
    ensures Cut(s, base, np, A, M, K, 0)
  {
  }

  /** decompose: {a, an} in K blocks of M bits. */
  method Decompose(tr: array<Word>, base: nat, a: array<Word>, ap: nat, an: nat, M: nat, K: nat, np: nat, ghost A: Poly)
    requires tr != a && 0 < M && WordsFor(M) <= np && base + Block(K, np) <= tr.Length
    requires Held(a[..], ap, an, A) && Fits(A, an)
    modifies tr
    ensures Cut(tr[..], base, np, A, M, K, K) && Only(old(tr[..]), tr[..], base, Block(K, np))
  {
    hide Held, Only, Fits, WordsFor, Chunks, Cut, Low, High, Block;
    var j: nat, k: nat, p: nat := 0, 0, base;
    ghost var s0 := tr[..];
    CutNone(s0, base, np, A, M, K);
    OnlySame(s0, base, Block(K, np));
    BlockZero(np);
    for i := 0 to K
      invariant k < 64 && 64 * j + k == i * M && p == base + Block(i, np)
      invariant Cut(tr[..], base, np, A, M, K, i) && Only(s0, tr[..], base, Block(K, np))
    {
      BlockOrder(i, K, np);
      ghost var s, t := tr[..], a[..];
      CutBlock(tr, p, np, a, ap, an, j, k, M, s, A);
      assert a[..] == t;
      ChunkAt(A, M, K, i);
      CutMore(s, tr[..], base, np, A, M, K, i);
      OnlyInside(s0, s, tr[..], base, Block(K, np), p, 2 * np);
      BlockNext(i, np);
      p := p + 2 * np;
      k := k + M;
      j := j + k / 64;
      k := k % 64;
      assert (i + 1) * M == i * M + M;
    }
  }

  lemma OnlyInside(s: seq<Word>, t: seq<Word>, u: seq<Word>, p: nat, n: nat, q: nat, m: nat)
    requires Only(s, t, p, n) && Only(t, u, q, m) && p <= q && q + m <= p + n
    ensures Only(s, u, p, n)
  {
  }

  lemma BlockZero(np: nat)
    ensures Block(0, np) == 0
  {
  }

  // ---------------------------------------------------------------- adding up

  /** After some blocks with the sum S of less than end bits: the words up to end are right, those behind
      that lie above bit 64 q are zero except for what the blocks have left in the first of them. */
  ghost predicate Summed(V: Poly, S: Poly, U: Poly, end: nat, cn: nat, q: nat) {
    && Reduced(S, 64 * WordsFor(end))
    && (forall b :: b in U ==> 64 * WordsFor(end) <= b < 64 * WordsFor(end) + 64)
    && (forall b: nat {:trigger b in V} :: b < 64 * cn && b < 64 * WordsFor(end) ==> (b in V <==> b in S))
    && (forall b: nat {:trigger b in V} ::
      b < 64 * cn && b >= 64 * WordsFor(end) && b >= 64 * q ==> (b in V <==> b in U))
  }

  /** One block has been added to the words from j on, as far as they exist. */
  ghost predicate BlockAdded(V: Poly, V': Poly, S: Poly, P: Poly, j: nat, k: nat, w2: nat, cn: nat) {
    && (forall b: nat {:trigger b in V'} :: 64 * j <= b < 64 * (j + w2 + 1) && b < 64 * cn
          ==> (b in V' <==> (b in S) != (b >= 64 * j + k && b - (64 * j + k) in P)))
    && (forall b: nat {:trigger b in V'} ::
      b < 64 * j || b >= 64 * (j + w2 + 1) || b >= 64 * cn ==> (b in V' <==> b in V))
  }

  lemma SummedNext(V: Poly, V': Poly, S: Poly, U: Poly, P: Poly, j: nat, k: nat, M: nat, Np: nat, cn: nat, q: nat)
    requires k < 64 && 0 < M <= Np && Reduced(P, 2 * Np) && Summed(V, S, U, 64 * j + k + 2 * Np - M, cn, q)
    requires !ReadsBehind(M, Np, cn, 64 * j + k) && BlockAdded(V, V', S, P, j, k, WordsFor(2 * Np), cn)
    ensures Summed(V', Add(S, Shift(P, 64 * j + k)), {}, 64 * j + k + 2 * Np, cn, q)
  {
    hide WordsFor, Add, Shift, Reduced, BlockAdded;
    var e := 64 * j + k;
    var S' := Add(S, Shift(P, e));
    EndWords(j, k, M, Np, cn);
    forall b | b in S'
      ensures b < 64 * WordsFor(e + 2 * Np)
    {
      ReducedAt(S, 64 * WordsFor(e + 2 * Np - M), b);
      if b >= e {
        ReducedAt(P, 2 * Np, b - e);
      }
    }
    ReducedIs(S', 64 * WordsFor(e + 2 * Np));
    forall b: nat | b < 64 * cn
      ensures b < 64 * WordsFor(e + 2 * Np) ==> (b in V' <==> b in S')
      ensures b >= 64 * WordsFor(e + 2 * Np) && b >= 64 * q ==> b !in V'
    {
      BlockAddedAt(V, V', S, P, j, k, WordsFor(2 * Np), cn, b);
      if b >= e {
        ReducedAt(P, 2 * Np, b - e);
      }
      ReducedAt(S, 64 * WordsFor(e + 2 * Np - M), b);
    }
  }

  lemma ReducedIs(P: Poly, T: nat)
    requires forall b :: b in P ==> b < T
    ensures Reduced(P, T)
  {
  }

  lemma BlockAddedAt(V: Poly, V': Poly, S: Poly, P: Poly, j: nat, k: nat, w2: nat, cn: nat, b: nat)
    requires BlockAdded(V, V', S, P, j, k, w2, cn)
    ensures 64 * j <= b < 64 * (j + w2 + 1) && b < 64 * cn
      ==> (b in V' <==> (b in S) != (b >= 64 * j + k && b - (64 * j + k) in P))
    ensures b < 64 * j || b >= 64 * (j + w2 + 1) || b >= 64 * cn ==> (b in V' <==> b in V)
  {
  }

  /** How far the sum reaches before and after a block. */
  lemma EndWords(j: nat, k: nat, M: nat, Np: nat, cn: nat)
    requires k < 64 && 0 < M <= Np
    ensures var (w, w', w2) := (WordsFor(64 * j + k + 2 * Np - M), WordsFor(64 * j + k + 2 * Np), WordsFor(2 * Np));
      && j <= w <= w' <= j + w2 + 1 && j + w2 <= w' && 64 * j + k + 2 * Np <= 64 * w'
      && (ReadsBehind(M, Np, cn, 64 * j + k) <==> w == j + w2 + 1 && j + w2 < cn)
  {
    assert (64 * j + k) / 64 == j && (64 * j + k) % 64 == k;
  }

  // The steps for one block: high words first, then the overlap.

  /** z < w2: the words of P from z on go to j + z, what is carried out to j + w2. */
  lemma HighWritten(V: Poly, V1: Poly, V2: Poly, P: Poly, Q: Poly, cy: Word, j: nat, k: nat, z: nat, w2: nat)
    requires k < 64 && z < w2 && Reduced(P, 64 * w2)
    requires IsPart(Q, P, z, w2 - z) && IsCarry(cy, Q, w2 - z, k)
    requires V1 == Put(V, j + z, w2 - z, Shift(Shift(Q, k), 64 * (j + z))) && WordPut(V2, V1, j + w2, cy)
    ensures HighDone(V, V2, P, j, k, z, w2 + 1)
  {
    hide Put, Shift, WordPut, IsPart, IsCarry;
    forall b: nat
      ensures b in V2 <==> if 64 * (j + z) <= b < 64 * (j + w2 + 1)
                           then b >= 64 * (j + z) + k && b - (64 * j + k) in P else b in V
    {
      PutBit(V2, V1, j + w2, cy, b);
      if 64 * (j + z) <= b < 64 * (j + w2) {
        HighPart(V, V1, P, Q, j, k, z, w2 - z, b);
      } else if b >= 64 * (j + w2) {
        HighCarry(P, Q, cy, j, k, z, w2, b);
      }
    }
  }

  /** The words j + z to j + x - 1 hold P without its z lowest words. */
  ghost predicate HighDone(V: Poly, V': Poly, P: Poly, j: nat, k: nat, z: nat, x: nat) {
    forall b: nat {:trigger b in V'} :: b in V' <==> if 64 * (j + z) <= b < 64 * (j + x)
                                                     then b >= 64 * (j + z) + k && b - (64 * j + k) in P else b in V
  }

  lemma HighPart(V: Poly, V1: Poly, P: Poly, Q: Poly, j: nat, k: nat, z: nat, m: nat, b: nat)
    requires k < 64 && IsPart(Q, P, z, m) && 64 * (j + z) <= b < 64 * (j + z + m)
    requires V1 == Put(V, j + z, m, Shift(Shift(Q, k), 64 * (j + z)))
    ensures b in V1 <==> b >= 64 * (j + z) + k && b - (64 * j + k) in P
  {
    hide Put, Shift;
    assert b in V1 <==> b >= 64 * (j + z) + k && b - 64 * (j + z) - k in Q;
  }

  lemma HighCarry(P: Poly, Q: Poly, cy: Word, j: nat, k: nat, z: nat, w2: nat, b: nat)
    requires k < 64 && z < w2 && Reduced(P, 64 * w2) && IsPart(Q, P, z, w2 - z) && IsCarry(cy, Q, w2 - z, k)
    requires 64 * (j + w2) <= b
    ensures b - 64 * (j + w2) in cy <==> b >= 64 * (j + z) + k && b - (64 * j + k) in P
  {
    hide IsPart, IsCarry, Reduced;
    var x := b - 64 * (j + w2);
    CarryAt(Q, cy, w2 - z, k, x);
    if 64 * (w2 - z) + x >= k {
      PartAt(Q, P, z, w2 - z, 64 * (w2 - z) + x - k);
      assert 64 * z + (64 * (w2 - z) + x - k) == b - (64 * j + k);
    }
    if b >= 64 * j + k {
      ReducedAt(P, 64 * w2, b - (64 * j + k));
    }
  }

  lemma CarryAt(Q: Poly, cy: Word, m: nat, k: nat, x: nat)
    requires IsCarry(cy, Q, m, k)
    ensures x in cy <==> 64 * m + x >= k && 64 * m + x - k in Q
  {
  }

  lemma PartAt(Q: Poly, P: Poly, z: nat, m: nat, y: nat)
    requires IsPart(Q, P, z, m)
    ensures y in Q <==> y < 64 * m && 64 * z + y in P
  {
  }

  lemma ReducedAt(P: Poly, T: nat, y: nat)
    requires Reduced(P, T)
    ensures y in P ==> y < T
  {
  }

  /** The z lowest words of P are added to the words from j on, the carry to word j + z. */
  lemma OverlapAdded(V2: Poly, V3: Poly, V4: Poly, P: Poly, Q: Poly, cy: Word, j: nat, k: nat, z: nat)
    requires k < 64 && IsPart(Q, P, 0, z) && IsCarry(cy, Q, z, k)
    requires V3 == Add(V2, Within(Shift(Shift(Q, k), 64 * j), j, z)) && WordAdded(V4, V3, j + z, cy)
    ensures LowDone(V2, V4, P, j, k, 64 * (j + z) + k)
  {
    hide Shift, Add, Within, WordAdded, IsPart, IsCarry;
    forall b: nat
      ensures b in V4 <==> (b in V2) != (64 * j + k <= b < 64 * (j + z) + k && b - (64 * j + k) in P)
    {
      AddedWordBit(V4, V3, j + z, cy, b);
      LowPart(V2, V3, P, Q, j, k, z, b);
      if 64 * (j + z) <= b {
        LowCarried(P, Q, cy, j, k, z, b);
      }
    }
  }

  /** The bits of P that land below top have been added. */
  ghost predicate LowDone(V: Poly, V': Poly, P: Poly, j: nat, k: nat, top: nat) {
    forall b: nat {:trigger b in V'} :: b in V' <==> (b in V) != (64 * j + k <= b < top && b - (64 * j + k) in P)
  }

  lemma LowPart(V2: Poly, V3: Poly, P: Poly, Q: Poly, j: nat, k: nat, z: nat, b: nat)
    requires k < 64 && IsPart(Q, P, 0, z)
    requires V3 == Add(V2, Within(Shift(Shift(Q, k), 64 * j), j, z))
    ensures b in V3 <==> (b in V2) != (64 * j + k <= b < 64 * (j + z) && b - (64 * j + k) in P)
  {
    hide Shift, Add, Within;
    assert b in Shift(Shift(Q, k), 64 * j) <==> 64 * j + k <= b && b - 64 * j - k in Q;
  }

  lemma LowCarried(P: Poly, Q: Poly, cy: Word, j: nat, k: nat, z: nat, b: nat)
    requires k < 64 && IsPart(Q, P, 0, z) && IsCarry(cy, Q, z, k) && 64 * (j + z) <= b
    ensures b - 64 * (j + z) in cy <==> 64 * j + k <= b < 64 * (j + z) + k && b - (64 * j + k) in P
  {
    var x := b - 64 * (j + z);
    assert x in cy <==> 64 * z + x >= k && 64 * z + x - k in Q;
  }

  /** Up to which word of the block that begins in word j the high words are written. */
  function HighEnd(j: nat, z: nat, w2: nat, cn: nat): nat {
    if j + w2 < cn then (if z <= w2 then w2 + 1 else z) else if j + z < cn then cn - j else z
  }

  /** The words of block i that lie above those of its predecessor. */
  method AddBlockHigh(c: array<Word>, cn: nat, tr: array<Word>, p: nat, j: nat, k: nat, z: nat, w2: nat, ghost P: Poly)
    requires c != tr && cn <= c.Length && k < 64 && Held(tr[..], p, w2, P) && Reduced(P, 64 * w2)
    modifies c
    ensures HighDone(old(Val(c[..])), Val(c[..]), P, j, k, z, HighEnd(j, z, w2, cn))
  {
    hide Val, Part, Held, Put, Shift, IsPart, IsCarry, Carry, WordPut, HighDone, Fits, Reduced;
    ghost var V := Val(c[..]);
    ReducedFits(P, w2);
    HeldSize(tr[..], p, w2, P);
    if j + w2 < cn {
      if z < w2 {
        SubPart(tr[..], p, w2, z, w2 - z, P);
        ghost var Q := Part(tr[..], p + z, w2 - z);
        CarryIs(Q, w2 - z, k);
        var cy := Lsh(c, j + z, tr, p + z, w2 - z, k);
        ghost var V1 := Val(c[..]);
        SetWord(c, j + w2, cy);
        HighWritten(V, V1, Val(c[..]), P, Q, cy, j, k, z, w2);
      } else if z == w2 {
        SetWord(c, j + w2, {});
        HighZero(V, Val(c[..]), P, j, k, w2);
      } else {
        HighNothing(V, P, j, k, z);
      }
    } else if j + z < cn {
      SubPart(tr[..], p, w2, z, cn - j - z, P);
      var cy := Lsh(c, j + z, tr, p + z, cn - j - z, k);
      HighCut(V, Val(c[..]), P, Part(tr[..], p + z, cn - j - z), j, k, z, cn - j - z);
    } else {
      HighNothing(V, P, j, k, z);
    }
  }

  lemma ReducedFits(P: Poly, n: nat)
    requires Reduced(P, 64 * n)
    ensures Fits(P, n)
  {
  }

  lemma HighZero(V: Poly, V': Poly, P: Poly, j: nat, k: nat, w2: nat)
    requires WordPut(V', V, j + w2, {}) && Reduced(P, 64 * w2)
    ensures HighDone(V, V', P, j, k, w2, w2 + 1)
  {
    hide WordPut;
    forall b: nat
      ensures b in V' <==> if 64 * (j + w2) <= b < 64 * (j + (w2 + 1))
                           then b >= 64 * (j + w2) + k && b - (64 * j + k) in P else b in V
    {
      PutBit(V', V, j + w2, {}, b);
    }
  }

  lemma HighCut(V: Poly, V': Poly, P: Poly, Q: Poly, j: nat, k: nat, z: nat, m: nat)
    requires k < 64 && IsPart(Q, P, z, m) && V' == Put(V, j + z, m, Shift(Shift(Q, k), 64 * (j + z)))
    ensures HighDone(V, V', P, j, k, z, z + m)
  {
    hide Put, Shift, IsPart;
    forall b: nat
      ensures b in V' <==> if 64 * (j + z) <= b < 64 * (j + (z + m))
                           then b >= 64 * (j + z) + k && b - (64 * j + k) in P else b in V
    {
      if 64 * (j + z) <= b < 64 * (j + z + m) {
        HighPart(V, V', P, Q, j, k, z, m, b);
      }
    }
  }

  lemma HighNothing(V: Poly, P: Poly, j: nat, k: nat, z: nat)
    ensures HighDone(V, V, P, j, k, z, z)
  {
  }

  /** The words of block i that its predecessor reaches. */
  method AddBlockLow(c: array<Word>, cn: nat, tr: array<Word>, p: nat, j: nat, k: nat, z: nat, ghost w2: nat,
                     ghost P: Poly)
    requires c != tr && cn <= c.Length && k < 64 && Held(tr[..], p, w2, P) && Reduced(P, 64 * w2)
    requires if j + z < cn then z <= w2 else cn <= j + w2
    modifies c
    ensures LowDone(old(Val(c[..])), Val(c[..]), P, j, k,
      if j + z < cn then 64 * (j + z) + k else if j < cn then 64 * cn else 0)
  {
    hide Val, Part, Held, Within, Shift, Add, IsPart, IsCarry, Carry, WordAdded, LowDone, Fits, Reduced;
    ghost var V := Val(c[..]);
    ReducedFits(P, w2);
    HeldSize(tr[..], p, w2, P);
    if j + z < cn {
      SubPart(tr[..], p, w2, 0, z, P);
      ghost var Q := Part(tr[..], p + 0, z);
      CarryIs(Q, z, k);
      var cy := AddLsh(c, j, tr, p, z, k);
      ghost var V3 := Val(c[..]);
      XorWord(c, j + z, cy);
      OverlapAdded(V, V3, Val(c[..]), P, Q, cy, j, k, z);
    } else if j < cn {
      SubPart(tr[..], p, w2, 0, cn - j, P);
      ghost var Q := Part(tr[..], p + 0, cn - j);
      var cy := AddLsh(c, j, tr, p, cn - j, k);
      LowCut(V, Val(c[..]), P, Q, j, k, cn - j);
    } else {
      LowNothing(V, P, j, k);
    }
  }

  lemma LowCut(V: Poly, V': Poly, P: Poly, Q: Poly, j: nat, k: nat, m: nat)
    requires k < 64 && IsPart(Q, P, 0, m) && V' == Add(V, Within(Shift(Shift(Q, k), 64 * j), j, m))
    ensures LowDone(V, V', P, j, k, 64 * (j + m))
  {
    hide Add, Within, Shift, IsPart;
    forall b: nat
      ensures b in V' <==> (b in V) != (64 * j + k <= b < 64 * (j + m) && b - (64 * j + k) in P)
    {
      LowPart(V, V', P, Q, j, k, m, b);
    }
  }

  lemma LowNothing(V: Poly, P: Poly, j: nat, k: nat)
    ensures LowDone(V, V, P, j, k, 0)
  {
  }

  lemma BothAdded(V: Poly, V2: Poly, V': Poly, S: Poly, P: Poly, j: nat, k: nat, z: nat, w2: nat, cn: nat)
    requires k < 64 && Reduced(P, 64 * w2) && Reduced(S, 64 * (j + z))
    requires forall b: nat {:trigger b in V} :: b < 64 * cn && b < 64 * (j + z) ==> (b in V <==> b in S)
    requires j + w2 < cn ==> z <= w2
    requires HighDone(V, V2, P, j, k, z, HighEnd(j, z, w2, cn))
    requires LowDone(V2, V', P, j, k, if j + z < cn then 64 * (j + z) + k else if j < cn then 64 * cn else 0)
    ensures BlockAdded(V, V', S, P, j, k, w2, cn)
  {
    hide HighDone, LowDone, BlockAdded, Reduced;
    forall b: nat
      ensures 64 * j <= b < 64 * (j + w2 + 1) && b < 64 * cn
          ==> (b in V' <==> (b in S) != (b >= 64 * j + k && b - (64 * j + k) in P))
      ensures b < 64 * j || b >= 64 * (j + w2 + 1) || b >= 64 * cn ==> (b in V' <==> b in V)
    {
      HighAt(V, V2, P, j, k, z, HighEnd(j, z, w2, cn), b);
      LowAt(V2, V', P, j, k, if j + z < cn then 64 * (j + z) + k else if j < cn then 64 * cn else 0, b);
      if b >= 64 * j + k {
        ReducedAt(P, 64 * w2, b - (64 * j + k));
      }
      ReducedAt(S, 64 * (j + z), b);
    }
    BlockAddedIs(V, V', S, P, j, k, w2, cn);
  }

  lemma HighAt(V: Poly, V': Poly, P: Poly, j: nat, k: nat, z: nat, x: nat, b: nat)
    requires HighDone(V, V', P, j, k, z, x)
    ensures b in V' <==> if 64 * (j + z) <= b < 64 * (j + x) then b >= 64 * (j + z) + k && b - (64 * j + k) in P
                         else b in V
  {
  }

  lemma LowAt(V: Poly, V': Poly, P: Poly, j: nat, k: nat, top: nat, b: nat)
    requires LowDone(V, V', P, j, k, top)
    ensures b in V' <==> (b in V) != (64 * j + k <= b < top && b - (64 * j + k) in P)
  {
  }

  lemma BlockAddedIs(V: Poly, V': Poly, S: Poly, P: Poly, j: nat, k: nat, w2: nat, cn: nat)
    requires forall b: nat {:trigger b in V'} :: 64 * j <= b < 64 * (j + w2 + 1) && b < 64 * cn
               ==> (b in V' <==> (b in S) != (b >= 64 * j + k && b - (64 * j + k) in P))
    requires forall b: nat {:trigger b in V'} ::
      b < 64 * j || b >= 64 * (j + w2 + 1) || b >= 64 * cn ==> (b in V' <==> b in V)
    ensures BlockAdded(V, V', S, P, j, k, w2, cn)
  {
  }

  // ---------------------------------------------------------------- the words of c seen by themselves

  /** The value of the words of c from word cp on. */
  function Above(s: seq<Word>, cp: nat): Poly {
    High(Val(s), 64 * cp)
  }

  lemma HighAbove(V: Poly, V': Poly, P: Poly, cp: nat, j: nat, k: nat, z: nat, x: nat)
    requires HighDone(V, V', P, cp + j, k, z, x)
    ensures HighDone(High(V, 64 * cp), High(V', 64 * cp), P, j, k, z, x)
    ensures forall b: nat {:trigger b in V'} ::
      b < 64 * (cp + j + z) || b >= 64 * (cp + j + x) ==> (b in V' <==> b in V)
  {
    hide High, HighDone;
    var H, H' := High(V, 64 * cp), High(V', 64 * cp);
    forall b: nat
      ensures b in H' <==> if 64 * (j + z) <= b < 64 * (j + x) then b >= 64 * (j + z) + k && b - (64 * j + k) in P
                           else b in H
    {
      HighAt(V, V', P, cp + j, k, z, x, b + 64 * cp);
      assert b + 64 * cp - (64 * (cp + j) + k) == b - (64 * j + k);
    }
    HighIs(H, H', P, j, k, z, x);
    forall b: nat | b < 64 * (cp + j + z) || b >= 64 * (cp + j + x)
      ensures b in V' <==> b in V
    {
      HighAt(V, V', P, cp + j, k, z, x, b);
    }
  }

  lemma HighIs(V: Poly, V': Poly, P: Poly, j: nat, k: nat, z: nat, x: nat)
    requires forall b: nat {:trigger b in V'} :: b in V' <==> if 64 * (j + z) <= b < 64 * (j + x)
                                                              then b >= 64 * (j + z) + k && b - (64 * j + k) in P
                                                                else b in V
    ensures HighDone(V, V', P, j, k, z, x)
  {
  }

  lemma LowAbove(V: Poly, V': Poly, P: Poly, cp: nat, j: nat, k: nat, top: nat)
    requires LowDone(V, V', P, cp + j, k, top)
    ensures LowDone(High(V, 64 * cp), High(V', 64 * cp), P, j, k, if top >= 64 * cp then top - 64 * cp else 0)
    ensures forall b: nat {:trigger b in V'} :: b < 64 * cp || b >= top ==> (b in V' <==> b in V)
  {
    hide High, LowDone;
    var H, H' := High(V, 64 * cp), High(V', 64 * cp);
    var top' := if top >= 64 * cp then top - 64 * cp else 0;
    forall b: nat
      ensures b in H' <==> (b in H) != (64 * j + k <= b < top' && b - (64 * j + k) in P)
    {
      LowAt(V, V', P, cp + j, k, top, b + 64 * cp);
      assert b + 64 * cp - (64 * (cp + j) + k) == b - (64 * j + k);
    }
    LowIs(H, H', P, j, k, top');
    forall b: nat | b < 64 * cp || b >= top
      ensures b in V' <==> b in V
    {
      LowAt(V, V', P, cp + j, k, top, b);
    }
  }

  lemma LowIs(V: Poly, V': Poly, P: Poly, j: nat, k: nat, top: nat)
    requires forall b: nat {:trigger b in V'} ::
      b in V' <==> (b in V) != (64 * j + k <= b < top && b - (64 * j + k) in P)
    ensures LowDone(V, V', P, j, k, top)
  {
  }

  /** The words outside {cp, cn} are those of V0. */
  ghost predicate KeptAround(V0: Poly, V: Poly, cp: nat, cn: nat) {
    forall b: nat {:trigger b in V} :: b < 64 * cp || b >= 64 * (cp + cn) ==> (b in V <==> b in V0)
  }

  lemma KeptStep(V0: Poly, V: Poly, V': Poly, cp: nat, cn: nat)
    requires KeptAround(V0, V, cp, cn) && KeptAround(V, V', cp, cn)
    ensures KeptAround(V0, V', cp, cn)
  {
    forall b: nat | b < 64 * cp || b >= 64 * (cp + cn)
      ensures b in V' <==> b in V0
    {
      assert b in V <==> b in V0;
    }
  }

  // ---------------------------------------------------------------- one block

  /** How many words of a block are read. */
  function ReadWords(j: nat, z: nat, w2: nat, cn: nat): nat {
    if j + w2 < cn && z == w2 + 1 then w2 + 1 else w2
  }

  /** Up to which bit the low words of a block are added. */
  function LowTop(j: nat, k: nat, z: nat, cn: nat): nat {
    if j + z < cn then 64 * (j + z) + k else if j < cn then 64 * cn else 0
  }

  /** The words of a block: the residue P and, if it is read, the word behind it. */
  method AddWords(c: array<Word>, cp: nat, cn: nat, tr: array<Word>, p: nat, j: nat, k: nat, z: nat, w2: nat,
                  ghost P: Poly, ghost Pw: Poly) returns (ghost H: Poly)
    requires c != tr && cp + cn <= c.Length && k < 64 && Held(tr[..], p, w2, P) && Reduced(P, 64 * w2)
    requires var w := ReadWords(j, z, w2, cn); Held(tr[..], p, w, Pw) && Reduced(Pw, 64 * w) && z <= w2 + 1
    modifies c
    ensures HighDone(old(Above(c[..], cp)), H, P, j, k, z, HighEnd(j, z, w2, cn))
    ensures LowDone(H, Above(c[..], cp), Pw, j, k, LowTop(j, k, z, cn))
    ensures KeptAround(old(Val(c[..])), Val(c[..]), cp, cn)
  {
    hide Val, Held, HighDone, LowDone, Reduced, High, KeptAround;
    ghost var V := Val(c[..]);
    AddBlockHigh(c, cp + cn, tr, p, cp + j, k, z, w2, P);
    ghost var V1 := Val(c[..]);
    H := Above(c[..], cp);
    AddBlockLow(c, cp + cn, tr, p, cp + j, k, z, ReadWords(j, z, w2, cn), Pw);
    ghost var top := if j + z < cn then 64 * (cp + j + z) + k else if j < cn then 64 * (cp + cn) else 0;
    HighAbove(V, V1, P, cp, j, k, z, HighEnd(j, z, w2, cn));
    LowAbove(V1, Val(c[..]), Pw, cp, j, k, top);
    assert LowTop(j, k, z, cn) == if top >= 64 * cp then top - 64 * cp else 0;
    KeptIs(V, V1, cp, cn);
    KeptIs(V1, Val(c[..]), cp, cn);
    KeptStep(V, V1, Val(c[..]), cp, cn);
  }

  lemma KeptIs(V: Poly, V': Poly, cp: nat, cn: nat)
    requires forall b: nat {:trigger b in V'} :: b < 64 * cp || b >= 64 * (cp + cn) ==> (b in V' <==> b in V)
    ensures KeptAround(V, V', cp, cn)
  {
  }

  /** A block that is not read past its residue. */
  lemma ClearBlock(V: Poly, H: Poly, V': Poly, S: Poly, U: Poly, P: Poly, j: nat, k: nat, M: nat, Np: nat, cn: nat,
                   q: nat, z: nat)
    requires k < 64 && 0 < M <= Np && Reduced(P, 2 * Np) && !ReadsBehind(M, Np, cn, 64 * j + k)
    requires j + z == WordsFor(64 * j + k + 2 * Np - M) && Summed(V, S, U, 64 * j + k + 2 * Np - M, cn, q)
    requires var w2 := WordsFor(2 * Np);
      HighDone(V, H, P, j, k, z, HighEnd(j, z, w2, cn)) && LowDone(H, V', P, j, k, LowTop(j, k, z, cn))
    ensures Summed(V', Add(S, Shift(P, 64 * j + k)), {}, 64 * j + k + 2 * Np, cn, q)
  {
    hide WordsFor, Add, Shift, HighDone, LowDone, BlockAdded, Summed, Reduced;
    var w2 := WordsFor(2 * Np);
    EndWords(j, k, M, Np, cn);
    SummedMeans(V, S, U, 64 * j + k + 2 * Np - M, cn, q);
    ReducedMore(P, 2 * Np, 64 * w2);
    BothAdded(V, H, V', S, P, j, k, z, w2, cn);
    SummedNext(V, V', S, U, P, j, k, M, Np, cn, q);
  }

  lemma SummedMeans(V: Poly, S: Poly, U: Poly, end: nat, cn: nat, q: nat)
    requires Summed(V, S, U, end, cn, q)
    ensures Reduced(S, 64 * WordsFor(end))
    ensures forall b: nat {:trigger b in V} :: b < 64 * cn && b < 64 * WordsFor(end) ==> (b in V <==> b in S)
  {
    hide WordsFor;
  }

  /** A block that is read past its residue: the word x behind it is added as well. */
  lemma SpoiltBlock(V: Poly, H: Poly, V': Poly, S: Poly, U: Poly, P: Poly, x: Word, j: nat, k: nat, M: nat, Np: nat,
                    cn: nat, q: nat, z: nat)
    requires k < 64 && 0 < M <= Np && Reduced(P, 2 * Np) && ReadsBehind(M, Np, cn, 64 * j + k)
    requires j + z == WordsFor(64 * j + k + 2 * Np - M) && Summed(V, S, U, 64 * j + k + 2 * Np - M, cn, q)
    requires var w2 := WordsFor(2 * Np);
      && HighDone(V, H, P, j, k, z, HighEnd(j, z, w2, cn))
      && LowDone(H, V', Add(P, Shift(x, 64 * w2)), j, k, LowTop(j, k, z, cn))
    ensures var pos := 64 * j + k;
      Summed(V', Add(Add(S, Shift(P, pos)), StrayLow(x, Np, pos)), Add(U, StrayHigh(x, Np, pos)), pos + 2 * Np, cn, q)
  {
    hide WordsFor, Add, Shift, HighDone, LowDone, Summed, Reduced, StrayLow, StrayHigh;
    var pos, w2 := 64 * j + k, WordsFor(2 * Np);
    var w := WordsFor(pos + 2 * Np - M);
    EndWords(j, k, M, Np, cn);
    ReducedMore(P, 2 * Np, 64 * w2);
    var S', U' := Add(Add(S, Shift(P, pos)), StrayLow(x, Np, pos)), Add(U, StrayHigh(x, Np, pos));
    forall b: nat
      ensures b in S' ==> b < 64 * w
      ensures b in U' ==> 64 * w <= b < 64 * w + 64
      ensures b < 64 * cn && b < 64 * w ==> (b in V' <==> b in S')
      ensures b < 64 * cn && b >= 64 * w && b >= 64 * q ==> (b in V' <==> b in U')
    {
      SummedAt(V, S, U, pos + 2 * Np - M, cn, q, b);
      StrayAt(x, Np, j, k, w2, b);
      if b >= pos {
        ReducedAt(P, 2 * Np, b - pos);
        assert b in Shift(P, pos) <==> b - pos in P;
      }
      SpoiltBit(V, H, V', P, x, j, k, z, w2, cn, b);
    }
    SummedIs(V', S', U', pos + 2 * Np, cn, q);
  }

  lemma SummedAt(V: Poly, S: Poly, U: Poly, end: nat, cn: nat, q: nat, b: nat)
    requires Summed(V, S, U, end, cn, q)
    ensures b in S ==> b < 64 * WordsFor(end)
    ensures b in U ==> 64 * WordsFor(end) <= b < 64 * WordsFor(end) + 64
    ensures b < 64 * cn && b < 64 * WordsFor(end) ==> (b in V <==> b in S)
    ensures b < 64 * cn && b >= 64 * WordsFor(end) && b >= 64 * q ==> (b in V <==> b in U)
  {
    hide WordsFor;
  }

  lemma SummedIs(V: Poly, S: Poly, U: Poly, end: nat, cn: nat, q: nat)
    requires forall b: nat {:trigger b in S} :: b in S ==> b < 64 * WordsFor(end)
    requires forall b: nat {:trigger b in U} :: b in U ==> 64 * WordsFor(end) <= b < 64 * WordsFor(end) + 64
    requires forall b: nat {:trigger b in V} :: b < 64 * cn && b < 64 * WordsFor(end) ==> (b in V <==> b in S)
    requires forall b: nat {:trigger b in V} ::
      b < 64 * cn && b >= 64 * WordsFor(end) && b >= 64 * q ==> (b in V <==> b in U)
    ensures Summed(V, S, U, end, cn, q)
  {
    hide WordsFor;
  }

  lemma StrayAt(x: Word, Np: nat, j: nat, k: nat, w2: nat, b: nat)
    requires k < 64 && w2 == WordsFor(2 * Np)
    ensures b in StrayLow(x, Np, 64 * j + k)
      <==> 64 * (j + w2) + k <= b < 64 * (j + w2 + 1) && b - (64 * (j + w2) + k) in x
    ensures b in StrayHigh(x, Np, 64 * j + k) <==> 64 * (j + w2 + 1) <= b && b - (64 * (j + w2) + k) in x
    ensures b in StrayHigh(x, Np, 64 * j + k) ==> b < 64 * (j + w2 + 2)
  {
    hide WordsFor, Shift, Low, From;
    assert (64 * j + k) / 64 == j;
    assert b in Shift(x, 64 * w2 + (64 * j + k)) <==> 64 * w2 + (64 * j + k) <= b && b - (64 * w2 + (64 * j + k)) in x;
    if b >= 64 * (j + w2) + k + 64 {
      WordBound(x, b - (64 * (j + w2) + k));
    }
  }

  lemma SpoiltBit(V: Poly, H: Poly, V': Poly, P: Poly, x: Word, j: nat, k: nat, z: nat, w2: nat, cn: nat, b: nat)
    requires k < 64 && z == w2 + 1 && j + w2 < cn && Reduced(P, 64 * w2)
    requires HighDone(V, H, P, j, k, z, HighEnd(j, z, w2, cn))
      && LowDone(H, V', Add(P, Shift(x, 64 * w2)), j, k, LowTop(j, k, z, cn))
    ensures b < 64 * cn ==> (b in V' <==>
      (b in V) != (b >= 64 * j + k
        && ((b - (64 * j + k) in P) != (b >= 64 * (j + w2) + k && b - (64 * (j + w2) + k) in x))))
  {
    hide HighDone, LowDone, Add, Shift, Reduced;
    HighAt(V, H, P, j, k, z, HighEnd(j, z, w2, cn), b);
    LowAt(H, V', Add(P, Shift(x, 64 * w2)), j, k, LowTop(j, k, z, cn), b);
    if b >= 64 * j + k {
      ReducedAt(P, 64 * w2, b - (64 * j + k));
      if b >= 64 * (j + z) + k {
        WordBound(x, b - (64 * (j + w2) + k));
      }
      assert b - (64 * j + k) in Shift(x, 64 * w2) <==> b - (64 * j + k) >= 64 * w2 && b - (64 * j + k) - 64 * w2 in x;
    }
  }

  /** The words behind the residues, where they exist. */
  ghost function WordsBehind(s: seq<Word>, base: nat, K: nat, np: nat, w2: nat): (x: seq<Word>)
    ensures |x| == K
  {
    seq(K, i requires 0 <= i < K => if base + Block(i, np) + w2 < |s| then s[base + Block(i, np) + w2] else {})
  }

  /** Every block holds its residue, with anything behind it. */
  ghost predicate BlocksHeld(s: seq<Word>, base: nat, np: nat, C: seq<Poly>, Np: nat) {
    forall i :: 0 <= i < |C| ==> Held(s, base + Block(i, np), WordsFor(2 * Np), C[i]) && Reduced(C[i], 2 * Np)
  }

  lemma ResidueAt(s: seq<Word>, base: nat, np: nat, C: seq<Poly>, Np: nat, i: nat)
    requires BlocksHeld(s, base, np, C, Np) && i < |C|
    ensures Held(s, base + Block(i, np), WordsFor(2 * Np), C[i]) && Reduced(C[i], 2 * Np)
  {
    hide Held, Block, WordsFor, Reduced;
  }

  lemma DoubleWords(Np: nat)
    ensures WordsFor(2 * Np) <= 2 * WordsFor(Np)
  {
  }

  /** What is read behind block i is what Behind says. */
  lemma BehindIs(s: seq<Word>, base: nat, np: nat, C: seq<Poly>, Np: nat, i: nat)
    requires BlocksHeld(s, base, np, C, Np) && i < |C| && np == WordsFor(Np) && 0 < Np && base + Block(|C|, np) < |s|
    ensures base + Block(i, np) + WordsFor(2 * Np) < |s|
    ensures s[base + Block(i, np) + WordsFor(2 * Np)]
      == Behind(C, WordsBehind(s, base, |C|, np, WordsFor(2 * Np)), Np, i)
  {
    hide Held, Block, WordsFor, Reduced, WordAt, BlocksHeld;
    DoubleWords(Np);
    BlockOrder(i, |C|, np);
    if WordsFor(2 * Np) == 2 * np && i + 1 < |C| {
      BlockNext(i, np);
      ResidueAt(s, base, np, C, Np, i + 1);
      NotEmpty(Np);
      FirstWord(s, base + Block(i + 1, np), WordsFor(2 * Np), C[i + 1]);
    }
  }

  lemma NotEmpty(Np: nat)
    requires 0 < Np
    ensures 0 < WordsFor(2 * Np)
  {
  }

  lemma FirstWord(s: seq<Word>, p: nat, n: nat, P: Poly)
    requires Held(s, p, n, P) && 0 < n
    ensures p < |s| && s[p] == WordAt(P, 0)
  {
    hide WordAt;
  }

  lemma HeldOneMore(s: seq<Word>, p: nat, n: nat, P: Poly)
    requires Held(s, p, n, P) && Reduced(P, 64 * n) && p + n < |s|
    ensures Held(s, p, n + 1, Add(P, Shift(s[p + n], 64 * n))) && Reduced(Add(P, Shift(s[p + n], 64 * n)), 64 * (n + 1))
  {
    hide Held, Add, Shift, Val, Part;
    var x := s[p + n];
    var Q := Add(P, Shift(x, 64 * n));
    ReducedFits(P, n);
    HeldPart(s, p, n, P);
    PartHeld(s, p, n + 1);
    forall i: nat
      ensures i in Part(s, p, n + 1) <==> i in Q
    {
      PartBit(s, p, n + 1, i);
      PartBit(s, p, n, i);
      if 64 * n <= i < 64 * n + 64 {
        BitOfWord(s, p + n, i - 64 * n);
        assert 64 * (p + n) + (i - 64 * n) == 64 * p + i;
      } else if i >= 64 * n + 64 {
        WordBound(x, i - 64 * n);
      }
    }
    assert Part(s, p, n + 1) == Q;
  }

  /** Block i is added to the sum of its predecessors, which end at bit 64 j1 + k1; x is the word behind it. */
  method AddBlock(c: array<Word>, cp: nat, cn: nat, tr: array<Word>, p: nat, j: nat, k: nat, j1: nat, k1: nat, M: nat,
                  Np: nat,
                  ghost S: Poly, ghost U: Poly, ghost P: Poly, ghost q: nat) returns (ghost S': Poly, ghost U': Poly)
    requires c != tr && cp + cn <= c.Length && k < 64 && k1 < 64 && 0 < M <= Np
      && 64 * j1 + k1 == 64 * j + k + 2 * Np - M
    requires Held(tr[..], p, WordsFor(2 * Np), P) && Reduced(P, 2 * Np) && p + WordsFor(2 * Np) < tr.Length
    requires Summed(Above(c[..], cp), S, U, 64 * j1 + k1, cn, q)
    modifies c
    ensures Summed(Above(c[..], cp), S', U', 64 * j + k + 2 * Np, cn, q)
      && KeptAround(old(Val(c[..])), Val(c[..]), cp, cn)
    ensures var (pos, x) := (64 * j + k, tr[p + WordsFor(2 * Np)]);
      if ReadsBehind(M, Np, cn, pos) then S' == Add(Add(S, Shift(P, pos)), StrayLow(x, Np, pos))
        && U' == Add(U, StrayHigh(x, Np, pos))
      else S' == Add(S, Shift(P, pos)) && U' == {}
  {
    hide Val, Held, Add, Shift, HighDone, LowDone, Summed, Reduced, WordsFor, Above, KeptAround, StrayLow, StrayHigh;
    ghost var V := Above(c[..], cp);
    var w2 := WordsFor(2 * Np);
    var z := j1 + (if k1 != 0 then 1 else 0) - j;
    EndWords(j, k, M, Np, cn);
    ReachWords(j1, k1);
    ReducedMore(P, 2 * Np, 64 * w2);
    HeldOneMore(tr[..], p, w2, P);
    ghost var x := tr[p + w2];
    ghost var Pw := if ReadsBehind(M, Np, cn, 64 * j + k) then Add(P, Shift(x, 64 * w2)) else P;
    ghost var H := AddWords(c, cp, cn, tr, p, j, k, z, w2, P, Pw);
    if ReadsBehind(M, Np, cn, 64 * j + k) {
      S', U' := Add(Add(S, Shift(P, 64 * j + k)), StrayLow(x, Np, 64 * j + k)), Add(U, StrayHigh(x, Np, 64 * j + k));
      SpoiltBlock(V, H, Above(c[..], cp), S, U, P, x, j, k, M, Np, cn, q, z);
    } else {
      S', U' := Add(S, Shift(P, 64 * j + k)), {};
      ClearBlock(V, H, Above(c[..], cp), S, U, P, j, k, M, Np, cn, q, z);
    }
  }

  lemma ReachWords(j1: nat, k1: nat)
    requires k1 < 64
    ensures WordsFor(64 * j1 + k1) == j1 + (if k1 != 0 then 1 else 0)
  {
  }

  // ---------------------------------------------------------------- all blocks

  /** The first block is copied. */
  method FirstBlock(c: array<Word>, cp: nat, cn: nat, tr: array<Word>, base: nat, M: nat, Np: nat, np: nat,
                    ghost q: nat, ghost C: seq<Poly>)
    requires c != tr && cp + cn <= c.Length && 0 < |C| && 0 < Np && np == WordsFor(Np)
      && BlocksHeld(tr[..], base, np, C, Np)
    requires forall y :: cp + q <= y < cp + cn ==> c[y] == {}
    modifies c
    ensures Summed(Above(c[..], cp), EvalAt(C[..1], M), {}, 2 * Np, cn, q)
      && KeptAround(old(Val(c[..])), Val(c[..]), cp, cn)
  {
    hide Val, Held, Only, Put, Shift, Summed, BlocksHeld, EvalAt, WordsFor, Reduced, High, KeptAround;
    ghost var s := c[..];
    var m := if WordsFor(2 * Np) < cn then WordsFor(2 * Np) else cn;
    ResidueAt(tr[..], base, np, C, Np, 0);
    BlockZero(np);
    HeldPrefix(tr[..], base, WordsFor(2 * Np), C[0], m);
    Copy(c, cp, tr, base, m, C[0]);
    HeldPut(s, c[..], cp, m, C[0]);
    assert C[..1] == [C[0]];
    OnlyBlock(C[0], M);
    FirstSum(s, c[..], cp, C[0], Np, m, cn, q);
  }

  lemma OnlyBlock(v: Poly, M: nat)
    ensures EvalAt([v], M) == v
  {
    assert [v][1..] == [];
    assert EvalAt([v], M) == Add(v, Shift(EvalAt([], M), M));
  }

  lemma FirstSum(s: seq<Word>, t: seq<Word>, cp: nat, P: Poly, Np: nat, m: nat, cn: nat, q: nat)
    requires cp + cn <= |s| == |t| && m == (if WordsFor(2 * Np) < cn then WordsFor(2 * Np) else cn)
    requires Val(t) == Put(Val(s), cp, m, Shift(P, 64 * cp)) && Reduced(P, 2 * Np)
    requires forall y :: cp + q <= y < cp + cn ==> s[y] == {}
    ensures Summed(Above(t, cp), P, {}, 2 * Np, cn, q) && KeptAround(Val(s), Val(t), cp, cn)
  {
    hide Val, Put, WordsFor, Reduced, Summed, KeptAround, High, Shift;
    EndOfFirst(Np);
    forall b: nat
      ensures b in P ==> b < 64 * WordsFor(2 * Np)
      ensures b < 64 * cn && b < 64 * WordsFor(2 * Np) ==> (b in Above(t, cp) <==> b in P)
      ensures b < 64 * cn && b >= 64 * WordsFor(2 * Np) && b >= 64 * q ==> b !in Above(t, cp)
    {
      ReducedAt(P, 2 * Np, b);
      assert b in Above(t, cp) <==> b + 64 * cp in Val(t);
      assert b + 64 * cp in Shift(P, 64 * cp) <==> b in P;
      if b < 64 * cn && b >= 64 * q {
        ValMember(s, b + 64 * cp);
        assert s[cp + b / 64] == {};
      }
    }
    SummedIs(Above(t, cp), P, {}, 2 * Np, cn, q);
    KeptIs(Val(s), Val(t), cp, cn);
  }

  lemma EndOfFirst(Np: nat)
    ensures 2 * Np <= 64 * WordsFor(2 * Np)
  {
  }

  lemma EvalNext(C: seq<Poly>, M: nat, i: nat)
    requires i < |C|
    ensures EvalAt(C[..i + 1], M) == Add(EvalAt(C[..i], M), Shift(C[i], BlockStart(i, M)))
  {
    hide EvalAt, Add, Shift;
    EvalAppend(C[..i], C[i], M);
    assert C[..i + 1] == C[..i] + [C[i]];
    assert M * i == i * M;
  }

  lemma StartNext(i: nat, M: nat)
    ensures BlockStart(i + 1, M) == BlockStart(i, M) + M
  {
  }

  lemma StartOne(M: nat)
    ensures BlockStart(1, M) == M
  {
  }

  /** What the first n blocks leave. */
  ghost predicate SummedUp(V: Poly, C: seq<Poly>, x: seq<Word>, M: nat, Np: nat, n: nat, end: nat, cn: nat, q: nat)
    requires |C| == |x| && n <= |C| && M <= 2 * Np
  {
    Summed(V, Add(EvalAt(C[..n], M), Strays(C, x, M, Np, cn, n)), Pending(C, x, M, Np, cn, n), end, cn, q)
  }

  lemma FirstSummed(V: Poly, C: seq<Poly>, x: seq<Word>, M: nat, Np: nat, end: nat, cn: nat, q: nat)
    requires |C| == |x| && 1 <= |C| && M <= 2 * Np && Summed(V, EvalAt(C[..1], M), {}, end, cn, q)
    ensures SummedUp(V, C, x, M, Np, 1, end, cn, q)
  {
    hide EvalAt, Summed, ReadsBehind, StrayLow, StrayHigh, Behind;
    assert Strays(C, x, M, Np, cn, 0) == {} && Strays(C, x, M, Np, cn, 1) == {} && Pending(C, x, M, Np, cn, 1) == {};
    assert Add(EvalAt(C[..1], M), {}) == EvalAt(C[..1], M);
  }

  lemma NextSummed(V: Poly, S: Poly, U: Poly, C: seq<Poly>, x: seq<Word>, w: Word, M: nat, Np: nat, n: nat, end: nat,
                   cn: nat, q: nat)
    requires |C| == |x| && 1 <= n < |C| && M <= 2 * Np && Summed(V, S, U, end, cn, q) && w == Behind(C, x, Np, n)
    requires var (pos, S0, U0) :=
      (BlockStart(n, M), Add(EvalAt(C[..n], M), Strays(C, x, M, Np, cn, n)), Pending(C, x, M, Np, cn, n));
      if ReadsBehind(M, Np, cn, pos) then S == Add(Add(S0, Shift(C[n], pos)), StrayLow(w, Np, pos))
        && U == Add(U0, StrayHigh(w, Np, pos))
      else S == Add(S0, Shift(C[n], pos)) && U == {}
    ensures SummedUp(V, C, x, M, Np, n + 1, end, cn, q)
  {
    hide EvalAt, Summed, ReadsBehind, StrayLow, StrayHigh, Behind, Shift, Add, BlockStart;
    var pos, T := BlockStart(n, M), Strays(C, x, M, Np, cn, n);
    EvalNext(C, M, n);
    StraysNext(C, x, M, Np, cn, n);
    var L: Poly := if ReadsBehind(M, Np, cn, pos) then StrayLow(w, Np, pos) else {};
    Rearranged(EvalAt(C[..n], M), T, Shift(C[n], pos), L);
  }

  lemma StraysNext(C: seq<Poly>, x: seq<Word>, M: nat, Np: nat, cn: nat, n: nat)
    requires |C| == |x| && 1 <= n < |C| && M <= 2 * Np
    ensures var (pos, w) := (BlockStart(n, M), Behind(C, x, Np, n));
      && Strays(C, x, M, Np, cn, n + 1)
        == Add(Strays(C, x, M, Np, cn, n), if ReadsBehind(M, Np, cn, pos) then StrayLow(w, Np, pos) else {})
      && Pending(C, x, M, Np, cn, n + 1) == if ReadsBehind(M, Np, cn, pos)
        then Add(Pending(C, x, M, Np, cn, n), StrayHigh(w, Np, pos)) else {}
  {
    hide ReadsBehind, StrayLow, StrayHigh, Behind, Add, BlockStart;
  }

  lemma Rearranged(E: Poly, T: Poly, D: Poly, L: Poly)
    ensures Add(Add(Add(E, T), D), L) == Add(Add(E, D), Add(T, L))
    ensures Add(Add(E, T), D) == Add(Add(E, D), Add(T, {}))
  {
    hide Add;
  }

  /** The sum of all blocks is what the words hold in the end. */
  lemma SummedWhole(s: seq<Word>, t: seq<Word>, cp: nat, S: Poly, U: Poly, end: nat, cn: nat, q: nat)
    requires cp + cn <= |s| == |t| && 64 * q <= end && Summed(Above(t, cp), S, U, end, cn, q)
    requires KeptAround(Val(s), Val(t), cp, cn)
    ensures Held(t, cp, cn, Low(Add(S, U), 64 * cn)) && Only(s, t, cp, cn)
  {
    hide Val, Low, High, WordsFor, Summed, Part, Held, KeptAround, Add;
    forall b: nat
      ensures b in Part(t, cp, cn) <==> b in Low(Add(S, U), 64 * cn)
    {
      PartBit(t, cp, cn, b);
      SummedAt(Above(t, cp), S, U, end, cn, q, b);
      EndReached(end);
    }
    assert Part(t, cp, cn) == Low(Add(S, U), 64 * cn);
    PartHeld(t, cp, cn);
    forall y | 0 <= y < |s| && !(cp <= y < cp + cn)
      ensures t[y] == s[y]
    {
      KeptWord(s, t, cp, cn, y);
    }
  }

  lemma EndReached(end: nat)
    ensures end <= 64 * WordsFor(end)
  {
  }

  lemma KeptWord(s: seq<Word>, t: seq<Word>, cp: nat, cn: nat, y: nat)
    requires y < |s| == |t| && !(cp <= y < cp + cn) && KeptAround(Val(s), Val(t), cp, cn)
    ensures t[y] == s[y]
  {
    hide Val;
    SameWord(s, t, y);
  }

  /** recompose: the blocks at distance M added up in {c, cn}. */
  method Recompose(c: array<Word>, cp: nat, cn: nat, tr: array<Word>, base: nat, K: nat, M: nat, Np: nat, np: nat,
                   ghost C: seq<Poly>)
    requires c != tr && cp + cn <= c.Length && 0 < K == |C| && 0 < M <= Np && np == WordsFor(Np)
    requires BlocksHeld(tr[..], base, np, C, Np) && base + Block(K, np) < tr.Length
    requires forall y :: cp + BlockStart(K, M) / 64 <= y < cp + cn ==> c[y] == {}
    modifies c
    ensures Held(c[..], cp, cn, Assembled(C, WordsBehind(tr[..], base, K, np, WordsFor(2 * Np)), M, Np, cn))
    ensures Only(old(c[..]), c[..], cp, cn)
  {
    hide Val, Held, Add, Shift, Summed, BlocksHeld, EvalAt, WordsFor, BlockStart, Block, Above, KeptAround, Strays,
      Pending, WordsBehind, Low, Behind, StrayLow, StrayHigh, ReadsBehind, Reduced, Only;
    ghost var q, s, x := BlockStart(K, M) / 64, c[..], WordsBehind(tr[..], base, K, np, WordsFor(2 * Np));
    var l := 2 * Np - M;
    FirstBlock(c, cp, cn, tr, base, M, Np, np, q, C);
    FirstSummed(Above(c[..], cp), C, x, M, Np, 2 * Np, cn, q);
    var j: nat, k: nat, p: nat := M / 64, M % 64, base + 2 * np;
    var j1: nat, k1: nat := (l + M) / 64, (l + M) % 64;
    BlockNext(0, np);
    BlockZero(np);
    StartOne(M);
    for i := 1 to K
      invariant k < 64 && 64 * j + k == BlockStart(i, M) && k1 < 64 && 64 * j1 + k1 == 64 * j + k + l
        && p == base + Block(i, np)
      invariant SummedUp(Above(c[..], cp), C, x, M, Np, i, 64 * j + k + l, cn, q)
        && KeptAround(Val(s), Val(c[..]), cp, cn)
    {
      ghost var V0 := Val(c[..]);
      ResidueAt(tr[..], base, np, C, Np, i);
      BehindIs(tr[..], base, np, C, Np, i);
      ghost var S, U;
      S, U := AddBlock(c, cp, cn, tr, p, j, k, j1, k1, M, Np,
        Add(EvalAt(C[..i], M), Strays(C, x, M, Np, cn, i)), Pending(C, x, M, Np, cn, i), C[i], q);
      NextSummed(Above(c[..], cp), S, U, C, x, tr[p + WordsFor(2 * Np)], M, Np, i, 64 * j + k + 2 * Np, cn, q);
      KeptStep(Val(s), V0, Val(c[..]), cp, cn);
      StartNext(i, M);
      BlockNext(i, np);
      p := p + 2 * np;
      k := k + M;
      j := j + k / 64;
      k := k % 64;
      k1 := k1 + M;
      j1 := j1 + k1 / 64;
      k1 := k1 % 64;
    }
    assert C[..K] == C;
    SummedWhole(s, c[..], cp, Add(EvalAt(C, M), Strays(C, x, M, Np, cn, K)), Pending(C, x, M, Np, cn, K),
      BlockStart(K, M) + l, cn, q);
  }
}
