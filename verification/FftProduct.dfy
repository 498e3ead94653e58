/** gf2x_mul_fft of gf2x-1.1/fft.c with one transform, on words: the two transforms, the pointwise
    products, the inverse transform and the reassembly. */
module FftProduct {
  import opened Numbers
  import opened Polynomials
  import opened FftAlgebra
  import opened FftConvolution
  import opened Transform
  import opened Blocks
  import opened FftMul
  import opened Words
  import opened WordMemory
  import opened ResidueWords
  import opened BlockWords
  import opened FftWords
  import MulModWords
  import ToomSpace

  // ---------------------------------------------------------------- the buffers of a transform

  /** A[i] for 0 <= i < K. */
  function Pointers(base: nat, K: nat, np: nat): (A: seq<nat>)
    ensures |A| == K && forall i :: 0 <= i < K ==> A[i] == base + Block(i, np)
  {
    seq(K, i requires 0 <= i < K => base + Block(i, np))
  }

  /** The three temporary buffers. */
  function Temporaries(tmp: nat, np: nat): (T: seq<nat>)
    ensures |T| == 3
  {
    [tmp, tmp + 2 * np, tmp + 4 * np]
  }

  lemma BlocksBuffers(base: nat, K: nat, np: nat, tmp: nat, n: nat, len: nat)
    requires n <= 2 * np && base + Block(K, np) <= len && tmp + 6 * np <= len && Apart(base, Block(K, np), tmp, 6 * np)
    ensures Buffers(Pointers(base, K, np) + Temporaries(tmp, np), n, len)
  {
    hide Block;
    var P := Pointers(base, K, np);
    var Q := P + Temporaries(tmp, np);
    forall i | 0 <= i < K
      ensures base <= Q[i] && Q[i] + 2 * np <= base + Block(K, np)
    {
      BlockOrder(i, K, np);
    }
    forall i, l | 0 <= i < l < |Q|
      ensures Apart(Q[i], n, Q[l], n)
    {
      if l < K {
        BlockOrder(i, l, np);
      }
    }
  }

  /** The same for the pointers in another order. */
  lemma PermutedBuffers(P: seq<nat>, Q: seq<nat>, T: seq<nat>, K: nat, n: nat, len: nat)
    requires IsPow3(K) && |P| == |Q| == K && Buffers(P + T, n, len)
    requires forall i: nat :: i < K ==> Q[i] == P[Rev(K, i)]
    ensures Buffers(Q + T, n, len)
  {
    hide Rev, IsPow3;
    var A, B := P + T, Q + T;
    forall i: nat | i < |B|
      ensures B[i] == A[if i < K then Rev(K, i) else i]
    {
    }
    forall i: nat, l: nat | i < l < |B|
      ensures Apart(B[i], n, B[l], n)
    {
      var i', l' := if i < K then Rev(K, i) else i, if l < K then Rev(K, l) else l;
      if l < K {
        RevRev(K, i);
        RevRev(K, l);
      }
      assert i' != l' && B[i] == A[i'] && B[l] == A[l'];
    }
  }

  lemma PermutedOnly(s: seq<Word>, t: seq<Word>, P: seq<nat>, Q: seq<nat>, T: seq<nat>, K: nat, n: nat)
    requires IsPow3(K) && |P| == |Q| == K && OnlyIn(s, t, Q + T, n)
    requires forall i: nat :: i < K ==> Q[i] == P[Rev(K, i)]
    ensures OnlyIn(s, t, P + T, n)
  {
    hide Rev, IsPow3;
    var A, B := P + T, Q + T;
    forall x | 0 <= x < |s| && Free(x, A, n)
      ensures t[x] == s[x]
    {
      forall i: nat | i < |B|
        ensures !(B[i] <= x < B[i] + n)
      {
        assert B[i] == A[if i < K then Rev(K, i) else i];
      }
    }
  }

  /** What a transform writes. */
  lemma BlocksOnly(s: seq<Word>, t: seq<Word>, base: nat, K: nat, np: nat, tmp: nat, n: nat)
    requires n <= 2 * np && OnlyIn(s, t, Pointers(base, K, np) + Temporaries(tmp, np), n)
    ensures Only2(s, t, base, Block(K, np), tmp, 6 * np)
  {
    hide Block;
    var P := Pointers(base, K, np);
    var Q := P + Temporaries(tmp, np);
    forall x | 0 <= x < |s| && !(base <= x < base + Block(K, np)) && !(tmp <= x < tmp + 6 * np)
      ensures t[x] == s[x]
    {
      forall i | 0 <= i < |Q|
        ensures !(Q[i] <= x < Q[i] + n)
      {
        if i < K {
          BlockOrder(i, K, np);
        }
      }
    }
  }

  lemma ResiduesHeld(s: seq<Word>, base: nat, np: nat, C: seq<Poly>, Np: nat)
    ensures BlocksHeld(s, base, np, C, Np)
       <==> Holding(s, Pointers(base, |C|, np), WordsFor(2 * Np), C) && AllReduced(C, 2 * Np)
  {
    hide Held, Reduced, WordsFor, Block;
    var P := Pointers(base, |C|, np);
    if BlocksHeld(s, base, np, C, Np) {
      forall i | 0 <= i < |C|
        ensures Held(s, P[i], WordsFor(2 * Np), C[i]) && Reduced(C[i], 2 * Np)
      {
        ResidueAt(s, base, np, C, Np, i);
      }
    } else {
      var i :| 0 <= i < |C| && !(Held(s, base + Block(i, np), WordsFor(2 * Np), C[i]) && Reduced(C[i], 2 * Np));
      assert P[i] == base + Block(i, np);
    }
  }

  /** The blocks of a transform that is not written keep what they hold. */
  lemma ResiduesKept(s: seq<Word>, t: seq<Word>, base: nat, np: nat, C: seq<Poly>, Np: nat, p: nat, n: nat, q: nat,
                     m: nat)
    requires BlocksHeld(s, base, np, C, Np) && Only2(s, t, p, n, q, m) && WordsFor(2 * Np) <= 2 * np
    requires Apart(p, n, base, Block(|C|, np)) && Apart(q, m, base, Block(|C|, np))
    ensures BlocksHeld(t, base, np, C, Np)
  {
    hide Held, Only2, Block, WordsFor, Reduced;
    forall i | 0 <= i < |C|
      ensures Held(t, base + Block(i, np), WordsFor(2 * Np), C[i]) && Reduced(C[i], 2 * Np)
    {
      BlockOrder(i, |C|, np);
      HeldKept2(s, t, base + Block(i, np), WordsFor(2 * Np), C[i], p, n, q, m);
    }
  }

  // ---------------------------------------------------------------- the transform of an operand

  lemma ChunkReduced(A: Poly, M: nat, K: nat, Np: nat)
    requires 0 < M <= Np
    ensures AllReduced(Chunks(A, M, K), 2 * Np)
  {
    hide Chunks, Deg;
    var C := Chunks(A, M, K);
    forall i | 0 <= i < K
      ensures Reduced(C[i], 2 * Np)
    {
      ChunkBits(A, M, K, i);
      ReducedDegree(C[i], 2 * Np);
    }
  }

  lemma CutHeld(s: seq<Word>, base: nat, np: nat, A: Poly, M: nat, K: nat, n: nat)
    requires Cut(s, base, np, A, M, K, K) && n <= 2 * np
    ensures Holding(s, Pointers(base, K, np), n, Chunks(A, M, K))
  {
    hide Held, Block, Chunks;
    var P, C := Pointers(base, K, np), Chunks(A, M, K);
    forall i | 0 <= i < K
      ensures Held(s, P[i], n, C[i])
    {
      HeldPrefix(s, base + Block(i, np), 2 * np, C[i], n);
    }
  }

  /** gf2x_tfft_dft_inner: {a, an} of the array src in blocks of M bits, transformed. */
  method DftInner(w: array<Word>, tr: nat, tmp: nat, src: array<Word>, a: nat, an: nat, M: nat, K: nat,
                  perm: array<nat>, ghost A: Poly)
    requires w != src && 0 < M && IsPow3(K) && 3 <= K && IsPerm(perm, K) && Held(src[..], a, an, A) && Fits(A, an)
    requires var np := WordsFor(ResidueSize(M, K));
      tr + Block(K, np) <= w.Length && tmp + 6 * np <= w.Length && Apart(tr, Block(K, np), tmp, 6 * np)
    modifies w
    ensures var np := WordsFor(ResidueSize(M, K));
      && BlocksHeld(w[..], tr, np, Forward(Chunks(A, M, K), M), ResidueSize(M, K))
      && Only2(old(w[..]), w[..], tr, Block(K, np), tmp, 6 * np)
  {
    hide Held, Fits, IsPow3, IsPerm, PermAt, Only2, Only, Holding, Buffers, OnlyIn, BlocksHeld, Chunks, Block, Cut,
      Coded, ResidueSize, RootExponent, WordsFor, AllReduced, Pointers, Temporaries, Apart;
    Sizes(M, K);
    var Mp := RootExponent(M, K);
    var Np := ResidueSize(M, K);
    var np := WordsFor(Np);
    ghost var s, n := w[..], WordsFor(2 * Np);
    MoreWords(M, Np);
    DoubleWords(Np);
    Decompose(w, tr, src, a, an, M, K, np, A);
    ghost var s1 := w[..];
    CutHeld(s1, tr, np, A, M, K, n);
    ChunkReduced(A, M, K, Np);
    BlocksBuffers(tr, K, np, tmp, n, w.Length);
    IsPermAt(perm, K);
    Fft(w, Pointers(tr, K, np), Temporaries(tmp, np), Mp, Np, 1, perm, Chunks(A, M, K));
    BlocksOnly(s1, w[..], tr, K, np, tmp, n);
    OnlyFirst(s, s1, w[..], tr, Block(K, np), tmp, 6 * np);
    ResiduesHeld(w[..], tr, np, Coded(Chunks(A, M, K), Mp, Np), Np);
  }

  lemma MoreWords(a: nat, b: nat)
    requires a <= b
    ensures WordsFor(a) <= WordsFor(b)
  {
  }

  lemma OnlyFirst(s: seq<Word>, t: seq<Word>, u: seq<Word>, p: nat, n: nat, q: nat, m: nat)
    requires Only(s, t, p, n) && Only2(t, u, p, n, q, m)
    ensures Only2(s, u, p, n, q, m)
  {
  }

  // ---------------------------------------------------------------- pointwise products

  /** The products below i are done; the operands from i on are untouched. */
  ghost predicate Composed(s: seq<Word>, tc: nat, ta: nat, tb: nat, np: nat, u: seq<Poly>, v: seq<Poly>, Np: nat,
                           i: nat)
    requires |u| == |v| && 0 < Np
  {
    && (forall l :: 0 <= l < i && l < |u| ==> Held(s, tc + Block(l, np), WordsFor(2 * Np), MulMod(u[l], v[l], Np)))
    && (forall l :: i <= l < |u|
          ==> Held(s, ta + Block(l, np), WordsFor(2 * Np), u[l]) && Held(s, tb + Block(l, np), WordsFor(2 * Np), v[l]))
  }

  lemma ComposedStart(s: seq<Word>, tc: nat, ta: nat, tb: nat, np: nat, u: seq<Poly>, v: seq<Poly>, Np: nat)
    requires |u| == |v| && 0 < Np && BlocksHeld(s, ta, np, u, Np) && BlocksHeld(s, tb, np, v, Np)
    ensures Composed(s, tc, ta, tb, np, u, v, Np, 0)
  {
    hide Held, Block, WordsFor, Reduced;
    forall l | 0 <= l < |u|
      ensures Held(s, ta + Block(l, np), WordsFor(2 * Np), u[l]) && Held(s, tb + Block(l, np), WordsFor(2 * Np), v[l])
    {
      ResidueAt(s, ta, np, u, Np, l);
      ResidueAt(s, tb, np, v, Np, l);
    }
  }

  /** A transform is one of the others or apart from it. */
  predicate SameOrApart(tc: nat, ta: nat, n: nat) {
    tc == ta || Apart(tc, n, ta, n)
  }

  lemma ComposedNext(s: seq<Word>, t: seq<Word>, tc: nat, ta: nat, tb: nat, np: nat, u: seq<Poly>, v: seq<Poly>,
                     Np: nat, i: nat, tmp: nat, tl: nat)
    requires |u| == |v| && i < |u| && 0 < Np && WordsFor(2 * Np) <= 2 * np && Composed(s, tc, ta, tb, np, u, v, Np, i)
    requires Only2(s, t, tc + Block(i, np), 2 * np, tmp, tl)
      && Held(t, tc + Block(i, np), WordsFor(2 * Np), MulMod(u[i], v[i], Np))
    requires var n := Block(|u|, np);
      && SameOrApart(tc, ta, n) && SameOrApart(tc, tb, n) && Apart(tmp, tl, tc, n) && Apart(tmp, tl, ta, n)
      && Apart(tmp, tl, tb, n)
    ensures Composed(t, tc, ta, tb, np, u, v, Np, i + 1)
  {
    hide Held, Block, WordsFor, MulMod, Only2;
    var c, n := tc + Block(i, np), WordsFor(2 * Np);
    BlockOrder(i, |u|, np);
    forall l | 0 <= l < i
      ensures Held(t, tc + Block(l, np), n, MulMod(u[l], v[l], Np))
    {
      BlockOrder(l, i, np);
      HeldKept2(s, t, tc + Block(l, np), n, MulMod(u[l], v[l], Np), c, 2 * np, tmp, tl);
    }
    forall l | i + 1 <= l < |u|
      ensures Held(t, ta + Block(l, np), n, u[l]) && Held(t, tb + Block(l, np), n, v[l])
    {
      BlockOrder(i, l, np);
      BlockOrder(l, |u|, np);
      HeldKept2(s, t, ta + Block(l, np), n, u[l], c, 2 * np, tmp, tl);
      HeldKept2(s, t, tb + Block(l, np), n, v[l], c, 2 * np, tmp, tl);
    }
  }

  lemma ComposedEnd(s: seq<Word>, tc: nat, ta: nat, tb: nat, np: nat, u: seq<Poly>, v: seq<Poly>, Np: nat)
    requires |u| == |v| && 0 < Np && Composed(s, tc, ta, tb, np, u, v, Np, |u|)
    ensures BlocksHeld(s, tc, np, Pointwise(u, v, Np), Np)
  {
    hide Held, Block, WordsFor, Mul, Deg, Reduced;
    var C := Pointwise(u, v, Np);
    forall i | 0 <= i < |C|
      ensures Held(s, tc + Block(i, np), WordsFor(2 * Np), C[i]) && Reduced(C[i], 2 * Np)
    {
      ReducedDegree(C[i], 2 * Np);
    }
  }

  /** gf2x_tfft_compose_inner: tc may be ta or tb. */
  method ComposeInner(t: ToomSpace.Tuning, w: array<Word>, tc: nat, ta: nat, tb: nat, tmp: nat, tl: nat, M: nat, K: nat,
                      ghost u: seq<Poly>, ghost v: seq<Poly>)
    requires t.Valid() && 0 < M && IsPow3(K) && 3 <= K == |u| && |v| == K && 0 < ResidueSize(M, K)
    requires var Np := ResidueSize(M, K); var np := WordsFor(Np); var n := Block(K, np);
      && BlocksHeld(w[..], ta, np, u, Np) && BlocksHeld(w[..], tb, np, v, Np) && SameOrApart(tc, ta, n)
      && SameOrApart(tc, tb, n)
      && Apart(tmp, tl, tc, n) && Apart(tmp, tl, ta, n) && Apart(tmp, tl, tb, n)
      && tc + n <= w.Length && tmp + tl <= w.Length && 4 * np + ToomSpace.Space(t, 2 * np) <= tl && 6 * np <= tl
    modifies w
    ensures var Np := ResidueSize(M, K); var np := WordsFor(Np);
      && BlocksHeld(w[..], tc, np, Pointwise(u, v, Np), Np)
      && Only2(old(w[..]), w[..], tc, Block(K, np), tmp, tl)
  {
    hide Held, Only2, BlocksHeld, Block, WordsFor, Composed, MulMod, Mul, Reduced, ResidueSize, ToomSpace.Space, IsPow3,
      SameOrApart;
    var Np := ResidueSize(M, K);
    var np := WordsFor(Np);
    ghost var s := w[..];
    DoubleWords(Np);
    ComposedStart(s, tc, ta, tb, np, u, v, Np);
    Only2Same(s, tc, Block(K, np), tmp, tl);
    var pa, pb, pc := ta, tb, tc;
    BlockZero(np);
    for i := 0 to K
      invariant pa == ta + Block(i, np) && pb == tb + Block(i, np) && pc == tc + Block(i, np)
      invariant Composed(w[..], tc, ta, tb, np, u, v, Np, i) && Only2(s, w[..], tc, Block(K, np), tmp, tl)
    {
      ghost var now := w[..];
      BlockOrder(i, K, np);
      BothReduced(s, ta, tb, np, u, v, Np, i);
      ComposedAt(now, tc, ta, tb, np, u, v, Np, i);
      MulModAt(t, w, pc, pa, pb, Np, np, tmp, tl, u[i], v[i]);
      ComposedNext(now, w[..], tc, ta, tb, np, u, v, Np, i, tmp, tl);
      Only2Then(s, now, w[..], tc, Block(K, np), tmp, tl, pc, 2 * np, tmp, tl);
      BlockNext(i, np);
      pa, pb, pc := pa + 2 * np, pb + 2 * np, pc + 2 * np;
    }
    ComposedEnd(w[..], tc, ta, tb, np, u, v, Np);
  }

  lemma BothReduced(s: seq<Word>, ta: nat, tb: nat, np: nat, u: seq<Poly>, v: seq<Poly>, Np: nat, i: nat)
    requires BlocksHeld(s, ta, np, u, Np) && BlocksHeld(s, tb, np, v, Np) && i < |u| == |v|
    ensures Reduced(u[i], 2 * Np) && Reduced(v[i], 2 * Np)
  {
    hide Held, Block, WordsFor, Reduced, BlocksHeld;
    ResidueAt(s, ta, np, u, Np, i);
    ResidueAt(s, tb, np, v, Np, i);
  }

  lemma ComposedAt(s: seq<Word>, tc: nat, ta: nat, tb: nat, np: nat, u: seq<Poly>, v: seq<Poly>, Np: nat, i: nat)
    requires |u| == |v| && 0 < Np && i < |u| && Composed(s, tc, ta, tb, np, u, v, Np, i)
    ensures Held(s, ta + Block(i, np), WordsFor(2 * Np), u[i]) && Held(s, tb + Block(i, np), WordsFor(2 * Np), v[i])
  {
    hide Held, Block, WordsFor, MulMod;
  }

  /** One product, with the product of twice the size in tmp1 and the space of the Toom-Cook routines in tmp3. */
  method MulModAt(t: ToomSpace.Tuning, w: array<Word>, pc: nat, pa: nat, pb: nat, Np: nat, np: nat, tmp: nat, tl: nat,
                  ghost A: Poly, ghost B: Poly)
    requires t.Valid() && 0 < Np && np == WordsFor(Np) && Reduced(A, 2 * Np) && Reduced(B, 2 * Np)
    requires Held(w[..], pa, WordsFor(2 * Np), A) && Held(w[..], pb, WordsFor(2 * Np), B)
    requires Apart(tmp, tl, pc, 2 * np) && Apart(tmp, tl, pa, 2 * np) && Apart(tmp, tl, pb, 2 * np)
    requires pc + 2 * np <= w.Length && tmp + tl <= w.Length && 4 * np + ToomSpace.Space(t, 2 * np) <= tl
      && 6 * np <= tl
    modifies w
    ensures Held(w[..], pc, WordsFor(2 * Np), MulMod(A, B, Np)) && Only2(old(w[..]), w[..], pc, 2 * np, tmp, tl)
  {
    hide Held, WordsFor, MulMod, Reduced, ToomSpace.Space;
    DoubleWords(Np);
    ToomSpace.SpaceMonotone(t, WordsFor(2 * Np), 2 * np);
    MulModWords.MulMod(t, w, pc, pa, pb, Np, tmp, tmp + 4 * np, tl - 4 * np, A, B);
  }

  // ---------------------------------------------------------------- the inverse transform

  /** A[perm[i]] for 0 <= i < K. */
  function Reordered(A: seq<nat>, perm: array<nat>): (r: seq<nat>)
    requires perm.Length == |A| && forall i :: 0 <= i < |A| ==> perm[i] < |A|
    reads perm
    ensures |r| == |A| && forall i :: 0 <= i < |A| ==> r[i] == A[perm[i]]
  {
    seq(|A|, i requires 0 <= i < |A| reads perm requires perm.Length == |A|
      && forall i :: 0 <= i < |A| ==> perm[i] < |A| => A[perm[i]])
  }

  lemma ReorderedHeld(s: seq<Word>, P: seq<nat>, Q: seq<nat>, K: nat, n: nat, t: seq<Poly>)
    requires IsPow3(K) && |P| == |Q| == |t| == K && Holding(s, P, n, t)
      && forall i: nat :: i < K ==> Q[i] == P[Rev(K, i)]
    ensures Holding(s, Q, n, Permuted(t))
  {
    hide Held, Rev, IsPow3;
    var v := Permuted(t);
    forall i | 0 <= i < K
      ensures Held(s, Q[i], n, v[i])
    {
      assert Held(s, P[Rev(K, i)], n, t[Rev(K, i)]);
    }
  }

  /** In the order of the pointers P the values v that the reordered pointers reach are Permuted(v). */
  lemma ReorderedBack(s: seq<Word>, P: seq<nat>, Q: seq<nat>, K: nat, n: nat, v: seq<Poly>)
    requires IsPow3(K) && |P| == |Q| == |v| == K && Holding(s, Q, n, v)
      && forall i: nat :: i < K ==> Q[i] == P[Rev(K, i)]
    ensures Holding(s, P, n, Permuted(v))
  {
    hide Held, Rev, IsPow3;
    var t := Permuted(v);
    forall m: nat | m < K
      ensures Held(s, P[m], n, t[m])
    {
      RevRev(K, m);
      assert Q[Rev(K, m)] == P[m] && Held(s, Q[Rev(K, m)], n, v[Rev(K, m)]);
    }
  }

  lemma PermutedReduced(t: seq<Poly>, T: nat)
    requires IsPow3(|t|) && AllReduced(t, T)
    ensures AllReduced(Permuted(t), T)
  {
    hide Reduced, Rev, IsPow3;
  }

  lemma BackwardOf(t: seq<Poly>, M: nat)
    requires 0 < M && IsPow3(|t|) && 3 <= |t|
    ensures var Mp, Np := RootExponent(M, |t|), ResidueSize(M, |t|);
      0 < Np && 0 < Mp < 3 * Np && Backward(t, M) == Permuted(Coded(Permuted(t), 3 * Np - Mp, Np))
  {
    hide Coded, Permuted, RootExponent, ResidueSize;
    Sizes(M, |t|);
  }

  /** gf2x_tfft_ift_inner: the inverse transform of the blocks at tr, which are then put together in {c, cn}. */
  method IftInner(w: array<Word>, tr: nat, tmp: nat, dst: array<Word>, c: nat, cn: nat, M: nat, K: nat,
                  perm: array<nat>, ghost t: seq<Poly>)
      returns (ghost x: seq<Word>)
    requires w != dst && 0 < M && IsPow3(K) && 3 <= K == |t| && IsPerm(perm, K) && c + cn <= dst.Length
    requires forall y :: c + BlockStart(K, M) / 64 <= y < c + cn ==> dst[y] == {}
    requires var Np := ResidueSize(M, K); var np := WordsFor(Np);
      && BlocksHeld(w[..], tr, np, t, Np) && tr + Block(K, np) < w.Length && tmp + 6 * np <= w.Length
      && Apart(tr, Block(K, np), tmp, 6 * np)
    modifies w, dst
    ensures var Np := ResidueSize(M, K); var np := WordsFor(Np);
      && |x| == K && M <= 2 * Np && Held(dst[..], c, cn, Assembled(Backward(t, M), x, M, Np, cn))
      && Only2(old(w[..]), w[..], tr, Block(K, np), tmp, 6 * np) && Only(old(dst[..]), dst[..], c, cn)
  {
    hide Held, IsPow3, PermAt, Only2, Only, Holding, Buffers, OnlyIn, BlocksHeld, Block, Coded, ResidueSize,
      RootExponent, BlockStart,
      WordsFor, AllReduced, Pointers, Temporaries, Apart, Rev, Permuted, Backward, Assembled, WordsBehind;
    BackwardOf(t, M);
    Sizes(M, K);
    var Mp := RootExponent(M, K);
    var Np := ResidueSize(M, K);
    var np := WordsFor(Np);
    ghost var s, n := w[..], WordsFor(2 * Np);
    DoubleWords(Np);
    var A := Pointers(tr, K, np);
    var Ap := Reordered(A, perm);
    ResiduesHeld(s, tr, np, t, Np);
    ReorderedHeld(s, A, Ap, K, n, t);
    PermutedReduced(t, 2 * Np);
    BlocksBuffers(tr, K, np, tmp, n, w.Length);
    PermutedBuffers(A, Ap, Temporaries(tmp, np), K, n, w.Length);
    IsPermAt(perm, K);
    Fft(w, Ap, Temporaries(tmp, np), 3 * Np - Mp, Np, 1, perm, Permuted(t));
    ghost var v := Coded(Permuted(t), 3 * Np - Mp, Np);
    PermutedOnly(s, w[..], A, Ap, Temporaries(tmp, np), K, n);
    BlocksOnly(s, w[..], tr, K, np, tmp, n);
    ReorderedBack(w[..], A, Ap, K, n, v);
    PermutedReduced(v, 2 * Np);
    ResiduesHeld(w[..], tr, np, Backward(t, M), Np);
    x := WordsBehind(w[..], tr, K, np, n);
    Recompose(dst, c, cn, w, tr, K, M, Np, np, Backward(t, M));
  }

  // ---------------------------------------------------------------- the product

  lemma NothingBehind(an: nat, bn: nat, K: nat)
    requires 0 < K && 0 < an + bn
    ensures an + bn <= BlockStart(K, Ceil((an + bn) * 64, K)) / 64
  {
    CeilBound((an + bn) * 64, K);
    NonNegative(K, Ceil((an + bn) * 64, K));
    assert K * Ceil((an + bn) * 64, K) == Ceil((an + bn) * 64, K) * K;
  }

  /** gf2x_mul_fft with K > 0: {c, an + bn} <- {a, an} * {b, bn} with one transform of length K; c may overlap
      the operands.  Operands that are too short are rejected. */
  method MulFftSingle(t: ToomSpace.Tuning, mem: array<Word>, c: nat, a: nat, an: nat, b: nat, bn: nat, K: nat,
                      ghost A: Poly, ghost B: Poly)
      returns (done: bool, ghost x: seq<Word>)
    requires t.Valid() && IsPow3(K) && 3 <= K && 0 < an + bn && c + an + bn <= mem.Length
    requires Held(mem[..], a, an, A) && Held(mem[..], b, bn, B) && Fits(A, an) && Fits(B, bn)
    modifies mem
    ensures done <==> an + bn >= MUL_FFT_THRESHOLD
    ensures done ==> var M := Ceil((an + bn) * 64, K);
      0 < M && |x| == K && Held(mem[..], c, an + bn, CodedProduct(A, B, M, K, an + bn, x))
    ensures if done then Only(old(mem[..]), mem[..], c, an + bn) else mem[..] == old(mem[..])
  {
    hide Held, Fits, IsPow3, IsPerm, Only2, Only, BlocksHeld, Chunks, Block, ResidueSize, RootExponent, BlockStart,
      WordsFor, Forward, Backward, Assembled, ToomSpace.Space, MulMod, Ceil;
    x := [];
    if an + bn < MUL_FFT_THRESHOLD {
      return false, x;
    }
    var M := Ceil((an + bn) * 64, K);
    CeilBound((an + bn) * 64, K);
    Sizes(M, K);
    NothingBehind(an, bn, K);
    var Np := ResidueSize(M, K);
    var np := WordsFor(Np);
    DoubleWords(Np);
    var perm := MakePerm(K);
    var n := Block(K, np);
    var tl := 4 * np + (if ToomSpace.Space(t, 2 * np) < 2 * np then 2 * np else ToomSpace.Space(t, 2 * np));
    var w := new Word[n + n + tl + n + 1];
    var ta, tb, tmp, tc := 0, n, n + n, n + n + tl;
    ghost var u, v := Forward(Chunks(A, M, K), M), Forward(Chunks(B, M, K), M);
    ghost var s := mem[..];
    DftInner(w, ta, tmp, mem, a, an, M, K, perm, A);
    ghost var s1 := w[..];
    assert mem[..] == s;
    DftInner(w, tb, tmp, mem, b, bn, M, K, perm, B);
    ResiduesKept(s1, w[..], ta, np, u, Np, tb, n, tmp, 6 * np);
    assert mem[..] == s;
    ComposeInner(t, w, tc, ta, tb, tmp, tl, M, K, u, v);
    assert mem[..] == s;
    x := IftInner(w, tc, tmp, mem, c, an + bn, M, K, perm, Pointwise(u, v, Np));
    done := true;
  }
}
