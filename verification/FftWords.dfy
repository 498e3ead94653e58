/** fft of gf2x-1.1/fft.c on words: the radix-3 transform in place, on buffers that are reached
    through pointers, with three temporary buffers. */
module FftWords {
  import opened Polynomials
  import opened FftAlgebra
  import opened Transform
  import opened Words
  import opened WordMemory
  import opened ShiftLoops
  import opened ResidueWords
  import BitLoops
  import LshiftWords

  // ---------------------------------------------------------------- buffers

  /** Buffers of n words that do not overlap one another. */
  ghost predicate Buffers(P: seq<nat>, n: nat, len: nat) {
    && (forall i :: 0 <= i < |P| ==> P[i] + n <= len)
    && (forall i, l :: 0 <= i < l < |P| ==> Apart(P[i], n, P[l], n))
  }

  /** Buffer i holds v[i]. */
  ghost predicate Holding(s: seq<Word>, P: seq<nat>, n: nat, v: seq<Poly>) {
    |v| == |P| && forall i :: 0 <= i < |P| ==> Held(s, P[i], n, v[i])
  }

  /** Word x lies in none of the buffers. */
  ghost predicate Free(x: int, P: seq<nat>, n: nat) {
    forall i :: 0 <= i < |P| ==> !(P[i] <= x < P[i] + n)
  }

  /** No word outside the buffers has changed. */
  ghost predicate OnlyIn(s: seq<Word>, t: seq<Word>, P: seq<nat>, n: nat) {
    |s| == |t| && forall x :: 0 <= x < |s| && Free(x, P, n) ==> t[x] == s[x]
  }

  lemma OnlyInSame(s: seq<Word>, P: seq<nat>, n: nat)
    ensures OnlyIn(s, s, P, n)
  {
  }

  lemma OnlyInThen(s: seq<Word>, t: seq<Word>, u: seq<Word>, P: seq<nat>, n: nat)
    requires OnlyIn(s, t, P, n) && OnlyIn(t, u, P, n)
    ensures OnlyIn(s, u, P, n)
  {
    hide Free;
  }

  lemma OnlyInOne(s: seq<Word>, t: seq<Word>, P: seq<nat>, n: nat, i: nat)
    requires i < |P| && Only(s, t, P[i], n)
    ensures OnlyIn(s, t, P, n)
  {
    forall x | 0 <= x < |s| && Free(x, P, n)
      ensures t[x] == s[x]
    {
      assert !(P[i] <= x < P[i] + n);
    }
  }

  /** Writing one buffer leaves the others alone. */
  lemma HoldingOne(s: seq<Word>, t: seq<Word>, P: seq<nat>, n: nat, v: seq<Poly>, i: nat, w: Poly)
    requires i < |P| && Buffers(P, n, |s|) && Holding(s, P, n, v) && Only(s, t, P[i], n) && Held(t, P[i], n, w)
    ensures Holding(t, P, n, v[i := w])
  {
    hide Held, Only;
    forall l | 0 <= l < |P|
      ensures Held(t, P[l], n, v[i := w][l])
    {
      if l != i {
        HeldKept(s, t, P[l], n, v[l], P[i], n);
      }
    }
  }

  /** P[i] <- P[l] * x^k. */
  method ShiftTo(mem: array<Word>, P: seq<nat>, i: nat, l: nat, k: nat, Np: nat, ghost v: seq<Poly>)
      returns (ghost v': seq<Poly>)
    requires 0 < Np && i < |P| && l < |P| && i != l && Buffers(P, WordsFor(2 * Np), mem.Length)
    requires Holding(mem[..], P, WordsFor(2 * Np), v) && Reduced(v[l], 2 * Np)
    modifies mem
    ensures v' == v[i := Lshift(v[l], k, Np)] && Holding(mem[..], P, WordsFor(2 * Np), v')
    ensures OnlyIn(old(mem[..]), mem[..], P, WordsFor(2 * Np))
  {
    hide Held, Only, Reduced, WordsFor, Lshift, OnlyIn;
    ghost var s := mem[..];
    LshiftWords.Lshift(mem, P[i], P[l], k, Np, v[l]);
    v' := v[i := Lshift(v[l], k, Np)];
    HoldingOne(s, mem[..], P, WordsFor(2 * Np), v, i, Lshift(v[l], k, Np));
    OnlyInOne(s, mem[..], P, WordsFor(2 * Np), i);
  }

  /** P[i] <- P[l] + P[m]. */
  method AddMod(mem: array<Word>, P: seq<nat>, i: nat, l: nat, m: nat, n: nat, ghost v: seq<Poly>)
      returns (ghost v': seq<Poly>)
    requires i < |P| && l < |P| && m < |P| && Buffers(P, n, mem.Length) && Holding(mem[..], P, n, v)
    modifies mem
    ensures v' == v[i := Add(v[l], v[m])] && Holding(mem[..], P, n, v') && OnlyIn(old(mem[..]), mem[..], P, n)
  {
    hide Held, Only, Add, OnlyIn;
    ghost var s := mem[..];
    BitLoops.AddWords(mem, P[i], P[l], P[m], n, v[l], v[m]);
    v' := v[i := Add(v[l], v[m])];
    HoldingOne(s, mem[..], P, n, v, i, Add(v[l], v[m]));
    OnlyInOne(s, mem[..], P, n, i);
  }

  /** The radix-3 butterfly on the buffers P[0], P[1], P[2] with P[3], P[4], P[5] as temporaries: with w = x^j
      they become a + w^ii b + w^(2 ii) c and its images under ii + K/3 and ii + 2K/3. */
  method Butterfly(mem: array<Word>, P: seq<nat>, ii: nat, j: nat, K: nat, Np: nat, ghost a: Poly, ghost b: Poly,
                   ghost c: Poly)
    requires 0 < Np && K % 3 == 0 && |P| == 6 && Buffers(P, WordsFor(2 * Np), mem.Length)
    requires Reduced(a, 2 * Np) && Reduced(b, 2 * Np) && Reduced(c, 2 * Np)
    requires Holding(mem[..], P[..3], WordsFor(2 * Np), [a, b, c])
    modifies mem
    ensures Holding(mem[..], P[..3], WordsFor(2 * Np),
              [Third(a, b, c, ii, j, Np), Third(a, b, c, ii + K / 3, j, Np), Third(a, b, c, ii + 2 * (K / 3), j, Np)])
    ensures OnlyIn(old(mem[..]), mem[..], P, WordsFor(2 * Np))
  {
    hide Lshift, Add, Held, Reduced, WordsFor, Buffers, Holding, OnlyIn, Third;
    assert 2 * K / 3 == 2 * (K / 3) && 4 * K / 3 == 4 * (K / 3);
    ThirdIs(a, b, c, ii, ii * j, 2 * ii * j, j, Np);
    ThirdIs(a, b, c, ii + K / 3, (ii + K / 3) * j, (2 * ii + 2 * K / 3) * j, j, Np);
    ThirdIs(a, b, c, ii + 2 * (K / 3), (ii + 2 * K / 3) * j, (2 * ii + 4 * K / 3) * j, j, Np);
    ButterflySteps(mem, P, ii * j, (ii + 2 * K / 3) * j, (ii + K / 3) * j, (2 * ii + 2 * K / 3) * j,
      (2 * ii + 4 * K / 3) * j, 2 * ii * j, Np, a, b, c);
  }

  /** The steps with the six exponents in the order in which they are used. */
  method ButterflySteps(mem: array<Word>, P: seq<nat>, e1: nat, e2: nat, e3: nat, e4: nat, e5: nat, e6: nat, Np: nat,
                        ghost a: Poly, ghost b: Poly, ghost c: Poly)
    requires 0 < Np && |P| == 6 && Buffers(P, WordsFor(2 * Np), mem.Length)
    requires Reduced(a, 2 * Np) && Reduced(b, 2 * Np) && Reduced(c, 2 * Np)
    requires Holding(mem[..], P[..3], WordsFor(2 * Np), [a, b, c])
    modifies mem
    ensures Holding(mem[..], P[..3], WordsFor(2 * Np),
              [Add(Add(a, Lshift(b, e1, Np)), Lshift(c, e6, Np)), Add(Add(a, Lshift(b, e3, Np)), Lshift(c, e4, Np)),
               Add(a, Add(Lshift(b, e2, Np), Lshift(c, e5, Np)))])
    ensures OnlyIn(old(mem[..]), mem[..], P, WordsFor(2 * Np))
  {
    hide Lshift, Add, Held, Reduced, WordsFor, Buffers, Holding, OnlyIn;
    ghost var s, n := mem[..], WordsFor(2 * Np);
    ghost var v := AllHeld(s, P, n, a, b, c);
    v := ShiftTo(mem, P, 3, 1, e1, Np, v);
    ghost var s1 := mem[..];
    v := ShiftTo(mem, P, 4, 1, e2, Np, v);
    ghost var s2 := mem[..];
    OnlyInThen(s, s1, s2, P, n);
    v := ShiftTo(mem, P, 5, 1, e3, Np, v);
    ghost var s3 := mem[..];
    OnlyInThen(s, s2, s3, P, n);
    v := AddMod(mem, P, 1, 0, 5, WordsFor(2 * Np), v);
    ghost var s4 := mem[..];
    OnlyInThen(s, s3, s4, P, n);
    v := ShiftTo(mem, P, 5, 2, e4, Np, v);
    ghost var s5 := mem[..];
    OnlyInThen(s, s4, s5, P, n);
    v := AddMod(mem, P, 1, 1, 5, WordsFor(2 * Np), v);
    ghost var s6 := mem[..];
    OnlyInThen(s, s5, s6, P, n);
    v := ShiftTo(mem, P, 5, 2, e5, Np, v);
    ghost var s7 := mem[..];
    OnlyInThen(s, s6, s7, P, n);
    v := AddMod(mem, P, 4, 4, 5, WordsFor(2 * Np), v);
    ghost var s8 := mem[..];
    OnlyInThen(s, s7, s8, P, n);
    v := ShiftTo(mem, P, 5, 2, e6, Np, v);
    ghost var s9 := mem[..];
    OnlyInThen(s, s8, s9, P, n);
    v := AddMod(mem, P, 2, 0, 4, WordsFor(2 * Np), v);
    ghost var s10 := mem[..];
    OnlyInThen(s, s9, s10, P, n);
    v := AddMod(mem, P, 0, 0, 3, WordsFor(2 * Np), v);
    ghost var s11 := mem[..];
    OnlyInThen(s, s10, s11, P, n);
    v := AddMod(mem, P, 0, 0, 5, WordsFor(2 * Np), v);
    OnlyInThen(s, s11, mem[..], P, n);
    FirstThree(mem[..], P, n, v);
  }

  lemma AllHeld(s: seq<Word>, P: seq<nat>, n: nat, a: Poly, b: Poly, c: Poly) returns (v: seq<Poly>)
    requires |P| == 6 && Buffers(P, n, |s|) && Holding(s, P[..3], n, [a, b, c])
    ensures |v| == 6 && v[0] == a && v[1] == b && v[2] == c && Holding(s, P, n, v)
  {
    hide Held, Part;
    v := [a, b, c, Part(s, P[3], n), Part(s, P[4], n), Part(s, P[5], n)];
    PartHeld(s, P[3], n);
    PartHeld(s, P[4], n);
    PartHeld(s, P[5], n);
    forall i | 0 <= i < 6
      ensures Held(s, P[i], n, v[i])
    {
      if i < 3 {
        assert P[..3][i] == P[i] && [a, b, c][i] == v[i];
      }
    }
  }

  lemma FirstThree(s: seq<Word>, P: seq<nat>, n: nat, v: seq<Poly>)
    requires |P| == |v| == 6 && Holding(s, P, n, v)
    ensures Holding(s, P[..3], n, [v[0], v[1], v[2]])
  {
    hide Held;
    forall i | 0 <= i < 3
      ensures Held(s, P[..3][i], n, [v[0], v[1], v[2]][i])
    {
      assert P[..3][i] == P[i];
    }
  }

  lemma ThirdIs(a: Poly, b: Poly, c: Poly, r: nat, e: nat, f: nat, j: nat, Np: nat)
    requires 0 < Np && e == r * j && f == 2 * r * j
    ensures Add(Add(a, Lshift(b, e, Np)), Lshift(c, f, Np)) == Third(a, b, c, r, j, Np)
    ensures Add(a, Add(Lshift(b, e, Np), Lshift(c, f, Np))) == Third(a, b, c, r, j, Np)
  {
    hide Lshift, Add;
    var x, y := Lshift(b, e, Np), Lshift(c, f, Np);
    assert Add(a, Add(x, y)) == Add(Add(a, x), y);
  }

  // ---------------------------------------------------------------- three interleaved transforms

  lemma PointerAt(P: seq<nat>, T: seq<nat>, l: nat)
    requires l < |P| + |T|
    ensures (P + T)[l] == if l < |P| then P[l] else T[l - |P|]
  {
  }

  /** Buffers l and m of P and T, of which one at least is in P, do not overlap unless they are the same. */
  lemma BuffersApart(P: seq<nat>, T: seq<nat>, n: nat, len: nat, l: nat, m: nat)
    requires Buffers(P + T, n, len) && l < |P| && m < |P| + |T| && l != m
    ensures Apart(P[l], n, (P + T)[m], n)
  {
    PointerAt(P, T, l);
  }

  lemma {:induction false} EveryBuffers(P: seq<nat>, T: seq<nat>, n: nat, len: nat, c: nat)
    requires Buffers(P + T, n, len) && |P| % 3 == 0 && c < 3
    ensures Buffers(Every3(P, c) + T, n, len)
  {
    hide Every3;
    var A := Every3(P, c) + T;
    forall i | 0 <= i < |A|
      ensures A[i] + n <= len
    {
      assert A[i] == (P + T)[EveryIndex(|P|, c, i)];
    }
    forall i, l | 0 <= i < l < |A|
      ensures Apart(A[i], n, A[l], n)
    {
      assert A[i] == (P + T)[EveryIndex(|P|, c, i)] && A[l] == (P + T)[EveryIndex(|P|, c, l)];
    }
  }

  /** Where buffer i of the interleaved transform c is found among all buffers. */
  function EveryIndex(K: nat, c: nat, i: nat): nat
    requires K % 3 == 0
  {
    if i < K / 3 then 3 * i + c else K + (i - K / 3)
  }

  /** What an interleaved transform writes belongs to the whole. */
  lemma EveryOnly(s: seq<Word>, t: seq<Word>, P: seq<nat>, T: seq<nat>, n: nat, c: nat)
    requires |P| % 3 == 0 && c < 3 && OnlyIn(s, t, Every3(P, c) + T, n)
    ensures OnlyIn(s, t, P + T, n)
  {
    hide Every3;
    var A := Every3(P, c) + T;
    forall x | 0 <= x < |s| && Free(x, P + T, n)
      ensures t[x] == s[x]
    {
      forall i | 0 <= i < |A|
        ensures !(A[i] <= x < A[i] + n)
      {
        assert A[i] == (P + T)[EveryIndex(|P|, c, i)];
      }
    }
  }

  /** Buffers that lie apart from all that is written keep what they hold. */
  lemma HoldingApart(s: seq<Word>, t: seq<Word>, A: seq<nat>, B: seq<nat>, n: nat, v: seq<Poly>)
    requires Holding(s, A, n, v) && OnlyIn(s, t, B, n)
      && forall i, l :: 0 <= i < |A| && 0 <= l < |B| ==> Apart(A[i], n, B[l], n)
    ensures Holding(t, A, n, v)
  {
    hide Held;
    forall i | 0 <= i < |A|
      ensures Held(t, A[i], n, v[i])
    {
      HeldOutside(s, t, A[i], B, n, v[i]);
    }
  }

  lemma HeldOutside(s: seq<Word>, t: seq<Word>, p: nat, B: seq<nat>, n: nat, w: Poly)
    requires Held(s, p, n, w) && OnlyIn(s, t, B, n) && forall l :: 0 <= l < |B| ==> Apart(p, n, B[l], n)
    ensures Held(t, p, n, w)
  {
    hide W;
    forall x | p <= x < p + n
      ensures t[x] == W(w, x - p)
    {
      assert Free(x, B, n);
    }
  }

  /** The transform d leaves the buffers of the transform c alone. */
  lemma OthersKept(s: seq<Word>, t: seq<Word>, P: seq<nat>, T: seq<nat>, n: nat, c: nat, d: nat, v: seq<Poly>)
    requires |P| % 3 == 0 && c < 3 && d < 3 && c != d && Buffers(P + T, n, |s|)
    requires Holding(s, Every3(P, c), n, v) && OnlyIn(s, t, Every3(P, d) + T, n)
    ensures Holding(t, Every3(P, c), n, v)
  {
    hide Every3, Holding, OnlyIn;
    var A, B := Every3(P, c), Every3(P, d) + T;
    forall i, l | 0 <= i < |A| && 0 <= l < |B|
      ensures Apart(A[i], n, B[l], n)
    {
      assert A[i] == P[3 * i + c] && B[l] == (P + T)[EveryIndex(|P|, d, l)];
      BuffersApart(P, T, n, |s|, 3 * i + c, EveryIndex(|P|, d, l));
    }
    HoldingApart(s, t, A, B, n, v);
  }

  lemma EveryHolding(s: seq<Word>, P: seq<nat>, n: nat, v: seq<Poly>, c: nat)
    requires |P| % 3 == 0 && c < 3 && Holding(s, P, n, v)
    ensures Holding(s, Every3(P, c), n, Every3(v, c))
  {
    hide Held;
  }

  /** The butterflies below i are done. */
  ghost function Partway(all: seq<Poly>, u0: seq<Poly>, u1: seq<Poly>, u2: seq<Poly>, i: nat): (r: seq<Poly>)
    requires |all| == 3 * |u0| && |u0| == |u1| == |u2|
    ensures |r| == |all|
    ensures forall l :: 0 <= l < |r|
              ==> r[l] == if l < 3 * i then all[l]
                  else if l % 3 == 0 then u0[l / 3] else if l % 3 == 1 then u1[l / 3] else u2[l / 3]
  {
    seq(|all|, l requires 0 <= l < |all| =>
      if l < 3 * i then all[l] else if l % 3 == 0 then u0[l / 3] else if l % 3 == 1 then u1[l / 3] else u2[l / 3])
  }

  lemma PartwayStart(s: seq<Word>, P: seq<nat>, n: nat, all: seq<Poly>, u0: seq<Poly>, u1: seq<Poly>, u2: seq<Poly>)
    requires |P| == |all| == 3 * |u0| && |u0| == |u1| == |u2|
    requires Holding(s, Every3(P, 0), n, u0) && Holding(s, Every3(P, 1), n, u1) && Holding(s, Every3(P, 2), n, u2)
    ensures Holding(s, P, n, Partway(all, u0, u1, u2, 0))
  {
    hide Held;
    var v := Partway(all, u0, u1, u2, 0);
    forall l | 0 <= l < |P|
      ensures Held(s, P[l], n, v[l])
    {
      var i := l / 3;
      assert Every3(P, 0)[i] == P[3 * i] && Every3(P, 1)[i] == P[3 * i + 1] && Every3(P, 2)[i] == P[3 * i + 2];
    }
  }

  /** The three buffers of butterfly i have been replaced. */
  lemma ThreeReplaced(s: seq<Word>, t: seq<Word>, P: seq<nat>, T: seq<nat>, n: nat, v: seq<Poly>, i: nat, w: seq<Poly>)
    requires 3 * i + 3 <= |P| && |w| == 3 && Buffers(P + T, n, |s|) && Holding(s, P, n, v)
    requires OnlyIn(s, t, [P[3 * i], P[3 * i + 1], P[3 * i + 2]] + T, n)
      && Holding(t, [P[3 * i], P[3 * i + 1], P[3 * i + 2]], n, w)
    ensures Holding(t, P, n, v[3 * i := w[0]][3 * i + 1 := w[1]][3 * i + 2 := w[2]])
  {
    hide Held, OnlyIn;
    var B := [P[3 * i], P[3 * i + 1], P[3 * i + 2]] + T;
    var v' := v[3 * i := w[0]][3 * i + 1 := w[1]][3 * i + 2 := w[2]];
    forall l | 0 <= l < |P|
      ensures Held(t, P[l], n, v'[l])
    {
      if 3 * i <= l < 3 * i + 3 {
        assert [P[3 * i], P[3 * i + 1], P[3 * i + 2]][l - 3 * i] == P[l];
      } else {
        forall m | 0 <= m < |B|
          ensures Apart(P[l], n, B[m], n)
        {
          assert B[m] == (P + T)[if m < 3 then 3 * i + m else |P| + (m - 3)];
          BuffersApart(P, T, n, |s|, l, if m < 3 then 3 * i + m else |P| + (m - 3));
        }
        HeldOutside(s, t, P[l], B, n, v[l]);
      }
    }
  }

  lemma ThreeBuffers(P: seq<nat>, T: seq<nat>, n: nat, len: nat, i: nat)
    requires 3 * i + 3 <= |P| && Buffers(P + T, n, len)
    ensures Buffers([P[3 * i], P[3 * i + 1], P[3 * i + 2]] + T, n, len)
  {
    var B := [P[3 * i], P[3 * i + 1], P[3 * i + 2]] + T;
    forall m | 0 <= m < |B|
      ensures B[m] == (P + T)[if m < 3 then 3 * i + m else |P| + (m - 3)]
    {
    }
  }

  lemma ThreeOnly(s: seq<Word>, t: seq<Word>, P: seq<nat>, T: seq<nat>, n: nat, i: nat)
    requires 3 * i + 3 <= |P| && OnlyIn(s, t, [P[3 * i], P[3 * i + 1], P[3 * i + 2]] + T, n)
    ensures OnlyIn(s, t, P + T, n)
  {
    var B := [P[3 * i], P[3 * i + 1], P[3 * i + 2]] + T;
    forall x | 0 <= x < |s| && Free(x, P + T, n)
      ensures t[x] == s[x]
    {
      forall m | 0 <= m < |B|
        ensures !(B[m] <= x < B[m] + n)
      {
        assert B[m] == (P + T)[if m < 3 then 3 * i + m else |P| + (m - 3)];
      }
    }
  }

  // ---------------------------------------------------------------- the transform

  lemma ThirdReduced(a: Poly, b: Poly, c: Poly, r: nat, j: nat, Np: nat)
    requires 0 < Np && Reduced(a, 2 * Np)
    ensures Reduced(Third(a, b, c, r, j, Np), 2 * Np)
  {
    hide Lshift;
    ResultReduced(b, r * j, Np);
    ResultReduced(c, 2 * r * j, Np);
  }

  ghost predicate AllReduced(v: seq<Poly>, T: nat) {
    forall i :: 0 <= i < |v| ==> Reduced(v[i], T)
  }

  lemma {:induction false} CodedReduced(v: seq<Poly>, j: nat, Np: nat)
    requires IsPow3(|v|) && 0 < Np && AllReduced(v, 2 * Np)
    ensures AllReduced(Coded(v, j, Np), 2 * Np)
    decreases |v|
  {
    hide Third, PowerOf, Reduced;
    if |v| > 1 {
      var e := (3 * j) % (3 * Np);
      CodedReduced(Every3(v, 0), e, Np);
      forall t | 0 <= t < |v|
        ensures Reduced(Coded(v, j, Np)[t], 2 * Np)
      {
        CodedStep(v, j, t, Np);
        ThirdReduced(Coded(Every3(v, 0), e, Np)[t / 3], Coded(Every3(v, 1), e, Np)[t / 3],
          Coded(Every3(v, 2), e, Np)[t / 3], PowerOf(|v| / 3, t), j, Np);
      }
    }
  }

  /** The length-K transform with root x^j, in place and in trit-reversed order. */
  method Fft(mem: array<Word>, P: seq<nat>, T: seq<nat>, j: nat, Np: nat, stride: nat, p: array<nat>,
             ghost v: seq<Poly>)
    requires 0 < Np && IsPow3(|P|) && |T| == 3 && j < 3 * Np && PermAt(p, stride, |P|)
    requires Buffers(P + T, WordsFor(2 * Np), mem.Length) && Holding(mem[..], P, WordsFor(2 * Np), v)
      && AllReduced(v, 2 * Np)
    modifies mem
    ensures Holding(mem[..], P, WordsFor(2 * Np), Coded(v, j, Np)) && AllReduced(Coded(v, j, Np), 2 * Np)
    ensures OnlyIn(old(mem[..]), mem[..], P + T, WordsFor(2 * Np))
    decreases |P|
  {
    hide Coded, Rev, PermAt, Every3, Holding, Buffers, OnlyIn, Reduced, WordsFor, AllReduced;
    ghost var s, n := mem[..], WordsFor(2 * Np);
    HoldingLength(s, P, n, v);
    CodedReduced(v, j, Np);
    if |P| == 1 {
      CodedOne(v[0], j, Np);
      assert v == [v[0]];
      OnlyInSame(s, P + T, n);
      return;
    }
    PermThird(p, stride, |P|);
    ghost var e, K := (3 * j) % (3 * Np), |P|;
    EveryAll(v, 2 * Np);
    EveryHolding(s, P, n, v, 0);
    EveryHolding(s, P, n, v, 1);
    EveryHolding(s, P, n, v, 2);
    EveryBuffers(P, T, n, mem.Length, 0);
    EveryBuffers(P, T, n, mem.Length, 1);
    EveryBuffers(P, T, n, mem.Length, 2);
    Fft(mem, Every3(P, 0), T, (3 * j) % (3 * Np), Np, 3 * stride, p, Every3(v, 0));
    ghost var s1 := mem[..];
    OthersKept(s, s1, P, T, n, 1, 0, Every3(v, 1));
    OthersKept(s, s1, P, T, n, 2, 0, Every3(v, 2));
    EveryOnly(s, s1, P, T, n, 0);
    Fft(mem, Every3(P, 1), T, (3 * j) % (3 * Np), Np, 3 * stride, p, Every3(v, 1));
    ghost var s2 := mem[..];
    OthersKept(s1, s2, P, T, n, 0, 1, Coded(Every3(v, 0), e, Np));
    OthersKept(s1, s2, P, T, n, 2, 1, Every3(v, 2));
    EveryOnly(s1, s2, P, T, n, 1);
    OnlyInThen(s, s1, s2, P + T, n);
    Fft(mem, Every3(P, 2), T, (3 * j) % (3 * Np), Np, 3 * stride, p, Every3(v, 2));
    ghost var s3 := mem[..];
    OthersKept(s2, s3, P, T, n, 0, 2, Coded(Every3(v, 0), e, Np));
    OthersKept(s2, s3, P, T, n, 1, 2, Coded(Every3(v, 1), e, Np));
    EveryOnly(s2, s3, P, T, n, 2);
    OnlyInThen(s, s2, s3, P + T, n);
    FftCombine(mem, P, T, j, Np, stride, p, v);
    OnlyInThen(s, s3, mem[..], P + T, n);
  }

  lemma HoldingLength(s: seq<Word>, P: seq<nat>, n: nat, v: seq<Poly>)
    requires Holding(s, P, n, v)
    ensures |v| == |P|
  {
  }

  lemma EveryAll(v: seq<Poly>, T: nat)
    requires |v| % 3 == 0 && AllReduced(v, T)
    ensures AllReduced(Every3(v, 0), T) && AllReduced(Every3(v, 1), T) && AllReduced(Every3(v, 2), T)
  {
    hide Reduced;
  }

  /** The loop of butterflies over the three interleaved transforms of length K/3. */
  method FftCombine(mem: array<Word>, P: seq<nat>, T: seq<nat>, j: nat, Np: nat, stride: nat, p: array<nat>,
                    ghost v: seq<Poly>)
    requires 0 < Np && IsPow3(|P|) && |P| > 1 && |T| == 3 && |v| == |P| && PermAt(p, 3 * stride, |P| / 3)
      && AllReduced(v, 2 * Np)
    requires Buffers(P + T, WordsFor(2 * Np), mem.Length)
    requires forall c: nat | c < 3 ::
      Holding(mem[..], Every3(P, c), WordsFor(2 * Np), Coded(Every3(v, c), (3 * j) % (3 * Np), Np))
    modifies mem
    ensures Holding(mem[..], P, WordsFor(2 * Np), Coded(v, j, Np))
      && OnlyIn(old(mem[..]), mem[..], P + T, WordsFor(2 * Np))
  {
    hide Coded, Rev, Third, Every3, Holding, Buffers, OnlyIn, Reduced, WordsFor, AllReduced, Partway;
    var k := |P| / 3;
    ghost var s, n, e := mem[..], WordsFor(2 * Np), (3 * j) % (3 * Np);
    ghost var u0, u1, u2 := Coded(Every3(v, 0), e, Np), Coded(Every3(v, 1), e, Np), Coded(Every3(v, 2), e, Np);
    ghost var all := Coded(v, j, Np);
    EveryAll(v, 2 * Np);
    CodedReduced(Every3(v, 0), e, Np);
    CodedReduced(Every3(v, 1), e, Np);
    CodedReduced(Every3(v, 2), e, Np);
    PartwayStart(s, P, n, all, u0, u1, u2);
    OnlyInSame(s, P + T, n);
    for i := 0 to k
      invariant Holding(mem[..], P, n, Partway(all, u0, u1, u2, i)) && OnlyIn(s, mem[..], P + T, n)
    {
      ghost var now := mem[..];
      ButterflyAt(mem, P, T, i, j, Np, stride, p, v, Partway(all, u0, u1, u2, i), u0, u1, u2);
      OnlyInThen(s, now, mem[..], P + T, n);
      PartwayNext(all, u0, u1, u2, i);
    }
    assert Partway(all, u0, u1, u2, k) == all;
  }

  lemma PartwayNext(all: seq<Poly>, u0: seq<Poly>, u1: seq<Poly>, u2: seq<Poly>, i: nat)
    requires |all| == 3 * |u0| && |u0| == |u1| == |u2| && i < |u0|
    ensures Partway(all, u0, u1, u2, i)[3 * i := all[3 * i]][3 * i + 1 := all[3 * i + 1]][3 * i + 2 := all[3 * i + 2]]
      == Partway(all, u0, u1, u2, i + 1)
  {
  }

  method ButterflyAt(mem: array<Word>, P: seq<nat>, T: seq<nat>, i: nat, j: nat, Np: nat, stride: nat, p: array<nat>,
                     ghost v: seq<Poly>, ghost w: seq<Poly>, ghost u0: seq<Poly>, ghost u1: seq<Poly>,
                     ghost u2: seq<Poly>)
    requires 0 < Np && IsPow3(|P|) && |P| > 1 && |T| == 3 && |v| == |P| && i < |P| / 3 && PermAt(p, 3 * stride, |P| / 3)
    requires Buffers(P + T, WordsFor(2 * Np), mem.Length) && Holding(mem[..], P, WordsFor(2 * Np), w)
    requires var e := (3 * j) % (3 * Np);
      u0 == Coded(Every3(v, 0), e, Np) && u1 == Coded(Every3(v, 1), e, Np) && u2 == Coded(Every3(v, 2), e, Np)
    requires AllReduced(u0, 2 * Np) && AllReduced(u1, 2 * Np) && AllReduced(u2, 2 * Np)
      && w == Partway(Coded(v, j, Np), u0, u1, u2, i)
    modifies mem
    ensures var all := Coded(v, j, Np);
      Holding(mem[..], P, WordsFor(2 * Np), w[3 * i := all[3 * i]][3 * i + 1 := all[3 * i + 1]][3 * i
        + 2 := all[3 * i + 2]])
    ensures OnlyIn(old(mem[..]), mem[..], P + T, WordsFor(2 * Np))
  {
    hide Coded, Rev, Third, PowerOf, Every3, Held, Buffers, OnlyIn, Reduced, WordsFor;
    ghost var s, n, all := mem[..], WordsFor(2 * Np), Coded(v, j, Np);
    var ii := p[3 * stride * i];
    CodedStep(v, j, 3 * i, Np);
    CodedStep(v, j, 3 * i + 1, Np);
    CodedStep(v, j, 3 * i + 2, Np);
    PowerIs(|P| / 3, i, 0);
    PowerIs(|P| / 3, i, 1);
    PowerIs(|P| / 3, i, 2);
    var B := [P[3 * i], P[3 * i + 1], P[3 * i + 2]];
    ThreeBuffers(P, T, n, mem.Length, i);
    assert (B + T)[..3] == B;
    Butterfly(mem, B + T, ii, j, |P|, Np, u0[i], u1[i], u2[i]);
    ThreeReplaced(s, mem[..], P, T, n, w, i, [all[3 * i], all[3 * i + 1], all[3 * i + 2]]);
    ThreeOnly(s, mem[..], P, T, n, i);
  }
}
