/** The transform of gf2x-1.1/fft.c on buffers of residues, and the product it
    computes.  A buffer A[i] of the source is an entry of the array mem; the
    pointer array of a call, A[0], A[stride], ..., is the sequence P of the
    addresses of its K buffers. */
module Transform {
  import opened Polynomials
  import opened PolyDivision
  import opened Residues
  import opened FftAlgebra

  // ---------------------------------------------------------------- trit reversal

  /** The number whose base-3 digits, K = 3^s giving their count, are those of i reversed. */
  function Rev(K: nat, i: nat): (r: nat)
    requires IsPow3(K) && i < K
    ensures r < K
  {
    if K == 1 then 0 else Rev(K / 3, i / 3) + Times(i % 3, K / 3)
  }

  function Times(d: nat, h: nat): nat {
    d * h
  }

  lemma RevDigits(K: nat, q: nat, d: nat)
    requires IsPow3(K) && K > 1 && q < K / 3 && d < 3
    ensures 3 * q + d < K && Rev(K, 3 * q + d) == Rev(K / 3, q) + Times(d, K / 3)
  {
    hide Times;
    assert (3 * q + d) / 3 == q && (3 * q + d) % 3 == d;
  }

  /** The leading digit of the argument becomes the last digit of the result. */
  lemma {:induction false} RevLeading(K: nat, c: nat, t: nat)
    requires IsPow3(K) && K > 1 && c < 3 && t < K / 3
    ensures Times(c, K / 3) + t < K && Rev(K, Times(c, K / 3) + t) == 3 * Rev(K / 3, t) + c
    decreases K
  {
    hide Rev, Times;
    var k := K / 3;
    LeadingDigit(c, t, k);
    if k == 1 {
      RevDigits(K, 0, c);
      RevOne();
      DigitOne(c);
    } else {
      var q, d := t / 3, t % 3;
      RevLeading(k, c, q);
      RevDigits(k, q, d);
      RevDigits(K, Times(c, k / 3) + q, d);
      DigitThree(c, k / 3);
      DigitThree(d, k / 3);
    }
  }

  lemma LeadingDigit(c: nat, t: nat, k: nat)
    requires c < 3 && t < k
    ensures Times(c, k) + t < 3 * k
  {
    if c == 0 {
    } else if c == 1 {
    } else {
    }
  }

  lemma DigitOne(d: nat)
    ensures Times(d, 1) == d
  {
  }

  lemma DigitThree(d: nat, h: nat)
    ensures Times(d, 3 * h) == 3 * Times(d, h)
  {
  }

  lemma RevOne()
    ensures Rev(1, 0) == 0
  {
  }

  lemma {:induction false} RevRev(K: nat, i: nat)
    requires IsPow3(K) && i < K
    ensures Rev(K, Rev(K, i)) == i
    decreases K
  {
    if K > 1 {
      RevRev(K / 3, i / 3);
      RevLeading(K, i % 3, Rev(K / 3, i / 3));
    }
  }

  /** The table written by Bitrev: the recursion on the leading digit. */
  ghost function RevSeq(j: nat, K: nat, Z: nat): (s: seq<nat>)
    requires IsPow3(K)
    ensures |s| == K
    decreases K
  {
    if K == 1 then [j]
    else RevSeq(j, K / 3, 3 * Z) + RevSeq(j + Z, K / 3, 3 * Z) + RevSeq(j + 2 * Z, K / 3, 3 * Z)
  }

  function Affine(j: nat, Z: nat, r: nat): nat {
    j + Z * r
  }

  lemma {:induction false} RevSeqAt(j: nat, K: nat, Z: nat, t: nat)
    requires IsPow3(K) && t < K
    ensures RevSeq(j, K, Z)[t] == Affine(j, Z, Rev(K, t))
    decreases K, 1
  {
    if K > 1 {
      hide Rev, RevSeq, Affine, Times;
      var k := K / 3;
      RevSeqUnfold(j, K, Z);
      PartAt(RevSeq(j, k, 3 * Z), RevSeq(j + Z, k, 3 * Z), RevSeq(j + 2 * Z, k, 3 * Z), k, t);
      Digits(k);
      Digits(Z);
      if t < k {
        RevSeqPart(j, j, K, Z, 0, t, t);
      } else if t < 2 * k {
        RevSeqPart(j, j + Z, K, Z, 1, t - k, t);
      } else {
        RevSeqPart(j, j + 2 * Z, K, Z, 2, t - 2 * k, t);
      }
    }
  }

  lemma PartAt(a: seq<nat>, b: seq<nat>, c: seq<nat>, k: nat, t: nat)
    requires |a| == k && |b| == k && |c| == k && t < 3 * k
    ensures (a + b + c)[t] == if t < k then a[t] else if t < 2 * k then b[t - k] else c[t - 2 * k]
  {
  }

  lemma Digits(h: nat)
    ensures Times(0, h) == 0 && Times(1, h) == h && Times(2, h) == 2 * h
  {
  }

  lemma RevSeqUnfold(j: nat, K: nat, Z: nat)
    requires IsPow3(K) && K > 1
    ensures RevSeq(j, K, Z)
         == RevSeq(j, K / 3, 3 * Z) + RevSeq(j + Z, K / 3, 3 * Z) + RevSeq(j + 2 * Z, K / 3, 3 * Z)
  {
  }

  lemma {:induction false} RevSeqPart(j: nat, first: nat, K: nat, Z: nat, c: nat, q: nat, t: nat)
    requires IsPow3(K) && K > 1 && c < 3 && q < K / 3
    requires first == j + Times(c, Z) && t == Times(c, K / 3) + q && t < K
    ensures RevSeq(first, K / 3, 3 * Z)[q] == Affine(j, Z, Rev(K, t))
    decreases K, 0
  {
    hide Rev, RevSeq, Times;
    RevSeqAt(first, K / 3, 3 * Z, q);
    RevLeading(K, c, q);
    Distribute(Z, Rev(K / 3, q), c);
  }

  method Bitrev(i: nat, j: nat, K: nat, Z: nat, perm: array<nat>)
    requires IsPow3(K) && i + K <= perm.Length
    modifies perm
    ensures forall x :: i <= x < i + K ==> perm[x] == RevSeq(j, K, Z)[x - i]
    ensures forall x :: 0 <= x < perm.Length && !(i <= x < i + K) ==> perm[x] == old(perm[x])
    decreases K
  {
    if K == 1 {
      perm[i] := j;
    } else {
      Bitrev(i, j, K / 3, 3 * Z, perm);
      Bitrev(i + K / 3, j + Z, K / 3, 3 * Z, perm);
      Bitrev(i + 2 * K / 3, j + 2 * Z, K / 3, 3 * Z, perm);
    }
  }

  lemma Distribute(Z: nat, r: nat, c: nat)
    ensures Z * (3 * r + c) == (3 * Z) * r + Times(c, Z)
  {
  }

  // ---------------------------------------------------------------- the ring operations

  /** b * x^k as the routine Lshift computes it: modulo x^(2N) + x^N + 1, but if N < 64
      and N < k mod 3N <= 2N one of the two copies of the middle bits is lost. */
  function Lshift(b: Poly, k: nat, N: nat): (a: Poly)
    requires 0 < N
    ensures Deg(a) < 2 * N
  {
    hide Deg, Shift, Phi, WithLoss;
    WithLoss(Rem(Shift(b, k), Phi(N)), b, k % (3 * N), N)
  }

  /** The result r of a shift by k' and the bits that are lost. */
  function WithLoss(r: Poly, b: Poly, k': nat, N: nat): (a: Poly)
    requires 0 < N && Deg(r) < 2 * N
    ensures Deg(a) < 2 * N
  {
    hide Deg, Low, High;
    if N < 64 && N < k' <= 2 * N then
      var lost := Low(High(b, 2 * N - k'), N);
      DegAdd(r, lost);
      Add(r, lost)
    else r
  }

  lemma LshiftExact(b: Poly, k: nat, N: nat)
    requires 64 <= N
    ensures Lshift(b, k, N) == Rem(Shift(b, k), Phi(N))
  {
    hide Rem, Shift, Phi;
  }

  /** Lshift is right for all residues just when N has a whole word or the exponent is not in the middle third. */
  lemma LshiftRight(k: nat, N: nat)
    requires 0 < N
    ensures (forall b: Poly :: Deg(b) < 2 * N ==> Lshift(b, k, N) == Rem(Shift(b, k), Phi(N)))
       <==> (64 <= N || !(N < k % (3 * N) <= 2 * N))
  {
    hide Rem, Shift, Phi, Deg, Low, High;
    var k' := k % (3 * N);
    if N < 64 && N < k' <= 2 * N {
      var b: Poly := {2 * N - k'};
      DegIs(b, 2 * N - k');
      assert 0 in Low(High(b, 2 * N - k'), N);
      assert Lshift(b, k, N) != Rem(Shift(b, k), Phi(N));
    }
  }

  /** b * c modulo x^(2N) + x^N + 1. */
  function MulMod(b: Poly, c: Poly, N: nat): (a: Poly)
    requires 0 < N
    ensures Deg(a) < 2 * N
  {
    Rem(Mul(b, c), Phi(N))
  }

  // ---------------------------------------------------------------- the transform in place

  /** p[stride * i] is the trit reversal of i for the K positions of this level. */
  ghost predicate PermAt(p: array<nat>, stride: nat, K: nat)
    requires IsPow3(K)
    reads p
  {
    forall i: nat :: i < K ==> 0 <= stride * i < p.Length && p[stride * i] == Rev(K, i)
  }

  lemma PermThird(p: array<nat>, stride: nat, K: nat)
    requires IsPow3(K) && K > 1 && PermAt(p, stride, K)
    ensures PermAt(p, 3 * stride, K / 3)
  {
    hide Rev;
    forall i: nat | i < K / 3
      ensures 0 <= (3 * stride) * i < p.Length && p[(3 * stride) * i] == Rev(K / 3, i)
    {
      TripleProduct(stride, i);
      RevDigits(K, i, 0);
      assert p[stride * (3 * i)] == Rev(K, 3 * i);
    }
  }

  lemma TripleProduct(a: int, b: int)
    ensures a * (3 * b) == (3 * a) * b
  {
  }

  /** a + x^(j*r) b + x^(2*j*r) c in the coefficient ring. */
  function Third(a: Poly, b: Poly, c: Poly, r: nat, j: nat, Np: nat): Poly
    requires 0 < Np
  {
    Add(Add(a, Lshift(b, r * j, Np)), Lshift(c, 2 * r * j, Np))
  }

  /** The butterfly combines the three decimated values into one value of the
      whole sequence, for each of the three indices r that agree modulo K/3. */
  lemma CombineThirds(s: seq<Poly>, j: nat, r: nat, ii: nat, c: nat, Np: nat)
    requires 64 <= Np && |s| % 3 == 0 && c < 3 && r == ii + c * (|s| / 3)
    requires j * |s| >= 0 && (j * |s|) % (3 * Np) == 0
    ensures j * r >= 0
    ensures var e := (3 * j) % (3 * Np);
      e * ii >= 0 &&
      Rem(EvalAt(s, j * r), Phi(Np))
        == Third(Rem(EvalAt(Every3(s, 0), e * ii), Phi(Np)), Rem(EvalAt(Every3(s, 1), e * ii), Phi(Np)),
                 Rem(EvalAt(Every3(s, 2), e * ii), Phi(Np)), r, j, Np)
  {
    hide EvalAt, Add, Shift, Rem, Phi, Every3, Third;
    TripleExponent(|s|, j, r, ii, c, Np);
    var e, g := ((3 * j) % (3 * Np)) * ii, j * r;
    EvalCong(Every3(s, 0), Every3(s, 0), 3 * g, e, Np);
    EvalCong(Every3(s, 1), Every3(s, 1), 3 * g, e, Np);
    EvalCong(Every3(s, 2), Every3(s, 2), 3 * g, e, Np);
    EvalDecimate(s, g);
    var v0, v1, v2 := EvalAt(Every3(s, 0), 3 * g), EvalAt(Every3(s, 1), 3 * g), EvalAt(Every3(s, 2), 3 * g);
    ThirdOfRems(v0, v1, v2, r, j, g, Np);
  }

  lemma ThirdOfRems(v0: Poly, v1: Poly, v2: Poly, r: nat, j: nat, g: nat, Np: nat)
    requires 64 <= Np && g == j * r
    ensures var P := Phi(Np);
      Rem(Add(Add(v0, Shift(v1, g)), Shift(v2, 2 * g)), P)
        == Third(Rem(v0, P), Rem(v1, P), Rem(v2, P), r, j, Np)
  {
    hide Add, Shift, Rem, Phi, Lshift;
    var P := Phi(Np);
    LshiftExact(Rem(v1, P), r * j, Np);
    LshiftExact(Rem(v2, P), 2 * r * j, Np);
    RemAdd(Add(v0, Shift(v1, g)), Shift(v2, 2 * g), P);
    RemAdd(v0, Shift(v1, g), P);
    RemRem(v1, P);
    RemRem(v2, P);
    ShiftCong(v1, Rem(v1, P), g, P);
    ShiftCong(v2, Rem(v2, P), 2 * g, P);
    assert r * j == g && 2 * r * j == 2 * g;
  }

  lemma TripleExponent(K: nat, j: nat, r: nat, ii: nat, c: nat, Np: nat)
    requires 0 < Np && K % 3 == 0 && r == ii + c * (K / 3)
    requires j * K >= 0 && (j * K) % (3 * Np) == 0
    ensures j * r >= 0 && ((3 * j) % (3 * Np)) * ii >= 0
    ensures (3 * (j * r)) % (3 * Np) == (((3 * j) % (3 * Np)) * ii) % (3 * Np)
  {
    var n := 3 * Np;
    var e, q, w := (3 * j) % n, (3 * j) / n, (j * K) / n;
    TripleArithmetic(n, j, K / 3, q, e, w, ii, c);
    ModEqual(3 * (j * r), e * ii, n, q * ii + c * w);
  }

  lemma TripleArithmetic(n: int, j: int, k: int, q: int, e: int, w: int, ii: int, c: int)
    requires 3 * j == n * q + e && j * (3 * k) == n * w
    ensures 3 * (j * (ii + c * k)) == e * ii + n * (q * ii + c * w)
  {
    assert j * (ii + c * k) == j * ii + c * (j * k);
    assert (n * q + e) * ii == n * (q * ii) + e * ii;
    assert c * (n * w) == n * (c * w);
  }

  /** What the transform leaves in position i: the value of the polynomial with
      coefficients s at x^(j * Rev(i)). */
  ghost function Spectrum(s: seq<Poly>, j: nat, i: nat, Np: nat): (v: Poly)
    requires IsPow3(|s|) && i < |s| && 0 < Np
    ensures Deg(v) < 2 * Np
  {
    var e := j * Rev(|s|, i);
    Rem(EvalAt(s, e), Phi(Np))
  }

  lemma SpectrumCombine(s: seq<Poly>, j: nat, i: nat, c: nat, Np: nat)
    requires IsPow3(|s|) && |s| > 1 && i < |s| / 3 && c < 3 && 64 <= Np
    requires j * |s| >= 0 && (j * |s|) % (3 * Np) == 0
    ensures var e := (3 * j) % (3 * Np);
      Spectrum(s, j, 3 * i + c, Np)
        == Third(Spectrum(Every3(s, 0), e, i, Np), Spectrum(Every3(s, 1), e, i, Np),
                 Spectrum(Every3(s, 2), e, i, Np), Rev(|s| / 3, i) + c * (|s| / 3), j, Np)
  {
    hide EvalAt, Rem, Phi, Every3, Third, Rev;
    RevDigits(|s|, i, c);
    CombineThirds(s, j, Rev(|s|, 3 * i + c), Rev(|s| / 3, i), c, Np);
  }

  lemma SpectrumOne(v: Poly, j: nat, Np: nat)
    requires 0 < Np && Deg(v) < 2 * Np
    ensures Spectrum([v], j, 0, Np) == v
  {
    hide Rem, Deg, Phi, Shift;
    assert [v][1..] == [];
    assert EvalAt([v], j * 0) == Add(v, Shift(EvalAt([], j * 0), j * 0));
    assert EvalAt([v], j * 0) == v;
    RemSmall(v, Phi(Np));
  }

  lemma PeriodThird(K: nat, j: nat, Np: nat)
    requires 0 < Np && K % 3 == 0 && j * K >= 0 && (j * K) % (3 * Np) == 0
    ensures ((3 * j) % (3 * Np)) * (K / 3) >= 0
    ensures (((3 * j) % (3 * Np)) * (K / 3)) % (3 * Np) == 0
  {
    TripleExponent(K, j, K / 3, K / 3, 0, Np);
    assert 3 * (j * (K / 3)) == j * K;
  }

  /** Position t of the transform of length 3k belongs to this power of the root. */
  function PowerOf(k: nat, t: nat): nat
    requires IsPow3(k) && t < 3 * k
  {
    Rev(k, t / 3) + (t % 3) * k
  }

  lemma PowerIs(k: nat, i: nat, c: nat)
    requires IsPow3(k) && i < k && c < 3
    ensures (3 * i + c) / 3 == i && (3 * i + c) % 3 == c && PowerOf(k, 3 * i + c) == Rev(k, i) + c * k
  {
    hide Rev, IsPow3;
    assert (3 * i + c) / 3 == i && (3 * i + c) % 3 == c;
  }

  /** Three interleaved transforms put together by the butterflies. */
  ghost function Combined(u0: seq<Poly>, u1: seq<Poly>, u2: seq<Poly>, j: nat, Np: nat): (r: seq<Poly>)
    requires |u0| == |u1| == |u2| && IsPow3(|u0|) && 0 < Np
    ensures |r| == 3 * |u0|
    ensures forall t :: 0 <= t < |r| ==> r[t] == Third(u0[t / 3], u1[t / 3], u2[t / 3], PowerOf(|u0|, t), j, Np)
  {
    hide Third, PowerOf;
    seq(3 * |u0|, t requires 0 <= t < 3 * |u0| => Third(u0[t / 3], u1[t / 3], u2[t / 3], PowerOf(|u0|, t), j, Np))
  }

  /** What the routine computes, whatever Np is. */
  ghost function Coded(s: seq<Poly>, j: nat, Np: nat): (r: seq<Poly>)
    requires IsPow3(|s|) && 0 < Np
    ensures |r| == |s|
    decreases |s|
  {
    hide Combined, Every3;
    if |s| == 1 then s
    else
      var e := (3 * j) % (3 * Np);
      Combined(Coded(Every3(s, 0), e, Np), Coded(Every3(s, 1), e, Np), Coded(Every3(s, 2), e, Np), j, Np)
  }

  lemma CodedStep(s: seq<Poly>, j: nat, t: nat, Np: nat)
    requires IsPow3(|s|) && |s| > 1 && t < |s| && 0 < Np
    ensures var e := (3 * j) % (3 * Np);
      Coded(s, j, Np)[t]
        == Third(Coded(Every3(s, 0), e, Np)[t / 3], Coded(Every3(s, 1), e, Np)[t / 3],
          Coded(Every3(s, 2), e, Np)[t / 3], PowerOf(|s| / 3, t), j, Np)
  {
    hide Every3, Third, PowerOf, Combined;
  }

  lemma CodedOne(v: Poly, j: nat, Np: nat)
    requires 0 < Np
    ensures Coded([v], j, Np) == [v]
  {
  }

  /** With residues of at least 64 bits the routine computes the transform. */
  lemma {:induction false} CodedIsSpectrum(s: seq<Poly>, j: nat, t: nat, Np: nat)
    requires IsPow3(|s|) && 64 <= Np && t < |s|
    requires j * |s| >= 0 && (j * |s|) % (3 * Np) == 0
    requires forall i :: 0 <= i < |s| ==> Deg(s[i]) < 2 * Np
    ensures Coded(s, j, Np)[t] == Spectrum(s, j, t, Np)
    decreases |s|
  {
    hide Spectrum, Rev, Every3, Third, Deg, Coded, PowerOf;
    if |s| == 1 {
      assert s == [s[0]];
      CodedOne(s[0], j, Np);
      SpectrumOne(s[0], j, Np);
    } else {
      PeriodThird(|s|, j, Np);
      EveryReduced(s, Np);
      var e, i, c := (3 * j) % (3 * Np), t / 3, t % 3;
      CodedIsSpectrum(Every3(s, 0), e, i, Np);
      CodedIsSpectrum(Every3(s, 1), e, i, Np);
      CodedIsSpectrum(Every3(s, 2), e, i, Np);
      CodedStep(s, j, t, Np);
      PowerIs(|s| / 3, i, c);
      SpectrumCombine(s, j, i, c, Np);
    }
  }

  lemma EveryReduced(s: seq<Poly>, Np: nat)
    requires |s| % 3 == 0 && forall i :: 0 <= i < |s| ==> Deg(s[i]) < 2 * Np
    ensures forall c: nat, i | c < 3 && 0 <= i < |s| / 3 :: Deg(Every3(s, c)[i]) < 2 * Np
  {
    hide Deg;
  }
}
