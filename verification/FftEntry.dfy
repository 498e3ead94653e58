/** gf2x_mul_fft of gf2x-1.1/fft.c: one transform for positive K, the split product for negative K. */
module FftEntry {
  import opened Polynomials
  import opened FftAlgebra
  import opened FftMul
  import opened FftLimits
  import opened FftProduct
  import opened SplitFft
  import opened SplitProduct
  import opened SplitStrays
  import opened SplitLimits
  import opened Words
  import opened WordMemory
  import ToomSpace

  /** Lengths for sc words in all that the routine accepts: powers of 3, negative ones at least 64 in size and
      such that the reconstruction has a word to start from. */
  ghost predicate LengthAccepted(K: int, sc: nat) {
    && (K > 0 ==> IsPow3(K) && 3 <= K)
    && (K <= 0 ==> IsPow3(-K) && 64 <= -K && -K * (SplitLength(sc, 0, -K) + 1) + 64 <= 64 * sc)
  }

  /** Those for which the product is right: the residues have at least 64 bits and no word that is read behind one does
      harm. */
  predicate LengthRight(K: int, sc: nat)
    requires LengthAccepted(K, sc) && 0 < sc
  {
    if K > 0 then !(K == 81 && sc <= 68) && SingleClear(sc, K)
    else !(K == -81 && sc <= 136) && SplitSafe(sc, -K)
  }

  /** The result with one transform, x being the words read behind the residues. */
  ghost predicate SingleDone(s: seq<Word>, c: nat, A: Poly, an: nat, B: Poly, bn: nat, K: nat, x: seq<Word>)
    requires IsPow3(K) && 3 <= K
  {
    var M := Ceil((an + bn) * 64, K);
    0 < M && |x| == K && Held(s, c, an + bn, CodedProduct(A, B, M, K, an + bn, x))
  }

  /** The result with the transform split in two. */
  ghost predicate SplitDone(r: Outcome, s: seq<Word>, c: nat, A: Poly, an: nat, B: Poly, bn: nat, K: nat, x1: seq<Word>,
                            x2: seq<Word>)
    requires IsPow3(K) && 3 <= K
  {
    && |x1| == K && |x2| == K && 0 < SplitLength(an, bn, K)
    && SplitResult(r, s, c, an, bn, K, Mul(A, B), HalfOne(A, an, B, bn, K, x1), HalfTwo(A, an, B, bn, K, x2))
  }

  /** {c, an + bn} <- {a, an} * {b, bn}; c may overlap the operands.  Outside the right range the result is what the
      transforms make of the words x1 and x2 that are read behind their residues. */
  method MulFft(t: ToomSpace.Tuning, mem: array<Word>, c: nat, a: nat, an: nat, b: nat, bn: nat, K: int, ghost A: Poly,
                ghost B: Poly)
      returns (r: Outcome, ghost x1: seq<Word>, ghost x2: seq<Word>)
    requires t.Valid() && 0 < an && 0 < bn && LengthAccepted(K, an + bn) && c + an + bn <= mem.Length
    requires Held(mem[..], a, an, A) && Held(mem[..], b, bn, B) && Fits(A, an) && Fits(B, bn)
    modifies mem
    ensures r == TooShort <==> an + bn < MUL_FFT_THRESHOLD
    ensures an + bn >= MUL_FFT_THRESHOLD && LengthRight(K, an + bn)
      ==> r == Done && Held(mem[..], c, an + bn, Mul(A, B))
    ensures if r == Done then Only(old(mem[..]), mem[..], c, an + bn) else mem[..] == old(mem[..])
    ensures K > 0 && r != TooShort ==> r == Done && SingleDone(mem[..], c, A, an, B, bn, K, x1)
    ensures K <= 0 && r != TooShort ==> SplitDone(r, mem[..], c, A, an, B, bn, -K, x1, x2)
  {
    hide Held, Fits, Only, IsPow3, Mul, SplitLength, SingleClear, SplitSafe, CodedProduct, HalfOne, HalfTwo,
      SplitResult, Ceil, Deg;
    if K > 0 {
      var done;
      done, x1 := MulFftSingle(t, mem, c, a, an, b, bn, K, A, B);
      x2 := x1;
      r := if done then Done else TooShort;
      if done && LengthRight(K, an + bn) {
        FitsDegree(A, an);
        FitsDegree(B, bn);
        SingleRight(an, bn, K);
      }
    } else {
      SumLength(an, bn, -K);
      r, x1, x2 := MulFftSplit(t, mem, c, a, an, b, bn, -K, A, B);
      if r != TooShort && LengthRight(K, an + bn) {
        SplitRight(an, bn, -K);
        assert Right(A, an, B, bn, -K, x1, x2);
      }
    }
  }
}
