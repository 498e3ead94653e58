# A verified model of the multi-party private set intersection code

The repository computes the size of the intersection of several parties' sets. It contains the protocol itself
(`Source Files/`, `PSI/`, the garbled Bloom filter of `PSI_C_0.1/`) and the library gf2x 1.1 for polynomials over
GF(2), with its half-gcd and its programme for factoring trinomials. This project models the algorithms of both in
Dafny, in the form in which the code has them: routines that work on words in memory are methods on arrays of words,
objects that are updated in place are classes, loops keep their order.

A polynomial over GF(2) is the set of its exponents (`Polynomials`), a machine word is such a set below 64 (`Words`).
`Held(s, p, n, P)` says that the n words of s from p on are those of P; `Only(s, t, p, n)` says that s and t agree
outside those words (`WordMemory`). Ghost parameters of the methods name the polynomials that the operands hold; they
do not exist at run time.

| part | modules |
|---|---|
| polynomials, words, memory, linear loops | Numbers, Polynomials, PolyDivision, Words, WordMemory, BitLoops, ShiftLoops, OperandParts |
| multiplication by rows, Karatsuba, Toom-Cook | BaseCase, Karatsuba, ToomSpace, ToomAlgebra, ToomLoops, ToomBits, ToomFour, ToomFourBits, ToomFourSteps, ToomUnbalanced, Toom, Multiply |
| the ternary Fourier transform | Residues, FftAlgebra, FftConvolution, Transform, Regions, ResidueWords, LshiftWords, MulModWords, FftWords, Blocks, BlockWords, FftMul, FftProduct, FftLimits, FftEntry |
| its split form | SplitFft, SplitProduct, StrayPositions, SplitStrays, SplitLimits |
| half-gcd, factoring trinomials | HalfGcd, DoubleBlocking |
| hashing, masks, shares, the leader's search | HashingUtil, Cuckoo, SimpleHashing, Followers, Leaders, LinearSolve, GarbledFilter, Matching |
| bit matrices, threshold decryption | BitTranspose, Lagrange, Paillier |

## Findings

What the proofs show the code not to do, each with the exact condition.

- **Lshift loses bits.** `gf2x-1.1/fft.c` promises b x^k modulo x^(2N) + x^N + 1. When N < 64 and N < k mod 3N <= 2N
  the second copy of the middle bits is not added. `Transform.LshiftRight`: the result is right for all b if and only
  if 64 <= N or k mod 3N lies outside that range. `LshiftWords.Lshift` is the routine with this loss.
- **recompose reads behind residues.** A block that reaches one word further than the words of its residue adds a word
  that the transform never wrote. `BlockWords.Recompose` gives the result for every content of these words
  (`Blocks.Assembled`); they do not matter if no block is read too far (`Blocks.AssembledClear`), and one stray bit
  makes the result wrong (`Blocks.AssembledWrong`). Blocks of 64 bits are safe (`Blocks.LongBlocksClear`), a
  length-243 transform for 28 words is not (`FftLimits.ShortBlocksRead`).
- **The range of gf2x_mul_fft.** With one transform of length K all products of an and bn words are right, whatever
  lies behind the blocks, if and only if no block is read too far and not (K = 81 and an + bn <= 68):
  `FftLimits.SingleRight`. With the transform split in two they are right if and only if no block of the larger half
  is read too far, none of the smaller half is or that does no harm, and not (K = 81 and an + bn <= 136):
  `SplitLimits.SplitRight`. The harmless case is blocks of 3 bits with K = 9 modulo 64 and products of 92 bits more
  than the larger half has, where the reconstruction never reads the spoilt bits (`SplitStrays.HarmlessTwo`); 3^18 is
  the first such K. In every other case one of the spoilt positions is read (`SplitStrays.FeltBlock`), and operands
  and words behind the blocks exist for which no result is the product.
- **The comment on the scratch space.** `gf2x-1.1/toom.c` calls 5n + 17 words enough. The space that gf2x_toomspace
  returns, and that is reserved, exceeds this for the sizes that `ToomSpace.CommentBound` lists and for no others; the
  bound 5n + 43 holds for all sizes (`ToomSpace.SpaceBound`).
- **MulMod reaches behind the words it asks for.** The comment wants W(2N) words for a, the words of 2N bits. The
  first shift writes one word more if and only if 22 <= N <= 31, the last one if and only if 17 <= N <= 21, and there
  is no further word for any N (`MulModWords.WordsTouched`). The first shift clears that word; the last one stores
  what it has read, so the word changes for some memory if and only if 22 <= N <= 31 (`MulModWords.WordBehindChanges`,
  with the smallest inputs N = 17 and N = 22 in `MulModWords.ShortestLengths`). `MulModWords.MulMod` demands exactly
  the words that are touched. It keeps two words in the scratch space, of which gf2x_toomspace reserves none for sizes
  below the thresholds (`ToomSpace.RoomForTwo`). The callers provide 2 W(N) words and scratch space enough.
- **Element 0's table index.** Bins that stay empty leave zeros at the end of `perm`, and a zero means element 0. If
  an insertion has failed, the leader's element 0 gets the last table index, whether it is in the table or not
  (`Cuckoo.BuildHashInfo`); perm lists every element once if and only if no element other than 0 is missing
  (`Cuckoo.PermPermutes`).
- **The message about full bins.** A follower reports a bin with more masks than all its cells have slots, and goes on.
  What matters is the room in every single cell: a mask that finds its cell full goes to a later bin's cell, where the
  leader does not look for it (`Followers.Displaced`). Without an overflow there is no message
  (`Matching.NoOverflowNoMessage`), but the converse fails (`Matching.UnnoticedOverflow`). The elements that are
  counted for certain are those for which all cells have room (`Matching.Protocol`).
- **The linear solver.** `GF2MatrixUtils::solve` has no free variables: it reports that x0 + x1 = 1 has no solution
  (`LinearSolve.WideSystem`). `LinearSolve.SolveRight`: its answers for a matrix are right for all right-hand sides if
  and only if the walk of the back substitution through the eliminated rows, a check on the matrix alone, goes on to
  the end. For independent columns it does (`LinearSolve.IndependentWalkable`), for some dependent ones too
  (`LinearSolve.DependentSystem`).
- **The parameters a and b of the threshold scheme.** `PaillierParty::initPaiilier` sets both to 1 and notes a bug
  with other values. `Paillier.Decrypt` says what it is: the number that decrypt divides by contains a twice, so what
  comes out is M divided by a, and it is M if and only if a M = M modulo n; all plaintexts come out if and only if a =
  1 modulo n (`Paillier.AllPlaintexts`). The parameter b does no harm. `Paillier.Threshold` states this for the whole
  run, from the secret sharing to the combined decryption.
- **Exact divisions.** The comments of `gf2x-1.1/toom2.c` give the two exact divisions of the four-way routine as c =
  q (x + x^4) + x^n r and the like for x^2 + x^4. Both start with a shift to the right, and the bits that it drops
  count too: the equation holds if and only if they are zero and so is r (`BitLoops.NoRemainder`). The routine only
  divides where this is so.
- **The zero case of the base case.** In `gf2x-1.1/gf2x.c` the `return` of `case 0` is part of the comment, so
  operands of length zero fall through to the case of one word: a word is read from each and two are written.
  `BaseCase.Count` models this.

## Model

| member | source | states |
|---|---|---|
| BaseCase.Mul1N | gf2x-1.1/src/mul1cl.c:56-105 | the sb words of B times a word go to cp, the word above them is returned, nothing else changes |
| BaseCase.AddMul1N | gf2x-1.1/src/mul1cl.c:108-155 | d becomes c + B x word for word, also in place, and the returned carry is the next word of B x |
| BaseCase.MulBasecase | gf2x-1.1/gf2x.c:33-67 | refuses exactly equal lengths above 9; otherwise c holds the product A B (of max(na,1) + max(nb,1) words) and nothing else changes |
| BaseCase.RowAdded | gf2x-1.1/gf2x.c:60-63 | adding row i to the product with the words of a below i gives the words of the product with one word more |
| ToomSpace.ToomSpace | gf2x-1.1/toom.c:114-127 | the loop returns the recursively defined space Space(n) |
| ToomSpace.ToomUSpace | gf2x-1.1/toom.c:132-138 | the same for the unbalanced routine |
| ToomSpace.SpaceBound | gf2x-1.1/toom.c:114-127 | at most 5n + 43 words for every n |
| ToomSpace.UnbalancedBound | gf2x-1.1/toom.c:132-138 | and for the unbalanced routine at most 3.25 sa + 95 words, none below its threshold |
| ToomSpace.CommentBound | gf2x-1.1/toom.c:139-143 | the 5n + 17 words of the comment suffice if and only if n is not one of the listed sizes |
| ToomSpace.KaraCovered | gf2x-1.1/toom.c:91-104 | Karatsuba's own recursion needs no more than Space(n), for all sizes and thresholds |
| ToomSpace.Tc3wCovered | gf2x-1.1/toom.c:91-104 | the temporaries of TC3W and any of its recursive calls fit into Space(n) |
| ToomSpace.Tc3Covered | gf2x-1.1/toom.c:91-104 | the same for TC3 |
| ToomSpace.Tc4Covered | gf2x-1.1/toom.c:91-104 | the same for TC4 |
| Karatsuba.MulKara | gf2x-1.1/toom.c:178-243 | c holds A B; only c and the scratch words change; the recursion uses KaraSpace(n) words |
| Karatsuba.SumHalves | gf2x-1.1/toom.c:221-230 | one loop leaves the sums of the halves of both operands and of the two middle quarters of c, also for odd n |
| Karatsuba.CombineHalves | gf2x-1.1/toom.c:234-242 | the in-place combination leaves L + y^k (L + M + H) + y^2k H |
| Toom.MulToom | gf2x-1.1/toom.c:144-172 | c holds A B whichever routine the thresholds select, within Space(n) words of scratch, and nothing else changes |
| BitLoops.AddWords | gf2x-1.1/toom2.c:42-48 | c becomes the sum of a and b, also in place |
| BitLoops.Add3 | gf2x-1.1/toom2.c:52-58 | c becomes c + a + b |
| BitLoops.Add4 | gf2x-1.1/toom2.c:185-191 | c becomes c + a + b + d |
| BitLoops.Add1 | gf2x-1.1/toom2.c:91-102 | c becomes a plus a carry word; what is returned is the carry if there was no word to put it in |
| BitLoops.Lsh1 | gf2x-1.1/toom2.c:77-87 | c becomes x c with the given word or-ed to its lowest, the bit shifted out is returned |
| BitLoops.AddLsh13 | gf2x-1.1/toom2.c:169-181 | c becomes c + b + x^3 b, the bits shifted out are returned |
| BitLoops.Rsh1Add | gf2x-1.1/toom2.c:152-165 | c becomes (c + b) / x, cut to n words; what is returned is the lowest word of the sum |
| BitLoops.DivOnePlusX | gf2x-1.1/toom2.c:198-219 | for every R: the n words of (1 + x) R become those of R in place, and what R x carries out of them is returned |
| BitLoops.DivOnePlusX2 | gf2x-1.1/toom2.c:108-128 | for every R: the same for (1 + x^2) R |
| BitLoops.Division | gf2x-1.1/toom2.c:192-219 | every c of n words is (1 + x^e) R + x^(64 n) r with R of n words and r what R x^e carries out: the two routines divide every c |
| BitLoops.AddLsh1Lsh2 | gf2x-1.1/toom2.c:1369-1379 | c becomes x a + x^2 b, with the bits shifted out of both |
| BitLoops.DivExactD1 | gf2x-1.1/toom2.c:1414-1435 | for every c: shifted down by one bit and divided by 1 + x^3, the remainder returned |
| BitLoops.DivExactD2 | gf2x-1.1/toom2.c:1440-1454 | for every c: shifted down by two bits and divided by 1 + x^2, the remainder returned |
| BitLoops.NoRemainder | gf2x-1.1/toom2.c:1411-1454 | the equation of the comments holds if and only if the bits dropped by the shift and the remainder are zero |
| ToomAlgebra.EvalConv | gf2x-1.1/toom2.c:1107-1135 | evaluation at any point turns the product of operands in parts into the product of values |
| ToomAlgebra.Interpolation | gf2x-1.1/toom2.c:400-437 | from the values at 0, 1, x^e, 1 + x^e and infinity the steps of the source recover c1, c2, c3, and every division is exact |
| ToomAlgebra.ThreeWayProduct | gf2x-1.1/toom2.c:295-450 | the coefficients whose values at the five points are the routine's five products exist, fit their regions, and put together they are the product |
| ToomAlgebra.FourByTwoProduct | gf2x-1.1/toom2.c:496-797 | the same for operands of four and two parts |
| ToomFour.FourWayProduct | gf2x-1.1/toom2.c:1550-1700 | the same for four parts and seven points, two of them at the reversed operands |
| ToomLoops.Interpolate | gf2x-1.1/toom2.c:1232-1323 | in place: words that hold the five values become words that hold the five coefficients |
| ToomLoops.Recompose | gf2x-1.1/toom2.c:1331-1343 | the coefficients, two of them lying elsewhere, are put together at multiples of y^k |
| ToomFourSteps.InterpolateFour | gf2x-1.1/toom2.c:1646-1694 | the twelve steps with their three carry words turn seven values into seven coefficients in place |
| ToomFourSteps.RecomposeFour | gf2x-1.1/toom2.c:1698-1698 | the seven coefficients put together are their value at y^k |
| Toom.MulTc3 | gf2x-1.1/toom2.c:295-450 | c holds A B for every n >= 17, values and products sharing the words of c and the scratch space as in the source |
| Toom.MulTc3w | gf2x-1.1/toom2.c:1100-1345 | c holds A B for every n >= 8 |
| Toom.MulTc4 | gf2x-1.1/toom2.c:1550-1700 | c holds A B for every n >= 30, with the products that overlap their neighbour by two words and the words saved and restored around them |
| ToomUnbalanced.MulTc3u | gf2x-1.1/toom2.c:496-797 | c holds A B for operands of sa and ceil(sa/2) words |
| Multiply.AddSlices | gf2x-1.1/gf2x.c:98-215 | the loop over slices of the long operand adds the product with all whole slices |
| Multiply.MulUnbalanced | gf2x-1.1/gf2x.c:98-215 | for operands of any two lengths the loop that exchanges them like Euclid's algorithm ends with the product |
| Multiply.MulByFft | gf2x-1.1/gf2x.c:98-215 | with any table of lengths for which the transform is right, the product is in c |
| Multiply.MulR | gf2x-1.1/gf2x.c:98-215 | c holds A B for operands of any lengths, also when c is a or b; besides c only the pool and, in that case, the buffer change |
| ShiftLoops.Lsh | gf2x-1.1/fft.c:158-179 | n words shifted by k < 64 within the array, also to lower addresses in place, and the bits shifted out |
| ShiftLoops.AddLsh | gf2x-1.1/fft.c:183-204 | the same, added |
| ShiftLoops.Rsh | gf2x-1.1/fft.c:208-227 | n words shifted down by k < 64, also to higher addresses in place as far as the order of the loop allows, and the bits shifted out |
| ShiftLoops.AddRsh | gf2x-1.1/fft.c:231-249 | the same, added |
| Transform.LshiftRight | gf2x-1.1/fft.c:280-433 | Lshift is b x^k modulo x^(2N) + x^N + 1 for all b if and only if 64 <= N or k mod 3N is not in (N, 2N] |
| ResidueWords.CaseResults | gf2x-1.1/fft.c:302-424 | what each of the four cases of Lshift leaves, for every N and k |
| LshiftWords.Lshift | gf2x-1.1/fft.c:283-433 | on words: the W(2N) words of a hold exactly this, for every N, k and shared middle word, and nothing else changes |
| MulModWords.FoldedIsRem | gf2x-1.1/fft.c:442-487 | the folding of the double-length product is the reduction modulo x^(2N) + x^N + 1 |
| MulModWords.MulMod | gf2x-1.1/fft.c:442-487 | on words: a holds b c modulo x^(2N) + x^N + 1, for every N and also when a is b; exactly the words touched are demanded, and what becomes of the one behind the result is stated |
| MulModWords.WordsTouched | gf2x-1.1/fft.c:439-487 | which N make the first or the last shift reach one word behind the W(2N) words of a, both directions |
| MulModWords.WordBehindChanges | gf2x-1.1/fft.c:439-487 | the word behind changes for some memory if and only if 22 <= N <= 31 |
| MulModWords.ShortestLengths | gf2x-1.1/fft.c:439-487 | N = 17: the last shift touches the word and leaves it; N = 22: the first one clears it |
| Transform.RevRev | gf2x-1.1/fft.c:489-502 | reversing the base-3 digits twice gives the number back |
| Transform.RevSeqAt | gf2x-1.1/fft.c:493-502 | the recursion on the leading digit tabulates j + Z times the reversal |
| Transform.Bitrev | gf2x-1.1/fft.c:493-502 | perm[i .. i+K) becomes this table, the rest is unchanged |
| FftMul.MakePerm | gf2x-1.1/fft.c:493-502 | called as by the initialisation, perm[i] is the trit reversal of i |
| FftWords.AddMod | gf2x-1.1/fft.c:149-154 | one buffer becomes the sum of two, the others keep their residues |
| FftWords.Butterfly | gf2x-1.1/fft.c:534-548 | three buffers a, b, c become a + w b + w^2 c for the three roots w of the butterfly, with Lshift's loss |
| FftWords.Fft | gf2x-1.1/fft.c:515-552 | through its pointers the routine replaces the residues by the coded transform, for every length 3^e, stride and N, and writes only the buffers |
| Transform.CombineThirds | gf2x-1.1/fft.c:515-552 | the butterflies on the three interleaved transforms give the transform of the whole |
| Transform.CodedIsSpectrum | gf2x-1.1/fft.c:504-552 | with residues of at least 64 bits position i is the value of the polynomial at x^(j rev(i)) |
| FftAlgebra.Orthogonality | gf2x-1.1/fft.c:504-513 | the powers of a root of order K = 3^e over a full period sum to 1 or 0 modulo x^(2N) + x^N + 1 |
| FftAlgebra.InverseTransform | gf2x-1.1/fft.c:933-958 | the transform with the inverse root undoes the transform; K is odd, so nothing is divided by |
| FftConvolution.EvalCyclic | gf2x-1.1/fft.c:1086-1092 | cyclic convolution multiplies values wherever the point has order K |
| FftConvolution.EvalCyclicExact | gf2x-1.1/fft.c:1086-1092 | and everywhere if nothing comes round |
| BlockWords.Decompose | gf2x-1.1/fft.c:558-585 | buffer i holds bits iM to (i + 1)M of a, zeros behind its end, for every M |
| BlockWords.Recompose | gf2x-1.1/fft.c:587-646 | c holds the sum of the blocks at multiples of M, cut to cn words, with what was read behind the residues, for every M <= N |
| Blocks.AssembledClear | gf2x-1.1/fft.c:612-646 | no block read too far: exactly the low cn words of the sum of the blocks |
| Blocks.AssembledLow | gf2x-1.1/fft.c:612-646 | no block read too far in the lowest words: they are right whatever lies behind |
| Blocks.AssembledWrong | gf2x-1.1/fft.c:628-631 | one bit behind a block that is read too far: not the sum |
| FftProduct.DftInner | gf2x-1.1/fft.c:816-833 | the buffers hold the forward transform of the chunks of a |
| FftProduct.ComposeInner | gf2x-1.1/fft.c:880-897 | the buffers hold the pointwise products, also when tc is ta or tb |
| FftProduct.IftInner | gf2x-1.1/fft.c:933-958 | c holds the recomposed blocks of the inverse transform, read in permuted order |
| FftMul.InverseSpectrum | gf2x-1.1/fft.c:933-958 | position i of the transform of the reordered spectrum holds coefficient rev(i) |
| FftMul.BackwardIs | gf2x-1.1/fft.c:933-958 | with residues of at least 64 bits the inverse of a spectrum is the sequence it came from |
| FftMul.SpectrumProduct | gf2x-1.1/fft.c:880-897 | the product of two spectra is the spectrum of the cyclic convolution |
| FftMul.CodedBlocksExact | gf2x-1.1/fft.c:1096-1127 | with residues of at least 64 bits the blocks computed are the cyclic convolution of the chunks |
| FftMul.BlocksExact | gf2x-1.1/fft.c:1086-1092 | put together they are the product, without wrap-around |
| FftProduct.MulFftSingle | gf2x-1.1/fft.c:1096-1127 | one transform on words: too short operands are refused, otherwise c holds CodedProduct for some words behind the blocks |
| FftLimits.ShortResidues | gf2x-1.1/fft.c:1005-1064 | residues have less than 64 bits only for K = 81 and at most 68 words |
| FftLimits.SumOfPowers | gf2x-1.1/fft.c:515-552 | with short residues the powers of the root that Lshift computes sum to 1, not to 0 |
| FftLimits.ProductWrong | gf2x-1.1/fft.c:1096-1127 | with short residues 1 times x^M gets constant term 1, whatever lies behind the blocks |
| FftLimits.UnclearWrong | gf2x-1.1/fft.c:628-631 | a block read too far: operands and words behind the blocks for which the product is wrong |
| FftLimits.SingleRight | gf2x-1.1/fft.c:1096-1127 | the exact range with one transform, both directions, for all operands and all words behind the blocks |
| FftLimits.LongEnough | gf2x-1.1/fft.c:612-646 | 63 K < 64 (an + bn) is enough for no block to be read too far |
| FftLimits.ShortBlocksRead | gf2x-1.1/fft.c:628-631 | K = 243 with 28 words is a case where one is |
| FftEntry.MulFft | gf2x-1.1/fft.c:1096-1127 | the entry for positive and negative K: too short if and only if below the threshold, c holds A B for every accepted length in the ranges that SingleRight and SplitRight prove exact, and outside them what the transforms make of the words read behind |
| SplitFft.Wrap | gf2x-1.1/fft.c:666-694 | in place modulo x^N + 1, for N that is no multiple of 64 as well, the words behind untouched |
| SplitFft.ReconstructBits | gf2x-1.1/fft.c:711-715 | the top bits one at a time, down to a word boundary |
| SplitFft.ReconstructWords | gf2x-1.1/fft.c:719-745 | the rest a word at a time with the cached neighbour: from C modulo x^n1 + 1 to C |
| SplitFft.CheckMeans | gf2x-1.1/fft.c:760-765 | the test at the end compares exactly the low 64 bits of the second half with those of the result folded |
| SplitFft.SplitReconstruct | gf2x-1.1/fft.c:696-768 | for any two inputs: c is folded modulo x^n1 + 1 to what it was; if the first is right, the result is C and accepted if and only if the second is right at the positions that are read; success means the test, and failure leaves c alone |
| SplitProduct.DftSplit | gf2x-1.1/fft.c:852-878 | the two transforms of the wrapped operand, one behind the other |
| SplitProduct.ComposeSplit | gf2x-1.1/fft.c:899-916 | the pointwise products of both |
| SplitProduct.SplitInverse | gf2x-1.1/fft.c:960-992 | the two wrapped halves, in buffers of their own |
| SplitProduct.HalfRight | gf2x-1.1/fft.c:835-849 | the words of the product in a half are those modulo x^(K M) + 1 when residues are long and no block is read too far |
| SplitProduct.MulFftSplit | gf2x-1.1/fft.c:1096-1127 | the split product on words, whatever the halves hold: if the larger is right, the product comes out if and only if the smaller is right where it is read; if the larger is wrong modulo its n1, it never does |
| SplitLimits.SplitResidues | gf2x-1.1/fft.c:1005-1064 | the smaller half has short residues only for K = 81 and at most 136 words |
| SplitStrays.UnclearOne | gf2x-1.1/fft.c:628-631 | a block of the larger half read too far: operands and words behind for which no result is the product |
| SplitStrays.FeltTwo | gf2x-1.1/fft.c:698-768 | the same for the smaller half, if the stray word is read again |
| SplitStrays.FeltBlock | gf2x-1.1/fft.c:698-768 | and if a block is read too far there, one of them is read again, in all but the harmless case |
| SplitStrays.HarmlessTwo | gf2x-1.1/fft.c:698-768 | in the harmless case the smaller half is right wherever it is read |
| SplitLimits.WrongBit | gf2x-1.1/fft.c:933-958 | for each of the 43 block lengths that remain, an operand x^r and a bit in which the blocks of x^r times 1 are wrong |
| SplitLimits.HalfTwoWrong | gf2x-1.1/fft.c:960-992 | which makes the final test fail on the right product |
| SplitLimits.SplitRight | gf2x-1.1/fft.c:1096-1127 | the exact range of the split transform, both directions, for all operands and all words behind the blocks |
| HalfGcd.MulVec | gf2x-1.1/apps/halfgcd.cpp:90-109 | (U, V) becomes M (U, V) |
| HalfGcd.StrassenIdentity | gf2x-1.1/apps/halfgcd.cpp:146-182 | the seven products in Winograd's order give the matrix product |
| HalfGcd.StrassenMul | gf2x-1.1/apps/halfgcd.cpp:146-182 | in place, with A and B used as scratch space: C becomes the product of the old A and B |
| HalfGcd.GF2XMatrix.PrependStep | gf2x-1.1/apps/halfgcd.cpp:206-214 | the row swaps multiply the matrix by one step of Euclid's algorithm from the left |
| HalfGcd.GF2XMatrix.Assign | gf2x-1.1/apps/halfgcd.cpp:218-224 | the matrix takes over the other's value |
| HalfGcd.IterHalfGCD | gf2x-1.1/apps/halfgcd.cpp:185-216 | the matrix of determinant 1 that takes (U0, V0) to the pair at which the degree has dropped by d_red, with bounded entries |
| HalfGcd.ReducesLift | gf2x-1.1/apps/halfgcd.cpp:266-385 | a matrix found from the leading 2d - 1 coefficients reduces the full polynomials exactly as far as the leading ones |
| HalfGcd.HalfGCD2 | gf2x-1.1/apps/halfgcd.cpp:266-385 | the same contract as the iterative form for the recursion with truncation and a division in between, with and without matrix |
| HalfGcd.GcdApply | gf2x-1.1/apps/halfgcd.cpp:388-425 | a matrix of determinant 1 keeps the gcd |
| HalfGcd.FastGCD | gf2x-1.1/apps/halfgcd.cpp:388-425 | for all u and v, zero and equal degrees included, the result is the gcd |
| DoubleBlocking.FastMulByXMod | gf2x-1.1/apps/factor.cpp:572-592 | x a modulo x^r + x^s + 1 |
| DoubleBlocking.InitH | gf2x-1.1/apps/factor.cpp:603-664 | h[j] is the (j+1)-st elementary symmetric polynomial of x^(2^k), ..., x^(2^(k+m-1)) modulo the trinomial |
| DoubleBlocking.HornerIsProduct | gf2x-1.1/apps/factor.cpp:1227-1232 | the Horner sum of the table is the product of the x^(2^t) + x |
| DoubleBlocking.Block | gf2x-1.1/apps/factor.cpp:1224-1257 | c is this product over m degrees modulo the trinomial, and the table has moved on by m |
| DoubleBlocking.DegreeInterval | gf2x-1.1/apps/factor.cpp:1224-1257 | a is multiplied by x^(2^t) + x for exactly the degrees from the first block on whose last degree exceeds skipd to the end of the last whole block; the table has moved on to there |
| DoubleBlocking.BlocksAreKept | gf2x-1.1/apps/factor.cpp:1249-1257 | for every skipd: the blocks that are not skipped are the product over all degrees from the first of them on |
| DoubleBlocking.DegreeKept | gf2x-1.1/apps/factor.cpp:1249-1257 | what divides x^(2^t) + x for a degree that is not skipped divides the product |
| DoubleBlocking.BlocksCoverInterval | gf2x-1.1/apps/factor.cpp:1194-1201 | with nothing skipped q blocks are the product over the whole interval |
| DoubleBlocking.CoarseStep | gf2x-1.1/apps/factor.cpp:1224-1280 | one pass yields the gcd of the trinomial with the product of x^(2^t) + x over the degrees that are not skipped, or 1 if all are, and leaves the table for the next pass |
| DoubleBlocking.PassFinds | gf2x-1.1/apps/factor.cpp:1224-1280 | every common divisor of the trinomial and x^(2^t) + x, for a degree of the pass that is not skipped, divides the result of the pass |
| BitTranspose.SimpleTranspose | PSI/src/util/cbitvector.cpp:571-582 | for every shape, bit (r, c) becomes bit (c, r) |
| BitTranspose.TransposedUnique | PSI/src/util/cbitvector.cpp:571-582 | and only one vector is the transpose |
| BitTranspose.BitStageExchanges | PSI/src/util/cbitvector.cpp:604-639 | a stage inside the words, with its masks and the byte order, exchanges bit i of rows and columns |
| BitTranspose.SwapStageExchanges | PSI/src/util/cbitvector.cpp:642-660 | a stage that exchanges whole words does the same for i >= 6 |
| BitTranspose.StackBlocks | PSI/src/util/cbitvector.cpp:662-677 | the square blocks are put below one another |
| BitTranspose.EklundhBitTranspose | PSI/src/util/cbitvector.cpp:586-678 | in place, the network and the block copy leave the transpose, for 2^n >= 64 rows and every multiple of them as columns |
| Cuckoo.CuckooTable.InsertElement | PSI/src/hashing/cuckoo.cpp:184-235 | the whole course of an insertion: in every iteration the element in hand goes into its first empty slot, which ends it with success, or all its slots are taken and it takes the slot address[(pos xor iteration) mod 3], whose element comes to hand and prefers its next hash function; failure only after maxIterations evictions |
| Cuckoo.XorBit | PSI/src/hashing/cuckoo.cpp:214-219 | the bits of the exclusive or that selects the slot |
| Cuckoo.CuckooTable.InsertAll | PSI/src/hashing/cuckoo.cpp:82-103 | all insertions in order, each as above; elements in the table plus failures are all elements; no failure if every element has a bin that no other element has |
| Cuckoo.Extract | PSI/src/hashing/cuckoo.cpp:106-124 | the arrays list the occupied bins in order, their elements, and the first hash function that leads there |
| Cuckoo.PermPermutes | PSI/src/hashing/cuckoo.cpp:106-124 | perm lists every element once if and only if no element but number 0 is missing |
| Cuckoo.BuildHashInfo | Source Files/PsiParty.cpp:198-216 | for every element bin, hash function and table index, or -1; and what element 0 gets instead |
| SimpleHashing.HashTable.IncreaseMaxBinSize | PSI/src/hashing/simple_hashing.cpp:207-222 | the capacity doubles and all entries keep their places |
| SimpleHashing.HashTable.InsertElement | PSI/src/hashing/simple_hashing.cpp:137-169 | each bin gets, behind what it has, one entry for every hash function that leads the element there, in their order: the first with the value, the others with the dummy 0; full bins grow |
| SimpleHashing.HashTable.GenEntries | PSI/src/hashing/simple_hashing.cpp:117-135 | the bins hold the entries of all elements in its range, in order |
| SimpleHashing.ContentSplit | PSI/src/hashing/simple_hashing.cpp:37-56 | how the elements are shared out among tasks makes no difference |
| SimpleHashing.SimpleHash | PSI/src/hashing/simple_hashing.cpp:10-115 | for every element and hash function, where its entry lies (in the range of its bin, by element and hash function within it) and what is there: the value if no earlier hash function leads to the same bin, otherwise 0; for any number of tasks |
| SimpleHashing.OneRealEntry | PSI/src/hashing/simple_hashing.cpp:151-155 | in each of its bins an element has exactly one entry with its value, for the hash function that the leader would name |
| SimpleHashing.TableLength | PSI/src/hashing/simple_hashing.cpp:74-95 | every element has NUM_HASH_FUNCTIONS entries |
| SimpleHashing.IndexArraysInverse | PSI/src/hashing/simple_hashing.cpp:86-90 | the two index arrays are inverse permutations |
| Followers.AdditiveSecretShare | Source Files/PsiParty.cpp:273-319 | the share of every bin is the sum of the masks that the party has in common with the others |
| Followers.ShareBits | Source Files/PsiParty.cpp:273-319 | a bit is in a share if and only if it is in an odd number of the masks that the party shares with the others |
| Followers.SharesCancel | Source Files/PsiParty.cpp:273-319 | the shares of all n parties add up to zero |
| Followers.XorMasks | PSI/src/ot-based/ot-psi.cpp:263-294 | every mask gets the share of its bin, once |
| Followers.PlaceMasks | Source Files/Followers/SimpleHashingNaiveFollower.cpp:12-56 | every slot ends up with the last mask written there or with what it held; cells may overflow into later ones, but not out of the buffers |
| Followers.SeatedNewest | Source Files/Followers/SimpleHashingNaiveFollower.cpp:30-50 | a mask for which its own cell has room is never written over |
| Followers.Displaced | Source Files/Followers/SimpleHashingNaiveFollower.cpp:30-50 | a mask for which it has none goes to a slot in a later bin's cell |
| Leaders.IsZeroXor | Source Files/Leaders/NaiveLeader.cpp:41-55 | true if and only if one slot per follower can be chosen such that they add up to the share; the share is left as it was, or zero when found |
| Leaders.MatchesIsChoice | Source Files/Leaders/NaiveLeader.cpp:41-55 | any choice of slots with that sum makes the recursive search succeed |
| Leaders.ChoiceOfMatch | Source Files/Leaders/NaiveLeader.cpp:41-55 | and success yields such a choice |
| Leaders.TotalBits | Source Files/Leaders/NaiveLeader.cpp:41-55 | a bit is in the sum of a choice if and only if it is in an odd number of the chosen masks |
| Leaders.IsZeroXorInverse | Source Files/Leaders/NaiveInverseLeader.cpp:40-63 | one linear system instead of the search: true if and only if the solver answers with one mask per follower; the same answer as the search for independent masks, and no false match where the solver is right |
| Leaders.SystemMeaning | Source Files/Leaders/NaiveInverseLeader.cpp:12-38 | the solutions of the system are the selections of masks that add up to the share |
| Leaders.OneInEveryBlock | Source Files/Leaders/NaiveInverseLeader.cpp:40-63 | the counting loop accepts exactly the selections of one mask per follower |
| LinearSolve.Eliminate | Source Files/GF2MatrixUtils.cpp:11-36 | the rows and right-hand sides are those of the recursive elimination |
| LinearSolve.EliminatedEquivalent | Source Files/GF2MatrixUtils.cpp:11-36 | elimination keeps the solutions and the kernel |
| LinearSolve.EliminatedStairs | Source Files/GF2MatrixUtils.cpp:11-36 | and leaves an echelon form |
| LinearSolve.Solve | Source Files/GF2MatrixUtils.cpp:9-68 | the answer as a function of the system; right on walkable matrices, and for independent columns the only solution |
| LinearSolve.SolveRight | Source Files/GF2MatrixUtils.cpp:9-68 | right for all right-hand sides if and only if the walk through the eliminated rows goes on to the end |
| LinearSolve.SolvableMissed | Source Files/GF2MatrixUtils.cpp:9-68 | otherwise a system that has a solution and gets none or a wrong one |
| LinearSolve.IndependentWalkable | Source Files/GF2MatrixUtils.cpp:9-68 | independent columns are walkable |
| LinearSolve.WideSystem | Source Files/GF2MatrixUtils.cpp:40-50 | x0 + x1 = 1 is reported as unsolvable |
| Matching.ClientMasks | Source Files/PsiParty.cpp:191-196 | the leader's mask of a bin stands at the bin's rank among the occupied ones |
| Matching.FollowerRun | Source Files/PsiParty.cpp:229-271 | all that is in the cells: every entry for which its cell has room has its mask, xored with the bin's share, in its slot, the masks that nothing is written over are where they were written, and the noise is everywhere else |
| Matching.SharingIsCount | Source Files/Followers/SimpleHashingNaiveFollower.cpp:36-50 | the slot of a mask is the number of elements before it that share its cell |
| Matching.CellsInBuffers | Source Files/Followers/SimpleHashingNaiveFollower.cpp:24-46 | if no cell overflows, no write leaves the buffers |
| Matching.NoOverflowNoMessage | Source Files/Followers/SimpleHashingNaiveFollower.cpp:30-33 | if every cell has room no bin is reported |
| Matching.UnnoticedOverflow | Source Files/Followers/SimpleHashingNaiveFollower.cpp:30-33 | a cell can overflow, within its buffer, without any bin being reported |
| Matching.LeaderTotalBits | Source Files/Leaders/NaiveLeader.cpp:31-39 | a bit of the leader's sum is that of the share, changed by every mask that has it |
| Matching.IsElementInAllSets | Source Files/Leaders/NaiveLeader.cpp:31-39 | true if and only if one slot of the cell per follower can be chosen such that the share, the leader's masks and those in the slots add up to zero; the share of the bin becomes zero or the sum with the leader's masks, the others stay |
| Matching.Run | Source Files/Leaders/Leader.cpp:43-92 | the number of elements of the leader that are counted, however they are shared out among threads |
| Matching.LeaderHashing | Source Files/PsiParty.cpp:144-225 | the cuckoo table with the course of all insertions, and the whole lookup structure: for the elements in the table, for the others, and for element 0 |
| Matching.CountIsSize | Source Files/Leaders/Leader.cpp:8-41 | the count is the size of the set of counted elements |
| Matching.CommonCounted | Source Files/PsiParty.cpp:144-225 | every element that all followers have is counted if it is in the table, with its lookup, and the cells have room for it |
| Matching.Protocol | Source Files/PsiParty.cpp:144-225 | the whole run, failed insertions and cells that overflow included: tables, masks, cells and shares are those of the parties; the number reported is the size of the set of exactly the elements with a known bin and table index for which one slot per follower can be chosen such that everything adds up to zero; it contains all common elements in the table whose cells have room, and so all common elements if no insertion failed and no cell overflows |
| GarbledFilter.GarbledBF.GbfAdd | PSI_C_0.1/PSI/PSI/GarbledBF.cpp:31-82 | the slots of the element now add up to its mask, repeated indexes counted once; only the first of its slots that was free changes its share |
| GarbledFilter.GarbledBF.GbfQuery | Source Files/Leaders/GBFLeader.cpp:68-87 | the sum of the slots of the element, each once |
| GarbledFilter.RecoveredBits | Source Files/Leaders/GBFLeader.cpp:68-87 | a bit is in the sum of an element if and only if it is in an odd number of its slots, each counted once |
| GarbledFilter.GarbledBF.AddAll | PSI_C_0.1/PSI/PSI/GarbledBF.cpp:31-82 | after any sequence of additions with a free slot each, every element's query gives its mask, and every share but those in the elements' first free slots is the random one |
| Lagrange.LagrangeBasis | Source Files/PaillierParty.cpp:69-80 | the coefficient of party j is n! (-1)^(j-1) C(n, j), an integer |
| Lagrange.Recombination | Source Files/PaillierParty.cpp:69-80 | for every polynomial of degree below n the coefficients give n! times its constant term |
| Paillier.SecretShare | Source Files/PaillierParty.cpp:104-137 | a party's share is the value of the sum of all polynomials at its number, modulo n m |
| Paillier.KeyOfTerm | Source Files/PaillierParty.cpp:104-137 | public key and constant term of a party agree modulo n, up to the factor a |
| Paillier.KeysAgree | Source Files/PaillierParty.cpp:149-156 | so does the sum of the keys with the constant term of the sum |
| Paillier.Encrypt | Source Files/PaillierParty.cpp:139-143 | with g = (1+n)^a b^n an encryption of a times the plaintext with randomness b^plain x |
| Paillier.CombinePartials | Source Files/PaillierParty.cpp:158-162 | the product of the partial decryptions is c to 4 n! times the recombined shares, negative coefficients included |
| Paillier.Decrypt | Source Files/PaillierParty.cpp:149-168 | a times the result is M modulo n, and the result is M if and only if a M = M modulo n |
| Paillier.AllPlaintexts | Source Files/PaillierParty.cpp:149-168 | right for all plaintexts if and only if a = 1 modulo n |
| Paillier.Threshold | Source Files/PaillierParty.cpp:104-168 | the whole run of sharing, encryption, partial decryptions and combination: a times the result is the plaintext modulo n, and the result is the plaintext if and only if a plain = plain modulo n |

## Left out

- Leaders.IsZeroXorInverse: for dependent columns it states no converse, because the solver returns one solution and a
  match may be another.
- SplitProduct.MulFftSplit: requires K (m2 + 1) + 64 <= 64 (an + bn); with less the source computes a loop bound below
  zero in an unsigned type.
- BitTranspose.EklundhBitTranspose: fewer than 64 rows and row counts that are no power of two are not covered; the
  source documents the network for powers of two.
- SimpleHashing.SimpleHash: requires that the last task does not start behind the elements, where the source subtracts
  below zero in an unsigned type.
- Matching.Protocol: masks that a cell has no room for may go to later cells, as in the source, but not behind the end
  of a buffer, where the source writes behind its memory; the oblivious pseudorandom function and the generator of the
  shares are arbitrary functions, so false matches are not ruled out.
- GarbledFilter.GarbledBF.GbfAdd: an element without a free slot is excluded; the source leaves such a filter
  inconsistent.
- Paillier.Decrypt: takes from number theory that the randomness is invertible and has an order dividing 4 n m, and
  that the inverse that the source asks NTL for exists.
- Paillier.Threshold: the same for the random b and x, which come with their inverses and their order as hypotheses
  (Unit).
- Lagrange.LagrangeBasis: exact rational arithmetic; the source computes in double and converts to int, which is exact
  only for small numbers of parties.
- BaseCase.MulBasecase: the straight-line kernels for two to nine words are modelled by the rows that they compute;
  their instruction sequences are in headers for several processors.
- BaseCase.Count: operands of declared length zero are read as one word, as in the source, so callers must provide it.
- Thresholds and tables (best Toom routine, transform lengths) are arbitrary parameters with the conditions that the
  source's preprocessor checks; the tuned values are not modelled.
- Buffers that the source allocates one by one are regions of one array with arbitrary content; allocation failure is
  left out. Operands that partly overlap the result of a Toom routine are excluded, as in the source.
- Loops of the source that are split at a boundary (evaluation of the parts, recombination) are one loop with a
  conditional where both parts do the same, and the evaluation of the two operands is separated.
- The exponent of the transform is a mathematical integer; that its product with the index stays below 2^64 is not
  modelled.
- fastrem, fastsqr, the fast paths of fastmulmod and NTL's arithmetic are taken at their contracts; the fine
  distinct-degree bisection of factor.cpp is left out.
- Threads run one after the other; sockets, files, timing, oblivious transfer and command lines are left out.
- The polynomial-based leaders and followers, the multi-threaded filter addition and the two-party intersection are
  left out: they add interpolation by NTL or repeat what is modelled here.
