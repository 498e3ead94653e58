/** One-word multiplication rows of gf2x-1.1/src/mul1cl.c and the schoolbook
    product gf2x_mul_basecase of gf2x-1.1/gf2x.c. */
module BaseCase {
  import opened Polynomials
  import opened Words
  import opened WordMemory

  /** The two words of a one-word product, as the carry-less multiplication yields them. */
  function Clmul(x: Word, y: Word): (Word, Word) {
    (WordAt(Mul(x, y), 0), WordAt(Mul(x, y), 1))
  }

  // ---------------------------------------------------------------- words of a row

  lemma SplitWords(B: Poly, j: nat)
    ensures B == Add(Low(B, 64 * j), Y(Add(W(B, j), Y(High(B, 64 * (j + 1)), 1)), j))
  {
    hide Low, High, Shift, WordAt, Add;
    var h := High(B, 64 * (j + 1));
    var rest := Add(W(B, j), Y(h, 1));
    forall i: nat
      ensures i in B <==> i in Add(Low(B, 64 * j), Y(rest, j))
    {
      if 64 * j <= i {
        var k := i - 64 * j;
        assert i in Y(rest, j) <==> k in rest;
        if k < 64 {
          assert k in W(B, j) <==> 64 * j + k in B;
        } else {
          assert k in Y(h, 1) <==> k - 64 in h;
          assert k - 64 in h <==> k - 64 + 64 * (j + 1) in B;
          WordBound(W(B, j), k);
        }
      }
    }
  }

  lemma LowFits(B: Poly, j: nat)
    ensures Fits(Low(B, 64 * j), j)
  {
  }

  lemma WordFits(w: Word)
    ensures Fits(w, 1)
  {
  }

  lemma LowWord(B: Poly, j: nat)
    ensures Low(B, 64 * (j + 1)) == Add(Low(B, 64 * j), Y(W(B, j), j))
  {
    hide Low, High, Shift, WordAt, Add;
    forall i: nat
      ensures i in Low(B, 64 * (j + 1)) <==> i in Add(Low(B, 64 * j), Y(W(B, j), j))
    {
      if 64 * j <= i {
        var k := i - 64 * j;
        assert i in Y(W(B, j), j) <==> k in W(B, j);
        if k < 64 {
          assert k in W(B, j) <==> 64 * j + k in B;
        }
      }
    }
  }

  /** The high half of the previous word product meets the low half of the next. */
  lemma RowWord(B: Poly, x: Word, j: nat)
    ensures W(Mul(B, x), j)
         == Xor(Clmul(W(B, j), x).0, if j == 0 then {} else Clmul(W(B, j - 1), x).1)
  {
    hide Mul, Low, High, WordAt, Add, W, Y;
    var h := High(B, 64 * (j + 1));
    RowSplit(B, x, j);
    var lowRow := Mul(Low(B, 64 * j), x);
    var wj := Mul(W(B, j), x);
    WAdd(lowRow, Y(Add(wj, Y(Mul(h, x), 1)), j), j);
    WY(Add(wj, Y(Mul(h, x), 1)), j, j);
    WAdd(wj, Y(Mul(h, x), 1), 0);
    WY(Mul(h, x), 1, 0);
    RowLow(B, x, j);
    WZero(Mul(h, x), -1);
    WFirst(wj);
  }

  lemma WZero(P: Poly, j: int)
    requires j < 0
    ensures W(P, j) == {}
  {
  }

  lemma WFirst(P: Poly)
    ensures W(P, 0) == WordAt(P, 0) && W(P, 1) == WordAt(P, 1)
    ensures Xor(W(P, 0), {}) == W(P, 0)
  {
  }

  lemma RowSplit(B: Poly, x: Word, j: nat)
    ensures Mul(B, x)
         == Add(Mul(Low(B, 64 * j), x), Y(Add(Mul(W(B, j), x), Y(Mul(High(B, 64 * (j + 1)), x), 1)), j))
  {
    hide Mul, Low, High, Shift, WordAt, Add, W;
    var h := High(B, 64 * (j + 1));
    var rest := Add(W(B, j), Y(h, 1));
    SplitWords(B, j);
    AddMul(Low(B, 64 * j), Y(rest, j), x);
    ShiftMul(rest, x, 64 * j);
    AddMul(W(B, j), Y(h, 1), x);
    ShiftMul(h, x, 64);
  }

  /** Word j of the product with the part below word j. */
  lemma RowLow(B: Poly, x: Word, j: nat)
    ensures W(Mul(Low(B, 64 * j), x), j) == if j == 0 then {} else Clmul(W(B, j - 1), x).1
  {
    hide Mul, Low, High, WordAt, Add, W, Y;
    if j == 0 {
      assert Low(B, 0) == {};
      MulZero(x);
      WBeyond({}, 0, 0);
    } else {
      LowWord(B, j - 1);
      var lower, w := Low(B, 64 * (j - 1)), W(B, j - 1);
      AddMul(lower, Y(w, j - 1), x);
      MulY(w, x, j - 1);
      WAdd(Mul(lower, x), Y(Mul(w, x), j - 1), j);
      WY(Mul(w, x), j - 1, j);
      LowFits(B, j - 1);
      WordFits(x);
      FitsMul(lower, x, j - 1, 1);
      WBeyond(Mul(lower, x), j, j);
      WFirst(Mul(w, x));
      XorEmptyLeft(W(Mul(w, x), 1));
    }
  }

  lemma XorEmptyLeft(w: Word)
    ensures Xor({}, w) == w == Xor(w, {})
  {
  }

  lemma MulY(P: Poly, Q: Poly, m: nat)
    ensures Mul(Y(P, m), Q) == Y(Mul(P, Q), m) == Mul(P, Y(Q, m))
  {
    hide Mul, Shift;
    ShiftMul(P, Q, 64 * m);
    MulShift(P, Q, 64 * m);
  }

  // ---------------------------------------------------------------- the rows in memory

  /** What word m of c + b*a needs once the carry of word m - 1 has been added. */
  function Partial(C: Poly, B: Poly, x: Word, m: nat): Word {
    if m == 0 then W(C, 0) else Xor(W(C, m), Clmul(W(B, m - 1), x).1)
  }

  lemma PartialStep(C: Poly, B: Poly, x: Word, m: nat)
    ensures Xor(Partial(C, B, x, m), Clmul(W(B, m), x).0) == W(Add(C, Mul(B, x)), m)
    ensures Xor(W(C, m + 1), Clmul(W(B, m), x).1) == Partial(C, B, x, m + 1)
  {
    hide Mul, WordAt, Add, W, Clmul;
    WAdd(C, Mul(B, x), m);
    RowWord(B, x, m);
    if m == 0 {
      XorEmptyLeft(Clmul(W(B, 0), x).0);
      XorRegroup(W(C, 0), {}, Clmul(W(B, 0), x).0);
    } else {
      XorRegroup(W(C, m), Clmul(W(B, m - 1), x).1, Clmul(W(B, m), x).0);
    }
  }

  lemma XorRegroup(u: Word, v: Word, w: Word)
    ensures Xor(Xor(u, v), w) == Xor(u, Xor(w, v))
  {
  }

  lemma LastCarry(B: Poly, x: Word, n: nat)
    requires 0 < n && Fits(B, n)
    ensures Clmul(W(B, n - 1), x).1 == W(Mul(B, x), n)
  {
    hide Mul, WordAt, W, Clmul;
    RowWord(B, x, n);
    WBeyond(B, n, n);
    ClmulZero(x);
    XorEmptyLeft(Clmul(W(B, n - 1), x).1);
  }

  lemma ClmulZero(x: Word)
    ensures Clmul({}, x).0 == {}
  {
    hide Mul;
    MulZero(x);
  }

  /** dp[i..i+3] from cp and bp, the body of the two-words-at-a-time loop. */
  method TwoWords(mem: array<Word>, dp: nat, cp: nat, bp: nat, i: nat, x: Word, n: nat, ghost C: Poly, ghost B: Poly)
    requires i + 2 < n && dp + n <= mem.Length && cp + n <= mem.Length && Holds(mem, bp, n, B)
    requires Apart(dp, n, bp, n) && (dp == cp || Apart(dp, n, cp, n))
    requires forall m :: i < m < n ==> mem[cp + m] == W(C, m)
    requires if i == 0 then mem[cp] == W(C, 0) else mem[dp + i] == Partial(C, B, x, i)
    modifies mem
    ensures mem[dp + i] == W(Add(C, Mul(B, x)), i) && mem[dp + i + 1] == W(Add(C, Mul(B, x)), i + 1)
    ensures mem[dp + i + 2] == Partial(C, B, x, i + 2)
    ensures forall m :: 0 <= m < mem.Length && !(dp + i <= m < dp + i + 3) ==> mem[m] == old(mem[m])
  {
    hide Mul, Add, W, Clmul, Partial, Xor;
    PartialStep(C, B, x, i);
    PartialStep(C, B, x, i + 1);
    PartialFirst(C, B, x);
    var lo := Clmul(mem[bp + i], x).0;
    var hi := Clmul(mem[bp + i], x).1;
    var lo1 := Clmul(mem[bp + i + 1], x).0;
    var hi1 := Clmul(mem[bp + i + 1], x).1;
    if i == 0 {
      mem[dp + i] := Xor(mem[cp + i], lo);
    } else {
      mem[dp + i] := Xor(mem[dp + i], lo);
    }
    mem[dp + i + 1] := Xor(mem[cp + i + 1], hi);
    mem[dp + i + 1] := Xor(mem[dp + i + 1], lo1);
    mem[dp + i + 2] := Xor(mem[cp + i + 2], hi1);
  }

  lemma PartialFirst(C: Poly, B: Poly, x: Word)
    ensures Partial(C, B, x, 0) == W(C, 0)
  {
  }

  /** {dp, sb} <- {cp, sb} + {bp, sb} * x, returning the carry word; dp may be cp. */
  method AddMul1N(mem: array<Word>, dp: nat, cp: nat, bp: nat, sb: nat, x: Word, ghost C: Poly, ghost B: Poly)
      returns (cy: Word)
    requires 0 < sb && dp + sb <= mem.Length && Holds(mem, cp, sb, C) && Holds(mem, bp, sb, B) && Fits(B, sb)
    requires Apart(dp, sb, bp, sb) && (dp == cp || Apart(dp, sb, cp, sb))
    modifies mem
    ensures Holds(mem, dp, sb, Add(C, Mul(B, x))) && cy == W(Mul(B, x), sb)
    ensures forall m :: 0 <= m < mem.Length && !(dp <= m < dp + sb) ==> mem[m] == old(mem[m])
  {
    hide Mul, Add, W, Clmul, Partial, Xor, Fits;
    LastCarry(B, x, sb);
    PartialFirst(C, B, x);
    ghost var R := Add(C, Mul(B, x));
    var i := 0;
    while i + 2 < sb
      invariant i < sb && Holds(mem, bp, sb, B)
      invariant forall m :: dp <= m < dp + i ==> mem[m] == W(R, m - dp)
      invariant i > 0 ==> mem[dp + i] == Partial(C, B, x, i)
      invariant i == 0 ==> mem[cp] == W(C, 0)
      invariant forall m :: i < m < sb ==> mem[cp + m] == W(C, m)
      invariant forall m :: 0 <= m < mem.Length && !(dp <= m < dp + sb) ==> mem[m] == old(mem[m])
    {
      TwoWords(mem, dp, cp, bp, i, x, sb, C, B);
      i := i + 2;
    }
    cy := LastWords(mem, dp, cp, bp, i, x, sb, C, B);
  }

  /** The last word or two, which handle the carry out. */
  method LastWords(mem: array<Word>, dp: nat, cp: nat, bp: nat, i: nat, x: Word, n: nat, ghost C: Poly, ghost B: Poly)
      returns (cy: Word)
    requires (i + 2 == n || i + 1 == n) && dp + n <= mem.Length && cp + n <= mem.Length && Holds(mem, bp, n, B)
    requires Apart(dp, n, bp, n) && (dp == cp || Apart(dp, n, cp, n))
    requires forall m :: i < m < n ==> mem[cp + m] == W(C, m)
    requires if i == 0 then mem[cp] == W(C, 0) else mem[dp + i] == Partial(C, B, x, i)
    modifies mem
    ensures forall m :: dp + i <= m < dp + n ==> mem[m] == W(Add(C, Mul(B, x)), m - dp)
    ensures cy == Clmul(W(B, n - 1), x).1
    ensures forall m :: 0 <= m < mem.Length && !(dp + i <= m < dp + n) ==> mem[m] == old(mem[m])
  {
    hide Mul, Add, W, Clmul, Partial, Xor;
    PartialStep(C, B, x, i);
    PartialStep(C, B, x, i + 1);
    PartialFirst(C, B, x);
    var lo := Clmul(mem[bp + i], x).0;
    var hi := Clmul(mem[bp + i], x).1;
    if i + 2 == n {
      var lo1 := Clmul(mem[bp + i + 1], x).0;
      cy := Clmul(mem[bp + i + 1], x).1;
      if i == 0 {
        mem[dp + i] := Xor(mem[cp + i], lo);
      } else {
        mem[dp + i] := Xor(mem[dp + i], lo);
      }
      mem[dp + i + 1] := Xor(mem[cp + i + 1], hi);
      mem[dp + i + 1] := Xor(mem[dp + i + 1], lo1);
    } else {
      cy := hi;
      if i == 0 {
        mem[dp + i] := Xor(mem[cp + i], lo);
      } else {
        mem[dp + i] := Xor(mem[dp + i], lo);
      }
    }
  }

  lemma PartialOfZero(B: Poly, x: Word, m: nat)
    requires 0 < m
    ensures Partial({}, B, x, m) == Clmul(W(B, m - 1), x).1
    ensures Clmul(W(B, 0), x).0 == W(Mul(B, x), 0)
  {
    hide Mul, WordAt, W, Clmul;
    WBeyond({}, 0, m);
    XorEmptyLeft(Clmul(W(B, m - 1), x).1);
    RowWord(B, x, 0);
    XorEmptyLeft(Clmul(W(B, 0), x).0);
  }

  lemma RowStep(B: Poly, x: Word, m: nat)
    requires 0 < m
    ensures Xor(Clmul(W(B, m - 1), x).1, Clmul(W(B, m), x).0) == W(Mul(B, x), m)
  {
    hide Mul, WordAt, W, Clmul, Partial;
    PartialOfZero(B, x, m);
    PartialStep({}, B, x, m);
    AddZero(Mul(B, x));
  }

  lemma AddZero(P: Poly)
    ensures Add({}, P) == P == Add(P, {})
  {
  }

  /** {cp, sb} <- {bp, sb} * x, returning the carry word. */
  method Mul1N(mem: array<Word>, cp: nat, bp: nat, sb: nat, x: Word, ghost B: Poly) returns (cy: Word)
    requires 0 < sb && cp + sb <= mem.Length && Holds(mem, bp, sb, B) && Fits(B, sb) && Apart(cp, sb, bp, sb)
    modifies mem
    ensures Holds(mem, cp, sb, Mul(B, x)) && cy == W(Mul(B, x), sb)
    ensures forall m :: 0 <= m < mem.Length && !(cp <= m < cp + sb) ==> mem[m] == old(mem[m])
  {
    hide Mul, W, Clmul, Xor, Fits;
    LastCarry(B, x, sb);
    PartialOfZero(B, x, 1);
    ghost var R := Mul(B, x);
    var i := 0;
    while i + 2 < sb
      invariant i < sb && Holds(mem, bp, sb, B)
      invariant forall m :: cp <= m < cp + i ==> mem[m] == W(R, m - cp)
      invariant i > 0 ==> mem[cp + i] == Clmul(W(B, i - 1), x).1
      invariant forall m :: 0 <= m < mem.Length && !(cp <= m < cp + sb) ==> mem[m] == old(mem[m])
    {
      var u := Clmul(mem[bp + i], x);
      var v := Clmul(mem[bp + i + 1], x);
      if i == 0 {
        mem[cp + i] := u.0;
      } else {
        RowStep(B, x, i);
        mem[cp + i] := Xor(mem[cp + i], u.0);
      }
      RowStep(B, x, i + 1);
      mem[cp + i + 1] := u.1;
      mem[cp + i + 1] := Xor(mem[cp + i + 1], v.0);
      mem[cp + i + 2] := v.1;
      i := i + 2;
    }
    var u := Clmul(mem[bp + i], x);
    if i == 0 {
      mem[cp + i] := u.0;
    } else {
      RowStep(B, x, i);
      mem[cp + i] := Xor(mem[cp + i], u.0);
    }
    cy := u.1;
    if i + 2 == sb {
      RowStep(B, x, i + 1);
      var v := Clmul(mem[bp + i + 1], x);
      mem[cp + i + 1] := u.1;
      mem[cp + i + 1] := Xor(mem[cp + i + 1], v.0);
      cy := v.1;
    }
  }

  // ---------------------------------------------------------------- the schoolbook product

  lemma WHigh(P: Poly, i: nat, m: nat)
    ensures W(High(P, 64 * i), m) == W(P, i + m)
  {
    hide WordAt, High;
    var h := High(P, 64 * i);
    forall b: nat
      ensures b in WordAt(h, m) <==> b in WordAt(P, i + m)
    {
      assert b in WordAt(h, m) <==> b < 64 && 64 * m + b in h;
      assert b in WordAt(P, i + m) <==> b < 64 && 64 * (i + m) + b in P;
      assert 64 * m + b in h <==> 64 * m + b + 64 * i in P;
      assert 64 * m + b + 64 * i == 64 * (i + m) + b;
    }
    assert WordAt(h, m) == WordAt(P, i + m);
  }

  /** Adding row i: word i + m of the longer product. */
  lemma RowAdded(A: Poly, B: Poly, i: nat, m: nat)
    ensures var P := Mul(B, Low(A, 64 * i));
      W(Mul(B, Low(A, 64 * (i + 1))), i + m) == W(Add(High(P, 64 * i), Mul(B, W(A, i))), m)
    ensures m < i ==> W(Mul(B, Low(A, 64 * (i + 1))), m) == W(Mul(B, Low(A, 64 * i)), m)
  {
    hide Mul, W, Low, High, Add, Y;
    var P := Mul(B, Low(A, 64 * i));
    var row := Mul(B, W(A, i));
    LowWord(A, i);
    MulAdd(B, Low(A, 64 * i), Y(W(A, i), i));
    MulY(B, W(A, i), i);
    WAdd(P, Y(row, i), i + m);
    WY(row, i, i + m);
    WAdd(High(P, 64 * i), row, m);
    WHigh(P, i, m);
    WAdd(P, Y(row, i), m);
    WY(row, i, m);
    if m < i {
      WZero(row, m - i);
      XorEmptyLeft(W(P, m));
    }
  }

  /** Words an operand of declared length n is read as: the routines below read the
      first word even of an operand of length zero. */
  function Count(n: nat): nat {
    if n == 0 then 1 else n
  }

  /** One iteration of the row loop. */
  method AddRow(mem: array<Word>, c: nat, b: nat, nb: nat, i: nat, x: Word, ghost A: Poly, ghost B: Poly)
    requires 0 < nb && c + nb + i < mem.Length && x == W(A, i)
    requires Holds(mem, b, nb, B) && Fits(B, nb) && Apart(c, nb + i + 1, b, nb)
    requires Holds(mem, c, nb + i, Mul(B, Low(A, 64 * i)))
    modifies mem
    ensures Holds(mem, c, nb + i + 1, Mul(B, Low(A, 64 * (i + 1))))
    ensures forall m :: 0 <= m < mem.Length && !(c <= m < c + nb + i + 1) ==> mem[m] == old(mem[m])
  {
    hide Mul, W, Low, High, Add, Fits, Xor;
    ghost var C := High(Mul(B, Low(A, 64 * i)), 64 * i);
    RowRegion(mem, c, i, nb, A, B);
    ghost var low := mem[..];
    var cy := AddMul1N(mem, c + i, c + i, b, nb, x, C, B);
    mem[c + nb + i] := cy;
    RowDone(mem, low, c, i, nb, A, B);
  }

  /** {c, na + nb} <- {a, na} * {b, nb} with na <= nb, row by row. */
  method MulRowsInto(mem: array<Word>, c: nat, a: nat, na: nat, b: nat, nb: nat, ghost A: Poly, ghost B: Poly)
    requires na <= nb && 0 < nb && c + Count(na) + nb <= mem.Length
    requires Holds(mem, a, Count(na), A) && Holds(mem, b, nb, B) && Fits(A, Count(na)) && Fits(B, nb)
    requires Apart(c, Count(na) + nb, a, Count(na)) && Apart(c, Count(na) + nb, b, nb)
    modifies mem
    ensures Holds(mem, c, Count(na) + nb, Mul(A, B))
    ensures forall m :: 0 <= m < mem.Length && !(c <= m < c + Count(na) + nb) ==> mem[m] == old(mem[m])
  {
    hide Mul, W, Low, High, Add, Fits, Xor;
    FirstWord(A);
    mem[c + nb] := Mul1N(mem, c, b, nb, mem[a], B);
    var i := 1;
    while i < na
      invariant 1 <= i <= Count(na) && Holds(mem, a, Count(na), A) && Holds(mem, b, nb, B)
      invariant Holds(mem, c, nb + i, Mul(B, Low(A, 64 * i)))
      invariant forall m :: 0 <= m < mem.Length && !(c <= m < c + Count(na) + nb) ==> mem[m] == old(mem[m])
    {
      AddRow(mem, c, b, nb, i, mem[a + i], A, B);
      i := i + 1;
    }
    LowIsAll(A, Count(na));
    MulComm(A, B);
  }

  /** {c, na + nb} <- {a, na} * {b, nb}.  Equal lengths above 9 have no kernel: the
      program ends there, which is the result false.  Lengths of zero are read as one
      word, so the product has max(na, 1) + max(nb, 1) words in every case. */
  method MulBasecase(mem: array<Word>, c: nat, a: nat, na: nat, b: nat, nb: nat, ghost A: Poly, ghost B: Poly)
      returns (ok: bool)
    requires c + Count(na) + Count(nb) <= mem.Length
    requires Holds(mem, a, Count(na), A) && Holds(mem, b, Count(nb), B) && Fits(A, Count(na)) && Fits(B, Count(nb))
    requires Apart(c, Count(na) + Count(nb), a, Count(na)) && Apart(c, Count(na) + Count(nb), b, Count(nb))
    modifies mem
    ensures ok <==> na != nb || na <= 9
    ensures ok ==> Holds(mem, c, Count(na) + Count(nb), Mul(A, B))
    ensures forall m :: 0 <= m < mem.Length && !(ok && c <= m < c + Count(na) + Count(nb)) ==> mem[m] == old(mem[m])
    decreases na > nb
  {
    hide Mul, W, Fits;
    ok := true;
    if na == nb {
      if na <= 9 {
        MulKernel(mem, c, a, b, Count(na), A, B);
      } else {
        ok := false;
      }
    } else if na < nb {
      MulRowsInto(mem, c, a, na, b, nb, A, B);
    } else {
      MulComm(A, B);
      ok := MulBasecase(mem, c, b, nb, a, na, B, A);
    }
  }

  /** The contract of the fixed-size products gf2x_mul1 to gf2x_mul9. */
  method MulKernel(mem: array<Word>, c: nat, a: nat, b: nat, n: nat, ghost A: Poly, ghost B: Poly)
    requires 1 <= n <= 9 && c + 2 * n <= mem.Length
    requires Holds(mem, a, n, A) && Holds(mem, b, n, B) && Fits(A, n) && Fits(B, n)
    requires Apart(c, 2 * n, a, n) && Apart(c, 2 * n, b, n)
    modifies mem
    ensures Holds(mem, c, 2 * n, Mul(A, B))
    ensures forall m :: 0 <= m < mem.Length && !(c <= m < c + 2 * n) ==> mem[m] == old(mem[m])
  {
    hide Mul, W, Fits;
    MulRowsInto(mem, c, a, n, b, n, A, B);
  }

  lemma LowIsAll(A: Poly, n: nat)
    requires Fits(A, n)
    ensures Low(A, 64 * n) == A
  {
  }

  lemma FirstWord(A: Poly)
    ensures Low(A, 64) == W(A, 0)
  {
    hide WordAt, Low;
    forall b: nat
      ensures b in Low(A, 64) <==> b in W(A, 0)
    {
    }
  }

  lemma RowRegion(mem: array<Word>, c: nat, i: nat, nb: nat, A: Poly, B: Poly)
    requires Holds(mem, c, nb + i, Mul(B, Low(A, 64 * i)))
    ensures Holds(mem, c + i, nb, High(Mul(B, Low(A, 64 * i)), 64 * i))
  {
    hide Mul, W, Low, High;
    var P := Mul(B, Low(A, 64 * i));
    forall l | c + i <= l < c + i + nb
      ensures mem[l] == W(High(P, 64 * i), l - (c + i))
    {
      WHigh(P, i, l - (c + i));
    }
  }

  lemma RowDone(mem: array<Word>, before: seq<Word>, c: nat, i: nat, nb: nat, A: Poly, B: Poly)
    requires Fits(B, nb) && c + nb + i < mem.Length && c + i <= |before|
    requires forall l :: c <= l < c + i ==> mem[l] == before[l] == W(Mul(B, Low(A, 64 * i)), l - c)
    requires Holds(mem, c + i, nb, Add(High(Mul(B, Low(A, 64 * i)), 64 * i), Mul(B, W(A, i))))
    requires mem[c + nb + i] == W(Mul(B, W(A, i)), nb)
    ensures Holds(mem, c, nb + i + 1, Mul(B, Low(A, 64 * (i + 1))))
  {
    hide Mul, W, Low, High, Add, Fits;
    var P := Mul(B, Low(A, 64 * i));
    var row := Mul(B, W(A, i));
    forall l | c <= l < c + nb + i + 1
      ensures mem[l] == W(Mul(B, Low(A, 64 * (i + 1))), l - c)
    {
      if l < c + i {
        RowAdded(A, B, i, l - c);
      } else {
        RowAdded(A, B, i, l - c - i);
        if l == c + nb + i {
          WAdd(High(P, 64 * i), row, nb);
          WHigh(P, i, nb);
          LowFits(A, i);
          FitsMul(B, Low(A, 64 * i), nb, i);
          WBeyond(P, nb + i, i + nb);
          XorEmptyLeft(W(row, nb));
        }
      }
    }
  }
}
