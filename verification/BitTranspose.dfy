/** The bit-matrix transposition of PSI/src/util/cbitvector.cpp: the butterfly network of
    EklundhBitTranspose against the double loop of SimpleTranspose. */
module BitTranspose {
  import opened Numbers
  import opened Residues
  import opened Words

  // ---------------------------------------------------------------- bit order

  /** Where bit c of a word's eight bytes is found in the word: bytes are little-endian,
      the bits of a byte are counted from the most significant one. */
  function Sigma(c: nat): (p: nat)
    requires c < 64
    ensures p < 64
  {
    8 * (c / 8) + 7 - c % 8
  }

  /** Bit idx of the vector. */
  predicate GetBit(s: seq<Word>, idx: nat)
    requires idx / 64 < |s|
  {
    Sigma(idx % 64) in s[idx / 64]
  }

  /** SetBit. */
  method SetBit(a: array<Word>, idx: nat, b: bool)
    requires idx / 64 < a.Length
    modifies a
    ensures forall e: nat :: e / 64 < a.Length ==> GetBit(a[..], e) == if e == idx then b else old(GetBit(a[..], e))
  {
    var p := Sigma(idx % 64);
    var w := a[idx / 64] - {p};
    ghost var s := a[..];
    a[idx / 64] := if b then w + {p} else w;
    forall e: nat | e / 64 < a.Length
      ensures GetBit(a[..], e) == if e == idx then b else GetBit(s, e)
    {
      if e / 64 == idx / 64 && e != idx {
        SigmaInjective(e % 64, idx % 64);
      }
    }
  }

  lemma SigmaInjective(c: nat, d: nat)
    requires c < 64 && d < 64 && c != d
    ensures Sigma(c) != Sigma(d)
  {
  }

  lemma SigmaOnto(p: nat) returns (c: nat)
    requires p < 64
    ensures c < 64 && Sigma(c) == p
  {
    c := Sigma(p);
  }

  /** Vectors with the same bits are the same. */
  lemma SameBits(s: seq<Word>, t: seq<Word>)
    requires |s| == |t| && forall e: nat :: e / 64 < |s| ==> GetBit(s, e) == GetBit(t, e)
    ensures s == t
  {
    hide Sigma;
    forall x: nat | x < |s|
      ensures s[x] == t[x]
    {
      forall p: nat
        ensures p in s[x] <==> p in t[x]
      {
        if p < 64 {
          var c := SigmaOnto(p);
          var e := 64 * x + c;
          assert e / 64 == x && e % 64 == c;
          assert GetBit(s, e) == GetBit(t, e);
        }
      }
    }
  }

  // ---------------------------------------------------------------- the meaning of the matrix

  /** Bit (r, c) of a matrix of the given width. */
  function At(r: nat, c: nat, width: nat): nat {
    NonNegative(r, width);
    r * width + c
  }

  lemma AtBound(r: nat, c: nat, rows: nat, columns: nat, words: nat)
    requires r < rows && c < columns && rows * columns == 64 * words
    ensures At(r, c, columns) / 64 < words
  {
    assert (r + 1) * columns <= rows * columns;
    assert r * columns + columns == (r + 1) * columns;
  }

  lemma AtInjective(r: nat, c: nat, r': nat, c': nat, width: nat)
    requires c < width && c' < width && At(r, c, width) == At(r', c', width)
    ensures r == r' && c == c'
  {
    ModUnique(At(r, c, width), width, r, c);
    ModUnique(At(r, c, width), width, r', c');
  }

  /** t is the columns x rows transpose of the rows x columns matrix s. */
  ghost predicate Transposed(s: seq<Word>, t: seq<Word>, rows: nat, columns: nat)
    requires |s| == |t| && rows * columns == 64 * |s|
  {
    forall r: nat, c: nat | r < rows && c < columns ::
      AtBound(r, c, rows, columns, |s|); AtBound(c, r, columns, rows, |s|);
      GetBit(t, At(c, r, rows)) == GetBit(s, At(r, c, columns))
  }

  /** There is only one transpose. */
  lemma TransposedUnique(s: seq<Word>, t: seq<Word>, u: seq<Word>, rows: nat, columns: nat)
    requires |s| == |t| == |u| && rows * columns == 64 * |s|
    requires Transposed(s, t, rows, columns) && Transposed(s, u, rows, columns)
    ensures t == u
  {
    hide GetBit;
    forall e: nat | e / 64 < |s|
      ensures GetBit(t, e) == GetBit(u, e)
    {
      if rows != 0 {
        var c, r := e / rows, e % rows;
        ColumnBound(e, rows, columns);
        assert e == At(c, r, rows);
        AtBound(r, c, rows, columns, |s|);
        AtBound(c, r, columns, rows, |s|);
        assert GetBit(t, At(c, r, rows)) == GetBit(s, At(r, c, columns));
        assert GetBit(u, At(c, r, rows)) == GetBit(s, At(r, c, columns));
      }
    }
    SameBits(t, u);
  }

  lemma ColumnBound(e: nat, rows: nat, columns: nat)
    requires 0 < rows && e < rows * columns
    ensures e / rows < columns && e == (e / rows) * rows + e % rows
  {
    if e / rows >= columns {
      ProductAtLeast(e / rows, columns, rows);
    }
  }

  lemma ProductAtLeast(a: nat, b: nat, k: nat)
    requires b <= a
    ensures k * b <= k * a && b * k == k * b
  {
  }

  // ---------------------------------------------------------------- the double loop

  /** SimpleTranspose. */
  method SimpleTranspose(a: array<Word>, rows: nat, columns: nat)
    requires rows * columns == 64 * a.Length
    modifies a
    ensures Transposed(old(a[..]), a[..], rows, columns)
  {
    hide GetBit, At;
    var temp := a[..];
    assert columns * rows == rows * columns;
    for i := 0 to rows
      invariant Filled(temp, a[..], rows, columns, i, 0)
    {
      for j := 0 to columns
        invariant Filled(temp, a[..], rows, columns, i, j)
      {
        AtBound(i, j, rows, columns, a.Length);
        AtBound(j, i, columns, rows, a.Length);
        ghost var s := a[..];
        SetBit(a, At(j, i, rows), GetBit(temp, At(i, j, columns)));
        FilledStep(temp, s, a[..], rows, columns, i, j);
      }
      FilledRow(temp, a[..], rows, columns, i);
    }
    FilledAll(temp, a[..], rows, columns);
  }

  /** The rows before row i and the first j bits of row i have been moved. */
  ghost predicate Filled(s: seq<Word>, t: seq<Word>, rows: nat, columns: nat, i: nat, j: nat) {
    && |s| == |t| && rows * columns == 64 * |s|
    && forall r: nat, c: nat | r < rows && c < columns && (r < i || (r == i && c < j)) ::
      AtBound(r, c, rows, columns, |s|); AtBound(c, r, columns, rows, |s|);
      GetBit(t, At(c, r, rows)) == GetBit(s, At(r, c, columns))
  }

  lemma FilledStep(s: seq<Word>, t: seq<Word>, t': seq<Word>, rows: nat, columns: nat, i: nat, j: nat)
    requires i < rows && j < columns && Filled(s, t, rows, columns, i, j) && |t'| == |t|
    requires At(j, i, rows) / 64 < |t| && At(i, j, columns) / 64 < |s|
    requires forall e: nat ::
      e / 64 < |t| ==> GetBit(t', e) == if e == At(j, i, rows) then GetBit(s, At(i, j, columns)) else GetBit(t, e)
    ensures Filled(s, t', rows, columns, i, j + 1)
  {
    hide GetBit, At;
    forall r: nat, c: nat | r < rows && c < columns && (r < i || (r == i && c < j + 1))
      ensures At(c, r, rows) / 64 < |s| && At(r, c, columns) / 64 < |s|
      ensures GetBit(t', At(c, r, rows)) == GetBit(s, At(r, c, columns))
    {
      AtBound(r, c, rows, columns, |s|);
      AtBound(c, r, columns, rows, |s|);
      if At(c, r, rows) == At(j, i, rows) {
        AtInjective(c, r, j, i, rows);
      } else if r < i || (r == i && c < j) {
        assert GetBit(t, At(c, r, rows)) == GetBit(s, At(r, c, columns));
      }
    }
  }

  lemma FilledRow(s: seq<Word>, t: seq<Word>, rows: nat, columns: nat, i: nat)
    requires Filled(s, t, rows, columns, i, columns)
    ensures Filled(s, t, rows, columns, i + 1, 0)
  {
    hide GetBit, At;
  }

  lemma FilledAll(s: seq<Word>, t: seq<Word>, rows: nat, columns: nat)
    requires Filled(s, t, rows, columns, rows, 0)
    ensures Transposed(s, t, rows, columns)
  {
    hide GetBit, At;
  }

  // ---------------------------------------------------------------- one stage of the network

  /** TRANSPOSITION_MASKS: the positions in which bit i is 0. */
  function TranspositionMask(i: nat): (m: Word)
    ensures forall x: nat {:trigger x in m} :: x in m <==> x < 64 && (x / Pow2(i)) % 2 == 0
  {
    set x: nat | x < 64 && (x / Pow2(i)) % 2 == 0
  }

  function And(a: Word, b: Word): (r: Word)
    ensures forall x {:trigger x in r} :: x in r <==> x in a && x in b
  {
    a * b
  }

  function Not(a: Word): (r: Word)
    ensures forall x: nat {:trigger x in r} :: x in r <==> x < 64 && x !in a
  {
    set x: nat | x < 64 && x !in a
  }

  /** The new word of the upper row of a pair. */
  function UpperWord(a: Word, b: Word, i: nat): Word {
    var mask, d := TranspositionMask(i), Pow2(i);
    if i > 2 then Xor(And(a, mask), Shl(And(b, mask), d))
    else Xor(And(a, Not(mask)), Shr(And(b, Not(mask)), d))
  }

  /** The new word of the lower row. */
  function LowerWord(a: Word, b: Word, i: nat): Word {
    var mask, d := TranspositionMask(i), Pow2(i);
    if i > 2 then Xor(And(b, Not(mask)), Shr(And(a, Not(mask)), d))
    else Xor(And(b, mask), Shl(And(a, mask), d))
  }

  /** Bit i of n. */
  function Bit(n: nat, i: nat): nat {
    (n / Pow2(i)) % 2
  }

  lemma Powers()
    ensures Pow2(0) == 1 && Pow2(1) == 2 && Pow2(2) == 4 && Pow2(3) == 8 && Pow2(4) == 16 && Pow2(5) == 32
      && Pow2(6) == 64
  {
  }

  lemma FlipBit(n: nat, i: nat)
    ensures Bit(n, i) == 1 ==> n >= Pow2(i) && Bit(n - Pow2(i), i) == 0
    ensures Bit(n, i) == 0 ==> Bit(n + Pow2(i), i) == 1
  {
    hide Pow2;
    var d := Pow2(i);
    var q, r := n / d, n % d;
    assert n == d * q + r;
    if q > 0 {
      assert n - d == d * (q - 1) + r;
      ModUnique(n - d, d, q - 1, r);
    }
    assert n + d == d * (q + 1) + r;
    ModUnique(n + d, d, q + 1, r);
  }

  lemma SigmaIn(h: nat, l: nat)
    requires h < 8 && l < 8
    ensures Sigma(8 * h + l) == 8 * h + 7 - l
  {
  }

  lemma SigmaBy1(c: nat)
    requires c < 64
    ensures Sigma(c) % 2 == 1 - c % 2
    ensures c % 2 == 1 ==> c >= 1 && Sigma(c - 1) == Sigma(c) + 1
    ensures c % 2 == 0 ==> c + 1 < 64 && Sigma(c + 1) == Sigma(c) - 1
  {
    var h, l := c / 8, c % 8;
    SigmaIn(h, l);
    if l % 2 == 0 {
      SigmaIn(h, l + 1);
    } else {
      SigmaIn(h, l - 1);
    }
  }

  lemma SigmaBy2(c: nat)
    requires c < 64
    ensures (Sigma(c) / 2) % 2 == 1 - (c / 2) % 2
    ensures (c / 2) % 2 == 1 ==> c >= 2 && Sigma(c - 2) == Sigma(c) + 2
    ensures (c / 2) % 2 == 0 ==> c + 2 < 64 && Sigma(c + 2) == Sigma(c) - 2
  {
    var h, l := c / 8, c % 8;
    assert c == 8 * h + l;
    SigmaIn(h, l);
    HalfOf(h, l);
    HalfOf(h, 7 - l);
    OtherHalf(l);
    if (l / 2) % 2 == 0 {
      SigmaIn(h, l + 2);
    } else {
      SigmaIn(h, l - 2);
    }
  }

  lemma HalfOf(h: nat, l: nat)
    ensures ((8 * h + l) / 2) % 2 == (l / 2) % 2
  {
    Halves(8 * h + l, 4 * h + l / 2, l % 2);
    Halves(4 * h + l / 2, 2 * h + l / 2 / 2, (l / 2) % 2);
  }

  lemma Halves(a: nat, q: nat, r: nat)
    requires a == 2 * q + r && r < 2
    ensures a / 2 == q && a % 2 == r
  {
  }

  lemma OtherHalf(l: nat)
    requires l < 8
    ensures ((7 - l) / 2) % 2 == 1 - (l / 2) % 2
    ensures (l / 2) % 2 == 0 ==> l + 2 < 8
    ensures (l / 2) % 2 == 1 ==> 2 <= l
  {
  }

  lemma SigmaBy4(c: nat)
    requires c < 64
    ensures (Sigma(c) / 4) % 2 == 1 - (c / 4) % 2
    ensures (c / 4) % 2 == 1 ==> c >= 4 && Sigma(c - 4) == Sigma(c) + 4
    ensures (c / 4) % 2 == 0 ==> c + 4 < 64 && Sigma(c + 4) == Sigma(c) - 4
  {
    var h, l := c / 8, c % 8;
    assert c / 4 == 2 * h + l / 4 && (c / 4) % 2 == l / 4;
    SigmaIn(h, l);
    assert Sigma(c) / 4 == 2 * h + (7 - l) / 4 && (7 - l) / 4 == 1 - l / 4;
    if l < 4 {
      SigmaIn(h, l + 4);
    } else {
      SigmaIn(h, l - 4);
    }
  }

  lemma SigmaBy8(c: nat)
    requires c < 64
    ensures (Sigma(c) / 8) % 2 == (c / 8) % 2
    ensures (c / 8) % 2 == 1 ==> c >= 8 && Sigma(c - 8) == Sigma(c) - 8
    ensures (c / 8) % 2 == 0 ==> c + 8 < 64 && Sigma(c + 8) == Sigma(c) + 8
  {
    assert Sigma(c) / 8 == c / 8;
  }

  lemma SigmaBy16(c: nat)
    requires c < 64
    ensures (Sigma(c) / 16) % 2 == (c / 16) % 2
    ensures (c / 16) % 2 == 1 ==> c >= 16 && Sigma(c - 16) == Sigma(c) - 16
    ensures (c / 16) % 2 == 0 ==> c + 16 < 64 && Sigma(c + 16) == Sigma(c) + 16
  {
  }

  lemma SigmaBy32(c: nat)
    requires c < 64
    ensures (Sigma(c) / 32) % 2 == (c / 32) % 2
    ensures (c / 32) % 2 == 1 ==> c >= 32 && Sigma(c - 32) == Sigma(c) - 32
    ensures (c / 32) % 2 == 0 ==> c + 32 < 64 && Sigma(c + 32) == Sigma(c) + 32
  {
  }

  /** The position of a column has the column's bit i, complemented inside a byte; changing the bit of
      the column moves the position by 2^i. */
  lemma SigmaBit(c: nat, i: nat)
    requires c < 64 && i < 6
    ensures Bit(Sigma(c), i) == if i > 2 then Bit(c, i) else 1 - Bit(c, i)
    ensures Bit(c, i) == 1 ==> 0 <= c - Pow2(i)
                               && Sigma(c - Pow2(i)) == if i > 2 then Sigma(c) - Pow2(i) else Sigma(c) + Pow2(i)
    ensures Bit(c, i) == 0 ==> c + Pow2(i) < 64
                               && Sigma(c + Pow2(i)) == if i > 2 then Sigma(c) + Pow2(i) else Sigma(c) - Pow2(i)
  {
    hide Sigma, Pow2;
    PowersSmall();
    match i {
      case 0 => SigmaBy1(c);
      case 1 => SigmaBy2(c);
      case 2 => SigmaBy4(c);
      case 3 => SigmaBy8(c);
      case 4 => SigmaBy16(c);
      case _ => SigmaBy32(c);
    }
  }

  lemma PowersSmall()
    ensures Pow2(0) == 1 && Pow2(1) == 2 && Pow2(2) == 4 && Pow2(3) == 8 && Pow2(4) == 16 && Pow2(5) == 32
  {
    Powers();
  }

  lemma XorAt(a: Word, b: Word, x: nat)
    ensures x in Xor(a, b) <==> (x in a) != (x in b)
  {
  }

  lemma MaskAt(i: nat, x: nat)
    requires x < 64
    ensures x in TranspositionMask(i) <==> Bit(x, i) == 0
  {
    hide Pow2;
  }

  /** A bit of the upper row stays if bit i of its column is 0, and comes from the lower row otherwise. */
  lemma UpperBits(a: Word, b: Word, i: nat, c: nat)
    requires i < 6 && c < 64 && (Bit(c, i) == 1 ==> c >= Pow2(i))
    ensures Sigma(c) in UpperWord(a, b, i) <==> if Bit(c, i) == 0 then Sigma(c) in a else Sigma(c - Pow2(i)) in b
  {
    hide Xor, Shl, Shr, And, Not, TranspositionMask, Sigma, Pow2, Bit;
    SigmaBit(c, i);
    var x, d := Sigma(c), Pow2(i);
    var mask := TranspositionMask(i);
    BitIs(c, i);
    MaskAt(i, x);
    FlipBit(x, i);
    if i > 2 {
      XorAt(And(a, mask), Shl(And(b, mask), d), x);
      if x >= d {
        MaskAt(i, x - d);
        BitIs(x - d, i);
        FlipBit(x - d, i);
      }
    } else {
      XorAt(And(a, Not(mask)), Shr(And(b, Not(mask)), d), x);
      if x + d < 64 {
        MaskAt(i, x + d);
        FlipBit(x + d, i);
        BitIs(x + d, i);
      }
    }
  }

  lemma BitIs(n: nat, i: nat)
    ensures Bit(n, i) == 0 || Bit(n, i) == 1
  {
    hide Pow2;
  }

  /** And the other way round for the lower row. */
  lemma LowerBits(a: Word, b: Word, i: nat, c: nat)
    requires i < 6 && c < 64 && (Bit(c, i) == 0 ==> c + Pow2(i) < 64)
    ensures Sigma(c) in LowerWord(a, b, i) <==> if Bit(c, i) == 1 then Sigma(c) in b else Sigma(c + Pow2(i)) in a
  {
    hide Xor, Shl, Shr, And, Not, TranspositionMask, Sigma, Pow2, Bit;
    SigmaBit(c, i);
    var x, d := Sigma(c), Pow2(i);
    var mask := TranspositionMask(i);
    BitIs(c, i);
    MaskAt(i, x);
    FlipBit(x, i);
    if i > 2 {
      XorAt(And(b, Not(mask)), Shr(And(a, Not(mask)), d), x);
      if x + d < 64 {
        MaskAt(i, x + d);
        FlipBit(x + d, i);
        BitIs(x + d, i);
      }
    } else {
      XorAt(And(b, mask), Shl(And(a, mask), d), x);
      if x >= d {
        MaskAt(i, x - d);
        BitIs(x - d, i);
        FlipBit(x - d, i);
      }
    }
  }

  // ---------------------------------------------------------------- the loops of a stage

  /** Whether word x belongs to the lower row of a pair, when pairs are d words apart. */
  function Half(x: nat, d: nat): nat
    requires 0 < d
  {
    (x / d) % 2
  }

  lemma HalfAt(j: nat, d: nat, y: nat)
    requires 0 < d && y < d
    ensures 2 * d * j >= 0
    ensures Half(2 * d * j + y, d) == 0 && Half(2 * d * j + d + y, d) == 1
  {
    assert 2 * d * j + y == d * (2 * j) + y;
    assert 2 * d * j + d + y == d * (2 * j + 1) + y;
    ModUnique(2 * d * j + y, d, 2 * j, y);
    ModUnique(2 * d * j + d + y, d, 2 * j + 1, y);
  }

  lemma LowerFrom(x: nat, d: nat)
    requires 0 < d && Half(x, d) == 1
    ensures d <= x
  {
    if x < d {
      ModUnique(x, d, 0, x);
    }
  }

  /** Word x after a stage that works inside the words. */
  function StageWord(s: seq<Word>, x: nat, d: nat, i: nat): Word
    requires x < |s| && 0 < d
  {
    if Half(x, d) == 0 then (if x + d < |s| then UpperWord(s[x], s[x + d], i) else s[x])
    else LowerFrom(x, d); LowerWord(s[x - d], s[x], i)
  }

  method BitStage(a: array<Word>, d: nat, rounds: nat, i: nat)
    requires 0 < d && a.Length == 2 * d * rounds
    modifies a
    ensures forall x :: 0 <= x < a.Length ==> a[x] == StageWord(old(a[..]), x, d, i)
  {
    hide StageWord, UpperWord, LowerWord, Half;
    ghost var s := a[..];
    var rowa: nat, rowb: nat := 0, d;
    for j := 0 to rounds
      invariant rowa == 2 * d * j && rowb == rowa + d
      invariant forall x :: 0 <= x < a.Length ==> a[x] == if x < rowa then StageWord(s, x, d, i) else s[x]
    {
      RoundFits(j, d, rounds);
      ghost var a0 := rowa;
      var lim := rowb + d;
      while rowb < lim
        invariant rowb == rowa + d && a0 <= rowa <= a0 + d && lim == a0 + 2 * d <= a.Length
        invariant forall x :: 0 <= x < a.Length ==>
                    a[x] == if x < rowa || a0 + d <= x < rowb then StageWord(s, x, d, i) else s[x]
      {
        PairWords(s, j, d, rowa - a0, i);
        var tempRow := a[rowa];
        a[rowa] := UpperWord(tempRow, a[rowb], i);
        a[rowb] := LowerWord(tempRow, a[rowb], i);
        rowa := rowa + 1;
        rowb := rowb + 1;
      }
      rowa := rowa + d;
      rowb := rowb + d;
    }
  }

  lemma RoundFits(j: nat, d: nat, rounds: nat)
    requires j < rounds
    ensures 2 * d * j + 2 * d == 2 * d * (j + 1) <= 2 * d * rounds
  {
    assert 2 * d * rounds == 2 * d * (j + 1) + 2 * d * (rounds - j - 1);
    NonNegative(rounds - j - 1, 2 * d);
  }

  lemma PairWords(s: seq<Word>, j: nat, d: nat, y: nat, i: nat)
    requires 0 < d && y < d && 2 * d * j >= 0 && 2 * d * j + d + y < |s|
    ensures StageWord(s, 2 * d * j + y, d, i) == UpperWord(s[2 * d * j + y], s[2 * d * j + y + d], i)
    ensures StageWord(s, 2 * d * j + y + d, d, i) == LowerWord(s[2 * d * j + y], s[2 * d * j + y + d], i)
  {
    hide UpperWord, LowerWord, Half;
    HalfAt(j, d, y);
    assert 2 * d * j + d + y == 2 * d * j + y + d;
  }

  /** Word x after a stage that exchanges whole words, w words apart inside a row. */
  function SwapWord(s: seq<Word>, x: nat, d: nat, w: nat): Word
    requires x < |s| && 0 < w <= d
  {
    if Half(x, d) == 0 then (if x % (2 * w) >= w && x + d - w < |s| then s[x + d - w] else s[x])
    else LowerFrom(x, d); if x % (2 * w) < w && x - d + w < |s| then s[x - d + w] else s[x]
  }

  method SwapStage(a: array<Word>, d: nat, w: nat, rounds: nat)
    requires 0 < w && 0 < d && d % (2 * w) == 0 && a.Length == 2 * d * rounds
    modifies a
    ensures w <= d && forall x :: 0 <= x < a.Length ==> a[x] == SwapWord(old(a[..]), x, d, w)
  {
    hide SwapWord, Half;
    ghost var s := a[..];
    WidthFits(d, w);
    var rowa: nat, rowb: nat := 0, d - w;
    for j := 0 to rounds
      invariant rowa == 2 * d * j && rowb == rowa + d - w
      invariant forall x :: 0 <= x < a.Length ==> a[x] == if x < rowa then SwapWord(s, x, d, w) else s[x]
    {
      RoundFits(j, d, rounds);
      ghost var a0 := rowa;
      var p: nat, lim := 0, rowb + d;
      while p < d && rowb < lim
        invariant 0 <= p <= d && rowa == a0 + p && rowb == rowa + d - w && lim == a0 + 2 * d - w && lim < a.Length
        invariant forall x :: 0 <= x < a.Length ==>
                    a[x] == if x < rowa || a0 + d <= x < rowb then SwapWord(s, x, d, w) else s[x]
      {
        SwapWords(s, j, d, w, p);
        if p % (2 * w) >= w {
          SmallRemainder(p, w);
          var tempRow := a[rowa];
          a[rowa] := a[rowb];
          a[rowb] := tempRow;
        }
        p := p + 1;
        rowa := rowa + 1;
        rowb := rowb + 1;
      }
      RoundEnd(s, j, d, w);
      rowa := rowa + d;
      rowb := rowb + d;
    }
  }

  lemma WidthFits(d: nat, w: nat)
    requires 0 < w && 0 < d && d % (2 * w) == 0
    ensures 2 * w <= d
  {
    if d < 2 * w {
      ModUnique(d, 2 * w, 0, d);
    }
  }

  lemma SmallRemainder(p: nat, w: nat)
    requires 0 < w && p % (2 * w) >= w
    ensures p >= w
  {
    if p < w {
      ModUnique(p, 2 * w, 0, p);
    }
  }

  /** Offsets count modulo 2w, as d is a multiple of 2w. */
  lemma OffsetRemainder(j: nat, d: nat, w: nat, y: nat)
    requires 0 < w && d % (2 * w) == 0
    ensures 2 * d * j >= 0 && (2 * d * j + y) % (2 * w) == y % (2 * w) && (2 * d * j + d + y) % (2 * w) == y % (2 * w)
  {
    var m := 2 * w;
    var e, q, r := d / m, y / m, y % m;
    assert d == m * e && y == m * q + r;
    assert 2 * d * j == m * (2 * e * j);
    ModUnique(2 * d * j + y, m, 2 * e * j + q, r);
    ModUnique(2 * d * j + d + y, m, 2 * e * j + e + q, r);
  }

  lemma SwapWords(s: seq<Word>, j: nat, d: nat, w: nat, p: nat)
    requires 0 < w && 0 < d && 2 * w <= d && d % (2 * w) == 0 && p < d && 2 * d * j >= 0 && 2 * d * j + 2 * d <= |s|
    ensures SwapWord(s, 2 * d * j + p, d, w) == if p % (2 * w) >= w then s[2 * d * j + p + d - w] else s[2 * d * j + p]
    ensures p >= w ==> SwapWord(s, 2 * d * j + p + d - w, d, w)
                       == if p % (2 * w) >= w then s[2 * d * j + p] else s[2 * d * j + p + d - w]
  {
    hide Half;
    HalfAt(j, d, p);
    OffsetRemainder(j, d, w, p);
    if p >= w {
      HalfAt(j, d, p - w);
      OffsetRemainder(j, d, w, p - w);
      ShiftedRemainder(p, w);
    }
  }

  lemma ShiftedRemainder(p: nat, w: nat)
    requires 0 < w <= p
    ensures p % (2 * w) >= w <==> (p - w) % (2 * w) < w
  {
    var m := 2 * w;
    var q, r := p / m, p % m;
    assert p == m * q + r;
    if r >= w {
      ModUnique(p - w, m, q, r - w);
    } else {
      assert p - w == m * (q - 1) + (r + w);
      ModUnique(p - w, m, q - 1, r + w);
    }
  }

  /** The last w words of a lower block stay where they are. */
  lemma RoundEnd(s: seq<Word>, j: nat, d: nat, w: nat)
    requires 0 < w && 0 < d && 2 * w <= d && d % (2 * w) == 0 && 2 * d * j >= 0 && 2 * d * j + 2 * d <= |s|
    ensures forall x :: 2 * d * j + 2 * d - w <= x < 2 * d * j + 2 * d ==> SwapWord(s, x, d, w) == s[x]
  {
    hide Half;
    forall x | 2 * d * j + 2 * d - w <= x < 2 * d * j + 2 * d
      ensures SwapWord(s, x, d, w) == s[x]
    {
      var y := x - 2 * d * j - d;
      HalfAt(j, d, y);
      OffsetRemainder(j, d, w, y);
      EndRemainder(d, w, y);
    }
  }

  lemma EndRemainder(d: nat, w: nat, y: nat)
    requires 0 < w && d % (2 * w) == 0 && d - w <= y < d
    ensures y % (2 * w) >= w
  {
    var m := 2 * w;
    var e := d / m;
    assert d == m * e;
    assert y == m * (e - 1) + (y - (d - m));
    ModUnique(y, m, e - 1, y - (d - m));
  }

  // ---------------------------------------------------------------- a stage exchanges index bits

  /** Word w of row r. */
  function Index(r: nat, w: nat, offset: nat): nat {
    NonNegative(r, offset);
    r * offset + w
  }

  /** A matrix of rows of offset words. */
  ghost predicate Shape(s: seq<Word>, rows: nat, offset: nat) {
    0 < offset && |s| == rows * offset
  }

  lemma IndexBound(r: nat, w: nat, rows: nat, offset: nat)
    requires r < rows && w < offset
    ensures Index(r, w, offset) < rows * offset
  {
    ProductAtLeast(rows, r + 1, offset);
    assert (r + 1) * offset == r * offset + offset;
  }

  /** Bit c of row r. */
  ghost predicate Elem(s: seq<Word>, rows: nat, offset: nat, r: nat, c: nat)
    requires Shape(s, rows, offset) && r < rows && c < 64 * offset
  {
    IndexBound(r, c / 64, rows, offset);
    Sigma(c % 64) in s[Index(r, c / 64, offset)]
  }

  lemma HalfIsBit(r: nat, w: nat, offset: nat, i: nat)
    requires w < offset
    ensures 0 < Pow2(i) * offset && Half(Index(r, w, offset), Pow2(i) * offset) == Bit(r, i)
  {
    hide Pow2;
    var d, q, rl := Pow2(i), r / Pow2(i), r % Pow2(i);
    ProductAtLeast(d, 1, offset);
    assert d * offset == offset * d;
    assert r == d * q + rl;
    assert r * offset + w == (d * offset) * q + (rl * offset + w);
    ProductAtLeast(d, rl + 1, offset);
    assert rl * offset + offset == (rl + 1) * offset;
    NonNegative(rl, offset);
    ModUnique(r * offset + w, d * offset, q, rl * offset + w);
  }

  lemma RowMoved(r: nat, w: nat, offset: nat, d: nat)
    ensures Index(r + d, w, offset) == Index(r, w, offset) + d * offset
  {
    assert (r + d) * offset == r * offset + d * offset;
  }

  /** Numbers below a multiple of 2 * 2^i stay below it when bit i is set. */
  lemma BitFits(r: nat, i: nat, n: nat)
    requires r < n && n % (2 * Pow2(i)) == 0 && Bit(r, i) == 0
    ensures r + Pow2(i) < n
  {
    hide Pow2;
    var d := Pow2(i);
    var q, rl, e := r / d, r % d, n / (2 * d);
    assert r == d * q + rl && n == 2 * d * e;
    var a := q / 2;
    assert q == 2 * a;
    assert r == 2 * d * a + rl;
    if a >= e {
      ProductAtLeast(a, e, 2 * d);
    }
    ProductAtLeast(e, a + 1, 2 * d);
    assert 2 * d * (a + 1) == 2 * d * a + 2 * d;
  }

  /** Where bit (r, c) comes from when bit i of the row is exchanged with bit i of the column. */
  function FromRow(r: nat, c: nat, i: nat): int {
    if Bit(r, i) == Bit(c, i) then r else if Bit(r, i) == 0 then r + Pow2(i) else r - Pow2(i)
  }

  function FromColumn(r: nat, c: nat, i: nat): int {
    if Bit(r, i) == Bit(c, i) then c else if Bit(r, i) == 0 then c - Pow2(i) else c + Pow2(i)
  }

  lemma FromBounds(r: nat, c: nat, i: nat, rows: nat, columns: nat)
    requires r < rows && c < columns && rows % (2 * Pow2(i)) == 0 && columns % (2 * Pow2(i)) == 0
    ensures 0 <= FromRow(r, c, i) < rows && 0 <= FromColumn(r, c, i) < columns
  {
    hide Pow2, Bit;
    BitIs(r, i);
    BitIs(c, i);
    FlipBit(r, i);
    FlipBit(c, i);
    if Bit(r, i) == 0 {
      BitFits(r, i, rows);
    }
    if Bit(c, i) == 0 {
      BitFits(c, i, columns);
    }
  }

  /** t is s with bit i of the rows exchanged with bit i of the columns. */
  ghost predicate Exchanged(s: seq<Word>, t: seq<Word>, rows: nat, offset: nat, i: nat) {
    && Shape(s, rows, offset) && Shape(t, rows, offset)
    && rows % (2 * Pow2(i)) == 0 && (64 * offset) % (2 * Pow2(i)) == 0
    && forall r: nat, c: nat | r < rows && c < 64 * offset ::
      FromBounds(r, c, i, rows, 64 * offset);
      Elem(t, rows, offset, r, c) == Elem(s, rows, offset, FromRow(r, c, i), FromColumn(r, c, i))
  }

  /** Column numbers and the positions inside their words. */
  lemma ColumnBit(c: nat, i: nat)
    requires i < 6
    ensures Bit(c, i) == Bit(c % 64, i)
    ensures Bit(c, i) == 1 ==> c % 64 >= Pow2(i) && (c - Pow2(i)) / 64 == c / 64
                               && (c - Pow2(i)) % 64 == c % 64 - Pow2(i)
    ensures Bit(c, i) == 0 ==> (c + Pow2(i)) / 64 == c / 64 && (c + Pow2(i)) % 64 == c % 64 + Pow2(i)
  {
    hide Pow2;
    LowBit(c / 64, c % 64, i);
    FlipBit(c % 64, i);
    var h, l := c / 64, c % 64;
    if Bit(l, i) == 0 {
      FitsInWord(l, i);
      ModUnique(c + Pow2(i), 64, h, l + Pow2(i));
    } else {
      ModUnique(c - Pow2(i), 64, h, l - Pow2(i));
    }
  }

  lemma FitsInWord(l: nat, i: nat)
    requires i < 6 && l < 64 && Bit(l, i) == 0
    ensures l + Pow2(i) < 64
  {
    hide Pow2;
    PowersSmall();
    BitFits(l, i, 64);
  }

  lemma LowBit(h: nat, l: nat, i: nat)
    requires i < 6 && l < 64
    ensures Bit(64 * h + l, i) == Bit(l, i)
  {
    hide Pow2;
    PowersSmall();
    var d := Pow2(i);
    var f := if d == 1 then 32 else if d == 2 then 16
      else if d == 4 then 8 else if d == 8 then 4 else if d == 16 then 2 else 1;
    assert 2 * (d * f) == 64;
    LowQuotient(h, l, d, 2 * f);
    Multiple2(f * h, l / d);
    assert 2 * f * h == 2 * (f * h);
  }

  lemma LowQuotient(h: nat, l: nat, d: nat, e: nat)
    requires 0 < d && d * e == 64
    ensures (64 * h + l) / d == e * h + l / d
  {
    var q, r := l / d, l % d;
    assert l == d * q + r;
    LowSum(h, d, e, q);
    ModUnique(64 * h + l, d, e * h + q, r);
  }

  lemma LowSum(h: nat, d: nat, e: nat, q: nat)
    ensures (d * e) * h + d * q == d * (e * h + q)
  {
  }

  lemma Multiple2(a: nat, b: nat)
    ensures (2 * a + b) % 2 == b % 2
  {
  }

  /** A stage inside the words. */
  lemma BitStageExchanges(s: seq<Word>, t: seq<Word>, rows: nat, offset: nat, i: nat)
    requires i < 6 && Shape(s, rows, offset) && |t| == |s| && rows % (2 * Pow2(i)) == 0
    requires 0 < Pow2(i) * offset && forall x :: 0 <= x < |s| ==> t[x] == StageWord(s, x, Pow2(i) * offset, i)
    ensures Exchanged(s, t, rows, offset, i)
  {
    hide Pow2, Bit, UpperWord, LowerWord, Elem, StageWord;
    ColumnsDivide(offset, i);
    forall r: nat, c: nat | r < rows && c < 64 * offset
      ensures 0 <= FromRow(r, c, i) < rows && 0 <= FromColumn(r, c, i) < 64 * offset
      ensures Elem(t, rows, offset, r, c) == Elem(s, rows, offset, FromRow(r, c, i), FromColumn(r, c, i))
    {
      FromBounds(r, c, i, rows, 64 * offset);
      BitStageElem(s, t, rows, offset, i, r, c);
    }
  }

  lemma ColumnsDivide(offset: nat, i: nat)
    requires i < 6
    ensures (64 * offset) % (2 * Pow2(i)) == 0
  {
    hide Pow2;
    PowersSmall();
    var d := 2 * Pow2(i);
    var e := 64 / d;
    assert 64 == d * e;
    assert 64 * offset == d * (e * offset);
    ModUnique(64 * offset, d, e * offset, 0);
  }

  lemma BitStageElem(s: seq<Word>, t: seq<Word>, rows: nat, offset: nat, i: nat, r: nat, c: nat)
    requires i < 6 && Shape(s, rows, offset) && |t| == |s| && r < rows && c < 64 * offset
    requires 0 <= FromRow(r, c, i) < rows && 0 <= FromColumn(r, c, i) < 64 * offset && rows % (2 * Pow2(i)) == 0
    requires 0 < Pow2(i) * offset && forall x :: 0 <= x < |s| ==> t[x] == StageWord(s, x, Pow2(i) * offset, i)
    ensures Elem(t, rows, offset, r, c) == Elem(s, rows, offset, FromRow(r, c, i), FromColumn(r, c, i))
  {
    hide Pow2, Bit, UpperWord, LowerWord, Sigma, Index;
    var w, p, d := c / 64, c % 64, Pow2(i);
    BitIs(r, i);
    BitIs(c, i);
    ColumnBit(c, i);
    HalfIsBit(r, w, offset, i);
    IndexBound(r, w, rows, offset);
    FlipBit(r, i);
    if Bit(r, i) == 0 {
      BitFits(r, i, rows);
      IndexBound(r + d, w, rows, offset);
      RowMoved(r, w, offset, d);
      UpperBits(s[Index(r, w, offset)], s[Index(r + d, w, offset)], i, p);
    } else {
      IndexBound(r - d, w, rows, offset);
      RowMoved(r - d, w, offset, d);
      if Bit(p, i) == 0 {
        FitsInWord(p, i);
      }
      LowerBits(s[Index(r - d, w, offset)], s[Index(r, w, offset)], i, p);
    }
  }

  /** For i >= 6 the bit i of a column is bit i - 6 of its word. */
  lemma WordBit(c: nat, i: nat)
    requires 6 <= i
    ensures Bit(c, i) == Bit(c / 64, i - 6)
    ensures Pow2(i) == 64 * Pow2(i - 6)
    ensures Bit(c, i) == 1 ==> c >= Pow2(i) && c / 64 >= Pow2(i - 6) && (c - Pow2(i)) / 64 == c / 64 - Pow2(i - 6)
                               && (c - Pow2(i)) % 64 == c % 64
    ensures (c + Pow2(i)) / 64 == c / 64 + Pow2(i - 6) && (c + Pow2(i)) % 64 == c % 64
  {
    hide Pow2;
    PowerSum(i);
    var w, l, d := c / 64, c % 64, Pow2(i - 6);
    var q, r := w / d, w % d;
    assert w == d * q + r && c == (64 * d) * q + (64 * r + l);
    ModUnique(c, 64 * d, q, 64 * r + l);
    FlipBit(w, i - 6);
    ModUnique(c + 64 * d, 64, w + d, l);
    if Bit(c, i) == 1 {
      ModUnique(c - 64 * d, 64, w - d, l);
    }
  }

  lemma PowerSum(i: nat)
    requires 6 <= i
    ensures Pow2(i) == 64 * Pow2(i - 6)
  {
    hide Pow2;
    PowerNext(i - 1);
    PowerNext(i - 2);
    PowerNext(i - 3);
    PowerNext(i - 4);
    PowerNext(i - 5);
    PowerNext(i - 6);
  }

  /** In the words of a row the remainder by 2w tells bit i - 6. */
  lemma SwapBit(r: nat, w: nat, offset: nat, i: nat)
    requires 6 <= i && w < offset && offset % (2 * Pow2(i - 6)) == 0
    ensures Index(r, w, offset) % (2 * Pow2(i - 6)) >= Pow2(i - 6) <==> Bit(w, i - 6) == 1
  {
    hide Pow2;
    var d := Pow2(i - 6);
    var m := 2 * d;
    var e := offset / m;
    assert offset == m * e;
    assert r * offset == m * (e * r);
    var a, b := w / m, w % m;
    assert r * offset + w == m * (e * r + a) + b;
    ModUnique(r * offset + w, m, e * r + a, b);
    HalfOfPair(w, d);
  }

  lemma HalfOfPair(w: nat, d: nat)
    requires 0 < d
    ensures w % (2 * d) >= d <==> (w / d) % 2 == 1
  {
    var q, r := w / d, w % d;
    assert w == d * q + r;
    var a, v := q / 2, q % 2;
    assert q == 2 * a + v;
    assert w == (2 * d) * a + (d * v + r);
    if v == 0 {
      ModUnique(w, 2 * d, a, r);
    } else {
      ModUnique(w, 2 * d, a, d + r);
    }
  }

  /** A stage that exchanges whole words. */
  lemma SwapStageExchanges(s: seq<Word>, t: seq<Word>, rows: nat, offset: nat, i: nat)
    requires 6 <= i && Shape(s, rows, offset) && |t| == |s| && rows % (2 * Pow2(i)) == 0
      && offset % (2 * Pow2(i - 6)) == 0
    requires Pow2(i - 6) <= Pow2(i) * offset
      && forall x :: 0 <= x < |s| ==> t[x] == SwapWord(s, x, Pow2(i) * offset, Pow2(i - 6))
    ensures Exchanged(s, t, rows, offset, i)
  {
    hide Pow2, Bit, Elem, SwapWord;
    PowerSum(i);
    var m := 2 * Pow2(i - 6);
    assert offset == m * (offset / m);
    assert 64 * offset == (64 * m) * (offset / m);
    ModUnique(64 * offset, 64 * m, offset / m, 0);
    forall r: nat, c: nat | r < rows && c < 64 * offset
      ensures 0 <= FromRow(r, c, i) < rows && 0 <= FromColumn(r, c, i) < 64 * offset
      ensures Elem(t, rows, offset, r, c) == Elem(s, rows, offset, FromRow(r, c, i), FromColumn(r, c, i))
    {
      FromBounds(r, c, i, rows, 64 * offset);
      SwapStageElem(s, t, rows, offset, i, r, c);
    }
  }

  lemma SwapStageElem(s: seq<Word>, t: seq<Word>, rows: nat, offset: nat, i: nat, r: nat, c: nat)
    requires 6 <= i && Shape(s, rows, offset) && |t| == |s| && r < rows && c < 64 * offset && rows % (2 * Pow2(i)) == 0
    requires 0 <= FromRow(r, c, i) < rows && 0 <= FromColumn(r, c, i) < 64 * offset && offset % (2 * Pow2(i - 6)) == 0
    requires Pow2(i - 6) <= Pow2(i) * offset
      && forall x :: 0 <= x < |s| ==> t[x] == SwapWord(s, x, Pow2(i) * offset, Pow2(i - 6))
    ensures Elem(t, rows, offset, r, c) == Elem(s, rows, offset, FromRow(r, c, i), FromColumn(r, c, i))
  {
    hide Pow2, Bit, Sigma, Half, FromRow, FromColumn, Elem, SwapWord, Shape;
    if Bit(r, i) == 0 {
      SwapUpperElem(s, t, rows, offset, i, r, c);
    } else {
      SwapLowerElem(s, t, rows, offset, i, r, c);
    }
  }

  lemma SwapUpperElem(s: seq<Word>, t: seq<Word>, rows: nat, offset: nat, i: nat, r: nat, c: nat)
    requires 6 <= i && Shape(s, rows, offset) && |t| == |s| && r < rows && c < 64 * offset && rows % (2 * Pow2(i)) == 0
    requires 0 <= FromRow(r, c, i) < rows && 0 <= FromColumn(r, c, i) < 64 * offset && offset % (2 * Pow2(i - 6)) == 0
    requires Pow2(i - 6) <= Pow2(i) * offset
      && forall x :: 0 <= x < |s| ==> t[x] == SwapWord(s, x, Pow2(i) * offset, Pow2(i - 6))
    requires Bit(r, i) == 0
    ensures Elem(t, rows, offset, r, c) == Elem(s, rows, offset, FromRow(r, c, i), FromColumn(r, c, i))
  {
    hide Pow2, Bit, Sigma, Half;
    var w, d, sw := c / 64, Pow2(i), Pow2(i - 6);
    BitIs(r, i);
    BitIs(c, i);
    WordBit(c, i);
    SwapBit(r, w, offset, i);
    HalfIsBit(r, w, offset, i);
    IndexBound(r, w, rows, offset);
    FlipBit(r, i);
    BitFits(r, i, rows);
    RowMoved(r, w, offset, d);
    IndexBound(r + d, w, rows, offset);
    if Bit(c, i) == 1 {
      IndexBound(r + d, w - sw, rows, offset);
      RowMoved(r, w - sw, offset, d);
    }
  }

  lemma SwapLowerElem(s: seq<Word>, t: seq<Word>, rows: nat, offset: nat, i: nat, r: nat, c: nat)
    requires 6 <= i && Shape(s, rows, offset) && |t| == |s| && r < rows && c < 64 * offset && rows % (2 * Pow2(i)) == 0
    requires 0 <= FromRow(r, c, i) < rows && 0 <= FromColumn(r, c, i) < 64 * offset && offset % (2 * Pow2(i - 6)) == 0
    requires Pow2(i - 6) <= Pow2(i) * offset
      && forall x :: 0 <= x < |s| ==> t[x] == SwapWord(s, x, Pow2(i) * offset, Pow2(i - 6))
    requires Bit(r, i) != 0
    ensures Elem(t, rows, offset, r, c) == Elem(s, rows, offset, FromRow(r, c, i), FromColumn(r, c, i))
  {
    hide Pow2, Bit, Sigma, Half;
    var w, d, sw := c / 64, Pow2(i), Pow2(i - 6);
    BitIs(r, i);
    BitIs(c, i);
    WordBit(c, i);
    SwapBit(r, w, offset, i);
    HalfIsBit(r, w, offset, i);
    IndexBound(r, w, rows, offset);
    FlipBit(r, i);
    RowMoved(r - d, w, offset, d);
    IndexBound(r - d, w, rows, offset);
    if Bit(c, i) == 0 {
      WordFits(w, sw, offset, i);
      IndexBound(r - d, w + sw, rows, offset);
      RowMoved(r - d, w + sw, offset, d);
    }
  }

  lemma WordFits(w: nat, sw: nat, offset: nat, i: nat)
    requires 6 <= i && sw == Pow2(i - 6) && w < offset && offset % (2 * sw) == 0 && Bit(w, i - 6) == 0
    ensures w + sw < offset
  {
    hide Pow2;
    BitFits(w, i - 6, offset);
  }

  // ---------------------------------------------------------------- all stages together

  /** Row and column after the i lowest bits have been exchanged. */
  function MixedRow(r: nat, c: nat, i: nat): nat {
    hide Pow2;
    RemainderBelow(r, Pow2(i));
    r - r % Pow2(i) + c % Pow2(i)
  }

  lemma RemainderBelow(n: nat, d: nat)
    requires 0 < d
    ensures 0 <= n % d <= n
  {
    assert n == d * (n / d) + n % d;
    NonNegative(d, n / d);
  }

  lemma MixedBound(r: nat, c: nat, i: nat, n: nat)
    requires r < n && n % Pow2(i) == 0
    ensures MixedRow(r, c, i) < n
  {
    hide Pow2;
    var d := Pow2(i);
    var q, e := r / d, n / d;
    assert r == d * q + r % d && n == d * e;
    if q >= e {
      ProductAtLeast(q, e, d);
    }
    ProductAtLeast(e, q + 1, d);
    assert d * (q + 1) == d * q + d;
  }

  /** The i lowest bits of rows and columns have been exchanged. */
  ghost predicate Mixed(s: seq<Word>, t: seq<Word>, rows: nat, offset: nat, i: nat) {
    && Shape(s, rows, offset) && Shape(t, rows, offset) && rows % Pow2(i) == 0 && (64 * offset) % Pow2(i) == 0
    && forall r: nat, c: nat | r < rows && c < 64 * offset ::
      MixedBound(r, c, i, rows); MixedBound(c, r, i, 64 * offset);
      Elem(t, rows, offset, r, c) == Elem(s, rows, offset, MixedRow(r, c, i), MixedRow(c, r, i))
  }

  /** One more bit. */
  lemma MixedStep(r: nat, c: nat, i: nat)
    requires FromRow(r, c, i) >= 0 && FromColumn(r, c, i) >= 0
    ensures MixedRow(FromRow(r, c, i), FromColumn(r, c, i), i) == MixedRow(r, c, i + 1)
    ensures MixedRow(FromColumn(r, c, i), FromRow(r, c, i), i) == MixedRow(c, r, i + 1)
  {
    MixedRowStep(r, c, i);
    MixedRowStep(c, r, i);
    OtherWay(r, c, i);
  }

  lemma OtherWay(r: nat, c: nat, i: nat)
    ensures FromColumn(r, c, i) == FromRow(c, r, i) && FromRow(r, c, i) == FromColumn(c, r, i)
  {
    hide Pow2, Bit;
    BitIs(r, i);
    BitIs(c, i);
  }

  /** The remainder by 2^(i+1), bit by bit. */
  lemma NextRemainder(n: nat, i: nat)
    ensures n % Pow2(i + 1) == n % Pow2(i) + Bit(n, i) * Pow2(i)
  {
    var d := Pow2(i);
    hide Pow2;
    PowerNext(i);
    var q, r := n / d, n % d;
    assert n == d * q + r;
    var a := q / 2;
    if q % 2 == 0 {
      EvenQuotient(n, d, a, r);
      ModUnique(n, 2 * d, a, r);
    } else {
      OddQuotient(n, d, a, r);
      ModUnique(n, 2 * d, a, d + r);
    }
  }

  lemma EvenQuotient(n: nat, d: nat, a: nat, r: nat)
    requires n == d * (2 * a) + r
    ensures n == (2 * d) * a + r
  {
  }

  lemma OddQuotient(n: nat, d: nat, a: nat, r: nat)
    requires n == d * (2 * a + 1) + r
    ensures n == (2 * d) * a + (d + r)
  {
  }

  lemma PowerNext(i: nat)
    ensures Pow2(i + 1) == 2 * Pow2(i)
  {
  }

  lemma SameRemainder(n: nat, i: nat)
    ensures (n + Pow2(i)) % Pow2(i) == n % Pow2(i)
    ensures n >= Pow2(i) ==> (n - Pow2(i)) % Pow2(i) == n % Pow2(i)
  {
    hide Pow2;
    var d := Pow2(i);
    var q, r := n / d, n % d;
    assert n == d * q + r;
    ModUnique(n + d, d, q + 1, r);
    if n >= d {
      ModUnique(n - d, d, q - 1, r);
    }
  }

  lemma MixedRowStep(r: nat, c: nat, i: nat)
    requires FromRow(r, c, i) >= 0 && FromColumn(r, c, i) >= 0
    ensures MixedRow(FromRow(r, c, i), FromColumn(r, c, i), i) == MixedRow(r, c, i + 1)
  {
    hide Pow2, Bit;
    NextRemainder(r, i);
    NextRemainder(c, i);
    BitIs(r, i);
    BitIs(c, i);
    SameRemainder(r, i);
    SameRemainder(c, i);
  }

  lemma MixedNext(s: seq<Word>, t: seq<Word>, u: seq<Word>, rows: nat, offset: nat, i: nat)
    requires Mixed(s, t, rows, offset, i) && Exchanged(t, u, rows, offset, i)
    ensures Mixed(s, u, rows, offset, i + 1)
  {
    hide Pow2, Elem, FromRow, FromColumn, MixedRow;
    PowerNext(i);
    forall r: nat, c: nat | r < rows && c < 64 * offset
      ensures MixedRow(r, c, i + 1) < rows && MixedRow(c, r, i + 1) < 64 * offset
      ensures Elem(u, rows, offset, r, c) == Elem(s, rows, offset, MixedRow(r, c, i + 1), MixedRow(c, r, i + 1))
    {
      MixedBound(r, c, i + 1, rows);
      MixedBound(c, r, i + 1, 64 * offset);
      FromBounds(r, c, i, rows, 64 * offset);
      MixedStep(r, c, i);
      var r', c' := FromRow(r, c, i), FromColumn(r, c, i);
      MixedBound(r', c', i, rows);
      MixedBound(c', r', i, 64 * offset);
      assert Elem(u, rows, offset, r, c) == Elem(t, rows, offset, r', c');
      assert Elem(t, rows, offset, r', c') == Elem(s, rows, offset, MixedRow(r', c', i), MixedRow(c', r', i));
    }
  }

  lemma MixedNone(s: seq<Word>, rows: nat, offset: nat)
    requires Shape(s, rows, offset)
    ensures Mixed(s, s, rows, offset, 0)
  {
    hide Elem;
    forall r: nat, c: nat | r < rows && c < 64 * offset
      ensures MixedRow(r, c, 0) == r && MixedRow(c, r, 0) == c
    {
    }
  }

  // ---------------------------------------------------------------- the blocks of a wide matrix

  /** The blocks of rows words each are put below one another. */
  method StackBlocks(a: array<Word>, rows: nat, offset: nat, rr: nat, blocks: nat)
    requires 0 < rr && offset == blocks * rr && a.Length == rows * offset
    modifies a
    ensures Stacked(old(a[..]), a[..], rows, offset, rr, blocks, 0)
  {
    hide Index, WordMoved;
    ghost var s := a[..];
    var tempvec := new Word[a.Length];
    CopyAll(tempvec, a);
    var rowa: nat := 0;
    IndexZero(0, rr);
    assert 0 * rows == 0;
    StackedNone(s, a[..], rows, offset, rr);
    for i := 0 to blocks
      invariant tempvec[..] == s && rowa == Index(Below(i, rows), 0, rr) && Stacked(s, a[..], rows, offset, rr, i, 0)
    {
      rowa := StackBlock(a, tempvec, rows, offset, rr, blocks, i, rowa);
    }
  }

  function Below(i: nat, rows: nat): nat {
    NonNegative(i, rows);
    i * rows
  }

  /** Block i, row by row. */
  method StackBlock(a: array<Word>, tempvec: array<Word>, rows: nat, offset: nat, rr: nat, blocks: nat, i: nat,
                    start: nat) returns (rowa: nat)
    requires a != tempvec && a.Length == tempvec.Length == rows * offset && offset == blocks * rr && i < blocks
      && start == Index(Below(i, rows), 0, rr)
    requires Stacked(tempvec[..], a[..], rows, offset, rr, i, 0)
    modifies a
    ensures rowa == Index(Below(i + 1, rows), 0, rr) && Stacked(tempvec[..], a[..], rows, offset, rr, i + 1, 0)
  {
    hide Index, WordMoved, Below, Stacked;
    ghost var s := tempvec[..];
    rowa := start;
    var rowb: nat := Below(i, rr);
    IndexZero(rowb, offset);
    for j := 0 to rows
      invariant tempvec[..] == s && rowa == Index(Below(i, rows) + j, 0, rr) && rowb == Index(j, Below(i, rr), offset)
      invariant Stacked(s, a[..], rows, offset, rr, i, j)
    {
      BlockBounds(i, j, rows, offset, rr, blocks);
      ghost var before := a[..];
      CopyRow(a, rowa, tempvec, rowb, rr);
      StackedStep(s, before, a[..], rows, offset, rr, blocks, i, j);
      IndexNext(Below(i, rows) + j, 0, rr);
      IndexNext(j, Below(i, rr), offset);
      rowa := rowa + rr;
      rowb := rowb + offset;
    }
    StackedBlock(s, a[..], rows, offset, rr, i);
    BelowNext(i, rows);
  }

  lemma BelowNext(i: nat, rows: nat)
    ensures Below(i + 1, rows) == Below(i, rows) + rows
  {
  }

  method CopyAll(dst: array<Word>, src: array<Word>)
    requires dst != src && dst.Length == src.Length
    modifies dst
    ensures dst[..] == src[..]
  {
    for x := 0 to src.Length
      invariant dst[..x] == src[..x]
    {
      dst[x] := src[x];
      assert dst[..x + 1] == dst[..x] + [dst[x]];
      assert src[..x + 1] == src[..x] + [src[x]];
    }
    assert dst[..] == dst[..dst.Length] && src[..] == src[..src.Length];
  }

  method CopyRow(dst: array<Word>, p: nat, src: array<Word>, q: nat, n: nat)
    requires dst != src && p + n <= dst.Length && q + n <= src.Length
    modifies dst
    ensures forall x :: 0 <= x < dst.Length ==> dst[x] == if p <= x < p + n then src[x - p + q] else old(dst[x])
  {
    for x := 0 to n
      invariant forall y :: 0 <= y < dst.Length ==> dst[y] == if p <= y < p + x then src[y - p + q] else old(dst[y])
    {
      dst[p + x] := src[q + x];
    }
  }

  lemma IndexZero(w: nat, offset: nat)
    ensures Index(0, w, offset) == w
  {
  }

  lemma IndexNext(r: nat, w: nat, offset: nat)
    ensures Index(r + 1, w, offset) == Index(r, w, offset) + offset
  {
    assert (r + 1) * offset == r * offset + offset;
  }

  /** Word u of row r of block k has become word u of row k * rows + r. */
  ghost predicate WordMoved(s: seq<Word>, t: seq<Word>, rows: nat, offset: nat, rr: nat, k: nat, r: nat, u: nat) {
    && Index(Below(k, rows) + r, u, rr) < |t| && Index(r, Below(k, rr) + u, offset) < |s|
    && t[Index(Below(k, rows) + r, u, rr)] == s[Index(r, Below(k, rr) + u, offset)]
  }

  /** All rows before row j of block i have been moved. */
  ghost predicate Stacked(s: seq<Word>, t: seq<Word>, rows: nat, offset: nat, rr: nat, i: nat, j: nat) {
    && |s| == |t|
    && forall k: nat, r: nat, u: nat ::
      r < rows && u < rr && (k < i || (k == i && r < j)) ==> WordMoved(s, t, rows, offset, rr, k, r, u)
  }

  lemma StackedStep(s: seq<Word>, t: seq<Word>, t': seq<Word>, rows: nat, offset: nat, rr: nat, blocks: nat, i: nat,
                    j: nat)
    requires i < blocks && j < rows && offset == blocks * rr && |s| == |t| == |t'| == rows * offset
      && Stacked(s, t, rows, offset, rr, i, j)
    requires var p, q := Index(Below(i, rows) + j, 0, rr), Index(j, Below(i, rr), offset);
      && p + rr <= |t| && q + rr <= |s|
      && forall x :: 0 <= x < |t| ==> t'[x] == if p <= x < p + rr then s[x - p + q] else t[x]
    ensures Stacked(s, t', rows, offset, rr, i, j + 1)
  {
    hide WordMoved;
    forall k: nat, r: nat, u: nat | r < rows && u < rr && (k < i || (k == i && r < j + 1))
      ensures WordMoved(s, t', rows, offset, rr, k, r, u)
    {
      if k == i && r == j {
        NewRow(s, t', rows, offset, rr, i, j, u);
      } else {
        assert WordMoved(s, t, rows, offset, rr, k, r, u);
        OldRow(s, t, t', rows, offset, rr, i, j, k, r, u);
      }
    }
  }

  lemma NewRow(s: seq<Word>, t': seq<Word>, rows: nat, offset: nat, rr: nat, i: nat, j: nat, u: nat)
    requires u < rr && |s| == |t'|
    requires var p, q := Index(Below(i, rows) + j, 0, rr), Index(j, Below(i, rr), offset);
      && p + rr <= |t'| && q + rr <= |s| && forall x :: p <= x < p + rr ==> t'[x] == s[x - p + q]
    ensures WordMoved(s, t', rows, offset, rr, i, j, u)
  {
  }

  lemma OldRow(s: seq<Word>, t: seq<Word>, t': seq<Word>, rows: nat, offset: nat, rr: nat, i: nat, j: nat, k: nat,
               r: nat, u: nat)
    requires |s| == |t| == |t'| && r < rows && u < rr && (k < i || (k == i && r < j))
    requires WordMoved(s, t, rows, offset, rr, k, r, u)
    requires forall x :: 0 <= x < |t| && x < Index(Below(i, rows) + j, 0, rr) ==> t'[x] == t[x]
    ensures WordMoved(s, t', rows, offset, rr, k, r, u)
  {
    hide Index;
    EarlierRow(rows, rr, i, j, k, r, u);
  }

  lemma EarlierRow(rows: nat, rr: nat, i: nat, j: nat, k: nat, r: nat, u: nat)
    requires r < rows && u < rr && (k < i || (k == i && r < j))
    ensures Index(Below(k, rows) + r, u, rr) < Index(Below(i, rows) + j, 0, rr)
  {
    NonNegative(k, rows);
    NonNegative(i, rows);
    if k < i {
      ProductAtLeast(i, k + 1, rows);
      assert (k + 1) * rows == k * rows + rows;
    }
    var C, D := k * rows + r, i * rows + j;
    ProductAtLeast(D, C + 1, rr);
    assert (C + 1) * rr == C * rr + rr;
  }

  lemma StackedNone(s: seq<Word>, t: seq<Word>, rows: nat, offset: nat, rr: nat)
    requires |s| == |t|
    ensures Stacked(s, t, rows, offset, rr, 0, 0)
  {
    hide WordMoved;
  }

  lemma StackedBlock(s: seq<Word>, t: seq<Word>, rows: nat, offset: nat, rr: nat, i: nat)
    requires Stacked(s, t, rows, offset, rr, i, rows)
    ensures Stacked(s, t, rows, offset, rr, i + 1, 0)
  {
    hide WordMoved;
  }

  lemma BlockBounds(i: nat, j: nat, rows: nat, offset: nat, rr: nat, blocks: nat)
    requires i < blocks && j < rows && offset == blocks * rr
    ensures Index(Below(i, rows) + j, 0, rr) + rr <= rows * offset
      && Index(j, Below(i, rr), offset) + rr <= rows * offset
  {
    var C := i * rows + j;
    assert (i + 1) * rows == i * rows + rows;
    ProductAtLeast(blocks, i + 1, rows);
    assert blocks * rows == rows * blocks;
    ProductAtLeast(rows * blocks, C + 1, rr);
    assert (C + 1) * rr == C * rr + rr;
    assert rows * (blocks * rr) == rows * blocks * rr;
    assert (i + 1) * rr == i * rr + rr;
    ProductAtLeast(blocks, i + 1, rr);
    ProductAtLeast(rows, j + 1, offset);
    assert (j + 1) * offset == j * offset + offset;
  }

  // ---------------------------------------------------------------- the whole network

  lemma {:induction false} LogOfPower(n: nat)
    ensures FloorLog2(Pow2(n)) == n
  {
    if n > 0 {
      LogOfPower(n - 1);
    }
  }

  lemma CeilLogOfPower(n: nat)
    requires 6 <= n
    ensures CeilLog2(Pow2(n)) == n
  {
    LogOfPower(n);
    PowerSum(n);
  }

  /** Smaller powers of two divide larger ones. */
  lemma {:induction false} PowerDivides(i: nat, n: nat)
    requires i <= n
    ensures Pow2(n) % Pow2(i) == 0
    decreases n
  {
    hide Pow2;
    if i == n {
      ModUnique(Pow2(n), Pow2(i), 1, 0);
    } else {
      PowerDivides(i, n - 1);
      PowerNext(n - 1);
      var d, e := Pow2(i), Pow2(n - 1) / Pow2(i);
      assert Pow2(n) == d * (2 * e);
      ModUnique(Pow2(n), d, 2 * e, 0);
    }
  }

  /** The sizes that the stages rely on. */
  lemma Sizes(rows: nat, columns: nat, offset: nat, n: nat, i: nat)
    requires 6 <= n && i < n && rows == Pow2(n) && columns % rows == 0 && columns == 64 * offset && 0 < columns
    ensures rows % (2 * Pow2(i)) == 0 && 0 < Pow2(i) * offset
    ensures 2 * (Pow2(i) * offset) * (rows / (Pow2(i) * 2)) == rows * offset
    ensures 6 <= i ==> offset % (2 * Pow2(i - 6)) == 0 && Pow2(i - 6) <= Pow2(i) * offset
    ensures 6 <= i ==> (Pow2(i) * offset) % (2 * Pow2(i - 6)) == 0
  {
    hide Pow2;
    PowerDivides(i + 1, n);
    PowerNext(i);
    var d, e := Pow2(i), rows / (2 * Pow2(i));
    assert rows == 2 * d * e;
    ProductAtLeast(offset, 1, d);
    SizeProduct(d, offset, e);
    if 6 <= i {
      SwapSizes(rows, columns, offset, n, i);
    }
  }

  lemma SizeProduct(d: nat, offset: nat, e: nat)
    ensures 2 * (d * offset) * e == (2 * d * e) * offset
  {
  }

  lemma SwapSizes(rows: nat, columns: nat, offset: nat, n: nat, i: nat)
    requires 6 <= i < n && rows == Pow2(n) && columns % rows == 0 && columns == 64 * offset && 0 < columns
    ensures offset % (2 * Pow2(i - 6)) == 0 && Pow2(i - 6) <= Pow2(i) * offset
    ensures (Pow2(i) * offset) % (2 * Pow2(i - 6)) == 0
  {
    hide Pow2;
    PowerSum(i);
    PowerSum(n);
    PowerDivides(i + 1 - 6, n - 6);
    PowerNext(i - 6);
    var p, k := Pow2(n - 6), columns / rows;
    assert columns == rows * k;
    OffsetIs(p, k, offset);
    OffsetDivides(p, 2 * Pow2(i - 6), k, Pow2(i), offset);
    ProductAtLeast(offset, 1, Pow2(i));
  }

  /** A multiple of p is one of every divisor of p. */
  lemma OffsetDivides(p: nat, s: nat, k: nat, d: nat, offset: nat)
    requires 0 < s && p % s == 0 && offset == p * k
    ensures offset % s == 0 && (d * offset) % s == 0
  {
    var f := p / s;
    assert p == s * f;
    MultipleOf(s, f, k);
    MultipleOf(s, f * k, d);
    ModUnique(offset, s, f * k, 0);
    assert d * offset == offset * d;
    ModUnique(d * offset, s, f * k * d, 0);
  }

  lemma OffsetIs(p: nat, k: nat, offset: nat)
    requires 64 * offset == (64 * p) * k
    ensures offset == p * k
  {
  }

  lemma MultipleOf(s: nat, f: nat, k: nat)
    ensures (s * f) * k == s * (f * k)
  {
  }

  /** The network: rows is a power of two of at least 64, columns a multiple of it. */
  method EklundhBitTranspose(a: array<Word>, rows: nat, columns: nat, ghost n: nat)
    requires 6 <= n && rows == Pow2(n) && 0 < columns && columns % rows == 0 && rows * columns == 64 * a.Length
    modifies a
    ensures Transposed(old(a[..]), a[..], rows, columns)
  {
    hide Pow2, StageWord, SwapWord, Mixed, Exchanged, GetBit, At, Stacked;
    ghost var s := a[..];
    var offset := columns / 8 / 8;
    Layout(rows, columns, offset, n, a.Length);
    CeilLogOfPower(n);
    var numiters := CeilLog2(rows);
    var srcidx: nat := 1;
    MixedNone(s, rows, offset);
    PowersSmall();
    for i := 0 to 6
      invariant srcidx == Pow2(i) && Mixed(s, a[..], rows, offset, i)
    {
      Sizes(rows, columns, offset, n, i);
      var destidx := srcidx * offset;
      ghost var t := a[..];
      BitStage(a, destidx, rows / (srcidx * 2), i);
      BitStageExchanges(t, a[..], rows, offset, i);
      MixedNext(s, t, a[..], rows, offset, i);
      PowerNext(i);
      srcidx := srcidx * 2;
    }
    var swapoffset: nat := 1;
    for i := 6 to numiters
      invariant srcidx == Pow2(i) && swapoffset == Pow2(i - 6) && Mixed(s, a[..], rows, offset, i)
    {
      Sizes(rows, columns, offset, n, i);
      var destidx := srcidx * offset;
      ghost var t := a[..];
      SwapStage(a, destidx, swapoffset, rows / (srcidx * 2));
      SwapStageExchanges(t, a[..], rows, offset, i);
      MixedNext(s, t, a[..], rows, offset, i);
      PowerNext(i);
      PowerNext(i - 6);
      srcidx := srcidx * 2;
      swapoffset := swapoffset * 2;
    }
    ghost var t := a[..];
    if columns > rows {
      StackBlocks(a, rows, offset, rows / 64, columns / rows);
    } else {
      OneBlock(t, rows, columns, offset);
    }
    NetworkTransposes(s, t, a[..], rows, columns, offset, n);
  }

  lemma Layout(rows: nat, columns: nat, offset: nat, n: nat, length: nat)
    requires 6 <= n && rows == Pow2(n) && 0 < columns && columns % rows == 0 && rows * columns == 64 * length
      && offset == columns / 8 / 8
    ensures columns == 64 * offset && length == rows * offset && 0 < offset && rows % 64 == 0 && 0 < rows / 64
    ensures offset == (columns / rows) * (rows / 64) && rows <= columns
  {
    hide Pow2;
    PowerSum(n);
    var rr, k := rows / 64, columns / rows;
    assert rows == 64 * rr;
    assert columns == rows * k;
    assert columns == 64 * (rr * k);
    assert rows * (64 * offset) == 64 * (rows * offset);
    ProductAtLeast(k, 1, rows);
    assert rr * k == k * rr;
  }

  lemma OneBlock(t: seq<Word>, rows: nat, columns: nat, offset: nat)
    requires 0 < rows && columns == rows == 64 * offset && |t| == rows * offset
    ensures columns / rows == 1 && rows / 64 == offset && Stacked(t, t, rows, offset, rows / 64, columns / rows, 0)
  {
    hide Index;
    forall k: nat, r: nat, u: nat | r < rows && u < offset && k < 1
      ensures WordMoved(t, t, rows, offset, offset, k, r, u)
    {
      assert 0 * rows == 0 && 0 * offset == 0;
      IndexBound(r, u, rows, offset);
    }
  }

  /** The rows x rows blocks have been transposed in place and put below one another. */
  lemma NetworkTransposes(s: seq<Word>, t: seq<Word>, u: seq<Word>, rows: nat, columns: nat, offset: nat, n: nat)
    requires 6 <= n && rows == Pow2(n) && columns == 64 * offset && rows * columns == 64 * |s| && |u| == |s|
    requires 0 < columns / rows && columns % rows == 0 && offset == (columns / rows) * (rows / 64)
    requires Mixed(s, t, rows, offset, n) && Stacked(t, u, rows, offset, rows / 64, columns / rows, 0)
    ensures Transposed(s, u, rows, columns)
  {
    hide Pow2, GetBit, At, Mixed, Stacked;
    forall r: nat, c: nat | r < rows && c < columns
      ensures At(r, c, columns) / 64 < |s| && At(c, r, rows) / 64 < |u|
      ensures GetBit(u, At(c, r, rows)) == GetBit(s, At(r, c, columns))
    {
      AtBound(r, c, rows, columns, |s|);
      AtBound(c, r, columns, rows, |s|);
      NetworkBit(s, t, u, rows, columns, offset, n, r, c);
    }
  }

  lemma ColumnBlock(c: nat, rows: nat, columns: nat)
    requires 0 < rows && c < columns && columns % rows == 0
    ensures c == Below(c / rows, rows) + c % rows && c / rows < columns / rows
  {
    var k, m := c / rows, columns / rows;
    assert columns == rows * m && c == rows * k + c % rows;
    if k >= m {
      ProductAtLeast(k, m, rows);
    }
  }

  lemma WordOf(hi: nat, lo: nat, width: nat, ww: nat)
    requires width == 64 * ww
    ensures hi * width >= 0 && hi * ww >= 0
    ensures (hi * width + lo) / 64 == hi * ww + lo / 64 && (hi * width + lo) % 64 == lo % 64
  {
    assert hi * width == 64 * (hi * ww);
    NonNegative(hi, ww);
    ModUnique(hi * width + lo, 64, hi * ww + lo / 64, lo % 64);
  }

  lemma WholeRemainder(k: nat, r: nat, rows: nat, n: nat)
    requires rows == Pow2(n) && r < rows
    ensures k * rows >= 0 && (k * rows + r) % Pow2(n) == r
  {
    hide Pow2;
    ModUnique(k * rows + r, rows, k, r);
  }

  lemma OperandBit(s: seq<Word>, rows: nat, offset: nat, r: nat, c: nat)
    requires Shape(s, rows, offset) && r < rows && c < 64 * offset && At(r, c, 64 * offset) / 64 < |s|
    ensures Elem(s, rows, offset, r, c) == GetBit(s, At(r, c, 64 * offset))
  {
    WordOf(r, c, 64 * offset, offset);
  }

  /** Bit r of row k * rows + r' of the stacked blocks. */
  lemma StackedBit(t: seq<Word>, u: seq<Word>, rows: nat, offset: nat, rr: nat, k: nat, r': nat, r: nat)
    requires rows == 64 * rr && r < rows && r' < rows && Shape(t, rows, offset)
    requires Below(k, rows) + r < 64 * offset && At(Below(k, rows) + r', r, rows) / 64 < |u|
    requires WordMoved(t, u, rows, offset, rr, k, r', r / 64)
    ensures GetBit(u, At(Below(k, rows) + r', r, rows)) == Elem(t, rows, offset, r', Below(k, rows) + r)
  {
    WordOf(Below(k, rows) + r', r, rows, rr);
    WordOf(k, r, rows, rr);
  }

  lemma MixedIs(k: nat, r: nat, r': nat, rows: nat, n: nat)
    requires rows == Pow2(n) && r < rows && r' < rows
    ensures MixedRow(r', Below(k, rows) + r, n) == r && MixedRow(Below(k, rows) + r, r', n) == Below(k, rows) + r'
  {
    hide Pow2;
    WholeRemainder(k, r, rows, n);
    WholeRemainder(0, r', rows, n);
  }

  lemma NetworkBit(s: seq<Word>, t: seq<Word>, u: seq<Word>, rows: nat, columns: nat, offset: nat, n: nat, r: nat,
                   c: nat)
    requires 6 <= n && rows == Pow2(n) && columns == 64 * offset && rows * columns == 64 * |s| && |u| == |s|
    requires 0 < columns / rows && columns % rows == 0 && offset == (columns / rows) * (rows / 64)
    requires Mixed(s, t, rows, offset, n) && Stacked(t, u, rows, offset, rows / 64, columns / rows, 0)
    requires r < rows && c < columns && At(r, c, columns) / 64 < |s| && At(c, r, rows) / 64 < |u|
    ensures GetBit(u, At(c, r, rows)) == GetBit(s, At(r, c, columns))
  {
    hide Pow2, GetBit, At, Elem, WordMoved, MixedRow, Below, Index, Mixed;
    PowerSum(n);
    var k, r' := c / rows, c % rows;
    ColumnBlock(c, rows, columns);
    BlockColumn(k, r, rows, columns);
    assert WordMoved(t, u, rows, offset, rows / 64, k, r', r / 64);
    BlockBit(s, t, u, rows, rows / 64, offset, n, k, r', r);
  }

  lemma BlockBit(s: seq<Word>, t: seq<Word>, u: seq<Word>, rows: nat, rr: nat, offset: nat, n: nat, k: nat, r': nat,
                 r: nat)
    requires rows == Pow2(n) == 64 * rr && r < rows && r' < rows && Mixed(s, t, rows, offset, n)
    requires Below(k, rows) + r < 64 * offset && At(Below(k, rows) + r', r, rows) / 64 < |u|
    requires Below(k, rows) + r' < 64 * offset && At(r, Below(k, rows) + r', 64 * offset) / 64 < |s|
    requires WordMoved(t, u, rows, offset, rr, k, r', r / 64)
    ensures GetBit(u, At(Below(k, rows) + r', r, rows)) == GetBit(s, At(r, Below(k, rows) + r', 64 * offset))
  {
    hide Pow2, GetBit, At, Elem, WordMoved, MixedRow, Below, Index;
    var c, c' := Below(k, rows) + r', Below(k, rows) + r;
    MixedIs(k, r, r', rows, n);
    StackedBit(t, u, rows, offset, rr, k, r', r);
    assert Elem(t, rows, offset, r', c') == Elem(s, rows, offset, MixedRow(r', c', n), MixedRow(c', r', n));
    OperandBit(s, rows, offset, r, c);
  }

  lemma BlockColumn(k: nat, r: nat, rows: nat, columns: nat)
    requires 0 < rows && r < rows && k < columns / rows && columns % rows == 0
    ensures Below(k, rows) + r < columns
  {
    var m := columns / rows;
    assert columns == rows * m;
    ProductAtLeast(m, k + 1, rows);
    assert rows * (k + 1) == k * rows + rows;
    NonNegative(k, rows);
  }
}
