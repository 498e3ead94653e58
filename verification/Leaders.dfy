/** How the leader decides whether its share and one mask of every follower add up to
    zero: the exhaustive search of Source Files/Leaders/NaiveLeader.cpp, its restriction
    to a cell of the hash table in SimpleHashingNaiveLeader.cpp, and the linear system of
    NaiveInverseLeader.cpp.  A mask is the set of its one bits. */
module Leaders {
  import opened Polynomials
  import opened LinearSolve

  /** The buffer formerShare, which the search changes in place. */
  class Share {
    var bits: Poly

    constructor (v: Poly)
      ensures bits == v
    {
      bits := v;
    }

    method Xor(v: Poly)
      modifies this
      ensures bits == Add(old(bits), v)
    {
      bits := Add(bits, v);
    }
  }

  /** The masks of all followers, each with the same number of slots. */
  type Masks = seq<seq<Poly>>

  predicate Slots(F: Masks, s: nat) {
    forall p :: 0 <= p < |F| ==> |F[p]| == s
  }

  /** The sum of one slot per follower from follower p on. */
  function Select(F: Masks, choice: seq<nat>, p: nat): Poly
    requires |choice| == |F| && p <= |F| && forall q :: 0 <= q < |F| ==> choice[q] < |F[q]|
    decreases |F| - p
  {
    if p == |F| then {} else Add(F[p][choice[p]], Select(F, choice, p + 1))
  }

  /** Some choice of one slot from lo to hi per follower from p on adds up to v. */
  ghost predicate Matches(F: Masks, p: nat, lo: nat, hi: nat, v: Poly)
    requires p <= |F| && forall q :: 0 <= q < |F| ==> hi <= |F[q]|
    decreases |F| - p
  {
    if p == |F| then v == {}
    else exists i :: lo <= i < hi && Matches(F, p + 1, lo, hi, Add(v, F[p][i]))
  }

  ghost predicate Choice(F: Masks, choice: seq<nat>, lo: nat, hi: nat) {
    |choice| == |F| && forall q :: 0 <= q < |F| ==> lo <= choice[q] < hi && hi <= |F[q]|
  }

  /** The recursive meaning is the existence of a choice. */
  lemma {:induction false} MatchesIsChoice(F: Masks, p: nat, lo: nat, hi: nat, v: Poly, choice: seq<nat>)
    requires p <= |F| && Choice(F, choice, lo, hi) && Select(F, choice, p) == v
    ensures Matches(F, p, lo, hi, v)
    decreases |F| - p
  {
    hide Add;
    if p < |F| {
      var i := choice[p];
      var rest := Select(F, choice, p + 1);
      assert Add(v, F[p][i]) == rest;
      MatchesIsChoice(F, p + 1, lo, hi, rest, choice);
    }
  }

  lemma {:induction false} ChoiceOfMatch(F: Masks, p: nat, lo: nat, hi: nat, v: Poly) returns (choice: seq<nat>)
    requires p <= |F| && (forall q :: 0 <= q < |F| ==> hi <= |F[q]|) && Matches(F, p, lo, hi, v)
    requires lo < hi || p < |F| || F == []
    ensures Choice(F, choice, lo, hi) && Select(F, choice, p) == v
    decreases |F| - p
  {
    hide Add;
    if p == |F| {
      choice := seq(|F|, q => lo);
    } else {
      var i :| lo <= i < hi && Matches(F, p + 1, lo, hi, Add(v, F[p][i]));
      var c := ChoiceOfMatch(F, p + 1, lo, hi, Add(v, F[p][i]));
      choice := c[p := i];
      SelectLater(F, c, choice, p);
      assert Add(F[p][i], Add(v, F[p][i])) == v;
    }
  }

  lemma {:induction false} SelectLater(F: Masks, c: seq<nat>, d: seq<nat>, p: nat)
    requires |c| == |d| == |F| && p < |F| && (forall q :: 0 <= q < |F| ==> c[q] < |F[q]| && d[q] < |F[q]|)
    requires forall q :: p < q < |F| ==> c[q] == d[q]
    ensures Select(F, c, p + 1) == Select(F, d, p + 1)
    decreases |F| - p
  {
    if p + 1 < |F| {
      SelectLater(F, c, d, p + 1);
    }
  }

  /** The sum of one slot per follower. */
  function Total(F: Masks, choice: seq<nat>): Poly
    requires |choice| == |F| && forall q :: 0 <= q < |F| ==> choice[q] < |F[q]|
  {
    Select(F, choice, 0)
  }

  lemma {:induction false} SelectBits(F: Masks, choice: seq<nat>, p: nat, x: nat)
    requires |choice| == |F| && p <= |F| && forall q :: 0 <= q < |F| ==> choice[q] < |F[q]|
    ensures x in Select(F, choice, p) <==> |set q: nat | p <= q < |F| && x in F[q][choice[q]]| % 2 == 1
    decreases |F| - p
  {
    hide Add;
    var t := set q: nat | p <= q < |F| && x in F[q][choice[q]];
    if p < |F| {
      SelectBits(F, choice, p + 1, x);
      var s := set q: nat | p + 1 <= q < |F| && x in F[q][choice[q]];
      assert t == if x in F[p][choice[p]] then s + {p} else s;
      ParityStep(Select(F, choice, p + 1), F[p][choice[p]], x, s, t, p);
      AddCommutes(Select(F, choice, p + 1), F[p][choice[p]]);
    } else {
      assert t == {};
    }
  }

  /** A bit is in the sum of a choice if and only if it is in an odd number of the masks chosen. */
  lemma TotalBits(F: Masks, choice: seq<nat>, x: nat)
    requires |choice| == |F| && forall q :: 0 <= q < |F| ==> choice[q] < |F[q]|
    ensures x in Total(F, choice) <==> |set q: nat | q < |F| && x in F[q][choice[q]]| % 2 == 1
  {
    SelectBits(F, choice, 0, x);
    assert (set q: nat | q < |F| && x in F[q][choice[q]]) == set q: nat | 0 <= q < |F| && x in F[q][choice[q]];
  }

  lemma AddCommutes(P: Poly, Q: Poly)
    ensures Add(P, Q) == Add(Q, P)
  {
    hide Add;
  }

  /** isZeroXOR: the recursive search over the slots lo to hi.  The share is left as it was
      when nothing is found, and zero when something is. */
  method IsZeroXor(share: Share, F: Masks, p: nat, lo: nat, hi: nat) returns (found: bool)
    requires p <= |F| && lo <= hi && forall q :: 0 <= q < |F| ==> hi <= |F[q]|
    modifies share
    ensures found <==> old(Matches(F, p, lo, hi, share.bits))
    ensures share.bits == if found then {} else old(share.bits)
    decreases |F| - p
  {
    hide Add;
    if p == |F| {
      return share.bits == {};
    }
    ghost var v := share.bits;
    var i := lo;
    while i < hi
      invariant lo <= i <= hi && share.bits == v
      invariant forall l :: lo <= l < i ==> !Matches(F, p + 1, lo, hi, Add(v, F[p][l]))
    {
      share.Xor(F[p][i]);
      var below := IsZeroXor(share, F, p + 1, lo, hi);
      if below {
        return true;
      }
      share.Xor(F[p][i]);
      AddTwice(v, F[p][i]);
      i := i + 1;
    }
    found := false;
  }

  lemma AddTwice(P: Poly, Q: Poly)
    ensures Add(Add(P, Q), Q) == P
  {
    hide Add;
  }

  // ---------------------------------------------------------------- the masks as columns

  /** All masks one behind the other. */
  function Flat(F: Masks): seq<Poly> {
    if F == [] then [] else F[0] + Flat(F[1..])
  }

  /** The sum of the columns in x. */
  function Combine(cols: seq<Poly>, x: Poly): Poly
    decreases |cols|
  {
    if cols == [] then {}
    else
      var k: nat := |cols| - 1;
      Add(Combine(cols[..k], x), if k in x then cols[k] else {})
  }

  /** Row i of the matrix with these columns. */
  function RowOf(cols: seq<Poly>, i: nat): Poly {
    set c: nat | c < |cols| && i in cols[c]
  }

  function MatrixOf(cols: seq<Poly>, n: nat): (A: seq<Poly>)
    ensures |A| == n && forall i {:trigger A[i]} :: 0 <= i < n ==> A[i] == RowOf(cols, i)
  {
    seq(n, i requires 0 <= i < n => RowOf(cols, i))
  }

  /** Bit i of the sum of columns is the product of row i and the selection. */
  lemma {:induction false} DotIsCombine(cols: seq<Poly>, x: Poly, i: nat)
    ensures Dot(RowOf(cols, i), x) == (i in Combine(cols, x))
    decreases |cols|
  {
    hide Dot, Add;
    if cols == [] {
      assert RowOf(cols, i) * x == {};
      DotApart(RowOf(cols, i), x);
    } else {
      var k: nat := |cols| - 1;
      DotIsCombine(cols[..k], x, i);
      var r := RowOf(cols[..k], i);
      if i in cols[k] {
        assert RowOf(cols, i) == Add(r, {k});
        DotAddRow(r, {k}, x);
        DotSingle(k, x);
      } else {
        assert RowOf(cols, i) == r;
      }
    }
  }

  lemma DotSingle(k: nat, x: Poly)
    ensures Dot({k}, x) == (k in x)
  {
    assert {k} * x == if k in x then {k} else {};
  }

  predicate Bits(cols: seq<Poly>, n: nat) {
    forall c :: 0 <= c < |cols| ==> forall i :: i in cols[c] ==> i < n
  }

  lemma {:induction false} CombineBits(cols: seq<Poly>, x: Poly, n: nat)
    requires Bits(cols, n)
    ensures forall i :: i in Combine(cols, x) ==> i < n
    decreases |cols|
  {
    hide Add;
    if cols != [] {
      CombineBits(cols[..|cols| - 1], x, n);
    }
  }

  function BitsOf(v: Poly, n: nat): (b: seq<bool>)
    ensures |b| == n && forall i {:trigger b[i]} :: 0 <= i < n ==> b[i] == (i in v)
  {
    seq(n, i requires 0 <= i < n => i in v)
  }

  /** Solutions of the system are the selections of masks that add up to the share. */
  lemma SystemMeaning(cols: seq<Poly>, n: nat, v: Poly, x: Poly)
    requires Bits(cols, n) && forall i :: i in v ==> i < n
    ensures Satisfies(MatrixOf(cols, n), BitsOf(v, n), x) <==> Combine(cols, x) == v
  {
    hide Dot, Add, Combine, RowOf;
    CombineBits(cols, x, n);
    forall i: nat
      ensures i in Combine(cols, x) <==> Dot(RowOf(cols, i), x)
    {
      DotIsCombine(cols, x, i);
    }
    var A, b := MatrixOf(cols, n), BitsOf(v, n);
    if Satisfies(A, b, x) {
      forall i: nat
        ensures i in Combine(cols, x) <==> i in v
      {
        if i < n {
          assert Dot(A[i], x) == b[i];
        }
      }
    }
  }

  // ---------------------------------------------------------------- one mask per follower

  /** x selects exactly one of the s slots of each of P followers, and nothing else. */
  ghost predicate OnePerBlock(x: Poly, P: nat, s: nat)
    decreases P
  {
    if P == 0 then x == {} else |Low(x, s)| == 1 && OnePerBlock(High(x, s), P - 1, s)
  }

  lemma {:induction false} CombineConcat(a: seq<Poly>, b: seq<Poly>, x: Poly)
    ensures Combine(a + b, x) == Add(Combine(a, Low(x, |a|)), Combine(b, High(x, |a|)))
    decreases |b|
  {
    hide Add, Low, High;
    if b == [] {
      assert a + b == a;
      CombineLow(a, x);
    } else {
      var k: nat := |b| - 1;
      assert (a + b)[..|a + b| - 1] == a + b[..k];
      CombineConcat(a, b[..k], x);
      assert |a| + k in x <==> k in High(x, |a|);
      AddAssoc(Combine(a, Low(x, |a|)), Combine(b[..k], High(x, |a|)), if k in High(x, |a|) then b[k] else {});
    }
  }

  lemma {:induction false} CombineLow(a: seq<Poly>, x: Poly)
    ensures Combine(a, Low(x, |a|)) == Combine(a, x)
  {
    CombineCut(a, x, |a|);
  }

  lemma {:induction false} CombineCut(a: seq<Poly>, x: Poly, n: nat)
    requires |a| <= n
    ensures Combine(a, Low(x, n)) == Combine(a, x)
    decreases |a|
  {
    hide Low, Add;
    if a != [] {
      CombineCut(a[..|a| - 1], x, n);
    }
  }

  lemma {:induction false} CombineOne(a: seq<Poly>, i: nat)
    ensures Combine(a, {i}) == if i < |a| then a[i] else {}
    decreases |a|
  {
    hide Add;
    if a != [] {
      CombineOne(a[..|a| - 1], i);
    }
  }

  /** A selection of one mask per follower with sum v exists exactly when the search finds one. */
  lemma {:induction false} MatchOfSelection(F: Masks, s: nat, p: nat, x: Poly, v: Poly)
    requires Slots(F, s) && p <= |F| && OnePerBlock(x, |F| - p, s) && Combine(Flat(F[p..]), x) == v
    ensures Matches(F, p, 0, s, v)
    decreases |F| - p
  {
    hide Add, Low, High;
    if p < |F| {
      assert F[p..][1..] == F[p + 1..];
      CombineConcat(F[p], Flat(F[p + 1..]), x);
      var i := TheOne(Low(x, s));
      CombineOne(F[p], i);
      var rest := Combine(Flat(F[p + 1..]), High(x, s));
      AddCancel(F[p][i], rest);
      MatchOfSelection(F, s, p + 1, High(x, s), rest);
    } else {
      assert F[p..] == [];
    }
  }

  lemma AddCancel(P: Poly, Q: Poly)
    ensures Add(Add(P, Q), P) == Q
  {
    hide Add;
  }

  lemma TheOne(x: Poly) returns (i: nat)
    requires |x| == 1
    ensures x == {i}
  {
    i :| i in x;
    assert |x - {i}| == 0;
  }

  lemma {:induction false} SelectionOfMatch(F: Masks, s: nat, p: nat, v: Poly) returns (x: Poly)
    requires Slots(F, s) && p <= |F| && Matches(F, p, 0, s, v)
    ensures OnePerBlock(x, |F| - p, s) && Combine(Flat(F[p..]), x) == v && Vector(x, |Flat(F[p..])|)
    decreases |F| - p
  {
    hide Add, Low, High, Shift;
    if p == |F| {
      x := {};
      assert F[p..] == [];
    } else {
      var i :| 0 <= i < s && Matches(F, p + 1, 0, s, Add(v, F[p][i]));
      var y := SelectionOfMatch(F, s, p + 1, Add(v, F[p][i]));
      assert F[p..][1..] == F[p + 1..];
      x := Add({i}, Shift(y, s));
      BlockParts(i, y, s);
      CombineConcat(F[p], Flat(F[p + 1..]), x);
      CombineOne(F[p], i);
      AddSwapCancel(F[p][i], v);
    }
  }

  lemma AddSwapCancel(P: Poly, Q: Poly)
    ensures Add(P, Add(Q, P)) == Q
  {
    hide Add;
  }

  lemma BlockParts(i: nat, y: Poly, s: nat)
    requires i < s
    ensures var x := Add({i}, Shift(y, s)); Low(x, s) == {i} && High(x, s) == y
    ensures forall n :: Vector(y, n) ==> Vector(Add({i}, Shift(y, s)), s + n)
  {
    hide Add, Low, High, Shift;
    var x := Add({i}, Shift(y, s));
    forall j: nat
      ensures j in High(x, s) <==> j in y
    {
      assert j + s in Shift(y, s) <==> j in y;
    }
  }

  // ---------------------------------------------------------------- the linear system

  /** The block counting loop after the system has been solved. */
  method OneInEveryBlock(x: Poly, P: nat, s: nat) returns (r: bool)
    requires 0 < s && Vector(x, P * s)
    ensures r <==> OnePerBlock(x, P, s)
  {
    hide Low, High, OnePerBlock;
    var p, i := 0, 0;
    HighAll(x);
    while p < P
      invariant 0 <= p <= P && i == p * s
      invariant OnePerBlock(x, P, s) <==> OnePerBlock(High(x, i), P - p, s)
    {
      var numOnes := CountOnes(x, i, s);
      OnePerBlockNext(x, i, P - p, s);
      if numOnes != 1 {
        return false;
      }
      NextBlock(p, s);
      i := i + s;
      p := p + 1;
    }
    OnePerBlockNone(x, i, s);
    r := true;
  }

  /** The inner loop: the ones of a block. */
  method CountOnes(x: Poly, i: nat, s: nat) returns (numOnes: nat)
    ensures numOnes == |Low(High(x, i), s)|
  {
    hide Low, High;
    numOnes := 0;
    LowNothing(High(x, i));
    var j := 0;
    while j < s
      invariant 0 <= j <= s && numOnes == |Low(High(x, i), j)|
    {
      LowNext(x, i, j);
      if i + j in x {
        numOnes := numOnes + 1;
      }
      j := j + 1;
    }
  }

  lemma OnePerBlockNext(x: Poly, i: nat, P: nat, s: nat)
    requires 0 < P
    ensures OnePerBlock(High(x, i), P, s)
       <==> |Low(High(x, i), s)| == 1 && OnePerBlock(High(x, i + s), P - 1, s)
  {
    hide Low, High;
    HighHigh(x, i, s);
  }

  lemma OnePerBlockNone(x: Poly, i: nat, s: nat)
    requires Vector(x, i)
    ensures OnePerBlock(High(x, i), 0, s)
  {
    hide Low, High;
    BeyondBlocks(x, i);
  }

  lemma NextBlock(p: int, s: int)
    ensures p * s + s == (p + 1) * s
  {
  }

  lemma HighAll(x: Poly)
    ensures High(x, 0) == x
  {
  }

  lemma LowNothing(x: Poly)
    ensures Low(x, 0) == {}
  {
  }

  lemma LowNext(x: Poly, i: nat, j: nat)
    ensures |Low(High(x, i), j + 1)| == |Low(High(x, i), j)| + (if i + j in x then 1 else 0)
  {
    hide Low, High;
    var y := High(x, i);
    assert j in y <==> i + j in x;
    assert Low(y, j + 1) == if j in y then Low(y, j) + {j} else Low(y, j);
  }

  lemma BeyondBlocks(x: Poly, m: nat)
    requires Vector(x, m)
    ensures High(x, m) == {}
  {
    hide High;
    forall j: nat
      ensures j !in High(x, m)
    {
    }
  }

  lemma {:induction false} FlatSize(F: Masks, s: nat)
    requires Slots(F, s)
    ensures |Flat(F)| == |F| * s
    decreases |F|
  {
    if F != [] {
      FlatSize(F[1..], s);
      NextBlock(|F| - 1, s);
    }
  }

  lemma RowsAreVectors(cols: seq<Poly>, n: nat)
    ensures Matrix(MatrixOf(cols, n), |cols|)
  {
  }

  /** A solution with a one in every block is a match. */
  lemma SolutionMatches(F: Masks, s: nat, v: Poly, n: nat, x: Poly)
    requires Slots(F, s) && Bits(Flat(F), n) && forall i :: i in v ==> i < n
    requires Satisfies(MatrixOf(Flat(F), n), BitsOf(v, n), x) && OnePerBlock(x, |F|, s)
    ensures Matches(F, 0, 0, s, v)
  {
    hide Satisfies, Combine, OnePerBlock, Dot;
    assert F[0..] == F;
    SystemMeaning(Flat(F), n, v, x);
    MatchOfSelection(F, s, 0, x, v);
  }

  /** A match is a solution with a one in every block. */
  lemma MatchSolves(F: Masks, s: nat, v: Poly, n: nat) returns (x: Poly)
    requires Slots(F, s) && Bits(Flat(F), n) && (forall i :: i in v ==> i < n) && Matches(F, 0, 0, s, v)
    ensures Satisfies(MatrixOf(Flat(F), n), BitsOf(v, n), x) && OnePerBlock(x, |F|, s) && Vector(x, |Flat(F)|)
  {
    hide Satisfies, Combine, OnePerBlock, Dot, Vector;
    assert F[0..] == F;
    x := SelectionOfMatch(F, s, 0, v);
    SystemMeaning(Flat(F), n, v, x);
  }

  /** NaiveInverseLeader::isZeroXOR: one linear system instead of the search.  It agrees
      with the search when the masks are linearly independent.  If solve is right for their
      matrix, a match that it reports is one, but it may miss a match behind another solution. */
  method IsZeroXorInverse(F: Masks, s: nat, v: Poly, n: nat) returns (found: bool)
    requires F != [] && 0 < s && 0 < n && Slots(F, s) && Bits(Flat(F), n) && forall i :: i in v ==> i < n
    ensures Independent(MatrixOf(Flat(F), n), |Flat(F)|) ==> (found <==> Matches(F, 0, 0, s, v))
    ensures Walkable(Reduced(MatrixOf(Flat(F), n), |Flat(F)|), |Flat(F)|) && found ==> Matches(F, 0, 0, s, v)
    ensures var r := Result(MatrixOf(Flat(F), n), BitsOf(v, n), |Flat(F)|);
      found <==> r.Solved? && OnePerBlock(r.x, |F|, s)
  {
    hide Independent, Satisfies, Matches, OnePerBlock, Vector, Matrix, Walkable, Reduced, Result;
    FlatSize(F, s);
    PositiveSize(|F|, s);
    RowsAreVectors(Flat(F), n);
    ghost var A, m := MatrixOf(Flat(F), n), |Flat(F)|;
    var r := Solve(MatrixOf(Flat(F), n), BitsOf(v, n), |Flat(F)|);
    if r == NoSolution {
      found := false;
    } else {
      found := OneInEveryBlock(r.x, |F|, s);
    }
    if (Independent(A, m) || Walkable(Reduced(A, m), m)) && found {
      SolutionMatches(F, s, v, n, r.x);
    }
    if Independent(A, m) && Matches(F, 0, 0, s, v) {
      ghost var x := MatchSolves(F, s, v, n);
    }
  }

  lemma PositiveSize(p: int, s: int)
    requires 0 < p && 0 < s
    ensures 0 < p * s
  {
  }
}
