/** Linear systems over GF(2): GF2MatrixUtils::solve of Source Files/GF2MatrixUtils.cpp.
    A row is the set of the columns in which it has a one, so that a vector of
    unknowns is the set of the unknowns that are one. */
module LinearSolve {
  import opened Polynomials

  /** The product of a row and a vector. */
  function Dot(a: Poly, x: Poly): bool {
    |a * x| % 2 == 1
  }

  ghost predicate Satisfies(A: seq<Poly>, b: seq<bool>, x: Poly)
    requires |A| == |b|
  {
    forall i :: 0 <= i < |A| ==> Dot(A[i], x) == b[i]
  }

  ghost predicate InKernel(A: seq<Poly>, x: Poly) {
    forall i :: 0 <= i < |A| ==> !Dot(A[i], x)
  }

  /** x has components below m only. */
  predicate Vector(x: Poly, m: nat) {
    forall c :: c in x ==> c < m
  }

  /** The columns are linearly independent. */
  ghost predicate Independent(A: seq<Poly>, m: nat) {
    forall x: Poly :: Vector(x, m) && InKernel(A, x) ==> x == {}
  }

  predicate Matrix(A: seq<Poly>, m: nat) {
    forall i :: 0 <= i < |A| ==> Vector(A[i], m)
  }

  datatype Solution = Solved(x: Poly) | NoSolution

  // ---------------------------------------------------------------- parity

  lemma SymmetricDifferenceSize(a: Poly, b: Poly)
    ensures |Add(a, b)| == |a| + |b| - 2 * |a * b|
  {
    hide Add;
    assert Add(a, b) == (a - b) + (b - a);
    assert (a - b) * (b - a) == {};
    assert a == (a - b) + (a * b) && (a - b) * (a * b) == {};
    assert b == (b - a) + (a * b) && (b - a) * (a * b) == {};
  }

  lemma DotAddRow(a: Poly, b: Poly, x: Poly)
    ensures Dot(Add(a, b), x) == (Dot(a, x) != Dot(b, x))
  {
    hide Add;
    assert Add(a, b) * x == Add(a * x, b * x);
    SymmetricDifferenceSize(a * x, b * x);
  }

  lemma DotAddVector(a: Poly, x: Poly, y: Poly)
    ensures Dot(a, Add(x, y)) == (Dot(a, x) != Dot(a, y))
  {
    hide Add;
    assert a * Add(x, y) == Add(a * x, a * y);
    SymmetricDifferenceSize(a * x, a * y);
  }

  lemma DotUnit(a: Poly, c: nat)
    ensures Dot(a, {c}) == (c in a)
  {
    assert a * {c} == if c in a then {c} else {};
  }

  lemma DotApart(a: Poly, x: Poly)
    requires a * x == {}
    ensures !Dot(a, x)
  {
  }

  /** A system with independent columns has at most one solution. */
  lemma UniqueSolution(A: seq<Poly>, b: seq<bool>, m: nat, x: Poly, y: Poly)
    requires |A| == |b| && Independent(A, m) && Vector(x, m) && Vector(y, m) && Satisfies(A, b, x) && Satisfies(A, b, y)
    ensures x == y
  {
    hide Dot, Add;
    var d := Add(x, y);
    forall i | 0 <= i < |A|
      ensures !Dot(A[i], d)
    {
      DotAddVector(A[i], x, y);
    }
    assert InKernel(A, d) && Vector(d, m);
    forall c
      ensures c in x <==> c in y
    {
      assert c !in d;
    }
  }

  // ---------------------------------------------------------------- row operations

  /** The same solutions and the same kernel. */
  ghost predicate Equivalent(A: seq<Poly>, b: seq<bool>, A': seq<Poly>, b': seq<bool>) {
    && |A| == |b| == |A'| == |b'|
    && (forall x: Poly :: Satisfies(A, b, x) <==> Satisfies(A', b', x))
    && (forall x: Poly :: InKernel(A, x) <==> InKernel(A', x))
  }

  function Exchanged<T>(s: seq<T>, i: nat, k: nat): (r: seq<T>)
    requires i < |s| && k < |s|
    ensures |r| == |s| && i == k ==> r == s
  {
    s[i := s[k]][k := s[i]]
  }

  lemma SwapRows(A: seq<Poly>, b: seq<bool>, i: nat, k: nat)
    requires |A| == |b| && i < |A| && k < |A|
    ensures Equivalent(A, b, Exchanged(A, i, k), Exchanged(b, i, k))
  {
    var A', b' := Exchanged(A, i, k), Exchanged(b, i, k);
    forall x: Poly
      ensures (Satisfies(A, b, x) ==> Satisfies(A', b', x)) && (InKernel(A, x) ==> InKernel(A', x))
      ensures (Satisfies(A', b', x) ==> Satisfies(A, b, x)) && (InKernel(A', x) ==> InKernel(A, x))
    {
      Swapped(A, b, A', b', i, k, x);
      Swapped(A', b', A, b, i, k, x);
    }
  }

  lemma Swapped(A: seq<Poly>, b: seq<bool>, A': seq<Poly>, b': seq<bool>, i: nat, k: nat, x: Poly)
    requires |A| == |b| == |A'| == |b'| && i < |A| && k < |A|
    requires A' == Exchanged(A, i, k) && b' == Exchanged(b, i, k)
    ensures (Satisfies(A, b, x) ==> Satisfies(A', b', x)) && (InKernel(A, x) ==> InKernel(A', x))
  {
    hide Dot;
    forall l | 0 <= l < |A|
      ensures exists l' :: 0 <= l' < |A| && A'[l] == A[l'] && b'[l] == b[l']
    {
      var l' := if l == k then i else if l == i then k else l;
      assert A'[l] == A[l'] && b'[l] == b[l'];
    }
  }

  /** Row p added to the rows between it and row k that have a one in column j. */
  function ClearedRows(A: seq<Poly>, p: nat, j: nat, k: nat): (rows: seq<Poly>)
    requires p < |A|
    ensures |rows| == |A|
  {
    seq(|A|, i requires 0 <= i < |A| => if p < i < k && j in A[i] then Add(A[i], A[p]) else A[i])
  }

  function ClearedRhs(A: seq<Poly>, b: seq<bool>, p: nat, j: nat, k: nat): (rhs: seq<bool>)
    requires p < |A| == |b|
    ensures |rhs| == |b|
  {
    seq(|b|, i requires 0 <= i < |b| => if p < i < k && j in A[i] then b[i] != b[p] else b[i])
  }

  lemma ClearRows(A: seq<Poly>, b: seq<bool>, p: nat, j: nat)
    requires p < |A| == |b|
    ensures Equivalent(A, b, ClearedRows(A, p, j, |A|), ClearedRhs(A, b, p, j, |A|))
  {
    hide Add, Dot;
    var A', b' := ClearedRows(A, p, j, |A|), ClearedRhs(A, b, p, j, |A|);
    forall x: Poly
      ensures Satisfies(A, b, x) <==> Satisfies(A', b', x)
      ensures InKernel(A, x) <==> InKernel(A', x)
    {
      forall i | 0 <= i < |A|
        ensures Dot(A'[i], x) == if p < i && j in A[i] then Dot(A[i], x) != Dot(A[p], x) else Dot(A[i], x)
      {
        DotAddRow(A[i], A[p], x);
      }
      assert Dot(A'[p], x) == Dot(A[p], x);
    }
  }

  lemma EquivalentTrans(A: seq<Poly>, b: seq<bool>, A': seq<Poly>, b': seq<bool>, A'': seq<Poly>, b'': seq<bool>)
    requires Equivalent(A, b, A', b') && Equivalent(A', b', A'', b'')
    ensures Equivalent(A, b, A'', b'')
  {
    hide Satisfies, InKernel;
  }

  // ---------------------------------------------------------------- elimination

  /** The first row from row i on that has a one in column j. */
  function FirstWith(A: seq<Poly>, j: nat, i: nat): (r: nat)
    requires i <= |A|
    ensures i <= r <= |A| && (r < |A| ==> j in A[r]) && forall l :: i <= l < r ==> j !in A[l]
    decreases |A| - i
  {
    if i == |A| || j in A[i] then i else FirstWith(A, j, i + 1)
  }

  /** Row i becomes row n, and column j is cleared below it. */
  function NextRows(A: seq<Poly>, n: nat, i: nat, j: nat): (rows: seq<Poly>)
    requires n <= i < |A|
    ensures |rows| == |A|
  {
    ClearedRows(Exchanged(A, n, i), n, j, |A|)
  }

  function NextRhs(A: seq<Poly>, b: seq<bool>, n: nat, i: nat, j: nat): (rhs: seq<bool>)
    requires n <= i < |A| == |b|
    ensures |rhs| == |b|
  {
    ClearedRhs(Exchanged(A, n, i), Exchanged(b, n, i), n, j, |A|)
  }

  /** The rows after the columns from j on have been treated; n is the next row without a pivot. */
  function EliminatedRows(A: seq<Poly>, n: nat, j: nat, m: nat): (rows: seq<Poly>)
    requires n <= |A|
    ensures |rows| == |A|
    decreases m - j
  {
    if m <= j then A
    else
      var i := FirstWith(A, j, n);
      if i == |A| then EliminatedRows(A, n, j + 1, m) else EliminatedRows(NextRows(A, n, i, j), n + 1, j + 1, m)
  }

  function EliminatedRhs(A: seq<Poly>, b: seq<bool>, n: nat, j: nat, m: nat): (rhs: seq<bool>)
    requires n <= |A| == |b|
    ensures |rhs| == |b|
    decreases m - j
  {
    if m <= j then b
    else
      var i := FirstWith(A, j, n);
      if i == |A| then EliminatedRhs(A, b, n, j + 1, m)
      else EliminatedRhs(NextRows(A, n, i, j), NextRhs(A, b, n, i, j), n + 1, j + 1, m)
  }

  function Reduced(A: seq<Poly>, m: nat): (rows: seq<Poly>)
    ensures |rows| == |A|
  {
    EliminatedRows(A, 0, 0, m)
  }

  function ReducedRhs(A: seq<Poly>, b: seq<bool>, m: nat): (rhs: seq<bool>)
    requires |A| == |b|
    ensures |rhs| == |b|
  {
    EliminatedRhs(A, b, 0, 0, m)
  }

  lemma NextEquivalent(A: seq<Poly>, b: seq<bool>, n: nat, i: nat, j: nat)
    requires n <= i < |A| == |b|
    ensures Equivalent(A, b, NextRows(A, n, i, j), NextRhs(A, b, n, i, j))
  {
    hide Equivalent, ClearedRows, ClearedRhs;
    var S, t := Exchanged(A, n, i), Exchanged(b, n, i);
    SwapRows(A, b, n, i);
    ClearRows(S, t, n, j);
    EquivalentTrans(A, b, S, t, NextRows(A, n, i, j), NextRhs(A, b, n, i, j));
  }

  lemma EquivalentRefl(A: seq<Poly>, b: seq<bool>)
    requires |A| == |b|
    ensures Equivalent(A, b, A, b)
  {
  }

  lemma {:induction false} EliminatedEquivalent(A: seq<Poly>, b: seq<bool>, n: nat, j: nat, m: nat)
    requires n <= |A| == |b|
    ensures Equivalent(A, b, EliminatedRows(A, n, j, m), EliminatedRhs(A, b, n, j, m))
    decreases m - j
  {
    hide Equivalent, NextRows, NextRhs;
    if m <= j {
      EquivalentRefl(A, b);
    } else {
      var i := FirstWith(A, j, n);
      if i == |A| {
        EliminatedEquivalent(A, b, n, j + 1, m);
      } else {
        var A', b' := NextRows(A, n, i, j), NextRhs(A, b, n, i, j);
        NextEquivalent(A, b, n, i, j);
        EliminatedEquivalent(A', b', n + 1, j + 1, m);
        EquivalentTrans(A, b, A', b', EliminatedRows(A, n, j, m), EliminatedRhs(A, b, n, j, m));
      }
    }
  }

  /** The system is in echelon form as far as column j: row i has its first one in column
      piv[i], the rows after these have none in the first j columns. */
  predicate Stairs(A: seq<Poly>, piv: seq<nat>, j: nat) {
    && |piv| <= |A|
    && (forall i, k :: 0 <= i < k < |piv| ==> piv[i] < piv[k])
    && (forall i :: 0 <= i < |piv| ==> piv[i] < j && piv[i] in A[i])
    && (forall i, c :: 0 <= i < |A| && c in A[i] ==> (if i < |piv| then piv[i] else j) <= c)
  }

  lemma NextStairs(A: seq<Poly>, piv: seq<nat>, i: nat, j: nat, m: nat)
    requires Stairs(A, piv, j) && Matrix(A, m) && |piv| <= i < |A| && j in A[i]
    ensures Stairs(NextRows(A, |piv|, i, j), piv + [j], j + 1) && Matrix(NextRows(A, |piv|, i, j), m)
  {
    var n, S, rows := |piv|, Exchanged(A, |piv|, i), NextRows(A, |piv|, i, j);
    forall k, c | 0 <= k < |A| && c in rows[k]
      ensures (if k <= n then (piv + [j])[k] else j + 1) <= c < m
    {
      assert c in S[k] || c in S[n];
    }
  }

  lemma {:induction false} EliminatedStairs(A: seq<Poly>, piv: seq<nat>, j: nat, m: nat) returns (piv': seq<nat>)
    requires Stairs(A, piv, j) && Matrix(A, m) && j <= m
    ensures Stairs(EliminatedRows(A, |piv|, j, m), piv', m) && Matrix(EliminatedRows(A, |piv|, j, m), m)
    decreases m - j
  {
    hide NextRows;
    if j == m {
      piv' := piv;
    } else {
      var i := FirstWith(A, j, |piv|);
      if i == |A| {
        assert Stairs(A, piv, j + 1);
        piv' := EliminatedStairs(A, piv, j + 1, m);
      } else {
        NextStairs(A, piv, i, j, m);
        piv' := EliminatedStairs(NextRows(A, |piv|, i, j), piv + [j], j + 1, m);
      }
    }
  }

  /** Adds row p to every later row that has a one in column j. */
  method ClearBelow(A: seq<Poly>, b: seq<bool>, p: nat, j: nat) returns (rows: seq<Poly>, rhs: seq<bool>)
    requires p < |A| == |b|
    ensures rows == ClearedRows(A, p, j, |A|) && rhs == ClearedRhs(A, b, p, j, |A|)
  {
    hide Add;
    rows, rhs := A, b;
    var k := p + 1;
    while k < |A|
      invariant p < k <= |A| && rows == ClearedRows(A, p, j, k) && rhs == ClearedRhs(A, b, p, j, k)
    {
      if j in rows[k] {
        rows, rhs := rows[k := Add(rows[k], rows[p])], rhs[k := rhs[k] != rhs[p]];
      }
      k := k + 1;
    }
  }

  /** The elimination loop over the columns; nextRow is the next row without a pivot. */
  method Eliminate(A: seq<Poly>, b: seq<bool>, m: nat) returns (rows: seq<Poly>, rhs: seq<bool>)
    requires |A| == |b|
    ensures rows == Reduced(A, m) && rhs == ReducedRhs(A, b, m)
  {
    hide ClearedRows, ClearedRhs;
    rows, rhs := A, b;
    var nextRow := 0;
    var j := 0;
    while j < m
      invariant 0 <= j <= m && 0 <= nextRow <= |A| == |rows| == |rhs|
      invariant EliminatedRows(rows, nextRow, j, m) == Reduced(A, m)
      invariant EliminatedRhs(rows, rhs, nextRow, j, m) == ReducedRhs(A, b, m)
    {
      var i := nextRow;
      while i < |A| && j !in rows[i]
        invariant nextRow <= i <= |A| && FirstWith(rows, j, i) == FirstWith(rows, j, nextRow)
      {
        i := i + 1;
      }
      if i < |A| {
        if nextRow != i {
          rows, rhs := rows[nextRow := rows[i]][i := rows[nextRow]], rhs[nextRow := rhs[i]][i := rhs[nextRow]];
        }
        rows, rhs := ClearBelow(rows, rhs, nextRow, j);
        nextRow := nextRow + 1;
      }
      j := j + 1;
    }
  }

  // ---------------------------------------------------------------- back substitution

  /** The last row at or above row l that has a one in the last column, when the rows below
      it have no right-hand side; -1 if the search fails. */
  function Skip(rows: seq<Poly>, rhs: seq<bool>, m: nat, l: int): (r: int)
    requires |rows| == |rhs| && -1 <= l < |rows| && 0 < m
    ensures -1 <= r <= l && (0 <= r ==> m - 1 in rows[r])
    decreases l
  {
    if l == -1 then -1
    else if m - 1 in rows[l] then l
    else if rhs[l] then -1
    else Skip(rows, rhs, m, l - 1)
  }

  /** The substitution for the unknowns below j, rows l and above being left. */
  function Back(rows: seq<Poly>, rhs: seq<bool>, l: int, j: nat, x: Poly): Solution
    requires |rows| == |rhs| && -1 <= l < |rows|
    decreases j
  {
    if j == 0 then Solved(x)
    else if l == -1 then NoSolution
    else if j - 1 !in rows[l] then Back(rows, rhs, l, j - 1, x)
    else Back(rows, rhs, l - 1, j - 1, if Dot(rows[l], x) != rhs[l] then x + {j - 1} else x)
  }

  function Answer(rows: seq<Poly>, rhs: seq<bool>, m: nat): Solution
    requires |rows| == |rhs| && 0 < m
  {
    var l := Skip(rows, rhs, m, |rows| - 1);
    if l == -1 then NoSolution else Back(rows, rhs, l, m, {})
  }

  /** What GF2MatrixUtils::solve returns. */
  function Result(A: seq<Poly>, b: seq<bool>, m: nat): Solution
    requires |A| == |b| && 0 < m
  {
    Answer(Reduced(A, m), ReducedRhs(A, b, m), m)
  }

  /** The walk of the back substitution meets a column for every row from l up, column 0 for
      row 0, and no column that it meets has a one in a row that it has left. */
  predicate Walk(rows: seq<Poly>, l: int, j: nat)
    requires -1 <= l < |rows|
    decreases j
  {
    if j == 0 then l == -1
    else if l == -1 then false
    else if j - 1 !in rows[l] then Walk(rows, l, j - 1)
    else (forall i :: l < i < |rows| ==> j - 1 !in rows[i]) && Walk(rows, l - 1, j - 1)
  }

  /** The last row at or above row l that is not zero, -1 if there is none. */
  function TopRow(rows: seq<Poly>, l: int): (r: int)
    requires -1 <= l < |rows|
    ensures -1 <= r <= l && (0 <= r ==> rows[r] != {}) && forall i :: r < i <= l ==> rows[i] == {}
    decreases l
  {
    if l == -1 || rows[l] != {} then l else TopRow(rows, l - 1)
  }

  /** The condition on the eliminated rows under which solve is right. */
  predicate Walkable(rows: seq<Poly>, m: nat) {
    var l := TopRow(rows, |rows| - 1);
    0 < m && 0 <= l && m - 1 in rows[l] && Walk(rows, l, m)
  }

  /** r answers the system: a solution, or none when there is none. */
  ghost predicate Right(A: seq<Poly>, b: seq<bool>, m: nat, r: Solution)
    requires |A| == |b|
  {
    if r.Solved? then Vector(r.x, m) && Satisfies(A, b, r.x)
    else forall y: Poly :: Vector(y, m) ==> !Satisfies(A, b, y)
  }

  lemma ZeroVector(a: Poly)
    ensures !Dot(a, {}) && !Dot({}, a)
  {
    assert a * {} == {} && {} * a == {};
  }

  lemma SetUnknown(a: Poly, x: Poly, j: nat)
    requires j !in x
    ensures Dot(a, x + {j}) == (Dot(a, x) != (j in a))
  {
    hide Dot, Add;
    assert x + {j} == Add(x, {j});
    DotAddVector(a, x, {j});
    DotUnit(a, j);
  }

  // ---------------------------------------------------------------- where solve is right

  /** On a walk every row that it leaves keeps its value. */
  lemma {:induction false} BackKeeps(rows: seq<Poly>, rhs: seq<bool>, l: int, j: nat, x: Poly, m: nat)
    requires |rows| == |rhs| && -1 <= l < |rows| && Walk(rows, l, j) && j <= m && Vector(x, m)
    requires forall c :: c in x ==> j <= c
    ensures var r := Back(rows, rhs, l, j, x);
      && r.Solved? && Vector(r.x, m) && (forall i :: l < i < |rows| ==> Dot(rows[i], r.x) == Dot(rows[i], x))
      && forall i :: 0 <= i <= l ==> Dot(rows[i], r.x) == rhs[i]
    decreases j
  {
    hide Dot;
    if j > 0 {
      if j - 1 !in rows[l] {
        BackKeeps(rows, rhs, l, j - 1, x, m);
      } else {
        var x' := if Dot(rows[l], x) != rhs[l] then x + {j - 1} else x;
        forall i | l <= i < |rows|
          ensures Dot(rows[i], x') == if i == l then rhs[l] else Dot(rows[i], x)
        {
          SetUnknown(rows[i], x, j - 1);
        }
        BackKeeps(rows, rhs, l - 1, j - 1, x', m);
      }
    }
  }

  lemma {:induction false} SkipTo(rows: seq<Poly>, rhs: seq<bool>, m: nat, l: int, top: int)
    requires |rows| == |rhs| && 0 <= top <= l < |rows| && 0 < m && m - 1 in rows[top]
    requires forall i :: top < i <= l ==> rows[i] == {}
    ensures var r := Skip(rows, rhs, m, l);
      if r == -1 then exists i :: top < i <= l && rhs[i] else r == top && forall i :: top < i <= l ==> !rhs[i]
    decreases l
  {
    if top < l && !rhs[l] {
      SkipTo(rows, rhs, m, l - 1, top);
    }
  }

  lemma AnswerRight(rows: seq<Poly>, rhs: seq<bool>, m: nat)
    requires |rows| == |rhs| && Walkable(rows, m)
    ensures Right(rows, rhs, m, Answer(rows, rhs, m))
  {
    hide Dot, Walk, Back;
    var top := TopRow(rows, |rows| - 1);
    SkipTo(rows, rhs, m, |rows| - 1, top);
    if Skip(rows, rhs, m, |rows| - 1) == -1 {
      var i :| top < i < |rows| && rhs[i];
      forall y: Poly
        ensures !Satisfies(rows, rhs, y)
      {
        ZeroVector(y);
      }
    } else {
      BackKeeps(rows, rhs, top, m, {}, m);
      forall i | top < i < |rows|
        ensures !Dot(rows[i], {})
      {
        ZeroVector(rows[i]);
      }
    }
  }

  lemma EquivalentRight(A: seq<Poly>, b: seq<bool>, rows: seq<Poly>, rhs: seq<bool>, m: nat, r: Solution)
    requires Equivalent(A, b, rows, rhs)
    ensures Right(A, b, m, r) <==> Right(rows, rhs, m, r)
  {
    hide Satisfies, InKernel, Vector;
  }

  // ---------------------------------------------------------------- where it is not

  /** Off the walk some right-hand sides of the remaining rows get no answer or a wrong one. */
  lemma {:induction false} Misses(rows: seq<Poly>, rhs: seq<bool>, l: int, j: nat, x: Poly, m: nat)
      returns (rhs': seq<bool>)
    requires |rows| == |rhs| && -1 <= l < |rows| && !Walk(rows, l, j) && j <= m && Vector(x, m)
    requires forall c :: c in x ==> j <= c
    ensures |rhs'| == |rhs| && forall i :: l < i < |rhs| ==> rhs'[i] == rhs[i]
    ensures var r := Back(rows, rhs', l, j, x); r.Solved? ==> !Satisfies(rows, rhs', r.x)
    decreases j
  {
    hide Dot;
    if j == 0 {
      rhs' := rhs[l := !Dot(rows[l], x)];
      assert Dot(rows[l], x) != rhs'[l];
    } else if l == -1 {
      rhs' := rhs;
    } else if j - 1 !in rows[l] {
      rhs' := Misses(rows, rhs, l, j - 1, x, m);
    } else if Walk(rows, l - 1, j - 1) {
      var i :| l < i < |rows| && j - 1 in rows[i];
      rhs' := rhs[l := Dot(rows[l], x) != (Dot(rows[i], x) == rhs[i])];
      SetUnknown(rows[i], x, j - 1);
      var x' := if Dot(rows[l], x) != rhs'[l] then x + {j - 1} else x;
      BackKeeps(rows, rhs', l - 1, j - 1, x', m);
      assert Dot(rows[i], x') != rhs'[i];
    } else {
      var x' := if Dot(rows[l], x) != rhs[l] then x + {j - 1} else x;
      rhs' := Misses(rows, rhs, l - 1, j - 1, x', m);
      assert rhs'[l] == rhs[l];
    }
  }

  /** Rows in echelon form reach every right-hand side. */
  lemma {:induction false} StairsReach(A: seq<Poly>, piv: seq<nat>, m: nat, rhs: seq<bool>, t: nat) returns (y: Poly)
    requires Stairs(A, piv, m) && t <= |piv| && |rhs| == |A|
    ensures Vector(y, m) && forall i :: t <= i < |piv| ==> Dot(A[i], y) == rhs[i]
    ensures forall c :: c in y ==> t < |piv| && piv[t] <= c
    decreases |piv| - t
  {
    hide Dot;
    if t == |piv| {
      y := {};
    } else {
      y := StairsReach(A, piv, m, rhs, t + 1);
      assert piv[t] !in y;
      if Dot(A[t], y) != rhs[t] {
        forall i | t <= i < |piv|
          ensures Dot(A[i], y + {piv[t]}) == if i == t then rhs[t] else Dot(A[i], y)
        {
          SetUnknown(A[i], y, piv[t]);
        }
        y := y + {piv[t]};
      }
    }
  }

  /** Right-hand sides that rows in echelon form can reach but that get no right answer. */
  lemma AnswerWrong(rows: seq<Poly>, piv: seq<nat>, m: nat) returns (rhs: seq<bool>)
    requires Stairs(rows, piv, m) && Matrix(rows, m) && 0 < m && !Walkable(rows, m)
    ensures |rhs| == |rows| && (forall i :: |piv| <= i < |rows| ==> !rhs[i])
    ensures Answer(rows, rhs, m).Solved? ==> !Satisfies(rows, rhs, Answer(rows, rhs, m).x)
  {
    hide Dot, Walk, Back, Satisfies;
    var top := TopRow(rows, |rows| - 1);
    TopIs(rows, piv, m);
    rhs := seq(|rows|, i => false);
    if top == -1 || m - 1 !in rows[top] {
      if top >= 0 {
        rhs := rhs[top := true];
      }
      SkipFails(rows, rhs, m, |rows| - 1, top);
    } else {
      rhs := Misses(rows, rhs, top, m, {}, m);
      SkipTo(rows, rhs, m, |rows| - 1, top);
    }
  }

  lemma TopIs(rows: seq<Poly>, piv: seq<nat>, m: nat)
    requires Stairs(rows, piv, m) && Matrix(rows, m)
    ensures TopRow(rows, |rows| - 1) == |piv| - 1 && forall i :: |piv| <= i < |rows| ==> rows[i] == {}
  {
    var top := TopRow(rows, |rows| - 1);
    if top >= 0 {
      var c :| c in rows[top];
    }
    assert |piv| > 0 ==> piv[|piv| - 1] in rows[|piv| - 1];
  }

  lemma {:induction false} SkipFails(rows: seq<Poly>, rhs: seq<bool>, m: nat, l: int, top: int)
    requires |rows| == |rhs| && -1 <= top <= l < |rows| && 0 < m && (0 <= top ==> m - 1 !in rows[top] && rhs[top])
    requires forall i :: top < i <= l ==> rows[i] == {}
    ensures Skip(rows, rhs, m, l) == -1
    decreases l
  {
    if top < l {
      SkipFails(rows, rhs, m, l - 1, top);
    }
  }

  /** The system A x = b that has y as a solution. */
  function Image(A: seq<Poly>, y: Poly): (b: seq<bool>)
    ensures |b| == |A| && forall i :: 0 <= i < |A| ==> b[i] == Dot(A[i], y)
  {
    seq(|A|, i requires 0 <= i < |A| => Dot(A[i], y))
  }

  /** A matrix off the walk has a system with a solution that solve does not solve. */
  lemma SolvableMissed(A: seq<Poly>, m: nat) returns (b: seq<bool>, y: Poly)
    requires 0 < m && Matrix(A, m) && !Walkable(Reduced(A, m), m)
    ensures |b| == |A| && Vector(y, m) && Satisfies(A, b, y) && !Right(A, b, m, Result(A, b, m))
  {
    hide Dot, Answer, Walkable, EliminatedRows, EliminatedRhs, Stairs;
    var rows := Reduced(A, m);
    StartStairs(A);
    var piv := EliminatedStairs(A, [], 0, m);
    var rhs := AnswerWrong(rows, piv, m);
    StairsSize(rows, piv, m);
    y := StairsReach(rows, piv, m, rhs, 0);
    TopIs(rows, piv, m);
    ZeroVector(y);
    b := Image(A, y);
    EliminatedEquivalent(A, b, 0, 0, m);
    assert Satisfies(A, b, y) && Satisfies(rows, rhs, y);
    SameRhs(rows, rhs, ReducedRhs(A, b, m), y);
    EquivalentRight(A, b, rows, rhs, m, Answer(rows, rhs, m));
  }

  lemma StartStairs(A: seq<Poly>)
    ensures Stairs(A, [], 0)
  {
  }

  lemma StairsSize(A: seq<Poly>, piv: seq<nat>, m: nat)
    requires Stairs(A, piv, m)
    ensures |piv| <= |A|
  {
  }

  lemma SameRhs(A: seq<Poly>, b: seq<bool>, b': seq<bool>, y: Poly)
    requires |A| == |b| == |b'| && Satisfies(A, b, y) && Satisfies(A, b', y)
    ensures b == b'
  {
    hide Dot;
  }

  /** The exact range of solve: its answers for a matrix are right for all right-hand sides
      if and only if the walk of the back substitution through the eliminated rows goes on to the end. */
  lemma SolveRight(A: seq<Poly>, m: nat)
    requires 0 < m && Matrix(A, m)
    ensures (forall b: seq<bool> | |b| == |A| :: Right(A, b, m, Result(A, b, m))) <==> Walkable(Reduced(A, m), m)
  {
    hide Right, Answer, Walkable, EliminatedRows, EliminatedRhs, Equivalent, Matrix;
    if Walkable(Reduced(A, m), m) {
      forall b: seq<bool> | |b| == |A|
        ensures Right(A, b, m, Result(A, b, m))
      {
        EliminatedEquivalent(A, b, 0, 0, m);
        AnswerRight(Reduced(A, m), ReducedRhs(A, b, m), m);
        EquivalentRight(A, b, Reduced(A, m), ReducedRhs(A, b, m), m, Result(A, b, m));
      }
    } else {
      var b, y := SolvableMissed(A, m);
    }
  }

  // ---------------------------------------------------------------- independent columns

  /** Without a pivot in column j there is a kernel vector whose last component is j. */
  lemma {:induction false} KernelVector(A: seq<Poly>, piv: seq<nat>, m: nat, j: nat, t: nat) returns (x: Poly)
    requires Stairs(A, piv, m) && j < m && j !in piv && t <= |piv|
    ensures j in x && Vector(x, m) && (forall c :: c in x ==> c <= j) && forall i :: t <= i < |piv| ==> !Dot(A[i], x)
    ensures forall c :: c in x && c != j ==> t < |piv| && piv[t] <= c
    decreases |piv| - t
  {
    hide Dot;
    if t == |piv| {
      x := {j};
    } else {
      x := KernelVector(A, piv, m, j, t + 1);
      assert piv[t] in piv && piv[t] !in x;
      if Dot(A[t], x) {
        if j < piv[t] {
          DotApart(A[t], x);
        }
        forall i | t <= i < |piv|
          ensures !Dot(A[i], x + {piv[t]})
        {
          SetUnknown(A[i], x, piv[t]);
        }
        x := x + {piv[t]};
      }
    }
  }

  lemma PivotExists(A: seq<Poly>, piv: seq<nat>, m: nat, j: nat)
    requires Stairs(A, piv, m) && Matrix(A, m) && Independent(A, m) && j < m
    ensures j in piv
  {
    hide InKernel, Stairs;
    if j !in piv {
      var x := KernelWithout(A, piv, m, j);
    }
  }

  lemma KernelWithout(A: seq<Poly>, piv: seq<nat>, m: nat, j: nat) returns (x: Poly)
    requires Stairs(A, piv, m) && Matrix(A, m) && j < m && j !in piv
    ensures j in x && Vector(x, m) && InKernel(A, x)
  {
    hide Dot;
    x := KernelVector(A, piv, m, j, 0);
    TopIs(A, piv, m);
    ZeroVector(x);
  }

  /** Increasing pivots that take all the columns are 0, 1, 2, ... */
  lemma {:induction false} AllPivots(piv: seq<nat>, m: nat, k: nat)
    requires (forall i, l :: 0 <= i < l < |piv| ==> piv[i] < piv[l]) && (forall i :: 0 <= i < |piv| ==> piv[i] < m)
    requires (forall j :: 0 <= j < m ==> j in piv) && k <= m
    ensures k <= |piv| && forall i :: 0 <= i < k ==> piv[i] == i
    decreases k
  {
    if k > 0 {
      AllPivots(piv, m, k - 1);
      assert k - 1 in piv;
      var i :| 0 <= i < |piv| && piv[i] == k - 1;
      assert k - 1 <= i;
      assert k < 2 || piv[k - 2] < piv[k - 1];
    }
  }

  lemma {:induction false} DiagonalWalk(rows: seq<Poly>, j: nat)
    requires j <= |rows| && (forall i :: 0 <= i < j ==> i in rows[i])
    requires forall i, c :: 0 <= i < |rows| && c in rows[i] ==> c >= i
    ensures Walk(rows, j - 1, j)
    decreases j
  {
    if j > 0 {
      DiagonalWalk(rows, j - 1);
    }
  }

  /** For independent columns the walk goes on to the end. */
  lemma IndependentWalkable(A: seq<Poly>, m: nat)
    requires 0 < m && Matrix(A, m) && Independent(A, m)
    ensures Walkable(Reduced(A, m), m)
  {
    hide Dot, Walk, EliminatedRows, EliminatedRhs, Independent;
    var rows, b := Reduced(A, m), Image(A, {});
    EliminatedEquivalent(A, b, 0, 0, m);
    KernelKept(A, b, rows, ReducedRhs(A, b, m), m);
    StartStairs(A);
    var piv := EliminatedStairs(A, [], 0, m);
    forall j | 0 <= j < m
      ensures j in piv
    {
      PivotExists(rows, piv, m, j);
    }
    AllPivots(piv, m, m);
    TopIs(rows, piv, m);
    assert piv[m - 1] == m - 1 && piv[|piv| - 1] < m;
    DiagonalWalk(rows, m);
  }

  lemma KernelKept(A: seq<Poly>, b: seq<bool>, A': seq<Poly>, b': seq<bool>, m: nat)
    requires Equivalent(A, b, A', b') && Independent(A, m)
    ensures Independent(A', m)
  {
    hide InKernel, Satisfies;
  }

  // ---------------------------------------------------------------- the routine

  /** GF2MatrixUtils::solve.  For independent columns the result is the only solution, or
      no solution when there is none. */
  method Solve(A: seq<Poly>, b: seq<bool>, m: nat) returns (r: Solution)
    requires 0 < |A| == |b| && 0 < m && Matrix(A, m)
    ensures r == Result(A, b, m) && (r.Solved? ==> Vector(r.x, m))
    ensures Walkable(Reduced(A, m), m) ==> Right(A, b, m, r)
    ensures Independent(A, m) ==> Right(A, b, m, r)
    ensures Independent(A, m) && r.Solved? ==> forall y: Poly :: Vector(y, m) && Satisfies(A, b, y) ==> y == r.x
  {
    hide Independent, Dot, Reduced, ReducedRhs, Right, Walkable, Matrix, Back;
    var rows, rhs := Eliminate(A, b, m);
    var x: Poly := {};
    var lastRow := |A| - 1;
    while m - 1 !in rows[lastRow]
      invariant 0 <= lastRow < |A| && Skip(rows, rhs, m, lastRow) == Skip(rows, rhs, m, |A| - 1)
      decreases lastRow
    {
      ZeroVector(rows[lastRow]);
      if Dot(rows[lastRow], x) != rhs[lastRow] {
        Judged(A, b, m);
        return NoSolution;
      }
      lastRow := lastRow - 1;
      if lastRow == -1 {
        Judged(A, b, m);
        return NoSolution;
      }
    }
    r := Substitute(rows, rhs, m, lastRow);
    Judged(A, b, m);
  }

  lemma Judged(A: seq<Poly>, b: seq<bool>, m: nat)
    requires |A| == |b| && 0 < m && Matrix(A, m)
    ensures Walkable(Reduced(A, m), m) ==> Right(A, b, m, Result(A, b, m))
    ensures Independent(A, m) ==> Right(A, b, m, Result(A, b, m))
    ensures Independent(A, m) && Result(A, b, m).Solved?
      ==> forall y: Poly :: Vector(y, m) && Satisfies(A, b, y) ==> y == Result(A, b, m).x
  {
    hide Independent, Satisfies, Result, Vector, Matrix, Walkable, Reduced;
    SolveRight(A, m);
    if Independent(A, m) {
      IndependentWalkable(A, m);
      var r := Result(A, b, m);
      if r.Solved? {
        forall y: Poly | Vector(y, m) && Satisfies(A, b, y)
          ensures y == r.x
        {
          UniqueSolution(A, b, m, r.x, y);
        }
      }
    }
  }

  /** The back substitution loop. */
  method Substitute(rows: seq<Poly>, rhs: seq<bool>, m: nat, last: nat) returns (r: Solution)
    requires |rows| == |rhs| && last < |rows|
    ensures r == Back(rows, rhs, last, m, {}) && (r.Solved? ==> Vector(r.x, m))
  {
    hide Dot;
    var x: Poly := {};
    var lastRow: int := last;
    var j := m;
    while j > 0
      invariant 0 <= j <= m && -1 <= lastRow < |rows| && Vector(x, m)
      invariant Back(rows, rhs, lastRow, j, x) == Back(rows, rhs, last, m, {})
    {
      j := j - 1;
      if lastRow == -1 {
        return NoSolution;
      }
      if j in rows[lastRow] {
        if Dot(rows[lastRow], x) != rhs[lastRow] {
          x := x + {j};
        }
        lastRow := lastRow - 1;
      }
    }
    r := Solved(x);
  }

  /** One equation in two unknowns: it has a solution, and solve reports that it has none. */
  lemma WideSystem()
    ensures Satisfies([{0, 1}], [true], {0}) && Result([{0, 1}], [true], 2) == NoSolution
  {
    hide Dot;
    DotUnit({0, 1}, 0);
    var A, b: seq<bool> := [{0, 1}], [true];
    var N := NextRows(A, 0, 0, 0);
    assert N == A && NextRhs(A, b, 0, 0, 0) == b;
    assert FirstWith(A, 0, 0) == 0 && FirstWith(A, 1, 1) == 1;
    assert EliminatedRows(A, 1, 2, 2) == A && EliminatedRhs(A, b, 1, 2, 2) == b;
    assert EliminatedRows(A, 1, 1, 2) == A && EliminatedRhs(A, b, 1, 1, 2) == b;
    assert Reduced(A, 2) == A && ReducedRhs(A, b, 2) == b;
    ZeroVector({0, 1});
    assert Back(A, b, -1, 1, {1}) == NoSolution;
  }

  /** A system whose columns are not independent, but which solve answers. */
  lemma DependentSystem()
    ensures !Independent([{0}, {2}], 3) && Walkable(Reduced([{0}, {2}], 3), 3)
  {
    var A: seq<Poly> := [{0}, {2}];
    assert !Dot({0}, {1}) && !Dot({2}, {1});
    assert Vector({1}, 3) && InKernel(A, {1});
    assert NextRows(A, 0, 0, 0) == A && FirstWith(A, 0, 0) == 0;
    assert FirstWith(A, 1, 1) == 2 && FirstWith(A, 2, 1) == 1 && NextRows(A, 1, 1, 2) == A;
    assert EliminatedRows(A, 2, 3, 3) == A;
    assert EliminatedRows(A, 1, 2, 3) == A;
    assert EliminatedRows(A, 1, 1, 3) == A;
    assert Walk(A, -1, 0) && Walk(A, 0, 1) && Walk(A, 0, 2) && Walk(A, 1, 3);
  }
}
