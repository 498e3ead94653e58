/** The word memory the multiplication routines of gf2x-1.1 work in.  One array
    holds all operands, results and scratch space; a pointer is an index into it,
    so that overlapping and shared regions are part of the model.  Contents are
    described by the polynomials whose words they are. */
module WordMemory {
  import opened Polynomials
  import opened Words

  /** Word j of the polynomial P, zero for negative j. */
  function W(P: Poly, j: int): Word {
    if j < 0 then {} else WordAt(P, j)
  }

  /** P * y^m with y = x^64. */
  function Y(P: Poly, m: nat): Poly {
    Shift(P, 64 * m)
  }

  /** P fits in n words. */
  ghost predicate Fits(P: Poly, n: nat) {
    forall i :: i in P ==> i < 64 * n
  }

  /** {p, n} holds the n lowest words of P. */
  ghost predicate Holds(mem: array<Word>, p: nat, n: nat, P: Poly)
    reads mem
  {
    p + n <= mem.Length && forall i :: p <= i < p + n ==> mem[i] == W(P, i - p)
  }

  /** The regions {p, n} and {q, m} do not overlap. */
  predicate Apart(p: nat, n: nat, q: nat, m: nat) {
    p + n <= q || q + m <= p
  }

  /** The words of P were at p in an earlier content of the memory. */
  ghost predicate Held(before: seq<Word>, p: nat, n: nat, P: Poly) {
    p + n <= |before| && forall i :: p <= i < p + n ==> before[i] == W(P, i - p)
  }

  lemma HoldsHeld(mem: array<Word>, p: nat, n: nat, P: Poly)
    ensures Holds(mem, p, n, P) <==> Held(mem[..], p, n, P)
  {
    hide W;
  }

  /** The contents s and t differ in the region {q, m} at most. */
  ghost predicate Only(s: seq<Word>, t: seq<Word>, q: nat, m: nat) {
    |s| == |t| && forall i :: 0 <= i < |s| && !(q <= i < q + m) ==> t[i] == s[i]
  }

  lemma OnlySame(s: seq<Word>, q: nat, m: nat)
    ensures Only(s, s, q, m)
  {
  }

  lemma OnlyTrans(s: seq<Word>, t: seq<Word>, u: seq<Word>, q: nat, m: nat)
    requires Only(s, t, q, m) && Only(t, u, q, m)
    ensures Only(s, u, q, m)
  {
  }

  /** A region that is not written still holds what it held. */
  lemma HeldKept(s: seq<Word>, t: seq<Word>, p: nat, n: nat, P: Poly, q: nat, m: nat)
    requires Held(s, p, n, P) && Only(s, t, q, m) && Apart(q, m, p, n)
    ensures Held(t, p, n, P)
  {
    hide W;
  }

  /** The contents s and t differ in the regions {p, n} and {q, m} at most. */
  ghost predicate Only2(s: seq<Word>, t: seq<Word>, p: nat, n: nat, q: nat, m: nat) {
    |s| == |t| && forall i :: 0 <= i < |s| && !(p <= i < p + n) && !(q <= i < q + m) ==> t[i] == s[i]
  }

  lemma HeldKept2(s: seq<Word>, t: seq<Word>, x: nat, k: nat, P: Poly, p: nat, n: nat, q: nat, m: nat)
    requires Held(s, x, k, P) && Only2(s, t, p, n, q, m) && Apart(p, n, x, k) && Apart(q, m, x, k)
    ensures Held(t, x, k, P)
  {
    hide W;
  }

  /** The region {p', n'} lies in one of two others. */
  predicate Inside(p': nat, n': nat, p: nat, n: nat, q: nat, m: nat) {
    (p <= p' && p' + n' <= p + n) || (q <= p' && p' + n' <= q + m)
  }

  lemma Only2Then(s: seq<Word>, t: seq<Word>, u: seq<Word>, p: nat, n: nat, q: nat, m: nat,
                  p': nat, n': nat, q': nat, m': nat)
    requires Only2(s, t, p, n, q, m) && Only2(t, u, p', n', q', m')
    requires Inside(p', n', p, n, q, m) && Inside(q', m', p, n, q, m)
    ensures Only2(s, u, p, n, q, m)
  {
  }

  lemma OnlyThen(s: seq<Word>, t: seq<Word>, u: seq<Word>, p: nat, n: nat, q: nat, m: nat, p': nat, n': nat)
    requires Only2(s, t, p, n, q, m) && Only(t, u, p', n') && Inside(p', n', p, n, q, m)
    ensures Only2(s, u, p, n, q, m)
  {
  }

  lemma Only2Same(s: seq<Word>, p: nat, n: nat, q: nat, m: nat)
    ensures Only2(s, s, p, n, q, m)
  {
  }

  lemma HeldPrefix(s: seq<Word>, p: nat, n: nat, P: Poly, m: nat)
    requires Held(s, p, n, P) && m <= n
    ensures Held(s, p, m, P)
  {
  }

  lemma WordKept(mem: array<Word>, before: seq<Word>, p: nat, n: nat, P: Poly, j: nat, q: nat, m: nat)
    requires Held(before, p, n, P) && Apart(q, m, p, n) && j < n && Only(before, mem[..], q, m)
    ensures p + n <= mem.Length && mem[p + j] == W(P, j)
  {
    hide W;
    assert mem[..][p + j] == mem[p + j];
  }

  /** Words j to n of P are still at p + j, the words below have been replaced. */
  ghost predicate Rest(s: seq<Word>, p: nat, n: nat, P: Poly, j: nat) {
    p + n <= |s| && forall i :: p + j <= i < p + n ==> s[i] == W(P, i - p)
  }

  lemma HeldRest(s: seq<Word>, p: nat, n: nat, P: Poly)
    ensures Held(s, p, n, P) <==> Rest(s, p, n, P, 0)
  {
  }

  lemma RestWord(mem: array<Word>, p: nat, n: nat, P: Poly, j: nat)
    requires Rest(mem[..], p, n, P, j) && j < n
    ensures p + n <= mem.Length && mem[p + j] == W(P, j)
    ensures j + 1 < n ==> mem[p + j + 1] == W(P, j + 1)
  {
    hide W;
    assert mem[..][p + j] == mem[p + j];
    if j + 1 < n {
      assert mem[..][p + j + 1] == mem[p + j + 1];
    }
  }

  lemma HeldWord(mem: array<Word>, p: nat, n: nat, P: Poly, j: nat)
    requires Held(mem[..], p, n, P) && j < n
    ensures p + n <= mem.Length && mem[p + j] == W(P, j)
  {
    hide W;
    assert mem[..][p + j] == mem[p + j];
  }

  /** One iteration wrote no word but those at x and y. */
  ghost predicate Wrote(s: seq<Word>, t: seq<Word>, x: nat, y: nat) {
    |s| == |t| && forall i :: 0 <= i < |s| && i != x && i != y ==> t[i] == s[i]
  }

  lemma HeldSize(s: seq<Word>, p: nat, n: nat, P: Poly)
    requires Held(s, p, n, P)
    ensures p + n <= |s|
  {
  }

  lemma WroteTwo(s: seq<Word>, t: seq<Word>, x: nat, y: nat)
    requires |s| == |t| && forall i :: 0 <= i < |s| && i != x && i != y ==> t[i] == s[i]
    ensures Wrote(s, t, x, y)
  {
  }

  lemma RestSame(s: seq<Word>, p: nat, n: nat, P: Poly, Q: Poly, j: nat)
    requires Held(s, p, j, P) && Rest(s, p, n, Q, j) && j <= n
    requires forall i :: j <= i < n ==> W(P, i) == W(Q, i)
    ensures Held(s, p, n, P)
  {
    hide W;
  }

  lemma WroteGrow(s: seq<Word>, t: seq<Word>, x: nat, y: nat, p: nat, j: nat, P: Poly)
    requires Wrote(s, t, x, y) && Held(s, p, j, P) && p + j < |t| && t[p + j] == W(P, j)
    requires (x < p || p + j <= x) && (y < p || p + j <= y)
    ensures Held(t, p, j + 1, P)
  {
    hide W;
  }

  lemma WroteRest(s: seq<Word>, t: seq<Word>, x: nat, y: nat, p: nat, n: nat, P: Poly, j: nat)
    requires Wrote(s, t, x, y) && Rest(s, p, n, P, j)
    requires (x <= p + j || p + n <= x) && (y <= p + j || p + n <= y)
    ensures Rest(t, p, n, P, j + 1)
  {
    hide W;
  }

  lemma WroteKeep(s: seq<Word>, t: seq<Word>, x: nat, y: nat, p: nat, n: nat, P: Poly)
    requires Wrote(s, t, x, y) && Held(s, p, n, P)
    requires (x < p || p + n <= x) && (y < p || p + n <= y)
    ensures Held(t, p, n, P)
  {
    hide W;
  }

  lemma WroteOnly(s: seq<Word>, t: seq<Word>, u: seq<Word>, x: nat, y: nat, q: nat, m: nat)
    requires Only(s, t, q, m) && Wrote(t, u, x, y) && q <= x < q + m && q <= y < q + m
    ensures Only(s, u, q, m)
  {
  }

  lemma WroteOnly2(s: seq<Word>, t: seq<Word>, u: seq<Word>, x: nat, y: nat, p: nat, n: nat, q: nat, m: nat)
    requires Only2(s, t, p, n, q, m) && Wrote(t, u, x, y)
    requires (p <= x < p + n || q <= x < q + m) && (p <= y < p + n || q <= y < q + m)
    ensures Only2(s, u, p, n, q, m)
  {
  }

  lemma HeldNone(before: seq<Word>, p: nat, P: Poly)
    requires p <= |before|
    ensures Held(before, p, 0, P)
  {
  }

  /** One more word of P after those that an iteration has left alone. */
  lemma Grow(mem: array<Word>, before: seq<Word>, p: nat, j: nat, P: Poly)
    requires Held(before, p, j, P) && p + j < |before| == mem.Length && mem[p + j] == W(P, j)
    requires forall i :: p <= i < p + j ==> mem[i] == before[i]
    ensures Held(mem[..], p, j + 1, P)
  {
    hide W;
  }

  lemma WAdd(P: Poly, Q: Poly, j: int)
    ensures W(Add(P, Q), j) == Xor(W(P, j), W(Q, j))
  {
    hide WordAt, Add;
    if 0 <= j {
      var s := Xor(W(P, j), W(Q, j));
      forall b: nat
        ensures b in W(Add(P, Q), j) <==> b in s
      {
      }
    }
  }

  lemma WY(P: Poly, m: nat, j: int)
    ensures W(Y(P, m), j) == W(P, j - m)
  {
    hide WordAt, Shift, Y;
    if 0 <= j {
      forall b: nat
        ensures b in W(Y(P, m), j) <==> b in W(P, j - m)
      {
        WYBit(P, m, j, b);
      }
    }
  }

  lemma WYBit(P: Poly, m: nat, j: nat, b: nat)
    ensures b in W(Y(P, m), j) <==> b in W(P, j - m)
  {
    hide WordAt, Shift;
    assert b in WordAt(Y(P, m), j) <==> b < 64 && 64 * j + b in Y(P, m);
    if m <= j {
      assert 64 * (j - m) + b == 64 * j + b - 64 * m;
      assert b in WordAt(P, j - m) <==> b < 64 && 64 * (j - m) + b in P;
    }
  }

  lemma YAdd(P: Poly, Q: Poly, m: nat)
    ensures Y(Add(P, Q), m) == Add(Y(P, m), Y(Q, m))
  {
    hide Add, Shift;
    ShiftAdd(P, Q, 64 * m);
  }

  lemma YY(P: Poly, m: nat, l: nat)
    ensures Y(Y(P, m), l) == Y(P, m + l)
  {
    hide Shift;
    ShiftShift(P, 64 * m, 64 * l);
  }

  lemma WBeyond(P: Poly, n: nat, j: int)
    requires Fits(P, n) && n <= j
    ensures W(P, j) == {}
  {
    hide WordAt;
    forall b: nat
      ensures b !in W(P, j)
    {
      if b < 64 {
        assert 64 * j + b !in P;
      }
    }
  }

  lemma FitsAdd(P: Poly, Q: Poly, n: nat)
    requires Fits(P, n) && Fits(Q, n)
    ensures Fits(Add(P, Q), n)
  {
    hide Add;
  }

  lemma FitsY(P: Poly, n: nat, m: nat)
    requires Fits(P, n)
    ensures Fits(Y(P, m), n + m)
  {
    hide Shift;
    forall i | i in Y(P, m)
      ensures i < 64 * (n + m)
    {
      assert i - 64 * m in P;
    }
  }

  lemma FitsMore(P: Poly, n: nat, m: nat)
    requires Fits(P, n) && n <= m
    ensures Fits(P, m)
  {
  }

  lemma FitsMul(P: Poly, Q: Poly, n: nat, m: nat)
    requires Fits(P, n) && Fits(Q, m)
    ensures Fits(Mul(P, Q), n + m)
  {
    FitsMulRows(P, Q, n, m, Deg(P) + 1);
  }

  lemma {:induction false} FitsMulRows(P: Poly, Q: Poly, n: nat, m: nat, k: nat)
    requires Fits(P, n) && Fits(Q, m)
    ensures Fits(MulRows(P, Q, k), n + m)
    decreases k
  {
    hide Shift, Add;
    if k > 0 {
      FitsMulRows(P, Q, n, m, k - 1);
      if k - 1 in P {
        var row := Shift(Q, k - 1);
        forall i | i in row
          ensures i < 64 * (n + m)
        {
          assert i - (k - 1) in Q;
        }
      }
    }
  }

  /** Two polynomials that fit in n words and agree on them are equal. */
  lemma WordsDetermine(P: Poly, Q: Poly, n: nat)
    requires Fits(P, n) && Fits(Q, n) && forall j :: 0 <= j < n ==> W(P, j) == W(Q, j)
    ensures P == Q
  {
    hide WordAt;
    forall i: nat
      ensures i in P <==> i in Q
    {
      if i < 64 * n {
        var j, b := i / 64, i % 64;
        assert W(P, j) == W(Q, j);
        assert 64 * j + b == i;
        assert b in WordAt(P, j) <==> i in P;
        assert b in WordAt(Q, j) <==> i in Q;
      }
    }
  }

  lemma WordBit(P: Poly, i: nat)
    ensures i % 64 in W(P, i / 64) <==> i in P
  {
    hide WordAt;
    assert 64 * (i / 64) + i % 64 == i;
  }

}
