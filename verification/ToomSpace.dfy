/** Scratch space of the Toom-Cook routines: gf2x_toomspace and gf2x_toomuspace of
    gf2x-1.1/toom.c, with the tuning data they depend on. */
module ToomSpace {

  datatype Choice = Kara | Tc3 | Tc3w | Tc4

  /** The thresholds and the table of fastest routines that the tuning programs
      produce.  Any choice is allowed that the sizes of the routines permit. */
  datatype Tuning = Tuning(kara: nat, toomw: nat, toomu: nat, best: nat -> Choice, bestU: nat -> bool) {

    /** What the header checks of toom.c and toom2.c and the default case of
        gf2x_mul_basecase demand. */
    ghost predicate Valid() {
      && 5 <= kara <= 10 && 8 <= toomw && 33 <= toomu
      && forall n :: (best(n) == Tc3 ==> 17 <= n) && (best(n) == Tc4 ==> 30 <= n)
    }

    function BestToom(n: nat): Choice {
      if n < toomw then Kara else best(n)
    }

    function BestUToom(n: nat): bool {
      n >= toomu && bestU(n)
    }

    function Low(): nat {
      if kara < toomw then kara else toomw
    }
  }

  /** What the loop of gf2x_toomspace adds up from size n on, with its start value. */
  function LoopSpace(n: nat): nat {
    if n < 8 then 19 else 8 * (n / 3 + 3) + LoopSpace(n / 3 + 2)
  }

  function Space(t: Tuning, n: nat): nat {
    if n < t.Low() then 0 else LoopSpace(n)
  }

  function USpace(t: Tuning, sa: nat): nat {
    if sa < t.toomu then 0 else 2 * sa + 32 + Space(t, sa / 4 + 4)
  }

  /** Which scratch spaces have no room for two words: those of the sizes below both thresholds. */
  lemma RoomForTwo(t: Tuning, n: nat)
    ensures Space(t, n) < 2 <==> n < t.Low()
  {
  }

  method ToomSpace(t: Tuning, size: nat) returns (sp: nat)
    ensures sp == Space(t, size)
  {
    var n: nat := size;
    if n < t.Low() {
      return 0;
    }
    sp := 19;
    while n >= 8
      invariant sp + LoopSpace(n) == 19 + LoopSpace(size)
    {
      n := n / 3 + 2;
      sp := sp + 8 * (n + 1);
    }
  }

  method ToomUSpace(t: Tuning, sa: nat) returns (sp: nat)
    ensures sp == USpace(t, sa)
  {
    if sa < t.toomu {
      sp := 0;
    } else {
      sp := ToomSpace(t, sa / 4 + 4);
      sp := 2 * sa + 32 + sp;
    }
  }

  // ---------------------------------------------------------------- the recursion is covered

  lemma {:induction false} LoopSpaceMonotone(n: nat, m: nat)
    requires n <= m
    ensures LoopSpace(n) <= LoopSpace(m)
    decreases m
  {
    if n >= 8 {
      LoopSpaceMonotone(n / 3 + 2, m / 3 + 2);
    } else {
      LoopSpaceLower(m);
    }
  }

  /** The space is monotone in the size. */
  lemma SpaceMonotone(t: Tuning, n: nat, m: nat)
    requires n <= m
    ensures Space(t, n) <= Space(t, m)
  {
    LoopSpaceMonotone(n, m);
  }

  lemma {:induction false} LoopSpaceLower(n: nat)
    ensures LoopSpace(n) >= 19 && LoopSpace(n) >= 4 * n - 9
    decreases n
  {
    if n >= 8 {
      LoopSpaceLower(n / 3 + 2);
    }
  }

  /** Words gf2x_mul_kara needs, by its own recursion. */
  function KaraSpace(t: Tuning, n: nat): nat {
    if n < t.kara || n < 5 then 0 else 3 * ((n + 1) / 2) + KaraSpace(t, (n + 1) / 2)
  }

  lemma {:induction false} KaraSpaceUpper(t: Tuning, n: nat)
    requires t.kara >= 5
    ensures KaraSpace(t, n) == 0 || KaraSpace(t, n) <= 4 * n - 9
    decreases n
  {
    if n >= t.kara {
      KaraSpaceUpper(t, (n + 1) / 2);
    }
  }

  lemma {:induction false} KaraSpaceMonotone(t: Tuning, n: nat, m: nat)
    requires n <= m
    ensures KaraSpace(t, n) <= KaraSpace(t, m)
    decreases m
  {
    if n >= t.kara && n >= 5 {
      KaraSpaceMonotone(t, (n + 1) / 2, (m + 1) / 2);
    }
  }

  /** Karatsuba fits at every size. */
  lemma KaraCovered(t: Tuning, n: nat)
    requires t.Valid()
    ensures KaraSpace(t, n) <= Space(t, n)
  {
    KaraSpaceUpper(t, n);
    LoopSpaceLower(n);
  }

  /** TC3W: four temporaries of 2(k+2) words and the space of any of its five
      recursive calls, which have sizes k, r and at most k + 2 - d. */
  lemma Tc3wCovered(t: Tuning, n: nat, m: nat)
    requires t.Valid() && n >= 8
    requires var k := (n + 2) / 3; var r := n - 2 * k; m <= k || m <= k + 2 - (if r < k then 1 else 0)
    ensures m < n
    ensures 8 * ((n + 2) / 3 + 2) + Space(t, m) <= Space(t, n) || n < t.Low()
  {
    assert m <= n / 3 + 2;
    LoopSpaceMonotone(m, n / 3 + 2);
  }

  /** TC3: 5k + 2 words and a recursive call of size k + 1. */
  lemma Tc3Covered(t: Tuning, n: nat, m: nat)
    requires t.Valid() && n >= 17 && m <= (n + 2) / 3 + 1
    ensures m < n && 5 * ((n + 2) / 3) + 2 + Space(t, m) <= Space(t, n)
  {
    LoopSpaceMonotone(m, n / 3 + 2);
  }

  /** TC4: 6k + 2 words and a recursive call of size k + 1. */
  lemma Tc4Covered(t: Tuning, n: nat, m: nat)
    requires t.Valid() && n >= 30 && m <= (n + 3) / 4 + 1
    ensures m < n && 6 * ((n + 3) / 4) + 2 + Space(t, m) <= Space(t, n)
  {
    LoopSpaceMonotone(m, n / 3 + 2);
  }

  // ---------------------------------------------------------------- the bound of the comment

  /** The bound 5n + 43 holds for all n. */
  lemma {:induction false} SpaceBound(t: Tuning, n: nat)
    ensures Space(t, n) <= 5 * n + 43
  {
    LoopSpaceBound(n);
  }

  lemma {:induction false} LoopSpaceBound(n: nat)
    ensures LoopSpace(n) <= 5 * n + 43
    decreases n
  {
    if n >= 24 {
      LoopSpaceBound(n / 3 + 2);
    } else if n >= 8 {
      LoopSpaceSmall(n);
    }
  }

  lemma LoopSpaceSmall(n: nat)
    requires n < 24
    ensures LoopSpace(n) == if n < 8 then 19
      else if n < 18 then 8 * (n / 3 + 3) + 19 else 8 * (n / 3 + 3) + 8 * ((n / 3 + 2) / 3 + 3) + 19
  {
  }

  /** The unbalanced routine never needs more than this, rounded down. */
  lemma UnbalancedBound(t: Tuning, sa: nat)
    ensures 4 * USpace(t, sa) <= 13 * sa + 380
    ensures USpace(t, sa) > 0 <==> t.toomu <= sa
  {
    SpaceBound(t, sa / 4 + 4);
  }

  /** The sizes for which the comment before gf2x_mul_toom promises too little. */
  predicate Exceeds(n: nat) {
    n == 8 || n == 9 || 18 <= n <= 33 || 48 <= n <= 64 || n == 66 || n == 67 || n == 69
  }

  /** The comment's bound 5n + 17 fails for exactly these sizes. */
  lemma {:induction false} CommentBound(t: Tuning, n: nat)
    requires t.Low() <= n && 5 <= n
    ensures Space(t, n) <= 5 * n + 17 <==> !Exceeds(n)
  {
    if n >= 90 {
      LoopSpaceBound(n / 3 + 2);
    } else if n >= 24 {
      CommentBoundSmall(n);
    } else {
      LoopSpaceSmall(n);
    }
  }

  lemma CommentBoundSmall(n: nat)
    requires 24 <= n < 90
    ensures LoopSpace(n) <= 5 * n + 17 <==> !Exceeds(n)
  {
    hide LoopSpace;
    if n < 48 {
      BoundFrom24(n);
    } else if n < 66 {
      BoundFrom48(n);
    } else {
      BoundFrom66(n);
    }
  }

  lemma BoundFrom24(n: nat)
    requires 24 <= n < 48
    ensures LoopSpace(n) <= 5 * n + 17 <==> !Exceeds(n)
  {
    hide LoopSpace;
    LoopSpaceStep(n);
    LoopSpaceStep(n / 3 + 2);
    LoopSpaceSmall((n / 3 + 2) / 3 + 2);
  }

  lemma BoundFrom48(n: nat)
    requires 48 <= n < 66
    ensures LoopSpace(n) <= 5 * n + 17 <==> !Exceeds(n)
  {
    hide LoopSpace;
    LoopSpaceStep(n);
    LoopSpaceStep(n / 3 + 2);
    LoopSpaceSmall((n / 3 + 2) / 3 + 2);
  }

  lemma BoundFrom66(n: nat)
    requires 66 <= n < 90
    ensures LoopSpace(n) <= 5 * n + 17 <==> !Exceeds(n)
  {
    hide LoopSpace;
    LoopSpaceStep(n);
    LoopSpaceStep(n / 3 + 2);
    LoopSpaceSmall((n / 3 + 2) / 3 + 2);
  }

  lemma LoopSpaceStep(n: nat)
    requires n >= 8
    ensures LoopSpace(n) == 8 * (n / 3 + 3) + LoopSpace(n / 3 + 2)
  {
  }
}
