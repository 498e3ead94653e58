/** What the hash tables of both sides have in common, PSI/src/hashing/hashing_util.h. */
module HashingUtil {
  const NUM_HASH_FUNCTIONS: nat := 3
  const DUMMY_ENTRY_SERVER: nat := 0

  // ---------------------------------------------------------------- positions of the bins

  /** Where bin b begins. */
  function StartOf(counts: seq<nat>, b: nat): nat
    requires b <= |counts|
  {
    if b == 0 then 0 else StartOf(counts, b - 1) + counts[b - 1]
  }

  lemma {:induction false} StartMonotone(counts: seq<nat>, b: nat, c: nat)
    requires b <= c <= |counts|
    ensures StartOf(counts, b) <= StartOf(counts, c)
    decreases c
  {
    if b < c {
      StartMonotone(counts, b, c - 1);
    }
  }

  lemma StartZero(counts: seq<nat>)
    ensures StartOf(counts, 0) == 0
  {
  }

  lemma StartNext(counts: seq<nat>, i: nat)
    requires i < |counts|
    ensures StartOf(counts, i + 1) == StartOf(counts, i) + counts[i]
  {
  }

  lemma SameBin(counts: seq<nat>, b: nat, c: nat, p: nat)
    requires b < |counts| && c < |counts| && StartOf(counts, b) <= p < StartOf(counts, b + 1)
      && StartOf(counts, c) <= p < StartOf(counts, c + 1)
    ensures b == c
  {
    hide StartOf;
    if b < c {
      StartMonotone(counts, b + 1, c);
    } else if c < b {
      StartMonotone(counts, c + 1, b);
    }
  }
}
