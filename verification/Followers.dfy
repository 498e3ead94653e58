/** What a follower sends: pairwise shares (Source Files/PsiParty.cpp), their addition to the
    masks (PSI/src/ot-based/ot-psi.cpp) and the placement of the masks in cells
    (Source Files/Followers/SimpleHashingNaiveFollower.cpp). */
module Followers {
  import opened Numbers
  import opened Polynomials
  import opened HashingUtil

  // ---------------------------------------------------------------- pairwise shares

  /** The expansion of the seed that two parties have agreed on, at one bin. */
  type Seeds = (nat, nat) -> Poly

  /** The seed of a pair belongs to both parties. */
  function PairMask(seeds: Seeds, i: nat, j: nat): Poly {
    if i < j then seeds(i, j) else seeds(j, i)
  }

  /** The masks that party i shares with the parties lo to hi - 1. */
  function PairSum(seeds: Seeds, i: nat, lo: nat, hi: nat): Poly
    decreases hi - lo
  {
    if hi <= lo then {} else Add(PairSum(seeds, i, lo, hi - 1), PairMask(seeds, i, hi - 1))
  }

  /** additiveSecretShare: the masks shared with later parties, then those with earlier ones. */
  function ShareOf(seeds: Seeds, n: nat, i: nat): Poly {
    Add(PairSum(seeds, i, i + 1, n + 1), PairSum(seeds, i, 1, i))
  }

  /** The share of party m_partyId at every bin. */
  method AdditiveSecretShare(seeds: nat -> Seeds, n: nat, partyId: nat, numOfBins: nat)
      returns (secretShare: array<Poly>)
    requires 1 <= partyId <= n
    ensures fresh(secretShare) && secretShare.Length == numOfBins
    ensures forall b :: 0 <= b < numOfBins ==> secretShare[b] == ShareOf(seeds(b), n, partyId)
  {
    hide Add, PairMask;
    secretShare := new Poly[numOfBins](b => {});
    for i := partyId + 1 to n + 1
      invariant forall b :: 0 <= b < numOfBins ==> secretShare[b] == PairSum(seeds(b), partyId, partyId + 1, i)
    {
      XorShare(secretShare, b => PairMask(seeds(b), partyId, i));
    }
    for i := 1 to partyId
      invariant forall b :: 0 <= b < numOfBins ==>
        secretShare[b] == Add(PairSum(seeds(b), partyId, partyId + 1, n + 1), PairSum(seeds(b), partyId, 1, i))
    {
      XorShare(secretShare, b => PairMask(seeds(b), partyId, i));
      forall b | 0 <= b < numOfBins
        ensures secretShare[b] == Add(PairSum(seeds(b), partyId, partyId + 1, n + 1),
          PairSum(seeds(b), partyId, 1, i + 1))
      {
        AddAssoc(PairSum(seeds(b), partyId, partyId + 1, n + 1), PairSum(seeds(b), partyId, 1, i),
          PairMask(seeds(b), partyId, i));
      }
    }
  }

  method XorShare(share: array<Poly>, expanded: nat -> Poly)
    modifies share
    ensures forall b :: 0 <= b < share.Length ==> share[b] == Add(old(share[b]), expanded(b))
  {
    hide Add;
    for b := 0 to share.Length
      invariant forall c :: 0 <= c < b ==> share[c] == Add(old(share[c]), expanded(c))
      invariant forall c :: b <= c < share.Length ==> share[c] == old(share[c])
    {
      share[b] := Add(share[b], expanded(b));
    }
  }

  /** The sum of the shares of the first k of n parties. */
  function ShareSum(seeds: Seeds, n: nat, k: nat): Poly {
    if k == 0 then {} else Add(ShareSum(seeds, n, k - 1), ShareOf(seeds, n, k))
  }

  /** One more party adds one mask to every other share. */
  lemma {:induction false} ShareGrows(seeds: Seeds, n: nat, k: nat)
    requires k <= n
    ensures ShareSum(seeds, n + 1, k) == Add(ShareSum(seeds, n, k), PairSum(seeds, n + 1, 1, k + 1))
    decreases k
  {
    hide Add, PairMask;
    if k > 0 {
      ShareGrows(seeds, n, k - 1);
      var a, b := ShareSum(seeds, n, k - 1), PairSum(seeds, n + 1, 1, k);
      var c, d := PairSum(seeds, k, k + 1, n + 1), PairSum(seeds, k, 1, k);
      var m := PairMask(seeds, n + 1, k);
      MaskOfBoth(seeds, k, n + 1);
      assert ShareOf(seeds, n + 1, k) == Add(Add(c, m), d);
      Regroup(a, b, c, d, m);
    }
  }

  lemma MaskOfBoth(seeds: Seeds, i: nat, j: nat)
    ensures PairMask(seeds, i, j) == PairMask(seeds, j, i)
  {
  }

  lemma Regroup(a: Poly, b: Poly, c: Poly, d: Poly, m: Poly)
    ensures Add(Add(a, b), Add(Add(c, m), d)) == Add(Add(a, Add(c, d)), Add(b, m))
  {
    hide Add;
  }

  /** The shares of all parties add up to zero, for any number of parties. */
  lemma {:induction false} SharesCancel(seeds: Seeds, n: nat)
    ensures ShareSum(seeds, n, n) == {}
    decreases n
  {
    hide Add, PairMask;
    if n > 0 {
      SharesCancel(seeds, n - 1);
      ShareGrows(seeds, n - 1, n - 1);
      var own := PairSum(seeds, n, 1, n);
      assert ShareOf(seeds, n, n) == own by {
        assert PairSum(seeds, n, n + 1, n + 1) == {};
        NoneAdded(own);
      }
      NoneAdded(own);
      SelfCancel(own);
    }
  }

  lemma NoneAdded(P: Poly)
    ensures Add({}, P) == P == Add(P, {})
  {
    hide Add;
  }

  lemma SelfCancel(P: Poly)
    ensures Add(P, P) == {}
  {
    hide Add;
  }

  // ---------------------------------------------------------------- masks and shares

  /** The masks of the first n bins have been xored with the share of their bin. */
  ghost predicate Xored(before: seq<Poly>, after: seq<Poly>, share: seq<Poly>, counts: seq<nat>, n: nat) {
    && |before| == |after| && n <= |counts| && |counts| <= |share| && StartOf(counts, |counts|) <= |before|
    && (forall b: nat, p: nat | b < n && StartOf(counts, b) <= p < StartOf(counts, b + 1) && p < |before| ::
          after[p] == Add(before[p], share[b]))
    && (forall p :: StartOf(counts, n) <= p < |before| ==> after[p] == before[p])
  }

  /** xor_masks. */
  method XorMasks(masks: array<Poly>, secretShare: seq<Poly>, counts: seq<nat>)
    requires |counts| <= |secretShare| && StartOf(counts, |counts|) <= masks.Length
    modifies masks
    ensures Xored(old(masks[..]), masks[..], secretShare, counts, |counts|)
  {
    hide StartOf, Add;
    var k: nat := 0;
    ghost var before := masks[..];
    StartZero(counts);
    for i := 0 to |counts|
      invariant k == StartOf(counts, i) && Xored(before, masks[..], secretShare, counts, i)
    {
      StartNext(counts, i);
      StartMonotone(counts, i + 1, |counts|);
      ghost var s := masks[..];
      for j := 0 to counts[i]
        invariant k == StartOf(counts, i) + j
        invariant forall p :: 0 <= p < masks.Length ==>
          masks[p] == if StartOf(counts, i) <= p < k then Add(s[p], secretShare[i]) else s[p]
      {
        masks[k] := Add(masks[k], secretShare[i]);
        k := k + 1;
      }
      XoredNext(before, s, masks[..], secretShare, counts, i);
    }
  }

  lemma XoredNext(before: seq<Poly>, s: seq<Poly>, t: seq<Poly>, share: seq<Poly>, counts: seq<nat>, i: nat)
    requires i < |counts| && Xored(before, s, share, counts, i) && |t| == |s|
    requires forall p :: 0 <= p < |s|
               ==> t[p] == if StartOf(counts, i) <= p < StartOf(counts, i + 1) then Add(s[p], share[i]) else s[p]
    ensures Xored(before, t, share, counts, i + 1)
  {
    hide StartOf, Add;
    forall b: nat, p: nat | b < i + 1 && StartOf(counts, b) <= p < StartOf(counts, b + 1) && p < |before|
      ensures t[p] == Add(before[p], share[b])
    {
      if b < i {
        StartMonotone(counts, b + 1, i);
      }
    }
    StartNext(counts, i);
  }

  // ---------------------------------------------------------------- the bits of a share

  /** The other parties, of those from lo to hi - 1, whose common mask with party i has bit x. */
  function MaskWith(seeds: Seeds, i: nat, x: nat, lo: nat, hi: nat): set<nat> {
    set j: nat | lo <= j < hi && j != i && x in seeds(Min(i, j), Max(i, j))
  }

  lemma {:induction false} PairSumBits(seeds: Seeds, i: nat, x: nat, lo: nat, hi: nat)
    requires !(lo <= i < hi)
    ensures x in PairSum(seeds, i, lo, hi) <==> |MaskWith(seeds, i, x, lo, hi)| % 2 == 1
    decreases hi
  {
    hide Add, PairMask, MaskWith;
    if lo < hi {
      PairSumBits(seeds, i, x, lo, hi - 1);
      var s, t := MaskWith(seeds, i, x, lo, hi - 1), MaskWith(seeds, i, x, lo, hi);
      NextMask(seeds, i, x, lo, hi);
      ParityStep(PairSum(seeds, i, lo, hi - 1), PairMask(seeds, i, hi - 1), x, s, t, hi - 1);
    } else {
      NoMask(seeds, i, x, lo, hi);
    }
  }

  lemma NoMask(seeds: Seeds, i: nat, x: nat, lo: nat, hi: nat)
    requires hi <= lo
    ensures |MaskWith(seeds, i, x, lo, hi)| % 2 == 0
  {
    ParityNone(MaskWith(seeds, i, x, lo, hi));
  }

  lemma NextMask(seeds: Seeds, i: nat, x: nat, lo: nat, hi: nat)
    requires lo < hi && i != hi - 1
    ensures hi - 1 !in MaskWith(seeds, i, x, lo, hi - 1)
    ensures MaskWith(seeds, i, x, lo, hi) == if x in PairMask(seeds, i, hi - 1)
                                             then MaskWith(seeds, i, x, lo, hi - 1) + {hi - 1}
                                             else MaskWith(seeds, i, x, lo, hi - 1)
  {
  }

  /** A bit is in the share of party i of n if and only if it is in an odd number of the masks that i shares with one
      of the other parties. */
  lemma ShareBits(seeds: Seeds, n: nat, i: nat, x: nat)
    requires 1 <= i <= n
    ensures x in ShareOf(seeds, n, i)
      <==> |set j: nat | 1 <= j <= n && j != i && x in seeds(Min(i, j), Max(i, j))| % 2 == 1
  {
    hide Add, PairSum;
    PairSumBits(seeds, i, x, i + 1, n + 1);
    PairSumBits(seeds, i, x, 1, i);
    var s, t := MaskWith(seeds, i, x, i + 1, n + 1), MaskWith(seeds, i, x, 1, i);
    assert s * t == {};
    ParitySum(PairSum(seeds, i, i + 1, n + 1), PairSum(seeds, i, 1, i), x, s, t);
    assert (set j: nat | 1 <= j <= n && j != i && x in seeds(Min(i, j), Max(i, j))) == s + t;
  }

  // ---------------------------------------------------------------- cells

  /** How many of the entries lo to p - 1 come from hash function h. */
  function Occurs(ids: seq<nat>, lo: nat, p: nat, h: nat): nat
    requires p <= |ids|
    decreases p
  {
    if p <= lo then 0 else Occurs(ids, lo, p - 1, h) + (if ids[p - 1] % NUM_HASH_FUNCTIONS == h then 1 else 0)
  }

  lemma {:induction false} OccursMonotone(ids: seq<nat>, lo: nat, p: nat, q: nat, h: nat)
    requires lo <= p <= q <= |ids|
    ensures Occurs(ids, lo, p, h) <= Occurs(ids, lo, q, h)
    ensures p < q && ids[p] % NUM_HASH_FUNCTIONS == h ==> Occurs(ids, lo, p, h) < Occurs(ids, lo, q, h)
    decreases q
  {
    if p < q {
      OccursMonotone(ids, lo, p, q - 1, h);
    }
  }

  /** Slot s of the cell of bin b and hash function h, in the order in which the cells are sent. */
  function CellIndex(nbins: nat, maxBinSize: nat, h: nat, b: nat, s: nat): nat {
    Below(Below(h, nbins) + b, maxBinSize) + s
  }

  function Below(a: nat, n: nat): nat {
    NonNegative(a, n);
    a * n
  }

  lemma BelowOrder(a: nat, b: nat, n: nat)
    requires a < b
    ensures Below(a, n) + n <= Below(b, n)
  {
    assert b * n == a * n + n + (b - a - 1) * n;
    NonNegative(b - a - 1, n);
  }

  /** A slot counted from the beginning of its buffer. */
  lemma BufferOf(nbins: nat, maxBinSize: nat, h: nat, b: nat, s: nat)
    ensures CellIndex(nbins, maxBinSize, h, b, s) == Below(h, Below(nbins, maxBinSize)) + Below(b, maxBinSize) + s
  {
    assert (h * nbins + b) * maxBinSize == h * (nbins * maxBinSize) + b * maxBinSize;
  }

  /** Slots in the buffers of different hash functions are different. */
  lemma BuffersApart(nbins: nat, maxBinSize: nat, h: nat, b: nat, s: nat, h': nat, b': nat, s': nat)
    requires Below(b, maxBinSize) + s < Below(nbins, maxBinSize)
      && Below(b', maxBinSize) + s' < Below(nbins, maxBinSize)
    requires h < h'
    ensures CellIndex(nbins, maxBinSize, h, b, s) < CellIndex(nbins, maxBinSize, h', b', s')
  {
    hide Below, CellIndex;
    BufferOf(nbins, maxBinSize, h, b, s);
    BufferOf(nbins, maxBinSize, h', b', s');
    BelowOrder(h, h', Below(nbins, maxBinSize));
  }

  lemma CellBound(nbins: nat, maxBinSize: nat, h: nat, b: nat, s: nat)
    requires Below(b, maxBinSize) + s < Below(nbins, maxBinSize) && h < NUM_HASH_FUNCTIONS
    ensures CellIndex(nbins, maxBinSize, h, b, s) < CellIndex(nbins, maxBinSize, NUM_HASH_FUNCTIONS, 0, 0)
  {
    BufferOf(nbins, maxBinSize, h, b, s);
    BufferOf(nbins, maxBinSize, NUM_HASH_FUNCTIONS, 0, 0);
    hide CellIndex;
    assert Below(0, maxBinSize) == 0;
    hide Below;
    BelowOrder(h, NUM_HASH_FUNCTIONS, Below(nbins, maxBinSize));
  }

  /** The bin of position p of the flattened table. */
  function BinOf(counts: seq<nat>, n: nat, p: nat): (b: nat)
    requires n <= |counts| && p < StartOf(counts, n)
    ensures b < n && StartOf(counts, b) <= p < StartOf(counts, b + 1)
  {
    if p >= StartOf(counts, n - 1) then n - 1 else BinOf(counts, n - 1, p)
  }

  /** The slot of the mask at position p of bin b. */
  function SlotOf(ids: seq<nat>, counts: seq<nat>, b: nat, p: nat): nat
    requires b <= |counts| && p < |ids|
  {
    Occurs(ids, StartOf(counts, b), p, ids[p] % NUM_HASH_FUNCTIONS)
  }

  /** Where the mask at position p is written: in its own cell as long as that has room, behind it otherwise. */
  function Target(ids: seq<nat>, counts: seq<nat>, maxBinSize: nat, p: nat): nat
    requires p < StartOf(counts, |counts|) <= |ids|
  {
    var b := BinOf(counts, |counts|, p);
    CellIndex(|counts|, maxBinSize, ids[p] % NUM_HASH_FUNCTIONS, b, SlotOf(ids, counts, b, p))
  }

  /** No write leaves the buffer of its hash function. */
  ghost predicate InBuffers(ids: seq<nat>, counts: seq<nat>, maxBinSize: nat) {
    && StartOf(counts, |counts|) <= |ids|
    && forall p: nat | p < StartOf(counts, |counts|) :: InBuffer(ids, counts, maxBinSize, p)
  }

  predicate InBuffer(ids: seq<nat>, counts: seq<nat>, maxBinSize: nat, p: nat)
    requires p < StartOf(counts, |counts|) <= |ids|
  {
    var b := BinOf(counts, |counts|, p);
    Below(b, maxBinSize) + SlotOf(ids, counts, b, p) < Below(|counts|, maxBinSize)
  }

  /** None of the positions up to last - 1 writes over the mask at position p. */
  ghost predicate Newest(ids: seq<nat>, counts: seq<nat>, maxBinSize: nat, p: nat, last: nat)
    requires p < last <= StartOf(counts, |counts|) <= |ids|
  {
    forall q | p < q < last :: Target(ids, counts, maxBinSize, q) != Target(ids, counts, maxBinSize, p)
  }

  ghost predicate Written(ids: seq<nat>, counts: seq<nat>, maxBinSize: nat, c: nat, last: nat)
    requires last <= StartOf(counts, |counts|) <= |ids|
  {
    exists p: nat | p < last :: Target(ids, counts, maxBinSize, p) == c
  }

  /** What the masks up to position last - 1 leave of the buffers: every slot holds the last mask written there, or what
      it held before. */
  ghost predicate MasksPlaced(start: seq<Poly>, cells: seq<Poly>, masks: seq<Poly>, ids: seq<nat>, counts: seq<nat>,
                              maxBinSize: nat, last: nat) {
    && |cells| == |start| && last <= StartOf(counts, |counts|) <= |ids| && StartOf(counts, |counts|) <= |masks|
    && (forall p: nat | p < last && Newest(ids, counts, maxBinSize, p, last) ::
          var c := Target(ids, counts, maxBinSize, p); c < |cells| && cells[c] == masks[p])
    && (forall c: nat | c < |cells| && !Written(ids, counts, maxBinSize, c, last) :: cells[c] == start[c])
  }

  /** The placement loop of SimpleHashingNaiveFollower::run; random holds the buffers of the hash
      functions in the order in which they are sent. */
  method PlaceMasks(random: array<Poly>, masks: seq<Poly>, ids: seq<nat>, counts: seq<nat>, maxBinSize: nat)
    requires random.Length == CellIndex(|counts|, maxBinSize, NUM_HASH_FUNCTIONS, 0, 0)
    requires InBuffers(ids, counts, maxBinSize) && StartOf(counts, |counts|) <= |masks|
    modifies random
    ensures MasksPlaced(old(random[..]), random[..], masks, ids, counts, maxBinSize, StartOf(counts, |counts|))
  {
    hide StartOf, Occurs, MasksPlaced, InBuffers, CellIndex;
    ghost var start := random[..];
    var progress: nat := 0;
    var counter := new nat[NUM_HASH_FUNCTIONS];
    StartZero(counts);
    NothingPlaced(start, masks, ids, counts, maxBinSize);
    for k := 0 to |counts|
      invariant progress == StartOf(counts, k)
      invariant MasksPlaced(start, random[..], masks, ids, counts, maxBinSize, progress)
    {
      PlaceBin(random, masks, ids, counts, maxBinSize, k, progress, counter, start);
      StartNext(counts, k);
      progress := progress + counts[k];
    }
  }

  lemma NothingPlaced(cells: seq<Poly>, masks: seq<Poly>, ids: seq<nat>, counts: seq<nat>, maxBinSize: nat)
    requires InBuffers(ids, counts, maxBinSize) && StartOf(counts, |counts|) <= |masks|
    ensures MasksPlaced(cells, cells, masks, ids, counts, maxBinSize, 0)
  {
    hide StartOf, Target;
  }

  method PlaceBin(random: array<Poly>, masks: seq<Poly>, ids: seq<nat>, counts: seq<nat>, maxBinSize: nat, k: nat,
                  progress: nat, counter: array<nat>, ghost start: seq<Poly>)
    requires NUM_HASH_FUNCTIONS == counter.Length
      && random.Length == CellIndex(|counts|, maxBinSize, NUM_HASH_FUNCTIONS, 0, 0)
    requires k < |counts| && progress == StartOf(counts, k)
    requires InBuffers(ids, counts, maxBinSize)
    requires MasksPlaced(start, random[..], masks, ids, counts, maxBinSize, progress)
    modifies random, counter
    ensures MasksPlaced(start, random[..], masks, ids, counts, maxBinSize, StartOf(counts, k + 1))
  {
    hide StartOf, Occurs, MasksPlaced, InBuffers, CellIndex, Target;
    ghost var before := random[..];
    for i := 0 to NUM_HASH_FUNCTIONS
      modifies counter
      invariant random[..] == before
      invariant forall h :: 0 <= h < i ==> counter[h] == 0
    {
      counter[i] := 0;
    }
    StartNext(counts, k);
    StartMonotone(counts, k + 1, |counts|);
    Enough(start, random[..], masks, ids, counts, maxBinSize, progress);
    NoneYet(ids, progress);
    for i := 0 to counts[k]
      invariant forall h :: 0 <= h < NUM_HASH_FUNCTIONS ==> counter[h] == Occurs(ids, progress, progress + i, h)
      invariant MasksPlaced(start, random[..], masks, ids, counts, maxBinSize, progress + i)
    {
      var hashIndex := ids[progress + i] % NUM_HASH_FUNCTIONS;
      TargetIs(ids, counts, maxBinSize, k, progress + i);
      var cell := CellIndex(|counts|, maxBinSize, hashIndex, k, counter[hashIndex]);
      before := random[..];
      random[cell] := masks[progress + i];
      assert random[..] == before[cell := masks[progress + i]];
      PlacedOne(start, before, masks, ids, counts, maxBinSize, progress + i);
      OccursNext(ids, progress, progress + i);
      counter[hashIndex] := counter[hashIndex] + 1;
    }
  }

  lemma Enough(start: seq<Poly>, cells: seq<Poly>, masks: seq<Poly>, ids: seq<nat>, counts: seq<nat>, maxBinSize: nat,
               last: nat)
    requires MasksPlaced(start, cells, masks, ids, counts, maxBinSize, last)
    ensures StartOf(counts, |counts|) <= |ids| && StartOf(counts, |counts|) <= |masks|
  {
    hide StartOf, Target;
  }

  lemma NoneYet(ids: seq<nat>, lo: nat)
    requires lo <= |ids|
    ensures forall h :: 0 <= h < NUM_HASH_FUNCTIONS ==> Occurs(ids, lo, lo, h) == 0
  {
  }

  lemma OccursNext(ids: seq<nat>, lo: nat, p: nat)
    requires lo <= p < |ids|
    ensures forall h :: 0 <= h < NUM_HASH_FUNCTIONS ==>
      Occurs(ids, lo, p + 1, h) == Occurs(ids, lo, p, h) + (if ids[p] % NUM_HASH_FUNCTIONS == h then 1 else 0)
  {
  }

  lemma TargetIs(ids: seq<nat>, counts: seq<nat>, maxBinSize: nat, k: nat, p: nat)
    requires InBuffers(ids, counts, maxBinSize) && k < |counts| && StartOf(counts, k) <= p < StartOf(counts, k + 1)
    ensures p < StartOf(counts, |counts|) <= |ids|
    ensures Target(ids, counts, maxBinSize, p)
      == CellIndex(|counts|, maxBinSize, ids[p] % NUM_HASH_FUNCTIONS, k, SlotOf(ids, counts, k, p))
    ensures Target(ids, counts, maxBinSize, p) < CellIndex(|counts|, maxBinSize, NUM_HASH_FUNCTIONS, 0, 0)
  {
    hide StartOf, Occurs, Below, CellIndex, SlotOf;
    StartMonotone(counts, k + 1, |counts|);
    SameBin(counts, k, BinOf(counts, |counts|, p), p);
    assert InBuffer(ids, counts, maxBinSize, p);
    CellBound(|counts|, maxBinSize, ids[p] % NUM_HASH_FUNCTIONS, k, SlotOf(ids, counts, k, p));
  }

  lemma PlacedOne(start: seq<Poly>, cells: seq<Poly>, masks: seq<Poly>, ids: seq<nat>, counts: seq<nat>,
                  maxBinSize: nat, q: nat)
    requires q < StartOf(counts, |counts|) <= |ids| && MasksPlaced(start, cells, masks, ids, counts, maxBinSize, q)
    requires Target(ids, counts, maxBinSize, q) < |cells|
    ensures q < |masks|
    ensures MasksPlaced(start, cells[Target(ids, counts, maxBinSize, q) := masks[q]], masks, ids, counts, maxBinSize,
      q + 1)
  {
    hide StartOf, Target, Newest, Written;
    var cells' := cells[Target(ids, counts, maxBinSize, q) := masks[q]];
    forall p: nat | p < q + 1 && Newest(ids, counts, maxBinSize, p, q + 1)
      ensures Target(ids, counts, maxBinSize, p) < |cells'| && cells'[Target(ids, counts, maxBinSize, p)] == masks[p]
    {
      if p < q {
        StillNewest(ids, counts, maxBinSize, p, q);
      }
    }
    forall c: nat | c < |cells'| && !Written(ids, counts, maxBinSize, c, q + 1)
      ensures cells'[c] == start[c]
    {
      NotWritten(ids, counts, maxBinSize, c, q);
    }
  }

  lemma StillNewest(ids: seq<nat>, counts: seq<nat>, maxBinSize: nat, p: nat, q: nat)
    requires p < q < StartOf(counts, |counts|) <= |ids| && Newest(ids, counts, maxBinSize, p, q + 1)
    ensures Newest(ids, counts, maxBinSize, p, q)
    ensures Target(ids, counts, maxBinSize, q) != Target(ids, counts, maxBinSize, p)
  {
    hide StartOf, Target;
  }

  lemma NotWritten(ids: seq<nat>, counts: seq<nat>, maxBinSize: nat, c: nat, q: nat)
    requires q < StartOf(counts, |counts|) <= |ids| && !Written(ids, counts, maxBinSize, c, q + 1)
    ensures !Written(ids, counts, maxBinSize, c, q) && Target(ids, counts, maxBinSize, q) != c
  {
    hide StartOf, Target;
  }

  /** A mask for which its own cell has room is never written over, however many masks the other cells get. */
  lemma SeatedNewest(ids: seq<nat>, counts: seq<nat>, maxBinSize: nat, b: nat, p: nat)
    requires InBuffers(ids, counts, maxBinSize) && b < |counts| && StartOf(counts, b) <= p < StartOf(counts, b + 1)
    requires p < |ids| && SlotOf(ids, counts, b, p) < maxBinSize
    ensures p < StartOf(counts, |counts|) && Newest(ids, counts, maxBinSize, p, StartOf(counts, |counts|))
  {
    hide StartOf, Occurs, Below, CellIndex, SlotOf, Target;
    TargetIs(ids, counts, maxBinSize, b, p);
    forall q | p < q < StartOf(counts, |counts|)
      ensures Target(ids, counts, maxBinSize, q) != Target(ids, counts, maxBinSize, p)
    {
      LaterTarget(ids, counts, maxBinSize, b, p, q);
    }
  }

  lemma LaterTarget(ids: seq<nat>, counts: seq<nat>, maxBinSize: nat, b: nat, p: nat, q: nat)
    requires InBuffers(ids, counts, maxBinSize) && b < |counts| && StartOf(counts, b) <= p < StartOf(counts, b + 1)
    requires p < q < StartOf(counts, |counts|) && SlotOf(ids, counts, b, p) < maxBinSize
    ensures Target(ids, counts, maxBinSize, q) != Target(ids, counts, maxBinSize, p)
  {
    hide StartOf, Occurs, Below, CellIndex, SlotOf;
    SameBin(counts, b, BinOf(counts, |counts|, p), p);
    if Target(ids, counts, maxBinSize, q) == Target(ids, counts, maxBinSize, p) {
      WrittenOver(ids, counts, maxBinSize, p, q);
      var c, h := BinOf(counts, |counts|, q), ids[p] % NUM_HASH_FUNCTIONS;
      BufferOf(|counts|, maxBinSize, h, b, SlotOf(ids, counts, b, p));
      BufferOf(|counts|, maxBinSize, h, c, SlotOf(ids, counts, c, q));
      BelowOrder(b, c, maxBinSize);
    }
  }

  /** A mask can only be written over by one of the same hash function and a later bin. */
  lemma WrittenOver(ids: seq<nat>, counts: seq<nat>, maxBinSize: nat, p: nat, q: nat)
    requires InBuffers(ids, counts, maxBinSize) && p < q < StartOf(counts, |counts|)
    requires Target(ids, counts, maxBinSize, q) == Target(ids, counts, maxBinSize, p)
    ensures ids[q] % NUM_HASH_FUNCTIONS == ids[p] % NUM_HASH_FUNCTIONS
    ensures BinOf(counts, |counts|, p) < BinOf(counts, |counts|, q)
  {
    hide StartOf, Occurs, Below, CellIndex, SlotOf;
    var n, b, c := |counts|, BinOf(counts, |counts|, p), BinOf(counts, |counts|, q);
    var h, h' := ids[p] % NUM_HASH_FUNCTIONS, ids[q] % NUM_HASH_FUNCTIONS;
    assert InBuffer(ids, counts, maxBinSize, p) && InBuffer(ids, counts, maxBinSize, q);
    var s, s' := SlotOf(ids, counts, b, p), SlotOf(ids, counts, c, q);
    if h < h' {
      BuffersApart(n, maxBinSize, h, b, s, h', c, s');
    } else if h' < h {
      BuffersApart(n, maxBinSize, h', c, s', h, b, s);
    } else if c < b {
      StartMonotone(counts, c + 1, b);
    } else if b == c {
      BufferOf(n, maxBinSize, h, b, s);
      BufferOf(n, maxBinSize, h, c, s');
      LaterSlot(ids, counts, b, p, q);
    }
  }

  /** A mask for which its own cell has no room goes to a slot of a later bin's cell. */
  lemma Displaced(ids: seq<nat>, counts: seq<nat>, maxBinSize: nat, b: nat, p: nat) returns (c: nat, s: nat)
    requires InBuffers(ids, counts, maxBinSize) && b < |counts| && StartOf(counts, b) <= p < StartOf(counts, b + 1)
    requires p < |ids| && maxBinSize <= SlotOf(ids, counts, b, p)
    ensures p < StartOf(counts, |counts|) && b < c < |counts| && s < maxBinSize
    ensures Target(ids, counts, maxBinSize, p) == CellIndex(|counts|, maxBinSize, ids[p] % NUM_HASH_FUNCTIONS, c, s)
  {
    hide StartOf, Occurs, CellIndex, SlotOf;
    TargetIs(ids, counts, maxBinSize, b, p);
    SameBin(counts, b, BinOf(counts, |counts|, p), p);
    assert InBuffer(ids, counts, maxBinSize, p);
    var n, h, t := |counts|, ids[p] % NUM_HASH_FUNCTIONS, SlotOf(ids, counts, b, p);
    c, s := CellReached(n, maxBinSize, b, t);
    hide Below;
    BufferOf(n, maxBinSize, h, b, t);
    BufferOf(n, maxBinSize, h, c, s);
  }

  lemma CellReached(n: nat, m: nat, b: nat, t: nat) returns (c: nat, s: nat)
    requires m <= t && Below(b, m) + t < Below(n, m)
    ensures b < c < n && s < m && Below(b, m) + t == Below(c, m) + s
  {
    assert 0 < m by {
      assert n * 0 == 0;
    }
    c, s := b + t / m, t % m;
    assert t == t / m * m + s;
    assert c * m == b * m + t / m * m;
    hide Below;
    if n < c {
      BelowOrder(n, c, m);
    }
  }

  lemma LaterSlot(ids: seq<nat>, counts: seq<nat>, k: nat, p: nat, q: nat)
    requires k < |counts| && StartOf(counts, k) <= p < q < |ids|
      && ids[p] % NUM_HASH_FUNCTIONS == ids[q] % NUM_HASH_FUNCTIONS
    ensures SlotOf(ids, counts, k, p) < SlotOf(ids, counts, k, q)
  {
    hide StartOf, Occurs;
    OccursMonotone(ids, StartOf(counts, k), p, q, ids[p] % NUM_HASH_FUNCTIONS);
  }
}
