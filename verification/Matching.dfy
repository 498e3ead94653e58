/** The matching of the multi-party protocol from end to end (Source Files/PsiParty.cpp,
    Leaders/Leader.cpp, Leaders/SimpleHashingNaiveLeader.cpp): hashing by all parties, the masks of the
    followers, and the search of the leader.  The oblivious pseudorandom function and the
    generator behind the pairwise shares are arbitrary functions. */
module Matching {
  import opened Numbers
  import opened Polynomials
  import opened Residues
  import opened HashingUtil
  import opened SimpleHashing
  import opened Followers
  import C = Cuckoo
  import L = Leaders

  /** The mask that the oblivious pseudorandom function gives for a value in a bin. */
  type Oprf = (nat, nat) -> Poly

  // ---------------------------------------------------------------- a follower

  ghost function CountsOf(hashes: seq<Hashed>, nbins: nat): (c: seq<nat>)
    requires HashesOk(hashes, nbins)
    ensures |c| == nbins && forall b: nat :: b < nbins ==> c[b] == |Content(hashes, nbins, b, 0, |hashes|)|
  {
    seq(nbins, b requires 0 <= b < nbins => |Content(hashes, nbins, b, 0, |hashes|)|)
  }

  ghost function IdsOf(hashes: seq<Hashed>, nbins: nat): (c: seq<nat>)
    requires HashesOk(hashes, nbins)
    ensures |c| == |Table(hashes, nbins, nbins)|
      && forall p :: 0 <= p < |c| ==> c[p] == Code(Table(hashes, nbins, nbins)[p])
  {
    seq(|Table(hashes, nbins, nbins)|, p requires 0 <= p < |Table(hashes, nbins, nbins)|
      => Code(Table(hashes, nbins, nbins)[p]))
  }

  /** How many of the first n elements hash function h sends to bin b. */
  function Sharing(hashes: seq<Hashed>, nbins: nat, b: nat, h: nat, n: nat): nat
    requires HashesOk(hashes, nbins) && h < NUM_HASH_FUNCTIONS && n <= |hashes|
  {
    if n == 0 then 0
    else Sharing(hashes, nbins, b, h, n - 1) + (if hashes[n - 1].address[h] == b then 1 else 0)
  }

  /** The slot for the entry of element e and hash function h: the elements before it that share the cell come first. */
  function SlotAt(hashes: seq<Hashed>, nbins: nat, e: nat, h: nat): nat
    requires HashesOk(hashes, nbins) && e < |hashes| && h < NUM_HASH_FUNCTIONS
  {
    Sharing(hashes, nbins, hashes[e].address[h], h, e)
  }

  /** ... as many as there are. */
  lemma {:induction false} SharingIsCount(hashes: seq<Hashed>, nbins: nat, b: nat, h: nat, n: nat)
    requires HashesOk(hashes, nbins) && h < NUM_HASH_FUNCTIONS && n <= |hashes|
    ensures Sharing(hashes, nbins, b, h, n) == |set f: nat | f < n && hashes[f].address[h] == b|
    decreases n
  {
    var t := set f: nat | f < n && hashes[f].address[h] == b;
    if n == 0 {
      assert t == {};
    } else {
      SharingIsCount(hashes, nbins, b, h, n - 1);
      var s := set f: nat | f < n - 1 && hashes[f].address[h] == b;
      assert t == if hashes[n - 1].address[h] == b then s + {n - 1} else s;
    }
  }

  /** No cell of a follower gets more masks than it has slots. */
  ghost predicate CellsSuffice(hashes: seq<Hashed>, nbins: nat, maxBinSize: nat) {
    && HashesOk(hashes, nbins)
    && forall e: nat, h: nat | e < |hashes| && h < NUM_HASH_FUNCTIONS :: SlotAt(hashes, nbins, e, h) < maxBinSize
  }

  /** Cells may overflow into the cells of later bins, but not out of the buffers. */
  ghost predicate BuffersSuffice(hashes: seq<Hashed>, nbins: nat, maxBinSize: nat) {
    && HashesOk(hashes, nbins)
    && forall e: nat, h: nat | e < |hashes| && h < NUM_HASH_FUNCTIONS ::
      Below(hashes[e].address[h], maxBinSize) + SlotAt(hashes, nbins, e, h) < Below(nbins, maxBinSize)
  }

  lemma CellsInBuffers(hashes: seq<Hashed>, nbins: nat, maxBinSize: nat)
    requires CellsSuffice(hashes, nbins, maxBinSize)
    ensures BuffersSuffice(hashes, nbins, maxBinSize)
  {
    hide Below, Sharing;
    forall e: nat, h: nat | e < |hashes| && h < NUM_HASH_FUNCTIONS
      ensures Below(hashes[e].address[h], maxBinSize) + SlotAt(hashes, nbins, e, h) < Below(nbins, maxBinSize)
    {
      BelowOrder(hashes[e].address[h], nbins, maxBinSize);
    }
  }

  lemma StartIsTable(hashes: seq<Hashed>, nbins: nat, b: nat)
    requires HashesOk(hashes, nbins) && b <= nbins
    ensures StartOf(CountsOf(hashes, nbins), b) == |Table(hashes, nbins, b)|
  {
    hide Content, Table, StartOf;
    TableStart(hashes, nbins, CountsOf(hashes, nbins), b);
  }

  /** Some slot of the cell of hash function h and bin b holds v. */
  ghost predicate HasSlot(cells: seq<Poly>, nbins: nat, maxBinSize: nat, h: nat, b: nat, v: Poly) {
    exists s: nat :: s < maxBinSize && CellIndex(nbins, maxBinSize, h, b, s) < |cells|
      && cells[CellIndex(nbins, maxBinSize, h, b, s)] == v
  }

  ghost predicate HoldsAt(cells: seq<Poly>, c: nat, v: Poly) {
    c < |cells| && cells[c] == v
  }

  /** The mask that element e sends for hash function h: that of its value in the bin, xored with the share of the bin,
      or
      that of the dummy value if an earlier hash function leads to the same bin. */
  ghost function MaskOf(hashes: seq<Hashed>, nbins: nat, e: nat, h: nat, oprf: Oprf, share: seq<Poly>): Poly
    requires HashesOk(hashes, nbins) && |share| == nbins && e < |hashes| && h < NUM_HASH_FUNCTIONS
  {
    var b := hashes[e].address[h];
    Add(oprf(b, if C.FirstHash(hashes[e].address, b, h) then hashes[e].value else DUMMY_ENTRY_SERVER), share[b])
  }

  /** Where the mask of element e for hash function h is written. */
  function Spot(hashes: seq<Hashed>, nbins: nat, maxBinSize: nat, e: nat, h: nat): nat
    requires HashesOk(hashes, nbins) && e < |hashes| && h < NUM_HASH_FUNCTIONS
  {
    CellIndex(nbins, maxBinSize, h, hashes[e].address[h], SlotAt(hashes, nbins, e, h))
  }

  /** An element of a later bin has its mask for the same hash function written to the same place. */
  ghost predicate Overwritten(hashes: seq<Hashed>, nbins: nat, maxBinSize: nat, e: nat, h: nat)
    requires HashesOk(hashes, nbins) && e < |hashes| && h < NUM_HASH_FUNCTIONS
  {
    exists f: nat :: f < |hashes| && hashes[e].address[h] < hashes[f].address[h]
                     && Spot(hashes, nbins, maxBinSize, f, h) == Spot(hashes, nbins, maxBinSize, e, h)
  }

  /** All that is in the cells: the masks, of which one for which there is room is never written over, and the noise in
      the places where no mask is written. */
  ghost predicate CellsHold(noise: seq<Poly>, cells: seq<Poly>, hashes: seq<Hashed>, nbins: nat, maxBinSize: nat,
                            oprf: Oprf, share: seq<Poly>)
    requires HashesOk(hashes, nbins) && |share| == nbins
  {
    && |cells| == |noise| == CellIndex(nbins, maxBinSize, NUM_HASH_FUNCTIONS, 0, 0)
    && (forall e: nat, h: nat |
          e < |hashes| && h < NUM_HASH_FUNCTIONS && SlotAt(hashes, nbins, e, h) < maxBinSize ::
          HoldsAt(cells, Spot(hashes, nbins, maxBinSize, e, h), MaskOf(hashes, nbins, e, h, oprf, share)))
    && (forall e: nat, h: nat |
          e < |hashes| && h < NUM_HASH_FUNCTIONS && !Overwritten(hashes, nbins, maxBinSize, e, h) ::
          HoldsAt(cells, Spot(hashes, nbins, maxBinSize, e, h), MaskOf(hashes, nbins, e, h, oprf, share)))
    && (forall c: nat | c < |cells| && NoSpot(hashes, nbins, maxBinSize, c) :: cells[c] == noise[c])
  }

  ghost predicate NoSpot(hashes: seq<Hashed>, nbins: nat, maxBinSize: nat, c: nat)
    requires HashesOk(hashes, nbins)
  {
    forall e: nat, h: nat | e < |hashes| && h < NUM_HASH_FUNCTIONS :: Spot(hashes, nbins, maxBinSize, e, h) != c
  }

  /** The entries of the first n bins have their masks. */
  ghost predicate Masked(masks: seq<Poly>, res: seq<nat>, counts: seq<nat>, oprf: Oprf, n: nat) {
    && |masks| == |res| && n <= |counts|
    && forall b: nat, p: nat | b < n && StartOf(counts, b) <= p < StartOf(counts, b + 1)
    && p < |res| :: masks[p] == oprf(b, res[p])
  }

  lemma MaskedNext(s: seq<Poly>, t: seq<Poly>, res: seq<nat>, counts: seq<nat>, oprf: Oprf, i: nat)
    requires i < |counts| && Masked(s, res, counts, oprf, i) && |t| == |s|
    requires forall p :: 0 <= p < |s|
               ==> t[p] == if StartOf(counts, i) <= p < StartOf(counts, i + 1) then oprf(i, res[p]) else s[p]
    ensures Masked(t, res, counts, oprf, i + 1)
  {
    hide StartOf;
    forall b: nat, p: nat | b < i + 1 && StartOf(counts, b) <= p < StartOf(counts, b + 1) && p < |res|
      ensures t[p] == oprf(b, res[p])
    {
      if b < i {
        StartMonotone(counts, b + 1, i);
      }
    }
  }

  /** oprg_server: one mask for every entry of the flattened table. */
  method ServerMasks(res: seq<nat>, counts: seq<nat>, oprf: Oprf) returns (masks: array<Poly>)
    requires StartOf(counts, |counts|) == |res|
    ensures fresh(masks) && masks.Length == |res| && Masked(masks[..], res, counts, oprf, |counts|)
  {
    hide StartOf, Masked;
    masks := new Poly[|res|];
    StartZero(counts);
    NoneMasked(masks[..], res, counts, oprf);
    var k: nat := 0;
    for i := 0 to |counts|
      invariant k == StartOf(counts, i) && Masked(masks[..], res, counts, oprf, i)
    {
      StartNext(counts, i);
      StartMonotone(counts, i + 1, |counts|);
      ghost var s, start := masks[..], k;
      for j := 0 to counts[i]
        invariant k == start + j
        invariant forall p :: 0 <= p < masks.Length ==> masks[p] == if start <= p < k then oprf(i, res[p]) else s[p]
      {
        masks[k] := oprf(i, res[k]);
        k := k + 1;
      }
      MaskedNext(s, masks[..], res, counts, oprf, i);
    }
  }

  lemma NoneMasked(masks: seq<Poly>, res: seq<nat>, counts: seq<nat>, oprf: Oprf)
    requires |masks| == |res|
    ensures Masked(masks, res, counts, oprf, 0)
  {
    hide StartOf;
  }

  /** A follower's run: hashing, masks, placement. */
  method FollowerRun(hashes: seq<Hashed>, nbins: nat, ntasks: nat, maxBinSize: nat, oprf: Oprf, share: seq<Poly>,
                     noise: seq<Poly>)
      returns (cells: seq<Poly>)
    requires HashesOk(hashes, nbins) && 0 < nbins && 0 < ntasks
      && (ntasks - 1) * CeilDivide(|hashes|, ntasks) <= |hashes|
    requires BuffersSuffice(hashes, nbins, maxBinSize) && |share| == nbins
      && |noise| == CellIndex(nbins, maxBinSize, NUM_HASH_FUNCTIONS, 0, 0)
    ensures CellsHold(noise, cells, hashes, nbins, maxBinSize, oprf, share)
  {
    hide Content, Table, StartOf, Flattened, CellIndex, HashesOk, InBuffers, MasksPlaced, Xored, CeilDivide,
      CellsHold, Masked, BuffersSuffice, Below;
    var out := SimpleHash(hashes, nbins, ntasks);
    var res, ids, counts := out.resBins[..], out.binToElements[..], out.nelesinbin[..];
    ghost var T := Table(hashes, nbins, nbins);
    FlattenedMeans(T, res, out.elementsToHashTable[..], ids);
    assert ids == IdsOf(hashes, nbins);
    assert counts == CountsOf(hashes, nbins);
    StartIsTable(hashes, nbins, nbins);
    var masks := ServerMasks(res, counts, oprf);
    ghost var plain := masks[..];
    XorMasks(masks, share, counts);
    EntriesInBuffers(hashes, nbins, maxBinSize);
    var random := new Poly[|noise|](i requires 0 <= i < |noise| => noise[i]);
    ghost var start := random[..];
    assert start == noise;
    PlaceMasks(random, masks[..], ids, counts, maxBinSize);
    cells := random[..];
    AllHold(start, cells, masks[..], plain, res, hashes, nbins, maxBinSize, oprf, share);
  }

  lemma FlattenedMeans(T: seq<Entry>, res: seq<nat>, elements: seq<nat>, bins: seq<nat>)
    requires Flattened(T, res, elements, bins, |T|)
    ensures |res| == |bins| == |T| && forall p :: 0 <= p < |T| ==> res[p] == T[p].value && bins[p] == Code(T[p])
  {
  }

  lemma AllHold(start: seq<Poly>, cells: seq<Poly>, masks: seq<Poly>, plain: seq<Poly>, res: seq<nat>,
                hashes: seq<Hashed>, nbins: nat, maxBinSize: nat, oprf: Oprf, share: seq<Poly>)
    requires HashesOk(hashes, nbins) && |share| == nbins && |plain| == |Table(hashes, nbins, nbins)|
    requires |cells| == CellIndex(nbins, maxBinSize, NUM_HASH_FUNCTIONS, 0, 0)
    requires var counts, T, ids := CountsOf(hashes, nbins), Table(hashes, nbins, nbins), IdsOf(hashes, nbins);
      && |res| == |T| && (forall p :: 0 <= p < |T| ==> res[p] == T[p].value) && Masked(plain, res, counts, oprf, nbins)
      && Xored(plain, masks, share, counts, nbins) && InBuffers(ids, counts, maxBinSize)
      && MasksPlaced(start, cells, masks, ids, counts, maxBinSize, StartOf(counts, nbins))
    ensures CellsHold(start, cells, hashes, nbins, maxBinSize, oprf, share)
  {
    hide Content, Table, StartOf, CellIndex, SlotOf, SlotAt, Target, EntryOf, InBuffers, Newest, Written, Overwritten,
      MaskOf;
    var counts, ids := CountsOf(hashes, nbins), IdsOf(hashes, nbins);
    StartIsTable(hashes, nbins, nbins);
    forall e: nat, h: nat |
      e < |hashes| && h < NUM_HASH_FUNCTIONS
      && (SlotAt(hashes, nbins, e, h) < maxBinSize || !Overwritten(hashes, nbins, maxBinSize, e, h))
      ensures HoldsAt(cells, Spot(hashes, nbins, maxBinSize, e, h), MaskOf(hashes, nbins, e, h, oprf, share))
    {
      var b := hashes[e].address[h];
      var p := PositionOf(hashes, nbins, e, h);
      assert masks[p] == Add(plain[p], share[b]);
      TargetIs(ids, counts, maxBinSize, b, p);
      if SlotAt(hashes, nbins, e, h) < maxBinSize {
        SeatedNewest(ids, counts, maxBinSize, b, p);
      } else {
        NotOverwritten(hashes, nbins, maxBinSize, e, h, p);
      }
      MaskIs(hashes, nbins, e, h, oprf, share);
    }
    forall c: nat | c < |cells| && NoSpot(hashes, nbins, maxBinSize, c)
      ensures cells[c] == start[c]
    {
      NeverWritten(hashes, nbins, maxBinSize, c);
    }
  }

  lemma MaskIs(hashes: seq<Hashed>, nbins: nat, e: nat, h: nat, oprf: Oprf, share: seq<Poly>)
    requires HashesOk(hashes, nbins) && |share| == nbins && e < |hashes| && h < NUM_HASH_FUNCTIONS
    ensures var b := hashes[e].address[h];
      MaskOf(hashes, nbins, e, h, oprf, share) == Add(oprf(b, EntryOf(hashes, e, h).value), share[b])
  {
    hide Add;
    assert Repeated(hashes[e].address, h) <==> !C.FirstHash(hashes[e].address, hashes[e].address[h], h);
  }

  lemma NotOverwritten(hashes: seq<Hashed>, nbins: nat, maxBinSize: nat, e: nat, h: nat, p: nat)
    requires HashesOk(hashes, nbins) && e < |hashes| && h < NUM_HASH_FUNCTIONS
    requires InBuffers(IdsOf(hashes, nbins), CountsOf(hashes, nbins), maxBinSize)
    requires !Overwritten(hashes, nbins, maxBinSize, e, h)
    requires var (counts, ids, b) := (CountsOf(hashes, nbins), IdsOf(hashes, nbins), hashes[e].address[h]);
      && StartOf(counts, b) <= p < StartOf(counts, b + 1) && p < |ids| && ids[p] % NUM_HASH_FUNCTIONS == h
      && SlotOf(ids, counts, b, p) == SlotAt(hashes, nbins, e, h)
    ensures var (counts, ids) := (CountsOf(hashes, nbins), IdsOf(hashes, nbins));
      p < StartOf(counts, nbins) <= |ids| && Newest(ids, counts, maxBinSize, p, StartOf(counts, nbins))
  {
    hide Content, Table, StartOf, CellIndex, SlotOf, SlotAt, Target, InBuffers;
    var counts, ids, b := CountsOf(hashes, nbins), IdsOf(hashes, nbins), hashes[e].address[h];
    TargetIs(ids, counts, maxBinSize, b, p);
    forall q | p < q < StartOf(counts, nbins)
      ensures Target(ids, counts, maxBinSize, q) != Target(ids, counts, maxBinSize, p)
    {
      if Target(ids, counts, maxBinSize, q) == Target(ids, counts, maxBinSize, p) {
        WrittenOver(ids, counts, maxBinSize, p, q);
        SameBin(counts, b, BinOf(counts, nbins, p), p);
        var f, h' := WriterOf(hashes, nbins, maxBinSize, q);
      }
    }
  }

  /** The element and the hash function whose mask is written at position q. */
  lemma WriterOf(hashes: seq<Hashed>, nbins: nat, maxBinSize: nat, q: nat) returns (f: nat, h: nat)
    requires HashesOk(hashes, nbins) && q < StartOf(CountsOf(hashes, nbins), nbins)
    requires InBuffers(IdsOf(hashes, nbins), CountsOf(hashes, nbins), maxBinSize)
    ensures var (counts, ids) := (CountsOf(hashes, nbins), IdsOf(hashes, nbins));
      && f < |hashes| && h < NUM_HASH_FUNCTIONS == |hashes[f].address| && q < StartOf(counts, nbins) <= |ids|
      && hashes[f].address[h] == BinOf(counts, nbins, q) && h == ids[q] % NUM_HASH_FUNCTIONS
      && Target(ids, counts, maxBinSize, q) == Spot(hashes, nbins, maxBinSize, f, h)
  {
    hide Content, Table, StartOf, SlotAt, SlotOf, CellIndex, InBuffers;
    var ids, counts := IdsOf(hashes, nbins), CountsOf(hashes, nbins);
    var b := BinOf(counts, nbins, q);
    StartNext(counts, b);
    var l := q - StartOf(counts, b);
    var p := SlotInBin(hashes, nbins, b, l);
    var x := Content(hashes, nbins, b, 0, |hashes|)[l];
    f, h := x.index, x.hashFunctionNum;
    TargetIs(ids, counts, maxBinSize, b, q);
  }

  lemma NeverWritten(hashes: seq<Hashed>, nbins: nat, maxBinSize: nat, c: nat)
    requires HashesOk(hashes, nbins) && InBuffers(IdsOf(hashes, nbins), CountsOf(hashes, nbins), maxBinSize)
    requires NoSpot(hashes, nbins, maxBinSize, c)
    ensures var (counts, ids) := (CountsOf(hashes, nbins), IdsOf(hashes, nbins));
      StartOf(counts, nbins) <= |ids| && !Written(ids, counts, maxBinSize, c, StartOf(counts, nbins))
  {
    hide Content, Table, StartOf, SlotAt, SlotOf, CellIndex, HashesOk, Target, InBuffer, Spot;
    var counts, ids := CountsOf(hashes, nbins), IdsOf(hashes, nbins);
    forall p: nat | p < StartOf(counts, nbins)
      ensures Target(ids, counts, maxBinSize, p) != c
    {
      var f, h := WriterOf(hashes, nbins, maxBinSize, p);
    }
  }

  // ---------------------------------------------------------------- slots and elements

  function OfHash(s: seq<Entry>, h: nat): nat {
    if s == [] then 0 else OfHash(s[..|s| - 1], h) + (if s[|s| - 1].hashFunctionNum == h then 1 else 0)
  }

  lemma {:induction false} OfHashAppend(s: seq<Entry>, t: seq<Entry>, h: nat)
    ensures OfHash(s + t, h) == OfHash(s, h) + OfHash(t, h)
  {
    if t == [] {
      assert s + t == s;
    } else {
      OfHashAppend(s, t[..|t| - 1], h);
      assert (s + t)[..|s + t| - 1] == s + t[..|t| - 1];
    }
  }

  lemma {:induction false} OfHashEntries(hashes: seq<Hashed>, nbins: nat, e: nat, b: nat, i: nat, h: nat)
    requires HashesOk(hashes, nbins) && e < |hashes| && i <= NUM_HASH_FUNCTIONS && h < NUM_HASH_FUNCTIONS
    ensures OfHash(EntriesIn(hashes, e, b, i), h) == if h < i && hashes[e].address[h] == b then 1 else 0
    decreases i
  {
    if i > 0 {
      OfHashEntries(hashes, nbins, e, b, i - 1, h);
      var r, x := EntriesIn(hashes, e, b, i - 1), EntryOf(hashes, e, i - 1);
      if hashes[e].address[i - 1] == b {
        OfHashAppend(r, [x], h);
        assert OfHash([x], h) == OfHash([], h) + if x.hashFunctionNum == h then 1 else 0 by {
          assert [x][..0] == [];
        }
      } else {
        assert r + [] == r;
      }
    }
  }

  lemma {:induction false} OfHashContent(hashes: seq<Hashed>, nbins: nat, b: nat, hi: nat, h: nat)
    requires HashesOk(hashes, nbins) && hi <= |hashes| && h < NUM_HASH_FUNCTIONS
    ensures OfHash(Content(hashes, nbins, b, 0, hi), h) == Sharing(hashes, nbins, b, h, hi)
    decreases hi
  {
    hide EntriesIn;
    if hi > 0 {
      OfHashContent(hashes, nbins, b, hi - 1, h);
      OfHashEntries(hashes, nbins, hi - 1, b, NUM_HASH_FUNCTIONS, h);
      OfHashAppend(Content(hashes, nbins, b, 0, hi - 1), EntriesIn(hashes, hi - 1, b, NUM_HASH_FUNCTIONS), h);
    }
  }

  /** An element has one entry for a hash function at most. */
  lemma {:induction false} FirstOfHash(hashes: seq<Hashed>, nbins: nat, e: nat, b: nat, i: nat, m: nat)
    requires HashesOk(hashes, nbins) && e < |hashes| && i <= NUM_HASH_FUNCTIONS && m < |EntriesIn(hashes, e, b, i)|
    ensures var s := EntriesIn(hashes, e, b, i);
      s[m].index == e && s[m].hashFunctionNum < i && OfHash(s[..m], s[m].hashFunctionNum) == 0
    decreases i
  {
    var s, r := EntriesIn(hashes, e, b, i), EntriesIn(hashes, e, b, i - 1);
    if m < |r| {
      FirstOfHash(hashes, nbins, e, b, i - 1, m);
      assert s[..m] == r[..m];
    } else {
      assert s[..m] == r;
      OfHashEntries(hashes, nbins, e, b, i - 1, i - 1);
    }
  }

  lemma {:induction false} OfHashBefore(hashes: seq<Hashed>, nbins: nat, b: nat, hi: nat, l: nat)
    requires HashesOk(hashes, nbins) && hi <= |hashes| && l < |Content(hashes, nbins, b, 0, hi)|
    ensures var s := Content(hashes, nbins, b, 0, hi);
      && s[l].index < hi && s[l].hashFunctionNum < NUM_HASH_FUNCTIONS
      && OfHash(s[..l], s[l].hashFunctionNum) == Sharing(hashes, nbins, b, s[l].hashFunctionNum, s[l].index)
    decreases hi
  {
    hide EntriesIn, Sharing;
    var s, r := Content(hashes, nbins, b, 0, hi), Content(hashes, nbins, b, 0, hi - 1);
    if l < |r| {
      OfHashBefore(hashes, nbins, b, hi - 1, l);
      assert s[..l] == r[..l];
    } else {
      var t := EntriesIn(hashes, hi - 1, b, NUM_HASH_FUNCTIONS);
      assert s == r + t;
      FirstOfHash(hashes, nbins, hi - 1, b, NUM_HASH_FUNCTIONS, l - |r|);
      assert s[..l] == r + t[..l - |r|];
      OfHashAppend(r, t[..l - |r|], s[l].hashFunctionNum);
      OfHashContent(hashes, nbins, b, hi - 1, s[l].hashFunctionNum);
    }
  }

  lemma {:induction false} OccursInBin(hashes: seq<Hashed>, nbins: nat, b: nat, l: nat, h: nat)
    requires HashesOk(hashes, nbins) && b < nbins && l <= |Content(hashes, nbins, b, 0, |hashes|)|
    ensures var lo := StartOf(CountsOf(hashes, nbins), b);
      && lo + l <= |IdsOf(hashes, nbins)|
      && Occurs(IdsOf(hashes, nbins), lo, lo + l, h) == OfHash(Content(hashes, nbins, b, 0, |hashes|)[..l], h)
    decreases l
  {
    hide Content, Table, StartOf, HashesOk;
    if l == 0 {
      StartIsTable(hashes, nbins, b);
      StartIsTable(hashes, nbins, nbins);
      StartMonotone(CountsOf(hashes, nbins), b, nbins);
    } else {
      OccursInBin(hashes, nbins, b, l - 1, h);
      var p := EntryPosition(hashes, nbins, b, l - 1);
      HashOfCode(hashes, nbins, b, l - 1);
      var s := Content(hashes, nbins, b, 0, |hashes|);
      assert s[..l][..l - 1] == s[..l - 1];
    }
  }

  /** The entry at position l of bin b is that of an element and a hash function, and has their slot. */
  lemma SlotInBin(hashes: seq<Hashed>, nbins: nat, b: nat, l: nat) returns (p: nat)
    requires HashesOk(hashes, nbins) && b < nbins && l < |Content(hashes, nbins, b, 0, |hashes|)|
    ensures var counts, T, x := CountsOf(hashes, nbins), Table(hashes, nbins, nbins),
      Content(hashes, nbins, b, 0, |hashes|)[l];
      && p == StartOf(counts, b) + l < StartOf(counts, b + 1) <= StartOf(counts, nbins) == |T| && T[p] == x
      && x.index < |hashes| && x.hashFunctionNum < NUM_HASH_FUNCTIONS && hashes[x.index].address[x.hashFunctionNum] == b
      && IdsOf(hashes, nbins)[p] % NUM_HASH_FUNCTIONS == x.hashFunctionNum
      && SlotOf(IdsOf(hashes, nbins), counts, b, p) == SlotAt(hashes, nbins, x.index, x.hashFunctionNum)
  {
    hide Content, Table, StartOf, HashesOk, EntryOf, Occurs, Sharing;
    p := EntryPosition(hashes, nbins, b, l);
    StartMonotone(CountsOf(hashes, nbins), b + 1, nbins);
    ContentBelongs(hashes, nbins, b, 0, |hashes|);
    var x := Content(hashes, nbins, b, 0, |hashes|)[l];
    assert x in Content(hashes, nbins, b, 0, |hashes|);
    HashOfCode(hashes, nbins, b, l);
    OfHashBefore(hashes, nbins, b, |hashes|, l);
    OccursInBin(hashes, nbins, b, l, x.hashFunctionNum);
  }

  /** Where the entry of element e and hash function h is. */
  lemma PositionOf(hashes: seq<Hashed>, nbins: nat, e: nat, h: nat) returns (p: nat)
    requires HashesOk(hashes, nbins) && e < |hashes| && h < NUM_HASH_FUNCTIONS
    ensures var b, counts, T := hashes[e].address[h], CountsOf(hashes, nbins), Table(hashes, nbins, nbins);
      && b < nbins && StartOf(counts, b) <= p < StartOf(counts, b + 1) <= StartOf(counts, nbins) == |T|
      && T[p] == EntryOf(hashes, e, h) && IdsOf(hashes, nbins)[p] % NUM_HASH_FUNCTIONS == h
      && SlotOf(IdsOf(hashes, nbins), counts, b, p) == SlotAt(hashes, nbins, e, h)
  {
    hide Content, Table, StartOf, Occurs, Sharing, Repeated;
    var b := hashes[e].address[h];
    ContentHas(hashes, nbins, 0, |hashes|, e, h);
    var l :| 0 <= l < |Content(hashes, nbins, b, 0, |hashes|)|
             && Content(hashes, nbins, b, 0, |hashes|)[l] == EntryOf(hashes, e, h);
    p := SlotInBin(hashes, nbins, b, l);
  }

  // ---------------------------------------------------------------- the message about full bins

  /** The message is printed for bin b. */
  ghost predicate Reported(hashes: seq<Hashed>, nbins: nat, maxBinSize: nat, b: nat)
    requires HashesOk(hashes, nbins)
  {
    |Content(hashes, nbins, b, 0, |hashes|)| > NUM_HASH_FUNCTIONS * maxBinSize
  }

  lemma NoOverflowNoMessage(hashes: seq<Hashed>, nbins: nat, maxBinSize: nat, b: nat)
    requires CellsSuffice(hashes, nbins, maxBinSize)
    ensures !Reported(hashes, nbins, maxBinSize, b)
  {
    hide Content, Sharing;
    ContentOfHash(hashes, nbins, b);
    forall h: nat | h < NUM_HASH_FUNCTIONS
      ensures Sharing(hashes, nbins, b, h, |hashes|) <= maxBinSize
    {
      SharingBound(hashes, nbins, maxBinSize, b, h, |hashes|);
    }
  }

  lemma ContentOfHash(hashes: seq<Hashed>, nbins: nat, b: nat)
    requires HashesOk(hashes, nbins)
    ensures var n := |hashes|;
      |Content(hashes, nbins, b, 0, n)|
      == Sharing(hashes, nbins, b, 0, n) + Sharing(hashes, nbins, b, 1, n) + Sharing(hashes, nbins, b, 2, n)
  {
    hide Content, Sharing;
    ContentBelongs(hashes, nbins, b, 0, |hashes|);
    var s := Content(hashes, nbins, b, 0, |hashes|);
    forall k | 0 <= k < |s|
      ensures s[k].hashFunctionNum < NUM_HASH_FUNCTIONS
    {
      assert s[k] in s;
    }
    AllOfHash(s);
    OfHashContent(hashes, nbins, b, |hashes|, 0);
    OfHashContent(hashes, nbins, b, |hashes|, 1);
    OfHashContent(hashes, nbins, b, |hashes|, 2);
  }

  lemma {:induction false} AllOfHash(s: seq<Entry>)
    requires forall k :: 0 <= k < |s| ==> s[k].hashFunctionNum < NUM_HASH_FUNCTIONS
    ensures |s| == OfHash(s, 0) + OfHash(s, 1) + OfHash(s, 2)
  {
    if s != [] {
      AllOfHash(s[..|s| - 1]);
    }
  }

  lemma {:induction false} SharingBound(hashes: seq<Hashed>, nbins: nat, maxBinSize: nat, b: nat, h: nat, n: nat)
    requires CellsSuffice(hashes, nbins, maxBinSize) && h < NUM_HASH_FUNCTIONS && n <= |hashes|
    ensures Sharing(hashes, nbins, b, h, n) <= maxBinSize
    decreases n
  {
    if n > 0 {
      SharingBound(hashes, nbins, maxBinSize, b, h, n - 1);
      assert SlotAt(hashes, nbins, n - 1, h) < maxBinSize;
    }
  }

  /** Two elements with the same three bins, and cells of one slot. */
  lemma UnnoticedOverflow() returns (hashes: seq<Hashed>, nbins: nat, maxBinSize: nat)
    ensures BuffersSuffice(hashes, nbins, maxBinSize) && !CellsSuffice(hashes, nbins, maxBinSize)
    ensures forall b: nat | b < nbins :: !Reported(hashes, nbins, maxBinSize, b)
  {
    hashes, nbins, maxBinSize := [Hashed([0, 1, 2], 1), Hashed([0, 1, 2], 2)], 4, 1;
    hide Sharing, Reported;
    forall b: nat, h: nat | h < NUM_HASH_FUNCTIONS
      ensures hashes[0].address[h] == hashes[1].address[h] == h
      ensures Sharing(hashes, nbins, b, h, 0) == 0 && Sharing(hashes, nbins, b, h, 1) == if b == h then 1 else 0
      ensures Sharing(hashes, nbins, b, h, 2) == if b == h then 2 else 0
    {
      assert hashes[0].address[h] == hashes[1].address[h] == h;
      SharingTwo(hashes, nbins, b, h);
    }
    assert SlotAt(hashes, nbins, 1, 0) == 1;
    forall b: nat | b < nbins
      ensures !Reported(hashes, nbins, maxBinSize, b)
    {
      TwoEntries(hashes, nbins, b);
    }
  }

  lemma SharingTwo(hashes: seq<Hashed>, nbins: nat, b: nat, h: nat)
    requires HashesOk(hashes, nbins) && |hashes| == 2 && h < NUM_HASH_FUNCTIONS
    requires hashes[0].address[h] == hashes[1].address[h] == h
    ensures Sharing(hashes, nbins, b, h, 0) == 0 && Sharing(hashes, nbins, b, h, 1) == if b == h then 1 else 0
    ensures Sharing(hashes, nbins, b, h, 2) == if b == h then 2 else 0
  {
    assert Sharing(hashes, nbins, b, h, 1) == Sharing(hashes, nbins, b, h, 0) + if b == h then 1 else 0;
  }

  lemma TwoEntries(hashes: seq<Hashed>, nbins: nat, b: nat)
    requires HashesOk(hashes, nbins) && |hashes| == 2
    requires forall h: nat | h < NUM_HASH_FUNCTIONS :: Sharing(hashes, nbins, b, h, 2) == if b == h then 2 else 0
    ensures !Reported(hashes, nbins, 1, b)
  {
    hide Content, Sharing;
    ContentOfHash(hashes, nbins, b);
  }

  lemma EntriesInBuffers(hashes: seq<Hashed>, nbins: nat, maxBinSize: nat)
    requires BuffersSuffice(hashes, nbins, maxBinSize)
    ensures InBuffers(IdsOf(hashes, nbins), CountsOf(hashes, nbins), maxBinSize)
  {
    hide Content, Table, StartOf, Below, SlotAt, SlotOf;
    var ids, counts := IdsOf(hashes, nbins), CountsOf(hashes, nbins);
    StartIsTable(hashes, nbins, nbins);
    forall p: nat | p < StartOf(counts, |counts|)
      ensures p < |ids| && InBuffer(ids, counts, maxBinSize, p)
    {
      var b := BinOf(counts, nbins, p);
      StartNext(counts, b);
      var l := p - StartOf(counts, b);
      var q := SlotInBin(hashes, nbins, b, l);
      var x := Content(hashes, nbins, b, 0, |hashes|)[l];
      assert Below(hashes[x.index].address[x.hashFunctionNum], maxBinSize)
        + SlotAt(hashes, nbins, x.index, x.hashFunctionNum) < Below(nbins, maxBinSize);
    }
  }

  lemma HashOfCode(hashes: seq<Hashed>, nbins: nat, b: nat, l: nat)
    requires HashesOk(hashes, nbins) && l < |Content(hashes, nbins, b, 0, |hashes|)|
    ensures var x := Content(hashes, nbins, b, 0, |hashes|)[l]; Code(x) % NUM_HASH_FUNCTIONS == x.hashFunctionNum
  {
    hide Content, EntryOf;
    ContentBelongs(hashes, nbins, b, 0, |hashes|);
    var x := Content(hashes, nbins, b, 0, |hashes|)[l];
    assert x in Content(hashes, nbins, b, 0, |hashes|);
  }

  lemma EntryPosition(hashes: seq<Hashed>, nbins: nat, b: nat, l: nat) returns (p: nat)
    requires HashesOk(hashes, nbins) && b < nbins && l < |Content(hashes, nbins, b, 0, |hashes|)|
    ensures var counts, T := CountsOf(hashes, nbins), Table(hashes, nbins, nbins);
      && p == StartOf(counts, b) + l < StartOf(counts, b + 1) && p < StartOf(counts, nbins) == |T|
      && T[p] == Content(hashes, nbins, b, 0, |hashes|)[l]
  {
    hide Content, Table, StartOf, HashesOk;
    var counts := CountsOf(hashes, nbins);
    p := StartOf(counts, b) + l;
    StartIsTable(hashes, nbins, b);
    StartIsTable(hashes, nbins, nbins);
    StartNext(counts, b);
    StartMonotone(counts, b + 1, nbins);
    ContentNone(hashes, nbins, b);
    TaskEntries(hashes, nbins, b, 0, |hashes|, l);
  }

  // ---------------------------------------------------------------- the leader

  /** CuckooHashInfo of all elements. */
  datatype Lookup = Lookup(binIndex: seq<int>, tableIndex: seq<int>, hashedBy: seq<int>)

  /** The fields have sensible values, and no bin belongs to two elements. */
  ghost predicate LookupOk(info: Lookup, n: nat, nbins: nat) {
    && |info.binIndex| == |info.tableIndex| == |info.hashedBy| == n
    && (forall e :: 0 <= e < n ==> -1 <= info.binIndex[e] < nbins && -1 <= info.tableIndex[e] < n)
    && (forall e :: 0 <= e < n && info.binIndex[e] != -1 ==> 0 <= info.hashedBy[e] < NUM_HASH_FUNCTIONS)
    && (forall e, f :: 0 <= e < f < n && info.binIndex[e] != -1 ==> info.binIndex[e] != info.binIndex[f])
  }

  /** The masks that the leader has received: one table per follower of its own masks, one of cells. */
  ghost predicate Received(results: seq<seq<Poly>>, F: L.Masks, n: nat, nbins: nat, maxBinSize: nat) {
    && |results| == |F| && (forall p :: 0 <= p < |F|
                              ==> |results[p]| == n && |F[p]| == CellIndex(nbins, maxBinSize, NUM_HASH_FUNCTIONS, 0, 0))
  }

  /** The share of a bin and the first k masks at position t. */
  function LeaderSum(secret: Poly, results: seq<seq<Poly>>, t: nat, k: nat): Poly
    requires k <= |results| && forall p :: 0 <= p < |results| ==> t < |results[p]|
  {
    if k == 0 then secret else Add(LeaderSum(secret, results, t, k - 1), results[k - 1][t])
  }

  lemma CellRange(nbins: nat, maxBinSize: nat, h: nat, b: nat)
    requires b < nbins && h < NUM_HASH_FUNCTIONS
    ensures CellIndex(nbins, maxBinSize, h, b, 0) + maxBinSize <= CellIndex(nbins, maxBinSize, NUM_HASH_FUNCTIONS, 0, 0)
  {
    BufferOf(nbins, maxBinSize, h, b, 0);
    BufferOf(nbins, maxBinSize, NUM_HASH_FUNCTIONS, 0, 0);
    assert Below(0, maxBinSize) == 0;
    hide CellIndex, Below;
    BelowOrder(b, nbins, maxBinSize);
    BelowOrder(h, NUM_HASH_FUNCTIONS, Below(nbins, maxBinSize));
  }

  /** The share of a bin and all masks at position t. */
  function LeaderTotal(secret: Poly, results: seq<seq<Poly>>, t: nat): Poly
    requires forall p :: 0 <= p < |results| ==> t < |results[p]|
  {
    LeaderSum(secret, results, t, |results|)
  }

  lemma {:induction false} LeaderSumBits(secret: Poly, results: seq<seq<Poly>>, t: nat, k: nat, x: nat)
    requires k <= |results| && forall p :: 0 <= p < |results| ==> t < |results[p]|
    ensures x in LeaderSum(secret, results, t, k) <==> (x in secret) != (|MasksWith(results, t, k, x)| % 2 == 1)
    decreases k
  {
    hide Add, MasksWith;
    if k == 0 {
      NoMasksWith(results, t, x);
    } else {
      LeaderSumBits(secret, results, t, k - 1, x);
      NextMaskWith(results, t, k, x);
      ParityOther(LeaderSum(secret, results, t, k - 1), results[k - 1][t], x in secret, x,
        MasksWith(results, t, k - 1, x), MasksWith(results, t, k, x), k - 1);
    }
  }

  /** Those of the first k masks at position t that have bit x. */
  function MasksWith(results: seq<seq<Poly>>, t: nat, k: nat, x: nat): set<nat>
    requires k <= |results| && forall p :: 0 <= p < |results| ==> t < |results[p]|
  {
    set q: nat | q < k && x in results[q][t]
  }

  lemma NoMasksWith(results: seq<seq<Poly>>, t: nat, x: nat)
    requires forall p :: 0 <= p < |results| ==> t < |results[p]|
    ensures |MasksWith(results, t, 0, x)| % 2 == 0
  {
    ParityNone(MasksWith(results, t, 0, x));
  }

  lemma NextMaskWith(results: seq<seq<Poly>>, t: nat, k: nat, x: nat)
    requires 0 < k <= |results| && forall p :: 0 <= p < |results| ==> t < |results[p]|
    ensures k - 1 !in MasksWith(results, t, k - 1, x)
    ensures MasksWith(results, t, k, x) == if x in results[k - 1][t] then MasksWith(results, t, k - 1, x) + {k - 1}
                                           else MasksWith(results, t, k - 1, x)
  {
  }

  lemma ParityOther(P: Poly, Q: Poly, first: bool, x: nat, s: set<nat>, t: set<nat>, e: nat)
    requires x in P <==> first != (|s| % 2 == 1)
    requires e !in s && t == if x in Q then s + {e} else s
    ensures x in Add(P, Q) <==> first != (|t| % 2 == 1)
  {
    hide Add;
  }

  /** A bit of this sum: that of the share, changed for every mask that has it. */
  lemma LeaderTotalBits(secret: Poly, results: seq<seq<Poly>>, t: nat, x: nat)
    requires forall p :: 0 <= p < |results| ==> t < |results[p]|
    ensures x in LeaderTotal(secret, results, t)
      <==> (x in secret) != (|set q: nat | q < |results| && x in results[q][t]| % 2 == 1)
  {
    LeaderSumBits(secret, results, t, |results|, x);
  }

  /** The search succeeds just when one slot from lo to hi per follower can be chosen such that the masks there and v
      add
      up to zero. */
  lemma MatchIsZero(F: L.Masks, lo: nat, hi: nat, v: Poly)
    requires forall q :: 0 <= q < |F| ==> hi <= |F[q]|
    ensures L.Matches(F, 0, lo, hi, v)
      <==> exists choice: seq<nat> ::
             L.Choice(F, choice, lo, hi) && Add(v, L.Total(F, choice)) == {}
  {
    hide Add, L.Select;
    if L.Matches(F, 0, lo, hi, v) {
      var choice := L.ChoiceOfMatch(F, 0, lo, hi, v);
      AddIsZero(v, L.Select(F, choice, 0));
      assert L.Choice(F, choice, lo, hi);
    }
    forall choice: seq<nat> | L.Choice(F, choice, lo, hi) && Add(v, L.Total(F, choice)) == {}
      ensures L.Matches(F, 0, lo, hi, v)
    {
      AddIsZero(v, L.Select(F, choice, 0));
      L.MatchesIsChoice(F, 0, lo, hi, v, choice);
    }
  }

  lemma AddIsZero(P: Poly, Q: Poly)
    ensures Add(P, Q) == {} <==> P == Q
  {
    if Add(P, Q) == {} {
      forall i: nat
        ensures i in P <==> i in Q
      {
        assert i !in Add(P, Q);
      }
    }
  }

  /** isElementInAllSets: changes the share of the element's bin in place.  True if and only if one slot of the cell of
      hash function h and bin b per follower can be chosen such that the share, the leader's masks and those in the
      slots
      add up to zero; the share then is zero, and otherwise the sum with the leader's masks. */
  method IsElementInAllSets(secretShare: array<Poly>, results: seq<seq<Poly>>, F: L.Masks, ghost n: nat, nbins: nat,
                            maxBinSize: nat, b: nat, t: nat, h: nat)
      returns (found: bool)
    requires Received(results, F, n, nbins, maxBinSize) && b < nbins && t < n && h < NUM_HASH_FUNCTIONS
      && secretShare.Length == nbins
    modifies secretShare
    ensures var lo, sum := CellIndex(nbins, maxBinSize, h, b, 0), LeaderTotal(old(secretShare[b]), results, t);
      && (found <==> exists choice: seq<nat> ::
            L.Choice(F, choice, lo, lo + maxBinSize) && Add(sum, L.Total(F, choice)) == {})
      && secretShare[b] == if found then {} else sum
    ensures forall c :: 0 <= c < nbins && c != b ==> secretShare[c] == old(secretShare[c])
  {
    hide Add, L.Matches, CellIndex, L.Total;
    ghost var secret := secretShare[b];
    for p := 0 to |results|
      invariant secretShare[b] == LeaderSum(secret, results, t, p)
      invariant forall c :: 0 <= c < nbins && c != b ==> secretShare[c] == old(secretShare[c])
    {
      secretShare[b] := Add(secretShare[b], results[p][t]);
    }
    CellRange(nbins, maxBinSize, h, b);
    var lo := CellIndex(nbins, maxBinSize, h, b, 0);
    MatchIsZero(F, lo, lo + maxBinSize, secretShare[b]);
    var share := new L.Share(secretShare[b]);
    found := L.IsZeroXor(share, F, 0, lo, lo + maxBinSize);
    secretShare[b] := share.bits;
  }

  /** The leader counts element e: its bin and its table index are known, and one slot of its cell per follower can be
      chosen such that everything adds up to zero. */
  ghost predicate Counted(info: Lookup, results: seq<seq<Poly>>, F: L.Masks, n: nat, nbins: nat, maxBinSize: nat,
                          share: seq<Poly>, e: nat)
    requires LookupOk(info, n, nbins) && Received(results, F, n, nbins, maxBinSize) && |share| == nbins && e < n
  {
    && info.binIndex[e] != -1 && info.tableIndex[e] != -1
    && var b, t, h := info.binIndex[e], info.tableIndex[e], info.hashedBy[e];
      var lo := CellIndex(nbins, maxBinSize, h, b, 0);
      exists choice: seq<nat> ::
        L.Choice(F, choice, lo, lo + maxBinSize) && Add(LeaderTotal(share[b], results, t), L.Total(F, choice)) == {}
  }

  /** How many of the elements lo to hi - 1 are counted. */
  ghost function CountIn(info: Lookup, results: seq<seq<Poly>>, F: L.Masks, n: nat, nbins: nat, maxBinSize: nat,
                         share: seq<Poly>, lo: nat, hi: nat): nat
    requires LookupOk(info, n, nbins) && Received(results, F, n, nbins, maxBinSize) && |share| == nbins && lo <= hi <= n
    decreases hi
  {
    if hi == lo then 0
    else
      var last := if Counted(info, results, F, n, nbins, maxBinSize, share, hi - 1) then 1 else 0;
      CountIn(info, results, F, n, nbins, maxBinSize, share, lo, hi - 1) + last
  }

  lemma {:induction false} CountSplit(info: Lookup, results: seq<seq<Poly>>, F: L.Masks, n: nat, nbins: nat,
                                      maxBinSize: nat, share: seq<Poly>, lo: nat, mid: nat, hi: nat)
    requires LookupOk(info, n, nbins) && Received(results, F, n, nbins, maxBinSize) && |share| == nbins
      && lo <= mid <= hi <= n
    ensures CountIn(info, results, F, n, nbins, maxBinSize, share, lo, hi)
         == CountIn(info, results, F, n, nbins, maxBinSize, share, lo, mid)
           + CountIn(info, results, F, n, nbins, maxBinSize, share, mid, hi)
    decreases hi
  {
    hide Counted, LookupOk, Received;
    if mid < hi {
      CountSplit(info, results, F, n, nbins, maxBinSize, share, lo, mid, hi - 1);
    }
  }

  /** The count is the size of the set of the counted elements. */
  lemma {:induction false} CountIsSize(info: Lookup, results: seq<seq<Poly>>, F: L.Masks, n: nat, nbins: nat,
                                       maxBinSize: nat, share: seq<Poly>, hi: nat)
      returns (S: set<int>)
    requires LookupOk(info, n, nbins) && Received(results, F, n, nbins, maxBinSize) && |share| == nbins && hi <= n
    ensures |S| == CountIn(info, results, F, n, nbins, maxBinSize, share, 0, hi)
    ensures forall e :: e in S <==> 0 <= e < hi && Counted(info, results, F, n, nbins, maxBinSize, share, e)
    decreases hi
  {
    hide Counted, LookupOk, Received;
    if hi == 0 {
      S := {};
    } else {
      S := CountIsSize(info, results, F, n, nbins, maxBinSize, share, hi - 1);
      if Counted(info, results, F, n, nbins, maxBinSize, share, hi - 1) {
        S := S + {hi - 1};
      }
    }
  }

  /** The bins of the elements from i on still have their shares. */
  ghost predicate Untouched(share: seq<Poly>, now: seq<Poly>, info: Lookup, n: nat, nbins: nat, i: nat)
    requires LookupOk(info, n, nbins)
  {
    |share| == |now| == nbins && forall e :: i <= e < n && info.binIndex[e] != -1
                                   ==> now[info.binIndex[e]] == share[info.binIndex[e]]
  }

  /** checkElementsInThread. */
  method CheckElements(secretShare: array<Poly>, info: Lookup, results: seq<seq<Poly>>, F: L.Masks, n: nat, nbins: nat,
                       maxBinSize: nat, startPos: nat, endPos: nat, ghost share: seq<Poly>) returns (numFound: nat)
    requires LookupOk(info, n, nbins) && Received(results, F, n, nbins, maxBinSize) && startPos <= endPos <= n
    requires Untouched(share, secretShare[..], info, n, nbins, startPos)
    modifies secretShare
    ensures Untouched(share, secretShare[..], info, n, nbins, endPos)
    ensures numFound == CountIn(info, results, F, n, nbins, maxBinSize, share, startPos, endPos)
  {
    hide Received, Add, CellIndex, LeaderTotal, L.Total;
    numFound := 0;
    for i := startPos to endPos
      invariant Untouched(share, secretShare[..], info, n, nbins, i)
      invariant numFound == CountIn(info, results, F, n, nbins, maxBinSize, share, startPos, i)
    {
      var binIndex, tableIndex := info.binIndex[i], info.tableIndex[i];
      if binIndex == -1 || tableIndex == -1 {
        continue;
      }
      ghost var before := secretShare[..];
      var found := IsElementInAllSets(secretShare, results, F, n, nbins, maxBinSize, binIndex, tableIndex,
        info.hashedBy[i]);
      if found {
        numFound := numFound + 1;
      }
    }
  }

  /** Leader::run: the elements are shared out among the cores. */
  method Run(secretShare: array<Poly>, info: Lookup, results: seq<seq<Poly>>, F: L.Masks, n: nat, nbins: nat,
             maxBinSize: nat, cores: nat)
      returns (intersectionSize: nat)
    requires LookupOk(info, n, nbins) && Received(results, F, n, nbins, maxBinSize) && secretShare.Length == nbins
      && 0 < cores
    modifies secretShare
    ensures intersectionSize == CountIn(info, results, F, n, nbins, maxBinSize, old(secretShare[..]), 0, n)
  {
    hide Counted, LookupOk, Received, CountIn, Untouched;
    ghost var share := secretShare[..];
    var numCores := if cores < n then cores else n;
    intersectionSize := 0;
    AllUntouched(share, info, n, nbins);
    CountNone(info, results, F, n, nbins, maxBinSize, share, 0);
    ghost var reached: nat := 0;
    for i := 0 to numCores
      invariant Untouched(share, secretShare[..], info, n, nbins, reached)
      invariant reached <= n && (i < numCores ==> reached == RangeStart(i, n, numCores))
        && (i == numCores ==> reached == n)
      invariant intersectionSize == CountIn(info, results, F, n, nbins, maxBinSize, share, 0, reached)
    {
      var startPos := RangeStart(i, n, numCores);
      var endPos := RangeStart(i + 1, n, numCores);
      if i == numCores - 1 {
        endPos := n;
      }
      RangesOrdered(i, n, numCores);
      var numFound := CheckElements(secretShare, info, results, F, n, nbins, maxBinSize, startPos, endPos, share);
      CountSplit(info, results, F, n, nbins, maxBinSize, share, 0, startPos, endPos);
      intersectionSize := intersectionSize + numFound;
      reached := endPos;
    }
  }

  function RangeStart(i: nat, n: nat, cores: nat): nat
    requires 0 < cores
  {
    NonNegative(i, n);
    i * n / cores
  }

  lemma RangesOrdered(i: nat, n: nat, cores: nat)
    requires i < cores
    ensures RangeStart(i, n, cores) <= RangeStart(i + 1, n, cores) <= n && RangeStart(0, n, cores) == 0
  {
    var a, b := i * n, (i + 1) * n;
    assert b == a + n;
    assert cores * n == b + (cores - i - 1) * n;
    NonNegative(cores - i - 1, n);
    DivideMonotone(a, b, cores);
    DivideMonotone(b, cores * n, cores);
    DivideExact(n, cores);
  }

  lemma DivideMonotone(a: nat, b: nat, k: nat)
    requires a <= b && 0 < k
    ensures a / k <= b / k
  {
    var q, r := a / k, b / k;
    assert a == k * q + a % k && b == k * r + b % k;
    MulSign(k, q - r);
    assert k * (q - r) == k * q - k * r;
  }

  lemma DivideExact(n: nat, k: nat)
    requires 0 < k
    ensures (k * n) / k == n && 0 * n / k == 0
  {
    ModUnique(k * n, k, n, 0);
    ModUnique(0, k, 0, 0);
  }

  lemma AllUntouched(share: seq<Poly>, info: Lookup, n: nat, nbins: nat)
    requires LookupOk(info, n, nbins) && |share| == nbins
    ensures Untouched(share, share, info, n, nbins, 0)
  {
  }

  lemma CountNone(info: Lookup, results: seq<seq<Poly>>, F: L.Masks, n: nat, nbins: nat, maxBinSize: nat,
                  share: seq<Poly>, lo: nat)
    requires LookupOk(info, n, nbins) && Received(results, F, n, nbins, maxBinSize) && |share| == nbins && lo <= n
    ensures CountIn(info, results, F, n, nbins, maxBinSize, share, lo, lo) == 0
  {
  }

  // ---------------------------------------------------------------- the leader's hashing

  function AddressesOf(hashes: seq<Hashed>): (a: C.Addresses)
    ensures |a| == |hashes| && forall e :: 0 <= e < |a| ==> a[e] == hashes[e].address
  {
    seq(|hashes|, e requires 0 <= e < |hashes| => hashes[e].address)
  }

  lemma AddressesFit(hashes: seq<Hashed>, nbins: nat)
    requires HashesOk(hashes, nbins)
    ensures C.AddressesOk(AddressesOf(hashes), nbins)
  {
  }

  /** oprg_client: one mask for every occupied bin, in the order of the bins. */
  method ClientMasks(s: seq<int>, hashes: seq<Hashed>, oprf: Oprf) returns (masks: seq<Poly>)
    requires C.Placed(s, AddressesOf(hashes)) && C.Once(s)
    ensures |masks| == |hashes|
    ensures forall q: nat :: q < |s| && s[q] != C.EMPTY ==>
              0 <= s[q] < |hashes| && C.Rank(s, q) < |masks| && masks[C.Rank(s, q)] == oprf(q, hashes[s[q]].value)
  {
    hide C.Rank, C.Once;
    var a := new Poly[|hashes|](i => {});
    var count: nat := 0;
    C.TotalRank(s, AddressesOf(hashes));
    RankZero(s);
    for q := 0 to |s|
      invariant count == C.Rank(s, q)
      invariant forall r: nat :: r < q && s[r] != C.EMPTY
                  ==> C.Rank(s, r) < count && C.Rank(s, r) < a.Length && a[C.Rank(s, r)] == oprf(r, hashes[s[r]].value)
    {
      C.RankStep(s, q);
      if s[q] != C.EMPTY {
        C.RankFits(s, AddressesOf(hashes), q);
        a[count] := oprf(q, hashes[s[q]].value);
        count := count + 1;
      }
    }
    masks := a[..];
  }

  lemma RankZero(s: seq<int>)
    ensures C.Rank(s, 0) == 0
  {
  }

  /** Element e is in the cuckoo table s, and the lookup structure points to the right places. */
  ghost predicate LookupAt(info: Lookup, s: seq<int>, hashes: seq<Hashed>, e: nat)
    requires |info.binIndex| == |info.tableIndex| == |info.hashedBy| == |hashes| && e < |hashes|
  {
    && 0 <= info.binIndex[e] < |s| && s[info.binIndex[e]] == e
    && info.tableIndex[e] == C.Rank(s, info.binIndex[e])
    && C.FirstHash(hashes[e].address, info.binIndex[e], info.hashedBy[e])
  }

  /** The whole lookup structure: what belongs to the elements in the table, -1 for the others, and the last table index
      for element 0 if an element is missing. */
  ghost predicate LookupIs(info: Lookup, s: seq<int>, hashes: seq<Hashed>) {
    && |info.binIndex| == |info.tableIndex| == |info.hashedBy| == |hashes|
    && (forall e: nat :: e < |hashes| && e in C.Stored(s) ==>
          && 0 <= info.binIndex[e] < |s| && s[info.binIndex[e]] == e
          && C.FirstHash(hashes[e].address, info.binIndex[e], info.hashedBy[e]))
    && (forall e: nat :: e < |hashes| && e !in C.Stored(s) ==> info.binIndex[e] == -1)
    && (forall e: nat :: 0 < e < |hashes| ==>
          info.tableIndex[e] == if e in C.Stored(s) then C.RankOf(s, info.binIndex[e]) else -1)
    && (|hashes| > 0 ==>
          info.tableIndex[0] == if |C.Stored(s)| == |hashes| then C.RankOf(s, info.binIndex[0]) else |hashes| - 1)
  }

  /** The leader's part before the search: the cuckoo table, filled by the insertions in runs, and the lookup
      structure. */
  method LeaderHashing(hashes: seq<Hashed>, nbins: nat)
      returns (fails: nat, s: seq<int>, info: Lookup, ghost runs: seq<seq<C.Step>>, ghost oks: seq<bool>)
    requires HashesOk(hashes, nbins)
    ensures |s| == nbins && C.Placed(s, AddressesOf(hashes)) && C.Once(s)
    ensures C.AddressesOk(AddressesOf(hashes), nbins)
      && C.CuckooRun(AddressesOf(hashes), nbins, runs, oks, s, fails)
    ensures LookupOk(info, |hashes|, nbins) && LookupIs(info, s, hashes)
    ensures |C.Stored(s)| + fails == |hashes| && (forall e :: e in C.Stored(s) ==> 0 <= e < |hashes|)
    ensures (forall e :: 0 <= e < |hashes| ==> C.HasOwnBin(AddressesOf(hashes), e)) ==> fails == 0
  {
    hide C.Rank, C.Once, C.Stored, C.FirstHash, C.Extracted, C.Placed, HashesOk, C.CuckooRun, C.HasOwnBin,
      C.AddressesOk;
    var addresses := AddressesOf(hashes);
    AddressesFit(hashes, nbins);
    s, fails, runs, oks := C.InsertIntoNew(addresses, nbins);
    var perm, binIds, hashedBy := C.Extract(s, addresses);
    var h := C.BuildHashInfo(s, addresses, perm, binIds, hashedBy);
    info := Lookup(h.binIndex[..], h.tableIndex[..], h.hashedBy[..]);
    LookupFrom(info, s, hashes, nbins);
  }

  lemma LookupFrom(info: Lookup, s: seq<int>, hashes: seq<Hashed>, nbins: nat)
    requires HashesOk(hashes, nbins) && |s| == nbins && C.Placed(s, AddressesOf(hashes)) && C.Once(s)
    requires LookupIs(info, s, hashes)
    ensures LookupOk(info, |hashes|, nbins)
  {
    hide C.Rank, C.Once, C.Stored, C.Placed;
    forall e | 0 <= e < |hashes|
      ensures -1 <= info.binIndex[e] < nbins && -1 <= info.tableIndex[e] < |hashes|
      ensures info.binIndex[e] != -1 ==> 0 <= info.hashedBy[e] < NUM_HASH_FUNCTIONS
    {
      if e in C.Stored(s) {
        C.RankFits(s, AddressesOf(hashes), info.binIndex[e]);
      }
      if e == 0 && |C.Stored(s)| == |hashes| {
        EveryoneStored(s, hashes);
        C.RankFits(s, AddressesOf(hashes), info.binIndex[e]);
      }
    }
  }

  lemma EveryoneStored(s: seq<int>, hashes: seq<Hashed>)
    requires C.Placed(s, AddressesOf(hashes)) && |C.Stored(s)| == |hashes|
    ensures forall e :: 0 <= e < |hashes| ==> e in C.Stored(s)
  {
    hide C.Stored, C.Placed;
    C.StoredBelow(s, AddressesOf(hashes));
    C.AllOfThem(C.Stored(s), |hashes|);
  }

  /** What belongs to element e; to element 0 only if no element is missing. */
  lemma LookupOf(info: Lookup, s: seq<int>, hashes: seq<Hashed>, e: nat)
    requires LookupIs(info, s, hashes) && e < |hashes| && e in C.Stored(s)
    requires 0 < e || |C.Stored(s)| == |hashes|
    ensures LookupAt(info, s, hashes, e)
  {
    hide C.Rank, C.Stored, C.FirstHash;
  }

  // ---------------------------------------------------------------- common elements are found

  /** Every follower has an element that hashes like element e of the leader. */
  ghost predicate Common(leader: seq<Hashed>, followers: seq<seq<Hashed>>, e: nat)
    requires e < |leader|
  {
    forall q :: 0 <= q < |followers| ==> leader[e] in followers[q]
  }

  /** An element with this hashing is in the table, and its cell under hash function h has room for it. */
  ghost predicate Seated(hashes: seq<Hashed>, nbins: nat, maxBinSize: nat, x: Hashed, h: int) {
    && HashesOk(hashes, nbins) && 0 <= h < NUM_HASH_FUNCTIONS
    && exists f: nat :: f < |hashes| && hashes[f] == x && SlotAt(hashes, nbins, f, h) < maxBinSize
  }

  /** The same for all followers. */
  ghost predicate CommonSeated(leader: seq<Hashed>, followers: seq<seq<Hashed>>, nbins: nat, maxBinSize: nat, e: nat,
                               h: int)
    requires e < |leader|
  {
    forall q :: 0 <= q < |followers| ==> Seated(followers[q], nbins, maxBinSize, leader[e], h)
  }

  /** Where no cell overflows, all common elements have room. */
  lemma CommonHasRoom(leader: seq<Hashed>, followers: seq<seq<Hashed>>, nbins: nat, maxBinSize: nat, e: nat, h: int)
    requires e < |leader| && Common(leader, followers, e) && 0 <= h < NUM_HASH_FUNCTIONS
    requires forall q :: 0 <= q < |followers| ==> CellsSuffice(followers[q], nbins, maxBinSize)
    ensures CommonSeated(leader, followers, nbins, maxBinSize, e, h)
  {
    hide SlotAt, HashesOk;
    forall q | 0 <= q < |followers|
      ensures Seated(followers[q], nbins, maxBinSize, leader[e], h)
    {
      assert CellsSuffice(followers[q], nbins, maxBinSize);
      var f: nat :| f < |followers[q]| && followers[q][f] == leader[e];
    }
  }

  /** The sum of the shares of the first k followers at bin b. */
  function FollowerShares(shares: seq<seq<Poly>>, b: nat, k: nat): Poly
    requires k <= |shares| && forall q :: 0 <= q < |shares| ==> b < |shares[q]|
  {
    if k == 0 then {} else Add(FollowerShares(shares, b, k - 1), shares[k - 1][b])
  }

  /** The sum of the first k matching masks: each is the leader's mask xored with the follower's share. */
  function MaskSum(results: seq<seq<Poly>>, shares: seq<seq<Poly>>, t: nat, b: nat, k: nat): Poly
    requires k <= |results| == |shares|
    requires forall q :: 0 <= q < |shares| ==> b < |shares[q]| && t < |results[q]|
  {
    if k == 0 then {} else Add(MaskSum(results, shares, t, b, k - 1), Add(results[k - 1][t], shares[k - 1][b]))
  }

  lemma {:induction false} MasksLeaveShares(secret: Poly, results: seq<seq<Poly>>, shares: seq<seq<Poly>>, t: nat,
                                            b: nat, k: nat)
    requires k <= |results| == |shares|
    requires forall q :: 0 <= q < |shares| ==> b < |shares[q]| && t < |results[q]|
    ensures Add(LeaderSum(secret, results, t, k), MaskSum(results, shares, t, b, k))
      == Add(secret, FollowerShares(shares, b, k))
    decreases k
  {
    hide Add;
    if k > 0 {
      MasksLeaveShares(secret, results, shares, t, b, k - 1);
      CancelMask(LeaderSum(secret, results, t, k - 1), MaskSum(results, shares, t, b, k - 1), results[k - 1][t],
        shares[k - 1][b], secret, FollowerShares(shares, b, k - 1));
    } else {
      NoneAdded(secret);
    }
  }

  lemma CancelMask(a: Poly, m: Poly, r: Poly, s: Poly, secret: Poly, f: Poly)
    requires Add(a, m) == Add(secret, f)
    ensures Add(Add(a, r), Add(m, Add(r, s))) == Add(secret, Add(f, s))
  {
    hide Add;
    assert Add(Add(a, r), Add(m, Add(r, s))) == Add(Add(a, m), s);
    AddAssoc(secret, f, s);
  }

  /** The masks from follower p on can be chosen to cancel what the first p leave of the leader's sum. */
  lemma {:induction false} ChoiceExists(results: seq<seq<Poly>>, F: L.Masks, shares: seq<seq<Poly>>, n: nat, nbins: nat,
                                        maxBinSize: nat, b: nat, t: nat, h: nat, secret: Poly, p: nat)
    requires Received(results, F, n, nbins, maxBinSize) && b < nbins && t < n && h < NUM_HASH_FUNCTIONS && p <= |F|
    requires |shares| == |F| && forall q :: 0 <= q < |F| ==> |shares[q]| == nbins
    requires Add(secret, FollowerShares(shares, b, |F|)) == {}
    requires forall q :: 0 <= q < |F| ==> HasSlot(F[q], nbins, maxBinSize, h, b, Add(results[q][t], shares[q][b]))
    ensures CellIndex(nbins, maxBinSize, h, b, 0) + maxBinSize <= CellIndex(nbins, maxBinSize, NUM_HASH_FUNCTIONS, 0, 0)
    ensures L.Matches(F, p, CellIndex(nbins, maxBinSize, h, b, 0), CellIndex(nbins, maxBinSize, h, b, 0) + maxBinSize,
                      Add(LeaderSum(secret, results, t, |F|), MaskSum(results, shares, t, b, p)))
    decreases |F| - p
  {
    hide Add, Below, LeaderSum, FollowerShares;
    CellRange(nbins, maxBinSize, h, b);
    var lo := CellIndex(nbins, maxBinSize, h, b, 0);
    var v := Add(LeaderSum(secret, results, t, |F|), MaskSum(results, shares, t, b, p));
    if p == |F| {
      MasksLeaveShares(secret, results, shares, t, b, p);
    } else {
      ChoiceExists(results, F, shares, n, nbins, maxBinSize, b, t, h, secret, p + 1);
      var s: nat :| s < maxBinSize && CellIndex(nbins, maxBinSize, h, b, s) < |F[p]|
                    && F[p][CellIndex(nbins, maxBinSize, h, b, s)] == Add(results[p][t], shares[p][b]);
      var i := lo + s;
      assert i == CellIndex(nbins, maxBinSize, h, b, s);
      AddAssoc(LeaderSum(secret, results, t, |F|), MaskSum(results, shares, t, b, p), F[p][i]);
      assert L.Matches(F, p + 1, lo, lo + maxBinSize, Add(v, F[p][i]));
    }
  }

  /** What a follower holds for an element that it has in common with the leader and has room for. */
  lemma CommonSlot(hashes: seq<Hashed>, nbins: nat, maxBinSize: nat, oprf: Oprf, share: seq<Poly>, noise: seq<Poly>,
                   cells: seq<Poly>, x: Hashed, b: nat, h: int)
    requires HashesOk(hashes, nbins) && |share| == nbins
    requires CellsHold(noise, cells, hashes, nbins, maxBinSize, oprf, share)
    requires Seated(hashes, nbins, maxBinSize, x, h) && b < nbins && C.FirstHash(x.address, b, h)
    ensures HasSlot(cells, nbins, maxBinSize, h, b, Add(oprf(b, x.value), share[b]))
  {
    hide Sharing, CellIndex, Overwritten, NoSpot;
    var e: nat :| e < |hashes| && hashes[e] == x && SlotAt(hashes, nbins, e, h) < maxBinSize;
    assert HoldsAt(cells, Spot(hashes, nbins, maxBinSize, e, h), MaskOf(hashes, nbins, e, h, oprf, share));
  }

  /** The shares of the leader and the followers add up to zero. */
  lemma {:induction false} AllShares(seeds: Seeds, shares: seq<seq<Poly>>, b: nat, n: nat, k: nat)
    requires k <= |shares| && n == |shares| + 1
      && forall q :: 0 <= q < |shares| ==> b < |shares[q]| && shares[q][b] == ShareOf(seeds, n, q + 2)
    ensures Add(ShareOf(seeds, n, 1), FollowerShares(shares, b, k)) == ShareSum(seeds, n, k + 1)
    decreases k
  {
    hide Add, ShareOf;
    if k == 0 {
      NoneAdded(ShareOf(seeds, n, 1));
      assert ShareSum(seeds, n, 1) == Add(ShareSum(seeds, n, 0), ShareOf(seeds, n, 1));
    } else {
      AllShares(seeds, shares, b, n, k - 1);
      AddAssoc(ShareOf(seeds, n, 1), FollowerShares(shares, b, k - 1), ShareOf(seeds, n, k + 1));
    }
  }

  /** The state of all parties before the search. */
  ghost predicate Prepared(leader: seq<Hashed>, followers: seq<seq<Hashed>>, nbins: nat, maxBinSize: nat,
                           seeds: nat -> Seeds, oprfs: seq<Oprf>, noise: seq<seq<Poly>>,
                           s: seq<int>, results: seq<seq<Poly>>, F: L.Masks, share: seq<Poly>,
                           shares: seq<seq<Poly>>)
  {
    && HashesOk(leader, nbins) && |s| == nbins && C.Placed(s, AddressesOf(leader)) && C.Once(s)
    && Received(results, F, |leader|, nbins, maxBinSize) && |F| == |followers| == |oprfs| == |shares|
    && |share| == nbins && |noise| == |F|
    && (forall b :: 0 <= b < nbins ==> share[b] == ShareOf(seeds(b), |F| + 1, 1))
    && (forall q :: 0 <= q < |F| ==>
          && HashesOk(followers[q], nbins) && |shares[q]| == nbins
          && (forall b :: 0 <= b < nbins ==> shares[q][b] == ShareOf(seeds(b), |F| + 1, q + 2))
          && CellsHold(noise[q], F[q], followers[q], nbins, maxBinSize, oprfs[q], shares[q])
          && ClientHolds(results[q], s, leader, oprfs[q]))
  }

  ghost predicate ClientHolds(masks: seq<Poly>, s: seq<int>, hashes: seq<Hashed>, oprf: Oprf) {
    forall q: nat :: q < |s| && s[q] != C.EMPTY ==>
      0 <= s[q] < |hashes| && C.Rank(s, q) < |masks| && masks[C.Rank(s, q)] == oprf(q, hashes[s[q]].value)
  }

  /** Every common element that is in the leader's cuckoo table, with its lookup, and has room in the followers' cells
      is
      counted. */
  lemma CommonCounted(leader: seq<Hashed>, followers: seq<seq<Hashed>>, nbins: nat, maxBinSize: nat,
                      seeds: nat -> Seeds, oprfs: seq<Oprf>, noise: seq<seq<Poly>>,
                      s: seq<int>, info: Lookup, results: seq<seq<Poly>>, F: L.Masks, share: seq<Poly>,
                      shares: seq<seq<Poly>>, e: nat)
    requires Prepared(leader, followers, nbins, maxBinSize, seeds, oprfs, noise, s, results, F, share, shares)
    requires LookupOk(info, |leader|, nbins) && e < |leader| && LookupAt(info, s, leader, e)
    requires CommonSeated(leader, followers, nbins, maxBinSize, e, info.hashedBy[e])
    ensures Counted(info, results, F, |leader|, nbins, maxBinSize, share, e)
  {
    hide C.Rank, C.Once, C.Placed, C.FirstHash, CellsHold, HasSlot, Add, CellIndex, L.Matches, Seated, L.Total;
    var b, t, h := info.binIndex[e], info.tableIndex[e], info.hashedBy[e];
    C.RankFits(s, AddressesOf(leader), b);
    forall q | 0 <= q < |F|
      ensures HasSlot(F[q], nbins, maxBinSize, h, b, Add(results[q][t], shares[q][b]))
    {
      CommonSlot(followers[q], nbins, maxBinSize, oprfs[q], shares[q], noise[q], F[q], leader[e], b, h);
      assert ClientHolds(results[q], s, leader, oprfs[q]);
      assert results[q][t] == oprfs[q](b, leader[e].value);
    }
    AllShares(seeds(b), shares, b, |F| + 1, |F|);
    SharesCancel(seeds(b), |F| + 1);
    ChoiceExists(results, F, shares, |leader|, nbins, maxBinSize, b, t, h, share[b], 0);
    NoneAdded(LeaderSum(share[b], results, t, |F|));
    assert MaskSum(results, shares, t, b, 0) == {};
    var lo := CellIndex(nbins, maxBinSize, h, b, 0);
    MatchIsZero(F, lo, lo + maxBinSize, LeaderSum(share[b], results, t, |F|));
  }

  // ---------------------------------------------------------------- the whole run

  /** The followers' hashing fits the tables. */
  ghost predicate FollowersFit(followers: seq<seq<Hashed>>, nbins: nat, ntasks: nat, maxBinSize: nat)
    requires 0 < ntasks
  {
    forall q :: 0 <= q < |followers| ==>
      && HashesOk(followers[q], nbins) && (ntasks - 1) * CeilDivide(|followers[q]|, ntasks) <= |followers[q]|
      && BuffersSuffice(followers[q], nbins, maxBinSize)
  }

  /** All followers run, and the leader gets their cells and its own masks from them. */
  method RunFollowers(leader: seq<Hashed>, followers: seq<seq<Hashed>>, nbins: nat, ntasks: nat, maxBinSize: nat,
                      seeds: nat -> Seeds, oprfs: seq<Oprf>, noise: seq<seq<Poly>>, s: seq<int>)
      returns (results: seq<seq<Poly>>, F: L.Masks, ghost shares: seq<seq<Poly>>)
    requires HashesOk(leader, nbins) && 0 < nbins && 0 < ntasks && FollowersFit(followers, nbins, ntasks, maxBinSize)
    requires |oprfs| == |noise| == |followers|
    requires forall q :: 0 <= q < |noise| ==> |noise[q]| == CellIndex(nbins, maxBinSize, NUM_HASH_FUNCTIONS, 0, 0)
    requires |s| == nbins && C.Placed(s, AddressesOf(leader)) && C.Once(s)
    ensures Received(results, F, |leader|, nbins, maxBinSize) && |F| == |followers| == |shares|
    ensures forall q :: 0 <= q < |F| ==>
      && |shares[q]| == nbins
      && (forall b :: 0 <= b < nbins ==> shares[q][b] == ShareOf(seeds(b), |F| + 1, q + 2))
      && CellsHold(noise[q], F[q], followers[q], nbins, maxBinSize, oprfs[q], shares[q])
      && ClientHolds(results[q], s, leader, oprfs[q])
  {
    hide C.Placed, C.Once, C.Rank, BuffersSuffice, CellIndex, HashesOk, ShareOf, CeilDivide, CellsHold, ClientHolds;
    results, F, shares := [], [], [];
    var n := |followers| + 1;
    for q := 0 to |followers|
      invariant |results| == |F| == |shares| == q
      invariant forall p :: 0 <= p < q
                  ==> |results[p]| == |leader| && |F[p]| == CellIndex(nbins, maxBinSize, NUM_HASH_FUNCTIONS, 0, 0)
      invariant forall p :: 0 <= p < q ==>
        && |shares[p]| == nbins
        && (forall b :: 0 <= b < nbins ==> shares[p][b] == ShareOf(seeds(b), n, p + 2))
        && CellsHold(noise[p], F[p], followers[p], nbins, maxBinSize, oprfs[p], shares[p])
        && ClientHolds(results[p], s, leader, oprfs[p])
    {
      var share := AdditiveSecretShare(seeds, n, q + 2, nbins);
      var cells := FollowerRun(followers[q], nbins, ntasks, maxBinSize, oprfs[q], share[..], noise[q]);
      CellsSize(noise[q], cells, followers[q], nbins, maxBinSize, oprfs[q], share[..]);
      var masks := ClientMasks(s, leader, oprfs[q]);
      ClientIs(masks, s, leader, oprfs[q]);
      results, F, shares := results + [masks], F + [cells], shares + [share[..]];
    }
  }

  lemma CellsSize(noise: seq<Poly>, cells: seq<Poly>, hashes: seq<Hashed>, nbins: nat, maxBinSize: nat, oprf: Oprf,
                  share: seq<Poly>)
    requires HashesOk(hashes, nbins) && |share| == nbins
      && CellsHold(noise, cells, hashes, nbins, maxBinSize, oprf, share)
    ensures |cells| == CellIndex(nbins, maxBinSize, NUM_HASH_FUNCTIONS, 0, 0)
  {
    hide Content, HasSlot, CellIndex, HashesOk;
  }

  lemma ClientIs(masks: seq<Poly>, s: seq<int>, hashes: seq<Hashed>, oprf: Oprf)
    requires forall q: nat :: q < |s| && s[q] != C.EMPTY ==>
               0 <= s[q] < |hashes| && C.Rank(s, q) < |masks| && masks[C.Rank(s, q)] == oprf(q, hashes[s[q]].value)
    ensures ClientHolds(masks, s, hashes, oprf)
  {
    hide C.Rank;
  }

  /** The protocol from the hashed sets to the number that the leader reports: the size of the set `found` of its
      elements for which some choice of one slot per follower cancels its own sum.  The cells, masks and shares
      are those of the parties, s is the leader's cuckoo table; all common elements in it that have room in the
      followers' cells are found, except that element 0 may be missing when another element is.  If no insertion has
      failed and no cell overflows, those are all common elements, so that the number is at least theirs. */
  method Protocol(leader: seq<Hashed>, followers: seq<seq<Hashed>>, nbins: nat, ntasks: nat, maxBinSize: nat,
                  seeds: nat -> Seeds, oprfs: seq<Oprf>, noise: seq<seq<Poly>>, cores: nat)
      returns (fails: nat, size: nat, s: seq<int>, info: Lookup, results: seq<seq<Poly>>, F: L.Masks, share: seq<Poly>,
               ghost shares: seq<seq<Poly>>, ghost found: set<int>, ghost runs: seq<seq<C.Step>>, ghost oks: seq<bool>)
    requires HashesOk(leader, nbins) && 0 < nbins && 0 < ntasks && 0 < cores
      && FollowersFit(followers, nbins, ntasks, maxBinSize)
    requires |oprfs| == |noise| == |followers|
    requires forall q :: 0 <= q < |noise| ==> |noise[q]| == CellIndex(nbins, maxBinSize, NUM_HASH_FUNCTIONS, 0, 0)
    ensures C.AddressesOk(AddressesOf(leader), nbins)
      && C.CuckooRun(AddressesOf(leader), nbins, runs, oks, s, fails)
    ensures (forall e :: 0 <= e < |leader| ==> C.HasOwnBin(AddressesOf(leader), e)) ==> fails == 0
    ensures LookupOk(info, |leader|, nbins) && LookupIs(info, s, leader)
    ensures Prepared(leader, followers, nbins, maxBinSize, seeds, oprfs, noise, s, results, F, share, shares)
    ensures size == |found| <= |leader|
    ensures forall e ::
      e in found <==>
        && 0 <= e < |leader| && info.binIndex[e] != -1 && info.tableIndex[e] != -1
        && var b, t, h := info.binIndex[e], info.tableIndex[e], info.hashedBy[e];
           var lo := CellIndex(nbins, maxBinSize, h, b, 0);
           exists choice: seq<nat> ::
             L.Choice(F, choice, lo, lo + maxBinSize) && Add(LeaderTotal(share[b], results, t), L.Total(F, choice))
               == {}
    ensures forall e | 0 <= e < |leader| && e in C.Stored(s) && (0 < e || fails == 0)
                       && CommonSeated(leader, followers, nbins, maxBinSize, e, info.hashedBy[e]) :: e in found
    ensures fails == 0 && (forall q :: 0 <= q < |followers| ==> CellsSuffice(followers[q], nbins, maxBinSize)) ==>
      && |CommonElements(leader, followers)| <= size
      && forall e :: 0 <= e < |leader| && Common(leader, followers, e) ==> e in found
  {
    hide C.Placed, C.Once, C.Rank, CellIndex, HashesOk, ShareOf, CellsHold, ClientHolds, Counted, LookupOk, LookupIs,
      FollowersFit, CountIn, C.CuckooRun, C.Stored, L.Total, Add, LeaderTotal, C.HasOwnBin, LookupAt;
    fails, s, info, runs, oks := LeaderHashing(leader, nbins);
    var secretShare := AdditiveSecretShare(seeds, |followers| + 1, 1, nbins);
    share := secretShare[..];
    results, F, shares := RunFollowers(leader, followers, nbins, ntasks, maxBinSize, seeds, oprfs, noise, s);
    FollowersHash(followers, nbins, ntasks, maxBinSize);
    size := Run(secretShare, info, results, F, |leader|, nbins, maxBinSize, cores);
    found := CountIsSize(info, results, F, |leader|, nbins, maxBinSize, share, |leader|);
    LookupSizes(info, |leader|, nbins);
    forall e | 0 <= e < |leader| && e in C.Stored(s) && (0 < e || fails == 0)
               && CommonSeated(leader, followers, nbins, maxBinSize, e, info.hashedBy[e])
      ensures e in found
    {
      LookupOf(info, s, leader, e);
      CommonCounted(leader, followers, nbins, maxBinSize, seeds, oprfs, noise, s, info, results, F, share, shares, e);
    }
    if fails == 0 && forall q :: 0 <= q < |followers| ==> CellsSuffice(followers[q], nbins, maxBinSize) {
      forall e | 0 <= e < |leader| && Common(leader, followers, e)
        ensures e in found
      {
        AllStored(s, |leader|, e);
        LookupOf(info, s, leader, e);
        HashedBy(info, s, leader, nbins, e);
        CommonHasRoom(leader, followers, nbins, maxBinSize, e, info.hashedBy[e]);
      }
      C.SubsetSize(CommonElements(leader, followers), found);
    }
    C.SubsetSize(found, C.Range(|leader|));
    C.RangeSize(|leader|);
    CountedMeans(info, results, F, |leader|, nbins, maxBinSize, share, found);
  }

  /** What it means to be counted, for the elements of a set. */
  lemma CountedMeans(info: Lookup, results: seq<seq<Poly>>, F: L.Masks, n: nat, nbins: nat, maxBinSize: nat,
                     share: seq<Poly>, S: set<int>)
    requires LookupOk(info, n, nbins) && Received(results, F, n, nbins, maxBinSize) && |share| == nbins
    requires forall e :: e in S <==> 0 <= e < n && Counted(info, results, F, n, nbins, maxBinSize, share, e)
    ensures forall e ::
      e in S <==>
        && 0 <= e < n && info.binIndex[e] != -1 && info.tableIndex[e] != -1
        && var b, t, h := info.binIndex[e], info.tableIndex[e], info.hashedBy[e];
           var lo := CellIndex(nbins, maxBinSize, h, b, 0);
           exists choice: seq<nat> ::
             L.Choice(F, choice, lo, lo + maxBinSize) && Add(LeaderTotal(share[b], results, t), L.Total(F, choice))
               == {}
  {
    hide CellIndex, LeaderTotal, Add, L.Total;
  }

  lemma AllStored(s: seq<int>, n: nat, e: nat)
    requires |C.Stored(s)| == n && (forall x :: x in C.Stored(s) ==> 0 <= x < n) && e < n
    ensures e in C.Stored(s)
  {
    hide C.Stored;
    C.AllOfThem(C.Stored(s), n);
  }

  lemma LookupSizes(info: Lookup, n: nat, nbins: nat)
    requires LookupOk(info, n, nbins)
    ensures |info.binIndex| == |info.tableIndex| == |info.hashedBy| == n
  {
  }

  lemma HashedBy(info: Lookup, s: seq<int>, leader: seq<Hashed>, nbins: nat, e: nat)
    requires LookupOk(info, |leader|, nbins) && e < |leader| && LookupAt(info, s, leader, e)
    ensures 0 <= info.hashedBy[e] < NUM_HASH_FUNCTIONS
  {
  }

  /** The elements of the leader that all followers have. */
  ghost function CommonElements(leader: seq<Hashed>, followers: seq<seq<Hashed>>): (r: set<int>)
    ensures forall e :: e in r <==> 0 <= e < |leader| && Common(leader, followers, e)
  {
    set e | 0 <= e < |leader| && Common(leader, followers, e)
  }

  lemma FollowersHash(followers: seq<seq<Hashed>>, nbins: nat, ntasks: nat, maxBinSize: nat)
    requires 0 < ntasks && FollowersFit(followers, nbins, ntasks, maxBinSize)
    ensures forall q :: 0 <= q < |followers| ==> HashesOk(followers[q], nbins)
  {
    hide HashesOk, BuffersSuffice, CeilDivide;
  }
}
