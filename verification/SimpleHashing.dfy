/** The followers' hash table, PSI/src/hashing/simple_hashing.cpp: insertion into growing
    bins by several tasks and the flattening into arrays that index each other. */
module SimpleHashing {
  import opened Numbers
  import opened HashingUtil
  import Cuckoo

  /** What hashElement makes of an element: one bin per hash function and the rest of its bits. */
  datatype Hashed = Hashed(address: seq<nat>, value: nat)

  /** An entry of a bin: the element, the hash function that led it there, the stored value. */
  datatype Entry = Entry(index: nat, hashFunctionNum: nat, value: nat)

  predicate HashesOk(hashes: seq<Hashed>, nbins: nat) {
    forall e :: 0 <= e < |hashes| ==>
      |hashes[e].address| == NUM_HASH_FUNCTIONS
      && forall j :: 0 <= j < NUM_HASH_FUNCTIONS ==> hashes[e].address[j] < nbins
  }

  /** An earlier hash function leads to the same bin. */
  predicate Repeated(a: seq<nat>, i: nat)
    requires i < |a|
  {
    exists j :: 0 <= j < i && a[j] == a[i]
  }

  /** Only the first hash function that leads to a bin stores the value there, the others a dummy. */
  function EntryOf(hashes: seq<Hashed>, e: nat, i: nat): Entry
    requires e < |hashes| && i < |hashes[e].address|
  {
    Entry(e, i, if Repeated(hashes[e].address, i) then DUMMY_ENTRY_SERVER else hashes[e].value)
  }

  /** The entries of element e in bin b, for the first i hash functions. */
  function EntriesIn(hashes: seq<Hashed>, e: nat, b: nat, i: nat): seq<Entry>
    requires e < |hashes| && i <= |hashes[e].address|
  {
    if i == 0 then []
    else EntriesIn(hashes, e, b, i - 1) + (if hashes[e].address[i - 1] == b then [EntryOf(hashes, e, i - 1)] else [])
  }

  /** The entries of the elements lo to hi - 1 in bin b. */
  function Content(hashes: seq<Hashed>, nbins: nat, b: nat, lo: nat, hi: nat): seq<Entry>
    requires HashesOk(hashes, nbins) && lo <= hi <= |hashes|
    decreases hi
  {
    if hi == lo then [] else Content(hashes, nbins, b, lo, hi - 1) + EntriesIn(hashes, hi - 1, b, NUM_HASH_FUNCTIONS)
  }

  // ---------------------------------------------------------------- one table

  function CeilDivide(x: nat, y: nat): nat
    requires 0 < y
  {
    if x > 0 then (x - 1) / y + 1 else 0
  }

  function FirstBinSize(nelements: nat, nbins: nat): (m: nat)
    requires 0 < nbins
    ensures 9 <= m
  {
    if CeilDivide(nelements, nbins) < 3
    then 3 * Max(if nelements == 0 then 0 else CeilLog2(nelements), 3)
    else 6 * Max(CeilDivide(nelements, nbins), 3)
  }

  class HashTable {
    const nbins: nat
    var slots: array2<Entry>
    var nvals: array<nat>
    var maxbinsize: nat

    ghost predicate Valid()
      reads this, slots, nvals
    {
      && slots.Length0 == nbins == nvals.Length && slots.Length1 == maxbinsize && 0 < maxbinsize
      && forall b :: 0 <= b < nbins ==> nvals[b] < maxbinsize
    }

    /** The entries of bin b. */
    ghost function Bin(b: nat): (s: seq<Entry>)
      requires Valid() && b < nbins
      reads this, slots, nvals
      ensures |s| == nvals[b] && forall l :: 0 <= l < |s| ==> s[l] == slots[b, l]
    {
      seq(nvals[b], l requires Valid() && b < nbins && 0 <= l < nvals[b] reads this, slots, nvals => slots[b, l])
    }

    /** init_hash_table. */
    constructor (nelements: nat, numBins: nat)
      requires 0 < numBins
      ensures Valid() && nbins == numBins && fresh(slots) && fresh(nvals)
      ensures forall b :: 0 <= b < nbins ==> Bin(b) == []
    {
      nbins := numBins;
      maxbinsize := FirstBinSize(nelements, numBins);
      slots := new Entry[numBins, FirstBinSize(nelements, numBins)]((b, l) => Entry(0, 0, 0));
      nvals := new nat[numBins](b => 0);
    }

    /** increase_max_bin_size: all bins move to buffers of twice the size. */
    method IncreaseMaxBinSize()
      requires slots.Length0 == nbins == nvals.Length && slots.Length1 == maxbinsize && 0 < maxbinsize
      requires forall b :: 0 <= b < nbins ==> nvals[b] <= maxbinsize
      modifies this
      ensures Valid() && fresh(slots) && nvals == old(nvals) && maxbinsize == 2 * old(maxbinsize)
      ensures forall b, l :: 0 <= b < nbins && 0 <= l < nvals[b] ==> slots[b, l] == old(slots[b, l])
    {
      var bigger := new Entry[nbins, 2 * maxbinsize]((b, l) => Entry(0, 0, 0));
      for b := 0 to nbins
        modifies bigger
        invariant forall c, l :: 0 <= c < b && 0 <= l < nvals[c] ==> bigger[c, l] == slots[c, l]
      {
        for l := 0 to nvals[b]
          modifies bigger
          invariant forall c, k :: 0 <= c < b && 0 <= k < nvals[c] ==> bigger[c, k] == slots[c, k]
          invariant forall k :: 0 <= k < l ==> bigger[b, k] == slots[b, k]
        {
          bigger[b, l] := slots[b, l];
        }
      }
      slots := bigger;
      maxbinsize := 2 * maxbinsize;
    }

    /** One entry behind those of bin b, with growth when the bin is full. */
    method Append(b: nat, x: Entry)
      requires Valid() && b < nbins
      modifies this, slots, nvals
      ensures Valid() && nvals == old(nvals) && (slots == old(slots) || fresh(slots))
      ensures forall c :: 0 <= c < nbins ==> Bin(c) == if c == b then old(Bin(c)) + [x] else old(Bin(c))
    {
      slots[b, nvals[b]] := x;
      nvals[b] := nvals[b] + 1;
      if nvals[b] == maxbinsize {
        IncreaseMaxBinSize();
      }
      forall c | 0 <= c < nbins
        ensures Bin(c) == if c == b then old(Bin(c)) + [x] else old(Bin(c))
      {
      }
    }

    /** insert_element. */
    method InsertElement(hashes: seq<Hashed>, index: nat)
      requires Valid() && HashesOk(hashes, nbins) && index < |hashes|
      modifies this, slots, nvals
      ensures Valid() && nvals == old(nvals) && (slots == old(slots) || fresh(slots))
      ensures forall b :: 0 <= b < nbins ==> Bin(b) == old(Bin(b)) + EntriesIn(hashes, index, b, NUM_HASH_FUNCTIONS)
      ensures forall b | 0 <= b < nbins :: EntriesFollow(hashes, index, b, old(Bin(b)), Bin(b))
    {
      var address := hashes[index].address;
      var i := 0;
      while i < NUM_HASH_FUNCTIONS
        invariant 0 <= i <= NUM_HASH_FUNCTIONS
        invariant Valid() && nvals == old(nvals) && (slots == old(slots) || fresh(slots))
        invariant forall b :: 0 <= b < nbins ==> Bin(b) == old(Bin(b)) + EntriesIn(hashes, index, b, i)
      {
        var value := hashes[index].value;
        for j := 0 to i
          invariant value == if exists k ::
            0 <= k < j && address[k] == address[i] then DUMMY_ENTRY_SERVER else hashes[index].value
        {
          if address[i] == address[j] {
            value := DUMMY_ENTRY_SERVER;
          }
        }
        Append(address[i], Entry(index, i, value));
        i := i + 1;
      }
      forall b | 0 <= b < nbins
        ensures EntriesFollow(hashes, index, b, old(Bin(b)), Bin(b))
      {
        EntriesMean(hashes, nbins, index, b, old(Bin(b)), Bin(b));
      }
    }

    /** gen_entries: the elements of one task. */
    method GenEntries(hashes: seq<Hashed>, startpos: nat, endpos: nat)
      requires Valid() && HashesOk(hashes, nbins) && startpos <= endpos <= |hashes|
      requires forall b :: 0 <= b < nbins ==> Bin(b) == []
      modifies this, slots, nvals
      ensures Valid() && nvals == old(nvals) && (slots == old(slots) || fresh(slots))
      ensures forall b :: 0 <= b < nbins ==> Bin(b) == Content(hashes, nbins, b, startpos, endpos)
    {
      hide EntriesIn, HashesOk;
      for i := startpos to endpos
        invariant Valid() && nvals == old(nvals) && (slots == old(slots) || fresh(slots))
        invariant forall b :: 0 <= b < nbins ==> Bin(b) == Content(hashes, nbins, b, startpos, i)
      {
        InsertElement(hashes, i);
      }
    }
  }

  // ---------------------------------------------------------------- the entries of all bins

  /** The number by which the index arrays know the entry of element e and hash function i. */
  function CodeOf(e: nat, i: nat): nat {
    NUM_HASH_FUNCTIONS * e + i
  }

  function Code(x: Entry): nat {
    CodeOf(x.index, x.hashFunctionNum)
  }

  /** x is what one of the elements lo to hi - 1 leaves in bin b. */
  ghost predicate Belongs(hashes: seq<Hashed>, nbins: nat, x: Entry, b: nat, lo: nat, hi: nat)
    requires HashesOk(hashes, nbins) && hi <= |hashes|
  {
    && lo <= x.index < hi && x.hashFunctionNum < NUM_HASH_FUNCTIONS
    && hashes[x.index].address[x.hashFunctionNum] == b && x == EntryOf(hashes, x.index, x.hashFunctionNum)
  }

  /** The entries are in the order of their codes. */
  ghost predicate Ordered(s: seq<Entry>) {
    forall k, l :: 0 <= k < l < |s| ==> Code(s[k]) < Code(s[l])
  }

  lemma {:induction false} EntriesBelong(hashes: seq<Hashed>, nbins: nat, e: nat, b: nat, i: nat)
    requires HashesOk(hashes, nbins) && e < |hashes| && i <= NUM_HASH_FUNCTIONS
    ensures forall x :: x in EntriesIn(hashes, e, b, i)
              ==> Belongs(hashes, nbins, x, b, e, e + 1) && x.hashFunctionNum < i
    ensures Ordered(EntriesIn(hashes, e, b, i))
    ensures forall j :: 0 <= j < i && hashes[e].address[j] == b ==> EntryOf(hashes, e, j) in EntriesIn(hashes, e, b, i)
  {
    hide EntryOf;
    if i > 0 {
      EntriesBelong(hashes, nbins, e, b, i - 1);
      EntryNames(hashes, e, i - 1);
    }
  }

  lemma EntryNames(hashes: seq<Hashed>, e: nat, i: nat)
    requires e < |hashes| && i < |hashes[e].address|
    ensures EntryOf(hashes, e, i).index == e && EntryOf(hashes, e, i).hashFunctionNum == i
  {
  }

  /** The value of an entry: the element's if no earlier hash function leads to the same bin. */
  lemma EntryValue(hashes: seq<Hashed>, e: nat, i: nat)
    requires e < |hashes| && i < |hashes[e].address|
    ensures EntryOf(hashes, e, i).value
         == if Cuckoo.FirstHash(hashes[e].address, hashes[e].address[i], i) then hashes[e].value else 0
  {
  }

  /** Bin b got one entry for every hash function that leads element e there, in the order of these: with the value of
      the
      element for the first of them, and with the dummy value for the others. */
  ghost predicate EntriesFollow(hashes: seq<Hashed>, e: nat, b: nat, before: seq<Entry>, after: seq<Entry>)
    requires e < |hashes| && |hashes[e].address| == NUM_HASH_FUNCTIONS
  {
    var a := hashes[e].address;
    && before <= after
    && (forall l | |before| <= l < |after| ::
          && after[l].index == e && after[l].hashFunctionNum < NUM_HASH_FUNCTIONS && a[after[l].hashFunctionNum] == b
          && after[l].value == if Cuckoo.FirstHash(a, b, after[l].hashFunctionNum) then hashes[e].value else 0)
    && (forall k, l | |before| <= k < l < |after| :: after[k].hashFunctionNum < after[l].hashFunctionNum)
    && (forall i: nat | i < NUM_HASH_FUNCTIONS && a[i] == b :: HasFrom(after, |before|, i))
  }

  /** From position n on there is an entry of hash function i. */
  ghost predicate HasFrom(s: seq<Entry>, n: nat, i: nat) {
    exists l :: n <= l < |s| && s[l].hashFunctionNum == i
  }

  /** What an element leaves in a bin. */
  lemma EntriesMean(hashes: seq<Hashed>, nbins: nat, e: nat, b: nat, before: seq<Entry>, after: seq<Entry>)
    requires HashesOk(hashes, nbins) && e < |hashes|
    requires after == before + EntriesIn(hashes, e, b, NUM_HASH_FUNCTIONS)
    ensures EntriesFollow(hashes, e, b, before, after)
  {
    hide EntryOf, EntriesIn, Cuckoo.FirstHash;
    var s := EntriesIn(hashes, e, b, NUM_HASH_FUNCTIONS);
    EntriesBelong(hashes, nbins, e, b, NUM_HASH_FUNCTIONS);
    forall l | |before| <= l < |after|
      ensures after[l] in s
      ensures after[l].value
           == if Cuckoo.FirstHash(hashes[e].address, b, after[l].hashFunctionNum) then hashes[e].value else 0
    {
      assert after[l] == s[l - |before|];
      EntryValue(hashes, e, after[l].hashFunctionNum);
    }
    forall i: nat | i < NUM_HASH_FUNCTIONS && hashes[e].address[i] == b
      ensures HasFrom(after, |before|, i)
    {
      EntryNames(hashes, e, i);
      var l :| 0 <= l < |s| && s[l] == EntryOf(hashes, e, i);
      assert after[|before| + l] == s[l];
    }
  }

  lemma {:induction false} ContentBelongs(hashes: seq<Hashed>, nbins: nat, b: nat, lo: nat, hi: nat)
    requires HashesOk(hashes, nbins) && lo <= hi <= |hashes|
    ensures forall x :: x in Content(hashes, nbins, b, lo, hi) ==> Belongs(hashes, nbins, x, b, lo, hi)
    ensures Ordered(Content(hashes, nbins, b, lo, hi))
    decreases hi
  {
    hide EntryOf, EntriesIn;
    if hi > lo {
      ContentBelongs(hashes, nbins, b, lo, hi - 1);
      EntriesBelong(hashes, nbins, hi - 1, b, NUM_HASH_FUNCTIONS);
      var s, t := Content(hashes, nbins, b, lo, hi - 1), EntriesIn(hashes, hi - 1, b, NUM_HASH_FUNCTIONS);
      forall k, l | 0 <= k < l < |s + t|
        ensures Code((s + t)[k]) < Code((s + t)[l])
      {
        if k < |s| <= l {
          assert s[k] in s && t[l - |s|] in t;
        }
      }
    }
  }

  lemma {:induction false} ContentHas(hashes: seq<Hashed>, nbins: nat, lo: nat, hi: nat, e: nat, i: nat)
    requires HashesOk(hashes, nbins) && lo <= e < hi <= |hashes| && i < NUM_HASH_FUNCTIONS
    ensures EntryOf(hashes, e, i) in Content(hashes, nbins, hashes[e].address[i], lo, hi)
    decreases hi
  {
    hide EntryOf, EntriesIn;
    if e == hi - 1 {
      EntriesBelong(hashes, nbins, e, hashes[e].address[i], NUM_HASH_FUNCTIONS);
    } else {
      ContentHas(hashes, nbins, lo, hi - 1, e, i);
    }
  }

  /** How the elements are shared out among tasks makes no difference. */
  lemma {:induction false} ContentSplit(hashes: seq<Hashed>, nbins: nat, b: nat, lo: nat, mid: nat, hi: nat)
    requires HashesOk(hashes, nbins) && lo <= mid <= hi <= |hashes|
    ensures Content(hashes, nbins, b, lo, mid) + Content(hashes, nbins, b, mid, hi) == Content(hashes, nbins, b, lo, hi)
    decreases hi
  {
    hide EntriesIn;
    if mid < hi {
      ContentSplit(hashes, nbins, b, lo, mid, hi - 1);
    }
  }

  /** The bins below k one behind the other. */
  ghost function Table(hashes: seq<Hashed>, nbins: nat, k: nat): seq<Entry>
    requires HashesOk(hashes, nbins)
  {
    if k == 0 then [] else Table(hashes, nbins, k - 1) + Content(hashes, nbins, k - 1, 0, |hashes|)
  }

  lemma {:induction false} TablePrefix(hashes: seq<Hashed>, nbins: nat, k: nat, m: nat)
    requires HashesOk(hashes, nbins) && k <= m
    ensures Table(hashes, nbins, k) <= Table(hashes, nbins, m)
    decreases m
  {
    hide Content;
    if k < m {
      TablePrefix(hashes, nbins, k, m - 1);
    }
  }

  ghost predicate Distinct(s: seq<Entry>) {
    forall k, l :: 0 <= k < l < |s| ==> Code(s[k]) != Code(s[l])
  }

  lemma {:induction false} TableDistinct(hashes: seq<Hashed>, nbins: nat, k: nat)
    requires HashesOk(hashes, nbins)
    ensures Distinct(Table(hashes, nbins, k))
    ensures forall x :: x in Table(hashes, nbins, k) ==>
      exists b :: 0 <= b < k && Belongs(hashes, nbins, x, b, 0, |hashes|)
  {
    hide Content, EntryOf;
    if k > 0 {
      TableDistinct(hashes, nbins, k - 1);
      ContentBelongs(hashes, nbins, k - 1, 0, |hashes|);
      var s, t := Table(hashes, nbins, k - 1), Content(hashes, nbins, k - 1, 0, |hashes|);
      forall i, l | 0 <= i < l < |s + t|
        ensures Code((s + t)[i]) != Code((s + t)[l])
      {
        if i < |s| <= l {
          var x, y := s[i], t[l - |s|];
          assert x in s && y in t;
          OtherBin(hashes, nbins, x, y, k - 1);
        }
      }
    }
  }

  lemma OtherBin(hashes: seq<Hashed>, nbins: nat, x: Entry, y: Entry, b: nat)
    requires HashesOk(hashes, nbins) && Belongs(hashes, nbins, y, b, 0, |hashes|)
    requires exists c :: 0 <= c < b && Belongs(hashes, nbins, x, c, 0, |hashes|)
    ensures Code(x) != Code(y)
  {
    hide EntryOf;
    assert Code(x) / 3 == x.index && Code(y) / 3 == y.index;
  }

  lemma {:induction false} TableHas(hashes: seq<Hashed>, nbins: nat, k: nat, e: nat, i: nat)
    requires HashesOk(hashes, nbins) && e < |hashes| && i < NUM_HASH_FUNCTIONS && hashes[e].address[i] < k
    ensures EntryOf(hashes, e, i) in Table(hashes, nbins, k)
    decreases k
  {
    hide Content, EntryOf;
    if hashes[e].address[i] == k - 1 {
      ContentHas(hashes, nbins, 0, |hashes|, e, i);
    } else {
      TableHas(hashes, nbins, k - 1, e, i);
    }
  }

  function Codes(s: seq<Entry>): (c: set<int>)
    ensures forall x :: x in s ==> Code(x) in c
  {
    if s == [] then {} else Codes(s[..|s| - 1]) + {Code(s[|s| - 1])}
  }

  lemma {:induction false} CodesCount(s: seq<Entry>)
    requires Distinct(s)
    ensures |Codes(s)| == |s| && forall c :: c in Codes(s) ==> exists k :: 0 <= k < |s| && Code(s[k]) == c
  {
    if s != [] {
      var r := s[..|s| - 1];
      CodesCount(r);
    }
  }

  /** Every element has three entries. */
  lemma TableLength(hashes: seq<Hashed>, nbins: nat)
    requires HashesOk(hashes, nbins)
    ensures |Table(hashes, nbins, nbins)| == NUM_HASH_FUNCTIONS * |hashes|
  {
    hide Table, EntryOf, Codes;
    var T, n := Table(hashes, nbins, nbins), NUM_HASH_FUNCTIONS * |hashes|;
    TableDistinct(hashes, nbins, nbins);
    CodesCount(T);
    var all := Cuckoo.Range(n);
    Cuckoo.RangeSize(n);
    forall c
      ensures c in Codes(T) <==> c in all
    {
      if c in Codes(T) {
        var k :| 0 <= k < |T| && Code(T[k]) == c;
        assert T[k] in T;
      }
      if c in all {
        var e, i := c / 3, c % 3;
        TableHas(hashes, nbins, nbins, e, i);
        EntryNames(hashes, e, i);
        assert Code(EntryOf(hashes, e, i)) == c;
      }
    }
    assert Codes(T) == all;
  }

  // ---------------------------------------------------------------- the shares of the tasks

  /** Where the elements of task i begin. */
  function TaskStart(neles: nat, ntasks: nat, i: nat): (s: nat)
    requires 0 < ntasks
    ensures s <= neles
  {
    var c := CeilDivide(neles, ntasks);
    if i * c <= neles then (if 0 <= i * c then i * c else 0) else neles
  }

  /** The tasks share out all elements, provided that the last one does not start behind them. */
  lemma TasksCover(neles: nat, ntasks: nat)
    requires 0 < ntasks
    ensures TaskStart(neles, ntasks, 0) == 0 && TaskStart(neles, ntasks, ntasks) == neles
  {
    var c := CeilDivide(neles, ntasks);
    if neles > 0 {
      assert neles - 1 == ntasks * ((neles - 1) / ntasks) + (neles - 1) % ntasks;
      assert ntasks * c == ntasks * ((neles - 1) / ntasks) + ntasks;
    }
  }

  lemma TaskBounds(neles: nat, ntasks: nat, i: nat)
    requires 0 < ntasks && i < ntasks && (ntasks - 1) * CeilDivide(neles, ntasks) <= neles
    ensures i * CeilDivide(neles, ntasks) >= 0 && TaskStart(neles, ntasks, i) == i * CeilDivide(neles, ntasks)
    ensures TaskStart(neles, ntasks, i + 1)
         == if i * CeilDivide(neles, ntasks) + CeilDivide(neles, ntasks) < neles
           then i * CeilDivide(neles, ntasks) + CeilDivide(neles, ntasks) else neles
    ensures TaskStart(neles, ntasks, i) <= TaskStart(neles, ntasks, i + 1)
  {
    var c := CeilDivide(neles, ntasks);
    TimesMonotone(i, ntasks - 1, c);
    assert (i + 1) * c == i * c + c;
  }

  lemma TimesMonotone(a: nat, b: nat, c: nat)
    requires a <= b
    ensures 0 <= a * c <= b * c
  {
    assert b * c == a * c + (b - a) * c;
  }

  /** The bins that task j leaves behind. */
  ghost predicate TaskDone(tables: seq<seq<seq<Entry>>>, hashes: seq<Hashed>, nbins: nat, ntasks: nat, j: nat)
    requires HashesOk(hashes, nbins) && 0 < ntasks && j < |tables|
  {
    && TaskStart(|hashes|, ntasks, j) <= TaskStart(|hashes|, ntasks, j + 1) && |tables[j]| == nbins
    && forall b :: 0 <= b < nbins ==>
      tables[j][b] == Content(hashes, nbins, b, TaskStart(|hashes|, ntasks, j), TaskStart(|hashes|, ntasks, j + 1))
  }

  ghost predicate TasksDone(tables: seq<seq<seq<Entry>>>, hashes: seq<Hashed>, nbins: nat, ntasks: nat, done: nat)
    requires HashesOk(hashes, nbins) && 0 < ntasks
  {
    |tables| == done && forall j: nat :: j < done ==> TaskDone(tables, hashes, nbins, ntasks, j)
  }

  /** All tasks, one after the other, each with a table of its own. */
  method RunTasks(hashes: seq<Hashed>, nbins: nat, ntasks: nat) returns (tables: seq<seq<seq<Entry>>>)
    requires HashesOk(hashes, nbins) && 0 < nbins && 0 < ntasks
      && (ntasks - 1) * CeilDivide(|hashes|, ntasks) <= |hashes|
    ensures TasksDone(tables, hashes, nbins, ntasks, ntasks)
  {
    hide Content, HashesOk, TaskStart, CeilDivide;
    var neles := |hashes|;
    tables := [];
    for i := 0 to ntasks
      invariant TasksDone(tables, hashes, nbins, ntasks, i)
    {
      TaskBounds(neles, ntasks, i);
      var bins := RunTask(hashes, nbins, CeilDivide(neles, ntasks), TaskStart(neles, ntasks, i),
        TaskStart(neles, ntasks, i + 1));
      ghost var before := tables;
      tables := tables + [bins];
      forall j: nat | j < i
        ensures TaskDone(tables, hashes, nbins, ntasks, j)
      {
        assert TaskDone(before, hashes, nbins, ntasks, j) && tables[j] == before[j];
      }
    }
  }

  method RunTask(hashes: seq<Hashed>, nbins: nat, nelements: nat, startpos: nat, endpos: nat)
      returns (bins: seq<seq<Entry>>)
    requires HashesOk(hashes, nbins) && 0 < nbins && startpos <= endpos <= |hashes|
    ensures |bins| == nbins && forall b :: 0 <= b < nbins ==> bins[b] == Content(hashes, nbins, b, startpos, endpos)
  {
    hide Content, HashesOk;
    var table := new HashTable(nelements, nbins);
    table.GenEntries(hashes, startpos, endpos);
    bins := [];
    for b := 0 to nbins
      invariant |bins| == b && forall c :: 0 <= c < b ==> bins[c] == Content(hashes, nbins, c, startpos, endpos)
    {
      var bin := [];
      for l := 0 to table.nvals[b]
        invariant bin == table.Bin(b)[..l]
      {
        bin := bin + [table.slots[b, l]];
      }
      bins := bins + [bin];
    }
  }

  // ---------------------------------------------------------------- flattening

  /** What simple_hashing returns. */
  datatype SimpleHashOutput = SimpleHashOutput(resBins: array<nat>, nelesinbin: array<nat>,
                                               elementsToHashTable: array<nat>, binToElements: array<nat>)

  /** The first `progress` positions agree with the table and the two index arrays with each other. */
  ghost predicate Flattened(T: seq<Entry>, res: seq<nat>, elements: seq<nat>, bins: seq<nat>, progress: nat) {
    && progress <= |T| == |res| == |elements| == |bins|
    && (forall p :: 0 <= p < progress ==> res[p] == T[p].value && bins[p] == Code(T[p]))
    && (forall p :: 0 <= p < progress ==> Code(T[p]) < |elements| && elements[Code(T[p])] == p)
  }

  lemma FlattenStep(T: seq<Entry>, res: seq<nat>, elements: seq<nat>, bins: seq<nat>, p: nat)
    requires Distinct(T) && p < |T| && Code(T[p]) < |T| && Flattened(T, res, elements, bins, p)
    ensures Flattened(T, res[p := T[p].value], elements[Code(T[p]) := p], bins[p := Code(T[p])], p + 1)
  {
    hide Code;
  }

  lemma CodeBound(hashes: seq<Hashed>, nbins: nat, p: nat)
    requires HashesOk(hashes, nbins) && p < |Table(hashes, nbins, nbins)|
    ensures Code(Table(hashes, nbins, nbins)[p]) < NUM_HASH_FUNCTIONS * |hashes|
  {
    hide Table, EntryOf;
    TableDistinct(hashes, nbins, nbins);
    assert Table(hashes, nbins, nbins)[p] in Table(hashes, nbins, nbins);
  }

  /** The entries that task j has put into bin i lie at this position. */
  lemma TaskEntries(hashes: seq<Hashed>, nbins: nat, i: nat, lo: nat, hi: nat, l: nat)
    requires HashesOk(hashes, nbins) && i < nbins && lo <= hi <= |hashes| && l < |Content(hashes, nbins, i, lo, hi)|
    ensures var p := |Table(hashes, nbins, i)| + |Content(hashes, nbins, i, 0, lo)| + l;
      p < |Table(hashes, nbins, nbins)| && Table(hashes, nbins, nbins)[p] == Content(hashes, nbins, i, lo, hi)[l]
  {
    hide Content;
    TablePrefix(hashes, nbins, i + 1, nbins);
    ContentSplit(hashes, nbins, i, 0, lo, hi);
    ContentSplit(hashes, nbins, i, 0, hi, |hashes|);
    var T, before := Table(hashes, nbins, nbins), Table(hashes, nbins, i);
    var c := Content(hashes, nbins, i, 0, |hashes|);
    var p := |before| + |Content(hashes, nbins, i, 0, lo)| + l;
    assert (before + c)[p] == c[p - |before|];
    assert T[p] == Table(hashes, nbins, i + 1)[p];
  }

  /** The flattening loop of simple_hashing. */
  method Flatten(tables: seq<seq<seq<Entry>>>, hashes: seq<Hashed>, nbins: nat, ntasks: nat)
      returns (out: SimpleHashOutput)
    requires HashesOk(hashes, nbins) && 0 < nbins && 0 < ntasks && TasksDone(tables, hashes, nbins, ntasks, ntasks)
    ensures Flattened(Table(hashes, nbins, nbins), out.resBins[..], out.elementsToHashTable[..], out.binToElements[..],
      |Table(hashes, nbins, nbins)|)
    ensures out.nelesinbin.Length == nbins
      && forall b :: 0 <= b < nbins ==> out.nelesinbin[b] == |Content(hashes, nbins, b, 0, |hashes|)|
    ensures fresh(out.resBins) && fresh(out.nelesinbin) && fresh(out.elementsToHashTable) && fresh(out.binToElements)
  {
    hide Content, HashesOk, TaskStart, Table, Flattened, Distinct;
    var total := NUM_HASH_FUNCTIONS * |hashes|;
    var res, elements, bins, nelesinbin := new nat[total], new nat[total], new nat[total], new nat[nbins];
    out := SimpleHashOutput(res, nelesinbin, elements, bins);
    TableLength(hashes, nbins);
    TasksCover(|hashes|, ntasks);
    ghost var T := Table(hashes, nbins, nbins);
    FlattenedNone(T, res[..], elements[..], bins[..]);
    TableNone(hashes, nbins);
    var progress: nat := 0;
    for i := 0 to nbins
      invariant progress == |Table(hashes, nbins, i)|
      invariant Flattened(T, res[..], elements[..], bins[..], progress)
      invariant forall b :: 0 <= b < i ==> nelesinbin[b] == |Content(hashes, nbins, b, 0, |hashes|)|
    {
      ghost var before := nelesinbin[..];
      progress := FlattenBin(tables, hashes, nbins, ntasks, i, progress, out);
      TableNext(hashes, nbins, i);
    }
    TableWhole(T, progress);
  }

  lemma FlattenedNone(T: seq<Entry>, res: seq<nat>, elements: seq<nat>, bins: seq<nat>)
    requires |T| == |res| == |elements| == |bins|
    ensures Flattened(T, res, elements, bins, 0)
  {
  }

  lemma TableNone(hashes: seq<Hashed>, nbins: nat)
    requires HashesOk(hashes, nbins)
    ensures Table(hashes, nbins, 0) == []
  {
  }

  lemma TableNext(hashes: seq<Hashed>, nbins: nat, i: nat)
    requires HashesOk(hashes, nbins)
    ensures |Table(hashes, nbins, i + 1)| == |Table(hashes, nbins, i)| + |Content(hashes, nbins, i, 0, |hashes|)|
  {
    hide Content;
  }

  lemma TableWhole(T: seq<Entry>, progress: nat)
    requires progress == |T|
    ensures T[..progress] == T
  {
  }

  /** One bin: the parts of all tasks. */
  method FlattenBin(tables: seq<seq<seq<Entry>>>, hashes: seq<Hashed>, nbins: nat, ntasks: nat, i: nat, start: nat,
                    out: SimpleHashOutput)
      returns (progress: nat)
    requires HashesOk(hashes, nbins) && 0 < ntasks && i < nbins && TasksDone(tables, hashes, nbins, ntasks, ntasks)
    requires start == |Table(hashes, nbins, i)| && out.nelesinbin.Length == nbins
    requires Flattened(Table(hashes, nbins, nbins), out.resBins[..], out.elementsToHashTable[..], out.binToElements[..],
      start)
    requires out.resBins != out.elementsToHashTable && out.resBins != out.binToElements
      && out.elementsToHashTable != out.binToElements
    requires out.nelesinbin != out.resBins && out.nelesinbin != out.elementsToHashTable
      && out.nelesinbin != out.binToElements
    modifies out.resBins, out.elementsToHashTable, out.binToElements, out.nelesinbin
    ensures progress == |Table(hashes, nbins, i)| + |Content(hashes, nbins, i, 0, |hashes|)|
    ensures Flattened(Table(hashes, nbins, nbins), out.resBins[..], out.elementsToHashTable[..], out.binToElements[..],
      progress)
    ensures out.nelesinbin[i] == |Content(hashes, nbins, i, 0, |hashes|)|
    ensures forall b :: 0 <= b < nbins && b != i ==> out.nelesinbin[b] == old(out.nelesinbin[b])
  {
    hide Content, HashesOk, TaskStart, Table, Flattened, Distinct, Code;
    ghost var T, counts := Table(hashes, nbins, nbins), out.nelesinbin[..];
    TasksCover(|hashes|, ntasks);
    TableDistinct(hashes, nbins, nbins);
    TableLength(hashes, nbins);
    ContentNone(hashes, nbins, i);
    progress := start;
    out.nelesinbin[i] := 0;
    for j := 0 to ntasks
      invariant out.nelesinbin[i] == |Content(hashes, nbins, i, 0, TaskStart(|hashes|, ntasks, j))|
      invariant progress == start + out.nelesinbin[i]
      invariant forall b :: 0 <= b < nbins && b != i ==> out.nelesinbin[b] == counts[b]
      invariant Flattened(T, out.resBins[..], out.elementsToHashTable[..], out.binToElements[..], progress)
    {
      assert TaskDone(tables, hashes, nbins, ntasks, j);
      var part := tables[j][i];
      ghost var lo, hi := TaskStart(|hashes|, ntasks, j), TaskStart(|hashes|, ntasks, j + 1);
      assert lo <= hi && part == Content(hashes, nbins, i, lo, hi);
      ContentSplit(hashes, nbins, i, 0, lo, hi);
      out.nelesinbin[i] := out.nelesinbin[i] + |part|;
      for l := 0 to |part|
        modifies out.resBins, out.elementsToHashTable, out.binToElements
        invariant Flattened(T, out.resBins[..], out.elementsToHashTable[..], out.binToElements[..], progress + l)
      {
        TaskEntries(hashes, nbins, i, lo, hi, l);
        CodeBound(hashes, nbins, progress + l);
        StoreEntry(out, T, progress + l, part[l]);
      }
      progress := progress + |part|;
    }
  }

  lemma ContentNone(hashes: seq<Hashed>, nbins: nat, b: nat)
    requires HashesOk(hashes, nbins)
    ensures Content(hashes, nbins, b, 0, 0) == []
  {
  }

  method StoreEntry(out: SimpleHashOutput, ghost T: seq<Entry>, p: nat, x: Entry)
    requires Distinct(T) && p < |T| && x == T[p] && Code(x) < |T|
    requires Flattened(T, out.resBins[..], out.elementsToHashTable[..], out.binToElements[..], p)
    requires out.resBins != out.elementsToHashTable && out.resBins != out.binToElements
      && out.elementsToHashTable != out.binToElements
    modifies out.resBins, out.elementsToHashTable, out.binToElements
    ensures Flattened(T, out.resBins[..], out.elementsToHashTable[..], out.binToElements[..], p + 1)
  {
    hide Distinct, Code;
    ghost var r, e, b := out.resBins[..], out.elementsToHashTable[..], out.binToElements[..];
    FlattenStep(T, r, e, b, p);
    assert p < |r| == |e| == |b| == |T|;
    out.resBins[p] := x.value;
    out.elementsToHashTable[Code(x)] := p;
    out.binToElements[p] := Code(x);
    assert out.resBins[..] == r[p := x.value] && out.elementsToHashTable[..] == e[Code(x) := p]
      && out.binToElements[..] == b[p := Code(x)];
  }

  /** simple_hashing. */
  method SimpleHash(hashes: seq<Hashed>, nbins: nat, ntasks: nat) returns (out: SimpleHashOutput)
    requires HashesOk(hashes, nbins) && 0 < nbins && 0 < ntasks
      && (ntasks - 1) * CeilDivide(|hashes|, ntasks) <= |hashes|
    ensures Flattened(Table(hashes, nbins, nbins), out.resBins[..], out.elementsToHashTable[..], out.binToElements[..],
      |Table(hashes, nbins, nbins)|)
    ensures out.nelesinbin.Length == nbins
      && forall b :: 0 <= b < nbins ==> out.nelesinbin[b] == |Content(hashes, nbins, b, 0, |hashes|)|
    ensures fresh(out.resBins) && fresh(out.nelesinbin) && fresh(out.elementsToHashTable) && fresh(out.binToElements)
    ensures |out.resBins[..]| == |out.elementsToHashTable[..]| == |out.binToElements[..]|
      == NUM_HASH_FUNCTIONS * |hashes|
    ensures forall e: nat, i: nat | e < |hashes| && i < NUM_HASH_FUNCTIONS ::
      var a, p := hashes[e].address, out.elementsToHashTable[CodeOf(e, i)];
      && StartOf(out.nelesinbin[..], a[i]) <= p < StartOf(out.nelesinbin[..], a[i] + 1) && p < out.resBins.Length
      && out.binToElements[p] == CodeOf(e, i)
      && out.resBins[p] == if Cuckoo.FirstHash(a, a[i], i) then hashes[e].value else 0
    ensures forall e: nat, i: nat, f: nat, j: nat |
      e < |hashes| && i < NUM_HASH_FUNCTIONS && f < |hashes| && j < NUM_HASH_FUNCTIONS
      && hashes[e].address[i] == hashes[f].address[j]
      && CodeOf(e, i) < CodeOf(f, j) ::
      out.elementsToHashTable[CodeOf(e, i)] < out.elementsToHashTable[CodeOf(f, j)]
  {
    hide HashesOk, Flattened, Table, Content, TasksDone, CeilDivide;
    var tables := RunTasks(hashes, nbins, ntasks);
    out := Flatten(tables, hashes, nbins, ntasks);
    OutputMeans(hashes, nbins, out.resBins[..], out.elementsToHashTable[..], out.binToElements[..], out.nelesinbin[..]);
  }

  /** The first position of a bin in the table. */
  lemma {:induction false} TableStart(hashes: seq<Hashed>, nbins: nat, counts: seq<nat>, b: nat)
    requires HashesOk(hashes, nbins) && b <= nbins == |counts|
    requires forall c: nat :: c < nbins ==> counts[c] == |Content(hashes, nbins, c, 0, |hashes|)|
    ensures StartOf(counts, b) == |Table(hashes, nbins, b)|
    decreases b
  {
    hide Content;
    if b > 0 {
      TableStart(hashes, nbins, counts, b - 1);
    }
  }

  /** Where the entry of element e and hash function i lies, and what is there. */
  lemma EntryAt(hashes: seq<Hashed>, nbins: nat, res: seq<nat>, elements: seq<nat>, bins: seq<nat>, counts: seq<nat>,
                e: nat, i: nat) returns (p: nat, l: nat)
    requires HashesOk(hashes, nbins) && e < |hashes| && i < NUM_HASH_FUNCTIONS && |counts| == nbins
    requires forall c: nat :: c < nbins ==> counts[c] == |Content(hashes, nbins, c, 0, |hashes|)|
    requires Flattened(Table(hashes, nbins, nbins), res, elements, bins, |Table(hashes, nbins, nbins)|)
    ensures |res| == |elements| == |bins| == NUM_HASH_FUNCTIONS * |hashes|
    ensures var a, x := hashes[e].address, CodeOf(e, i);
      && a[i] < nbins && x < |elements| && p == elements[x] < |res|
      && StartOf(counts, a[i]) <= p < StartOf(counts, a[i] + 1) && bins[p] == x
      && res[p] == (if Cuckoo.FirstHash(a, a[i], i) then hashes[e].value else 0)
      && p == StartOf(counts, a[i]) + l && l < |Content(hashes, nbins, a[i], 0, |hashes|)|
      && Code(Content(hashes, nbins, a[i], 0, |hashes|)[l]) == x
  {
    hide Content, Table, EntryOf, StartOf, Cuckoo.FirstHash;
    var b, T := hashes[e].address[i], Table(hashes, nbins, nbins);
    TableLength(hashes, nbins);
    ContentHas(hashes, nbins, 0, |hashes|, e, i);
    EntryNames(hashes, e, i);
    EntryValue(hashes, e, i);
    l :| 0 <= l < |Content(hashes, nbins, b, 0, |hashes|)|
         && Content(hashes, nbins, b, 0, |hashes|)[l] == EntryOf(hashes, e, i);
    ContentNone(hashes, nbins, b);
    TaskEntries(hashes, nbins, b, 0, |hashes|, l);
    p := |Table(hashes, nbins, b)| + l;
    TableStart(hashes, nbins, counts, b);
    StartNext(counts, b);
    assert elements[Code(T[p])] == p;
  }

  lemma OutputMeans(hashes: seq<Hashed>, nbins: nat, res: seq<nat>, elements: seq<nat>, bins: seq<nat>,
                    counts: seq<nat>)
    requires HashesOk(hashes, nbins) && |counts| == nbins
    requires forall c: nat :: c < nbins ==> counts[c] == |Content(hashes, nbins, c, 0, |hashes|)|
    requires Flattened(Table(hashes, nbins, nbins), res, elements, bins, |Table(hashes, nbins, nbins)|)
    ensures |res| == |elements| == |bins| == NUM_HASH_FUNCTIONS * |hashes|
    ensures forall e: nat, i: nat | e < |hashes| && i < NUM_HASH_FUNCTIONS ::
      var a, p := hashes[e].address, elements[CodeOf(e, i)];
      && StartOf(counts, a[i]) <= p < StartOf(counts, a[i] + 1) && p < |res|
      && bins[p] == CodeOf(e, i)
      && res[p] == if Cuckoo.FirstHash(a, a[i], i) then hashes[e].value else 0
    ensures forall e: nat, i: nat, f: nat, j: nat |
      e < |hashes| && i < NUM_HASH_FUNCTIONS && f < |hashes| && j < NUM_HASH_FUNCTIONS
      && hashes[e].address[i] == hashes[f].address[j]
      && CodeOf(e, i) < CodeOf(f, j) ::
      elements[CodeOf(e, i)] < elements[CodeOf(f, j)]
  {
    hide Content, Table, StartOf, Cuckoo.FirstHash, Flattened, CodeOf;
    OutputSizes(hashes, nbins, res, elements, bins);
    CodesBelow(|hashes|);
    forall e: nat, i: nat | e < |hashes| && i < NUM_HASH_FUNCTIONS
      ensures var a, p := hashes[e].address, elements[CodeOf(e, i)];
        && StartOf(counts, a[i]) <= p < StartOf(counts, a[i] + 1) && p < |res|
        && bins[p] == CodeOf(e, i)
        && res[p] == if Cuckoo.FirstHash(a, a[i], i) then hashes[e].value else 0
    {
      var p, l := EntryAt(hashes, nbins, res, elements, bins, counts, e, i);
    }
    forall e: nat, i: nat, f: nat, j: nat |
      e < |hashes| && i < NUM_HASH_FUNCTIONS && f < |hashes| && j < NUM_HASH_FUNCTIONS
      && hashes[e].address[i] == hashes[f].address[j]
      && CodeOf(e, i) < CodeOf(f, j)
      ensures elements[CodeOf(e, i)] < elements[CodeOf(f, j)]
    {
      var p, l := EntryAt(hashes, nbins, res, elements, bins, counts, e, i);
      var q, k := EntryAt(hashes, nbins, res, elements, bins, counts, f, j);
      ContentBelongs(hashes, nbins, hashes[e].address[i], 0, |hashes|);
      assert l < k;
    }
  }

  lemma CodesBelow(n: nat)
    ensures forall e: nat, i: nat | e < n && i < NUM_HASH_FUNCTIONS :: CodeOf(e, i) < NUM_HASH_FUNCTIONS * n
  {
  }

  lemma OutputSizes(hashes: seq<Hashed>, nbins: nat, res: seq<nat>, elements: seq<nat>, bins: seq<nat>)
    requires HashesOk(hashes, nbins)
    requires Flattened(Table(hashes, nbins, nbins), res, elements, bins, |Table(hashes, nbins, nbins)|)
    ensures |res| == |elements| == |bins| == NUM_HASH_FUNCTIONS * |hashes|
  {
    hide Table;
    TableLength(hashes, nbins);
  }

  /** In each of its bins an element has exactly one entry with its value. */
  lemma OneRealEntry(hashes: seq<Hashed>, nbins: nat, e: nat, b: nat)
    requires HashesOk(hashes, nbins) && e < |hashes| && b in hashes[e].address
    ensures exists i | Cuckoo.FirstHash(hashes[e].address, b, i) ::
      forall j :: Cuckoo.FirstHash(hashes[e].address, b, j) ==> j == i
  {
    var a := hashes[e].address;
    var i := if a[0] == b then 0 else if a[1] == b then 1 else 2;
    assert Cuckoo.FirstHash(a, b, i);
  }

  /** The two index arrays are inverse permutations of the numbers below 3 * neles. */
  lemma IndexArraysInverse(hashes: seq<Hashed>, nbins: nat, res: seq<nat>, elements: seq<nat>, bins: seq<nat>, x: nat)
    requires HashesOk(hashes, nbins) && x < NUM_HASH_FUNCTIONS * |hashes|
    requires Flattened(Table(hashes, nbins, nbins), res, elements, bins, |Table(hashes, nbins, nbins)|)
    ensures |bins| == |elements| == NUM_HASH_FUNCTIONS * |hashes|
    ensures elements[x] < |bins| && bins[elements[x]] == x
    ensures bins[x] < |elements| && elements[bins[x]] == x
  {
    hide Table, EntryOf, Content;
    TableLength(hashes, nbins);
    var T := Table(hashes, nbins, nbins);
    var e, i := x / 3, x % 3;
    TableHas(hashes, nbins, nbins, e, i);
    EntryNames(hashes, e, i);
    var y := EntryOf(hashes, e, i);
    assert Code(y) == x;
    var p :| 0 <= p < |T| && T[p] == y;
    assert elements[Code(T[p])] == p;
  }
}
