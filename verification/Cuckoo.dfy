/** The leader's cuckoo table: insertion by eviction and the extraction of the arrays the
    matching works with (PSI/src/hashing/cuckoo.cpp), and the lookup structure built from
    them (Source Files/PsiParty.cpp). */
module Cuckoo {
  import opened Numbers
  import opened HashingUtil

  const EMPTY: int := -1

  /** Bitwise exclusive or of numbers. */
  function Xor(a: nat, b: nat): nat {
    if a == 0 && b == 0 then 0
    else 2 * Xor(a / 2, b / 2) + (if a % 2 == b % 2 then 0 else 1)
  }

  /** Its bits, one by one. */
  lemma {:induction false} XorBit(a: nat, b: nat, k: nat)
    ensures Xor(a, b) / Pow2(k) % 2 == 1 <==> a / Pow2(k) % 2 != b / Pow2(k) % 2
    decreases k
  {
    if k > 0 {
      XorBit(a / 2, b / 2, k - 1);
      var p := Pow2(k - 1);
      HalfFirst(a, p);
      HalfFirst(b, p);
      HalfFirst(Xor(a, b), p);
      XorHalf(a, b);
    } else {
      XorHalf(a, b);
    }
  }

  lemma XorHalf(a: nat, b: nat)
    ensures Xor(a, b) / 2 == Xor(a / 2, b / 2) && (Xor(a, b) % 2 == 1 <==> a % 2 != b % 2)
  {
  }

  lemma HalfFirst(a: nat, p: nat)
    requires 0 < p
    ensures a / (2 * p) == a / 2 / p
  {
    var q, r := a / 2 / p, a / 2 % p;
    assert a == 2 * p * q + (2 * r + a % 2) by {
      assert a / 2 == p * q + r;
    }
    Quotient(a, 2 * p, q, 2 * r + a % 2);
  }

  lemma Quotient(a: nat, d: nat, q: nat, r: nat)
    requires a == d * q + r && r < d
    ensures a / d == q
  {
    assert a == d * (a / d) + a % d;
    if a / d < q {
      assert d * q == d * (a / d) + d * (q - a / d);
      NonNegative(d, q - a / d - 1);
    } else if q < a / d {
      assert d * (a / d) == d * q + d * (a / d - q);
      NonNegative(d, a / d - q - 1);
    }
  }

  /** The three bins of every element. */
  type Addresses = seq<seq<nat>>

  predicate AddressesOk(address: Addresses, nbins: nat) {
    forall e :: 0 <= e < |address| ==> |address[e]| == NUM_HASH_FUNCTIONS
                                       && forall j :: 0 <= j < NUM_HASH_FUNCTIONS ==> address[e][j] < nbins
  }

  /** An occupied slot holds an element that has the slot among its addresses. */
  predicate Placed(s: seq<int>, address: Addresses) {
    forall q :: 0 <= q < |s| && s[q] != EMPTY ==> 0 <= s[q] < |address| && q in address[s[q]]
  }

  /** No element occupies two slots. */
  predicate Once(s: seq<int>) {
    forall q, r :: 0 <= q < |s| && 0 <= r < |s| && s[q] == s[r] != EMPTY ==> q == r
  }

  /** The elements in the table. */
  function Stored(s: seq<int>): set<int> {
    set q | 0 <= q < |s| && s[q] != EMPTY :: s[q]
  }

  lemma StoredMember(s: seq<int>, e: int)
    ensures e in Stored(s) <==> e != EMPTY && exists q :: 0 <= q < |s| && s[q] == e
  {
    if e in Stored(s) {
      var q :| 0 <= q < |s| && s[q] != EMPTY && s[q] == e;
    }
    if q :| e != EMPTY && 0 <= q < |s| && s[q] == e {
      assert s[q] in Stored(s);
    }
  }

  /** Replacing the content x of a slot by an element that is not in the table. */
  lemma Replace(s: seq<int>, q: nat, e: int)
    requires q < |s| && e != EMPTY && e !in Stored(s) && Once(s)
    ensures var t := s[q := e]; var x := s[q];
      && Once(t) && Stored(t) == (Stored(s) - {x}) + {e} && x !in Stored(t)
  {
    hide Stored;
    var t, x := s[q := e], s[q];
    StoredMember(s, e);
    StoredMember(t, x);
    forall y
      ensures y in Stored(t) <==> y in (Stored(s) - {x}) + {e}
    {
      StoredMember(s, y);
      StoredMember(t, y);
      if y in Stored(s) && y != x {
        var r :| 0 <= r < |s| && s[r] == y;
        assert t[r] == y;
      }
      if y == e {
        assert t[q] == y;
      }
      if y in Stored(t) && y != e {
        var r :| 0 <= r < |t| && t[r] == y;
        assert s[r] == y && r != q;
      }
    }
  }

  /** The elements 0 to n - 1. */
  function Range(n: nat): (r: set<int>)
    ensures forall e {:trigger e in r} :: e in r <==> 0 <= e < n
  {
    if n == 0 then {} else Range(n - 1) + {n - 1}
  }

  /** The table, the hash functions that the elements prefer, and the element in hand. */
  datatype Step = Step(slots: seq<int>, pos: seq<nat>, hand: int)

  /** One eviction, in iteration k: the slots of the element in hand are all taken; it takes the one that its preferred
      hash function and k select, and the element there comes to hand and prefers its next hash function. */
  ghost predicate Evicts(address: Addresses, nbins: nat, a: Step, b: Step, k: nat)
    requires AddressesOk(address, nbins)
  {
    && |a.slots| == nbins && |a.pos| == |address| && 0 <= a.hand < |address|
    && (forall j :: 0 <= j < NUM_HASH_FUNCTIONS ==> a.slots[address[a.hand][j]] != EMPTY)
    && var q := address[a.hand][Xor(a.pos[a.hand], k) % NUM_HASH_FUNCTIONS];
      && 0 <= a.slots[q] < |address|
      && b == Step(a.slots[q := a.hand], a.pos[a.slots[q] := (a.pos[a.slots[q]] + 1) % NUM_HASH_FUNCTIONS], a.slots[q])
  }

  /** The j-th is the first of these slots that is empty. */
  predicate FirstEmpty(a: seq<nat>, slots: seq<int>, j: int)
    requires forall i :: 0 <= i < |a| ==> a[i] < |slots|
  {
    0 <= j < |a| && (forall i :: 0 <= i < j ==> slots[a[i]] != EMPTY) && slots[a[j]] == EMPTY
  }

  /** The element in hand goes into the first of its slots that is empty. */
  ghost predicate Settles(address: Addresses, nbins: nat, a: Step, slots: seq<int>, pos: seq<nat>)
    requires AddressesOk(address, nbins)
  {
    && |a.slots| == nbins && |a.pos| == |address| && 0 <= a.hand < |address|
    && exists j: nat | FirstEmpty(address[a.hand], a.slots, j) ::
      slots == a.slots[address[a.hand][j] := a.hand] && pos == a.pos[a.hand := j]
  }

  /** A whole insertion: evictions from the first step on, until an element settles or the iterations are used up. */
  ghost predicate Inserts(address: Addresses, nbins: nat, trace: seq<Step>, maxIterations: nat, ok: bool,
                          slots: seq<int>, pos: seq<nat>)
    requires AddressesOk(address, nbins)
  {
    && 0 < |trace| && (forall k :: 0 <= k < |trace| - 1 ==> Evicts(address, nbins, trace[k], trace[k + 1], k))
    && var last := trace[|trace| - 1];
      if ok then |trace| <= maxIterations && Settles(address, nbins, last, slots, pos)
      else |trace| == maxIterations + 1 && slots == last.slots && pos == last.pos
  }

  /** The insertions of the elements 0 to n - 1, each with its trace and its result. */
  ghost predicate Inserted(address: Addresses, nbins: nat, runs: seq<seq<Step>>, oks: seq<bool>, slots: seq<int>,
                           pos: seq<nat>)
    requires AddressesOk(address, nbins)
  {
    && |runs| == |oks| <= |address|
    && (forall i | 0 <= i < |runs| :: 0 < |runs[i]| && runs[i][0].hand == i)
    && (forall i | 0 <= i < |runs| - 1 ::
          Inserts(address, nbins, runs[i], |address|, oks[i], runs[i + 1][0].slots, runs[i + 1][0].pos))
    && (0 < |runs| ==> Inserts(address, nbins, runs[|runs| - 1], |address|, oks[|runs| - 1], slots, pos))
  }

  /** The failed insertions. */
  function Failures(oks: seq<bool>): set<int> {
    set i | 0 <= i < |oks| && !oks[i]
  }

  /** The whole hashing, from an empty table on. */
  ghost predicate CuckooRun(address: Addresses, nbins: nat, runs: seq<seq<Step>>, oks: seq<bool>, slots: seq<int>,
                            fails: nat)
    requires AddressesOk(address, nbins)
  {
    && |runs| == |oks| == |address| && fails == |Failures(oks)|
    && (exists pos: seq<nat> :: Inserted(address, nbins, runs, oks, slots, pos))
    && if |address| == 0 then slots == seq(nbins, q => EMPTY)
    else
      0 < |runs[0]| && runs[0][0].slots == seq(nbins, q => EMPTY) && runs[0][0].pos == seq(|address|, e => 0)
  }

  /** Element e has a bin that is nobody else's. */
  ghost predicate HasOwnBin(address: Addresses, e: int)
    requires 0 <= e < |address|
  {
    exists j :: 0 <= j < |address[e]| && forall f :: 0 <= f < |address| && f != e ==> address[e][j] !in address[f]
  }

  class CuckooTable {
    const address: Addresses
    const slots: array<int>
    const pos: array<nat>

    ghost predicate Valid()
      reads this, slots, pos
    {
      && slots != pos as object && AddressesOk(address, slots.Length) && pos.Length == |address|
      && Placed(slots[..], address) && Once(slots[..])
      && forall e :: 0 <= e < pos.Length ==> pos[e] < NUM_HASH_FUNCTIONS
    }

    ghost function Elements(): set<int>
      reads this, slots
    {
      Stored(slots[..])
    }

    constructor (addresses: Addresses, nbins: nat)
      requires AddressesOk(addresses, nbins)
      ensures Valid() && fresh(slots) && fresh(pos) && address == addresses && slots.Length == nbins && Elements() == {}
      ensures slots[..] == seq(nbins, q => EMPTY) && pos[..] == seq(|addresses|, e => 0)
    {
      address := addresses;
      slots := new int[nbins](_ => EMPTY);
      pos := new nat[|addresses|](_ => 0);
    }

    /** insert_element: false when the number of iterations is used up, in which case one element, the last one evicted,
        is left out.  The trace holds the table before every iteration, and after the last one if there was no room. */
    method InsertElement(element: nat, maxIterations: nat) returns (ok: bool, ghost trace: seq<Step>)
      requires Valid() && element < |address| && element !in Elements()
      modifies slots, pos
      ensures Valid()
      ensures ok ==> Elements() == old(Elements()) + {element}
      ensures !ok ==> exists x :: x in old(Elements()) + {element} && Elements() == old(Elements()) + {element} - {x}
      ensures 0 < |trace| <= maxIterations + 1 && trace[0] == Step(old(slots[..]), old(pos[..]), element)
      ensures forall k | 0 <= k < |trace| - 1 ::
        |trace[k].slots| == slots.Length && |trace[k].pos| == |address| && 0 <= trace[k].hand < |address|
      ensures forall k, j | 0 <= k < |trace| - 1 && 0 <= j < NUM_HASH_FUNCTIONS ::
        trace[k].slots[address[trace[k].hand][j]] != EMPTY
      ensures forall k | 0 <= k < |trace| - 1 ::
        var (a, b) := (trace[k], trace[k + 1]);
        var q := address[a.hand][Xor(a.pos[a.hand], k) % NUM_HASH_FUNCTIONS];
        && 0 <= a.slots[q] < |address| && b.hand == a.slots[q] && b.slots == a.slots[q := a.hand]
        && b.pos == a.pos[b.hand := (a.pos[b.hand] + 1) % NUM_HASH_FUNCTIONS]
      ensures Inserts(address, slots.Length, trace, maxIterations, ok, slots[..], pos[..])
      ensures var last := trace[|trace| - 1];
        if ok then
          && |trace| <= maxIterations && |last.slots| == slots.Length && |last.pos| == |address|
          && 0 <= last.hand < |address|
          && exists j: nat | FirstEmpty(address[last.hand], last.slots, j) ::
            && (forall i :: 0 <= i < j ==> last.slots[address[last.hand][i]] != EMPTY)
            && last.slots[address[last.hand][j]] == EMPTY && pos[..] == last.pos[last.hand := j]
            && slots[..] == last.slots[address[last.hand][j] := last.hand]
        else |trace| == maxIterations + 1 && slots[..] == last.slots && pos[..] == last.pos
      ensures var a := old(slots[..]);
        0 < maxIterations && (exists j :: 0 <= j < NUM_HASH_FUNCTIONS && a[address[element][j]] == EMPTY)
        ==> ok && exists j | FirstEmpty(address[element], a, j) :: slots[..] == a[address[element][j] := element]
    {
      hide Stored, Once, Xor, Evicts, Settles, Inserts, AddressesOk, Placed, FirstEmpty;
      ghost var before := slots[..];
      ok, trace := PlaceWithEvictions(element, maxIterations);
      InsertionMeans(address, slots.Length, before, element, trace, maxIterations, ok, slots[..], pos[..]);
    }

    /** The loop of insert_element. */
    method PlaceWithEvictions(element: nat, maxIterations: nat) returns (ok: bool, ghost trace: seq<Step>)
      requires Valid() && element < |address| && element !in Elements()
      modifies slots, pos
      ensures Valid()
      ensures ok ==> Elements() == old(Elements()) + {element}
      ensures !ok ==> exists x :: x in old(Elements()) + {element} && Elements() == old(Elements()) + {element} - {x}
      ensures 0 < |trace| <= maxIterations + 1 && trace[0] == Step(old(slots[..]), old(pos[..]), element)
      ensures forall k :: 0 <= k < |trace| - 1 ==> Evicts(address, slots.Length, trace[k], trace[k + 1], k)
      ensures ok ==>
        |trace| <= maxIterations && Settles(address, slots.Length, trace[|trace| - 1], slots[..], pos[..])
      ensures !ok ==>
        && |trace| == maxIterations + 1 && slots[..] == trace[|trace| - 1].slots
        && pos[..] == trace[|trace| - 1].pos
    {
      hide Stored, Once, Xor, Evicts, Settles, AddressesOk, Placed;
      var evicted := element;
      var iterCnt := 0;
      ghost var all := Elements() + {element};
      trace := [Step(slots[..], pos[..], element)];
      while iterCnt < maxIterations
        invariant Valid() && 0 <= evicted < |address| && evicted !in Elements() && 0 <= iterCnt <= maxIterations
        invariant Elements() + {evicted} == all
        invariant |trace| == iterCnt + 1 && trace[0] == Step(old(slots[..]), old(pos[..]), element)
        invariant trace[iterCnt] == Step(slots[..], pos[..], evicted)
        invariant forall k :: 0 <= k < |trace| - 1 ==> Evicts(address, slots.Length, trace[k], trace[k + 1], k)
      {
        ok, evicted := PlaceOrEvict(evicted, iterCnt);
        if ok {
          return;
        }
        trace := trace + [Step(slots[..], pos[..], evicted)];
        iterCnt := iterCnt + 1;
      }
      ok := false;
    }

    /** One iteration: the element goes into an empty slot, or takes one from another element. */
    method PlaceOrEvict(element: nat, iterCnt: nat) returns (ok: bool, evicted: int)
      requires Valid() && element < |address| && element !in Elements()
      modifies slots, pos
      ensures Valid()
      ensures var a := Step(old(slots[..]), old(pos[..]), element);
        if ok then
          Elements() == old(Elements()) + {element} && Settles(address, slots.Length, a, slots[..], pos[..])
        else
          && 0 <= evicted < |address| && evicted !in Elements()
          && Elements() + {evicted} == old(Elements()) + {element}
          && Evicts(address, slots.Length, a, Step(slots[..], pos[..], evicted), iterCnt)
    {
      hide Stored, Once, Xor, Evicts, Settles;
      evicted := element;
      ok := TryPlace(element);
      if !ok {
        evicted := Evict(element, iterCnt);
      }
    }

    /** An element takes one of its slots from the element that is there. */
    method Evict(element: nat, iterCnt: nat) returns (evicted: int)
      requires Valid() && element < |address| && element !in Elements()
      requires forall j :: 0 <= j < NUM_HASH_FUNCTIONS ==> slots[address[element][j]] != EMPTY
      modifies slots, pos
      ensures Valid() && 0 <= evicted < |address| && evicted !in Elements()
      ensures Elements() + {evicted} == old(Elements()) + {element}
      ensures Evicts(address, slots.Length, Step(old(slots[..]), old(pos[..]), element),
        Step(slots[..], pos[..], evicted), iterCnt)
    {
      hide Stored, Once, Xor;
      ghost var before, prefer := slots[..], pos[..];
      var evPos := address[element][Xor(pos[element], iterCnt) % NUM_HASH_FUNCTIONS];
      evicted := slots[evPos];
      Replace(slots[..], evPos, element);
      slots[evPos] := element;
      assert slots[..] == before[evPos := element];
      StoredMember(before, evicted);
      pos[evicted] := (pos[evicted] + 1) % NUM_HASH_FUNCTIONS;
      assert pos[..] == prefer[evicted := (prefer[evicted] + 1) % NUM_HASH_FUNCTIONS];
    }

    /** Puts an element into the first of its bins that is empty. */
    method TryPlace(e: nat) returns (ok: bool)
      requires Valid() && e < |address| && e !in Elements()
      modifies slots, pos
      ensures Valid()
      ensures ok ==> Elements() == old(Elements()) + {e}
      ensures ok ==> Settles(address, slots.Length, Step(old(slots[..]), old(pos[..]), e), slots[..], pos[..])
      ensures !ok ==> slots[..] == old(slots[..]) && pos[..] == old(pos[..])
      ensures !ok ==> forall j :: 0 <= j < NUM_HASH_FUNCTIONS ==> slots[address[e][j]] != EMPTY
    {
      hide Stored, Once;
      ghost var before, prefer := slots[..], pos[..];
      var i: nat := 0;
      while i < NUM_HASH_FUNCTIONS
        invariant 0 <= i <= NUM_HASH_FUNCTIONS && slots[..] == before && pos[..] == prefer
        invariant forall j :: 0 <= j < i ==> slots[address[e][j]] != EMPTY
      {
        var q := address[e][i];
        if slots[q] == EMPTY {
          Replace(slots[..], q, e);
          StoredMember(slots[..], EMPTY);
          slots[q] := e;
          assert slots[..] == before[q := e];
          pos[e] := i;
          assert pos[..] == prefer[e := i];
          assert FirstEmpty(address[e], before, i);
          return true;
        }
        i := i + 1;
      }
      ok := false;
    }

    /** The insertion loop of cuckoo_hashing: one element is missing for every failure. */
    method InsertAll() returns (fails: nat, ghost runs: seq<seq<Step>>, ghost oks: seq<bool>)
      requires Valid() && Elements() == {}
      modifies slots, pos
      ensures Valid() && |Elements()| + fails == |address|
      ensures forall e :: e in Elements() ==> 0 <= e < |address|
      ensures fails == 0 <==> Elements() == Range(|address|)
      ensures |runs| == |oks| == |address| && fails == |Failures(oks)|
      ensures Inserted(address, slots.Length, runs, oks, slots[..], pos[..])
      ensures if |address| == 0 then slots[..] == old(slots[..])
        else 0 < |runs[0]| && runs[0][0].slots == old(slots[..]) && runs[0][0].pos == old(pos[..])
      ensures (forall e :: 0 <= e < |address| ==> HasOwnBin(address, e)) ==> fails == 0
    {
      hide Stored, Once, Inserts;
      fails, runs, oks := 0, [], [];
      var i := 0;
      while i < |address|
        invariant 0 <= i <= |address| && Valid() && |Elements()| + fails == i
        invariant forall e :: e in Elements() ==> 0 <= e < i
        invariant |runs| == |oks| == i && fails == |Failures(oks)|
        invariant Inserted(address, slots.Length, runs, oks, slots[..], pos[..])
        invariant if i == 0 then slots[..] == old(slots[..]) && pos[..] == old(pos[..])
          else 0 < |runs[0]| && runs[0][0].slots == old(slots[..]) && runs[0][0].pos == old(pos[..])
        invariant (forall e :: 0 <= e < |address| ==> HasOwnBin(address, e)) ==> fails == 0
      {
        ghost var before, slots0, pos0 := Elements(), slots[..], pos[..];
        ghost var trace;
        var ok;
        OwnBinFree(slots[..], address, i);
        ok, trace := InsertElement(i, |address|);
        InsertedNext(address, slots.Length, runs, oks, slots0, pos0, trace, ok, slots[..], pos[..]);
        FailuresNext(oks, ok);
        runs, oks := runs + [trace], oks + [ok];
        assert |before + {i}| == |before| + 1;
        if !ok {
          ghost var x :| x in before + {i} && Elements() == before + {i} - {x};
          assert |before + {i} - {x}| == |before|;
          fails := fails + 1;
        }
        i := i + 1;
      }
      AllOfThem(Elements(), |address|);
    }
  }

  /** cuckoo_hashing up to the copying loop: a new table and all insertions. */
  method InsertIntoNew(address: Addresses, nbins: nat)
      returns (s: seq<int>, fails: nat, ghost runs: seq<seq<Step>>, ghost oks: seq<bool>)
    requires AddressesOk(address, nbins)
    ensures |s| == nbins && Placed(s, address) && Once(s)
    ensures CuckooRun(address, nbins, runs, oks, s, fails)
    ensures |Stored(s)| + fails == |address| && forall e :: e in Stored(s) ==> 0 <= e < |address|
    ensures (forall e :: 0 <= e < |address| ==> HasOwnBin(address, e)) ==> fails == 0
  {
    hide Stored, Once, Placed, Inserted, Failures, HasOwnBin, AddressesOk;
    var table := new CuckooTable(address, nbins);
    fails, runs, oks := table.InsertAll();
    s := table.slots[..];
    assert Inserted(address, nbins, runs, oks, s, table.pos[..]);
  }

  lemma InsertionMeans(address: Addresses, nbins: nat, a: seq<int>, element: nat, trace: seq<Step>, maxIterations: nat,
                       ok: bool, slots: seq<int>, pos: seq<nat>)
    requires AddressesOk(address, nbins) && 0 < |trace| && |a| == nbins && element < |address|
    requires trace[0].slots == a && trace[0].hand == element
    requires forall k :: 0 <= k < |trace| - 1 ==> Evicts(address, nbins, trace[k], trace[k + 1], k)
    requires ok ==> |trace| <= maxIterations && Settles(address, nbins, trace[|trace| - 1], slots, pos)
    requires !ok ==> |trace| == maxIterations + 1 && slots == trace[|trace| - 1].slots && pos == trace[|trace| - 1].pos
    ensures Inserts(address, nbins, trace, maxIterations, ok, slots, pos)
    ensures forall k | 0 <= k < |trace| - 1 ::
      |trace[k].slots| == nbins && |trace[k].pos| == |address| && 0 <= trace[k].hand < |address|
    ensures forall k, j | 0 <= k < |trace| - 1 && 0 <= j < NUM_HASH_FUNCTIONS ::
      trace[k].slots[address[trace[k].hand][j]] != EMPTY
    ensures forall k | 0 <= k < |trace| - 1 ::
      var (a, b) := (trace[k], trace[k + 1]);
      var q := address[a.hand][Xor(a.pos[a.hand], k) % NUM_HASH_FUNCTIONS];
      && 0 <= a.slots[q] < |address| && b.hand == a.slots[q] && b.slots == a.slots[q := a.hand]
      && b.pos == a.pos[b.hand := (a.pos[b.hand] + 1) % NUM_HASH_FUNCTIONS]
    ensures ok ==> var last := trace[|trace| - 1];
      && |last.slots| == nbins && |last.pos| == |address| && 0 <= last.hand < |address|
      && exists j: nat | FirstEmpty(address[last.hand], last.slots, j) ::
        && (forall i :: 0 <= i < j ==> last.slots[address[last.hand][i]] != EMPTY)
        && last.slots[address[last.hand][j]] == EMPTY && pos == last.pos[last.hand := j]
        && slots == last.slots[address[last.hand][j] := last.hand]
    ensures 0 < maxIterations && (exists j :: 0 <= j < NUM_HASH_FUNCTIONS && a[address[element][j]] == EMPTY)
      ==> ok && exists j | FirstEmpty(address[element], a, j) :: slots == a[address[element][j] := element]
  {
    hide Xor;
    forall k | 0 <= k < |trace| - 1
      ensures |trace[k].slots| == nbins && |trace[k].pos| == |address| && 0 <= trace[k].hand < |address|
      ensures forall j | 0 <= j < NUM_HASH_FUNCTIONS :: trace[k].slots[address[trace[k].hand][j]] != EMPTY
    {
      assert Evicts(address, nbins, trace[k], trace[k + 1], k);
    }
    if 1 < |trace| {
      assert Evicts(address, nbins, trace[0], trace[1], 0);
    }
  }

  /** The element's own bin is empty as long as the element is not in the table. */
  lemma OwnBinFree(s: seq<int>, address: Addresses, e: nat)
    requires AddressesOk(address, |s|) && Placed(s, address) && e < |address| && e !in Stored(s)
    ensures HasOwnBin(address, e) ==> exists j :: 0 <= j < NUM_HASH_FUNCTIONS && s[address[e][j]] == EMPTY
  {
    hide Stored;
    StoredMember(s, e);
    if HasOwnBin(address, e) {
      var j :| 0 <= j < |address[e]| && forall f :: 0 <= f < |address| && f != e ==> address[e][j] !in address[f];
      assert s[address[e][j]] == EMPTY;
    }
  }

  lemma InsertedNext(address: Addresses, nbins: nat, runs: seq<seq<Step>>, oks: seq<bool>, slots: seq<int>,
                     pos: seq<nat>, trace: seq<Step>, ok: bool, slots': seq<int>, pos': seq<nat>)
    requires AddressesOk(address, nbins) && Inserted(address, nbins, runs, oks, slots, pos) && |runs| < |address|
    requires Inserts(address, nbins, trace, |address|, ok, slots', pos')
    requires 0 < |trace| && trace[0] == Step(slots, pos, |runs|)
    ensures Inserted(address, nbins, runs + [trace], oks + [ok], slots', pos')
  {
    hide Inserts;
    var all: seq<seq<Step>>, results := runs + [trace], oks + [ok];
    forall i | 0 <= i < |all|
      ensures 0 < |all[i]| && all[i][0].hand == i
    {
    }
    forall i | 0 <= i < |runs|
      ensures Inserts(address, nbins, all[i], |address|, results[i], all[i + 1][0].slots, all[i + 1][0].pos)
    {
      assert all[i] == runs[i] && results[i] == oks[i];
      assert all[i + 1] == if i + 1 < |runs| then runs[i + 1] else trace;
    }
  }

  lemma FailuresNext(oks: seq<bool>, ok: bool)
    ensures |Failures(oks + [ok])| == |Failures(oks)| + if ok then 0 else 1
  {
    var f, g := Failures(oks), Failures(oks + [ok]);
    if ok {
      assert g == f;
    } else {
      assert g == f + {|oks|};
    }
  }

  lemma AllOfThem(S: set<int>, n: nat)
    requires forall e :: e in S ==> 0 <= e < n
    ensures |S| == n <==> S == Range(n)
  {
    var all := Range(n);
    RangeSize(n);
    assert S <= all;
    if |S| == n && S != all {
      var e :| e in all && e !in S;
      SubsetSize(S, all - {e});
    }
  }

  lemma {:induction false} RangeSize(n: nat)
    ensures |Range(n)| == n
  {
    if n > 0 {
      RangeSize(n - 1);
    }
  }

  lemma SubsetSize(S: set<int>, T: set<int>)
    requires S <= T
    ensures |S| <= |T|
  {
    assert T == S + (T - S);
  }

  // ---------------------------------------------------------------- extraction

  /** The number of occupied slots before slot q. */
  function Rank(s: seq<int>, q: nat): nat
    requires q <= |s|
  {
    if q == 0 then 0 else Rank(s, q - 1) + (if s[q - 1] == EMPTY then 0 else 1)
  }

  lemma RankStep(s: seq<int>, q: nat)
    requires q < |s|
    ensures Rank(s, q + 1) == Rank(s, q) + (if s[q] == EMPTY then 0 else 1)
  {
  }

  function RankOf(s: seq<int>, q: int): int {
    if 0 <= q <= |s| then Rank(s, q) else -1
  }

  lemma {:induction false} RankMonotone(s: seq<int>, q: nat, r: nat)
    requires q <= r <= |s|
    ensures Rank(s, q) <= Rank(s, r)
    ensures q < r && s[q] != EMPTY ==> Rank(s, q) < Rank(s, r)
    decreases r
  {
    if q < r {
      RankMonotone(s, q, r - 1);
    }
  }

  lemma {:induction false} RankIsSize(s: seq<int>, q: nat)
    requires q <= |s| && Once(s)
    ensures Rank(s, q) == |Stored(s[..q])|
    decreases q
  {
    hide Stored;
    if q > 0 {
      RankIsSize(s, q - 1);
      var before, now := s[..q - 1], s[..q];
      var x := s[q - 1];
      var both := if x == EMPTY then Stored(before) else Stored(before) + {x};
      forall y
        ensures y in Stored(now) <==> y in both
      {
        OneMoreSlot(s, q, y);
      }
      assert Stored(now) == both;
      StoredMember(before, x);
    } else {
      NothingStored(s);
    }
  }

  lemma NothingStored(s: seq<int>)
    ensures Stored(s[..0]) == {}
  {
  }

  lemma OneMoreSlot(s: seq<int>, q: nat, y: int)
    requires 0 < q <= |s|
    ensures y in Stored(s[..q]) <==> y in Stored(s[..q - 1]) || (y == s[q - 1] && y != EMPTY)
  {
    hide Stored;
    var before, now := s[..q - 1], s[..q];
    StoredMember(before, y);
    StoredMember(now, y);
    if y in Stored(now) {
      var r :| 0 <= r < q && now[r] == y;
      if r < q - 1 {
        assert before[r] == y;
      }
    }
    if y in Stored(before) {
      var r :| 0 <= r < q - 1 && before[r] == y;
      assert now[r] == y;
    }
    if y == s[q - 1] && y != EMPTY {
      assert now[q - 1] == y;
    }
  }

  /** The first hash function that maps an element to bin q. */
  ghost predicate FirstHash(a: seq<nat>, q: int, j: int) {
    0 <= j < |a| && a[j] == q && forall i :: 0 <= i < j ==> a[i] != q
  }

  /** What the copying loop of cuckoo_hashing leaves in its output arrays. */
  ghost predicate Extracted(s: seq<int>, address: Addresses, perm: seq<int>, binIds: seq<int>, hashedBy: seq<int>,
                            n: nat)
  {
    && n <= |s| && |binIds| == |hashedBy| == |s|
    && Listed(s, perm, n) && Identified(s, address, binIds, n) && Hashed(s, address, hashedBy, n)
  }

  ghost predicate Listed(s: seq<int>, perm: seq<int>, n: nat)
    requires n <= |s|
  {
    && (forall q :: 0 <= q < n && s[q] != EMPTY ==> Rank(s, q) < |perm| && perm[Rank(s, q)] == s[q])
    && (forall k :: Rank(s, n) <= k < |perm| ==> perm[k] == 0)
  }

  ghost predicate Identified(s: seq<int>, address: Addresses, binIds: seq<int>, n: nat)
    requires n <= |s| == |binIds|
  {
    && (forall q :: 0 <= q < n && s[q] != EMPTY ==> 0 <= s[q] < |address| && binIds[q] == s[q] + 1)
    && (forall q :: 0 <= q < |s| && (q >= n || s[q] == EMPTY) ==> binIds[q] == 0)
  }

  ghost predicate Hashed(s: seq<int>, address: Addresses, hashedBy: seq<int>, n: nat)
    requires n <= |s| == |hashedBy|
  {
    && (forall q :: 0 <= q < n && s[q] != EMPTY ==> 0 <= s[q] < |address| && FirstHash(address[s[q]], q, hashedBy[q]))
    && (forall q :: 0 <= q < |s| && (q >= n || s[q] == EMPTY) ==> hashedBy[q] == 0)
  }

  /** The loop of cuckoo_hashing that copies the final state of the table. */
  method Extract(s: seq<int>, address: Addresses) returns (perm: array<int>, binIds: array<int>, hashedBy: array<int>)
    requires AddressesOk(address, |s|) && Placed(s, address) && Once(s)
    ensures perm.Length == |address| && Extracted(s, address, perm[..], binIds[..], hashedBy[..], |s|)
  {
    hide Once, Stored, Rank, Listed, Identified, Hashed;
    perm := new int[|address|](_ => 0);
    binIds := new int[|s|](_ => 0);
    hashedBy := new int[|s|](_ => 0);
    ExtractStart(s, address, perm[..], binIds[..], hashedBy[..]);
    var count := 0;
    var i := 0;
    while i < |s|
      invariant 0 <= i <= |s| && count == Rank(s, i)
      invariant Extracted(s, address, perm[..], binIds[..], hashedBy[..], i)
    {
      if s[i] != EMPTY {
        RankFits(s, address, i);
        var j := 0;
        while j < NUM_HASH_FUNCTIONS && address[s[i]][j] != i
          invariant 0 <= j <= NUM_HASH_FUNCTIONS && forall l :: 0 <= l < j ==> address[s[i]][l] != i
        {
          j := j + 1;
        }
        ghost var p, b, h := perm[..], binIds[..], hashedBy[..];
        hashedBy[i] := j;
        perm[count] := s[i];
        binIds[i] := s[i] + 1;
        assert perm[..] == p[count := s[i]] && binIds[..] == b[i := s[i] + 1] && hashedBy[..] == h[i := j];
        ExtractStep(s, address, p, b, h, i, j);
        count := count + 1;
      } else {
        ExtractSkip(s, address, perm[..], binIds[..], hashedBy[..], i);
      }
      RankStep(s, i);
      i := i + 1;
    }
  }

  lemma ExtractStart(s: seq<int>, address: Addresses, p: seq<int>, b: seq<int>, h: seq<int>)
    requires |b| == |h| == |s|
    requires (forall k :: 0 <= k < |p| ==> p[k] == 0) && forall q :: 0 <= q < |b| ==> b[q] == 0 && h[q] == 0
    ensures Extracted(s, address, p, b, h, 0) && Rank(s, 0) == 0
  {
  }

  lemma RankFits(s: seq<int>, address: Addresses, q: nat)
    requires Placed(s, address) && Once(s) && q < |s| && s[q] != EMPTY
    ensures Rank(s, q) < |address|
  {
    hide Stored;
    RankMonotone(s, q, q + 1);
    RankIsSize(s, q + 1);
    var all := Range(|address|);
    RangeSize(|address|);
    forall y | y in Stored(s[..q + 1])
      ensures y in all
    {
      StoredMember(s[..q + 1], y);
    }
    SubsetSize(Stored(s[..q + 1]), all);
  }

  lemma ExtractStep(s: seq<int>, address: Addresses, p: seq<int>, b: seq<int>, h: seq<int>, i: nat, j: nat)
    requires i < |s| && s[i] != EMPTY && 0 <= s[i] < |address| && Rank(s, i) < |p| && Extracted(s, address, p, b, h, i)
    requires FirstHash(address[s[i]], i, j)
    ensures Extracted(s, address, p[Rank(s, i) := s[i]], b[i := s[i] + 1], h[i := j], i + 1)
  {
    hide FirstHash, Listed, Identified, Hashed;
    ListStep(s, p, i);
    IdentifyStep(s, address, b, h, i, j);
  }

  lemma ListStep(s: seq<int>, p: seq<int>, i: nat)
    requires i < |s| && s[i] != EMPTY && Rank(s, i) < |p| && Listed(s, p, i)
    ensures Listed(s, p[Rank(s, i) := s[i]], i + 1)
  {
    hide Rank;
    RankStep(s, i);
    forall q | 0 <= q < i && s[q] != EMPTY
      ensures Rank(s, q) < Rank(s, i)
    {
      RankMonotone(s, q, i);
    }
  }

  lemma IdentifyStep(s: seq<int>, address: Addresses, b: seq<int>, h: seq<int>, i: nat, j: nat)
    requires i < |s| == |b| == |h| && s[i] != EMPTY && 0 <= s[i] < |address| && FirstHash(address[s[i]], i, j)
    requires Identified(s, address, b, i) && Hashed(s, address, h, i)
    ensures Identified(s, address, b[i := s[i] + 1], i + 1) && Hashed(s, address, h[i := j], i + 1)
  {
    hide FirstHash;
  }

  lemma ExtractSkip(s: seq<int>, address: Addresses, p: seq<int>, b: seq<int>, h: seq<int>, i: nat)
    requires i < |s| && s[i] == EMPTY && Extracted(s, address, p, b, h, i)
    ensures Extracted(s, address, p, b, h, i + 1)
  {
    hide FirstHash, Rank;
    RankStep(s, i);
  }

  // ---------------------------------------------------------------- the lookup structure

  /** The fields of CuckooHashInfo for all elements. */
  datatype HashInfo = HashInfo(binIndex: array<int>, tableIndex: array<int>, hashedBy: array<int>)

  /** runAsLeader builds the lookup structure.  The entries of perm behind the last occupied
      bin are 0, so that element 0 loses its table index as soon as one element could not
      be inserted; all other elements keep theirs. */
  method BuildHashInfo(s: seq<int>, address: Addresses, perm: array<int>, binIds: array<int>, hashedBy: array<int>)
      returns (h: HashInfo)
    requires AddressesOk(address, |s|) && Placed(s, address) && Once(s) && perm.Length == |address|
    requires Extracted(s, address, perm[..], binIds[..], hashedBy[..], |s|)
    ensures h.binIndex.Length == h.tableIndex.Length == h.hashedBy.Length == |address|
    ensures forall e :: 0 <= e < |address| && e in Stored(s)
              ==> 0 <= h.binIndex[e] < |s| && s[h.binIndex[e]] == e
                  && FirstHash(address[e], h.binIndex[e], h.hashedBy[e])
    ensures forall e :: 0 <= e < |address| && e !in Stored(s) ==> h.binIndex[e] == -1
    ensures forall e :: 0 < e < |address| ==> h.tableIndex[e] == if e in Stored(s) then RankOf(s, h.binIndex[e]) else -1
    ensures |address| > 0 ==> h.tableIndex[0] == if |Stored(s)| == |address| then RankOf(s, h.binIndex[0])
                              else |address| - 1
  {
    hide Once, Stored;
    var n := |address|;
    var bins, tables, hashes := new int[n](_ => -1), new int[n](_ => -1), new int[n](_ => 0);
    h := HashInfo(bins, tables, hashes);
    FillBins(s, address, binIds, hashedBy, perm[..], h);
    FillTable(s, address, perm, h);
  }

  ghost predicate BinsFilled(s: seq<int>, address: Addresses, bins: seq<int>, hashes: seq<int>, n: nat) {
    && n <= |s| && |bins| == |hashes| == |address|
    && (forall q :: 0 <= q < n && s[q] != EMPTY
          ==> 0 <= s[q] < |address| && bins[s[q]] == q && FirstHash(address[s[q]], q, hashes[s[q]]))
    && (forall e :: 0 <= e < |address| ==> bins[e] == -1 || (0 <= bins[e] < n && s[bins[e]] == e))
  }

  method FillBins(s: seq<int>, address: Addresses, binIds: array<int>, hashedBy: array<int>, ghost perm: seq<int>,
                  h: HashInfo)
    requires AddressesOk(address, |s|) && Placed(s, address) && Once(s) && h.hashedBy != h.binIndex
    requires Extracted(s, address, perm, binIds[..], hashedBy[..], |s|)
    requires h.binIndex.Length == |address| == h.hashedBy.Length
      && forall e :: 0 <= e < |address| ==> h.binIndex[e] == -1
    requires h.hashedBy != binIds && h.hashedBy != hashedBy && h.binIndex != binIds && h.binIndex != hashedBy
    modifies h.binIndex, h.hashedBy
    ensures BinsFilled(s, address, h.binIndex[..], h.hashedBy[..], |s|)
  {
    hide Stored, Once, FirstHash, BinsFilled, Extracted, AddressesOk, Placed;
    ghost var ids, hs := binIds[..], hashedBy[..];
    ExtractedSizes(s, address, perm, ids, hs);
    BinsNone(s, address, h.binIndex[..], h.hashedBy[..]);
    var i := 0;
    while i < |s|
      invariant 0 <= i <= |s| && binIds[..] == ids && hashedBy[..] == hs
      invariant BinsFilled(s, address, h.binIndex[..], h.hashedBy[..], i)
    {
      ExtractedAt(s, address, perm, ids, hs, i);
      assert binIds[i] == ids[i] && hashedBy[i] == hs[i];
      if binIds[i] != 0 {
        var e := binIds[i] - 1;
        ghost var b, f := h.binIndex[..], h.hashedBy[..];
        BinStep(s, address, b, f, i, hs[i]);
        h.binIndex[e] := i;
        h.hashedBy[e] := hashedBy[i];
        assert h.binIndex[..] == b[e := i] && h.hashedBy[..] == f[e := hashedBy[i]];
      } else {
        BinSkip(s, address, h.binIndex[..], h.hashedBy[..], i);
      }
      i := i + 1;
    }
  }

  lemma ExtractedSizes(s: seq<int>, address: Addresses, perm: seq<int>, ids: seq<int>, hashedBy: seq<int>)
    requires Extracted(s, address, perm, ids, hashedBy, |s|)
    ensures |ids| == |hashedBy| == |s|
  {
    hide Rank, FirstHash;
  }

  lemma ExtractedAt(s: seq<int>, address: Addresses, perm: seq<int>, ids: seq<int>, hashedBy: seq<int>, q: nat)
    requires Extracted(s, address, perm, ids, hashedBy, |s|) && q < |s|
    ensures |ids| == |hashedBy| == |s|
    ensures if s[q] == EMPTY then ids[q] == 0
      else 0 <= s[q] < |address| && ids[q] == s[q] + 1 && FirstHash(address[s[q]], q, hashedBy[q])
  {
    hide Rank, FirstHash;
  }

  lemma BinsNone(s: seq<int>, address: Addresses, bins: seq<int>, hashes: seq<int>)
    requires |bins| == |hashes| == |address| && forall e :: 0 <= e < |address| ==> bins[e] == -1
    ensures BinsFilled(s, address, bins, hashes, 0)
  {
  }

  lemma BinStep(s: seq<int>, address: Addresses, bins: seq<int>, hashes: seq<int>, i: nat, j: int)
    requires i < |s| && Once(s) && BinsFilled(s, address, bins, hashes, i)
    requires s[i] != EMPTY && 0 <= s[i] < |address| && FirstHash(address[s[i]], i, j)
    ensures |bins| == |hashes| == |address|
    ensures BinsFilled(s, address, bins[s[i] := i], hashes[s[i] := j], i + 1)
  {
    hide FirstHash;
  }

  lemma BinSkip(s: seq<int>, address: Addresses, bins: seq<int>, hashes: seq<int>, i: nat)
    requires i < |s| && s[i] == EMPTY && BinsFilled(s, address, bins, hashes, i)
    ensures BinsFilled(s, address, bins, hashes, i + 1)
  {
    hide FirstHash;
  }

  method FillTable(s: seq<int>, address: Addresses, perm: array<int>, h: HashInfo)
    requires Placed(s, address) && Once(s) && perm.Length == |address| == h.tableIndex.Length
    requires Listed(s, perm[..], |s|)
    requires BinsFilled(s, address, h.binIndex[..], h.hashedBy[..], |s|)
    requires forall e :: 0 <= e < |address| ==> h.tableIndex[e] == -1
    requires h.binIndex != h.tableIndex && h.hashedBy != h.tableIndex && perm != h.tableIndex
    modifies h.tableIndex
    ensures h.binIndex[..] == old(h.binIndex[..]) && h.hashedBy[..] == old(h.hashedBy[..])
    ensures forall e :: 0 <= e < |address| && e in Stored(s)
              ==> 0 <= h.binIndex[e] < |s| && s[h.binIndex[e]] == e
                  && FirstHash(address[e], h.binIndex[e], h.hashedBy[e])
    ensures forall e :: 0 <= e < |address| && e !in Stored(s) ==> h.binIndex[e] == -1
    ensures forall e :: 0 < e < |address| ==> h.tableIndex[e] == if e in Stored(s) then RankOf(s, h.binIndex[e]) else -1
    ensures |address| > 0 ==> h.tableIndex[0] == if |Stored(s)| == |address| then RankOf(s, h.binIndex[0])
                              else |address| - 1
  {
    hide Stored, Once, RankOf, FirstHash;
    ghost var bins, hashes := h.binIndex[..], h.hashedBy[..];
    ghost var total := Rank(s, |s|);
    TotalRank(s, address);
    BinsMeaning(s, address, bins, hashes);
    StoredBelow(s, address);
    var i := 0;
    while i < perm.Length
      invariant 0 <= i <= perm.Length && h.binIndex[..] == bins && h.hashedBy[..] == hashes
      invariant Tabled(s, h.tableIndex[..], i)
    {
      ghost var t := h.tableIndex[..];
      if i < total {
        ghost var q := SlotOfRank(s, i);
        TableStep(s, address, t, i, q);
      } else {
        TableSpill(s, t, i);
      }
      var e := perm[i];
      h.tableIndex[e] := i;
      assert h.tableIndex[..] == t[e := i];
      i := i + 1;
    }
    TableMeaning(s, address, bins, h.tableIndex[..]);
  }

  lemma StoredBelow(s: seq<int>, address: Addresses)
    requires Placed(s, address)
    ensures forall y :: y in Stored(s) ==> 0 <= y < |address|
  {
    hide Stored;
    forall y | y in Stored(s)
      ensures 0 <= y < |address|
    {
      StoredMember(s, y);
    }
  }

  /** The table indices after the first i entries of perm. */
  ghost predicate Tabled(s: seq<int>, t: seq<int>, i: nat) {
    && (forall q :: 0 <= q < |s| && s[q] != EMPTY ==> 0 <= s[q] < |t|)
    && (forall q :: 0 <= q < |s| && s[q] != EMPTY && (s[q] != 0 || i <= Rank(s, |s|))
          ==> t[s[q]] == if Rank(s, q) < i then Rank(s, q) else -1)
    && (forall e :: 0 < e < |t| && e !in Stored(s) ==> t[e] == -1)
    && (|t| > 0 && i > Rank(s, |s|) ==> t[0] == i - 1)
  }

  lemma TotalRank(s: seq<int>, address: Addresses)
    requires Placed(s, address) && Once(s)
    ensures Rank(s, |s|) == |Stored(s)| <= |address|
  {
    hide Stored;
    RankIsSize(s, |s|);
    assert s[..|s|] == s;
    var all := Range(|address|);
    RangeSize(|address|);
    forall y | y in Stored(s)
      ensures y in all
    {
      StoredMember(s, y);
    }
    SubsetSize(Stored(s), all);
  }

  lemma {:induction false} SlotBelow(s: seq<int>, n: nat, i: nat) returns (q: nat)
    requires n <= |s| && i < Rank(s, n)
    ensures q < n && s[q] != EMPTY && Rank(s, q) == i
    decreases n
  {
    if i == Rank(s, n - 1) {
      q := n - 1;
    } else {
      q := SlotBelow(s, n - 1, i);
    }
  }

  lemma SlotOfRank(s: seq<int>, i: nat) returns (q: nat)
    requires i < Rank(s, |s|)
    ensures q < |s| && s[q] != EMPTY && Rank(s, q) == i
  {
    q := SlotBelow(s, |s|, i);
  }

  lemma RankInjective(s: seq<int>, q: nat, r: nat)
    requires q < |s| && r < |s| && s[q] != EMPTY && s[r] != EMPTY && Rank(s, q) == Rank(s, r)
    ensures q == r
  {
    if q < r {
      RankMonotone(s, q, r);
    } else if r < q {
      RankMonotone(s, r, q);
    }
  }

  lemma TableStep(s: seq<int>, address: Addresses, t: seq<int>, i: nat, q: nat)
    requires Once(s) && Tabled(s, t, i) && q < |s| && s[q] != EMPTY && Rank(s, q) == i < Rank(s, |s|)
    ensures Tabled(s, t[s[q] := i], i + 1)
  {
    hide Stored;
    StoredMember(s, s[q]);
    forall r | 0 <= r < |s| && s[r] != EMPTY
      ensures r != q ==> Rank(s, r) != i && s[r] != s[q]
    {
      if r != q && Rank(s, r) == i {
        RankInjective(s, q, r);
      }
    }
  }

  lemma TableSpill(s: seq<int>, t: seq<int>, i: nat)
    requires Tabled(s, t, i) && i >= Rank(s, |s|) && |t| > 0
    ensures Tabled(s, t[0 := i], i + 1)
  {
    hide Stored;
    forall q | 0 <= q < |s| && s[q] != EMPTY
      ensures Rank(s, q) < i
    {
      RankMonotone(s, q, |s|);
    }
  }

  lemma BinsMeaning(s: seq<int>, address: Addresses, bins: seq<int>, hashes: seq<int>)
    requires BinsFilled(s, address, bins, hashes, |s|)
    ensures forall e :: 0 <= e < |address| && e in Stored(s)
              ==> 0 <= bins[e] < |s| && s[bins[e]] == e && FirstHash(address[e], bins[e], hashes[e])
    ensures forall e :: 0 <= e < |address| && e !in Stored(s) ==> bins[e] == -1
  {
    hide Stored, FirstHash;
    forall e | 0 <= e < |address|
      ensures e in Stored(s) ==> 0 <= bins[e] < |s| && s[bins[e]] == e && FirstHash(address[e], bins[e], hashes[e])
      ensures e !in Stored(s) ==> bins[e] == -1
    {
      StoredMember(s, e);
    }
  }

  lemma TableMeaning(s: seq<int>, address: Addresses, bins: seq<int>, t: seq<int>)
    requires Tabled(s, t, |address|) && |t| == |address| == |bins| && Rank(s, |s|) == |Stored(s)| <= |address|
    requires forall e :: 0 <= e < |address| && e in Stored(s) ==> 0 <= bins[e] < |s| && s[bins[e]] == e
    requires forall y :: y in Stored(s) ==> 0 <= y < |address|
    ensures forall e :: 0 < e < |address| ==> t[e] == if e in Stored(s) then RankOf(s, bins[e]) else -1
    ensures |address| > 0 ==> t[0] == if |Stored(s)| == |address| then RankOf(s, bins[0]) else |address| - 1
  {
    hide Stored;
    forall e | 0 <= e < |address| && e in Stored(s)
      ensures Rank(s, bins[e]) < |address|
    {
      StoredMember(s, e);
      RankMonotone(s, bins[e], |s|);
    }
    if |address| > 0 && |Stored(s)| == |address| {
      AllOfThem(Stored(s), |address|);
      assert 0 in Stored(s);
    }
  }

  // ---------------------------------------------------------------- when perm is a permutation

  /** perm lists every element once exactly when no element but number 0 is left out of the table:
      what is not filled in stays 0. */
  lemma PermPermutes(s: seq<int>, address: Addresses, perm: seq<int>)
    requires Placed(s, address) && Once(s) && |perm| == |address| && Listed(s, perm, |s|)
    ensures forall k :: 0 <= k < |perm| ==> 0 <= perm[k] < |perm|
    ensures (forall k, l :: 0 <= k < l < |perm| ==> perm[k] != perm[l])
      <==> forall e :: 0 < e < |address| ==> e in Stored(s)
  {
    hide Stored, Rank, Placed, Listed;
    PermInRange(s, address, perm);
    if forall e :: 0 < e < |address| ==> e in Stored(s) {
      forall k, l | 0 <= k < l < |perm|
        ensures perm[k] != perm[l]
      {
        Different(s, address, perm, k, l);
      }
    } else {
      var e :| 0 < e < |address| && e !in Stored(s);
      var k, l := Twice(s, address, perm, e);
    }
  }

  /** What perm says of position k. */
  lemma PermAt(s: seq<int>, address: Addresses, perm: seq<int>, k: nat) returns (q: nat)
    requires Placed(s, address) && Once(s) && |perm| == |address| && Listed(s, perm, |s|) && k < |perm|
    ensures k < Rank(s, |s|) ==> q < |s| && s[q] != EMPTY && Rank(s, q) == k && perm[k] == s[q] && perm[k] in Stored(s)
    ensures k >= Rank(s, |s|) ==> perm[k] == 0
  {
    hide Stored, Rank, Placed;
    q := 0;
    if k < Rank(s, |s|) {
      q := SlotOfRank(s, k);
      StoredMember(s, s[q]);
    }
  }

  lemma PermInRange(s: seq<int>, address: Addresses, perm: seq<int>)
    requires Placed(s, address) && Once(s) && |perm| == |address| && Listed(s, perm, |s|)
    ensures forall k :: 0 <= k < |perm| ==> 0 <= perm[k] < |perm|
  {
    hide Stored, Rank, Listed;
    forall k | 0 <= k < |perm|
      ensures 0 <= perm[k] < |perm|
    {
      var q := PermAt(s, address, perm, k);
    }
  }

  lemma StoredBounds(s: seq<int>, address: Addresses, y: int)
    requires Placed(s, address) && y in Stored(s)
    ensures 0 <= y < |address|
  {
    hide Stored;
    StoredMember(s, y);
  }

  lemma Different(s: seq<int>, address: Addresses, perm: seq<int>, k: nat, l: nat)
    requires Placed(s, address) && Once(s) && |perm| == |address| && Listed(s, perm, |s|) && k < l < |perm|
    requires forall e :: 0 < e < |address| ==> e in Stored(s)
    ensures perm[k] != perm[l]
  {
    hide Stored, Rank, Placed, Listed;
    var q := PermAt(s, address, perm, k);
    var r := PermAt(s, address, perm, l);
    TotalRank(s, address);
    var n := |address|;
    if 0 in Stored(s) {
      AllStored(s, n);
    } else {
      AllButOne(s, address, 0);
    }
  }

  lemma AllStored(s: seq<int>, n: nat)
    requires forall e :: 0 <= e < n ==> e in Stored(s)
    ensures n <= |Stored(s)|
  {
    hide Stored;
    RangeSize(n);
    SubsetSize(Range(n), Stored(s));
  }

  lemma AllButOne(s: seq<int>, address: Addresses, d: nat)
    requires Placed(s, address) && d < |address| && d !in Stored(s)
    ensures |Stored(s)| <= |address| - 1
    ensures |Stored(s)| == |address| - 1 <==> forall e :: 0 <= e < |address| && e != d ==> e in Stored(s)
  {
    hide Stored, Placed;
    var S := Stored(s) + {d};
    forall y | y in S
      ensures 0 <= y < |address|
    {
      if y != d {
        StoredBounds(s, address, y);
      }
    }
    AllOfThem(S, |address|);
    RangeSize(|address|);
    SubsetSize(S, Range(|address|));
  }

  /** If an element other than 0 is missing, 0 is listed twice. */
  lemma Twice(s: seq<int>, address: Addresses, perm: seq<int>, e: nat) returns (k: nat, l: nat)
    requires Placed(s, address) && Once(s) && |perm| == |address| && Listed(s, perm, |s|)
    requires 0 < e < |address| && e !in Stored(s)
    ensures k < l < |perm| && perm[k] == perm[l]
  {
    hide Stored, Rank, Placed;
    var n := |address|;
    AllButOne(s, address, e);
    TotalRank(s, address);
    l := n - 1;
    if Rank(s, |s|) <= n - 2 {
      k := n - 2;
    } else {
      assert 0 in Stored(s);
      StoredMember(s, 0);
      var q: nat :| q < |s| && s[q] == 0;
      RankMonotone(s, q, |s|);
      k := Rank(s, q);
    }
  }
}
