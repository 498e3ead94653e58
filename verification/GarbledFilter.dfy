/** The garbled Bloom filter: GBF_add of PSI_C_0.1/PSI/PSI/GarbledBF.cpp and the query of
    Source Files/Leaders/GBFLeader.cpp.  The range hashes of an element are a sequence of slots. */
module GarbledFilter {
  import opened Polynomials

  /** The slot with number i is a repetition. */
  predicate Exists(indexes: seq<nat>, i: nat)
    requires i < |indexes|
  {
    exists j :: 0 <= j < i && indexes[j] == indexes[i]
  }

  /** The shares in the first i slots, each slot once. */
  function Recovered(data: seq<Poly>, indexes: seq<nat>, i: nat): Poly
    requires i <= |indexes| && forall j :: 0 <= j < |indexes| ==> indexes[j] < |data|
  {
    if i == 0 then {}
    else if Exists(indexes, i - 1) then Recovered(data, indexes, i - 1)
    else Add(Recovered(data, indexes, i - 1), data[indexes[i - 1]])
  }

  /** Those of the first i slots that have bit x. */
  function SlotsWith(data: seq<Poly>, indexes: seq<nat>, i: nat, x: nat): set<nat>
    requires i <= |indexes| && forall j :: 0 <= j < |indexes| ==> indexes[j] < |data|
  {
    set y | y in indexes[..i] && x in data[y]
  }

  lemma NextSlot(data: seq<Poly>, indexes: seq<nat>, i: nat, x: nat)
    requires i < |indexes| && forall j :: 0 <= j < |indexes| ==> indexes[j] < |data|
    ensures !Exists(indexes, i) ==> indexes[i] !in SlotsWith(data, indexes, i, x)
    ensures SlotsWith(data, indexes, i + 1, x)
         == if !Exists(indexes, i) && x in data[indexes[i]] then SlotsWith(data, indexes, i, x) + {indexes[i]}
            else SlotsWith(data, indexes, i, x)
  {
    assert indexes[..i + 1] == indexes[..i] + [indexes[i]];
    if Exists(indexes, i) {
      var j :| 0 <= j < i && indexes[j] == indexes[i];
      assert indexes[..i][j] == indexes[i];
    }
  }

  /** A bit is in the sum if and only if it is in an odd number of the slots, a repeated slot counting once. */
  lemma {:induction false} RecoveredBits(data: seq<Poly>, indexes: seq<nat>, i: nat, x: nat)
    requires i <= |indexes| && forall j :: 0 <= j < |indexes| ==> indexes[j] < |data|
    ensures x in Recovered(data, indexes, i) <==> |set y | y in indexes[..i] && x in data[y]| % 2 == 1
    decreases i
  {
    hide Add, Exists;
    var t := SlotsWith(data, indexes, i, x);
    if i > 0 {
      RecoveredBits(data, indexes, i - 1, x);
      NextSlot(data, indexes, i - 1, x);
      var s, y := SlotsWith(data, indexes, i - 1, x), indexes[i - 1];
      if !Exists(indexes, i - 1) {
        ParityStep(Recovered(data, indexes, i - 1), data[y], x, s, t, y);
      }
    } else {
      assert t == {};
    }
  }

  /** An element that has been added: its slots and its mask. */
  datatype Item = Item(indexes: seq<nat>, mask: Poly)

  predicate InRange(indexes: seq<nat>, m: nat) {
    forall i :: 0 <= i < |indexes| ==> indexes[i] < m
  }

  /** A change of one slot that is among those of an element changes its sum by as much. */
  lemma {:induction false} RecoveredChange(data: seq<Poly>, indexes: seq<nat>, i: nat, x: nat, v: Poly)
    requires i <= |indexes| && InRange(indexes, |data|) && x < |data|
    ensures Recovered(data[x := v], indexes, i)
         == if exists j :: 0 <= j < i && indexes[j] == x then Add(Recovered(data, indexes, i), Add(data[x], v))
                 else Recovered(data, indexes, i)
    decreases i
  {
    hide Add;
    if i > 0 {
      RecoveredChange(data, indexes, i - 1, x, v);
      var r := Recovered(data, indexes, i - 1);
      var y := indexes[i - 1];
      if y == x {
        if exists j :: 0 <= j < i - 1 && indexes[j] == x {
          assert Exists(indexes, i - 1);
        } else {
          assert !Exists(indexes, i - 1);
          ChangeLast(r, data[x], v);
        }
      } else if !Exists(indexes, i - 1) {
        ChangeBefore(r, data[x], v, data[y]);
      }
    }
  }

  lemma ChangeLast(r: Poly, a: Poly, v: Poly)
    ensures Add(r, v) == Add(Add(r, a), Add(a, v))
  {
    hide Add;
  }

  lemma ChangeBefore(r: Poly, a: Poly, v: Poly, d: Poly)
    ensures Add(Add(r, Add(a, v)), d) == Add(Add(r, d), Add(a, v))
  {
    hide Add;
  }

  class GarbledBF {
    var data: array<Poly>
    var bf: array<bool>

    ghost predicate Valid()
      reads this
    {
      data.Length == bf.Length
    }

    /** A filter whose slots are filled with random shares. */
    constructor (random: seq<Poly>)
      ensures Valid() && fresh(data) && fresh(bf) && data[..] == random && forall x :: 0 <= x < bf.Length ==> !bf[x]
    {
      data := new Poly[|random|](i requires 0 <= i < |random| => random[i]);
      bf := new bool[|random|](i => false);
    }

    /** GBF_add: the first free slot takes what is missing in the sum of the others. */
    method GbfAdd(indexes: seq<nat>, ehash: Poly)
      requires Valid() && InRange(indexes, data.Length) && exists i :: 0 <= i < |indexes| && !bf[indexes[i]]
      modifies data, bf
      ensures Recovered(data[..], indexes, |indexes|) == ehash
      ensures exists i | 0 <= i < |indexes| && !old(bf[indexes[i]]) && forall j :: 0 <= j < i ==> old(bf[indexes[j]]) ::
        data[..] == old(data[..])[indexes[i] := data[indexes[i]]]
      ensures forall x :: 0 <= x < bf.Length ==> bf[x] == (old(bf[x]) || x in indexes)
    {
      hide Add;
      ghost var start, first := data[..], 0;
      var finalShare := ehash;
      var emptySlot := -1;
      for i := 0 to |indexes|
        invariant data[..] == start
        invariant emptySlot == -1
          ==> finalShare == Add(ehash, Recovered(start, indexes, i)) && forall j :: 0 <= j < i ==> old(bf[indexes[j]])
        invariant emptySlot != -1 ==>
          && 0 <= emptySlot < data.Length && !old(bf[emptySlot]) && 0 <= first < i && indexes[first] == emptySlot
          && (forall j :: 0 <= j < first ==> old(bf[indexes[j]]))
          && finalShare == Add(ehash, Add(Recovered(start, indexes, i), start[emptySlot]))
        invariant forall x :: 0 <= x < bf.Length ==>
          bf[x] == (old(bf[x]) || (x != emptySlot && exists j :: 0 <= j < i && indexes[j] == x))
      {
        var index := indexes[i];
        if !Exists(indexes, i) {
          if !bf[index] {
            if emptySlot == -1 {
              emptySlot, first := index, i;
              TakeOut(ehash, Recovered(start, indexes, i), start[index]);
            } else {
              NotTheEmpty(indexes, i, emptySlot);
              AddBefore(ehash, Recovered(start, indexes, i), start[emptySlot], start[index]);
              finalShare := Add(finalShare, data[index]);
              bf[index] := true;
            }
          } else {
            if emptySlot == -1 {
              AddPlain(ehash, Recovered(start, indexes, i), start[index]);
            } else {
              AddBefore(ehash, Recovered(start, indexes, i), start[emptySlot], start[index]);
            }
            finalShare := Add(finalShare, data[index]);
          }
        }
      }
      assert emptySlot != -1;
      data[emptySlot] := finalShare;
      bf[emptySlot] := true;
      assert data[..] == start[emptySlot := finalShare];
      RecoveredChange(start, indexes, |indexes|, emptySlot, finalShare);
      Completed(Recovered(start, indexes, |indexes|), start[emptySlot], ehash);
    }

    /** GBF_query. */
    method GbfQuery(indexes: seq<nat>) returns (recovered: Poly)
      requires Valid() && InRange(indexes, data.Length)
      ensures recovered == Recovered(data[..], indexes, |indexes|)
    {
      hide Add;
      recovered := {};
      for i := 0 to |indexes|
        invariant recovered == Recovered(data[..], indexes, i)
      {
        if !Exists(indexes, i) {
          recovered := Add(recovered, data[indexes[i]]);
        }
      }
    }

    /** All elements of a follower, one after the other. */
    method AddAll(items: seq<Item>)
      requires Valid() && (forall k :: 0 <= k < |items| ==> InRange(items[k].indexes, data.Length))
      requires forall x :: 0 <= x < bf.Length ==> !bf[x]
      requires FreeWhenAdded(items)
      modifies data, bf
      ensures data.Length == old(data.Length)
      ensures forall x :: 0 <= x < data.Length ==> (bf[x] <==> Taken(items, |items|, x))
      ensures forall x :: 0 <= x < data.Length && data[x] != old(data[x]) ==>
        exists k, i :: IsFirstFree(items, k, i) && items[k].indexes[i] == x
      ensures forall k :: 0 <= k < |items|
                ==> InRange(items[k].indexes, |data[..]|)
                    && Recovered(data[..], items[k].indexes, |items[k].indexes|) == items[k].mask
    {
      ghost var start := data[..];
      NothingAdded(data[..], bf[..], items);
      for k := 0 to |items|
        invariant Added(start, data[..], bf[..], items, k)
      {
        assert HasFree(items, k);
        ghost var before, occupied := data[..], bf[..];
        AddedFree(start, before, occupied, items, k);
        GbfAdd(items[k].indexes, items[k].mask);
        ghost var i :| 0 <= i < |items[k].indexes| && !occupied[items[k].indexes[i]]
          && (forall j :: 0 <= j < i ==> occupied[items[k].indexes[j]])
          && data[..] == before[items[k].indexes[i] := data[items[k].indexes[i]]];
        AddedNext(start, before, data[..], occupied, bf[..], items, k, i);
      }
    }
  }

  /** The filter after the first k elements. */
  ghost predicate Added(start: seq<Poly>, data: seq<Poly>, bf: seq<bool>, items: seq<Item>, k: nat) {
    && k <= |items| && |start| == |data| == |bf|
    && (forall l :: 0 <= l < |items| ==> InRange(items[l].indexes, |data|))
    && (forall x :: 0 <= x < |bf| ==> (bf[x] <==> Taken(items, k, x)))
    && (forall x :: 0 <= x < |data| && data[x] != start[x] ==>
          exists l, i :: IsFirstFree(items, l, i) && items[l].indexes[i] == x)
    && (forall l :: 0 <= l < k ==> Recovered(data, items[l].indexes, |items[l].indexes|) == items[l].mask)
  }

  lemma NothingAdded(data: seq<Poly>, bf: seq<bool>, items: seq<Item>)
    requires |data| == |bf| && (forall l :: 0 <= l < |items| ==> InRange(items[l].indexes, |data|))
    requires forall x :: 0 <= x < |bf| ==> !bf[x]
    ensures Added(data, data, bf, items, 0)
  {
    hide IsFirstFree;
  }

  lemma AddedFree(start: seq<Poly>, data: seq<Poly>, bf: seq<bool>, items: seq<Item>, k: nat)
    requires k < |items| && Added(start, data, bf, items, k) && HasFree(items, k)
    ensures InRange(items[k].indexes, |bf|) && exists i :: 0 <= i < |items[k].indexes| && !bf[items[k].indexes[i]]
  {
    hide IsFirstFree, Taken, Recovered;
  }

  lemma AddedNext(start: seq<Poly>, before: seq<Poly>, data: seq<Poly>, occupied: seq<bool>, bf: seq<bool>,
                  items: seq<Item>, k: nat, i: nat)
    requires k < |items| && Added(start, before, occupied, items, k) && |data| == |bf| == |before|
    requires i < |items[k].indexes| && !occupied[items[k].indexes[i]]
      && forall j :: 0 <= j < i ==> occupied[items[k].indexes[j]]
    requires data == before[items[k].indexes[i] := data[items[k].indexes[i]]]
    requires forall x :: 0 <= x < |bf| ==> bf[x] == (occupied[x] || x in items[k].indexes)
    requires Recovered(data, items[k].indexes, |items[k].indexes|) == items[k].mask
    ensures Added(start, data, bf, items, k + 1)
  {
    hide Recovered;
    var y := items[k].indexes[i];
    forall x | 0 <= x < |bf|
      ensures bf[x] <==> Taken(items, k + 1, x)
    {
      TakenNext(items, k, x);
    }
    assert IsFirstFree(items, k, i);
    forall l | 0 <= l < k
      ensures Recovered(data, items[l].indexes, |items[l].indexes|) == items[l].mask
    {
      forall j | 0 <= j < |items[l].indexes|
        ensures data[items[l].indexes[j]] == before[items[l].indexes[j]]
      {
        assert Taken(items, k, items[l].indexes[j]);
      }
      SameSlots(before, data, items[l].indexes, |items[l].indexes|);
    }
  }

  lemma TakenNext(items: seq<Item>, k: nat, x: nat)
    requires k < |items|
    ensures Taken(items, k + 1, x) <==> Taken(items, k, x) || x in items[k].indexes
  {
  }

  /** Slot x belongs to one of the first k elements. */
  predicate Taken(items: seq<Item>, k: nat, x: nat)
    requires k <= |items|
  {
    exists l :: 0 <= l < k && x in items[l].indexes
  }

  /** Element k has a slot that no earlier element has. */
  predicate HasFree(items: seq<Item>, k: nat)
    requires k < |items|
  {
    exists i :: 0 <= i < |items[k].indexes| && !Taken(items, k, items[k].indexes[i])
  }

  /** Slot i of element k is the first of its slots that no earlier element has. */
  predicate IsFirstFree(items: seq<Item>, k: int, i: int) {
    && 0 <= k < |items| && 0 <= i < |items[k].indexes| && !Taken(items, k, items[k].indexes[i])
    && forall j :: 0 <= j < i ==> Taken(items, k, items[k].indexes[j])
  }

  /** Every element has a free slot when it is added. */
  predicate FreeWhenAdded(items: seq<Item>) {
    forall k :: 0 <= k < |items| ==> HasFree(items, k)
  }

  lemma {:induction false} SameSlots(s: seq<Poly>, t: seq<Poly>, indexes: seq<nat>, i: nat)
    requires |s| == |t| && i <= |indexes| && InRange(indexes, |s|)
      && forall j :: 0 <= j < |indexes| ==> t[indexes[j]] == s[indexes[j]]
    ensures Recovered(s, indexes, i) == Recovered(t, indexes, i)
    decreases i
  {
    hide Add;
    if i > 0 {
      SameSlots(s, t, indexes, i - 1);
    }
  }

  lemma NotTheEmpty(indexes: seq<nat>, i: nat, e: int)
    requires i < |indexes| && !Exists(indexes, i) && exists j :: 0 <= j < i && indexes[j] == e
    ensures indexes[i] != e
  {
  }

  lemma TakeOut(h: Poly, r: Poly, d: Poly)
    ensures Add(h, r) == Add(h, Add(Add(r, d), d))
  {
    hide Add;
  }

  lemma AddPlain(h: Poly, r: Poly, d: Poly)
    ensures Add(Add(h, r), d) == Add(h, Add(r, d))
  {
    hide Add;
  }

  lemma AddBefore(h: Poly, r: Poly, e: Poly, d: Poly)
    ensures Add(Add(h, Add(r, e)), d) == Add(h, Add(Add(r, d), e))
  {
    hide Add;
  }

  lemma Completed(r: Poly, e: Poly, h: Poly)
    ensures Add(r, Add(e, Add(h, Add(r, e)))) == h
  {
    hide Add;
  }
}
