/**
 * The bookkeeping of a nested commit into the parent (tryCommit): the
 * parent's merged list, the re-homing of ownership records, and the
 * propagation of array writes with the parent's per-array write counters.
 */
module Merge {
  import opened Types

  function Reverse<T>(s: seq<T>): (r: seq<T>)
    ensures |r| == |s|
    ensures forall i :: 0 <= i < |s| ==> r[i] == s[|s| - 1 - i]
  {
    if s == [] then [] else Reverse(s[1..]) + [s[0]]
  }

  /**
   * The parent's merged list after `self` commits: `self` is consed onto
   * the parent's list and then each transaction `self` had merged, in
   * order, so the last of them ends up first.
   */
  function MergedList(parentMerged: seq<TxId>, self: TxId, childMerged: seq<TxId>): seq<TxId> {
    Reverse(childMerged) + [self] + parentMerged
  }

  /** Consing the elements of `s` one by one onto `base`: the first `i` of them, the last one first. */
  lemma ReverseConsStep<T>(s: seq<T>, i: nat, base: seq<T>)
    requires i <= |s|
    ensures i == 0 ==> Reverse(s[..i]) + base == base
    ensures i > 0 ==> Reverse(s[..i]) + base == [s[i - 1]] + (Reverse(s[..i - 1]) + base)
  {
    if i > 0 {
      assert s[..i] == s[..i - 1] + [s[i - 1]];
      ReverseSnoc(s[..i - 1], s[i - 1]);
    }
  }

  lemma {:induction false} ReverseSnoc<T>(s: seq<T>, x: T)
    ensures Reverse(s + [x]) == [x] + Reverse(s)
  {
    var r := Reverse(s + [x]);
    assert |r| == |s| + 1;
    assert forall i :: 0 < i < |r| ==> r[i] == Reverse(s)[i - 1];
  }

  /**
   * The merged list holds exactly the parent's merged transactions,
   * `self` and the transactions `self` had merged, and grows by the
   * number of them.
   */
  lemma MergedListMembers(parentMerged: seq<TxId>, self: TxId, childMerged: seq<TxId>, x: TxId)
    ensures |MergedList(parentMerged, self, childMerged)| == |parentMerged| + |childMerged| + 1
    ensures x in MergedList(parentMerged, self, childMerged) <==> x == self || x in parentMerged || x in childMerged
  {
    var r := Reverse(childMerged);
    if x in childMerged {
      var i :| 0 <= i < |childMerged| && childMerged[i] == x;
      assert r[|childMerged| - 1 - i] == x;
    }
    if x in r {
      var i :| 0 <= i < |r| && r[i] == x;
      assert childMerged[|childMerged| - 1 - i] == x;
    }
    assert MergedList(parentMerged, self, childMerged) == r + ([self] + parentMerged);
  }

  /**
   * The ownership records after a commit at `commitVersion` into `parent`:
   * the records of the transactions in `movers` pass to the parent and
   * carry the commit version; every other record is unchanged.
   */
  function Rehomed(orecs: seq<Orec>, movers: seq<TxId>, parent: TxId, commitVersion: int): (r: seq<Orec>)
    ensures |r| == |orecs|
    ensures forall o :: 0 <= o < |orecs| && o in movers ==>
              r[o] == Orec(parent, orecs[o].version, commitVersion)
    ensures forall o :: 0 <= o < |orecs| && o !in movers ==> r[o] == orecs[o]
  {
    seq(|orecs|, o requires 0 <= o < |orecs| =>
      if o in movers then orecs[o].(owner := parent, nestedVersion := commitVersion) else orecs[o])
  }

  /**
   * Moving the record of one more transaction to the parent: first `self`,
   * then the `i`-th transaction of `merged`.
   */
  lemma RehomedStep(orecs: seq<Orec>, self: TxId, merged: seq<TxId>, i: nat, parent: TxId, commitVersion: int)
    requires i <= |merged| && self < |orecs| && (i > 0 ==> merged[i - 1] < |orecs|)
    ensures i == 0 ==> var cur := orecs;
      cur[self := cur[self].(owner := parent, nestedVersion := commitVersion)]
        == Rehomed(orecs, [self] + merged[..i], parent, commitVersion)
    ensures i > 0 ==> var cur := Rehomed(orecs, [self] + merged[..i - 1], parent, commitVersion); var x := merged[i - 1];
      cur[x := cur[x].(owner := parent, nestedVersion := commitVersion)]
        == Rehomed(orecs, [self] + merged[..i], parent, commitVersion)
  {
    var movers := if i == 0 then [] else [self] + merged[..i - 1];
    var x := if i == 0 then self else merged[i - 1];
    assert movers + [x] == [self] + merged[..i];
    var cur := Rehomed(orecs, movers, parent, commitVersion);
    var next := Rehomed(orecs, movers + [x], parent, commitVersion);
    assert i == 0 ==> cur == orecs;
    forall o | 0 <= o < |orecs| ensures cur[x := cur[x].(owner := parent, nestedVersion := commitVersion)][o] == next[o] {
      assert o in movers + [x] <==> o in movers || o == x;
    }
  }

  // --------------------------------------------------------- array writes

  /** A missing counter reads as zero. */
  function Get(counts: map<ArrayId, int>, a: ArrayId): int {
    if a in counts then counts[a] else 0
  }

  /** How many slots of array `a` in `order` the parent had not written. */
  function CountNew(order: seq<Slot>, parentWrites: map<Slot, EntryId>, a: ArrayId): (n: nat)
    ensures n <= |order|
  {
    if order == [] then 0
    else
      var last := order[|order| - 1];
      CountNew(order[..|order| - 1], parentWrites, a)
        + (if last !in parentWrites && last.arrayId == a then 1 else 0)
  }

  /** The entries after the ones in `stamped` are given nested version `v`. */
  function Stamped(entries: seq<ArrayEntry>, stamped: set<EntryId>, v: int): (r: seq<ArrayEntry>)
    ensures |r| == |entries|
    ensures forall e :: 0 <= e < |entries| && e in stamped ==> r[e] == entries[e].(nestedVersion := v)
    ensures forall e :: 0 <= e < |entries| && e !in stamped ==> r[e] == entries[e]
  {
    seq(|entries|, e requires 0 <= e < |entries| =>
      if e in stamped then entries[e].(nestedVersion := v) else entries[e])
  }

  /** Stamping one more entry. */
  lemma StampedAdd(entries: seq<ArrayEntry>, stamped: set<EntryId>, e: EntryId, v: int)
    requires e < |entries|
    ensures var cur := Stamped(entries, stamped, v);
      cur[e := cur[e].(nestedVersion := v)] == Stamped(entries, stamped + {e}, v)
  {
  }

  /** `order` lists the keys of `m` once each: the iteration order of a map. */
  ghost predicate ListsKeys(order: seq<Slot>, m: map<Slot, EntryId>) {
    && (forall i :: 0 <= i < |order| ==> order[i] !in order[..i])
    && (forall k :: k in m <==> k in order)
  }

  /** Walking the keys of `m` in `order` visits every value of `m`. */
  lemma ValuesListed(order: seq<Slot>, m: map<Slot, EntryId>)
    requires ListsKeys(order, m)
    ensures m.Values == set j | 0 <= j < |order| :: m[order[j]]
  {
    forall v | v in m.Values ensures exists j :: 0 <= j < |order| && m[order[j]] == v {
      var k :| k in m && m[k] == v;
      var j :| 0 <= j < |order| && order[j] == k;
    }
  }

  /**
   * The parent's write-set and counters after the child's slots in `order`
   * are propagated one by one: each child entry is put into the parent's
   * write-set, and the counter of its array goes up when the put found no
   * entry for the slot.
   */
  function Propagated(parentWrites: map<Slot, EntryId>, parentCounts: map<ArrayId, int>,
                      childWrites: map<Slot, EntryId>, order: seq<Slot>): (map<Slot, EntryId>, map<ArrayId, int>)
    requires forall i :: 0 <= i < |order| ==> order[i] in childWrites
  {
    if order == [] then (parentWrites, parentCounts)
    else
      var (w, c) := Propagated(parentWrites, parentCounts, childWrites, order[..|order| - 1]);
      var s := order[|order| - 1];
      (w[s := childWrites[s]], if s !in w then c[s.arrayId := Get(c, s.arrayId) + 1] else c)
  }

  /** The slots written after propagation are the parent's and the propagated ones. */
  lemma {:induction false} PropagatedKeys(parentWrites: map<Slot, EntryId>, parentCounts: map<ArrayId, int>,
                                          childWrites: map<Slot, EntryId>, order: seq<Slot>, s: Slot)
    requires forall i :: 0 <= i < |order| ==> order[i] in childWrites
    ensures s in Propagated(parentWrites, parentCounts, childWrites, order).0 <==> s in parentWrites || s in order
  {
    if order != [] {
      var prefix := order[..|order| - 1];
      assert order == prefix + [order[|order| - 1]];
      PropagatedKeys(parentWrites, parentCounts, childWrites, prefix, s);
    }
  }

  /**
   * Each propagated slot carries the child's entry and every other slot
   * keeps the parent's, so propagating all of the child's slots once each
   * lays the child's write-set over the parent's.
   */
  lemma {:induction false} PropagatedWrites(parentWrites: map<Slot, EntryId>, parentCounts: map<ArrayId, int>,
                                            childWrites: map<Slot, EntryId>, order: seq<Slot>, s: Slot)
    requires forall i :: 0 <= i < |order| ==> order[i] in childWrites
    requires s in parentWrites || s in order
    ensures s in Propagated(parentWrites, parentCounts, childWrites, order).0
    ensures Propagated(parentWrites, parentCounts, childWrites, order).0[s]
              == if s in order then childWrites[s] else parentWrites[s]
  {
    PropagatedKeys(parentWrites, parentCounts, childWrites, order, s);
    if order != [] {
      var prefix := order[..|order| - 1];
      assert order == prefix + [order[|order| - 1]];
      if s != order[|order| - 1] {
        PropagatedWrites(parentWrites, parentCounts, childWrites, prefix, s);
      }
    }
  }

  /**
   * With each slot listed once, the counter of every array goes up by the
   * number of its slots the parent had not written.
   */
  lemma {:induction false} PropagatedCounts(parentWrites: map<Slot, EntryId>, parentCounts: map<ArrayId, int>,
                                            childWrites: map<Slot, EntryId>, order: seq<Slot>, a: ArrayId)
    requires forall i :: 0 <= i < |order| ==> order[i] in childWrites
    requires forall i :: 0 <= i < |order| ==> order[i] !in order[..i]
    ensures Get(Propagated(parentWrites, parentCounts, childWrites, order).1, a)
              == Get(parentCounts, a) + CountNew(order, parentWrites, a)
  {
    if order != [] {
      var prefix := order[..|order| - 1];
      var s := order[|order| - 1];
      assert order == prefix + [s];
      assert forall i :: 0 <= i < |prefix| ==> prefix[..i] == order[..i];
      PropagatedCounts(parentWrites, parentCounts, childWrites, prefix, a);
      PropagatedKeys(parentWrites, parentCounts, childWrites, prefix, s);
    }
  }

  /**
   * The propagation of the child's array writes into a non-empty parent
   * write-set, in the iteration order `order`: every child entry replaces
   * the parent's entry for its slot, and the counter of an array goes up
   * by one for each slot the parent had not written.
   */
  method PropagateArrayWrites(parentWrites: map<Slot, EntryId>, parentCounts: map<ArrayId, int>,
                              childWrites: map<Slot, EntryId>, order: seq<Slot>)
    returns (writes: map<Slot, EntryId>, counts: map<ArrayId, int>)
    requires ListsKeys(order, childWrites)
    ensures (writes, counts) == Propagated(parentWrites, parentCounts, childWrites, order)
    ensures writes == parentWrites + childWrites
    ensures forall a :: Get(counts, a) == Get(parentCounts, a) + CountNew(order, parentWrites, a)
  {
    writes, counts := parentWrites, parentCounts;
    for i := 0 to |order|
      invariant (writes, counts) == Propagated(parentWrites, parentCounts, childWrites, order[..i])
    {
      var s := order[i];
      assert order[..i + 1][..i] == order[..i];
      var added := s !in writes;
      writes := writes[s := childWrites[s]];
      if added {
        counts := counts[s.arrayId := Get(counts, s.arrayId) + 1];
      }
    }
    assert order[..|order|] == order;
    PropagatedUnion(parentWrites, parentCounts, childWrites, order);
    forall a ensures Get(counts, a) == Get(parentCounts, a) + CountNew(order, parentWrites, a) {
      PropagatedCounts(parentWrites, parentCounts, childWrites, order, a);
    }
  }

  /** Propagating every slot of the child once lays its write-set over the parent's. */
  lemma PropagatedUnion(parentWrites: map<Slot, EntryId>, parentCounts: map<ArrayId, int>,
                        childWrites: map<Slot, EntryId>, order: seq<Slot>)
    requires ListsKeys(order, childWrites)
    ensures Propagated(parentWrites, parentCounts, childWrites, order).0 == parentWrites + childWrites
  {
    var writes := Propagated(parentWrites, parentCounts, childWrites, order).0;
    forall s ensures s in writes <==> s in parentWrites + childWrites {
      PropagatedKeys(parentWrites, parentCounts, childWrites, order, s);
    }
    forall s | s in writes ensures writes[s] == (parentWrites + childWrites)[s] {
      PropagatedKeys(parentWrites, parentCounts, childWrites, order, s);
      PropagatedWrites(parentWrites, parentCounts, childWrites, order, s);
    }
  }

  ghost function Elems(order: seq<Slot>): set<Slot> {
    set s | s in order
  }

  /** The written slots of array `a`. */
  ghost function SlotsOf(keys: set<Slot>, a: ArrayId): set<Slot> {
    set s | s in keys && s.arrayId == a
  }

  /** Each counter holds the number of written slots of its array. */
  ghost predicate CountsMatch(writes: map<Slot, EntryId>, counts: map<ArrayId, int>) {
    forall a :: Get(counts, a) == |SlotsOf(writes.Keys, a)|
  }

  lemma SlotsOfAdd(keys: set<Slot>, x: Slot, a: ArrayId)
    ensures |SlotsOf(keys + {x}, a)| == |SlotsOf(keys, a)| + (if x !in keys && x.arrayId == a then 1 else 0)
  {
    if x.arrayId == a {
      var before := SlotsOf(keys, a);
      assert SlotsOf(keys + {x}, a) == before + {x};
      if x in keys {
        assert before + {x} == before;
      } else {
        assert x !in before;
        assert |before + {x}| == |before| + 1;
      }
    } else {
      assert SlotsOf(keys + {x}, a) == SlotsOf(keys, a);
    }
  }

  lemma ElemsSnoc(order: seq<Slot>)
    requires order != []
    ensures Elems(order) == Elems(order[..|order| - 1]) + {order[|order| - 1]}
    ensures order[|order| - 1] !in Elems(order[..|order| - 1]) <==> order[|order| - 1] !in order[..|order| - 1]
  {
    assert order == order[..|order| - 1] + [order[|order| - 1]];
  }

  lemma {:induction false} CountNewSlots(parentWrites: map<Slot, EntryId>, order: seq<Slot>, a: ArrayId)
    requires forall i :: 0 <= i < |order| ==> order[i] !in order[..i]
    ensures |SlotsOf(parentWrites.Keys + Elems(order), a)|
              == |SlotsOf(parentWrites.Keys, a)| + CountNew(order, parentWrites, a)
  {
    if order == [] {
      assert parentWrites.Keys + Elems(order) == parentWrites.Keys;
    } else {
      var prefix := order[..|order| - 1];
      var last := order[|order| - 1];
      assert forall i :: 0 <= i < |prefix| ==> prefix[..i] == order[..i];
      CountNewSlots(parentWrites, prefix, a);
      ElemsSnoc(order);
      assert last !in Elems(prefix);
      SlotsOfAdd(parentWrites.Keys + Elems(prefix), last, a);
      assert parentWrites.Keys + Elems(order) == (parentWrites.Keys + Elems(prefix)) + {last};
    }
  }

  /**
   * A commit into a parent whose counters agree with its write-set leaves
   * counters that agree with the merged write-set.
   */
  lemma PropagateKeepsCountsMatch(parentWrites: map<Slot, EntryId>, parentCounts: map<ArrayId, int>,
                                  childWrites: map<Slot, EntryId>, order: seq<Slot>)
    requires ListsKeys(order, childWrites)
    requires CountsMatch(parentWrites, parentCounts)
    ensures CountsMatch(parentWrites + childWrites, Propagated(parentWrites, parentCounts, childWrites, order).1)
  {
    assert (parentWrites + childWrites).Keys == parentWrites.Keys + Elems(order);
    forall a ensures Get(Propagated(parentWrites, parentCounts, childWrites, order).1, a)
                       == |SlotsOf((parentWrites + childWrites).Keys, a)|
    {
      PropagatedCounts(parentWrites, parentCounts, childWrites, order, a);
      CountNewSlots(parentWrites, order, a);
    }
  }
}
