/**
 * Ancestor resolution: the parent chain of a transaction, the ancestor
 * versions a parallel nested transaction records when it is created, and
 * the two queries built on them (retrieveAncestorVersion and
 * retrieveLowestCommonAncestor).
 */
module Ancestry {
  import opened Types

  /** Every parent is created before its children, so each parent chain ends. */
  predicate ParentsBefore(txs: seq<Tx>) {
    forall t :: 0 <= t < |txs| && txs[t].parent.Some? ==> txs[t].parent.value < t
  }

  /** The parent chain that starts at `cur` (included), nearest first. */
  function ChainFrom(txs: seq<Tx>, cur: Option<TxId>): (c: seq<TxId>)
    requires ParentsBefore(txs)
    requires cur.Some? ==> cur.value < |txs|
    ensures cur.None? ==> c == []
    ensures cur.Some? ==> |c| > 0 && c[0] == cur.value
    ensures forall i :: 0 <= i < |c| ==> c[i] < |txs|
    ensures cur.Some? ==> forall i :: 0 < i < |c| ==> c[i] < cur.value
    decreases if cur.Some? then cur.value + 1 else 0
  {
    match cur
    case None => []
    case Some(x) => [x] + ChainFrom(txs, txs[x].parent)
  }

  /** The proper ancestors of `t`: its parent first, the root last. */
  function Ancestors(txs: seq<Tx>, t: TxId): (a: seq<TxId>)
    requires ParentsBefore(txs) && t < |txs|
    ensures forall i :: 0 <= i < |a| ==> a[i] < t
  {
    ChainFrom(txs, txs[t].parent)
  }

  /**
   * The transaction tree is well formed: parents come first, versions are
   * never negative, and every transaction recorded a version for each of
   * its ancestors.
   */
  predicate Ready(txs: seq<Tx>) {
    && ParentsBefore(txs)
    && (forall t :: 0 <= t < |txs| ==> txs[t].nestedVersion >= 0)
    && (forall t, i :: 0 <= t < |txs| && 0 <= i < |txs[t].ancVersions| ==> txs[t].ancVersions[i] >= 0)
    && (forall t :: 0 <= t < |txs| ==> |Ancestors(txs, t)| <= |txs[t].ancVersions|)
  }

  /** Position of the first occurrence of `x` in `s`. */
  function IndexOf(s: seq<TxId>, x: TxId): (r: Option<nat>)
    ensures r.None? <==> x !in s
    ensures r.Some? ==> r.value < |s| && s[r.value] == x && x !in s[..r.value]
  {
    if s == [] then None
    else if s[0] == x then Some(0)
    else match IndexOf(s[1..], x)
      case None => None
      case Some(i) => Some(i + 1)
  }

  /**
   * The version `self` recorded for `x` when it was created: -2 when `x` is
   * `self`, -1 when `x` is not an ancestor, and otherwise the recorded
   * version of the i-th ancestor, the parent being the 0-th.
   */
  function AncestorVersion(txs: seq<Tx>, self: TxId, x: TxId): (r: int)
    requires Ready(txs) && self < |txs|
    ensures r == -2 <==> x == self
    ensures r == -1 <==> x != self && x !in Ancestors(txs, self)
    ensures r >= 0 <==> x in Ancestors(txs, self)
  {
    if x == self then -2
    else match IndexOf(Ancestors(txs, self), x)
      case None => -1
      case Some(i) => txs[self].ancVersions[i]
  }

  /** The i-th ancestor (the parent being the 0-th) is found at the i-th recorded version. */
  lemma AncestorVersionAt(txs: seq<Tx>, self: TxId, i: nat)
    requires Ready(txs) && self < |txs| && i < |Ancestors(txs, self)|
    ensures AncestorVersion(txs, self, Ancestors(txs, self)[i]) == txs[self].ancVersions[i]
  {
    var a := Ancestors(txs, self);
    var j := IndexOf(a, a[i]).value;
    assert a[j] == a[i];
    if j != i {
      ChainFromDecreasing(txs, txs[self].parent, j, i);
    }
  }

  /** A parent chain strictly decreases, so no transaction occurs on it twice. */
  lemma {:induction false} ChainFromDecreasing(txs: seq<Tx>, cur: Option<TxId>, i: nat, j: nat)
    requires ParentsBefore(txs)
    requires cur.Some? ==> cur.value < |txs|
    requires i < j < |ChainFrom(txs, cur)|
    ensures ChainFrom(txs, cur)[j] < ChainFrom(txs, cur)[i]
    decreases i
  {
    var x := cur.value;
    var rest := ChainFrom(txs, txs[x].parent);
    assert ChainFrom(txs, cur) == [x] + rest;
    if i > 0 {
      ChainFromDecreasing(txs, txs[x].parent, i - 1, j - 1);
    }
  }

  /** The loop of retrieveAncestorVersion, walking the parent chain. */
  method RetrieveAncestorVersion(txs: seq<Tx>, self: TxId, x: TxId) returns (r: int)
    requires Ready(txs) && self < |txs|
    ensures r == AncestorVersion(txs, self, x)
  {
    if x == self {
      return -2;
    }
    ghost var anc := Ancestors(txs, self);
    var i := 0;
    var nextParent := txs[self].parent;
    while nextParent.Some?
      invariant nextParent.Some? ==> nextParent.value < |txs|
      invariant i <= |anc| && anc[i..] == ChainFrom(txs, nextParent)
      invariant x !in anc[..i]
      decreases if nextParent.Some? then nextParent.value + 1 else 0
    {
      if nextParent.value == x {
        AncestorVersionAt(txs, self, i);
        return txs[self].ancVersions[i];
      }
      assert anc[..i + 1] == anc[..i] + [anc[i]];
      assert anc[i + 1..] == anc[i..][1..];
      nextParent := txs[nextParent.value].parent;
      i := i + 1;
    }
    assert anc[..i] == anc;
    return -1;
  }

  /** Position of the first transaction of `chain` that is an ancestor of `self` (|chain| if none is). */
  function FirstAncestorIndex(txs: seq<Tx>, self: TxId, chain: seq<TxId>): (k: nat)
    requires Ready(txs) && self < |txs|
    ensures k <= |chain|
    ensures forall j :: 0 <= j < k ==> AncestorVersion(txs, self, chain[j]) < 0
    ensures k < |chain| ==> AncestorVersion(txs, self, chain[k]) >= 0
  {
    if chain == [] then 0
    else if AncestorVersion(txs, self, chain[0]) >= 0 then 0
    else
      var k := 1 + FirstAncestorIndex(txs, self, chain[1..]);
      assert forall j :: 0 < j < |chain| ==> chain[j] == chain[1..][j - 1];
      k
  }

  /**
   * The lowest common ancestor of `self` and `x`: the first transaction on
   * the parent chain of `x`, `x` included, that is an ancestor of `self`.
   */
  function LowestCommonAncestor(txs: seq<Tx>, self: TxId, x: TxId): (r: Option<TxId>)
    requires Ready(txs) && self < |txs| && x < |txs|
  {
    var chain := ChainFrom(txs, Some(x));
    var k := FirstAncestorIndex(txs, self, chain);
    if k < |chain| then Some(chain[k]) else None
  }

  /**
   * The lowest common ancestor is an ancestor of `self` on the chain of
   * `x`, and there is none exactly when no transaction on that chain is an
   * ancestor of `self`.
   */
  lemma LowestCommonAncestorSound(txs: seq<Tx>, self: TxId, x: TxId)
    requires Ready(txs) && self < |txs| && x < |txs|
    ensures var r := LowestCommonAncestor(txs, self, x);
      && (r.Some? ==> r.value in Ancestors(txs, self) && r.value in ChainFrom(txs, Some(x)))
      && (r.None? <==> forall y :: y in ChainFrom(txs, Some(x)) ==> y !in Ancestors(txs, self))
  {
    var chain := ChainFrom(txs, Some(x));
    var k := FirstAncestorIndex(txs, self, chain);
    if k == |chain| {
      forall y | y in chain ensures y !in Ancestors(txs, self) {
        var j :| 0 <= j < |chain| && chain[j] == y;
      }
    } else {
      assert chain[k] in chain;
    }
  }

  /** The loop of retrieveLowestCommonAncestor. */
  method RetrieveLowestCommonAncestor(txs: seq<Tx>, self: TxId, x: TxId) returns (r: Option<TxId>)
    requires Ready(txs) && self < |txs| && x < |txs|
    ensures r == LowestCommonAncestor(txs, self, x)
  {
    ghost var chain := ChainFrom(txs, Some(x));
    ghost var first := FirstAncestorIndex(txs, self, chain);
    ghost var k := 0;
    var current: Option<TxId> := Some(x);
    while current.Some?
      invariant current.Some? ==> current.value < |txs|
      invariant k <= first && chain[k..] == ChainFrom(txs, current)
      decreases if current.Some? then current.value + 1 else 0
    {
      var v := RetrieveAncestorVersion(txs, self, current.value);
      if v >= 0 {
        assert chain[k] == current.value;
        return current;
      }
      assert chain[k..][1..] == chain[k + 1..];
      current := txs[current.value].parent;
      k := k + 1;
    }
    return None;
  }

  /**
   * The loop of the constructor that fills the new ancestor-version array:
   * the parent's nested version first, then the parent's own array.
   */
  method SnapshotAncVersions(parentVers: seq<int>, parentNestedVersion: int) returns (r: seq<int>)
    ensures |r| == |parentVers| + 1
    ensures r[0] == parentNestedVersion
    ensures forall i :: 0 <= i < |parentVers| ==> r[i + 1] == parentVers[i]
  {
    var a := new int[|parentVers| + 1];
    a[0] := parentNestedVersion;
    for i := 0 to |parentVers|
      invariant a[0] == parentNestedVersion
      invariant forall j :: 0 <= j < i ==> a[j + 1] == parentVers[j]
    {
      a[i + 1] := parentVers[i];
    }
    r := a[..];
  }

  /** Parent chains only depend on the parent fields of the transactions on them. */
  lemma {:induction false} ChainFromFrame(txs: seq<Tx>, txs': seq<Tx>, cur: Option<TxId>)
    requires ParentsBefore(txs) && ParentsBefore(txs')
    requires |txs| <= |txs'|
    requires forall t :: 0 <= t < |txs| ==> txs'[t].parent == txs[t].parent
    requires cur.Some? ==> cur.value < |txs|
    ensures ChainFrom(txs', cur) == ChainFrom(txs, cur)
    decreases if cur.Some? then cur.value + 1 else 0
  {
    if cur.Some? {
      ChainFromFrame(txs, txs', txs[cur.value].parent);
    }
  }

  /** Changing anything but parents, ancestor versions and the sign of nested versions keeps the tree ready. */
  lemma ReadyFrame(txs: seq<Tx>, txs': seq<Tx>)
    requires Ready(txs) && |txs'| == |txs|
    requires forall t :: 0 <= t < |txs| ==> txs'[t].parent == txs[t].parent
    requires forall t :: 0 <= t < |txs| ==> txs'[t].ancVersions == txs[t].ancVersions
    requires forall t :: 0 <= t < |txs| ==> txs'[t].nestedVersion >= 0
    ensures Ready(txs')
    ensures forall t :: 0 <= t < |txs| ==> Ancestors(txs', t) == Ancestors(txs, t)
  {
    forall t | 0 <= t < |txs|
      ensures Ancestors(txs', t) == Ancestors(txs, t)
    {
      ChainFromFrame(txs, txs', txs[t].parent);
    }
  }

  /** Ancestor lookups only depend on parents and the asking transaction's versions. */
  lemma AncestorVersionFrame(txs: seq<Tx>, txs': seq<Tx>, self: TxId, x: TxId)
    requires Ready(txs) && Ready(txs') && self < |txs| <= |txs'|
    requires forall t :: 0 <= t < |txs| ==> txs'[t].parent == txs[t].parent
    requires txs'[self].ancVersions == txs[self].ancVersions
    ensures AncestorVersion(txs', self, x) == AncestorVersion(txs, self, x)
  {
    ChainFromFrame(txs, txs', txs[self].parent);
  }

  /** A forked child added to a ready tree keeps it ready; the old chains are unchanged. */
  lemma ForkReady(txs: seq<Tx>, child: Tx)
    requires Ready(txs)
    requires child.parent.Some? && child.parent.value < |txs|
    requires child.ancVersions == [txs[child.parent.value].nestedVersion] + txs[child.parent.value].ancVersions
    requires child.nestedVersion >= 0
    ensures Ready(txs + [child])
    ensures forall t :: 0 <= t < |txs| ==> Ancestors(txs + [child], t) == Ancestors(txs, t)
    ensures Ancestors(txs + [child], |txs|) == [child.parent.value] + Ancestors(txs, child.parent.value)
  {
    var txs' := txs + [child];
    var p := child.parent.value;
    assert ParentsBefore(txs');
    forall t | 0 <= t < |txs|
      ensures Ancestors(txs', t) == Ancestors(txs, t)
    {
      ChainFromFrame(txs, txs', txs[t].parent);
    }
    ChainFromFrame(txs, txs', txs[p].parent);
    assert Ancestors(txs', |txs|) == [p] + Ancestors(txs, p);
  }

  /**
   * What a forked child sees: its parent at the parent's nested version at
   * fork time, and every other transaction exactly as its parent does.
   */
  lemma ForkedAncestorVersion(txs: seq<Tx>, child: Tx, x: TxId)
    requires Ready(txs)
    requires child.parent.Some? && child.parent.value < |txs|
    requires child.ancVersions == [txs[child.parent.value].nestedVersion] + txs[child.parent.value].ancVersions
    requires child.nestedVersion >= 0
    ensures Ready(txs + [child])
    ensures AncestorVersion(txs + [child], |txs|, child.parent.value) == txs[child.parent.value].nestedVersion
    ensures x != |txs| && x != child.parent.value ==>
              AncestorVersion(txs + [child], |txs|, x) == AncestorVersion(txs, child.parent.value, x)
  {
    ForkReady(txs, child);
    var txs' := txs + [child];
    var p := child.parent.value;
    var a := Ancestors(txs, p);
    assert Ancestors(txs', |txs|)[0] == p;
    if x != |txs| && x != p {
      if i :| 0 <= i < |a| && a[i] == x {
        AncestorVersionAt(txs, p, i);
        AncestorVersionAt(txs', |txs|, i + 1);
      } else {
        assert x !in Ancestors(txs', |txs|);
      }
    }
  }
}
