/**
 * The ancestor-relative lookups of getPerTxValue and getLocalArrayValue,
 * and what the validation walks of a nested commit check.
 */
module Lookup {
  import opened Types
  import opened Ancestry
  import opened Heap
  import opened Chains

  /** Position of the first transaction of `s` that satisfies `p` (|s| if none does). */
  function FirstWhere(s: seq<TxId>, p: TxId -> bool): (k: nat)
    ensures k <= |s|
    ensures forall j :: 0 <= j < k ==> !p(s[j])
    ensures k < |s| ==> p(s[k])
  {
    if s == [] then 0
    else if p(s[0]) then 0
    else
      var k := 1 + FirstWhere(s[1..], p);
      assert forall j :: 0 < j < |s| ==> s[j] == s[1..][j - 1];
      k
  }

  // ------------------------------------------------------------ per-tx boxes

  /** Transaction `t` holds a non-null value for the per-transaction box `pb`. */
  predicate HoldsPerTx(w: World, pb: PerTxBoxId, t: TxId) {
    t < |w.txs| && pb in w.txs[t].perTxValues && w.txs[t].perTxValues[pb] != Null
  }

  datatype PerTxStep =
    | PerTxLocal(v: Value)                 // this transaction's own value
    | PerTxAncestor(ancestor: TxId, v: Value)  // an ancestor's value, still consistent
    | PerTxStale(ancestor: TxId)           // an ancestor's value after a commit into it
    | PerTxMiss                            // no value anywhere up the tree

  /** getPerTxValue: the own value, else the nearest ancestor holding one. */
  function PerTxDecision(w: World, self: TxId, pb: PerTxBoxId): PerTxStep
    requires Ready(w.txs) && self < |w.txs|
  {
    if HoldsPerTx(w, pb, self) then PerTxLocal(w.txs[self].perTxValues[pb])
    else
      var anc := Ancestors(w.txs, self);
      var k := FirstWhere(anc, (t: TxId) => HoldsPerTx(w, pb, t));
      if k < |anc| then
        var a := anc[k];
        if w.txs[a].nestedVersion != AncestorVersion(w.txs, self, a) then PerTxStale(a)
        else PerTxAncestor(a, w.txs[a].perTxValues[pb])
      else PerTxMiss
  }

  /**
   * A value is taken from the nearest ancestor that holds one, and only
   * when no nested commit reached that ancestor since `self` was created;
   * there is no value exactly when neither `self` nor any ancestor holds one.
   */
  lemma PerTxDecisionSound(w: World, self: TxId, pb: PerTxBoxId)
    requires Ready(w.txs) && self < |w.txs|
    ensures var r := PerTxDecision(w, self, pb); var anc := Ancestors(w.txs, self);
      && (r.PerTxLocal? <==> HoldsPerTx(w, pb, self))
      && (r.PerTxLocal? ==> r.v == w.txs[self].perTxValues[pb])
      && (r.PerTxAncestor? ==> (!HoldsPerTx(w, pb, self) && r.ancestor in anc && HoldsPerTx(w, pb, r.ancestor)
            && r.v == w.txs[r.ancestor].perTxValues[pb]
            && w.txs[r.ancestor].nestedVersion == AncestorVersion(w.txs, self, r.ancestor)))
      && (r.PerTxStale? ==> (r.ancestor in anc && HoldsPerTx(w, pb, r.ancestor)
            && w.txs[r.ancestor].nestedVersion != AncestorVersion(w.txs, self, r.ancestor)))
      && (r.PerTxMiss? <==> !HoldsPerTx(w, pb, self) && forall i :: 0 <= i < |anc| ==> !HoldsPerTx(w, pb, anc[i]))
  {
    var anc := Ancestors(w.txs, self);
    var k := FirstWhere(anc, (t: TxId) => HoldsPerTx(w, pb, t));
    if k < |anc| {
      assert anc[k] in anc;
    }
  }

  /** No ancestor nearer than the one a value is taken from holds a value. */
  lemma PerTxDecisionNearest(w: World, self: TxId, pb: PerTxBoxId, i: nat)
    requires Ready(w.txs) && self < |w.txs|
    requires i < |Ancestors(w.txs, self)|
    requires PerTxDecision(w, self, pb).PerTxAncestor? || PerTxDecision(w, self, pb).PerTxStale?
    requires HoldsPerTx(w, pb, Ancestors(w.txs, self)[i])
    ensures PerTxDecision(w, self, pb).ancestor in Ancestors(w.txs, self)[..i + 1]
  {
    var anc := Ancestors(w.txs, self);
    var k := FirstWhere(anc, (t: TxId) => HoldsPerTx(w, pb, t));
    assert k <= i;
    assert anc[..i + 1][k] == anc[k];
  }

  // ------------------------------------------------------------ array reads

  /** Transaction `t` has a write for `slot` in its write-set. */
  predicate WritesSlot(w: World, slot: Slot, t: TxId) {
    t < |w.txs| && slot in w.txs[t].arrayWrites
  }

  datatype ArrayStep =
    | ArrayLocal(v: Value)                                // this transaction's own write
    | ArrayAncestor(ancestor: TxId, write: EntryId, v: Value)  // a visible ancestor write, logged
    | ArrayConflict(ancestor: TxId)                       // the ancestor's write is newer than our snapshot
    | ArrayMiss                                           // no write up the tree

  /**
   * getLocalArrayValue for the read entry `e`: the own write for its slot,
   * else the nearest ancestor's write, which is only usable when it was
   * merged into that ancestor no later than the version `self` recorded.
   * Written values come back in stored form (null as the null sentinel).
   */
  function ArrayDecision(w: World, self: TxId, e: EntryId): ArrayStep
    requires Ready(w.txs) && TxsOk(w) && self < |w.txs| && e < |w.entries|
  {
    var slot := w.entries[e].slot;
    assert TxOk(w.txs[self], |w.txs|, |w.boxes|, |w.entries|);
    if WritesSlot(w, slot, self) then ArrayLocal(Boxed(w.entries[w.txs[self].arrayWrites[slot]].writeValue))
    else
      var anc := Ancestors(w.txs, self);
      var k := FirstWhere(anc, (t: TxId) => WritesSlot(w, slot, t));
      if k < |anc| then
        var a := anc[k];
        assert TxOk(w.txs[a], |w.txs|, |w.boxes|, |w.entries|);
        var ws := w.txs[a].arrayWrites[slot];
        if w.entries[ws].nestedVersion <= AncestorVersion(w.txs, self, a) then
          ArrayAncestor(a, ws, Boxed(w.entries[ws].writeValue))
        else ArrayConflict(a)
      else ArrayMiss
  }

  /**
   * An ancestor's array write is used only when it is the nearest one and
   * visible in the snapshot of `self`; a newer one is a conflict with that
   * ancestor; a miss means no transaction up the tree wrote the slot.
   */
  lemma ArrayDecisionSound(w: World, self: TxId, e: EntryId)
    requires Ready(w.txs) && TxsOk(w) && self < |w.txs| && e < |w.entries|
    ensures var r := ArrayDecision(w, self, e); var anc := Ancestors(w.txs, self);
      var slot := w.entries[e].slot;
      && (r.ArrayLocal? <==> WritesSlot(w, slot, self))
      && (r.ArrayLocal? ==> r.v == Boxed(w.entries[w.txs[self].arrayWrites[slot]].writeValue))
      && (r.ArrayAncestor? ==> (!WritesSlot(w, slot, self) && r.ancestor in anc && WritesSlot(w, slot, r.ancestor)
            && r.write == w.txs[r.ancestor].arrayWrites[slot] && r.write < |w.entries|
            && w.entries[r.write].nestedVersion <= AncestorVersion(w.txs, self, r.ancestor)
            && r.v == Boxed(w.entries[r.write].writeValue)))
      && (r.ArrayConflict? ==> (r.ancestor in anc && WritesSlot(w, slot, r.ancestor)
            && w.entries[w.txs[r.ancestor].arrayWrites[slot]].nestedVersion > AncestorVersion(w.txs, self, r.ancestor)))
      && (r.ArrayMiss? <==> !WritesSlot(w, slot, self) && forall i :: 0 <= i < |anc| ==> !WritesSlot(w, slot, anc[i]))
  {
    var anc := Ancestors(w.txs, self);
    var slot := w.entries[e].slot;
    assert TxOk(w.txs[self], |w.txs|, |w.boxes|, |w.entries|);
    var k := FirstWhere(anc, (t: TxId) => WritesSlot(w, slot, t));
    if k < |anc| {
      assert anc[k] in anc;
      assert TxOk(w.txs[anc[k]], |w.txs|, |w.boxes|, |w.entries|);
    }
  }

  // ------------------------------------------------------------- validation

  /**
   * validateNestedRead of the read of box `b` through `node`: the owner of
   * the first node newer than `node` on the box's chain that an ancestor
   * owns, which the commit aborts to; none exactly when no ancestor owns a
   * node newer than the one that was read.
   */
  function NestedReadConflict(w: World, self: TxId, b: BoxId, node: NodeId): Option<TxId>
    requires WellFormed(w) && self < |w.txs| && b < |w.boxes|
  {
    var chain := w.boxes[b].inplace;
    var p := Before(chain, Some(node));
    NewerPrefixIn(w, b, node);
    var k := AncestorNodeIndex(w, self, p);
    if k < |p| then Some(OwnerOf(w, p[k])) else None
  }

  /** The nodes newer than `node` on the chain of `b` exist. */
  lemma NewerPrefixIn(w: World, b: BoxId, node: NodeId)
    requires WellFormed(w) && b < |w.boxes|
    ensures ChainIn(w, Before(w.boxes[b].inplace, Some(node)))
  {
    var chain := w.boxes[b].inplace;
    var p := Before(chain, Some(node));
    assert ChainOk(chain, |w.nodes|);
    forall i | 0 <= i < |p| ensures p[i] < |w.nodes| { assert p[i] == chain[i]; }
  }

  /**
   * A nested read fails validation exactly when an ancestor owns a node
   * newer than the one that was read, and then names that ancestor.
   */
  lemma NestedReadConflictSound(w: World, self: TxId, b: BoxId, node: NodeId)
    requires WellFormed(w) && self < |w.txs| && b < |w.boxes|
    ensures var r := NestedReadConflict(w, self, b, node);
      var p := Before(w.boxes[b].inplace, Some(node));
      && ChainIn(w, p)
      && (r.Some? ==> r.value in Ancestors(w.txs, self))
      && (r.None? <==> forall i :: 0 <= i < |p| ==> Rel(w, self, p[i]) < 0)
  {
    NewerPrefixIn(w, b, node);
    var p := Before(w.boxes[b].inplace, Some(node));
    var k := AncestorNodeIndex(w, self, p);
    if k < |p| {
      assert Rel(w, self, p[k]) >= 0;
    }
  }

  /**
   * The walk of validateGlobalReads over one box read from the committed
   * state: the owner of the first node of its chain an ancestor owns.
   */
  function GlobalReadConflict(w: World, self: TxId, b: BoxId): Option<TxId>
    requires WellFormed(w) && self < |w.txs| && b < |w.boxes|
  {
    var chain := w.boxes[b].inplace;
    assert ChainOk(chain, |w.nodes|);
    var k := AncestorNodeIndex(w, self, chain);
    if k < |chain| then Some(OwnerOf(w, chain[k])) else None
  }

  /**
   * A read from committed state fails validation exactly when an ancestor
   * owns some node of the box's chain, and then names that ancestor.
   */
  lemma GlobalReadConflictSound(w: World, self: TxId, b: BoxId)
    requires WellFormed(w) && self < |w.txs| && b < |w.boxes|
    ensures var r := GlobalReadConflict(w, self, b); var chain := w.boxes[b].inplace;
      && (r.Some? ==> r.value in Ancestors(w.txs, self))
      && (r.None? <==> forall i :: 0 <= i < |chain| ==> Rel(w, self, chain[i]) < 0)
  {
    var chain := w.boxes[b].inplace;
    assert ChainOk(chain, |w.nodes|);
    var k := AncestorNodeIndex(w, self, chain);
    if k < |chain| {
      assert Rel(w, self, chain[k]) >= 0;
    }
  }

  /**
   * Every box read logged in `blocks` passes validateGlobalReads: the
   * slots after `next` in the first block and all slots of the others.
   */
  predicate GlobalReadsValid(w: World, self: TxId, blocks: seq<ReadBlock>, next: int)
    requires WellFormed(w) && self < |w.txs|
    reads set k | 0 <= k < |blocks| :: blocks[k]
  {
    forall k, i :: 0 <= k < |blocks| && 0 <= i < blocks[k].Length && (k == 0 ==> next < i) ==>
      (blocks[k][i].Some? ==> PassesGlobal(w, self)(blocks[k][i].value))
  }

  /** The check validateGlobalReads makes of one logged box read (a box it does not know passes). */
  function PassesGlobal(w: World, self: TxId): BoxId -> bool
    requires WellFormed(w) && self < |w.txs|
  {
    (b: BoxId) => b < |w.boxes| ==> GlobalReadConflict(w, self, b).None?
  }
}
