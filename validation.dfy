/**
 * The validation walks of a nested commit, as loops over the shared state,
 * each proved against the corresponding predicate of the commit
 * specification.  None of them changes the state: the abort that follows
 * a failed validation is the caller's.
 */
module Validation {
  import opened Types
  import opened Ancestry
  import opened Heap
  import opened Chains
  import opened Merge
  import opened Lookup
  import opened CommitSpec

  /**
   * validateNestedRead: walk the chain of `b` from its head down to the
   * node that was read; the first node on the way that an ancestor owns
   * is a conflict with that ancestor.
   */
  method ValidateNestedRead(w: World, self: TxId, b: BoxId, node: NodeId) returns (c: Option<TxId>)
    requires WellFormed(w) && self < |w.txs| && b < |w.boxes|
    ensures c == NestedReadConflict(w, self, b, node)
  {
    var chain := w.boxes[b].inplace;
    assert ChainOk(chain, |w.nodes|);
    ghost var p := Before(chain, Some(node));
    NewerPrefixIn(w, b, node);
    var i := 0;
    while i < |chain| && chain[i] != node
      invariant 0 <= i <= |chain| && i <= AncestorNodeIndex(w, self, p)
      invariant forall j :: 0 <= j < i ==> chain[j] != node
    {
      BeforePast(chain, node, i);
      var owner, av := NodeRel(w, self, chain[i]);
      if av >= 0 {
        NestedReadConflictAt(w, self, b, node, i);
        return Some(owner);
      }
      AncestorNodeIndexPast(w, self, p, i);
      i := i + 1;
    }
    BeforeAt(chain, node, i);
    NestedReadConflictAt(w, self, b, node, i);
    return None;
  }

  /** The walk down to the node that was read, stopped at position `i`, found the first ancestor's node. */
  lemma NestedReadConflictAt(w: World, self: TxId, b: BoxId, node: NodeId, i: nat)
    requires WellFormed(w) && self < |w.txs| && b < |w.boxes|
    requires ChainIn(w, Before(w.boxes[b].inplace, Some(node)))
    requires i <= AncestorNodeIndex(w, self, Before(w.boxes[b].inplace, Some(node)))
    requires var p := Before(w.boxes[b].inplace, Some(node));
      i == |p| || (i < |p| && Rel(w, self, p[i]) >= 0)
    ensures var p := Before(w.boxes[b].inplace, Some(node));
      NestedReadConflict(w, self, b, node) == if i < |p| then Some(OwnerOf(w, p[i])) else None
  {
    var p := Before(w.boxes[b].inplace, Some(node));
    var k := AncestorNodeIndex(w, self, p);
    assert forall j :: 0 <= j < k ==> Rel(w, self, p[j]) < 0;
    assert k == i;
  }

  /** The owner of node `n` and how `self` relates to it (retrieveAncestorVersion of the owner). */
  method NodeRel(w: World, self: TxId, n: NodeId) returns (owner: TxId, av: int)
    requires WellFormed(w) && self < |w.txs| && n < |w.nodes|
    ensures owner == OwnerOf(w, n) && av == Rel(w, self, n)
  {
    owner := w.orecs[w.nodes[n].orec].owner;
    av := RetrieveAncestorVersion(w.txs, self, owner);
  }

  /** The nodes before the first occurrence of `node` are the ones a walk passed before meeting it. */
  lemma BeforeAt(chain: seq<NodeId>, node: NodeId, i: nat)
    requires i <= |chain| && forall j :: 0 <= j < i ==> chain[j] != node
    requires i < |chain| ==> chain[i] == node
    ensures Before(chain, Some(node)) == chain[..i]
  {
  }

  /** A walk that has not met `node` after `i + 1` nodes is still inside the nodes before it. */
  lemma BeforePast(chain: seq<NodeId>, node: NodeId, i: nat)
    requires i < |chain| && forall j :: 0 <= j <= i ==> chain[j] != node
    ensures |Before(chain, Some(node))| > i
    ensures forall j :: 0 <= j <= i ==> Before(chain, Some(node))[j] == chain[j]
  {
  }

  /** The walk of validateGlobalReads over the whole chain of one box read from committed state. */
  method ValidateGlobalRead(w: World, self: TxId, b: BoxId) returns (c: Option<TxId>)
    requires WellFormed(w) && self < |w.txs| && b < |w.boxes|
    ensures c == GlobalReadConflict(w, self, b)
  {
    var chain := w.boxes[b].inplace;
    assert ChainOk(chain, |w.nodes|);
    var i := 0;
    while i < |chain|
      invariant 0 <= i <= AncestorNodeIndex(w, self, chain)
    {
      var owner, av := NodeRel(w, self, chain[i]);
      if av >= 0 {
        GlobalReadConflictAt(w, self, b, i);
        return Some(owner);
      }
      AncestorNodeIndexPast(w, self, chain, i);
      i := i + 1;
    }
    GlobalReadConflictAt(w, self, b, i);
    return None;
  }

  /** The walk over the chain of `b` that stopped at position `i` found the first ancestor's node. */
  lemma GlobalReadConflictAt(w: World, self: TxId, b: BoxId, i: nat)
    requires WellFormed(w) && self < |w.txs| && b < |w.boxes|
    requires ChainIn(w, w.boxes[b].inplace) && i <= AncestorNodeIndex(w, self, w.boxes[b].inplace)
    requires i == |w.boxes[b].inplace| || (i < |w.boxes[b].inplace| && Rel(w, self, w.boxes[b].inplace[i]) >= 0)
    ensures GlobalReadConflict(w, self, b) == if i < |w.boxes[b].inplace| then Some(OwnerOf(w, w.boxes[b].inplace[i])) else None
  {
    var chain := w.boxes[b].inplace;
    var k := AncestorNodeIndex(w, self, chain);
    assert forall j :: 0 <= j < k ==> Rel(w, self, chain[j]) < 0;
    assert k == i;
  }

  /** A walk past a node of an unrelated owner has not reached the first ancestor's node yet. */
  lemma AncestorNodeIndexPast(w: World, self: TxId, p: seq<NodeId>, i: nat)
    requires WellFormed(w) && self < |w.txs| && ChainIn(w, p)
    requires i < |p| && i <= AncestorNodeIndex(w, self, p) && Rel(w, self, p[i]) < 0
    ensures i < AncestorNodeIndex(w, self, p)
  {
  }

  /** Every nested read of `log`, in any order, passes validateNestedRead. */
  method ValidateNestedReads(w: World, self: TxId, log: map<BoxId, NodeId>) returns (c: Option<TxId>)
    requires WellFormed(w) && self < |w.txs| && forall b :: b in log ==> b < |w.boxes|
    ensures c.None? <==> NestedReadsValid(w, self, log)
    ensures c.Some? ==> c.value in Ancestors(w.txs, self)
  {
    var todo := log.Keys;
    while todo != {}
      invariant todo <= log.Keys
      invariant forall b :: b in log && b !in todo ==> NestedReadConflict(w, self, b, log[b]).None?
      decreases |todo|
    {
      var b :| b in todo;
      c := ValidateNestedRead(w, self, b, log[b]);
      if c.Some? {
        NestedReadConflictSound(w, self, b, log[b]);
        return;
      }
      todo := todo - {b};
    }
    return None;
  }

  /** Every read in the slots of a read-log block from slot `i` to its end passes `ok`. */
  predicate BlockValid(slots: seq<Option<BoxId>>, i: nat, ok: BoxId -> bool)
    decreases |slots| - i
  {
    i >= |slots| || ((slots[i].Some? ==> ok(slots[i].value)) && BlockValid(slots, i + 1, ok))
  }

  lemma {:induction false} BlockValidAll(slots: seq<Option<BoxId>>, i: nat, ok: BoxId -> bool)
    ensures BlockValid(slots, i, ok) <==> forall j :: i <= j < |slots| ==> (slots[j].Some? ==> ok(slots[j].value))
    decreases |slots| - i
  {
    if i < |slots| {
      BlockValidAll(slots, i + 1, ok);
    }
  }

  /** One block of validateGlobalReads (its slots), from slot `from` to its end. */
  method ValidateBlock(w: World, self: TxId, slots: seq<Option<BoxId>>, from: nat) returns (c: Option<TxId>)
    requires WellFormed(w) && self < |w.txs|
    ensures c.None? <==> BlockValid(slots, from, PassesGlobal(w, self))
    ensures c.Some? ==> c.value in Ancestors(w.txs, self)
  {
    ghost var ok := PassesGlobal(w, self);
    var i := from;
    while i < |slots|
      invariant from <= i
      invariant BlockValid(slots, from, ok) == BlockValid(slots, i, ok)
      decreases |slots| - i
    {
      c := ValidateSlot(w, self, slots[i]);
      if c.Some? {
        return;
      }
      i := i + 1;
    }
    return None;
  }

  /** One slot of a block: a read of a box the state does not hold is skipped. */
  method ValidateSlot(w: World, self: TxId, read: Option<BoxId>) returns (c: Option<TxId>)
    requires WellFormed(w) && self < |w.txs|
    ensures c.None? <==> (read.Some? ==> PassesGlobal(w, self)(read.value))
    ensures c.Some? ==> c.value in Ancestors(w.txs, self)
  {
    c := None;
    if read.Some? && read.value < |w.boxes| {
      c := ValidateGlobalRead(w, self, read.value);
      GlobalReadConflictSound(w, self, read.value);
    }
  }

  /**
   * validateGlobalReads: the first block from the slot after `next` (the
   * ones below it are not filled yet), then every other block in full.
   */
  method ValidateGlobalReads(w: World, self: TxId, blocks: seq<ReadBlock>, next: int) returns (c: Option<TxId>)
    requires WellFormed(w) && self < |w.txs| && |blocks| > 0 && -1 <= next
    ensures c.None? <==> GlobalReadsValid(w, self, blocks, next)
    ensures c.Some? ==> c.value in Ancestors(w.txs, self)
  {
    c := ValidateBlock(w, self, blocks[0][..], next + 1);
    if c.Some? {
      GlobalReadsValidBlocks(w, self, blocks, next);
      return;
    }
    for k := 1 to |blocks|
      invariant BlocksValid(blocks, k, PassesGlobal(w, self))
    {
      c := ValidateBlock(w, self, blocks[k][..], 0);
      if c.Some? {
        GlobalReadsValidBlocks(w, self, blocks, next);
        return;
      }
    }
    BlocksValidAll(blocks, |blocks|, PassesGlobal(w, self));
    GlobalReadsValidBlocks(w, self, blocks, next);
    return None;
  }

  /** Every block of `blocks` after the first and before block `hi` passes `ok` in full. */
  predicate BlocksValid(blocks: seq<ReadBlock>, hi: nat, ok: BoxId -> bool)
    reads set m | 0 <= m < |blocks| :: blocks[m]
  {
    hi <= 1 || hi > |blocks| || (BlocksValid(blocks, hi - 1, ok) && BlockValid(blocks[hi - 1][..], 0, ok))
  }

  lemma {:induction false} BlocksValidAll(blocks: seq<ReadBlock>, hi: nat, ok: BoxId -> bool)
    requires hi <= |blocks|
    ensures BlocksValid(blocks, hi, ok) <==> forall m :: 1 <= m < hi ==> BlockValid(blocks[m][..], 0, ok)
  {
    if hi > 1 {
      BlocksValidAll(blocks, hi - 1, ok);
    }
  }

  /** validateGlobalReads passes exactly when each block passes from the slot it starts at. */
  lemma GlobalReadsValidBlocks(w: World, self: TxId, blocks: seq<ReadBlock>, next: int)
    requires WellFormed(w) && self < |w.txs| && |blocks| > 0 && -1 <= next
    ensures GlobalReadsValid(w, self, blocks, next) <==>
      && BlockValid(blocks[0][..], next + 1, PassesGlobal(w, self))
      && forall m :: 1 <= m < |blocks| ==> BlockValid(blocks[m][..], 0, PassesGlobal(w, self))
  {
    var ok := PassesGlobal(w, self);
    BlockValidAll(blocks[0][..], next + 1, ok);
    forall m | 1 <= m < |blocks| ensures BlockValid(blocks[m][..], 0, ok) <==>
      forall j :: 0 <= j < blocks[m].Length ==> (blocks[m][j].Some? ==> ok(blocks[m][j].value))
    {
      BlockValidAll(blocks[m][..], 0, ok);
    }
  }

  // ------------------------------------------------------ snapshotValidation

  /** The nested reads of `u`, validated on behalf of `self`. */
  method ValidateNestedLog(w: World, self: TxId, u: TxId) returns (c: Option<TxId>)
    requires WellFormed(w) && self < |w.txs| && u < |w.txs|
    ensures c.None? <==> NestedLogValid(w, self, u)
    ensures c.Some? ==> c.value in Ancestors(w.txs, self)
  {
    assert TxOk(w.txs[u], |w.txs|, |w.boxes|, |w.entries|);
    c := ValidateNestedReads(w, self, w.txs[u].nestedReads);
  }

  /** The committed-state reads of `u`, validated on behalf of `self` unless `u` logged none. */
  method ValidateGlobalLog(w: World, self: TxId, u: TxId) returns (c: Option<TxId>)
    requires WellFormed(w) && self < |w.txs| && u < |w.txs|
    ensures c.None? <==> GlobalLogValid(w, self, u)
    ensures c.Some? ==> c.value in Ancestors(w.txs, self)
  {
    assert TxOk(w.txs[u], |w.txs|, |w.boxes|, |w.entries|);
    if w.txs[u].globalReads == [] {
      return None;
    }
    c := ValidateGlobalReads(w, self, w.txs[u].globalReads, w.txs[u].next);
  }

  /** The nested reads of each transaction of `us` in turn. */
  method ValidateNestedLogs(w: World, self: TxId, us: seq<TxId>) returns (c: Option<TxId>)
    requires WellFormed(w) && self < |w.txs| && forall i :: 0 <= i < |us| ==> us[i] < |w.txs|
    ensures c.None? <==> NestedLogsValid(w, self, us)
    ensures c.Some? ==> c.value in Ancestors(w.txs, self)
  {
    for i := 0 to |us|
      invariant NestedLogsValid(w, self, us[..i])
    {
      c := ValidateNestedLog(w, self, us[i]);
      if c.Some? {
        NestedLogsValidEach(w, self, us, i);
        return;
      }
      NestedLogsValidSnoc(w, self, us, i);
    }
    assert us[..|us|] == us;
    return None;
  }

  /** The committed-state reads of each transaction of `us` in turn. */
  method ValidateGlobalLogs(w: World, self: TxId, us: seq<TxId>) returns (c: Option<TxId>)
    requires WellFormed(w) && self < |w.txs| && forall i :: 0 <= i < |us| ==> us[i] < |w.txs|
    ensures c.None? <==> GlobalLogsValid(w, self, us)
    ensures c.Some? ==> c.value in Ancestors(w.txs, self)
  {
    for i := 0 to |us|
      invariant GlobalLogsValid(w, self, us[..i])
      invariant forall o :: o in AllBlocks(w) ==> allocated(o) // keeps the logs framed across the calls
    {
      c := ValidateGlobalLog(w, self, us[i]);
      if c.Some? {
        GlobalLogsValidEach(w, self, us, i);
        return;
      }
      GlobalLogsValidSnoc(w, self, us, i);
    }
    assert us[..|us|] == us;
    return None;
  }

  lemma NestedLogsValidSnoc(w: World, self: TxId, us: seq<TxId>, i: nat)
    requires WellFormed(w) && self < |w.txs| && forall j :: 0 <= j < |us| ==> us[j] < |w.txs|
    requires i < |us|
    ensures NestedLogsValid(w, self, us[..i + 1]) <==> NestedLogsValid(w, self, us[..i]) && NestedLogValid(w, self, us[i])
  {
    assert us[..i + 1][..i] == us[..i];
  }

  lemma GlobalLogsValidSnoc(w: World, self: TxId, us: seq<TxId>, i: nat)
    requires WellFormed(w) && self < |w.txs| && forall j :: 0 <= j < |us| ==> us[j] < |w.txs|
    requires i < |us|
    ensures GlobalLogsValid(w, self, us[..i + 1]) <==> GlobalLogsValid(w, self, us[..i]) && GlobalLogValid(w, self, us[i])
  {
    assert us[..i + 1][..i] == us[..i];
  }

  /** The nested reads of `us` pass only when those of each transaction of `us` pass. */
  lemma {:induction false} NestedLogsValidEach(w: World, self: TxId, us: seq<TxId>, i: nat)
    requires WellFormed(w) && self < |w.txs| && forall j :: 0 <= j < |us| ==> us[j] < |w.txs|
    requires i < |us|
    ensures NestedLogsValid(w, self, us) ==> NestedLogValid(w, self, us[i])
    decreases |us|
  {
    if i < |us| - 1 && NestedLogsValid(w, self, us) {
      var front := us[..|us| - 1];
      assert front[i] == us[i];
      NestedLogsValidEach(w, self, front, i);
    }
  }

  /** The committed-state reads of `us` pass only when those of each transaction of `us` pass. */
  lemma {:induction false} GlobalLogsValidEach(w: World, self: TxId, us: seq<TxId>, i: nat)
    requires WellFormed(w) && self < |w.txs| && forall j :: 0 <= j < |us| ==> us[j] < |w.txs|
    requires i < |us|
    ensures GlobalLogsValid(w, self, us) ==> GlobalLogValid(w, self, us[i])
    decreases |us|
  {
    if i < |us| - 1 && GlobalLogsValid(w, self, us) {
      var front := us[..|us| - 1];
      assert front[i] == us[i];
      GlobalLogsValidEach(w, self, front, i);
    }
  }

  /**
   * snapshotValidation: when a nested commit reached the parent since
   * `self` saw it, the nested reads of `self` and of the transactions
   * merged into it, then their committed-state reads; the conflict found
   * names an ancestor of `self`.
   */
  method SnapshotValidation(w: World, self: TxId) returns (c: Option<TxId>)
    requires WellFormed(w) && self < |w.txs| && w.txs[self].parent.Some?
    ensures c.None? <==> SnapshotValid(w, self)
    ensures c.Some? ==> c.value in Ancestors(w.txs, self)
  {
    var p := w.txs[self].parent.value;
    var av := RetrieveAncestorVersion(w.txs, self, p);
    if av == w.txs[p].nestedVersion {
      return None;
    }
    var us := Validated(w, self);
    c := ValidateNestedLogs(w, self, us);
    if c.Some? {
      return;
    }
    c := ValidateGlobalLogs(w, self, us);
  }

  // ------------------------------------------------ validateNestedArrayReads

  /**
   * validateNestedArrayReads: the array reads of `self` in order, each one
   * not served by the parent consed onto the parent's array reads, and a
   * conflict with the parent as soon as the parent holds a write of the
   * slot read that is newer than the version of the parent `self` saw.
   */
  method ValidateNestedArrayReads(w: World, self: TxId) returns (r: Result<seq<EntryId>>)
    requires WellFormed(w) && self < |w.txs| && w.txs[self].parent.Some?
    ensures r == HandedUpReads(w, self)
  {
    var p := w.txs[self].parent.value;
    assert TxOk(w.txs[self], |w.txs|, |w.boxes|, |w.entries|);
    assert TxOk(w.txs[p], |w.txs|, |w.boxes|, |w.entries|);
    var maxVersion := RetrieveAncestorVersion(w.txs, self, p);
    r := WalkArrayReads(w.entries, w.txs[self].arraysRead, p, w.txs[p].arrayWrites, maxVersion, w.txs[p].arraysRead);
  }

  /** The loop of validateNestedArrayReads over the reads of `log`. */
  method WalkArrayReads(entries: seq<ArrayEntry>, log: seq<EntryId>, p: TxId, writes: map<Slot, EntryId>,
                        seen: int, parentReads: seq<EntryId>) returns (r: Result<seq<EntryId>>)
    requires forall i :: 0 <= i < |log| ==> log[i] < |entries|
    requires forall s :: s in writes ==> writes[s] < |entries|
    ensures r == HandUp(entries, log, p, writes, seen, parentReads)
  {
    var acc := parentReads;
    for i := 0 to |log|
      invariant acc == Reverse(KeptReads(entries, log[..i], p)) + parentReads
      invariant forall j :: 0 <= j < i ==> !StaleIn(entries, writes, seen, log[j])
    {
      var e := log[i];
      KeptReadsStep(entries, log, p, i, parentReads);
      if entries[e].readOwner != Some(p) {
        acc := [e] + acc;
      }
      if writes != map[] {
        var slot := entries[e].slot;
        if slot in writes && entries[writes[slot]].nestedVersion > seen {
          assert StaleIn(entries, writes, seen, log[i]);
          return Fail(CommitEx(p));
        }
      }
    }
    assert log[..|log|] == log;
    return Ok(acc);
  }

  /** One more entry of the log, kept when `p` did not serve it, comes first in the reads handed up. */
  lemma KeptReadsStep(entries: seq<ArrayEntry>, log: seq<EntryId>, p: TxId, i: nat, parentReads: seq<EntryId>)
    requires forall j :: 0 <= j < |log| ==> log[j] < |entries|
    requires i < |log|
    ensures Reverse(KeptReads(entries, log[..i + 1], p)) + parentReads
      == (if entries[log[i]].readOwner != Some(p) then [log[i]] else []) + (Reverse(KeptReads(entries, log[..i], p)) + parentReads)
  {
    var kept := KeptReads(entries, log[..i], p);
    KeptReadsSnoc(entries, log, p, i);
    if entries[log[i]].readOwner != Some(p) {
      ReverseSnoc(kept, log[i]);
      ConsAssoc(log[i], Reverse(kept), parentReads);
    } else {
      assert kept + [] == kept;
    }
  }

  lemma ConsAssoc<T>(x: T, a: seq<T>, b: seq<T>)
    ensures ([x] + a) + b == [x] + (a + b)
  {
  }

  lemma KeptReadsSnoc(entries: seq<ArrayEntry>, log: seq<EntryId>, p: TxId, i: nat)
    requires forall j :: 0 <= j < |log| ==> log[j] < |entries|
    requires i < |log|
    ensures KeptReads(entries, log[..i + 1], p)
      == KeptReads(entries, log[..i], p) + (if entries[log[i]].readOwner != Some(p) then [log[i]] else [])
  {
    var prefix := log[..i + 1];
    assert prefix[..|prefix| - 1] == log[..i];
    assert prefix[|prefix| - 1] == log[i];
  }
}
