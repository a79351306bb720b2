/**
 * What a nested commit (tryCommit) checks and what it leaves behind: the
 * snapshot validation of the reads of the committing transaction and of
 * the transactions merged into it, the array reads handed up to the
 * parent, and the state once the child is merged into the parent.
 */
module CommitSpec {
  import opened Types
  import opened Ancestry
  import opened Heap
  import opened Chains
  import opened Merge
  import opened Lookup

  /** Every block of every read log. */
  function AllBlocks(w: World): set<ReadBlock> {
    set u, k | 0 <= u < |w.txs| && 0 <= k < |w.txs[u].globalReads| :: w.txs[u].globalReads[k]
  }

  // ------------------------------------------------------ snapshot validation

  /** No read in `log` (box to the node it was read through) is overtaken by an ancestor's node. */
  predicate NestedReadsValid(w: World, self: TxId, log: map<BoxId, NodeId>)
    requires WellFormed(w) && self < |w.txs| && forall b :: b in log ==> b < |w.boxes|
  {
    forall b :: b in log ==> NestedReadConflict(w, self, b, log[b]).None?
  }

  /** The nested reads of transaction `u` pass the validation run on behalf of `self`. */
  predicate NestedLogValid(w: World, self: TxId, u: TxId)
    requires WellFormed(w) && self < |w.txs| && u < |w.txs|
  {
    assert TxOk(w.txs[u], |w.txs|, |w.boxes|, |w.entries|);
    NestedReadsValid(w, self, w.txs[u].nestedReads)
  }

  /** The reads of committed state logged by transaction `u` pass the validation run on behalf of `self`. */
  predicate GlobalLogValid(w: World, self: TxId, u: TxId)
    requires WellFormed(w) && self < |w.txs| && u < |w.txs|
    reads AllBlocks(w)
  {
    GlobalReadsValid(w, self, w.txs[u].globalReads, w.txs[u].next)
  }

  /** The nested reads of every transaction of `us` pass the validation run on behalf of `self`. */
  predicate NestedLogsValid(w: World, self: TxId, us: seq<TxId>)
    requires WellFormed(w) && self < |w.txs| && forall i :: 0 <= i < |us| ==> us[i] < |w.txs|
  {
    us == [] || (NestedLogsValid(w, self, us[..|us| - 1]) && NestedLogValid(w, self, us[|us| - 1]))
  }

  /** The committed-state reads of every transaction of `us` pass the validation run on behalf of `self`. */
  predicate GlobalLogsValid(w: World, self: TxId, us: seq<TxId>)
    requires WellFormed(w) && self < |w.txs| && forall i :: 0 <= i < |us| ==> us[i] < |w.txs|
    reads AllBlocks(w)
  {
    us == [] || (GlobalLogsValid(w, self, us[..|us| - 1]) && GlobalLogValid(w, self, us[|us| - 1]))
  }

  /** The transactions whose reads a commit of `self` validates: `self`, then those merged into it. */
  function Validated(w: World, self: TxId): (r: seq<TxId>)
    requires WellFormed(w) && self < |w.txs|
    ensures forall i :: 0 <= i < |r| ==> r[i] < |w.txs|
  {
    assert TxOk(w.txs[self], |w.txs|, |w.boxes|, |w.entries|);
    [self] + w.txs[self].mergedTxs
  }

  /**
   * snapshotValidation: nothing needs checking when no nested commit
   * reached the parent since `self` was created; otherwise the reads of
   * `self` and of every transaction merged into it must still hold.
   */
  predicate SnapshotValid(w: World, self: TxId)
    requires WellFormed(w) && self < |w.txs| && w.txs[self].parent.Some?
    reads AllBlocks(w)
  {
    var p := w.txs[self].parent.value;
    || AncestorVersion(w.txs, self, p) == w.txs[p].nestedVersion
    || (NestedLogsValid(w, self, Validated(w, self)) && GlobalLogsValid(w, self, Validated(w, self)))
  }

  // ------------------------------------------------------------ array reads

  /** Entry `e` reads a slot of which `writes` holds a write newer than version `seen`. */
  predicate StaleIn(entries: seq<ArrayEntry>, writes: map<Slot, EntryId>, seen: int, e: EntryId)
    requires e < |entries| && forall s :: s in writes ==> writes[s] < |entries|
  {
    var slot := entries[e].slot;
    slot in writes && entries[writes[slot]].nestedVersion > seen
  }

  /** The parent's own write of the slot read by `e` is newer than the version `self` saw. */
  predicate StaleArrayRead(w: World, self: TxId, e: EntryId)
    requires WellFormed(w) && self < |w.txs| && w.txs[self].parent.Some? && e < |w.entries|
  {
    var p := w.txs[self].parent.value;
    assert TxOk(w.txs[p], |w.txs|, |w.boxes|, |w.entries|);
    StaleIn(w.entries, w.txs[p].arrayWrites, AncestorVersion(w.txs, self, p), e)
  }

  /** The reads of `log` that were not served by transaction `p`, in order. */
  function KeptReads(entries: seq<ArrayEntry>, log: seq<EntryId>, p: TxId): (r: seq<EntryId>)
    requires forall i :: 0 <= i < |log| ==> log[i] < |entries|
  {
    if log == [] then []
    else
      var e := log[|log| - 1];
      KeptReads(entries, log[..|log| - 1], p) + (if entries[e].readOwner != Some(p) then [e] else [])
  }

  /**
   * A conflict with `p` when some read of `log` is stale against the
   * parent's writes `writes` and the version `seen` of the parent;
   * otherwise the parent's reads `parentReads` with the reads of `log` not
   * served by `p` consed onto them one by one, so the last of them comes
   * first.
   */
  function HandUp(entries: seq<ArrayEntry>, log: seq<EntryId>, p: TxId, writes: map<Slot, EntryId>,
                  seen: int, parentReads: seq<EntryId>): Result<seq<EntryId>>
    requires forall i :: 0 <= i < |log| ==> log[i] < |entries|
    requires forall s :: s in writes ==> writes[s] < |entries|
  {
    if exists i :: 0 <= i < |log| && StaleIn(entries, writes, seen, log[i]) then Fail(CommitEx(p))
    else Ok(Reverse(KeptReads(entries, log, p)) + parentReads)
  }

  /** validateNestedArrayReads of `self`, against the parent's writes and reads. */
  function HandedUpReads(w: World, self: TxId): (r: Result<seq<EntryId>>)
    requires WellFormed(w) && self < |w.txs| && w.txs[self].parent.Some?
    ensures r.Ok? ==> forall i :: 0 <= i < |r.value| ==> r.value[i] < |w.entries|
  {
    var p := w.txs[self].parent.value;
    assert TxOk(w.txs[self], |w.txs|, |w.boxes|, |w.entries|);
    assert TxOk(w.txs[p], |w.txs|, |w.boxes|, |w.entries|);
    KeptReadsInLog(w.entries, w.txs[self].arraysRead, p);
    HandUp(w.entries, w.txs[self].arraysRead, p, w.txs[p].arrayWrites,
           AncestorVersion(w.txs, self, p), w.txs[p].arraysRead)
  }

  lemma {:induction false} KeptReadsInLog(entries: seq<ArrayEntry>, log: seq<EntryId>, p: TxId)
    requires forall i :: 0 <= i < |log| ==> log[i] < |entries|
    ensures forall i :: 0 <= i < |KeptReads(entries, log, p)| ==> KeptReads(entries, log, p)[i] in log
  {
    if log != [] {
      var prefix := log[..|log| - 1];
      assert log == prefix + [log[|log| - 1]];
      KeptReadsInLog(entries, prefix, p);
    }
  }

  lemma {:induction false} KeptReadsMembers(entries: seq<ArrayEntry>, log: seq<EntryId>, p: TxId, e: EntryId)
    requires forall i :: 0 <= i < |log| ==> log[i] < |entries|
    ensures e in KeptReads(entries, log, p) <==> e in log && entries[e].readOwner != Some(p)
  {
    if log != [] {
      var prefix := log[..|log| - 1];
      assert log == prefix + [log[|log| - 1]];
      KeptReadsMembers(entries, prefix, p, e);
    }
  }

  /**
   * On success the parent's array reads are its old ones plus exactly the
   * reads of `self` that some ancestor above the parent served, so the
   * parent re-validates them when it commits in turn; a conflict names
   * the parent and happens exactly when one read is stale.
   */
  lemma HandedUpReadsSound(w: World, self: TxId, e: EntryId)
    requires WellFormed(w) && self < |w.txs| && w.txs[self].parent.Some?
    ensures var r := HandedUpReads(w, self); var p := w.txs[self].parent.value; var log := w.txs[self].arraysRead;
      && (r.Fail? <==> exists i :: 0 <= i < |log| && log[i] < |w.entries| && StaleArrayRead(w, self, log[i]))
      && (r.Fail? ==> r.signal == CommitEx(p))
      && (r.Ok? ==> (e in r.value <==>
            (e in w.txs[p].arraysRead || (e in log && e < |w.entries| && w.entries[e].readOwner != Some(p)))))
  {
    var p := w.txs[self].parent.value;
    var log := w.txs[self].arraysRead;
    assert TxOk(w.txs[self], |w.txs|, |w.boxes|, |w.entries|);
    assert TxOk(w.txs[p], |w.txs|, |w.boxes|, |w.entries|);
    var kept := KeptReads(w.entries, log, p);
    KeptReadsMembers(w.entries, log, p, e);
    var rev := Reverse(kept);
    assert e in rev <==> e in kept by {
      if e in kept {
        var i :| 0 <= i < |kept| && kept[i] == e;
        assert rev[|kept| - 1 - i] == e;
      }
    }
  }

  // ---------------------------------------------------------------- the merge

  /** The parent's write-set and counters once the child's array writes (keys in `order`) are merged. */
  function MergedArrayWrites(parent: Tx, child: Tx, order: seq<Slot>): (map<Slot, EntryId>, map<ArrayId, int>)
    requires ListsKeys(order, child.arrayWrites)
  {
    if parent.arrayWrites == map[] then (child.arrayWrites, child.arrayWritesCount)
    else Propagated(parent.arrayWrites, parent.arrayWritesCount, child.arrayWrites, order)
  }

  /**
   * The merged write-set is the child's laid over the parent's, and the
   * counters stay in agreement with it when both sides' counters were.
   */
  lemma MergedArrayWritesSound(parent: Tx, child: Tx, order: seq<Slot>)
    requires ListsKeys(order, child.arrayWrites)
    ensures MergedArrayWrites(parent, child, order).0 == parent.arrayWrites + child.arrayWrites
    ensures CountsMatch(parent.arrayWrites, parent.arrayWritesCount) && CountsMatch(child.arrayWrites, child.arrayWritesCount)
      ==> CountsMatch(parent.arrayWrites + child.arrayWrites, MergedArrayWrites(parent, child, order).1)
  {
    if parent.arrayWrites == map[] {
      assert parent.arrayWrites + child.arrayWrites == child.arrayWrites;
    } else {
      PropagatedUnion(parent.arrayWrites, parent.arrayWritesCount, child.arrayWrites, order);
      if CountsMatch(parent.arrayWrites, parent.arrayWritesCount) {
        PropagateKeepsCountsMatch(parent.arrayWrites, parent.arrayWritesCount, child.arrayWrites, order);
      }
    }
  }

  /** The parent's record once `self` (whose record is `child`) is merged into it. */
  function MergedParent(parent: Tx, self: TxId, child: Tx, order: seq<Slot>): Tx
    requires ListsKeys(order, child.arrayWrites)
  {
    var (writes, counts) := MergedArrayWrites(parent, child, order);
    parent.(nestedVersion := parent.nestedVersion + 1,
            mergedTxs := MergedList(parent.mergedTxs, self, child.mergedTxs),
            perTxValues := parent.perTxValues + child.perTxValues,
            arrayWrites := writes,
            arrayWritesCount := counts)
  }

  /**
   * The state once `self` is merged into its parent at the commit version
   * (the parent's nested version plus one): the records of `self` and of
   * the transactions merged into it pass to the parent at that version,
   * the child's array write entries are stamped with it, and the parent's
   * record takes the merge.
   */
  function CommitWorld(w: World, self: TxId, order: seq<Slot>): World
    requires self < |w.txs| && w.txs[self].parent.Some? && w.txs[self].parent.value < |w.txs|
    requires ListsKeys(order, w.txs[self].arrayWrites)
  {
    var p := w.txs[self].parent.value;
    var child := w.txs[self];
    var cv := w.txs[p].nestedVersion + 1;
    World(w.txs[p := MergedParent(w.txs[p], self, child, order)],
          Rehomed(w.orecs, [self] + child.mergedTxs, p, cv),
          w.nodes,
          w.boxes,
          Stamped(w.entries, child.arrayWrites.Values, cv))
  }

  /** The state after a commit, piece by piece. */
  lemma CommitWorldParts(w: World, self: TxId, order: seq<Slot>, p: TxId, cv: int,
                         txs: seq<Tx>, orecs: seq<Orec>, entries: seq<ArrayEntry>)
    requires self < |w.txs| && w.txs[self].parent == Some(p) && p < |w.txs|
    requires ListsKeys(order, w.txs[self].arrayWrites) && cv == w.txs[p].nestedVersion + 1
    requires txs == w.txs[p := MergedParent(w.txs[p], self, w.txs[self], order)]
    requires orecs == Rehomed(w.orecs, [self] + w.txs[self].mergedTxs, p, cv)
    requires entries == Stamped(w.entries, w.txs[self].arrayWrites.Values, cv)
    ensures CommitWorld(w, self, order) == World(txs, orecs, w.nodes, w.boxes, entries)
  {
  }

  /** A commit keeps the state well formed and leaves every transaction's ancestors as they were. */
  lemma CommitWellFormed(w: World, self: TxId, order: seq<Slot>)
    requires WellFormed(w) && self < |w.txs| && w.txs[self].parent.Some?
    requires ListsKeys(order, w.txs[self].arrayWrites)
    ensures WellFormed(CommitWorld(w, self, order))
    ensures forall u :: 0 <= u < |w.txs| ==> Ancestors(CommitWorld(w, self, order).txs, u) == Ancestors(w.txs, u)
  {
    var p := w.txs[self].parent.value;
    var child := w.txs[self];
    var par := MergedParent(w.txs[p], self, child, order);
    assert TxOk(child, |w.txs|, |w.boxes|, |w.entries|);
    assert TxOk(w.txs[p], |w.txs|, |w.boxes|, |w.entries|);
    MergedArrayWritesSound(w.txs[p], child, order);
    forall i | 0 <= i < |par.mergedTxs| ensures par.mergedTxs[i] < |w.txs| {
      MergedListMembers(w.txs[p].mergedTxs, self, child.mergedTxs, par.mergedTxs[i]);
    }
    assert TxOk(par, |w.txs|, |w.boxes|, |w.entries|);
    SetTxWellFormed(w, p, par);
    var w' := CommitWorld(w, self, order);
    assert OrecsOk(w');
    assert NodesOk(w') by {
      forall n | 0 <= n < |w'.nodes| ensures w'.nodes[n].orec < |w'.orecs| { assert w.nodes[n].orec < |w.orecs|; }
    }
  }

  /**
   * A commit moves the ownership records of `self` and of the transactions
   * merged into it to the parent, stamped with the commit version, and
   * touches no other record; the version (active, committed or aborted)
   * of every record is kept.
   */
  lemma CommitRecords(w: World, self: TxId, order: seq<Slot>, o: OrecId)
    requires WellFormed(w) && self < |w.txs| && w.txs[self].parent.Some? && o < |w.orecs|
    requires ListsKeys(order, w.txs[self].arrayWrites)
    ensures var r := CommitWorld(w, self, order).orecs[o]; var p := w.txs[self].parent.value;
      && r.version == w.orecs[o].version
      && (o == self || o in w.txs[self].mergedTxs ==> r.owner == p && r.nestedVersion == w.txs[p].nestedVersion + 1)
      && (o != self && o !in w.txs[self].mergedTxs ==> r == w.orecs[o])
  {
    assert o in [self] + w.txs[self].mergedTxs <==> o == self || o in w.txs[self].mergedTxs;
  }

  /**
   * The parent after a commit: its nested version goes up by one, it
   * holds the per-transaction values and array writes of both (the
   * child's winning), its counters still agree with its write-set, its
   * merged list gains `self` and everything `self` had merged, and the
   * child's array write entries carry the new version; no other
   * transaction record, node or box changes.
   */
  lemma CommitParent(w: World, self: TxId, order: seq<Slot>)
    requires WellFormed(w) && self < |w.txs| && w.txs[self].parent.Some?
    requires ListsKeys(order, w.txs[self].arrayWrites)
    ensures var w' := CommitWorld(w, self, order); var p := w.txs[self].parent.value;
      var par := w'.txs[p]; var before := w.txs[p]; var child := w.txs[self];
      && par.nestedVersion == before.nestedVersion + 1
      && par.perTxValues == before.perTxValues + child.perTxValues
      && par.arrayWrites == before.arrayWrites + child.arrayWrites
      && ((CountsMatch(before.arrayWrites, before.arrayWritesCount) && CountsMatch(child.arrayWrites, child.arrayWritesCount))
          ==> CountsMatch(par.arrayWrites, par.arrayWritesCount))
      && |par.mergedTxs| == |before.mergedTxs| + |child.mergedTxs| + 1
      && (forall x :: x in par.mergedTxs <==> x == self || x in before.mergedTxs || x in child.mergedTxs)
      && (forall e :: 0 <= e < |w.entries| && e in child.arrayWrites.Values ==>
            w'.entries[e] == w.entries[e].(nestedVersion := par.nestedVersion))
      && (forall e :: 0 <= e < |w.entries| && e !in child.arrayWrites.Values ==> w'.entries[e] == w.entries[e])
      && (forall u :: 0 <= u < |w.txs| && u != p ==> w'.txs[u] == w.txs[u])
      && w'.nodes == w.nodes && w'.boxes == w.boxes
  {
    var p := w.txs[self].parent.value;
    MergedArrayWritesSound(w.txs[p], w.txs[self], order);
    forall x ensures x in CommitWorld(w, self, order).txs[p].mergedTxs <==> x == self || x in w.txs[p].mergedTxs || x in w.txs[self].mergedTxs {
      MergedListMembers(w.txs[p].mergedTxs, self, w.txs[self].mergedTxs, x);
    }
    MergedListMembers(w.txs[p].mergedTxs, self, w.txs[self].mergedTxs, self);
  }

  /**
   * Once `self` has committed, a node written by it (or by a transaction
   * merged into it) belongs to the parent at the commit version.  Any
   * transaction under the parent that took its snapshot of the parent no
   * later than the commit therefore sees that node as an ancestor's write
   * newer than its snapshot (the conflict getBoxValue and the validation
   * walks abort on), and a child of the parent can no longer skip
   * snapshot validation.
   */
  lemma CommitSeenAsNewer(w: World, self: TxId, order: seq<Slot>, s: TxId, n: NodeId)
    requires WellFormed(w) && self < |w.txs| && w.txs[self].parent.Some?
    requires ListsKeys(order, w.txs[self].arrayWrites)
    requires n < |w.nodes| && (w.nodes[n].orec == self || w.nodes[n].orec in w.txs[self].mergedTxs)
    requires s < |w.txs| && w.txs[self].parent.value in Ancestors(w.txs, s)
    requires AncestorVersion(w.txs, s, w.txs[self].parent.value) <= w.txs[w.txs[self].parent.value].nestedVersion
    ensures var w' := CommitWorld(w, self, order); var p := w.txs[self].parent.value;
      && WellFormed(w')
      && OwnerOf(w', n) == p
      && OrecOf(w', n).nestedVersion == w'.txs[p].nestedVersion
      && Rel(w', s, n) == AncestorVersion(w.txs, s, p) >= 0
      && OrecOf(w', n).nestedVersion > Rel(w', s, n)
      && AncestorVersion(w'.txs, s, p) != w'.txs[p].nestedVersion
  {
    var p := w.txs[self].parent.value;
    var w' := CommitWorld(w, self, order);
    CommitWellFormed(w, self, order);
    CommitNodeOwner(w, self, order, n);
    AncestorVersionFrame(w.txs, w'.txs, s, p);
  }

  /** A node of `self` or of a transaction merged into it belongs to the parent at its new nested version. */
  lemma CommitNodeOwner(w: World, self: TxId, order: seq<Slot>, n: NodeId)
    requires WellFormed(w) && self < |w.txs| && w.txs[self].parent.Some?
    requires ListsKeys(order, w.txs[self].arrayWrites)
    requires n < |w.nodes| && (w.nodes[n].orec == self || w.nodes[n].orec in w.txs[self].mergedTxs)
    ensures var w' := CommitWorld(w, self, order); var p := w.txs[self].parent.value;
      && w'.nodes == w.nodes && |w'.orecs| == |w.orecs| && |w'.txs| == |w.txs|
      && w'.orecs[w.nodes[n].orec].owner == p
      && w'.orecs[w.nodes[n].orec].nestedVersion == w'.txs[p].nestedVersion == w.txs[p].nestedVersion + 1
  {
    CommitRecords(w, self, order, w.nodes[n].orec);
    CommitParent(w, self, order);
  }

  // ----------------------------------------------------- the steps of tryCommit

  /** The state once the parent took `handed` as its array reads. */
  function WithParentReads(w: World, self: TxId, handed: seq<EntryId>): (r: World)
    requires WellFormed(w) && self < |w.txs| && w.txs[self].parent.Some?
    requires forall i :: 0 <= i < |handed| ==> handed[i] < |w.entries|
    ensures |r.txs| == |w.txs| && r.orecs == w.orecs && r.nodes == w.nodes && r.boxes == w.boxes && r.entries == w.entries
    ensures WellFormed(r) && r.txs[self] == w.txs[self]
    ensures forall u :: 0 <= u < |w.txs| ==> Ancestors(r.txs, u) == Ancestors(w.txs, u)
    ensures AncestorVersion(r.txs, self, w.txs[self].parent.value) == AncestorVersion(w.txs, self, w.txs[self].parent.value)
  {
    var p := w.txs[self].parent.value;
    var par := w.txs[p].(arraysRead := handed);
    assert TxOk(w.txs[p], |w.txs|, |w.boxes|, |w.entries|);
    SetTxWellFormed(w, p, par);
    AncestorVersionFrame(w.txs, w.txs[p := par], self, p);
    w.(txs := w.txs[p := par])
  }

  /**
   * The state once a child that read a per-transaction value from an
   * ancestor passed that duty on to its parent, when the parent is itself
   * a parallel nested transaction.
   */
  function Flagged(w: World, self: TxId): (r: World)
    requires WellFormed(w) && self < |w.txs| && w.txs[self].parent.Some?
    ensures |r.txs| == |w.txs| && r.orecs == w.orecs && r.nodes == w.nodes && r.boxes == w.boxes && r.entries == w.entries
    ensures WellFormed(r) && r.txs[self] == w.txs[self]
    ensures forall u :: 0 <= u < |w.txs| ==> Ancestors(r.txs, u) == Ancestors(w.txs, u)
  {
    var p := w.txs[self].parent.value;
    if w.txs[self].readAncestorPerTxValue && w.txs[p].parallel then
      var par := w.txs[p].(readAncestorPerTxValue := true);
      assert TxOk(w.txs[p], |w.txs|, |w.boxes|, |w.entries|);
      SetTxWellFormed(w, p, par);
      w.(txs := w.txs[p := par])
    else w
  }

  /**
   * The state a successful tryCommit of `self` leaves: the parent holds
   * the array reads handed up, carries the per-transaction duty on, and
   * takes the merge.
   */
  function CommittedWorld(w: World, self: TxId, handed: seq<EntryId>, order: seq<Slot>): (r: World)
    requires WellFormed(w) && self < |w.txs| && w.txs[self].parent.Some?
    requires forall i :: 0 <= i < |handed| ==> handed[i] < |w.entries|
    requires ListsKeys(order, w.txs[self].arrayWrites)
    ensures |r.txs| == |w.txs| && WellFormed(r)
    ensures forall u :: 0 <= u < |w.txs| ==> Ancestors(r.txs, u) == Ancestors(w.txs, u)
  {
    var w1 := WithParentReads(w, self, handed);
    var w2 := Flagged(w1, self);
    assert w2.txs[self] == w.txs[self] && |w2.txs| == |w.txs|;
    CommitWellFormed(w2, self, order);
    var r := CommitWorld(w2, self, order);
    assert forall u :: 0 <= u < |w.txs| ==> Ancestors(r.txs, u) == Ancestors(w2.txs, u) == Ancestors(w1.txs, u);
    r
  }

  /**
   * What a successful commit hands the parent beyond the merge: the array
   * reads to re-validate, and the duty to re-check its own per-transaction
   * reads when `self` took one from an ancestor and the parent is parallel.
   */
  lemma CommittedParent(w: World, self: TxId, handed: seq<EntryId>, order: seq<Slot>)
    requires WellFormed(w) && self < |w.txs| && w.txs[self].parent.Some?
    requires forall i :: 0 <= i < |handed| ==> handed[i] < |w.entries|
    requires ListsKeys(order, w.txs[self].arrayWrites)
    ensures var p := w.txs[self].parent.value; var par := CommittedWorld(w, self, handed, order).txs[p];
      && par.arraysRead == handed
      && par.nestedVersion == w.txs[p].nestedVersion + 1
      && par.readAncestorPerTxValue == (w.txs[p].readAncestorPerTxValue
                                        || (w.txs[self].readAncestorPerTxValue && w.txs[p].parallel))
      && par.arrayWrites == w.txs[p].arrayWrites + w.txs[self].arrayWrites
      && par.perTxValues == w.txs[p].perTxValues + w.txs[self].perTxValues
  {
    var w2 := Flagged(WithParentReads(w, self, handed), self);
    CommitParent(w2, self, order);
  }
}
