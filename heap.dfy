/**
 * Well-formedness of the shared state: every handle a record holds names
 * an existing object, and the small accessors the protocol uses on nodes.
 */
module Heap {
  import opened Types
  import opened Ancestry

  /** Every node's ownership record exists. */
  predicate NodesOk(w: World) {
    forall n :: 0 <= n < |w.nodes| ==> w.nodes[n].orec < |w.orecs|
  }

  /** An in-place chain is never empty and names existing nodes. */
  predicate ChainOk(chain: seq<NodeId>, nodeCount: nat) {
    |chain| > 0 && forall i :: 0 <= i < |chain| ==> chain[i] < nodeCount
  }

  /** Every handle held by one transaction record names an existing object. */
  predicate TxOk(tx: Tx, txCount: nat, boxCount: nat, entryCount: nat) {
    && (forall i :: 0 <= i < |tx.mergedTxs| ==> tx.mergedTxs[i] < txCount)
    && (forall i :: 0 <= i < |tx.boxesWrittenInPlace| ==> tx.boxesWrittenInPlace[i] < boxCount)
    && (forall b :: b in tx.nestedReads ==> b < boxCount)
    && (forall s :: s in tx.arrayWrites ==> tx.arrayWrites[s] < entryCount)
    && (forall i :: 0 <= i < |tx.arraysRead| ==> tx.arraysRead[i] < entryCount)
    && (forall k :: 0 <= k < |tx.globalReads| ==> tx.globalReads[k].Length == BLOCK_SIZE)
    && -1 <= tx.next < BLOCK_SIZE
    && (!tx.released && tx.next >= 0 ==> tx.globalReads != [])
  }

  predicate TxsOk(w: World) {
    forall t :: 0 <= t < |w.txs| ==> TxOk(w.txs[t], |w.txs|, |w.boxes|, |w.entries|)
  }

  predicate BoxesOk(w: World) {
    forall b :: 0 <= b < |w.boxes| ==> ChainOk(w.boxes[b].inplace, |w.nodes|)
  }

  predicate OrecsOk(w: World) {
    |w.orecs| == |w.txs| && forall o :: 0 <= o < |w.orecs| ==> w.orecs[o].owner < |w.txs|
  }

  predicate WellFormed(w: World) {
    && Ready(w.txs)
    && OrecsOk(w)
    && NodesOk(w)
    && BoxesOk(w)
    && TxsOk(w)
  }

  /** The ownership record of node `n`. */
  function OrecOf(w: World, n: NodeId): Orec
    requires NodesOk(w) && n < |w.nodes|
  {
    w.orecs[w.nodes[n].orec]
  }

  /** The transaction that currently owns node `n`. */
  function OwnerOf(w: World, n: NodeId): TxId
    requires NodesOk(w) && n < |w.nodes|
  {
    OrecOf(w, n).owner
  }

  /** How `self` relates to the owner of node `n` (see AncestorVersion). */
  function Rel(w: World, self: TxId, n: NodeId): int
    requires WellFormed(w) && self < |w.txs| && n < |w.nodes|
  {
    AncestorVersion(w.txs, self, OwnerOf(w, n))
  }

  /**
   * `self` is live: its own record is still its own, and every record it
   * owns is still active (neither committed globally nor aborted).
   */
  predicate Active(w: World, self: TxId)
    requires OrecsOk(w) && self < |w.txs|
  {
    && w.orecs[self].owner == self
    && forall o :: 0 <= o < |w.orecs| && w.orecs[o].owner == self ==> w.orecs[o].version == 0
  }

  // ------------------------------------------- updates that keep the state well formed

  lemma SetNodeWellFormed(w: World, n: NodeId, node: Node)
    requires WellFormed(w) && n < |w.nodes| && node.orec < |w.orecs|
    ensures WellFormed(w.(nodes := w.nodes[n := node]))
  {
    var w' := w.(nodes := w.nodes[n := node]);
    assert BoxesOk(w') by {
      forall b | 0 <= b < |w'.boxes| ensures ChainOk(w'.boxes[b].inplace, |w'.nodes|) {
        assert ChainOk(w.boxes[b].inplace, |w.nodes|);
      }
    }
  }

  lemma AddNodeWellFormed(w: World, node: Node)
    requires WellFormed(w) && node.orec < |w.orecs|
    ensures WellFormed(w.(nodes := w.nodes + [node]))
  {
    var w' := w.(nodes := w.nodes + [node]);
    assert BoxesOk(w') by {
      forall b | 0 <= b < |w'.boxes| ensures ChainOk(w'.boxes[b].inplace, |w'.nodes|) {
        assert ChainOk(w.boxes[b].inplace, |w.nodes|);
      }
    }
  }

  lemma SetChainWellFormed(w: World, b: BoxId, chain: seq<NodeId>)
    requires WellFormed(w) && b < |w.boxes| && ChainOk(chain, |w.nodes|)
    ensures WellFormed(w.(boxes := w.boxes[b := w.boxes[b].(inplace := chain)]))
  {
    var w' := w.(boxes := w.boxes[b := w.boxes[b].(inplace := chain)]);
    assert TxsOk(w') by {
      forall t | 0 <= t < |w'.txs| ensures TxOk(w'.txs[t], |w'.txs|, |w'.boxes|, |w'.entries|) {
        assert TxOk(w.txs[t], |w.txs|, |w.boxes|, |w.entries|);
      }
    }
  }

  /** Replacing one transaction's record keeps the state well formed when the tree is untouched. */
  lemma SetTxWellFormed(w: World, t: TxId, tx: Tx)
    requires WellFormed(w) && t < |w.txs|
    requires tx.parent == w.txs[t].parent && tx.ancVersions == w.txs[t].ancVersions && tx.nestedVersion >= 0
    requires TxOk(tx, |w.txs|, |w.boxes|, |w.entries|)
    ensures WellFormed(w.(txs := w.txs[t := tx]))
    ensures forall u :: 0 <= u < |w.txs| ==> Ancestors(w.txs[t := tx], u) == Ancestors(w.txs, u)
  {
    var w' := w.(txs := w.txs[t := tx]);
    ReadyFrame(w.txs, w'.txs);
    assert TxsOk(w') by {
      forall u | 0 <= u < |w'.txs| ensures TxOk(w'.txs[u], |w'.txs|, |w'.boxes|, |w'.entries|) {
        if u != t { assert TxOk(w.txs[u], |w.txs|, |w.boxes|, |w.entries|); }
      }
    }
  }

  /** Adding a forked transaction with its own fresh record keeps the state well formed. */
  lemma ForkWellFormed(w: World, child: Tx)
    requires WellFormed(w)
    requires child.parent.Some? && child.parent.value < |w.txs|
    requires child.ancVersions == [w.txs[child.parent.value].nestedVersion] + w.txs[child.parent.value].ancVersions
    requires child.nestedVersion >= 0
    requires TxOk(child, |w.txs| + 1, |w.boxes|, |w.entries|)
    ensures WellFormed(w.(txs := w.txs + [child], orecs := w.orecs + [Orec(|w.txs|, 0, 0)]))
  {
    var w' := w.(txs := w.txs + [child], orecs := w.orecs + [Orec(|w.txs|, 0, 0)]);
    ForkReady(w.txs, child);
    assert TxsOk(w') by {
      forall u | 0 <= u < |w'.txs| ensures TxOk(w'.txs[u], |w'.txs|, |w'.boxes|, |w'.entries|) {
        if u < |w.txs| { assert TxOk(w.txs[u], |w.txs|, |w.boxes|, |w.entries|); }
      }
    }
    assert NodesOk(w') by {
      forall n | 0 <= n < |w'.nodes| ensures w'.nodes[n].orec < |w'.orecs| { assert w.nodes[n].orec < |w.orecs|; }
    }
  }

  /** Replacing an array entry keeps the state well formed. */
  lemma SetEntryWellFormed(w: World, e: EntryId, entry: ArrayEntry)
    requires WellFormed(w) && e < |w.entries|
    ensures WellFormed(w.(entries := w.entries[e := entry]))
  {
    var w' := w.(entries := w.entries[e := entry]);
    assert TxsOk(w') by {
      forall t | 0 <= t < |w'.txs| ensures TxOk(w'.txs[t], |w'.txs|, |w'.boxes|, |w'.entries|) {
        assert TxOk(w.txs[t], |w.txs|, |w.boxes|, |w.entries|);
      }
    }
  }
}
