/**
 * The state changes of creating a parallel nested transaction and of
 * logging a read from committed state, and what they preserve.
 */
module Steps {
  import opened Types
  import opened Ancestry
  import opened Heap

  /**
   * The record of a new parallel nested transaction under `p`: the
   * parent's nested version followed by the parent's own ancestor
   * versions, no reads, no writes of its own, the parent's write-set, and
   * an empty read log whose first read must start a block.
   */
  function ForkedTx(w: World, p: TxId, number: int): Tx
    requires p < |w.txs|
  {
    Tx(Some(p), true, number, [w.txs[p].nestedVersion] + w.txs[p].ancVersions, 0, -1,
       [], map[], w.txs[p].boxesWritten, [], [], map[], false, map[], map[], [], false)
  }

  /** The state once the child is created, with its own active ownership record. */
  function ForkWorld(w: World, p: TxId, number: int): World
    requires p < |w.txs|
  {
    w.(txs := w.txs + [ForkedTx(w, p, number)], orecs := w.orecs + [Orec(|w.txs|, 0, 0)])
  }

  /**
   * Creating a child keeps the state well formed; the child is live, its
   * ancestors are its parent followed by the parent's ancestors, its
   * version of the parent is the parent's current nested version, and no
   * other transaction's ancestors change.
   */
  lemma ForkSound(w: World, p: TxId, number: int)
    requires WellFormed(w) && p < |w.txs|
    ensures var w' := ForkWorld(w, p, number); var c := |w.txs|;
      && WellFormed(w')
      && Active(w', c)
      && Ancestors(w'.txs, c) == [p] + Ancestors(w.txs, p)
      && AncestorVersion(w'.txs, c, p) == w.txs[p].nestedVersion
      && forall u :: 0 <= u < |w.txs| ==> Ancestors(w'.txs, u) == Ancestors(w.txs, u)
  {
    var child := ForkedTx(w, p, number);
    ForkWellFormed(w, child);
    ForkReady(w.txs, child);
    ForkedAncestorVersion(w.txs, child, p);
  }

  /** The read-log slot the next committed-state read of `tx` goes to. */
  function LogSlot(tx: Tx): int {
    if tx.next < 0 then BLOCK_SIZE - 1 else tx.next
  }

  /** The record of `tx` once a read went to `LogSlot(tx)` of the first of `blocks`. */
  function Logged(tx: Tx, blocks: seq<ReadBlock>): Tx {
    tx.(globalReads := blocks, next := LogSlot(tx) - 1)
  }

  /**
   * Logging a read keeps the record well formed when the block list is the
   * old one (a slot was left) or the old one under a new block.
   */
  lemma LoggedWellFormed(w: World, t: TxId, blocks: seq<ReadBlock>)
    requires WellFormed(w) && t < |w.txs| && !w.txs[t].released
    requires w.txs[t].next >= 0 ==> blocks == w.txs[t].globalReads
    requires w.txs[t].next < 0 ==> |blocks| > 0 && blocks[0].Length == BLOCK_SIZE && blocks[1..] == w.txs[t].globalReads
    ensures WellFormed(w.(txs := w.txs[t := Logged(w.txs[t], blocks)]))
    ensures 0 <= LogSlot(w.txs[t]) < BLOCK_SIZE && |blocks| > 0 && blocks[0].Length == BLOCK_SIZE
  {
    var tx := w.txs[t];
    assert TxOk(tx, |w.txs|, |w.boxes|, |w.entries|);
    var tx' := Logged(tx, blocks);
    assert forall k :: 0 < k < |blocks| ==> blocks[k] == tx.globalReads[k - 1] || tx.next >= 0;
    assert TxOk(tx', |w.txs|, |w.boxes|, |w.entries|);
    SetTxWellFormed(w, t, tx');
  }
}
