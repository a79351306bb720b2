/**
 * A parallel nested transaction's operations, each as one atomic step on
 * the shared state.  `Stm` holds the arenas the operations update in
 * place; each method is proved against the specification functions of
 * the other modules on the state before the call.
 */
module Transaction {
  import opened Types
  import opened Ancestry
  import opened Heap
  import opened Chains
  import opened Merge
  import opened AbortSpec
  import opened Lookup
  import opened Steps
  import opened CommitSpec
  import opened Validation

  /** The block that receives the next committed-state read of `tx`, if it has one. */
  function CurrentBlock(tx: Tx): set<ReadBlock> {
    if tx.globalReads == [] then {} else {tx.globalReads[0]}
  }

  /** The contents of that block (empty when there is none). */
  function LogHead(tx: Tx): seq<Option<BoxId>>
    reads CurrentBlock(tx)
  {
    if tx.globalReads == [] then [] else tx.globalReads[0][..]
  }

  class Stm {
    var txs: seq<Tx>
    var orecs: seq<Orec>
    var nodes: seq<Node>
    var boxes: seq<Box>
    var entries: seq<ArrayEntry>
    /** The per-thread backoff time of setBoxValue's write-write conflicts. */
    var backoff: int
    /** The version an ownership record takes when its writer aborts. */
    const aborted: int

    function Snap(): World
      reads this
    {
      World(txs, orecs, nodes, boxes, entries)
    }

    predicate Valid()
      reads this
    {
      WellFormed(Snap()) && aborted != 0
    }

    /** A state built by the rest of the STM, with the aborted sentinel it uses. */
    constructor (w: World, abortedVersion: int)
      requires WellFormed(w) && abortedVersion != 0
      ensures Valid() && Snap() == w && backoff == 1 && aborted == abortedVersion
    {
      txs, orecs, nodes, boxes, entries := w.txs, w.orecs, w.nodes, w.boxes, w.entries;
      backoff := 1;
      aborted := abortedVersion;
    }

    /**
     * The constructor of a parallel nested transaction under `p`; its
     * snapshot number is the one the enclosing top-level transaction
     * started with.
     */
    method Fork(p: TxId, number: int) returns (c: TxId)
      requires Valid() && p < |txs|
      modifies this
      ensures Valid()
      ensures c == old(|txs|) && Snap() == ForkWorld(old(Snap()), p, number)
      ensures backoff == old(backoff)
    {
      ghost var w1 := ForkWorld(Snap(), p, number);
      ForkSound(Snap(), p, number);
      var child := ForkRecord(Snap(), p, txs[p], number);
      c := |txs|;
      txs, orecs := txs + [child], orecs + [Orec(c, 0, 0)];
      assert Snap() == w1;
    }

    /** The record of the new child of `p`, whose record is `parent`. */
    static method ForkRecord(ghost w: World, p: TxId, parent: Tx, number: int) returns (child: Tx)
      requires p < |w.txs| && parent == w.txs[p]
      ensures child == ForkedTx(w, p, number)
    {
      var vers := SnapshotAncVersions(parent.ancVersions, parent.nestedVersion);
      child := Tx(Some(p), true, number, vers, 0, -1, [], map[], parent.boxesWritten, [], [], map[], false,
                  map[], map[], [], false);
    }

    /**
     * Box `b` is logged as a committed-state read of `t`, against the
     * records `txs0` and the contents `head0` of the current read block
     * before: it sits in the slot `next` of the current block, or in the
     * last slot of a new block pushed over the old ones; the cursor moves
     * down, and every other slot and block keeps its contents.
     */
    predicate ReadLogged(t: TxId, b: BoxId, txs0: seq<Tx>, head0: seq<Option<BoxId>>)
      requires t < |txs| && t < |txs0|
      reads this, txs[t].globalReads
    {
      && txs == txs0[t := Logged(txs0[t], txs[t].globalReads)]
      && (txs0[t].next >= 0 ==>
            && txs[t].globalReads == txs0[t].globalReads
            && 0 <= txs0[t].next < |head0|
            && LogHead(txs[t]) == head0[txs0[t].next := Some(b)])
      && (txs0[t].next < 0 ==>
            && |txs[t].globalReads| > 0 && txs[t].globalReads[1..] == txs0[t].globalReads
            && LogHead(txs[t]) == seq(BLOCK_SIZE - 1, _ => None) + [Some(b)]
            && (|txs0[t].globalReads| > 0 ==> txs[t].globalReads[1][..] == head0))
    }

    /**
     * The outcome of readGlobal for box `b`, against the committed body
     * `body0` before: a body newer than the snapshot is an early abort
     * that logs nothing; otherwise the body's value is returned and the
     * read is logged.
     */
    predicate GlobalReadDone(t: TxId, b: BoxId, r: Result<Value>, txs0: seq<Tx>, body0: Body, head0: seq<Option<BoxId>>)
      requires t < |txs| && t < |txs0|
      reads this, txs[t].globalReads
    {
      && (body0.version > txs0[t].number ==>
            r == Fail(EarlyAbort) && txs == txs0 && LogHead(txs[t]) == head0)
      && (body0.version <= txs0[t].number ==>
            r == Ok(body0.value) && ReadLogged(t, b, txs0, head0))
    }

    /**
     * readGlobal: the committed body, unless it is newer than the
     * snapshot, in which case the transaction aborts early; the read is
     * logged first.
     */
    method ReadGlobal(t: TxId, b: BoxId) returns (r: Result<Value>)
      requires Valid() && t < |txs| && b < |boxes| && !txs[t].released
      modifies this, CurrentBlock(txs[t])
      ensures Valid()
      ensures orecs == old(orecs) && nodes == old(nodes) && boxes == old(boxes) && entries == old(entries)
      ensures backoff == old(backoff)
      ensures GlobalReadDone(t, b, r, old(txs), old(boxes[b].body), old(LogHead(txs[t])))
      ensures old(boxes[b].body.version) <= old(txs[t].number) && old(txs[t].next) < 0 ==> fresh(txs[t].globalReads[0])
    {
      var body := boxes[b].body;
      if body.version > txs[t].number {
        return Fail(EarlyAbort);
      }
      LogRead(t, b);
      r := Ok(body.value);
    }

    /**
     * The logging part of readGlobal: the box goes to the current slot of
     * the current block, or to the last slot of a new block when the
     * current one is full (or there is none yet), and the cursor moves down.
     */
    method LogRead(t: TxId, b: BoxId)
      requires Valid() && t < |txs| && b < |boxes| && !txs[t].released
      modifies this, CurrentBlock(txs[t])
      ensures Valid()
      ensures orecs == old(orecs) && nodes == old(nodes) && boxes == old(boxes) && entries == old(entries)
      ensures backoff == old(backoff)
      ensures ReadLogged(t, b, old(txs), old(LogHead(txs[t])))
      ensures old(txs[t].next) < 0 ==> fresh(txs[t].globalReads[0])
    {
      ghost var w0 := Snap();
      var tx := txs[t];
      var blocks := tx.globalReads;
      if tx.next < 0 {
        var block := new Option<BoxId>[BLOCK_SIZE](_ => None);
        blocks := [block] + blocks;
      }
      LoggedWellFormed(w0, t, blocks);
      var slot := LogSlot(tx);
      blocks[0][slot] := Some(b);
      txs := txs[t := Logged(tx, blocks)];
      if tx.next < 0 {
        assert blocks[0][..] == seq(BLOCK_SIZE - 1, _ => None) + [Some(b)];
      }
    }

    /**
     * manualAbort: unlink this transaction's leading nodes from the boxes
     * reclaimed by the transactions merged into the parent and by the
     * parent, abort its ownership record and those of the transactions
     * merged into it, and drop its logs.
     */
    method ManualAbort(t: TxId)
      requires Valid() && t < |txs| && txs[t].parent.Some?
      modifies this
      ensures Valid()
      ensures Snap() == AbortWorld(old(Snap()), t, aborted)
      ensures backoff == old(backoff)
    {
      ghost var w0 := Snap();
      var p := txs[t].parent.value;
      assert TxOk(w0.txs[p], |w0.txs|, |w0.boxes|, |w0.entries|);
      var merged := txs[p].mergedTxs;
      ghost var visited: seq<BoxId> := [];
      WrittenInPlaceInRange(w0, merged);
      for i := 0 to |merged|
        invariant visited == WrittenInPlace(w0.txs, merged[..i])
        invariant txs == w0.txs && orecs == w0.orecs && nodes == w0.nodes && entries == w0.entries
        invariant |boxes| == |w0.boxes| && backoff == old(backoff)
        invariant forall x :: 0 <= x < |boxes| ==> boxes[x] == SplicedBox(w0, t, visited, x)
      {
        assert TxOk(w0.txs[merged[i]], |w0.txs|, |w0.boxes|, |w0.entries|);
        WrittenInPlaceSnoc(w0.txs, merged, i);
        SpliceBoxes(t, txs[merged[i]].boxesWrittenInPlace, w0, visited);
        visited := visited + txs[merged[i]].boxesWrittenInPlace;
      }
      assert merged[..|merged|] == merged;
      SpliceBoxes(t, txs[p].boxesWrittenInPlace, w0, visited);
      visited := visited + txs[p].boxesWrittenInPlace;
      assert visited == AbortWorklist(w0, t);
      assert boxes == Spliced(w0, t, visited);
      AbortOwnRecords(t, w0);
      txs := txs[t := Released(txs[t])];
      AbortWellFormed(w0, t, aborted);
    }

    /** The splice of every box of `bs`, in order. */
    method SpliceBoxes(t: TxId, bs: seq<BoxId>, ghost w0: World, ghost visited: seq<BoxId>)
      requires WellFormed(w0) && forall j :: 0 <= j < |bs| ==> bs[j] < |w0.boxes|
      requires txs == w0.txs && orecs == w0.orecs && nodes == w0.nodes && entries == w0.entries
      requires |boxes| == |w0.boxes|
      requires forall x :: 0 <= x < |boxes| ==> boxes[x] == SplicedBox(w0, t, visited, x)
      modifies this
      ensures txs == w0.txs && orecs == w0.orecs && nodes == w0.nodes && entries == w0.entries
      ensures |boxes| == |w0.boxes| && backoff == old(backoff)
      ensures forall x :: 0 <= x < |boxes| ==> boxes[x] == SplicedBox(w0, t, visited + bs, x)
    {
      for j := 0 to |bs|
        invariant txs == w0.txs && orecs == w0.orecs && nodes == w0.nodes && entries == w0.entries
        invariant |boxes| == |w0.boxes| && backoff == old(backoff)
        invariant forall x :: 0 <= x < |boxes| ==> boxes[x] == SplicedBox(w0, t, visited + bs[..j], x)
      {
        SpliceBox(t, bs[j], w0, visited + bs[..j]);
        assert visited + bs[..j + 1] == visited + bs[..j] + [bs[j]];
      }
      assert bs[..|bs|] == bs;
    }

    /** One box of manualAbort's splice, with the leading-run walk as intended. */
    method SpliceBox(t: TxId, b: BoxId, ghost w0: World, ghost visited: seq<BoxId>)
      requires WellFormed(w0) && b < |w0.boxes|
      requires txs == w0.txs && orecs == w0.orecs && nodes == w0.nodes && entries == w0.entries
      requires |boxes| == |w0.boxes|
      requires forall x :: 0 <= x < |boxes| ==> boxes[x] == SplicedBox(w0, t, visited, x)
      modifies this
      ensures txs == w0.txs && orecs == w0.orecs && nodes == w0.nodes && entries == w0.entries
      ensures |boxes| == |w0.boxes| && backoff == old(backoff)
      ensures forall x :: 0 <= x < |boxes| ==> boxes[x] == SplicedBox(w0, t, visited + [b], x)
    {
      SplicedBoxStep(w0, t, visited, b);
      var chain := boxes[b].inplace;
      if orecs[nodes[chain[0]].orec].owner == t && |chain| > 1 {
        var k := 1;
        while k + 1 < |chain| && orecs[nodes[chain[k]].orec].owner == t
          invariant 1 <= k < |chain|
          invariant LeadEnd(w0, t, chain, k) == LeadEnd(w0, t, chain, 0)
          decreases |chain| - k
        {
          k := k + 1;
        }
        assert chain[k..] == Unlink(w0, t, chain);
        boxes := boxes[b := boxes[b].(inplace := chain[k..])];
      } else {
        assert chain == Unlink(w0, t, chain);
      }
      assert boxes[b] == SplicedBox(w0, t, visited + [b], b);
      forall x | 0 <= x < |boxes| ensures boxes[x] == SplicedBox(w0, t, visited + [b], x) {
        if x != b {
          SplicedBoxOther(w0, t, visited, b, x);
        }
      }
    }

    /** The ownership-record loop of manualAbort. */
    method AbortOwnRecords(t: TxId, ghost w0: World)
      requires WellFormed(w0) && t < |w0.txs|
      requires txs == w0.txs && orecs == w0.orecs
      modifies this
      ensures orecs == AbortedOrecs(w0.orecs, t, w0.txs[t].mergedTxs, aborted)
      ensures txs == old(txs) && nodes == old(nodes) && boxes == old(boxes) && entries == old(entries)
      ensures backoff == old(backoff)
    {
      assert TxOk(w0.txs[t], |w0.txs|, |w0.boxes|, |w0.entries|);
      orecs := orecs[t := orecs[t].(version := aborted)];
      var mine := txs[t].mergedTxs;
      assert orecs == AbortedOrecs(w0.orecs, t, mine[..0], aborted) by {
        forall o | 0 <= o < |orecs| ensures orecs[o] == AbortedOrecs(w0.orecs, t, mine[..0], aborted)[o] {
          assert o !in mine[..0];
        }
      }
      for i := 0 to |mine|
        invariant orecs == AbortedOrecs(w0.orecs, t, mine[..i], aborted)
        invariant txs == old(txs) && nodes == old(nodes) && boxes == old(boxes) && entries == old(entries)
        invariant backoff == old(backoff)
      {
        AbortedOrecsSnoc(w0.orecs, t, mine, i, aborted);
        assert orecs[mine[i]].(version := aborted) == w0.orecs[mine[i]].(version := aborted);
        orecs := orecs[mine[i] := orecs[mine[i]].(version := aborted)];
      }
      assert mine[..|mine|] == mine;
    }

    /** abortTx: a transaction whose record is already aborted is not aborted again. */
    method AbortTx(t: TxId)
      requires Valid() && t < |txs| && txs[t].parent.Some?
      modifies this
      ensures Valid()
      ensures old(orecs[t].version) == aborted ==> Snap() == old(Snap())
      ensures old(orecs[t].version) != aborted ==> Snap() == AbortWorld(old(Snap()), t, aborted)
      ensures orecs[t].version == aborted
    {
      if orecs[t].version != aborted {
        ManualAbort(t);
        AbortRecords(old(Snap()), t, aborted, t);
      }
    }
  
    /**
     * getBoxValue: a head committed within the snapshot is read from the
     * committed body; otherwise the chain is walked to the first node of
     * this transaction or of an ancestor, and with none the write-set and
     * then the committed body are consulted. Only a read from the
     * committed body touches the read log.
     */
    method GetBoxValue(t: TxId, b: BoxId) returns (r: Result<Value>)
      requires Valid() && t < |txs| && b < |boxes| && !txs[t].released && txs[t].parent.Some?
      modifies this, CurrentBlock(txs[t])
      ensures Valid() && backoff == old(backoff)
      ensures match old(ReadDecision(Snap(), t, b))
        case FromGlobal =>
          && orecs == old(orecs) && nodes == old(nodes) && boxes == old(boxes) && entries == old(entries)
          && GlobalReadDone(t, b, r, old(txs), old(boxes[b].body), old(LogHead(txs[t])))
          && (old(boxes[b].body.version) <= old(txs[t].number) && old(txs[t].next) < 0 ==> fresh(txs[t].globalReads[0]))
        case Own(v) => r == Ok(v) && Snap() == old(Snap()) && LogHead(old(txs[t])) == old(LogHead(txs[t]))
        case Local(v) => r == Ok(v) && Snap() == old(Snap()) && LogHead(old(txs[t])) == old(LogHead(txs[t]))
        case Nested(n, v) =>
          && r == Ok(v)
          && Snap() == old(Snap()).(txs := old(txs)[t := old(txs[t]).(nestedReads := old(txs[t].nestedReads)[b := n])])
          && LogHead(old(txs[t])) == old(LogHead(txs[t]))
        case Conflict(o) =>
          && r == Fail(CommitEx(o)) && Snap() == AbortWorld(old(Snap()), t, aborted)
          && LogHead(old(txs[t])) == old(LogHead(txs[t]))
    {
      ghost var w0 := Snap();
      ghost var head0 := LogHead(txs[t]);
      var chain := boxes[b].inplace;
      assert ChainOk(chain, |nodes|);
      var head := orecs[nodes[chain[0]].orec];
      if 0 < head.version <= txs[t].number {
        assert ReadDecision(w0, t, b).FromGlobal?;
        r := ReadGlobal(t, b);
        return;
      }
      var i, av := FindVisible(t, chain);
      if i < |chain| {
        r := ReadNode(t, b, chain[i], av, w0, head0);
      } else {
        r := ReadUnrelated(t, b, w0, head0);
      }
    }

    /**
     * The end of getBoxValue when no node of the chain is this
     * transaction's or an ancestor's: a value in the write-set, else the
     * committed body. `w0` is the state and `head0` the contents of the
     * current read block when getBoxValue began.
     */
    method ReadUnrelated(t: TxId, b: BoxId, ghost w0: World, ghost head0: seq<Option<BoxId>>) returns (r: Result<Value>)
      requires Valid() && Snap() == w0 && t < |txs| && b < |boxes| && !txs[t].released
      requires LogHead(txs[t]) == head0
      requires !(0 < OrecOf(w0, w0.boxes[b].inplace[0]).version <= w0.txs[t].number)
      requires VisibleIndex(w0, t, w0.boxes[b].inplace) == |w0.boxes[b].inplace|
      modifies this, CurrentBlock(txs[t])
      ensures Valid() && backoff == old(backoff)
      ensures match ReadDecision(w0, t, b)
        case FromGlobal =>
          && orecs == w0.orecs && nodes == w0.nodes && boxes == w0.boxes && entries == w0.entries
          && GlobalReadDone(t, b, r, w0.txs, w0.boxes[b].body, head0)
          && (w0.boxes[b].body.version <= w0.txs[t].number && w0.txs[t].next < 0 ==> fresh(txs[t].globalReads[0]))
        case Local(v) => r == Ok(v) && Snap() == w0 && LogHead(w0.txs[t]) == head0
        case _ => false
    {
      ghost var d := ReadDecision(w0, t, b);
      var written := txs[t].boxesWritten;
      if b in written && written[b] != Null {
        assert d == Local(Unboxed(written[b]));
        return Ok(Unboxed(written[b]));
      }
      assert d.FromGlobal?;
      r := ReadGlobal(t, b);
    }

    /**
     * The end of getBoxValue's walk at node `n`, the first node of the
     * chain owned by this transaction or an ancestor (`av` is how this
     * transaction sees that owner); `w0` and `head0` as for ReadUnrelated.
     */
    method ReadNode(t: TxId, b: BoxId, n: NodeId, av: int, ghost w0: World, ghost head0: seq<Option<BoxId>>)
      returns (r: Result<Value>)
      requires Valid() && Snap() == w0 && t < |txs| && b < |boxes| && txs[t].parent.Some?
      requires LogHead(txs[t]) == head0
      requires !(0 < OrecOf(w0, w0.boxes[b].inplace[0]).version <= w0.txs[t].number)
      requires VisibleIndex(w0, t, w0.boxes[b].inplace) < |w0.boxes[b].inplace|
      requires n == w0.boxes[b].inplace[VisibleIndex(w0, t, w0.boxes[b].inplace)] && av == Rel(w0, t, n)
      modifies this
      ensures Valid() && backoff == old(backoff)
      ensures match ReadDecision(w0, t, b)
        case Own(v) => r == Ok(v) && Snap() == w0
        case Nested(m, v) =>
          && r == Ok(v)
          && Snap() == w0.(txs := w0.txs[t := w0.txs[t].(nestedReads := w0.txs[t].nestedReads[b := m])])
        case Conflict(o) => r == Fail(CommitEx(o)) && Snap() == AbortWorld(w0, t, aborted)
        case _ => false
      ensures LogHead(w0.txs[t]) == head0
    {
      ghost var d := ReadDecision(w0, t, b);
      var o := orecs[nodes[n].orec];
      var v := Unboxed(nodes[n].tempValue);
      if av >= 0 {
        if o.nestedVersion > av {
          assert d == Conflict(o.owner);
          ManualAbort(t);
          return Fail(CommitEx(o.owner));
        }
        assert d == Nested(n, v);
        LogNestedRead(t, b, n);
        return Ok(v);
      }
      assert d == Own(v);
      return Ok(v);
    }

    /**
     * setBoxValue: the writer of the head updates it in place; a head
     * committed within the snapshot is reclaimed and an active ancestor's
     * head is covered by a new node, each by a compare-and-swap retried
     * while it fails (`contention` failures); an active head of another
     * branch of the tree aborts to the lowest common ancestor with the
     * backoff doubled, and anything else runs the region sequentially.
     */
    method SetBoxValue(t: TxId, b: BoxId, v: Value, contention: nat) returns (r: Result<()>)
      requires Valid() && t < |txs| && b < |boxes| && txs[t].parent.Some?
      modifies this
      ensures Valid()
      ensures var d := old(WriteDecision(Snap(), t, b));
        && (Succeeds(d) ==> r == Ok(()) && Snap() == ApplyWrite(old(Snap()), t, b, v, d) && backoff == old(backoff))
        && (d.AbortTo? ==> r == Fail(CommitEx(d.ancestor)) && Snap() == AbortWorld(old(Snap()), t, aborted)
                           && backoff == old(backoff) * 2)
        && (d.Sequential? ==> r == Fail(ExecuteSequentially) && Snap() == AbortWorld(old(Snap()), t, aborted)
                              && backoff == old(backoff))
    {
      ghost var w0 := Snap();
      ghost var d0 := WriteDecision(w0, t, b);
      var chain := boxes[b].inplace;
      assert ChainOk(chain, |nodes|);
      var current := orecs[nodes[chain[0]].orec];
      if current.owner == t {
        assert d0 == UpdateOwn;
        CompleteWrite(t, b, v, UpdateOwn);
        return Ok(());
      }
      var d := ContendedStep(t, b, contention);
      assert d == d0;
      if Succeeds(d) {
        CompleteWrite(t, b, v, d);
        return Ok(());
      }
      ManualAbort(t);
      if d.AbortTo? {
        backoff := backoff * 2;
        return Fail(CommitEx(d.ancestor));
      }
      return Fail(ExecuteSequentially);
    }

    /**
     * The retry loop of setBoxValue over a head this transaction does not
     * own: it ends with the compare-and-swap that succeeds (after
     * `contention` failed ones, each of which re-reads the head) or with
     * the conflict that ends the write. The retries are deliberately
     * inert: one step at a time, a failed compare-and-swap leaves the
     * state as it was, so every re-read sees the same head and the loop
     * ends at the decision the first read dictates.
     */
    method ContendedStep(t: TxId, b: BoxId, contention: nat) returns (d: WriteStep)
      requires Valid() && t < |txs| && b < |boxes| && !WriteDecision(Snap(), t, b).UpdateOwn?
      ensures d == WriteDecision(Snap(), t, b)
    {
      var chain := boxes[b].inplace;
      assert ChainOk(chain, |nodes|);
      var current := orecs[nodes[chain[0]].orec];
      var failures := contention;
      while true
        invariant chain == boxes[b].inplace && current == OrecOf(Snap(), chain[0])
        decreases failures
      {
        if current.version != 0 {
          if current.version <= txs[t].number {
            if failures == 0 {
              return Reclaim;
            }
            failures := failures - 1;
            current := orecs[nodes[chain[0]].orec];
            continue;
          }
          return Sequential;
        } else {
          var av := RetrieveAncestorVersion(txs, t, current.owner);
          if av >= 0 {
            if failures == 0 {
              return Prepend;
            }
            failures := failures - 1;
            chain := boxes[b].inplace;
            current := orecs[nodes[chain[0]].orec];
            continue;
          }
          var abortUpTo := RetrieveLowestCommonAncestor(txs, t, current.owner);
          if abortUpTo.Some? {
            return AbortTo(abortUpTo.value);
          }
          return Sequential;
        }
      }
    }

    /** The walk of getBoxValue: the first node of `chain` owned by this transaction or by an ancestor. */
    method FindVisible(t: TxId, chain: seq<NodeId>) returns (i: nat, av: int)
      requires Valid() && t < |txs| && ChainIn(Snap(), chain)
      ensures i == VisibleIndex(Snap(), t, chain)
      ensures i < |chain| ==> av == Rel(Snap(), t, chain[i])
    {
      i := 0;
      av := -1;
      while i < |chain|
        invariant 0 <= i <= |chain| && av == -1
        invariant forall j :: 0 <= j < i ==> Rel(Snap(), t, chain[j]) == -1
      {
        av := RetrieveAncestorVersion(txs, t, orecs[nodes[chain[i]].orec].owner);
        if av != -1 {
          return;
        }
        i := i + 1;
      }
    }

    /** Record that box `b` was read through an ancestor's node `n`. */
    method LogNestedRead(t: TxId, b: BoxId, n: NodeId)
      requires Valid() && t < |txs| && b < |boxes|
      modifies this
      ensures Valid() && backoff == old(backoff)
      ensures Snap() == old(Snap()).(txs := old(txs)[t := old(txs[t]).(nestedReads := old(txs[t].nestedReads)[b := n])])
    {
      var tx := txs[t].(nestedReads := txs[t].nestedReads[b := n]);
      assert TxOk(txs[t], |txs|, |boxes|, |entries|);
      SetTxWellFormed(Snap(), t, tx);
      txs := txs[t := tx];
    }

    /** The write of setBoxValue once its compare-and-swap (if any) succeeded. */
    method CompleteWrite(t: TxId, b: BoxId, v: Value, d: WriteStep)
      requires Valid() && t < |txs| && b < |boxes| && Succeeds(d)
      modifies this
      ensures Valid() && backoff == old(backoff)
      ensures Snap() == ApplyWrite(old(Snap()), t, b, v, d)
    {
      ApplyWriteWellFormed(Snap(), t, b, v, d);
      var chain := boxes[b].inplace;
      assert ChainOk(chain, |nodes|);
      match d
      case UpdateOwn =>
        nodes := nodes[chain[0] := nodes[chain[0]].(tempValue := Boxed(v))];
      case Reclaim =>
        nodes := nodes[chain[0] := Node(t, Boxed(v))];
        txs := txs[t := txs[t].(boxesWrittenInPlace := [b] + txs[t].boxesWrittenInPlace)];
      case Prepend =>
        boxes := boxes[b := boxes[b].(inplace := [|nodes|] + chain)];
        nodes := nodes + [Node(t, Boxed(v))];
    }
  
    /**
     * getPerTxValue: the own value, else the value of the nearest ancestor
     * holding one, which is only trusted when no nested commit reached
     * that ancestor since this transaction started; using it obliges the
     * commit to check that again.
     */
    method GetPerTxValue(t: TxId, pb: PerTxBoxId) returns (r: Result<Value>)
      requires Valid() && t < |txs| && txs[t].parent.Some?
      modifies this
      ensures Valid() && backoff == old(backoff)
      ensures match old(PerTxDecision(Snap(), t, pb))
        case PerTxLocal(v) => r == Ok(v) && Snap() == old(Snap())
        case PerTxAncestor(_, v) =>
          && r == Ok(v)
          && Snap() == old(Snap()).(txs := old(txs)[t := old(txs[t]).(readAncestorPerTxValue := true)])
        case PerTxStale(_) => r == Fail(ExecuteSequentially) && Snap() == AbortWorld(old(Snap()), t, aborted)
        case PerTxMiss => r == Ok(Null) && Snap() == old(Snap())
    {
      ghost var w0 := Snap();
      ghost var d0 := PerTxDecision(w0, t, pb);
      var own := txs[t].perTxValues;
      if pb in own && own[pb] != Null {
        return Ok(own[pb]);
      }
      var holder, value, i := FindPerTxHolder(t, pb);
      ghost var anc := Ancestors(w0.txs, t);
      assert i == FirstWhere(anc, (u: TxId) => HoldsPerTx(w0, pb, u));
      if holder.None? {
        assert d0 == PerTxMiss;
        return Ok(Null);
      }
      var a := holder.value;
      var av := RetrieveAncestorVersion(txs, t, a);
      if txs[a].nestedVersion != av {
        assert d0 == PerTxStale(a);
        ManualAbort(t);
        return Fail(ExecuteSequentially);
      }
      assert d0 == PerTxAncestor(a, value);
      MarkAncestorPerTxRead(t);
      return Ok(value);
    }

    /** The ancestor walk of getPerTxValue: the nearest ancestor holding a value for `pb`, and that value. */
    method FindPerTxHolder(t: TxId, pb: PerTxBoxId) returns (holder: Option<TxId>, value: Value, ghost i: nat)
      requires Valid() && t < |txs|
      ensures var anc := Ancestors(txs, t);
        && i <= |anc|
        && (forall j :: 0 <= j < i ==> !HoldsPerTx(Snap(), pb, anc[j]))
        && (i < |anc| ==> HoldsPerTx(Snap(), pb, anc[i]) && holder == Some(anc[i]) && value == txs[anc[i]].perTxValues[pb])
        && (i == |anc| ==> holder == None && value == Null)
    {
      ghost var anc := Ancestors(txs, t);
      i := 0;
      var iter := txs[t].parent;
      while iter.Some?
        invariant iter.Some? ==> iter.value < |txs|
        invariant i <= |anc| && anc[i..] == ChainFrom(txs, iter)
        invariant forall j :: 0 <= j < i ==> !HoldsPerTx(Snap(), pb, anc[j])
        decreases if iter.Some? then iter.value + 1 else 0
      {
        var m := txs[iter.value].perTxValues;
        if pb in m && m[pb] != Null {
          return iter, m[pb], i;
        }
        assert anc[i..][1..] == anc[i + 1..];
        iter := txs[iter.value].parent;
        i := i + 1;
      }
      return None, Null, i;
    }

    /**
     * getLocalArrayValue for the read entry `e`: the own write for its
     * slot, else the nearest ancestor's write, which is read (and the read
     * logged with that ancestor as its owner) only when it is visible in
     * this transaction's snapshot, and is a conflict with that ancestor
     * otherwise.
     */
    method GetLocalArrayValue(t: TxId, e: EntryId) returns (r: Result<Value>)
      requires Valid() && t < |txs| && e < |entries|
      modifies this
      ensures Valid() && backoff == old(backoff)
      ensures match old(ArrayDecision(Snap(), t, e))
        case ArrayLocal(v) => r == Ok(v) && Snap() == old(Snap())
        case ArrayAncestor(a, _, v) =>
          && r == Ok(v)
          && Snap() == old(Snap()).(txs := old(txs)[t := old(txs[t]).(arraysRead := [e] + old(txs[t].arraysRead))],
                                    entries := old(entries)[e := old(entries[e]).(readOwner := Some(a))])
        case ArrayConflict(a) => r == Fail(CommitEx(a)) && Snap() == old(Snap())
        case ArrayMiss => r == Ok(Null) && Snap() == old(Snap())
    {
      ghost var w0 := Snap();
      ghost var d0 := ArrayDecision(w0, t, e);
      var slot := entries[e].slot;
      assert TxOk(txs[t], |txs|, |boxes|, |entries|);
      var own := txs[t].arrayWrites;
      if slot in own {
        return Ok(Boxed(entries[own[slot]].writeValue));
      }
      var writer, i := FindSlotWriter(t, slot);
      ghost var anc := Ancestors(w0.txs, t);
      assert i == FirstWhere(anc, (u: TxId) => WritesSlot(w0, slot, u));
      if writer.None? {
        assert d0 == ArrayMiss;
        return Ok(Null);
      }
      var a := writer.value;
      assert TxOk(txs[a], |txs|, |boxes|, |entries|);
      var ws := txs[a].arrayWrites[slot];
      var av := RetrieveAncestorVersion(txs, t, a);
      if entries[ws].nestedVersion <= av {
        var v := Boxed(entries[ws].writeValue);
        assert d0 == ArrayAncestor(a, ws, v);
        RecordArrayRead(t, e, a);
        return Ok(v);
      }
      assert d0 == ArrayConflict(a);
      return Fail(CommitEx(a));
    }

    /** The ancestor walk of getLocalArrayValue: the nearest ancestor with a write for `slot`. */
    method FindSlotWriter(t: TxId, slot: Slot) returns (writer: Option<TxId>, ghost i: nat)
      requires Valid() && t < |txs|
      ensures var anc := Ancestors(txs, t);
        && i <= |anc|
        && (forall j :: 0 <= j < i ==> !WritesSlot(Snap(), slot, anc[j]))
        && (i < |anc| ==> WritesSlot(Snap(), slot, anc[i]) && writer == Some(anc[i]))
        && (i == |anc| ==> writer == None)
    {
      ghost var anc := Ancestors(txs, t);
      i := 0;
      var iter := txs[t].parent;
      while iter.Some?
        invariant iter.Some? ==> iter.value < |txs|
        invariant i <= |anc| && anc[i..] == ChainFrom(txs, iter)
        invariant forall j :: 0 <= j < i ==> !WritesSlot(Snap(), slot, anc[j])
        decreases if iter.Some? then iter.value + 1 else 0
      {
        if slot in txs[iter.value].arrayWrites {
          return iter, i;
        }
        assert anc[i..][1..] == anc[i + 1..];
        iter := txs[iter.value].parent;
        i := i + 1;
      }
      return None, i;
    }
  
    /** getPerTxValue took a value from an ancestor: the commit must check that ancestor again. */
    method MarkAncestorPerTxRead(t: TxId)
      requires Valid() && t < |txs|
      modifies this
      ensures Valid() && backoff == old(backoff)
      ensures Snap() == old(Snap()).(txs := old(txs)[t := old(txs[t]).(readAncestorPerTxValue := true)])
    {
      var tx := txs[t].(readAncestorPerTxValue := true);
      assert TxOk(txs[t], |txs|, |boxes|, |entries|);
      SetTxWellFormed(Snap(), t, tx);
      txs := txs[t := tx];
    }

    /** getLocalArrayValue read entry `e` from ancestor `a`: log the read and its owner. */
    method RecordArrayRead(t: TxId, e: EntryId, a: TxId)
      requires Valid() && t < |txs| && e < |entries|
      modifies this
      ensures Valid() && backoff == old(backoff)
      ensures Snap() == old(Snap()).(txs := old(txs)[t := old(txs[t]).(arraysRead := [e] + old(txs[t].arraysRead))],
                                     entries := old(entries)[e := old(entries[e]).(readOwner := Some(a))])
    {
      ghost var w0 := Snap();
      var tx := txs[t].(arraysRead := [e] + txs[t].arraysRead);
      assert TxOk(txs[t], |txs|, |boxes|, |entries|);
      SetTxWellFormed(w0, t, tx);
      SetEntryWellFormed(w0.(txs := w0.txs[t := tx]), e, entries[e].(readOwner := Some(a)));
      txs, entries := txs[t := tx], entries[e := entries[e].(readOwner := Some(a))];
    }

    // ---------------------------------------------------------- tryCommit

    /**
     * tryCommit: validate the snapshot (aborting on a conflict), hand the
     * array reads up to the parent, abort to sequential execution when a
     * per-transaction value was read from an ancestor and the parent moved
     * on, and otherwise merge into the parent and reset the backoff.
     */
    method TryCommit(t: TxId, order: seq<Slot>) returns (r: Result<()>)
      requires Valid() && t < |txs| && txs[t].parent.Some?
      requires ListsKeys(order, txs[t].arrayWrites)
      modifies this
      ensures Valid()
      ensures !old(SnapshotValid(Snap(), t)) ==>
        && r.Fail? && r.signal.CommitEx? && r.signal.ancestor in Ancestors(old(txs), t)
        && Snap() == AbortWorld(old(Snap()), t, aborted) && backoff == old(backoff)
      ensures old(SnapshotValid(Snap(), t)) && HandedUpReads(old(Snap()), t).Fail? ==>
        && r == Fail(CommitEx(old(txs[t].parent.value)))
        && Snap() == old(Snap()) && backoff == old(backoff)
      ensures old(SnapshotValid(Snap(), t)) && HandedUpReads(old(Snap()), t).Ok? ==>
        var p := old(txs[t].parent.value);
        var handed := HandedUpReads(old(Snap()), t).value;
        if old(txs[t].readAncestorPerTxValue) && AncestorVersion(old(txs), t, p) != old(txs[p].nestedVersion) then
          && r == Fail(ExecuteSequentially) && backoff == old(backoff)
          && Snap() == AbortWorld(WithParentReads(old(Snap()), t, handed), t, aborted)
        else
          && r == Ok(()) && backoff == 1
          && Snap() == CommittedWorld(old(Snap()), t, handed, order)
    {
      ghost var w0 := Snap();
      ghost var valid := SnapshotValid(w0, t);
      assert forall o :: o in AllBlocks(w0) ==> allocated(o);
      var c := SnapshotValidation(Snap(), t);
      assert c.None? <==> valid;
      if c.Some? {
        ManualAbort(t);
        return Fail(CommitEx(c.value));
      }
      var handed := ValidateNestedArrayReads(Snap(), t);
      if handed.Fail? {
        return Fail(handed.signal);
      }
      r := CommitValidated(t, order, handed.value);
    }

    /** The rest of tryCommit once both validations passed and `handed` is to go to the parent. */
    method CommitValidated(t: TxId, order: seq<Slot>, handed: seq<EntryId>) returns (r: Result<()>)
      requires Valid() && t < |txs| && txs[t].parent.Some?
      requires ListsKeys(order, txs[t].arrayWrites)
      requires forall i :: 0 <= i < |handed| ==> handed[i] < |entries|
      modifies this
      ensures Valid()
      ensures var p := old(txs[t].parent.value);
        if old(txs[t].readAncestorPerTxValue) && AncestorVersion(old(txs), t, p) != old(txs[p].nestedVersion) then
          && r == Fail(ExecuteSequentially) && backoff == old(backoff)
          && Snap() == AbortWorld(WithParentReads(old(Snap()), t, handed), t, aborted)
        else
          && r == Ok(()) && backoff == 1
          && Snap() == CommittedWorld(old(Snap()), t, handed, order)
    {
      var p := txs[t].parent.value;
      HandUpArrayReads(t, handed);
      if txs[t].readAncestorPerTxValue {
        var av := RetrieveAncestorVersion(txs, t, p);
        if av != txs[p].nestedVersion {
          ManualAbort(t);
          return Fail(ExecuteSequentially);
        }
      }
      r := CommitMerge(t, order);
    }

    /** The merge that ends a successful tryCommit, and the backoff reset after it. */
    method CommitMerge(t: TxId, order: seq<Slot>) returns (r: Result<()>)
      requires Valid() && t < |txs| && txs[t].parent.Some?
      requires ListsKeys(order, txs[t].arrayWrites)
      modifies this
      ensures Valid() && r == Ok(()) && backoff == 1
      ensures Snap() == CommitWorld(Flagged(old(Snap()), t), t, order)
    {
      PassOnPerTxRead(t);
      MergeIntoParent(t, order);
      backoff := 1;
      return Ok(());
    }

    /** A child that read a per-transaction value from an ancestor makes a parallel parent check too. */
    method PassOnPerTxRead(t: TxId)
      requires Valid() && t < |txs| && txs[t].parent.Some?
      modifies this
      ensures Valid() && backoff == old(backoff)
      ensures Snap() == Flagged(old(Snap()), t)
    {
      var p := txs[t].parent.value;
      if txs[t].readAncestorPerTxValue && txs[p].parallel {
        MarkAncestorPerTxRead(p);
      }
    }

    /** The parent takes the array reads validateNestedArrayReads handed up. */
    method HandUpArrayReads(t: TxId, handed: seq<EntryId>)
      requires Valid() && t < |txs| && txs[t].parent.Some?
      requires forall i :: 0 <= i < |handed| ==> handed[i] < |entries|
      modifies this
      ensures Valid() && backoff == old(backoff)
      ensures Snap() == WithParentReads(old(Snap()), t, handed)
    {
      ghost var w1 := WithParentReads(Snap(), t, handed);
      var p := txs[t].parent.value;
      txs := txs[p := txs[p].(arraysRead := handed)];
      assert Snap() == w1;
    }

    /**
     * The merge of tryCommit: the records of `t` and of the transactions
     * merged into it pass to the parent at the commit version, the parent
     * takes the merged list, the per-transaction values and the array
     * writes, the child's array entries are stamped, and the parent's
     * nested version goes up.
     */
    method MergeIntoParent(t: TxId, order: seq<Slot>)
      requires Valid() && t < |txs| && txs[t].parent.Some?
      requires ListsKeys(order, txs[t].arrayWrites)
      modifies this
      ensures Valid() && backoff == old(backoff)
      ensures Snap() == CommitWorld(old(Snap()), t, order)
    {
      ghost var w0 := Snap();
      var p := txs[t].parent.value;
      var child := txs[t];
      var parent := txs[p];
      assert TxOk(child, |txs|, |boxes|, |entries|);
      var cv := parent.nestedVersion + 1;
      var merged := RehomeMerged(t, p, cv, w0);
      ghost var orecs1 := orecs;
      var par := MergedRecord(parent, t, child, merged, order);
      StampEntries(child.arrayWrites, order, cv, w0);
      txs := txs[p := par];
      assert orecs == orecs1;
      CommitWorldParts(w0, t, order, p, cv, txs, orecs, entries);
      CommitWellFormed(w0, t, order);
    }

    /**
     * The parent's record after the merge: the merged list built alongside
     * the records, the per-transaction values and array writes of both (a
     * parent still on the shared empty map takes the child's), and the
     * next nested version.
     */
    static method MergedRecord(parent: Tx, t: TxId, child: Tx, merged: seq<TxId>, order: seq<Slot>) returns (par: Tx)
      requires ListsKeys(order, child.arrayWrites)
      requires merged == MergedList(parent.mergedTxs, t, child.mergedTxs)
      ensures par == MergedParent(parent, t, child, order)
    {
      var perTx := if parent.perTxValues == map[] then child.perTxValues else parent.perTxValues + child.perTxValues;
      assert perTx == parent.perTxValues + child.perTxValues;
      var writes, counts;
      if parent.arrayWrites == map[] {
        writes, counts := child.arrayWrites, child.arrayWritesCount;
      } else {
        writes, counts := PropagateArrayWrites(parent.arrayWrites, parent.arrayWritesCount, child.arrayWrites, order);
      }
      par := parent.(mergedTxs := merged, perTxValues := perTx, arrayWrites := writes,
                     arrayWritesCount := counts, nestedVersion := parent.nestedVersion + 1);
    }

    /**
     * The ownership-record loop of tryCommit: the records of `t` and of the
     * transactions merged into it pass to `p` at version `cv`, while the
     * parent's new merged list is built by consing each of them on.
     */
    method RehomeMerged(t: TxId, p: TxId, cv: int, ghost w0: World) returns (merged: seq<TxId>)
      requires WellFormed(w0) && t < |w0.txs| && p < |w0.txs|
      requires txs == w0.txs && orecs == w0.orecs
      modifies this
      ensures orecs == Rehomed(w0.orecs, [t] + w0.txs[t].mergedTxs, p, cv)
      ensures merged == MergedList(w0.txs[p].mergedTxs, t, w0.txs[t].mergedTxs)
      ensures txs == old(txs) && nodes == old(nodes) && boxes == old(boxes) && entries == old(entries)
      ensures backoff == old(backoff)
    {
      assert TxOk(w0.txs[t], |w0.txs|, |w0.boxes|, |w0.entries|);
      RehomedStep(w0.orecs, t, w0.txs[t].mergedTxs, 0, p, cv);
      orecs := orecs[t := orecs[t].(owner := p, nestedVersion := cv)];
      merged := [t] + txs[p].mergedTxs;
      ghost var base := merged;
      var mine := txs[t].mergedTxs;
      ReverseConsStep(mine, 0, base);
      for i := 0 to |mine|
        invariant orecs == Rehomed(w0.orecs, [t] + mine[..i], p, cv)
        invariant merged == Reverse(mine[..i]) + base
        invariant txs == old(txs) && nodes == old(nodes) && boxes == old(boxes) && entries == old(entries)
        invariant backoff == old(backoff)
      {
        RehomedStep(w0.orecs, t, mine, i + 1, p, cv);
        ReverseConsStep(mine, i + 1, base);
        orecs := orecs[mine[i] := orecs[mine[i]].(owner := p, nestedVersion := cv)];
        merged := [mine[i]] + merged;
      }
      assert mine[..|mine|] == mine;
    }

    /** The child's array write entries, visited in `order`, take the commit version `cv`. */
    method StampEntries(writes: map<Slot, EntryId>, order: seq<Slot>, cv: int, ghost w0: World)
      requires ListsKeys(order, writes) && forall s :: s in writes ==> writes[s] < |w0.entries|
      requires entries == w0.entries
      modifies this
      ensures entries == Stamped(w0.entries, writes.Values, cv)
      ensures txs == old(txs) && orecs == old(orecs) && nodes == old(nodes) && boxes == old(boxes)
      ensures backoff == old(backoff)
    {
      ghost var done: set<EntryId> := {};
      assert entries == Stamped(w0.entries, done, cv);
      for i := 0 to |order|
        invariant done == set j | 0 <= j < i :: writes[order[j]]
        invariant entries == Stamped(w0.entries, done, cv)
        invariant txs == old(txs) && orecs == old(orecs) && nodes == old(nodes) && boxes == old(boxes)
        invariant backoff == old(backoff)
      {
        var e := writes[order[i]];
        StampedAdd(w0.entries, done, e, cv);
        entries := entries[e := entries[e].(nestedVersion := cv)];
        done := done + {e};
      }
      ValuesListed(order, writes);
    }
  }
}
