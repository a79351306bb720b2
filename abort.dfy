/**
 * The state after manualAbort: the chains of the boxes written in place by
 * the parent and by the transactions merged into it lose their leading
 * nodes owned by the aborting transaction, the ownership records of the
 * aborting transaction and of every transaction merged into it become
 * aborted, and its logs are dropped.
 */
module AbortSpec {
  import opened Types
  import opened Ancestry
  import opened Heap
  import opened Chains

  /** The boxes reclaimed by each transaction of `ms`, in order. */
  function WrittenInPlace(txs: seq<Tx>, ms: seq<TxId>): (r: seq<BoxId>)
    requires forall i :: 0 <= i < |ms| ==> ms[i] < |txs|
  {
    if ms == [] then []
    else WrittenInPlace(txs, ms[..|ms| - 1]) + txs[ms[|ms| - 1]].boxesWrittenInPlace
  }

  lemma WrittenInPlaceSnoc(txs: seq<Tx>, ms: seq<TxId>, i: nat)
    requires forall k :: 0 <= k < |ms| ==> ms[k] < |txs|
    requires i < |ms|
    ensures WrittenInPlace(txs, ms[..i + 1]) == WrittenInPlace(txs, ms[..i]) + txs[ms[i]].boxesWrittenInPlace
  {
    assert ms[..i + 1][..i] == ms[..i];
  }

  /** Every box that some transaction of a well-formed state reclaimed exists. */
  lemma {:induction false} WrittenInPlaceInRange(w: World, ms: seq<TxId>)
    requires WellFormed(w)
    requires forall i :: 0 <= i < |ms| ==> ms[i] < |w.txs|
    ensures forall i :: 0 <= i < |WrittenInPlace(w.txs, ms)| ==> WrittenInPlace(w.txs, ms)[i] < |w.boxes|
  {
    if ms != [] {
      var last := ms[|ms| - 1];
      WrittenInPlaceInRange(w, ms[..|ms| - 1]);
      assert TxOk(w.txs[last], |w.txs|, |w.boxes|, |w.entries|);
    }
  }

  /**
   * The boxes manualAbort visits: those reclaimed by each transaction
   * merged into the parent, then those reclaimed by the parent itself.
   */
  function AbortWorklist(w: World, self: TxId): (r: seq<BoxId>)
    requires WellFormed(w) && self < |w.txs| && w.txs[self].parent.Some?
    ensures forall i :: 0 <= i < |r| ==> r[i] < |w.boxes|
  {
    var p := w.txs[self].parent.value;
    assert TxOk(w.txs[p], |w.txs|, |w.boxes|, |w.entries|);
    WrittenInPlaceInRange(w, w.txs[p].mergedTxs);
    WrittenInPlace(w.txs, w.txs[p].mergedTxs) + w.txs[p].boxesWrittenInPlace
  }

  /** The boxes after the leading nodes owned by `self` are unlinked from each box of `bs`. */
  function Spliced(w: World, self: TxId, bs: seq<BoxId>): (r: seq<Box>)
    requires WellFormed(w)
    ensures |r| == |w.boxes|
  {
    seq(|w.boxes|, b requires 0 <= b < |w.boxes| => SplicedBox(w, self, bs, b))
  }

  /** Box `b` after the boxes of `bs` are unlinked. */
  function SplicedBox(w: World, self: TxId, bs: seq<BoxId>, b: BoxId): Box
    requires WellFormed(w) && b < |w.boxes|
  {
    if b in bs then
      assert ChainOk(w.boxes[b].inplace, |w.nodes|);
      w.boxes[b].(inplace := Unlink(w, self, w.boxes[b].inplace))
    else w.boxes[b]
  }

  /**
   * The ownership records after an abort: the record of `self` and those
   * of the transactions merged into it carry the aborted version.
   */
  function AbortedOrecs(orecs: seq<Orec>, self: TxId, merged: seq<TxId>, aborted: int): (r: seq<Orec>)
    ensures |r| == |orecs|
  {
    seq(|orecs|, o requires 0 <= o < |orecs| =>
      if o == self || o in merged then orecs[o].(version := aborted) else orecs[o])
  }

  /** A transaction record once manualAbort has dropped its logs. */
  function Released(tx: Tx): Tx {
    tx.(globalReads := [], nestedReads := map[], boxesWritten := map[], mergedTxs := [], released := true)
  }

  /** The whole state after manualAbort of `self`. */
  function AbortWorld(w: World, self: TxId, aborted: int): World
    requires WellFormed(w) && self < |w.txs| && w.txs[self].parent.Some?
  {
    World(w.txs[self := Released(w.txs[self])],
          AbortedOrecs(w.orecs, self, w.txs[self].mergedTxs, aborted),
          w.nodes,
          Spliced(w, self, AbortWorklist(w, self)),
          w.entries)
  }

  /**
   * manualAbort's effect on the chains: every visited box keeps a suffix of
   * its chain, every node it drops is owned by the aborting transaction,
   * and its new head is another owner's node or its last node; the boxes
   * that are not visited keep their chains.
   */
  lemma AbortChains(w: World, self: TxId, aborted: int, b: BoxId)
    requires WellFormed(w) && self < |w.txs| && w.txs[self].parent.Some? && b < |w.boxes|
    ensures var old_ := w.boxes[b].inplace; var new_ := AbortWorld(w, self, aborted).boxes[b].inplace;
      && AbortWorld(w, self, aborted).boxes[b].body == w.boxes[b].body
      && (b !in AbortWorklist(w, self) ==> new_ == old_)
      && (b in AbortWorklist(w, self) ==>
            && 0 < |new_| <= |old_| && new_ == old_[|old_| - |new_|..]
            && (forall i :: 0 <= i < |old_| - |new_| ==> OwnerOf(w, old_[i]) == self)
            && (|new_| == 1 || OwnerOf(w, new_[0]) != self))
  {
    assert ChainOk(w.boxes[b].inplace, |w.nodes|);
  }

  /**
   * manualAbort's effect on the ownership records: the records of the
   * aborting transaction and of the transactions merged into it are
   * aborted, and no other record changes.
   */
  lemma AbortRecords(w: World, self: TxId, aborted: int, o: OrecId)
    requires WellFormed(w) && self < |w.txs| && w.txs[self].parent.Some? && o < |w.orecs|
    ensures var r := AbortWorld(w, self, aborted).orecs[o];
      && r.owner == w.orecs[o].owner && r.nestedVersion == w.orecs[o].nestedVersion
      && (o == self || o in w.txs[self].mergedTxs ==> r.version == aborted)
      && (o != self && o !in w.txs[self].mergedTxs ==> r == w.orecs[o])
  {
  }

  /** The state after an abort is well formed, and the aborting transaction is no longer active. */
  lemma AbortWellFormed(w: World, self: TxId, aborted: int)
    requires WellFormed(w) && self < |w.txs| && w.txs[self].parent.Some? && aborted != 0
    ensures WellFormed(AbortWorld(w, self, aborted))
    ensures !Active(AbortWorld(w, self, aborted), self)
  {
    var w1 := w.(txs := w.txs[self := Released(w.txs[self])]);
    SetTxWellFormed(w, self, Released(w.txs[self]));
    var w2 := w1.(orecs := AbortedOrecs(w.orecs, self, w.txs[self].mergedTxs, aborted));
    assert WellFormed(w2);
    var w3 := AbortWorld(w, self, aborted);
    assert w3 == w2.(boxes := Spliced(w, self, AbortWorklist(w, self)));
    assert BoxesOk(w3) by {
      forall b | 0 <= b < |w3.boxes| ensures ChainOk(w3.boxes[b].inplace, |w3.nodes|) {
        assert ChainOk(w.boxes[b].inplace, |w.nodes|);
      }
    }
    assert w3.orecs[self].version == aborted;
  }

  // ------------------------------------------- single steps of the abort loops

  /**
   * Unlinking the chain of one more box: the chain the box currently holds
   * (the original one, or its unlinked form when the box was visited
   * before) unlinked again is its chain once it joins the worklist.
   */
  lemma SplicedBoxStep(w: World, self: TxId, bs: seq<BoxId>, b: BoxId)
    requires WellFormed(w) && b < |w.boxes|
    ensures var cur := SplicedBox(w, self, bs, b);
      && cur.body == w.boxes[b].body
      && ChainIn(w, cur.inplace) && |cur.inplace| > 0
      && SplicedBox(w, self, bs + [b], b) == cur.(inplace := Unlink(w, self, cur.inplace))
  {
    var chain := w.boxes[b].inplace;
    assert ChainOk(chain, |w.nodes|);
    if b in bs {
      UnlinkIdempotent(w, self, chain);
    }
    assert b in bs + [b];
  }

  /** Visiting box `b` leaves every other box as it was. */
  lemma SplicedBoxOther(w: World, self: TxId, bs: seq<BoxId>, b: BoxId, x: BoxId)
    requires WellFormed(w) && x < |w.boxes| && x != b
    ensures SplicedBox(w, self, bs + [b], x) == SplicedBox(w, self, bs, x)
  {
    assert x in bs + [b] <==> x in bs;
  }

  /** Aborting the record of one more merged transaction. */
  lemma AbortedOrecsSnoc(orecs: seq<Orec>, self: TxId, merged: seq<TxId>, i: nat, aborted: int)
    requires i < |merged| && merged[i] < |orecs|
    ensures AbortedOrecs(orecs, self, merged[..i], aborted)[merged[i] := orecs[merged[i]].(version := aborted)]
      == AbortedOrecs(orecs, self, merged[..i + 1], aborted)
  {
    var lhs := AbortedOrecs(orecs, self, merged[..i], aborted)[merged[i] := orecs[merged[i]].(version := aborted)];
    var rhs := AbortedOrecs(orecs, self, merged[..i + 1], aborted);
    forall o | 0 <= o < |orecs| ensures lhs[o] == rhs[o] {
      assert merged[..i + 1] == merged[..i] + [merged[i]];
      assert o in merged[..i + 1] <==> o in merged[..i] || o == merged[i];
    }
  }
}
