/**
 * The decisions a parallel nested transaction takes by walking a box's
 * in-place write chain: the read walk of getBoxValue, the write decision
 * of setBoxValue, the walks of validateNestedRead and validateGlobalReads,
 * and the head splice of manualAbort.
 */
module Chains {
  import opened Types
  import opened Ancestry
  import opened Heap

  predicate ChainIn(w: World, chain: seq<NodeId>) {
    forall i :: 0 <= i < |chain| ==> chain[i] < |w.nodes|
  }

  // ---------------------------------------------------------------- reads

  /**
   * Position of the first node of `chain` owned by `self` or by one of its
   * ancestors (|chain| when there is none): the nodes of unrelated
   * transactions are the ones getBoxValue's loop skips.
   */
  function VisibleIndex(w: World, self: TxId, chain: seq<NodeId>): (k: nat)
    requires WellFormed(w) && self < |w.txs| && ChainIn(w, chain)
    ensures k <= |chain|
    ensures forall j :: 0 <= j < k ==> Rel(w, self, chain[j]) == -1
    ensures k < |chain| ==> Rel(w, self, chain[k]) != -1
  {
    if chain == [] then 0
    else if Rel(w, self, chain[0]) != -1 then 0
    else
      var k := 1 + VisibleIndex(w, self, chain[1..]);
      assert forall j :: 0 < j < |chain| ==> chain[j] == chain[1..][j - 1];
      k
  }

  /** The outcome of getBoxValue before it touches any state. */
  datatype ReadStep =
    | FromGlobal                      // read the committed body through readGlobal
    | Own(v: Value)                   // this transaction's own pending write
    | Nested(node: NodeId, v: Value)  // an ancestor's write, logged in nestedReads
    | Conflict(owner: TxId)           // eager write-read conflict: abort to the owner
    | Local(v: Value)                 // the local write-set

  /**
   * getBoxValue: a head committed within our snapshot sends the read to
   * the committed body; otherwise the first node that is ours or an
   * ancestor's decides, and with none the local write-set is consulted
   * before the committed body.
   */
  function ReadDecision(w: World, self: TxId, b: BoxId): ReadStep
    requires WellFormed(w) && self < |w.txs| && b < |w.boxes|
  {
    var chain := w.boxes[b].inplace;
    var head := OrecOf(w, chain[0]);
    if 0 < head.version <= w.txs[self].number then FromGlobal
    else
      var k := VisibleIndex(w, self, chain);
      if k < |chain| then
        var n := chain[k];
        var av := Rel(w, self, n);
        if av >= 0 && OrecOf(w, n).nestedVersion > av then Conflict(OwnerOf(w, n))
        else if av >= 0 then Nested(n, Unboxed(w.nodes[n].tempValue))
        else Own(Unboxed(w.nodes[n].tempValue))
      else
        var written := w.txs[self].boxesWritten;
        if b in written && written[b] != Null then Local(Unboxed(written[b])) else FromGlobal
  }

  /**
   * What each outcome of getBoxValue means, in both directions. A head
   * committed within the snapshot sends the read to the committed body.
   * Otherwise the first node `chain[k]` owned by this transaction or an
   * ancestor decides: an ancestor's node newer than the snapshot of that
   * ancestor is a conflict naming it, one no newer is a nested read of that
   * node's value, and a node of our own gives its value. Only when no node
   * is ours or an ancestor's is the local write-set consulted, and only a
   * non-null entry there is returned; everything else reads the body.
   */
  lemma ReadDecisionSound(w: World, self: TxId, b: BoxId)
    requires WellFormed(w) && self < |w.txs| && b < |w.boxes|
    ensures var r := ReadDecision(w, self, b); var chain := w.boxes[b].inplace;
      var snap := 0 < OrecOf(w, chain[0]).version <= w.txs[self].number;
      var k := VisibleIndex(w, self, chain);
      var written := w.txs[self].boxesWritten;
      && (r.Conflict? <==> (!snap && k < |chain| && OwnerOf(w, chain[k]) in Ancestors(w.txs, self)
            && OrecOf(w, chain[k]).nestedVersion > AncestorVersion(w.txs, self, OwnerOf(w, chain[k]))))
      && (r.Nested? <==> (!snap && k < |chain| && OwnerOf(w, chain[k]) in Ancestors(w.txs, self)
            && OrecOf(w, chain[k]).nestedVersion <= AncestorVersion(w.txs, self, OwnerOf(w, chain[k]))))
      && (r.Own? <==> (!snap && k < |chain| && OwnerOf(w, chain[k]) == self))
      && (r.Local? <==> (!snap && k == |chain| && b in written && written[b] != Null))
      && (r.FromGlobal? <==> (snap || (k == |chain| && !(b in written && written[b] != Null))))
      && (r.Conflict? ==> r.owner == OwnerOf(w, chain[k]))
      && (r.Nested? ==> r.node == chain[k] && r.v == Unboxed(w.nodes[chain[k]].tempValue))
      && (r.Own? ==> r.v == Unboxed(w.nodes[chain[k]].tempValue))
      && (r.Local? ==> r.v == Unboxed(written[b]))
      && (r.Local? ==> forall i :: 0 <= i < |chain| ==>
            OwnerOf(w, chain[i]) != self && OwnerOf(w, chain[i]) !in Ancestors(w.txs, self))
  {
    var chain := w.boxes[b].inplace;
    assert ChainOk(chain, |w.nodes|);
    var k := VisibleIndex(w, self, chain);
    if k == |chain| {
      forall i | 0 <= i < |chain|
        ensures OwnerOf(w, chain[i]) != self && OwnerOf(w, chain[i]) !in Ancestors(w.txs, self)
      {
        assert Rel(w, self, chain[i]) == -1;
      }
    }
  }

  // --------------------------------------------------------------- writes

  /** The outcome of setBoxValue once its compare-and-swap succeeds or is given up. */
  datatype WriteStep =
    | UpdateOwn                 // already the writer: overwrite the head's value
    | Reclaim                   // take over a committed head node
    | Prepend                   // put a new node over an active ancestor's node
    | AbortTo(ancestor: TxId)   // write-write conflict: retry from the common ancestor
    | Sequential                // no safe parallel outcome: execute sequentially

  /** setBoxValue's decision on the head node of the box's chain. */
  function WriteDecision(w: World, self: TxId, b: BoxId): WriteStep
    requires WellFormed(w) && self < |w.txs| && b < |w.boxes|
  {
    var o := OrecOf(w, w.boxes[b].inplace[0]);
    if o.owner == self then UpdateOwn
    else if o.version != 0 then
      (if o.version <= w.txs[self].number then Reclaim else Sequential)
    else if AncestorVersion(w.txs, self, o.owner) >= 0 then Prepend
    else match LowestCommonAncestor(w.txs, self, o.owner)
      case Some(a) => AbortTo(a)
      case None => Sequential
  }

  /**
   * What each outcome of setBoxValue means for the head's ownership record:
   * only its owner updates in place, committed heads within the snapshot
   * are reclaimed, active ancestors' heads are covered by a new node, and a
   * head of an active non-ancestor aborts to the lowest common ancestor or,
   * when there is none, sends the nested region to sequential execution.
   */
  lemma WriteDecisionSound(w: World, self: TxId, b: BoxId)
    requires WellFormed(w) && self < |w.txs| && b < |w.boxes|
    ensures var r := WriteDecision(w, self, b); var o := OrecOf(w, w.boxes[b].inplace[0]);
      && (r.UpdateOwn? <==> o.owner == self)
      && (r.Reclaim? <==> o.owner != self && o.version != 0 && o.version <= w.txs[self].number)
      && (r.Prepend? <==> o.owner != self && o.version == 0 && o.owner in Ancestors(w.txs, self))
      && (r.AbortTo? ==> (o.version == 0 && o.owner != self && o.owner !in Ancestors(w.txs, self)
            && r.ancestor in Ancestors(w.txs, self) && r.ancestor in ChainFrom(w.txs, Some(o.owner))))
      && (r.Sequential? <==> (o.owner != self
            && ((o.version != 0 && o.version > w.txs[self].number)
                || (o.version == 0 && forall y :: y in ChainFrom(w.txs, Some(o.owner)) ==> y !in Ancestors(w.txs, self)))))
  {
    var o := OrecOf(w, w.boxes[b].inplace[0]);
    assert ChainOk(w.boxes[b].inplace, |w.nodes|);
    if o.owner != self && o.version == 0 {
      var c := ChainFrom(w.txs, Some(o.owner));
      assert o.owner == c[0];
      if AncestorVersion(w.txs, self, o.owner) < 0 {
        LowestCommonAncestorSound(w.txs, self, o.owner);
      } else {
        assert c[0] in c;
      }
    }
  }

  predicate Succeeds(step: WriteStep) {
    step.UpdateOwn? || step.Reclaim? || step.Prepend?
  }

  /** The state after a write of `v` that takes the successful step `d`. */
  function ApplyWrite(w: World, self: TxId, b: BoxId, v: Value, d: WriteStep): World
    requires WellFormed(w) && self < |w.txs| && b < |w.boxes| && Succeeds(d)
  {
    var chain := w.boxes[b].inplace;
    assert ChainOk(chain, |w.nodes|);
    var head := chain[0];
    match d
    case UpdateOwn =>
      w.(nodes := w.nodes[head := w.nodes[head].(tempValue := Boxed(v))])
    case Reclaim =>
      w.(nodes := w.nodes[head := Node(self, Boxed(v))],
         txs := w.txs[self := w.txs[self].(boxesWrittenInPlace := [b] + w.txs[self].boxesWrittenInPlace)])
    case Prepend =>
      w.(nodes := w.nodes + [Node(self, Boxed(v))],
         boxes := w.boxes[b := w.boxes[b].(inplace := [|w.nodes|] + chain)])
  }

  /**
   * Read-your-writes: once a live transaction's write of `v` succeeds, its
   * next read of the same box returns `v` from its own pending write.
   */
  lemma ReadYourWrite(w: World, self: TxId, b: BoxId, v: Value)
    requires WellFormed(w) && self < |w.txs| && b < |w.boxes|
    requires Succeeds(WriteDecision(w, self, b))
    requires Active(w, self)
    ensures WellFormed(ApplyWrite(w, self, b, v, WriteDecision(w, self, b)))
    ensures ReadDecision(ApplyWrite(w, self, b, v, WriteDecision(w, self, b)), self, b) == Own(Unboxed(Boxed(v)))
    ensures v != NullValue ==> ReadDecision(ApplyWrite(w, self, b, v, WriteDecision(w, self, b)), self, b) == Own(v)
  {
    var d := WriteDecision(w, self, b);
    var w' := ApplyWrite(w, self, b, v, d);
    ApplyWriteWellFormed(w, self, b, v, d);
    var chain' := w'.boxes[b].inplace;
    var head' := chain'[0];
    match d
    case UpdateOwn =>
      assert w'.nodes[head'].orec == w.nodes[head'].orec;
    case Reclaim =>
      assert OrecOf(w', head') == w.orecs[self];
    case Prepend =>
      assert OrecOf(w', head') == w.orecs[self];
    assert OwnerOf(w', head') == self && OrecOf(w', head').version == 0;
    assert w'.nodes[head'].tempValue == Boxed(v);
    assert Rel(w', self, head') == -2;
    assert VisibleIndex(w', self, chain') == 0;
  }

  /** A successful write keeps the state well formed. */
  lemma ApplyWriteWellFormed(w: World, self: TxId, b: BoxId, v: Value, d: WriteStep)
    requires WellFormed(w) && self < |w.txs| && b < |w.boxes| && Succeeds(d)
    ensures WellFormed(ApplyWrite(w, self, b, v, d))
  {
    var chain := w.boxes[b].inplace;
    assert ChainOk(chain, |w.nodes|);
    var head := chain[0];
    if d.UpdateOwn? {
      SetNodeWellFormed(w, head, w.nodes[head].(tempValue := Boxed(v)));
    } else if d.Reclaim? {
      ReclaimWellFormed(w, self, b, v);
    } else {
      AddNodeWellFormed(w, Node(self, Boxed(v)));
      SetChainWellFormed(w.(nodes := w.nodes + [Node(self, Boxed(v))]), b, [|w.nodes|] + chain);
    }
  }

  lemma ReclaimWellFormed(w: World, self: TxId, b: BoxId, v: Value)
    requires WellFormed(w) && self < |w.txs| && b < |w.boxes|
    ensures var head := w.boxes[b].inplace[0];
      var w1 := w.(nodes := w.nodes[head := Node(self, Boxed(v))]);
      WellFormed(w1.(txs := w1.txs[self := w1.txs[self].(boxesWrittenInPlace := [b] + w1.txs[self].boxesWrittenInPlace)]))
  {
    var chain := w.boxes[b].inplace;
    assert ChainOk(chain, |w.nodes|);
    var head := chain[0];
    var w1 := w.(nodes := w.nodes[head := Node(self, Boxed(v))]);
    SetNodeWellFormed(w, head, Node(self, Boxed(v)));
    assert TxOk(w1.txs[self], |w1.txs|, |w1.boxes|, |w1.entries|);
    SetTxWellFormed(w1, self, w1.txs[self].(boxesWrittenInPlace := [b] + w1.txs[self].boxesWrittenInPlace));
  }

  // ----------------------------------------------------------- validation

  /** The part of `chain` newer than `stop`: the whole chain when `stop` is absent. */
  function Before(chain: seq<NodeId>, stop: Option<NodeId>): (p: seq<NodeId>)
    ensures p <= chain
    ensures stop.None? ==> p == chain
    ensures stop.Some? ==> stop.value !in p && (p == chain || chain[|p|] == stop.value)
  {
    if chain == [] then []
    else if stop == Some(chain[0]) then []
    else [chain[0]] + Before(chain[1..], stop)
  }

  /**
   * The walk of validateNestedRead (over the nodes newer than the one that
   * was read) and of validateGlobalReads (over the whole chain): the
   * position of the first node an ancestor owns, whose owner the
   * validation aborts to (|p| when the walk passes).
   */
  function AncestorNodeIndex(w: World, self: TxId, p: seq<NodeId>): (k: nat)
    requires WellFormed(w) && self < |w.txs| && ChainIn(w, p)
    ensures k <= |p|
    ensures forall j :: 0 <= j < k ==> Rel(w, self, p[j]) < 0
    ensures k < |p| ==> Rel(w, self, p[k]) >= 0 && OwnerOf(w, p[k]) in Ancestors(w.txs, self)
  {
    if p == [] then 0
    else if Rel(w, self, p[0]) >= 0 then 0
    else
      var k := 1 + AncestorNodeIndex(w, self, p[1..]);
      assert forall j :: 0 < j < |p| ==> p[j] == p[1..][j - 1];
      k
  }

  // ---------------------------------------------------------------- abort

  predicate OwnedBy(w: World, n: NodeId, self: TxId)
    requires NodesOk(w) && n < |w.nodes|
  {
    OwnerOf(w, n) == self
  }

  /** The inner loop of manualAbort's splice, as written: advance while the NEXT node is owned by `self`. */
  function RunEnd(w: World, self: TxId, chain: seq<NodeId>, k: nat): (e: nat)
    requires NodesOk(w) && ChainIn(w, chain) && 1 <= k < |chain|
    ensures k <= e < |chain|
    ensures forall j :: k < j <= e ==> OwnedBy(w, chain[j], self)
    ensures e + 1 == |chain| || !OwnedBy(w, chain[e + 1], self)
    decreases |chain| - k
  {
    if k + 1 < |chain| && OwnedBy(w, chain[k + 1], self) then RunEnd(w, self, chain, k + 1) else k
  }

  /** manualAbort's splice of one box, as written in the source. */
  function SpliceAsWritten(w: World, self: TxId, chain: seq<NodeId>): (r: seq<NodeId>)
    requires NodesOk(w) && ChainIn(w, chain) && |chain| > 0
    ensures 0 < |r| <= |chain| && r == chain[|chain| - |r|..]
  {
    if OwnedBy(w, chain[0], self) && |chain| > 1 then chain[RunEnd(w, self, chain, 1)..] else chain
  }

  /**
   * The inner loop of the splice as intended: advance while the CURRENT
   * node is owned by `self` and is not the last one.
   */
  function LeadEnd(w: World, self: TxId, chain: seq<NodeId>, k: nat): (e: nat)
    requires NodesOk(w) && ChainIn(w, chain) && k < |chain|
    ensures k <= e < |chain|
    ensures forall j :: k <= j < e ==> OwnedBy(w, chain[j], self)
    ensures e + 1 == |chain| || !OwnedBy(w, chain[e], self)
    decreases |chain| - k
  {
    if k + 1 < |chain| && OwnedBy(w, chain[k], self) then LeadEnd(w, self, chain, k + 1) else k
  }

  /**
   * The splice as intended: unlink the leading nodes owned by `self`, so
   * that the head is the newest node of another owner (the last node of a
   * chain is never unlinked).
   */
  function Unlink(w: World, self: TxId, chain: seq<NodeId>): (r: seq<NodeId>)
    requires NodesOk(w) && ChainIn(w, chain) && |chain| > 0
    ensures 0 < |r| <= |chain| && r == chain[|chain| - |r|..] && ChainIn(w, r)
    ensures forall i :: 0 <= i < |chain| - |r| ==> OwnedBy(w, chain[i], self)
    ensures |r| == 1 || !OwnedBy(w, r[0], self)
  {
    chain[LeadEnd(w, self, chain, 0)..]
  }

  /** Unlinking twice is unlinking once. */
  lemma UnlinkIdempotent(w: World, self: TxId, chain: seq<NodeId>)
    requires NodesOk(w) && ChainIn(w, chain) && |chain| > 0
    ensures Unlink(w, self, Unlink(w, self, chain)) == Unlink(w, self, chain)
  {
    var r := Unlink(w, self, chain);
    assert LeadEnd(w, self, r, 0) == 0;
  }

  /**
   * The records of SpliceExample: transaction 0 is a top-level one that
   * reclaimed box 0, 1 is its child, and 2 is 1's child that committed
   * into 1 (so 1 is at nested version 1 and has 2 merged into it).
   */
  function ExampleTx(t: int): Tx {
    var parent := if t <= 0 then None else Some(t - 1);
    var anc := if t == 0 then [] else if t == 1 then [0] else [0, 0];
    Tx(parent, t != 0, 5, anc, if t == 1 then 1 else 0, -1, [], map[], map[],
       if t == 0 then [0] else [], if t == 1 then [2] else [], map[], false, map[], map[], [], false)
  }

  /**
   * A reachable state with the chain [n0, n1, n2] of box 0. Transaction 0
   * reclaimed box 0 (n2); its child 1 put n1 over it; 1's child 2 put n0
   * over that and committed into 1, so n0 and n1 both belong to 1 now.
   */
  function SpliceExample(): World {
    World(seq(3, t => ExampleTx(t)), [Orec(0, 0, 0), Orec(1, 0, 0), Orec(1, 0, 1)],
          [Node(2, Null), Node(1, Null), Node(0, Null)], [Box(Body(0, Null), [0, 1, 2])], [])
  }

  lemma ExampleTxOk(t: int)
    requires 0 <= t < 3
    ensures TxOk(ExampleTx(t), 3, 1, 0)
  {
  }

  /**
   * Finding: when transaction 1 of SpliceExample aborts, its parent's
   * box 0 is spliced; with two nodes of 1 on top of its parent's node, the
   * splice as written leaves the second of them at the head, while
   * unlinking as intended leaves the parent's node.
   */
  lemma SpliceAsWrittenKeepsOwnHead()
    ensures WellFormed(SpliceExample()) && SpliceExample().boxes[0].inplace == [0, 1, 2]
    ensures SpliceExample().txs[1].parent == Some(0) && 0 in SpliceExample().txs[0].boxesWrittenInPlace
    ensures SpliceAsWritten(SpliceExample(), 1, [0, 1, 2]) == [1, 2]
    ensures OwnedBy(SpliceExample(), 1, 1)
    ensures Unlink(SpliceExample(), 1, [0, 1, 2]) == [2] && !OwnedBy(SpliceExample(), 2, 1)
  {
    SpliceExampleWellFormed();
  }

  /** SpliceExample is a well-formed state. */
  lemma SpliceExampleWellFormed()
    ensures WellFormed(SpliceExample())
  {
    ExampleReady();
    ExampleHeapOk();
    ExampleTxsOk();
  }

  lemma ExampleReady()
    ensures Ready(SpliceExample().txs)
  {
    var txs := SpliceExample().txs;
    assert ParentsBefore(txs);
    assert Ancestors(txs, 0) == [];
    assert ChainFrom(txs, Some(0)) == [0];
    assert Ancestors(txs, 1) == [0];
    assert ChainFrom(txs, Some(1)) == [1, 0];
    assert Ancestors(txs, 2) == [1, 0];
  }

  lemma ExampleHeapOk()
    ensures OrecsOk(SpliceExample()) && NodesOk(SpliceExample()) && BoxesOk(SpliceExample())
  {
  }

  lemma ExampleTxsOk()
    ensures TxsOk(SpliceExample())
  {
    var w := SpliceExample();
    forall t | 0 <= t < |w.txs| ensures TxOk(w.txs[t], |w.txs|, |w.boxes|, |w.entries|) {
      ExampleTxOk(t);
    }
  }
}
