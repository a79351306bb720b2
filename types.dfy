/**
 * Values, handles and records shared by the model of a parallel nested
 * transaction.  Every object the STM links by reference (transactions,
 * ownership records, in-place write nodes, boxes, array entries) lives in
 * an arena and is named by its index there.
 */
module Types {

  datatype Option<T> = None | Some(value: T)

  type TxId = nat
  type OrecId = nat
  type NodeId = nat
  type BoxId = nat
  type EntryId = nat
  type ArrayId = nat
  type PerTxBoxId = nat

  /** Number of slots in one block of the committed-state read log. */
  const BLOCK_SIZE: int := 1000

  /**
   * A value held by a box.  `Null` is the language's null reference and
   * `NullValue` the private sentinel under which a written null is stored,
   * so that a stored null can be told apart from "nothing stored".
   */
  datatype Value = Null | NullValue | Ref(id: int)

  /** The form in which a written value is stored in a node or write entry. */
  function Boxed(v: Value): (s: Value)
    ensures s != Null
    ensures v != NullValue ==> Unboxed(s) == v
  {
    if v == Null then NullValue else v
  }

  /** The form in which a stored value is handed back to a reader. */
  function Unboxed(s: Value): (v: Value)
    ensures v != NullValue
    ensures s != NullValue ==> v == s
  {
    if s == NullValue then Null else s
  }

  /**
   * Ownership record.  `version` is 0 while its writer is active, positive
   * once committed globally, and the aborted sentinel after an abort;
   * `nestedVersion` is the commit number within `owner` at merge time.
   */
  datatype Orec = Orec(owner: TxId, version: int, nestedVersion: int)

  /** One in-place write: its ownership record and its tentative value. */
  datatype Node = Node(orec: OrecId, tempValue: Value)

  /** The newest globally committed body of a box. */
  datatype Body = Body(version: int, value: Value)

  /**
   * A versioned box: its newest committed body and its in-place write
   * chain, newest node first (the head is the box's `inplace` pointer and
   * each node's `next` is the node after it).
   */
  datatype Box = Box(body: Body, inplace: seq<NodeId>)

  /** The array slot an array entry reads or writes; entries are keyed by it. */
  datatype Slot = Slot(arrayId: ArrayId, index: int)

  /** A transactional array entry: written value, merge version and the ancestor it was read from. */
  datatype ArrayEntry = ArrayEntry(slot: Slot, writeValue: Value, nestedVersion: int, readOwner: Option<TxId>)

  /** One block of the committed-state read log. */
  type ReadBlock = array<Option<BoxId>>

  /**
   * The fields of a transaction that the parallel nesting protocol uses.
   * Transaction t owns ownership record t.  `released` records that the
   * transaction's logs were dropped by an abort (the fields become null).
   */
  datatype Tx = Tx(
    parent: Option<TxId>,
    parallel: bool,
    number: int,
    ancVersions: seq<int>,
    nestedVersion: int,
    next: int,
    globalReads: seq<ReadBlock>,
    nestedReads: map<BoxId, NodeId>,
    boxesWritten: map<BoxId, Value>,
    boxesWrittenInPlace: seq<BoxId>,
    mergedTxs: seq<TxId>,
    perTxValues: map<PerTxBoxId, Value>,
    readAncestorPerTxValue: bool,
    arrayWrites: map<Slot, EntryId>,
    arrayWritesCount: map<ArrayId, int>,
    arraysRead: seq<EntryId>,
    released: bool)

  /** The whole shared state at one instant. */
  datatype World = World(txs: seq<Tx>, orecs: seq<Orec>, nodes: seq<Node>, boxes: seq<Box>, entries: seq<ArrayEntry>)

  /** The three abort signals a parallel nested transaction raises. */
  datatype Abort =
    | CommitEx(ancestor: TxId)   // retry from the named ancestor
    | ExecuteSequentially        // re-run the nested region without parallelism
    | EarlyAbort                 // committed state moved past the snapshot

  datatype Result<T> = Ok(value: T) | Fail(signal: Abort)
}
