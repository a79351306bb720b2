# Parallel nested transactions of JVSTM, modelled in Dafny

JVSTM is a multi-version software transactional memory for Java. A
*parallel nested transaction* runs inside a parent transaction, side by
side with its siblings. This project models the bookkeeping of such a
transaction, as the class `ParallelNestedTransaction` does it:

- creating one under a parent, with its snapshot of the ancestors' nested
  versions;
- reading a box through the box's chain of in-place writes, or from the
  committed body, logging the read;
- writing a box in place: updating its own node, reclaiming a node of a
  finished transaction, or prepending a node over an ancestor's node;
- reading per-transaction boxes and transactional array entries from the
  nearest ancestor that holds one;
- the manual abort, which unlinks the aborting transaction's nodes from
  the chains and aborts its ownership records;
- the nested commit (`tryCommit`): snapshot validation of the nested and
  committed-state read logs, validation and hand-up of the array reads,
  the per-transaction check, and the merge into the parent (records,
  merged list, per-transaction values, array writes and their per-array
  counters, nested version).

Every object the Java code links by reference lives in an arena held by
one state:

- transactions, ownership records, in-place write nodes, boxes and array
  entries are named by their index;
- transaction `t` owns ownership record `t`;
- a box's chain of in-place writes is a sequence of node indices, newest
  first;
- the blocks of the committed-state read log are real arrays of
  `BLOCK_SIZE` (1000) slots.

The mutable state is the class `Transaction.Stm`. Each of its methods is
proved against a pure function of the state before the call, in the
modules `Steps`, `AbortSpec`, `Chains`, `Lookup`, `Merge` and
`CommitSpec`. The lemmas about those functions state what the protocol
promises. The `Validation` methods walk the logs as the Java loops do, and
they are proved equal to predicates over the logs.

Modules:

- `Types`: the entities.
- `Ancestry`: parent chains, `retrieveAncestorVersion` and the lowest
  common ancestor.
- `Heap`: well-formedness of the state.
- `Chains`: read and write decisions on a chain, and unlinking.
- `AbortSpec`: `manualAbort`.
- `Steps`: creation, and logging a committed read.
- `Lookup`: the per-transaction, array and validation lookups.
- `Merge`: the list, record and array-write merges.
- `CommitSpec`: validation predicates and the commit state.
- `Validation`: the validation loops.
- `Transaction`: the class.

## Model

All source paths are under `jvstm/src/main/java/jvstm/`.

| member | source | states |
|---|---|---|
| Types.Boxed | jvstm/src/main/java/jvstm/ParallelNestedTransaction.java:272 | a written value is stored as a non-null value, and unboxing the stored value gives back any value except the private null sentinel |
| Types.Unboxed | jvstm/src/main/java/jvstm/ParallelNestedTransaction.java:235 | a reader never sees the null sentinel; every other stored value comes back unchanged |
| Ancestry.AncestorVersion | jvstm/src/main/java/jvstm/ParallelNestedTransaction.java:107-122 | the result is -2 exactly for the transaction itself, -1 exactly for a transaction that is neither itself nor an ancestor, and non-negative exactly for an ancestor |
| Ancestry.AncestorVersionAt | jvstm/src/main/java/jvstm/ParallelNestedTransaction.java:112-117 | for the i-th ancestor up the parent chain the result is the i-th recorded ancestor version |
| Ancestry.RetrieveAncestorVersion | jvstm/src/main/java/jvstm/ParallelNestedTransaction.java:107-122 | the loop up the parent chain returns the ancestor version defined above |
| Ancestry.LowestCommonAncestorSound | jvstm/src/main/java/jvstm/ParallelNestedTransaction.java:124-133 | a result is both an ancestor of this transaction and on the other's parent chain; there is no result exactly when no transaction on the other's chain is an ancestor |
| Ancestry.RetrieveLowestCommonAncestor | jvstm/src/main/java/jvstm/ParallelNestedTransaction.java:124-133 | the loop returns the lowest common ancestor defined above |
| Ancestry.SnapshotAncVersions | jvstm/src/main/java/jvstm/ParallelNestedTransaction.java:71-76 | the child's versions are the parent's nested version followed by every one of the parent's own versions |
| Ancestry.ForkedAncestorVersion | jvstm/src/main/java/jvstm/ParallelNestedTransaction.java:68-81 | a new child sees its parent at the parent's current nested version, and every other ancestor at the version the parent sees it |
| Steps.ForkSound | jvstm/src/main/java/jvstm/ParallelNestedTransaction.java:68-81 | creating a child keeps the state well formed; the child is active, and its ancestors are its parent followed by the parent's ancestors; no other transaction's ancestors change |
| Transaction.Stm.ForkRecord | jvstm/src/main/java/jvstm/ParallelNestedTransaction.java:71-80 | the new record holds the snapshot of versions, an empty nested-read log and read log, and the parent's write-set |
| Transaction.Stm.Fork | jvstm/src/main/java/jvstm/ParallelNestedTransaction.java:68-81 | the state afterwards is the old one plus the new child and its active ownership record, and it stays well formed |
| Steps.LoggedWellFormed | jvstm/src/main/java/jvstm/ParallelNestedTransaction.java:191-210 | logging a read into the current block, or into a new block when the current one is full, keeps the state well formed and the slot in range |
| Transaction.Stm.LogRead | jvstm/src/main/java/jvstm/ParallelNestedTransaction.java:191-210 | the box is stored in the next free slot, counting down from 999; a full or missing block is replaced by a fresh one pushed on the log, holding only this read in slot 999; the other slots and blocks keep their contents |
| Transaction.Stm.ReadGlobal | jvstm/src/main/java/jvstm/ParallelNestedTransaction.java:185-212 | a committed body newer than the transaction's number makes it abort early with the read log unchanged; otherwise the body's value is returned and the box is logged in the next slot, every other slot and block keeping its contents |
| Chains.VisibleIndex | jvstm/src/main/java/jvstm/ParallelNestedTransaction.java:225-246 | the first node of a chain owned by this transaction or an ancestor, with every node before it owned by an unrelated transaction |
| Chains.ReadDecisionSound | jvstm/src/main/java/jvstm/ParallelNestedTransaction.java:214-258 | each outcome in both directions: a head committed within the snapshot reads the committed body; otherwise the first node owned by the transaction or an ancestor decides: an ancestor's node newer than the snapshot of that ancestor is a conflict naming that ancestor, one no newer is a nested read of that node's value, an own node gives its value; with no such node a non-null write-set entry is returned, else the committed body |
| Transaction.Stm.FindVisible | jvstm/src/main/java/jvstm/ParallelNestedTransaction.java:225-246 | the loop over the chain stops at the first visible node and returns its ancestor version |
| Transaction.Stm.LogNestedRead | jvstm/src/main/java/jvstm/ParallelNestedTransaction.java:234 | the nested-read log maps the box to the node read, and nothing else changes |
| Transaction.Stm.GetBoxValue | jvstm/src/main/java/jvstm/ParallelNestedTransaction.java:214-258 | each outcome of the read decision: a committed read (logged, or an early abort); an own or write-set value with no change; an ancestor's value with the nested read logged; a conflict that aborts and names the ancestor; only a committed read touches the read log, and every other outcome leaves the current read block's contents as they were |
| Chains.WriteDecisionSound | jvstm/src/main/java/jvstm/ParallelNestedTransaction.java:267-319 | both directions for all but the abort case: own head updates; a head of a finished transaction no newer than the number is reclaimed; an ancestor's active head gets a node prepended; an unrelated active head aborts up to the lowest common ancestor; everything else runs sequentially |
| Chains.ApplyWriteWellFormed | jvstm/src/main/java/jvstm/ParallelNestedTransaction.java:271-294 | each successful write keeps the state well formed |
| Chains.ReadYourWrite | jvstm/src/main/java/jvstm/ParallelNestedTransaction.java:267-294 | after a successful write by an active transaction, its next read of the box returns the value written |
| Transaction.Stm.ContendedStep | jvstm/src/main/java/jvstm/ParallelNestedTransaction.java:276-298 | failed compare-and-swaps, which re-read the head, end with the decision the current state dictates; since a failure changes nothing here, the retries are inert |
| Transaction.Stm.CompleteWrite | jvstm/src/main/java/jvstm/ParallelNestedTransaction.java:271-294 | the state becomes the one the write step defines |
| Transaction.Stm.SetBoxValue | jvstm/src/main/java/jvstm/ParallelNestedTransaction.java:267-319 | a successful write leaves the state of the write step and the same backoff; an abort to an ancestor aborts, names it and doubles the backoff; a sequential fallback aborts and keeps the backoff |
| Transaction.Stm.ReadNode | jvstm/src/main/java/jvstm/ParallelNestedTransaction.java:228-239 | at the first node of this transaction or an ancestor: an ancestor's node newer than the snapshot aborts and names it; one no newer is returned with the nested read logged; an own node is returned with no change; the read log is untouched |
| Transaction.Stm.ReadUnrelated | jvstm/src/main/java/jvstm/ParallelNestedTransaction.java:248-256 | with no such node: a non-null write-set value is returned with no change, else the committed body is read as readGlobal does |
| Chains.Unlink | jvstm/src/main/java/jvstm/ParallelNestedTransaction.java:144-165 | the chain keeps a non-empty suffix; every node dropped belongs to the aborting transaction; the new head is another owner's node or the last node |
| Chains.UnlinkIdempotent | jvstm/src/main/java/jvstm/ParallelNestedTransaction.java:144-165 | unlinking a chain that was already unlinked changes nothing, so a box visited twice is spliced once |
| Chains.SpliceAsWritten | jvstm/src/main/java/jvstm/ParallelNestedTransaction.java:147-152 | the splice loop as written leaves a non-empty suffix of the chain |
| Chains.SpliceAsWrittenKeepsOwnHead | jvstm/src/main/java/jvstm/ParallelNestedTransaction.java:149-152 | in a well-formed state reached by a child committing into the aborting transaction, the splice as written leaves a node of the aborting transaction at the head of its parent's box, while unlinking as intended does not |
| AbortSpec.AbortChains | jvstm/src/main/java/jvstm/ParallelNestedTransaction.java:144-165 | the boxes written in place by the parent and by the transactions merged into it lose the aborting transaction's whole leading run of nodes (the corrected unlink, see Findings); other boxes and all bodies are unchanged |
| AbortSpec.AbortRecords | jvstm/src/main/java/jvstm/ParallelNestedTransaction.java:167-170 | the records of the aborting transaction and of those merged into it carry the aborted version; owners, nested versions and other records are unchanged |
| AbortSpec.AbortWellFormed | jvstm/src/main/java/jvstm/ParallelNestedTransaction.java:143-183 | the state after an abort is well formed, and the aborting transaction is no longer active |
| Transaction.Stm.SpliceBox | jvstm/src/main/java/jvstm/ParallelNestedTransaction.java:146-153 | one box's chain is unlinked with the corrected unlink (see Findings) and every other box is unchanged |
| Transaction.Stm.SpliceBoxes | jvstm/src/main/java/jvstm/ParallelNestedTransaction.java:145-154 | every box of the list is unlinked with the corrected unlink, in order |
| Transaction.Stm.AbortOwnRecords | jvstm/src/main/java/jvstm/ParallelNestedTransaction.java:167-170 | the records are aborted as stated for the abort, and nothing else changes |
| Transaction.Stm.ManualAbort | jvstm/src/main/java/jvstm/ParallelNestedTransaction.java:143-183 | the state becomes the abort state: chains unlinked with the corrected unlink, records aborted, logs dropped; it stays well formed |
| Transaction.Stm.AbortTx | jvstm/src/main/java/jvstm/ParallelNestedTransaction.java:135-141 | an already aborted transaction is left as is; otherwise it is manually aborted; either way its record ends aborted |
| Lookup.PerTxDecisionSound | jvstm/src/main/java/jvstm/ParallelNestedTransaction.java:344-382 | the own value (its `perTxValues` entry) exactly when one is held; else an ancestor's value only when that ancestor is unchanged since the snapshot; a stale ancestor when it changed; nothing exactly when no one up the tree holds a value |
| Lookup.PerTxDecisionNearest | jvstm/src/main/java/jvstm/ParallelNestedTransaction.java:354-379 | the ancestor consulted is the nearest one holding a value |
| Transaction.Stm.FindPerTxHolder | jvstm/src/main/java/jvstm/ParallelNestedTransaction.java:354-379 | the loop up the parents returns the nearest ancestor holding a value, with that value |
| Transaction.Stm.MarkAncestorPerTxRead | jvstm/src/main/java/jvstm/ParallelNestedTransaction.java:374 | only the transaction's flag for reading an ancestor's per-transaction value is set |
| Transaction.Stm.GetPerTxValue | jvstm/src/main/java/jvstm/ParallelNestedTransaction.java:344-382 | each outcome: the own value; an ancestor's value, setting the flag; a stale ancestor, which aborts for sequential execution; null |
| Lookup.ArrayDecisionSound | jvstm/src/main/java/jvstm/ParallelNestedTransaction.java:388-418 | the own write (its entry's value, boxed) exactly when one exists; else the nearest ancestor's write, usable only when merged no later than the snapshot and a conflict naming that ancestor otherwise; nothing exactly when no one writes the slot |
| Transaction.Stm.FindSlotWriter | jvstm/src/main/java/jvstm/ParallelNestedTransaction.java:397-415 | the loop up the parents returns the nearest ancestor that wrote the slot |
| Transaction.Stm.RecordArrayRead | jvstm/src/main/java/jvstm/ParallelNestedTransaction.java:407-408 | the entry is pushed on the array-read log and records the ancestor it was read from |
| Transaction.Stm.GetLocalArrayValue | jvstm/src/main/java/jvstm/ParallelNestedTransaction.java:388-418 | each outcome: the own write; an ancestor's write, logging the read; a conflict that leaves the state unchanged; null |
| Lookup.NestedReadConflictSound | jvstm/src/main/java/jvstm/ParallelNestedTransaction.java:557-571 | a nested read is valid exactly when no node newer than the one read belongs to an ancestor (the transaction's own nodes never conflict); a conflict names an ancestor |
| Lookup.GlobalReadConflictSound | jvstm/src/main/java/jvstm/ParallelNestedTransaction.java:580-590 | a committed read is valid exactly when no node of the box's chain belongs to an ancestor (the transaction's own nodes never conflict); a conflict names an ancestor |
| Validation.ValidateNestedRead | jvstm/src/main/java/jvstm/ParallelNestedTransaction.java:557-571 | the walk down the chain to the node read returns the conflict defined above |
| Validation.ValidateGlobalRead | jvstm/src/main/java/jvstm/ParallelNestedTransaction.java:581-589 | the walk down the whole chain returns the conflict defined above |
| Validation.ValidateNestedReads | jvstm/src/main/java/jvstm/ParallelNestedTransaction.java:529-531 | no conflict exactly when every entry of the nested-read log is valid; a conflict names an ancestor |
| Validation.ValidateSlot | jvstm/src/main/java/jvstm/ParallelNestedTransaction.java:581-589 | one slot of a read block passes exactly when its box has no related node |
| Validation.ValidateBlock | jvstm/src/main/java/jvstm/ParallelNestedTransaction.java:580-590 | no conflict exactly when every slot from the starting one to the end of the block passes |
| Validation.BlockValidAll | jvstm/src/main/java/jvstm/ParallelNestedTransaction.java:580-590 | a block passes from a slot on exactly when every later filled slot passes |
| Validation.GlobalReadsValidBlocks | jvstm/src/main/java/jvstm/ParallelNestedTransaction.java:577-607 | the committed-state read log passes exactly when the first block passes after the slot `next`, and every other block passes in full |
| Validation.ValidateGlobalReads | jvstm/src/main/java/jvstm/ParallelNestedTransaction.java:577-607 | no conflict exactly when the committed-state read log passes; a conflict names an ancestor |
| Validation.ValidateNestedLog | jvstm/src/main/java/jvstm/ParallelNestedTransaction.java:529-536 | the nested reads of one transaction, validated on behalf of the committing one |
| Validation.ValidateGlobalLog | jvstm/src/main/java/jvstm/ParallelNestedTransaction.java:539-546 | the committed reads of one transaction, validated unless its log is empty |
| Validation.ValidateNestedLogs | jvstm/src/main/java/jvstm/ParallelNestedTransaction.java:529-537 | no conflict exactly when the nested reads of the transaction and of every transaction merged into it pass |
| Validation.ValidateGlobalLogs | jvstm/src/main/java/jvstm/ParallelNestedTransaction.java:539-547 | no conflict exactly when the committed reads of the transaction and of every transaction merged into it pass |
| Validation.NestedLogsValidEach | jvstm/src/main/java/jvstm/ParallelNestedTransaction.java:529-537 | the nested logs pass only when each transaction's nested log passes |
| Validation.GlobalLogsValidEach | jvstm/src/main/java/jvstm/ParallelNestedTransaction.java:539-547 | the committed logs pass only when each transaction's committed log passes |
| Validation.SnapshotValidation | jvstm/src/main/java/jvstm/ParallelNestedTransaction.java:524-549 | no conflict exactly when the parent has not changed since the snapshot, or every read log passes; a conflict names an ancestor |
| CommitSpec.KeptReadsMembers | jvstm/src/main/java/jvstm/ParallelNestedTransaction.java:618-620 | an array read is handed up exactly when it was not read from the parent itself |
| CommitSpec.HandedUpReadsSound | jvstm/src/main/java/jvstm/ParallelNestedTransaction.java:609-637 | the hand-up fails, naming the parent, exactly when some array read is overtaken by a parent write newer than the snapshot; otherwise it holds the parent's reads plus the reads not taken from the parent |
| Validation.KeptReadsStep | jvstm/src/main/java/jvstm/ParallelNestedTransaction.java:618-620 | each read that is handed up is pushed on the parent's list; the others are not |
| Validation.WalkArrayReads | jvstm/src/main/java/jvstm/ParallelNestedTransaction.java:613-634 | the loop over the array-read log returns the hand-up defined above |
| Validation.ValidateNestedArrayReads | jvstm/src/main/java/jvstm/ParallelNestedTransaction.java:609-637 | validateNestedArrayReads returns the hand-up of the transaction's array reads |
| Merge.MergedListMembers | jvstm/src/main/java/jvstm/ParallelNestedTransaction.java:480-486 | the parent's merged list gains exactly the committing transaction and the ones merged into it |
| Merge.Rehomed | jvstm/src/main/java/jvstm/ParallelNestedTransaction.java:477-485 | the records of the committing transaction and of the ones merged into it move to the parent at the commit version; their global version and every other record are unchanged |
| Transaction.Stm.RehomeMerged | jvstm/src/main/java/jvstm/ParallelNestedTransaction.java:477-486 | the loop re-homes those records and builds the parent's new merged list |
| Merge.Stamped | jvstm/src/main/java/jvstm/ParallelNestedTransaction.java:497-505 | the entries written by the child carry the commit version, and no other entry changes |
| Merge.ValuesListed | jvstm/src/main/java/jvstm/ParallelNestedTransaction.java:497 | walking the child's array writes in iteration order visits every entry |
| Transaction.Stm.StampEntries | jvstm/src/main/java/jvstm/ParallelNestedTransaction.java:497-505 | the loop stamps every entry the child wrote with the commit version |
| Merge.PropagatedKeys | jvstm/src/main/java/jvstm/ParallelNestedTransaction.java:503-515 | after propagation a slot is written exactly when the parent or the child wrote it |
| Merge.PropagatedWrites | jvstm/src/main/java/jvstm/ParallelNestedTransaction.java:507 | the child's entry wins for a slot both wrote |
| Merge.PropagatedCounts | jvstm/src/main/java/jvstm/ParallelNestedTransaction.java:507-514 | each array's counter grows by the number of the child's slots in it that the parent had not written |
| Merge.PropagatedUnion | jvstm/src/main/java/jvstm/ParallelNestedTransaction.java:503-515 | the propagated write-set is the parent's overridden by the child's |
| Merge.PropagateArrayWrites | jvstm/src/main/java/jvstm/ParallelNestedTransaction.java:500-516 | the loop yields that write-set and those counters |
| Merge.CountNewSlots | jvstm/src/main/java/jvstm/ParallelNestedTransaction.java:510-514 | the slots counted as new are exactly the ones the merged write-set adds to each array |
| Merge.PropagateKeepsCountsMatch | jvstm/src/main/java/jvstm/ParallelNestedTransaction.java:494-516 | when the parent's counters give the number of its written slots per array, so do the counters after propagation |
| CommitSpec.MergedArrayWritesSound | jvstm/src/main/java/jvstm/ParallelNestedTransaction.java:494-516 | both branches (the parent without writes takes the child's maps, otherwise propagation) give the union of writes and counters that match it |
| Transaction.Stm.MergedRecord | jvstm/src/main/java/jvstm/ParallelNestedTransaction.java:480-516 | the parent's record after the merge: merged list, per-transaction values, array writes and counters, and nested version |
| CommitSpec.CommitWellFormed | jvstm/src/main/java/jvstm/ParallelNestedTransaction.java:477-519 | the merge keeps the state well formed and every transaction's ancestors |
| CommitSpec.CommitRecords | jvstm/src/main/java/jvstm/ParallelNestedTransaction.java:477-485 | the records of the committing and merged transactions move to the parent at its nested version plus one; the other records are unchanged |
| CommitSpec.CommitParent | jvstm/src/main/java/jvstm/ParallelNestedTransaction.java:477-519 | the parent's nested version goes up by one; it holds the union of per-transaction values and of array writes, with matching counters and the merged list; the child's entries are stamped; no other transaction, node or box changes |
| CommitSpec.CommitNodeOwner | jvstm/src/main/java/jvstm/ParallelNestedTransaction.java:477-485 | a node of the committing or a merged transaction belongs to the parent at the parent's new nested version |
| CommitSpec.CommitSeenAsNewer | jvstm/src/main/java/jvstm/ParallelNestedTransaction.java:477-519 | after the commit, such a node is seen as newer than the snapshot by every transaction under the parent that took its snapshot no later, so that it conflicts in getBoxValue and in validation; snapshot validation can no longer be skipped |
| CommitSpec.WithParentReads | jvstm/src/main/java/jvstm/ParallelNestedTransaction.java:458 | the parent's array-read log is replaced and nothing else changes: the state stays well formed, with the same ancestry and the same snapshot of the parent |
| CommitSpec.Flagged | jvstm/src/main/java/jvstm/ParallelNestedTransaction.java:471-474 | only the flag of a parallel parent can change, and the state stays well formed |
| CommitSpec.CommittedWorld | jvstm/src/main/java/jvstm/ParallelNestedTransaction.java:447-522 | a successful commit keeps the state well formed, and every transaction's ancestors |
| CommitSpec.CommittedParent | jvstm/src/main/java/jvstm/ParallelNestedTransaction.java:458-519 | after a successful commit the parent holds the reads handed up; its nested version goes up by one; its flag is set when the child's was and it is parallel; it holds both write-sets and both per-transaction maps |
| Transaction.Stm.HandUpArrayReads | jvstm/src/main/java/jvstm/ParallelNestedTransaction.java:458 | the state becomes the one with the parent's reads replaced |
| Transaction.Stm.PassOnPerTxRead | jvstm/src/main/java/jvstm/ParallelNestedTransaction.java:471-474 | the state becomes the flagged state |
| Transaction.Stm.MergeIntoParent | jvstm/src/main/java/jvstm/ParallelNestedTransaction.java:477-519 | the state becomes the merged state and stays well formed |
| Transaction.Stm.CommitMerge | jvstm/src/main/java/jvstm/ParallelNestedTransaction.java:471-521 | the flag is passed on and the merge is done; the backoff is reset to 1 |
| Transaction.Stm.CommitValidated | jvstm/src/main/java/jvstm/ParallelNestedTransaction.java:458-521 | with the reads handed up: a child that read an ancestor's per-transaction value while the parent changed aborts for sequential execution; otherwise it merges |
| Transaction.Stm.TryCommit | jvstm/src/main/java/jvstm/ParallelNestedTransaction.java:447-522 | failed snapshot validation aborts and names an ancestor; a stale array read fails naming the parent, with no change; a stale per-transaction read aborts for sequential execution; otherwise the committed state, backoff 1 |

## Left out

- Concurrency is not modelled. Each operation is one atomic step; the
  parent's monitor held by `tryCommit` and by `getPerTxValue` is implicit.
- A compare-and-swap that loses a race is modelled by the parameter
  `contention`: that many failed attempts, each of which re-reads the
  head. The volatile write of the nested version is an ordinary
  assignment.
- Java's 32-bit `int` counters are unbounded integers here. The backoff
  doubling (line 308) would wrap after 31 doublings, and a negative
  sleep time would then make `Thread.sleep` throw. The commit version
  (line 477) and `parent.nestedVersion++` (line 519) could also wrap.
  No property of the model depends on wrap-around.
- The thread-local backoff is a field of the class. The sleep before the
  abort is left out.
- The block pool is left out: the thread-local pool, the free count and
  the blocks' free flags. A read that needs a new block always gets a
  freshly allocated one. Releasing the blocks on abort and in `cleanUp`
  is left out too.
- `finish`, `doCommit`, `cleanUp`, `makeUnsafeMultithreaded`,
  `makeNestedTransaction`, `commitAndBeginTx` and `Transaction.current`
  are not modelled. They null fields after the commit, throw unsupported
  errors, or belong to the base classes.
- The second constructor is not modelled. It builds the unsafe
  multithreaded variant with an empty version array.
- `OwnershipRecord.ABORTED` is a parameter of the state. The only
  requirement is that it is not 0. `OwnershipRecord` is not part of this
  model.
- The shared `EMPTY_MAP` is modelled as an empty map. A write into it and
  a write into a fresh map are the same here.
- When the parent has no per-transaction values or no array writes,
  `tryCommit` hands it the child's own maps. Later writes then go to both
  through the one map. The model copies values, so that aliasing is not
  captured.
- The parent's write-set is shared with the child by reference at
  creation. The model copies it.
- Hash-map iteration order is not modelled:
  - the commit walks the child's array writes in an order given by the
    `order` parameter, which lists every key once;
  - validation of a nested-read log checks every entry, in no particular
    order.
- The transaction's `number` is a parameter of `Fork`. It comes from the
  base class, which is not part of this model. A new child starts at
  nested version 0.
- Validation.ValidateSlot: skips a read-log slot that is empty, and a
  read of a box the state does not hold. The Java code never stores
  either.
- `Validation.SnapshotValidation` returns the conflicting ancestor, and
  `TryCommit` then aborts. In Java the abort and the throw happen inside
  the validation loops. The resulting state is the same.
- `MergeIntoParent` stamps the child's array entries after the parent's
  write-set is updated. Java stamps each entry inside the propagation
  loop. No other step reads the stamps in between.
- Every box's chain is non-empty, since a box always has an in-place
  write at its head.
- `AbortSpec.AbortWorklist` follows the code: the abort walks the chains
  of the boxes written in place by the PARENT and by the transactions
  merged into the parent. It does not walk the aborting transaction's own
  boxes.
- AbortSpec.AbortChains / Transaction.Stm.ManualAbort /
  Transaction.Stm.SpliceBoxes / Transaction.Stm.SpliceBox: use the corrected unlink (`Chains.Unlink`), not the splice
  loop as written. On a chain whose head run holds two or more nodes of
  the aborting transaction, the loop as written leaves that
  transaction's last node of the run at the head; the model removes the
  whole run. The loop as written is `Chains.SpliceAsWritten` (see
  Findings).

## Findings

| source | as written | input that shows it | evidently intended | confidence | as-written member | corrected member |
|---|---|---|---|---|---|---|
| jvstm/src/main/java/jvstm/ParallelNestedTransaction.java:147-163 | manualAbort starts the new head at the node after the aborting transaction's head node. It advances only while the node after the current one is also owned by the aborting transaction, so it stops one node early | a box the parent reclaimed, whose chain is two nodes of the aborting transaction (one of them from a child that committed into it) over the parent's node: the new head is the aborting transaction's second node | unlink every leading node of the aborting transaction, so that the new head belongs to another transaction (or is the last node) | not executed | Chains.SpliceAsWrittenKeepsOwnHead | Chains.Unlink |
