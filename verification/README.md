# tinydb, modelled and proved in Dafny

tinydb is an embedded SQL engine in Python. Each of its layers has a simple meaning and a mutable,
faster implementation. This project models the layers in Dafny 4.11 and proves that the
implementation computes the meaning, keeps its invariants over every run, or, where it does not,
exactly when it does.

`dafny verify dfyconfig.toml` verifies everything.

## How it is organised

Code that changes state is a class whose methods update fields, arrays of bytes in pages, linked
objects or dictionaries, and whose contracts equate the new state with a function of the old one.
The functions' properties over whole runs are lemmas beside them.

| layer | meaning | state and algorithms |
|---|---|---|
| locks and deadlocks | `WaitForGraph`, `LockProtocol` (a state machine of critical sections), `RealDeadlocks` (recorded edges against blocked calls) | `DeadlockDetector`, `LockManager` |
| B-tree index | `BTreeModel`, `BTreeInsert`, `BTreeRuns` (trees, and runs against a map), `BTreeOverflow` (nodes that must fit their pages), `BTreeReinsert`, `KeyOrder`, `KeyEncoding` | `NodePage`, `NodeIO`, `BTreePages`, `BTreeSplits`, `BTreeIndex` (nodes on 4096-byte pages) |
| joins, ORDER BY, GROUP BY | `Values`, `JoinSpec`, `JoinRows` (when two joins put out the same rows), `JoinColumns` (what ON reads and a row shows, column by column) | `Joins`, `SortMergeJoin`, `JoinPlanner`, `OrderBy`, `Aggregates` |
| tables | `TableSpec`, `TableRuns` (row ids against a dictionary) | `PageHeader`, `SlottedPage`, `PageUpdate`, `RowFormat`, `Table` |
| files and cache | runs inside the modules | `FileManager`, `BufferPool`, `PoolFile` (the pool over the file and its free list); `PageStore` is the idealised store that tables and indexes stand on |
| transactions, versions | `TxnOverlay`, `TxnRuns` (interleavings), `TxnStore` (pages behind them, for one run that goes wrong), `MvccSpec` | `TxnManager`, `MvccManager` (linked version chains) |
| expression parser | `ExprGrammar`, `ExprRoundTrip` | `ExprParser` (a token cursor) |
| INSERT and DELETE with an index | `IndexedTable` (table and index as one database, over runs), `IndexedRuns` (rows against a dictionary) | `DmlOperator` (both on pages of one store) |

`Wrappers`, `ByteCodec` and `RowIds` hold what several layers share.

## Where the code does less than it promises

Each of these is a lemma with an input, and where a condition decides, the exact condition.

- The key limits do not count the length stored with each key. So a leaf of INTEGER or FLOAT keys may hold 253
  entries, but only 225 fit the page (`NodePage.IntegerLeafFitsIff`); such an index never splits and takes a new key
  exactly while fewer than 225 are live, 368 for BOOLEAN (`BTreeOverflow.FixedWidthNeverSplits`,
  `BTreeOverflow.FixedWidthRefinesMap`). The TEXT limits are safe exactly for keys of at most 30 encoded bytes
  (`NodePage.TextLimitsFitIff`, `BTreeOverflow.ShortKeysRun`). INSERT of a row whose entry does not fit stores the row
  without it (`IndexedTable.OverflowHidesRow`); until then every run keeps table and index alike
  (`IndexedTable.FixedRunAgrees`).
- A key that was deleted and is inserted again can be lost to search, at any node limits, those of TEXT among them
  (`BTreeRuns.ReinsertedKeyLost`, `BTreeReinsert.KeyLostAtAnyLimits`, `BTreeReinsert.TextKeyLost`); an absent key is
  found after its insertion exactly when no split promotes an equal separator (`BTreeInsert.FoundIffNotMisplaced`).
- Encoded INTEGER keys do not sort as numbers, although the index is described as ordered: two of them do exactly when
  the smaller one alone is negative, or neither is and their first differing bytes lie in the same half of the byte
  values (`KeyEncoding.NumericOrderIff`, with the instance `KeyEncoding.NotNumericOrder`). The FLOAT -0.0 shares its
  key with another number (`KeyEncoding.NegativeZeroCollides`, `KeyEncoding.KeyRoundTrip`).
- With a self-edge, `detect_cycle` can report a list that is no cycle (`DeadlockDetector.SelfEdgeReportNotACycle`).
- A stale wait-for edge lets `acquire` report a deadlock although nobody waits, and a holder that comes later lets a
  real one go unreported (`LockProtocol.StaleEdgeRefusesWithoutAnyWait`, `LockProtocol.LateHolderHidesDeadlock`). While
  every recorded edge is a wait, a refusal is a deadlock; while every wait is recorded, a deadlock is refused; while
  both hold, acquire refuses exactly the deadlocks (`RealDeadlocks.RefusalIsDeadlock`, `RealDeadlocks.DeadlockIsRefused`,
  `RealDeadlocks.RefusedIffDeadlock`). Over runs in which nobody is granted a page behind the back of a blocked call
  there is never a deadlock (`RealDeadlocks.NeverDeadlocked`). The documentation speaks of aborting the youngest
  transaction of the cycle; the code raises in the requester, and that is what is modelled.
- The hash join treats NULL keys as equal. It combines the same row positions as the nested loop exactly when NULL keys
  occur on at most one side (`JoinPlanner.HashAgreesIff`), and puts out the same rows exactly then, or, for a LEFT join,
  when the only NULL-keyed right row cannot be told from padding (`JoinRows.RowsAgreeIff`, `JoinRows.LeftRowsAgreeIff`).
- With the operands of ON swapped, the hash join pairs every row with every row and agrees with the loop exactly when
  all pairs match (`JoinPlanner.SwappedPairsAll`, `JoinPlanner.SwappedAgreesIff`, on rows `JoinRows.SwappedRowsAgreeIff`,
  with the instance `JoinPlanner.ReversedPairsEverything`).
- JOIN ... USING is a cross product when both tables have fewer than 50 rows, and compares its column otherwise; with
  several columns the hash join finds no partners at all (`JoinColumns.UsingAgreesIff`).
- COUNT of a column counts its NULLs: it is the number of its values exactly when none is NULL
  (`Aggregates.CountSkipsNullsIff`).
- An in-place update leaves the page header promising too much free space, unless the slot was free
  (`PageUpdate.UpdateSoundIff`).
- A page freed twice is handed out twice; freeing keeps the list finite exactly when the page was not on it
  (`FileManager.FreeKeepsListIff`).
- A write to a page that is not cached is lost (`BufferPool.BufferPool.SetPageData`), and a fresh page written to
  disk is hidden by a cached copy of its old bytes (`BufferPool.BufferPool.WriteBehind`).
- A rollback frees shadow pages on disk and leaves their cached copies behind, often dirty. The next flush or eviction
  may write such a copy over the freed page, and its link becomes the free list's: base pages are then handed out as
  shadow pages and written over (`TxnStore.RollbackReachesBase`, `TxnStore.ConcreteRun`), so that transactions are
  neither serial nor without trace (`TxnStore.NeitherSerialNorTraceless`). The list survives the next flush exactly when
  no free page has a dirty cached copy with another link (`PoolFile.FlushKeepsListIff`); a single free keeps it so exactly
  when a dirty copy of the page links to the old head of the list (`PoolFile.FreedQuietIff`). After a rollback everything
  is valid again under just that condition on the pages it freed (`TxnManager.TransactionManager.Rollback`), for instance
  when the pool was flushed before; and every run whose rollbacks meet it is serial and without trace
  (`TxnManager.TransactionManager.ServeAll`).
- Version collection can drop a version that an active snapshot sees; it is invisible to a snapshot exactly when
  the snapshot lists nobody older than every active transaction (`MvccSpec.CollectionInvisibleIff`).
- Backed by an index, the uniqueness check of INSERT refuses every NULL, or in a BOOLEAN column takes it for
  false; scanning, it refuses a second NULL. They agree on NULL exactly when some live row is NULL; in a BOOLEAN column,
  when some live row is false if and only if some is NULL (`IndexedTable.NullChecksAgreeIff`). In a FLOAT column they
  also disagree on -0.0 (`IndexedTable.NegativeZeroChecks`).
- A row too long for any page is refused only after an empty page was chained for it (`TableRuns.InsertMeaning`).

## Model

| member | source | states |
|---|---|---|
| `WaitForGraph.NewCycleIffReaches` | tinydb/concurrency/deadlock_detector.py:14-17 | adding edges from a waiter to the holders of a page closes a cycle in an acyclic graph exactly when some holder already reaches the waiter |
| `WaitForGraph.RankedIsAcyclic` | tinydb/concurrency/deadlock_detector.py:34-52 | a rank that falls along every edge (the order in which a search finishes nodes) rules every cycle out |
| `WaitForGraph.RotateCycle` | tinydb/concurrency/deadlock_detector.py:40-48 | a cycle may be read off from any member, so which member the report starts with does not matter |
| `WaitForGraph.ClearEdgesIsSubgraph` | tinydb/concurrency/deadlock_detector.py:65-75 | clearing a transaction leaves exactly the edges that neither leave nor enter it |
| `DeadlockDetector.ReportIsCycleIff` | tinydb/concurrency/deadlock_detector.py:39-48 | the list reconstructed from a back edge is a genuine cycle exactly when the edge is no self-edge, or the self-waiting transaction also waits for the root of the search |
| `DeadlockDetector.SelfEdgeReportNotACycle` | tinydb/concurrency/deadlock_detector.py:39-48 | an input with a self-edge whose reported list is not a cycle |
| `DeadlockDetector.CycleSearch.Reconstruct` | tinydb/concurrency/deadlock_detector.py:40-48 | following parents from the tail of a back edge yields the list specified by Report |
| `DeadlockDetector.CycleSearch.Dfs` | tinydb/concurrency/deadlock_detector.py:34-52 | the search terminates; None leaves the start node finished with all its successors, and a list is the report of a back edge of the graph |
| `DeadlockDetector.DeadlockDetector.AddWaitEdge` | tinydb/concurrency/deadlock_detector.py:14-17 | adds exactly the one edge |
| `DeadlockDetector.DeadlockDetector.RemoveWaitEdge` | tinydb/concurrency/deadlock_detector.py:19-25 | removes exactly the one edge and keeps no empty entry |
| `DeadlockDetector.DeadlockDetector.DetectCycle` | tinydb/concurrency/deadlock_detector.py:27-59 | None exactly when the graph is acyclic; without self-edges a returned list is a cycle whose consecutive members, and last to first, are edges |
| `DeadlockDetector.DeadlockDetector.ClearTxn` | tinydb/concurrency/deadlock_detector.py:65-75 | removes every edge from or to the transaction and no other |
| `LockProtocol.NextKeepsInv` | tinydb/concurrency/lock_manager.py:37-173 | every atomic step keeps holders compatible (all SHARED or one EXCLUSIVE), the recorded graph acyclic and the bookkeeping consistent |
| `LockProtocol.RunKeepsInv` | tinydb/concurrency/lock_manager.py:37-173 | the invariant holds in every state of every interleaving |
| `LockProtocol.MutualExclusion` | tinydb/concurrency/lock_manager.py:143-159 | in every reachable state two transactions holding one page both hold it SHARED, and the wait-for graph is acyclic |
| `LockProtocol.DeadlockIffHolderReaches` | tinydb/concurrency/lock_manager.py:43-55 | a blocked acquire is refused as a deadlock exactly when some other holder already reaches the requester along recorded edges |
| `LockProtocol.GrantGivesMode` | tinydb/concurrency/lock_manager.py:143-166 | a granted acquire, retry or upgrade leaves the caller holding at least the mode asked for |
| `LockProtocol.NoSuccessNoChange` | tinydb/concurrency/lock_manager.py:37-134 | a step that is refused, has to wait or is reported as a deadlock leaves every lock as it was, the caller's own among them |
| `LockProtocol.OnlyReleaseTakes` | tinydb/concurrency/lock_manager.py:37-134 | no step takes a lock away or weakens it, its own transaction's steps included, except the release of that lock |
| `LockProtocol.OnlyGrantsGive` | tinydb/concurrency/lock_manager.py:143-166 | a lock appears or grows only by a grant of it to its transaction |
| `LockProtocol.QueueSteps` | tinydb/concurrency/lock_manager.py:56-98 | a call that has to wait joins the end of its page's queue; a timeout or release takes its transaction's calls out; nothing else changes a queue |
| `LockProtocol.OthersKeepMyLock` | tinydb/concurrency/lock_manager.py:89-134 | no step of another transaction takes away or weakens a lock |
| `LockProtocol.GrantedUntilReleased` | tinydb/concurrency/lock_manager.py:37-121 | over any run a granted lock is held until its owner releases that page |
| `LockProtocol.StaleEdge` | tinydb/concurrency/lock_manager.py:69-76 | a run after which an edge to a former holder is still recorded, because only edges to current holders are removed after a grant |
| `LockProtocol.StaleEdgeRefusesWithoutAnyWait` | tinydb/concurrency/lock_manager.py:43-55 | from that state a request is refused as a deadlock although no call is blocked |
| `LockProtocol.LateHolderHidesDeadlock` | tinydb/concurrency/lock_manager.py:43-61 | a run in which two transactions block each other while the recorded graph stays acyclic: holders that come later get no edge |
| `RealDeadlocks.RefusalIsDeadlock` | tinydb/concurrency/lock_manager.py:43-55 | when every recorded edge is a wait, a refused request closes a cycle of blocked calls |
| `RealDeadlocks.DeadlockIsRefused` | tinydb/concurrency/lock_manager.py:43-55 | when every wait has its recorded edge, a request that closes a cycle of blocked calls is refused |
| `RealDeadlocks.RefusedIffDeadlock` | tinydb/concurrency/lock_manager.py:43-55 | in every reachable state whose edges are exactly the waits, acquire refuses exactly the deadlocks |
| `RealDeadlocks.TrackedIffOrderly` | tinydb/concurrency/lock_manager.py:37-134 | a step leaves every wait recorded exactly when it makes nobody wait for a new holder without an edge to it and removes no edge that is a wait |
| `RealDeadlocks.GrantTracked` | tinydb/concurrency/lock_manager.py:43-61 | a grant leaves every wait recorded exactly when each blocked call that waits for the new holder afterwards has the edge to it |
| `RealDeadlocks.NeverDeadlocked` | tinydb/concurrency/lock_manager.py:37-134 | over every run of such orderly steps the blocked calls never wait in a cycle |
| `RealDeadlocks.LateHolderOvertakes` | tinydb/concurrency/lock_manager.py:43-61 | the late holder's run ends in an unrecorded deadlock and is not orderly |
| `RealDeadlocks.StaleRefusalIsNoDeadlock` | tinydb/concurrency/lock_manager.py:69-76 | the refusal caused by the stale edge closes no cycle of blocked calls |
| `LockManager.OwnRequest` | tinydb/concurrency/lock_manager.py:149-154 | a holder's own request is grantable exactly for SHARED, an already EXCLUSIVE lock, or the only holder |
| `LockManager.ForeignConflict` | tinydb/concurrency/lock_manager.py:155-156 | a conflicting foreign holder rules the grant out in whatever order the holders are walked |
| `LockManager.GrantableIff` | tinydb/concurrency/lock_manager.py:143-166 | a request can be granted exactly when its transaction holds enough already, or it asks to read and all other holders read |
| `LockManager.LockManager.Decide` | tinydb/concurrency/lock_manager.py:143-159 | the walk over the holders grants exactly the compatible requests |
| `LockManager.LockManager.TryAcquire` | tinydb/concurrency/lock_manager.py:143-166 | grants in place exactly when grantable, else changes nothing |
| `LockManager.LockManager.AcquireEnter` | tinydb/concurrency/lock_manager.py:37-61 | takes the protocol's Enter step; refusal exactly when a holder reaches the requester, with a genuine cycle of the enlarged graph |
| `LockManager.LockManager.AcquireRetry` | tinydb/concurrency/lock_manager.py:64-68 | takes the protocol's Retry step |
| `LockManager.LockManager.AfterGrant` | tinydb/concurrency/lock_manager.py:69-76 | removes the edges to the current holders and no others |
| `LockManager.LockManager.AcquireTimeOut` | tinydb/concurrency/lock_manager.py:77-87 | takes the protocol's timeout step: the calls of the transaction leave the queue |
| `LockManager.LockManager.AfterTimeOut` | tinydb/concurrency/lock_manager.py:83-86 | removes exactly the edge to one holder; between two removals other threads may act |
| `LockManager.LockManager.Release` | tinydb/concurrency/lock_manager.py:89-111 | takes the protocol's Release step |
| `LockManager.LockManager.ReleaseAll` | tinydb/concurrency/lock_manager.py:113-121 | afterwards the transaction holds nothing and every other lock is as before |
| `LockManager.LockManager.Upgrade` | tinydb/concurrency/lock_manager.py:123-134 | succeeds exactly for the only holder, who then holds the page EXCLUSIVE; a refusal leaves every lock as it was, the caller's SHARED one among them |
| `BTreeModel.SearchFinds` | tinydb/index/btree.py:264-281 | in a well-formed tree, search returns exactly the pointers the leaves hold for the key, at most one |
| `BTreeModel.HasWithinBounds` | tinydb/index/btree.py:264-281 | every stored key lies within the separators around its subtree |
| `BTreeModel.SplitWF` | tinydb/index/btree.py:228-262 | splitting a full node yields two well-formed halves on either side of the separator |
| `BTreeModel.SplitHas` | tinydb/index/btree.py:228-262 | splitting loses no pair and invents none |
| `BTreeModel.SplitHalves` | tinydb/index/btree.py:228-262 | a split divides the entries in the middle, the separator being the first key on the right, or for an inner node the middle key, which moves up |
| `BTreeModel.SplitChildWF` | tinydb/index/btree.py:228-262 | splitting a full child inside its parent keeps the tree sorted, bounded, balanced and within the limits |
| `BTreeModel.SplitChildHas` | tinydb/index/btree.py:228-262 | splitting a child keeps the set of stored pairs |
| `BTreeInsert.InsertHas` | tinydb/index/btree.py:109-154 | insertion adds exactly the new pair to what the leaves hold |
| `BTreeInsert.InsertNonfullWF` | tinydb/index/btree.py:193-226 | inserting an absent key below a node that is not full keeps the subtree well-formed |
| `BTreeInsert.InsertWF` | tinydb/index/btree.py:109-154 | inserting an absent key that no split promotes keeps sortedness, bounds, equal leaf depth and key limits |
| `BTreeInsert.FoundIffNotMisplaced` | tinydb/index/btree.py:193-226 | after inserting an absent key search finds it exactly when no split on the way down promotes an equal separator |
| `BTreeInsert.LostIfPromoted` | tinydb/index/btree.py:219-226 | an inserted key equal to a separator promoted on its way goes left of it, where search does not look |
| `BTreeInsert.PromotedOccurs` | tinydb/index/btree.py:228-262 | a promoted key already occurs in the tree as a key or separator |
| `BTreeRuns.DeleteHas` | tinydb/index/btree.py:283-301 | lazy deletion removes exactly the pair |
| `BTreeRuns.DeleteWF` | tinydb/index/btree.py:283-301 | deletion keeps the tree well-formed |
| `BTreeRuns.InsStep` | tinydb/index/btree.py:109-154 | one insertion of a key that occurs nowhere keeps the tree equal to a map with the key added |
| `BTreeRuns.DelStep` | tinydb/index/btree.py:188-191 | one deletion keeps the tree equal to the map without the pair |
| `BTreeRuns.RunInvariant` | tinydb/index/btree.py:109-301 | over every run inserting no key twice the tree stands for the map and is balanced and within limits |
| `BTreeRuns.SearchRefinesMap` | tinydb/index/btree.py:109-154 | over every run inserting no key twice, search returns exactly the pointer inserted and not deleted, else the empty list; every reached tree is sorted, bounded, balanced and within the limits |
| `BTreeRuns.ReinsertedKeyLost` | tinydb/index/btree.py:219-226 | a run of five inserts and a delete, two keys to a node, after which the deleted key is inserted again and not found |
| `BTreeReinsert.KeyLostAtAnyLimits` | tinydb/index/btree.py:219-226 | for every node limits and every long enough list of ascending keys: after inserting some of them and deleting one, search finds it neither before nor after it is inserted again |
| `BTreeReinsert.TextKeyLost` | tinydb/index/btree.py:219-226 | in particular with the limits computed for TEXT, texts of three characters and no page overflowing |
| `NodePage.TextLimits` | tinydb/index/btree.py:60-85 | the computed limits: 101 and 112 for TEXT, 253 and 338 for INTEGER |
| `NodePage.TextLimitsFitIff` | tinydb/index/btree.py:80-85 | the TEXT limits are safe exactly for encoded keys of at most 30 bytes: a stored key also costs a 2-byte length that is not counted |
| `NodePage.IntegerLeafFitsIff` | tinydb/index/btree.py:80-85 | a leaf of 8-byte keys fits its page exactly up to 225 entries although 253 are allowed |
| `NodePage.FitsIff` | tinydb/index/btree.py:379-421 | a node fits its page exactly when the lengths of its keys, with 10 bytes beside each in a leaf and 6 in an inner node, leave room |
| `BTreeOverflow.PutEntryMeaning` | tinydb/index/btree.py:193-226 | an insertion is the functional one when every node written fits; when the leaf is too long every search answers as before |
| `BTreeOverflow.FixedWidthNeverSplits` | tinydb/index/btree.py:109-154 | over every run an index of INTEGER, FLOAT or BOOLEAN keys with its own limits stays one leaf: its page is full before the limit is reached |
| `BTreeOverflow.FixedWidthRefinesMap` | tinydb/index/btree.py:109-162 | while fewer than 225 keys (368 for BOOLEAN) are live at each insertion such an index refines the map, and the next key is taken exactly while there is room |
| `BTreeOverflow.ShortKeysRun` | tinydb/index/btree.py:80-85 | over every run with keys no longer than the limits allow for, nothing overflows |
| `NodeIO.PackNode` | tinydb/index/btree.py:379-421 | the bytes written are the specified page image of the node |
| `NodeIO.ReadNode` | tinydb/index/btree.py:334-377 | parsing the image of any node that fits recovers exactly that node |
| `NodeIO.NodeLayout` | tinydb/index/btree.py:379-421 | where an image carries its header, kind, count and body |
| `BTreePages.Frame` | tinydb/index/btree.py:88-107 | the tree read from a page depends only on the pages of its footprint |
| `BTreePages.ChildRewritten` | tinydb/index/btree.py:193-226 | rewriting one child's pages, taking only fresh ones, changes the parent's tree at that child and nowhere else |
| `BTreeSplits.SplitStored` | tinydb/index/btree.py:228-262 | the three page writes of a child split are the functional split, and no page is shared by two nodes |
| `BTreeSplits.RootSplitStored` | tinydb/index/btree.py:113-148 | the writes of a root split grow the tree by one level over the two halves |
| `BTreeIndex.BTreeIndex.constructor` | tinydb/index/btree.py:91-103 | a new index, with any limits, is one empty leaf on a fresh page |
| `BTreeIndex.BTreeIndex.PersistNode` | tinydb/index/btree.py:379-421 | stores the node's image on its page exactly if it fits; every other page, and all pages when it does not fit, stay as they are |
| `BTreeIndex.BTreeIndex.ReadNode` | tinydb/index/btree.py:334-377 | reads back the node stored on the page |
| `BTreeIndex.BTreeIndex.SplitChild` | tinydb/index/btree.py:228-262 | splits a full child on its pages, taking one fresh page; fails exactly when the parent is too long with the separator |
| `BTreeIndex.BTreeIndex.InsertNonfull` | tinydb/index/btree.py:193-226 | the recursive page-level insertion computes the specified one, with the outcome specified |
| `BTreeIndex.BTreeIndex.Insert` | tinydb/index/btree.py:109-154 | the outcome is the one specified; when all nodes fit, the tree on the pages becomes the functional insertion into the old tree, when the leaf is too long, the tree with the splits on the way alone; other owners' pages keep their bytes |
| `BTreeIndex.BTreeIndex.Search` | tinydb/index/btree.py:156-159 | returns what the functional search returns on the tree on the pages |
| `BTreeIndex.BTreeIndex.Delete` | tinydb/index/btree.py:188-191 | the tree on the pages becomes the functional deletion; other owners' pages keep their bytes |
| `KeyEncoding.KeyRoundTrip` | tinydb/index/btree.py:34-57 | for every value of every column type decoding undoes encoding, except exactly of -0.0 and the NaNs with a sign |
| `KeyEncoding.KeyInjective` | tinydb/index/btree.py:11-31 | different values of a column, those doubles aside, have different keys |
| `KeyEncoding.NegativeZeroCollides` | tinydb/index/btree.py:21-26 | -0.0 has the key of a large negative number and not that of 0.0 |
| `KeyEncoding.FloatEqualIffKeys` | tinydb/index/btree.py:21-26 | two doubles, one of them a number and neither -0.0 or a NaN with a sign, are equal exactly when their keys are |
| `KeyEncoding.NegativesFirst` | tinydb/index/btree.py:12-18 | every negative integer sorts before every other |
| `KeyEncoding.NegativesReversed` | tinydb/index/btree.py:14-16 | among themselves negative integers sort backwards |
| `KeyEncoding.OthersOrderedIff` | tinydb/index/btree.py:17-18 | two integers that are not negative sort as numbers exactly when at their first differing byte both bytes are below 128 or both are not |
| `KeyEncoding.NumericOrderIff` | tinydb/index/btree.py:12-18 | for all pairs of int64 numbers, exactly when their keys sort as the numbers do |
| `KeyEncoding.NotNumericOrder` | tinydb/index/btree.py:17-18 | the instance 128 before 127 |
| `KeyOrder.StrictTotalOrder` | tinydb/index/btree.py:264-281 | byte strings are strictly and totally ordered |
| `KeyOrder.PositionSeparates` | tinydb/index/btree.py:272-277 | in a sorted node the scan separates the keys at most k from those above |
| `JoinSpec.JoinExact` | tinydb/sql/executor.py:143-198 | the join output contains each matching pair and each unmatched row the join type keeps, once, and nothing else |
| `JoinSpec.JoinKeeps` | tinydb/sql/executor.py:143-198 | LEFT and FULL keep left rows without partners, RIGHT and FULL right ones, and no other type keeps any |
| `JoinSpec.JoinOrdered` | tinydb/sql/executor.py:143-198 | left rows come in order, for each its partners in order, and right rows without partners last |
| `JoinSpec.ExactSameBag` | tinydb/sql/executor.py:297-343 | two outputs with that property for one relation are equal as bags |
| `JoinSpec.SameJoinIffAgree` | tinydb/sql/executor.py:143-198 | two joins coincide exactly when their match relations do |
| `Joins.NestedLoopJoin` | tinydb/sql/executor.py:143-198 | outputs the rendered join of its match relation, unmatched rows padded where the join type keeps them; which pairs match is JoinColumns.OnDecides |
| `JoinColumns.NoConditionCombinesAll` | tinydb/sql/executor.py:143-198 | with no ON condition every pair of rows is combined, left row by left row, for every join type; with one table empty only an outer join has rows, those of the other |
| `JoinColumns.OnDecides` | tinydb/sql/executor.py:155-190 | a pair is combined exactly when ON holds: any test, of a row that reads each name as stated (right prefix, left prefix, left column, right column); an equality, of the two columns read; one of a name with itself, of all join keys; NULL equals nothing |
| `JoinColumns.PairReads` | tinydb/sql/executor.py:53-78 | a combined row shows each column of both tables under its name, or, if both have it, under its table's alias or name and an underscore; of one name the right table's last column wins |
| `JoinColumns.LeftOnlyReads` | tinydb/sql/executor.py:80-112 | a left row without partners shows its own columns so, and NULL for all columns of the right table |
| `JoinColumns.RightOnlyReads` | tinydb/sql/executor.py:80-112 | a right row without partners shows its own columns alone, under their own names |
| `JoinColumns.UsingAgreesIff` | tinydb/sql/planner.py:93-132 | JOIN ... USING has no ON: the nested loop combines all pairs and the hash join compares a single key and pairs nothing for several, so the choice is invisible exactly when all pairs are equal in a single key |
| `Joins.HashJoin` | tinydb/sql/executor.py:247-274 | outputs the rendered join of equality of hash keys, in the same order |
| `Joins.BuildTable` | tinydb/sql/executor.py:249-254 | each bucket lists exactly the right rows with its key, in order |
| `JoinPlanner.RunJoin` | tinydb/sql/planner.py:114-151 | the output is the rendered join of the hash relation exactly when there are join keys, the type is not CROSS and one table has 50 rows or more, and otherwise of the loop relation |
| `JoinPlanner.LoopComparesColumns` | tinydb/sql/executor.py:143-198 | on an oriented equality the nested loop compares the two named columns as SQL does |
| `JoinPlanner.HashComparesColumns` | tinydb/sql/executor.py:31-51 | the hash join compares them as Python does, where None equals None |
| `JoinPlanner.HashAgreesIff` | tinydb/sql/executor.py:247-274 | for every join type both joins combine and pad the rows at the same positions exactly when NULL keys occur on at most one side |
| `JoinPlanner.ChoiceInvisible` | tinydb/sql/planner.py:114-132 | then the size-based choice never changes a two-table result, order included |
| `JoinRows.SameOutputIff` | tinydb/sql/executor.py:53-112 | two joins of the same tables, one finding more matches, put out the same rows exactly if they do for each left row and leave the same right rows over |
| `JoinRows.RowsAgreeIff` | tinydb/sql/executor.py:247-274 | on rows, for every join type: exactly when NULL keys occur on at most one side, or a LEFT join's NULL-keyed rows meet a single right row and look padded with it |
| `JoinRows.LooksPaddedIff` | tinydb/sql/executor.py:53-112 | a combined row looks padded exactly when its right row is all NULL, unless a column name is captured |
| `JoinRows.LeftRowsAgreeIff` | tinydb/sql/executor.py:247-274 | so for a LEFT join exactly when NULL keys occur on at most one side, or the only NULL-keyed right row is all NULL |
| `JoinPlanner.SwappedPairsAll` | tinydb/sql/planner.py:93-112 | for every ON that names a column of the right table first and of the left table second the hash join pairs all rows, and agrees with the loop exactly when that does |
| `JoinPlanner.SwappedAgreesIff` | tinydb/sql/planner.py:93-112 | which is exactly when all pairs of rows are equal in the columns named, for every join type |
| `JoinRows.SwappedRowsAgreeIff` | tinydb/sql/planner.py:93-112 | on rows: or when a LEFT join meets a single right row that is all NULL |
| `JoinPlanner.ReversedPairsEverything` | tinydb/sql/planner.py:93-112 | an instance: ON uid = id for tables that have id on the left and uid on the right |
| `SortMergeJoin.MergeSorted` | tinydb/sql/executor.py:309-343 | on sorted inputs the merge outputs exactly the nested loop's join of equal keys |
| `SortMergeJoin.SortMerge` | tinydb/sql/executor.py:297-343 | over non-NULL comparable keys, the same bag of rows as the nested loop for all join types and any runs of duplicates |
| `OrderBy.SortStep` | tinydb/sql/executor.py:460-463 | one more stable sort by a more significant key refines the order so far |
| `OrderBy.Sort` | tinydb/sql/executor.py:457-471 | a permutation of the rows, ordered lexicographically with each key's direction, NULLs lowest, ties in input order |
| `OrderBy.BeforeMeans` | tinydb/sql/executor.py:457-471 | what the order means: NULL below all values, numbers as integers, texts by the first byte that differs, each the other way round for DESC; rows equal in all keys as they came |
| `Values.StableSort` | tinydb/sql/executor.py:457-464 | a stable sort of one key, ascending or descending |
| `Aggregates.FoldMeaning` | tinydb/sql/executor.py:425-447 | accumulating the rows of a group gives: COUNT their number, SUM and AVG the total and mean of the numbers among the values |
| `Aggregates.ResultMeans` | tinydb/sql/executor.py:425-447 | the result of a group: COUNT its number of rows, SUM the sum of the values that are not NULL, AVG that sum over their number, NULL when there are none |
| `Aggregates.CountSkipsNullsIff` | tinydb/sql/executor.py:425-427 | the final COUNT over any column is the number of its values that are not NULL exactly when there are rows and none is NULL; it is always the number of rows |
| `Aggregates.GroupsPartition` | tinydb/sql/executor.py:394-397 | every row is counted in exactly one group |
| `Aggregates.FirstSeenExact` | tinydb/sql/executor.py:394-397 | the groups are the keys that occur, each once |
| `Aggregates.TakeRow` | tinydb/sql/executor.py:394-405 | one pass of the loop changes the states of the row's own group alone |
| `Aggregates.Aggregate` | tinydb/sql/executor.py:391-420 | one result per key in order of first appearance, with the aggregates of exactly the rows of that key |
| `RowFormat.EncodeNullFlags` | tinydb/row_format.py:28-40 | bit i of the bitmap is set exactly when column i is NULL, and no padding bit is |
| `RowFormat.BitmapUnique` | tinydb/row_format.py:28-40 | there is one bitmap for given flags |
| `RowFormat.DecodeNullFlags` | tinydb/row_format.py:43-51 | reads the flags back bit by bit |
| `RowFormat.SerializeRow` | tinydb/row_format.py:54-81 | writes the specified image: bitmap, count, the fields that are not NULL; never empty |
| `RowFormat.I64Value` | tinydb/row_format.py:54-81 | an integer takes eight bytes, least significant first, negative ones counted down from 2^64 |
| `RowFormat.DeserializeRow` | tinydb/row_format.py:84-127 | reads as Decode specifies, on any bytes, including truncated ones |
| `RowFormat.DecodeExact` | tinydb/row_format.py:84-127 | when reading any bytes succeeds, and with what row: bitmap and count there, no more columns counted than the table has, each field read behind the one before; numbers must be complete, a text may be cut off by the end of the data, and bytes behind the last field do not matter |
| `RowFormat.DecodeImage` | tinydb/row_format.py:84-127 | reading back what was written yields the row, for any pattern of NULLs and any schema below 65536 columns |
| `RowFormat.ImageExact` | tinydb/row_format.py:54-81 | a row has one image and an image belongs to one row |
| `PageHeader.ParsePack` | tinydb/page.py:72-103 | parsing a packed header gives the header back |
| `PageHeader.HeaderLayout` | tinydb/page.py:72-90 | at which byte a packed header has each field, and how a page type is written |
| `ByteCodec.LittleEndian` | tinydb/page.py:72-90 | numbers have their least significant byte first |
| `SlottedPage.InsertRows` | tinydb/page.py:121-152 | inserting appends the row under the next slot, keeps every other row and the page invariant (exact counters, disjoint extents above the slot array) |
| `SlottedPage.FreeRows` | tinydb/page.py:170-191 | deleting frees one slot, keeps every other row and the page invariant |
| `SlottedPage.LinkRows` | tinydb/table.py:64-77 | relinking a page changes its link and no row |
| `SlottedPage.EmptyRows` | tinydb/page.py:52-69 | a fresh page is sound, empty and promises 4064 bytes |
| `SlottedPage.Page.InsertRow` | tinydb/page.py:121-152 | succeeds exactly when row and slot entry fit the free space; then the rows are the old ones and the new one, else the page is unchanged |
| `SlottedPage.Page.GetRow` | tinydb/page.py:155-167 | the row of a slot, nothing for a freed or unknown slot |
| `SlottedPage.Page.DeleteRow` | tinydb/page.py:170-191 | an unknown slot is an error; otherwise exactly that slot is freed |
| `PageUpdate.UpdateShows` | tinydb/table.py:170-195 | one in-place update whose row fits the gap shows the new row under its slot and every other row unchanged |
| `PageUpdate.UpdateSoundIff` | tinydb/table.py:172-193 | after it the page is sound exactly when the slot held no row; otherwise the header promises the old length too much |
| `TableSpec.ScanExact` | tinydb/table.py:94-122 | the scan shows exactly what the row ids denote |
| `TableSpec.ScanInOrder` | tinydb/table.py:94-122 | the scan follows the chain, and each page by slot |
| `TableSpec.ScanOnce` | tinydb/table.py:94-122 | each row id is shown at most once |
| `TableRuns.InsertMeaning` | tinydb/table.py:30-92 | an insertion issues one row id never issued before and changes no other; it raises exactly when no page has room and the row is too long even for an empty page, and then shows nothing |
| `TableRuns.DeleteMeaning` | tinydb/table.py:136-146 | a deletion makes exactly one id denote nothing |
| `TableRuns.RunMeaning` | tinydb/table.py:30-146 | over every run the ids denote what a dictionary driven by the same requests holds, and no id is returned twice |
| `TableRuns.RunScan` | tinydb/table.py:94-146 | over every run the scan shows each live row exactly once, in chain order, under the id its insertion returned |
| `Table.PageRewritten` | tinydb/table.py:84-90 | rewriting one page of the chain changes the table at that page alone |
| `Table.ChainExtended` | tinydb/table.py:59-82 | linking a fresh empty page behind the last extends the chain by it |
| `Table.Table.FindRoom` | tinydb/table.py:43-57 | the walk stops at the first page of the chain with room |
| `Table.Table.Extend` | tinydb/table.py:59-82 | chains one fresh page; no row and no other page changes |
| `Table.Table.InsertRow` | tinydb/table.py:30-92 | the stored chain becomes the specified first-fit insertion, with its row id or error; pages of other owners keep their bytes |
| `Table.Table.GetRow` | tinydb/table.py:127-134 | the row the id denotes |
| `Table.Table.DeleteRow` | tinydb/table.py:136-146 | the stored chain becomes the specified deletion; an id never issued is an error |
| `Table.Table.ScanRows` | tinydb/table.py:94-122 | the specified scan of the stored chain |
| `FileManager.AllocSane` | tinydb/file_manager.py:95-110 | allocation returns a page not in use and keeps the free list finite, duplicate-free, in range and disjoint from the pages in use |
| `FileManager.FreeSane` | tinydb/file_manager.py:112-141 | freeing a page in use puts it in front of the list |
| `FileManager.ReleaseIff` | tinydb/file_manager.py:112-141 | a page can be freed exactly if it is in the file, not page 0, and its type byte is one of the three types or zero, as in a page never written |
| `FileManager.AllocThenFree` | tinydb/file_manager.py:95-141 | a page just allocated can be freed at once, which gives the list back, or a list of that page alone |
| `FileManager.Conservation` | tinydb/file_manager.py:95-152 | pages in use, free pages and the header page make up the file |
| `FileManager.RunHealthy` | tinydb/file_manager.py:95-152 | over every run of alloc, free and write that frees and writes only pages in use, both hold |
| `FileManager.EveryRun` | tinydb/file_manager.py:154-160 | in particular over every run from a new file |
| `FileManager.FreeKeepsListIff` | tinydb/file_manager.py:112-141 | freeing leaves a finite duplicate-free list exactly when the page was not on it |
| `FileManager.FreedTwice` | tinydb/file_manager.py:95-141 | a page freed twice is handed out twice |
| `FileManager.FileManager.AllocPage` | tinydb/file_manager.py:95-110 | never a page in use; other pages keep their bytes; the file grows only when the list is empty |
| `FileManager.FileManager.FreePage` | tinydb/file_manager.py:112-141 | the specified free, with page 0, pages out of range and unknown page types refused; of a page in use the list stays sane, of a page that was free no list is left |
| `FileManager.FileManager.WritePage` | tinydb/file_manager.py:78-93 | writes any page, growing the file when needed; a negative id or a wrong size is refused; only a write to a free page can break the list |
| `FileManager.FileManager.ReadPage` | tinydb/file_manager.py:65-76 | the bytes of the page, or out of range |
| `BufferPool.BufferPool.EvictOne` | tinydb/buffer_pool.py:162-174 | throws out the page used longest ago among those not pinned, writing it back when dirty; fails exactly when all are pinned; nobody sees a difference, and the disk changes only by dirty pages |
| `BufferPool.BufferPool.LeastUsed` | tinydb/buffer_pool.py:162-166 | the first unpinned page in the order is the least recently used one |
| `BufferPool.BufferPool.InsertPage` | tinydb/buffer_pool.py:148-160 | evicts until there is room unless pinned; the view is unchanged |
| `BufferPool.BufferPool.GetPage` | tinydb/buffer_pool.py:54-86 | returns what is cached or else on disk and makes it the last used; succeeds exactly when the page is cached, or is on disk and parses and fewer cached pages are pinned than the pool holds; which error occurs otherwise; nobody sees a difference |
| `BufferPool.BufferPool.SetPageData` | tinydb/buffer_pool.py:94-99 | the view changes at the page if it is cached; for any other page the bytes are lost |
| `BufferPool.BufferPool.MarkDirty` | tinydb/buffer_pool.py:88-92 | the view is unchanged |
| `BufferPool.BufferPool.Pin` | tinydb/buffer_pool.py:101-117 | the page is cached, pinned and last used, or does not exist or parse |
| `BufferPool.BufferPool.Unpin` | tinydb/buffer_pool.py:124-127 | removes the pin |
| `BufferPool.BufferPool.Flush` | tinydb/buffer_pool.py:133-144 | afterwards nothing is dirty, every dirty page is on disk, and the disk holds what the users see |
| `BufferPool.BufferPool.WriteBehind` | tinydb/table.py:79-82 | a read of a page written to disk past the pool returns its new bytes exactly if the pool has no other copy of it |
| `BufferPool.BufferPool.ServeAll` | tinydb/buffer_pool.py:54-144 | over any run of requests, while nobody writes past the pool, every answered read returns the bytes last set for its page or else the disk's, as a plain map would; while pages parse and pins leave room, no request for an existing page is refused |
| `PoolFile.FlushKeepsListIff` | tinydb/buffer_pool.py:133-144 | the free list survives the next flush exactly when no free page has a dirty cached copy with another link |
| `PoolFile.SpilledKeepsList` | tinydb/buffer_pool.py:162-174 | while that is so, it survives every eviction, and stays so |
| `PoolFile.FreedQuietIff` | tinydb/file_manager.py:112-141 | freeing a page in use leaves the list on disk sound, and safe from later flushes exactly when a dirty cached copy of the page links to the old head of the list |
| `PoolFile.PagedFile.AllocPage` | tinydb/file_manager.py:95-110 | beneath the pool: a page not in use, taken off the list on disk or added at the end, with the list as safe as before and no page in the view changed |
| `PoolFile.PagedFile.FreePage` | tinydb/file_manager.py:112-141 | frees a page in use past the pool; the list is sound on disk, and safe from the pool under the condition of FreedQuietIff; other pages keep their bytes |
| `PoolFile.PagedFile.GetPage` | tinydb/buffer_pool.py:54-86 | a read, with any evictions it causes, keeps the free list and shows the page as last written; when it succeeds, and which error occurs otherwise |
| `PoolFile.PagedFile.NewPage` | tinydb/table.py:79-82 | a page allocated and written past the pool: if the pool has no old copy of it, one page more with these bytes, as PageStore has it; a read returns them exactly then, or if the copy is equal |
| `PoolFile.PagedFile.SetPageData` | tinydb/transaction/shadow_paging.py:44-48 | the cached copy of a page in use changes, and no other page; the free list stays safe |
| `PoolFile.PagedFile.Adopt` | tinydb/transaction/shadow_paging.py:85-94 | writes a page to disk and replaces its cached copy, whatever that was |
| `PoolFile.PagedFile.Install` | tinydb/transaction/txn_manager.py:71-79 | flush, copies on disk and an emptied cache show every page as it was, but with the shadows in place of their originals; the free list stays as it was |
| `TxnOverlay.ShadowWritten` | tinydb/transaction/shadow_paging.py:44-48 | overwriting a shadow page changes its transaction's view at that page, and neither the base nor any other view |
| `TxnOverlay.ShadowAdded` | tinydb/transaction/shadow_paging.py:76-96 | a new shadow page shows nobody anything |
| `TxnOverlay.CopiedMeaning` | tinydb/transaction/txn_manager.py:72-74 | copying a transaction's shadow pages over their originals makes its view the base; the others keep their own pages |
| `TxnOverlay.UnusedPages` | tinydb/transaction/txn_manager.py:92-93 | pages that are only one transaction's shadow pages matter to nobody else |
| `TxnOverlay.MorePages` | tinydb/transaction/shadow_paging.py:76-96 | pages that are added matter to nobody |
| `TxnRuns.Serial` | tinydb/transaction/txn_manager.py:41-97 | over every interleaving of these steps the base is what the committed transactions leave when played one after the other in the order of their commits; the code takes these steps while every rollback leaves the free list safe (TransactionManager.ServeAll), and not always otherwise (NeitherSerialNorTraceless) |
| `TxnRuns.NoTrace` | tinydb/transaction/txn_manager.py:87-97 | over every run of these steps, what a transaction that does not commit did leaves no trace in the base or in what others wrote; of the code it holds under the same condition, and not always otherwise |
| `TxnRuns.ReadsOverlay` | tinydb/transaction/shadow_paging.py:28-33 | in the state that pages and shadow pages stand for, a transaction reads its overlay |
| `TxnManager.TransactionManager.Begin` | tinydb/transaction/txn_manager.py:41-64 | a fresh id whose view is the base; other views are unchanged; the run's Begin step |
| `TxnManager.TransactionManager.ResolveTxn` | tinydb/transaction/txn_manager.py:132-142 | the named transaction, or the only one, and when neither exists |
| `TxnManager.TransactionManager.GetPage` | tinydb/transaction/shadow_paging.py:28-33 | reads the transaction's overlay; succeeds exactly when its page, the shadow or else the base page, can be read, and with which error otherwise |
| `TxnManager.TransactionManager.EnsureShadow` | tinydb/transaction/shadow_paging.py:76-96 | allocates a page, which is nobody's, and makes it the cached shadow, without changing any view; succeeds exactly if there is a shadow already or the base page can be read |
| `TxnManager.TransactionManager.WritePage` | tinydb/transaction/shadow_paging.py:44-48 | succeeds exactly when the page can be read; then the write shows to the transaction alone; base and other views are unchanged; the run's Write step |
| `TxnManager.TransactionManager.CommitTxn` | tinydb/transaction/txn_manager.py:66-85 | the base becomes the transaction's view, on disk too; others keep their own pages and see the new base elsewhere; the run's Commit step |
| `TxnManager.TransactionManager.Commit` | tinydb/transaction/txn_manager.py:66-85 | commit with its error cases, which change nothing; the run's Commit step |
| `TxnManager.TransactionManager.FreeShadows` | tinydb/transaction/txn_manager.py:92-93 | succeeds exactly if all shadow pages have a known type; the free list then takes in exactly them; all other pages keep their bytes |
| `TxnManager.TransactionManager.Rollback` | tinydb/transaction/txn_manager.py:87-97 | the base and what every other transaction sees stay as they were; the run's Rollback step; the free list is sound on disk, and all is valid again exactly when no page freed has a dirty cached copy that links elsewhere than the page on disk |
| `TxnManager.TransactionManager.Serve` | tinydb/transaction/txn_manager.py:41-97 | one request: begin is never refused, a write is made exactly if its transaction is active and the page can be read, commit and rollback exactly if the transaction is resolved; the state takes the step |
| `TxnManager.TransactionManager.ServeAll` | tinydb/transaction/txn_manager.py:41-97 | any run of requests, stopped by the first rollback that is not clean, takes the steps of TxnRuns on the pages, allocator and evictions included: the base is their replay, and a transaction that does not commit has left no trace in it; while pages parse and pins leave room, the writes made are those of the transactions active at the time |
| `TxnStore.RollbackReachesBase` | tinydb/transaction/txn_manager.py:87-97 | a run on any file whose list is empty: a page written and rolled back, a commit that flushes, two more writes; the last goes to a base page, which every reader then sees changed |
| `TxnStore.NeitherSerialNorTraceless` | tinydb/transaction/txn_manager.py:41-97 | on that run the base is not the replay of the committed transactions, and is not what it is without the steps of the transaction rolled back |
| `TxnStore.ConcreteRun` | tinydb/transaction/txn_manager.py:41-97 | an instance on a file of three pages |
| `MvccSpec.CollectionInvisibleIff` | tinydb/concurrency/mvcc_manager.py:58-100 | collection leaves every chain looking the same to a snapshot exactly when the snapshot lists nobody older than all active transactions |
| `MvccSpec.CommitHidesVersion` | tinydb/concurrency/mvcc_manager.py:91-100 | a version an active snapshot sees is collected after its creator commits |
| `MvccSpec.MarkedSeen` | tinydb/concurrency/mvcc_manager.py:48-56 | marking a version deleted changes nothing for a snapshot that does not list the deleter |
| `MvccSpec.FirstVisibleExact` | tinydb/concurrency/mvcc_manager.py:37-46 | what is seen is the first version whose creator the snapshot lists and whose deleter, if any, it does not |
| `MvccSpec.MarkedHidden` | tinydb/concurrency/mvcc_manager.py:48-56 | marking hides the version from every snapshot that lists the deleter: it sees what it would see without that version |
| `MvccSpec.KeptExact` | tinydb/concurrency/mvcc_manager.py:58-81 | collection keeps, marked or not, exactly the versions for whose creator some active transaction is as old or older |
| `MvccSpec.KeptInOrder` | tinydb/concurrency/mvcc_manager.py:58-81 | and keeps them in their order |
| `MvccManager.MVCCManager.CreateVersion` | tinydb/concurrency/mvcc_manager.py:29-35 | the new version becomes the head of its page's chain; other chains are unchanged |
| `MvccManager.MVCCManager.GetVisibleVersion` | tinydb/concurrency/mvcc_manager.py:37-46 | walking the links finds the data of the first version whose creator is listed and whose deleter is absent or not listed, and None exactly when there is none |
| `MvccManager.MVCCManager.MarkDeleted` | tinydb/concurrency/mvcc_manager.py:48-56 | marks the newest version of the creator; True exactly when there is one |
| `MvccManager.MVCCManager.Unlink` | tinydb/concurrency/mvcc_manager.py:69-77 | relinking takes exactly one version out of one chain |
| `MvccManager.MVCCManager.GcChain` | tinydb/concurrency/mvcc_manager.py:61-80 | sifts one chain in place: exactly the versions below every active id go, the rest keep their order |
| `MvccManager.MVCCManager.Gc` | tinydb/concurrency/mvcc_manager.py:58-81 | every chain holds exactly what is kept, in order; the result is the number unlinked |
| `MvccManager.MVCCManager.AllSizes` | tinydb/concurrency/mvcc_manager.py:70-73 | a page has an entry exactly while it has versions: emptied chains are dropped |
| `ExprRoundTrip.ParsePrint` | tinydb/sql/parser.py:301-420 | at every level of the ladder, the tokens written for a tree parse to that tree and stop right after it |
| `ExprRoundTrip.ParseSpine` | tinydb/sql/parser.py:301-363 | chains of operators of one level are folded to the left |
| `ExprRoundTrip.RoundTrip` | tinydb/sql/parser.py:301-420 | the whole expression, written with the brackets the ladder needs, parses back with the cursor right after it |
| `ExprRoundTrip.Precedence` | tinydb/sql/parser.py:301-363 | x op y op' z without brackets, for all pairs of operators from OR to /: the tighter one binds first, and of two on one level the left one |
| `ExprRoundTrip.NotBinds` | tinydb/sql/parser.py:313-320 | NOT takes a whole comparison |
| `ExprRoundTrip.IsNullBinds` | tinydb/sql/parser.py:322-331 | so does IS NULL |
| `ExprRoundTrip.MinusBinds` | tinydb/sql/parser.py:365-370 | a minus sign takes a single operand |
| `ExprGrammar.SpelledAlike` | tinydb/sql/parser.py:322-331 | calls of aggregates, and IS, read the same in any spelling |
| `ExprGrammar.SpellingIgnored` | tinydb/sql/parser.py:384-390 | and only spellings of these words are read as such |
| `ExprRoundTrip.YieldedIffPrintable` | tinydb/sql/parser.py:301-420 | the trees some token list yields are exactly the printable ones |
| `ExprRoundTrip.PrintInjective` | tinydb/sql/parser.py:301-420 | different trees are written differently |
| `ExprParser.Parser.Advance` | tinydb/sql/parser.py:429-433 | moves the cursor by one, except on the last token |
| `ExprParser.Parser.ParseExpression` | tinydb/sql/parser.py:301-307 | terminates on every list that ends in EOF, with the tree, cursor or error of the grammar at the OR level |
| `ExprParser.Parser.ParseAnd` | tinydb/sql/parser.py:309-314 | the same at the AND level |
| `ExprParser.Parser.ParseNot` | tinydb/sql/parser.py:316-320 | the same at the NOT level |
| `ExprParser.Parser.ParseIsNull` | tinydb/sql/parser.py:322-331 | the same at the IS NULL level |
| `ExprParser.Parser.ParseComparison` | tinydb/sql/parser.py:333-340 | the same at the comparison level |
| `ExprParser.Parser.ParseAdditive` | tinydb/sql/parser.py:342-348 | the same at the additive level |
| `ExprParser.Parser.ParseMultiplicative` | tinydb/sql/parser.py:350-363 | the same at the multiplicative level |
| `ExprParser.Parser.ParseUnary` | tinydb/sql/parser.py:365-370 | the same at the minus level |
| `ExprParser.Parser.ParsePrimary` | tinydb/sql/parser.py:372-408 | the same for primaries |
| `ExprParser.Parser.ParseAggregateCall` | tinydb/sql/parser.py:410-420 | the same for aggregate calls |
| `IndexedTable.StatementKeeps` | tinydb/index/index_manager.py:84-118 | one INSERT whose entry fits its leaf, or one DELETE, keeps index and rows showing the same map from keys to row ids |
| `IndexedTable.RunKeeps` | tinydb/index/index_manager.py:84-118 | so does every run in which every entry fits its leaf and no value is inserted twice, though into a unique column it may be tried while its row is live |
| `IndexedTable.IndexShowsScan` | tinydb/index/index_manager.py:84-118 | the index holds exactly the pairs of key and row id that the scan shows |
| `IndexedTable.ChecksAgree` | tinydb/sql/executor.py:595-620 | for every value that is not NULL the check through the index refuses exactly what the check through the scan refuses; in a FLOAT column, when the value is no NaN, and neither it nor a live value is -0.0 or a NaN with a sign |
| `IndexedTable.NegativeZeroChecks` | tinydb/sql/executor.py:595-620 | on -0.0 the two checks disagree both ways: beside 0.0 only the scan refuses it, beside the number that shares its key only the index does |
| `IndexedTable.NullChecksAgreeIff` | tinydb/sql/executor.py:595-620 | on NULL the two agree exactly when some live row is NULL; in a BOOLEAN column, when some live row is false if and only if some is NULL |
| `IndexedTable.RunAgrees` | tinydb/sql/executor.py:519-575 | all of this after any run from an empty table in which no value is inserted twice and every entry fits its leaf |
| `IndexedRuns.RunRows` | tinydb/sql/executor.py:519-575 | over every run, whether entries fit or values repeat or are NULL, the scan shows exactly the rows of a dictionary driven by the statements, each once, under the ids they were stored under |
| `IndexedRuns.RefusedIff` | tinydb/sql/executor.py:595-609 | the check through the index refuses a value exactly when some live row has it |
| `IndexedRuns.UniqueHolds` | tinydb/sql/executor.py:519-536 | no two live rows have the same value, after any run in which a value may be tried again while its row is live, and no value is inserted again after its row was deleted |
| `IndexedTable.FixedRunAgrees` | tinydb/sql/executor.py:519-575 | on an INTEGER, FLOAT or BOOLEAN column with its own limits, after any run in which no value is inserted twice and fewer rows with a value are live at each insertion than the leaf holds: every entry fits, and all of this holds |
| `IndexedTable.OverflowHidesRow` | tinydb/sql/executor.py:519-536 | when the leaf has no room for the entry of a new value, the row is stored and not indexed: the scan shows it, search does not find it, and the two checks disagree on its value |
| `IndexedTable.FixedColumnTakes` | tinydb/index/index_manager.py:84-98 | on an INTEGER, FLOAT or BOOLEAN column with its own limits the entry of a new row goes in exactly while fewer rows with a value are live than the leaf holds, 225 or for BOOLEAN 368 |
| `IndexedTable.FixedColumnDelete` | tinydb/index/index_manager.py:100-118 | deleting rows keeps such an index a single leaf |
| `DmlOperator.DmlOperator.constructor` | tinydb/index/index_manager.py:29-61 | a new table and index, with any limits, on one page store are the empty database |
| `DmlOperator.DmlOperator.CheckUnique` | tinydb/sql/executor.py:597-609 | refuses exactly as IndexRefuses specifies; a value that cannot be encoded raises |
| `DmlOperator.DmlOperator.CheckUniqueByScan` | tinydb/sql/executor.py:610-620 | refuses exactly when a scanned row has the value |
| `DmlOperator.DmlOperator.InsertRow` | tinydb/sql/executor.py:519-536 | on the pages of table and index, exactly the specified INSERT, with its errors; after it the id returned looks up the row and every other id what it did before; refused, all ids look up the same; when the index entry does not fit its leaf, the row is stored without it |
| `DmlOperator.DmlOperator.DeleteRow` | tinydb/sql/executor.py:559-575 | on the pages of table and index, exactly the specified DELETE of one row: its id looks up nothing and every other id what it did before, NULL in the indexed column or not |

## Left out

- TxnManager.TransactionManager.Rollback: the shadow pages are freed in any order, where the code takes the order they were made in; the release of locks is LockManager.LockManager.ReleaseAll.
- TxnManager.TransactionManager.ServeAll: fewer than 2^32 pages, and requests to pages of tables, indexes and the catalog. After a rollback that is not clean no further request is followed; the condition may come back when the page is handed out again before the next flush or eviction. Tables and indexes that allocate pages inside a transaction do so by PoolFile.PagedFile.NewPage, which is not one of the requests.
- TxnRuns.Serial: its steps know no allocator; that the code takes them is stated of TransactionManager, under the condition given there.
- TxnRuns.NoTrace: likewise.
- TxnStore.RollbackReachesBase: the pool is large enough to evict nothing.
- TxnManager.TransactionManager.CommitTxn: leaves out the root page number, the header write and fsync, and makes no claim about a crash between two page copies; the release of locks and the collection of versions that commit also calls are proved in LockManager and MvccManager. Pins survive the emptied cache, as in the code.
- TxnManager.TransactionManager.WritePage: fewer than 2^32 pages; reads the page first, as tables do; a write to a shadow page that was evicted in the meantime would be lost like any write to a page that is not cached.
- TransactionManager.ensure_shadow of tinydb/transaction/txn_manager.py is not modelled; ShadowBufferPool's own copy of it is.
- Table.Table.InsertRow: takes the serialized row; type checks and conversions of values, locks and snapshots are not part of it. DmlOperator.DmlOperator.InsertRow serializes rows that conform to the schema.
- BTreeIndex.BTreeIndex.Insert: page numbers are below 2^32, the width of the fields they are packed in. When a split leaves the parent too long for its page, the code raises with the right half of the child already cut off; of the tree nothing is claimed then.
- DmlOperator.DmlOperator.InsertRow: in that case it says what becomes of the table, and nothing of the index.
- PageStore.PageStore: tables and indexes stand on a store that returns what was last written and allocates unused pages. PoolFile.PagedFile.GetPage, SetPageData and NewPage do the same to PagedFile.Pages while no page allocated has an old cached copy and no read is refused; tables and indexes are not proved again on top of them.
- SlottedPage.InsertRows: a row of no bytes, which no serialized row is (RowFormat.SerializeRow).
- SlottedPage.Page.InsertRow: likewise.
- PageUpdate.UpdateShows: one update that fits the gap. An update longer than the gap, or a second one, works with counters that are no longer exact.
- PageUpdate.UpdateSoundIff: likewise for one update that fits the gap.
- Table.Table.GetRow: ids of pages of the table's own chain, which are all it ever hands out; an id made up for another page reads whatever that page holds.
- Table.Table.DeleteRow: likewise for ids of pages of the chain.
- JoinColumns.LeftOnlyReads: the right table's columns have distinct names; a row is a dictionary and has no others.
- BufferPool.BufferPool.GetPage: without a snapshot; a read through one returns what MvccManager.MVCCManager.GetVisibleVersion returns.
- BufferPool.BufferPool.Pin: without the lock that it may also acquire.
- BufferPool.BufferPool.Unpin: without the lock that it may also release.
- TxnManager.TransactionManager.Begin: without the snapshot taken.
- TxnManager.TransactionManager.GetPage: without snapshots.
- TxnManager.TransactionManager.EnsureShadow: fewer than 2^32 pages, the width of a page number.
- TxnManager.TransactionManager.Commit: as CommitTxn.
- IndexedTable.RunAgrees: one index on one column, without NOT NULL checks; UPDATE and its index hook are not modelled, and a DELETE statement is the sequence of its single-row deletions.
- IndexedTable.StatementKeeps: likewise; an INSERT whose entry does not fit is IndexedTable.OverflowHidesRow.
- IndexedTable.RunKeeps: likewise.
- IndexedTable.FixedRunAgrees: as RunAgrees.
- SortMergeJoin.SortMerge: keys are not NULL and comparable on both sides, which Python's sort demands.
- Joins over more than two tables, the columns a NATURAL join finds, and the Filter, Project, Limit and Scan operators.
- Aggregates.FoldMeaning: sums are of integers and NULL, not of floating-point numbers.
- Aggregates.Aggregate: results carry AVG as a total and a count, since the division is a floating-point one; the names of the result columns are left out, and so are sums of anything but integers and NULL.
- Expression evaluation beyond the NULL-aware comparisons that ON and ORDER BY use.
- ExprRoundTrip.RoundTrip: expressions alone, not statements or the lexer. Letters are raised to upper case within ASCII; Python also maps a few other letters to the words COUNT, SUM, AVG and IS.
- RowFormat.DecodeImage: a double is its eight bytes and a text its UTF-8 bytes, so rounding and malformed UTF-8 do not appear.
- The lock manager without a deadlock detector, waiting times, wake-ups and fairness of the queue; a timeout is a step that may happen at any moment.
- Threads inside the buffer pool.
- File headers, checksums, format versions, fsync and reopening a file; the disk is a map of pages.
- `range_scan`: both splits write 0 as the next leaf of the left half, so the chain it follows is always empty.
- Catalog, DDL, command line, import and export.
