# F3-tree: a verified model

F3-tree buffers writes in per-producer logs, the PTFO chains, and drains them into a FAST/FAIR
B+-tree. This project models the parts of it that are hard to get right and proves what they promise:

- **Pages and tree.** A page is an array of records that `insert_key` and `remove_key` change one
  store at a time, while readers scan it without a lock. `Pages`, `Splits` and `LeafReader` prove what
  such readers see, over histories that are complete, one store at a time (`Recorded`); `TreeShape` and
  `Tree` prove search, insertion with splits up to the root, and deletion over whole runs; `PageLayout`
  ties the tree's page values to the arrays.
- **Buffers.** `PtfoChains` is the doubly linked chain, store by store; `Probing`, `HashTables`,
  `Directories` and `BufferedIndex` are the open-addressed tables; `Producers` puts them together into
  `future_insert`; `Lookups` proves that the buffered lookups agree; `Recovery` rebuilds the volatile
  indexes from any memory that a crash can leave, over any number of crashes.
- **Drains.** `Ops`, `ChainLists`, `Replays` and `Drains` say what the three replay policies apply and
  what that leaves of every key. `LatestEntries`, `Evaluators` and `Wrapper` are the loops of
  `src/f3tree.cpp`, proved equal to those functions.
- **Everything together.** `Protocol` is a step machine of producers and drains; `Visibility` and
  `Readers` prove what `contains()` answers in every interleaving, up to linearizability; `FailingRuns`
  gives runs in which it goes wrong; `Restarts` takes the protocol over a crash; `EndToEnd` puts the
  B+-tree underneath, and `Systems` runs linked chains, tables and B+-tree in step with the protocol;
  `Locks` proves that the lock order rules out deadlock.
- **Two separate structures.** `AckWindow` is YCSB's acknowledged counter, `Bloom` the compressible
  Bloom filter.

`dafny verify dfyconfig.toml` checks the project.

## What the proofs show about the code

Some properties hold only under a condition. Each has a lemma with the exact condition, and where it
can fail, a concrete failing run.

- A leaf reader that loads the left pointer before the right one can return another key's pointer when
  two insertions overlap its pair of loads (`LeftFirstCanReturnAnotherPointer`). The source compares
  the two pointers in one expression and leaves the order of the loads to the compiler.
  `LeftFirstScanIsCorrect` is the exact condition: the second load of the accepted pair must not come
  from the slot that repeats its left neighbour's pointer at that moment. With the right pointer first
  the scan is always correct (`RightFirstScanIsCorrect`).
- A key whose number equals the address of its leaf's right sibling is not found by a search
  (`Tree.BTree.Search`, `Shadowed`), and a guarded delete passes over it (`Tree.BTree.Apply`). Four
  insertions into an empty tree can lead there (`ShadowedKeyIsMissed`). Keys below all page addresses are
  safe.
- Two copies of a key can end up on both sides of a split. After one delete the other copy is in the left
  half, and searches are routed to the right one (`StraddlingCopyIsMissed`).
- `btree_delete` of an absent key repeats forever unless the key belongs to the last leaf
  (`Tree.BTree.Delete`). The search before every delete in a drain prevents this; `erase` of the
  unbuffered tree (src/f3tree.cpp:601) has no such guard.
- A full F3-N drain while a producer is between its insertion and its accounting loses the insertion
  (`FullDrainCanLoseAWrite`): all directories are cleared, but only accounted chains are drained.
  `CarefulIsExact` says exactly when a full drain keeps chains and directories in agreement.
- After a reopening every recovered producer is in that situation, since the accounts start at zero. A
  full drain is careful exactly when nothing was recovered (`RestartIsCareful`), and otherwise two full
  F3-N drains throw recovered operations away (`OverlookedOperationsAreLost`, `RestartLeadsThere`), as they
  do with those of any producer between insertion and accounting (`InFlightOperationsAreLost`).
- Under F3-K and the deterministic replay, a key that is inserted while present and then deleted comes
  back after the drain (`LogDrainCanResurrect`); `LogDrainVisibility` is the exact condition. Under F3-N,
  re-inserting a key whose delete was buffered doubles it (`ReinsertionDoublesKey`);
  `NodeDrainVisibility` is the exact condition.
- Draining one of two producers that buffer the same key can hide the newer operation
  (`SplitDrainCanHide`, with `SplitDrainVisibility` as the exact condition), and lets an F3-N reader
  miss a key (`SharedKeyCanBeMissed`, with `DrainSparesExactly` as the exact condition for a drain).
- A full pre-filter loses the key in the home slot, a full directory drops a new key. `Producers.FutureInsert`
  says exactly when an insertion keeps each of them in agreement with the chain.
- A crash after the sixth of the seven stores of a chain's first insertion, and only that one, leaves a
  chain whose tail is not set. Recovery does not set it and no later insertion does, so that a drain from
  the tail empties the chain without applying anything (`CrashAndReopen`, `RunWithCrashes`,
  `DrainAfterCrashes`). The other policies walk from the head and lose nothing.
- A drain from the tail that is cut off leaves memory that the recovery walk from the head can follow
  only before the first node is freed and after the head is reset (`DrainFromTail`,
  `InterruptedDrainBreaksTheWalk`), although the comment above that function says the tail marks a
  recovery point. Where it can be followed, the next drain applies exactly the rest, unless the chain had
  one node: then the tail is unset, and later insertions are lost (`CrashInDrain`, `ResumedDrain`).
- Clearing a chain has the same two recoverable moments. A crash between the last two stores leaves the
  tail at a freed node, which the next complete insertion repairs (`ClearThread`, `CrashInClear`).
- `BufferedHashIndex` never frees the slot of a cleared entry, so that live keys within the capacity are
  not enough: with one slot, `upsert(1)`, `clear_entry(1)`, `upsert(2)` stores behind the slots
  (`ClearedKeyKeepsItsSlot`). `BufferedIndex.Execute` is the exact condition: the keys written since the
  last `clear()` must fit.
- `count()` of a page in backward mode takes a cached index that is one too high at its word.
- The acknowledged counter takes a value outside its window for the one inside that shares its bit, and
  its scan stops one short of a full window (`Acknowledge` gives both conditions).
- Compressing the Bloom filter to less than half of its size writes behind the new table
  (`Compress`, outcome `Overrun`).
- The split index is the floor of half the entries: the rounding up in `store` is applied to a
  quotient of integers.

## Model

| member | source | states |
|---|---|---|
| `RecordLists.LeafForwardLive` | core/btree.h:1257-1276 | the left-to-right leaf scan answers from the live records only, whatever phantom slots the array holds |
| `RecordLists.LeafBackwardLive` | core/btree.h:1277-1299 | so does the right-to-left scan, up to the slot it starts from |
| `RecordLists.InternalForwardLive` | core/btree.h:1320-1341 | the left-to-right routing scan picks the child of the live separators |
| `RecordLists.InternalBackwardPlain` | core/btree.h:1342-1372 | the right-to-left routing scan picks the same child on a settled page |
| `Pages.Page.Count` | core/btree.h:637-661 | on a settled page the number of entries; in general, in forward mode the first null behind the cached index, and in backward mode the last null up to the slot behind it, or else the first null of the page |
| `Pages.Page.InsertKey` | core/btree.h:964-1040 | the entries become the sorted insertion; before one store every memory shows the old entries to a forward reader, from it on the new ones; the history stays complete, one store at a time |
| `Pages.Page.RemoveKey` | core/btree.h:663-708 | the first match is removed, and reported exactly if there was one; before one store every memory shows the old entries to a backward reader, from it on the remaining ones; the history stays complete, one store at a time |
| `Pages.Page.TurnForward` | core/btree.h:966-973 | an odd switch counter goes one up modulo 256 before an insertion, an even one stays, and readers see the same entries |
| `Pages.Page.TurnBackward` | core/btree.h:673-676 | an even one goes one up before a removal, an odd one stays |
| `Pages.Page.SearchLeaf` | core/btree.h:1244-1304 | both scan directions return the pointer stored with the key, or null |
| `Pages.Page.SearchInternal` | core/btree.h:1315-1372 | both scan directions return the child whose range covers the key |
| `Pages.InsertChangesOneKey` | core/btree.h:964-1040 | an insertion changes the answer for its own key and for no other |
| `Pages.InsertReroutesOneRange` | core/btree.h:964-1040 | a new separator redirects the keys from it to the next separator, and no others |
| `Pages.RemoveChangesOneKey` | core/btree.h:663-708 | a removal changes the answer for its own key and for no other |
| `Pages.InsertIsAtomicForReaders` | core/btree.h:964-1040 | after every prefix of an insertion's stores, a leaf reader gets the old answer for other keys, and the new key appears at exactly one store |
| `Pages.InsertIsAtomicForRouting` | core/btree.h:964-1040 | after every prefix, routing through an internal page is the old routing, and one store moves exactly the new child's range |
| `Pages.RemoveIsAtomicForReaders` | core/btree.h:663-708 | after every prefix of a removal's stores, a backward reader gets the old answer for other keys, and the removed key disappears at exactly one store |
| `Splits.SplitLeaf` | core/btree.h:1083-1133 | left page and sibling together are the sorted insertion, both are valid and within capacity; the trace is the list of both pages' memories after every single store from linking the sibling on, and at each of them a search with sibling hops finds exactly the old keys, from one store on also the new one |
| `Splits.HopSearchFinds` | core/btree.h:1704-1713 | hopping to the sibling when its first key is reached finds what the two pages hold together |
| `PageLayout.Insert` | core/btree.h:964-1040 | on a page's array of records, an insertion leaves what it leaves of the tree's page value, the keys in the slots behind the entries included |
| `PageLayout.Remove` | core/btree.h:663-708 | so does a removal, where the last entry's slot takes the key behind it |
| `PageLayout.SplitLeaf` | core/btree.h:1083-1115 | so does the part of a leaf split that fills the sibling and cuts the page |
| `PageLayout.FirstSlot` | core/btree.h:1306-1312 | the key that a neighbour compares with is the one in slot 0, also of an emptied page |
| `LeafReader.PresentKeyIsFound` | core/btree.h:1251-1276 | taken load by load between the stores of any number of insertions, a scan does not miss a key that was present when it started: after at most five loads a slot it is done, with a pointer |
| `LeafReader.RightFirstScanIsCorrect` | core/btree.h:1251-1276 | with the right pointer loaded first, the scan is done after five loads a slot, finds a key that was present from the start, returns only the key's own pointer, and null for a key that is never there |
| `LeafReader.LeftFirstScanIsCorrect` | core/btree.h:1251-1276 | with the left pointer first, the scan is done after five loads a slot, a present key is not missed either, and a pointer that it returns is the key's own if and only if the right pointer of its last pair was not loaded from the slot that repeats its left neighbour; otherwise it is another key's. Without an insertion starting inside a pair of loads it is always the key's own |
| `LeafReader.LeftFirstScanIsTraced` | core/btree.h:1251-1276 | that characterisation from every reachable state of writer and reader, in every interleaving |
| `LeafReader.LeftFirstCanReturnAnotherPointer` | core/btree.h:1251-1276 | a concrete legal run that returns another key's pointer |
| `LeafReader.ScanEnds` | core/btree.h:1251-1276 | in both load orders every load brings a scan closer to its end and no store or new insertion takes it back, so that after a stated number of loads it is done |
| `LeafReader.InsertionEnds` | core/btree.h:964-1040 | after a stated number of its stores an insertion is over and the live entries are those it set out for, whatever readers do in between |
| `LeafReader.WritesOneWord` | core/btree.h:985-1030 | each step of an insertion changes at most one key or one pointer of one slot |
| `LeafReader.WriteKeepsWriterInv` | core/btree.h:985-1030 | every single store of an insertion keeps the layout that readers rely on |
| `TreeShape.RouteCovers` | core/btree.h:1315-1372 | routing leads to a child whose range starts at or before the key |
| `TreeShape.HoldsInRange` | core/btree.h:1693-1713 | a key can only be in the leaf whose range covers it |
| `TreeShape.LeafInsert` | core/btree.h:1072-1082 | inserting into the covering leaf keeps page order, separator ranges, levels and sibling order, and adds exactly the key |
| `TreeShape.LeafRemove` | core/btree.h:663-708 | removing from a leaf keeps all of it, and takes out exactly the key |
| `TreeShape.SplitKeepsShape` | core/btree.h:1083-1133 | a leaf or internal split keeps all of it, with the new half pending in its parent, and keeps the keys |
| `Tree.BTree.Split` | core/btree.h:1083-1133 | a split in the tree leaves the floor of half the entries in the left page and the others in its sibling, less the separator that moves up from an internal page |
| `Tree.LeftHalfLeadsRight` | core/btree.h:1304-1312 | before the parent knows the right half of a split, a leaf search from the left half goes on to it for every key from its first one on and finds what is there, and a search on a higher level goes on likewise |
| `TreeShape.ParentInsert` | core/btree.h:1742-1755 | inserting the separator of a pending half into the covering parent completes the split |
| `TreeShape.RootGrowth` | core/btree.h:1136-1143 | a new root over the two halves of the old one completes a root split |
| `Tree.BTree.Store` | core/btree.h:1046-1154 | one insertion at a level, with hops, splits up to the root and root growth, leaves a well-shaped tree with exactly the new key added |
| `Tree.BTree.InsertInternal` | core/btree.h:1742-1755 | the pending separator reaches its parent, and nothing stays pending |
| `Tree.BTree.Insert` | core/btree.h:1726-1739 | an absent key is added, and nothing else changes |
| `Tree.BTree.Search` | core/btree.h:1693-1723 | non-null exactly when the key is in the tree and is not taken for its leaf's sibling address |
| `Tree.BTree.Delete` | core/btree.h:1757-1780 | removes exactly a key that a search finds; reports an absent key only at the last leaf, and otherwise changes nothing and retries |
| `Tree.BTree.Apply` | src/f3tree.cpp:233-241 | a guarded delete or an insertion of an absent key acts on the key set, for every nonzero key, and never takes the retry branch; only the delete of a key taken for a sibling address changes nothing |
| `Tree.BTree.Execute` | src/f3tree.cpp:233-241 | over every run of insertions of absent keys and guarded deletes, the tree is well shaped and its keys are those of the run on a set, up to deletes that passed over such a key, and without exception when all keys are below the page addresses |
| `Tree.BTree.LowKeysAreNotShadowed` | core/btree.h:1704-1713 | a nonzero key below all page addresses is never taken for a sibling |
| `Tree.ShadowedKeyIsMissed` | core/btree.h:1693-1723 | on the pages that four insertions into an empty tree leave, a search for a key that the left leaf holds finds nothing, and a delete does not remove it |
| `Tree.StraddlingCopyIsMissed` | core/btree.h:1693-1723 | of two copies of a key that a split has separated, one delete takes the right one, and the other is in a leaf that no search for it reaches |
| `ChainLists.PushAppends` | core/btree.h:1882-1943 | all three branches of an insertion append one operation to the log |
| `ChainLists.FewestNodes` | core/btree.h:1882-1943 | a chain whose nodes but the head are full has as many nodes as its operations need, and no more |
| `ChainLists.SortAscends` | src/f3tree.cpp:411-417 | sorting by sequence gives an ascending log |
| `ChainLists.CollectedAndSortedIsLog` | core/btree.h:2296-2313 | collecting from the head and sorting by sequence gives back the log |
| `PtfoChains.ForwardUnique` | core/btree.h:1580-1609 | a memory has at most one walk from the head |
| `PtfoChains.Chain.FutureInsert` | core/btree.h:1880-1943 | from every chain that a crash can leave: the log grows by exactly the operation, next, prev and count are consistent afterwards, also where the crash had stored a prev too early; the tail of a nonempty chain stays where it is, so that what a drain will apply grows by the operation unless the tail is unset; after every store a walk from the head sees the old chain, then the new one; the history stays complete |
| `PtfoChains.Chain.CollectOps` | core/btree.h:2296-2313 | the operations head node first; sorted by sequence they are the log |
| `PtfoChains.Chain.CollectNodes` | core/btree.h:2315-2341 | the nodes, head first |
| `PtfoChains.Chain.ClearThread` | core/btree.h:2343-2359 | the chain ends empty and consistent; of the memories in between, recovery can walk exactly the last two, after the head is reset |
| `PtfoChains.Chain.DrainFromTail` | core/btree.h:2500-2538 | the entries of the nodes from the tail to the head are applied from oldest to newest, each once, and the chain ends empty: the whole log of a consistent chain, nothing if the tail is unset, the rest if an earlier drain was cut off; of the memories in between, recovery can walk exactly the one before the first node is freed and the last one |
| `PtfoChains.Chain.FutureState` | core/btree.h:1964-1982 | newest first finds the last operation of the log on the key |
| `PtfoChains.Chain.Scan` | core/btree.h:2019-2034 | the walk that keeps the highest sequence ends with the newer of what it had and the log's last operation on the key |
| `PtfoChains.NewestIsLast` | core/btree.h:2218-2231 | in whichever order a walk meets a log's operations, the log's last match wins |
| `PtfoChains.InterruptedDrainBreaksTheWalk` | core/btree.h:2490-2530 | whichever nodes of a chain are freed and wherever the tail points, the walk from the head ends if and only if nothing has been freed |
| `Probing.ProbeIsConclusive` | core/hash.h:87-96 | a probe that meets a free slot or comes round has shown that the key is absent |
| `Probing.Put` | core/hash.h:65-79 | writing a key into a slot that its probe reaches binds it, keeps all other keys reachable, and unbinds only what the slot held |
| `Probing.TakeOut` | core/hash.h:109-112 | a deletion marker unbinds one key and keeps all others reachable |
| `Probing.Fullness` | core/hash.h:65-70 | the map has as many keys as there are slots exactly when every slot is live |
| `Probing.SameHome` | core/hash.h:45-50 | keys start their probes at the same slot if and only if they, or their absolute values, differ by a multiple of the number of slots |
| `HashTables.HashMapTable.Insert` | core/hash.h:52-81 | the map with the key bound to the value, as long as there is room; a full table loses exactly the key in the home slot |
| `HashTables.HashMapTable.SearchKey` | core/hash.h:83-96 | the value last stored for the key, or -1 |
| `HashTables.HashMapTable.Remove` | core/hash.h:98-114 | the map without the key |
| `HashTables.Execute` | core/hash.h:45-114 | over every run within capacity the table is the map, markers reused and no key doubled |
| `Directories.LookupDirectory.Index` | core/btree.h:1659-1685 | the key's slot, else a free one that its probe reaches if asked for, else the capacity, exactly when there is none |
| `Directories.LookupDirectory.Record` | core/btree.h:1945-1961 | the key's entry becomes the operation, unless the directory is full |
| `Directories.LookupDirectory.RecordNewer` | core/btree.h:1590-1604 | only a newer operation replaces an entry, and a full directory takes no new key |
| `Directories.LookupDirectory.Clear` | core/btree.h:2361-2378 | no entry is left |
| `Directories.LookupDirectory.Collect` | core/btree.h:2274-2294 | every entry once |
| `BufferedIndex.BufferedHashIndex.FindSlot` | src/buffered_hash_index.cpp:107-126 | the key's slot, or the capacity exactly when it has none |
| `BufferedIndex.BufferedHashIndex.FindOrAllocate` | src/buffered_hash_index.cpp:128-144 | the key's slot or a free one that its probe reaches, or the capacity exactly when there is no room |
| `BufferedIndex.BufferedHashIndex.Upsert` | src/buffered_hash_index.cpp:8-20 | if and only if the key has a slot or there is a free one, the key is bound to a present entry with the highest sequence so far, and has a slot from then on |
| `BufferedIndex.BufferedHashIndex.Erase` | src/buffered_hash_index.cpp:22-34 | if and only if the key has a slot or there is a free one, the key is bound to a tombstone with the highest sequence so far, and has a slot from then on |
| `BufferedIndex.BufferedHashIndex.StateFor` | src/buffered_hash_index.cpp:51-55 | the state of the key's entry, or absent |
| `BufferedIndex.BufferedHashIndex.OwnerFor` | src/buffered_hash_index.cpp:44-49 | the owner of the key's entry, or -1 |
| `BufferedIndex.BufferedHashIndex.Contains` | src/buffered_hash_index.cpp:36-42 | contains exactly for present entries, has_entry exactly for present entries and tombstones |
| `BufferedIndex.BufferedHashIndex.ClearEntry` | src/buffered_hash_index.cpp:74-86 | only this key's entry disappears, and its slot stays reserved |
| `BufferedIndex.BufferedHashIndex.Entries` | src/buffered_hash_index.cpp:57-72 | every live entry once, as many as size() says |
| `BufferedIndex.BufferedHashIndex.Clear` | src/buffered_hash_index.cpp:92-98 | an empty index in which no key has a slot, with sequences from one |
| `BufferedIndex.CountIsSize` | src/buffered_hash_index.cpp:88-88 | the maintained size is the number of keys of the index |
| `BufferedIndex.Execute` | src/buffered_hash_index.cpp:8-144 | over every run of the four operations the index is the ideal map, with sequences and size; no operation stores outside the slots if and only if the keys written since the last clear() never outnumber them |
| `BufferedIndex.ClearedKeyKeepsItsSlot` | src/buffered_hash_index.cpp:74-86 | a run whose live keys never outnumber the slots and that stores outside them |
| `Lookups.LatestState` | core/btree.h:2000-2044 | the full scan reports the newest operation on the key of any producer: the owner's chain ends its operations on the key in one with the reported sequence, a delete exactly for a tombstone, and no chain has a newer one; absent, with owner -1 and sequence 0, exactly if no chain touches the key |
| `Lookups.ReportedMeans` | core/btree.h:2024-2041 | that is what owner, sequence and state of the deciding operation mean in any chains |
| `Lookups.HashDirectedViaPtfo` | core/btree.h:2193-2242 | the pre-filtered chain walk reports the same owner, sequence and state |
| `Lookups.HashDirected` | core/btree.h:2114-2155 | the pre-filtered directory lookup reports the same owner, sequence and state |
| `Lookups.Contains` | src/f3tree.cpp:1163-1185 | the newest buffered operation decides, and without one the tree |
| `Lookups.StateAny` | core/btree.h:1984-1998 | absent exactly when the others say so; otherwise the last operation of the first producer that has one |
| `Producers.FutureInsert` | core/btree.h:1880-1961 | chain, pre-filter and directory together: the chain gains the operation; the pre-filter stays without false negatives if and only if it has the key, or room, or its home slot's key is not in the chain; the directory agrees with the chain if and only if it has the key or room |
| `Producers.ClearProducer` | core/btree.h:2343-2378 | emptying chain and directory of one producer keeps all indexes in agreement with all chains |
| `Recovery.RebuiltIsDirectory` | core/btree.h:1590-1604 | the rebuilt directory agrees with the log in whichever order its operations are walked |
| `Recovery.InsertOrCrash` | core/btree.h:1882-1943 | wherever an insertion into a chain, also into one that an earlier crash left, is cut off, recovery finds the chain without the operation or with it, complete, and rebuilds that chain's directory |
| `Recovery.CrashAndReopen` | core/btree.h:1882-1943 | an insertion cut off after any number of its stores, then the reopened chain: the log with or without the operation; in an empty chain exactly the sixth store leaves the tail unset, in others the tail is as it was |
| `Recovery.RunWithCrashes` | core/btree.h:1880-1943 | any number of insertions, each possibly cut off by a crash and a reopening: the log is exactly the surviving operations in order, and the tail is unset if and only if the first survivor was cut off after its sixth store |
| `Recovery.DrainAfterCrashes` | src/f3tree.cpp:476-488 | the drain from the tail after such a run applies exactly the survivors, or nothing if and only if the first survivor was cut off there |
| `Recovery.CrashInDrain` | core/btree.h:2500-2538 | a drain cut off between its first tail store and its first free: the oldest node is applied, the reopened chain shows everything, and one node less is due |
| `Recovery.ResumedDrain` | core/btree.h:2500-2538 | that drain, the reopening, one more insertion and the next drain together apply everything exactly once and in order, except that the insertion is lost if and only if a single node was due |
| `Recovery.CrashInClear` | core/btree.h:2343-2359 | a clear cut off between its last two stores leaves an empty chain whose tail is no node, and that insertions accept |
| `Recovery.RecoverChain` | core/btree.h:1578-1613 | after the walk the directory agrees with the chain, the pre-filter has no false negatives, and the maximum is the largest sequence met, or what it was |
| `Recovery.Recover` | core/btree.h:1575-1624 | the same for all producers, and the stored sequence is a million above the largest of the durable counter and all durable sequences |
| `Recovery.RestartKeepsOrder` | src/f3tree.cpp:618-623 | operations after a restart are newer than all recovered ones, so chains stay ascending |
| `Restarts.RecoveryRebuilds` | core/btree.h:1575-1624 | the recovery pass yields directories, pre-filters and a first sequence that fit the chains |
| `Restarts.RestartKeepsStructure` | src/f3tree.cpp:606-631 | after a crash in any protocol state and a reopening, sequences are ordered and unique, pre-filters know every buffered key and directories agree with the chains |
| `Restarts.RestartKeepsContents` | src/f3tree.cpp:606-631 | contains(k) answers as before the crash for every key without an operation in flight |
| `Restarts.RestartIsCareful` | src/f3tree.cpp:606-631 | the accounts fit the chains, and a full drain keeps chains and directories in agreement, if and only if nothing was recovered |
| `Restarts.NoDrainAfterRestart` | src/f3tree.cpp:720-732 | until something new is accounted for, no drain applies or clears what was recovered |
| `Restarts.OverlookedOperationsAreLost` | src/f3tree.cpp:720-763 | from every state in which an F3-N producer has buffered operations and no accounts: a full drain, one more operation of that producer and the next full drain discard all its other operations |
| `Restarts.InFlightOperationsAreLost` | src/f3tree.cpp:720-763 | the same for a producer that has inserted and not accounted yet: two full drains around its accounting |
| `Restarts.RestartLeadsThere` | src/f3tree.cpp:606-631 | after a restart with a recovered chain, one accounted operation of another producer leads to such a state |
| `Ops.ReplayCopies` | src/f3tree.cpp:233-241 | the copies of a key depend only on its own operations, in order |
| `Ops.LastDecides` | src/f3tree.cpp:233-241 | when inserts find the key absent, the last operation decides whether it is present |
| `Ops.LastDecidesExactly` | src/f3tree.cpp:233-241 | in general it decides exactly unless it is a delete that finds two or more copies |
| `Replays.DecidingIsNewest` | core/btree.h:2206-2233 | the deciding operation is the last of some chain, and no chain ends in a newer one |
| `Replays.PartitionedEqualsSequenced` | src/f3tree.cpp:446-493 | with disjoint keys, replaying producer by producer leaves the same copies of every key as replaying in sequence order |
| `Replays.MergedDecides` | src/f3tree.cpp:294-320 | the newest directory entry of a key is its deciding operation |
| `Replays.NodeOrderedKey` | src/f3tree.cpp:495-540 | a node-ordered replay applies to each key its deciding operation, if that is drained, and nothing else |
| `Replays.SortNodesAscends` | src/f3tree.cpp:520-526 | sorting keeps the nodes and puts them in the order of their first sequences |
| `Replays.NodeOrderedIsOrdered` | src/f3tree.cpp:495-540 | so a node-ordered replay applies operations of different nodes in that order, and those of one node as they were buffered |
| `Drains.NodeDrainVisibility` | src/f3tree.cpp:495-540 | an F3-N drain keeps contains(k) if and only if it does not apply a delete to a key with two or more copies |
| `Drains.NodeDrainKeepsContents` | src/f3tree.cpp:712-782 | with at most one copy of every key, contains(k) is unchanged for every k |
| `Drains.FullNodeDrainAppliesOnce` | src/f3tree.cpp:712-782 | a full F3-N drain applies one operation per buffered key |
| `Drains.NodeDrainEqualsFullReplay` | src/f3tree.cpp:712-782 | it leaves the same keys as replaying the whole log in sequence order, when that log inserts only absent keys |
| `Drains.LogDrainVisibility` | src/f3tree.cpp:390-493 | an F3-K or deterministic drain keeps contains(k) if and only if the key's last operation is not a delete that finds two or more copies; under the deterministic replay the key may be buffered by any number of drained producers |
| `Drains.LogDrainKeepsVisible` | src/f3tree.cpp:390-493 | it is enough that the log, of all drained producers together, inserts the key only while it is absent |
| `FailingRuns.LogDrainCanResurrect` | src/f3tree.cpp:390-493 | under F3-K and the deterministic replay, a run from an empty tree after which a deleted key is back |
| `Drains.SplitDrainVisibility` | src/f3tree.cpp:835-891 | a drain that leaves another producer's operation on the key behind keeps contains(k) if and only if the newest one left is of the same kind as the newest of all |
| `FailingRuns.SplitDrainCanHide` | src/f3tree.cpp:835-891 | under every policy, a run from an empty tree in which a drain of one of two producers hides the newer operation |
| `Protocol.AccountingOverRuns` | src/f3tree.cpp:673-782 | in every interleaving the global and per-node counts are the per-producer sums and not negative, enqueued is pending plus drained, chains are within accounts and operations in flight, and a full drain at quiescence empties every chain |
| `Protocol.SliceDrainDoesNotUnderflow` | src/f3tree.cpp:673-687 | no subtraction of a slice drain goes below zero |
| `Protocol.TakenAndLeft` | src/f3tree.cpp:673-687 | what a drain takes and what it leaves make up the counts, in total and on every node |
| `Protocol.ChainsStayPacked` | core/btree.h:1882-1943 | in every run from the start each chain is of that kind, so that it never takes a node too many |
| `Protocol.TicketsAreCounted` | src/f3tree.cpp:1070-1073 | sequences are handed out one after the other, without gaps, in every interleaving |
| `Protocol.ActiveAscends` | src/f3tree.cpp:712-730 | a drain takes its producers in ascending order |
| `Visibility.IndexesOverRuns` | core/btree.h:1945-1961 | over every interleaving sequences stay ordered and unique and pre-filters know every buffered key; while full drains are careful, every directory equals the per-key latest operation of its chain |
| `Visibility.ContentsOverRuns` | src/f3tree.cpp:1163-1185 | for all three policies and every interleaving with disjoint producer keys, inserts of absent keys, and under F3-N careful full drains and no insertion of a key whose buffered delete is not drained, contains(k) is true exactly when k is present, and the tree never holds a key twice |
| `Visibility.CarefulIsExact` | src/f3tree.cpp:720-763 | a full drain keeps directories and chains in agreement if and only if every producer with buffered operations has accounted entries |
| `Visibility.FullDrainCanLoseAWrite` | src/f3tree.cpp:720-763 | a run from an empty tree in which full F3-N drains make an inserted key disappear |
| `FailingRuns.ReinsertionDoublesKey` | src/f3tree.cpp:495-540 | under F3-N, a run from an empty tree in which a key whose delete was buffered is inserted again: two copies after the drain, and the next delete hides it only until it is drained |
| `FailingRuns.SoloRuns` | src/f3tree.cpp:712-782 | for every policy and every run of one producer with one key from an empty tree, the copies in the tree and what contains() answers |
| `Readers.StoredKeyIsFound` | src/f3tree.cpp:1163-1185 | a stored key that nobody deletes is found by every contains() that starts later: it answers true when it finishes, whatever happens between its steps and however many producers insert the key, as long as F3-N drains spare it |
| `Readers.DrainSparesExactly` | src/f3tree.cpp:495-540 | an F3-N drain leaves such a key within the reader's reach if and only if the key is in the tree, or its deciding operation is drained, or an undrained chain ahead of the reader holds it |
| `Readers.OwnKeyIsFound` | src/f3tree.cpp:1163-1185 | so a key that a single producer inserts is found by every contains() that finishes, under every policy and with any drains, except that full F3-N drains have to be careful |
| `Readers.SharedKeyCanBeMissed` | src/f3tree.cpp:1163-1185 | a run from an empty tree in which an F3-N drain does not spare a shared key, and a reader misses it |
| `Readers.ContainsIsLinearizable` | src/f3tree.cpp:1163-1185 | taken step by step between producers and drains, contains(k) takes at most two steps for each producer and one more, has an answer exactly when it has taken its last, and answers whether k was present at some moment between its start and its end |
| `Readers.ReaderIsNeverStuck` | src/f3tree.cpp:1163-1185 | a reader without an answer has exactly one next step, whatever the others have done |
| `Readers.ReaderFinishes` | core/btree.h:2193-2242 | every own step of a reader lowers the number of steps it has left, in every schedule, and no step of the others raises it |
| `Readers.FreshReaderFinishes` | src/f3tree.cpp:1163-1185 | in every schedule a contains() has an answer if and only if it has taken its last step, which is at the latest its step number twice the producers plus one |
| `Readers.QuietReaderAnswers` | src/f3tree.cpp:1163-1185 | left alone from any point of its walk on, it answers whether the newest buffered operation is an insertion, and without one whether the tree holds the key |
| `EndToEnd.DrainIsApplicable` | src/f3tree.cpp:784-891 | in a disciplined run, what a drain applies inserts only absent keys |
| `EndToEnd.DirectoriesHaveNoTies` | src/f3tree.cpp:294-320 | sequences identify directory entries, as the deduplication of the snapshot needs |
| `EndToEnd.ReplayIntoTree` | src/f3tree.cpp:233-241 | replaying such operations keeps the B+-tree and the copies of every key in step |
| `EndToEnd.StepIsApplicable` | src/f3tree.cpp:712-891 | in a disciplined world, what any step applies, full drain or slice drain, inserts only absent keys |
| `EndToEnd.DrainChain` | core/btree.h:2500-2538 | the drain from the tail on the linked chain and the B+-tree, node by node: the tree takes exactly what is due, and the chain ends empty |
| `EndToEnd.Contains` | src/f3tree.cpp:1163-1185 | the pre-filtered walk over the linked chains, then a search of the B+-tree, tells whether the key is present |
| `Systems.OpsToApply` | src/f3tree.cpp:390-540 | read from linked chains and directory tables, what a drain applies is what its policy says; under F3-N the operations of different nodes come in the order of the nodes' first sequences, those of one node in its own order |
| `Systems.SystemStep` | src/f3tree.cpp:712-891 | one insertion or drain on linked chains, tables and B+-tree leaves them in step with the protocol; F3-K drains go node by node from the tail |
| `Systems.SystemRun` | src/f3tree.cpp:712-1103 | over every disciplined run with room in the tables, in any interleaving and for all three policies, chains, tables and B+-tree hold what the protocol says |
| `Systems.FewKeysHaveRoom` | core/btree.h:1945-1961 | a run over no more keys than the tables have slots always finds room |
| `Systems.Contains` | src/f3tree.cpp:1163-1185 | on structures in step with the protocol, contains(k) is true exactly for the present keys |
| `Systems.RunThenContains` | src/f3tree.cpp:1034-1185 | from a fresh system: after every such run, contains(k) on chains, tables and B+-tree tells whether k is present |
| `LatestEntries.Deduplicate` | src/f3tree.cpp:306-319 | one newest entry per key, in key order |
| `LatestEntries.CollectLatest` | src/f3tree.cpp:294-320 | the list stands for the newest entry of every key over all directories |
| `LatestEntries.IsLatestOp` | src/f3tree.cpp:281-292 | an operation passes exactly when it is the newest entry of its key |
| `Evaluators.ProducersForEvaluator` | src/f3tree.cpp:343-359 | consecutive producers, as many as the quotient of producers and workers for every worker but the last, which has the rest; no one for a worker that is not there |
| `Evaluators.OneEvaluatorEach` | src/f3tree.cpp:338-359 | each producer belongs to exactly one evaluator |
| `Evaluators.NodesForWorker` | src/f3tree.cpp:361-374 | the nodes whose remainder by the number of workers is the worker's own number, ascending |
| `Evaluators.CollectProducersForNodes` | src/f3tree.cpp:322-336 | exactly the producers with accounted entries that live on one of the nodes, ascending |
| `Evaluators.ClampIsNeverNeeded` | src/f3tree.cpp:462-473 | with chunks rounded up, no producer's slot is past the last one |
| `Evaluators.Partition` | src/f3tree.cpp:462-473 | the slots are consecutive pieces of the list of producers, each as long as the rounded-up quotient until the list runs out; taken slot by slot they give the list back |
| `Wrapper.KeyOrderedReplay` | src/f3tree.cpp:390-426 | the whole log of the kept producers is applied in sequence order, and their chains are emptied |
| `Wrapper.KeyPartitionedReplay` | src/f3tree.cpp:446-493 | the kept producers' logs are applied one after the other from the tail, and their chains are emptied |
| `Wrapper.NodeOrderedReplay` | src/f3tree.cpp:495-540 | the nodes are applied in the order of their first sequences, filtered by the snapshot, and the chains are emptied |
| `Wrapper.FutureBTree.Buffer` | src/f3tree.cpp:1034-1103 | an unknown producer is refused and changes nothing; otherwise the three phases of the protocol run, and the accounts stay consistent |
| `Protocol.AccountKeepsAccounts` | src/f3tree.cpp:1080-1093 | the accounting step keeps the counts equal to the sums, nothing lost between them, and every chain within its accounts and its operation in flight |
| `Wrapper.FutureBTree.DrainAllLocked` | src/f3tree.cpp:712-782 | the full drain of the protocol, for all three policies |
| `Wrapper.FutureBTree.DrainSliceLocked` | src/f3tree.cpp:784-891 | the slice drain of the protocol, for all three policies |
| `Wrapper.FutureBTree.SubtractPending` | src/f3tree.cpp:673-687 | the drained producers' entries leave all three kinds of counts |
| `Locks.ProducerOrdered` | core/btree.h:1876-1961 | a producer asks for locks in increasing rank and releases them, and visits its chain, its directory and the accounts, each under its lock |
| `Locks.ReaderOrdered` | src/f3tree.cpp:1163-1185 | so does contains(), which visits the chains that its pre-filters name, in order, and then the tree |
| `Locks.DrainOrdered` | src/f3tree.cpp:250-264 | so does every drain: wrapper, tree, chains ascending, directories; it visits the snapshot's directories, the chains, the tree, the chains again to empty them, and the directories it clears |
| `Locks.NoDeadlock` | src/f3tree.cpp:243-264 | in every reachable state of threads with ordered programs, all are finished or one can step |
| `Locks.SchedulesAreFinite` | src/f3tree.cpp:243-264 | every step is progress, so the threads come to an end |
| `Locks.SystemNeverDeadlocks` | src/f3tree.cpp:735-764 | any number of threads, each doing producer operations, reads and drains one after the other, in any interleaving, never deadlock |
| `Locks.NoCollision` | src/f3tree.cpp:243-264 | in every reachable state each thread visits only what it has locked, and no two threads are at the same chain, directory, tree or account |
| `Locks.SystemNeverCollides` | src/f3tree.cpp:735-764 | that holds for any number of threads of those programs |
| `AckWindow.AcknowledgedCounter.Acknowledge` | YCSB-cpp/core/acknowledged_counter_generator.cc:12-30 | a value less than 65536 above the limit is taken for itself, any other for the one of its bit above the limit, and it is refused exactly when that was acknowledged before; afterwards the limit is exact unless all values of the next full window are acknowledged, and it always stays exact for values inside the window |
| `AckWindow.AcknowledgedCounter.Last` | YCSB-cpp/core/acknowledged_counter_generator.h:21-30 | everything from the start to the result is acknowledged, and the next value is not while values stayed inside the window |
| `AckWindow.LastIsLargest` | YCSB-cpp/core/acknowledged_counter_generator.h:21-30 | that result is the largest value up to which everything is acknowledged |
| `Bloom.CompressibleBloomFilter.Insert` | core/bloom_filter.hpp:260-273 | exactly the bits of the key are set in addition; in a filter that was never compressed those are the remainders of its hashes by the size |
| `Bloom.CompressibleBloomFilter.Contains` | core/bloom_filter.hpp:303-319 | true exactly when every bit of the key is set, and so for every inserted key; in a filter that was never compressed those are the remainders of its hashes by the size |
| `Bloom.CompressibleBloomFilter.Compress` | core/bloom_filter.hpp:661-708 | refused exactly when empty or no smaller, overrunning exactly when under half the size; otherwise the table is folded onto its front part and every inserted key is still contained |
| `Bloom.FoldKeepsKey` | core/bloom_filter.hpp:712-722 | folding the bytes agrees with the chained remainders |
| `Bloom.IndexOnce` | core/bloom_filter.hpp:712-722 | with one size, the bit of a hash is its remainder |
| `Bloom.IndexFromFront` | core/bloom_filter.hpp:712-722 | with more sizes, the remainder by the first goes on through the others |
| `Bloom.IndexTwice` | core/bloom_filter.hpp:712-722 | after one compression, the bit is the remainder of the remainder |
| `Bloom.FoldedBits` | core/bloom_filter.hpp:688-701 | a bit of the folded table is set exactly when one of the two bits laid over each other was |

## Left out

- Page memory in `Tree` and `Systems` is a map from addresses to page values. The store-by-store view of a
  page is in `Pages` and `Splits`, for one page and one leaf split, and `PageLayout` proves that it leaves
  those values, siblings apart; tree operations are serialised by the tree lock.
- Visibility.ContentsOverRuns: under F3-N a key is inserted only after its buffered delete is drained;
  `FailingRuns.ReinsertionDoublesKey` shows why.
- Readers.OwnKeyIsFound: under F3-N full drains are careful; `Visibility.FullDrainCanLoseAWrite` shows why.
- BufferedIndex.BufferedHashIndex.Upsert: without room the source stores behind the slots, which is
  undefined; the model reports it and leaves the index as it was. The same holds for `Erase`.
- `remove_rebalancing`, `btree_delete_internal` and the `is_deleted` flag: not on the live delete path.
- `scan_range`, `linear_search_range` and the legacy evaluators.
- `warmup_insert` into the tree and `global_contains`: a plain insertion and a plain search.
- `pending_future_nodes`: it counts with a fixed node size of its own.
- Cache-line flushes and fences: stores are taken as persistent in program order.
- Persistent pools, allocation and address translation, apart from the recovery walk.
- NUMA topology, thread placement, condition variables, timing and locality statistics: an evaluator
  wake-up is a drain that may come at any time.
- Integer widths: keys, sequences and counters are unbounded, and the 8-bit switch counter's wrap-around
  is written out.
- The hash pre-filter and the lookup directories inside `Protocol` are a set and a map, that is, within
  their capacity. `Systems` runs them as tables within it, `Producers`, `HashTables` and `Directories` say
  what the tables do beyond it.
- The F3-N snapshot of other producers' directories is taken as one moment of the drain.
- Pages.Page.InsertKey: for absent keys with a pointer that the page does not hold yet, nonzero in leaves;
  the source stores a second copy of a present key, and a zero pointer ends the page.
- Tree.BTree.Store: for keys that the leaf does not hold, like `Pages.Page.InsertKey`.
- Tree.BTree.Insert: for absent nonzero keys; second copies are counted in `Ops`, not placed in pages.
- Tree.BTree.Apply: inserts absent keys, like `Tree.BTree.Insert`.
- Drains.NodeDrainVisibility: two or more copies of a key are a number; where pages separate them
  (`Tree.StraddlingCopyIsMissed`), a delete of one can hide the others as well.
- Drains.LogDrainVisibility: the same, and so for `Ops.LastDecidesExactly` and the runs of `FailingRuns`
  with two copies.
- Tree.BTree.Execute: a key at or above the page addresses is not inserted again after a delete of it,
  because that delete may have passed over it and the insertion would be a second copy.
- Wrapper.FutureBTree.Buffer: on lists, sets and maps, and one thread per producer id, as the source
  assumes without checking; the same insertion on linked chains and tables is in `Systems.SystemStep`.
- Systems.RunThenContains: the number of distinct keys is bounded by the tables, keys are below the page
  addresses, and runs are disciplined (disjoint producer keys, insertions of absent keys, careful full
  F3-N drains); a chain node holds at least one entry and a page at least four.
- Bloom.CompressibleBloomFilter.Compress: takes the truncated target size instead of a percentage. A
  byte is the set of its one bits, a key the list of its hash values. After an overrun, which is
  undefined in the source, the model leaves the filter as it was.
- Bloom filter parameters and false-positive rates, YCSB bindings, workload generators, benchmarks.
