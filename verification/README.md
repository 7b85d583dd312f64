# Lux EVM: chain, recovery, block building and predicates in Dafny

A Dafny model of the consensus-facing core of the Lux EVM and proofs about it. `dafny verify dfyconfig.toml` checks everything.

What is modelled, by file:

- `Chain.dfy`, `Finality.dfy`: the hash-linked tree of stored blocks, the height-to-hash index, the preferred head and the last accepted block; inserts, preference changes, accepts and rejects as steps; finality over whole runs.
- `BlockChain.dfy`: the chain object itself: reorg, set-preference, insert, accept, reject, the acceptor, start-up recovery and cache warm-up as methods on mutable fields. The contract of each operation is the step of the node's state machine it performs (for inserts, accepts and rejects, the effect of the step; what consensus and the VM guarantee beside that is the step's guard), and `Recover` is the whole way from a crash of any reachable node to a running one.
- `BoundedBuffer.dfy`, `TrieWriter.dfy`: the ring buffer, the first-in first-out cache, and reference counting of state roots.
- `Node.dfy`, `Recovery.dfy`, `CallerDuties.dfy`: chain, the VM's record, acceptor queue, commits, references and cache together as one state machine with crashes between any two actions, in recovery too, and a configuration chosen anew at every start; what stays final, how far recovery has to search, when a node starts up again, and where it ends if its callers do not do their part.
- `ChainIndexer.dfy`: sections processed while the lock is released.
- `BlockIterator.dfy`: parallel readers feeding a modular window.
- `TxOrdering.dfy`, `StateTransition.dfy`, `BlockBuilder.dfy`: price-and-nonce order, gas and value accounting of a transaction and of a block, and the block-building loop.
- `PredicateResults.dfy`, `PredicateBytes.dfy`, `HashMemo.dfy`: the predicate codecs and the ancestor-hash memo.
- `Outcomes.dfy`, `Arithmetic.dfy`: shared helpers.

Results that differ from what one might expect of the code:

- Recovery (`core/blockchain.go:838`) searches 2*CommitInterval blocks back, with the CommitInterval of the new session. After a crash of a running node whose acceptor has written a tip, one CommitInterval of the crashed session is always enough, so the search always succeeds if and only if the old interval is at most twice the new one (`Recovery.CrashSearchIff`). A restart with a smaller one can fail: `Recovery.ExampleShorterInterval` has its tip a whole old interval above the only committed state. (The test at `core/blockchain_ext_test.go:1996-2025` restarts from 4096 to 6 with its blocks just within reach.)
- A recovery advances the tip before it commits anything, so when it is itself interrupted the next one starts higher. What decides is the number k of recorded blocks not processed at the crash, beside the two intervals (`Recovery.TwiceTheIntervalIff`): with an unchanged configuration 2*CommitInterval is enough for all recoveries if and only if k is at most CommitInterval plus one. While the queue is open that comes to the old CommitInterval plus the old AcceptorQueueLimit being at most twice the new CommitInterval (`Recovery.OpenQueueIff`). Once the queue is closed nothing bounds k, and for every configuration there are recoveries that fail (`Recovery.ExampleTooFarBehind`). A node that never wrote a tip is safe if and only if k is at most twice the new CommitInterval (`Recovery.NoTipIff`).
- Accept does not ask whether the block is stored. A sibling that was rejected, and so deleted, can still be accepted (the case of the comment at `core/blockchain.go:1345-1352`); its state is executed again, but the block itself is gone, and the node cannot restart: `CallerDuties.UnstoredAcceptNeverRestarts` for every such accept, `CallerDuties.ExampleAcceptsRejected` for a run that gets there.
- The VM records an accepted block after the chain has accepted it (`plugin/evm/block.go:76-121`). A crash in between undoes the accept, and only then (`Recovery.CrashKeepsAcceptIffRecorded`); what is recorded is final (`Recovery.RecordedIsFinal`).
- In such a crash the acceptor may already have committed the block. If the state below it is not on disk, recovery finds the state above the last accepted block, re-executes nothing, and start-up reports the missing head state. `Recovery.CrashStartsUpIff` is the exact condition, `Recovery.ExampleStranded` a reachable crash for every CommitInterval above one, and `Recovery.EveryCrashStartsUpIff` says that committing every block is the only configuration without it, whatever the node restarts with.
- Reference counts survive an accept, with or without re-execution, and a reject if and only if the block was inserted in this session, its root is on disk, or its root is not in memory (`TrieWriter.ConservedIffSettled`). A block left over from an earlier session that shares its root with a pending one breaks them: `TrieWriter.UnsettledReleases` ends with a pending block whose state is gone.
- The first-in first-out cache deletes by key, so it holds exactly the last `limit` puts only if no key is repeated within the window (`FIFOCaches.ExactIffNoClash`). The accepted-header cache never repeats one (`Recovery.CacheIsRecent`).
- A transaction that fails while a block is built loses the predicate results stored under its own hash; nothing else is lost. Everything is as before exactly if there were none (`PredicateResults.DeleteUndoesSet`), which the builder guarantees because no transaction is listed twice.
- The comment at `core/chain_indexer.go:237-246` says that signalling a reorg at the previous head may reindex more than needed. A signal at a greater height invalidates fewer sections (`ChainIndexer.ReorgSignalMonotone`), so this one may reindex less than a signal at the common ancestor; that the stored sections are right rests on `verifyLastHead`, as `ChainIndexer.LastHeadSuffices` shows. The model follows the code.
- The parser of predicate results accepts trailing bytes, unsorted and repeated keys; `PredicateResults.AcceptedRoundTrip` says what still holds of every accepted input.

Assumptions, each a parameter or a precondition: a hash determines its block; a block's number is its stored parent's plus one; block verification has succeeded before a block is inserted; EVM execution is a function that neither makes nor destroys value and never returns more gas than it was given; the predicates do not look at blob sidecars; the pool lists no transaction twice; the VM records an accepted block before the next is accepted; an accepted block is stored; a rejected one is not between the head and the base; and consensus does not go back on a decision: if the acceptor had already written the tip of a block whose accept was lost in a crash, that block is the next one accepted, and it is not rejected. Beside settled books these are exactly what accepts and rejects need (`Node.AcceptKeepsIff`, `Node.RejectKeepsIff`); `CallerDuties.dfy` shows where a node ends without them.

## Model

| member | source | states |
|---|---|---|
| `Finality.InsertKeepsInv` | core/blockchain.go:1491-1548 | storing a block, and making it the head if its parent is, keeps the canonical index equal to the head's ancestors, height by height, and empty above the head |
| `Finality.AcceptKeepsInv` | core/blockchain.go:1320-1379 | accepting a child of the last accepted block keeps the same invariant, with the accepted block below the head |
| `Finality.AcceptKeepsInvIff` | core/blockchain.go:1320-1383 | accepting a child of the last accepted block keeps the chain invariant if and only if the block is stored, which accept itself does not ask |
| `Finality.ConflictIsOffPath` | core/blockchain.go:1428-1454 | a stored block that is neither ancestor nor descendant of the last accepted one is not on the path from the head to the base |
| `Finality.RejectNeverCanonical` | core/blockchain.go:1428-1454 | such a block is at no height of the canonical index, so deleting it deletes nothing canonical |
| `Finality.RejectMissesPath` | core/blockchain.go:1428-1454 | a block that is not between the head and the base is on neither the path of the head nor the path of the last accepted block |
| `Finality.RejectKeepsPath` | core/blockchain.go:1428-1454 | deleting it leaves every ancestor of the head and of the last accepted block where it was |
| `Finality.RejectKeepsInv` | core/blockchain.go:1428-1454 | deleting it keeps the chain invariant |
| `Finality.DeleteKeepsInvIff` | core/blockchain.go:1428-1454 | deleting a block keeps the chain invariant if and only if the block is not on the path from the head down to the base |
| `Finality.RestartKeepsInv` | core/blockchain.go:816-833 | a start-up from a recorded ancestor of the last accepted block keeps the invariant and undoes exactly the accepts above it |
| `Finality.CanonicalIsAncestor` | core/blockchain.go:926-1027 | in every state with the invariant the index at each height from the base to the head is the stored ancestor of the head at that height, which is what the run-time validation checks |
| `Finality.AcceptedIsCanonical` | core/blockchain.go:926-1027 | every ancestor of the last accepted block is canonical at its height |
| `Finality.StepKeepsInv` | core/blockchain.go:907-923 | every insert, preference change, accept and reject keeps the chain invariant |
| `Finality.StepKeepsAccepted` | core/blockchain.go:1835-1837 | no step drops a block from the accepted chain |
| `Finality.StepAcceptsChild` | core/blockchain.go:1325-1343 | the last accepted block stays or moves to its own child |
| `Finality.RunKeepsInv` | core/blockchain.go:926-1027 | the chain invariant holds in every state of every run |
| `Finality.RunKeepsAccepted` | core/blockchain.go:1320-1383 | what is on the accepted chain at one moment of a run is on it at every later moment |
| `Finality.AcceptedIsFinal` | core/blockchain.go:1320-1383 | whatever was accepted at one moment of a run is stored, canonical at its height and at or below the head at every later moment |
| `Finality.NoGaps` | core/blockchain.go:1320-1343 | between two moments of a run every height between the two accepted heights was accepted in turn |
| `BoundedBuffers.BoundedBuffer.constructor` | core/bounded_buffer.go:21-28 | a new ring is empty |
| `BoundedBuffers.BoundedBuffer.Insert` | core/bounded_buffer.go:32-49 | the ring holds the last `size` values in order, and the value handed to the callback is the oldest one, exactly when the ring was full |
| `BoundedBuffers.BoundedBuffer.Last` | core/bounded_buffer.go:55-60 | the newest value, if any |
| `FIFOCaches.FIFOCache.constructor` | core/fifo_cache.go:24-34 | a new cache is empty; limit 0 is the no-op cache |
| `FIFOCaches.FIFOCache.Put` | core/fifo_cache.go:43-64 | after any history of puts the map is the one where each put deletes the key put `limit` puts earlier and then writes its own; the ring is the keys of the last `limit` puts |
| `FIFOCaches.FIFOCache.Get` | core/fifo_cache.go:51-57 | the value that history leaves for the key |
| `FIFOCaches.ExactIffNoClash` | core/fifo_cache.go:43-64 | the cache holds exactly the last `limit` puts after every put of a history if and only if no key is put again while its earlier put is still in the window (unless the evicting put writes that key) |
| `FIFOCaches.ClashDisagrees` | core/fifo_cache.go:43-64 | any such repetition makes the cache lose a key of the window |
| `FIFOCaches.NoClashAgrees` | core/fifo_cache.go:43-64 | without repetitions the cache is the last `limit` puts, for every history |
| `FIFOCaches.CacheSound` | core/fifo_cache.go:51-57 | every entry of the cache was put with that value |
| `TrieWriter.AcceptConserves` | core/state_manager.go:134-180 | accepting moves one reference from the pending blocks to the tip window, releases exactly the root that leaves the window, and keeps the books |
| `TrieWriter.FinalizeConserves` | core/blockchain.go:1345-1379 | consensus accepting a block keeps the books, also when its state has to be executed again: the block then holds the reference that takes |
| `TrieWriter.ApplyConserves` | core/state_manager.go:120-185 | every insert, accept by consensus, hand-over by the acceptor and reject keeps the books: the references on each root that is not on disk are the pending blocks with that root plus its occurrences in the window, plus what was there initially |
| `TrieWriter.ConservedIffSettled` | core/blockchain.go:1345-1379 | accepting or rejecting a block keeps the books if and only if the block was inserted in this session, its root is on disk, or its root is not in memory |
| `TrieWriter.UnsettledReleases` | core/blockchain.go:1345-1379 | otherwise: a block not inserted in this session that shares its root with a pending one is accepted, and two hand-overs later the pending block's state is gone |
| `TrieWriter.RunConserves` | core/state_manager.go:120-185 | the books balance in every state of every run of settled events, even when many blocks share a root |
| `TrieWriter.NothingReleased` | core/state_manager.go:134-185 | so in every run the state of every pending block and of every root in the window is available |
| `TrieWriter.NothingKept` | core/state_manager.go:134-185 | and a root that is neither pending nor in the window nor initially referenced is available only if it is on disk |
| `TrieWriter.CappedMemoryTrieWriter.constructor` | core/state_manager.go:67-85 | a new writer has an empty window |
| `TrieWriter.CappedMemoryTrieWriter.Insert` | core/state_manager.go:120-132 | the writer object's step is the step the books are proved for |
| `TrieWriter.CappedMemoryTrieWriter.Accept` | core/state_manager.go:134-180 | the same for accepting, with the commit at multiples of the interval and the dereference of the root that drops out of the ring |
| `TrieWriter.CappedMemoryTrieWriter.Reject` | core/state_manager.go:182-185 | the same for rejecting |
| `TrieWriter.CappedMemoryTrieWriter.Stop` | core/state_manager.go:187-198 | a clean shutdown commits the newest root of the window |
| `Node.InsertKeeps` | core/blockchain.go:1509-1548 | an insert keeps the invariant of the whole node: chain, record, queue, tip, commits within reach, references and cache |
| `Node.PreferKeeps` | core/blockchain.go:1113-1135 | so does a preference change |
| `Node.AcceptKeeps` | core/blockchain.go:1320-1383 | so does an accept, of a pending block or of one whose state is executed again: all accepted blocks above the processed one are pending, and while the queue is open they are what waits in it, in order |
| `Node.AcceptKeepsIff` | core/blockchain.go:1320-1383 | an accept keeps the invariant if and only if the block is stored, the previous accept is recorded, the block is the tip's own if the tip is ahead of the record, and the books can take it |
| `Node.RejectKeepsIff` | core/blockchain.go:1428-1454 | a reject keeps the invariant if and only if the block is not between the head and the base, is not the acceptor tip, and the books can take it |
| `Node.RecordKeeps` | plugin/evm/block.go:76-121 | so does the VM recording the accepted block |
| `Node.RejectKeeps` | core/blockchain.go:1428-1454 | so does a reject: no accepted block stops being pending, and the acceptor tip is never deleted |
| `Node.TakeKeeps` | core/blockchain.go:653-660 | so does the acceptor taking the next block |
| `Node.IndexKeeps` | core/blockchain.go:557-576 | so does writing the accepted indices and the acceptor tip |
| `Node.FinishKeeps` | core/blockchain.go:661-707 | so does finishing a block: a committed state stays within one commit interval below the processed block, and below the recorded one |
| `Node.FinishCommits` | core/state_manager.go:146-153 | finishing a block at a commit height makes its own state the committed one; at any other height the last committed one is still the nearest |
| `Node.CloseKeeps` | core/blockchain.go:742-762 | so does closing the drained queue |
| `Node.ShutdownKeeps` | core/state_manager.go:187-198 | so does a clean shutdown, which puts the processed state on disk |
| `Node.CrashReaches` | core/blockchain.go:2120-2171 | after a crash of a running node there is a committed state on the recorded chain, within one commit interval of the crashed session below the acceptor tip, and no further below the recorded block than the blocks not processed and what is left of an interval |
| `Node.CrashTip` | core/blockchain.go:816-833 | after a crash the acceptor tip is on the recorded chain, or it is the child of the recorded block whose accept was lost |
| `Node.CrashKeeps` | core/blockchain.go:793-839 | a crash, which falls back to the recorded block, and a restart with any configuration keep the invariant, also during recovery |
| `Node.RecoverSearchKeeps` | core/blockchain.go:2152-2171 | so does a successful search |
| `Node.RecoverIndexKeeps` | core/blockchain.go:2184-2234 | so does one recovery step that writes indices |
| `Node.RecoverDoneKeeps` | core/blockchain.go:2249-2251 | so does the final commit of a recovery |
| `Node.StepKeeps` | core/blockchain.go:653-762 | every step of the node, crashes and recoveries included, keeps the invariant |
| `Recovery.RunKeepsInv` | core/blockchain.go:653-762 | the node's invariant holds in every state of every run |
| `Recovery.StepOfChain` | core/blockchain.go:793-833 | seen from the chain alone, a crash is a restart from the recorded block, and every other step is a step of the chain or none |
| `Recovery.RecordedIsFinal` | plugin/evm/block.go:76-121 | finality across crashes and recoveries: whatever is on the recorded chain at one moment of a run is stored, canonical, at or below the head and on the accepted chain at every later moment |
| `Recovery.AcceptedIsFinal` | core/blockchain.go:1320-1383 | finality between crashes: whatever is accepted, recorded or not, stays final as long as the node keeps running |
| `Recovery.CrashKeepsAcceptIffRecorded` | plugin/evm/block.go:76-121 | a crash leaves the last accepted block final if and only if the VM had recorded it |
| `StateSearch.WalkBackFinds` | core/blockchain.go:2152-2171 | the search finds a state whenever one is available within its limit |
| `StateSearch.WalkBackFirst` | core/blockchain.go:2152-2171 | and what it finds is the first available one below the start |
| `Recovery.CrashRecoversWithinInterval` | core/blockchain.go:2145-2171 | for a crash between any two actions of a reachable node with an acceptor tip, and a restart with any configuration, the search from the tip succeeds within the CommitInterval of the crashed session |
| `Recovery.CrashSearchIff` | core/blockchain.go:838-838 | after a restart with another configuration the search of 2*CommitInterval blocks succeeds for every such crash if and only if the old CommitInterval is at most twice the new one |
| `Recovery.ExampleShorterInterval` | core/blockchain.go:2169-2171 | for every shorter new interval the reachable crash and restart that fail: the tip is at the first old commit height, and only the base is on disk |
| `Recovery.InterruptedRecoveryReaches` | core/blockchain.go:2184-2251 | however often a recovery is itself interrupted and with whatever configurations, the search succeeds within the recorded blocks not processed at the crash plus the crashed session's CommitInterval minus one (but at least that CommitInterval); without a tip, within those blocks alone |
| `Recovery.TwiceTheIntervalIff` | core/blockchain.go:838-838 | twice the new CommitInterval suffices for every recovery with k recorded blocks not processed, interrupted or not, if and only if it covers the old CommitInterval and k plus the old CommitInterval minus one; with an unchanged configuration, if and only if k is at most CommitInterval plus one |
| `Recovery.ExampleTooFarBehind` | core/blockchain.go:711-720 | for every pair of configurations and every other k a reachable recovery that fails: the queue was closed and k blocks were accepted after that, or (k being 0) the tip is a whole old interval above the base |
| `Recovery.OpenQueueIff` | core/blockchain.go:838-838 | twice the new CommitInterval suffices for every recovery of a node that went down with its queue open if and only if it covers the old CommitInterval plus the old AcceptorQueueLimit; with an unchanged configuration, if and only if AcceptorQueueLimit is at most CommitInterval |
| `Recovery.ExampleFullQueue` | core/blockchain.go:2184-2251 | the reachable recovery behind that: a crash with a full queue, a first attempt that finds a state and writes every tip, and a second crash before its commit |
| `Recovery.NoTipIff` | core/blockchain.go:2145-2150 | before any tip was written the search starts at the last accepted block, and twice the new CommitInterval suffices for k blocks not processed if and only if k is at most that |
| `Recovery.FoundStartsUpIff` | core/blockchain.go:2120-2171 | a recovering node starts up if and only if the search succeeds and it is not stranded: its tip committed above a last accepted block whose state is not on disk |
| `Recovery.StartsUpIff` | core/blockchain.go:2128-2171 | where the search is sure to succeed, a reachable node starts up if and only if it is not stranded |
| `Recovery.CrashStartsUpIff` | core/blockchain.go:503-514 | after a crash of any reachable running node that has a tip, start-up fails if the tip is above the recorded block, committed, and the recorded block is not; if the old CommitInterval is at most twice the new one it fails for no other reason |
| `Recovery.EveryCrashStartsUpIff` | core/blockchain.go:503-514 | every such crash is survived if and only if the old CommitInterval is one, whatever the new one |
| `Recovery.ExampleStranded` | plugin/evm/block.go:76-121 | for every greater CommitInterval the reachable crash that is not: the block at the first commit height is committed and the node goes down before it is recorded |
| `Recovery.CleanShutdown` | core/state_manager.go:187-198 | after a clean shutdown with nothing accepted since the queue was closed the next start finds the last accepted state at once |
| `Recovery.StartedUpLeads` | core/blockchain.go:2120-2253 | a start-up is a path of the state machine: the search, one indexing step for each block above the tip, the final commit |
| `Recovery.StatesAvailable` | core/blockchain.go:1345-1379 | while a reachable node runs, the last accepted block's state is available, so an accepted block can always be executed again on it, and so are the states of all pending blocks |
| `Recovery.QueueIsTheGap` | core/blockchain.go:711-724 | while the queue is open, the accepted blocks above the processed one are exactly the waiting blocks, in order, and at most the queue limit plus the one in hand |
| `Recovery.CacheIsTransparent` | core/headerchain.go:201-210 | in every reachable state the header of a height is the same with and without the accepted-header cache |
| `Recovery.CacheIsRecent` | core/blockchain.go:653-707 | in every reachable state that cache holds exactly the last headers put, because heights never repeat within its window |
| `CallerDuties.UnstoredAcceptNeverRestarts` | core/blockchain.go:802-808 | a reachable node that accepts a block that is not stored has that block as its head, has lost the invariant and cannot restart, whether or not the block is recorded |
| `CallerDuties.ExampleRejectedChild` | core/blockchain.go:1443-1451 | a child of the last accepted block that is not canonical can be inserted and rejected, though it conflicts with nothing accepted |
| `CallerDuties.ExampleAcceptsRejected` | core/blockchain.go:1345-1352 | with every configuration a node can reach a state in which accepting such a rejected block leaves it unable to restart |
| `CallerDuties.LostDoesNotStart` | core/blockchain.go:2145-2150 | if the block of the acceptor tip is not stored, a restart fails |
| `CallerDuties.LostStaysLost` | core/blockchain.go:2145-2150 | and so does every later one |
| `CallerDuties.SiblingLosesTip` | core/blockchain.go:2145-2150 | accepting a sibling of a tip's block that is ahead of the record makes that block conflict with the last accepted one; once it is rejected, a crash before the acceptor writes the sibling's tip leaves a node that never starts again |
| `CallerDuties.ExampleTipAhead` | core/blockchain.go:2120-2253 | with every configuration a running node with the tip ahead of the record is reachable: a crash after the tip of an unrecorded block was written, and a recovery |
| `CallerDuties.ExampleLost` | core/blockchain.go:2145-2150 | from there the sibling can be inserted and accepted and the tip's block rejected, with the end just described |
| `Blockchain.WalkDown` | core/blockchain.go:1785-1805 | walks a branch down to a height, collecting exactly the path, or reports the missing parent |
| `Blockchain.StepTogether` | core/blockchain.go:1806-1830 | from equal heights, steps both branches down to the highest common block, or fails only if there is none |
| `Blockchain.FindFork` | core/blockchain.go:1785-1830 | finds the highest common ancestor with both branches above it, and fails only if the two heads share none |
| `Blockchain.ReorgSucceeds` | core/blockchain.go:1835-1837 | the reorg check passes if and only if the new head descends from the last accepted block |
| `Blockchain.BlockChain.constructor` | core/blockchain.go:414-551 | a new chain is an initial state of the node |
| `Blockchain.BlockChain.WriteBranch` | core/blockchain.go:1860-1863 | makes a branch canonical, oldest block first |
| `Blockchain.BlockChain.PruneIndex` | core/blockchain.go:1865-1895 | deletes the index entries above the new head up to the first hole |
| `Blockchain.BlockChain.Reorg` | core/blockchain.go:1779-1935 | succeeds exactly if the new head descends from the last accepted block; then every index entry but the new head's own, which the caller writes, is the new head's ancestor or empty above it, and the blocks reported dropped are the old branch above the highest common ancestor; a failed reorg changes nothing |
| `Blockchain.BlockChain.SetPreference` | core/blockchain.go:1113-1135 | fails exactly if the block does not descend from the last accepted one, changing nothing; otherwise head and index move to it, and for a stored block, and no other, that keeps the chain in order and is the preference step of the node |
| `Blockchain.BlockChain.InsertBlock` | core/blockchain.go:1607-1735 | succeeds exactly if the block verifies and its parent is stored with an available state; then, unless writes are off, it is the insert step of the node, with one reference on the block's state; otherwise neither chain nor books change |
| `Blockchain.BlockChain.StoreAndExtend` | core/blockchain.go:1491-1505 | stores the block and extends the canonical chain exactly if its parent is the head |
| `Blockchain.BlockChain.Accept` | core/blockchain.go:1320-1396 | accepts exactly the children of the last accepted block whose state is available or can be recomputed from the last accepted state; then it has the effect of the node's accept step, and the block's state is available; on failure at most the preference has moved; the chain stays in order exactly if the block is stored or nothing moved |
| `Blockchain.BlockChain.PreferAccepted` | core/blockchain.go:1337-1343 | the reorg inside accept cannot fail |
| `Blockchain.BlockChain.MaterializeState` | core/blockchain.go:1345-1379 | a missing state is executed again, which takes a reference, and the block is entered in the books |
| `Blockchain.BlockChain.RecordAccepted` | plugin/evm/block.go:76-121 | the record step of the node |
| `Blockchain.BlockChain.Reject` | core/blockchain.go:1428-1454 | for every block: exactly that block is deleted, the books are those of a reject, all else is as before, and the chain stays in order exactly if the block was not between the head and the base |
| `Blockchain.BlockChain.TakeAccepted` | core/blockchain.go:653-660 | the take step of the node, or nothing if the queue is empty |
| `Blockchain.BlockChain.IndexAccepted` | core/blockchain.go:661-668 | the index step of the node: tip and indices before the trie is touched |
| `Blockchain.BlockChain.FinishAccepted` | core/blockchain.go:668-707 | the finish step of the node: trie handed over, header cached, in-memory tip moved |
| `Blockchain.BlockChain.GetHeaderByNumber` | core/headerchain.go:201-210 | the lookup through the accepted-header cache |
| `Blockchain.BlockChain.FindState` | core/blockchain.go:2152-2171 | the loop computes the search the bounds are proved for |
| `Blockchain.BlockChain.ReExecute` | core/blockchain.go:2184-2251 | re-executes up to the last accepted block: its state is then on disk, nothing else has changed there, and indices are written for exactly the blocks strictly above the old acceptor tip, in order |
| `Blockchain.ReExecutedKeeps` | core/blockchain.go:2184-2234 | one re-execution takes a reference on the new root and releases the previous one without losing any other state |
| `Blockchain.BlockChain.ReprocessState` | core/blockchain.go:2120-2253 | succeeds exactly if the block of the acceptor tip is stored and the search finds a state; unless that lies above the last accepted block, the last accepted state is then on disk and the rest of the disk unchanged; a tip that is not ahead is brought up to the last accepted block with the indices of exactly the blocks above it; a failure changes nothing |
| `Blockchain.BlockChain.Restart` | core/blockchain.go:793-833 | fails exactly if the head block or the recorded one is not stored, changing nothing; otherwise it is the crash step of the node with the new configuration: only the databases survive, and the recorded block becomes the last accepted one and the head |
| `Blockchain.BlockChain.LoadLastState` | core/blockchain.go:793-839 | succeeds exactly if the tip's block is stored, a state is found and the last accepted state is there in the end, and then it is on disk |
| `Blockchain.BlockChain.StartUp` | core/blockchain.go:503-551 | succeeds exactly under the start-up condition, and then what was done is a path of recovery steps to a running node |
| `Blockchain.BlockChain.Recover` | core/blockchain.go:414-551 | for every reachable node and every new configuration, restart and start-up together: with a tip it fails if the node is stranded, and if the old CommitInterval is at most twice the new one for no other reason; the node it leaves is reachable |
| `Blockchain.BlockChain.Stop` | core/blockchain.go:1067-1096 | the shutdown step of the node |
| `Blockchain.BlockChain.CanonicalBlock` | core/blockchain.go:2184-2190 | the block read through the index is the head's ancestor at that height |
| `Blockchain.BlockChain.WarmAcceptedCaches` | core/blockchain.go:615-649 | refills the cache with the last accepted headers in order of height, as many as fit |
| `ChainIndexer.BlocksIsProduct` | core/chain_indexer.go:400-415 | section boundaries by repeated addition are multiples of the section size |
| `ChainIndexer.Indexer.SetValid` | core/chain_indexer.go:491-503 | sets the number of valid sections and removes exactly the section heads above it |
| `ChainIndexer.Indexer.Verify` | core/chain_indexer.go:434-441 | drops sections from the top until the last head is canonical |
| `ChainIndexer.Indexer.Notified` | core/chain_indexer.go:255-312 | a new head or a reorg signal changes known and stored sections as specified and returns the head to cascade |
| `ChainIndexer.Indexer.Sections` | core/chain_indexer.go:446-452 | verifies first, then reports count, last block and last head, with the 64-bit wrap-around for no sections |
| `ChainIndexer.Indexer.BeginUpdate` | core/chain_indexer.go:316-350 | what a section job remembers before the lock is released |
| `ChainIndexer.Indexer.ProcessSection` | core/chain_indexer.go:400-429 | returns the section's last hash only if every header follows its predecessor from the last head on |
| `ChainIndexer.Indexer.EndUpdate` | core/chain_indexer.go:354-381 | stores the section only if the remembered head is still the last one |
| `ChainIndexer.ReorgSignalMonotone` | core/chain_indexer.go:255-287 | a reorg signalled at a greater height leaves every stored section, known section and section head that a signal lower down leaves |
| `ChainIndexer.SetValidKeeps` | core/chain_indexer.go:491-503 | removing section heads keeps the stored ones hash-linked |
| `ChainIndexer.VerifyKeeps` | core/chain_indexer.go:434-441 | so does verification |
| `ChainIndexer.NewHeadKeeps` | core/chain_indexer.go:255-312 | so does a notification |
| `ChainIndexer.FinishKeeps` | core/chain_indexer.go:354-381 | so does storing a section that was processed while the lock was released |
| `ChainIndexer.StepKeeps` | core/chain_indexer.go:316-394 | every step keeps the section heads hash-linked |
| `ChainIndexer.RunKeeps` | core/chain_indexer.go:255-394 | for every interleaving of notifications, chain changes, job starts and job ends, the stored section heads are hash-linked above the checkpoint |
| `ChainIndexer.VerifyStops` | core/chain_indexer.go:434-441 | after verification the last section left is not stale |
| `ChainIndexer.CanonicalDownwards` | core/chain_indexer.go:434-441 | a hash linked below a canonical one is canonical |
| `ChainIndexer.LastHeadSuffices` | core/chain_indexer.go:434-452 | with hash-linked heads, a canonical last head makes every stored section head above the checkpoint canonical at its height |
| `ChainIndexer.VerifyKeepsCanonical` | core/chain_indexer.go:434-441 | verification never drops a section whose head is canonical |
| `ChainIndexer.CanonicalIndexLinked` | core/chain_indexer.go:400-429 | the canonical index of a chain is itself hash-linked |
| `BlockIterator.SameSlot` | core/blockchain_iterator.go:79-108 | two heights in flight share a slot only if they are the same height |
| `BlockIterator.DeliverFindsEmptySlot` | core/blockchain_iterator.go:79-108 | a worker delivering a height finds its slot empty, so no unread block is overwritten |
| `BlockIterator.YieldIsNext` | core/blockchain_iterator.go:139-176 | what Next takes from its slot is the block of the next height |
| `BlockIterator.SendKeeps` | core/blockchain_iterator.go:120-136 | handing out a height keeps the window invariant |
| `BlockIterator.DeliverKeeps` | core/blockchain_iterator.go:79-108 | a delivery keeps it |
| `BlockIterator.YieldKeeps` | core/blockchain_iterator.go:139-176 | a yield keeps it |
| `BlockIterator.RunKeeps` | core/blockchain_iterator.go:60-176 | the window invariant holds for every interleaving of the workers |
| `BlockIterator.YieldsInOrder` | core/blockchain_iterator.go:139-176 | in every run the heights yielded are start, start+1, ... each once |
| `BlockIterator.SomeWorkerFree` | core/blockchain_iterator.go:120-136 | whenever a height is to be handed out some worker is free |
| `BlockIterator.SomeWorkerDelivers` | core/blockchain_iterator.go:79-108 | whenever Next waits for a slot some worker is still busy |
| `BlockIterator.NoDeadlock` | core/blockchain_iterator.go:60-176 | inside a call of Next some step other than an abort is always possible |
| `BlockIterator.CallReturns` | core/blockchain_iterator.go:139-176 | every step inside a call decreases a lexicographic measure, so a call ends after finitely many steps |
| `BlockIterator.BlockChainIterator.constructor` | core/blockchain_iterator.go:60-114 | a new iterator is the initial state of the protocol |
| `BlockIterator.BlockChainIterator.SendHeight` | core/blockchain_iterator.go:120-136 | the object's sending step is the protocol's |
| `BlockIterator.BlockChainIterator.ReceiveBlock` | core/blockchain_iterator.go:79-108 | so is a delivery |
| `BlockIterator.BlockChainIterator.TakeNext` | core/blockchain_iterator.go:139-176 | so is the reading step of Next |
| `Transactions.MinerFeeIsEffectivePrice` | miner/ordering.go:50-66 | the miner's fee exists exactly if the price covers the base fee, and is the effective gas price minus the base fee |
| `TxOrdering.RootIsBest` | miner/ordering.go:73-81 | in a heap nothing beats the root |
| `TxOrdering.Down` | miner/ordering.go:84-95 | sinking one element restores the heap and permutes the elements |
| `TxOrdering.InitHeap` | miner/ordering.go:131-133 | the initial heap holds the same elements |
| `TxOrdering.PopHeap` | miner/ordering.go:84-95 | popping removes exactly the root and leaves a heap |
| `TxOrdering.CollectHeads` | miner/ordering.go:112-130 | the first heads are those of the accounts whose first transaction can pay; the others are dropped |
| `TxOrdering.TransactionsByPriceAndNonce.constructor` | miner/ordering.go:112-138 | the object starts as the affordable accounts, each with its transactions in order |
| `TxOrdering.TransactionsByPriceAndNonce.Peek` | miner/ordering.go:141-146 | the next transaction of an account that no other account's next one beats on fee, then time; nothing exactly if no account is left |
| `TxOrdering.TransactionsByPriceAndNonce.Shift` | miner/ordering.go:149-159 | only the account of the best transaction moves on, to its next transaction if that one can pay, and the rest shrinks |
| `TxOrdering.TransactionsByPriceAndNonce.Pop` | miner/ordering.go:164-166 | only that account is dropped |
| `TxOrdering.TransactionsByPriceAndNonce.Clear` | miner/ordering.go:175-177 | nothing is left |
| `TxOrdering.RunPicks` | miner/ordering.go:141-166 | in every sequence of shifts and pops the account picked is one that still has transactions |
| `TxOrdering.InOrder` | miner/ordering.go:141-166 | the transactions returned for an account are a prefix of its input, in order |
| `TxOrdering.NoneTwice` | miner/ordering.go:141-166 | two picks of the same account are two different, increasing positions of its input |
| `TxOrdering.CountAfter` | miner/ordering.go:149-166 | each shift or pop leaves strictly fewer transactions |
| `StateTransition.GasPool.AddGas` | core/gaspool.go:40-46 | the pool grows by the amount |
| `StateTransition.GasPool.SubGas` | core/gaspool.go:50-56 | the amount is taken exactly if the pool has it |
| `StateTransition.UpfrontIsCovered` | core/state_transition.go:308-345 | for a message built with a base fee that passes the checks, the upfront charge plus the value is at most the balance that was required |
| `StateTransition.NothingWraps` | core/state_transition.go:537-568 | then no fee or refund multiplication leaves 256 bits |
| `StateTransition.TransferCovered` | core/state_transition.go:508-514 | and after buying gas the sender still has the value, so the transfer check cannot fail |
| `StateTransition.StateTransition.BuyGas` | core/state_transition.go:308-345 | succeeds exactly if the sender has what could be charged and the pool has the gas limit; then takes both; otherwise changes nothing |
| `StateTransition.StateTransition.PreCheck` | core/state_transition.go:347-457 | the checks in order, then buying gas; the first failing check is the error |
| `StateTransition.StateTransition.RefundGas` | core/state_transition.go:554-576 | the refund is capped at half the gas used (none with the EVM extension rules), the remaining gas is paid back and returned to the pool |
| `StateTransition.StateTransition.Settle` | core/state_transition.go:537-552 | sender and coinbase are credited, together exactly what the gas limit cost |
| `StateTransition.StateTransition.TransitionDb` | core/state_transition.go:469-552 | the whole outcome: execution on the gas left after the intrinsic part, capped refund, what the sender gets back and the coinbase is paid; with value-preserving execution a success takes exactly the gas used out of the pool and exactly the blob fee out of the total of all balances; it succeeds exactly if the message is includable; the transfer check never fails |
| `StateTransition.FeesAddUp` | core/state_transition.go:469-552 | what was charged is what is paid back, paid to the coinbase and burnt for blobs |
| `StateTransition.IntrinsicGas` | core/state_transition.go:86-141 | the overflow guards are exact: the result is the unbounded sum whenever that fits 64 bits, and an overflow error otherwise |
| `StateTransition.Overflows` | core/state_transition.go:108-135 | the division guard is true exactly if the addition would exceed 64 bits |
| `StateTransition.ApplyTransaction` | core/state_processor.go:209-238 | one transaction of a block: included exactly if includable, pool and total change as above |
| `StateTransition.CumulativeAppend` | core/state_processor.go:226-230 | appending a receipt with the running total keeps every cumulative value the prefix sum of gas used |
| `StateTransition.Process` | core/state_processor.go:155-200 | each transaction is applied to what the ones before left; pool plus used gas is the block gas limit, cumulative values are prefix sums, the total lost is the sum of the blob fees; it stops early only at a transaction that is not includable after its predecessors |
| `BlockBuilder.Environment.constructor` | miner/worker.go:281-304 | an empty block with the whole gas limit in the pool |
| `BlockBuilder.Environment.ApplyTransaction` | miner/worker.go:345-373 | succeeds exactly if the predicates can be checked and the transaction is includable; a success applies the transition to the block's state; a failure leaves state, pool and header gas as before, and of the results at most the transaction's own entry is gone |
| `BlockBuilder.Environment.Book` | miner/worker.go:306-342 | receipt, cumulative gas, size (plain transactions only), sidecar, blob count and blob gas of a committed transaction; the counters stay those of the block's transactions |
| `BlockBuilder.Environment.CommitTransaction` | miner/worker.go:306-342 | a transaction is committed exactly if it executes and, for a blob transaction, its sidecar is there and fits the blob limit; otherwise the block stays as it was |
| `BlockBuilder.Environment.TryNext` | miner/worker.go:421-480 | the next transaction is included exactly if it fits (gas, blobs, pool, size, replay protection) and commits; it is stale exactly if only its nonce is too low; otherwise nothing changes |
| `BlockBuilder.Environment.SkipBlobs` | miner/worker.go:384-394 | without room for another blob the blob list is emptied |
| `BlockBuilder.Choose` | miner/worker.go:396-416 | the chosen transaction pays at least as much as every other head of either list, strictly more if a blob transaction is preferred to a plain one |
| `BlockBuilder.Environment.Attempt` | miner/worker.go:421-480 | the list moves on by a shift after an inclusion or a stale nonce and by a pop otherwise, and strictly shrinks |
| `BlockBuilder.Environment.CommitTransactions` | miner/worker.go:375-482 | the loop terminates with less gas than any transaction needs or with both lists empty; pool gas plus header gas used stays the limit, size and blobs stay within bounds, no transaction is in twice, and the predicate results are exactly those of the included transactions |
| `BlockBuilder.ResultsKeys` | predicate/predicate_results.go:133-145 | results exist only for transactions of the block |
| `BlockBuilder.ResultsExact` | predicate/predicate_results.go:133-145 | a transaction of the block has results exactly if its predicates produced some, and then those |
| `PredicateResults.DeleteUndoesSet` | predicate/predicate_results.go:133-145 | deleting a transaction's results restores what was there before setting them if and only if it had none |
| `PredicateResults.ComputeSize` | predicate/predicate_results.go:149-158 | the size summed up in any order of the maps is the length of the encoding |
| `PredicateResults.EncodeSize` | predicate/predicate_results.go:149-158 | the sum over a map of maps is the length of its sorted encoding |
| `Wire.SortKeys` | predicate/predicate_results.go:166-173 | visiting the keys in any order gives them sorted |
| `Wire.SortedUnique` | predicate/predicate_results.go:163-173 | a set of keys has one sorted order, so the bytes do not depend on the order of iteration |
| `PredicateResults.PutEntries` | predicate/predicate_results.go:182-198 | one transaction's entries are written at the offset, inside the buffer |
| `PredicateResults.Bytes` | predicate/predicate_results.go:148-201 | fails exactly if the encoding is larger than the limit, and otherwise fills the buffer with exactly the encoding |
| `PredicateResults.ReadEntries` | predicate/predicate_results.go:98-117 | the reader on offsets stays in bounds and computes the recursive parse of the rest of the input |
| `PredicateResults.ParseResults` | predicate/predicate_results.go:74-121 | the whole reader computes the recursive parse, with the same errors, for every input |
| `PredicateResults.RoundTrip` | predicate/predicate_results.go:74-201 | parsing the encoding gives the results back, also with more bytes after it |
| `PredicateResults.EncodeInjective` | predicate/predicate_results.go:148-201 | different results have different bytes |
| `PredicateResults.AcceptedRoundTrip` | predicate/predicate_results.go:74-121 | every accepted input, sorted or not, can be encoded again in no more space and parses as the same results |
| `PredicateBytes.UnpackIffPacked` | predicate/predicate_bytes.go:28-51 | unpacking gives a message if and only if the input is the packing of that message |
| `PredicateBytes.HashSliceToBytes` | utils/bytes.go:23-29 | the words glued together in order |
| `PredicateBytes.BytesToHashSlice` | utils/bytes.go:33-44 | 32-byte words that glue to the input padded with zeros |
| `PredicateBytes.CutUndoesGlue` | utils/bytes.go:23-44 | cutting the glued bytes of some words gives those words |
| `PredicateBytes.PreparePredicateStorageSlots` | predicate/predicate_slots.go:20-30 | an address has slots exactly if it has a predicater and is listed, and they are its byte strings in list order |
| `PredicateBytes.NewPredicateTx` | predicate/predicate_tx.go:29-32 | adds the packed predicate as the last one of its address and changes no other address |
| `PredicateBytes.AddPredicates` | predicate/predicate_tx.go:29-32 | any number of predicates added one after the other: each address has its packed messages, in order, after what it had |
| `PredicateBytes.PredicatesArrive` | predicate/predicate_slots.go:20-30 | for every list of predicates, an address receives slots exactly if it has a predicater and messages, and they unpack to exactly its messages, in order |
| `HashMemo.HashAtIsAncestor` | core/evm.go:117-153 | the hash below the reference header is that of its ancestor at the height, where stored |
| `HashMemo.GetHashFn.constructor` | core/evm.go:117-120 | a new closure remembers nothing |
| `HashMemo.GetHashFn.Get` | core/evm.go:122-152 | whatever was asked before, the answer is that of a fresh walk through the store as it is now |
| `HashMemo.GetHashFn.Walk` | core/evm.go:136-151 | continuing from the last known hash reaches the same answer and only extends the memo |

## Left out

- EVM execution, StateDB, tries, snapshots, databases and the consensus engine: execution is a function parameter, stores are maps, verification is a precondition.
- TrieWriter.CappedMemoryTrieWriter.Insert: which dirty roots a cap flushes is an arbitrary set, so every choice is covered but the memory thresholds are not computed.
- TrieWriter.CappedMemoryTrieWriter.Accept: the same for the optimistic flushes before a commit height.
- The no-pruning writer and the path and Firewood state schemes: other retention rules than the capped writer's.
- Crashes in the middle of a reorg's index deletion: a reorg is one step.
- The general header, body and number caches: only the block store and the accepted-header cache are modelled.
- Administrative steps that overwrite the head and the last accepted block (state-sync reset, direct setting of the last accepted block, import): their results are possible initial states.
- Blockchain.BlockChain.Accept: a full acceptor queue is a precondition instead of a wait.
- Blockchain.BlockChain.Reorg: for a stored current head; the error for a missing one, which only an accept of a deleted block brings about, is modelled at the restart only.
- Blockchain.BlockChain.constructor: a fresh genesis chain; opening an existing database is `Restart` and `StartUp`.
- Node.AcceptKeeps: runs that violate the condition of `Node.AcceptKeepsIff` are followed only as far as `CallerDuties.dfy` does.
- Restarts that turn pruning on or off: only the capped writer's settings change between sessions.
- Event feeds, logs and transaction lookup entries: a reorg returns the dropped blocks, and its contract names the branch that replaces them.
- Blockchain.BlockChain.WarmAcceptedCaches: for a chain that starts at genesis; below a state-synced base the source stops at the first missing header.
- ChainIndexer.Indexer.Notified: child indexers are not modelled; the head to cascade to them is returned.
- ChainIndexer.Indexer.ProcessSection: errors of the back end's own processing and commit are not modelled.
- ChainIndexer.RunKeeps: checkpoints are part of the initial state, not added during processing.
- BlockIterator.BlockChainIterator.ReceiveBlock: read errors of the workers are not modelled.
- BlockIterator.BlockChainIterator.TakeNext: the state flag of a block, worker errors and Stop are not modelled.
- TxOrdering.Down: the heap is a sequence that is replaced as a whole, not updated in place in a shared slice.
- StateTransition.StateTransition.PreCheck: account nonce, code and allow-list lookups are inputs; a missing base fee is not modelled.
- StateTransition.IntrinsicGas: the access-list part is an input that may itself be an overflow-free number; its own loop is not modelled.
- StateTransition.Process: nonces and contexts are inputs of each transaction, not evolving state; the parallel executors, modular back ends and block finalization are not modelled.
- BlockBuilder.Environment.CommitTransactions: for lists that name no transaction twice.
- BlockBuilder.Environment.TryNext: which blob limit applies is a parameter; recovery of the sender is not modelled.
- PredicateBytes.UnpackIffPacked: Go's append may write into spare capacity of the caller's slice; values are copied here.
- HashMemo.GetHashFn.Get: assumes that no header below the reference is deleted between two questions to the same closure.
- Decoding results from the header's extra data, printing, and lookups of single results: one-line wrappers.
- rpc, ethclient, network, node, api, warp, accounts/abi, fee configuration, metrics: transport, tables and plumbing.
