/** The chain object: block store, height index, head, last accepted block, acceptor
    queue and recovery, with each method proved against the node's state machine. */
module Blockchain {
  import opened Outcomes
  import opened Chain
  import F = Finality
  import opened FIFOCaches
  import opened TrieDatabase
  import opened TrieWriter
  import opened StateSearch
  import N = Node
  import R = Recovery

  datatype ChainError =
    | InvalidOldChain | InvalidNewChain | OrphansFinalized
    | NotChildOfLastAccepted | StateUnavailable | UnknownAncestor | Invalid
    | HeadStateMissing | HeadBlockMissing | LastAcceptedMissing | TipBlockMissing

  /** Where two branches part: the blocks above `common` on the old and on the new
      branch, topmost first. */
  datatype Fork = Fork(common: Block, oldChain: seq<Block>, newChain: seq<Block>)

  /** `path` lists the blocks from `b` down, topmost first. */
  ghost predicate IsPath(store: Store, b: Block, path: seq<Block>) {
    forall i :: 0 <= i < |path| ==> i <= b.number && Ancestor(store, b, b.number - i) == Some(path[i])
  }

  /** `common` is the highest block on both branches, and the two lists are the rest of
      each branch. */
  ghost predicate IsFork(store: Store, oldHead: Block, newHead: Block, f: Fork) {
    && Descends(store, oldHead, f.common) && Descends(store, newHead, f.common)
    && |f.oldChain| == oldHead.number - f.common.number && IsPath(store, oldHead, f.oldChain)
    && |f.newChain| == newHead.number - f.common.number && IsPath(store, newHead, f.newChain)
    && forall c :: Shared(store, oldHead, newHead, c) ==> c.number <= f.common.number
  }

  ghost predicate Shared(store: Store, oldHead: Block, newHead: Block, c: Block) {
    Descends(store, oldHead, c) && Descends(store, newHead, c)
  }

  lemma AncestorDown(store: Store, b: Block, x: Block)
    requires Ancestor(store, b, x.number) == Some(x) && x.number > 0
    ensures Ancestor(store, b, x.number - 1) == Parent(store, x)
  {
    AncestorCompose(store, b, x.number, x.number - 1);
  }

  /** Once two branches differ at a height they differ at every height above it. */
  lemma DifferAbove(store: Store, oldHead: Block, newHead: Block, m: nat, c: Block)
    requires Ancestor(store, oldHead, m).Some? && Ancestor(store, newHead, m).Some?
    requires Ancestor(store, oldHead, m) != Ancestor(store, newHead, m)
    requires Shared(store, oldHead, newHead, c)
    ensures c.number < m
  {
    if c.number >= m {
      AncestorCompose(store, oldHead, c.number, m);
      AncestorCompose(store, newHead, c.number, m);
    }
  }

  /** Branches that differ at one height share only blocks below it. */
  lemma PartedAt(store: Store, oldHead: Block, newHead: Block, o: Block, n: Block)
    requires Descends(store, oldHead, o) && Descends(store, newHead, n) && o.number == n.number && o != n
    ensures forall c :: Shared(store, oldHead, newHead, c) ==> c.number < o.number
  {
    forall c | Shared(store, oldHead, newHead, c) ensures c.number < o.number {
      DifferAbove(store, oldHead, newHead, o.number, c);
    }
  }

  /** And none if one of them ends there. */
  lemma NothingShared(store: Store, oldHead: Block, newHead: Block, o: Block, n: Block)
    requires Descends(store, oldHead, o) && Descends(store, newHead, n) && o.number == n.number && o != n
    requires Parent(store, o).None? || Parent(store, n).None?
    ensures forall c :: !Shared(store, oldHead, newHead, c)
  {
    PartedAt(store, oldHead, newHead, o, n);
    if o.number > 0 {
      AncestorDown(store, oldHead, o);
      AncestorDown(store, newHead, n);
      forall c ensures !Shared(store, oldHead, newHead, c) {
        if c.number <= o.number - 1 {
          BrokenBelow(store, if Parent(store, o).None? then oldHead else newHead, o.number - 1, c);
        }
      }
    }
  }

  lemma PathGrows(store: Store, b: Block, path: seq<Block>, x: Block)
    requires IsPath(store, b, path) && Descends(store, b, x) && |path| == b.number - x.number
    ensures IsPath(store, b, path + [x])
  {
  }

  /** A branch that breaks off above height `m` has no block at `m` or below. */
  lemma BrokenBelow(store: Store, b: Block, m: nat, c: Block)
    requires m <= b.number && Ancestor(store, b, m).None? && c.number <= m
    ensures !Descends(store, b, c)
  {
    if Descends(store, b, c) {
      AncestorBetween(store, b, m, c.number);
    }
  }

  lemma AncestorNamed(store: Store, b: Block, m: nat)
    requires WellKeyed(store) && F.Names(store, b) && Ancestor(store, b, m).Some?
    ensures F.Names(store, Ancestor(store, b, m).value)
  {
    if m < b.number {
      AncestorStored(store, Parent(store, b).value, m);
    }
  }

  /** Walks one branch down to height `n`, collecting the blocks passed. */
  method WalkDown(store: Store, b: Block, n: nat) returns (at: Option<Block>, path: seq<Block>)
    requires n <= b.number
    ensures at == Ancestor(store, b, n)
    ensures at.Some? ==> |path| == b.number - n && IsPath(store, b, path)
  {
    at, path := Some(b), [];
    while at.Some? && at.value.number != n
      invariant at.Some? ==> n <= at.value.number && Ancestor(store, b, at.value.number) == at
      invariant at.Some? ==> |path| == b.number - at.value.number && IsPath(store, b, path)
      invariant at.None? ==> Ancestor(store, b, n).None?
      decreases if at.Some? then at.value.number + 1 else 0
    {
      var x := at.value;
      AncestorDown(store, b, x);
      path := path + [x];
      at := GetBlock(store, x.parent, x.number - 1);
      if Ancestor(store, b, n).Some? {
        AncestorBetween(store, b, x.number - 1, n);
      }
    }
  }

  /** The search of a reorg: first bring the longer branch down to the height of the
      shorter, then step both down until they meet. It fails exactly when the branches
      have no block in common. */
  method FindFork(store: Store, oldHead: Block, newHead: Block) returns (r: Result<Fork, ChainError>)
    requires WellKeyed(store) && Stored(store, oldHead) && F.Names(store, newHead)
    ensures r.Ok? ==> IsFork(store, oldHead, newHead, r.value)
    ensures r.Err? ==> forall c :: !Shared(store, oldHead, newHead, c)
  {
    var oldAt, newAt, oldChain, newChain := Some(oldHead), Some(newHead), [], [];
    if oldHead.number > newHead.number {
      oldAt, oldChain := WalkDown(store, oldHead, newHead.number);
    } else {
      newAt, newChain := WalkDown(store, newHead, oldHead.number);
    }
    ghost var low := if oldHead.number > newHead.number then newHead.number else oldHead.number;
    if oldAt.None? || newAt.None? {
      forall c ensures !Shared(store, oldHead, newHead, c) {
        if c.number <= low {
          BrokenBelow(store, if oldAt.None? then oldHead else newHead, low, c);
        }
      }
      return Err(if oldAt.None? then InvalidOldChain else InvalidNewChain);
    }
    AncestorStored(store, oldHead, low);
    AncestorNamed(store, newHead, low);
    r := StepTogether(store, oldHead, newHead, Fork(oldAt.value, oldChain, newChain), newAt.value);
  }

  /** Steps both branches down from equal height, collecting the blocks passed. */
  method StepTogether(store: Store, oldHead: Block, newHead: Block, start: Fork, newStart: Block)
    returns (r: Result<Fork, ChainError>)
    requires WellKeyed(store) && Stored(store, start.common) && F.Names(store, newStart)
    requires start.common.number == newStart.number
    requires Descends(store, oldHead, start.common) && Descends(store, newHead, newStart)
    requires |start.oldChain| == oldHead.number - newStart.number && IsPath(store, oldHead, start.oldChain)
    requires |start.newChain| == newHead.number - newStart.number && IsPath(store, newHead, start.newChain)
    requires newStart.number == oldHead.number || newStart.number == newHead.number
    ensures r.Ok? ==> IsFork(store, oldHead, newHead, r.value)
    ensures r.Err? ==> forall c :: !Shared(store, oldHead, newHead, c)
  {
    var o, n, oldChain, newChain := start.common, newStart, start.oldChain, start.newChain;
    while o.hash != n.hash
      invariant o.number == n.number && Stored(store, o) && F.Names(store, n)
      invariant Descends(store, oldHead, o) && Descends(store, newHead, n)
      invariant |oldChain| == oldHead.number - o.number && IsPath(store, oldHead, oldChain)
      invariant |newChain| == newHead.number - n.number && IsPath(store, newHead, newChain)
      invariant forall c :: Shared(store, oldHead, newHead, c) ==> c.number <= o.number
      decreases o.number
    {
      PartedAt(store, oldHead, newHead, o, n);
      PathGrows(store, oldHead, oldChain, o);
      PathGrows(store, newHead, newChain, n);
      oldChain, newChain := oldChain + [o], newChain + [n];
      var oParent := GetBlock(store, o.parent, o.number - 1);
      var nParent := GetBlock(store, n.parent, n.number - 1);
      if o.number > 0 {
        AncestorDown(store, oldHead, o);
        AncestorDown(store, newHead, n);
      }
      if oParent.None? || nParent.None? {
        NothingShared(store, oldHead, newHead, o, n);
        return Err(if oParent.None? then InvalidOldChain else InvalidNewChain);
      }
      o, n := oParent.value, nParent.value;
    }
    return Ok(Fork(o, oldChain, newChain));
  }

  /** Below the last accepted block recovery meets the acceptor tip at its height only. */
  lemma TipReached(s: F.ChainState, tip: Block, x: Block)
    requires F.Inv(s) && Stored(s.blocks, tip)
    requires Descends(s.blocks, s.accepted, tip) || Descends(s.blocks, tip, s.accepted)
    requires Descends(s.blocks, s.accepted, x) && x.number < s.accepted.number
    ensures x.hash == tip.hash <==> x.number == tip.number
  {
    AncestorStored(s.blocks, s.accepted, x.number);
  }

  /** The block above `x` is found through the index. */
  lemma NextCanonical(s: F.ChainState, x: Block)
    requires F.Inv(s) && s.head == s.accepted && s.base.number <= x.number < s.accepted.number
    requires Descends(s.blocks, s.accepted, x)
    ensures x.number + 1 in s.index
    ensures GetBlock(s.blocks, s.index[x.number + 1], x.number + 1) == Ancestor(s.blocks, s.accepted, x.number + 1)
    ensures Ancestor(s.blocks, s.accepted, x.number + 1).Some?
  {
    F.CanonicalIsAncestor(s, x.number + 1);
  }

  /** Re-executing a block: reference its root, then let go of the previous one. */
  function ReExecuted(t: Tries, previous: Option<Root>, root: Root): Tries {
    var t' := t.Reference(root);
    if previous.Some? && previous.value != root then t'.Dereference(previous.value) else t'
  }

  /** No count falls below where it started, and the newest root has one to spare. */
  ghost predicate Keeps(t0: Tries, t: Tries, previous: Option<Root>) {
    && t.disk == t0.disk
    && forall x: Root :: t.Count(x) >= t0.Count(x) + if previous == Some(x) then 1 else 0
  }

  lemma ReExecutedKeeps(t0: Tries, t: Tries, previous: Option<Root>, root: Root)
    requires Keeps(t0, t, previous)
    ensures Keeps(t0, ReExecuted(t, previous, root), Some(root))
  {
    forall x: Root
      ensures ReExecuted(t, previous, root).Count(x) >= t0.Count(x) + if root == x then 1 else 0
    {
      assert t.Count(x) >= t0.Count(x) + if previous == Some(x) then 1 else 0;
    }
  }

  function Reverse<T>(s: seq<T>): seq<T> {
    if |s| == 0 then [] else Reverse(s[1..]) + [s[0]]
  }

  lemma ReorgSucceeds(s: F.ChainState, newHead: Block, fork: Fork)
    requires F.Inv(s) && IsFork(s.blocks, s.head, newHead, fork)
    ensures Descends(s.blocks, newHead, s.accepted) <==> fork.common.number >= s.accepted.number
  {
    if Descends(s.blocks, newHead, s.accepted) {
      assert Shared(s.blocks, s.head, newHead, s.accepted);
    }
    if fork.common.number >= s.accepted.number {
      DescendsComparable(s.blocks, s.head, fork.common, s.accepted);
      DescendsTransitive(s.blocks, newHead, fork.common, s.accepted);
    }
  }

  /** Appending a child of the head to the index gives the index of that child. */
  lemma ExtendsIndex(s: F.ChainState, b: Block)
    requires F.Inv(s) && F.Fits(s.blocks, b) && b.parent == s.head.hash
    ensures Descends(s.blocks, b, s.accepted)
    ensures Indexes(s.index[b.number := b.hash], s.blocks, s.base.number, b)
  {
    assert Parent(s.blocks, b) == Some(s.head);
    forall k: nat | k >= s.base.number
      ensures CanonicalHash(s.index[b.number := b.hash], k) == HashOf(Ancestor(s.blocks, b, k))
    {
      assert CanonicalHash(s.index, k) == HashOf(Ancestor(s.blocks, s.head, k));
    }
  }

  /** What a start is given: an empty trie writer over the disk and an empty cache. */
  ghost predicate NewSession(cfg: N.Config, writer: CappedMemoryTrieWriter, cache: FIFOCache<nat, Block>, disk: set<Root>)
    reads writer, writer.tipBuffer, writer.tipBuffer.buffer, cache, cache.buffer, cache.buffer.buffer
  {
    && writer.Valid() && writer.commitInterval == cfg.commitInterval && writer.tipBuffer.size == cfg.stateHistory
    && writer.State() == Writer(Tries(disk, map[]), [])
    && cache.Valid() && cache.limit == cfg.cacheSize && cache.puts == []
    && cache.buffer != writer.tipBuffer && cache.buffer.buffer != writer.tipBuffer.buffer
  }

  class BlockChain {
    const base: Block

    // Chosen anew at every start.
    var cfg: N.Config

    // In the database.
    var blocks: Store
    var canonical: Index
    var headHash: Hash
    var dbTip: Option<Block>
    var indexed: seq<Block>

    // In the VM's own database: the block it starts up from.
    var recorded: Block

    // In memory.
    var currentBlock: Block
    var lastAccepted: Block
    var acceptorQueue: seq<Block>
    var inHand: N.Phase
    var acceptorTip: Block
    var acceptorClosed: bool
    var stateManager: CappedMemoryTrieWriter
    var acceptedNumberCache: FIFOCache<nat, Block>

    // The blocks inserted in this session whose tries the writer still has to hear about,
    // and the reference counts the session started with.
    ghost var pending: set<Block>
    ghost var initial: map<Root, nat>

    ghost function ChainOf(): F.ChainState
      reads this`blocks, this`canonical, this`currentBlock, this`lastAccepted
    {
      F.ChainState(base, blocks, canonical, currentBlock, lastAccepted)
    }

    ghost predicate ChainValid()
      reads this`blocks, this`canonical, this`currentBlock, this`lastAccepted, this`headHash
    {
      F.Inv(ChainOf()) && headHash == currentBlock.hash
    }

    ghost predicate WriterValid()
      reads this`cfg, this`stateManager, stateManager.tipBuffer
    {
      && stateManager.Valid()
      && stateManager.commitInterval == cfg.commitInterval
      && stateManager.tipBuffer.size == cfg.stateHistory
    }

    /** The accepted-header cache is apart from the trie writer's buffer. */
    ghost predicate CacheValid()
      reads this`cfg, this`acceptedNumberCache, this`stateManager, acceptedNumberCache, acceptedNumberCache.buffer,
            acceptedNumberCache.buffer.buffer
    {
      && acceptedNumberCache.Valid() && acceptedNumberCache.limit == cfg.cacheSize
      && acceptedNumberCache.buffer != stateManager.tipBuffer
      && acceptedNumberCache.buffer.buffer != stateManager.tipBuffer.buffer
    }

    ghost function RetentionOf(): Retention
      requires WriterValid()
      reads this`cfg, this`stateManager, this`pending, this`initial, stateManager, stateManager.tipBuffer, stateManager.tipBuffer.buffer
    {
      Retention(stateManager.State(), pending, initial)
    }

    ghost function ModeOf(): (m: N.Mode)
      reads this`acceptorQueue, this`inHand, this`acceptorTip, this`acceptorClosed
      ensures m.Running?
    {
      N.Running(acceptorQueue, inHand, acceptorTip, acceptorClosed)
    }

    ghost predicate Valid()
      reads this, stateManager.tipBuffer, acceptedNumberCache, acceptedNumberCache.buffer,
            acceptedNumberCache.buffer.buffer
    {
      ChainValid() && WriterValid() && CacheValid()
    }

    /** The running node as a state of the node's state machine. */
    ghost function NodeOf(): N.NodeState
      requires WriterValid()
      reads this, stateManager, stateManager.tipBuffer, stateManager.tipBuffer.buffer, acceptedNumberCache
    {
      N.NodeState(cfg, ChainOf(), ModeOf(), dbTip, indexed, RetentionOf(), acceptedNumberCache.puts, recorded)
    }

    /** The node while it starts up: of its memory nothing counts yet. */
    ghost function DownOf(mode: N.Mode): N.NodeState
      reads this, stateManager
    {
      N.NodeState(cfg, ChainOf(), mode, dbTip, indexed, N.Blank(stateManager.db.disk), [], recorded)
    }

    /** A new chain starts at its genesis block, whose state is committed. */
    constructor (cfg: N.Config, genesis: Block)
      requires genesis.parent != genesis.hash
      ensures Valid() && this.cfg == cfg && base == genesis
      ensures R.Initial(NodeOf()) && blocks == map[genesis.hash := genesis]
    {
      this.cfg := cfg;
      base := genesis;
      stateManager := new CappedMemoryTrieWriter(Tries({genesis.root}, map[]), cfg.stateHistory, cfg.commitInterval);
      blocks := map[genesis.hash := genesis];
      canonical := map[genesis.number := genesis.hash];
      headHash, currentBlock, lastAccepted, acceptorTip, recorded := genesis.hash, genesis, genesis, genesis, genesis;
      dbTip, indexed := None, [];
      acceptorQueue, inHand, acceptorClosed := [], N.Idle, false;
      pending, initial := {}, map[];
      acceptedNumberCache := new FIFOCache<nat, Block>(cfg.cacheSize);
    }

    // ------------------------------------------------------------ the canonical chain

    method WriteHeadBlock(b: Block)
      modifies this`canonical, this`headHash, this`currentBlock
      ensures canonical == old(canonical)[b.number := b.hash]
      ensures headHash == b.hash && currentBlock == b
    {
      canonical := canonical[b.number := b.hash];
      headHash := b.hash;
      currentBlock := b;
    }

    /** Writes the new branch into the index, lowest block first, all but its top block. */
    method WriteBranch(ghost head: Block, branch: seq<Block>)
      requires IsPath(blocks, head, branch)
      modifies this`canonical, this`headHash, this`currentBlock
      ensures forall k: nat :: CanonicalHash(canonical, k) ==
                if head.number - |branch| < k < head.number then HashOf(Ancestor(blocks, head, k))
                else old(CanonicalHash(canonical, k))
    {
      var i := |branch| - 1;
      while i >= 1
        invariant i < |branch|
        invariant forall k: nat :: CanonicalHash(canonical, k) ==
                    if head.number - |branch| < k < head.number - i && k < head.number then HashOf(Ancestor(blocks, head, k))
                    else old(CanonicalHash(canonical, k))
      {
        WriteHeadBlock(branch[i]);
        i := i - 1;
      }
    }

    /** Deletes the index entries from `from` up to the first missing height, in batches. */
    method PruneIndex(from: nat, ghost top: nat)
      requires from <= top
      requires forall k: nat :: k >= from ==> (k in canonical <==> k < top)
      modifies this`canonical
      ensures forall k: nat :: CanonicalHash(canonical, k) == if k >= from then None else old(CanonicalHash(canonical, k))
    {
      var batch: set<nat> := {};
      var i := from;
      ghost var flushed := from;
      while i in canonical
        invariant from <= flushed <= i <= top
        invariant forall k: nat :: k in batch <==> flushed <= k < i
        invariant forall k: nat :: k in canonical <==> k in old(canonical) && !(from <= k < flushed)
        invariant forall k: nat :: k in canonical ==> canonical[k] == old(canonical)[k]
        decreases top - i
      {
        batch := batch + {i};
        i := i + 1;
        if |batch| >= 1000 {
          canonical := canonical - batch;
          batch := {};
          flushed := i;
        }
      }
      canonical := canonical - batch;
    }

    /** Moves the index to the branch of `newHead`, except for the entry of `newHead`
        itself. A failed reorg changes nothing; it fails exactly when the new head does
        not descend from the last accepted block. Returns the blocks dropped from the
        canonical chain, lowest first. */
    method Reorg(newHead: Block) returns (r: Result<seq<Block>, ChainError>)
      requires F.Inv(ChainOf()) && F.Names(blocks, newHead)
      modifies this`canonical, this`headHash, this`currentBlock
      ensures r.Ok? <==> Descends(blocks, newHead, lastAccepted)
      ensures r.Err? ==> ChainOf() == old(ChainOf()) && headHash == old(headHash)
      ensures r.Ok? ==> forall k: nat :: k >= base.number && k != newHead.number ==>
                CanonicalHash(canonical, k) == HashOf(Ancestor(blocks, newHead, k))
      ensures r.Ok? ==> forall k: nat :: k < base.number ==> CanonicalHash(canonical, k) == old(CanonicalHash(canonical, k))
      ensures r.Ok? ==> exists fork :: IsFork(blocks, old(currentBlock), newHead, fork) && r.value == Reverse(fork.oldChain)
    {
      var found := FindFork(blocks, currentBlock, newHead);
      F.BaseBelow(ChainOf());
      if found.Err? {
        assert Descends(blocks, newHead, lastAccepted) ==> Shared(blocks, currentBlock, newHead, lastAccepted);
        return Err(found.error);
      }
      var fork := found.value;
      ReorgSucceeds(ChainOf(), newHead, fork);
      if fork.common.number < lastAccepted.number {
        return Err(OrphansFinalized);
      }
      ghost var s := ChainOf();
      WriteBranch(newHead, fork.newChain);
      forall k: nat | k > newHead.number ensures k in canonical <==> k <= s.head.number {
        assert CanonicalHash(s.index, k) == HashOf(Ancestor(s.blocks, s.head, k));
        if k <= s.head.number { F.CanonicalIsAncestor(s, k); }
      }
      PruneIndex(newHead.number + 1, if s.head.number > newHead.number then s.head.number + 1 else newHead.number + 1);
      forall k: nat | k >= base.number && k != newHead.number
        ensures CanonicalHash(canonical, k) == HashOf(Ancestor(blocks, newHead, k))
      {
        if k <= fork.common.number {
          AncestorCompose(blocks, s.head, fork.common.number, k);
          AncestorCompose(blocks, newHead, fork.common.number, k);
        }
      }
      r := Ok(Reverse(fork.oldChain));
    }

    /** The head moves to `b`, and the whole index with it, if and only if `b` descends
        from the last accepted block; otherwise nothing changes. Nothing asks whether `b` is
        stored, and if it is not the new head cannot be loaded. */
    method SetPreference(b: Block) returns (r: Result<(), ChainError>)
      requires Valid() && F.Fits(blocks, b)
      modifies this`canonical, this`headHash, this`currentBlock
      ensures r.Ok? <==> Descends(blocks, b, lastAccepted)
      ensures r.Ok? ==> F.Moved(old(ChainOf()), b, ChainOf())
      ensures r.Err? ==> NodeOf() == old(NodeOf())
      ensures Valid() <==> r.Err? || Stored(blocks, b)
      ensures r.Ok? && Stored(blocks, b) ==> N.PreferStep(old(NodeOf()), b, NodeOf())
    {
      r := Prefer(b);
    }

    method Prefer(b: Block) returns (r: Result<(), ChainError>)
      requires ChainValid() && F.Fits(blocks, b)
      modifies this`canonical, this`headHash, this`currentBlock
      ensures r.Ok? <==> Descends(blocks, b, lastAccepted)
      ensures r.Ok? ==> F.Moved(old(ChainOf()), b, ChainOf())
      ensures r.Err? ==> ChainOf() == old(ChainOf())
      ensures headHash == currentBlock.hash
      ensures ChainValid() <==> r.Err? || Stored(blocks, b)
    {
      ghost var s := ChainOf();
      if currentBlock.hash == b.hash {
        return Ok(());
      }
      if b.parent != currentBlock.hash {
        var reorged := Reorg(b);
        if reorged.Err? {
          return Err(reorged.error);
        }
      }
      WriteHeadBlock(b);
      if b.parent == s.head.hash {
        ExtendsIndex(s, b);
      }
      r := Ok(());
    }

    // ------------------------------------------------------ insert, accept and reject

    /** Verifies a block against its parent's state and stores it; it becomes the head if
        it extends the head. `verified` is the outcome of header, body and state
        validation, and `flushed` what a memory cap writes out. */
    method InsertBlock(b: Block, verified: bool, writes: bool, flushed: set<Root>) returns (r: Result<(), ChainError>)
      requires Valid() && F.HashFixes(blocks, b)
      modifies this`blocks, this`canonical, this`headHash, this`currentBlock, this`pending, stateManager`db
      ensures Valid()
      ensures r.Ok? <==> verified && old(Parent(blocks, b)).Some? && old(stateManager.db.Has(Parent(blocks, b).value.root))
      ensures r.Err? || !writes ==> ChainOf() == old(ChainOf()) && RetentionOf() == old(RetentionOf())
      ensures r.Ok? && writes ==> N.InsertEffect(old(NodeOf()), b, flushed, NodeOf())
    {
      ghost var n := NodeOf();
      r := InsertVerified(b, verified, writes, flushed);
      if r.Ok? && writes {
        N.InsertEffectOf(n, b, flushed, NodeOf());
      }
    }

    method InsertVerified(b: Block, verified: bool, writes: bool, flushed: set<Root>) returns (r: Result<(), ChainError>)
      requires ChainValid() && WriterValid() && F.HashFixes(blocks, b)
      modifies this`blocks, this`canonical, this`headHash, this`currentBlock, this`pending, stateManager`db
      ensures ChainValid() && WriterValid()
      ensures r.Ok? <==> verified && old(Parent(blocks, b)).Some? && old(stateManager.db.Has(Parent(blocks, b).value.root))
      ensures r.Err? || !writes ==> ChainOf() == old(ChainOf()) && RetentionOf() == old(RetentionOf())
      ensures r.Ok? && writes ==> F.Inserted(old(ChainOf()), b, ChainOf())
      ensures r.Ok? && writes ==>
                RetentionOf() == Apply(old(RetentionOf()), TrieWriter.Inserts(b, flushed), cfg.stateHistory, cfg.commitInterval)
    {
      if !verified {
        return Err(Invalid);
      }
      var parent := GetBlock(blocks, b.parent, b.number - 1);
      if parent.None? {
        return Err(UnknownAncestor);
      }
      if !stateManager.db.Has(parent.value.root) {
        return Err(StateUnavailable);
      }
      if !writes {
        return Ok(());
      }
      StoreAndExtend(b);
      ReferenceState(b, flushed);
      r := Ok(());
    }

    /** Writes the block and appends it to the canonical chain if it extends the head. */
    method StoreAndExtend(b: Block)
      requires ChainValid()
      requires F.HashFixes(blocks, b) && Parent(blocks, b).Some?
      modifies this`blocks, this`canonical, this`headHash, this`currentBlock
      ensures ChainValid()
      ensures F.Inserted(old(ChainOf()), b, ChainOf())
    {
      blocks := blocks[b.hash := b];
      if b.parent == currentBlock.hash {
        WriteHeadBlock(b);
      }
      F.InsertKeepsInv(old(ChainOf()), b, ChainOf());
    }

    /** Executing the block leaves one reference on its root, and the writer may cap the
        memory used. */
    method ReferenceState(b: Block, flushed: set<Root>)
      requires WriterValid()
      modifies this`pending, stateManager`db
      ensures WriterValid()
      ensures RetentionOf() == Apply(old(RetentionOf()), TrieWriter.Inserts(b, flushed), cfg.stateHistory, cfg.commitInterval)
    {
      stateManager.db := stateManager.db.Reference(b.root);
      stateManager.Insert(flushed);
      pending := pending + {b};
    }

    /** Accepts a child of the last accepted block, moving the preference onto it if it is not
        canonical, and queues it for the acceptor. The state is re-executed on the parent
        should it be missing. A full queue makes the call wait, so there is room when it
        completes. Nothing asks whether the block is stored: a node that accepts a deleted
        block ends up with a head that is not there. */
    method Accept(b: Block) returns (r: Result<(), ChainError>)
      requires Valid() && F.Fits(blocks, b)
      requires acceptorClosed || |acceptorQueue| < cfg.queueLimit || (acceptorQueue == [] && inHand.Idle?)
      modifies this`canonical, this`headHash, this`currentBlock, this`lastAccepted, this`acceptorQueue, this`inHand, this`pending, stateManager`db
      ensures WriterValid() && CacheValid() && headHash == currentBlock.hash
      ensures Valid() <==> Stored(blocks, b) || ChainOf() == old(ChainOf())
      ensures r.Ok? <==> (b.parent == old(lastAccepted).hash
                          && old(stateManager.db.Has(b.root) || stateManager.db.Has(lastAccepted.root)))
      ensures r.Ok? ==> N.AcceptEffect(old(NodeOf()), b, NodeOf()) && stateManager.db.Has(b.root)
      ensures r.Err? ==> RetentionOf() == old(RetentionOf()) && ModeOf() == old(ModeOf())
      ensures r.Err? ==> ChainOf() == old(ChainOf()) || F.Moved(old(ChainOf()), b, ChainOf())
    {
      ghost var n := NodeOf();
      r := AcceptAndEnqueue(b);
      if r.Ok? {
        N.AcceptEffectOf(n, b, NodeOf());
      }
    }

    method AcceptAndEnqueue(b: Block) returns (r: Result<(), ChainError>)
      requires ChainValid() && WriterValid() && F.Fits(blocks, b)
      requires acceptorClosed || |acceptorQueue| < cfg.queueLimit || (acceptorQueue == [] && inHand.Idle?)
      modifies this`canonical, this`headHash, this`currentBlock, this`lastAccepted, this`acceptorQueue, this`inHand, this`pending, stateManager`db
      ensures WriterValid() && headHash == currentBlock.hash
      ensures F.Inv(ChainOf()) <==> Stored(blocks, b) || ChainOf() == old(ChainOf())
      ensures r.Ok? <==> (b.parent == old(lastAccepted).hash
                          && old(stateManager.db.Has(b.root) || stateManager.db.Has(lastAccepted.root)))
      ensures r.Ok? ==> F.AcceptedAs(old(ChainOf()), b, ChainOf()) && N.Enqueued(cfg, old(ModeOf()), b, ModeOf()) && stateManager.db.Has(b.root)
      ensures r.Ok? ==> RetentionOf() == Apply(old(RetentionOf()), TrieWriter.Finalizes(b), cfg.stateHistory, cfg.commitInterval)
      ensures r.Err? ==> RetentionOf() == old(RetentionOf()) && ModeOf() == old(ModeOf())
      ensures r.Err? ==> ChainOf() == old(ChainOf()) || F.Moved(old(ChainOf()), b, ChainOf())
    {
      r := AcceptOnChain(b);
      ghost var chain, retention := ChainOf(), RetentionOf();
      if r.Ok? {
        Enqueue(b);
      }
      assert ChainOf() == chain && RetentionOf() == retention;
    }

    /** Everything of an accept but the hand-over to the acceptor. */
    method AcceptOnChain(b: Block) returns (r: Result<(), ChainError>)
      requires ChainValid() && WriterValid() && F.Fits(blocks, b)
      modifies this`canonical, this`headHash, this`currentBlock, this`lastAccepted, this`pending, stateManager`db
      ensures WriterValid() && headHash == currentBlock.hash
      ensures F.Inv(ChainOf()) <==> Stored(blocks, b) || ChainOf() == old(ChainOf())
      ensures r.Ok? <==> (b.parent == old(lastAccepted).hash
                          && old(stateManager.db.Has(b.root) || stateManager.db.Has(lastAccepted.root)))
      ensures r.Ok? ==> F.AcceptedAs(old(ChainOf()), b, ChainOf()) && stateManager.db.Has(b.root)
      ensures r.Ok? ==> RetentionOf() == Apply(old(RetentionOf()), TrieWriter.Finalizes(b), cfg.stateHistory, cfg.commitInterval)
      ensures r.Err? ==> RetentionOf() == old(RetentionOf())
      ensures r.Err? ==> ChainOf() == old(ChainOf()) || F.Moved(old(ChainOf()), b, ChainOf())
    {
      if b.parent != lastAccepted.hash {
        return Err(NotChildOfLastAccepted);
      }
      PreferAccepted(b);
      if !stateManager.db.Has(b.root) && !stateManager.db.Has(lastAccepted.root) {
        return Err(StateUnavailable);
      }
      MaterializeState(b);
      MarkAccepted(old(ChainOf()), b);
      r := Ok(());
    }

    /** The state of an accepted block is re-executed if it is missing; from here on the block
        is one the trie writer still has to hear about. */
    method MaterializeState(b: Block)
      requires WriterValid()
      modifies this`pending, stateManager`db
      ensures WriterValid() && stateManager.db.Has(b.root)
      ensures RetentionOf() == Apply(old(RetentionOf()), TrieWriter.Finalizes(b), cfg.stateHistory, cfg.commitInterval)
    {
      stateManager.Rematerialize(b);
      assert b in pending ==> pending + {b} == pending;
      pending := pending + {b};
    }

    /** The VM records the accepted block once the chain has accepted it. */
    method RecordAccepted()
      requires Valid()
      modifies this`recorded
      ensures Valid() && N.RecordStep(old(NodeOf()), NodeOf())
    {
      recorded := lastAccepted;
    }

    /** The reorg an accept needs cannot fail: the last accepted block is the parent. */
    method PreferAccepted(b: Block)
      requires ChainValid()
      requires F.Fits(blocks, b) && b.parent == lastAccepted.hash
      modifies this`canonical, this`headHash, this`currentBlock
      ensures if old(CanonicalHash(canonical, b.number)) == Some(b.hash)
              then ChainOf() == old(ChainOf())
              else F.Moved(old(ChainOf()), b, ChainOf())
      ensures headHash == currentBlock.hash
      ensures F.Inv(ChainOf()) <==> Stored(blocks, b) || ChainOf() == old(ChainOf())
    {
      assert Parent(blocks, b) == Some(lastAccepted);
      assert Descends(blocks, b, lastAccepted);
      if CanonicalHash(canonical, b.number) != Some(b.hash) {
        var preferred := Prefer(b);
        assert preferred.Ok?;
      }
    }

    method MarkAccepted(ghost s: F.ChainState, b: Block)
      requires F.Inv(s) && F.Fits(s.blocks, b) && b.parent == s.accepted.hash
      requires if CanonicalHash(s.index, b.number) == Some(b.hash) then ChainOf() == s else F.Moved(s, b, ChainOf())
      modifies this`lastAccepted
      ensures F.AcceptedAs(s, b, ChainOf()) && (F.Inv(ChainOf()) <==> Stored(blocks, b)) && ChainOf() != s
    {
      lastAccepted := b;
      F.AcceptKeepsInvIff(s, b, ChainOf());
    }

    method Enqueue(b: Block)
      requires acceptorClosed || |acceptorQueue| < cfg.queueLimit || (acceptorQueue == [] && inHand.Idle?)
      modifies this`acceptorQueue, this`inHand
      ensures N.Enqueued(cfg, old(ModeOf()), b, ModeOf())
    {
      if acceptorClosed {
        return;
      }
      if |acceptorQueue| < cfg.queueLimit {
        acceptorQueue := acceptorQueue + [b];
      } else {
        inHand := N.Taken(b);
      }
    }

    /** Drops a block, its state reference and the block itself, whether or not it is still
        needed: the chain survives exactly if it is not between the head and the base. */
    method Reject(b: Block)
      requires Valid() && F.Names(blocks, b)
      modifies this`blocks, this`pending, stateManager`db
      ensures WriterValid() && CacheValid() && blocks == old(blocks) - {b.hash}
      ensures RetentionOf() == Apply(old(RetentionOf()), TrieWriter.Rejects(b), cfg.stateHistory, cfg.commitInterval)
      ensures N.RejectEffect(old(NodeOf()), b, NodeOf())
      ensures Valid() <==> old(F.OffPath(ChainOf(), b))
    {
      RejectAndDelete(b);
      F.DeleteKeepsInvIff(old(ChainOf()), b);
    }

    method RejectAndDelete(b: Block)
      requires WriterValid()
      modifies this`blocks, this`pending, stateManager`db
      ensures WriterValid() && blocks == old(blocks) - {b.hash}
      ensures RetentionOf() == Apply(old(RetentionOf()), TrieWriter.Rejects(b), cfg.stateHistory, cfg.commitInterval)
    {
      stateManager.Reject(b);
      blocks := blocks - {b.hash};
      pending := pending - {b};
    }

    // ------------------------------------------------------------ the acceptor's loop

    /** Takes the next accepted block off the queue; an empty queue leaves the acceptor
        waiting. */
    method TakeAccepted() returns (taken: bool)
      requires Valid() && inHand.Idle?
      modifies this`acceptorQueue, this`inHand
      ensures Valid() && (taken <==> old(acceptorQueue) != [])
      ensures if taken then N.TakeStep(old(NodeOf()), NodeOf()) else NodeOf() == old(NodeOf())
    {
      if |acceptorQueue| == 0 {
        return false;
      }
      inHand := N.Taken(acceptorQueue[0]);
      acceptorQueue := acceptorQueue[1..];
      taken := true;
    }

    method WriteBlockAcceptedIndices(b: Block)
      modifies this`dbTip, this`indexed
      ensures dbTip == Some(b) && indexed == old(indexed) + [b]
    {
      dbTip := Some(b);
      indexed := indexed + [b];
    }

    /** The indices and the tip of the block in hand are written before its trie is
        touched. */
    method IndexAccepted()
      requires Valid() && inHand.Taken?
      modifies this`dbTip, this`indexed, this`inHand
      ensures Valid() && N.IndexStep(old(NodeOf()), NodeOf())
    {
      WriteBlockAcceptedIndices(inHand.b);
      inHand := N.Indexed(inHand.b);
    }

    /** The trie is handed over and the block published as the acceptor tip. */
    method FinishAccepted(flushed: set<Root>)
      requires Valid() && inHand.Indexed?
      modifies this`inHand, this`acceptorTip, this`pending
      modifies stateManager`db, stateManager.tipBuffer, stateManager.tipBuffer.buffer
      modifies acceptedNumberCache`m, acceptedNumberCache`puts, acceptedNumberCache.buffer, acceptedNumberCache.buffer.buffer
      ensures Valid() && N.FinishStep(old(NodeOf()), flushed, NodeOf())
    {
      Finish(flushed);
    }

    method Finish(flushed: set<Root>)
      requires WriterValid() && CacheValid() && inHand.Indexed?
      modifies this`inHand, this`acceptorTip, this`pending
      modifies stateManager`db, stateManager.tipBuffer, stateManager.tipBuffer.buffer
      modifies acceptedNumberCache`m, acceptedNumberCache`puts, acceptedNumberCache.buffer, acceptedNumberCache.buffer.buffer
      ensures WriterValid() && CacheValid() && inHand.Idle? && acceptorTip == old(inHand).b
      ensures RetentionOf() == Apply(old(RetentionOf()), TrieWriter.Accepts(acceptorTip, flushed), cfg.stateHistory, cfg.commitInterval)
      ensures acceptedNumberCache.puts == old(acceptedNumberCache.puts) + [(acceptorTip.number, acceptorTip)]
    {
      var next := inHand.b;
      HandOver(next, flushed);
      acceptorTip := next;
      inHand := N.Idle;
    }

    method HandOver(b: Block, flushed: set<Root>)
      requires WriterValid() && CacheValid()
      modifies this`pending, stateManager`db, stateManager.tipBuffer, stateManager.tipBuffer.buffer
      modifies acceptedNumberCache`m, acceptedNumberCache`puts, acceptedNumberCache.buffer, acceptedNumberCache.buffer.buffer
      ensures WriterValid() && CacheValid()
      ensures RetentionOf() == Apply(old(RetentionOf()), TrieWriter.Accepts(b, flushed), cfg.stateHistory, cfg.commitInterval)
      ensures acceptedNumberCache.puts == old(acceptedNumberCache.puts) + [(b.number, b)]
    {
      AcceptTrie(b, flushed);
      ghost var retention := RetentionOf();
      acceptedNumberCache.Put(b.number, b);
      assert RetentionOf() == retention;
    }

    method AcceptTrie(b: Block, flushed: set<Root>)
      requires WriterValid()
      modifies this`pending, stateManager`db, stateManager.tipBuffer, stateManager.tipBuffer.buffer
      ensures WriterValid()
      ensures RetentionOf() == Apply(old(RetentionOf()), TrieWriter.Accepts(b, flushed), cfg.stateHistory, cfg.commitInterval)
    {
      stateManager.Accept(b, flushed);
      pending := pending - {b};
    }

    /** Closing waits until every queued block has been processed. */
    method StopAcceptor()
      requires Valid() && N.Waiting(ModeOf()) == []
      modifies this`acceptorClosed
      ensures Valid() && N.CloseStep(old(NodeOf()), NodeOf())
    {
      acceptorClosed := true;
    }

    /** A clean stop commits the newest accepted state. */
    method Stop()
      requires Valid() && acceptorClosed
      modifies stateManager`db
      ensures Valid() && N.ShutdownStep(old(NodeOf()), NodeOf())
    {
      stateManager.Stop();
    }

    /** The height lookup: the accepted-header cache first, then the canonical index. */
    method GetHeaderByNumber(k: nat) returns (r: Option<Block>)
      requires CacheValid()
      ensures r == R.HeaderByNumber(ChainOf(), CacheAfter(acceptedNumberCache.puts, cfg.cacheSize), k)
    {
      r := acceptedNumberCache.Get(k);
      if r.Some? {
        return;
      }
      var hash := CanonicalHash(canonical, k);
      r := if hash.Some? then GetBlock(blocks, hash.value, k) else None;
    }

    // ------------------------------------------------------------------- start-up

    /** The search for a state to re-execute from. */
    method FindState(start: Block, reexec: nat) returns (r: Option<Block>)
      ensures r == WalkBack(blocks, stateManager.db, start, reexec)
    {
      var current := start;
      for i := 0 to reexec + 1
        invariant WalkBack(blocks, stateManager.db, start, reexec) ==
                  if i <= reexec then WalkBack(blocks, stateManager.db, current, reexec - i) else None
      {
        if stateManager.db.Has(current.root) {
          return Some(current);
        }
        var parent := GetBlock(blocks, current.parent, current.number - 1);
        if parent.None? {
          return None;
        }
        current := parent.value;
      }
      r := None;
    }

    /** Where recovery sets out: the acceptor tip if there is one. */
    function RecoveryStart(): Block
      reads this`dbTip, this`lastAccepted
    {
      if dbTip.Some? then dbTip.value else lastAccepted
    }

    /** The block of the acceptor tip is the last accepted one, an ancestor of it, a descendant
        of it (if the node died before recording an accept), or not there. */
    ghost predicate TipOnChain()
      reads this`blocks, this`dbTip, this`lastAccepted
    {
      dbTip.Some? && dbTip.value.hash in blocks ==>
        && Stored(blocks, dbTip.value) && base.number <= dbTip.value.number
        && (Descends(blocks, lastAccepted, dbTip.value) || Descends(blocks, dbTip.value, lastAccepted))
    }

    lemma StartOnChain(x: Block)
      requires ChainValid() && TipOnChain() && Stored(blocks, RecoveryStart())
      requires Descends(blocks, RecoveryStart(), x) && x.number <= lastAccepted.number
      ensures Descends(blocks, lastAccepted, x)
    {
      if Descends(blocks, lastAccepted, RecoveryStart()) {
        DescendsTransitive(blocks, lastAccepted, RecoveryStart(), x);
      } else {
        DescendsComparable(blocks, RecoveryStart(), lastAccepted, x);
      }
    }

    lemma StartReachesBase()
      requires ChainValid() && TipOnChain() && Stored(blocks, RecoveryStart())
      ensures Descends(blocks, RecoveryStart(), base)
    {
      var t := RecoveryStart();
      if Descends(blocks, lastAccepted, t) {
        DescendsComparable(blocks, lastAccepted, t, base);
      } else {
        DescendsTransitive(blocks, t, lastAccepted, base);
      }
    }

    /** Re-executes the canonical blocks above `from` up to the last accepted one. Accepted
        indices are written for exactly the blocks above the acceptor tip, in order. */
    method ReExecute(from: Block)
      requires ChainValid() && currentBlock == lastAccepted && TipOnChain() && Stored(blocks, RecoveryStart())
      requires base.number <= from.number < lastAccepted.number
      requires Descends(blocks, lastAccepted, from) && Descends(blocks, RecoveryStart(), from)
      requires stateManager.db.Has(from.root)
      modifies this`dbTip, this`indexed, stateManager`db
      ensures stateManager.db.disk == old(stateManager.db.disk) + {lastAccepted.root}
      ensures R.Reindexed(blocks, lastAccepted, old(dbTip), old(indexed), dbTip, indexed)
    {
      ghost var tries := stateManager.db;
      var tip, current, writeIndices, previousRoot := dbTip, from, false, None;
      while current.number < lastAccepted.number
        invariant from.number <= current.number <= lastAccepted.number && Descends(blocks, lastAccepted, current)
        invariant previousRoot == if current.number == from.number then None else Some(current.root)
        invariant writeIndices <==> tip.Some? && tip.value.number < current.number
        invariant dbTip == if writeIndices then Some(current) else tip
        invariant writeIndices ==> R.Continues(blocks, lastAccepted, tip.value.number, current.number, old(indexed), indexed)
        invariant !writeIndices ==> indexed == old(indexed)
        invariant Keeps(tries, stateManager.db, previousRoot)
      {
        var parent := current;
        NextCanonical(ChainOf(), parent);
        current := GetBlock(blocks, canonical[parent.number + 1], parent.number + 1).value;
        if tip.Some? {
          TipReached(ChainOf(), tip.value, parent);
          if parent.hash == tip.value.hash {
            writeIndices := true;
          }
        }
        assert stateManager.db.Has(parent.root);
        ReExecutedKeeps(tries, stateManager.db, previousRoot, current.root);
        stateManager.db := ReExecuted(stateManager.db, previousRoot, current.root);
        if writeIndices {
          WriteBlockAcceptedIndices(current);
        }
        previousRoot := Some(current.root);
      }
      if previousRoot.Some? {
        assert stateManager.db.Count(lastAccepted.root) > 0;
        stateManager.db := stateManager.db.Commit(previousRoot.value);
      }
    }

    /** Nothing is to be done if the state is there and the acceptor tip is not behind. */
    predicate UpToDate()
      reads this`dbTip, this`lastAccepted, this`stateManager, stateManager
    {
      stateManager.db.Has(lastAccepted.root) && (dbTip.None? || dbTip.value.hash == lastAccepted.hash)
    }

    /** Re-executes accepted blocks until the last accepted state is on disk. It succeeds
        exactly when the block of the acceptor tip is there and a state is found close enough
        below it. Unless that state
        lies above the last accepted block, the last accepted state is then on disk and
        nothing else has changed there; if the tip is not ahead, the tip is the last accepted
        block and accepted indices have been written for exactly the blocks above the old
        tip, in order. */
    method ReprocessState(reexec: nat) returns (r: Result<(), ChainError>)
      requires ChainValid() && currentBlock == lastAccepted && TipOnChain()
      requires stateManager.db.dirty == map[] && base.root in stateManager.db.disk
      modifies this`dbTip, this`indexed, stateManager`db
      ensures r.Ok? <==> old(Stored(blocks, RecoveryStart())) && WalkBack(blocks, old(stateManager.db), old(RecoveryStart()), reexec).Some?
      ensures r.Err? ==> dbTip == old(dbTip) && indexed == old(indexed) && stateManager.db == old(stateManager.db)
      ensures r.Ok? && WalkBack(blocks, old(stateManager.db), old(RecoveryStart()), reexec).value.number <= lastAccepted.number ==>
                stateManager.db.disk == old(stateManager.db.disk) + {lastAccepted.root}
      ensures r.Ok? ==> R.Reindexed(blocks, lastAccepted, old(dbTip), old(indexed), dbTip, indexed)
      ensures r.Ok? && WalkBack(blocks, old(stateManager.db), old(RecoveryStart()), reexec).value.number > lastAccepted.number ==>
                stateManager.db == old(stateManager.db)
    {
      TipAtAccepted();
      if UpToDate() {
        return Ok(());
      }
      if dbTip.Some? && dbTip.value.hash !in blocks {
        return Err(TipBlockMissing);
      }
      var found := FindState(RecoveryStart(), reexec);
      if found.None? {
        return Err(StateUnavailable);
      }
      StartReachesBase();
      WalkBackFirst(blocks, stateManager.db, RecoveryStart(), reexec, base);
      if found.value.number < lastAccepted.number {
        StartOnChain(found.value);
        ReExecute(found.value);
      } else if found.value.number == lastAccepted.number {
        StartOnChain(found.value);
      }
      r := Ok(());
    }

    lemma TipAtAccepted()
      requires ChainValid() && TipOnChain()
      ensures Stored(blocks, RecoveryStart()) && RecoveryStart().number == lastAccepted.number ==> RecoveryStart() == lastAccepted
      ensures dbTip.Some? && dbTip.value.hash == lastAccepted.hash ==> dbTip.value == lastAccepted
    {
    }

    /** The head block and the recorded one can be loaded. */
    predicate Loadable()
      reads this`blocks, this`headHash, this`recorded
    {
      headHash in blocks && recorded.hash in blocks
    }

    /** A chain in order, with the recorded block on it. */
    ghost predicate InOrder()
      reads this`blocks, this`canonical, this`currentBlock, this`lastAccepted, this`headHash, this`recorded
    {
      ChainValid() && Descends(blocks, lastAccepted, recorded) && base.number <= recorded.number
    }

    /** A restart with the configuration `next`: only the databases survive, `writer` and `cache`
        are new. The recorded block becomes the last accepted one, and the head moves there;
        but if the head block or the recorded one is not there, nothing starts. */
    method Restart(next: N.Config, writer: CappedMemoryTrieWriter, cache: FIFOCache<nat, Block>) returns (r: Result<(), ChainError>)
      requires WriterValid() && (Loadable() ==> InOrder())
      requires NewSession(next, writer, cache, stateManager.db.disk)
      modifies this`cfg, this`stateManager, this`acceptedNumberCache, this`lastAccepted, this`canonical, this`headHash, this`currentBlock
      ensures r.Ok? <==> old(Loadable())
      ensures r.Err? ==> unchanged(this)
      ensures r.Ok? ==> Valid() && cfg == next && stateManager == writer && acceptedNumberCache == cache && currentBlock == lastAccepted
      ensures r.Ok? ==> N.CrashStep(old(NodeOf()), DownOf(N.Down(old(cfg), old(ModeOf()), recorded)))
    {
      if headHash !in blocks {
        return Err(HeadBlockMissing);
      }
      if recorded.hash !in blocks {
        return Err(LastAcceptedMissing);
      }
      Reload(next, writer, cache);
      r := Ok(());
    }

    method Reload(next: N.Config, writer: CappedMemoryTrieWriter, cache: FIFOCache<nat, Block>)
      requires WriterValid() && InOrder() && NewSession(next, writer, cache, stateManager.db.disk)
      modifies this`cfg, this`stateManager, this`acceptedNumberCache, this`lastAccepted, this`canonical, this`headHash, this`currentBlock
      ensures Valid() && cfg == next && stateManager == writer && acceptedNumberCache == cache && currentBlock == lastAccepted
      ensures N.CrashStep(old(NodeOf()), DownOf(N.Down(old(cfg), old(ModeOf()), recorded)))
    {
      Reset(next, writer, cache);
      FallBack();
    }

    method Reset(next: N.Config, writer: CappedMemoryTrieWriter, cache: FIFOCache<nat, Block>)
      requires NewSession(next, writer, cache, stateManager.db.disk)
      modifies this`cfg, this`stateManager, this`acceptedNumberCache
      ensures WriterValid() && CacheValid()
      ensures cfg == next && stateManager == writer && acceptedNumberCache == cache
      ensures stateManager.db.disk == old(stateManager.db.disk)
    {
      cfg, stateManager, acceptedNumberCache := next, writer, cache;
    }

    /** The last accepted block is the recorded one again, and the head moves there. */
    method FallBack()
      requires InOrder()
      modifies this`lastAccepted, this`canonical, this`headHash, this`currentBlock
      ensures ChainValid() && currentBlock == lastAccepted == recorded
      ensures F.Restarted(old(ChainOf()), recorded, ChainOf()) && Stored(blocks, recorded)
    {
      F.BaseBelow(ChainOf());
      AncestorStored(blocks, lastAccepted, recorded.number);
      DescendsTransitive(blocks, currentBlock, lastAccepted, recorded);
      DescendsComparable(blocks, lastAccepted, recorded, base);
      lastAccepted := recorded;
      var preferred := Prefer(lastAccepted);
      assert preferred.Ok?;
    }

    /** Loads the last state: the missing states are re-executed, and the head's state has to
        be there in the end. */
    method LoadLastState() returns (r: Result<(), ChainError>)
      requires ChainValid() && currentBlock == lastAccepted && TipOnChain()
      requires stateManager.db.dirty == map[] && base.root in stateManager.db.disk
      modifies this`dbTip, this`indexed, stateManager`db
      ensures r.Ok? <==> R.StartsUp(blocks, old(stateManager.db), old(RecoveryStart()), lastAccepted, N.Reexec(cfg))
      ensures r.Ok? ==> stateManager.db.disk == old(stateManager.db.disk) + {lastAccepted.root}
      ensures r.Ok? ==> R.Reindexed(blocks, lastAccepted, old(dbTip), old(indexed), dbTip, indexed)
    {
      r := ReprocessState(N.Reexec(cfg));
      if r.Ok? && !stateManager.db.Has(lastAccepted.root) {
        r := Err(HeadStateMissing);
      }
    }

    /** Start-up after a restart. If it succeeds the node runs again, and what it did is a
        sequence of recovery steps; it succeeds exactly under the condition proved about
        reachable crashes. */
    method StartUp(ghost mode: N.Mode) returns (r: Result<(), ChainError>)
      requires Valid() && currentBlock == lastAccepted && TipOnChain() && base.number == 0
      requires mode.Recovering? && mode.found.None? && recorded == lastAccepted
      requires stateManager.State() == Writer(Tries(stateManager.db.disk, map[]), []) && base.root in stateManager.db.disk
      requires acceptedNumberCache.puts == []
      modifies this`dbTip, this`indexed, this`acceptorQueue, this`inHand, this`acceptorClosed, this`acceptorTip
      modifies this`pending, this`initial, stateManager`db
      modifies acceptedNumberCache`m, acceptedNumberCache`puts, acceptedNumberCache.buffer, acceptedNumberCache.buffer.buffer
      ensures Valid()
      ensures r.Ok? <==> R.NodeStartsUp(old(DownOf(mode)))
      ensures r.Ok? ==> R.Leads(old(DownOf(mode)), NodeOf()) && NodeOf().mode.Running?
    {
      ghost var n := DownOf(mode);
      if Stored(blocks, RecoveryStart()) {
        TipIsAncestor();
      }
      r := StartOver(mode);
      if r.Ok? {
        R.StartedUpLeads(n, NodeOf());
      }
    }

    lemma TipIsAncestor()
      requires ChainValid() && TipOnChain() && Stored(blocks, RecoveryStart())
      ensures dbTip.Some? && dbTip.value.number <= lastAccepted.number ==> Descends(blocks, lastAccepted, dbTip.value)
    {
    }

    method StartOver(ghost mode: N.Mode) returns (r: Result<(), ChainError>)
      requires Valid() && currentBlock == lastAccepted && TipOnChain() && base.number == 0
      requires stateManager.State() == Writer(Tries(stateManager.db.disk, map[]), []) && base.root in stateManager.db.disk
      requires acceptedNumberCache.puts == []
      modifies this`dbTip, this`indexed, this`acceptorQueue, this`inHand, this`acceptorClosed, this`acceptorTip
      modifies this`pending, this`initial, stateManager`db
      modifies acceptedNumberCache`m, acceptedNumberCache`puts, acceptedNumberCache.buffer, acceptedNumberCache.buffer.buffer
      ensures Valid()
      ensures r.Ok? <==> R.NodeStartsUp(old(DownOf(mode)))
      ensures r.Ok? ==> R.StartedUp(old(DownOf(mode)), NodeOf())
    {
      r := LoadAndResume();
    }

    /** The whole way from a crash to a running node, for every reachable node and every new
        configuration. Where the acceptor had written a tip, it fails if that tip was committed
        ahead of the record over an uncommitted block; if the search covers the old commit
        interval it fails for no other reason. The node it leaves is reachable again. */
    method Recover(ghost cfgs: set<N.Config>, next: N.Config, writer: CappedMemoryTrieWriter, cache: FIFOCache<nat, Block>)
      returns (r: Result<(), ChainError>)
      requires Valid() && R.Reachable(cfgs, NodeOf()) && next in cfgs && base.number == 0
      requires NewSession(next, writer, cache, stateManager.db.disk)
      modifies this, writer`db, cache`m, cache`puts, cache.buffer, cache.buffer.buffer
      ensures Valid() && cfg == next
      ensures r.Ok? ==> R.Reachable(cfgs, NodeOf())
      ensures old(dbTip).Some? && r.Ok? ==> !old(R.CommitsUnrecorded(NodeOf()))
      ensures old(dbTip).Some? && old(cfg).commitInterval <= N.Reexec(next) ==> (r.Ok? <==> !old(R.CommitsUnrecorded(NodeOf())))
    {
      ghost var mode := RestartReachable(cfgs, next, writer, cache);
      ghost var n := DownOf(mode);
      r := StartUp(mode);
      if r.Ok? {
        R.LeadsReachable(cfgs, n, NodeOf());
      }
    }

    method RestartReachable(ghost cfgs: set<N.Config>, next: N.Config, writer: CappedMemoryTrieWriter, cache: FIFOCache<nat, Block>)
      returns (ghost mode: N.Mode)
      requires Valid() && R.Reachable(cfgs, NodeOf()) && next in cfgs
      requires NewSession(next, writer, cache, stateManager.db.disk)
      modifies this`cfg, this`stateManager, this`acceptedNumberCache, this`lastAccepted, this`canonical, this`headHash, this`currentBlock
      ensures Valid() && cfg == next && stateManager == writer && acceptedNumberCache == cache && currentBlock == lastAccepted == recorded
      ensures TipOnChain() && base.root in stateManager.db.disk
      ensures mode.Recovering? && mode.found.None? && R.Reachable(cfgs, DownOf(mode))
      ensures dbTip.Some? && R.NodeStartsUp(DownOf(mode)) ==> !old(R.CommitsUnrecorded(NodeOf()))
      ensures dbTip.Some? && old(cfg).commitInterval <= N.Reexec(next) ==>
                (R.NodeStartsUp(DownOf(mode)) <==> !old(R.CommitsUnrecorded(NodeOf())))
    {
      ghost var n := NodeOf();
      R.ReachableInv(cfgs, n);
      AncestorStored(blocks, lastAccepted, recorded.number);
      var restarted := Restart(next, writer, cache);
      mode := N.Down(n.cfg, n.mode, recorded);
      R.ReachStep(cfgs, n, N.Crash, DownOf(mode));
      N.CrashKeeps(n, DownOf(mode));
      if dbTip.Some? {
        R.CrashStartsUpIff(cfgs, n, DownOf(mode));
      }
      TipAfterCrash(mode);
    }

    lemma TipAfterCrash(mode: N.Mode)
      requires mode.Recovering? && N.NodeInv(DownOf(mode))
      ensures TipOnChain()
    {
      if dbTip.Some? && N.OnChain(ChainOf(), dbTip.value) {
        AncestorStored(blocks, lastAccepted, dbTip.value.number);
      }
    }

    method LoadAndResume() returns (r: Result<(), ChainError>)
      requires ChainValid() && CacheValid() && currentBlock == lastAccepted && TipOnChain() && base.number == 0
      requires stateManager.db.dirty == map[] && base.root in stateManager.db.disk && acceptedNumberCache.puts == []
      modifies this`dbTip, this`indexed, this`acceptorQueue, this`inHand, this`acceptorClosed, this`acceptorTip
      modifies this`pending, this`initial, stateManager`db
      modifies acceptedNumberCache`m, acceptedNumberCache`puts, acceptedNumberCache.buffer, acceptedNumberCache.buffer.buffer
      ensures CacheValid()
      ensures r.Ok? <==> R.StartsUp(blocks, old(stateManager.db), old(RecoveryStart()), lastAccepted, N.Reexec(cfg))
      ensures r.Ok? ==> stateManager.db.disk == old(stateManager.db.disk) + {lastAccepted.root}
      ensures r.Ok? ==> R.Reindexed(blocks, lastAccepted, old(dbTip), old(indexed), dbTip, indexed)
      ensures r.Ok? ==> ModeOf() == N.Running([], N.Idle, lastAccepted, false) && pending == {} && initial == stateManager.db.dirty
      ensures r.Ok? ==> N.Warmed(ChainOf(), acceptedNumberCache.puts)
    {
      r := LoadLastState();
      if r.Err? {
        return;
      }
      Resume();
    }

    method Resume()
      requires ChainValid() && CacheValid() && currentBlock == lastAccepted && base.number == 0 && acceptedNumberCache.puts == []
      modifies this`acceptorQueue, this`inHand, this`acceptorClosed, this`acceptorTip, this`pending, this`initial
      modifies acceptedNumberCache`m, acceptedNumberCache`puts, acceptedNumberCache.buffer, acceptedNumberCache.buffer.buffer
      ensures CacheValid()
      ensures ModeOf() == N.Running([], N.Idle, lastAccepted, false) && pending == {} && initial == stateManager.db.dirty
      ensures N.Warmed(ChainOf(), acceptedNumberCache.puts)
    {
      BeginSession();
      WarmAcceptedCaches();
    }

    /** A new session begins with an empty queue, and with whatever references there are. */
    method BeginSession()
      modifies this`acceptorQueue, this`inHand, this`acceptorClosed, this`acceptorTip, this`pending, this`initial
      ensures ModeOf() == N.Running([], N.Idle, lastAccepted, false)
      ensures pending == {} && initial == stateManager.db.dirty
    {
      acceptorQueue, inHand, acceptorClosed, acceptorTip := [], N.Idle, false, lastAccepted;
      pending, initial := {}, stateManager.db.dirty;
    }

    /** The block the canonical index names is the head's ancestor at that height. */
    method CanonicalBlock(i: nat) returns (b: Block)
      requires ChainValid() && base.number <= i <= currentBlock.number
      ensures Ancestor(blocks, currentBlock, i) == Some(b)
    {
      F.CanonicalIsAncestor(ChainOf(), i);
      b := GetBlock(blocks, canonical[i], i).value;
    }

    /** Fills the accepted-header cache from the canonical index with the last headers up to
        the acceptor tip (a chain from genesis has all of them). */
    method WarmAcceptedCaches()
      requires ChainValid() && CacheValid() && base.number == 0
      requires currentBlock == lastAccepted && acceptorTip == lastAccepted && acceptedNumberCache.puts == []
      modifies acceptedNumberCache`m, acceptedNumberCache`puts, acceptedNumberCache.buffer, acceptedNumberCache.buffer.buffer
      ensures CacheValid()
      ensures N.Warmed(ChainOf(), acceptedNumberCache.puts)
      ensures |acceptedNumberCache.puts| == if lastAccepted.number < cfg.cacheSize then lastAccepted.number else cfg.cacheSize
    {
      var last, start := acceptorTip.number, 1;
      if cfg.cacheSize == 0 || last < start {
        return;
      }
      if cfg.cacheSize - 1 < last {
        start := last - (cfg.cacheSize - 1);
      }
      var i := start;
      while i <= last
        invariant start <= i <= last + 1
        invariant CacheValid() && |acceptedNumberCache.puts| == i - start
        invariant HeadersFrom(blocks, currentBlock, start, acceptedNumberCache.puts)
      {
        var b := CanonicalBlock(i);
        HeadersAppend(blocks, currentBlock, start, acceptedNumberCache.puts, b);
        acceptedNumberCache.Put(b.number, b);
        i := i + 1;
      }
    }
  }

  /** The headers on the path of `head` from height `start` on, each under its number. */
  ghost predicate HeadersFrom(store: Store, head: Block, start: nat, puts: seq<(nat, Block)>) {
    forall j :: 0 <= j < |puts| ==> puts[j].0 == start + j && Ancestor(store, head, start + j) == Some(puts[j].1)
  }

  lemma HeadersAppend(store: Store, head: Block, start: nat, puts: seq<(nat, Block)>, b: Block)
    requires HeadersFrom(store, head, start, puts) && Ancestor(store, head, start + |puts|) == Some(b)
    ensures HeadersFrom(store, head, start, puts + [(b.number, b)])
  {
  }
}
