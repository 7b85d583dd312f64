/** The search of recovery for a state to re-execute from. */
module StateSearch {
  import opened Outcomes
  import opened Chain
  import opened TrieDatabase

  /** The first block from `b` downwards whose state is available, looking at most `limit`
      blocks below `b`. */
  function WalkBack(store: Store, t: Tries, b: Block, limit: nat): Option<Block>
    decreases limit
  {
    if t.Has(b.root) then Some(b)
    else if limit == 0 then None
    else
      match Parent(store, b)
      case None => None
      case Some(p) => WalkBack(store, t, p, limit - 1)
  }

  lemma {:induction false} WalkBackFinds(store: Store, t: Tries, b: Block, limit: nat, c: Block)
    requires Descends(store, b, c) && t.Has(c.root) && b.number - c.number <= limit
    ensures WalkBack(store, t, b, limit).Some?
    ensures var x := WalkBack(store, t, b, limit).value;
            Descends(store, b, x) && x.number >= c.number && t.Has(x.root)
    decreases limit
  {
    if !t.Has(b.root) {
      assert c.number < b.number;
      WalkBackFinds(store, t, Parent(store, b).value, limit - 1, c);
    }
  }

  /** What the search returns is the first available state at or below the start. */
  lemma {:induction false} WalkBackFirst(store: Store, t: Tries, b: Block, limit: nat, c: Block)
    requires Descends(store, b, c) && t.Has(c.root) && WalkBack(store, t, b, limit).Some?
    ensures var x := WalkBack(store, t, b, limit).value;
            Descends(store, b, x) && x.number >= c.number && t.Has(x.root)
    decreases limit
  {
    if !t.Has(b.root) {
      WalkBackFirst(store, t, Parent(store, b).value, limit - 1, c);
    }
  }

  /** What is found above the parent of `b` is `b` itself, whose state is then available. */
  lemma {:induction false} WalkBackAbove(store: Store, t: Tries, b: Block, limit: nat)
    requires WalkBack(store, t, b, limit).Some?
    ensures var x := WalkBack(store, t, b, limit).value;
            x.number <= b.number && (x.number == b.number <==> t.Has(b.root))
    decreases limit
  {
    if !t.Has(b.root) {
      WalkBackAbove(store, t, Parent(store, b).value, limit - 1);
    }
  }
}

/** The whole node: the canonical chain, the background acceptor that processes accepted
    blocks one by one, the retained state tries, and crashes followed by recovery.

    The acceptor's loop body is three atomic steps (take a block off the queue, write its
    accepted indices and the acceptor tip, hand its trie over and publish it), so a
    crash can fall between any two of them. The VM records an accepted block only after
    the chain has accepted it, so a crash in between falls back to the block before.
    Recovery searches for a state, writes the tip of each re-executed block and commits
    only at the end, and can itself be cut short by a crash. */
module Node {
  import opened Outcomes
  import opened Arithmetic
  import opened Chain
  import opened F = Finality
  import opened BoundedBuffers
  import opened FIFOCaches
  import opened TrieDatabase
  import opened TrieWriter
  import opened StateSearch

  datatype Settings = Settings(commitInterval: nat, queueLimit: nat, stateHistory: nat, cacheSize: nat)

  type Config = c: Settings | c.commitInterval > 0 && c.stateHistory > 0 witness Settings(1, 0, 1, 0)

  /** How many blocks recovery goes back in search of a state. */
  function Reexec(cfg: Config): nat { 2 * cfg.commitInterval }

  datatype Phase = Idle | Taken(b: Block) | Indexed(b: Block)

  /** `processed` is the in-memory acceptor tip. While recovering, `last` is the configuration
      the node last ran with, `open` says whether its queue was open and `behind` how many
      recorded blocks were not processed when it went down, and `found` is the state the
      present attempt re-executes from. */
  datatype Mode =
    | Running(queue: seq<Block>, phase: Phase, processed: Block, closed: bool)
    | Recovering(last: Config, open: bool, behind: nat, found: Option<Block>)

  /** `cfg` is the configuration of the present session, which every start chooses anew,
      `tip` is the acceptor tip on disk, `indexed` the blocks whose accepted indices were
      written, in order, `puts` what went into the accepted-header cache, and `recorded`
      the last accepted block in the VM's own record. */
  datatype NodeState = NodeState(
    cfg: Config, chain: ChainState, mode: Mode, tip: Option<Block>, indexed: seq<Block>,
    retention: Retention, puts: seq<(nat, Block)>, recorded: Block)
  {
    function Disk(): set<Root> { retention.writer.tries.disk }

    /** Where recovery sets out: the acceptor tip if there is one. */
    function Start(): Block { if tip.Some? then tip.value else chain.accepted }
  }

  /** The accepted blocks the acceptor has not finished, oldest first. */
  function Waiting(mode: Mode): seq<Block>
    requires mode.Running?
  {
    match mode.phase
    case Idle => mode.queue
    case Taken(b) => [b] + mode.queue
    case Indexed(b) => [b] + mode.queue
  }

  // ------------------------------------------------------------------- the steps

  datatype NodeEvent =
    | ChainInsert(b: Block, flushed: set<Root>)
    | ChainPrefer(b: Block)
    | ChainAccept(b: Block)
    | Record
    | ChainReject(b: Block)
    | AcceptorTake
    | AcceptorIndex
    | AcceptorFinish(flushed: set<Root>)
    | CloseQueue
    | Shutdown
    | Crash
    | RecoverSearch
    | RecoverIndex
    | RecoverDone

  /** What an event does to the books of the trie writer. */
  function Booked(n: NodeState, ev: TrieEvent): Retention
  {
    Apply(n.retention, ev, n.cfg.stateHistory, n.cfg.commitInterval)
  }

  ghost predicate InsertEffect(n: NodeState, b: Block, flushed: set<Root>, n': NodeState)
  {
    && n.mode.Running?
    && F.Inserted(n.chain, b, n'.chain)
    && n' == n.(chain := n'.chain, retention := Booked(n, TrieWriter.Inserts(b, flushed)))
  }

  lemma InsertEffectOf(n: NodeState, b: Block, flushed: set<Root>, n': NodeState)
    requires n.mode.Running? && F.Inserted(n.chain, b, n'.chain)
    requires n'.retention == Booked(n, TrieWriter.Inserts(b, flushed)) && n'.cfg == n.cfg && n'.mode == n.mode
    requires n'.tip == n.tip && n'.indexed == n.indexed && n'.puts == n.puts && n'.recorded == n.recorded
    ensures InsertEffect(n, b, flushed, n')
  {
  }

  /** A block is inserted successfully at most once in a session. */
  ghost predicate InsertStep(n: NodeState, b: Block, flushed: set<Root>, n': NodeState)
  {
    b !in n.retention.pending && InsertEffect(n, b, flushed, n')
  }

  ghost predicate PreferStep(n: NodeState, b: Block, n': NodeState) {
    && n.mode.Running?
    && F.Preferred(n.chain, b, n'.chain)
    && n' == n.(chain := n'.chain)
  }

  /** An accepted block goes to the end of the queue if there is room, or straight to an
      idle acceptor; once the queue is closed it goes nowhere. */
  ghost predicate Enqueued(cfg: Config, m: Mode, b: Block, m': Mode)
    requires m.Running?
  {
    && (m.closed ==> m' == m)
    && (!m.closed ==>
          || (|m.queue| < cfg.queueLimit && m' == m.(queue := m.queue + [b]))
          || (m.queue == [] && m.phase.Idle? && m' == m.(phase := Taken(b))))
  }

  /** What an accept does: the block's state is made available, and the block is handed to
      the acceptor. */
  ghost predicate AcceptEffect(n: NodeState, b: Block, n': NodeState)
  {
    && n.mode.Running?
    && F.AcceptedAs(n.chain, b, n'.chain)
    && Enqueued(n.cfg, n.mode, b, n'.mode)
    && n' == n.(chain := n'.chain, mode := n'.mode, retention := Booked(n, TrieWriter.Finalizes(b)))
  }

  lemma AcceptEffectOf(n: NodeState, b: Block, n': NodeState)
    requires n.mode.Running? && F.AcceptedAs(n.chain, b, n'.chain) && Enqueued(n.cfg, n.mode, b, n'.mode)
    requires n'.retention == Booked(n, TrieWriter.Finalizes(b))
    requires n'.cfg == n.cfg && n'.tip == n.tip && n'.indexed == n.indexed && n'.puts == n.puts && n'.recorded == n.recorded
    ensures AcceptEffect(n, b, n')
  {
  }

  /** The acceptor has already written the tip of a child of the last accepted block: its
      accept was lost in a crash before it was recorded. */
  ghost predicate TipAhead(n: NodeState) {
    n.tip.Some? && Stored(n.chain.blocks, n.tip.value) && Parent(n.chain.blocks, n.tip.value) == Some(n.chain.accepted)
  }

  /** What the callers of accept see to: the block is stored, the previous accept has been
      recorded, consensus does not go back on a decision, and the books can take the block. */
  ghost predicate MayAccept(n: NodeState, b: Block) {
    && Stored(n.chain.blocks, b)
    && n.recorded == n.chain.accepted
    && (TipAhead(n) ==> n.tip == Some(b))
    && Settled(n.retention, b)
  }

  ghost predicate AcceptStep(n: NodeState, b: Block, n': NodeState)
  {
    MayAccept(n, b) && AcceptEffect(n, b, n')
  }

  /** The VM records the last accepted block. */
  ghost predicate RecordStep(n: NodeState, n': NodeState) {
    n.mode.Running? && n' == n.(recorded := n.chain.accepted)
  }

  /** What a reject does: the reference is released and the block deleted. Nothing asks whether
      the block is still needed. */
  ghost predicate RejectEffect(n: NodeState, b: Block, n': NodeState) {
    && n.mode.Running? && F.Names(n.chain.blocks, b)
    && n' == n.(chain := F.Deleted(n.chain, b), retention := Booked(n, TrieWriter.Rejects(b)))
  }

  /** What the callers of reject see to: the block is not between the head and the base, it is
      not the acceptor tip, and the books can take it. */
  ghost predicate MayReject(n: NodeState, b: Block) {
    F.OffPath(n.chain, b) && n.tip != Some(b) && Settled(n.retention, b)
  }

  ghost predicate RejectStep(n: NodeState, b: Block, n': NodeState) {
    MayReject(n, b) && RejectEffect(n, b, n')
  }

  ghost predicate TakeStep(n: NodeState, n': NodeState) {
    && n.mode.Running? && n.mode.phase.Idle? && |n.mode.queue| > 0
    && n' == n.(mode := n.mode.(queue := n.mode.queue[1..], phase := Taken(n.mode.queue[0])))
  }

  ghost predicate IndexStep(n: NodeState, n': NodeState) {
    && n.mode.Running? && n.mode.phase.Taken?
    && var b := n.mode.phase.b;
       n' == n.(mode := n.mode.(phase := Indexed(b)), tip := Some(b), indexed := n.indexed + [b])
  }

  ghost predicate FinishStep(n: NodeState, flushed: set<Root>, n': NodeState)
  {
    && n.mode.Running? && n.mode.phase.Indexed?
    && var b := n.mode.phase.b;
       n' == n.(mode := n.mode.(phase := Idle, processed := b),
                retention := Booked(n, TrieWriter.Accepts(b, flushed)),
                puts := n.puts + [(b.number, b)])
  }

  ghost predicate CloseStep(n: NodeState, n': NodeState) {
    && n.mode.Running? && Waiting(n.mode) == []
    && n' == n.(mode := n.mode.(closed := true))
  }

  /** A clean shutdown commits the newest accepted root before the process ends. */
  ghost predicate ShutdownStep(n: NodeState, n': NodeState) {
    && n.mode.Running? && n.mode.closed
    && n' == n.(retention := n.retention.(writer := TrieWriter.Shutdown(n.retention.writer)))
  }

  /** Nothing but the disk: no tries in memory, no window, nothing pending. */
  function Blank(disk: set<Root>): Retention {
    Retention(Writer(Tries(disk, map[]), []), {}, map[])
  }

  /** Memory is lost. The restarted node, possibly with another configuration, loads the head
      block and the recorded one, takes the recorded one for the last accepted block and moves
      its head there. */
  ghost predicate CrashStep(n: NodeState, n': NodeState) {
    && Stored(n.chain.blocks, n.chain.head) && Stored(n.chain.blocks, n.recorded)
    && F.Restarted(n.chain, n.recorded, n'.chain)
    && n'.mode == Down(n.cfg, n.mode, n.recorded)
    && n' == n.(cfg := n'.cfg, chain := n'.chain, mode := n'.mode, puts := [], retention := Blank(n.Disk()))
  }

  function Down(cfg: Config, mode: Mode, recorded: Block): Mode {
    match mode
    case Running(_, _, p, closed) =>
      Recovering(cfg, !closed, if recorded.number > p.number then recorded.number - p.number else 0, None)
    case Recovering(_, _, _, _) => mode.(found := None)
  }

  /** An attempt at recovery sets out from a stored block and finds a state within twice the
      commit interval of the new session. */
  ghost predicate RecoverSearchStep(n: NodeState, n': NodeState) {
    && n.mode.Recovering? && n.mode.found.None? && Stored(n.chain.blocks, n.Start())
    && var x := WalkBack(n.chain.blocks, n.retention.writer.tries, n.Start(), Reexec(n.cfg));
       x.Some? && n' == n.(mode := n.mode.(found := x))
  }

  /** Recovery has re-executed the block above the acceptor tip and writes its indices. */
  ghost predicate RecoverIndexStep(n: NodeState, n': NodeState) {
    && n.mode.Recovering? && n.mode.found.Some?
    && n.tip.Some? && n.tip.value.number < n.chain.accepted.number
    && var b := Ancestor(n.chain.blocks, n.chain.accepted, n.tip.value.number + 1);
       b.Some? && n' == n.(tip := b, indexed := n.indexed + [b.value])
  }

  /** Recovery has nothing more to index and commits the last accepted state. If the state
      found lies above that block nothing was re-executed, and the state has to be there
      already. The references left in memory are the starting counts of the new session. */
  ghost predicate RecoverDoneStep(n: NodeState, n': NodeState) {
    && n.mode.Recovering? && n.mode.found.Some?
    && (n.tip.Some? ==> n.tip.value.number >= n.chain.accepted.number)
    && (n.mode.found.value.number > n.chain.accepted.number ==> n.chain.accepted.root in n.Disk())
    && var w := n'.retention.writer;
       && w.tries.disk == n.Disk() + {n.chain.accepted.root}
       && w.window == []
       && n' == n.(mode := Running([], Idle, n.chain.accepted, false),
                   retention := Retention(w, {}, w.tries.dirty), puts := n'.puts)
       && Warmed(n.chain, n'.puts)
  }

  /** The accepted-header cache is refilled from the canonical index, in order of height
      up to the last accepted block. */
  ghost predicate Warmed(c: ChainState, puts: seq<(nat, Block)>) {
    forall i :: 0 <= i < |puts| ==>
      && puts[i].0 == c.accepted.number - (|puts| - 1 - i) >= c.base.number
      && Ancestor(c.blocks, c.head, puts[i].0) == Some(puts[i].1)
  }

  ghost predicate Step(n: NodeState, ev: NodeEvent, n': NodeState)
  {
    match ev
    case ChainInsert(b, flushed) => InsertStep(n, b, flushed, n')
    case ChainPrefer(b) => PreferStep(n, b, n')
    case ChainAccept(b) => AcceptStep(n, b, n')
    case Record => RecordStep(n, n')
    case ChainReject(b) => RejectStep(n, b, n')
    case AcceptorTake => TakeStep(n, n')
    case AcceptorIndex => IndexStep(n, n')
    case AcceptorFinish(flushed) => FinishStep(n, flushed, n')
    case CloseQueue => CloseStep(n, n')
    case Shutdown => ShutdownStep(n, n')
    case Crash => CrashStep(n, n')
    case RecoverSearch => RecoverSearchStep(n, n')
    case RecoverIndex => RecoverIndexStep(n, n')
    case RecoverDone => RecoverDoneStep(n, n')
  }

  // ---------------------------------------------------------------- the invariant

  /** On the accepted chain, not below the base. */
  ghost predicate OnChain(c: ChainState, x: Block) {
    Descends(c.blocks, c.accepted, x) && c.base.number <= x.number
  }

  /** The record is at most one accept behind, and not behind at all after a crash. */
  ghost predicate RecordInv(n: NodeState) {
    && OnChain(n.chain, n.recorded)
    && n.recorded.number <= n.chain.accepted.number <= n.recorded.number + 1
    && (n.mode.Recovering? ==> n.recorded == n.chain.accepted)
  }

  /** The waiting blocks are exactly the accepted blocks above `processed`, in order. */
  ghost predicate InOrder(c: ChainState, processed: Block, waiting: seq<Block>) {
    && |waiting| == c.accepted.number - processed.number
    && forall i :: 0 <= i < |waiting| ==>
         Ancestor(c.blocks, c.accepted, processed.number + 1 + i) == Some(waiting[i])
  }

  /** The tip is the processed block or the next one: the next accepted one, or a block whose
      accept was lost. Before there is a tip nothing has been processed in any session. */
  ghost predicate TipInv(n: NodeState)
    requires n.mode.Running?
  {
    var p := n.mode.processed;
    match n.tip
    case None => p.number <= n.recorded.number && p.root in n.Disk()
    case Some(t) => t == p || NextTip(n.chain, p, n.recorded, t)
  }

  ghost predicate NextTip(c: ChainState, p: Block, recorded: Block, t: Block) {
    && Stored(c.blocks, t) && Parent(c.blocks, t) == Some(p)
    && if c.accepted == p then recorded == p else OnChain(c, t)
  }

  ghost predicate QueueInv(n: NodeState)
    requires n.mode.Running?
  {
    var m := n.mode;
    && OnChain(n.chain, m.processed)
    && |m.queue| <= n.cfg.queueLimit
    && (m.closed ==> Waiting(m) == [])
    && (!m.closed ==> InOrder(n.chain, m.processed, Waiting(m)))
    && (m.phase.Indexed? ==> n.tip == Some(m.phase.b))
    && TipInv(n)
  }

  /** `c` is an accepted block with its state on disk, and no commit height lies between
      it and `height`. */
  ghost predicate LastCommit(n: NodeState, c: Block, height: nat)
  {
    && OnChain(n.chain, c) && c.root in n.Disk()
    && height - height % n.cfg.commitInterval <= c.number <= height
  }

  ghost predicate HasCommit(n: NodeState, height: nat)
  {
    exists c :: LastCommit(n, c, height)
  }

  ghost predicate CommitInv(n: NodeState)
  {
    match n.mode
    case Running(_, _, p, _) =>
      HasCommit(n, p.number) && (p.number > n.recorded.number ==> HasCommit(n, n.recorded.number))
    case Recovering(last, open, behind, _) =>
      && (open ==> behind <= last.queueLimit + 1)
      && (n.tip.Some? ==> OnChain(n.chain, n.tip.value) || (TipAhead(n) && behind == 0))
      && exists c :: ReachableCommit(n, c, last.commitInterval, behind)
  }

  /** `c` is an accepted block with its state on disk, no further below the last accepted one
      than what had not been processed and what is left of a commit interval. */
  ghost predicate ReachableCommit(n: NodeState, c: Block, interval: nat, behind: nat) {
    && OnChain(n.chain, c) && c.root in n.Disk()
    && (n.tip.Some? ==> c.number <= n.tip.value.number)
    && n.chain.accepted.number - c.number <= behind + if n.tip.Some? then interval - 1 else 0
  }

  /** Every accepted block above the processed one is pending. */
  ghost predicate Unprocessed(n: NodeState, processed: Block) {
    forall k: nat :: processed.number < k <= n.chain.accepted.number ==>
      var b := Ancestor(n.chain.blocks, n.chain.accepted, k);
      b.Some? && b.value in n.retention.pending
  }

  ghost predicate RetentionInv(n: NodeState) {
    && Conserved(n.retention, n.cfg.stateHistory) && n.chain.base.root in n.Disk()
    && (forall b :: b in n.retention.pending ==> Stored(n.chain.blocks, b))
    && (n.mode.Running? ==>
          && Unprocessed(n, n.mode.processed)
          && var w := n.retention.writer.window;
             if |w| == 0 then n.mode.processed.root in n.Disk() else w[|w| - 1] == n.mode.processed.root)
  }

  ghost predicate CacheInv(n: NodeState) {
    && (n.mode.Recovering? ==> n.puts == [])
    && forall i :: 0 <= i < |n.puts| ==>
         && n.puts[i].0 == n.puts[i].1.number && OnChain(n.chain, n.puts[i].1)
         && (n.mode.Running? ==> n.puts[i].0 == n.mode.processed.number - (|n.puts| - 1 - i))
  }

  ghost predicate NodeInv(n: NodeState)
  {
    && F.Inv(n.chain) && RecordInv(n)
    && (n.mode.Running? ==> QueueInv(n))
    && (n.mode.Recovering? ==> n.retention == Blank(n.Disk()))
    && CommitInv(n) && RetentionInv(n) && CacheInv(n)
  }

  // -------------------------------------------------- steps of the chain

  /** Inserts, preference changes and rejects keep the accepted path block for block. */
  lemma PathKept(c: ChainState, ev: F.Event, c': ChainState, k: nat)
    requires F.Inv(c) && F.Step(c, ev, c') && !ev.Accept?
    requires c.base.number <= k <= c.accepted.number
    ensures c'.accepted == c.accepted && c'.base == c.base
    ensures Ancestor(c'.blocks, c.accepted, k) == Ancestor(c.blocks, c.accepted, k)
    ensures Ancestor(c.blocks, c.accepted, k).Some?
  {
    AncestorBetween(c.blocks, c.accepted, k, c.base.number);
    match ev
    case Insert(b) => AncestorGrows(c.blocks, c'.blocks, c.accepted, k);
    case Prefer(b) =>
    case Reject(b) => F.RejectKeepsPath(c, b, c', c.accepted, k);
  }

  /** As long as accepted blocks stay accepted and the disk only grows, commits stay. */
  lemma CommitKept(n: NodeState, n': NodeState, height: nat)
    requires HasCommit(n, height) && n'.cfg == n.cfg
    requires (forall x :: OnChain(n.chain, x) ==> OnChain(n'.chain, x)) && n.Disk() <= n'.Disk()
    ensures HasCommit(n', height)
  {
    var c :| LastCommit(n, c, height);
    assert LastCommit(n', c, height);
  }

  /** The accepted path is the same, block for block. */
  ghost predicate SamePath(c: ChainState, c': ChainState) {
    && c'.accepted == c.accepted && c'.base == c.base
    && forall k: nat :: c.base.number <= k <= c.accepted.number ==>
         Ancestor(c'.blocks, c.accepted, k) == Ancestor(c.blocks, c.accepted, k)
  }

  lemma StepSamePath(c: ChainState, ev: F.Event, c': ChainState)
    requires F.Inv(c) && F.Step(c, ev, c') && !ev.Accept?
    ensures SamePath(c, c') && forall x :: OnChain(c, x) ==> OnChain(c', x)
  {
    F.BaseBelow(c);
    PathKept(c, ev, c', c.base.number);
    forall k: nat | c.base.number <= k <= c.accepted.number
      ensures Ancestor(c'.blocks, c.accepted, k) == Ancestor(c.blocks, c.accepted, k)
    {
      PathKept(c, ev, c', k);
    }
  }

  /** Neither the next tip nor its parent can be rejected. */
  lemma TipKept(c: ChainState, ev: F.Event, c': ChainState, p: Block, recorded: Block, t: Block)
    requires F.Inv(c) && F.Step(c, ev, c') && !ev.Accept? && ev != F.Reject(t)
    requires OnChain(c, p) && NextTip(c, p, recorded, t)
    ensures NextTip(c', p, recorded, t)
  {
    StepSamePath(c, ev, c');
    AncestorStored(c.blocks, c.accepted, p.number);
    if ev.Reject? {
      F.RejectMissesPath(c, ev.b, c.accepted, p.number);
    }
  }

  lemma QueueKept(n: NodeState, ev: F.Event, n': NodeState)
    requires NodeInv(n) && F.Step(n.chain, ev, n'.chain) && !ev.Accept?
    requires n.tip.Some? ==> ev != F.Reject(n.tip.value)
    requires n'.cfg == n.cfg && n.mode.Running? && n'.mode == n.mode && n'.tip == n.tip && n'.recorded == n.recorded && n.Disk() <= n'.Disk()
    ensures QueueInv(n')
  {
    StepSamePath(n.chain, ev, n'.chain);
    if n.tip.Some? && n.tip.value != n.mode.processed {
      TipKept(n.chain, ev, n'.chain, n.mode.processed, n.recorded, n.tip.value);
    }
  }

  /** A chain step that is not an accept keeps what the acceptor and recovery rely on. */
  lemma ChainStepKeeps(n: NodeState, ev: F.Event, n': NodeState)
    requires NodeInv(n) && F.Step(n.chain, ev, n'.chain) && !ev.Accept?
    requires n.tip.Some? ==> ev != F.Reject(n.tip.value)
    requires n'.cfg == n.cfg && n.mode.Running? && n'.mode == n.mode && n'.tip == n.tip && n'.puts == n.puts && n'.recorded == n.recorded
    requires n.Disk() <= n'.Disk()
    ensures F.Inv(n'.chain) && RecordInv(n') && QueueInv(n') && CommitInv(n') && CacheInv(n')
    ensures SamePath(n.chain, n'.chain)
  {
    F.StepKeepsInv(n.chain, ev, n'.chain);
    StepSamePath(n.chain, ev, n'.chain);
    QueueKept(n, ev, n');
    CommitKept(n, n', n.mode.processed.number);
    if n.mode.processed.number > n.recorded.number {
      CommitKept(n, n', n.recorded.number);
    }
  }

  lemma InsertKeeps(n: NodeState, b: Block, flushed: set<Root>, n': NodeState)
    requires NodeInv(n) && InsertStep(n, b, flushed, n')
    ensures NodeInv(n')
  {
    assert F.Step(n.chain, F.Insert(b), n'.chain);
    ChainStepKeeps(n, F.Insert(b), n');
    ApplyConserves(n.retention, TrieWriter.Inserts(b, flushed), n.cfg.stateHistory, n.cfg.commitInterval);
  }

  lemma PreferKeeps(n: NodeState, b: Block, n': NodeState)
    requires NodeInv(n) && PreferStep(n, b, n')
    ensures NodeInv(n')
  {
    assert F.Step(n.chain, F.Prefer(b), n'.chain);
    ChainStepKeeps(n, F.Prefer(b), n');
  }

  /** A rejected block is not on the accepted chain, so no accepted block stops pending. */
  lemma RejectKeeps(n: NodeState, b: Block, n': NodeState)
    requires NodeInv(n) && RejectStep(n, b, n')
    ensures NodeInv(n')
  {
    assert F.Step(n.chain, F.Reject(b), n'.chain);
    ChainStepKeeps(n, F.Reject(b), n');
    ApplyConserves(n.retention, TrieWriter.Rejects(b), n.cfg.stateHistory, n.cfg.commitInterval);
    forall k: nat | n.mode.processed.number < k <= n.chain.accepted.number
      ensures Ancestor(n.chain.blocks, n.chain.accepted, k) != Some(b)
    {
      F.RejectMissesPath(n.chain, b, n.chain.accepted, k);
    }
  }

  /** What the callers of reject see to is exactly what it takes. */
  lemma RejectKeepsIff(n: NodeState, b: Block, n': NodeState)
    requires NodeInv(n) && RejectEffect(n, b, n')
    ensures NodeInv(n') <==> MayReject(n, b)
  {
    if MayReject(n, b) {
      RejectKeeps(n, b, n');
    } else {
      ConservedIffSettled(n.retention, b, n.cfg.stateHistory, n.cfg.commitInterval);
      F.DeleteKeepsInvIff(n.chain, b);
      if n.tip == Some(b) && F.OffPath(n.chain, b) {
        F.BaseBelow(n.chain);
        DescendsTransitive(n.chain.blocks, n.chain.head, n.chain.accepted, n.mode.processed);
        assert b != n.mode.processed;
      }
    }
  }

  lemma AcceptKeepsChain(c: ChainState, b: Block, c': ChainState)
    requires F.Inv(c) && F.Accepted(c, b, c')
    ensures F.Inv(c') && c'.blocks == c.blocks && c'.base == c.base
    ensures Parent(c.blocks, b) == Some(c.accepted) && b.number == c.accepted.number + 1
    ensures forall x :: OnChain(c, x) ==> OnChain(c', x)
  {
    assert F.Step(c, F.Accept(b), c');
    F.AcceptKeepsInv(c, b, c');
    forall x | OnChain(c, x) ensures OnChain(c', x) {
      F.StepKeepsAccepted(c, F.Accept(b), c', x);
    }
  }

  /** Accepting keeps the books: the accepted blocks above the processed one are all pending,
      and while the queue is open they are what waits in it. */
  lemma AcceptKeeps(n: NodeState, b: Block, n': NodeState)
    requires NodeInv(n) && AcceptStep(n, b, n')
    ensures NodeInv(n')
  {
    F.BaseBelow(n.chain);
    AcceptKeepsChain(n.chain, b, n'.chain);
    CommitKept(n, n', n.mode.processed.number);
    AcceptKeepsQueue(n, b, n');
    AcceptKeepsRetention(n, b, n');
  }

  lemma AcceptKeepsQueue(n: NodeState, b: Block, n': NodeState)
    requires NodeInv(n) && AcceptStep(n, b, n')
    ensures QueueInv(n')
  {
    AcceptKeepsChain(n.chain, b, n'.chain);
    if !n.mode.closed {
      assert Waiting(n'.mode) == Waiting(n.mode) + [b];
      InOrderGrows(n.chain, b, n'.chain, n.mode.processed, Waiting(n.mode));
    }
    var p := n.mode.processed;
    if n.tip.Some? && n.tip.value != p {
      assert n.chain.accepted == p ==> TipAhead(n);
      assert NextTip(n'.chain, p, n.recorded, n.tip.value);
    }
  }

  lemma AcceptKeepsRetention(n: NodeState, b: Block, n': NodeState)
    requires NodeInv(n) && AcceptStep(n, b, n')
    ensures RetentionInv(n')
  {
    AcceptKeepsChain(n.chain, b, n'.chain);
    ApplyConserves(n.retention, TrieWriter.Finalizes(b), n.cfg.stateHistory, n.cfg.commitInterval);
    assert n'.retention.pending == n.retention.pending + {b};
    forall k: nat | n.mode.processed.number < k <= n'.chain.accepted.number
      ensures var x := Ancestor(n'.chain.blocks, n'.chain.accepted, k); x.Some? && x.value in n'.retention.pending
    {
      if k <= n.chain.accepted.number {
        assert Ancestor(n'.chain.blocks, b, k) == Ancestor(n.chain.blocks, n.chain.accepted, k);
      }
    }
  }

  /** What the callers of accept see to is exactly what it takes: with a block that is not
      stored, without the record of the previous accept, with a sibling of a block whose tip is
      already written, or with a block the books cannot take, the invariant is lost. */
  lemma AcceptKeepsIff(n: NodeState, b: Block, n': NodeState)
    requires NodeInv(n) && AcceptEffect(n, b, n')
    ensures NodeInv(n') <==> MayAccept(n, b)
  {
    F.AcceptKeepsInvIff(n.chain, b, n'.chain);
    if MayAccept(n, b) {
      AcceptKeeps(n, b, n');
    } else if Stored(n.chain.blocks, b) {
      AcceptKeepsChain(n.chain, b, n'.chain);
      ConservedIffSettled(n.retention, b, n.cfg.stateHistory, n.cfg.commitInterval);
      if n.recorded != n.chain.accepted {
        assert n.recorded.number < n.chain.accepted.number;
      } else if Settled(n.retention, b) {
        assert TipAhead(n) && n.tip.value != b && n'.chain.accepted == b;
        assert n.tip.value != n.mode.processed;
        assert !NextTip(n'.chain, n.mode.processed, n.recorded, n.tip.value);
      }
    }
  }

  lemma InOrderGrows(c: ChainState, b: Block, c': ChainState, processed: Block, waiting: seq<Block>)
    requires InOrder(c, processed, waiting) && c'.blocks == c.blocks && c'.accepted == b
    requires Parent(c.blocks, b) == Some(c.accepted) && b.number == c.accepted.number + 1
    ensures InOrder(c', processed, waiting + [b])
  {
    var w := waiting + [b];
    forall i | 0 <= i < |w|
      ensures Ancestor(c'.blocks, b, processed.number + 1 + i) == Some(w[i])
    {
      if i < |waiting| {
        assert Ancestor(c.blocks, c.accepted, processed.number + 1 + i) == Some(waiting[i]);
      }
    }
  }

  lemma RecordKeeps(n: NodeState, n': NodeState)
    requires NodeInv(n) && RecordStep(n, n')
    ensures NodeInv(n')
  {
    F.BaseBelow(n.chain);
    CommitKept(n, n', n.mode.processed.number);
  }

  // -------------------------------------------------- steps of the acceptor

  lemma TakeKeeps(n: NodeState, n': NodeState)
    requires NodeInv(n) && TakeStep(n, n')
    ensures NodeInv(n')
  {
    assert Waiting(n'.mode) == Waiting(n.mode);
    SameCommits(n, n');
  }

  /** A step that leaves chain, record, disk and processed block alone leaves the commits. */
  lemma SameCommits(n: NodeState, n': NodeState)
    requires CommitInv(n) && n.mode.Running? && n'.mode.Running? && n'.cfg == n.cfg
    requires n'.chain == n.chain && n'.recorded == n.recorded && n'.mode.processed == n.mode.processed && n.Disk() <= n'.Disk()
    ensures CommitInv(n')
  {
    CommitKept(n, n', n.mode.processed.number);
    if n.mode.processed.number > n.recorded.number {
      CommitKept(n, n', n.recorded.number);
    }
  }

  lemma IndexKeeps(n: NodeState, n': NodeState)
    requires NodeInv(n) && IndexStep(n, n')
    ensures NodeInv(n')
  {
    var c, p, w := n.chain, n.mode.processed, Waiting(n.mode);
    assert Waiting(n'.mode) == w;
    assert Ancestor(c.blocks, c.accepted, p.number + 1 + 0) == Some(w[0]);
    AncestorStored(c.blocks, c.accepted, p.number + 1);
    AncestorCompose(c.blocks, c.accepted, p.number + 1, p.number);
    SameCommits(n, n');
  }

  /** The block the acceptor has indexed is the accepted block right above the processed
      one, and finishing it keeps the rest of the queue in order. */
  lemma FinishQueue(n: NodeState, flushed: set<Root>, n': NodeState)
    requires NodeInv(n) && FinishStep(n, flushed, n')
    ensures n.mode.phase.b.number == n.mode.processed.number + 1 && OnChain(n.chain, n.mode.phase.b)
    ensures n.mode.phase.b in n.retention.pending
    ensures Waiting(n'.mode) == Waiting(n.mode)[1..]
    ensures QueueInv(n')
  {
    var b, p, w := n.mode.phase.b, n.mode.processed, Waiting(n.mode);
    assert w[0] == b;
    assert Ancestor(n.chain.blocks, n.chain.accepted, p.number + 1) == Some(w[0]);
    forall i | 0 <= i < |w[1..]|
      ensures Ancestor(n.chain.blocks, n.chain.accepted, b.number + 1 + i) == Some(w[1..][i])
    {
      assert Ancestor(n.chain.blocks, n.chain.accepted, p.number + 1 + (i + 1)) == Some(w[i + 1]);
    }
  }

  lemma FinishRetention(n: NodeState, flushed: set<Root>, n': NodeState)
    requires NodeInv(n) && FinishStep(n, flushed, n')
    ensures RetentionInv(n')
  {
    var b := n.mode.phase.b;
    FinishQueue(n, flushed, n');
    ApplyConserves(n.retention, TrieWriter.Accepts(b, flushed), n.cfg.stateHistory, n.cfg.commitInterval);
  }

  lemma FinishKeeps(n: NodeState, flushed: set<Root>, n': NodeState)
    requires NodeInv(n) && FinishStep(n, flushed, n')
    ensures NodeInv(n')
  {
    FinishQueue(n, flushed, n');
    FinishRetention(n, flushed, n');
    FinishCommits(n, flushed, n');
  }

  lemma FinishCommits(n: NodeState, flushed: set<Root>, n': NodeState)
    requires NodeInv(n) && FinishStep(n, flushed, n')
    requires n.mode.phase.b.number == n.mode.processed.number + 1 && OnChain(n.chain, n.mode.phase.b)
    requires n.mode.phase.b in n.retention.pending
    requires Conserved(n'.retention, n.cfg.stateHistory)
    ensures CommitInv(n')
  {
    var b, p := n.mode.phase.b, n.mode.processed;
    CommitKept(n, n', p.number);
    if b.number % n.cfg.commitInterval == 0 {
      var w' := n'.retention.writer;
      assert w'.window[|w'.window| - 1] == b.root;
      NothingReleased(n'.retention, n.cfg.stateHistory);
      assert w'.tries.Has(b.root);
      assert LastCommit(n', b, b.number);
    } else {
      NextMultiple(p.number, n.cfg.commitInterval);
      var c :| LastCommit(n, c, p.number);
      assert LastCommit(n', c, b.number);
    }
  }

  lemma CloseKeeps(n: NodeState, n': NodeState)
    requires NodeInv(n) && CloseStep(n, n')
    ensures NodeInv(n')
  {
    SameCommits(n, n');
  }

  lemma ShutdownKeeps(n: NodeState, n': NodeState)
    requires NodeInv(n) && ShutdownStep(n, n')
    ensures NodeInv(n')
    ensures n.mode.processed.root in n'.Disk()
  {
    SameCommits(n, n');
    NothingReleased(n.retention, n.cfg.stateHistory);
    forall r ensures ConservedAt(n'.retention, r) {
      assert ConservedAt(n.retention, r);
    }
  }

  // -------------------------------------------------- crash and recovery

  /** The recorded chain below the processed block has a commit within one interval, or the
      processed block itself if nothing was ever indexed. */
  lemma CrashCommit(n: NodeState) returns (c: Block)
    requires NodeInv(n) && n.mode.Running?
    ensures OnChain(n.chain, c) && c.root in n.Disk() && c.number <= n.recorded.number && c.number <= n.mode.processed.number
    ensures var p, r := n.mode.processed.number, n.recorded.number;
            (if p < r then p else r) - c.number <= if n.tip.Some? then n.cfg.commitInterval - 1 else 0
  {
    var p := n.mode.processed;
    if n.tip.None? {
      c := p;
    } else if p.number > n.recorded.number {
      c :| LastCommit(n, c, n.recorded.number);
    } else {
      c :| LastCommit(n, c, p.number);
    }
  }

  /** What a crash leaves: a committed state on the recorded chain, no further below the
      recorded block than what was not processed and what is left of a commit interval, and
      no further than one commit interval below the acceptor tip. */
  lemma CrashReaches(n: NodeState, n': NodeState) returns (c: Block)
    requires NodeInv(n) && CrashStep(n, n') && n.mode.Running?
    ensures ReachableCommit(n', c, n.cfg.commitInterval, n'.mode.behind)
    ensures n.tip.Some? ==> OnChain(n'.chain, n.tip.value) || (TipAhead(n') && n'.mode.behind == 0)
    ensures n.tip.Some? ==> n.tip.value.number - c.number <= n.cfg.commitInterval
  {
    c := CrashCommit(n);
    DescendsComparable(n.chain.blocks, n.chain.accepted, n.recorded, c);
    if n.tip.Some? {
      CrashTip(n, n', n.tip.value);
    }
  }

  /** After a crash the tip is on the recorded chain, or it is the child of the recorded block
      whose accept was lost. */
  lemma CrashTip(n: NodeState, n': NodeState, t: Block)
    requires NodeInv(n) && CrashStep(n, n') && n.mode.Running? && n.tip == Some(t)
    ensures OnChain(n'.chain, t) || (TipAhead(n') && n.mode.processed.number >= n.recorded.number)
    ensures n.mode.processed.number <= t.number <= n.mode.processed.number + 1
  {
    var c, p := n.chain, n.mode.processed;
    AncestorStored(c.blocks, c.accepted, p.number);
    if OnChain(c, t) {
      if t.number <= n.recorded.number {
        DescendsComparable(c.blocks, c.accepted, n.recorded, t);
      } else {
        AncestorStored(c.blocks, c.accepted, t.number);
        AncestorCompose(c.blocks, c.accepted, t.number, n.recorded.number);
      }
    }
  }

  lemma CrashKeeps(n: NodeState, n': NodeState)
    requires NodeInv(n) && CrashStep(n, n')
    ensures NodeInv(n')
  {
    F.BaseBelow(n.chain);
    F.RestartKeepsInv(n.chain, n.recorded, n'.chain, n.chain.base);
    CrashBehind(n, n');
    if n.mode.Running? {
      var c := CrashReaches(n, n');
    } else {
      var c :| ReachableCommit(n, c, n.mode.last.commitInterval, n.mode.behind);
      assert ReachableCommit(n', c, n.mode.last.commitInterval, n.mode.behind);
    }
    forall r ensures ConservedAt(n'.retention, r) {
      assert Holding({}, r) == {};
    }
  }

  lemma CrashBehind(n: NodeState, n': NodeState)
    requires NodeInv(n) && CrashStep(n, n')
    ensures n'.mode.open ==> n'.mode.behind <= n'.mode.last.queueLimit + 1
  {
  }

  lemma RecoverSearchKeeps(n: NodeState, n': NodeState)
    requires NodeInv(n) && RecoverSearchStep(n, n')
    ensures NodeInv(n')
  {
    var c :| ReachableCommit(n, c, n.mode.last.commitInterval, n.mode.behind);
    assert ReachableCommit(n', c, n.mode.last.commitInterval, n.mode.behind);
  }

  lemma RecoverIndexKeeps(n: NodeState, n': NodeState)
    requires NodeInv(n) && RecoverIndexStep(n, n')
    ensures NodeInv(n')
  {
    var c :| ReachableCommit(n, c, n.mode.last.commitInterval, n.mode.behind);
    assert ReachableCommit(n', c, n.mode.last.commitInterval, n.mode.behind);
  }

  lemma RecoverDoneKeeps(n: NodeState, n': NodeState)
    requires NodeInv(n) && RecoverDoneStep(n, n')
    ensures NodeInv(n')
  {
    var a := n.chain.accepted;
    F.BaseBelow(n.chain);
    assert LastCommit(n', a, a.number);
    forall r ensures ConservedAt(n'.retention, r) {
      assert Holding({}, r) == {};
    }
    forall i | 0 <= i < |n'.puts| ensures OnChain(n.chain, n'.puts[i].1) {
      AncestorCompose(n.chain.blocks, n.chain.head, a.number, n'.puts[i].0);
    }
  }

  // ------------------------------------------------------------------- whole runs

  lemma StepKeeps(n: NodeState, ev: NodeEvent, n': NodeState)
    requires NodeInv(n) && Step(n, ev, n')
    ensures NodeInv(n')
  {
    match ev
    case ChainInsert(b, flushed) => InsertKeeps(n, b, flushed, n');
    case ChainPrefer(b) => PreferKeeps(n, b, n');
    case ChainAccept(b) => AcceptKeeps(n, b, n');
    case Record => RecordKeeps(n, n');
    case ChainReject(b) => RejectKeeps(n, b, n');
    case AcceptorTake => TakeKeeps(n, n');
    case AcceptorIndex => IndexKeeps(n, n');
    case AcceptorFinish(flushed) => FinishKeeps(n, flushed, n');
    case CloseQueue => CloseKeeps(n, n');
    case Shutdown => ShutdownKeeps(n, n');
    case Crash => CrashKeeps(n, n');
    case RecoverSearch => RecoverSearchKeeps(n, n');
    case RecoverIndex => RecoverIndexKeeps(n, n');
    case RecoverDone => RecoverDoneKeeps(n, n');
  }
}
