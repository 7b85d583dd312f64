/** What holds in every reachable state of the node: recovery finds a state to start
    from, accepted blocks stay final, their states stay available, and the accepted
    header cache answers as the canonical index does. */
module Recovery {
  import opened Outcomes
  import opened Arithmetic
  import opened Chain
  import F = Finality
  import opened BoundedBuffers
  import opened FIFOCaches
  import opened TrieDatabase
  import opened TrieWriter
  import opened StateSearch
  import opened N = Node

  // ------------------------------------------------------------------- whole runs

  /** A node right after start-up: the base block is the head, accepted and committed. */
  ghost predicate Initial(n: NodeState) {
    var c := n.chain;
    && F.Inv(c) && c.head == c.base && c.accepted == c.base
    && n.mode == Running([], Idle, c.base, false) && n.recorded == c.base
    && (n.tip.None? || n.tip == Some(c.base))
    && c.base.root in n.Disk()
    && n.retention == Retention(Writer(n.retention.writer.tries, []), {}, n.retention.writer.tries.dirty)
    && n.puts == []
  }

  ghost predicate Next(n: NodeState, n': NodeState) {
    exists ev :: N.Step(n, ev, n')
  }

  ghost predicate StepAt(cfgs: set<Config>, run: seq<NodeState>, i: int) {
    0 < i < |run| && Next(run[i - 1], run[i]) && run[i].cfg in cfgs
  }

  /** A run of a node whose every start picks one of the configurations `cfgs`. */
  ghost predicate IsRun(cfgs: set<Config>, run: seq<NodeState>) {
    |run| > 0 && Initial(run[0]) && run[0].cfg in cfgs && forall i :: 0 < i < |run| ==> StepAt(cfgs, run, i)
  }

  ghost predicate Reachable(cfgs: set<Config>, n: NodeState) {
    exists run :: IsRun(cfgs, run) && run[|run| - 1] == n
  }

  lemma InitialInv(n: NodeState)
    requires Initial(n)
    ensures NodeInv(n)
  {
    assert LastCommit(n, n.chain.base, n.chain.base.number);
    forall r ensures ConservedAt(n.retention, r) {
      assert Holding({}, r) == {};
    }
  }

  lemma {:induction false} RunKeepsInv(cfgs: set<Config>, run: seq<NodeState>, i: nat)
    requires IsRun(cfgs, run) && i < |run|
    ensures NodeInv(run[i])
  {
    if i == 0 {
      InitialInv(run[0]);
    } else {
      RunKeepsInv(cfgs, run, i - 1);
      assert StepAt(cfgs, run, i);
      var ev :| N.Step(run[i - 1], ev, run[i]);
      StepKeeps(run[i - 1], ev, run[i]);
    }
  }

  lemma ReachableInv(cfgs: set<Config>, n: NodeState)
    requires Reachable(cfgs, n)
    ensures NodeInv(n)
  {
    var run :| IsRun(cfgs, run) && run[|run| - 1] == n;
    RunKeepsInv(cfgs, run, |run| - 1);
  }

  // ------------------------------------------------------------------- finality

  /** Seen from the chain alone, a step of the node is a step of the chain, a restart from the
      recorded block, or none. */
  lemma StepOfChain(n: NodeState, ev: NodeEvent, n': NodeState)
    requires N.Step(n, ev, n')
    ensures if ev.Crash? then F.Restarted(n.chain, n.recorded, n'.chain) else F.Next(n.chain, n'.chain)
  {
    match ev
    case ChainInsert(b, _) => assert F.Step(n.chain, F.Insert(b), n'.chain);
    case ChainPrefer(b) => assert F.Step(n.chain, F.Prefer(b), n'.chain);
    case ChainAccept(b) => assert F.Step(n.chain, F.Accept(b), n'.chain);
    case ChainReject(b) => assert F.Step(n.chain, F.Reject(b), n'.chain);
    case _ =>
  }

  /** On the chain of the recorded block, not below the base. */
  ghost predicate OnRecord(n: NodeState, x: Block) {
    Descends(n.chain.blocks, n.recorded, x) && n.chain.base.number <= x.number
  }

  /** A step other than a crash keeps the accepted chain; every step keeps the recorded one. */
  lemma StepKeepsFinal(n: NodeState, ev: NodeEvent, n': NodeState, x: Block)
    requires NodeInv(n) && N.Step(n, ev, n')
    ensures n'.chain.base == n.chain.base
    ensures !ev.Crash? && OnChain(n.chain, x) ==> OnChain(n'.chain, x)
    ensures OnRecord(n, x) ==> OnRecord(n', x)
  {
    StepOfChain(n, ev, n');
    if !ev.Crash? {
      F.NextKeeps(n.chain, n'.chain);
      KeptOnChain(n, n', x);
      KeptOnChain(n, n', n.recorded);
      if OnRecord(n, x) {
        DescendsTransitive(n.chain.blocks, n.chain.accepted, n.recorded, x);
        RecordAdvances(n, ev, n', x);
      }
    }
  }

  lemma KeptOnChain(n: NodeState, n': NodeState, x: Block)
    requires F.Inv(n.chain) && F.Next(n.chain, n'.chain)
    ensures n'.chain.base == n.chain.base && (OnChain(n.chain, x) ==> OnChain(n'.chain, x))
  {
    F.NextKeeps(n.chain, n'.chain);
    if OnChain(n.chain, x) {
      F.NextKeepsAccepted(n.chain, n'.chain, x);
    }
  }

  lemma RecordAdvances(n: NodeState, ev: NodeEvent, n': NodeState, x: Block)
    requires N.Step(n, ev, n') && !ev.Crash?
    requires OnRecord(n, x) && OnChain(n'.chain, x) && OnChain(n'.chain, n.recorded)
    ensures OnRecord(n', x)
  {
    if ev.Record? {
      assert n'.recorded == n'.chain.accepted;
    } else {
      assert n'.recorded == n.recorded;
      DescendsComparable(n'.chain.blocks, n'.chain.accepted, n.recorded, x);
    }
  }

  /** What is final in a state: stored, canonical at its height, at or below the head and on
      the accepted chain. */
  ghost predicate Final(n: NodeState, b: Block) {
    && CanonicalHash(n.chain.index, b.number) == Some(b.hash)
    && Stored(n.chain.blocks, b) && Descends(n.chain.blocks, n.chain.head, b)
    && Descends(n.chain.blocks, n.chain.accepted, b)
  }

  lemma OnChainIsFinal(n: NodeState, b: Block)
    requires NodeInv(n) && OnChain(n.chain, b)
    ensures Final(n, b)
  {
    F.AcceptedIsCanonical(n.chain, b);
    AncestorStored(n.chain.blocks, n.chain.accepted, b.number);
  }

  lemma {:induction false} RunKeepsRecord(cfgs: set<Config>, run: seq<NodeState>, i: nat, j: nat, x: Block)
    requires IsRun(cfgs, run) && i <= j < |run| && OnRecord(run[i], x)
    ensures OnRecord(run[j], x)
    decreases j
  {
    if i < j {
      RunKeepsRecord(cfgs, run, i, j - 1, x);
      RunKeepsInv(cfgs, run, j - 1);
      assert StepAt(cfgs, run, j);
      var ev :| N.Step(run[j - 1], ev, run[j]);
      StepKeepsFinal(run[j - 1], ev, run[j], x);
    }
  }

  /** Finality across crashes and recoveries: whatever is on the recorded chain at one moment is
      final at every later one. */
  lemma RecordedIsFinal(cfgs: set<Config>, run: seq<NodeState>, i: nat, j: nat, x: Block)
    requires IsRun(cfgs, run) && i <= j < |run| && OnRecord(run[i], x)
    ensures Final(run[j], x)
  {
    RunKeepsInv(cfgs, run, j);
    RunKeepsRecord(cfgs, run, i, j, x);
    DescendsTransitive(run[j].chain.blocks, run[j].chain.accepted, run[j].recorded, x);
    OnChainIsFinal(run[j], x);
  }

  lemma {:induction false} RunKeepsAccepted(cfgs: set<Config>, run: seq<NodeState>, i: nat, j: nat, x: Block)
    requires IsRun(cfgs, run) && i <= j < |run| && OnChain(run[i].chain, x)
    requires forall k :: i <= k <= j ==> run[k].mode.Running?
    ensures OnChain(run[j].chain, x)
    decreases j
  {
    if i < j {
      RunKeepsAccepted(cfgs, run, i, j - 1, x);
      RunKeepsInv(cfgs, run, j - 1);
      assert StepAt(cfgs, run, j);
      NextKeepsAccepted(run[j - 1], run[j], x);
    }
  }

  lemma NextKeepsAccepted(n: NodeState, n': NodeState, x: Block)
    requires NodeInv(n) && Next(n, n') && n'.mode.Running? && OnChain(n.chain, x)
    ensures OnChain(n'.chain, x)
  {
    var ev :| N.Step(n, ev, n');
    StepKeepsFinal(n, ev, n', x);
  }

  /** Finality between crashes: what is accepted, recorded or not, stays final as long as the
      node keeps running. */
  lemma AcceptedIsFinal(cfgs: set<Config>, run: seq<NodeState>, i: nat, j: nat, x: Block)
    requires IsRun(cfgs, run) && i <= j < |run| && OnChain(run[i].chain, x)
    requires forall k :: i <= k <= j ==> run[k].mode.Running?
    ensures Final(run[j], x)
  {
    RunKeepsInv(cfgs, run, j);
    RunKeepsAccepted(cfgs, run, i, j, x);
    OnChainIsFinal(run[j], x);
  }

  /** A crash undoes the last accept if and only if it was not recorded. */
  lemma CrashKeepsAcceptIffRecorded(cfgs: set<Config>, n: NodeState, n': NodeState)
    requires Reachable(cfgs, n) && CrashStep(n, n')
    ensures Final(n', n.chain.accepted) <==> n.recorded == n.chain.accepted
    ensures CanonicalHash(n'.chain.index, n.chain.accepted.number) == Some(n.chain.accepted.hash) <==> n.recorded == n.chain.accepted
  {
    ReachableInv(cfgs, n);
    F.BaseBelow(n.chain);
    CrashKeeps(n, n');
    F.RestartKeepsInv(n.chain, n.recorded, n'.chain, n.chain.accepted);
    if n.recorded == n.chain.accepted {
      OnChainIsFinal(n', n.recorded);
    }
  }

  // --------------------------------------------------- recovery finds a state

  ghost function Found(n: NodeState, limit: nat): Option<Block> {
    WalkBack(n.chain.blocks, n.retention.writer.tries, n.Start(), limit)
  }

  /** A committed block at or below the start is found. */
  lemma CommitIsFound(n: NodeState, c: Block, limit: nat)
    requires NodeInv(n) && n.mode.Recovering?
    requires ReachableCommit(n, c, n.mode.last.commitInterval, n.mode.behind) && n.Start().number - c.number <= limit
    ensures Found(n, limit).Some?
  {
    var t := n.Start();
    if OnChain(n.chain, t) {
      DescendsComparable(n.chain.blocks, n.chain.accepted, t, c);
    } else if n.tip.Some? {
      assert Descends(n.chain.blocks, t, n.chain.accepted);
      DescendsTransitive(n.chain.blocks, t, n.chain.accepted, c);
    }
    WalkBackFinds(n.chain.blocks, n.retention.writer.tries, t, limit, c);
  }

  /** After a crash between any two steps of a running node that has an acceptor tip, the
      search from the tip succeeds within one commit interval of the session that crashed,
      whatever configuration the node restarts with. */
  lemma CrashRecoversWithinInterval(cfgs: set<Config>, n: NodeState, n': NodeState, limit: nat)
    requires Reachable(cfgs, n) && n.mode.Running? && n.tip.Some? && CrashStep(n, n')
    requires n.cfg.commitInterval <= limit
    ensures Found(n', limit).Some?
  {
    ReachableInv(cfgs, n);
    CrashKeeps(n, n');
    var c := CrashReaches(n, n');
    CommitIsFound(n', c, limit);
  }

  /** A restart may change the configuration: the search after a crash of a running node with an
      acceptor tip always succeeds if and only if the old commit interval is at most twice the
      new one. */
  lemma CrashSearchIff(cfgs: set<Config>, before: Config, after: Config)
    requires before in cfgs && after in cfgs
    ensures before.commitInterval <= Reexec(after) <==>
            forall n, n' :: Reachable(cfgs, n) && n.mode.Running? && n.tip.Some? && Restarts(n, before, n', after) ==>
              Found(n', Reexec(after)).Some?
  {
    if before.commitInterval <= Reexec(after) {
      forall n, n' | Reachable(cfgs, n) && n.mode.Running? && n.tip.Some? && Restarts(n, before, n', after)
        ensures Found(n', Reexec(after)).Some?
      {
        CrashRecoversWithinInterval(cfgs, n, n', Reexec(after));
      }
    } else {
      var n, n' := ExampleShorterInterval(cfgs, before, after);
      assert Reachable(cfgs, n) && n.mode.Running? && n.tip.Some? && Restarts(n, before, n', after);
    }
  }

  /** A node that ran with `before` goes down and restarts with `after`. */
  ghost predicate Restarts(n: NodeState, before: Config, n': NodeState, after: Config) {
    n.cfg == before && n'.cfg == after && CrashStep(n, n')
  }

  /** How far any recovery has to search, however often it was interrupted before: past what
      had not been processed, and what is left of a commit interval of the last session if
      there is a tip. */
  predicate Covers(n: NodeState, limit: nat)
    requires n.mode.Recovering?
  {
    var interval := n.mode.last.commitInterval;
    if n.tip.Some? then n.mode.behind + interval - 1 <= limit && interval <= limit
    else n.mode.behind <= limit
  }

  lemma InterruptedRecoveryReaches(cfgs: set<Config>, n: NodeState, limit: nat)
    requires Reachable(cfgs, n) && n.mode.Recovering? && Covers(n, limit)
    ensures Found(n, limit).Some?
  {
    ReachableInv(cfgs, n);
    var c :| ReachableCommit(n, c, n.mode.last.commitInterval, n.mode.behind);
    CommitIsFound(n, c, limit);
  }

  // ----------------------------------------- and when the search is too short

  /** A straight chain of blocks with distinct state roots. */
  function Straight(i: nat): Block { Block(i + 1, i, i, i) }

  function StraightStore(top: nat): (r: Store)
    ensures forall h :: h in r <==> 1 <= h <= top + 1
    ensures forall h :: h in r ==> r[h] == Straight(h - 1)
  {
    if top == 0 then map[1 := Straight(0)] else StraightStore(top - 1)[top + 1 := Straight(top)]
  }

  function StraightIndex(top: nat): (r: Index)
    ensures forall k: nat :: k in r <==> k <= top
    ensures forall k: nat :: k in r ==> r[k] == k + 1
  {
    if top == 0 then map[0 := 1] else StraightIndex(top - 1)[top := top + 1]
  }

  function StraightChain(top: nat, accepted: nat): F.ChainState {
    F.ChainState(Straight(0), StraightStore(top), StraightIndex(top), Straight(top), Straight(accepted))
  }

  lemma ReachStep(cfgs: set<Config>, n: NodeState, ev: NodeEvent, n': NodeState)
    requires Reachable(cfgs, n) && N.Step(n, ev, n') && (n'.cfg == n.cfg || n'.cfg in cfgs)
    ensures Reachable(cfgs, n')
  {
    var run :| IsRun(cfgs, run) && run[|run| - 1] == n;
    var run' := run + [n'];
    assert Next(n, n');
    assert n.cfg in cfgs by {
      if |run| > 1 { assert StepAt(cfgs, run, |run| - 1); }
    }
    forall i | 0 < i < |run'| ensures StepAt(cfgs, run', i) {
      if i < |run| {
        assert StepAt(cfgs, run, i);
      }
    }
    assert IsRun(cfgs, run') && run'[|run'| - 1] == n';
  }

  /** The blocks up to `top` are inserted and those up to `accepted` accepted and recorded; only
      the base state is on disk and the unprocessed blocks are pending. */
  ghost predicate Example(n: NodeState, top: nat, accepted: nat, processed: nat) {
    && n.chain == StraightChain(top, accepted) && n.recorded == Straight(accepted)
    && n.Disk() == {0}
    && n.mode.Running? && n.mode.processed == Straight(processed)
    && (forall i :: processed < i <= top ==> Straight(i) in n.retention.pending)
    && (n.tip.Some? ==> n.tip.value.number <= accepted)
  }

  lemma {:induction false} ExampleInserted(cfgs: set<Config>, cfg: Config, top: nat) returns (n: NodeState)
    requires cfg in cfgs
    ensures Reachable(cfgs, n) && n.cfg == cfg && Example(n, top, 0, 0)
    ensures n.mode == Running([], Idle, Straight(0), false) && n.tip.None?
    ensures forall b :: b in n.retention.pending ==> b.number <= top
    decreases top
  {
    if top == 0 {
      n := ExampleStart(cfgs, cfg);
    } else {
      var m := ExampleInserted(cfgs, cfg, top - 1);
      n := ExampleInsertStep(m, top);
      ReachStep(cfgs, m, ChainInsert(Straight(top), {}), n);
    }
  }

  lemma ExampleInsertStep(m: NodeState, top: nat) returns (n: NodeState)
    requires top > 0 && Example(m, top - 1, 0, 0)
    requires m.mode == Running([], Idle, Straight(0), false) && m.tip.None?
    requires forall b :: b in m.retention.pending ==> b.number <= top - 1
    ensures N.Step(m, ChainInsert(Straight(top), {}), n) && Example(n, top, 0, 0)
    ensures n.cfg == m.cfg && n.mode == m.mode && n.tip.None?
    ensures forall b :: b in n.retention.pending ==> b.number <= top
  {
    n := m.(chain := StraightChain(top, 0), retention := Booked(m, TrieWriter.Inserts(Straight(top), {})));
    StraightInserted(top);
  }

  lemma ExampleStart(cfgs: set<Config>, cfg: Config) returns (n: NodeState)
    requires cfg in cfgs
    ensures Reachable(cfgs, n) && n.cfg == cfg && Example(n, 0, 0, 0)
    ensures n.mode == Running([], Idle, Straight(0), false) && n.retention.pending == {} && n.tip.None?
  {
    var g := Straight(0);
    n := NodeState(cfg, StraightChain(0, 0), Running([], Idle, g, false), None, [], Blank({0}), [], g);
    forall k: nat ensures CanonicalHash(n.chain.index, k) == HashOf(Ancestor(n.chain.blocks, g, k)) {}
    assert IsRun(cfgs, [n]) && [n][|[n]| - 1] == n;
  }

  lemma StraightInserted(top: nat)
    requires top > 0
    ensures F.Inserted(StraightChain(top - 1, 0), Straight(top), StraightChain(top, 0))
  {
    var c, c', b := StraightChain(top - 1, 0), StraightChain(top, 0), Straight(top);
    assert c'.blocks == c.blocks[b.hash := b];
    assert c'.index == c.index[b.number := b.hash];
  }

  lemma StraightAccepted(top: nat, k: nat)
    requires k < top
    ensures F.Accepted(StraightChain(top, k), Straight(k + 1), StraightChain(top, k + 1))
  {
  }

  /** The next block is accepted; its state is there, so nothing is re-executed. */
  lemma ExampleAccepted(cfgs: set<Config>, m: NodeState, top: nat, k: nat, p: nat, mode: Mode) returns (n: NodeState)
    requires Reachable(cfgs, m) && p <= k < top && Example(m, top, k, p)
    requires Enqueued(m.cfg, m.mode, Straight(k + 1), mode)
    ensures Reachable(cfgs, n) && n == m.(chain := StraightChain(top, k + 1), mode := mode)
  {
    var b := Straight(k + 1);
    n := m.(chain := StraightChain(top, k + 1), mode := mode);
    ReachableInv(cfgs, m);
    NothingReleased(m.retention, m.cfg.stateHistory);
    StraightAccepted(top, k);
    assert Booked(m, TrieWriter.Finalizes(b)) == m.retention;
    ReachStep(cfgs, m, ChainAccept(b), n);
  }

  /** The next block is accepted and recorded. */
  lemma ExampleRecorded(cfgs: set<Config>, m: NodeState, top: nat, k: nat, p: nat, mode: Mode) returns (n: NodeState)
    requires Reachable(cfgs, m) && p <= k < top && Example(m, top, k, p)
    requires Enqueued(m.cfg, m.mode, Straight(k + 1), mode) && mode.processed == m.mode.processed
    ensures Reachable(cfgs, n) && Example(n, top, k + 1, p)
    ensures n == m.(chain := StraightChain(top, k + 1), mode := mode, recorded := Straight(k + 1))
  {
    var m1 := ExampleAccepted(cfgs, m, top, k, p, mode);
    n := m1.(recorded := Straight(k + 1));
    ReachStep(cfgs, m1, Record, n);
  }

  /** One block accepted, recorded and taken by the idle acceptor, and its indices written. */
  lemma ExampleIndexed(cfgs: set<Config>, m: NodeState, top: nat, k: nat) returns (n: NodeState)
    requires Reachable(cfgs, m) && k < top && Example(m, top, k, k)
    requires m.mode == Running([], Idle, Straight(k), false)
    ensures Reachable(cfgs, n) && n.cfg == m.cfg && Example(n, top, k + 1, k)
    ensures n.mode == Running([], Indexed(Straight(k + 1)), Straight(k), false) && n.tip == Some(Straight(k + 1))
  {
    var b := Straight(k + 1);
    var m1 := ExampleRecorded(cfgs, m, top, k, k, m.mode.(phase := Taken(b)));
    n := m1.(mode := m1.mode.(phase := Indexed(b)), tip := Some(b), indexed := m1.indexed + [b]);
    ReachStep(cfgs, m1, AcceptorIndex, n);
  }

  lemma OffScheduleKeepsDisk(r: Retention, b: Block, history: nat, interval: nat)
    requires history > 0 && interval > 0 && b.number % interval != 0
    ensures var r' := Apply(r, TrieWriter.Accepts(b, {}), history, interval);
            r'.writer.tries.disk == r.writer.tries.disk && r'.pending == r.pending - {b}
  {
  }

  /** Below the first commit height finishing a block puts nothing on disk. */
  lemma ExampleFinished(cfgs: set<Config>, m: NodeState, top: nat, k: nat) returns (n: NodeState)
    requires Reachable(cfgs, m) && 0 < k < m.cfg.commitInterval && Example(m, top, k, k - 1)
    requires m.mode == Running([], Indexed(Straight(k)), Straight(k - 1), false)
    ensures Reachable(cfgs, n) && n.cfg == m.cfg && Example(n, top, k, k)
    ensures n.mode == Running([], Idle, Straight(k), false) && n.tip == m.tip
  {
    var b := Straight(k);
    var r := Booked(m, TrieWriter.Accepts(b, {}));
    ModUnique(0, k, m.cfg.commitInterval);
    OffScheduleKeepsDisk(m.retention, b, m.cfg.stateHistory, m.cfg.commitInterval);
    n := m.(mode := m.mode.(phase := Idle, processed := b), retention := r, puts := m.puts + [(b.number, b)]);
    ReachStep(cfgs, m, AcceptorFinish({}), n);
  }

  lemma {:induction false} ExampleProcessed(cfgs: set<Config>, cfg: Config, top: nat, k: nat) returns (n: NodeState)
    requires cfg in cfgs && k < cfg.commitInterval && k <= top
    ensures Reachable(cfgs, n) && n.cfg == cfg && Example(n, top, k, k)
    ensures n.mode == Running([], Idle, Straight(k), false)
    ensures n.tip == if k == 0 then None else Some(Straight(k))
    decreases k
  {
    if k == 0 {
      n := ExampleInserted(cfgs, cfg, top);
    } else {
      n := ExampleProcessed(cfgs, cfg, top, k - 1);
      n := ExampleIndexed(cfgs, n, top, k - 1);
      n := ExampleFinished(cfgs, n, top, k);
    }
  }

  /** The queue is full behind a block at the first commit height that is being processed. */
  lemma {:induction false} ExampleQueued(cfgs: set<Config>, cfg: Config, top: nat, j: nat) returns (n: NodeState)
    requires cfg in cfgs && j <= cfg.queueLimit && cfg.commitInterval + j <= top
    ensures Reachable(cfgs, n) && n.cfg == cfg && Example(n, top, cfg.commitInterval + j, cfg.commitInterval - 1)
    ensures |n.mode.queue| == j && n.mode.phase.Indexed? && !n.mode.closed
    ensures n.tip == Some(Straight(cfg.commitInterval))
    decreases j
  {
    if j == 0 {
      var m := ExampleProcessed(cfgs, cfg, top, cfg.commitInterval - 1);
      n := ExampleIndexed(cfgs, m, top, cfg.commitInterval - 1);
    } else {
      var m := ExampleQueued(cfgs, cfg, top, j - 1);
      var b := Straight(cfg.commitInterval + j);
      n := ExampleRecorded(cfgs, m, top, cfg.commitInterval + j - 1, cfg.commitInterval - 1,
                           m.mode.(queue := m.mode.queue + [b]));
    }
  }

  /** The queue is closed after block `p`, and `j` more blocks are accepted. */
  lemma {:induction false} ExampleClosed(cfgs: set<Config>, cfg: Config, top: nat, p: nat, j: nat) returns (n: NodeState)
    requires cfg in cfgs && p < cfg.commitInterval && p + j <= top
    ensures Reachable(cfgs, n) && n.cfg == cfg && Example(n, top, p + j, p)
    ensures n.mode == Running([], Idle, Straight(p), true) && n.tip == if p == 0 then None else Some(Straight(p))
    decreases j
  {
    if j == 0 {
      var m := ExampleProcessed(cfgs, cfg, top, p);
      n := m.(mode := m.mode.(closed := true));
      ReachStep(cfgs, m, CloseQueue, n);
    } else {
      var m := ExampleClosed(cfgs, cfg, top, p, j - 1);
      n := ExampleRecorded(cfgs, m, top, p + j - 1, p, m.mode);
    }
  }

  lemma {:induction false} StraightAncestor(top: nat, a: nat, i: nat)
    requires i <= a <= top
    ensures Ancestor(StraightStore(top), Straight(a), i) == Some(Straight(i))
    decreases a
  {
    if i < a { StraightAncestor(top, a - 1, i); }
  }

  /** With only the base state on disk the search finds it exactly if it is near enough. */
  lemma {:induction false} StraightWalk(top: nat, a: nat, limit: nat)
    requires a <= top
    ensures WalkBack(StraightStore(top), Tries({0}, map[]), Straight(a), limit)
         == if a <= limit then Some(Straight(0)) else None
    decreases limit
  {
    if 0 < a && 0 < limit {
      assert Parent(StraightStore(top), Straight(a)) == Some(Straight(a - 1));
      StraightWalk(top, a - 1, limit - 1);
    }
  }

  /** A node down with the blocks up to `top` recorded and only the base state on disk. */
  ghost predicate Fallen(n: NodeState, top: nat) {
    && n.chain == StraightChain(top, top) && n.recorded == Straight(top)
    && n.retention == Blank({0}) && n.mode.Recovering?
  }

  /** A restart at the head changes nothing. */
  lemma StraightStays(top: nat)
    ensures F.Restarted(StraightChain(top, top), Straight(top), StraightChain(top, top))
  {
    StraightIndexes(top, top);
    StraightAncestor(top, top, top);
  }

  lemma StraightIndexed(top: nat, a: nat, i: nat)
    requires a <= top
    ensures CanonicalHash(StraightIndex(a), i) == HashOf(Ancestor(StraightStore(top), Straight(a), i))
  {
    if i <= a { StraightAncestor(top, a, i); }
  }

  lemma StraightIndexes(top: nat, a: nat)
    requires a <= top
    ensures Indexes(StraightIndex(a), StraightStore(top), 0, Straight(a))
  {
    var store, index, head := StraightStore(top), StraightIndex(a), Straight(a);
    forall i: nat ensures CanonicalHash(index, i) == HashOf(Ancestor(store, head, i)) {
      StraightIndexed(top, a, i);
    }
  }

  lemma FallenFound(n: NodeState, top: nat, limit: nat)
    requires Fallen(n, top) && n.Start() == Straight(top)
    ensures Found(n, limit) == if top <= limit then Some(Straight(0)) else None
  {
    StraightWalk(top, top, limit);
  }

  lemma ExampleCrashed(cfgs: set<Config>, m: NodeState, top: nat, p: nat, cfg: Config) returns (n: NodeState)
    requires cfg in cfgs && Reachable(cfgs, m) && p <= top && Example(m, top, top, p)
    ensures Reachable(cfgs, n) && CrashStep(m, n) && n.cfg == cfg && Fallen(n, top) && n.tip == m.tip
    ensures n.mode == Recovering(m.cfg, !m.mode.closed, top - p, None)
  {
    StraightStays(top);
    n := m.(cfg := cfg, mode := Down(m.cfg, m.mode, m.recorded), puts := [], retention := Blank(m.Disk()));
    ReachStep(cfgs, m, Crash, n);
  }

  /** A crash right after the block at the first commit height was indexed and before its state
      was committed. A restart with a commit interval of less than half the old one does not
      search as far as the base. */
  lemma ExampleShorterInterval(cfgs: set<Config>, before: Config, after: Config) returns (n: NodeState, n': NodeState)
    requires before in cfgs && after in cfgs && before.commitInterval > Reexec(after)
    ensures Reachable(cfgs, n) && n.mode.Running? && n.tip.Some? && Restarts(n, before, n', after)
    ensures Reachable(cfgs, n') && Found(n', Reexec(after)).None?
  {
    var k := before.commitInterval;
    n := ExampleProcessed(cfgs, before, k, k - 1);
    n := ExampleIndexed(cfgs, n, k, k - 1);
    n' := ExampleCrashed(cfgs, n, k, k - 1, after);
    FallenFound(n', k, Reexec(after));
  }

  /** Recovery writes the tips up to `j` before anything is committed. */
  lemma {:induction false} ExampleClimbs(cfgs: set<Config>, m: NodeState, top: nat, t: nat, j: nat) returns (n: NodeState)
    requires Reachable(cfgs, m) && Fallen(m, top) && m.mode.found.Some?
    requires m.tip == Some(Straight(t)) && t <= j <= top
    ensures Reachable(cfgs, n) && n.cfg == m.cfg && Fallen(n, top) && n.mode == m.mode && n.tip == Some(Straight(j))
    decreases j
  {
    if j == t {
      n := m;
    } else {
      var m1 := ExampleClimbs(cfgs, m, top, t, j - 1);
      var b := Straight(j);
      StraightAncestor(top, top, j);
      n := m1.(tip := Some(b), indexed := m1.indexed + [b]);
      ReachStep(cfgs, m1, RecoverIndex, n);
    }
  }

  /** The first attempt finds the base state, indexes everything and is interrupted before it
      commits: the next one, with the configuration `cfg`, has to start from the top. */
  lemma ExampleInterrupted(cfgs: set<Config>, m: NodeState, top: nat, t: nat, cfg: Config) returns (n: NodeState)
    requires cfg in cfgs && Reachable(cfgs, m) && Fallen(m, top) && m.mode.found.None?
    requires m.tip.Some? ==> m.tip == Some(Straight(t)) && t <= top && t <= Reexec(m.cfg)
    ensures Reachable(cfgs, n) && n.cfg == cfg && Fallen(n, top) && n.mode == m.mode && n.Start() == Straight(top)
    ensures n.tip.Some? <==> m.tip.Some?
  {
    var m2 := m;
    if m.tip.Some? {
      StraightWalk(top, t, Reexec(m.cfg));
      var m1 := m.(mode := m.mode.(found := Some(Straight(0))));
      ReachStep(cfgs, m, RecoverSearch, m1);
      m2 := ExampleClimbs(cfgs, m1, top, t, top);
    }
    n := ExampleDownAgain(cfgs, m2, top, cfg);
  }

  lemma ExampleDownAgain(cfgs: set<Config>, m: NodeState, top: nat, cfg: Config) returns (n: NodeState)
    requires cfg in cfgs && Reachable(cfgs, m) && Fallen(m, top)
    ensures Reachable(cfgs, n) && n.cfg == cfg && Fallen(n, top) && n.mode == m.mode.(found := None) && n.tip == m.tip
  {
    n := m.(cfg := cfg, mode := m.mode.(found := None), puts := []);
    StraightStays(top);
    ReachStep(cfgs, m, Crash, n);
  }

  /** A recovery with `after` from a session with `before`. */
  ghost predicate Recovers(n: NodeState, before: Config, after: Config) {
    n.mode.Recovering? && n.mode.last == before && n.cfg == after
  }

  /** The recorded blocks not processed when the node went down decide: the search is long enough
      for every recovery with `k` of them, interrupted or not, if and only if it covers them
      and the rest of an old commit interval, and an old commit interval in any case. Without
      a change of configuration this is `k <= commitInterval + 1`. */
  lemma TwiceTheIntervalIff(cfgs: set<Config>, before: Config, after: Config, k: nat)
    requires before in cfgs && after in cfgs
    ensures k + before.commitInterval - 1 <= Reexec(after) && before.commitInterval <= Reexec(after) <==>
            forall n :: Reachable(cfgs, n) && Recovers(n, before, after) && n.mode.behind == k ==>
              Found(n, Reexec(after)).Some?
    ensures before == after ==>
            (k + before.commitInterval - 1 <= Reexec(after) && before.commitInterval <= Reexec(after) <==> k <= after.commitInterval + 1)
  {
    if k + before.commitInterval - 1 <= Reexec(after) && before.commitInterval <= Reexec(after) {
      forall n | Reachable(cfgs, n) && Recovers(n, before, after) && n.mode.behind == k
        ensures Found(n, Reexec(after)).Some?
      {
        InterruptedRecoveryReaches(cfgs, n, Reexec(after));
      }
    } else {
      var n := ExampleTooFarBehind(cfgs, before, after, k);
      assert Reachable(cfgs, n) && Recovers(n, before, after) && n.mode.behind == k;
    }
  }

  /** Accepts after the queue was closed are not bounded by its limit, so with every
      configuration recoveries can be too far behind. With nothing unprocessed the old commit
      interval alone has to be too long. */
  lemma ExampleTooFarBehind(cfgs: set<Config>, before: Config, after: Config, k: nat) returns (n: NodeState)
    requires before in cfgs && after in cfgs
    requires k + before.commitInterval - 1 > Reexec(after) || before.commitInterval > Reexec(after)
    ensures Reachable(cfgs, n) && Recovers(n, before, after) && n.mode.behind == k
    ensures Found(n, Reexec(after)).None?
  {
    if k == 0 {
      n := ExampleFarAhead(cfgs, before, after);
    } else {
      n := ExampleFarBehind(cfgs, before, after, k);
    }
  }

  /** Every recorded block is processed, but the tip is a commit interval above the base. */
  lemma ExampleFarAhead(cfgs: set<Config>, before: Config, after: Config) returns (n: NodeState)
    requires before in cfgs && after in cfgs && before.commitInterval > Reexec(after)
    ensures Reachable(cfgs, n) && Recovers(n, before, after) && n.mode.behind == 0
    ensures Found(n, Reexec(after)).None?
  {
    var k := before.commitInterval;
    var m := ExampleUnrecorded(cfgs, before, k);
    n := ExampleUnaccepted(cfgs, m, k, after);
    StraightWalk(k, k, Reexec(after));
  }

  lemma ExampleFarBehind(cfgs: set<Config>, before: Config, after: Config, k: nat) returns (n: NodeState)
    requires before in cfgs && after in cfgs && k + before.commitInterval - 1 > Reexec(after)
    ensures Reachable(cfgs, n) && Recovers(n, before, after) && n.mode.behind == k
    ensures Found(n, Reexec(after)).None?
  {
    var p := before.commitInterval - 1;
    var top := p + k;
    var m := ExampleClosedDown(cfgs, before, p, k, before);
    n := ExampleInterrupted(cfgs, m, top, p, after);
    FallenFound(n, top, Reexec(after));
  }

  lemma ExampleClosedDown(cfgs: set<Config>, before: Config, p: nat, k: nat, cfg: Config) returns (n: NodeState)
    requires before in cfgs && cfg in cfgs && p < before.commitInterval
    ensures Reachable(cfgs, n) && n.cfg == cfg && Fallen(n, p + k) && n.mode == Recovering(before, false, k, None)
    ensures n.tip == if p == 0 then None else Some(Straight(p))
  {
    var top := p + k;
    var m := ExampleClosed(cfgs, before, top, p, k);
    n := ExampleCrashed(cfgs, m, top, p, cfg);
    assert m.mode.closed && top - p == k;
  }

  /** While the queue is open its limit bounds what is not processed: the search is long enough
      for every recovery of a node that went down with its queue open if and only if it covers
      the old commit interval and the old queue. Without a change of configuration this is
      `queueLimit <= commitInterval`. */
  lemma OpenQueueIff(cfgs: set<Config>, before: Config, after: Config)
    requires before in cfgs && after in cfgs
    ensures before.commitInterval + before.queueLimit <= Reexec(after) <==>
            forall n :: Reachable(cfgs, n) && Recovers(n, before, after) && n.mode.open ==>
              Found(n, Reexec(after)).Some?
    ensures before == after ==>
            (before.commitInterval + before.queueLimit <= Reexec(after) <==> after.queueLimit <= after.commitInterval)
  {
    if before.commitInterval + before.queueLimit <= Reexec(after) {
      forall n | Reachable(cfgs, n) && Recovers(n, before, after) && n.mode.open
        ensures Found(n, Reexec(after)).Some?
      {
        OpenQueueCovers(cfgs, n);
        InterruptedRecoveryReaches(cfgs, n, Reexec(after));
      }
    } else {
      var top := before.commitInterval + before.queueLimit;
      var n := ExampleFullQueue(cfgs, before, after, top);
      FallenFound(n, top, Reexec(after));
      assert Reachable(cfgs, n) && Recovers(n, before, after) && n.mode.open;
    }
  }

  lemma OpenQueueCovers(cfgs: set<Config>, n: NodeState)
    requires Reachable(cfgs, n) && n.mode.Recovering? && n.mode.open
    ensures Covers(n, n.mode.last.commitInterval + n.mode.last.queueLimit)
  {
    ReachableInv(cfgs, n);
  }

  /** A crash with a full queue and an interrupted recovery: the next one starts a commit
      interval and the whole queue above the only committed state. */
  lemma ExampleFullQueue(cfgs: set<Config>, before: Config, after: Config, top: nat) returns (n: NodeState)
    requires before in cfgs && after in cfgs && top == before.commitInterval + before.queueLimit
    ensures Reachable(cfgs, n) && n.cfg == after && Fallen(n, top) && n.Start() == Straight(top)
    ensures n.mode == Recovering(before, true, before.queueLimit + 1, None)
  {
    var m := ExampleQueueDown(cfgs, before, top);
    n := ExampleInterrupted(cfgs, m, top, before.commitInterval, after);
  }

  lemma ExampleQueueDown(cfgs: set<Config>, cfg: Config, top: nat) returns (n: NodeState)
    requires cfg in cfgs && top == cfg.commitInterval + cfg.queueLimit
    ensures Reachable(cfgs, n) && n.cfg == cfg && Fallen(n, top) && n.tip == Some(Straight(cfg.commitInterval))
    ensures n.mode == Recovering(cfg, true, cfg.queueLimit + 1, None)
  {
    var p := cfg.commitInterval - 1;
    var m := ExampleQueued(cfgs, cfg, top, cfg.queueLimit);
    n := ExampleCrashed(cfgs, m, top, p, cfg);
  }

  /** Before the acceptor has ever written a tip the search starts at the last accepted block:
      it is long enough if and only if no more blocks than that were not processed. */
  lemma NoTipIff(cfgs: set<Config>, before: Config, after: Config, k: nat)
    requires before in cfgs && after in cfgs
    ensures k <= Reexec(after) <==>
            forall n :: Reachable(cfgs, n) && Recovers(n, before, after) && n.tip.None? && n.mode.behind == k ==>
              Found(n, Reexec(after)).Some?
  {
    if k <= Reexec(after) {
      forall n | Reachable(cfgs, n) && Recovers(n, before, after) && n.tip.None? && n.mode.behind == k
        ensures Found(n, Reexec(after)).Some?
      {
        InterruptedRecoveryReaches(cfgs, n, Reexec(after));
      }
    } else {
      var n := ExampleClosedDown(cfgs, before, 0, k, after);
      FallenFound(n, k, Reexec(after));
      assert Reachable(cfgs, n) && Recovers(n, before, after) && n.tip.None? && n.mode.behind == k;
    }
  }

  // ------------------------------------------------------- whether the node starts up

  /** An attempt at recovery succeeds: the block it sets out from is stored, a state is found,
      and either it does not lie above the last accepted block or that block's own state is
      there as well. */
  predicate StartsUp(store: Store, t: Tries, start: Block, accepted: Block, limit: nat) {
    var x := WalkBack(store, t, start, limit);
    Stored(store, start) && x.Some? && (x.value.number <= accepted.number || t.Has(accepted.root))
  }

  ghost predicate NodeStartsUp(n: NodeState) {
    StartsUp(n.chain.blocks, n.retention.writer.tries, n.Start(), n.chain.accepted, Reexec(n.cfg))
  }

  /** The acceptor was ahead of the record: it committed a block whose accept was lost, and the
      state below it is not on disk. */
  ghost predicate Stranded(n: NodeState) {
    && n.tip.Some? && n.tip.value.number > n.chain.accepted.number
    && n.tip.value.root in n.Disk() && n.chain.accepted.root !in n.Disk()
  }

  /** A node starts up if and only if the search succeeds and it is not stranded. */
  lemma FoundStartsUpIff(n: NodeState)
    requires NodeInv(n) && n.mode.Recovering?
    ensures NodeStartsUp(n) <==> Found(n, Reexec(n.cfg)).Some? && !Stranded(n)
  {
    if n.tip.None? || OnChain(n.chain, n.tip.value) {
      AncestorStored(n.chain.blocks, n.chain.accepted, n.Start().number);
    }
    if Found(n, Reexec(n.cfg)).Some? {
      WalkBackAbove(n.chain.blocks, n.retention.writer.tries, n.Start(), Reexec(n.cfg));
    }
  }

  /** Where the search is sure to succeed, a node starts up if and only if it is not stranded. */
  lemma StartsUpIff(cfgs: set<Config>, n: NodeState)
    requires Reachable(cfgs, n) && n.mode.Recovering? && Covers(n, Reexec(n.cfg))
    ensures NodeStartsUp(n) <==> !Stranded(n)
  {
    ReachableInv(cfgs, n);
    InterruptedRecoveryReaches(cfgs, n, Reexec(n.cfg));
    FoundStartsUpIff(n);
  }

  /** So after a crash of a running node that has processed a block, and a restart whose search
      covers the old commit interval, start-up fails exactly if the block was committed before
      it was recorded and its parent was not committed. */
  lemma CrashStartsUpIff(cfgs: set<Config>, n: NodeState, n': NodeState)
    requires Reachable(cfgs, n) && n.mode.Running? && n.tip.Some? && CrashStep(n, n')
    ensures NodeStartsUp(n') ==> !CommitsUnrecorded(n)
    ensures n.cfg.commitInterval <= Reexec(n'.cfg) ==> (NodeStartsUp(n') <==> !CommitsUnrecorded(n))
  {
    ReachableInv(cfgs, n);
    CrashKeeps(n, n');
    FoundStartsUpIff(n');
    if n.cfg.commitInterval <= Reexec(n'.cfg) {
      CrashRecoversWithinInterval(cfgs, n, n', Reexec(n'.cfg));
    }
  }

  /** The block of the acceptor tip is committed but not recorded, and the recorded block is not
      committed. */
  ghost predicate CommitsUnrecorded(n: NodeState) {
    && n.tip.Some? && n.tip.value.number > n.recorded.number
    && n.tip.value.root in n.Disk() && n.recorded.root !in n.Disk()
  }

  /** Every crash of a running node that has processed a block is survived if and only if every
      block is committed, whatever the configuration after the restart. */
  lemma EveryCrashStartsUpIff(cfgs: set<Config>, before: Config, after: Config)
    requires before in cfgs && after in cfgs
    ensures before.commitInterval == 1 <==>
            forall n, n' :: Reachable(cfgs, n) && n.mode.Running? && n.tip.Some? && Restarts(n, before, n', after) ==>
              NodeStartsUp(n')
  {
    if before.commitInterval == 1 {
      forall n, n' | Reachable(cfgs, n) && n.mode.Running? && n.tip.Some? && Restarts(n, before, n', after)
        ensures NodeStartsUp(n')
      {
        CrashStartsUpIff(cfgs, n, n');
        ReachableInv(cfgs, n);
        var c := CrashReaches(n, n');
        assert n.tip.value.number > n.recorded.number ==> c.number == n.recorded.number;
      }
    } else {
      var n, n' := ExampleStranded(cfgs, before, after);
      assert Reachable(cfgs, n) && n.mode.Running? && n.tip.Some? && Restarts(n, before, n', after) && !NodeStartsUp(n');
    }
  }

  /** The block at the first commit height is processed and committed, and the node goes down
      before the VM has recorded it. */
  lemma ExampleStranded(cfgs: set<Config>, before: Config, after: Config) returns (n: NodeState, n': NodeState)
    requires before in cfgs && after in cfgs && before.commitInterval > 1
    ensures Reachable(cfgs, n) && n.mode.Running? && n.tip.Some? && Restarts(n, before, n', after)
    ensures Reachable(cfgs, n') && Stranded(n') && !NodeStartsUp(n')
    ensures CanonicalHash(n'.chain.index, n.chain.accepted.number) != Some(n.chain.accepted.hash)
  {
    n := ExampleCommitted(cfgs, before);
    n' := ExampleUnaccepted(cfgs, n, before.commitInterval, after);
    CrashStartsUpIff(cfgs, n, n');
    CrashKeepsAcceptIffRecorded(cfgs, n, n');
  }

  /** A crash that undoes the unrecorded accept of block `k`. */
  lemma ExampleUnaccepted(cfgs: set<Config>, m: NodeState, k: nat, cfg: Config) returns (n: NodeState)
    requires cfg in cfgs && Reachable(cfgs, m) && k > 0 && m.chain == StraightChain(k, k) && m.recorded == Straight(k - 1)
    ensures Reachable(cfgs, n) && CrashStep(m, n)
    ensures n == m.(cfg := cfg, chain := StraightChain(k - 1, k - 1).(blocks := StraightStore(k)),
                    mode := Down(m.cfg, m.mode, m.recorded), puts := [], retention := Blank(m.Disk()))
  {
    var c' := StraightChain(k - 1, k - 1).(blocks := StraightStore(k));
    n := m.(cfg := cfg, chain := c', mode := Down(m.cfg, m.mode, m.recorded), puts := [], retention := Blank(m.Disk()));
    StraightRestarts(k);
    ReachStep(cfgs, m, Crash, n);
  }

  lemma StraightRestarts(k: nat)
    requires k > 0
    ensures F.Restarted(StraightChain(k, k), Straight(k - 1), StraightChain(k - 1, k - 1).(blocks := StraightStore(k)))
  {
    StraightIndexes(k, k - 1);
    StraightAncestor(k, k, k - 1);
  }

  lemma ExampleCommitted(cfgs: set<Config>, cfg: Config) returns (n: NodeState)
    requires cfg in cfgs && cfg.commitInterval > 1
    ensures var k := cfg.commitInterval;
            && Reachable(cfgs, n) && n.cfg == cfg && n.chain == StraightChain(k, k) && n.recorded == Straight(k - 1)
            && n.mode == Running([], Idle, Straight(k), false) && n.tip == Some(Straight(k))
            && k in n.Disk() && k - 1 !in n.Disk()
  {
    var k := cfg.commitInterval;
    var m := ExampleUnrecorded(cfgs, cfg, k);
    var b := Straight(k);
    n := m.(mode := m.mode.(phase := Idle, processed := b),
            retention := Booked(m, TrieWriter.Accepts(b, {})), puts := m.puts + [(b.number, b)]);
    ReachStep(cfgs, m, AcceptorFinish({}), n);
    CommittedAt(cfgs, n, k);
    ModMultiple(1, k);
  }

  lemma CommittedAt(cfgs: set<Config>, n: NodeState, k: nat)
    requires Reachable(cfgs, n) && k == n.cfg.commitInterval
    requires n.chain == StraightChain(k, k) && n.mode == Running([], Idle, Straight(k), false)
    ensures k in n.Disk()
  {
    ReachableInv(cfgs, n);
    ModMultiple(1, k);
    var c :| LastCommit(n, c, k);
  }

  /** Block `k`, at or below the first commit height, is accepted and indexed, but not recorded. */
  lemma ExampleUnrecorded(cfgs: set<Config>, cfg: Config, k: nat) returns (n: NodeState)
    requires cfg in cfgs && 0 < k <= cfg.commitInterval
    ensures Reachable(cfgs, n) && n.cfg == cfg && n.chain == StraightChain(k, k) && n.recorded == Straight(k - 1)
    ensures n.mode == Running([], Indexed(Straight(k)), Straight(k - 1), false) && n.tip == Some(Straight(k))
    ensures n.Disk() == {0}
  {
    var b := Straight(k);
    var m := ExampleProcessed(cfgs, cfg, k, k - 1);
    var m1 := ExampleAccepted(cfgs, m, k, k - 1, k - 1, m.mode.(phase := Taken(b)));
    n := m1.(mode := m1.mode.(phase := Indexed(b)), tip := Some(b), indexed := m1.indexed + [b]);
    ReachStep(cfgs, m1, AcceptorIndex, n);
  }

  // ------------------------------------------------------- a whole start-up

  /** Some number of steps of one session lead from `n` to `n'`. */
  ghost predicate Leads(n: NodeState, n': NodeState)
  {
    exists run :: IsPathOf(run, n, n')
  }

  ghost predicate IsPathOf(run: seq<NodeState>, n: NodeState, n': NodeState)
  {
    |run| > 0 && run[0] == n && run[|run| - 1] == n' && forall i :: 0 < i < |run| ==> StepAt({n.cfg}, run, i)
  }

  lemma LeadsStep(n: NodeState, m: NodeState, ev: NodeEvent, n': NodeState)
    requires Leads(n, m) && N.Step(m, ev, n') && n'.cfg == n.cfg
    ensures Leads(n, n')
  {
    var run :| IsPathOf(run, n, m);
    var run' := run + [n'];
    assert Next(m, n');
    forall i | 0 < i < |run'| ensures StepAt({n.cfg}, run', i) {
      if i < |run| {
        assert StepAt({n.cfg}, run, i);
      }
    }
    assert IsPathOf(run', n, n');
  }

  lemma {:induction false} PathReachable(cfgs: set<Config>, run: seq<NodeState>, n: NodeState, i: nat)
    requires Reachable(cfgs, n) && i < |run| && run[0] == n
    requires forall i :: 0 < i < |run| ==> StepAt({n.cfg}, run, i)
    ensures Reachable(cfgs, run[i]) && run[i].cfg == n.cfg
  {
    if i > 0 {
      PathReachable(cfgs, run, n, i - 1);
      assert StepAt({n.cfg}, run, i);
      var ev :| N.Step(run[i - 1], ev, run[i]);
      ReachStep(cfgs, run[i - 1], ev, run[i]);
    }
  }

  lemma LeadsReachable(cfgs: set<Config>, n: NodeState, n': NodeState)
    requires Reachable(cfgs, n) && Leads(n, n')
    ensures Reachable(cfgs, n')
  {
    var run :| IsPathOf(run, n, n');
    PathReachable(cfgs, run, n, |run| - 1);
  }

  /** `after` continues `before` with the ancestors of `top` at the heights above `from` up
      to `to`, lowest first. */
  ghost predicate Continues(store: Store, top: Block, from: nat, to: nat, before: seq<Block>, after: seq<Block>) {
    && from <= to && |after| == |before| + (to - from) && after[..|before|] == before
    && forall k: nat :: from < k <= to ==> Ancestor(store, top, k) == Some(after[|before| + (k - from - 1)])
  }

  /** Recovery's indexing steps, one for each block above the tip. */
  lemma {:induction false} IndexLeads(n: NodeState, m: NodeState, after: seq<Block>, j: nat) returns (m': NodeState)
    requires Leads(n, m) && m.cfg == n.cfg && m.mode.Recovering? && m.mode.found.Some? && m.tip.Some?
    requires Continues(m.chain.blocks, m.chain.accepted, m.tip.value.number, m.chain.accepted.number, m.indexed, after)
    requires Ancestor(m.chain.blocks, m.chain.accepted, m.tip.value.number) == Some(m.tip.value)
    requires m.tip.value.number <= j <= m.chain.accepted.number
    ensures Leads(n, m')
    ensures m' == m.(tip := Ancestor(m.chain.blocks, m.chain.accepted, j), indexed := after[..|m.indexed| + (j - m.tip.value.number)])
    decreases j
  {
    var t := m.tip.value.number;
    if j == t {
      m' := m;
    } else {
      var m1 := IndexLeads(n, m, after, j - 1);
      var b := Ancestor(m.chain.blocks, m.chain.accepted, j);
      assert b == Some(after[|m.indexed| + (j - t - 1)]);
      AncestorBetween(m.chain.blocks, m.chain.accepted, j - 1, t);
      m' := m.(tip := b, indexed := after[..|m.indexed| + (j - t)]);
      assert m1.indexed + [b.value] == m'.indexed;
      LeadsStep(n, m1, RecoverIndex, m');
    }
  }

  /** What a start-up comes to: the search succeeded, the tip is brought up to the last accepted
      block with the indices of the blocks above it, and the last accepted state is on disk. */
  ghost predicate StartedUp(n: NodeState, n': NodeState)
  {
    var a, w := n.chain.accepted, n'.retention.writer;
    && NodeStartsUp(n) && n'.cfg == n.cfg
    && n'.chain == n.chain && n'.recorded == n.recorded
    && n'.mode == Running([], Idle, a, false)
    && w.window == [] && w.tries.disk == n.Disk() + {a.root} && n'.retention == Retention(w, {}, w.tries.dirty)
    && Warmed(n.chain, n'.puts)
    && Reindexed(n.chain.blocks, a, n.tip, n.indexed, n'.tip, n'.indexed)
  }

  /** A tip at or below the last accepted block is brought up to it, with the indices of exactly
      the blocks above the old tip, in order; any other is left alone. */
  ghost predicate Reindexed(store: Store, a: Block, tip: Option<Block>, indexed: seq<Block>, tip': Option<Block>, indexed': seq<Block>) {
    if tip.Some? && tip.value.number <= a.number
    then tip' == Some(a) && Continues(store, a, tip.value.number, a.number, indexed, indexed')
    else tip' == tip && indexed' == indexed
  }

  /** A start-up is a search, the indexing steps and the final commit. */
  lemma StartedUpLeads(n: NodeState, n': NodeState)
    requires n.mode.Recovering? && n.mode.found.None? && n.retention == Blank(n.Disk())
    requires n.tip.Some? && n.tip.value.number <= n.chain.accepted.number ==> Descends(n.chain.blocks, n.chain.accepted, n.tip.value)
    requires StartedUp(n, n')
    ensures Leads(n, n')
  {
    assert IsPathOf([n], n, n);
    var m := n.(mode := n.mode.(found := Found(n, Reexec(n.cfg))));
    LeadsStep(n, n, RecoverSearch, m);
    if n.tip.Some? && n.tip.value.number <= n.chain.accepted.number {
      m := IndexLeads(n, m, n'.indexed, n.chain.accepted.number);
      assert n'.indexed[..|n'.indexed|] == n'.indexed;
    }
    LeadsStep(n, m, RecoverDone, n');
  }

  /** A clean shutdown leaves nothing to re-execute: if nothing was accepted after the queue was
      closed and every accept was recorded, the next start finds the state at once. */
  lemma CleanShutdown(cfgs: set<Config>, n: NodeState, n1: NodeState, n2: NodeState)
    requires Reachable(cfgs, n) && ShutdownStep(n, n1) && CrashStep(n1, n2)
    requires n.mode.processed == n.chain.accepted == n.recorded && !TipAhead(n)
    ensures Found(n2, 0) == Some(n.chain.accepted)
  {
    ReachableInv(cfgs, n);
    ShutdownKeeps(n, n1);
  }

  // ------------------------------------------- available states, queue and cache

  /** While the node runs, the last accepted block's state is always available, so accept can
      always re-execute a block on it; and so is the state of every pending block, so a
      block inserted in this session never has to be. */
  lemma StatesAvailable(cfgs: set<Config>, n: NodeState)
    requires Reachable(cfgs, n) && n.mode.Running?
    ensures n.retention.writer.tries.Has(n.chain.accepted.root)
    ensures forall b :: b in n.retention.pending ==> n.retention.writer.tries.Has(b.root)
  {
    ReachableInv(cfgs, n);
    NothingReleased(n.retention, n.cfg.stateHistory);
    var a := n.chain.accepted;
    if n.mode.processed.number < a.number {
      assert Ancestor(n.chain.blocks, a, a.number) == Some(a);
    }
  }

  /** While the queue is open it holds, with the block in the acceptor's hands, exactly
      the accepted blocks not yet processed, in order. */
  lemma QueueIsTheGap(cfgs: set<Config>, n: NodeState, k: nat)
    requires Reachable(cfgs, n) && n.mode.Running? && !n.mode.closed
    requires n.mode.processed.number < k <= n.chain.accepted.number
    ensures |Waiting(n.mode)| == n.chain.accepted.number - n.mode.processed.number <= n.cfg.queueLimit + 1
    ensures CanonicalHash(n.chain.index, k) == Some(Waiting(n.mode)[k - n.mode.processed.number - 1].hash)
  {
    ReachableInv(cfgs, n);
    var i := k - n.mode.processed.number - 1;
    assert Ancestor(n.chain.blocks, n.chain.accepted, n.mode.processed.number + 1 + i) == Some(Waiting(n.mode)[i]);
    F.AcceptedIsCanonical(n.chain, Waiting(n.mode)[i]);
  }

  function PlainHeaderByNumber(c: F.ChainState, k: nat): Option<Block> {
    match CanonicalHash(c.index, k)
    case None => None
    case Some(h) => GetBlock(c.blocks, h, k)
  }

  function HeaderByNumber(c: F.ChainState, cache: map<nat, Block>, k: nat): Option<Block> {
    if k in cache then Some(cache[k]) else PlainHeaderByNumber(c, k)
  }

  /** The accepted-header cache is transparent: with or without it a height has the same
      header. */
  lemma CacheIsTransparent(cfgs: set<Config>, n: NodeState, k: nat)
    requires Reachable(cfgs, n)
    ensures HeaderByNumber(n.chain, CacheAfter(n.puts, n.cfg.cacheSize), k) == PlainHeaderByNumber(n.chain, k)
  {
    ReachableInv(cfgs, n);
    var cache := CacheAfter(n.puts, n.cfg.cacheSize);
    if k in cache {
      CacheSound(n.puts, n.cfg.cacheSize, k);
      var i :| 0 <= i < |n.puts| && n.puts[i] == (k, cache[k]);
      F.AcceptedIsCanonical(n.chain, cache[k]);
      AncestorStored(n.chain.blocks, n.chain.accepted, k);
    }
  }

  /** The cache holds exactly the last `cacheSize` processed headers. */
  lemma CacheIsRecent(cfgs: set<Config>, n: NodeState)
    requires n.cfg.cacheSize > 0 && Reachable(cfgs, n)
    ensures CacheAfter(n.puts, n.cfg.cacheSize) == Recent(n.puts, n.cfg.cacheSize)
  {
    ReachableInv(cfgs, n);
    NoClashAgrees(n.puts, n.cfg.cacheSize);
    assert n.puts[..|n.puts|] == n.puts;
  }
}
