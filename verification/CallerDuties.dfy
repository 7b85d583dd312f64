/** What becomes of a node whose callers do not see to what `MayAccept` asks for: two runs
    that end with a node no restart brings up again. */
module CallerDuties {
  import opened Outcomes
  import opened Chain
  import F = Finality
  import opened TrieDatabase
  import opened TrieWriter
  import opened StateSearch
  import opened N = Node
  import opened Recovery

  /** A second child of the base. */
  function Rival(): Block { Block(3, 1, 1, 2) }

  // ------------------------------------------ accepting a block that was deleted

  /** Accepting a block that is not stored leaves the node with a head that cannot be loaded:
      the invariant is lost, and no restart is possible, before or after the VM has recorded
      the block. */
  lemma UnstoredAcceptNeverRestarts(cfgs: set<Config>, n: NodeState, b: Block, n1: NodeState, n2: NodeState, n3: NodeState)
    requires Reachable(cfgs, n) && !Stored(n.chain.blocks, b) && AcceptEffect(n, b, n1)
    requires n2 == n1 || RecordStep(n1, n2)
    ensures n2.chain.head == b && !NodeInv(n1) && !CrashStep(n2, n3)
  {
    ReachableInv(cfgs, n);
    AcceptKeepsIff(n, b, n1);
    if CanonicalHash(n.chain.index, b.number) == Some(b.hash) {
      AncestorStored(n.chain.blocks, n.chain.head, b.number);
    }
  }

  /** The chain with both children of the base, the first one canonical. */
  function ForkedChain(): F.ChainState {
    StraightChain(1, 0).(blocks := StraightStore(1)[3 := Rival()])
  }

  lemma ForkInserted()
    ensures F.Inserted(StraightChain(1, 0), Rival(), ForkedChain())
    ensures F.Deleted(ForkedChain(), Rival()) == StraightChain(1, 0)
    ensures F.OffPath(ForkedChain(), Rival())
  {
    var c := ForkedChain();
    assert StraightStore(1)[3 := Rival()] - {3} == StraightStore(1);
    assert Ancestor(c.blocks, c.head, 1) == Some(c.head);
  }

  /** A child of the last accepted block that is not canonical is inserted and rejected, though
      it conflicts with nothing accepted. */
  lemma ExampleRejectedChild(cfgs: set<Config>, cfg: Config) returns (n: NodeState)
    requires cfg in cfgs
    ensures Reachable(cfgs, n) && n.cfg == cfg && n.chain == StraightChain(1, 0)
    ensures n.mode == Running([], Idle, Straight(0), false)
  {
    var b := Rival();
    var m := ExampleInserted(cfgs, cfg, 1);
    var m1 := m.(chain := ForkedChain(), retention := Booked(m, TrieWriter.Inserts(b, {})));
    ForkInserted();
    assert b !in m.retention.pending by {
      ReachableInv(cfgs, m);
      assert !Stored(m.chain.blocks, b);
    }
    ReachStep(cfgs, m, ChainInsert(b, {}), m1);
    n := m1.(chain := StraightChain(1, 0), retention := Booked(m1, TrieWriter.Rejects(b)));
    assert b in m1.retention.pending;
    ReachStep(cfgs, m1, ChainReject(b), n);
  }

  /** So whatever the configuration, a node can get there: a block is inserted, rejected and
      then accepted, and the node never starts again. */
  lemma ExampleAcceptsRejected(cfgs: set<Config>, cfg: Config) returns (n: NodeState, n': NodeState)
    requires cfg in cfgs
    ensures Reachable(cfgs, n) && n.cfg == cfg && !Stored(n.chain.blocks, Rival()) && AcceptEffect(n, Rival(), n')
    ensures forall m :: !CrashStep(n', m)
  {
    var b := Rival();
    n := ExampleRejectedChild(cfgs, cfg);
    var c := n.chain;
    var c' := c.(head := b, accepted := b, index := c.index[1 := b.hash]);
    RivalIndexed();
    n' := n.(chain := c', mode := n.mode.(phase := Taken(b)), retention := Booked(n, TrieWriter.Finalizes(b)));
    forall m ensures !CrashStep(n', m) {
      UnstoredAcceptNeverRestarts(cfgs, n, b, n', n', m);
    }
  }

  lemma RivalIndexed()
    ensures Indexes(StraightIndex(1)[1 := 3], StraightStore(1), 0, Rival())
    ensures Ancestor(StraightStore(1), Rival(), 0) == Some(Straight(0))
  {
    var index, store := StraightIndex(1)[1 := 3], StraightStore(1);
    assert Parent(store, Rival()) == Some(Straight(0));
    forall i: nat ensures CanonicalHash(index, i) == HashOf(Ancestor(store, Rival(), i)) {
    }
  }

  // ---------------------------------- accepting a sibling of the acceptor tip's block

  /** Down, and the acceptor tip names a block that is not there. */
  ghost predicate Lost(n: NodeState) {
    n.mode.Recovering? && n.mode.found.None? && n.tip.Some? && n.tip.value.hash !in n.chain.blocks
  }

  /** With the tip's block gone a restart fails. */
  lemma LostDoesNotStart(n: NodeState, n': NodeState)
    requires n.tip.Some? && n.tip.value.hash !in n.chain.blocks && CrashStep(n, n')
    ensures Lost(n') && !NodeStartsUp(n')
  {
  }

  /** And so does every later one: all a lost node can do is go down again. */
  lemma {:induction false} LostStaysLost(cfgs: set<Config>, run: seq<NodeState>, i: nat)
    requires i < |run| && Lost(run[0]) && forall j :: 0 < j < |run| ==> StepAt(cfgs, run, j)
    ensures Lost(run[i]) && !NodeStartsUp(run[i])
  {
    if i > 0 {
      LostStaysLost(cfgs, run, i - 1);
      assert StepAt(cfgs, run, i);
      var ev :| N.Step(run[i - 1], ev, run[i]);
      assert ev.Crash?;
    }
  }

  /** Where accepting a sibling of the tip's block leads: that block now conflicts with the last
      accepted one, and once it is rejected, a crash before the acceptor has written the tip
      of the sibling leaves a lost node. */
  lemma SiblingLosesTip(n: NodeState, b: Block, n1: NodeState, n2: NodeState, n3: NodeState)
    requires NodeInv(n) && TipAhead(n) && b != n.tip.value
    requires AcceptEffect(n, b, n1) && RejectEffect(n1, n.tip.value, n2) && CrashStep(n2, n3)
    ensures F.Conflicts(n1.chain, n.tip.value)
    ensures Lost(n3)
  {
    LostDoesNotStart(n2, n3);
  }

  /** A running node with the tip ahead: the accept of a block is lost after its indices were
      written, and recovery finds the state of the block below. */
  lemma ExampleTipAhead(cfgs: set<Config>, cfg: Config) returns (n: NodeState)
    requires cfg in cfgs
    ensures Reachable(cfgs, n) && n.cfg == cfg && TipAhead(n) && n.tip == Some(Straight(1))
    ensures n.chain == StraightChain(0, 0).(blocks := StraightStore(1)) && n.recorded == Straight(0)
    ensures n.mode == Running([], Idle, Straight(0), false) && n.retention == Blank({0})
  {
    var m := ExampleUnrecorded(cfgs, cfg, 1);
    var m1 := ExampleUnaccepted(cfgs, m, 1, cfg);
    n := ExampleComesUp(cfgs, m1);
  }

  lemma ExampleComesUp(cfgs: set<Config>, m: NodeState) returns (n: NodeState)
    requires Reachable(cfgs, m) && m.mode.Recovering? && m.mode.found.None? && m.puts == []
    requires m.chain == StraightChain(0, 0).(blocks := StraightStore(1)) && m.tip == Some(Straight(1))
    requires m.retention == Blank({0})
    ensures Reachable(cfgs, n) && n == m.(mode := Running([], Idle, Straight(0), false))
  {
    StraightWalk(1, 1, Reexec(m.cfg));
    var m1 := m.(mode := m.mode.(found := Some(Straight(0))));
    ReachStep(cfgs, m, RecoverSearch, m1);
    n := m1.(mode := Running([], Idle, Straight(0), false));
    assert {0} + {0} == {0};
    ReachStep(cfgs, m1, RecoverDone, n);
  }

  lemma ExampleSiblingInserted(cfgs: set<Config>, cfg: Config) returns (n: NodeState)
    requires cfg in cfgs
    ensures Reachable(cfgs, n) && n.cfg == cfg && TipAhead(n) && n.tip == Some(Straight(1)) && n.recorded == Straight(0)
    ensures n.chain == F.ChainState(Straight(0), StraightStore(1)[3 := Rival()], StraightIndex(0)[1 := 3], Rival(), Straight(0))
    ensures n.mode == Running([], Idle, Straight(0), false)
  {
    var b := Rival();
    var m := ExampleTipAhead(cfgs, cfg);
    var c' := F.ChainState(Straight(0), StraightStore(1)[3 := b], StraightIndex(0)[1 := 3], b, Straight(0));
    n := m.(chain := c', retention := Booked(m, TrieWriter.Inserts(b, {})));
    ReachStep(cfgs, m, ChainInsert(b, {}), n);
  }

  /** So whatever the configuration, a node can get there. */
  lemma ExampleLost(cfgs: set<Config>, cfg: Config) returns (n: NodeState, n1: NodeState, n2: NodeState, n3: NodeState)
    requires cfg in cfgs
    ensures Reachable(cfgs, n) && n.cfg == cfg && TipAhead(n)
    ensures AcceptEffect(n, Rival(), n1) && RejectEffect(n1, n.tip.value, n2) && CrashStep(n2, n3) && Lost(n3)
  {
    var b, t := Rival(), Straight(1);
    n := ExampleSiblingInserted(cfgs, cfg);
    n1 := n.(chain := n.chain.(accepted := b), mode := n.mode.(phase := Taken(b)), retention := Booked(n, TrieWriter.Finalizes(b)));
    n2 := n1.(chain := F.Deleted(n1.chain, t), retention := Booked(n1, TrieWriter.Rejects(t)));
    var c' := n2.chain.(head := Straight(0), accepted := Straight(0), index := StraightIndex(0));
    BaseRestarts(n2.chain, c');
    n3 := n2.(chain := c', mode := Down(cfg, n2.mode, n2.recorded), puts := [], retention := Blank(n2.Disk()));
    LostDoesNotStart(n2, n3);
  }

  lemma BaseRestarts(c: F.ChainState, c': F.ChainState)
    requires c == F.ChainState(Straight(0), StraightStore(1)[3 := Rival()] - {2}, StraightIndex(0)[1 := 3], Rival(), Rival())
    requires c' == c.(head := Straight(0), accepted := Straight(0), index := StraightIndex(0))
    ensures F.Restarted(c, Straight(0), c')
  {
    assert Parent(c.blocks, Rival()) == Some(Straight(0));
    assert Ancestor(c.blocks, Rival(), 0) == Some(Straight(0));
    forall i: nat ensures CanonicalHash(c'.index, i) == HashOf(Ancestor(c.blocks, Straight(0), i)) {
    }
  }
}
