/** The canonical chain as a state machine: what every insert, preference change,
    accept and reject does to the block store, the height index, the head and
    the last accepted block, and what no run of them can undo. */
module Finality {
  import opened Outcomes
  import opened Chain

  /** `base` is the genesis block, or the block a state sync started from. */
  datatype ChainState = ChainState(base: Block, blocks: Store, index: Index, head: Block, accepted: Block)

  ghost predicate Inv(s: ChainState) {
    && WellKeyed(s.blocks) && Numbered(s.blocks)
    && Stored(s.blocks, s.base) && Stored(s.blocks, s.head) && Stored(s.blocks, s.accepted)
    && Descends(s.blocks, s.head, s.accepted)
    && Descends(s.blocks, s.accepted, s.base)
    && Indexes(s.index, s.blocks, s.base.number, s.head)
  }

  /** Neither an ancestor nor a descendant of the last accepted block (nor that block). */
  predicate Conflicts(s: ChainState, b: Block) {
    !Descends(s.blocks, b, s.accepted) && !Descends(s.blocks, s.accepted, b)
  }

  /** Not between the head and the base. */
  predicate OffPath(s: ChainState, b: Block) {
    !(Descends(s.blocks, s.head, b) && s.base.number <= b.number)
  }

  // ------------------------------------------------------------------- the steps

  datatype Event =
    | Insert(b: Block)
    | Prefer(b: Block)
    | Accept(b: Block)
    | Reject(b: Block)

  ghost predicate SameBelow(i: Index, j: Index, base: nat) {
    forall n: nat :: n < base ==> CanonicalHash(i, n) == CanonicalHash(j, n)
  }

  /** A block's hash fixes the block and, through it, the number of its children. */
  ghost predicate HashFixes(store: Store, b: Block) {
    && (b.hash in store ==> store[b.hash] == b)
    && b.parent != b.hash
    && forall h :: h in store && store[h].parent == b.hash ==> store[h].number == b.number + 1
  }

  ghost predicate Inserted(s: ChainState, b: Block, s': ChainState) {
    && HashFixes(s.blocks, b)
    && Parent(s.blocks, b).Some?
    && s'.base == s.base && s'.accepted == s.accepted
    && s'.blocks == s.blocks[b.hash := b]
    && if b.parent == s.head.hash
       then s'.head == b && s'.index == s.index[b.number := b.hash]
       else s'.head == s.head && s'.index == s.index
  }

  /** The head and the index move to `b`, whether or not it is stored. */
  ghost predicate Moved(s: ChainState, b: Block, s': ChainState) {
    && Descends(s.blocks, b, s.accepted)
    && s' == s.(head := b, index := s'.index)
    && Indexes(s'.index, s.blocks, s.base.number, b)
    && SameBelow(s.index, s'.index, s.base.number)
  }

  ghost predicate Preferred(s: ChainState, b: Block, s': ChainState) {
    Stored(s.blocks, b) && Moved(s, b, s')
  }

  /** No other block is stored under the hash of `b`. */
  predicate Names(store: Store, b: Block) {
    b.hash in store ==> store[b.hash] == b
  }

  /** And its number is one above its stored parent's, as the hash of a header fixes both. */
  predicate Fits(store: Store, b: Block) {
    Names(store, b) && (b.parent in store ==> b.number == store[b.parent].number + 1)
  }

  /** What accepting does to the chain: a block already canonical keeps the head where it is;
      any other becomes the head. Nothing asks whether the block is stored. */
  ghost predicate AcceptedAs(s: ChainState, b: Block, s': ChainState) {
    && Names(s.blocks, b) && Parent(s.blocks, b) == Some(s.accepted)
    && s'.accepted == b
    && if CanonicalHash(s.index, b.number) == Some(b.hash)
       then s' == s.(accepted := b)
       else Moved(s, b, s'.(accepted := s.accepted))
  }

  ghost predicate Accepted(s: ChainState, b: Block, s': ChainState) {
    Stored(s.blocks, b) && AcceptedAs(s, b, s')
  }

  function Deleted(s: ChainState, b: Block): ChainState {
    s.(blocks := s.blocks - {b.hash})
  }

  ghost predicate Rejected(s: ChainState, b: Block, s': ChainState) {
    Names(s.blocks, b) && OffPath(s, b) && s' == Deleted(s, b)
  }

  /** A start-up from a recorded ancestor `r` of the last accepted block: `r` becomes the head
      and the last accepted block, and the index is cut back to it. */
  ghost predicate Restarted(s: ChainState, r: Block, s': ChainState) {
    && Descends(s.blocks, s.accepted, r) && s.base.number <= r.number
    && s' == s.(head := r, accepted := r, index := s'.index)
    && Indexes(s'.index, s.blocks, s.base.number, r)
    && SameBelow(s.index, s'.index, s.base.number)
  }

  ghost predicate Step(s: ChainState, ev: Event, s': ChainState) {
    match ev
    case Insert(b) => Inserted(s, b, s')
    case Prefer(b) => Preferred(s, b, s')
    case Accept(b) => Accepted(s, b, s')
    case Reject(b) => Rejected(s, b, s')
  }

  // -------------------------------------------------- what one step keeps

  lemma BaseBelow(s: ChainState)
    requires Inv(s)
    ensures Descends(s.blocks, s.head, s.base)
    ensures s.base.number <= s.accepted.number <= s.head.number
  {
    DescendsTransitive(s.blocks, s.head, s.accepted, s.base);
  }

  /** The index at a height from the base to the head is a stored block of that height. */
  lemma CanonicalIsAncestor(s: ChainState, n: nat)
    requires Inv(s) && s.base.number <= n <= s.head.number
    ensures Ancestor(s.blocks, s.head, n).Some?
    ensures Stored(s.blocks, Ancestor(s.blocks, s.head, n).value)
    ensures CanonicalHash(s.index, n) == Some(Ancestor(s.blocks, s.head, n).value.hash)
  {
    BaseBelow(s);
    AncestorBetween(s.blocks, s.head, n, s.base.number);
    AncestorStored(s.blocks, s.head, n);
  }

  /** Everything up to the last accepted block is canonical. */
  lemma AcceptedIsCanonical(s: ChainState, x: Block)
    requires Inv(s) && Descends(s.blocks, s.accepted, x) && s.base.number <= x.number
    ensures Descends(s.blocks, s.head, x)
    ensures CanonicalHash(s.index, x.number) == Some(x.hash)
  {
    DescendsTransitive(s.blocks, s.head, s.accepted, x);
  }

  lemma InsertKeepsInv(s: ChainState, b: Block, s': ChainState)
    requires Inv(s) && Inserted(s, b, s')
    ensures Inv(s')
  {
    BaseBelow(s);
    forall x: Block, n: nat | Ancestor(s.blocks, x, n).Some?
      ensures Ancestor(s'.blocks, x, n) == Ancestor(s.blocks, x, n)
    {
      AncestorGrows(s.blocks, s'.blocks, x, n);
    }
    assert b.parent == s.head.hash ==> Parent(s'.blocks, b) == Some(s.head);
    forall n: nat | n >= s.base.number
      ensures CanonicalHash(s'.index, n) == HashOf(Ancestor(s'.blocks, s'.head, n))
    {
      assert CanonicalHash(s.index, n) == HashOf(Ancestor(s.blocks, s.head, n));
      if n <= s.head.number {
        CanonicalIsAncestor(s, n);
      }
    }
  }

  /** Accept moves the preference onto the accepted branch, so a block that conflicts with the
      last accepted one is not between the head and the base. */
  lemma ConflictIsOffPath(s: ChainState, b: Block)
    requires Inv(s) && Stored(s.blocks, b) && Conflicts(s, b)
    ensures OffPath(s, b)
  {
    if !OffPath(s, b) {
      if b.number <= s.accepted.number {
        DescendsComparable(s.blocks, s.head, s.accepted, b);
      } else {
        DescendsComparable(s.blocks, s.head, b, s.accepted);
      }
    }
  }

  lemma RejectMissesPath(s: ChainState, b: Block, x: Block, n: nat)
    requires Inv(s) && OffPath(s, b)
    requires x == s.head || x == s.accepted
    requires s.base.number <= n <= x.number
    ensures Ancestor(s.blocks, x, n).Some? && Ancestor(s.blocks, x, n).value != b
  {
    BaseBelow(s);
    CanonicalIsAncestor(s, n);
    if x == s.accepted { AncestorCompose(s.blocks, s.head, x.number, n); }
  }

  /** Rejecting a conflicting block never deletes a canonical one. */
  lemma RejectNeverCanonical(s: ChainState, b: Block, n: nat)
    requires Inv(s) && Stored(s.blocks, b) && Conflicts(s, b) && n >= s.base.number
    ensures CanonicalHash(s.index, n) != Some(b.hash)
  {
    ConflictIsOffPath(s, b);
    if n <= s.head.number {
      CanonicalIsAncestor(s, n);
      RejectMissesPath(s, b, s.head, n);
    }
  }

  lemma RejectKeepsPath(s: ChainState, b: Block, s': ChainState, x: Block, n: nat)
    requires Inv(s) && Rejected(s, b, s')
    requires x == s.head || x == s.accepted
    requires s.base.number <= n <= x.number
    ensures Ancestor(s'.blocks, x, n) == Ancestor(s.blocks, x, n)
    ensures Ancestor(s.blocks, x, n).Some?
  {
    RejectMissesPath(s, b, x, n);
    forall m: nat | n <= m < x.number && Ancestor(s.blocks, x, m).Some?
      ensures Ancestor(s.blocks, x, m).value.hash != b.hash
    {
      RejectMissesPath(s, b, x, m);
      AncestorStored(s.blocks, x, m);
    }
    AncestorSurvives(s.blocks, b.hash, x, n);
  }

  lemma RejectKeepsInv(s: ChainState, b: Block, s': ChainState)
    requires Inv(s) && Rejected(s, b, s')
    ensures Inv(s')
  {
    BaseBelow(s);
    forall x: Block, n: nat | (x == s.head || x == s.accepted) && s.base.number <= n <= x.number
      ensures Ancestor(s'.blocks, x, n) == Ancestor(s.blocks, x, n)
    {
      RejectKeepsPath(s, b, s', x, n);
    }
    RejectMissesPath(s, b, s.head, s.head.number);
    RejectMissesPath(s, b, s.accepted, s.accepted.number);
    RejectMissesPath(s, b, s.accepted, s.base.number);
  }

  /** Exactly which deletions the chain survives: those of blocks that are not between the head
      and the base. */
  lemma DeleteKeepsInvIff(s: ChainState, b: Block)
    requires Inv(s) && Names(s.blocks, b)
    ensures Inv(Deleted(s, b)) <==> OffPath(s, b)
  {
    if OffPath(s, b) {
      RejectKeepsInv(s, b, Deleted(s, b));
    } else {
      assert CanonicalHash(s.index, b.number) == Some(b.hash);
      if Inv(Deleted(s, b)) {
        CanonicalIsAncestor(Deleted(s, b), b.number);
      }
    }
  }

  lemma AcceptKeepsInv(s: ChainState, b: Block, s': ChainState)
    requires Inv(s) && Accepted(s, b, s')
    ensures Inv(s')
    ensures Descends(s.blocks, b, s.accepted)
  {
    BaseBelow(s);
    DescendsTransitive(s.blocks, b, s.accepted, s.base);
    if CanonicalHash(s.index, b.number) == Some(b.hash) {
      CanonicalIsAncestor(s, b.number);
    }
  }

  /** Exactly which accepts the chain survives: those of stored blocks. */
  lemma AcceptKeepsInvIff(s: ChainState, b: Block, s': ChainState)
    requires Inv(s) && AcceptedAs(s, b, s')
    ensures Inv(s') <==> Stored(s.blocks, b)
    ensures s'.blocks == s.blocks
  {
    if Stored(s.blocks, b) {
      AcceptKeepsInv(s, b, s');
    }
  }

  /** A start-up keeps the invariant, and it undoes the accepts above `r`, exactly those. */
  lemma RestartKeepsInv(s: ChainState, r: Block, s': ChainState, x: Block)
    requires Inv(s) && Restarted(s, r, s')
    requires Descends(s.blocks, s.accepted, x) && s.base.number <= x.number
    ensures Inv(s')
    ensures x.number <= r.number <==> CanonicalHash(s'.index, x.number) == Some(x.hash)
    ensures x.number <= r.number <==> Descends(s'.blocks, s'.accepted, x)
  {
    AncestorStored(s.blocks, s.accepted, r.number);
    DescendsComparable(s.blocks, s.accepted, r, s.base);
    if x.number <= r.number {
      DescendsComparable(s.blocks, s.accepted, r, x);
    }
  }

  lemma StepKeepsInv(s: ChainState, ev: Event, s': ChainState)
    requires Inv(s) && Step(s, ev, s')
    ensures Inv(s')
  {
    match ev
    case Insert(b) => InsertKeepsInv(s, b, s');
    case Prefer(b) =>
    case Accept(b) => AcceptKeepsInv(s, b, s');
    case Reject(b) => RejectKeepsInv(s, b, s');
  }

  /** One step never drops a block from the accepted chain. */
  lemma StepKeepsAccepted(s: ChainState, ev: Event, s': ChainState, x: Block)
    requires Inv(s) && Step(s, ev, s')
    requires Descends(s.blocks, s.accepted, x) && s.base.number <= x.number
    ensures Descends(s'.blocks, s'.accepted, x)
  {
    match ev
    case Insert(b) => AncestorGrows(s.blocks, s'.blocks, s.accepted, x.number);
    case Prefer(b) =>
    case Accept(b) =>
      AcceptKeepsInv(s, b, s');
      DescendsTransitive(s.blocks, b, s.accepted, x);
    case Reject(b) => RejectKeepsPath(s, b, s', s.accepted, x.number);
  }

  /** The last accepted block stays, or moves to one of its own children. */
  lemma StepAcceptsChild(s: ChainState, ev: Event, s': ChainState)
    requires Inv(s) && Step(s, ev, s')
    ensures s'.base == s.base
    ensures s'.accepted == s.accepted
         || Parent(s'.blocks, s'.accepted) == Some(s.accepted)
  {
  }

  // ------------------------------------------------------------ whole runs

  ghost predicate Next(s: ChainState, s': ChainState) {
    s' == s || exists ev :: Step(s, ev, s')
  }

  ghost predicate StepAt(run: seq<ChainState>, i: int) {
    0 < i < |run| && Next(run[i - 1], run[i])
  }

  ghost predicate IsRun(run: seq<ChainState>) {
    |run| > 0 && Inv(run[0]) && forall i :: 0 < i < |run| ==> StepAt(run, i)
  }

  lemma NextKeeps(s: ChainState, s': ChainState)
    requires Inv(s) && Next(s, s')
    ensures Inv(s') && s'.base == s.base
    ensures s'.accepted == s.accepted || Parent(s'.blocks, s'.accepted) == Some(s.accepted)
  {
    if s' != s {
      var ev :| Step(s, ev, s');
      StepKeepsInv(s, ev, s');
      StepAcceptsChild(s, ev, s');
    }
  }

  lemma NextKeepsAccepted(s: ChainState, s': ChainState, x: Block)
    requires Inv(s) && Next(s, s')
    requires Descends(s.blocks, s.accepted, x) && s.base.number <= x.number
    ensures Descends(s'.blocks, s'.accepted, x)
  {
    if s' != s {
      var ev :| Step(s, ev, s');
      StepKeepsAccepted(s, ev, s', x);
    }
  }

  lemma {:induction false} RunKeepsInv(run: seq<ChainState>, i: nat)
    requires IsRun(run) && i < |run|
    ensures Inv(run[i]) && run[i].base == run[0].base
  {
    if i > 0 {
      RunKeepsInv(run, i - 1);
      assert StepAt(run, i);
      NextKeeps(run[i - 1], run[i]);
    }
  }

  lemma {:induction false} RunKeepsAccepted(run: seq<ChainState>, i: nat, j: nat, x: Block)
    requires IsRun(run) && i <= j < |run|
    requires Descends(run[i].blocks, run[i].accepted, x) && run[i].base.number <= x.number
    ensures Descends(run[j].blocks, run[j].accepted, x)
    decreases j
  {
    if i < j {
      RunKeepsAccepted(run, i, j - 1, x);
      RunKeepsInv(run, i);
      RunKeepsInv(run, j - 1);
      assert StepAt(run, j);
      NextKeepsAccepted(run[j - 1], run[j], x);
    }
  }

  /** Finality: what was last accepted at any moment is, at every later moment, stored,
      canonical at its height, and the head or an ancestor of the head. */
  lemma AcceptedIsFinal(run: seq<ChainState>, i: nat, j: nat)
    requires IsRun(run) && i <= j < |run|
    ensures var b := run[i].accepted;
            && Stored(run[j].blocks, b)
            && CanonicalHash(run[j].index, b.number) == Some(b.hash)
            && Descends(run[j].blocks, run[j].head, b)
            && Descends(run[j].blocks, run[j].accepted, b)
  {
    var b := run[i].accepted;
    RunKeepsInv(run, i);
    RunKeepsInv(run, j);
    BaseBelow(run[i]);
    RunKeepsAccepted(run, i, j, b);
    AcceptedIsCanonical(run[j], b);
    AncestorStored(run[j].blocks, run[j].accepted, b.number);
  }

  /** The canonical chain between two accepted blocks of a run consists of exactly the
      blocks accepted in between: no height is skipped. */
  lemma {:induction false} NoGaps(run: seq<ChainState>, i: nat, j: nat, n: nat)
    requires IsRun(run) && i <= j < |run|
    requires run[i].accepted.number <= n <= run[j].accepted.number
    ensures exists k :: i <= k <= j && run[k].accepted.number == n
                     && CanonicalHash(run[j].index, n) == Some(run[k].accepted.hash)
    decreases j
  {
    RunKeepsInv(run, j);
    if n == run[j].accepted.number {
      AcceptedIsFinal(run, j, j);
      assert CanonicalHash(run[j].index, n) == Some(run[j].accepted.hash);
    } else {
      assert i < j;
      RunKeepsInv(run, j - 1);
      assert StepAt(run, j);
      NextKeeps(run[j - 1], run[j]);
      NoGaps(run, i, j - 1, n);
      var k :| i <= k <= j - 1 && run[k].accepted.number == n;
      AcceptedIsFinal(run, k, j);
    }
  }
}
