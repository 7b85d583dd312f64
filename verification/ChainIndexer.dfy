/** The sectioned chain index: equal runs of the canonical chain are processed in the
    background, with the lock released, while reorg notifications come in. */
module ChainIndexer {
  import opened Outcomes
  import C = Chain
  import F = Finality

  type Hash = C.Hash
  type Header = C.Block

  const ZERO: Hash := 0
  const MAX_UINT64: nat := 0xFFFF_FFFF_FFFF_FFFF

  /** Every header there ever is, by its hash; a hash determines its header. */
  type Headers = C.Store

  ghost predicate ValidHeaders(u: Headers) {
    ZERO !in u && C.WellKeyed(u)
  }

  /** The hash reached from `h` by `k` parent links. */
  function Back(u: Headers, h: Hash, k: nat): Option<Hash>
    decreases k
  {
    if k == 0 then Some(h) else if h in u then Back(u, u[h].parent, k - 1) else None
  }

  /** The canonical index at some moment: each entry is the parent of the next. */
  ghost predicate Linked(u: Headers, canon: map<nat, Hash>) {
    forall n: nat {:trigger LinkAt(u, canon, n)} :: n in canon && n > 0 ==> LinkAt(u, canon, n)
  }

  ghost predicate LinkAt(u: Headers, canon: map<nat, Hash>, n: nat) {
    n > 0 && n in canon && n - 1 in canon && canon[n] in u && u[canon[n]].parent == canon[n - 1]
  }

  /** The canonical index of a chain from genesis is linked at every moment. */
  lemma CanonicalIndexLinked(u: Headers, s: F.ChainState)
    requires F.Inv(s) && s.base.number == 0
    requires forall h :: h in s.blocks ==> h in u && u[h] == s.blocks[h]
    ensures Linked(u, s.index)
  {
    F.BaseBelow(s);
    forall n: nat | n in s.index && n > 0 ensures LinkAt(u, s.index, n) {
      assert C.CanonicalHash(s.index, n) == C.HashOf(C.Ancestor(s.blocks, s.head, n));
      F.CanonicalIsAncestor(s, n);
      F.CanonicalIsAncestor(s, n - 1);
      C.AncestorLinked(s.blocks, s.head, n - 1);
    }
  }

  function ReadCanonicalHash(canon: map<nat, Hash>, n: nat): Hash {
    if n in canon then canon[n] else ZERO
  }

  lemma {:induction false} BackIsCanonical(u: Headers, canon: map<nat, Hash>, n: nat, k: nat)
    requires Linked(u, canon) && n in canon && k <= n
    ensures n - k in canon && Back(u, canon[n], k) == Some(canon[n - k])
    decreases k
  {
    if k > 0 {
      assert LinkAt(u, canon, n);
      BackIsCanonical(u, canon, n - 1, k - 1);
    }
  }

  // ------------------------------------------------------------------- the state

  datatype Config = Config(sectionSize: nat, confirmsReq: nat, checkpointSections: nat, checkpointHead: Hash)

  datatype Index = Index(stored: nat, known: nat, cascaded: nat, heads: map<nat, Hash>)

  function HeadAt(heads: map<nat, Hash>, section: nat): Hash {
    if section in heads then heads[section] else ZERO
  }

  function SectionHead(s: Index, section: nat): Hash {
    HeadAt(s.heads, section)
  }

  /** Removes the heads of the sections from `sections` up to the old count. */
  function SetValidSections(s: Index, sections: nat): Index {
    s.(stored := sections, heads := map k | k in s.heads && !(sections <= k < s.stored) :: s.heads[k])
  }

  /** The number of blocks in so many sections: their product, written as a sum. */
  function Blocks(cfg: Config, sections: nat): nat {
    if sections == 0 then 0 else Blocks(cfg, sections - 1) + cfg.sectionSize
  }

  lemma {:induction false} BlocksIsProduct(cfg: Config, sections: nat)
    ensures Blocks(cfg, sections) == sections * cfg.sectionSize
  {
    if sections > 0 {
      BlocksIsProduct(cfg, sections - 1);
    }
  }

  /** The last block number of a section. */
  function End(cfg: Config, section: nat): nat
    requires cfg.sectionSize > 0
  {
    Blocks(cfg, section + 1) - 1
  }

  /** The last section, above the checkpoint, does not end at the canonical block. */
  predicate Stale(cfg: Config, s: Index, canon: map<nat, Hash>)
    requires cfg.sectionSize > 0
  {
    && s.stored > 0 && s.stored > cfg.checkpointSections
    && SectionHead(s, s.stored - 1) != ReadCanonicalHash(canon, End(cfg, s.stored - 1))
  }

  /** Drops sections from the top while their heads are not canonical. */
  function VerifyLastHead(cfg: Config, s: Index, canon: map<nat, Hash>): Index
    requires cfg.sectionSize > 0
    decreases s.stored
  {
    if Stale(cfg, s, canon) then VerifyLastHead(cfg, SetValidSections(s, s.stored - 1), canon) else s
  }

  function NewHead(cfg: Config, s: Index, head: nat, reorg: bool, canon: map<nat, Hash>): Index
    requires cfg.sectionSize > 0
  {
    if reorg then
      var sections := (head + 1) / cfg.sectionSize;
      var known := if sections < cfg.checkpointSections then 0 else sections;
      var stored := if sections < cfg.checkpointSections then cfg.checkpointSections else sections;
      var s1 := if known < s.known then s.(known := known) else s;
      var s2 := if stored < s1.stored then SetValidSections(s1, stored) else s1;
      if Blocks(cfg, known) < s2.cascaded then s2.(cascaded := Blocks(cfg, known)) else s2
    else if head < cfg.confirmsReq then s
    else
      var n := (head + 1 - cfg.confirmsReq) / cfg.sectionSize;
      var sections := if n < cfg.checkpointSections then 0 else n;
      if sections <= s.known then s
      else if s.known < cfg.checkpointSections
              && ReadCanonicalHash(canon, End(cfg, cfg.checkpointSections - 1)) != cfg.checkpointHead then s
      else s.(known := sections)
  }

  /** A reorg signalled at a greater height invalidates less: no stored or known section, and no
      section head, that a signal lower down leaves. */
  lemma ReorgSignalMonotone(cfg: Config, s: Index, low: nat, high: nat, canon: map<nat, Hash>)
    requires cfg.sectionSize > 0 && low <= high
    ensures var a, b := NewHead(cfg, s, low, true, canon), NewHead(cfg, s, high, true, canon);
            && a.stored <= b.stored <= s.stored && a.known <= b.known
            && forall k :: k in a.heads ==> k in b.heads && b.heads[k] == a.heads[k]
  {
    DivideMonotone(low + 1, high + 1, cfg.sectionSize);
  }

  lemma DivideMonotone(a: nat, b: nat, k: nat)
    requires k > 0 && a <= b
    ensures a / k <= b / k
  {
    var q, q' := a / k, b / k;
    assert q * k <= a && b < (q' + 1) * k;
    if q' < q { ProductMonotone(q' + 1, q, k); }
  }

  lemma ProductMonotone(a: nat, b: nat, k: nat)
    requires a <= b
    ensures a * k <= b * k
  {
  }

  /** A section being processed with the lock released. */
  datatype Job = Job(section: nat, oldHead: Hash)

  function StartJob(s: Index): Job {
    Job(s.stored, if s.stored > 0 then SectionHead(s, s.stored - 1) else ZERO)
  }

  /** The finished section is kept only if the section it was built on is still there. */
  function FinishJob(cfg: Config, s: Index, job: Job, result: Result<Hash, ()>, canon: map<nat, Hash>): Index
    requires cfg.sectionSize > 0
  {
    if result.Ok? && (job.section == 0 || job.oldHead == SectionHead(s, job.section - 1)) then
      var s1 := SetValidSections(s.(heads := s.heads[job.section := result.value]), job.section + 1);
      s1.(cascaded := End(cfg, job.section))
    else
      var s1 := VerifyLastHead(cfg, s, canon);
      s1.(known := s1.stored)
  }

  // ------------------------------------------------------------------- invariant

  /** The heads stored are exactly those from the last checkpointed section up, and each
      section above the checkpoint is one section's worth of parent links above the
      one before it (the first above no block at all). */
  ghost predicate Inv(u: Headers, cfg: Config, s: Index) {
    && cfg.sectionSize > 0 && ValidHeaders(u)
    && cfg.checkpointSections <= s.stored
    && (forall k: nat :: k in s.heads <==> cfg.checkpointSections <= k + 1 <= s.stored)
    && (forall k: nat :: k in s.heads ==> s.heads[k] != ZERO)
    && forall k: nat {:trigger LinkedSection(u, cfg, s.heads, k)} ::
         k in s.heads && cfg.checkpointSections <= k ==> LinkedSection(u, cfg, s.heads, k)
  }

  ghost predicate LinkedSection(u: Headers, cfg: Config, heads: map<nat, Hash>, k: nat) {
    k in heads && Back(u, heads[k], cfg.sectionSize) == Some(if k == 0 then ZERO else HeadAt(heads, k - 1))
  }

  ghost predicate JobInv(cfg: Config, s: Index, job: Option<Job>) {
    job.Some? ==>
      && s.stored <= job.value.section && cfg.checkpointSections <= job.value.section
      && (job.value.section == 0 <==> job.value.oldHead == ZERO)
  }

  /** What processing a section establishes about the head it returns. */
  ghost predicate JobResult(u: Headers, cfg: Config, job: Job, result: Result<Hash, ()>) {
    result.Ok? ==> result.value != ZERO && Back(u, result.value, cfg.sectionSize) == Some(job.oldHead)
  }

  lemma SetValidKeeps(u: Headers, cfg: Config, s: Index, sections: nat)
    requires Inv(u, cfg, s) && cfg.checkpointSections <= sections <= s.stored
    ensures Inv(u, cfg, SetValidSections(s, sections))
  {
    var s' := SetValidSections(s, sections);
    forall k: nat | k in s'.heads && cfg.checkpointSections <= k
      ensures LinkedSection(u, cfg, s'.heads, k)
    {
      assert LinkedSection(u, cfg, s.heads, k);
      assert k > 0 ==> k - 1 in s.heads;
    }
  }

  lemma {:induction false} VerifyKeeps(u: Headers, cfg: Config, s: Index, canon: map<nat, Hash>)
    requires Inv(u, cfg, s)
    ensures Inv(u, cfg, VerifyLastHead(cfg, s, canon))
    ensures VerifyLastHead(cfg, s, canon).stored <= s.stored
    ensures VerifyLastHead(cfg, s, canon).known == s.known
    decreases s.stored
  {
    if Stale(cfg, s, canon) {
      SetValidKeeps(u, cfg, s, s.stored - 1);
      VerifyKeeps(u, cfg, SetValidSections(s, s.stored - 1), canon);
    }
  }

  lemma NewHeadKeeps(u: Headers, cfg: Config, s: Index, head: nat, reorg: bool, canon: map<nat, Hash>)
    requires Inv(u, cfg, s)
    ensures Inv(u, cfg, NewHead(cfg, s, head, reorg, canon))
    ensures NewHead(cfg, s, head, reorg, canon).stored <= s.stored
  {
    if reorg {
      var sections := (head + 1) / cfg.sectionSize;
      var stored := if sections < cfg.checkpointSections then cfg.checkpointSections else sections;
      if stored < s.stored {
        SetValidKeeps(u, cfg, s, stored);
      }
    }
  }

  /** Re-checking the one section below is enough: whatever was reorganised while the
      section was processed, the stored heads stay linked. */
  lemma FinishKeeps(u: Headers, cfg: Config, s: Index, job: Job, result: Result<Hash, ()>, canon: map<nat, Hash>)
    requires Inv(u, cfg, s) && JobInv(cfg, s, Some(job)) && JobResult(u, cfg, job, result)
    ensures Inv(u, cfg, FinishJob(cfg, s, job, result, canon))
  {
    if result.Ok? && (job.section == 0 || job.oldHead == SectionHead(s, job.section - 1)) {
      assert s.stored == job.section by {
        if job.section > 0 { assert job.section - 1 in s.heads; }
      }
      var s' := FinishJob(cfg, s, job, result, canon);
      assert s'.heads == s.heads[job.section := result.value];
      forall k: nat | k in s'.heads && cfg.checkpointSections <= k
        ensures LinkedSection(u, cfg, s'.heads, k)
      {
        if k < job.section {
          assert LinkedSection(u, cfg, s.heads, k);
        }
      }
    } else {
      VerifyKeeps(u, cfg, s, canon);
    }
  }

  // ------------------------------------------------------------------- whole runs

  datatype Event =
    | Notify(head: nat, reorg: bool, canon: map<nat, Hash>)
    | Verify(canon: map<nat, Hash>)
    | Start(canon: map<nat, Hash>)
    | Finish(result: Result<Hash, ()>, canon: map<nat, Hash>)
    | ResetFails(canon: map<nat, Hash>)

  datatype World = World(index: Index, job: Option<Job>)

  /** Any notification or query may come between the start and the end of a section. If the
      backend cannot be reset all sections are dropped (a chain without checkpoint). */
  ghost predicate Step(u: Headers, cfg: Config, w: World, ev: Event, w': World)
    requires cfg.sectionSize > 0
  {
    match ev
    case Notify(head, reorg, canon) => w' == w.(index := NewHead(cfg, w.index, head, reorg, canon))
    case Verify(canon) => w' == w.(index := VerifyLastHead(cfg, w.index, canon))
    case Start(canon) =>
      && w.job.None? && w.index.known > w.index.stored
      && var s := VerifyLastHead(cfg, w.index, canon); w' == World(s, Some(StartJob(s)))
    case Finish(result, canon) =>
      && w.job.Some? && JobResult(u, cfg, w.job.value, result)
      && w' == World(FinishJob(cfg, w.index, w.job.value, result, canon), None)
    case ResetFails(canon) =>
      && w.job.Some? && cfg.checkpointSections == 0
      && w' == World(FinishJob(cfg, SetValidSections(w.index, 0), w.job.value, Err(()), canon), None)
  }

  ghost predicate WorldInv(u: Headers, cfg: Config, w: World) {
    Inv(u, cfg, w.index) && JobInv(cfg, w.index, w.job)
  }

  lemma StepKeeps(u: Headers, cfg: Config, w: World, ev: Event, w': World)
    requires WorldInv(u, cfg, w) && Step(u, cfg, w, ev, w')
    ensures WorldInv(u, cfg, w')
  {
    match ev
    case Notify(head, reorg, canon) => NewHeadKeeps(u, cfg, w.index, head, reorg, canon);
    case Verify(canon) => VerifyKeeps(u, cfg, w.index, canon);
    case Start(canon) =>
      VerifyKeeps(u, cfg, w.index, canon);
      var s := w'.index;
      if s.stored > 0 { assert s.stored - 1 in s.heads; }
    case Finish(result, canon) => FinishKeeps(u, cfg, w.index, w.job.value, result, canon);
    case ResetFails(canon) =>
      SetValidKeeps(u, cfg, w.index, 0);
      FinishKeeps(u, cfg, SetValidSections(w.index, 0), w.job.value, Err(()), canon);
  }

  ghost predicate Next(u: Headers, cfg: Config, w: World, w': World)
    requires cfg.sectionSize > 0
  {
    exists ev :: Step(u, cfg, w, ev, w')
  }

  ghost predicate StepAt(u: Headers, cfg: Config, run: seq<World>, i: int)
    requires cfg.sectionSize > 0
  {
    0 < i < |run| && Next(u, cfg, run[i - 1], run[i])
  }

  ghost predicate IsRun(u: Headers, cfg: Config, run: seq<World>)
    requires cfg.sectionSize > 0
  {
    |run| > 0 && WorldInv(u, cfg, run[0]) && forall i :: 0 < i < |run| ==> StepAt(u, cfg, run, i)
  }

  lemma {:induction false} RunKeeps(u: Headers, cfg: Config, run: seq<World>, i: nat)
    requires cfg.sectionSize > 0 && IsRun(u, cfg, run) && i < |run|
    ensures WorldInv(u, cfg, run[i])
  {
    if i > 0 {
      RunKeeps(u, cfg, run, i - 1);
      assert StepAt(u, cfg, run, i);
      var ev :| Step(u, cfg, run[i - 1], ev, run[i]);
      StepKeeps(u, cfg, run[i - 1], ev, run[i]);
    }
  }

  // ---------------------------------------------- checking the last section is enough

  lemma {:induction false} VerifyStops(cfg: Config, s: Index, canon: map<nat, Hash>)
    requires cfg.sectionSize > 0
    ensures var v := VerifyLastHead(cfg, s, canon);
            !Stale(cfg, v, canon)
    decreases s.stored
  {
    if Stale(cfg, s, canon) {
      VerifyStops(cfg, SetValidSections(s, s.stored - 1), canon);
    }
  }

  lemma {:induction false} CanonicalDownwards(u: Headers, cfg: Config, s: Index, canon: map<nat, Hash>, top: nat, k: nat)
    requires Inv(u, cfg, s) && Linked(u, canon)
    requires cfg.checkpointSections <= k + 1 && k <= top < s.stored
    requires End(cfg, top) in canon && s.heads[top] == canon[End(cfg, top)]
    ensures End(cfg, k) in canon && s.heads[k] == canon[End(cfg, k)]
    decreases top
  {
    if k < top {
      assert End(cfg, top) - cfg.sectionSize == End(cfg, top - 1);
      BackIsCanonical(u, canon, End(cfg, top), cfg.sectionSize);
      assert LinkedSection(u, cfg, s.heads, top);
      CanonicalDownwards(u, cfg, s, canon, top - 1, k);
    }
  }

  /** In every reachable state, after the last head has been verified against a hash-linked
      canonical index, every stored section above the checkpoint ends at the canonical
      block of its height. */
  lemma LastHeadSuffices(u: Headers, cfg: Config, run: seq<World>, i: nat, canon: map<nat, Hash>, k: nat)
    requires cfg.sectionSize > 0 && IsRun(u, cfg, run) && i < |run|
    requires Linked(u, canon)
    requires var v := VerifyLastHead(cfg, run[i].index, canon);
             cfg.checkpointSections <= k < v.stored
    ensures var v := VerifyLastHead(cfg, run[i].index, canon);
            End(cfg, k) in canon && SectionHead(v, k) == canon[End(cfg, k)]
  {
    RunKeeps(u, cfg, run, i);
    var v := VerifyLastHead(cfg, run[i].index, canon);
    VerifyKeeps(u, cfg, run[i].index, canon);
    VerifyStops(cfg, run[i].index, canon);
    assert v.stored - 1 in v.heads && k in v.heads;
    CanonicalDownwards(u, cfg, v, canon, v.stored - 1, k);
  }

  /** Nothing canonical is thrown away: a section that ends at a canonical block with
      everything below it stays. */
  lemma {:induction false} VerifyKeepsCanonical(u: Headers, cfg: Config, s: Index, canon: map<nat, Hash>, k: nat)
    requires Inv(u, cfg, s) && Linked(u, canon) && k in s.heads
    requires End(cfg, k) in canon && s.heads[k] == canon[End(cfg, k)]
    ensures k in VerifyLastHead(cfg, s, canon).heads
    decreases s.stored
  {
    if Stale(cfg, s, canon) {
      SetValidKeeps(u, cfg, s, s.stored - 1);
      VerifyKeepsCanonical(u, cfg, SetValidSections(s, s.stored - 1), canon, k);
    }
  }

  // ------------------------------------------------------------------- the indexer

  /** The hash the i-th header of a section has to point back to. */
  function Expected(job: Job, answers: seq<Option<Header>>, i: nat): Hash
    requires i <= |answers|
  {
    if i == 0 then job.oldHead else if answers[i - 1].Some? then answers[i - 1].value.hash else ZERO
  }

  ghost predicate Fits(job: Job, answers: seq<Option<Header>>, i: nat)
    requires i < |answers|
  {
    answers[i].Some? && answers[i].value.parent == Expected(job, answers, i)
  }

  class Indexer {
    const cfg: Config
    var storedSections: nat
    var knownSections: nat
    var cascadedHead: nat
    var sectionHeads: map<nat, Hash>

    ghost predicate Valid()
      reads this
    {
      cfg.sectionSize > 0
    }

    ghost function State(): Index
      reads this
    {
      Index(storedSections, knownSections, cascadedHead, sectionHeads)
    }

    constructor (cfg: Config, stored: nat, heads: map<nat, Hash>)
      requires cfg.sectionSize > 0
      ensures Valid() && this.cfg == cfg && State() == Index(stored, 0, 0, heads)
    {
      this.cfg := cfg;
      storedSections, knownSections, cascadedHead, sectionHeads := stored, 0, 0, heads;
    }

    method SetValid(sections: nat)
      modifies this`storedSections, this`sectionHeads
      ensures State() == SetValidSections(old(State()), sections)
    {
      ghost var before := State();
      while storedSections > sections
        invariant storedSections <= before.stored && (storedSections >= sections || storedSections == before.stored)
        invariant sectionHeads == map k | k in before.heads && !(storedSections <= k < before.stored) :: before.heads[k]
      {
        storedSections := storedSections - 1;
        sectionHeads := sectionHeads - {storedSections};
      }
      storedSections := sections;
    }

    method Verify(canon: map<nat, Hash>)
      requires Valid()
      modifies this`storedSections, this`sectionHeads
      ensures State() == VerifyLastHead(cfg, old(State()), canon)
    {
      while storedSections > 0 && storedSections > cfg.checkpointSections
        invariant VerifyLastHead(cfg, State(), canon) == VerifyLastHead(cfg, old(State()), canon)
        decreases storedSections
      {
        var head := if storedSections - 1 in sectionHeads then sectionHeads[storedSections - 1] else ZERO;
        if head == ReadCanonicalHash(canon, End(cfg, storedSections - 1)) {
          return;
        }
        SetValid(storedSections - 1);
      }
    }

    /** Handles a new head or a reorg; `cascade` is the head passed on to child indexers. */
    method Notified(head: nat, reorg: bool, canon: map<nat, Hash>) returns (cascade: Option<nat>)
      requires Valid()
      modifies this
      ensures State() == NewHead(cfg, old(State()), head, reorg, canon)
      ensures cascade == if reorg && cascadedHead < old(cascadedHead) then Some(cascadedHead) else None
    {
      cascade := None;
      if reorg {
        var known := (head + 1) / cfg.sectionSize;
        var stored := known;
        if known < cfg.checkpointSections {
          known := 0;
        }
        if stored < cfg.checkpointSections {
          stored := cfg.checkpointSections;
        }
        if known < knownSections {
          knownSections := known;
        }
        if stored < storedSections {
          SetValid(stored);
        }
        if Blocks(cfg, known) < cascadedHead {
          cascadedHead := Blocks(cfg, known);
          cascade := Some(cascadedHead);
        }
        return;
      }
      if head >= cfg.confirmsReq {
        var sections := (head + 1 - cfg.confirmsReq) / cfg.sectionSize;
        if sections < cfg.checkpointSections {
          sections := 0;
        }
        if sections > knownSections {
          if knownSections < cfg.checkpointSections {
            var syncedHead := ReadCanonicalHash(canon, End(cfg, cfg.checkpointSections - 1));
            if syncedHead != cfg.checkpointHead {
              return;
            }
          }
          knownSections := sections;
        }
      }
    }

    /** The last section is verified first; with no section stored the number of the last
        indexed block wraps around. */
    method Sections(canon: map<nat, Hash>) returns (sections: nat, last: nat, head: Hash)
      requires Valid()
      modifies this`storedSections, this`sectionHeads
      ensures State() == VerifyLastHead(cfg, old(State()), canon)
      ensures sections == storedSections
      ensures last == if sections == 0 then MAX_UINT64 else End(cfg, sections - 1)
      ensures head == SectionHead(State(), if sections == 0 then MAX_UINT64 else sections - 1)
    {
      Verify(canon);
      sections := storedSections;
      var section := if sections == 0 then MAX_UINT64 else sections - 1;
      last := if sections == 0 then MAX_UINT64 else End(cfg, sections - 1);
      head := if section in sectionHeads then sectionHeads[section] else ZERO;
    }

    /** The locked part before a section is processed. */
    method BeginUpdate(canon: map<nat, Hash>) returns (job: Option<Job>)
      requires Valid()
      modifies this`storedSections, this`sectionHeads
      ensures job.None? <==> old(knownSections <= storedSections)
      ensures job.None? ==> State() == old(State())
      ensures job.Some? ==> State() == VerifyLastHead(cfg, old(State()), canon) && job.value == StartJob(State())
    {
      if knownSections <= storedSections {
        return None;
      }
      Verify(canon);
      var oldHead := ZERO;
      if storedSections > 0 {
        oldHead := if storedSections - 1 in sectionHeads then sectionHeads[storedSections - 1] else ZERO;
      }
      job := Some(Job(storedSections, oldHead));
    }

    /** The unlocked part: `answers[i]` is what the chain database answers for the i-th block of
        the section at the moment it is asked, possibly from different branches. Only a
        gap-free run of parent links from the old head is accepted. */
    method ProcessSection(ghost u: Headers, job: Job, answers: seq<Option<Header>>) returns (r: Result<Hash, ()>)
      requires Valid() && ValidHeaders(u) && |answers| == cfg.sectionSize
      requires forall i :: 0 <= i < |answers| && answers[i].Some? ==> answers[i].value.hash in u && u[answers[i].value.hash] == answers[i].value
      ensures JobResult(u, cfg, job, r)
      ensures r.Ok? <==> forall i :: 0 <= i < |answers| ==> Fits(job, answers, i)
      ensures r.Ok? ==> r.value == Expected(job, answers, |answers|)
    {
      var lastHead := job.oldHead;
      for i := 0 to |answers|
        invariant Back(u, lastHead, i) == Some(job.oldHead)
        invariant lastHead == Expected(job, answers, i) && (i > 0 ==> lastHead != ZERO)
        invariant forall j :: 0 <= j < i ==> Fits(job, answers, j)
      {
        if answers[i].None? || answers[i].value.parent != lastHead {
          assert !Fits(job, answers, i);
          return Err(());
        }
        lastHead := answers[i].value.hash;
      }
      return Ok(lastHead);
    }

    /** The locked part after a section has been processed; `cascade` goes to the children. */
    method EndUpdate(job: Job, result: Result<Hash, ()>, canon: map<nat, Hash>) returns (cascade: Option<nat>)
      requires Valid()
      modifies this
      ensures State() == FinishJob(cfg, old(State()), job, result, canon)
      ensures cascade.Some? ==> cascade.value == cascadedHead == End(cfg, job.section) && storedSections == job.section + 1
      ensures cascade.Some? <==> result.Ok? && (job.section == 0 || job.oldHead == SectionHead(old(State()), job.section - 1))
    {
      var below := if job.section > 0 && job.section - 1 in sectionHeads then sectionHeads[job.section - 1] else ZERO;
      if result.Ok? && (job.section == 0 || job.oldHead == below) {
        sectionHeads := sectionHeads[job.section := result.value];
        SetValid(job.section + 1);
        cascadedHead := End(cfg, job.section);
        return Some(cascadedHead);
      }
      Verify(canon);
      knownSections := storedSections;
      cascade := None;
    }
  }
}
