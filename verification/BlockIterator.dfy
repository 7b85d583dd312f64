/** The parallel block iterator: a consumer hands out heights to worker threads over an
    unbuffered channel and collects their blocks, in any order, into a window of slots
    indexed by height modulo its size. */
module BlockIterator {
  import opened Outcomes
  import opened Arithmetic

  /** A worker waits for a height, or has read its block and waits to deliver it. */
  datatype Worker = Free | Busy(height: nat)

  /** Where the consumer is: outside `Next`; handing out heights before or after reading
      (up to the last accepted height); or waiting for the next block. While it hands out
      heights it takes no deliveries. */
  datatype Consumer =
    | Outside
    | Filling(last: nat)
    | Waiting(last: nat)
    | Refilling(last: nat)

  /** A slot or worker holds a block; the canonical block of a height has that number, so
      the height stands for the block. */
  datatype Iter = Iter(
    start: nat, nextRead: nat, nextToRead: nat,
    slots: seq<Option<nat>>, workers: seq<Worker>,
    consumer: Consumer, yielded: seq<nat>)

  function Start(start: nat, parallelism: nat, last: nat): Iter {
    Iter(start, start, start, seq(parallelism, _ => None), seq(parallelism, _ => Free), Refilling(last), [])
  }

  /** The slot of the next block to be yielded. */
  predicate Ready(s: Iter)
    requires |s.slots| > 0
  {
    s.slots[s.nextRead % |s.slots|].Some?
  }

  /** `populateReaders` has another height to hand out. */
  predicate Wants(s: Iter)
    requires !s.consumer.Outside?
  {
    s.nextToRead <= s.consumer.last && s.nextToRead < s.nextRead + |s.slots|
  }

  // ------------------------------------------------------------------- the steps

  datatype Event =
    | Call(last: nat)
    | Send(w: nat)
    | Filled
    | Deliver(w: nat)
    | Yield
    | Abort

  predicate Enabled(s: Iter, ev: Event)
    requires |s.slots| > 0
  {
    match ev
    case Call(last) => s.consumer.Outside? && s.nextRead <= last
    case Send(w) =>
      (s.consumer.Filling? || s.consumer.Refilling?) && Wants(s) && w < |s.workers| && s.workers[w].Free?
    case Filled => (s.consumer.Filling? || s.consumer.Refilling?) && !Wants(s)
    case Deliver(w) => s.consumer.Waiting? && !Ready(s) && w < |s.workers| && s.workers[w].Busy?
    case Yield => s.consumer.Waiting? && Ready(s)
    case Abort => s.consumer.Waiting? && !Ready(s)
  }

  /** `Abort` is a cancelled context: `Next` returns an error and can be called again. */
  function Apply(s: Iter, ev: Event): Iter
    requires |s.slots| > 0 && Enabled(s, ev)
  {
    match ev
    case Call(last) => s.(consumer := Filling(last))
    case Send(w) => s.(workers := s.workers[w := Busy(s.nextToRead)], nextToRead := s.nextToRead + 1)
    case Filled => s.(consumer := if s.consumer.Filling? then Waiting(s.consumer.last) else Outside)
    case Deliver(w) =>
      var h := s.workers[w].height;
      s.(slots := s.slots[h % |s.slots| := Some(h)], workers := s.workers[w := Free])
    case Yield =>
      var i := s.nextRead % |s.slots|;
      s.(yielded := s.yielded + [s.slots[i].value], slots := s.slots[i := None],
         nextRead := s.nextRead + 1, consumer := Refilling(s.consumer.last))
    case Abort => s.(consumer := Outside)
  }

  // ---------------------------------------------------------------- the invariant

  ghost predicate HeldBy(s: Iter, h: nat, w: nat) {
    w < |s.workers| && s.workers[w] == Busy(h)
  }

  /** Every height handed out and not yet yielded is in its slot or with exactly one worker,
      and nothing else is. */
  ghost predicate Inv(s: Iter) {
    && |s.slots| == |s.workers| > 0
    && s.nextRead <= s.nextToRead <= s.nextRead + |s.slots|
    && s.nextRead == s.start + |s.yielded|
    && (forall i :: 0 <= i < |s.yielded| ==> s.yielded[i] == s.start + i)
    && (forall i :: 0 <= i < |s.slots| && s.slots[i].Some? ==> InWindow(s, s.slots[i].value) && s.slots[i].value % |s.slots| == i)
    && (forall w :: 0 <= w < |s.workers| && s.workers[w].Busy? ==> InWindow(s, s.workers[w].height))
    && (forall w, v :: 0 <= w < v < |s.workers| && s.workers[w].Busy? && s.workers[v].Busy? ==>
          s.workers[w].height != s.workers[v].height)
    && (forall w :: 0 <= w < |s.workers| && s.workers[w].Busy? ==>
          s.slots[s.workers[w].height % |s.slots|] != Some(s.workers[w].height))
    && (forall h: nat :: InWindow(s, h) ==> InSlot(s, h) || exists w :: HeldBy(s, h, w))
    && (s.consumer.Filling? ==> s.nextRead <= s.consumer.last)
    && (s.consumer.Waiting? ==> s.nextRead < s.nextToRead)
  }

  predicate InWindow(s: Iter, h: nat) {
    s.nextRead <= h < s.nextToRead
  }

  predicate InSlot(s: Iter, h: nat)
    requires |s.slots| > 0
  {
    s.slots[h % |s.slots|] == Some(h)
  }

  /** Two heights of one window with the same slot are the same height. */
  lemma SameSlot(a: nat, p: nat, h: nat, g: nat)
    requires p > 0 && a <= h < a + p && a <= g < a + p && h % p == g % p
    ensures h == g
  {
    var d := h / p - g / p;
    MultipleApart(d, p);
    assert h - g == d * p;
  }

  /** No unread block is overwritten: the slot of a delivered block is empty. */
  lemma DeliverFindsEmptySlot(s: Iter, w: nat)
    requires Inv(s) && Enabled(s, Deliver(w))
    ensures s.slots[s.workers[w].height % |s.slots|].None?
  {
    var h, i := s.workers[w].height, s.workers[w].height % |s.slots|;
    if s.slots[i].Some? {
      SameSlot(s.nextRead, |s.slots|, h, s.slots[i].value);
    }
  }

  /** What is yielded is the block of the next height. */
  lemma YieldIsNext(s: Iter)
    requires Inv(s) && Enabled(s, Yield)
    ensures s.slots[s.nextRead % |s.slots|] == Some(s.nextRead)
  {
    var i := s.nextRead % |s.slots|;
    SameSlot(s.nextRead, |s.slots|, s.nextRead, s.slots[i].value);
  }

  lemma SendKeeps(s: Iter, w: nat)
    requires Inv(s) && Enabled(s, Send(w))
    ensures Inv(Apply(s, Send(w)))
  {
    var s' := Apply(s, Send(w));
    var p, i := |s.slots|, s.nextToRead % |s.slots|;
    assert s.slots[i] != Some(s.nextToRead);
    forall h: nat | InWindow(s', h) ensures InSlot(s', h) || exists v :: HeldBy(s', h, v) {
      if h == s.nextToRead {
        assert HeldBy(s', h, w);
      } else if !InSlot(s, h) {
        var v :| HeldBy(s, h, v);
        assert HeldBy(s', h, v);
      }
    }
  }

  lemma DeliverKeeps(s: Iter, w: nat)
    requires Inv(s) && Enabled(s, Deliver(w))
    ensures Inv(Apply(s, Deliver(w)))
  {
    DeliverFindsEmptySlot(s, w);
    var s' := Apply(s, Deliver(w));
    var g := s.workers[w].height;
    forall v | 0 <= v < |s'.workers| && s'.workers[v].Busy?
      ensures s'.slots[s'.workers[v].height % |s'.slots|] != Some(s'.workers[v].height)
    {
      assert s.workers[v] == s'.workers[v] && s.workers[v].height != g;
    }
    forall h: nat | InWindow(s', h) ensures InSlot(s', h) || exists v :: HeldBy(s', h, v) {
      if h != g && !InSlot(s, h) {
        var v :| HeldBy(s, h, v);
        assert HeldBy(s', h, v);
      }
    }
  }

  lemma YieldKeeps(s: Iter)
    requires Inv(s) && Enabled(s, Yield)
    ensures Inv(Apply(s, Yield))
    ensures Apply(s, Yield).yielded == s.yielded + [s.nextRead]
  {
    YieldIsNext(s);
    var s' := Apply(s, Yield);
    var p := |s.slots|;
    forall w | 0 <= w < |s.workers| && s.workers[w].Busy? ensures s.workers[w].height != s.nextRead {
      assert s.slots[s.workers[w].height % p] != Some(s.workers[w].height);
    }
    forall i | 0 <= i < p && s'.slots[i].Some? ensures s'.slots[i].value != s.nextRead {
      assert s.slots[i].value % p == i;
    }
    forall h: nat | InWindow(s', h) ensures InSlot(s', h) || exists v :: HeldBy(s', h, v) {
      if InSlot(s, h) {
        assert h % p != s.nextRead % p;
      } else {
        var v :| HeldBy(s, h, v);
        assert HeldBy(s', h, v);
      }
    }
  }

  lemma ControlKeeps(s: Iter, ev: Event)
    requires Inv(s) && Enabled(s, ev) && (ev.Call? || ev.Filled? || ev.Abort?)
    ensures Inv(Apply(s, ev))
  {
    var s' := Apply(s, ev);
    forall h: nat | InWindow(s', h) ensures InSlot(s', h) || exists v :: HeldBy(s', h, v) {
      if !InSlot(s, h) {
        var v :| HeldBy(s, h, v);
        assert HeldBy(s', h, v);
      }
    }
  }

  lemma StepKeeps(s: Iter, ev: Event)
    requires Inv(s) && Enabled(s, ev)
    ensures Inv(Apply(s, ev))
  {
    match ev
    case Send(w) => SendKeeps(s, w);
    case Deliver(w) => DeliverKeeps(s, w);
    case Yield => YieldKeeps(s);
    case _ => ControlKeeps(s, ev);
  }

  // ------------------------------------------------------------------- whole runs

  ghost predicate Next(s: Iter, s': Iter) {
    |s.slots| > 0 && exists ev :: Enabled(s, ev) && s' == Apply(s, ev)
  }

  ghost predicate StepAt(run: seq<Iter>, i: int) {
    0 < i < |run| && Next(run[i - 1], run[i])
  }

  /** Any interleaving of the consumer with the workers. */
  ghost predicate IsRun(run: seq<Iter>, start: nat, parallelism: nat, last: nat) {
    && |run| > 0 && run[0] == Start(start, parallelism, last)
    && forall i :: 0 < i < |run| ==> StepAt(run, i)
  }

  lemma {:induction false} RunKeeps(run: seq<Iter>, start: nat, parallelism: nat, last: nat, i: nat)
    requires parallelism > 0 && IsRun(run, start, parallelism, last) && i < |run|
    ensures Inv(run[i]) && run[i].start == start
  {
    if i > 0 {
      RunKeeps(run, start, parallelism, last, i - 1);
      assert StepAt(run, i);
      var ev :| Enabled(run[i - 1], ev) && run[i] == Apply(run[i - 1], ev);
      StepKeeps(run[i - 1], ev);
    }
  }

  /** For every interleaving, what has been yielded is start, start + 1, ... with no height
      twice and none left out. */
  lemma YieldsInOrder(run: seq<Iter>, start: nat, parallelism: nat, last: nat, i: nat)
    requires parallelism > 0 && IsRun(run, start, parallelism, last) && i < |run|
    ensures run[i].yielded == seq(|run[i].yielded|, k => start + k)
  {
    RunKeeps(run, start, parallelism, last, i);
  }

  // ------------------------------------------------------------------- progress

  /** Distinct numbers from a range are no more than the range has. */
  lemma {:induction false} Pigeonhole(s: seq<nat>, lo: nat, hi: nat)
    requires lo <= hi && forall i :: 0 <= i < |s| ==> lo <= s[i] < hi
    requires forall i, j :: 0 <= i < j < |s| ==> s[i] != s[j]
    ensures |s| <= hi - lo
    decreases hi
  {
    if |s| > 0 {
      assert lo <= s[0] < hi;
      if k :| 0 <= k < |s| && s[k] == hi - 1 {
        Pigeonhole(s[..k] + s[k + 1..], lo, hi - 1);
      } else {
        Pigeonhole(s, lo, hi - 1);
      }
    }
  }

  /** When there is a height to hand out, some worker is free to take it. */
  lemma SomeWorkerFree(s: Iter)
    requires Inv(s) && s.nextToRead < s.nextRead + |s.slots|
    ensures exists w :: 0 <= w < |s.workers| && s.workers[w].Free?
  {
    if forall w :: 0 <= w < |s.workers| ==> s.workers[w].Busy? {
      var heights := seq(|s.workers|, w requires 0 <= w < |s.workers| => s.workers[w].height);
      Pigeonhole(heights, s.nextRead, s.nextToRead);
    }
  }

  /** When the next block is not there yet, the worker that has it can deliver. */
  lemma SomeWorkerDelivers(s: Iter)
    requires Inv(s) && s.consumer.Waiting? && !Ready(s)
    ensures exists w :: 0 <= w < |s.workers| && s.workers[w].Busy?
  {
    assert InWindow(s, s.nextRead) && !InSlot(s, s.nextRead);
    var w :| HeldBy(s, s.nextRead, w);
  }

  /** The protocol cannot deadlock: inside a call of `Next` some step other than a
      cancellation is always possible. */
  lemma NoDeadlock(s: Iter)
    requires Inv(s) && !s.consumer.Outside?
    ensures exists ev: Event :: Enabled(s, ev) && !ev.Abort? && !ev.Call?
  {
    if s.consumer.Waiting? {
      if Ready(s) {
        assert Enabled(s, Yield);
      } else {
        SomeWorkerDelivers(s);
        var w :| 0 <= w < |s.workers| && s.workers[w].Busy?;
        assert Enabled(s, Deliver(w));
      }
    } else if Wants(s) {
      SomeWorkerFree(s);
      var w :| 0 <= w < |s.workers| && s.workers[w].Free?;
      assert Enabled(s, Send(w));
    } else {
      assert Enabled(s, Filled);
    }
  }

  function BusyWorkers(s: Iter): set<nat> {
    set w: nat | w < |s.workers| && s.workers[w].Busy?
  }

  /** How far a call of `Next` is from returning: its stage, then the heights still to hand
      out or the deliveries still to come. */
  function Stage(s: Iter): nat {
    match s.consumer
    case Filling(_) => 3
    case Waiting(_) => 2
    case Refilling(_) => 1
    case Outside => 0
  }

  function Left(s: Iter): int {
    if s.consumer.Waiting? then |BusyWorkers(s)| else s.nextRead + |s.slots| - s.nextToRead
  }

  /** Every step of a call brings it closer to its end, so each call returns. */
  lemma CallReturns(s: Iter, ev: Event)
    requires Inv(s) && Enabled(s, ev) && !ev.Call?
    ensures 0 <= Left(s)
    ensures Stage(Apply(s, ev)) < Stage(s) || (Stage(Apply(s, ev)) == Stage(s) && Left(Apply(s, ev)) < Left(s))
  {
    if ev.Deliver? {
      assert BusyWorkers(Apply(s, ev)) == BusyWorkers(s) - {ev.w};
    }
  }

  // ------------------------------------------------------------------- the object

  class BlockChainIterator {
    const start: nat
    const blocks: array<Option<nat>>
    const workers: array<Worker>
    var nextReadBlockHeight: nat
    var nextBlockHeightToRead: nat
    var consumer: Consumer
    ghost var yielded: seq<nat>

    ghost function State(): Iter
      reads this, blocks, workers
    {
      Iter(start, nextReadBlockHeight, nextBlockHeightToRead, blocks[..], workers[..], consumer, yielded)
    }

    constructor (start: nat, parallelism: nat, last: nat)
      ensures fresh(blocks) && fresh(workers) && State() == Start(start, parallelism, last)
    {
      this.start := start;
      blocks := new Option<nat>[parallelism](_ => None);
      workers := new Worker[parallelism](_ => Free);
      nextReadBlockHeight, nextBlockHeightToRead := start, start;
      consumer, yielded := Refilling(last), [];
    }

    /** One pass of `populateReaders`: hand the next height to a worker that takes it. */
    method SendHeight(w: nat)
      requires Inv(State()) && Enabled(State(), Send(w))
      modifies this`nextBlockHeightToRead, workers
      ensures State() == Apply(old(State()), Send(w)) && Inv(State())
    {
      StepKeeps(State(), Send(w));
      workers[w] := Busy(nextBlockHeightToRead);
      nextBlockHeightToRead := nextBlockHeightToRead + 1;
    }

    /** One pass of the loop in `Next`: put a delivered block into its slot. */
    method ReceiveBlock(w: nat)
      requires Inv(State()) && Enabled(State(), Deliver(w))
      modifies blocks, workers
      ensures State() == Apply(old(State()), Deliver(w)) && Inv(State())
    {
      StepKeeps(State(), Deliver(w));
      var h := workers[w].height;
      blocks[h % blocks.Length] := Some(h);
      workers[w] := Free;
    }

    /** `Next` takes the block out of its slot and returns it. */
    method TakeNext() returns (h: nat)
      requires Inv(State()) && Enabled(State(), Yield)
      modifies this, blocks
      ensures State() == Apply(old(State()), Yield) && Inv(State())
      ensures h == old(nextReadBlockHeight)
    {
      YieldIsNext(State());
      StepKeeps(State(), Yield);
      var i := nextReadBlockHeight % blocks.Length;
      h := blocks[i].value;
      blocks[i] := None;
      nextReadBlockHeight := nextReadBlockHeight + 1;
      consumer := Refilling(consumer.last);
      yielded := yielded + [h];
    }
  }
}
