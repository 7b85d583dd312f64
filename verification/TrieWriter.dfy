/** The trie database as the chain uses it (reference counts on state roots, commits and
    flushes to disk) and the pruning trie writer that decides when roots are released. */
module TrieDatabase {
  import opened Chain

  /** `dirty` counts the references on roots held in memory; `disk` holds the roots whose
      tries are on disk. Committing or flushing a root moves it from the one to the
      other, and dereferencing a root that is not dirty does nothing. */
  datatype Tries = Tries(disk: set<Root>, dirty: map<Root, nat>) {
    function Count(r: Root): nat { if r in dirty then dirty[r] else 0 }

    predicate Has(r: Root) { r in disk || Count(r) > 0 }

    function Reference(r: Root): Tries { this.(dirty := dirty[r := Count(r) + 1]) }

    function Dereference(r: Root): Tries {
      if Count(r) <= 1 then this.(dirty := dirty - {r}) else this.(dirty := dirty[r := Count(r) - 1])
    }

    function Commit(r: Root): Tries {
      if Count(r) == 0 then this else Tries(disk + {r}, dirty - {r})
    }

    /** A memory cap writes some dirty tries out; which ones is up to the database. */
    function Cap(flushed: set<Root>): Tries {
      Tries(disk + flushed * dirty.Keys, dirty - flushed)
    }
  }
}

module TrieWriter {
  import opened Outcomes
  import opened Chain
  import opened BoundedBuffers
  import opened TrieDatabase

  // ------------------------------------------------------- what each call does

  /** The writer's own state: the database and the roots of the last accepted blocks. */
  datatype Writer = Writer(tries: Tries, window: seq<Root>)

  function InsertTrie(w: Writer, flushed: set<Root>): Writer {
    w.(tries := w.tries.Cap(flushed))
  }

  function AcceptTrie(w: Writer, b: Block, history: nat, interval: nat, flushed: set<Root>): Writer
    requires history > 0 && interval > 0
  {
    var t := if |w.window| < history then w.tries else w.tries.Dereference(w.window[0]);
    Writer(if b.number % interval == 0 then t.Commit(b.root) else t.Cap(flushed),
           LastN(w.window + [b.root], history))
  }

  function RejectTrie(w: Writer, b: Block): Writer {
    w.(tries := w.tries.Dereference(b.root))
  }

  function Shutdown(w: Writer): Writer {
    if |w.window| == 0 then w else w.(tries := w.tries.Commit(w.window[|w.window| - 1]))
  }

  // ------------------------------------------------------- reference conservation

  /** The writer together with the blocks inserted and not yet accepted or rejected, and
      the counts there were when the node started. */
  datatype Retention = Retention(writer: Writer, pending: set<Block>, initial: map<Root, nat>)

  function Holding(pending: set<Block>, r: Root): set<Block> {
    set b | b in pending && b.root == r
  }

  /** The references a root should have: one for each pending block with that root, one
      for each of its occurrences in the window of accepted roots, and what was there. */
  function Expected(s: Retention, r: Root): nat {
    |Holding(s.pending, r)| + multiset(s.writer.window)[r] + (if r in s.initial then s.initial[r] else 0)
  }

  ghost predicate Conserved(s: Retention, history: nat) {
    |s.writer.window| <= history && forall r :: ConservedAt(s, r)
  }

  /** At a root that is not on disk the count is exact; elsewhere it is never too high. */
  ghost predicate ConservedAt(s: Retention, r: Root) {
    && s.writer.tries.Count(r) <= Expected(s, r)
    && (r !in s.writer.tries.disk ==> s.writer.tries.Count(r) == Expected(s, r))
  }

  /** `Finalizes` is consensus accepting the block, which makes sure its state is there;
      `Accepts` is the acceptor handing its trie over later. */
  datatype TrieEvent =
    | Inserts(b: Block, flushed: set<Root>)
    | Finalizes(b: Block)
    | Accepts(b: Block, flushed: set<Root>)
    | Rejects(b: Block)

  /** The block holds a reference of its own, or its root has none that it could be taken
      to hold: the root is on disk, or not in memory at all. */
  predicate Settled(s: Retention, b: Block) {
    b in s.pending || b.root in s.writer.tries.disk || s.writer.tries.Count(b.root) == 0
  }

  /** Executing a block takes one reference on its root before the writer is told. A block
      is inserted at most once in a session, and finalized or rejected once; a block that
      was stored in an earlier session need not be inserted again. */
  predicate Legal(s: Retention, ev: TrieEvent) {
    match ev
    case Inserts(b, _) => b !in s.pending
    case Finalizes(b) => Settled(s, b)
    case Accepts(b, _) => b in s.pending
    case Rejects(b) => Settled(s, b)
  }

  /** A finalized block whose state is missing is executed again, which takes a reference. */
  function Materialize(t: Tries, r: Root): Tries {
    if t.Has(r) then t else t.Reference(r)
  }

  function Apply(s: Retention, ev: TrieEvent, history: nat, interval: nat): Retention
    requires history > 0 && interval > 0
  {
    match ev
    case Inserts(b, flushed) =>
      s.(writer := InsertTrie(s.writer.(tries := s.writer.tries.Reference(b.root)), flushed),
         pending := s.pending + {b})
    case Finalizes(b) =>
      if b in s.pending then s.(writer := s.writer.(tries := Materialize(s.writer.tries, b.root)))
      else s.(writer := s.writer.(tries := Materialize(s.writer.tries, b.root)), pending := s.pending + {b})
    case Accepts(b, flushed) =>
      s.(writer := AcceptTrie(s.writer, b, history, interval, flushed), pending := s.pending - {b})
    case Rejects(b) =>
      s.(writer := RejectTrie(s.writer, b), pending := s.pending - {b})
  }

  function Run(s: Retention, evs: seq<TrieEvent>, history: nat, interval: nat): Retention
    requires history > 0 && interval > 0
    decreases |evs|
  {
    if |evs| == 0 then s
    else Apply(Run(s, evs[..|evs| - 1], history, interval), evs[|evs| - 1], history, interval)
  }

  ghost predicate LegalRun(s: Retention, evs: seq<TrieEvent>, history: nat, interval: nat)
    requires history > 0 && interval > 0
  {
    forall i :: 0 <= i < |evs| ==> Legal(Run(s, evs[..i], history, interval), evs[i])
  }

  lemma HoldingAdd(pending: set<Block>, b: Block, r: Root)
    requires b !in pending
    ensures |Holding(pending + {b}, r)| == |Holding(pending, r)| + if b.root == r then 1 else 0
  {
    if b.root == r {
      assert Holding(pending + {b}, r) == Holding(pending, r) + {b};
    } else {
      assert Holding(pending + {b}, r) == Holding(pending, r);
    }
  }

  lemma HoldingRemove(pending: set<Block>, b: Block, r: Root)
    requires b in pending
    ensures |Holding(pending - {b}, r)| == |Holding(pending, r)| - if b.root == r then 1 else 0
  {
    HoldingAdd(pending - {b}, b, r);
    assert pending - {b} + {b} == pending;
  }

  lemma WindowShift(window: seq<Root>, history: nat, x: Root, r: Root)
    requires |window| <= history && history > 0
    ensures multiset(LastN(window + [x], history))[r]
         == multiset(window)[r] + (if r == x then 1 else 0)
            - (if |window| == history && r == window[0] then 1 else 0)
  {
    if |window| == history {
      assert LastN(window + [x], history) == window[1..] + [x];
      assert window == [window[0]] + window[1..];
    }
  }

  lemma AcceptConserves(s: Retention, b: Block, flushed: set<Root>, history: nat, interval: nat, r: Root)
    requires history > 0 && interval > 0
    requires |s.writer.window| <= history && ConservedAt(s, r) && b in s.pending
    ensures ConservedAt(Apply(s, Accepts(b, flushed), history, interval), r)
  {
    var w := s.writer;
    var s' := Apply(s, Accepts(b, flushed), history, interval);
    HoldingRemove(s.pending, b, r);
    WindowShift(w.window, history, b.root, r);
    var released := |w.window| == history && r == w.window[0];
    assert Expected(s', r) == Expected(s, r) - if released then 1 else 0;
    var t := if |w.window| < history then w.tries else w.tries.Dereference(w.window[0]);
    assert t.Count(r) == if released && w.tries.Count(r) > 0 then w.tries.Count(r) - 1 else w.tries.Count(r);
  }

  lemma FinalizeConserves(s: Retention, b: Block, history: nat, interval: nat, r: Root)
    requires history > 0 && interval > 0 && ConservedAt(s, r) && ConservedAt(s, b.root) && Settled(s, b)
    ensures ConservedAt(Apply(s, Finalizes(b), history, interval), r)
  {
    if b in s.pending {
      assert b in Holding(s.pending, b.root);
      assert s.writer.tries.Has(b.root);
    } else {
      HoldingAdd(s.pending, b, r);
    }
  }

  lemma RejectConserves(s: Retention, b: Block, history: nat, interval: nat, r: Root)
    requires history > 0 && interval > 0 && ConservedAt(s, r) && Settled(s, b)
    ensures ConservedAt(Apply(s, Rejects(b), history, interval), r)
  {
    if b in s.pending {
      HoldingRemove(s.pending, b, r);
    } else {
      assert s.pending - {b} == s.pending;
    }
  }

  /** Each call keeps the count of every root that is not on disk exactly as expected. */
  lemma ApplyConserves(s: Retention, ev: TrieEvent, history: nat, interval: nat)
    requires history > 0 && interval > 0
    requires Conserved(s, history) && Legal(s, ev)
    ensures Conserved(Apply(s, ev, history, interval), history)
  {
    forall r ensures ConservedAt(Apply(s, ev, history, interval), r) {
      assert ConservedAt(s, r);
      match ev
      case Inserts(b, _) => HoldingAdd(s.pending, b, r);
      case Finalizes(b) =>
        assert ConservedAt(s, b.root);
        FinalizeConserves(s, b, history, interval, r);
      case Accepts(b, flushed) => AcceptConserves(s, b, flushed, history, interval, r);
      case Rejects(b) => RejectConserves(s, b, history, interval, r);
    }
  }

  /** Finalizing or rejecting a block keeps the books if and only if the block is settled:
      one that was not inserted in this session must not find its root held by others in
      memory alone. */
  lemma ConservedIffSettled(s: Retention, b: Block, history: nat, interval: nat)
    requires history > 0 && interval > 0 && Conserved(s, history)
    ensures Conserved(Apply(s, Finalizes(b), history, interval), history) <==> Settled(s, b)
    ensures Conserved(Apply(s, Rejects(b), history, interval), history) <==> Settled(s, b)
  {
    if Settled(s, b) {
      ApplyConserves(s, Finalizes(b), history, interval);
      ApplyConserves(s, Rejects(b), history, interval);
    } else {
      assert ConservedAt(s, b.root);
      HoldingAdd(s.pending, b, b.root);
      assert s.pending - {b} == s.pending;
      assert !ConservedAt(Apply(s, Finalizes(b), history, interval), b.root);
      assert !ConservedAt(Apply(s, Rejects(b), history, interval), b.root);
    }
  }

  /** What goes wrong otherwise: `x` and `c` are pending, and `b`, which shares the root of `x`
      and was stored in an earlier session, is finalized without being inserted again. Once
      `b` has left a window of one, the state of `x` is gone although `x` is pending. */
  lemma UnsettledReleases(x: Block, b: Block, c: Block, interval: nat)
    requires interval > 0 && b.number % interval != 0 && c.number % interval != 0
    requires x != b && x != c && b != c && x.root == b.root != c.root
    ensures var s := TwoPending(x, c);
            var s1 := Apply(s, Finalizes(b), 1, interval);
            var s2 := Apply(s1, Accepts(b, {}), 1, interval);
            var s3 := Apply(s2, Accepts(c, {}), 1, interval);
            Conserved(s, 1) && !Settled(s, b) && x in s3.pending && !s3.writer.tries.Has(x.root)
  {
    TwoPendingConserved(x, c);
    var t := TwoPending(x, c).writer.tries;
    assert t.Cap({}) == t;
  }

  function TwoPending(x: Block, c: Block): Retention {
    Retention(Writer(Tries({}, map[x.root := 1, c.root := 1]), []), {x, c}, map[])
  }

  lemma TwoPendingConserved(x: Block, c: Block)
    requires x.root != c.root
    ensures Conserved(TwoPending(x, c), 1)
  {
    forall r ensures ConservedAt(TwoPending(x, c), r) {
      assert Holding({x, c}, r) == (if r == x.root then {x} else if r == c.root then {c} else {});
    }
  }

  /** Reference conservation over every run of inserts, accepts and rejects. */
  lemma {:induction false} RunConserves(s: Retention, evs: seq<TrieEvent>, history: nat, interval: nat)
    requires history > 0 && interval > 0
    requires Conserved(s, history) && LegalRun(s, evs, history, interval)
    ensures Conserved(Run(s, evs, history, interval), history)
    decreases |evs|
  {
    if |evs| > 0 {
      var init := evs[..|evs| - 1];
      forall i | 0 <= i < |init| ensures Legal(Run(s, init[..i], history, interval), init[i]) {
        assert init[..i] == evs[..i];
      }
      RunConserves(s, init, history, interval);
      ApplyConserves(Run(s, init, history, interval), evs[|evs| - 1], history, interval);
    }
  }

  /** So the state of a pending block, and of every block in the window, is never
      released, however many blocks share a root. */
  lemma NothingReleased(s: Retention, history: nat)
    requires Conserved(s, history)
    ensures forall b :: b in s.pending ==> s.writer.tries.Has(b.root)
    ensures forall i :: 0 <= i < |s.writer.window| ==> s.writer.tries.Has(s.writer.window[i])
  {
    forall b | b in s.pending ensures s.writer.tries.Has(b.root) {
      assert b in Holding(s.pending, b.root);
      assert ConservedAt(s, b.root);
    }
    forall i | 0 <= i < |s.writer.window| ensures s.writer.tries.Has(s.writer.window[i]) {
      var r := s.writer.window[i];
      assert r in multiset(s.writer.window);
      assert ConservedAt(s, r);
    }
  }

  /** A root nobody holds any more is dropped from memory: nothing is kept for ever. */
  lemma NothingKept(s: Retention, history: nat, r: Root)
    requires Conserved(s, history)
    requires r !in s.initial && r !in s.writer.window && forall b :: b in s.pending ==> b.root != r
    ensures s.writer.tries.Has(r) <==> r in s.writer.tries.disk
  {
    assert Holding(s.pending, r) == {};
    assert ConservedAt(s, r);
  }

  // ------------------------------------------------------------ the pruning writer

  class CappedMemoryTrieWriter {
    const commitInterval: nat
    const tipBuffer: BoundedBuffer<Root>
    var db: Tries

    ghost predicate Valid()
      reads tipBuffer
    {
      commitInterval > 0 && tipBuffer.Valid() && tipBuffer.size > 0
    }

    ghost function State(): Writer
      requires Valid()
      reads this, tipBuffer, tipBuffer.buffer
    {
      Writer(db, tipBuffer.Contents())
    }

    constructor (db: Tries, stateHistory: nat, commitInterval: nat)
      requires stateHistory > 0 && commitInterval > 0
      ensures Valid() && fresh(tipBuffer) && fresh(tipBuffer.buffer)
      ensures tipBuffer.size == stateHistory && this.commitInterval == commitInterval
      ensures State() == Writer(db, [])
    {
      this.db := db;
      this.commitInterval := commitInterval;
      tipBuffer := new BoundedBuffer<Root>(stateHistory);
    }

    method Insert(flushed: set<Root>)
      requires Valid()
      modifies this`db
      ensures Valid() && State() == InsertTrie(old(State()), flushed)
    {
      db := db.Cap(flushed);
    }

    method Accept(b: Block, flushed: set<Root>)
      requires Valid()
      modifies this`db, tipBuffer, tipBuffer.buffer
      ensures Valid()
      ensures State() == AcceptTrie(old(State()), b, tipBuffer.size, commitInterval, flushed)
    {
      var evicted := tipBuffer.Insert(b.root);
      match evicted {
        case None =>
        case Some(r) => db := db.Dereference(r);
      }
      if b.number % commitInterval == 0 {
        db := db.Commit(b.root);
        return;
      }
      db := db.Cap(flushed);
    }

    /** Executing a block again takes a reference on its root if its state is missing. */
    method Rematerialize(b: Block)
      requires Valid()
      modifies this`db
      ensures Valid() && State() == old(State()).(tries := Materialize(old(State()).tries, b.root))
    {
      if !db.Has(b.root) {
        db := db.Reference(b.root);
      }
    }

    method Reject(b: Block)
      requires Valid()
      modifies this`db
      ensures Valid() && State() == RejectTrie(old(State()), b)
    {
      db := db.Dereference(b.root);
    }

    method Stop()
      requires Valid()
      modifies this`db
      ensures Valid() && State() == Shutdown(old(State()))
    {
      var last := tipBuffer.Last();
      match last {
        case None =>
        case Some(r) => db := db.Commit(r);
      }
    }
  }
}
