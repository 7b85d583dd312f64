/** The block under construction: transactions are taken best first from two ordered lists and
    executed one by one until the gas or the transactions run out. */
module BlockBuilder {
  import opened Outcomes
  import opened Transactions
  import opened TxOrdering
  import opened Ledger
  import opened PredicateResults
  import opened StateTransition
  import Transition = StateTransition

  const TARGET_TXS_SIZE: nat := 1800 * 1024

  /** What the builder sees of the rest of the node: how a transaction meets the state, the
      predicates' verdict on it (missing if they cannot be checked), and the pool. */
  datatype World = World(
    task: (Tx, Balances, Results) -> Task,
    predicates: Tx -> Option<TxResults>,
    pool: map<Hash, Tx>)

  function Stripped(tx: Tx): Tx {
    if tx.isBlob then tx.(sidecar := None) else tx
  }

  /** Tasks are well-formed, the predicates do not look at blobs, and the pool is keyed by hash. */
  ghost predicate Sound(world: World) {
    && (forall tx :: world.predicates(Stripped(tx)) == world.predicates(tx))
    && (forall tx, b, r :: WellFormed(world.task(tx, b, r)))
    && (forall h :: h in world.pool ==> world.pool[h].hash == h)
  }

  function Resolve(world: World, ltx: LazyTx): Option<Tx> {
    if ltx.tx.Some? then ltx.tx
    else if ltx.hash in world.pool then Some(world.pool[ltx.hash])
    else None
  }

  // ------------------------------------------------------------- predicate results

  /** The results of a block whose transactions were recorded in order. */
  ghost function ResultsOf(world: World, isDurango: bool, txs: seq<Tx>): Results {
    if |txs| == 0 || !isDurango then map[] else
      var t := txs[|txs| - 1];
      var before := ResultsOf(world, isDurango, txs[..|txs| - 1]);
      SetTxResults(before, t.hash, Verdict(world, t))
  }

  function Verdict(world: World, tx: Tx): TxResults {
    if world.predicates(tx).Some? then world.predicates(tx).value else map[]
  }

  function Hashes(txs: seq<Tx>): set<Hash> { set t | t in txs :: t.hash }

  ghost predicate NoDuplicates(txs: seq<Tx>) {
    forall i, j :: 0 <= i < j < |txs| ==> txs[i].hash != txs[j].hash
  }

  lemma {:induction false} ResultsKeys(world: World, isDurango: bool, txs: seq<Tx>)
    ensures ResultsOf(world, isDurango, txs).Keys <= Hashes(txs)
  {
    if |txs| > 0 {
      var init := txs[..|txs| - 1];
      ResultsKeys(world, isDurango, init);
      assert txs[|txs| - 1].hash in Hashes(txs);
      forall h | h in Hashes(init) ensures h in Hashes(txs) {
        var t :| t in init && t.hash == h;
        assert t in txs;
      }
    }
  }

  /** In a block without duplicates, a transaction has results exactly if its predicates had
      something to say; by `ResultsKeys` nothing else has. */
  lemma {:induction false} ResultsExact(world: World, txs: seq<Tx>, i: nat)
    requires NoDuplicates(txs) && i < |txs|
    ensures var r, t := ResultsOf(world, true, txs), txs[i];
            if Verdict(world, t) == map[] then t.hash !in r else t.hash in r && r[t.hash] == Verdict(world, t)
  {
    var init := txs[..|txs| - 1];
    if i < |init| {
      ResultsExact(world, init, i);
    }
  }

  // ------------------------------------------------------------- the lists

  ghost predicate At(q: Queues, a: Address, i: nat, h: Hash) {
    a in q && i < |q[a]| && q[a][i].hash == h
  }

  ghost predicate Listed(q: Queues, h: Hash) {
    exists a, i: nat :: At(q, a, i, h)
  }

  /** No hash twice in a list, and a loaded transaction is the one its hash names. */
  ghost predicate WellListed(q: Queues) {
    && (forall a, i: nat, b, j: nat, h: Hash :: At(q, a, i, h) && At(q, b, j, h) ==> a == b && i == j)
    && (forall a, i: nat, h: Hash :: At(q, a, i, h) && q[a][i].tx.Some? ==> q[a][i].tx.value.hash == h)
  }

  /** A step takes the picked transaction off the list for good. */
  lemma StepUnlists(q: Queues, baseFee: Option<nat>, a: Address, shift: bool)
    requires WellListed(q) && a in q && |q[a]| > 0
    ensures var q' := After(q, baseFee, Step(a, shift));
            WellListed(q') && !Listed(q', q[a][0].hash) && forall h :: Listed(q', h) ==> Listed(q, h)
  {
    var q' := After(q, baseFee, Step(a, shift));
    assert At(q, a, 0, q[a][0].hash);
    forall b, i: nat, h: Hash | At(q', b, i, h)
      ensures At(q, b, Before(a, b, i), h) && q[b][Before(a, b, i)] == q'[b][i] && h != q[a][0].hash
    {
      EntryBefore(q, baseFee, a, shift, b, i, h);
    }
    forall b, i: nat, c, j: nat, h: Hash | At(q', b, i, h) && At(q', c, j, h) ensures b == c && i == j {
      assert At(q, b, Before(a, b, i), h) && At(q, c, Before(a, c, j), h);
    }
  }

  /** Where an entry was before the step. */
  function Before(a: Address, b: Address, i: nat): nat { if b == a then i + 1 else i }

  lemma EntryBefore(q: Queues, baseFee: Option<nat>, a: Address, shift: bool, b: Address, i: nat, h: Hash)
    requires WellListed(q) && a in q && |q[a]| > 0 && At(After(q, baseFee, Step(a, shift)), b, i, h)
    ensures At(q, b, Before(a, b, i), h) && q[b][Before(a, b, i)] == After(q, baseFee, Step(a, shift))[b][i]
    ensures h != q[a][0].hash
  {
    assert At(q, a, 0, q[a][0].hash);
    assert At(q, b, Before(a, b, i), h);
  }

  // ------------------------------------------------------------- the environment

  datatype BuildError = Failed(error: TxError) | PredicatesUnchecked | MaxBlobsReached | Panic

  datatype Outcome = Included | Stale | Skipped | Panicked

  ghost function PlainSize(txs: seq<Tx>): nat {
    if |txs| == 0 then 0 else
      PlainSize(txs[..|txs| - 1]) + if txs[|txs| - 1].isBlob then 0 else txs[|txs| - 1].size
  }

  function BlobGasOf(tx: Tx): nat { tx.blobs * BLOB_GAS_PER_BLOB }

  ghost function BlobGasUsed(txs: seq<Tx>): nat {
    if |txs| == 0 then 0 else
      BlobGasUsed(txs[..|txs| - 1]) + if txs[|txs| - 1].isBlob then BlobGasOf(txs[|txs| - 1]) else 0
  }

  ghost function Sum(s: seq<nat>): nat {
    if |s| == 0 then 0 else Sum(s[..|s| - 1]) + s[|s| - 1]
  }

  class Environment {
    const world: World
    const baseFee: nat
    const maxBlobs: nat
    const isDurango: bool
    const isEIP155: bool
    const gasPool: GasPool
    ghost const gasLimit: nat
    var state: Balances
    var gasUsed: nat
    var txs: seq<Tx>
    var receipts: seq<Receipt>
    var size: nat
    var sidecars: seq<nat>
    var blobs: nat
    var blobGasUsed: nat
    var results: Results
    var tcount: nat

    /** Gas is neither lost nor made: what the pool has left and the block has used is the
        block's limit, and the receipts add up to what was used. */
    ghost predicate GasBalanced()
      reads this`gasUsed, this`receipts, gasPool
    {
      && gasPool.gas + gasUsed == gasLimit <= MAX_UINT64
      && Cumulative(receipts) && gasUsed == GasOf(receipts)
    }

    /** The counters are those of the transactions in the block. */
    ghost predicate Booked()
      reads this`txs, this`receipts, this`size, this`sidecars, this`blobs, this`blobGasUsed
    {
      && |txs| == |receipts|
      && size == PlainSize(txs)
      && blobs == Sum(sidecars) <= maxBlobs
      && blobGasUsed == BlobGasUsed(txs)
    }

    ghost predicate Valid()
      reads this, gasPool
    {
      Sound(world) && Total(state) < TWO_256 && GasBalanced() && Booked()
    }

    constructor (world: World, baseFee: nat, maxBlobs: nat, isDurango: bool, isEIP155: bool, gasLimit: nat, state: Balances)
      requires Sound(world) && gasLimit <= MAX_UINT64 && Total(state) < TWO_256
      ensures Valid() && fresh(gasPool) && this.world == world && this.state == state && this.gasLimit == gasLimit
      ensures txs == [] && results == map[] && tcount == 0
    {
      this.world, this.baseFee, this.maxBlobs, this.isDurango, this.isEIP155 := world, baseFee, maxBlobs, isDurango, isEIP155;
      this.gasLimit := gasLimit;
      gasPool := new GasPool(gasLimit);
      this.state, gasUsed, txs, receipts, size, sidecars, blobs, blobGasUsed := state, 0, [], [], 0, [], 0, 0;
      results, tcount := map[], 0;
    }

    function RecordedResults(tx: Tx): Results
      reads this
    {
      if isDurango then SetTxResults(results, tx.hash, Verdict(world, tx)) else results
    }

    /** How the transaction meets the block's state. */
    function TaskOf(tx: Tx): Task
      reads this
    {
      world.task(tx, state, RecordedResults(tx))
    }

    /** The transaction can be executed here: its predicates can be checked and the state
        transition accepts it. */
    ghost predicate Executes(tx: Tx)
      reads this, gasPool
    {
      && (isDurango ==> world.predicates(tx).Some?)
      && var t := TaskOf(tx);
         Includable(TransactionToMessage(t.tx, Some(baseFee)), t.env, t.intrinsic, state, gasPool.gas)
    }

    /** The transaction's nonce is already used. */
    ghost predicate HasLowNonce(tx: Tx)
      reads this
    {
      && (isDurango ==> world.predicates(tx).Some?)
      && var t := TaskOf(tx);
         Checks(TransactionToMessage(t.tx, Some(baseFee)), t.env) == Some(NonceTooLow)
    }

    /** Executes the transaction, or puts everything back. Only results the transaction's own
        hash had before can be lost in a failure. */
    method ApplyTransaction(tx: Tx) returns (r: Result<ExecutionResult, BuildError>)
      requires Sound(world) && gasPool.gas <= MAX_UINT64 && Total(state) < TWO_256
      modifies this`state, this`gasUsed, this`results, gasPool
      ensures r.Ok? <==> old(Executes(tx))
      ensures r.Ok? ==> gasPool.gas + r.value.usedGas == old(gasPool.gas) && gasUsed == old(gasUsed) + r.value.usedGas
      ensures r.Ok? ==> results == old(RecordedResults(tx)) && Total(state) <= Total(old(state))
      ensures r.Ok? ==> Applied(old(TaskOf(tx)), baseFee, old(state), r.value, state)
      ensures r.Err? ==> gasPool.gas == old(gasPool.gas) && gasUsed == old(gasUsed) && state == old(state)
      ensures r.Err? ==> results == if r.error.PredicatesUnchecked? then old(results) else old(results) - {tx.hash}
      ensures r.Err? ==> r.error.Failed? || r.error.PredicatesUnchecked?
      ensures r == Err(Failed(NonceTooLow)) <==> old(HasLowNonce(tx))
    {
      var snap, gas := state, gasPool.gas;
      if isDurango {
        var checked := world.predicates(tx);
        if checked.None? {
          return Err(PredicatesUnchecked);
        }
        results := SetTxResults(results, tx.hash, checked.value);
      }
      var done, after := Transition.ApplyTransaction(gasPool, world.task(tx, state, results), baseFee, state);
      state := after;
      if done.Err? {
        state := snap;
        gasPool.SetGas(gas);
        results := DeleteTxResults(results, tx.hash);
        return Err(Failed(done.error));
      }
      gasUsed := gasUsed + done.value.usedGas;
      r := Ok(done.value);
    }

    /** The transaction may be committed: it executes, and a blob transaction's blobs still fit. */
    ghost predicate Commits(tx: Tx)
      reads this, gasPool
    {
      Executes(tx) && BlobsFit(tx, blobs)
    }

    predicate BlobsFit(tx: Tx, blobs: nat) {
      tx.isBlob ==> tx.sidecar.Some? && blobs + tx.sidecar.value <= maxBlobs
    }

    /** Puts an executed transaction into the block: a blob transaction without its blobs,
        which are kept beside it, and only a plain one with its size. */
    method Book(tx: Tx, done: ExecutionResult)
      requires Cumulative(receipts) && gasUsed == GasOf(receipts) + done.usedGas
      requires Booked() && BlobsFit(tx, blobs)
      modifies this`txs, this`receipts, this`size, this`sidecars, this`blobs, this`blobGasUsed
      ensures Cumulative(receipts) && gasUsed == GasOf(receipts) && Booked()
      ensures txs == old(txs) + [Stripped(tx)]
      ensures receipts == old(receipts) + [Receipt(done.usedGas, gasUsed, done.failed)]
      ensures sidecars == old(sidecars) + if tx.isBlob then [tx.sidecar.value] else []
    {
      var receipt := Receipt(done.usedGas, gasUsed, done.failed);
      CumulativeAppend(receipts, receipt);
      assert (txs + [Stripped(tx)])[..|txs|] == txs;
      txs := txs + [Stripped(tx)];
      receipts := receipts + [receipt];
      if tx.isBlob {
        assert (sidecars + [tx.sidecar.value])[..|sidecars|] == sidecars;
        sidecars := sidecars + [tx.sidecar.value];
        blobs := blobs + tx.sidecar.value;
        blobGasUsed := blobGasUsed + BlobGasOf(tx);
      } else {
        size := size + tx.size;
      }
    }

    /** Executes the transaction and, if that succeeds, puts it into the block. */
    method ApplyAndBook(tx: Tx) returns (r: Result<(), BuildError>)
      requires Valid() && BlobsFit(tx, blobs)
      modifies this`state, this`gasUsed, this`results, this`txs, this`receipts, this`size
      modifies this`sidecars, this`blobs, this`blobGasUsed, gasPool
      ensures Valid()
      ensures r.Ok? <==> old(Executes(tx))
      ensures r == Err(Failed(NonceTooLow)) <==> old(HasLowNonce(tx))
      ensures r.Err? ==> r.error.Failed? || r.error.PredicatesUnchecked?
      ensures r.Ok? ==> txs == old(txs) + [Stripped(tx)] && results == old(RecordedResults(tx))
      ensures r.Ok? ==> sidecars == old(sidecars) + if tx.isBlob then [tx.sidecar.value] else []
      ensures r.Err? ==> gasPool.gas == old(gasPool.gas) && unchanged(`state, `gasUsed, `txs, `receipts, `size, `sidecars, `blobs, `blobGasUsed)
      ensures r.Err? ==> results == old(results) || results == old(results) - {tx.hash}
    {
      var done := ApplyTransaction(tx);
      if done.Err? {
        return Err(done.error);
      }
      Book(tx, done.value);
      r := Ok(());
    }

    /** Commits the transaction with its receipt, or leaves the block as it was. */
    method CommitTransaction(tx: Tx) returns (r: Result<(), BuildError>)
      requires Valid()
      modifies this`state, this`gasUsed, this`results, this`txs, this`receipts, this`size
      modifies this`sidecars, this`blobs, this`blobGasUsed, gasPool
      ensures Valid()
      ensures r.Ok? <==> old(Commits(tx))
      ensures r == Err(Panic) <==> tx.isBlob && tx.sidecar.None?
      ensures r == Err(Failed(NonceTooLow)) <==> BlobsFit(tx, old(blobs)) && old(HasLowNonce(tx))
      ensures r.Ok? ==> txs == old(txs) + [Stripped(tx)] && results == old(RecordedResults(tx))
      ensures r.Ok? ==> sidecars == old(sidecars) + if tx.isBlob then [tx.sidecar.value] else []
      ensures r.Err? ==> gasPool.gas == old(gasPool.gas) && unchanged(`state, `gasUsed, `txs, `receipts, `size, `sidecars, `blobs, `blobGasUsed)
      ensures r.Err? ==> results == old(results) || results == old(results) - {tx.hash}
    {
      if tx.isBlob {
        if tx.sidecar.None? {
          return Err(Panic);
        }
        if blobs + tx.sidecar.value > maxBlobs {
          return Err(MaxBlobsReached);
        }
      }
      r := ApplyAndBook(tx);
    }

    /** Nothing rules the transaction out before it is executed. */
    ghost predicate Fits(ltx: LazyTx)
      reads this, gasPool
    {
      && ltx.gas <= gasPool.gas
      && (ltx.tx.Some? && ltx.tx.value.isBlob ==> blobs + ltx.tx.value.blobs <= maxBlobs)
      && Resolve(world, ltx).Some?
      && var tx := Resolve(world, ltx).value;
         size + tx.size <= TARGET_TXS_SIZE && (tx.protected ==> isEIP155)
    }

    /** Tries the next transaction. It is included exactly if it fits and commits; otherwise
        the block stays as it was. */
    method TryNext(ltx: LazyTx) returns (outcome: Outcome)
      requires Valid() && size <= TARGET_TXS_SIZE
      modifies this, gasPool
      ensures Valid() && size <= TARGET_TXS_SIZE
      ensures outcome.Included? <==> old(Fits(ltx)) && old(Commits(Resolve(world, ltx).value))
      ensures outcome.Stale? <==> old(Fits(ltx)) && var tx := Resolve(world, ltx).value; BlobsFit(tx, old(blobs)) && old(HasLowNonce(tx))
      ensures outcome.Included? ==> var tx := Resolve(world, ltx).value;
                txs == old(txs) + [Stripped(tx)] && results == old(RecordedResults(tx)) && tcount == old(tcount) + 1
      ensures !outcome.Included? ==> gasPool.gas == old(gasPool.gas) && unchanged(`state, `gasUsed, `txs, `receipts, `size, `sidecars, `blobs, `blobGasUsed, `tcount)
      ensures !outcome.Included? ==> results == old(results) || (Resolve(world, ltx).Some? && results == old(results) - {Resolve(world, ltx).value.hash})
    {
      if gasPool.gas < ltx.gas {
        return Skipped;
      }
      if ltx.tx.Some? && ltx.tx.value.isBlob && ltx.tx.value.blobs > 0 && maxBlobs - blobs < ltx.tx.value.blobs {
        return Skipped;
      }
      var resolved := Resolve(world, ltx);
      if resolved.None? {
        return Skipped;
      }
      var tx := resolved.value;
      if size + tx.size > TARGET_TXS_SIZE {
        return Skipped;
      }
      if tx.protected && !isEIP155 {
        return Skipped;
      }
      var done := CommitTransaction(tx);
      match done {
        case Ok(_) =>
          tcount := tcount + 1;
          outcome := Included;
        case Err(error) =>
          outcome := if error == Panic then Panicked else if error == Failed(NonceTooLow) then Stale else Skipped;
      }
    }

    /** The block is as it should be between two attempts: nothing is in it twice and the
        results are exactly those of its transactions. */
    ghost predicate Consistent()
      reads this, gasPool
    {
      && Valid() && size <= TARGET_TXS_SIZE && tcount == |txs|
      && NoDuplicates(txs) && results == ResultsOf(world, isDurango, txs)
    }

    /** An attempt at a transaction not yet in the block keeps the block consistent. */
    method TryNew(ltx: LazyTx) returns (outcome: Outcome)
      requires Consistent() && ltx.hash !in Hashes(txs)
      requires ltx.tx.Some? ==> ltx.tx.value.hash == ltx.hash
      modifies this, gasPool
      ensures Consistent() && old(txs) <= txs && Hashes(txs) <= Hashes(old(txs)) + {ltx.hash}
      ensures outcome.Included? <==> |txs| > |old(txs)|
    {
      ghost var before := txs;
      ResultsKeys(world, isDurango, txs);
      outcome := TryNext(ltx);
      if outcome.Included? {
        RecordNew(world, isDurango, before, Resolve(world, ltx).value);
      }
    }

    /** Tries the best transaction of a list, then takes it off: with all later ones of its
        account unless it went in or was stale. */
    method Attempt(list: TransactionsByPriceAndNonce, ghost other: Queues, ltx: LazyTx) returns (outcome: Outcome)
      requires Consistent() && list.Valid() && Unmixed(list.queues, other, txs)
      requires |list.heads| > 0 && list.heads[0].from in list.queues && ltx == list.queues[list.heads[0].from][0]
      modifies this, gasPool, list
      ensures Consistent() && list.Valid() && old(txs) <= txs
      ensures outcome.Included? <==> |txs| > |old(txs)|
      ensures !outcome.Panicked? ==>
                && list.queues == After(old(list.queues), list.baseFee, Step(old(list.heads)[0].from, !outcome.Skipped?))
                && Unmixed(list.queues, other, txs) && Count(list.queues) < old(Count(list.queues))
    {
      ghost var q, before, a := list.queues, txs, list.heads[0].from;
      assert At(q, a, 0, ltx.hash);
      outcome := TryNew(ltx);
      if outcome.Panicked? {
        return;
      }
      if outcome.Skipped? {
        list.Pop();
        UnmixedStep(q, other, before, txs, list.baseFee, a, false);
      } else {
        list.Shift();
        UnmixedStep(q, other, before, txs, list.baseFee, a, true);
      }
    }

    /** Fills the block. It ends with too little gas for any transaction or with both lists
        used up; all along the books balance, no transaction is in twice, and the predicate
        results are those of the block's transactions. */
    method CommitTransactions(plain: TransactionsByPriceAndNonce, blob: TransactionsByPriceAndNonce) returns (panicked: bool)
      requires Consistent()
      requires plain != blob && plain.Valid() && blob.Valid() && Unmixed(plain.queues, blob.queues, txs)
      modifies this, gasPool, plain, blob
      ensures Consistent() && old(txs) <= txs
      ensures panicked || gasPool.gas < TX_GAS || (plain.queues == map[] && blob.queues == map[])
    {
      while true
        invariant Consistent() && old(txs) <= txs
        invariant plain.Valid() && blob.Valid() && Unmixed(plain.queues, blob.queues, txs)
        decreases Count(plain.queues) + Count(blob.queues)
      {
        if gasPool.gas < TX_GAS {
          return false;
        }
        SkipBlobs(plain.queues, blob);
        var more := AttemptBest(plain, blob);
        if more != Some(false) {
          return more.Some?;
        }
      }
    }

    /** Without room for another blob, the blob transactions are left out altogether. */
    method SkipBlobs(ghost plain: Queues, blob: TransactionsByPriceAndNonce)
      requires blob.Valid() && Unmixed(plain, blob.queues, txs)
      modifies blob
      ensures blob.Valid() && Unmixed(plain, blob.queues, txs) && Count(blob.queues) <= old(Count(blob.queues))
      ensures blob.queues == if blobs >= maxBlobs then map[] else old(blob.queues)
    {
      if |blob.heads| > 0 && blobs >= maxBlobs {
        UnmixedClear(plain, blob.queues, txs);
        blob.Clear();
      } else if |blob.heads| == 0 {
        EmptyHeap(blob.heads, blob.txs, blob.baseFee, blob.queues);
      }
    }

    /** Tries the best transaction of either list, if there is one; `Some(true)` is a panic. */
    method AttemptBest(plain: TransactionsByPriceAndNonce, blob: TransactionsByPriceAndNonce) returns (r: Option<bool>)
      requires Consistent()
      requires plain != blob && plain.Valid() && blob.Valid() && Unmixed(plain.queues, blob.queues, txs)
      modifies this, gasPool, plain, blob
      ensures Consistent() && old(txs) <= txs && plain.Valid() && blob.Valid()
      ensures r == None <==> old(plain.queues) == map[] && old(blob.queues) == map[]
      ensures r == None ==> plain.queues == map[] && blob.queues == map[]
      ensures r == Some(false) ==> Unmixed(plain.queues, blob.queues, txs)
      ensures r == Some(false) ==> Count(plain.queues) + Count(blob.queues) < old(Count(plain.queues) + Count(blob.queues))
    {
      var choice := Choose(plain, blob);
      if choice.None? {
        return None;
      }
      var outcome;
      if choice.value.0 {
        UnmixedSwap(plain.queues, blob.queues, txs);
        outcome := Attempt(blob, plain.queues, choice.value.1);
        UnmixedSwap(blob.queues, plain.queues, txs);
      } else {
        outcome := Attempt(plain, blob.queues, choice.value.1);
      }
      r := Some(outcome.Panicked?);
    }
  }

  /** What including a new transaction does to the block's results. */
  lemma RecordNew(world: World, isDurango: bool, txs: seq<Tx>, tx: Tx)
    requires Sound(world) && tx.hash !in Hashes(txs) && NoDuplicates(txs)
    ensures var all := txs + [Stripped(tx)];
            && NoDuplicates(all) && Hashes(all) == Hashes(txs) + {tx.hash}
            && ResultsOf(world, isDurango, all)
               == if isDurango then SetTxResults(ResultsOf(world, isDurango, txs), tx.hash, Verdict(world, tx)) else map[]
  {
    var all := txs + [Stripped(tx)];
    assert all[..|txs|] == txs;
    forall i | 0 <= i < |txs| ensures all[i].hash != tx.hash {
      assert txs[i] in txs;
    }
    assert all[|txs|] in all;
    forall h | h in Hashes(txs) ensures h in Hashes(all) {
      var t :| t in txs && t.hash == h;
      assert t in all;
    }
  }

  /** Both lists are in order, have nothing in common, and list nothing already in the block. */
  ghost predicate Unmixed(p: Queues, b: Queues, txs: seq<Tx>) {
    && WellListed(p) && WellListed(b) && NoDuplicates(txs)
    && (forall h :: Listed(p, h) ==> !Listed(b, h) && h !in Hashes(txs))
    && (forall h :: Listed(b, h) ==> h !in Hashes(txs))
  }

  lemma UnmixedSwap(p: Queues, b: Queues, txs: seq<Tx>)
    ensures Unmixed(p, b, txs) ==> Unmixed(b, p, txs)
  {
  }

  lemma UnmixedClear(p: Queues, b: Queues, txs: seq<Tx>)
    requires Unmixed(p, b, txs)
    ensures Unmixed(p, map[], txs)
  {
  }

  lemma UnmixedStep(q: Queues, other: Queues, txs: seq<Tx>, after: seq<Tx>, baseFee: Option<nat>, a: Address, shift: bool)
    requires Unmixed(q, other, txs) && a in q && |q[a]| > 0
    requires NoDuplicates(after) && Hashes(after) <= Hashes(txs) + {q[a][0].hash}
    ensures Unmixed(After(q, baseFee, Step(a, shift)), other, after)
  {
    StepUnlists(q, baseFee, a, shift);
    assert At(q, a, 0, q[a][0].hash);
  }

  /** The next transaction is one that pays the miner the most; a plain one if equal. */
  method Choose(plain: TransactionsByPriceAndNonce, blob: TransactionsByPriceAndNonce) returns (r: Option<(bool, LazyTx)>)
    requires plain.Valid() && blob.Valid()
    ensures r.None? <==> plain.queues == map[] && blob.queues == map[]
    ensures r.Some? ==> var list := if r.value.0 then blob else plain;
              && |list.heads| > 0 && Best(list.queues, list.baseFee, list.heads[0].from)
              && r.value.1 == list.queues[list.heads[0].from][0]
    ensures r.Some? ==> var list, other := if r.value.0 then blob else plain, if r.value.0 then plain else blob;
              forall a :: a in other.queues ==>
                var f, g := MinerFee(r.value.1, list.baseFee).value, MinerFee(other.queues[a][0], other.baseFee).value;
                if r.value.0 then f > g else f >= g
  {
    var p := plain.Peek();
    var b := blob.Peek();
    if p.None? && b.None? {
      return None;
    } else if p.None? {
      return Some((true, b.value.0));
    } else if b.None? {
      return Some((false, p.value.0));
    } else if p.value.1 < b.value.1 {
      BestPaysMost(plain.queues, plain.baseFee, plain.heads[0].from);
      return Some((true, b.value.0));
    } else {
      BestPaysMost(blob.queues, blob.baseFee, blob.heads[0].from);
      return Some((false, p.value.0));
    }
  }

  lemma BestPaysMost(q: Queues, baseFee: Option<nat>, a: Address)
    requires ValidQueues(q, baseFee) && Best(q, baseFee, a)
    ensures forall c :: c in q ==> MinerFee(q[c][0], baseFee).value <= MinerFee(q[a][0], baseFee).value
  {
    forall c | c in q ensures MinerFee(q[c][0], baseFee).value <= MinerFee(q[a][0], baseFee).value {
      assert !Less(HeadOf(q, baseFee, c), HeadOf(q, baseFee, a));
    }
  }
}
