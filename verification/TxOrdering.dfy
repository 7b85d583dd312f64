/** Transactions as the pool hands them to the block builder, and the fee a miner gets. */
module Transactions {
  import opened Outcomes
  import opened Wire

  type Address = nat

  type Hash = seq<byte>

  /** A pooled transaction; `blobs` counts its blob hashes, `sidecar` the blobs beside it. */
  datatype Tx = Tx(hash: Hash, isBlob: bool, blobs: nat, sidecar: Option<nat>, size: nat, protected: bool)

  /** The pool's light view of it: `tx` is there only if it is already loaded. */
  datatype LazyTx = LazyTx(hash: Hash, time: int, gasFeeCap: nat, gasTipCap: nat, gas: nat, tx: Option<Tx>)

  /** The price a transaction pays per gas when the block has a base fee: the tip on top of
      the base fee, but never more than its cap. */
  function EffectiveGasPrice(gasTipCap: nat, gasFeeCap: nat, baseFee: nat): nat {
    if gasTipCap + baseFee > gasFeeCap then gasFeeCap else gasTipCap + baseFee
  }

  /** The miner's share, or nothing if the cap does not even cover the base fee. */
  function MinerFee(tx: LazyTx, baseFee: Option<nat>): Option<nat> {
    match baseFee
    case None => Some(tx.gasTipCap)
    case Some(b) =>
      if tx.gasFeeCap < b then None
      else if tx.gasFeeCap - b > tx.gasTipCap then Some(tx.gasTipCap)
      else Some(tx.gasFeeCap - b)
  }

  /** The miner's share is exactly what the execution pays above the base fee. */
  lemma MinerFeeIsEffectivePrice(tx: LazyTx, baseFee: nat)
    ensures MinerFee(tx, Some(baseFee)).Some? <==> baseFee <= EffectiveGasPrice(tx.gasTipCap, tx.gasFeeCap, baseFee)
    ensures MinerFee(tx, Some(baseFee)).Some? ==>
              MinerFee(tx, Some(baseFee)).value == EffectiveGasPrice(tx.gasTipCap, tx.gasFeeCap, baseFee) - baseFee
  {
  }
}

/** The transactions of many accounts in order of price, honouring each account's nonces:
    a binary heap of the accounts' next transactions, best first. */
module TxOrdering {
  import opened Outcomes
  import opened Transactions

  datatype Head = Head(tx: LazyTx, from: Address, fees: nat)

  /** `a` comes before `b`: a higher fee, or the same fee and seen earlier. */
  predicate Less(a: Head, b: Head) {
    a.fees > b.fees || (a.fees == b.fees && a.tx.time < b.tx.time)
  }

  function Above(j: int): int { (j - 1) / 2 }

  /** The element at `j` does not beat the one above it. */
  ghost predicate Settled(s: seq<Head>, j: int) {
    0 < j < |s| && !Less(s[j], s[Above(j)])
  }

  /** In a heap of `n`, the children of every node from `lo` on are settled. */
  ghost predicate HeapFrom(s: seq<Head>, lo: int, n: int) {
    forall j {:trigger Settled(s, j)} :: 0 < j < n && lo <= Above(j) ==> Settled(s, j)
  }

  lemma {:induction false} RootIsBest(s: seq<Head>, k: nat)
    requires HeapFrom(s, 0, |s|) && k < |s|
    ensures !Less(s[k], s[0])
  {
    if k > 0 {
      assert Settled(s, k);
      RootIsBest(s, Above(k));
    }
  }

  function Swap(s: seq<Head>, i: nat, j: nat): (r: seq<Head>)
    requires i < |s| && j < |s|
    ensures multiset(r) == multiset(s)
  {
    s[i := s[j]][j := s[i]]
  }

  /** Everything from `i0` on is settled but the children of `i`, and those do not beat the
      element above `i`. */
  ghost predicate Sinking(s: seq<Head>, i0: nat, i: nat, n: nat)
    requires n <= |s| && (i0 < i ==> i <= |s|)
  {
    && (forall j {:trigger Settled(s, j)} :: 0 < j < n && i0 <= Above(j) != i ==> Settled(s, j))
    && (i0 < i ==> forall j {:trigger s[j]} :: 0 < j < n && Above(j) == i ==> !Less(s[j], s[Above(i)]))
  }

  /** Sinks the element at `i0` in the heap made of the first `n` elements. */
  method Down(s: seq<Head>, i0: nat, n: nat) returns (r: seq<Head>)
    requires n <= |s| && HeapFrom(s, i0 + 1, n)
    ensures |r| == |s| && multiset(r) == multiset(s) && r[n..] == s[n..]
    ensures HeapFrom(r, i0, n)
  {
    var i := i0;
    r := s;
    while 2 * i + 1 < n
      invariant i0 <= i && (i0 < i ==> i0 <= Above(i) && i < n)
      invariant |r| == |s| && multiset(r) == multiset(s) && r[n..] == s[n..]
      invariant Sinking(r, i0, i, n)
      decreases n - i
    {
      var j := 2 * i + 1;
      if j + 1 < n && Less(r[j + 1], r[j]) {
        j := j + 1;
      }
      if !Less(r[j], r[i]) {
        SinkDone(r, i0, i, j, n);
        return;
      }
      SinkStep(r, i0, i, j, n);
      r := Swap(r, i, j);
      i := j;
    }
  }

  lemma SinkDone(s: seq<Head>, i0: nat, i: nat, j: nat, n: nat)
    requires n <= |s| && i0 <= i < n && Sinking(s, i0, i, n)
    requires 0 < j < n && Above(j) == i && !Less(s[j], s[i])
    requires forall k :: 0 < k < n && Above(k) == i ==> !Less(s[k], s[j])
    ensures HeapFrom(s, i0, n)
  {
    forall k | 0 < k < n && i0 <= Above(k) ensures Settled(s, k) {
      if Above(k) == i {
        assert !Less(s[k], s[j]);
      }
    }
  }

  lemma SinkStep(s: seq<Head>, i0: nat, i: nat, j: nat, n: nat)
    requires n <= |s| && i0 <= i < n && (i0 < i ==> i0 <= Above(i)) && Sinking(s, i0, i, n)
    requires 0 < j < n && Above(j) == i && Less(s[j], s[i])
    requires forall k :: 0 < k < n && Above(k) == i ==> !Less(s[k], s[j])
    ensures Sinking(Swap(s, i, j), i0, j, n)
  {
    var t := Swap(s, i, j);
    forall k | 0 < k < n && i0 <= Above(k) != j ensures Settled(t, k) {
      if k == i {
        assert !Less(s[j], s[Above(i)]);
      } else if Above(k) == i {
        assert !Less(s[k], s[j]);
      } else {
        assert Settled(s, k);
      }
    }
    forall k | 0 < k < n && Above(k) == j ensures !Less(t[k], t[Above(j)]) {
      assert Settled(s, k);
    }
  }

  method InitHeap(s: seq<Head>) returns (r: seq<Head>)
    ensures multiset(r) == multiset(s) && HeapFrom(r, 0, |r|)
  {
    r := s;
    var i := |s| / 2 - 1;
    while i >= 0
      invariant -1 <= i <= |s| / 2 - 1 && |r| == |s|
      invariant multiset(r) == multiset(s) && HeapFrom(r, i + 1, |r|)
    {
      r := Down(r, i, |r|);
      i := i - 1;
    }
  }

  /** Removes the best element. */
  method PopHeap(s: seq<Head>) returns (r: seq<Head>)
    requires |s| > 0 && HeapFrom(s, 0, |s|)
    ensures multiset(r) == multiset(s) - multiset{s[0]} && HeapFrom(r, 0, |r|)
  {
    var n := |s| - 1;
    var t := Swap(s, 0, n);
    forall j | 0 < j < n && 1 <= Above(j) ensures Settled(t, j) {
      assert Settled(s, j);
    }
    var u := Down(t, 0, n);
    r := u[..n];
    forall j | 0 < j < n ensures Settled(r, j) {
      assert Settled(u, j);
    }
    assert u[n..] == [s[0]];
    assert u == r + [s[0]];
  }

  // ------------------------------------------------------------ accounts and their queues

  /** What is left of each account, next transaction first. */
  type Queues = map<Address, seq<LazyTx>>

  ghost predicate ValidQueues(q: Queues, baseFee: Option<nat>) {
    forall a :: a in q ==> |q[a]| > 0 && MinerFee(q[a][0], baseFee).Some?
  }

  function HeadOf(q: Queues, baseFee: Option<nat>, a: Address): Head
    requires a in q && |q[a]| > 0 && MinerFee(q[a][0], baseFee).Some?
  {
    Head(q[a][0], a, MinerFee(q[a][0], baseFee).value)
  }

  /** No other account's next transaction beats that of `a`. */
  ghost predicate Best(q: Queues, baseFee: Option<nat>, a: Address)
    requires ValidQueues(q, baseFee)
  {
    a in q && forall b :: b in q ==> !Less(HeadOf(q, baseFee, b), HeadOf(q, baseFee, a))
  }

  /** The accounts whose first transaction can pay, with all their transactions. */
  function Affordable(txs: Queues, baseFee: Option<nat>): Queues
    requires forall a :: a in txs ==> |txs[a]| > 0
  {
    map a | a in txs && MinerFee(txs[a][0], baseFee).Some? :: txs[a]
  }

  /** The account moves on to its next transaction, or is dropped if that one cannot pay. */
  function Shifted(q: Queues, baseFee: Option<nat>, a: Address): Queues
    requires a in q && |q[a]| > 0
  {
    if |q[a]| > 1 && MinerFee(q[a][1], baseFee).Some? then q[a := q[a][1..]] else q - {a}
  }

  /** How many transactions are left. */
  ghost function Count(q: Queues): nat {
    if q == map[] then 0 else
      var a :| a in q;
      |q[a]| + Count(q - {a})
  }

  lemma {:induction false} CountRemove(q: Queues, b: Address)
    requires b in q
    ensures Count(q) == |q[b]| + Count(q - {b})
    decreases |q|
  {
    var a :| a in q && Count(q) == |q[a]| + Count(q - {a});
    if a != b {
      CountRemove(q - {a}, b);
      CountRemove(q - {b}, a);
      assert q - {a} - {b} == q - {b} - {a};
    }
  }

  lemma CountAfter(q: Queues, baseFee: Option<nat>, step: Step)
    requires step.pick in q && |q[step.pick]| > 0
    ensures Count(After(q, baseFee, step)) < Count(q)
  {
    var a, q' := step.pick, After(q, baseFee, step);
    CountRemove(q, a);
    if a in q' {
      CountRemove(q', a);
      assert q' - {a} == q - {a};
    }
  }

  // ------------------------------------------------------------ whole runs

  /** One step of a consumer: it sees account `pick` on top and shifts or pops it. */
  datatype Step = Step(pick: Address, shift: bool)

  function After(q: Queues, baseFee: Option<nat>, step: Step): Queues {
    if step.shift && step.pick in q && |q[step.pick]| > 0 then Shifted(q, baseFee, step.pick) else q - {step.pick}
  }

  ghost predicate StepAt(baseFee: Option<nat>, run: seq<Queues>, steps: seq<Step>, i: int) {
    && 0 <= i < |steps| && |run| == |steps| + 1
    && ValidQueues(run[i], baseFee) && Best(run[i], baseFee, steps[i].pick)
    && run[i + 1] == After(run[i], baseFee, steps[i])
  }

  ghost predicate IsRun(txs: Queues, baseFee: Option<nat>, run: seq<Queues>, steps: seq<Step>)
    requires forall a :: a in txs ==> |txs[a]| > 0
  {
    && |run| == |steps| + 1 && run[0] == Affordable(txs, baseFee)
    && forall i :: 0 <= i < |steps| ==> StepAt(baseFee, run, steps, i)
  }

  /** The transactions of `a` returned in the first `n` steps. */
  ghost function Returned(run: seq<Queues>, steps: seq<Step>, a: Address, n: nat): seq<LazyTx>
    requires n <= |steps| && |run| == |steps| + 1
    requires forall i :: 0 <= i < n ==> steps[i].pick in run[i] && |run[i][steps[i].pick]| > 0
  {
    if n == 0 then []
    else if steps[n - 1].pick == a then Returned(run, steps, a, n - 1) + [run[n - 1][a][0]]
    else Returned(run, steps, a, n - 1)
  }

  lemma RunPicks(txs: Queues, baseFee: Option<nat>, run: seq<Queues>, steps: seq<Step>)
    requires (forall a :: a in txs ==> |txs[a]| > 0) && IsRun(txs, baseFee, run, steps)
    ensures forall i :: 0 <= i < |steps| ==> steps[i].pick in run[i] && |run[i][steps[i].pick]| > 0
  {
    forall i | 0 <= i < |steps| ensures steps[i].pick in run[i] && |run[i][steps[i].pick]| > 0 {
      assert StepAt(baseFee, run, steps, i);
    }
  }

  /** For every sequence of shifts and pops an account's transactions come out as a prefix
      of its input, in order; while the account is in play the rest is still queued. */
  lemma {:induction false} InOrder(txs: Queues, baseFee: Option<nat>, run: seq<Queues>, steps: seq<Step>, a: Address, n: nat)
    requires (forall a :: a in txs ==> |txs[a]| > 0) && IsRun(txs, baseFee, run, steps) && n <= |steps|
    requires forall i :: 0 <= i < |steps| ==> steps[i].pick in run[i] && |run[i][steps[i].pick]| > 0
    ensures a !in txs ==> a !in run[n] && Returned(run, steps, a, n) == []
    ensures a in txs ==> Returned(run, steps, a, n) <= txs[a]
    ensures a in run[n] ==> a in txs && Returned(run, steps, a, n) + run[n][a] == txs[a]
    decreases n
  {
    if n > 0 {
      InOrder(txs, baseFee, run, steps, a, n - 1);
      assert StepAt(baseFee, run, steps, n - 1);
      if steps[n - 1].pick == a {
        var before, q := Returned(run, steps, a, n - 1), run[n - 1][a];
        assert before + q == (before + [q[0]]) + q[1..];
      }
    }
  }

  /** The i-th transaction returned is the one at that account's current position, and each
      return of an account moves its position up: none is returned twice. */
  lemma NoneTwice(txs: Queues, baseFee: Option<nat>, run: seq<Queues>, steps: seq<Step>, i: nat, j: nat)
    requires (forall a :: a in txs ==> |txs[a]| > 0) && IsRun(txs, baseFee, run, steps) && i < j < |steps|
    requires forall i :: 0 <= i < |steps| ==> steps[i].pick in run[i] && |run[i][steps[i].pick]| > 0
    requires steps[i].pick == steps[j].pick
    ensures var a := steps[i].pick;
            var k, l := |Returned(run, steps, a, i)|, |Returned(run, steps, a, j)|;
            a in txs && k < l < |txs[a]| && run[i][a][0] == txs[a][k] && run[j][a][0] == txs[a][l]
  {
    var a := steps[i].pick;
    InOrder(txs, baseFee, run, steps, a, i);
    InOrder(txs, baseFee, run, steps, a, j);
    ReturnedGrows(run, steps, a, i + 1, j);
  }

  lemma {:induction false} ReturnedGrows(run: seq<Queues>, steps: seq<Step>, a: Address, i: nat, j: nat)
    requires i <= j <= |steps| && |run| == |steps| + 1
    requires forall i :: 0 <= i < |steps| ==> steps[i].pick in run[i] && |run[i][steps[i].pick]| > 0
    ensures |Returned(run, steps, a, i)| <= |Returned(run, steps, a, j)|
    decreases j
  {
    if i < j {
      ReturnedGrows(run, steps, a, i, j - 1);
    }
  }

  // ------------------------------------------------------------ the transaction set

  function Rest(txs: Queues, a: Address): seq<LazyTx> {
    if a in txs then txs[a] else []
  }

  ghost function HeadSet(q: Queues, baseFee: Option<nat>): set<Head>
    requires ValidQueues(q, baseFee)
  {
    set a | a in q :: HeadOf(q, baseFee, a)
  }

  /** The heap holds exactly one head for each account in play, and with the account's
      remaining list it makes up the account's queue. */
  ghost predicate Represents(heads: seq<Head>, txs: Queues, baseFee: Option<nat>, q: Queues) {
    && ValidQueues(q, baseFee)
    && multiset(heads) == multiset(HeadSet(q, baseFee))
    && forall a :: a in q ==> q[a][1..] == Rest(txs, a)
  }

  lemma InHeadSet(q: Queues, baseFee: Option<nat>, h: Head)
    requires ValidQueues(q, baseFee)
    ensures h in HeadSet(q, baseFee) <==> h.from in q && h == HeadOf(q, baseFee, h.from)
  {
  }

  lemma HeadSetRemove(q: Queues, baseFee: Option<nat>, a: Address)
    requires ValidQueues(q, baseFee) && a in q
    ensures multiset(HeadSet(q, baseFee)) == multiset(HeadSet(q - {a}, baseFee)) + multiset{HeadOf(q, baseFee, a)}
  {
    forall h ensures h in HeadSet(q, baseFee) <==> h in HeadSet(q - {a}, baseFee) + {HeadOf(q, baseFee, a)} {
      InHeadSet(q, baseFee, h);
      InHeadSet(q - {a}, baseFee, h);
    }
    InHeadSet(q - {a}, baseFee, HeadOf(q, baseFee, a));
    SetWith(HeadSet(q - {a}, baseFee), HeadOf(q, baseFee, a));
    assert HeadSet(q, baseFee) == HeadSet(q - {a}, baseFee) + {HeadOf(q, baseFee, a)};
  }

  lemma SetWith(s: set<Head>, h: Head)
    requires h !in s
    ensures multiset(s + {h}) == multiset(s) + multiset{h}
  {
  }

  /** Exchanging the first of a list of heads. */
  lemma FirstExchanged(heads: seq<Head>, next: Head, others: multiset<Head>)
    requires |heads| > 0 && multiset(heads) == others + multiset{heads[0]}
    ensures multiset(heads[0 := next]) == others + multiset{next}
  {
    assert heads == [heads[0]] + heads[1..];
    assert heads[0 := next] == [next] + heads[1..];
  }

  lemma HeadInPlay(heads: seq<Head>, txs: Queues, baseFee: Option<nat>, q: Queues, h: Head)
    requires Represents(heads, txs, baseFee, q)
    ensures h in heads <==> h.from in q && h == HeadOf(q, baseFee, h.from)
  {
    assert h in heads <==> h in multiset(heads);
    InHeadSet(q, baseFee, h);
  }

  lemma Dropped(heads: seq<Head>, heads': seq<Head>, txs: Queues, baseFee: Option<nat>, q: Queues, h: Head)
    requires Represents(heads, txs, baseFee, q) && h in heads && multiset(heads') == multiset(heads) - multiset{h}
    ensures Represents(heads', txs, baseFee, q - {h.from})
  {
    HeadInPlay(heads, txs, baseFee, q, h);
    HeadSetRemove(q, baseFee, h.from);
  }

  ghost predicate NextOf(txs: Queues, baseFee: Option<nat>, a: Address, next: Head) {
    && next.from == a && a in txs && |txs[a]| > 0
    && next.tx == txs[a][0] && MinerFee(next.tx, baseFee) == Some(next.fees)
  }

  lemma Replaced(heads: seq<Head>, txs: Queues, baseFee: Option<nat>, q: Queues, a: Address, next: Head)
    requires Represents(heads, txs, baseFee, q) && |heads| > 0 && heads[0].from == a
    requires NextOf(txs, baseFee, a, next)
    ensures a in q && Shifted(q, baseFee, a) == q[a := txs[a]]
    ensures Represents(heads[0 := next], txs[a := txs[a][1..]], baseFee, q[a := txs[a]])
  {
    var q' := q[a := txs[a]];
    HeadInPlay(heads, txs, baseFee, q, heads[0]);
    HeadSetRemove(q, baseFee, a);
    HeadSetRemove(q', baseFee, a);
    assert q' - {a} == q - {a};
    FirstExchanged(heads, next, multiset(HeadSet(q - {a}, baseFee)));
  }

  lemma EmptyHeap(heads: seq<Head>, txs: Queues, baseFee: Option<nat>, q: Queues)
    requires Represents(heads, txs, baseFee, q) && heads == []
    ensures q == map[]
  {
    forall a | a in q ensures false {
      HeadInPlay(heads, txs, baseFee, q, HeadOf(q, baseFee, a));
    }
  }

  lemma TopIsBest(heads: seq<Head>, txs: Queues, baseFee: Option<nat>, q: Queues)
    requires Represents(heads, txs, baseFee, q) && HeapFrom(heads, 0, |heads|) && |heads| > 0
    ensures Best(q, baseFee, heads[0].from) && HeadOf(q, baseFee, heads[0].from) == heads[0]
  {
    HeadInPlay(heads, txs, baseFee, q, heads[0]);
    forall b | b in q ensures !Less(HeadOf(q, baseFee, b), heads[0]) {
      HeadInPlay(heads, txs, baseFee, q, HeadOf(q, baseFee, b));
      var k :| 0 <= k < |heads| && heads[k] == HeadOf(q, baseFee, b);
      RootIsBest(heads, k);
    }
  }

  /** Takes the accounts in any order, as iteration over a map does. */
  method CollectHeads(input: Queues, baseFee: Option<nat>) returns (hs: seq<Head>, rest: Queues)
    requires forall a :: a in input ==> |input[a]| > 0
    ensures Represents(hs, rest, baseFee, Affordable(input, baseFee))
  {
    var todo := input.Keys;
    hs, rest := [], input;
    ghost var q: Queues := map[];
    while todo != {}
      invariant todo <= input.Keys
      invariant forall a :: a in todo ==> a in rest && rest[a] == input[a] && a !in q
      invariant forall a :: a in q <==> a in input && a !in todo && MinerFee(input[a][0], baseFee).Some?
      invariant forall a :: a in q ==> q[a] == input[a]
      invariant Represents(hs, rest, baseFee, q)
      decreases |todo|
    {
      var a :| a in todo;
      todo := todo - {a};
      var fee := MinerFee(rest[a][0], baseFee);
      if fee.None? {
        SkipAccount(hs, rest, baseFee, q, a);
        rest := rest - {a};
      } else {
        AddAccount(hs, rest, baseFee, q, a, fee.value);
        hs := hs + [Head(rest[a][0], a, fee.value)];
        q := q[a := input[a]];
        rest := rest[a := rest[a][1..]];
      }
    }
    assert q == Affordable(input, baseFee);
  }

  class TransactionsByPriceAndNonce {
    var txs: Queues
    var heads: seq<Head>
    const baseFee: Option<nat>
    ghost var queues: Queues

    ghost predicate Valid()
      reads this
    {
      Represents(heads, txs, baseFee, queues) && HeapFrom(heads, 0, |heads|)
    }

    /** Starts with every account whose first transaction can pay the base fee. The pool
        never lists an account without transactions. */
    constructor (input: Queues, baseFee: Option<nat>)
      requires forall a :: a in input ==> |input[a]| > 0
      ensures Valid() && this.baseFee == baseFee && queues == Affordable(input, baseFee)
    {
      var hs, rest := CollectHeads(input, baseFee);
      var heap := InitHeap(hs);
      this.baseFee := baseFee;
      heads, txs, queues := heap, rest, Affordable(input, baseFee);
    }

    /** The best next transaction and its fee, if any account is left. */
    method Peek() returns (r: Option<(LazyTx, nat)>)
      requires Valid()
      ensures r.None? <==> queues == map[]
      ensures r.Some? ==> |heads| > 0 && Best(queues, baseFee, heads[0].from)
      ensures r.Some? ==> r.value == (queues[heads[0].from][0], MinerFee(queues[heads[0].from][0], baseFee).value)
    {
      if |heads| == 0 {
        EmptyHeap(heads, txs, baseFee, queues);
        return None;
      }
      TopIsBest(heads, txs, baseFee, queues);
      r := Some((heads[0].tx, heads[0].fees));
    }

    /** Replaces the best transaction by the next one of the same account. */
    method Shift()
      requires Valid() && |heads| > 0
      modifies this
      ensures Valid() && queues == After(old(queues), baseFee, Step(old(heads)[0].from, true))
      ensures Count(queues) < old(Count(queues))
    {
      var acc := heads[0].from;
      HeadInPlay(heads, txs, baseFee, queues, heads[0]);
      CountAfter(queues, baseFee, Step(acc, true));
      if acc in txs && |txs[acc]| > 0 {
        var fee := MinerFee(txs[acc][0], baseFee);
        if fee.Some? {
          ReplaceBest(Head(txs[acc][0], acc, fee.value));
          return;
        }
      }
      DropBest();
    }

    /** The new head sinks to its place in the heap. */
    method ReplaceBest(next: Head)
      requires Valid() && |heads| > 0 && NextOf(txs, baseFee, heads[0].from, next)
      modifies this
      ensures Valid() && next.from in old(queues) && queues == Shifted(old(queues), baseFee, next.from)
    {
      var acc, hs := next.from, heads[0 := next];
      Replaced(heads, txs, baseFee, queues, acc, next);
      forall j | 0 < j < |hs| && 1 <= Above(j) ensures Settled(hs, j) {
        assert Settled(heads, j);
      }
      var heap := Down(hs, 0, |hs|);
      queues := queues[acc := txs[acc]];
      txs := txs[acc := txs[acc][1..]];
      heads := heap;
    }

    /** Drops the best transaction with all later ones of its account. */
    method Pop()
      requires Valid() && |heads| > 0
      modifies this
      ensures Valid() && queues == After(old(queues), baseFee, Step(old(heads)[0].from, false))
      ensures Count(queues) < old(Count(queues))
    {
      HeadInPlay(heads, txs, baseFee, queues, heads[0]);
      CountAfter(queues, baseFee, Step(heads[0].from, false));
      DropBest();
    }

    method DropBest()
      requires Valid() && |heads| > 0
      modifies this`heads, this`queues
      ensures Valid() && queues == old(queues) - {old(heads)[0].from}
    {
      var heap := PopHeap(heads);
      assert heads[0] in heads;
      Dropped(heads, heap, txs, baseFee, queues, heads[0]);
      queues := queues - {heads[0].from};
      heads := heap;
    }

    method Clear()
      modifies this
      ensures Valid() && queues == map[] && heads == []
    {
      heads, txs, queues := [], map[], map[];
    }
  }

  lemma SkipAccount(hs: seq<Head>, txs: Queues, baseFee: Option<nat>, q: Queues, a: Address)
    requires Represents(hs, txs, baseFee, q) && a !in q
    ensures Represents(hs, txs - {a}, baseFee, q)
  {
  }

  lemma AddAccount(hs: seq<Head>, txs: Queues, baseFee: Option<nat>, q: Queues, a: Address, fee: nat)
    requires Represents(hs, txs, baseFee, q) && a !in q && a in txs && |txs[a]| > 0
    requires MinerFee(txs[a][0], baseFee) == Some(fee)
    ensures Represents(hs + [Head(txs[a][0], a, fee)], txs[a := txs[a][1..]], baseFee, q[a := txs[a]])
  {
    var q' := q[a := txs[a]];
    HeadSetRemove(q', baseFee, a);
    assert q' - {a} == q;
  }
}
