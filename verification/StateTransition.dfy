/** Account balances with 256-bit arithmetic, and their total. */
module Ledger {
  import opened Transactions

  const TWO_256: nat := 0x1_0000000000000000_0000000000000000_0000000000000000_0000000000000000

  type Balances = map<Address, nat>

  function Get(b: Balances, a: Address): nat { if a in b then b[a] else 0 }

  /** Balances are 256-bit words: adding and subtracting wrap around. */
  function AddBalance(b: Balances, a: Address, amount: nat): Balances {
    b[a := (Get(b, a) + amount) % TWO_256]
  }

  function SubBalance(b: Balances, a: Address, amount: nat): Balances {
    b[a := (Get(b, a) - amount) % TWO_256]
  }

  ghost function Total(b: Balances): nat {
    if b == map[] then 0 else
      var a :| a in b;
      b[a] + Total(b - {a})
  }

  lemma {:induction false} TotalRemove(b: Balances, x: Address)
    requires x in b
    ensures Total(b) == b[x] + Total(b - {x})
    decreases |b|
  {
    var a :| a in b && Total(b) == b[a] + Total(b - {a});
    if a != x {
      TotalRemove(b - {a}, x);
      TotalRemove(b - {x}, a);
      assert b - {a} - {x} == b - {x} - {a};
    }
  }

  lemma TotalUpdate(b: Balances, a: Address, v: nat)
    ensures Total(b[a := v]) == Total(b) - Get(b, a) + v
    ensures Get(b, a) <= Total(b)
  {
    TotalRemove(b[a := v], a);
    assert b[a := v] - {a} == b - {a};
    if a in b {
      TotalRemove(b, a);
    } else {
      assert b - {a} == b;
    }
  }

  lemma ModSmall(x: nat)
    requires x < TWO_256
    ensures x % TWO_256 == x
  {
  }

  /** As long as all balances together fit in a word, an addition that keeps it so and a
      subtraction that is covered do not wrap. */
  lemma AddExact(b: Balances, a: Address, amount: nat)
    requires Total(b) + amount < TWO_256
    ensures Total(AddBalance(b, a, amount)) == Total(b) + amount
    ensures Get(AddBalance(b, a, amount), a) == Get(b, a) + amount
  {
    TotalUpdate(b, a, Get(b, a) + amount);
  }

  lemma SubExact(b: Balances, a: Address, amount: nat)
    requires Total(b) < TWO_256 && amount <= Get(b, a)
    ensures Total(SubBalance(b, a, amount)) == Total(b) - amount
    ensures Get(SubBalance(b, a, amount), a) == Get(b, a) - amount
  {
    TotalUpdate(b, a, Get(b, a) - amount);
  }
}

/** One transaction's passage through the state: checks, buying gas, execution, refund and
    fee; and the sequential loop over a block. */
module StateTransition {
  import opened Outcomes
  import opened Transactions
  import opened Wire
  import opened Ledger

  const MAX_UINT64: nat := 0xFFFF_FFFF_FFFF_FFFF
  const BLOB_GAS_PER_BLOB: nat := 131072

  datatype TxError =
    | NonceTooHigh | NonceTooLow | NonceMax | SenderNoEOA | NotAllowListed
    | FeeCapVeryHigh | TipVeryHigh | TipAboveFeeCap | FeeCapTooLow
    | BlobTxCreate | MissingBlobHashes | InvalidBlobHash | BlobFeeCapTooLow
    | InsufficientFunds | GasLimitReached | IntrinsicGasTooLow | GasUintOverflow
    | InsufficientFundsForTransfer | MaxInitCodeSizeExceeded

  // ------------------------------------------------------------------- gas pool

  class GasPool {
    var gas: nat

    constructor (gas: nat)
      ensures this.gas == gas
    {
      this.gas := gas;
    }

    /** Pushing the pool above 64 bits panics, so callers must not. */
    method AddGas(amount: nat)
      requires gas + amount <= MAX_UINT64
      modifies this
      ensures gas == old(gas) + amount
    {
      gas := gas + amount;
    }

    method SubGas(amount: nat) returns (ok: bool)
      modifies this
      ensures ok <==> amount <= old(gas)
      ensures gas == if ok then old(gas) - amount else old(gas)
    {
      if gas < amount {
        return false;
      }
      gas := gas - amount;
      ok := true;
    }

    method SetGas(amount: nat)
      modifies this
      ensures gas == amount
    {
      gas := amount;
    }
  }

  // ------------------------------------------------------------------- messages

  /** `blobHashes` is missing for anything but a blob transaction. */
  datatype Message = Message(
    from: Address, to: Option<Address>, nonce: nat, value: nat, gasLimit: nat,
    gasPrice: nat, gasFeeCap: nat, gasTipCap: nat,
    blobGasFeeCap: nat, blobHashes: Option<nat>, skipAccountChecks: bool)

  datatype SignedTx = SignedTx(
    sender: Address, to: Option<Address>, nonce: nat, value: nat, gas: nat,
    gasPrice: nat, gasFeeCap: nat, gasTipCap: nat, blobGasFeeCap: nat, blobHashes: Option<nat>)

  function TransactionToMessage(tx: SignedTx, baseFee: Option<nat>): Message {
    var price := match baseFee
      case None => tx.gasPrice
      case Some(b) => EffectiveGasPrice(tx.gasTipCap, tx.gasFeeCap, b);
    Message(tx.sender, tx.to, tx.nonce, tx.value, tx.gas, price, tx.gasFeeCap, tx.gasTipCap,
            tx.blobGasFeeCap, tx.blobHashes, false)
  }

  /** What the checks look at besides the message. */
  datatype Env = Env(
    isLondon: bool, isCancun: bool, isEVM: bool, noBaseFee: bool,
    baseFee: nat, blobBaseFee: nat, coinbase: Address,
    senderNonce: nat, senderIsEOA: bool, allowListed: bool, blobHashesValid: bool, initCodeTooLarge: bool)

  function BlobGas(msg: Message): nat {
    if msg.blobHashes.Some? then msg.blobHashes.value * BLOB_GAS_PER_BLOB else 0
  }

  /** What the sender is charged up front, and what the sender must be able to cover. */
  function Upfront(msg: Message, env: Env): nat {
    msg.gasLimit * msg.gasPrice + BlobFee(msg, env)
  }

  function BlobFee(msg: Message, env: Env): nat {
    if env.isCancun then BlobGas(msg) * env.blobBaseFee else 0
  }

  function Required(msg: Message, env: Env): nat {
    msg.gasLimit * msg.gasFeeCap + msg.value + if env.isCancun then BlobGas(msg) * msg.blobGasFeeCap else 0
  }

  /** The static checks, in order; buying gas comes after them. */
  function Checks(msg: Message, env: Env): Option<TxError> {
    if !msg.skipAccountChecks && env.senderNonce < msg.nonce then Some(NonceTooHigh)
    else if !msg.skipAccountChecks && env.senderNonce > msg.nonce then Some(NonceTooLow)
    else if !msg.skipAccountChecks && env.senderNonce == MAX_UINT64 then Some(NonceMax)
    else if !msg.skipAccountChecks && !env.senderIsEOA then Some(SenderNoEOA)
    else if !msg.skipAccountChecks && !env.allowListed then Some(NotAllowListed)
    else if FeeChecks(msg, env).Some? then FeeChecks(msg, env)
    else if msg.blobHashes.Some? && msg.to.None? then Some(BlobTxCreate)
    else if msg.blobHashes == Some(0) then Some(MissingBlobHashes)
    else if msg.blobHashes.Some? && !env.blobHashesValid then Some(InvalidBlobHash)
    else if env.isCancun && BlobGas(msg) > 0 && !(env.noBaseFee && msg.blobGasFeeCap == 0)
            && msg.blobGasFeeCap < env.blobBaseFee then Some(BlobFeeCapTooLow)
    else None
  }

  function FeeChecks(msg: Message, env: Env): Option<TxError> {
    if !env.isLondon || (env.noBaseFee && msg.gasFeeCap == 0 && msg.gasTipCap == 0) then None
    else if msg.gasFeeCap >= TWO_256 then Some(FeeCapVeryHigh)
    else if msg.gasTipCap >= TWO_256 then Some(TipVeryHigh)
    else if msg.gasFeeCap < msg.gasTipCap then Some(TipAboveFeeCap)
    else if msg.gasFeeCap < env.baseFee then Some(FeeCapTooLow)
    else None
  }

  // -------------------------------------------------- unchecked arithmetic is safe

  lemma MulMono(a: nat, b: nat, c: nat, d: nat)
    requires a <= c && b <= d
    ensures a * b <= c * d
  {
    assert a * b <= c * b;
    assert c * b <= c * d;
  }

  /** A message built from a transaction with a base fee, checked with fees enabled. */
  ghost predicate Built(tx: SignedTx, baseFee: nat, msg: Message, env: Env) {
    && msg == TransactionToMessage(tx, Some(baseFee))
    && !env.noBaseFee && Checks(msg, env).None?
  }

  /** Whatever passes the balance check is charged no more than the sender has, with the
      value still covered afterwards. */
  lemma UpfrontIsCovered(tx: SignedTx, baseFee: nat, msg: Message, env: Env)
    requires Built(tx, baseFee, msg, env)
    ensures Upfront(msg, env) + msg.value <= Required(msg, env)
  {
    MulMono(msg.gasLimit, msg.gasPrice, msg.gasLimit, msg.gasFeeCap);
    if env.isCancun && BlobGas(msg) > 0 {
      MulMono(BlobGas(msg), env.blobBaseFee, BlobGas(msg), msg.blobGasFeeCap);
    }
  }

  /** No later fee or refund multiplication wraps: any part of the gas limit times the price
      fits 256 bits. */
  lemma NothingWraps(tx: SignedTx, baseFee: nat, msg: Message, env: Env, gas: nat)
    requires Built(tx, baseFee, msg, env) && Required(msg, env) < TWO_256 && gas <= msg.gasLimit
    ensures Upfront(msg, env) < TWO_256 && gas * msg.gasPrice < TWO_256 && msg.value < TWO_256
    ensures 0 < msg.gasLimit ==> msg.gasPrice < TWO_256
  {
    UpfrontIsCovered(tx, baseFee, msg, env);
    MulMono(gas, msg.gasPrice, msg.gasLimit, msg.gasPrice);
    if 0 < msg.gasLimit { MulMono(1, msg.gasPrice, msg.gasLimit, msg.gasPrice); }
  }

  /** Everything a message built from a transaction needs to be included. */
  ghost predicate Includable(msg: Message, env: Env, intrinsic: Option<nat>, balances: Balances, pool: nat) {
    && Checks(msg, env).None?
    && Required(msg, env) < TWO_256 && Required(msg, env) <= Get(balances, msg.from)
    && msg.gasLimit <= pool
    && intrinsic.Some? && intrinsic.value <= msg.gasLimit
    && !env.initCodeTooLarge
  }

  // ------------------------------------------------------------------- execution

  /** The outcome of running the call or creation on the given balances with the given gas. */
  datatype Executed = Executed(balances: Balances, gasLeft: nat, refund: nat, failed: bool)

  type Evm = (Balances, nat) -> Executed

  /** Execution moves value between accounts but neither makes nor destroys any. */
  ghost predicate ValuePreserving(evm: Evm) {
    forall b: Balances, g: nat ::
      Total(evm(b, g).balances) == Total(b) && evm(b, g).gasLeft <= g
  }

  datatype ExecutionResult = ExecutionResult(usedGas: nat, refundedGas: nat, failed: bool)

  /** What a successful transition comes to: the gas limit bought, the execution on what is
      left of it, a refund of at most half of what it spent, the rest paid back to the sender
      and the gas used paid to the coinbase. */
  ghost predicate Outcome(msg: Message, env: Env, evm: Evm, intrinsic: nat, start: Balances, r: ExecutionResult, end: Balances) {
    && intrinsic <= msg.gasLimit
    && var out := evm(SubBalance(start, msg.from, Upfront(msg, env) % TWO_256), msg.gasLimit - intrinsic);
       && out.gasLeft <= msg.gasLimit
       && var spent := msg.gasLimit - out.gasLeft;
       && r.refundedGas == Refund(env, spent, out.refund)
       && r.usedGas == spent - r.refundedGas && r.usedGas <= msg.gasLimit && r.failed == out.failed
       && end == Paid(msg, env, out.balances, r.usedGas)
  }

  function Refund(env: Env, spent: nat, stateRefund: nat): nat {
    if env.isEVM then 0 else Min(spent / 2, stateRefund)
  }

  function Paid(msg: Message, env: Env, b: Balances, used: nat): Balances
    requires used <= msg.gasLimit
  {
    AddBalance(AddBalance(b, msg.from, ((msg.gasLimit - used) * msg.gasPrice) % TWO_256), env.coinbase, (used * msg.gasPrice) % TWO_256)
  }

  class StateTransition {
    const gp: GasPool
    const msg: Message
    const env: Env
    var gasRemaining: nat
    var initialGas: nat
    var balances: Balances

    constructor (gp: GasPool, msg: Message, env: Env, balances: Balances)
      ensures this.gp == gp && this.msg == msg && this.env == env && this.balances == balances
      ensures gasRemaining == 0 && initialGas == 0
    {
      this.gp, this.msg, this.env, this.balances := gp, msg, env, balances;
      gasRemaining, initialGas := 0, 0;
    }

    /** Charges the sender for the whole gas limit and takes it from the pool, if the sender
        can cover the most it could cost and the pool has it. */
    method BuyGas() returns (r: Result<(), TxError>)
      requires gasRemaining == 0
      modifies this`gasRemaining, this`initialGas, this`balances, gp
      ensures r.Ok? <==> Required(msg, env) < TWO_256 && Required(msg, env) <= Get(old(balances), msg.from) && msg.gasLimit <= old(gp.gas)
      ensures r.Err? ==> gp.gas == old(gp.gas) && balances == old(balances) && (r.error == InsufficientFunds || r.error == GasLimitReached)
      ensures r.Ok? ==> gasRemaining == initialGas == msg.gasLimit && gp.gas == old(gp.gas) - msg.gasLimit
      ensures r.Ok? ==> balances == SubBalance(old(balances), msg.from, Upfront(msg, env) % TWO_256)
    {
      var mgval := msg.gasLimit * msg.gasPrice;
      var balanceCheck := msg.gasLimit * msg.gasFeeCap + msg.value;
      if env.isCancun {
        var blobGas := BlobGas(msg);
        if blobGas > 0 {
          balanceCheck := balanceCheck + blobGas * msg.blobGasFeeCap;
          mgval := mgval + blobGas * env.blobBaseFee;
        }
      }
      if balanceCheck >= TWO_256 || Get(balances, msg.from) < balanceCheck {
        return Err(InsufficientFunds);
      }
      var taken := gp.SubGas(msg.gasLimit);
      if !taken {
        return Err(GasLimitReached);
      }
      gasRemaining := gasRemaining + msg.gasLimit;
      initialGas := msg.gasLimit;
      balances := SubBalance(balances, msg.from, mgval % TWO_256);
      r := Ok(());
    }

    method PreCheck() returns (r: Result<(), TxError>)
      requires gasRemaining == 0
      modifies this`gasRemaining, this`initialGas, this`balances, gp
      ensures r.Ok? <==> (Checks(msg, env).None? && Required(msg, env) < TWO_256
                          && Required(msg, env) <= Get(old(balances), msg.from) && msg.gasLimit <= old(gp.gas))
      ensures Checks(msg, env).Some? ==> r == Err(Checks(msg, env).value)
      ensures r.Err? ==> gp.gas == old(gp.gas) && balances == old(balances)
      ensures r.Err? && Checks(msg, env).None? ==> r.error == InsufficientFunds || r.error == GasLimitReached
      ensures r.Ok? ==> gasRemaining == initialGas == msg.gasLimit && gp.gas == old(gp.gas) - msg.gasLimit
      ensures r.Ok? ==> balances == SubBalance(old(balances), msg.from, Upfront(msg, env) % TWO_256)
    {
      var failed := Checks(msg, env);
      if failed.Some? {
        return Err(failed.value);
      }
      r := BuyGas();
    }

    /** Gives back the unused gas, with a refund of at most half the gas used. */
    method RefundGas(stateRefund: nat) returns (refund: nat)
      requires gasRemaining <= initialGas && gp.gas + initialGas <= MAX_UINT64
      modifies this`gasRemaining, this`balances, gp
      ensures refund == Refund(env, initialGas - old(gasRemaining), stateRefund)
      ensures gasRemaining == old(gasRemaining) + refund <= initialGas
      ensures gp.gas == old(gp.gas) + gasRemaining
      ensures balances == AddBalance(old(balances), msg.from, (gasRemaining * msg.gasPrice) % TWO_256)
    {
      refund := 0;
      if !env.isEVM {
        refund := (initialGas - gasRemaining) / 2;
        if refund > stateRefund {
          refund := stateRefund;
        }
        gasRemaining := gasRemaining + refund;
      }
      balances := AddBalance(balances, msg.from, (gasRemaining * msg.gasPrice) % TWO_256);
      gp.AddGas(gasRemaining);
    }

    /** Applies the message. A successful transition takes exactly the gas used out of the
        pool and exactly the blob fee out of the total of all balances, and for a message
        built from a transaction the transfer check after buying gas never fails.
        `intrinsic` is the intrinsic gas, missing if it overflows. */
    method TransitionDb(evm: Evm, intrinsic: Option<nat>, ghost tx: SignedTx, ghost baseFee: nat)
      returns (r: Result<ExecutionResult, TxError>)
      requires gasRemaining == 0 && gp.gas <= MAX_UINT64 && ValuePreserving(evm)
      requires intrinsic.Some? ==> TX_GAS <= intrinsic.value
      modifies this, gp
      ensures Built(tx, baseFee, msg, env) && Total(old(balances)) < TWO_256 ==>
                (r.Ok? <==> Includable(msg, env, intrinsic, old(balances), old(gp.gas)))
      ensures r.Ok? ==> gp.gas == old(gp.gas) - r.value.usedGas && r.value.usedGas <= msg.gasLimit
      ensures r.Ok? ==> intrinsic.Some? && Outcome(msg, env, evm, intrinsic.value, old(balances), r.value, balances)
      ensures r.Ok? && Built(tx, baseFee, msg, env) && Total(old(balances)) < TWO_256 ==>
                Total(balances) == Total(old(balances)) - BlobFee(msg, env)
      ensures Built(tx, baseFee, msg, env) && Total(old(balances)) < TWO_256 ==> r != Err(InsufficientFundsForTransfer)
      ensures Checks(msg, env).Some? ==> r == Err(Checks(msg, env).value)
      ensures r == Err(NonceTooLow) ==> Checks(msg, env) == Some(NonceTooLow)
    {
      ghost var built := Built(tx, baseFee, msg, env) && Total(balances) < TWO_256;
      ghost var start := balances;
      r := Prepare(intrinsic, tx, baseFee);
      if r.Err? {
        return;
      }
      var outcome := evm(balances, gasRemaining);
      assert Total(outcome.balances) == Total(balances) && outcome.gasLeft <= gasRemaining;
      balances, gasRemaining := outcome.balances, outcome.gasLeft;
      if built {
        NothingWraps(tx, baseFee, msg, env, 0);
      }
      if msg.gasPrice >= TWO_256 {
        return Err(GasUintOverflow);
      }
      ghost var executed := balances;
      var used, refund, back, fee := Settle(outcome.refund);
      if built {
        FeesAddUp(tx, baseFee, msg, env, start, executed, back, fee);
      }
      r := Ok(ExecutionResult(used, refund, outcome.failed));
    }

    /** Refunds the sender for the gas left and pays the coinbase for the gas used. */
    method Settle(stateRefund: nat) returns (used: nat, refund: nat, ghost back: nat, ghost fee: nat)
      requires gasRemaining <= initialGas == msg.gasLimit && gp.gas + initialGas <= MAX_UINT64
      modifies this`gasRemaining, this`balances, gp
      ensures refund == Refund(env, initialGas - old(gasRemaining), stateRefund)
      ensures used == initialGas - old(gasRemaining) - refund
      ensures used <= initialGas && gp.gas == old(gp.gas) + initialGas - used
      ensures back == (initialGas - used) * msg.gasPrice && fee == used * msg.gasPrice
      ensures back + fee == initialGas * msg.gasPrice
      ensures balances == AddBalance(AddBalance(old(balances), msg.from, back % TWO_256), env.coinbase, fee % TWO_256)
      ensures balances == Paid(msg, env, old(balances), used)
    {
      refund := RefundGas(stateRefund);
      used := initialGas - gasRemaining;
      balances := AddBalance(balances, env.coinbase, (used * msg.gasPrice) % TWO_256);
      back, fee := gasRemaining * msg.gasPrice, used * msg.gasPrice;
      Split(initialGas, gasRemaining, msg.gasPrice);
    }

    /** Everything before the execution: checks, buying gas, intrinsic gas, and the check
        that the value can be transferred. */
    method Prepare(intrinsic: Option<nat>, ghost tx: SignedTx, ghost baseFee: nat) returns (r: Result<ExecutionResult, TxError>)
      requires gasRemaining == 0
      modifies this, gp
      ensures r.Ok? ==> gasRemaining <= initialGas == msg.gasLimit && gp.gas == old(gp.gas) - msg.gasLimit
      ensures r.Ok? ==> intrinsic.Some? && gasRemaining == msg.gasLimit - intrinsic.value
      ensures r.Ok? ==> Includable(msg, env, intrinsic, old(balances), old(gp.gas))
      ensures Built(tx, baseFee, msg, env) && Total(old(balances)) < TWO_256 ==>
                (r.Ok? <==> Includable(msg, env, intrinsic, old(balances), old(gp.gas)))
      ensures r.Ok? ==> balances == SubBalance(old(balances), msg.from, Upfront(msg, env) % TWO_256)
      ensures Built(tx, baseFee, msg, env) && Total(old(balances)) < TWO_256 ==> r != Err(InsufficientFundsForTransfer)
      ensures Checks(msg, env).Some? ==> r == Err(Checks(msg, env).value)
      ensures r == Err(NonceTooLow) ==> Checks(msg, env) == Some(NonceTooLow)
    {
      ghost var start := balances;
      var checked := PreCheck();
      if checked.Err? {
        return Err(checked.error);
      }
      if intrinsic.None? {
        return Err(GasUintOverflow);
      }
      if gasRemaining < intrinsic.value {
        return Err(IntrinsicGasTooLow);
      }
      gasRemaining := gasRemaining - intrinsic.value;
      if Built(tx, baseFee, msg, env) && Total(start) < TWO_256 {
        TransferCovered(tx, baseFee, msg, env, start);
      }
      if msg.value >= TWO_256 || (msg.value != 0 && Get(balances, msg.from) < msg.value) {
        return Err(InsufficientFundsForTransfer);
      }
      if env.initCodeTooLarge {
        return Err(MaxInitCodeSizeExceeded);
      }
      r := Ok(ExecutionResult(0, 0, false));
    }
  }

  /** After buying gas the sender still has the value to be transferred. */
  lemma TransferCovered(tx: SignedTx, baseFee: nat, msg: Message, env: Env, start: Balances)
    requires Built(tx, baseFee, msg, env) && Total(start) < TWO_256
    requires Required(msg, env) < TWO_256 && Required(msg, env) <= Get(start, msg.from)
    ensures msg.value < TWO_256
    ensures var b := SubBalance(start, msg.from, Upfront(msg, env) % TWO_256);
            Get(b, msg.from) >= msg.value && Total(b) == Total(start) - Upfront(msg, env)
  {
    UpfrontIsCovered(tx, baseFee, msg, env);
    ModSmall(Upfront(msg, env));
    SubExact(start, msg.from, Upfront(msg, env));
  }

  /** What was charged for gas is what goes back to the sender plus what the coinbase gets. */
  lemma FeesAddUp(tx: SignedTx, baseFee: nat, msg: Message, env: Env, start: Balances, executed: Balances, back: nat, fee: nat)
    requires Built(tx, baseFee, msg, env) && Total(start) < TWO_256
    requires Required(msg, env) < TWO_256 && Required(msg, env) <= Get(start, msg.from)
    requires Total(executed) == Total(SubBalance(start, msg.from, Upfront(msg, env) % TWO_256))
    requires back + fee + BlobFee(msg, env) == Upfront(msg, env)
    ensures Total(AddBalance(AddBalance(executed, msg.from, back % TWO_256), env.coinbase, fee % TWO_256))
         == Total(start) - BlobFee(msg, env)
  {
    UpfrontIsCovered(tx, baseFee, msg, env);
    TransferCovered(tx, baseFee, msg, env, start);
    TotalUpdate(start, msg.from, 0);
    Redistributed(start, executed, msg.from, env.coinbase, BlobFee(msg, env), back, fee);
  }

  lemma Split(limit: nat, left: nat, price: nat)
    requires left <= limit
    ensures left * price + (limit - left) * price == limit * price
  {
  }

  /** Two payments back into the ledger that together are what was taken out beside `kept`. */
  lemma Redistributed(start: Balances, executed: Balances, from: Address, coinbase: Address, kept: nat, back: nat, fee: nat)
    requires Total(start) < TWO_256 && kept + back + fee <= Total(start)
    requires Total(executed) == Total(start) - (kept + back + fee)
    ensures Total(AddBalance(AddBalance(executed, from, back % TWO_256), coinbase, fee % TWO_256)) == Total(start) - kept
  {
    ModSmall(back);
    ModSmall(fee);
    AddExact(executed, from, back);
    var refunded := AddBalance(executed, from, back);
    AddExact(refunded, coinbase, fee);
  }

  function Min(a: nat, b: nat): nat { if a <= b then a else b }

  // ------------------------------------------------------------------- intrinsic gas

  const TX_GAS: nat := 21000
  const TX_GAS_CONTRACT_CREATION: nat := 53000
  const TX_DATA_NON_ZERO_GAS_FRONTIER: nat := 68
  const TX_DATA_NON_ZERO_GAS_EIP2028: nat := 16
  const TX_DATA_ZERO_GAS: nat := 4
  const INIT_CODE_WORD_GAS: nat := 2

  datatype Rules = Rules(isHomestead: bool, isIstanbul: bool, isDurango: bool)

  function NonZero(data: seq<byte>): nat {
    if |data| == 0 then 0 else NonZero(data[..|data| - 1]) + if data[|data| - 1] != 0 then 1 else 0
  }

  /** The gas of the message data, over unbounded integers. */
  function IdealIntrinsicGas(data: seq<byte>, accessListGas: nat, isCreation: bool, rules: Rules): nat {
    var nz := NonZero(data);
    NonZeroBound(data);
    (if isCreation && rules.isHomestead then TX_GAS_CONTRACT_CREATION else TX_GAS)
    + nz * (if rules.isIstanbul then TX_DATA_NON_ZERO_GAS_EIP2028 else TX_DATA_NON_ZERO_GAS_FRONTIER)
    + (|data| - nz) * TX_DATA_ZERO_GAS
    + (if isCreation && rules.isDurango then (|data| + 31) / 32 * INIT_CODE_WORD_GAS else 0)
    + accessListGas
  }

  lemma {:induction false} NonZeroBound(data: seq<byte>)
    ensures NonZero(data) <= |data|
  {
    if |data| > 0 { NonZeroBound(data[..|data| - 1]); }
  }

  method CountNonZero(data: seq<byte>) returns (nz: nat)
    ensures nz == NonZero(data) <= |data|
  {
    nz := 0;
    for i := 0 to |data|
      invariant nz == NonZero(data[..i])
    {
      assert data[..i + 1][..i] == data[..i];
      if data[i] != 0 {
        nz := nz + 1;
      }
    }
    assert data[..|data|] == data;
    NonZeroBound(data);
  }

  /** The guard in front of every addition of `count` items at `price` each. */
  predicate Overflows(gas: nat, count: nat, price: nat)
    requires gas <= MAX_UINT64 && price > 0
    ensures Overflows(gas, count, price) <==> gas + count * price > MAX_UINT64
  {
    var room := (MAX_UINT64 - gas) / price;
    assert room * price <= MAX_UINT64 - gas < (room + 1) * price;
    if room < count then MulMono(room + 1, price, count, price); true else MulMono(count, price, room, price); false
  }

  /** The overflow guards are exact: the 64-bit result is the ideal one whenever that fits,
      and an overflow is reported exactly when it does not. */
  method IntrinsicGas(data: seq<byte>, accessListGas: Option<nat>, isCreation: bool, rules: Rules) returns (r: Result<nat, TxError>)
    requires |data| + 31 <= MAX_UINT64
    requires accessListGas.Some? ==> accessListGas.value <= MAX_UINT64
    ensures var ideal := IdealIntrinsicGas(data, if accessListGas.Some? then accessListGas.value else 0, isCreation, rules);
            r == if ideal <= MAX_UINT64 then Ok(ideal) else Err(GasUintOverflow)
  {
    var gas := if isCreation && rules.isHomestead then TX_GAS_CONTRACT_CREATION else TX_GAS;
    var nz := CountNonZero(data);
    if |data| > 0 {
      var nonZeroGas := if rules.isIstanbul then TX_DATA_NON_ZERO_GAS_EIP2028 else TX_DATA_NON_ZERO_GAS_FRONTIER;
      if Overflows(gas, nz, nonZeroGas) {
        return Err(GasUintOverflow);
      }
      gas := gas + nz * nonZeroGas;
      var z := |data| - nz;
      if Overflows(gas, z, TX_DATA_ZERO_GAS) {
        return Err(GasUintOverflow);
      }
      gas := gas + z * TX_DATA_ZERO_GAS;
      if isCreation && rules.isDurango {
        var lenWords := (|data| + 31) / 32;
        if Overflows(gas, lenWords, INIT_CODE_WORD_GAS) {
          return Err(GasUintOverflow);
        }
        gas := gas + lenWords * INIT_CODE_WORD_GAS;
      }
    }
    if accessListGas.Some? {
      if gas + accessListGas.value > MAX_UINT64 {
        return Err(GasUintOverflow);
      }
      gas := gas + accessListGas.value;
    }
    r := Ok(gas);
  }

  // ------------------------------------------------------------------- a whole block

  /** One transaction of a block with the context it meets. */
  datatype Task = Task(tx: SignedTx, env: Env, evm: Evm, intrinsic: Option<nat>)

  datatype Receipt = Receipt(gasUsed: nat, cumulativeGasUsed: nat, failed: bool)

  /** Execution neither makes nor destroys value, and the fee checks are on. */
  ghost predicate WellFormed(task: Task) {
    && ValuePreserving(task.evm) && !task.env.noBaseFee
    && (task.intrinsic.Some? ==> TX_GAS <= task.intrinsic.value)
  }

  ghost function GasOf(receipts: seq<Receipt>): nat {
    if |receipts| == 0 then 0 else GasOf(receipts[..|receipts| - 1]) + receipts[|receipts| - 1].gasUsed
  }

  ghost function BlobFees(tasks: seq<Task>, baseFee: nat): nat {
    if |tasks| == 0 then 0 else
      var t := tasks[|tasks| - 1];
      BlobFees(tasks[..|tasks| - 1], baseFee) + BlobFee(TransactionToMessage(t.tx, Some(baseFee)), t.env)
  }

  /** The transaction, met by these balances, comes to that result and those balances. */
  ghost predicate Applied(task: Task, baseFee: nat, start: Balances, r: ExecutionResult, end: Balances) {
    && task.intrinsic.Some?
    && Outcome(TransactionToMessage(task.tx, Some(baseFee)), task.env, task.evm, task.intrinsic.value, start, r, end)
  }

  /** One transaction of the block: the pool gives up exactly the gas used. */
  method ApplyTransaction(gp: GasPool, task: Task, baseFee: nat, start: Balances)
    returns (r: Result<ExecutionResult, TxError>, end: Balances)
    requires WellFormed(task) && gp.gas <= MAX_UINT64 && Total(start) < TWO_256
    modifies gp
    ensures r.Ok? <==> Includable(TransactionToMessage(task.tx, Some(baseFee)), task.env, task.intrinsic, start, old(gp.gas))
    ensures r.Ok? ==> gp.gas + r.value.usedGas == old(gp.gas) && Applied(task, baseFee, start, r.value, end)
    ensures r.Ok? ==> Total(end) + BlobFee(TransactionToMessage(task.tx, Some(baseFee)), task.env) == Total(start)
    ensures var failed := Checks(TransactionToMessage(task.tx, Some(baseFee)), task.env);
            (failed.Some? ==> r == Err(failed.value)) && (r == Err(NonceTooLow) ==> failed == Some(NonceTooLow))
  {
    var msg := TransactionToMessage(task.tx, Some(baseFee));
    var st := new StateTransition(gp, msg, task.env, start);
    r := st.TransitionDb(task.evm, task.intrinsic, task.tx, baseFee);
    end := st.balances;
  }

  /** Every cumulative value is the sum of the gas used so far. */
  ghost predicate Cumulative(receipts: seq<Receipt>) {
    forall i :: 0 <= i < |receipts| ==> receipts[i].cumulativeGasUsed == GasOf(receipts[..i + 1])
  }

  lemma CumulativeAppend(receipts: seq<Receipt>, r: Receipt)
    requires Cumulative(receipts) && r.cumulativeGasUsed == GasOf(receipts) + r.gasUsed
    ensures Cumulative(receipts + [r]) && GasOf(receipts + [r]) == GasOf(receipts) + r.gasUsed
  {
    var all := receipts + [r];
    assert all[..|receipts|] == receipts && all[..|all|] == all;
    forall i | 0 <= i < |receipts| ensures all[i].cumulativeGasUsed == GasOf(all[..i + 1]) {
      assert all[..i + 1] == receipts[..i + 1];
    }
  }

  /** The block so far: its receipts, the gas left, and the balances before, between and after
      the transactions. */
  datatype Progress = Progress(receipts: seq<Receipt>, pool: nat, trace: seq<Balances>)

  ghost predicate AppliedAt(tasks: seq<Task>, baseFee: nat, p: Progress, i: nat) {
    && i < |p.receipts| <= |tasks| && |p.trace| == |p.receipts| + 1
    && exists refunded: nat ::
         Applied(tasks[i], baseFee, p.trace[i], ExecutionResult(p.receipts[i].gasUsed, refunded, p.receipts[i].failed), p.trace[i + 1])
  }

  /** Each transaction was applied to what the ones before left, and gas and balances are
      accounted for. */
  ghost predicate Accounted(gasLimit: nat, start: Balances, tasks: seq<Task>, baseFee: nat, p: Progress) {
    var n := |p.receipts|;
    && n <= |tasks| && |p.trace| == n + 1 && p.trace[0] == start
    && (forall i: nat :: i < n ==> AppliedAt(tasks, baseFee, p, i))
    && Cumulative(p.receipts) && p.pool + GasOf(p.receipts) == gasLimit
    && Total(p.trace[n]) + BlobFees(tasks[..n], baseFee) == Total(start)
  }

  function Extended(p: Progress, r: Receipt, left: nat, end: Balances): Progress {
    Progress(p.receipts + [r], left, p.trace + [end])
  }

  lemma AccountedNext(gasLimit: nat, start: Balances, tasks: seq<Task>, baseFee: nat, p: Progress, r: Receipt, refunded: nat, left: nat, end: Balances)
    requires Accounted(gasLimit, start, tasks, baseFee, p) && |p.receipts| < |tasks|
    requires left + r.gasUsed == p.pool && r.cumulativeGasUsed == GasOf(p.receipts) + r.gasUsed
    requires var n := |p.receipts|;
             && Applied(tasks[n], baseFee, p.trace[n], ExecutionResult(r.gasUsed, refunded, r.failed), end)
             && Total(end) + BlobFee(TransactionToMessage(tasks[n].tx, Some(baseFee)), tasks[n].env) == Total(p.trace[n])
    ensures Accounted(gasLimit, start, tasks, baseFee, Extended(p, r, left, end))
  {
    var n, p' := |p.receipts|, Extended(p, r, left, end);
    CumulativeAppend(p.receipts, r);
    assert tasks[..n + 1][..n] == tasks[..n];
    forall i: nat | i < n + 1 ensures AppliedAt(tasks, baseFee, p', i) {
      if i < n {
        assert AppliedAt(tasks, baseFee, p, i);
      } else {
        assert p'.trace[i] == p.trace[n] && p'.receipts[i] == r && p'.trace[i + 1] == end;
      }
    }
  }

  /** The whole block was applied, with these receipts and final balances. */
  ghost predicate Processed(gasLimit: nat, start: Balances, tasks: seq<Task>, baseFee: nat, receipts: seq<Receipt>, end: Balances) {
    exists p :: Accounted(gasLimit, start, tasks, baseFee, p) && p.receipts == receipts && |receipts| == |tasks| && p.trace[|tasks|] == end
  }

  /** Some transaction cannot be included after the ones before it. */
  ghost predicate Stuck(gasLimit: nat, start: Balances, tasks: seq<Task>, baseFee: nat) {
    exists p :: Accounted(gasLimit, start, tasks, baseFee, p) && StuckAt(tasks, baseFee, p)
  }

  ghost predicate StuckAt(tasks: seq<Task>, baseFee: nat, p: Progress) {
    && |p.receipts| < |tasks| && |p.trace| == |p.receipts| + 1
    && var t := tasks[|p.receipts|];
       !Includable(TransactionToMessage(t.tx, Some(baseFee)), t.env, t.intrinsic, p.trace[|p.receipts|], p.pool)
  }

  /** The sequential loop over a block. At its end pool and gas used make up the block's gas
      limit, every cumulative value is the sum of the gas used so far, and all balances
      together have lost exactly the blob fees. It stops early only at a transaction that
      cannot be included after the ones before it. */
  method Process(gasLimit: nat, start: Balances, tasks: seq<Task>, baseFee: nat) returns (r: Result<seq<Receipt>, TxError>, end: Balances)
    requires gasLimit <= MAX_UINT64 && Total(start) < TWO_256
    requires forall i :: 0 <= i < |tasks| ==> WellFormed(tasks[i])
    ensures r.Ok? ==> Processed(gasLimit, start, tasks, baseFee, r.value, end)
    ensures r.Err? ==> Stuck(gasLimit, start, tasks, baseFee)
  {
    var gp := new GasPool(gasLimit);
    var receipts: seq<Receipt>, usedGas := [], 0;
    end := start;
    ghost var p := Progress([], gasLimit, [start]);
    for i := 0 to |tasks|
      invariant fresh(gp) && usedGas == GasOf(receipts) && |receipts| == i
      invariant p.receipts == receipts && p.pool == gp.gas && |p.trace| == i + 1 && p.trace[i] == end
      invariant Accounted(gasLimit, start, tasks, baseFee, p)
    {
      var result, after := ApplyTransaction(gp, tasks[i], baseFee, end);
      if result.Err? {
        assert StuckAt(tasks, baseFee, p);
        return Err(result.error), after;
      }
      usedGas := usedGas + result.value.usedGas;
      var receipt := Receipt(result.value.usedGas, usedGas, result.value.failed);
      AccountedNext(gasLimit, start, tasks, baseFee, p, receipt, result.value.refundedGas, gp.gas, after);
      CumulativeAppend(receipts, receipt);
      receipts, end, p := receipts + [receipt], after, Extended(p, receipt, gp.gas, after);
    }
    return Ok(receipts), end;
  }
}
