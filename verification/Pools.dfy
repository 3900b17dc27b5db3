/** contracts/ActivePool.sol, contracts/DefaultPool.sol and contracts/CollSurplusPool.sol. */
module Pools {
  import opened Accounts
  import opened PoolSystem

  /** The collateral token: a transfer moves the exact amount or fails. */
  class Token {
    var balances: map<address, nat>

    constructor (balances_: map<address, nat>)
      ensures balances == balances_
    {
      balances := balances_;
    }

    method Transfer(sender: address, to: address, amount: nat) returns (ok: bool)
      modifies this
      ensures ok <==> amount <= Balance(old(balances), sender)
      ensures balances == if ok then Move(old(balances), sender, to, amount) else old(balances)
    {
      if amount > Balance(balances, sender) {
        return false;
      }
      balances := Move(balances, sender, to, amount);
      return true;
    }
  }

  /** Each method returns false for a revert, which leaves the state as it was. */
  class DefaultPool {
    const self: address
    const token: Token
    const troveManagerAddress: address
    var activePool: ActivePool?
    var WSTETH: nat
    var SIMDebt: nat

    constructor (w: Wiring, token_: Token)
      ensures self == w.defaultPool && token == token_ && troveManagerAddress == w.troveManager
      ensures activePool == null && WSTETH == 0 && SIMDebt == 0
    {
      self, token, troveManagerAddress := w.defaultPool, token_, w.troveManager;
      activePool, WSTETH, SIMDebt := null, 0, 0;
    }

    method SendWSTETHToActivePool(sender: address, amount: nat, ghost p: Deployment) returns (ok: bool)
      requires p.Wired() && p.defaultPool == this
      modifies this`WSTETH, token, p.activePool`WSTETH
      ensures p.Wired() && p.IsStep(old(p.State()), Tx(sender, DefaultSend(amount)), ok)
    {
      if sender != troveManagerAddress || amount > WSTETH {
        return false;
      }
      WSTETH := WSTETH - amount;
      ok := token.Transfer(self, activePool.self, amount);
      if !ok {
        WSTETH := WSTETH + amount;
        return;
      }
      ok := activePool.Credit(self, amount);
      assert ok;
    }

    /** `receiveWSTETH`. */
    method Credit(sender: address, amount: nat) returns (ok: bool)
      requires activePool != null
      modifies this`WSTETH
      ensures ok <==> sender == activePool.self
      ensures WSTETH == old(WSTETH) + if ok then amount else 0
    {
      if sender != activePool.self {
        return false;
      }
      WSTETH := WSTETH + amount;
      return true;
    }

    method ReceiveWSTETH(sender: address, amount: nat, ghost p: Deployment) returns (ok: bool)
      requires p.Wired() && p.defaultPool == this
      modifies this`WSTETH
      ensures p.Wired() && p.IsStep(old(p.State()), Tx(sender, DefaultReceive(amount)), ok)
    {
      ok := Credit(sender, amount);
    }

    method IncreaseSIMDebt(sender: address, amount: nat, ghost p: Deployment) returns (ok: bool)
      requires p.Wired() && p.defaultPool == this
      modifies this`SIMDebt
      ensures p.Wired() && p.IsStep(old(p.State()), Tx(sender, DefaultIncreaseDebt(amount)), ok)
    {
      if sender != troveManagerAddress {
        return false;
      }
      SIMDebt := SIMDebt + amount;
      return true;
    }

    method DecreaseSIMDebt(sender: address, amount: nat, ghost p: Deployment) returns (ok: bool)
      requires p.Wired() && p.defaultPool == this
      modifies this`SIMDebt
      ensures p.Wired() && p.IsStep(old(p.State()), Tx(sender, DefaultDecreaseDebt(amount)), ok)
    {
      if sender != troveManagerAddress || amount > SIMDebt {
        return false;
      }
      SIMDebt := SIMDebt - amount;
      return true;
    }
  }

  class CollSurplusPool {
    const self: address
    const token: Token
    const borrowerOperationsAddress: address
    const troveManagerAddress: address
    const activePoolAddress: address
    var WSTETH: nat
    var balances: map<address, nat>

    constructor (w: Wiring, token_: Token)
      ensures self == w.collSurplusPool && token == token_ && activePoolAddress == w.activePool
      ensures borrowerOperationsAddress == w.borrowerOperations && troveManagerAddress == w.troveManager
      ensures WSTETH == 0 && balances == map[]
    {
      self, token, activePoolAddress := w.collSurplusPool, token_, w.activePool;
      borrowerOperationsAddress, troveManagerAddress := w.borrowerOperations, w.troveManager;
      WSTETH, balances := 0, map[];
    }

    method AccountSurplus(sender: address, account: address, amount: nat, ghost p: Deployment) returns (ok: bool)
      requires p.Wired() && p.collSurplusPool == this
      modifies this`balances
      ensures p.Wired() && p.IsStep(old(p.State()), Tx(sender, PoolSystem.AccountSurplus(account, amount)), ok)
    {
      if sender != troveManagerAddress {
        return false;
      }
      var newAmount := Balance(balances, account) + amount;
      balances := balances[account := newAmount];
      return true;
    }

    method ClaimColl(sender: address, account: address, ghost p: Deployment) returns (ok: bool)
      requires p.Wired() && p.collSurplusPool == this
      modifies this`WSTETH, this`balances, token
      ensures p.Wired() && p.IsStep(old(p.State()), Tx(sender, PoolSystem.ClaimColl(account)), ok)
    {
      if sender != borrowerOperationsAddress {
        return false;
      }
      var claimableColl := Balance(balances, account);
      if !(claimableColl > 0) {
        return false;
      }
      var before := balances;
      balances := balances[account := 0];
      if claimableColl > WSTETH {
        balances := before;
        return false;
      }
      WSTETH := WSTETH - claimableColl;
      ok := token.Transfer(self, account, claimableColl);
      if !ok {
        balances, WSTETH := before, WSTETH + claimableColl;
      }
    }

    /** `receiveWSTETH`. */
    method Credit(sender: address, amount: nat) returns (ok: bool)
      modifies this`WSTETH
      ensures ok <==> sender == activePoolAddress
      ensures WSTETH == old(WSTETH) + if ok then amount else 0
    {
      if sender != activePoolAddress {
        return false;
      }
      WSTETH := WSTETH + amount;
      return true;
    }

    method ReceiveWSTETH(sender: address, amount: nat, ghost p: Deployment) returns (ok: bool)
      requires p.Wired() && p.collSurplusPool == this
      modifies this`WSTETH
      ensures p.Wired() && p.IsStep(old(p.State()), Tx(sender, SurplusReceive(amount)), ok)
    {
      ok := Credit(sender, amount);
    }
  }

  class ActivePool {
    const self: address
    const token: Token
    const borrowerOperationsAddress: address
    const troveManagerAddress: address
    const stabilityPoolAddress: address
    const defaultPool: DefaultPool
    const collSurplusPool: CollSurplusPool
    var WSTETH: nat
    var SIMDebt: nat

    constructor (w: Wiring, token_: Token, defaultPool_: DefaultPool, collSurplusPool_: CollSurplusPool)
      ensures self == w.activePool && token == token_ && stabilityPoolAddress == w.stabilityPool
      ensures borrowerOperationsAddress == w.borrowerOperations && troveManagerAddress == w.troveManager
      ensures defaultPool == defaultPool_ && collSurplusPool == collSurplusPool_ && WSTETH == 0 && SIMDebt == 0
    {
      self, token, stabilityPoolAddress := w.activePool, token_, w.stabilityPool;
      borrowerOperationsAddress, troveManagerAddress := w.borrowerOperations, w.troveManager;
      defaultPool, collSurplusPool, WSTETH, SIMDebt := defaultPool_, collSurplusPool_, 0, 0;
    }

    predicate CallerIsBOorTroveMorSP(sender: address) {
      sender == borrowerOperationsAddress || sender == troveManagerAddress || sender == stabilityPoolAddress
    }

    predicate CallerIsBOorTroveM(sender: address) {
      sender == borrowerOperationsAddress || sender == troveManagerAddress
    }

    method SendWSTETH(sender: address, account: address, amount: nat, ghost p: Deployment) returns (ok: bool)
      requires p.Wired() && p.activePool == this
      modifies this`WSTETH, token, defaultPool`WSTETH, collSurplusPool`WSTETH
      ensures p.Wired() && p.IsStep(old(p.State()), Tx(sender, ActiveSend(account, amount)), ok)
    {
      if !CallerIsBOorTroveMorSP(sender) || amount > WSTETH {
        return false;
      }
      WSTETH := WSTETH - amount;
      ok := token.Transfer(self, account, amount);
      if !ok {
        WSTETH := WSTETH + amount;
        return;
      }
      if account == defaultPool.self {
        ok := defaultPool.Credit(self, amount);
        assert ok;
      }
      if account == collSurplusPool.self {
        ok := collSurplusPool.Credit(self, amount);
        assert ok;
      }
    }

    /** `receiveWSTETH`. */
    method Credit(sender: address, amount: nat) returns (ok: bool)
      modifies this`WSTETH
      ensures ok <==> sender == borrowerOperationsAddress || sender == defaultPool.self
      ensures WSTETH == old(WSTETH) + if ok then amount else 0
    {
      if !(sender == borrowerOperationsAddress || sender == defaultPool.self) {
        return false;
      }
      WSTETH := WSTETH + amount;
      return true;
    }

    method ReceiveWSTETH(sender: address, amount: nat, ghost p: Deployment) returns (ok: bool)
      requires p.Wired() && p.activePool == this
      modifies this`WSTETH
      ensures p.Wired() && p.IsStep(old(p.State()), Tx(sender, ActiveReceive(amount)), ok)
    {
      ok := Credit(sender, amount);
    }

    method IncreaseSIMDebt(sender: address, amount: nat, ghost p: Deployment) returns (ok: bool)
      requires p.Wired() && p.activePool == this
      modifies this`SIMDebt
      ensures p.Wired() && p.IsStep(old(p.State()), Tx(sender, ActiveIncreaseDebt(amount)), ok)
    {
      if !CallerIsBOorTroveM(sender) {
        return false;
      }
      SIMDebt := SIMDebt + amount;
      return true;
    }

    method DecreaseSIMDebt(sender: address, amount: nat, ghost p: Deployment) returns (ok: bool)
      requires p.Wired() && p.activePool == this
      modifies this`SIMDebt
      ensures p.Wired() && p.IsStep(old(p.State()), Tx(sender, ActiveDecreaseDebt(amount)), ok)
    {
      if !CallerIsBOorTroveMorSP(sender) || amount > SIMDebt {
        return false;
      }
      SIMDebt := SIMDebt - amount;
      return true;
    }
  }

  /** The wired contracts, seen as one system. */
  datatype Deployment = Deployment(w: Wiring, token: Token, activePool: ActivePool, defaultPool: DefaultPool,
                                   collSurplusPool: CollSurplusPool) {
    ghost predicate Wired()
      reads defaultPool`activePool
    {
      && DistinctWiring(w)
      && activePool.self == w.activePool && defaultPool.self == w.defaultPool && collSurplusPool.self == w.collSurplusPool
      && activePool.token == token && defaultPool.token == token && collSurplusPool.token == token
      && activePool.borrowerOperationsAddress == w.borrowerOperations
      && activePool.troveManagerAddress == w.troveManager && activePool.stabilityPoolAddress == w.stabilityPool
      && activePool.defaultPool == defaultPool && activePool.collSurplusPool == collSurplusPool
      && defaultPool.activePool == activePool && defaultPool.troveManagerAddress == w.troveManager
      && collSurplusPool.borrowerOperationsAddress == w.borrowerOperations
      && collSurplusPool.troveManagerAddress == w.troveManager && collSurplusPool.activePoolAddress == w.activePool
    }

    ghost function State(): System
      reads activePool, defaultPool, collSurplusPool, token
    {
      System(activePool.WSTETH, activePool.SIMDebt, defaultPool.WSTETH, defaultPool.SIMDebt,
             collSurplusPool.WSTETH, collSurplusPool.balances, token.balances)
    }

    /** The current state is what the machine makes of `before`, and `ok` says whether the call went through. */
    ghost predicate IsStep(before: System, tx: Tx, ok: bool)
      reads activePool, defaultPool, collSurplusPool, token
    {
      State() == Step(w, before, tx) && (ok <==> Succeeds(w, before, tx))
    }
  }

  /** Deploys and wires the contracts. */
  method Deploy(w: Wiring, token: Token) returns (p: Deployment)
    requires DistinctWiring(w)
    ensures p.w == w && p.token == token && p.Wired() && p.State() == Initial(token.balances)
    ensures fresh(p.activePool) && fresh(p.defaultPool) && fresh(p.collSurplusPool)
  {
    var defaultPool := new DefaultPool(w, token);
    var collSurplusPool := new CollSurplusPool(w, token);
    var activePool := new ActivePool(w, token, defaultPool, collSurplusPool);
    defaultPool.activePool := activePool;
    p := Deployment(w, token, activePool, defaultPool, collSurplusPool);
  }
}
