/**
 * The collateral that contracts/ActivePool.sol, contracts/DefaultPool.sol and
 * contracts/CollSurplusPool.sol track together, as one state machine over an ERC20 ledger.
 * Module Pools proves the contracts' methods against it.
 */
module PoolSystem {
  import opened Accounts
  import opened Sequences

  /** The addresses that the contracts are wired to. */
  datatype Wiring = Wiring(
    borrowerOperations: address, troveManager: address, stabilityPool: address,
    activePool: address, defaultPool: address, collSurplusPool: address)

  predicate DistinctWiring(w: Wiring) {
    && w.borrowerOperations !in {w.troveManager, w.stabilityPool, w.activePool, w.defaultPool, w.collSurplusPool}
    && w.troveManager !in {w.stabilityPool, w.activePool, w.defaultPool, w.collSurplusPool}
    && w.stabilityPool !in {w.activePool, w.defaultPool, w.collSurplusPool}
    && w.activePool !in {w.defaultPool, w.collSurplusPool}
    && w.defaultPool != w.collSurplusPool
  }

  /** The three trackers, the two debt counters, the claimable surpluses, and the token balances. */
  datatype System = System(
    active: nat, activeDebt: nat,
    default_: nat, defaultDebt: nat,
    surplus: nat, balances: map<address, nat>,
    tokens: map<address, nat>)

  datatype Call =
    | ActiveSend(account: address, amount: nat)
    | ActiveReceive(amount: nat)
    | ActiveIncreaseDebt(amount: nat)
    | ActiveDecreaseDebt(amount: nat)
    | DefaultSend(amount: nat)
    | DefaultReceive(amount: nat)
    | DefaultIncreaseDebt(amount: nat)
    | DefaultDecreaseDebt(amount: nat)
    | AccountSurplus(account: address, amount: nat)
    | ClaimColl(account: address)
    | SurplusReceive(amount: nat)
    | TokenTransfer(to: address, amount: nat)

  datatype Tx = Tx(sender: address, call: Call)

  /** A Solidity mapping to numbers: absent keys read as zero. */
  function Balance(m: map<address, nat>, a: address): nat {
    if a in m then m[a] else 0
  }

  /** An exact transfer. */
  function Move(m: map<address, nat>, from: address, to: address, amount: nat): map<address, nat>
    requires amount <= Balance(m, from)
  {
    var m := m[from := Balance(m, from) - amount];
    m[to := Balance(m, to) + amount]
  }

  /** Whether a call goes through: the caller checks, the checked subtractions and the token transfer. */
  predicate Succeeds(w: Wiring, s: System, tx: Tx) {
    match tx.call
    case ActiveSend(account, amount) =>
      && tx.sender in {w.borrowerOperations, w.troveManager, w.stabilityPool}
      && amount <= s.active && amount <= Balance(s.tokens, w.activePool)
    case ActiveReceive(amount) => tx.sender in {w.borrowerOperations, w.defaultPool}
    case ActiveIncreaseDebt(amount) => tx.sender in {w.borrowerOperations, w.troveManager}
    case ActiveDecreaseDebt(amount) =>
      tx.sender in {w.borrowerOperations, w.troveManager, w.stabilityPool} && amount <= s.activeDebt
    case DefaultSend(amount) =>
      tx.sender == w.troveManager && amount <= s.default_ && amount <= Balance(s.tokens, w.defaultPool)
    case DefaultReceive(amount) => tx.sender == w.activePool
    case DefaultIncreaseDebt(amount) => tx.sender == w.troveManager
    case DefaultDecreaseDebt(amount) => tx.sender == w.troveManager && amount <= s.defaultDebt
    case AccountSurplus(account, amount) => tx.sender == w.troveManager
    case ClaimColl(account) =>
      var claimable := Balance(s.balances, account);
      && tx.sender == w.borrowerOperations && 0 < claimable
      && claimable <= s.surplus && claimable <= Balance(s.tokens, w.collSurplusPool)
    case SurplusReceive(amount) => tx.sender == w.activePool
    case TokenTransfer(to, amount) => amount <= Balance(s.tokens, tx.sender)
  }

  /** The state after a call that goes through. */
  function Effect(w: Wiring, s: System, tx: Tx): System
    requires Succeeds(w, s, tx)
  {
    match tx.call
    case ActiveSend(account, amount) =>
      var s := s.(active := s.active - amount, tokens := Move(s.tokens, w.activePool, account, amount));
      if account == w.defaultPool then s.(default_ := s.default_ + amount)
      else if account == w.collSurplusPool then s.(surplus := s.surplus + amount)
      else s
    case ActiveReceive(amount) => s.(active := s.active + amount)
    case ActiveIncreaseDebt(amount) => s.(activeDebt := s.activeDebt + amount)
    case ActiveDecreaseDebt(amount) => s.(activeDebt := s.activeDebt - amount)
    case DefaultSend(amount) =>
      s.(default_ := s.default_ - amount, active := s.active + amount,
         tokens := Move(s.tokens, w.defaultPool, w.activePool, amount))
    case DefaultReceive(amount) => s.(default_ := s.default_ + amount)
    case DefaultIncreaseDebt(amount) => s.(defaultDebt := s.defaultDebt + amount)
    case DefaultDecreaseDebt(amount) => s.(defaultDebt := s.defaultDebt - amount)
    case AccountSurplus(account, amount) =>
      s.(balances := s.balances[account := Balance(s.balances, account) + amount])
    case ClaimColl(account) =>
      var claimable := Balance(s.balances, account);
      s.(balances := s.balances[account := 0], surplus := s.surplus - claimable,
         tokens := Move(s.tokens, w.collSurplusPool, account, claimable))
    case SurplusReceive(amount) => s.(surplus := s.surplus + amount)
    case TokenTransfer(to, amount) => s.(tokens := Move(s.tokens, tx.sender, to, amount))
  }

  function Step(w: Wiring, s: System, tx: Tx): System {
    if Succeeds(w, s, tx) then Effect(w, s, tx) else s
  }

  /** The pools call each other only from the code modelled above: the senders of a run are other accounts. */
  predicate FromOutside(w: Wiring, run: seq<Tx>) {
    forall i :: 0 <= i < |run| ==> run[i].sender !in {w.activePool, w.defaultPool, w.collSurplusPool}
  }

  function Initial(tokens: map<address, nat>): System {
    System(0, 0, 0, 0, 0, map[], tokens)
  }

  /** The state before transaction `n` of a run of freshly wired pools. */
  function At(w: Wiring, tokens: map<address, nat>, run: seq<Tx>, n: nat): System
    requires n <= |run|
  {
    if n == 0 then Initial(tokens) else Step(w, At(w, tokens, run, n - 1), run[n - 1])
  }

  /** What has passed through the pools. */
  datatype Totals = Totals(
    reported: nat,    // what BorrowerOperations reported to the active pool
    sentOut: nat,     // what the active pool sent to accounts other than the two pools
    claimed: nat,     // what the surplus pool paid out
    accounted: nat,   // what was booked as surplus of some account
    toSurplus: nat,   // what the active pool sent to the surplus pool
    arrived: nat,     // tokens that reached the active pool, or stayed there, beside its tracker
    toDefault: nat,   // what the active pool sent to the default pool
    sentBack: nat,    // what the default pool sent to the active pool
    activeDebtAdded: nat, activeDebtRemoved: nat,    // what was added to and taken off each debt counter
    defaultDebtAdded: nat, defaultDebtRemoved: nat)

  /** The share of one call in the totals. */
  function Count(w: Wiring, s: System, tx: Tx, t: Totals): Totals {
    if !Succeeds(w, s, tx) then t
    else
      match tx.call
      case ActiveReceive(amount) => t.(reported := t.reported + amount)
      case ActiveSend(account, amount) =>
        var t := if account == w.activePool then t.(arrived := t.arrived + amount) else t;
        if account == w.collSurplusPool then t.(toSurplus := t.toSurplus + amount)
        else if account == w.defaultPool then t.(toDefault := t.toDefault + amount)
        else t.(sentOut := t.sentOut + amount)
      case DefaultSend(amount) => t.(sentBack := t.sentBack + amount)
      case AccountSurplus(account, amount) => t.(accounted := t.accounted + amount)
      case ClaimColl(account) =>
        var claimable := Balance(s.balances, account);
        var t := if account == w.activePool then t.(arrived := t.arrived + claimable) else t;
        t.(claimed := t.claimed + claimable)
      case TokenTransfer(to, amount) => if to == w.activePool then t.(arrived := t.arrived + amount) else t
      case ActiveIncreaseDebt(amount) => t.(activeDebtAdded := t.activeDebtAdded + amount)
      case ActiveDecreaseDebt(amount) => t.(activeDebtRemoved := t.activeDebtRemoved + amount)
      case DefaultIncreaseDebt(amount) => t.(defaultDebtAdded := t.defaultDebtAdded + amount)
      case DefaultDecreaseDebt(amount) => t.(defaultDebtRemoved := t.defaultDebtRemoved + amount)
      case _ => t
  }

  function TotalsAt(w: Wiring, tokens: map<address, nat>, run: seq<Tx>, n: nat): Totals
    requires n <= |run|
  {
    if n == 0 then Totals(0, 0, 0, 0, 0, 0, 0, 0, 0, 0, 0, 0)
    else Count(w, At(w, tokens, run, n - 1), run[n - 1], TotalsAt(w, tokens, run, n - 1))
  }

  lemma MoveBalance(m: map<address, nat>, from: address, to: address, amount: nat, a: address)
    requires amount <= Balance(m, from)
    ensures Balance(Move(m, from, to, amount), a)
         == Balance(m, a) - (if a == from then amount else 0) + (if a == to then amount else 0)
  {
  }

  /** The conservation laws of the totals: of collateral, and of each debt. */
  predicate Conserved(s: System, t: Totals) {
    CollateralConserved(s, t) && DebtsConserved(s, t)
  }

  predicate CollateralConserved(s: System, t: Totals) {
    && t.reported == s.active + s.default_ + s.surplus + t.sentOut + t.claimed
    && s.default_ + t.sentBack == t.toDefault
  }

  predicate DebtsConserved(s: System, t: Totals) {
    && s.activeDebt + t.activeDebtRemoved == t.activeDebtAdded
    && s.defaultDebt + t.defaultDebtRemoved == t.defaultDebtAdded
  }

  lemma CollateralStep(w: Wiring, s: System, tx: Tx, t: Totals)
    requires DistinctWiring(w) && tx.sender !in {w.activePool, w.defaultPool, w.collSurplusPool}
    requires CollateralConserved(s, t)
    ensures CollateralConserved(Step(w, s, tx), Count(w, s, tx, t))
  {
    hide Move, Balance;
    if tx.call.ActiveSend? {
      SendStep(w, s, tx, t);
    }
  }

  lemma SendStep(w: Wiring, s: System, tx: Tx, t: Totals)
    requires DistinctWiring(w) && tx.call.ActiveSend? && CollateralConserved(s, t)
    ensures CollateralConserved(Step(w, s, tx), Count(w, s, tx, t))
  {
    hide Move, Balance;
  }

  lemma DebtStep(w: Wiring, s: System, tx: Tx, t: Totals)
    requires DebtsConserved(s, t)
    ensures DebtsConserved(Step(w, s, tx), Count(w, s, tx, t))
  {
    hide Move, Balance;
  }

  lemma ConservedStep(w: Wiring, s: System, tx: Tx, t: Totals)
    requires DistinctWiring(w) && tx.sender !in {w.activePool, w.defaultPool, w.collSurplusPool} && Conserved(s, t)
    ensures Conserved(Step(w, s, tx), Count(w, s, tx, t))
  {
    hide Step, Count, CollateralConserved, DebtsConserved;
    CollateralStep(w, s, tx, t);
    DebtStep(w, s, tx, t);
  }

  lemma ConservedAtStart(tokens: map<address, nat>)
    ensures Conserved(Initial(tokens), Totals(0, 0, 0, 0, 0, 0, 0, 0, 0, 0, 0, 0))
  {
  }

  /**
   * Conservation: all that BorrowerOperations ever reported is in one of the three trackers, or
   * was sent out by the active pool, or was claimed; the default pool's tracker holds what it was sent less
   * what it sent back, and each debt counter what was added to it less what was taken off.
   */
  lemma {:induction false} Conservation(w: Wiring, tokens: map<address, nat>, run: seq<Tx>, n: nat)
    requires DistinctWiring(w) && FromOutside(w, run) && n <= |run|
    ensures Conserved(At(w, tokens, run, n), TotalsAt(w, tokens, run, n))
  {
    hide Step, Count, Conserved;
    if n == 0 {
      ConservedAtStart(tokens);
    } else {
      Conservation(w, tokens, run, n - 1);
      ConservedStep(w, At(w, tokens, run, n - 1), run[n - 1], TotalsAt(w, tokens, run, n - 1));
    }
  }

  /** The tokens behind the trackers; `initial` is what the active pool held at the start. */
  predicate Solvent(w: Wiring, s: System, t: Totals, initial: nat) {
    && s.default_ <= Balance(s.tokens, w.defaultPool)
    && s.surplus <= Balance(s.tokens, w.collSurplusPool)
    && Balance(s.tokens, w.activePool) + t.reported == initial + t.arrived + s.active
  }

  lemma SolventStep(w: Wiring, s: System, tx: Tx, t: Totals, initial: nat)
    requires DistinctWiring(w) && tx.sender !in {w.activePool, w.defaultPool, w.collSurplusPool}
    requires Solvent(w, s, t, initial)
    ensures Solvent(w, Step(w, s, tx), Count(w, s, tx, t), initial)
  {
    if Succeeds(w, s, tx) {
      match tx.call
      case ActiveSend(account, amount) => MovedBalances(w, s.tokens, w.activePool, account, amount);
      case DefaultSend(amount) => MovedBalances(w, s.tokens, w.defaultPool, w.activePool, amount);
      case ClaimColl(account) =>
        MovedBalances(w, s.tokens, w.collSurplusPool, account, Balance(s.balances, account));
      case TokenTransfer(to, amount) => MovedBalances(w, s.tokens, tx.sender, to, amount);
      case _ =>
    }
    hide Move, Balance;
  }

  /** What an exact transfer does to the balances of the three pools. */
  lemma MovedBalances(w: Wiring, m: map<address, nat>, from: address, to: address, amount: nat)
    requires amount <= Balance(m, from)
    ensures forall a :: a in {w.activePool, w.defaultPool, w.collSurplusPool} ==>
              Balance(Move(m, from, to, amount), a)
              == Balance(m, a) - (if a == from then amount else 0) + (if a == to then amount else 0)
  {
    MoveBalance(m, from, to, amount, w.activePool);
    MoveBalance(m, from, to, amount, w.defaultPool);
    MoveBalance(m, from, to, amount, w.collSurplusPool);
  }

  /**
   * Solvency: the default and surplus pools hold at least what they track. The active pool's balance
   * and tracker differ by exactly what arrived beside the tracker less what was reported.
   */
  lemma {:induction false} Solvency(w: Wiring, tokens: map<address, nat>, run: seq<Tx>, n: nat)
    requires DistinctWiring(w) && FromOutside(w, run) && n <= |run|
    ensures Solvent(w, At(w, tokens, run, n), TotalsAt(w, tokens, run, n), Balance(tokens, w.activePool))
  {
    hide Step, Count;
    if n > 0 {
      Solvency(w, tokens, run, n - 1);
      SolventStep(w, At(w, tokens, run, n - 1), run[n - 1], TotalsAt(w, tokens, run, n - 1),
                  Balance(tokens, w.activePool));
    }
  }

  /** The active pool holds what it tracks exactly as long as the reports stay within what arrived. */
  lemma ActiveSolvencyIff(w: Wiring, tokens: map<address, nat>, run: seq<Tx>, n: nat)
    requires DistinctWiring(w) && FromOutside(w, run) && n <= |run|
    ensures var s, t := At(w, tokens, run, n), TotalsAt(w, tokens, run, n);
            s.active <= Balance(s.tokens, w.activePool) <==> t.reported <= Balance(tokens, w.activePool) + t.arrived
  {
    Solvency(w, tokens, run, n);
  }

  /** The sum of all surplus balances. */
  ghost function SumOf(m: map<address, nat>): nat {
    if m == map[] then 0
    else
      var k :| k in m;
      m[k] + SumOf(m - {k})
  }

  lemma {:induction false} SumWithout(m: map<address, nat>, k: address)
    requires k in m
    ensures SumOf(m) == m[k] + SumOf(m - {k})
    decreases |m|
  {
    var j :| j in m && SumOf(m) == m[j] + SumOf(m - {j});
    if j != k {
      SumWithout(m - {j}, k);
      SumWithout(m - {k}, j);
      assert m - {j} - {k} == m - {k} - {j};
    }
  }

  lemma SumUpdate(m: map<address, nat>, k: address, v: nat)
    ensures SumOf(m[k := v]) == SumOf(m) - Balance(m, k) + v
    ensures SumOf(m) >= Balance(m, k)
  {
    SumWithout(m[k := v], k);
    if k in m {
      SumWithout(m, k);
      assert m[k := v] - {k} == m - {k};
    } else {
      assert m[k := v] - {k} == m;
    }
  }

  /** Surpluses: what is booked less what is claimed, and what the tracker received less what is claimed. */
  ghost predicate Surplused(s: System, t: Totals) {
    && SumOf(s.balances) + t.claimed == t.accounted
    && s.surplus + t.claimed == t.toSurplus
  }

  lemma SurplusedStep(w: Wiring, s: System, tx: Tx, t: Totals)
    requires DistinctWiring(w) && tx.sender !in {w.activePool, w.defaultPool, w.collSurplusPool} && Surplused(s, t)
    ensures Surplused(Step(w, s, tx), Count(w, s, tx, t))
  {
    if Succeeds(w, s, tx) {
      match tx.call
      case AccountSurplus(account, amount) => SumUpdate(s.balances, account, Balance(s.balances, account) + amount);
      case ClaimColl(account) => SumUpdate(s.balances, account, 0);
      case _ =>
    }
    hide Move, Balance, SumOf;
  }

  /**
   * The sum of the surplus balances exceeds the surplus tracker by exactly what was accounted beyond
   * what the active pool sent; claims change neither side of this difference.
   */
  lemma {:induction false} SurplusDifference(w: Wiring, tokens: map<address, nat>, run: seq<Tx>, n: nat)
    requires DistinctWiring(w) && FromOutside(w, run) && n <= |run|
    ensures Surplused(At(w, tokens, run, n), TotalsAt(w, tokens, run, n))
    ensures var s, t := At(w, tokens, run, n), TotalsAt(w, tokens, run, n);
            SumOf(s.balances) - s.surplus == t.accounted - t.toSurplus
  {
    hide Step, Count;
    if n > 0 {
      SurplusDifference(w, tokens, run, n - 1);
      SurplusedStep(w, At(w, tokens, run, n - 1), run[n - 1], TotalsAt(w, tokens, run, n - 1));
    }
  }

  /** One account's claim. */
  function Claim(w: Wiring, account: address): Tx {
    Tx(w.borrowerOperations, ClaimColl(account))
  }

  /** Every account of the list claims in turn and none of the claims reverts. */
  predicate AllClaimsSucceed(w: Wiring, s: System, accounts: seq<address>)
    decreases |accounts|
  {
    accounts == [] ||
    (Succeeds(w, s, Claim(w, accounts[0])) && AllClaimsSucceed(w, Step(w, s, Claim(w, accounts[0])), accounts[1..]))
  }

  function AfterClaims(w: Wiring, s: System, accounts: seq<address>): System
    decreases |accounts|
  {
    if accounts == [] then s else AfterClaims(w, Step(w, s, Claim(w, accounts[0])), accounts[1..])
  }

  function SumFor(m: map<address, nat>, accounts: seq<address>): nat {
    if accounts == [] then 0 else Balance(m, accounts[0]) + SumFor(m, accounts[1..])
  }

  lemma {:induction false} SumForOther(m: map<address, nat>, accounts: seq<address>, k: address, v: nat)
    requires k !in accounts
    ensures SumFor(m[k := v], accounts) == SumFor(m, accounts)
  {
    if accounts != [] {
      SumForOther(m, accounts[1..], k, v);
    }
  }

  /** Distinct accounts, each with something to claim. */
  predicate Claimants(s: System, accounts: seq<address>) {
    NoDuplicates(accounts) && forall i :: 0 <= i < |accounts| ==> Balance(s.balances, accounts[i]) > 0
  }

  /**
   * Accounts can claim one after the other, in whatever order they are listed, exactly when the
   * tracker covers their balances; it ends lower by what they claimed.
   */
  lemma {:induction false} ClaimsSucceedIff(w: Wiring, s: System, accounts: seq<address>)
    requires Claimants(s, accounts) && s.surplus <= Balance(s.tokens, w.collSurplusPool)
    ensures AllClaimsSucceed(w, s, accounts) <==> SumFor(s.balances, accounts) <= s.surplus
    ensures AllClaimsSucceed(w, s, accounts) ==>
              AfterClaims(w, s, accounts).surplus == s.surplus - SumFor(s.balances, accounts)
    decreases |accounts|
  {
    if accounts != [] {
      var a, rest := accounts[0], accounts[1..];
      var s' := Step(w, s, Claim(w, a));
      if Succeeds(w, s, Claim(w, a)) {
        var amount := Balance(s.balances, a);
        MoveBalance(s.tokens, w.collSurplusPool, a, amount, w.collSurplusPool);
        assert a !in rest;
        SumForOther(s.balances, rest, a, 0);
        forall i | 0 <= i < |rest| ensures Balance(s'.balances, rest[i]) > 0 {
          assert rest[i] == accounts[i + 1];
        }
        ClaimsSucceedIff(w, s', rest);
      }
    }
  }

  /** The balances of distinct accounts add up to no more than all balances, and to all of them when no other account has any. */
  lemma {:induction false} SumForBound(m: map<address, nat>, accounts: seq<address>)
    requires NoDuplicates(accounts)
    ensures SumFor(m, accounts) <= SumOf(m)
    ensures (forall a :: Balance(m, a) > 0 ==> a in accounts) ==> SumFor(m, accounts) == SumOf(m)
    decreases |accounts|
  {
    if accounts == [] {
      if forall a :: Balance(m, a) > 0 ==> a in accounts {
        SumOfZeros(m);
      }
    } else {
      var a, rest := accounts[0], accounts[1..];
      assert a !in rest;
      SumUpdate(m, a, 0);
      SumForOther(m, rest, a, 0);
      SumForBound(m[a := 0], rest);
      if forall b :: Balance(m, b) > 0 ==> b in accounts {
        forall b | Balance(m[a := 0], b) > 0 ensures b in rest {
          assert Balance(m, b) > 0;
        }
      }
    }
  }

  lemma {:induction false} SumOfZeros(m: map<address, nat>)
    requires forall a :: Balance(m, a) == 0
    ensures SumOf(m) == 0
    decreases |m|
  {
    if m != map[] {
      var k :| k in m;
      SumWithout(m, k);
      assert forall a :: a in m - {k} ==> Balance(m, a) == m[a];
      forall a ensures Balance(m - {k}, a) == 0 {
        assert Balance(m, a) == 0;
      }
      assert Balance(m, k) == 0;
      SumOfZeros(m - {k});
    }
  }

  /**
   * All accounts with a balance can claim, in whatever order, exactly when the active pool has sent
   * the surplus pool at least what was accounted; if it has sent just as much, the last claim leaves
   * the tracker at zero. Then any selection of accounts can claim as well.
   */
  lemma SurplusIsClaimableIff(w: Wiring, tokens: map<address, nat>, run: seq<Tx>, n: nat, accounts: seq<address>)
    requires DistinctWiring(w) && FromOutside(w, run) && n <= |run|
    requires Claimants(At(w, tokens, run, n), accounts)
    ensures var s, t := At(w, tokens, run, n), TotalsAt(w, tokens, run, n);
            && (t.accounted <= t.toSurplus ==> AllClaimsSucceed(w, s, accounts))
            && ((forall a :: Balance(s.balances, a) > 0 ==> a in accounts) ==>
                  && (AllClaimsSucceed(w, s, accounts) <==> t.accounted <= t.toSurplus)
                  && (t.accounted == t.toSurplus ==> AfterClaims(w, s, accounts).surplus == 0))
  {
    var s := At(w, tokens, run, n);
    Solvency(w, tokens, run, n);
    SurplusDifference(w, tokens, run, n);
    SumForBound(s.balances, accounts);
    ClaimsSucceedIff(w, s, accounts);
  }
}
