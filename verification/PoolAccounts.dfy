/**
 * Who gets what from the pools: the token balance and the claimable surplus of every single account, over every
 * run of calls, and who can make the pools do anything at all.
 */
module PoolAccounts {
  import opened Accounts
  import opened PoolSystem

  /** What has happened to one account. */
  datatype Ledger = Ledger(
    sent: nat,        // tokens that the active pool sent to it
    claimed: nat,     // tokens that the surplus pool paid it
    incoming: nat,    // tokens that others transferred to it
    outgoing: nat,    // tokens that it transferred
    booked: nat)      // surplus that was accounted to it

  /** The share of one call in the ledger of account `a`. */
  function Enter(w: Wiring, s: System, tx: Tx, a: address, l: Ledger): Ledger {
    if !Succeeds(w, s, tx) then l
    else
      match tx.call
      case ActiveSend(account, amount) => if account == a then l.(sent := l.sent + amount) else l
      case AccountSurplus(account, amount) => if account == a then l.(booked := l.booked + amount) else l
      case ClaimColl(account) => if account == a then l.(claimed := l.claimed + Balance(s.balances, a)) else l
      case TokenTransfer(to, amount) =>
        var l := if tx.sender == a then l.(outgoing := l.outgoing + amount) else l;
        if to == a then l.(incoming := l.incoming + amount) else l
      case _ => l
  }

  function LedgerAt(w: Wiring, tokens: map<address, nat>, run: seq<Tx>, n: nat, a: address): Ledger
    requires n <= |run|
  {
    if n == 0 then Ledger(0, 0, 0, 0, 0)
    else Enter(w, At(w, tokens, run, n - 1), run[n - 1], a, LedgerAt(w, tokens, run, n - 1, a))
  }

  /** The books of account `a` balance; `initial` is what it held at the start. */
  predicate Balanced(s: System, a: address, l: Ledger, initial: nat) {
    && Balance(s.tokens, a) + l.outgoing == initial + l.sent + l.claimed + l.incoming
    && Balance(s.balances, a) + l.claimed == l.booked
  }

  lemma BalancedStep(w: Wiring, s: System, tx: Tx, a: address, l: Ledger, initial: nat)
    requires a !in {w.activePool, w.defaultPool, w.collSurplusPool} && Balanced(s, a, l, initial)
    ensures Balanced(Step(w, s, tx), a, Enter(w, s, tx, a, l), initial)
  {
    if Succeeds(w, s, tx) {
      match tx.call
      case ActiveSend(account, amount) => MoveBalance(s.tokens, w.activePool, account, amount, a);
      case DefaultSend(amount) => MoveBalance(s.tokens, w.defaultPool, w.activePool, amount, a);
      case ClaimColl(account) =>
        MoveBalance(s.tokens, w.collSurplusPool, account, Balance(s.balances, account), a);
      case TokenTransfer(to, amount) => MoveBalance(s.tokens, tx.sender, to, amount, a);
      case _ =>
    }
    BookedStep(w, s, tx, a, l);
    hide Move, Balance;
  }

  lemma BookedStep(w: Wiring, s: System, tx: Tx, a: address, l: Ledger)
    requires Balance(s.balances, a) + l.claimed == l.booked
    ensures var l' := Enter(w, s, tx, a, l); Balance(Step(w, s, tx).balances, a) + l'.claimed == l'.booked
  {
    hide Move;
  }

  /**
   * Over every run an account outside the pools holds what it held at the start, what the active pool sent to it, what
   * it claimed and what others transferred to it, less what it transferred; and it can claim what was accounted
   * to it less what it claimed.
   */
  lemma {:induction false} EveryAccountBalances(w: Wiring, tokens: map<address, nat>, run: seq<Tx>, n: nat, a: address)
    requires a !in {w.activePool, w.defaultPool, w.collSurplusPool} && n <= |run|
    ensures Balanced(At(w, tokens, run, n), a, LedgerAt(w, tokens, run, n, a), Balance(tokens, a))
  {
    hide Step, Enter;
    if n > 0 {
      EveryAccountBalances(w, tokens, run, n - 1, a);
      BalancedStep(w, At(w, tokens, run, n - 1), run[n - 1], a, LedgerAt(w, tokens, run, n - 1, a), Balance(tokens, a));
    }
  }

  /** A claim pays the account all that was accounted to it and not yet claimed, and nobody else anything. */
  lemma ClaimPays(w: Wiring, tokens: map<address, nat>, run: seq<Tx>, n: nat, account: address, a: address)
    requires n < |run| && run[n] == Claim(w, account) && Succeeds(w, At(w, tokens, run, n), run[n])
    requires a !in {w.activePool, w.defaultPool, w.collSurplusPool}
    ensures var l := LedgerAt(w, tokens, run, n, a);
            Balance(At(w, tokens, run, n + 1).tokens, a)
            == Balance(At(w, tokens, run, n).tokens, a) + if a == account then l.booked - l.claimed else 0
  {
    EveryAccountBalances(w, tokens, run, n, a);
    EveryAccountBalances(w, tokens, run, n + 1, a);
    hide Step, Balance;
  }

  /** The calls of accounts other than the three wired callers move no tracker, no debt and no surplus. */
  lemma {:induction false} OutsidersMoveNothing(w: Wiring, tokens: map<address, nat>, run: seq<Tx>, m: nat, n: nat)
    requires m <= n <= |run| && FromOutside(w, run)
    requires forall i :: m <= i < n ==> run[i].sender !in {w.borrowerOperations, w.troveManager, w.stabilityPool}
    ensures At(w, tokens, run, n).(tokens := At(w, tokens, run, m).tokens) == At(w, tokens, run, m)
  {
    if m < n {
      OutsidersMoveNothing(w, tokens, run, m, n - 1);
      OutsiderStep(w, At(w, tokens, run, n - 1), run[n - 1]);
    }
    hide Step;
  }

  lemma OutsiderStep(w: Wiring, s: System, tx: Tx)
    requires tx.sender !in {w.borrowerOperations, w.troveManager, w.stabilityPool}
    requires tx.sender !in {w.activePool, w.defaultPool, w.collSurplusPool}
    ensures Step(w, s, tx).(tokens := s.tokens) == s
  {
  }

  /**
   * What each caller can do in every reachable state. Tokens are never what is missing for a transfer out of the default
   * and surplus pools, nor out of the active pool as long as the reports stay within what arrived.
   */
  lemma CallsSucceedIff(w: Wiring, tokens: map<address, nat>, run: seq<Tx>, n: nat, tx: Tx)
    requires DistinctWiring(w) && FromOutside(w, run) && n <= |run|
    requires tx.sender !in {w.activePool, w.defaultPool, w.collSurplusPool}
    requires TotalsAt(w, tokens, run, n).reported <= Balance(tokens, w.activePool) + TotalsAt(w, tokens, run, n).arrived
    ensures var s, t := At(w, tokens, run, n), TotalsAt(w, tokens, run, n);
            var operations, troves, stability :=
              tx.sender == w.borrowerOperations, tx.sender == w.troveManager, tx.sender == w.stabilityPool;
            Succeeds(w, s, tx) <==>
              match tx.call
              case ActiveSend(_, amount) => (operations || troves || stability) && amount <= s.active
              case ActiveReceive(_) => operations
              case ActiveIncreaseDebt(_) => operations || troves
              case ActiveDecreaseDebt(amount) =>
                (operations || troves || stability) && amount + t.activeDebtRemoved <= t.activeDebtAdded
              case DefaultSend(amount) => troves && amount + t.sentBack <= t.toDefault
              case DefaultReceive(_) => false
              case DefaultIncreaseDebt(_) => troves
              case DefaultDecreaseDebt(amount) => troves && amount + t.defaultDebtRemoved <= t.defaultDebtAdded
              case AccountSurplus(_, _) => troves
              case ClaimColl(account) =>
                operations && 0 < Balance(s.balances, account) && Balance(s.balances, account) + t.claimed <= t.toSurplus
              case SurplusReceive(_) => false
              case TokenTransfer(_, amount) => amount <= Balance(s.tokens, tx.sender)
  {
    Conservation(w, tokens, run, n);
    Solvency(w, tokens, run, n);
    SurplusDifference(w, tokens, run, n);
    hide Step, Count, Move, Balance;
  }
}
