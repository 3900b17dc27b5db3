/**
 * The redemption loop of contracts/TroveManager.sol, which the hints of contracts/HintHelpers.sol are for,
 * and the theorem that the hints make it redeem exactly the truncated amount.
 */
module TroveManager {
  import opened Accounts
  import opened Arithmetic
  import opened LiquityMath
  import opened HintHelpers
  import opened RedemptionProofs
  import SortedTroves

  /** Totals over the troves redeemed, and whether the last step was bailed out of. */
  datatype Redemption = Redeemed(sim: nat, wsteth: nat, cancelled: bool) | Reverted

  /** Owners are distinct and not null, as the nodes of contracts/SortedTroves.sol are. */
  predicate ProperOwners(ts: TroveList) {
    && (forall i :: 0 <= i < |ts| ==> ts[i].owner != NULL)
    && (forall i, j :: 0 <= i < j < |ts| ==> ts[i].owner != ts[j].owner)
  }

  /** The position of an owner in the list, or -1. */
  function PositionOf(ts: TroveList, owner: address): (i: int)
    ensures -1 <= i < |ts| && (i >= 0 ==> ts[i].owner == owner)
    ensures i < 0 ==> forall j :: 0 <= j < |ts| ==> ts[j].owner != owner
  {
    if ts == [] then -1
    else if ts[|ts| - 1].owner == owner then |ts| - 1
    else PositionOf(ts[..|ts| - 1], owner)
  }

  /** `_isValidFirstRedemptionHint`. */
  predicate IsValidFirstHint(ts: TroveList, hint: address, price: nat) {
    var i := PositionOf(ts, hint);
    && hint != NULL && i >= 0
    && ts[i].CurrentICR(price) >= MCR
    && (i + 1 < |ts| ==> ts[i + 1].CurrentICR(price) < MCR)
  }

  /** How many troves, counted from the head, the redemption may still visit when it starts. */
  function Start(ts: TroveList, hint: address, price: nat): (n: nat)
    ensures n <= |ts|
  {
    if IsValidFirstHint(ts, hint, price) then PositionOf(ts, hint) + 1 else Redeemables(ts, |ts|, price)
  }

  /** What one trove gives, or that its partial redemption is bailed out of, or that the call reverts. */
  datatype SingleRedemption = Single(simLot: nat, wstethLot: nat) | Cancelled | Failed

  /** Whether the collateral reward per unit staked has grown since an owner's snapshot: `hasPendingRewards`. */
  type Rewarded = address -> bool

  /**
   * `_applyPendingRewards`. It looks at the collateral reward alone: a debt reward that came without
   * one is not applied.
   */
  function Applied(t: Trove, rewarded: Rewarded): Trove {
    if rewarded(t.owner) then Trove(t.owner, t.Coll(), t.Debt(), 0, 0) else t
  }

  /** `_redeemCollateralFromTrove`, with `size` troves in the system: the last one cannot be closed. */
  function RedeemCollateralFromTrove(t: Trove, maxSIMamount: nat, price: nat, nicr: nat, size: nat): (s: SingleRedemption)
    ensures s.Single? ==> s.simLot <= maxSIMamount
  {
    var simLot := Min(maxSIMamount, t.debt);
    if price == 0 || simLot * DECIMAL_PRECISION / price > t.coll then Failed
    else
      var wstethLot := simLot * DECIMAL_PRECISION / price;
      var newDebt := t.debt - simLot;
      if newDebt == 0 then
        if size > 1 then Single(simLot, wstethLot) else Failed
      else
        var newNICR := ComputeNominalCR(t.coll - wstethLot, newDebt);
        if newNICR != nicr || newDebt < MIN_NET_DEBT then Cancelled
        else if newNICR == 0 then Failed // the sorted list refuses it
        else Single(simLot, wstethLot)
  }

  /** How many troves are left once `simLot` has been redeemed from a trove. */
  function SizeAfter(t: Trove, simLot: nat, size: nat): nat {
    if simLot == t.debt && size > 0 then size - 1 else size
  }

  /** The redemption loop from trove `n - 1` towards the head, with `size` troves in the system. */
  function RedeemFrom(ts: TroveList, rewarded: Rewarded, n: nat, size: nat, remaining: nat, price: nat, nicr: nat,
                      iterations: nat): Redemption
    requires n <= |ts|
  {
    if n == 0 || remaining == 0 || iterations == 0 then Redeemed(0, 0, false)
    else
      var t := Applied(ts[n - 1], rewarded);
      match RedeemCollateralFromTrove(t, remaining, price, nicr, size)
      case Failed => Reverted
      case Cancelled => Redeemed(0, 0, true)
      case Single(simLot, wstethLot) =>
        Plus(RedeemFrom(ts, rewarded, n - 1, SizeAfter(t, simLot, size), remaining - simLot, price, nicr, iterations - 1),
             simLot, wstethLot)
  }

  /** The specification of the part of `redeemCollateral` that chooses troves and amounts. */
  function Redemptions(ts: TroveList, rewarded: Rewarded, amount: nat, price: nat, hint: address, nicr: nat,
                       maxIterations: nat): Redemption {
    RedeemFrom(ts, rewarded, Start(ts, hint, price), |ts|, amount, price, nicr, Cap(maxIterations))
  }

  /** `redeemCollateral`, from the choice of the first trove to the end of the loop. */
  method RedeemCollateral(ts: TroveList, rewarded: Rewarded, amount: nat, price: nat, hint: address, nicr: nat,
                          maxIterations: nat)
    returns (r: Redemption)
    ensures r == Redemptions(ts, rewarded, amount, price, hint, nicr, maxIterations)
  {
    hide RedeemCollateralFromTrove, IsValidFirstHint, Applied;
    var current: int;
    if IsValidFirstHint(ts, hint, price) {
      current := PositionOf(ts, hint);
    } else {
      current := |ts| - 1;
      while current >= 0 && ts[current].CurrentICR(price) < MCR
        invariant -1 <= current < |ts|
        invariant Redeemables(ts, |ts|, price) == Redeemables(ts, current + 1, price)
      {
        current := current - 1;
      }
    }
    ghost var n := current + 1;
    var remaining: nat := amount;
    var iterations: nat := Cap(maxIterations);
    var size: nat := |ts|;
    var sim: nat, wsteth: nat := 0, 0;
    while current >= 0 && remaining > 0 && iterations > 0
      invariant -1 <= current < |ts|
      invariant RedeemFrom(ts, rewarded, n, |ts|, amount, price, nicr, Cap(maxIterations))
             == Plus(RedeemFrom(ts, rewarded, current + 1, size, remaining, price, nicr, iterations), sim, wsteth)
      decreases current
    {
      iterations := iterations - 1;
      var t := Applied(ts[current], rewarded);
      match RedeemCollateralFromTrove(t, remaining, price, nicr, size)
      case Failed =>
        return Reverted;
      case Cancelled =>
        return Redeemed(sim, wsteth, true);
      case Single(simLot, wstethLot) =>
        sim := sim + simLot;
        wsteth := wsteth + wstethLot;
        remaining := remaining - simLot;
        size := SizeAfter(t, simLot, size);
        current := current - 1;
    }
    return Redeemed(sim, wsteth, false);
  }

  function Plus(r: Redemption, sim: nat, wsteth: nat): Redemption {
    match r
    case Reverted => Reverted
    case Redeemed(s, w, c) => Redeemed(s + sim, w + wsteth, c)
  }

  /** Every trove below the first redeemable one is under the minimum ratio, and that one is not. */
  lemma {:induction false} FirstRedeemable(ts: TroveList, n: nat, price: nat)
    requires n <= |ts|
    ensures var m := Redeemables(ts, n, price);
            && (m > 0 ==> ts[m - 1].CurrentICR(price) >= MCR)
            && forall i :: m <= i < n ==> ts[i].CurrentICR(price) < MCR
  {
    if n > 0 && ts[n - 1].CurrentICR(price) < MCR {
      FirstRedeemable(ts, n - 1, price);
    }
  }

  lemma {:induction false} PositionUnique(ts: TroveList, i: nat)
    requires ProperOwners(ts) && i < |ts|
    ensures PositionOf(ts, ts[i].owner) == i
  {
    var n := |ts| - 1;
    if i < n {
      assert ts[n].owner != ts[i].owner;
      PositionUnique(ts[..n], i);
    }
  }

  /** The first hint names the trove closest to the tail with ICR at least the minimum, and is accepted as such. */
  lemma FirstHintAccepted(ts: TroveList, amount: nat, price: nat, maxIterations: nat)
    requires ProperOwners(ts) && RedemptionHints(ts, amount, price, maxIterations).Hints?
    ensures var hint := RedemptionHints(ts, amount, price, maxIterations).firstRedemptionHint;
            && Start(ts, hint, price) == Redeemables(ts, |ts|, price)
            && (hint != NULL <==> exists i :: 0 <= i < |ts| && ts[i].CurrentICR(price) >= MCR)
            && (hint != NULL ==> IsValidFirstHint(ts, hint, price))
  {
    var n := Redeemables(ts, |ts|, price);
    FirstRedeemable(ts, |ts|, price);
    if n > 0 {
      PositionUnique(ts, n - 1);
    }
  }

  /** The debt of the `n` troves closest to the head. */
  function TotalDebt(ts: TroveList, n: nat): nat
    requires n <= |ts|
  {
    if n == 0 then 0 else ts[n - 1].Debt() + TotalDebt(ts, n - 1)
  }

  /** No reward of the `n` troves closest to the head is left out when rewards are applied. */
  predicate AllApplied(ts: TroveList, rewarded: Rewarded, n: nat)
    requires n <= |ts|
  {
    forall i :: 0 <= i < n ==> rewarded(ts[i].owner) || (ts[i].pendingColl == 0 && ts[i].pendingDebt == 0)
  }

  lemma LotFits(t: Trove, x: nat, price: nat)
    requires price > 0 && Backed(t, price) && x <= t.Debt()
    ensures x * DECIMAL_PRECISION / price <= t.Coll()
  {
    DivGe(x * DECIMAL_PRECISION, price, t.Coll() + 1);
    assert (t.Coll() + 1) * price == t.Coll() * price + price;
  }

  /** A backed trove gives up to its whole debt, except that the last trove of the system keeps some. */
  lemma FullLot(t: Trove, a: nat, price: nat, nicr: nat, size: nat)
    requires price > 0 && Backed(t, price) && t.pendingColl == 0 && t.pendingDebt == 0 && t.debt <= a
    ensures RedeemCollateralFromTrove(t, a, price, nicr, size)
         == if size > 1 then Single(t.debt, t.debt * DECIMAL_PRECISION / price) else Failed
  {
    LotFits(t, t.debt, price);
  }

  /** With the ratio that the walk reports a partial redemption goes through, and leaves a positive ratio. */
  lemma PartialLot(t: Trove, a: nat, price: nat, size: nat)
    requires price > 0 && Backed(t, price) && t.NominalICR() > 0 && t.pendingColl == 0 && t.pendingDebt == 0
    requires MIN_NET_DEBT < t.debt && 0 < a < t.debt && PartialWalk(t, a, price).Walk? && PartialWalk(t, a, price).remaining == 0
    ensures RedeemCollateralFromTrove(t, a, price, PartialWalk(t, a, price).nicr, size)
         == Single(a, a * DECIMAL_PRECISION / price)
  {
    PartialKeepsRatio(t.coll, t.debt, a, price);
  }

  /**
   * On backed troves the loop redeems what the hints reported, all of it, unless that closes
   * every trove of the system.
   */
  lemma {:induction false} RedeemsTake(ts: TroveList, rewarded: Rewarded, n: nat, size: nat, a: nat, price: nat, cap: nat)
    requires n <= |ts| && n <= size && 1 <= cap && price > 0 && AllApplied(ts, rewarded, n)
    requires forall i :: 0 <= i < n ==> Backed(ts[i], price) && ts[i].Debt() > 0 && ts[i].NominalICR() > 0
    requires Greedy(ts, n, a, price, cap).Walk? && Greedy(ts, n, a, price, cap).remaining == 0
    ensures var r := RedeemFrom(ts, rewarded, n, size, a, price, Greedy(ts, n, a, price, cap).nicr, cap);
            if 0 < n == size && a == TotalDebt(ts, n) then r.Reverted? else r.Redeemed? && r.sim == a && !r.cancelled
  {
    hide Backed, PartialWalk, RedeemCollateralFromTrove;
    if n > 0 && a > 0 && cap > 1 {
      var t := Applied(ts[n - 1], rewarded);
      assert t.Coll() == ts[n - 1].Coll() && t.Debt() == ts[n - 1].Debt();
      SameAmounts(ts[n - 1], t, a, price);
      if t.debt <= a {
        FullLot(t, a, price, Greedy(ts, n, a, price, cap).nicr, size);
        assert Greedy(ts, n, a, price, cap) == Greedy(ts, n - 1, a - t.debt, price, cap - 1);
        RedeemsTake(ts, rewarded, n - 1, size - 1, a - t.debt, price, cap - 1);
        if size == 1 {
          assert n == 1 && a == TotalDebt(ts, n);
          assert RedeemFrom(ts, rewarded, n, size, a, price, Greedy(ts, n, a, price, cap).nicr, cap) == Reverted;
        }
      } else {
        assert MIN_NET_DEBT < t.debt && Greedy(ts, n, a, price, cap) == PartialWalk(t, a, price);
        PartialLot(t, a, price, size);
        assert a < TotalDebt(ts, n);
        assert RedeemFrom(ts, rewarded, n, size, a, price, Greedy(ts, n, a, price, cap).nicr, cap).Redeemed?;
      }
    }
  }

  /** What a trove gives depends on its amounts with rewards only. */
  lemma SameAmounts(t: Trove, t': Trove, a: nat, price: nat)
    requires t.Coll() == t'.Coll() && t.Debt() == t'.Debt()
    ensures Backed(t, price) == Backed(t', price)
    ensures MIN_NET_DEBT < t.Debt() && a < t.Debt() ==> PartialWalk(t, a, price) == PartialWalk(t', a, price)
  {
  }

  /** The walk takes the debt of all `n` troves exactly when the request and the cap allow it. */
  lemma {:induction false} TakesAllIff(ts: TroveList, n: nat, a: nat, cap: nat)
    requires n <= |ts| && 1 <= cap && PositiveDebts(ts)
    ensures Take(Debts(ts, n, cap), a) <= TotalDebt(ts, n)
    ensures Take(Debts(ts, n, cap), a) == TotalDebt(ts, n) <==> a >= TotalDebt(ts, n) && n < cap
  {
    if n > 0 && cap > 1 {
      var ds, d := Debts(ts, n, cap), ts[n - 1].Debt();
      assert ds[0] == d && ds[1..] == Debts(ts, n - 1, cap - 1);
      if d <= a {
        TakesAllIff(ts, n - 1, a - d, cap - 1);
      }
    }
  }

  lemma {:induction false} TotalGrows(ts: TroveList, m: nat, n: nat)
    requires m < n <= |ts| && PositiveDebts(ts)
    ensures TotalDebt(ts, m) < TotalDebt(ts, n)
  {
    if m < n - 1 {
      TotalGrows(ts, m, n - 1);
    }
  }

  /**
   * The request and the cap cover every trove of the system, and the trove at the tail has the
   * minimum ratio: then the redemption would have to close the last trove.
   */
  predicate ClosesAll(ts: TroveList, amount: nat, price: nat, maxIterations: nat) {
    && ts != [] && ts[|ts| - 1].CurrentICR(price) >= MCR
    && amount >= TotalDebt(ts, |ts|) && |ts| < Cap(maxIterations)
  }

  /** The hints report the whole debt of the system exactly in this case. */
  lemma ReportsAllIff(ts: TroveList, amount: nat, price: nat, maxIterations: nat)
    requires PositiveDebts(ts) && ts != [] && RedemptionHints(ts, amount, price, maxIterations).Hints?
    ensures RedemptionHints(ts, amount, price, maxIterations).truncatedSIMamount == TotalDebt(ts, |ts|)
       <==> ClosesAll(ts, amount, price, maxIterations)
  {
    var n := Redeemables(ts, |ts|, price);
    GreedyTakes(ts, n, amount, price, Cap(maxIterations));
    TakesAllIff(ts, n, amount, Cap(maxIterations));
    if n < |ts| {
      TotalGrows(ts, n, |ts|);
    }
    FirstRedeemable(ts, |ts|, price);
  }

  /**
   * What a caller of `redeemCollateral` with the hints for an unchanged list is promised: the loop reverts if and only if
   * the hints cover all troves of the system, because the last one cannot be closed. Otherwise it starts at the
   * hinted trove, cancels nothing and redeems exactly the truncated amount.
   */
  ghost predicate RedeemsAsHinted(ts: TroveList, rewarded: Rewarded, amount: nat, price: nat, maxIterations: nat) {
    var h := RedemptionHints(ts, amount, price, maxIterations);
    h.Hints? &&
    var r := Redemptions(ts, rewarded, h.truncatedSIMamount, price, h.firstRedemptionHint,
                         h.partialRedemptionHintNICR, maxIterations);
    && (r.Reverted? <==> ClosesAll(ts, amount, price, maxIterations))
    && (r.Redeemed? ==> r.sim == h.truncatedSIMamount && !r.cancelled)
  }

  /** When the rewards of all troves that the loop can reach are applied, the promise is kept. */
  lemma HintsRedeemExactly(ts: TroveList, rewarded: Rewarded, amount: nat, price: nat, maxIterations: nat)
    requires Ordered(ts) && PositiveDebts(ts) && ProperOwners(ts) && SafeAt(ts, price)
    requires AllApplied(ts, rewarded, Redeemables(ts, |ts|, price))
    ensures RedeemsAsHinted(ts, rewarded, amount, price, maxIterations)
  {
    hide Start, ClosesAll, Greedy, RedeemFrom, Backed, SafeAt, Ordered, ProperOwners;
    SafeWalk(ts, amount, price, maxIterations);
    FirstHintAccepted(ts, amount, price, maxIterations);
    var n := Redeemables(ts, |ts|, price);
    GreedyAgain(ts, n, amount, price, Cap(maxIterations));
    var h := RedemptionHints(ts, amount, price, maxIterations);
    if n > 0 {
      forall i: nat | i < n ensures price > 0 && Backed(ts[i], price) && ts[i].NominalICR() > 0 {
        SafeReached(ts, price, i);
      }
      assert Backed(ts[0], price);
      RedeemsTake(ts, rewarded, n, |ts|, h.truncatedSIMamount, price, Cap(maxIterations));
      ReportsAllIff(ts, amount, price, maxIterations);
    } else {
      NothingReached(ts, rewarded, amount, price, h.partialRedemptionHintNICR, Cap(maxIterations));
    }
    ClosesAllStarts(ts, amount, price, maxIterations);
  }

  lemma NothingReached(ts: TroveList, rewarded: Rewarded, a: nat, price: nat, nicr: nat, cap: nat)
    requires 1 <= cap
    ensures Greedy(ts, 0, a, price, cap) == Walk(a, 0)
    ensures RedeemFrom(ts, rewarded, 0, |ts|, 0, price, nicr, cap) == Redeemed(0, 0, false)
  {
  }

  /** Collateral rewards are never left out, and no trove has less debt than the minimum. */
  predicate Admissible(ts: TroveList, rewarded: Rewarded) {
    && |ts| < MAX_UINT
    && forall i :: 0 <= i < |ts| ==> ts[i].debt >= MIN_NET_DEBT && (rewarded(ts[i].owner) || ts[i].pendingColl == 0)
  }

  /**
   * The exact condition: every request with every cap is redeemed as hinted if and only if no debt reward is left out
   * for any trove that the loop can reach.
   */
  lemma RedeemsAsHintedIff(ts: TroveList, rewarded: Rewarded, price: nat)
    requires Ordered(ts) && ProperOwners(ts) && SafeAt(ts, price) && Admissible(ts, rewarded)
    ensures (forall i :: 0 <= i < Redeemables(ts, |ts|, price) ==> rewarded(ts[i].owner) || ts[i].pendingDebt == 0)
       <==> forall amount: nat, maxIterations: nat :: RedeemsAsHinted(ts, rewarded, amount, price, maxIterations)
  {
    hide RedeemsAsHinted, SafeAt;
    var n := Redeemables(ts, |ts|, price);
    if AllApplied(ts, rewarded, n) {
      forall amount: nat, maxIterations: nat ensures RedeemsAsHinted(ts, rewarded, amount, price, maxIterations) {
        HintsRedeemExactly(ts, rewarded, amount, price, maxIterations);
      }
    } else {
      var k := LastSkipped(ts, rewarded, n);
      SkippedBreaksHints(ts, rewarded, price, k);
      assert !RedeemsAsHinted(ts, rewarded, BreakingAmount(ts, n, k), price, 0);
    }
  }

  /** The skipped trove that the loop reaches first. */
  lemma {:induction false} LastSkipped(ts: TroveList, rewarded: Rewarded, n: nat) returns (k: nat)
    requires n <= |ts| && !AllApplied(ts, rewarded, n)
    ensures k < n && !rewarded(ts[k].owner) && (ts[k].pendingColl > 0 || ts[k].pendingDebt > 0)
    ensures forall i :: k < i < n ==> rewarded(ts[i].owner) || (ts[i].pendingColl == 0 && ts[i].pendingDebt == 0)
  {
    k := n - 1;
    if rewarded(ts[k].owner) || (ts[k].pendingColl == 0 && ts[k].pendingDebt == 0) {
      k := LastSkipped(ts, rewarded, n - 1);
    }
  }

  /** A part of a trove's debt with rewards that leaves its debt without them below the minimum, but not zero. */
  function BreakingPart(t: Trove): nat
    requires t.debt >= MIN_NET_DEBT
  {
    if t.pendingDebt >= MIN_NET_DEBT then t.debt - 1 else t.Debt() - MIN_NET_DEBT
  }

  /** All debts between trove `k` and the start of the loop, and that part of its own. */
  function BreakingAmount(ts: TroveList, n: nat, k: nat): (a: nat)
    requires k < n <= |ts| && ts[k].debt >= MIN_NET_DEBT
  {
    if n == k + 1 then BreakingPart(ts[k]) else ts[n - 1].Debt() + BreakingAmount(ts, n - 1, k)
  }

  lemma SkippedPart(t: Trove, price: nat, size: nat, nicr: nat)
    requires t.debt >= MIN_NET_DEBT && t.pendingColl == 0 && t.pendingDebt > 0 && price > 0 && Backed(t, price)
    ensures var x := BreakingPart(t);
            && 0 < x < t.debt
            && PartialWalk(t, x, price).Walk? && PartialWalk(t, x, price).remaining == 0
            && RedeemCollateralFromTrove(t, x, price, nicr, size) == Cancelled
  {
    LotFits(t, BreakingPart(t), price);
  }

  /** The hints report the breaking amount in full, and the loop cancels at the skipped trove. */
  lemma {:induction false} SkippedCancels(ts: TroveList, rewarded: Rewarded, n: nat, size: nat, price: nat, nicr: nat,
                                          cap: nat, k: nat)
    requires k < n <= |ts| && n <= size && n < cap && price > 0
    requires !rewarded(ts[k].owner) && ts[k].pendingColl == 0 && ts[k].pendingDebt > 0 && ts[k].debt >= MIN_NET_DEBT
    requires forall i :: k < i < n ==> rewarded(ts[i].owner) || (ts[i].pendingColl == 0 && ts[i].pendingDebt == 0)
    requires forall i :: k <= i < n ==> Backed(ts[i], price) && ts[i].Debt() > 0
    ensures var a := BreakingAmount(ts, n, k);
            && a > 0 && Greedy(ts, n, a, price, cap).Walk? && Greedy(ts, n, a, price, cap).remaining == 0
            && var r := RedeemFrom(ts, rewarded, n, size, a, price, nicr, cap);
               r.Redeemed? && r.cancelled
  {
    hide Backed, PartialWalk, RedeemCollateralFromTrove, BreakingPart;
    var a := BreakingAmount(ts, n, k);
    var t := Applied(ts[n - 1], rewarded);
    if n == k + 1 {
      assert t == ts[k];
      SkippedPart(t, price, size, nicr);
    } else {
      SkippedCancels(ts, rewarded, n - 1, size - 1, price, nicr, cap - 1, k);
      assert t.Coll() == ts[n - 1].Coll() && t.Debt() == ts[n - 1].Debt();
      SameAmounts(ts[n - 1], t, a, price);
      FullLot(t, a, price, nicr, size);
    }
  }

  lemma SkippedBreaksHints(ts: TroveList, rewarded: Rewarded, price: nat, k: nat)
    requires Ordered(ts) && ProperOwners(ts) && SafeAt(ts, price) && Admissible(ts, rewarded)
    requires k < Redeemables(ts, |ts|, price) && !rewarded(ts[k].owner) && ts[k].pendingDebt > 0
    requires forall i :: k < i < Redeemables(ts, |ts|, price) ==>
               rewarded(ts[i].owner) || (ts[i].pendingColl == 0 && ts[i].pendingDebt == 0)
    ensures !RedeemsAsHinted(ts, rewarded, BreakingAmount(ts, Redeemables(ts, |ts|, price), k), price, 0)
  {
    hide IsValidFirstHint, ClosesAll, Backed, SafeAt, Greedy, RedeemFrom, BreakingAmount;
    var n := Redeemables(ts, |ts|, price);
    var a := BreakingAmount(ts, n, k);
    SafeReached(ts, price, k);
    forall i: nat | i < n ensures Backed(ts[i], price) {
      SafeReached(ts, price, i);
    }
    SafeWalk(ts, a, price, 0);
    FirstHintAccepted(ts, a, price, 0);
    var h := RedemptionHints(ts, a, price, 0);
    SkippedCancels(ts, rewarded, n, |ts|, price, h.partialRedemptionHintNICR, Cap(0), k);
  }

  lemma ClosesAllStarts(ts: TroveList, amount: nat, price: nat, maxIterations: nat)
    ensures ClosesAll(ts, amount, price, maxIterations) ==> 0 < |ts| == Redeemables(ts, |ts|, price)
  {
  }

  /** A concrete system of one trove whose whole debt the hints report and the redemption refuses. */
  lemma LastTroveReverts(rewarded: Rewarded)
    ensures var ts := [Trove(1, 2 * DECIMAL_PRECISION, DECIMAL_PRECISION, 0, 0)];
            && RedemptionHints(ts, DECIMAL_PRECISION, DECIMAL_PRECISION, 0) == Hints(1, 0, DECIMAL_PRECISION)
            && Redemptions(ts, rewarded, DECIMAL_PRECISION, DECIMAL_PRECISION, 1, 0, 0) == Reverted
  {
    var ts := [Trove(1, 2 * DECIMAL_PRECISION, DECIMAL_PRECISION, 0, 0)];
    assert Redeemables(ts, 1, DECIMAL_PRECISION) == 1;
    assert Greedy(ts, 0, 0, DECIMAL_PRECISION, MAX_UINT - 1) == Walk(0, 0);
  }

  /** How many troves a redemption takes debt from. */
  function Redeems(ts: TroveList, rewarded: Rewarded, n: nat, size: nat, remaining: nat, price: nat, nicr: nat,
                   iterations: nat): (v: nat)
    requires n <= |ts|
    ensures v <= n && v <= iterations
  {
    if n == 0 || remaining == 0 || iterations == 0 then 0
    else
      var t := Applied(ts[n - 1], rewarded);
      match RedeemCollateralFromTrove(t, remaining, price, nicr, size)
      case Single(simLot, wstethLot) =>
        1 + Redeems(ts, rewarded, n - 1, SizeAfter(t, simLot, size), remaining - simLot, price, nicr, iterations - 1)
      case _ => 0
  }

  /**
   * The redeemer is never overpaid: the collateral drawn is worth at most the debt redeemed, and
   * less than one unit of collateral is lost in each trove redeemed from.
   */
  lemma {:induction false} DrawnAtPrice(ts: TroveList, rewarded: Rewarded, n: nat, size: nat, a: nat, price: nat, nicr: nat,
                                        iterations: nat)
    requires n <= |ts| && RedeemFrom(ts, rewarded, n, size, a, price, nicr, iterations).Redeemed?
    ensures var r := RedeemFrom(ts, rewarded, n, size, a, price, nicr, iterations);
            var v := Redeems(ts, rewarded, n, size, a, price, nicr, iterations);
            && r.wsteth * price <= r.sim * DECIMAL_PRECISION
            && if v == 0 then r.sim == 0 else r.sim * DECIMAL_PRECISION < (r.wsteth + v) * price
  {
    hide RedeemCollateralFromTrove, Applied;
    if n > 0 && a > 0 && iterations > 0 {
      var t := Applied(ts[n - 1], rewarded);
      var s := RedeemCollateralFromTrove(t, a, price, nicr, size);
      if s.Single? {
        var size' := SizeAfter(t, s.simLot, size);
        var rest := RedeemFrom(ts, rewarded, n - 1, size', a - s.simLot, price, nicr, iterations - 1);
        var v := Redeems(ts, rewarded, n - 1, size', a - s.simLot, price, nicr, iterations - 1);
        DrawnAtPrice(ts, rewarded, n - 1, size', a - s.simLot, price, nicr, iterations - 1);
        LotAtPrice(t, a, price, nicr, size);
        AddDrawn(rest.wsteth, s.wstethLot, v, price);
      }
    }
  }

  lemma AddDrawn(w: nat, lot: nat, n: nat, price: nat)
    ensures (w + lot) * price == w * price + lot * price
    ensures (w + lot + n + 1) * price == (w + n) * price + lot * price + price
  {
  }

  lemma LotAtPrice(t: Trove, a: nat, price: nat, nicr: nat, size: nat)
    requires RedeemCollateralFromTrove(t, a, price, nicr, size).Single?
    ensures var s := RedeemCollateralFromTrove(t, a, price, nicr, size);
            s.wstethLot * price <= s.simLot * DECIMAL_PRECISION < s.wstethLot * price + price
  {
    DivBounds(Min(a, t.debt) * DECIMAL_PRECISION, price);
  }

  /** A trove gives the whole debt or all that remains, and then keeps at least the minimum. */
  lemma SingleLot(t: Trove, a: nat, price: nat, nicr: nat, size: nat)
    requires RedeemCollateralFromTrove(t, a, price, nicr, size).Single?
    ensures var lot := RedeemCollateralFromTrove(t, a, price, nicr, size).simLot;
            if t.debt <= a then lot == t.debt else lot == a && a + MIN_NET_DEBT <= t.debt
  {
  }

  /** The debts that the loop finds on the troves that it may visit, in walking order: skipped rewards do not count. */
  function AppliedDebts(ts: TroveList, rewarded: Rewarded, n: nat, iterations: nat): (ds: seq<nat>)
    requires n <= |ts|
    ensures |ds| == Min(n, iterations)
  {
    if n == 0 || iterations == 0 then []
    else [Applied(ts[n - 1], rewarded).debt] + AppliedDebts(ts, rewarded, n - 1, iterations - 1)
  }

  lemma {:induction false} AppliedDebtsAll(ts: TroveList, rewarded: Rewarded, n: nat, iterations: nat)
    requires n <= |ts| && AllApplied(ts, rewarded, n)
    ensures AppliedDebts(ts, rewarded, n, iterations) == Debts(ts, n, iterations + 1)
  {
    if n > 0 && iterations > 0 {
      AppliedDebtsAll(ts, rewarded, n - 1, iterations - 1);
    }
  }

  lemma {:induction false} RedeemedIsRedeemable(ts: TroveList, rewarded: Rewarded, n: nat, size: nat, a: nat, price: nat,
                                                nicr: nat, iterations: nat)
    requires n <= |ts| && RedeemFrom(ts, rewarded, n, size, a, price, nicr, iterations).Redeemed?
    ensures var r := RedeemFrom(ts, rewarded, n, size, a, price, nicr, iterations);
            r.sim <= a && Redeemable(AppliedDebts(ts, rewarded, n, iterations), r.sim)
  {
    hide Redeemable, RedeemCollateralFromTrove, Applied;
    var ds := AppliedDebts(ts, rewarded, n, iterations);
    ZeroRedeemable(ds);
    if n > 0 && a > 0 && iterations > 0 {
      var t := Applied(ts[n - 1], rewarded);
      var s := RedeemCollateralFromTrove(t, a, price, nicr, size);
      if s.Single? {
        RedeemedIsRedeemable(ts, rewarded, n - 1, SizeAfter(t, s.simLot, size), a - s.simLot, price, nicr, iterations - 1);
        SingleLot(t, a, price, nicr, size);
        SplitHead(ds, RedeemFrom(ts, rewarded, n, size, a, price, nicr, iterations).sim);
        assert ds[0] == t.debt && ds[1..] == AppliedDebts(ts, rewarded, n - 1, iterations - 1);
      }
    }
  }

  /** The cap of the hints that visit as many troves as the redemption loop does with cap `c`; zero is no cap for both. */
  function HintCap(c: nat): nat {
    if c == 0 then 0 else c + 1
  }

  /**
   * Wherever a first hint makes the loop start, no ratio hint lets it redeem more of a request than the greatest
   * amount that the troves from there on can give up exactly.
   */
  lemma NoHintRedeemsMore(ts: TroveList, rewarded: Rewarded, amount: nat, price: nat, hint: address, nicr: nat, c: nat)
    ensures var r := Redemptions(ts, rewarded, amount, price, hint, nicr, c);
            r.Redeemed? ==>
              var ds := AppliedDebts(ts, rewarded, Start(ts, hint, price), Cap(c));
              Redeemable(ds, r.sim) && r.sim <= Take(ds, amount)
  {
    hide Redeemable, RedeemFrom, Start;
    var n := Start(ts, hint, price);
    if Redemptions(ts, rewarded, amount, price, hint, nicr, c).Redeemed? {
      RedeemedIsRedeemable(ts, rewarded, n, |ts|, amount, price, nicr, Cap(c));
      TakeIsGreatest(AppliedDebts(ts, rewarded, n, Cap(c)), amount);
    }
  }

  /**
   * From the first redeemable trove, whether a hint named it or the loop searched for it, that amount is the truncated
   * amount of the hints. They visit one trove fewer than the loop for the same cap, so a loop capped at `c` compares
   * with hints capped at `c + 1`; without a cap both visit the whole list.
   */
  lemma NoHintBeatsTruncated(ts: TroveList, rewarded: Rewarded, amount: nat, price: nat, hint: address, nicr: nat, c: nat)
    requires (c > 0 || |ts| < MAX_UINT) && Start(ts, hint, price) == Redeemables(ts, |ts|, price)
    requires AllApplied(ts, rewarded, Redeemables(ts, |ts|, price))
    ensures var h, r := RedemptionHints(ts, amount, price, HintCap(c)), Redemptions(ts, rewarded, amount, price, hint, nicr, c);
            h.Hints? && r.Redeemed? ==> r.sim <= h.truncatedSIMamount
  {
    hide Redeemable, RedeemFrom, Start, AllApplied, Greedy;
    var n := Redeemables(ts, |ts|, price);
    if RedemptionHints(ts, amount, price, HintCap(c)).Hints? {
      NoHintRedeemsMore(ts, rewarded, amount, price, hint, nicr, c);
      AppliedDebtsAll(ts, rewarded, n, Cap(c));
      WideCap(ts, n, Cap(c) + 1, Cap(HintCap(c)));
      GreedyTakes(ts, n, amount, price, Cap(HintCap(c)));
    }
  }

  /** Caps beyond the list make no difference. */
  lemma {:induction false} WideCap(ts: TroveList, n: nat, cap: nat, cap': nat)
    requires n <= |ts| && 1 <= cap && 1 <= cap' && (cap == cap' || (n < cap && n < cap'))
    ensures Debts(ts, n, cap) == Debts(ts, n, cap')
  {
    if n > 0 && cap > 1 && cap' > 1 {
      WideCap(ts, n - 1, cap - 1, cap' - 1);
    }
  }

  /** The list that contracts/SortedTroves.sol keeps is ordered in the sense that the hints rely on. */
  lemma SortedListIsOrdered(order: seq<address>, trove: address -> Trove, nicr: address -> nat)
    requires SortedTroves.ProperOrder(order) && SortedTroves.Sorted(order, nicr)
    requires forall id :: id in order ==> trove(id).owner == id && trove(id).NominalICR() == nicr(id)
    ensures var ts: TroveList := seq(|order|, i requires 0 <= i < |order| => trove(order[i]));
            Ordered(ts) && ProperOwners(ts)
  {
    forall i, j | 0 <= i < j < |order| ensures trove(order[i]).NominalICR() >= trove(order[j]).NominalICR() {
      assert nicr(order[i]) >= nicr(order[j]);
    }
  }
}
