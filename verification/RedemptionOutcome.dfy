/**
 * What `redeemCollateral` of contracts/TroveManager.sol does to a list of troves, in plain numbers: where its loop
 * starts, which troves it redeems in full, and when it redeems one in part, bails out, or reverts.
 */
module RedemptionOutcome {
  import opened Accounts
  import opened Arithmetic
  import opened LiquityMath
  import opened HintHelpers
  import opened RedemptionProofs
  import opened TroveManager

  // --- Where the loop starts ---

  /** The collateral is worth at least 110 per cent of the debt. */
  predicate Sound(t: Trove, price: nat) {
    10 * (t.Coll() * price) >= 11_000_000_000_000_000_000 * t.Debt()
  }

  lemma SoundIff(t: Trove, price: nat)
    ensures Sound(t, price) <==> t.CurrentICR(price) >= MCR
  {
    if t.Debt() > 0 {
      CRAtLeast(t.Coll(), t.Debt(), price, MCR);
    }
  }

  /** Whatever the hint, the loop starts at a sound trove whose neighbour towards the tail, if any, is not sound. */
  lemma StartIsBoundary(ts: TroveList, hint: address, price: nat)
    ensures var n := Start(ts, hint, price);
            && (n > 0 ==> Sound(ts[n - 1], price))
            && (n < |ts| ==> !Sound(ts[n], price))
  {
    var n := Start(ts, hint, price);
    FirstRedeemable(ts, |ts|, price);
    if n > 0 {
      SoundIff(ts[n - 1], price);
    }
    if n < |ts| {
      SoundIff(ts[n], price);
    }
  }

  /** A hint that names such a trove is followed. */
  lemma BoundaryHintIsFollowed(ts: TroveList, i: nat, price: nat)
    requires ProperOwners(ts) && i < |ts|
    requires Sound(ts[i], price) && (i + 1 < |ts| ==> !Sound(ts[i + 1], price))
    ensures Start(ts, ts[i].owner, price) == i + 1
  {
    PositionUnique(ts, i);
    SoundIff(ts[i], price);
    if i + 1 < |ts| {
      SoundIff(ts[i + 1], price);
    }
  }

  /** On a list in order of current ratio no hint can make the loop skip a sound trove, or start elsewhere at all. */
  lemma StartIsUnique(ts: TroveList, hint: address, price: nat)
    requires forall i, j :: 0 <= i < j < |ts| && Sound(ts[j], price) ==> Sound(ts[i], price)
    ensures Start(ts, hint, price) == Redeemables(ts, |ts|, price)
    ensures forall i :: 0 <= i < |ts| ==> (Sound(ts[i], price) <==> i < Start(ts, hint, price))
  {
    hide Start, Sound;
    var n, m := Start(ts, hint, price), Start(ts, NULL, price);
    StartIsBoundary(ts, hint, price);
    StartIsBoundary(ts, NULL, price);
    NullStart(ts, price);
  }

  lemma NullStart(ts: TroveList, price: nat)
    ensures Start(ts, NULL, price) == Redeemables(ts, |ts|, price)
  {
  }

  // --- How it ends ---

  /** `nicr` is the floor of 1e20 times the ratio of collateral to debt. */
  predicate RatioIs(coll: nat, debt: nat, nicr: nat) {
    nicr * debt <= coll * 100_000_000_000_000_000_000 < (nicr + 1) * debt
  }

  lemma RatioIsIff(coll: nat, debt: nat, nicr: nat)
    requires debt > 0
    ensures RatioIs(coll, debt, nicr) <==> ComputeNominalCR(coll, debt) == nicr
  {
    NominalCRAtLeast(coll, debt, nicr);
    NominalCRAtLeast(coll, debt, nicr + 1);
  }

  /** Taking `x` of its debt leaves the trove at least one SIM of debt, and exactly the ratio `nicr`. */
  predicate LeavesRatio(t: Trove, x: nat, price: nat, nicr: nat) {
    && 0 < x && x + 1_000_000_000_000_000_000 <= t.debt
    && price > 0 && x * 1_000_000_000_000_000_000 / price <= t.coll
    && RatioIs(t.coll - x * 1_000_000_000_000_000_000 / price, t.debt - x, nicr)
  }

  /** The request cannot be met by the trove, of which `left` are left in the system. */
  predicate Refused(t: Trove, rest: nat, price: nat, nicr: nat, left: int) {
    || price == 0 || Min(rest, t.debt) * 1_000_000_000_000_000_000 / price > t.coll
    || (t.debt <= rest && left <= 1)
    || (LeavesRatio(t, rest, price, 0) && nicr == 0)
  }

  /** What one turn of the loop does with a trove, in these terms. */
  lemma OneTrove(t: Trove, rest: nat, price: nat, nicr: nat, size: nat)
    requires rest > 0
    ensures match RedeemCollateralFromTrove(t, rest, price, nicr, size)
            case Failed => Refused(t, rest, price, nicr, size)
            case Cancelled => rest < t.debt && !LeavesRatio(t, rest, price, nicr)
            case Single(lot, _) =>
              if t.debt <= rest then lot == t.debt && size > 1
              else lot == rest && LeavesRatio(t, rest, price, nicr) && nicr > 0
  {
    if price > 0 && rest < t.debt && rest * DECIMAL_PRECISION / price <= t.coll {
      RatioIsIff(t.coll - rest * DECIMAL_PRECISION / price, t.debt - rest, nicr);
      RatioIsIff(t.coll - rest * DECIMAL_PRECISION / price, t.debt - rest, 0);
    }
    hide RatioIs, ComputeNominalCR;
  }

  /**
   * The loop over the debts `ds` that it may visit redeems the first `k` in full and `part` of the next:
   * a part uses up the request and leaves exactly the hinted ratio; the loop bails out only where no part could do so;
   * and otherwise it stops because the request is used up or no trove is left to visit.
   */
  ghost predicate EndsAt(ts: TroveList, rewarded: Rewarded, n: nat, size: nat, a: nat, price: nat, nicr: nat, iterations: nat,
                         r: Redemption, k: nat, part: nat)
    requires n <= |ts|
  {
    var ds := AppliedDebts(ts, rewarded, n, iterations);
    k <= |ds| && Sum(ds[..k]) <= a &&
    var rest := a - Sum(ds[..k]);
    match r
    case Redeemed(sim, _, cancelled) =>
      && sim == Sum(ds[..k]) + part
      && (part > 0 ==>
            !cancelled && part == rest && nicr > 0 && k < |ds| && LeavesRatio(Visit(ts, rewarded, n, k), part, price, nicr))
      && (cancelled ==>
            && part == 0 && k < |ds| && 0 < rest < Visit(ts, rewarded, n, k).debt
            && !LeavesRatio(Visit(ts, rewarded, n, k), rest, price, nicr))
      && (!cancelled && part == 0 ==> rest == 0 || k == |ds|)
    case Reverted =>
      part == 0 && rest > 0 && k < |ds| && Refused(Visit(ts, rewarded, n, k), rest, price, nicr, size - k)
  }

  /** The `k`-th trove that the loop visits, its rewards applied. */
  function Visit(ts: TroveList, rewarded: Rewarded, n: nat, k: nat): Trove
    requires k < n <= |ts|
  {
    Applied(ts[n - 1 - k], rewarded)
  }

  lemma SumTail(ds: seq<nat>, k: nat)
    requires ds != [] && 0 < k <= |ds|
    ensures Sum(ds[..k]) == ds[0] + Sum(ds[1..][..k - 1])
  {
    assert ds[..k][1..] == ds[1..][..k - 1];
  }

  /** The loop ends at the first trove unless it redeems that one in full. */
  lemma EndsHere(ts: TroveList, rewarded: Rewarded, n: nat, size: nat, a: nat, price: nat, nicr: nat, iterations: nat)
      returns (part: nat)
    requires n <= |ts|
    requires n > 0 && a > 0 && iterations > 0 ==>
               var t := Applied(ts[n - 1], rewarded);
               RedeemCollateralFromTrove(t, a, price, nicr, size).Single? ==> a < t.debt
    ensures EndsAt(ts, rewarded, n, size, a, price, nicr, iterations,
                   RedeemFrom(ts, rewarded, n, size, a, price, nicr, iterations), 0, part)
  {
    hide RedeemCollateralFromTrove, Applied, LeavesRatio, Refused;
    part := 0;
    assert AppliedDebts(ts, rewarded, n, iterations)[..0] == [];
    if n > 0 && a > 0 && iterations > 0 {
      var t := Applied(ts[n - 1], rewarded);
      OneTrove(t, a, price, nicr, size);
      part := if RedeemCollateralFromTrove(t, a, price, nicr, size).Single? then a else 0;
    }
  }

  lemma EndsNext(ts: TroveList, rewarded: Rewarded, n: nat, size: nat, a: nat, price: nat, nicr: nat, iterations: nat,
                 r: Redemption, lot: nat, k: nat, part: nat)
    requires 0 < n <= |ts| && iterations > 0 && size > 0 && Applied(ts[n - 1], rewarded).debt <= a
    requires EndsAt(ts, rewarded, n - 1, size - 1, a - Applied(ts[n - 1], rewarded).debt, price, nicr, iterations - 1, r, k, part)
    ensures EndsAt(ts, rewarded, n, size, a, price, nicr, iterations, Plus(r, Applied(ts[n - 1], rewarded).debt, lot), k + 1, part)
  {
    hide Applied, LeavesRatio, Refused;
    var ds, t := AppliedDebts(ts, rewarded, n, iterations), Applied(ts[n - 1], rewarded);
    assert ds[0] == t.debt && ds[1..] == AppliedDebts(ts, rewarded, n - 1, iterations - 1);
    SumTail(ds, k + 1);
  }

  /** So ends every loop, whatever the list, the request and the hints. */
  lemma {:induction false} LoopEnds(ts: TroveList, rewarded: Rewarded, n: nat, size: nat, a: nat, price: nat, nicr: nat,
                                    iterations: nat)
      returns (k: nat, part: nat)
    requires n <= |ts|
    ensures EndsAt(ts, rewarded, n, size, a, price, nicr, iterations,
                   RedeemFrom(ts, rewarded, n, size, a, price, nicr, iterations), k, part)
  {
    hide RedeemCollateralFromTrove, Applied, EndsAt;
    if n > 0 && a > 0 && iterations > 0 {
      var t := Applied(ts[n - 1], rewarded);
      var s := RedeemCollateralFromTrove(t, a, price, nicr, size);
      if s.Single? && t.debt <= a {
        OneTrove(t, a, price, nicr, size);
        k, part := LoopEnds(ts, rewarded, n - 1, size - 1, a - t.debt, price, nicr, iterations - 1);
        EndsNext(ts, rewarded, n, size, a, price, nicr, iterations,
                 RedeemFrom(ts, rewarded, n - 1, size - 1, a - t.debt, price, nicr, iterations - 1), s.wstethLot, k, part);
        k := k + 1;
        return;
      }
    }
    k := 0;
    part := EndsHere(ts, rewarded, n, size, a, price, nicr, iterations);
  }

  /** A loop that redeems a trove in part bails out of it instead, and of nothing else, when called with any other ratio. */
  lemma {:induction false} StaleHintCancels(ts: TroveList, rewarded: Rewarded, n: nat, size: nat, a: nat, price: nat,
                                            nicr: nat, stale: nat, iterations: nat, k: nat, part: nat)
    requires n <= |ts| && stale != nicr && part > 0
    requires var r := RedeemFrom(ts, rewarded, n, size, a, price, nicr, iterations);
             r.Redeemed? && EndsAt(ts, rewarded, n, size, a, price, nicr, iterations, r, k, part)
    ensures var r, r' := RedeemFrom(ts, rewarded, n, size, a, price, nicr, iterations),
                         RedeemFrom(ts, rewarded, n, size, a, price, stale, iterations);
            r'.Redeemed? && r'.cancelled && r'.sim == r.sim - part
  {
    hide Applied, RedeemCollateralFromTrove, Refused, LeavesRatio;
    var ds := AppliedDebts(ts, rewarded, n, iterations);
    var t := Applied(ts[n - 1], rewarded);
    if k == 0 {
      assert Sum(ds[..0]) == 0 && Visit(ts, rewarded, n, 0) == t;
      StaleTrove(t, a, price, nicr, stale, size);
    } else {
      SumTail(ds, k);
      assert ds[0] == t.debt && ds[1..] == AppliedDebts(ts, rewarded, n - 1, iterations - 1);
      FullTrove(t, a, price, nicr, stale, size);
      StaleHintCancels(ts, rewarded, n - 1, size - 1, a - t.debt, price, nicr, stale, iterations - 1, k - 1, part);
    }
  }

  lemma StaleTrove(t: Trove, a: nat, price: nat, nicr: nat, stale: nat, size: nat)
    requires LeavesRatio(t, a, price, nicr) && stale != nicr
    ensures RedeemCollateralFromTrove(t, a, price, stale, size) == Cancelled
    ensures a < t.debt
  {
    RatioIsIff(t.coll - a * DECIMAL_PRECISION / price, t.debt - a, nicr);
  }

  /** A trove redeemed in full is so whatever the ratio hint. */
  lemma FullTrove(t: Trove, a: nat, price: nat, nicr: nat, stale: nat, size: nat)
    requires t.debt <= a
    ensures RedeemCollateralFromTrove(t, a, price, nicr, size) == RedeemCollateralFromTrove(t, a, price, stale, size)
    ensures RedeemCollateralFromTrove(t, a, price, nicr, size).Failed?
         || (size > 1 && RedeemCollateralFromTrove(t, a, price, nicr, size).Single?
             && RedeemCollateralFromTrove(t, a, price, nicr, size).simLot == t.debt)
  {
  }

  /** The ratio that the hints report is the one that the trove they hit in part will have, in plain numbers. */
  lemma ReportedRatioIs(t: Trove, a: nat, price: nat)
    requires MIN_NET_DEBT < t.Debt() && 0 < a < t.Debt() && PartialWalk(t, a, price).Walk?
    ensures var w := PartialWalk(t, a, price);
            && w.remaining == (if a + 1_000_000_000_000_000_000 <= t.Debt() then 0 else a + 1_000_000_000_000_000_000 - t.Debt())
            && LeavesRatio(Trove(t.owner, t.Coll(), t.Debt(), 0, 0), a - w.remaining, price, w.nicr)
  {
    var x := Min(a, t.Debt() - MIN_NET_DEBT);
    RatioIsIff(t.Coll() - x * DECIMAL_PRECISION / price, t.Debt() - x, PartialWalk(t, a, price).nicr);
  }
}
