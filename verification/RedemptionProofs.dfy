/** What contracts/HintHelpers.sol promises about `getRedemptionHints`, for every list, amount, price and cap. */
module RedemptionProofs {
  import opened Arithmetic
  import opened LiquityMath
  import opened HintHelpers

  /** The debts of the troves that a walk may visit, in walking order. */
  function Debts(ts: TroveList, n: nat, cap: nat): seq<nat>
    requires n <= |ts| && 1 <= cap
  {
    if n == 0 || cap == 1 then [] else [ts[n - 1].Debt()] + Debts(ts, n - 1, cap - 1)
  }

  function Sum(ds: seq<nat>): nat {
    if ds == [] then 0 else ds[0] + Sum(ds[1..])
  }

  /** `a` redeems the first `k` debts in full and `part` of the next, which keeps at least the minimum. */
  ghost predicate SplitsAt(ds: seq<nat>, a: nat, k: nat, part: nat) {
    k <= |ds| && a == Sum(ds[..k]) + part && (part > 0 ==> k < |ds| && part + MIN_NET_DEBT <= ds[k])
  }

  /** Amounts that a redemption can use up exactly. */
  ghost predicate Redeemable(ds: seq<nat>, a: nat) {
    exists k: nat, part: nat :: SplitsAt(ds, a, k, part)
  }

  /** The amount that the greedy walk redeems. */
  function Take(ds: seq<nat>, a: nat): (r: nat)
    ensures r <= a
  {
    if ds == [] || a == 0 then 0
    else if ds[0] <= a then ds[0] + Take(ds[1..], a - ds[0])
    else if MIN_NET_DEBT < ds[0] then Min(a, ds[0] - MIN_NET_DEBT)
    else 0
  }

  lemma {:induction false} GreedyTakes(ts: TroveList, n: nat, a: nat, price: nat, cap: nat)
    requires n <= |ts| && 1 <= cap && Greedy(ts, n, a, price, cap).Walk?
    ensures Greedy(ts, n, a, price, cap).remaining == a - Take(Debts(ts, n, cap), a)
  {
    if n > 0 && a > 0 && cap > 1 && ts[n - 1].Debt() <= a {
      GreedyTakes(ts, n - 1, a - ts[n - 1].Debt(), price, cap - 1);
    }
  }

  lemma SplitHead(ds: seq<nat>, a: nat)
    requires ds != []
    ensures Redeemable(ds, a) <==>
            a == 0 || a + MIN_NET_DEBT <= ds[0] || (ds[0] <= a && Redeemable(ds[1..], a - ds[0]))
  {
    if k: nat, part: nat :| SplitsAt(ds, a, k, part) {
      if k > 0 {
        assert ds[..k][1..] == ds[1..][..k - 1];
        assert SplitsAt(ds[1..], a - ds[0], k - 1, part);
      }
    }
    if a == 0 || a + MIN_NET_DEBT <= ds[0] {
      assert SplitsAt(ds, a, 0, a);
    } else if ds[0] <= a && Redeemable(ds[1..], a - ds[0]) {
      var k: nat, part: nat :| SplitsAt(ds[1..], a - ds[0], k, part);
      assert ds[..k + 1][1..] == ds[1..][..k];
      assert SplitsAt(ds, a, k + 1, part);
    }
  }

  lemma ZeroRedeemable(ds: seq<nat>)
    ensures Redeemable(ds, 0)
  {
    assert SplitsAt(ds, 0, 0, 0);
  }

  /** The greedy walk redeems the greatest redeemable amount within the request. */
  lemma {:induction false} TakeIsGreatest(ds: seq<nat>, a: nat)
    ensures Redeemable(ds, Take(ds, a))
    ensures forall b :: Take(ds, a) < b <= a ==> !Redeemable(ds, b)
  {
    ZeroRedeemable(ds);
    if ds == [] {
      forall b | 0 < b <= a ensures !Redeemable(ds, b) {
        if k: nat, part: nat :| SplitsAt(ds, b, k, part) {
        }
      }
    } else {
      SplitHead(ds, Take(ds, a));
      if a > 0 && ds[0] <= a {
        TakeIsGreatest(ds[1..], a - ds[0]);
      }
      forall b | Take(ds, a) < b <= a ensures !Redeemable(ds, b) {
        SplitHead(ds, b);
      }
    }
  }

  /** The amount that the hints report, for the troves that the cap lets the walk visit. */
  function Visited(ts: TroveList, price: nat, maxIterations: nat): seq<nat> {
    Debts(ts, Redeemables(ts, |ts|, price), Cap(maxIterations))
  }

  /**
   * `truncatedSIMamount` is the greatest amount within the request that can be redeemed exactly:
   * some troves in full from the first one on, and a part of the next that leaves it the minimum debt.
   */
  lemma TruncatedIsGreatest(ts: TroveList, amount: nat, price: nat, maxIterations: nat)
    requires RedemptionHints(ts, amount, price, maxIterations).Hints?
    ensures var r := RedemptionHints(ts, amount, price, maxIterations).truncatedSIMamount;
            && r <= amount
            && Redeemable(Visited(ts, price, maxIterations), r)
            && forall b :: r < b <= amount ==> !Redeemable(Visited(ts, price, maxIterations), b)
  {
    GreedyTakes(ts, Redeemables(ts, |ts|, price), amount, price, Cap(maxIterations));
    TakeIsGreatest(Visited(ts, price, maxIterations), amount);
  }

  /** A larger request never reports a smaller amount. */
  lemma TruncatedIsMonotone(ts: TroveList, a: nat, b: nat, price: nat, maxIterations: nat)
    requires a <= b
    ensures var h, h' := RedemptionHints(ts, a, price, maxIterations), RedemptionHints(ts, b, price, maxIterations);
            h.Hints? && h'.Hints? ==> h.truncatedSIMamount <= h'.truncatedSIMamount
  {
    if RedemptionHints(ts, a, price, maxIterations).Hints? && RedemptionHints(ts, b, price, maxIterations).Hints? {
      TruncatedIsGreatest(ts, a, price, maxIterations);
      TruncatedIsGreatest(ts, b, price, maxIterations);
    }
  }

  lemma {:induction false} GreedyAgain(ts: TroveList, n: nat, a: nat, price: nat, cap: nat)
    requires n <= |ts| && 1 <= cap && Greedy(ts, n, a, price, cap).Walk?
    ensures var r := Greedy(ts, n, a, price, cap);
            r.remaining <= a && Greedy(ts, n, a - r.remaining, price, cap) == Walk(0, r.nicr)
  {
    hide PartialWalk;
    if n > 0 && a > 0 && cap > 1 {
      var t, r := ts[n - 1], Greedy(ts, n, a, price, cap);
      if t.Debt() <= a {
        GreedyAgain(ts, n - 1, a - t.Debt(), price, cap - 1);
        if a == r.remaining {
          GreedyNothing(ts, n - 1, a - t.Debt(), price, cap - 1);
        }
      } else if MIN_NET_DEBT < t.Debt() {
        PartialAgain(t, a, price);
      }
    }
  }

  lemma PartialAgain(t: Trove, a: nat, price: nat)
    requires MIN_NET_DEBT < t.Debt() && 0 < a < t.Debt() && PartialWalk(t, a, price).Walk?
    ensures var w := PartialWalk(t, a, price);
            w.remaining < a && PartialWalk(t, a - w.remaining, price) == Walk(0, w.nicr)
  {
  }

  lemma {:induction false} GreedyNothing(ts: TroveList, n: nat, a: nat, price: nat, cap: nat)
    requires n <= |ts| && 1 <= cap && Greedy(ts, n, a, price, cap).Walk? && Greedy(ts, n, a, price, cap).remaining == a
    ensures Greedy(ts, n, a, price, cap).nicr == 0
  {
    if n > 0 && a > 0 && cap > 1 && ts[n - 1].Debt() <= a {
      GreedyTakes(ts, n - 1, a - ts[n - 1].Debt(), price, cap - 1);
      GreedyNothing(ts, n - 1, a - ts[n - 1].Debt(), price, cap - 1);
    }
  }

  /** Asking again for the truncated amount gives the same hints. */
  lemma HintsAreStable(ts: TroveList, amount: nat, price: nat, maxIterations: nat)
    requires RedemptionHints(ts, amount, price, maxIterations).Hints?
    ensures var h := RedemptionHints(ts, amount, price, maxIterations);
            RedemptionHints(ts, h.truncatedSIMamount, price, maxIterations) == h
  {
    GreedyAgain(ts, Redeemables(ts, |ts|, price), amount, price, Cap(maxIterations));
  }

  lemma {:induction false} GreedyCapped(ts: TroveList, n: nat, a: nat, price: nat, cap: nat, low: nat, wide: nat)
    requires n <= |ts| && 1 <= cap && low == (if n < cap then 0 else n - (cap - 1)) && wide > n - low
    ensures Greedy(ts, n, a, price, cap) == Greedy(ts[low..n], n - low, a, price, wide)
  {
    hide PartialWalk;
    if n > low && a > 0 && ts[n - 1].Debt() <= a {
      GreedyCapped(ts, n - 1, a - ts[n - 1].Debt(), price, cap - 1, low, wide - 1);
      GreedyPrefix(ts[low..n], n - 1 - low, a - ts[n - 1].Debt(), price, wide - 1);
      assert ts[low..n][..n - 1 - low] == ts[low..n - 1];
    }
  }

  /** A walk reads nothing below its starting point. */
  lemma {:induction false} GreedyPrefix(ts: TroveList, n: nat, a: nat, price: nat, cap: nat)
    requires n <= |ts| && 1 <= cap
    ensures Greedy(ts, n, a, price, cap) == Greedy(ts[..n], n, a, price, cap)
    decreases n
  {
    hide PartialWalk;
    if n > 0 && a > 0 && cap > 1 && ts[n - 1].Debt() <= a {
      GreedyPrefix(ts, n - 1, a - ts[n - 1].Debt(), price, cap - 1);
      GreedyPrefix(ts[..n], n - 1, a - ts[n - 1].Debt(), price, cap - 1);
      assert ts[..n][..n - 1] == ts[..n - 1];
    }
  }

  /** A cap of `c` is the uncapped walk over the first `c - 1` troves from the starting point. */
  lemma CapIsPrefix(ts: TroveList, n: nat, amount: nat, price: nat, c: nat)
    requires n <= |ts| < MAX_UINT && 1 <= c
    ensures var low := if n < c then 0 else n - (c - 1);
            Greedy(ts, n, amount, price, Cap(c)) == Greedy(ts[low..n], n - low, amount, price, Cap(0))
  {
    GreedyCapped(ts, n, amount, price, c, if n < c then 0 else n - (c - 1), MAX_UINT);
  }

  /** The list order that contracts/SortedTroves.sol keeps: nominal ratios never rise towards the tail. */
  predicate Ordered(ts: TroveList) {
    forall i, j :: 0 <= i < j < |ts| ==> ts[i].NominalICR() >= ts[j].NominalICR()
  }

  predicate PositiveDebts(ts: TroveList) {
    forall i :: 0 <= i < |ts| ==> ts[i].Debt() > 0
  }

  /** The least nominal ratio that the minimum ratio guarantees at a price. */
  function Floor(price: nat): nat
    requires price > 0
  {
    MCR * NICR_PRECISION / price
  }

  /** At this price the guaranteed nominal ratio still covers a whole debt. */
  predicate PriceFits(price: nat) {
    price == 0 || Floor(price) * price >= DECIMAL_PRECISION * NICR_PRECISION
  }

  /** The collateral is worth at least the debt. */
  predicate Backed(t: Trove, price: nat) {
    t.Debt() * DECIMAL_PRECISION <= t.Coll() * price
  }

  /** The condition holds for every price up to 1e37, that is 1e19 SIM for one unit of collateral. */
  lemma ModeratePricesFit(price: nat)
    requires price <= 10_000_000_000_000_000_000_000_000_000_000_000_000
    ensures PriceFits(price)
  {
    if price > 0 {
      DivBounds(MCR * NICR_PRECISION, price);
    }
  }

  /** A trove with ICR at least the minimum has at least the floor as its nominal ratio. */
  lemma RatioAboveFloor(t: Trove, price: nat)
    requires price > 0 && t.Debt() > 0 && t.CurrentICR(price) >= MCR
    ensures t.NominalICR() >= Floor(price)
  {
    var c, d, q := t.Coll(), t.Debt(), Floor(price);
    CRAtLeast(c, d, price, MCR);
    DivBounds(MCR * NICR_PRECISION, price);
    MulMonotone(d, q * price, MCR * NICR_PRECISION);
    assert q * d * price == d * (q * price);
    assert d * (MCR * NICR_PRECISION) == NICR_PRECISION * (MCR * d);
    assert c * NICR_PRECISION * price == NICR_PRECISION * (c * price);
    CancelFactor(price, q * d, c * NICR_PRECISION);
    NominalCRAtLeast(c, d, q);
  }

  /** A nominal ratio at the floor of a price that fits means that the collateral covers the debt. */
  lemma FloorBacks(t: Trove, price: nat)
    requires price > 0 && PriceFits(price) && t.Debt() > 0 && t.NominalICR() >= Floor(price)
    ensures Backed(t, price) && t.NominalICR() > 0
  {
    var c, d, q := t.Coll(), t.Debt(), Floor(price);
    NominalCRAtLeast(c, d, q);
    MulMonotone(price, q * d, c * NICR_PRECISION);
    MulMonotone(d, DECIMAL_PRECISION * NICR_PRECISION, q * price);
    assert price * (q * d) == d * (q * price);
    assert price * (c * NICR_PRECISION) == NICR_PRECISION * (c * price);
    assert q == 0 ==> q * price == 0;
  }

  /** Every trove from the first redeemable one up to the head is backed. */
  lemma {:induction false} ReachedIsBacked(ts: TroveList, n: nat, price: nat, i: nat)
    requires Ordered(ts) && PositiveDebts(ts) && PriceFits(price) && n <= |ts|
    requires i < Redeemables(ts, n, price)
    ensures price > 0 && Backed(ts[i], price) && ts[i].NominalICR() > 0
  {
    if ts[n - 1].CurrentICR(price) >= MCR {
      CRAtLeast(ts[n - 1].Coll(), ts[n - 1].Debt(), price, MCR);
      RatioAboveFloor(ts[n - 1], price);
      FloorBacks(ts[i], price);
    } else {
      ReachedIsBacked(ts, n - 1, price, i);
    }
  }

  /** What a backed trove gives for `x` of its debt does not exceed its collateral, and keeps its nominal ratio. */
  lemma PartialKeepsRatio(c: nat, d: nat, x: nat, price: nat)
    requires price > 0 && d * DECIMAL_PRECISION <= c * price && x < d
    ensures x * DECIMAL_PRECISION / price <= c
    ensures ComputeNominalCR(c - x * DECIMAL_PRECISION / price, d - x) >= ComputeNominalCR(c, d)
  {
    var w, r := x * DECIMAL_PRECISION / price, ComputeNominalCR(c, d);
    DivBounds(x * DECIMAL_PRECISION, price);
    CrossMultiply(c, d, x, price, w, DECIMAL_PRECISION);
    NominalCRAtLeast(c, d, r);
    RatioKept(c, d, x, w, r, NICR_PRECISION);
    NominalCRAtLeast(c - w, d - x, r);
  }

  /** Giving at most `c / d` of collateral for one of debt keeps a ratio `r / unit`. */
  lemma RatioKept(c: nat, d: nat, x: nat, w: nat, r: nat, unit: nat)
    requires x < d && w <= c && w * d <= c * x && r * d <= c * unit
    ensures r * (d - x) <= (c - w) * unit
  {
    var e := d - x;
    Commute(e, r, d);
    Commute(e, c, unit);
    MulMonotone(e, r * d, c * unit);
    assert c * e == c * d - c * x;
    assert (c - w) * d == c * d - w * d;
    MulMonotone(unit, c * e, (c - w) * d);
    Commute(unit, c - w, d);
    CancelFactor(d, r * e, (c - w) * unit);
  }

  lemma Commute(a: int, b: int, c: int)
    ensures a * (b * c) == c * (b * a) == b * (a * c)
  {
  }

  /** Amounts that are fair at a price are fair at the trove's own ratio, which is no worse. */
  lemma CrossMultiply(c: nat, d: nat, x: nat, price: nat, w: nat, unit: nat)
    requires price > 0 && d * unit <= c * price && x < d && w * price <= x * unit
    ensures w * d <= c * x && w <= c
  {
    MulMonotone(d, w * price, x * unit);
    MulMonotone(x, d * unit, c * price);
    Commute(d, w, price);
    Commute(d, x, unit);
    Commute(x, c, price);
    CancelFactor(price, w * d, c * x);
    MulMonotone(c, x, d);
    CancelFactor(d, w, c);
  }

  /** The position in `ts` of the trove that a walk redeems in part, or -1. */
  function PartialAt(ts: TroveList, n: nat, a: nat, cap: nat): (i: int)
    requires n <= |ts| && 1 <= cap
    ensures -1 <= i < n
  {
    if n == 0 || a == 0 || cap == 1 then -1
    else if ts[n - 1].Debt() <= a then PartialAt(ts, n - 1, a - ts[n - 1].Debt(), cap - 1)
    else if MIN_NET_DEBT < ts[n - 1].Debt() then n - 1
    else -1
  }

  lemma {:induction false} BackedWalk(ts: TroveList, n: nat, a: nat, price: nat, cap: nat)
    requires n <= |ts| && 1 <= cap && price > 0
    requires forall i :: 0 <= i < n ==> Backed(ts[i], price)
    ensures var w := Greedy(ts, n, a, price, cap);
            var i := PartialAt(ts, n, a, cap);
            w.Walk? && if i < 0 then w.nicr == 0 else w.nicr >= ts[i].NominalICR()
  {
    if n > 0 && a > 0 && cap > 1 {
      var t := ts[n - 1];
      if t.Debt() <= a {
        BackedWalk(ts, n - 1, a - t.Debt(), price, cap - 1);
      } else if MIN_NET_DEBT < t.Debt() {
        PartialKeepsRatio(t.Coll(), t.Debt(), Min(a, t.Debt() - MIN_NET_DEBT), price);
      }
    }
  }

  /** On an ordered list and at a price that fits, no subtraction of the walk underflows. */
  lemma NeverReverts(ts: TroveList, amount: nat, price: nat, maxIterations: nat)
    requires Ordered(ts) && PositiveDebts(ts) && PriceFits(price)
    ensures RedemptionHints(ts, amount, price, maxIterations).Hints?
  {
    PartialHintIsExact(ts, amount, price, maxIterations);
  }

  /**
   * The reported ratio is zero exactly when no trove is redeemed in part; otherwise it is at least
   * the ratio that this trove had, so a partial redemption never lowers a nominal ratio.
   */
  lemma PartialHintIsExact(ts: TroveList, amount: nat, price: nat, maxIterations: nat)
    requires Ordered(ts) && PositiveDebts(ts) && PriceFits(price)
    ensures var h := RedemptionHints(ts, amount, price, maxIterations);
            var i := PartialAt(ts, Redeemables(ts, |ts|, price), amount, Cap(maxIterations));
            && h.Hints?
            && (h.partialRedemptionHintNICR == 0 <==> i < 0)
            && (i >= 0 ==> h.partialRedemptionHintNICR >= ts[i].NominalICR())
  {
    var n := Redeemables(ts, |ts|, price);
    forall i: nat | i < n ensures price > 0 && Backed(ts[i], price) && ts[i].NominalICR() > 0 {
      ReachedIsBacked(ts, |ts|, price, i);
    }
    if n > 0 {
      assert Backed(ts[0], price);
      BackedWalk(ts, n, amount, price, Cap(maxIterations));
    }
  }

  /** Two troves and a request on which the walk underflows at a price that does not fit. */
  function Breaking(price: nat): TroveList
    requires price > 0
  {
    var m := DECIMAL_PRECISION * MIN_NET_DEBT + price;
    [Trove(2, Floor(price) * m, NICR_PRECISION * m, 0, 0), Trove(1, MCR, price, 0, 0)]
  }

  function BreakingRequest(price: nat): nat
    requires price > 0
  {
    price + (NICR_PRECISION * (DECIMAL_PRECISION * MIN_NET_DEBT + price) - MIN_NET_DEBT)
  }

  lemma BreakingUnderflows(price: nat)
    requires price > 0 && !PriceFits(price)
    ensures var m := DECIMAL_PRECISION * MIN_NET_DEBT + price;
            (NICR_PRECISION * m - MIN_NET_DEBT) * DECIMAL_PRECISION / price > Floor(price) * m
  {
    var m := DECIMAL_PRECISION * MIN_NET_DEBT + price;
    var q := Floor(price);
    var x := NICR_PRECISION * m - MIN_NET_DEBT;
    MulMonotone(m, q * price + 1, DECIMAL_PRECISION * NICR_PRECISION);
    assert m * (q * price + 1) == m * (q * price) + m;
    assert m * (q * price) == q * m * price;
    assert (q * m + 1) * price == q * m * price + price;
    assert x * DECIMAL_PRECISION == m * (DECIMAL_PRECISION * NICR_PRECISION) - DECIMAL_PRECISION * MIN_NET_DEBT;
    DivGe(x * DECIMAL_PRECISION, price, q * m + 1);
  }

  /** When the price does not fit there is an ordered list of troves with debt on which the call reverts. */
  lemma BreakingReverts(price: nat)
    requires price > 0 && !PriceFits(price)
    ensures Ordered(Breaking(price)) && PositiveDebts(Breaking(price))
    ensures Floor(price) > 0 ==> PositiveRatios(Breaking(price))
    ensures RedemptionHints(Breaking(price), BreakingRequest(price), price, 0) == Revert
  {
    var ts := Breaking(price);
    var q, m := Floor(price), DECIMAL_PRECISION * MIN_NET_DEBT + price;
    DivMod(q * m * NICR_PRECISION, NICR_PRECISION * m, q, 0);
    DivMod(MCR * price, price, MCR, 0);
    assert ts[0].NominalICR() == q == ts[1].NominalICR();
    assert Redeemables(ts, 2, price) == 2;
    BreakingUnderflows(price);
    assert PartialWalk(ts[0], BreakingRequest(price) - price, price) == Stuck;
    assert Greedy(ts, 1, BreakingRequest(price) - price, price, MAX_UINT - 1) == Stuck;
  }

  /** The condition can fail: at 5.8e37 the floor of the nominal ratio is 1, which backs only 58 per cent of the debt. */
  lemma PriceTooHigh()
    ensures !PriceFits(58_000_000_000_000_000_000_000_000_000_000_000_000)
  {
  }

  /** The exact condition: no ordered list of troves with debt makes the call revert if and only if the price fits. */
  lemma NeverRevertsIff(price: nat)
    ensures PriceFits(price) <==>
            forall ts: TroveList, amount: nat, maxIterations: nat :: Ordered(ts) && PositiveDebts(ts) ==>
              RedemptionHints(ts, amount, price, maxIterations).Hints?
  {
    if PriceFits(price) {
      forall ts: TroveList, amount: nat, maxIterations: nat | Ordered(ts) && PositiveDebts(ts)
        ensures RedemptionHints(ts, amount, price, maxIterations).Hints?
      {
        NeverReverts(ts, amount, price, maxIterations);
      }
    } else {
      BreakingReverts(price);
    }
  }

  /** The list refuses troves whose nominal ratio is zero. */
  predicate PositiveRatios(ts: TroveList) {
    forall i :: 0 <= i < |ts| ==> ts[i].NominalICR() > 0
  }

  /** Above 1.1e38 the price alone backs the debt of every trove with a positive ratio. */
  lemma PositiveBacks(t: Trove, price: nat)
    requires price > 0 && Floor(price) == 0 && t.Debt() > 0 && t.NominalICR() > 0
    ensures Backed(t, price)
  {
    var c, d := t.Coll(), t.Debt();
    NominalCRAtLeast(c, d, 1);
    DivBounds(MCR * NICR_PRECISION, price);
    MulMonotone(c, DECIMAL_PRECISION * NICR_PRECISION, price);
    assert c * (DECIMAL_PRECISION * NICR_PRECISION) == DECIMAL_PRECISION * (c * NICR_PRECISION);
  }

  lemma HighPricesBack(ts: TroveList, amount: nat, price: nat, maxIterations: nat)
    requires PositiveDebts(ts) && PositiveRatios(ts) && price > 0 && Floor(price) == 0
    ensures RedemptionHints(ts, amount, price, maxIterations).Hints?
  {
    hide Floor, Backed;
    forall i | 0 <= i < |ts| ensures Backed(ts[i], price) {
      PositiveBacks(ts[i], price);
    }
    BackedWalk(ts, Redeemables(ts, |ts|, price), amount, price, Cap(maxIterations));
  }

  /** No request on this list can make the walk underflow at this price. */
  predicate SafeAt(ts: TroveList, price: nat) {
    PriceFits(price) || (Floor(price) == 0 && PositiveRatios(ts))
  }

  lemma SafeWalk(ts: TroveList, amount: nat, price: nat, maxIterations: nat)
    requires Ordered(ts) && PositiveDebts(ts) && SafeAt(ts, price)
    ensures RedemptionHints(ts, amount, price, maxIterations).Hints?
  {
    hide Floor, RedemptionHints;
    if PriceFits(price) {
      NeverReverts(ts, amount, price, maxIterations);
    } else {
      HighPricesBack(ts, amount, price, maxIterations);
    }
  }

  lemma SafeReached(ts: TroveList, price: nat, i: nat)
    requires Ordered(ts) && PositiveDebts(ts) && SafeAt(ts, price) && i < Redeemables(ts, |ts|, price)
    ensures price > 0 && Backed(ts[i], price) && ts[i].NominalICR() > 0
  {
    hide Backed, Floor;
    if PriceFits(price) {
      ReachedIsBacked(ts, |ts|, price, i);
    } else {
      PositiveBacks(ts[i], price);
    }
  }

  /**
   * The exact condition for the lists that contracts/SortedTroves.sol admits, where all nominal ratios are
   * positive: the calls revert for some list and request exactly at the prices up to 1.1e38 that do not fit.
   */
  lemma NeverRevertsPositiveIff(price: nat)
    ensures PriceFits(price) || Floor(price) == 0 <==>
            forall ts: TroveList, amount: nat, maxIterations: nat ::
              Ordered(ts) && PositiveDebts(ts) && PositiveRatios(ts) ==>
                RedemptionHints(ts, amount, price, maxIterations).Hints?
  {
    if PriceFits(price) || Floor(price) == 0 {
      forall ts: TroveList, amount: nat, maxIterations: nat | Ordered(ts) && PositiveDebts(ts) && PositiveRatios(ts)
        ensures RedemptionHints(ts, amount, price, maxIterations).Hints?
      {
        if PriceFits(price) {
          NeverReverts(ts, amount, price, maxIterations);
        } else {
          HighPricesBack(ts, amount, price, maxIterations);
        }
      }
    } else {
      BreakingReverts(price);
    }
  }
}
