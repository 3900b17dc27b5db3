/**
 * The liquidation rewards of contracts/TroveManager.sol and the claim of contracts/SortedTroves.sol that they
 * keep the order of the list. A trove's order is that of its ratio of collateral to debt, both with rewards.
 */
module Redistribution {
  import opened Accounts
  import opened Arithmetic
  import opened LiquityMath
  import opened HintHelpers
  import opened RedemptionProofs
  import SortedTroves
  import TroveManager

  /** What the trove manager stores for a trove; the snapshots are of the running totals. */
  datatype Position = Position(coll: nat, debt: nat, stake: nat, collSnapshot: nat, debtSnapshot: nat)

  /** `L_WSTETH` and `L_SIMDebt`: the rewards per unit staked, scaled by `DECIMAL_PRECISION`. */
  datatype Totals = Totals(coll: nat, debt: nat)

  function PendingReward(stake: nat, total: nat, snapshot: nat): nat
    requires snapshot <= total
  {
    stake * (total - snapshot) / DECIMAL_PRECISION
  }

  /** The running totals never fall. */
  predicate Grows(l: Totals, l': Totals) {
    l.coll <= l'.coll && l.debt <= l'.debt
  }

  predicate Snapped(p: Position, l: Totals) {
    p.collSnapshot <= l.coll && p.debtSnapshot <= l.debt
  }

  /** `_getCurrentTroveAmounts`. */
  function Coll(p: Position, l: Totals): nat
    requires Snapped(p, l)
  {
    p.coll + PendingReward(p.stake, l.coll, p.collSnapshot)
  }

  function Debt(p: Position, l: Totals): nat
    requires Snapped(p, l)
  {
    p.debt + PendingReward(p.stake, l.debt, p.debtSnapshot)
  }

  /** A trove opened with stake equal to its collateral, the rule before the first liquidation. */
  function Opened(coll: nat, debt: nat, l: Totals): Position {
    Position(coll, debt, NewStake(coll, 0, 0), l.coll, l.debt)
  }

  /** `_computeNewStake`. */
  function NewStake(coll: nat, totalStakesSnapshot: nat, totalCollateralSnapshot: nat): nat {
    if totalCollateralSnapshot == 0 then coll else coll * totalStakesSnapshot / totalCollateralSnapshot
  }

  /** `c / d >= c' / d'`. */
  predicate AtLeast(c: nat, d: nat, c': nat, d': nat) {
    c * d' >= c' * d
  }

  /** Trove `p` may stand before `q` in the list. */
  predicate Before(p: Position, q: Position, l: Totals)
    requires Snapped(p, l) && Snapped(q, l)
  {
    AtLeast(Coll(p, l), Debt(p, l), Coll(q, l), Debt(q, l))
  }

  /** The stakes are in the proportion of the collateral. */
  predicate Proportional(p: Position, q: Position, l: Totals)
    requires Snapped(p, l) && Snapped(q, l)
  {
    p.stake * Coll(q, l) == q.stake * Coll(p, l)
  }

  /** The rewards of a trove per unit staked are whole amounts. */
  predicate Whole(p: Position, l: Totals)
    requires Snapped(p, l)
  {
    (l.coll - p.collSnapshot) % DECIMAL_PRECISION == 0 && (l.debt - p.debtSnapshot) % DECIMAL_PRECISION == 0
  }

  // --- Whole rewards ---

  lemma WholeReward(stake: nat, k: nat)
    ensures stake * (k * DECIMAL_PRECISION) / DECIMAL_PRECISION == stake * k
  {
    assert stake * (k * DECIMAL_PRECISION) == DECIMAL_PRECISION * (stake * k) + 0;
    DivMod(stake * (k * DECIMAL_PRECISION), DECIMAL_PRECISION, stake * k, 0);
  }

  /** Whole rewards grow by the stake for each unit by which the totals grow. */
  lemma WholeGrowth(stake: nat, snapshot: nat, total: nat, total': nat)
    requires snapshot <= total <= total'
    requires (total - snapshot) % DECIMAL_PRECISION == 0 && (total' - snapshot) % DECIMAL_PRECISION == 0
    ensures PendingReward(stake, total', snapshot)
         == PendingReward(stake, total, snapshot) + stake * ((total' - total) / DECIMAL_PRECISION)
  {
    var i, j := (total - snapshot) / DECIMAL_PRECISION, (total' - snapshot) / DECIMAL_PRECISION;
    WholeReward(stake, i);
    WholeReward(stake, j);
    assert total - snapshot == i * DECIMAL_PRECISION && total' - snapshot == j * DECIMAL_PRECISION;
    assert total' - total == (j - i) * DECIMAL_PRECISION;
    assert stake * j == stake * i + stake * (j - i);
  }

  /** Adding `a` of collateral and `b` of debt for each unit of proportional stakes changes no order. */
  lemma AccrueKeepsOrder(c: nat, d: nat, s: nat, c': nat, d': nat, s': nat, a: nat, b: nat)
    requires c > 0 && s * c' == s' * c
    ensures AtLeast(c + s * a, d + s * b, c' + s' * a, d' + s' * b) <==> AtLeast(c, d, c', d')
  {
    var x, z := c * d' - c' * d, s * d' - s' * d;
    CrossTerms(c, d, s, c', d', s', a, b);
    StakeTerms(c, d, s, c', d', s');
    LeadingFactor(c, s, a, x, z);
    SameSign(c, c + s * a, x, (c + s * a) * (d' + s' * b) - (c' + s' * a) * (d + s * b));
  }

  /** The terms with `b` cancel between proportional stakes. */
  lemma CrossTerms(c: int, d: int, s: int, c': int, d': int, s': int, a: int, b: int)
    requires s * c' == s' * c
    ensures (c + s * a) * (d' + s' * b) - (c' + s' * a) * (d + s * b) == c * d' - c' * d + a * (s * d' - s' * d)
  {
    Expand(c, s * a, d', s' * b);
    Expand(c', s' * a, d, s * b);
    Commute(c, s', b);
    Commute(c', s, b);
    Commute(a, s, d');
    Commute(a, s', d);
    Commute(d', s, a);
    Commute(d, s', a);
    Distribute(a, s * d', s' * d);
    Commute(s * a, s', b);
    Commute(s' * a, s, b);
    Commute(s', s, a);
    Commute(s, s', a);
  }

  lemma StakeTerms(c: int, d: int, s: int, c': int, d': int, s': int)
    requires s * c' == s' * c
    ensures c * (s * d' - s' * d) == s * (c * d' - c' * d)
  {
    Distribute(c, s * d', s' * d);
    Distribute(s, c * d', c' * d);
    Commute(c, s, d');
    Commute(s, c, d');
    Commute(c, s', d);
    Commute(s, c', d);
    Commute(d, s', c);
    Commute(d, c', s);
  }

  lemma LeadingFactor(c: int, s: int, a: int, x: int, z: int)
    requires c * z == s * x
    ensures c * (x + a * z) == (c + s * a) * x
  {
    Expand(c, s * a, x, 0);
    assert c * (x + a * z) == c * x + c * (a * z);
    Commute(c, a, z);
    Commute(a, s, x);
    Commute(x, s, a);
  }

  lemma Distribute(a: int, x: int, y: int)
    ensures a * (x - y) == a * x - a * y
  {
  }

  lemma Expand(p: int, q: int, r: int, t: int)
    ensures (p + q) * (r + t) == p * r + p * t + q * r + q * t
  {
  }

  lemma SameSign(p: nat, q: nat, x: int, y: int)
    requires p > 0 && q > 0 && p * y == q * x
    ensures x >= 0 <==> y >= 0
  {
    if x >= 0 {
      MulMonotone(q, 0, x);
      CancelFactor(p, 0, y);
    } else {
      MulMonotone(q, x, -1);
      if y >= 0 {
        MulMonotone(p, 0, y);
        assert false;
      }
    }
  }

  /**
   * The claim of the list, where it is true: rewards that are whole per unit staked keep the order
   * of any two troves whose stakes are proportional, in both directions, and keep the stakes proportional.
   */
  lemma WholeRewardsKeepOrder(p: Position, q: Position, l: Totals, l': Totals)
    requires Snapped(p, l) && Snapped(q, l) && Grows(l, l')
    requires Whole(p, l) && Whole(q, l) && Whole(p, l') && Whole(q, l')
    requires Coll(p, l) > 0 && Proportional(p, q, l)
    ensures Before(p, q, l') <==> Before(p, q, l)
    ensures Proportional(p, q, l')
  {
    hide PendingReward;
    var a, b := (l'.coll - l.coll) / DECIMAL_PRECISION, (l'.debt - l.debt) / DECIMAL_PRECISION;
    WholeGrowth(p.stake, p.collSnapshot, l.coll, l'.coll);
    WholeGrowth(p.stake, p.debtSnapshot, l.debt, l'.debt);
    WholeGrowth(q.stake, q.collSnapshot, l.coll, l'.coll);
    WholeGrowth(q.stake, q.debtSnapshot, l.debt, l'.debt);
    AccrueKeepsOrder(Coll(p, l), Debt(p, l), p.stake, Coll(q, l), Debt(q, l), q.stake, a, b);
    ProportionalKept(Coll(p, l), p.stake, Coll(q, l), q.stake, a);
  }

  lemma ProportionalKept(c: int, s: int, c': int, s': int, a: int)
    requires s * c' == s' * c
    ensures s * (c' + s' * a) == s' * (c + s * a)
  {
    Commute(s, s', a);
    assert s * (c' + s' * a) == s * c' + s * (s' * a);
    assert s' * (c + s * a) == s' * c + s' * (s * a);
  }

  /** The order of two troves with these debts survives `a` of collateral and `b` of debt per unit staked. */
  predicate Kept(c: nat, d: nat, s: nat, c': nat, d': nat, s': nat, a: nat, b: nat) {
    AtLeast(c, d, c', d') ==> AtLeast(c + s * a, d + s * b, c' + s' * a, d' + s' * b)
  }

  /** Whole rewards keep the order of two troves, whatever their debts, if and only if their stakes are proportional. */
  lemma ProportionalIff(c: nat, s: nat, c': nat, s': nat)
    requires c > 0 && c' > 0
    ensures s * c' == s' * c <==> forall d: nat, d': nat, a: nat, b: nat :: Kept(c, d, s, c', d', s', a, b)
  {
    hide Kept;
    if s * c' == s' * c {
      forall d: nat, d': nat, a: nat, b: nat ensures Kept(c, d, s, c', d', s', a, b) {
        KeptIfProportional(c, d, s, c', d', s', a, b);
      }
    } else {
      KeptWitness(c, s, c', s');
    }
  }

  lemma KeptIfProportional(c: nat, d: nat, s: nat, c': nat, d': nat, s': nat, a: nat, b: nat)
    requires c > 0 && s * c' == s' * c
    ensures Kept(c, d, s, c', d', s', a, b)
  {
    hide AtLeast;
    AccrueKeepsOrder(c, d, s, c', d', s', a, b);
  }

  /** At equal ratios one unit of collateral alone and one unit of debt alone show a difference of the stakes. */
  lemma KeptWitness(c: nat, s: nat, c': nat, s': nat)
    ensures Kept(c, c, s, c', c', s', 1, 0) <==> s * c' >= s' * c
    ensures Kept(c, c, s, c', c', s', 0, 1) <==> s' * c >= s * c'
  {
    Expand(c, s, c', 0);
    Expand(c', s', c, 0);
    Expand(c', s', c, s);
    Expand(c, s, c', s');
    assert c * (c' + s') == c * c' + c * s';
    assert c' * (c + s) == c' * c + c' * s;
  }

  predicate StakesMatch(c: nat, c': nat, totalStakes: nat, totalCollateral: nat) {
    NewStake(c, totalStakes, totalCollateral) * c' == NewStake(c', totalStakes, totalCollateral) * c
  }

  /** The stakes given to all troves are proportional to their collateral exactly when the snapshot ratio is whole. */
  lemma NewStakesProportionalIff(totalStakes: nat, totalCollateral: nat)
    requires totalCollateral > 0
    ensures totalStakes % totalCollateral == 0 <==>
            forall c: nat, c': nat :: StakesMatch(c, c', totalStakes, totalCollateral)
  {
    hide StakesMatch;
    var k := totalStakes / totalCollateral;
    DivEquation(totalStakes, totalCollateral);
    if totalStakes % totalCollateral == 0 {
      forall c: nat, c': nat ensures StakesMatch(c, c', totalStakes, totalCollateral) {
        WholeStakesMatch(c, c', k, totalCollateral);
      }
    } else {
      StakesWitness(totalStakes, totalCollateral);
    }
  }

  lemma WholeStakesMatch(c: nat, c': nat, k: nat, totalCollateral: nat)
    requires totalCollateral > 0
    ensures StakesMatch(c, c', totalCollateral * k, totalCollateral)
  {
    WholeStake(c, k, totalCollateral);
    WholeStake(c', k, totalCollateral);
    hide NewStake;
    assert c * k * c' == c' * k * c;
  }

  /** The smallest collateral against the whole snapshot. */
  lemma StakesWitness(totalStakes: nat, totalCollateral: nat)
    requires totalCollateral > 0
    ensures StakesMatch(1, totalCollateral, totalStakes, totalCollateral) <==> totalStakes % totalCollateral == 0
  {
    DivMod(totalCollateral * totalStakes, totalCollateral, totalStakes, 0);
    DivEquation(totalStakes, totalCollateral);
  }

  lemma WholeStake(c: nat, k: nat, totalCollateral: nat)
    requires totalCollateral > 0
    ensures NewStake(c, totalCollateral * k, totalCollateral) == c * k
  {
    assert c * (totalCollateral * k) == totalCollateral * (c * k) + 0;
    DivMod(c * (totalCollateral * k), totalCollateral, c * k, 0);
  }

  // --- Rounded rewards ---

  /** A trove that the protocol admits, with whole rewards so far. */
  predicate Admitted(p: Position, l: Totals) {
    Snapped(p, l) && Whole(p, l) && Coll(p, l) > 0 && p.debt >= MIN_NET_DEBT
  }

  /** Whatever troves there are, those with proportional stakes are in the same order under the later totals. */
  ghost predicate KeepsAll(l: Totals, l': Totals)
    requires Grows(l, l')
  {
    forall p, q :: Admitted(p, l) && Admitted(q, l) && Proportional(p, q, l) && Before(p, q, l) ==> Before(p, q, l')
  }

  /**
   * The exact condition with the floor divisions of the code: the order of all troves with proportional stakes
   * is kept if and only if both totals grow by whole amounts.
   */
  lemma RewardsKeepOrderIff(l: Totals, l': Totals)
    requires Grows(l, l')
    ensures KeepsAll(l, l') <==>
              (l'.coll - l.coll) % DECIMAL_PRECISION == 0 && (l'.debt - l.debt) % DECIMAL_PRECISION == 0
  {
    var w, y := l'.coll - l.coll, l'.debt - l.debt;
    if w % DECIMAL_PRECISION == 0 && y % DECIMAL_PRECISION == 0 {
      hide Coll, Proportional, Before;
      forall p, q | Admitted(p, l) && Admitted(q, l) && Proportional(p, q, l) && Before(p, q, l)
        ensures Before(p, q, l')
      {
        StillWhole(p, l, l');
        StillWhole(q, l, l');
        WholeRewardsKeepOrder(p, q, l, l');
      }
    }
    if KeepsAll(l, l') {
      RoundingWitness(l, l', MIN_NET_DEBT);
      RoundingWitness(l, l', MIN_NET_DEBT + 1);
      TwoDebts(w, y, DECIMAL_PRECISION, MIN_NET_DEBT);
    }
  }

  lemma StillWhole(p: Position, l: Totals, l': Totals)
    requires Snapped(p, l) && Whole(p, l) && Grows(l, l')
    requires (l'.coll - l.coll) % DECIMAL_PRECISION == 0 && (l'.debt - l.debt) % DECIMAL_PRECISION == 0
    ensures Whole(p, l')
  {
  }

  lemma TwoDebts(w: nat, y: nat, e: nat, d: nat)
    requires e > 0
    requires (1 + w / e) * (y % e) == (w % e) * (d + y / e)
    requires (1 + w / e) * (y % e) == (w % e) * (d + 1 + y / e)
    ensures w % e == 0 && y % e == 0
  {
    Expand(w % e, 0, d + y / e, 1);
    CancelFactor(1 + w / e, y % e, 0);
  }

  /** A small trove and a large one of the same ratio lose different parts to rounding. */
  lemma RoundingWitness(l: Totals, l': Totals, d: nat)
    requires Grows(l, l') && KeepsAll(l, l') && d >= MIN_NET_DEBT
    ensures var e, w, y := DECIMAL_PRECISION, l'.coll - l.coll, l'.debt - l.debt;
            (1 + w / e) * (y % e) == (w % e) * (d + y / e)
  {
    var e := DECIMAL_PRECISION;
    OpenedAmounts(1, d, l);
    OpenedAmounts(e, e * d, l);
    var small, large := Opened(1, d, l), Opened(e, e * d, l);
    assert e * d >= MIN_NET_DEBT;
    assert Before(small, large, l) && Before(large, small, l);
    hide Before, Admitted, Proportional;
    assert Before(small, large, l') && Before(large, small, l');
    EqualAmounts(l, l', d);
    EqualRatios(e, l'.coll - l.coll, l'.debt - l.debt, d);
  }

  lemma OpenedAmounts(c: nat, d: nat, l: Totals)
    ensures var p := Opened(c, d, l); Snapped(p, l) && Whole(p, l) && Coll(p, l) == c && Debt(p, l) == d
  {
    assert c * 0 == 0;
  }

  lemma OpenedLater(c: nat, d: nat, l: Totals, l': Totals)
    requires Grows(l, l')
    ensures var p := Opened(c, d, l);
            && Snapped(p, l') && Coll(p, l') == c + PendingReward(c, l'.coll, l.coll)
            && Debt(p, l') == d + PendingReward(c, l'.debt, l.debt)
  {
  }

  lemma EqualAmounts(l: Totals, l': Totals, d: nat)
    requires Grows(l, l')
    ensures var e, w, y := DECIMAL_PRECISION, l'.coll - l.coll, l'.debt - l.debt;
            var small, large := Opened(1, d, l), Opened(e, e * d, l);
            Before(small, large, l') && Before(large, small, l') ==>
              (1 + w / e) * (e * d + y) == (e + w) * (d + y / e)
  {
    RewardOfUnits(l'.coll, l.coll);
    RewardOfUnits(l'.debt, l.debt);
  }

  lemma RewardOfUnits(total: nat, snapshot: nat)
    requires snapshot <= total
    ensures PendingReward(DECIMAL_PRECISION, total, snapshot) == total - snapshot
  {
    DivMod(DECIMAL_PRECISION * (total - snapshot), DECIMAL_PRECISION, total - snapshot, 0);
  }

  lemma EqualRatios(e: nat, w: nat, y: nat, d: nat)
    requires e > 0 && (1 + w / e) * (e * d + y) == (e + w) * (d + y / e)
    ensures (1 + w / e) * (y % e) == (w % e) * (d + y / e)
  {
    var a, b := w / e, y / e;
    DivEquation(w, e);
    DivEquation(y, e);
    var m, n := 1 + a, d + b;
    assert e * d + y == e * n + y % e;
    assert e + w == e * m + w % e;
    Expand(m, 0, e * n, y % e);
    Expand(e * m, w % e, n, 0);
    Commute(m, e, n);
    Commute(n, e, m);
  }

  /** Rounding reorders only neighbours: the order of troves whose ratios differ by this margin is kept. */
  lemma MarginKeepsOrder(c: nat, d: nat, c': nat, d': nat, l: Totals, l': Totals)
    requires c > 0 && d' > 0 && Grows(l, l')
    requires var e, w, y := DECIMAL_PRECISION, l'.coll - l.coll, l'.debt - l.debt;
             (e + w) * (c * d' - c' * d) >= c * (e + w) + e * d' + c' * y
    ensures Before(Opened(c, d, l), Opened(c', d', l), l')
  {
    hide Coll, Debt, PendingReward, AtLeast, FloorOf;
    var e, w: nat, y: nat := DECIMAL_PRECISION, l'.coll - l.coll, l'.debt - l.debt;
    OpenedLater(c, d, l, l');
    OpenedLater(c', d', l, l');
    RewardFloor(c, l'.coll, l.coll);
    RewardFloor(c', l'.coll, l.coll);
    RewardFloor(c, l'.debt, l.debt);
    RewardFloor(c', l'.debt, l.debt);
    RoundedMargin(e, c, d, c', d', w, y, PendingReward(c, l'.coll, l.coll), PendingReward(c, l'.debt, l.debt),
                  PendingReward(c', l'.coll, l.coll), PendingReward(c', l'.debt, l.debt));
  }

  /** `r` is the floor of `x / e`, without a division. */
  predicate FloorOf(e: nat, x: nat, r: nat) {
    e * r <= x < e * r + e
  }

  lemma RewardFloor(stake: nat, total: nat, snapshot: nat)
    requires snapshot <= total
    ensures FloorOf(DECIMAL_PRECISION, stake * (total - snapshot), PendingReward(stake, total, snapshot))
  {
    DivBounds(stake * (total - snapshot), DECIMAL_PRECISION);
  }

  lemma RoundedMargin(e: nat, c: nat, d: nat, c': nat, d': nat, w: nat, y: nat, cw: nat, cy: nat, cw': nat, cy': nat)
    requires e > 0 && c > 0 && d' > 0
    requires FloorOf(e, c * w, cw) && FloorOf(e, c * y, cy) && FloorOf(e, c' * w, cw') && FloorOf(e, c' * y, cy')
    requires (e + w) * (c * d' - c' * d) >= c * (e + w) + e * d' + c' * y
    ensures AtLeast(c + cw, d + cy, c' + cw', d' + cy')
  {
    hide AtLeast;
    var u := e + w;
    Expand(c, 0, e, w);
    Expand(c', 0, e, w);
    Expand(e, 0, c, cw);
    Expand(e, 0, c', cw');
    Expand(e, 0, d, cy);
    Expand(e, 0, d', cy');
    MulMonotone(u, 1, c);
    MulMonotone(e, 1, d');
    MarginProduct(c, d, c', d', u, y, e);
    ScaledOrder(e, c * u, e * d + c * y, c' * u, e * d' + c' * y, c + cw, d + cy, c' + cw', d' + cy');
  }

  /** An order with a margin for rounding holds of the rounded amounts. */
  lemma ScaledOrder(e: nat, x: nat, y: nat, x': nat, y': nat, c: nat, d: nat, c': nat, d': nat)
    requires e > 0 && x >= e && y' >= e && (x - e) * (y' - e) >= x' * y
    requires x - e <= e * c && e * c' <= x' && e * d <= y && y' - e <= e * d'
    ensures AtLeast(c, d, c', d')
  {
    Products(x - e, y' - e, e * c, e * d');
    Products(e * c', e * d, x', y);
    ScaledProduct(e, c, d');
    ScaledProduct(e, c', d);
    CancelFactor(e, e * (c' * d), e * (c * d'));
    CancelFactor(e, c' * d, c * d');
  }

  lemma ScaledProduct(e: nat, x: nat, y: nat)
    ensures e * x * (e * y) == e * (e * (x * y))
  {
    assert e * x * (e * y) == e * (x * (e * y));
    assert x * (e * y) == e * (x * y);
  }

  lemma Products(a: nat, b: nat, a': nat, b': nat)
    requires a <= a' && b <= b'
    ensures a * b <= a' * b'
  {
    MulMonotone(a, b, b');
    MulMonotone(b', a, a');
  }

  lemma MarginProduct(c: nat, d: nat, c': nat, d': nat, u: nat, y: nat, e: nat)
    requires u * (c * d' - c' * d) >= c * u + e * d' + c' * y
    ensures (c * u - e) * (e * d' + c' * y - e) >= c' * u * (e * d + c * y)
  {
    var cu, dy' := c * u, e * d' + c' * y;
    var minus: int := 0 - e;
    Expand(cu, minus, dy', minus);
    assert minus * minus == e * e;
    MarginTerms(c, d, c', d', u, y, e);
    MulMonotone(e, cu + dy', u * (c * d' - c' * d));
    assert e * (cu + dy') == e * cu + e * dy' == cu * e + e * dy';
  }

  lemma MarginTerms(c: int, d: int, c': int, d': int, u: int, y: int, e: int)
    ensures c * u * (e * d' + c' * y) - c' * u * (e * d + c * y) == e * (u * (c * d' - c' * d))
  {
    Expand(c * u, 0, e * d', c' * y);
    Expand(c' * u, 0, e * d, c * y);
    FourFactors(c, u, e, d');
    FourFactors(c', u, e, d);
    FourFactors(c, u, c', y);
    FourFactors(c', u, c, y);
    Commute(c', u, c * y);
    Commute(c, c', y);
    Distribute(u, c * d', c' * d);
    Distribute(e, u * (c * d'), u * (c' * d));
  }

  lemma FourFactors(c: int, u: int, e: int, d: int)
    ensures c * u * (e * d) == e * (u * (c * d))
  {
    Commute(c * u, e, d);
    Commute(d, c, u);
  }

  // --- The list ---

  function NominalAt(position: address -> Position, l: Totals): address -> nat
  {
    id => if Snapped(position(id), l) then ComputeNominalCR(Coll(position(id), l), Debt(position(id), l)) else 0
  }

  /** The order of ratios is finer than that of nominal ratios, which are floored. */
  lemma NominalFollows(c: nat, d: nat, c': nat, d': nat)
    requires d > 0 && d' > 0 && AtLeast(c, d, c', d')
    ensures ComputeNominalCR(c, d) >= ComputeNominalCR(c', d')
  {
    var r := ComputeNominalCR(c', d');
    NominalCRAtLeast(c', d', r);
    NominalCRAtLeast(c, d, r);
    MulMonotone(d, r * d', c' * NICR_PRECISION);
    MulMonotone(NICR_PRECISION, c' * d, c * d');
    assert d * (r * d') == d' * (r * d);
    assert d * (c' * NICR_PRECISION) == NICR_PRECISION * (c' * d);
    assert NICR_PRECISION * (c * d') == d' * (c * NICR_PRECISION);
    CancelFactor(d', r * d, c * NICR_PRECISION);
  }

  /** The troves of the list have whole rewards and proportional stakes. */
  ghost predicate Steady(order: seq<address>, position: address -> Position, l: Totals) {
    && (forall id :: id in order ==>
          Snapped(position(id), l) && Whole(position(id), l)
          && Coll(position(id), l) > 0 && position(id).debt > 0 && position(id).stake > 0)
    && forall i, j :: 0 <= i < j < |order| ==> Proportional(position(order[i]), position(order[j]), l)
  }

  /** The troves of the list are in order of ratio. */
  ghost predicate InOrder(order: seq<address>, position: address -> Position, l: Totals)
    requires forall id :: id in order ==> Snapped(position(id), l)
  {
    forall i, j :: 0 <= i < j < |order| ==> Before(position(order[i]), position(order[j]), l)
  }

  /** Later totals, with whole rewards again. */
  ghost predicate Later(order: seq<address>, position: address -> Position, l: Totals, l': Totals)
    requires forall id :: id in order ==> Snapped(position(id), l)
  {
    && Grows(l, l')
    && forall id :: id in order ==> Snapped(position(id), l') && Whole(position(id), l')
  }

  /** Liquidations with whole rewards keep a list in order, sorted by nominal ratio and fit for the hints. */
  lemma RedistributionKeepsList(order: seq<address>, position: address -> Position, l: Totals, l': Totals)
    requires SortedTroves.ProperOrder(order) && Steady(order, position, l) && InOrder(order, position, l)
    requires Later(order, position, l, l')
    ensures Steady(order, position, l') && InOrder(order, position, l')
    ensures SortedTroves.Sorted(order, NominalAt(position, l'))
    ensures var ts := ListAt(order, position, l'); Ordered(ts) && PositiveDebts(ts) && TroveManager.ProperOwners(ts)
  {
    hide Coll, Debt, Before, Proportional, Whole;
    forall i, j | 0 <= i < j < |order|
      ensures Before(position(order[i]), position(order[j]), l') && Proportional(position(order[i]), position(order[j]), l')
    {
      WholeRewardsKeepOrder(position(order[i]), position(order[j]), l, l');
    }
    forall id | id in order ensures Coll(position(id), l') > 0 {
      CollGrows(position(id), l, l');
    }
    ListSorted(order, position, l');
    ListFits(order, position, l');
  }

  lemma ListFits(order: seq<address>, position: address -> Position, l: Totals)
    requires SortedTroves.ProperOrder(order) && SortedTroves.Sorted(order, NominalAt(position, l))
    requires forall id :: id in order ==> Snapped(position(id), l) && position(id).debt > 0
    ensures var ts := ListAt(order, position, l); Ordered(ts) && PositiveDebts(ts) && TroveManager.ProperOwners(ts)
  {
    forall id | id in order
      ensures TroveAt(id, position(id), l).NominalICR() == NominalAt(position, l)(id)
      ensures TroveAt(id, position(id), l).Debt() > 0 && TroveAt(id, position(id), l).owner == id
    {
      TroveRatio(id, position, l);
    }
    hide TroveAt, NominalAt;
    TroveManager.SortedListIsOrdered(order, (id: address) => TroveAt(id, position(id), l), NominalAt(position, l));
  }

  /** The list compares floored ratios: what two troves have after `a` of collateral and `b` of debt per unit staked. */
  predicate NominalKept(c: nat, d: nat, s: nat, c': nat, d': nat, s': nat, a: nat, b: nat) {
    ComputeNominalCR(c + s * a, d + s * b) >= ComputeNominalCR(c' + s' * a, d' + s' * b)
  }

  /**
   * The exact condition for floored ratios: they stay in order under all whole rewards if and only if the ratios
   * themselves are in order. That the floored ratios are in order at the start is not enough.
   */
  lemma FlooredOrderIff(c: nat, d: nat, s: nat, c': nat, d': nat, s': nat)
    requires c > 0 && d > 0 && d' > 0 && s > 0 && s * c' == s' * c
    ensures AtLeast(c, d, c', d') <==> forall a: nat, b: nat :: NominalKept(c, d, s, c', d', s', a, b)
  {
    if AtLeast(c, d, c', d') {
      hide AtLeast;
      forall a: nat, b: nat ensures NominalKept(c, d, s, c', d', s', a, b) {
        AccrueKeepsOrder(c, d, s, c', d', s', a, b);
        NominalFollows(c + s * a, d + s * b, c' + s' * a, d' + s' * b);
      }
    } else {
      FlooredWitness(c, d, s, c', d', s');
    }
  }

  /** As much collateral per unit staked as the product of the debts makes any difference of ratios visible. */
  lemma FlooredWitness(c: nat, d: nat, s: nat, c': nat, d': nat, s': nat)
    requires c > 0 && d > 0 && d' > 0 && s > 0 && s * c' == s' * c && !AtLeast(c, d, c', d')
    ensures !NominalKept(c, d, s, c', d', s', d * d', 0)
  {
    var n := NICR_PRECISION;
    NominalShift(c, d, s, d');
    NominalShift(c', d', s', d);
    NominalFollows(c', d', c, d);
    assert s * d' + 1 <= s' * d by {
      StakeTerms(c, d, s, c', d', s');
      MulMonotone(s, 1, c' * d - c * d');
      Distribute(s, c * d', c' * d);
      Distribute(s, c' * d, c * d');
      if s * d' >= s' * d {
        MulMonotone(c, 0, s * d' - s' * d);
        assert false;
      }
    }
    MulMonotone(n, s * d' + 1, s' * d);
    assert d * d' == d' * d;
  }

  /** Collateral that is a multiple of the debt shifts the floored ratio exactly. */
  lemma NominalShift(c: nat, d: nat, s: nat, m: nat)
    requires d > 0
    ensures ComputeNominalCR(c + s * (d * m), d + s * 0) == ComputeNominalCR(c, d) + NICR_PRECISION * (s * m)
  {
    var n := NICR_PRECISION;
    DivEquation(c * n, d);
    Commute(s, d, m);
    Commute(m, d, s);
    Commute(n, d, s * m);
    assert (c + s * (d * m)) * n == c * n + n * (s * (d * m));
    assert n * (s * (d * m)) == n * (d * (s * m)) == d * (n * (s * m));
    Expand(d, 0, c * n / d, n * (s * m));
    DivMod((c + s * (d * m)) * n, d, c * n / d + n * (s * m), c * n % d);
  }

  /** A list stays sorted by floored ratio under all later whole rewards if and only if it is in order of ratio. */
  lemma SortedLaterIff(order: seq<address>, position: address -> Position, l: Totals)
    requires SortedTroves.ProperOrder(order) && Steady(order, position, l)
    ensures InOrder(order, position, l) <==>
            forall l' :: Later(order, position, l, l') ==> SortedTroves.Sorted(order, NominalAt(position, l'))
  {
    hide Coll, Debt, Before, Proportional, Whole, NominalAt, Later;
    if InOrder(order, position, l) {
      forall l' | Later(order, position, l, l') ensures SortedTroves.Sorted(order, NominalAt(position, l')) {
        RedistributionKeepsList(order, position, l, l');
      }
    } else {
      var i, j :| 0 <= i < j < |order| && !Before(position(order[i]), position(order[j]), l);
      UnsortedLater(order, position, l, i, j);
    }
  }

  lemma UnsortedLater(order: seq<address>, position: address -> Position, l: Totals, i: nat, j: nat)
    requires Steady(order, position, l) && i < j < |order| && !Before(position(order[i]), position(order[j]), l)
    ensures exists l' :: Later(order, position, l, l') && !SortedTroves.Sorted(order, NominalAt(position, l'))
  {
    hide Debt, Coll;
    var p, q := position(order[i]), position(order[j]);
    var a := Debt(p, l) * Debt(q, l);
    var l' := Totals(l.coll + a * DECIMAL_PRECISION, l.debt);
    DebtPositive(p, l);
    DebtPositive(q, l);
    AfterUnits(p, l, a);
    AfterUnits(q, l, a);
    forall id | id in order ensures Whole(position(id), l') {
      AfterUnits(position(id), l, a);
    }
    assert Later(order, position, l, l');
    FlooredWitness(Coll(p, l), Debt(p, l), p.stake, Coll(q, l), Debt(q, l), q.stake);
    assert NominalAt(position, l')(order[i]) < NominalAt(position, l')(order[j]);
  }

  lemma DebtPositive(p: Position, l: Totals)
    requires Snapped(p, l) && p.debt > 0
    ensures Debt(p, l) > 0
  {
  }

  /** `a` whole units of collateral per unit staked. */
  lemma AfterUnits(p: Position, l: Totals, a: nat)
    requires Snapped(p, l) && Whole(p, l)
    ensures var l' := Totals(l.coll + a * DECIMAL_PRECISION, l.debt);
            Snapped(p, l') && Whole(p, l') && Coll(p, l') == Coll(p, l) + p.stake * a && Debt(p, l') == Debt(p, l)
  {
    assert (l.coll + a * DECIMAL_PRECISION - p.collSnapshot) % DECIMAL_PRECISION == 0;
    assert a * DECIMAL_PRECISION / DECIMAL_PRECISION == a;
    WholeGrowth(p.stake, p.collSnapshot, l.coll, l.coll + a * DECIMAL_PRECISION);
  }

  lemma CollGrows(p: Position, l: Totals, l': Totals)
    requires Snapped(p, l) && Grows(l, l') && Whole(p, l) && Whole(p, l')
    ensures Coll(p, l) <= Coll(p, l')
  {
    WholeGrowth(p.stake, p.collSnapshot, l.coll, l'.coll);
  }

  function TroveAt(id: address, p: Position, l: Totals): Trove {
    if Snapped(p, l) then
      Trove(id, p.coll, p.debt, PendingReward(p.stake, l.coll, p.collSnapshot), PendingReward(p.stake, l.debt, p.debtSnapshot))
    else Trove(id, p.coll, p.debt, 0, 0)
  }

  /** The list with pending rewards, as the hints read it. */
  function ListAt(order: seq<address>, position: address -> Position, l: Totals): TroveList {
    seq(|order|, i requires 0 <= i < |order| => TroveAt(order[i], position(order[i]), l))
  }

  lemma TroveRatio(id: address, position: address -> Position, l: Totals)
    requires Snapped(position(id), l)
    ensures TroveAt(id, position(id), l).NominalICR() == NominalAt(position, l)(id)
    ensures TroveAt(id, position(id), l).Debt() >= position(id).debt && TroveAt(id, position(id), l).owner == id
  {
  }

  lemma ListSorted(order: seq<address>, position: address -> Position, l: Totals)
    requires Steady(order, position, l) && InOrder(order, position, l)
    ensures SortedTroves.Sorted(order, NominalAt(position, l))
  {
    forall i, j | 0 <= i < j < |order| ensures NominalAt(position, l)(order[i]) >= NominalAt(position, l)(order[j]) {
      var p, q := position(order[i]), position(order[j]);
      NominalFollows(Coll(p, l), Debt(p, l), Coll(q, l), Debt(q, l));
    }
  }

  /**
   * Two troves sorted only by their floored nominal ratios, as the list compares them: a whole reward of one
   * unit of collateral per unit staked leaves them unsorted.
   */
  lemma FlooredOrderBreaks()
    ensures var before, after := Totals(0, 0), Totals(DECIMAL_PRECISION, 0);
            var p, q := Opened(1, 100 * DECIMAL_PRECISION, before), Opened(3, 200 * DECIMAL_PRECISION, before);
            && Ordered([TroveAt(1, p, before), TroveAt(2, q, before)])
            && !Ordered([TroveAt(1, p, after), TroveAt(2, q, after)])
  {
    WholeReward(1, 1);
    WholeReward(3, 1);
    var before, after := Totals(0, 0), Totals(DECIMAL_PRECISION, 0);
    var p, q := Opened(1, 100 * DECIMAL_PRECISION, before), Opened(3, 200 * DECIMAL_PRECISION, before);
    var ts := [TroveAt(1, p, after), TroveAt(2, q, after)];
    assert ts[0].NominalICR() == 2 && ts[1].NominalICR() == 3;
  }

  // --- Redemption from the stored state ---

  /** `hasPendingRewards`: only the collateral total is compared with the snapshot. */
  function RewardedAt(position: address -> Position, l: Totals): TroveManager.Rewarded {
    (id: address) => position(id).collSnapshot < l.coll
  }

  /** The troves of the list have at least the minimum debt and snapshots of the past. */
  ghost predicate Stored(order: seq<address>, position: address -> Position, l: Totals) {
    && SortedTroves.ProperOrder(order) && |order| < MAX_UINT
    && forall id :: id in order ==> Snapped(position(id), l) && position(id).debt >= MIN_NET_DEBT
  }

  /** A debt reward is pending that a redemption does not apply. */
  predicate Skipped(p: Position, l: Totals)
    requires Snapped(p, l)
  {
    p.collSnapshot == l.coll && PendingReward(p.stake, l.debt, p.debtSnapshot) > 0
  }

  /**
   * In a sorted list every redemption with the hints keeps their promise if and only if none of the troves that
   * it can reach has a skipped reward.
   */
  lemma StoredRedemptionIff(order: seq<address>, position: address -> Position, l: Totals, price: nat)
    requires Stored(order, position, l) && SortedTroves.Sorted(order, NominalAt(position, l))
    requires SafeAt(ListAt(order, position, l), price)
    ensures var ts := ListAt(order, position, l);
            (forall i :: 0 <= i < Redeemables(ts, |ts|, price) ==> !Skipped(position(order[i]), l)) <==>
            forall amount: nat, maxIterations: nat ::
              TroveManager.RedeemsAsHinted(ts, RewardedAt(position, l), amount, price, maxIterations)
  {
    hide NominalAt, TroveManager.RedeemsAsHinted, SafeAt;
    var ts, rewarded := ListAt(order, position, l), RewardedAt(position, l);
    ListFits(order, position, l);
    forall i | 0 <= i < |ts|
      ensures ts[i].debt >= MIN_NET_DEBT && (rewarded(ts[i].owner) || ts[i].pendingColl == 0)
      ensures Skipped(position(order[i]), l) <==> !rewarded(ts[i].owner) && ts[i].pendingDebt > 0
    {
      SkippedAt(order[i], position, l);
    }
    TroveManager.RedeemsAsHintedIff(ts, rewarded, price);
  }

  lemma SkippedAt(id: address, position: address -> Position, l: Totals)
    requires Snapped(position(id), l)
    ensures var t, rewarded := TroveAt(id, position(id), l), RewardedAt(position, l)(id);
            && t.owner == id && t.debt == position(id).debt && (rewarded || t.pendingColl == 0)
            && (Skipped(position(id), l) <==> !rewarded && t.pendingDebt > 0)
  {
    assert position(id).stake * 0 == 0;
  }

  /**
   * Two troves opened one after the other, and between them a liquidation whose collateral reward is rounded to
   * zero: the hints count the debt reward of the first, and the redemption stops there.
   */
  lemma SkippedReward(position: address -> Position)
    requires var e := DECIMAL_PRECISION;
             && position(1) == Opened(10 * e, 2 * e, Totals(0, 0))
             && position(2) == Opened(100 * e, 10 * e, Totals(0, 3 * e / 10))
    ensures var e, l := DECIMAL_PRECISION, Totals(0, 3 * DECIMAL_PRECISION / 10);
            var ts, rewarded := ListAt([2, 1], position, l), RewardedAt(position, l);
            && Stored([2, 1], position, l) && Skipped(position(1), l)
            && RedemptionHints(ts, 5 * e, e, 0) == Hints(1, 0, 5 * e)
            && TroveManager.Redemptions(ts, rewarded, 5 * e, e, 1, 0, 0) == TroveManager.Redeemed(2 * e, 2 * e, true)
  {
    var e, l := DECIMAL_PRECISION, Totals(0, 3 * DECIMAL_PRECISION / 10);
    var ts, rewarded := ListAt([2, 1], position, l), RewardedAt(position, l);
    assert ts == [Trove(2, 100 * e, 10 * e, 0, 0), Trove(1, 10 * e, 2 * e, 0, 3 * e)];
    assert !rewarded(1) && !rewarded(2);
    hide ListAt, TroveAt, RewardedAt, PendingReward;
    assert Redeemables(ts, 2, e) == 2;
    assert Greedy(ts, 1, 0, e, MAX_UINT - 1) == Walk(0, 0);
    assert TroveManager.Start(ts, 1, e) == 2;
    assert TroveManager.RedeemCollateralFromTrove(ts[0], 3 * e, e, 0, 1) == TroveManager.Cancelled;
    assert TroveManager.RedeemFrom(ts, rewarded, 1, 1, 3 * e, e, 0, MAX_UINT - 1) == TroveManager.Redeemed(0, 0, true);
    assert TroveManager.RedeemCollateralFromTrove(ts[1], 5 * e, e, 0, 2) == TroveManager.Single(2 * e, 2 * e);
  }
}
