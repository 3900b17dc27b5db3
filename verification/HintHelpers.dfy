/** contracts/HintHelpers.sol: redemption hints and insertion hints over a list of troves. */
module HintHelpers {
  import opened Accounts
  import opened Arithmetic
  import opened LiquityMath

  /** A trove with its share of redistributed collateral and debt that is not applied yet. */
  datatype Trove = Trove(owner: address, coll: nat, debt: nat, pendingColl: nat, pendingDebt: nat) {
    function Coll(): nat { coll + pendingColl }
    function Debt(): nat { debt + pendingDebt }
    function NominalICR(): nat { ComputeNominalCR(Coll(), Debt()) }
    function CurrentICR(price: nat): nat { ComputeCR(Coll(), Debt(), price) }
  }

  /** The sorted list from its head to its tail; the walks below go from the tail to the head. */
  type TroveList = seq<Trove>

  /** The owner at position `i`, or the null address before the head. */
  function OwnerAt(ts: TroveList, i: int): address
    requires i < |ts|
  {
    if i < 0 then NULL else ts[i].owner
  }

  datatype Hints =
    | Hints(firstRedemptionHint: address, partialRedemptionHintNICR: nat, truncatedSIMamount: nat)
    | Revert

  /** What a walk leaves of the requested amount, and the ratio of the trove it hits partially, or zero. */
  datatype Walk = Walk(remaining: nat, nicr: nat) | Stuck

  /** How many troves are left from the head when those at the tail below the minimum ratio are skipped. */
  function Redeemables(ts: TroveList, n: nat, price: nat): (m: nat)
    requires n <= |ts|
    ensures m <= n
  {
    if n == 0 || ts[n - 1].CurrentICR(price) >= MCR then n else Redeemables(ts, n - 1, price)
  }

  /** The effect of a partial redemption of `x` on a trove: its new nominal ratio, or nothing on underflow or zero price. */
  function PartialWalk(t: Trove, remaining: nat, price: nat): (w: Walk)
    requires MIN_NET_DEBT < t.Debt() && remaining < t.Debt()
    ensures w.Walk? ==> w.remaining <= remaining
  {
    var x := Min(remaining, t.Debt() - MIN_NET_DEBT);
    if price == 0 || x * DECIMAL_PRECISION / price > t.Coll() then Stuck
    else Walk(remaining - x, ComputeNominalCR(t.Coll() - x * DECIMAL_PRECISION / price, t.Debt() - x))
  }

  /** Greedy redemption from trove `n - 1` towards the head, visiting at most `cap - 1` troves. */
  function Greedy(ts: TroveList, n: nat, remaining: nat, price: nat, cap: nat): (w: Walk)
    requires n <= |ts| && 1 <= cap
    ensures w.Walk? ==> w.remaining <= remaining
  {
    if n == 0 || remaining == 0 || cap == 1 then Walk(remaining, 0)
    else
      var t := ts[n - 1];
      if t.Debt() <= remaining then Greedy(ts, n - 1, remaining - t.Debt(), price, cap - 1)
      else if MIN_NET_DEBT < t.Debt() then PartialWalk(t, remaining, price)
      else Walk(remaining, 0)
  }

  function Cap(maxIterations: nat): (c: nat)
    ensures 1 <= c
  {
    if maxIterations == 0 then MAX_UINT else maxIterations
  }

  /** The specification of `getRedemptionHints`. */
  function RedemptionHints(ts: TroveList, amount: nat, price: nat, maxIterations: nat): Hints {
    var n := Redeemables(ts, |ts|, price);
    match Greedy(ts, n, amount, price, Cap(maxIterations))
    case Stuck => Revert
    case Walk(remaining, nicr) => Hints(OwnerAt(ts, n - 1), nicr, amount - remaining)
  }

  /** `getRedemptionHints`. */
  method GetRedemptionHints(ts: TroveList, amount: nat, price: nat, maxIterations: nat) returns (r: Hints)
    ensures r == RedemptionHints(ts, amount, price, maxIterations)
  {
    var remaining: nat := amount;
    var current := |ts| - 1;
    while current >= 0 && ts[current].CurrentICR(price) < MCR
      invariant -1 <= current < |ts|
      invariant Redeemables(ts, |ts|, price) == Redeemables(ts, current + 1, price)
    {
      current := current - 1;
    }
    var firstRedemptionHint := OwnerAt(ts, current);
    var nicr := 0;
    var iterations := Cap(maxIterations);
    ghost var n := current + 1;
    while current >= 0 && remaining > 0
      invariant -1 <= current < |ts| && 1 <= iterations && remaining <= amount && nicr == 0
      invariant Greedy(ts, n, amount, price, Cap(maxIterations)) == Greedy(ts, current + 1, remaining, price, iterations)
      decreases current
    {
      iterations := iterations - 1;
      if iterations == 0 {
        break;
      }
      var t := ts[current];
      var netSIMDebt := t.debt + t.pendingDebt;
      if netSIMDebt > remaining {
        if netSIMDebt > MIN_NET_DEBT {
          var maxRedeemable := Min(remaining, netSIMDebt - MIN_NET_DEBT);
          var wsteth := t.coll + t.pendingColl;
          if price == 0 || maxRedeemable * DECIMAL_PRECISION / price > wsteth {
            return Revert;
          }
          var newColl := wsteth - maxRedeemable * DECIMAL_PRECISION / price;
          var newDebt := netSIMDebt - maxRedeemable;
          nicr := ComputeNominalCR(newColl, newDebt);
          remaining := remaining - maxRedeemable;
        }
        break;
      }
      remaining := remaining - netSIMDebt;
      current := current - 1;
    }
    return Hints(firstRedemptionHint, nicr, amount - remaining);
  }

  /** The result of `getApproxHint`. */
  datatype ApproxHint = ApproxHint(hintAddress: address, diff: nat, latestRandomSeed: nat)

  /** The distance of a trove's nominal ratio from a ratio. */
  function Distance(t: Trove, cr: nat): nat {
    AbsoluteDifference(t.NominalICR(), cr)
  }

  /** The seed after `k` hashes. */
  function SeedAfter(keccak: nat -> nat, seed: nat, k: nat): nat {
    if k == 0 then seed else keccak(SeedAfter(keccak, seed, k - 1))
  }

  /** The tail, then the trove that each of the first `k` hashes of the seed selects. */
  function Samples(keccak: nat -> nat, owners: seq<Trove>, tail: Trove, seed: nat, k: nat): (s: seq<Trove>)
    requires owners != []
    ensures |s| == k + 1
  {
    if k == 0 then [tail]
    else Samples(keccak, owners, tail, seed, k - 1) + [owners[SeedAfter(keccak, seed, k) % |owners|]]
  }

  /** Trove `i` is the first of those closest to the ratio. */
  ghost predicate IsFirstClosest(s: seq<Trove>, cr: nat, i: nat) {
    && i < |s|
    && (forall j :: 0 <= j < |s| ==> Distance(s[i], cr) <= Distance(s[j], cr))
    && (forall j :: 0 <= j < i ==> Distance(s[i], cr) < Distance(s[j], cr))
  }

  /** `r` names the first closest trove of `s` and its distance. */
  ghost predicate NamesClosest(s: seq<Trove>, cr: nat, r: ApproxHint) {
    exists i: nat :: IsFirstClosest(s, cr, i) && r.hintAddress == s[i].owner && r.diff == Distance(s[i], cr)
  }

  /** How many hashes `numTrials` trials take. */
  function Hashes(numTrials: nat): nat {
    if numTrials == 0 then 0 else numTrials - 1
  }

  /** `r` names the first closest trove among the tail and the samples, its distance, and the last seed. */
  ghost predicate IsApproxHint(keccak: nat -> nat, owners: seq<Trove>, tail: Trove, cr: nat, numTrials: nat, seed: nat,
                               r: ApproxHint)
    requires owners != []
  {
    && r.latestRandomSeed == SeedAfter(keccak, seed, Hashes(numTrials))
    && NamesClosest(Samples(keccak, owners, tail, seed, Hashes(numTrials)), cr, r)
  }

  /** `getApproxHint`, with the array of trove owners, the tail of the sorted list and the hash function as parameters. */
  method GetApproxHint(keccak: nat -> nat, owners: seq<Trove>, tail: Trove, cr: nat, numTrials: nat, seed: nat)
    returns (r: ApproxHint)
    ensures owners == [] ==> r == ApproxHint(NULL, 0, seed)
    ensures owners != [] ==> IsApproxHint(keccak, owners, tail, cr, numTrials, seed, r)
  {
    if |owners| == 0 {
      return ApproxHint(NULL, 0, seed);
    }
    var hintAddress := tail.owner;
    var diff := AbsoluteDifference(cr, tail.NominalICR());
    var latest: nat := seed;
    var i := 1;
    ghost var best: nat := 0;
    ghost var s := [tail];
    while i < numTrials
      invariant 1 <= i && (i <= numTrials || i == 1)
      invariant latest == SeedAfter(keccak, seed, i - 1)
      invariant s == Samples(keccak, owners, tail, seed, i - 1)
      invariant IsFirstClosest(s, cr, best) && hintAddress == s[best].owner && diff == Distance(s[best], cr)
    {
      latest := keccak(latest);
      var current := owners[latest % |owners|];
      var currentDiff := AbsoluteDifference(current.NominalICR(), cr);
      ghost var longer := s + [current];
      assert forall j :: 0 <= j < |s| ==> longer[j] == s[j];
      if currentDiff < diff {
        diff := currentDiff;
        hintAddress := current.owner;
        best := |s|;
      }
      s := longer;
      i := i + 1;
    }
    return ApproxHint(hintAddress, diff, latest);
  }

  /** The tail comes first, then the trove at the index that each further hash of the seed gives. */
  lemma {:induction false} SampleAt(keccak: nat -> nat, owners: seq<Trove>, tail: Trove, seed: nat, k: nat, i: nat)
    requires owners != [] && i <= k
    ensures Samples(keccak, owners, tail, seed, k)[i] == if i == 0 then tail else owners[SeedAfter(keccak, seed, i) % |owners|]
    ensures SeedAfter(keccak, seed, i) == if i == 0 then seed else keccak(SeedAfter(keccak, seed, i - 1))
  {
    if i < k {
      SampleAt(keccak, owners, tail, seed, k - 1, i);
    }
  }

  /** In plain numbers: the hinted trove is `diff` away from the ratio asked for, and no sample lies nearer to it. */
  lemma NoSampleIsNearer(s: seq<Trove>, cr: nat, r: ApproxHint)
    requires NamesClosest(s, cr, r)
    ensures exists t :: t in s && t.owner == r.hintAddress && (t.NominalICR() + r.diff == cr || cr + r.diff == t.NominalICR())
    ensures forall t :: t in s ==> t.NominalICR() + r.diff <= cr || cr + r.diff <= t.NominalICR()
  {
    hide ComputeNominalCR;
    var i: nat :| IsFirstClosest(s, cr, i) && r.hintAddress == s[i].owner && r.diff == Distance(s[i], cr);
    assert s[i] in s;
    forall t | t in s ensures t.NominalICR() + r.diff <= cr || cr + r.diff <= t.NominalICR() {
      var j :| 0 <= j < |s| && s[j] == t;
      assert Distance(s[i], cr) <= Distance(s[j], cr);
    }
  }

  lemma FirstClosestUnique(s: seq<Trove>, cr: nat, i: nat, j: nat)
    requires IsFirstClosest(s, cr, i) && IsFirstClosest(s, cr, j)
    ensures i == j
  {
    hide Distance;
    assert Distance(s[i], cr) == Distance(s[j], cr);
  }

  /** The better of two results: the second only if it is strictly closer. */
  function Better(r: ApproxHint, r': ApproxHint): ApproxHint {
    if r'.diff < r.diff then r' else ApproxHint(r.hintAddress, r.diff, r'.latestRandomSeed)
  }

  lemma {:induction false} SeedsCompose(keccak: nat -> nat, seed: nat, j: nat, k: nat)
    ensures SeedAfter(keccak, SeedAfter(keccak, seed, j), k) == SeedAfter(keccak, seed, j + k)
  {
    if k > 0 {
      SeedsCompose(keccak, seed, j, k - 1);
    }
  }

  lemma {:induction false} SamplesCompose(keccak: nat -> nat, owners: seq<Trove>, tail: Trove, seed: nat, j: nat, k: nat)
    requires owners != []
    ensures Samples(keccak, owners, tail, seed, j + k)
            == Samples(keccak, owners, tail, seed, j) + Samples(keccak, owners, tail, SeedAfter(keccak, seed, j), k)[1..]
    ensures Samples(keccak, owners, tail, seed, j)[0] == tail
  {
    if k > 0 {
      SamplesCompose(keccak, owners, tail, seed, j, k - 1);
      SeedsCompose(keccak, seed, j, k);
      assert Samples(keccak, owners, tail, seed, j + k)
          == Samples(keccak, owners, tail, seed, j + (k - 1)) + [owners[SeedAfter(keccak, seed, j + k) % |owners|]];
    } else if j > 0 {
      SamplesCompose(keccak, owners, tail, seed, j - 1, 0);
    }
  }

  /** The first closest of two sample runs that share their first trove. */
  lemma FirstClosestConcat(a: seq<Trove>, b: seq<Trove>, cr: nat, i: nat, j: nat)
    requires IsFirstClosest(a, cr, i) && IsFirstClosest(b, cr, j) && a[0] == b[0]
    ensures if Distance(b[j], cr) < Distance(a[i], cr)
            then j > 0 && IsFirstClosest(a + b[1..], cr, |a| + j - 1)
            else IsFirstClosest(a + b[1..], cr, i)
  {
    var c := a + b[1..];
    assert forall k :: 0 <= k < |a| ==> c[k] == a[k];
    assert forall k :: |a| <= k < |c| ==> c[k] == b[k - |a| + 1];
  }

  /**
   * `n` trials, then `m` more from the returned seed, keeping the better hint, are one run of
   * `n + m - 1` trials: both runs look at the tail first.
   */
  lemma TrialsCompose(keccak: nat -> nat, owners: seq<Trove>, tail: Trove, cr: nat, n: nat, m: nat, seed: nat,
                      r: ApproxHint, r': ApproxHint)
    requires owners != [] && n >= 1 && m >= 1
    requires IsApproxHint(keccak, owners, tail, cr, n, seed, r)
    requires IsApproxHint(keccak, owners, tail, cr, m, r.latestRandomSeed, r')
    ensures IsApproxHint(keccak, owners, tail, cr, n + m - 1, seed, Better(r, r'))
  {
    hide Distance, SeedAfter, Samples, NamesClosest;
    var a := Samples(keccak, owners, tail, seed, n - 1);
    var b := Samples(keccak, owners, tail, r.latestRandomSeed, m - 1);
    SamplesCompose(keccak, owners, tail, seed, n - 1, m - 1);
    SamplesCompose(keccak, owners, tail, r.latestRandomSeed, m - 1, 0);
    SeedsCompose(keccak, seed, n - 1, m - 1);
    BetterClosest(a, b, cr, r, r');
    assert n - 1 + (m - 1) == Hashes(n + m - 1);
  }

  lemma BetterClosest(a: seq<Trove>, b: seq<Trove>, cr: nat, r: ApproxHint, r': ApproxHint)
    requires NamesClosest(a, cr, r) && NamesClosest(b, cr, r')
    requires a != [] && b != [] && a[0] == b[0]
    ensures NamesClosest(a + b[1..], cr, Better(r, r'))
  {
    hide Distance;
    var i: nat :| IsFirstClosest(a, cr, i) && r.hintAddress == a[i].owner && r.diff == Distance(a[i], cr);
    var j: nat :| IsFirstClosest(b, cr, j) && r'.hintAddress == b[j].owner && r'.diff == Distance(b[j], cr);
    FirstClosestConcat(a, b, cr, i, j);
    var w: nat := if r'.diff < r.diff then |a| + j - 1 else i;
    assert IsFirstClosest(a + b[1..], cr, w);
  }

  /** The result is determined: one call has one outcome. */
  lemma ApproxHintUnique(keccak: nat -> nat, owners: seq<Trove>, tail: Trove, cr: nat, n: nat, seed: nat,
                         r: ApproxHint, r': ApproxHint)
    requires owners != []
    requires IsApproxHint(keccak, owners, tail, cr, n, seed, r) && IsApproxHint(keccak, owners, tail, cr, n, seed, r')
    ensures r == r'
  {
    var s := Samples(keccak, owners, tail, seed, Hashes(n));
    var i: nat :| IsFirstClosest(s, cr, i) && r.hintAddress == s[i].owner && r.diff == Distance(s[i], cr);
    var j: nat :| IsFirstClosest(s, cr, j) && r'.hintAddress == s[j].owner && r'.diff == Distance(s[j], cr);
    FirstClosestUnique(s, cr, i, j);
  }
}
