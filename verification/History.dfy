/**
 * The state of contracts/Controller.sol in terms of the run that led to it: what is pending is what was
 * announced and neither carried out nor withdrawn since. Times are in seconds; 172800 of them are 48 hours.
 */
module History {
  import opened Accounts
  import opened Sequences
  import opened TimeLock

  /** Transaction `i` of the run went through. */
  ghost predicate Done(governance: address, run: seq<Tx>, i: nat) {
    i < |run| && Succeeds(At(governance, run, i), run[i])
  }

  // --- Addresses ---

  ghost predicate AddressAnnounced(governance: address, run: seq<Tx>, j: nat, t: AddressType, value: address) {
    Done(governance, run, j) && run[j].call == AnnounceAddressChange(t, value)
  }

  /** Transaction `k` carried out or withdrew what was pending for the type. */
  ghost predicate AddressCleared(governance: address, run: seq<Tx>, k: nat, t: AddressType) {
    Done(governance, run, k) && (run[k].call == RemoveAddressAnnounce(t) || run[k].call == ChangeAddress(t))
  }

  /** The announcement of transaction `j` still stands before transaction `n`. */
  ghost predicate AddressStands(governance: address, run: seq<Tx>, j: nat, n: nat, t: AddressType, value: address) {
    && j < n <= |run| && AddressAnnounced(governance, run, j, t, value)
    && forall k: nat :: j < k < n ==> !AddressCleared(governance, run, k, t)
  }

  /** The state holds this value with this lock for the type. */
  predicate PendingAddress(s: State, t: AddressType, value: address, lock: nat) {
    && t in s.addressAnnounces && s.addressAnnounces[t] == value
    && t in s.addressTimeLocks && s.addressTimeLocks[t] == lock
  }

  lemma PendingAddressStep(s: State, tx: Tx, t: AddressType, value: address, lock: nat)
    requires Inv(s)
    ensures PendingAddress(Step(s, tx), t, value, lock) <==>
              if Succeeds(s, tx) && tx.call.AnnounceAddressChange? && tx.call.addressType == t then
                value == tx.call.value && lock == tx.now + 172_800
              else
                && !(Succeeds(s, tx) && (tx.call == RemoveAddressAnnounce(t) || tx.call == ChangeAddress(t)))
                && PendingAddress(s, t, value, lock)
    ensures PendingAddress(s, t, value, lock) && tx.call.AnnounceAddressChange? && tx.call.addressType == t ==> !Succeeds(s, tx)
  {
  }

  lemma {:induction false} PendingStands(governance: address, run: seq<Tx>, n: nat, t: AddressType, value: address, lock: nat)
      returns (j: nat)
    requires governance != NULL && n <= |run| && PendingAddress(At(governance, run, n), t, value, lock)
    ensures AddressStands(governance, run, j, n, t, value) && lock == run[j].now + 172_800
  {
    hide Succeeds, Step, PendingAddress, Inv;
    if n == 0 {
      NothingPending(governance, run, t, value, lock);
    }
    var s, tx := At(governance, run, n - 1), run[n - 1];
    ReachableInv(governance, run, n - 1);
    PendingAddressStep(s, tx, t, value, lock);
    if Done(governance, run, n - 1) && tx.call.AnnounceAddressChange? && tx.call.addressType == t {
      j := n - 1;
    } else {
      j := PendingStands(governance, run, n - 1, t, value, lock);
    }
  }

  lemma NothingPending(governance: address, run: seq<Tx>, t: AddressType, value: address, lock: nat)
    ensures !PendingAddress(At(governance, run, 0), t, value, lock)
  {
  }

  lemma {:induction false} StandsPending(governance: address, run: seq<Tx>, j: nat, n: nat, t: AddressType, value: address)
    requires governance != NULL && AddressStands(governance, run, j, n, t, value)
    ensures PendingAddress(At(governance, run, n), t, value, run[j].now + 172_800)
  {
    hide Succeeds, Step, PendingAddress, Inv;
    var s, tx := At(governance, run, n - 1), run[n - 1];
    ReachableInv(governance, run, n - 1);
    PendingAddressStep(s, tx, t, value, run[j].now + 172_800);
    if j < n - 1 {
      StandsPending(governance, run, j, n - 1, t, value);
      assert !AddressCleared(governance, run, n - 1, t);
    }
  }

  /** What is pending for a type is exactly the announcement that still stands, locked for 48 hours. */
  lemma PendingAddressIff(governance: address, run: seq<Tx>, n: nat, t: AddressType, value: address, lock: nat)
    requires governance != NULL && n <= |run|
    ensures PendingAddress(At(governance, run, n), t, value, lock) <==>
              exists j: nat :: AddressStands(governance, run, j, n, t, value) && lock == run[j].now + 172_800
  {
    hide PendingAddress;
    if PendingAddress(At(governance, run, n), t, value, lock) {
      var j := PendingStands(governance, run, n, t, value, lock);
    }
    if j: nat :| AddressStands(governance, run, j, n, t, value) && lock == run[j].now + 172_800 {
      StandsPending(governance, run, j, n, t, value);
    }
  }

  /** An announcement goes through exactly when none of its type stands. */
  lemma AnnounceAddressIff(governance: address, run: seq<Tx>, n: nat, sender: address, now: nat, t: AddressType, value: address)
    requires governance != NULL && n <= |run|
    ensures Succeeds(At(governance, run, n), Tx(sender, now, AnnounceAddressChange(t, value))) <==>
              && sender == At(governance, run, n).governance && value != NULL
              && !exists j: nat, v: address :: AddressStands(governance, run, j, n, t, v)
  {
    hide AddressStands;
    var s := At(governance, run, n);
    ReachableInv(governance, run, n);
    if t in s.addressAnnounces {
      var j := PendingStands(governance, run, n, t, s.addressAnnounces[t], s.addressTimeLocks[t]);
    }
    if j: nat, v: address :| AddressStands(governance, run, j, n, t, v) {
      StandsPending(governance, run, j, n, t, v);
    }
  }

  /** A change goes through exactly when an announcement of governance stands that is older than 48 hours. */
  lemma ChangeIff(governance: address, run: seq<Tx>, n: nat, sender: address, now: nat, t: AddressType)
    requires governance != NULL && n <= |run|
    ensures Succeeds(At(governance, run, n), Tx(sender, now, ChangeAddress(t))) <==>
              && sender == At(governance, run, n).governance && t == GOVERNANCE
              && exists j: nat, v: address :: AddressStands(governance, run, j, n, t, v) && run[j].now + 172_800 < now
  {
    var s := At(governance, run, n);
    ReachableInv(governance, run, n);
    if t in s.addressAnnounces {
      var j := PendingStands(governance, run, n, t, s.addressAnnounces[t], s.addressTimeLocks[t]);
      assert AddressStands(governance, run, j, n, t, s.addressAnnounces[t]);
    }
    if j: nat, v: address :| AddressStands(governance, run, j, n, t, v) && run[j].now + 172_800 < now {
      StandsPending(governance, run, j, n, t, v);
    }
  }

  /**
   * Governance after a change is the value of an announcement made more than 48 hours before and not
   * withdrawn since; all other transactions leave governance as it was.
   */
  lemma GovernanceAfter(governance: address, run: seq<Tx>, i: nat) returns (j: nat)
    requires governance != NULL && i < |run|
    ensures if Done(governance, run, i) && run[i].call.ChangeAddress? then
              && AddressStands(governance, run, j, i, GOVERNANCE, At(governance, run, i + 1).governance)
              && run[j].now + 172_800 < run[i].now
            else At(governance, run, i + 1).governance == At(governance, run, i).governance
  {
    j := 0;
    var s := At(governance, run, i);
    ReachableInv(governance, run, i);
    if Done(governance, run, i) && run[i].call.ChangeAddress? {
      j := PendingStands(governance, run, i, GOVERNANCE, s.addressAnnounces[GOVERNANCE], s.addressTimeLocks[GOVERNANCE]);
    }
  }

  /** A withdrawn change is gone: a later change of governance comes from a newer announcement. */
  lemma WithdrawnChangeIsGone(governance: address, run: seq<Tx>, k: nat, i: nat) returns (j: nat)
    requires governance != NULL && k < i < |run|
    requires Done(governance, run, k) && run[k].call == RemoveAddressAnnounce(GOVERNANCE)
    requires Done(governance, run, i) && run[i].call == ChangeAddress(GOVERNANCE)
    ensures k < j < i && AddressAnnounced(governance, run, j, GOVERNANCE, At(governance, run, i + 1).governance)
    ensures run[j].now + 172_800 < run[i].now
  {
    j := GovernanceAfter(governance, run, i);
    assert AddressCleared(governance, run, k, GOVERNANCE);
  }

  /** Governance can always withdraw, and nobody else. */
  lemma WithdrawIff(governance: address, run: seq<Tx>, n: nat, sender: address, now: nat, t: AddressType, p: address)
    requires n <= |run|
    ensures Succeeds(At(governance, run, n), Tx(sender, now, RemoveAddressAnnounce(t)))
       <==> sender == At(governance, run, n).governance
    ensures Succeeds(At(governance, run, n), Tx(sender, now, RemoveProxyAnnounce(p)))
       <==> sender == At(governance, run, n).governance
  {
  }

  // --- Proxies ---

  ghost predicate ProxyAnnounced(governance: address, run: seq<Tx>, j: nat, p: address, implementation: address) {
    && Done(governance, run, j) && run[j].call.AnnounceProxyUpgrade?
    && Pairs(run[j].call.proxies, run[j].call.implementations, p, implementation)
  }

  /** The batch announces this implementation for this proxy. */
  ghost predicate Pairs(proxies: seq<address>, implementations: seq<address>, p: address, implementation: address) {
    exists i :: 0 <= i < |proxies| && i < |implementations| && proxies[i] == p && implementations[i] == implementation
  }

  /** Transaction `k` carried out or withdrew the upgrade of the proxy. */
  ghost predicate ProxyCleared(governance: address, run: seq<Tx>, k: nat, p: address) {
    && Done(governance, run, k)
    && (run[k].call == RemoveProxyAnnounce(p) || (run[k].call.UpgradeProxy? && p in run[k].call.proxies))
  }

  ghost predicate ProxyStands(governance: address, run: seq<Tx>, j: nat, n: nat, p: address, implementation: address) {
    && j < n <= |run| && ProxyAnnounced(governance, run, j, p, implementation)
    && forall k: nat :: j < k < n ==> !ProxyCleared(governance, run, k, p)
  }

  predicate PendingProxy(s: State, p: address, implementation: address, lock: nat) {
    && p in s.proxyAnnounces && s.proxyAnnounces[p] == implementation
    && p in s.proxyTimeLocks && s.proxyTimeLocks[p] == lock
  }

  lemma PendingProxyStep(s: State, tx: Tx, p: address, implementation: address, lock: nat)
    requires Inv(s)
    ensures PendingProxy(Step(s, tx), p, implementation, lock) <==>
              if Succeeds(s, tx) && tx.call.AnnounceProxyUpgrade? && p in tx.call.proxies then
                Pairs(tx.call.proxies, tx.call.implementations, p, implementation) && lock == tx.now + 172_800
              else
                && !(Succeeds(s, tx) && (tx.call == RemoveProxyAnnounce(p) || (tx.call.UpgradeProxy? && p in tx.call.proxies)))
                && PendingProxy(s, p, implementation, lock)
    ensures PendingProxy(s, p, implementation, lock) && tx.call.AnnounceProxyUpgrade? && p in tx.call.proxies ==> !Succeeds(s, tx)
  {
    if Succeeds(s, tx) && tx.call.AnnounceProxyUpgrade? {
      var proxies, implementations := tx.call.proxies, tx.call.implementations;
      StoreAllAt(s.proxyTimeLocks, proxies, LocksAt(proxies, tx.now));
      StoreAllAt(s.proxyAnnounces, proxies, implementations);
      if p in proxies {
        var i :| 0 <= i < |proxies| && proxies[i] == p;
        assert Step(s, tx).proxyAnnounces[proxies[i]] == implementations[i];
        assert Step(s, tx).proxyTimeLocks[proxies[i]] == tx.now + 172_800;
      }
    }
  }

  lemma {:induction false} PendingProxyStands(governance: address, run: seq<Tx>, n: nat, p: address, implementation: address,
                                              lock: nat)
      returns (j: nat)
    requires governance != NULL && n <= |run| && PendingProxy(At(governance, run, n), p, implementation, lock)
    ensures ProxyStands(governance, run, j, n, p, implementation) && lock == run[j].now + 172_800
  {
    hide Succeeds, Step, PendingProxy, Inv, Pairs;
    if n == 0 {
      NoProxyPending(governance, run, p, implementation, lock);
    }
    var s, tx := At(governance, run, n - 1), run[n - 1];
    ReachableInv(governance, run, n - 1);
    PendingProxyStep(s, tx, p, implementation, lock);
    if Done(governance, run, n - 1) && tx.call.AnnounceProxyUpgrade? && p in tx.call.proxies {
      j := n - 1;
    } else {
      j := PendingProxyStands(governance, run, n - 1, p, implementation, lock);
    }
  }

  lemma NoProxyPending(governance: address, run: seq<Tx>, p: address, implementation: address, lock: nat)
    ensures !PendingProxy(At(governance, run, 0), p, implementation, lock)
  {
  }

  lemma {:induction false} ProxyStandsPending(governance: address, run: seq<Tx>, j: nat, n: nat, p: address,
                                              implementation: address)
    requires governance != NULL && ProxyStands(governance, run, j, n, p, implementation)
    ensures PendingProxy(At(governance, run, n), p, implementation, run[j].now + 172_800)
  {
    hide Succeeds, Step, PendingProxy, Inv, Pairs;
    var s, tx := At(governance, run, n - 1), run[n - 1];
    ReachableInv(governance, run, n - 1);
    PendingProxyStep(s, tx, p, implementation, run[j].now + 172_800);
    if j < n - 1 {
      ProxyStandsPending(governance, run, j, n - 1, p, implementation);
      assert !ProxyCleared(governance, run, n - 1, p);
    } else {
      PairsIn(tx.call.proxies, tx.call.implementations, p, implementation);
    }
  }

  lemma PairsIn(proxies: seq<address>, implementations: seq<address>, p: address, implementation: address)
    requires Pairs(proxies, implementations, p, implementation)
    ensures p in proxies
  {
  }

  /** What is pending for a proxy is exactly the announcement that still stands, locked for 48 hours. */
  lemma PendingProxyIff(governance: address, run: seq<Tx>, n: nat, p: address, implementation: address, lock: nat)
    requires governance != NULL && n <= |run|
    ensures PendingProxy(At(governance, run, n), p, implementation, lock) <==>
              exists j: nat :: ProxyStands(governance, run, j, n, p, implementation) && lock == run[j].now + 172_800
  {
    hide PendingProxy;
    if PendingProxy(At(governance, run, n), p, implementation, lock) {
      var j := PendingProxyStands(governance, run, n, p, implementation, lock);
    }
    if j: nat :| ProxyStands(governance, run, j, n, p, implementation) && lock == run[j].now + 172_800 {
      ProxyStandsPending(governance, run, j, n, p, implementation);
    }
  }

  /** An upgrade of the proxy was announced more than 48 hours ago, still stands, and is accepted by the proxy. */
  ghost predicate Ready(governance: address, run: seq<Tx>, n: nat, now: nat, p: address, accepts: (address, address) -> bool) {
    exists j: nat, i: address ::
      ProxyStands(governance, run, j, n, p, i) && run[j].now + 172_800 < now && accepts(p, i)
  }

  lemma ReadyIff(governance: address, run: seq<Tx>, n: nat, now: nat, p: address, accepts: (address, address) -> bool)
    requires governance != NULL && n <= |run|
    ensures var s := At(governance, run, n);
            Ready(governance, run, n, now, p, accepts) <==>
              p in s.proxyTimeLocks && s.proxyTimeLocks[p] < now && accepts(p, Lookup(s.proxyAnnounces, p))
  {
    var s := At(governance, run, n);
    ReachableInv(governance, run, n);
    if p in s.proxyTimeLocks {
      assert Lookup(s.proxyAnnounces, p) != NULL;
      var j := PendingProxyStands(governance, run, n, p, s.proxyAnnounces[p], s.proxyTimeLocks[p]);
      assert ProxyStands(governance, run, j, n, p, s.proxyAnnounces[p]);
    }
    if j: nat, i: address :| ProxyStands(governance, run, j, n, p, i) && run[j].now + 172_800 < now && accepts(p, i) {
      ProxyStandsPending(governance, run, j, n, p, i);
    }
  }

  /** A batch of upgrades goes through exactly when its proxies are distinct and all ready. */
  lemma UpgradeIff(governance: address, run: seq<Tx>, n: nat, sender: address, now: nat, proxies: seq<address>,
                   accepts: (address, address) -> bool)
    requires governance != NULL && n <= |run|
    ensures Succeeds(At(governance, run, n), Tx(sender, now, UpgradeProxy(proxies, accepts))) <==>
              && sender == At(governance, run, n).governance && NoDuplicates(proxies)
              && forall i :: 0 <= i < |proxies| ==> Ready(governance, run, n, now, proxies[i], accepts)
  {
    hide Ready, NoDuplicates;
    forall i | 0 <= i < |proxies|
      ensures var s := At(governance, run, n);
              Ready(governance, run, n, now, proxies[i], accepts) <==>
                && proxies[i] in s.proxyTimeLocks && s.proxyTimeLocks[proxies[i]] < now
                && accepts(proxies[i], Lookup(s.proxyAnnounces, proxies[i]))
    {
      ReadyIff(governance, run, n, now, proxies[i], accepts);
    }
  }

  /** A batch of announcements goes through exactly when its proxies are distinct, none has one standing, and no implementation is null. */
  lemma AnnounceProxyIff(governance: address, run: seq<Tx>, n: nat, sender: address, now: nat, proxies: seq<address>,
                         implementations: seq<address>)
    requires governance != NULL && n <= |run|
    ensures Succeeds(At(governance, run, n), Tx(sender, now, AnnounceProxyUpgrade(proxies, implementations))) <==>
              && sender == At(governance, run, n).governance
              && |proxies| == |implementations| && NoDuplicates(proxies) && NULL !in implementations
              && forall p, j: nat, i: address :: p in proxies ==> !ProxyStands(governance, run, j, n, p, i)
  {
    hide ProxyStands, NoDuplicates;
    var s := At(governance, run, n);
    ReachableInv(governance, run, n);
    forall p ensures p in s.proxyTimeLocks <==> exists j: nat, i: address :: ProxyStands(governance, run, j, n, p, i) {
      if p in s.proxyTimeLocks {
        assert Lookup(s.proxyAnnounces, p) != NULL;
        var j := PendingProxyStands(governance, run, n, p, s.proxyAnnounces[p], s.proxyTimeLocks[p]);
        assert ProxyStands(governance, run, j, n, p, s.proxyAnnounces[p]);
      }
      if j: nat, i: address :| ProxyStands(governance, run, j, n, p, i) {
        ProxyStandsPending(governance, run, j, n, p, i);
      }
    }
  }

  /**
   * Every recorded upgrade was made by a transaction, was accepted by its proxy, and goes back to an announcement of
   * that pair made more than 48 hours before and neither withdrawn nor carried out since.
   */
  lemma RecordedUpgradeStood(governance: address, run: seq<Tx>, k: nat) returns (i: nat, j: nat)
    requires governance != NULL && k < |At(governance, run, |run|).upgrades|
    ensures var u := At(governance, run, |run|).upgrades[k];
            && i < |run| && Makes(governance, run, i, u) && run[i].call.accepts(u.proxy, u.implementation)
            && ProxyStands(governance, run, j, i, u.proxy, u.implementation) && run[j].now + 172_800 < u.at
  {
    hide ProxyStands;
    i := UpgradeMadeBy(governance, run, |run|, k);
    var u, s := At(governance, run, |run|).upgrades[k], At(governance, run, i);
    ReachableInv(governance, run, i);
    var q :| 0 <= q < |run[i].call.proxies| && run[i].call.proxies[q] == u.proxy;
    assert u.proxy in s.proxyTimeLocks;
    j := PendingProxyStands(governance, run, i, u.proxy, u.implementation, s.proxyTimeLocks[u.proxy]);
  }

  /** A withdrawn upgrade is gone: a later upgrade of the proxy comes from a newer announcement. */
  lemma WithdrawnUpgradeIsGone(governance: address, run: seq<Tx>, p: address, k: nat, i: nat) returns (j: nat)
    requires governance != NULL && k < i < |run|
    requires Done(governance, run, k) && run[k].call == RemoveProxyAnnounce(p)
    requires Done(governance, run, i) && run[i].call.UpgradeProxy? && p in run[i].call.proxies
    ensures k < j < i && run[j].now + 172_800 < run[i].now
    ensures ProxyAnnounced(governance, run, j, p, Lookup(At(governance, run, i).proxyAnnounces, p))
  {
    var s := At(governance, run, i);
    ReachableInv(governance, run, i);
    var q :| 0 <= q < |run[i].call.proxies| && run[i].call.proxies[q] == p;
    assert p in s.proxyTimeLocks;
    j := PendingProxyStands(governance, run, i, p, Lookup(s.proxyAnnounces, p), s.proxyTimeLocks[p]);
    assert ProxyCleared(governance, run, k, p);
  }
}
