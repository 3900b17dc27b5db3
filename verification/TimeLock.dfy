/**
 * The state machine of contracts/Controller.sol: what each call requires and does, and what holds
 * over every run of calls. Module Controller proves the contract's methods against it.
 */
module TimeLock {
  import opened Accounts
  import opened Sequences

  /** 48 hours in seconds. */
  const TIME_LOCK: nat := 48 * 60 * 60

  datatype AddressType = UNKNOWN | GOVERNANCE

  /** A call of `upgrade(implementation)` that the controller made on a proxy. */
  datatype Upgrade = Upgrade(proxy: address, implementation: address, at: nat)

  datatype State = State(
    governance: address,
    addressTimeLocks: map<AddressType, nat>,
    addressAnnounces: map<AddressType, address>,
    proxyTimeLocks: map<address, nat>,
    proxyAnnounces: map<address, address>,
    upgrades: seq<Upgrade>)

  /** The external calls; `accepts` says which upgrades the proxies themselves let through. */
  datatype Call =
    | AnnounceAddressChange(addressType: AddressType, value: address)
    | ChangeAddress(addressType: AddressType)
    | RemoveAddressAnnounce(addressType: AddressType)
    | AnnounceProxyUpgrade(proxies: seq<address>, implementations: seq<address>)
    | UpgradeProxy(proxies: seq<address>, accepts: (address, address) -> bool)
    | RemoveProxyAnnounce(proxy: address)

  datatype Tx = Tx(sender: address, now: nat, call: Call)

  /** A Solidity mapping: absent keys read as zero. */
  function Lookup(m: map<address, address>, key: address): address {
    if key in m then m[key] else NULL
  }

  /** `m` with `values[i]` stored under `keys[i]`, from left to right. */
  function StoreAll<V>(m: map<address, V>, keys: seq<address>, values: seq<V>): map<address, V>
    requires |keys| == |values|
  {
    if keys == [] then m
    else
      var n := |keys| - 1;
      StoreAll(m, keys[..n], values[..n])[keys[n] := values[n]]
  }

  /** The lock of every proxy of a batch announced at `now`. */
  function LocksAt(proxies: seq<address>, now: nat): (s: seq<nat>)
    ensures |s| == |proxies| && forall i :: 0 <= i < |s| ==> s[i] == now + TIME_LOCK
  {
    seq(|proxies|, _ => now + TIME_LOCK)
  }

  function Without<V>(m: map<address, V>, keys: seq<address>): map<address, V> {
    map k | k in m && k !in keys :: m[k]
  }

  /** The upgrades that one batch makes. */
  function UpgradesOf(s: State, proxies: seq<address>, now: nat): seq<Upgrade> {
    seq(|proxies|, i requires 0 <= i < |proxies| => Upgrade(proxies[i], Lookup(s.proxyAnnounces, proxies[i]), now))
  }

  /** Whether a batch of announcements is accepted. */
  predicate CanAnnounce(s: State, proxies: seq<address>, implementations: seq<address>) {
    && |proxies| == |implementations|
    && NoDuplicates(proxies)
    && (forall i :: 0 <= i < |proxies| ==> proxies[i] !in s.proxyTimeLocks)
    && (forall i :: 0 <= i < |proxies| ==> implementations[i] != NULL)
  }

  /** Whether a batch of upgrades goes through. */
  predicate CanUpgrade(s: State, proxies: seq<address>, now: nat, accepts: (address, address) -> bool) {
    && NoDuplicates(proxies)
    && (forall i :: 0 <= i < |proxies| ==> proxies[i] in s.proxyTimeLocks && s.proxyTimeLocks[proxies[i]] < now)
    && (forall i :: 0 <= i < |proxies| ==> accepts(proxies[i], Lookup(s.proxyAnnounces, proxies[i])))
  }

  /** Whether a transaction succeeds; otherwise it reverts and changes nothing. */
  predicate Succeeds(s: State, tx: Tx) {
    tx.sender == s.governance &&
    match tx.call
    case AnnounceAddressChange(t, value) => value != NULL && t !in s.addressAnnounces
    case ChangeAddress(t) =>
      && t.GOVERNANCE? && t in s.addressAnnounces && t in s.addressTimeLocks
      && (s.governance != NULL ==> s.addressTimeLocks[t] < tx.now)
    case RemoveAddressAnnounce(t) => true
    case AnnounceProxyUpgrade(proxies, implementations) => CanAnnounce(s, proxies, implementations)
    case UpgradeProxy(proxies, accepts) => CanUpgrade(s, proxies, tx.now, accepts)
    case RemoveProxyAnnounce(p) => true
  }

  /** The state after a successful transaction. */
  function Effect(s: State, tx: Tx): State
    requires Succeeds(s, tx)
  {
    match tx.call
    case AnnounceAddressChange(t, value) =>
      s.(addressAnnounces := s.addressAnnounces[t := value],
         addressTimeLocks := s.addressTimeLocks[t := tx.now + TIME_LOCK])
    case ChangeAddress(t) =>
      s.(governance := s.addressAnnounces[t],
         addressAnnounces := s.addressAnnounces - {t}, addressTimeLocks := s.addressTimeLocks - {t})
    case RemoveAddressAnnounce(t) =>
      s.(addressAnnounces := s.addressAnnounces - {t}, addressTimeLocks := s.addressTimeLocks - {t})
    case AnnounceProxyUpgrade(proxies, implementations) =>
      s.(proxyTimeLocks := StoreAll(s.proxyTimeLocks, proxies, LocksAt(proxies, tx.now)),
         proxyAnnounces := StoreAll(s.proxyAnnounces, proxies, implementations))
    case UpgradeProxy(proxies, accepts) =>
      s.(proxyTimeLocks := Without(s.proxyTimeLocks, proxies),
         proxyAnnounces := Without(s.proxyAnnounces, proxies),
         upgrades := s.upgrades + UpgradesOf(s, proxies, tx.now))
    case RemoveProxyAnnounce(p) =>
      s.(proxyTimeLocks := s.proxyTimeLocks - {p}, proxyAnnounces := s.proxyAnnounces - {p})
  }

  function Step(s: State, tx: Tx): State {
    if Succeeds(s, tx) then Effect(s, tx) else s
  }

  /** The state that `init` leaves. */
  function Initial(governance: address): State {
    State(governance, map[], map[], map[], map[], [])
  }

  lemma {:induction false} StoreAllAt<V>(m: map<address, V>, keys: seq<address>, values: seq<V>)
    requires |keys| == |values|
    ensures forall k :: k in StoreAll(m, keys, values) <==> k in m || k in keys
    ensures forall k :: k in m && k !in keys ==> StoreAll(m, keys, values)[k] == m[k]
    ensures NoDuplicates(keys) ==> forall i :: 0 <= i < |keys| ==> StoreAll(m, keys, values)[keys[i]] == values[i]
  {
    if keys != [] {
      var n := |keys| - 1;
      StoreAllAt(m, keys[..n], values[..n]);
      assert keys == keys[..n] + [keys[n]];
      if NoDuplicates(keys) {
        forall i | 0 <= i < |keys| ensures StoreAll(m, keys, values)[keys[i]] == values[i] {
          if i < n {
            assert keys[..n][i] == keys[i] && keys[i] != keys[n];
          }
        }
      }
    }
  }

  lemma StoreAllStep<V>(m: map<address, V>, keys: seq<address>, values: seq<V>, i: nat)
    requires |keys| == |values| && i < |keys|
    ensures StoreAll(m, keys[..i + 1], values[..i + 1]) == StoreAll(m, keys[..i], values[..i])[keys[i] := values[i]]
  {
    assert keys[..i + 1][..i] == keys[..i] && values[..i + 1][..i] == values[..i];
  }

  lemma StoreAllKeys<V>(m: map<address, V>, keys: seq<address>, values: seq<V>, k: address)
    requires |keys| == |values|
    ensures k in StoreAll(m, keys, values) <==> k in m || k in keys
  {
    StoreAllAt(m, keys, values);
  }

  lemma WithoutStep<V>(m: map<address, V>, keys: seq<address>, i: nat)
    requires i < |keys|
    ensures Without(m, keys[..i + 1]) == Without(m, keys[..i]) - {keys[i]}
  {
    assert keys[..i + 1] == keys[..i] + [keys[i]];
  }

  lemma UpgradeStep(s: State, sender: address, now: nat, proxies: seq<address>, accepts: (address, address) -> bool)
    ensures var tx := Tx(sender, now, UpgradeProxy(proxies, accepts));
            && (Succeeds(s, tx) <==> sender == s.governance && CanUpgrade(s, proxies, now, accepts))
            && Step(s, tx) == if !Succeeds(s, tx) then s else
                                s.(proxyTimeLocks := Without(s.proxyTimeLocks, proxies),
                                   proxyAnnounces := Without(s.proxyAnnounces, proxies),
                                   upgrades := s.upgrades + UpgradesOf(s, proxies, now))
  {
  }

  lemma WithoutAt<V>(m: map<address, V>, keys: seq<address>, k: address)
    ensures k in Without(m, keys) <==> k in m && k !in keys
    ensures k in Without(m, keys) ==> Without(m, keys)[k] == m[k]
  {
  }

  lemma UpgradesOfStep(s: State, proxies: seq<address>, now: nat, i: nat)
    requires i < |proxies|
    ensures UpgradesOf(s, proxies[..i + 1], now)
            == UpgradesOf(s, proxies[..i], now) + [Upgrade(proxies[i], Lookup(s.proxyAnnounces, proxies[i]), now)]
  {
  }

  lemma AnnounceNothing(s: State)
    ensures CanAnnounce(s, [], []) && StoreAll(s.proxyTimeLocks, [], []) == s.proxyTimeLocks
    ensures StoreAll(s.proxyAnnounces, [], []) == s.proxyAnnounces
  {
  }

  lemma UpgradeNothing(s: State, now: nat, accepts: (address, address) -> bool)
    ensures CanUpgrade(s, [], now, accepts) && UpgradesOf(s, [], now) == []
    ensures Without(s.proxyTimeLocks, []) == s.proxyTimeLocks && Without(s.proxyAnnounces, []) == s.proxyAnnounces
  {
  }

  /** A batch of announcements is accepted exactly when every entry is, given those before it. */
  lemma CanAnnounceStep(s: State, proxies: seq<address>, implementations: seq<address>, i: nat)
    requires |proxies| == |implementations| && i < |proxies| && CanAnnounce(s, proxies[..i], implementations[..i])
    ensures CanAnnounce(s, proxies[..i + 1], implementations[..i + 1])
       <==> proxies[i] !in s.proxyTimeLocks && proxies[i] !in proxies[..i] && implementations[i] != NULL
    ensures CanAnnounce(s, proxies, implementations) ==> CanAnnounce(s, proxies[..i + 1], implementations[..i + 1])
  {
    assert proxies[..i + 1] == proxies[..i] + [proxies[i]];
    assert implementations[..i + 1] == implementations[..i] + [implementations[i]];
    if p :| 0 <= p < i && proxies[..i][p] == proxies[i] {
      assert proxies[..i + 1][p] == proxies[..i + 1][i];
    }
    assert proxies[..i + 1][i] == proxies[i] && implementations[..i + 1][i] == implementations[i];
  }

  /** A batch of upgrades goes through exactly when every entry does, given those before it. */
  lemma CanUpgradeStep(s: State, proxies: seq<address>, now: nat, accepts: (address, address) -> bool, i: nat)
    requires i < |proxies| && CanUpgrade(s, proxies[..i], now, accepts)
    ensures CanUpgrade(s, proxies[..i + 1], now, accepts)
       <==> (&& proxies[i] in s.proxyTimeLocks && s.proxyTimeLocks[proxies[i]] < now && proxies[i] !in proxies[..i]
             && accepts(proxies[i], Lookup(s.proxyAnnounces, proxies[i])))
    ensures CanUpgrade(s, proxies, now, accepts) ==> CanUpgrade(s, proxies[..i + 1], now, accepts)
  {
    assert proxies[..i + 1] == proxies[..i] + [proxies[i]];
    if p :| 0 <= p < i && proxies[..i][p] == proxies[i] {
      assert proxies[..i + 1][p] == proxies[..i + 1][i];
    }
    assert proxies[..i + 1][i] == proxies[i];
  }

  /** What holds in every state after `init`. */
  ghost predicate Inv(s: State) {
    && s.governance != NULL
    && s.addressTimeLocks.Keys == s.addressAnnounces.Keys
    && (forall t :: t in s.addressAnnounces ==> s.addressAnnounces[t] != NULL)
    && (forall p :: p in s.proxyTimeLocks <==> Lookup(s.proxyAnnounces, p) != NULL)
  }

  lemma StepKeepsInv(s: State, tx: Tx)
    requires Inv(s)
    ensures Inv(Step(s, tx))
  {
    if Succeeds(s, tx) {
      match tx.call
      case AnnounceProxyUpgrade(proxies, implementations) =>
        StoreAllAt(s.proxyTimeLocks, proxies, LocksAt(proxies, tx.now));
        StoreAllAt(s.proxyAnnounces, proxies, implementations);
        var s' := Step(s, tx);
        forall p ensures p in s'.proxyTimeLocks <==> Lookup(s'.proxyAnnounces, p) != NULL {
          if p in proxies {
            var i :| 0 <= i < |proxies| && proxies[i] == p;
            assert s'.proxyAnnounces[proxies[i]] == implementations[i];
          } else {
            assert Lookup(s'.proxyAnnounces, p) == Lookup(s.proxyAnnounces, p);
          }
        }
      case _ =>
    }
  }

  /** The state before transaction `n` of a run that starts right after `init`. */
  function At(governance: address, run: seq<Tx>, n: nat): State
    requires n <= |run|
  {
    if n == 0 then Initial(governance) else Step(At(governance, run, n - 1), run[n - 1])
  }

  /** Block time does not decrease along the run. */
  predicate Timed(run: seq<Tx>) {
    forall i, j :: 0 <= i < j < |run| ==> run[i].now <= run[j].now
  }

  lemma {:induction false} ReachableInv(governance: address, run: seq<Tx>, n: nat)
    requires governance != NULL && n <= |run|
    ensures Inv(At(governance, run, n))
  {
    if n > 0 {
      ReachableInv(governance, run, n - 1);
      StepKeepsInv(At(governance, run, n - 1), run[n - 1]);
    }
  }

  /** In every reachable state the lock of a change is enforced: the branch that skips it is dead. */
  lemma LockNeverSkipped(governance: address, run: seq<Tx>, n: nat, tx: Tx)
    requires governance != NULL && n <= |run|
    ensures var s := At(governance, run, n);
            tx.call.ChangeAddress? ==>
              (Succeeds(s, tx) <==>
                && tx.sender == s.governance
                && tx.call.addressType.GOVERNANCE?
                && GOVERNANCE in s.addressTimeLocks
                && s.addressTimeLocks[GOVERNANCE] < tx.now)
  {
    ReachableInv(governance, run, n);
  }

  /** An address change announced at `j` is still pending in the states `j + 1` to `n`. */
  ghost predicate AddressPendingSince(governance: address, run: seq<Tx>, j: nat, n: nat, t: AddressType, value: address) {
    && j < n <= |run|
    && run[j].call == AnnounceAddressChange(t, value) && Succeeds(At(governance, run, j), run[j])
    && forall k: nat :: j < k <= n ==>
         var s := At(governance, run, k);
         && t in s.addressAnnounces && s.addressAnnounces[t] == value
         && t in s.addressTimeLocks && s.addressTimeLocks[t] == run[j].now + TIME_LOCK
  }

  /** A pending change was announced by the last transaction or was already pending, with the same lock. */
  lemma AddressStep(s: State, tx: Tx, t: AddressType)
    requires Inv(s) && t in Step(s, tx).addressAnnounces
    ensures var s' := Step(s, tx);
            if Succeeds(s, tx) && tx.call.AnnounceAddressChange? && tx.call.addressType == t then
              && tx.call.value == s'.addressAnnounces[t]
              && t in s'.addressTimeLocks && s'.addressTimeLocks[t] == tx.now + TIME_LOCK
            else
              && t in s.addressAnnounces && s'.addressAnnounces[t] == s.addressAnnounces[t]
              && t in s.addressTimeLocks && t in s'.addressTimeLocks && s'.addressTimeLocks[t] == s.addressTimeLocks[t]
  {
  }

  lemma {:induction false} AddressOrigin(governance: address, run: seq<Tx>, n: nat, t: AddressType) returns (j: nat)
    requires governance != NULL && n <= |run| && t in At(governance, run, n).addressAnnounces
    ensures AddressPendingSince(governance, run, j, n, t, At(governance, run, n).addressAnnounces[t])
  {
    hide Succeeds, Step;
    ReachableInv(governance, run, n - 1);
    var s, tx := At(governance, run, n - 1), run[n - 1];
    AddressStep(s, tx, t);
    if Succeeds(s, tx) && tx.call.AnnounceAddressChange? && tx.call.addressType == t {
      j := n - 1;
    } else {
      j := AddressOrigin(governance, run, n - 1, t);
    }
  }

  /**
   * A governance change in transaction `i` goes back to an announcement of that very value, made
   * more than 48 hours before and pending ever since.
   */
  lemma GovernanceDelay(governance: address, run: seq<Tx>, i: nat) returns (j: nat)
    requires governance != NULL && i < |run|
    requires Succeeds(At(governance, run, i), run[i]) && run[i].call.ChangeAddress?
    ensures AddressPendingSince(governance, run, j, i, GOVERNANCE, At(governance, run, i + 1).governance)
    ensures run[j].now + TIME_LOCK < run[i].now
  {
    ReachableInv(governance, run, i);
    j := AddressOrigin(governance, run, i, GOVERNANCE);
  }

  /** Nothing but a successful `changeAddress` moves governance. */
  lemma OnlyChangeMovesGovernance(governance: address, run: seq<Tx>, i: nat)
    requires i < |run| && At(governance, run, i + 1).governance != At(governance, run, i).governance
    ensures Succeeds(At(governance, run, i), run[i]) && run[i].call == ChangeAddress(GOVERNANCE)
  {
  }

  /** Two governance changes are more than 48 hours apart. */
  lemma GovernanceChangesApart(governance: address, run: seq<Tx>, i: nat, i': nat)
    requires governance != NULL && Timed(run) && i < i' < |run|
    requires Succeeds(At(governance, run, i), run[i]) && run[i].call.ChangeAddress?
    requires Succeeds(At(governance, run, i'), run[i']) && run[i'].call.ChangeAddress?
    ensures run[i].now + TIME_LOCK < run[i'].now
  {
    var j := GovernanceDelay(governance, run, i');
    ChangeClears(At(governance, run, i), run[i]);
    hide Step, Succeeds;
    assert GOVERNANCE !in At(governance, run, i + 1).addressAnnounces;
    assert j >= i;
  }

  lemma ChangeClears(s: State, tx: Tx)
    requires Succeeds(s, tx) && tx.call.ChangeAddress?
    ensures GOVERNANCE !in Step(s, tx).addressAnnounces
  {
  }

  /** An upgrade of a proxy announced at `j` is still pending in the states `j + 1` to `n`. */
  ghost predicate ProxyPendingSince(governance: address, run: seq<Tx>, j: nat, n: nat, proxy: address,
                                    implementation: address) {
    && j < n <= |run|
    && run[j].call.AnnounceProxyUpgrade? && Succeeds(At(governance, run, j), run[j])
    && (exists i :: 0 <= i < |run[j].call.proxies|
          && run[j].call.proxies[i] == proxy && run[j].call.implementations[i] == implementation)
    && forall k: nat :: j < k <= n ==>
         var s := At(governance, run, k);
         && proxy in s.proxyTimeLocks && s.proxyTimeLocks[proxy] == run[j].now + TIME_LOCK
         && Lookup(s.proxyAnnounces, proxy) == implementation
  }

  /** A step that leaves a proxy pending either announced it or kept its lock and implementation. */
  lemma ProxyStep(s: State, tx: Tx, proxy: address)
    requires Inv(s) && proxy in Step(s, tx).proxyTimeLocks
    ensures var s' := Step(s, tx);
            if Succeeds(s, tx) && tx.call.AnnounceProxyUpgrade? && proxy in tx.call.proxies then
              && s'.proxyTimeLocks[proxy] == tx.now + TIME_LOCK
              && exists i :: 0 <= i < |tx.call.proxies| && tx.call.proxies[i] == proxy
                   && tx.call.implementations[i] == Lookup(s'.proxyAnnounces, proxy)
            else
              && proxy in s.proxyTimeLocks && s'.proxyTimeLocks[proxy] == s.proxyTimeLocks[proxy]
              && Lookup(s'.proxyAnnounces, proxy) == Lookup(s.proxyAnnounces, proxy)
  {
    if Succeeds(s, tx) && tx.call.AnnounceProxyUpgrade? {
      var proxies, implementations := tx.call.proxies, tx.call.implementations;
      StoreAllAt(s.proxyTimeLocks, proxies, LocksAt(proxies, tx.now));
      StoreAllAt(s.proxyAnnounces, proxies, implementations);
      if proxy in proxies {
        var i :| 0 <= i < |proxies| && proxies[i] == proxy;
        assert StoreAll(s.proxyAnnounces, proxies, implementations)[proxies[i]] == implementations[i];
        assert StoreAll(s.proxyTimeLocks, proxies, LocksAt(proxies, tx.now))[proxies[i]] == tx.now + TIME_LOCK;
      }
    }
  }

  lemma {:induction false} ProxyOrigin(governance: address, run: seq<Tx>, n: nat, proxy: address) returns (j: nat)
    requires governance != NULL && n <= |run| && proxy in At(governance, run, n).proxyTimeLocks
    ensures ProxyPendingSince(governance, run, j, n, proxy, Lookup(At(governance, run, n).proxyAnnounces, proxy))
  {
    ReachableInv(governance, run, n - 1);
    var s, tx := At(governance, run, n - 1), run[n - 1];
    ProxyStep(s, tx, proxy);
    if Succeeds(s, tx) && tx.call.AnnounceProxyUpgrade? && proxy in tx.call.proxies {
      j := n - 1;
    } else {
      j := ProxyOrigin(governance, run, n - 1, proxy);
    }
  }

  /** Transaction `i` of the run makes upgrade `u`. */
  ghost predicate Makes(governance: address, run: seq<Tx>, i: nat, u: Upgrade)
    requires i < |run|
  {
    var s := At(governance, run, i);
    && run[i].call.UpgradeProxy? && Succeeds(s, run[i]) && u.proxy in run[i].call.proxies
    && u.implementation == Lookup(s.proxyAnnounces, u.proxy) && u.at == run[i].now
  }

  /** Only a batch of upgrades adds to the record: one entry for each proxy, to its announced implementation. */
  lemma StepUpgrades(s: State, tx: Tx)
    ensures s.upgrades <= Step(s, tx).upgrades
    ensures var us, n := Step(s, tx).upgrades, |s.upgrades|;
            if Succeeds(s, tx) && tx.call.UpgradeProxy? then
              && |us| == n + |tx.call.proxies|
              && forall k :: n <= k < |us| ==>
                   us[k] == Upgrade(tx.call.proxies[k - n], Lookup(s.proxyAnnounces, tx.call.proxies[k - n]), tx.now)
            else us == s.upgrades
  {
  }

  /** Every recorded upgrade was made by one of the transactions, in order. */
  lemma {:induction false} UpgradeMadeBy(governance: address, run: seq<Tx>, n: nat, k: nat) returns (i: nat)
    requires n <= |run| && k < |At(governance, run, n).upgrades|
    ensures i < n && Makes(governance, run, i, At(governance, run, n).upgrades[k])
    ensures |At(governance, run, i).upgrades| <= k
            < |At(governance, run, i).upgrades| + |run[i].call.proxies| == |At(governance, run, i + 1).upgrades|
  {
    hide Step, Succeeds;
    var s, tx := At(governance, run, n - 1), run[n - 1];
    StepUpgrades(s, tx);
    if k < |s.upgrades| {
      i := UpgradeMadeBy(governance, run, n - 1, k);
      assert Step(s, tx).upgrades[k] == s.upgrades[k];
    } else {
      i := n - 1;
      assert Step(s, tx).upgrades[k].proxy == tx.call.proxies[k - |s.upgrades|];
    }
  }

  /**
   * An upgrade of a proxy to an implementation goes back to an announcement of that very pair, made
   * more than 48 hours before and pending ever since.
   */
  lemma UpgradeDelay(governance: address, run: seq<Tx>, i: nat, u: Upgrade) returns (j: nat)
    requires governance != NULL && i < |run| && Makes(governance, run, i, u)
    ensures ProxyPendingSince(governance, run, j, i, u.proxy, u.implementation)
    ensures run[j].now + TIME_LOCK < u.at && u.implementation != NULL
  {
    var proxies := run[i].call.proxies;
    var q :| 0 <= q < |proxies| && proxies[q] == u.proxy;
    ReachableInv(governance, run, i);
    j := ProxyOrigin(governance, run, i, u.proxy);
  }

  /** The same, for every upgrade that the controller has recorded by the end of a run. */
  lemma RecordedUpgradeDelay(governance: address, run: seq<Tx>, k: nat) returns (i: nat, j: nat)
    requires governance != NULL && k < |At(governance, run, |run|).upgrades|
    ensures var u := At(governance, run, |run|).upgrades[k];
            && i < |run| && Makes(governance, run, i, u)
            && ProxyPendingSince(governance, run, j, i, u.proxy, u.implementation)
            && run[j].now + TIME_LOCK < u.at
  {
    i := UpgradeMadeBy(governance, run, |run|, k);
    j := UpgradeDelay(governance, run, i, At(governance, run, |run|).upgrades[k]);
  }

  /** Two upgrades of one proxy by different transactions are more than 48 hours apart. */
  lemma UpgradesApart(governance: address, run: seq<Tx>, i: nat, u: Upgrade, i': nat, u': Upgrade)
    requires governance != NULL && Timed(run) && i < i' < |run| && u.proxy == u'.proxy
    requires Makes(governance, run, i, u) && Makes(governance, run, i', u')
    ensures u.at + TIME_LOCK < u'.at
  {
    var j := UpgradeDelay(governance, run, i', u');
    assert u.proxy !in At(governance, run, i + 1).proxyTimeLocks;
  }

  /** No two recorded upgrades of one proxy are 48 hours apart or less, not even within one batch. */
  lemma RecordedUpgradesApart(governance: address, run: seq<Tx>, k: nat, k': nat)
    requires governance != NULL && Timed(run) && k < k' < |At(governance, run, |run|).upgrades|
    requires var us := At(governance, run, |run|).upgrades; us[k].proxy == us[k'].proxy
    ensures var us := At(governance, run, |run|).upgrades; us[k].at + TIME_LOCK < us[k'].at
  {
    hide Step, Succeeds, Timed;
    var us := At(governance, run, |run|).upgrades;
    var i := UpgradeMadeBy(governance, run, |run|, k);
    var i' := UpgradeMadeBy(governance, run, |run|, k');
    UpgradesGrow(governance, run, i + 1, |run|);
    UpgradesGrow(governance, run, i' + 1, |run|);
    if i < i' {
      UpgradesApart(governance, run, i, us[k], i', us[k']);
    } else if i' < i {
      UpgradesGrow(governance, run, i' + 1, i);
    } else {
      BatchProxiesDistinct(At(governance, run, i), run[i], k, k');
    }
  }

  lemma BatchProxiesDistinct(s: State, tx: Tx, k: nat, k': nat)
    requires Succeeds(s, tx) && tx.call.UpgradeProxy? && |s.upgrades| <= k < k' < |Step(s, tx).upgrades|
    ensures Step(s, tx).upgrades[k].proxy != Step(s, tx).upgrades[k'].proxy
  {
    var m := |s.upgrades|;
    assert tx.call.proxies[k - m] != tx.call.proxies[k' - m];
  }

  /** Recorded upgrades are never taken back. */
  lemma {:induction false} UpgradesGrow(governance: address, run: seq<Tx>, m: nat, n: nat)
    requires m <= n <= |run|
    ensures At(governance, run, m).upgrades <= At(governance, run, n).upgrades
  {
    hide Step, Succeeds;
    if m < n {
      UpgradesGrow(governance, run, m, n - 1);
      StepUpgrades(At(governance, run, n - 1), run[n - 1]);
    }
  }

  /** A batch of upgrades goes through or not, and leaves the same pending maps, whatever its order. */
  lemma UpgradeOrderIrrelevant(s: State, tx: Tx, proxies: seq<address>)
    requires tx.call.UpgradeProxy? && multiset(tx.call.proxies) == multiset(proxies)
    ensures var tx' := tx.(call := UpgradeProxy(proxies, tx.call.accepts));
            && (Succeeds(s, tx) <==> Succeeds(s, tx'))
            && Step(s, tx).proxyTimeLocks == Step(s, tx').proxyTimeLocks
            && Step(s, tx).proxyAnnounces == Step(s, tx').proxyAnnounces
  {
    CanUpgradeReordered(s, tx.call.proxies, proxies, tx.now, tx.call.accepts);
    CanUpgradeReordered(s, proxies, tx.call.proxies, tx.now, tx.call.accepts);
    forall p ensures p in proxies <==> p in tx.call.proxies {
      assert p in proxies <==> p in multiset(proxies);
      assert p in tx.call.proxies <==> p in multiset(tx.call.proxies);
    }
  }

  lemma CanUpgradeReordered(s: State, a: seq<address>, b: seq<address>, now: nat, accepts: (address, address) -> bool)
    requires multiset(a) == multiset(b)
    ensures CanUpgrade(s, a, now, accepts) ==> CanUpgrade(s, b, now, accepts)
  {
    DistinctCounts(a);
    DistinctCounts(b);
    forall i | 0 <= i < |b| ensures b[i] in a {
      assert b[i] in multiset(b);
    }
  }

  lemma {:induction false} DistinctCounts(a: seq<address>)
    ensures NoDuplicates(a) <==> forall p :: multiset(a)[p] <= 1
  {
    if a != [] {
      var n := |a| - 1;
      DistinctCounts(a[..n]);
      assert a == a[..n] + [a[n]];
      assert a[n] in a[..n] <==> multiset(a[..n])[a[n]] >= 1;
      if NoDuplicates(a) {
        assert a[n] !in a[..n];
      } else if forall p :: multiset(a)[p] <= 1 {
        assert multiset(a)[a[n]] == multiset(a[..n])[a[n]] + 1;
        assert forall p :: multiset(a[..n])[p] <= multiset(a)[p];
      }
    }
  }
}
