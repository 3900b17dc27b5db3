/** contracts/Controller.sol: time-locked governance and proxy upgrades. */
module Controller {
  import opened Accounts
  import opened Sequences
  import opened TimeLock
  import opened Wrappers

  /** Entries of the two list views. */
  datatype AddressAnnounce = AddressAnnounce(addressType: AddressType, newAddress: address, timeLockAt: nat)
  datatype ProxyAnnounce = ProxyAnnounce(proxy: address, implementation: address, timeLockAt: nat)

  /** An order in which an enumerable map lists its keys; the contract promises none. */
  ghost predicate Enumerates<K(!new)>(order: seq<K>, keys: set<K>) {
    NoDuplicates(order) && forall k :: k in order <==> k in keys
  }

  /** Each method returns false for a revert, which leaves the state as it was. */
  class Controller {
    var initialized: bool
    var governance: address
    var addressTimeLocks: map<AddressType, nat>
    var addressAnnounces: map<AddressType, address>
    var proxyTimeLocks: map<address, nat>
    var proxyAnnounces: map<address, address>
    /** The upgrades that proxies have been told to make. */
    var upgrades: seq<Upgrade>

    function Snapshot(): State
      reads this
    {
      State(governance, addressTimeLocks, addressAnnounces, proxyTimeLocks, proxyAnnounces, upgrades)
    }

    constructor ()
      ensures !initialized && Snapshot() == Initial(NULL)
    {
      initialized, governance := false, NULL;
      addressTimeLocks, addressAnnounces, proxyTimeLocks, proxyAnnounces, upgrades := map[], map[], map[], map[], [];
    }

    method Init(governance_: address) returns (ok: bool)
      modifies this
      ensures ok <==> !old(initialized) && governance_ != NULL
      ensures initialized == (old(initialized) || ok)
      ensures Snapshot() == if ok then old(Snapshot()).(governance := governance_) else old(Snapshot())
    {
      if initialized || governance_ == NULL {
        return false;
      }
      initialized := true;
      governance := governance_;
      return true;
    }

    /** Undoes what a reverting call wrote. */
    method RestoreTo(s: State)
      modifies this
      ensures Snapshot() == s && initialized == old(initialized)
    {
      governance, addressTimeLocks, addressAnnounces := s.governance, s.addressTimeLocks, s.addressAnnounces;
      proxyTimeLocks, proxyAnnounces, upgrades := s.proxyTimeLocks, s.proxyAnnounces, s.upgrades;
    }

    method AnnounceAddressChange(sender: address, now: nat, t: AddressType, value: address) returns (ok: bool)
      modifies this
      ensures ok <==> Succeeds(old(Snapshot()), Tx(sender, now, TimeLock.AnnounceAddressChange(t, value)))
      ensures Snapshot() == Step(old(Snapshot()), Tx(sender, now, TimeLock.AnnounceAddressChange(t, value)))
      ensures initialized == old(initialized)
    {
      var before := Snapshot();
      if sender != governance || value == NULL {
        return false;
      }
      var added := t !in addressAnnounces;
      addressAnnounces := addressAnnounces[t := value];
      if !added {
        RestoreTo(before);
        return false;
      }
      addressTimeLocks := addressTimeLocks[t := now + TIME_LOCK];
      return true;
    }

    method ChangeAddress(sender: address, now: nat, t: AddressType) returns (ok: bool)
      modifies this
      ensures ok <==> Succeeds(old(Snapshot()), Tx(sender, now, TimeLock.ChangeAddress(t)))
      ensures Snapshot() == Step(old(Snapshot()), Tx(sender, now, TimeLock.ChangeAddress(t)))
      ensures initialized == old(initialized)
    {
      var before := Snapshot();
      if sender != governance || t !in addressAnnounces || t !in addressTimeLocks {
        return false;
      }
      var newAddress, timeLock := addressAnnounces[t], addressTimeLocks[t];
      var oldAddress := NULL;
      if t == GOVERNANCE {
        oldAddress := governance;
        governance := newAddress;
      } else {
        return false;
      }
      if oldAddress != NULL && !(timeLock < now) {
        RestoreTo(before);
        return false;
      }
      addressAnnounces := addressAnnounces - {t};
      addressTimeLocks := addressTimeLocks - {t};
      return true;
    }

    method RemoveAddressAnnounce(sender: address, ghost now: nat, t: AddressType) returns (ok: bool)
      modifies this
      ensures ok <==> Succeeds(old(Snapshot()), Tx(sender, now, TimeLock.RemoveAddressAnnounce(t)))
      ensures Snapshot() == Step(old(Snapshot()), Tx(sender, now, TimeLock.RemoveAddressAnnounce(t)))
      ensures initialized == old(initialized)
    {
      if sender != governance {
        return false;
      }
      addressAnnounces := addressAnnounces - {t};
      addressTimeLocks := addressTimeLocks - {t};
      return true;
    }

    method AnnounceProxyUpgrade(sender: address, now: nat, proxies: seq<address>, implementations: seq<address>)
      returns (ok: bool)
      modifies this
      ensures ok <==> Succeeds(old(Snapshot()), Tx(sender, now, TimeLock.AnnounceProxyUpgrade(proxies, implementations)))
      ensures Snapshot() == Step(old(Snapshot()), Tx(sender, now, TimeLock.AnnounceProxyUpgrade(proxies, implementations)))
      ensures initialized == old(initialized)
    {
      var before := Snapshot();
      if sender != governance || |proxies| != |implementations| {
        return false;
      }
      hide CanAnnounce, StoreAll;
      ghost var locks := LocksAt(proxies, now);
      assert CanAnnounce(before, proxies[..0], implementations[..0]) by {
        AnnounceNothing(before);
      }
      assert Snapshot() == before.(proxyTimeLocks := StoreAll(before.proxyTimeLocks, proxies[..0], locks[..0]),
                                   proxyAnnounces := StoreAll(before.proxyAnnounces, proxies[..0], implementations[..0])) by {
        AnnounceNothing(before);
        assert proxies[..0] == [] && implementations[..0] == [] && locks[..0] == [];
      }
      for i := 0 to |proxies|
        invariant CanAnnounce(before, proxies[..i], implementations[..i])
        invariant Snapshot() == before.(proxyTimeLocks := StoreAll(before.proxyTimeLocks, proxies[..i], locks[..i]),
                                        proxyAnnounces := StoreAll(before.proxyAnnounces, proxies[..i], implementations[..i]))
        invariant initialized == old(initialized)
      {
        var proxy, implementation := proxies[i], implementations[i];
        CanAnnounceStep(before, proxies, implementations, i);
        StoreAllKeys(before.proxyTimeLocks, proxies[..i], locks[..i], proxies[i]);
        StoreAllStep(before.proxyTimeLocks, proxies, locks, i);
        StoreAllStep(before.proxyAnnounces, proxies, implementations, i);
        if implementation == NULL {
          RestoreTo(before);
          return false;
        }
        var added := proxy !in proxyTimeLocks;
        proxyTimeLocks := proxyTimeLocks[proxy := now + TIME_LOCK];
        if !added {
          RestoreTo(before);
          return false;
        }
        proxyAnnounces := proxyAnnounces[proxy := implementation];
      }
      assert proxies[..|proxies|] == proxies && implementations[..|proxies|] == implementations && locks[..|proxies|] == locks;
      return true;
    }

    method UpgradeProxy(sender: address, now: nat, proxies: seq<address>, accepts: (address, address) -> bool)
      returns (ok: bool)
      modifies this
      ensures ok <==> Succeeds(old(Snapshot()), Tx(sender, now, TimeLock.UpgradeProxy(proxies, accepts)))
      ensures Snapshot() == Step(old(Snapshot()), Tx(sender, now, TimeLock.UpgradeProxy(proxies, accepts)))
      ensures initialized == old(initialized)
    {
      hide CanUpgrade, UpgradesOf, Without, Succeeds, Step;
      var before := Snapshot();
      UpgradeStep(before, sender, now, proxies, accepts);
      if sender != governance {
        return false;
      }
      UpgradeNothing(before, now, accepts);
      assert proxies[..0] == [];
      for i := 0 to |proxies|
        invariant CanUpgrade(before, proxies[..i], now, accepts)
        invariant Snapshot() == before.(proxyTimeLocks := Without(before.proxyTimeLocks, proxies[..i]),
                                        proxyAnnounces := Without(before.proxyAnnounces, proxies[..i]),
                                        upgrades := before.upgrades + UpgradesOf(before, proxies[..i], now))
        invariant initialized == old(initialized)
      {
        CanUpgradeStep(before, proxies, now, accepts, i);
        WithoutStep(before.proxyTimeLocks, proxies, i);
        WithoutStep(before.proxyAnnounces, proxies, i);
        UpgradesOfStep(before, proxies, now, i);
        var proxy := proxies[i];
        WithoutAt(before.proxyTimeLocks, proxies[..i], proxy);
        WithoutAt(before.proxyAnnounces, proxies[..i], proxy);
        if proxy !in proxyTimeLocks {
          RestoreTo(before);
          return false;
        }
        var timeLock, implementation := proxyTimeLocks[proxy], Lookup(proxyAnnounces, proxy);
        if !(timeLock < now) {
          RestoreTo(before);
          return false;
        }
        if !accepts(proxy, implementation) {
          RestoreTo(before);
          return false;
        }
        upgrades := upgrades + [Upgrade(proxy, implementation, now)];
        proxyTimeLocks := proxyTimeLocks - {proxy};
        proxyAnnounces := proxyAnnounces - {proxy};
      }
      assert proxies[..|proxies|] == proxies;
      return true;
    }

    method RemoveProxyAnnounce(sender: address, ghost now: nat, proxy: address) returns (ok: bool)
      modifies this
      ensures ok <==> Succeeds(old(Snapshot()), Tx(sender, now, TimeLock.RemoveProxyAnnounce(proxy)))
      ensures Snapshot() == Step(old(Snapshot()), Tx(sender, now, TimeLock.RemoveProxyAnnounce(proxy)))
      ensures initialized == old(initialized)
    {
      if sender != governance {
        return false;
      }
      proxyTimeLocks := proxyTimeLocks - {proxy};
      proxyAnnounces := proxyAnnounces - {proxy};
      return true;
    }

    /** What is pending for an address type. */
    function PendingChange(t: AddressType): AddressAnnounce
      reads this
    {
      AddressAnnounce(t, if t in addressAnnounces then addressAnnounces[t] else NULL,
                      if t in addressTimeLocks then addressTimeLocks[t] else 0)
    }

    /** What is pending for a proxy. */
    function PendingUpgrade(p: address): ProxyAnnounce
      reads this
    {
      ProxyAnnounce(p, Lookup(proxyAnnounces, p), if p in proxyTimeLocks then proxyTimeLocks[p] else 0)
    }

    /** Reverts, returning None, when a lock has no announcement; in a state with the invariant it never does. */
    method AddressAnnouncesList(order: seq<AddressType>) returns (announces: Option<seq<AddressAnnounce>>)
      requires Enumerates(order, addressTimeLocks.Keys)
      ensures announces.Some? <==> addressTimeLocks.Keys <= addressAnnounces.Keys
      ensures announces.Some? ==> |announces.value| == |order|
      ensures announces.Some? ==> forall i :: 0 <= i < |order| ==>
                                    announces.value[i] == PendingChange(order[i])
      ensures Inv(Snapshot()) ==>
                && announces.Some?
                && (forall t :: t in addressAnnounces ==> PendingChange(t) in announces.value)
                && (forall i, j :: 0 <= i < j < |announces.value| ==> announces.value[i] != announces.value[j])
    {
      var list := [];
      for i := 0 to |order|
        invariant |list| == i
        invariant forall k :: 0 <= k < i ==> order[k] in addressAnnounces && list[k] == PendingChange(order[k])
      {
        if order[i] !in addressAnnounces {
          return None;
        }
        list := list + [AddressAnnounce(order[i], addressAnnounces[order[i]], addressTimeLocks[order[i]])];
      }
      forall t | t in addressTimeLocks ensures PendingChange(t) in list {
        var i :| 0 <= i < |order| && order[i] == t;
        assert list[i] == PendingChange(t);
      }
      return Some(list);
    }

    /** Lists every pending upgrade exactly once. */
    method ProxyAnnouncesList(order: seq<address>) returns (announces: seq<ProxyAnnounce>)
      requires Enumerates(order, proxyTimeLocks.Keys)
      ensures |announces| == |order|
      ensures forall i :: 0 <= i < |order| ==> announces[i] == PendingUpgrade(order[i])
      ensures Inv(Snapshot()) ==>
                && (forall p :: Lookup(proxyAnnounces, p) != NULL ==> PendingUpgrade(p) in announces)
                && (forall i :: 0 <= i < |announces| ==> announces[i].implementation != NULL)
                && (forall i, j :: 0 <= i < j < |announces| ==> announces[i].proxy != announces[j].proxy)
    {
      announces := [];
      for i := 0 to |order|
        invariant |announces| == i
        invariant forall k :: 0 <= k < i ==> announces[k] == PendingUpgrade(order[k])
      {
        announces := announces + [ProxyAnnounce(order[i], Lookup(proxyAnnounces, order[i]), proxyTimeLocks[order[i]])];
      }
      forall p | p in proxyTimeLocks ensures PendingUpgrade(p) in announces {
        var i :| 0 <= i < |order| && order[i] == p;
        assert announces[i] == PendingUpgrade(p);
      }
    }
  }
}
