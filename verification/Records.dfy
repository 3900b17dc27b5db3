/** JavaScript strings and records as scripts/hardhat-verify/solc uses them. */
module Records {
  import opened Wrappers

  /** `s.slice(from, to)`: negative positions count from the end, and all positions are clamped. */
  function Slice(s: string, from: int, to: int): string {
    var a, b := Clamp(from, |s|), Clamp(to, |s|);
    if a < b then s[a..b] else ""
  }

  function Clamp(i: int, n: nat): (r: nat)
    ensures r <= n
  {
    if i < 0 then (if n + i < 0 then 0 else n + i) else if i > n then n else i
  }

  /** A record from names to values: its entries in insertion order. */
  type Record<V> = seq<(string, V)>

  /** No name occurs twice. */
  predicate Proper<V>(r: Record<V>) {
    forall i, j :: 0 <= i < j < |r| ==> r[i].0 != r[j].0
  }

  /** The position of a name, or -1. */
  function IndexOf<V>(r: Record<V>, name: string): (i: int)
    ensures -1 <= i < |r|
    ensures i >= 0 ==> r[i].0 == name && forall j :: 0 <= j < i ==> r[j].0 != name
    ensures i < 0 ==> forall j :: 0 <= j < |r| ==> r[j].0 != name
  {
    IndexFrom(r, name, 0)
  }

  function IndexFrom<V>(r: Record<V>, name: string, from: nat): (i: int)
    requires from <= |r| && forall j :: 0 <= j < from ==> r[j].0 != name
    ensures -1 <= i < |r|
    ensures i >= 0 ==> r[i].0 == name && forall j :: 0 <= j < i ==> r[j].0 != name
    ensures i < 0 ==> forall j :: 0 <= j < |r| ==> r[j].0 != name
    decreases |r| - from
  {
    if from == |r| then -1 else if r[from].0 == name then from else IndexFrom(r, name, from + 1)
  }

  /** `name in r`. */
  predicate Has<V>(r: Record<V>, name: string) {
    IndexOf(r, name) >= 0
  }

  /** `r[name]`. */
  function Get<V>(r: Record<V>, name: string): V
    requires Has(r, name)
  {
    r[IndexOf(r, name)].1
  }

  /** `r[name] = v`. */
  function Put<V>(r: Record<V>, name: string, v: V): Record<V> {
    if Has(r, name) then r[IndexOf(r, name) := (name, v)] else r + [(name, v)]
  }

  lemma PutGet<V>(r: Record<V>, name: string, v: V, other: string)
    ensures Has(Put(r, name, v), other) <==> Has(r, other) || other == name
    ensures other == name ==> Get(Put(r, name, v), other) == v
    ensures other != name && Has(r, other) ==> Get(Put(r, name, v), other) == Get(r, other)
  {
    var i, p := IndexOf(r, other), Put(r, name, v);
    if i >= 0 && other != name {
      assert p[i] == r[i];
    }
    var at := if Has(r, name) then IndexOf(r, name) else |r|;
    assert p[at] == (name, v);
  }

  lemma PutProper<V>(r: Record<V>, name: string, v: V)
    requires Proper(r)
    ensures Proper(Put(r, name, v))
  {
  }

  lemma EntryGet<V>(r: Record<V>, i: nat)
    requires Proper(r) && i < |r|
    ensures Has(r, r[i].0) && Get(r, r[i].0) == r[i].1 && IndexOf(r, r[i].0) == i
  {
  }
}
