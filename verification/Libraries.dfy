/** Names and nested records of libraries, as scripts/hardhat-verify/solc/artifacts.ts builds them. */
module Libraries {
  import opened Wrappers
  import opened Records
  import opened Sequences

  /** Source names to library names to a value each. */
  type Libraries<V> = Record<Record<V>>

  predicate ProperLibraries<V>(libs: Libraries<V>) {
    Proper(libs) && forall i :: 0 <= i < |libs| ==> Proper(libs[i].1)
  }

  predicate Known<V>(libs: Libraries<V>, source: string, name: string) {
    Has(libs, source) && Has(Get(libs, source), name)
  }

  function ValueOf<V>(libs: Libraries<V>, source: string, name: string): V
    requires Known(libs, source, name)
  {
    Get(Get(libs, source), name)
  }

  /** `libs[source] ??= {}; libs[source][name] = v`. */
  function Store<V>(libs: Libraries<V>, source: string, name: string, v: V): Libraries<V> {
    Put(libs, source, Put(if Has(libs, source) then Get(libs, source) else [], name, v))
  }

  lemma StoreKnown<V>(libs: Libraries<V>, source: string, name: string, v: V, source': string, name': string)
    ensures var r := Store(libs, source, name, v);
            && (Known(r, source', name') <==> Known(libs, source', name') || (source' == source && name' == name))
            && (source' == source && name' == name ==> ValueOf(r, source', name') == v)
            && (!(source' == source && name' == name) && Known(libs, source', name') ==>
                  ValueOf(r, source', name') == ValueOf(libs, source', name'))
  {
    var inner: Record<V> := if Has(libs, source) then Get(libs, source) else [];
    PutGet(libs, source, Put(inner, name, v), source');
    PutGet(inner, name, v, name');
  }

  lemma StoreProper<V>(libs: Libraries<V>, source: string, name: string, v: V)
    requires ProperLibraries(libs)
    ensures ProperLibraries(Store(libs, source, name, v))
  {
    var inner: Record<V> := if Has(libs, source) then Get(libs, source) else [];
    assert Proper(inner);
    PutProper(inner, name, v);
    PutProper(libs, source, Put(inner, name, v));
  }

  /** What one more entry adds to a prefix of a record. */
  lemma HasPrefix<V>(r: Record<V>, i: nat, name: string)
    requires Proper(r) && i < |r|
    ensures Has(r[..i + 1], name) <==> Has(r[..i], name) || name == r[i].0
    ensures !(Has(r[..i], name) && name == r[i].0)
    ensures Has(r[..i], name) ==> Has(r, name) && Get(r[..i], name) == Get(r, name)
  {
    var p, q := r[..i], r[..i + 1];
    if Has(p, name) {
      var k := IndexOf(p, name);
      assert q[k].0 == name && r[k].0 == name;
      EntryGet(r, k);
    }
    assert q[i] == r[i];
    if Has(q, name) {
      var k := IndexOf(q, name);
      if k < i {
        assert p[k].0 == name;
      }
    }
  }

  // --- Fully qualified names ---

  function FullName(source: string, name: string): string {
    source + ":" + name
  }

  predicate ColonFree(s: string) {
    ':' !in s
  }

  /** The position of the last colon, or -1. */
  function LastColon(s: string): (i: int)
    ensures -1 <= i < |s| && (i >= 0 ==> s[i] == ':') && forall k :: i < k < |s| ==> s[k] != ':'
  {
    if s == "" then -1
    else
      var n := |s| - 1;
      if s[n] == ':' then n
      else
        var i := LastColon(s[..n]);
        assert forall k :: i < k < n ==> s[..n][k] == s[k];
        i
  }

  lemma LastColonOfFullName(source: string, name: string)
    requires ColonFree(name)
    ensures LastColon(FullName(source, name)) == |source|
  {
    var f := FullName(source, name);
    assert f[|source|] == ':';
    assert forall k :: |source| < k < |f| ==> f[k] == name[k - |source| - 1];
  }

  /** `parseFullyQualifiedName`: the parts around the last colon. */
  function ParseFullName(full: string): (p: (string, string)) {
    var i := LastColon(full);
    (if i < 0 then "" else full[..i], full[i + 1..])
  }

  lemma ParseFullNameInverts(source: string, name: string)
    requires ColonFree(name)
    ensures ParseFullName(FullName(source, name)) == (source, name)
  {
    LastColonOfFullName(source, name);
    var f := FullName(source, name);
    assert f[..|source|] == source && f[|source| + 1..] == name;
  }

  /** Library names hold no colon, so a fully qualified name determines both of its parts. */
  lemma FullNameInjective(source: string, name: string, source': string, name': string)
    requires ColonFree(name) && ColonFree(name') && FullName(source, name) == FullName(source', name')
    ensures source == source' && name == name'
  {
    ParseFullNameInverts(source, name);
    ParseFullNameInverts(source', name');
  }

  function ToSet(names: seq<string>): set<string> {
    set n | n in names
  }

  lemma {:induction false} SetSize(names: seq<string>)
    requires NoDuplicates(names)
    ensures |ToSet(names)| == |names|
  {
    if names != [] {
      var n := |names| - 1;
      SetSize(names[..n]);
      assert ToSet(names) == ToSet(names[..n]) + {names[n]};
      assert names[n] !in names[..n];
    }
  }

  /** A length comparison of duplicate-free lists compares what each has beyond the other. */
  lemma LengthsCompare(a: seq<string>, b: seq<string>)
    requires NoDuplicates(a) && NoDuplicates(b)
    ensures |a| < |b| <==> |ToSet(a) - ToSet(b)| < |ToSet(b) - ToSet(a)|
  {
    SetSize(a);
    SetSize(b);
    var x, y := ToSet(a), ToSet(b);
    assert x == (x - y) + (x * y);
    assert y == (y - x) + (x * y);
  }

  /** For a duplicate-free part of a duplicate-free list, a length check is a coverage check. */
  lemma LengthIsCoverage(a: seq<string>, b: seq<string>)
    requires NoDuplicates(a) && NoDuplicates(b) && ToSet(a) <= ToSet(b)
    ensures |a| < |b| <==> exists n :: n in b && n !in a
  {
    LengthsCompare(a, b);
    assert ToSet(a) - ToSet(b) == {};
    if |a| < |b| {
      var n :| n in ToSet(b) - ToSet(a);
    }
    if n :| n in b && n !in a {
      assert n in ToSet(b) - ToSet(a);
    }
  }
}
