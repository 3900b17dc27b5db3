/** scripts/hardhat-verify/solc/artifacts.ts: linking the libraries that a contract requires. */
module Artifacts {
  import opened Wrappers
  import opened Records
  import opened Sequences
  import opened Libraries
  import opened Bytecode

  type Addresses = Libraries<string>

  datatype Conflict = Conflict(library: string, detectedAddress: string, inputAddress: string)

  datatype LibraryError =
    | InvalidLibraryAddress(name: string, address: string)
    | LibraryNotFound(name: string)
    | LibraryMultipleMatches(name: string, matches: seq<string>)
    | DuplicatedLibrary(fullName: string)
    | AddressesMismatch(conflicts: seq<Conflict>)
    | MissingLibraries(all: seq<string>, merged: seq<string>)
    | NoLinkReference

  /** `toLowerCase` on the characters of an address. */
  function ToLower(s: string): string {
    seq(|s|, i requires 0 <= i < |s| => if 'A' <= s[i] <= 'Z' then s[i] - 'A' + 'a' else s[i])
  }

  lemma ToLowerAt(s: string, k: nat)
    requires k < |s|
    ensures |ToLower(s)| == |s|
    ensures ToLower(s)[k] == if 'A' <= s[k] <= 'Z' then s[k] + 32 as char else s[k]
  {
    assert 'a' == 'A' + 32 as char;
  }

  lemma ToLowerIdempotent(s: string)
    ensures ToLower(ToLower(s)) == ToLower(s)
  {
  }

  /** Any two spellings of one hexadecimal address, checksummed or not, agree in lower case. */
  lemma SpellingsAgree(a: string, b: string)
    requires |a| == |b| && "0x" <= a && "0x" <= b
    requires forall k :: 2 <= k < |a| ==> HexDigit(a[k]).Some? && HexDigit(a[k]) == HexDigit(b[k])
    ensures ToLower(a) == ToLower(b)
  {
    forall k | 0 <= k < |a| ensures ToLower(a)[k] == ToLower(b)[k] {
      if k < 2 {
        assert a[k] == "0x"[k] == b[k];
      } else {
        DigitsAgree(a[k], b[k]);
      }
    }
  }

  lemma DigitsAgree(c: char, d: char)
    requires HexDigit(c).Some? && HexDigit(c) == HexDigit(d)
    ensures ToLower([c]) == ToLower([d])
  {
    assert ToLower([c])[0] == ToLower([d])[0];
  }

  lemma KnownPrefix<V>(libs: Libraries<V>, i: nat, source: string, name: string)
    requires ProperLibraries(libs) && i < |libs|
    ensures Known(libs[..i + 1], source, name)
       <==> Known(libs[..i], source, name) || (source == libs[i].0 && Has(libs[i].1, name))
    ensures Known(libs[..i], source, name) ==>
              source != libs[i].0 && Known(libs, source, name) && ValueOf(libs[..i], source, name) == ValueOf(libs, source, name)
    ensures source == libs[i].0 ==> (Known(libs, source, name) <==> Has(libs[i].1, name))
    ensures source == libs[i].0 && Known(libs, source, name) ==> ValueOf(libs, source, name) == Get(libs[i].1, name)
  {
    HasPrefix(libs, i, source);
    EntryGet(libs, i);
    EntryGet(libs[..i + 1], i);
    if Has(libs[..i], source) {
      var k := IndexOf(libs[..i], source);
      assert libs[..i + 1][k] == libs[..i][k];
      EntryGet(libs[..i + 1], k);
    }
  }

  /** The name of the `k`-th library of the `i`-th source differs from all names before it. */
  lemma NewName<V>(libs: Libraries<V>, i: nat, k: nat)
    requires ProperLibraries(libs) && AllColonFree(libs) && i < |libs| && k < |libs[i].1|
    ensures var n := FullName(libs[i].0, libs[i].1[k].0);
            && (forall s, l :: Known(libs[..i], s, l) ==> n != FullName(s, l))
            && (forall l :: Has(libs[i].1[..k], l) ==> n != FullName(libs[i].0, l))
  {
    var source, name := libs[i].0, libs[i].1[k].0;
    EntryGet(libs[i].1, k);
    KnownPrefix(libs, i, source, name);
    forall s, l | Known(libs[..i], s, l) ensures FullName(source, name) != FullName(s, l) {
      KnownPrefix(libs, i, s, l);
      if FullName(source, name) == FullName(s, l) {
        FullNameInjective(source, name, s, l);
      }
    }
    forall l | Has(libs[i].1[..k], l) ensures FullName(source, name) != FullName(source, l) {
      HasPrefix(libs[i].1, k, l);
      KnownPrefix(libs, i, source, l);
      if FullName(source, name) == FullName(source, l) {
        FullNameInjective(source, name, source, l);
      }
    }
  }

  ghost predicate NamedIn<V>(libs: Libraries<V>, n: string) {
    exists source, name :: Known(libs, source, name) && n == FullName(source, name)
  }

  ghost predicate NamedAt<V>(source: string, libraries: Record<V>, n: string) {
    exists name :: Has(libraries, name) && n == FullName(source, name)
  }

  lemma NamedAtStep<V>(source: string, libraries: Record<V>, k: nat, n: string)
    requires Proper(libraries) && k < |libraries|
    ensures NamedAt(source, libraries[..k + 1], n)
       <==> NamedAt(source, libraries[..k], n) || n == FullName(source, libraries[k].0)
  {
    hide Has, FullName;
    forall name ensures Has(libraries[..k + 1], name) <==> Has(libraries[..k], name) || name == libraries[k].0 {
      HasPrefix(libraries, k, name);
    }
  }

  lemma NamedInStep<V>(libs: Libraries<V>, i: nat, n: string)
    requires ProperLibraries(libs) && i < |libs|
    ensures NamedIn(libs[..i + 1], n) <==> NamedIn(libs[..i], n) || NamedAt(libs[i].0, libs[i].1, n)
  {
    hide Has, Known, FullName, ProperLibraries;
    forall s, l ensures Known(libs[..i + 1], s, l) <==> Known(libs[..i], s, l) || (s == libs[i].0 && Has(libs[i].1, l)) {
      KnownPrefix(libs, i, s, l);
    }
  }

  /** `getLibraryFQNames`. */
  method GetLibraryFQNames<V>(libs: Libraries<V>) returns (names: seq<string>)
    requires ProperLibraries(libs)
    ensures forall n :: n in names <==> exists source, name :: Known(libs, source, name) && n == FullName(source, name)
    ensures AllColonFree(libs) ==> NoDuplicates(names)
  {
    hide Has, Known, FullName, AllColonFree;
    names := [];
    assert forall n :: !NamedIn(libs[..0], n) by {
      NothingNamed<V>();
    }
    for i := 0 to |libs|
      invariant forall n :: n in names <==> NamedIn(libs[..i], n)
      invariant AllColonFree(libs) ==> NoDuplicates(names)
    {
      var source, libraries := libs[i].0, libs[i].1;
      ghost var before := names;
      NothingNamed<V>();
      assert libraries[..0] == [];
      for k := 0 to |libraries|
        invariant forall n :: n in names <==> n in before || NamedAt(source, libraries[..k], n)
        invariant AllColonFree(libs) ==> NoDuplicates(names)
      {
        var full := FullName(source, libraries[k].0);
        if AllColonFree(libs) {
          NewName(libs, i, k);
          assert full !in names;
        }
        forall n {
          NamedAtStep(source, libraries, k, n);
        }
        names := names + [full];
      }
      forall n {
        NamedInStep(libs, i, n);
      }
      assert libraries[..|libraries|] == libraries;
    }
    assert libs[..|libs|] == libs;
  }

  lemma NothingNamed<V>()
    ensures forall n :: !NamedIn<V>([], n)
    ensures forall source, n :: !NamedAt<V>(source, [], n)
  {
  }

  /** No library name holds a colon. */
  ghost predicate AllColonFree<V>(libs: Libraries<V>) {
    forall source, name :: Known(libs, source, name) ==> ColonFree(name)
  }

  // --- Looking up libraries given by the user ---

  /** `s.split(':')[1]`: what lies between the first and the second colon, if there is a first. */
  function SecondPart(s: string): Option<string> {
    if s == "" then None
    else if s[0] == ':' then Some(UpToColon(s[1..]))
    else SecondPart(s[1..])
  }

  function UpToColon(s: string): string {
    if s == "" || s[0] == ':' then "" else [s[0]] + UpToColon(s[1..])
  }

  lemma {:induction false} UpToColonFree(s: string)
    requires ColonFree(s)
    ensures UpToColon(s) == s
  {
    if s != "" {
      UpToColonFree(s[1..]);
    }
  }

  /** For a source name without colons the second part of a full name is the library name. */
  lemma {:induction false} SecondPartOfFullName(source: string, name: string)
    requires ColonFree(source) && ColonFree(name)
    ensures SecondPart(FullName(source, name)) == Some(name)
  {
    var f := FullName(source, name);
    if source == "" {
      assert f[1..] == name;
      UpToColonFree(name);
    } else {
      assert f[1..] == FullName(source[1..], name);
      SecondPartOfFullName(source[1..], name);
    }
  }

  lemma {:induction false} UpToColonOf(q: string, rest: string)
    requires ColonFree(q)
    ensures UpToColon(q + ":" + rest) == q
  {
    var s := q + ":" + rest;
    if q != "" {
      UpToColonOf(q[1..], rest);
      assert s[1..] == q[1..] + ":" + rest;
      assert s[0] == q[0] == ([q[0]] + q[1..])[0] != ':';
    }
  }

  /** What `split(':')[1]` is, for names without, with one and with several colons. */
  lemma {:induction false} SecondPartIs(p: string, q: string, rest: string)
    requires ColonFree(p) && ColonFree(q)
    ensures SecondPart(p) == None
    ensures SecondPart(p + ":" + q) == Some(q)
    ensures SecondPart(p + ":" + q + ":" + rest) == Some(q)
  {
    var s, t := p + ":" + q, p + ":" + q + ":" + rest;
    if p == "" {
      assert s[1..] == q && t[1..] == q + ":" + rest;
      UpToColonFree(q);
      UpToColonOf(q, rest);
    } else {
      assert s[1..] == p[1..] + ":" + q && t[1..] == p[1..] + ":" + q + ":" + rest;
      SecondPartIs(p[1..], q, rest);
    }
  }

  /** The user may name a library in full or, when its source has no colon, by its own name, and in no other way. */
  lemma MatchIff(source: string, library: string, name: string)
    requires ColonFree(source) && ColonFree(library)
    ensures IsMatch(FullName(source, library), name) <==> name == source + ":" + library || name == library
  {
    SecondPartOfFullName(source, library);
  }

  /** The user's name stands for this library. */
  predicate IsMatch(full: string, name: string) {
    full == name || SecondPart(full) == Some(name)
  }

  function Matching(all: seq<string>, name: string): (m: seq<string>)
    ensures forall f :: f in m <==> f in all && IsMatch(f, name)
  {
    if all == [] then []
    else
      var n := |all| - 1;
      Matching(all[..n], name) + if IsMatch(all[n], name) then [all[n]] else []
  }

  /** `lookupLibrary`. */
  function LookupLibrary(all: seq<string>, name: string): (r: Result<string, LibraryError>)
    ensures r.Err? ==> r.error.LibraryNotFound? || r.error.LibraryMultipleMatches?
    ensures r.Ok? ==> r.value in all && IsMatch(r.value, name)
  {
    var m := Matching(all, name);
    if |m| == 0 then Err(LibraryNotFound(name))
    else if |m| > 1 then Err(LibraryMultipleMatches(name, m))
    else
      assert m[0] in m;
      Ok(m[0])
  }

  lemma {:induction false} MatchingDistinct(all: seq<string>, name: string)
    requires NoDuplicates(all)
    ensures NoDuplicates(Matching(all, name))
  {
    if all != [] {
      var n := |all| - 1;
      MatchingDistinct(all[..n], name);
      assert all[n] !in all[..n];
    }
  }

  /** Among the required libraries, `f` and nothing else matches the user's name. */
  ghost predicate OnlyMatch(all: seq<string>, name: string, f: string) {
    f in all && IsMatch(f, name) && forall g :: g in all && IsMatch(g, name) ==> g == f
  }

  lemma OnlyMatchIff(all: seq<string>, name: string, f: string)
    requires NoDuplicates(all)
    ensures OnlyMatch(all, name, f) <==> Matching(all, name) == [f]
  {
    hide IsMatch, Matching;
    MatchingDistinct(all, name);
    var m := Matching(all, name);
    assert |m| > 1 ==> m[0] != m[1];
    if OnlyMatch(all, name, f) {
      assert f in m;
      forall k | 0 <= k < |m| ensures m[k] == f {
        assert m[k] in m;
      }
      assert m == [f];
    }
    if m == [f] {
      assert f in m;
      forall g | g in all && IsMatch(g, name) ensures g == f {
        assert g in m;
      }
    }
  }

  /** A lookup succeeds exactly when one required library, and no other, matches the user's name. */
  lemma LookupIff(all: seq<string>, name: string)
    requires NoDuplicates(all)
    ensures LookupLibrary(all, name).Ok? <==> exists f :: OnlyMatch(all, name, f)
    ensures forall f :: LookupLibrary(all, name) == Ok(f) <==> OnlyMatch(all, name, f)
  {
    hide OnlyMatch, Matching, NoDuplicates;
    forall f ensures LookupLibrary(all, name) == Ok(f) <==> OnlyMatch(all, name, f) {
      OnlyMatchIff(all, name, f);
    }
  }

  /** Why a lookup fails: nothing matches, or the matches listed. */
  lemma LookupFails(all: seq<string>, name: string)
    ensures LookupLibrary(all, name).Err? ==>
              match LookupLibrary(all, name).error
              case LibraryNotFound(n) => n == name && forall f :: f in all ==> !IsMatch(f, name)
              case LibraryMultipleMatches(n, matches) =>
                n == name && |matches| > 1 && forall f :: f in matches <==> f in all && IsMatch(f, name)
              case _ => false
  {
    hide IsMatch;
    assert Matching(all, name) == [] ==> forall f :: f in all ==> f !in Matching(all, name);
  }

  // --- Normalising ---

  /** The error says what is wrong with the `i`-th library given by the user. */
  ghost predicate ProblemAt(all: seq<string>, users: Record<string>, isAddress: string -> bool, i: nat, e: LibraryError)
    requires i < |users|
  {
    var (name, address) := users[i];
    match e
    case InvalidLibraryAddress(n, a) => n == name && a == address && !isAddress(address)
    case LibraryNotFound(n) => n == name && isAddress(address) && forall f :: f in all ==> !IsMatch(f, name)
    case LibraryMultipleMatches(n, matches) =>
      && n == name && isAddress(address) && |matches| > 1
      && forall f :: f in matches <==> f in all && IsMatch(f, name)
    case DuplicatedLibrary(f) =>
      && isAddress(address) && LookupLibrary(all, name) == Ok(f)
      && exists k :: 0 <= k < i && LookupLibrary(all, users[k].0) == Ok(f)
    case _ => false
  }

  /** The error is about the first library that has a problem. */
  ghost predicate FirstProblem(all: seq<string>, users: Record<string>, isAddress: string -> bool, e: LibraryError) {
    exists i: nat :: i < |users| && ProblemAt(all, users, isAddress, i, e) && Resolvable(all, users[..i], isAddress)
  }

  /** The `i`-th library given by the user resolves to a required one and has a valid address. */
  predicate Resolves(all: seq<string>, users: Record<string>, isAddress: string -> bool, i: nat)
    requires i < |users|
  {
    isAddress(users[i].1) && LookupLibrary(all, users[i].0).Ok?
  }

  /** All libraries given by the user resolve, to different ones. */
  predicate Resolvable(all: seq<string>, users: Record<string>, isAddress: string -> bool) {
    && (forall i :: 0 <= i < |users| ==> Resolves(all, users, isAddress, i))
    && (forall i, j :: 0 <= i < j < |users| ==> LookupLibrary(all, users[i].0) != LookupLibrary(all, users[j].0))
  }

  /** The record holds exactly the libraries found, each with the address that the user gave for it. */
  ghost predicate Normalized(found: seq<string>, users: Record<string>, normalized: Addresses)
    requires |found| <= |users|
  {
    && ProperLibraries(normalized)
    && (forall s, l :: Known(normalized, s, l) ==> ColonFree(l) && FullName(s, l) in found)
    && (forall k, s, l :: 0 <= k < |found| && found[k] == FullName(s, l) && ColonFree(l) ==>
          Known(normalized, s, l) && ValueOf(normalized, s, l) == users[k].1)
  }

  lemma NormalizedStep(found: seq<string>, users: Record<string>, normalized: Addresses, source: string, name: string)
    requires |found| < |users| && Normalized(found, users, normalized)
    requires ColonFree(name) && FullName(source, name) !in found
    ensures Normalized(found + [FullName(source, name)], users, Store(normalized, source, name, users[|found|].1))
  {
    var n := |found|;
    var found', normalized' := found + [FullName(source, name)], Store(normalized, source, name, users[n].1);
    StoreProper(normalized, source, name, users[n].1);
    forall s, l | Known(normalized', s, l) ensures ColonFree(l) && FullName(s, l) in found' {
      StoreKnown(normalized, source, name, users[n].1, s, l);
      assert FullName(source, name) == found'[n];
    }
    forall k, s, l | 0 <= k < n + 1 && found'[k] == FullName(s, l) && ColonFree(l)
      ensures Known(normalized', s, l) && ValueOf(normalized', s, l) == users[k].1
    {
      StoreKnown(normalized, source, name, users[n].1, s, l);
      if k == n {
        FullNameInjective(source, name, s, l);
      } else {
        assert found[k] == FullName(s, l);
      }
    }
  }

  /** Every required name is made of a source name and a library name without colons. */
  ghost predicate WellNamed(all: seq<string>) {
    forall n :: n in all ==> exists s, l :: ColonFree(l) && n == FullName(s, l)
  }

  lemma ParseWellNamed(all: seq<string>, n: string)
    requires WellNamed(all) && n in all
    ensures var (s, l) := ParseFullName(n); ColonFree(l) && n == FullName(s, l)
  {
    var s, l :| ColonFree(l) && n == FullName(s, l);
    ParseFullNameInverts(s, l);
  }

  /** A library that does not resolve, or resolves to the same one as another, makes the whole call fail. */
  lemma NotResolvable(all: seq<string>, users: Record<string>, isAddress: string -> bool, i: nat, j: nat)
    requires i < |users| && j < |users|
    ensures !Resolves(all, users, isAddress, i) ==> !Resolvable(all, users, isAddress)
    ensures i < j && LookupLibrary(all, users[i].0) == LookupLibrary(all, users[j].0) ==> !Resolvable(all, users, isAddress)
  {
  }

  lemma ResolvedBefore(all: seq<string>, users: Record<string>, isAddress: string -> bool, found: seq<string>)
    requires |found| <= |users| && NoDuplicates(found)
    requires forall k :: 0 <= k < |found| ==> LookupLibrary(all, users[k].0) == Ok(found[k])
    requires forall k :: 0 <= k < |found| ==> isAddress(users[k].1)
    ensures Resolvable(all, users[..|found|], isAddress)
  {
    hide LookupLibrary;
  }

  lemma ResolvedAll(all: seq<string>, users: Record<string>, isAddress: string -> bool, found: seq<string>)
    requires Resolution(all, users, found) && NoDuplicates(found)
    requires forall i :: 0 <= i < |users| ==> isAddress(users[i].1)
    ensures Resolvable(all, users, isAddress)
  {
  }

  /** `found` lists the required libraries that the user's names resolve to. */
  ghost predicate Resolution(all: seq<string>, users: Record<string>, found: seq<string>) {
    && |found| == |users|
    && forall k :: 0 <= k < |found| ==> LookupLibrary(all, users[k].0) == Ok(found[k]) && found[k] in all
  }

  /** `normalizeLibraries`. */
  method NormalizeLibraries(all: seq<string>, users: Record<string>, isAddress: string -> bool)
    returns (r: Result<Addresses, LibraryError>)
    requires NoDuplicates(all) && WellNamed(all)
    ensures r.Ok? <==> Resolvable(all, users, isAddress)
    ensures r.Err? ==> !r.error.MissingLibraries? && FirstProblem(all, users, isAddress, r.error)
    ensures r.Ok? ==> exists found :: Resolution(all, users, found) && Normalized(found, users, r.value)
  {
    hide LookupLibrary, Normalized, WellNamed, Resolvable, IsMatch, NoDuplicates;
    var libraryFQNs: seq<string> := [];
    AppendDistinct<string>([], "");
    var normalized: Addresses := [];
    assert Normalized([], users, []) by {
      NothingNormalized(users);
    }
    for i := 0 to |users|
      invariant |libraryFQNs| == i
      invariant forall k :: 0 <= k < i ==> LookupLibrary(all, users[k].0) == Ok(libraryFQNs[k]) && libraryFQNs[k] in all
      invariant forall k :: 0 <= k < i ==> isAddress(users[k].1)
      invariant NoDuplicates(libraryFQNs)
      invariant Normalized(libraryFQNs, users, normalized)
    {
      var userLibName, userLibAddress := users[i].0, users[i].1;
      NotResolvable(all, users, isAddress, i, i);
      ResolvedBefore(all, users, isAddress, libraryFQNs);
      LookupFails(all, userLibName);
      if !isAddress(userLibAddress) {
        assert ProblemAt(all, users, isAddress, i, InvalidLibraryAddress(userLibName, userLibAddress));
        return Err(InvalidLibraryAddress(userLibName, userLibAddress));
      }
      var lookup := LookupLibrary(all, userLibName);
      if lookup.Err? {
        assert ProblemAt(all, users, isAddress, i, lookup.error);
        return Err(lookup.error);
      }
      if lookup.value in libraryFQNs {
        ghost var k :| 0 <= k < i && libraryFQNs[k] == lookup.value;
        NotResolvable(all, users, isAddress, k, i);
        assert ProblemAt(all, users, isAddress, i, DuplicatedLibrary(lookup.value));
        return Err(DuplicatedLibrary(lookup.value));
      }
      AppendDistinct(libraryFQNs, lookup.value);
      ParseWellNamed(all, lookup.value);
      var (source, name) := ParseFullName(lookup.value);
      NormalizedStep(libraryFQNs, users, normalized, source, name);
      libraryFQNs := libraryFQNs + [lookup.value];
      normalized := Store(normalized, source, name, userLibAddress);
    }
    assert Resolution(all, users, libraryFQNs);
    ResolvedAll(all, users, isAddress, libraryFQNs);
    return Ok(normalized);
  }

  lemma NothingNormalized(users: Record<string>)
    ensures Normalized([], users, [])
  {
  }

  // --- Copying records ---

  /** The copying loop has passed this library: entry `k` of source `i` comes next. */
  ghost predicate Done<V>(from: Libraries<V>, i: nat, k: nat, source: string, name: string)
    requires i <= |from|
  {
    Known(from[..i], source, name) ||
    (i < |from| && k <= |from[i].1| && source == from[i].0 && Has(from[i].1[..k], name))
  }

  /** `r` is `target` overlaid with what the loop has passed of `from`, each value under `f`. */
  ghost predicate Overlaid<V>(target: Addresses, from: Libraries<V>, f: V -> string, i: nat, k: nat, r: Addresses)
    requires i <= |from|
  {
    && ProperLibraries(r)
    && (forall s, l :: Known(r, s, l) <==> Known(target, s, l) || Done(from, i, k, s, l))
    && (forall s, l :: Done(from, i, k, s, l) ==>
          Known(from, s, l) && Known(r, s, l) && ValueOf(r, s, l) == f(ValueOf(from, s, l)))
    && (forall s, l :: Known(target, s, l) && !Done(from, i, k, s, l) ==>
          Known(r, s, l) && ValueOf(r, s, l) == ValueOf(target, s, l))
  }

  lemma DoneStep<V>(from: Libraries<V>, i: nat, k: nat, s: string, l: string)
    requires ProperLibraries(from) && i < |from| && k < |from[i].1|
    ensures Done(from, i, k + 1, s, l) <==> Done(from, i, k, s, l) || (s == from[i].0 && l == from[i].1[k].0)
    ensures Done(from, i, k, s, l) ==> !(s == from[i].0 && l == from[i].1[k].0)
    ensures s == from[i].0 && l == from[i].1[k].0 ==> Known(from, s, l) && ValueOf(from, s, l) == from[i].1[k].1
  {
    HasPrefix(from[i].1, k, l);
    KnownPrefix(from, i, s, l);
    EntryGet(from[i].1, k);
  }

  lemma OverlayStep<V>(target: Addresses, from: Libraries<V>, f: V -> string, i: nat, k: nat, r: Addresses)
    requires ProperLibraries(from) && i < |from| && k < |from[i].1| && Overlaid(target, from, f, i, k, r)
    ensures Overlaid(target, from, f, i, k + 1, Store(r, from[i].0, from[i].1[k].0, f(from[i].1[k].1)))
  {
    var source, name, v := from[i].0, from[i].1[k].0, f(from[i].1[k].1);
    var r' := Store(r, source, name, v);
    StoreProper(r, source, name, v);
    forall s, l
      ensures Known(r', s, l) <==> Known(target, s, l) || Done(from, i, k + 1, s, l)
      ensures Done(from, i, k + 1, s, l) ==>
                Known(from, s, l) && Known(r', s, l) && ValueOf(r', s, l) == f(ValueOf(from, s, l))
      ensures Known(target, s, l) && !Done(from, i, k + 1, s, l) ==>
                Known(r', s, l) && ValueOf(r', s, l) == ValueOf(target, s, l)
    {
      hide Store, Done;
      StoreKnown(r, source, name, v, s, l);
      DoneStep(from, i, k, s, l);
    }
  }

  lemma DoneRow<V>(from: Libraries<V>, i: nat, s: string, l: string)
    requires ProperLibraries(from) && i < |from|
    ensures Done(from, i, |from[i].1|, s, l) <==> Done(from, i + 1, 0, s, l)
  {
    KnownPrefix(from, i, s, l);
    var row := from[i].1;
    assert row[..|row|] == row;
  }

  lemma OverlayRow<V>(target: Addresses, from: Libraries<V>, f: V -> string, i: nat, r: Addresses)
    requires ProperLibraries(from) && i < |from| && Overlaid(target, from, f, i, |from[i].1|, r)
    ensures Overlaid(target, from, f, i + 1, 0, r)
  {
    forall s, l ensures Done(from, i, |from[i].1|, s, l) <==> Done(from, i + 1, 0, s, l) {
      DoneRow(from, i, s, l);
    }
    hide Done;
  }

  /** `target[source] ??= {}`. */
  function Open(r: Addresses, source: string): Addresses {
    if Has(r, source) then r else Put(r, source, [])
  }

  lemma OpenOverlaid<V>(target: Addresses, from: Libraries<V>, f: V -> string, i: nat, r: Addresses, source: string)
    requires i <= |from| && Overlaid(target, from, f, i, 0, r)
    ensures Overlaid(target, from, f, i, 0, Open(r, source))
  {
    if !Has(r, source) {
      PutProper(r, source, []);
      forall s, l
        ensures Known(Open(r, source), s, l) <==> Known(r, s, l)
        ensures Known(r, s, l) ==> ValueOf(Open(r, source), s, l) == ValueOf(r, s, l)
      {
        PutGet(r, source, [], s);
      }
      hide Done, Open;
    }
  }

  lemma OverlayNothing<V>(target: Addresses, from: Libraries<V>, f: V -> string)
    requires ProperLibraries(target) && ProperLibraries(from)
    ensures Overlaid(target, from, f, 0, 0, target)
  {
  }

  /** The finished overlay: values of `from` where it has any, else those of `target`. */
  lemma OverlayComplete<V>(target: Addresses, from: Libraries<V>, f: V -> string, r: Addresses)
    requires Overlaid(target, from, f, |from|, 0, r)
    ensures ProperLibraries(r)
    ensures forall s, l :: Known(r, s, l) <==> Known(target, s, l) || Known(from, s, l)
    ensures forall s, l :: Known(from, s, l) ==> ValueOf(r, s, l) == f(ValueOf(from, s, l))
    ensures forall s, l :: Known(target, s, l) && !Known(from, s, l) ==> ValueOf(r, s, l) == ValueOf(target, s, l)
  {
    assert from[..|from|] == from;
  }

  // --- Addresses found in the bytecode ---

  /** `0x` and the hexadecimal digits at the first link reference. */
  function AddressAt(bytecode: string, offsets: seq<ByteOffset>): string {
    if offsets == [] then "" else "0x" + Slice(bytecode, offsets[0].start * 2, (offsets[0].start + offsets[0].length) * 2)
  }

  /** The digits `a` stand where the first reference points. */
  ghost predicate StandsAt(bytecode: string, offsets: seq<ByteOffset>, a: string) {
    offsets != [] &&
    var first := 2 * offsets[0].start;
    && |a| == 2 * offsets[0].length && first + |a| <= |bytecode|
    && forall k :: 0 <= k < |a| ==> bytecode[first + k] == a[k]
  }

  /** The detected address is the digits that stand at the first reference. */
  lemma AddressIs(bytecode: string, offsets: seq<ByteOffset>, a: string)
    requires StandsAt(bytecode, offsets, a)
    ensures AddressAt(bytecode, offsets) == "0x" + a
  {
    var first := 2 * offsets[0].start;
    assert Slice(bytecode, first, first + |a|) == a;
  }

  /** They are exactly the characters that masking the reference sets to zero. */
  lemma AddressIsMasked(bytecode: string, offsets: seq<ByteOffset>, k: nat)
    requires offsets != [] && 2 * (offsets[0].start + offsets[0].length) <= |bytecode|
    ensures |AddressAt(bytecode, offsets)| == 2 + 2 * offsets[0].length
    ensures InRange(offsets[0], k) ==>
              AddressAt(bytecode, offsets)[k - 2 * offsets[0].start + 2] == bytecode[k] && NullifyOne(bytecode, offsets[0])[k] == '0'
    ensures !InRange(offsets[0], k) && k < |bytecode| ==> NullifyOne(bytecode, offsets[0])[k] == bytecode[k]
  {
    hide AddressAt, Slice, NullifyOne;
    var first, n := 2 * offsets[0].start, 2 * offsets[0].length;
    var a := bytecode[first..first + n];
    AddressIs(bytecode, offsets, a);
    NullifyOneLength(bytecode, offsets[0]);
    if k < |bytecode| {
      NullifyOneAt(bytecode, offsets[0], k);
      assert InRange(offsets[0], k) ==> a[k - first] == bytecode[k] && ("0x" + a)[k - first + 2] == a[k - first];
    }
  }

  lemma NullifyOneLength(s: string, o: ByteOffset)
    requires 2 * (o.start + o.length) <= |s|
    ensures |NullifyOne(s, o)| == |s|
  {
  }

  /** `getLibraryAddressesFromBytecode`, which throws when a library has no reference. */
  method GetLibraryAddressesFromBytecode(refs: LinkReferences, bytecode: string) returns (r: Option<Addresses>)
    requires ProperLibraries(refs)
    ensures r.Some? <==> forall i, k :: 0 <= i < |refs| && 0 <= k < |refs[i].1| ==> refs[i].1[k].1 != []
    ensures r.Some? ==> ProperLibraries(r.value)
    ensures r.Some? ==> forall s, l :: Known(r.value, s, l) <==> Known(refs, s, l)
    ensures r.Some? ==> forall s, l :: Known(refs, s, l) ==> ValueOf(r.value, s, l) == AddressAt(bytecode, ValueOf(refs, s, l))
    ensures r.Some? ==> forall s, l, a :: Known(refs, s, l) && StandsAt(bytecode, ValueOf(refs, s, l), a) ==>
                          ValueOf(r.value, s, l) == "0x" + a
  {
    hide Overlaid, Open, Store, AddressAt;
    ghost var f: seq<ByteOffset> -> string := (offsets: seq<ByteOffset>) => AddressAt(bytecode, offsets);
    var addresses: Addresses := [];
    OverlayNothing([], refs, f);
    for i := 0 to |refs|
      invariant Overlaid([], refs, f, i, 0, addresses)
      invariant forall p, k :: 0 <= p < i && 0 <= k < |refs[p].1| ==> refs[p].1[k].1 != []
    {
      var source, libs := refs[i].0, refs[i].1;
      OpenOverlaid([], refs, f, i, addresses, source);
      addresses := Open(addresses, source);
      for k := 0 to |libs|
        invariant Overlaid([], refs, f, i, k, addresses)
        invariant forall q :: 0 <= q < k ==> libs[q].1 != []
      {
        if libs[k].1 == [] {
          return None;
        }
        OverlayStep([], refs, f, i, k, addresses);
        addresses := Store(addresses, source, libs[k].0, AddressAt(bytecode, libs[k].1));
      }
      OverlayRow([], refs, f, i, addresses);
    }
    OverlayComplete([], refs, f, addresses);
    forall offsets, a | StandsAt(bytecode, offsets, a) ensures AddressAt(bytecode, offsets) == "0x" + a {
      AddressIs(bytecode, offsets, a);
    }
    return Some(addresses);
  }

  // --- Merging ---

  /** The library is known from both sources, and the user's address in lower case is not the detected one. */
  predicate Disagree(normalized: Addresses, detected: Addresses, s: string, l: string) {
    && Known(normalized, s, l) && Known(detected, s, l)
    && ToLower(ValueOf(normalized, s, l)) != ValueOf(detected, s, l)
  }

  function ConflictOf(normalized: Addresses, detected: Addresses, s: string, l: string): Conflict
    requires Known(normalized, s, l) && Known(detected, s, l)
  {
    Conflict(FullName(s, l), ValueOf(detected, s, l), ValueOf(normalized, s, l))
  }

  /** The conflicts of the libraries that the loop has passed. */
  ghost predicate Conflicts(normalized: Addresses, detected: Addresses, i: nat, k: nat, conflicts: seq<Conflict>)
    requires i <= |normalized|
  {
    forall c :: c in conflicts <==>
      exists s, l :: Done(normalized, i, k, s, l) && Disagree(normalized, detected, s, l)
        && c == ConflictOf(normalized, detected, s, l)
  }

  /** Every library known from both sources has one address, once the user's is in lower case. */
  ghost predicate Agree(normalized: Addresses, detected: Addresses) {
    forall s, l :: !Disagree(normalized, detected, s, l)
  }

  /** The merge used internally by `mergeLibraries`. */
  method Merge(target: Addresses, newLibraries: Addresses) returns (r: Addresses)
    requires ProperLibraries(target) && ProperLibraries(newLibraries)
    ensures ProperLibraries(r)
    ensures forall s, l :: Known(r, s, l) <==> Known(target, s, l) || Known(newLibraries, s, l)
    ensures forall s, l :: Known(newLibraries, s, l) ==> ValueOf(r, s, l) == ValueOf(newLibraries, s, l)
    ensures forall s, l :: Known(target, s, l) && !Known(newLibraries, s, l) ==> ValueOf(r, s, l) == ValueOf(target, s, l)
  {
    hide Overlaid, Open, Store;
    ghost var f: string -> string := (v: string) => v;
    r := target;
    OverlayNothing(target, newLibraries, f);
    for i := 0 to |newLibraries|
      invariant Overlaid(target, newLibraries, f, i, 0, r)
    {
      var source, libraries := newLibraries[i].0, newLibraries[i].1;
      OpenOverlaid(target, newLibraries, f, i, r, source);
      r := Open(r, source);
      for k := 0 to |libraries|
        invariant Overlaid(target, newLibraries, f, i, k, r)
      {
        OverlayStep(target, newLibraries, f, i, k, r);
        r := Store(r, source, libraries[k].0, libraries[k].1);
      }
      OverlayRow(target, newLibraries, f, i, r);
    }
    OverlayComplete(target, newLibraries, f, r);
  }

  /** The first half of `mergeLibraries`: every disagreement, and nothing else. */
  method FindConflicts(normalized: Addresses, detected: Addresses) returns (conflicts: seq<Conflict>)
    requires ProperLibraries(normalized)
    ensures forall c :: c in conflicts <==>
              exists s, l :: Disagree(normalized, detected, s, l) && c == ConflictOf(normalized, detected, s, l)
  {
    hide Done, Disagree, Known, ToLower, Get;
    conflicts := [];
    NoConflicts(normalized, detected);
    for i := 0 to |normalized|
      invariant Conflicts(normalized, detected, i, 0, conflicts)
    {
      var source, libraries := normalized[i].0, normalized[i].1;
      for k := 0 to |libraries|
        invariant Conflicts(normalized, detected, i, k, conflicts)
      {
        var name, address := libraries[k].0, libraries[k].1;
        ConflictsStep(normalized, detected, i, k, conflicts);
        if Known(detected, source, name) {
          var detectedAddress := ValueOf(detected, source, name);
          if ToLower(address) != detectedAddress {
            conflicts := conflicts + [Conflict(FullName(source, name), detectedAddress, address)];
          }
        }
      }
      ConflictsRow(normalized, detected, i, conflicts);
    }
    AllConflicts(normalized, detected, conflicts);
  }

  lemma NoConflicts(normalized: Addresses, detected: Addresses)
    requires ProperLibraries(normalized)
    ensures Conflicts(normalized, detected, 0, 0, [])
  {
  }

  lemma ConflictsStep(normalized: Addresses, detected: Addresses, i: nat, k: nat, conflicts: seq<Conflict>)
    requires ProperLibraries(normalized) && i < |normalized| && k < |normalized[i].1|
    requires Conflicts(normalized, detected, i, k, conflicts)
    ensures var source, name, address := normalized[i].0, normalized[i].1[k].0, normalized[i].1[k].1;
            if Known(detected, source, name) && ToLower(address) != ValueOf(detected, source, name)
            then Conflicts(normalized, detected, i, k + 1,
                           conflicts + [Conflict(FullName(source, name), ValueOf(detected, source, name), address)])
            else Conflicts(normalized, detected, i, k + 1, conflicts)
  {
    var source, name := normalized[i].0, normalized[i].1[k].0;
    forall s, l
      ensures Done(normalized, i, k + 1, s, l) <==> Done(normalized, i, k, s, l) || (s == source && l == name)
    {
      DoneStep(normalized, i, k, s, l);
    }
    DoneStep(normalized, i, k, source, name);
    hide Done, ToLower;
    var clash := Disagree(normalized, detected, source, name);
    var conflicts' := if clash then conflicts + [ConflictOf(normalized, detected, source, name)] else conflicts;
    forall c ensures c in conflicts' <==>
        exists s, l :: Done(normalized, i, k + 1, s, l) && Disagree(normalized, detected, s, l)
          && c == ConflictOf(normalized, detected, s, l)
    {
      if clash && c == ConflictOf(normalized, detected, source, name) {
        assert Done(normalized, i, k + 1, source, name);
      }
      if s, l :| Done(normalized, i, k + 1, s, l) && Disagree(normalized, detected, s, l)
                 && c == ConflictOf(normalized, detected, s, l)
      {
        assert (s == source && l == name) || Done(normalized, i, k, s, l);
      }
    }
  }

  lemma ConflictsRow(normalized: Addresses, detected: Addresses, i: nat, conflicts: seq<Conflict>)
    requires ProperLibraries(normalized) && i < |normalized|
    requires Conflicts(normalized, detected, i, |normalized[i].1|, conflicts)
    ensures Conflicts(normalized, detected, i + 1, 0, conflicts)
  {
    forall s, l ensures Done(normalized, i, |normalized[i].1|, s, l) <==> Done(normalized, i + 1, 0, s, l) {
      DoneRow(normalized, i, s, l);
    }
    hide Done, Disagree;
  }

  lemma AllConflicts(normalized: Addresses, detected: Addresses, conflicts: seq<Conflict>)
    requires Conflicts(normalized, detected, |normalized|, 0, conflicts)
    ensures forall c :: c in conflicts <==>
              exists s, l :: Disagree(normalized, detected, s, l) && c == ConflictOf(normalized, detected, s, l)
  {
    assert normalized[..|normalized|] == normalized;
    assert forall s, l :: Disagree(normalized, detected, s, l) ==> Done(normalized, |normalized|, 0, s, l);
  }

  /**
   * `mergeLibraries`: it returns exactly when every library known from both sources agrees; the
   * result knows the libraries of either source, with the detected address where there is one.
   */
  method MergeLibraries(normalized: Addresses, detected: Addresses) returns (r: Result<Addresses, LibraryError>)
    requires ProperLibraries(normalized) && ProperLibraries(detected)
    ensures r.Ok? <==> Agree(normalized, detected)
    ensures r.Err? ==> r.error.AddressesMismatch? && forall c :: c in r.error.conflicts <==>
              exists s, l :: Disagree(normalized, detected, s, l) && c == ConflictOf(normalized, detected, s, l)
    ensures r.Ok? ==> ProperLibraries(r.value)
    ensures r.Ok? ==> forall s, l :: Known(r.value, s, l) <==> Known(normalized, s, l) || Known(detected, s, l)
    ensures r.Ok? ==> forall s, l :: Known(detected, s, l) ==> ValueOf(r.value, s, l) == ValueOf(detected, s, l)
    ensures r.Ok? ==> forall s, l :: Known(normalized, s, l) && !Known(detected, s, l) ==>
              ValueOf(r.value, s, l) == ValueOf(normalized, s, l)
  {
    hide Get, ToLower;
    var conflicts := FindConflicts(normalized, detected);
    if |conflicts| > 0 {
      assert conflicts[0] in conflicts;
      return Err(AddressesMismatch(conflicts));
    }
    assert forall s, l :: Disagree(normalized, detected, s, l) ==> ConflictOf(normalized, detected, s, l) in conflicts;
    var merged := Merge([], normalized);
    merged := Merge(merged, detected);
    return Ok(merged);
  }

  // --- The whole of getLibraryInformation ---

  /** What the call is about: required and detectable references, deployed code, and the user's libraries. */
  datatype Request = Request(required: LinkReferences, detectable: LinkReferences, code: string, users: Record<string>,
                             isAddress: string -> bool)
  {
    ghost predicate Proper() {
      && ProperLibraries(required) && AllColonFree(required)
      && ProperLibraries(detectable) && AllColonFree(detectable)
    }

    /** Detectable references are among the required ones. */
    ghost predicate DetectsRequired() {
      forall s, l :: Known(detectable, s, l) ==> Known(required, s, l)
    }

    /** The `i`-th library of the user stands for this required library and for no other. */
    ghost predicate Gives(i: int, s: string, l: string) {
      && 0 <= i < |users| && Known(required, s, l) && IsMatch(FullName(s, l), users[i].0)
      && forall s', l' :: Known(required, s', l') && IsMatch(FullName(s', l'), users[i].0) ==> s' == s && l' == l
    }

    ghost predicate GivesSome(i: int) {
      exists s, l :: Gives(i, s, l)
    }

    /** Every library of the user has a valid address and stands for a required library of its own. */
    ghost predicate UsersResolve() {
      && (forall i :: 0 <= i < |users| ==> isAddress(users[i].1) && GivesSome(i))
      && (forall i, j, s, l :: Gives(i, s, l) && Gives(j, s, l) ==> i == j)
    }

    /** Every detectable library has a reference. */
    ghost predicate Referenced() {
      forall i, k :: 0 <= i < |detectable| && 0 <= k < |detectable[i].1| ==> detectable[i].1[k].1 != []
    }

    function DetectedAddress(s: string, l: string): string
      requires Known(detectable, s, l)
    {
      AddressAt(code, ValueOf(detectable, s, l))
    }

    /** Where the user names a detectable library, the address is the detected one up to case. */
    ghost predicate Consistent() {
      forall i, s, l :: Gives(i, s, l) && Known(detectable, s, l) ==> ToLower(users[i].1) == DetectedAddress(s, l)
    }

    /** Every required library is detectable or given by the user. */
    ghost predicate Complete() {
      forall s, l :: Known(required, s, l) ==> Known(detectable, s, l) || exists i :: Gives(i, s, l)
    }
  }

  /** `names` lists the required libraries. */
  ghost predicate Lists<V>(names: seq<string>, libs: Libraries<V>) {
    && NoDuplicates(names)
    && forall n :: n in names <==> exists s, l :: Known(libs, s, l) && n == FullName(s, l)
  }

  lemma ListedName<V>(names: seq<string>, libs: Libraries<V>, s: string, l: string)
    requires Lists(names, libs) && AllColonFree(libs) && ColonFree(l)
    ensures FullName(s, l) in names <==> Known(libs, s, l)
  {
    if FullName(s, l) in names {
      var s', l' :| Known(libs, s', l') && FullName(s, l) == FullName(s', l');
      FullNameInjective(s, l, s', l');
    }
  }

  /** A lookup finds a library exactly when the user's name stands for it alone. */
  lemma LookupGives(q: Request, names: seq<string>, i: nat, s: string, l: string)
    requires q.Proper() && Lists(names, q.required) && i < |q.users| && ColonFree(l)
    ensures LookupLibrary(names, q.users[i].0) == Ok(FullName(s, l)) <==> q.Gives(i, s, l)
  {
    var name := q.users[i].0;
    hide LookupLibrary, IsMatch;
    LookupIff(names, name);
    ListedName(names, q.required, s, l);
    if LookupLibrary(names, name) == Ok(FullName(s, l)) {
      forall s', l' | Known(q.required, s', l') && IsMatch(FullName(s', l'), name) ensures s' == s && l' == l {
        assert FullName(s', l') in names;
        FullNameInjective(s, l, s', l');
      }
    }
    if q.Gives(i, s, l) {
      forall g | g in names && IsMatch(g, name) ensures g == FullName(s, l) {
        var s', l' :| Known(q.required, s', l') && g == FullName(s', l');
      }
    }
  }

  lemma LookupIffGives(q: Request, names: seq<string>, i: nat)
    requires q.Proper() && Lists(names, q.required) && i < |q.users|
    ensures LookupLibrary(names, q.users[i].0).Ok? <==> q.GivesSome(i)
  {
    hide LookupLibrary, IsMatch;
    LookupIff(names, q.users[i].0);
    if LookupLibrary(names, q.users[i].0).Ok? {
      var f := LookupLibrary(names, q.users[i].0).value;
      var s, l :| Known(q.required, s, l) && f == FullName(s, l);
      LookupGives(q, names, i, s, l);
    }
    if s, l :| q.Gives(i, s, l) {
      LookupGives(q, names, i, s, l);
    }
  }

  lemma SameLookupIffSameGiven(q: Request, names: seq<string>, i: nat, j: nat)
    requires q.Proper() && Lists(names, q.required) && i < |q.users| && j < |q.users| && q.GivesSome(i)
    ensures LookupLibrary(names, q.users[i].0) == LookupLibrary(names, q.users[j].0)
       <==> exists s, l :: q.Gives(i, s, l) && q.Gives(j, s, l)
  {
    hide LookupLibrary, IsMatch;
    var s, l :| q.Gives(i, s, l);
    LookupGives(q, names, i, s, l);
    LookupGives(q, names, j, s, l);
    if s', l' :| q.Gives(i, s', l') && q.Gives(j, s', l') {
      LookupGives(q, names, i, s', l');
      LookupGives(q, names, j, s', l');
    }
  }

  lemma ResolvableIff(q: Request, names: seq<string>)
    requires q.Proper() && Lists(names, q.required)
    ensures Resolvable(names, q.users, q.isAddress) <==> q.UsersResolve()
  {
    forall i: nat | i < |q.users| ensures LookupLibrary(names, q.users[i].0).Ok? <==> q.GivesSome(i) {
      LookupIffGives(q, names, i);
    }
    hide LookupLibrary;
    if q.UsersResolve() {
      forall i: nat, j: nat | i < j < |q.users|
        ensures LookupLibrary(names, q.users[i].0) != LookupLibrary(names, q.users[j].0)
      {
        SameLookupIffSameGiven(q, names, i, j);
      }
      assert forall i: nat :: i < |q.users| ==> Resolves(names, q.users, q.isAddress, i);
    }
    if Resolvable(names, q.users, q.isAddress) {
      forall i | 0 <= i < |q.users| ensures q.isAddress(q.users[i].1) && q.GivesSome(i) {
        assert Resolves(names, q.users, q.isAddress, i);
      }
      forall i, j, s, l | q.Gives(i, s, l) && q.Gives(j, s, l) ensures i == j {
        SameLookupIffSameGiven(q, names, i, j);
        assert !(i < j) && !(j < i);
      }
    }
  }

  /** The normalized record knows what the user gives, with the user's addresses. */
  lemma NormalizedGives(q: Request, names: seq<string>, found: seq<string>, normalized: Addresses, s: string, l: string)
    requires q.Proper() && Lists(names, q.required)
    requires Resolution(names, q.users, found) && Normalized(found, q.users, normalized)
    ensures Known(normalized, s, l) <==> exists i :: q.Gives(i, s, l)
    ensures forall i :: q.Gives(i, s, l) ==> Known(normalized, s, l) && ValueOf(normalized, s, l) == q.users[i].1
  {
    hide LookupLibrary, ValueOf;
    if Known(normalized, s, l) {
      var i :| 0 <= i < |found| && found[i] == FullName(s, l);
      LookupGives(q, names, i, s, l);
    }
    forall i | q.Gives(i, s, l) ensures Known(normalized, s, l) && ValueOf(normalized, s, l) == q.users[i].1 {
      LookupGives(q, names, i, s, l);
      assert found[i] == FullName(s, l);
    }
  }

  lemma AgreeIffConsistent(q: Request, normalized: Addresses, detected: Addresses)
    requires forall s, l :: Known(normalized, s, l) <==> exists i :: q.Gives(i, s, l)
    requires forall i, s, l :: q.Gives(i, s, l) ==> Known(normalized, s, l) && ValueOf(normalized, s, l) == q.users[i].1
    requires forall s, l :: Known(detected, s, l) <==> Known(q.detectable, s, l)
    requires forall s, l :: Known(q.detectable, s, l) ==> ValueOf(detected, s, l) == q.DetectedAddress(s, l)
    ensures Agree(normalized, detected) <==> q.Consistent()
  {
    hide ToLower, AddressAt;
    if q.Consistent() {
      forall s, l ensures !Disagree(normalized, detected, s, l) {
        if Known(normalized, s, l) {
          var i :| q.Gives(i, s, l);
        }
      }
    }
    if Agree(normalized, detected) {
      forall i, s, l | q.Gives(i, s, l) && Known(q.detectable, s, l)
        ensures ToLower(q.users[i].1) == q.DetectedAddress(s, l)
      {
        assert !Disagree(normalized, detected, s, l);
      }
    }
  }

  /** Comparing the number of merged names with the number of required names decides completeness. */
  lemma LengthCheckIsComplete(q: Request, required: seq<string>, mergedNames: seq<string>, merged: Addresses)
    requires q.Proper() && q.DetectsRequired()
    requires Lists(required, q.required) && Lists(mergedNames, merged)
    requires forall s, l :: Known(merged, s, l) <==> (exists i :: q.Gives(i, s, l)) || Known(q.detectable, s, l)
    ensures |mergedNames| < |required| <==> !q.Complete()
    ensures q.Complete() ==> forall s, l :: Known(merged, s, l) <==> Known(q.required, s, l)
  {
    hide Known, IsMatch;
    assert AllColonFree(merged);
    forall n | n in ToSet(mergedNames) ensures n in ToSet(required) {
      var s, l :| Known(merged, s, l) && n == FullName(s, l);
      assert Known(q.required, s, l);
    }
    LengthIsCoverage(mergedNames, required);
    if n :| n in required && n !in mergedNames {
      var s, l :| Known(q.required, s, l) && n == FullName(s, l);
      assert !Known(merged, s, l);
    }
    if !q.Complete() {
      var s, l :| Known(q.required, s, l) && !Known(q.detectable, s, l) && !exists i :: q.Gives(i, s, l);
      ListedName(required, q.required, s, l);
      ListedName(mergedNames, merged, s, l);
    }
  }

  /** The required libraries that are not detectable. */
  function Undetectable(required: seq<string>, detectable: seq<string>): (r: seq<string>)
    ensures forall n :: n in r <==> n in required && n !in detectable
  {
    if required == [] then []
    else
      var n := |required| - 1;
      Undetectable(required[..n], detectable) + if required[n] in detectable then [] else [required[n]]
  }

  /**
   * `getLibraryInformation`. When detectable references are among the required ones it returns
   * exactly if the user's libraries resolve, agree with the detected addresses and complete them; it
   * then knows exactly the required libraries, with the detected address where there is one.
   */
  method GetLibraryInformation(q: Request) returns (r: Result<(Addresses, seq<string>), LibraryError>)
    requires q.Proper()
    ensures q.DetectsRequired() ==>
              (r.Ok? <==> q.UsersResolve() && q.Referenced() && q.Consistent() && q.Complete())
    ensures q.DetectsRequired() && r.Ok? ==>
              && (forall s, l :: Known(r.value.0, s, l) <==> Known(q.required, s, l))
              && (forall s, l :: Known(q.detectable, s, l) ==> ValueOf(r.value.0, s, l) == q.DetectedAddress(s, l))
              && (forall s, l, a :: Known(q.detectable, s, l) && StandsAt(q.code, ValueOf(q.detectable, s, l), a) ==>
                    ValueOf(r.value.0, s, l) == "0x" + a)
              && (forall i, s, l :: q.Gives(i, s, l) && !Known(q.detectable, s, l) ==>
                    ValueOf(r.value.0, s, l) == q.users[i].1)
    ensures r.Ok? ==> forall n :: n in r.value.1 <==>
              exists s, l :: Known(q.required, s, l) && !Known(q.detectable, s, l) && n == FullName(s, l)
    ensures q.DetectsRequired() ==>
              (r.Err? && r.error.MissingLibraries? <==>
                q.UsersResolve() && q.Referenced() && q.Consistent() && !q.Complete())
  {
    hide Known, ValueOf, IsMatch, ProperLibraries, ToLower, AddressAt, Resolvable, Normalized, LookupLibrary;
    var allLibraries := GetLibraryFQNames(q.required);
    var detectableLibraries := GetLibraryFQNames(q.detectable);
    var undetectable := Undetectable(allLibraries, detectableLibraries);
    UndetectableNames(q, allLibraries, detectableLibraries, undetectable);
    ListsAreWellNamed(q, allLibraries);
    ResolvableIff(q, allLibraries);
    var normalization := NormalizeLibraries(allLibraries, q.users, q.isAddress);
    if normalization.Err? {
      return Err(normalization.error);
    }
    var normalized := normalization.value;
    ghost var found :| Resolution(allLibraries, q.users, found) && Normalized(found, q.users, normalized);
    forall s, l
      ensures Known(normalized, s, l) <==> exists i :: q.Gives(i, s, l)
      ensures forall i :: q.Gives(i, s, l) ==> Known(normalized, s, l) && ValueOf(normalized, s, l) == q.users[i].1
    {
      NormalizedGives(q, allLibraries, found, normalized, s, l);
    }
    var addresses := GetLibraryAddressesFromBytecode(q.detectable, q.code);
    if addresses.None? {
      return Err(NoLinkReference);
    }
    var detected := addresses.value;
    AgreeIffConsistent(q, normalized, detected);
    NormalizedProper(found, q.users, normalized);
    var merge := MergeLibraries(normalized, detected);
    if merge.Err? {
      return Err(merge.error);
    }
    var merged := merge.value;
    var mergedNames := GetLibraryFQNames(merged);
    if q.DetectsRequired() {
      MergedColonFree(q, merged);
      LengthCheckIsComplete(q, allLibraries, mergedNames, merged);
    }
    if |mergedNames| < |allLibraries| {
      return Err(MissingLibraries(allLibraries, mergedNames));
    }
    forall offsets, a | StandsAt(q.code, offsets, a) ensures AddressAt(q.code, offsets) == "0x" + a {
      AddressIs(q.code, offsets, a);
    }
    return Ok((merged, undetectable));
  }

  lemma NormalizedProper(found: seq<string>, users: Record<string>, normalized: Addresses)
    requires |found| <= |users| && Normalized(found, users, normalized)
    ensures ProperLibraries(normalized)
  {
  }

  lemma MergedColonFree(q: Request, merged: Addresses)
    requires q.Proper() && q.DetectsRequired()
    requires forall s, l :: Known(merged, s, l) ==> (exists i :: q.Gives(i, s, l)) || Known(q.detectable, s, l)
    ensures AllColonFree(merged)
  {
  }

  lemma ListsAreWellNamed(q: Request, names: seq<string>)
    requires q.Proper() && forall n :: n in names <==> exists s, l :: Known(q.required, s, l) && n == FullName(s, l)
    ensures WellNamed(names)
  {
  }

  lemma UndetectableNames(q: Request, required: seq<string>, detectable: seq<string>, undetectable: seq<string>)
    requires q.Proper() && Lists(required, q.required) && Lists(detectable, q.detectable)
    requires forall n :: n in undetectable <==> n in required && n !in detectable
    ensures forall n :: n in undetectable <==>
              exists s, l :: Known(q.required, s, l) && !Known(q.detectable, s, l) && n == FullName(s, l)
  {
    hide Known;
    forall n
      ensures n in undetectable <==>
        exists s, l :: Known(q.required, s, l) && !Known(q.detectable, s, l) && n == FullName(s, l)
    {
      if n in required {
        var s, l :| Known(q.required, s, l) && n == FullName(s, l);
        ListedName(detectable, q.detectable, s, l);
      }
      if s, l :| Known(q.required, s, l) && !Known(q.detectable, s, l) && n == FullName(s, l) {
        ListedName(detectable, q.detectable, s, l);
      }
    }
  }
}
