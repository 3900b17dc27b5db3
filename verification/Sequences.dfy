/** Sequences without repetition. */
module Sequences {
  predicate NoDuplicates<T(==)>(s: seq<T>) {
    forall i, j :: 0 <= i < j < |s| ==> s[i] != s[j]
  }

  lemma AppendDistinct<T>(s: seq<T>, x: T)
    ensures NoDuplicates<T>([])
    ensures NoDuplicates(s + [x]) <==> NoDuplicates(s) && x !in s
  {
    var r := s + [x];
    assert forall i :: 0 <= i < |s| ==> r[i] == s[i];
    assert NoDuplicates(r) ==> forall i :: 0 <= i < |s| ==> r[i] != r[|s|];
  }
}
