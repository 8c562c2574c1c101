/** Sequence helpers shared by the models: the insertion-ordered distinct
    elements of a sequence, which is what iterating a JavaScript `Set` built
    from that sequence yields. */
module Sequences {

  ghost predicate NoDuplicates<T>(s: seq<T>) {
    forall i, j :: 0 <= i < j < |s| ==> s[i] != s[j]
  }

  /** The elements of `s`, each once, in order of first occurrence. */
  function Distinct<T(==, !new)>(s: seq<T>): (r: seq<T>)
    ensures forall x :: x in r <==> x in s
    ensures NoDuplicates(r)
    ensures |r| <= |s|
  {
    if s == [] then []
    else
      var init := s[..|s| - 1];
      assert s == init + [s[|s| - 1]];
      var d := Distinct(init);
      if s[|s| - 1] in d then d else d + [s[|s| - 1]]
  }

  /** An element appended to `s` is the last of `Distinct`, when it is new
      or already the last of `Distinct(s)`. */
  lemma DistinctSnocLast<T(!new)>(s: seq<T>, x: T)
    requires x in s ==> Distinct(s) != [] && Distinct(s)[|Distinct(s)| - 1] == x
    ensures Distinct(s + [x]) != [] && Distinct(s + [x])[|Distinct(s + [x])| - 1] == x
  {
    DistinctSnoc(s, x);
  }

  /** A repeated element adds nothing; a new one is appended. */
  lemma DistinctSnoc<T(!new)>(s: seq<T>, x: T)
    ensures Distinct(s + [x]) == if x in s then Distinct(s) else Distinct(s) + [x]
  {
    assert (s + [x])[..|s + [x]| - 1] == s;
  }
}
