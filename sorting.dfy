/** `Array.prototype.sort` on a fresh copy, as ECMAScript specifies it for a
    consistent comparator: the result is a permutation of the input,
    ordered by the comparator, and stable (elements that compare equal keep
    their input order). The comparator is given as `leq(a, b)`, "a may come
    before b", which is `compare(a, b) <= 0`. The model is an insertion
    sort; any stable sort yields the same sequence. */
module Sorting {

  /** What a consistent comparator gives: every two elements are comparable,
      and the order is transitive. Distinct elements may compare equal. */
  ghost predicate TotalPreorder<T(!new)>(leq: (T, T) -> bool) {
    && (forall a, b :: leq(a, b) || leq(b, a))
    && (forall a, b, c :: leq(a, b) && leq(b, c) ==> leq(a, c))
  }

  ghost predicate Sorted<T>(s: seq<T>, leq: (T, T) -> bool) {
    forall i, j :: 0 <= i < j < |s| ==> leq(s[i], s[j])
  }

  /** `a` and `b` compare equal. */
  predicate Equivalent<T>(leq: (T, T) -> bool, a: T, b: T) {
    leq(a, b) && leq(b, a)
  }

  /** The elements of `s` that compare equal to `x`, in their order in `s`. */
  function Equivalents<T>(s: seq<T>, leq: (T, T) -> bool, x: T): seq<T> {
    if s == [] then []
    else (if Equivalent(leq, s[0], x) then [s[0]] else []) + Equivalents(s[1..], leq, x)
  }

  /** Places `x` in front of the first element it may precede. */
  function Insert<T(!new)>(x: T, s: seq<T>, leq: (T, T) -> bool): (r: seq<T>)
    ensures |r| == |s| + 1
    ensures multiset(r) == multiset(s) + multiset{x}
  {
    if s == [] then [x]
    else if leq(x, s[0]) then [x] + s
    else
      assert s == [s[0]] + s[1..];
      [s[0]] + Insert(x, s[1..], leq)
  }

  lemma {:induction false} InsertSorted<T(!new)>(x: T, s: seq<T>, leq: (T, T) -> bool)
    requires TotalPreorder(leq)
    requires Sorted(s, leq)
    ensures Sorted(Insert(x, s, leq), leq)
  {
    if s == [] {
    } else if leq(x, s[0]) {
      assert forall j :: 0 <= j < |s| ==> leq(x, s[j]);
    } else {
      var t := Insert(x, s[1..], leq);
      assert Sorted(s[1..], leq);
      InsertSorted(x, s[1..], leq);
      assert s == [s[0]] + s[1..];
      forall j | 0 <= j < |t| ensures leq(s[0], t[j]) {
        assert t[j] in multiset(t);
        if t[j] != x {
          assert t[j] in multiset(s[1..]);
          var k :| 0 <= k < |s[1..]| && s[1..][k] == t[j];
          assert s[k + 1] == t[j];
        }
      }
    }
  }

  /** The sorted copy of `s`. */
  function SortBy<T(!new)>(s: seq<T>, leq: (T, T) -> bool): (r: seq<T>)
    ensures |r| == |s|
  {
    if s == [] then [] else Insert(s[0], SortBy(s[1..], leq), leq)
  }

  /** The sorted copy is a permutation of `s` in increasing order. */
  lemma {:induction false} SortBySpec<T(!new)>(s: seq<T>, leq: (T, T) -> bool)
    requires TotalPreorder(leq)
    ensures multiset(SortBy(s, leq)) == multiset(s)
    ensures Sorted(SortBy(s, leq), leq)
  {
    if s != [] {
      SortBySpec(s[1..], leq);
      assert s == [s[0]] + s[1..];
      InsertSorted(s[0], SortBy(s[1..], leq), leq);
    }
  }

  /** Inserting `x` keeps the order of the elements that compare equal to
      `y`, and puts `x` before them. */
  lemma {:induction false} InsertEquivalents<T(!new)>(x: T, s: seq<T>, leq: (T, T) -> bool, y: T)
    requires TotalPreorder(leq)
    ensures Equivalents(Insert(x, s, leq), leq, y)
         == (if Equivalent(leq, x, y) then [x] else []) + Equivalents(s, leq, y)
  {
    if s == [] {
    } else if leq(x, s[0]) {
      EquivalentsCons(x, s, leq, y);
    } else {
      var ex: seq<T> := if Equivalent(leq, x, y) then [x] else [];
      InsertEquivalents(x, s[1..], leq, y);
      // s[0] and x cannot both be equivalent to y, since x does not precede s[0].
      assert !(Equivalent(leq, x, y) && Equivalent(leq, s[0], y));
      assert Insert(x, s, leq) == [s[0]] + Insert(x, s[1..], leq);
      assert s == [s[0]] + s[1..];
      EquivalentsBehindHead(s[0], Insert(x, s[1..], leq), s[1..], leq, y, ex);
    }
  }

  /** Elements `ex` that come first among the ones equivalent to `y` still
      do behind a head that is not equivalent to `y` when `ex` is not empty. */
  lemma EquivalentsBehindHead<T>(h: T, t: seq<T>, u: seq<T>, leq: (T, T) -> bool, y: T, ex: seq<T>)
    requires Equivalents(t, leq, y) == ex + Equivalents(u, leq, y)
    requires ex == [] || !Equivalent(leq, h, y)
    ensures Equivalents([h] + t, leq, y) == ex + Equivalents([h] + u, leq, y)
  {
    EquivalentsCons(h, t, leq, y);
    EquivalentsCons(h, u, leq, y);
    if ex == [] {
      assert ex + Equivalents([h] + u, leq, y) == Equivalents([h] + u, leq, y);
      assert Equivalents(t, leq, y) == Equivalents(u, leq, y);
    } else {
      assert Equivalents([h] + t, leq, y) == Equivalents(t, leq, y);
      assert Equivalents([h] + u, leq, y) == Equivalents(u, leq, y);
    }
  }

  lemma EquivalentsCons<T>(h: T, t: seq<T>, leq: (T, T) -> bool, y: T)
    ensures Equivalents([h] + t, leq, y) == (if Equivalent(leq, h, y) then [h] else []) + Equivalents(t, leq, y)
  {
    assert ([h] + t)[1..] == t;
  }

  /** Stability: the sorted copy lists the elements that compare equal to
      `y` in the order they had in `s`. */
  lemma {:induction false} SortByIsStable<T(!new)>(s: seq<T>, leq: (T, T) -> bool, y: T)
    requires TotalPreorder(leq)
    ensures Equivalents(SortBy(s, leq), leq, y) == Equivalents(s, leq, y)
  {
    if s != [] {
      SortByIsStable(s[1..], leq, y);
      InsertEquivalents(s[0], SortBy(s[1..], leq), leq, y);
    }
  }

  /** An already sorted sequence is its own sorted copy. */
  lemma {:induction false} SortBySortedIsIdentity<T(!new)>(s: seq<T>, leq: (T, T) -> bool)
    requires TotalPreorder(leq)
    requires Sorted(s, leq)
    ensures SortBy(s, leq) == s
  {
    if s != [] {
      assert Sorted(s[1..], leq);
      SortBySortedIsIdentity(s[1..], leq);
      assert s == [s[0]] + s[1..];
    }
  }

  /** Sorting twice is sorting once. */
  lemma SortByIdempotent<T(!new)>(s: seq<T>, leq: (T, T) -> bool)
    requires TotalPreorder(leq)
    ensures SortBy(SortBy(s, leq), leq) == SortBy(s, leq)
  {
    SortBySpec(s, leq);
    SortBySortedIsIdentity(SortBy(s, leq), leq);
  }

  /** When no two distinct elements compare equal, merely being sorted and a
      permutation of `s` determines the result: it is strictly increasing. */
  lemma SortByStrict<T(!new)>(s: seq<T>, leq: (T, T) -> bool)
    requires TotalPreorder(leq)
    requires forall a, b :: leq(a, b) && leq(b, a) ==> a == b
    requires forall i, j :: 0 <= i < j < |s| ==> s[i] != s[j]
    ensures forall i, j :: 0 <= i < j < |SortBy(s, leq)| ==> SortBy(s, leq)[i] != SortBy(s, leq)[j]
  {
    var r := SortBy(s, leq);
    SortBySpec(s, leq);
    forall i, j | 0 <= i < j < |r| ensures r[i] != r[j] {
      if r[i] == r[j] {
        DuplicateInMultiset(r, i, j);
        assert multiset(s)[r[i]] >= 2;
        NoDuplicatesCountOne(s, r[i]);
      }
    }
  }

  lemma DuplicateInMultiset<T>(s: seq<T>, i: nat, j: nat)
    requires i < j < |s| && s[i] == s[j]
    ensures multiset(s)[s[i]] >= 2
  {
    assert s == s[..i] + [s[i]] + s[i + 1..j] + [s[j]] + s[j + 1..];
  }

  lemma {:induction false} NoDuplicatesCountOne<T>(s: seq<T>, x: T)
    requires forall i, j :: 0 <= i < j < |s| ==> s[i] != s[j]
    ensures multiset(s)[x] <= 1
  {
    if s != [] {
      var t := s[1..];
      assert s == [s[0]] + t;
      NoDuplicatesCountOne(t, x);
    }
  }
}
