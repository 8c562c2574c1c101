/** src/pages/receipts/receipt_section.tsx, lines 13-26: the receipts of a
    section are sorted by first output, then folded into an object that
    maps each first-output item key to the receipts producing it, in the
    order the keys were first met. The accumulator is a `map` of sequences
    plus the key-creation order that `Object.entries` later reads. */
module ReceiptSection {
  import opened Results
  import opened Receipts
  import opened Sequences
  import opened Sorting
  import opened ReceiptSort

  /** Properties an empty object literal inherits from `Object.prototype`.
      For such a key `!acc[outputKey]` is false, no array is created, and
      `acc[outputKey].push` is not a function: a TypeError. */
  const InheritedNames: set<string> := {
    "constructor", "hasOwnProperty", "isPrototypeOf", "propertyIsEnumerable",
    "toLocaleString", "toString", "valueOf", "__proto__",
    "__defineGetter__", "__defineSetter__", "__lookupGetter__", "__lookupSetter__"
  }

  /** The fold can process this receipt without throwing, on an
      accumulator that inherits the properties `inherited`. */
  predicate Groupable(r: Receipt, inherited: set<string>) {
    r.outputs != [] && r.outputs[0].item !in inherited
  }

  /** The receipts of `s` whose first output is `k`, in their order in `s`. */
  function Bucket(s: seq<Receipt>, k: string): (b: seq<Receipt>)
    ensures |b| <= |s|
  {
    if s == [] then []
    else Bucket(s[..|s| - 1], k) + (if FirstOutputItem(s[|s| - 1]) == k then [s[|s| - 1]] else [])
  }

  /** A group holds receipts of `s` with key `k` only, and it is empty
      exactly when no receipt has that key. */
  lemma {:induction false} BucketMembers(s: seq<Receipt>, k: string)
    ensures forall i :: 0 <= i < |Bucket(s, k)| ==> Bucket(s, k)[i] in s && FirstOutputItem(Bucket(s, k)[i]) == k
    ensures |Bucket(s, k)| > 0 <==> k in FirstOutputItems(s)
  {
    if s != [] {
      var p := s[..|s| - 1];
      var x := s[|s| - 1];
      assert s == p + [x];
      BucketMembers(p, k);
      BucketSnoc(p, x, k);
      FirstOutputItemsSnoc(p, x);
      var b, bp := Bucket(s, k), Bucket(p, k);
      forall i | 0 <= i < |b| ensures b[i] in s && FirstOutputItem(b[i]) == k {
        if i < |bp| {
          assert b[i] == bp[i] && bp[i] in p;
        }
      }
    }
  }

  lemma BucketSnoc(p: seq<Receipt>, x: Receipt, k: string)
    ensures Bucket(p + [x], k) == Bucket(p, k) + (if FirstOutputItem(x) == k then [x] else [])
  {
    assert (p + [x])[..|p + [x]| - 1] == p;
  }

  /** The groups listed for keys `ks`, one after the other. */
  function Concat(s: seq<Receipt>, ks: seq<string>): seq<Receipt> {
    if ks == [] then [] else Concat(s, ks[..|ks| - 1]) + Bucket(s, ks[|ks| - 1])
  }

  /** The accumulator after folding `s`: one entry per key met, holding the
      receipts with that key in the order they were met. */
  function GroupsOf(s: seq<Receipt>): map<string, seq<Receipt>> {
    if s == [] then map[]
    else
      var g := GroupsOf(s[..|s| - 1]);
      var k := FirstOutputItem(s[|s| - 1]);
      g[k := (if k in g then g[k] else []) + [s[|s| - 1]]]
  }

  lemma GroupsOfSnoc(p: seq<Receipt>, x: Receipt)
    ensures GroupsOf(p + [x]) == GroupsOf(p)[FirstOutputItem(x) :=
      (if FirstOutputItem(x) in GroupsOf(p) then GroupsOf(p)[FirstOutputItem(x)] else []) + [x]]
  {
    assert (p + [x])[..|p + [x]| - 1] == p;
  }

  /** The fold's entries are exactly the groups: a key has an entry iff some
      receipt has it as first output, and the entry is that key's group. */
  lemma {:induction false} GroupsOfAreBuckets(s: seq<Receipt>, k: string)
    ensures k in GroupsOf(s) <==> k in FirstOutputItems(s)
    ensures k in GroupsOf(s) ==> GroupsOf(s)[k] == Bucket(s, k)
  {
    if s != [] {
      var p := s[..|s| - 1];
      var x := s[|s| - 1];
      assert s == p + [x];
      GroupsOfAreBuckets(p, k);
      GroupsOfSnoc(p, x);
      BucketSnoc(p, x, k);
      BucketMembers(p, k);
      FirstOutputItemsSnoc(p, x);
    }
  }

  /** The keys of the accumulator after folding `s`, in creation order. */
  function OrderOf(s: seq<Receipt>): seq<string> {
    if s == [] then []
    else
      var p := s[..|s| - 1];
      var k := FirstOutputItem(s[|s| - 1]);
      if k in GroupsOf(p) then OrderOf(p) else OrderOf(p) + [k]
  }

  lemma OrderOfSnoc(p: seq<Receipt>, x: Receipt)
    ensures OrderOf(p + [x])
         == if FirstOutputItem(x) in GroupsOf(p) then OrderOf(p) else OrderOf(p) + [FirstOutputItem(x)]
  {
    assert (p + [x])[..|p + [x]| - 1] == p;
  }

  /** The creation order lists each key once, in order of first occurrence. */
  lemma {:induction false} OrderOfIsDistinct(s: seq<Receipt>)
    ensures OrderOf(s) == Distinct(FirstOutputItems(s))
  {
    if s != [] {
      var p := s[..|s| - 1];
      var x := s[|s| - 1];
      assert s == p + [x];
      OrderOfIsDistinct(p);
      OrderOfSnoc(p, x);
      FirstOutputItemsSnoc(p, x);
      DistinctSnoc(FirstOutputItems(p), FirstOutputItem(x));
      GroupsOfAreBuckets(p, FirstOutputItem(x));
    }
  }

  /** The whole fold: its order and its entries describe the groups. */
  lemma FoldIsGrouping(s: seq<Receipt>)
    ensures OrderOf(s) == Distinct(FirstOutputItems(s))
    ensures forall k :: k in GroupsOf(s) <==> k in FirstOutputItems(s)
    ensures forall k :: k in GroupsOf(s) ==> GroupsOf(s)[k] == Bucket(s, k)
  {
    OrderOfIsDistinct(s);
    forall k ensures (k in GroupsOf(s) <==> k in FirstOutputItems(s))
                  && (k in GroupsOf(s) ==> GroupsOf(s)[k] == Bucket(s, k)) {
      GroupsOfAreBuckets(s, k);
    }
  }

  /** Folding one more receipt of `s`. */
  lemma FoldStep(s: seq<Receipt>, i: nat)
    requires i < |s|
    ensures GroupsOf(s[..i + 1]) == GroupsOf(s[..i])[FirstOutputItem(s[i]) :=
      (if FirstOutputItem(s[i]) in GroupsOf(s[..i]) then GroupsOf(s[..i])[FirstOutputItem(s[i])] else []) + [s[i]]]
    ensures OrderOf(s[..i + 1])
         == if FirstOutputItem(s[i]) in GroupsOf(s[..i]) then OrderOf(s[..i]) else OrderOf(s[..i]) + [FirstOutputItem(s[i])]
  {
    assert s[..i + 1][..i] == s[..i];
  }

  datatype Grouping = Grouping(order: seq<string>, groups: map<string, seq<Receipt>>)

  /** The TypeError that ends the grouping: the one the sort's comparator
      throws on a receipt without outputs, or the one the fold throws at
      receipt `index` of the sorted list. */
  datatype GroupError = SortFailed | TypeErrorAt(index: nat)

  /** The `reduce` over the sorted receipts. It stops with a TypeError at the
      first receipt that has no outputs or whose key is inherited; otherwise
      it creates a group the first time a key is met and appends each
      receipt to its key's group. The accumulator's inherited property
      names are a parameter; the page's `{}` inherits `InheritedNames`. */
  method GroupByFirstOutput(sorted: seq<Receipt>, inherited: set<string>) returns (r: Result<Grouping, GroupError>)
    ensures r.Failure? <==> exists i :: 0 <= i < |sorted| && !Groupable(sorted[i], inherited)
    ensures r.Failure? ==> r.error.TypeErrorAt? && r.error.index < |sorted| && !Groupable(sorted[r.error.index], inherited)
    ensures r.Failure? ==> r.error.TypeErrorAt? && forall j :: 0 <= j < r.error.index ==> Groupable(sorted[j], inherited)
    ensures r.Success? ==> r.value.order == Distinct(FirstOutputItems(sorted))
    ensures r.Success? ==> forall k :: k in r.value.groups <==> k in FirstOutputItems(sorted)
    ensures r.Success? ==> forall k :: k in r.value.groups ==> r.value.groups[k] == Bucket(sorted, k)
  {
    var acc: map<string, seq<Receipt>> := map[];
    var order: seq<string> := [];
    var i := 0;
    while i < |sorted|
      invariant 0 <= i <= |sorted|
      invariant forall j :: 0 <= j < i ==> Groupable(sorted[j], inherited)
      invariant order == OrderOf(sorted[..i])
      invariant acc == GroupsOf(sorted[..i])
    {
      var receipt := sorted[i];
      if receipt.outputs == [] || receipt.outputs[0].item in inherited {
        return Failure(TypeErrorAt(i));
      }
      var outputKey := receipt.outputs[0].item;
      FoldStep(sorted, i);
      // Creating the missing array and pushing onto it are one map update.
      if outputKey !in acc {
        order := order + [outputKey];
      }
      var group := if outputKey in acc then acc[outputKey] else [];
      acc := acc[outputKey := group + [receipt]];
      i := i + 1;
    }
    assert sorted[..i] == sorted;
    FoldIsGrouping(sorted);
    return Success(Grouping(order, acc));
  }

  /** Lines 13-26 together: sort the section's receipts, then group them.
      Either step's TypeError ends it. A group lists the receipts of its
      key in the order they were given in, since the sort is stable. */
  method GroupReceipts(cmp: (string, string) -> int, recipes: seq<Receipt>)
    returns (r: Result<Grouping, GroupError>)
    requires ConsistentComparator(cmp)
    ensures r.Failure? <==> exists i :: 0 <= i < |recipes| && !Groupable(recipes[i], InheritedNames)
    ensures r == Failure(SortFailed) <==> SortReceiptsByOutput(cmp, recipes).Failure?
    ensures r.Success? ==> SortReceiptsByOutput(cmp, recipes).Success?
    ensures r.Success? ==>
      r.value.order == Distinct(FirstOutputItems(SortReceiptsByOutput(cmp, recipes).value))
    ensures r.Success? ==> forall k :: k in r.value.groups <==> k in FirstOutputItems(recipes)
    ensures r.Success? ==>
      forall k :: k in r.value.groups ==> r.value.groups[k] == Bucket(recipes, k)
  {
    var sorted := SortReceiptsByOutput(cmp, recipes);
    if sorted.Failure? {
      assert exists i :: 0 <= i < |recipes| && recipes[i].outputs == [];
      return Failure(SortFailed);
    }
    SortedGroupable(recipes, sorted.value, InheritedNames);
    r := GroupByFirstOutput(sorted.value, InheritedNames);
    if r.Success? {
      SameKeys(recipes, sorted.value);
      forall k | k in r.value.groups ensures r.value.groups[k] == Bucket(recipes, k) {
        SortKeepsBuckets(cmp, recipes, k);
      }
    }
  }

  lemma SortedGroupable(recipes: seq<Receipt>, sorted: seq<Receipt>, inherited: set<string>)
    requires multiset(sorted) == multiset(recipes)
    ensures (exists i :: 0 <= i < |recipes| && !Groupable(recipes[i], inherited))
        <==> (exists i :: 0 <= i < |sorted| && !Groupable(sorted[i], inherited))
  {
    if i :| 0 <= i < |recipes| && !Groupable(recipes[i], inherited) {
      assert recipes[i] in multiset(sorted);
      var j :| 0 <= j < |sorted| && sorted[j] == recipes[i];
    }
    if i :| 0 <= i < |sorted| && !Groupable(sorted[i], inherited) {
      assert sorted[i] in multiset(recipes);
      var j :| 0 <= j < |recipes| && recipes[j] == sorted[i];
    }
  }

  lemma SameKeys(recipes: seq<Receipt>, sorted: seq<Receipt>)
    requires multiset(sorted) == multiset(recipes)
    ensures forall k :: k in FirstOutputItems(recipes) <==> k in FirstOutputItems(sorted)
  {
    forall k ensures k in FirstOutputItems(recipes) ==> k in FirstOutputItems(sorted) {
      if k in FirstOutputItems(recipes) {
        var i :| 0 <= i < |recipes| && FirstOutputItems(recipes)[i] == k;
        assert recipes[i] in multiset(sorted);
        var j :| 0 <= j < |sorted| && sorted[j] == recipes[i];
        assert FirstOutputItems(sorted)[j] == k;
      }
    }
    forall k ensures k in FirstOutputItems(sorted) ==> k in FirstOutputItems(recipes) {
      if k in FirstOutputItems(sorted) {
        var i :| 0 <= i < |sorted| && FirstOutputItems(sorted)[i] == k;
        assert sorted[i] in multiset(recipes);
        var j :| 0 <= j < |recipes| && recipes[j] == sorted[i];
        assert FirstOutputItems(recipes)[j] == k;
      }
    }
  }

  /** Grouping is a homomorphism of concatenation: a group keeps the order
      its receipts had. */
  lemma {:induction false} BucketAppend(a: seq<Receipt>, b: seq<Receipt>, k: string)
    ensures Bucket(a + b, k) == Bucket(a, k) + Bucket(b, k)
  {
    if b != [] {
      var init := b[..|b| - 1];
      assert (a + b)[..|a + b| - 1] == a + init;
      assert (a + b)[|a + b| - 1] == b[|b| - 1];
      BucketAppend(a, init, k);
    } else {
      assert a + b == a;
    }
  }

  lemma BucketSingleton(x: Receipt, k: string)
    ensures Bucket([x], k) == if FirstOutputItem(x) == k then [x] else []
  {
    assert [x][..0] == [];
  }

  /** Two receipts compare equal exactly when their keys are equal. */
  lemma EquivalentIffSameKey(cmp: (string, string) -> int, a: Receipt, b: Receipt)
    requires ConsistentComparator(cmp) && DistinguishesKeys(cmp)
    ensures Equivalent(ByFirstOutput(cmp), a, b) <==> FirstOutputItem(a) == FirstOutputItem(b)
  {
    var ka := FirstOutputItem(a);
    assert cmp(ka, ka) <= 0 || cmp(ka, ka) <= 0;
  }

  /** When only equal keys compare equal, the receipts comparing equal to
      `x` are exactly the group of `x`'s key. */
  lemma {:induction false} EquivalentsAreBucket(cmp: (string, string) -> int, s: seq<Receipt>, x: Receipt)
    requires ConsistentComparator(cmp) && DistinguishesKeys(cmp)
    ensures Equivalents(s, ByFirstOutput(cmp), x) == Bucket(s, FirstOutputItem(x))
  {
    if s != [] {
      EquivalentsAreBucket(cmp, s[1..], x);
      assert [s[0]] + s[1..] == s;
      BucketAppend([s[0]], s[1..], FirstOutputItem(x));
      BucketSingleton(s[0], FirstOutputItem(x));
      EquivalentIffSameKey(cmp, s[0], x);
    }
  }

  /** Whatever else compares equal to `x`, the receipts with `x`'s own key
      all do: picking them out of `Equivalents` picks them out of `s`. */
  lemma {:induction false} BucketOfEquivalents(cmp: (string, string) -> int, s: seq<Receipt>, x: Receipt)
    requires ConsistentComparator(cmp)
    ensures Bucket(Equivalents(s, ByFirstOutput(cmp), x), FirstOutputItem(x)) == Bucket(s, FirstOutputItem(x))
  {
    if s != [] {
      var k, e := FirstOutputItem(x), Equivalents(s[1..], ByFirstOutput(cmp), x);
      var head := if Equivalent(ByFirstOutput(cmp), s[0], x) then [s[0]] else [];
      BucketOfEquivalents(cmp, s[1..], x);
      assert [s[0]] + s[1..] == s;
      BucketAppend([s[0]], s[1..], k);
      BucketAppend(head, e, k);
      BucketSingleton(s[0], k);
      if FirstOutputItem(s[0]) == k {
        assert cmp(k, k) <= 0 || cmp(k, k) <= 0;
        assert head == [s[0]];
      } else if head != [] {
        assert head == [s[0]];
      }
    }
  }

  /** Sorting a section leaves every group as it was: by stability, the
      receipts comparing equal to one of key `k` keep their input order,
      and those with key `k` are among them. */
  lemma SortKeepsBuckets(cmp: (string, string) -> int, recipes: seq<Receipt>, k: string)
    requires ConsistentComparator(cmp)
    requires SortReceiptsByOutput(cmp, recipes).Success?
    ensures Bucket(SortReceiptsByOutput(cmp, recipes).value, k) == Bucket(recipes, k)
  {
    var x := Receipt([], [ReceiptItem(k, 0.0)]);
    SortReceiptsIsStable(cmp, recipes, x);
    BucketOfEquivalents(cmp, recipes, x);
    BucketOfEquivalents(cmp, SortReceiptsByOutput(cmp, recipes).value, x);
  }

  lemma {:induction false} ConcatSnocOther(p: seq<Receipt>, x: Receipt, ks: seq<string>)
    requires FirstOutputItem(x) !in ks
    ensures Concat(p + [x], ks) == Concat(p, ks)
  {
    if ks != [] {
      ConcatSnocOther(p, x, ks[..|ks| - 1]);
      assert (p + [x])[..|p + [x]| - 1] == p;
    }
  }

  lemma {:induction false} ConcatSnocCount(p: seq<Receipt>, x: Receipt, ks: seq<string>)
    requires NoDuplicates(ks)
    ensures multiset(Concat(p + [x], ks))
         == multiset(Concat(p, ks)) + (if FirstOutputItem(x) in ks then multiset{x} else multiset{})
  {
    if ks != [] {
      var init := ks[..|ks| - 1];
      var last := ks[|ks| - 1];
      assert ks == init + [last];
      ConcatSnocCount(p, x, init);
      assert (p + [x])[..|p + [x]| - 1] == p;
      assert FirstOutputItem(x) in ks <==> FirstOutputItem(x) in init || FirstOutputItem(x) == last;
      assert last !in init;
    }
  }

  /** Every receipt lands in exactly one group: listing the groups one after
      the other gives a permutation of the input, so the group sizes sum to
      its length. */
  lemma {:induction false} GroupsPartition(s: seq<Receipt>)
    ensures multiset(Concat(s, Distinct(FirstOutputItems(s)))) == multiset(s)
  {
    if s != [] {
      var p := s[..|s| - 1];
      var x := s[|s| - 1];
      assert s == p + [x];
      var k, d := FirstOutputItem(x), Distinct(FirstOutputItems(p));
      GroupsPartition(p);
      FirstOutputItemsSnoc(p, x);
      DistinctSnoc(FirstOutputItems(p), k);
      ConcatSnocCount(p, x, d);
      if k in FirstOutputItems(p) {
        assert Distinct(FirstOutputItems(s)) == d;
        assert multiset(Concat(s, d)) == multiset(p) + multiset{x};
      } else {
        assert Distinct(FirstOutputItems(s)) == d + [k];
        assert (d + [k])[..|d|] == d;
        assert Concat(s, d + [k]) == Concat(s, d) + Bucket(s, k);
        BucketMembers(p, k);
        BucketSnoc(p, x, k);
        assert Bucket(s, k) == [x];
        assert multiset(Concat(s, d)) == multiset(p);
      }
    }
  }

  /** Equal keys stand next to each other. */
  ghost predicate KeysContiguous(s: seq<Receipt>) {
    forall i, j, l :: 0 <= i < j < l < |s| && FirstOutputItem(s[i]) == FirstOutputItem(s[l])
      ==> FirstOutputItem(s[j]) == FirstOutputItem(s[i])
  }

  lemma SortedIsContiguous(cmp: (string, string) -> int, s: seq<Receipt>)
    requires ConsistentComparator(cmp) && DistinguishesKeys(cmp)
    requires Sorted(s, ByFirstOutput(cmp))
    ensures KeysContiguous(s)
  {
    forall i, j, l | 0 <= i < j < l < |s| && FirstOutputItem(s[i]) == FirstOutputItem(s[l])
      ensures FirstOutputItem(s[j]) == FirstOutputItem(s[i])
    {
      assert ByFirstOutput(cmp)(s[i], s[j]) && ByFirstOutput(cmp)(s[j], s[l]);
    }
  }

  lemma ContiguousPrefix(s: seq<Receipt>, n: nat)
    requires n <= |s| && KeysContiguous(s)
    ensures KeysContiguous(s[..n])
  {
    assert forall i :: 0 <= i < n ==> s[..n][i] == s[i];
  }

  /** With contiguous keys, a key seen before in the list is the last one. */
  lemma RepeatedKeyIsLast(p: seq<Receipt>, x: Receipt)
    requires KeysContiguous(p + [x]) && FirstOutputItem(x) in FirstOutputItems(p)
    ensures p != [] && FirstOutputItem(p[|p| - 1]) == FirstOutputItem(x)
  {
    var s := p + [x];
    var i :| 0 <= i < |p| && FirstOutputItems(p)[i] == FirstOutputItem(x);
    if i < |p| - 1 {
      assert FirstOutputItem(s[i]) == FirstOutputItem(s[|p|]);
      assert FirstOutputItem(s[|p| - 1]) == FirstOutputItem(s[i]);
    }
  }

  /** The key of a receipt appended to `q` is the last of the keys in
      creation order, when it is new or repeats `q`'s last key, which is
      last in `q`'s creation order. */
  lemma LastGroupSnoc(q: seq<Receipt>, y: Receipt)
    requires FirstOutputItem(y) in FirstOutputItems(q) ==>
      q != [] && FirstOutputItem(q[|q| - 1]) == FirstOutputItem(y)
      && Distinct(FirstOutputItems(q)) != []
      && Distinct(FirstOutputItems(q))[|Distinct(FirstOutputItems(q))| - 1] == FirstOutputItem(y)
    ensures var d := Distinct(FirstOutputItems(q + [y]));
      d != [] && d[|d| - 1] == FirstOutputItem(y)
  {
    FirstOutputItemsSnoc(q, y);
    DistinctSnocLast(FirstOutputItems(q), FirstOutputItem(y));
  }

  /** With contiguous keys, the last group created is the last receipt's. */
  lemma {:induction false} LastGroupIsLastKey(p: seq<Receipt>)
    requires p != [] && KeysContiguous(p)
    ensures Distinct(FirstOutputItems(p)) != []
    ensures Distinct(FirstOutputItems(p))[|Distinct(FirstOutputItems(p))| - 1] == FirstOutputItem(p[|p| - 1])
  {
    var q := p[..|p| - 1];
    var y := p[|p| - 1];
    assert p == q + [y];
    if FirstOutputItem(y) in FirstOutputItems(q) {
      RepeatedKeyIsLast(q, y);
      ContiguousPrefix(p, |q|);
      LastGroupIsLastKey(q);
    }
    LastGroupSnoc(q, y);
  }

  /** Appending a receipt whose key is the last group's extends that group. */
  lemma {:induction false} ConcatSnocLast(p: seq<Receipt>, x: Receipt, ks: seq<string>)
    requires ks != [] && ks[|ks| - 1] == FirstOutputItem(x) && FirstOutputItem(x) !in ks[..|ks| - 1]
    ensures Concat(p + [x], ks) == Concat(p, ks) + [x]
  {
    var init, k := ks[..|ks| - 1], FirstOutputItem(x);
    ConcatSnocOther(p, x, init);
    BucketSnoc(p, x, k);
    assert Concat(p + [x], ks) == Concat(p + [x], init) + Bucket(p + [x], k);
    assert Concat(p, ks) == Concat(p, init) + Bucket(p, k);
  }

  lemma ConcatOfSnocKey(s: seq<Receipt>, ks: seq<string>, k: string)
    ensures Concat(s, ks + [k]) == Concat(s, ks) + Bucket(s, k)
  {
    assert (ks + [k])[..|ks|] == ks;
  }

  /** Appending a receipt with a new key adds a group holding just it. */
  lemma ConcatSnocNew(p: seq<Receipt>, x: Receipt, ks: seq<string>)
    requires FirstOutputItem(x) !in ks && FirstOutputItem(x) !in FirstOutputItems(p)
    ensures Concat(p + [x], ks + [FirstOutputItem(x)]) == Concat(p, ks) + [x]
  {
    var k := FirstOutputItem(x);
    ConcatSnocOther(p, x, ks);
    BucketSnoc(p, x, k);
    BucketMembers(p, k);
    assert Bucket(p, k) == [];
    assert Bucket(p + [x], k) == [x];
    ConcatOfSnocKey(p + [x], ks, k);
  }

  /** With contiguous keys (in particular, for a list sorted by a comparison
      that tells distinct keys apart), the groups in key-creation order
      concatenate back to the list. */
  lemma {:induction false} GroupsConcatenateToInput(s: seq<Receipt>)
    requires KeysContiguous(s)
    ensures Concat(s, Distinct(FirstOutputItems(s))) == s
  {
    if s != [] {
      var p := s[..|s| - 1];
      var x := s[|s| - 1];
      var kx := FirstOutputItem(x);
      assert s == p + [x];
      ContiguousPrefix(s, |p|);
      GroupsConcatenateToInput(p);
      FirstOutputItemsSnoc(p, x);
      DistinctSnoc(FirstOutputItems(p), kx);
      var d := Distinct(FirstOutputItems(p));
      if kx in FirstOutputItems(p) {
        RepeatedKeyIsLast(p, x);
        LastGroupIsLastKey(p);
        assert kx !in d[..|d| - 1] by {
          assert NoDuplicates(d);
        }
        ConcatSnocLast(p, x, d);
      } else {
        ConcatSnocNew(p, x, d);
      }
    }
  }

  /** For a section sorted by a comparison that tells keys apart, listing the
      groups in key-creation order gives back the sorted list. */
  lemma GroupsRebuildSortedList(cmp: (string, string) -> int, recipes: seq<Receipt>)
    requires ConsistentComparator(cmp) && DistinguishesKeys(cmp)
    requires SortReceiptsByOutput(cmp, recipes).Success?
    ensures var sorted := SortReceiptsByOutput(cmp, recipes).value;
      Concat(sorted, Distinct(FirstOutputItems(sorted))) == sorted
  {
    var sorted := SortReceiptsByOutput(cmp, recipes).value;
    SortedIsContiguous(cmp, sorted);
    GroupsConcatenateToInput(sorted);
  }
}
