/** A JavaScript object used as a dictionary, seen through `Object.entries`:
    its key-value pairs in iteration order, every key once. */
module Records {
  import opened Results

  type Entries<V> = seq<(string, V)>

  /** `Object.keys`. */
  function Keys<V>(e: Entries<V>): (ks: seq<string>)
    ensures |ks| == |e|
    ensures forall i :: 0 <= i < |e| ==> ks[i] == e[i].0
  {
    seq(|e|, i requires 0 <= i < |e| => e[i].0)
  }

  /** What every object's entries satisfy: no key occurs twice. */
  ghost predicate UniqueKeys<V>(e: Entries<V>) {
    forall i, j :: 0 <= i < j < |e| ==> e[i].0 != e[j].0
  }

  /** An own-property lookup, `Object.hasOwn(obj, k) ? obj[k] : undefined`,
      with `None` for `undefined`. It is what `obj[k]` gives for a key that
      `obj` does not inherit from `Object.prototype`; the inherited names are
      dealt with where the code reads them (`ReceiptSection.InheritedNames`). */
  function Get<V>(e: Entries<V>, k: string): Option<V> {
    if e == [] then None
    else if e[0].0 == k then Some(e[0].1)
    else Get(e[1..], k)
  }

  /** An own property is found exactly for the object's own keys. */
  lemma {:induction false} GetFindsKeys<V>(e: Entries<V>, k: string)
    ensures Get(e, k).Some? <==> k in Keys(e)
  {
    if e != [] && e[0].0 != k {
      GetFindsKeys(e[1..], k);
      assert Keys(e) == [e[0].0] + Keys(e[1..]);
    }
  }

  lemma UniqueKeysTail<V>(e: Entries<V>)
    requires e != [] && UniqueKeys(e)
    ensures UniqueKeys(e[1..])
    ensures e[0].0 !in Keys(e[1..])
  {
    assert forall i, j :: 0 <= i < j < |e[1..]| ==> e[1..][i] == e[i + 1] && e[1..][j] == e[j + 1];
  }
}
