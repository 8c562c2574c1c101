/** src/data/receipts/sort.ts: `sortReceiptsByOutput` copies the receipt
    array and sorts the copy by the first output's item key, compared with
    `localeCompare`. Locale collation is not modelled: the comparison is a
    parameter `cmp`, of which only what a sort needs is assumed. The
    caller's list is a value here, so it cannot be changed by the call. */
module ReceiptSort {
  import opened Results
  import opened Receipts
  import opened Sorting
  import opened JsStrings

  /** What the sort relies on of `localeCompare`: a negative, zero or
      positive number that orders every two keys, transitively. */
  ghost predicate ConsistentComparator(cmp: (string, string) -> int) {
    && (forall a, b :: cmp(a, b) <= 0 || cmp(b, a) <= 0)
    && (forall a, b, c :: cmp(a, b) <= 0 && cmp(b, c) <= 0 ==> cmp(a, c) <= 0)
  }

  /** Only equal keys compare equal (true of code-unit order, not of every
      locale collation). */
  ghost predicate DistinguishesKeys(cmp: (string, string) -> int) {
    forall a, b :: cmp(a, b) <= 0 && cmp(b, a) <= 0 ==> a == b
  }

  /** The comparator `(a, b) => a.outputs[0].item.localeCompare(b.outputs[0].item)`,
      as "a may come before b". */
  function ByFirstOutput(cmp: (string, string) -> int): (Receipt, Receipt) -> bool {
    (a: Receipt, b: Receipt) => cmp(FirstOutputItem(a), FirstOutputItem(b)) <= 0
  }

  lemma ByFirstOutputIsPreorder(cmp: (string, string) -> int)
    requires ConsistentComparator(cmp)
    ensures TotalPreorder(ByFirstOutput(cmp))
  {
  }

  predicate AllHaveOutputs(receipts: seq<Receipt>) {
    forall i :: 0 <= i < |receipts| ==> receipts[i].outputs != []
  }

  /** The TypeError raised when the comparator reads `outputs[0].item` of a
      receipt without outputs. */
  datatype SortError = OutputMissing

  /** `sortReceiptsByOutput(receipts)`. With fewer than two receipts the sort
      never calls the comparator, so the copy is returned as it is. With two
      or more it compares every receipt at least once, and a receipt without
      outputs makes it throw. */
  function SortReceiptsByOutput(cmp: (string, string) -> int, receipts: seq<Receipt>)
    : (r: Result<seq<Receipt>, SortError>)
    requires ConsistentComparator(cmp)
    ensures r.Success? <==> |receipts| <= 1 || AllHaveOutputs(receipts)
    ensures r.Success? ==> |r.value| == |receipts|
    ensures r.Success? ==> multiset(r.value) == multiset(receipts)
    ensures r.Success? ==> Sorted(r.value, ByFirstOutput(cmp))
    ensures |receipts| <= 1 ==> r == Success(receipts)
  {
    ByFirstOutputIsPreorder(cmp);
    SortBySpec(receipts, ByFirstOutput(cmp));
    if |receipts| <= 1 then Success(receipts)
    else if AllHaveOutputs(receipts) then Success(SortBy(receipts, ByFirstOutput(cmp)))
    else Failure(OutputMissing)
  }

  /** Receipts whose first outputs compare equal keep their input order. */
  lemma SortReceiptsIsStable(cmp: (string, string) -> int, receipts: seq<Receipt>, x: Receipt)
    requires ConsistentComparator(cmp)
    requires SortReceiptsByOutput(cmp, receipts).Success?
    ensures Equivalents(SortReceiptsByOutput(cmp, receipts).value, ByFirstOutput(cmp), x)
         == Equivalents(receipts, ByFirstOutput(cmp), x)
  {
    ByFirstOutputIsPreorder(cmp);
    if |receipts| > 1 {
      SortByIsStable(receipts, ByFirstOutput(cmp), x);
    }
  }

  /** Sorting the sorted list again gives it back unchanged. */
  lemma SortReceiptsIdempotent(cmp: (string, string) -> int, receipts: seq<Receipt>)
    requires ConsistentComparator(cmp)
    requires SortReceiptsByOutput(cmp, receipts).Success?
    ensures SortReceiptsByOutput(cmp, SortReceiptsByOutput(cmp, receipts).value)
         == SortReceiptsByOutput(cmp, receipts)
  {
    ByFirstOutputIsPreorder(cmp);
    var sorted := SortReceiptsByOutput(cmp, receipts).value;
    if |receipts| > 1 {
      assert AllHaveOutputs(sorted) by {
        forall i | 0 <= i < |sorted| ensures sorted[i].outputs != [] {
          assert sorted[i] in multiset(receipts);
        }
      }
      SortBySortedIsIdentity(sorted, ByFirstOutput(cmp));
    }
  }

  /** Code-point order (the order of `LexLeq` on Dafny characters) as a
      comparator: a stand-in for `localeCompare` that meets both
      requirements above. */
  function CodePointCompare(a: string, b: string): int {
    if a == b then 0 else if LexLeq(a, b) then -1 else 1
  }

  lemma CodePointCompareIsConsistent()
    ensures ConsistentComparator(CodePointCompare)
    ensures DistinguishesKeys(CodePointCompare)
  {
    forall a, b ensures CodePointCompare(a, b) <= 0 <==> LexLeq(a, b) {
      if a == b { LexLeqTotal(a, a); }
    }
    forall a, b ensures CodePointCompare(a, b) <= 0 || CodePointCompare(b, a) <= 0 {
      LexLeqTotal(a, b);
    }
    forall a, b, c | CodePointCompare(a, b) <= 0 && CodePointCompare(b, c) <= 0
      ensures CodePointCompare(a, c) <= 0
    {
      LexLeqTransitive(a, b, c);
    }
    forall a, b | CodePointCompare(a, b) <= 0 && CodePointCompare(b, a) <= 0 ensures a == b {
      LexLeqAntisymmetric(a, b);
    }
  }
}
