/** The recipe shape of src/data/receipts/type.ts: a receipt consumes
    inputs and produces outputs, each an item key with a rate per minute. */
module Receipts {

  datatype ReceiptItem = ReceiptItem(item: string, perMin: real)

  datatype Receipt = Receipt(inputs: seq<ReceiptItem>, outputs: seq<ReceiptItem>)

  /** `receipt.outputs[0].item`, the key receipts are sorted and grouped by.
      Reading it from a receipt without outputs is a TypeError in the
      source; every caller handles that case before it relies on the key,
      and the empty string here stands for nothing. */
  function FirstOutputItem(r: Receipt): string {
    if r.outputs == [] then "" else r.outputs[0].item
  }

  /** The keys of a receipt list, in list order. */
  function FirstOutputItems(s: seq<Receipt>): (keys: seq<string>)
    ensures |keys| == |s|
    ensures forall i :: 0 <= i < |s| ==> keys[i] == FirstOutputItem(s[i])
  {
    seq(|s|, i requires 0 <= i < |s| => FirstOutputItem(s[i]))
  }

  lemma FirstOutputItemsSnoc(s: seq<Receipt>, x: Receipt)
    ensures FirstOutputItems(s + [x]) == FirstOutputItems(s) + [FirstOutputItem(x)]
  {
    assert forall i :: 0 <= i < |s| ==> (s + [x])[i] == s[i];
  }
}
