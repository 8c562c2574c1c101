/** tests/data/data_integrity.test.ts: six consistency checks that relate the
    recipe list to the keys of the manufactured products and of the natural
    resources. Each check walks the recipes with nested `forEach` loops,
    collecting what it finds in an array, and fails when the array is not
    empty. Here each check is a method that returns that array, proved equal
    to a specification function, and lemmas say which recipe lists pass.
    A reported entry is kept as data (recipe index, item key, ...) rather
    than as the formatted message string. */
module DataIntegrity {
  import opened Receipts

  /** Which list of a recipe an entry refers to. */
  datatype Side = Inputs | Outputs

  function ItemsOn(r: Receipt, side: Side): seq<ReceiptItem> {
    if side == Inputs then r.inputs else r.outputs
  }

  /** The item keys of a list of recipe items. */
  function ItemKeys(xs: seq<ReceiptItem>): set<string> {
    set x | x in xs :: x.item
  }

  /** The items some recipe outputs. */
  function ProducedItems(receipts: seq<Receipt>): set<string> {
    set r, o | r in receipts && o in r.outputs :: o.item
  }

  /** A reported recipe item: `Recipe #${recipe}: ${item}`. */
  datatype Finding = Finding(recipe: nat, item: string)

  /** A recipe without inputs or without outputs: `Recipe #${recipe}: no inputs`. */
  datatype Defect = Defect(recipe: nat, empty: Side)

  /** A non-positive rate: `Recipe #${recipe} input #${position}: ${perMin}`. */
  datatype BadQuantity = BadQuantity(recipe: nat, side: Side, position: nat, perMin: real)

  // ---------------------------------------------------------------------
  // Specification functions, each built the way the loops fill their
  // arrays: one step per key, per recipe, per recipe item.
  // ---------------------------------------------------------------------

  /** The keys whose membership in `s` is `present`, in order. */
  function Select(keys: seq<string>, s: set<string>, present: bool): seq<string> {
    if keys == [] then []
    else
      var n := |keys| - 1;
      Select(keys[..n], s, present) + (if (keys[n] in s) == present then [keys[n]] else [])
  }

  /** The entries for recipe `recipe`'s items whose membership in `s` is `present`. */
  function FlaggedItems(recipe: nat, xs: seq<ReceiptItem>, s: set<string>, present: bool): seq<Finding> {
    if xs == [] then []
    else
      var n := |xs| - 1;
      FlaggedItems(recipe, xs[..n], s, present)
        + (if (xs[n].item in s) == present then [Finding(recipe, xs[n].item)] else [])
  }

  /** The entries for every recipe, in recipe order. */
  function Flagged(receipts: seq<Receipt>, side: Side, s: set<string>, present: bool): seq<Finding> {
    if receipts == [] then []
    else
      var n := |receipts| - 1;
      Flagged(receipts[..n], side, s, present) + FlaggedItems(n, ItemsOn(receipts[n], side), s, present)
  }

  function ShapeDefects(receipts: seq<Receipt>): seq<Defect> {
    if receipts == [] then []
    else
      var n := |receipts| - 1;
      ShapeDefects(receipts[..n])
        + (if receipts[n].inputs == [] then [Defect(n, Inputs)] else [])
        + (if receipts[n].outputs == [] then [Defect(n, Outputs)] else [])
  }

  function BadItems(recipe: nat, side: Side, xs: seq<ReceiptItem>): seq<BadQuantity> {
    if xs == [] then []
    else
      var n := |xs| - 1;
      BadItems(recipe, side, xs[..n])
        + (if xs[n].perMin <= 0.0 then [BadQuantity(recipe, side, n, xs[n].perMin)] else [])
  }

  function BadQuantities(receipts: seq<Receipt>): seq<BadQuantity> {
    if receipts == [] then []
    else
      var n := |receipts| - 1;
      BadQuantities(receipts[..n])
        + BadItems(n, Inputs, receipts[n].inputs) + BadItems(n, Outputs, receipts[n].outputs)
  }

  // ---------------------------------------------------------------------
  // One step of each specification function.
  // ---------------------------------------------------------------------

  lemma ItemKeysSnoc(xs: seq<ReceiptItem>, k: nat)
    requires k < |xs|
    ensures ItemKeys(xs[..k + 1]) == ItemKeys(xs[..k]) + {xs[k].item}
  {
    assert xs[..k + 1] == xs[..k] + [xs[k]];
  }

  lemma ProducedItemsSnoc(receipts: seq<Receipt>, i: nat)
    requires i < |receipts|
    ensures ProducedItems(receipts[..i + 1]) == ProducedItems(receipts[..i]) + ItemKeys(receipts[i].outputs)
  {
    assert receipts[..i + 1] == receipts[..i] + [receipts[i]];
  }

  lemma SelectStep(keys: seq<string>, k: nat, s: set<string>, present: bool)
    requires k < |keys|
    ensures Select(keys[..k + 1], s, present)
         == Select(keys[..k], s, present) + (if (keys[k] in s) == present then [keys[k]] else [])
  {
    assert keys[..k + 1][..k] == keys[..k];
  }

  lemma FlaggedItemsStep(recipe: nat, xs: seq<ReceiptItem>, k: nat, s: set<string>, present: bool)
    requires k < |xs|
    ensures FlaggedItems(recipe, xs[..k + 1], s, present)
         == FlaggedItems(recipe, xs[..k], s, present)
            + (if (xs[k].item in s) == present then [Finding(recipe, xs[k].item)] else [])
  {
    assert xs[..k + 1][..k] == xs[..k];
  }

  lemma FlaggedStep(receipts: seq<Receipt>, i: nat, side: Side, s: set<string>, present: bool)
    requires i < |receipts|
    ensures Flagged(receipts[..i + 1], side, s, present)
         == Flagged(receipts[..i], side, s, present) + FlaggedItems(i, ItemsOn(receipts[i], side), s, present)
  {
    assert receipts[..i + 1][..i] == receipts[..i];
  }

  lemma ShapeDefectsStep(receipts: seq<Receipt>, i: nat)
    requires i < |receipts|
    ensures ShapeDefects(receipts[..i + 1])
         == ShapeDefects(receipts[..i])
            + (if receipts[i].inputs == [] then [Defect(i, Inputs)] else [])
            + (if receipts[i].outputs == [] then [Defect(i, Outputs)] else [])
  {
    assert receipts[..i + 1][..i] == receipts[..i];
  }

  lemma BadItemsStep(recipe: nat, side: Side, xs: seq<ReceiptItem>, k: nat)
    requires k < |xs|
    ensures BadItems(recipe, side, xs[..k + 1])
         == BadItems(recipe, side, xs[..k])
            + (if xs[k].perMin <= 0.0 then [BadQuantity(recipe, side, k, xs[k].perMin)] else [])
  {
    assert xs[..k + 1][..k] == xs[..k];
  }

  lemma BadQuantitiesStep(receipts: seq<Receipt>, i: nat)
    requires i < |receipts|
    ensures BadQuantities(receipts[..i + 1])
         == BadQuantities(receipts[..i])
            + BadItems(i, Inputs, receipts[i].inputs) + BadItems(i, Outputs, receipts[i].outputs)
  {
    assert receipts[..i + 1][..i] == receipts[..i];
  }

  // ---------------------------------------------------------------------
  // The checks.
  // ---------------------------------------------------------------------

  /** The `producedItems` set both of the first two checks build. */
  method CollectProducedItems(receipts: seq<Receipt>) returns (producedItems: set<string>)
    ensures producedItems == ProducedItems(receipts)
  {
    producedItems := {};
    for i := 0 to |receipts|
      invariant producedItems == ProducedItems(receipts[..i])
    {
      var outputs := receipts[i].outputs;
      for j := 0 to |outputs|
        invariant producedItems == ProducedItems(receipts[..i]) + ItemKeys(outputs[..j])
      {
        ItemKeysSnoc(outputs, j);
        producedItems := producedItems + {outputs[j].item};
      }
      assert outputs[..|outputs|] == outputs;
      ProducedItemsSnoc(receipts, i);
    }
    assert receipts[..|receipts|] == receipts;
  }

  /** The keys of `keys` whose membership in `s` is `present`, pushed in order. */
  method SelectKeys(keys: seq<string>, s: set<string>, present: bool) returns (selected: seq<string>)
    ensures selected == Select(keys, s, present)
  {
    selected := [];
    for k := 0 to |keys|
      invariant selected == Select(keys[..k], s, present)
    {
      SelectStep(keys, k, s, present);
      if (keys[k] in s) == present {
        selected := selected + [keys[k]];
      }
    }
    assert keys[..|keys|] == keys;
  }

  /** "every AIC product should have at least one recipe that produces it":
      the `missingRecipes` array. */
  method MissingRecipes(receipts: seq<Receipt>, productKeys: seq<string>) returns (missingRecipes: seq<string>)
    ensures missingRecipes == Select(productKeys, ProducedItems(receipts), false)
  {
    var producedItems := CollectProducedItems(receipts);
    missingRecipes := SelectKeys(productKeys, producedItems, false);
  }

  /** "natural resources should not have any recipes that produce them":
      the `producedNaturalResources` array. */
  method ProducedNaturalResources(receipts: seq<Receipt>, naturalKeys: seq<string>)
    returns (producedNaturalResources: seq<string>)
    ensures producedNaturalResources == Select(naturalKeys, ProducedItems(receipts), true)
  {
    var producedItems := CollectProducedItems(receipts);
    producedNaturalResources := SelectKeys(naturalKeys, producedItems, true);
  }

  /** One recipe's items whose membership in `s` is `present`, appended to
      `report`. */
  method PushFlagged(report: seq<Finding>, recipe: nat, xs: seq<ReceiptItem>, s: set<string>, present: bool)
    returns (extended: seq<Finding>)
    ensures extended == report + FlaggedItems(recipe, xs, s, present)
  {
    extended := report;
    for j := 0 to |xs|
      invariant extended == report + FlaggedItems(recipe, xs[..j], s, present)
    {
      FlaggedItemsStep(recipe, xs, j, s, present);
      if (xs[j].item in s) == present {
        extended := extended + [Finding(recipe, xs[j].item)];
      }
    }
    assert xs[..|xs|] == xs;
  }

  /** The nested loop of the third and fourth checks: every recipe's items
      on `side` whose membership in `s` is `present`. */
  method FlagItems(receipts: seq<Receipt>, side: Side, s: set<string>, present: bool)
    returns (flagged: seq<Finding>)
    ensures flagged == Flagged(receipts, side, s, present)
  {
    flagged := [];
    for i := 0 to |receipts|
      invariant flagged == Flagged(receipts[..i], side, s, present)
    {
      flagged := PushFlagged(flagged, i, ItemsOn(receipts[i], side), s, present);
      FlaggedStep(receipts, i, side, s, present);
    }
    assert receipts[..|receipts|] == receipts;
  }

  /** "all recipe inputs should be either AIC products or natural
      resources": the `unknownInputs` array. */
  method UnknownInputs(receipts: seq<Receipt>, productKeys: seq<string>, naturalKeys: seq<string>)
    returns (unknownInputs: seq<Finding>)
    ensures unknownInputs == Flagged(receipts, Inputs, set k | k in productKeys + naturalKeys, false)
  {
    var allItemKeys := set k | k in productKeys + naturalKeys;
    unknownInputs := FlagItems(receipts, Inputs, allItemKeys, false);
  }

  /** "all recipe outputs should be AIC products (not natural resources)":
      the `invalidOutputs` array. */
  method InvalidOutputs(receipts: seq<Receipt>, naturalKeys: seq<string>) returns (invalidOutputs: seq<Finding>)
    ensures invalidOutputs == Flagged(receipts, Outputs, set k | k in naturalKeys, true)
  {
    var naturalItemKeys := set k | k in naturalKeys;
    invalidOutputs := FlagItems(receipts, Outputs, naturalItemKeys, true);
  }

  /** "all recipes should have at least one input and one output": the
      `invalidRecipes` array. */
  method InvalidRecipes(receipts: seq<Receipt>) returns (invalidRecipes: seq<Defect>)
    ensures invalidRecipes == ShapeDefects(receipts)
  {
    invalidRecipes := [];
    for i := 0 to |receipts|
      invariant invalidRecipes == ShapeDefects(receipts[..i])
    {
      ShapeDefectsStep(receipts, i);
      if |receipts[i].inputs| == 0 {
        invalidRecipes := invalidRecipes + [Defect(i, Inputs)];
      }
      if |receipts[i].outputs| == 0 {
        invalidRecipes := invalidRecipes + [Defect(i, Outputs)];
      }
    }
    assert receipts[..|receipts|] == receipts;
  }

  /** The rates of one recipe's items on `side` that are not positive,
      appended to `report`. */
  method PushBadItems(report: seq<BadQuantity>, recipe: nat, side: Side, xs: seq<ReceiptItem>)
    returns (extended: seq<BadQuantity>)
    ensures extended == report + BadItems(recipe, side, xs)
  {
    extended := report;
    for j := 0 to |xs|
      invariant extended == report + BadItems(recipe, side, xs[..j])
    {
      BadItemsStep(recipe, side, xs, j);
      if xs[j].perMin <= 0.0 {
        extended := extended + [BadQuantity(recipe, side, j, xs[j].perMin)];
      }
    }
    assert xs[..|xs|] == xs;
  }

  /** "all recipe quantities should be positive numbers": the
      `invalidQuantities` array. */
  method InvalidQuantities(receipts: seq<Receipt>) returns (invalidQuantities: seq<BadQuantity>)
    ensures invalidQuantities == BadQuantities(receipts)
  {
    invalidQuantities := [];
    for i := 0 to |receipts|
      invariant invalidQuantities == BadQuantities(receipts[..i])
    {
      invalidQuantities := PushBadItems(invalidQuantities, i, Inputs, receipts[i].inputs);
      invalidQuantities := PushBadItems(invalidQuantities, i, Outputs, receipts[i].outputs);
      BadQuantitiesStep(receipts, i);
    }
    assert receipts[..|receipts|] == receipts;
  }

  // ---------------------------------------------------------------------
  // What the reports contain, and when each check passes.
  // ---------------------------------------------------------------------

  /** A key is selected exactly when it is one of the keys and its
      membership in `s` is `present`. */
  lemma {:induction false} SelectSpec(keys: seq<string>, s: set<string>, present: bool, x: string)
    ensures x in Select(keys, s, present) <==> x in keys && (x in s) == present
  {
    if keys != [] {
      var n := |keys| - 1;
      SelectSpec(keys[..n], s, present, x);
      assert keys == keys[..n] + [keys[n]];
    }
  }

  lemma SelectEmpty(keys: seq<string>, s: set<string>, present: bool)
    ensures Select(keys, s, present) == [] <==> forall x :: x in keys ==> (x in s) != present
  {
    if Select(keys, s, present) != [] {
      SelectSpec(keys, s, present, Select(keys, s, present)[0]);
    }
    forall x | x in keys && (x in s) == present ensures Select(keys, s, present) != [] {
      SelectSpec(keys, s, present, x);
    }
  }

  /** The report of the missing-recipe check holds exactly the product keys
      no recipe outputs, and the check passes exactly when every product is
      output by some recipe. */
  lemma MissingRecipesSpec(receipts: seq<Receipt>, productKeys: seq<string>, k: string)
    ensures k in Select(productKeys, ProducedItems(receipts), false)
        <==> k in productKeys && k !in ProducedItems(receipts)
    ensures Select(productKeys, ProducedItems(receipts), false) == []
        <==> forall p :: p in productKeys ==> p in ProducedItems(receipts)
  {
    SelectSpec(productKeys, ProducedItems(receipts), false, k);
    SelectEmpty(productKeys, ProducedItems(receipts), false);
  }

  lemma {:induction false} FlaggedItemsSpec(recipe: nat, xs: seq<ReceiptItem>, s: set<string>, present: bool, f: Finding)
    ensures f in FlaggedItems(recipe, xs, s, present)
        <==> f.recipe == recipe && f.item in ItemKeys(xs) && (f.item in s) == present
  {
    if xs != [] {
      var n := |xs| - 1;
      FlaggedItemsSpec(recipe, xs[..n], s, present, f);
      assert xs == xs[..n] + [xs[n]];
    }
  }

  /** An entry is reported exactly when its recipe has an item on `side`
      with that key and the key's membership in `s` is `present`. */
  lemma {:induction false} FlaggedSpec(receipts: seq<Receipt>, side: Side, s: set<string>, present: bool, f: Finding)
    ensures f in Flagged(receipts, side, s, present)
        <==> f.recipe < |receipts| && f.item in ItemKeys(ItemsOn(receipts[f.recipe], side)) && (f.item in s) == present
  {
    if receipts != [] {
      var n := |receipts| - 1;
      FlaggedSpec(receipts[..n], side, s, present, f);
      FlaggedItemsSpec(n, ItemsOn(receipts[n], side), s, present, f);
    }
  }

  lemma FlaggedEmpty(receipts: seq<Receipt>, side: Side, s: set<string>, present: bool)
    ensures Flagged(receipts, side, s, present) == []
        <==> forall i, x :: 0 <= i < |receipts| && x in ItemsOn(receipts[i], side) ==> (x.item in s) != present
  {
    var flagged := Flagged(receipts, side, s, present);
    if flagged != [] {
      FlaggedSpec(receipts, side, s, present, flagged[0]);
    }
    forall i, x | 0 <= i < |receipts| && x in ItemsOn(receipts[i], side) && (x.item in s) == present
      ensures flagged != []
    {
      FlaggedSpec(receipts, side, s, present, Finding(i, x.item));
    }
  }

  /** The unknown-input check reports recipe `i`'s input `x` exactly when
      `x` is neither a product nor a natural resource, and passes exactly
      when every input is one of the two. */
  lemma UnknownInputsSpec(receipts: seq<Receipt>, productKeys: seq<string>, naturalKeys: seq<string>, f: Finding)
    ensures f in Flagged(receipts, Inputs, set k | k in productKeys + naturalKeys, false)
        <==> f.recipe < |receipts| && f.item in ItemKeys(receipts[f.recipe].inputs)
             && f.item !in productKeys && f.item !in naturalKeys
    ensures Flagged(receipts, Inputs, set k | k in productKeys + naturalKeys, false) == []
        <==> forall i, x :: 0 <= i < |receipts| && x in receipts[i].inputs ==> x.item in productKeys || x.item in naturalKeys
  {
    FlaggedSpec(receipts, Inputs, set k | k in productKeys + naturalKeys, false, f);
    FlaggedEmpty(receipts, Inputs, set k | k in productKeys + naturalKeys, false);
  }

  /** The output check reports recipe `i`'s output `x` exactly when `x` is
      a natural resource, and passes exactly when no output is one. */
  lemma InvalidOutputsSpec(receipts: seq<Receipt>, naturalKeys: seq<string>, f: Finding)
    ensures f in Flagged(receipts, Outputs, set k | k in naturalKeys, true)
        <==> f.recipe < |receipts| && f.item in ItemKeys(receipts[f.recipe].outputs) && f.item in naturalKeys
    ensures Flagged(receipts, Outputs, set k | k in naturalKeys, true) == []
        <==> forall i, x :: 0 <= i < |receipts| && x in receipts[i].outputs ==> x.item !in naturalKeys
  {
    FlaggedSpec(receipts, Outputs, set k | k in naturalKeys, true, f);
    FlaggedEmpty(receipts, Outputs, set k | k in naturalKeys, true);
  }

  /** The natural-produced check and the output check accept the same
      recipe lists: both say that no recipe outputs a natural resource. */
  lemma NaturalChecksAgree(receipts: seq<Receipt>, naturalKeys: seq<string>)
    ensures Select(naturalKeys, ProducedItems(receipts), true) == []
        <==> Flagged(receipts, Outputs, set k | k in naturalKeys, true) == []
  {
    SelectEmpty(naturalKeys, ProducedItems(receipts), true);
    FlaggedEmpty(receipts, Outputs, set k | k in naturalKeys, true);
    if Select(naturalKeys, ProducedItems(receipts), true) == [] {
      forall i, x | 0 <= i < |receipts| && x in receipts[i].outputs ensures x.item !in naturalKeys {
        assert x.item in ProducedItems(receipts) by {
          assert receipts[i] in receipts;
        }
      }
    }
  }

  /** When the first two checks pass no key is both a product and a natural
      resource: a product must be output by some recipe, a natural resource
      by none. */
  lemma ProductsAndNaturalsDisjoint(receipts: seq<Receipt>, productKeys: seq<string>, naturalKeys: seq<string>, k: string)
    requires Select(productKeys, ProducedItems(receipts), false) == []
    requires Select(naturalKeys, ProducedItems(receipts), true) == []
    ensures !(k in productKeys && k in naturalKeys)
  {
    SelectSpec(productKeys, ProducedItems(receipts), false, k);
    SelectSpec(naturalKeys, ProducedItems(receipts), true, k);
  }

  /** The shape check reports an empty side of a recipe exactly when it is
      empty, so a recipe with neither inputs nor outputs is reported twice. */
  lemma {:induction false} ShapeDefectsSpec(receipts: seq<Receipt>, d: Defect)
    ensures d in ShapeDefects(receipts) <==> d.recipe < |receipts| && ItemsOn(receipts[d.recipe], d.empty) == []
  {
    if receipts != [] {
      ShapeDefectsSpec(receipts[..|receipts| - 1], d);
    }
  }

  /** The shape check passes exactly when every recipe has an input and an
      output. */
  lemma ShapeDefectsEmpty(receipts: seq<Receipt>)
    ensures ShapeDefects(receipts) == []
        <==> forall i :: 0 <= i < |receipts| ==> receipts[i].inputs != [] && receipts[i].outputs != []
  {
    var defects := ShapeDefects(receipts);
    if defects != [] {
      ShapeDefectsSpec(receipts, defects[0]);
    }
    forall i | 0 <= i < |receipts| && (receipts[i].inputs == [] || receipts[i].outputs == [])
      ensures defects != []
    {
      ShapeDefectsSpec(receipts, Defect(i, if receipts[i].inputs == [] then Inputs else Outputs));
    }
  }

  lemma {:induction false} BadItemsSpec(recipe: nat, side: Side, xs: seq<ReceiptItem>, b: BadQuantity)
    ensures b in BadItems(recipe, side, xs)
        <==> b.recipe == recipe && b.side == side && b.position < |xs|
             && xs[b.position].perMin == b.perMin && b.perMin <= 0.0
  {
    if xs != [] {
      var n := |xs| - 1;
      BadItemsSpec(recipe, side, xs[..n], b);
    }
  }

  /** Item `p` on `side` of recipe `i` is reported, with its rate, exactly
      when that rate is not positive. */
  lemma {:induction false} BadQuantitiesSpec(receipts: seq<Receipt>, b: BadQuantity)
    ensures b in BadQuantities(receipts)
        <==> b.recipe < |receipts| && b.position < |ItemsOn(receipts[b.recipe], b.side)|
             && ItemsOn(receipts[b.recipe], b.side)[b.position].perMin == b.perMin && b.perMin <= 0.0
  {
    if receipts != [] {
      var n := |receipts| - 1;
      BadQuantitiesSpec(receipts[..n], b);
      BadItemsSpec(n, Inputs, receipts[n].inputs, b);
      BadItemsSpec(n, Outputs, receipts[n].outputs, b);
    }
  }

  /** The quantity check passes exactly when every rate is positive. */
  lemma BadQuantitiesEmpty(receipts: seq<Receipt>)
    ensures BadQuantities(receipts) == []
        <==> forall i, side, p :: 0 <= i < |receipts| && 0 <= p < |ItemsOn(receipts[i], side)|
                                  ==> ItemsOn(receipts[i], side)[p].perMin > 0.0
  {
    var bad := BadQuantities(receipts);
    if bad != [] {
      BadQuantitiesSpec(receipts, bad[0]);
    }
    forall i, side, p | 0 <= i < |receipts| && 0 <= p < |ItemsOn(receipts[i], side)|
                        && ItemsOn(receipts[i], side)[p].perMin <= 0.0
      ensures bad != []
    {
      BadQuantitiesSpec(receipts, BadQuantity(i, side, p, ItemsOn(receipts[i], side)[p].perMin));
    }
  }
}
