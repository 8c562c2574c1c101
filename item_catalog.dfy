/** src/receipts/index.ts: the item tables derived from the generated
    `items` record. An item's category is an `ItemCategory` enum member,
    named here by its camelCase member name; two members are equal exactly
    when their names are. */
module ItemCatalog {
  import opened Results
  import opened Records

  /** The `Item` interface the generator writes (`labelText` is its
      `label` field, a word Dafny reserves). */
  datatype Item = Item(labelText: string, category: string, imagePath: string)

  /** `images`: every item key mapped to the item's image path. */
  function Images(items: Entries<Item>): (r: Entries<string>)
    ensures |r| == |items|
  {
    if items == [] then []
    else [(items[0].0, items[0].1.imagePath)] + Images(items[1..])
  }

  /** `filterItemsByCategory(categories)`: the items whose category is one
      of `categories`, each key mapped to the item's label, in entry order. */
  function FilterItemsByCategory(items: Entries<Item>, categories: seq<string>): (r: Entries<string>)
    ensures |r| <= |items|
  {
    if items == [] then []
    else
      var rest := FilterItemsByCategory(items[1..], categories);
      if items[0].1.category in categories then [(items[0].0, items[0].1.labelText)] + rest else rest
  }

  /** The manufactured categories listed for `allProduces`. */
  const ProduceCategories: seq<string> := [
    "oreRefined", "orePowder", "plantPowder", "bottle", "battery",
    "part", "component", "medicine", "solution", "bottledSolution"
  ]

  /** The resource categories listed for `naturalItems`. */
  const NaturalCategories: seq<string> := ["naturalOre", "naturalPlant", "plantSeed", "other"]

  function AllProduces(items: Entries<Item>): Entries<string> {
    FilterItemsByCategory(items, ProduceCategories)
  }

  function NaturalItems(items: Entries<Item>): Entries<string> {
    FilterItemsByCategory(items, NaturalCategories)
  }

  function Ores(items: Entries<Item>): Entries<string> {
    FilterItemsByCategory(items, ["naturalOre"])
  }

  function Plants(items: Entries<Item>): Entries<string> {
    FilterItemsByCategory(items, ["naturalPlant"])
  }

  /** `images` has exactly the keys of `items` and maps each to its image. */
  lemma {:induction false} ImagesSpec(items: Entries<Item>, k: string)
    ensures Keys(Images(items)) == Keys(items)
    ensures Get(Images(items), k) == if Get(items, k).Some? then Some(Get(items, k).value.imagePath) else None
  {
    if items != [] {
      ImagesSpec(items[1..], k);
      assert Keys(Images(items)) == [items[0].0] + Keys(Images(items[1..]));
      assert Keys(items) == [items[0].0] + Keys(items[1..]);
    }
  }

  /** The filtered keys are keys of `items`, still each once. */
  lemma {:induction false} FilterKeepsKeys(items: Entries<Item>, categories: seq<string>)
    requires UniqueKeys(items)
    ensures forall k :: k in Keys(FilterItemsByCategory(items, categories)) ==> k in Keys(items)
    ensures UniqueKeys(FilterItemsByCategory(items, categories))
  {
    if items != [] {
      var r := FilterItemsByCategory(items, categories);
      var rest := FilterItemsByCategory(items[1..], categories);
      UniqueKeysTail(items);
      FilterKeepsKeys(items[1..], categories);
      assert Keys(items) == [items[0].0] + Keys(items[1..]);
      if items[0].1.category in categories {
        assert Keys(r) == [items[0].0] + Keys(rest);
        assert forall i :: 0 < i < |r| ==> r[i] == rest[i - 1] && r[i].0 in Keys(rest);
      }
    }
  }

  /** Key `k` is in `filterItemsByCategory(categories)` exactly when
      `items[k]` exists and its category is listed, and it maps to that
      item's label. */
  lemma {:induction false} FilterSpec(items: Entries<Item>, categories: seq<string>, k: string)
    requires UniqueKeys(items)
    ensures Get(FilterItemsByCategory(items, categories), k)
         == if Get(items, k).Some? && Get(items, k).value.category in categories
            then Some(Get(items, k).value.labelText) else None
  {
    if items != [] {
      UniqueKeysTail(items);
      FilterSpec(items[1..], categories, k);
      if items[0].0 == k {
        GetFindsKeys(items[1..], k);
      }
    }
  }

  /** No category, no item. */
  lemma {:induction false} FilterNoCategories(items: Entries<Item>)
    ensures FilterItemsByCategory(items, []) == []
  {
    if items != [] {
      FilterNoCategories(items[1..]);
    }
  }

  /** Listing more categories keeps every item already selected. */
  lemma FilterMonotone(items: Entries<Item>, small: seq<string>, large: seq<string>, k: string)
    requires UniqueKeys(items)
    requires forall c :: c in small ==> c in large
    requires Get(FilterItemsByCategory(items, small), k).Some?
    ensures Get(FilterItemsByCategory(items, large), k) == Get(FilterItemsByCategory(items, small), k)
  {
    FilterSpec(items, small, k);
    FilterSpec(items, large, k);
  }

  /** Every ore and every plant is a natural item, with the same label. */
  lemma OresAndPlantsAreNatural(items: Entries<Item>, k: string)
    requires UniqueKeys(items)
    ensures Get(Ores(items), k).Some? ==> Get(NaturalItems(items), k) == Get(Ores(items), k)
    ensures Get(Plants(items), k).Some? ==> Get(NaturalItems(items), k) == Get(Plants(items), k)
  {
    FilterSpec(items, ["naturalOre"], k);
    FilterSpec(items, ["naturalPlant"], k);
    FilterSpec(items, NaturalCategories, k);
  }

  /** No item is both a product and a natural resource: the two category
      lists share no member and an item has one category. */
  lemma ProducesAreNotNatural(items: Entries<Item>, k: string)
    requires UniqueKeys(items)
    ensures !(k in Keys(AllProduces(items)) && k in Keys(NaturalItems(items)))
  {
    FilterSpec(items, ProduceCategories, k);
    FilterSpec(items, NaturalCategories, k);
    GetFindsKeys(AllProduces(items), k);
    GetFindsKeys(NaturalItems(items), k);
    assert forall c :: c in NaturalCategories ==> c !in ProduceCategories;
  }
}
