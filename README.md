# Recipe catalog of endfield-industry-helper, in Dafny

This project models the recipe-catalog side of the endfield-industry-helper web app, which is written in TypeScript. It covers:

- **The recipe page's grouping.** `sortReceiptsByOutput` copies a section's recipes and sorts them by their first output's item key. A `reduce` then collects them into an object from each output key to its recipes, which the page lists in key-creation order.
- **The item generator.** `parseItemsCSV` turns the items CSV into rows. `generateItemsTS` prints those rows as the TypeScript module that declares the `ItemCategory` enum and the `items` record. Keys go through `toCamelCase`, the regular-expression replacement `/_([a-z])/g`.
- **The item tables.** `images`, `filterItemsByCategory`, `allProduces`, `naturalItems`, `ores` and `plants` are derived from the `items` record.
- **The six catalog consistency checks.** Each walks the recipe list and collects the offending entries.

How the JavaScript is represented:

- Strings are `seq<char>`.
- Recipe rates are `real`.
- An object used as a dictionary is the list its `Object.entries` returns (module `Records`). `undefined` is `Option.None`.
- A thrown `TypeError` is a `Result.Failure`.
- Loops that push onto an array are methods with `for` or `while` loops. Each is proved equal to a specification function whose meaning is proved in lemmas.
- Pure expression chains are functions.

Modules:

- `Results`, `Sequences`, `Sorting` and `JsStrings` hold the shared building blocks: Option and Result, the distinct elements that iterating a `Set` yields, a stable insertion sort standing for `Array.prototype.sort`, and `trim`, `split`, `join` and default string order.
- `Receipts` holds the recipe records.
- `ReceiptSort` models `sortReceiptsByOutput`.
- `ReceiptSection` models the grouping.
- `CamelCase` models `toCamelCase`.
- `GenerateItems` models the CSV parser and the module printer.
- `Records` and `ItemCatalog` model the item tables.
- `DataIntegrity` models the consistency checks.

## Model

| member | source | states |
|---|---|---|
| ReceiptSort.SortReceiptsByOutput | src/data/receipts/sort.ts:3-5 | With at most one recipe the copy comes back unchanged. Otherwise the call fails exactly when some recipe has no output. On success the result has the same length and the same multiset of recipes, and is sorted by first-output key under the comparison. |
| ReceiptSort.SortReceiptsIsStable | src/data/receipts/sort.ts:4 | Recipes whose keys compare equal keep their input order. |
| ReceiptSort.SortReceiptsIdempotent | src/data/receipts/sort.ts:3-5 | Sorting the sorted copy again gives the same result. |
| ReceiptSort.ByFirstOutputIsPreorder | src/data/receipts/sort.ts:4 | The comparator built from a consistent `localeCompare` is a total preorder on recipes. |
| ReceiptSort.CodePointCompareIsConsistent | src/data/receipts/sort.ts:4 | Code-point order meets both assumptions made of the key comparison: total and transitive, and equal only on equal keys. |
| Sorting.SortBySpec | src/data/receipts/sort.ts:4 | The sort returns a permutation of its input, in increasing order. |
| Sorting.SortByIsStable | src/data/receipts/sort.ts:4 | The sort is stable: elements comparing equal to any `y` keep their order. |
| Sorting.InsertEquivalents | src/data/receipts/sort.ts:4 | Inserting one element keeps the order of every class of equal elements and puts the new one first in its class. |
| Sorting.SortBySortedIsIdentity | src/data/receipts/sort.ts:4 | An already sorted list is its own sorted copy. |
| Sorting.SortByIdempotent | src/data/receipts/sort.ts:4 | Sorting twice is sorting once. |
| Sorting.SortByStrict | tools/receipt_gen/generate_items.ts:52 | Under an order with no ties, sorting a list without duplicates gives a list without duplicates, as `[...new Set(...)].sort()` relies on. |
| ReceiptSection.GroupByFirstOutput | src/pages/receipts/receipt_section.tsx:16-26 | The fold fails exactly when some recipe has no output or has an inherited property name as key. It fails at the first such recipe. On success the key order is the distinct keys in first-seen order. The map has exactly the recipes' keys, and each key maps to that key's recipes in list order. |
| ReceiptSection.GroupReceipts | src/pages/receipts/receipt_section.tsx:13-26 | Sort then fold. It fails exactly when some recipe cannot be grouped, and with the sort's own error exactly when the sort throws. The key order is the distinct keys of the sorted list in first-seen order. The keys are exactly those of the given recipes, and each group is that key's recipes in the order they were given in. |
| ReceiptSection.GroupsOfAreBuckets | src/pages/receipts/receipt_section.tsx:16-26 | After the fold, a key has an entry iff some recipe has it, and the entry is that key's recipes in order. |
| ReceiptSection.OrderOfIsDistinct | src/pages/receipts/receipt_section.tsx:19-21 | Keys are created in order of first occurrence, each once. |
| ReceiptSection.FoldIsGrouping | src/pages/receipts/receipt_section.tsx:16-26 | The fold's key order and entries together describe the grouping. |
| ReceiptSection.BucketMembers | src/pages/receipts/receipt_section.tsx:22 | A group holds only recipes of the list with that key, and it is non-empty iff the key occurs. |
| ReceiptSection.BucketAppend | src/pages/receipts/receipt_section.tsx:22 | Grouping a concatenation concatenates the groups, so a group keeps its recipes' order. |
| ReceiptSection.SortKeepsBuckets | src/pages/receipts/receipt_section.tsx:13-26 | For any consistent comparison, sorting leaves every group unchanged: the recipes of one key keep their input order. |
| ReceiptSection.BucketOfEquivalents | src/data/receipts/sort.ts:4 | The recipes with `x`'s key, picked out of those comparing equal to `x`, are the recipes with that key in the whole list. |
| ReceiptSection.EquivalentsAreBucket | src/data/receipts/sort.ts:4 | When only equal keys compare equal, the recipes comparing equal to `x` are exactly the group of `x`'s key. |
| ReceiptSection.GroupsPartition | src/pages/receipts/receipt_section.tsx:16-26 | Every recipe lands in exactly one group: the groups listed one after the other are a permutation of the list. |
| ReceiptSection.GroupsConcatenateToInput | src/pages/receipts/receipt_section.tsx:16-26 | For a list whose equal keys stand together, the groups in creation order concatenate back to the list. |
| ReceiptSection.GroupsRebuildSortedList | src/pages/receipts/receipt_section.tsx:13-26 | For a sorted section under a comparison with no ties between distinct keys, listing the groups in creation order gives back the sorted list. |
| ReceiptSection.SortedIsContiguous | src/pages/receipts/receipt_section.tsx:13 | In such a sorted list, equal keys stand next to each other. |
| ReceiptSection.LastGroupIsLastKey | src/pages/receipts/receipt_section.tsx:19-22 | With contiguous keys, the last group created is the last recipe's key. |
| ReceiptSection.SortedGroupable | src/pages/receipts/receipt_section.tsx:13-18 | Sorting neither adds nor removes a recipe the fold would fail on. |
| CamelCase.CamelCaseFixpoint | tools/receipt_gen/generate_items.ts:11-13 | A string in which `_` is never followed by a-z comes back unchanged. |
| CamelCase.CamelCaseNoUnderscore | tools/receipt_gen/generate_items.ts:11-13 | A string without `_` comes back unchanged. |
| CamelCase.CamelCaseLeavesNoMatch | tools/receipt_gen/generate_items.ts:12 | The result has no match of `_([a-z])` left: the replacement is global, left to right, and matches do not overlap. |
| CamelCase.CamelCaseIdempotent | tools/receipt_gen/generate_items.ts:11-13 | Converting twice is converting once. |
| CamelCase.CamelCaseLength | tools/receipt_gen/generate_items.ts:12 | The result is shorter by exactly the number of underscores the replacements consumed. |
| CamelCase.CamelCaseCharacters | tools/receipt_gen/generate_items.ts:12 | Every character of the result comes from the input or is an upper-case letter. |
| CamelCase.CamelCaseAppend | tools/receipt_gen/generate_items.ts:12 | Conversion distributes over a concatenation whose left part does not end in `_`. |
| CamelCase.CamelCaseOfSnakeCase | tools/receipt_gen/generate_items.ts:10-13 | `first_second_third` with lower-case word starts becomes `firstSecondThird`. |
| JsStrings.Trim | tools/receipt_gen/generate_items.ts:18 | `trim` gives the empty string iff the text is all whitespace, never keeps whitespace at either end, and leaves text without such whitespace unchanged. |
| JsStrings.TrimIsInnerSlice | tools/receipt_gen/generate_items.ts:18 | The result of `trim` is a slice of the text, and everything cut off before and after it is whitespace. |
| JsStrings.Split | tools/receipt_gen/generate_items.ts:18 | `split` on one character gives one more piece than separators, and no piece holds the separator. |
| JsStrings.JoinSplit | tools/receipt_gen/generate_items.ts:18 | Joining the pieces of a split gives the text back. |
| JsStrings.SplitJoin | tools/receipt_gen/generate_items.ts:28 | Splitting the join of separator-free pieces gives the pieces back. |
| JsStrings.LexLeqTotal | tools/receipt_gen/generate_items.ts:52 | The default string order relates every two strings. |
| JsStrings.LexLeqTransitive | tools/receipt_gen/generate_items.ts:52 | The default string order is transitive. |
| JsStrings.LexLeqAntisymmetric | tools/receipt_gen/generate_items.ts:52 | The default string order has no ties between distinct strings. |
| GenerateItems.ParseItemsCsv | tools/receipt_gen/generate_items.ts:16-39 | The loop over the data lines returns `ParseItems(content)`: one row per non-blank line after the header of the trimmed content, in order. |
| GenerateItems.ParseRowFields | tools/receipt_gen/generate_items.ts:28-35 | A row takes the line's first four comma fields. A field is undefined iff the line has too few commas, and no field holds a comma. |
| GenerateItems.ParsedRowsAppend | tools/receipt_gen/generate_items.ts:25-36 | Parsing works line by line: the rows of two blocks of lines are the rows of each, concatenated. |
| GenerateItems.BlankLineIgnored | tools/receipt_gen/generate_items.ts:26 | A whitespace-only line adds no row wherever it stands. |
| GenerateItems.ParsedItemsHaveNoNewline | tools/receipt_gen/generate_items.ts:18-28 | No parsed field holds a line break. |
| GenerateItems.ParseEncodeRow | tools/receipt_gen/generate_items.ts:28-35 | Parsing a comma-joined row of four comma-free fields gives the row back. |
| GenerateItems.ParseEncodeRows | tools/receipt_gen/generate_items.ts:25-36 | Parsing the lines written for writable rows gives the rows back. |
| GenerateItems.ParseEncodeCsv | tools/receipt_gen/generate_items.ts:16-39 | Round trip: a CSV text with a header line, one line per writable row and a final line break parses back to the rows, provided the text has no whitespace at either end. |
| GenerateItems.EncodeRowFields | tools/receipt_gen/generate_items.ts:28 | A written row is its four fields with a comma between each two. |
| GenerateItems.TrimFinalNewline | tools/receipt_gen/generate_items.ts:18 | `trim` removes a final line break from text that has no other whitespace at its ends. |
| GenerateItems.CategoriesSortedAndDistinct | tools/receipt_gen/generate_items.ts:52 | The enum lists every category of the rows and nothing else, each once, in increasing code-point order. |
| GenerateItems.GenerateItemsTs | tools/receipt_gen/generate_items.ts:42-92 | The generator fails exactly when some row has no id, at the first such row. Otherwise the text is the lines of `ModuleLines(items)` joined by line breaks. |
| GenerateItems.ModuleLineCount | tools/receipt_gen/generate_items.ts:42-91 | The module has 16 + C + 5N lines for C enum members and N items. |
| GenerateItems.EnumMemberAt | tools/receipt_gen/generate_items.ts:55-59 | Line 5 + j declares the j-th category, camel-cased. |
| GenerateItems.EntryOfItem | tools/receipt_gen/generate_items.ts:75-85 | Item i's five-line entry occupies lines 14 + C + 5i onward, in input order. |
| GenerateItems.EntryKeyAndImage | tools/receipt_gen/generate_items.ts:76-83 | An entry's first line is keyed by the camel-cased id, and its image path is built from the raw id. |
| GenerateItems.ModuleTextShape | tools/receipt_gen/generate_items.ts:42-92 | The text starts with the three header comment lines and an empty line, and ends with a line break. |
| Records.GetFindsKeys | src/receipts/index.ts:9-19 | An own-property lookup (`Object.hasOwn(obj, k) ? obj[k] : undefined`) finds a value exactly for the object's own keys. |
| ItemCatalog.ImagesSpec | src/receipts/index.ts:9-11 | `images` has exactly the keys of `items`, in order, and maps each key to its item's image path. |
| ItemCatalog.FilterSpec | src/receipts/index.ts:14-20 | Key k is in `filterItemsByCategory(cs)` iff `items` has own key k and that item's category is in `cs`, and then it maps to the item's label. |
| ItemCatalog.FilterKeepsKeys | src/receipts/index.ts:14-20 | The filtered keys are keys of `items`, each still once. |
| ItemCatalog.FilterNoCategories | src/receipts/index.ts:14-20 | An empty category list selects nothing. |
| ItemCatalog.FilterMonotone | src/receipts/index.ts:14-20 | Listing more categories keeps every selected item, with the same label. |
| ItemCatalog.OresAndPlantsAreNatural | src/receipts/index.ts:37-46 | Every ore and every plant is a natural item, with the same label. |
| ItemCatalog.ProducesAreNotNatural | src/receipts/index.ts:23-42 | No key is both in `allProduces` and in `naturalItems`. |
| DataIntegrity.CollectProducedItems | tests/data/data_integrity.test.ts:12-17 | The loops collect exactly the items that some recipe outputs. |
| DataIntegrity.MissingRecipes | tests/data/data_integrity.test.ts:7-25 | The report is the product keys that are not produced, in key order. |
| DataIntegrity.MissingRecipesSpec | tests/data/data_integrity.test.ts:20-34 | A key is reported iff it is a product key that no recipe outputs. The check passes iff every product is output by some recipe. |
| DataIntegrity.ProducedNaturalResources | tests/data/data_integrity.test.ts:37-55 | The report is the natural keys that are produced, in key order. |
| DataIntegrity.SelectSpec | tests/data/data_integrity.test.ts:20-55 | A key is selected iff it is one of the keys and its membership in the produced set is the one asked for. |
| DataIntegrity.SelectEmpty | tests/data/data_integrity.test.ts:28-67 | The selection is empty iff no key has that membership. |
| DataIntegrity.NaturalChecksAgree | tests/data/data_integrity.test.ts:49-110 | The natural-produced check and the outputs-not-natural check accept exactly the same recipe lists. |
| DataIntegrity.ProductsAndNaturalsDisjoint | tests/data/data_integrity.test.ts:7-68 | When the first two checks pass, no key is both a product and a natural resource. |
| DataIntegrity.UnknownInputs | tests/data/data_integrity.test.ts:70-81 | The report is the inputs that are neither products nor natural resources, in recipe-then-input order. |
| DataIntegrity.UnknownInputsSpec | tests/data/data_integrity.test.ts:71-89 | (recipe i, key x) is reported iff recipe i has an input x that is neither a product nor natural. The check passes iff every input is one of the two. |
| DataIntegrity.InvalidOutputs | tests/data/data_integrity.test.ts:92-102 | The report is the outputs that are natural resources, in recipe-then-output order. |
| DataIntegrity.InvalidOutputsSpec | tests/data/data_integrity.test.ts:93-110 | (recipe i, key x) is reported iff recipe i outputs the natural resource x. The check passes iff no output is natural. |
| DataIntegrity.FlagItems | tests/data/data_integrity.test.ts:75-102 | The nested loop over recipes and their items returns `Flagged(...)`. |
| DataIntegrity.FlaggedSpec | tests/data/data_integrity.test.ts:75-102 | An entry is flagged iff its recipe has an item with that key whose membership in the key set is the flagged one. |
| DataIntegrity.FlaggedEmpty | tests/data/data_integrity.test.ts:83-110 | Nothing is flagged iff no recipe item has the flagged membership. |
| DataIntegrity.InvalidRecipes | tests/data/data_integrity.test.ts:113-123 | The loop returns `ShapeDefects(receipts)`: per recipe in order, "no inputs" and then "no outputs" where they apply. |
| DataIntegrity.ShapeDefectsSpec | tests/data/data_integrity.test.ts:116-123 | "Recipe i: no inputs" (or outputs) is reported iff that side of recipe i is empty, so a recipe lacking both is reported twice. |
| DataIntegrity.ShapeDefectsEmpty | tests/data/data_integrity.test.ts:125-129 | The shape check passes iff every recipe has an input and an output. |
| DataIntegrity.InvalidQuantities | tests/data/data_integrity.test.ts:132-146 | The loops return `BadQuantities(receipts)`: per recipe, its non-positive input rates and then its non-positive output rates, each with its position. |
| DataIntegrity.BadQuantitiesSpec | tests/data/data_integrity.test.ts:135-146 | (recipe i, side, position p, rate v) is reported iff item p on that side of recipe i has rate v and v is not positive. |
| DataIntegrity.BadQuantitiesEmpty | tests/data/data_integrity.test.ts:148-152 | The quantity check passes iff every input and output rate is positive. |

## Left out

- Locale collation: `localeCompare` is a parameter `cmp`. The model assumes only that it orders every two keys transitively. Only the results that rebuild the sorted list from its groups also assume that it equates only equal keys (`DistinguishesKeys`). A comparison that equates distinct keys may interleave their recipes in the sorted list, though each group still keeps input order. Code-point order is shown to meet both assumptions.
- UTF-16: strings are sequences of Unicode scalar values, so the default `sort` order (`LexLeq`) is code-point order. This differs from UTF-16 code-unit order only for characters outside the Basic Multilingual Plane.
- Integer-like keys: `Object.entries` lists keys that look like array indices first, in numeric order. The model keeps insertion order for every key.
- Floating point: rates are `real`. `Number.isFinite` and NaN are not modelled, so a rate is invalid exactly when it is not positive.
- The messages built with `expect.fail` and string templates are not modelled. The reported entries are kept as data: recipe index, item key, side, position and rate.
- File I/O: `fs.readFileSync` in `parseItemsCSV` is not modelled, and the parser takes the file's content. `genItems` is only the composition of the two modelled steps. tools/receipt_gen/index.ts, which writes the files, is not part of this model.
- Rendering: the React components and the accordion that lists the groups are not modelled.
- `englishName` is parsed but never used by the generator.
- The CSV parser handles no quoting and no CRLF line endings, just as the code handles neither. A `\r` stays in the last field.
- Item keys: `@data/items/aic`, whose keys the first checks read, is not part of this model. The checks take the product keys and the natural keys as parameters. `ItemCatalog.ProducesAreNotNatural` shows that the keys derived in src/receipts/index.ts are disjoint.
- ReceiptSection.GroupByFirstOutput: creating a missing array and pushing onto it are modelled as one map update. The names the accumulator `{}` inherits from `Object.prototype` are a parameter, which `GroupReceipts` sets to `InheritedNames`.
- CamelCase.ToCamelCase: its properties are stated as the lemmas in the table, not as ensures on the function itself.
- GenerateItems.ModuleTextShape: the text is described line by line and at both ends. That splitting the text at line breaks gives back exactly `ModuleLines` is not proved: item fields may themselves hold line breaks only when the rows did not come from the parser.
- The TypeScript enum `ItemCategory` maps member names to numbers; a category is named by its member name here.
- The static catalog data (the recipe lists, the natural items list and the image table) is data, not logic.
