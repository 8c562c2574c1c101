/** tools/receipt_gen/generate_items.ts: the CSV item list is parsed into
    rows, and the rows are printed as the TypeScript module that declares
    the `ItemCategory` enum and the `items` record. The file is read by the
    caller; the parser takes its content. */
module GenerateItems {
  import opened Results
  import opened JsStrings
  import opened Sequences
  import opened Sorting
  import opened CamelCase

  /** A parsed row. Destructuring the comma-separated fields of a line that
      has fewer than four of them leaves the missing ones `undefined`; the
      first field always exists. */
  datatype ItemRow = ItemRow(
    category: string,
    id: Option<string>,
    englishName: Option<string>,
    chineseName: Option<string>)

  // ---------------------------------------------------------------------
  // parseItemsCSV

  /** The lines after the header of the trimmed content. */
  function DataLines(content: string): seq<string> {
    Split(Trim(content), '\n')[1..]
  }

  /** `!line.trim()`: the line is empty once trimmed, so it is all
      whitespace. */
  predicate IsBlank(line: string) {
    AllWhitespace(line)
  }

  function Field(fields: seq<string>, n: nat): Option<string> {
    if n < |fields| then Some(fields[n]) else None
  }

  /** The row of one line: its first four comma-separated fields, without
      any quoting. */
  function ParseRow(line: string): ItemRow {
    var fields := Split(line, ',');
    ItemRow(fields[0], Field(fields, 1), Field(fields, 2), Field(fields, 3))
  }

  /** A field is undefined exactly when the line has too few commas, and no
      field holds a comma. */
  lemma ParseRowFields(line: string)
    ensures var r := ParseRow(line);
      && (r.id.Some? <==> Count(line, ',') >= 1)
      && (r.englishName.Some? <==> Count(line, ',') >= 2)
      && (r.chineseName.Some? <==> Count(line, ',') >= 3)
      && ',' !in r.category
      && (r.id.Some? ==> ',' !in r.id.value)
      && (r.englishName.Some? ==> ',' !in r.englishName.value)
      && (r.chineseName.Some? ==> ',' !in r.chineseName.value)
  {
  }

  /** The rows of `lines`, skipping whitespace-only lines. */
  function ParsedRows(lines: seq<string>): seq<ItemRow> {
    if lines == [] then []
    else
      var last := lines[|lines| - 1];
      ParsedRows(lines[..|lines| - 1]) + (if IsBlank(last) then [] else [ParseRow(last)])
  }

  /** What `parseItemsCSV` returns for a file with this content. */
  function ParseItems(content: string): seq<ItemRow> {
    ParsedRows(DataLines(content))
  }

  method ParseItemsCsv(content: string) returns (items: seq<ItemRow>)
    ensures items == ParseItems(content)
  {
    // The trimmed content split into lines, without the header.
    var dataLines := DataLines(content);
    items := [];
    for k := 0 to |dataLines|
      invariant items == ParsedRows(dataLines[..k])
    {
      var line := dataLines[k];
      ParsedRowsStep(dataLines, k);
      if Trim(line) == [] {
        continue;
      }
      items := items + [ParseRow(line)];
    }
    assert dataLines[..|dataLines|] == dataLines;
  }

  lemma ParsedRowsSnoc(lines: seq<string>, line: string)
    ensures ParsedRows(lines + [line]) == ParsedRows(lines) + (if IsBlank(line) then [] else [ParseRow(line)])
  {
    assert (lines + [line])[..|lines|] == lines;
  }

  lemma ParsedRowsStep(lines: seq<string>, k: nat)
    requires k < |lines|
    ensures ParsedRows(lines[..k + 1])
         == ParsedRows(lines[..k]) + (if IsBlank(lines[k]) then [] else [ParseRow(lines[k])])
  {
    assert lines[..k + 1][..k] == lines[..k];
  }

  /** Parsing works line by line. */
  lemma {:induction false} ParsedRowsAppend(a: seq<string>, b: seq<string>)
    ensures ParsedRows(a + b) == ParsedRows(a) + ParsedRows(b)
  {
    if b == [] {
      assert a + b == a;
    } else {
      var init, last := b[..|b| - 1], b[|b| - 1];
      assert a + b == (a + init) + [last];
      assert b == init + [last];
      ParsedRowsAppend(a, init);
      ParsedRowsSnoc(a + init, last);
      ParsedRowsSnoc(init, last);
    }
  }

  /** A whitespace-only line adds no row wherever it stands. */
  lemma BlankLineIgnored(a: seq<string>, line: string, b: seq<string>)
    requires IsBlank(line)
    ensures ParsedRows(a + [line] + b) == ParsedRows(a + b)
  {
    ParsedRowsAppend(a + [line], b);
    ParsedRowsSnoc(a, line);
    ParsedRowsAppend(a, b);
  }

  /** No parsed field holds a line break: the content was split on them. */
  lemma {:induction false} ParsedRowsHaveNoNewline(lines: seq<string>)
    requires forall i :: 0 <= i < |lines| ==> '\n' !in lines[i]
    ensures forall i :: 0 <= i < |ParsedRows(lines)| ==> NoNewlineInRow(ParsedRows(lines)[i])
  {
    if lines != [] {
      var last := lines[|lines| - 1];
      ParsedRowsHaveNoNewline(lines[..|lines| - 1]);
      SplitPiecesOfLine(last);
    }
  }

  predicate NoNewline(s: string) {
    '\n' !in s
  }

  predicate NoNewlineInRow(r: ItemRow) {
    && NoNewline(r.category)
    && (r.id.Some? ==> NoNewline(r.id.value))
    && (r.englishName.Some? ==> NoNewline(r.englishName.value))
    && (r.chineseName.Some? ==> NoNewline(r.chineseName.value))
  }

  lemma SplitPiecesOfLine(line: string)
    requires '\n' !in line
    ensures NoNewlineInRow(ParseRow(line))
  {
    var fields := Split(line, ',');
    forall i | 0 <= i < |fields| ensures '\n' !in fields[i] {
      JoinSplit(line, ',');
      JoinedPieceIsPart(fields, [','], i);
    }
  }

  /** A piece is a part of the text it is joined into. */
  lemma {:induction false} JoinedPieceIsPart(parts: seq<string>, sep: string, i: nat)
    requires i < |parts|
    ensures forall c :: c in parts[i] ==> c in Join(parts, sep)
  {
    if |parts| > 1 {
      if i > 0 {
        JoinedPieceIsPart(parts[1..], sep, i - 1);
      }
    }
  }

  lemma ParsedItemsHaveNoNewline(content: string)
    ensures forall i :: 0 <= i < |ParseItems(content)| ==> NoNewlineInRow(ParseItems(content)[i])
  {
    DataLinesHaveNoNewline(content);
    ParsedRowsHaveNoNewline(DataLines(content));
  }

  lemma DataLinesHaveNoNewline(content: string)
    ensures forall i :: 0 <= i < |DataLines(content)| ==> '\n' !in DataLines(content)[i]
  {
    TailAvoids(Split(Trim(content), '\n'), '\n');
  }

  lemma TailAvoids<T>(pieces: seq<seq<T>>, d: T)
    requires |pieces| >= 1 && forall i :: 0 <= i < |pieces| ==> d !in pieces[i]
    ensures forall i :: 0 <= i < |pieces[1..]| ==> d !in pieces[1..][i]
  {
    assert forall i :: 0 <= i < |pieces[1..]| ==> pieces[1..][i] == pieces[i + 1];
  }

  // -- writing a CSV file, the inverse of parsing it

  /** A row that a CSV line can hold: all four fields present, none holding
      a comma or a line break. */
  predicate Writable(r: ItemRow) {
    && r.id.Some? && r.englishName.Some? && r.chineseName.Some?
    && NoNewlineInRow(r)
    && ',' !in r.category && ',' !in r.id.value && ',' !in r.englishName.value && ',' !in r.chineseName.value
  }

  function EncodeRow(r: ItemRow): string
    requires r.id.Some? && r.englishName.Some? && r.chineseName.Some?
  {
    Join([r.category, r.id.value, r.englishName.value, r.chineseName.value], ",")
  }

  function EncodeRows(rows: seq<ItemRow>): (lines: seq<string>)
    requires forall i :: 0 <= i < |rows| ==> Writable(rows[i])
    ensures |lines| == |rows|
  {
    if rows == [] then []
    else
      var last := rows[|rows| - 1];
      assert Writable(last);
      assert last.id.Some?;
      EncodeRows(rows[..|rows| - 1]) + [EncodeRow(last)]
  }

  /** The CSV text of a header line and the rows, one per line, with a
      final line break. */
  function EncodeCsv(header: string, rows: seq<ItemRow>): string
    requires forall i :: 0 <= i < |rows| ==> Writable(rows[i])
  {
    Join([header] + EncodeRows(rows), "\n") + "\n"
  }

  lemma ParseEncodeRow(r: ItemRow)
    requires Writable(r)
    ensures ParseRow(EncodeRow(r)) == r
  {
    SplitJoin([r.category, r.id.value, r.englishName.value, r.chineseName.value], ',');
  }

  /** A written row is never blank: it holds three commas. */
  lemma EncodedRowNotBlank(r: ItemRow)
    requires r.id.Some? && r.englishName.Some? && r.chineseName.Some?
    ensures !IsBlank(EncodeRow(r))
  {
    EncodeRowFields(r);
    assert EncodeRow(r)[|r.category|] == ',';
  }

  lemma {:induction false} ParseEncodeRows(rows: seq<ItemRow>)
    requires forall i :: 0 <= i < |rows| ==> Writable(rows[i])
    ensures ParsedRows(EncodeRows(rows)) == rows
  {
    if rows != [] {
      var init := rows[..|rows| - 1];
      ParseEncodeRows(init);
      ParseEncodeRow(rows[|rows| - 1]);
      EncodedRowNotBlank(rows[|rows| - 1]);
      assert EncodeRows(rows) == EncodeRows(init) + [EncodeRow(rows[|rows| - 1])];
      ParsedRowsSnoc(EncodeRows(init), EncodeRow(rows[|rows| - 1]));
      assert rows == init + [rows[|rows| - 1]];
    }
  }

  /** The four fields with a comma between each two. */
  lemma EncodeRowFields(r: ItemRow)
    requires r.id.Some? && r.englishName.Some? && r.chineseName.Some?
    ensures EncodeRow(r) == r.category + "," + r.id.value + "," + r.englishName.value + "," + r.chineseName.value
  {
    var parts := [r.category, r.id.value, r.englishName.value, r.chineseName.value];
    assert parts[1..] == [r.id.value, r.englishName.value, r.chineseName.value];
    assert parts[1..][1..] == [r.englishName.value, r.chineseName.value];
    assert parts[1..][1..][1..] == [r.chineseName.value];
    assert Join(parts[1..][1..], ",") == r.englishName.value + "," + r.chineseName.value;
    assert Join(parts[1..], ",") == r.id.value + "," + (r.englishName.value + "," + r.chineseName.value);
  }

  lemma {:induction false} EncodedRowsHaveNoNewline(rows: seq<ItemRow>)
    requires forall i :: 0 <= i < |rows| ==> Writable(rows[i])
    ensures forall i :: 0 <= i < |EncodeRows(rows)| ==> '\n' !in EncodeRows(rows)[i]
  {
    if rows != [] {
      var init, r := rows[..|rows| - 1], rows[|rows| - 1];
      EncodedRowsHaveNoNewline(init);
      EncodeRowFields(r);
      var a, b := EncodeRows(init), [EncodeRow(r)];
      assert EncodeRows(rows) == a + b;
      forall i | 0 <= i < |a + b| ensures '\n' !in (a + b)[i] {
        if i >= |a| {
          assert (a + b)[i] == EncodeRow(r);
        }
      }
    }
  }

  /** Round trip: a CSV file written from rows parses back to those rows,
      whatever the header, provided the text does not begin or end with
      whitespace that `trim` would cut from a field. */
  lemma ParseEncodeCsv(header: string, rows: seq<ItemRow>)
    requires forall i :: 0 <= i < |rows| ==> Writable(rows[i])
    requires '\n' !in header
    requires var body := Join([header] + EncodeRows(rows), "\n");
      body != [] && !IsWhitespace(body[0]) && !IsWhitespace(body[|body| - 1])
    ensures ParseItems(EncodeCsv(header, rows)) == rows
  {
    var lines := [header] + EncodeRows(rows);
    TrimFinalNewline(Join(lines, "\n"));
    CsvLinesHaveNoNewline(header, rows);
    SplitJoin(lines, '\n');
    assert lines[1..] == EncodeRows(rows);
    ParseEncodeRows(rows);
  }

  lemma CsvLinesHaveNoNewline(header: string, rows: seq<ItemRow>)
    requires forall i :: 0 <= i < |rows| ==> Writable(rows[i])
    requires '\n' !in header
    ensures forall i :: 0 <= i < |[header] + EncodeRows(rows)| ==> '\n' !in ([header] + EncodeRows(rows))[i]
  {
    var lines := [header] + EncodeRows(rows);
    EncodedRowsHaveNoNewline(rows);
    forall i | 0 <= i < |lines| ensures '\n' !in lines[i] {
      if i > 0 {
        assert lines[i] == EncodeRows(rows)[i - 1];
      }
    }
  }

  lemma TrimFinalNewline(s: string)
    requires s != [] && !IsWhitespace(s[0]) && !IsWhitespace(s[|s| - 1])
    ensures Trim(s + "\n") == s
  {
    var t := s + "\n";
    assert TrimStart(t) == t;
    assert t[..|t| - 1] == s;
    assert TrimEnd(t) == TrimEnd(s);
    assert TrimEnd(s) == s;
  }

  // ---------------------------------------------------------------------
  // generateItemsTS

  /** `${field}` of a possibly undefined field. */
  function Interpolated(o: Option<string>): string {
    if o.Some? then o.value else "undefined"
  }

  /** `toCamelCase(item.id)` reads `.replace` of `undefined`: a TypeError,
      raised at the first row without an id. */
  datatype GenerateError = IdMissing(index: nat)

  predicate HasId(r: ItemRow) {
    r.id.Some?
  }

  predicate AllHaveIds(items: seq<ItemRow>) {
    forall i :: 0 <= i < |items| ==> HasId(items[i])
  }

  const HeaderLines: seq<string> := [
    "// This file is auto-generated. Do not edit manually.",
    "// Generated from tools/receipt_gen/csv/items.csv",
    "// Output: src/receipts/generated/items.ts",
    ""
  ]

  const EnumOpen: string := "export enum ItemCategory {"

  /** The closing of the enum and the `Item` interface. */
  const InterfaceLines: seq<string> := [
    "}",
    "",
    "export interface Item {",
    "  label: string;",
    "  category: ItemCategory;",
    "  imagePath: string;",
    "}",
    "",
    "export const items: Record<string, Item> = {"
  ]

  const FooterLines: seq<string> := ["};", ""]

  function CategoriesOf(items: seq<ItemRow>): (cs: seq<string>)
    ensures |cs| == |items| && forall i :: 0 <= i < |items| ==> cs[i] == items[i].category
  {
    seq(|items|, i requires 0 <= i < |items| => items[i].category)
  }

  lemma LexLeqIsPreorder()
    ensures TotalPreorder(LexLeq)
  {
    forall a, b ensures LexLeq(a, b) || LexLeq(b, a) {
      LexLeqTotal(a, b);
    }
    forall a, b, c | LexLeq(a, b) && LexLeq(b, c) ensures LexLeq(a, c) {
      LexLeqTransitive(a, b, c);
    }
  }

  /** `[...new Set(items.map(item => item.category))].sort()`. */
  function Categories(items: seq<ItemRow>): seq<string> {
    SortBy(Distinct(CategoriesOf(items)), LexLeq)
  }

  /** The enum lists every category of the rows and nothing else, each
      once, in increasing code-unit order. */
  lemma CategoriesSortedAndDistinct(items: seq<ItemRow>)
    ensures forall c :: c in Categories(items) <==> exists i :: 0 <= i < |items| && items[i].category == c
    ensures forall i, j :: 0 <= i < j < |Categories(items)| ==>
      LexLeq(Categories(items)[i], Categories(items)[j]) && Categories(items)[i] != Categories(items)[j]
  {
    LexLeqIsPreorder();
    var d := Distinct(CategoriesOf(items));
    var cs := Categories(items);
    SortBySpec(d, LexLeq);
    forall c ensures c in cs <==> c in d {
      assert c in cs <==> c in multiset(cs);
      assert c in d <==> c in multiset(d);
    }
    forall c ensures c in d <==> exists i :: 0 <= i < |items| && items[i].category == c {
      if c in CategoriesOf(items) {
        var i :| 0 <= i < |items| && CategoriesOf(items)[i] == c;
      }
    }
    forall a, b | LexLeq(a, b) && LexLeq(b, a) ensures a == b {
      LexLeqAntisymmetric(a, b);
    }
    SortByStrict(d, LexLeq);
  }

  function CategoryLine(category: string): string {
    "  " + ToCamelCase(category) + ","
  }

  function CategoryLines(cs: seq<string>): (lines: seq<string>)
    ensures |lines| == |cs|
  {
    if cs == [] then [] else CategoryLines(cs[..|cs| - 1]) + [CategoryLine(cs[|cs| - 1])]
  }

  function ImagePath(id: string): string {
    "/images/items/" + id + ".webp"
  }

  /** The five lines of one entry of the `items` record. */
  function EntryLines(item: ItemRow): (lines: seq<string>)
    requires HasId(item)
    ensures |lines| == 5
  {
    [
      "  " + ToCamelCase(item.id.value) + ": {",
      "    label: '" + Interpolated(item.chineseName) + "',",
      "    category: ItemCategory." + ToCamelCase(item.category) + ",",
      "    imagePath: '" + ImagePath(item.id.value) + "',",
      "  },"
    ]
  }

  function EntriesLines(items: seq<ItemRow>): (lines: seq<string>)
    requires AllHaveIds(items)
    ensures |lines| == 5 * |items|
  {
    if items == [] then []
    else EntriesLines(items[..|items| - 1]) + EntryLines(items[|items| - 1])
  }

  /** Everything before the first entry: the header, the enum and the
      interface, and the opening of the record. */
  function ModulePrefix(cs: seq<string>): (lines: seq<string>)
    ensures |lines| == 14 + |cs|
  {
    HeaderLines + [EnumOpen] + CategoryLines(cs) + InterfaceLines
  }

  /** The lines of the module for the enum members `cs`, before they are
      joined. */
  function ModuleLinesWith(cs: seq<string>, items: seq<ItemRow>): seq<string>
    requires AllHaveIds(items)
  {
    ModulePrefix(cs) + EntriesLines(items) + FooterLines
  }

  /** The lines of the generated module, before they are joined. */
  function ModuleLines(items: seq<ItemRow>): seq<string>
    requires AllHaveIds(items)
  {
    ModuleLinesWith(Categories(items), items)
  }

  method GenerateItemsTs(items: seq<ItemRow>) returns (r: Result<string, GenerateError>)
    ensures r.Failure? <==> !AllHaveIds(items)
    ensures r.Failure? ==>
      r.error.index < |items| && !HasId(items[r.error.index]) && AllHaveIds(items[..r.error.index])
    ensures r.Success? ==> AllHaveIds(items) && r.value == Join(ModuleLines(items), "\n")
  {
    var lines: seq<string> := HeaderLines;

    var categories := Categories(items);
    lines := lines + [EnumOpen];
    ghost var beforeEnum := lines;
    for j := 0 to |categories|
      invariant lines == beforeEnum + CategoryLines(categories[..j])
    {
      var camelCaseKey := ToCamelCase(categories[j]);
      ghost var before := lines;
      lines := lines + ["  " + camelCaseKey + ","];
      CategoryLinesSnoc(beforeEnum, before, lines, categories, j);
    }
    assert categories[..|categories|] == categories;

    lines := lines + InterfaceLines;
    ghost var prefix := lines;
    assert prefix == ModulePrefix(categories);
    for i := 0 to |items|
      invariant AllHaveIds(items[..i])
      invariant lines == prefix + EntriesLines(items[..i])
    {
      var item := items[i];
      if item.id.None? {
        return Failure(IdMissing(i));
      }
      ghost var before := lines;
      lines := PushEntry(lines, item);
      EntriesLinesSnoc(prefix, before, lines, items, i);
    }
    assert items[..|items|] == items;

    lines := lines + FooterLines;
    assert lines == ModuleLinesWith(categories, items);
    return Success(Join(lines, "\n"));
  }

  /** The body of `items.forEach`: the five lines of one entry pushed. */
  method PushEntry(lines: seq<string>, item: ItemRow) returns (after: seq<string>)
    requires HasId(item)
    ensures after == lines + EntryLines(item)
  {
    var camelCaseKey := ToCamelCase(item.id.value);
    var camelCaseCategory := ToCamelCase(item.category);
    var imagePath := "/images/items/" + item.id.value + ".webp";
    after := lines + ["  " + camelCaseKey + ": {"];
    after := after + ["    label: '" + Interpolated(item.chineseName) + "',"];
    after := after + ["    category: ItemCategory." + camelCaseCategory + ","];
    after := after + ["    imagePath: '" + imagePath + "',"];
    after := after + ["  },"];
    PushedEntry(lines, after, item);
  }

  lemma CategoryLinesSnoc(prefix: seq<string>, before: seq<string>, after: seq<string>,
                           cs: seq<string>, j: nat)
    requires j < |cs|
    requires before == prefix + CategoryLines(cs[..j])
    requires after == before + [CategoryLine(cs[j])]
    ensures after == prefix + CategoryLines(cs[..j + 1])
  {
    assert cs[..j + 1][..j] == cs[..j];
  }

  /** Pushing an entry's five lines one by one appends `EntryLines`. */
  lemma PushedEntry(before: seq<string>, after: seq<string>, item: ItemRow)
    requires HasId(item)
    requires after == before + [EntryLines(item)[0]] + [EntryLines(item)[1]]
      + [EntryLines(item)[2]] + [EntryLines(item)[3]] + [EntryLines(item)[4]]
    ensures after == before + EntryLines(item)
  {
  }

  lemma AllHaveIdsSnoc(items: seq<ItemRow>, i: nat)
    requires i < |items| && AllHaveIds(items[..i]) && HasId(items[i])
    ensures AllHaveIds(items[..i + 1])
  {
    var t := items[..i + 1];
    forall j | 0 <= j < |t| ensures HasId(t[j]) {
      if j < i {
        assert t[j] == items[..i][j];
      }
    }
  }

  lemma EntriesLinesStep(items: seq<ItemRow>, i: nat)
    requires i < |items| && AllHaveIds(items[..i + 1])
    ensures AllHaveIds(items[..i]) && HasId(items[i])
    ensures EntriesLines(items[..i + 1]) == EntriesLines(items[..i]) + EntryLines(items[i])
  {
    assert items[..i + 1][..i] == items[..i];
    assert items[..i + 1][i] == items[i];
  }

  lemma EntriesLinesSnoc(prefix: seq<string>, before: seq<string>, after: seq<string>,
                         items: seq<ItemRow>, i: nat)
    requires i < |items| && AllHaveIds(items[..i]) && HasId(items[i])
    requires before == prefix + EntriesLines(items[..i])
    requires after == before + EntryLines(items[i])
    ensures AllHaveIds(items[..i + 1])
    ensures after == prefix + EntriesLines(items[..i + 1])
  {
    AllHaveIdsSnoc(items, i);
    EntriesLinesStep(items, i);
  }

  // -- what the generated module looks like

  /** 4 header lines, the enum's opening line, one line per enum member, 9
      lines closing the enum and declaring the interface and record, 5
      lines per item, and 2 closing lines. */
  lemma ModuleLineCount(cs: seq<string>, items: seq<ItemRow>)
    requires AllHaveIds(items)
    ensures |ModuleLinesWith(cs, items)| == 16 + |cs| + 5 * |items|
  {
  }

  lemma {:induction false} EntriesLinesAt(items: seq<ItemRow>, i: nat)
    requires AllHaveIds(items) && i < |items|
    ensures EntriesLines(items)[5 * i..5 * i + 5] == EntryLines(items[i])
  {
    var init, last := items[..|items| - 1], items[|items| - 1];
    var before, entry := EntriesLines(init), EntryLines(last);
    assert EntriesLines(items) == before + entry;
    if i < |init| {
      EntriesLinesAt(init, i);
      SliceOfFront(before, entry, 5 * i, 5 * i + 5);
    } else {
      assert (before + entry)[|before|..] == entry;
    }
  }

  lemma SliceOfFront<T>(a: seq<T>, b: seq<T>, lo: nat, hi: nat)
    requires lo <= hi <= |a|
    ensures (a + b)[lo..hi] == a[lo..hi]
  {
  }

  /** Item `i` occupies lines 14 + C + 5i to 18 + C + 5i, where C is the
      number of enum members, in input order: its key is the camel-cased
      id and its image path uses the raw id. */
  lemma EntryOfItem(cs: seq<string>, items: seq<ItemRow>, i: nat)
    requires AllHaveIds(items) && i < |items|
    ensures var at := 14 + |cs| + 5 * i;
      && at + 5 <= |ModuleLinesWith(cs, items)|
      && ModuleLinesWith(cs, items)[at..at + 5] == EntryLines(items[i])
  {
    var m, at, e := ModuleLinesWith(cs, items), 14 + |cs| + 5 * i, EntryLines(items[i]);
    EntryLineAt(cs, items, i, 4);
    forall k | 0 <= k < |e| ensures m[at + k] == e[k] {
      EntryLineAt(cs, items, i, k);
    }
    SliceByIndex(m, at, e);
  }

  lemma SliceByIndex<T>(m: seq<T>, at: nat, e: seq<T>)
    requires at + |e| <= |m|
    requires forall k :: 0 <= k < |e| ==> m[at + k] == e[k]
    ensures m[at..at + |e|] == e
  {
  }

  lemma IndexOfMiddle<T>(p: seq<T>, q: seq<T>, r: seq<T>, k: nat)
    requires k < |q|
    ensures (p + q + r)[|p| + k] == q[k]
  {
  }

  lemma EntryLineAt(cs: seq<string>, items: seq<ItemRow>, i: nat, k: nat)
    requires AllHaveIds(items) && i < |items| && k < 5
    ensures 14 + |cs| + 5 * i + k < |ModuleLinesWith(cs, items)|
    ensures ModuleLinesWith(cs, items)[14 + |cs| + 5 * i + k] == EntryLines(items[i])[k]
  {
    var entries := EntriesLines(items);
    EntriesLinesAt(items, i);
    assert entries[5 * i..5 * i + 5][k] == entries[5 * i + k];
    IndexOfMiddle(ModulePrefix(cs), entries, FooterLines, 5 * i + k);
  }

  /** The entry's first line is its key, the camel-cased id, and its fourth
      line the image path built from the raw id. */
  lemma EntryKeyAndImage(cs: seq<string>, items: seq<ItemRow>, i: nat)
    requires AllHaveIds(items) && i < |items|
    ensures var m, at := ModuleLinesWith(cs, items), 14 + |cs| + 5 * i;
      && at + 5 <= |m|
      && m[at] == "  " + ToCamelCase(items[i].id.value) + ": {"
      && m[at + 3] == "    imagePath: '" + ImagePath(items[i].id.value) + "',"
  {
    EntryLineAt(cs, items, i, 0);
    EntryLineAt(cs, items, i, 3);
  }

  lemma {:induction false} CategoryLinesAt(cs: seq<string>, j: nat)
    requires j < |cs|
    ensures CategoryLines(cs)[j] == CategoryLine(cs[j])
  {
    if j < |cs| - 1 {
      CategoryLinesAt(cs[..|cs| - 1], j);
    }
  }

  /** Line 5 + j declares the j-th enum member, camel-cased. */
  lemma EnumMemberAt(cs: seq<string>, items: seq<ItemRow>, j: nat)
    requires AllHaveIds(items) && j < |cs|
    ensures ModuleLinesWith(cs, items)[5 + j] == "  " + ToCamelCase(cs[j]) + ","
  {
    CategoryLinesAt(cs, j);
    IndexOfMiddle(HeaderLines + [EnumOpen], CategoryLines(cs), InterfaceLines, j);
    assert ModuleLinesWith(cs, items)[5 + j] == ModulePrefix(cs)[5 + j];
  }

  /** The text starts with the header (three comment lines and an empty
      line) and ends with a line break, since the last line joined is
      empty. */
  lemma ModuleTextShape(cs: seq<string>, items: seq<ItemRow>)
    requires AllHaveIds(items)
    ensures var text, header := Join(ModuleLinesWith(cs, items), "\n"), Join(HeaderLines, "\n") + "\n";
      && |header| <= |text| && text[..|header|] == header
      && text[|text| - 1] == '\n'
  {
    var m := ModuleLinesWith(cs, items);
    var init := m[..|m| - 1];
    assert m == init + [""];
    JoinAppend(init, [""], "\n");
    var rest := m[|HeaderLines|..];
    assert m == HeaderLines + rest;
    JoinAppend(HeaderLines, rest, "\n");
    var header := Join(HeaderLines, "\n") + "\n";
    assert Join(m, "\n") == header + Join(rest, "\n");
  }
}
