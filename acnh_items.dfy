/** The item and recipe catalog of `src/acnh_items.rs`: the catalog entries,
    id and variant lookups, keyword search, and the loader that reads the
    `;`-separated catalog files (a header line naming the columns, then one
    entry per line). */
module AcnhItems {
  import opened Seqs
  import opened Bytes
  import opened Text

  datatype ItemType = ItemKind | RecipeKind

  /** A catalog entry: an item, or a recipe (DIY card) for one. */
  datatype Item =
    | Item(itemId: u32, iName: string, engName: string, color: string)
    | Recipe(recipeId: u32, iName: string, engName: string)

  /** `Item::get_id`: the id field of either variant. */
  function GetId(it: Item): (id: u32)
    ensures it.Item? ==> id == it.itemId
    ensures it.Recipe? ==> id == it.recipeId
  {
    match it
    case Item(itemId, _, _, _) => itemId
    case Recipe(recipeId, _, _) => recipeId
  }

  /** `Item::get_type`: the variant tag. */
  function GetType(it: Item): (t: ItemType)
    ensures t == ItemKind <==> it.Item?
    ensures t == RecipeKind <==> it.Recipe?
  {
    match it
    case Item(_, _, _, _) => ItemKind
    case Recipe(_, _, _) => RecipeKind
  }

  /** The lookup predicate of `get_item_by_id` and `get_recipe_by_id`. */
  function HasKindAndId(kind: ItemType, id: u32): Item -> bool
  {
    (it: Item) => GetType(it) == kind && GetId(it) == id
  }

  // ---------------------------------------------------------------------
  // Keyword search

  /** The inner loop of `find_items`: every keyword, lowercased, occurs in
      the lowercased description; the first that does not ends the check. */
  function KeywordsMatch(description: string, keywords: seq<string>): (r: bool)
    ensures r <==> forall i | 0 <= i < |keywords| :: Contains(ToLower(description), ToLower(keywords[i]))
  {
    if keywords == [] then true
    else if !Contains(ToLower(description), ToLower(keywords[0])) then false
    else
      assert forall i | 1 <= i < |keywords| :: keywords[i] == keywords[1..][i - 1];
      KeywordsMatch(description, keywords[1..])
  }

  /** A description matches a query when it matches every space-separated
      keyword of the query. */
  predicate QueryMatches(description: string, query: string)
  {
    KeywordsMatch(description, Split(query, ' '))
  }

  /** The filter of `find_items`; `describe` is the entry's Debug rendering. */
  function QueryPick(query: string, describe: Item -> string): Item -> bool
  {
    (it: Item) => QueryMatches(describe(it), query)
  }

  /** The empty keyword occurs in every description. */
  lemma EmptyKeywordOccurs(description: string)
    ensures Contains(ToLower(description), ToLower(""))
  {
    assert OccursAt(ToLower(description), ToLower(""), 0);
  }

  /** A query of one more keyword matches exactly those descriptions that
      match the shorter query and the new keyword. */
  lemma QueryMatchesExtend(description: string, query: string, keyword: string)
    ensures QueryMatches(description, query + " " + keyword)
            == (QueryMatches(description, query) && QueryMatches(description, keyword))
  {
    SplitAround(query, keyword, ' ');
    assert query + " " + keyword == query + [' '] + keyword;
    var a, b := Split(query, ' '), Split(keyword, ' ');
    KeywordsAppend(description, a, b);
  }

  lemma KeywordsAppend(description: string, a: seq<string>, b: seq<string>)
    ensures KeywordsMatch(description, a + b) == (KeywordsMatch(description, a) && KeywordsMatch(description, b))
  {
    var d := ToLower(description);
    if KeywordsMatch(description, a) && KeywordsMatch(description, b) {
      forall i | 0 <= i < |a + b| ensures Contains(d, ToLower((a + b)[i])) {
        if i < |a| {
          assert (a + b)[i] == a[i];
        } else {
          assert (a + b)[i] == b[i - |a|];
        }
      }
    }
    if KeywordsMatch(description, a + b) {
      forall i | 0 <= i < |a| ensures Contains(d, ToLower(a[i])) {
        assert (a + b)[i] == a[i];
      }
      forall i | 0 <= i < |b| ensures Contains(d, ToLower(b[i])) {
        assert (a + b)[i + |a|] == b[i];
      }
    }
  }

  // ---------------------------------------------------------------------
  // Loading

  /** Each piece with its surrounding whitespace removed. */
  function TrimEach(pieces: seq<string>): (r: seq<string>)
    ensures |r| == |pieces|
    ensures forall i {:trigger r[i]} | 0 <= i < |r| :: r[i] == Trim(pieces[i])
  {
    if pieces == [] then []
    else
      assert forall i | 1 <= i < |pieces| :: pieces[i] == pieces[1..][i - 1];
      [Trim(pieces[0])] + TrimEach(pieces[1..])
  }

  /** The columns of a line: its `;`-separated pieces, trimmed. */
  function Columns(line: string): seq<string>
  {
    TrimEach(Split(line, ';'))
  }

  function NonEmpty(c: string): bool
  {
    |c| > 0
  }

  /** The header list: the non-empty columns of the first line, in order.
      The header count leaves out empty columns; the column count of a data
      row does not. */
  function Headers(line: string): seq<string>
  {
    Filter(Columns(line), NonEmpty)
  }

  /** `headers.iter().position(|c| c == name)`. */
  function Position(names: seq<string>, name: string): (r: Option<nat>)
    ensures r.None? <==> name !in names
    ensures r.Some? ==> r.value < |names| && names[r.value] == name
  {
    if names == [] then None
    else if names[0] == name then Some(0)
    else
      var rest := Position(names[1..], name);
      assert names == [names[0]] + names[1..];
      if rest.None? then None else Some(rest.value + 1)
  }

  /** The position found is the first occurrence of the name. */
  lemma {:induction false} PositionIsFirst(names: seq<string>, name: string)
    requires name in names
    ensures name !in names[..Position(names, name).value]
  {
    if names[0] != name {
      assert names == [names[0]] + names[1..];
      PositionIsFirst(names[1..], name);
      var p := Position(names[1..], name).value;
      assert names[..p + 1] == [names[0]] + names[1..][..p];
    }
  }

  /** What one data row does to the catalog. `RowPanics` stands for the
      `unwrap` of a missing header name or of an id that is not base-16. */
  datatype RowOutcome = Skipped | Accepted(item: Item) | RowPanics

  /** The column of a row under header `name`, if there is such a header. */
  function Field(headers: seq<string>, cols: seq<string>, name: string): (r: Option<string>)
    requires |cols| == |headers|
    ensures r.None? <==> name !in headers
  {
    var k := Position(headers, name);
    if k.None? then None else Some(cols[k.value])
  }

  /** The column under a name is the one at the first header of that name. */
  lemma FieldAtFirstHeader(headers: seq<string>, cols: seq<string>, name: string, k: nat)
    requires |cols| == |headers| && k < |headers| && headers[k] == name && name !in headers[..k]
    ensures Field(headers, cols, name) == Some(cols[k])
  {
    var p := Position(headers, name).value;
    PositionIsFirst(headers, name);
    forall i | 0 <= i < k ensures headers[i] != name {
      assert headers[..k][i] == headers[i];
    }
    forall i | 0 <= i < p ensures headers[i] != name {
      assert headers[..p][i] == headers[i];
    }
  }

  /** One data row of `load_items_file`. */
  function ParseRow(headers: seq<string>, cols: seq<string>, kind: ItemType): RowOutcome
  {
    if |cols| != |headers| then Skipped
    else
      var id := Field(headers, cols, "id");
      var eng := Field(headers, cols, "eng");
      var iName := Field(headers, cols, "iName");
      if id.None? || FromStrRadix16(id.value).None? || eng.None? || iName.None? then RowPanics
      else
        match kind
        case ItemKind =>
          var color := Field(headers, cols, "color");
          if color.None? then RowPanics
          else Accepted(Item(FromStrRadix16(id.value).value, iName.value, eng.value, color.value))
        case RecipeKind =>
          Accepted(Recipe(FromStrRadix16(id.value).value, iName.value, eng.value))
  }

  /** Which columns a kind of entry needs. */
  predicate HasRequiredHeaders(headers: seq<string>, kind: ItemType)
  {
    "id" in headers && "eng" in headers && "iName" in headers && (kind == ItemKind ==> "color" in headers)
  }

  /** A row is skipped exactly when its column count differs from the header
      count. A row of the right width fails exactly when a required header
      is missing or its id is not a base-16 `u32`. Otherwise it becomes an
      entry of the file's kind whose id is the base-16 value of its `id`
      column and whose names (and colour) are its columns under those headers. */
  lemma ParseRowOutcome(headers: seq<string>, cols: seq<string>, kind: ItemType)
    ensures ParseRow(headers, cols, kind).Skipped? <==> |cols| != |headers|
    ensures ParseRow(headers, cols, kind).RowPanics? <==>
              |cols| == |headers| &&
              (!HasRequiredHeaders(headers, kind) || FromStrRadix16(Field(headers, cols, "id").value).None?)
    ensures ParseRow(headers, cols, kind).Accepted? ==>
              var it := ParseRow(headers, cols, kind).item;
              && GetType(it) == kind
              && Some(GetId(it)) == FromStrRadix16(Field(headers, cols, "id").value)
              && Some(it.engName) == Field(headers, cols, "eng")
              && Some(it.iName) == Field(headers, cols, "iName")
              && (it.Item? ==> Some(it.color) == Field(headers, cols, "color"))
  {
  }

  /** What loading yields: the entries appended, and whether it ended in
      a panic (the entries before the failing row are kept). */
  datatype LoadResult = LoadResult(items: seq<Item>, panicked: bool)

  /** The data rows of a file, in order: each accepted row appends its
      entry, a skipped row appends nothing, and the first row that panics
      ends the load with the entries before it. */
  function ParseRows(headers: seq<string>, rows: seq<string>, kind: ItemType): LoadResult
    decreases |rows|
  {
    if rows == [] then LoadResult([], false)
    else
      var before := ParseRows(headers, rows[..|rows| - 1], kind);
      if before.panicked then before
      else
        match ParseRow(headers, Columns(rows[|rows| - 1]), kind)
        case Skipped => before
        case Accepted(it) => LoadResult(before.items + [it], false)
        case RowPanics => LoadResult(before.items, true)
  }

  /** A whole file: the header line, then the data rows. */
  function ParseFile(contents: string, kind: ItemType): LoadResult
  {
    var lines := Split(contents, '\n');
    ParseRows(Headers(lines[0]), lines[1..], kind)
  }

  /** Loading two runs of rows is loading the first and then, unless it
      panicked, the second. */
  lemma {:induction false} ParseRowsAppend(headers: seq<string>, a: seq<string>, b: seq<string>, kind: ItemType)
    ensures ParseRows(headers, a + b, kind) ==
              if ParseRows(headers, a, kind).panicked then ParseRows(headers, a, kind)
              else LoadResult(ParseRows(headers, a, kind).items + ParseRows(headers, b, kind).items,
                              ParseRows(headers, b, kind).panicked)
    decreases |b|
  {
    var first := ParseRows(headers, a, kind);
    if b == [] {
      assert a + b == a;
      assert first.items + [] == first.items;
    } else {
      var init, last := b[..|b| - 1], b[|b| - 1];
      assert (a + b)[..|a + b| - 1] == a + init;
      assert (a + b)[|a + b| - 1] == last;
      ParseRowsAppend(headers, a, init, kind);
      if !first.panicked && !ParseRows(headers, init, kind).panicked {
        var row := ParseRow(headers, Columns(last), kind);
        if row.Accepted? {
          var mid := ParseRows(headers, init, kind).items;
          assert (first.items + mid) + [row.item] == first.items + (mid + [row.item]);
        }
      }
    }
  }

  /** One more row after rows that did not panic: a skipped row changes
      nothing, an accepted one appends its entry, and a panic ends the load
      keeping the entries before it. */
  lemma RowStep(headers: seq<string>, rows: seq<string>, n: nat, kind: ItemType)
    requires n < |rows| && !ParseRows(headers, rows[..n], kind).panicked
    ensures var before, row := ParseRows(headers, rows[..n], kind), ParseRow(headers, Columns(rows[n]), kind);
      && ParseRows(headers, rows[..n + 1], kind).items == before.items + (if row.Accepted? then [row.item] else [])
      && ParseRows(headers, rows[..n + 1], kind).panicked == row.RowPanics?
  {
    assert rows[..n + 1][..n] == rows[..n];
  }

  /** Once a row panics, the rows after it do not matter. */
  lemma PanicEndsFile(headers: seq<string>, rows: seq<string>, n: nat, kind: ItemType)
    requires n <= |rows| && ParseRows(headers, rows[..n], kind).panicked
    ensures ParseRows(headers, rows, kind) == ParseRows(headers, rows[..n], kind)
  {
    assert rows == rows[..n] + rows[n..];
    ParseRowsAppend(headers, rows[..n], rows[n..], kind);
  }

  /** Every entry a file yields has the file's kind. */
  lemma {:induction false} ParsedItemsHaveKind(headers: seq<string>, rows: seq<string>, kind: ItemType)
    ensures forall i | 0 <= i < |ParseRows(headers, rows, kind).items| ::
              GetType(ParseRows(headers, rows, kind).items[i]) == kind
    decreases |rows|
  {
    if rows != [] {
      ParsedItemsHaveKind(headers, rows[..|rows| - 1], kind);
      ParseRowOutcome(headers, Columns(rows[|rows| - 1]), kind);
    }
  }

  /** A rejected row changes nothing, wherever it sits. */
  lemma SkippedRowChangesNothing(headers: seq<string>, before: seq<string>, row: string, after: seq<string>, kind: ItemType)
    requires |Columns(row)| != |headers|
    ensures ParseRows(headers, before + [row] + after, kind) == ParseRows(headers, before + after, kind)
  {
    ParseRowsAppend(headers, before + [row], after, kind);
    ParseRowsAppend(headers, before, [row], kind);
    ParseRowsAppend(headers, before, after, kind);
    assert [row][..0] == [];
    assert ParseRows(headers, before, kind).items + [] == ParseRows(headers, before, kind).items;
  }

  /** A final newline adds an empty row, which is skipped unless the header
      has exactly one column. */
  lemma TrailingNewlineIgnored(contents: string, kind: ItemType)
    requires |Headers(Split(contents, '\n')[0])| != 1
    ensures ParseFile(contents + "\n", kind) == ParseFile(contents, kind)
  {
    var lines := Split(contents, '\n');
    SplitAround(contents, "", '\n');
    assert contents + "\n" == contents + ['\n'] + "";
    assert Split("", '\n') == [""];
    SnocTail(lines, "");
    assert |Columns("")| == 1;
    SkippedRowChangesNothing(Headers(lines[0]), lines[1..], "", [], kind);
    assert lines[1..] + [""] + [] == lines[1..] + [""];
    assert lines[1..] + [] == lines[1..];
  }

  /** The contents of a catalog file, or the error opening or reading it. */
  datatype FileContents = Contents(text: string) | Unreadable

  /** How a load ended: `FileError` is the `?` on opening or reading a file;
      `Panicked` is an `unwrap` on a bad row, which ends the program. */
  datatype LoadOutcome = Loaded | FileError | Panicked

  /** One file: how loading it ends and the entries it appends. */
  function LoadFile(file: FileContents, kind: ItemType): (LoadOutcome, seq<Item>)
  {
    if file.Unreadable? then (FileError, [])
    else
      var parsed := ParseFile(file.text, kind);
      (if parsed.panicked then Panicked else Loaded, parsed.items)
  }

  /** Both files, the items file first: the recipes file is read only when
      the items file loaded. */
  function LoadBoth(itemsFile: FileContents, recipesFile: FileContents): (LoadOutcome, seq<Item>)
  {
    var first := LoadFile(itemsFile, ItemKind);
    if first.0 != Loaded then first
    else
      var second := LoadFile(recipesFile, RecipeKind);
      (second.0, first.1 + second.1)
  }

  /** Every entry `load_items_file` appends has the kind it was asked for. */
  lemma LoadFileHasKind(file: FileContents, kind: ItemType)
    ensures forall i | 0 <= i < |LoadFile(file, kind).1| :: GetType(LoadFile(file, kind).1[i]) == kind
  {
    if file.Contents? {
      var lines := Split(file.text, '\n');
      ParsedItemsHaveKind(Headers(lines[0]), lines[1..], kind);
    }
  }

  /** Items followed by recipes: no item comes after a recipe. */
  lemma KindsInOrder(first: seq<Item>, second: seq<Item>)
    requires forall i | 0 <= i < |first| :: GetType(first[i]) == ItemKind
    requires forall i | 0 <= i < |second| :: GetType(second[i]) == RecipeKind
    ensures var loaded := first + second;
      forall i, j | 0 <= i < j < |loaded| :: GetType(loaded[j]) == ItemKind ==> GetType(loaded[i]) == ItemKind
  {
    var loaded := first + second;
    forall j | |first| <= j < |loaded| ensures GetType(loaded[j]) == RecipeKind {
      assert loaded[j] == second[j - |first|];
    }
    forall i | 0 <= i < |first| ensures GetType(loaded[i]) == ItemKind {
      assert loaded[i] == first[i];
    }
  }

  /** `load_items` appends all item entries before any recipe entry. */
  lemma ItemsBeforeRecipes(itemsFile: FileContents, recipesFile: FileContents)
    ensures var loaded := LoadBoth(itemsFile, recipesFile).1;
      forall i, j | 0 <= i < j < |loaded| :: GetType(loaded[j]) == ItemKind ==> GetType(loaded[i]) == ItemKind
  {
    var first := LoadFile(itemsFile, ItemKind);
    LoadFileHasKind(itemsFile, ItemKind);
    if first.0 == Loaded {
      var second := LoadFile(recipesFile, RecipeKind);
      LoadFileHasKind(recipesFile, RecipeKind);
      KindsInOrder(first.1, second.1);
    }
  }

  class Catalog {
    var items: seq<Item>

    /** `AcnhItems { items: Vec::new() }`, before loading. */
    constructor ()
      ensures items == []
    {
      items := [];
    }

    /** `get_item_by_id`: the first `Item` entry, in catalog order, with
        that id; never a recipe. */
    function GetItemById(queryId: u32): (r: Option<Item>)
      reads this
      ensures r.None? <==> forall k | 0 <= k < |items| :: !(items[k].Item? && items[k].itemId == queryId)
      ensures r.Some? ==> r.value.Item? && r.value.itemId == queryId
      ensures r.Some? ==> exists k :: IsFirstMatch(items, HasKindAndId(ItemKind, queryId), k) && items[k] == r.value
    {
      HeadOfFilter(items, HasKindAndId(ItemKind, queryId));
      Head(Filter(items, HasKindAndId(ItemKind, queryId)))
    }

    /** `get_recipe_by_id`: the first `Recipe` entry, in catalog order, with
        that id; never an item. */
    function GetRecipeById(queryId: u32): (r: Option<Item>)
      reads this
      ensures r.None? <==> forall k | 0 <= k < |items| :: !(items[k].Recipe? && items[k].recipeId == queryId)
      ensures r.Some? ==> r.value.Recipe? && r.value.recipeId == queryId
      ensures r.Some? ==> exists k :: IsFirstMatch(items, HasKindAndId(RecipeKind, queryId), k) && items[k] == r.value
    {
      HeadOfFilter(items, HasKindAndId(RecipeKind, queryId));
      Head(Filter(items, HasKindAndId(RecipeKind, queryId)))
    }

    /** `find_items`: the entries whose description matches every keyword
        of the query, in catalog order. */
    function FindItems(query: string, describe: Item -> string): (r: seq<Item>)
      reads this
      ensures forall i | 0 <= i < |r| :: r[i] in items && QueryMatches(describe(r[i]), query)
      ensures forall k | 0 <= k < |items| && QueryMatches(describe(items[k]), query) :: items[k] in r
    {
      assert forall k | 0 <= k < |items| :: QueryPick(query, describe)(items[k]) == QueryMatches(describe(items[k]), query);
      Filter(items, QueryPick(query, describe))
    }

    /** `find_item`: the first search result. */
    function FindItem(query: string, describe: Item -> string): (r: Option<Item>)
      reads this
      ensures r.None? <==> forall k | 0 <= k < |items| :: !QueryMatches(describe(items[k]), query)
      ensures r.Some? ==> r.value in items && QueryMatches(describe(r.value), query)
      ensures r.Some? ==> r.value == FindItems(query, describe)[0]
      ensures r.Some? ==> exists k :: IsFirstMatch(items, QueryPick(query, describe), k) && items[k] == r.value
    {
      HeadOfFilter(items, QueryPick(query, describe));
      Head(FindItems(query, describe))
    }

    /** `find_items` keeps the matching entries in catalog order and with
        their multiplicity: the results are the catalog at the increasing
        indices `idx`, which are exactly the indices of matching entries. */
    lemma FindItemsInCatalogOrder(query: string, describe: Item -> string) returns (idx: seq<nat>)
      ensures SelectedAt(items, QueryPick(query, describe), FindItems(query, describe), idx)
      ensures forall k | 0 <= k < |items| :: QueryMatches(describe(items[k]), query) <==> k in idx
    {
      idx := FilterIndices(items, QueryPick(query, describe));
      assert forall k | 0 <= k < |items| :: QueryPick(query, describe)(items[k]) == QueryMatches(describe(items[k]), query);
    }

    /** The empty query is one empty keyword, which every entry matches. */
    lemma EmptyQueryMatchesAll(describe: Item -> string)
      ensures FindItems("", describe) == items
    {
      assert Split("", ' ') == [""];
      forall k | 0 <= k < |items| ensures QueryPick("", describe)(items[k]) {
        EmptyKeywordOccurs(describe(items[k]));
      }
      FilterAll(items, QueryPick("", describe));
    }

    /** Adding a keyword narrows the results of the shorter query, keeping
        their order. */
    lemma AddingKeywordNarrows(query: string, keyword: string, describe: Item -> string)
      ensures FindItems(query + " " + keyword, describe)
                == Filter(FindItems(query, describe), QueryPick(keyword, describe))
    {
      var p, q := QueryPick(query, describe), QueryPick(keyword, describe);
      FilterFilter(items, p, q);
      forall k | 0 <= k < |items|
        ensures QueryPick(query + " " + keyword, describe)(items[k]) == And(p, q)(items[k])
      {
        QueryMatchesExtend(describe(items[k]), query, keyword);
      }
      FilterCongruent(items, QueryPick(query + " " + keyword, describe), And(p, q));
    }

    /** `load_items_file` once the file is read: split into lines, take the
        header list from line 0, then load the data rows. */
    method LoadItemsFile(file: FileContents, kind: ItemType) returns (outcome: LoadOutcome)
      modifies this
      ensures outcome == LoadFile(file, kind).0
      ensures items == old(items) + LoadFile(file, kind).1
    {
      if file.Unreadable? {
        assert items + [] == items;
        return FileError;
      }
      var lines := Split(file.text, '\n');
      var headers := NonEmptyColumns(Columns(lines[0]));
      outcome := LoadRows(headers, lines[1..], kind);
    }

    /** The data lines of `load_items_file`: every row whose column count
        equals the header count is appended, in order; the first bad row
        panics. */
    method LoadRows(headers: seq<string>, rows: seq<string>, kind: ItemType) returns (outcome: LoadOutcome)
      modifies this
      ensures items == old(items) + ParseRows(headers, rows, kind).items
      ensures outcome == if ParseRows(headers, rows, kind).panicked then Panicked else Loaded
    {
      var n := 0;
      while n < |rows|
        invariant 0 <= n <= |rows|
        invariant items == old(items) + ParseRows(headers, rows[..n], kind).items
        invariant !ParseRows(headers, rows[..n], kind).panicked
      {
        RowStep(headers, rows, n, kind);
        var row := LoadRow(headers, rows[n], kind);
        AppendAssoc(old(items), ParseRows(headers, rows[..n], kind).items, if row.Accepted? then [row.item] else []);
        if row.RowPanics? {
          PanicEndsFile(headers, rows, n + 1, kind);
          return Panicked;
        }
        n := n + 1;
      }
      assert rows[..n] == rows;
      outcome := Loaded;
    }

    /** The body of the row loop of `load_items_file`: parse the row and
        push its entry when it is accepted. */
    method LoadRow(headers: seq<string>, line: string, kind: ItemType) returns (row: RowOutcome)
      modifies this
      ensures row == ParseRow(headers, Columns(line), kind)
      ensures items == old(items) + (if row.Accepted? then [row.item] else [])
    {
      row := ParseRow(headers, Columns(line), kind);
      if row.Accepted? {
        items := items + [row.item];
      }
    }

    /** The header loop of `load_items_file`: keep the non-empty columns. */
    static method NonEmptyColumns(cols: seq<string>) returns (headers: seq<string>)
      ensures headers == Filter(cols, NonEmpty)
    {
      headers := [];
      var k := 0;
      while k < |cols|
        invariant 0 <= k <= |cols|
        invariant headers == Filter(cols[..k], NonEmpty)
      {
        FilterAppend(cols[..k], [cols[k]], NonEmpty);
        assert cols[..k + 1] == cols[..k] + [cols[k]];
        if |cols[k]| > 0 {
          headers := headers + [cols[k]];
        }
        k := k + 1;
      }
      assert cols[..k] == cols;
    }

    /** `load_items`: the items file, then the recipes file; a file error
        stops it. */
    method LoadItems(itemsFile: FileContents, recipesFile: FileContents) returns (outcome: LoadOutcome)
      modifies this
      ensures outcome == LoadBoth(itemsFile, recipesFile).0
      ensures items == old(items) + LoadBoth(itemsFile, recipesFile).1
    {
      ghost var before := items;
      ghost var first := LoadFile(itemsFile, ItemKind);
      outcome := LoadItemsFile(itemsFile, ItemKind);
      if outcome != Loaded {
        assert LoadBoth(itemsFile, recipesFile) == first;
        return;
      }
      ghost var second := LoadFile(recipesFile, RecipeKind);
      assert LoadBoth(itemsFile, recipesFile) == (second.0, first.1 + second.1);
      outcome := LoadItemsFile(recipesFile, RecipeKind);
      AppendAssoc(before, first.1, second.1);
    }
  }
}
