/**
 * The `Subcategory` list form field: its options are the content
 * categories the visitor may see, in nested-set (`lft`) order, each title
 * indented by its level and suffixed with its language, after the options
 * the form XML defines (or a placeholder when it defines none).
 */
module SubcategoryField {
  import opened Wrappers
  import opened Php

  /** A row of the categories table, with the columns the field reads or filters on. */
  datatype CategoryRow = CategoryRow(
    id: int, title: string, level: int, language: string, extension: string,
    access: int, lft: int, rgt: int, parentId: int, published: int)

  /** An option of a select list: its value and its displayed text. */
  datatype SelectOption = SelectOption(value: string, text: string)

  /**
   * The `filter.*` entries `getOptions` assembles: the published states and
   * languages to keep, as the comma-separated attribute split into pieces,
   * and the root category id.
   */
  datatype CategoryFilters = CategoryFilters(published: Option<seq<string>>, language: Option<seq<string>>, root: Option<int>)

  /** `(string) $this->element[name]`: a missing XML attribute reads as ''. */
  function Attribute(attrs: map<string, string>, name: string): string {
    if name in attrs then attrs[name] else ""
  }

  /**
   * The filters of the field's attributes. The `published`, `language`
   * and `root` attributes each add a filter only when the attribute is
   * truthy. The lists split the attribute on commas and give it back
   * when joined again. The root is the attribute cast with `(int)`.
   */
  function FiltersOf(attrs: map<string, string>): (f: CategoryFilters)
    ensures f.published.Some? <==> IsTruthy(Attribute(attrs, "published"))
    ensures f.published.Some? ==> Implode(',', f.published.value) == Attribute(attrs, "published")
    ensures f.language.Some? <==> IsTruthy(Attribute(attrs, "language"))
    ensures f.language.Some? ==> Implode(',', f.language.value) == Attribute(attrs, "language")
    ensures f.root.Some? <==> IsTruthy(Attribute(attrs, "root"))
    ensures f.root.Some? ==> f.root.value == IntCast(Attribute(attrs, "root"))
  {
    var published := Attribute(attrs, "published");
    var language := Attribute(attrs, "language");
    var root := Attribute(attrs, "root");
    ImplodeExplode(',', published);
    ImplodeExplode(',', language);
    CategoryFilters(
      if IsTruthy(published) then Some(Explode(',', published)) else None,
      if IsTruthy(language) then Some(Explode(',', language)) else None,
      if IsTruthy(root) then Some(IntCast(root)) else None)
  }

  // ---------------------------------------------------------------------------
  // Row selection
  // ---------------------------------------------------------------------------

  /** The subquery `SELECT lft FROM #__categories WHERE id = root`: the first such row's `lft`, or none. */
  function RootLft(table: seq<CategoryRow>, root: int): (r: Option<int>)
    ensures r.None? <==> forall k :: 0 <= k < |table| ==> table[k].id != root
    ensures r.Some? ==> exists k :: 0 <= k < |table| && table[k].id == root && table[k].lft == r.value
  {
    if table == [] then None
    else if table[0].id == root then Some(table[0].lft)
    else
      var rest := RootLft(table[1..], root);
      assert forall k :: 1 <= k < |table| ==> table[k] == table[1..][k - 1];
      if rest.Some? then
        var k :| 0 <= k < |table[1..]| && table[1..][k].id == root && table[1..][k].lft == rest.value;
        assert table[k + 1] == table[1..][k];
        rest
      else rest
  }

  /**
   * The WHERE clause of `options`: a `com_content` category with an access
   * level among the visitor's view levels; with a root, `lft` above the
   * root's (no root row, no category); without one, a non-root category
   * (`parent_id > 0`); with a published filter, a state among the
   * integer-cast list; with a language filter, a language in the list.
   */
  predicate RowSelected(table: seq<CategoryRow>, row: CategoryRow, filters: CategoryFilters, levels: seq<int>) {
    && row.extension == "com_content"
    && row.access in levels
    && (match filters.root
        case Some(root) => RootLft(table, root).Some? && row.lft > RootLft(table, root).value
        case None => row.parentId > 0)
    && (filters.published.Some? ==> row.published in ToInteger(filters.published.value))
    && (filters.language.Some? ==> row.language in filters.language.value)
  }

  /** The selected rows of `rows`, in table order. */
  function Selection(table: seq<CategoryRow>, rows: seq<CategoryRow>, filters: CategoryFilters, levels: seq<int>): (s: seq<CategoryRow>)
    ensures forall r :: r in s <==> r in rows && RowSelected(table, r, filters, levels)
    ensures |s| <= |rows|
  {
    if rows == [] then []
    else
      var rest := Selection(table, rows[1..], filters, levels);
      assert forall r :: r in rows <==> r == rows[0] || r in rows[1..];
      if RowSelected(table, rows[0], filters, levels) then [rows[0]] + rest else rest
  }

  /** Each selected row occurs in the selection as often as in `rows`; an unselected row not at all. */
  lemma {:induction false} SelectionCounts(table: seq<CategoryRow>, rows: seq<CategoryRow>, filters: CategoryFilters, levels: seq<int>)
    ensures forall r :: multiset(Selection(table, rows, filters, levels))[r]
                        == if RowSelected(table, r, filters, levels) then multiset(rows)[r] else 0
  {
    if rows != [] {
      SelectionCounts(table, rows[1..], filters, levels);
      assert rows == [rows[0]] + rows[1..];
      assert multiset(rows) == multiset([rows[0]]) + multiset(rows[1..]);
    }
  }

  // ---------------------------------------------------------------------------
  // ORDER BY lft
  // ---------------------------------------------------------------------------

  predicate SortedByLft(rows: seq<CategoryRow>) {
    forall i, j :: 0 <= i < j < |rows| ==> rows[i].lft <= rows[j].lft
  }

  function InsertByLft(r: CategoryRow, sorted: seq<CategoryRow>): (res: seq<CategoryRow>)
    requires SortedByLft(sorted)
    ensures SortedByLft(res)
    ensures forall x :: x in res ==> x == r || x in sorted
    ensures multiset(res) == multiset(sorted) + multiset{r}
  {
    if sorted == [] then [r]
    else if r.lft <= sorted[0].lft then [r] + sorted
    else
      assert sorted == [sorted[0]] + sorted[1..];
      var rest := InsertByLft(r, sorted[1..]);
      SortedCons(sorted[0], rest);
      [sorted[0]] + rest
  }

  lemma SortedCons(x: CategoryRow, rest: seq<CategoryRow>)
    requires SortedByLft(rest) && forall y :: y in rest ==> x.lft <= y.lft
    ensures SortedByLft([x] + rest)
  {
    forall i, j | 0 <= i < j < |[x] + rest| ensures ([x] + rest)[i].lft <= ([x] + rest)[j].lft {
      if i > 0 {
        assert ([x] + rest)[i] == rest[i - 1];
      }
      assert ([x] + rest)[j] == rest[j - 1];
    }
  }

  /** The rows in ascending `lft` order, as a permutation of the input (rows with equal `lft` keep their order). */
  function OrderByLft(rows: seq<CategoryRow>): (res: seq<CategoryRow>)
    ensures SortedByLft(res)
    ensures multiset(res) == multiset(rows)
  {
    if rows == [] then []
    else
      assert rows == [rows[0]] + rows[1..];
      InsertByLft(rows[0], OrderByLft(rows[1..]))
  }

  /** The result of the category query: the selected rows ordered by `lft`. */
  function QueryRows(table: seq<CategoryRow>, filters: CategoryFilters, levels: seq<int>): seq<CategoryRow> {
    OrderByLft(Selection(table, table, filters, levels))
  }

  /**
   * The query returns every selected category exactly as often as the table
   * holds it, none that is not selected, in ascending `lft` order.
   */
  lemma QueryRowsMeaning(table: seq<CategoryRow>, filters: CategoryFilters, levels: seq<int>)
    ensures var rows := QueryRows(table, filters, levels);
            && SortedByLft(rows)
            && multiset(rows) == multiset(Selection(table, table, filters, levels))
            && (forall r :: multiset(rows)[r] == if RowSelected(table, r, filters, levels) then multiset(table)[r] else 0)
            && forall r :: r in rows <==> r in table && RowSelected(table, r, filters, levels)
  {
    var s := Selection(table, table, filters, levels);
    var rows := QueryRows(table, filters, levels);
    SelectionCounts(table, table, filters, levels);
    forall r ensures r in rows <==> r in s {
      assert r in rows <==> r in multiset(rows);
      assert r in s <==> r in multiset(s);
    }
  }

  /**
   * With a root, the filter keeps every category whose `lft` lies above the
   * root's, which is not the root's subtree: a sibling that follows the root
   * in the tree is listed too.
   */
  lemma RootFilterIsNotSubtree()
    ensures var root := CategoryRow(2, "News", 1, "*", "com_content", 1, 1, 2, 1, 1);
            var sibling := CategoryRow(3, "Events", 1, "*", "com_content", 1, 3, 4, 1, 1);
            var table := [root, sibling];
            && RowSelected(table, sibling, CategoryFilters(None, None, Some(2)), [1])
            && !(root.lft < sibling.lft && sibling.rgt < root.rgt)
  {
  }

  // ---------------------------------------------------------------------------
  // Option titles
  // ---------------------------------------------------------------------------

  /** `str_repeat('- ', n)`. */
  function Indentation(n: nat): (r: string)
    ensures |r| == 2 * n
  {
    if n == 0 then "" else "- " + Indentation(n - 1)
  }

  /** The indentation depth of a level: one step per level below the first, never negative. */
  function Depth(level: int): nat {
    if level - 1 >= 0 then level - 1 else 0
  }

  /** An option's text: indentation, title, and ` (<language>)` unless the language is `*`. */
  function OptionTitle(row: CategoryRow): string {
    Indentation(Depth(row.level)) + row.title + (if row.language != "*" then " (" + row.language + ")" else "")
  }

  /** The option of one category row: the category id as value, its formatted title as text. */
  function CategoryOption(row: CategoryRow): SelectOption {
    SelectOption(IntToString(row.id), OptionTitle(row))
  }

  /** Undoes `OptionTitle` given the level and the language: strips the indentation and the language suffix. */
  function StripTitle(text: string, level: int, language: string): string {
    var indent := 2 * Depth(level);
    var body := if indent <= |text| then text[indent..] else "";
    var suffix := if language != "*" then |language| + 3 else 0;
    if suffix <= |body| then body[..|body| - suffix] else body
  }

  /**
   * The text starts with exactly `level - 1` indentation steps (none at the
   * top levels), ends in the language in parentheses exactly when the
   * language is not `*`, and the category title can be read back from it.
   */
  lemma {:induction false} OptionTitleParts(row: CategoryRow)
    ensures var t := OptionTitle(row);
            var indent := 2 * Depth(row.level);
            && indent <= |t| && t[..indent] == Indentation(Depth(row.level))
            && (row.language != "*" <==> |t| > indent + |row.title|)
            && (row.language != "*" ==> t[|t| - 1] == ')' && t[indent + |row.title|..] == " (" + row.language + ")")
            && StripTitle(t, row.level, row.language) == row.title
  {
    var ind := Indentation(Depth(row.level));
    var suffix := if row.language != "*" then " (" + row.language + ")" else "";
    var t := OptionTitle(row);
    assert t == ind + row.title + suffix;
    assert t[..|ind|] == ind;
    assert t[|ind|..] == row.title + suffix;
    assert (row.title + suffix)[..|row.title|] == row.title;
    assert t[|ind| + |row.title|..] == suffix;
  }

  // ---------------------------------------------------------------------------
  // The field
  // ---------------------------------------------------------------------------

  /** The category options of a list of rows, one per row, in order. */
  function CategoryOptions(rows: seq<CategoryRow>): seq<SelectOption> {
    seq(|rows|, k requires 0 <= k < |rows| => CategoryOption(rows[k]))
  }

  /** The XML-defined options, or the single placeholder `- <caption> -` with an empty value when there are none. */
  function InitialOptions(xmlOptions: seq<SelectOption>, caption: string): seq<SelectOption> {
    if xmlOptions == [] then [SelectOption("", "- " + caption + " -")] else xmlOptions
  }

  /**
   * `options`: runs the category query and turns the rows it returns into
   * options.
   */
  method Options(table: seq<CategoryRow>, filters: CategoryFilters, levels: seq<int>) returns (options: seq<SelectOption>)
    ensures options == CategoryOptions(QueryRows(table, filters, levels))
  {
    var rows := QueryRows(table, filters, levels);
    var items := new CategoryRow[|rows|](k requires 0 <= k < |rows| => rows[k]);
    assert items[..] == rows;
    options := AssembleOptions(items);
  }

  /**
   * The loop of `options` over the query's rows by reference: each row's
   * title is rewritten in place to its option text, and one option per
   * row, valued by the category id, is appended.
   */
  method AssembleOptions(items: array<CategoryRow>) returns (options: seq<SelectOption>)
    modifies items
    ensures options == CategoryOptions(old(items[..]))
    ensures forall k :: 0 <= k < items.Length ==> items[k] == old(items[k]).(title := OptionTitle(old(items[k])))
  {
    ghost var rows := items[..];
    options := [];
    var i := 0;
    while i < items.Length
      invariant 0 <= i <= items.Length == |rows|
      invariant forall k :: i <= k < items.Length ==> items[k] == rows[k]
      invariant forall k :: 0 <= k < i ==> items[k] == rows[k].(title := OptionTitle(rows[k]))
      invariant options == CategoryOptions(rows[..i])
    {
      items[i] := items[i].(title := OptionTitle(items[i]));
      options := options + [SelectOption(IntToString(items[i].id), items[i].title)];
      assert rows[..i + 1] == rows[..i] + [rows[i]];
      i := i + 1;
    }
    assert rows[..i] == rows;
  }

  /**
   * Every category option is valued by its row's category id, and the
   * row's title reads back from its text.
   */
  lemma CategoryOptionsReadBack(rows: seq<CategoryRow>)
    ensures |CategoryOptions(rows)| == |rows|
    ensures forall k :: 0 <= k < |rows| ==>
              && CategoryOptions(rows)[k].value == IntToString(rows[k].id)
              && IntCast(CategoryOptions(rows)[k].value) == rows[k].id
              && StripTitle(CategoryOptions(rows)[k].text, rows[k].level, rows[k].language) == rows[k].title
  {
    forall k | 0 <= k < |rows|
      ensures IntCast(IntToString(rows[k].id)) == rows[k].id
      ensures StripTitle(OptionTitle(rows[k]), rows[k].level, rows[k].language) == rows[k].title
    {
      IntCastOfIntToString(rows[k].id);
      OptionTitleParts(rows[k]);
    }
  }

  /**
   * `getOptions`: the filters assembled from the attributes, then the
   * initial options followed by the category options.
   */
  method GetOptions(attrs: map<string, string>, table: seq<CategoryRow>, levels: seq<int>,
                    xmlOptions: seq<SelectOption>, caption: string)
    returns (options: seq<SelectOption>)
    ensures options == InitialOptions(xmlOptions, caption) + CategoryOptions(QueryRows(table, FiltersOf(attrs), levels))
    ensures |options| >= 1
  {
    var published := Attribute(attrs, "published");
    var language := Attribute(attrs, "language");
    var root := Attribute(attrs, "root");
    var filters := CategoryFilters(None, None, None);
    if IsTruthy(published) {
      filters := filters.(published := Some(Explode(',', published)));
    }
    if IsTruthy(language) {
      filters := filters.(language := Some(Explode(',', language)));
    }
    if IsTruthy(root) {
      filters := filters.(root := Some(IntCast(root)));
    }
    var categoryOptions := Options(table, filters, levels);
    var initialOptions := xmlOptions;
    if initialOptions == [] {
      initialOptions := [SelectOption("", "- " + caption + " -")];
    }
    options := initialOptions + categoryOptions;
  }
}
