/**
 * The article filter of `handleModel`: the WHERE clauses it adds to a query
 * over the content table (one per active filter dimension), what the
 * database makes of them, and the reference meaning of the filter values
 * they are built from.
 */
module ArticleFilter {
  import opened Wrappers
  import opened Php
  import opened Fields

  /** A row of the content table: the article id and its category. */
  datatype Article = Article(id: int, catid: int)

  /** A row of the tag map: which tag a content item of which type carries. */
  datatype TagMapRow = TagMapRow(typeAlias: string, tagId: int, contentItemId: int)

  /** A row of the custom field values table: the stored value of one field for one item. */
  datatype FieldValueRow = FieldValueRow(fieldId: nat, itemId: int, value: string)

  /** The three tables the query reads. */
  datatype Database = Database(content: seq<Article>, tagMap: seq<TagMapRow>, fieldValues: seq<FieldValueRow>)

  /** The bound filter data of the form: field name to submitted value. */
  type Filters = map<string, Value>

  /** The tag map's type alias for articles. */
  const ArticleTypeAlias: string := "com_content.article"

  /** `$filters[key] ?? null`. */
  function Get(filters: Filters, key: string): Value {
    if key in filters then filters[key] else Null
  }

  /** `array_reduce` of `!empty()` over the filter values: some value is not PHP-empty. */
  predicate HasFilters(filters: Filters) {
    exists key :: key in filters && !IsEmpty(filters[key])
  }

  /**
   * The LIKE fragment for a subform sub-field: `json_encode` of the one-member
   * object `{"field<id>": v}` with the braces trimmed off.
   */
  function Fragment(id: nat, v: string): string {
    Trim(JsonObject([("field" + NatToDecimal(id), v)]), {'{', '}'})
  }

  // ---------------------------------------------------------------------------
  // The query
  // ---------------------------------------------------------------------------

  /** One WHERE clause of the article query. */
  datatype Clause =
    | CatidEquals(catid: int)                        // catid = :catid
    | CatidIn(catids: seq<int>)                      // catid IN (...)
    | HasTagIn(tagIds: seq<int>)                     // EXISTS tag map row with tag_id IN (...)
    | ValueIn(fieldId: nat, values: seq<string>)     // EXISTS field value row with value IN (...)
    | ValueLikeAny(fieldId: nat, fragments: seq<string>)  // EXISTS field value row with value LIKE '%f%' OR ...

  /** What the database makes of one clause for one content row. */
  predicate Satisfies(db: Database, a: Article, c: Clause) {
    match c
    case CatidEquals(x) => a.catid == x
    case CatidIn(xs) => a.catid in xs
    case HasTagIn(ts) =>
      exists i :: 0 <= i < |db.tagMap| && db.tagMap[i].typeAlias == ArticleTypeAlias &&
        db.tagMap[i].tagId in ts && db.tagMap[i].contentItemId == a.id
    case ValueIn(fid, vs) =>
      exists i :: 0 <= i < |db.fieldValues| && db.fieldValues[i].itemId == a.id &&
        db.fieldValues[i].fieldId == fid && db.fieldValues[i].value in vs
    case ValueLikeAny(fid, frags) =>
      exists i :: 0 <= i < |db.fieldValues| && db.fieldValues[i].itemId == a.id &&
        db.fieldValues[i].fieldId == fid && exists j :: 0 <= j < |frags| && Contains(db.fieldValues[i].value, frags[j])
  }

  /** The WHERE clauses are conjoined. */
  predicate SatisfiesAll(db: Database, a: Article, clauses: seq<Clause>) {
    forall k :: 0 <= k < |clauses| ==> Satisfies(db, a, clauses[k])
  }

  /** `SELECT id FROM #__content WHERE ...`: the ids of the rows meeting every clause, in table order. */
  function Select(db: Database, rows: seq<Article>, clauses: seq<Clause>): (ids: seq<int>)
    ensures |ids| <= |rows|
    ensures forall x :: x in ids <==> exists k :: 0 <= k < |rows| && rows[k].id == x && SatisfiesAll(db, rows[k], clauses)
  {
    if rows == [] then []
    else
      var rest := Select(db, rows[1..], clauses);
      assert forall k :: 1 <= k < |rows| ==> rows[k] == rows[1..][k - 1];
      (if SatisfiesAll(db, rows[0], clauses) then [rows[0].id] else []) + rest
  }

  // ---------------------------------------------------------------------------
  // What the filter values mean
  // ---------------------------------------------------------------------------

  /**
   * The subcategory dimension: an empty value imposes nothing; a scalar keeps
   * the articles of that category; a list keeps those of any listed category.
   */
  predicate SubcategoryMatches(a: Article, v: Value) {
    || IsEmpty(v)
    || (v.Str? && a.catid == IntCast(v.s))
    || (v.Arr? && exists k :: 0 <= k < |v.items| && IntCast(v.items[k]) == a.catid)
  }

  /** The tag ids a tag filter value lists: a comma-separated string is split first. */
  function TagList(v: Value): seq<string> {
    match v
    case Null => []
    case Str(s) => Explode(',', s)
    case Arr(xs) => xs
  }

  /** The tag dimension: the article carries at least one of the listed tags. */
  predicate TagsMatch(db: Database, a: Article, v: Value) {
    || IsEmpty(v)
    || exists i :: 0 <= i < |db.tagMap| && db.tagMap[i].typeAlias == ArticleTypeAlias &&
         db.tagMap[i].contentItemId == a.id &&
         exists k :: 0 <= k < |TagList(v)| && IntCast(TagList(v)[k]) == db.tagMap[i].tagId
  }

  /** A custom field is filtered on unless its value is unset, null or exactly ''. */
  predicate FieldIsFiltered(filters: Filters, f: Field) {
    f.name in filters && filters[f.name] != Null && filters[f.name] != Str("")
  }

  /** The submitted values of a field: a scalar becomes a one-element list. */
  function SubmittedValues(v: Value): seq<string> {
    match v
    case Null => []
    case Str(s) => [s]
    case Arr(xs) => xs
  }

  /**
   * The custom field dimension. A plain field matches when a stored value of
   * that field for the article is one of the submitted values. A sub-field
   * lifted out of a subform matches when a stored value of its parent field
   * for the article contains the fragment `"field<id>":<json(v)>` of one of
   * the submitted values.
   */
  predicate FieldMatches(db: Database, a: Article, filters: Filters, f: Field) {
    !FieldIsFiltered(filters, f) ||
    var vs := SubmittedValues(filters[f.name]);
    if HasParent(f) then
      exists i :: 0 <= i < |db.fieldValues| && db.fieldValues[i].itemId == a.id &&
        db.fieldValues[i].fieldId == f.parent.value &&
        exists k :: 0 <= k < |vs| && Contains(db.fieldValues[i].value, Fragment(f.id, vs[k]))
    else
      exists i :: 0 <= i < |db.fieldValues| && db.fieldValues[i].itemId == a.id &&
        db.fieldValues[i].fieldId == f.id && db.fieldValues[i].value in vs
  }

  /** An article passes the filter when it passes every dimension. */
  predicate ArticleMatches(db: Database, a: Article, filters: Filters, fields: map<nat, Field>) {
    && SubcategoryMatches(a, Get(filters, "catid"))
    && TagsMatch(db, a, Get(filters, "tag"))
    && forall id :: id in fields ==> FieldMatches(db, a, filters, fields[id])
  }

  /** The ids of the matching articles, in table order. */
  function MatchingIds(db: Database, rows: seq<Article>, filters: Filters, fields: map<nat, Field>): (ids: seq<int>)
    ensures |ids| <= |rows|
    ensures forall x :: x in ids <==> exists k :: 0 <= k < |rows| && rows[k].id == x && ArticleMatches(db, rows[k], filters, fields)
  {
    if rows == [] then []
    else
      var rest := MatchingIds(db, rows[1..], filters, fields);
      assert forall k :: 1 <= k < |rows| ==> rows[k] == rows[1..][k - 1];
      (if ArticleMatches(db, rows[0], filters, fields) then [rows[0].id] else []) + rest
  }

  // ---------------------------------------------------------------------------
  // Building the query
  // ---------------------------------------------------------------------------

  lemma SatisfiesAllAppend(db: Database, a: Article, clauses: seq<Clause>, c: Clause)
    ensures SatisfiesAll(db, a, clauses + [c]) <==> SatisfiesAll(db, a, clauses) && Satisfies(db, a, c)
  {
    assert forall k :: 0 <= k < |clauses| ==> (clauses + [c])[k] == clauses[k];
    assert (clauses + [c])[|clauses|] == c;
  }

  /** The tag clause holds exactly when the tag dimension is met. */
  lemma TagClauseMeaning(db: Database, a: Article, tags: Value)
    requires !IsEmpty(tags)
    ensures Satisfies(db, a, HasTagIn(ToInteger(TagList(tags)))) <==> TagsMatch(db, a, tags)
  {
    var list := TagList(tags);
    var ints := ToInteger(list);
    if Satisfies(db, a, HasTagIn(ints)) {
      var i :| 0 <= i < |db.tagMap| && db.tagMap[i].typeAlias == ArticleTypeAlias &&
        db.tagMap[i].tagId in ints && db.tagMap[i].contentItemId == a.id;
      var k :| 0 <= k < |ints| && ints[k] == db.tagMap[i].tagId;
      assert IntCast(list[k]) == db.tagMap[i].tagId;
    }
    if TagsMatch(db, a, tags) {
      var i :| 0 <= i < |db.tagMap| && db.tagMap[i].typeAlias == ArticleTypeAlias &&
        db.tagMap[i].contentItemId == a.id &&
        exists k :: 0 <= k < |list| && IntCast(list[k]) == db.tagMap[i].tagId;
      var k :| 0 <= k < |list| && IntCast(list[k]) == db.tagMap[i].tagId;
      assert ints[k] == db.tagMap[i].tagId;
    }
  }

  /** The clause `handleModel` adds for a filtered custom field. */
  function FieldClause(filters: Filters, f: Field): Clause
    requires FieldIsFiltered(filters, f)
  {
    var values := SubmittedValues(filters[f.name]);
    if HasParent(f) then ValueLikeAny(f.parent.value, seq(|values|, k requires 0 <= k < |values| => Fragment(f.id, values[k])))
    else ValueIn(f.id, values)
  }

  /** A filtered custom field's clause holds exactly when the field's dimension is met. */
  lemma FieldClauseMeaning(db: Database, a: Article, filters: Filters, f: Field)
    requires FieldIsFiltered(filters, f)
    ensures Satisfies(db, a, FieldClause(filters, f)) <==> FieldMatches(db, a, filters, f)
  {
    var vs := SubmittedValues(filters[f.name]);
    if HasParent(f) {
      var frags := seq(|vs|, k requires 0 <= k < |vs| => Fragment(f.id, vs[k]));
      assert FieldClause(filters, f) == ValueLikeAny(f.parent.value, frags);
      assert forall k :: 0 <= k < |vs| ==> frags[k] == Fragment(f.id, vs[k]);
    } else {
      assert FieldClause(filters, f) == ValueIn(f.id, vs);
    }
  }

  /** A category id is in the integer-cast list exactly when some element casts to it. */
  lemma InToInteger(xs: seq<string>, x: int)
    ensures x in ToInteger(xs) <==> exists k :: 0 <= k < |xs| && IntCast(xs[k]) == x
  {
    if x in ToInteger(xs) {
      var k :| 0 <= k < |xs| && ToInteger(xs)[k] == x;
    }
  }

  /**
   * The query building of `handleModel`: a subcategory clause when `catid`
   * is not PHP-empty, a tag clause when `tag` is not PHP-empty, and one clause
   * per filtered custom field. An article meets the clauses exactly when it
   * passes every dimension of the filter.
   */
  method BuildQuery(filters: Filters, fields: map<nat, Field>) returns (clauses: seq<Clause>)
    ensures forall db, a :: SatisfiesAll(db, a, clauses) <==> ArticleMatches(db, a, filters, fields)
  {
    clauses := HeadClauses(filters);
    var subCatId := Get(filters, "catid");
    var tags := Get(filters, "tag");

    var todo := fields.Keys;
    while todo != {}
      invariant todo <= fields.Keys
      invariant forall db, a :: SatisfiesAll(db, a, clauses) <==>
        && SubcategoryMatches(a, subCatId) && TagsMatch(db, a, tags)
        && forall id :: id in fields.Keys - todo ==> FieldMatches(db, a, filters, fields[id])
      decreases todo
    {
      var id :| id in todo;
      ghost var done := fields.Keys - todo;
      todo := todo - {id};
      var field := fields[id];
      ghost var before := clauses;
      if field.name in filters && filters[field.name] != Null && filters[field.name] != Str("") {
        var value := filters[field.name];
        var values := if value.Arr? then value.items else [value.s];
        var fieldId := if HasParent(field) then field.parent.value else field.id;
        var clause;
        if HasParent(field) {
          clause := ValueLikeAny(fieldId, seq(|values|, k requires 0 <= k < |values| => Fragment(field.id, values[k])));
        } else {
          clause := ValueIn(fieldId, values);
        }
        assert clause == FieldClause(filters, field);
        clauses := clauses + [clause];
      }
      AppendFieldMeaning(filters, fields, done, id, before, clauses, subCatId, tags);
    }
  }

  /**
   * The clauses of `handleModel` before the custom fields: a subcategory
   * clause when `catid` is not PHP-empty, then a tag clause when `tag` is
   * not PHP-empty.
   */
  method HeadClauses(filters: Filters) returns (clauses: seq<Clause>)
    ensures forall db, a :: SatisfiesAll(db, a, clauses) <==>
              SubcategoryMatches(a, Get(filters, "catid")) && TagsMatch(db, a, Get(filters, "tag"))
  {
    var subCatId := Get(filters, "catid");
    var sub: seq<Clause> := [];
    if !IsEmpty(subCatId) {
      if !subCatId.Arr? {
        sub := [CatidEquals(IntCast(subCatId.s))];
      } else {
        sub := [CatidIn(ToInteger(subCatId.items))];
      }
    }

    var tags := Get(filters, "tag");
    var tag: seq<Clause> := [];
    if !IsEmpty(tags) {
      var list := if tags.Arr? then tags.items else Explode(',', tags.s);
      tag := [HasTagIn(ToInteger(list))];
    }
    clauses := sub + tag;
    HeadClausesMeaning(filters, clauses);
  }

  /** The clauses built before the custom fields mean the subcategory and tag dimensions. */
  lemma HeadClausesMeaning(filters: Filters, clauses: seq<Clause>)
    requires
      var subCatId := Get(filters, "catid");
      var tags := Get(filters, "tag");
      var sub := if IsEmpty(subCatId) then [] else if !subCatId.Arr? then [CatidEquals(IntCast(subCatId.s))] else [CatidIn(ToInteger(subCatId.items))];
      var tag := if IsEmpty(tags) then [] else [HasTagIn(ToInteger(if tags.Arr? then tags.items else Explode(',', tags.s)))];
      clauses == sub + tag
    ensures forall db, a :: SatisfiesAll(db, a, clauses) <==>
      SubcategoryMatches(a, Get(filters, "catid")) && TagsMatch(db, a, Get(filters, "tag"))
  {
    var subCatId := Get(filters, "catid");
    var tags := Get(filters, "tag");
    forall db, a ensures SatisfiesAll(db, a, clauses) <==> SubcategoryMatches(a, subCatId) && TagsMatch(db, a, tags) {
      var sub := if IsEmpty(subCatId) then [] else if !subCatId.Arr? then [CatidEquals(IntCast(subCatId.s))] else [CatidIn(ToInteger(subCatId.items))];
      assert SatisfiesAll(db, a, sub) <==> SubcategoryMatches(a, subCatId) by {
        if !IsEmpty(subCatId) {
          assert SatisfiesAll(db, a, sub) <==> Satisfies(db, a, sub[0]);
          if subCatId.Arr? {
            InToInteger(subCatId.items, a.catid);
          }
        }
      }
      if !IsEmpty(tags) {
        assert (if tags.Arr? then tags.items else Explode(',', tags.s)) == TagList(tags);
        TagClauseMeaning(db, a, tags);
        SatisfiesAllAppend(db, a, sub, HasTagIn(ToInteger(TagList(tags))));
      } else {
        assert clauses == sub;
      }
    }
  }

  /** One more custom field processed: the clauses mean one more conjunct. */
  lemma AppendFieldMeaning(filters: Filters, fields: map<nat, Field>, done: set<nat>, id: nat,
                           before: seq<Clause>, after: seq<Clause>, subCatId: Value, tags: Value)
    requires id in fields && done <= fields.Keys
    requires forall db, a :: SatisfiesAll(db, a, before) <==>
      && SubcategoryMatches(a, subCatId) && TagsMatch(db, a, tags)
      && forall i :: i in done ==> FieldMatches(db, a, filters, fields[i])
    requires after == if FieldIsFiltered(filters, fields[id]) then before + [FieldClause(filters, fields[id])] else before
    ensures forall db, a :: SatisfiesAll(db, a, after) <==>
      && SubcategoryMatches(a, subCatId) && TagsMatch(db, a, tags)
      && forall i :: i in done + {id} ==> FieldMatches(db, a, filters, fields[i])
  {
    forall db, a ensures SatisfiesAll(db, a, after) <==> SatisfiesAll(db, a, before) && FieldMatches(db, a, filters, fields[id]) {
      if FieldIsFiltered(filters, fields[id]) {
        SatisfiesAllAppend(db, a, before, FieldClause(filters, fields[id]));
        FieldClauseMeaning(db, a, filters, fields[id]);
      }
    }
  }

  // ---------------------------------------------------------------------------
  // Properties of the filter
  // ---------------------------------------------------------------------------

  /** Running the built query selects exactly the matching articles, in table order. */
  lemma {:induction false} SelectIsMatchingIds(db: Database, rows: seq<Article>, clauses: seq<Clause>,
                                               filters: Filters, fields: map<nat, Field>)
    requires forall a :: SatisfiesAll(db, a, clauses) <==> ArticleMatches(db, a, filters, fields)
    ensures Select(db, rows, clauses) == MatchingIds(db, rows, filters, fields)
  {
    if rows != [] {
      SelectIsMatchingIds(db, rows[1..], clauses, filters, fields);
    }
  }

  /**
   * Filter values that activate no dimension (neither a subcategory, nor a
   * tag, nor a value for one of the category's fields) still run the query,
   * which then returns the id of every article in the table.
   */
  lemma {:induction false} InactiveFiltersKeepEveryArticle(db: Database, rows: seq<Article>, filters: Filters,
                                                           fields: map<nat, Field>)
    requires IsEmpty(Get(filters, "catid")) && IsEmpty(Get(filters, "tag"))
    requires forall id :: id in fields ==> !FieldIsFiltered(filters, fields[id])
    ensures MatchingIds(db, rows, filters, fields) == seq(|rows|, k requires 0 <= k < |rows| => rows[k].id)
  {
    if rows != [] {
      InactiveFiltersKeepEveryArticle(db, rows[1..], filters, fields);
      assert ArticleMatches(db, rows[0], filters, fields);
    }
  }

  /** A field's dimension only depends on the value submitted under the field's name. */
  lemma FieldMatchesOwnValue(db: Database, a: Article, filters: Filters, other: Filters, f: Field)
    requires Get(filters, f.name) == Get(other, f.name)
    ensures FieldMatches(db, a, filters, f) <==> FieldMatches(db, a, other, f)
  {
  }

  /**
   * Filter dimensions are conjoined: with the filter values split over two
   * disjoint sets of names, an article passes the whole filter exactly when
   * it passes each part.
   */
  lemma DimensionsConjoin(db: Database, a: Article, f1: Filters, f2: Filters, fields: map<nat, Field>)
    requires f1.Keys !! f2.Keys
    ensures ArticleMatches(db, a, f1 + f2, fields) <==>
            ArticleMatches(db, a, f1, fields) && ArticleMatches(db, a, f2, fields)
  {
    var both := f1 + f2;
    assert forall key :: Get(both, key) == (if key in f1 then Get(f1, key) else Get(f2, key));
    assert forall key :: key in f1 ==> Get(f2, key) == Null;
    assert forall key :: key !in f1 ==> Get(f1, key) == Null;
    forall id | id in fields
      ensures FieldMatches(db, a, both, fields[id]) <==>
              FieldMatches(db, a, f1, fields[id]) && FieldMatches(db, a, f2, fields[id])
    {
      var name := fields[id].name;
      if name in f1 {
        FieldMatchesOwnValue(db, a, both, f1, fields[id]);
      } else {
        FieldMatchesOwnValue(db, a, both, f2, fields[id]);
      }
    }
  }

  /** Tags are a union: listing more tags keeps every article either list kept. */
  lemma TagsAreAUnion(db: Database, a: Article, xs: seq<string>, ys: seq<string>)
    requires xs != [] && ys != []
    ensures TagsMatch(db, a, Arr(xs + ys)) <==> TagsMatch(db, a, Arr(xs)) || TagsMatch(db, a, Arr(ys))
  {
    if TagsMatch(db, a, Arr(xs + ys)) {
      UnionTagsSplit(db, a, xs, ys);
    }
    if TagsMatch(db, a, Arr(xs)) || TagsMatch(db, a, Arr(ys)) {
      UnionTagsGrow(db, a, xs, ys);
    }
  }

  lemma UnionTagsSplit(db: Database, a: Article, xs: seq<string>, ys: seq<string>)
    requires xs != [] && ys != [] && TagsMatch(db, a, Arr(xs + ys))
    ensures TagsMatch(db, a, Arr(xs)) || TagsMatch(db, a, Arr(ys))
  {
    var zs := xs + ys;
    var i :| 0 <= i < |db.tagMap| && db.tagMap[i].typeAlias == ArticleTypeAlias &&
      db.tagMap[i].contentItemId == a.id &&
      exists k :: 0 <= k < |zs| && IntCast(zs[k]) == db.tagMap[i].tagId;
    var k :| 0 <= k < |zs| && IntCast(zs[k]) == db.tagMap[i].tagId;
    if k < |xs| {
      assert zs[k] == xs[k];
      assert 0 <= k < |TagList(Arr(xs))| && IntCast(TagList(Arr(xs))[k]) == db.tagMap[i].tagId;
    } else {
      assert zs[k] == ys[k - |xs|];
      assert 0 <= k - |xs| < |TagList(Arr(ys))| && IntCast(TagList(Arr(ys))[k - |xs|]) == db.tagMap[i].tagId;
    }
  }

  lemma UnionTagsGrow(db: Database, a: Article, xs: seq<string>, ys: seq<string>)
    requires xs != [] && ys != [] && (TagsMatch(db, a, Arr(xs)) || TagsMatch(db, a, Arr(ys)))
    ensures TagsMatch(db, a, Arr(xs + ys))
  {
    var zs := xs + ys;
    if TagsMatch(db, a, Arr(xs)) {
      var i :| 0 <= i < |db.tagMap| && db.tagMap[i].typeAlias == ArticleTypeAlias &&
        db.tagMap[i].contentItemId == a.id &&
        exists k :: 0 <= k < |xs| && IntCast(xs[k]) == db.tagMap[i].tagId;
      var k :| 0 <= k < |xs| && IntCast(xs[k]) == db.tagMap[i].tagId;
      assert zs[k] == xs[k];
      assert 0 <= k < |TagList(Arr(zs))| && IntCast(TagList(Arr(zs))[k]) == db.tagMap[i].tagId;
    } else {
      var i :| 0 <= i < |db.tagMap| && db.tagMap[i].typeAlias == ArticleTypeAlias &&
        db.tagMap[i].contentItemId == a.id &&
        exists k :: 0 <= k < |ys| && IntCast(ys[k]) == db.tagMap[i].tagId;
      var k :| 0 <= k < |ys| && IntCast(ys[k]) == db.tagMap[i].tagId;
      assert zs[|xs| + k] == ys[k];
      assert 0 <= |xs| + k < |TagList(Arr(zs))| && IntCast(TagList(Arr(zs))[|xs| + k]) == db.tagMap[i].tagId;
    }
  }

  /**
   * A comma-separated tag string filters exactly like the list of its
   * pieces: `implode(',', tags)` submitted as one string keeps the same
   * articles as `tags` submitted as an array.
   */
  lemma CommaSeparatedTags(db: Database, a: Article, tags: seq<string>)
    requires tags != [] && forall k :: 0 <= k < |tags| ==> ',' !in tags[k]
    requires IsTruthy(Implode(',', tags))
    ensures TagsMatch(db, a, Str(Implode(',', tags))) <==> TagsMatch(db, a, Arr(tags))
  {
    ExplodeImplode(',', tags);
    assert TagList(Str(Implode(',', tags))) == TagList(Arr(tags));
    assert !IsEmpty(Str(Implode(',', tags))) && !IsEmpty(Arr(tags));
    TagsMatchByList(db, a, Str(Implode(',', tags)), Arr(tags));
  }

  /** The tag dimension depends only on PHP-emptiness and the tag list. */
  lemma TagsMatchByList(db: Database, a: Article, v: Value, w: Value)
    requires IsEmpty(v) == IsEmpty(w) && TagList(v) == TagList(w)
    ensures TagsMatch(db, a, v) <==> TagsMatch(db, a, w)
  {
  }

  /** The LIKE fragment is the JSON member `"field<id>":<json(v)>`, braces trimmed off. */
  lemma FragmentIsMember(id: nat, v: string)
    ensures Fragment(id, v) == JsonMember("field" + NatToDecimal(id), v)
  {
    var m := JsonMember("field" + NatToDecimal(id), v);
    assert JsonObject([("field" + NatToDecimal(id), v)]) == "{" + m + "}";
    assert m[0] == '"' && m[|m| - 1] == '"';
    TrimOneLayer(m, {'{', '}'}, '{', '}');
  }

  /**
   * A subform value as Joomla stores it, one JSON object per row, keyed
   * `row0`, `row1`, ...; each row maps `field<id>` to the sub-field's value.
   */
  function SubformRow(row: seq<(nat, string)>): string {
    JsonObject(seq(|row|, k requires 0 <= k < |row| => ("field" + NatToDecimal(row[k].0), row[k].1)))
  }

  function SubformRows(rows: seq<seq<(nat, string)>>, n: nat): string {
    if rows == [] then ""
    else
      var head := JsonString("row" + NatToDecimal(n)) + ":" + SubformRow(rows[0]);
      if |rows| == 1 then head else head + "," + SubformRows(rows[1..], n + 1)
  }

  function SubformValue(rows: seq<seq<(nat, string)>>): string {
    "{" + SubformRows(rows, 0) + "}"
  }

  lemma {:induction false} SubformRowsContainRow(rows: seq<seq<(nat, string)>>, n: nat, r: nat)
    requires r < |rows|
    ensures Contains(SubformRows(rows, n), SubformRow(rows[r]))
  {
    var key := JsonString("row" + NatToDecimal(n));
    if r == 0 {
      RowInHead(key, SubformRow(rows[0]), if |rows| > 1 then SubformRows(rows[1..], n + 1) else "");
    } else {
      SubformRowsContainRow(rows[1..], n + 1, r - 1);
      assert rows[1..][r - 1] == rows[r];
      RowInTail(key + ":" + SubformRow(rows[0]), SubformRows(rows[1..], n + 1), SubformRow(rows[r]));
    }
  }

  /** A keyed entry `key:row`, alone or followed by more entries, contains `row`. */
  lemma RowInHead(key: string, row: string, tail: string)
    ensures Contains(key + ":" + row, row) && Contains(key + ":" + row + "," + tail, row)
  {
    ContainsSelf(row);
    ContainsInConcat(key + ":", row, row);
    ContainsInConcat(key + ":" + row, "," + tail, row);
    assert key + ":" + row + "," + tail == (key + ":" + row) + ("," + tail);
  }

  /** What the entries after the first contain, the whole list contains. */
  lemma RowInTail(head: string, rest: string, x: string)
    requires Contains(rest, x)
    ensures Contains(head + "," + rest, x)
  {
    ContainsInConcat(head + ",", rest, x);
  }

  /**
   * The substring match finds every value a subform row stores: when row `r`
   * of a stored subform value holds `v` for sub-field `id`, the stored value
   * contains the fragment for (`id`, `v`).
   */
  lemma StoredSubformValueMatches(rows: seq<seq<(nat, string)>>, r: nat, k: nat)
    requires r < |rows| && k < |rows[r]|
    ensures Contains(SubformValue(rows), Fragment(rows[r][k].0, rows[r][k].1))
  {
    var (id, v) := rows[r][k];
    var entries := seq(|rows[r]|, j requires 0 <= j < |rows[r]| => ("field" + NatToDecimal(rows[r][j].0), rows[r][j].1));
    assert entries[k] == ("field" + NatToDecimal(id), v);
    JsonObjectContainsMember(entries, k);
    FragmentIsMember(id, v);
    SubformRowsContainRow(rows, 0, r);
    ContainsTransitive(SubformRows(rows, 0), SubformRow(rows[r]), Fragment(id, v));
    ContainsInConcat("{", SubformRows(rows, 0), Fragment(id, v));
    ContainsInConcat("{" + SubformRows(rows, 0), "}", Fragment(id, v));
  }
}
