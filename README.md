# FilterMagic, modelled in Dafny

FilterMagic is a Joomla system plugin. It shows a filter form above a content category's article list and narrows that list to the articles that match the submitted filters. The filters cover subcategory, tag and custom-field values. This project models four rules of the plugin in Dafny and proves what they promise.

1. **Article filter** (`handleModel`). Three kinds of filter value each add their own clause to the article query, and the clauses are conjoined:
   - **Subcategory.** A scalar value keeps the articles whose `catid` equals it. A list keeps the articles whose `catid` is in the integer-cast list.
   - **Tags.** A comma-separated string or a list selects the articles that carry at least one of the tags.
   - **Custom fields.** A plain field keeps the articles with a stored value among the submitted values. A sub-field of a subform keeps the articles whose stored subform blob contains the JSON fragment `"field<id>":<json(v)>` for some submitted `v`.

   `ArticleFilter.BuildQuery` builds the clauses. `ArticleFilter.Select` evaluates them over abstract table rows. Both are proved equal to a reference definition, `ArticleFilter.ArticleMatches` and `ArticleFilter.MatchingIds`. `FilterMagicPlugin.FilterMagic.HandleModel` writes the matching ids into the articles model's state. When nothing matches it writes the sentinel `-1`, and in both cases it sets the include flag. It leaves the state untouched when there is no category, no filter form, or when every filter value is empty in PHP's `empty()` sense.
2. **Subform flattening** (`resolveSubformFields`). `Fields.ResolveSubformFields` works on an id-keyed field map and a catalogue of all fields. It removes every subform and inception field. It adds each listed sub-field that the catalogue knows, tagged with its parent's id, in place of any entry the map already holds under that id, and it repeats the pass while it adds anything. The result holds no composite field. Its ids are exactly the input's plain fields plus the plain fields reachable from the input's composites.
3. **Sticky filter state** (`getForm`). Each field of the filter group takes one of three values, in this order of preference:
   - the request's value;
   - else the user state stored under `filtermagic.<catId>.<subkey>`;
   - else `''`.

   The chosen value is written back to the user state. `FilterMagicPlugin.StickyMerge` specifies this merge, and `FilterMagicPlugin.BindFilterGroup` implements the loop. The lemmas prove four things:
   - each field gets that value;
   - no other key of the user state changes;
   - the state of one category never touches another's;
   - a later request that submits nothing reproduces the same data.

   The per-request memos `$this->forms` and `$this->flatFields` are fields of the class `FilterMagicPlugin.FilterMagic`.
4. **Subcategory option list** (`SubcategoryField`). The `published`, `language` and `root` attributes become filters. The field then selects the visible `com_content` categories and orders them by `lft`. Each title is indented by its level and gets a language suffix. The options the XML defines come first, or a placeholder when it defines none.

PHP's own semantics are modelled in `Php` where the rules depend on them:
- `empty()` and string truthiness;
- `explode`/`implode` on one character, with both round trips;
- the `(int)` cast;
- `json_encode` of strings, and `trim` with a character set;
- the substring search that a `LIKE '%…%'` pattern performs.

The model follows the code in three places where the plugin's documented behaviour reads differently:
- **No active dimension.** The filter values may be non-empty yet activate no dimension, for example when they are set only under names that are not filters. The code still runs the query, which then returns every article id of the table (`ArticleFilter.InactiveFiltersKeepEveryArticle`).
- **The `published` attribute has no effective default.** `(string) $this->element['published'] ?? 1` casts before `??` applies, so the default `1` never applies. A field without a `published` attribute lists categories in every published state, and `published="0"` is falsy and adds no filter either.
- **The root filter is not a subtree test.** It keeps every category whose `lft` is above the root's (`SubcategoryField.RootFilterIsNotSubtree`).

## Model

| member | source | states |
|---|---|---|
| Php.Explode | plugins/system/filtermagic/src/Extension/FilterMagic.php:140 | `explode` yields one piece more than there are separators, and no piece contains the separator |
| Php.ImplodeExplode | plugins/system/filtermagic/src/Field/SubcategoryField.php:49-57 | joining the pieces of `explode` with the separator gives back the original attribute string |
| Php.ExplodeImplode | plugins/system/filtermagic/src/Extension/FilterMagic.php:140 | splitting a joined list of separator-free pieces gives back the list |
| Php.LeadingDigits | plugins/system/filtermagic/src/Extension/FilterMagic.php:141 | the digits the `(int)` cast reads are a prefix of its input, all digits, and the longest such prefix |
| Php.IntCastOfDigits | plugins/system/filtermagic/src/Extension/FilterMagic.php:125-126 | a string of decimal digits casts to the number it denotes |
| Php.IntCastWithoutNumber | plugins/system/filtermagic/src/Extension/FilterMagic.php:140-141 | a string whose first non-blank character is not a digit, a point or a sign casts to 0 |
| Php.IntCastScientific | plugins/system/filtermagic/src/Extension/FilterMagic.php:140-141 | `<digits>e<digits>` casts to the integer digits scaled by ten to the exponent, as PHP reads a numeric prefix in scientific notation |
| Php.IntCastOneThousand | plugins/system/filtermagic/src/Extension/FilterMagic.php:140-141 | `(int)"1e3"` is 1000, not 1 |
| Php.IntCastOfWord | plugins/system/filtermagic/src/Extension/FilterMagic.php:140-141 | a word without a numeric prefix casts to 0 |
| Php.IntCastOfIntToString | plugins/system/filtermagic/src/Field/SubcategoryField.php:177 | the `(int)` cast of an integer's decimal string is that integer |
| Php.IntCastOfNegated | plugins/system/filtermagic/src/Extension/FilterMagic.php:140-141 | a leading minus sign negates the magnitude of the numeric prefix after it |
| Php.IntToStringInjective | plugins/system/filtermagic/src/Extension/FilterMagic.php:505 | distinct category ids have distinct decimal strings |
| Php.JsonUnescapeEscape | plugins/system/filtermagic/src/Extension/FilterMagic.php:193 | the string escaping of `json_encode` is undone by unescaping, so no information is lost |
| Php.JsonEscapeInjective | plugins/system/filtermagic/src/Extension/FilterMagic.php:193 | distinct values have distinct JSON escapes, so distinct submitted values give distinct fragments |
| Php.JsonObjectContainsMember | plugins/system/filtermagic/src/Extension/FilterMagic.php:193 | a JSON object's text contains the text `"key":"value"` of each of its members |
| Php.JsonMembersContainMember | plugins/system/filtermagic/src/Extension/FilterMagic.php:193 | the comma-joined member list contains each member's text |
| Fields.KeyById | plugins/system/filtermagic/src/Extension/FilterMagic.php:351-354 | `array_combine` of ids and fields: every entry sits under its own id, every input id is a key, every entry is one of the input fields |
| Fields.KeyByIdKeepsLast | plugins/system/filtermagic/src/Extension/FilterMagic.php:354 | when ids repeat, the entry kept under an id is the last field with that id |
| Fields.ResolveSubformFields | plugins/system/filtermagic/src/Extension/FilterMagic.php:370-437 | result keyed by id, free of subform and inception fields; its ids are exactly the input's plain fields and the catalogue's plain fields reachable from the input's composites; a catalogue field that a processed composite lists (one of the input's own composites, or one reached from them) is the catalogue entry with its parent set to such a composite, even when the input holds that field itself; every other entry is the input's own; a flat input comes back unchanged |
| Fields.FinalPass | plugins/system/filtermagic/src/Extension/FilterMagic.php:414-436 | a pass that added nothing returns the plain fields as they were, which is the complete flattening |
| Fields.NextPassWellFormed | plugins/system/filtermagic/src/Extension/FilterMagic.php:383-434 | after a pass that added something, the map is still keyed by id, the only composites left are the ones just added, and their nesting bound is one smaller, so the recursion terminates when no subform reaches itself |
| Fields.PassPreservesFlattening | plugins/system/filtermagic/src/Extension/FilterMagic.php:431-434 | flattening the result of one pass gives the flattening of the pass's input, with the same parent provenance |
| Fields.UnreachedCompositeIsNoParent | plugins/system/filtermagic/src/Extension/FilterMagic.php:383-411 | a catalogue subform that lists a sub-field but is not reached from the input is never accepted as that sub-field's parent |
| Fields.ReachedCycleHasNoRank | plugins/system/filtermagic/src/Extension/FilterMagic.php:383-434 | a subform that the input holds and that lists itself admits no rank, so flattening it, on which the source recurses forever, is never called |
| Fields.UnreachedCycleNeedsNoRank | plugins/system/filtermagic/src/Extension/FilterMagic.php:383-434 | a self-listing subform that the input never reaches needs no rank, so the precondition admits a catalogue on which the source terminates |
| Fields.ListedFieldIsTagged | plugins/system/filtermagic/src/Extension/FilterMagic.php:405-429 | a plain field the input holds and a processed subform lists comes back tagged with that parent, never as the untagged original |
| Fields.ListedByNext | plugins/system/filtermagic/src/Extension/FilterMagic.php:383-434 | a composite that lists a catalogue field the pass did not collect is processed by the next pass, which still lists the field |
| Fields.ParentStillProcessed | plugins/system/filtermagic/src/Extension/FilterMagic.php:383-434 | a parent that a later pass assigns is listed by a composite of the pass's input or reached from one, so the provenance holds for the original input |
| Fields.FlatteningStep | plugins/system/filtermagic/src/Extension/FilterMagic.php:383-429 | one id at a time: an id is in the flattening before a pass exactly when it is in the flattening after it |
| ArticleFilter.Select | plugins/system/filtermagic/src/Extension/FilterMagic.php:113-217 | the query returns exactly the ids of the table rows that satisfy every clause, never more ids than rows |
| ArticleFilter.MatchingIds | plugins/system/filtermagic/src/Extension/FilterMagic.php:113-217 | the ids of exactly the articles that pass every filter dimension |
| ArticleFilter.SatisfiesAllAppend | plugins/system/filtermagic/src/Extension/FilterMagic.php:211 | each added WHERE clause is conjoined with the ones before it |
| ArticleFilter.InToInteger | plugins/system/filtermagic/src/Extension/FilterMagic.php:125-126 | a `catid` is in the integer-cast list exactly when some submitted value casts to it |
| ArticleFilter.TagClauseMeaning | plugins/system/filtermagic/src/Extension/FilterMagic.php:135-153 | the EXISTS clause over the tag map holds exactly when the article has a `com_content.article` tag-map row whose tag id is the cast of some submitted tag |
| ArticleFilter.FieldClauseMeaning | plugins/system/filtermagic/src/Extension/FilterMagic.php:158-211 | a field's clause holds exactly when the article passes that field's dimension: `IN` of the values under its own id for a plain field, a fragment `LIKE` under the parent's id for a sub-field |
| ArticleFilter.BuildQuery | plugins/system/filtermagic/src/Extension/FilterMagic.php:113-211 | for every database and article, the built clauses hold exactly when the article passes the subcategory, tag and every custom-field dimension |
| ArticleFilter.HeadClauses | plugins/system/filtermagic/src/Extension/FilterMagic.php:118-153 | for every database and article, the subcategory and tag clauses built hold exactly when the article passes both dimensions |
| ArticleFilter.HeadClausesMeaning | plugins/system/filtermagic/src/Extension/FilterMagic.php:118-153 | the subcategory and tag clauses together hold exactly when the article passes both dimensions; an empty value adds no clause |
| ArticleFilter.AppendFieldMeaning | plugins/system/filtermagic/src/Extension/FilterMagic.php:158-211 | processing one more custom field adds exactly that field's dimension to what the clauses mean |
| ArticleFilter.SelectIsMatchingIds | plugins/system/filtermagic/src/Extension/FilterMagic.php:216-217 | running the built query gives the matching ids (in table order, which the model fixes) |
| ArticleFilter.InactiveFiltersKeepEveryArticle | plugins/system/filtermagic/src/Extension/FilterMagic.php:113-217 | when no dimension is active the query still runs and returns the id of every article of the table |
| ArticleFilter.FieldMatchesOwnValue | plugins/system/filtermagic/src/Extension/FilterMagic.php:160-166 | a field's dimension depends only on the value submitted under the field's name |
| ArticleFilter.DimensionsConjoin | plugins/system/filtermagic/src/Extension/FilterMagic.php:118-211 | with the filter values split over disjoint names, an article passes the whole filter exactly when it passes each part |
| ArticleFilter.TagsAreAUnion | plugins/system/filtermagic/src/Extension/FilterMagic.php:136-152 | tags select a union: an article passes two tag lists together exactly when it passes either one |
| ArticleFilter.CommaSeparatedTags | plugins/system/filtermagic/src/Extension/FilterMagic.php:138-141 | a comma-separated tag string filters exactly like the list of its pieces |
| ArticleFilter.FragmentIsMember | plugins/system/filtermagic/src/Extension/FilterMagic.php:193 | the LIKE fragment is the JSON member `"field<id>":<json(v)>` with the braces trimmed off |
| ArticleFilter.StoredSubformValueMatches | plugins/system/filtermagic/src/Extension/FilterMagic.php:178-197 | a stored subform value whose row holds `v` for sub-field `id` contains the fragment for (`id`, `v`), so the sub-field's filter finds it |
| FilterMagicPlugin.UserState.Set | plugins/system/filtermagic/src/Extension/FilterMagic.php:514 | `setUserState` stores the value under the key and changes nothing else |
| FilterMagicPlugin.ArticlesModel.SetState | plugins/system/filtermagic/src/Extension/FilterMagic.php:220-221 | `setState` stores the value under the key and changes nothing else |
| FilterMagicPlugin.SentinelIffNoMatch | plugins/system/filtermagic/src/Extension/FilterMagic.php:217-220 | the state receives `-1` exactly when no article of the table passes the filter |
| FilterMagicPlugin.CategoryKeysDisjoint | plugins/system/filtermagic/src/Extension/FilterMagic.php:505 | user-state keys of different categories differ whatever their subkeys |
| FilterMagicPlugin.StickyMerge | plugins/system/filtermagic/src/Extension/FilterMagic.php:503-518 | the bound data has exactly the group's field names, every bound value is non-null, and the user state only gains the group's keys |
| FilterMagicPlugin.StickyMergeBindsField | plugins/system/filtermagic/src/Extension/FilterMagic.php:509-516 | each field is bound to the request value if present and non-null, else the stored user state, else `''`, and the user state then holds exactly that value |
| FilterMagicPlugin.StickyMergeKeepsOtherKeys | plugins/system/filtermagic/src/Extension/FilterMagic.php:509-515 | every user-state key outside the group's keys keeps its presence and value |
| FilterMagicPlugin.StickyMergeFrame | plugins/system/filtermagic/src/Extension/FilterMagic.php:509-515 | a user-state entry the group does not write has no effect on the merge and survives it |
| FilterMagicPlugin.StickyMergeIdempotent | plugins/system/filtermagic/src/Extension/FilterMagic.php:509-516 | the state is sticky: merging again with an empty request over the state left behind reproduces the same data and state |
| FilterMagicPlugin.MergeStep | plugins/system/filtermagic/src/Extension/FilterMagic.php:509-516 | one turn of the loop, binding the next field and writing it back, extends the merge of the fields before it by that field |
| FilterMagicPlugin.BindFilterGroup | plugins/system/filtermagic/src/Extension/FilterMagic.php:509-516 | the loop binds the data and leaves the user state that `StickyMerge` specifies |
| FilterMagicPlugin.FilterMagic.GetFlatFieldsList | plugins/system/filtermagic/src/Extension/FilterMagic.php:342-358 | a cached list is returned unchanged; otherwise the fields keyed by id are flattened (as `ResolveSubformFields` states) and cached; the list is keyed by id and free of composites |
| FilterMagicPlugin.FilterMagic.GetForm | plugins/system/filtermagic/src/Extension/FilterMagic.php:448-536 | a loaded form is returned from the memo with nothing changed; a missing form memoises null, which is not treated as cached, and leaves the flat-field memo alone; otherwise the category's fields are first flattened and memoised unless already cached (as `getFlatFieldsList` states), then the data and user state are those of `StickyMerge` with prefix `filtermagic.<catId>.` and the form is memoised; the returned form is the memoised one |
| FilterMagicPlugin.FilterMagic.HandleModel | plugins/system/filtermagic/src/Extension/FilterMagic.php:67-222 | with no category nothing changes; with a category the form memo, the user state and the flat-field memo change exactly as `getForm` loads the category's form, which flattens the category's fields when it reads the form file and they are not cached; no form or only empty values leave the model state untouched; otherwise the state maps `filter.article_id` to the ids of the articles matching the form's data over the category's memoised flat fields (or `-1`) and `filter.article_id.include` to true |
| SubcategoryField.FiltersOf | plugins/system/filtermagic/src/Field/SubcategoryField.php:43-62 | each of `published`, `language` and `root` adds a filter exactly when the attribute is truthy; the lists join back to the attribute; the root is the attribute's `(int)` cast |
| SubcategoryField.RootLft | plugins/system/filtermagic/src/Field/SubcategoryField.php:103-106 | the subquery yields no `lft` exactly when no row has the root id, and otherwise the `lft` of a row with that id |
| SubcategoryField.Selection | plugins/system/filtermagic/src/Field/SubcategoryField.php:88-142 | a row is selected exactly when it is in the table and meets every WHERE condition |
| SubcategoryField.SelectionCounts | plugins/system/filtermagic/src/Field/SubcategoryField.php:88-142 | a selected row occurs in the selection as often as in the input, an unselected row not at all |
| SubcategoryField.InsertByLft | plugins/system/filtermagic/src/Field/SubcategoryField.php:159 | inserting into an `lft`-sorted list keeps it sorted and adds exactly the one row |
| SubcategoryField.OrderByLft | plugins/system/filtermagic/src/Field/SubcategoryField.php:159 | `ORDER BY lft` yields an ascending permutation of its input |
| SubcategoryField.QueryRowsMeaning | plugins/system/filtermagic/src/Field/SubcategoryField.php:88-162 | the query returns exactly the selected categories, as often as the table holds them, in ascending `lft` order |
| SubcategoryField.RootFilterIsNotSubtree | plugins/system/filtermagic/src/Field/SubcategoryField.php:101-109 | a sibling that follows the root category in the tree passes the root filter |
| SubcategoryField.Indentation | plugins/system/filtermagic/src/Field/SubcategoryField.php:170 | `str_repeat('- ', n)` has length `2n` |
| SubcategoryField.OptionTitleParts | plugins/system/filtermagic/src/Field/SubcategoryField.php:169-175 | the option text starts with `max(level-1, 0)` indentation steps, ends in ` (<language>)` exactly when the language is not `*`, and the title reads back from it |
| SubcategoryField.AssembleOptions | plugins/system/filtermagic/src/Field/SubcategoryField.php:164-178 | one option per row in order, valued by the category id with the formatted title as text; each row's title is rewritten in place |
| SubcategoryField.Options | plugins/system/filtermagic/src/Field/SubcategoryField.php:81-180 | the options are those of the query's rows, in `lft` order |
| SubcategoryField.CategoryOptionsReadBack | plugins/system/filtermagic/src/Field/SubcategoryField.php:177 | each option's value casts back to its category id and its text reads back to the category title |
| SubcategoryField.GetOptions | plugins/system/filtermagic/src/Field/SubcategoryField.php:40-79 | the XML options, or the placeholder `- <caption> -` with an empty value when there are none, followed by the options of the categories the attributes select; never empty |

## Left out

- `patchModel` and `prepare` (FilterMagic.php:278-330) are left out. They rewrite the host framework's source, write through a stream wrapper, `require_once` the result and route requests, none of which the model can state.
- `displayForm`, `extractOverrides` and all of `transplantCustomFields` but its first call (FilterMagic.php:232-276 and 537-685) are left out. They build DOM and XML, dispatch events and use reflection. The first statement of `transplantCustomFields`, `getFlatFieldsList` (FilterMagic.php:536), is modelled: `getForm` flattens and memoises the category's fields before it binds the data. `services/provider.php` and the two layout files do dependency wiring and HTML rendering, and are left out for the same reason.
- Form file discovery and loading in `getForm` (FilterMagic.php:455-498) are replaced by an input. `formFile` is the loaded form's `filter` group, or `None` when no file exists. The memo stores the bound data in place of the `Form` object.
- The `instanceof` checks at FilterMagic.php:69-80 are replaced by an input. The category is an `Option<int>`, and a `None` stands for every failed check.
- The foreign calls become inputs:
  - `FieldsHelper::getFields`: the per-category field list `fs`, and the catalogue `all`, a constant of the plugin object standing for the static `self::$allFields`;
  - the visitor's view levels;
  - `Text::_('JCATEGORY')`: the caption;
  - the options the XML defines;
  - the request: the `filter` data as a map.
- Request filtering by `getString` is not modelled.
- SQL text, quoting and parameter binding are not modelled. Each clause is modelled by what it means over abstract rows.
- MySQL string comparisons are modelled as exact string equality, so collation case-insensitivity (in the language filter, the `IN` lists and the `LIKE` match on stored field values) is left out.
- Php.IntCast: the value is computed exactly. PHP converts a numeric prefix with a point or an exponent to a double first, so digits beyond double precision are rounded, and results outside the 64-bit integer range saturate or are platform-dependent; neither is modelled.
- A scalar `catid` compared with an integer column is modelled by PHP's `(int)` cast, so MySQL's reading of decimals and exponents is left out.
- The `LIKE` pattern is modelled as literal substring search. `%` and `_` inside a submitted value act as wildcards in MySQL, and a backslash in the JSON-encoded fragment is read as an escape by `LIKE`. Values containing `"`, `/` or `\`, or a newline, tab, carriage return, backspace or form feed (which `json_encode` writes as a backslash and a letter, and `LIKE` then reads as the bare letter), therefore match differently in MySQL than in the model.
- `json_encode` is modelled for the escapes of `"`, `\`, `/`, backspace, form feed, newline, carriage return and tab. Its `\uXXXX` escapes of other control characters and of non-ASCII characters are left out.
- An empty list submitted for a custom field makes the source emit `IN()` for a plain field, and an empty `AND ()` condition group through `extendWhere` for a sub-field (FilterMagic.php:198); both are SQL errors. The model treats either as matching nothing.
- Fields.ResolveSubformFields: the PHP iteration order of `$fields` is not modelled. When two composites of one pass list the same sub-field, the source keeps the parent that comes last in array order, and a later pass that lists it again overwrites the parent once more. The contract only promises that the parent is one of the processed composites that list it.
- Fields.ResolveSubformFields: aliasing is not modelled. The source sets `parent_field_id` on the catalogue's own field objects, which every cached flat list shares, so a later lift can change the parent seen through an earlier list. The model copies values.
- Fields.ResolveSubformFields requires a ghost rank over the composites reachable from the input's composites, showing that none of them reaches itself. When the source flattens fields that reach such a cycle it recurses forever. Composites of the catalogue that the input never reaches need no rank. `FilterMagicPlugin.FilterMagic.GetFlatFieldsList` requires the rank for the category's fields only on a memo miss, and `FilterMagicPlugin.FilterMagic.GetForm` and `FilterMagicPlugin.FilterMagic.HandleModel` only when loading the form will flatten: no memoised form, a form file, and no cached list.
- FilterMagicPlugin.FilterMagic.GetFlatFieldsList: on a memo hit the contract says only that the cached list is returned. The cached list is not related to the current `fs`, just as the source does not re-read the fields.
- The Joomla registry stores dotted user-state keys as nested objects. The model keeps a flat map from full keys to values.
- The `is_numeric` and `is_string` branches of `options` (SubcategoryField.php:118-122 and 133-137) can never run, because `explode` always returns an array, so they are not modelled.
- The `filter.access` branch (SubcategoryField.php:144-157) is not modelled. `getOptions` never sets it.
- ArticleFilter.Select returns the ids in table order. The article query has no `ORDER BY`, so MySQL returns them in no defined order; `filter.article_id` does not depend on it.
- Rows with equal `lft` are left in table order, whereas MySQL leaves their order unspecified. In a well-formed nested set no two categories share an `lft`.
- When several category rows share the root id, the root's `lft` is taken from the first of them. `id` is the table's primary key.
- `HTMLHelper::_('select.option', …)` is modelled as a value and text pair, with the category id rendered as its decimal string.
