/**
 * The FilterMagic system plugin: the per-request memo of filter forms and
 * flattened custom-field lists, the sticky merge of request data with the
 * user's session state, and `handleModel`, which narrows a category's
 * articles model to the articles the filter form selects.
 */
module FilterMagicPlugin {
  import opened Wrappers
  import opened Php
  import opened Fields
  import opened ArticleFilter

  // ---------------------------------------------------------------------------
  // Session user state
  // ---------------------------------------------------------------------------

  /**
   * `getUserState(key, '')`: the stored value, or the default `''` when the
   * key is unset or holds null or `''` (the registry hands back the default
   * for both).
   */
  function StoredOr(values: map<string, Value>, key: string): Value {
    if key in values && values[key] != Null && values[key] != Str("") then values[key] else Str("")
  }

  /** The session's user state, a dictionary from dotted keys to values. */
  class UserState {
    var values: map<string, Value>

    constructor(values: map<string, Value>)
      ensures this.values == values
    {
      this.values := values;
    }

    function Get(key: string): Value
      reads this
    {
      StoredOr(values, key)
    }

    /** `setUserState(key, value)`. */
    method Set(key: string, value: Value)
      modifies this
      ensures values == old(values)[key := value]
    {
      values := values[key := value];
    }
  }

  // ---------------------------------------------------------------------------
  // The articles model's state
  // ---------------------------------------------------------------------------

  datatype StateValue = IdList(ids: seq<int>) | IntValue(n: int) | BoolValue(b: bool)

  const ArticleIdKey := "filter.article_id"
  const ArticleIdIncludeKey := "filter.article_id.include"

  /** `$articleIds ?: -1`: the id list, or the sentinel -1 when it is empty. */
  function ArticleIdState(ids: seq<int>): StateValue {
    if ids == [] then IntValue(-1) else IdList(ids)
  }

  /** The state of Joomla's `ArticlesModel`, as far as the plugin touches it. */
  class ArticlesModel {
    var state: map<string, StateValue>

    constructor(state: map<string, StateValue>)
      ensures this.state == state
    {
      this.state := state;
    }

    /** `setState(key, value)`. */
    method SetState(key: string, value: StateValue)
      modifies this
      ensures state == old(state)[key := value]
    {
      state := state[key := value];
    }
  }

  /** The sentinel -1 is stored exactly when no article of the table passes the filter. */
  lemma {:induction false} SentinelIffNoMatch(db: Database, rows: seq<Article>, filters: Filters, fields: map<nat, Field>)
    ensures ArticleIdState(MatchingIds(db, rows, filters, fields)) == IntValue(-1) <==>
            forall k :: 0 <= k < |rows| ==> !ArticleMatches(db, rows[k], filters, fields)
  {
    var ids := MatchingIds(db, rows, filters, fields);
    if ids != [] {
      assert ids[0] in ids;
      var k :| 0 <= k < |rows| && rows[k].id == ids[0] && ArticleMatches(db, rows[k], filters, fields);
    }
    forall k | 0 <= k < |rows| && ArticleMatches(db, rows[k], filters, fields)
      ensures ids != []
    {
      assert rows[k].id in ids;
    }
  }

  // ---------------------------------------------------------------------------
  // Sticky filter state
  // ---------------------------------------------------------------------------

  /** A field of the form's `filter` group: its group key and its field name. */
  datatype FormField = FormField(subkey: string, name: string)

  /** The user-state key prefix of a category, `filtermagic.<catId>.`. */
  function StatePrefix(catId: int): string {
    "filtermagic." + IntToString(catId) + "."
  }

  /** The user-state key of one filter field of a category. */
  function StateKey(catId: int, subkey: string): string {
    StatePrefix(catId) + subkey
  }

  lemma DecimalHasNoDot(i: int)
    ensures '.' !in IntToString(i)
  {
  }

  /**
   * The sticky state of one category never touches another's: keys of
   * different categories differ whatever their subkeys.
   */
  lemma CategoryKeysDisjoint(c1: int, c2: int, s1: string, s2: string)
    requires c1 != c2
    ensures StateKey(c1, s1) != StateKey(c2, s2)
  {
    var d1 := IntToString(c1);
    var d2 := IntToString(c2);
    assert d1 != d2 by {
      if d1 == d2 {
        IntToStringInjective(c1, c2);
      }
    }
    DecimalHasNoDot(c1);
    DecimalHasNoDot(c2);
    var p := "filtermagic.";
    var k1 := StateKey(c1, s1);
    var k2 := StateKey(c2, s2);
    assert k1 == p + d1 + "." + s1;
    assert k2 == p + d2 + "." + s2;
    if |d1| < |d2| {
      assert k1[|p| + |d1|] == '.';
      assert k2[|p| + |d1|] == d2[|d1|];
    } else if |d2| < |d1| {
      assert k2[|p| + |d2|] == '.';
      assert k1[|p| + |d2|] == d1[|d2|];
    } else {
      var m :| 0 <= m < |d1| && d1[m] != d2[m];
      assert k1[|p| + m] == d1[m];
      assert k2[|p| + m] == d2[m];
    }
  }

  /**
   * The value bound to one field: the request value if present and not
   * null (PHP `??`), otherwise the stored user state, otherwise `''`.
   */
  function Datum(request: Filters, state: map<string, Value>, key: string, name: string): Value {
    if name in request && request[name] != Null then request[name] else StoredOr(state, key)
  }

  /** The form data bound by the merge and the user state it leaves behind. */
  datatype Merge = Merge(data: Filters, state: map<string, Value>)

  function Names(group: seq<FormField>): set<string> {
    set k | 0 <= k < |group| :: group[k].name
  }

  function Keys(group: seq<FormField>, prefix: string): set<string> {
    set k | 0 <= k < |group| :: prefix + group[k].subkey
  }

  /** One step of the merge loop over the values it has bound so far. */
  lemma MergeStep(group: seq<FormField>, k: nat, request: Filters, state: map<string, Value>, prefix: string,
                  data: Filters, values: map<string, Value>)
    requires k < |group|
    requires Merge(data, values) == StickyMerge(group[..k], request, state, prefix)
    ensures var key := prefix + group[k].subkey;
            var datum := Datum(request, values, key, group[k].name);
            Merge(data[group[k].name := datum], values[key := datum]) == StickyMerge(group[..k + 1], request, state, prefix)
  {
    StickyMergeSnoc(group, k, request, state, prefix);
  }

  /**
   * The merge loop of `getForm` over the first fields of the group: each
   * field's datum is bound under its name and written back to the user
   * state under `prefix + subkey`. Every field gets a non-null value, and
   * the user state only gains the group's keys.
   */
  function StickyMerge(group: seq<FormField>, request: Filters, state: map<string, Value>, prefix: string): (m: Merge)
    ensures m.data.Keys == Names(group)
    ensures m.state.Keys == state.Keys + Keys(group, prefix)
    ensures forall name :: name in m.data ==> m.data[name] != Null
  {
    if group == [] then Merge(map[], state)
    else
      NamesAndKeysSnoc(group, prefix);
      Bind(StickyMerge(group[..|group| - 1], request, state, prefix), group[|group| - 1], request, prefix)
  }

  /** One iteration of the merge loop: bind field `f` and write its datum back. */
  function Bind(m: Merge, f: FormField, request: Filters, prefix: string): Merge {
    var key := prefix + f.subkey;
    var datum := Datum(request, m.state, key, f.name);
    Merge(m.data[f.name := datum], m.state[key := datum])
  }

  lemma NamesAndKeysSnoc(group: seq<FormField>, prefix: string)
    requires group != []
    ensures Names(group) == Names(group[..|group| - 1]) + {group[|group| - 1].name}
    ensures Keys(group, prefix) == Keys(group[..|group| - 1], prefix) + {prefix + group[|group| - 1].subkey}
  {
    var init := group[..|group| - 1];
    assert forall k :: 0 <= k < |init| ==> init[k] == group[k];
  }

  /** Group keys of a form are distinct (they are the keys of a PHP array). */
  predicate DistinctSubkeys(group: seq<FormField>) {
    forall i, j :: 0 <= i < j < |group| ==> group[i].subkey != group[j].subkey
  }

  /** No field after position `k` shares the name of the field at `k`. */
  predicate IsLastWithName(group: seq<FormField>, k: nat)
    requires k < |group|
  {
    forall j :: k < j < |group| ==> group[j].name != group[k].name
  }

  lemma PrefixedKeysDiffer(prefix: string, s1: string, s2: string)
    requires s1 != s2
    ensures prefix + s1 != prefix + s2
  {
    assert (prefix + s1)[|prefix|..] == s1;
    assert (prefix + s2)[|prefix|..] == s2;
  }

  /** The merge writes only the group's own keys: every other user-state entry is left as it was. */
  lemma {:induction false} StickyMergeKeepsOtherKeys(group: seq<FormField>, request: Filters, state: map<string, Value>,
                                                     prefix: string, key: string)
    requires forall k :: 0 <= k < |group| ==> prefix + group[k].subkey != key
    ensures var m := StickyMerge(group, request, state, prefix);
            (key in m.state <==> key in state) && (key in state ==> m.state[key] == state[key])
  {
    if group != [] {
      var init := group[..|group| - 1];
      assert forall k :: 0 <= k < |init| ==> init[k] == group[k];
      StickyMergeKeepsOtherKeys(init, request, state, prefix, key);
    }
  }

  /**
   * Each field's bound value is its `Datum`: the request value if the
   * request has a non-null one, otherwise the user state stored before the
   * merge under `prefix + subkey`, otherwise `''`; and afterwards the user
   * state holds exactly that value.
   */
  lemma {:induction false} StickyMergeBindsField(group: seq<FormField>, request: Filters, state: map<string, Value>,
                                                 prefix: string, k: nat)
    requires k < |group| && DistinctSubkeys(group) && IsLastWithName(group, k)
    ensures var m := StickyMerge(group, request, state, prefix);
            var key := prefix + group[k].subkey;
            m.data[group[k].name] == Datum(request, state, key, group[k].name) && m.state[key] == m.data[group[k].name]
  {
    var n := |group| - 1;
    var init := group[..n];
    var m' := StickyMerge(init, request, state, prefix);
    assert StickyMerge(group, request, state, prefix) == Bind(m', group[n], request, prefix);
    if k == n {
      BindsLastField(group, request, state, prefix);
    } else {
      assert init[k] == group[k];
      assert DistinctSubkeys(init) && IsLastWithName(init, k) by {
        assert forall j :: 0 <= j < n ==> init[j] == group[j];
      }
      StickyMergeBindsField(init, request, state, prefix, k);
      PrefixedKeysDiffer(prefix, group[n].subkey, group[k].subkey);
      BindKeepsOthers(m', group[n], request, prefix, group[k].name, prefix + group[k].subkey);
    }
  }

  lemma BindsLastField(group: seq<FormField>, request: Filters, state: map<string, Value>, prefix: string)
    requires group != [] && DistinctSubkeys(group)
    ensures var n := |group| - 1;
            var key := prefix + group[n].subkey;
            var m' := StickyMerge(group[..n], request, state, prefix);
            StoredOr(m'.state, key) == StoredOr(state, key)
  {
    var n := |group| - 1;
    var init := group[..n];
    var key := prefix + group[n].subkey;
    forall j | 0 <= j < n ensures prefix + init[j].subkey != key {
      assert init[j] == group[j];
      PrefixedKeysDiffer(prefix, init[j].subkey, group[n].subkey);
    }
    StickyMergeKeepsOtherKeys(init, request, state, prefix, key);
  }

  /** Binding one field leaves every other name and key as it was. */
  lemma BindKeepsOthers(m: Merge, f: FormField, request: Filters, prefix: string, name: string, key: string)
    requires name != f.name && key != prefix + f.subkey
    requires name in m.data && key in m.state
    ensures var b := Bind(m, f, request, prefix);
            name in b.data && b.data[name] == m.data[name] && key in b.state && b.state[key] == m.state[key]
  {
  }

  /** Merging into a user state that differs at a key the group does not write. */
  lemma {:induction false} StickyMergeFrame(group: seq<FormField>, request: Filters, state: map<string, Value>,
                                            prefix: string, key: string, v: Value)
    requires forall k :: 0 <= k < |group| ==> prefix + group[k].subkey != key
    ensures var m := StickyMerge(group, request, state, prefix);
            StickyMerge(group, request, state[key := v], prefix) == Merge(m.data, m.state[key := v])
  {
    if group != [] {
      var n := |group| - 1;
      var init := group[..n];
      assert forall j :: 0 <= j < n ==> init[j] == group[j];
      StickyMergeFrame(init, request, state, prefix, key, v);
      var m := StickyMerge(init, request, state, prefix);
      BindFrame(m, group[n], request, prefix, key, v);
    }
  }

  lemma BindFrame(m: Merge, f: FormField, request: Filters, prefix: string, key: string, v: Value)
    requires prefix + f.subkey != key
    ensures Bind(Merge(m.data, m.state[key := v]), f, request, prefix) ==
            var b := Bind(m, f, request, prefix); Merge(b.data, b.state[key := v])
  {
    var key2 := prefix + f.subkey;
    var d := Datum(request, m.state, key2, f.name);
    assert Datum(request, m.state[key := v], key2, f.name) == d;
    assert m.state[key := v][key2 := d] == m.state[key2 := d][key := v];
  }

  /**
   * The state is sticky: a later request that submits nothing binds the same
   * data again and leaves the user state as the first merge left it.
   */
  lemma {:induction false} StickyMergeIdempotent(group: seq<FormField>, request: Filters, state: map<string, Value>, prefix: string)
    requires DistinctSubkeys(group)
    ensures var m := StickyMerge(group, request, state, prefix);
            StickyMerge(group, map[], m.state, prefix) == m
  {
    if group != [] {
      var n := |group| - 1;
      var init := group[..n];
      assert forall j :: 0 <= j < n ==> init[j] == group[j];
      var f := group[n];
      var key := prefix + f.subkey;
      var m' := StickyMerge(init, request, state, prefix);
      var d := Datum(request, m'.state, key, f.name);
      StickyMergeIdempotent(init, request, state, prefix);
      forall j | 0 <= j < n ensures prefix + init[j].subkey != key {
        PrefixedKeysDiffer(prefix, init[j].subkey, f.subkey);
      }
      StickyMergeFrame(init, map[], m'.state, prefix, key, d);
      assert StickyMerge(group, request, state, prefix) == Bind(m', f, request, prefix);
      assert StickyMerge(group, map[], Bind(m', f, request, prefix).state, prefix)
          == Bind(Merge(m'.data, m'.state[key := d]), f, map[], prefix);
      BindAgain(m', f, request, prefix);
  }
  }

  /** The merge over one more field is one more `Bind`. */
  lemma StickyMergeSnoc(group: seq<FormField>, k: nat, request: Filters, state: map<string, Value>, prefix: string)
    requires k < |group|
    ensures StickyMerge(group[..k + 1], request, state, prefix) ==
            Bind(StickyMerge(group[..k], request, state, prefix), group[k], request, prefix)
  {
    assert group[..k + 1][..k] == group[..k];
  }

  /** Binding a field again, with nothing submitted, over the state its first binding wrote. */
  lemma BindAgain(m: Merge, f: FormField, request: Filters, prefix: string)
    ensures var key := prefix + f.subkey;
            var d := Datum(request, m.state, key, f.name);
            Bind(Merge(m.data, m.state[key := d]), f, map[], prefix) == Bind(m, f, request, prefix)
  {
    var key := prefix + f.subkey;
    var d := Datum(request, m.state, key, f.name);
    assert StoredOr(m.state[key := d], key) == d;
    assert m.state[key := d][key := d] == m.state[key := d];
  }

  /**
   * The merge loop of `getForm`: every field of the `filter` group, in
   * order, is bound to the request value or the stored user state, and the
   * value is written back to the user state.
   */
  method BindFilterGroup(group: seq<FormField>, request: Filters, prefix: string, session: UserState)
    returns (data: Filters)
    modifies session
    ensures Merge(data, session.values) == StickyMerge(group, request, old(session.values), prefix)
  {
    data := map[];
    var k := 0;
    while k < |group|
      invariant 0 <= k <= |group|
      invariant Merge(data, session.values) == StickyMerge(group[..k], request, old(session.values), prefix)
    {
      var field := group[k];
      var key := prefix + field.subkey;
      var datum := if field.name in request && request[field.name] != Null then request[field.name] else session.Get(key);
      ghost var values := session.values;
      assert datum == Datum(request, values, key, field.name);
      MergeStep(group, k, request, old(session.values), prefix, data, values);
      session.Set(key, datum);
      data := data[field.name := datum];
      assert session.values == values[key := datum];
      k := k + 1;
    }
    assert group[..k] == group;
  }

  // ---------------------------------------------------------------------------
  // The plugin
  // ---------------------------------------------------------------------------

  /** The category's field list agrees with the catalogue on the type of every field both hold. */
  predicate TypesAgree(fs: seq<Field>, all: map<nat, Field>) {
    forall k :: 0 <= k < |fs| && fs[k].id in all ==> fs[k].fieldType == all[fs[k].id].fieldType
  }

  /**
   * `flat` is the flattening of `fields`: keyed by id, without composites,
   * and, within a nesting depth that bounds every composite below the
   * input, its ids are exactly those reached and each entry is the input's
   * own or a catalogue sub-field tagged with a processed parent that lists it.
   */
  ghost predicate FlatteningOf(fields: map<nat, Field>, all: map<nat, Field>, rank: map<nat, nat>, flat: map<nat, Field>) {
    && KeyedById(flat) && NoComposite(flat)
    && exists depth ::
         && Bounded(fields, all, rank, depth)
         && (forall id :: id in flat <==> InFlattening(fields, all, depth, id))
         && (forall id :: id in flat ==> Origin(fields, all, depth, flat[id], id))
  }

  /**
   * What `getForm` does to the form memo and the user state for category
   * `c`: a memoised form leaves both alone; a missing form file memoises
   * `None`; otherwise the filter group is bound by the sticky merge under
   * the category's prefix and memoised.
   */
  ghost predicate FormLoaded(c: int, formFile: Option<seq<FormField>>, request: Filters,
                             oldForms: map<int, Option<Filters>>, oldValues: map<string, Value>,
                             forms: map<int, Option<Filters>>, values: map<string, Value>) {
    if c in oldForms && oldForms[c].Some? then forms == oldForms && values == oldValues
    else if formFile.None? then forms == oldForms[c := None] && values == oldValues
    else
      var m := StickyMerge(formFile.value, request, oldValues, StatePrefix(c));
      forms == oldForms[c := Some(m.data)] && values == m.state
  }

  /** A nesting depth that bounds every ranked id. */
  lemma RankBound(keys: set<nat>, rank: map<nat, nat>) returns (bound: nat)
    requires keys <= rank.Keys
    ensures forall id :: id in keys ==> rank[id] < bound
    decreases keys
  {
    if keys == {} {
      bound := 0;
    } else {
      var x :| x in keys;
      var rest := RankBound(keys - {x}, rank);
      bound := if rank[x] + 1 > rest then rank[x] + 1 else rest;
    }
  }

  class FilterMagic {
    /** The catalogue of every article custom field, keyed by id (`self::$allFields`). */
    const all: map<nat, Field>
    /** Witness that no ranked subform or inception field reaches itself. */
    ghost const rank: map<nat, nat>
    /** `$this->forms`: the loaded filter forms' bound data; `None` for a category without a form. */
    var forms: map<int, Option<Filters>>
    /** `$this->flatFields`: each category's flattened field list. */
    var flatFields: map<int, map<nat, Field>>

    ghost predicate Valid()
      reads this
    {
      && KeyedById(all) && Ranked(all, rank)
      && (forall c :: c in flatFields ==> KeyedById(flatFields[c]) && NoComposite(flatFields[c]))
      && (forall c :: c in forms && forms[c].Some? ==> c in flatFields)
    }

    /**
     * What `getForm` does to the flat-field memo for category `c`: loading a
     * form from its file first flattens the category's fields `fs` (through
     * `transplantCustomFields`) unless they are cached; a memoised form or a
     * missing form file leaves the memo alone.
     */
    ghost predicate FlatLoaded(c: int, formFile: Option<seq<FormField>>, fs: seq<Field>,
                               oldForms: map<int, Option<Filters>>, oldFlat: map<int, map<nat, Field>>,
                               flat: map<int, map<nat, Field>>) {
      if (c in oldForms && oldForms[c].Some?) || formFile.None? || c in oldFlat then flat == oldFlat
      else c in flat && flat == oldFlat[c := flat[c]] && FlatteningOf(KeyById(fs), all, rank, flat[c])
    }

    constructor(all: map<nat, Field>, ghost rank: map<nat, nat>)
      requires KeyedById(all) && Ranked(all, rank)
      ensures Valid()
      ensures this.all == all && this.rank == rank
      ensures forms == map[] && flatFields == map[]
    {
      this.all := all;
      this.rank := rank;
      forms := map[];
      flatFields := map[];
    }

    /**
     * `getFlatFieldsList`: the memoised flattening of the fields `fs`
     * applicable to category `catId`. A cached list is returned as it is;
     * otherwise the fields are keyed by id, flattened and cached.
     */
    method GetFlatFieldsList(catId: int, fs: seq<Field>) returns (flat: map<nat, Field>)
      requires Valid() && TypesAgree(fs, all)
      requires catId !in flatFields ==> RankCovers(KeyById(fs), all, rank)
      modifies this
      ensures Valid() && forms == old(forms)
      ensures KeyedById(flat) && NoComposite(flat)
      ensures catId in old(flatFields) ==> flat == old(flatFields)[catId] && flatFields == old(flatFields)
      ensures catId !in old(flatFields) ==>
                flatFields == old(flatFields)[catId := flat] && FlatteningOf(KeyById(fs), all, rank, flat)
    {
      if catId in flatFields {
        flat := flatFields[catId];
        return;
      }
      var fields := KeyById(fs);
      assert SameTypes(fields, all);
      ghost var bound := RankBound(rank.Keys, rank);
      flat := ResolveSubformFields(fields, all, rank, bound);
      assert && Bounded(fields, all, rank, bound)
             && (forall id :: id in flat <==> InFlattening(fields, all, bound, id))
             && (forall id :: id in flat ==> Origin(fields, all, bound, flat[id], id));
      flatFields := flatFields[catId := flat];
    }

    /**
     * `getForm`: the filter form of category `catId` with its bound data.
     * A loaded form is returned from the memo. A category without a form
     * file (`formFile` is `None`) memoises `None`, which the next call
     * does not count as cached and probes again. Otherwise every field of
     * the form's `filter` group is bound to the request value, falling back
     * to the user state, and the value is written back to the user state.
     */
    method GetForm(catId: int, formFile: Option<seq<FormField>>, request: Filters, session: UserState, fs: seq<Field>)
      returns (form: Option<Filters>)
      requires Valid() && TypesAgree(fs, all)
      requires !(catId in forms && forms[catId].Some?) && formFile.Some? && catId !in flatFields
               ==> RankCovers(KeyById(fs), all, rank)
      modifies this, session
      ensures Valid()
      ensures FlatLoaded(catId, formFile, fs, old(forms), old(flatFields), flatFields)
      ensures FormLoaded(catId, formFile, request, old(forms), old(session.values), forms, session.values)
      ensures catId in forms && forms[catId] == form
    {
      if catId in forms && forms[catId].Some? {
        form := forms[catId];
        return;
      }
      if formFile.None? {
        form := None;
        forms := forms[catId := None];
        return;
      }
      var _ := GetFlatFieldsList(catId, fs);
      var group := formFile.value;
      var data := BindFilterGroup(group, request, StatePrefix(catId), session);
      form := Some(data);
      forms := forms[catId := form];
    }

    /**
     * `handleModel`: with a category, a filter form and at least one
     * non-empty filter value, the articles model's state receives the ids of
     * the articles of `db.content` that pass every filter dimension (or -1
     * when none does), with the include flag set. In every other case the
     * model's state is left untouched.
     */
    method HandleModel(category: Option<int>, formFile: Option<seq<FormField>>, request: Filters,
                       session: UserState, fs: seq<Field>, db: Database, model: ArticlesModel)
      requires Valid() && TypesAgree(fs, all)
      requires category.Some? && !(category.value in forms && forms[category.value].Some?) &&
               formFile.Some? && category.value !in flatFields
               ==> RankCovers(KeyById(fs), all, rank)
      modifies this, session, model
      ensures Valid()
      ensures category.None? ==>
                && forms == old(forms) && flatFields == old(flatFields)
                && session.values == old(session.values) && model.state == old(model.state)
      ensures category.Some? ==>
                && FormLoaded(category.value, formFile, request, old(forms), old(session.values), forms, session.values)
                && FlatLoaded(category.value, formFile, fs, old(forms), old(flatFields), flatFields)
                && category.value in forms
      ensures category.Some? && !(forms[category.value].Some? && HasFilters(forms[category.value].value)) ==>
                model.state == old(model.state)
      ensures category.Some? && forms[category.value].Some? && HasFilters(forms[category.value].value) ==>
                var c := category.value;
                && c in flatFields
                && model.state == old(model.state)
                     [ArticleIdKey := ArticleIdState(MatchingIds(db, db.content, forms[c].value, flatFields[c]))]
                     [ArticleIdIncludeKey := BoolValue(true)]
    {
      if category.None? {
        return;
      }
      var catId := category.value;
      var form := GetForm(catId, formFile, request, session, fs);
      if form.None? {
        return;
      }
      var filters := form.value;
      if !HasFilters(filters) {
        return;
      }
      var fields := GetFlatFieldsList(catId, fs);
      var clauses := BuildQuery(filters, fields);
      var ids := Select(db, db.content, clauses);
      SelectIsMatchingIds(db, db.content, clauses, filters, fields);
      model.SetState(ArticleIdKey, ArticleIdState(ids));
      model.SetState(ArticleIdIncludeKey, BoolValue(true));
    }
  }
}
