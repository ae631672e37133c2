/**
 * Custom field definitions and the flattening of subform and inception
 * fields into the sub-fields they hold (`getFlatFieldsList` keys the fields
 * by id, `resolveSubformFields` does the flattening).
 */
module Fields {
  import opened Wrappers

  /**
   * A custom field definition. For a subform or inception field, `subFields`
   * lists the `customfield` ids of its `options` parameter (already cast to
   * integers). `parent` is the `parent_field_id` the flattening attaches to a
   * sub-field it lifts out of its subform.
   */
  datatype Field = Field(id: nat, name: string, fieldType: string, subFields: seq<nat>, parent: Option<nat>)

  /** Subform and inception fields are the composite kinds that get flattened. */
  predicate IsComposite(f: Field) {
    f.fieldType == "subform" || f.fieldType == "inception"
  }

  /** PHP `isset($f->parent_field_id) && !empty($f->parent_field_id)`. */
  predicate HasParent(f: Field) {
    f.parent.Some? && f.parent.value != 0
  }

  /** Every entry is stored under its own id. */
  predicate KeyedById(m: map<nat, Field>) {
    forall id :: id in m ==> m[id].id == id
  }

  predicate NoComposite(m: map<nat, Field>) {
    forall id :: id in m ==> !IsComposite(m[id])
  }

  /** A field known to both maps has the same type in both (both are read from the same table). */
  predicate SameTypes(fields: map<nat, Field>, all: map<nat, Field>) {
    forall id :: id in fields && id in all ==> fields[id].fieldType == all[id].fieldType
  }

  /** No field after position `k` has the id of the field at `k`. */
  predicate IsLastWithId(fs: seq<Field>, k: nat)
    requires k < |fs|
  {
    forall j :: k < j < |fs| ==> fs[j].id != fs[k].id
  }

  /**
   * `array_combine` of the fields' ids with the fields: the ids become the
   * keys, and when two fields share an id the later one is kept.
   */
  function KeyById(fs: seq<Field>): (m: map<nat, Field>)
    ensures KeyedById(m)
    ensures forall k :: 0 <= k < |fs| ==> fs[k].id in m
    ensures forall id :: id in m ==> m[id] in fs
  {
    if fs == [] then map[]
    else
      var init := fs[..|fs| - 1];
      var last := fs[|fs| - 1];
      KeyById(init)[last.id := last]
  }

  /** When ids repeat, the entry kept under an id is the last field with that id. */
  lemma {:induction false} KeyByIdKeepsLast(fs: seq<Field>, k: nat)
    requires k < |fs| && IsLastWithId(fs, k)
    ensures KeyById(fs)[fs[k].id] == fs[k]
  {
    if k < |fs| - 1 {
      var init := fs[..|fs| - 1];
      assert fs[|fs| - 1].id != fs[k].id;
      assert init[k] == fs[k];
      assert IsLastWithId(init, k) by {
        forall j | k < j < |init| ensures init[j].id != init[k].id {
          assert init[j] == fs[j];
        }
      }
      KeyByIdKeepsLast(init, k);
    }
  }

  // ---------------------------------------------------------------------------
  // What the flattening promises
  // ---------------------------------------------------------------------------

  /**
   * Composite `p` lists `id` among its sub-fields and the flattening
   * processes it: `p` is a composite of the input, or a catalogue composite
   * reached from one within `depth` levels.
   */
  ghost predicate ListedBy(fields: map<nat, Field>, all: map<nat, Field>, depth: nat, p: nat, id: nat) {
    || (p in fields && IsComposite(fields[p]) && id in fields[p].subFields)
    || (p in all && IsComposite(all[p]) && id in all[p].subFields &&
        exists c :: c in fields && IsComposite(fields[c]) && Reaches(all, fields[c].subFields, p, depth))
  }

  /**
   * The catalogue entry `id` is reached from the sub-field list `refs`,
   * directly or through at most `depth` levels of nested composites.
   */
  ghost predicate Reaches(all: map<nat, Field>, refs: seq<nat>, id: nat, depth: nat)
    decreases depth
  {
    exists k :: 0 <= k < |refs| && refs[k] in all &&
      (|| refs[k] == id
       || (depth > 0 && IsComposite(all[refs[k]]) && Reaches(all, all[refs[k]].subFields, id, depth - 1)))
  }

  /**
   * The ids of the flattened list: the input's plain fields, and every plain
   * catalogue field reached from one of the input's composites.
   */
  ghost predicate InFlattening(fields: map<nat, Field>, all: map<nat, Field>, depth: nat, id: nat) {
    || (id in fields && !IsComposite(fields[id]))
    || (id in all && !IsComposite(all[id]) &&
        exists c :: c in fields && IsComposite(fields[c]) && Reaches(all, fields[c].subFields, id, depth))
  }

  /** Some composite the flattening processes lists `id`. */
  ghost predicate Listed(fields: map<nat, Field>, all: map<nat, Field>, depth: nat, id: nat) {
    exists p :: ListedBy(fields, all, depth, p, id)
  }

  /**
   * Where a flattened entry comes from: a catalogue field that a processed
   * composite lists is the catalogue's entry with `parent` set to such a
   * composite, even when the input holds the field itself; any other entry
   * is the input's own.
   */
  ghost predicate Origin(fields: map<nat, Field>, all: map<nat, Field>, depth: nat, f: Field, id: nat) {
    if id in all && Listed(fields, all, depth, id) then
      f.parent.Some? && f == all[id].(parent := f.parent) && ListedBy(fields, all, depth, f.parent.value, id)
    else
      id in fields && f == fields[id]
  }

  /**
   * `rank` strictly decreases from every ranked catalogue composite to each
   * composite it lists, so no ranked subform or inception field reaches
   * itself. Composites outside `rank` are unconstrained: a cycle the input
   * never reaches does not matter.
   */
  ghost predicate Ranked(all: map<nat, Field>, rank: map<nat, nat>) {
    forall c, k ::
      c in all && c in rank && IsComposite(all[c]) && 0 <= k < |all[c].subFields| &&
      all[c].subFields[k] in all && IsComposite(all[all[c].subFields[k]])
      ==> all[c].subFields[k] in rank && rank[all[c].subFields[k]] < rank[c]
  }

  /** Every catalogue composite that a composite of `fields` lists is ranked. */
  ghost predicate RankCovers(fields: map<nat, Field>, all: map<nat, Field>, rank: map<nat, nat>) {
    forall c, k ::
      c in fields && IsComposite(fields[c]) && 0 <= k < |fields[c].subFields| &&
      fields[c].subFields[k] in all && IsComposite(all[fields[c].subFields[k]])
      ==> fields[c].subFields[k] in rank
  }

  /**
   * A catalogue subform that lists a sub-field but that the input never
   * reaches is not accepted as the sub-field's parent.
   */
  lemma UnreachedCompositeIsNoParent(depth: nat)
    ensures var fields := map[1 := Field(1, "outer", "subform", [2], None)];
            var all := fields[2 := Field(2, "text", "text", [], None)][3 := Field(3, "other", "subform", [2], None)];
            !Origin(fields, all, depth, Field(2, "text", "text", [], Some(3)), 2)
  {
  }

  /**
   * A plain field the input holds itself comes back tagged with the parent
   * of a processed composite that lists it, never as the untagged original.
   */
  lemma ListedFieldIsTagged(depth: nat)
    ensures var fields := map[1 := Field(1, "outer", "subform", [2], None), 2 := Field(2, "color", "text", [], None)];
            && !Origin(fields, fields, depth, Field(2, "color", "text", [], None), 2)
            && Origin(fields, fields, depth, Field(2, "color", "text", [], Some(1)), 2)
  {
    var fields := map[1 := Field(1, "outer", "subform", [2], None), 2 := Field(2, "color", "text", [], None)];
    assert ListedBy(fields, fields, depth, 1, 2);
  }

  /**
   * A subform that lists itself but that the input never reaches needs no
   * rank: the flattening of the input is still covered.
   */
  lemma UnreachedCycleNeedsNoRank()
    ensures var fields := map[1 := Field(1, "outer", "subform", [2], None)];
            var all := fields[2 := Field(2, "text", "text", [], None)][3 := Field(3, "loop", "subform", [3], None)];
            Ranked(all, map[]) && RankCovers(fields, all, map[])
  {
  }

  /**
   * A subform that lists itself and that the input holds admits no rank, so
   * flattening such an input, on which the source recurses forever, is
   * never called.
   */
  lemma ReachedCycleHasNoRank(rank: map<nat, nat>)
    ensures var fields := map[1 := Field(1, "loop", "subform", [1], None)];
            !(Ranked(fields, rank) && RankCovers(fields, fields, rank))
  {
    var fields := map[1 := Field(1, "loop", "subform", [1], None)];
    if RankCovers(fields, fields, rank) {
      assert fields[1].subFields[0] == 1;
      assert 1 in rank;
    }
  }

  /** Every composite listed by a composite of `fields` has rank below `bound`. */
  ghost predicate Bounded(fields: map<nat, Field>, all: map<nat, Field>, rank: map<nat, nat>, bound: nat) {
    forall c, k ::
      c in fields && IsComposite(fields[c]) && 0 <= k < |fields[c].subFields| &&
      fields[c].subFields[k] in all && IsComposite(all[fields[c].subFields[k]])
      ==> fields[c].subFields[k] in rank && rank[fields[c].subFields[k]] < bound
  }

  // ---------------------------------------------------------------------------
  // One pass: what the loop collected
  // ---------------------------------------------------------------------------

  /** Every collected sub-field is the catalogue entry tagged with a processed composite that lists it. */
  ghost predicate AddSound(fields: map<nat, Field>, all: map<nat, Field>, done: set<nat>, add: map<nat, Field>) {
    forall r :: r in add ==>
      && r in all && add[r].parent.Some? && add[r] == all[r].(parent := add[r].parent)
      && add[r].parent.value in done && add[r].parent.value in fields
      && IsComposite(fields[add[r].parent.value]) && r in fields[add[r].parent.value].subFields
  }

  /** Every resolvable sub-field of a processed composite has been collected. */
  ghost predicate AddComplete(fields: map<nat, Field>, all: map<nat, Field>, done: set<nat>, add: map<nat, Field>) {
    forall c, k ::
      c in done && c in fields && IsComposite(fields[c]) && 0 <= k < |fields[c].subFields| &&
      fields[c].subFields[k] in all
      ==> fields[c].subFields[k] in add
  }

  /**
   * `resolveSubformFields`: every subform or inception field is removed, the
   * sub-fields it lists that the catalogue `all` knows are added under their
   * own ids with `parent` set to the listing field's id, the ids the
   * catalogue does not know are dropped, and the pass repeats while it added
   * anything. The result holds no composite field; its ids are exactly the
   * input's plain fields and the plain fields reachable from the input's
   * composites; a flat input comes back unchanged.
   *
   * `rank` witnesses that no composite reaches itself (otherwise the source
   * recurses forever) and `bound` bounds the nesting below the input.
   */
  method ResolveSubformFields(fields: map<nat, Field>, all: map<nat, Field>, ghost rank: map<nat, nat>, ghost bound: nat)
    returns (flat: map<nat, Field>)
    requires KeyedById(fields) && KeyedById(all) && SameTypes(fields, all)
    requires Ranked(all, rank) && Bounded(fields, all, rank, bound)
    ensures KeyedById(flat) && NoComposite(flat)
    ensures forall id :: id in flat <==> InFlattening(fields, all, bound, id)
    ensures forall id :: id in flat ==> Origin(fields, all, bound, flat[id], id)
    ensures NoComposite(fields) ==> flat == fields
    decreases bound, if NoComposite(fields) then 0 else 1
  {
    var remove: set<nat> := {};
    var add: map<nat, Field> := map[];
    var todo := fields.Keys;
    while todo != {}
      invariant todo <= fields.Keys
      invariant remove == set c | c in fields.Keys - todo && IsComposite(fields[c])
      invariant AddSound(fields, all, fields.Keys - todo, add)
      invariant AddComplete(fields, all, fields.Keys - todo, add)
      decreases todo
    {
      var id :| id in todo;
      ghost var done := fields.Keys - todo;
      todo := todo - {id};
      var field := fields[id];
      if IsComposite(field) {
        remove := remove + {id};
        var k := 0;
        while k < |field.subFields|
          invariant 0 <= k <= |field.subFields|
          invariant AddSound(fields, all, done + {id}, add)
          invariant AddComplete(fields, all, done, add)
          invariant forall j :: 0 <= j < k && field.subFields[j] in all ==> field.subFields[j] in add
        {
          var ref := field.subFields[k];
          if ref in all {
            add := add[ref := all[ref].(parent := Some(field.id))];
          }
          k := k + 1;
        }
      }
      assert fields.Keys - todo == done + {id};
    }
    var next := (fields - remove) + add;
    if add == map[] {
      flat := next;
      FinalPass(fields, all, bound, remove, flat);
    } else {
      ghost var bound' := if bound > 0 then bound - 1 else 0;
      NextPassWellFormed(fields, all, rank, bound, remove, add, next, bound');
      flat := ResolveSubformFields(next, all, rank, bound');
      PassPreservesFlattening(fields, all, rank, bound, remove, add, next, bound', flat);
    }
  }

  /** A pass that collected nothing leaves exactly the plain fields, as they were. */
  lemma FinalPass(fields: map<nat, Field>, all: map<nat, Field>, bound: nat, remove: set<nat>, flat: map<nat, Field>)
    requires KeyedById(fields)
    requires remove == set c | c in fields.Keys && IsComposite(fields[c])
    requires AddComplete(fields, all, fields.Keys, map[])
    requires flat == fields - remove
    ensures KeyedById(flat) && NoComposite(flat)
    ensures forall id :: id in flat <==> InFlattening(fields, all, bound, id)
    ensures forall id :: id in flat ==> Origin(fields, all, bound, flat[id], id)
    ensures NoComposite(fields) ==> flat == fields
  {
    if NoComposite(fields) {
      assert remove == {};
    }
  }

  /** The map the next pass starts from satisfies the pass's preconditions, with a smaller measure. */
  lemma NextPassWellFormed(fields: map<nat, Field>, all: map<nat, Field>, rank: map<nat, nat>, bound: nat,
                           remove: set<nat>, add: map<nat, Field>, next: map<nat, Field>, bound': nat)
    requires KeyedById(fields) && KeyedById(all) && SameTypes(fields, all)
    requires Ranked(all, rank) && Bounded(fields, all, rank, bound)
    requires remove == set c | c in fields.Keys && IsComposite(fields[c])
    requires AddSound(fields, all, fields.Keys, add)
    requires add != map[]
    requires next == (fields - remove) + add
    requires bound' == if bound > 0 then bound - 1 else 0
    ensures KeyedById(next) && SameTypes(next, all)
    ensures Bounded(next, all, rank, bound')
    ensures !NoComposite(fields)
    ensures bound == 0 ==> NoComposite(next)
    ensures forall c :: c in next && IsComposite(next[c]) ==> c in add && c in rank && rank[c] < bound
  {
    var r :| r in add;
    assert !IsComposite(fields[add[r].parent.value]) ==> false;
    forall c | c in next && IsComposite(next[c]) ensures c in add && c in rank && rank[c] < bound {
      assert c in add;
      var p := add[c].parent.value;
      var k :| 0 <= k < |fields[p].subFields| && fields[p].subFields[k] == c;
      assert IsComposite(all[c]);
    }
    forall c, k | c in next && IsComposite(next[c]) && 0 <= k < |next[c].subFields| &&
                  next[c].subFields[k] in all && IsComposite(all[next[c].subFields[k]])
      ensures next[c].subFields[k] in rank && rank[next[c].subFields[k]] < bound'
    {
      assert next[c].subFields == all[c].subFields;
      assert rank[all[c].subFields[k]] < rank[c];
    }
  }

  /** The pass's result, flattened further, is the flattening of the pass's input. */
  lemma PassPreservesFlattening(fields: map<nat, Field>, all: map<nat, Field>, rank: map<nat, nat>, bound: nat,
                                remove: set<nat>, add: map<nat, Field>, next: map<nat, Field>, bound': nat,
                                flat: map<nat, Field>)
    requires KeyedById(fields) && KeyedById(all) && SameTypes(fields, all)
    requires remove == set c | c in fields.Keys && IsComposite(fields[c])
    requires AddSound(fields, all, fields.Keys, add)
    requires AddComplete(fields, all, fields.Keys, add)
    requires next == (fields - remove) + add
    requires bound' == if bound > 0 then bound - 1 else 0
    requires forall c :: c in next && IsComposite(next[c]) ==> c in add && c in rank && rank[c] < bound
    requires forall id :: id in flat <==> InFlattening(next, all, bound', id)
    requires forall id :: id in flat ==> Origin(next, all, bound', flat[id], id)
    ensures forall id :: id in flat <==> InFlattening(fields, all, bound, id)
    ensures forall id :: id in flat ==> Origin(fields, all, bound, flat[id], id)
  {
    forall id ensures InFlattening(next, all, bound', id) <==> InFlattening(fields, all, bound, id) {
      FlatteningStep(fields, all, rank, bound, remove, add, next, bound', id);
    }
    forall id | id in flat ensures Origin(fields, all, bound, flat[id], id) {
      var f := flat[id];
      if id in all && Listed(next, all, bound', id) {
        ParentStillProcessed(fields, all, rank, bound, remove, add, next, bound', f.parent.value, id);
      } else if id in add {
        var p := add[id].parent.value;
        assert ListedBy(fields, all, bound, p, id);
      } else if id in all && Listed(fields, all, bound, id) {
        var p :| ListedBy(fields, all, bound, p, id);
        ListedByNext(fields, all, bound, remove, add, next, bound', p, id);
        assert false;
      }
    }
  }

  /**
   * A composite that lists a catalogue field the pass did not collect is
   * processed by the next pass, which lists the field too.
   */
  lemma ListedByNext(fields: map<nat, Field>, all: map<nat, Field>, bound: nat,
                     remove: set<nat>, add: map<nat, Field>, next: map<nat, Field>, bound': nat,
                     p: nat, id: nat)
    requires KeyedById(fields) && KeyedById(all) && SameTypes(fields, all)
    requires AddSound(fields, all, fields.Keys, add)
    requires AddComplete(fields, all, fields.Keys, add)
    requires next == (fields - remove) + add
    requires bound' == if bound > 0 then bound - 1 else 0
    requires id in all && id !in add
    requires ListedBy(fields, all, bound, p, id)
    ensures ListedBy(next, all, bound', p, id)
  {
    var c :| c in fields && IsComposite(fields[c]) && Reaches(all, fields[c].subFields, p, bound);
    var k :| 0 <= k < |fields[c].subFields| && fields[c].subFields[k] in all &&
      (|| fields[c].subFields[k] == p
       || (bound > 0 && IsComposite(all[fields[c].subFields[k]]) &&
           Reaches(all, all[fields[c].subFields[k]].subFields, p, bound - 1)));
    var ref := fields[c].subFields[k];
    assert ref in add;
    assert next[ref].subFields == all[ref].subFields;
    if ref != p {
      assert IsComposite(next[ref]);
    }
  }

  /**
   * A parent the next pass processes is processed by this pass's input too:
   * it was added by one of the input's composites, or is reached through one.
   */
  lemma ParentStillProcessed(fields: map<nat, Field>, all: map<nat, Field>, rank: map<nat, nat>, bound: nat,
                             remove: set<nat>, add: map<nat, Field>, next: map<nat, Field>, bound': nat,
                             p: nat, id: nat)
    requires KeyedById(fields) && KeyedById(all) && SameTypes(fields, all)
    requires AddSound(fields, all, fields.Keys, add)
    requires next == (fields - remove) + add
    requires bound' == if bound > 0 then bound - 1 else 0
    requires forall c :: c in next && IsComposite(next[c]) ==> c in add && c in rank && rank[c] < bound
    requires ListedBy(next, all, bound', p, id)
    ensures ListedBy(fields, all, bound, p, id)
  {
    if p in next && IsComposite(next[p]) && id in next[p].subFields {
      var q := add[p].parent.value;
      var k :| 0 <= k < |fields[q].subFields| && fields[q].subFields[k] == p;
      assert next[p].subFields == all[p].subFields;
      assert Reaches(all, fields[q].subFields, p, bound);
    } else {
      var c' :| c' in next && IsComposite(next[c']) && Reaches(all, next[c'].subFields, p, bound');
      var q := add[c'].parent.value;
      var k :| 0 <= k < |fields[q].subFields| && fields[q].subFields[k] == c';
      assert next[c'].subFields == all[c'].subFields;
      assert IsComposite(all[c']);
      assert bound == bound' + 1;
      assert Reaches(all, fields[q].subFields, p, bound);
    }
  }

  /** One id at a time: membership in the flattening is the same before and after a pass. */
  lemma FlatteningStep(fields: map<nat, Field>, all: map<nat, Field>, rank: map<nat, nat>, bound: nat,
                       remove: set<nat>, add: map<nat, Field>, next: map<nat, Field>, bound': nat, id: nat)
    requires KeyedById(fields) && KeyedById(all) && SameTypes(fields, all)
    requires remove == set c | c in fields.Keys && IsComposite(fields[c])
    requires AddSound(fields, all, fields.Keys, add)
    requires AddComplete(fields, all, fields.Keys, add)
    requires next == (fields - remove) + add
    requires bound' == if bound > 0 then bound - 1 else 0
    requires forall c :: c in next && IsComposite(next[c]) ==> c in add && c in rank && rank[c] < bound
    ensures InFlattening(next, all, bound', id) <==> InFlattening(fields, all, bound, id)
  {
    if InFlattening(next, all, bound', id) {
      if id in next && !IsComposite(next[id]) {
        if id in add {
          var p := add[id].parent.value;
          var k :| 0 <= k < |fields[p].subFields| && fields[p].subFields[k] == id;
          assert Reaches(all, fields[p].subFields, id, bound);
        }
      } else {
        var c' :| c' in next && IsComposite(next[c']) && Reaches(all, next[c'].subFields, id, bound');
        var p := add[c'].parent.value;
        var k :| 0 <= k < |fields[p].subFields| && fields[p].subFields[k] == c';
        assert next[c'].subFields == all[c'].subFields;
        assert bound > 0;
        assert Reaches(all, fields[p].subFields, id, bound);
      }
    }
    if InFlattening(fields, all, bound, id) {
      if id in fields && !IsComposite(fields[id]) {
        assert id in next;
      } else {
        var c :| c in fields && IsComposite(fields[c]) && Reaches(all, fields[c].subFields, id, bound);
        var k :| 0 <= k < |fields[c].subFields| && fields[c].subFields[k] in all &&
          (|| fields[c].subFields[k] == id
           || (bound > 0 && IsComposite(all[fields[c].subFields[k]]) &&
               Reaches(all, all[fields[c].subFields[k]].subFields, id, bound - 1)));
        var ref := fields[c].subFields[k];
        assert ref in add;
        if ref != id {
          assert next[ref].subFields == all[ref].subFields;
          assert IsComposite(next[ref]);
        }
      }
    }
  }
}
