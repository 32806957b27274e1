/**
 * The merge rules of `dfs` stated against JavaScript's object spread. An
 * element is seen as the object it is in the source: a map from field name to
 * value. A patch is the object holding only the keys it has. `{ ...a, ...b }`
 * is the map `a` overridden by `b`, and `{ ...a, k: v }` is `a` with `k` set
 * to `v`. Since an element has only the fields of its variant, the result of a
 * spread is read back restricted to those fields.
 */
module PatchSpread {
  import opened RequirementModel
  import opened PatchEngine

  /** The name of a field some variant has (the `elementType` tag aside). */
  datatype Key =
    | IdKey
    | ValueKey
    | PlaceholderKey
    | RequiredKey
    | OptionsKey
    | SelectedKey
    | IncludedKey
    | ContentKey
    | InstancesKey
    | ReferenceIdKey

  /** The value of one field of an element or a patch. */
  datatype FieldValue =
    | Str(s: string)
    | Flag(b: bool)
    | Options(options: seq<ChoiceOption>)
    | Content(content: seq<Element>)
    | Instances(instances: seq<Instance>)

  /** An element as a JavaScript object: each field of its variant under its name. */
  function FieldsOf(e: Element): map<Key, FieldValue> {
    match e
    case Text(id, value) => map[IdKey := Str(id), ValueKey := Str(value)]
    case Input(id, value, placeholder, required) =>
      map[IdKey := Str(id), ValueKey := Str(value), PlaceholderKey := Str(placeholder), RequiredKey := Flag(required)]
    case Choice(id, options, selected) => map[IdKey := Str(id), OptionsKey := Options(options), SelectedKey := Str(selected)]
    case Group(id, content) => map[IdKey := Str(id), ContentKey := Content(content)]
    case Optional(id, included, content) =>
      map[IdKey := Str(id), IncludedKey := Flag(included), ContentKey := Content(content)]
    case Repeatable(id, instances) => map[IdKey := Str(id), InstancesKey := Instances(instances)]
    case Reference(id, referenceId) => map[IdKey := Str(id), ReferenceIdKey := Str(referenceId)]
  }

  /** Two elements of one variant with the same fields are the same element. */
  lemma FieldsDetermineElement(a: Element, b: Element)
    requires a.Type() == b.Type() && FieldsOf(a) == FieldsOf(b)
    ensures a == b
  {
    assert FieldsOf(a)[IdKey] == FieldsOf(b)[IdKey];
    match a
    case Text(_, _) => assert FieldsOf(a)[ValueKey] == FieldsOf(b)[ValueKey];
    case Input(_, _, _, _) =>
      assert FieldsOf(a)[ValueKey] == FieldsOf(b)[ValueKey];
      assert FieldsOf(a)[PlaceholderKey] == FieldsOf(b)[PlaceholderKey];
      assert FieldsOf(a)[RequiredKey] == FieldsOf(b)[RequiredKey];
    case Choice(_, _, _) =>
      assert FieldsOf(a)[OptionsKey] == FieldsOf(b)[OptionsKey];
      assert FieldsOf(a)[SelectedKey] == FieldsOf(b)[SelectedKey];
    case Group(_, _) => assert FieldsOf(a)[ContentKey] == FieldsOf(b)[ContentKey];
    case Optional(_, _, _) =>
      assert FieldsOf(a)[IncludedKey] == FieldsOf(b)[IncludedKey];
      assert FieldsOf(a)[ContentKey] == FieldsOf(b)[ContentKey];
    case Repeatable(_, _) => assert FieldsOf(a)[InstancesKey] == FieldsOf(b)[InstancesKey];
    case Reference(_, _) => assert FieldsOf(a)[ReferenceIdKey] == FieldsOf(b)[ReferenceIdKey];
  }

  /** `patch[key]`: the patch's value for `key`, `None` when the patch object has no such key. */
  function PatchValue(p: Patch, key: Key): Option<FieldValue> {
    match key
    case IdKey => if p.id.Some? then Some(Str(p.id.value)) else None
    case ValueKey => if p.value.Some? then Some(Str(p.value.value)) else None
    case PlaceholderKey => if p.placeholder.Some? then Some(Str(p.placeholder.value)) else None
    case RequiredKey => if p.required.Some? then Some(Flag(p.required.value)) else None
    case OptionsKey => if p.options.Some? then Some(Options(p.options.value)) else None
    case SelectedKey => if p.selected.Some? then Some(Str(p.selected.value)) else None
    case IncludedKey => if p.included.Some? then Some(Flag(p.included.value)) else None
    case ContentKey => if p.content.Some? then Some(Content(p.content.value)) else None
    case InstancesKey => if p.instances.Some? then Some(Instances(p.instances.value)) else None
    case ReferenceIdKey => if p.referenceId.Some? then Some(Str(p.referenceId.value)) else None
  }

  /** A patch as a JavaScript object: exactly the keys it has, with their values. */
  function PatchFields(p: Patch): (r: map<Key, FieldValue>)
    ensures forall k :: k in r <==> PatchValue(p, k).Some?
    ensures forall k :: k in r ==> r[k] == PatchValue(p, k).value
  {
    map k: Key | PatchValue(p, k).Some? :: PatchValue(p, k).value
  }

  /** `{ ...own, ...patch }`: every key of either; where both have it, the patch's value. */
  function Spread(own: map<Key, FieldValue>, patch: map<Key, FieldValue>): (r: map<Key, FieldValue>)
    ensures r.Keys == own.Keys + patch.Keys
    ensures forall k :: k in r ==> r[k] == if k in patch then patch[k] else own[k]
  {
    own + patch
  }

  /** The fields of `m` that are among `keys`. */
  function Restrict(m: map<Key, FieldValue>, keys: set<Key>): (r: map<Key, FieldValue>)
    ensures r.Keys == m.Keys * keys
    ensures forall k :: k in r ==> r[k] == m[k]
  {
    map k | k in m.Keys * keys :: m[k]
  }

  /**
   * A matched element, as the spread of lines 24-47 builds it:
   * `{ ...field, ...updatedData }` for an input, a choice or a reference;
   * `{ ...field, content: dfs(field.content), ...updatedData }` for an
   * optional; `{ ...field, instances: ... }` for a repeatable, which takes
   * nothing else from the patch; a text or a group is returned as it is.
   */
  lemma MatchedIsSpread(e: Element, fieldId: string, patch: Patch, insidePatch: bool)
    requires e.id == fieldId
    ensures e.Input? || e.Choice? || e.Reference? ==>
              FieldsOf(Visit(e, fieldId, patch, insidePatch)) ==
              Restrict(Spread(FieldsOf(e), PatchFields(patch)), FieldsOf(e).Keys)
    ensures e.Optional? ==>
              FieldsOf(Visit(e, fieldId, patch, insidePatch)) ==
              Restrict(Spread(FieldsOf(e)[ContentKey := Content(Dfs(e.content, fieldId, patch, insidePatch))],
                              PatchFields(patch)),
                       FieldsOf(e).Keys)
    ensures e.Repeatable? && !insidePatch ==>
              FieldsOf(Visit(e, fieldId, patch, insidePatch)) ==
              FieldsOf(e)[InstancesKey := Instances(
                            if patch.instances.Some? then DfsInstances(patch.instances.value, fieldId, patch, true)
                            else DfsInstances(e.instances, fieldId, patch, false))]
    ensures e.Text? || e.Group? ==> Visit(e, fieldId, patch, insidePatch) == e
  {
    if e.Input? {
      InputIsSpread(e, fieldId, patch, insidePatch);
    } else if e.Choice? {
      ChoiceIsSpread(e, fieldId, patch, insidePatch);
    } else if e.Reference? {
      ReferenceIsSpread(e, fieldId, patch, insidePatch);
    } else if e.Optional? {
      OptionalIsSpread(e, fieldId, patch, insidePatch);
    } else if e.Repeatable? && !insidePatch {
      assert FieldsOf(Visit(e, fieldId, patch, insidePatch)).Keys == FieldsOf(e).Keys;
    }
  }

  lemma InputIsSpread(e: Element, fieldId: string, patch: Patch, insidePatch: bool)
    requires e.id == fieldId && e.Input?
    ensures FieldsOf(Visit(e, fieldId, patch, insidePatch)) ==
            Restrict(Spread(FieldsOf(e), PatchFields(patch)), FieldsOf(e).Keys)
  {
    InputFields(e, patch);
  }

  /** The fields of an input with the patch's values over its own are the restricted spread. */
  lemma InputFields(e: Element, patch: Patch)
    requires e.Input?
    ensures FieldsOf(Input(patch.id.GetOr(e.id), patch.value.GetOr(e.value), patch.placeholder.GetOr(e.placeholder),
                           patch.required.GetOr(e.required))) ==
            Restrict(Spread(FieldsOf(e), PatchFields(patch)), FieldsOf(e).Keys)
  {
    var spread := Restrict(Spread(FieldsOf(e), PatchFields(patch)), FieldsOf(e).Keys);
    var got := FieldsOf(Input(patch.id.GetOr(e.id), patch.value.GetOr(e.value), patch.placeholder.GetOr(e.placeholder),
                              patch.required.GetOr(e.required)));
    assert spread.Keys == got.Keys;
    forall k | k in got ensures spread[k] == got[k] {
      if k == IdKey {
      } else if k == ValueKey {
      } else if k == PlaceholderKey {
      } else {
        assert k == RequiredKey;
      }
    }
  }

  lemma ChoiceIsSpread(e: Element, fieldId: string, patch: Patch, insidePatch: bool)
    requires e.id == fieldId && e.Choice?
    ensures FieldsOf(Visit(e, fieldId, patch, insidePatch)) ==
            Restrict(Spread(FieldsOf(e), PatchFields(patch)), FieldsOf(e).Keys)
  {
    var spread := Restrict(Spread(FieldsOf(e), PatchFields(patch)), FieldsOf(e).Keys);
    var got := FieldsOf(Visit(e, fieldId, patch, insidePatch));
    assert spread.Keys == got.Keys;
    forall k | k in got ensures spread[k] == got[k] {
      if k == IdKey {
      } else if k == OptionsKey {
      } else {
        assert k == SelectedKey;
      }
    }
  }

  lemma ReferenceIsSpread(e: Element, fieldId: string, patch: Patch, insidePatch: bool)
    requires e.id == fieldId && e.Reference?
    ensures FieldsOf(Visit(e, fieldId, patch, insidePatch)) ==
            Restrict(Spread(FieldsOf(e), PatchFields(patch)), FieldsOf(e).Keys)
  {
    var spread := Restrict(Spread(FieldsOf(e), PatchFields(patch)), FieldsOf(e).Keys);
    var got := FieldsOf(Visit(e, fieldId, patch, insidePatch));
    assert spread.Keys == got.Keys;
    forall k | k in got ensures spread[k] == got[k] {
      if k == IdKey {
      } else {
        assert k == ReferenceIdKey;
      }
    }
  }

  lemma OptionalIsSpread(e: Element, fieldId: string, patch: Patch, insidePatch: bool)
    requires e.id == fieldId && e.Optional?
    ensures FieldsOf(Visit(e, fieldId, patch, insidePatch)) ==
            Restrict(Spread(FieldsOf(e)[ContentKey := Content(Dfs(e.content, fieldId, patch, insidePatch))],
                            PatchFields(patch)),
                     FieldsOf(e).Keys)
  {
    var walked := FieldsOf(e)[ContentKey := Content(Dfs(e.content, fieldId, patch, insidePatch))];
    var spread := Restrict(Spread(walked, PatchFields(patch)), FieldsOf(e).Keys);
    var got := FieldsOf(Visit(e, fieldId, patch, insidePatch));
    assert spread.Keys == got.Keys;
    forall k | k in got ensures spread[k] == got[k] {
      if k == IdKey {
      } else if k == IncludedKey {
      } else {
        assert k == ContentKey;
      }
    }
  }

  /**
   * An element without the target id, as lines 49-75 build it:
   * `{ ...field, content: dfs(field.content) }` for an optional,
   * `{ ...field, instances: field.instances.map(dfs) }` for a repeatable,
   * `{ ...field, options: ... }` for a choice; any other element is returned.
   */
  lemma UnmatchedIsSpread(e: Element, fieldId: string, patch: Patch, insidePatch: bool)
    requires e.id != fieldId
    ensures e.Optional? ==>
              FieldsOf(Visit(e, fieldId, patch, insidePatch)) ==
              FieldsOf(e)[ContentKey := Content(Dfs(e.content, fieldId, patch, insidePatch))]
    ensures e.Repeatable? ==>
              FieldsOf(Visit(e, fieldId, patch, insidePatch)) ==
              FieldsOf(e)[InstancesKey := Instances(DfsInstances(e.instances, fieldId, patch, insidePatch))]
    ensures e.Choice? ==>
              FieldsOf(Visit(e, fieldId, patch, insidePatch)) ==
              FieldsOf(e)[OptionsKey := Options(DfsOptions(e.options, fieldId, patch, insidePatch))]
    ensures !(e.Optional? || e.Repeatable? || e.Choice?) ==> Visit(e, fieldId, patch, insidePatch) == e
  {
  }

  /** A matched choice's options are not searched: the patch's options if it has them, else its own as they were. */
  lemma MatchedChoiceNotSearched(e: Element, fieldId: string, patch: Patch, insidePatch: bool)
    requires e.Choice? && e.id == fieldId
    ensures Visit(e, fieldId, patch, insidePatch).options == if OptionsKey in PatchFields(patch)
                                                              then PatchFields(patch)[OptionsKey].options
                                                              else e.options
  {
    MatchedIsSpread(e, fieldId, patch, insidePatch);
    var r := Visit(e, fieldId, patch, insidePatch);
    assert FieldsOf(r)[OptionsKey] == Options(r.options);
  }
}
