/**
 * What the patch engine promises: a target id that the walk never meets
 * leaves the tree as it was; a patch without structural fields leaves the
 * shape of the tree (every length, at every level) unchanged; and applying the
 * same patch twice is the same as applying it once, as long as the patch does
 * not rename the element.
 */
module PatchEngineProperties {
  import opened RequirementModel
  import opened PatchEngine

  /* ---------- the ids the walk compares with the target ---------- */

  /** Some element that `dfs` visits in `elements` has the id `fieldId`. */
  ghost predicate Mentions(elements: seq<Element>, fieldId: string)
    decreases elements
  {
    exists i :: 0 <= i < |elements| && ElementMentions(elements[i], fieldId)
  }

  ghost predicate ElementMentions(e: Element, fieldId: string)
    decreases e
  {
    e.id == fieldId ||
    match e
    case Optional(_, _, content) => Mentions(content, fieldId)
    case Repeatable(_, instances) =>
      exists k :: 0 <= k < |instances| && Mentions(instances[k].elements, fieldId)
    case Choice(_, options, _) =>
      exists k :: 0 <= k < |options| && OptionMentions(options[k], fieldId)
    case _ => false
  }

  ghost predicate OptionMentions(option: ChoiceOption, fieldId: string)
    decreases option
  {
    match option
    case Nested(Group(_, content)) => Mentions(content, fieldId)
    case _ => false
  }

  /* ---------- a missing id changes nothing ---------- */

  lemma {:induction false} NoMatchIdentity(elements: seq<Element>, fieldId: string, patch: Patch, insidePatch: bool)
    requires !Mentions(elements, fieldId)
    ensures Dfs(elements, fieldId, patch, insidePatch) == elements
    decreases elements
  {
    forall i | 0 <= i < |elements|
      ensures Visit(elements[i], fieldId, patch, insidePatch) == elements[i]
    {
      NoMatchVisit(elements[i], fieldId, patch, insidePatch);
    }
  }

  lemma {:induction false} NoMatchVisit(e: Element, fieldId: string, patch: Patch, insidePatch: bool)
    requires !ElementMentions(e, fieldId)
    ensures Visit(e, fieldId, patch, insidePatch) == e
    decreases e
  {
    match e
    case Optional(_, _, content) =>
      NoMatchIdentity(content, fieldId, patch, insidePatch);
    case Repeatable(id, instances) =>
      forall k | 0 <= k < |instances|
        ensures DfsInstance(instances[k], fieldId, patch, insidePatch) == instances[k]
      {
        NoMatchIdentity(instances[k].elements, fieldId, patch, insidePatch);
      }
      assert DfsInstances(instances, fieldId, patch, insidePatch) == instances;
    case Choice(id, options, selected) =>
      forall k | 0 <= k < |options|
        ensures DfsOption(options[k], fieldId, patch, insidePatch) == options[k]
      {
        match options[k]
        case Nested(Group(_, content)) => NoMatchIdentity(content, fieldId, patch, insidePatch);
        case _ =>
      }
      assert DfsOptions(options, fieldId, patch, insidePatch) == options;
    case _ =>
  }

  /** `updateRequirementContent` with an id that no visited element has returns its input. */
  lemma UpdateContentNoMatch(content: seq<Element>, fieldId: string, patch: Patch)
    requires !Mentions(content, fieldId)
    ensures UpdateContent(content, fieldId, patch) == content
  {
    NoMatchIdentity(content, fieldId, patch, false);
  }

  /* ---------- shape: lengths at every level ---------- */

  /** `a` and `b` have the same variants at the same places and the same lengths at every level. */
  ghost predicate SameShape(a: seq<Element>, b: seq<Element>)
    decreases a
  {
    |a| == |b| && forall i :: 0 <= i < |a| ==> SameElementShape(a[i], b[i])
  }

  ghost predicate SameElementShape(x: Element, y: Element)
    decreases x
  {
    x.Type() == y.Type() &&
    match x
    case Optional(_, _, content) => SameShape(content, y.content)
    case Group(_, content) => SameShape(content, y.content)
    case Repeatable(_, instances) =>
      |instances| == |y.instances| &&
      forall k :: 0 <= k < |instances| ==> SameShape(instances[k].elements, y.instances[k].elements)
    case Choice(_, options, _) =>
      |options| == |y.options| &&
      forall k :: 0 <= k < |options| ==> SameOptionShape(options[k], y.options[k])
    case _ => true
  }

  ghost predicate SameOptionShape(o: ChoiceOption, p: ChoiceOption)
    decreases o
  {
    o.Plain? == p.Plain? && (o.Nested? ==> SameElementShape(o.element, p.element))
  }

  lemma {:induction false} SameShapeReflexive(a: seq<Element>)
    ensures SameShape(a, a)
    decreases a
  {
    forall i | 0 <= i < |a| ensures SameElementShape(a[i], a[i]) {
      SameElementShapeReflexive(a[i]);
    }
  }

  lemma {:induction false} SameElementShapeReflexive(x: Element)
    ensures SameElementShape(x, x)
    decreases x
  {
    match x
    case Optional(_, _, content) => SameShapeReflexive(content);
    case Group(_, content) => SameShapeReflexive(content);
    case Repeatable(_, instances) =>
      forall k | 0 <= k < |instances| ensures SameShape(instances[k].elements, instances[k].elements) {
        SameShapeReflexive(instances[k].elements);
      }
    case Choice(_, options, _) =>
      forall k | 0 <= k < |options| ensures SameOptionShape(options[k], options[k]) {
        if options[k].Nested? { SameElementShapeReflexive(options[k].element); }
      }
    case _ =>
  }

  /** The patch replaces no nested structure: no `content`, `instances` or `options`. */
  predicate NonStructural(patch: Patch) {
    patch.content.None? && patch.instances.None? && patch.options.None?
  }

  /**
   * A patch that supplies no nested structure preserves every sequence length
   * at every level, every variant, and the number of instances of every repeatable.
   */
  lemma {:induction false} ShapePreserved(elements: seq<Element>, fieldId: string, patch: Patch, insidePatch: bool)
    requires NonStructural(patch)
    ensures SameShape(Dfs(elements, fieldId, patch, insidePatch), elements)
    decreases elements
  {
    var r := Dfs(elements, fieldId, patch, insidePatch);
    forall i | 0 <= i < |elements| ensures SameElementShape(r[i], elements[i]) {
      VisitShapePreserved(elements[i], fieldId, patch, insidePatch);
    }
  }

  lemma {:induction false} VisitShapePreserved(e: Element, fieldId: string, patch: Patch, insidePatch: bool)
    requires NonStructural(patch)
    ensures SameElementShape(Visit(e, fieldId, patch, insidePatch), e)
    decreases e
  {
    var r := Visit(e, fieldId, patch, insidePatch);
    match e
    case Optional(_, _, content) =>
      ShapePreserved(content, fieldId, patch, insidePatch);
    case Group(_, content) =>
      SameShapeReflexive(content);
    case Repeatable(_, instances) =>
      assert r.instances == DfsInstances(instances, fieldId, patch, insidePatch);
      forall k | 0 <= k < |instances| ensures SameShape(r.instances[k].elements, instances[k].elements) {
        assert r.instances[k] == DfsInstance(instances[k], fieldId, patch, insidePatch);
        ShapePreserved(instances[k].elements, fieldId, patch, insidePatch);
      }
    case Choice(_, options, _) =>
      if e.id == fieldId {
        SameElementShapeReflexive(e);
      } else {
        assert r.options == DfsOptions(options, fieldId, patch, insidePatch);
        forall k | 0 <= k < |options| ensures SameOptionShape(r.options[k], options[k]) {
          assert r.options[k] == DfsOption(options[k], fieldId, patch, insidePatch);
          match options[k]
          case Nested(Group(gid, content)) =>
            ShapePreserved(content, fieldId, patch, insidePatch);
            assert r.options[k] == Nested(Group(gid, Dfs(content, fieldId, patch, insidePatch)));
          case Nested(other) =>
            SameElementShapeReflexive(other);
          case Plain(_) =>
        }
      }
    case _ =>
  }

  /* ---------- applying the same patch twice ---------- */

  /** The patch leaves the matched element's id as it is. */
  predicate KeepsId(patch: Patch, fieldId: string) {
    patch.id.None? || patch.id == Some(fieldId)
  }

  lemma {:induction false} DfsIdempotent(elements: seq<Element>, fieldId: string, patch: Patch, insidePatch: bool)
    requires KeepsId(patch, fieldId)
    ensures Dfs(Dfs(elements, fieldId, patch, insidePatch), fieldId, patch, insidePatch)
            == Dfs(elements, fieldId, patch, insidePatch)
    decreases elements
  {
    forall i | 0 <= i < |elements|
      ensures Visit(Visit(elements[i], fieldId, patch, insidePatch), fieldId, patch, insidePatch)
              == Visit(elements[i], fieldId, patch, insidePatch)
    {
      VisitIdempotent(elements[i], fieldId, patch, insidePatch);
    }
  }

  lemma {:induction false} VisitIdempotent(e: Element, fieldId: string, patch: Patch, insidePatch: bool)
    requires KeepsId(patch, fieldId)
    ensures Visit(Visit(e, fieldId, patch, insidePatch), fieldId, patch, insidePatch)
            == Visit(e, fieldId, patch, insidePatch)
    decreases e
  {
    match e
    case Optional(_, _, content) =>
      if e.id != fieldId || patch.content.None? {
        DfsIdempotent(content, fieldId, patch, insidePatch);
      }
    case Repeatable(_, instances) =>
      if e.id != fieldId || patch.instances.None? || insidePatch {
        InstancesIdempotent(instances, fieldId, patch, insidePatch);
      }
    case Choice(_, options, _) =>
      if e.id != fieldId {
        forall k | 0 <= k < |options|
          ensures DfsOption(DfsOption(options[k], fieldId, patch, insidePatch), fieldId, patch, insidePatch)
                  == DfsOption(options[k], fieldId, patch, insidePatch)
        {
          match options[k]
          case Nested(Group(_, content)) => DfsIdempotent(content, fieldId, patch, insidePatch);
          case _ =>
        }
      }
    case _ =>
  }

  lemma {:induction false} InstancesIdempotent(instances: seq<Instance>, fieldId: string, patch: Patch, insidePatch: bool)
    requires KeepsId(patch, fieldId)
    ensures DfsInstances(DfsInstances(instances, fieldId, patch, insidePatch), fieldId, patch, insidePatch)
            == DfsInstances(instances, fieldId, patch, insidePatch)
    decreases instances
  {
    forall k | 0 <= k < |instances|
      ensures DfsInstance(DfsInstance(instances[k], fieldId, patch, insidePatch), fieldId, patch, insidePatch)
              == DfsInstance(instances[k], fieldId, patch, insidePatch)
    {
      DfsIdempotent(instances[k].elements, fieldId, patch, insidePatch);
    }
  }

  /** `updateRequirementContent` applied twice with the same id and patch gives the result of applying it once. */
  lemma UpdateContentIdempotent(content: seq<Element>, fieldId: string, patch: Patch)
    requires KeepsId(patch, fieldId)
    ensures UpdateContent(UpdateContent(content, fieldId, patch), fieldId, patch) == UpdateContent(content, fieldId, patch)
  {
    DfsIdempotent(content, fieldId, patch, false);
  }

  /**
   * Without KeepsId the second application can differ: an optional renamed by
   * the patch is no longer matched the second time, so the content the patch
   * supplied is then walked and patched.
   */
  lemma RenamingPatchNotIdempotent()
    ensures var content := [Optional("o", false, [])];
            var patch := EmptyPatch().(id := Some("p"), value := Some("x"), content := Some([Input("o", "", "", false)]));
            UpdateContent(UpdateContent(content, "o", patch), "o", patch) != UpdateContent(content, "o", patch)
  {
    var content := [Optional("o", false, [])];
    var patch := EmptyPatch().(id := Some("p"), value := Some("x"), content := Some([Input("o", "", "", false)]));
    var once := UpdateContent(content, "o", patch);
    assert once[0] == Visit(content[0], "o", patch, false);
    assert once[0] == Optional("p", false, [Input("o", "", "", false)]);
    var twice := UpdateContent(once, "o", patch);
    assert twice[0] == Visit(once[0], "o", patch, false);
    var inner := Dfs([Input("o", "", "", false)], "o", patch, false);
    assert inner[0] == Visit(Input("o", "", "", false), "o", patch, false);
    assert twice[0].content == inner;
    assert twice[0].content[0] == Input("p", "x", "", false);
  }

  /* ---------- an include-then-fill scenario ---------- */

  /**
   * Including an optional keeps the input nested in it; then filling that
   * input keeps the optional included.
   */
  lemma IncludeThenFill()
    ensures var initial := [Optional("opt1", false, [Input("in1", "", "", false)])];
            var first := UpdateContent(initial, "opt1", EmptyPatch().(included := Some(true)));
            var second := UpdateContent(first, "in1", EmptyPatch().(value := Some("hello")));
            first == [Optional("opt1", true, [Input("in1", "", "", false)])] &&
            second == [Optional("opt1", true, [Input("in1", "hello", "", false)])]
  {
    var input := Input("in1", "", "", false);
    var includePatch := EmptyPatch().(included := Some(true));
    var fill := EmptyPatch().(value := Some("hello"));
    var initial := [Optional("opt1", false, [input])];
    var first := UpdateContent(initial, "opt1", includePatch);
    NoMatchIdentity([input], "opt1", includePatch, false);
    assert first[0] == Visit(initial[0], "opt1", includePatch, false);
    assert first == [Optional("opt1", true, [input])];
    var second := UpdateContent(first, "in1", fill);
    assert second[0] == Visit(first[0], "in1", fill, false);
    var inner := Dfs([input], "in1", fill, false);
    assert inner[0] == Visit(input, "in1", fill, false);
    assert inner == [Input("in1", "hello", "", false)];
    assert second == [Optional("opt1", true, [Input("in1", "hello", "", false)])];
  }

  /** Two instances of a repeatable that both hold the target id are both patched. */
  lemma DuplicateIdsAcrossInstances()
    ensures var content := [Repeatable("rep", [Instance([Input("a", "", "", false)]), Instance([Input("a", "", "", false)])])];
            UpdateContent(content, "a", EmptyPatch().(value := Some("X")))
            == [Repeatable("rep", [Instance([Input("a", "X", "", false)]), Instance([Input("a", "X", "", false)])])]
  {
    var input := Input("a", "", "", false);
    var instance := Instance([input]);
    var patch := EmptyPatch().(value := Some("X"));
    var inner := Dfs([input], "a", patch, false);
    assert inner[0] == Visit(input, "a", patch, false);
    assert DfsInstance(instance, "a", patch, false) == Instance([Input("a", "X", "", false)]);
    var instances := DfsInstances([instance, instance], "a", patch, false);
    assert instances == [Instance([Input("a", "X", "", false)]), Instance([Input("a", "X", "", false)])];
    var content := [Repeatable("rep", [instance, instance])];
    assert UpdateContent(content, "a", patch)[0] == Visit(content[0], "a", patch, false);
  }
}
