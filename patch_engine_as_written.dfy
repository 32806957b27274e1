/**
 * The source's `dfs` exactly as written, run with a fuel bound so that it can
 * be stated at all. The one recursive call that is not on a smaller part of
 * the tree is the walk of a matched repeatable's instances when the patch
 * supplies them (src/hooks/useRequirementData.ts:39-40): those instances come
 * from the patch, not from the tree. Each such call costs one unit of fuel, and
 * `None` means the fuel ran out.
 *
 * Proved below: the source recurses without bound when those patch instances
 * themselves lead the walk to a repeatable with the target id (the walk then
 * re-enters the same patch instances again and again, until JavaScript's call
 * stack overflows with a RangeError); it finishes otherwise, and whenever it
 * finishes its result is PatchEngine's.
 */
module PatchEngineAsWritten {
  import opened RequirementModel
  import PatchEngine

  /** The results of a `map` whose every callback returned; `None` if one did not. */
  function AllSome<T>(s: seq<Option<T>>): (r: Option<seq<T>>)
    ensures r.Some? <==> forall i :: 0 <= i < |s| ==> s[i].Some?
    ensures r.Some? ==> |r.value| == |s| && forall i :: 0 <= i < |s| ==> r.value[i] == s[i].value
  {
    if s == [] then Some([])
    else
      match (s[0], AllSome(s[1..]))
      case (Some(x), Some(xs)) => Some([x] + xs)
      case _ => None
  }

  /** `dfs(elements)` with `fuel` walks into patch-supplied instances left. */
  function Run(fuel: nat, elements: seq<Element>, fieldId: string, patch: Patch): (r: Option<seq<Element>>)
    ensures r.Some? ==> |r.value| == |elements|
    ensures r.Some? ==> forall i :: 0 <= i < |elements| ==> r.value[i].Type() == elements[i].Type()
    decreases fuel, elements, 1
  {
    AllSome(RunEach(fuel, elements, fieldId, patch))
  }

  /** The callback of `elements.map` applied to each element. */
  function RunEach(fuel: nat, elements: seq<Element>, fieldId: string, patch: Patch): (r: seq<Option<Element>>)
    ensures |r| == |elements| && forall i :: 0 <= i < |elements| ==> r[i] == RunVisit(fuel, elements[i], fieldId, patch)
    decreases fuel, elements, 0
  {
    seq(|elements|, i requires 0 <= i < |elements| => RunVisit(fuel, elements[i], fieldId, patch))
  }

  /** The callback of `elements.map` in `dfs`, as written: one element rebuilt, if the walk finishes. */
  function RunVisit(fuel: nat, e: Element, fieldId: string, patch: Patch): (r: Option<Element>)
    ensures r.Some? ==> r.value.Type() == e.Type()
    ensures r.Some? && e.id != fieldId ==> r.value.id == e.id
    decreases fuel, e, 0
  {
    if e.id == fieldId then
      match e
      case Optional(id, included, content) =>
        // `dfs(field.content)` is evaluated before the patch's own `content` overrides it
        var walked :- Run(fuel, content, fieldId, patch);
        Some(Optional(patch.id.GetOr(id), patch.included.GetOr(included), patch.content.GetOr(walked)))
      case Repeatable(id, instances) =>
        if patch.instances.Some? then
          if fuel == 0 then None
          else
            var walked :- RunInstances(fuel - 1, patch.instances.value, fieldId, patch);
            Some(Repeatable(id, walked))
        else
          var walked :- RunInstances(fuel, instances, fieldId, patch);
          Some(Repeatable(id, walked))
      case _ =>
        // input, choice and reference are merged, text and group returned: none of them is walked into
        Some(PatchEngine.Visit(e, fieldId, patch, false))
    else
      match e
      case Optional(id, included, content) =>
        var walked :- Run(fuel, content, fieldId, patch);
        Some(Optional(id, included, walked))
      case Repeatable(id, instances) =>
        var walked :- RunInstances(fuel, instances, fieldId, patch);
        Some(Repeatable(id, walked))
      case Choice(id, options, selected) =>
        var walked :- RunOptions(fuel, options, fieldId, patch);
        Some(Choice(id, walked, selected))
      case _ => Some(e)
  }

  /** `instances.map(dfs)`, as written. */
  function RunInstances(fuel: nat, instances: seq<Instance>, fieldId: string, patch: Patch): (r: Option<seq<Instance>>)
    ensures r.Some? ==> |r.value| == |instances|
    decreases fuel, instances, 1
  {
    AllSome(RunEachInstance(fuel, instances, fieldId, patch))
  }

  function RunEachInstance(fuel: nat, instances: seq<Instance>, fieldId: string, patch: Patch): (r: seq<Option<Instance>>)
    ensures |r| == |instances| && forall k :: 0 <= k < |instances| ==> r[k] == RunInstance(fuel, instances[k], fieldId, patch)
    decreases fuel, instances, 0
  {
    seq(|instances|, k requires 0 <= k < |instances| => RunInstance(fuel, instances[k], fieldId, patch))
  }

  function RunInstance(fuel: nat, instance: Instance, fieldId: string, patch: Patch): (r: Option<Instance>)
    ensures r.Some? ==> |r.value.elements| == |instance.elements|
    decreases fuel, instance, 0
  {
    var walked :- Run(fuel, instance.elements, fieldId, patch);
    Some(Instance(walked))
  }

  /** `field.options.map(...)`, as written. */
  function RunOptions(fuel: nat, options: seq<ChoiceOption>, fieldId: string, patch: Patch): (r: Option<seq<ChoiceOption>>)
    ensures r.Some? ==> |r.value| == |options|
    decreases fuel, options, 1
  {
    AllSome(RunEachOption(fuel, options, fieldId, patch))
  }

  function RunEachOption(fuel: nat, options: seq<ChoiceOption>, fieldId: string, patch: Patch): (r: seq<Option<ChoiceOption>>)
    ensures |r| == |options| && forall k :: 0 <= k < |options| ==> r[k] == RunOption(fuel, options[k], fieldId, patch)
    decreases fuel, options, 0
  {
    seq(|options|, k requires 0 <= k < |options| => RunOption(fuel, options[k], fieldId, patch))
  }

  /** The callback of `options.map`: a group option's content walked, any other option kept. */
  function RunOption(fuel: nat, option: ChoiceOption, fieldId: string, patch: Patch): (r: Option<ChoiceOption>)
    ensures r.Some? ==> r.value.Plain? == option.Plain?
    ensures !(option.Nested? && option.element.Group?) ==> r == Some(option)
    decreases fuel, option, 0
  {
    match option
    case Nested(Group(id, content)) =>
      var walked :- Run(fuel, content, fieldId, patch);
      Some(Nested(Group(id, walked)))
    case _ => Some(option)
  }

  /* ---------- when the walk re-enters the patch's instances ---------- */

  /** The walk of `elements` meets a repeatable with the target id. */
  ghost predicate Reaches(elements: seq<Element>, fieldId: string)
    decreases elements
  {
    exists i :: 0 <= i < |elements| && ElementReaches(elements[i], fieldId)
  }

  ghost predicate ElementReaches(e: Element, fieldId: string)
    decreases e
  {
    match e
    case Repeatable(id, instances) =>
      id == fieldId || exists k :: 0 <= k < |instances| && Reaches(instances[k].elements, fieldId)
    case Optional(_, _, content) => Reaches(content, fieldId)
    case Choice(id, options, _) =>
      id != fieldId && exists k :: 0 <= k < |options| && OptionReaches(options[k], fieldId)
    case _ => false
  }

  ghost predicate OptionReaches(option: ChoiceOption, fieldId: string)
    decreases option
  {
    match option
    case Nested(Group(_, content)) => Reaches(content, fieldId)
    case _ => false
  }

  /** The patch supplies instances whose own walk meets a repeatable with the target id. */
  ghost predicate PatchReenters(fieldId: string, patch: Patch) {
    patch.instances.Some? &&
    exists k :: 0 <= k < |patch.instances.value| && Reaches(patch.instances.value[k].elements, fieldId)
  }

  /** Once the walk of the patch's instances cannot finish, no walk that meets a matched repeatable can. */
  lemma {:induction false} RunStuck(fuel: nat, elements: seq<Element>, fieldId: string, patch: Patch)
    requires patch.instances.Some?
    requires fuel == 0 || RunInstances(fuel - 1, patch.instances.value, fieldId, patch).None?
    requires Reaches(elements, fieldId)
    ensures Run(fuel, elements, fieldId, patch).None?
    decreases elements
  {
    var i :| 0 <= i < |elements| && ElementReaches(elements[i], fieldId);
    RunVisitStuck(fuel, elements[i], fieldId, patch);
  }

  lemma {:induction false} RunVisitStuck(fuel: nat, e: Element, fieldId: string, patch: Patch)
    requires patch.instances.Some?
    requires fuel == 0 || RunInstances(fuel - 1, patch.instances.value, fieldId, patch).None?
    requires ElementReaches(e, fieldId)
    ensures RunVisit(fuel, e, fieldId, patch).None?
    decreases e
  {
    match e
    case Repeatable(id, instances) =>
      if id != fieldId {
        var k :| 0 <= k < |instances| && Reaches(instances[k].elements, fieldId);
        RunStuck(fuel, instances[k].elements, fieldId, patch);
        assert RunInstance(fuel, instances[k], fieldId, patch).None?;
      }
    case Optional(_, _, content) =>
      RunStuck(fuel, content, fieldId, patch);
    case Choice(_, options, _) =>
      var k :| 0 <= k < |options| && OptionReaches(options[k], fieldId);
      match options[k]
      case Nested(Group(_, content)) =>
        RunStuck(fuel, content, fieldId, patch);
        assert RunOption(fuel, options[k], fieldId, patch).None?;
  }

  /** A re-entering patch's instances are never walked to the end, whatever the fuel. */
  lemma {:induction false} PatchInstancesNeverFinish(fuel: nat, fieldId: string, patch: Patch)
    requires PatchReenters(fieldId, patch)
    ensures RunInstances(fuel, patch.instances.value, fieldId, patch).None?
    decreases fuel
  {
    if fuel == 0 {
      PatchInstancesStuck(0, fieldId, patch);
    } else {
      PatchInstancesNeverFinish(fuel - 1, fieldId, patch);
      PatchInstancesStuck(fuel, fieldId, patch);
    }
  }

  /** One step of the above: if the patch's instances cannot be walked with one unit less, they cannot be walked now. */
  lemma PatchInstancesStuck(fuel: nat, fieldId: string, patch: Patch)
    requires PatchReenters(fieldId, patch)
    requires fuel == 0 || RunInstances(fuel - 1, patch.instances.value, fieldId, patch).None?
    ensures RunInstances(fuel, patch.instances.value, fieldId, patch).None?
  {
    var instances := patch.instances.value;
    var k :| 0 <= k < |instances| && Reaches(instances[k].elements, fieldId);
    RunStuck(fuel, instances[k].elements, fieldId, patch);
    assert RunInstance(fuel, instances[k], fieldId, patch).None?;
    assert RunEachInstance(fuel, instances, fieldId, patch)[k].None?;
  }

  /** The source's `dfs` does not finish when it meets a matched repeatable whose patch instances re-enter. */
  lemma SourceDiverges(fuel: nat, elements: seq<Element>, fieldId: string, patch: Patch)
    requires Reaches(elements, fieldId) && PatchReenters(fieldId, patch)
    ensures Run(fuel, elements, fieldId, patch).None?
  {
    if fuel == 0 {
      RunStuck(0, elements, fieldId, patch);
    } else {
      PatchInstancesNeverFinish(fuel - 1, fieldId, patch);
      RunStuck(fuel, elements, fieldId, patch);
    }
  }

  /**
   * The smallest such input: a repeatable "r" patched with instances that hold
   * another repeatable "r". The source recurses without end; PatchEngine
   * stores the patch's instance as given.
   */
  lemma SelfContainingPatchDiverges(fuel: nat)
    ensures var inner := Repeatable("r", []);
            var patch := EmptyPatch().(instances := Some([Instance([inner])]));
            Run(fuel, [inner], "r", patch).None? &&
            PatchEngine.UpdateContent([inner], "r", patch) == [Repeatable("r", [Instance([inner])])]
  {
    var inner := Repeatable("r", []);
    var patch := EmptyPatch().(instances := Some([Instance([inner])]));
    assert ElementReaches([inner][0], "r");
    assert Reaches([inner], "r");
    assert Reaches(patch.instances.value[0].elements, "r");
    SourceDiverges(fuel, [inner], "r", patch);
    var walked := PatchEngine.Dfs([inner], "r", patch, true);
    assert walked[0] == PatchEngine.Visit(inner, "r", patch, true);
    assert walked == [inner];
    assert PatchEngine.DfsInstances(patch.instances.value, "r", patch, true) == [Instance([inner])];
    assert PatchEngine.UpdateContent([inner], "r", patch)[0] == PatchEngine.Visit(inner, "r", patch, false);
  }

  /* ---------- where the source finishes, it agrees with PatchEngine ---------- */

  /** The walk of `elements` finishes: it never needs the patch's instances twice on one path. */
  lemma {:induction false} RunFinishes(fuel: nat, elements: seq<Element>, fieldId: string, patch: Patch)
    requires !Reaches(elements, fieldId) || patch.instances.None? || (fuel >= 1 && !PatchReenters(fieldId, patch))
    ensures Run(fuel, elements, fieldId, patch).Some?
    decreases fuel, elements
  {
    forall i | 0 <= i < |elements| ensures RunVisit(fuel, elements[i], fieldId, patch).Some? {
      RunVisitFinishes(fuel, elements[i], fieldId, patch);
    }
  }

  lemma {:induction false} RunVisitFinishes(fuel: nat, e: Element, fieldId: string, patch: Patch)
    requires !ElementReaches(e, fieldId) || patch.instances.None? || (fuel >= 1 && !PatchReenters(fieldId, patch))
    ensures RunVisit(fuel, e, fieldId, patch).Some?
    decreases fuel, e
  {
    match e
    case Optional(_, _, content) =>
      RunFinishes(fuel, content, fieldId, patch);
    case Repeatable(id, instances) =>
      if id == fieldId && patch.instances.Some? {
        var supplied := patch.instances.value;
        forall k | 0 <= k < |supplied| ensures RunInstance(fuel - 1, supplied[k], fieldId, patch).Some? {
          RunFinishes(fuel - 1, supplied[k].elements, fieldId, patch);
        }
      } else {
        forall k | 0 <= k < |instances| ensures RunInstance(fuel, instances[k], fieldId, patch).Some? {
          RunFinishes(fuel, instances[k].elements, fieldId, patch);
        }
      }
    case Choice(id, options, _) =>
      if id != fieldId {
        forall k | 0 <= k < |options| ensures RunOption(fuel, options[k], fieldId, patch).Some? {
          match options[k]
          case Nested(Group(_, content)) => RunFinishes(fuel, content, fieldId, patch);
          case _ =>
        }
      }
    case _ =>
  }

  /** Inside patch-supplied instances (`insidePatch`) the walk never meets a matched repeatable. */
  ghost predicate InsideOk(elements: seq<Element>, fieldId: string, patch: Patch, insidePatch: bool) {
    insidePatch ==> patch.instances.None? || !Reaches(elements, fieldId)
  }

  lemma {:induction false} RunAgrees(fuel: nat, elements: seq<Element>, fieldId: string, patch: Patch, insidePatch: bool)
    requires InsideOk(elements, fieldId, patch, insidePatch)
    ensures Run(fuel, elements, fieldId, patch).Some? ==>
              Run(fuel, elements, fieldId, patch).value == PatchEngine.Dfs(elements, fieldId, patch, insidePatch)
    decreases fuel, elements
  {
    var r := Run(fuel, elements, fieldId, patch);
    if r.Some? {
      forall i | 0 <= i < |elements|
        ensures r.value[i] == PatchEngine.Visit(elements[i], fieldId, patch, insidePatch)
      {
        assert RunVisit(fuel, elements[i], fieldId, patch).Some?;
        RunVisitAgrees(fuel, elements[i], fieldId, patch, insidePatch);
      }
    }
  }

  lemma {:induction false} InstancesAgree(fuel: nat, instances: seq<Instance>, fieldId: string, patch: Patch, insidePatch: bool)
    requires insidePatch ==> patch.instances.None? || forall k :: 0 <= k < |instances| ==> !Reaches(instances[k].elements, fieldId)
    ensures RunInstances(fuel, instances, fieldId, patch).Some? ==>
              RunInstances(fuel, instances, fieldId, patch).value == PatchEngine.DfsInstances(instances, fieldId, patch, insidePatch)
    decreases fuel, instances
  {
    var r := RunInstances(fuel, instances, fieldId, patch);
    if r.Some? {
      forall k | 0 <= k < |instances|
        ensures r.value[k] == PatchEngine.DfsInstance(instances[k], fieldId, patch, insidePatch)
      {
        assert RunInstance(fuel, instances[k], fieldId, patch).Some?;
        RunAgrees(fuel, instances[k].elements, fieldId, patch, insidePatch);
      }
    }
  }

  lemma {:induction false} RunVisitAgrees(fuel: nat, e: Element, fieldId: string, patch: Patch, insidePatch: bool)
    requires insidePatch ==> patch.instances.None? || !ElementReaches(e, fieldId)
    ensures RunVisit(fuel, e, fieldId, patch).Some? ==>
              RunVisit(fuel, e, fieldId, patch).value == PatchEngine.Visit(e, fieldId, patch, insidePatch)
    decreases fuel, e, 1
  {
    if RunVisit(fuel, e, fieldId, patch).Some? {
      match e
      case Optional(_, _, content) =>
        RunAgrees(fuel, content, fieldId, patch, insidePatch);
      case Repeatable(_, _) =>
        RepeatableAgrees(fuel, e, fieldId, patch, insidePatch);
      case Choice(_, _, _) =>
        ChoiceAgrees(fuel, e, fieldId, patch, insidePatch);
      case _ =>
    }
  }

  /** RunVisitAgrees for a repeatable. */
  lemma {:induction false} RepeatableAgrees(fuel: nat, e: Element, fieldId: string, patch: Patch, insidePatch: bool)
    requires e.Repeatable? && RunVisit(fuel, e, fieldId, patch).Some?
    requires insidePatch ==> patch.instances.None? || !ElementReaches(e, fieldId)
    ensures RunVisit(fuel, e, fieldId, patch).value == PatchEngine.Visit(e, fieldId, patch, insidePatch)
    decreases fuel, e, 0
  {
    if e.id == fieldId && patch.instances.Some? {
      if insidePatch {
        assert false;
      }
      if PatchReenters(fieldId, patch) {
        PatchInstancesNeverFinish(fuel - 1, fieldId, patch);
      }
      InstancesAgree(fuel - 1, patch.instances.value, fieldId, patch, true);
    } else {
      InstancesAgree(fuel, e.instances, fieldId, patch, insidePatch);
    }
  }

  /** RunVisitAgrees for a choice. */
  lemma {:induction false} ChoiceAgrees(fuel: nat, e: Element, fieldId: string, patch: Patch, insidePatch: bool)
    requires e.Choice? && RunVisit(fuel, e, fieldId, patch).Some?
    requires insidePatch ==> patch.instances.None? || !ElementReaches(e, fieldId)
    ensures RunVisit(fuel, e, fieldId, patch).value == PatchEngine.Visit(e, fieldId, patch, insidePatch)
    decreases fuel, e, 0
  {
    if e.id != fieldId {
      var walked := RunOptions(fuel, e.options, fieldId, patch);
      assert walked.Some?;
      forall k | 0 <= k < |e.options|
        ensures walked.value[k] == PatchEngine.DfsOption(e.options[k], fieldId, patch, insidePatch)
      {
        assert RunOption(fuel, e.options[k], fieldId, patch).Some?;
        match e.options[k]
        case Nested(Group(_, content)) => RunAgrees(fuel, content, fieldId, patch, insidePatch);
        case _ =>
      }
    }
  }

  /** Wherever the source's `updateRequirementContent` finishes, it returns what PatchEngine.UpdateContent does. */
  lemma AgreesWhereSourceFinishes(fuel: nat, content: seq<Element>, fieldId: string, patch: Patch)
    ensures Run(fuel, content, fieldId, patch).Some? ==>
              Run(fuel, content, fieldId, patch).value == PatchEngine.UpdateContent(content, fieldId, patch)
  {
    RunAgrees(fuel, content, fieldId, patch, false);
  }

  /** The source's walk finishes for some fuel exactly when it does not re-enter the patch's instances. */
  lemma SourceFinishesIff(content: seq<Element>, fieldId: string, patch: Patch)
    ensures (exists fuel: nat :: Run(fuel, content, fieldId, patch).Some?) <==>
              !(Reaches(content, fieldId) && PatchReenters(fieldId, patch))
  {
    if Reaches(content, fieldId) && PatchReenters(fieldId, patch) {
      forall fuel: nat ensures Run(fuel, content, fieldId, patch).None? {
        SourceDiverges(fuel, content, fieldId, patch);
      }
    } else {
      RunFinishes(1, content, fieldId, patch);
    }
  }
}
