/**
 * The patch engine: `updateRequirementContent` and its inner `dfs`
 * (src/hooks/useRequirementData.ts). Given a target id and a patch, every
 * element of a sequence is rebuilt: an element with the target id is merged
 * with the patch by a rule that depends on its variant, and every container
 * (optional content, repeatable instances, the content of a choice's group
 * options) is walked into.
 *
 * `insidePatch` is true while the walk is inside instances that a patch
 * supplied for a matched repeatable. It changes one case only: a repeatable
 * with the target id met there keeps (and walks) its own instances instead of
 * taking the patch's instances once more, where the source recurses without
 * end (see PatchEngineAsWritten).
 */
module PatchEngine {
  import opened RequirementModel

  /** `updateRequirementContent(content, fieldId, updatedData)`. */
  function UpdateContent(content: seq<Element>, fieldId: string, patch: Patch): (r: seq<Element>)
    ensures |r| == |content|
    ensures forall i :: 0 <= i < |content| ==> r[i].Type() == content[i].Type()
  {
    Dfs(content, fieldId, patch, false)
  }

  /** `dfs(elements)`: the elements, each rebuilt by Visit, in their order. */
  function Dfs(elements: seq<Element>, fieldId: string, patch: Patch, insidePatch: bool): (r: seq<Element>)
    ensures |r| == |elements|
    ensures forall i :: 0 <= i < |elements| ==> r[i].Type() == elements[i].Type()
    decreases if insidePatch then 0 else 1, elements
  {
    seq(|elements|, i requires 0 <= i < |elements| => Visit(elements[i], fieldId, patch, insidePatch))
  }

  /** The callback of `elements.map` in `dfs`: one element rebuilt. */
  function Visit(e: Element, fieldId: string, patch: Patch, insidePatch: bool): (r: Element)
    ensures r.Type() == e.Type()
    ensures r.id == if e.id == fieldId && (e.Input? || e.Choice? || e.Optional? || e.Reference?)
                    then patch.id.GetOr(e.id) else e.id
    ensures e.Repeatable? && (e.id != fieldId || patch.instances.None? || insidePatch) ==>
              |r.instances| == |e.instances|
    decreases if insidePatch then 0 else 1, e
  {
    if e.id == fieldId then
      match e
      case Input(id, value, placeholder, required) =>
        Input(patch.id.GetOr(id), patch.value.GetOr(value), patch.placeholder.GetOr(placeholder),
              patch.required.GetOr(required))
      case Choice(id, options, selected) =>
        Choice(patch.id.GetOr(id), patch.options.GetOr(options), patch.selected.GetOr(selected))
      case Optional(id, included, content) =>
        Optional(patch.id.GetOr(id), patch.included.GetOr(included),
                 patch.content.GetOr(Dfs(content, fieldId, patch, insidePatch)))
      case Repeatable(id, instances) =>
        if patch.instances.Some? && !insidePatch then
          Repeatable(id, DfsInstances(patch.instances.value, fieldId, patch, true))
        else
          Repeatable(id, DfsInstances(instances, fieldId, patch, insidePatch))
      case Reference(id, referenceId) =>
        Reference(patch.id.GetOr(id), patch.referenceId.GetOr(referenceId))
      case _ => e
    else
      match e
      case Optional(id, included, content) =>
        Optional(id, included, Dfs(content, fieldId, patch, insidePatch))
      case Repeatable(id, instances) =>
        Repeatable(id, DfsInstances(instances, fieldId, patch, insidePatch))
      case Choice(id, options, selected) =>
        Choice(id, DfsOptions(options, fieldId, patch, insidePatch), selected)
      case _ => e
  }

  /** `instances.map(dfs)`. */
  function DfsInstances(instances: seq<Instance>, fieldId: string, patch: Patch, insidePatch: bool)
    : (r: seq<Instance>)
    ensures |r| == |instances|
    decreases if insidePatch then 0 else 1, instances
  {
    seq(|instances|, k requires 0 <= k < |instances| => DfsInstance(instances[k], fieldId, patch, insidePatch))
  }

  function DfsInstance(instance: Instance, fieldId: string, patch: Patch, insidePatch: bool): (r: Instance)
    ensures |r.elements| == |instance.elements|
    decreases if insidePatch then 0 else 1, instance
  {
    Instance(Dfs(instance.elements, fieldId, patch, insidePatch))
  }

  /** `options.map(...)`: the content of every group option walked, every other option kept. */
  function DfsOptions(options: seq<ChoiceOption>, fieldId: string, patch: Patch, insidePatch: bool)
    : (r: seq<ChoiceOption>)
    ensures |r| == |options|
    decreases if insidePatch then 0 else 1, options
  {
    seq(|options|, k requires 0 <= k < |options| => DfsOption(options[k], fieldId, patch, insidePatch))
  }

  function DfsOption(option: ChoiceOption, fieldId: string, patch: Patch, insidePatch: bool): (r: ChoiceOption)
    ensures r.Plain? == option.Plain?
    decreases if insidePatch then 0 else 1, option
  {
    match option
    case Nested(Group(id, content)) => Nested(Group(id, Dfs(content, fieldId, patch, insidePatch)))
    case _ => option
  }
}
