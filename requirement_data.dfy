/**
 * The `useRequirementData` controller (src/hooks/useRequirementData.ts): two
 * slots, the current requirement and its rendering, seeded from the initial
 * requirement and kept in step by `updateRequirement`. The renderer
 * `parseRequirement` is not part of this model; it is given to the controller
 * as a pure function.
 */
module RequirementData {
  import opened RequirementModel
  import PatchEngine
  import PatchEngineProperties

  class RequirementController<ParsedText> {
    /** The renderer, `parseRequirement`. */
    const parseRequirement: Requirement -> ParsedText
    /** `requirementRef.current`. */
    var requirement: Requirement
    /** The `parsedText` state. */
    var parsedText: ParsedText

    /** The rendering is the renderer's output on the stored requirement. */
    ghost predicate Valid()
      reads this
    {
      parsedText == parseRequirement(requirement)
    }

    /** `useRef(initialRequirement)` and `useState(() => parseRequirement(initialRequirement))`. */
    constructor (initialRequirement: Requirement, parse: Requirement -> ParsedText)
      ensures parseRequirement == parse
      ensures requirement == initialRequirement
      ensures parsedText == parse(initialRequirement)
      ensures Valid()
    {
      parseRequirement := parse;
      requirement := initialRequirement;
      parsedText := parse(initialRequirement);
    }

    /** `updateRequirement(fieldId, updatedData)`: patch the content, then re-render the whole requirement. */
    method UpdateRequirement(fieldId: string, updatedData: Patch)
      modifies this
      ensures requirement.id == old(requirement).id
      ensures requirement.name == old(requirement).name
      ensures requirement.category == old(requirement).category
      ensures requirement.content == PatchEngine.UpdateContent(old(requirement).content, fieldId, updatedData)
      ensures parsedText == parseRequirement(requirement)
      ensures Valid()
      // an id that nothing visited has leaves both slots as they were
      ensures !PatchEngineProperties.Mentions(old(requirement).content, fieldId) ==>
                requirement == old(requirement) && (old(Valid()) ==> parsedText == old(parsedText))
    {
      if !PatchEngineProperties.Mentions(requirement.content, fieldId) {
        PatchEngineProperties.UpdateContentNoMatch(requirement.content, fieldId, updatedData);
      }
      requirement := requirement.(content := PatchEngine.UpdateContent(requirement.content, fieldId, updatedData));
      parsedText := parseRequirement(requirement);
    }
  }
}
