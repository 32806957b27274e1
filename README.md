# Requirement editing core of nfrs-app, in Dafny

nfrs-app edits non-functional requirements. Each requirement is a tree of
typed elements:

- text, input, choice, group, optional, repeatable and reference elements;
- an optional element holds nested content;
- a repeatable element holds a list of instances, and each instance is a list of elements;
- a choice lists options, which are plain strings or nested elements.

This project models two parts of it.

**The patch engine and its controller** come from `src/hooks/useRequirementData.ts`.
- `updateRequirementContent` rebuilds the element tree. It merges a partial patch into every element the walk visits whose id is the target id, by a rule that depends on the element type; a matched text or group is left unchanged.
- The walk does not visit the options of a matched choice, the content a patch supplies for an optional, or the content of a group that is not a choice option.
- `updateRequirement` stores the patched requirement and re-renders it with `parseRequirement`.

Files:
- `requirement_model.dfy`: the element tree and the patch. The patch is a record with one `Option` per field; `None` means the key is absent.
- `patch_engine.dfy`: the engine.
- `patch_engine_properties.dfy`: what the engine promises.
- `patch_spread.dfy`: the merge rules checked against JavaScript's object spread, with elements and patches seen as maps from field name to value.
- `patch_engine_as_written.dfy`: the source's walk exactly as written, bounded by fuel, and the proof that it can fail to terminate (see Findings).
- `requirement_data.dfy`: the controller, as a class with the two slots as fields.

**The requirement tree's search filter and expansion toggle** come from `src/components/ui/requirement-tree.tsx` (file `requirement_tree.dfy`, over the sequence helpers in `seqs.dfy`).
- The filter works on three levels: categories, subcategories and requirements. It matches substrings, ignoring case.
- While it filters, it collects the ids of the tree items to expand.
- The toggle adds an id to the expanded list or removes it.

## Model

| member | source | states |
|---|---|---|
| PatchEngine.UpdateContent | src/hooks/useRequirementData.ts:17-80 | the result has as many elements as the input, and each has the same element type |
| PatchEngine.Dfs | src/hooks/useRequirementData.ts:22-77 | `dfs` keeps the length of the list and the element type at every position |
| PatchEngine.Visit | src/hooks/useRequirementData.ts:23-75 | one element keeps its type; its id changes only when it is a matched input, choice, optional or reference and the patch gives an id; an unmatched repeatable keeps its instance count, and so does a matched one when the patch gives no instances. The body applies each variant's merge rule; `PatchSpread.MatchedIsSpread` and `PatchSpread.UnmatchedIsSpread` check those rules against the object spread |
| PatchEngine.DfsInstances | src/hooks/useRequirementData.ts:40-41 | `instances.map(dfs)` keeps the number of instances |
| PatchEngine.DfsInstance | src/hooks/useRequirementData.ts:58-58 | walking one instance keeps its number of elements |
| PatchEngine.DfsOptions | src/hooks/useRequirementData.ts:64-72 | the options of an unmatched choice keep their number |
| PatchEngine.DfsOption | src/hooks/useRequirementData.ts:64-72 | a choice option stays plain or nested as it was |
| PatchEngineProperties.NoMatchIdentity | src/hooks/useRequirementData.ts:22-79 | when no element the walk visits has the target id, the list comes back equal, everything nested included |
| PatchEngineProperties.NoMatchVisit | src/hooks/useRequirementData.ts:49-75 | the same for one element and everything nested in it |
| PatchEngineProperties.UpdateContentNoMatch | src/hooks/useRequirementData.ts:17-80 | `updateRequirementContent` with an id that nothing has returns its input |
| PatchSpread.FieldsDetermineElement | src/hooks/useRequirementData.ts:23-75 | an element is determined by its variant and its field map, so equal field maps mean equal elements |
| PatchSpread.Spread | src/hooks/useRequirementData.ts:27-27 | `{ ...own, ...patch }` has every key of either, and the patch's value where both have one |
| PatchSpread.MatchedIsSpread | src/hooks/useRequirementData.ts:24-47 | the fields of a matched input, choice or reference are `{ ...field, ...updatedData }`; of an optional, `{ ...field, content: dfs(field.content), ...updatedData }`; of a repeatable, `{ ...field, instances: ... }`, taking nothing else from the patch; in each case restricted to the variant's fields. A matched text or group is returned unchanged |
| PatchSpread.UnmatchedIsSpread | src/hooks/useRequirementData.ts:49-75 | an unmatched optional, repeatable or choice is `{ ...field }` with only its content, instances or options walked; every other element is returned unchanged |
| PatchSpread.MatchedChoiceNotSearched | src/hooks/useRequirementData.ts:28-29 | a matched choice's options are the patch's if it has that key, else its own as they were: they are not searched |
| PatchEngineProperties.ShapePreserved | src/hooks/useRequirementData.ts:22-77 | a patch that gives no content, instances or options keeps every variant and every length at every level, repeatable instance counts included |
| PatchEngineProperties.VisitShapePreserved | src/hooks/useRequirementData.ts:23-75 | the same for one element |
| PatchEngineProperties.DfsIdempotent | src/hooks/useRequirementData.ts:22-77 | walking twice with the same id and patch gives the result of walking once, when the patch keeps the matched element's id |
| PatchEngineProperties.VisitIdempotent | src/hooks/useRequirementData.ts:23-75 | the same for one element |
| PatchEngineProperties.InstancesIdempotent | src/hooks/useRequirementData.ts:39-41 | the same for a list of repeatable instances |
| PatchEngineProperties.UpdateContentIdempotent | src/hooks/useRequirementData.ts:17-80 | `updateRequirementContent` applied twice equals applying it once, when the patch keeps the id |
| PatchEngineProperties.RenamingPatchNotIdempotent | src/hooks/useRequirementData.ts:30-35 | a concrete patch that renames an optional and gives it content changes the tree again on a second application |
| PatchEngineProperties.IncludeThenFill | src/hooks/useRequirementData.ts:24-35 | including optional "opt1" keeps its nested input "in1"; filling "in1" next keeps "opt1" included |
| PatchEngineProperties.DuplicateIdsAcrossInstances | src/hooks/useRequirementData.ts:55-59 | an id that occurs in two instances of a repeatable is patched in both |
| PatchEngineAsWritten.AllSome | src/hooks/useRequirementData.ts:23-23 | a `map` whose every callback returned: `Some` exactly when all did, with their values in order |
| PatchEngineAsWritten.Run | src/hooks/useRequirementData.ts:22-77 | the source's `dfs` with a budget for walks into patch-given instances; when it finishes, it keeps the length and the element type at every position |
| PatchEngineAsWritten.RunVisit | src/hooks/useRequirementData.ts:23-75 | the source's callback for one element: when it finishes, the element keeps its type, and an unmatched one keeps its id |
| PatchEngineAsWritten.RunInstances | src/hooks/useRequirementData.ts:39-41 | the source's `instances.map(dfs)`: when it finishes, the number of instances is kept |
| PatchEngineAsWritten.RunInstance | src/hooks/useRequirementData.ts:58-58 | the source's walk of one instance: when it finishes, its number of elements is kept |
| PatchEngineAsWritten.RunOptions | src/hooks/useRequirementData.ts:64-72 | the source's `options.map(...)`: when it finishes, the number of options is kept |
| PatchEngineAsWritten.RunOption | src/hooks/useRequirementData.ts:64-72 | a plain option stays plain, a nested one nested; any option but a group is returned as it is |
| PatchEngineAsWritten.RunStuck | src/hooks/useRequirementData.ts:36-41 | once the patch's instances cannot be walked to the end, no walk that meets a matched repeatable finishes |
| PatchEngineAsWritten.RunVisitStuck | src/hooks/useRequirementData.ts:36-41 | the same for one element |
| PatchEngineAsWritten.PatchInstancesNeverFinish | src/hooks/useRequirementData.ts:39-40 | when the patch's own instances lead the walk to a repeatable with the target id, no budget is enough to walk them to the end |
| PatchEngineAsWritten.PatchInstancesStuck | src/hooks/useRequirementData.ts:39-40 | one step of that: if the patch's instances cannot be walked with one unit less, they cannot be walked now |
| PatchEngineAsWritten.SourceDiverges | src/hooks/useRequirementData.ts:39-41 | the source does not finish on any tree that meets a matched repeatable when the patch's instances re-enter it |
| PatchEngineAsWritten.SelfContainingPatchDiverges | src/hooks/useRequirementData.ts:36-42 | on tree `[repeatable "r"]` with patch instances `[[repeatable "r"]]`, the source does not finish, while PatchEngine stores the patch's instance |
| PatchEngineAsWritten.RunFinishes | src/hooks/useRequirementData.ts:22-77 | the source finishes when the tree meets no matched repeatable, or the patch gives no instances, or the patch's instances do not re-enter |
| PatchEngineAsWritten.RunVisitFinishes | src/hooks/useRequirementData.ts:23-75 | the same for one element |
| PatchEngineAsWritten.RunAgrees | src/hooks/useRequirementData.ts:22-77 | whenever the source's walk of a list finishes, its result is PatchEngine's |
| PatchEngineAsWritten.InstancesAgree | src/hooks/useRequirementData.ts:39-41 | the same for a list of instances |
| PatchEngineAsWritten.RunVisitAgrees | src/hooks/useRequirementData.ts:23-75 | the same for one element |
| PatchEngineAsWritten.RepeatableAgrees | src/hooks/useRequirementData.ts:36-41 | the same for a repeatable, matched or not |
| PatchEngineAsWritten.ChoiceAgrees | src/hooks/useRequirementData.ts:64-72 | the same for a choice, whose group options are walked when it is not matched |
| PatchEngineAsWritten.AgreesWhereSourceFinishes | src/hooks/useRequirementData.ts:17-80 | whenever the source's `updateRequirementContent` finishes, it returns `PatchEngine.UpdateContent` |
| PatchEngineAsWritten.SourceFinishesIff | src/hooks/useRequirementData.ts:22-79 | the source finishes exactly when the tree meets no matched repeatable or the patch's instances do not re-enter |
| RequirementData.RequirementController.constructor | src/hooks/useRequirementData.ts:13-15 | the stored requirement is the initial one, and the rendering is `parseRequirement` of it |
| RequirementData.RequirementController.UpdateRequirement | src/hooks/useRequirementData.ts:82-88 | id, name and category are unchanged; content is the engine's result on the old content; the rendering is `parseRequirement` of the new requirement; an id that nothing has changes neither slot |
| RequirementTree.ToLower | src/components/ui/requirement-tree.tsx:66-66 | `toLowerCase` keeps the length, turns each ASCII capital into its lower-case letter, leaves no capital, and keeps every other character |
| RequirementTree.Includes | src/components/ui/requirement-tree.tsx:66-66 | `includes` always finds the empty text, and never a text longer than the one searched |
| RequirementTree.TextMatches | src/components/ui/requirement-tree.tsx:66-66 | the lower-cased filter occurs at some position of the lower-cased text |
| RequirementTree.FilterRequirements | src/components/ui/requirement-tree.tsx:65-67 | the kept requirements are requirements of the input that match, and every matching one is kept |
| RequirementTree.PruneSubcategory | src/components/ui/requirement-tree.tsx:73-76 | the pruned subcategory keeps its name and id and holds only matching requirements of the original |
| RequirementTree.FilterSubcategories | src/components/ui/requirement-tree.tsx:63-78 | no more subcategories than before, each passing the test of line 78 |
| RequirementTree.PruneCategory | src/components/ui/requirement-tree.tsx:84-87 | the pruned category keeps its name and id, and holds no more subcategories than before, each passing the test of line 78 |
| RequirementTree.FilteredCategories | src/components/ui/requirement-tree.tsx:61-89 | no more categories than before, each passing the test of line 89 |
| RequirementTree.SubcategoryExpansion | src/components/ui/requirement-tree.tsx:69-71 | one category's subcategories push at most two ids each |
| RequirementTree.SubcategoryExpansionPairs | src/components/ui/requirement-tree.tsx:70-70 | the pushes inside one category come two at a time, and every pair starts with the category id |
| RequirementTree.CategoryExpansion | src/components/ui/requirement-tree.tsx:69-82 | one category pushes at most two ids per subcategory and one more |
| RequirementTree.ExpandedItems | src/components/ui/requirement-tree.tsx:59-82 | every id in the list was pushed while some category was filtered |
| RequirementTree.ExpandedItemsComplete | src/components/ui/requirement-tree.tsx:59-82 | every id a category pushes is in the list |
| RequirementTree.IncludesIff | src/components/ui/requirement-tree.tsx:66-66 | `includes` holds exactly when the text occurs at some position |
| RequirementTree.EmptyFilterMatches | src/components/ui/requirement-tree.tsx:66-66 | every text contains the empty filter |
| RequirementTree.VisitCategory | src/components/ui/requirement-tree.tsx:62-87 | the loop over one category's subcategories returns the pruned category and exactly the ids the category pushes |
| RequirementTree.ComputeFilteredCategories | src/components/ui/requirement-tree.tsx:58-93 | the loop returns the filtered categories and the expansion list the filter defines |
| RequirementTree.PrunedRequirements | src/components/ui/requirement-tree.tsx:65-76 | a pruned subcategory keeps its name and id; every kept requirement matches by id or name; every matching one is kept, as often as before, in its original order |
| RequirementTree.HasMatchingIff | src/components/ui/requirement-tree.tsx:65-69 | `filteredRequirements.length > 0` exactly when some requirement matches |
| RequirementTree.SubcategoryKeptIff | src/components/ui/requirement-tree.tsx:73-78 | a subcategory is kept exactly when its name matches or it has a matching requirement |
| RequirementTree.FilterSubcategoriesCorrect | src/components/ui/requirement-tree.tsx:63-78 | the kept subcategories are the pruned forms of exactly the included ones, in their original order, each as often as it occurs |
| RequirementTree.KeptSubcategoriesIncluded | src/components/ui/requirement-tree.tsx:63-78 | a subcategory's pruned form is kept exactly when the subcategory is included |
| RequirementTree.KeptSubcategoriesOrigin | src/components/ui/requirement-tree.tsx:63-78 | every kept subcategory is the pruned form of an included one |
| RequirementTree.FilterSubcategoriesSnoc | src/components/ui/requirement-tree.tsx:63-78 | one more subcategory is appended, pruned, exactly when it passes the test of line 78 |
| RequirementTree.KeptSubcategoriesIff | src/components/ui/requirement-tree.tsx:78-80 | a category keeps some subcategory exactly when one of them is included |
| RequirementTree.CategoryKeptIff | src/components/ui/requirement-tree.tsx:84-89 | a category is kept exactly when its name matches or it keeps a subcategory |
| RequirementTree.FilteredCategoriesCorrect | src/components/ui/requirement-tree.tsx:61-89 | the kept categories are exactly the included ones, with name and id kept and only their subcategories filtered, in their original order, each as often as it occurs |
| RequirementTree.KeptCategoriesIncluded | src/components/ui/requirement-tree.tsx:61-89 | a category's pruned form is kept exactly when the category is included |
| RequirementTree.KeptCategoriesOrigin | src/components/ui/requirement-tree.tsx:61-89 | every kept category is an included one with name and id kept and only its subcategories filtered |
| RequirementTree.FilteredCategoriesSnoc | src/components/ui/requirement-tree.tsx:61-89 | one more category is appended, pruned, exactly when it passes the test of line 89 |
| RequirementTree.EmptyFilterKeepsAll | src/components/ui/requirement-tree.tsx:65-89 | with an empty filter every category, subcategory and requirement is kept unchanged |
| RequirementTree.NameMatchKeepsEmptySubcategory | src/components/ui/requirement-tree.tsx:73-78 | a subcategory kept for its name alone can be kept with no requirements |
| RequirementTree.SubcategoryExpansionMembers | src/components/ui/requirement-tree.tsx:69-71 | inside one category, the pushed ids are exactly the category id and the ids of subcategories with a matching requirement |
| RequirementTree.SubcategoryExpansionSound | src/components/ui/requirement-tree.tsx:69-71 | every id pushed inside a category is its id or the id of a subcategory with a matching requirement |
| RequirementTree.SubcategoryExpansionComplete | src/components/ui/requirement-tree.tsx:69-71 | a subcategory with a matching requirement pushes the category id and its own id |
| RequirementTree.ExpandedItemsMembers | src/components/ui/requirement-tree.tsx:59-82 | the expansion list holds exactly what the categories push |
| RequirementTree.ExpansionComplete | src/components/ui/requirement-tree.tsx:69-82 | a subcategory with a matching requirement puts its category id and its own id in the list; a category with a kept subcategory puts its id in the list |
| RequirementTree.ExpansionSound | src/components/ui/requirement-tree.tsx:69-82 | every id in the list is one of those |
| RequirementTree.ExpansionMayRepeat | src/components/ui/requirement-tree.tsx:69-82 | a category with one matching requirement is listed twice: `["c1", "s1", "c1"]` |
| RequirementTree.ToggleExpansion | src/components/ui/requirement-tree.tsx:96-96 | a present id is removed everywhere, with the other ids kept in order and as often as before; an absent id is appended |
| RequirementTree.ToggleAbsentTwice | src/components/ui/requirement-tree.tsx:96-96 | toggling an absent id twice gives back the original list |
| RequirementTree.TogglePresentTwice | src/components/ui/requirement-tree.tsx:96-96 | toggling a present id twice leaves it exactly once, at the end |

## Left out

- The element types of `@/types/requirement` are not part of this model. The variants and their fields are inferred from how `useRequirementData.ts` uses them. The fields the source never touches are guesses: placeholder, required, selected, referenceId, included, and the requirement's name and category.
- `Instance` wraps one repeatable instance, a list of elements. The source has a plain array of arrays. The wrapper lets Dafny see that the recursion terminates.
- `PatchSpread.MatchedIsSpread`: a merged element keeps only its own variant's fields. A patch key of another variant (for example `value` on an optional, or `content` on an input) is dropped, where JavaScript adds it to the stored object, which `parseRequirement` then receives.
- The patch has a field only for what some variant declares. Other patch keys are dropped. So is a key whose value is `undefined` (JavaScript would spread it), since the patch models it as `None`. The patch cannot change `elementType`.
- Reset is not modelled. The hook has no reset operation: it returns only `requirement`, `parsedText` and `updateRequirement` (src/hooks/useRequirementData.ts:90-94).
- `parseRequirement` (`@/lib/utils`) is not part of this model. It is a pure function given to the controller's constructor.
- React semantics are not modelled: `useRef`, `useState`, `useCallback`, `useMemo` and re-render timing. Neither is the `requirementRef.current` snapshot the hook returns at line 91, which can be stale after an update. The two slots are fields of a class.
- `ComputeFilteredCategories`: `setExpandedItems` is modelled by returning the list.
- `toLowerCase` is ASCII only (`LowerChar`). Unicode case mapping is not modelled.
- The JSX, icon and tree-view components of `requirement-tree.tsx` are not modelled.
- `src/components/createRequirementDialog/select-template.tsx` is not part of this model: it is UI wiring around a dialog.
- `src/components/ui/requirement-wrapper.tsx` is not part of this model: layout, snackbar and navigation only.
- `src/models/user.model.ts` is not part of this model: a persistence schema whose validation is done by a library.
- `PatchEngineProperties.UpdateContentIdempotent`: idempotence needs the patch to keep the matched element's id. Without that condition it fails: `RenamingPatchNotIdempotent` shows a case.
- `RequirementData.RequirementController.UpdateRequirement`: on a patch whose instances re-enter (see Findings), the source's `updateRequirementContent` overflows the call stack and throws a RangeError before line 83 assigns `requirementRef.current`, so both slots keep their old values. The model stores the corrected engine's result instead; the throw is not modelled.

## Findings

| source | as written | input that shows it | evidently intended | confidence | as-written member | corrected member |
|---|---|---|---|---|---|---|
| src/hooks/useRequirementData.ts:39-41 | a matched repeatable's patch instances are mapped through `dfs`, the same walk with the same target id and patch; a repeatable with the target id inside those instances is matched again and re-enters the patch's instances without bound, until the call stack overflows with a RangeError; `updateRequirement` then throws and neither slot changes | tree `[repeatable "r" with no instances]`, target id `"r"`, patch `{instances: [[repeatable "r" with no instances]]}` | the patch's instances are walked once: a repeatable inside them keeps and walks its own instances, so the update finishes on every input and equals the source wherever the source finishes | not executed | PatchEngineAsWritten.SelfContainingPatchDiverges | PatchEngineAsWritten.AgreesWhereSourceFinishes |
