/**
 * The requirement element model: the closed set of element variants a
 * requirement document is built from, the document itself, and the partial
 * patch that the patch engine merges into one element.
 */
module RequirementModel {

  /** A present-or-absent value; `None` stands for a key the patch object does not have. */
  datatype Option<+T> = None | Some(value: T) {

    predicate IsFailure() {
      None?
    }

    function PropagateFailure<U>(): Option<U>
      requires None?
    {
      None
    }

    function Extract(): T
      requires Some?
    {
      value
    }

    /** The supplied value if there is one, else `own`: one key of an object spread `{ ...own, ...patch }`. */
    function GetOr(own: T): T {
      match this
      case Some(v) => v
      case None => own
    }
  }

  /** The `elementType` tag of an element. */
  datatype ElementType =
    | TextType
    | InputType
    | ChoiceType
    | GroupType
    | OptionalType
    | RepeatableType
    | ReferenceType

  /** One node of a requirement tree. Every variant carries an `id`. */
  datatype Element =
    | Text(id: string, value: string)
    | Input(id: string, value: string, placeholder: string, required: bool)
    | Choice(id: string, options: seq<ChoiceOption>, selected: string)
    | Group(id: string, content: seq<Element>)
    | Optional(id: string, included: bool, content: seq<Element>)
    | Repeatable(id: string, instances: seq<Instance>)
    | Reference(id: string, referenceId: string)
  {
    function Type(): ElementType {
      match this
      case Text(_, _) => TextType
      case Input(_, _, _, _) => InputType
      case Choice(_, _, _) => ChoiceType
      case Group(_, _) => GroupType
      case Optional(_, _, _) => OptionalType
      case Repeatable(_, _) => RepeatableType
      case Reference(_, _) => ReferenceType
    }
  }

  /**
   * One instance of a repeatable: an ordered sequence of elements. (Wrapped in
   * a datatype so that each instance is structurally smaller than its repeatable.)
   */
  datatype Instance = Instance(elements: seq<Element>)

  /** An option of a choice: a plain string, or an element (of which only a group is walked into). */
  datatype ChoiceOption = Plain(text: string) | Nested(element: Element)

  /** The root document: identifier, display metadata and root-level content. */
  datatype Requirement = Requirement(id: string, name: string, category: string, content: seq<Element>)

  /**
   * A partial element: every field any variant has (except the tag), each of
   * which may be absent. Fields a variant does not declare have no effect on it.
   */
  datatype Patch = Patch(
    id: Option<string>,
    value: Option<string>,
    placeholder: Option<string>,
    required: Option<bool>,
    options: Option<seq<ChoiceOption>>,
    selected: Option<string>,
    included: Option<bool>,
    content: Option<seq<Element>>,
    instances: Option<seq<Instance>>,
    referenceId: Option<string>)

  /** The patch with no keys at all. */
  function EmptyPatch(): Patch {
    Patch(None, None, None, None, None, None, None, None, None, None)
  }
}
