/** The records shared by the validator and the creation form:
    the version draft and the per-field error map. */
module Version {

  datatype Option<+T> = None | Some(value: T)

  /** A version draft as the creation form holds it. `sprint` is optional
      (`None` stands for an absent property); `tags` keeps insertion order. */
  datatype VersionData = VersionData(
    name: string,
    sprint: Option<string>,
    tags: seq<string>,
    description: string)

  /** The keys an error map may carry. */
  datatype Field = Name | Sprint | Tags | Description | Submit

  /** One constructor per error message the form can show. */
  datatype Message =
    | NameRequired
    | NameTooLong
    | NameDuplicate
    | SprintTooLong
    | TooManyTags
    | DescriptionRequired
    | DescriptionTooLong
    | SubmitFailed

  /** A partial map from field to the message shown under it; the empty
      map means the draft is valid. */
  type ValidationErrors = map<Field, Message>

  /** The text the form displays for each message. */
  function MessageText(m: Message): string
  {
    match m
    case NameRequired => "Version name is required"
    case NameTooLong => "Version name must be less than 50 characters"
    case NameDuplicate => "A version with this name already exists"
    case SprintTooLong => "Sprint number must be less than 20 characters"
    case TooManyTags => "Maximum 10 tags allowed"
    case DescriptionRequired => "Description is required"
    case DescriptionTooLong => "Description must be less than 500 characters"
    case SubmitFailed => "Failed to create version. Please try again."
  }

  /** The field a message is shown under. */
  function FieldOf(m: Message): Field
  {
    match m
    case NameRequired | NameTooLong | NameDuplicate => Name
    case SprintTooLong => Sprint
    case TooManyTags => Tags
    case DescriptionRequired | DescriptionTooLong => Description
    case SubmitFailed => Submit
  }

  /** Every error map the form builds files each message under its own field. */
  predicate WellFiled(errors: ValidationErrors)
  {
    forall f | f in errors :: FieldOf(errors[f]) == f
  }
}
