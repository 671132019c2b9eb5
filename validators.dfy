/** The Joi request validators `postValidator`, `categoryValidator` and `commentValidator`.
    Each is a pure function from a payload to the first violated constraint (Joi stops
    at the first error, and the routes report only `error.details[0].message`).
    Two Joi defaults that the source relies on without stating are modelled explicitly:
    `Joi.string()` rejects `""` unless `.allow('')` is given, and an object schema rejects
    keys it does not declare, after checking its declared keys in order. */
module Validators {
  import opened Js

  /** The constraint a payload violates, with Joi's error type in the comment. */
  datatype FieldError =
    | Required(key: string)           // any.required
    | Empty(key: string)              // string.empty
    | TooLong(key: string, limit: nat) // string.max
    | NotAllowed(key: string)         // object.unknown

  /** Joi's default English message for an error: it opens with the key, quoted as its
      label. */
  function Message(e: FieldError): (r: string)
    ensures |r| > |e.key| + 2 && r[..|e.key| + 2] == "\"" + e.key + "\""
  {
    var quoted := "\"" + e.key + "\"";
    var rest :=
      match e
      case Required(_) => " is required"
      case Empty(_) => " is not allowed to be empty"
      case TooLong(_, n) => " length must be less than or equal to " + NatToDecimal(n) + " characters long"
      case NotAllowed(_) => " is not allowed";
    assert (quoted + rest)[..|quoted|] == quoted;
    quoted + rest
  }

  /** One `Joi.string()` key: `.required()` or optional, `.max(n)` or unbounded,
      `.allow('')` or not. */
  function CheckString(key: string, v: Option<string>, required: bool, max: Option<nat>, allowEmpty: bool)
    : (r: Option<FieldError>)
    ensures r.None? <==>
      match v
      case None => !required
      case Some(s) => (s == "" && allowEmpty) || (s != "" && (max.None? || |s| <= max.value))
    ensures r.Some? ==> r.value.key == key
  {
    match v
    case None => if required then Some(Required(key)) else None
    case Some(s) =>
      if s == "" then (if allowEmpty then None else Some(Empty(key)))
      else if max.Some? && |s| > max.value then Some(TooLong(key, max.value))
      else None
  }

  /** Keys of the payload that the schema does not declare, in payload order. */
  function CheckUnknown(others: seq<string>): (r: Option<FieldError>)
    ensures r.None? <==> others == []
  {
    if others == [] then None else Some(NotAllowed(others[0]))
  }

  /** The first of two checks that fails, Joi's `abortEarly`. */
  function FirstError(a: Option<FieldError>, b: Option<FieldError>): Option<FieldError>
  {
    if a.Some? then a else b
  }

  /** A post payload: the three declared keys and the names of any other keys sent. */
  datatype PostPayload = PostPayload(title: Option<string>, content: Option<string>,
                                     category: Option<string>, others: seq<string>)

  const TitleMax: nat := 200

  /** `postValidator`: `title` a string of at most 200 characters, `content` a string,
      `category` a string, all required, and nothing else. */
  function PostValidator(p: PostPayload): (r: Option<FieldError>)
    ensures r.None? <==>
      && Truthy(p.title) && |p.title.value| <= TitleMax
      && Truthy(p.content)
      && Truthy(p.category)
      && p.others == []
  {
    FirstError(CheckString("title", p.title, true, Some(TitleMax), false),
    FirstError(CheckString("content", p.content, true, None, false),
    FirstError(CheckString("category", p.category, true, None, false),
    CheckUnknown(p.others))))
  }

  /** A payload missing any of `title`, `content` or `category` is rejected, and the
      error names the first missing key in schema order. */
  lemma PostValidatorRequiresAll(p: PostPayload)
    ensures p.title.None? ==> PostValidator(p) == Some(Required("title"))
    ensures p.title.Some? && p.title.value != "" && |p.title.value| <= TitleMax && p.content.None?
      ==> PostValidator(p) == Some(Required("content"))
    ensures Truthy(p.title) && |p.title.value| <= TitleMax && Truthy(p.content) && p.category.None?
      ==> PostValidator(p) == Some(Required("category"))
  {
  }

  /** A title over 200 characters is rejected with the `string.max` error. */
  lemma PostTitleTooLong(p: PostPayload)
    requires p.title.Some? && |p.title.value| > TitleMax
    ensures PostValidator(p) == Some(TooLong("title", 200))
  {
  }

  /** `content` has no maximum: any non-empty content is accepted beside a valid title
      and category. */
  lemma PostContentUnbounded(title: string, content: string, category: string)
    requires title != "" && |title| <= TitleMax && content != "" && category != ""
    ensures PostValidator(PostPayload(Some(title), Some(content), Some(category), [])).None?
  {
  }

  /** A category payload. */
  datatype CategoryPayload = CategoryPayload(name: Option<string>, description: Option<string>,
                                             others: seq<string>)

  const CategoryNameMax: nat := 50
  const DescriptionMax: nat := 200

  /** `categoryValidator`: `name` a required string of at most 50 characters;
      `description` an optional string of at most 200 characters that may be `""`. */
  function CategoryValidator(p: CategoryPayload): (r: Option<FieldError>)
    ensures r.None? <==>
      && Truthy(p.name) && |p.name.value| <= CategoryNameMax
      && (p.description.Some? ==> |p.description.value| <= DescriptionMax)
      && p.others == []
    ensures !Truthy(p.name) ==> r.Some? && r.value.key == "name"
  {
    FirstError(CheckString("name", p.name, true, Some(CategoryNameMax), false),
    FirstError(CheckString("description", p.description, false, Some(DescriptionMax), true),
    CheckUnknown(p.others)))
  }

  /** The empty description is explicitly allowed, and an absent one too. */
  lemma CategoryDescriptionOptional(name: string)
    requires name != "" && |name| <= CategoryNameMax
    ensures CategoryValidator(CategoryPayload(Some(name), Some(""), [])).None?
    ensures CategoryValidator(CategoryPayload(Some(name), None, [])).None?
  {
  }

  /** A comment payload. */
  datatype CommentPayload = CommentPayload(post: Option<string>, content: Option<string>,
                                           others: seq<string>)

  const CommentMax: nat := 500

  /** `commentValidator`: `post` a required string; `content` a required string of at
      most 500 characters. */
  function CommentValidator(p: CommentPayload): (r: Option<FieldError>)
    ensures r.None? <==>
      && Truthy(p.post)
      && Truthy(p.content) && |p.content.value| <= CommentMax
      && p.others == []
    ensures p.post.None? ==> r == Some(Required("post"))
    ensures Truthy(p.post) && p.content.None? ==> r == Some(Required("content"))
    ensures Truthy(p.post) && p.content.Some? && |p.content.value| > CommentMax
      ==> r == Some(TooLong("content", CommentMax))
  {
    FirstError(CheckString("post", p.post, true, None, false),
    FirstError(CheckString("content", p.content, true, Some(CommentMax), false),
    CheckUnknown(p.others)))
  }
}
