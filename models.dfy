/** The stored records and the Mongoose schema constraints the store enforces on save.
    `Comment` and `Category` follow their schema files; `Post` and `User` are derived from
    the fields the routes read and write, because their schema files are not part of
    this model. */
module Models {
  import opened Js

  /** A document id (an ObjectId, compared through its string form). */
  type Id = string

  /** The name of a file in the upload directory. */
  type FileName = string

  /** A post: `image` is the public path `/uploads/<file>` or `null`. */
  datatype Post = Post(id: Id, title: string, content: string, category: string,
                       author: Id, image: Option<string>, createdAt: int)

  /** A comment: references to a post and a user, and its text. */
  datatype Comment = Comment(id: Id, post: Id, author: Id, content: string, createdAt: int)

  /** A category with an optional description. */
  datatype Category = Category(id: Id, name: string, description: Option<string>, createdAt: int)

  /** A registered user; `password` holds what the user model's save hook stores. */
  datatype User = User(id: Id, username: string, email: string, password: string)

  function PostId(p: Post): Id { p.id }
  function CommentId(c: Comment): Id { c.id }
  function CategoryId(c: Category): Id { c.id }
  function UserId(u: User): Id { u.id }

  // ---------------------------------------------------------------------------
  // Comment schema
  // ---------------------------------------------------------------------------

  const CommentContentMax: nat := 500

  /** The comment schema: `content` is required (so not `""`) and at most 500 characters;
      `post` and `author` are required references, which every `Comment` value has. */
  predicate CommentSchemaValid(c: Comment)
  {
    c.content != "" && |c.content| <= CommentContentMax
  }

  /** What `save()` makes of a comment document: stored as it is, or a validation error. */
  function SaveComment(c: Comment): (r: Option<Comment>)
    ensures r.Some? <==> CommentSchemaValid(c)
    ensures r.Some? ==> r.value == c
  {
    if c.content == "" || |c.content| > CommentContentMax then None else Some(c)
  }

  // ---------------------------------------------------------------------------
  // Category schema
  // ---------------------------------------------------------------------------

  const CategoryNameMaxLength: nat := 50
  const CategoryDescriptionMaxLength: nat := 200

  /** The category schema: `name` required, trimmed, at most 50 characters;
      `description` at most 200 characters when present. */
  predicate CategorySchemaValid(c: Category)
  {
    && c.name != "" && Trim(c.name) == c.name && |c.name| <= CategoryNameMaxLength
    && (c.description.Some? ==> |c.description.value| <= CategoryDescriptionMaxLength)
  }

  /** No two categories share a name (the schema's unique index on `name`). */
  ghost predicate NamesUnique(cs: seq<Category>)
  {
    forall i, j :: 0 <= i < j < |cs| ==> cs[i].name != cs[j].name
  }

  /** What the schema makes of a category document on save: the `trim` setter runs,
      then the validators. `None` is a validation error. */
  function SaveCategory(c: Category): (r: Option<Category>)
    ensures r.Some? <==> CategorySchemaValid(c.(name := Trim(c.name)))
    ensures r.Some? ==> r.value == c.(name := Trim(c.name)) && CategorySchemaValid(r.value)
  {
    var name := Trim(c.name);
    TrimIdempotent(c.name);
    if name == "" || |name| > CategoryNameMaxLength then None
    else if c.description.Some? && |c.description.value| > CategoryDescriptionMaxLength then None
    else Some(c.(name := name))
  }

  /** Saving a category that the schema already accepts stores it unchanged. */
  lemma SaveValidCategory(c: Category)
    requires CategorySchemaValid(c)
    ensures SaveCategory(c) == Some(c)
  {
  }

  /** A name the schema stores differs from what was sent only by surrounding space, so
      sending the stored name again stores the same name. */
  lemma SavedNameIsStable(c: Category)
    requires SaveCategory(c).Some?
    ensures SaveCategory(SaveCategory(c).value) == SaveCategory(c)
  {
    TrimIdempotent(c.name);
  }
}
