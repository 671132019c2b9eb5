/** The document store and the upload directory the route handlers change, and the
    response a handler produces. The store holds each collection in its natural
    (insertion) order; the upload directory is the set of file names on disk. */
module Db {
  import opened Js
  import opened Models

  /** What a handler sends: a JSON body with a success status (200 or 201), a
      `{ message }` body with a client-error status, or `next(error)`, the generic
      server-error path. */
  datatype Response<T> =
    | Ok(status: int, body: T)
    | Refused(status: int, message: string)
    | ServerError

  /** Which store call of a request throws, if any: the first lookup (`findById`,
      `findOne`), the write (`create`, `save`, `deleteOne`), or the populated re-query
      that builds the response. A handler that makes no such call is unaffected. */
  datatype Fault = NoFault | FailLoad | FailWrite | FailRequery

  /** No two records of `s` share an id. */
  ghost predicate DistinctIds<T>(s: seq<T>, id: T -> Id)
  {
    forall i, j :: 0 <= i < j < |s| ==> id(s[i]) != id(s[j])
  }

  /** `findById`: the position of the record with id `key`, if there is one. */
  function IndexOf<T>(s: seq<T>, id: T -> Id, key: Id): (r: Option<nat>)
    ensures r.Some? ==> r.value < |s| && id(s[r.value]) == key
    ensures r.None? <==> forall k :: 0 <= k < |s| ==> id(s[k]) != key
  {
    if s == [] then None
    else if id(s[0]) == key then Some(0)
    else
      match IndexOf(s[1..], id, key)
      case None => assert forall k :: 1 <= k < |s| ==> s[k] == s[1..][k - 1]; None
      case Some(k) => Some(k + 1)
  }

  /** Appending a record with an unused id keeps ids distinct. */
  lemma AppendKeepsDistinct<T>(s: seq<T>, id: T -> Id, x: T)
    requires DistinctIds(s, id) && IndexOf(s, id, id(x)).None?
    ensures DistinctIds(s + [x], id)
  {
  }

  /** A record appended under an unused id is found at the end. */
  lemma IndexOfAppended<T>(s: seq<T>, id: T -> Id, x: T)
    requires IndexOf(s, id, id(x)).None?
    ensures IndexOf(s + [x], id, id(x)) == Some(|s|)
  {
    var t := s + [x];
    assert forall k :: 0 <= k < |s| ==> t[k] == s[k];
    assert id(t[|s|]) == id(x);
  }

  /** Replacing a record by one with the same id keeps ids distinct. */
  lemma ReplaceKeepsDistinct<T>(s: seq<T>, id: T -> Id, i: nat, x: T)
    requires DistinctIds(s, id) && i < |s| && id(x) == id(s[i])
    ensures DistinctIds(s[i := x], id)
  {
  }

  /** Removing the record at `i` keeps ids distinct and removes exactly that record. */
  lemma RemoveKeepsDistinct<T>(s: seq<T>, id: T -> Id, i: nat)
    requires DistinctIds(s, id) && i < |s|
    ensures DistinctIds(s[..i] + s[i + 1..], id)
    ensures forall x :: x in s[..i] + s[i + 1..] <==> x in s && x != s[i]
  {
    var r := s[..i] + s[i + 1..];
    assert forall k :: 0 <= k < |r| ==> r[k] == (if k < i then s[k] else s[k + 1]);
    forall x | x in s && x != s[i] ensures x in r {
      var k :| 0 <= k < |s| && s[k] == x;
      assert r[if k < i then k else k - 1] == x;
    }
  }

  /** The categories the store may hold: unique ids, each accepted by the schema, and
      unique names. */
  ghost predicate CategoriesValid(cs: seq<Category>)
  {
    && DistinctIds(cs, CategoryId)
    && (forall c :: c in cs ==> CategorySchemaValid(c))
    && NamesUnique(cs)
  }

  /** The document store: one collection per model. */
  class Store {
    var users: seq<User>
    var posts: seq<Post>
    var comments: seq<Comment>
    var categories: seq<Category>

    /** What the store guarantees of its contents: unique ids per collection, and every
        comment and category accepted by its schema with category names unique. */
    ghost predicate Valid()
      reads this
    {
      && DistinctIds(users, UserId)
      && DistinctIds(posts, PostId)
      && DistinctIds(comments, CommentId)
      && (forall c :: c in comments ==> CommentSchemaValid(c))
      && CategoriesValid(categories)
    }

    /** An empty store. */
    constructor ()
      ensures Valid()
      ensures users == [] && posts == [] && comments == [] && categories == []
    {
      users, posts, comments, categories := [], [], [], [];
    }
  }

  /** In a valid store every comment and category is exactly what saving it again would
      store: the schema neither refuses nor rewrites it. */
  lemma ValidStoreResaves(store: Store)
    requires store.Valid()
    ensures forall c :: c in store.comments ==> SaveComment(c) == Some(c)
    ensures forall c :: c in store.categories ==> SaveCategory(c) == Some(c)
  {
  }

  /** The upload directory: the names of the files on disk. */
  class UploadDir {
    var files: set<FileName>

    constructor (files: set<FileName>)
      ensures this.files == files
    {
      this.files := files;
    }
  }
}
