/** The comment routes: a post's comments newest first, and the authenticated create,
    update and delete, each stated against the store and the comment schema. */
module Comments {
  import opened Js
  import opened Models
  import opened Validators
  import opened Db
  import opened Sorting

  /** `{ createdAt: -1 }`: newest first. */
  predicate NewerOrSame(a: Comment, b: Comment)
  {
    a.createdAt >= b.createdAt
  }

  lemma NewerOrSameOrders()
    ensures TotalPreorder(NewerOrSame)
  {
  }

  /** `Comment.find({ post })`: the comments of one post, in natural order. */
  function OfPost(comments: seq<Comment>, post: Id): (r: seq<Comment>)
    ensures forall c :: c in r <==> c in comments && c.post == post
    ensures multiset(r) <= multiset(comments)
  {
    if comments == [] then []
    else
      assert comments == [comments[0]] + comments[1..];
      var rest := OfPost(comments[1..], post);
      if comments[0].post == post then [comments[0]] + rest else rest
  }

  /** GET /comments/post/:postId: exactly the comments of that post, newest first. An
      id that no post has yields the empty list, not 404. */
  function ListComments(comments: seq<Comment>, post: Id): (r: seq<Comment>)
    ensures forall c :: c in r <==> c in comments && c.post == post
    ensures multiset(r) == multiset(OfPost(comments, post))
    ensures SortedBy(r, NewerOrSame)
    ensures (forall c :: c in comments ==> c.post != post) ==> r == []
  {
    var found := OfPost(comments, post);
    NewerOrSameOrders();
    SortBySorted(found, NewerOrSame);
    var r := SortBy(found, NewerOrSame);
    assert forall c :: c in r <==> c in multiset(found);
    r
  }

  // ---------------------------------------------------------------------------
  // POST /comments
  // ---------------------------------------------------------------------------

  /** The document `Comment.create` stores: the author is the requester. The request
      validator is at least as strict as the schema, so a validated comment is stored as
      it was built and never fails on save. */
  function NewComment(id: Id, body: CommentPayload, requester: Id, now: int): (r: Comment)
    requires CommentValidator(body).None?
    ensures r.id == id && r.author == requester && r.createdAt == now
    ensures r.post == body.post.value && r.content == body.content.value
    ensures SaveComment(r) == Some(r)
  {
    Comment(id, body.post.value, requester, body.content.value, now)
  }

  method CreateComment(store: Store, requester: Id, body: CommentPayload, newId: Id, now: int,
                       fault: Fault)
    returns (r: Response<Comment>)
    requires store.Valid()
    requires IndexOf(store.comments, CommentId, newId).None?
    modifies store
    ensures store.Valid()
    ensures store.users == old(store.users) && store.posts == old(store.posts)
    ensures store.categories == old(store.categories)
    // the payload is checked before the post is looked up
    ensures CommentValidator(body).Some? ==>
      r == Refused(400, Message(CommentValidator(body).value)) && store.comments == old(store.comments)
    ensures CommentValidator(body).None? && fault == FailLoad ==>
      r == ServerError && store.comments == old(store.comments)
    ensures CommentValidator(body).None? && fault != FailLoad
            && IndexOf(store.posts, PostId, body.post.value).None? ==>
      r == Refused(404, "Post not found") && store.comments == old(store.comments)
    ensures CommentValidator(body).None? && fault == FailWrite
            && IndexOf(store.posts, PostId, body.post.value).Some? ==>
      r == ServerError && store.comments == old(store.comments)
    ensures CommentValidator(body).None? && (fault == NoFault || fault == FailRequery)
            && IndexOf(store.posts, PostId, body.post.value).Some? ==>
      && store.comments == old(store.comments) + [NewComment(newId, body, requester, now)]
      && r == (if fault == NoFault then Ok(201, NewComment(newId, body, requester, now)) else ServerError)
    // a stored comment belongs to a post that existed and to the requester
    ensures |store.comments| > |old(store.comments)| ==>
      var c := store.comments[|store.comments| - 1];
      c.author == requester && IndexOf(store.posts, PostId, c.post).Some?
  {
    var error := CommentValidator(body);
    if error.Some? {
      return Refused(400, Message(error.value));
    }
    if fault == FailLoad {
      return ServerError;
    }
    if IndexOf(store.posts, PostId, body.post.value).None? {
      return Refused(404, "Post not found");
    }
    if fault == FailWrite {
      return ServerError;
    }
    var comment := NewComment(newId, body, requester, now);
    AppendKeepsDistinct(store.comments, CommentId, comment);
    store.comments := store.comments + [comment];
    r := if fault == NoFault then Ok(201, comment) else ServerError;
  }

  // ---------------------------------------------------------------------------
  // PUT /comments/:id
  // ---------------------------------------------------------------------------

  /** Line 67: the new content when it is truthy, the old one otherwise. */
  function Edited(c: Comment, content: Option<string>): (r: Comment)
    ensures r.id == c.id && r.post == c.post && r.author == c.author && r.createdAt == c.createdAt
    ensures Truthy(content) ==> r.content == content.value
    ensures !Truthy(content) ==> r == c
  {
    c.(content := Or(content, c.content))
  }

  /** The update route runs no request validator: only the schema stands between an
      over-long content and the store, and it turns it into a server error. An absent or
      empty content leaves the comment as it was. */
  lemma EditedSaves(c: Comment, content: Option<string>)
    requires CommentSchemaValid(c)
    ensures SaveComment(Edited(c, content)).Some? <==>
      !Truthy(content) || |content.value| <= CommentContentMax
  {
  }

  method UpdateComment(store: Store, requester: Id, id: Id, content: Option<string>, fault: Fault)
    returns (r: Response<Comment>)
    requires store.Valid()
    modifies store
    ensures store.Valid()
    ensures store.users == old(store.users) && store.posts == old(store.posts)
    ensures store.categories == old(store.categories)
    ensures fault == FailLoad ==> r == ServerError && store.comments == old(store.comments)
    ensures fault != FailLoad && IndexOf(old(store.comments), CommentId, id).None? ==>
      r == Refused(404, "Comment not found") && store.comments == old(store.comments)
    ensures fault != FailLoad && IndexOf(old(store.comments), CommentId, id).Some?
            && old(store.comments)[IndexOf(old(store.comments), CommentId, id).value].author != requester ==>
      r == Refused(403, "Not authorized to update this comment") && store.comments == old(store.comments)
    ensures fault != FailLoad && IndexOf(old(store.comments), CommentId, id).Some?
            && old(store.comments)[IndexOf(old(store.comments), CommentId, id).value].author == requester ==>
      var i := IndexOf(old(store.comments), CommentId, id).value;
      var edited := Edited(old(store.comments)[i], content);
      && (SaveComment(edited).None? || fault == FailWrite ==>
            r == ServerError && store.comments == old(store.comments))
      && (SaveComment(edited).Some? && fault != FailWrite ==>
            && store.comments == old(store.comments)[i := edited]
            && r == (if fault == NoFault then Ok(200, edited) else ServerError))
  {
    if fault == FailLoad {
      return ServerError;
    }
    var found := IndexOf(store.comments, CommentId, id);
    if found.None? {
      return Refused(404, "Comment not found");
    }
    var i := found.value;
    var comment := store.comments[i];
    if comment.author != requester {
      return Refused(403, "Not authorized to update this comment");
    }
    var edited := Edited(comment, content);
    var saved := SaveComment(edited);
    if saved.None? || fault == FailWrite {
      return ServerError;
    }
    ReplaceKeepsDistinct(store.comments, CommentId, i, edited);
    store.comments := store.comments[i := edited];
    r := if fault == NoFault then Ok(200, edited) else ServerError;
  }

  // ---------------------------------------------------------------------------
  // DELETE /comments/:id
  // ---------------------------------------------------------------------------

  method DeleteComment(store: Store, requester: Id, id: Id, fault: Fault)
    returns (r: Response<string>)
    requires store.Valid()
    modifies store
    ensures store.Valid()
    ensures store.users == old(store.users) && store.posts == old(store.posts)
    ensures store.categories == old(store.categories)
    ensures fault == FailLoad ==> r == ServerError && store.comments == old(store.comments)
    ensures fault != FailLoad && IndexOf(old(store.comments), CommentId, id).None? ==>
      r == Refused(404, "Comment not found") && store.comments == old(store.comments)
    ensures fault != FailLoad && IndexOf(old(store.comments), CommentId, id).Some?
            && old(store.comments)[IndexOf(old(store.comments), CommentId, id).value].author != requester ==>
      r == Refused(403, "Not authorized to delete this comment") && store.comments == old(store.comments)
    ensures fault != FailLoad && IndexOf(old(store.comments), CommentId, id).Some?
            && old(store.comments)[IndexOf(old(store.comments), CommentId, id).value].author == requester ==>
      var i := IndexOf(old(store.comments), CommentId, id).value;
      && (fault == FailWrite ==> r == ServerError && store.comments == old(store.comments))
      && (fault != FailWrite ==>
            && r == Ok(200, "Comment deleted successfully")
            && store.comments == old(store.comments)[..i] + old(store.comments)[i + 1..]
            && (forall c :: c in store.comments <==> c in old(store.comments) && c.id != id))
  {
    if fault == FailLoad {
      return ServerError;
    }
    var found := IndexOf(store.comments, CommentId, id);
    if found.None? {
      return Refused(404, "Comment not found");
    }
    var i := found.value;
    if store.comments[i].author != requester {
      return Refused(403, "Not authorized to delete this comment");
    }
    if fault == FailWrite {
      return ServerError;
    }
    RemoveKeepsDistinct(store.comments, CommentId, i);
    store.comments := store.comments[..i] + store.comments[i + 1..];
    r := Ok(200, "Comment deleted successfully");
  }

  /** A comment's author and post never change: the update writes only `content`. */
  lemma EditKeepsOwnership(c: Comment, first: Option<string>, second: Option<string>)
    ensures Edited(Edited(c, first), second).author == c.author
    ensures Edited(Edited(c, first), second).post == c.post
    ensures Truthy(second) ==> Edited(Edited(c, first), second) == Edited(c, second)
  {
  }
}
