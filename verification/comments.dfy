/**
  The comment handlers: one public query and three mutations, each mutation
  gated by the session and, for delete and update, by the comment's
  existence and its author.
 */
module Comments {
  import opened Results
  import opened Table
  import opened Schema

  /** getCommentsByPostId: the comments on `postId`, newest first. A read: no store comes back. */
  function GetCommentsByPostId(s: Store, postId: Id): (r: seq<Comment>)
    requires Valid(s)
    ensures forall c :: c in r <==> c in s.comments && c.fields.postId == postId
    ensures Descending(r)
  {
    NewestFirst(s.comments, (f: CommentFields) => f.postId == postId)
  }

  /**
    createComment: with no session, fails and inserts nothing; otherwise
    appends one comment with a fresh id, newer than every stored one, that
    snapshots the caller's id and name. The post id is not looked up.
   */
  function CreateComment(session: Option<User>, s: Store, postId: Id, body: string): (r: Step<Id>)
    requires Valid(s)
    ensures session.None? ==> r == Step(Err(Unauthenticated), s)
    ensures session.Some? ==>
              && r.out.Ok?
              && r.store.posts == s.posts
              && |r.store.comments| == |s.comments| + 1
              && r.store.comments[..|s.comments|] == s.comments
              && var c := r.store.comments[|s.comments|];
                 && c.id == r.out.value
                 && c.fields == CommentFields(postId, body, session.value.id, session.value.name)
                 && s.clock <= c.id
                 && (forall e :: e in s.comments ==> e.id != c.id && e.creationTime < c.creationTime)
    ensures Valid(r.store)
  {
    match session
    case None => Step(Err(Unauthenticated), s)
    case Some(user) =>
      var fields := CommentFields(postId, body, user.id, user.name);
      Step(Ok(s.clock), s.(comments := Insert(s.comments, s.clock, fields), clock := s.clock + 1))
  }

  /**
    The checks deleteComment and updateComment make, in this order: a
    session, then a comment with the id, then that the caller wrote it.
   */
  function Authorize(session: Option<User>, s: Store, id: Id): (r: Result<Comment>)
    requires Valid(s)
    ensures session.None? ==> r == Err(Unauthenticated)
    ensures session.Some? && !Has(s.comments, id) ==> r == Err(NotFound)
    ensures session.Some? && Has(s.comments, id) && !OwnsComment(s, id, session.value.id) ==> r == Err(Forbidden)
    ensures r.Ok? <==> session.Some? && OwnsComment(s, id, session.value.id)
    ensures r.Ok? ==> r.value in s.comments && r.value.id == id
  {
    match session
    case None => Err(Unauthenticated)
    case Some(user) =>
      match Get(s.comments, id)
      case None => Err(NotFound)
      case Some(c) => if c.fields.authorId != user.id then Err(Forbidden) else Ok(c)
  }

  /**
    deleteComment: fails with Unauthenticated, NotFound or Forbidden, checked
    in that order, leaving the store as it was; otherwise removes exactly the
    target comment and keeps every other document.
   */
  function DeleteComment(session: Option<User>, s: Store, id: Id): (r: Step<()>)
    requires Valid(s)
    ensures session.None? ==> r == Step(Err(Unauthenticated), s)
    ensures session.Some? && !Has(s.comments, id) ==> r == Step(Err(NotFound), s)
    ensures session.Some? && Has(s.comments, id) && !OwnsComment(s, id, session.value.id) ==>
              r == Step(Err(Forbidden), s)
    ensures r.out.Ok? <==> session.Some? && OwnsComment(s, id, session.value.id)
    ensures r.out.Ok? ==>
              && r.store.posts == s.posts
              && r.store.clock == s.clock
              && (forall c :: c in r.store.comments <==> c in s.comments && c.id != id)
              && |r.store.comments| == |s.comments| - 1
    ensures Valid(r.store)
  {
    match Authorize(session, s, id)
    case Err(e) => Step(Err(e), s)
    case Ok(target) =>
      DeleteWellFormed(s.comments, s.clock, id);
      DeleteLength(s.comments, s.clock, target);
      Step(Ok(()), s.(comments := Delete(s.comments, id)))
  }

  /** The patch `{body}`: replaces the body and nothing else. */
  function SetBody(body: string): CommentFields -> CommentFields
  {
    (f: CommentFields) => f.(body := body)
  }

  /**
    updateComment: the same three checks as deleteComment, in the same order,
    leaving the store as it was on failure; otherwise only the target's body
    changes. Its id, creation time, post, author and author name stay, and
    every other comment and every post stays as it was.
   */
  function UpdateComment(session: Option<User>, s: Store, id: Id, body: string): (r: Step<()>)
    requires Valid(s)
    ensures session.None? ==> r == Step(Err(Unauthenticated), s)
    ensures session.Some? && !Has(s.comments, id) ==> r == Step(Err(NotFound), s)
    ensures session.Some? && Has(s.comments, id) && !OwnsComment(s, id, session.value.id) ==>
              r == Step(Err(Forbidden), s)
    ensures r.out.Ok? <==> session.Some? && OwnsComment(s, id, session.value.id)
    ensures r.out.Ok? ==>
              && r.store.posts == s.posts
              && r.store.clock == s.clock
              && |r.store.comments| == |s.comments|
              && forall i :: 0 <= i < |s.comments| ==>
                   var before, after := s.comments[i], r.store.comments[i];
                   && after.id == before.id
                   && after.creationTime == before.creationTime
                   && after.fields.postId == before.fields.postId
                   && after.fields.authorId == before.fields.authorId
                   && after.fields.authorName == before.fields.authorName
                   && after.fields.body == (if before.id == id then body else before.fields.body)
    ensures Valid(r.store)
  {
    match Authorize(session, s, id)
    case Err(e) => Step(Err(e), s)
    case Ok(_) =>
      PatchWellFormed(s.comments, s.clock, id, SetBody(body));
      Step(Ok(()), s.(comments := Patch(s.comments, id, SetBody(body))))
  }
}
