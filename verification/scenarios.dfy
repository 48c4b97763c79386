/**
  Properties that relate several handler calls: what a read sees after a
  write, what a second write sees after the first, and the invariant every
  sequence of calls keeps.
 */
module Scenarios {
  import opened Results
  import opened Table
  import opened Schema
  import opened Comments
  import opened Posts

  /**
    After a successful createComment, listing the comments of that post shows
    the new comment first, with the given body and the creator as author,
    followed by exactly the listing from before.
   */
  lemma CreateThenListComments(s: Store, user: User, postId: Id, body: string)
    requires Valid(s)
    ensures var r := CreateComment(Some(user), s, postId, body);
            var before, after := GetCommentsByPostId(s, postId), GetCommentsByPostId(r.store, postId);
            && r.out.Ok?
            && |after| == |before| + 1
            && after[0].id == r.out.value
            && after[0].fields.body == body
            && after[0].fields.authorId == user.id
            && after[1..] == before
  {
    var r := CreateComment(Some(user), s, postId, body);
    var before, after := GetCommentsByPostId(s, postId), GetCommentsByPostId(r.store, postId);
    var c := r.store.comments[|s.comments|];
    assert r.store.comments == s.comments + [c];
    PrependNewest(c, before, after);
  }

  /** A comment as it reads after the patch `{body}` on comment `id`. */
  function WithBody(d: Comment, id: Id, body: string): Comment
  {
    if d.id == id then d.(fields := d.fields.(body := body)) else d
  }

  /** The author's update rewrites the comment collection position by position. */
  lemma UpdatedComments(s: Store, user: User, c: Comment, body: string)
    requires Valid(s)
    requires c in s.comments && c.fields.authorId == user.id
    ensures var r := UpdateComment(Some(user), s, c.id, body);
            && r.out.Ok?
            && |r.store.comments| == |s.comments|
            && forall k :: 0 <= k < |s.comments| ==> r.store.comments[k] == WithBody(s.comments[k], c.id, body)
  {
    assert OwnsComment(s, c.id, user.id);
  }

  /**
    After the author updates a comment, the listing of its post is the listing
    from before with that comment's body replaced in place: same length, same
    order, every other entry unchanged, and the comment's id, creation time,
    author and author name as before.
   */
  lemma UpdateThenListComments(s: Store, user: User, c: Comment, body: string)
    requires Valid(s)
    requires c in s.comments && c.fields.authorId == user.id
    ensures var r := UpdateComment(Some(user), s, c.id, body);
            var before, after := GetCommentsByPostId(s, c.fields.postId), GetCommentsByPostId(r.store, c.fields.postId);
            && r.out.Ok?
            && |after| == |before|
            && (forall i :: 0 <= i < |before| ==> after[i] == WithBody(before[i], c.id, body))
            && c.(fields := c.fields.(body := body)) in after
  {
    var r := UpdateComment(Some(user), s, c.id, body);
    var p := c.fields.postId;
    var before, after := GetCommentsByPostId(s, p), GetCommentsByPostId(r.store, p);
    UpdatedComments(s, user, c, body);
    ListingAfterPatch(s.comments, r.store.comments, before, after, p, c.id, body);
    assert c in before;
    var i :| 0 <= i < |before| && before[i] == c;
    assert after[i] == c.(fields := c.fields.(body := body));
  }

  /**
    If a collection is patched position by position with `WithBody`, the
    newest-first listing of one post afterwards is the listing before,
    patched in place (`was` before the patch, `now` after).
   */
  lemma ListingAfterPatch(
    was: seq<Comment>, now: seq<Comment>, before: seq<Comment>, after: seq<Comment>,
    p: Id, id: Id, body: string)
    requires |now| == |was|
    requires forall k :: 0 <= k < |was| ==> now[k] == WithBody(was[k], id, body)
    requires forall d :: d in before <==> d in was && d.fields.postId == p
    requires forall d :: d in after <==> d in now && d.fields.postId == p
    requires Descending(before) && Descending(after)
    ensures |after| == |before|
    ensures forall i :: 0 <= i < |before| ==> after[i] == WithBody(before[i], id, body)
  {
    var expected := seq(|before|, i requires 0 <= i < |before| => WithBody(before[i], id, body));
    forall d | d in after
      ensures d in expected
    {
      var k :| 0 <= k < |now| && now[k] == d;
      assert was[k] in before;
      var i :| 0 <= i < |before| && before[i] == was[k];
      assert expected[i] == d;
    }
    forall d | d in expected
      ensures d in after
    {
      var i :| 0 <= i < |expected| && expected[i] == d;
      assert before[i] in was;
      var k :| 0 <= k < |was| && was[k] == before[i];
      assert now[k] == d;
    }
    DescendingUnique(after, expected);
  }

  /** Deleting the same comment twice: the second call fails with NotFound and changes nothing. */
  lemma DeleteTwice(user: User, s: Store, id: Id)
    requires Valid(s)
    requires DeleteComment(Some(user), s, id).out.Ok?
    ensures var s1 := DeleteComment(Some(user), s, id).store;
            DeleteComment(Some(user), s1, id) == Step(Err(NotFound), s1)
  {
    var s1 := DeleteComment(Some(user), s, id).store;
    assert !Has(s1.comments, id);
  }

  /** A deleted comment no longer appears in the listing of any post. */
  lemma DeletedCommentNotListed(user: User, s: Store, id: Id, postId: Id)
    requires Valid(s)
    requires DeleteComment(Some(user), s, id).out.Ok?
    ensures forall c :: c in GetCommentsByPostId(DeleteComment(Some(user), s, id).store, postId) ==> c.id != id
  {
  }

  /** Whoever did not write a comment can neither update nor delete it, and the store stays as it was. */
  lemma OnlyTheAuthorMayChange(s: Store, user: User, c: Comment, body: string)
    requires Valid(s)
    requires c in s.comments && c.fields.authorId != user.id
    ensures DeleteComment(Some(user), s, c.id) == Step(Err(Forbidden), s)
    ensures UpdateComment(Some(user), s, c.id, body) == Step(Err(Forbidden), s)
  {
    assert Has(s.comments, c.id);
  }

  /**
    deleteUserData does not cascade: another user's comment on one of the
    caller's posts survives, and the post it names no longer exists.
   */
  lemma PurgeLeavesOrphans(s: Store, user: User, p: Post, c: Comment)
    requires Valid(s)
    requires p in s.posts && p.fields.authorId == user.id
    requires c in s.comments && c.fields.postId == p.id && c.fields.authorId != user.id
    ensures var after := DeleteUserData(Some(user), s).store;
            c in after.comments && !Has(after.posts, c.fields.postId)
  {
    var after := DeleteUserData(Some(user), s).store;
    forall q | q in after.posts
      ensures q.id != p.id
    {
      assert q in s.posts;
    }
  }

  /**
    The account-deletion walk-through: A writes a post, B comments on it, A
    deletes their data. The post is gone, B's comment is still stored, and no
    post carries the id the comment names.
   */
  lemma PurgeWalkThrough(a: User, b: User, title: string, body: string, image: StorageId, text: string)
    requires a.id != b.id
    ensures var s1 := CreatePost(Some(a), Empty, title, body, image);
            var s2 := CreateComment(Some(b), s1.store, s1.out.value, text);
            var s3 := DeleteUserData(Some(a), s2.store);
            && s1.out.Ok? && s2.out.Ok? && s3.out == Ok(true)
            && s3.store.posts == []
            && |s3.store.comments| == 1
            && s3.store.comments[0].fields == CommentFields(s1.out.value, text, b.id, b.name)
            && !Has(s3.store.posts, s3.store.comments[0].fields.postId)
  {
    EmptyValid();
    var s1 := CreatePost(Some(a), Empty, title, body, image);
    var s2 := CreateComment(Some(b), s1.store, s1.out.value, text);
    var s3 := DeleteUserData(Some(a), s2.store);
    var p := s1.store.posts[0];
    var c := s2.store.comments[0];
    assert s2.store.posts == [p];
    assert s2.store.comments == [c];
    PurgeLeavesOrphans(s2.store, a, p, c);
    HeadMember(s3.store.posts);
    AscendingUnique(s3.store.comments, [c]);
  }

  /** After deleteUserData the caller's post count is 0. */
  lemma PurgeThenCountIsZero(s: Store, user: User)
    requires Valid(s)
    ensures GetUserPostsCount(Some(user), DeleteUserData(Some(user), s).store) == 0
  {
  }

  /** After deleteUserData no listed post is the caller's. */
  lemma PurgeThenListHasNoOwnPost(s: Store, user: User, getUrl: StorageId -> Option<Url>)
    requires Valid(s)
    ensures forall v :: v in GetPosts(DeleteUserData(Some(user), s).store, getUrl) ==>
              v.post.fields.authorId != user.id
  {
    var after := DeleteUserData(Some(user), s).store;
    var r := GetPosts(after, getUrl);
    forall v | v in r
      ensures v.post.fields.authorId != user.id
    {
      var i :| 0 <= i < |r| && r[i] == v;
      assert v.post in after.posts;
    }
  }

  /**
    The profile page's two reads agree with createPost: the profile's id is
    the author id createPost stamps on the new post, and after the post the
    page's count grows by exactly one. Signed out, the page shows no profile
    and a count of 0 before and after.
   */
  lemma ProfileCountsOwnPosts(session: Option<User>, s: Store, title: string, body: string, image: StorageId)
    requires Valid(s)
    ensures var r := CreatePost(session, s, title, body, image);
            GetUserProfile(session).Some? ==>
              && |r.store.posts| == |s.posts| + 1
              && r.store.posts[|s.posts|].fields.authorId == GetUserProfile(session).value.id
              && GetUserPostsCount(session, r.store) == GetUserPostsCount(session, s) + 1
    ensures GetUserProfile(session).None? ==>
              GetUserPostsCount(session, CreatePost(session, s, title, body, image).store) == 0
  {
    if session.Some? {
      var author := session.value.id;
      var r := CreatePost(session, s, title, body, image);
      var q := r.store.posts[|s.posts|];
      var before := set p | p in s.posts && p.fields.authorId == author;
      var after := set p | p in r.store.posts && p.fields.authorId == author;
      assert r.store.posts == s.posts + [q];
      assert q !in before;
      assert after == before + {q};
    }
  }

  /**
    Signed out, every mutation is refused before it touches the store, and
    the upload URL is refused the same way: no call changes anything.
   */
  lemma SignedOutChangesNothing(s: Store, call: Call, uploadUrl: Url)
    requires Valid(s)
    ensures Apply(None, s, call) == s
    ensures GenerateImageUploadUrl(None, uploadUrl) == Err(Unauthenticated)
  {
  }

  /**
    The upload URL that precedes createPost on the client is gated exactly
    like createPost: one is refused precisely when the other is, and both
    then with Unauthenticated.
   */
  lemma UploadGatedLikeCreatePost(
    session: Option<User>, s: Store, uploadUrl: Url, title: string, body: string, image: StorageId)
    requires Valid(s)
    ensures var u, r := GenerateImageUploadUrl(session, uploadUrl), CreatePost(session, s, title, body, image);
            && (u.Ok? <==> r.out.Ok?)
            && (u.Err? ==> u.error == Unauthenticated && r == Step(Err(Unauthenticated), s))
  {
  }

  /** The mutations a client can send, with their arguments. */
  datatype Call =
    | CreatePostCall(title: string, body: string, image: StorageId)
    | CreateCommentCall(postId: Id, text: string)
    | DeleteCommentCall(commentId: Id)
    | UpdateCommentCall(commentId: Id, text: string)
    | DeleteUserDataCall

  /** What no handler rewrites in a comment: everything but its body. */
  predicate SameButBody(c: Comment, d: Comment)
  {
    && d.creationTime == c.creationTime
    && d.fields.postId == c.fields.postId
    && d.fields.authorId == c.fields.authorId
    && d.fields.authorName == c.fields.authorName
  }

  /**
    From `s` to `s'`, a post that keeps its id keeps every field, and a comment
    that keeps its id keeps all but its body.
   */
  predicate Stable(s: Store, s': Store)
  {
    && (forall p, q :: p in s.posts && q in s'.posts && p.id == q.id ==> p == q)
    && (forall c, d :: c in s.comments && d in s'.comments && c.id == d.id ==> SameButBody(c, d))
  }

  /** Every document of `s'` was already in `s` under its id, or has an id never issued before `s`. */
  predicate FromBefore(s: Store, s': Store)
  {
    && (forall q :: q in s'.posts && !Has(s.posts, q.id) ==> s.clock <= q.id)
    && (forall d :: d in s'.comments && !Has(s.comments, d.id) ==> s.clock <= d.id)
  }

  /**
    Two steps that each keep old documents and only add fresh ones do so
    together: an id of the first state is below every later clock, so it can
    only name the same document, or none, further on.
   */
  lemma {:induction false} StableCompose(s: Store, s1: Store, s2: Store)
    requires Valid(s) && s.clock <= s1.clock
    requires Stable(s, s1) && FromBefore(s, s1)
    requires Stable(s1, s2) && FromBefore(s1, s2)
    ensures Stable(s, s2) && FromBefore(s, s2)
  {
    forall p, q | p in s.posts && q in s2.posts && p.id == q.id
      ensures p == q
    {
      assert Has(s1.posts, q.id);
      var m :| m in s1.posts && m.id == q.id;
    }
    forall c, d | c in s.comments && d in s2.comments && c.id == d.id
      ensures SameButBody(c, d)
    {
      assert Has(s1.comments, d.id);
      var m :| m in s1.comments && m.id == d.id;
    }
    forall q | q in s2.posts && !Has(s.posts, q.id)
      ensures s.clock <= q.id
    {
      if Has(s1.posts, q.id) {
        var m :| m in s1.posts && m.id == q.id;
      }
    }
    forall d | d in s2.comments && !Has(s.comments, d.id)
      ensures s.clock <= d.id
    {
      if Has(s1.comments, d.id) {
        var m :| m in s1.comments && m.id == d.id;
      }
    }
  }

  /** createPost adds one post with a fresh id and leaves every other document as it was. */
  lemma CreatePostKeeps(session: Option<User>, s: Store, title: string, body: string, image: StorageId)
    requires Valid(s)
    ensures var s' := CreatePost(session, s, title, body, image).store;
            && Stable(s, s') && FromBefore(s, s')
            && s'.comments == s.comments
            && (forall p :: p in s.posts ==> p in s'.posts)
            && |s'.posts| <= |s.posts| + 1
  {
    var s' := CreatePost(session, s, title, body, image).store;
    if session.Some? {
      assert s'.posts == s.posts + [s'.posts[|s.posts|]];
    }
  }

  /** createComment adds one comment with a fresh id and leaves every other document as it was. */
  lemma CreateCommentKeeps(session: Option<User>, s: Store, postId: Id, text: string)
    requires Valid(s)
    ensures var s' := CreateComment(session, s, postId, text).store;
            && Stable(s, s') && FromBefore(s, s')
            && s'.posts == s.posts
            && (forall c :: c in s.comments ==> c in s'.comments)
            && |s'.comments| <= |s.comments| + 1
  {
    var s' := CreateComment(session, s, postId, text).store;
    if session.Some? {
      assert s'.comments == s.comments + [s'.comments[|s.comments|]];
    }
  }

  /** deleteComment only removes documents. */
  lemma DeleteCommentKeeps(session: Option<User>, s: Store, id: Id)
    requires Valid(s)
    ensures var s' := DeleteComment(session, s, id).store;
            && Stable(s, s') && FromBefore(s, s')
            && s'.posts == s.posts
            && (forall c :: c in s'.comments ==> c in s.comments)
  {
    var r := DeleteComment(session, s, id);
    if r.out.Ok? {
      var s' := r.store;
      assert s'.posts == s.posts;
      forall c, d | c in s.comments && d in s'.comments && c.id == d.id
        ensures SameButBody(c, d)
      {
        assert d in s.comments;
      }
      forall d | d in s'.comments
        ensures Has(s.comments, d.id)
      {
        assert d in s.comments;
      }
    }
  }

  /** updateComment rewrites one body and nothing else. */
  lemma UpdateCommentKeeps(session: Option<User>, s: Store, id: Id, text: string)
    requires Valid(s)
    ensures var s' := UpdateComment(session, s, id, text).store;
            && Stable(s, s') && FromBefore(s, s')
            && s'.posts == s.posts
            && |s'.comments| == |s.comments|
            && (forall c :: c in s.comments ==> Has(s'.comments, c.id))
            && (forall d :: d in s'.comments ==> Has(s.comments, d.id))
            && (forall d :: d in s'.comments && d.id != id ==> d in s.comments)
  {
    var s' := UpdateComment(session, s, id, text).store;
    if UpdateComment(session, s, id, text).out.Ok? {
      forall k | 0 <= k < |s.comments|
        ensures s'.comments[k].id == s.comments[k].id && SameButBody(s.comments[k], s'.comments[k])
        ensures s.comments[k].id != id ==> s'.comments[k] == s.comments[k]
      {
      }
      BodyPatchKeeps(s.comments, s'.comments, id);
    }
  }

  /**
    A collection rewritten position by position, each entry keeping its id
    and all but its body and every entry but `id` kept whole, has the same
    ids as before, and every entry other than `id` was there before.
   */
  lemma BodyPatchKeeps(was: seq<Comment>, now: seq<Comment>, id: Id)
    requires IdsDetermineDocs(was) && |now| == |was|
    requires forall k :: 0 <= k < |was| ==> now[k].id == was[k].id && SameButBody(was[k], now[k])
    requires forall k :: 0 <= k < |was| && was[k].id != id ==> now[k] == was[k]
    ensures forall c, d :: c in was && d in now && c.id == d.id ==> SameButBody(c, d)
    ensures forall c :: c in was ==> Has(now, c.id)
    ensures forall d :: d in now ==> Has(was, d.id)
    ensures forall d :: d in now && d.id != id ==> d in was
  {
    forall c, d | c in was && d in now && c.id == d.id
      ensures SameButBody(c, d)
    {
      var k :| 0 <= k < |now| && now[k] == d;
      assert was[k] in was;
    }
    forall d | d in now
      ensures Has(was, d.id)
    {
      var k :| 0 <= k < |now| && now[k] == d;
      assert was[k] in was;
    }
    forall d | d in now && d.id != id
      ensures d in was
    {
      var k :| 0 <= k < |now| && now[k] == d;
      assert was[k] in was;
    }
    forall c | c in was
      ensures Has(now, c.id)
    {
      var k :| 0 <= k < |was| && was[k] == c;
      assert now[k] in now;
    }
  }

  /** deleteUserData only removes documents. */
  lemma DeleteUserDataKeeps(session: Option<User>, s: Store)
    requires Valid(s)
    ensures var s' := DeleteUserData(session, s).store;
            && Stable(s, s') && FromBefore(s, s')
            && (forall p :: p in s'.posts ==> p in s.posts)
            && (forall c :: c in s'.comments ==> c in s.comments)
  {
  }

  /** One mutation as an atomic transition: the store after it, whether it succeeded or failed. */
  function Apply(session: Option<User>, s: Store, call: Call): (s': Store)
    requires Valid(s)
    ensures Valid(s')
    ensures s'.clock >= s.clock
    ensures Stable(s, s') && FromBefore(s, s')
  {
    match call
    case CreatePostCall(title, body, image) =>
      CreatePostKeeps(session, s, title, body, image);
      CreatePost(session, s, title, body, image).store
    case CreateCommentCall(postId, text) =>
      CreateCommentKeeps(session, s, postId, text);
      CreateComment(session, s, postId, text).store
    case DeleteCommentCall(id) =>
      DeleteCommentKeeps(session, s, id);
      DeleteComment(session, s, id).store
    case UpdateCommentCall(id, text) =>
      UpdateCommentKeeps(session, s, id, text);
      UpdateComment(session, s, id, text).store
    case DeleteUserDataCall =>
      DeleteUserDataKeeps(session, s);
      DeleteUserData(session, s).store
  }

  /**
    A history of mutations, each with the session it ran under, applied in
    order. Every state it passes through is valid and the clock never runs
    backwards, so every id handed out is fresh for good.
   */
  function Run(s: Store, history: seq<(Option<User>, Call)>): (s': Store)
    requires Valid(s)
    ensures Valid(s')
    ensures s'.clock >= s.clock
    ensures Stable(s, s') && FromBefore(s, s')
    decreases |history|
  {
    if |history| == 0 then s
    else
      var s1 := Apply(history[0].0, s, history[0].1);
      StableCompose(s, s1, Run(s1, history[1..]));
      Run(s1, history[1..])
  }
}
