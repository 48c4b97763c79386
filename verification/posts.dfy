/**
  The post handlers and the account purge. Image URLs come from the blob
  store, which is outside the model: `getUrl` stands for its lookup
  (`ctx.storage.getUrl`, answering null for an unknown handle), and
  `uploadUrl` for the upload target it mints.
 */
module Posts {
  import opened Results
  import opened Table
  import opened Schema

  /** A post as the read queries return it: the document plus `imageUrl`. */
  datatype PostView = PostView(post: Post, imageUrl: Option<Url>)

  /** What getUserProfile copies out of the principal. */
  datatype Profile = Profile(id: UserId, name: string, email: string, image: Option<string>)

  /**
    createPost: with no session, fails and inserts nothing; otherwise appends
    one post with a fresh id, newer than every stored one, holding the given
    title, body and image handle and the caller as author, and returns its id.
   */
  function CreatePost(session: Option<User>, s: Store, title: string, body: string, imageStorageId: StorageId)
    : (r: Step<Id>)
    requires Valid(s)
    ensures session.None? ==> r == Step(Err(Unauthenticated), s)
    ensures session.Some? ==>
              && r.out.Ok?
              && r.store.comments == s.comments
              && |r.store.posts| == |s.posts| + 1
              && r.store.posts[..|s.posts|] == s.posts
              && var p := r.store.posts[|s.posts|];
                 && p.id == r.out.value
                 && p.fields == PostFields(title, body, session.value.id, Some(imageStorageId))
                 && s.clock <= p.id
                 && (forall e :: e in s.posts ==> e.id != p.id && e.creationTime < p.creationTime)
    ensures Valid(r.store)
  {
    match session
    case None => Step(Err(Unauthenticated), s)
    case Some(user) =>
      var fields := PostFields(title, body, user.id, Some(imageStorageId));
      Step(Ok(s.clock), s.(posts := Insert(s.posts, s.clock, fields), clock := s.clock + 1))
  }

  /** getPosts' presence test: a handle that is not `undefined` is looked up. */
  function ResolveIfDefined(p: Post, getUrl: StorageId -> Option<Url>): (r: Option<Url>)
    ensures p.fields.imageStorageId.None? ==> r.None?
    ensures p.fields.imageStorageId.Some? ==> r == getUrl(p.fields.imageStorageId.value)
  {
    match p.fields.imageStorageId
    case None => None
    case Some(h) => getUrl(h)
  }

  /** getPostById's presence test: only a truthy handle, so not the empty string, is looked up. */
  function ResolveIfTruthy(p: Post, getUrl: StorageId -> Option<Url>): (r: Option<Url>)
    ensures p.fields.imageStorageId != Some("") ==> r == ResolveIfDefined(p, getUrl)
    ensures p.fields.imageStorageId == Some("") ==> r.None?
  {
    match p.fields.imageStorageId
    case None => None
    case Some(h) => if h != "" then getUrl(h) else None
  }

  /**
    getPosts: every post, newest first, each with `imageUrl` looked up when
    its handle is present and null otherwise. A read: no store comes back.
   */
  function GetPosts(s: Store, getUrl: StorageId -> Option<Url>): (r: seq<PostView>)
    requires Valid(s)
    ensures forall p :: p in s.posts <==> exists i :: 0 <= i < |r| && r[i].post == p
    ensures forall i, j :: 0 <= i < j < |r| ==> r[i].post.creationTime > r[j].post.creationTime
    ensures forall i :: 0 <= i < |r| && r[i].post.fields.imageStorageId.None? ==> r[i].imageUrl.None?
    ensures forall i :: 0 <= i < |r| && r[i].post.fields.imageStorageId.Some? ==>
              r[i].imageUrl == getUrl(r[i].post.fields.imageStorageId.value)
  {
    var ps := NewestFirst(s.posts, (f: PostFields) => true);
    var r := seq(|ps|, i requires 0 <= i < |ps| => PostView(ps[i], ResolveIfDefined(ps[i], getUrl)));
    ViewsCoverPosts(ps, r);
    r
  }

  /** A listing of views, one per post of `ps` at the same position, shows exactly the posts of `ps`. */
  lemma ViewsCoverPosts(ps: seq<Post>, r: seq<PostView>)
    requires |r| == |ps| && forall i :: 0 <= i < |r| ==> r[i].post == ps[i]
    ensures forall p :: p in ps <==> exists i :: 0 <= i < |r| && r[i].post == p
  {
    forall p | p in ps
      ensures exists i :: 0 <= i < |r| && r[i].post == p
    {
      var i :| 0 <= i < |ps| && ps[i] == p;
      assert r[i].post == p;
    }
  }

  /** generateImageUploadUrl: no session fails; otherwise the blob store's upload URL. */
  function GenerateImageUploadUrl(session: Option<User>, uploadUrl: Url): (r: Result<Url>)
    ensures session.None? ==> r == Err(Unauthenticated)
    ensures session.Some? ==> r == Ok(uploadUrl)
  {
    if session.None? then Err(Unauthenticated) else Ok(uploadUrl)
  }

  /**
    getPostById: NotFound when no post has the id; otherwise that post, with
    `imageUrl` looked up only when its handle is present and non-empty.
   */
  function GetPostById(s: Store, id: Id, getUrl: StorageId -> Option<Url>): (r: Result<PostView>)
    requires Valid(s)
    ensures r.Err? <==> !Has(s.posts, id)
    ensures r.Err? ==> r.error == NotFound
    ensures r.Ok? ==> r.value.post in s.posts && r.value.post.id == id
    ensures r.Ok? && r.value.post.fields.imageStorageId.Some? && r.value.post.fields.imageStorageId.value != "" ==>
              r.value.imageUrl == getUrl(r.value.post.fields.imageStorageId.value)
    ensures r.Ok? && (r.value.post.fields.imageStorageId.None? || r.value.post.fields.imageStorageId.value == "") ==>
              r.value.imageUrl.None?
  {
    match Get(s.posts, id)
    case None => Err(NotFound)
    case Some(p) => Ok(PostView(p, ResolveIfTruthy(p, getUrl)))
  }

  /**
    Where the two presence tests agree: for every post whose handle is absent
    or non-empty, getPostById returns exactly the entry getPosts lists.
   */
  lemma GetPostByIdAgreesWithGetPosts(s: Store, getUrl: StorageId -> Option<Url>, i: nat)
    requires Valid(s) && i < |GetPosts(s, getUrl)|
    requires GetPosts(s, getUrl)[i].post.fields.imageStorageId != Some("")
    ensures GetPostById(s, GetPosts(s, getUrl)[i].post.id, getUrl) == Ok(GetPosts(s, getUrl)[i])
  {
    var v := GetPosts(s, getUrl)[i];
    assert v.post in s.posts;
    var r := GetPostById(s, v.post.id, getUrl);
    assert r.Ok? && r.value.post == v.post;
  }

  /**
    Where they differ: a post stored with the empty handle is listed by
    getPosts with whatever the blob store answers for it, but getPostById
    reports it with a null `imageUrl`.
   */
  lemma EmptyHandleResolvesDifferently(s: Store, getUrl: StorageId -> Option<Url>, i: nat)
    requires Valid(s) && i < |GetPosts(s, getUrl)|
    requires GetPosts(s, getUrl)[i].post.fields.imageStorageId == Some("")
    ensures GetPosts(s, getUrl)[i].imageUrl == getUrl("")
    ensures GetPostById(s, GetPosts(s, getUrl)[i].post.id, getUrl).value.imageUrl == None
  {
    var v := GetPosts(s, getUrl)[i];
    assert v.post in s.posts;
  }

  /** The filter `authorId == author` over posts. */
  function PostBy(author: UserId): Post -> bool
  {
    (p: Post) => p.fields.authorId == author
  }

  /** The scan of a caller's posts has one entry per distinct post they wrote. */
  lemma OwnPostsCount(s: Store, author: UserId)
    requires Valid(s)
    ensures |Filter(s.posts, PostBy(author))| == |set p | p in s.posts && p.fields.authorId == author|
  {
    OrderedDistinct(s.posts);
    FilterCount(s.posts, PostBy(author), set p | p in s.posts && p.fields.authorId == author);
  }

  /**
    getUserPostsCount: 0 with no session; otherwise the number of stored
    posts the caller wrote, which is 0 for a caller who wrote none.
   */
  function GetUserPostsCount(session: Option<User>, s: Store): (r: nat)
    requires Valid(s)
    ensures session.None? ==> r == 0
    ensures session.Some? ==> r == |set p | p in s.posts && p.fields.authorId == session.value.id|
    ensures session.Some? && (forall p :: p in s.posts ==> p.fields.authorId != session.value.id) ==> r == 0
  {
    match session
    case None => 0
    case Some(user) =>
      OwnPostsCount(s, user.id);
      |Filter(s.posts, PostBy(user.id))|
  }

  /** getUserProfile: null with no session; otherwise the principal's id, name, email and image. */
  function GetUserProfile(session: Option<User>): (r: Option<Profile>)
    ensures r.None? <==> session.None?
    ensures r.Some? ==>
              && r.value.id == session.value.id
              && r.value.name == session.value.name
              && r.value.email == session.value.email
              && r.value.image == session.value.image
  {
    match session
    case None => None
    case Some(user) => Some(Profile(user.id, user.name, user.email, user.image))
  }

  /** The filter `authorId == author` over comments. */
  function CommentBy(author: UserId): Comment -> bool
  {
    (c: Comment) => c.fields.authorId == author
  }

  /** The filter that keeps posts not written by `author`. */
  function PostNotBy(author: UserId): Post -> bool
  {
    (p: Post) => p.fields.authorId != author
  }

  /** The filter that keeps comments not written by `author`. */
  function CommentNotBy(author: UserId): Comment -> bool
  {
    (c: Comment) => c.fields.authorId != author
  }

  /**
    deleteUserData: no session fails and changes nothing; otherwise no post or
    comment written by the caller remains, every other post and comment stays,
    including other users' comments on the caller's posts, and the result is
    `{success: true}`.
   */
  function DeleteUserData(session: Option<User>, s: Store): (r: Step<bool>)
    requires Valid(s)
    ensures session.None? ==> r == Step(Err(Unauthenticated), s)
    ensures session.Some? ==>
              && r.out == Ok(true)
              && r.store.clock == s.clock
              && (forall p :: p in r.store.posts <==> p in s.posts && p.fields.authorId != session.value.id)
              && (forall c :: c in r.store.comments <==> c in s.comments && c.fields.authorId != session.value.id)
    ensures Valid(r.store)
  {
    match session
    case None => Step(Err(Unauthenticated), s)
    case Some(user) =>
      FilterWellFormed(s.posts, s.clock, PostNotBy(user.id));
      FilterWellFormed(s.comments, s.clock, CommentNotBy(user.id));
      Step(Ok(true), Store(Filter(s.posts, PostNotBy(user.id)), Filter(s.comments, CommentNotBy(user.id)), s.clock))
  }

  /**
    The `for … of` loop of deleteUserData: deletes, one `ctx.db.delete` at a
    time, every document of `targets`, which the scan took from `t`.
   */
  method DeleteEach<F(==,!new)>(t: seq<Doc<F>>, clock: nat, targets: seq<Doc<F>>) returns (r: seq<Doc<F>>)
    requires WellFormed(t, clock)
    requires forall d :: d in targets ==> d in t
    ensures WellFormed(r, clock)
    ensures forall d :: d in r <==> d in t && d !in targets
  {
    r := t;
    var i := 0;
    while i < |targets|
      invariant 0 <= i <= |targets|
      invariant WellFormed(r, clock)
      invariant forall d :: d in r <==> d in t && d !in targets[..i]
    {
      var target := targets[i];
      DeleteWellFormed(r, clock, target.id);
      assert targets[..i + 1] == targets[..i] + [target];
      assert target in t;
      r := Delete(r, target.id);
      i := i + 1;
    }
    assert targets[..i] == targets;
  }

  /**
    deleteUserData as the handler runs it: scan the caller's posts and delete
    them one by one, then scan the caller's comments and delete those. It ends
    in the same state as the one-shot `DeleteUserData`.
   */
  method DeleteUserDataByRows(session: Option<User>, s: Store) returns (r: Step<bool>)
    requires Valid(s)
    ensures r == DeleteUserData(session, s)
  {
    if session.None? {
      return Step(Err(Unauthenticated), s);
    }
    var userId := session.value.id;
    var ownPosts := Filter(s.posts, PostBy(userId));
    var posts := DeleteEach(s.posts, s.clock, ownPosts);
    var ownComments := Filter(s.comments, CommentBy(userId));
    var comments := DeleteEach(s.comments, s.clock, ownComments);
    r := Step(Ok(true), Store(posts, comments, s.clock));
    var oneShot := DeleteUserData(session, s).store;
    AscendingUnique(posts, oneShot.posts);
    AscendingUnique(comments, oneShot.comments);
  }
}
