/**
  The two collections the handlers work on, `posts` and `comments`, their
  user fields, the signed-in principal, and the invariant the database keeps
  over every state it can reach.
 */
module Schema {
  import opened Results
  import opened Table

  type UserId = string
  /** An opaque handle into the blob store. */
  type StorageId = string
  type Url = string

  /** The principal the auth provider reports for the current session. */
  datatype User = User(id: UserId, name: string, email: string, image: Option<string>)

  /** User fields of a `posts` document. */
  datatype PostFields = PostFields(
    title: string,
    body: string,
    authorId: UserId,
    imageStorageId: Option<StorageId>)

  /** User fields of a `comments` document; `authorName` is a snapshot taken at creation. */
  datatype CommentFields = CommentFields(
    postId: Id,
    body: string,
    authorId: UserId,
    authorName: string)

  type Post = Doc<PostFields>
  type Comment = Doc<CommentFields>

  /**
    The database: both collections in insertion order, and the clock from which
    every insert draws its fresh id and its creation time.
   */
  datatype Store = Store(posts: seq<Post>, comments: seq<Comment>, clock: nat)

  /** A handler's outcome: what it returned or threw, and the store after it. */
  datatype Step<+T> = Step(out: Result<T>, store: Store)

  /** The empty database. */
  const Empty: Store := Store([], [], 0)

  /**
    What the database guarantees of every state: each collection is in strictly
    increasing creation order, an id names at most one document, and every id
    and creation time is older than the clock.
   */
  predicate Valid(s: Store)
    ensures Valid(s) ==> !Has(s.posts, s.clock) && !Has(s.comments, s.clock)
    ensures Valid(s) ==> forall i, j :: 0 <= i < j < |s.posts| ==> s.posts[i].id != s.posts[j].id
    ensures Valid(s) ==> forall i, j :: 0 <= i < j < |s.comments| ==> s.comments[i].id != s.comments[j].id
  {
    WellFormed(s.posts, s.clock) && WellFormed(s.comments, s.clock)
  }

  /** The empty database is a valid state. */
  lemma EmptyValid()
    ensures Valid(Empty)
  {
  }

  /** Whether `id` names a comment of `s` written by `author`. */
  predicate OwnsComment(s: Store, id: Id, author: UserId)
  {
    exists c :: c in s.comments && c.id == id && c.fields.authorId == author
  }
}
