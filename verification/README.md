# Ownership-checked posts and comments, modelled in Dafny

This project models the server side of a small blogging application. Two
document collections, `posts` and `comments`, sit behind a handful of query and
mutation handlers (`convex/posts.ts`, `convex/comments.ts`). Every mutation
follows the same steps, skipping those that do not apply:

1. An authentication gate: the session's user, or `Unauthenticated`.
2. For delete and update, an existence check: `NotFound`.
3. For delete and update, an ownership check, `authorId == user._id`: `Forbidden`.
4. Then at most one insert, patch or delete: none for `generateImageUploadUrl`, and row by row for the purge.

`getPosts` and `getCommentsByPostId` are scans collected newest first; `getPostById` is a point lookup; `getUserPostsCount` counts a filtered scan; `getUserProfile` reads only the session.

The model is functional. Each handler is a pure function of the session (an
`Option<User>`) and the store, and returns what the handler returned or threw
(`Result`) together with the store afterwards (`Step`). On every failure the
store comes back unchanged. Reads return their value only, so they cannot
change the store.

- `results.dfy`, module `Results`: `Option`, the error kinds `Unauthenticated | NotFound | Forbidden`, and `Result`.
- `table.dfy`, module `Table`: one collection of the document database.
  - Documents are `Doc<F>`: an `_id`, a `_creationTime` and user fields `F`.
  - Operations: insert, point lookup, patch, delete, and filtered scans in either order.
  - Lemmas: a newest-first listing is fixed by its members, filters keep order, and filter lengths.
- `schema.dfy`, module `Schema`: the post and comment fields, the user, and the `Store`.
  - The store holds both collections and a clock. Each insert takes a fresh id and its creation time from the clock.
  - `Valid` is what the database guarantees of every state.
- `comments.dfy`, module `Comments`: `getCommentsByPostId`, `createComment`, `deleteComment` and `updateComment`.
- `posts.dfy`, module `Posts`: `createPost`, `getPosts`, `generateImageUploadUrl`, `getPostById`, `getUserPostsCount`, `getUserProfile` and `deleteUserData`.
  - `deleteUserData` appears twice: as a one-shot function, and as the row-by-row delete loops the handler runs. The two are proved equal.
- `scenarios.dfy`, module `Scenarios`: properties that span several calls, and `Run`. `Run` applies any history of mutations and keeps the store valid.

The blob store is outside the model:
- `getUrl: StorageId -> Option<Url>` stands for `ctx.storage.getUrl`. It may answer null.
- `uploadUrl` stands for the target that `ctx.storage.generateUploadUrl()` mints.

The auth provider's `safeGetAuthUser` is the `session` argument.

Two behaviours of the code that are easy to miss, both modelled as written:

- `getPostById` does not resolve the image the way `getPosts` does.
  - `getPosts` looks up any handle that is not `undefined` (`convex/posts.ts:31`).
  - `getPostById` looks up only a truthy handle (`convex/posts.ts:57`), so an empty-string handle yields a null `imageUrl`.
  - `Posts.GetPostByIdAgreesWithGetPosts` and `Posts.EmptyHandleResolvesDifferently` pin down both behaviours.
  - The difference cannot show through these handlers alone. `createPost`'s `v.id("_storage")` argument validator (`convex/posts.ts:6`) rejects the empty string, so no stored post carries an empty handle. The model's `CreatePost` takes the handle as given, so both behaviours stay visible.
- `createComment` never checks that the post exists. The argument validator only checks the id's table, so a comment can name any post id. The model accepts any id.

## Model

| member | source | states |
|---|---|---|
| `Table.Get` | convex/comments.ts:49-52 | a lookup returns a stored document with the requested id, or none only when no stored document has that id |
| `Table.Insert` | convex/comments.ts:29-34 | an insert appends one document stamped from the clock, keeps every existing document in place, and keeps the collection well formed under the advanced clock |
| `Table.Patch` | convex/comments.ts:80 | a patch keeps every id and creation time and changes only the fields of the named document |
| `Table.PatchWellFormed` | convex/comments.ts:80 | a patch keeps the collection well formed |
| `Table.Delete` | convex/comments.ts:58 | a delete keeps exactly the documents with a different id |
| `Table.DeleteLength` | convex/comments.ts:58 | deleting a present document removes exactly one entry |
| `Table.Reverse` | convex/comments.ts:10 | reading a collection back to front keeps its length and puts entry `i` at position `length - 1 - i` |
| `Table.ReverseFlipsOrder` | convex/posts.ts:27 | read back to front, an insertion-ordered collection is newest first (and the reverse), with the same members |
| `Table.Filter` | convex/comments.ts:8-11 | a filtered scan holds exactly the stored elements that pass the filter |
| `Table.FilterAscending` | convex/comments.ts:8-11 | filtering keeps creation order |
| `Table.FilterWellFormed` | convex/posts.ts:118-133 | dropping documents keeps ids unique, order and the clock bound |
| `Table.NewestFirst` | convex/comments.ts:8-11 | `.filter().order("desc").collect()` lists exactly the matching documents in strictly decreasing creation time |
| `Table.DescendingUnique` | convex/comments.ts:10 | two newest-first listings with the same members are the same listing, so the listing is determined by filter and order |
| `Table.AscendingUnique` | convex/posts.ts:118-133 | two insertion-ordered collections with the same members are equal |
| `Table.FilterCount` | convex/posts.ts:80-84 | on a repetition-free collection, a scan's length is the number of distinct documents it selects |
| `Schema.Valid` | convex/comments.ts:29-34 | the database invariant: each collection in strictly increasing creation order, one document per id, all ids and creation times below the clock; it implies ids are unique position by position and the clock's next id is unused. `Schema.EmptyValid` establishes it, every handler keeps it, and `Scenarios.Apply` and `Scenarios.Run` carry it through any history |
| `Comments.GetCommentsByPostId` | convex/comments.ts:5-15 | returns exactly the comments whose `postId` is the argument, newest first, and no store |
| `Comments.CreateComment` | convex/comments.ts:17-38 | no session gives Unauthenticated with the store unchanged; otherwise one comment is appended with a fresh id, newer than all others, the given post and body, and the caller's id and name; all other documents unchanged |
| `Comments.Authorize` | convex/comments.ts:43-56 | no session gives Unauthenticated, then a missing id gives NotFound, then another author gives Forbidden; it passes exactly when the caller wrote the comment |
| `Comments.DeleteComment` | convex/comments.ts:40-60 | the three checks in order, store unchanged on each failure; success exactly when the caller wrote the comment, and then only that comment is removed (one entry fewer), posts and clock unchanged |
| `Comments.UpdateComment` | convex/comments.ts:62-82 | the three checks in order, store unchanged on each failure; on success only the target's body changes, while id, creation time, post, author and author name stay; every other document is unchanged |
| `Posts.CreatePost` | convex/posts.ts:5-22 | no session gives Unauthenticated with the store unchanged; otherwise one post is appended with a fresh id, newer than all others, the given title, body and image handle, and the caller as author; its id is returned |
| `Posts.ResolveIfDefined` | convex/posts.ts:31 | `getPosts`' image lookup: null when the post has no handle, and the blob store's answer for the handle exactly when one is present |
| `Posts.ResolveIfTruthy` | convex/posts.ts:57 | `getPostById`'s image lookup: the same as `getPosts`' lookup for every handle except the empty string, which yields null |
| `Posts.GetPosts` | convex/posts.ts:24-39 | lists every stored post and nothing else, newest first; `imageUrl` is the blob store's answer when the handle is present and null otherwise |
| `Posts.GenerateImageUploadUrl` | convex/posts.ts:41-51 | no session gives Unauthenticated; otherwise the blob store's upload URL |
| `Posts.GetPostById` | convex/posts.ts:53-69 | NotFound exactly when no post has the id; otherwise that post, with `imageUrl` looked up only for a present, non-empty handle |
| `Posts.GetPostByIdAgreesWithGetPosts` | convex/posts.ts:56-66 | for a post whose handle is absent or non-empty, `getPostById` returns exactly the entry `getPosts` lists |
| `Posts.EmptyHandleResolvesDifferently` | convex/posts.ts:57 | for an empty-string handle, `getPosts` reports the blob store's answer but `getPostById` reports null |
| `Posts.OwnPostsCount` | convex/posts.ts:80-84 | the scan of a caller's posts has one entry per distinct post they wrote |
| `Posts.GetUserPostsCount` | convex/posts.ts:71-86 | 0 with no session; otherwise the number of posts the caller wrote, which is 0 when they wrote none |
| `Posts.GetUserProfile` | convex/posts.ts:88-104 | null exactly when there is no session; otherwise the user's id, name, email and image |
| `Posts.DeleteUserData` | convex/posts.ts:106-137 | no session gives Unauthenticated with the store unchanged; otherwise the result is success, no post or comment of the caller remains, and every other post and comment stays |
| `Posts.DeleteEach` | convex/posts.ts:122-124 | deleting the scanned documents one at a time leaves exactly the documents that were not scanned, in a well-formed collection |
| `Posts.DeleteUserDataByRows` | convex/posts.ts:115-135 | the two scan-then-delete loops end in the same state as the one-shot purge |
| `Scenarios.CreateThenListComments` | convex/comments.ts:8-36 | after `createComment(p, b)`, listing `p` shows the new comment first, with body `b` and the creator as author, followed by the earlier listing |
| `Scenarios.UpdatedComments` | convex/comments.ts:62-82 | the author's update succeeds and rewrites the comment collection position by position, replacing only the target's body |
| `Scenarios.UpdateThenListComments` | convex/comments.ts:62-82 | after the author's update, the post's listing has the same length and order as before, each entry equal to the earlier one except that the target's body is the new one |
| `Scenarios.DeleteTwice` | convex/comments.ts:49-58 | a second delete of the same id fails with NotFound and changes nothing |
| `Scenarios.DeletedCommentNotListed` | convex/comments.ts:58 | a deleted comment appears in no post's listing |
| `Scenarios.OnlyTheAuthorMayChange` | convex/comments.ts:54-78 | anyone other than the author gets Forbidden from update and delete, and the store stays unchanged |
| `Scenarios.PurgeLeavesOrphans` | convex/posts.ts:126-133 | another user's comment on a purged post survives, and no post with its `postId` remains |
| `Scenarios.PurgeWalkThrough` | convex/posts.ts:106-137 | A posts, B comments, A purges: no post remains and B's comment is the only one, naming a post that no longer exists |
| `Scenarios.PurgeThenCountIsZero` | convex/posts.ts:118-124 | after the purge the caller's post count is 0 |
| `Scenarios.PurgeThenListHasNoOwnPost` | convex/posts.ts:118-124 | after the purge `getPosts` lists none of the caller's posts |
| `Scenarios.CreatePostKeeps` | convex/posts.ts:13-18 | `createPost` keeps the comments as they were and every existing post, adds at most one post, and the only new one has a never-issued id |
| `Scenarios.CreateCommentKeeps` | convex/comments.ts:29-34 | `createComment` keeps the posts as they were and every existing comment, adds at most one comment, and the only new one has a never-issued id |
| `Scenarios.DeleteCommentKeeps` | convex/comments.ts:58 | `deleteComment` keeps the posts as they were, and every comment left was already there unchanged |
| `Scenarios.UpdateCommentKeeps` | convex/comments.ts:80 | `updateComment` keeps the posts as they were and the same comment ids, and changes at most the comments' bodies: a comment's creation time, post, author and author name stay, and every comment other than the target stays as it was |
| `Scenarios.DeleteUserDataKeeps` | convex/posts.ts:118-133 | `deleteUserData` only removes: every post and comment left was already there unchanged |
| `Scenarios.StableCompose` | convex/posts.ts:5-137 | two steps that each keep old documents and add only never-issued ids do so together |
| `Scenarios.ProfileCountsOwnPosts` | convex/posts.ts:16 | the profile's id is the author id `createPost` stamps, and after a post the caller's count grows by exactly one; signed out, no profile and a count of 0 |
| `Scenarios.SignedOutChangesNothing` | convex/posts.ts:44-47 | signed out, every mutation leaves the store as it was and the upload URL is refused with Unauthenticated |
| `Scenarios.UploadGatedLikeCreatePost` | convex/posts.ts:8-11 | the upload URL is refused exactly when `createPost` is, both with Unauthenticated, and then `createPost` leaves the store as it was |
| `Scenarios.Apply` | convex/comments.ts:17-82 | every store-changing mutation (`generateImageUploadUrl` touches no document, so it is not a `Call`), successful or not, is one atomic transition that keeps the store valid, never moves the clock back, keeps every surviving post whole and every surviving comment's creation time, post, author and author name, and adds only documents with never-issued ids |
| `Scenarios.Run` | convex/posts.ts:5-137 | any history of mutations from a valid store keeps it valid with a clock that never runs backwards; a post that survives under its id is unchanged, a comment that survives keeps all but its body, and every new document has an id never issued before |

## Left out

- User interface code (navigation bar, comment section, sign-up and login pages): it renders forms, toasts and redirects. The comment section offers Edit and Delete to any signed-in user. The ownership rule is enforced only by the handlers modelled here.
- The client-side session hook: browser redirects, with no effect on the handlers.
- Static image-host configuration: no behaviour.
- The database runtime. Each handler is modelled as one atomic transition.
  - Not modelled: transactions, reactive subscriptions, and the `Promise.all` concurrency in `getPosts`.
  - A crash between the two delete loops of `deleteUserData` cannot happen in the model.
- Argument validators (`v.id`, `v.string`): callers pass well-typed arguments.
- `_creationTime` is a floating-point millisecond timestamp. The model uses an integer clock that strictly increases on each insert. The clock also serves as the id source.
- The collection schema is not part of this model. It would say whether `imageStorageId` is optional. `createPost` always stores a handle, and the read queries accept a missing one.
- The auth provider and blob store are not modelled. The session is an argument, `getUrl` is a function argument, and the minted upload URL is an argument.
- `Posts.GenerateImageUploadUrl`: states only that the minted URL is passed through. Minting one-time upload targets belongs to the blob store.
- Error messages: the `ConvexError` text is dropped and only the error kind is kept.
- The untyped `throw null` with which `getPostById` signals a missing post (`convex/posts.ts:60-62`): the model reports it as `NotFound`, since a Dafny result has no untyped throw.
