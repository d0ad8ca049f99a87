# Post interactions of a social feed service, in Dafny

This project models the post handlers of the service's post controller
(`controllers/postController.js`): creating, reading and deleting posts,
toggling likes, adding, editing and deleting replies, and the two
newest-first feed queries. The database is a `Store` object holding the post
table (`map<PostId, Post>`), the user table (`map<UserId, User>`) and the
counter that hands out fresh post and reply ids. Each handler is a method of
`Store` that answers with its HTTP status and updates the tables in place, as
the handler mutates the fetched document and saves it. The parts that only
compute are functions with lemmas:

- `ImageIds` — the media public id taken from an image URL,
  `url.split("/").pop().split(".")[0]`, with JavaScript's `split` and `join`
  written out and proved inverse to each other.
- `Likes` — `$pull` and the like toggle on a post's `likes`.
- `Replies` — `findIndex` and the id filter on a post's `replies`.
- `Feeds` — `find({postedBy: {$in: authors}}).sort({createdAt: -1})` as a
  filter over the post table followed by an insertion sort.
- `PostController` — the `Store` class and the handlers.
- `Scenario` — two clients that create, like, unlike, reply and read the
  feed, reasoning from the handlers' contracts together with the lemmas
  `ToggleTwice` and `AppendThenDelete`.

The store's invariant `Valid()` says that every post id and every reply id
lies below the id counter, and that no post is liked twice by the same user.
Every handler preserves it.

What the handlers do, as the code has it:

- Creating a post runs its checks in this order. A missing author or text
  gives 400. An unknown author gives 404. An author other than the acting
  user gives 401. A text longer than 500 characters gives 400, so exactly 500
  is accepted. A failed image upload gives 500. Only when every step succeeds
  is the post stored.
- Liking a post that does not exist gives 500, not 404. The handler reads the
  post's author before it checks that the post exists (lines 91-98).
- A like or a reply replaces a post text longer than 15 characters by its
  truncation, and that truncation is saved with the post. An unlike never
  touches the text.
- When the post's author, or on a like the acting user, is missing from the
  user table, the notification call throws before the save. The handler
  answers 500 and nothing is stored.
- Deleting a post with an image first asks the media store to destroy it. If
  that fails, the post is kept and the answer is 500. The media delete is not
  best-effort.

## Model

| member | source | states |
|---|---|---|
| ImageIds.Split | controllers/postController.js:72 | `split` yields at least one piece, and no piece contains the separator |
| ImageIds.SplitJoin | controllers/postController.js:72 | joining the pieces of a split with the separator gives back the original string |
| ImageIds.JoinSplit | controllers/postController.js:72 | splitting a join of separator-free pieces gives back the pieces |
| ImageIds.FirstPieceShape | controllers/postController.js:72 | `split(sep)[0]` is a prefix of the string, followed by the separator unless it is the whole string |
| ImageIds.LastPieceShape | controllers/postController.js:72 | `split(sep).pop()` is a suffix of the string, preceded by the separator unless it is the whole string |
| ImageIds.ImageId | controllers/postController.js:72 | the public id holds no `/` and no `.`; ImageIdShape characterises it completely |
| ImageIds.ImageIdShape | controllers/postController.js:72 | the public id is the part of the URL's last `/` segment before its first `.`: it has no `.`, and the segment has no `/`, starts the URL or follows a `/`, and the id ends it or is followed by `.` |
| ImageIds.ImageIdOfPlainName | controllers/postController.js:72 | a name with no `/` and no `.` is its own public id |
| ImageIds.ImageIdExample | controllers/postController.js:72 | the id of `up/v1/cat.png` is `cat` |
| Likes.Pull | controllers/postController.js:103-110 | `$pull` keeps exactly the other users' likes, removes every occurrence of the user, and is a no-op when the user is absent |
| Likes.PullConcat | controllers/postController.js:103-110 | `$pull` distributes over concatenation, so the remaining likes keep their relative order |
| Likes.Toggle | controllers/postController.js:100-113 | after one request the user is a member iff they were not before, and a list without duplicates stays without duplicates |
| Likes.ToggleOthers | controllers/postController.js:100-113 | a request leaves every other user's membership unchanged, and a like adds exactly one occurrence of the user |
| Likes.PullKeepsNoDup | controllers/postController.js:103-110 | `$pull` never creates a duplicate |
| Likes.PullAfterPush | controllers/postController.js:103-113 | pulling a user right after pushing them gives back the earlier likes |
| Likes.ToggleTwice | controllers/postController.js:100-113 | a like followed by an unlike from the same user restores the likes exactly |
| Likes.ToggleParity | controllers/postController.js:100-113 | after n requests from one user, they are a member iff their starting membership differs from "n is odd": each request flips it |
| Likes.ToggleTimesNoDup | controllers/postController.js:100-113 | any number of requests keeps the likes free of duplicates |
| Replies.FindReplyIndex | controllers/postController.js:270-274 | `findIndex` gives -1 iff no reply has the id, and otherwise the first position holding it |
| Replies.WithoutReply | controllers/postController.js:242-244 | the filter never lengthens the replies; WithoutReplyMembers and WithoutReplyConcat characterise what it keeps and in which order |
| Replies.WithoutReplyMembers | controllers/postController.js:242-244 | the filter keeps exactly the replies with another id, none with the deleted id remains, and it never lengthens the replies |
| Replies.WithoutAbsentReply | controllers/postController.js:242-244 | deleting an id that no reply carries leaves the replies unchanged |
| Replies.WithoutReplyConcat | controllers/postController.js:242-244 | the filter distributes over concatenation, so the kept replies keep their relative order |
| Replies.AppendThenDelete | controllers/postController.js:242-244 | deleting a just-appended reply by its fresh id restores the earlier replies |
| Feeds.Matching | controllers/postController.js:199 | the `$in` query finds exactly the posts by one of the authors, each once |
| Feeds.InsertNewest | controllers/postController.js:199-201 | inserting keeps a newest-first list newest first and adds exactly one id |
| Feeds.SortNewest | controllers/postController.js:199-201 | the sort by `createdAt` descending is a permutation and is newest first |
| Feeds.Feed | controllers/postController.js:199-201 | the feed holds exactly the posts by one of the authors, each once, newest first, and is empty when there are no authors |
| PostController.Preview | controllers/postController.js:116-118 | a like or a reply replaces the text by its truncation iff the text is longer than 15 characters, and keeps it otherwise (the same step is at lines 168-170) |
| PostController.Store.CreatePost | controllers/postController.js:7-46 | the checks run in order (400, 404, 401, 400 for more than 500 characters, 500 for a failed upload); any failure stores nothing; success stores one new post with the given author, text and uploaded image, no likes and no replies |
| PostController.Store.GetPost | controllers/postController.js:48-59 | 200 with the stored post, or 404 when it is absent |
| PostController.Store.DeletePost | controllers/postController.js:61-84 | 404 when absent and 401 for a non-owner, both deleting nothing; an image is destroyed by its public id before the delete, and a failed destroy gives 500 and keeps the post |
| PostController.Store.LikePost | controllers/postController.js:86-135 | a missing post gives 500; an unlike pulls the user and leaves the text; a like pushes the user and saves the truncated text, or gives 500 with no change when the author or the liker is unknown |
| PostController.Store.ReplyToPost | controllers/postController.js:137-185 | an empty text gives 400 and a missing post 404, both changing nothing; otherwise one reply by the acting user, with a fresh id, is appended after the unchanged earlier replies and the truncated text is saved, or the answer is 500 with no change when the post's author is unknown |
| PostController.Store.GetFeedPosts | controllers/postController.js:187-208 | 404 for an unknown user; otherwise exactly the posts by the users they follow, each once, newest first, and none when they follow nobody |
| PostController.Store.FindUserByUsername | controllers/postController.js:214 | finds a user with that username iff one exists |
| PostController.Store.GetUserPosts | controllers/postController.js:210-228 | 404 iff no user has the username; otherwise exactly that user's posts, each once, newest first |
| PostController.Store.DeletePostReply | controllers/postController.js:230-254 | 404 with no change for a missing post; otherwise the replies with that id are filtered out, an unknown id included, and nothing else changes |
| PostController.Store.EditPostReply | controllers/postController.js:256-289 | 404 with no change for a missing post or reply; otherwise only the first reply with the id gets the new text and is marked edited, and every other reply and field is unchanged |

## Left out

- Concurrency is not modelled. The handlers are sequential, so the lost update between two concurrent read-modify-write toggles or edits cannot be expressed.
- The notification email is not awaited and its outcome never reaches the caller, so sending it is a no-op here. Only the dereference of the post author and the liker when the call's arguments are built is kept (the 500 described above).
- `truncateText` is not part of this model. It is the parameter `truncate`, already applied to the length 15, and nothing is claimed about its result.
- The media store's upload and destroy are parameters: the upload's answer (`uploaded`, None when it throws) and whether the destroy succeeded (`destroySucceeds`). `DeletePost` returns the public id it passed to the destroy.
- The clock is the parameter `now`, which becomes `createdAt`. Database ids are the store's counter.
- Failures of the database itself are not modelled: a failing save, find or delete, or the cast error that a malformed id string raises. Ids here are opaque.
- The reply field `userProfilePic` is the one the handler stores under the key `userPorfilePic` (lines 147 and 162); only the name differs.
- The post and user schemas are not part of this model. A new reply is assumed to start with `isEdited` false. `updateReply` is stored as given. Text length is counted in characters, not UTF-16 code units.
- Response bodies and messages are not modelled; only statuses and state are. The feeds return post ids in order rather than the documents. The reply sent back by a reply request carries no `_id` in the source and is not returned.
- Posts with equal `createdAt` come in increasing id order. The database leaves that order open, and this is one order it may return.
- The user table is read-only here. Signup, following and profile updates belong to the identity handlers, which are not part of this model.
- `FindUserByUsername` picks some user with the name, as `findOne` does, when several users share it.
- Process start-up, routing and configuration are not modelled.
