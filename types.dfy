/** The documents the post controller works on, as values. */
module PostModel {

  /** User ids are opaque strings; an empty string is what the handlers treat as "missing". */
  type UserId = string

  /** Post and reply ids are handed out by the store from one counter, so they are never reused. */
  type PostId = nat
  type ReplyId = nat

  datatype Option<T> = None | Some(value: T)

  /** The HTTP statuses the handlers answer with. */
  datatype Status = Ok200 | Created201 | BadRequest400 | Unauthorized401 | NotFound404 | ServerError500

  /** A reply stored inside its post; `userProfilePic` and `username` are snapshots taken when it was written. */
  datatype Reply = Reply(
    id: ReplyId,
    userId: UserId,
    text: string,
    userProfilePic: string,
    username: string,
    isEdited: bool)

  /** A post document; `img` is the stored media URL, or "" when the post has none. */
  datatype Post = Post(
    postedBy: UserId,
    text: string,
    img: string,
    likes: seq<UserId>,
    replies: seq<Reply>,
    createdAt: int)

  /** The fields of a user document that the post handlers read. */
  datatype User = User(username: string, email: string, profilePic: string, following: seq<UserId>)

  /** The acting principal that the authentication middleware attaches to the request. */
  datatype Principal = Principal(id: UserId, username: string, profilePic: string)

  /** No value occurs twice. */
  predicate NoDup<T(==)>(s: seq<T>) {
    forall i, j :: 0 <= i < j < |s| ==> s[i] != s[j]
  }
}
