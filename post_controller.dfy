/**
 * The post handlers as operations on one store that holds the post table and
 * the user table. A handler's answer is its HTTP status; the media store, the
 * clock, the mailer and the text-truncation helper are parameters.
 */
module PostController {
  import opened PostModel
  import opened ImageIds
  import opened Likes
  import opened Replies
  import opened Feeds

  /** Longest post text accepted at creation. */
  const MAX_TEXT_LENGTH := 500

  /** Texts longer than this are replaced by their truncation on the like and reply paths. */
  const PREVIEW_LENGTH := 15

  /** The text a post keeps after a like or a reply: the truncation when it is longer than the preview length. */
  function Preview(text: string, truncate: string -> string): (r: string)
    ensures |text| <= PREVIEW_LENGTH ==> r == text
    ensures |text| > PREVIEW_LENGTH ==> r == truncate(text)
  {
    if |text| > PREVIEW_LENGTH then truncate(text) else text
  }

  class Store {
    var posts: map<PostId, Post>
    var users: map<UserId, User>
    /** The next id handed out, to a post or to a reply. */
    var nextId: nat

    /** Ids already handed out lie below `nextId`, and nobody likes a post twice. */
    ghost predicate Valid()
      reads this
    {
      && (forall id :: id in posts ==> id < nextId)
      && (forall id, i :: id in posts && 0 <= i < |posts[id].replies| ==> posts[id].replies[i].id < nextId)
      && (forall id :: id in posts ==> NoDup(posts[id].likes))
    }

    constructor (users: map<UserId, User>)
      ensures Valid()
      ensures this.users == users && posts == map[]
    {
      this.users := users;
      posts := map[];
      nextId := 0;
    }

    /**
     * POST a new post: the checks run in order, and the post is stored only
     * when all of them pass and the image, if any, was uploaded.
     * `uploaded` is what the media store answered (None: it failed).
     */
    method CreatePost(actor: Principal, postedBy: UserId, text: string, img: string,
                      uploaded: Option<string>, now: int)
      returns (st: Status, id: PostId)
      requires Valid()
      modifies this
      ensures Valid() && users == old(users)
      ensures postedBy == [] || text == [] ==> st == BadRequest400
      ensures postedBy != [] && text != [] && postedBy !in users ==> st == NotFound404
      ensures postedBy != [] && text != [] && postedBy in users && postedBy != actor.id
        ==> st == Unauthorized401
      ensures postedBy != [] && text != [] && postedBy in users && postedBy == actor.id && |text| > MAX_TEXT_LENGTH
        ==> st == BadRequest400
      ensures postedBy != [] && 0 < |text| <= MAX_TEXT_LENGTH && postedBy in users && postedBy == actor.id
        && img != [] && uploaded.None?
        ==> st == ServerError500
      ensures st == Created201 <==>
        postedBy != [] && 0 < |text| <= MAX_TEXT_LENGTH && postedBy in users
        && postedBy == actor.id && (img == [] || uploaded.Some?)
      ensures st != Created201 ==> posts == old(posts) && nextId == old(nextId)
      ensures st == Created201 ==>
        && id == old(nextId) && nextId == old(nextId) + 1
        && id !in old(posts)
        && posts == old(posts)[id := Post(postedBy, text, if img == [] then [] else uploaded.value, [], [], now)]
    {
      id := 0;
      if postedBy == [] || text == [] {
        return BadRequest400, id;
      }
      if postedBy !in users {
        return NotFound404, id;
      }
      if postedBy != actor.id {
        return Unauthorized401, id;
      }
      if |text| > MAX_TEXT_LENGTH {
        return BadRequest400, id;
      }
      var stored := img;
      if img != [] {
        if uploaded.None? {
          return ServerError500, id;
        }
        stored := uploaded.value;
      }
      id := nextId;
      posts := posts[id := Post(postedBy, text, stored, [], [], now)];
      nextId := nextId + 1;
      st := Created201;
    }

    /** GET one post. */
    method GetPost(id: PostId) returns (st: Status, post: Option<Post>)
      ensures id in posts ==> st == Ok200 && post == Some(posts[id])
      ensures id !in posts ==> st == NotFound404 && post == None
    {
      if id !in posts {
        return NotFound404, None;
      }
      return Ok200, Some(posts[id]);
    }

    /**
     * DELETE a post: only its author may; its image is destroyed first, by
     * the public id derived from the URL, and a failed destroy keeps the post.
     * `destroyed` is the public id the media store was asked to destroy.
     */
    method DeletePost(actor: Principal, id: PostId, destroySucceeds: bool)
      returns (st: Status, destroyed: Option<string>)
      requires Valid()
      modifies this
      ensures Valid() && users == old(users) && nextId == old(nextId)
      ensures id !in old(posts) ==> st == NotFound404 && destroyed == None && posts == old(posts)
      ensures id in old(posts) && old(posts)[id].postedBy != actor.id
        ==> st == Unauthorized401 && destroyed == None && posts == old(posts)
      ensures id in old(posts) && old(posts)[id].postedBy == actor.id ==>
        && destroyed == (if old(posts)[id].img == [] then None else Some(ImageId(old(posts)[id].img)))
        && (if old(posts)[id].img == [] || destroySucceeds
            then st == Ok200 && posts == old(posts) - {id}
            else st == ServerError500 && posts == old(posts))
    {
      destroyed := None;
      if id !in posts {
        return NotFound404, destroyed;
      }
      var post := posts[id];
      if post.postedBy != actor.id {
        return Unauthorized401, destroyed;
      }
      if post.img != [] {
        destroyed := Some(ImageId(post.img));
        if !destroySucceeds {
          return ServerError500, destroyed;
        }
      }
      posts := posts - {id};
      st := Ok200;
    }

    /**
     * POST a like: toggles the actor in `likes`. A missing post fails with 500,
     * because the handler reads the post's author before it checks the post
     * exists. An unlike only pulls the actor. A like pushes the actor, replaces
     * a long text by its truncation and stores both, unless the author or the
     * actor is missing from the user table, which fails with 500 before the save.
     */
    method LikePost(actor: Principal, id: PostId, truncate: string -> string) returns (st: Status)
      requires Valid()
      modifies this
      ensures Valid() && users == old(users) && nextId == old(nextId)
      ensures id !in old(posts) ==> st == ServerError500 && posts == old(posts)
      ensures id in old(posts) && actor.id in old(posts)[id].likes ==>
        && st == Ok200
        && posts == old(posts)[id := old(posts)[id].(likes := Toggle(old(posts)[id].likes, actor.id))]
      ensures id in old(posts) && actor.id !in old(posts)[id].likes ==>
        if old(posts)[id].postedBy in users && actor.id in users then
          && st == Ok200
          && posts == old(posts)[id := old(posts)[id].(
               likes := Toggle(old(posts)[id].likes, actor.id),
               text := Preview(old(posts)[id].text, truncate))]
        else
          st == ServerError500 && posts == old(posts)
    {
      if id !in posts {
        return ServerError500;
      }
      var post := posts[id];
      if actor.id in post.likes {
        PullKeepsNoDup(post.likes, actor.id);
        posts := posts[id := post.(likes := Pull(post.likes, actor.id))];
        return Ok200;
      }
      post := post.(likes := post.likes + [actor.id]);
      if |post.text| > PREVIEW_LENGTH {
        post := post.(text := truncate(post.text));
      }
      if post.postedBy !in users || actor.id !in users {
        return ServerError500;
      }
      posts := posts[id := post];
      st := Ok200;
    }

    /**
     * POST a reply: an empty text is refused before the post is looked up;
     * otherwise one reply by the actor, with a fresh id, goes at the end, and
     * a long post text is replaced by its truncation. A post whose author is
     * missing from the user table fails with 500 before the save.
     */
    method ReplyToPost(actor: Principal, id: PostId, text: string, truncate: string -> string)
      returns (st: Status)
      requires Valid()
      modifies this
      ensures Valid() && users == old(users)
      ensures text == [] ==> st == BadRequest400
      ensures text != [] && id !in old(posts) ==> st == NotFound404
      ensures text != [] && id in old(posts) && old(posts)[id].postedBy !in users ==> st == ServerError500
      ensures st != Ok200 ==> posts == old(posts) && nextId == old(nextId)
      ensures st == Ok200 <==> text != [] && id in old(posts) && old(posts)[id].postedBy in users
      ensures st == Ok200 ==>
        && nextId == old(nextId) + 1
        && !HasReply(old(posts)[id].replies, old(nextId))
        && posts == old(posts)[id := old(posts)[id].(
             replies := old(posts)[id].replies
               + [Reply(old(nextId), actor.id, text, actor.profilePic, actor.username, false)],
             text := Preview(old(posts)[id].text, truncate))]
    {
      if text == [] {
        return BadRequest400;
      }
      if id !in posts {
        return NotFound404;
      }
      var post := posts[id];
      var reply := Reply(nextId, actor.id, text, actor.profilePic, actor.username, false);
      post := post.(replies := post.replies + [reply]);
      if |post.text| > PREVIEW_LENGTH {
        post := post.(text := truncate(post.text));
      }
      if post.postedBy !in users {
        return ServerError500;
      }
      posts := posts[id := post];
      nextId := nextId + 1;
      st := Ok200;
    }

    /** DELETE a reply: the replies with that id go, the others stay in order; an unknown id is not an error. */
    method DeletePostReply(postId: PostId, replyId: ReplyId) returns (st: Status)
      requires Valid()
      modifies this
      ensures Valid() && users == old(users) && nextId == old(nextId)
      ensures postId !in old(posts) ==> st == NotFound404 && posts == old(posts)
      ensures postId in old(posts) ==>
        && st == Ok200
        && posts == old(posts)[postId := old(posts)[postId].(
             replies := WithoutReply(old(posts)[postId].replies, replyId))]
    {
      if postId !in posts {
        return NotFound404;
      }
      var post := posts[postId];
      var kept := WithoutReply(post.replies, replyId);
      WithoutReplyMembers(post.replies, replyId);
      forall i | 0 <= i < |kept| ensures kept[i].id < nextId {
        assert kept[i] in post.replies;
      }
      posts := posts[postId := post.(replies := kept)];
      st := Ok200;
    }

    /**
     * PUT a reply's new text: only the first reply with that id changes; its
     * text is replaced and it is marked edited, never unmarked.
     */
    method EditPostReply(postId: PostId, replyId: ReplyId, updateReply: string) returns (st: Status)
      requires Valid()
      modifies this
      ensures Valid() && users == old(users) && nextId == old(nextId)
      ensures postId !in old(posts) ==> st == NotFound404 && posts == old(posts)
      ensures postId in old(posts) && !HasReply(old(posts)[postId].replies, replyId)
        ==> st == NotFound404 && posts == old(posts)
      ensures postId in old(posts) && HasReply(old(posts)[postId].replies, replyId) ==>
        var before := old(posts)[postId];
        var k := FindReplyIndex(before.replies, replyId);
        && st == Ok200
        && postId in posts
        && posts == old(posts)[postId := posts[postId]]
        && posts[postId].(replies := before.replies) == before
        && |posts[postId].replies| == |before.replies|
        && posts[postId].replies[k] == before.replies[k].(text := updateReply, isEdited := true)
        && (forall j :: 0 <= j < |before.replies| && j != k ==> posts[postId].replies[j] == before.replies[j])
    {
      if postId !in posts {
        return NotFound404;
      }
      var post := posts[postId];
      var k := FindReplyIndex(post.replies, replyId);
      if k == -1 {
        return NotFound404;
      }
      var reply := post.replies[k].(text := updateReply);
      if !reply.isEdited {
        reply := reply.(isEdited := true);
      }
      posts := posts[postId := post.(replies := post.replies[k := reply])];
      st := Ok200;
    }

    /** GET the feed: the posts of the users the actor follows, newest first. */
    method GetFeedPosts(actor: Principal) returns (st: Status, feed: seq<PostId>)
      requires Valid()
      ensures actor.id !in users ==> st == NotFound404 && feed == []
      ensures actor.id in users ==>
        && st == Ok200
        && (forall x :: x in feed <==> x in posts && posts[x].postedBy in users[actor.id].following)
        && NoDup(feed)
        && NewestFirst(posts, feed)
      ensures actor.id in users && users[actor.id].following == [] ==> feed == []
    {
      if actor.id !in users {
        return NotFound404, [];
      }
      var following := users[actor.id].following;
      feed := Feed(posts, following, nextId);
      st := Ok200;
    }

    /** `User.findOne({username})`: some user with that name, if there is one. */
    method FindUserByUsername(username: string) returns (found: Option<UserId>)
      ensures found == None <==> forall u :: u in users ==> users[u].username != username
      ensures found.Some? ==> found.value in users && users[found.value].username == username
    {
      if u :| u in users && users[u].username == username {
        found := Some(u);
      } else {
        found := None;
      }
    }

    /** GET a user's posts by username: that user's posts, newest first. */
    method GetUserPosts(username: string) returns (st: Status, feed: seq<PostId>)
      requires Valid()
      ensures st == NotFound404 <==> forall u :: u in users ==> users[u].username != username
      ensures st == NotFound404 ==> feed == []
      ensures st != NotFound404 ==>
        && st == Ok200
        && NoDup(feed)
        && NewestFirst(posts, feed)
        && exists u :: u in users && users[u].username == username
             && forall x :: x in feed <==> x in posts && posts[x].postedBy == u
    {
      var found := FindUserByUsername(username);
      if found.None? {
        return NotFound404, [];
      }
      var u := found.value;
      feed := Feed(posts, [u], nextId);
      st := Ok200;
    }
  }
}
