/** Clients of the store: what callers can conclude from the handlers' contracts and the lemmas `ToggleTwice` and `AppendThenDelete`. */
module Scenario {
  import opened PostModel
  import opened Likes
  import opened Replies
  import opened PostController

  const USERS := map["u1" := User("alice", "alice@mail", "", []), "u2" := User("bob", "bob@mail", "", ["u1"])]
  const ALICE := Principal("u1", "alice", "")
  const BOB := Principal("u2", "bob", "")

  /** Bob cannot post as Alice; Alice posts; Bob likes, then unlikes, and the likes are empty again. */
  method LikeThenUnlike(truncate: string -> string) {
    var store := new Store(USERS);
    var st, id := store.CreatePost(BOB, "u1", "hello", "", None, 1);
    assert st == Unauthorized401 && store.posts == map[];

    st, id := store.CreatePost(ALICE, "u1", "hello", "", None, 1);
    assert st == Created201;
    assert store.posts[id] == Post("u1", "hello", "", [], [], 1);

    st := store.LikePost(BOB, id, truncate);
    assert st == Ok200 && store.posts[id].likes == ["u2"] && store.posts[id].text == "hello";

    st := store.LikePost(BOB, id, truncate);
    assert [] + ["u2"] == ["u2"];
    ToggleTwice([], "u2");
    assert st == Ok200 && store.posts[id].likes == [];
  }

  /** Bob replies to Alice's post and deletes the reply again; Alice's post is in Bob's feed only. */
  method ReplyThenDelete(truncate: string -> string) {
    var store := new Store(USERS);
    var st, id := store.CreatePost(ALICE, "u1", "hello", "", None, 1);
    assert st == Created201 && store.posts[id].replies == [];

    var rid := store.nextId;
    st := store.ReplyToPost(BOB, id, "", truncate);
    assert st == BadRequest400;
    st := store.ReplyToPost(BOB, id, "nice", truncate);
    assert st == Ok200 && |store.posts[id].replies| == 1;
    st := store.DeletePostReply(id, rid);
    AppendThenDelete([], Reply(rid, "u2", "nice", "", "bob", false));
    assert st == Ok200 && store.posts[id].replies == [];

    var feed;
    st, feed := store.GetFeedPosts(BOB);
    assert st == Ok200 && id in feed;
    st, feed := store.GetFeedPosts(ALICE);
    assert st == Ok200 && feed == [];
  }
}
