/**
 * The feed queries `Post.find({postedBy: {$in: authors}}).sort({createdAt: -1})`,
 * over a post table whose ids all lie below a bound.
 */
module Feeds {
  import opened PostModel

  /** Every id names a post, and no post is older than one after it. */
  predicate NewestFirst(posts: map<PostId, Post>, s: seq<PostId>) {
    && (forall i :: 0 <= i < |s| ==> s[i] in posts)
    && (forall i, j :: 0 <= i < j < |s| ==> posts[s[i]].createdAt >= posts[s[j]].createdAt)
  }

  /** The ids below `n` of posts written by one of `authors`, in increasing order. */
  function Matching(posts: map<PostId, Post>, authors: seq<UserId>, n: nat): (r: seq<PostId>)
    ensures forall x :: x in r <==> x < n && x in posts && posts[x].postedBy in authors
    ensures forall i, j :: 0 <= i < j < |r| ==> r[i] < r[j]
  {
    if n == 0 then []
    else
      var earlier := Matching(posts, authors, n - 1);
      assert forall i :: 0 <= i < |earlier| ==> earlier[i] in earlier;
      if n - 1 in posts && posts[n - 1].postedBy in authors then earlier + [n - 1] else earlier
  }

  /** Places `x` before the first post that is not newer than it. */
  function InsertNewest(posts: map<PostId, Post>, x: PostId, s: seq<PostId>): (r: seq<PostId>)
    requires x in posts && NewestFirst(posts, s)
    ensures multiset(r) == multiset(s) + multiset{x}
    ensures NewestFirst(posts, r)
  {
    if s == [] || posts[x].createdAt >= posts[s[0]].createdAt then
      ConsNewest(posts, x, s);
      [x] + s
    else
      var rest := InsertNewest(posts, x, s[1..]);
      assert s == [s[0]] + s[1..];
      forall k | 0 <= k < |rest| ensures posts[s[0]].createdAt >= posts[rest[k]].createdAt {
        assert rest[k] in multiset(rest);
        assert rest[k] == x || rest[k] in s[1..];
      }
      ConsNewest(posts, s[0], rest);
      [s[0]] + rest
  }

  /** A post at least as new as every post of a newest-first list can go in front of it. */
  lemma ConsNewest(posts: map<PostId, Post>, y: PostId, t: seq<PostId>)
    requires y in posts && NewestFirst(posts, t)
    requires forall k :: 0 <= k < |t| ==> posts[y].createdAt >= posts[t[k]].createdAt
    ensures NewestFirst(posts, [y] + t)
  {
  }

  /** Orders the ids newest first; the result holds the same ids, as often as before. */
  function SortNewest(posts: map<PostId, Post>, s: seq<PostId>): (r: seq<PostId>)
    requires forall i :: 0 <= i < |s| ==> s[i] in posts
    ensures multiset(r) == multiset(s)
    ensures NewestFirst(posts, r)
  {
    if s == [] then []
    else
      assert s == [s[0]] + s[1..];
      InsertNewest(posts, s[0], SortNewest(posts, s[1..]))
  }

  /** A sequence without repetitions, rearranged, has none either. */
  lemma {:induction false} PermutationKeepsNoDup(s: seq<PostId>, t: seq<PostId>)
    requires multiset(s) == multiset(t) && NoDup(s)
    ensures NoDup(t)
  {
    if !NoDup(t) {
      var i, j :| 0 <= i < j < |t| && t[i] == t[j];
      var x := t[i];
      assert t == t[..j] + [x] + t[j + 1..];
      assert x in t[..j];
      assert multiset(t)[x] >= 2 by {
        assert multiset(t) == multiset(t[..j]) + multiset{x} + multiset(t[j + 1..]);
        assert multiset(t[..j])[x] >= 1;
      }
      NoDupCountsOnce(s, x);
      assert false;
    }
  }

  /** In a sequence without repetitions, each value occurs at most once. */
  lemma {:induction false} NoDupCountsOnce(s: seq<PostId>, x: PostId)
    requires NoDup(s)
    ensures multiset(s)[x] <= 1
  {
    if s != [] {
      assert NoDup(s[1..]);
      NoDupCountsOnce(s[1..], x);
      assert s == [s[0]] + s[1..];
      assert multiset(s) == multiset{s[0]} + multiset(s[1..]);
      if s[0] == x {
        assert x !in s[1..];
      }
    }
  }

  /**
   * The feed for `authors`: exactly the posts below `n` written by one of
   * them, each once, newest first.
   */
  function Feed(posts: map<PostId, Post>, authors: seq<UserId>, n: nat): (r: seq<PostId>)
    ensures forall x :: x in r <==> x < n && x in posts && posts[x].postedBy in authors
    ensures NoDup(r)
    ensures NewestFirst(posts, r)
    ensures authors == [] ==> r == []
  {
    var found := Matching(posts, authors, n);
    var r := SortNewest(posts, found);
    assert forall x :: x in r <==> x in multiset(found);
    PermutationKeepsNoDup(found, r);
    r
  }
}
