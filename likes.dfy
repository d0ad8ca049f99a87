/** The like toggle on a post's `likes` list. */
module Likes {
  import opened PostModel

  /** MongoDB's `$pull`: every occurrence of `u` goes, everything else stays in order. */
  function Pull(likes: seq<UserId>, u: UserId): (r: seq<UserId>)
    ensures forall x :: x in r <==> x in likes && x != u
    ensures |r| <= |likes|
    ensures u !in likes ==> r == likes
  {
    if likes == [] then []
    else if likes[0] == u then Pull(likes[1..], u)
    else
      assert likes == [likes[0]] + likes[1..];
      [likes[0]] + Pull(likes[1..], u)
  }

  /** `$pull` splits over concatenation, so the remaining likes keep their relative order. */
  lemma {:induction false} PullConcat(a: seq<UserId>, b: seq<UserId>, u: UserId)
    ensures Pull(a + b, u) == Pull(a, u) + Pull(b, u)
  {
    if a == [] {
      assert a + b == b;
    } else {
      var ab := a + b;
      assert ab[0] == a[0];
      assert ab[1..] == a[1..] + b;
      PullConcat(a[1..], b, u);
      if a[0] != u {
        assert Pull(ab, u) == [a[0]] + Pull(ab[1..], u);
      }
    }
  }

  /** One like request by `u`: an unlike (`$pull`) if `u` is there, else `u` is pushed at the end. */
  function Toggle(likes: seq<UserId>, u: UserId): (r: seq<UserId>)
    ensures u in r <==> u !in likes
    ensures NoDup(likes) ==> NoDup(r)
  {
    if u in likes then
      PullKeepsNoDup(likes, u);
      Pull(likes, u)
    else likes + [u]
  }

  /** A request changes no other user's membership, and a like adds exactly one occurrence of the user. */
  lemma ToggleOthers(likes: seq<UserId>, u: UserId)
    ensures forall x :: x != u ==> (x in Toggle(likes, u) <==> x in likes)
    ensures u !in likes ==> multiset(Toggle(likes, u))[u] == 1
  {
  }

  /** `n` like requests by the same user in a row. */
  function ToggleTimes(likes: seq<UserId>, u: UserId, n: nat): seq<UserId> {
    if n == 0 then likes else Toggle(ToggleTimes(likes, u, n - 1), u)
  }

  lemma {:induction false} PullKeepsNoDup(likes: seq<UserId>, u: UserId)
    ensures NoDup(likes) ==> NoDup(Pull(likes, u))
  {
    if likes != [] && NoDup(likes) {
      assert NoDup(likes[1..]);
      PullKeepsNoDup(likes[1..], u);
      if likes[0] != u {
        assert likes[0] !in likes[1..];
        var rest := Pull(likes[1..], u);
        assert likes[0] !in rest;
        assert Pull(likes, u) == [likes[0]] + rest;
      }
    }
  }

  /** Unliking right after a like gives back exactly the list from before the like. */
  lemma {:induction false} PullAfterPush(likes: seq<UserId>, u: UserId)
    requires u !in likes
    ensures Pull(likes + [u], u) == likes
  {
    if likes == [] {
      assert [] + [u] == [u];
      assert [u][1..] == [];
    } else {
      PullAfterPush(likes[1..], u);
      assert (likes + [u])[1..] == likes[1..] + [u];
      assert [likes[0]] + likes[1..] == likes;
    }
  }

  /** A like followed by an unlike from the same user restores the likes. */
  lemma ToggleTwice(likes: seq<UserId>, u: UserId)
    requires u !in likes
    ensures Toggle(Toggle(likes, u), u) == likes
  {
    PullAfterPush(likes, u);
  }

  /** After `n` requests the user is a member iff their starting membership differs from "n is odd": each request flips it. */
  lemma {:induction false} ToggleParity(likes: seq<UserId>, u: UserId, n: nat)
    ensures u in ToggleTimes(likes, u, n) <==> (u in likes) != (n % 2 == 1)
  {
    if n > 0 {
      var before := ToggleTimes(likes, u, n - 1);
      ToggleParity(likes, u, n - 1);
      assert u in Toggle(before, u) <==> u !in before;
      assert n % 2 == 1 <==> (n - 1) % 2 == 0;
    }
  }

  /** However many requests are made, no user ever appears twice. */
  lemma {:induction false} ToggleTimesNoDup(likes: seq<UserId>, u: UserId, n: nat)
    requires NoDup(likes)
    ensures NoDup(ToggleTimes(likes, u, n))
  {
    if n > 0 {
      ToggleTimesNoDup(likes, u, n - 1);
    }
  }
}
