/** Searching and filtering a post's replies by reply id. */
module Replies {
  import opened PostModel

  /** Some reply in `rs` has id `id`. */
  predicate HasReply(rs: seq<Reply>, id: ReplyId) {
    exists i :: 0 <= i < |rs| && rs[i].id == id
  }

  /** `Array.prototype.findIndex` on the reply id: the first position holding `id`, or -1. */
  function FindReplyIndex(rs: seq<Reply>, id: ReplyId): (k: int)
    ensures -1 <= k < |rs|
    ensures k == -1 <==> !HasReply(rs, id)
    ensures k != -1 ==> rs[k].id == id && forall j :: 0 <= j < k ==> rs[j].id != id
  {
    if rs == [] then -1
    else if rs[0].id == id then 0
    else
      var k := FindReplyIndex(rs[1..], id);
      if k == -1 then
        assert forall i :: 1 <= i < |rs| ==> rs[i] == rs[1..][i - 1];
        -1
      else
        assert rs[k + 1] == rs[1..][k];
        k + 1
  }

  /** The replies whose id is not `id`, in their original order. */
  function WithoutReply(rs: seq<Reply>, id: ReplyId): (r: seq<Reply>)
    ensures |r| <= |rs|
  {
    if rs == [] then []
    else if rs[0].id == id then WithoutReply(rs[1..], id)
    else [rs[0]] + WithoutReply(rs[1..], id)
  }

  /** The filter keeps exactly the replies with another id. */
  lemma {:induction false} WithoutReplyMembers(rs: seq<Reply>, id: ReplyId)
    ensures forall x :: x in WithoutReply(rs, id) <==> x in rs && x.id != id
    ensures !HasReply(WithoutReply(rs, id), id)
    ensures |WithoutReply(rs, id)| <= |rs|
  {
    if rs != [] {
      WithoutReplyMembers(rs[1..], id);
      assert rs == [rs[0]] + rs[1..];
      var rest := WithoutReply(rs[1..], id);
      if rs[0].id != id {
        var r := [rs[0]] + rest;
        assert WithoutReply(rs, id) == r;
        forall i | 0 <= i < |r| ensures r[i].id != id {
          if i > 0 {
            assert r[i] == rest[i - 1];
            assert r[i] in rest;
          }
        }
      }
    }
  }

  /** Deleting an id that no reply carries changes nothing. */
  lemma {:induction false} WithoutAbsentReply(rs: seq<Reply>, id: ReplyId)
    requires !HasReply(rs, id)
    ensures WithoutReply(rs, id) == rs
  {
    if rs != [] {
      assert rs[0].id != id;
      assert !HasReply(rs[1..], id) by {
        forall i | 0 <= i < |rs[1..]| ensures rs[1..][i].id != id {
          assert rs[1..][i] == rs[i + 1];
        }
      }
      WithoutAbsentReply(rs[1..], id);
      assert [rs[0]] + rs[1..] == rs;
    }
  }

  /** Filtering splits over concatenation, so the kept replies keep their relative order. */
  lemma {:induction false} WithoutReplyConcat(a: seq<Reply>, b: seq<Reply>, id: ReplyId)
    ensures WithoutReply(a + b, id) == WithoutReply(a, id) + WithoutReply(b, id)
  {
    if a == [] {
      assert a + b == b;
    } else {
      var ab := a + b;
      assert ab[0] == a[0];
      assert ab[1..] == a[1..] + b;
      WithoutReplyConcat(a[1..], b, id);
      if a[0].id != id {
        assert WithoutReply(ab, id) == [a[0]] + WithoutReply(ab[1..], id);
      }
    }
  }

  /** Deleting a reply right after appending it, by its fresh id, restores the replies. */
  lemma AppendThenDelete(rs: seq<Reply>, reply: Reply)
    requires !HasReply(rs, reply.id)
    ensures WithoutReply(rs + [reply], reply.id) == rs
  {
    WithoutReplyConcat(rs, [reply], reply.id);
    WithoutAbsentReply(rs, reply.id);
    assert [reply][1..] == [];
  }
}
