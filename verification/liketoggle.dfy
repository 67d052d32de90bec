/** The like/unlike toggle over a post's `likes` array: a two-state machine
    per (post, user) pair (controllers/postController.js, `toggleLike`). */
module LikeToggle {
  import opened Common

  /** `likes.filter(userId => userId !== u)`: drops every occurrence of `u`
      and keeps every other id as often as it occurs. */
  function Without(likes: seq<Id>, u: Id): (r: seq<Id>)
    ensures multiset(r) == multiset(likes)[u := 0]
    ensures u !in r
    ensures forall v :: v != u ==> (v in r <==> v in likes)
    ensures |r| <= |likes|
    ensures u !in likes ==> r == likes
  {
    if likes == [] then []
    else
      assert likes == [likes[0]] + likes[1..];
      if likes[0] == u then Without(likes[1..], u)
      else [likes[0]] + Without(likes[1..], u)
  }

  /** Remove the caller if present, append it otherwise. */
  function Toggle(likes: seq<Id>, u: Id): (r: seq<Id>)
    ensures u in r <==> u !in likes
    ensures forall v :: v != u ==> (v in r <==> v in likes)
  {
    if u in likes then Without(likes, u) else likes + [u]
  }

  /** On a duplicate-free array, removing a present id shortens it by one. */
  lemma {:induction false} WithoutOne(likes: seq<Id>, u: Id)
    requires NoDup(likes)
    requires u in likes
    ensures |Without(likes, u)| == |likes| - 1
    ensures NoDup(Without(likes, u))
  {
    if likes[0] == u {
      assert u !in likes[1..];
    } else {
      assert u in likes[1..];
      WithoutOne(likes[1..], u);
      assert likes[0] !in likes[1..];
    }
  }

  /** Because the caller is appended only when absent, no one ever likes a
      post twice, and the count moves by exactly one. */
  lemma ToggleKeepsLikersDistinct(likes: seq<Id>, u: Id)
    requires NoDup(likes)
    ensures NoDup(Toggle(likes, u))
    ensures |Toggle(likes, u)| == if u in likes then |likes| - 1 else |likes| + 1
  {
    if u in likes {
      WithoutOne(likes, u);
    }
  }

  /** Toggling twice gives the same likers back. */
  lemma ToggleTwiceSameLikers(likes: seq<Id>, u: Id)
    ensures forall v :: v in Toggle(Toggle(likes, u), u) <==> v in likes
  {
  }

  /** ... and the same count, when no one liked twice. */
  lemma ToggleTwiceSameCount(likes: seq<Id>, u: Id)
    requires NoDup(likes)
    ensures |Toggle(Toggle(likes, u), u)| == |likes|
  {
    ToggleKeepsLikersDistinct(likes, u);
    ToggleKeepsLikersDistinct(Toggle(likes, u), u);
  }

  /** Like-then-unlike restores the very array. */
  lemma {:induction false} LikeThenUnlikeRestores(likes: seq<Id>, u: Id)
    requires u !in likes
    ensures Toggle(Toggle(likes, u), u) == likes
  {
    WithoutAppended(likes, u);
  }

  lemma {:induction false} WithoutAppended(likes: seq<Id>, u: Id)
    requires u !in likes
    ensures Without(likes + [u], u) == likes
  {
    if likes != [] {
      assert (likes + [u])[1..] == likes[1..] + [u];
      WithoutAppended(likes[1..], u);
    }
  }

  /** Unlike-then-like does not restore the array: the caller moves to the
      end. The round trip holds for the set of likers, not their order. */
  lemma UnlikeThenLikeReorders(u: Id, v: Id)
    requires u != v
    ensures Toggle(Toggle([u, v], u), u) == [v, u] != [u, v]
  {
    assert Toggle([u, v], u) == Without([u, v], u) == [v] by {
      assert [u, v][1..] == [v];
      assert Without([v], u) == [v];
    }
  }
}
