/** The comment controllers (controllers/commentControllers.js). Create and
    delete run behind `protect`; the listing does not. */
module Comments {
  import opened Common
  import opened Documents
  import opened Http

  datatype CommentBody = CommentBody(content: Field)

  const PostNotFound := Resp(404, ErrorPage("Post not found"))
  const CommentNotFound := Resp(404, ErrorPage("Comment not found"))
  const NotAuthorized := Resp(403, ErrorPage("Not authorized"))
  const CommentRemoved := Resp(200, Message("comment removed"))

  ghost predicate InComments(ids: seq<Id>, cs: map<Id, Comment>) {
    forall i :: 0 <= i < |ids| ==> ids[i] in cs
  }

  /** Ordered as `sort({createdAt: -1})` orders: newest first. */
  ghost predicate NewestFirst(vs: seq<CommentView>) {
    forall i, j :: 0 <= i < j < |vs| ==> vs[i].comment.createdAt >= vs[j].comment.createdAt
  }

  /** The ids among `ids` whose comment is on `postId`, in the same order. */
  function OnPost(ids: seq<Id>, cs: map<Id, Comment>, postId: Id): (r: seq<Id>)
    requires InComments(ids, cs)
    ensures InComments(r, cs)
    ensures forall id :: id in r <==> id in ids && cs[id].post == postId
    ensures Increasing(ids) ==> Increasing(r)
  {
    if ids == [] then []
    else
      var rest := OnPost(ids[1..], cs, postId);
      assert forall id :: id in ids <==> id == ids[0] || id in ids[1..];
      if cs[ids[0]].post == postId then [ids[0]] + rest else rest
  }

  /** Puts `v` in front of the first comment no newer than it. */
  function Insert(v: CommentView, vs: seq<CommentView>): (r: seq<CommentView>)
    ensures multiset(r) == multiset(vs) + multiset{v}
  {
    if vs == [] || v.comment.createdAt >= vs[0].comment.createdAt then [v] + vs
    else
      assert vs == [vs[0]] + vs[1..];
      [vs[0]] + Insert(v, vs[1..])
  }

  /** Insertion sort, newest first. */
  function SortNewestFirst(vs: seq<CommentView>): (r: seq<CommentView>)
    ensures multiset(r) == multiset(vs)
  {
    if vs == [] then []
    else
      assert vs == [vs[0]] + vs[1..];
      Insert(vs[0], SortNewestFirst(vs[1..]))
  }

  lemma {:induction false} InsertKeepsOrder(v: CommentView, vs: seq<CommentView>)
    requires NewestFirst(vs)
    ensures NewestFirst(Insert(v, vs))
  {
    if vs != [] && v.comment.createdAt < vs[0].comment.createdAt {
      var rest := Insert(v, vs[1..]);
      InsertKeepsOrder(v, vs[1..]);
      forall k | 0 <= k < |rest|
        ensures rest[k].comment.createdAt <= vs[0].comment.createdAt
      {
        assert rest[k] in multiset(vs[1..]) + multiset{v};
      }
    }
  }

  lemma {:induction false} InsertKeepsDistinct(v: CommentView, vs: seq<CommentView>)
    requires NoDup(vs) && v !in vs
    ensures NoDup(Insert(v, vs))
  {
    if vs != [] && v.comment.createdAt < vs[0].comment.createdAt {
      var rest := Insert(v, vs[1..]);
      InsertKeepsDistinct(v, vs[1..]);
      assert vs[0] !in multiset(vs[1..]) + multiset{v};
      assert vs[0] !in rest;
    }
  }

  /** The sorted listing is newest first and, like its input, repeats nothing. */
  lemma {:induction false} SortIsNewestFirst(vs: seq<CommentView>)
    ensures NewestFirst(SortNewestFirst(vs))
    ensures NoDup(vs) ==> NoDup(SortNewestFirst(vs))
  {
    if vs != [] {
      var rest := SortNewestFirst(vs[1..]);
      SortIsNewestFirst(vs[1..]);
      InsertKeepsOrder(vs[0], rest);
      if NoDup(vs) {
        assert vs[0] !in multiset(vs[1..]);
        assert vs[0] !in rest;
        InsertKeepsDistinct(vs[0], rest);
      }
    }
  }

  /** The listed form of the comments `ids`, in that order. */
  function ViewComments(s: Store, ids: seq<Id>): (views: seq<CommentView>)
    requires InComments(ids, s.comments)
    ensures |views| == |ids|
    ensures forall i :: 0 <= i < |ids| ==> views[i].id == ids[i]
    ensures forall i :: 0 <= i < |views| ==>
              views[i].id in s.comments && views[i].comment == s.comments[views[i].id]
    ensures forall i :: 0 <= i < |views| ==> views[i].author == Populate(s.users, views[i].comment.author)
  {
    if ids == [] then []
    else
      var c := s.comments[ids[0]];
      [CommentView(ids[0], c, Populate(s.users, c.author))] + ViewComments(s, ids[1..])
  }

  /** `createComment`: a comment needs an existing post; it belongs to the
      caller and to the post named in the route, and gets the next unissued
      id. */
  function CreateComment(s: Store, caller: Id, postId: Id, body: CommentBody, now: int): (out: Outcome)
    ensures postId !in s.posts ==> out == Outcome(PostNotFound, s)
    ensures postId in s.posts ==>
              && out.resp.status == 201
              && out.resp.body.CommentJson?
              && out.resp.body.id == s.nextId
              && out.resp.body.comment == Comment(body.content, caller, postId, now)
              && out.store == s.(comments := s.comments[out.resp.body.id := out.resp.body.comment], nextId := s.nextId + 1)
              && (IdsIssued(s) ==> out.resp.body.id !in s.comments && IdsIssued(out.store))
  {
    if postId !in s.posts then Outcome(PostNotFound, s)
    else
      var id := s.nextId;
      var c := Comment(body.content, caller, postId, now);
      Outcome(Resp(201, CommentJson(id, c)), s.(comments := s.comments[id := c], nextId := id + 1))
  }

  /** The listing pipeline: a collection scan, the `{post: postId}`
      filter, the author join, then the newest-first sort. */
  function Listing(s: Store, postId: Id): seq<CommentView> {
    var all := SortedKeys(s.comments.Keys);
    SortNewestFirst(ViewComments(s, OnPost(all, s.comments, postId)))
  }

  /** `v` shows the stored comment `v.id`, which is on `postId`, with its
      author joined in. */
  ghost predicate ShowsStored(s: Store, postId: Id, v: CommentView) {
    && v.id in s.comments
    && v.comment == s.comments[v.id]
    && v.comment.post == postId
    && v.author == Populate(s.users, v.comment.author)
  }

  /** Each listed comment is the stored comment of that id, and is on `postId`. */
  lemma ListedAreOnPost(s: Store, postId: Id)
    ensures var views := Listing(s, postId);
            forall i :: 0 <= i < |views| ==>
              && views[i].id in s.comments
              && views[i].comment == s.comments[views[i].id]
              && views[i].comment.post == postId
              && views[i].author == Populate(s.users, views[i].comment.author)
  {
    var mine := ViewComments(s, OnPost(SortedKeys(s.comments.Keys), s.comments, postId));
    FilteredShowStored(s, postId);
    var views := Listing(s, postId);
    forall i | 0 <= i < |views|
      ensures ShowsStored(s, postId, views[i])
    {
      assert views[i] in multiset(mine);
    }
  }

  /** Before the sort, each view shows a stored comment on `postId`. */
  lemma FilteredShowStored(s: Store, postId: Id)
    ensures var mine := ViewComments(s, OnPost(SortedKeys(s.comments.Keys), s.comments, postId));
            forall v :: v in mine ==> ShowsStored(s, postId, v)
  {
    var ids := OnPost(SortedKeys(s.comments.Keys), s.comments, postId);
    var mine := ViewComments(s, ids);
    forall v | v in mine
      ensures ShowsStored(s, postId, v)
    {
      var k :| 0 <= k < |mine| && mine[k] == v;
      assert ids[k] in ids;
    }
  }

  /** Every comment on `postId` is listed. */
  lemma OnPostAreListed(s: Store, postId: Id)
    ensures var views := Listing(s, postId);
            forall id :: id in s.comments && s.comments[id].post == postId ==>
              exists i :: 0 <= i < |views| && views[i].id == id
  {
    var all := SortedKeys(s.comments.Keys);
    var ids := OnPost(all, s.comments, postId);
    var mine := ViewComments(s, ids);
    var views := Listing(s, postId);
    forall id | id in s.comments && s.comments[id].post == postId
      ensures exists i :: 0 <= i < |views| && views[i].id == id
    {
      assert id in all;
      StaysListed(ids, mine, views, id);
    }
  }

  /** An id among `ids` survives the view and the sort. */
  lemma StaysListed(ids: seq<Id>, mine: seq<CommentView>, views: seq<CommentView>, id: Id)
    requires |mine| == |ids| && forall j :: 0 <= j < |ids| ==> mine[j].id == ids[j]
    requires multiset(views) == multiset(mine)
    requires id in ids
    ensures exists i :: 0 <= i < |views| && views[i].id == id
  {
    var j :| 0 <= j < |ids| && ids[j] == id;
    assert mine[j] in multiset(views);
    var i :| 0 <= i < |views| && views[i] == mine[j];
  }

  /** No comment is listed twice, and the listing is newest first. */
  lemma ListedOnceNewestFirst(s: Store, postId: Id)
    ensures var views := Listing(s, postId);
            forall i, j :: 0 <= i < j < |views| ==>
              && views[i].id != views[j].id
              && views[i].comment.createdAt >= views[j].comment.createdAt
  {
    var all := SortedKeys(s.comments.Keys);
    var ids := OnPost(all, s.comments, postId);
    var mine := ViewComments(s, ids);
    assert Increasing(ids);
    assert NoDup(mine) by {
      forall i, j | 0 <= i < j < |mine|
        ensures mine[i] != mine[j]
      {
        assert mine[i].id != mine[j].id;
      }
    }
    SortIsNewestFirst(mine);
    ListedAreOnPost(s, postId);
    ViewsDistinctById(s, Listing(s, postId));
  }

  /** Views of stored comments with the author joined in are equal exactly
      when their ids are, so distinct views have distinct ids. */
  lemma ViewsDistinctById(s: Store, views: seq<CommentView>)
    requires NoDup(views)
    requires forall i :: 0 <= i < |views| ==>
               && views[i].id in s.comments
               && views[i].comment == s.comments[views[i].id]
               && views[i].author == Populate(s.users, views[i].comment.author)
    ensures forall i, j :: 0 <= i < j < |views| ==> views[i].id != views[j].id
  {
    forall i, j | 0 <= i < j < |views|
      ensures views[i].id != views[j].id
    {
      assert views[i] != views[j];
    }
  }

  /** `getComments`: exactly the comments on `postId`, each once, newest
      first, authors joined in. */
  function GetComments(s: Store, postId: Id): (r: Resp)
    ensures r.status == 200 && r.body.CommentList?
    ensures forall i :: 0 <= i < |r.body.comments| ==>
              && r.body.comments[i].id in s.comments
              && r.body.comments[i].comment == s.comments[r.body.comments[i].id]
              && r.body.comments[i].comment.post == postId
              && r.body.comments[i].author == Populate(s.users, r.body.comments[i].comment.author)
    ensures forall id :: id in s.comments && s.comments[id].post == postId ==>
              exists i :: 0 <= i < |r.body.comments| && r.body.comments[i].id == id
    ensures forall i, j :: 0 <= i < j < |r.body.comments| ==>
              && r.body.comments[i].id != r.body.comments[j].id
              && r.body.comments[i].comment.createdAt >= r.body.comments[j].comment.createdAt
  {
    ListedAreOnPost(s, postId);
    OnPostAreListed(s, postId);
    ListedOnceNewestFirst(s, postId);
    Resp(200, CommentList(Listing(s, postId)))
  }

  /** `deleteComment`: the two error replies throw, so they end the handler
      before anything is removed. */
  function DeleteComment(s: Store, caller: Id, id: Id): (out: Outcome)
    ensures id !in s.comments ==> out == Outcome(CommentNotFound, s)
    ensures id in s.comments && s.comments[id].author != caller ==> out == Outcome(NotAuthorized, s)
    ensures id in s.comments && s.comments[id].author == caller ==>
              out == Outcome(CommentRemoved, s.(comments := s.comments - {id}))
  {
    if id !in s.comments then Outcome(CommentNotFound, s)
    else if s.comments[id].author != caller then Outcome(NotAuthorized, s)
    else Outcome(CommentRemoved, s.(comments := s.comments - {id}))
  }

  /** True when the listing `r` shows comment `id`. */
  predicate Lists(r: Resp, id: Id) {
    r.body.CommentList? && exists i :: 0 <= i < |r.body.comments| && r.body.comments[i].id == id
  }

  /** A comment just created shows up in its post's listing. */
  lemma CreatedCommentIsListed(s: Store, caller: Id, postId: Id, body: CommentBody, now: int)
    requires postId in s.posts
    ensures var out := CreateComment(s, caller, postId, body, now);
            Lists(GetComments(out.store, postId), out.resp.body.id)
  {
    var out := CreateComment(s, caller, postId, body, now);
    var id := out.resp.body.id;
    assert id in out.store.comments && out.store.comments[id].post == postId;
  }

  /** Once its author deletes it, a comment leaves the listing, and every
      other comment of the post stays. */
  lemma DeletedCommentUnlisted(s: Store, caller: Id, id: Id)
    requires id in s.comments && s.comments[id].author == caller
    ensures var after := DeleteComment(s, caller, id).store;
            var postId := s.comments[id].post;
            && !Lists(GetComments(after, postId), id)
            && forall other :: other in s.comments && other != id && s.comments[other].post == postId ==>
                 Lists(GetComments(after, postId), other)
  {
    var after := DeleteComment(s, caller, id).store;
    var postId := s.comments[id].post;
    var r := GetComments(after, postId);
    forall other | other in s.comments && other != id && s.comments[other].post == postId
      ensures Lists(r, other)
    {
      assert other in after.comments && after.comments[other].post == postId;
    }
  }
}
