/** The post controllers (controllers/postController.js). Every handler
    except `GetPosts` runs behind `protect`, so `caller` is the id of the
    user the gate attached. */
module Posts {
  import opened Common
  import opened Documents
  import opened Http
  import opened LikeToggle

  datatype PostBody = PostBody(title: Field, content: Field)

  const BothRequired := Resp(400, ErrorPage("Both fields are required"))
  const PostNotFound := Resp(404, Message("Post not found"))
  const NotAuthorToUpdate := Resp(404, Message("Not authorized to update this post"))
  const DeleteNotFound := Resp(403, Message("Not found"))
  const NotAuthorToDelete := Resp(403, Message("Not authorize to delete this post"))
  const PostRemoved := Resp(200, Message("Post removed"))
  const LikeNotFound := Resp(404, ErrorPage("Post not found"))

  /** The ownership test shared by update and delete. */
  predicate IsAuthor(post: Post, caller: Id) {
    post.author == caller
  }

  /** `createPost`: both fields truthy, or 400 and nothing stored. The new
      post gets the next unissued id. */
  function CreatePost(s: Store, caller: Id, body: PostBody): (out: Outcome)
    ensures !(Truthy(body.title) && Truthy(body.content)) ==> out == Outcome(BothRequired, s)
    ensures Truthy(body.title) && Truthy(body.content) ==>
              && out.resp.status == 201
              && out.resp.body.PostJson?
              && out.resp.body.id == s.nextId
              && out.resp.body.post == Post(body.title.value, body.content.value, caller, [])
              && out.store == s.(posts := s.posts[out.resp.body.id := out.resp.body.post], nextId := s.nextId + 1)
              && (IdsIssued(s) ==> out.resp.body.id !in s.posts && IdsIssued(out.store))
  {
    if !(Truthy(body.title) && Truthy(body.content)) then Outcome(BothRequired, s)
    else
      var id := s.nextId;
      var post := Post(body.title.value, body.content.value, caller, []);
      Outcome(Resp(201, PostJson(id, post)), s.(posts := s.posts[id := post], nextId := id + 1))
  }

  /** The listed form of the posts `ids`, in that order. */
  function ViewPosts(s: Store, ids: seq<Id>): (views: seq<PostView>)
    requires forall i :: 0 <= i < |ids| ==> ids[i] in s.posts
    ensures |views| == |ids|
    ensures forall i :: 0 <= i < |ids| ==> views[i].id == ids[i]
    ensures forall i :: 0 <= i < |views| ==> views[i].id in s.posts && views[i].post == s.posts[views[i].id]
    ensures forall i :: 0 <= i < |views| ==> views[i].author == Populate(s.users, views[i].post.author)
  {
    if ids == [] then []
    else [PostView(ids[0], s.posts[ids[0]], Populate(s.users, s.posts[ids[0]].author))] + ViewPosts(s, ids[1..])
  }

  /** `getPosts`: every post once, in store order, with its author joined in. */
  function GetPosts(s: Store): (r: Resp)
    ensures r.status == 200 && r.body.PostList?
    ensures forall i :: 0 <= i < |r.body.posts| ==>
              && r.body.posts[i].id in s.posts
              && r.body.posts[i].post == s.posts[r.body.posts[i].id]
              && r.body.posts[i].author == Populate(s.users, r.body.posts[i].post.author)
    ensures forall id :: id in s.posts ==> exists i :: 0 <= i < |r.body.posts| && r.body.posts[i].id == id
    ensures forall i, j :: 0 <= i < j < |r.body.posts| ==> r.body.posts[i].id < r.body.posts[j].id
  {
    var ids := SortedKeys(s.posts.Keys);
    var views := ViewPosts(s, ids);
    assert forall id :: id in s.posts ==> exists i :: 0 <= i < |views| && views[i].id == id by {
      forall id | id in s.posts
        ensures exists i :: 0 <= i < |views| && views[i].id == id
      {
        var i :| 0 <= i < |ids| && ids[i] == id;
        assert views[i].id == id;
      }
    }
    Resp(200, PostList(views))
  }

  /** `post.title = req.body.title || post.title`, and the same for content:
      only truthy fields overwrite. */
  function Revise(post: Post, body: PostBody): (p: Post)
    ensures p.author == post.author && p.likes == post.likes
    ensures p.title == if Truthy(body.title) then body.title.value else post.title
    ensures p.content == if Truthy(body.content) then body.content.value else post.content
  {
    post.(title := if Truthy(body.title) then body.title.value else post.title,
          content := if Truthy(body.content) then body.content.value else post.content)
  }

  /** `updatePost` as written: the two error replies are not followed by a
      `return`. A missing post throws right after its 404 (reading
      `post.author` of null) and changes nothing; a non-author's 404 goes
      out and the handler goes on to save the edit anyway. */
  function UpdatePostAsWritten(s: Store, caller: Id, id: Id, body: PostBody): (out: Outcome)
    ensures id !in s.posts ==> out == Outcome(PostNotFound, s)
    ensures id in s.posts ==>
              out.store == s.(posts := s.posts[id := Revise(s.posts[id], body)])
  {
    if id !in s.posts then
      Outcome(Send(None, PostNotFound).value, s)
    else
      var post := s.posts[id];
      var sent := if !IsAuthor(post, caller) then Send(None, NotAuthorToUpdate) else None;
      var updated := Revise(post, body);
      Outcome(Send(sent, Resp(200, PostJson(id, updated))).value,
              s.(posts := s.posts[id := updated]))
  }

  /** `updatePost` with each error reply ending the handler. */
  function UpdatePost(s: Store, caller: Id, id: Id, body: PostBody): (out: Outcome)
    ensures id !in s.posts ==> out == Outcome(PostNotFound, s)
    ensures id in s.posts && !IsAuthor(s.posts[id], caller) ==> out == Outcome(NotAuthorToUpdate, s)
    ensures id in s.posts && IsAuthor(s.posts[id], caller) ==>
              var updated := Revise(s.posts[id], body);
              out == Outcome(Resp(200, PostJson(id, updated)), s.(posts := s.posts[id := updated]))
  {
    if id !in s.posts then Outcome(PostNotFound, s)
    else if !IsAuthor(s.posts[id], caller) then Outcome(NotAuthorToUpdate, s)
    else
      var updated := Revise(s.posts[id], body);
      Outcome(Resp(200, PostJson(id, updated)), s.(posts := s.posts[id := updated]))
  }

  /** `deletePost` as written: a missing post throws after its 403 and
      changes nothing; a non-author's 403 goes out and the post is deleted
      anyway. */
  function DeletePostAsWritten(s: Store, caller: Id, id: Id): (out: Outcome)
    ensures id !in s.posts ==> out == Outcome(DeleteNotFound, s)
    ensures id in s.posts ==> out.store == s.(posts := s.posts - {id})
  {
    if id !in s.posts then
      Outcome(Send(None, DeleteNotFound).value, s)
    else
      var sent := if !IsAuthor(s.posts[id], caller) then Send(None, NotAuthorToDelete) else None;
      Outcome(Send(sent, PostRemoved).value, s.(posts := s.posts - {id}))
  }

  /** `deletePost` with each error reply ending the handler. Comments of
      the post are left in place: there is no cascade. */
  function DeletePost(s: Store, caller: Id, id: Id): (out: Outcome)
    ensures id !in s.posts ==> out == Outcome(DeleteNotFound, s)
    ensures id in s.posts && !IsAuthor(s.posts[id], caller) ==> out == Outcome(NotAuthorToDelete, s)
    ensures id in s.posts && IsAuthor(s.posts[id], caller) ==>
              out == Outcome(PostRemoved, s.(posts := s.posts - {id}))
  {
    if id !in s.posts then Outcome(DeleteNotFound, s)
    else if !IsAuthor(s.posts[id], caller) then Outcome(NotAuthorToDelete, s)
    else Outcome(PostRemoved, s.(posts := s.posts - {id}))
  }

  /** `toggleLike`: any authenticated user, the author included, flips
      their own membership in `likes`; nothing else changes. */
  function ToggleLike(s: Store, caller: Id, id: Id): (out: Outcome)
    ensures id !in s.posts ==> out == Outcome(LikeNotFound, s)
    ensures id in s.posts ==>
              id in out.store.posts &&
              var likes := out.store.posts[id].likes;
              && out.store == s.(posts := s.posts[id := s.posts[id].(likes := likes)])
              && (caller in likes <==> caller !in s.posts[id].likes)
              && (forall v :: v != caller ==> (v in likes <==> v in s.posts[id].likes))
              && out.resp == Resp(200, LikesJson(|likes|, likes))
  {
    if id !in s.posts then Outcome(LikeNotFound, s)
    else
      var post := s.posts[id];
      var likes := Toggle(post.likes, caller);
      Outcome(Resp(200, LikesJson(|likes|, likes)), s.(posts := s.posts[id := post.(likes := likes)]))
  }

  /** The missing `return`s change the store but not the reply: the client
      gets the same first response from both versions. */
  lemma AsWrittenRepliesAlike(s: Store, caller: Id, id: Id, body: PostBody)
    ensures UpdatePostAsWritten(s, caller, id, body).resp == UpdatePost(s, caller, id, body).resp
    ensures DeletePostAsWritten(s, caller, id).resp == DeletePost(s, caller, id).resp
  {
  }

  /** As written, a non-author is told "Not authorized" and the edit is
      saved all the same. */
  lemma NonAuthorUpdatePersistsAsWritten(s: Store, caller: Id, id: Id, title: string)
    requires id in s.posts && !IsAuthor(s.posts[id], caller)
    requires title != "" && title != s.posts[id].title
    ensures var out := UpdatePostAsWritten(s, caller, id, PostBody(Some(title), None));
            && out.resp == NotAuthorToUpdate
            && out.store.posts[id].title == title
            && out.store != s
  {
  }

  /** As written, a non-author is told "Not authorize to delete" and the
      post is deleted all the same. */
  lemma NonAuthorDeletePersistsAsWritten(s: Store, caller: Id, id: Id)
    requires id in s.posts && !IsAuthor(s.posts[id], caller)
    ensures var out := DeletePostAsWritten(s, caller, id);
            out.resp == NotAuthorToDelete && id !in out.store.posts
  {
  }

  /** With the early returns, only a post's author can change or remove it,
      and a non-author's request changes nothing at all. */
  lemma OnlyAuthorMutatesPost(s: Store, caller: Id, id: Id, body: PostBody)
    ensures UpdatePost(s, caller, id, body).store != s ==> id in s.posts && IsAuthor(s.posts[id], caller)
    ensures DeletePost(s, caller, id).store != s ==> id in s.posts && IsAuthor(s.posts[id], caller)
    ensures id in s.posts && IsAuthor(s.posts[id], caller) ==> id !in DeletePost(s, caller, id).store.posts
  {
  }

  /** An author's update with nothing truthy in the body rewrites the post
      as it was. */
  lemma EmptyUpdateKeepsPost(s: Store, caller: Id, id: Id, title: Field, content: Field)
    requires id in s.posts && IsAuthor(s.posts[id], caller)
    requires !Truthy(title) && !Truthy(content)
    ensures UpdatePost(s, caller, id, PostBody(title, content)).store == s
  {
    assert s.posts[id := s.posts[id]] == s.posts;
  }

  /** Deleting a post removes only that post; its comments stay behind,
      pointing at a post that no longer exists. */
  lemma DeletePostOrphansComments(s: Store, caller: Id, id: Id, c: Id)
    requires id in s.posts && IsAuthor(s.posts[id], caller)
    requires c in s.comments && s.comments[c].post == id
    ensures var after := DeletePost(s, caller, id).store;
            && after.comments == s.comments
            && after.users == s.users
            && (forall other :: other in s.posts && other != id ==> other in after.posts && after.posts[other] == s.posts[other])
            && after.comments[c].post !in after.posts
  {
  }

  /** Toggling keeps every post's likers distinct. */
  lemma ToggleLikeKeepsLikersDistinct(s: Store, caller: Id, id: Id)
    requires LikersDistinct(s.posts)
    ensures LikersDistinct(ToggleLike(s, caller, id).store.posts)
  {
    if id in s.posts {
      ToggleKeepsLikersDistinct(s.posts[id].likes, caller);
    }
  }
}
