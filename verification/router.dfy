/** The HTTP surface (routes/authRoutes.js, routes/postRoutes.js,
    routes/commentRoutes.js): which handler answers which request, and
    which of them sit behind `protect`. The post routes use the handlers
    with the early returns in place. */
module Router {
  import opened Common
  import opened Documents
  import opened Http
  import opened Externals
  import opened Auth
  import Users
  import Posts
  import Comments
  import LikeToggle

  datatype Request =
    | Register(signup: Users.RegisterBody)               // POST /api/auth/register
    | Login(creds: Users.LoginBody)                      // POST /api/auth/login
    | Profile(auth: Option<string>)                      // GET /api/auth/profile
    | ListPosts                                          // GET /api/posts
    | NewPost(auth: Option<string>, post: Posts.PostBody)                 // POST /api/posts
    | EditPost(auth: Option<string>, id: Id, post: Posts.PostBody)        // PUT /api/posts/:id
    | RemovePost(auth: Option<string>, id: Id)                            // DELETE /api/posts/:id
    | LikePost(auth: Option<string>, id: Id)                              // PATCH /api/posts/:id/like
    | ListComments(postId: Id)                                            // GET /api/comments/:postId
    | NewComment(auth: Option<string>, postId: Id, comment: Comments.CommentBody) // POST /api/comments/:postId
    | RemoveComment(auth: Option<string>, id: Id)                         // DELETE /api/comments/:id

  /** The request-independent collaborators: the token codec, the password
      hasher, and the clock reading stamped on new comments. */
  datatype Env = Env(jwt: Jwt, bc: Bcrypt, now: int)

  /** Routes mounted with `protect` in front of their handler. */
  predicate Guarded(req: Request) {
    !(req.Register? || req.Login? || req.ListPosts? || req.ListComments?)
  }

  /** A guarded route's handler, run as the user the gate attached. */
  function Dispatch(s: Store, user: PublicUser, req: Request, env: Env): Outcome
    requires Guarded(req)
  {
    match req
    case Profile(_) => Outcome(Resp(200, UserJson(user)), s)
    case NewPost(_, body) => Posts.CreatePost(s, user.id, body)
    case EditPost(_, id, body) => Posts.UpdatePost(s, user.id, id, body)
    case RemovePost(_, id) => Posts.DeletePost(s, user.id, id)
    case LikePost(_, id) => Posts.ToggleLike(s, user.id, id)
    case NewComment(_, postId, body) => Comments.CreateComment(s, user.id, postId, body, env.now)
    case RemoveComment(_, id) => Comments.DeleteComment(s, user.id, id)
  }

  /** One request against the store. */
  function Handle(s: Store, req: Request, env: Env): (out: Outcome)
    ensures Guarded(req) && Protect(req.auth, env.jwt, s.users).Deny? ==>
              out == Outcome(Protect(req.auth, env.jwt, s.users).resp, s) && out.resp.status == 401
    ensures req.Login? || req.ListPosts? || req.ListComments? || req.Profile? ==> out.store == s
  {
    match req
    case Register(body) => Users.Register(s, body, env.bc, env.jwt)
    case Login(body) => Outcome(Users.Login(s, body, env.bc, env.jwt), s)
    case ListPosts => Outcome(Posts.GetPosts(s), s)
    case ListComments(postId) => Outcome(Comments.GetComments(s, postId), s)
    case _ =>
      match Protect(req.auth, env.jwt, s.users)
      case Deny(r) => Outcome(r, s)
      case Next(user) => Dispatch(s, user, req, env)
  }

  /** The request passes the gate as user `id`. */
  predicate ActsAs(s: Store, req: Request, env: Env, id: Id) {
    Guarded(req) && Protect(req.auth, env.jwt, s.users).Next? && Protect(req.auth, env.jwt, s.users).user.id == id
  }

  /** Whatever the request, on a store whose ids were all issued, a post's title or content changes, or the post
      disappears, only when the request carries its author's token. */
  lemma PostChangesNeedAuthor(s: Store, req: Request, env: Env, id: Id)
    requires IdsIssued(s)
    requires id in s.posts
    ensures var after := Handle(s, req, env).store;
            (id !in after.posts || after.posts[id].title != s.posts[id].title
                                || after.posts[id].content != s.posts[id].content) ==>
              ActsAs(s, req, env, s.posts[id].author)
  {
  }

  /** Whatever the request, on a store whose ids were all issued, a user's like appears or disappears only when
      the request carries that user's token. */
  lemma LikeChangesNeedLiker(s: Store, req: Request, env: Env, id: Id, v: Id)
    requires IdsIssued(s)
    requires id in s.posts
    ensures var after := Handle(s, req, env).store;
            id in after.posts && (v in after.posts[id].likes <==> v !in s.posts[id].likes) ==>
              ActsAs(s, req, env, v)
  {
    if Guarded(req) && Protect(req.auth, env.jwt, s.users).Next? && req.LikePost? {
      var user := Protect(req.auth, env.jwt, s.users).user;
      var after := Handle(s, req, env).store;
      if req.id == id && id in after.posts {
        assert after.posts[id].likes == LikeToggle.Toggle(s.posts[id].likes, user.id);
      }
    }
  }

  /** Whatever the request, a comment disappears only when the request
      carries its author's token. */
  lemma CommentRemovalNeedsAuthor(s: Store, req: Request, env: Env, id: Id)
    requires id in s.comments
    ensures id !in Handle(s, req, env).store.comments ==> ActsAs(s, req, env, s.comments[id].author)
  {
  }

  /** Every route keeps the store invariant: unique emails, distinct likers,
      registered authors. */
  lemma HandleKeepsValid(s: Store, req: Request, env: Env)
    requires Valid(s)
    ensures Valid(Handle(s, req, env).store)
  {
    var after := Handle(s, req, env).store;
    HandleIssuesFreshIds(s, req, env);
    assert IdsIssued(after);
    HandleKeepsEmailsUnique(s, req, env);
    HandleKeepsLikersDistinct(s, req, env);
    HandleKeepsAuthorsRegistered(s, req, env);
  }

  lemma HandleKeepsEmailsUnique(s: Store, req: Request, env: Env)
    requires UniqueEmails(s.users)
    ensures UniqueEmails(Handle(s, req, env).store.users)
  {
    if req.Register? {
      Users.RegisterKeepsEmailsUnique(s, req.signup, env.bc, env.jwt);
    }
  }

  lemma HandleKeepsLikersDistinct(s: Store, req: Request, env: Env)
    requires LikersDistinct(s.posts)
    ensures LikersDistinct(Handle(s, req, env).store.posts)
  {
    if Guarded(req) && Protect(req.auth, env.jwt, s.users).Next? {
      var user := Protect(req.auth, env.jwt, s.users).user;
      if req.LikePost? {
        Posts.ToggleLikeKeepsLikersDistinct(s, user.id, req.id);
      } else if req.EditPost? && req.id in s.posts && s.posts[req.id].author == user.id {
        assert Handle(s, req, env).store.posts == s.posts[req.id := Posts.Revise(s.posts[req.id], req.post)];
      }
    }
  }

  lemma HandleKeepsAuthorsRegistered(s: Store, req: Request, env: Env)
    requires AuthorsRegistered(s)
    ensures AuthorsRegistered(Handle(s, req, env).store)
  {
    var after := Handle(s, req, env).store;
    if req.Register? {
      assert s.users.Keys <= after.users.Keys;
    } else if Guarded(req) && Protect(req.auth, env.jwt, s.users).Next? {
      var user := Protect(req.auth, env.jwt, s.users).user;
      if req.EditPost? && req.id in s.posts && s.posts[req.id].author == user.id {
        assert after.posts == s.posts[req.id := Posts.Revise(s.posts[req.id], req.post)];
      }
    }
  }

  /** Ids only move forward: every route keeps all ids issued, never
      lowers the counter, and never brings back an issued id that is gone. */
  lemma HandleIssuesFreshIds(s: Store, req: Request, env: Env)
    requires IdsIssued(s)
    ensures var after := Handle(s, req, env).store;
            && IdsIssued(after)
            && s.nextId <= after.nextId
            && (forall id :: id < s.nextId && id !in s.users ==> id !in after.users)
            && (forall id :: id < s.nextId && id !in s.posts ==> id !in after.posts)
            && (forall id :: id < s.nextId && id !in s.comments ==> id !in after.comments)
  {
    if Guarded(req) && Protect(req.auth, env.jwt, s.users).Next? {
      var user := Protect(req.auth, env.jwt, s.users).user;
      if req.EditPost? && req.id in s.posts && s.posts[req.id].author == user.id {
        assert Handle(s, req, env).store.posts.Keys == s.posts.Keys;
      } else if req.LikePost? && req.id in s.posts {
        assert Handle(s, req, env).store.posts.Keys == s.posts.Keys;
      }
    }
  }

  /** One request, with the clock reading at the time it arrives. */
  datatype Step = Step(req: Request, env: Env)

  /** The store after the requests `steps`, handled one after another. */
  function Replay(s: Store, steps: seq<Step>): Store
    decreases |steps|
  {
    if steps == [] then s else Replay(Handle(s, steps[0].req, steps[0].env).store, steps[1..])
  }

  /** However many requests follow, an issued post or comment id that is
      gone stays gone: ids are never handed out twice. */
  lemma {:induction false} FreedIdsStayFree(s: Store, steps: seq<Step>, id: Id)
    requires IdsIssued(s) && id < s.nextId
    ensures IdsIssued(Replay(s, steps))
    ensures id !in s.posts ==> id !in Replay(s, steps).posts
    ensures id !in s.comments ==> id !in Replay(s, steps).comments
    decreases |steps|
  {
    if steps != [] {
      HandleIssuesFreshIds(s, steps[0].req, steps[0].env);
      FreedIdsStayFree(Handle(s, steps[0].req, steps[0].env).store, steps[1..], id);
    }
  }

  /** Once its author deletes a comment, any later `DELETE` of that id, by
      anyone and after any other requests, is refused and changes nothing. */
  lemma StaleCommentDeleteIsRefused(s: Store, c: Id, steps: seq<Step>, auth: Option<string>, env: Env)
    requires IdsIssued(s) && c in s.comments
    ensures var s1 := Comments.DeleteComment(s, s.comments[c].author, c).store;
            var s2 := Replay(s1, steps);
            var out := Handle(s2, RemoveComment(auth, c), env);
            && out.store == s2
            && (out.resp == Comments.CommentNotFound || out.resp.status == 401)
  {
    var s1 := Comments.DeleteComment(s, s.comments[c].author, c).store;
    FreedIdsStayFree(s1, steps, c);
  }

  /** A post just created lists no comments, even where an older post was
      deleted with its comments left behind. */
  lemma NewPostListsNoComments(s: Store, auth: Option<string>, body: Posts.PostBody, env: Env)
    requires IdsIssued(s)
    ensures var out := Handle(s, NewPost(auth, body), env);
            out.resp.status == 201 ==>
              Handle(out.store, ListComments(out.resp.body.id), env).resp == Resp(200, CommentList([]))
  {
  }

  /** End to end: register, log in with the same credentials, and the
      returned token opens the profile route as the new user. */
  lemma RegisterLoginThenProfile(s: Store, body: Users.RegisterBody, env: Env)
    requires TokensSound(env.jwt) && HashSound(env.bc)
    requires UniqueEmails(s.users)
    requires Users.Complete(body) && Users.EmailUnused(s.users, body.email.value)
    ensures var s1 := Handle(s, Register(body), env).store;
            var id := Handle(s, Register(body), env).resp.body.id;
            var login := Handle(s1, Login(Users.LoginBody(body.email, body.password)), env).resp;
            && login.body.AuthJson?
            && login.body.token == env.jwt.sign(id)
            && Handle(s1, Profile(Some("Bearer " + login.body.token)), env)
                 == Outcome(Resp(200, UserJson(PublicUser(id, body.name.value, body.email.value))), s1)
  {
    var out := Handle(s, Register(body), env);
    var id := out.resp.body.id;
    Users.RegisterThenLogin(s, body, env.bc, env.jwt);
    IssuedTokenAdmits(id, env.jwt, out.store.users);
  }

  /** The route table as the repository wires it: update and delete run
      without their early returns. Every other route is as in `Handle`. */
  function HandleAsWritten(s: Store, req: Request, env: Env): (out: Outcome)
    ensures !(req.EditPost? || req.RemovePost?) ==> out == Handle(s, req, env)
    ensures out.resp == Handle(s, req, env).resp
  {
    match req
    case EditPost(auth, id, body) =>
      (match Protect(auth, env.jwt, s.users)
       case Deny(r) => Outcome(r, s)
       case Next(user) =>
         Posts.AsWrittenRepliesAlike(s, user.id, id, body);
         Posts.UpdatePostAsWritten(s, user.id, id, body))
    case RemovePost(auth, id) =>
      (match Protect(auth, env.jwt, s.users)
       case Deny(r) => Outcome(r, s)
       case Next(user) =>
         Posts.AsWrittenRepliesAlike(s, user.id, id, Posts.PostBody(None, None));
         Posts.DeletePostAsWritten(s, user.id, id))
    case _ => Handle(s, req, env)
  }

  /** With the routes as wired, any registered user's token deletes someone
      else's post: the request does not act as the author, the reply says
      "Not authorize to delete this post", and the post is gone. */
  lemma AsWrittenRouteLetsNonAuthorDelete(s: Store, env: Env, id: Id, u: Id)
    requires TokensSound(env.jwt)
    requires id in s.posts && u in s.users && s.posts[id].author != u
    ensures var req := RemovePost(Some("Bearer " + env.jwt.sign(u)), id);
            var out := HandleAsWritten(s, req, env);
            && !ActsAs(s, req, env, s.posts[id].author)
            && out.resp == Posts.NotAuthorToDelete
            && id !in out.store.posts
  {
    IssuedTokenAdmits(u, env.jwt, s.users);
  }
}
