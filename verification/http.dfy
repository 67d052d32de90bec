/** Responses as the client sees them, and Express's rule that only the
    first response a handler writes reaches the client. */
module Http {
  import opened Common
  import opened Documents

  /** A post of the listing, its author joined in. */
  datatype PostView = PostView(id: Id, post: Post, author: Option<PublicUser>)

  /** A comment of the listing, its author joined in. */
  datatype CommentView = CommentView(id: Id, comment: Comment, author: Option<PublicUser>)

  datatype Body =
    | Message(text: string)        // `res.json({message})`
    | ErrorPage(text: string)      // a thrown Error, rendered by Express's default error handler
    | PostJson(id: Id, post: Post)
    | PostList(posts: seq<PostView>)
    | LikesJson(likesCount: nat, likesBy: seq<Id>)
    | CommentJson(id: Id, comment: Comment)   // wrapped as `{comment}`
    | CommentList(comments: seq<CommentView>)
    | AuthJson(id: Id, name: string, email: Option<string>, token: string)
    | UserJson(user: PublicUser)

  datatype Resp = Resp(status: nat, body: Body)

  /** What one request leaves behind: the response the client received and
      the store afterwards. */
  datatype Outcome = Outcome(resp: Resp, store: Store)

  /** Writing a response when `sent` has already gone out fails with
      "headers already sent": the client keeps the first one. */
  function Send(sent: Option<Resp>, r: Resp): (after: Option<Resp>)
    ensures after.Some?
    ensures sent.Some? ==> after == sent
  {
    if sent.Some? then sent else Some(r)
  }
}
