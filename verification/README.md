# blogApp: authentication gate, ownership checks and resource state, in Dafny

This project models the server core of a small Express/MongoDB blogging
service and two pure helpers of its browser client. Users register and
log in, then create, edit, delete and like posts and comment on them.

What is modelled:

- **The auth gate** `protect` (module `Auth`). It reads the
  `Authorization` header, takes the second space-separated piece as the
  token, verifies it and looks the user up. It ends in "continue with this
  user", in 401 "no token", or in 401 "token failed".
- **The post, comment and user controllers** (modules `Posts`,
  `Comments`, `Users`). Each is a pure function from a store and a request
  to a response and a new store (`Http.Outcome`).
- **The like toggle** (module `LikeToggle`). It is a two-state machine
  per (post, user) pair over the post's `likes` array.
- **The route table** (module `Router`). It puts `protect` in front of
  exactly the routes that mount it.
- **The client helpers** (module `Client`): `validateForm`, including the
  unanchored `\S+@\S+\.\S+` email test, the 150-character post preview, and
  the tests that decide which like/edit/delete controls the page shows.

The collaborators are modelled as follows:

- jsonwebtoken is a pair of functions `sign`/`verify` (`Externals.Jwt`).
  The clock is folded into `verify`, which returns `None` when the token
  is bad or expired.
- bcryptjs is a pair of functions `hash`/`compare` (`Externals.Bcrypt`).
- What the model needs from these libraries is stated as predicates and
  assumed only where a lemma `requires` it. `TokensSound` says an issued
  token verifies to its id, is non-empty and has no space. `HashSound` says
  a password matches its own digest.
- The clock reading stamped on a new comment is a parameter (`Router.Env.now`).
- Document ids are natural numbers issued from one counter in the store
  (`Documents.Store.nextId`). Every create takes the counter's value and
  raises it, so an id is never handed out twice, even after its document
  is deleted. This matches MongoDB ObjectIds, which are never reused and
  grow with time. A collection scan returns documents in ascending id
  order. `Documents.IdsIssued` states that every id in use lies below the
  counter. Every route keeps that invariant (`Router.HandleIssuesFreshIds`).

Two behaviours of the code are easy to misread:

- Errors raised with `throw` inside `asyncHandler` are not answered as
  JSON `{message}`. They reach Express's default error handler, because
  `server.js` installs no error middleware, and that handler renders an
  HTML error page. They are modelled as `ErrorPage(message)` and kept apart
  from `Message(message)`, the `res.json({message})` replies.
- There is no separate "user not found" reply. A valid token whose user
  no longer exists gets the same "Not authorized, token failed" reply as a
  forged token.

Handlers that answer twice are modelled with `Http.Send`: the client
keeps the first response, and the store keeps every effect the handler
reached.

The like round trip holds for the set of likers and for the count. It
does not always hold for the array. Like-then-unlike restores the array
exactly (`LikeToggle.LikeThenUnlikeRestores`). Unlike-then-like moves the
caller to the end (`LikeToggle.UnlikeThenLikeReorders`).

## Model

| member | source | states |
|---|---|---|
| JsString.Split | middleware/authMiddleware.js:9 | `split(' ')` yields at least one piece and no piece contains the separator |
| JsString.JoinSplit | middleware/authMiddleware.js:9 | joining the pieces of a split with the separator gives back the original header |
| JsString.SplitJoin | middleware/authMiddleware.js:9 | splitting a join of separator-free pieces gives back exactly those pieces |
| JsString.SplitHasManyPieces | middleware/authMiddleware.js:9 | there is a second piece exactly when the header contains a space |
| Externals.Verify | middleware/authMiddleware.js:11 | an undefined or empty token is rejected before the signature is looked at; any other token is judged by `verify` |
| JsString.StartsWith | middleware/authMiddleware.js:7 | `startsWith`: the string begins with the given prefix |
| Documents.Public | middleware/authMiddleware.js:12 | `select('-password')`: the user record with its id, name and email, without the password digest |
| Auth.BearerToken | middleware/authMiddleware.js:9 | the token is undefined exactly when the header has no space, and a defined token never contains a space |
| Auth.Protect | middleware/authMiddleware.js:4-23 | a missing header or one not starting with "Bearer" gives 401 "no token"; every other rejection is 401 "token failed"; the gate passes exactly when the token verifies to the id of a stored user, and the attached user is that record without its password |
| Auth.BearerTokenOf | middleware/authMiddleware.js:7-9 | "Bearer " followed by a space-free token carries exactly that token |
| Auth.BareBearerFails | middleware/authMiddleware.js:7-18 | "Bearer" alone, or "Bearer" glued to more text with no space, passes the prefix test but ends in "token failed" |
| Auth.RejectedTokenFails | middleware/authMiddleware.js:11-18 | a token that `verify` rejects, whether for a bad signature or for expiry, gets "token failed" |
| Auth.UnknownUserLooksLikeBadToken | middleware/authMiddleware.js:11-18 | a valid token for a deleted user gets the very reply a forged token gets |
| Auth.IssuedTokenAdmits | middleware/authMiddleware.js:11-16 | a token issued for a stored user opens the gate as that user, without the password |
| Users.FindByEmail | controllers/userControllers.js:21 | the lookup returns a user with that address, or nothing exactly when no user has it |
| Users.Register | controllers/userControllers.js:13-46 | a falsy name, email or password gives 400 "All fields are required" and no change; a used address gives 400 "User already exists" and no change; truthy fields and an unused address always give 201, adding exactly one user under the next unissued id, with the password's digest, and the reply carries a token for that id |
| Users.Login | controllers/userControllers.js:50-70 | falsy fields give 400; a 200 names a user with that address whose digest matches, with a token issued for that user; the store is never changed |
| Users.RegisterKeepsEmailsUnique | controllers/userControllers.js:21-32 | registration preserves the uniqueness of email addresses |
| Users.RegisterTwiceConflicts | controllers/userControllers.js:21-25 | a second registration with the same address gets 400 "User already exists" and adds no user |
| Users.LoginSucceedsIff | controllers/userControllers.js:58-66 | when addresses are unique, login succeeds exactly when some user has the address and a matching digest, and the token is issued for that user |
| Users.UnknownEmailLooksLikeWrongPassword | controllers/userControllers.js:58-69 | an unknown address and a wrong password get the identical 401 "Invalid email or password" |
| Users.RegisterThenLogin | controllers/userControllers.js:13-70 | logging in with the credentials just registered succeeds, as the new user |
| LikeToggle.Without | controllers/postController.js:71-73 | the filter removes every occurrence of the caller and keeps every other id as often as it occurred |
| LikeToggle.Toggle | controllers/postController.js:70-76 | the caller's membership flips and every other user's membership is unchanged |
| LikeToggle.WithoutOne | controllers/postController.js:71-73 | on a duplicate-free array, removing a present id shortens it by one and keeps it duplicate-free |
| LikeToggle.ToggleKeepsLikersDistinct | controllers/postController.js:70-76 | a toggle keeps the likers distinct and moves the count by exactly one |
| LikeToggle.ToggleTwiceSameLikers | controllers/postController.js:70-76 | two toggles by the same user give the same set of likers back |
| LikeToggle.ToggleTwiceSameCount | controllers/postController.js:70-79 | two toggles give the same like count back when no one liked twice |
| LikeToggle.LikeThenUnlikeRestores | controllers/postController.js:70-76 | like followed by unlike restores the array exactly |
| LikeToggle.WithoutAppended | controllers/postController.js:71-75 | filtering out an id that was just pushed onto an array without it gives that array back |
| LikeToggle.UnlikeThenLikeReorders | controllers/postController.js:70-76 | unlike followed by like moves the caller to the end, so the array is not restored |
| Posts.CreatePost | controllers/postController.js:5-19 | a falsy title or content gives 400 and no change; otherwise 201 adds exactly one post, written by the caller, with no likes, under the next unissued id, which no post has and which is never issued again |
| Documents.Populate | controllers/postController.js:24 | `populate('author', 'name email')`: the author's public record, or null when the author no longer exists |
| Posts.IsAuthor | controllers/postController.js:35 | the ownership test `post.author.toString() === req.user._id.toString()`, shared with the delete test at line 53 |
| Http.Send | controllers/postController.js:35-43 | once a response is sent it stays the response; a later `res.json` cannot replace it, while the handler's later store effects still happen |
| Posts.ViewPosts | controllers/postController.js:24 | each listed post is the stored post of that id, with its author joined in |
| Posts.GetPosts | controllers/postController.js:23-26 | the listing holds every post exactly once, in store order, with its stored content and its author joined in |
| Posts.Revise | controllers/postController.js:39-40 | only truthy body fields overwrite; the author and the likes are kept |
| Posts.UpdatePostAsWritten | controllers/postController.js:29-44 | a missing post gives 404 and no change; for an existing post the revision is saved whoever the caller is |
| Posts.UpdatePost | controllers/postController.js:29-44 | the same handler with early returns: 404 "Post not found", 404 "Not authorized to update this post" with no change, or the author's revision saved and returned |
| Posts.DeletePostAsWritten | controllers/postController.js:47-59 | a missing post gives 403 "Not found" and no change; an existing post is deleted whoever the caller is |
| Posts.DeletePost | controllers/postController.js:47-59 | the same handler with early returns: 403 "Not found", 403 for a non-author with no change, or the author's post removed |
| Posts.ToggleLike | controllers/postController.js:62-82 | a missing post gives 404 and no change; otherwise only that post's likes change, the caller's membership flips, and the reply is the new array and its length |
| Posts.AsWrittenRepliesAlike | controllers/postController.js:29-59 | the missing returns do not change the reply the client receives, only the store |
| Posts.NonAuthorUpdatePersistsAsWritten | controllers/postController.js:35-42 | as written, a non-author is told "Not authorized" and the new title is saved anyway |
| Posts.NonAuthorDeletePersistsAsWritten | controllers/postController.js:53-57 | as written, a non-author is told "Not authorize to delete" and the post is deleted anyway |
| Posts.OnlyAuthorMutatesPost | controllers/postController.js:35-57 | with early returns, update and delete change the store only for the post's author, and the author's delete does remove the post |
| Posts.EmptyUpdateKeepsPost | controllers/postController.js:39-40 | an author's update with no truthy field leaves the store as it was |
| Posts.DeletePostOrphansComments | controllers/postController.js:57 | deleting a post removes only that post; its comments stay and point at a missing post |
| Posts.ToggleLikeKeepsLikersDistinct | controllers/postController.js:70-77 | toggling keeps every post's likers distinct |
| Comments.OnPost | controllers/commentControllers.js:25 | the filter keeps exactly the comments on the post, and keeps ids distinct |
| Comments.Insert | controllers/commentControllers.js:25 | insertion adds exactly the one comment to the sequence |
| Comments.SortNewestFirst | controllers/commentControllers.js:25 | sorting permutes the comments |
| Comments.InsertKeepsOrder | controllers/commentControllers.js:25 | insertion keeps a newest-first sequence newest first |
| Comments.InsertKeepsDistinct | controllers/commentControllers.js:25 | inserting a new comment keeps the sequence free of repeats |
| Comments.SortIsNewestFirst | controllers/commentControllers.js:25 | the sort's output is ordered by `createdAt`, descending, and repeats nothing its input did not |
| Comments.ViewComments | controllers/commentControllers.js:25 | each listed comment is the stored comment of that id, with its author joined in |
| Comments.ListedAreOnPost | controllers/commentControllers.js:25 | every listed comment is a stored comment on the requested post |
| Comments.OnPostAreListed | controllers/commentControllers.js:25 | every stored comment on the requested post is listed |
| Comments.ListedOnceNewestFirst | controllers/commentControllers.js:25 | no comment is listed twice, and the listing is newest first |
| Comments.StaysListed | controllers/commentControllers.js:25 | a comment selected by the filter is still present after the author join and the sort |
| Comments.Listing | controllers/commentControllers.js:25 | the query pipeline: scan in id order, the `{post: postId}` filter, the author join, then the newest-first sort |
| Comments.GetComments | controllers/commentControllers.js:24-27 | the reply lists exactly the comments on the post, none from other posts, each once, newest first |
| Comments.CreateComment | controllers/commentControllers.js:6-21 | a missing post gives 404 and no comment; otherwise 201 adds exactly one comment by the caller on the route's post, under the next unissued id, which no comment has and which is never issued again, returned wrapped |
| Comments.DeleteComment | controllers/commentControllers.js:30-45 | a missing comment gives 404 and no change; a non-author gets 403 "Not authorized" and no change; the author's delete removes exactly that comment |
| Comments.CreatedCommentIsListed | controllers/commentControllers.js:15-25 | a new comment appears in its post's listing |
| Comments.DeletedCommentUnlisted | controllers/commentControllers.js:43-44 | a deleted comment leaves its post's listing, and every other comment of the post stays |
| Router.Guarded | routes/postRoutes.js:9-21 | `protect` is mounted on every route except register, login, the post listing and the comment listing |
| Router.Dispatch | routes/authRoutes.js:15-17 | each guarded route runs its handler as the user the gate attached; the profile route answers with that user |
| Router.Handle | routes/postRoutes.js:9-21 | the route table with update and delete corrected to return early: on a guarded route a rejected token gives the gate's 401 and no change; login, the listings and the profile never change the store |
| Router.PostChangesNeedAuthor | routes/postRoutes.js:15-18 | with update and delete corrected to return early, and on any store whose ids were all issued: for any request, a post's title or content changes, or the post disappears, only when the request carries its author's token |
| Router.LikeChangesNeedLiker | routes/postRoutes.js:21 | on any store whose ids were all issued, for any request, a user's like appears or disappears only when the request carries that user's token |
| Router.CommentRemovalNeedsAuthor | routes/commentRoutes.js:11 | for any request, a comment disappears only when the request carries its author's token |
| Router.HandleKeepsValid | routes/postRoutes.js:9-21 | every route keeps emails unique, likers distinct, authors registered and all ids issued |
| Router.HandleIssuesFreshIds | routes/postRoutes.js:9-21 | every route keeps all ids below the counter, never lowers it, and never brings back an issued user, post or comment id that is gone |
| Router.FreedIdsStayFree | routes/postRoutes.js:9-21 | after any sequence of requests, a deleted post or comment id is still absent |
| Router.StaleCommentDeleteIsRefused | controllers/commentControllers.js:31-36 | once a comment is deleted, a later `DELETE` of its id, after any other requests, gets 404 "Comment not found" (or the gate's 401) and changes nothing |
| Router.NewPostListsNoComments | controllers/commentControllers.js:24-27 | a post just created lists no comments, even when an older post was deleted and its comments stayed behind |
| Router.HandleAsWritten | routes/postRoutes.js:15-18 | the route table as wired, with update and delete lacking their early returns: every reply is the one the corrected table gives, and every route except update and delete is unchanged |
| Router.AsWrittenRouteLetsNonAuthorDelete | routes/postRoutes.js:18 | with the routes as wired, a registered user's token deletes another user's post, although the request does not act as the author and the reply says "Not authorize to delete this post" |
| Router.RegisterLoginThenProfile | routes/authRoutes.js:9-17 | register, then log in, then the returned token opens the profile route as the new user, without the password |
| Client.ShortestMatch | public/app.js:496 | an "@" and a "." with one non-space on each outer side and non-spaces between them are a match of the pattern |
| Client.MatchHasShortest | public/app.js:496 | any match of the pattern contains such a shortest match |
| Client.LooksValidMatches | public/app.js:496 | the validator's check passing implies the regular expression matches |
| Client.MatchesLooksValid | public/app.js:496 | the regular expression matching implies the validator's check passes |
| Client.EmailPatternMatches | public/app.js:496 | the reference semantics of `/\S+@\S+\.\S+/.test(s)`: some substring is a run of non-space characters, "@", a run of non-space characters, ".", and a run of non-space characters |
| Client.EmailCheckIsPattern | public/app.js:496 | the check agrees with the unanchored `\S+@\S+\.\S+` test on every string |
| Client.RanksInCheckOrder | public/app.js:487-511 | the six messages are distinct and ranked in the order the checks run |
| Client.ValidateForm | public/app.js:487-511 | at most four messages, each one of the six literals, always in the order name, email, password, confirmation |
| Client.ValidateFormReports | public/app.js:490-508 | "Name is required" appears exactly for a `null` or empty name; at most one email message, "invalid" exactly for a non-empty address with no match; at most one password message; a mismatch exactly when a confirmation other than `undefined` differs from the password, with `null` unequal to `undefined` |
| Client.ValidateFormAcceptsIff | public/app.js:487-511 | the result is empty exactly when every check passes |
| Client.Preview | public/app.js:201 | content of up to 150 characters is shown whole; longer content is cut to its first 150 characters plus "..." |
| Client.PreviewIsPrefixAndMarker | public/app.js:201 | a preview is a prefix of the content, followed by "..." exactly when the content is longer than 150 characters |
| Client.ShowsLiked | public/app.js:188 | `currentUser && likes.includes(currentUser._id)`, the filled-heart test, used again for the modal at line 305 |
| Client.ShowsOwnerControls | public/app.js:254 | `currentUser && author._id === currentUser._id`, the test for a post's edit and delete buttons, used again as `canDelete` for comments at line 345 |
| Client.HeartMatchesToggle | public/app.js:188 | the heart is filled exactly when the next click unlikes; a visitor who is not logged in never sees it filled |
| Client.PostControlsMatchServer | public/app.js:254 | the edit and delete buttons are shown exactly to the user the server lets update and delete the post |
| Client.CommentControlsMatchServer | public/app.js:345 | a comment's delete button is shown exactly to the user the server lets delete it |

## Left out

- `server.js` and `config/db.js` are left out. They only start the process, serve static files and open the database connection.
- jsonwebtoken and bcryptjs internals are left out: signatures, the 48-hour expiry arithmetic and the salt rounds. The two libraries are function parameters. What the model assumes of them is stated in `TokensSound` and `HashSound`.
- Mongoose behaviour is left out: schemas, validators and defaults, `createdAt` on users and posts, and casting a malformed id. Such casts end in a 500 from the error handler. Ids are natural numbers. `populate` is a lookup that yields nothing for a missing user.
- A store failure is left out. In a handler it ends in a 500 from the error handler. Inside `protect`, a failing user lookup is caught and answered with 401 "token failed".
- The `else` branch of `registerUser` ("Invalid user data") is also left out: `User.create` either returns a user or throws, so that branch is never reached.
- A request body is modelled as string-or-absent fields. JSON numbers, booleans, arrays and objects in a body are not modelled. The server's checks treat `null` and `undefined` alike, so they share one absent value.
- Router.Handle: wires update and delete with their early returns, not as the route table does. `Router.HandleAsWritten` is the table as wired, and `Router.AsWrittenRouteLetsNonAuthorDelete` shows that the authorship lemmas fail for it.
- Router.PostChangesNeedAuthor: holds only on stores whose ids were all issued (`Documents.IdsIssued`). Every store the routes produce is one (`Router.HandleIssuesFreshIds`). On other stores a create could overwrite an existing key.
- Router.LikeChangesNeedLiker: holds only on stores whose ids were all issued, for the same reason.
- Client.ValidateForm: fields that are numbers, booleans or objects are not modelled. The model covers `undefined`, `null` and strings.
- A handler's second response is not recorded. After a first response, a write fails with "headers already sent", and only the first status and the store effects are kept.
- Concurrent requests are left out. The lost update that two concurrent like toggles can cause is therefore not modelled.
- The logout route is left out. Its handler never sends a response.
- The register response's `createdAt` field is left out, as is the token's issue time.
- Most of the browser client is left out: DOM updates, `fetch` and `localStorage` (`apiRequest`, `loadPosts`, the modals, the alerts), `formatDate` (it reads the wall clock) and `escapeHtml` (it relies on the DOM).
- Client.Preview: counts characters, where JavaScript's `substring` and `length` count UTF-16 code units. A character outside the Basic Multilingual Plane counts once here and twice in the browser.
- Client.ValidateForm: the password length is likewise counted in characters, not UTF-16 code units.

## Findings

| source | as written | input that shows it | evidently intended | confidence | as-written member | corrected member |
|---|---|---|---|---|---|---|
| controllers/postController.js:35-42 | the non-author branch sends 404 "Not authorized to update this post" without `return`, so `post.save()` still persists the edit | a post by user A; user B sends `PUT /api/posts/:id` with body `{title: "x"}` and B's token | return after the 404 and save nothing | high, not executed | Posts.NonAuthorUpdatePersistsAsWritten | Posts.OnlyAuthorMutatesPost |
| controllers/postController.js:53-57 | the non-author branch sends 403 without `return`, so `post.deleteOne()` still removes the post | a post by user A; user B sends `DELETE /api/posts/:id` with B's token | return after the 403 and delete nothing | high, not executed | Posts.NonAuthorDeletePersistsAsWritten | Posts.OnlyAuthorMutatesPost |

The as-written lemmas are about `Posts.UpdatePostAsWritten` and
`Posts.DeletePostAsWritten`. The corrected lemma is about `Posts.UpdatePost`
and `Posts.DeletePost`, which add the early returns and keep the source's
status codes. `Router.Handle` uses the corrected handlers.
`Router.AsWrittenRouteLetsNonAuthorDelete` shows the delete bug at the
level of the routes. By
`Posts.AsWrittenRepliesAlike`, the client receives the same reply from both
versions, so the fix only removes the unauthorised store change.

The missing `return` after a missing post (lines 31-33 and 49-51) does no
damage to the store. Reading `post.author` of `null` throws right after
the reply, before anything is saved.
