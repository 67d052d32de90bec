/** The `protect` middleware: the gate in front of every route that needs a
    logged-in user (middleware/authMiddleware.js). */
module Auth {
  import opened Common
  import opened Documents
  import opened Http
  import opened Externals
  import opened JsString

  /** Either `next()` runs with `req.user` set, or a 401 goes out and the
      route handler never runs; the two are exclusive by construction. */
  datatype Gate = Next(user: PublicUser) | Deny(resp: Resp)

  const NoToken := Resp(401, Message("Not authorized, no token"))
  const TokenFailed := Resp(401, Message("Not authorized, token failed"))

  /** `authorization.split(' ')[1]`: the second space-separated piece,
      undefined when the header has no space at all. */
  function BearerToken(header: string): (t: Option<string>)
    ensures t.None? <==> ' ' !in header
    ensures t.Some? ==> ' ' !in t.value
  {
    SplitHasManyPieces(header, ' ');
    var fields := Split(header, ' ');
    if |fields| > 1 then Some(fields[1]) else None
  }

  /** `protect`. The prefix test is `startsWith('Bearer')` with no space
      required; any failure inside the `try` (no token, a token `verify`
      rejects, an id with no user) ends in the same "token failed" reply. */
  function Protect(header: Option<string>, jwt: Jwt, users: map<Id, User>): (g: Gate)
    ensures g.Deny? ==> g.resp.status == 401
    ensures g == Deny(NoToken) <==> header.None? || !StartsWith(header.value, "Bearer")
    ensures g.Deny? ==> g.resp == NoToken || g.resp == TokenFailed
    ensures g.Next? ==>
              && header.Some?
              && Verify(jwt, BearerToken(header.value)) == Some(g.user.id)
              && g.user.id in users
              && g.user == Public(g.user.id, users[g.user.id])
    ensures header.Some? && StartsWith(header.value, "Bearer") ==>
              var id := Verify(jwt, BearerToken(header.value));
              (g.Next? <==> id.Some? && id.value in users)
  {
    if header.None? || !StartsWith(header.value, "Bearer") then Deny(NoToken)
    else
      match Verify(jwt, BearerToken(header.value))
      case None => Deny(TokenFailed)
      case Some(id) => if id in users then Next(Public(id, users[id])) else Deny(TokenFailed)
  }

  /** "Bearer " followed by a space-free token carries exactly that token. */
  lemma BearerTokenOf(t: string)
    requires ' ' !in t
    ensures BearerToken("Bearer " + t) == Some(t)
  {
    assert "Bearer " + t == "Bearer" + [' '] + t;
    SplitAfterPrefix("Bearer", ' ', t);
    SplitNoSep(t, ' ');
  }

  /** "Bearer", or "Bearer" glued to more text without a space, passes the
      prefix test but has no second piece: `verify` gets `undefined`, and
      the reply is "token failed", not "no token". */
  lemma BareBearerFails(rest: string, jwt: Jwt, users: map<Id, User>)
    requires ' ' !in rest
    ensures Protect(Some("Bearer" + rest), jwt, users) == Deny(TokenFailed)
  {
    var h := "Bearer" + rest;
    assert h[..6] == "Bearer";
    assert ' ' !in h by {
      assert forall i :: 0 <= i < |h| ==> h[i] == if i < 6 then "Bearer"[i] else rest[i - 6];
    }
  }

  /** A token `verify` rejects (bad signature and expiry alike) gets the
      "token failed" reply. */
  lemma RejectedTokenFails(t: string, jwt: Jwt, users: map<Id, User>)
    requires ' ' !in t
    requires jwt.verify(t) == None
    ensures Protect(Some("Bearer " + t), jwt, users) == Deny(TokenFailed)
  {
    BearerTokenOf(t);
    assert ("Bearer " + t)[..6] == "Bearer";
  }

  /** A valid token whose user is gone gets the very reply a forged token
      gets: the caller cannot tell the two apart. */
  lemma UnknownUserLooksLikeBadToken(t: string, bad: string, id: Id, jwt: Jwt, users: map<Id, User>)
    requires ' ' !in t && ' ' !in bad
    requires jwt.verify(t) == Some(id) && id !in users
    requires jwt.verify(bad) == None
    ensures Protect(Some("Bearer " + t), jwt, users) == Protect(Some("Bearer " + bad), jwt, users)
  {
    BearerTokenOf(t);
    BearerTokenOf(bad);
    assert ("Bearer " + t)[..6] == "Bearer";
    assert ("Bearer " + bad)[..6] == "Bearer";
  }

  /** A token issued for a registered user opens the gate, and the request
      carries that user without the password digest. */
  lemma IssuedTokenAdmits(id: Id, jwt: Jwt, users: map<Id, User>)
    requires TokensSound(jwt)
    requires id in users
    ensures Protect(Some("Bearer " + jwt.sign(id)), jwt, users) == Next(Public(id, users[id]))
  {
    var t := jwt.sign(id);
    BearerTokenOf(t);
    assert ("Bearer " + t)[..6] == "Bearer";
  }
}
