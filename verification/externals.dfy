/** The two libraries the controllers call but this model does not open:
    jsonwebtoken and bcryptjs. Each is a pair of functions supplied by the
    caller; the predicates say what the rest of the model relies on. */
module Externals {
  import opened Common

  /** `sign` is `jwt.sign({id}, secret, {expiresIn: '48h'})`; `verify` is
      `jwt.verify(token, secret)` at the moment of the request, `None` when
      it throws (bad signature, malformed or expired token alike). */
  datatype Jwt = Jwt(sign: Id -> string, verify: string -> Option<Id>)

  /** `hash` is `bcrypt.hash(password, 10)`; `compare` is `bcrypt.compare`. */
  datatype Bcrypt = Bcrypt(hash: string -> string, compare: (string, string) -> bool)

  /** A freshly issued token verifies to the id it was issued for (that is,
      it has not expired yet), and, being three base64url segments joined by
      dots, is non-empty and contains no space. */
  ghost predicate TokensSound(jwt: Jwt) {
    forall id: Id :: jwt.verify(jwt.sign(id)) == Some(id) && jwt.sign(id) != "" && ' ' !in jwt.sign(id)
  }

  /** A password matches its own digest. */
  ghost predicate HashSound(bc: Bcrypt) {
    forall p :: bc.compare(p, bc.hash(p))
  }

  /** `jwt.verify` first rejects a missing or empty token ("jwt must be
      provided"), then checks the signature and expiry. */
  function Verify(jwt: Jwt, token: Option<string>): (r: Option<Id>)
    ensures token.None? ==> r.None?
    ensures token == Some("") ==> r.None?
    ensures token.Some? && token.value != "" ==> r == jwt.verify(token.value)
  {
    if token.None? || token.value == "" then None else jwt.verify(token.value)
  }
}
