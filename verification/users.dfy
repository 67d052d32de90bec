/** Registration and login (controllers/userControllers.js). */
module Users {
  import opened Common
  import opened Documents
  import opened Http
  import opened Externals

  datatype RegisterBody = RegisterBody(name: Field, email: Field, password: Field)
  datatype LoginBody = LoginBody(email: Field, password: Field)

  const FieldsRequired := Resp(400, ErrorPage("All fields are required"))
  const AlreadyExists := Resp(400, ErrorPage("User already exists"))
  const BadCredentials := Resp(401, ErrorPage("Invalid email or password"))

  /** `User.findOne({email})`: some user with that address, if any. */
  function FindByEmail(users: map<Id, User>, email: string): (r: Option<Id>)
    ensures r.Some? ==> r.value in users && users[r.value].email == email
    ensures r.None? <==> forall id :: id in users ==> users[id].email != email
  {
    var ids := set id | id in users && users[id].email == email;
    assert forall id :: id in users && users[id].email == email ==> id in ids;
    if ids == {} then None else Some(Least(ids))
  }

  /** All three registration fields are truthy. */
  predicate Complete(body: RegisterBody) {
    Truthy(body.name) && Truthy(body.email) && Truthy(body.password)
  }

  /** No stored user has the address `email`. */
  ghost predicate EmailUnused(users: map<Id, User>, email: string) {
    forall id :: id in users ==> users[id].email != email
  }

  /** `registerUser`: all three fields must be truthy and the address
      unused; then registration always succeeds. The new user gets the next
      unissued id and stores the digest of the password, and the reply
      carries a token issued for the new id. */
  function Register(s: Store, body: RegisterBody, bc: Bcrypt, jwt: Jwt): (out: Outcome)
    ensures !Complete(body) ==> out == Outcome(FieldsRequired, s)
    ensures Complete(body) && !EmailUnused(s.users, body.email.value) ==> out == Outcome(AlreadyExists, s)
    ensures Complete(body) && EmailUnused(s.users, body.email.value) ==>
              && out.resp.status == 201
              && out.resp.body.AuthJson?
              && var id := out.resp.body.id;
              && id == s.nextId
              && out.store == s.(users := s.users[id := User(body.name.value, body.email.value, bc.hash(body.password.value))],
                                 nextId := id + 1)
              && out.resp.body == AuthJson(id, body.name.value, Some(body.email.value), jwt.sign(id))
              && (IdsIssued(s) ==> id !in s.users && IdsIssued(out.store))
    ensures out.resp.status == 201 || out.resp.status == 400
    ensures out.resp.status == 400 <==> out.store == s
  {
    if !Complete(body) then
      Outcome(FieldsRequired, s)
    else if FindByEmail(s.users, body.email.value).Some? then
      Outcome(AlreadyExists, s)
    else
      var id := s.nextId;
      var user := User(body.name.value, body.email.value, bc.hash(body.password.value));
      Outcome(Resp(201, AuthJson(id, user.name, Some(user.email), jwt.sign(id))),
              s.(users := s.users[id := user], nextId := id + 1))
  }

  /** `loginUser`: never changes the store, so it answers with a response only. */
  function Login(s: Store, body: LoginBody, bc: Bcrypt, jwt: Jwt): (r: Resp)
    ensures !(Truthy(body.email) && Truthy(body.password)) ==> r == FieldsRequired
    ensures r.status == 200 ==>
              && Truthy(body.email) && Truthy(body.password)
              && r.body.AuthJson?
              && r.body.id in s.users
              && s.users[r.body.id].email == body.email.value
              && bc.compare(body.password.value, s.users[r.body.id].password)
              && r.body == AuthJson(r.body.id, s.users[r.body.id].name, None, jwt.sign(r.body.id))
    ensures r.status in {200, 400, 401}
  {
    if !(Truthy(body.email) && Truthy(body.password)) then FieldsRequired
    else
      match FindByEmail(s.users, body.email.value)
      case Some(id) =>
        if bc.compare(body.password.value, s.users[id].password) then
          Resp(200, AuthJson(id, s.users[id].name, None, jwt.sign(id)))
        else BadCredentials
      case None => BadCredentials
  }

  /** Registration keeps email addresses unique. */
  lemma RegisterKeepsEmailsUnique(s: Store, body: RegisterBody, bc: Bcrypt, jwt: Jwt)
    requires UniqueEmails(s.users)
    ensures UniqueEmails(Register(s, body, bc, jwt).store.users)
  {
    var out := Register(s, body, bc, jwt);
    if out.store != s {
      var id := out.resp.body.id;
      assert EmailUnused(s.users, body.email.value);
      assert out.store.users == s.users[id := out.store.users[id]];
    }
  }

  /** A second registration with the same address is refused and adds no
      user, whatever the other fields. */
  lemma RegisterTwiceConflicts(s: Store, first: RegisterBody, second: RegisterBody, bc: Bcrypt, jwt: Jwt)
    requires Complete(first) && EmailUnused(s.users, first.email.value)
    requires Truthy(second.name) && Truthy(second.password)
    requires second.email == first.email
    ensures var s1 := Register(s, first, bc, jwt).store;
            Register(s1, second, bc, jwt) == Outcome(AlreadyExists, s1)
  {
    var out := Register(s, first, bc, jwt);
    var id := out.resp.body.id;
    assert id in out.store.users && out.store.users[id].email == first.email.value;
  }

  /** With unique addresses, login succeeds exactly for a registered
      address whose stored digest matches the password, and the token is
      issued for that user. */
  lemma LoginSucceedsIff(s: Store, body: LoginBody, bc: Bcrypt, jwt: Jwt)
    requires UniqueEmails(s.users)
    requires Truthy(body.email) && Truthy(body.password)
    ensures Login(s, body, bc, jwt).status == 200 <==>
              exists id :: id in s.users && s.users[id].email == body.email.value
                           && bc.compare(body.password.value, s.users[id].password)
    ensures forall id :: id in s.users && s.users[id].email == body.email.value
                           && bc.compare(body.password.value, s.users[id].password) ==>
              Login(s, body, bc, jwt) == Resp(200, AuthJson(id, s.users[id].name, None, jwt.sign(id)))
  {
    var r := Login(s, body, bc, jwt);
    var found := FindByEmail(s.users, body.email.value);
    if found.Some? {
      assert forall id :: id in s.users && s.users[id].email == body.email.value ==> id == found.value;
    }
  }

  /** An unknown address and a wrong password get the identical reply. */
  lemma UnknownEmailLooksLikeWrongPassword(s: Store, unknown: LoginBody, wrong: LoginBody, bc: Bcrypt, jwt: Jwt)
    requires Truthy(unknown.email) && Truthy(unknown.password)
    requires EmailUnused(s.users, unknown.email.value)
    requires Truthy(wrong.email) && Truthy(wrong.password)
    requires UniqueEmails(s.users)
    requires exists id :: id in s.users && s.users[id].email == wrong.email.value
                          && !bc.compare(wrong.password.value, s.users[id].password)
    ensures Login(s, unknown, bc, jwt) == Login(s, wrong, bc, jwt) == BadCredentials
  {
    var id :| id in s.users && s.users[id].email == wrong.email.value
              && !bc.compare(wrong.password.value, s.users[id].password);
    var found := FindByEmail(s.users, wrong.email.value);
    assert found == Some(id);
  }

  /** What one registers one can log in with: the same address and password
      open a session for the new user. */
  lemma RegisterThenLogin(s: Store, body: RegisterBody, bc: Bcrypt, jwt: Jwt)
    requires HashSound(bc)
    requires UniqueEmails(s.users)
    requires Complete(body) && EmailUnused(s.users, body.email.value)
    ensures var out := Register(s, body, bc, jwt);
            var id := out.resp.body.id;
            Login(out.store, LoginBody(body.email, body.password), bc, jwt)
              == Resp(200, AuthJson(id, body.name.value, None, jwt.sign(id)))
  {
    var out := Register(s, body, bc, jwt);
    var id := out.resp.body.id;
    RegisterKeepsEmailsUnique(s, body, bc, jwt);
    assert bc.compare(body.password.value, bc.hash(body.password.value));
    LoginSucceedsIff(out.store, LoginBody(body.email, body.password), bc, jwt);
  }
}
