/** The account handlers of server/controllers/authController.js: registration
    into the user collection, login by e-mail lookup and password check, and
    `getMe`. The user schema's own validation and password hashing live in a
    model file that is not part of this model: creation is an oracle
    (`createOk`) and the password check an abstract predicate. Tokens are
    abstract: a token names the user id it was signed for. */
module AuthController {
  import opened Wrappers

  type UserId = nat

  const DefaultRole: string := "Editor"
  const MissingFields: string := "Please add all fields"
  const UserExists: string := "User already exists"
  const InvalidCredentials: string := "Invalid credentials"

  /** A stored user. */
  datatype User = User(
    id: UserId,
    username: string,
    email: string,
    password: string,
    role: string,
    organizationId: Option<string>)

  /** `generateToken(id)`: a signed token for the user id. */
  datatype Token = SignedToken(userId: UserId)

  /** The JSON a handler answers: the user's public fields and a token, or an
      error message, each with its status code. */
  datatype AuthResponse =
    | AuthOk(status: nat, id: UserId, username: string, email: string, role: string,
             organizationId: Option<string>, token: Token)
    | AuthError(status: nat, message: string)

  /** JavaScript truthiness of an optional string field. */
  predicate Truthy(s: Option<string>) {
    s.Some? && s.value != []
  }

  /** `User.findOne({ email })`: the first stored user with that e-mail. */
  function FindByEmail(users: seq<User>, email: string): (r: Option<User>)
    ensures r.Some? <==> exists i | 0 <= i < |users| :: users[i].email == email
    ensures r.Some? ==> r.value in users && r.value.email == email
  {
    if users == [] then None
    else if users[0].email == email then Some(users[0])
    else
      var r := FindByEmail(users[1..], email);
      assert forall i | 1 <= i < |users| :: users[i] == users[1..][i - 1];
      r
  }

  /** The public fields of a user and a token for it, with `status`. */
  function Credentials(status: nat, u: User): AuthResponse {
    AuthOk(status, u.id, u.username, u.email, u.role, u.organizationId, SignedToken(u.id))
  }

  /** `loginUser`: 200 with the user's fields and a token when a user has that
      e-mail and `matchPassword` holds; 401 with the same message otherwise,
      whichever check failed. */
  function Login(users: seq<User>, email: string, password: string, matchPassword: (User, string) -> bool): (r: AuthResponse)
    ensures r.AuthOk? <==> FindByEmail(users, email).Some? && matchPassword(FindByEmail(users, email).value, password)
    ensures r.AuthOk? ==> r == Credentials(200, FindByEmail(users, email).value)
    ensures r.AuthOk? ==> r.status == 200 && r.email == email && r.token == SignedToken(r.id)
    ensures r.AuthError? ==> r == AuthError(401, InvalidCredentials)
  {
    var user := FindByEmail(users, email);
    if user.Some? && matchPassword(user.value, password) then Credentials(200, user.value)
    else AuthError(401, InvalidCredentials)
  }

  /** `getMe`: the authenticated user, as the authentication middleware
      loaded it, with 200. */
  function GetMe(reqUser: User): (r: (nat, User))
    ensures r.0 == 200 && r.1 == reqUser
  {
    (200, reqUser)
  }

  /** The user collection. */
  class UserStore {
    var users: seq<User>

    /** Ids are positions and no two users share an e-mail. */
    predicate Valid()
      reads this
    {
      && (forall i | 0 <= i < |users| :: users[i].id == i)
      && (forall i, j | 0 <= i < j < |users| :: users[i].email != users[j].email)
    }

    constructor()
      ensures Valid() && users == []
    {
      users := [];
    }

    /** `registerUser`: 400 when a required field is falsy, 400 when the
        e-mail is taken, 500 with the creation error's message when the user
        model refuses the document; otherwise the user is appended with the
        role defaulting to Editor and answered with 201 and a token. */
    method RegisterUser(username: Option<string>, email: Option<string>, password: Option<string>,
                        role: Option<string>, organizationId: Option<string>,
                        createOk: bool, createError: string)
      returns (resp: AuthResponse)
      requires Valid()
      modifies this
      ensures Valid()
      ensures !Truthy(username) || !Truthy(email) || !Truthy(password) ==>
        resp == AuthError(400, MissingFields) && users == old(users)
      ensures Truthy(username) && Truthy(email) && Truthy(password) ==>
        (FindByEmail(old(users), email.value).Some? ==> resp == AuthError(400, UserExists) && users == old(users))
        && (FindByEmail(old(users), email.value).None? && !createOk ==>
              resp == AuthError(500, createError) && users == old(users))
        && (FindByEmail(old(users), email.value).None? && createOk ==>
              var u := User(|old(users)|, username.value, email.value, password.value,
                            if Truthy(role) then role.value else DefaultRole, organizationId);
              users == old(users) + [u] && resp == Credentials(201, u))
    {
      if !Truthy(username) || !Truthy(email) || !Truthy(password) {
        return AuthError(400, MissingFields);
      }
      var userExists := FindByEmail(users, email.value);
      if userExists.Some? {
        return AuthError(400, UserExists);
      }
      if !createOk {
        return AuthError(500, createError);
      }
      var u := User(|users|, username.value, email.value, password.value,
                    if Truthy(role) then role.value else DefaultRole, organizationId);
      users := users + [u];
      resp := Credentials(201, u);
    }
  }

  /** A user appended under a fresh e-mail is the one a lookup of that e-mail
      finds afterwards, and other lookups are unchanged. */
  lemma {:induction false} FindAfterAppend(users: seq<User>, u: User, email: string)
    requires FindByEmail(users, u.email).None?
    ensures FindByEmail(users + [u], email) ==
      if email == u.email then Some(u) else FindByEmail(users, email)
    decreases |users|
  {
    if users == [] {
      assert [] + [u] == [u];
    } else {
      assert (users + [u])[1..] == users[1..] + [u];
      assert users[0].email != u.email by {
        assert !exists i | 0 <= i < |users| :: users[i].email == u.email;
      }
      FindAfterAppend(users[1..], u, email);
    }
  }

  /** Right after registering, logging in with the same e-mail finds the new
      user, and succeeds exactly when the password check accepts it. */
  lemma LoginAfterRegister(users: seq<User>, u: User, password: string, matchPassword: (User, string) -> bool)
    requires FindByEmail(users, u.email).None?
    ensures Login(users + [u], u.email, password, matchPassword).AuthOk? <==> matchPassword(u, password)
    ensures matchPassword(u, password) ==>
      Login(users + [u], u.email, password, matchPassword) == Credentials(200, u)
  {
    FindAfterAppend(users, u, u.email);
  }

  /** An unknown e-mail and a wrong password are answered identically. */
  lemma LoginFailuresIndistinguishable(users: seq<User>, email1: string, email2: string, password: string,
                                       matchPassword: (User, string) -> bool)
    requires FindByEmail(users, email1).None?
    requires FindByEmail(users, email2).Some? && !matchPassword(FindByEmail(users, email2).value, password)
    ensures Login(users, email1, password, matchPassword) == Login(users, email2, password, matchPassword)
  {
  }
}
