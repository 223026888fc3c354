/** Registration, login and token refresh. Password hashing and token
    signing are parameters: the model records the payload a token is
    signed over, not the token. */
module AuthController {
  import opened Base
  import opened Store
  import opened UserModel
  import opened Auth

  /** The claims every signed token carries. */
  datatype Payload = Payload(id: int, email: Option<string>, role: Option<string>)

  function PayloadOf(u: PublicUser): (p: Payload)
    ensures p.id == u.id && p.email == Some(u.email) && p.role == Some(u.role)
  {
    Payload(u.id, Some(u.email), Some(u.role))
  }

  const MISSING_FIELDS_MESSAGE: string := "email, password, name은 필수입니다."
  const EMAIL_TAKEN_MESSAGE: string := "이미 등록된 이메일입니다."
  const BAD_CREDENTIALS_MESSAGE: string := "이메일 또는 비밀번호가 올바르지 않습니다."

  datatype AuthResult = AuthResult(status: Status, message: Option<string>, user: Option<PublicUser>,
                                   payload: Option<Payload>)

  /** No schema guards these routes, so the password is whatever JSON value
      the body holds; e-mail and name are taken to be strings. */
  datatype RegisterBody = RegisterBody(email: Option<string>, password: JsonValue, name: Option<string>)

  /** `register`: 400 unless email, password and name are truthy; 409
      when the email is taken, with no user created; a password that is not
      a string makes `bcrypt.hash` throw (500) before anything is written;
      otherwise the account is created with the hashed password and default
      role, and 201 returns it with a token over its id, email and role. */
  method Register(db: Database, b: RegisterBody, hash: string -> string, now: Time) returns (r: AuthResult)
    requires db.Valid()
    modifies db`users, db`nextUserId
    ensures db.Valid()
    ensures r.status == BAD_REQUEST <==> !Truthy(b.email) || !JsonTruthy(b.password) || !Truthy(b.name)
    ensures r.status == CONFLICT <==> Truthy(b.email) && JsonTruthy(b.password) && Truthy(b.name)
                                      && UserByEmail(old(db.users), b.email.value).Some?
    ensures r.status == INTERNAL_ERROR <==> Truthy(b.email) && JsonTruthy(b.password) && Truthy(b.name)
                                            && UserByEmail(old(db.users), b.email.value).None?
                                            && !b.password.JString?
    ensures r.status != CREATED ==> r.user.None? && r.payload.None? && db.users == old(db.users)
                                    && db.nextUserId == old(db.nextUserId)
    ensures r.status == CREATED ==>
              var u := NewUser(old(db.nextUserId), b.email.value, hash(b.password.text), b.name.value, None, now);
              && db.users == old(db.users) + [u]
              && r.user == Some(PublicOf(u)) && r.payload == Some(PayloadOf(PublicOf(u)))
    ensures r.status in {BAD_REQUEST, CONFLICT, INTERNAL_ERROR, CREATED}
  {
    if !Truthy(b.email) || !JsonTruthy(b.password) || !Truthy(b.name) {
      return AuthResult(BAD_REQUEST, Some(MISSING_FIELDS_MESSAGE), None, None);
    }
    if UserByEmail(db.users, b.email.value).Some? {
      return AuthResult(CONFLICT, Some(EMAIL_TAKEN_MESSAGE), None, None);
    }
    if !b.password.JString? {
      return AuthResult(INTERNAL_ERROR, None, None, None);
    }
    var created := CreateUser(db, b.email.value, hash(b.password.text), b.name.value, None, now);
    r := AuthResult(CREATED, None, created, Some(PayloadOf(created.value)));
  }

  datatype LoginBody = LoginBody(email: Option<string>, password: JsonValue)

  /** `login`: 400 without an email or password; the same 401 and message
      for an unknown email and for a wrong password; a password that is not
      a string makes `bcrypt.compare` throw (500) once the user is found;
      otherwise the user without its hash and a token over its id, email
      and role. */
  function Login(us: seq<UserRow>, b: LoginBody, matches: (string, string) -> bool): (r: AuthResult)
    ensures r.status == BAD_REQUEST <==> !Truthy(b.email) || !JsonTruthy(b.password)
    ensures r.status == INTERNAL_ERROR <==>
              Truthy(b.email) && JsonTruthy(b.password)
              && UserByEmail(us, b.email.value).Some? && !b.password.JString?
    ensures r.status == UNAUTHORIZED <==>
              Truthy(b.email) && JsonTruthy(b.password)
              && (UserByEmail(us, b.email.value).None?
                  || (b.password.JString?
                      && !matches(b.password.text, UserByEmail(us, b.email.value).value.passwordHash)))
    ensures r.status == UNAUTHORIZED ==> r.message == Some(BAD_CREDENTIALS_MESSAGE) && r.user.None?
    ensures r.status == OK ==> var u := UserByEmail(us, b.email.value).value;
                               r.user == Some(PublicOf(u)) && r.payload == Some(PayloadOf(PublicOf(u)))
    ensures r.status in {BAD_REQUEST, UNAUTHORIZED, INTERNAL_ERROR, OK}
  {
    if !Truthy(b.email) || !JsonTruthy(b.password) then AuthResult(BAD_REQUEST, Some("email, password는 필수입니다."), None, None)
    else match UserByEmail(us, b.email.value)
      case None => AuthResult(UNAUTHORIZED, Some(BAD_CREDENTIALS_MESSAGE), None, None)
      case Some(u) =>
        if !b.password.JString? then AuthResult(INTERNAL_ERROR, None, None, None)
        else if !matches(b.password.text, u.passwordHash) then AuthResult(UNAUTHORIZED, Some(BAD_CREDENTIALS_MESSAGE), None, None)
        else AuthResult(OK, None, Some(PublicOf(u)), Some(PayloadOf(PublicOf(u))))
  }

  /** An unknown email and a wrong password for a known one get the same
      answer, so a response does not reveal whether an email is registered. */
  lemma LoginHidesUnknownEmail(us: seq<UserRow>, email: string, password: string, matches: (string, string) -> bool,
                               u: UserRow)
    requires email != "" && password != ""
    requires UniqueEmails(us) && u in us && u.email == email && !matches(password, u.passwordHash)
    ensures Login(us, LoginBody(Some(email), JString(password)), matches)
            == Login([], LoginBody(Some(email), JString(password)), matches)
  {
    UserByEmailExact(us, email, u);
  }

  /** The 401 hides an unknown email only for string passwords: a truthy
      password of another JSON type is answered 500 for a registered email
      and 401 for an unknown one. */
  lemma NonStringPasswordRevealsEmail(us: seq<UserRow>, email: string, password: JsonValue,
                                      matches: (string, string) -> bool)
    requires email != "" && JsonTruthy(password) && !password.JString? && UserByEmail(us, email).Some?
    ensures Login(us, LoginBody(Some(email), password), matches).status == INTERNAL_ERROR
    ensures Login([], LoginBody(Some(email), password), matches).status == UNAUTHORIZED
  {
  }

  /** `refresh`: 400 without a token, 401 for any verification failure,
      otherwise new tokens over the verified id, email and role. */
  function Refresh(token: Option<string>, verify: Verifier): (r: AuthResult)
    ensures r.status == BAD_REQUEST <==> !Truthy(token)
    ensures r.status == UNAUTHORIZED <==> Truthy(token) && verify(token.value).None?
    ensures r.status == OK ==> var c := verify(token.value).value;
                               r.payload == Some(Payload(c.id, c.email, c.role))
    ensures r.status in {BAD_REQUEST, UNAUTHORIZED, OK}
  {
    if !Truthy(token) then AuthResult(BAD_REQUEST, Some("refreshToken이 필요합니다."), None, None)
    else match verify(token.value)
      case None => AuthResult(UNAUTHORIZED, Some("리프레시 토큰이 유효하지 않습니다."), None, None)
      case Some(c) => AuthResult(OK, None, None, Some(Payload(c.id, c.email, c.role)))
  }
}
