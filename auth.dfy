/** The access-token middleware: the token is read from the Authorization
    header and checked by the token library, which is a parameter here. */
module Auth {
  import opened Base
  import opened Text

  /** What a verified token carries; absent claims are `None`. */
  datatype Claims = Claims(id: int, email: Option<string>, role: Option<string>)

  /** The token library's check: the claims, or `None` when it throws
      (bad signature, expired, malformed). */
  type Verifier = string -> Option<Claims>

  /** What the middleware leaves on the request: the id and email only. */
  datatype RequestUser = RequestUser(id: int, email: Option<string>)

  datatype AuthOutcome = Rejected(status: Status) | Authenticated(user: RequestUser)

  /** `authHeader && authHeader.split(" ")[1]`: the second space-separated
      piece, or `None` when the header is absent or empty, has no second
      piece, or the second piece is empty. */
  function TokenOf(header: Option<string>): (t: Option<string>)
    ensures t.Some? ==> t.value != "" && ' ' !in t.value
    ensures !Truthy(header) ==> t.None?
  {
    if !Truthy(header) then None
    else
      var parts := Split(header.value, ' ');
      if |parts| >= 2 && parts[1] != "" then Some(parts[1]) else None
  }

  /** Any first word is accepted as the scheme: `<scheme> <token>` yields the
      token whatever the scheme says, `Bearer` or not. */
  lemma TokenIgnoresScheme(scheme: string, token: string)
    requires ' ' !in scheme && ' ' !in token && token != ""
    ensures TokenOf(Some(scheme + " " + token)) == Some(token)
  {
    SplitAfterPiece(scheme, token, ' ');
    assert scheme + " " + token == scheme + [' '] + token;
    SplitPlain(token, ' ');
  }

  /** A header that is a single word (no space) carries no token. */
  lemma SingleWordHasNoToken(header: string)
    requires ' ' !in header
    ensures TokenOf(Some(header)) == None
  {
    SplitPlain(header, ' ');
  }

  /** `authenticateToken`: 401 without a token, 403 when verification
      throws, otherwise the request user with the token's id and email (any
      role claim is dropped) and `next` runs. */
  function Authenticate(header: Option<string>, verify: Verifier): (r: AuthOutcome)
    ensures r == Rejected(UNAUTHORIZED) <==> TokenOf(header).None?
    ensures r == Rejected(FORBIDDEN) <==> TokenOf(header).Some? && verify(TokenOf(header).value).None?
    ensures r.Authenticated? <==> TokenOf(header).Some? && verify(TokenOf(header).value).Some?
    ensures r.Authenticated? ==> var c := verify(TokenOf(header).value).value;
                                 r.user.id == c.id && r.user.email == c.email
  {
    match TokenOf(header)
    case None => Rejected(UNAUTHORIZED)
    case Some(token) =>
      match verify(token)
      case None => Rejected(FORBIDDEN)
      case Some(c) => Authenticated(RequestUser(c.id, c.email))
  }
}
