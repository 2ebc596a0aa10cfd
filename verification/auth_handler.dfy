/** The login, logout and authorization decisions (handlers/auth_handler.go), as
    functions from the request and the service state to a reply and a new registry. */
module AuthHandler {
  import opened Results
  import opened Text
  import opened Http
  import opened AuthService
  import UserTable
  import Hex

  const BearerPrefix: string := "Bearer "

  /** `extractTokenFromHeader`: what follows a case-sensitive "Bearer " prefix of the
      Authorization header, and "" for a missing header or any other scheme. */
  function ExtractTokenFromHeader(header: string): (token: string)
    ensures header == "" ==> token == ""
    ensures HasPrefix(header, BearerPrefix) ==> BearerPrefix + token == header
    ensures !HasPrefix(header, BearerPrefix) ==> token == ""
  {
    if header == "" then ""
    else if HasPrefix(header, BearerPrefix) then TrimPrefix(header, BearerPrefix)
    else ""
  }

  /** Bearer extraction and header building are inverse: the header "Bearer t" yields t. */
  lemma ExtractBearerRoundTrip(token: string)
    ensures ExtractTokenFromHeader(BearerPrefix + token) == token
  {
    assert (BearerPrefix + token)[..|BearerPrefix|] == BearerPrefix;
  }

  /** A lower-case scheme name is not accepted. */
  lemma ExtractIsCaseSensitive(token: string)
    ensures ExtractTokenFromHeader("bearer " + token) == ""
  {
    assert ("bearer " + token)[0] == 'b';
  }

  /** The body of a login request. */
  datatype LoginRequest = LoginRequest(username: string, password: string)

  /** Why a login, logout or protected request was refused. */
  datatype AuthFailure =
    | MethodNotAllowed
    | InvalidJson
    | CredentialsRequired
    | InvalidCredentials
    | TokenGenerationFailed
    | TokenRequired
    | InvalidOrExpiredToken
    | LogoutFailed
  {
    function Message(): string {
      match this
      case MethodNotAllowed => "Method not allowed"
      case InvalidJson => "Invalid JSON format"
      case CredentialsRequired => "Username and password are required"
      case InvalidCredentials => "Invalid username or password"
      case TokenGenerationFailed => "Failed to generate token"
      case TokenRequired => "Authorization token required"
      case InvalidOrExpiredToken => "Invalid or expired token"
      case LogoutFailed => "Failed to logout"
    }

    function Status(): int {
      match this
      case MethodNotAllowed => StatusMethodNotAllowed
      case InvalidJson => StatusBadRequest
      case CredentialsRequired => StatusBadRequest
      case InvalidCredentials => StatusUnauthorized
      case TokenGenerationFailed => StatusInternalServerError
      case TokenRequired => StatusUnauthorized
      case InvalidOrExpiredToken => StatusUnauthorized
      case LogoutFailed => StatusInternalServerError
    }
  }

  datatype AuthReply = Preflight | LoggedIn(token: string) | LoggedOut | Refused(failure: AuthFailure)
  {
    function Status(): int {
      match this
      case Preflight => StatusOK
      case LoggedIn(_) => StatusOK
      case LoggedOut => StatusOK
      case Refused(f) => f.Status()
    }
  }

  /** `HandleLogin`. `body` is `None` when the JSON did not decode; `random` is the
      outcome of drawing the token's bytes. */
  function HandleLogin(verb: string, body: Option<LoginRequest>, db: UserTable.UserDb, hours: int,
                       tokens: Registry, random: Option<seq<Hex.byte>>, now: int)
    : (res: (Registry, AuthReply))
    requires UserTable.WellFormedDb(db)
    requires random.Some? ==> |random.value| == TokenBytes
    ensures verb == Options ==> res == (tokens, Preflight)
    ensures verb != Options && verb != Post ==> res == (tokens, Refused(MethodNotAllowed))
    ensures !res.1.LoggedIn? ==> res.0 == tokens
    ensures verb == Post && body.None? ==> res == (tokens, Refused(InvalidJson))
    ensures verb == Post && body.Some? && (body.value.username == "" || body.value.password == "") ==>
              res.1 == Refused(CredentialsRequired)
    ensures verb == Post && body.Some? && body.value.username != "" && body.value.password != "" ==> (
              var user := ValidateCredentials(db, body.value.username, body.value.password);
              && (user.None? ==> res == (tokens, Refused(InvalidCredentials)))
              && (user.Some? && random.None? ==> res == (tokens, Refused(TokenGenerationFailed))))
    ensures res.1.LoggedIn? <==>
              verb == Post && body.Some? && body.value.username != "" && body.value.password != "" &&
              ValidateCredentials(db, body.value.username, body.value.password).Some? && random.Some?
    ensures res.1.LoggedIn? ==> (
              var token := res.1.token;
              var user := ValidateCredentials(db, body.value.username, body.value.password);
              && IsTokenString(token) && Hex.Decode(token) == Some(random.value)
              && user.Some? && token in res.0
              && res.0[token] == TokenInfo(body.value.username, user.value.id, now, now + ExpiryDuration(hours))
              && res.0.Keys == tokens.Keys + {token}
              && (forall t :: t in tokens && t != token ==> res.0[t] == tokens[t]))
  {
    if verb == Options then (tokens, Preflight)
    else if verb != Post then (tokens, Refused(MethodNotAllowed))
    else match body
      case None => (tokens, Refused(InvalidJson))
      case Some(req) =>
        if req.username == "" || req.password == "" then (tokens, Refused(CredentialsRequired))
        else match ValidateCredentials(db, req.username, req.password)
          case None => (tokens, Refused(InvalidCredentials))
          case Some(user) =>
            match GenerateToken(tokens, hours, user, random, now)
            case Err(_) => (tokens, Refused(TokenGenerationFailed))
            case Ok((tokens', token)) => (tokens', LoggedIn(token))
  }

  /** Every credential failure, whether the user is unknown, inactive, the password
      wrong or the store unreachable, gets the same 401 reply. */
  lemma LoginCredentialFailuresLookAlike(verb: string, req: LoginRequest, db: UserTable.UserDb, hours: int,
                                         tokens: Registry, random: Option<seq<Hex.byte>>, now: int)
    requires UserTable.WellFormedDb(db)
    requires random.Some? ==> |random.value| == TokenBytes
    requires verb == Post && req.username != "" && req.password != ""
    requires UserTable.ValidateCredentials(db, req.username, req.password).Err?
    ensures HandleLogin(verb, Some(req), db, hours, tokens, random, now) == (tokens, Refused(InvalidCredentials))
    ensures HandleLogin(verb, Some(req), db, hours, tokens, random, now).1.Status() == StatusUnauthorized
  {
  }

  /** `HandleLogout`: a valid token is revoked; anything else leaves the registry alone. */
  function HandleLogout(verb: string, header: string, tokens: Registry, now: int): (res: (Registry, AuthReply))
    ensures verb == Options ==> res == (tokens, Preflight)
    ensures verb != Options && verb != Post ==> res == (tokens, Refused(MethodNotAllowed))
    ensures verb == Post && ExtractTokenFromHeader(header) == "" ==> res == (tokens, Refused(TokenRequired))
    ensures verb == Post && ExtractTokenFromHeader(header) != "" &&
            !ValidateToken(tokens, ExtractTokenFromHeader(header), now).IsOk() ==>
              res == (tokens, Refused(InvalidOrExpiredToken))
    ensures res.1 == LoggedOut <==>
              verb == Post && ExtractTokenFromHeader(header) != "" &&
              ValidateToken(tokens, ExtractTokenFromHeader(header), now).IsOk()
    ensures res.1 == LoggedOut ==> res.0 == tokens - {ExtractTokenFromHeader(header)}
    ensures res.1 != LoggedOut ==> res.0 == tokens
  {
    if verb == Options then (tokens, Preflight)
    else if verb != Post then (tokens, Refused(MethodNotAllowed))
    else
      var token := ExtractTokenFromHeader(header);
      if token == "" then (tokens, Refused(TokenRequired))
      else if !ValidateToken(tokens, token, now).IsOk() then (tokens, Refused(InvalidOrExpiredToken))
      else
        var (tokens', existed) := InvalidateToken(tokens, token);
        if existed then (tokens', LoggedOut) else (tokens, Refused(LogoutFailed))
  }

  /** With each operation atomic, the "Failed to logout" 500 branch cannot be reached:
      a token that just validated is still present when it is revoked. */
  lemma LogoutNeverFails(verb: string, header: string, tokens: Registry, now: int)
    ensures HandleLogout(verb, header, tokens, now).1 != Refused(LogoutFailed)
    ensures HandleLogout(verb, header, tokens, now).1.Status() != StatusInternalServerError
  {
  }

  /** After a successful logout the same header is rejected. */
  lemma LogoutTwiceRejected(header: string, tokens: Registry, now: int)
    requires HandleLogout(Post, header, tokens, now).1 == LoggedOut
    ensures var tokens' := HandleLogout(Post, header, tokens, now).0;
      HandleLogout(Post, header, tokens', now) == (tokens', Refused(InvalidOrExpiredToken))
  {
  }

  /** What the middleware does with a request: hand it on with the token's owner, or answer it. */
  datatype Gate = Admit(info: TokenInfo) | Answer(reply: AuthReply)

  /** `AuthMiddleware`: preflight requests pass without authentication checks and
      get 200; everything else needs a valid bearer token. */
  function AuthMiddleware(verb: string, header: string, tokens: Registry, now: int): (g: Gate)
    ensures verb == Options ==> g == Answer(Preflight)
    ensures g.Admit? <==>
              verb != Options && ExtractTokenFromHeader(header) != "" &&
              ValidateToken(tokens, ExtractTokenFromHeader(header), now).IsOk()
    ensures g.Admit? ==> g.info == tokens[ExtractTokenFromHeader(header)]
    ensures g.Answer? && verb != Options ==> g.reply.Status() == StatusUnauthorized
  {
    if verb == Options then Answer(Preflight)
    else
      var token := ExtractTokenFromHeader(header);
      if token == "" then Answer(Refused(TokenRequired))
      else match ValidateToken(tokens, token, now)
        case Valid(info) => Admit(info)
        case _ => Answer(Refused(InvalidOrExpiredToken))
  }

  /** A logged-in client is admitted with the token login handed out, for as long as
      the token has not expired or been revoked. */
  lemma LoginThenAdmit(req: LoginRequest, db: UserTable.UserDb, hours: int, tokens: Registry,
                       bytes: seq<Hex.byte>, now: int, verb: string, later: int)
    requires UserTable.WellFormedDb(db) && |bytes| == TokenBytes
    requires HandleLogin(Post, Some(req), db, hours, tokens, Some(bytes), now).1.LoggedIn?
    requires now <= later <= now + hours * NanosPerHour && verb != Options
    ensures var (tokens', reply) := HandleLogin(Post, Some(req), db, hours, tokens, Some(bytes), now);
      var g := AuthMiddleware(verb, BearerPrefix + reply.token, tokens', later);
      g.Admit? && g.info.username == req.username
  {
    var (tokens', reply) := HandleLogin(Post, Some(req), db, hours, tokens, Some(bytes), now);
    ExtractBearerRoundTrip(reply.token);
    var user := ValidateCredentials(db, req.username, req.password).value;
    assert tokens'[reply.token] == TokenInfo(user.username, user.id, now, now + ExpiryDuration(hours));
  }
}
