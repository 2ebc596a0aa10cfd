/** The authentication service (auth/auth_service.go): configuration defaults, the
    credential check, and the registry of active bearer tokens. Time is in
    nanoseconds and is passed in; the random bytes of a token are passed in too. */
module AuthService {
  import opened Results
  import Hex
  import UserTable

  const NanosPerHour: int := 3_600_000_000_000
  const DefaultTokenExpiryHours: int := 24
  const DefaultJwtSecret: string := "default-secret-change-this"
  /** Number of random bytes behind one token. */
  const TokenBytes: nat := 32

  // ---------------------------------------------------------------------------
  // Configuration

  datatype ConfigUser = ConfigUser(username: string, password: string)

  /** models.Config as decoded from YAML. */
  datatype Config = Config(users: seq<ConfigUser>, jwtSecret: string, tokenExpiryHours: int)

  datatype ConfigError = ConfigUnreadable

  /** `loadConfig`: `parsed` is the decoded file, or `None` when reading or YAML
      decoding failed; a zero expiry and an empty secret get their defaults. */
  function LoadConfig(parsed: Option<Config>): (r: Result<Config, ConfigError>)
    ensures parsed.None? <==> r == Err(ConfigUnreadable)
    ensures r.Ok? ==> r.value.users == parsed.value.users
    ensures r.Ok? ==> r.value.tokenExpiryHours != 0 && r.value.jwtSecret != ""
    ensures r.Ok? && parsed.value.tokenExpiryHours == 0 ==> r.value.tokenExpiryHours == DefaultTokenExpiryHours
    ensures r.Ok? && parsed.value.tokenExpiryHours != 0 ==> r.value.tokenExpiryHours == parsed.value.tokenExpiryHours
    ensures r.Ok? && parsed.value.jwtSecret == "" ==> r.value.jwtSecret == DefaultJwtSecret
    ensures r.Ok? && parsed.value.jwtSecret != "" ==> r.value.jwtSecret == parsed.value.jwtSecret
  {
    match parsed
    case None => Err(ConfigUnreadable)
    case Some(c) =>
      var c1 := if c.tokenExpiryHours == 0 then c.(tokenExpiryHours := DefaultTokenExpiryHours) else c;
      var c2 := if c1.jwtSecret == "" then c1.(jwtSecret := DefaultJwtSecret) else c1;
      Ok(c2)
  }

  /** Loading an already defaulted configuration changes nothing. */
  lemma LoadConfigIdempotent(c: Config)
    requires LoadConfig(Some(c)).Ok?
    ensures LoadConfig(Some(LoadConfig(Some(c)).value)) == LoadConfig(Some(c))
  {
  }

  // ---------------------------------------------------------------------------
  // Credentials

  /** The identity a token is bound to. */
  datatype Identity = Identity(username: string, id: int)

  /** `AuthService.ValidateCredentials`: every error from the user store, whatever its
      kind, collapses to "no user". */
  function ValidateCredentials(db: UserTable.UserDb, username: string, password: string): (r: Option<Identity>)
    requires UserTable.WellFormedDb(db)
    ensures r.Some? <==> UserTable.ValidateCredentials(db, username, password).Ok?
    ensures r.Some? ==> (
      && r.value.username == username
      && db.Reachable? && r.value.id in db.users && db.users[r.value.id].isActive
      && UserTable.Matches(db.users[r.value.id].passwordHash, password))
  {
    match UserTable.ValidateCredentials(db, username, password)
    case Err(_) => None
    case Ok(user) => Some(Identity(user.username, user.id))
  }

  // ---------------------------------------------------------------------------
  // Token lifetime arithmetic

  /** The token lifetime in nanoseconds, on unbounded integers. */
  function ExpiryDuration(hours: int): (d: int)
    ensures hours > 0 ==> d > 0
    ensures hours == 0 ==> d == 0
    ensures hours < 0 ==> d < 0
  {
    hours * NanosPerHour
  }

  /** Two's-complement 64-bit wrap-around of a Go `int64`. */
  function WrapInt64(x: int): (w: int)
    ensures -0x8000_0000_0000_0000 <= w < 0x8000_0000_0000_0000
    ensures (w - x) % 0x1_0000_0000_0000_0000 == 0
  {
    (x + 0x8000_0000_0000_0000) % 0x1_0000_0000_0000_0000 - 0x8000_0000_0000_0000
  }

  /** `time.Duration(hours) * time.Hour` as the source computes it: an `int64`
      product that wraps around. */
  function ExpiryDurationAsWritten(hours: int): (d: int)
    ensures -0x8000_0000_0000_0000 <= d < 0x8000_0000_0000_0000
    ensures (d - ExpiryDuration(hours)) % 0x1_0000_0000_0000_0000 == 0
  {
    WrapInt64(hours * NanosPerHour)
  }

  /** The longest lifetime, in hours, whose nanosecond count fits in an `int64`. */
  const MaxExactHours: int := 2562047

  /** For every lifetime an `int64` can hold, the source's product is exact. */
  lemma AsWrittenExactInRange(hours: int)
    requires -MaxExactHours <= hours <= MaxExactHours
    ensures ExpiryDurationAsWritten(hours) == ExpiryDuration(hours)
  {
  }

  /** One hour past that range the product wraps to a negative duration, so a token
      would be issued already expired. */
  lemma AsWrittenWrapsNegative()
    ensures ExpiryDurationAsWritten(MaxExactHours + 1) < 0
    ensures ExpiryDuration(MaxExactHours + 1) > 0
  {
  }

  // ---------------------------------------------------------------------------
  // The token registry

  /** What the registry remembers about one token. */
  datatype TokenInfo = TokenInfo(username: string, userId: int, createdAt: int, expiresAt: int)

  /** `activeTokens`: token string to its info. */
  type Registry = map<string, TokenInfo>

  /** `now.After(expiresAt)`: strictly past the expiry instant. */
  predicate IsExpired(info: TokenInfo, now: int) {
    now > info.expiresAt
  }

  /** A token string is what `hex.EncodeToString` makes of 32 bytes. */
  predicate IsTokenString(s: string) {
    |s| == 2 * TokenBytes && forall i :: 0 <= i < |s| ==> Hex.IsHexDigit(s[i])
  }

  datatype TokenError = RandomSourceFailed

  /** `GenerateToken`: `random` is what `crypto/rand` delivered (`None` when it failed).
      The token maps to the user's name and id, created now, expiring one lifetime later. */
  function GenerateToken(tokens: Registry, hours: int, user: Identity, random: Option<seq<Hex.byte>>, now: int)
    : (r: Result<(Registry, string), TokenError>)
    requires random.Some? ==> |random.value| == TokenBytes
    ensures random.None? <==> r == Err(RandomSourceFailed)
    ensures r.Ok? ==> var (tokens', token) := r.value;
      && IsTokenString(token)
      && Hex.Decode(token) == Some(random.value)
      && tokens'.Keys == tokens.Keys + {token}
      && tokens'[token] == TokenInfo(user.username, user.id, now, now + ExpiryDuration(hours))
      && tokens'[token].expiresAt - tokens'[token].createdAt == hours * NanosPerHour
      && (forall t :: t in tokens && t != token ==> tokens'[t] == tokens[t])
  {
    match random
    case None => Err(RandomSourceFailed)
    case Some(bytes) =>
      var token := Hex.Encode(bytes);
      Hex.DecodeEncode(bytes);
      var info := TokenInfo(user.username, user.id, now, now + ExpiryDuration(hours));
      Ok((tokens[token := info], token))
  }

  /** The answer `ValidateToken` gives. `Expired` is the branch that also starts the
      background `removeToken`; the map itself is not changed by the check. */
  datatype Validation = Valid(info: TokenInfo) | Unknown | Expired {
    predicate IsOk() { Valid? }
  }

  /** `ValidateToken`: ok exactly when the token is present and not strictly past its
      expiry, so a token still validates at the instant it expires. */
  function ValidateToken(tokens: Registry, token: string, now: int): (v: Validation)
    ensures v.IsOk() <==> token in tokens && !IsExpired(tokens[token], now)
    ensures v.IsOk() ==> v.info == tokens[token]
    ensures token !in tokens ==> v == Unknown
    ensures v == Expired <==> token in tokens && IsExpired(tokens[token], now)
  {
    if token !in tokens then Unknown
    else if IsExpired(tokens[token], now) then Expired
    else Valid(tokens[token])
  }

  /** `removeToken`: deletes that one key. */
  function RemoveToken(tokens: Registry, token: string): (r: Registry)
    ensures r.Keys == tokens.Keys - {token}
    ensures forall t :: t in r ==> r[t] == tokens[t]
  {
    tokens - {token}
  }

  /** `InvalidateToken`: removes the token and reports whether it was there. */
  function InvalidateToken(tokens: Registry, token: string): (res: (Registry, bool))
    ensures res.1 <==> token in tokens
    ensures token !in res.0
    ensures res.0.Keys == tokens.Keys - {token}
    ensures forall t :: t in res.0 ==> res.0[t] == tokens[t]
  {
    if token in tokens then (tokens - {token}, true) else (tokens, false)
  }

  /** `CleanupExpiredTokens`: drops every entry strictly past its expiry. */
  function CleanupExpiredTokens(tokens: Registry, now: int): (r: Registry)
    ensures forall t :: t in r ==> !IsExpired(r[t], now)
    ensures forall t :: t in tokens && !IsExpired(tokens[t], now) ==> t in r
    ensures forall t :: t in r ==> t in tokens && r[t] == tokens[t]
  {
    map t | t in tokens && !IsExpired(tokens[t], now) :: tokens[t]
  }

  /** `GetActiveTokensCount`: the number of entries, expired or not. */
  function ActiveTokensCount(tokens: Registry): (n: nat)
    ensures n == 0 <==> tokens == map[]
  {
    |tokens|
  }

  /** The tokens a purge at `now` would drop. */
  function ExpiredTokens(tokens: Registry, now: int): set<string> {
    set t | t in tokens && IsExpired(tokens[t], now)
  }

  // ---------------------------------------------------------------------------
  // Properties of the registry

  /** The count includes expired entries that no purge has removed yet: it is the
      count after a purge plus the number of entries the purge drops. */
  lemma CountIncludesExpired(tokens: Registry, now: int)
    ensures ActiveTokensCount(tokens) ==
            ActiveTokensCount(CleanupExpiredTokens(tokens, now)) + |ExpiredTokens(tokens, now)|
  {
    var kept := CleanupExpiredTokens(tokens, now).Keys;
    var gone := ExpiredTokens(tokens, now);
    assert tokens.Keys == kept + gone;
    assert kept * gone == {};
  }

  /** The count follows issue and revoke: issuing a token not yet held adds one,
      revoking a held token removes one. */
  lemma CountTracksIssueAndRevoke(tokens: Registry, hours: int, user: Identity, bytes: seq<Hex.byte>,
                                  now: int, held: string)
    requires |bytes| == TokenBytes && Hex.Encode(bytes) !in tokens && held in tokens
    ensures ActiveTokensCount(GenerateToken(tokens, hours, user, Some(bytes), now).value.0) ==
            ActiveTokensCount(tokens) + 1
    ensures ActiveTokensCount(InvalidateToken(tokens, held).0) == ActiveTokensCount(tokens) - 1
  {
  }

  /** A freshly issued token validates, for its user, at every instant up to and
      including its expiry and at none after. */
  lemma IssuedTokenLifetime(tokens: Registry, hours: int, user: Identity, bytes: seq<Hex.byte>, now: int, t: int)
    requires |bytes| == TokenBytes
    ensures var (tokens', token) := GenerateToken(tokens, hours, user, Some(bytes), now).value;
      var v := ValidateToken(tokens', token, t);
      (v.IsOk() <==> t <= now + hours * NanosPerHour) &&
      (v.IsOk() ==> v.info.username == user.username && v.info.userId == user.id)
  {
  }

  /** After a revoke the token never validates again, and a second revoke reports
      false and leaves the registry as it was. */
  lemma RevokeIsFinal(tokens: Registry, token: string, now: int)
    ensures var tokens' := InvalidateToken(tokens, token).0;
      ValidateToken(tokens', token, now) == Unknown &&
      InvalidateToken(tokens', token) == (tokens', false)
  {
  }

  /** Revoking or removing a token leaves every other token's answer unchanged. */
  lemma RevokeIsLocal(tokens: Registry, token: string, other: string, now: int)
    requires other != token
    ensures ValidateToken(InvalidateToken(tokens, token).0, other, now) == ValidateToken(tokens, other, now)
    ensures ValidateToken(RemoveToken(tokens, token), other, now) == ValidateToken(tokens, other, now)
  {
  }

  /** The background removal started by an `Expired` answer is harmless: from that
      instant on, no token's accept/reject decision differs with or without it. */
  lemma {:induction false} ExpiredRemovalIsHarmless(tokens: Registry, token: string, now: int, x: string, later: int)
    requires ValidateToken(tokens, token, now) == Expired
    requires later >= now
    ensures ValidateToken(RemoveToken(tokens, token), x, later).IsOk() == ValidateToken(tokens, x, later).IsOk()
  {
    if x == token {
      assert IsExpired(tokens[token], later);
    }
  }

  /** A purge changes no accept/reject decision at its own instant or later. */
  lemma CleanupPreservesDecisions(tokens: Registry, now: int, x: string, later: int)
    requires later >= now
    ensures ValidateToken(CleanupExpiredTokens(tokens, now), x, later).IsOk() == ValidateToken(tokens, x, later).IsOk()
  {
  }

  /** Purging twice at the same instant is purging once. */
  lemma CleanupIdempotent(tokens: Registry, now: int)
    ensures CleanupExpiredTokens(CleanupExpiredTokens(tokens, now), now) == CleanupExpiredTokens(tokens, now)
  {
  }

  /** The lifecycle walk-through: a token issued for "chef" with a 24-hour lifetime is
      accepted one hour later, and rejected right after it is revoked. */
  lemma ChefScenario(tokens: Registry, bytes: seq<Hex.byte>, t0: int)
    requires |bytes| == TokenBytes
    ensures var (tokens1, token) := GenerateToken(tokens, 24, Identity("chef", 1), Some(bytes), t0).value;
      var v := ValidateToken(tokens1, token, t0 + NanosPerHour);
      v.IsOk() && v.info.username == "chef" &&
      var (tokens2, existed) := InvalidateToken(tokens1, token);
      existed && !ValidateToken(tokens2, token, t0 + NanosPerHour).IsOk()
  {
  }
}
