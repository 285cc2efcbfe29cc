/**
 * Authentication and authorization: tokens (`generateToken`, `jwt.verify`),
 * session resolution (`authMiddleware`), the role gate (`requireRole`) with
 * the role list of each route, and the decision of `POST /auth/login`.
 */
module Auth {
  import opened Wrappers
  import opened Http
  import opened Store

  /** The signing key: the default used when `JWT_SECRET` is not set. */
  const JwtSecret := "very_secret_jwt_key_change_this_in_prod"
  /** `expiresIn: '7d'`, in seconds. */
  const TokenLifetime: nat := 7 * 24 * 60 * 60

  /** The payload `generateToken` signs. */
  datatype Claims = Claims(id: Id, username: string, role: string)

  /**
   * A word of the `Authorization` header. `Jwt` is a signed token with its
   * payload, the key it was signed with and its `exp`; any other word is `Text`.
   */
  datatype Token = Jwt(claims: Claims, key: string, expiresAt: nat) | Text(word: string)

  /**
   * The `Authorization` header split on spaces; `None` when it is missing or
   * empty (both are falsy and rejected the same way).
   */
  type Header = Option<seq<Token>>

  /** The header a client sends for a token: `'Bearer ' + token`. */
  function BearerHeader(t: Token): Header
  {
    Some([Text("Bearer"), t])
  }

  /** `jwt.verify`: the payload of a token signed with the server's key and not yet expired. */
  function Verify(t: Token, now: nat): (c: Option<Claims>)
    ensures c.Some? <==> t.Jwt? && t.key == JwtSecret && now < t.expiresAt
    ensures c.Some? ==> c.value == t.claims
  {
    if t.Jwt? && t.key == JwtSecret && now < t.expiresAt then Some(t.claims) else None
  }

  /** `generateToken`: a token for the row's id, username and role that verifies for seven days. */
  function GenerateToken(user: UserRow, now: nat): (t: Token)
    ensures forall at: nat {:trigger Verify(t, at)} ::
              Verify(t, at) == if at < now + TokenLifetime then Some(Claims(user.id, user.username, user.role)) else None
  {
    Jwt(Claims(user.id, user.username, user.role), JwtSecret, now + TokenLifetime)
  }

  /**
   * `jwt.verify` on `header.split(' ')[1]`: the payload of the second word of
   * the header when it is a token the server signed and that has not expired.
   * The first word is never inspected.
   */
  function BearerClaims(header: Header, now: nat): (c: Option<Claims>)
    ensures c.Some? <==> && header.Some? && |header.value| >= 2 && header.value[1].Jwt?
                         && header.value[1].key == JwtSecret && now < header.value[1].expiresAt
    ensures c.Some? ==> c.value == header.value[1].claims
  {
    if header.None? || |header.value| < 2 then None else Verify(header.value[1], now)
  }

  // ---------------------------------------------------------------------------
  // Session resolution
  // ---------------------------------------------------------------------------

  /**
   * `authMiddleware`: every failure is a 401; on success the principal is the
   * stored row of the token's id (so its role is the stored role, not the
   * token's), and that row is active.
   */
  function ResolveSession(users: seq<UserRow>, header: Header, now: nat): (r: Response<PublicUser>)
    ensures r.Err? ==> r.error.Reply? && r.error.status == Unauthorized
    ensures header.None? ==> r == Err(Reply(Unauthorized, "No token"))
    ensures header.Some? && BearerClaims(header, now).None? ==> r == Err(Reply(Unauthorized, "Invalid token"))
    ensures BearerClaims(header, now).Some? &&
            (forall i :: 0 <= i < |users| ==> users[i].id != BearerClaims(header, now).value.id) ==>
              r == Err(Reply(Unauthorized, "Invalid user"))
    ensures r.Ok? ==>
              && BearerClaims(header, now).Some?
              && exists i :: 0 <= i < |users| && users[i].id == BearerClaims(header, now).value.id
                             && users[i].active && r.value == Public(users[i])
    ensures UniqueUserIds(users) && BearerClaims(header, now).Some? ==>
              forall i :: 0 <= i < |users| && users[i].id == BearerClaims(header, now).value.id ==>
                (if users[i].active then r == Ok(Public(users[i]))
                 else r == Err(Reply(Unauthorized, "User disabled")))
  {
    if header.None? then Err(Reply(Unauthorized, "No token"))
    else match BearerClaims(header, now)
      case None => Err(Reply(Unauthorized, "Invalid token"))
      case Some(c) =>
        match FindUserById(users, c.id)
        case None => Err(Reply(Unauthorized, "Invalid user"))
        case Some(i) =>
          if !users[i].active then Err(Reply(Unauthorized, "User disabled"))
          else Ok(Public(users[i]))
  }

  // ---------------------------------------------------------------------------
  // Role gate
  // ---------------------------------------------------------------------------

  const ListUsersRoles: seq<string> := ["admin", "supervisor"]
  const CreateUserRoles: seq<string> := ["admin"]
  const UpdateUserRoles: seq<string> := ["admin"]
  const SetActiveRoles: seq<string> := ["supervisor", "admin"]
  /** The inline role list of `POST` and `PUT /kanban/cards`. */
  const CardRoles: seq<string> := ["admin", "supervisor", "user"]

  /** `requireRole(...roles)`: 401 without a principal, 403 when its role is not listed. */
  function RequireRole(principal: Option<PublicUser>, roles: seq<string>): (r: Outcome)
    ensures r == Pass <==> principal.Some? && principal.value.role in roles
    ensures r == Fail(Reply(Unauthorized, "Not authenticated")) <==> principal.None?
    ensures r == Fail(Reply(Forbidden, "Forbidden")) <==> principal.Some? && principal.value.role !in roles
  {
    if principal.None? then Fail(Reply(Unauthorized, "Not authenticated"))
    else if principal.value.role !in roles then Fail(Reply(Forbidden, "Forbidden"))
    else Pass
  }

  /**
   * `authMiddleware` followed by `requireRole(...roles)`: the principal, a 401
   * from session resolution, or a 403 for a resolved principal whose stored
   * role is not listed.
   */
  function Authorize(users: seq<UserRow>, header: Header, now: nat, roles: seq<string>): (r: Response<PublicUser>)
    ensures ResolveSession(users, header, now).Err? ==> r == ResolveSession(users, header, now)
    ensures ResolveSession(users, header, now).Ok? ==>
              var p := ResolveSession(users, header, now).value;
              (if p.role in roles then r == Ok(p) else r == Err(Reply(Forbidden, "Forbidden")))
  {
    match ResolveSession(users, header, now)
    case Err(e) => Err(e)
    case Ok(p) =>
      match RequireRole(Some(p), roles)
      case Fail(e) => Err(e)
      case Pass => Ok(p)
  }

  // ---------------------------------------------------------------------------
  // Login
  // ---------------------------------------------------------------------------

  /** The body of a successful login: the public projection of the row and a token. */
  datatype LoginReply = LoginReply(user: PublicUser, token: Token)

  /** Row `i` holds the username and its hash accepts the password. */
  ghost predicate CredentialsMatch(users: seq<UserRow>, i: int, username: string, password: string)
  {
    0 <= i < |users| && users[i].username == username && CompareSecret(password, users[i].password)
  }

  /**
   * `POST /auth/login`: an unknown username or a wrong password is a 400 with
   * no token; right credentials of an inactive user a 403; otherwise the
   * public projection of the row with a token for it. A missing password
   * makes `bcrypt.compareSync` throw.
   */
  function LoginOutcome(users: seq<UserRow>, username: Option<string>, password: Option<string>, now: nat)
    : (r: Response<LoginReply>)
    ensures username.None? || !HasUsername(users, username.value) ==>
              r == Err(Reply(BadRequest, "Invalid credentials"))
    ensures r.Ok? ==>
              && username.Some? && password.Some?
              && exists i :: CredentialsMatch(users, i, username.value, password.value) && users[i].active
                             && r.value.user == Public(users[i])
                             && r.value.token == GenerateToken(users[i], now)
                             && Verify(r.value.token, now) == Some(Claims(users[i].id, users[i].username, users[i].role))
    ensures username.Some? && HasUsername(users, username.value) && password.None? ==>
              r.Err? && r.error.Unhandled?
    ensures UniqueUsernames(users) && username.Some? && password.Some? ==>
              forall i :: 0 <= i < |users| && users[i].username == username.value ==>
                if !CompareSecret(password.value, users[i].password) then r == Err(Reply(BadRequest, "Invalid credentials"))
                else if !users[i].active then r == Err(Reply(Forbidden, "User disabled"))
                else r == Ok(LoginReply(Public(users[i]), GenerateToken(users[i], now)))
  {
    if username.None? then Err(Reply(BadRequest, "Invalid credentials"))
    else match FindUserByUsername(users, username.value)
      case None => Err(Reply(BadRequest, "Invalid credentials"))
      case Some(i) =>
        var user := users[i];
        if password.None? then Err(Unhandled("bcrypt: Illegal arguments"))
        else if !CompareSecret(password.value, user.password) then Err(Reply(BadRequest, "Invalid credentials"))
        else if !user.active then Err(Reply(Forbidden, "User disabled"))
        else Ok(LoginReply(Public(user), GenerateToken(user, now)))
  }
}
