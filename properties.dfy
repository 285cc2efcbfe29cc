/**
 * Properties that relate several operations: listings, idempotence of the
 * bootstrap and of the activation routes, what a token is worth after the
 * stored row changes, logging in after an account is created, and the role
 * matrix of the routes.
 */
module Properties {
  import opened Wrappers
  import opened Http
  import opened Store
  import opened Auth

  // ---------------------------------------------------------------------------
  // Listings: `ORDER BY created_at DESC`
  // ---------------------------------------------------------------------------

  lemma {:induction false} ReversePermutes<T>(s: seq<T>)
    ensures multiset(Reverse(s)) == multiset(s)
  {
    if s != [] {
      ReversePermutes(s[1..]);
      assert s == [s[0]] + s[1..];
    }
  }

  /**
   * With the tables in chronological order, both listings are strictly newest
   * first; the card listing holds exactly the stored cards and the user
   * listing lists every stored user, the `adm` account included.
   */
  lemma ListingsNewestFirst(users: seq<UserRow>, cards: seq<CardRow>, clock: nat)
    requires Consistent(users, cards, clock)
    ensures UsersNewestFirst(UserListing(users))
    ensures CardsNewestFirst(CardListing(cards))
    ensures multiset(CardListing(cards)) == multiset(cards)
    ensures forall i :: 0 <= i < |users| ==> UserListing(users)[|users| - 1 - i] == Listed(users[i])
  {
    ReversePermutes(cards);
    var l := UserListing(users);
    forall i, j | 0 <= i < j < |l|
      ensures l[i].createdAt > l[j].createdAt
    {
      assert l[i] == Listed(users[|users| - 1 - i]);
      assert l[j] == Listed(users[|users| - 1 - j]);
    }
  }

  /** `GET /users` does not hide the bootstrap account. */
  lemma ListingShowsAdmin(users: seq<UserRow>)
    requires HasUsername(users, AdminUsername)
    ensures exists k :: 0 <= k < |users| && UserListing(users)[k].username == AdminUsername
  {
    var i :| 0 <= i < |users| && users[i].username == AdminUsername;
    assert UserListing(users)[|users| - 1 - i] == Listed(Reverse(users)[|users| - 1 - i]);
  }

  /**
   * On a table without `adm`, the bootstrap gives a working administrator
   * login: `adm` with secret `123` logs in as the active admin row inserted.
   */
  lemma AdminCanLogIn(users: seq<UserRow>, id: Id, createdAt: nat, now: nat)
    requires UniqueUsernames(users) && !HasUsername(users, AdminUsername)
    ensures var after := WithAdmin(users, id, createdAt);
            && LoginOutcome(after, Some(AdminUsername), Some(DefaultSecret), now).Ok?
            && LoginOutcome(after, Some(AdminUsername), Some(DefaultSecret), now).value.user
                 == PublicUser(id, AdminUsername, Some("Administrador"), "admin", true)
  {
    var after := WithAdmin(users, id, createdAt);
    AppendUniqueUsername(users, AdminRow(id, createdAt));
    assert after[|users|] == AdminRow(id, createdAt);
  }

  // ---------------------------------------------------------------------------
  // Idempotence
  // ---------------------------------------------------------------------------

  /** A second `ensureAdmin` inserts nothing, whatever id and time it would use. */
  lemma EnsureAdminIdempotent(users: seq<UserRow>, id: Id, createdAt: nat, id': Id, createdAt': nat)
    ensures WithAdmin(WithAdmin(users, id, createdAt), id', createdAt') == WithAdmin(users, id, createdAt)
  {
  }

  /** Disabling (or activating) twice is the same as once. */
  lemma SetActiveIdempotent(users: seq<UserRow>, id: Id, flag: bool)
    ensures SetActive(SetActive(users, id, flag), id, flag) == SetActive(users, id, flag)
  {
  }

  // ---------------------------------------------------------------------------
  // Tokens against the live table
  // ---------------------------------------------------------------------------

  /** A token issued for an active row is accepted until it expires, as that row. */
  lemma IssuedTokenAccepted(users: seq<UserRow>, i: nat, issuedAt: nat, now: nat)
    requires UniqueUserIds(users)
    requires i < |users| && users[i].active
    ensures now < issuedAt + TokenLifetime ==>
              ResolveSession(users, BearerHeader(GenerateToken(users[i], issuedAt)), now) == Ok(Public(users[i]))
    ensures now >= issuedAt + TokenLifetime ==>
              ResolveSession(users, BearerHeader(GenerateToken(users[i], issuedAt)), now)
                == Err(Reply(Unauthorized, "Invalid token"))
  {
  }

  /** Once a row is disabled, every token carrying its id is refused with 401. */
  lemma DisableRevokesSessions(users: seq<UserRow>, id: Id, header: Header, now: nat)
    requires UniqueUserIds(users)
    requires BearerClaims(header, now).Some? && BearerClaims(header, now).value.id == id
    ensures ResolveSession(SetActive(users, id, false), header, now).Err?
    ensures ResolveSession(SetActive(users, id, false), header, now).error.status == Unauthorized
  {
  }

  /**
   * After `PUT /users/:id` changes a role, a token issued before the change
   * resolves to a principal with the new role: authority comes from the
   * stored row, not from the token.
   */
  lemma RoleComesFromStorage(users: seq<UserRow>, i: nat, issuedAt: nat, now: nat, role: string)
    requires UniqueUserIds(users)
    requires i < |users| && users[i].active
    requires now < issuedAt + TokenLifetime
    ensures var after := PatchUser(users, users[i].id, None, Some(role));
            ResolveSession(after, BearerHeader(GenerateToken(users[i], issuedAt)), now).Ok?
            && ResolveSession(after, BearerHeader(GenerateToken(users[i], issuedAt)), now).value.role == role
  {
  }

  // ---------------------------------------------------------------------------
  // Login after create
  // ---------------------------------------------------------------------------

  /**
   * An account created by `POST /users` can log in with the secret it was
   * given (or `123` when none or an empty one was given), gets its public
   * projection and a token the session resolver accepts; any other password
   * is a 400.
   */
  lemma LoginAfterCreate(users: seq<UserRow>, cards: seq<CardRow>, clock: nat, id: Id, username: string,
                         name: Option<string>, role: Option<string>, password: Option<string>, now: nat)
    requires Consistent(users, cards, clock)
    requires UserIdUnused(users, id) && !HasUsername(users, username)
    ensures var row := NewUser(id, username, name, role, password, clock);
            var users' := users + [row];
            var secret := OrElse(password, DefaultSecret);
            && LoginOutcome(users', Some(username), Some(secret), now) == Ok(LoginReply(Public(row), GenerateToken(row, now)))
            && ResolveSession(users', BearerHeader(GenerateToken(row, now)), now) == Ok(Public(row))
            && forall p :: p != secret ==>
                 LoginOutcome(users', Some(username), Some(p), now) == Err(Reply(BadRequest, "Invalid credentials"))
  {
    var row := NewUser(id, username, name, role, password, clock);
    var users' := users + [row];
    AppendUserConsistent(users, cards, clock, row);
    assert users'[|users|] == row;
    var found := FindUserByUsername(users', username);
    assert found == Some(|users|);
    IssuedTokenAccepted(users', |users|, now, now);
  }

  // ---------------------------------------------------------------------------
  // Role matrix
  // ---------------------------------------------------------------------------

  /**
   * Which stored roles pass which route's gate: `user` may only work on
   * cards; `supervisor` may also list users and set their active flag;
   * `admin` may do everything; any other role text passes no gate.
   */
  lemma RoleMatrix(p: PublicUser)
    ensures p.role == "user" ==>
              && RequireRole(Some(p), CardRoles) == Pass
              && RequireRole(Some(p), ListUsersRoles) == Fail(Reply(Forbidden, "Forbidden"))
              && RequireRole(Some(p), CreateUserRoles) == Fail(Reply(Forbidden, "Forbidden"))
              && RequireRole(Some(p), UpdateUserRoles) == Fail(Reply(Forbidden, "Forbidden"))
              && RequireRole(Some(p), SetActiveRoles) == Fail(Reply(Forbidden, "Forbidden"))
    ensures p.role == "supervisor" ==>
              && RequireRole(Some(p), CardRoles) == Pass
              && RequireRole(Some(p), ListUsersRoles) == Pass
              && RequireRole(Some(p), SetActiveRoles) == Pass
              && RequireRole(Some(p), CreateUserRoles) == Fail(Reply(Forbidden, "Forbidden"))
              && RequireRole(Some(p), UpdateUserRoles) == Fail(Reply(Forbidden, "Forbidden"))
    ensures p.role == "admin" ==>
              forall roles :: roles in [CardRoles, ListUsersRoles, CreateUserRoles, UpdateUserRoles, SetActiveRoles] ==>
                RequireRole(Some(p), roles) == Pass
    ensures p.role !in CardRoles ==>
              forall roles :: roles in [CardRoles, ListUsersRoles, CreateUserRoles, UpdateUserRoles, SetActiveRoles] ==>
                RequireRole(Some(p), roles) == Fail(Reply(Forbidden, "Forbidden"))
  {
  }

  /** Behind `authMiddleware` the gate never answers 401: a resolved principal always exists. */
  lemma GateAfterSessionNeverUnauthenticated(users: seq<UserRow>, header: Header, now: nat, roles: seq<string>)
    requires ResolveSession(users, header, now).Ok?
    ensures Authorize(users, header, now, roles).Err? ==>
              Authorize(users, header, now, roles).error == Reply(Forbidden, "Forbidden")
  {
  }

  // ---------------------------------------------------------------------------
  // Cards
  // ---------------------------------------------------------------------------

  /** `PUT /kanban/cards/:id` stores any column text it is given, `blocked` included. */
  lemma UpdateCardAcceptsAnyColumn(cards: seq<CardRow>, id: Id, column: string)
    requires !CardIdUnused(cards, id)
    ensures exists k :: 0 <= k < |cards| && PatchCard(cards, id, None, None, Some(column))[k].column == column
  {
    var k :| 0 <= k < |cards| && cards[k].id == id;
    assert PatchCard(cards, id, None, None, Some(column))[k].column == column;
  }
}
