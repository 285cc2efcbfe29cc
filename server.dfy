/**
 * The server: the two tables and the store's clock as the state of one object,
 * and one method per route. Each request is one atomic step; the middleware
 * chain (`authMiddleware`, then `requireRole`) runs first, then the handler's
 * early returns.
 */
module Api {
  import opened Wrappers
  import opened Http
  import opened Store
  import opened Auth

  class Server {
    var users: seq<UserRow>
    var cards: seq<CardRow>
    /** The store's `now()`: the `created_at` of the next row inserted. */
    var clock: nat

    ghost predicate Valid()
      reads this
    {
      Consistent(users, cards, clock)
    }

    /**
     * `migrate` on first start with an empty database: both tables exist,
     * empty. A restart with stored rows is any state satisfying `Valid()`.
     */
    constructor ()
      ensures Valid() && users == [] && cards == []
    {
      users, cards, clock := [], [], 0;
    }

    /** `ensureAdmin`: insert the `adm` account unless a row with that username exists. */
    method EnsureAdmin()
      requires Valid()
      modifies this
      ensures Valid() && cards == old(cards)
      ensures exists id :: UserIdUnused(old(users), id) && users == WithAdmin(old(users), id, old(clock))
      ensures clock == old(clock) + (|users| - |old(users)|)
      ensures ExactlyOne(users, AdminUsername)
    {
      var id := FreshUserId(users);
      EnsureAdminExactlyOne(users, id, clock);
      var found := FindUserByUsername(users, AdminUsername);
      if found.None? {
        AppendUserConsistent(users, cards, clock, AdminRow(id, clock));
        users := users + [AdminRow(id, clock)];
        clock := clock + 1;
      }
      assert users == WithAdmin(old(users), id, old(clock));
    }

    /**
     * `POST /auth/login`, as the handler's chain of early returns; its
     * contract ties it to `LoginOutcome`, the decision the lemmas are about.
     */
    method Login(username: Option<string>, password: Option<string>, now: nat) returns (r: Response<LoginReply>)
      ensures r == LoginOutcome(users, username, password, now)
    {
      if username.None? {
        return Err(Reply(BadRequest, "Invalid credentials"));
      }
      var found := FindUserByUsername(users, username.value);
      if found.None? {
        return Err(Reply(BadRequest, "Invalid credentials"));
      }
      var user := users[found.value];
      if password.None? {
        return Err(Unhandled("bcrypt: Illegal arguments"));
      }
      if !CompareSecret(password.value, user.password) {
        return Err(Reply(BadRequest, "Invalid credentials"));
      }
      if !user.active {
        return Err(Reply(Forbidden, "User disabled"));
      }
      r := Ok(LoginReply(Public(user), GenerateToken(user, now)));
    }

    /** `GET /users` (admin, supervisor). */
    method ListUsers(header: Header, now: nat) returns (r: Response<seq<ListedUser>>)
      ensures Authorize(users, header, now, ListUsersRoles).Err? ==>
                r == Err(Authorize(users, header, now, ListUsersRoles).error)
      ensures Authorize(users, header, now, ListUsersRoles).Ok? ==> r == Ok(UserListing(users))
    {
      var auth := Authorize(users, header, now, ListUsersRoles);
      if auth.Err? {
        return Err(auth.error);
      }
      r := Ok(UserListing(users));
    }

    /**
     * `POST /users` (admin): a taken username is a 400; a missing one makes
     * the insert violate `NOT NULL`; otherwise one new row with an unused id.
     */
    method CreateUser(header: Header, now: nat, username: Option<string>, name: Option<string>,
                      role: Option<string>, password: Option<string>) returns (r: Response<PublicUser>)
      requires Valid()
      modifies this
      ensures Valid() && cards == old(cards)
      ensures clock == old(clock) + (|users| - |old(users)|)
      ensures var auth := Authorize(old(users), header, now, CreateUserRoles);
              && (auth.Err? ==> r == Err(auth.error) && users == old(users))
              && (auth.Ok? && username.None? ==> r.Err? && r.error.Unhandled? && users == old(users))
              && (auth.Ok? && username.Some? && HasUsername(old(users), username.value) ==>
                    r == Err(Reply(BadRequest, "Username already exists")) && users == old(users))
              && (auth.Ok? && username.Some? && !HasUsername(old(users), username.value) ==>
                    exists id :: UserIdUnused(old(users), id)
                      && users == old(users) + [NewUser(id, username.value, name, role, password, old(clock))]
                      && r == Ok(Public(NewUser(id, username.value, name, role, password, old(clock)))))
    {
      var auth := Authorize(users, header, now, CreateUserRoles);
      if auth.Err? {
        return Err(auth.error);
      }
      if username.None? {
        return Err(Unhandled("null value in column \"username\" violates not-null constraint"));
      }
      var taken := FindUserByUsername(users, username.value);
      if taken.Some? {
        return Err(Reply(BadRequest, "Username already exists"));
      }
      var id := FreshUserId(users);
      var row := NewUser(id, username.value, name, role, password, clock);
      assert !HasUsername(users, username.value);
      AppendUserConsistent(users, cards, clock, row);
      users := users + [row];
      clock := clock + 1;
      r := Ok(Public(row));
      assert UserIdUnused(old(users), id) && users == old(users) + [row];
    }

    /** `PUT /users/:id` (admin): partial update of name and role; 404 when no row has the id. */
    method UpdateUser(header: Header, now: nat, id: Id, name: Option<string>, role: Option<string>)
      returns (r: Response<PublicUser>)
      requires Valid()
      modifies this
      ensures Valid() && cards == old(cards) && clock == old(clock)
      ensures var auth := Authorize(old(users), header, now, UpdateUserRoles);
              && (auth.Err? ==> r == Err(auth.error) && users == old(users))
              && (auth.Ok? ==> users == PatchUser(old(users), id, name, role))
              && (auth.Ok? && UserIdUnused(old(users), id) ==>
                    r == Err(Reply(NotFound, "Not found")) && users == old(users))
              && (auth.Ok? ==> forall i :: 0 <= i < |users| && users[i].id == id ==> r == Ok(Public(users[i])))
    {
      var auth := Authorize(users, header, now, UpdateUserRoles);
      if auth.Err? {
        return Err(auth.error);
      }
      var found := FindUserById(users, id);
      SameUserKeysConsistent(users, PatchUser(users, id, name, role), cards, clock);
      if found.None? {
        PatchUserMissingId(users, id, name, role);
      }
      if found.None? {
        users := PatchUser(users, id, name, role);
        return Err(Reply(NotFound, "Not found"));
      }
      var k := found.value;
      assert forall i :: 0 <= i < |users| && users[i].id == id ==> i == k;
      users := PatchUser(users, id, name, role);
      r := Ok(Public(users[k]));
    }

    /**
     * `PATCH /users/:id/disable` (flag false) and `PATCH /users/:id/activate`
     * (flag true), for supervisor and admin: set the active flag; 404 when no
     * row has the id.
     */
    method SetActivation(header: Header, now: nat, id: Id, flag: bool) returns (r: Response<PublicUser>)
      requires Valid()
      modifies this
      ensures Valid() && cards == old(cards) && clock == old(clock)
      ensures var auth := Authorize(old(users), header, now, SetActiveRoles);
              && (auth.Err? ==> r == Err(auth.error) && users == old(users))
              && (auth.Ok? ==> users == SetActive(old(users), id, flag))
              && (auth.Ok? && UserIdUnused(old(users), id) ==>
                    r == Err(Reply(NotFound, "Not found")) && users == old(users))
              && (auth.Ok? ==> forall i :: 0 <= i < |users| && users[i].id == id ==> r == Ok(Public(users[i])))
    {
      var auth := Authorize(users, header, now, SetActiveRoles);
      if auth.Err? {
        return Err(auth.error);
      }
      var found := FindUserById(users, id);
      SameUserKeysConsistent(users, SetActive(users, id, flag), cards, clock);
      if found.None? {
        SetActiveMissingId(users, id, flag);
      }
      if found.None? {
        users := SetActive(users, id, flag);
        return Err(Reply(NotFound, "Not found"));
      }
      var k := found.value;
      assert forall i :: 0 <= i < |users| && users[i].id == id ==> i == k;
      users := SetActive(users, id, flag);
      r := Ok(Public(users[k]));
    }

    /** `GET /kanban/cards` (any resolved principal, whatever its role). */
    method ListCards(header: Header, now: nat) returns (r: Response<seq<CardRow>>)
      ensures ResolveSession(users, header, now).Err? ==> r == Err(ResolveSession(users, header, now).error)
      ensures ResolveSession(users, header, now).Ok? ==> r == Ok(CardListing(cards))
    {
      var session := ResolveSession(users, header, now);
      if session.Err? {
        return Err(session.error);
      }
      r := Ok(CardListing(cards));
    }

    /**
     * `POST /kanban/cards`: 403 for a role outside the card roles; a missing
     * title makes the insert violate `NOT NULL`; otherwise one new card whose
     * creator is the principal.
     */
    method CreateCard(header: Header, now: nat, title: Option<string>, description: Option<string>,
                      column: Option<string>) returns (r: Response<CardRow>)
      requires Valid()
      modifies this
      ensures Valid() && users == old(users)
      ensures clock == old(clock) + (|cards| - |old(cards)|)
      ensures var session := ResolveSession(old(users), header, now);
              && (session.Err? ==> r == Err(session.error) && cards == old(cards))
              && (session.Ok? && session.value.role !in CardRoles ==>
                    r == Err(Reply(Forbidden, "Forbidden")) && cards == old(cards))
              && (session.Ok? && session.value.role in CardRoles && title.None? ==>
                    r.Err? && r.error.Unhandled? && cards == old(cards))
              && (session.Ok? && session.value.role in CardRoles && title.Some? ==>
                    exists id :: CardIdUnused(old(cards), id)
                      && cards == old(cards) + [NewCard(id, title.value, description, column, session.value.id, old(clock))]
                      && r == Ok(NewCard(id, title.value, description, column, session.value.id, old(clock))))
    {
      var session := ResolveSession(users, header, now);
      if session.Err? {
        return Err(session.error);
      }
      var principal := session.value;
      var gate := RequireRole(Some(principal), CardRoles);
      if gate.Fail? {
        return Err(gate.error);
      }
      var id := FreshCardId(cards);
      if title.None? {
        return Err(Unhandled("null value in column \"title\" violates not-null constraint"));
      }
      var row := NewCard(id, title.value, description, column, principal.id, clock);
      AppendCardConsistent(users, cards, clock, row);
      cards := cards + [row];
      clock := clock + 1;
      r := Ok(row);
    }

    /**
     * `PUT /kanban/cards/:id`: 404 when no card has the id (checked before the
     * role), 403 for a role outside the card roles, otherwise the partial update.
     */
    method UpdateCard(header: Header, now: nat, id: Id, title: Option<string>, description: Option<string>,
                      column: Option<string>) returns (r: Response<CardRow>)
      requires Valid()
      modifies this
      ensures Valid() && users == old(users) && clock == old(clock)
      ensures var session := ResolveSession(old(users), header, now);
              && (session.Err? ==> r == Err(session.error) && cards == old(cards))
              && (session.Ok? && CardIdUnused(old(cards), id) ==>
                    r == Err(Reply(NotFound, "Not found")) && cards == old(cards))
              && (session.Ok? && !CardIdUnused(old(cards), id) && session.value.role !in CardRoles ==>
                    r == Err(Reply(Forbidden, "Forbidden")) && cards == old(cards))
              && (session.Ok? && !CardIdUnused(old(cards), id) && session.value.role in CardRoles ==>
                    && cards == PatchCard(old(cards), id, title, description, column)
                    && forall i :: 0 <= i < |cards| && cards[i].id == id ==> r == Ok(cards[i]))
    {
      var session := ResolveSession(users, header, now);
      if session.Err? {
        return Err(session.error);
      }
      var found := FindCard(cards, id);
      if found.None? {
        return Err(Reply(NotFound, "Not found"));
      }
      var gate := RequireRole(Some(session.value), CardRoles);
      if gate.Fail? {
        return Err(gate.error);
      }
      var k := found.value;
      assert forall i :: 0 <= i < |cards| && cards[i].id == id ==> i == k;
      SameCardKeysConsistent(users, cards, PatchCard(cards, id, title, description, column), clock);
      cards := PatchCard(cards, id, title, description, column);
      r := Ok(cards[k]);
    }
  }
}
