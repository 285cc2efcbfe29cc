/**
 * The two tables of the store, `users` and `cards`, held in insertion order,
 * and the statements the handlers run against them, as functions on the rows.
 */
module Store {
  import opened Wrappers

  /** A row id. The server draws one from uuid v4; the model only needs ids to be comparable. */
  type Id = nat

  /** The secret every new account gets when none is given, and the bootstrap account's secret. */
  const DefaultSecret := "123"
  /** The role of a user created without one. */
  const DefaultRole := "user"
  /** The column of a card created without one. */
  const DefaultColumn := "todo"
  /** The bootstrap account created at startup. */
  const AdminUsername := "adm"

  // ---------------------------------------------------------------------------
  // bcrypt, as an ideal one-way function
  // ---------------------------------------------------------------------------

  /**
   * A bcrypt hash. The model treats bcrypt as ideal: equal secrets, and only
   * equal secrets, produce hashes that compare equal. The field is never read
   * except by `CompareSecret`.
   */
  datatype PasswordHash = Bcrypt(secret: string)

  /** bcrypt's comparison of a candidate secret with a stored hash: it accepts exactly the hashed secret. */
  predicate CompareSecret(candidate: string, h: PasswordHash): (ok: bool)
    ensures ok <==> candidate == h.secret
  {
    h == Bcrypt(candidate)
  }

  /** bcrypt's hash of a secret: exactly that secret compares equal to it. */
  function HashSecret(secret: string): (h: PasswordHash)
    ensures forall c :: CompareSecret(c, h) <==> c == secret
  {
    Bcrypt(secret)
  }

  // ---------------------------------------------------------------------------
  // Rows and projections
  // ---------------------------------------------------------------------------

  /** A row of `users`. The name column is nullable; everything else is always set. */
  datatype UserRow = UserRow(
    id: Id, username: string, name: Option<string>, role: string,
    active: bool, password: PasswordHash, createdAt: nat)

  /** The columns the server returns for a user: never the password hash. */
  datatype PublicUser = PublicUser(id: Id, username: string, name: Option<string>, role: string, active: bool)

  /** The columns `GET /users` returns: the public ones and the creation time. */
  datatype ListedUser = ListedUser(
    id: Id, username: string, name: Option<string>, role: string, active: bool, createdAt: nat)

  /** A row of `cards`; `column` is the `column_name` column, any text. */
  datatype CardRow = CardRow(
    id: Id, title: string, description: string, column: string, creatorId: Id, createdAt: nat)

  /** The user object a reply carries (`safe`, the `RETURNING` lists): every column of the row but the hash. */
  function Public(u: UserRow): (p: PublicUser)
    ensures p.id == u.id && p.username == u.username && p.name == u.name
    ensures p.role == u.role && p.active == u.active
  {
    PublicUser(u.id, u.username, u.name, u.role, u.active)
  }

  /** The columns `GET /users` selects for a row: the public ones and `created_at`, never the hash. */
  function Listed(u: UserRow): (l: ListedUser)
    ensures l.id == u.id && l.username == u.username && l.name == u.name
    ensures l.role == u.role && l.active == u.active && l.createdAt == u.createdAt
  {
    ListedUser(u.id, u.username, u.name, u.role, u.active, u.createdAt)
  }

  // ---------------------------------------------------------------------------
  // Request-body defaults
  // ---------------------------------------------------------------------------

  /** JavaScript's `v || fallback` on an optional string field: absent and empty both fall back. */
  function OrElse(v: Option<string>, fallback: string): (r: string)
    ensures v.Some? && v.value != "" ==> r == v.value
    ensures v == None || v == Some("") ==> r == fallback
  {
    if v.Some? && v.value != "" then v.value else fallback
  }

  /** SQL `COALESCE($n, column)`: a supplied value (even an empty one) replaces the column. */
  function Coalesce<T>(v: Option<T>, current: T): (r: T)
    ensures v.Some? ==> r == v.value
    ensures v.None? ==> r == current
  {
    v.GetOr(current)
  }

  // ---------------------------------------------------------------------------
  // Lookups (`SELECT ... WHERE col = $1`, first matching row)
  // ---------------------------------------------------------------------------

  /** The index of the first row satisfying `p`: the row a query's `rows[0]` reads. */
  function FirstMatch<T>(rows: seq<T>, p: T -> bool): (r: Option<nat>)
    ensures r.Some? ==> r.value < |rows| && p(rows[r.value])
    ensures r.Some? ==> forall j :: 0 <= j < r.value ==> !p(rows[j])
    ensures r.None? <==> forall j :: 0 <= j < |rows| ==> !p(rows[j])
  {
    if rows == [] then None
    else if p(rows[0]) then Some(0)
    else match FirstMatch(rows[1..], p)
      case None => None
      case Some(k) => Some(k + 1)
  }

  /** `SELECT ... FROM users WHERE id = $1`. */
  function FindUserById(users: seq<UserRow>, id: Id): (r: Option<nat>)
    ensures r.Some? ==> r.value < |users| && users[r.value].id == id
    ensures r.Some? ==> forall j :: 0 <= j < r.value ==> users[j].id != id
    ensures r.None? <==> forall j :: 0 <= j < |users| ==> users[j].id != id
  {
    FirstMatch(users, (u: UserRow) => u.id == id)
  }

  /** `SELECT ... FROM users WHERE username = $1`. */
  function FindUserByUsername(users: seq<UserRow>, username: string): (r: Option<nat>)
    ensures r.Some? ==> r.value < |users| && users[r.value].username == username
    ensures r.Some? ==> forall j :: 0 <= j < r.value ==> users[j].username != username
    ensures r.None? <==> forall j :: 0 <= j < |users| ==> users[j].username != username
  {
    FirstMatch(users, (u: UserRow) => u.username == username)
  }

  /** `SELECT * FROM cards WHERE id = $1`. */
  function FindCard(cards: seq<CardRow>, id: Id): (r: Option<nat>)
    ensures r.Some? ==> r.value < |cards| && cards[r.value].id == id
    ensures r.Some? ==> forall j :: 0 <= j < r.value ==> cards[j].id != id
    ensures r.None? <==> forall j :: 0 <= j < |cards| ==> cards[j].id != id
  {
    FirstMatch(cards, (c: CardRow) => c.id == id)
  }

  ghost predicate HasUsername(users: seq<UserRow>, username: string)
  {
    exists i :: 0 <= i < |users| && users[i].username == username
  }

  // ---------------------------------------------------------------------------
  // Fresh ids (uuid v4)
  // ---------------------------------------------------------------------------

  function MaxId(ids: seq<Id>): (m: Id)
    ensures forall k :: 0 <= k < |ids| ==> ids[k] <= m
  {
    if ids == [] then 0
    else
      var rest := MaxId(ids[1..]);
      if ids[0] < rest then rest else ids[0]
  }

  /** An id that no user row has: the model's stand-in for `uuidv4()` on `users`. */
  function FreshUserId(users: seq<UserRow>): (id: Id)
    ensures forall i :: 0 <= i < |users| ==> users[i].id != id
  {
    var ids := seq(|users|, i requires 0 <= i < |users| => users[i].id);
    assert forall i :: 0 <= i < |users| ==> ids[i] == users[i].id;
    MaxId(ids) + 1
  }

  /** An id that no card row has: the model's stand-in for `uuidv4()` on `cards`. */
  function FreshCardId(cards: seq<CardRow>): (id: Id)
    ensures forall i :: 0 <= i < |cards| ==> cards[i].id != id
  {
    var ids := seq(|cards|, i requires 0 <= i < |cards| => cards[i].id);
    assert forall i :: 0 <= i < |cards| ==> ids[i] == cards[i].id;
    MaxId(ids) + 1
  }

  // ---------------------------------------------------------------------------
  // Table invariant
  // ---------------------------------------------------------------------------

  ghost predicate UniqueUserIds(users: seq<UserRow>)
  {
    forall i, j :: 0 <= i < j < |users| ==> users[i].id != users[j].id
  }

  /** The `UNIQUE` constraint on `users.username`. */
  ghost predicate UniqueUsernames(users: seq<UserRow>)
  {
    forall i, j :: 0 <= i < j < |users| ==> users[i].username != users[j].username
  }

  ghost predicate UniqueCardIds(cards: seq<CardRow>)
  {
    forall i, j :: 0 <= i < j < |cards| ==> cards[i].id != cards[j].id
  }

  /** Some user row has this id. */
  ghost predicate IsUserId(users: seq<UserRow>, id: Id)
  {
    exists i :: 0 <= i < |users| && users[i].id == id
  }

  /** The foreign key `cards.creator_id REFERENCES users(id)`. */
  ghost predicate CreatorsExist(users: seq<UserRow>, cards: seq<CardRow>)
  {
    forall k :: 0 <= k < |cards| ==> IsUserId(users, cards[k].creatorId)
  }

  /** Rows are stored in the order of their `created_at`, all earlier than the clock. */
  ghost predicate UsersChronological(users: seq<UserRow>, clock: nat)
  {
    && (forall i, j :: 0 <= i < j < |users| ==> users[i].createdAt < users[j].createdAt)
    && (forall i :: 0 <= i < |users| ==> users[i].createdAt < clock)
  }

  ghost predicate CardsChronological(cards: seq<CardRow>, clock: nat)
  {
    && (forall i, j :: 0 <= i < j < |cards| ==> cards[i].createdAt < cards[j].createdAt)
    && (forall i :: 0 <= i < |cards| ==> cards[i].createdAt < clock)
  }

  ghost predicate Consistent(users: seq<UserRow>, cards: seq<CardRow>, clock: nat)
  {
    && UniqueUserIds(users)
    && UniqueUsernames(users)
    && UniqueCardIds(cards)
    && CreatorsExist(users, cards)
    && UsersChronological(users, clock)
    && CardsChronological(cards, clock)
  }

  ghost predicate UserIdUnused(users: seq<UserRow>, id: Id)
  {
    forall i :: 0 <= i < |users| ==> users[i].id != id
  }

  ghost predicate CardIdUnused(cards: seq<CardRow>, id: Id)
  {
    forall i :: 0 <= i < |cards| ==> cards[i].id != id
  }

  /** Exactly one row has this username. */
  ghost predicate ExactlyOne(users: seq<UserRow>, username: string)
  {
    exists i :: 0 <= i < |users| && users[i].username == username &&
      forall j :: 0 <= j < |users| && users[j].username == username ==> j == i
  }

  /** Appending a user with an unused id and username, stamped with the clock, keeps the invariant. */
  lemma AppendUserConsistent(users: seq<UserRow>, cards: seq<CardRow>, clock: nat, row: UserRow)
    requires Consistent(users, cards, clock)
    requires UserIdUnused(users, row.id) && !HasUsername(users, row.username)
    requires row.createdAt == clock
    ensures Consistent(users + [row], cards, clock + 1)
  {
    var r := users + [row];
    forall k | 0 <= k < |cards|
      ensures IsUserId(r, cards[k].creatorId)
    {
      var i :| 0 <= i < |users| && users[i].id == cards[k].creatorId;
      assert r[i] == users[i];
    }
  }

  /** Appending a card with an unused id and an existing creator, stamped with the clock, keeps the invariant. */
  lemma AppendCardConsistent(users: seq<UserRow>, cards: seq<CardRow>, clock: nat, row: CardRow)
    requires Consistent(users, cards, clock)
    requires CardIdUnused(cards, row.id)
    requires IsUserId(users, row.creatorId)
    requires row.createdAt == clock
    ensures Consistent(users, cards + [row], clock + 1)
  {
  }

  /** Rewriting user rows without touching their ids, usernames and times keeps the invariant. */
  lemma SameUserKeysConsistent(users: seq<UserRow>, users': seq<UserRow>, cards: seq<CardRow>, clock: nat)
    requires Consistent(users, cards, clock)
    requires |users'| == |users|
    requires forall i :: 0 <= i < |users| ==>
               users'[i].id == users[i].id && users'[i].username == users[i].username
               && users'[i].createdAt == users[i].createdAt
    ensures Consistent(users', cards, clock)
  {
  }

  /** Rewriting card rows without touching their ids, creators and times keeps the invariant. */
  lemma SameCardKeysConsistent(users: seq<UserRow>, cards: seq<CardRow>, cards': seq<CardRow>, clock: nat)
    requires Consistent(users, cards, clock)
    requires |cards'| == |cards|
    requires forall i :: 0 <= i < |cards| ==>
               cards'[i].id == cards[i].id && cards'[i].creatorId == cards[i].creatorId
               && cards'[i].createdAt == cards[i].createdAt
    ensures Consistent(users, cards', clock)
  {
  }

  // ---------------------------------------------------------------------------
  // Inserts
  // ---------------------------------------------------------------------------

  /**
   * The row `POST /users` inserts: active, role defaulting to `user`,
   * and the hash of the given secret, or of `123` when none (or an empty one) is given.
   */
  function NewUser(id: Id, username: string, name: Option<string>, role: Option<string>,
                   password: Option<string>, createdAt: nat): (row: UserRow)
    ensures row.id == id && row.username == username && row.name == name && row.createdAt == createdAt
    ensures row.active
    ensures role == None || role == Some("") ==> row.role == DefaultRole
    ensures role.Some? && role.value != "" ==> row.role == role.value
    ensures password == None || password == Some("") ==> CompareSecret(DefaultSecret, row.password)
    ensures password.Some? && password.value != "" ==>
              forall c :: CompareSecret(c, row.password) <==> c == password.value
  {
    UserRow(id, username, name, OrElse(role, DefaultRole), true, HashSecret(OrElse(password, DefaultSecret)), createdAt)
  }

  /** The bootstrap account `ensureAdmin` inserts. */
  function AdminRow(id: Id, createdAt: nat): (row: UserRow)
    ensures row.username == AdminUsername && row.role == "admin" && row.active
    ensures CompareSecret(DefaultSecret, row.password)
  {
    UserRow(id, AdminUsername, Some("Administrador"), "admin", true, HashSecret(DefaultSecret), createdAt)
  }

  /** `ensureAdmin`'s effect on `users`: insert the bootstrap account unless `adm` already exists. */
  function WithAdmin(users: seq<UserRow>, id: Id, createdAt: nat): (r: seq<UserRow>)
    ensures HasUsername(r, AdminUsername)
    ensures HasUsername(users, AdminUsername) ==> r == users
    ensures !HasUsername(users, AdminUsername) ==> r == users + [AdminRow(id, createdAt)]
  {
    if FindUserByUsername(users, AdminUsername).Some? then users
    else
      var r := users + [AdminRow(id, createdAt)];
      assert r[|users|].username == AdminUsername;
      r
  }

  /** With unique usernames, the username of any row is held by that row alone. */
  lemma UniqueUsernameOnce(users: seq<UserRow>, i: nat)
    requires UniqueUsernames(users) && i < |users|
    ensures ExactlyOne(users, users[i].username)
  {
  }

  /** Appending a row whose username is not taken keeps usernames unique. */
  lemma AppendUniqueUsername(users: seq<UserRow>, row: UserRow)
    requires UniqueUsernames(users)
    requires forall j :: 0 <= j < |users| ==> users[j].username != row.username
    ensures UniqueUsernames(users + [row])
  {
  }

  /** After `ensureAdmin` on a table with unique usernames, exactly one row is `adm` and usernames stay unique. */
  lemma EnsureAdminExactlyOne(users: seq<UserRow>, id: Id, createdAt: nat)
    requires UniqueUsernames(users)
    ensures ExactlyOne(WithAdmin(users, id, createdAt), AdminUsername)
    ensures UniqueUsernames(WithAdmin(users, id, createdAt))
  {
    var found := FindUserByUsername(users, AdminUsername);
    if found.Some? {
      UniqueUsernameOnce(users, found.value);
    } else {
      var r := users + [AdminRow(id, createdAt)];
      AppendUniqueUsername(users, AdminRow(id, createdAt));
      UniqueUsernameOnce(r, |users|);
    }
  }

  /**
   * The row `POST /kanban/cards` inserts: description defaulting to the empty
   * string and column to `todo`; a column the client sends is kept as it is.
   */
  function NewCard(id: Id, title: string, description: Option<string>, column: Option<string>,
                   creatorId: Id, createdAt: nat): (row: CardRow)
    ensures row.id == id && row.title == title && row.creatorId == creatorId && row.createdAt == createdAt
    ensures description == None || description == Some("") ==> row.description == ""
    ensures description.Some? ==> row.description == description.value
    ensures column == None || column == Some("") ==> row.column == DefaultColumn
    ensures column.Some? && column.value != "" ==> row.column == column.value
  {
    CardRow(id, title, OrElse(description, ""), OrElse(column, DefaultColumn), creatorId, createdAt)
  }

  // ---------------------------------------------------------------------------
  // Updates (`UPDATE ... WHERE id = $n`)
  // ---------------------------------------------------------------------------

  /** `PUT /users/:id`: `name = COALESCE($1, name), role = COALESCE($2, role)` on the rows with that id. */
  function PatchUser(users: seq<UserRow>, id: Id, name: Option<string>, role: Option<string>): (r: seq<UserRow>)
    ensures |r| == |users|
    ensures forall i :: 0 <= i < |users| && users[i].id != id ==> r[i] == users[i]
    ensures forall i :: 0 <= i < |users| ==>
              && r[i].id == users[i].id && r[i].username == users[i].username
              && r[i].active == users[i].active && r[i].password == users[i].password
              && r[i].createdAt == users[i].createdAt
    ensures forall i :: 0 <= i < |users| && users[i].id == id ==>
              && (name.None? ==> r[i].name == users[i].name)
              && (name.Some? ==> r[i].name == name)
              && (role.None? ==> r[i].role == users[i].role)
              && (role.Some? ==> r[i].role == role.value)
  {
    seq(|users|, i requires 0 <= i < |users| =>
      if users[i].id == id
      then users[i].(name := if name.Some? then name else users[i].name, role := Coalesce(role, users[i].role))
      else users[i])
  }

  /** `PATCH /users/:id/disable` and `/activate`: `active = $flag` on the rows with that id. */
  function SetActive(users: seq<UserRow>, id: Id, flag: bool): (r: seq<UserRow>)
    ensures |r| == |users|
    ensures forall i :: 0 <= i < |users| && users[i].id != id ==> r[i] == users[i]
    ensures forall i :: 0 <= i < |users| && users[i].id == id ==> r[i].active == flag
    ensures forall i :: 0 <= i < |users| ==> r[i].(active := users[i].active) == users[i]
  {
    seq(|users|, i requires 0 <= i < |users| =>
      if users[i].id == id then users[i].(active := flag) else users[i])
  }

  /**
   * `PUT /kanban/cards/:id`: title, description and column each replaced by
   * the supplied value (`COALESCE`), with no check on the column's value.
   */
  function PatchCard(cards: seq<CardRow>, id: Id, title: Option<string>, description: Option<string>,
                     column: Option<string>): (r: seq<CardRow>)
    ensures |r| == |cards|
    ensures forall i :: 0 <= i < |cards| && cards[i].id != id ==> r[i] == cards[i]
    ensures forall i :: 0 <= i < |cards| ==>
              && r[i].id == cards[i].id && r[i].creatorId == cards[i].creatorId
              && r[i].createdAt == cards[i].createdAt
    ensures forall i :: 0 <= i < |cards| && cards[i].id == id ==>
              && r[i].title == title.GetOr(cards[i].title)
              && r[i].description == description.GetOr(cards[i].description)
              && r[i].column == column.GetOr(cards[i].column)
  {
    seq(|cards|, i requires 0 <= i < |cards| =>
      if cards[i].id == id
      then cards[i].(title := Coalesce(title, cards[i].title),
                     description := Coalesce(description, cards[i].description),
                     column := Coalesce(column, cards[i].column))
      else cards[i])
  }

  /** An `UPDATE` whose id matches no row changes no row (`rowCount` 0). */
  lemma PatchUserMissingId(users: seq<UserRow>, id: Id, name: Option<string>, role: Option<string>)
    requires UserIdUnused(users, id)
    ensures PatchUser(users, id, name, role) == users
  {
  }

  lemma SetActiveMissingId(users: seq<UserRow>, id: Id, flag: bool)
    requires UserIdUnused(users, id)
    ensures SetActive(users, id, flag) == users
  {
  }

  // ---------------------------------------------------------------------------
  // Listings (`ORDER BY created_at DESC`)
  // ---------------------------------------------------------------------------

  function Reverse<T>(s: seq<T>): (r: seq<T>)
    ensures |r| == |s|
    ensures forall k :: 0 <= k < |s| ==> r[k] == s[|s| - 1 - k]
  {
    if s == [] then [] else Reverse(s[1..]) + [s[0]]
  }

  /** `GET /users`: every user, the `adm` account included, newest first, without the hash. */
  function UserListing(users: seq<UserRow>): (r: seq<ListedUser>)
    ensures |r| == |users|
    ensures forall k :: 0 <= k < |users| ==> r[k] == Listed(users[|users| - 1 - k])
    ensures (forall i, j :: 0 <= i < j < |users| ==> users[i].createdAt < users[j].createdAt) ==> UsersNewestFirst(r)
  {
    var newest := Reverse(users);
    seq(|newest|, k requires 0 <= k < |newest| => Listed(newest[k]))
  }

  /** `GET /kanban/cards`: every card, newest first. */
  function CardListing(cards: seq<CardRow>): (r: seq<CardRow>)
    ensures |r| == |cards|
    ensures forall k :: 0 <= k < |cards| ==> r[k] == cards[|cards| - 1 - k]
    ensures (forall i, j :: 0 <= i < j < |cards| ==> cards[i].createdAt < cards[j].createdAt) ==> CardsNewestFirst(r)
  {
    Reverse(cards)
  }

  ghost predicate UsersNewestFirst(l: seq<ListedUser>)
  {
    forall i, j :: 0 <= i < j < |l| ==> l[i].createdAt > l[j].createdAt
  }

  ghost predicate CardsNewestFirst(l: seq<CardRow>)
  {
    forall i, j :: 0 <= i < j < |l| ==> l[i].createdAt > l[j].createdAt
  }
}
