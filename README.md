# Kanban server: authorization and resource lifecycle

This project models the server of a small kanban application. The server keeps two tables, `users` and `cards`, behind a role-gated HTTP API:

- `POST /auth/login` issues a seven-day token.
- `authMiddleware` turns the `Authorization` header into a principal read from the current `users` row.
- `requireRole` and the inline role lists decide between 401 and 403.
- The user routes create, partially update, disable, activate and list accounts.
- The card routes create, partially update and list cards.
- `ensureAdmin` bootstraps the `adm` account at startup.

Modules:

- `Wrappers` (wrappers.dfy): `Option`.
- `Http` (http.dfy): status codes, error replies, `Response`.
- `Store` (store.dfy): the rows and projections, and the statements each handler runs, as functions on the rows. These are the lookups, the inserts with their defaults, the `COALESCE` updates, the active-flag update and the `ORDER BY created_at DESC` listings. It also holds the table invariant `Consistent`, which covers unique ids, unique usernames, the `creator_id` foreign key and chronological storage order.
- `Auth` (auth.dfy): the token model, session resolution, the role gate and the route role lists, and the login decision.
- `Api` (server.dfy): the class `Server`. Its state is the two tables and the store's clock, with one method per route. Each method runs the middleware chain first and then the handler's early returns.
- `Properties` (properties.dfy): lemmas that relate several operations.

Abstractions:

- **Store.** The tables are sequences in insertion order. `created_at` comes from a clock that advances on every insert, so `ORDER BY created_at DESC` is the reverse of storage order. The listing functions state that this order is strictly newest first.
- **bcrypt.** `PasswordHash` is an ideal one-way function: a candidate compares equal exactly when it is the hashed secret.
- **JWT.** A `Token` is either a signed `Jwt` (payload, key, `exp`) or any other word. `Verify` fails closed: it needs the server key and an unexpired `exp`.
- **Header.** The header is modelled as `header.split(' ')`. A missing header and an empty one both count as absent.
- **uuid.** `uuidv4()` is modelled as "some id no row of that table has".
- **Clock.** The wall-clock seconds that `jwt.verify` checks `exp` against are a `now` parameter.
- **Request bodies.** A body field is `Option<string>`: absent or `null` is `None`. Two defaulting rules apply, and they differ on the empty string:
  - JavaScript `x || default` in the inserts, modelled by `OrElse`: the empty string takes the default.
  - SQL `COALESCE` in the updates, modelled by `Coalesce`: an empty string overwrites the column.
- **Thrown errors.** Some handlers throw instead of replying. This happens for a missing `username` or `title`, which violates `NOT NULL`, and for a login without a password, where `bcrypt.compareSync` throws. These are `Error.Unhandled`. The handler's promise rejects before anything is written, and no handler catches it. What the client sees then depends on the Express and Node versions, which the repository does not pin; see "## Left out".

The server enforces less than the client (client/App.js) suggests:

- `POST /kanban/cards` stores `column || 'todo'`, so any column sent in the body is kept. Only the client always sends `todo`.
- `PUT /kanban/cards/:id` stores any column text, `blocked` included (`Properties.UpdateCardAcceptsAnyColumn`).
- `GET /users` returns the `adm` account (`Properties.ListingShowsAdmin`). Only the client filters it out.
- No handler rejects blank usernames, names, secrets or titles.
- `PUT /kanban/cards/:id` answers 404 for an unknown id before it checks the role (403).

## Model

| member | source | states |
|---|---|---|
| Store.HashSecret | server/index.js:116 | a candidate compares equal to the hash exactly when it is the hashed secret |
| Store.CompareSecret | server/index.js:97 | `bcrypt.compareSync` accepts a candidate exactly when it is the secret the hash was made from |
| Store.Public | server/index.js:101 | the user object a reply carries: the row's id, username, name, role and active flag, and no hash |
| Store.Listed | server/index.js:107 | a listed user carries the row's id, username, name, role, active flag and creation time, and no hash |
| Store.OrElse | server/index.js:116-117 | JavaScript's or-default: an absent or empty value takes the fallback, any other value is kept |
| Store.Coalesce | server/index.js:125 | `COALESCE`: a supplied value replaces the column, an absent one keeps it |
| Store.FindUserById | server/index.js:72 | the first row with the id, or None exactly when no row has it |
| Store.FindUserByUsername | server/index.js:94 | the first row with the username, or None exactly when no row has it |
| Store.FindCard | server/index.js:163 | the first card with the id, or None exactly when no card has it |
| Store.FreshUserId | server/index.js:115 | the new user id is held by no existing row |
| Store.FreshCardId | server/index.js:155 | the new card id is held by no existing card |
| Store.NewUser | server/index.js:116-117 | the inserted row is active; role defaults to `user`; the hash accepts exactly the given secret, or `123` when none or an empty one is given |
| Store.AdminRow | server/index.js:53-55 | the bootstrap row is `adm`, role admin, active, secret `123` |
| Store.WithAdmin | server/index.js:50-60 | when `adm` exists the table is unchanged; otherwise exactly the bootstrap row is appended |
| Store.EnsureAdminExactlyOne | server/index.js:50-60 | with unique usernames, exactly one row is `adm` afterwards and usernames stay unique |
| Store.UniqueUsernameOnce | server/index.js:31 | under the UNIQUE constraint each username belongs to exactly one row |
| Store.AppendUniqueUsername | server/index.js:113-117 | inserting an untaken username keeps usernames unique |
| Store.NewCard | server/index.js:156 | description defaults to empty; column defaults to `todo`, and a given non-empty column is kept; the creator is the given principal id |
| Store.PatchUser | server/index.js:125 | only the rows with the id change; name and role change only when supplied; id, username, active, hash and time never change |
| Store.SetActive | server/index.js:133 | only the active flag of the rows with the id changes, and it becomes the given flag |
| Store.PatchCard | server/index.js:168 | only the card with the id changes; supplied title, description and column replace the old ones, with no check on the column; id, creator and time never change |
| Store.PatchUserMissingId | server/index.js:125-126 | an update whose id matches no row leaves the table unchanged |
| Store.SetActiveMissingId | server/index.js:133-134 | an active-flag update whose id matches no row leaves the table unchanged |
| Store.AppendUserConsistent | server/index.js:29-45 | inserting a user with an unused id and username at the clock keeps the table invariant |
| Store.AppendCardConsistent | server/index.js:38-45 | inserting a card with an unused id, an existing creator and the clock's time keeps the invariant |
| Store.SameUserKeysConsistent | server/index.js:29-37 | rewriting user rows without touching id, username and time keeps the invariant |
| Store.SameCardKeysConsistent | server/index.js:38-45 | rewriting cards without touching id, creator and time keeps the invariant |
| Store.Reverse | server/index.js:148 | the listing has the same length, and position k holds the k-th newest stored row |
| Store.UserListing | server/index.js:107 | every user, position k holding the k-th newest row without its hash; strictly newest first when storage is chronological |
| Store.CardListing | server/index.js:148 | every card, position k holding the k-th newest card; strictly newest first when storage is chronological |
| Auth.Verify | server/index.js:71 | a payload is returned exactly for a token signed with the server key and not expired |
| Auth.BearerClaims | server/index.js:69-71 | a payload exactly when the second word of the header is a token signed with the server key and not expired; the first word is not inspected |
| Auth.GenerateToken | server/index.js:62-64 | the token verifies to the row's id, username and role at every time before issue + 7 days, and to nothing after |
| Auth.ResolveSession | server/index.js:66-81 | every failure is 401: no header, a token that does not verify, an id no row has, an inactive row; otherwise the principal is the stored row's public projection, role included |
| Auth.RequireRole | server/index.js:83-89 | pass exactly when there is a principal whose role is listed; 401 exactly without a principal; 403 exactly for an unlisted role |
| Auth.Authorize | server/index.js:106 | the session's 401, or 403 for an unlisted stored role, or the principal |
| Auth.LoginOutcome | server/index.js:92-103 | unknown username: 400; a known username without a password: unhandled (bcrypt throws); wrong password: 400; right password of an inactive row: 403; success only with matching credentials of an active row, returning its public projection and `generateToken`'s seven-day token for it |
| Api.Server.constructor | server/index.js:26-48 | both tables start empty and the invariant holds |
| Api.Server.EnsureAdmin | server/index.js:50-60 | the users table becomes `WithAdmin` of the old one with an unused id; exactly one `adm` row; cards untouched |
| Api.Server.Login | server/index.js:92-103 | the reply is the login decision on the current table |
| Api.Server.ListUsers | server/index.js:106-109 | 401/403 from the gate (admin, supervisor), else every user newest first |
| Api.Server.CreateUser | server/index.js:111-120 | gate (admin); missing username is unhandled; a taken username is 400 with the table unchanged; otherwise exactly one new row `NewUser` with an unused id, returned without its hash |
| Api.Server.UpdateUser | server/index.js:122-128 | gate (admin); the table becomes `PatchUser`; an unknown id is 404 with nothing changed; otherwise the updated row is returned |
| Api.Server.SetActivation | server/index.js:131-143 | gate (supervisor, admin); the table becomes `SetActive`; an unknown id is 404 with nothing changed; otherwise the updated row is returned |
| Api.Server.ListCards | server/index.js:146-150 | 401 from the session, else every card newest first, for any role |
| Api.Server.CreateCard | server/index.js:152-159 | 401 from the session; 403 for a role outside admin, supervisor, user; missing title is unhandled; otherwise exactly one new card `NewCard` with an unused id, created by the principal |
| Api.Server.UpdateCard | server/index.js:161-170 | 401 from the session; 404 for an unknown id before the role check; then 403; otherwise the cards become `PatchCard` and the updated card is returned |
| Properties.ReversePermutes | server/index.js:148 | a listing holds exactly the stored rows (same multiset) |
| Properties.ListingsNewestFirst | server/index.js:107 | with the invariant, both listings are strictly newest first, the card listing is a permutation of the cards, and every user is listed |
| Properties.ListingShowsAdmin | server/index.js:107 | `GET /users` includes the `adm` account when it exists |
| Properties.AdminCanLogIn | server/index.js:50-60 | on a table without `adm`, the bootstrap gives a login `adm`/`123` that succeeds as the active admin row |
| Properties.EnsureAdminIdempotent | server/index.js:50-60 | a second bootstrap inserts nothing |
| Properties.SetActiveIdempotent | server/index.js:131-143 | disabling or activating twice equals doing it once |
| Properties.IssuedTokenAccepted | server/index.js:62-81 | a token issued for an active row resolves to that row until it expires, and is refused as invalid afterwards |
| Properties.DisableRevokesSessions | server/index.js:75 | after disabling a row, every token carrying its id is refused with 401 |
| Properties.RoleComesFromStorage | server/index.js:72-76 | after a role change, an older token resolves to a principal with the new role |
| Properties.LoginAfterCreate | server/index.js:92-120 | a created account logs in with its secret (or `123`), its token resolves to it, and any other password is 400 |
| Properties.RoleMatrix | server/index.js:106-166 | `user` passes only the card gates; `supervisor` also lists and (de)activates users; `admin` passes every gate; any other role passes none |
| Properties.GateAfterSessionNeverUnauthenticated | server/index.js:83-89 | after a successful session the gate fails only with 403 |
| Properties.UpdateCardAcceptsAnyColumn | server/index.js:168 | a card update stores whatever column text it is given |

## Left out

- HTTP transport: Express routing, CORS, body parsing and `app.listen`. Each route is one method and each request one atomic step. Concurrent requests, last-write-wins and the race between the username check and the insert are not modelled.
- What happens after an `Error.Unhandled` (used by `Auth.LoginOutcome`, `Api.Server.CreateUser` and `Api.Server.CreateCard`) is not modelled. Nothing is written in every case. Under Express 4 the rejection goes uncaught and no reply is sent. On Node 15 or later an unhandled rejection ends the process, so for example a login with a username and no password would stop the server. Under Express 5 the default error handler answers 500.
- The PostgreSQL pool and the DDL in `migrate`. The tables are sequences. The constraints the DDL declares (`UNIQUE username`, `NOT NULL`, the `creator_id` foreign key) are the invariant `Consistent`, or the unhandled errors above. Connection failures are not modelled. Inside `authMiddleware` such a failure would be caught and answered 401 `Invalid token`; elsewhere it would go unhandled.
- `now()` timestamps are a counter that advances on every insert. Two rows inserted in one transaction with equal timestamps cannot occur in the model.
- Route ids are naturals. A path id that is not a valid uuid would make PostgreSQL throw, and the handler would leave the error unhandled. That case is not modelled.
- Only absent, `null` and string body values are modelled. Numbers, booleans and objects in a JSON body are not.
- bcrypt's salt, cost factor and 72-byte input truncation are not modelled.
- JWT encoding, the `alg` header, `iat`, `nbf` and the `JWT_SECRET` environment override are not modelled. The key is the built-in default. Tokens are values, not strings.
- Console logging, and the startup ordering of `migrate` and `ensureAdmin`, including the process exit when either fails.
- The React Native client (client/App.js) is not part of this model. Its only logic is display filtering.
