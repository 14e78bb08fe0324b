# Calendar application: authentication, ownership scoping and client list state

This project models the rules of a small personal calendar application. Users
register and log in, or sign in through Google. They then create, list, edit
and delete their own events through a REST API, and a single-page front end
mirrors that list in its local state.

The backend exists in several revisions, and each is modelled as written:

- **`backend/server.js`** (Prisma). It has the `authenticateToken` gate and
  the `/register`, `/login` and `/events` routes. Update and delete use an
  owner-filtered `updateMany`/`deleteMany` plus a zero-count check that
  answers 403.
- **`backend/controllers/`** (mysql). Each event handler in `events.js` reads
  `req.userId`, which only the `authenticateUser` middleware sets; no router
  in the repository mounts them, so the model treats them as meant to sit
  behind it. The `register` and `login` handlers of `auth.js` read only the
  request body and are unauthenticated entry points. Each handler issues one
  SQL statement and has no affected-row check.
- **`backend/routes/eventRoutes.js`**. This is an earlier router with no
  scoping: the owner comes from the request body, and update and delete go by
  id alone.
- **`backend/utils/passport.js`**. This is the Google strategy's
  find-or-create-by-email callback, plus session serialization.

On the front end, the model covers the event list's delete filter, the event
page's fetch-replace and append, and the app shell's `auth` flag and route
guard.

How things are represented:

- **Database.** Both tables live in one `Tables.Db` object: `users` and
  `events` as sequences in insertion order, plus their auto-increment
  counters.
- **Where clauses.** A where clause is a value (`Tables.Where`). What it
  matches is `Tables.Matches`. An owner filter whose value is absent (an
  `undefined` claim, a NULL parameter) matches no row.
- **Oracles.** bcrypt and jsonwebtoken are oracles passed in as values
  (`Common.Bcrypt`, `Common.Jwt`). Two properties of them are assumed, only
  by the lemmas that name them in a `requires`: the round trips
  (`Server.LoginTokenPassesGate`, `Server.RegisterThenLogin`,
  `AuthMiddleware.LoginTokenAuthenticates`), `Server.OwnerLockedOut` and
  `AuthMiddleware.EmptyTokenRefused`. The handlers themselves assume nothing
  of the oracles.
  - `Common.HashAgrees`: a password matches its own digest.
  - `Common.JwtSound`: a signed token is one non-empty word; it verifies
    under its own secret, to its own claims, until it expires; and an empty
    token never verifies.
- **Token claims.** `Common.Claims` holds both `userId` and `id`, each one
  optional. This makes visible which claim each revision writes and which one
  it reads.
- **Parameters.** The clock (`now`) is a parameter. So are the secrets (the
  environment's `JWT_SECRET`; the middleware's literal `your_jwt_secret` is
  `AuthMiddleware.Secret`). A failing database statement is the parameter
  `fault`.

The revisions answer differently from one another, and each is modelled as
written:

- The mysql `register` answers 200, where `server.js` answers 201.
- The mysql `login` answers 404 for an unknown email and 401 for a wrong
  password, where `server.js` answers 401 for both.
- The middleware answers 500 for a token that fails to verify, where the
  `server.js` gate answers 403.
- The controllers' update and delete report success even when no row
  matched, where `server.js` answers 403 on a zero count.

## Model

| member | source | states |
|---|---|---|
| `Text.Split` | backend/server.js:19 | `split(' ')` yields at least one piece, no piece contains a space, and there is exactly one piece iff the string has no space |
| `Text.JoinSplit` | backend/server.js:19 | joining the pieces of `split(' ')` with single spaces gives back the original header |
| `Text.SplitJoin` | backend/server.js:19 | splitting a space-join of space-free words gives back the words (the inverse direction) |
| `Text.SplitWord` | backend/middleware/authMiddleware.js:8 | a word without spaces splits into itself |
| `Text.SplitAfterWord` | backend/middleware/authMiddleware.js:8 | a leading space-free word is split off as the first piece |
| `Text.SecondWord` | backend/middleware/authMiddleware.js:8 | `split(' ')[1]` is defined iff the header contains a space, and it is itself space-free |
| `Text.BearerSecondWord` | frontend/src/components/EventList.jsx:10 | for a space-free token, the second word of the header `Bearer ${token}` is the token |
| `Server.BearerToken` | backend/server.js:18-21 | an absent header, a header without a second word, or an empty second word yields no token; otherwise the token is exactly the header's second space-separated word, non-empty and space-free |
| `Server.BearerTokenOf` | backend/server.js:18-21 | the header `Bearer <token>` with a non-empty, space-free token yields that token |
| `Server.AuthenticateToken` | backend/server.js:17-29 | both rejections (no token; verify fails) are the same 403; the gate continues iff a token is present and verifies, and then `req.user` is exactly the decoded claims |
| `Server.Register` | backend/server.js:32-47 | stores the bcrypt digest (10 rounds) of the password under the next id and answers 201 with that user; a duplicate email or a failing create answers 400 and stores nothing; a unique email column stays unique |
| `Server.Login` | backend/server.js:50-67 | success iff the email exists and its digest matches; an unknown email and a wrong password both get 401 "Invalid credentials"; the token's claims are exactly `{userId: user.id}`, expiring 3600 s after issue; a database error answers 500 |
| `Server.LoginTokenPassesGate` | backend/server.js:57-62 | a `/login` token sent as `Bearer <token>` passes the gate with claims `{userId}` of the logged-in user until its expiry, and gets 403 from then on |
| `Server.RegisterThenLogin` | backend/server.js:32-62 | after registering a new email, logging in with the same password succeeds, and the token passes the gate carrying the new user's id |
| `Server.CreateEvent` | backend/server.js:71-87 | behind the gate, inserts exactly one row, owned by the claim `userId` whatever the body says, and answers 201 with it; a missing claim, a claim naming no user, or a failing insert answers 500 and inserts nothing; a gate rejection changes nothing |
| `Server.ListEvents` | backend/server.js:89-98 | behind the gate, answers exactly the rows whose owner equals the claim `userId`, in table order and as many as match; a failing query answers 500 |
| `Server.UpdateEvent` | backend/server.js:102-120 | as written: applies title, date and description to rows matching the id and the claim `id`; rows outside that owner are unchanged; a zero count answers 403 |
| `Server.DeleteEvent` | backend/server.js:123-134 | as written: removes rows matching the id and the claim `id`; every row of any other owner remains; a zero count answers 403 |
| `Server.OwnerLockedOut` | backend/server.js:105-115 | for a live `/login` token and an event owned by the logged-in user, the update/delete filter on claim `id` matches no row, while a filter on claim `userId` matches that event |
| `Server.UpdateOwnEvent` | backend/server.js:102-120 | corrected filter on claim `userId`: updates only the caller's matching row, leaves every other owner's listing identical, and answers 403 on a zero count |
| `Server.DeleteOwnEvent` | backend/server.js:123-134 | corrected filter on claim `userId`: deletes only the caller's matching row, leaves every other owner's listing identical, and answers 403 on a zero count |
| `EventsController.CreateEvent` | backend/controllers/events.js:3-11 | inserts exactly one row owned by `req.userId` and changes no other row; a failing insert answers 500 and inserts nothing |
| `EventsController.GetEvents` | backend/controllers/events.js:13-20 | answers exactly the rows with `userId = req.userId`, none of another owner's, in table order and as many as match; an error answers 500 with no rows |
| `EventsController.UpdateEvent` | backend/controllers/events.js:22-31 | sets the three fields only on the row matching the id and `req.userId`; a row of another owner is unchanged; the answer is success even when nothing matched |
| `EventsController.DeleteEvent` | backend/controllers/events.js:33-41 | removes at most the one row matching the id and `req.userId`; every other row remains; the answer is success even when nothing matched |
| `AuthController.Register` | backend/controllers/auth.js:7-15 | inserts exactly one user, whose stored password is the bcrypt digest (8 rounds) of the given one; an error answers 500 and inserts nothing |
| `AuthController.Login` | backend/controllers/auth.js:17-31 | a query error or unknown email answers 404 "User not found."; a wrong password answers 401 "Invalid password."; otherwise the token's claims are `{id}` of the first matching row, expiring 86400 s after issue |
| `AuthMiddleware.AuthenticateUser` | backend/middleware/authMiddleware.js:4-13 | a missing header answers 403 "No token provided."; the second word of the header is verified; a verify failure answers 500; on success `req.userId` is the decoded claim `id` |
| `AuthMiddleware.EmptyTokenRefused` | backend/middleware/authMiddleware.js:5-11 | every non-empty header whose second word is empty (`Bearer `, a lone space, `Bearer  x`) passes the missing-header check, and its empty token then fails to verify: the answer is 500; the `server.js` gate answers the same header 403 |
| `AuthMiddleware.LoginTokenAuthenticates` | backend/middleware/authMiddleware.js:2-11 | round trip: a token from the controller's `login`, sent as `Bearer <token>` before it expires, resolves to the logged-in user's id, provided the controller's secret equals the middleware's; afterwards it answers 500 |
| `Passport.FindOrCreate` | backend/utils/passport.js:16-32 | an existing user with that email is returned as it is, with its password kept (silent adoption); otherwise a new user with that email and an empty password is appended under the next id |
| `Passport.SignInIdempotent` | backend/utils/passport.js:16-32 | a second sign-in with the same email returns the same user and leaves the table as the first left it; the table grows by at most one row |
| `Passport.VerifyCallback` | backend/utils/passport.js:13-36 | a lookup or create error is `done(error, null)` with the table unchanged; otherwise the callback answers the `FindOrCreate` outcome; a unique email column stays unique |
| `Passport.SerializeUser` | backend/utils/passport.js:39-41 | the session key is one from which the lookup by id recovers the user, in every table with distinct ids that holds it |
| `Passport.DeserializeUser` | backend/utils/passport.js:43-50 | answers the user with that id, or null when there is none; a lookup error answers an error and no user |
| `Passport.DeserializeSerialized` | backend/utils/passport.js:39-49 | deserializing a user's serialized id gives back that same user |
| `EventRoutes.CreateEvent` | backend/routes/eventRoutes.js:7-23 | the owner is the body's `userId` (it must name an existing user), not any verified identity; otherwise the answer is 400 and nothing is inserted |
| `EventRoutes.ListEvents` | backend/routes/eventRoutes.js:26-37 | answers exactly the rows whose owner is the queried `userId`, in table order and as many as match; an error answers 400 |
| `EventRoutes.UpdateEvent` | backend/routes/eventRoutes.js:40-53 | updates the row with that id whoever owns it and answers 200 with the updated row; no such row or an error answers 400 and changes nothing |
| `EventRoutes.DeleteEvent` | backend/routes/eventRoutes.js:56-65 | removes the one row with that id whoever owns it; no such row or an error answers 400 and removes nothing |
| `EventList.WithoutId` | frontend/src/components/EventList.jsx:13 | no event with the id remains, every other event is kept in its original order, and the length drops by the number of events with that id |
| `EventList.WithoutIdIsDelete` | frontend/src/components/EventList.jsx:13 | the client's `filter` by id keeps exactly the rows a DELETE by that id keeps, in the same order |
| `EventList.HandleDelete` | frontend/src/components/EventList.jsx:5-17 | after a successful request the list is filtered as above; after a failed one it is unchanged |
| `EventList.DeleteMirrorsServer` | frontend/src/components/EventList.jsx:13 | filtering an owner's listing by the deleted id gives that owner's listing after the server's owner-scoped delete |
| `EventPage.InitialEvents` | frontend/src/pages/EventPage.jsx:7 | the list state starts empty |
| `EventPage.AfterFetch` | frontend/src/pages/EventPage.jsx:11-23 | a successful fetch replaces the list with the server's answer; a failed one leaves the list unchanged |
| `EventPage.EventAdded` | frontend/src/pages/EventPage.jsx:29-31 | the new event comes last, with all prior events before it, in order, as a prefix |
| `EventPage.FirstRender` | frontend/src/pages/EventPage.jsx:7-26 | the list starts empty and after mounting holds the fetched events, or stays empty if the fetch failed |
| `EventPage.AddMirrorsServer` | frontend/src/pages/EventPage.jsx:30 | appending the created event to an owner's listing gives that owner's listing after the server's create |
| `App.TokenPresent` | frontend/src/App.jsx:12-13 | `if (token)`: an absent token and the empty string are both falsy; any other stored string counts |
| `App.Element` | frontend/src/App.jsx:28-32 | `/` and `/register` render their page when logged out and redirect to `/events` when logged in; `/events` renders the event page only when logged in and otherwise redirects to `/` |
| `App.GuardSettles` | frontend/src/App.jsx:28-32 | after at most one redirect, every route shows the event page exactly when logged in, and otherwise the login or register page |
| `App.App.constructor` | frontend/src/App.jsx:8 | the `auth` flag starts false |
| `App.App.Mount` | frontend/src/App.jsx:10-16 | the mount effect sets the flag when a non-empty token is stored, and never clears it |
| `App.App.HandleLogout` | frontend/src/App.jsx:18-22 | logout removes the stored token and clears the flag |
| `App.Start` | frontend/src/App.jsx:8-16 | after the first render and mount, the flag is true iff a token is stored |
| `Tables.OwnedBy` | backend/controllers/events.js:16 | the owner condition `userId = ?` holds iff the owner is present and equals the row's; an absent owner matches no row |
| `Tables.Matches` | backend/server.js:107 | a where clause on the id, the owner, or both holds of a row iff each of its conditions holds |
| `Tables.Count` | backend/server.js:115 | the affected-row count is at most the table size, and it is zero iff no row matches |
| `Tables.Select` | backend/controllers/events.js:16 | a SELECT answers exactly the matching rows, in table order (a subsequence) |
| `Tables.DeleteAll` | backend/controllers/events.js:37 | a DELETE keeps exactly the non-matching rows, in order, and removes as many rows as the clause matches |
| `Tables.UpdateAll` | backend/controllers/events.js:27 | an UPDATE keeps the table length; each matching row gets the new fields; every other row is unchanged |
| `Tables.Apply` | backend/controllers/events.js:27 | the SET clause changes title, date and description, and keeps the id and the owner |
| `Tables.FindEvent` | backend/routes/eventRoutes.js:45-46 | the lookup by id finds a row with that id exactly when one exists |
| `Tables.AtMostOneById` | backend/routes/eventRoutes.js:46 | with auto-increment ids, a where clause on the id matches at most one row |
| `Tables.DeleteKeepsIdsDistinct` | backend/controllers/events.js:37 | deleting rows keeps ids distinct |
| `Tables.SelectAppend` | backend/server.js:75-93 | an inserted row appears last in every selection it matches |
| `Tables.CreateThenList` | backend/server.js:75-93 | create, then list: the created event appears verbatim, last, in its owner's listing |
| `Tables.UpdateKeepsOthersRows` | backend/controllers/events.js:27 | an update filtered on the caller leaves every other owner's listing identical (the ownership invariant) |
| `Tables.DeleteKeepsOthersRows` | backend/controllers/events.js:37 | a delete filtered on the caller leaves every other owner's listing identical (the ownership invariant) |
| `Tables.OthersRowsInvariant` | backend/controllers/events.js:22-41 | no sequence of one caller's owner-filtered updates and deletes changes any other owner's listing |
| `Tables.EmailIndex` | backend/server.js:54-56 | the found position is the first user with that email, or the table size if there is none |
| `Tables.FindByEmail` | backend/server.js:54-56 | the lookup by email finds a user with that email exactly when one exists |
| `Tables.EmailCount` | backend/controllers/auth.js:20 | the number of users with that email is at most the table size, and zero iff no user has it |
| `Tables.UsersWithEmail` | backend/controllers/auth.js:20 | the query by email answers exactly the users with that email, in table order and as many as there are |
| `Tables.FirstWithEmail` | backend/controllers/auth.js:20-23 | the query has a first row iff the lookup finds a user, and that first row is the user the lookup finds |
| `Tables.FindAppended` | backend/utils/passport.js:25-32 | a user appended under an unused email is what a later lookup of that email finds |
| `Tables.FindByIdOfMember` | backend/utils/passport.js:45 | with distinct ids, the lookup by a member's id finds exactly that member |
| `Tables.FindById` | backend/utils/passport.js:45 | the lookup by id finds a user with that id exactly when one exists |
| `Tables.Db.constructor` | backend/server.js:9 | the tables start empty, and auto-increment starts at 1 |
| `Tables.Db.InsertUser` | backend/server.js:37-42 | an insert appends one user under the next id and keeps ids distinct |
| `Tables.Db.InsertEvent` | backend/controllers/events.js:7 | an insert appends one event under the next id, with the given owner |
| `Tables.Db.UpdateWhere` | backend/server.js:106-113 | `updateMany` returns the match count and applies `UpdateAll`, touching nothing else |
| `Tables.Db.DeleteWhere` | backend/server.js:125-127 | `deleteMany` returns the match count and applies `DeleteAll`, touching nothing else |

## Findings

| source | as written | input that shows it | evidently intended | confidence | as-written member | corrected member |
|---|---|---|---|---|---|---|
| backend/server.js:107 | the update filter's owner is `req.user.id`, but `/login` tokens carry only `userId` (line 61) | any live `/login` token, and an event the logged-in user created through `POST /events`: the filter's owner is absent; under the SQL-equality reading the count is 0 and the owner gets 403; under Prisma's rule that an `undefined` filter field is dropped, the likely real effect is an id-only filter, so any authenticated caller can update any event | filter on `req.user.userId`, as create and list do (lines 80, 92) | not executed | `Server.OwnerLockedOut` | `Server.UpdateOwnEvent` |
| backend/server.js:126 | the delete filter's owner is `req.user.id`, with the same mismatch | the same token and event: under the SQL-equality reading the count is 0, the owner gets 403, and the event stays; under Prisma's `undefined` rule the likely real effect is an id-only filter, so any authenticated caller can delete any event | filter on `req.user.userId` | not executed | `Server.OwnerLockedOut` | `Server.DeleteOwnEvent` |

`Server.UpdateEvent` and `Server.DeleteEvent` are the as-written handlers.
`Server.OwnerLockedOut` applies their filter to a live login token. The
corrected filter matches the owner's event, and in `Server.UpdateOwnEvent` /
`Server.DeleteOwnEvent` a non-zero count is exactly the 200 case. This model
reads the filter as SQL-style equality. Prisma treats a filter field whose
value is `undefined` differently: it drops that field. Under that rule the
as-written filter would match by id alone, for any caller. That reading is not
modelled.

## Left out

- bcrypt (salting, work factor) has no internals here. Hashing and comparing
  are oracle functions, and the only thing assumed of them is
  `Common.HashAgrees`.
- jsonwebtoken (encoding, signatures, the `iat` claim) has no internals here.
  Signing and verifying are oracle functions, and the only thing assumed of
  them is `Common.JwtSound`. Expiry is an integer comparison of seconds.
- Query execution and connection setup (`db.js`) are left out: the database is
  the in-memory `Tables.Db`. A failing statement is the `fault` parameter, so
  errors come from outside the model rather than from a schema.
- Prisma-specific filter semantics (a field whose value is `undefined` is
  dropped) are left out, as the Findings section says.
- Tables.EmailIndex, Tables.FindByEmail, Tables.UsersWithEmail: email matching
  is exact string equality. A MySQL column collation that ignores case would
  match `Alice@x.com` to `alice@x.com`; collations are not modelled, so
  `AuthController.Login`, `Server.Login`, `Server.Register` and
  `Passport.VerifyCallback` may answer "not found" or insert a second user
  where the database would have matched.
- Request bodies are assumed to carry every field as a string: an email, a
  password, and all three event fields. Absent fields are not modelled. In
  the source, a missing password makes `hashSync` throw in the mysql `register`
  (answered 500 by Express without the handler's message) and makes
  `compareSync` throw inside the mysql `login` callback, which nothing catches.
  A missing title is written as NULL by the mysql update. Prisma skips
  `undefined` data fields, so `Server.UpdateEvent` and `EventRoutes.UpdateEvent`
  would leave that column unchanged.
- Result order: SQL and Prisma leave it unspecified, and the model answers rows
  in insertion order.
- Express routing, CORS, dotenv, the status text of `sendStatus`, and
  `console` logging are left out.
- `new Date(date)`, date formatting and `parseInt` are left out. Dates are
  opaque strings and route ids are already-parsed integers. An invalid date
  that would make a statement fail is covered only by `fault`.
- Server.Register: `bcrypt.hash` runs before the `try`. A hash call that
  throws (for example on a missing password) gets no response, and that path
  is not modelled.
- Server.CreateEvent: a token without the `userId` claim, or with one that
  names no user, is answered 500 on the assumption that the required owner
  relation (a foreign key to `users`) makes the create fail. The Prisma schema
  is not part of this model.
- EventsController.CreateEvent: an absent `req.userId` is answered 500 on the
  assumption that the `userId` column is NOT NULL. The mysql schema is not
  part of this model.
- AuthController.Register fails only on `fault`. The mysql schema is not part
  of this model, so a unique-email rejection is just one possible cause of a
  fault, and the table is not assumed to have unique emails. Because rows may
  share an email, `AuthController.Login` uses the first matching row.
- The Google OAuth protocol, the `/auth/google` routes and passport's session
  machinery are left out. The verify callback starts from the profile's email.
- Rendering, `fetch`/axios, async timing, and the components that only wrap a
  form or a request are left out: `EditEventModal.jsx`, `CreateEvent.jsx`,
  `EventForm.jsx`, `Login.jsx`, `Register.jsx`, the services, the login and
  register pages, `main.jsx`, `textarea.jsx` and `label.jsx`. Local storage is
  the `storedToken` field of `App.App`. The mount effect reads it and logout
  clears it; the `localStorage.setItem` and `setAuth(true)` that `Login.jsx`
  performs are not modelled.
