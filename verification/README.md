# Authentication server model

A Dafny model of the authentication core of a small Express/MySQL server
(`server.js`): the sign-up, log-in, profile and log-out handlers, working on
two pieces of state, the `users` table and one client's session user.

- `Wrappers` — `Option`.
- `Hashing` — bcrypt as a `Hasher`: `hash(password, salt)` and
  `compare(password, stored)`, with `Sound(h)`: every password compares true
  against its own hash and a hash is never empty. The salt is an input.
- `Users` — the table rows and `Select`, the `WHERE username = ?` lookup,
  with lemmas that `results[0]` is the first matching row and how a lookup
  changes when a row is appended.
- `Responses` — the status codes and JSON bodies the handlers send.
- `Handlers` — each handler as a function from `State(users, session)` to
  `Step(response, state)`. The hashing failure, the INSERT error, the lookup
  error and the session-store failure are boolean inputs, so every 500 branch
  is reachable. `Serve` dispatches one request to its route and `Run` folds a
  sequence of requests.
- `Properties` — lemmas across handlers and requests.
- `App` — the class `Server` with fields `users: seq<User>` and
  `sessionUser: Option<string>`; its methods run the handlers' early-return
  ladders in place and are proved equal to the `Handlers` functions.

Registration keeps no uniqueness of usernames. A second sign-up with a taken
username appends a row. The log-in always reads the first row, so the new row
never changes a log-in answer (`Properties.RegisterKeepsExistingAccount`).

## Model

| member | source | states |
|---|---|---|
| Users.Select | server.js:97-99 | the lookup returns only rows with exactly that username, every such row, and is empty exactly when no row has it |
| Users.SelectFromTable | server.js:97-99 | every row the lookup returns is a row of the table |
| Users.SelectFirst | server.js:105-110 | `results[0]` is the first row of the table with that username |
| Users.FirstRowExists | server.js:105-110 | when some row has the username, there is a first such row |
| Users.SelectAppend | server.js:74-77 | after an INSERT, a lookup returns the old rows, followed by the new row when its username matches |
| Handlers.Register | server.js:61-89 | 400 "Incomplete data" exactly when one of the five fields is absent or empty; 201 exactly when the fields are present and neither hashing nor the INSERT fails; every other answer is 500; the table is unchanged unless 201; on 201 the one appended row holds firstname, lastname, username, email and the hash of the password; the session is never touched |
| Handlers.Login | server.js:93-134 | the table is never changed; only a 200 "Login successful" changes the session, and it sets it to the request's username; a lookup error is 500; an unknown username is 401; every 401 is the same "Invalid username or password" |
| Handlers.Profile | server.js:136-144 | 401 "Unauthorized" exactly when there is no session user; otherwise 200 with exactly the session's username |
| Handlers.Logout | server.js:160-169 | a session-store error is 500 and keeps the session; otherwise "Logout successful" and no session user; the table is unchanged |
| Properties.LoginSucceedsIff | server.js:105-127 | log-in succeeds if and only if the lookup works and the first row with the username has a non-empty password that compares true against the given one |
| Properties.UnknownUserLikeWrongPassword | server.js:105-122 | an unknown username and a wrong password for a known username both answer 401 "Invalid username or password" and leave the state unchanged |
| Properties.LoginReadsFirstRow | server.js:105-127 | two states with the same session and the same first row for a username give the same log-in answer for it |
| Properties.MissingStoredHash | server.js:110-115 | a first matching row with an empty password answers 500 "Invalid user object in the database" and leaves the session unset |
| Properties.RegisterThenLogin | server.js:71-127 | after a successful sign-up of a new username, log-in with the same password succeeds and the session holds that username |
| Properties.RegisterKeepsExistingAccount | server.js:74-110 | signing up a username that already has a row changes no log-in answer for that username |
| Properties.ServeKeepsInvariant | server.js:61-169 | every handler keeps the session naming a username of the table and only appends to the table |
| Properties.RunKeepsInvariant | server.js:61-169 | the same over any sequence of requests |
| Properties.LogoutThenProfile | server.js:136-169 | a successful log-out followed by a profile request answers "Logout successful" then 401 "Unauthorized" |
| Properties.SignedInThenLogout | server.js:136-169 | with a session user, profile, log-out and profile answer the username, "Logout successful" and 401 "Unauthorized" |
| Properties.WrongThenRightPassword | server.js:110-169 | with a first row holding a non-empty hash, a non-matching password answers 401, a matching one 200, and the session then runs profile, log-out, 401 |
| Properties.Lifecycle | server.js:61-169 | sign-up, wrong password, right password, profile, log-out, profile answer 201, 401, 200, the username, "Logout successful", 401 |
| App.Server.constructor | server.js:38-47 | a server starts from an existing table and a client without a session user |
| App.Server.Register | server.js:61-89 | the in-place sign-up gives the response and the table `Handlers.Register` specifies and keeps the session |
| App.Server.Login | server.js:93-134 | the in-place log-in gives the response and the session `Handlers.Login` specifies and keeps the table |
| App.Server.Profile | server.js:136-144 | answers `Handlers.Profile` of the current state: 401 exactly when there is no session user |
| App.Server.Logout | server.js:160-169 | the in-place log-out gives the response and the session `Handlers.Logout` specifies and keeps the table |

## Left out

- Express setup, body parsing, CORS and `app.listen` (server.js:20-36, 58, 171-173): transport plumbing.
- The MySQL connection and the SQL text (server.js:23-29, 49-56): a lookup returns rows, an INSERT may fail; both failures are inputs. A synchronous throw caught at server.js:129-133 is covered by the same lookup-failure input, since it gives the same 500.
- The lookup compares usernames exactly and returns rows in table order. The column's collation (MySQL's default is case-insensitive) and the row order without ORDER BY are the database's business.
- A username uniqueness constraint in the database schema is not visible; if one exists, a duplicate sign-up is one of the INSERT failures (500).
- bcrypt internals: the cost factor 15, the salt format, the 72-byte input limit and constant-time comparison. `Sound` is the only property assumed; a wrong password comparing false is a hypothesis of the lemmas that need it.
- express-session internals (server.js:38-47): cookies, the secret, session ids, expiry, several clients. One client's session slot is modelled.
- Handlers.Logout: when the store's destroy fails, the model keeps the session user, as the store still holds the session.
- Absent log-in fields: `username` and `password` of `POST /log-in` are strings; what the MySQL driver and bcrypt do with `undefined` is not part of this model.
- Non-string JSON values in the sign-up body (numbers, booleans): a field is absent, empty or a string.
- A NULL password column is modelled as the empty string; both are falsy in the check at server.js:112. The `!user` half of that check cannot fire, since `results[0]` exists once the table lookup is non-empty.
- `GET /profile-data` (server.js:147-157): an unguarded pass-through of a query.
- Asynchronous callback ordering, concurrency and console logging.
