# message.ly accounts and messages, modelled in Dafny

message.ly is a small messaging backend. Users register and log in, send each
other direct messages, and list the messages they sent or received. This
project models the account and message logic at its core:

- the `User` model (`models/user.js`): `register`, `authenticate`,
  `updateLoginTimestamp`, `all`, `get`, `messagesFrom` and `messagesTo`;
- the `/auth` routes (`routes/auth.js`): the required-field checks of
  `POST /login` and `POST /register` and the order in which they call the model;
- the `/messages` routes (`routes/messages.js`): the read-access check of
  `GET /:id`, the sender of `POST /`, and the recipient-only check of
  `POST /:id/read`.

The database becomes a `Database` object (`store.dfy`) with two fields. `users`
is a map keyed by username, because the username is the table's key. `messages`
is a sequence of rows whose ids run 1, 2, 3, … in insertion order. Its
invariant `Valid()` says that ids are serial and that both ends of every
message are registered users, as the foreign keys require. The methods that
write (`Register`, `UpdateLoginTimestamp`, the message model's `Create` and
`MarkRead`, and the route handlers) take the `Database`, modify it, and state
its whole new state. The read-only queries are functions of the tables.

Some things the source does are outside Dafny's reach, and become parameters:

- `bcrypt.hash`, `bcrypt.compare` and `jwt.sign`, with the configured work
  factor and secret key, are the three fields of a `Crypto` value. `sign`
  takes the claims and the time of issue, which `jwt.sign` adds as `iat`.
  Two facts may be assumed about them: `Sound` (a password matches its own
  hash) and `HidesPlaintext` (no password is its own hash).
- `current_timestamp` is a `now` parameter.
- The identity that `ensureLoggedIn` places on the request is an `identity`
  parameter.

Thrown errors are `Err` results. An `ExpressError` becomes
`HttpError(message, status)`. An exception raised by the database itself or by
the message model is `StoreFailure`; this code fixes no message or status for
it.

In a few places the source's own comments and its code disagree, and the
model follows the code:

- `/register` answers with the row `register` returned, which includes the
  hashed password. It does not answer with a token, and it does not refresh
  the login time (routes/auth.js:34-36 against 44-45).
- `/login` with a wrong password answers "Logged in!" with `token: false`, and
  it still refreshes `last_login_at`. An unknown username fails with 400 inside
  `authenticate`, before the refresh.
- The 404 that `messagesTo` throws says "Cannot find messages from …".
- `register` reports a missing returned row with status 400. A duplicate
  username is the database's own error.

## Model

| member | source | states |
|---|---|---|
| `UserModel.Register` | models/user.js:19-32 | stores `hash(password)`, so when no password is its own hash (`HidesPlaintext`) neither the stored nor the returned password is the plaintext; `join_at` and `last_login_at` both equal the one clock reading; returns username, hashed password, first and last name and phone; a username that is already taken makes the insert fail and leaves both tables unchanged; messages are never touched |
| `UserModel.FirstReturned` | models/user.js:27-31 | an INSERT that returned no row is an error "Internal server error" with status 400; otherwise the result is the first returned row |
| `UserModel.Authenticate` | models/user.js:36-60 | an unknown username is an error "Cannot find user …" with status 400, not `false`; for a known user the result is a token signed over exactly `{username}`, issued now, if and only if `compare(password, storedHash)` holds, and `false` if and only if it does not; it only reads the table |
| `UserModel.RegisteredUserAuthenticates` | models/user.js:19-58 | with a sound `compare`, the row `register` writes makes `authenticate` with the same password return the signed token |
| `UserModel.StampLogin` | models/user.js:64-70 | the table keeps the same usernames; every other user is unchanged; for the named user only `last_login_at` changes, and it becomes `now`; an unknown username changes nothing and is no error |
| `UserModel.UpdateLoginTimestamp` | models/user.js:64-70 | the new users table is `StampLogin` of the old one; messages are unchanged; the store invariant is kept |
| `UserModel.All` | models/user.js:75-84 | the listing holds exactly the profiles (username, first name, last name, phone) of the users in the table, and no password or timestamp |
| `UserModel.AllListsEachUserOnce` | models/user.js:75-84 | the listing has exactly as many entries as there are users |
| `UserModel.Get` | models/user.js:95-109 | an unknown username is an error "Cannot find user …" with status 400; otherwise the result carries the user's username, names, phone, `join_at` and `last_login_at`, and no password |
| `UserModel.Select` | models/user.js:121-133 | the join query returns rows only for messages whose filtered column is the user and whose other end has a user row; each row is that message joined with the other end's profile |
| `UserModel.SelectEmpty` | models/user.js:121-137 | the join returns no row exactly when every message of the user lacks a users row at its other end, which is when the listing throws 404 |
| `UserModel.Involving` | models/user.js:130-132 | reference filter: exactly the messages whose sender (or recipient) column is the user, in table order |
| `UserModel.SelectJoinsInvolving` | models/user.js:121-133 | when every message's other end is a user, the join drops nothing: it has one row per involved message, in the same order, each joined with that message's counterpart |
| `UserModel.MessagesFrom` | models/user.js:119-151 | an empty listing is an error "Cannot find messages from …" with status 404, not `[]`, and happens exactly when no message from the user has a recipient row; otherwise every entry is a message the user sent, with `to_user` filled from the recipient's row and id, body, sent_at and read_at kept |
| `UserModel.MessagesFromExact` | models/user.js:119-151 | in a store whose foreign keys hold, `messagesFrom(u)` fails exactly when `u` sent nothing, and otherwise lists every message with `from_username = u`, in order, each shaped with the recipient's profile |
| `UserModel.MessagesTo` | models/user.js:161-195 | the mirror of `MessagesFrom`: filters on `to_username`, fills `from_user` from the sender's row, and an empty listing is an error with status 404 |
| `UserModel.MessagesToExact` | models/user.js:161-195 | in a store whose foreign keys hold, `messagesTo(u)` fails exactly when `u` received nothing, and otherwise lists every message with `to_username = u`, in order, each shaped with the sender's profile |
| `MessageModel.Find` | routes/messages.js:25 | finds a stored row with the requested id, and finds none exactly when no row has that id |
| `MessageModel.Get` | routes/messages.js:25 | a fetched message carries the requested id and is a stored row with its sender's and recipient's profiles |
| `MessageModel.GetValid` | routes/messages.js:63 | in a valid store, fetching succeeds exactly for an existing id and yields the row at that position |
| `MessageModel.Create` | routes/messages.js:46 | appends one unread message with the next id, sent now, from and to the given users; a sender or recipient who is not a user is rejected and nothing changes |
| `MessageModel.MarkRead` | routes/messages.js:69 | sets `read_at` of that one message to `now` and changes no other row or field; returns `{id, read_at}` |
| `AuthRoutes.Present` | routes/auth.js:18 | definition of the `!field` test at line 18 (and line 41): a body field passes when it is there and is not the empty string; `PostLogin`'s and `PostRegister`'s contracts state its effect |
| `AuthRoutes.LoginComplete` | routes/auth.js:18 | definition of the line-18 test on username and password; `PostLogin`'s contract states its effect |
| `AuthRoutes.RegisterComplete` | routes/auth.js:41 | definition of the line-41 test on the five fields; `PostRegister`'s contract states its effect |
| `AuthRoutes.PostLogin` | routes/auth.js:13-30 | a missing or empty username or password is an error with status 400, and then neither `authenticate` nor `updateLoginTimestamp` runs; an unknown user stops at `authenticate`'s 400 with `last_login_at` untouched; otherwise `last_login_at` is refreshed even when the password is wrong, and the answer is "Logged in!" with the token, issued at the request's `now`, or `false` |
| `AuthRoutes.PostRegister` | routes/auth.js:38-49 | unless all five fields are non-empty the answer is an error with status 400 and nothing is inserted; otherwise the answer is `register`'s row (hashed password included, no token), and `last_login_at` stays the registration time |
| `AuthRoutes.RegisterThenLogIn` | routes/auth.js:13-49 | registering and then logging in with the same password yields a token signed over the username; afterwards the user's `join_at` is the registration time and `last_login_at` is the login time |
| `MessageRoutes.MayRead` | routes/messages.js:26 | definition of the line-26 test: the requester is the message's recipient or its sender; `GetMessage`'s contract states its effect and `MayReadStoredRow` ties it to the stored row |
| `MessageRoutes.MayMarkRead` | routes/messages.js:65 | definition of the line-65 test: the requester is the message's recipient; `PostMarkRead`'s contract states its effect and `MarkReadNarrowerThanRead` relates it to `MayRead` |
| `MessageRoutes.MayReadStoredRow` | routes/messages.js:25-26 | in a valid store, fetching an existing id succeeds, and the line-26 test lets the requester through exactly when they are the stored row's sender or recipient |
| `MessageRoutes.MarkReadNarrowerThanRead` | routes/messages.js:26-65 | whoever may mark a message read may read it; a sender who is not also the recipient may read it but not mark it read |
| `MessageRoutes.GetMessage` | routes/messages.js:21-34 | a fetched message is returned if and only if the requester is its recipient or its sender; otherwise the answer is "Access denied" with status 401; a failed fetch passes its error through; nothing is modified |
| `MessageRoutes.PostMessage` | routes/messages.js:42-51 | the new message's sender is always the logged-in user; only the recipient and the body come from the request, and any `from_username` in the body is ignored; the answer carries the next id and the send time `now` |
| `MessageRoutes.PostMarkRead` | routes/messages.js:60-75 | unless the requester is the message's recipient the answer is "Access denied" with status 401, `markRead` is not called and no message changes; otherwise only that message's `read_at` changes and the answer is `markRead`'s result |

## Left out

- Cryptography: bcrypt's salting, work factor and strength, and the token's
  format and signature checking. `hash`, `compare` and `sign` are opaque
  function values. Because the salt is left out, `hash` is deterministic here.
  The `iat` claim that `jwt.sign` adds is the `now` of the login request, the
  same reading that becomes `last_login_at`; the source takes the two from
  different clocks.
- Token verification in `ensureLoggedIn`: the middleware is not part of this
  model. Its outcome is the `identity` parameter of the message routes.
- `models/message.js` is not part of this model. `MessageModel.Get`, `Create`
  and `MarkRead` are stand-ins that act on the same tables, and these choices
  are the model's own, not the message model's:
  - `Get` fails when no row has the id or when an end of the row is not a
    user, so in a valid store (serial ids, both ends users) it fails exactly
    for an id outside 1..|messages|; `MarkRead` fails exactly for an id
    outside 1..|messages|; the id is a `nat`, while `req.params.id` is a string (routes/messages.js:25,
    63), so a non-numeric id, a database error in the source, cannot be
    expressed;
  - `Create` fails exactly when the sender or the recipient is not a user;
  - ids are serial with no gaps, and a rejected `Create` uses up no id, where
    a Postgres `SERIAL` column would skip one;
  - a second `MarkRead` of the same message overwrites `read_at` with the new
    `now`;
  - every failure is `StoreFailure`.

  Every route clause that mentions `Get`, `Create` or `MarkRead`, their
  results, or whether they succeed rests on these choices. That includes:
  - `GetMessage`'s `db.Valid() ==> (r.Ok? <==> …)`;
  - `PostMessage`'s `r.Ok? <==> …`, its `r.value.id == …` and
    `db.messages == …`, and its `r.Err? ==> r == Err(StoreFailure)`;
  - `PostMarkRead`'s `r.Ok? <==> …`, whose right-to-left half holds only
    because `MarkRead` cannot fail after a successful `Get` in a valid store,
    and its `r.Ok? ==> … db.messages == …`;
  - `MayReadStoredRow`'s `Get(..).Ok?` and `GetValid` as a whole.
- SQL text, `db.query`, connection setup and the configuration values
  (`DB_URI`, `SECRET_KEY`, `BCRYPT_WORK_FACTOR`).
- Result order. `all` returns a set, because its query has no `ORDER BY`. The
  message listing queries have no `ORDER BY` either, and an `UPDATE` such as
  `markRead` may move a row within the table, so the database promises no
  order for them. The model lists them in table order. "In order" in the rows
  for `Involving`, `SelectJoinsInvolving`, `MessagesFromExact` and
  `MessagesToExact` holds for that model order only.
- `UserModel.Register`: the 400 for an INSERT that returned no row cannot
  happen here, because a successful `INSERT … RETURNING` returns its row. The
  check itself is `FirstReturned`. A duplicate username is the database's own
  error (`StoreFailure`), with no status invented for it.
- Request bodies. A body field is either absent or a string. JSON numbers,
  booleans and `null` are not modelled. `POST /` takes `to_username` and `body`
  as strings; a request without them is not modelled.
- `routes/users.js`: its handlers pass the results of `All`, `Get`,
  `MessagesTo` and `MessagesFrom` straight through. They have no `try`/`catch`
  and never call `next`, so the 400 of `Get` and the 404s of the listings
  leave them as a rejected promise, which Express 4 does not forward to the
  error handler.
- Express plumbing (`req`/`res`, JSON wrapping, `next(e)`), the debug
  `console.log` in `GET /:id`, async/await, and concurrent requests.
