/** The `User` model of message.ly: registration, authentication, the login
    timestamp, and the read-only user and message listings.

    Every static method of the source runs one query against the database.
    The two that write (`register`, `updateLoginTimestamp`) are methods on a
    `Database`; the ones that only read are functions of the tables. */
module UserModel {
  import opened Store

  /** The payload `jwt.sign` is given: exactly `{username}`. */
  datatype Claims = Claims(username: string)

  /** bcrypt and jsonwebtoken, with the configured work factor and secret key
      fixed: `hash(password)`, `compare(password, storedHash)` and
      `sign(claims, issuedAt)`, where `issuedAt` is the clock reading that
      `jwt.sign` adds to the payload as its `iat` claim. Nothing is assumed of
      them beyond `Sound` and, where stated, `HidesPlaintext`. */
  datatype Crypto = Crypto(
    hash: string -> string,
    compare: (string, string) -> bool,
    sign: (Claims, Timestamp) -> string)

  /** A password matches its own hash. */
  ghost predicate Sound(c: Crypto)
  {
    forall p :: c.compare(p, c.hash(p))
  }

  /** No password is its own hash. */
  ghost predicate HidesPlaintext(c: Crypto)
  {
    forall p :: c.hash(p) != p
  }

  /** The columns `register` returns: the hashed password included. */
  datatype RegisteredUser = RegisteredUser(
    username: string,
    password: string,
    first_name: string,
    last_name: string,
    phone: string)

  /** What `authenticate` returns for an existing user: a signed token, or `false`. */
  datatype AuthOutcome = Token(token: string) | Rejected

  /** The public profile of a user: what `all` lists and what a message joins in. */
  datatype UserSummary = UserSummary(
    username: string,
    first_name: string,
    last_name: string,
    phone: string)

  /** What `get` returns: the profile and both timestamps, never the password. */
  datatype UserDetail = UserDetail(
    username: string,
    first_name: string,
    last_name: string,
    phone: string,
    join_at: Timestamp,
    last_login_at: Timestamp)

  function Summary(users: UserTable, username: string): UserSummary
    requires username in users
  {
    var rec := users[username];
    UserSummary(username, rec.first_name, rec.last_name, rec.phone)
  }

  // ---------------------------------------------------------------------------
  // register

  /** The check on the rows the INSERT returned: the first one, or an error
      with status 400 when there is none. */
  function FirstReturned(rows: seq<RegisteredUser>): (r: Result<RegisteredUser>)
    ensures r.Err? <==> rows == []
    ensures r.Err? ==> r.error == HttpError("Internal server error", 400)
    ensures r.Ok? ==> r.value == rows[0]
  {
    if |rows| == 0 then Err(HttpError("Internal server error", 400)) else Ok(rows[0])
  }

  /** Hash the password and insert the user, with `join_at` and
      `last_login_at` both set from one reading of the clock. A username that
      is already taken makes the database reject the insert. */
  method Register(db: Database, username: string, password: string, first_name: string,
                  last_name: string, phone: string, c: Crypto, now: Timestamp)
    returns (r: Result<RegisteredUser>)
    requires db.Valid()
    modifies db
    ensures db.Valid() && db.messages == old(db.messages)
    ensures username in old(db.users) ==> r == Err(StoreFailure) && db.users == old(db.users)
    ensures username !in old(db.users) ==>
      && db.users == old(db.users)[username := UserRecord(c.hash(password), first_name, last_name, phone, now, now)]
      && r == Ok(RegisteredUser(username, c.hash(password), first_name, last_name, phone))
    ensures HidesPlaintext(c) && r.Ok? ==>
      db.users[username].password != password && r.value.password != password
  {
    var hashed := c.hash(password);
    if username in db.users {
      return Err(StoreFailure);
    }
    db.users := db.users[username := UserRecord(hashed, first_name, last_name, phone, now, now)];
    var returning := [RegisteredUser(username, hashed, first_name, last_name, phone)];
    r := FirstReturned(returning);
  }

  // ---------------------------------------------------------------------------
  // authenticate

  /** Look the user up and compare the password with the stored hash. An
      unknown username is an error; a wrong password is the value `false`; a
      right one is a token issued at `now`. */
  function Authenticate(users: UserTable, username: string, password: string, c: Crypto, now: Timestamp)
    : (r: Result<AuthOutcome>)
    ensures r.Err? <==> username !in users
    ensures r.Err? ==> r.error == HttpError("Cannot find user " + username, 400)
    ensures username in users ==>
      (r == Ok(Token(c.sign(Claims(username), now))) <==> c.compare(password, users[username].password))
    ensures username in users ==>
      (r == Ok(Rejected) <==> !c.compare(password, users[username].password))
  {
    if username !in users then
      Err(HttpError("Cannot find user " + username, 400))
    else if c.compare(password, users[username].password) then
      Ok(Token(c.sign(Claims(username), now)))
    else
      Ok(Rejected)
  }

  /** A user inserted by `register` authenticates with the password given at
      registration, whatever the table held before. */
  lemma RegisteredUserAuthenticates(users: UserTable, username: string, password: string,
                                    first_name: string, last_name: string, phone: string,
                                    c: Crypto, now: Timestamp, issuedAt: Timestamp)
    requires Sound(c)
    ensures var stored := UserRecord(c.hash(password), first_name, last_name, phone, now, now);
      Authenticate(users[username := stored], username, password, c, issuedAt) == Ok(Token(c.sign(Claims(username), issuedAt)))
  {
  }

  // ---------------------------------------------------------------------------
  // updateLoginTimestamp

  /** The users table after `last_login_at` of `username` is set to `now`:
      no other user and no other field changes, and an unknown username
      changes nothing. */
  function StampLogin(users: UserTable, username: string, now: Timestamp): (r: UserTable)
    ensures r.Keys == users.Keys
    ensures forall u :: u in users && u != username ==> r[u] == users[u]
    ensures username in users ==>
      && r[username].last_login_at == now
      && r[username].(last_login_at := users[username].last_login_at) == users[username]
  {
    if username in users then users[username := users[username].(last_login_at := now)] else users
  }

  method UpdateLoginTimestamp(db: Database, username: string, now: Timestamp)
    requires db.Valid()
    modifies db
    ensures db.Valid() && db.messages == old(db.messages)
    ensures db.users == StampLogin(old(db.users), username, now)
  {
    if username in db.users {
      db.users := db.users[username := db.users[username].(last_login_at := now)];
    }
  }

  // ---------------------------------------------------------------------------
  // all, get

  /** Every user, with username, names and phone only. The query has no
      ORDER BY, so the result is a set. */
  function All(users: UserTable): (r: set<UserSummary>)
    ensures forall s :: s in r <==> s.username in users && s == Summary(users, s.username)
  {
    set u | u in users :: Summary(users, u)
  }

  /** `all` lists each user exactly once. */
  lemma {:induction false} AllListsEachUserOnce(users: UserTable)
    ensures |All(users)| == |users|
  {
    if users != map[] {
      var u :| u in users;
      var rest := users - {u};
      AllListsEachUserOnce(rest);
      assert All(users) == All(rest) + {Summary(users, u)} by {
        forall s | s in All(users) && s.username != u
          ensures s in All(rest)
        {
          assert Summary(rest, s.username) == Summary(users, s.username);
        }
      }
      assert Summary(users, u) !in All(rest);
      assert users.Keys == rest.Keys + {u};
    }
  }

  /** One user's profile and timestamps, or a 400 when there is no such user. */
  function Get(users: UserTable, username: string): (r: Result<UserDetail>)
    ensures r.Err? <==> username !in users
    ensures r.Err? ==> r.error == HttpError("Cannot find user " + username, 400)
    ensures r.Ok? ==>
      var rec := users[username];
      && r.value.username == username
      && r.value.first_name == rec.first_name
      && r.value.last_name == rec.last_name
      && r.value.phone == rec.phone
      && r.value.join_at == rec.join_at
      && r.value.last_login_at == rec.last_login_at
  {
    var rows := if username in users then
      var rec := users[username];
      [UserDetail(username, rec.first_name, rec.last_name, rec.phone, rec.join_at, rec.last_login_at)]
    else [];
    if |rows| == 0 then Err(HttpError("Cannot find user " + username, 400)) else Ok(rows[0])
  }

  // ---------------------------------------------------------------------------
  // messagesFrom, messagesTo

  /** The column a listing filters on: `from_username` or `to_username`. */
  datatype Side = Sender | Recipient

  /** The user at the filtered end of m. */
  function Party(m: MessageRow, side: Side): string
  {
    if side == Sender then m.from_username else m.to_username
  }

  /** The user at the other end of m, whose profile the listing joins in. */
  function Counterpart(m: MessageRow, side: Side): string
  {
    if side == Sender then m.to_username else m.from_username
  }

  /** A row of the join: the message's columns with the counterpart's profile. */
  datatype JoinedRow = JoinedRow(
    id: nat,
    username: string,
    first_name: string,
    last_name: string,
    phone: string,
    body: string,
    sent_at: Timestamp,
    read_at: Option<Timestamp>)

  function Join(users: UserTable, m: MessageRow, side: Side): JoinedRow
    requires Counterpart(m, side) in users
  {
    var other := Counterpart(m, side);
    var rec := users[other];
    JoinedRow(m.id, other, rec.first_name, rec.last_name, rec.phone, m.body, m.sent_at, m.read_at)
  }

  /** The listing query: the messages whose `side` column is `username`,
      inner-joined with the users row of their other end, in table order. A
      message whose other end has no users row drops out of the join. */
  function Select(users: UserTable, messages: seq<MessageRow>, side: Side, username: string): (rows: seq<JoinedRow>)
    ensures |rows| <= |messages|
    ensures forall row :: row in rows ==>
      exists m :: m in messages && Party(m, side) == username && Counterpart(m, side) in users && row == Join(users, m, side)
    decreases |messages|
  {
    if messages == [] then []
    else
      var m := messages[0];
      var rest := Select(users, messages[1..], side, username);
      if Party(m, side) == username && Counterpart(m, side) in users then [Join(users, m, side)] + rest else rest
  }

  /** The join is empty exactly when no message of the user has a counterpart with a users row. */
  lemma {:induction false} SelectEmpty(users: UserTable, messages: seq<MessageRow>, side: Side, username: string)
    ensures Select(users, messages, side, username) == [] <==>
      forall m :: m in messages && Party(m, side) == username ==> Counterpart(m, side) !in users
    decreases |messages|
  {
    if messages != [] {
      SelectEmpty(users, messages[1..], side, username);
      assert forall m :: m in messages <==> m == messages[0] || m in messages[1..];
    }
  }

  /** Reference definition: the messages whose `side` column is `username`, in table order. */
  function Involving(messages: seq<MessageRow>, side: Side, username: string): (r: seq<MessageRow>)
    ensures |r| <= |messages|
    ensures forall m :: m in r <==> m in messages && Party(m, side) == username
    decreases |messages|
  {
    if messages == [] then []
    else
      var rest := Involving(messages[1..], side, username);
      if Party(messages[0], side) == username then [messages[0]] + rest else rest
  }

  /** When every counterpart is a registered user, the join keeps every
      involved message, in order, and adds the counterpart's profile. */
  lemma {:induction false} SelectJoinsInvolving(users: UserTable, messages: seq<MessageRow>, side: Side, username: string)
    requires forall m :: m in messages ==> Counterpart(m, side) in users
    ensures var involving := Involving(messages, side, username);
      && |Select(users, messages, side, username)| == |involving|
      && forall i :: 0 <= i < |involving| ==> Select(users, messages, side, username)[i] == Join(users, involving[i], side)
    decreases |messages|
  {
    if messages != [] {
      SelectJoinsInvolving(users, messages[1..], side, username);
      var m := messages[0];
      var rows, rows' := Select(users, messages, side, username), Select(users, messages[1..], side, username);
      var involving, involving' := Involving(messages, side, username), Involving(messages[1..], side, username);
      if Party(m, side) == username {
        assert rows == [Join(users, m, side)] + rows';
        assert involving == [m] + involving';
        forall i | 0 <= i < |involving|
          ensures rows[i] == Join(users, involving[i], side)
        {
          if i > 0 {
            assert rows[i] == rows'[i - 1];
            assert involving[i] == involving'[i - 1];
          }
        }
      }
    }
  }

  /** A message sent by the user, as `messagesFrom` shapes it. */
  datatype SentMessage = SentMessage(
    id: nat,
    to_user: UserSummary,
    body: string,
    sent_at: Timestamp,
    read_at: Option<Timestamp>)

  /** A message received by the user, as `messagesTo` shapes it. */
  datatype ReceivedMessage = ReceivedMessage(
    id: nat,
    from_user: UserSummary,
    body: string,
    sent_at: Timestamp,
    read_at: Option<Timestamp>)

  function AsSent(row: JoinedRow): SentMessage
  {
    SentMessage(row.id, UserSummary(row.username, row.first_name, row.last_name, row.phone),
                row.body, row.sent_at, row.read_at)
  }

  function AsReceived(row: JoinedRow): ReceivedMessage
  {
    ReceivedMessage(row.id, UserSummary(row.username, row.first_name, row.last_name, row.phone),
                    row.body, row.sent_at, row.read_at)
  }

  /** Reference shape of a sent message: its own columns and the recipient's profile. */
  function SentView(users: UserTable, m: MessageRow): SentMessage
    requires m.to_username in users
  {
    SentMessage(m.id, Summary(users, m.to_username), m.body, m.sent_at, m.read_at)
  }

  /** Reference shape of a received message: its own columns and the sender's profile. */
  function ReceivedView(users: UserTable, m: MessageRow): ReceivedMessage
    requires m.from_username in users
  {
    ReceivedMessage(m.id, Summary(users, m.from_username), m.body, m.sent_at, m.read_at)
  }

  /** The messages the user sent, each with the recipient's profile; an empty
      listing is an error with status 404. */
  function MessagesFrom(users: UserTable, messages: seq<MessageRow>, username: string): (r: Result<seq<SentMessage>>)
    ensures r.Err? <==>
      forall m :: m in messages && m.from_username == username ==> m.to_username !in users
    ensures r.Err? ==> r.error == HttpError("Cannot find messages from " + username, 404)
    ensures r.Ok? ==> r.value != [] && forall s :: s in r.value ==>
      exists m :: m in messages && m.from_username == username && m.to_username in users && s == SentView(users, m)
  {
    var rows := Select(users, messages, Sender, username);
    SelectEmpty(users, messages, Sender, username);
    if |rows| == 0 then
      Err(HttpError("Cannot find messages from " + username, 404))
    else
      var shaped := seq(|rows|, i requires 0 <= i < |rows| => AsSent(rows[i]));
      assert forall s :: s in shaped ==> exists row :: row in rows && s == AsSent(row);
      Ok(shaped)
  }

  /** The messages sent to the user, each with the sender's profile; an empty
      listing is an error with status 404 (whose text says "from"). */
  function MessagesTo(users: UserTable, messages: seq<MessageRow>, username: string): (r: Result<seq<ReceivedMessage>>)
    ensures r.Err? <==>
      forall m :: m in messages && m.to_username == username ==> m.from_username !in users
    ensures r.Err? ==> r.error == HttpError("Cannot find messages from " + username, 404)
    ensures r.Ok? ==> r.value != [] && forall s :: s in r.value ==>
      exists m :: m in messages && m.to_username == username && m.from_username in users && s == ReceivedView(users, m)
  {
    var rows := Select(users, messages, Recipient, username);
    SelectEmpty(users, messages, Recipient, username);
    if |rows| == 0 then
      Err(HttpError("Cannot find messages from " + username, 404))
    else
      var shaped := seq(|rows|, i requires 0 <= i < |rows| => AsReceived(rows[i]));
      assert forall s :: s in shaped ==> exists row :: row in rows && s == AsReceived(row);
      Ok(shaped)
  }

  /** With the foreign keys in place, `messagesFrom` lists exactly the
      messages the user sent, in table order, each with the recipient's
      current profile; it fails (with the 404 of `MessagesFrom`) exactly when
      there are none. */
  lemma {:induction false} MessagesFromExact(users: UserTable, messages: seq<MessageRow>, username: string)
    requires ParticipantsExist(users, messages)
    ensures var sent, r := Involving(messages, Sender, username), MessagesFrom(users, messages, username);
      && (r.Err? <==> sent == [])
      && (r.Ok? ==> |r.value| == |sent|)
      && (r.Ok? ==> forall i :: 0 <= i < |sent| ==> sent[i].to_username in users && r.value[i] == SentView(users, sent[i]))
  {
    var sent := Involving(messages, Sender, username);
    var rows := Select(users, messages, Sender, username);
    SelectJoinsInvolving(users, messages, Sender, username);
    forall i | 0 <= i < |sent|
      ensures sent[i].to_username in users && AsSent(rows[i]) == SentView(users, sent[i])
    {
      assert sent[i] in sent;
      assert rows[i] == Join(users, sent[i], Sender);
    }
  }

  /** The mirror of `MessagesFromExact` for the messages the user received. */
  lemma {:induction false} MessagesToExact(users: UserTable, messages: seq<MessageRow>, username: string)
    requires ParticipantsExist(users, messages)
    ensures var received, r := Involving(messages, Recipient, username), MessagesTo(users, messages, username);
      && (r.Err? <==> received == [])
      && (r.Ok? ==> |r.value| == |received|)
      && (r.Ok? ==> forall i :: 0 <= i < |received| ==> received[i].from_username in users && r.value[i] == ReceivedView(users, received[i]))
  {
    var received := Involving(messages, Recipient, username);
    var rows := Select(users, messages, Recipient, username);
    SelectJoinsInvolving(users, messages, Recipient, username);
    forall i | 0 <= i < |received|
      ensures received[i].from_username in users && AsReceived(rows[i]) == ReceivedView(users, received[i])
    {
      assert received[i] in received;
      assert rows[i] == Join(users, received[i], Recipient);
    }
  }
}
