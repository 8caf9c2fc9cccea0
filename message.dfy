/** The `Message` model that the message routes call: `get`, `create` and
    `markRead`. Its source is not part of this model; these are in-memory
    stand-ins that give the routes a store to act on. They make choices of
    their own, which the route contracts inherit: ids run 1, 2, 3, … with no
    gaps, and a rejected `create` uses up no id; `get` fails when no row has
    the id or an end of the row is not a user, which in a valid store is
    exactly an id outside 1..|messages|; `markRead` fails exactly for an id
    outside 1..|messages|; `create` fails exactly when an
    end is not a user; a second `markRead` overwrites `read_at`. Every
    failure is `StoreFailure`. */
module MessageModel {
  import opened Store
  import opened UserModel

  /** A message with both participants' profiles, as `get` returns it. */
  datatype MessageDetail = MessageDetail(
    id: nat,
    body: string,
    sent_at: Timestamp,
    read_at: Option<Timestamp>,
    from_user: UserSummary,
    to_user: UserSummary)

  /** The new row, as `create` returns it. */
  datatype CreatedMessage = CreatedMessage(
    id: nat,
    from_username: string,
    to_username: string,
    body: string,
    sent_at: Timestamp)

  /** The updated row, as `markRead` returns it. */
  datatype ReadReceipt = ReadReceipt(id: nat, read_at: Option<Timestamp>)

  function Detail(users: UserTable, m: MessageRow): MessageDetail
    requires m.from_username in users && m.to_username in users
  {
    MessageDetail(m.id, m.body, m.sent_at, m.read_at, Summary(users, m.from_username), Summary(users, m.to_username))
  }

  /** The first row with the given id, if any. */
  function Find(messages: seq<MessageRow>, id: nat): (r: Option<MessageRow>)
    ensures r.Some? ==> r.value in messages && r.value.id == id
    ensures r.None? <==> forall m :: m in messages ==> m.id != id
    decreases |messages|
  {
    if messages == [] then None
    else if messages[0].id == id then Some(messages[0])
    else Find(messages[1..], id)
  }

  /** `get(id)`: the message with its sender's and recipient's profiles. */
  function Get(users: UserTable, messages: seq<MessageRow>, id: nat): (r: Result<MessageDetail>)
    ensures r.Ok? ==> r.value.id == id
    ensures r.Ok? ==>
      exists m :: m in messages && m.id == id && m.from_username in users && m.to_username in users && r.value == Detail(users, m)
  {
    match Find(messages, id)
    case None => Err(StoreFailure)
    case Some(m) =>
      if m.from_username in users && m.to_username in users then Ok(Detail(users, m)) else Err(StoreFailure)
  }

  /** In a valid store, `get` succeeds exactly for the ids that exist and
      returns the row at position `id - 1`. */
  lemma GetValid(users: UserTable, messages: seq<MessageRow>, id: nat)
    requires SerialIds(messages) && ParticipantsExist(users, messages)
    ensures Get(users, messages, id).Ok? <==> 1 <= id <= |messages|
    ensures 1 <= id <= |messages| ==> Get(users, messages, id) == Ok(Detail(users, messages[id - 1]))
  {
    if 1 <= id <= |messages| {
      assert messages[id - 1] in messages;
    }
  }

  /** `create`: append an unread message with the next id, sent now. The
      foreign keys reject a sender or recipient who is not a user. */
  method Create(db: Database, from_username: string, to_username: string, body: string, now: Timestamp)
    returns (r: Result<CreatedMessage>)
    requires db.Valid()
    modifies db
    ensures db.Valid() && db.users == old(db.users)
    ensures r.Ok? <==> from_username in db.users && to_username in db.users
    ensures r.Ok? ==>
      var id := |old(db.messages)| + 1;
      && db.messages == old(db.messages) + [MessageRow(id, from_username, to_username, body, now, None)]
      && r.value == CreatedMessage(id, from_username, to_username, body, now)
    ensures r.Err? ==> r.error == StoreFailure && db.messages == old(db.messages)
  {
    if from_username !in db.users || to_username !in db.users {
      return Err(StoreFailure);
    }
    var id := |db.messages| + 1;
    db.messages := db.messages + [MessageRow(id, from_username, to_username, body, now, None)];
    r := Ok(CreatedMessage(id, from_username, to_username, body, now));
  }

  /** `markRead(id)`: set `read_at` of the message to `now` and return it. */
  method MarkRead(db: Database, id: nat, now: Timestamp) returns (r: Result<ReadReceipt>)
    requires db.Valid()
    modifies db
    ensures db.Valid() && db.users == old(db.users)
    ensures r.Ok? <==> 1 <= id <= |old(db.messages)|
    ensures r.Ok? ==>
      && db.messages == old(db.messages)[id - 1 := old(db.messages)[id - 1].(read_at := Some(now))]
      && r.value == ReadReceipt(id, Some(now))
    ensures r.Err? ==> r.error == StoreFailure && db.messages == old(db.messages)
  {
    if !(1 <= id <= |db.messages|) {
      return Err(StoreFailure);
    }
    var m := db.messages[id - 1];
    assert m in db.messages;
    db.messages := db.messages[id - 1 := m.(read_at := Some(now))];
    r := Ok(ReadReceipt(id, Some(now)));
  }
}
