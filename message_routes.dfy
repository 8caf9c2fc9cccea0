/** The `/messages` routes. The caller's identity is the username that the
    login check put on the request; the two access rules are kept apart:
    either participant may read a message, only its recipient may mark it read. */
module MessageRoutes {
  import opened Store
  import opened MessageModel

  /** `GET /:id` lets the requester through when they sent or received the message. */
  predicate MayRead(identity: string, msg: MessageDetail)
  {
    msg.to_user.username == identity || msg.from_user.username == identity
  }

  /** `POST /:id/read` lets the requester through only when they received the message. */
  predicate MayMarkRead(identity: string, msg: MessageDetail)
  {
    msg.to_user.username == identity
  }

  /** Marking read is the narrower right: it implies reading, and a sender
      who is not also the recipient may read but not mark read. */
  lemma MarkReadNarrowerThanRead(identity: string, msg: MessageDetail)
    ensures MayMarkRead(identity, msg) ==> MayRead(identity, msg)
    ensures msg.from_user.username == identity && msg.to_user.username != identity ==>
      MayRead(identity, msg) && !MayMarkRead(identity, msg)
  {
  }

  /** In a valid store, the read test on a fetched message is a test on the
      stored row: the requester is its sender or its recipient. */
  lemma MayReadStoredRow(users: UserTable, messages: seq<MessageRow>, identity: string, id: nat)
    requires SerialIds(messages) && ParticipantsExist(users, messages)
    requires 1 <= id <= |messages|
    ensures Get(users, messages, id).Ok?
    ensures MayRead(identity, Get(users, messages, id).value) <==>
      identity == messages[id - 1].from_username || identity == messages[id - 1].to_username
  {
    GetValid(users, messages, id);
  }

  /** `GET /:id`: fetch the message and return it to a participant, or deny
      with 401. It changes nothing. */
  method GetMessage(db: Database, identity: string, id: nat) returns (r: Result<MessageDetail>)
    ensures Get(db.users, db.messages, id).Err? ==> r == Get(db.users, db.messages, id)
    ensures r.Ok? ==> r == Get(db.users, db.messages, id) && MayRead(identity, r.value)
    ensures Get(db.users, db.messages, id).Ok? && MayRead(identity, Get(db.users, db.messages, id).value) ==>
      r == Get(db.users, db.messages, id)
    ensures Get(db.users, db.messages, id).Ok? && !MayRead(identity, Get(db.users, db.messages, id).value) ==>
      r == Err(HttpError("Access denied", 401))
    ensures db.Valid() ==>
      (r.Ok? <==> 1 <= id <= |db.messages| &&
                  identity in {db.messages[id - 1].from_username, db.messages[id - 1].to_username})
  {
    var msg := Get(db.users, db.messages, id);
    if msg.Err? {
      return msg;
    }
    if msg.value.to_user.username != identity && msg.value.from_user.username != identity {
      return Err(HttpError("Access denied", 401));
    }
    r := msg;
    if db.Valid() {
      GetValid(db.users, db.messages, id);
    }
  }

  /** The JSON body of `POST /`. A `from_username` the client sends along is
      carried here only to show that the handler ignores it. */
  datatype MessageRequest = MessageRequest(to_username: string, body: string, from_username: Option<string>)

  /** `POST /`: create the message from the requester to the named recipient. */
  method PostMessage(db: Database, identity: string, req: MessageRequest, now: Timestamp)
    returns (r: Result<CreatedMessage>)
    requires db.Valid()
    modifies db
    ensures db.Valid() && db.users == old(db.users)
    ensures r.Ok? <==> identity in db.users && req.to_username in db.users
    ensures r.Ok? ==>
      && r.value.id == |old(db.messages)| + 1
      && r.value.from_username == identity
      && r.value.to_username == req.to_username
      && r.value.body == req.body
      && r.value.sent_at == now
      && db.messages == old(db.messages) + [MessageRow(r.value.id, identity, req.to_username, req.body, now, None)]
    ensures r.Err? ==> r == Err(StoreFailure) && db.messages == old(db.messages)
  {
    var from_username := identity;
    r := Create(db, from_username, req.to_username, req.body, now);
  }

  /** `POST /:id/read`: fetch the message, deny with 401 unless the requester
      is its recipient, and only then mark it read and return the receipt. */
  method PostMarkRead(db: Database, identity: string, id: nat, now: Timestamp) returns (r: Result<ReadReceipt>)
    requires db.Valid()
    modifies db
    ensures db.Valid() && db.users == old(db.users)
    ensures r.Ok? <==>
      Get(old(db.users), old(db.messages), id).Ok? && MayMarkRead(identity, Get(old(db.users), old(db.messages), id).value)
    ensures Get(old(db.users), old(db.messages), id).Err? ==>
      r == Err(Get(old(db.users), old(db.messages), id).error)
    ensures Get(old(db.users), old(db.messages), id).Ok? && !MayMarkRead(identity, Get(old(db.users), old(db.messages), id).value) ==>
      r == Err(HttpError("Access denied", 401))
    ensures r.Ok? ==>
      && r.value == ReadReceipt(id, Some(now))
      && 1 <= id <= |old(db.messages)|
      && old(db.messages)[id - 1].to_username == identity
      && db.messages == old(db.messages)[id - 1 := old(db.messages)[id - 1].(read_at := Some(now))]
    ensures r.Err? ==> db.messages == old(db.messages)
  {
    var msg := Get(db.users, db.messages, id);
    if msg.Err? {
      return Err(msg.error);
    }
    if msg.value.to_user.username != identity {
      return Err(HttpError("Access denied", 401));
    }
    GetValid(db.users, db.messages, id);
    r := MarkRead(db, id, now);
  }
}
