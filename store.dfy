/** The message.ly database: the `users` and `messages` tables, held in memory.

    The handlers talk to a relational database through `db.query`; here the two
    tables are the fields of one `Database` object that the operations update in
    place. Exceptions raised by the database itself (a violated key) carry no
    status that this code chooses, and are all `StoreFailure`. */
module Store {

  datatype Option<+T> = None | Some(value: T)

  /** What an operation throws: an `ExpressError` with its message and HTTP
      status, or a failure raised by the database or by code outside this model. */
  datatype Error =
    | HttpError(message: string, status: int)
    | StoreFailure

  datatype Result<+T> = Ok(value: T) | Err(error: Error)

  /** A value of the database clock, `current_timestamp`. */
  type Timestamp = int

  /** A row of `users` without its key: the table is keyed by username. */
  datatype UserRecord = UserRecord(
    password: string,
    first_name: string,
    last_name: string,
    phone: string,
    join_at: Timestamp,
    last_login_at: Timestamp)

  type UserTable = map<string, UserRecord>

  /** A row of `messages`; `read_at` is NULL until the message is marked read. */
  datatype MessageRow = MessageRow(
    id: nat,
    from_username: string,
    to_username: string,
    body: string,
    sent_at: Timestamp,
    read_at: Option<Timestamp>)

  /** Message ids come from a serial column: the i-th row inserted has id i + 1. */
  ghost predicate SerialIds(messages: seq<MessageRow>)
  {
    forall i :: 0 <= i < |messages| ==> messages[i].id == i + 1
  }

  /** Both ends of every message are registered users (the foreign keys). */
  ghost predicate ParticipantsExist(users: UserTable, messages: seq<MessageRow>)
  {
    forall m :: m in messages ==> m.from_username in users && m.to_username in users
  }

  class Database {
    var users: UserTable
    var messages: seq<MessageRow>

    ghost predicate Valid()
      reads this
    {
      SerialIds(messages) && ParticipantsExist(users, messages)
    }

    constructor ()
      ensures Valid()
      ensures users == map[] && messages == []
    {
      users := map[];
      messages := [];
    }
  }
}
