/** The shared vocabulary of the chat-room server: the records of its two
    collections (`users` and `messages`), the fixed strings and status codes the
    handlers use, the invariant every reachable state keeps, and the one lookup
    all handlers share (`findOne` on the users collection). */
module ChatState {

  datatype Option<+T> = None | Some(value: T)

  /** A document of the `users` collection. `lastStatus` is the millisecond
      clock reading taken at registration or at the latest heartbeat. */
  datatype User = User(name: string, lastStatus: int)

  /** A document of the `messages` collection. `kind` is the stored `type`
      field; `time` is the formatted wall-clock stamp, which no rule reads. */
  datatype Message = Message(from: string, to: string, text: string, kind: string, time: string)

  /** The two collections, in insertion order. */
  datatype State = State(users: seq<User>, messages: seq<Message>)

  /** One reading of the server clock: milliseconds since the epoch, used for
      liveness, and its HH:mm:ss rendering, stored on messages. */
  datatype Clock = Clock(now: int, stamp: string)

  /** The HTTP status codes the handlers answer with. */
  datatype Code = OK | Created | BadRequest | NotFound | Conflict | Unprocessable {
    function Number(): int {
      match this
      case OK => 200
      case Created => 201
      case BadRequest => 400
      case NotFound => 404
      case Conflict => 409
      case Unprocessable => 422
    }
  }

  /** What a writing handler answers, together with the collections after it. */
  datatype Reply = Reply(code: Code, state: State)

  /** The broadcast recipient of status messages. */
  const Everyone: string := "Todos"
  const JoinText: string := "entra na sala..."
  const LeaveText: string := "sai da sala..."

  const StatusKind: string := "status"
  const PublicKind: string := "message"
  const PrivateKind: string := "private_message"

  const Empty: State := State([], [])

  predicate AlnumChar(c: char) {
    ('a' <= c <= 'z') || ('A' <= c <= 'Z') || ('0' <= c <= '9')
  }

  /** Joi's `string().alphanum()` on a present string, which also refuses the
      empty string: one or more ASCII letters and digits. */
  predicate Alphanumeric(s: string) {
    |s| > 0 && forall i :: 0 <= i < |s| ==> AlnumChar(s[i])
  }

  /** The names of a sequence of users, position by position. */
  function Names(users: seq<User>): seq<string> {
    seq(|users|, i requires 0 <= i < |users| => users[i].name)
  }

  predicate DistinctNames(users: seq<User>) {
    forall i, j :: 0 <= i < j < |users| ==> users[i].name != users[j].name
  }

  predicate KnownKind(kind: string) {
    kind == StatusKind || kind == PublicKind || kind == PrivateKind
  }

  /** What every state reachable from the empty collections satisfies: names
      are unique and alphanumeric, and every message has one of the three types. */
  predicate Valid(s: State) {
    && DistinctNames(s.users)
    && (forall i :: 0 <= i < |s.users| ==> Alphanumeric(s.users[i].name))
    && (forall i :: 0 <= i < |s.messages| ==> KnownKind(s.messages[i].kind))
  }

  /** `findOne({ name })` on the users collection: the position of the first
      document with that name, or nothing when no document has it. */
  function FindUser(users: seq<User>, name: string): (r: Option<nat>)
    ensures r.Some? ==> r.value < |users| && users[r.value].name == name
    ensures r.Some? ==> forall j :: 0 <= j < r.value ==> users[j].name != name
    ensures r.None? <==> name !in Names(users)
  {
    if |users| == 0 then None
    else if users[0].name == name then
      assert Names(users)[0] == name;
      Some(0)
    else
      assert Names(users) == [users[0].name] + Names(users[1..]);
      match FindUser(users[1..], name)
      case None => None
      case Some(i) => Some(i + 1)
  }
}
