/**
 * UserListener: the consumer bound to the inbound profile channel. A message
 * without a record key is dropped; otherwise its body is parsed as a flat map,
 * a user is built from the `id`, `name` and `email` values, and the user is
 * applied to the registry. A parse failure is caught and the message dropped.
 */
module Listener {
  import opened Wrappers
  import opened Users
  import Registry
  import Service

  /** Spring Kafka's KafkaHeaders.RECEIVED_KEY: the inbound record key, when there is one. */
  const ReceivedKeyHeader: string := "kafka_receivedMessageKey"

  /**
   * What Jackson's readValue(message, Map) yields: an exception, or a map from
   * field name to the value's text (`None` for a JSON null).
   */
  datatype ParseResult = ParseFailed(error: string) | Parsed(fields: map<string, Option<string>>)

  /** `s` is what Kotlin's `toString` gives for field `name`: its text, or "null" when missing or null. */
  predicate RendersField(fields: map<string, Option<string>>, name: string, s: string) {
    && (name in fields && fields[name].Some? ==> s == fields[name].value)
    && (name !in fields || fields[name].None? ==> s == "null")
  }

  /** `userMap[name].toString()`: never fails, whatever the body holds. */
  function FieldText(fields: map<string, Option<string>>, name: string): (s: string)
    ensures RendersField(fields, name, s)
  {
    if name in fields && fields[name].Some? then fields[name].value else "null"
  }

  /** The user built from a parsed body (UserListener.receive): each field rendered on its own. */
  function UserFromFields(fields: map<string, Option<string>>): (u: User)
    ensures RendersField(fields, "id", u.id)
    ensures RendersField(fields, "name", u.name)
    ensures RendersField(fields, "email", u.email)
  {
    User(FieldText(fields, "id"), FieldText(fields, "name"), FieldText(fields, "email"))
  }

  /** The parsed body a faithful parse of a user's own payload yields. */
  function FieldsOf(u: User): map<string, Option<string>> {
    map["id" := Some(u.id), "name" := Some(u.name), "email" := Some(u.email)]
  }

  /**
   * The user one inbound message makes the handler apply, if any: there is one
   * exactly when the key header is present and the body parsed, and it is
   * built from the body alone.
   */
  function Decide(headers: map<string, string>, parsed: ParseResult): (d: Option<User>)
    ensures d.Some? <==> ReceivedKeyHeader in headers && parsed.Parsed?
    ensures d.Some? ==> d.value == User(FieldText(parsed.fields, "id"), FieldText(parsed.fields, "name"), FieldText(parsed.fields, "email"))
  {
    if ReceivedKeyHeader !in headers then None
    else
      match parsed
      case ParseFailed(_) => None
      case Parsed(fields) => Some(UserFromFields(fields))
  }

  /** The registry after the handler has run on one inbound message. */
  function Consume(users: Registry.Store, headers: map<string, string>, parsed: ParseResult): (r: Registry.Store)
    ensures users.Keys <= r.Keys
    ensures r.Keys - users.Keys <= if parsed.Parsed? then {FieldText(parsed.fields, "id")} else {}
    ensures forall k :: k in users && !(parsed.Parsed? && k == FieldText(parsed.fields, "id")) ==> r[k] == users[k]
  {
    match Decide(headers, parsed)
    case None => users
    case Some(u) => Registry.Put(users, u)
  }

  /** A message without a record key leaves the registry as it was, whatever its body. */
  lemma ConsumeWithoutKey(users: Registry.Store, headers: map<string, string>, parsed: ParseResult)
    requires ReceivedKeyHeader !in headers
    ensures Consume(users, headers, parsed) == users
  {
  }

  /** A body Jackson rejects leaves the registry as it was. */
  lemma ConsumeParseFailure(users: Registry.Store, headers: map<string, string>, error: string)
    ensures Consume(users, headers, ParseFailed(error)) == users
  {
  }

  /** The key only gates: any two keyed messages with the same body have the same effect. */
  lemma KeyOnlyGates(users: Registry.Store, h1: map<string, string>, h2: map<string, string>, parsed: ParseResult)
    requires ReceivedKeyHeader in h1 && ReceivedKeyHeader in h2
    ensures Consume(users, h1, parsed) == Consume(users, h2, parsed)
  {
  }

  /**
   * A keyed message with a parsed body files the built user under the body's
   * `id` text, and every other entry stays as it was.
   */
  lemma ConsumeStoresUnderBodyId(users: Registry.Store, headers: map<string, string>, fields: map<string, Option<string>>)
    requires ReceivedKeyHeader in headers
    ensures var r, id := Consume(users, headers, Parsed(fields)), FieldText(fields, "id");
      && r.Keys == users.Keys + {id}
      && r[id] == UserFromFields(fields)
      && (forall k :: k in users && k != id ==> r[k] == users[k])
  {
  }

  /** The key and the body's id disagree: the user lands under the body's id, not the key. */
  lemma KeyMismatchUsesBodyId()
    ensures var r := Consume(map[], map[ReceivedKeyHeader := "u1"],
                             Parsed(map["id" := Some("u2"), "name" := Some("Bob"), "email" := Some("b@x.com")]));
      && r.Keys == {"u2"}
      && r["u2"] == User("u2", "Bob", "b@x.com")
  {
  }

  /** A keyed event whose body carries u1/Bob makes Bob visible under u1, on top of what was there. */
  lemma InboundBobVisible(users: Registry.Store)
    ensures var r := Consume(users, map[ReceivedKeyHeader := "u1"],
                             Parsed(map["id" := Some("u1"), "name" := Some("Bob"), "email" := Some("b@x.com")]));
      && "u1" in r && r["u1"].name == "Bob"
      && (forall k :: k in users ==> k in r)
  {
  }

  /** Missing fields and JSON nulls become the text "null"; they are no error. */
  lemma MissingFieldsBecomeNull(users: Registry.Store, headers: map<string, string>)
    requires ReceivedKeyHeader in headers
    ensures var r := Consume(users, headers, Parsed(map["name" := None]));
      && "null" in r && r["null"] == User("null", "null", "null")
  {
  }

  /** Reading back a user's own fields rebuilds that very user. */
  lemma UserFromFieldsOf(u: User)
    ensures UserFromFields(FieldsOf(u)) == u
  {
  }

  /**
   * A service consuming the event it published itself (same key, faithful
   * parse of the payload) ends where it started: there is no echo effect.
   */
  lemma ConsumeOwnEvent(users: Registry.Store, u: User, readValue: string -> ParseResult)
    requires readValue(Service.ProfileJson(u.id, u.name, u.email)) == Parsed(FieldsOf(u))
    ensures var payload := Service.ProfileJson(u.id, u.name, u.email);
      Consume(Registry.Put(users, u), map[ReceivedKeyHeader := u.id], readValue(payload)) == Registry.Put(users, u)
  {
    UserFromFieldsOf(u);
    Registry.PutIdempotent(users, u);
  }

  /** An inbound message: its body and its headers. */
  datatype Inbound = Inbound(payload: string, headers: map<string, string>)

  /** The registry after the handler has run on every message of `evs`, in order. */
  function ConsumeAll(users: Registry.Store, evs: seq<Inbound>, readValue: string -> ParseResult): Registry.Store
    decreases |evs|
  {
    if evs == [] then users
    else ConsumeAll(Consume(users, evs[0].headers, readValue(evs[0].payload)), evs[1..], readValue)
  }

  /** The users a sequence of inbound messages makes the handler apply, in order. */
  function Accepted(evs: seq<Inbound>, readValue: string -> ParseResult): (us: seq<User>)
    ensures |us| <= |evs|
    decreases |evs|
  {
    if evs == [] then []
    else
      match Decide(evs[0].headers, readValue(evs[0].payload))
      case None => Accepted(evs[1..], readValue)
      case Some(u) => [u] + Accepted(evs[1..], readValue)
  }

  /** Consuming a stream is writing the accepted users in order; dropped messages leave no trace. */
  lemma {:induction false} ConsumeAllIsPutAll(users: Registry.Store, evs: seq<Inbound>, readValue: string -> ParseResult)
    ensures ConsumeAll(users, evs, readValue) == Registry.PutAll(users, Accepted(evs, readValue))
    decreases |evs|
  {
    if evs != [] {
      var next := Consume(users, evs[0].headers, readValue(evs[0].payload));
      ConsumeAllIsPutAll(next, evs[1..], readValue);
      match Decide(evs[0].headers, readValue(evs[0].payload))
      case None =>
      case Some(u) =>
        var rest := Accepted(evs[1..], readValue);
        assert ([u] + rest)[0] == u && ([u] + rest)[1..] == rest;
    }
  }

  /** Redelivering a whole stream of inbound messages changes nothing more. */
  lemma ConsumeAllRedelivery(users: Registry.Store, evs: seq<Inbound>, readValue: string -> ParseResult)
    ensures ConsumeAll(ConsumeAll(users, evs, readValue), evs, readValue) == ConsumeAll(users, evs, readValue)
  {
    var once := ConsumeAll(users, evs, readValue);
    ConsumeAllIsPutAll(users, evs, readValue);
    ConsumeAllIsPutAll(once, evs, readValue);
    Registry.PutAllReplay(users, Accepted(evs, readValue));
  }

  class UserListener {
    /** The service whose registry inbound users are applied to. */
    const userService: Service.UserService

    constructor (userService: Service.UserService)
      ensures this.userService == userService
    {
      this.userService := userService;
    }

    /**
     * The handler bound as consumeUserProfile, run on one inbound message;
     * `readValue` stands for Jackson's parse of a body.
     */
    method ConsumeUserProfile(payload: string, headers: map<string, string>, readValue: string -> ParseResult)
      requires userService.Valid()
      modifies userService
      ensures userService.Valid()
      ensures userService.users == Consume(old(userService.users), headers, readValue(payload))
      ensures userService.sender.sent == old(userService.sender.sent)
    {
      if ReceivedKeyHeader in headers {
        var key := headers[ReceivedKeyHeader];
        Receive(key, payload, readValue);
      }
    }

    /** Parses the body, builds the user and applies it; a parse failure is swallowed. */
    method Receive(userId: string, message: string, readValue: string -> ParseResult)
      requires userService.Valid()
      modifies userService
      ensures userService.Valid()
      ensures userService.users == match readValue(message)
        case ParseFailed(_) => old(userService.users)
        case Parsed(fields) => Registry.Put(old(userService.users), UserFromFields(fields))
      ensures userService.sender.sent == old(userService.sender.sent)
    {
      var parsed := readValue(message);
      match parsed
      case ParseFailed(_) =>
      case Parsed(fields) =>
        var user := UserFromFields(fields);
        userService.AddUserFromKafka(user);
    }
  }
}
