# User registry of kafka-monitor-service, modelled in Dafny

The service keeps a volatile registry of users (id, name, email) and keeps it in
step with a broker in two directions. `UserService.createUser` stores a new
user under a freshly drawn UUID and then publishes a flat JSON payload through
`UserSender`, keyed by the id, on the binding `produceUserProfile-out-0`.
`UserListener` consumes profile events: it drops an event without a record
key, parses the body into a map and applies `User(id, name, email)` built
from it through `UserService.addUserFromKafka`, which stores without
publishing. A parse failure is caught and the event is dropped.

Modules, one per component:

- `Users`: the `User` record.
- `Registry`: the `users` map as a value, with its one write `Put` and
  `PutAll` (a history of writes in delivery order). It also holds the
  last-writer-wins, idempotence and replay lemmas.
- `Sender`: the `UserSender` class. Its `sent` field records every
  delivery handed to `StreamBridge.send`.
- `Service`: the `UserService` class (`users` field plus its sender),
  the payload template `ProfileJson` and what can be recovered from it.
- `Listener`: the `UserListener` class. Beside it sit the pure decision
  `Decide`/`Consume` that the handler is proved against, and lemmas over
  whole inbound streams.

Outside collaborators become parameters:

- The UUID drawn by `createUser` is the `newId` argument.
- The answer of `StreamBridge.send` is a `SendResult`: it returned its
  boolean, or it threw.
- Jackson's `readValue` is a function `readValue: string -> ParseResult`. It
  yields a failure, or a map from field name to the value's text (`None` for
  a JSON null).
- The header names are Spring Kafka's: `kafka_messageKey` (`KafkaHeaders.KEY`)
  and `kafka_receivedMessageKey` (`KafkaHeaders.RECEIVED_KEY`).

The service is meant to log publish failures and to reject bodies with missing
fields; the code does neither, and the model follows the code:

- A publish failure is not caught in `createUser` (UserService.kt:25). The
  exception escapes to the caller after the registry was written.
  `CreateUser` returns `Failure` in that case, and the record stays stored.
- A missing or null body field is no error. Kotlin's `toString` on a null
  value yields the text `"null"`, so such an event stores a user whose fields
  read `"null"` (UserListener.kt:36-38).

## Model

| member | source | states |
|---|---|---|
| Registry.Put | src/main/kotlin/com/man/kafkamonitor/service/UserService.kt:34-35 | `users[user.id] = user` leaves the key set grown by exactly that id, holds the user under it, and keeps every other entry |
| Registry.PutKeepsKeyed | src/main/kotlin/com/man/kafkamonitor/service/UserService.kt:18-19 | every entry stays filed under its own record's id after a write |
| Registry.PutIdempotent | src/main/kotlin/com/man/kafkamonitor/service/UserService.kt:34-35 | applying the same user twice leaves the registry that applying it once leaves |
| Registry.PutLastWriterWins | src/main/kotlin/com/man/kafkamonitor/service/UserService.kt:34-35 | of two writes under one id the second wins outright, with no trace of the first |
| Registry.PutAll | src/main/kotlin/com/man/kafkamonitor/service/UserService.kt:34-35 | after a history of writes the key set is the old keys plus the history's ids, so keys only ever grow |
| Registry.PutAllAppend | src/main/kotlin/com/man/kafkamonitor/service/UserService.kt:34-35 | writing two histories one after the other equals writing their concatenation |
| Registry.PutAllUntouched | src/main/kotlin/com/man/kafkamonitor/service/UserService.kt:34-35 | a key no record of the history carries keeps its old entry, or stays absent |
| Registry.PutAllLastWriterWins | src/main/kotlin/com/man/kafkamonitor/service/UserService.kt:34-35 | the last record of a history carrying an id is what the registry holds for that id |
| Registry.PutAllReplay | src/main/kotlin/com/man/kafkamonitor/service/UserService.kt:34-35 | redelivering a whole history on top of its own result changes nothing |
| Registry.PutAllKeepsKeyed | src/main/kotlin/com/man/kafkamonitor/service/UserService.kt:34-35 | any history of writes keeps every entry filed under its own id |
| Sender.ProfileCreateMessage | src/main/kotlin/com/man/kafkamonitor/sender/UserSender.kt:15-18 | the message carries the payload unchanged, and its only header is the record key (`KafkaHeaders.KEY`), set to the user id |
| Sender.UserSender.constructor | src/main/kotlin/com/man/kafkamonitor/sender/UserSender.kt:10 | a new sender has handed nothing to the bridge yet |
| Sender.UserSender.SendUserProfileCreate | src/main/kotlin/com/man/kafkamonitor/sender/UserSender.kt:14-26 | exactly one delivery is appended, to `produceUserProfile-out-0`. The boolean the bridge returns is ignored (normal return even when false). A bridge exception escapes |
| Service.ProfileJson | src/main/kotlin/com/man/kafkamonitor/service/UserService.kt:24 | the payload `{"id":"<id>","name":"<name>","email":"<email>"}` by plain concatenation: 30 template characters plus the three fields, the id verbatim after the opening `{"id":"`, the email verbatim before the closing `"}` |
| Service.ProfileJsonInjective | src/main/kotlin/com/man/kafkamonitor/service/UserService.kt:24 | the payload determines id, name and email whenever the id and the name hold no double quote |
| Service.ProfileJsonCollision | src/main/kotlin/com/man/kafkamonitor/service/UserService.kt:24 | without escaping, two different users (a quote in the name) publish the same payload |
| Service.UserService.constructor | src/main/kotlin/com/man/kafkamonitor/service/UserService.kt:11-14 | the registry starts empty and owns the given sender |
| Service.UserService.CreateUser | src/main/kotlin/com/man/kafkamonitor/service/UserService.kt:16-28 | stores `User(newId, name, email)` under `newId`, overwriting on collision, other entries unchanged. Publishes exactly once, keyed by `newId`, with the payload `{"id":"<id>","name":"<name>","email":"<email>"}` unescaped. Returns the stored user, or the publish exception with the record still stored |
| Service.UserService.GetAllUsers | src/main/kotlin/com/man/kafkamonitor/service/UserService.kt:30-32 | the snapshot has one element per key, no id twice, each element the record stored under its id, every stored record present, in no promised order, state untouched |
| Service.UserService.AddUserFromKafka | src/main/kotlin/com/man/kafkamonitor/service/UserService.kt:34-37 | inserts or overwrites the entry for `user.id` and publishes nothing |
| Service.CreateThenList | src/main/kotlin/com/man/kafkamonitor/controller/UserController.kt:16-29 | on a fresh service, creating Alice and then listing yields exactly Alice's record, whether or not the publish threw |
| Listener.FieldText | src/main/kotlin/com/man/kafkamonitor/listener/UserListener.kt:36-38 | `userMap[name].toString()` never fails: a present value's text, or `"null"` when the field is missing or null |
| Listener.UserFromFields | src/main/kotlin/com/man/kafkamonitor/listener/UserListener.kt:35-39 | the user's id, name and email are each rendered from the body field of that name, independently |
| Listener.Consume | src/main/kotlin/com/man/kafkamonitor/listener/UserListener.kt:22-43 | one inbound message only grows the key set, adds at most the body's id text, and keeps every entry except the one under that id |
| Listener.UserListener.constructor | src/main/kotlin/com/man/kafkamonitor/listener/UserListener.kt:12-16 | the listener applies users to the service it is given |
| Listener.Decide | src/main/kotlin/com/man/kafkamonitor/listener/UserListener.kt:22-40 | a user is applied exactly when the key header is present and the body parsed. That user is built from the body's id, name and email texts |
| Listener.ConsumeWithoutKey | src/main/kotlin/com/man/kafkamonitor/listener/UserListener.kt:23-26 | an event without the received-key header leaves the registry unchanged whatever its body |
| Listener.ConsumeParseFailure | src/main/kotlin/com/man/kafkamonitor/listener/UserListener.kt:33-43 | a body the parser rejects leaves the registry unchanged |
| Listener.KeyOnlyGates | src/main/kotlin/com/man/kafkamonitor/listener/UserListener.kt:22-36 | the key value has no effect beyond gating: any two keyed events with the same body act alike |
| Listener.ConsumeStoresUnderBodyId | src/main/kotlin/com/man/kafkamonitor/listener/UserListener.kt:35-40 | a keyed, parsed event files the built user under the body's `id` text and keeps every other entry |
| Listener.KeyMismatchUsesBodyId | src/main/kotlin/com/man/kafkamonitor/listener/UserListener.kt:30-40 | key `u1` with body id `u2` stores the user under `u2` and creates no `u1` entry |
| Listener.InboundBobVisible | src/main/kotlin/com/man/kafkamonitor/listener/UserListener.kt:30-40 | the event key `u1`, body `{"id":"u1","name":"Bob",...}` leaves Bob under `u1` and loses no key |
| Listener.MissingFieldsBecomeNull | src/main/kotlin/com/man/kafkamonitor/listener/UserListener.kt:36-38 | missing or null fields become the text `"null"`, no error: the user `("null","null","null")` is stored under `"null"` |
| Listener.UserFromFieldsOf | src/main/kotlin/com/man/kafkamonitor/listener/UserListener.kt:35-39 | building a user from a user's own three fields gives that user back |
| Listener.ConsumeOwnEvent | src/main/kotlin/com/man/kafkamonitor/listener/UserListener.kt:35-40 | consuming the very payload `ProfileJson` that the create published, under its own key and with a parse that reads that payload back into the user's fields, leaves the registry as the create left it |
| Listener.ConsumeAllIsPutAll | src/main/kotlin/com/man/kafkamonitor/listener/UserListener.kt:22-43 | handling a stream of events equals writing the accepted users in order; dropped events leave no trace |
| Listener.ConsumeAllRedelivery | src/main/kotlin/com/man/kafkamonitor/listener/UserListener.kt:22-43 | redelivering a whole stream of events changes nothing further |
| Listener.UserListener.ConsumeUserProfile | src/main/kotlin/com/man/kafkamonitor/listener/UserListener.kt:21-27 | the handler's effect on the registry is `Consume` of the headers and the parsed body. It publishes nothing |
| Listener.UserListener.Receive | src/main/kotlin/com/man/kafkamonitor/listener/UserListener.kt:30-44 | a parse failure is swallowed with the registry unchanged. Otherwise `addUserFromKafka` applies the built user once. Nothing is published |

## Left out

- TopicService, TopicController, UserController (HTTP routing) and the application bootstrap. They only delegate to library calls; `CreateThenList` stands in for the create-then-list request pair.
- UUID generation: the id is a parameter. Uniqueness is only probabilistic, so the model assumes none; a colliding id overwrites, as in the code.
- Jackson's `readValue`: a parameter function. How a JSON body maps to field texts, and how non-string values print, is not modelled.
- StreamBridge and Kafka delivery: a send is recorded as one entry of `sent`. Retries, acknowledgement, the headers Spring adds on its own (message id, timestamp) and partitioning are not modelled.
- Concurrency: the ConcurrentHashMap and the concurrent HTTP and consumer threads are modelled as a sequential store. Interleavings are not captured.
- Logging: every logger call is dropped.
- The `User` class (com.man.kafkamonitor.model.User) is not part of this model's sources; its definition is taken to be a record of three strings, as built at UserService.kt:18.
- Listener.UserListener.Receive: an exception thrown by `addUserFromKafka` itself would also be caught; the sequential model of that call cannot throw.
