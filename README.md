# simple-irc-rabbitmq in Dafny

This project models the core of a small chat system that runs over a RabbitMQ broker.

- **Server.** A nickname registry (`IrcServer`). It consumes requests of the form `"<name>:<callback>"`. An empty callback releases `name`. Any other callback claims a name: the name is kept if free and otherwise replaced by a randomly drawn one, the reply goes to the callback queue, and the name is recorded only if sending the reply returned normally. The registry is seeded with the reserved empty name.
- **Client.** The chat client (`IrcClient`). It keeps:
  - the joined channels in a `TreeMap` (so broadcasts go out in ascending name order);
  - a nickname;
  - a termination flag;
  - a shared queue of incoming lines.

  The client dispatches each input line to the first command whose pattern matches, in the order nick, join, leave, exit, message-to-channel; anything else is a broadcast. After each line the input handler shows everything queued.
- **Channel consumer.** The `ChannelConsumer` tags each payload arriving on a channel as `[channel] payload` and appends it to the client's queue.

The modules follow the program's structure:

| module | file | models |
|---|---|---|
| `Server` | server.dfy | `IrcServer`: request parsing, the pure step `Apply`, and the class `IrcServer`, whose `HandleDelivery` has the redraw loop and is proved equal to `Apply` |
| `Session` | client_spec.dfy | `IrcClient` as values: the broker as seen by one handler (`Broker`), the transport-action log, one function per handler, command dispatch and the input loop |
| `Client` | client.dfy | the class `IrcClient`, each handler a method proved to take `Snapshot()` to what the matching `Session` function gives |
| `Consumer` | consumer.dfy | `ChannelConsumer` and the shared `LinkedBlockingQueue` (`MessageQueue`) |
| `KeyOrder` | key_order.dfy | Java's `String.compareTo` (`Below`) and the ascending key order of a `TreeMap` (`SortedKeys`) |
| `Wrappers` | wrappers.dfy | `Option`, which also stands for a Java reference that may be null |

The broker, the random generator and the command patterns are external to the model.

- **Broker.** Each handler's broker work becomes one `Action` per operation, appended to the client's log with a flag for whether it completed:
  - a join's channel creation, exchange declaration, queue binding and consume are one `Subscribe`;
  - `registerNickname`'s channel, declare, empty publish and close are one `RegisterQueue`.

  The existence check of `checkNicknameExist` leaves no `Action`: it is a fact of the `Broker`. A `Broker` value says:
  - which queues exist, as a passive declare would find them before the handler starts (`handleNick`'s own delete of the held queue is then applied, `Session.AfterRelease`);
  - what the 5-character generator yields;
  - on which exchange or queue names an operation throws, and how (`IOException` or `TimeoutException`).
- **Server side.** The random generator is a supplied sequence of candidates, drawn in order. Sending the reply is replaced by how far it got (`Sent`):
  - it threw before anything was published;
  - it published the reply, then closing the channel threw;
  - it returned.
- **Command patterns.** The `CommandRegexes` patterns are abstract partial functions (`Matchers`).
- **Standard output and error.** These become the logs `out` and `err`.

Points where the program's behaviour is easy to misread:
- The server records a claimed name only after `sendMessageToQueue` returned (IrcServer.java:69-70). If that call throws, the registry is unchanged, even when the throw came from closing the channel after the reply was already published (IrcServer.java:85-86). The name then stays free and can be handed out again (`Server.ReissueAfterCloseFailure`).
- `handleExit` does not set the termination flag when releasing the nickname throws (IrcClient.java:164-172). It reports the error and the session goes on.
- The request `":"` releases the reserved empty name. Nothing guards against it, and afterwards an empty claim is answered with `""` (`Server.ReservedReleasable`).
- The client shown uses its own per-nickname `q_nick_<name>` queues:
  - existence check by passive declare;
  - registration by declare and an empty publish;
  - release by delete.

  It does not use the server's `q_nicknames` request protocol, so the two sides are modelled separately and do not compose.
- Java's `(.*):(.*)` with `matches()` splits at the last colon. Its `.` does not match a line terminator (`\n`, `\r`, U+0085, U+2028, U+2029), so a request containing one is invalid.
- Java prints a null nickname in a payload as `null` (`Session.Payload`).

## Model

| member | source | states |
|---|---|---|
| Server.LastColon | src/com/server/IrcServer.java:20 | none exactly when there is no colon; otherwise the index of a colon with no colon after it (the greedy first group) |
| Server.ParseRequest | src/com/server/IrcServer.java:56-61 | no match exactly when the request has no colon or holds a line terminator; on a match the request is name + ":" + callback with a colon-free callback, so the name keeps any earlier colons |
| Server.ParseJoined | src/com/server/IrcServer.java:56-61 | joining a name and a colon-free callback with ":" parses back to exactly that name and callback |
| Server.FirstFresh | src/com/server/IrcServer.java:65-67 | the name the redraw loop stops at is not in the registry and is the first candidate that is not |
| Server.Draw | src/com/server/IrcServer.java:65-67 | the claimed name is kept when free and replaced by the first free candidate otherwise; the result is never already held |
| Server.InvalidDropped | src/com/server/IrcServer.java:56-58 | a request without a colon leaves the registry unchanged and gets no reply |
| Server.ReleaseStep | src/com/server/IrcServer.java:62-63 | "name:" removes exactly name and sends nothing; releasing an absent name changes nothing |
| Server.ClaimStep | src/com/server/IrcServer.java:65-74 | a claim answers on its callback queue; the reply is the requested name if free and a candidate otherwise; it was not held before; the registry gains it exactly when sendMessageToQueue returned, else is unchanged; the effect says whether the reply was published |
| Server.ReservedReleasable | src/com/server/IrcServer.java:62-65 | ":" removes the reserved "", after which a claim for the empty name is answered with "" |
| Server.Apply | src/com/server/IrcServer.java:56-74 | the step of handleDelivery on the registry; what it does is stated by InvalidDropped, ReleaseStep and ClaimStep |
| Server.Run | src/com/server/IrcServer.java:52-77 | requests are handled one at a time in arrival order, one effect per request |
| Server.Granted | src/com/server/IrcServer.java:68-74 | the names handed out are those of replies that reached their callback queue, recorded or not, in order |
| Server.ReservedNeverAssigned | src/com/server/IrcServer.java:49-70 | while no ":" request arrives the reserved "" stays in the registry and no claim is answered with "" |
| Server.GrantsDistinct | src/com/server/IrcServer.java:65-74 | without releases, and with no reply published before closing its channel threw, the names handed out are pairwise distinct and none was held before; the final registry is exactly the old names plus those handed out |
| Server.ReissueAfterCloseFailure | src/com/server/IrcServer.java:68-74 | a reply published before closing the channel threw leaves the name unrecorded, so the next claim for that name is answered with it again: one name reaches two callers |
| Server.IrcServer.constructor | src/com/server/IrcServer.java:22 | the registry starts empty |
| Server.IrcServer.Start | src/com/server/IrcServer.java:49 | the reserved empty name is added before requests are consumed |
| Server.IrcServer.HandleDelivery | src/com/server/IrcServer.java:52-77 | the registry after the request and the effect are what Apply gives: drop, release, or redraw while taken, then answer and record only if sending returned |
| KeyOrder.BelowIrreflexive | src/com/client/IrcClient.java:19 | no string sorts before itself |
| KeyOrder.BelowAsymmetric | src/com/client/IrcClient.java:19 | two strings never sort before each other |
| KeyOrder.BelowTransitive | src/com/client/IrcClient.java:19 | the key order is transitive |
| KeyOrder.BelowTotal | src/com/client/IrcClient.java:19 | any two distinct strings are ordered one way or the other |
| KeyOrder.LeastUnique | src/com/client/IrcClient.java:19 | a set of keys has at most one least key |
| KeyOrder.LeastExists | src/com/client/IrcClient.java:19 | every non-empty set of keys has a least key |
| KeyOrder.Least | src/com/client/IrcClient.java:19 | the first entry a TreeMap yields is in the set and before every other key |
| KeyOrder.SortedKeys | src/com/client/IrcClient.java:106 | the entry set is iterated once per key, holding exactly the keys, in strictly ascending order |
| Wrappers.Option.GetOr | src/com/client/IrcClient.java:176-178 | a null value is replaced by the default, a present one kept |
| Consumer.Tagged | src/com/client/ChannelConsumer.java:29-30 | the line is "[", the channel name, "] ", then the payload, at those exact positions |
| Consumer.Untag | src/com/client/ChannelConsumer.java:30 | a line has a payload for a channel exactly when it starts with that channel's tag, and then the line is that payload tagged (the reverse of UntagTagged) |
| Consumer.UntagTagged | src/com/client/ChannelConsumer.java:20-30 | removing a channel's tag gives back the payload: every line a consumer enqueues carries its fixed channel tag |
| Consumer.TaggedInjective | src/com/client/ChannelConsumer.java:30 | two payloads tagged for the same channel give the same line only if equal |
| Consumer.MessageQueue.constructor | src/com/client/IrcClient.java:18 | the queue starts empty |
| Consumer.MessageQueue.Add | src/com/client/ChannelConsumer.java:30 | add puts the line at the back, the older lines unchanged |
| Consumer.MessageQueue.IsEmpty | src/com/client/IrcClient.java:71 | true exactly when no line is queued |
| Consumer.MessageQueue.Take | src/com/client/IrcClient.java:73 | removes and returns the oldest line |
| Consumer.ChannelConsumer.constructor | src/com/client/ChannelConsumer.java:20-23 | the consumer is bound to the given channel name and shared queue |
| Consumer.ChannelConsumer.HandleDelivery | src/com/client/ChannelConsumer.java:27-31 | each delivery appends exactly one element, the tagged payload, after the unchanged earlier contents |
| Session.QueueForNickname | src/com/client/IrcClient.java:243-245 | the queue name is "q_nick_" followed by the nickname |
| Session.QueueForNicknameInjective | src/com/client/IrcClient.java:243-245 | different nicknames have different queues |
| Session.NicknameExists | src/com/client/IrcClient.java:222-232 | checkNicknameExist: the passive declare finds the nickname's queue; a throw reads as not existing |
| Session.ChooseNickname | src/com/client/IrcClient.java:204-211 | the name requestNickname registers; stated by ChooseNicknameCases |
| Session.ChooseNicknameCases | src/com/client/IrcClient.java:204-211 | the requested name is chosen exactly when it is non-empty and not taken (or the generator yields it), otherwise the 5-character generated one; never empty |
| Session.RequestNicknameCases | src/com/client/IrcClient.java:202-232 | one queue registration; a name is returned exactly when it does not throw, and it is the requested one if non-empty and its queue does not exist, the 5-character generated one otherwise |
| Session.DeleteNicknameWithoutName | src/com/client/IrcClient.java:234-241 | with a null nickname deleteNickname performs no transport action and does not throw |
| Session.DeleteNicknameSpec | src/com/client/IrcClient.java:234-241 | deleteNickname: deletes a held nickname's queue; stated by DeleteNicknameWithoutName, NickReleasesBeforeClaim, NickOwnNameKept and ExitTerminates |
| Session.RequestNicknameSpec | src/com/client/IrcClient.java:202-220 | requestNickname: choose, register and return; stated by RequestNicknameCases |
| Session.NickMessages | src/com/client/IrcClient.java:187-194 | the lines handleNick shows; stated by NickMessagesCases |
| Session.AfterRelease | src/com/client/IrcClient.java:234-241 | the queues after deleteNickname: the held nickname's queue is removed unless deleting it threw; nothing else about the broker changes |
| Session.ReleasedNameFree | src/com/client/IrcClient.java:181-186 | after the release a name is found taken exactly when it was taken before and is not the nickname just released |
| Session.NickSpec | src/com/client/IrcClient.java:175-200 | handleNick; stated by NickNullIsEmpty, NickNullAssigned, NickFreeNameWelcomed, NickTakenNameReplaced, NickOwnNameKept, NickReleasesBeforeClaim, NickKeptOnFailure and NickKeepsChannels |
| Session.NickMessagesCases | src/com/client/IrcClient.java:187-194 | empty request: exactly the "assigned as" line; a replaced request: exactly "already taken" then "instead"; "Welcome [name]!" exactly for a request granted as asked |
| Session.NickNullIsEmpty | src/com/client/IrcClient.java:176-178 | handleNick(null) behaves as handleNick("") |
| Session.NickNullAssigned | src/com/client/IrcClient.java:176-195 | handleNick(null) holds the generated name and announces it with the "assigned as" line, channels and errors unchanged |
| Session.NickKeepsChannels | src/com/client/IrcClient.java:175-200 | a nickname change leaves the joined channels and the broker channel count unchanged |
| Session.NickFreeNameWelcomed | src/com/client/IrcClient.java:186-195 | a free requested name becomes the nickname, greeted by "Welcome [name]!", with channels and errors unchanged |
| Session.NickTakenNameReplaced | src/com/client/IrcClient.java:186-207 | a name taken by someone else is replaced by the generated one, shown as the "already taken" then "instead" lines |
| Session.NickOwnNameKept | src/com/client/IrcClient.java:179-195 | re-requesting the held nickname deletes its queue, finds it free, registers it again and shows exactly "Welcome [name]!" |
| Session.NickReleasesBeforeClaim | src/com/client/IrcClient.java:179-186 | the held nickname's queue is deleted before the chosen name's queue is registered, and the choice was made after the delete; with no nickname only the registration happens |
| Session.NickKeptOnFailure | src/com/client/IrcClient.java:186-199 | the nickname changes, to the name chosen after the release, only if requestNickname returns; otherwise it is kept and "Something bad happened" goes to the error stream |
| Session.Payload | src/com/client/IrcClient.java:122 | the published text "(" + nickname + ") " + message, with a null nickname written "null"; stated by MessageChannelTargets and BroadcastEachOnce |
| Session.JoinSpec | src/com/client/IrcClient.java:146-162 | handleJoin; stated by JoinIdempotent, JoinNewChannel, JoinTwice and JoinKeepsFreshIds |
| Session.LeaveSpec | src/com/client/IrcClient.java:128-144 | handleLeave; stated by LeaveAbsent, LeavePresent, JoinThenLeave and LeaveKeepsFreshIds |
| Session.MessageChannelSpec | src/com/client/IrcClient.java:115-126 | handleMessageChannel; stated by MessageChannelTargets |
| Session.BroadcastSpec | src/com/client/IrcClient.java:105-113 | handleBroadcast; stated by BroadcastEachOnce |
| Session.JoinIdempotent | src/com/client/IrcClient.java:146-158 | joining a joined channel creates no channel, leaves the map and log unchanged and shows "You have joined" |
| Session.JoinNewChannel | src/com/client/IrcClient.java:148-158 | joining a new channel adds exactly that key, on the next broker channel number (which no joined channel uses while numbers stay below it), keeps the others, subscribes once and shows "You have joined" |
| Session.JoinTwice | src/com/client/IrcClient.java:146-158 | after a first join that did not throw, a second join of the same channel leaves the membership as the first left it |
| Session.LeaveAbsent | src/com/client/IrcClient.java:128-132 | leaving an absent channel shows "You are not registered to X" and changes nothing else |
| Session.LeavePresent | src/com/client/IrcClient.java:133-143 | leaving a joined channel removes exactly that key and closes its channel whether close returns or throws IOException or TimeoutException, ending with "You have leaved X" |
| Session.JoinThenLeave | src/com/client/IrcClient.java:128-158 | joining a new channel and then leaving it restores the membership |
| Session.JoinKeepsFreshIds | src/com/client/IrcClient.java:148-156 | a join keeps the joined channels on distinct broker channel numbers below the next one |
| Session.LeaveKeepsFreshIds | src/com/client/IrcClient.java:133-143 | a leave keeps the joined channels on distinct broker channel numbers below the next one |
| Session.InputKeepsFreshIds | src/com/client/IrcClient.java:83-103 | every command keeps the joined channels on distinct broker channel numbers, and the numbers only grow |
| Session.MessageChannelTargets | src/com/client/IrcClient.java:115-122 | absent channel: nothing published, "not registered" shown; joined channel: exactly one publish, on its channel, with payload "(" + nickname + ") " + message; membership unchanged |
| Session.Publishes | src/com/client/IrcClient.java:106-112 | one publish per key |
| Session.PublishesAt | src/com/client/IrcClient.java:106-108 | the i-th publish goes to the i-th key on that key's broker channel, its outcome that key's own |
| Session.PublishesAll | src/com/client/IrcClient.java:106-112 | every publish goes to its key on its broker channel |
| Session.PublishesToJoined | src/com/client/IrcClient.java:105-112 | a broadcast makes one publish per joined channel, each to a joined channel with the one payload |
| Session.PublishesAscending | src/com/client/IrcClient.java:106 | the broadcast's publishes follow strictly ascending channel names |
| Session.PublishesCoverJoined | src/com/client/IrcClient.java:106-112 | every joined channel receives a publish of the broadcast |
| Session.BroadcastEachOnce | src/com/client/IrcClient.java:105-112 | one publish attempt per joined channel, in ascending name order, identical payloads, a failing one not skipping the others, and nothing but the log changes |
| Session.ExitSpec | src/com/client/IrcClient.java:164-173 | handleExit; stated by ExitTerminates |
| Session.ExitTerminates | src/com/client/IrcClient.java:164-173 | the held nickname's queue is deleted (nothing is logged with no nickname); the flag is set and "Bye bye!" shown exactly when that does not throw, and otherwise "Something bad happened" goes to the error stream; channels and nickname unchanged |
| Session.Classify | src/com/client/IrcClient.java:86-102 | first match in the order nick, join, leave, exit, message-to-channel, with the captured groups; otherwise a broadcast of the whole line |
| Session.UnmatchedIsBroadcast | src/com/client/IrcClient.java:100-101 | a line is broadcast verbatim exactly when no pattern matches it |
| Session.InputSpec | src/com/client/IrcClient.java:83-103 | handleInput: the handler of the command Classify picks; stated by OnlyExitTerminates and InputKeepsFreshIds |
| Session.OnlyExitTerminates | src/com/client/IrcClient.java:94-95 | only the exit command sets the termination flag |
| Session.Arrived | src/com/client/ChannelConsumer.java:27-31 | the arrivals queue no more lines than there are arrivals; their contents are stated by ArrivedFromJoined, ArrivedAllJoined, ArrivedConcat and ArrivedLost |
| Session.ArrivedFromJoined | src/com/client/ChannelConsumer.java:27-31 | every queued line is the tagged payload of an arrival on a joined channel |
| Session.ArrivedAllJoined | src/com/client/ChannelConsumer.java:27-31 | when every arrival is on a joined channel, each one is queued, tagged with its channel, in arrival order |
| Session.ArrivedConcat | src/com/client/ChannelConsumer.java:27-31 | arrivals are queued in order and independently: two runs of arrivals queue the first run's lines followed by the second's |
| Session.ArrivedLost | src/com/client/IrcClient.java:154-155 | an arrival on a channel not joined has no consumer and queues nothing |
| Session.Turn | src/com/client/IrcClient.java:69-77 | one iteration of the input handler: handle the line, then show the queued lines oldest first; the order is stated by Client.IrcClient.Drain and Client.IrcClient.InputTurn |
| Session.Loop | src/com/client/IrcClient.java:68-78 | the input handler's loop; stated by LoopStops and LoopKeepsFreshIds |
| Session.LoopStops | src/com/client/IrcClient.java:68-78 | nothing is read once terminated; otherwise lines are read until input ends or an exit sets the flag, the last line read then being that exit; after any turn the queue is empty |
| Session.LoopKeepsFreshIds | src/com/client/IrcClient.java:68-78 | over a whole run of the input handler the joined channels keep distinct broker channel numbers |
| Client.IrcClient.constructor | src/com/client/IrcClient.java:17-20 | no nickname, no channels, flag clear, empty queue |
| Client.IrcClient.ShowMessage | src/com/client/IrcClient.java:59-61 | appends the line to standard output |
| Client.IrcClient.Terminate | src/com/client/IrcClient.java:55-57 | sets the flag |
| Client.IrcClient.HandleJoin | src/com/client/IrcClient.java:146-162 | the new state is JoinSpec's; existing channels keep their consumers and a new one gets a fresh consumer |
| Client.IrcClient.OpenChannel | src/com/client/IrcClient.java:149-156 | a new broker channel is numbered; the Subscribe action is logged with its outcome; unless it throws, exactly the channel's key is added with a fresh consumer and the other entries are kept |
| Client.IrcClient.JoinNew | src/com/client/IrcClient.java:146-158 | joining a channel not yet joined: the new state is JoinSpec's, existing channels keep their consumers and the new one gets a fresh consumer |
| Client.IrcClient.AddChannel | src/com/client/IrcClient.java:156 | the channel is put in the map under the next broker channel number, keeping the invariant; its broker channel number is recorded in the channel map |
| Client.Ids | src/com/client/IrcClient.java:19 | the channel map the session sees holds exactly the client's joined channels, with their broker channel numbers |
| Client.IrcClient.HandleLeave | src/com/client/IrcClient.java:128-144 | the new state is LeaveSpec's |
| Client.IrcClient.LeaveJoined | src/com/client/IrcClient.java:133-143 | leaving a joined channel: the new state is LeaveSpec's |
| Client.IrcClient.RemoveChannel | src/com/client/IrcClient.java:143 | exactly that channel is dropped from the map, keeping the invariant |
| Client.IrcClient.HandleMessageChannel | src/com/client/IrcClient.java:115-126 | the new state is MessageChannelSpec's |
| Client.IrcClient.HandleBroadcast | src/com/client/IrcClient.java:105-113 | the new state is BroadcastSpec's |
| Client.IrcClient.PublishEach | src/com/client/IrcClient.java:106-112 | the loop appends one publish per key in order, whatever the outcome of earlier ones |
| Client.IrcClient.DeleteNickname | src/com/client/IrcClient.java:234-241 | state and whether it threw are DeleteNicknameSpec's |
| Client.IrcClient.RequestNickname | src/com/client/IrcClient.java:202-232 | state and returned name are RequestNicknameSpec's |
| Client.IrcClient.HandleNick | src/com/client/IrcClient.java:175-200 | the new state is NickSpec's |
| Client.IrcClient.HandleExit | src/com/client/IrcClient.java:164-173 | the new state is ExitSpec's |
| Client.IrcClient.HandleInput | src/com/client/IrcClient.java:83-103 | the new state is InputSpec's: the handler of the command Classify picks |
| Client.IrcClient.Deliver | src/com/client/ChannelConsumer.java:27-31 | a payload on a joined channel reaches that channel's consumer and is queued tagged |
| Client.IrcClient.ArriveAll | src/com/client/IrcClient.java:154-155 | payloads on joined channels are queued tagged, in arrival order; others are lost |
| Client.IrcClient.Drain | src/com/client/IrcClient.java:71-77 | every queued line is shown, oldest first, and the queue ends empty |
| Client.IrcClient.InputTurn | src/com/client/IrcClient.java:69-77 | one iteration: the state is Turn's and the queue ends empty |
| Client.IrcClient.RunInputHandler | src/com/client/IrcClient.java:63-80 | the stopped state, the queue and the number of lines read are Loop's |
| Client.IrcClient.Launch | src/com/client/IrcClient.java:37-48 | an initial handleNick(null), then the input handler |

## Left out

- Only the checked exceptions the broker calls declare (`IOException`, `TimeoutException`) are modelled as faults. Any other exception from the client library escapes the handler and ends the input handler's `run`. That would stop a leave before the channel is removed, or a broadcast before the remaining channels. The channel handlers catch only `IOException` (broadcast, message, join) or `IOException` and `TimeoutException` (leave), so no such failure is represented.
- The RabbitMQ client library is not part of this model. Connections, channel creation, exchange and queue declarations, bindings, publishes, consumes and closes appear only as `Action`s in a log, or as facts of a `Broker` value.
- A failed join's partial broker work (a channel created, an exchange declared, before the throw) is one `Subscribe(id, name, false)` action. The broker channel number is still used up.
- A step's failures are keyed by exchange or queue name in one `Broker` value. Two operations on the same name within one handler therefore fail or succeed together.
- Threads, the `AtomicBoolean` and the blocking of `LinkedBlockingQueue.take`: concurrency is not modelled.
  - Deliveries are interleaved only between handling a line and showing the queue (`Arrival`s per turn).
  - `Take` requires a non-empty queue, which the drain loop guarantees.
- The input loop ends when the supplied lines run out; `Scanner.nextLine` throwing at end of input is not modelled.
- `System.in` and `System.out`: standard output and standard error are the logs `out` and `err`. Stack traces are not logged.
- `RandomStringUtils.randomAlphanumeric(5)` is replaced by supplied names: `Broker.generated` on the client, a candidate sequence on the server.
- UTF-8 encoding and decoding of payloads are left out; payloads are strings.
- `CommandRegexes` is not part of this model; its patterns are abstract `Matchers`.
- The race between `checkNicknameExist` and `registerNickname` across clients is concurrency and is not modelled.
- Session.NicknameExists: reads the queues a passive declare would find at the start of the handler, less the handler's own delete of the held nickname. Queues that other clients create or delete meanwhile are not modelled.
- `ServerLauncher`, `ClientLauncher`, connection setup and shutdown (`setupConnection`, `IrcServer.terminate`, `connection.close`) are bootstrapping with no logic of their own.
- The server's console logging of received and invalid requests is not modelled.
- Server.GrantsDistinct: requires that no reply was published on a channel whose close then threw. In that case the program hands one name to two callers, as `Server.ReissueAfterCloseFailure` shows, so the uniqueness the registry aims for does not hold.
- KeyOrder.Below: compares Dafny characters (Unicode scalar values), whereas Java compares UTF-16 code units. The two orders differ only for strings holding characters outside the Basic Multilingual Plane.
