# Instant messenger: session registry and routing, in Dafny

This project models the Java instant messenger made of
`InstantMessengerServer.java` and `InstantMessengerClient.java`.

The server keeps three shared maps:
- a credential map `userDatabase` (username to password);
- the registry `activeClients` (username to socket);
- implicitly, the file system it reads files from.

Each connection gets a `ClientHandler` thread. The thread:
1. asks for a username and a password;
2. on success, registers the user and broadcasts `STATUS: <u> is online!`;
3. then reads `SEND` and `FILE` commands and routes them to registered users;
4. in its `finally` block, removes the username from the registry and broadcasts `STATUS: <u> is offline.`.

Every registry read or write runs inside `synchronized (activeClients)`, so the model treats each of these blocks as one atomic step.

The model is organised as follows:

- `wrappers.dfy`: `Option`, which stands for Java's `null`.
- `java_strings.dfy` (`JavaStrings`): the `java.lang.String` operations the program uses.
  - `startsWith`, `contains`, `lastIndexOf`.
  - `split(" ")`: no space gives the whole string; otherwise the fields, with trailing empty strings dropped.
  - `split(" ", 3)`: at most three pieces; the last keeps the rest.
  - Round trips between a string and its fields.
- `protocol.dfy` (`Protocol`):
  - the exact lines the server writes;
  - how the command loop reads a line: `Send`, `File`, `Ignored`, or `Malformed` (the array index throws).
- `messenger.dfy` (`Messenger`): the server as a state machine. A `ServerState` holds:
  - the credential map;
  - the registry, from name to session id (the id stands for the socket);
  - one `Handler` per session, holding its `username` field and how far `run()` has got;
  - one outbox per session: every line and every block of bytes written to that socket, in order;
  - the file system, as a map from file name to bytes.

  The transitions are:
  - accept;
  - username read;
  - password read: authenticate, `put`, online broadcast;
  - one command line dispatched: `sendMessage`, `sendFile`, ignore, or throw;
  - the `finally` teardown.

  `Run` replays any sequence of these events. `CommandLoop` and `HandlerRun` give one whole `run()` when no other session acts in between.
- `messenger_properties.dfy` (`MessengerProperties`):
  - the invariant `Valid` of every reachable state. Every registry entry `u -> id` names a live session whose username is `u`, which makes the registry one-to-one.
  - the effect of each operation on the registry and on every outbox.
- `server.dfy` (`Server`): the same server as a class with fields that its methods update in place.
  - `broadcastStatus` is a loop over the registry.
  - Each transition method is proved to perform exactly the transition of the `Messenger` function, and to keep `Valid`. The helpers `Write` and `WriteToRegistered` are proved equal to `Emit` and `Broadcast`.
- `client.dfy` (`Client`): the client's string decisions:
  - the login check;
  - the command filter;
  - the exit check;
  - the reading of a `FILE_FROM` header;
  - the name a received file is saved under.

  It is related to the server's output, for example: a header the server writes is read back as the offer of that file.

The model follows the code as written. Where one might expect otherwise, it does this:
- A second login under a name already online overwrites the registry entry. It is not rejected.
- The file header carries the file name exactly as the sender typed it, not its base name.
- Writes are not framed. Text lines and file bytes go to the same outbox.
- A line that is not a command is silently ignored. No "unrecognized command" reply is sent.
- A `SEND` or `FILE` line with too few tokens throws, which ends the session. The session does not continue.
- The username is stored before authentication. As a result, a failed login still runs the remove-and-broadcast teardown, which evicts a session logged in under the same name.

## Model

| member | source | states |
|---|---|---|
| JavaStrings.StartsWith | InstantMessengerServer.java:57 | definition of `startsWith`: the line is at least as long as the prefix and begins with it |
| JavaStrings.Contains | InstantMessengerClient.java:28 | definition of `contains`: the text occurs at some position of the line |
| JavaStrings.Split | InstantMessengerServer.java:58 | definition of `split(" ")`: the line alone when it holds no space, otherwise its fields without trailing empty strings; SplitFields, JoinFields and FieldsSpaceFree state what it gives |
| JavaStrings.LastIndexOf | InstantMessengerClient.java:45 | the result is -1 or a position holding the character, and no later position holds it |
| JavaStrings.SplitLimit3 | InstantMessengerServer.java:59 | `split(" ", 3)` gives one to three pieces; SplitLimit3Pieces says which |
| JavaStrings.SplitLimit3Pieces | InstantMessengerServer.java:59 | the one to three pieces of `split(" ", 3)` joined by single spaces give the line back; every piece but the last is space-free, and so is the last when fewer than three come back |
| JavaStrings.JoinFields | InstantMessengerServer.java:58 | the space-separated fields of a line join back to the line |
| JavaStrings.FieldsSpaceFree | InstantMessengerServer.java:58 | no field of a line holds a space |
| JavaStrings.FieldsJoin | InstantMessengerServer.java:62 | cutting a space-joined non-empty list of space-free pieces gives the pieces back |
| JavaStrings.DropTrailingEmptyReach | InstantMessengerServer.java:62 | dropping trailing empty strings keeps index k exactly when a piece at k or later is non-empty |
| JavaStrings.SplitFields | InstantMessengerServer.java:58-62 | `split(" ")` of a line without a space is the line alone; otherwise it is a prefix of the fields that reaches index k exactly when a field at k or later is non-empty |
| JavaStrings.NonEmptyField | InstantMessengerServer.java:58 | a line has a non-empty field exactly when it holds a character other than a space |
| Protocol.ParseCommand | InstantMessengerServer.java:56-66 | definition of how the loop reads one line: `SEND` or `FILE` by prefix, the fields it indexes, and `Malformed` where an index is out of bounds; the Parse lemmas below state each case |
| Protocol.ParseIgnored | InstantMessengerServer.java:56-66 | a line is ignored exactly when it starts with neither `SEND` nor `FILE` |
| Protocol.ParseSend | InstantMessengerServer.java:57-60 | a parsed `SEND` names the second field as recipient and everything after the second space as text |
| Protocol.ParseSendIntro | InstantMessengerServer.java:57-60 | conversely, a space-free head starting with `SEND`, a space-free recipient and any text, joined by spaces, parse back to that recipient and text whenever `split(" ")` has a second element |
| Protocol.ParseFile | InstantMessengerServer.java:61-65 | a line is a `FILE` command exactly when it starts with `FILE` and `split(" ")` has a third element; recipient and file name are fields two and three, and later fields are ignored |
| Protocol.PrefixOnly | InstantMessengerServer.java:57 | the checks are prefix checks: `SENDX a b` sends `b` to `a` |
| Messenger.Init | InstantMessengerServer.java:7-14 | definition of the start-up state: the given credentials and files, an empty registry and no sessions; InitValid and ReachableValid state what holds from it |
| Messenger.Accept | InstantMessengerServer.java:18-41 | definition of an accepted connection whose new session is prompted for its username; AcceptValid states that it keeps the invariant |
| Messenger.ReceiveUsername | InstantMessengerServer.java:42-43 | definition of storing the username line unchecked and prompting for the password; ReceiveUsernameValid and FailedLoginEvicts state its consequences |
| Messenger.Authenticate | InstantMessengerServer.java:90-93 | definition of `authenticate`: the name is a key and its stored password equals the one given; AuthenticateStored restates it over the stored pairs |
| Messenger.Register | InstantMessengerServer.java:47-49 | definition of the success line and the registry `put`; RegisterValid and LoginSucceeds state its effect |
| Messenger.ReceivePassword | InstantMessengerServer.java:44-70 | definition of the password step; LoginSucceeds, LoginFails and LoginRegistersIffAuthenticated state its outcome |
| Messenger.SendMessage | InstantMessengerServer.java:96-110 | definition of `sendMessage`; SendMessageEffect states its effect |
| Messenger.SendFile | InstantMessengerServer.java:113-156 | definition of `sendFile`; SendFileEffect states its effect |
| Messenger.BroadcastStatus | InstantMessengerServer.java:159-171 | definition of `broadcastStatus`; BroadcastEffect states its effect |
| Messenger.Dispatch | InstantMessengerServer.java:56-66 | definition of what one parsed line does; IgnoredLine, MalformedEndsSession and DispatchPhase state its effect |
| Messenger.Close | InstantMessengerServer.java:73-82 | definition of closing the socket and removing the name; CloseValid and TeardownEffect state its effect |
| Messenger.Teardown | InstantMessengerServer.java:73-85 | definition of the whole finally block; TeardownEffect and FailedLoginEvicts state its effect |
| Messenger.CommandLoop | InstantMessengerServer.java:54-86 | definition of the read loop of one session over its lines, ending in the finally block; Server.LoopStep and Server.Server.Serve state its steps and prove the loop equal to it |
| Messenger.HandlerRun | InstantMessengerServer.java:35-87 | definition of one whole `run()` with no other session acting in between; Server.Server.Run is proved equal to it |
| Messenger.Next | InstantMessengerServer.java:35-87 | definition of one step of one handler (a connection, a read, or the finally block); NextValid and ClosedReceivesNothing state what every step keeps |
| Server.LoopStep | InstantMessengerServer.java:56-67 | one loop iteration: a line that does not throw leaves the session in the loop for the remaining lines, and one that throws leaves only the finally block |
| Messenger.Payload | InstantMessengerServer.java:134-141 | definition of what the copy loop writes for a file; PayloadBytes states that it is exactly the file's bytes |
| Messenger.StreamBytes | InstantMessengerServer.java:134-143 | definition of the bytes a sequence of writes puts on a stream; PayloadBytes uses it |
| MessengerProperties.AuthenticateStored | InstantMessengerServer.java:90-93 | credentials match exactly when the (name, password) pair is stored; a null name or password never matches |
| MessengerProperties.SampleLogins | InstantMessengerServer.java:13-14 | with the accounts `main` creates, exactly `user1`/`password1` and `user2`/`password2` log in |
| MessengerProperties.ValidInjective | InstantMessengerServer.java:49 | in every valid state, no two registered names map to the same session |
| MessengerProperties.RegisteredHaveOutboxes | InstantMessengerServer.java:162 | in every valid state, each socket the registry holds belongs to a session that is not closed and has an output stream |
| MessengerProperties.InitValid | InstantMessengerServer.java:7-14 | the start-up state, with any credentials and any files not named by the empty path, satisfies the registry invariant |
| MessengerProperties.AcceptValid | InstantMessengerServer.java:17-41 | accepting a connection keeps the invariant |
| MessengerProperties.ReceiveUsernameValid | InstantMessengerServer.java:42-43 | storing the unchecked username keeps the invariant |
| MessengerProperties.ReceivePasswordValid | InstantMessengerServer.java:44-70 | the password step keeps the invariant on success and on failure |
| MessengerProperties.SendMessageValid | InstantMessengerServer.java:96-110 | `sendMessage` keeps the invariant |
| MessengerProperties.SendFileValid | InstantMessengerServer.java:113-156 | `sendFile` keeps the invariant |
| MessengerProperties.TeardownValid | InstantMessengerServer.java:73-85 | the finally block keeps the invariant |
| MessengerProperties.BroadcastValid | InstantMessengerServer.java:159-171 | a status broadcast keeps the registry invariant |
| MessengerProperties.RegisterValid | InstantMessengerServer.java:47-49 | the success line and the registry put keep the invariant, even when the put replaces another session |
| MessengerProperties.DispatchValid | InstantMessengerServer.java:56-66 | dispatching any command keeps the invariant |
| MessengerProperties.CloseValid | InstantMessengerServer.java:73-82 | closing the socket and removing the name keeps the invariant, whichever session the name maps to |
| MessengerProperties.NextValid | InstantMessengerServer.java:35-87 | every transition of a handler keeps the registry invariant |
| MessengerProperties.RunValid | InstantMessengerServer.java:35-87 | any possible sequence of events keeps the invariant |
| MessengerProperties.ReachableValid | InstantMessengerServer.java:10-19 | every state reachable from start-up satisfies the invariant |
| MessengerProperties.LoginSucceeds | InstantMessengerServer.java:46-51 | a successful login maps the name to this session (overwriting), writes the success line and then exactly one online status to every registered session including itself, and changes no other outbox |
| MessengerProperties.LoginFails | InstantMessengerServer.java:68-70 | a failed login leaves the registry unchanged and writes only the goodbye line, to this session |
| MessengerProperties.LoginRegistersIffAuthenticated | InstantMessengerServer.java:46-49 | after the password step the session is registered exactly when the credentials matched |
| MessengerProperties.DuplicateLoginOverwrites | InstantMessengerServer.java:49 | a second login under an online name drops the earlier session from the registry without telling it or closing it |
| MessengerProperties.TeardownEffect | InstantMessengerServer.java:73-85 | teardown removes the name (a no-op when absent), sends one offline status to each session still registered, nothing to the departing one, and nothing at all when the username is null |
| MessengerProperties.FailedLoginEvicts | InstantMessengerServer.java:42-84 | the teardown after a failed login removes a live session logged in under the same name, which is told nothing |
| MessengerProperties.SendMessageEffect | InstantMessengerServer.java:96-110 | a registered recipient gets exactly one `Message from` line and nobody else anything; otherwise only the sender is told the user is not online; the registry is unchanged |
| MessengerProperties.SendFileEffect | InstantMessengerServer.java:113-156 | an absent recipient is reported before a missing file; a missing file leaves the recipient untouched; otherwise the recipient gets the header with the name as given, then the bytes, and then the sender gets the success line |
| MessengerProperties.PayloadBytes | InstantMessengerServer.java:134-143 | the copy puts exactly the file's bytes on the stream, in at most one write, and nothing for an empty file |
| MessengerProperties.BroadcastEffect | InstantMessengerServer.java:159-171 | a broadcast writes the status line once to every registered session, to no other, and leaves the registry alone |
| MessengerProperties.IgnoredLine | InstantMessengerServer.java:56-66 | a line starting with neither `SEND` nor `FILE` changes nothing and writes nothing |
| MessengerProperties.MalformedEndsSession | InstantMessengerServer.java:58-85 | a command line too short for its `split` writes nothing and leaves the session able only to run its finally block |
| MessengerProperties.ClosedReceivesNothing | InstantMessengerServer.java:79-85 | once a session's finally block has run, no transition writes to it |
| MessengerProperties.ClosedUnregistered | InstantMessengerServer.java:79-81 | in a valid state a closed session is no value of the registry |
| MessengerProperties.DispatchSparesClosed | InstantMessengerServer.java:96-156 | a command of another session never writes to a session the registry does not hold |
| Messenger.DispatchPhase | InstantMessengerServer.java:56-67 | a command changes no session's phase, except that a line whose `split` throws leaves this session's loop |
| Server.Server.constructor | InstantMessengerServer.java:7-14 | the server starts with the given credentials and files, an empty registry and no sessions |
| Server.Server.Accept | InstantMessengerServer.java:18-41 | a new session is created and prompted for its username |
| Server.Server.ReceiveUsername | InstantMessengerServer.java:42-43 | the username is stored as read, before any check, and the password prompt is written |
| Server.Server.Write | InstantMessengerServer.java:41-47 | `println` on this session's stream appends exactly the given chunks to its outbox and changes nothing else |
| Server.Server.ReceivePassword | InstantMessengerServer.java:44-70 | returns the authentication result, which holds exactly when the session ends up registered, and makes the login transition |
| Server.Server.BroadcastStatus | InstantMessengerServer.java:159-171 | the loop over the registry writes the status line once to each registered session and changes nothing else |
| Server.Server.WriteToRegistered | InstantMessengerServer.java:162-169 | the loop over the registry's sockets leaves every registered session with one more copy of the line and every other outbox unchanged |
| Server.Server.SendMessage | InstantMessengerServer.java:96-110 | performs the `sendMessage` transition and keeps the invariant |
| Server.Server.SendFile | InstantMessengerServer.java:113-156 | performs the `sendFile` transition (header, then bytes, then the sender's confirmation) and keeps the invariant |
| Server.Server.HandleLine | InstantMessengerServer.java:56-66 | dispatches one line; the loop goes on exactly when the line did not throw |
| Server.Server.Teardown | InstantMessengerServer.java:73-85 | performs the finally block and keeps the invariant |
| Server.Server.Run | InstantMessengerServer.java:35-87 | one whole `run()` for a client sending a name, a password and lines ends with the session closed, in the state `HandlerRun` defines |
| Server.Server.Serve | InstantMessengerServer.java:54-86 | the read loop dispatches line after line until the input ends or a line throws, then runs the finally block; the session ends closed and the invariant holds |
| Client.SavedFilename | InstantMessengerClient.java:45 | the saved name is `received_` followed by the longest suffix of the file name that holds no `/` |
| Client.SavedFilenameNoSlash | InstantMessengerClient.java:45 | a name without `/` is kept whole behind the prefix |
| Client.SavedFilenameAfterSlash | InstantMessengerClient.java:45 | a path made of any directory, a `/` and a slash-free name is saved as the prefix followed by that name |
| Client.FilterMatchesServer | InstantMessengerClient.java:73-78 | a typed line is sent exactly when the server would act on it rather than ignore it |
| Client.IsCommand | InstantMessengerClient.java:73 | definition of the console filter; FilterMatchesServer relates it to the server |
| Client.IsExit | InstantMessengerClient.java:72 | definition of `equalsIgnoreCase("exit")`, the Unicode `i` variants included; IsExitAscii and ExitExamples state its meaning |
| Client.LoginAccepted | InstantMessengerClient.java:28 | definition of the login check; LoginResponses states its answer on both server replies |
| Client.Receive | InstantMessengerClient.java:37-45 | definition of what the listener does with one line; ReceiveFields, HeaderRoundTrip and the Shown lemmas state its answer |
| Client.IsExitAscii | InstantMessengerClient.java:72 | for ASCII input, the loop stops exactly when the line in lower case is `exit` |
| Client.ExitExamples | InstantMessengerClient.java:72 | `exit` in any case stops the loop, and so do the Unicode variants of `i` that Java's case-insensitive comparison accepts; `exit ` and `quit` do not |
| Client.LoginResponses | InstantMessengerClient.java:25-30 | the client goes on after the server's success line and stops after its failure line |
| Client.ReceiveFields | InstantMessengerClient.java:37-40 | a server line is a file offer exactly when it starts with `FILE_FROM` and `split(" ")` has a third element; sender and file name are fields two and three |
| Client.HeaderRoundTrip | InstantMessengerClient.java:37-45 | a header written for a space-free sender and a non-empty, space-free file name is read back as that sender and that file |
| Client.RelayedFileUnderstood | InstantMessengerClient.java:37-40 | for a sender whose name holds no space, the file name of any server-side `FILE` command, if non-empty, comes back unchanged in the header the recipient reads |
| Client.MessageShown | InstantMessengerClient.java:59-61 | a relayed message is printed, never taken for a file offer |
| Client.StatusShown | InstantMessengerClient.java:59-61 | status lines are printed, never taken for a file offer |
| Client.RepliesShown | InstantMessengerClient.java:59-61 | the not-online, file-sent and file-not-found replies are printed, never taken for a file offer |

## Left out

- Sockets, streams and `ServerSocket.accept`: each session's output is its outbox, and each read is an event carrying the line, or `None` at end of stream.
- Threads and `synchronized`: each locked block is one atomic step. Interleavings of sessions are modelled only as the order of events. Interleaving of text and bytes inside one write is not modelled.
- `socket.close()` in the finally block runs before, and outside, the locked remove-and-broadcast; the model merges the two into one step (`Close`). So it does not show the window in which the registry still holds a closed socket, where a `sendMessage` to that user fails and its sender gets `Error sending message to ...`.
- The 4096-byte copy loop: the payload is the file's whole byte sequence, as one chunk.
- `System.out` logging and `printStackTrace`: they have no effect on the protocol.
- IOExceptions on writes (`Error sending message to ...`, `Error sending file: ...`, and the exception swallowed in the broadcast): the model assumes every write succeeds.
- An IOException on a read is modelled as the `Disconnect` event: the session goes to its finally block. In the command loop this is the same as end of stream. At the username and password reads, end of stream is instead a `None` line (`UsernameRead(id, None)`, `PasswordRead(id, None)`), after which `run()` goes on to the password prompt or the failure line.
- A path that exists but cannot be read (a directory, for instance): the file system is a map, and a name in it is always readable.
- The client's `Scanner` input, its printing, and the loop that saves received bytes: once a file offer is read, the client saves all remaining bytes of the stream and then closes it. Only the decision is modelled, not the saving.
- A `null` login response, which makes the client throw: only string responses are modelled.
- Client.Receive: `ListenerDies` stands for the uncaught index exception that ends the listener thread on a short `FILE_FROM` line. What the thread prints is not modelled.
- Client.HeaderRoundTrip: needs a space-free sender and a non-empty file name. A user name with a space would shift the fields. The server never sends an empty file name: `new File("").exists()` is false, so `Init` requires that no file has the empty name, and `Valid` keeps it.
- `split` with a general regular expression: the model covers only the single-space pattern the program uses.
