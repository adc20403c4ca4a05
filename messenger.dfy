/**
  The server of InstantMessengerServer.java as a sequential state machine.

  Every registry read or write in the server runs inside
  `synchronized (activeClients)`, so each step below is one atomic
  transition.  A session (one `ClientHandler` thread and its socket) is
  identified by a `SessionId`; its `Handler` record holds the `username`
  field and the point its `run()` method has reached.  Each session's
  outbox is everything written to its socket, in order.
 */
module Messenger {
  import opened Wrappers
  import opened Protocol

  newtype byte = b: int | 0 <= b < 256

  /** Stands for the `Socket` of one accepted connection. */
  type SessionId = nat

  /** One write to a socket: a `println` line, or raw bytes of a file. */
  datatype Chunk = Line(text: string) | Bytes(data: seq<byte>)

  /** How far `ClientHandler.run()` has got. */
  datatype Phase =
    | AwaitingUsername   // "Enter username:" written, reading the username
    | AwaitingPassword   // "Enter password:" written, reading the password
    | Active             // registered, in the command loop
    | Finishing          // the try block was left; only the finally block remains
    | Closed             // the finally block has run

  /** The fields of one `ClientHandler`; `None` is a `null` username. */
  datatype Handler = Handler(username: Option<string>, phase: Phase)

  datatype ServerState = ServerState(
    userDatabase: map<string, string>,
    activeClients: map<string, SessionId>,
    handlers: map<SessionId, Handler>,
    outboxes: map<SessionId, seq<Chunk>>,
    files: map<string, seq<byte>>,
    nextId: SessionId)

  /** The two accounts `main` puts into `userDatabase`. */
  const SampleUsers: map<string, string> := map["user1" := "password1", "user2" := "password2"]

  /**
    The start-up state.  `files` stands for the files `new File(name).exists()`
    finds; the empty path names no file, so it is never a key.
   */
  function Init(userDatabase: map<string, string>, files: map<string, seq<byte>>): ServerState
    requires "" !in files
  {
    ServerState(userDatabase, map[], map[], map[], files, 0)
  }

  /**
    `authenticate`: the name is a key of the credential map and the stored
    password equals the one given; a `null` name or password never matches.
   */
  predicate Authenticate(userDatabase: map<string, string>, username: Option<string>, password: Option<string>)
  {
    username.Some? && username.value in userDatabase
    && password.Some? && userDatabase[username.value] == password.value
  }

  /** The outbox of `id`, empty when nothing was ever written to it. */
  function OutboxOf(outboxes: map<SessionId, seq<Chunk>>, id: SessionId): seq<Chunk>
  {
    if id in outboxes then outboxes[id] else []
  }

  /** Writes `chunks` to session `id`, after whatever it already received. */
  function Emit(outboxes: map<SessionId, seq<Chunk>>, id: SessionId, chunks: seq<Chunk>): map<SessionId, seq<Chunk>>
  {
    outboxes[id := OutboxOf(outboxes, id) + chunks]
  }

  /** Writes `line` once to each session of `targets`. */
  function Deliver(outboxes: map<SessionId, seq<Chunk>>, targets: set<SessionId>, line: string): map<SessionId, seq<Chunk>>
  {
    map id | id in outboxes :: if id in targets then outboxes[id] + [Line(line)] else outboxes[id]
  }

  /** Writes `line` once to every session the registry holds. */
  function Broadcast(outboxes: map<SessionId, seq<Chunk>>, activeClients: map<string, SessionId>, line: string): map<SessionId, seq<Chunk>>
  {
    Deliver(outboxes, activeClients.Values, line)
  }

  /** The raw bytes of a file as written by the copy loop; an empty file writes nothing. */
  function Payload(data: seq<byte>): seq<Chunk>
  {
    if data == [] then [] else [Bytes(data)]
  }

  /** The raw bytes a sequence of writes puts on a stream, text lines left aside. */
  function StreamBytes(chunks: seq<Chunk>): seq<byte>
  {
    if chunks == [] then []
    else (if chunks[0].Bytes? then chunks[0].data else []) + StreamBytes(chunks[1..])
  }

  /** `broadcastStatus(status)` */
  function BroadcastStatus(s: ServerState, status: string): ServerState
  {
    s.(outboxes := Broadcast(s.outboxes, s.activeClients, StatusLine(status)))
  }

  /** A connection is accepted and its thread prompts for the username; the new session is `s.nextId`. */
  function Accept(s: ServerState): ServerState
  {
    s.(handlers := s.handlers[s.nextId := Handler(None, AwaitingUsername)],
       outboxes := s.outboxes[s.nextId := [Line(EnterUsername)]],
       nextId := s.nextId + 1)
  }

  /** The username line arrives (`None` at end of stream); it is stored before any check. */
  function ReceiveUsername(s: ServerState, id: SessionId, line: Option<string>): ServerState
    requires id in s.handlers && s.handlers[id].phase == AwaitingUsername
  {
    s.(handlers := s.handlers[id := Handler(line, AwaitingPassword)],
       outboxes := Emit(s.outboxes, id, [Line(EnterPassword)]))
  }

  /**
    The success line and `activeClients.put(username, socket)`: the state
    the online broadcast starts from.  An earlier entry for the name is replaced.
   */
  function Register(s: ServerState, id: SessionId): ServerState
    requires id in s.handlers && s.handlers[id].username.Some?
  {
    var h := s.handlers[id];
    s.(handlers := s.handlers[id := h.(phase := Active)],
       outboxes := Emit(s.outboxes, id, [Line(AuthSuccess)]),
       activeClients := s.activeClients[h.username.value := id])
  }

  /**
    The password line arrives.  On success the session is told so,
    registered under its name, and everyone registered is told it is online;
    otherwise it is told goodbye and only the finally block remains.
   */
  function ReceivePassword(s: ServerState, id: SessionId, password: Option<string>): ServerState
    requires id in s.handlers && s.handlers[id].phase == AwaitingPassword
  {
    var h := s.handlers[id];
    if Authenticate(s.userDatabase, h.username, password) then
      BroadcastStatus(Register(s, id), OnlineStatus(h.username.value))
    else
      s.(handlers := s.handlers[id := h.(phase := Finishing)],
         outboxes := Emit(s.outboxes, id, [Line(AuthFailure)]))
  }

  /** Session `id` may issue commands: it is in the command loop with a name. */
  predicate CanDispatch(s: ServerState, id: SessionId)
  {
    id in s.handlers && s.handlers[id].phase == Active && s.handlers[id].username.Some?
  }

  /** `sendMessage(recipient, text)` issued by session `id`. */
  function SendMessage(s: ServerState, id: SessionId, recipient: string, text: string): ServerState
    requires CanDispatch(s, id)
  {
    var sender := s.handlers[id].username.value;
    if recipient in s.activeClients then
      s.(outboxes := Emit(s.outboxes, s.activeClients[recipient], [Line(MessageFrom(sender, text))]))
    else
      s.(outboxes := Emit(s.outboxes, id, [Line(NotOnline(recipient))]))
  }

  /** `sendFile(recipient, filename)` issued by session `id`. */
  function SendFile(s: ServerState, id: SessionId, recipient: string, filename: string): ServerState
    requires CanDispatch(s, id)
  {
    var sender := s.handlers[id].username.value;
    if recipient !in s.activeClients then
      s.(outboxes := Emit(s.outboxes, id, [Line(NotOnline(recipient))]))
    else if filename !in s.files then
      s.(outboxes := Emit(s.outboxes, id, [Line(FileNotFound)]))
    else
      var delivered := Emit(s.outboxes, s.activeClients[recipient],
                            [Line(FileHeader(sender, filename))] + Payload(s.files[filename]));
      s.(outboxes := Emit(delivered, id, [Line(FileSent(recipient))]))
  }

  /** What the command loop does with one line, once `ParseCommand` has read it. */
  function Dispatch(s: ServerState, id: SessionId, command: Command): ServerState
    requires CanDispatch(s, id)
  {
    match command
    case Send(recipient, text) => SendMessage(s, id, recipient, text)
    case File(recipient, filename) => SendFile(s, id, recipient, filename)
    case Ignored => s
    case Malformed => s.(handlers := s.handlers[id := s.handlers[id].(phase := Finishing)])
  }

  /**
    The first part of the finally block: the socket is closed and, when the
    session's username is not null, that name is removed from the registry,
    whichever session it maps to.
   */
  function Close(s: ServerState, id: SessionId): ServerState
    requires id in s.handlers
  {
    var h := s.handlers[id];
    var closed := s.(handlers := s.handlers[id := h.(phase := Closed)]);
    match h.username
    case None => closed
    case Some(user) => closed.(activeClients := closed.activeClients - {user})
  }

  /** The finally block: `Close`, then, for a non-null username, the offline broadcast. */
  function Teardown(s: ServerState, id: SessionId): ServerState
    requires id in s.handlers && s.handlers[id].phase != Closed
  {
    match s.handlers[id].username
    case None => Close(s, id)
    case Some(user) => BroadcastStatus(Close(s, id), OfflineStatus(user))
  }

  /** Dispatching a command changes no session, except that a line which throws leaves the loop. */
  lemma DispatchPhase(s: ServerState, id: SessionId, command: Command)
    requires CanDispatch(s, id)
    ensures Dispatch(s, id, command).handlers ==
      if command == Malformed then s.handlers[id := s.handlers[id].(phase := Finishing)] else s.handlers
  {
  }

  /**
    The command loop of session `id` over the lines its client sends, when
    no other session acts in between: each line is dispatched until one
    throws, and the finally block runs when the loop ends either way.
   */
  function CommandLoop(s: ServerState, id: SessionId, lines: seq<string>): ServerState
    requires CanDispatch(s, id)
    decreases |lines|
  {
    if lines == [] then Teardown(s, id)
    else
      var command := ParseCommand(lines[0]);
      DispatchPhase(s, id, command);
      var t := Dispatch(s, id, command);
      if command == Malformed then Teardown(t, id)
      else CommandLoop(t, id, lines[1..])
  }

  /**
    One whole `ClientHandler.run()` for a client that sends a username, a
    password and then `lines`, with no other session acting in between.
   */
  function HandlerRun(s: ServerState, username: Option<string>, password: Option<string>, lines: seq<string>): ServerState
  {
    var id := s.nextId;
    var prompted := ReceiveUsername(Accept(s), id, username);
    var checked := ReceivePassword(prompted, id, password);
    if checked.handlers[id].phase == Active then CommandLoop(checked, id, lines)
    else Teardown(checked, id)
  }

  /** What can happen next to the server: a connection, or one read by one session. */
  datatype Event =
    | Connect
    | UsernameRead(id: SessionId, line: Option<string>)
    | PasswordRead(id: SessionId, line: Option<string>)
    | CommandRead(id: SessionId, command: string)
    | Disconnect(id: SessionId)   // end of stream in the loop, or an IOException on any read

  predicate Enabled(s: ServerState, e: Event)
  {
    match e
    case Connect => true
    case UsernameRead(id, _) => id in s.handlers && s.handlers[id].phase == AwaitingUsername
    case PasswordRead(id, _) => id in s.handlers && s.handlers[id].phase == AwaitingPassword
    case CommandRead(id, _) => CanDispatch(s, id)
    case Disconnect(id) => id in s.handlers && s.handlers[id].phase != Closed
  }

  function Next(s: ServerState, e: Event): ServerState
    requires Enabled(s, e)
  {
    match e
    case Connect => Accept(s)
    case UsernameRead(id, line) => ReceiveUsername(s, id, line)
    case PasswordRead(id, line) => ReceivePassword(s, id, line)
    case CommandRead(id, line) => Dispatch(s, id, ParseCommand(line))
    case Disconnect(id) => Teardown(s, id)
  }

  /** `events` can happen one after the other from `s`. */
  predicate Possible(s: ServerState, events: seq<Event>)
    decreases |events|
  {
    events == [] || (Enabled(s, events[0]) && Possible(Next(s, events[0]), events[1..]))
  }

  function Run(s: ServerState, events: seq<Event>): ServerState
    requires Possible(s, events)
    decreases |events|
  {
    if events == [] then s else Run(Next(s, events[0]), events[1..])
  }

  /**
    The invariant of reachable states: sessions and outboxes match, ids are
    below the next one to hand out, every registry entry `u -> id` names a
    live session whose username is `u` and which logged in, every session
    in the command loop has a name, and no file has the empty name.
   */
  ghost predicate Valid(s: ServerState)
  {
    && "" !in s.files
    && s.handlers.Keys == s.outboxes.Keys
    && (forall id | id in s.handlers :: id < s.nextId)
    && (forall u | u in s.activeClients ::
          && s.activeClients[u] in s.handlers
          && s.handlers[s.activeClients[u]].username == Some(u)
          && s.handlers[s.activeClients[u]].phase in {Active, Finishing})
    && (forall id | id in s.handlers && s.handlers[id].phase == Active :: s.handlers[id].username.Some?)
  }

  /** No two usernames map to the same session. */
  ghost predicate Injective(m: map<string, SessionId>)
  {
    forall u, v | u in m && v in m && u != v :: m[u] != m[v]
  }
}
