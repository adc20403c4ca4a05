/** What the server's transitions guarantee. */
module MessengerProperties {
  import opened Wrappers
  import opened JavaStrings
  import opened Protocol
  import opened Messenger

  /**
    Credentials match exactly when the pair is one of the stored entries;
    a missing name or password never matches.
   */
  lemma AuthenticateStored(userDatabase: map<string, string>, username: Option<string>, password: Option<string>)
    ensures Authenticate(userDatabase, username, password) <==>
      username.Some? && password.Some? && (username.value, password.value) in userDatabase.Items
  {
    if username.Some? && password.Some? && (username.value, password.value) in userDatabase.Items {
      assert username.value in userDatabase;
    }
  }

  /** With the accounts `main` creates, exactly two name and password pairs log in. */
  lemma SampleLogins(username: string, password: string)
    ensures Authenticate(SampleUsers, Some(username), Some(password)) <==>
      (username == "user1" && password == "password1") || (username == "user2" && password == "password2")
  {
  }

  /** Registry entries and sessions are one-to-one: the name decides the session. */
  lemma ValidInjective(s: ServerState)
    requires Valid(s)
    ensures Injective(s.activeClients)
  {
    forall u, v | u in s.activeClients && v in s.activeClients && u != v
      ensures s.activeClients[u] != s.activeClients[v]
    {
      assert s.handlers[s.activeClients[u]].username == Some(u);
      assert s.handlers[s.activeClients[v]].username == Some(v);
    }
  }

  /** Every socket the registry holds is a live session, with an outbox. */
  lemma RegisteredHaveOutboxes(s: ServerState)
    requires Valid(s)
    ensures forall u | u in s.activeClients ::
      && s.activeClients[u] in s.outboxes
      && s.activeClients[u] in s.handlers
      && s.handlers[s.activeClients[u]].phase != Closed
  {
  }

  /** A broadcast creates and removes no outbox: the set of sessions with an outbox is unchanged. */
  lemma BroadcastKeys(outboxes: map<SessionId, seq<Chunk>>, activeClients: map<string, SessionId>, line: string)
    ensures Broadcast(outboxes, activeClients, line).Keys == outboxes.Keys
  {
  }

  lemma InitValid(userDatabase: map<string, string>, files: map<string, seq<byte>>)
    requires "" !in files
    ensures Valid(Init(userDatabase, files))
  {
  }

  lemma AcceptValid(s: ServerState)
    requires Valid(s)
    ensures Valid(Accept(s))
  {
    var t := Accept(s);
    forall u | u in t.activeClients
      ensures t.handlers[t.activeClients[u]] == s.handlers[s.activeClients[u]]
    {
      assert s.activeClients[u] < s.nextId;
    }
  }

  lemma ReceiveUsernameValid(s: ServerState, id: SessionId, line: Option<string>)
    requires Valid(s)
    requires id in s.handlers && s.handlers[id].phase == AwaitingUsername
    ensures Valid(ReceiveUsername(s, id, line))
  {
  }

  lemma BroadcastValid(s: ServerState, status: string)
    requires Valid(s)
    ensures Valid(BroadcastStatus(s, status))
  {
    BroadcastKeys(s.outboxes, s.activeClients, StatusLine(status));
  }

  lemma RegisterValid(s: ServerState, id: SessionId)
    requires Valid(s)
    requires id in s.handlers && s.handlers[id].phase == AwaitingPassword && s.handlers[id].username.Some?
    ensures Valid(Register(s, id))
  {
  }

  lemma ReceivePasswordValid(s: ServerState, id: SessionId, password: Option<string>)
    requires Valid(s)
    requires id in s.handlers && s.handlers[id].phase == AwaitingPassword
    ensures Valid(ReceivePassword(s, id, password))
  {
    var h := s.handlers[id];
    if Authenticate(s.userDatabase, h.username, password) {
      RegisterValid(s, id);
      BroadcastValid(Register(s, id), OnlineStatus(h.username.value));
    }
  }

  lemma DispatchValid(s: ServerState, id: SessionId, command: Command)
    requires Valid(s) && CanDispatch(s, id)
    ensures Valid(Dispatch(s, id, command))
  {
    match command
    case Send(recipient, text) => SendMessageValid(s, id, recipient, text);
    case File(recipient, filename) => SendFileValid(s, id, recipient, filename);
    case Ignored =>
    case Malformed =>
  }

  lemma SendMessageValid(s: ServerState, id: SessionId, recipient: string, text: string)
    requires Valid(s) && CanDispatch(s, id)
    ensures Valid(SendMessage(s, id, recipient, text))
  {
  }

  lemma SendFileValid(s: ServerState, id: SessionId, recipient: string, filename: string)
    requires Valid(s) && CanDispatch(s, id)
    ensures Valid(SendFile(s, id, recipient, filename))
  {
  }

  lemma CloseValid(s: ServerState, id: SessionId)
    requires Valid(s)
    requires id in s.handlers && s.handlers[id].phase != Closed
    ensures Valid(Close(s, id))
  {
  }

  lemma TeardownValid(s: ServerState, id: SessionId)
    requires Valid(s)
    requires id in s.handlers && s.handlers[id].phase != Closed
    ensures Valid(Teardown(s, id))
  {
    CloseValid(s, id);
    match s.handlers[id].username
    case None =>
    case Some(user) => BroadcastValid(Close(s, id), OfflineStatus(user));
  }

  /** Every transition keeps the invariant. */
  lemma NextValid(s: ServerState, e: Event)
    requires Valid(s) && Enabled(s, e)
    ensures Valid(Next(s, e))
  {
    match e
    case Connect => AcceptValid(s);
    case UsernameRead(id, line) => ReceiveUsernameValid(s, id, line);
    case PasswordRead(id, line) => ReceivePasswordValid(s, id, line);
    case CommandRead(id, line) => DispatchValid(s, id, ParseCommand(line));
    case Disconnect(id) => TeardownValid(s, id);
  }

  /** Every state the server can reach from start-up satisfies the invariant. */
  lemma {:induction false} RunValid(s: ServerState, events: seq<Event>)
    requires Valid(s) && Possible(s, events)
    ensures Valid(Run(s, events))
    decreases |events|
  {
    if events != [] {
      NextValid(s, events[0]);
      RunValid(Next(s, events[0]), events[1..]);
    }
  }

  lemma ReachableValid(userDatabase: map<string, string>, files: map<string, seq<byte>>, events: seq<Event>)
    requires "" !in files
    requires Possible(Init(userDatabase, files), events)
    ensures Valid(Run(Init(userDatabase, files), events))
  {
    InitValid(userDatabase, files);
    RunValid(Init(userDatabase, files), events);
  }

  /**
    A successful login `put`s the session under its name, replacing any
    earlier entry for that name.  The session is told it logged in, then every
    session now registered, itself included, receives exactly one online
    status line; no other outbox changes.
   */
  lemma LoginSucceeds(s: ServerState, id: SessionId, password: Option<string>)
    requires Valid(s)
    requires id in s.handlers && s.handlers[id].phase == AwaitingPassword
    requires Authenticate(s.userDatabase, s.handlers[id].username, password)
    ensures var user := s.handlers[id].username.value;
      var t := ReceivePassword(s, id, password);
      && t.activeClients == s.activeClients[user := id]
      && t.handlers == s.handlers[id := Handler(Some(user), Active)]
      && t.outboxes.Keys == s.outboxes.Keys
      && t.outboxes[id] == s.outboxes[id] + [Line(AuthSuccess), Line(StatusLine(OnlineStatus(user)))]
      && (forall other | other in s.outboxes && other != id ::
            t.outboxes[other] == if other in t.activeClients.Values
                                 then s.outboxes[other] + [Line(StatusLine(OnlineStatus(user)))]
                                 else s.outboxes[other])
  {
    var user := s.handlers[id].username.value;
    var t := ReceivePassword(s, id, password);
    assert id in t.activeClients.Values by { assert t.activeClients[user] == id; }
  }

  /**
    A failed login leaves the registry as it was; the session alone is told
    goodbye, and only its finally block remains.
   */
  lemma LoginFails(s: ServerState, id: SessionId, password: Option<string>)
    requires id in s.handlers && s.handlers[id].phase == AwaitingPassword
    requires !Authenticate(s.userDatabase, s.handlers[id].username, password)
    ensures var t := ReceivePassword(s, id, password);
      && t.activeClients == s.activeClients
      && t.handlers == s.handlers[id := s.handlers[id].(phase := Finishing)]
      && t.outboxes == s.outboxes[id := OutboxOf(s.outboxes, id) + [Line(AuthFailure)]]
  {
  }

  /** After the password step the session is registered exactly when the credentials matched. */
  lemma LoginRegistersIffAuthenticated(s: ServerState, id: SessionId, password: Option<string>)
    requires Valid(s)
    requires id in s.handlers && s.handlers[id].phase == AwaitingPassword
    ensures id in ReceivePassword(s, id, password).activeClients.Values
        <==> Authenticate(s.userDatabase, s.handlers[id].username, password)
  {
    var t := ReceivePassword(s, id, password);
    if Authenticate(s.userDatabase, s.handlers[id].username, password) {
      assert t.activeClients[s.handlers[id].username.value] == id;
    }
  }

  /**
    A second login under a name already online does not fail: the earlier
    session stays in its command loop but leaves the registry, and it is not
    told about the new login.
   */
  lemma DuplicateLoginOverwrites(s: ServerState, earlier: SessionId, id: SessionId, password: Option<string>)
    requires Valid(s)
    requires id in s.handlers && s.handlers[id].phase == AwaitingPassword
    requires Authenticate(s.userDatabase, s.handlers[id].username, password)
    requires s.handlers[id].username.value in s.activeClients
    requires s.activeClients[s.handlers[id].username.value] == earlier
    ensures var t := ReceivePassword(s, id, password);
      && earlier != id
      && earlier !in t.activeClients.Values
      && t.handlers[earlier] == s.handlers[earlier]
      && t.outboxes[earlier] == s.outboxes[earlier]
  {
    var user := s.handlers[id].username.value;
    var t := ReceivePassword(s, id, password);
    ValidInjective(s);
  }

  /**
    The finally block of a session with a username `u` removes the key `u`
    and tells every session still registered, once, that `u` is offline; the
    departing session receives nothing.  Removing a name that is not
    registered leaves the registry unchanged, so a second teardown under the
    same name changes nothing in it.  A session whose username is null changes
    neither the registry nor any outbox.
   */
  lemma TeardownEffect(s: ServerState, id: SessionId)
    requires Valid(s)
    requires id in s.handlers && s.handlers[id].phase != Closed
    ensures var t := Teardown(s, id);
      && t.handlers == s.handlers[id := s.handlers[id].(phase := Closed)]
      && t.outboxes.Keys == s.outboxes.Keys
      && t.outboxes[id] == s.outboxes[id]
      && match s.handlers[id].username
         case None => t.activeClients == s.activeClients && t.outboxes == s.outboxes
         case Some(user) =>
           && t.activeClients == s.activeClients - {user}
           && (user !in s.activeClients ==> t.activeClients == s.activeClients)
           && (forall other | other in s.outboxes && other != id ::
                 t.outboxes[other] == if other in t.activeClients.Values
                                      then s.outboxes[other] + [Line(StatusLine(OfflineStatus(user)))]
                                      else s.outboxes[other])
  {
    var t := Teardown(s, id);
  }

  /**
    A session whose login failed still runs the finally block with the name
    it sent, so it evicts a session logged in under that name: the name
    leaves the registry, the evicted session is still live and is told nothing.
   */
  lemma FailedLoginEvicts(s: ServerState, victim: SessionId, id: SessionId, password: Option<string>)
    requires Valid(s)
    requires id in s.handlers && s.handlers[id].phase == AwaitingPassword
    requires s.handlers[id].username.Some? && s.handlers[id].username.value in s.activeClients
    requires s.activeClients[s.handlers[id].username.value] == victim
    requires !Authenticate(s.userDatabase, s.handlers[id].username, password)
    ensures var failed := ReceivePassword(s, id, password);
      var t := Teardown(failed, id);
      && s.handlers[id].username.value !in t.activeClients
      && victim != id
      && t.handlers[victim] == s.handlers[victim]
      && t.handlers[victim].phase != Closed
      && t.outboxes[victim] == s.outboxes[victim]
  {
    var failed := ReceivePassword(s, id, password);
    ReceivePasswordValid(s, id, password);
    TeardownEffect(failed, id);
    var t := Teardown(failed, id);
    ValidInjective(s);
  }

  /**
    `sendMessage`: a registered recipient receives exactly one
    `Message from <sender>: <text>` line and nobody else anything; otherwise
    the sender alone is told the recipient is not online.  Neither the
    registry nor any session changes.
   */
  lemma SendMessageEffect(s: ServerState, id: SessionId, recipient: string, text: string)
    requires Valid(s) && CanDispatch(s, id)
    ensures var t := SendMessage(s, id, recipient, text);
      var sender := s.handlers[id].username.value;
      && t.activeClients == s.activeClients && t.handlers == s.handlers
      && t.outboxes.Keys == s.outboxes.Keys
      && (recipient in s.activeClients ==>
            var to := s.activeClients[recipient];
            t.outboxes == s.outboxes[to := s.outboxes[to] + [Line(MessageFrom(sender, text))]])
      && (recipient !in s.activeClients ==>
            t.outboxes == s.outboxes[id := s.outboxes[id] + [Line(NotOnline(recipient))]])
  {
  }

  /**
    `sendFile`: an unregistered recipient is reported first; then a missing
    file is reported and the recipient gets nothing; otherwise the recipient
    receives the header naming the sender and the file as given, then the
    file's bytes, and the sender is then told the file was sent.  The registry
    and the sessions do not change.
   */
  lemma SendFileEffect(s: ServerState, id: SessionId, recipient: string, filename: string)
    requires Valid(s) && CanDispatch(s, id)
    ensures var t := SendFile(s, id, recipient, filename);
      var sender := s.handlers[id].username.value;
      && t.activeClients == s.activeClients && t.handlers == s.handlers
      && t.outboxes.Keys == s.outboxes.Keys
      && (recipient !in s.activeClients ==>
            t.outboxes == s.outboxes[id := s.outboxes[id] + [Line(NotOnline(recipient))]])
      && (recipient in s.activeClients && filename !in s.files ==>
            t.outboxes == s.outboxes[id := s.outboxes[id] + [Line(FileNotFound)]])
      && (recipient in s.activeClients && filename in s.files ==>
            var to := s.activeClients[recipient];
            var delivered := [Line(FileHeader(sender, filename))] + Payload(s.files[filename]);
            && (to != id ==>
                  t.outboxes == s.outboxes[to := s.outboxes[to] + delivered]
                                          [id := s.outboxes[id] + [Line(FileSent(recipient))]])
            && (to == id ==>
                  t.outboxes == s.outboxes[id := s.outboxes[id] + delivered + [Line(FileSent(recipient))]]))
  {
    var t := SendFile(s, id, recipient, filename);
    if recipient in s.activeClients && filename in s.files {
      var sender := s.handlers[id].username.value;
      var to := s.activeClients[recipient];
      var delivered := [Line(FileHeader(sender, filename))] + Payload(s.files[filename]);
      assert to in s.outboxes;
      var mid := Emit(s.outboxes, to, delivered);
      assert mid == s.outboxes[to := s.outboxes[to] + delivered];
      assert t.outboxes == mid[id := mid[id] + [Line(FileSent(recipient))]];
    }
  }

  /** A file's bytes reach the recipient whole and in order. */
  lemma PayloadBytes(data: seq<byte>)
    ensures StreamBytes(Payload(data)) == data
    ensures |Payload(data)| <= 1
    ensures Payload(data) == [] <==> data == []
    ensures forall k | 0 <= k < |Payload(data)| :: Payload(data)[k] == Bytes(data)
  {
    if data != [] {
      assert Payload(data)[1..] == [];
    }
  }

  /** `broadcastStatus` writes once to every registered session and leaves the registry alone. */
  lemma BroadcastEffect(s: ServerState, status: string)
    requires Valid(s)
    ensures var t := BroadcastStatus(s, status);
      && t.activeClients == s.activeClients && t.handlers == s.handlers
      && t.outboxes.Keys == s.outboxes.Keys
      && (forall u | u in s.activeClients ::
            t.outboxes[s.activeClients[u]] == s.outboxes[s.activeClients[u]] + [Line(StatusLine(status))])
      && (forall id | id in s.outboxes && id !in s.activeClients.Values :: t.outboxes[id] == s.outboxes[id])
  {
  }

  /** A line that does not start with `SEND` or `FILE` changes nothing and writes nothing. */
  lemma IgnoredLine(s: ServerState, id: SessionId, line: string)
    requires CanDispatch(s, id)
    requires !StartsWith(line, "SEND") && !StartsWith(line, "FILE")
    ensures Dispatch(s, id, ParseCommand(line)) == s
  {
    ParseIgnored(line);
  }

  /**
    A `SEND` or `FILE` line too short for its `split` throws: nothing is
    written, and the only thing that can still happen to the session is its
    finally block.
   */
  lemma MalformedEndsSession(s: ServerState, id: SessionId, line: string, e: Event)
    requires CanDispatch(s, id)
    requires ParseCommand(line) == Malformed
    requires !e.Connect? && e.id == id
    ensures var t := Dispatch(s, id, ParseCommand(line));
      && t.activeClients == s.activeClients && t.outboxes == s.outboxes
      && (Enabled(t, e) <==> e.Disconnect?)
  {
  }

  /**
    Once its finally block has run, a session receives nothing more: no
    transition writes to a closed socket, because the registry only holds
    live sessions.
   */
  lemma ClosedReceivesNothing(s: ServerState, e: Event, closed: SessionId)
    requires Valid(s) && Enabled(s, e)
    requires closed in s.handlers && s.handlers[closed].phase == Closed
    ensures closed in Next(s, e).outboxes && Next(s, e).outboxes[closed] == s.outboxes[closed]
  {
    ClosedUnregistered(s, closed);
    match e
    case Connect =>
    case UsernameRead(id, line) =>
    case PasswordRead(id, line) =>
    case CommandRead(id, line) => DispatchSparesClosed(s, id, ParseCommand(line), closed);
    case Disconnect(id) =>
  }

  lemma DispatchSparesClosed(s: ServerState, id: SessionId, command: Command, closed: SessionId)
    requires CanDispatch(s, id)
    requires closed in s.outboxes && closed != id && closed !in s.activeClients.Values
    ensures closed in Dispatch(s, id, command).outboxes
    ensures Dispatch(s, id, command).outboxes[closed] == s.outboxes[closed]
  {
    match command
    case Send(recipient, text) =>
    case File(recipient, filename) =>
    case Ignored =>
    case Malformed =>
  }

  /** A closed session is in no registry entry: each entry names a session that logged in and is still live. */
  lemma ClosedUnregistered(s: ServerState, closed: SessionId)
    requires Valid(s)
    requires closed in s.handlers && s.handlers[closed].phase == Closed
    ensures closed !in s.activeClients.Values
  {
    forall u | u in s.activeClients
      ensures s.activeClients[u] != closed
    {
    }
  }
}
