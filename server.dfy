/**
  The server's shared state as one object whose methods update it in place,
  each proved to make exactly the transition the `Messenger` functions define.
 */
module Server {
  import opened Wrappers
  import opened Protocol
  import M = Messenger
  import MessengerProperties

  /** The sessions reached by the registry entries of `names`. */
  ghost function Reached(activeClients: map<string, M.SessionId>, names: set<string>): set<M.SessionId>
  {
    set u | u in names && u in activeClients :: activeClients[u]
  }

  lemma ReachedStep(activeClients: map<string, M.SessionId>, names: set<string>, u: string)
    requires M.Injective(activeClients) && u in activeClients && u !in names
    ensures activeClients[u] !in Reached(activeClients, names)
    ensures Reached(activeClients, names + {u}) == Reached(activeClients, names) + {activeClients[u]}
  {
  }

  lemma ReachedAll(activeClients: map<string, M.SessionId>)
    ensures Reached(activeClients, activeClients.Keys) == activeClients.Values
  {
  }

  lemma DeliverStep(outboxes: map<M.SessionId, seq<M.Chunk>>, targets: set<M.SessionId>, id: M.SessionId, line: string)
    requires id in outboxes && id !in targets
    ensures var before := M.Deliver(outboxes, targets, line);
      && id in before
      && M.Deliver(outboxes, targets + {id}, line) == M.Emit(before, id, [M.Line(line)])
  {
  }

  lemma EmitTwice(outboxes: map<M.SessionId, seq<M.Chunk>>, id: M.SessionId, first: seq<M.Chunk>, second: seq<M.Chunk>)
    ensures M.Emit(M.Emit(outboxes, id, first), id, second) == M.Emit(outboxes, id, first + second)
  {
    assert M.OutboxOf(outboxes, id) + first + second == M.OutboxOf(outboxes, id) + (first + second);
  }

  /** One step of the command loop, as `CommandLoop` unfolds it. */
  lemma LoopStep(s: M.ServerState, id: M.SessionId, lines: seq<string>)
    requires M.CanDispatch(s, id) && lines != []
    ensures var t := M.Dispatch(s, id, ParseCommand(lines[0]));
      && (ParseCommand(lines[0]) != Malformed ==>
            M.CanDispatch(t, id) && M.CommandLoop(s, id, lines) == M.CommandLoop(t, id, lines[1..]))
      && (ParseCommand(lines[0]) == Malformed ==>
            id in t.handlers && t.handlers[id].phase == M.Finishing
            && M.CommandLoop(s, id, lines) == M.Teardown(t, id))
  {
    M.DispatchPhase(s, id, ParseCommand(lines[0]));
  }

  class Server {
    const userDatabase: map<string, string>
    const files: map<string, seq<M.byte>>
    var activeClients: map<string, M.SessionId>
    var handlers: map<M.SessionId, M.Handler>
    var outboxes: map<M.SessionId, seq<M.Chunk>>
    var nextId: M.SessionId

    function State(): M.ServerState
      reads this
    {
      M.ServerState(userDatabase, activeClients, handlers, outboxes, files, nextId)
    }

    ghost predicate Valid()
      reads this
    {
      M.Valid(State())
    }

    constructor (userDatabase: map<string, string>, files: map<string, seq<M.byte>>)
      requires "" !in files
      ensures Valid()
      ensures State() == M.Init(userDatabase, files)
    {
      this.userDatabase := userDatabase;
      this.files := files;
      activeClients := map[];
      handlers := map[];
      outboxes := map[];
      nextId := 0;
    }

    /** A `println` (or one block of file bytes) on the socket of session `id`. */
    method Write(id: M.SessionId, chunks: seq<M.Chunk>)
      requires id in outboxes
      modifies this
      ensures outboxes == M.Emit(old(outboxes), id, chunks)
      ensures activeClients == old(activeClients) && handlers == old(handlers) && nextId == old(nextId)
    {
      outboxes := outboxes[id := outboxes[id] + chunks];
    }

    /** `serverSocket.accept()` and the start of `run()`: a new session is prompted for its name. */
    method Accept() returns (id: M.SessionId)
      requires Valid()
      modifies this
      ensures Valid()
      ensures id == old(nextId) && id in handlers && handlers[id].phase == M.AwaitingUsername
      ensures State() == M.Accept(old(State()))
    {
      MessengerProperties.AcceptValid(State());
      id := nextId;
      handlers := handlers[id := M.Handler(None, M.AwaitingUsername)];
      outboxes := outboxes[id := [M.Line(EnterUsername)]];
      nextId := nextId + 1;
    }

    method ReceiveUsername(id: M.SessionId, line: Option<string>)
      requires Valid()
      requires id in handlers && handlers[id].phase == M.AwaitingUsername
      modifies this
      ensures Valid()
      ensures State() == M.ReceiveUsername(old(State()), id, line)
    {
      MessengerProperties.ReceiveUsernameValid(State(), id, line);
      handlers := handlers[id := M.Handler(line, M.AwaitingPassword)];
      Write(id, [M.Line(EnterPassword)]);
    }

    method ReceivePassword(id: M.SessionId, password: Option<string>) returns (authenticated: bool)
      requires Valid()
      requires id in handlers && handlers[id].phase == M.AwaitingPassword
      modifies this
      ensures Valid()
      ensures authenticated == M.Authenticate(userDatabase, old(handlers[id].username), password)
      ensures authenticated <==> id in activeClients.Values
      ensures id in handlers && handlers[id].phase == if authenticated then M.Active else M.Finishing
      ensures State() == M.ReceivePassword(old(State()), id, password)
    {
      MessengerProperties.ReceivePasswordValid(State(), id, password);
      MessengerProperties.LoginRegistersIffAuthenticated(State(), id, password);
      var h := handlers[id];
      authenticated := M.Authenticate(userDatabase, h.username, password);
      if authenticated {
        MessengerProperties.RegisterValid(State(), id);
        var user := h.username.value;
        Write(id, [M.Line(AuthSuccess)]);
        handlers := handlers[id := h.(phase := M.Active)];
        activeClients := activeClients[user := id];
        assert State() == M.Register(old(State()), id);
        BroadcastStatus(OnlineStatus(user));
      } else {
        Write(id, [M.Line(AuthFailure)]);
        handlers := handlers[id := h.(phase := M.Finishing)];
      }
    }

    /** `broadcastStatus` */
    method BroadcastStatus(status: string)
      requires Valid()
      modifies this
      ensures Valid()
      ensures State() == M.BroadcastStatus(old(State()), status)
    {
      MessengerProperties.ValidInjective(State());
      MessengerProperties.RegisteredHaveOutboxes(State());
      MessengerProperties.BroadcastValid(State(), status);
      WriteToRegistered(StatusLine(status));
    }

    /** The loop of `broadcastStatus` over `activeClients.values()`: `line` goes once to each. */
    method WriteToRegistered(line: string)
      requires M.Injective(activeClients)
      requires forall u | u in activeClients :: activeClients[u] in outboxes
      modifies this
      ensures outboxes == M.Broadcast(old(outboxes), activeClients, line)
      ensures activeClients == old(activeClients) && handlers == old(handlers) && nextId == old(nextId)
    {
      var pending := activeClients.Keys;
      ghost var done: set<string> := {};
      ghost var reached: set<M.SessionId> := {};
      while pending != {}
        invariant activeClients == old(activeClients) && handlers == old(handlers) && nextId == old(nextId)
        invariant pending <= activeClients.Keys && done == activeClients.Keys - pending
        invariant reached == Reached(activeClients, done)
        invariant outboxes == M.Deliver(old(outboxes), reached, line)
        decreases pending
      {
        var u :| u in pending;
        var id := activeClients[u];
        ReachedStep(activeClients, done, u);
        DeliverStep(old(outboxes), reached, id, line);
        Write(id, [M.Line(line)]);
        assert done + {u} == activeClients.Keys - (pending - {u});
        pending := pending - {u};
        done := done + {u};
        reached := reached + {id};
      }
      ReachedAll(activeClients);
    }

    /** `sendMessage(recipient, text)` on behalf of session `id`. */
    method SendMessage(id: M.SessionId, recipient: string, text: string)
      requires Valid() && M.CanDispatch(State(), id)
      modifies this
      ensures Valid()
      ensures State() == M.SendMessage(old(State()), id, recipient, text)
    {
      MessengerProperties.SendMessageValid(State(), id, recipient, text);
      var sender := handlers[id].username.value;
      if recipient in activeClients {
        Write(activeClients[recipient], [M.Line(MessageFrom(sender, text))]);
      } else {
        Write(id, [M.Line(NotOnline(recipient))]);
      }
    }

    /** `sendFile(recipient, filename)` on behalf of session `id`. */
    method SendFile(id: M.SessionId, recipient: string, filename: string)
      requires Valid() && M.CanDispatch(State(), id)
      modifies this
      ensures Valid()
      ensures State() == M.SendFile(old(State()), id, recipient, filename)
    {
      MessengerProperties.SendFileValid(State(), id, recipient, filename);
      var sender := handlers[id].username.value;
      if recipient in activeClients {
        if filename !in files {
          Write(id, [M.Line(FileNotFound)]);
          return;
        }
        var to := activeClients[recipient];
        var header := [M.Line(FileHeader(sender, filename))];
        Write(to, header);
        var data := files[filename];
        if data != [] {
          Write(to, [M.Bytes(data)]);
          EmitTwice(old(outboxes), to, header, [M.Bytes(data)]);
        } else {
          assert header + M.Payload(data) == header;
        }
        Write(id, [M.Line(FileSent(recipient))]);
      } else {
        Write(id, [M.Line(NotOnline(recipient))]);
      }
    }

    /** One iteration of the command loop; `false` when the line threw and the loop is over. */
    method HandleLine(id: M.SessionId, line: string) returns (keepReading: bool)
      requires Valid() && M.CanDispatch(State(), id)
      modifies this
      ensures Valid()
      ensures keepReading <==> ParseCommand(line) != Malformed
      ensures State() == M.Dispatch(old(State()), id, ParseCommand(line))
    {
      var command := ParseCommand(line);
      MessengerProperties.DispatchValid(State(), id, command);
      keepReading := true;
      match command
      case Send(recipient, text) => SendMessage(id, recipient, text);
      case File(recipient, filename) => SendFile(id, recipient, filename);
      case Ignored =>
      case Malformed =>
        handlers := handlers[id := handlers[id].(phase := M.Finishing)];
        keepReading := false;
    }

    /** The finally block of session `id`. */
    method Teardown(id: M.SessionId)
      requires Valid()
      requires id in handlers && handlers[id].phase != M.Closed
      modifies this
      ensures Valid()
      ensures id in handlers && handlers[id].phase == M.Closed
      ensures State() == M.Teardown(old(State()), id)
    {
      MessengerProperties.CloseValid(State(), id);
      MessengerProperties.TeardownValid(State(), id);
      var h := handlers[id];
      handlers := handlers[id := h.(phase := M.Closed)];
      if h.username.Some? {
        var user := h.username.value;
        activeClients := activeClients - {user};
        assert State() == M.Close(old(State()), id);
        BroadcastStatus(OfflineStatus(user));
      }
    }

    /** `run()` for one client that sends a name, a password and then `lines`. */
    method Run(username: Option<string>, password: Option<string>, lines: seq<string>) returns (id: M.SessionId)
      requires Valid()
      modifies this
      ensures Valid()
      ensures id == old(nextId) && id in handlers && handlers[id].phase == M.Closed
      ensures State() == M.HandlerRun(old(State()), username, password, lines)
    {
      id := Accept();
      ReceiveUsername(id, username);
      var authenticated := ReceivePassword(id, password);
      if authenticated {
        Serve(id, lines);
      } else {
        Teardown(id);
      }
    }

    /** The command loop of an authenticated session over `lines`, then its finally block. */
    method Serve(id: M.SessionId, lines: seq<string>)
      requires Valid() && M.CanDispatch(State(), id)
      modifies this
      ensures Valid()
      ensures id in handlers && handlers[id].phase == M.Closed
      ensures State() == M.CommandLoop(old(State()), id, lines)
    {
      var i := 0;
      var keepReading := true;
      while i < |lines| && keepReading
        invariant Valid() && id in handlers
        invariant 0 <= i <= |lines|
        invariant keepReading ==>
          M.CanDispatch(State(), id) && M.CommandLoop(State(), id, lines[i..]) == M.CommandLoop(old(State()), id, lines)
        invariant !keepReading ==>
          handlers[id].phase == M.Finishing && M.Teardown(State(), id) == M.CommandLoop(old(State()), id, lines)
        decreases |lines| - i
      {
        LoopStep(State(), id, lines[i..]);
        keepReading := HandleLine(id, lines[i]);
        assert lines[i..][1..] == lines[i + 1..];
        i := i + 1;
      }
      Teardown(id);
    }
  }
}
