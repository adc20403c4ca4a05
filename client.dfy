/**
  The string decisions of InstantMessengerClient.java: whether login
  succeeded, which typed lines are sent, when input stops, how a
  `FILE_FROM` header is read and under which name a received file is saved.
 */
module Client {
  import opened JavaStrings
  import Protocol

  const SavePrefix: string := "received_"

  /**
    `"received_" + filename.substring(filename.lastIndexOf("/") + 1)`: the
    prefix followed by the longest suffix of `filename` without a `/`.
   */
  function SavedFilename(filename: string): (saved: string)
    ensures |saved| >= |SavePrefix| && saved[..|SavePrefix|] == SavePrefix
    ensures '/' !in saved[|SavePrefix|..]
    ensures var base := saved[|SavePrefix|..];
      && |base| <= |filename| && filename[|filename| - |base|..] == base
      && (|base| == |filename| || filename[|filename| - |base| - 1] == '/')
  {
    var base := filename[LastIndexOf(filename, '/') + 1..];
    assert (SavePrefix + base)[|SavePrefix|..] == base;
    SavePrefix + base
  }

  /** The console filter: a typed line goes to the server exactly when this holds. */
  predicate IsCommand(line: string)
  {
    StartsWith(line, "SEND") || StartsWith(line, "FILE")
  }

  /**
    `line.equalsIgnoreCase("exit")`.  Java compares characters after
    `Character.toUpperCase` and then `Character.toLowerCase`, so besides the
    ASCII cases the dotless `ı` (U+0131) and the dotted `İ` (U+0130) also
    match the `i`.
   */
  predicate IsExit(line: string)
  {
    && |line| == 4
    && line[0] in {'e', 'E'}
    && line[1] in {'x', 'X'}
    && line[2] in {'i', 'I', '\U{0131}', '\U{0130}'}
    && line[3] in {'t', 'T'}
  }

  /** `response.contains("successful")`: the client goes on past login only then. */
  predicate LoginAccepted(response: string)
  {
    Contains(response, "successful")
  }

  /** What the listener thread does with one line from the server. */
  datatype Incoming =
    | FileOffer(sender: string, filename: string, saveAs: string)
    | Shown(line: string)
    | ListenerDies   // a `FILE_FROM` line with fewer than three parts: the index throws and ends the thread

  function Receive(line: string): Incoming
  {
    if StartsWith(line, "FILE_FROM") then
      var parts := Split(line);
      if |parts| < 3 then ListenerDies else FileOffer(parts[1], parts[2], SavedFilename(parts[2]))
    else
      Shown(line)
  }

  /** ASCII lower case, an independent reading of "ignoring case" for plain text. */
  function LowerAscii(c: char): char
  {
    if 'A' <= c <= 'Z' then (c as int + 32) as char else c
  }

  /** For ASCII input, the exit check is "the line in lower case is `exit`". */
  lemma IsExitAscii(line: string)
    requires forall k | 0 <= k < |line| :: line[k] < 128 as char
    ensures IsExit(line) <==> |line| == 4 && forall k | 0 <= k < 4 :: LowerAscii(line[k]) == "exit"[k]
  {
    if |line| == 4 && forall k | 0 <= k < 4 :: LowerAscii(line[k]) == "exit"[k] {
      assert LowerAscii(line[0]) == 'e' && LowerAscii(line[1]) == 'x';
      assert LowerAscii(line[2]) == 'i' && LowerAscii(line[3]) == 't';
    }
  }

  /** Only the exact word, in any case, ends the input loop; the Unicode `i` variants do too. */
  lemma ExitExamples()
    ensures IsExit("exit") && IsExit("EXIT") && IsExit("eXiT")
    ensures IsExit("ex\U{0131}t") && IsExit("EX\U{0130}T")
    ensures !IsExit("exit ") && !IsExit("quit") && !IsExit("")
  {
  }

  /** The client sends exactly the lines the server acts on; the rest would be ignored there anyway. */
  lemma FilterMatchesServer(line: string)
    ensures IsCommand(line) <==> Protocol.ParseCommand(line) != Protocol.Ignored
  {
    Protocol.ParseIgnored(line);
  }

  /** The server's two answers to a login are read as meant. */
  lemma LoginResponses()
    ensures LoginAccepted(Protocol.AuthSuccess)
    ensures !LoginAccepted(Protocol.AuthFailure)
  {
    assert OccursAt(Protocol.AuthSuccess, "successful", 15);
    var failure := Protocol.AuthFailure;
    forall i | 0 <= i <= |failure|
      ensures !OccursAt(failure, "successful", i)
    {
      if i + 10 <= |failure| {
        assert failure[i..i + 10][0] == failure[i];
        assert failure[i] != 's';
      }
    }
  }

  /** The fields of a header the server writes are the tag, the sender and the file name. */
  lemma HeaderFields(sender: string, filename: string)
    requires ' ' !in sender && ' ' !in filename
    ensures ' ' in Protocol.FileHeader(sender, filename)
    ensures Fields(Protocol.FileHeader(sender, filename)) == ["FILE_FROM", sender, filename]
  {
    var line := Protocol.FileHeader(sender, filename);
    assert line == "FILE_FROM" + " " + (sender + " " + filename);
    FirstSpace("FILE_FROM", sender + " " + filename);
    FieldsCons(sender, filename);
    FieldsCons("FILE_FROM", sender + " " + filename);
  }

  /**
    A header the server writes for a space-free sender and a non-empty,
    space-free file name is read back as an offer of that file from that
    sender, saved under the derived name.
   */
  lemma HeaderRoundTrip(sender: string, filename: string)
    requires ' ' !in sender && ' ' !in filename && filename != ""
    ensures Receive(Protocol.FileHeader(sender, filename)) == FileOffer(sender, filename, SavedFilename(filename))
  {
    var line := Protocol.FileHeader(sender, filename);
    assert line[..9] == "FILE_FROM";
    HeaderFields(sender, filename);
    assert Split(line) == ["FILE_FROM", sender, filename];
  }

  /**
    A file the server relays for a `FILE` command is offered to the
    receiving client under the name the sender typed, whenever that name is
    not empty and the sender's name has no space.
   */
  lemma RelayedFileUnderstood(command: string, sender: string)
    requires Protocol.ParseCommand(command).File?
    requires ' ' !in sender && Protocol.ParseCommand(command).filename != ""
    ensures var filename := Protocol.ParseCommand(command).filename;
      Receive(Protocol.FileHeader(sender, filename)) == FileOffer(sender, filename, SavedFilename(filename))
  {
    Protocol.ParseFile(command);
    FieldsSpaceFree(command);
    HeaderRoundTrip(sender, Protocol.ParseCommand(command).filename);
  }

  /**
    A server line is taken for a file offer exactly when it starts with
    `FILE_FROM` and `split(" ")` reaches a third element; the sender is the
    second field and the file name the third, later fields are ignored.
   */
  lemma ReceiveFields(line: string)
    ensures Receive(line).FileOffer? <==>
      StartsWith(line, "FILE_FROM") && |Fields(line)| >= 3 && SomeNonEmpty(Fields(line)[2..])
    ensures Receive(line).FileOffer? ==>
      && Receive(line).sender == Fields(line)[1]
      && Receive(line).filename == Fields(line)[2]
      && Receive(line).saveAs == SavedFilename(Fields(line)[2])
  {
    SplitFields(line, 2);
    if StartsWith(line, "FILE_FROM") && ' ' !in line {
      assert Split(line) == [line];
      assert Fields(line) == [line];
    }
  }

  /** A path is saved under its last component: what follows its last `/`. */
  lemma SavedFilenameAfterSlash(directory: string, name: string)
    requires '/' !in name
    ensures SavedFilename(directory + "/" + name) == SavePrefix + name
  {
    var path := directory + "/" + name;
    var i := LastIndexOf(path, '/');
    assert path[|directory|] == '/';
    assert path[|directory| + 1..] == name;
  }

  /** A name without `/` is kept whole behind the prefix. */
  lemma SavedFilenameNoSlash(filename: string)
    requires '/' !in filename
    ensures SavedFilename(filename) == SavePrefix + filename
  {
    var saved := SavedFilename(filename);
    var base := saved[|SavePrefix|..];
    assert saved == SavePrefix + base;
  }

  /** A line that differs from `FILE_FROM` within its first nine characters is shown. */
  lemma ShownWhenDiffers(line: string, k: nat)
    requires k < |line| && k < 9 && line[k] != "FILE_FROM"[k]
    ensures Receive(line) == Shown(line)
  {
  }

  /** Every other line the server writes is shown, never taken for a file offer. */
  lemma MessageShown(sender: string, text: string)
    ensures Receive(Protocol.MessageFrom(sender, text)) == Shown(Protocol.MessageFrom(sender, text))
  {
    var line := Protocol.MessageFrom(sender, text);
    assert line[0] == 'M';
    ShownWhenDiffers(line, 0);
  }

  lemma StatusShown(user: string)
    ensures Receive(Protocol.StatusLine(Protocol.OnlineStatus(user))).Shown?
    ensures Receive(Protocol.StatusLine(Protocol.OfflineStatus(user))).Shown?
  {
    var online, offline := Protocol.StatusLine(Protocol.OnlineStatus(user)), Protocol.StatusLine(Protocol.OfflineStatus(user));
    assert online[0] == 'S' && offline[0] == 'S';
    ShownWhenDiffers(online, 0);
    ShownWhenDiffers(offline, 0);
  }

  lemma RepliesShown(user: string)
    ensures Receive(Protocol.NotOnline(user)).Shown?
    ensures Receive(Protocol.FileSent(user)).Shown?
    ensures Receive(Protocol.FileNotFound).Shown?
  {
    var missing, sent := Protocol.NotOnline(user), Protocol.FileSent(user);
    assert missing[0] == 'U' && sent[1] == 'i';
    ShownWhenDiffers(missing, 0);
    ShownWhenDiffers(sent, 1);
    ShownWhenDiffers(Protocol.FileNotFound, 0);
  }
}
