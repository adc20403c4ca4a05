/**
  The text the server writes to its clients and the way it reads one
  command line from an authenticated client (InstantMessengerServer.java).
 */
module Protocol {
  import opened JavaStrings

  const EnterUsername: string := "Enter username:"
  const EnterPassword: string := "Enter password:"
  const AuthSuccess: string := "Authentication successful!"
  const AuthFailure: string := "Authentication failed. Goodbye!"
  const FileNotFound: string := "Error: File not found."

  /** What `broadcastStatus(status)` writes to each registered client. */
  function StatusLine(status: string): string { "STATUS: " + status }

  function OnlineStatus(user: string): string { user + " is online!" }

  function OfflineStatus(user: string): string { user + " is offline." }

  /** What a recipient of `SEND` receives. */
  function MessageFrom(sender: string, text: string): string { "Message from " + sender + ": " + text }

  /** What a sender is told when the recipient is not in the registry. */
  function NotOnline(recipient: string): string { "User " + recipient + " is not online." }

  /** The header line written to the recipient before the bytes of a file. */
  function FileHeader(sender: string, filename: string): string { "FILE_FROM " + sender + " " + filename }

  /** What a sender is told after a file was written to the recipient. */
  function FileSent(recipient: string): string { "File sent successfully to " + recipient }

  /**
    One line from an authenticated client, as the dispatch loop reads it.
    `Malformed` is a `SEND` or `FILE` line whose `split` result is too short:
    indexing it throws ArrayIndexOutOfBoundsException, which no handler
    catches, so the session's loop ends there.
   */
  datatype Command =
    | Send(recipient: string, text: string)
    | File(recipient: string, filename: string)
    | Ignored
    | Malformed

  function ParseCommand(line: string): Command
  {
    if StartsWith(line, "SEND") then
      var parts := Split(line);
      var three := SplitLimit3(line);
      if |parts| < 2 || |three| < 3 then Malformed else Send(parts[1], three[2])
    else if StartsWith(line, "FILE") then
      var parts := Split(line);
      if |parts| < 3 then Malformed else File(parts[1], parts[2])
    else
      Ignored
  }

  /** A line is acted upon exactly when it starts with `SEND` or `FILE`; every other line is ignored. */
  lemma ParseIgnored(line: string)
    ensures ParseCommand(line) == Ignored <==> !StartsWith(line, "SEND") && !StartsWith(line, "FILE")
  {
  }

  /**
    A `SEND` command names the second space-separated token as recipient and
    everything after the second space as text.
   */
  lemma ParseSend(line: string)
    requires ParseCommand(line).Send?
    ensures StartsWith(line, "SEND")
    ensures |Fields(line)| >= 3
    ensures ParseCommand(line).recipient == Fields(line)[1]
    ensures line == Fields(line)[0] + " " + (ParseCommand(line).recipient + " " + ParseCommand(line).text)
  {
    var three := SplitLimit3(line);
    ThreePieces(line);
    SplitFields(line, 1);
    assert ParseCommand(line) == Send(Split(line)[1], three[2]);
  }

  /** When `split(" ", 3)` gives three pieces, the first two are the first two fields. */
  lemma ThreePieces(line: string)
    requires |SplitLimit3(line)| == 3
    ensures var three := SplitLimit3(line);
      Fields(line) == [three[0], three[1]] + Fields(three[2])
      && line == three[0] + " " + (three[1] + " " + three[2])
  {
    var three := SplitLimit3(line);
    var a, b, c := three[0], three[1], three[2];
    SplitLimit3Pieces(line);
    assert line == a + " " + (b + " " + c);
    FieldsCons(b, c);
    FieldsCons(a, b + " " + c);
    ConsTwo(a, b, Fields(c));
  }

  lemma ConsTwo<T>(a: T, b: T, rest: seq<T>)
    ensures [a] + ([b] + rest) == [a, b] + rest
  {
    assert [a, b] == [a] + [b];
  }

  /**
    Conversely, a line made of a head starting with `SEND`, a recipient and a
    text is a `SEND` command for that recipient and text, provided `split(" ")`
    yields a second element, that is, the recipient or the text holds something
    other than spaces.
   */
  lemma ParseSendIntro(head: string, recipient: string, text: string)
    requires StartsWith(head, "SEND") && ' ' !in head && ' ' !in recipient
    requires recipient != "" || HasNonSpace(text)
    ensures ParseCommand(head + " " + (recipient + " " + text)) == Send(recipient, text)
  {
    var line := head + " " + (recipient + " " + text);
    assert line[..4] == head[..4];
    SendLineSplit(head, recipient, text);
    SplitLimit3Cons(head, recipient, text);
  }

  /** `split(" ")` of such a line has the recipient at index 1. */
  lemma SendLineSplit(head: string, recipient: string, text: string)
    requires ' ' !in head && ' ' !in recipient
    requires recipient != "" || HasNonSpace(text)
    ensures var parts := Split(head + " " + (recipient + " " + text)); |parts| >= 2 && parts[1] == recipient
  {
    var line := head + " " + (recipient + " " + text);
    FieldsCons(recipient, text);
    FieldsCons(head, recipient + " " + text);
    FirstSpace(head, recipient + " " + text);
    var fs := Fields(line);
    assert fs[1..] == [recipient] + Fields(text);
    NonEmptyField(text);
    SomeNonEmptyCons(recipient, Fields(text));
    SecondOfSplit(line);
  }

  /** `split(" ")` has a second element, the second field, when a field from the second on is not empty. */
  lemma SecondOfSplit(line: string)
    requires ' ' in line && |Fields(line)| >= 2 && SomeNonEmpty(Fields(line)[1..])
    ensures |Split(line)| >= 2 && Split(line)[1] == Fields(line)[1]
  {
    SplitFields(line, 1);
  }

  /**
    A `FILE` command is recognised exactly when the line starts with `FILE`
    and `split(" ")` yields a third element (some field from the third on is
    not empty); it names the second and third fields, and later fields are ignored.
   */
  lemma ParseFile(line: string)
    ensures ParseCommand(line).File? <==>
      StartsWith(line, "FILE") && |Fields(line)| >= 3 && SomeNonEmpty(Fields(line)[2..])
    ensures ParseCommand(line).File? ==>
      ParseCommand(line).recipient == Fields(line)[1] && ParseCommand(line).filename == Fields(line)[2]
  {
    if StartsWith(line, "FILE") {
      assert line[0] == 'F';
      var parts := Split(line);
      assert ParseCommand(line) == if |parts| < 3 then Malformed else File(parts[1], parts[2]);
      SplitFields(line, 2);
      if ' ' !in line {
        assert parts == [line];
        assert Fields(line) == [line];
      }
    }
  }

  /** The checks are prefix checks: `SENDX a b` is a `SEND` to `a` of `b`. */
  lemma PrefixOnly()
    ensures ParseCommand("SENDX a b") == Send("a", "b")
  {
    assert "SENDX a b" == "SENDX" + " " + ("a" + " " + "b");
    ParseSendIntro("SENDX", "a", "b");
  }
}
