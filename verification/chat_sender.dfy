/**
 * sender.cpp: turning a typed line into a request, and the decisions of
 * the client's main loop. Input lines, the server's answers and the
 * outcome of each send are inputs; printing is not modelled.
 */
module ChatSender {
  import opened Wrappers
  import opened ChatMessage

  /** `isspace` in the C locale: the characters `>>` skips and stops at. */
  predicate IsSpace(c: char)
  {
    c == ' ' || c == '\t' || c == '\n' || c == '\U{0B}' || c == '\U{0C}' || c == '\r'
  }

  predicate NoSpace(s: string)
  {
    forall k :: 0 <= k < |s| ==> !IsSpace(s[k])
  }

  predicate AllSpace(s: string)
  {
    forall k :: 0 <= k < |s| ==> IsSpace(s[k])
  }

  /** The first position at or after `i` that is not white space (or the end). */
  function SkipSpaces(s: string, i: nat): (j: nat)
    requires i <= |s|
    ensures i <= j <= |s| && AllSpace(s[i..j])
    ensures j < |s| ==> !IsSpace(s[j])
    decreases |s| - i
  {
    if i == |s| || !IsSpace(s[i]) then i else SkipSpaces(s, i + 1)
  }

  /** The first position at or after `i` that is white space (or the end). */
  function TokenEnd(s: string, i: nat): (j: nat)
    requires i <= |s|
    ensures i <= j <= |s| && NoSpace(s[i..j])
    ensures j < |s| ==> IsSpace(s[j])
    decreases |s| - i
  {
    if i == |s| || IsSpace(s[i]) then i else TokenEnd(s, i + 1)
  }

  /**
   * One `stream >> string` extraction from position `i`: skip white space,
   * then take the longest run without white space; none if only white
   * space remains. Also gives the position the stream is left at.
   */
  function NextToken(s: string, i: nat): (r: Option<(string, nat)>)
    requires i <= |s|
    ensures r.None? <==> AllSpace(s[i..])
    ensures r.Some? ==> i < r.value.1 <= |s| && |r.value.0| > 0 && NoSpace(r.value.0)
    ensures r.Some? ==> (r.value.1 == |s| || IsSpace(s[r.value.1]))
    ensures r.Some? ==> var a := r.value.1 - |r.value.0|; i <= a && AllSpace(s[i..a]) && s[a..r.value.1] == r.value.0
  {
    var a := SkipSpaces(s, i);
    if a == |s| then None
    else
      assert !IsSpace(s[a]);
      var b := TokenEnd(s, a);
      Some((s[a..b], b))
  }

  /** The first token of a line, "" when the line is blank (`cmd` stays empty). */
  function Command(line: string): string
  {
    match NextToken(line, 0)
    case None => ""
    case Some((cmd, _)) => cmd
  }

  /** A line whose first token is a slash followed by at least one character. */
  predicate IsCommandLine(line: string)
  {
    var cmd := Command(line);
    |cmd| > 1 && cmd[0] == '/'
  }

  /**
   * interpret: `/quit`, `/join ROOM` and `/leave` become requests; any
   * other slash command, a `/join` without a room, or an over-long line
   * is rejected (None); everything else is sent to the room verbatim.
   */
  function Interpret(line: string): (r: Option<Message>)
    ensures r.Some? ==> r.value.tag in {Quit, Join, Leave, SendAll}
    ensures r.Some? && r.value.tag == SendAll ==> r.value.data == line && |line| <= MAX_LEN
  {
    match NextToken(line, 0)
    case Some((cmd, after)) =>
      if |cmd| > 1 && cmd[0] == '/' then
        if cmd == "/quit" then Some(Message(Quit, "bye"))
        else if cmd == "/join" then
          match NextToken(line, after)
          case None => None
          case Some((room, _)) => Some(Message(Join, room))
        else if cmd == "/leave" then Some(Message(Leave, ""))
        else None
      else if |line| > MAX_LEN then None
      else Some(Message(SendAll, line))
    case None =>
      if |line| > MAX_LEN then None else Some(Message(SendAll, line))
  }

  /**
   * What a line can become: only QUIT, JOIN, LEAVE or SENDALL; SENDALL
   * exactly for a non-command line within MAX_LEN, carrying the whole
   * line; QUIT, LEAVE and JOIN only from their commands, JOIN with a
   * non-empty room without white space; other commands are rejected.
   */
  lemma InterpretMeaning(line: string)
    ensures Interpret(line).Some? ==> Interpret(line).value.tag in {Quit, Join, Leave, SendAll}
    ensures Interpret(line).Some? && Interpret(line).value.tag == SendAll <==> !IsCommandLine(line) && |line| <= MAX_LEN
    ensures Interpret(line).Some? && Interpret(line).value.tag == SendAll ==> Interpret(line).value.data == line
    ensures Interpret(line).Some? && Interpret(line).value.tag == Quit ==> Command(line) == "/quit" && Interpret(line).value.data == "bye"
    ensures Interpret(line).Some? && Interpret(line).value.tag == Leave ==> Command(line) == "/leave" && Interpret(line).value.data == ""
    ensures Interpret(line).Some? && Interpret(line).value.tag == Join ==> Command(line) == "/join" && |Interpret(line).value.data| > 0 && NoSpace(Interpret(line).value.data)
    ensures IsCommandLine(line) && Command(line) !in {"/quit", "/join", "/leave"} ==> Interpret(line).None?
    ensures Command(line) == "/quit" ==> Interpret(line) == Some(Message(Quit, "bye"))
    ensures Command(line) == "/leave" ==> Interpret(line) == Some(Message(Leave, ""))
  {
  }

  /** The token read at the start of `pre + tok + rest` when `pre` is blank and `rest` does not continue the token. */
  lemma {:induction false} TokenAfterBlanks(pre: string, tok: string, rest: string)
    requires AllSpace(pre) && |tok| > 0 && NoSpace(tok)
    requires |rest| == 0 || IsSpace(rest[0])
    ensures NextToken(pre + tok + rest, 0) == Some((tok, |pre| + |tok|))
  {
    var s := pre + tok + rest;
    assert s[..|pre|] == pre;
    SkipFrom(s, 0, |pre|);
    TokenFrom(s, |pre|, |pre| + |tok|);
    assert s[|pre|..|pre| + |tok|] == tok;
  }

  /** Skipping white space from `i` stops at `j` when `s[i..j]` is blank and `s[j]` is not. */
  lemma {:induction false} SkipFrom(s: string, i: nat, j: nat)
    requires i <= j < |s| && AllSpace(s[i..j]) && !IsSpace(s[j])
    ensures SkipSpaces(s, i) == j
    decreases j - i
  {
    if i < j {
      assert IsSpace(s[i..j][0]);
      assert s[i + 1..j] == s[i..j][1..];
      SkipFrom(s, i + 1, j);
    }
  }

  /** A token starting at `i` ends at `j` when `s[i..j]` has no white space and `s[j]` is white space or the end. */
  lemma {:induction false} TokenFrom(s: string, i: nat, j: nat)
    requires i <= j <= |s| && NoSpace(s[i..j]) && (j == |s| || IsSpace(s[j]))
    ensures TokenEnd(s, i) == j
    decreases j - i
  {
    if i < j {
      assert !IsSpace(s[i..j][0]);
      assert s[i + 1..j] == s[i..j][1..];
      TokenFrom(s, i + 1, j);
    }
  }

  /** `/quit` ignores whatever follows it on the line. */
  lemma QuitIgnoresRest(pre: string, rest: string)
    requires AllSpace(pre) && (|rest| == 0 || IsSpace(rest[0]))
    ensures Interpret(pre + "/quit" + rest) == Some(Message(Quit, "bye"))
  {
    TokenAfterBlanks(pre, "/quit", rest);
  }

  /** `/join ROOM` joins ROOM, the second token, whatever follows it. */
  lemma JoinTakesSecondToken(pre: string, gap: string, room: string, rest: string)
    requires AllSpace(pre) && AllSpace(gap) && |gap| > 0
    requires |room| > 0 && NoSpace(room) && (|rest| == 0 || IsSpace(rest[0]))
    ensures Interpret(pre + "/join" + gap + room + rest) == Some(Message(Join, room))
  {
    var line := pre + "/join" + gap + room + rest;
    var tail := gap + room + rest;
    assert line == pre + "/join" + tail;
    TokenAfterBlanks(pre, "/join", tail);
    var after := |pre| + 5;
    assert line[after..] == tail;
    TokenAfterBlanks(gap, room, rest);
    ShiftToken(line, after, tail);
    InterpretJoin(line, after, room);
  }

  /** A line whose first token is `/join` and whose next token is `room` joins `room`. */
  lemma InterpretJoin(line: string, after: nat, room: string)
    requires after <= |line| && NextToken(line, 0) == Some(("/join", after))
    requires NextToken(line, after).Some? && NextToken(line, after).value.0 == room
    ensures Interpret(line) == Some(Message(Join, room))
  {
  }

  /** Reading a token at position `i` of `s` is reading it at 0 of `s[i..]`, shifted by `i`. */
  lemma {:induction false} ShiftToken(s: string, i: nat, t: string)
    requires i <= |s| && t == s[i..]
    ensures NextToken(s, i).None? <==> NextToken(t, 0).None?
    ensures NextToken(s, i).Some? ==>
      NextToken(s, i).value == (NextToken(t, 0).value.0, NextToken(t, 0).value.1 + i)
  {
    ShiftSkip(s, i, t, 0);
    var a := SkipSpaces(t, 0);
    if a < |t| {
      ShiftEnd(s, i, t, a);
      assert s[a + i..TokenEnd(t, a) + i] == t[a..TokenEnd(t, a)];
    }
  }

  lemma {:induction false} ShiftSkip(s: string, i: nat, t: string, k: nat)
    requires i <= |s| && t == s[i..] && k <= |t|
    ensures SkipSpaces(s, i + k) == SkipSpaces(t, k) + i
    decreases |t| - k
  {
    if k < |t| {
      assert s[i + k] == t[k];
      if IsSpace(t[k]) {
        ShiftSkip(s, i, t, k + 1);
      }
    }
  }

  lemma {:induction false} ShiftEnd(s: string, i: nat, t: string, k: nat)
    requires i <= |s| && t == s[i..] && k <= |t|
    ensures TokenEnd(s, i + k) == TokenEnd(t, k) + i
    decreases |t| - k
  {
    if k < |t| {
      assert s[i + k] == t[k];
      if !IsSpace(t[k]) {
        ShiftEnd(s, i, t, k + 1);
      }
    }
  }

  /** `/join` with nothing after it is rejected. */
  lemma JoinWithoutRoom(pre: string, post: string)
    requires AllSpace(pre) && AllSpace(post)
    ensures Interpret(pre + "/join" + post) == None
  {
    var line := pre + "/join" + post;
    if |post| > 0 {
      TokenAfterBlanks(pre, "/join", post);
    } else {
      TokenAfterBlanks(pre, "/join", "");
      assert line == pre + "/join" + "";
    }
    assert line[|pre| + 5..] == post;
    ShiftToken(line, |pre| + 5, post);
  }

  /** A lone slash is an ordinary message, not a command. */
  lemma LoneSlashIsMessage()
    ensures Interpret("/") == Some(Message(SendAll, "/"))
  {
    TokenAfterBlanks("", "/", "");
    assert "" + "/" + "" == "/";
  }

  // ---------------------------------------------------------------------
  // the main loop
  // ---------------------------------------------------------------------

  /** What became of a request: the send failed, the reply could not be read, or the reply. */
  datatype Answer = SendFailed | ReceiveFailed | Reply(msg: Message)

  /** One line typed by the user, with the answer it would get if sent. */
  datatype Input = Input(line: string, answer: Answer)

  /** The requests the client attempted to send, and whether it stopped on an acknowledged QUIT. */
  datatype ClientRun = ClientRun(sent: seq<Message>, quit: bool)

  /**
   * The main loop: skip empty and rejected lines; send the request; a
   * failed send, a failed read or an ERR reply only moves on; a QUIT
   * answered OK ends the client with status 0. End of input also ends it
   * with status 0.
   */
  function ClientLoop(inputs: seq<Input>): (r: ClientRun)
    ensures r.quit ==> |r.sent| > 0 && r.sent[|r.sent| - 1] == Message(Quit, "bye")
    ensures |r.sent| <= |inputs|
    decreases |inputs|
  {
    if |inputs| == 0 then ClientRun([], false)
    else
      var rest := ClientLoop(inputs[1..]);
      match Request(inputs[0].line)
      case None => rest
      case Some(m) =>
        if m == Message(Quit, "bye") && inputs[0].answer.Reply? && inputs[0].answer.msg.tag == Ok then ClientRun([m], true)
        else ClientRun([m] + rest.sent, rest.quit)
  }

  /** The request a typed line leads to: none for an empty line or a rejected one. */
  function Request(line: string): (r: Option<Message>)
    ensures |line| == 0 ==> r.None?
    ensures |line| > 0 ==> r == Interpret(line)
  {
    if |line| == 0 then None else Interpret(line)
  }

  /** A line that is a QUIT request answered OK. */
  predicate QuitAnswered(inp: Input)
  {
    && |inp.line| > 0 && Interpret(inp.line) == Some(Message(Quit, "bye"))
    && inp.answer.Reply? && inp.answer.msg.tag == Ok
  }

  /** The first line either ends the client on an acknowledged QUIT or the rest decides. */
  lemma ClientQuitStep(inputs: seq<Input>)
    requires |inputs| > 0
    ensures ClientLoop(inputs).quit == (QuitAnswered(inputs[0]) || ClientLoop(inputs[1..]).quit)
  {
  }

  /** The client stops on an acknowledged QUIT exactly when some line is one. */
  lemma {:induction false} ClientQuitsIff(inputs: seq<Input>)
    ensures ClientLoop(inputs).quit <==> exists i :: 0 <= i < |inputs| && QuitAnswered(inputs[i])
    decreases |inputs|
  {
    if |inputs| > 0 {
      ClientQuitStep(inputs);
      ClientQuitsIff(inputs[1..]);
      forall i | 0 <= i < |inputs[1..]|
        ensures inputs[1..][i] == inputs[i + 1]
      {
      }
    }
  }

  /** Removing an empty line changes nothing: empty lines are never sent. */
  lemma {:induction false} EmptyLinesIgnored(inputs: seq<Input>, i: nat)
    requires i < |inputs| && |inputs[i].line| == 0
    ensures ClientLoop(inputs) == ClientLoop(inputs[..i] + inputs[i + 1..])
    decreases i
  {
    var without := inputs[..i] + inputs[i + 1..];
    if i == 0 {
      assert without == inputs[1..];
    } else {
      EmptyLinesIgnored(inputs[1..], i - 1);
      assert without[0] == inputs[0];
      assert without[1..] == inputs[1..][..i - 1] + inputs[1..][i..];
    }
  }
}
