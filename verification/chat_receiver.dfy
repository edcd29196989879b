/**
 * receiver.cpp: the rlogin/join handshake, the split of a delivery's
 * `room:sender:text` payload with `std::string::find`/`substr`, and the
 * decisions of the receive loop. A client receive is a message or a
 * failure (None); each send's success is an input; printing is modelled
 * by the (sender, text) pairs the loop would print.
 */
module ChatReceiver {
  import opened Wrappers
  import opened MachineInts
  import opened ChatMessage
  import opened ChatRoom

  /** `std::string::npos`, the largest `size_t`. */
  const NPOS: int := TWO64 - 1

  /** `s.find(c, from)`: the first index at or after `from` holding `c`, or NPOS. */
  function Find(s: string, c: char, from: nat): (r: int)
    requires |s| < NPOS
    ensures r == NPOS || (from <= r < |s| && s[r] == c)
    ensures forall k :: from <= k < |s| && (r == NPOS || k < r) ==> s[k] != c
    decreases |s| - from
  {
    if from >= |s| then NPOS
    else if s[from] == c then from
    else Find(s, c, from + 1)
  }

  /** `s.substr(pos, n)`: at most `n` characters from `pos`; `pos` past the end would throw. */
  function Substr(s: string, pos: nat, n: nat): (t: string)
    requires pos <= |s|
    ensures |t| == if n < |s| - pos then n else |s| - pos
    ensures t == s[pos..pos + |t|]
  {
    if n < |s| - pos then s[pos..pos + n] else s[pos..]
  }

  /** `size_t` arithmetic: reduction modulo 2^64 of a value less than one period out of range. */
  function WrapSize(x: int): (r: u64)
    requires -TWO64 <= x < 2 * TWO64
    ensures r == x || r == x + TWO64 || r == x - TWO64
  {
    if x < 0 then x + TWO64 else if x >= TWO64 then x - TWO64 else x
  }

  /**
   * The split at receiver.cpp: `a` is the first colon, `b` the first
   * colon after it; sender is what lies between, text what follows `b`.
   * Index arithmetic is on `size_t`, so a missing colon makes `a + 1`
   * and `b + 1` wrap to 0 and `b - a - 1` wrap too. No `substr` here can
   * start past the end, so the split never throws.
   */
  function SplitDelivery(data: string): (r: (string, string))
    requires |data| < NPOS
    ensures NoColon(r.0) && |r.0| <= |data|
    ensures |r.1| <= |data| && r.1 == data[|data| - |r.1|..]
  {
    var a := Find(data, ':', 0);
    var from := WrapSize(a + 1);
    var b := Find(data, ':', from);
    (Substr(data, from, WrapSize(b - a - 1)), Substr(data, WrapSize(b + 1), NPOS))
  }

  predicate NoColon(s: string)
  {
    forall k :: 0 <= k < |s| ==> s[k] != ':'
  }

  /** `find` returns the first occurrence at or after `from`. */
  lemma FindFirst(s: string, c: char, from: nat, r: nat)
    requires |s| < NPOS && from <= r < |s| && s[r] == c
    requires forall k :: from <= k < r ==> s[k] != c
    ensures Find(s, c, from) == r
  {
  }

  /** The split once both searches have been resolved to in-range positions. */
  lemma SplitAtFound(data: string, a: nat, b: nat)
    requires |data| < NPOS && a < b < |data|
    requires Find(data, ':', 0) == a && Find(data, ':', a + 1) == b
    ensures SplitDelivery(data) == (data[a + 1..b], data[b + 1..])
  {
  }

  /** With colons at a < b and none before b except a: sender is strictly between, text after b. */
  lemma SplitAtColons(data: string, a: nat, b: nat)
    requires |data| < NPOS && a < b < |data| && data[a] == ':' && data[b] == ':'
    requires NoColon(data[..a]) && NoColon(data[a + 1..b])
    ensures SplitDelivery(data) == (data[a + 1..b], data[b + 1..])
  {
    forall k | 0 <= k < a
      ensures data[k] != ':'
    {
      assert data[..a][k] == data[k];
    }
    FindFirst(data, ':', 0, a);
    forall k | a + 1 <= k < b
      ensures data[k] != ':'
    {
      assert data[a + 1..b][k - a - 1] == data[k];
    }
    FindFirst(data, ':', a + 1, b);
    SplitAtFound(data, a, b);
  }

  /** Colons inside the text survive: the text is everything after the second colon. */
  lemma PayloadRoundTrip(room: string, sender: string, text: string)
    requires NoColon(room) && NoColon(sender) && |Payload(room, sender, text)| < NPOS
    ensures SplitDelivery(Payload(room, sender, text)) == (sender, text)
  {
    var p := Payload(room, sender, text);
    var a := |room|;
    var b := |room| + 1 + |sender|;
    assert p[..a] == room;
    assert p[a + 1..b] == sender;
    SplitAtColons(p, a, b);
  }

  /** With no colon at all, both searches fail and sender and text are each the whole payload. */
  lemma SplitWithoutColon(data: string)
    requires |data| < NPOS && NoColon(data)
    ensures SplitDelivery(data) == (data, data)
  {
  }

  /** With a single colon, the sender is the rest after it and the text is the whole payload. */
  lemma SplitWithOneColon(data: string, a: nat)
    requires |data| < NPOS && a < |data| && data[a] == ':'
    requires NoColon(data[..a]) && NoColon(data[a + 1..])
    ensures SplitDelivery(data) == (data[a + 1..], data)
  {
    forall k | 0 <= k < a
      ensures data[k] != ':'
    {
      assert data[..a][k] == data[k];
    }
    FindFirst(data, ':', 0, a);
    forall k | a + 1 <= k < |data|
      ensures data[k] != ':'
    {
      assert data[a + 1..][k - a - 1] == data[k];
    }
    var b := Find(data, ':', a + 1);
    assert b == NPOS;
    assert Substr(data, a + 1, NPOS - a - 1) == data[a + 1..];
  }

  // ---------------------------------------------------------------------
  // handshake and receive loop
  // ---------------------------------------------------------------------

  /** What the handshake attempted to send, and whether the client went on to its receive loop. */
  datatype Handshake = Handshake(sent: seq<Message>, joined: bool)

  /** A reply that is an OK. */
  predicate IsOk(reply: Option<Message>)
  {
    reply.Some? && reply.value.tag == Ok
  }

  /**
   * rlogin, then join: each must be sent, answered, and answered OK; a
   * failed send, a missing answer, ERR or any other tag ends the client
   * with status 1.
   */
  function RunHandshake(user: string, room: string, loginSent: bool, loginReply: Option<Message>,
                        joinSent: bool, joinReply: Option<Message>): (r: Handshake)
    ensures r.joined <==> loginSent && IsOk(loginReply) && joinSent && IsOk(joinReply)
    ensures |r.sent| >= 1 && r.sent[0] == Message(RLogin, user)
    ensures |r.sent| == 2 <==> loginSent && IsOk(loginReply)
    ensures |r.sent| == 2 ==> r.sent[1] == Message(Join, room)
    ensures |r.sent| <= 2
  {
    var login := Message(RLogin, user);
    if !loginSent || loginReply.None? then Handshake([login], false)
    else if loginReply.value.tag == Err then Handshake([login], false)
    else if loginReply.value.tag != Ok then Handshake([login], false)
    else
      var join := Message(Join, room);
      if !joinSent || joinReply.None? then Handshake([login, join], false)
      else if joinReply.value.tag == Err then Handshake([login, join], false)
      else if joinReply.value.tag != Ok then Handshake([login, join], false)
      else Handshake([login, join], true)
  }

  /** The exit status the handshake leaves, if it ends the client. */
  function HandshakeExit(h: Handshake): (r: Option<int>)
    ensures r.None? <==> h.joined
    ensures r.Some? ==> r.value == 1
  {
    if h.joined then None else Some(1)
  }

  /** What the receive loop printed and, if it ended, its exit status. */
  datatype Listening = Listening(printed: seq<(string, string)>, exit: Option<int>)

  /** Every received payload fits a `size_t` index. */
  predicate Indexable(incoming: seq<Option<Message>>)
  {
    forall i :: 0 <= i < |incoming| && incoming[i].Some? ==> |incoming[i].value.data| < NPOS
  }

  /**
   * The receive loop: a failed receive ends it with status 0; DELIVERY
   * prints its split payload; ERR ends it with status 1; any other tag
   * is ignored.
   */
  function ReceiveLoop(incoming: seq<Option<Message>>): (r: Listening)
    requires Indexable(incoming)
    ensures r.exit.None? <==> forall i :: 0 <= i < |incoming| ==> incoming[i].Some? && incoming[i].value.tag != Err
    ensures r.exit.Some? ==> r.exit.value in {0, 1}
    ensures |r.printed| <= |incoming|
    decreases |incoming|
  {
    if |incoming| == 0 then Listening([], None)
    else match incoming[0]
      case None => Listening([], Some(0))
      case Some(m) =>
        if m.tag == Err then Listening([], Some(1))
        else
          var rest := ReceiveLoop(incoming[1..]);
          assert forall i :: 1 <= i < |incoming| ==> incoming[i] == incoming[1..][i - 1];
          if m.tag == Delivery then Listening([SplitDelivery(m.data)] + rest.printed, rest.exit)
          else rest
  }

  /** ERR ends the loop with status 1 exactly when it arrives before any failed receive. */
  lemma {:induction false} ErrExitsWithOne(incoming: seq<Option<Message>>, i: nat)
    requires Indexable(incoming) && i < |incoming|
    requires incoming[i].Some? && incoming[i].value.tag == Err
    requires forall j :: 0 <= j < i ==> incoming[j].Some? && incoming[j].value.tag != Err
    ensures ReceiveLoop(incoming).exit == Some(1)
    decreases i
  {
    if i > 0 {
      assert Indexable(incoming[1..]);
      ErrExitsWithOne(incoming[1..], i - 1);
    }
  }

  /** A failed receive ends the loop with status 0 exactly when no ERR arrives before it. */
  lemma {:induction false} FailedReceiveExitsWithZero(incoming: seq<Option<Message>>, i: nat)
    requires Indexable(incoming) && i < |incoming| && incoming[i].None?
    requires forall j :: 0 <= j < i ==> incoming[j].Some? && incoming[j].value.tag != Err
    ensures ReceiveLoop(incoming).exit == Some(0)
    decreases i
  {
    if i > 0 {
      ReceiveStep(incoming);
      FailedReceiveExitsWithZero(incoming[1..], i - 1);
    }
  }

  /** Tags other than DELIVERY and ERR are ignored: dropping one changes nothing. */
  lemma {:induction false} OtherTagsIgnored(incoming: seq<Option<Message>>, i: nat)
    requires Indexable(incoming) && i < |incoming|
    requires incoming[i].Some? && incoming[i].value.tag != Delivery && incoming[i].value.tag != Err
    ensures Indexable(incoming[..i] + incoming[i + 1..])
    ensures ReceiveLoop(incoming) == ReceiveLoop(incoming[..i] + incoming[i + 1..])
    decreases i
  {
    var without := incoming[..i] + incoming[i + 1..];
    forall j | 0 <= j < |without| && without[j].Some?
      ensures |without[j].value.data| < NPOS
    {
      assert without[j] == if j < i then incoming[j] else incoming[j + 1];
    }
    if i == 0 {
      assert without == incoming[1..];
      ReceiveStep(incoming);
    } else {
      assert Indexable(incoming[1..]);
      OtherTagsIgnored(incoming[1..], i - 1);
      assert without[0] == incoming[0];
      assert without[1..] == incoming[1..][..i - 1] + incoming[1..][i..];
      if incoming[0].Some? && incoming[0].value.tag != Err {
        ReceiveStep(incoming);
        ReceiveStep(without);
      }
    }
  }

  /** The loop past a first message that neither fails nor is ERR. */
  lemma ReceiveStep(incoming: seq<Option<Message>>)
    requires Indexable(incoming) && |incoming| > 0
    requires incoming[0].Some? && incoming[0].value.tag != Err
    ensures Indexable(incoming[1..])
    ensures var rest := ReceiveLoop(incoming[1..]);
      ReceiveLoop(incoming) == if incoming[0].value.tag == Delivery
        then Listening([SplitDelivery(incoming[0].value.data)] + rest.printed, rest.exit)
        else rest
  {
    assert forall j :: 0 <= j < |incoming| - 1 ==> incoming[1..][j] == incoming[j + 1];
  }

  /** A delivery of a server-built payload prints exactly the sender and the text. */
  lemma {:induction false} PrintsBroadcast(room: string, sender: string, text: string, rest: seq<Option<Message>>)
    requires NoColon(room) && NoColon(sender) && |Payload(room, sender, text)| < NPOS && Indexable(rest)
    ensures Indexable([Some(Message(Delivery, Payload(room, sender, text)))] + rest)
    ensures ReceiveLoop([Some(Message(Delivery, Payload(room, sender, text)))] + rest).printed
      == [(sender, text)] + ReceiveLoop(rest).printed
  {
    var incoming := [Some(Message(Delivery, Payload(room, sender, text)))] + rest;
    assert incoming[1..] == rest;
    assert forall j :: 1 <= j < |incoming| ==> incoming[j] == rest[j - 1];
    PayloadRoundTrip(room, sender, text);
  }
}
