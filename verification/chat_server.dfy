/**
 * server.cpp without threads or sockets: the room registry, the login
 * dispatch of a new connection, and the two per-connection state
 * machines (a sender's command loop, a receiver's join-then-deliver
 * loop). What a connection reads is a sequence of `Incoming` values;
 * what the server writes back is the sequence of replies; the outcome of
 * each delivery send is an input.
 */
module ChatServer {
  import opened Wrappers
  import opened ChatMessage
  import opened MessageQueue
  import opened ChatRoom

  /** `m_rooms`: rooms by name. */
  type Registry = map<string, Room>

  /** Every room is filed under its own name. */
  predicate RegistryValid(reg: Registry)
  {
    forall k :: k in reg ==> reg[k].name == k
  }

  /** The registry leaves every room it had in place: keys only grow, old rooms are untouched. */
  predicate Extends(reg': Registry, reg: Registry)
  {
    forall k :: k in reg ==> k in reg' && reg'[k] == reg[k]
  }

  /** find_or_create_room: the existing room of that name, or a new empty one filed under it. */
  function FindOrCreate(reg: Registry, name: string): (r: (Room, Registry))
    ensures name in reg ==> r.0 == reg[name] && r.1 == reg
    ensures name !in reg ==> r.0.members == {} && r.0.name == name
    ensures r.1.Keys == reg.Keys + {name} && r.1[name] == r.0
    ensures Extends(r.1, reg)
    ensures RegistryValid(reg) ==> RegistryValid(r.1) && r.0.name == name
  {
    if name in reg then (reg[name], reg)
    else
      var room := Room(name, {});
      (room, reg[name := room])
  }

  /** Looking the same name up twice gives the same room and adds nothing the second time. */
  lemma {:induction false} FindOrCreateStable(reg: Registry, name: string)
    ensures FindOrCreate(FindOrCreate(reg, name).1, name) == FindOrCreate(reg, name)
  {
    var (room, reg1) := FindOrCreate(reg, name);
    assert name in reg1 && reg1[name] == room;
  }

  /** The server's shared state: the registry and every live receiver's queue. */
  datatype State = State(rooms: Registry, queues: Queues)

  /** Rooms are filed by name, members are live users, and every queue's count matches its length. */
  predicate Consistent(st: State)
  {
    && RegistryValid(st.rooms)
    && (forall k :: k in st.rooms ==> MembersHaveQueues(st.rooms[k], st.queues))
    && (forall u :: u in st.queues ==> Valid(st.queues[u]))
  }

  // ---------------------------------------------------------------------
  // login dispatch (worker)
  // ---------------------------------------------------------------------

  /** The role a connection takes after its first message. */
  datatype Role = NoRole | SenderRole(username: string) | ReceiverRole(username: string)

  /** The first message must be slogin or rlogin; the reply and the role it leads to. */
  function Login(inc: Incoming): (r: (Message, Role))
    ensures r.1.SenderRole? <==> inc.Got? && inc.msg.tag == SLogin
    ensures r.1.ReceiverRole? <==> inc.Got? && inc.msg.tag == RLogin
    ensures r.1 != NoRole ==> r.0 == OkReply() && r.1.username == inc.msg.data
    ensures r.1 == NoRole ==> r.0.tag == Err
    ensures inc == Closed ==> r.0 == ErrReply("Invalid login")
    ensures inc.Malformed? ==> r.0 == ErrReply(inc.reason)
    ensures inc.Got? && inc.msg.tag != SLogin && inc.msg.tag != RLogin ==>
      r.0 == ErrReply("Expected slogin or rlogin")
  {
    match inc
    case Closed => (ErrReply("Invalid login"), NoRole)
    case Malformed(reason) => (ErrReply(reason), NoRole)
    case Got(m) =>
      if m.tag == SLogin then (OkReply(), SenderRole(m.data))
      else if m.tag == RLogin then (OkReply(), ReceiverRole(m.data))
      else (ErrReply("Expected slogin or rlogin"), NoRole)
  }

  // ---------------------------------------------------------------------
  // chat_with_sender
  // ---------------------------------------------------------------------

  /** A sender's current room is a room of the registry. */
  predicate SenderReady(st: State, current: Option<string>)
  {
    Consistent(st) && (current.Some? ==> current.value in st.rooms)
  }

  /** The outcome of one request on a sender connection. */
  datatype SenderStep = SenderStep(st: State, current: Option<string>, reply: Option<Message>, done: bool)

  /** One iteration of the sender loop. */
  function SenderHandle(st: State, username: string, current: Option<string>, inc: Incoming): (r: SenderStep)
    requires SenderReady(st, current)
    ensures SenderReady(r.st, r.current)
    ensures Extends(r.st.rooms, st.rooms)
    ensures r.reply.None? <==> inc == Closed
    ensures r.done <==> inc == Closed || (inc.Got? && inc.msg.tag == Quit)
    // a failed read ends the session silently; a decoding error is reported and the loop goes on
    ensures inc == Closed ==> r.st == st
    ensures inc.Malformed? ==> r.reply == Some(ErrReply(inc.reason)) && r.st == st && r.current == current
    // JOIN: the current room becomes the (possibly new) room of that name
    ensures inc.Got? && inc.msg.tag == Join ==>
      && r.current == Some(inc.msg.data) && r.reply == Some(OkReply())
      && r.st == st.(rooms := FindOrCreate(st.rooms, inc.msg.data).1)
    // SENDALL: refused outside a room, otherwise one broadcast to the current room
    ensures inc.Got? && inc.msg.tag == SendAll && current.None? ==>
      r.reply == Some(ErrReply("Not in a room")) && r.st == st
    ensures inc.Got? && inc.msg.tag == SendAll && current.Some? ==>
      && r.reply == Some(OkReply()) && r.current == current && r.st.rooms == st.rooms
      && r.st.queues == Broadcast(st.rooms[current.value], username, inc.msg.data, st.queues)
    // LEAVE: refused outside a room, otherwise the current room is cleared
    ensures inc.Got? && inc.msg.tag == Leave ==> r.st == st
    ensures inc.Got? && inc.msg.tag == Leave && current.None? ==> r.reply == Some(ErrReply("Not in a room"))
    ensures inc.Got? && inc.msg.tag == Leave && current.Some? ==> r.reply == Some(OkReply()) && r.current.None?
    // QUIT is acknowledged; any other tag is an invalid command
    ensures inc.Got? && inc.msg.tag == Quit ==> r.reply == Some(OkReply()) && r.st == st
    ensures inc.Got? && inc.msg.tag !in {Join, SendAll, Leave, Quit} ==>
      r.reply == Some(ErrReply("Invalid command")) && r.st == st && r.current == current
  {
    match inc
    case Closed => SenderStep(st, current, None, true)
    case Malformed(reason) => SenderStep(st, current, Some(ErrReply(reason)), false)
    case Got(m) =>
      if m.tag == Join then
        var (room, reg) := FindOrCreate(st.rooms, m.data);
        SenderStep(st.(rooms := reg), Some(room.name), Some(OkReply()), false)
      else if m.tag == SendAll then
        if current.None? then SenderStep(st, current, Some(ErrReply("Not in a room")), false)
        else
          var qs := Broadcast(st.rooms[current.value], username, m.data, st.queues);
          SenderStep(st.(queues := qs), current, Some(OkReply()), false)
      else if m.tag == Leave then
        if current.None? then SenderStep(st, current, Some(ErrReply("Not in a room")), false)
        else SenderStep(st, None, Some(OkReply()), false)
      else if m.tag == Quit then SenderStep(st, current, Some(OkReply()), true)
      else SenderStep(st, current, Some(ErrReply("Invalid command")), false)
  }

  /** The state a sender session leaves and the replies it wrote. */
  datatype Run = Run(st: State, replies: seq<Message>)

  /** chat_with_sender: handle requests until a read fails, QUIT, or the input runs out. */
  function SenderSession(st: State, username: string, current: Option<string>, incoming: seq<Incoming>): (r: Run)
    requires SenderReady(st, current)
    ensures Consistent(r.st)
    ensures Extends(r.st.rooms, st.rooms)
    ensures |r.replies| <= |incoming|
    decreases |incoming|
  {
    if |incoming| == 0 then Run(st, [])
    else
      var s := SenderHandle(st, username, current, incoming[0]);
      var out := if s.reply.Some? then [s.reply.value] else [];
      if s.done then Run(s.st, out)
      else
        var rest := SenderSession(s.st, username, s.current, incoming[1..]);
        Run(rest.st, out + rest.replies)
  }

  /** A sender session never changes any room's membership: senders only broadcast. */
  lemma {:induction false} SenderKeepsMembership(st: State, username: string, current: Option<string>, incoming: seq<Incoming>)
    requires SenderReady(st, current)
    ensures var r := SenderSession(st, username, current, incoming);
      r.st.queues.Keys == st.queues.Keys &&
      forall k :: k in r.st.rooms ==> r.st.rooms[k].members == (if k in st.rooms then st.rooms[k].members else {})
    decreases |incoming|
  {
    if |incoming| > 0 {
      var s := SenderHandle(st, username, current, incoming[0]);
      if !s.done {
        SenderKeepsMembership(s.st, username, s.current, incoming[1..]);
      }
    }
  }

  /** Until the session ends, every request gets exactly one reply. */
  lemma {:induction false} SenderRepliesOncePerRequest(st: State, username: string, current: Option<string>, incoming: seq<Incoming>)
    requires SenderReady(st, current)
    requires forall i :: 0 <= i < |incoming| ==> incoming[i] != Closed && !(incoming[i].Got? && incoming[i].msg.tag == Quit)
    ensures |SenderSession(st, username, current, incoming).replies| == |incoming|
    decreases |incoming|
  {
    if |incoming| > 0 {
      var s := SenderHandle(st, username, current, incoming[0]);
      SenderRepliesOncePerRequest(s.st, username, s.current, incoming[1..]);
    }
  }

  // ---------------------------------------------------------------------
  // chat_with_receiver
  // ---------------------------------------------------------------------

  /** The outcome of the receiver's mandatory JOIN. */
  datatype JoinOutcome = Joined(st: State, room: string, reply: Message) | Refused(reply: Message)

  /** `user` belongs to `room` and to no other room. */
  predicate OnlyIn(st: State, user: UserId, room: string)
  {
    && room in st.rooms && user in st.rooms[room].members && user in st.queues
    && (forall k :: k in st.rooms && k != room ==> user !in st.rooms[k].members)
  }

  /**
   * The first message after rlogin must be JOIN: then the (new) user is
   * added to that room with an empty queue and acknowledged; otherwise it
   * is refused and never reaches any room.
   */
  function ReceiverJoin(st: State, user: UserId, inc: Incoming): (r: JoinOutcome)
    requires Consistent(st) && user !in st.queues
    ensures r.Joined? <==> inc.Got? && inc.msg.tag == Join
    ensures r.Refused? && inc.Malformed? ==> r.reply == ErrReply(inc.reason)
    ensures r.Refused? && !inc.Malformed? ==> r.reply == ErrReply("Expected join")
    ensures r.Joined? ==>
      && r.reply == OkReply() && r.room == inc.msg.data
      && Consistent(r.st) && OnlyIn(r.st, user, r.room)
      && r.st.queues == st.queues[user := NewQueue()]
      && r.st.rooms.Keys == st.rooms.Keys + {r.room}
      && (forall k :: k in st.rooms && k != r.room ==> r.st.rooms[k] == st.rooms[k])
      && (forall v :: v in r.st.rooms[r.room].members <==> v == user || (r.room in st.rooms && v in st.rooms[r.room].members))
  {
    match inc
    case Closed => Refused(ErrReply("Expected join"))
    case Malformed(reason) => Refused(ErrReply(reason))
    case Got(m) =>
      if m.tag != Join then Refused(ErrReply("Expected join"))
      else
        var (room, reg) := FindOrCreate(st.rooms, m.data);
        var st' := State(reg[m.data := AddMember(room, user)], st.queues[user := NewQueue()]);
        Joined(st', m.data, OkReply())
  }

  /** The outcome of one pass of the delivery loop. */
  datatype DeliverStep = DeliverStep(st: State, sent: Option<Message>, done: bool)

  /**
   * One pass of the delivery loop: nothing queued means wait again; the
   * front message is sent; a failed send removes the user from its room,
   * discards the user and its queue, and ends the session.
   */
  function ReceiverDeliver(st: State, user: UserId, room: string, sendOk: bool): (r: DeliverStep)
    requires Consistent(st) && OnlyIn(st, user, room)
    ensures Consistent(r.st)
    ensures r.st.rooms.Keys == st.rooms.Keys
    ensures forall k :: k in st.rooms && k != room ==> r.st.rooms[k] == st.rooms[k]
    ensures forall u :: u in st.queues && u != user ==> u in r.st.queues && r.st.queues[u] == st.queues[u]
    ensures |st.queues[user].items| == 0 ==> r == DeliverStep(st, None, false)
    ensures |st.queues[user].items| > 0 && sendOk ==>
      && r.sent == Some(st.queues[user].items[0]) && !r.done && r.st.rooms == st.rooms
      && OnlyIn(r.st, user, room) && r.st.queues[user].items == st.queues[user].items[1..]
    ensures |st.queues[user].items| > 0 && !sendOk ==>
      && r.done && r.sent.None? && user !in r.st.queues
      && r.st.rooms[room] == RemoveMember(st.rooms[room], user)
  {
    var (m, q) := Dequeue(st.queues[user]);
    if m.None? then DeliverStep(st.(queues := st.queues[user := q]), None, false)
    else if sendOk then DeliverStep(st.(queues := st.queues[user := q]), Some(m.value), false)
    else
      var rooms := st.rooms[room := RemoveMember(st.rooms[room], user)];
      DeliverStep(State(rooms, st.queues - {user}), None, true)
  }

  /** The state a receiver session leaves, what it delivered, and whether it ended. */
  datatype Delivered = Delivered(st: State, sent: seq<Message>, ended: bool)

  /** The delivery loop over a sequence of passes, each with the outcome its send would have. */
  function ReceiverLoop(st: State, user: UserId, room: string, sends: seq<bool>): (r: Delivered)
    requires Consistent(st) && OnlyIn(st, user, room)
    ensures Consistent(r.st)
    ensures r.ended <==> user !in r.st.queues
    ensures !r.ended ==> OnlyIn(r.st, user, room)
    decreases |sends|
  {
    if |sends| == 0 then Delivered(st, [], false)
    else
      var s := ReceiverDeliver(st, user, room, sends[0]);
      var out := if s.sent.Some? then [s.sent.value] else [];
      if s.done then Delivered(s.st, out, true)
      else
        var rest := ReceiverLoop(s.st, user, room, sends[1..]);
        Delivered(rest.st, out + rest.sent, rest.ended)
  }

  /** With every send succeeding, a receiver is handed its queue front first (FIFO delivery). */
  lemma {:induction false} ReceiverDeliversInOrder(st: State, user: UserId, room: string, sends: seq<bool>)
    requires Consistent(st) && OnlyIn(st, user, room)
    requires forall i :: 0 <= i < |sends| ==> sends[i]
    ensures var items := st.queues[user].items;
      var n := if |sends| < |items| then |sends| else |items|;
      ReceiverLoop(st, user, room, sends).sent == items[..n]
    decreases |sends|
  {
    if |sends| > 0 {
      var items := st.queues[user].items;
      var s := ReceiverDeliver(st, user, room, sends[0]);
      ReceiverDeliversInOrder(s.st, user, room, sends[1..]);
      if |items| > 0 {
        assert s.st.queues[user].items == items[1..];
        var n := if |sends| < |items| then |sends| else |items|;
        assert [items[0]] + items[1..][..n - 1] == items[..n];
      }
    }
  }

  // ---------------------------------------------------------------------
  // a whole connection
  // ---------------------------------------------------------------------

  /**
   * worker: read the login, reply, then run the sender or receiver
   * session on the rest of the input. `user` is the identity the
   * receiver's `User` object gets; `sends` are its delivery outcomes.
   */
  function Serve(st: State, user: UserId, incoming: seq<Incoming>, sends: seq<bool>): (r: Run)
    requires Consistent(st) && user !in st.queues
    ensures Consistent(r.st)
    ensures |r.replies| >= 1 && r.replies[0] == Login(if |incoming| == 0 then Closed else incoming[0]).0
    ensures Login(if |incoming| == 0 then Closed else incoming[0]).1 == NoRole ==> r == Run(st, r.replies) && |r.replies| == 1
  {
    var login := if |incoming| == 0 then Closed else incoming[0];
    var (reply, role) := Login(login);
    match role
    case NoRole => Run(st, [reply])
    case SenderRole(name) =>
      var run := SenderSession(st, name, None, incoming[1..]);
      Run(run.st, [reply] + run.replies)
    case ReceiverRole(_) =>
      var j := if |incoming| < 2 then Closed else incoming[1];
      match ReceiverJoin(st, user, j)
      case Refused(m) => Run(st, [reply, m])
      case Joined(st', room, ok) =>
        var d := ReceiverLoop(st', user, room, sends);
        Run(d.st, [reply, ok] + d.sent)
  }

  /** A connection whose first message is SENDALL is told to log in and nothing else happens. */
  lemma ScenarioNoLogin(st: State, user: UserId)
    requires Consistent(st) && user !in st.queues
    ensures Serve(st, user, [Got(Message(SendAll, "hi"))], []) == Run(st, [ErrReply("Expected slogin or rlogin")])
  {
  }

  /** A sender that sends before joining any room is refused. */
  lemma ScenarioSendBeforeJoin(st: State, user: UserId)
    requires Consistent(st) && user !in st.queues
    ensures Serve(st, user, [Got(Message(SLogin, "alice")), Got(Message(SendAll, "hi"))], []).replies
      == [OkReply(), ErrReply("Not in a room")]
  {
    var s := SenderHandle(st, "alice", None, Got(Message(SendAll, "hi")));
    assert SenderSession(s.st, "alice", s.current, []).replies == [];
  }

  /**
   * A receiver joined to "lobby"; "alice" joins "lobby" and sends "hi";
   * the receiver's next delivery is `lobby:alice:hi`.
   */
  lemma {:induction false} ScenarioDelivery(user: UserId)
    ensures var st0 := State(map[], map[]);
      var j := ReceiverJoin(st0, user, Got(Message(Join, "lobby")));
      j.Joined? &&
      var s := SenderSession(j.st, "alice", None, [Got(Message(Join, "lobby")), Got(Message(SendAll, "hi"))]);
      s.replies == [OkReply(), OkReply()] &&
      OnlyIn(s.st, user, "lobby") &&
      ReceiverDeliver(s.st, user, "lobby", true).sent == Some(Message(Delivery, "lobby:alice:hi"))
  {
    var st0 := State(map[], map[]);
    var j := ReceiverJoin(st0, user, Got(Message(Join, "lobby")));
    var s1 := SenderHandle(j.st, "alice", None, Got(Message(Join, "lobby")));
    assert s1.st == j.st && s1.current == Some("lobby");
    assert j.st.queues[user].items == [] && user in j.st.rooms["lobby"].members;
    assert Payload("lobby", "alice", "hi") == "lobby:alice:hi";
    var s2 := SenderHandle(s1.st, "alice", s1.current, Got(Message(SendAll, "hi")));
    assert s2.st.queues[user].items == [Message(Delivery, "lobby:alice:hi")];
    assert SenderSession(s1.st, "alice", s1.current, [Got(Message(SendAll, "hi"))]) == Run(s2.st, [OkReply()]);
    assert [Got(Message(Join, "lobby")), Got(Message(SendAll, "hi"))][1..] == [Got(Message(SendAll, "hi"))];
    SenderKeepsMembership(j.st, "alice", None, [Got(Message(Join, "lobby")), Got(Message(SendAll, "hi"))]);
  }
}
