/**
 * room.cpp: a named room, the set of receiving users in it, and the
 * fan-out of one broadcast into every member's queue. A `User *` is
 * modelled by an identity; each live user owns one queue, kept in a map
 * from identity to queue.
 */
module ChatRoom {
  import opened ChatMessage
  import opened MessageQueue

  /** The identity of a `User` object (two receivers may share a username). */
  type UserId = nat

  datatype Room = Room(name: string, members: set<UserId>)

  /** Every user's delivery queue. */
  type Queues = map<UserId, Queue<Message>>

  /** add_member: insert into the member set. */
  function AddMember(r: Room, u: UserId): (r': Room)
    ensures r'.name == r.name && u in r'.members
    ensures forall v :: v in r'.members <==> v in r.members || v == u
    ensures u in r.members ==> r' == r
  {
    r.(members := r.members + {u})
  }

  /** remove_member: erase from the member set. */
  function RemoveMember(r: Room, u: UserId): (r': Room)
    ensures r'.name == r.name && u !in r'.members
    ensures forall v :: v != u ==> (v in r'.members <==> v in r.members)
    ensures u !in r.members ==> r' == r
  {
    r.(members := r.members - {u})
  }

  /** The delivery payload `room:sender:text`. */
  function Payload(room: string, sender: string, text: string): (p: string)
    ensures |p| == |room| + |sender| + |text| + 2
    ensures p[..|room|] == room && p[|room|] == ':'
    ensures p[|room| + 1..|room| + 1 + |sender|] == sender && p[|room| + 1 + |sender|] == ':'
    ensures p[|room| + |sender| + 2..] == text
  {
    room + ":" + sender + ":" + text
  }

  /** The message each member receives for one broadcast. */
  function DeliveryOf(r: Room, sender: string, text: string): Message
  {
    Message(Delivery, Payload(r.name, sender, text))
  }

  /** Every member has a queue (members are live users). */
  predicate MembersHaveQueues(r: Room, qs: Queues)
  {
    r.members <= qs.Keys
  }

  /**
   * broadcast_message: one DELIVERY per member, appended to that
   * member's queue; the member set iteration order does not matter
   * because each member's queue is touched once.
   */
  function Broadcast(r: Room, sender: string, text: string, qs: Queues): (qs': Queues)
    requires MembersHaveQueues(r, qs)
    ensures qs'.Keys == qs.Keys
    ensures forall u :: u in r.members ==>
      qs'[u].items == qs[u].items + [DeliveryOf(r, sender, text)]
    ensures forall u :: u in qs && u !in r.members ==> qs'[u] == qs[u]
    ensures forall u :: u in qs && Valid(qs[u]) ==> Valid(qs'[u])
  {
    map u | u in qs :: if u in r.members then Enqueue(qs[u], DeliveryOf(r, sender, text)) else qs[u]
  }

  /** The total number of queued messages. */
  function Pending(qs: Queues, users: seq<UserId>): nat
    requires forall i :: 0 <= i < |users| ==> users[i] in qs
  {
    if |users| == 0 then 0 else |qs[users[0]].items| + Pending(qs, users[1..])
  }

  /** How many entries of `users` are members of `r`. */
  function MembersAmong(r: Room, users: seq<UserId>): nat
  {
    if |users| == 0 then 0 else (if users[0] in r.members then 1 else 0) + MembersAmong(r, users[1..])
  }

  /** A broadcast adds exactly one message per member to the total pending over any list of users. */
  lemma {:induction false} BroadcastAddsOnePerMember(r: Room, sender: string, text: string, qs: Queues, users: seq<UserId>)
    requires MembersHaveQueues(r, qs)
    requires forall i :: 0 <= i < |users| ==> users[i] in qs
    ensures Pending(Broadcast(r, sender, text, qs), users) == Pending(qs, users) + MembersAmong(r, users)
    decreases |users|
  {
    if |users| > 0 {
      BroadcastAddsOnePerMember(r, sender, text, qs, users[1..]);
    }
  }
}
