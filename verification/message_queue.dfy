/**
 * message_queue.cpp: a subscriber's pending deliveries. The deque of
 * messages is a sequence; the semaphore `m_avail` is the count of posts
 * not yet consumed. The mutex and the one-second timeout of
 * `sem_timedwait` are not modelled: a wait on a zero count times out.
 */
module MessageQueue {
  import opened Wrappers

  datatype Queue<T> = Queue(items: seq<T>, available: nat)

  /** Between operations the semaphore counts exactly the queued messages. */
  predicate Valid<T>(q: Queue<T>)
  {
    q.available == |q.items|
  }

  /** The constructor: an empty deque and a semaphore initialised to 0. */
  function NewQueue<T>(): (q: Queue<T>)
    ensures Valid(q) && |q.items| == 0
  {
    Queue([], 0)
  }

  /** enqueue: push at the back, then post once; it cannot fail. */
  function Enqueue<T>(q: Queue<T>, m: T): (r: Queue<T>)
    ensures |r.items| == |q.items| + 1 && r.items[..|q.items|] == q.items && r.items[|q.items|] == m
    ensures Valid(q) ==> Valid(r)
  {
    Queue(q.items + [m], q.available + 1)
  }

  /**
   * dequeue: a wait on a zero count gives null; otherwise one post is
   * consumed and, under the lock, the front is popped (null if the deque
   * is somehow empty).
   */
  function Dequeue<T>(q: Queue<T>): (r: (Option<T>, Queue<T>))
    ensures Valid(q) ==> Valid(r.1)
    ensures Valid(q) ==> (r.0.None? <==> |q.items| == 0)
    ensures Valid(q) && r.0.None? ==> r.1 == q
    ensures r.0.Some? ==> q.items == [r.0.value] + r.1.items && r.1.available < q.available
  {
    if q.available == 0 then (None, q)
    else
      var q1 := q.(available := q.available - 1);
      if |q1.items| == 0 then (None, q1)
      else (Some(q1.items[0]), q1.(items := q1.items[1..]))
  }

  /** Everything a consumer obtains by dequeuing until it is handed null. */
  function Drain<T>(q: Queue<T>): seq<T>
    decreases q.available
  {
    var (m, rest) := Dequeue(q);
    if m.None? then [] else [m.value] + Drain(rest)
  }

  /** Enqueue each of `ms` in turn. */
  function EnqueueAll<T>(q: Queue<T>, ms: seq<T>): (r: Queue<T>)
    ensures Valid(q) ==> Valid(r)
    decreases |ms|
  {
    if |ms| == 0 then q else EnqueueAll(Enqueue(q, ms[0]), ms[1..])
  }

  /** Enqueuing appends: the deque afterwards is the old one followed by `ms`, in order. */
  lemma {:induction false} EnqueueAllAppends<T>(q: Queue<T>, ms: seq<T>)
    ensures EnqueueAll(q, ms).items == q.items + ms
    decreases |ms|
  {
    if |ms| > 0 {
      var q1 := Enqueue(q, ms[0]);
      assert q1.items == q.items + [ms[0]];
      EnqueueAllAppends(q1, ms[1..]);
      assert q.items + [ms[0]] + ms[1..] == q.items + ms;
    }
  }

  /** Draining a consistent queue yields exactly its contents, front first. */
  lemma {:induction false} DrainIsContents<T>(q: Queue<T>)
    requires Valid(q)
    ensures Drain(q) == q.items
    decreases q.available
  {
    var (m, rest) := Dequeue(q);
    if m.Some? {
      DrainIsContents(rest);
    }
  }

  /** FIFO: whatever is enqueued comes out after what was there, in enqueue order. */
  lemma FifoOrder<T>(q: Queue<T>, ms: seq<T>)
    requires Valid(q)
    ensures Drain(EnqueueAll(q, ms)) == q.items + ms
  {
    EnqueueAllAppends(q, ms);
    DrainIsContents(EnqueueAll(q, ms));
  }

  /** A message enqueued onto a non-empty queue does not overtake its front. */
  lemma EnqueueKeepsFront<T>(q: Queue<T>, m: T)
    requires Valid(q) && |q.items| > 0
    ensures Dequeue(Enqueue(q, m)).0 == Dequeue(q).0 == Some(q.items[0])
    ensures Dequeue(Enqueue(q, m)).1 == Enqueue(Dequeue(q).1, m)
  {
    assert (q.items + [m])[1..] == q.items[1..] + [m];
  }
}
