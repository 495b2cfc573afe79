/** The message queue that carries a traffic light's phase changes to its
    waiters. Underneath the locking it is a double-ended queue: `send` pushes
    a message at the front and `receive` takes the one at the back, so
    messages come out in the order they went in. The blocking wait of
    `receive` becomes its precondition: the queue is not empty. */
module MessageQueues {

  /** The order in which successive receives hand out the messages of the
      deque `q` (index 0 is the front, the last index the back): the back
      first, so this is `q` read backwards. */
  function Deliveries<T>(q: seq<T>): (r: seq<T>)
    ensures |r| == |q|
  {
    if q == [] then [] else [q[|q| - 1]] + Deliveries(q[..|q| - 1])
  }

  /** The `i`-th receive returns the message `i` places from the back. */
  lemma {:induction false} DeliveriesAt<T>(q: seq<T>, i: nat)
    requires i < |q|
    ensures Deliveries(q)[i] == q[|q| - 1 - i]
  {
    if i > 0 {
      DeliveriesAt(q[..|q| - 1], i - 1);
    }
  }

  /** The deque after sending `msgs`, first to last, to the deque `q`. */
  function SendAll<T>(q: seq<T>, msgs: seq<T>): (r: seq<T>)
    ensures |r| == |q| + |msgs|
    decreases |msgs|
  {
    if msgs == [] then q else SendAll([msgs[0]] + q, msgs[1..])
  }

  /** A message pushed at the front is delivered after everything already pending. */
  lemma {:induction false} DeliveriesAfterSend<T>(q: seq<T>, msg: T)
    ensures Deliveries([msg] + q) == Deliveries(q) + [msg]
    decreases |q|
  {
    if q != [] {
      var last := |q| - 1;
      assert ([msg] + q)[..last + 1] == [msg] + q[..last];
      DeliveriesAfterSend(q[..last], msg);
    }
  }

  /** Taking one message off a non-empty deque delivers the first pending one
      and leaves the rest pending in the same order. */
  lemma DeliveriesAfterReceive<T>(q: seq<T>)
    requires q != []
    ensures Deliveries(q) == [q[|q| - 1]] + Deliveries(q[..|q| - 1])
  {
  }

  /** After `n` receives, what is left pending is the original delivery
      order without its first `n` messages. */
  lemma {:induction false} DeliveriesOfPrefix<T>(q: seq<T>, n: nat)
    requires n <= |q|
    ensures Deliveries(q[..|q| - n]) == Deliveries(q)[n..]
  {
    var rest := q[..|q| - n];
    forall i | 0 <= i < |rest|
      ensures Deliveries(rest)[i] == Deliveries(q)[n..][i]
    {
      DeliveriesAt(rest, i);
      DeliveriesAt(q, n + i);
    }
  }

  /** First in, first out: after sending `msgs` one by one, the receives hand
      out what was already pending and then `msgs` in the order sent. */
  lemma {:induction false} Fifo<T>(q: seq<T>, msgs: seq<T>)
    ensures Deliveries(SendAll(q, msgs)) == Deliveries(q) + msgs
    decreases |msgs|
  {
    if msgs != [] {
      Fifo([msgs[0]] + q, msgs[1..]);
      DeliveriesAfterSend(q, msgs[0]);
      assert msgs == [msgs[0]] + msgs[1..];
    }
  }

  /** A single consumer of an initially empty queue receives exactly the
      messages sent, in the order sent. */
  lemma FifoFromEmpty<T>(msgs: seq<T>)
    ensures Deliveries(SendAll([], msgs)) == msgs
  {
    Fifo([], msgs);
  }

  /** `MessageQueue<T>`: the deque `_queue` as a sequence whose index 0 is
      the front and whose last index is the back. */
  class MessageQueue<T> {
    var queue: seq<T>

    /** The pending messages in the order receives will return them. */
    ghost function Pending(): (p: seq<T>)
      reads this
    {
      Deliveries(queue)
    }

    constructor ()
      ensures queue == [] && Pending() == []
    {
      queue := [];
    }

    /** `send`: push the message at the front of the deque; it becomes the
        newest pending message. */
    method Send(msg: T)
      modifies this
      ensures queue == [msg] + old(queue)
      ensures Pending() == old(Pending()) + [msg]
    {
      DeliveriesAfterSend(queue, msg);
      queue := [msg] + queue;
    }

    /** `receive`, once the deque is non-empty: take the message at the back
        of the deque, which is the oldest pending one. */
    method Receive() returns (msg: T)
      requires queue != []
      modifies this
      ensures msg == old(queue[|queue| - 1])
      ensures queue == old(queue[..|queue| - 1])
      ensures old(Pending()) == [msg] + Pending()
    {
      DeliveriesAfterReceive(queue);
      msg := queue[|queue| - 1];
      queue := queue[..|queue| - 1];
    }
  }
}
