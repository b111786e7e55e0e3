// The bookkeeping of server::poll (http.hpp lines 308-454) on values: which
// sockets to watch, accepting a connection, receiving and parsing bytes and
// handing each completed request to the handler with a fresh message slot
// queued behind the connection's earlier ones, sending ready messages, and
// reaping closed connections together with their message slots. The
// operating system (select, accept, recv, send) is an `Environment` of
// functions. The class in server.dfy runs these phases in place.
module Poll {
  import opened Text
  import opened RequestParser
  import opened MessageQueue
  import opened Response

  /** struct client: its socket, its queue of message slots, its parser. */
  datatype Client = Client(socket: Socket, queue: seq<nat>, parser: ParserState)

  /** Size of the buffer recv() fills. */
  const BufferSize: nat := 20000

  /** One recv() call: EAGAIN/EWOULDBLOCK, another error, or the bytes it returned (none: closed). */
  datatype RecvResult = RecvWouldBlock | RecvFailed | Received(bytes: string)

  /** One select() call: it timed out, it failed, or these sockets are readable / writable. */
  datatype SelectResult = Timeout | SelectFailed | Ready(readable: set<Socket>, writable: set<Socket>)

  /**
   * The operating system as seen by one poll: select() given the watched
   * sets, the socket accept() returns, and recv() / send() results.
   */
  datatype Environment = Environment(
    select: (set<Socket>, set<Socket>) -> SelectResult,
    accept: Socket,
    recv: Socket -> RecvResult,
    send: Sender)

  /**
   * What the handler does with the response it is given: fill it in and
   * let it go out of scope, or move it away to finish it later.
   */
  datatype Reply = Answer(code: int, reason: string, headers: seq<Header>, body: string) | Defer

  /** The server's connections, its live message slots, and the next unused slot id. */
  datatype World = World(clients: seq<Client>, slots: Slots, nextSlot: nat)

  /** Some connection still queues message `id`, so a response to it can lock its slot. */
  predicate Owned(clients: seq<Client>, id: nat)
  {
    exists i :: 0 <= i < |clients| && id in clients[i].queue
  }

  predicate Apart(a: seq<nat>, b: seq<nat>)
  {
    forall k :: 0 <= k < |a| ==> a[k] !in b
  }

  /** No message is queued on two connections. */
  predicate Disjoint(clients: seq<Client>)
  {
    forall i, j :: 0 <= i < j < |clients| ==> Apart(clients[i].queue, clients[j].queue)
  }

  /**
   * What holds between the phases: each queue is a list of live, distinct
   * slots, no two connections share a slot, a slot lives exactly as long as
   * some queue holds it, ids already handed out are below `nextSlot`, and an
   * open connection's parser has not failed.
   */
  predicate Good(w: World)
  {
    && (forall i :: 0 <= i < |w.clients| ==> QueueIn(w.clients[i].queue, w.slots))
    && (forall i :: 0 <= i < |w.clients| && w.clients[i].socket != InvalidSocket ==> Valid(w.clients[i].parser))
    && Disjoint(w.clients)
    && (forall id :: id in w.slots ==> id < w.nextSlot && Owned(w.clients, id))
  }

  /** Every connection is open, as after reaping. */
  predicate AllOpen(clients: seq<Client>)
  {
    forall i :: 0 <= i < |clients| ==> clients[i].socket != InvalidSocket
  }

  // ---------------------------------------------------------------- handing requests on

  /** A connection's queue, the slot table and what the handler kept, while requests are handed on. */
  datatype Dispatched = Dispatched(queue: seq<nat>, slots: Slots, nextSlot: nat, kept: seq<Response>)

  /**
   * The continuation of parse_bytes for one request: a new, not yet ready
   * message goes at the end of the queue, and the handler gets a fresh
   * response bound to it. An answered response is delivered at once; a
   * deferred one is returned to the caller.
   */
  function HandleOne(d: Dispatched, req: Request, handler: Request -> Reply): (r: Dispatched)
  {
    var id := d.nextSlot;
    var reply := handler(req);
    Dispatched(d.queue + [id], d.slots[id := ReplyMessage(id, reply)], id + 1,
               if reply.Defer? then d.kept + [Fresh(id)] else d.kept)
  }

  /** The message in slot `id` once the handler has replied: the answer, or still empty. */
  function ReplyMessage(id: nat, reply: Reply): Message
  {
    match reply
    case Answer(code, reason, headers, body) => Message(true, Serialize(Response(code, reason, headers, body, Some(id))))
    case Defer => Message(false, [])
  }

  /**
   * An answered request is the response's destructor at work: the new slot
   * is created empty, and the response bound to it, going out of scope,
   * fills it.
   */
  lemma AnswerIsDelivered(d: Dispatched, req: Request, handler: Request -> Reply)
    requires handler(req).Answer?
    ensures var a := handler(req);
      var id := d.nextSlot;
      HandleOne(d, req, handler).slots ==
        Deliver(d.slots[id := Message(false, [])], Response(a.code, a.reason, a.headers, a.body, Some(id)))
  {
  }

  /** The continuation run for each completed request, in order. */
  function Dispatch(d: Dispatched, reqs: seq<Request>, handler: Request -> Reply): (r: Dispatched)
    decreases |reqs|
  {
    if reqs == [] then d
    else HandleOne(Dispatch(d, reqs[..|reqs| - 1], handler), reqs[|reqs| - 1], handler)
  }

  /** The ids lo, lo+1, ..., lo+n-1. */
  function Range(lo: nat, n: nat): (r: seq<nat>)
    ensures |r| == n && forall k :: 0 <= k < n ==> r[k] == lo + k
  {
    seq(n, k requires 0 <= k < n => lo + k)
  }

  /**
   * Each request gets the next id, in order, at the end of the queue; the
   * slot table gains exactly those ids and keeps every existing message.
   */
  lemma {:induction false} DispatchShape(d: Dispatched, reqs: seq<Request>, handler: Request -> Reply)
    requires forall id :: id in d.slots ==> id < d.nextSlot
    ensures var r := Dispatch(d, reqs, handler);
      && r.queue == d.queue + Range(d.nextSlot, |reqs|)
      && r.nextSlot == d.nextSlot + |reqs|
      && (forall id :: id in r.slots <==> id in d.slots || d.nextSlot <= id < r.nextSlot)
      && (forall id :: id in d.slots ==> r.slots[id] == d.slots[id])
    decreases |reqs|
  {
    if reqs != [] {
      var n := |reqs| - 1;
      DispatchShape(d, reqs[..n], handler);
      var prev := Dispatch(d, reqs[..n], handler);
      assert prev.queue + [prev.nextSlot] == d.queue + Range(d.nextSlot, |reqs|) by {
        assert Range(d.nextSlot, n) + [d.nextSlot + n] == Range(d.nextSlot, |reqs|);
      }
    }
  }

  /** What HandleOne leaves in slot `id`, by the handler's reply. */
  predicate Replied(r: Dispatched, id: nat, reply: Reply)
  {
    id in r.slots && r.slots[id] == ReplyMessage(id, reply)
  }

  /** Handing on one more request leaves earlier slots and kept responses alone. */
  lemma HandleOneKeeps(d: Dispatched, req: Request, handler: Request -> Reply, id: nat, reply: Reply)
    requires id < d.nextSlot && Replied(d, id, reply)
    ensures Replied(HandleOne(d, req, handler), id, reply)
  {
  }

  /**
   * The k-th request's reply sits in slot nextSlot + k: filled in and ready
   * when the handler answered, otherwise still empty and waiting.
   */
  lemma {:induction false} DispatchReplies(d: Dispatched, reqs: seq<Request>, handler: Request -> Reply, k: nat)
    requires k < |reqs|
    ensures Replied(Dispatch(d, reqs, handler), d.nextSlot + k, handler(reqs[k]))
    decreases |reqs|
  {
    var n := |reqs| - 1;
    var prev := Dispatch(d, reqs[..n], handler);
    var id := d.nextSlot + k;
    var reply := handler(reqs[k]);
    assert Dispatch(d, reqs, handler) == HandleOne(prev, reqs[n], handler);
    DispatchCounts(d, reqs[..n], handler);
    if k < n {
      DispatchReplies(d, reqs[..n], handler, k);
      assert reqs[..n][k] == reqs[k];
      HandleOneKeeps(prev, reqs[n], handler, id, reply);
    } else {
      HandleOneReplies(prev, reqs[n], handler);
    }
    assert Replied(HandleOne(prev, reqs[n], handler), id, reply);
  }

  /** A deferred request's response, bound to its slot, is handed back to the caller. */
  lemma {:induction false} DispatchKeepsDeferred(d: Dispatched, reqs: seq<Request>, handler: Request -> Reply, k: nat)
    requires k < |reqs| && handler(reqs[k]).Defer?
    ensures Fresh(d.nextSlot + k) in Dispatch(d, reqs, handler).kept
    decreases |reqs|
  {
    var n := |reqs| - 1;
    DispatchCounts(d, reqs[..n], handler);
    if k < n {
      DispatchKeepsDeferred(d, reqs[..n], handler, k);
      assert reqs[..n][k] == reqs[k];
    }
  }

  /** Only deferred requests' responses are handed back, besides those already there. */
  lemma {:induction false} DispatchKeepsOnlyDeferred(d: Dispatched, reqs: seq<Request>, handler: Request -> Reply)
    ensures forall x :: x in Dispatch(d, reqs, handler).kept ==>
      x in d.kept || exists k :: 0 <= k < |reqs| && handler(reqs[k]).Defer? && x == Fresh(d.nextSlot + k)
    decreases |reqs|
  {
    if reqs != [] {
      var n := |reqs| - 1;
      DispatchCounts(d, reqs[..n], handler);
      DispatchKeepsOnlyDeferred(d, reqs[..n], handler);
      forall x | x in Dispatch(d, reqs, handler).kept
        ensures x in d.kept || exists k :: 0 <= k < |reqs| && handler(reqs[k]).Defer? && x == Fresh(d.nextSlot + k)
      {
        if x !in d.kept && x in Dispatch(d, reqs[..n], handler).kept {
          var k :| 0 <= k < n && handler(reqs[..n][k]).Defer? && x == Fresh(d.nextSlot + k);
          assert reqs[..n][k] == reqs[k];
        }
      }
    }
  }

  /** Each request handed on takes exactly one id. */
  lemma {:induction false} DispatchCounts(d: Dispatched, reqs: seq<Request>, handler: Request -> Reply)
    ensures Dispatch(d, reqs, handler).nextSlot == d.nextSlot + |reqs|
    decreases |reqs|
  {
    if reqs != [] {
      DispatchCounts(d, reqs[..|reqs| - 1], handler);
    }
  }

  lemma HandleOneReplies(d: Dispatched, req: Request, handler: Request -> Reply)
    ensures Replied(HandleOne(d, req, handler), d.nextSlot, handler(req))
  {
  }

  // ---------------------------------------------------------------- keeping Good

  /** A connection's queue grows by the next `m` ids, and the slot table by exactly those. */
  lemma GrowKeepsGood(w: World, i: nat, c: Client, m: nat, slots: Slots)
    requires Good(w) && i < |w.clients|
    requires c.queue == w.clients[i].queue + Range(w.nextSlot, m)
    requires forall id :: id in slots <==> id in w.slots || w.nextSlot <= id < w.nextSlot + m
    requires c.socket != InvalidSocket ==> Valid(c.parser)
    ensures Good(World(w.clients[i := c], slots, w.nextSlot + m))
  {
    var cs := w.clients[i := c];
    assert forall j :: 0 <= j < |cs| ==> QueueIn(cs[j].queue, slots) by {
      GrowQueue(w.clients[i].queue, w.slots, w.nextSlot, m, slots);
    }
    assert forall j :: 0 <= j < |cs| && cs[j].socket != InvalidSocket ==> Valid(cs[j].parser);
    assert Disjoint(cs) by {
      GrowDisjoint(w.clients, w.slots, w.nextSlot, i, c, m);
    }
    assert forall id :: id in slots ==> id < w.nextSlot + m && Owned(cs, id) by {
      GrowOwned(w.clients, w.slots, w.nextSlot, i, c, m, slots);
    }
  }

  lemma GrowQueue(q: seq<nat>, before: Slots, next: nat, m: nat, slots: Slots)
    requires QueueIn(q, before) && forall id :: id in before ==> id < next
    requires forall id :: id in slots <==> id in before || next <= id < next + m
    ensures QueueIn(q + Range(next, m), slots)
  {
    var q' := q + Range(next, m);
    forall a, b | 0 <= a < b < |q'| ensures q'[a] != q'[b] {
      if a < |q| && b >= |q| {
        assert q[a] in before;
      }
    }
  }

  lemma GrowDisjoint(cs: seq<Client>, before: Slots, next: nat, i: nat, c: Client, m: nat)
    requires i < |cs| && Disjoint(cs)
    requires forall j :: 0 <= j < |cs| ==> QueueIn(cs[j].queue, before)
    requires forall id :: id in before ==> id < next
    requires c.queue == cs[i].queue + Range(next, m)
    ensures Disjoint(cs[i := c])
  {
    var q := cs[i].queue;
    var cs' := cs[i := c];
    forall j, k | 0 <= j < k < |cs'| ensures Apart(cs'[j].queue, cs'[k].queue) {
      if j == i {
        forall t | 0 <= t < |c.queue| ensures c.queue[t] !in cs'[k].queue {
          if t >= |q| {
            assert QueueIn(cs[k].queue, before);
            assert forall u :: 0 <= u < |cs[k].queue| ==> cs[k].queue[u] in before;
          } else {
            assert Apart(q, cs[k].queue);
          }
        }
      } else if k == i {
        forall t | 0 <= t < |cs[j].queue| ensures cs[j].queue[t] !in c.queue {
          assert cs[j].queue[t] in before;
          assert Apart(cs[j].queue, q);
        }
      } else {
        assert Apart(cs[j].queue, cs[k].queue);
      }
    }
  }

  lemma GrowOwned(cs: seq<Client>, before: Slots, next: nat, i: nat, c: Client, m: nat, slots: Slots)
    requires i < |cs|
    requires forall id :: id in before ==> Owned(cs, id)
    requires c.queue == cs[i].queue + Range(next, m)
    requires forall id :: id in slots <==> id in before || next <= id < next + m
    ensures forall id :: id in slots ==> Owned(cs[i := c], id)
  {
    var q := cs[i].queue;
    var cs' := cs[i := c];
    forall id | id in slots ensures Owned(cs', id) {
      if id in before {
        var j :| 0 <= j < |cs| && id in cs[j].queue;
        if j == i {
          var u :| 0 <= u < |q| && q[u] == id;
          assert c.queue[u] == id;
        }
        assert id in cs'[j].queue;
      } else {
        assert c.queue[|q| + (id - next)] == id;
        assert id in cs'[i].queue;
      }
    }
  }

  /** A connection's queue loses its first `k` ids, and the slot table exactly those. */
  lemma ShrinkKeepsGood(w: World, i: nat, c: Client, k: nat, slots: Slots)
    requires Good(w) && i < |w.clients| && k <= |w.clients[i].queue|
    requires c.queue == w.clients[i].queue[k..]
    requires slots.Keys == w.slots.Keys - Popped(w.clients[i].queue, k)
    requires c.socket != InvalidSocket ==> Valid(c.parser)
    ensures Good(World(w.clients[i := c], slots, w.nextSlot))
  {
    ShrinkQueues(w.clients, w.slots, i, c, k, slots);
    ShrinkDisjoint(w.clients, i, c, k);
    ShrinkOwned(w.clients, w.slots, i, c, k, slots);
  }

  lemma ShrinkQueues(cs: seq<Client>, before: Slots, i: nat, c: Client, k: nat, slots: Slots)
    requires i < |cs| && k <= |cs[i].queue| && Disjoint(cs)
    requires forall j :: 0 <= j < |cs| ==> QueueIn(cs[j].queue, before)
    requires c.queue == cs[i].queue[k..]
    requires slots.Keys == before.Keys - Popped(cs[i].queue, k)
    ensures QueueIn(c.queue, slots)
    ensures forall j :: 0 <= j < |cs| && j != i ==> QueueIn(cs[j].queue, slots)
  {
    var q := cs[i].queue;
    forall t | 0 <= t < |c.queue| ensures c.queue[t] in slots {
      assert c.queue[t] == q[k + t];
      assert forall u :: 0 <= u < k ==> q[u] != q[k + t];
    }
    forall j | 0 <= j < |cs| && j != i ensures QueueIn(cs[j].queue, slots) {
      forall t | 0 <= t < |cs[j].queue| ensures cs[j].queue[t] in slots {
        var id := cs[j].queue[t];
        assert id in before;
        if j < i {
          assert Apart(cs[j].queue, q);
        } else {
          assert Apart(q, cs[j].queue);
        }
        assert forall u :: 0 <= u < k ==> q[u] != id;
      }
    }
  }

  lemma ShrinkDisjoint(cs: seq<Client>, i: nat, c: Client, k: nat)
    requires i < |cs| && k <= |cs[i].queue| && Disjoint(cs)
    requires c.queue == cs[i].queue[k..]
    ensures Disjoint(cs[i := c])
  {
    var q := cs[i].queue;
    var cs' := cs[i := c];
    forall j, l | 0 <= j < l < |cs'| ensures Apart(cs'[j].queue, cs'[l].queue) {
      assert Apart(cs[j].queue, cs[l].queue);
      if j == i {
        forall t | 0 <= t < |c.queue| ensures c.queue[t] !in cs'[l].queue {
          assert c.queue[t] == q[k + t];
        }
      } else if l == i {
        forall t | 0 <= t < |cs'[j].queue| ensures cs'[j].queue[t] !in c.queue {
          assert cs'[j].queue[t] !in q;
        }
      }
    }
  }

  lemma ShrinkOwned(cs: seq<Client>, before: Slots, i: nat, c: Client, k: nat, slots: Slots)
    requires i < |cs| && k <= |cs[i].queue|
    requires forall id :: id in before ==> Owned(cs, id)
    requires c.queue == cs[i].queue[k..]
    requires slots.Keys == before.Keys - Popped(cs[i].queue, k)
    ensures forall id :: id in slots ==> Owned(cs[i := c], id)
  {
    var q := cs[i].queue;
    var cs' := cs[i := c];
    forall id | id in slots ensures Owned(cs', id) {
      var j :| 0 <= j < |cs| && id in cs[j].queue;
      if j == i {
        var u :| 0 <= u < |q| && q[u] == id;
        assert forall v :: 0 <= v < k ==> q[v] in Popped(q, k);
        assert u >= k;
        assert c.queue[u - k] == id;
      }
      assert id in cs'[j].queue;
    }
  }

  // ---------------------------------------------------------------- the phases

  /** The sockets watched for reading: the listening socket and every connection. */
  function ReadInterest(listen: Socket, clients: seq<Client>): set<Socket>
  {
    {listen} + set i | 0 <= i < |clients| :: clients[i].socket
  }

  /** The sockets watched for writing: connections whose first message is ready. */
  function WriteInterest(clients: seq<Client>, slots: Slots): set<Socket>
  {
    set i | 0 <= i < |clients| && FirstReady(clients[i].queue, slots) :: clients[i].socket
  }

  predicate FirstReady(q: seq<nat>, slots: Slots)
  {
    q != [] && q[0] in slots && slots[q[0]].ready
  }

  /** A readable listening socket and a successful accept() add a connection at the end. */
  function Accept(w: World, listen: Socket, readable: set<Socket>, got: Socket): (r: World)
  {
    if listen in readable && got != InvalidSocket then w.(clients := w.clients + [Client(got, [], Initial)])
    else w
  }

  lemma AcceptKeepsGood(w: World, listen: Socket, readable: set<Socket>, got: Socket)
    requires Good(w)
    ensures Good(Accept(w, listen, readable, got))
    ensures AllOpen(w.clients) ==> AllOpen(Accept(w, listen, readable, got).clients)
  {
    if listen in readable && got != InvalidSocket {
      var cs := w.clients + [Client(got, [], Initial)];
      assert forall i :: 0 <= i < |w.clients| ==> cs[i] == w.clients[i];
      assert Disjoint(cs) by {
        forall i, j | 0 <= i < j < |cs| ensures Apart(cs[i].queue, cs[j].queue) {
          if j < |w.clients| {
            assert Apart(w.clients[i].queue, w.clients[j].queue);
          }
        }
      }
      forall id | id in w.slots ensures Owned(cs, id) {
        var j :| 0 <= j < |w.clients| && id in w.clients[j].queue;
        assert id in cs[j].queue;
      }
    }
  }

  /** The receive loop's variables: the world, the responses handed back, and whether stoul threw. */
  datatype Receiving = Receiving(w: World, kept: seq<Response>, threw: bool)

  /** The connection at `i` is closed; it stays in the list until it is reaped. */
  function Close(w: World, i: nat): (r: World)
    requires i < |w.clients|
  {
    w.(clients := w.clients[i := w.clients[i].(socket := InvalidSocket)])
  }

  /**
   * One pass of the receive loop: a readable connection is read once. No
   * data yet is fine; an error, an orderly close or an impossible count
   * closes it; otherwise the bytes are parsed, each completed request is
   * handed on, and a parse failure closes the connection.
   */
  function ReceiveAt(w: World, i: nat, readable: set<Socket>, recv: Socket -> RecvResult, handler: Request -> Reply): (r: Receiving)
    requires i < |w.clients| && Valid(w.clients[i].parser)
    ensures |r.w.clients| == |w.clients|
    ensures forall j :: 0 <= j < |w.clients| && j != i ==> r.w.clients[j] == w.clients[j]
  {
    var c := w.clients[i];
    if c.socket !in readable then Receiving(w, [], false)
    else match recv(c.socket)
      case RecvWouldBlock => Receiving(w, [], false)
      case RecvFailed => Receiving(Close(w, i), [], false)
      case Received(bytes) =>
        if |bytes| == 0 || |bytes| > BufferSize then Receiving(Close(w, i), [], false)
        else
          var fed := Feed(c.parser, bytes);
          var d := Dispatch(Dispatched(c.queue, w.slots, w.nextSlot, []), fed.finished, handler);
          var socket := if fed.status == Failed then InvalidSocket else c.socket;
          Receiving(World(w.clients[i := Client(socket, d.queue, fed.state)], d.slots, d.nextSlot),
                    d.kept, fed.status == Threw)
  }

  /** The receive loop from connection `i` on; an exception out of stoul ends it. */
  function ReceiveFrom(r: Receiving, i: nat, readable: set<Socket>, recv: Socket -> RecvResult, handler: Request -> Reply): (r': Receiving)
    requires i <= |r.w.clients|
    requires forall j :: i <= j < |r.w.clients| ==> Valid(r.w.clients[j].parser)
    ensures |r'.w.clients| == |r.w.clients|
    decreases |r.w.clients| - i
  {
    if i == |r.w.clients| || r.threw then r
    else
      var z := ReceiveAt(r.w, i, readable, recv, handler);
      ReceiveFrom(Receiving(z.w, r.kept + z.kept, z.threw), i + 1, readable, recv, handler)
  }

  /** Unless stoul threw, a receive pass keeps Good, and ids only grow. */
  lemma ReceiveAtKeepsGood(w: World, i: nat, readable: set<Socket>, recv: Socket -> RecvResult, handler: Request -> Reply)
    requires Good(w) && i < |w.clients| && Valid(w.clients[i].parser)
    ensures var r := ReceiveAt(w, i, readable, recv, handler);
      (!r.threw ==> Good(r.w)) && Fresher(w, r.w)
  {
    var c := w.clients[i];
    if c.socket in readable && (recv(c.socket).RecvFailed? ||
      (recv(c.socket).Received? && (|recv(c.socket).bytes| == 0 || |recv(c.socket).bytes| > BufferSize)))
    {
      assert c.queue[0..] == c.queue;
      assert Popped(c.queue, 0) == {};
      ShrinkKeepsGood(w, i, c.(socket := InvalidSocket), 0, w.slots);
    } else if c.socket in readable && recv(c.socket).Received? {
      var bytes := recv(c.socket).bytes;
      var fed := Feed(c.parser, bytes);
      var d0 := Dispatched(c.queue, w.slots, w.nextSlot, []);
      var d := Dispatch(d0, fed.finished, handler);
      DispatchShape(d0, fed.finished, handler);
      var socket := if fed.status == Failed then InvalidSocket else c.socket;
      if fed.status != Threw {
        GrowKeepsGood(w, i, Client(socket, d.queue, fed.state), |fed.finished|, d.slots);
      }
    }
  }

  /**
   * No id is handed out twice and a slot that has ended never comes back:
   * a response whose slot has expired can never reach a connection again.
   */
  predicate Fresher(w: World, w': World)
  {
    && w.nextSlot <= w'.nextSlot
    && forall id :: id in w'.slots && id < w.nextSlot ==> id in w.slots
  }

  lemma FresherTransitive(a: World, b: World, c: World)
    requires Fresher(a, b) && Fresher(b, c)
    ensures Fresher(a, c)
  {
  }

  /** Unless stoul threw, the receive loop keeps Good, and ids only grow. */
  lemma {:induction false} ReceiveFromKeepsGood(r: Receiving, i: nat, readable: set<Socket>, recv: Socket -> RecvResult, handler: Request -> Reply)
    requires Good(r.w) && !r.threw && i <= |r.w.clients|
    requires forall j :: i <= j < |r.w.clients| ==> Valid(r.w.clients[j].parser)
    ensures var r' := ReceiveFrom(r, i, readable, recv, handler);
      (!r'.threw ==> Good(r'.w)) && Fresher(r.w, r'.w)
    decreases |r.w.clients| - i
  {
    if i < |r.w.clients| {
      var z := ReceiveAt(r.w, i, readable, recv, handler);
      var next := Receiving(z.w, r.kept + z.kept, z.threw);
      ReceiveAtKeepsGood(r.w, i, readable, recv, handler);
      if !next.threw {
        ReceiveFromKeepsGood(next, i + 1, readable, recv, handler);
        FresherTransitive(r.w, next.w, ReceiveFrom(next, i + 1, readable, recv, handler).w);
      }
    }
  }

  /**
   * One pass of the send loop: an open connection that select() reported
   * writable sends its ready messages, in order, until one would block.
   */
  function SendAt(w: World, i: nat, writable: set<Socket>, send: Sender): (r: World)
    requires Good(w) && i < |w.clients|
    ensures |r.clients| == |w.clients|
  {
    var c := w.clients[i];
    if c.socket == InvalidSocket || c.socket !in writable then w
    else
      var f := Flush(c.socket, c.queue, w.slots, send, 0);
      World(w.clients[i := Client(f.socket, f.queue, c.parser)], f.slots, w.nextSlot)
  }

  lemma SendAtKeepsGood(w: World, i: nat, writable: set<Socket>, send: Sender)
    requires Good(w) && i < |w.clients|
    ensures var r := SendAt(w, i, writable, send);
      Good(r) && Fresher(w, r)
  {
    var c := w.clients[i];
    if c.socket != InvalidSocket && c.socket in writable {
      var f := Flush(c.socket, c.queue, w.slots, send, 0);
      FlushPopsReadyFront(c.socket, c.queue, w.slots, send, 0);
      FlushEndsPoppedSlots(c.socket, c.queue, w.slots, send, 0);
      ShrinkKeepsGood(w, i, Client(f.socket, f.queue, c.parser), |c.queue| - |f.queue|, f.slots);
    }
  }

  /** The send loop from connection `i` on. */
  function SendFrom(w: World, i: nat, writable: set<Socket>, send: Sender): (r: World)
    requires Good(w) && i <= |w.clients|
    ensures |r.clients| == |w.clients|
    decreases |w.clients| - i
  {
    if i == |w.clients| then w
    else
      SendAtKeepsGood(w, i, writable, send);
      SendFrom(SendAt(w, i, writable, send), i + 1, writable, send)
  }

  lemma {:induction false} SendFromKeepsGood(w: World, i: nat, writable: set<Socket>, send: Sender)
    requires Good(w) && i <= |w.clients|
    ensures var r := SendFrom(w, i, writable, send);
      Good(r) && Fresher(w, r)
    decreases |w.clients| - i
  {
    if i < |w.clients| {
      var next := SendAt(w, i, writable, send);
      SendAtKeepsGood(w, i, writable, send);
      SendFromKeepsGood(next, i + 1, writable, send);
      FresherTransitive(w, next, SendFrom(next, i + 1, writable, send));
    }
  }

  /** The ids a queue holds. */
  function Ids(q: seq<nat>): set<nat>
  {
    set id | id in q
  }

  /** The reaping loop's variables: the connections kept so far and the slot table. */
  datatype Reaped = Reaped(clients: seq<Client>, slots: Slots)

  /**
   * The reaping loop over the connections `cs`, in order: a closed
   * connection is erased, and with it its queue, which ends its slots.
   */
  function ReapAll(cs: seq<Client>, slots: Slots): (r: Reaped)
    decreases |cs|
  {
    if cs == [] then Reaped([], slots)
    else
      var prev := ReapAll(cs[..|cs| - 1], slots);
      var c := cs[|cs| - 1];
      if c.socket == InvalidSocket then Reaped(prev.clients, prev.slots - Ids(c.queue))
      else Reaped(prev.clients + [c], prev.slots)
  }

  function Reap(w: World): World
  {
    var r := ReapAll(w.clients, w.slots);
    World(r.clients, r.slots, w.nextSlot)
  }

  /** Reaping keeps exactly the open connections. */
  lemma {:induction false} ReapKeepsOpen(cs: seq<Client>, slots: Slots)
    ensures var r := ReapAll(cs, slots).clients;
      forall c :: c in r <==> c in cs && c.socket != InvalidSocket
    decreases |cs|
  {
    if cs != [] {
      var n := |cs| - 1;
      ReapKeepsOpen(cs[..n], slots);
      assert cs == cs[..n] + [cs[n]];
    }
  }

  /** Reaping keeps the open connections in their order: it distributes over concatenation. */
  lemma {:induction false} ReapKeepsOrder(a: seq<Client>, b: seq<Client>, slots: Slots)
    ensures ReapAll(a + b, slots).clients == ReapAll(a, slots).clients + ReapAll(b, slots).clients
    decreases |b|
  {
    if b == [] {
      assert a + b == a;
    } else {
      var n := |b| - 1;
      ReapKeepsOrder(a, b[..n], slots);
      assert (a + b)[..|a + b| - 1] == a + b[..n];
    }
  }

  /** Connections kept by reaping still queue disjoint messages. */
  lemma {:induction false} ReapDisjoint(cs: seq<Client>, slots: Slots)
    requires Disjoint(cs)
    ensures Disjoint(ReapAll(cs, slots).clients)
    decreases |cs|
  {
    if cs != [] {
      var n := |cs| - 1;
      var prev := ReapAll(cs[..n], slots).clients;
      assert Disjoint(cs[..n]) by {
        forall i, j | 0 <= i < j < n ensures Apart(cs[..n][i].queue, cs[..n][j].queue) {
          assert Apart(cs[i].queue, cs[j].queue);
        }
      }
      ReapDisjoint(cs[..n], slots);
      if cs[n].socket != InvalidSocket {
        ReapKeepsOpen(cs[..n], slots);
        var r := prev + [cs[n]];
        forall i, j | 0 <= i < j < |r| ensures Apart(r[i].queue, r[j].queue) {
          if j == |prev| {
            assert r[i] in cs[..n];
            var k :| 0 <= k < n && cs[..n][k] == r[i];
            assert Apart(cs[k].queue, cs[n].queue);
          }
        }
      }
    }
  }

  /** Reaping ends exactly the slots queued on closed connections. */
  lemma {:induction false} ReapEndsSlots(cs: seq<Client>, slots: Slots)
    ensures var r := ReapAll(cs, slots).slots;
      && (forall id :: id in r <==> id in slots && forall j :: 0 <= j < |cs| && cs[j].socket == InvalidSocket ==> id !in cs[j].queue)
      && (forall id :: id in r ==> r[id] == slots[id])
    decreases |cs|
  {
    if cs != [] {
      var n := |cs| - 1;
      ReapEndsSlots(cs[..n], slots);
      assert forall j :: 0 <= j < n ==> cs[..n][j] == cs[j];
    }
  }

  /**
   * Reaping keeps Good, leaves only open connections, and ends no slot of
   * an open one.
   */
  lemma ReapKeepsGood(w: World)
    requires Good(w)
    ensures Good(Reap(w)) && AllOpen(Reap(w).clients) && Fresher(w, Reap(w))
  {
    var cs := w.clients;
    ReapKeepsOpen(cs, w.slots);
    ReapDisjoint(cs, w.slots);
    ReapEndsSlots(cs, w.slots);
    ReapQueues(cs, w.slots);
    ReapOwned(cs, w.slots);
  }

  /** Every open connection's queue is still alive after reaping. */
  lemma ReapQueues(cs: seq<Client>, slots: Slots)
    requires forall i :: 0 <= i < |cs| ==> QueueIn(cs[i].queue, slots)
    requires Disjoint(cs)
    ensures var r := ReapAll(cs, slots);
      forall k :: 0 <= k < |r.clients| ==> QueueIn(r.clients[k].queue, r.slots)
  {
    var r := ReapAll(cs, slots);
    ReapKeepsOpen(cs, slots);
    ReapEndsSlots(cs, slots);
    forall k | 0 <= k < |r.clients| ensures QueueIn(r.clients[k].queue, r.slots) {
      assert r.clients[k] in cs;
      var j :| 0 <= j < |cs| && cs[j] == r.clients[k];
      forall t | 0 <= t < |cs[j].queue| ensures cs[j].queue[t] in r.slots {
        forall l | 0 <= l < |cs| && cs[l].socket == InvalidSocket ensures cs[j].queue[t] !in cs[l].queue {
          if l < j {
            assert Apart(cs[l].queue, cs[j].queue);
          } else {
            assert Apart(cs[j].queue, cs[l].queue);
          }
        }
      }
    }
  }

  /** A slot that survives reaping is still queued on an open connection. */
  lemma ReapOwned(cs: seq<Client>, slots: Slots)
    requires forall id :: id in slots ==> Owned(cs, id)
    ensures var r := ReapAll(cs, slots);
      forall id :: id in r.slots ==> Owned(r.clients, id)
  {
    var r := ReapAll(cs, slots);
    ReapKeepsOpen(cs, slots);
    ReapEndsSlots(cs, slots);
    forall id | id in r.slots ensures Owned(r.clients, id) {
      var j :| 0 <= j < |cs| && id in cs[j].queue;
      assert cs[j] in r.clients;
      var k :| 0 <= k < |r.clients| && r.clients[k] == cs[j];
      assert id in r.clients[k].queue;
    }
  }

  /** A response's destructor keeps Good: it fills a slot, it never creates or ends one. */
  lemma DeliverKeepsGood(w: World, r: Response)
    requires Good(w)
    ensures Good(w.(slots := Deliver(w.slots, r)))
    ensures Fresher(w, w.(slots := Deliver(w.slots, r)))
  {
  }

  // ---------------------------------------------------------------- one call of poll

  /** What one poll leaves: the world, the responses the handler kept, and whether stoul threw out of it. */
  datatype Outcome = Outcome(w: World, kept: seq<Response>, threw: bool)

  /**
   * server::poll: watch every connection for reading and those with a ready
   * first message for writing; on a timeout return at once; otherwise (also
   * when select() failed, with the watched sets taken as they are) accept,
   * receive, send, and reap. An exception out of stoul leaves the rest undone.
   */
  function PollOnce(w: World, listen: Socket, env: Environment, handler: Request -> Reply): (o: Outcome)
    requires Good(w) && AllOpen(w.clients)
  {
    var readI := ReadInterest(listen, w.clients);
    var writeI := WriteInterest(w.clients, w.slots);
    var sel := env.select(readI, writeI);
    if sel.Timeout? then Outcome(w, [], false)
    else
      var readable := if sel.Ready? then sel.readable * readI else readI;
      var writable := if sel.Ready? then sel.writable * writeI else writeI;
      var w1 := Accept(w, listen, readable, env.accept);
      AcceptKeepsGood(w, listen, readable, env.accept);
      var r := ReceiveFrom(Receiving(w1, [], false), 0, readable, env.recv, handler);
      if r.threw then Outcome(r.w, r.kept, true)
      else
        ReceiveFromKeepsGood(Receiving(w1, [], false), 0, readable, env.recv, handler);
        Outcome(Reap(SendFrom(r.w, 0, writable, env.send)), r.kept, false)
  }

  /**
   * A poll that returns normally leaves every connection open and the
   * bookkeeping consistent, and never brings back an ended slot.
   */
  lemma PollKeepsGood(w: World, listen: Socket, env: Environment, handler: Request -> Reply)
    requires Good(w) && AllOpen(w.clients)
    ensures var o := PollOnce(w, listen, env, handler);
      && (!o.threw ==> Good(o.w) && AllOpen(o.w.clients))
      && Fresher(w, o.w)
  {
    var readI := ReadInterest(listen, w.clients);
    var writeI := WriteInterest(w.clients, w.slots);
    var sel := env.select(readI, writeI);
    if !sel.Timeout? {
      var readable := if sel.Ready? then sel.readable * readI else readI;
      var writable := if sel.Ready? then sel.writable * writeI else writeI;
      var w1 := Accept(w, listen, readable, env.accept);
      AcceptKeepsGood(w, listen, readable, env.accept);
      var r := ReceiveFrom(Receiving(w1, [], false), 0, readable, env.recv, handler);
      ReceiveFromKeepsGood(Receiving(w1, [], false), 0, readable, env.recv, handler);
      if !r.threw {
        var w3 := SendFrom(r.w, 0, writable, env.send);
        SendFromKeepsGood(r.w, 0, writable, env.send);
        ReapKeepsGood(w3);
        FresherTransitive(w1, r.w, w3);
        FresherTransitive(w1, w3, Reap(w3));
      }
    }
  }

  /** When select() times out nothing changes and the handler is not called. */
  lemma PollTimeout(w: World, listen: Socket, env: Environment, handler: Request -> Reply)
    requires Good(w) && AllOpen(w.clients)
    requires env.select(ReadInterest(listen, w.clients), WriteInterest(w.clients, w.slots)).Timeout?
    ensures PollOnce(w, listen, env, handler) == Outcome(w, [], false)
  {
  }
}
