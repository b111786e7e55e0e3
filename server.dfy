// struct server (http.hpp lines 101-114 and 301-454) as a class whose poll
// updates its connections and message slots in place, phase by phase; each
// phase is proved to do what the matching function of module Poll says.
// The listening socket comes from outside: creating, binding and closing
// sockets is not part of this model.
module HttpServer {
  import opened Text
  import opened RequestParser
  import opened MessageQueue
  import opened Response
  import opened Poll

  class Server {
    var listenSocket: Socket
    var clients: seq<Client>
    var slots: Slots
    var nextSlot: nat
    var polling: bool

    function State(): World
      reads this
    {
      World(clients, slots, nextSlot)
    }

    /** Between calls of poll the bookkeeping is consistent and every connection is open. */
    ghost predicate Valid()
      reads this
    {
      !polling ==> Good(State()) && AllOpen(clients)
    }

    constructor(listen: Socket)
      ensures listenSocket == listen && clients == [] && slots == map[] && nextSlot == 0 && !polling
      ensures Valid()
    {
      listenSocket := listen;
      clients := [];
      slots := map[];
      nextSlot := 0;
      polling := false;
    }

    /** The first loop of poll: the sockets to watch for reading and for writing. */
    method WatchSets() returns (readFds: set<Socket>, writeFds: set<Socket>)
      ensures readFds == ReadInterest(listenSocket, clients)
      ensures writeFds == WriteInterest(clients, slots)
    {
      readFds := {listenSocket};
      writeFds := {};
      for i := 0 to |clients|
        invariant readFds == {listenSocket} + set j | 0 <= j < i :: clients[j].socket
        invariant writeFds == set j | 0 <= j < i && FirstReady(clients[j].queue, slots) :: clients[j].socket
      {
        var c := clients[i];
        readFds := readFds + {c.socket};
        if c.queue != [] && c.queue[0] in slots && slots[c.queue[0]].ready {
          writeFds := writeFds + {c.socket};
        }
      }
    }

    /**
     * ~response for a response the handler kept: its message goes into its
     * slot if the connection still queues it.
     */
    method Dispose(r: Response)
      requires Valid()
      modifies this
      ensures slots == Deliver(old(slots), r)
      ensures listenSocket == old(listenSocket) && clients == old(clients)
      ensures nextSlot == old(nextSlot) && polling == old(polling)
      ensures Valid()
    {
      DisposeKeepsValid(r);
      if r.slot.Some? && r.slot.value in slots {
        var message := BuildMessage(r);
        slots := slots[r.slot.value := Message(true, message)];
      }
    }

    /** Disposing of a kept response keeps the server consistent. */
    lemma DisposeKeepsValid(r: Response)
      requires Valid()
      ensures !polling ==> Good(State().(slots := Deliver(slots, r)))
    {
      if !polling {
        DeliverKeepsGood(State(), r);
      }
    }

    /**
     * The loop over the requests one read completed: each gets a fresh
     * message slot at the back of its connection's queue, then the handler;
     * an answer is delivered at once, a deferred response is handed back.
     */
    method HandRequests(queue: seq<nat>, reqs: seq<Request>, handler: Request -> Reply)
      returns (queue': seq<nat>, handed: seq<Response>)
      requires polling
      modifies this
      ensures Dispatched(queue', slots, nextSlot, handed) ==
              Dispatch(Dispatched(queue, old(slots), old(nextSlot), []), reqs, handler)
      ensures clients == old(clients) && listenSocket == old(listenSocket) && polling == old(polling)
    {
      queue', handed := queue, [];
      ghost var d0 := Dispatched(queue, slots, nextSlot, []);
      for k := 0 to |reqs|
        invariant Dispatched(queue', slots, nextSlot, handed) == Dispatch(d0, reqs[..k], handler)
        invariant clients == old(clients) && listenSocket == old(listenSocket) && polling == old(polling)
      {
        assert reqs[..k + 1][..k] == reqs[..k];
        ghost var before := Dispatched(queue', slots, nextSlot, handed);
        var id := nextSlot;
        nextSlot := nextSlot + 1;
        queue' := queue' + [id];
        slots := slots[id := Message(false, [])];
        var reply := handler(reqs[k]);
        match reply
        case Answer(code, reason, headers, body) =>
          AnswerIsDelivered(before, reqs[k], handler);
          Dispose(Response(code, reason, headers, body, Some(id)));
        case Defer =>
          handed := handed + [Fresh(id)];
      }
      assert reqs[..|reqs|] == reqs;
    }

    /** One pass of the receive loop, on connection `i`. */
    method ReceiveOne(i: nat, readable: set<Socket>, recv: Socket -> RecvResult, handler: Request -> Reply)
      returns (handed: seq<Response>, threw: bool)
      requires polling && i < |clients| && RequestParser.Valid(clients[i].parser)
      modifies this
      ensures var r := ReceiveAt(old(State()), i, readable, recv, handler);
        State() == r.w && handed == r.kept && threw == r.threw
      ensures listenSocket == old(listenSocket) && polling == old(polling)
    {
      handed, threw := [], false;
      var c := clients[i];
      if c.socket !in readable {
        return;
      }
      match recv(c.socket)
      case RecvWouldBlock =>
      case RecvFailed =>
        clients := clients[i := c.(socket := InvalidSocket)];
      case Received(bytes) =>
        if |bytes| == 0 || |bytes| > BufferSize {
          clients := clients[i := c.(socket := InvalidSocket)];
        } else {
          var fed := Feed(c.parser, bytes);
          var queue;
          queue, handed := HandRequests(c.queue, fed.finished, handler);
          var socket := if fed.status == Failed then InvalidSocket else c.socket;
          clients := clients[i := Client(socket, queue, fed.state)];
          threw := fed.status == Threw;
        }
    }

    /** The receive loop of poll over every connection, stopping if stoul threw. */
    method ReceiveAll(readable: set<Socket>, recv: Socket -> RecvResult, handler: Request -> Reply)
      returns (kept: seq<Response>, threw: bool)
      requires polling
      requires forall j :: 0 <= j < |clients| ==> RequestParser.Valid(clients[j].parser)
      modifies this
      ensures var r := ReceiveFrom(Receiving(old(State()), [], false), 0, readable, recv, handler);
        State() == r.w && kept == r.kept && threw == r.threw
      ensures listenSocket == old(listenSocket) && polling == old(polling)
    {
      kept, threw := [], false;
      ghost var start := State();
      var i := 0;
      while i < |clients| && !threw
        invariant 0 <= i <= |clients| && |clients| == |start.clients|
        invariant forall j :: i <= j < |clients| ==> RequestParser.Valid(clients[j].parser)
        invariant ReceiveFrom(Receiving(State(), kept, threw), i, readable, recv, handler) ==
                  ReceiveFrom(Receiving(start, [], false), 0, readable, recv, handler)
        invariant listenSocket == old(listenSocket) && polling == old(polling)
      {
        var handed, t := ReceiveOne(i, readable, recv, handler);
        kept, threw := kept + handed, t;
        i := i + 1;
      }
    }

    /**
     * One pass of the send loop, on connection `i`: while the first message
     * is ready, send it; stop on EAGAIN; close and stop on an error or an
     * impossible count; drop what was sent and pop the message once it is
     * all sent.
     */
    method SendOne(i: nat, writable: set<Socket>, send: Sender)
      requires Good(State()) && i < |clients|
      modifies this
      ensures State() == SendAt(old(State()), i, writable, send)
      ensures listenSocket == old(listenSocket) && polling == old(polling)
    {
      var c := clients[i];
      if c.socket == InvalidSocket || c.socket !in writable {
        return;
      }
      ghost var f0 := Flush(c.socket, c.queue, slots, send, 0);
      var socket, queue, table := c.socket, c.queue, slots;
      var calls := 0;
      while queue != [] && table[queue[0]].ready
        invariant QueueIn(queue, table) && socket == c.socket
        invariant var f := Flush(socket, queue, table, send, calls);
          f.socket == f0.socket && f.queue == f0.queue && f.slots == f0.slots
        decreases |queue|, if queue == [] then 0 else |table[queue[0]].data|
      {
        var head := queue[0];
        var data := table[head].data;
        var sent := send(socket, calls, data);
        if sent.WouldBlock? {
          break;
        }
        var n := sent.n;
        if n <= 0 || n > |data| {
          socket := InvalidSocket;
          break;
        }
        if n == |data| {
          table := table - {head};
          queue := queue[1..];
        } else {
          table := table[head := Message(true, data[n..])];
        }
        calls := calls + 1;
      }
      clients, slots := clients[i := Client(socket, queue, c.parser)], table;
    }

    /** The send loop of poll over every connection. */
    method SendAll(writable: set<Socket>, send: Sender)
      requires Good(State())
      modifies this
      ensures State() == SendFrom(old(State()), 0, writable, send)
      ensures listenSocket == old(listenSocket) && polling == old(polling)
    {
      ghost var start := State();
      var i := 0;
      while i < |clients|
        invariant 0 <= i <= |clients| && Good(State())
        invariant SendFrom(State(), i, writable, send) == SendFrom(start, 0, writable, send)
        invariant listenSocket == old(listenSocket) && polling == old(polling)
      {
        SendAtKeepsGood(State(), i, writable, send);
        SendOne(i, writable, send);
        i := i + 1;
      }
    }

    /** The reaping loop of poll: erase closed connections and, with them, their messages. */
    method ReapClosed()
      modifies this
      ensures State() == Reap(old(State()))
      ensures listenSocket == old(listenSocket) && polling == old(polling)
    {
      var kept: seq<Client> := [];
      var left := slots;
      for i := 0 to |clients|
        invariant Reaped(kept, left) == ReapAll(clients[..i], slots)
      {
        assert clients[..i + 1][..i] == clients[..i];
        var c := clients[i];
        if c.socket == InvalidSocket {
          left := left - Ids(c.queue);
        } else {
          kept := kept + [c];
        }
      }
      assert clients[..|clients|] == clients;
      clients, slots := kept, left;
    }

    /**
     * server::poll. Calling it from inside a handler is refused by an
     * assertion in the source, hence `!polling`. If stoul throws, the
     * exception leaves poll with `polling` still set.
     */
    method Poll(env: Environment, handler: Request -> Reply) returns (kept: seq<Response>, threw: bool)
      requires Valid() && !polling
      modifies this
      ensures var o := PollOnce(old(State()), listenSocket, env, handler);
        State() == o.w && kept == o.kept && threw == o.threw
      ensures listenSocket == old(listenSocket)
      ensures polling == threw && Valid()
    {
      ghost var w0 := State();
      PollKeepsGood(w0, listenSocket, env, handler);
      polling := true;
      var readFds, writeFds := WatchSets();
      var sel := env.select(readFds, writeFds);
      if sel.Timeout? {
        polling := false;
        return [], false;
      }
      var readable, writable := readFds, writeFds;
      if sel.Ready? {
        readable, writable := sel.readable * readFds, sel.writable * writeFds;
      }
      if listenSocket in readable {
        var got := env.accept;
        if got != InvalidSocket {
          clients := clients + [Client(got, [], Initial)];
        }
      }
      AcceptKeepsGood(w0, listenSocket, readable, env.accept);
      ghost var w1 := State();
      kept, threw := ReceiveAll(readable, env.recv, handler);
      if threw {
        return;
      }
      ReceiveFromKeepsGood(Receiving(w1, [], false), 0, readable, env.recv, handler);
      SendAll(writable, env.send);
      ReapClosed();
      polling := false;
    }
  }
}
