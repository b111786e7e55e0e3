// The per-connection queue of outgoing messages (http.hpp, struct message and
// client::first_message) and the send loop of server::poll. The linked list
// of shared_ptr<message> is a sequence of slot ids; the messages themselves
// live in a slot table, and a slot is present exactly as long as some queue
// still owns its message, which is what makes a response's weak_ptr lock.
module MessageQueue {

  /** struct message: `ready` once the response has been written into `data`. */
  datatype Message = Message(ready: bool, data: string)

  type Socket = int

  const InvalidSocket: Socket := -1

  /** What one send() call reports: EAGAIN/EWOULDBLOCK, or its return value. */
  datatype SendResult = WouldBlock | Returned(n: int)

  /**
   * send() as the operating system answers it during one poll: the result
   * for a socket, the number of earlier send() calls on that connection in
   * this poll, and the bytes offered. Two equal messages may thus meet
   * different results.
   */
  type Sender = (Socket, nat, string) -> SendResult

  /** The messages that are still alive, by slot id. */
  type Slots = map<nat, Message>

  predicate Distinct(q: seq<nat>)
  {
    forall i, j :: 0 <= i < j < |q| ==> q[i] != q[j]
  }

  /** A queue whose ids are distinct and all alive. */
  predicate QueueIn(q: seq<nat>, slots: Slots)
  {
    Distinct(q) && forall i :: 0 <= i < |q| ==> q[i] in slots
  }

  /** The bytes still to go out on the connection: the data of each queued message, in order. */
  function Pending(q: seq<nat>, slots: Slots): string
    requires forall i :: 0 <= i < |q| ==> q[i] in slots
    decreases |q|
  {
    if q == [] then [] else slots[q[0]].data + Pending(q[1..], slots)
  }

  /** Pending bytes depend only on the queued messages. */
  lemma {:induction false} PendingFrame(q: seq<nat>, slots: Slots, slots': Slots)
    requires forall i :: 0 <= i < |q| ==> q[i] in slots && q[i] in slots' && slots'[q[i]] == slots[q[i]]
    ensures Pending(q, slots') == Pending(q, slots)
    decreases |q|
  {
    if q != [] {
      PendingFrame(q[1..], slots, slots');
    }
  }

  /** The ids of the first `k` queued messages. */
  function Popped(q: seq<nat>, k: nat): set<nat>
    requires k <= |q|
  {
    set i | 0 <= i < k :: q[i]
  }

  /** Outcome of the send loop for one client. `wire` is what send() accepted, in order. */
  datatype Flushed = Flushed(socket: Socket, queue: seq<nat>, slots: Slots, wire: string)

  /**
   * The send loop of poll for one writable client: while the head message is
   * ready, send its data; on EAGAIN stop; on an error or an impossible count
   * close the socket and stop; otherwise erase the sent prefix, and pop the
   * head (ending its slot) once its data is empty. The queue left is a
   * suffix of the old one, still alive in the slot table. `calls` counts the
   * send() calls already made on this connection in this poll.
   */
  function Flush(socket: Socket, q: seq<nat>, slots: Slots, send: Sender, calls: nat): (f: Flushed)
    requires QueueIn(q, slots)
    ensures QueueIn(f.queue, f.slots)
    ensures f.socket == socket || f.socket == InvalidSocket
    ensures |f.queue| <= |q| && f.slots.Keys <= slots.Keys
    decreases |q|, if q == [] then 0 else |slots[q[0]].data|
  {
    if q == [] || !slots[q[0]].ready then Flushed(socket, q, slots, [])
    else
      var data := slots[q[0]].data;
      match send(socket, calls, data)
      case WouldBlock => Flushed(socket, q, slots, [])
      case Returned(n) =>
        if n <= 0 || n > |data| then Flushed(InvalidSocket, q, slots, [])
        else if n == |data| then
          var f := Flush(socket, q[1..], slots - {q[0]}, send, calls + 1);
          f.(wire := data + f.wire)
        else
          var f := Flush(socket, q, slots[q[0] := Message(true, data[n..])], send, calls + 1);
          f.(wire := data[..n] + f.wire)
  }

  /** The queue left is what follows the popped front, and only ready messages were popped. */
  lemma {:induction false} FlushPopsReadyFront(socket: Socket, q: seq<nat>, slots: Slots, send: Sender, calls: nat)
    requires QueueIn(q, slots)
    ensures var f := Flush(socket, q, slots, send, calls);
      var k := |q| - |f.queue|;
      f.queue == q[k..] && forall i :: 0 <= i < k ==> slots[q[i]].ready
    decreases |q|, if q == [] then 0 else |slots[q[0]].data|
  {
    if q != [] && slots[q[0]].ready && send(socket, calls, slots[q[0]].data).Returned? {
      var data := slots[q[0]].data;
      var n := send(socket, calls, data).n;
      if 0 < n == |data| {
        var rest := slots - {q[0]};
        FlushPopsReadyFront(socket, q[1..], rest, send, calls + 1);
        var f := Flush(socket, q[1..], rest, send, calls + 1);
        var k := |q[1..]| - |f.queue|;
        assert q[1..][k..] == q[k + 1..];
        forall i | 0 < i < k + 1 ensures slots[q[i]].ready {
          assert q[1..][i - 1] == q[i];
        }
      } else if 0 < n < |data| {
        var trimmed := slots[q[0] := Message(true, data[n..])];
        FlushPopsReadyFront(socket, q, trimmed, send, calls + 1);
        var k := |q| - |Flush(socket, q, trimmed, send, calls + 1).queue|;
        forall i | 0 <= i < k ensures slots[q[i]].ready {
          assert trimmed[q[i]].ready;
        }
      }
    }
  }

  /** The popped messages, and only they, are gone from the slot table. */
  lemma {:induction false} FlushEndsPoppedSlots(socket: Socket, q: seq<nat>, slots: Slots, send: Sender, calls: nat)
    requires QueueIn(q, slots)
    ensures var f := Flush(socket, q, slots, send, calls);
      f.slots.Keys == slots.Keys - Popped(q, |q| - |f.queue|)
    decreases |q|, if q == [] then 0 else |slots[q[0]].data|
  {
    var f := Flush(socket, q, slots, send, calls);
    if q == [] || !slots[q[0]].ready || send(socket, calls, slots[q[0]].data).WouldBlock? {
      assert Popped(q, 0) == {};
    } else {
      var data := slots[q[0]].data;
      var n := send(socket, calls, data).n;
      if n <= 0 || n > |data| {
        assert Popped(q, 0) == {};
      } else if n == |data| {
        FlushEndsPoppedSlots(socket, q[1..], slots - {q[0]}, send, calls + 1);
        PoppedCons(q, |q| - |f.queue|);
      } else {
        FlushEndsPoppedSlots(socket, q, slots[q[0] := Message(true, data[n..])], send, calls + 1);
      }
    }
  }

  /** Every message left but the new head is untouched. */
  lemma {:induction false} FlushKeepsRest(socket: Socket, q: seq<nat>, slots: Slots, send: Sender, calls: nat)
    requires QueueIn(q, slots)
    ensures var f := Flush(socket, q, slots, send, calls);
      forall id :: id in f.slots && (f.queue == [] || id != f.queue[0]) ==> f.slots[id] == slots[id]
    decreases |q|, if q == [] then 0 else |slots[q[0]].data|
  {
    if q != [] && slots[q[0]].ready && send(socket, calls, slots[q[0]].data).Returned? {
      var data := slots[q[0]].data;
      var n := send(socket, calls, data).n;
      if 0 < n == |data| {
        FlushKeepsRest(socket, q[1..], slots - {q[0]}, send, calls + 1);
      } else if 0 < n < |data| {
        var trimmed := slots[q[0] := Message(true, data[n..])];
        FlushKeepsRest(socket, q, trimmed, send, calls + 1);
        FlushPopsReadyFront(socket, q, trimmed, send, calls + 1);
        FlushEndsPoppedSlots(socket, q, trimmed, send, calls + 1);
        var f := Flush(socket, q, trimmed, send, calls + 1);
        var k := |q| - |f.queue|;
        if k > 0 {
          assert q[0] in Popped(q, k);
        }
      }
    }
  }

  /** The new head keeps its readiness and a suffix of its data. */
  lemma {:induction false} FlushTrimsHead(socket: Socket, q: seq<nat>, slots: Slots, send: Sender, calls: nat)
    requires QueueIn(q, slots)
    ensures var f := Flush(socket, q, slots, send, calls);
      f.queue != [] ==>
        var head := f.queue[0];
        && f.slots[head].ready == slots[head].ready
        && |f.slots[head].data| <= |slots[head].data|
        && f.slots[head].data == slots[head].data[|slots[head].data| - |f.slots[head].data|..]
    decreases |q|, if q == [] then 0 else |slots[q[0]].data|
  {
    if q != [] && slots[q[0]].ready && send(socket, calls, slots[q[0]].data).Returned? {
      var data := slots[q[0]].data;
      var n := send(socket, calls, data).n;
      if 0 < n == |data| {
        FlushTrimsHead(socket, q[1..], slots - {q[0]}, send, calls + 1);
      } else if 0 < n < |data| {
        var trimmed := slots[q[0] := Message(true, data[n..])];
        FlushTrimsHead(socket, q, trimmed, send, calls + 1);
        var f := Flush(socket, q, trimmed, send, calls + 1);
        if f.queue != [] && f.queue[0] == q[0] {
          var d := f.slots[q[0]].data;
          assert d == data[n..][|data[n..]| - |d|..];
          assert d == data[|data| - |d|..];
        }
      }
    }
  }

  /** A head that is not ready blocks the whole queue: nothing is sent. */
  lemma FlushWaitsForReadyHead(socket: Socket, q: seq<nat>, slots: Slots, send: Sender, calls: nat)
    requires QueueIn(q, slots) && q != [] && !slots[q[0]].ready
    ensures Flush(socket, q, slots, send, calls) == Flushed(socket, q, slots, [])
  {
  }

  lemma PoppedCons(q: seq<nat>, k: nat)
    requires 1 <= k <= |q|
    ensures Popped(q, k) == {q[0]} + Popped(q[1..], k - 1)
  {
    forall id | id in Popped(q, k) ensures id in {q[0]} + Popped(q[1..], k - 1) {
      var i :| 0 <= i < k && q[i] == id;
      if i > 0 {
        assert q[1..][i - 1] == id;
      }
    }
    forall id | id in Popped(q[1..], k - 1) ensures id in Popped(q, k) {
      var i :| 0 <= i < k - 1 && q[1..][i] == id;
      assert q[i + 1] == id;
    }
  }

  /**
   * Nothing is lost, duplicated or reordered: the bytes handed to send()
   * followed by what is still pending are exactly what was pending before.
   */
  lemma {:induction false} FlushConserves(socket: Socket, q: seq<nat>, slots: Slots, send: Sender, calls: nat)
    requires QueueIn(q, slots)
    ensures var f := Flush(socket, q, slots, send, calls);
      f.wire + Pending(f.queue, f.slots) == Pending(q, slots)
    decreases |q|, if q == [] then 0 else |slots[q[0]].data|
  {
    var f := Flush(socket, q, slots, send, calls);
    if q == [] || !slots[q[0]].ready || send(socket, calls, slots[q[0]].data).WouldBlock? {
      assert f.wire == [] && f.queue == q && f.slots == slots;
      assert [] + Pending(q, slots) == Pending(q, slots);
    } else {
      var data := slots[q[0]].data;
      var n := send(socket, calls, data).n;
      if n <= 0 || n > |data| {
        assert f.wire == [] && f.queue == q && f.slots == slots;
        assert [] + Pending(q, slots) == Pending(q, slots);
      } else if n == |data| {
        var rest := slots - {q[0]};
        var g := Flush(socket, q[1..], rest, send, calls + 1);
        assert f == g.(wire := data + g.wire);
        FlushConserves(socket, q[1..], rest, send, calls + 1);
        ConservesPop(q, slots, g.wire, Pending(g.queue, g.slots));
      } else {
        var trimmed := slots[q[0] := Message(true, data[n..])];
        var g := Flush(socket, q, trimmed, send, calls + 1);
        assert f == g.(wire := data[..n] + g.wire);
        FlushConserves(socket, q, trimmed, send, calls + 1);
        ConservesTrim(q, slots, n, g.wire, Pending(g.queue, g.slots));
      }
    }
  }

  /** Popping a fully sent head keeps the byte count. */
  lemma ConservesPop(q: seq<nat>, slots: Slots, sent: string, left: string)
    requires QueueIn(q, slots) && q != []
    requires sent + left == Pending(q[1..], slots - {q[0]})
    ensures (slots[q[0]].data + sent) + left == Pending(q, slots)
  {
    PendingFrame(q[1..], slots, slots - {q[0]});
  }

  /** Trimming a partly sent head keeps the byte count. */
  lemma ConservesTrim(q: seq<nat>, slots: Slots, n: nat, sent: string, left: string)
    requires QueueIn(q, slots) && q != [] && n <= |slots[q[0]].data|
    requires var data := slots[q[0]].data;
      sent + left == Pending(q, slots[q[0] := Message(true, data[n..])])
    ensures var data := slots[q[0]].data;
      (data[..n] + sent) + left == Pending(q, slots)
  {
    var data := slots[q[0]].data;
    var trimmed := slots[q[0] := Message(true, data[n..])];
    PendingFrame(q[1..], slots, trimmed);
    var rest := Pending(q[1..], slots);
    assert sent + left == data[n..] + rest;
    calc {
      (data[..n] + sent) + left;
      data[..n] + (sent + left);
      data[..n] + (data[n..] + rest);
      (data[..n] + data[n..]) + rest;
      { assert data[..n] + data[n..] == data; }
      data + rest;
    }
  }

  /**
   * A send error closes the connection and ends the loop with the queue and
   * the slot table unchanged.
   */
  lemma FlushClosesOnError(socket: Socket, q: seq<nat>, slots: Slots, send: Sender, calls: nat)
    requires QueueIn(q, slots) && q != [] && slots[q[0]].ready
    requires send(socket, calls, slots[q[0]].data).Returned?
    requires var n := send(socket, calls, slots[q[0]].data).n; n <= 0 || n > |slots[q[0]].data|
    ensures Flush(socket, q, slots, send, calls) == Flushed(InvalidSocket, q, slots, [])
  {
  }

  /** A partial send keeps the head, with exactly the sent prefix removed, and goes on sending. */
  lemma FlushTrimsPartialSend(socket: Socket, q: seq<nat>, slots: Slots, send: Sender, calls: nat)
    requires QueueIn(q, slots) && q != [] && slots[q[0]].ready
    requires var data := slots[q[0]].data; var r := send(socket, calls, data);
      r.Returned? && 0 < r.n < |data|
    ensures var data := slots[q[0]].data;
      var n := send(socket, calls, data).n;
      var f := Flush(socket, q, slots[q[0] := Message(true, data[n..])], send, calls + 1);
      Flush(socket, q, slots, send, calls) == f.(wire := data[..n] + f.wire)
  {
  }

  /**
   * Two identical messages can meet different send() results: the first is
   * taken whole, the second would block, and only the first leaves the queue.
   */
  lemma FlushEqualMessagesApart(socket: Socket, a: nat, b: nat, x: string, send: Sender)
    requires a != b && x != []
    requires send(socket, 0, x) == Returned(|x|) && send(socket, 1, x) == WouldBlock
    ensures var slots := map[a := Message(true, x), b := Message(true, x)];
      Flush(socket, [a, b], slots, send, 0) == Flushed(socket, [b], map[b := Message(true, x)], x)
  {
    var slots := map[a := Message(true, x), b := Message(true, x)];
    assert [a, b][1..] == [b];
    assert slots - {a} == map[b := Message(true, x)];
    assert x + [] == x;
  }

  // ---------------------------------------------------------------- the loop as written

  /** The variables of the send loop: the client's socket, its queue and the slot table. */
  datatype SendLoop = SendLoop(socket: Socket, queue: seq<nat>, slots: Slots)

  /** The condition of the `while`: a head message exists and is ready. */
  predicate HeadReady(st: SendLoop)
  {
    st.queue != [] && st.queue[0] in st.slots && st.slots[st.queue[0]].ready
  }

  /**
   * One pass of the loop body exactly as written, returning the new
   * variables and whether the body took `break`. The error branch
   * closes the socket but does not break.
   */
  function SendPassAsWritten(st: SendLoop, send: Sender, calls: nat): (r: (SendLoop, bool))
    requires HeadReady(st)
    ensures r.1 ==> r.0 == st
  {
    var data := st.slots[st.queue[0]].data;
    match send(st.socket, calls, data)
    case WouldBlock => (st, true)
    case Returned(n) =>
      if n <= 0 || n > |data| then (st.(socket := InvalidSocket), false)
      else if n == |data| then (st.(queue := st.queue[1..], slots := st.slots - {st.queue[0]}), false)
      else (st.(slots := st.slots[st.queue[0] := Message(true, data[n..])]), false)
  }

  /** `k` passes of the loop as written; the flag says whether it has left the loop. */
  function RunAsWritten(st: SendLoop, send: Sender, calls: nat, k: nat): (SendLoop, bool)
    decreases k
  {
    if k == 0 || !HeadReady(st) then (st, !HeadReady(st))
    else
      var (next, broke) := SendPassAsWritten(st, send, calls);
      if broke then (next, true) else RunAsWritten(next, send, calls + 1, k - 1)
  }

  /**
   * The missing `break`: once a send error has closed the socket, send() on
   * the closed socket fails again, the head is still ready, and the loop
   * never leaves, however many passes it makes.
   */
  lemma {:induction false} SendErrorSpinsAsWritten(st: SendLoop, send: Sender, calls: nat, k: nat)
    requires HeadReady(st) && st.socket == InvalidSocket
    requires forall n, data :: send(InvalidSocket, n, data) == Returned(-1)
    ensures RunAsWritten(st, send, calls, k) == (st, false)
    decreases k
  {
    if k > 0 {
      assert SendPassAsWritten(st, send, calls) == (st, false);
      SendErrorSpinsAsWritten(st, send, calls + 1, k - 1);
    }
  }

  /** The loop as written first goes from an open socket to the closed one on an error. */
  lemma SendErrorClosesAsWritten(st: SendLoop, send: Sender, calls: nat)
    requires HeadReady(st)
    requires send(st.socket, calls, st.slots[st.queue[0]].data) == Returned(-1)
    ensures SendPassAsWritten(st, send, calls) == (st.(socket := InvalidSocket), false)
    ensures HeadReady(st.(socket := InvalidSocket))
  {
  }
}
