// The response a handler fills in (http.hpp, struct response) and what its
// destructor does: write the HTTP/1.1 message into the message slot it was
// given, if that slot still exists, and mark it ready to send.
module Response {
  import opened Text
  import HeaderName
  import opened HeaderValue
  import opened RequestParser
  import opened ParserLines
  import opened ParserRoundTrip
  import opened MessageQueue

  /**
   * struct response: status code and reason phrase, the handler's headers in
   * order, the body, and the id of the message slot (weak_message); `None`
   * stands for a response that was never attached to a connection.
   */
  datatype Response = Response(code: int, reason: string, headers: seq<Header>, body: string, slot: Option<nat>)

  /** A response as poll hands it to the handler: 200 "OK", no headers, empty body. */
  function Fresh(slot: nat): (r: Response)
    ensures r.code == 200 && r.reason == "OK" && r.headers == [] && r.body == []
    ensures r.slot == Some(slot)
  {
    Response(200, "OK", [], [], Some(slot))
  }

  function StatusLine(code: int, reason: string): string
  {
    "HTTP/1.1 " + IntToString(code) + " " + reason + CRLF
  }

  /** The header the destructor always adds after the handler's headers. */
  function ContentLength(body: string): Header
  {
    Header("Content-Length", NatToString(|body|))
  }

  /**
   * The message the destructor builds: status line, the handler's headers in
   * order, Content-Length, the blank line and the body.
   */
  function Serialize(r: Response): string
  {
    StatusLine(r.code, r.reason) + HeaderBytes(r.headers) + FieldLine(ContentLength(r.body)) + CRLF + r.body
  }

  lemma HeaderBytesSnoc(hs: seq<Header>, i: nat)
    requires i < |hs|
    ensures HeaderBytes(hs[..i + 1]) == HeaderBytes(hs[..i]) + FieldLine(hs[i])
  {
    assert hs[..i + 1][..i] == hs[..i];
  }

  /** The message building of ~response, appending piece by piece. */
  method BuildMessage(r: Response) returns (message: string)
    ensures message == Serialize(r)
  {
    message := [];
    message := message + ("HTTP/1.1 " + IntToString(r.code) + " " + r.reason + CRLF);
    assert message == StatusLine(r.code, r.reason) + HeaderBytes(r.headers[..0]);
    for i := 0 to |r.headers|
      invariant message == StatusLine(r.code, r.reason) + HeaderBytes(r.headers[..i])
    {
      HeaderBytesSnoc(r.headers, i);
      message := message + (r.headers[i].name + ": " + r.headers[i].value + CRLF);
    }
    assert r.headers[..|r.headers|] == r.headers;
    message := message + ("Content-Length: " + NatToString(|r.body|) + CRLF);
    message := message + CRLF;
    message := message + r.body;
  }

  /** Header lines concatenate: the lines of `hs + [h]` are those of `hs`, then h's. */
  lemma HeaderBytesAppend(hs: seq<Header>, h: Header)
    ensures HeaderBytes(hs + [h]) == HeaderBytes(hs) + FieldLine(h)
  {
    assert (hs + [h])[..|hs|] == hs;
  }

  /**
   * Past the status line a response is a header block: the handler's
   * headers, in the order it set them and none dropped or merged, followed
   * by Content-Length, then the blank line and the body.
   */
  lemma SerializeFrames(r: Response)
    ensures Serialize(r) ==
      StatusLine(r.code, r.reason) + HeaderBlockBytes(r.headers + [ContentLength(r.body)], r.body)
  {
    HeaderBytesAppend(r.headers, ContentLength(r.body));
  }

  /**
   * A reader that takes the last Content-Length (the rule incoming_request
   * applies) gets the body's length, whatever parsable Content-Length headers
   * the handler set itself: the one added last overrides them.
   */
  lemma ContentLengthCountsBody(r: Response)
    requires |r.body| < UInt32Modulus
    requires forall i :: 0 <= i < |r.headers| && IsContentLength(r.headers[i].name) ==> Stoul(r.headers[i].value).Some?
    ensures ScanContentLength(r.headers + [ContentLength(r.body)], 0) == Length(|r.body|)
  {
    var hs := r.headers + [ContentLength(r.body)];
    var j := |r.headers|;
    HeaderName.Reflexive("Content-Length");
    forall i | 0 <= i <= j && IsContentLength(hs[i].name) ensures Stoul(hs[i].value).Some? {
      if i == j {
        StoulReadsNatToString(|r.body|);
      } else {
        assert hs[i] == r.headers[i];
      }
    }
    LastContentLengthWins(hs, 0, j);
    StoulReadsNatToString(|r.body|);
    SmallModulus(|r.body|, UInt32Modulus);
  }

  lemma DigitsAreNormal(s: string)
    requires AllDigits(s)
    ensures IsNormal(s) && '\r' !in s
  {
  }

  /**
   * Framing round trip: read with incoming_request's header-block rules,
   * the bytes after a response's status line give back the handler's
   * headers followed by Content-Length, and exactly the body, leaving the
   * reader ready for the next message.
   */
  lemma ReadsResponseHeaderBlock(s: ParserState, r: Response)
    requires AtHeaderBlock(s) && FramesBody(r.headers, r.body)
    ensures var hs := r.headers + [ContentLength(r.body)];
      Feed(s, HeaderBlockBytes(hs, r.body)) == Fed(Initial, [s.request.(headers := hs, body := r.body)], Running)
  {
    var cl := ContentLength(r.body);
    var hs := r.headers + [cl];
    HeaderName.Reflexive("Content-Length");
    DigitsAreNormal(cl.value);
    assert WellFormedHeader(cl);
    assert FramesBody(hs, r.body) by {
      assert forall i :: 0 <= i < |r.headers| ==> hs[i] == r.headers[i];
      assert hs[|r.headers|] == cl;
    }
    ReadsHeaderBlock(s, hs, r.body);
  }

  /** The status line starts with the protocol name; the code follows it in decimal. */
  lemma ReadsStatusCode(r: Response)
    requires 0 <= r.code < ULongModulus
    ensures Serialize(r)[..9] == "HTTP/1.1 "
    ensures Stoul(Serialize(r)[9..]) == Some(r.code)
  {
    var tail := HeaderBytes(r.headers) + FieldLine(ContentLength(r.body)) + CRLF + r.body;
    assert Serialize(r) == StatusLine(r.code, r.reason) + tail;
    StatusLineCode(r.code, r.reason, tail);
  }

  lemma StatusLineCode(code: nat, reason: string, tail: string)
    requires code < ULongModulus
    ensures (StatusLine(code, reason) + tail)[..9] == "HTTP/1.1 "
    ensures Stoul((StatusLine(code, reason) + tail)[9..]) == Some(code)
  {
    var rest := " " + reason + CRLF + tail;
    assert StatusLine(code, reason) + tail == "HTTP/1.1 " + (NatToString(code) + rest);
    StoulStopsAtNonDigit(code, rest);
  }

  /**
   * ~response: if the slot still exists, store the message in it and mark
   * it ready; if the connection is gone (or there never was one), do nothing.
   */
  function Deliver(slots: Slots, r: Response): (after: Slots)
    ensures after.Keys == slots.Keys
    ensures forall id :: id in slots && r.slot != Some(id) ==> after[id] == slots[id]
  {
    match r.slot
    case Some(id) => if id in slots then slots[id := Message(true, Serialize(r))] else slots
    case None => slots
  }

  /** A live slot ends up ready, holding the response's message. */
  lemma DeliverFillsSlot(slots: Slots, r: Response)
    requires r.slot.Some? && r.slot.value in slots
    ensures var after := Deliver(slots, r);
      after[r.slot.value].ready && after[r.slot.value].data == Serialize(r)
  {
  }

  /** A response that outlives its connection changes nothing. */
  lemma DeliverToExpiredSlot(slots: Slots, r: Response)
    requires r.slot.None? || r.slot.value !in slots
    ensures Deliver(slots, r) == slots
  {
  }

  /** Queues stay well formed, and the bytes of every other queue stay the same. */
  lemma DeliverKeepsQueues(slots: Slots, r: Response, q: seq<nat>)
    requires QueueIn(q, slots)
    requires r.slot.None? || r.slot.value !in q
    ensures QueueIn(q, Deliver(slots, r))
    ensures Pending(q, Deliver(slots, r)) == Pending(q, slots)
  {
    PendingFrame(q, slots, Deliver(slots, r));
  }
}
