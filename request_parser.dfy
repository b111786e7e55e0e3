// The per-connection request parser (http.hpp, struct incoming_request):
// a byte-at-a-time state machine RequestLine -> HeaderLine -> Body that
// hands every completed request to a continuation and then resets itself,
// so that pipelined requests on one connection are parsed in turn
// (RFC 7230 sections 3.1.1, 3.2, 3.2.4 and 3.3.2).
module RequestParser {
  import opened Text
  import HeaderName
  import opened HeaderValue
  import opened StartLine

  datatype Header = Header(name: string, value: string)

  /** struct request: method, url, the header fields in arrival order, body. */
  datatype Request = Request(httpMethod: string, url: string, headers: seq<Header>, body: string)

  const EmptyRequest: Request := Request("", "", [], "")

  datatype Mode = RequestLine | HeaderLine | Body

  /**
   * The fields of incoming_request: the request built so far, the mode, the
   * count of body bytes still expected (a uint32_t) and the current line.
   */
  datatype ParserState = ParserState(mode: Mode, bodyRemains: nat, line: string, request: Request)

  /** A default-constructed incoming_request, which reset() restores. */
  const Initial: ParserState := ParserState(RequestLine, 0, "", EmptyRequest)

  /**
   * What holds between calls while parsing has not failed: the body count
   * fits a uint32_t, it is non-zero exactly in Body mode (the source asserts
   * this on every body byte), and no line is pending in Body mode.
   */
  predicate Valid(s: ParserState)
  {
    && s.bodyRemains < UInt32Modulus
    && (s.mode == Body <==> s.bodyRemains > 0)
    && (s.mode == Body ==> s.line == [])
  }

  /**
   * How a call of parse_bytes ended: it returned true (`Running`), it
   * returned false (`Failed`), or std::stoul threw out of it (`Threw`).
   */
  datatype Status = Running | Failed | Threw

  /** The parser state after some bytes, the requests handed to the continuation, and the status. */
  datatype Fed = Fed(state: ParserState, finished: seq<Request>, status: Status)

  /** The header loop of lines 180-194, on values: clean up every value. */
  function NormalizeAll(hs: seq<Header>): (r: seq<Header>)
    ensures |r| == |hs|
    ensures forall i :: 0 <= i < |hs| ==> r[i] == Header(hs[i].name, Normalize(hs[i].value))
  {
    seq(|hs|, i requires 0 <= i < |hs| => Header(hs[i].name, Normalize(hs[i].value)))
  }

  predicate IsContentLength(name: string)
  {
    HeaderName.EqualsIgnoringCase(name, "Content-Length")
  }

  /** Outcome of the Content-Length loop (lines 197-201): the count, or the count when stoul threw. */
  datatype LengthScan = Length(n: nat) | LengthThrew(n: nat)

  /**
   * Walk the headers in order; each one named Content-Length (in any case)
   * overwrites the count with its std::stoul value truncated to 32 bits, and
   * a value stoul rejects throws.
   */
  function ScanContentLength(hs: seq<Header>, start: nat): (r: LengthScan)
    requires start < UInt32Modulus
    ensures r.n < UInt32Modulus
    decreases |hs|
  {
    if hs == [] then Length(start)
    else
      var prev := ScanContentLength(hs[..|hs| - 1], start);
      var h := hs[|hs| - 1];
      if prev.LengthThrew? || !IsContentLength(h.name) then prev
      else match Stoul(h.value)
        case None => LengthThrew(prev.n)
        case Some(v) => Length(v % UInt32Modulus)
  }

  /** The blank line that ends the header block (lines 176-207). */
  function EndOfHeaders(s: ParserState): (r: Fed)
    requires Valid(s) && s.mode == HeaderLine
    ensures r.status == Running ==> Valid(r.state)
  {
    var request := s.request.(headers := NormalizeAll(s.request.headers));
    match ScanContentLength(request.headers, s.bodyRemains)
    case LengthThrew(n) => Fed(s.(request := request, bodyRemains := n, line := []), [], Threw)
    case Length(n) =>
      if n == 0 then Fed(Initial, [request], Running)
      else Fed(ParserState(Body, n, [], request), [], Running)
  }

  /**
   * A line whose CRLF has just been trimmed off `s.line`, in RequestLine or
   * HeaderLine mode (lines 161-225).
   */
  function CompleteLine(s: ParserState): (r: Fed)
    requires Valid(s) && s.mode != Body
    ensures r.status == Running ==> Valid(r.state)
  {
    if s.mode == RequestLine then RequestLineDone(s)
    else if s.line == [] then EndOfHeaders(s)
    else HeaderLineDone(s)
  }

  /** Lines 162-174: an empty line is skipped, otherwise "method SP url SP version". */
  function RequestLineDone(s: ParserState): (r: Fed)
    requires Valid(s) && s.mode == RequestLine
    ensures r.status == Running ==> Valid(r.state)
  {
    var l := s.line;
    if l == [] then Fed(s, [], Running)
    else match SplitRequestLine(l)
      case NoSpace => Fed(s, [], Failed)
      case Parts(m, u, v) =>
        var named := s.(request := s.request.(httpMethod := m, url := u));
        if IsHttp1(v) then Fed(named.(mode := HeaderLine, line := []), [], Running)
        else Fed(named, [], Failed)
  }

  /** Lines 209-222: a continuation line or a "name: value" field. */
  function HeaderLineDone(s: ParserState): (r: Fed)
    requires Valid(s) && s.mode == HeaderLine && s.line != []
    ensures r.status == Running ==> Valid(r.state)
  {
    var l := s.line;
    var hs := s.request.headers;
    if IsBlank(l[0]) then
      if hs == [] then Fed(s, [], Failed)
      else
        var last := hs[|hs| - 1];
        var hs' := hs[..|hs| - 1] + [Header(last.name, last.value + l)];
        Fed(s.(request := s.request.(headers := hs'), line := []), [], Running)
    else match Find(l, ':', 0)
      case None => Fed(s, [], Failed)
      case Some(i) =>
        var hs' := hs + [Header(l[..i], l[i + 1..])];
        Fed(s.(request := s.request.(headers := hs'), line := []), [], Running)
  }

  /** One iteration of the loop of parse_bytes, on byte `c`. */
  function Step(s: ParserState, c: char): (r: Fed)
    requires Valid(s)
    ensures r.status == Running ==> Valid(r.state)
    ensures |r.finished| <= 1
  {
    if s.mode == Body then
      var request := s.request.(body := s.request.body + [c]);
      if s.bodyRemains == 1 then Fed(Initial, [request], Running)
      else Fed(s.(request := request, bodyRemains := s.bodyRemains - 1), [], Running)
    else
      var line := s.line + [c];
      if |line| >= 2 && line[|line| - 2] == '\r' && line[|line| - 1] == '\n' then
        CompleteLine(s.(line := line[..|line| - 2]))
      else Fed(s.(line := line), [], Running)
  }

  /**
   * parse_bytes on `bytes`: every byte in turn, stopping at the first that
   * fails or throws; the requests completed before that are still handed on.
   */
  function Feed(s: ParserState, bytes: string): (r: Fed)
    requires Valid(s)
    ensures r.status == Running ==> Valid(r.state)
    decreases |bytes|
  {
    if bytes == [] then Fed(s, [], Running)
    else
      var prev := Feed(s, bytes[..|bytes| - 1]);
      if prev.status != Running then prev
      else
        var st := Step(prev.state, bytes[|bytes| - 1]);
        Fed(st.state, prev.finished + st.finished, st.status)
  }

  /** Feeding one more byte after a prefix that did not fail is one more Step. */
  lemma FeedSnoc(s: ParserState, p: string, c: char)
    requires Valid(s) && Feed(s, p).status == Running
    ensures var prev := Feed(s, p);
      var st := Step(prev.state, c);
      Feed(s, p + [c]) == Fed(st.state, prev.finished + st.finished, st.status)
  {
    assert (p + [c])[..|p|] == p;
  }

  /** Once a call has failed or thrown, later bytes of the same call change nothing. */
  lemma {:induction false} FeedStopsAfterFailure(s: ParserState, x: string, y: string)
    requires Valid(s) && Feed(s, x).status != Running
    ensures Feed(s, x + y) == Feed(s, x)
    decreases |y|
  {
    if y != [] {
      var y' := y[..|y| - 1];
      assert (x + y)[..|x + y| - 1] == x + y';
      FeedStopsAfterFailure(s, x, y');
    } else {
      assert x + y == x;
    }
  }

  /** incoming_request with its fields updated in place. */
  class IncomingRequest {
    var mode: Mode
    var bodyRemains: nat
    var line: string
    var httpMethod: string
    var url: string
    var headers: seq<Header>
    var body: string

    function AsRequest(): Request
      reads this
    {
      Request(httpMethod, url, headers, body)
    }

    function State(): ParserState
      reads this
    {
      ParserState(mode, bodyRemains, line, AsRequest())
    }

    constructor()
      ensures State() == Initial
    {
      mode, bodyRemains, line := RequestLine, 0, "";
      httpMethod, url, headers, body := "", "", [], "";
    }

    /** reset(): `*this = incoming_request()`. */
    method Reset()
      modifies this
      ensures State() == Initial
    {
      mode, bodyRemains, line := RequestLine, 0, "";
      httpMethod, url, headers, body := "", "", [], "";
    }

    /**
     * parse_bytes: feed the bytes one at a time; `finished` lists, in order,
     * the requests on which the continuation was called.
     */
    method ParseBytes(bytes: string) returns (status: Status, finished: seq<Request>)
      requires Valid(State())
      modifies this
      ensures Fed(State(), finished, status) == Feed(old(State()), bytes)
    {
      ghost var start := State();
      finished := [];
      var i := 0;
      while i < |bytes|
        invariant 0 <= i <= |bytes|
        invariant Feed(start, bytes[..i]) == Fed(State(), finished, Running)
      {
        ghost var before := State();
        var st, done := ParseByte(bytes[i]);
        assert Feed(start, bytes[..i + 1]) == Fed(State(), finished + done, st) by {
          PrefixSnoc(bytes, i);
          FeedSnoc(start, bytes[..i], bytes[i]);
        }
        finished := finished + done;
        if st != Running {
          PrefixSuffix(bytes, i + 1);
          FeedStopsAfterFailure(start, bytes[..i + 1], bytes[i + 1..]);
          return st, finished;
        }
        i := i + 1;
      }
      assert bytes[..|bytes|] == bytes;
      status := Running;
    }

    /** The body of the loop of parse_bytes for one byte. */
    method ParseByte(c: char) returns (status: Status, done: seq<Request>)
      requires Valid(State())
      modifies this
      ensures Fed(State(), done, status) == Step(old(State()), c)
    {
      if mode == RequestLine || mode == HeaderLine {
        line := line + [c];
        if |line| >= 2 && line[|line| - 2] == '\r' && line[|line| - 1] == '\n' {
          line := line[..|line| - 2];
          status, done := ParseLine();
          return;
        }
        return Running, [];
      }
      body := body + [c];
      bodyRemains := bodyRemains - 1;
      done := [];
      if bodyRemains == 0 {
        done := [AsRequest()];
        Reset();
      }
      status := Running;
    }

    /**
     * A complete line, CRLF trimmed, in RequestLine or HeaderLine mode. The
     * source clears `line` once after every line that did not fail; here each
     * branch that succeeds clears it.
     */
    method ParseLine() returns (status: Status, done: seq<Request>)
      requires Valid(State()) && mode != Body
      modifies this
      ensures Fed(State(), done, status) == CompleteLine(old(State()))
    {
      if mode == RequestLine {
        status := ParseRequestLine();
        done := [];
      } else if line == [] {
        status, done := FinishHeaders();
      } else {
        status := ParseHeaderLine();
        done := [];
      }
    }

    /** Lines 162-174: "method SP url SP version". */
    method ParseRequestLine() returns (status: Status)
      requires Valid(State()) && mode == RequestLine
      modifies this
      ensures Fed(State(), [], status) == RequestLineDone(old(State()))
    {
      if |line| == 0 {
        return Running;
      }
      var i1 := Find(line, ' ', 0);
      if i1.None? {
        return Failed;
      }
      // The source re-tests i1 here instead of i2, so a missing second space
      // is never rejected.
      var i2 := Find(line, ' ', i1.value + 1);
      var m := line[..i1.value];
      var u := if i2.Some? then line[i1.value + 1..i2.value] else line[i1.value + 1..];
      var version := if i2.Some? then line[i2.value + 1..] else line;
      assert SplitRequestLine(line) == Parts(m, u, version);
      httpMethod, url := m, u;
      if !IsHttp1(version) {
        return Failed;
      }
      mode := HeaderLine;
      line := "";
      status := Running;
    }

    /** Lines 209-222: a continuation line or a "name: value" field. */
    method ParseHeaderLine() returns (status: Status)
      requires Valid(State()) && mode == HeaderLine && line != []
      modifies this
      ensures Fed(State(), [], status) == HeaderLineDone(old(State()))
    {
      if line[0] == ' ' || line[0] == '\t' {
        if headers == [] {
          return Failed;
        }
        var last := headers[|headers| - 1];
        headers := headers[..|headers| - 1] + [Header(last.name, last.value + line)];
      } else {
        var i := Find(line, ':', 0);
        if i.None? {
          return Failed;
        }
        headers := headers + [Header(line[..i.value], line[i.value + 1..])];
      }
      line := "";
      status := Running;
    }

    /** Lines 180-207: clean up the values, read Content-Length, maybe finish. */
    method FinishHeaders() returns (status: Status, done: seq<Request>)
      requires Valid(State()) && mode == HeaderLine && line == []
      modifies this
      ensures Fed(State(), done, status) == EndOfHeaders(old(State()))
    {
      NormalizeHeaders();
      var threw := ReadContentLength();
      if threw {
        return Threw, [];
      }
      mode := Body;
      done := [];
      if bodyRemains == 0 {
        done := [AsRequest()];
        Reset();
      }
      status := Running;
    }

    /** Lines 180-194: every header value cleaned up in place. */
    method NormalizeHeaders()
      modifies this
      ensures State() == old(State()).(request := old(AsRequest()).(headers := NormalizeAll(old(headers))))
    {
      ghost var raw := headers;
      var k := 0;
      while k < |headers|
        invariant 0 <= k <= |headers| == |raw|
        invariant headers[..k] == NormalizeAll(raw)[..k]
        invariant headers[k..] == raw[k..]
        invariant State() == old(State()).(request := old(AsRequest()).(headers := headers))
      {
        var value := NormalizeValue(headers[k].value);
        headers := headers[k := Header(headers[k].name, value)];
        k := k + 1;
      }
      assert headers == NormalizeAll(raw);
    }

    /** Lines 197-201: the last Content-Length header sets the body count; stoul may throw. */
    method ReadContentLength() returns (threw: bool)
      requires bodyRemains < UInt32Modulus
      modifies this
      ensures var scan := ScanContentLength(old(headers), old(bodyRemains));
        threw == scan.LengthThrew? && State() == old(State()).(bodyRemains := scan.n)
    {
      ghost var start := bodyRemains;
      var k := 0;
      while k < |headers|
        invariant 0 <= k <= |headers|
        invariant ScanContentLength(headers[..k], start) == Length(bodyRemains)
        invariant State() == old(State()).(bodyRemains := bodyRemains)
      {
        ScanSnoc(headers, k, start);
        var matches := HeaderName.CaseInsensitiveEquals(headers[k].name, "Content-Length");
        if matches {
          var v := Stoul(headers[k].value);
          if v.None? {
            PrefixSuffix(headers, k + 1);
            ScanStopsAfterThrow(headers[..k + 1], headers[k + 1..], start);
            return true;
          }
          bodyRemains := v.value % UInt32Modulus;
        }
        k := k + 1;
      }
      assert headers[..|headers|] == headers;
      threw := false;
    }
  }

  lemma ScanSnoc(hs: seq<Header>, k: nat, start: nat)
    requires k < |hs| && start < UInt32Modulus
    ensures var prev := ScanContentLength(hs[..k], start);
      ScanContentLength(hs[..k + 1], start) ==
        if prev.LengthThrew? || !IsContentLength(hs[k].name) then prev
        else match Stoul(hs[k].value)
          case None => LengthThrew(prev.n)
          case Some(v) => Length(v % UInt32Modulus)
  {
    assert hs[..k + 1][..k] == hs[..k];
  }

  /** Once stoul has thrown, later headers are not looked at. */
  lemma {:induction false} ScanStopsAfterThrow(x: seq<Header>, y: seq<Header>, start: nat)
    requires start < UInt32Modulus && ScanContentLength(x, start).LengthThrew?
    ensures ScanContentLength(x + y, start) == ScanContentLength(x, start)
    decreases |y|
  {
    if y != [] {
      var y' := y[..|y| - 1];
      assert (x + y)[..|x + y| - 1] == x + y';
      ScanStopsAfterThrow(x, y', start);
    } else {
      assert x + y == x;
    }
  }
}
