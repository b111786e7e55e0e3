// End-to-end properties of the request parser: a request written out in the
// wire format is parsed back to itself, however the bytes are split between
// calls, and pipelined requests come out in order.
module ParserRoundTrip {
  import opened Text
  import opened HeaderValue
  import opened StartLine
  import opened RequestParser
  import opened ParserLines

  /** One header in the wire format: "name: value" CRLF. */
  function FieldLine(h: Header): string
  {
    h.name + ": " + h.value + CRLF
  }

  /** The header lines, in order. */
  function HeaderBytes(hs: seq<Header>): string
    decreases |hs|
  {
    if hs == [] then []
    else HeaderBytes(hs[..|hs| - 1]) + FieldLine(hs[|hs| - 1])
  }

  /** The request line of an HTTP/1.1 request. */
  function RequestLineBytes(httpMethod: string, url: string): string
  {
    httpMethod + " " + url + " " + "HTTP/1.1" + CRLF
  }

  /** Header lines, the blank line that ends them, then the body. */
  function HeaderBlockBytes(hs: seq<Header>, body: string): string
  {
    HeaderBytes(hs) + CRLF + body
  }

  /** A request in the wire format: request line, then its header block. */
  function RequestBytes(r: Request): string
  {
    RequestLineBytes(r.httpMethod, r.url) + HeaderBlockBytes(r.headers, r.body)
  }

  predicate WellFormedHeader(h: Header)
  {
    && h.name != [] && !IsBlank(h.name[0]) && ':' !in h.name && '\r' !in h.name
    && '\r' !in h.value && IsNormal(h.value)
  }

  /**
   * Headers and body the parser gives back unchanged: header names without
   * ':' or leading blank, values already clean, no CR anywhere, and every
   * Content-Length header giving the body length (at least one when the
   * body is not empty).
   */
  predicate FramesBody(hs: seq<Header>, body: string)
  {
    && (forall i :: 0 <= i < |hs| ==> WellFormedHeader(hs[i]))
    && |body| < UInt32Modulus
    && (forall i :: 0 <= i < |hs| && IsContentLength(hs[i].name) ==> hs[i].value == NatToString(|body|))
    && (body != [] ==> exists i :: 0 <= i < |hs| && IsContentLength(hs[i].name))
  }

  /** A request the parser can give back unchanged: no space or CR in method and url. */
  predicate WellFormed(r: Request)
  {
    && ' ' !in r.httpMethod && '\r' !in r.httpMethod
    && ' ' !in r.url && '\r' !in r.url
    && FramesBody(r.headers, r.body)
  }

  /** The headers as stored before clean-up: the value still has the space after ':'. */
  function Raw(hs: seq<Header>): (r: seq<Header>)
    ensures |r| == |hs|
    ensures forall i :: 0 <= i < |hs| ==> r[i] == Header(hs[i].name, " " + hs[i].value)
  {
    seq(|hs|, i requires 0 <= i < |hs| => Header(hs[i].name, " " + hs[i].value))
  }

  lemma NoCRInLine(l: string)
    requires '\r' !in l
    ensures NoCRLF(l)
  {
    assert forall i :: 0 <= i < |l| ==> l[i] != '\r';
  }

  lemma HeaderLineHasNoCR(h: Header)
    requires WellFormedHeader(h)
    ensures NoCRLF(h.name + ":" + (" " + h.value))
  {
    var l := h.name + ":" + (" " + h.value);
    assert forall k :: 0 <= k < |h.name| ==> l[k] == h.name[k];
    assert forall k :: |h.name| + 2 <= k < |l| ==> l[k] == h.value[k - |h.name| - 2];
    NoCRInLine(l);
  }

  lemma FieldLineSplit(h: Header)
    ensures FieldLine(h) == h.name + ":" + (" " + h.value) + CRLF
  {
  }

  /** One well-formed header line appends the header, its value still raw. */
  lemma FeedsField(s: ParserState, h: Header)
    requires Valid(s) && s.mode == HeaderLine && s.line == []
    requires WellFormedHeader(h)
    ensures Feed(s, FieldLine(h)) ==
      Fed(s.(request := s.request.(headers := s.request.headers + [Header(h.name, " " + h.value)])), [], Running)
  {
    HeaderLineHasNoCR(h);
    AppendsField(s, h.name, " " + h.value);
    FieldLineSplit(h);
  }

  lemma RawSnoc(front: seq<Header>, hs: seq<Header>)
    requires hs != []
    ensures front + Raw(hs[..|hs| - 1]) + [Header(hs[|hs| - 1].name, " " + hs[|hs| - 1].value)] == front + Raw(hs)
  {
  }

  /** Well-formed header lines are appended one by one, values still raw. */
  lemma {:induction false} FeedsHeaders(s: ParserState, hs: seq<Header>)
    requires Valid(s) && s.mode == HeaderLine && s.line == []
    requires forall i :: 0 <= i < |hs| ==> WellFormedHeader(hs[i])
    ensures Feed(s, HeaderBytes(hs)) ==
      Fed(s.(request := s.request.(headers := s.request.headers + Raw(hs))), [], Running)
    decreases |hs|
  {
    if hs == [] {
      assert s.request.headers + Raw(hs) == s.request.headers;
    } else {
      var p := hs[..|hs| - 1];
      var h := hs[|hs| - 1];
      var s1 := s.(request := s.request.(headers := s.request.headers + Raw(p)));
      assert Feed(s, HeaderBytes(p)) == Fed(s1, [], Running) by {
        FeedsHeaders(s, p);
      }
      FeedsField(s1, h);
      FeedChunks(s, HeaderBytes(p), FieldLine(h));
      RawSnoc(s.request.headers, hs);
    }
  }

  lemma CleansRawHeaders(hs: seq<Header>)
    requires forall i :: 0 <= i < |hs| ==> WellFormedHeader(hs[i])
    ensures NormalizeAll(Raw(hs)) == hs
  {
    forall i | 0 <= i < |hs| ensures NormalizeAll(Raw(hs))[i] == hs[i] {
      NormalizeAfterSpace(hs[i].value);
    }
  }

  /**
   * When every Content-Length header holds the same value `v`, which
   * std::stoul accepts, the count is that value, or the starting count when
   * there is no such header.
   */
  lemma {:induction false} UniformContentLength(hs: seq<Header>, start: nat, v: string)
    requires start < UInt32Modulus && Stoul(v).Some?
    requires forall i :: 0 <= i < |hs| && IsContentLength(hs[i].name) ==> hs[i].value == v
    ensures ScanContentLength(hs, start) ==
      if exists i :: 0 <= i < |hs| && IsContentLength(hs[i].name) then Length(Stoul(v).value % UInt32Modulus)
      else Length(start)
    decreases |hs|
  {
    if hs != [] {
      var p := hs[..|hs| - 1];
      UniformContentLength(p, start, v);
      assert forall i :: 0 <= i < |p| ==> p[i] == hs[i];
    }
  }

  /** The Content-Length of well-formed headers reads as the body length. */
  lemma ReadsBodyLength(hs: seq<Header>, body: string)
    requires |body| < UInt32Modulus
    requires forall i :: 0 <= i < |hs| && IsContentLength(hs[i].name) ==> hs[i].value == NatToString(|body|)
    requires body != [] ==> exists i :: 0 <= i < |hs| && IsContentLength(hs[i].name)
    ensures ScanContentLength(hs, 0) == Length(|body|)
  {
    var v := NatToString(|body|);
    assert Stoul(v) == Some(|body|) by {
      StoulReadsNatToString(|body|);
    }
    UniformContentLength(hs, 0, v);
    SmallModulus(|body|, UInt32Modulus);
  }

  /** A fresh header block: header mode at the start of a line, nothing read yet. */
  predicate AtHeaderBlock(s: ParserState)
  {
    && Valid(s) && s.mode == HeaderLine && s.line == [] && s.bodyRemains == 0
    && s.request.headers == [] && s.request.body == []
  }

  /** At the blank line the raw headers are cleaned and the body length is read. */
  lemma CleansHeaderBlock(s: ParserState, hs: seq<Header>, body: string)
    requires AtHeaderBlock(s) && FramesBody(hs, body)
    ensures var raw := s.(request := s.request.(headers := Raw(hs)));
      var full := s.request.(headers := hs);
      EndOfHeaders(raw) ==
        if body == [] then Fed(Initial, [full], Running)
        else Fed(ParserState(Body, |body|, [], full), [], Running)
  {
    CleansRawHeaders(hs);
    ReadsBodyLength(hs, body);
  }

  /**
   * Well-formed header lines and the blank line complete the request when
   * the body is empty, and otherwise leave the parser waiting for exactly
   * the body's bytes.
   */
  lemma ReadsHeaders(s: ParserState, hs: seq<Header>, body: string)
    requires AtHeaderBlock(s) && FramesBody(hs, body)
    ensures var full := s.request.(headers := hs);
      Feed(s, HeaderBytes(hs) + CRLF) ==
        if body == [] then Fed(Initial, [full], Running)
        else Fed(ParserState(Body, |body|, [], full), [], Running)
  {
    var raw := s.(request := s.request.(headers := Raw(hs)));
    assert Feed(s, HeaderBytes(hs)) == Fed(raw, [], Running) by {
      FeedsHeaders(s, hs);
      assert [] + Raw(hs) == Raw(hs);
    }
    FeedChunks(s, HeaderBytes(hs), CRLF);
    assert Feed(raw, CRLF) == EndOfHeaders(raw) by {
      EndsHeaders(raw);
    }
    CleansHeaderBlock(s, hs, body);
    ThenNothingFirst(Fed(raw, [], Running), EndOfHeaders(raw));
  }

  lemma ThenNothingFirst(a: Fed, b: Fed)
    requires a.finished == []
    ensures Then(a, b) == b
  {
    assert [] + b.finished == b.finished;
  }

  /**
   * The framing the parser reads: from the start of a header block, the
   * header lines, the blank line and the body complete exactly one request
   * with those headers and that body, and the parser is back in its initial
   * state.
   */
  lemma ReadsHeaderBlock(s: ParserState, hs: seq<Header>, body: string)
    requires AtHeaderBlock(s) && FramesBody(hs, body)
    ensures Feed(s, HeaderBlockBytes(hs, body)) ==
      Fed(Initial, [s.request.(headers := hs, body := body)], Running)
  {
    var full := s.request.(headers := hs);
    ReadsHeaders(s, hs, body);
    if body == [] {
      assert HeaderBlockBytes(hs, body) == HeaderBytes(hs) + CRLF;
      assert full == s.request.(headers := hs, body := body);
    } else {
      var b := ParserState(Body, |body|, [], full);
      FinishesBody(b, body);
      assert full.(body := [] + body) == s.request.(headers := hs, body := body);
      FeedChunks(s, HeaderBytes(hs) + CRLF, body);
    }
  }

  /**
   * Round trip: the bytes of a well-formed request, fed from the initial
   * state, hand exactly that request to the continuation and leave the
   * parser in its initial state.
   */
  lemma ParsesRequestBytes(r: Request)
    requires WellFormed(r)
    ensures Feed(Initial, RequestBytes(r)) == Fed(Initial, [r], Running)
  {
    var start := RequestLineBytes(r.httpMethod, r.url);
    var s := Initial.(mode := HeaderLine, request := EmptyRequest.(httpMethod := r.httpMethod, url := r.url));
    ReadsWellFormedRequestLine(r.httpMethod, r.url);
    ReadsHeaderBlock(s, r.headers, r.body);
    assert s.request.(headers := r.headers, body := r.body) == r;
    FeedChunks(Initial, start, HeaderBlockBytes(r.headers, r.body));
  }

  lemma RequestLineHasNoCR(m: string, u: string)
    requires '\r' !in m && '\r' !in u
    ensures NoCRLF(m + " " + u + " " + "HTTP/1.1")
  {
    var l := m + " " + u + " " + "HTTP/1.1";
    assert forall k :: 0 <= k < |m| ==> l[k] == m[k];
    assert forall k :: |m| + 1 <= k < |m| + 1 + |u| ==> l[k] == u[k - |m| - 1];
    NoCRInLine(l);
  }

  lemma ReadsWellFormedRequestLine(m: string, u: string)
    requires ' ' !in m && '\r' !in m && ' ' !in u && '\r' !in u
    ensures Feed(Initial, RequestLineBytes(m, u)) ==
      Fed(Initial.(mode := HeaderLine, request := EmptyRequest.(httpMethod := m, url := u)), [], Running)
  {
    RequestLineHasNoCR(m, u);
    assert IsHttp1("HTTP/1.1");
    ReadsRequestLine(Initial, m, u, "HTTP/1.1");
  }

  /** Two pipelined requests are handed on in arrival order. */
  lemma ParsesPipelinedRequests(r1: Request, r2: Request)
    requires WellFormed(r1) && WellFormed(r2)
    ensures Feed(Initial, RequestBytes(r1) + RequestBytes(r2)) == Fed(Initial, [r1, r2], Running)
  {
    ParsesRequestBytes(r1);
    ParsesRequestBytes(r2);
    FeedChunks(Initial, RequestBytes(r1), RequestBytes(r2));
  }

  /**
   * However the bytes of a well-formed request are cut in two, the first
   * call does not fail and the two calls together hand on that request and
   * end in the initial state.
   */
  lemma ChunkBoundaryIrrelevant(r: Request, k: nat)
    requires WellFormed(r) && k <= |RequestBytes(r)|
    ensures var b := RequestBytes(r);
      var first := Feed(Initial, b[..k]);
      first.status == Running && Then(first, Feed(first.state, b[k..])) == Fed(Initial, [r], Running)
  {
    var b := RequestBytes(r);
    ParsesRequestBytes(r);
    assert b[..k] + b[k..] == b;
    if Feed(Initial, b[..k]).status != Running {
      FeedStopsAfterFailure(Initial, b[..k], b[k..]);
      assert false;
    }
    FeedChunks(Initial, b[..k], b[k..]);
  }
}
