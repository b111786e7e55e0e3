// Properties of the request parser at the level of bytes, chunks and whole
// lines: how the bytes are split across calls does not matter, and what a
// complete line does in each mode.
module ParserLines {
  import opened Text
  import opened HeaderValue
  import opened StartLine
  import opened RequestParser

  /** Results of two consecutive calls, as one. */
  function Then(a: Fed, b: Fed): Fed
  {
    Fed(b.state, a.finished + b.finished, b.status)
  }

  /**
   * Chunk independence: feeding `x` and then `y` hands on the same requests
   * and reaches the same state as feeding `x + y`, when the first call did
   * not fail.
   */
  lemma FeedChunks(s: ParserState, x: string, y: string)
    requires Valid(s) && Feed(s, x).status == Running
    ensures Feed(s, x + y) == Then(Feed(s, x), Feed(Feed(s, x).state, y))
  {
    FeedIsRun(s, x + y);
    FeedIsRun(s, x);
    FeedIsRun(Feed(s, x).state, y);
    RunChunks(TotalStep, s, x, y);
  }

  /** Step, made total: a state outside the invariant fails. */
  function TotalStep(s: ParserState, c: char): Fed
  {
    if Valid(s) then Step(s, c) else Fed(s, [], Failed)
  }

  /** The byte loop of Feed, over any step function. */
  function Run(step: (ParserState, char) -> Fed, s: ParserState, bytes: string): Fed
    decreases |bytes|
  {
    if bytes == [] then Fed(s, [], Running)
    else
      var prev := Run(step, s, bytes[..|bytes| - 1]);
      if prev.status != Running then prev
      else
        var st := step(prev.state, bytes[|bytes| - 1]);
        Fed(st.state, prev.finished + st.finished, st.status)
  }

  lemma {:induction false} FeedIsRun(s: ParserState, bytes: string)
    requires Valid(s)
    ensures Feed(s, bytes) == Run(TotalStep, s, bytes)
    decreases |bytes|
  {
    if bytes != [] {
      FeedIsRun(s, bytes[..|bytes| - 1]);
    }
  }

  lemma {:induction false} RunChunks(step: (ParserState, char) -> Fed, s: ParserState, x: string, y: string)
    requires Run(step, s, x).status == Running
    ensures Run(step, s, x + y) == Then(Run(step, s, x), Run(step, Run(step, s, x).state, y))
    decreases |y|
  {
    var a := Run(step, s, x);
    if y == [] {
      assert x + y == x;
    } else {
      var y' := y[..|y| - 1];
      RunChunks(step, s, x, y');
      assert (x + y)[..|x + y| - 1] == x + y';
      var b' := Run(step, a.state, y');
      if b'.status == Running {
        var st := step(b'.state, y[|y| - 1]);
        assert a.finished + (b'.finished + st.finished) == (a.finished + b'.finished) + st.finished;
      }
    }
  }

  /** No CR immediately followed by LF. */
  predicate NoCRLF(l: string)
  {
    forall i :: 0 <= i < |l| - 1 ==> !(l[i] == '\r' && l[i + 1] == '\n')
  }

  /** A byte that does not complete a CRLF is appended to the line. */
  lemma StepAppends(s: ParserState, c: char)
    requires Valid(s) && s.mode != Body
    requires !(s.line != [] && s.line[|s.line| - 1] == '\r' && c == '\n')
    ensures Step(s, c) == Fed(s.(line := s.line + [c]), [], Running)
  {
  }

  lemma NoCRLFDropLast(l: string)
    requires NoCRLF(l) && l != []
    ensures var p := l[..|l| - 1];
      NoCRLF(p) && !(p != [] && p[|p| - 1] == '\r' && l[|l| - 1] == '\n')
  {
    var p := l[..|l| - 1];
    forall i | 0 <= i < |p| - 1 ensures !(p[i] == '\r' && p[i + 1] == '\n') {
      assert p[i] == l[i] && p[i + 1] == l[i + 1];
    }
    if p != [] {
      assert p[|p| - 1] == l[|l| - 2];
    }
  }

  /** Bytes that do not complete a line only extend the current line. */
  lemma {:induction false} FeedPartialLine(s: ParserState, l: string)
    requires Valid(s) && s.mode != Body && s.line == [] && NoCRLF(l)
    ensures Feed(s, l) == Fed(s.(line := l), [], Running)
    decreases |l|
  {
    if l != [] {
      var p := l[..|l| - 1];
      var c := l[|l| - 1];
      NoCRLFDropLast(l);
      FeedPartialLine(s, p);
      StepAppends(s.(line := p), c);
      FeedSnoc(s, p, c);
      assert p + [c] == l;
    }
  }

  lemma NoCRLFAddCR(l: string)
    requires NoCRLF(l)
    ensures NoCRLF(l + ['\r'])
  {
    var lr := l + ['\r'];
    forall i | 0 <= i < |lr| - 1 ensures !(lr[i] == '\r' && lr[i + 1] == '\n') {
      if i < |l| - 1 {
        assert lr[i] == l[i] && lr[i + 1] == l[i + 1];
      } else {
        assert lr[i + 1] == '\r';
      }
    }
  }

  /** The LF after a CR completes the line without its CRLF. */
  lemma StepCompletes(s: ParserState, l: string)
    requires Valid(s) && s.mode != Body
    ensures Step(s.(line := l + ['\r']), '\n') == CompleteLine(s.(line := l))
  {
    var line := l + ['\r'] + ['\n'];
    assert line[..|line| - 2] == l;
  }

  /** A whole line with its CRLF, fed from the start of a line. */
  lemma FeedLine(s: ParserState, l: string)
    requires Valid(s) && s.mode != Body && s.line == [] && NoCRLF(l)
    ensures Feed(s, l + CRLF) == CompleteLine(s.(line := l))
  {
    var lr := l + ['\r'];
    NoCRLFAddCR(l);
    FeedPartialLine(s, lr);
    FeedSnoc(s, lr, '\n');
    StepCompletes(s, l);
    assert lr + ['\n'] == l + CRLF;
    var r := CompleteLine(s.(line := l));
    assert [] + r.finished == r.finished;
  }

  // ---------------------------------------------------------------- request line

  /** An empty line before a request is skipped. */
  lemma SkipsEmptyLine(s: ParserState)
    requires Valid(s) && s.mode == RequestLine && s.line == []
    ensures Feed(s, CRLF) == Fed(s, [], Running)
  {
    FeedLine(s, []);
    assert [] + CRLF == CRLF;
  }

  /** A non-empty request line without a space fails. */
  lemma RejectsLineWithoutSpace(s: ParserState, l: string)
    requires Valid(s) && s.mode == RequestLine && s.line == [] && NoCRLF(l)
    requires l != [] && ' ' !in l
    ensures Feed(s, l + CRLF) == Fed(s.(line := l), [], Failed)
  {
    FeedLine(s, l);
  }

  /**
   * "method SP url SP version": the method and url are set, and parsing goes
   * on with the headers exactly when the version starts with "HTTP/1.".
   */
  lemma ReadsRequestLine(s: ParserState, m: string, u: string, v: string)
    requires Valid(s) && s.mode == RequestLine && s.line == []
    requires ' ' !in m && ' ' !in u && NoCRLF(m + " " + u + " " + v)
    ensures var named := s.(request := s.request.(httpMethod := m, url := u));
      Feed(s, m + " " + u + " " + v + CRLF) ==
        if IsHttp1(v) then Fed(named.(mode := HeaderLine), [], Running)
        else Fed(named.(line := m + " " + u + " " + v), [], Failed)
  {
    var l := m + " " + u + " " + v;
    FeedLine(s, l);
    SplitTwoSpaces(m, u, l[|m| + |u| + 2..]);
    assert l == m + " " + u + " " + l[|m| + |u| + 2..];
    assert l[|m| + |u| + 2..] == v;
  }

  /**
   * The unchecked second space: "method SP url" is taken with the whole line
   * as the version, so it is accepted exactly when the line starts with
   * "HTTP/1.".
   */
  lemma ReadsOneSpaceLine(s: ParserState, m: string, u: string)
    requires Valid(s) && s.mode == RequestLine && s.line == []
    requires ' ' !in m && ' ' !in u && NoCRLF(m + " " + u)
    ensures var named := s.(request := s.request.(httpMethod := m, url := u));
      Feed(s, m + " " + u + CRLF) ==
        if IsHttp1(m + " " + u) then Fed(named.(mode := HeaderLine), [], Running)
        else Fed(named.(line := m + " " + u), [], Failed)
  {
    FeedLine(s, m + " " + u);
    SplitOneSpace(m, u);
  }

  // ---------------------------------------------------------------- header lines

  /** A continuation line with no header before it fails. */
  lemma RejectsOrphanContinuation(s: ParserState, l: string)
    requires Valid(s) && s.mode == HeaderLine && s.line == [] && NoCRLF(l)
    requires l != [] && IsBlank(l[0]) && s.request.headers == []
    ensures Feed(s, l + CRLF) == Fed(s.(line := l), [], Failed)
  {
    FeedLine(s, l);
  }

  /** A continuation line is appended, leading blanks included, to the last value. */
  lemma AppendsContinuation(s: ParserState, l: string)
    requires Valid(s) && s.mode == HeaderLine && s.line == [] && NoCRLF(l)
    requires l != [] && IsBlank(l[0]) && s.request.headers != []
    ensures var hs := s.request.headers;
      var last := hs[|hs| - 1];
      Feed(s, l + CRLF) ==
        Fed(s.(request := s.request.(headers := hs[..|hs| - 1] + [Header(last.name, last.value + l)])), [], Running)
  {
    FeedLine(s, l);
  }

  /** A field line without ':' fails. */
  lemma RejectsFieldWithoutColon(s: ParserState, l: string)
    requires Valid(s) && s.mode == HeaderLine && s.line == [] && NoCRLF(l)
    requires l != [] && !IsBlank(l[0]) && ':' !in l
    ensures Feed(s, l + CRLF) == Fed(s.(line := l), [], Failed)
  {
    FeedLine(s, l);
  }

  /** A field line is split at its first ':'; the value keeps its blanks for now. */
  lemma AppendsField(s: ParserState, name: string, value: string)
    requires Valid(s) && s.mode == HeaderLine && s.line == [] && NoCRLF(name + ":" + value)
    requires name != [] && !IsBlank(name[0]) && ':' !in name
    ensures Feed(s, name + ":" + value + CRLF) ==
      Fed(s.(request := s.request.(headers := s.request.headers + [Header(name, value)])), [], Running)
  {
    var l := name + ":" + value;
    FeedLine(s, l);
    assert forall k :: 0 <= k < |name| ==> l[k] == name[k];
    assert l[|name|] == ':';
    assert Find(l, ':', 0) == Some(|name|);
    assert l[..|name|] == name;
    assert l[|name| + 1..] == value;
  }

  // ---------------------------------------------------------------- end of headers and body

  /** The blank line after the headers runs the clean-up and reads Content-Length. */
  lemma EndsHeaders(s: ParserState)
    requires Valid(s) && s.mode == HeaderLine && s.line == []
    ensures Feed(s, CRLF) == EndOfHeaders(s)
  {
    FeedLine(s, []);
    assert [] + CRLF == CRLF;
  }

  lemma {:induction false} ScanWithoutContentLength(hs: seq<Header>, start: nat)
    requires start < UInt32Modulus
    requires forall i :: 0 <= i < |hs| ==> !IsContentLength(hs[i].name)
    ensures ScanContentLength(hs, start) == Length(start)
    decreases |hs|
  {
    if hs != [] {
      ScanWithoutContentLength(hs[..|hs| - 1], start);
    }
  }

  /**
   * When every Content-Length header holds a number, the last of them sets
   * the count (its std::stoul value modulo 2^32).
   */
  lemma {:induction false} LastContentLengthWins(hs: seq<Header>, start: nat, j: nat)
    requires start < UInt32Modulus
    requires j < |hs| && IsContentLength(hs[j].name)
    requires forall i :: j < i < |hs| ==> !IsContentLength(hs[i].name)
    requires forall i :: 0 <= i <= j && IsContentLength(hs[i].name) ==> Stoul(hs[i].value).Some?
    ensures ScanContentLength(hs, start) == Length(Stoul(hs[j].value).value % UInt32Modulus)
    decreases |hs|
  {
    var p := hs[..|hs| - 1];
    if j == |hs| - 1 {
      NoThrowBefore(p, start);
    } else {
      LastContentLengthWins(p, start, j);
    }
  }

  lemma {:induction false} NoThrowBefore(hs: seq<Header>, start: nat)
    requires start < UInt32Modulus
    requires forall i :: 0 <= i < |hs| && IsContentLength(hs[i].name) ==> Stoul(hs[i].value).Some?
    ensures ScanContentLength(hs, start).Length?
    decreases |hs|
  {
    if hs != [] {
      NoThrowBefore(hs[..|hs| - 1], start);
    }
  }

  /** A Content-Length value that std::stoul rejects makes the call throw. */
  lemma ThrowsOnBadContentLength(hs: seq<Header>, start: nat, i: nat)
    requires start < UInt32Modulus
    requires i < |hs| && IsContentLength(hs[i].name) && Stoul(hs[i].value).None?
    ensures ScanContentLength(hs, start).LengthThrew?
  {
    var x := hs[..i + 1];
    assert x[..|x| - 1] == hs[..i];
    assert ScanContentLength(x, start).LengthThrew?;
    ScanStopsAfterThrow(x, hs[i + 1..], start);
    assert x + hs[i + 1..] == hs;
  }

  /**
   * Without a Content-Length header the request is complete at the blank
   * line, with an empty body, and the parser is back in its initial state.
   */
  lemma FinishesWithoutBody(s: ParserState)
    requires Valid(s) && s.mode == HeaderLine && s.line == []
    requires forall i :: 0 <= i < |s.request.headers| ==> !IsContentLength(s.request.headers[i].name)
    ensures Feed(s, CRLF) ==
      Fed(Initial, [s.request.(headers := NormalizeAll(s.request.headers))], Running)
  {
    EndsHeaders(s);
    ScanWithoutContentLength(NormalizeAll(s.request.headers), s.bodyRemains);
  }

  /** Body bytes short of the count are appended and counted down. */
  lemma {:induction false} FeedsBody(s: ParserState, b: string)
    requires Valid(s) && s.mode == Body && |b| < s.bodyRemains
    ensures Feed(s, b) ==
      Fed(s.(bodyRemains := s.bodyRemains - |b|, request := s.request.(body := s.request.body + b)), [], Running)
    decreases |b|
  {
    if b == [] {
      assert s.request.body + b == s.request.body;
    } else {
      var p := b[..|b| - 1];
      FeedsBody(s, p);
      assert s.request.body + p + [b[|b| - 1]] == s.request.body + b;
    }
  }

  /** The last expected body byte completes the request and resets the parser. */
  lemma FinishesBody(s: ParserState, b: string)
    requires Valid(s) && s.mode == Body && |b| == s.bodyRemains
    ensures Feed(s, b) == Fed(Initial, [s.request.(body := s.request.body + b)], Running)
  {
    var p := b[..|b| - 1];
    FeedsBody(s, p);
    FeedSnoc(s, p, b[|b| - 1]);
    assert p + [b[|b| - 1]] == b;
    assert s.request.body + p + [b[|b| - 1]] == s.request.body + b;
  }
}
