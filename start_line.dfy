// Splitting of the request line "method SP url SP version" (http.hpp,
// incoming_request::parse_bytes, RequestLine mode; RFC 7230 section 3.1.1).
module StartLine {
  import opened Text

  /**
   * std::string::find(c, from): the first index at or after `from` holding
   * `c`, or None for npos.
   */
  function Find(s: string, c: char, from: nat): (r: Option<nat>)
    requires from <= |s|
    ensures r.Some? ==> from <= r.value < |s| && s[r.value] == c
    ensures r.Some? ==> forall k :: from <= k < r.value ==> s[k] != c
    ensures r.None? ==> forall k :: from <= k < |s| ==> s[k] != c
    decreases |s| - from
  {
    if from == |s| then None
    else if s[from] == c then Some(from)
    else Find(s, c, from + 1)
  }

  datatype Split = NoSpace | Parts(httpMethod: string, url: string, version: string)

  /**
   * The three `substr` calls after the two `find` calls. The second `find` is
   * never tested (line 167 tests `i1` again), so when there is no second
   * space `url` runs to the end of the line and `version` is
   * `line.substr(npos + 1)`, which is the whole line.
   */
  function SplitRequestLine(line: string): (r: Split)
    ensures r.NoSpace? <==> ' ' !in line
  {
    match Find(line, ' ', 0)
    case None => NoSpace
    case Some(i1) =>
      match Find(line, ' ', i1 + 1)
      case Some(i2) => Parts(line[..i1], line[i1 + 1..i2], line[i2 + 1..])
      case None => Parts(line[..i1], line[i1 + 1..], line)
  }

  /** `version.substr(0, 7) == "HTTP/1."`. */
  predicate IsHttp1(version: string)
  {
    |version| >= 7 && version[..7] == "HTTP/1."
  }

  /** With two spaces, the method and url are the texts before and between them. */
  lemma SplitTwoSpaces(httpMethod: string, url: string, version: string)
    requires ' ' !in httpMethod && ' ' !in url
    ensures SplitRequestLine(httpMethod + " " + url + " " + version) == Parts(httpMethod, url, version)
  {
    var line := httpMethod + " " + url + " " + version;
    var i1 := |httpMethod|;
    var i2 := |httpMethod| + 1 + |url|;
    assert forall k :: 0 <= k < i1 ==> line[k] == httpMethod[k];
    assert line[i1] == ' ';
    assert Find(line, ' ', 0) == Some(i1);
    assert forall k :: i1 + 1 <= k < i2 ==> line[k] == url[k - i1 - 1];
    assert line[i2] == ' ';
    assert Find(line, ' ', i1 + 1) == Some(i2);
    assert line[..i1] == httpMethod;
    assert line[i1 + 1..i2] == url;
    assert line[i2 + 1..] == version;
  }

  /**
   * The quirk of the unchecked second `find`: a line with one space keeps
   * its text after the space as url and the whole line as version, so it is
   * accepted exactly when the line itself starts with "HTTP/1.".
   */
  lemma SplitOneSpace(httpMethod: string, url: string)
    requires ' ' !in httpMethod && ' ' !in url
    ensures SplitRequestLine(httpMethod + " " + url) == Parts(httpMethod, url, httpMethod + " " + url)
  {
    var line := httpMethod + " " + url;
    var i1 := |httpMethod|;
    assert forall k :: 0 <= k < i1 ==> line[k] == httpMethod[k];
    assert line[i1] == ' ';
    assert Find(line, ' ', 0) == Some(i1);
    assert forall k :: i1 + 1 <= k < |line| ==> line[k] == url[k - i1 - 1];
    assert Find(line, ' ', i1 + 1) == None;
    assert line[..i1] == httpMethod;
    assert line[i1 + 1..] == url;
  }

  /** A line with one space, "HTTP/1.1 /", passes the version test as written. */
  lemma OneSpaceLineAccepted()
    ensures var r := SplitRequestLine("HTTP/1.1 /");
      r.Parts? && r.httpMethod == "HTTP/1.1" && r.url == "/" && IsHttp1(r.version)
  {
    SplitOneSpace("HTTP/1.1", "/");
  }

  /**
   * The split with the second `find` tested, as evidently intended: a line
   * without a second space is refused like one without a first.
   */
  function SplitRequestLineChecked(line: string): (r: Split)
  {
    match Find(line, ' ', 0)
    case None => NoSpace
    case Some(i1) =>
      match Find(line, ' ', i1 + 1)
      case Some(i2) => Parts(line[..i1], line[i1 + 1..i2], line[i2 + 1..])
      case None => NoSpace
  }

  /**
   * The checked split accepts exactly the lines with two spaces, and on
   * those it agrees with the split as written.
   */
  lemma CheckedNeedsTwoSpaces(line: string)
    ensures SplitRequestLineChecked(line).Parts? <==>
      exists i, j :: 0 <= i < j < |line| && line[i] == ' ' && line[j] == ' '
    ensures SplitRequestLineChecked(line).Parts? ==> SplitRequestLineChecked(line) == SplitRequestLine(line)
  {
    match Find(line, ' ', 0)
    case None =>
    case Some(i1) =>
      match Find(line, ' ', i1 + 1)
      case Some(i2) =>
      case None =>
        assert forall i, j :: 0 <= i < j < |line| && line[i] == ' ' ==> line[j] != ' ';
  }
}
