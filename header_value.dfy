// Clean-up of header field values once the blank line ending the header
// block has been read (http.hpp, inside incoming_request::parse_bytes):
// every run of ' '/'\t' becomes one ' ', a leading run is dropped, and one
// trailing ' ' is trimmed.
module HeaderValue {

  predicate IsBlank(c: char) { c == ' ' || c == '\t' }

  /** The bytes of `s` that are neither ' ' nor '\t', in order. */
  function NonBlank(s: string): string
    decreases |s|
  {
    if s == [] then []
    else if IsBlank(s[|s| - 1]) then NonBlank(s[..|s| - 1])
    else NonBlank(s[..|s| - 1]) + [s[|s| - 1]]
  }

  predicate NoTab(s: string) { forall i :: 0 <= i < |s| ==> s[i] != '\t' }

  predicate NoDoubleSpace(s: string)
  {
    forall i :: 0 <= i < |s| - 1 ==> !(s[i] == ' ' && s[i + 1] == ' ')
  }

  /** What the value looks like after clean-up. */
  predicate IsNormal(s: string)
  {
    NoTab(s) && NoDoubleSpace(s) && (s != [] ==> s[0] != ' ' && s[|s| - 1] != ' ')
  }

  /**
   * The accumulated `value` after the loop over the raw value: a blank byte
   * adds one ' ' only when `value` is non-empty and does not already end with
   * ' ', any other byte is copied.
   */
  function Collapse(raw: string): string
    decreases |raw|
  {
    if raw == [] then []
    else
      var acc := Collapse(raw[..|raw| - 1]);
      var c := raw[|raw| - 1];
      if IsBlank(c) then
        if acc != [] && acc[|acc| - 1] != ' ' then acc + [' '] else acc
      else acc + [c]
  }

  /** The accumulated value has no tab, no leading space, no two adjacent
      spaces, and the non-blank bytes of the raw value in order. */
  lemma {:induction false} CollapseShape(raw: string)
    ensures var v := Collapse(raw);
      NoTab(v) && NoDoubleSpace(v) && (v != [] ==> v[0] != ' ') && NonBlank(v) == NonBlank(raw)
    decreases |raw|
  {
    if raw != [] {
      var p := raw[..|raw| - 1];
      CollapseShape(p);
      var acc := Collapse(p);
      var c := raw[|raw| - 1];
      if IsBlank(c) {
        if acc != [] && acc[|acc| - 1] != ' ' {
          assert (acc + [' '])[..|acc|] == acc;
        }
      } else {
        assert (acc + [c])[..|acc|] == acc;
      }
    }
  }

  /** The cleaned value: Collapse, then drop one trailing ' '. */
  function Normalize(raw: string): string
  {
    var v := Collapse(raw);
    if v != [] && v[|v| - 1] == ' ' then v[..|v| - 1] else v
  }

  lemma NonBlankDropSpace(v: string)
    requires v != [] && v[|v| - 1] == ' '
    ensures NonBlank(v[..|v| - 1]) == NonBlank(v)
  {
  }

  /**
   * A cleaned value contains no tab, starts and ends with no space, has no
   * two adjacent spaces, and keeps the non-blank bytes of the raw value in
   * their order.
   */
  lemma NormalizeIsNormal(raw: string)
    ensures IsNormal(Normalize(raw))
    ensures NonBlank(Normalize(raw)) == NonBlank(raw)
  {
    CollapseShape(raw);
    var v := Collapse(raw);
    if v != [] && v[|v| - 1] == ' ' {
      NonBlankDropSpace(v);
      var w := v[..|v| - 1];
      if w != [] {
        assert v[|v| - 2] == w[|w| - 1];
      }
    }
  }

  /** Collapse leaves alone a value whose only fault may be one trailing space. */
  lemma {:induction false} CollapseKeepsNormalPrefix(s: string)
    requires NoTab(s) && NoDoubleSpace(s) && (s != [] ==> s[0] != ' ')
    ensures Collapse(s) == s
    decreases |s|
  {
    if s != [] {
      var p := s[..|s| - 1];
      CollapseKeepsNormalPrefix(p);
      if s[|s| - 1] == ' ' {
        assert p != [];
        assert s[|s| - 2] != ' ';
      }
    }
  }

  /** A value that is already clean is unchanged. */
  lemma NormalizeFixesNormal(s: string)
    requires IsNormal(s)
    ensures Normalize(s) == s
  {
    CollapseKeepsNormalPrefix(s);
  }

  /** Cleaning twice is cleaning once. */
  lemma NormalizeIdempotent(raw: string)
    ensures Normalize(Normalize(raw)) == Normalize(raw)
  {
    NormalizeIsNormal(raw);
    NormalizeFixesNormal(Normalize(raw));
  }

  /** The loop of lines 181-193, run on one value. */
  method NormalizeValue(raw: string) returns (value: string)
    ensures value == Normalize(raw)
  {
    value := "";
    var i := 0;
    while i < |raw|
      invariant 0 <= i <= |raw|
      invariant value == Collapse(raw[..i])
    {
      var c := raw[i];
      assert raw[..i + 1][..i] == raw[..i];
      if c == ' ' || c == '\t' {
        if value != [] && value[|value| - 1] != ' ' {
          value := value + [' '];
        }
      } else {
        value := value + [c];
      }
      i := i + 1;
    }
    assert raw[..|raw|] == raw;
    if value != [] && value[|value| - 1] == ' ' {
      value := value[..|value| - 1];
    }
  }

  /** One more raw byte extends the accumulated value as the loop body does. */
  lemma CollapseSnoc(p: string, c: char)
    ensures var acc := Collapse(p);
      Collapse(p + [c]) ==
        if !IsBlank(c) then acc + [c]
        else if acc != [] && acc[|acc| - 1] != ' ' then acc + [' ']
        else acc
  {
    assert (p + [c])[..|p|] == p;
  }

  /**
   * A run of blanks after a non-space byte of the value becomes exactly one
   * space, however long the run is and whatever mix of ' ' and '\t' it has.
   */
  lemma {:induction false} CollapsesBlankRun(p: string, blanks: string)
    requires blanks != [] && forall i :: 0 <= i < |blanks| ==> IsBlank(blanks[i])
    requires Collapse(p) != [] && Collapse(p)[|Collapse(p)| - 1] != ' '
    ensures Collapse(p + blanks) == Collapse(p) + [' ']
    decreases |blanks|
  {
    var q := blanks[..|blanks| - 1];
    var c := blanks[|blanks| - 1];
    assert p + blanks == (p + q) + [c];
    CollapseSnoc(p + q, c);
    if q == [] {
      assert p + q == p;
    } else {
      CollapsesBlankRun(p, q);
    }
  }

  /**
   * "a   b\t\tc" becomes "a b c": each run of blanks between non-blank
   * bytes is one space.
   */
  lemma CollapsesRuns(a: char, b: char, c: char)
    requires !IsBlank(a) && !IsBlank(b) && !IsBlank(c)
    ensures Normalize([a] + "   " + [b] + "\t\t" + [c]) == [a, ' ', b, ' ', c]
  {
    var p1 := [a];
    assert Collapse(p1) == [a] by {
      CollapseSnoc([], a);
      assert [] + [a] == p1;
    }
    var p2 := p1 + "   ";
    CollapsesBlankRun(p1, "   ");
    var p3 := p2 + [b];
    CollapseSnoc(p2, b);
    var p4 := p3 + "\t\t";
    CollapsesBlankRun(p3, "\t\t");
    CollapseSnoc(p4, c);
    assert Collapse(p4 + [c]) == [a, ' ', b, ' ', c];
  }

  /** Bytes without blanks are copied as they are. */
  lemma {:induction false} CollapseAppendsWord(p: string, w: string)
    requires forall i :: 0 <= i < |w| ==> !IsBlank(w[i])
    ensures Collapse(p + w) == Collapse(p) + w
    decreases |w|
  {
    if w == [] {
      assert p + w == p;
    } else {
      var q := w[..|w| - 1];
      var c := w[|w| - 1];
      assert p + w == (p + q) + [c] && w == q + [c];
      CollapseAppendsWord(p, q);
      CollapseSnoc(p + q, c);
    }
  }

  /**
   * A folded value: "X-Foo: bar" continued by "  baz" is stored as
   * " bar  baz" and comes out of clean-up as "bar baz".
   */
  lemma FoldsContinuation(v: string, w: string)
    requires v != [] && w != []
    requires forall i :: 0 <= i < |v| ==> !IsBlank(v[i])
    requires forall i :: 0 <= i < |w| ==> !IsBlank(w[i])
    ensures Normalize(" " + v + "  " + w) == v + " " + w
  {
    assert Collapse(" ") == [] by {
      CollapseSnoc([], ' ');
      assert [] + [' '] == " ";
    }
    CollapseAppendsWord(" ", v);
    CollapsesBlankRun(" " + v, "  ");
    CollapseAppendsWord(" " + v + "  ", w);
    assert [] + v + [' '] + w == v + " " + w;
  }

  /** A leading blank byte is dropped: the loop adds no space while `value` is empty. */
  lemma {:induction false} CollapseDropsLeadingBlank(b: char, v: string)
    requires IsBlank(b)
    ensures Collapse([b] + v) == Collapse(v)
    decreases |v|
  {
    if v == [] {
      CollapseSnoc([], b);
      assert [] + [b] == [b] + v;
    } else {
      var p := v[..|v| - 1];
      var c := v[|v| - 1];
      SplitLast(b, v);
      CollapseDropsLeadingBlank(b, p);
      CollapseSnoc([b] + p, c);
      CollapseSnoc(p, c);
    }
  }

  lemma SplitLast(b: char, v: string)
    requires v != []
    ensures v == v[..|v| - 1] + [v[|v| - 1]]
    ensures [b] + v == ([b] + v[..|v| - 1]) + [v[|v| - 1]]
  {
  }

  /** The space after "name:" on the wire disappears from a clean value. */
  lemma NormalizeAfterSpace(v: string)
    requires IsNormal(v)
    ensures Normalize(" " + v) == v
  {
    CollapseDropsLeadingBlank(' ', v);
    assert " " + v == [' '] + v;
    NormalizeFixesNormal(v);
  }
}
