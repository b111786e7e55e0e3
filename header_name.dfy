// Case-insensitive comparison of header field names (http.hpp,
// case_insensitive_equals). Only the ASCII letters 'A'..'Z' are folded, by
// setting bit 0x20; every other byte must match exactly.
module HeaderName {

  /** The byte after `if (c >= 'A' && c <= 'Z') c |= 0x20;`. */
  function Fold(c: char): (d: char)
    ensures 'A' <= c <= 'Z' ==> d as int == c as int + 0x20
    ensures !('A' <= c <= 'Z') ==> d == c
  {
    if 'A' <= c <= 'Z' then (c as int + 0x20) as char else c
  }

  /** The relation the comparison decides. */
  predicate EqualsIgnoringCase(a: string, b: string)
  {
    |a| == |b| && forall i :: 0 <= i < |a| ==> Fold(a[i]) == Fold(b[i])
  }

  /** case_insensitive_equals: compare lengths, then byte by byte after folding. */
  method CaseInsensitiveEquals(a: string, b: string) returns (r: bool)
    ensures r <==> EqualsIgnoringCase(a, b)
  {
    if |a| != |b| {
      return false;
    }
    var i := 0;
    while i < |a|
      invariant 0 <= i <= |a|
      invariant forall k :: 0 <= k < i ==> Fold(a[k]) == Fold(b[k])
    {
      var ca := Fold(a[i]);
      var cb := Fold(b[i]);
      if ca != cb {
        return false;
      }
      i := i + 1;
    }
    return true;
  }

  lemma Reflexive(a: string)
    ensures EqualsIgnoringCase(a, a)
  {
  }

  lemma Symmetric(a: string, b: string)
    ensures EqualsIgnoringCase(a, b) <==> EqualsIgnoringCase(b, a)
  {
  }

  lemma Transitive(a: string, b: string, c: string)
    requires EqualsIgnoringCase(a, b) && EqualsIgnoringCase(b, c)
    ensures EqualsIgnoringCase(a, c)
  {
  }

  /** Folding identifies exactly an upper-case ASCII letter with its lower-case form. */
  lemma {:induction false} FoldEqualIff(c: char, d: char)
    ensures Fold(c) == Fold(d) <==>
      c == d
      || ('A' <= c <= 'Z' && d as int == c as int + 0x20)
      || ('A' <= d <= 'Z' && c as int == d as int + 0x20)
  {
  }

  /** Bytes other than letters are compared exactly, so e.g. '-' never matches '_'. */
  lemma NonLettersExact(a: string, b: string, i: nat)
    requires EqualsIgnoringCase(a, b) && i < |a|
    requires !('A' <= a[i] <= 'Z') && !('a' <= a[i] <= 'z')
    ensures b[i] == a[i]
  {
    assert Fold(a[i]) == Fold(b[i]);
  }
}
