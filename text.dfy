// Byte-string helpers shared by the HTTP engine: decimal printing as done by
// std::to_string, decimal reading as done by std::stoul, and the CRLF line
// terminator. A C++ `char` is modelled as a Dafny `char` whose code is the
// byte value.
module Text {

  datatype Option<+T> = None | Some(value: T)

  lemma PrefixSnoc<T>(s: seq<T>, i: nat)
    requires i < |s|
    ensures s[..i + 1] == s[..i] + [s[i]]
  {
  }

  lemma SmallModulus(x: nat, m: nat)
    requires x < m
    ensures x % m == x
  {
  }

  lemma PrefixSuffix<T>(s: seq<T>, i: nat)
    requires i <= |s|
    ensures s[..i] + s[i..] == s
  {
  }

  const CRLF: string := "\r\n"

  /** Number of distinct values of `unsigned long` on an LP64 platform. */
  const ULongModulus: nat := 0x1_0000_0000_0000_0000

  /** Number of distinct values of `uint32_t`. */
  const UInt32Modulus: nat := 0x1_0000_0000

  predicate IsDigit(c: char) { '0' <= c <= '9' }

  function DigitValue(c: char): (d: nat)
    requires IsDigit(c)
    ensures d < 10
  {
    c as int - '0' as int
  }

  function DigitChar(d: nat): (c: char)
    requires d < 10
    ensures IsDigit(c) && DigitValue(c) == d
  {
    ('0' as int + d) as char
  }

  predicate AllDigits(s: string) { forall i :: 0 <= i < |s| ==> IsDigit(s[i]) }

  /** Value of a run of decimal digits, most significant first. */
  function DigitsValue(s: string): nat
    requires AllDigits(s)
    decreases |s|
  {
    if s == [] then 0 else DigitsValue(s[..|s| - 1]) * 10 + DigitValue(s[|s| - 1])
  }

  /** Decimal rendering of a natural number, as std::to_string prints it. */
  function NatToString(n: nat): (s: string)
    ensures |s| >= 1 && AllDigits(s)
    ensures |s| > 1 ==> s[0] != '0'
    decreases n
  {
    if n < 10 then [DigitChar(n)] else NatToString(n / 10) + [DigitChar(n % 10)]
  }

  /** Decimal rendering of a signed integer, as std::to_string(int) prints it. */
  function IntToString(i: int): (s: string)
    ensures |s| >= 1
    ensures i >= 0 ==> AllDigits(s)
    ensures i < 0 ==> s[0] == '-' && AllDigits(s[1..])
  {
    if i >= 0 then NatToString(i) else "-" + NatToString(-i)
  }

  /** Reading back what NatToString prints gives the number again. */
  lemma {:induction false} NatToStringValue(n: nat)
    ensures DigitsValue(NatToString(n)) == n
    decreases n
  {
    var s := NatToString(n);
    if n >= 10 {
      NatToStringValue(n / 10);
      assert s[..|s| - 1] == NatToString(n / 10);
    }
  }

  /** The characters the C library's isspace() accepts in the "C" locale. */
  predicate IsCSpace(c: char)
  {
    c == ' ' || c == '\t' || c == '\n' || c == '\U{B}' || c == '\U{C}' || c == '\r'
  }

  /** Index of the first character at or after `i` that is not C whitespace. */
  function SkipSpace(s: string, i: nat): (j: nat)
    requires i <= |s|
    ensures i <= j <= |s|
    ensures forall k :: i <= k < j ==> IsCSpace(s[k])
    ensures j < |s| ==> !IsCSpace(s[j])
    decreases |s| - i
  {
    if i < |s| && IsCSpace(s[i]) then SkipSpace(s, i + 1) else i
  }

  /** End of the run of decimal digits that starts at `i`. */
  function DigitRun(s: string, i: nat): (j: nat)
    requires i <= |s|
    ensures i <= j <= |s|
    ensures AllDigits(s[i..j])
    ensures j < |s| ==> !IsDigit(s[j])
    decreases |s| - i
  {
    if i < |s| && IsDigit(s[i]) then
      var j := DigitRun(s, i + 1);
      assert s[i..j] == [s[i]] + s[i + 1..j];
      j
    else i
  }

  /**
   * std::stoul(s) in base 10: skip leading whitespace, accept one optional
   * sign, then at least one digit. No digit at all throws
   * std::invalid_argument and a magnitude beyond `unsigned long` throws
   * std::out_of_range; both are `None` here. A minus sign negates the value
   * modulo 2^64, as strtoul does. Trailing characters are ignored.
   */
  function Stoul(s: string): (r: Option<nat>)
    ensures r.Some? ==> r.value < ULongModulus
  {
    var i := SkipSpace(s, 0);
    var signed := i < |s| && (s[i] == '+' || s[i] == '-');
    var negative := i < |s| && s[i] == '-';
    var j := if signed then i + 1 else i;
    var k := DigitRun(s, j);
    if k == j then None
    else
      var magnitude := DigitsValue(s[j..k]);
      if magnitude >= ULongModulus then None
      else if negative then Some((ULongModulus - magnitude) % ULongModulus)
      else Some(magnitude)
  }

  /** A Content-Length written by NatToString is read back by Stoul. */
  lemma StoulReadsNatToString(n: nat)
    requires n < ULongModulus
    ensures Stoul(NatToString(n)) == Some(n)
  {
    StoulStopsAtNonDigit(n, []);
    assert NatToString(n) + [] == NatToString(n);
  }

  /**
   * Stoul reads a number printed by NatToString back even when other text
   * follows it, as long as that text does not start with a digit.
   */
  lemma StoulStopsAtNonDigit(n: nat, rest: string)
    requires n < ULongModulus
    requires rest == [] || !IsDigit(rest[0])
    ensures Stoul(NatToString(n) + rest) == Some(n)
  {
    var d := NatToString(n);
    var s := d + rest;
    assert !IsCSpace(s[0]);
    assert SkipSpace(s, 0) == 0;
    assert s[0] != '+' && s[0] != '-';
    assert s[0..|d|] == d;
    DigitRunStops(s, 0, |d|);
    NatToStringValue(n);
  }

  lemma {:induction false} DigitRunStops(s: string, i: nat, e: nat)
    requires i <= e <= |s| && AllDigits(s[i..e])
    requires e == |s| || !IsDigit(s[e])
    ensures DigitRun(s, i) == e
    decreases e - i
  {
    if i < e {
      assert IsDigit(s[i..e][0]);
      assert s[i + 1..e] == s[i..e][1..];
      DigitRunStops(s, i + 1, e);
    }
  }
}
