// The JSON string codec of tweak.cpp: utf8_to_json quotes a byte string,
// json_to_utf8 reads a JSON string literal (RFC 8259 section 7) back into
// UTF-8 bytes (RFC 3629 section 3). Bytes are chars below 256.
module JsonString {
  import opened Text

  /** A byte value as a char. */
  function Byte(n: nat): (c: char)
    requires n < 256
    ensures c as int == n
  {
    n as char
  }

  // ---------------------------------------------------------------- encoder

  /** One input byte as utf8_to_json writes it: `"` and `\` get a backslash. */
  function EscapeChar(c: char): string
  {
    if c == '"' || c == '\\' then ['\\', c] else [c]
  }

  function Escape(s: string): string
    decreases |s|
  {
    if s == [] then [] else EscapeChar(s[0]) + Escape(s[1..])
  }

  /** The result of utf8_to_json: the escaped bytes between two quotes. */
  function Quote(s: string): string
  {
    ['"'] + Escape(s) + ['"']
  }

  /** How many bytes of `s` need a backslash. */
  function Escapes(s: string): nat
    decreases |s|
  {
    if s == [] then 0 else (if s[0] == '"' || s[0] == '\\' then 1 else 0) + Escapes(s[1..])
  }

  lemma {:induction false} EscapeAppend(a: string, b: string)
    ensures Escape(a + b) == Escape(a) + Escape(b)
    decreases |a|
  {
    if a == [] {
      assert a + b == b;
    } else {
      assert (a + b)[0] == a[0] && (a + b)[1..] == a[1..] + b;
      EscapeAppend(a[1..], b);
      assert Escape(a + b) == EscapeChar(a[0]) + (Escape(a[1..]) + Escape(b));
    }
  }

  lemma {:induction false} EscapeLength(s: string)
    ensures |Escape(s)| == |s| + Escapes(s)
    decreases |s|
  {
    if s != [] {
      EscapeLength(s[1..]);
    }
  }

  /**
   * utf8_to_json opens and closes with a quote and is longer than its input
   * by two plus one backslash per `"` or `\`.
   */
  lemma QuoteShape(s: string)
    ensures var q := Quote(s);
      |q| == |s| + 2 + Escapes(s) && q[0] == '"' && q[|q| - 1] == '"'
  {
    EscapeLength(s);
  }

  /** utf8_to_json, appending byte by byte. */
  method Utf8ToJson(data: string) returns (ret: string)
    ensures ret == Quote(data)
  {
    ret := ['"'];
    for i := 0 to |data|
      invariant ret == ['"'] + Escape(data[..i])
    {
      EscapeAppend(data[..i], [data[i]]);
      assert data[..i + 1] == data[..i] + [data[i]];
      if data[i] == '\\' || data[i] == '"' {
        ret := ret + ['\\', data[i]];
      } else {
        ret := ret + [data[i]];
      }
    }
    assert data[..|data|] == data;
    ret := ret + ['"'];
  }

  // ------------------------------------------------------------------ decoder

  /**
   * The decoder as written in tweak.cpp, or as its comments and RFCs
   * evidently intend (uppercase hex digits, `val >> 6` in the two-byte
   * branch, 0x10000 in the surrogate formula).
   */
  datatype Dialect = AsWritten | Intended

  /** Where the third hex-digit test starts: 'a' as written (an empty range up to 'F'), 'A' as intended. */
  function UpperFrom(d: Dialect): char
  {
    if d == AsWritten then 'a' else 'A'
  }

  /** The three digit tests of read_hex4. */
  function HexDigit(c: char, d: Dialect): (r: Option<int>)
    ensures r.Some? ==> 0 <= r.value < 16
  {
    if '0' <= c <= '9' then Some(c as int - '0' as int)
    else if 'a' <= c <= 'f' then Some(c as int - 'a' as int + 10)
    else if UpperFrom(d) <= c <= 'F' then Some(c as int - 'A' as int + 10)
    else None
  }

  datatype Hex = Hex(value: int) | HexFail(message: string)

  /** read_hex4 from its k-th digit on, with `val` read so far. */
  function HexFrom(t: string, k: nat, val: int, d: Dialect): (r: Hex)
    requires k <= 4 && 0 <= val < Pow16(k)
    ensures r.Hex? ==> 0 <= r.value < 0x10000 && (k < 4 ==> 4 <= |t|)
    decreases 4 - k
  {
    if k == 4 then Hex(val)
    else if k >= |t| then HexFail("Unicode escape includes end-of-string.")
    else match HexDigit(t[k], d)
      case None => HexFail("Unicode escape contains invalid hex digit.")
      case Some(x) => HexFrom(t, k + 1, val * 16 + x, d)
  }

  function Pow16(k: nat): nat
    requires k <= 4
  {
    if k == 0 then 1 else if k == 1 then 16 else if k == 2 then 256 else if k == 3 then 4096 else 0x10000
  }

  /** Another digit keeps the value within the digits read so far. */
  lemma Pow16Step(k: nat, val: int, x: int)
    requires k < 4 && 0 <= val < Pow16(k) && 0 <= x < 16
    ensures 0 <= val * 16 + x < Pow16(k + 1)
  {
  }

  /** A valid k-th digit moves read_hex4 on to the next one. */
  lemma HexFromNext(t: string, k: nat, val: int, d: Dialect)
    requires k < 4 && k < |t| && 0 <= val < Pow16(k) && HexDigit(t[k], d).Some?
    ensures 0 <= val * 16 + HexDigit(t[k], d).value < Pow16(k + 1)
    ensures HexFrom(t, k, val, d) == HexFrom(t, k + 1, val * 16 + HexDigit(t[k], d).value, d)
  {
    Pow16Step(k, val, HexDigit(t[k], d).value);
  }

  /** read_hex4 on the bytes `t` that follow "\u". */
  function Hex4(t: string, d: Dialect): (r: Hex)
    ensures r.Hex? ==> 0 <= r.value < 0x10000 && 4 <= |t|
  {
    HexFrom(t, 0, 0, d)
  }

  /** The hex digit that reads back as `n`, lowercase as both builds accept. */
  function LowerHexDigit(n: nat): char
    requires n < 16
  {
    if n < 10 then ('0' as int + n) as char else ('a' as int + n - 10) as char
  }

  function UpperHexDigit(n: nat): char
    requires n < 16
  {
    if n < 10 then ('0' as int + n) as char else ('A' as int + n - 10) as char
  }

  /** Four lowercase hex digits for `v`, most significant first. */
  function LowerHex4(v: nat): (r: string)
    requires v < 0x10000
    ensures |r| == 4
  {
    [LowerHexDigit(v / 4096), LowerHexDigit(v / 256 % 16), LowerHexDigit(v / 16 % 16), LowerHexDigit(v % 16)]
  }

  function UpperHex4(v: nat): (r: string)
    requires v < 0x10000
    ensures |r| == 4
  {
    [UpperHexDigit(v / 4096), UpperHexDigit(v / 256 % 16), UpperHexDigit(v / 16 % 16), UpperHexDigit(v % 16)]
  }

  /** The four base-16 digits of a 16-bit value, read most significant first, give it back. */
  lemma HexDigitsSpell(v: nat)
    requires v < 0x10000
    ensures v / 4096 < 16
    ensures v / 4096 * 16 + v / 256 % 16 == v / 256
    ensures v / 256 * 16 + v / 16 % 16 == v / 16
    ensures v / 16 * 16 + v % 16 == v
  {
  }

  lemma HexFromDigits(t: string, v: nat, d: Dialect)
    requires v < 0x10000 && |t| >= 4
    requires HexDigit(t[0], d) == Some(v / 4096) && HexDigit(t[1], d) == Some(v / 256 % 16)
    requires HexDigit(t[2], d) == Some(v / 16 % 16) && HexDigit(t[3], d) == Some(v % 16)
    ensures Hex4(t, d) == Hex(v)
  {
    HexDigitsSpell(v);
    assert HexFrom(t, 0, 0, d) == HexFrom(t, 1, v / 4096, d);
    assert HexFrom(t, 1, v / 4096, d) == HexFrom(t, 2, v / 256, d);
    assert HexFrom(t, 2, v / 256, d) == HexFrom(t, 3, v / 16, d);
  }

  /** read_hex4 reads back the four lowercase digits of any 16-bit value, in both builds. */
  lemma ReadsLowerHex4(v: nat, rest: string, d: Dialect)
    requires v < 0x10000
    ensures Hex4(LowerHex4(v) + rest, d) == Hex(v)
  {
    HexFromDigits(LowerHex4(v) + rest, v, d);
  }

  /** As intended, read_hex4 reads back uppercase digits as well. */
  lemma ReadsUpperHex4(v: nat, rest: string)
    requires v < 0x10000
    ensures Hex4(UpperHex4(v) + rest, Intended) == Hex(v)
  {
    HexFromDigits(UpperHex4(v) + rest, v, Intended);
  }

  predicate IsLowerHex(c: char)
  {
    '0' <= c <= '9' || 'a' <= c <= 'f'
  }

  /**
   * As written, read_hex4 succeeds exactly when four bytes follow and each
   * is a digit or a lowercase letter 'a'-'f'; uppercase letters are refused.
   */
  lemma {:induction false} HexAsWrittenAcceptsLowercaseOnly(t: string)
    ensures Hex4(t, AsWritten).Hex? <==> |t| >= 4 && forall k :: 0 <= k < 4 ==> IsLowerHex(t[k])
  {
    assert forall c :: HexDigit(c, AsWritten).Some? <==> IsLowerHex(c);
    if |t| >= 4 && forall k :: 0 <= k < 4 ==> IsLowerHex(t[k]) {
      var v0, v1, v2 := HexDigit(t[0], AsWritten).value, HexDigit(t[1], AsWritten).value, HexDigit(t[2], AsWritten).value;
      assert HexFrom(t, 0, 0, AsWritten) == HexFrom(t, 1, v0, AsWritten);
      assert HexFrom(t, 1, v0, AsWritten) == HexFrom(t, 2, v0 * 16 + v1, AsWritten);
      assert HexFrom(t, 2, v0 * 16 + v1, AsWritten) == HexFrom(t, 3, (v0 * 16 + v1) * 16 + v2, AsWritten);
    }
  }

  /** The uppercase escape `É` is refused as written. */
  lemma UppercaseHexRefusedAsWritten()
    ensures Hex4("00C9", AsWritten) == HexFail("Unicode escape contains invalid hex digit.")
  {
    assert HexFrom("00C9", 0, 0, AsWritten) == HexFrom("00C9", 2, 0, AsWritten);
  }

  /** read_hex4 as a loop over the four digits that follow position `c`. */
  method ReadHex4(data: string, c: nat, d: Dialect) returns (val: int, failure: Option<string>)
    requires c <= |data|
    ensures match Hex4(data[c..], d)
      case Hex(v) => failure.None? && val == v
      case HexFail(m) => failure == Some(m)
  {
    val := 0;
    for i := 0 to 4
      invariant 0 <= val < Pow16(i)
      invariant HexFrom(data[c..], i, val, d) == Hex4(data[c..], d)
    {
      if c + i >= |data| {
        return val, Some("Unicode escape includes end-of-string.");
      }
      var ch := data[c + i];
      var digit := HexDigit(ch, d);
      if digit.None? {
        return val, Some("Unicode escape contains invalid hex digit.");
      }
      HexFromNext(data[c..], i, val, d);
      val := val * 16 + digit.value;
    }
    failure := None;
  }

  /** `(val & 0xfc00) == 0xd800` for a 16-bit value. */
  predicate IsHighSurrogate(v: int)
  {
    0xD800 <= v < 0xDC00
  }

  /** `(val2 & 0xfc00) == 0xdc00` for a 16-bit value. */
  predicate IsLowSurrogate(v: int)
  {
    0xDC00 <= v < 0xE000
  }

  /** The constant added in the surrogate formula: 0x01000 as written, 0x10000 as intended. */
  function PairBase(d: Dialect): nat
  {
    if d == AsWritten then 0x1000 else 0x10000
  }

  /** `base + (((val & 0x03ff) << 10) | (val2 & 0x03ff))`. */
  function PairValue(hi: int, lo: int, d: Dialect): (v: int)
    requires IsHighSurrogate(hi) && IsLowSurrogate(lo)
    ensures PairBase(d) <= v <= 0x10FFFF
  {
    PairBase(d) + (hi - 0xD800) * 1024 + (lo - 0xDC00)
  }

  /** The lead byte's payload in the two-byte branch: `val >> 7` as written, `val >> 6` as intended. */
  function TwoByteLead(v: nat, d: Dialect): (r: nat)
    requires v <= 0x7FF
    ensures r < 32
  {
    if d == AsWritten then v / 128 else v / 64
  }

  /** The last `n` six-bit groups of `v`, most significant first, each as a continuation byte `10xxxxxx`. */
  function Continuation(v: nat, n: nat): (r: string)
    ensures |r| == n
  {
    if n == 0 then [] else Continuation(v / 64, n - 1) + [Byte(0x80 + v % 64)]
  }

  /** The chain of branches that writes the value `v` out as UTF-8 bytes. */
  function Utf8(v: int, d: Dialect): (r: string)
    requires 0 <= v <= 0x10FFFF
    ensures 1 <= |r| <= 4
  {
    if v <= 0x7F then [Byte(v)]
    else if v <= 0x7FF then [Byte(0xC0 + TwoByteLead(v, d))] + Continuation(v, 1)
    else if v <= 0xFFFF then [Byte(0xE0 + v / 4096)] + Continuation(v, 2)
    else [Byte(0xF0 + v / 0x40000 % 8)] + Continuation(v, 3)
  }

  /** One pass of the decoding loop: the bytes it appends and where it goes on, or the error it throws. */
  datatype Unit = Unit(rest: string, bytes: string) | UnitFail(message: string)

  /** The `\u` branch: the value `val` it reads and where it goes on, or the error it throws. */
  datatype Point = Point(rest: string, value: int) | PointFail(message: string)

  /**
   * After "\u": one code unit, or, after a high surrogate `high`, the
   * second escape of a surrogate pair, which must hold a low surrogate.
   */
  function Unicode(t: string, high: Option<int>, d: Dialect): (p: Point)
    requires high.Some? ==> IsHighSurrogate(high.value)
    ensures p.Point? ==> |p.rest| < |t| && 0 <= p.value <= 0x10FFFF
    decreases |t|
  {
    match Hex4(t, d)
    case HexFail(m) => PointFail(m)
    case Hex(v) =>
      if high.Some? then
        if !IsLowSurrogate(v) then PointFail("Missing second half of surrogate pair.")
        else Point(t[4..], PairValue(high.value, v, d))
      else if !IsHighSurrogate(v) then Point(t[4..], v)
      else if |t| == 4 || t[4] != '\\' then PointFail("Missing backslash in second part of surrogate pair.")
      else if |t| == 5 || t[5] != 'u' then PointFail("Missing 'u' in second part of surrogate pair.")
      else Unicode(t[6..], Some(v), d)
  }

  /** The control byte of a one-letter escape. */
  function SimpleEscape(e: char): Option<char>
  {
    if e == '"' || e == '\\' || e == '/' then Some(e)
    else if e == 'b' then Some(Byte(8))
    else if e == 'f' then Some(Byte(12))
    else if e == 'n' then Some('\n')
    else if e == 'r' then Some('\r')
    else if e == 't' then Some('\t')
    else None
  }

  /**
   * One pass of the decoding loop, at a byte that is not the closing quote.
   * An escape letter the loop does not know is left in place, so the next
   * pass copies it and the backslash is dropped.
   */
  function Next(t: string, d: Dialect): (u: Unit)
    requires t != [] && t[0] != '"'
    ensures u.Unit? ==> |u.rest| < |t|
  {
    if t[0] != '\\' then Unit(t[1..], [t[0]])
    else if |t| == 1 then UnitFail("End-of-string follows backslash.")
    else match SimpleEscape(t[1])
      case Some(b) => Unit(t[2..], [b])
      case None =>
        if t[1] != 'u' then Unit(t[1..], [])
        else match Unicode(t[2..], None, d)
          case PointFail(m) => UnitFail(m)
          case Point(rest, v) => Unit(rest, Utf8(v, d))
  }

  /** Where the decoding loop stopped, what it appended, and the error it threw. */
  datatype Scanned = Scanned(rest: string, out: string, failure: Option<string>)

  /** The decoding loop, from the bytes `t` on, until the closing quote, the end or an error. */
  function Scan(t: string, d: Dialect): (s: Scanned)
    decreases |t|, 1
  {
    if t == [] || t[0] == '"' then Scanned(t, [], None) else Pass(t, d)
  }

  /** A pass of the loop at a byte that is not the closing quote, then the rest of the loop. */
  function Pass(t: string, d: Dialect): (s: Scanned)
    requires t != [] && t[0] != '"'
    decreases |t|, 0
  {
    match Next(t, d)
    case UnitFail(m) => Scanned(t, [], Some(m))
    case Unit(rest, bytes) =>
      var z := Scan(rest, d);
      Scanned(z.rest, bytes + z.out, z.failure)
  }

  /** The `\u` branch only moves forward through its input. */
  lemma {:induction false} UnicodeRest(t: string, high: Option<int>, d: Dialect)
    requires high.Some? ==> IsHighSurrogate(high.value)
    requires Unicode(t, high, d).Point?
    ensures var rest := Unicode(t, high, d).rest; rest == t[|t| - |rest|..]
    decreases |t|
  {
    match Hex4(t, d)
    case Hex(v) =>
      if high.None? && IsHighSurrogate(v) {
        UnicodeRest(t[6..], Some(v), d);
        assert t[6..][|t| - 6 - |Unicode(t, high, d).rest|..] == t[|t| - |Unicode(t, high, d).rest|..];
      }
  }

  /** A pass of the loop only moves forward through its input. */
  lemma NextRest(t: string, d: Dialect)
    requires t != [] && t[0] != '"' && Next(t, d).Unit?
    ensures var rest := Next(t, d).rest; rest == t[|t| - |rest|..]
  {
    if t[0] == '\\' && SimpleEscape(t[1]).None? && t[1] == 'u' {
      UnicodeRest(t[2..], None, d);
      assert t[2..][|t| - 2 - |Next(t, d).rest|..] == t[|t| - |Next(t, d).rest|..];
    }
  }

  /**
   * The loop stops where the input has no more bytes, at a closing quote, or
   * on an error; where it stops is a suffix of where it started.
   */
  lemma {:induction false} ScanRest(t: string, d: Dialect)
    ensures var s := Scan(t, d);
      |s.rest| <= |t| && s.rest == t[|t| - |s.rest|..] && (s.failure.None? ==> s.rest == [] || s.rest[0] == '"')
    decreases |t|
  {
    if t != [] && t[0] != '"' && Next(t, d).Unit? {
      var rest := Next(t, d).rest;
      NextRest(t, d);
      ScanRest(rest, d);
      ScanStep(t, d);
    }
  }

  /** What json_to_utf8 appends to `*out`, and the error message when it returns false. */
  datatype Decoded = Decoded(out: string, failure: Option<string>)

  function Decode(data: string, d: Dialect): Decoded
  {
    if data == [] || data[0] != '"' then Decoded([], Some("String doesn't start with quote."))
    else
      var s := Scan(data[1..], d);
      if s.failure.Some? then Decoded(s.out, s.failure)
      else if s.rest == [] then Decoded(s.out, Some("String doesn't end with quote."))
      else if |s.rest| > 1 then Decoded(s.out, Some("Trailing characters after string."))
      else Decoded(s.out, None)
  }

  /** An accepted input is quoted at both ends. */
  lemma AcceptedIsQuoted(data: string, d: Dialect)
    requires Decode(data, d).failure.None?
    ensures |data| >= 2 && data[0] == '"' && data[|data| - 1] == '"'
  {
    var s := Scan(data[1..], d);
    ScanRest(data[1..], d);
    assert s.rest == data[|data| - 1..];
  }

  // ------------------------------------------------------------ round trip

  /** One completed pass of the loop, then the rest of the loop. */
  lemma ScanStep(t: string, d: Dialect)
    requires t != [] && t[0] != '"' && Next(t, d).Unit?
    ensures var u := Next(t, d); var z := Scan(u.rest, d);
      Scan(t, d) == Scanned(z.rest, u.bytes + z.out, z.failure)
  {
  }

  /** A pass over one escaped byte consumes exactly its escape and yields the byte. */
  lemma NextEscapeChar(c: char, e: string, d: Dialect)
    ensures EscapeChar(c)[0] != '"'
    ensures Next(EscapeChar(c) + e, d) == Unit(e, [c])
  {
    if c == '"' || c == '\\' {
      assert (EscapeChar(c) + e)[2..] == e;
    } else {
      assert (EscapeChar(c) + e)[1..] == e;
    }
  }

  lemma ConsAppend(s: string, b: string)
    requires s != []
    ensures [s[0]] + (s[1..] + b) == s + b
  {
    assert [s[0]] + s[1..] == s;
  }

  /** Decoding one escaped byte, then the rest. */
  lemma ScanEscapeChar(c: char, e: string, d: Dialect)
    ensures var z := Scan(e, d);
      Scan(EscapeChar(c) + e, d) == Scanned(z.rest, [c] + z.out, z.failure)
  {
    NextEscapeChar(c, e, d);
    ScanStep(EscapeChar(c) + e, d);
  }

  lemma EscapeCons(s: string, t: string)
    requires s != []
    ensures Escape(s) + t == EscapeChar(s[0]) + (Escape(s[1..]) + t)
  {
  }

  /** The step of ScanEscape: one more escaped byte in front. */
  lemma ScanEscapeCons(s: string, t: string, d: Dialect)
    requires s != []
    requires var z := Scan(t, d);
      Scan(Escape(s[1..]) + t, d) == Scanned(z.rest, s[1..] + z.out, z.failure)
    ensures var z := Scan(t, d);
      Scan(Escape(s) + t, d) == Scanned(z.rest, s + z.out, z.failure)
  {
    EscapeCons(s, t);
    ScanEscapeChar(s[0], Escape(s[1..]) + t, d);
    ConsAppend(s, Scan(t, d).out);
  }

  /** Escaped bytes decode back to themselves, then decoding carries on after them. */
  lemma {:induction false} ScanEscape(s: string, t: string, d: Dialect)
    ensures var z := Scan(t, d);
      Scan(Escape(s) + t, d) == Scanned(z.rest, s + z.out, z.failure)
    decreases |s|
  {
    if s != [] {
      ScanEscape(s[1..], t, d);
      ScanEscapeCons(s, t, d);
    } else {
      EmptyPrefix(s, t, Scan(t, d).out);
    }
  }

  lemma EmptyPrefix(s: string, t: string, o: string)
    requires s == []
    ensures Escape(s) + t == t && s + o == o
  {
  }

  /**
   * The round trip the helpers promise: json_to_utf8 accepts what
   * utf8_to_json produced and appends exactly the original bytes.
   */
  lemma DecodeQuote(s: string, d: Dialect)
    ensures Decode(Quote(s), d) == Decoded(s, None)
  {
    assert Quote(s)[1..] == Escape(s) + ['"'];
    ScanEscape(s, ['"'], d);
    assert s + [] == s;
  }

  /** No closing quote: false, with the bytes decoded so far left appended. */
  lemma MissingClosingQuote(s: string, d: Dialect)
    ensures Decode(['"'] + Escape(s), d) == Decoded(s, Some("String doesn't end with quote."))
  {
    assert (['"'] + Escape(s))[1..] == Escape(s) + [];
    ScanEscape(s, [], d);
    assert s + [] == s;
  }

  /** A backslash at the very end: false, with the bytes decoded so far left appended. */
  lemma BackslashAtEnd(s: string, d: Dialect)
    ensures Decode(['"'] + Escape(s) + ['\\'], d) == Decoded(s, Some("End-of-string follows backslash."))
  {
    assert (['"'] + Escape(s) + ['\\'])[1..] == Escape(s) + ['\\'];
    ScanEscape(s, ['\\'], d);
    assert s + [] == s;
  }

  /** Bytes after the closing quote: false, with the whole string appended. */
  lemma TrailingBytes(s: string, tail: string, d: Dialect)
    requires tail != []
    ensures Decode(Quote(s) + tail, d) == Decoded(s, Some("Trailing characters after string."))
  {
    assert (Quote(s) + tail)[1..] == Escape(s) + (['"'] + tail);
    ScanEscape(s, ['"'] + tail, d);
    assert s + [] == s;
  }

  /** An input that does not open with a quote is refused before anything is appended. */
  lemma NoOpeningQuote(data: string, d: Dialect)
    requires data == [] || data[0] != '"'
    ensures Decode(data, d) == Decoded([], Some("String doesn't start with quote."))
  {
  }

  /** Each one-letter escape decodes to its byte and decoding carries on after it. */
  lemma ScanSimpleEscape(e: char, t: string, d: Dialect)
    requires SimpleEscape(e).Some?
    ensures var z := Scan(t, d);
      Scan(['\\', e] + t, d) == Scanned(z.rest, [SimpleEscape(e).value] + z.out, z.failure)
  {
    assert (['\\', e] + t)[2..] == t;
  }

  /**
   * An escape letter outside `"\/bfnrtu` loses its backslash: the letter
   * itself is copied.
   */
  lemma DropsUnknownEscape(e: char, t: string, d: Dialect)
    requires SimpleEscape(e).None? && e != 'u'
    ensures var z := Scan(t, d);
      Scan(['\\', e] + t, d) == Scanned(z.rest, [e] + z.out, z.failure)
  {
    assert (['\\', e] + t)[1..] == [e] + t;
    assert ([e] + t)[1..] == t;
    ScanStep(['\\', e] + t, d);
    ScanStep([e] + t, d);
  }

  // ------------------------------------------------------- \u escapes

  /** The escape `\uXXXX` with lowercase digits. */
  function UEscape(v: nat): string
    requires v < 0x10000
  {
    ['\\', 'u'] + LowerHex4(v)
  }

  /** A pass at "\u" is the `\u` branch on what follows. */
  lemma NextUnicode(x: string, d: Dialect)
    ensures var p := Unicode(x, None, d);
      Next(['\\', 'u'] + x, d) == if p.PointFail? then UnitFail(p.message) else Unit(p.rest, Utf8(p.value, d))
  {
    assert (['\\', 'u'] + x)[2..] == x;
  }

  lemma UEscapeSplit(v: nat, t: string)
    requires v < 0x10000
    ensures UEscape(v) + t == ['\\', 'u'] + (LowerHex4(v) + t)
    ensures (LowerHex4(v) + t)[4..] == t
  {
  }

  /** Four digits that are not a high surrogate: one code unit. */
  lemma UnicodeSingle(v: nat, t: string, d: Dialect)
    requires v < 0x10000 && !IsHighSurrogate(v)
    ensures Unicode(LowerHex4(v) + t, None, d) == Point(t, v)
  {
    ReadsLowerHex4(v, t, d);
    UEscapeSplit(v, t);
  }

  lemma UnicodeHigh(hi: nat, t: string, d: Dialect)
    requires IsHighSurrogate(hi)
    ensures var u := LowerHex4(hi) + t;
      Hex4(u, d) == Hex(hi) && u[4..] == t
  {
    ReadsLowerHex4(hi, t, d);
    UEscapeSplit(hi, t);
  }

  lemma PairSplit(hi: nat, lo: nat, t: string)
    requires hi < 0x10000 && lo < 0x10000
    ensures var u := LowerHex4(hi) + UEscape(lo) + t;
      |u| >= 10 && u[4] == '\\' && u[5] == 'u' && u[6..] == LowerHex4(lo) + t && u[10..] == t
  {
  }

  /** A high surrogate's digits, then `\u` and four more digits. */
  lemma UnicodeTwo(hi: nat, lo: nat, t: string, d: Dialect)
    requires IsHighSurrogate(hi) && lo < 0x10000
    ensures var u := LowerHex4(hi) + UEscape(lo) + t;
      Unicode(u, None, d) ==
        if IsLowSurrogate(lo) then Point(t, PairValue(hi, lo, d))
        else PointFail("Missing second half of surrogate pair.")
  {
    UnicodeHigh(hi, UEscape(lo) + t, d);
    assert LowerHex4(hi) + UEscape(lo) + t == LowerHex4(hi) + (UEscape(lo) + t);
    PairSplit(hi, lo, t);
    ReadsLowerHex4(lo, t, d);
  }

  /** A `\u` escape that is not a high surrogate writes its value out as UTF-8. */
  lemma ScanUEscape(v: nat, t: string, d: Dialect)
    requires v < 0x10000 && !IsHighSurrogate(v)
    ensures var z := Scan(t, d);
      Scan(UEscape(v) + t, d) == Scanned(z.rest, Utf8(v, d) + z.out, z.failure)
  {
    UEscapeSplit(v, t);
    NextUnicode(LowerHex4(v) + t, d);
    UnicodeSingle(v, t, d);
    ScanStep(UEscape(v) + t, d);
  }

  lemma PairEscapeSplit(hi: nat, lo: nat, t: string)
    requires hi < 0x10000 && lo < 0x10000
    ensures UEscape(hi) + UEscape(lo) + t == ['\\', 'u'] + (LowerHex4(hi) + UEscape(lo) + t)
  {
  }

  /** The `\u` branch on a high surrogate followed by a second escape. */
  lemma NextPair(hi: nat, lo: nat, t: string, d: Dialect)
    requires IsHighSurrogate(hi) && lo < 0x10000
    ensures var x := UEscape(hi) + UEscape(lo) + t;
      x != [] && x[0] == '\\' &&
      Next(x, d) ==
        if IsLowSurrogate(lo) then Unit(t, Utf8(PairValue(hi, lo, d), d))
        else UnitFail("Missing second half of surrogate pair.")
  {
    PairEscapeSplit(hi, lo, t);
    NextUnicode(LowerHex4(hi) + UEscape(lo) + t, d);
    UnicodeTwo(hi, lo, t, d);
  }

  /** A high and a low surrogate escape, back to back, write out the pair's value. */
  lemma ScanPair(hi: nat, lo: nat, t: string, d: Dialect)
    requires IsHighSurrogate(hi) && IsLowSurrogate(lo)
    ensures var z := Scan(t, d);
      Scan(UEscape(hi) + UEscape(lo) + t, d) == Scanned(z.rest, Utf8(PairValue(hi, lo, d), d) + z.out, z.failure)
  {
    NextPair(hi, lo, t, d);
    ScanStep(UEscape(hi) + UEscape(lo) + t, d);
  }

  /** A high surrogate followed by an escape that is not a low surrogate makes it fail. */
  lemma HighWithoutLow(hi: nat, v: nat, t: string, d: Dialect)
    requires IsHighSurrogate(hi) && v < 0x10000 && !IsLowSurrogate(v)
    ensures Scan(UEscape(hi) + UEscape(v) + t, d).failure == Some("Missing second half of surrogate pair.")
  {
    NextPair(hi, v, t, d);
  }

  /** A high surrogate not followed by a second escape makes json_to_utf8 fail. */
  lemma LoneHighSurrogate(hi: nat, t: string, d: Dialect)
    requires IsHighSurrogate(hi) && (t == [] || t[0] != '\\')
    ensures Scan(UEscape(hi) + t, d).failure == Some("Missing backslash in second part of surrogate pair.")
  {
    UEscapeSplit(hi, t);
    NextUnicode(LowerHex4(hi) + t, d);
    UnicodeHigh(hi, t, d);
  }

  /**
   * A high surrogate is accepted exactly when `\u` and four digits that
   * spell a low surrogate follow it at once.
   */
  lemma HighSurrogateNeedsLow(hi: nat, t: string, d: Dialect)
    requires IsHighSurrogate(hi)
    ensures Unicode(LowerHex4(hi) + t, None, d).Point? <==>
      && |t| >= 6 && t[0] == '\\' && t[1] == 'u'
      && Hex4(t[2..], d).Hex? && IsLowSurrogate(Hex4(t[2..], d).value)
  {
    var u := LowerHex4(hi) + t;
    UnicodeHigh(hi, t, d);
    if |t| >= 2 && t[0] == '\\' && t[1] == 'u' {
      assert u[6..] == t[2..];
    }
  }

  /** A backslash after a high surrogate that is not followed by `u` makes it fail. */
  lemma HighWithoutU(hi: nat, t: string, d: Dialect)
    requires IsHighSurrogate(hi) && (t == [] || t[0] != 'u')
    ensures Scan(UEscape(hi) + ['\\'] + t, d).failure == Some("Missing 'u' in second part of surrogate pair.")
  {
    var b := ['\\'] + t;
    assert UEscape(hi) + ['\\'] + t == UEscape(hi) + b;
    UEscapeSplit(hi, b);
    NextUnicode(LowerHex4(hi) + b, d);
    UnicodeHigh(hi, b, d);
  }

  /** A second escape whose four digits cannot be read fails with read_hex4's own message. */
  lemma HighThenBadHex(hi: nat, t: string, d: Dialect)
    requires IsHighSurrogate(hi) && Hex4(t, d).HexFail?
    ensures Scan(UEscape(hi) + ['\\', 'u'] + t, d).failure == Some(Hex4(t, d).message)
  {
    var b := ['\\', 'u'] + t;
    assert UEscape(hi) + ['\\', 'u'] + t == UEscape(hi) + b;
    UEscapeSplit(hi, b);
    NextUnicode(LowerHex4(hi) + b, d);
    UnicodeHigh(hi, b, d);
    assert (LowerHex4(hi) + b)[6..] == t;
  }

  // --------------------------------------------------- UTF-8 as in RFC 3629

  predicate IsTail(b: char)
  {
    0x80 <= b as int < 0xC0
  }

  /**
   * The bytes of one well-formed UTF-8 sequence (section 3 of RFC 3629):
   * the lead byte's pattern gives the length, every other byte is a
   * continuation byte, and the value is neither overlong nor a UTF-16
   * surrogate (U+D800 to U+DFFF).
   */
  predicate WellFormedUtf8(b: string)
  {
    && 1 <= |b| <= 4
    && (forall k :: 1 <= k < |b| ==> IsTail(b[k]))
    && (if |b| == 1 then b[0] as int < 0x80
        else if |b| == 2 then 0xC2 <= b[0] as int < 0xE0
        else if |b| == 3 then 0xE0 <= b[0] as int < 0xF0 && Utf8Value(b) >= 0x800 && !(0xD800 <= Utf8Value(b) < 0xE000)
        else 0xF0 <= b[0] as int < 0xF5 && 0x10000 <= Utf8Value(b) <= 0x10FFFF)
  }

  /** The value the bits of a UTF-8 sequence spell. */
  function Utf8Value(b: string): int
    requires 1 <= |b| <= 4
  {
    if |b| == 1 then b[0] as int
    else if |b| == 2 then (b[0] as int - 0xC0) * 64 + (b[1] as int - 0x80)
    else if |b| == 3 then (b[0] as int - 0xE0) * 4096 + (b[1] as int - 0x80) * 64 + (b[2] as int - 0x80)
    else (b[0] as int - 0xF0) * 0x40000 + (b[1] as int - 0x80) * 4096 + (b[2] as int - 0x80) * 64 + (b[3] as int - 0x80)
  }

  /** The UTF-8 length section 3 of RFC 3629 gives for a value. */
  function Utf8Length(v: int): nat
  {
    if v <= 0x7F then 1 else if v <= 0x7FF then 2 else if v <= 0xFFFF then 3 else 4
  }

  /**
   * As intended, every value is written in the length RFC 3629 gives it, in
   * bits that spell it, and the sequence is well formed exactly when the
   * value is not a surrogate.
   */
  lemma Utf8Intended(v: int)
    requires 0 <= v <= 0x10FFFF
    ensures var b := Utf8(v, Intended);
      Utf8Value(b) == v && |b| == Utf8Length(v)
    ensures WellFormedUtf8(Utf8(v, Intended)) <==> !(0xD800 <= v < 0xE000)
  {
    if v > 0xFFFF {
      Utf8Four(v);
    } else if v > 0x7FF {
      Utf8Three(v);
    }
  }

  /**
   * A `\u` escape of a low surrogate with no high surrogate before it is
   * accepted in both dialects: the surrogate's three bytes are appended,
   * and they are not well-formed UTF-8.
   */
  lemma LoneLowSurrogateAccepted(lo: nat, t: string, d: Dialect)
    requires IsLowSurrogate(lo)
    ensures var z := Scan(t, d);
      Scan(UEscape(lo) + t, d) == Scanned(z.rest, Utf8(lo, d) + z.out, z.failure)
    ensures !WellFormedUtf8(Utf8(lo, d))
  {
    ScanUEscape(lo, t, d);
    Utf8AsWrittenOutsideTwoBytes(lo);
    Utf8Three(lo);
  }

  /** `"\udc00"` is accepted, and ED B0 80 is appended. */
  lemma LoneLowSurrogateDecoded(d: Dialect)
    ensures Decode(['"'] + UEscape(0xDC00) + ['"'], d) == Decoded([Byte(0xED), Byte(0xB0), Byte(0x80)], None)
  {
    var data := ['"'] + UEscape(0xDC00) + ['"'];
    var bytes := [Byte(0xED), Byte(0xB0), Byte(0x80)];
    assert data[1..] == UEscape(0xDC00) + ['"'];
    assert Scan(['"'], d) == Scanned(['"'], [], None);
    assert Utf8(0xDC00, d) == bytes by {
      Utf8AsWrittenOutsideTwoBytes(0xDC00);
      ContinuationBytes(0xDC00);
    }
    assert Scan(data[1..], d) == Scanned(['"'], bytes, None) by {
      LoneLowSurrogateAccepted(0xDC00, ['"'], d);
      assert bytes + [] == bytes;
    }
  }

  /** The continuation bytes of the two-, three- and four-byte branches, spelled out. */
  lemma ContinuationBytes(v: nat)
    ensures Continuation(v, 1) == [Byte(0x80 + v % 64)]
    ensures Continuation(v, 2) == [Byte(0x80 + v / 64 % 64), Byte(0x80 + v % 64)]
    ensures Continuation(v, 3) == [Byte(0x80 + v / 4096 % 64), Byte(0x80 + v / 64 % 64), Byte(0x80 + v % 64)]
  {
    assert v / 64 / 64 == v / 4096;
    assert Continuation(v / 4096, 0) == [];
  }

  lemma Utf8Three(v: int)
    requires 0x7FF < v <= 0xFFFF
    ensures var b := Utf8(v, Intended);
      Utf8Value(b) == v && (WellFormedUtf8(b) <==> !(0xD800 <= v < 0xE000))
  {
    ContinuationBytes(v);
    assert (v / 4096) * 4096 + (v / 64 % 64) * 64 + v % 64 == v;
  }

  lemma Utf8Four(v: int)
    requires 0xFFFF < v <= 0x10FFFF
    ensures var b := Utf8(v, Intended);
      WellFormedUtf8(b) && Utf8Value(b) == v
  {
    ContinuationBytes(v);
    SixBitGroups(v);
    assert v / 0x40000 % 8 == v / 0x40000;
  }

  /** A value below 2^21 is the sum of its 3-bit top group and three 6-bit groups. */
  lemma SixBitGroups(v: nat)
    requires v < 0x200000
    ensures v / 0x40000 < 8
    ensures v == (v / 0x40000) * 0x40000 + (v / 4096 % 64) * 4096 + (v / 64 % 64) * 64 + v % 64
  {
    var q0, r0 := v / 64, v % 64;
    var q1, r1 := q0 / 64, q0 % 64;
    var q2, r2 := q1 / 64, q1 % 64;
    assert v == q0 * 64 + r0 && q0 == q1 * 64 + r1 && q1 == q2 * 64 + r2;
    assert v == q2 * 0x40000 + r2 * 4096 + r1 * 64 + r0;
    assert q1 == v / 4096 && q2 == v / 0x40000;
  }

  /**
   * As written, the one- and three-byte branches are already right, and so
   * is the four-byte branch for any value it is given.
   */
  lemma Utf8AsWrittenOutsideTwoBytes(v: int)
    requires 0 <= v <= 0x10FFFF && (v <= 0x7F || v > 0x7FF)
    ensures Utf8(v, AsWritten) == Utf8(v, Intended)
  {
  }

  /** As written, `é` gives C1 A9, which is not UTF-8 and does not spell U+00E9. */
  lemma TwoByteAsWritten()
    ensures Scan(UEscape(0xE9), AsWritten).out == [Byte(0xC1), Byte(0xA9)]
    ensures !WellFormedUtf8([Byte(0xC1), Byte(0xA9)]) && Utf8Value([Byte(0xC1), Byte(0xA9)]) != 0xE9
  {
    ScanUEscape(0xE9, [], AsWritten);
    assert UEscape(0xE9) + [] == UEscape(0xE9);
    TwoByteBytes();
  }

  lemma TwoByteBytes()
    ensures Utf8(0xE9, AsWritten) == [Byte(0xC1), Byte(0xA9)]
    ensures Utf8(0xE9, Intended) == [Byte(0xC3), Byte(0xA9)]
  {
    ContinuationBytes(0xE9);
  }

  /** The code point of a UTF-16 surrogate pair, as section 2.2 of RFC 2781 defines it. */
  function Utf16Decode(hi: int, lo: int): int
  {
    0x10000 + (hi - 0xD800) * 1024 + (lo - 0xDC00)
  }

  /** The surrogate pair of a supplementary code point. */
  function HighOf(cp: int): int { 0xD800 + (cp - 0x10000) / 1024 }
  function LowOf(cp: int): int { 0xDC00 + (cp - 0x10000) % 1024 }

  /**
   * As intended, the surrogate formula inverts the UTF-16 encoding: the
   * pair of any code point above U+FFFF gives back that code point.
   */
  lemma PairIntended(cp: int)
    requires 0x10000 <= cp <= 0x10FFFF
    ensures IsHighSurrogate(HighOf(cp)) && IsLowSurrogate(LowOf(cp))
    ensures PairValue(HighOf(cp), LowOf(cp), Intended) == cp == Utf16Decode(HighOf(cp), LowOf(cp))
  {
  }

  /** As written, every pair comes out 0xF000 too low. */
  lemma PairAsWritten(hi: int, lo: int)
    requires IsHighSurrogate(hi) && IsLowSurrogate(lo)
    ensures PairValue(hi, lo, AsWritten) == Utf16Decode(hi, lo) - 0xF000
  {
  }

  /**
   * `😀` (U+1F600) comes out as the bytes of U+10600 as written,
   * and as those of U+1F600 as intended.
   */
  lemma EmojiPair()
    ensures Scan(UEscape(0xD83D) + UEscape(0xDE00), AsWritten).out == Utf8(0x10600, AsWritten)
    ensures Scan(UEscape(0xD83D) + UEscape(0xDE00), Intended).out == Utf8(0x1F600, Intended)
  {
    assert UEscape(0xD83D) + UEscape(0xDE00) + [] == UEscape(0xD83D) + UEscape(0xDE00);
    ScanPair(0xD83D, 0xDE00, [], AsWritten);
    ScanPair(0xD83D, 0xDE00, [], Intended);
  }

  /**
   * As intended, the `\u` escape of any code point that is not a surrogate,
   * with digits in either case, and the escaped surrogate pair of any code
   * point above U+FFFF, decode to that code point's UTF-8 sequence.
   */
  lemma DecodesCodePoint(cp: int, t: string)
    requires 0 <= cp <= 0x10FFFF && !(0xD800 <= cp < 0xE000)
    ensures var z := Scan(t, Intended);
      cp < 0x10000 ==> Scan(['\\', 'u'] + UpperHex4(cp) + t, Intended) == Scanned(z.rest, Utf8(cp, Intended) + z.out, z.failure)
    ensures var z := Scan(t, Intended);
      cp >= 0x10000 ==> Scan(UEscape(HighOf(cp)) + UEscape(LowOf(cp)) + t, Intended) == Scanned(z.rest, Utf8(cp, Intended) + z.out, z.failure)
  {
    if cp < 0x10000 {
      assert (['\\', 'u'] + UpperHex4(cp) + t)[2..] == UpperHex4(cp) + t;
      ReadsUpperHex4(cp, t);
      assert (UpperHex4(cp) + t)[4..] == t;
    } else {
      PairIntended(cp);
      ScanPair(HighOf(cp), LowOf(cp), t, Intended);
    }
  }

  // ------------------------------------------------------------ the loop

  /**
   * One pass of the decoding loop at position `c`: the bytes it appends
   * and where the loop goes on, or the error it throws.
   */
  method ReadUnit(data: string, c: nat, d: Dialect) returns (next: nat, bytes: string, failure: Option<string>)
    requires c < |data| && data[c] != '"'
    ensures failure.None? ==> c < next <= |data| && Next(data[c..], d) == Unit(data[next..], bytes)
    ensures failure.Some? ==> Next(data[c..], d) == UnitFail(failure.value)
  {
    failure := None;
    if data[c] != '\\' {
      return c + 1, [data[c]], None;
    }
    if c + 1 == |data| {
      return c, [], Some("End-of-string follows backslash.");
    }
    var e := data[c + 1];
    if e == '"' || e == '\\' || e == '/' {
      return c + 2, [e], None;
    } else if e == 'b' {
      return c + 2, [Byte(8)], None;
    } else if e == 'f' {
      return c + 2, [Byte(12)], None;
    } else if e == 'n' {
      return c + 2, ['\n'], None;
    } else if e == 'r' {
      return c + 2, ['\r'], None;
    } else if e == 't' {
      return c + 2, ['\t'], None;
    } else if e != 'u' {
      return c + 1, [], None;
    }
    assert data[c..][2..] == data[c + 2..];
    var val;
    next, val, failure := ReadUnicode(data, c + 2, d);
    bytes := if failure.None? then Utf8(val, d) else [];
  }

  /** The `\u` branch up to `val`, from the first hex digit at position `c`. */
  method ReadUnicode(data: string, c: nat, d: Dialect) returns (next: nat, val: int, failure: Option<string>)
    requires c <= |data|
    ensures match Unicode(data[c..], None, d)
      case Point(rest, v) => failure.None? && next <= |data| && data[next..] == rest && val == v
      case PointFail(m) => failure == Some(m)
  {
    var fail1;
    val, fail1 := ReadHex4(data, c, d);
    if fail1.Some? {
      return c, 0, fail1;
    }
    next := c + 4;
    if IsHighSurrogate(val) {
      if next == |data| || data[next] != '\\' {
        return next, 0, Some("Missing backslash in second part of surrogate pair.");
      }
      next := next + 1;
      if next == |data| || data[next] != 'u' {
        return next, 0, Some("Missing 'u' in second part of surrogate pair.");
      }
      next := next + 1;
      assert data[c..][6..] == data[next..];
      next, val, failure := ReadLowHalf(data, next, val, d);
      return;
    }
    failure := None;
  }

  /** The second escape of a surrogate pair after the high half `hi`, from its first hex digit at `c`. */
  method ReadLowHalf(data: string, c: nat, hi: int, d: Dialect) returns (next: nat, val: int, failure: Option<string>)
    requires c <= |data| && IsHighSurrogate(hi)
    ensures match Unicode(data[c..], Some(hi), d)
      case Point(rest, v) => failure.None? && next <= |data| && data[next..] == rest && val == v
      case PointFail(m) => failure == Some(m)
  {
    var val2, fail2 := ReadHex4(data, c, d);
    if fail2.Some? {
      return c, 0, fail2;
    }
    if !IsLowSurrogate(val2) {
      return c, 0, Some("Missing second half of surrogate pair.");
    }
    return c + 4, PairValue(hi, val2, d), None;
  }

  /**
   * json_to_utf8: appends the decoded bytes to `out` (never clearing it)
   * and reports whether the literal was well formed; on failure the bytes
   * decoded so far stay appended and the error message is returned.
   */
  method JsonToUtf8(data: string, out: string, d: Dialect) returns (ok: bool, out': string, error: Option<string>)
    ensures var r := Decode(data, d);
      ok == r.failure.None? && out' == out + r.out && error == r.failure
  {
    if data == [] || data[0] != '"' {
      return false, out, Some("String doesn't start with quote.");
    }
    var c;
    c, out', error := DecodeLoop(data, out, d);
    if error.Some? {
      return false, out', error;
    }
    ScanRest(data[1..], d);
    if c == |data| {
      return false, out', Some("String doesn't end with quote.");
    }
    c := c + 1;
    if c != |data| {
      return false, out', Some("Trailing characters after string.");
    }
    return true, out', None;
  }

  /**
   * The while loop of json_to_utf8, after the opening quote: it stops at
   * position `c` (the end or a quote), or on the error a pass threw.
   */
  method DecodeLoop(data: string, out: string, d: Dialect) returns (c: nat, out': string, failure: Option<string>)
    requires data != []
    ensures var s := Scan(data[1..], d);
      1 <= c <= |data| && s.rest == data[c..] && out' == out + s.out && failure == s.failure
  {
    out' := out;
    c := 1;
    ghost var produced := [];
    while c < |data| && data[c] != '"'
      invariant 1 <= c <= |data| && out' == out + produced
      invariant var z := Scan(data[c..], d);
        Scan(data[1..], d) == Scanned(z.rest, produced + z.out, z.failure)
      decreases |data| - c
    {
      var next, bytes, fail := ReadUnit(data, c, d);
      if fail.Some? {
        ScanFails(data, c, produced, fail.value, d);
        return c, out', fail;
      }
      ScanMoves(data, c, next, bytes, produced, d);
      out', produced := out' + bytes, produced + bytes;
      c := next;
    }
    ScanStops(data, c, produced, d);
    failure := None;
  }

  /** Where a pass throws: nothing more is appended. */
  lemma ScanFails(data: string, c: nat, produced: string, m: string, d: Dialect)
    requires c < |data| && data[c] != '"' && Next(data[c..], d) == UnitFail(m)
    ensures var y := Scan(data[c..], d);
      Scanned(y.rest, produced + y.out, y.failure) == Scanned(data[c..], produced, Some(m))
  {
    assert produced + [] == produced;
  }

  /** The loop's bookkeeping after one completed pass. */
  lemma ScanMoves(data: string, c: nat, next: nat, bytes: string, produced: string, d: Dialect)
    requires c < |data| && data[c] != '"' && next <= |data|
    requires Next(data[c..], d) == Unit(data[next..], bytes)
    ensures var z := Scan(data[next..], d); var y := Scan(data[c..], d);
      Scanned(y.rest, produced + y.out, y.failure) == Scanned(z.rest, (produced + bytes) + z.out, z.failure)
  {
    ScanStep(data[c..], d);
    AppendAssoc(produced, bytes, Scan(data[next..], d).out);
  }

  lemma AppendAssoc(a: string, b: string, c: string)
    ensures a + (b + c) == (a + b) + c
  {
  }

  /** Where the loop stops: nothing more is appended. */
  lemma ScanStops(data: string, c: nat, produced: string, d: Dialect)
    requires c <= |data| && (c == |data| || data[c] == '"')
    ensures var y := Scan(data[c..], d);
      Scanned(y.rest, produced + y.out, y.failure) == Scanned(data[c..], produced, None)
  {
    assert produced + [] == produced;
  }
}
