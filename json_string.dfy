/** JSON string serialisation as Python's `json.dumps(value)` performs it
    on a `str` with the default `ensure_ascii=True` (section 7 of RFC 8259),
    and a decoder for the same grammar, which is its left inverse.

    Dafny's `char` is a Unicode scalar value, so surrogate code points
    cannot occur in a value. */
module JsonString {
  import opened Wrappers
  import Text

  /** Characters that `json.dumps` copies unchanged: printable ASCII. */
  predicate IsPrintableAscii(c: char)
  {
    ' ' <= c <= '~'
  }

  /** Lowercase hexadecimal digit, as Python's `'{0:04x}'` format writes it. */
  function HexDigit(d: int): (c: char)
    requires 0 <= d < 16
    ensures IsPrintableAscii(c) && IsHexDigit(c) && HexValue(c) == d
  {
    if d < 10 then ('0' as int + d) as char else ('a' as int + d - 10) as char
  }

  predicate IsHexDigit(c: char)
  {
    '0' <= c <= '9' || 'a' <= c <= 'f' || 'A' <= c <= 'F'
  }

  function HexValue(c: char): (v: int)
    requires IsHexDigit(c)
    ensures 0 <= v < 16
  {
    if '0' <= c <= '9' then c as int - '0' as int
    else if 'a' <= c <= 'f' then c as int - 'a' as int + 10
    else c as int - 'A' as int + 10
  }

  /** `\uXXXX` for one UTF-16 code unit, four lowercase hex digits. */
  function UnicodeEscape(n: int): (e: string)
    requires 0 <= n < 0x10000
    ensures |e| == 6 && e[0] == '\\' && e[1] == 'u'
    ensures forall i :: 0 <= i < |e| ==> IsPrintableAscii(e[i])
    ensures HasHex4(e, 2) && Hex4At(e, 2) == n
  {
    var e := ['\\', 'u', HexDigit(n / 0x1000), HexDigit(n / 0x100 % 0x10),
              HexDigit(n / 0x10 % 0x10), HexDigit(n % 0x10)];
    assert n == (n / 0x1000) * 0x1000 + (n / 0x100 % 0x10) * 0x100 + (n / 0x10 % 0x10) * 0x10 + n % 0x10 by {
      HexPlaces(n);
    }
    e
  }

  lemma HexPlaces(n: int)
    requires 0 <= n < 0x10000
    ensures n == (n / 0x1000) * 0x1000 + (n / 0x100 % 0x10) * 0x100 + (n / 0x10 % 0x10) * 0x10 + n % 0x10
  {
    var q1 := n / 0x10;
    assert n == q1 * 0x10 + n % 0x10;
    var q2 := q1 / 0x10;
    assert q1 == q2 * 0x10 + q1 % 0x10;
    assert q2 == n / 0x100;
    var q3 := q2 / 0x10;
    assert q2 == q3 * 0x10 + q2 % 0x10;
    assert q3 == n / 0x1000;
  }

  /** The escape of one character: the two-character escapes for `"`, `\`
      and the five named control characters, the character itself when it
      is other printable ASCII, `\uXXXX` for every other character of the
      Basic Multilingual Plane, and a UTF-16 surrogate pair of `\uXXXX`
      escapes above it. */
  function EscapeChar(c: char): (e: string)
    ensures |e| >= 1
    ensures forall i :: 0 <= i < |e| ==> IsPrintableAscii(e[i])
  {
    var n := c as int;
    if c == '"' then ['\\', '"']
    else if c == '\\' then ['\\', '\\']
    else if n == 0x08 then ['\\', 'b']
    else if n == 0x0C then ['\\', 'f']
    else if c == '\n' then ['\\', 'n']
    else if c == '\r' then ['\\', 'r']
    else if c == '\t' then ['\\', 't']
    else if IsPrintableAscii(c) then [c]
    else if n < 0x10000 then UnicodeEscape(n)
    else UnicodeEscape(HighSurrogate(n)) + UnicodeEscape(LowSurrogate(n))
  }

  /** The UTF-16 high surrogate of a code point above the Basic
      Multilingual Plane. */
  function HighSurrogate(n: int): (u: int)
    requires 0x10000 <= n < 0x110000
    ensures 0xD800 <= u < 0xDC00
  {
    0xD800 + (n - 0x10000) / 0x400
  }

  /** The UTF-16 low surrogate of a code point above the Basic
      Multilingual Plane. */
  function LowSurrogate(n: int): (u: int)
    requires 0x10000 <= n < 0x110000
    ensures 0xDC00 <= u < 0xE000
  {
    0xDC00 + (n - 0x10000) % 0x400
  }

  /** The escapes of all characters, in order, without the quotes. */
  function EscapeAll(s: string): (e: string)
    ensures forall i :: 0 <= i < |e| ==> IsPrintableAscii(e[i])
  {
    if |s| == 0 then "" else EscapeChar(s[0]) + EscapeAll(s[1..])
  }

  /** `json.dumps(value)` for a string value. */
  function Dumps(value: string): (e: string)
    ensures |e| >= 2 && e[0] == '"' && e[|e| - 1] == '"'
    ensures forall i :: 0 <= i < |e| ==> IsPrintableAscii(e[i])
  {
    "\"" + EscapeAll(value) + "\""
  }

  /** A `\uXXXX` escape holds no `"`. */
  lemma UnicodeEscapeNoQuote(n: int)
    requires 0 <= n < 0x10000
    ensures '"' !in UnicodeEscape(n)
  {
    var e := UnicodeEscape(n);
    assert forall k :: 2 <= k < 6 ==> IsHexDigit(e[k]);
  }

  /** Text that begins with something other than `"`, and in which every
      `"` directly follows a `\`. (This alone does not rule out a raw
      quote after an escaped backslash; `NoRawQuote` does.) */
  predicate QuotesEscaped(e: string)
  {
    (|e| > 0 ==> e[0] != '"') && forall k :: 1 <= k < |e| ==> e[k] == '"' ==> e[k - 1] == '\\'
  }

  lemma EscapeCharQuotes(c: char)
    ensures QuotesEscaped(EscapeChar(c))
  {
    var n := c as int;
    if IsPrintableAscii(c) || c == '\n' || c == '\r' || c == '\t' || n == 0x08 || n == 0x0C {
      ShortEscapeQuotes(c);
    } else if n < 0x10000 {
      BmpEscapeQuotes(c);
    } else {
      PairEscapeQuotes(c);
    }
  }

  lemma ShortEscapeQuotes(c: char)
    requires IsPrintableAscii(c) || c == '\n' || c == '\r' || c == '\t' || c as int == 0x08 || c as int == 0x0C
    ensures QuotesEscaped(EscapeChar(c))
  {
  }

  lemma BmpEscapeQuotes(c: char)
    requires !IsPrintableAscii(c) && c != '\n' && c != '\r' && c != '\t' && c as int != 0x08 && c as int != 0x0C
    requires c as int < 0x10000
    ensures QuotesEscaped(EscapeChar(c))
  {
    UnicodeEscapeNoQuote(c as int);
  }

  lemma PairEscapeQuotes(c: char)
    requires c as int >= 0x10000
    ensures QuotesEscaped(EscapeChar(c))
  {
    UnicodeEscapeNoQuote(HighSurrogate(c as int));
    UnicodeEscapeNoQuote(LowSurrogate(c as int));
  }

  /** Inside the quotes, every `"` directly follows a `\`. */
  lemma {:induction false} EscapeAllQuotes(s: string)
    ensures QuotesEscaped(EscapeAll(s))
  {
    if |s| > 0 {
      var head, tail := EscapeChar(s[0]), EscapeAll(s[1..]);
      EscapeCharQuotes(s[0]);
      EscapeAllQuotes(s[1..]);
      var e := head + tail;
      assert e[0] == head[0];
      forall k | 1 <= k < |e| && e[k] == '"' ensures e[k - 1] == '\\' {
        if k < |head| {
          assert head[k] == '"';
          assert e[k - 1] == head[k - 1];
        } else if k == |head| {
          assert false;
        } else {
          var j := k - |head|;
          assert tail[j] == '"';
          assert e[k - 1] == tail[j - 1];
        }
      }
    }
  }

  /** Reading `t` one escape unit at a time (a `\` and the character after
      it, or a single other character) meets no raw `"` and ends exactly at
      the end of `t`. */
  predicate NoRawQuote(t: string)
    decreases |t|
  {
    if |t| == 0 then true
    else if t[0] == '"' then false
    else if t[0] == '\\' then |t| >= 2 && NoRawQuote(t[2..])
    else NoRawQuote(t[1..])
  }

  /** An escaped backslash followed by a raw quote is caught, although
      every `"` in it follows a `\`. */
  lemma RawQuoteAfterEscapedBackslash()
    ensures QuotesEscaped(['\\', '\\', '"']) && !NoRawQuote(['\\', '\\', '"'])
  {
    assert ['\\', '\\', '"'][2..] == ['"'];
  }

  lemma {:induction false} NoRawQuoteAppend(a: string, b: string)
    requires NoRawQuote(a) && NoRawQuote(b)
    ensures NoRawQuote(a + b)
    decreases |a|
  {
    if |a| == 0 {
      assert a + b == b;
    } else if a[0] == '\\' {
      NoRawQuoteAppend(a[2..], b);
      assert (a + b)[2..] == a[2..] + b;
    } else {
      NoRawQuoteAppend(a[1..], b);
      assert (a + b)[1..] == a[1..] + b;
    }
  }

  /** Text without `"` and `\` is read one character per unit. */
  lemma {:induction false} NoSpecialNoRawQuote(t: string)
    requires forall i :: 0 <= i < |t| ==> t[i] != '"' && t[i] != '\\'
    ensures NoRawQuote(t)
  {
    if |t| > 0 {
      NoSpecialNoRawQuote(t[1..]);
    }
  }

  lemma UnicodeEscapeUnits(n: int)
    requires 0 <= n < 0x10000
    ensures NoRawQuote(UnicodeEscape(n))
  {
    var e := UnicodeEscape(n);
    assert forall k :: 2 <= k < 6 ==> IsHexDigit(e[k]);
    NoSpecialNoRawQuote(e[2..]);
  }

  /** The escape of one character is read as whole units, none a raw
      quote. */
  lemma EscapeCharUnits(c: char)
    ensures NoRawQuote(EscapeChar(c))
  {
    var n := c as int;
    if IsPrintableAscii(c) || c == '\n' || c == '\r' || c == '\t' || n == 0x08 || n == 0x0C {
      var e := EscapeChar(c);
      if |e| == 2 {
        assert NoRawQuote(e[2..]);
      }
    } else if n < 0x10000 {
      UnicodeEscapeUnits(n);
    } else {
      UnicodeEscapeUnits(HighSurrogate(n));
      UnicodeEscapeUnits(LowSurrogate(n));
      NoRawQuoteAppend(UnicodeEscape(HighSurrogate(n)), UnicodeEscape(LowSurrogate(n)));
    }
  }

  /** The escaped value is read as whole escape units with no raw quote
      among them, so the first raw quote after the opening one is the
      closing quote. */
  lemma {:induction false} EscapeAllUnits(s: string)
    ensures NoRawQuote(EscapeAll(s))
  {
    if |s| > 0 {
      EscapeCharUnits(s[0]);
      EscapeAllUnits(s[1..]);
      NoRawQuoteAppend(EscapeChar(s[0]), EscapeAll(s[1..]));
    }
  }

  /** `json.dumps(value)` is a quote, the escaped value and a quote; the
      escaped value has no raw newline, every `"` in it follows a `\`, and
      read unit by unit it holds no raw quote, so nothing before the last
      character ends the string. */
  lemma DumpsShape(value: string)
    ensures var e := Dumps(value);
      && e[1..|e| - 1] == EscapeAll(value)
      && '\n' !in e
      && QuotesEscaped(e[1..|e| - 1])
      && NoRawQuote(e[1..|e| - 1])
  {
    var e := Dumps(value);
    assert e[1..|e| - 1] == EscapeAll(value);
    EscapeAllQuotes(value);
    EscapeAllUnits(value);
  }

  // ---------------------------------------------------------------------
  // Decoding (the inverse direction, `json.loads` on a JSON string)

  predicate HasHex4(t: string, i: nat)
  {
    i + 4 <= |t| && IsHexDigit(t[i]) && IsHexDigit(t[i + 1]) && IsHexDigit(t[i + 2]) && IsHexDigit(t[i + 3])
  }

  function Hex4At(t: string, i: nat): (v: int)
    requires HasHex4(t, i)
    ensures 0 <= v < 0x10000
  {
    HexValue(t[i]) * 0x1000 + HexValue(t[i + 1]) * 0x100 + HexValue(t[i + 2]) * 0x10 + HexValue(t[i + 3])
  }

  /** Decodes a `\u` escape at the start of `t`: a code point outside the
      surrogate range, or a high surrogate followed by a `\u`-escaped low
      surrogate. Gives the character and the number of characters read. */
  function DecodeUnicodeEscape(t: string): (r: Option<(char, nat)>)
    requires |t| >= 2 && t[0] == '\\' && t[1] == 'u'
    ensures r.Some? ==> r.value.1 <= |t| && (r.value.1 == 6 || r.value.1 == 12)
  {
    if !HasHex4(t, 2) then None
    else
      var hi := Hex4At(t, 2);
      if 0xD800 <= hi < 0xDC00 then
        if 12 <= |t| && t[6] == '\\' && t[7] == 'u' && HasHex4(t, 8) && 0xDC00 <= Hex4At(t, 8) < 0xE000 then
          Some(((0x10000 + (hi - 0xD800) * 0x400 + (Hex4At(t, 8) - 0xDC00)) as char, 12))
        else None
      else if 0xDC00 <= hi < 0xE000 then None
      else Some((hi as char, 6))
  }

  /** Decodes the first character of a JSON string body: an unescaped
      character (neither `"`, `\` nor a control character) or an escape.
      Gives the character and the number of characters read. */
  function DecodeUnit(t: string): (r: Option<(char, nat)>)
    ensures r.Some? ==> 1 <= r.value.1 <= |t|
  {
    if |t| == 0 || t[0] == '"' || t[0] < ' ' then None
    else if t[0] != '\\' then Some((t[0], 1))
    else if |t| < 2 then None
    else if t[1] == '"' then Some(('"', 2))
    else if t[1] == '\\' then Some(('\\', 2))
    else if t[1] == '/' then Some(('/', 2))
    else if t[1] == 'b' then Some((0x08 as char, 2))
    else if t[1] == 'f' then Some((0x0C as char, 2))
    else if t[1] == 'n' then Some(('\n', 2))
    else if t[1] == 'r' then Some(('\r', 2))
    else if t[1] == 't' then Some(('\t', 2))
    else if t[1] == 'u' then DecodeUnicodeEscape(t)
    else None
  }

  /** Decodes a JSON string body (the text between the quotes). */
  function DecodeBody(t: string): (r: Option<string>)
    decreases |t|
  {
    if |t| == 0 then Some("")
    else match DecodeUnit(t)
      case None => None
      case Some((c, k)) =>
        match DecodeBody(t[k..])
        case None => None
        case Some(rest) => Some([c] + rest)
  }

  /** `json.loads` restricted to a JSON string: the decoded value, or
      `None` when the text is not a well-formed JSON string. */
  function Loads(e: string): (r: Option<string>)
  {
    if |e| >= 2 && e[0] == '"' && e[|e| - 1] == '"' then DecodeBody(e[1..|e| - 1]) else None
  }

  // ---------------------------------------------------------------------
  // Round trip

  /** The escape of a character decodes to that character, consuming
      exactly the escape, whatever follows it. */
  lemma DecodeUnitOfEscape(c: char, rest: string)
    ensures DecodeUnit(EscapeChar(c) + rest) == Some((c, |EscapeChar(c)|))
  {
    var n := c as int;
    if IsPrintableAscii(c) || c == '\n' || c == '\r' || c == '\t' || n == 0x08 || n == 0x0C {
      DecodeShortEscape(c, rest);
    } else if n < 0x10000 {
      DecodeBmpEscape(c, rest);
    } else {
      DecodeSurrogatePair(c, rest);
    }
  }

  lemma DecodeShortEscape(c: char, rest: string)
    requires IsPrintableAscii(c) || c == '\n' || c == '\r' || c == '\t' || c as int == 0x08 || c as int == 0x0C
    ensures DecodeUnit(EscapeChar(c) + rest) == Some((c, |EscapeChar(c)|))
  {
    var e := EscapeChar(c);
    var t := e + rest;
    assert t[0] == e[0];
    if |e| >= 2 {
      assert t[1] == e[1];
    }
  }

  lemma DecodeBmpEscape(c: char, rest: string)
    requires !IsPrintableAscii(c) && c != '\n' && c != '\r' && c != '\t' && c as int != 0x08 && c as int != 0x0C
    requires c as int < 0x10000
    ensures DecodeUnit(EscapeChar(c) + rest) == Some((c, |EscapeChar(c)|))
  {
    var n := c as int;
    var e := EscapeChar(c);
    assert e == UnicodeEscape(n);
    var t := e + rest;
    assert t[0] == '\\' && t[1] == 'u';
    assert forall i :: 2 <= i < 6 ==> t[i] == e[i];
    assert HasHex4(t, 2) && Hex4At(t, 2) == n;
    assert !(0xD800 <= n < 0xE000);
  }

  lemma DecodeSurrogatePair(c: char, rest: string)
    requires c as int >= 0x10000
    ensures DecodeUnit(EscapeChar(c) + rest) == Some((c, |EscapeChar(c)|))
  {
    var n := c as int;
    var hi, lo := HighSurrogate(n), LowSurrogate(n);
    var e1, e2 := UnicodeEscape(hi), UnicodeEscape(lo);
    PairEscape(c);
    var t := e1 + e2 + rest;
    assert t[..6] == e1 && t[6..12] == e2;
    DecodePairAt(t, hi, lo);
    DecodeUnitOfU(t);
    SurrogateArithmetic(n);
  }

  /** Above the Basic Multilingual Plane a character is escaped as a pair. */
  lemma PairEscape(c: char)
    requires c as int >= 0x10000
    ensures EscapeChar(c) == UnicodeEscape(HighSurrogate(c as int)) + UnicodeEscape(LowSurrogate(c as int))
  {
    assert !IsPrintableAscii(c) && c != '"' && c != '\\';
  }

  /** An escape beginning `\u` is decoded by `DecodeUnicodeEscape`. */
  lemma DecodeUnitOfU(t: string)
    requires |t| >= 2 && t[0] == '\\' && t[1] == 'u'
    ensures DecodeUnit(t) == DecodeUnicodeEscape(t)
  {
  }

  /** A high and a low surrogate, each `\u`-escaped, are read back as the
      character they encode. */
  lemma DecodePairAt(t: string, hi: int, lo: int)
    requires 0xD800 <= hi < 0xDC00 && 0xDC00 <= lo < 0xE000
    requires |t| >= 12 && t[..6] == UnicodeEscape(hi) && t[6..12] == UnicodeEscape(lo)
    ensures DecodeUnicodeEscape(t) == Some(((0x10000 + (hi - 0xD800) * 0x400 + (lo - 0xDC00)) as char, 12))
  {
    assert t[0..6] == t[..6];
    UnicodeEscapeAt(t, 0, hi);
    UnicodeEscapeAt(t, 6, lo);
  }

  /** A `\uXXXX` escape written at offset `k` is read back at that offset. */
  lemma UnicodeEscapeAt(t: string, k: nat, n: int)
    requires 0 <= n < 0x10000
    requires k + 6 <= |t| && t[k..k + 6] == UnicodeEscape(n)
    ensures t[k] == '\\' && t[k + 1] == 'u' && HasHex4(t, k + 2) && Hex4At(t, k + 2) == n
  {
    var e := UnicodeEscape(n);
    assert forall i :: 0 <= i < 6 ==> t[k + i] == e[i];
  }

  /** The two surrogates together give back the code point. */
  lemma SurrogateArithmetic(n: int)
    requires 0x10000 <= n < 0x110000
    ensures 0x10000 + (HighSurrogate(n) - 0xD800) * 0x400 + (LowSurrogate(n) - 0xDC00) == n
  {
  }

  /** Decoding the escapes of a string gives the string back. */
  lemma {:induction false} DecodeEscapeAll(s: string)
    ensures DecodeBody(EscapeAll(s)) == Some(s)
  {
    if |s| > 0 {
      var e, rest := EscapeChar(s[0]), EscapeAll(s[1..]);
      DecodeUnitOfEscape(s[0], rest);
      assert (e + rest)[|e|..] == rest;
      DecodeEscapeAll(s[1..]);
      assert s == [s[0]] + s[1..];
    }
  }

  /** `json.loads(json.dumps(value)) == value`: the serialisation loses
      nothing. */
  lemma RoundTrip(value: string)
    ensures Loads(Dumps(value)) == Some(value)
  {
    var e := Dumps(value);
    assert e[1..|e| - 1] == EscapeAll(value);
    DecodeEscapeAll(value);
  }

  lemma {:induction false} EscapeAllAppend(a: string, b: string)
    ensures EscapeAll(a + b) == EscapeAll(a) + EscapeAll(b)
  {
    if |a| == 0 {
      assert a + b == b;
    } else {
      assert (a + b)[0] == a[0];
      assert (a + b)[1..] == a[1..] + b;
      EscapeAllAppend(a[1..], b);
    }
  }

  /** A value made only of printable ASCII other than `"` and `\` is
      copied between the quotes unchanged. */
  lemma {:induction false} EscapeAllPlain(s: string)
    requires IsPlain(s)
    ensures EscapeAll(s) == s
  {
    if |s| > 0 {
      EscapeAllPlain(s[1..]);
      assert s == [s[0]] + s[1..];
    }
  }

  /** Every character is printable ASCII other than `"` and `\`. */
  predicate IsPlain(s: string)
  {
    |s| == 0 || (IsPrintableAscii(s[0]) && s[0] != '"' && s[0] != '\\' && IsPlain(s[1..]))
  }

  /** A plain value is only surrounded by quotes. */
  lemma DumpsPlain(v: string)
    requires IsPlain(v)
    ensures Dumps(v) == "\"" + v + "\""
  {
    EscapeAllPlain(v);
  }

  /** Escaping a character followed by more text. */
  lemma EscapeAllCons(c: char, b: string)
    ensures EscapeAll([c] + b) == EscapeChar(c) + EscapeAll(b)
  {
    assert ([c] + b)[0] == c;
    assert ([c] + b)[1..] == b;
  }

  /** One special character between two plain runs: only that character
      is escaped. */
  lemma DumpsAround(a: string, c: char, b: string)
    requires IsPlain(a) && IsPlain(b)
    ensures Dumps(a + [c] + b) == "\"" + a + EscapeChar(c) + b + "\""
  {
    var e := EscapeChar(c);
    EscapeAllAround(a, c, b);
    Text.Associative(a, e, b);
    Text.Associative("\"", a + e, b);
    Text.Associative("\"", a, e);
  }

  /** A single character is its escape between quotes. */
  lemma DumpsChar(c: char)
    ensures Dumps([c]) == "\"" + EscapeChar(c) + "\""
  {
    EscapeAllCons(c, "");
    assert [c] + "" == [c];
  }

  lemma EscapeAllAround(a: string, c: char, b: string)
    requires IsPlain(a) && IsPlain(b)
    ensures EscapeAll(a + [c] + b) == a + (EscapeChar(c) + b)
  {
    calc {
      EscapeAll(a + [c] + b);
      { assert a + [c] + b == a + ([c] + b); }
      EscapeAll(a + ([c] + b));
      { EscapeAllAppend(a, [c] + b); }
      EscapeAll(a) + EscapeAll([c] + b);
      { EscapeAllCons(c, b); }
      EscapeAll(a) + (EscapeChar(c) + EscapeAll(b));
      { EscapeAllPlain(a); EscapeAllPlain(b); }
      a + (EscapeChar(c) + b);
    }
  }

  /** The test value with an embedded quote: `value"3` is written as
      `"value\"3"`. */
  lemma QuoteExample()
    ensures Dumps("value" + "\"" + "3") == "\"" + "value" + "\\\"" + "3" + "\""
  {
    DumpsAround("value", '"', "3");
  }

  /** An embedded newline becomes the two characters `\n`, not a line break. */
  lemma NewlineExample()
    ensures Dumps("a" + "\n" + "b") == "\"" + "a" + "\\n" + "b" + "\""
  {
    DumpsAround("a", '\n', "b");
  }

  /** Non-ASCII characters are `\u` escapes in lowercase hex. */
  lemma NonAsciiExample()
    ensures Dumps("\U{e9}") == "\"" + "\\u00e9" + "\""
  {
    var c := '\U{e9}';
    DumpsChar(c);
    assert EscapeChar(c) == UnicodeEscape(0xe9) by {
      assert !IsPrintableAscii(c);
    }
    HexExamples();
  }

  /** Above the Basic Multilingual Plane the escape is a UTF-16 surrogate pair. */
  lemma AstralExample()
    ensures Dumps("\U{1F600}") == "\"" + "\\ud83d" + "\\ude00" + "\""
  {
    var c := '\U{1F600}';
    DumpsChar(c);
    assert HighSurrogate(c as int) == 0xD83D && LowSurrogate(c as int) == 0xDE00;
    PairEscape(c);
    HexExamples();
    Text.Associative("\"", "\\ud83d", "\\ude00");
  }

  lemma HexExamples()
    ensures UnicodeEscape(0xe9) == "\\u00e9"
    ensures UnicodeEscape(0xD83D) == "\\ud83d"
    ensures UnicodeEscape(0xDE00) == "\\ude00"
  {
    assert 0xD83D / 0x1000 == 0xd && 0xD83D / 0x100 % 0x10 == 8 && 0xD83D / 0x10 % 0x10 == 3 && 0xD83D % 0x10 == 0xd;
    assert 0xDE00 / 0x1000 == 0xd && 0xDE00 / 0x100 % 0x10 == 0xe && 0xDE00 / 0x10 % 0x10 == 0 && 0xDE00 % 0x10 == 0;
    assert HexDigit(0xd) == 'd' && HexDigit(8) == '8' && HexDigit(3) == '3' && HexDigit(0xe) == 'e' && HexDigit(0) == '0' && HexDigit(9) == '9';
  }
}
