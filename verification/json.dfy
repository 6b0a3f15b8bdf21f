/**
  The two pieces of JSON that the request helper touches: whether
  `JSON.parse` accepts a text (the JSON-text grammar of ECMA-404, which
  `JSON.parse` of ECMA-262 follows), and `JSON.stringify` applied to a
  string (QuoteJSONString of ECMA-262).

  The recognizer reads a prefix of its input and returns what is left, or
  `None` where `JSON.parse` would throw `SyntaxError`.
 */
module Json {

  import opened Wrappers

  /** The four characters JSON counts as white space. */
  predicate IsWhitespace(c: char)
  {
    c == ' ' || c == '\t' || c == '\n' || c == '\r'
  }

  predicate IsDigit(c: char)
  {
    '0' <= c <= '9'
  }

  predicate IsHexDigit(c: char)
  {
    IsDigit(c) || ('a' <= c <= 'f') || ('A' <= c <= 'F')
  }

  function SkipWhitespace(s: string): (r: string)
    ensures |r| <= |s|
    ensures r == [] || !IsWhitespace(r[0])
  {
    if s != [] && IsWhitespace(s[0]) then SkipWhitespace(s[1..]) else s
  }

  function SkipDigits(s: string): (r: string)
    ensures |r| <= |s|
    ensures r == [] || !IsDigit(r[0])
  {
    if s != [] && IsDigit(s[0]) then SkipDigits(s[1..]) else s
  }

  /** An optional fraction: `.` and at least one digit. */
  function Fraction(s: string): (r: Option<string>)
    ensures r.Some? ==> |r.value| <= |s|
  {
    if s != [] && s[0] == '.' then
      if |s| > 1 && IsDigit(s[1]) then Some(SkipDigits(s[2..])) else None
    else Some(s)
  }

  /** An optional exponent: `e` or `E`, an optional sign, and at least one digit. */
  function Exponent(s: string): (r: Option<string>)
    ensures r.Some? ==> |r.value| <= |s|
  {
    if s != [] && (s[0] == 'e' || s[0] == 'E') then
      var t := if |s| > 1 && (s[1] == '+' || s[1] == '-') then s[2..] else s[1..];
      if t != [] && IsDigit(t[0]) then Some(SkipDigits(t[1..])) else None
    else Some(s)
  }

  /** A number: optional `-`, then `0` or a digit string not starting with `0`, fraction, exponent. */
  function Number(s: string): (r: Option<string>)
    ensures r.Some? ==> |r.value| < |s|
  {
    var t := if s != [] && s[0] == '-' then s[1..] else s;
    if t == [] || !IsDigit(t[0]) then None
    else
      var u := if t[0] == '0' then t[1..] else SkipDigits(t[1..]);
      match Fraction(u)
      case None => None
      case Some(v) => Exponent(v)
  }

  /**
    The rest of a string literal after its opening quote, up to and including
    the closing quote. Control characters must be escaped; the escapes are
    `\"`, `\\`, `\/`, `\b`, `\f`, `\n`, `\r`, `\t` and `\u` with four hex digits.
   */
  function StringBody(s: string): (r: Option<string>)
    ensures r.Some? ==> |r.value| < |s|
  {
    if s == [] then None
    else if s[0] == '"' then Some(s[1..])
    else if s[0] == '\\' then
      if |s| >= 2 && s[1] in "\"\\/bfnrt" then StringBody(s[2..])
      else if |s| >= 6 && s[1] == 'u' && IsHexDigit(s[2]) && IsHexDigit(s[3]) && IsHexDigit(s[4]) && IsHexDigit(s[5])
      then StringBody(s[6..])
      else None
    else if (s[0] as int) < 0x20 then None
    else StringBody(s[1..])
  }

  /** A value with no white space before it. */
  function Value(s: string): (r: Option<string>)
    ensures r.Some? ==> |r.value| < |s|
    decreases |s|, 0
  {
    if s == [] then None
    else if s[0] == '{' then ObjectBody(s[1..])
    else if s[0] == '[' then ArrayBody(s[1..])
    else if s[0] == '"' then StringBody(s[1..])
    else if "true" <= s then Some(s[4..])
    else if "false" <= s then Some(s[5..])
    else if "null" <= s then Some(s[4..])
    else Number(s)
  }

  /** A value with the white space around it. */
  function Element(s: string): (r: Option<string>)
    ensures r.Some? ==> |r.value| < |s|
    decreases |s|, 1
  {
    match Value(SkipWhitespace(s))
    case None => None
    case Some(t) => Some(SkipWhitespace(t))
  }

  /** One or more elements separated by `,`, then the closing `]`. */
  function Elements(s: string): (r: Option<string>)
    ensures r.Some? ==> |r.value| < |s|
    decreases |s|, 2
  {
    match Element(s)
    case None => None
    case Some(t) =>
      if t != [] && t[0] == ',' then Elements(t[1..])
      else if t != [] && t[0] == ']' then Some(t[1..])
      else None
  }

  /** An array after its `[`. */
  function ArrayBody(s: string): (r: Option<string>)
    ensures r.Some? ==> |r.value| < |s|
    decreases |s|, 3
  {
    var t := SkipWhitespace(s);
    if t != [] && t[0] == ']' then Some(t[1..]) else Elements(s)
  }

  /** One or more `"name": element` members separated by `,`, then the closing `}`. */
  function Members(s: string): (r: Option<string>)
    ensures r.Some? ==> |r.value| < |s|
    decreases |s|, 2
  {
    var t := SkipWhitespace(s);
    if t == [] || t[0] != '"' then None
    else match StringBody(t[1..])
      case None => None
      case Some(u) =>
        var v := SkipWhitespace(u);
        if v == [] || v[0] != ':' then None
        else match Element(v[1..])
          case None => None
          case Some(w) =>
            if w != [] && w[0] == ',' then Members(w[1..])
            else if w != [] && w[0] == '}' then Some(w[1..])
            else None
  }

  /** An object after its `{`. */
  function ObjectBody(s: string): (r: Option<string>)
    ensures r.Some? ==> |r.value| < |s|
    decreases |s|, 3
  {
    var t := SkipWhitespace(s);
    if t != [] && t[0] == '}' then Some(t[1..]) else Members(s)
  }

  /** `JSON.parse(s)` does not throw. */
  predicate IsJsonText(s: string)
  {
    Element(s) == Some([])
  }

  // JSON.stringify of a string

  const LowerHex: string := "0123456789abcdef"

  /** How QuoteJSONString writes one character. */
  function EscapeChar(c: char): (r: string)
  {
    var n := c as int;
    if c == '"' then "\\\""
    else if c == '\\' then "\\\\"
    else if n == 0x08 then "\\b"
    else if n == 0x09 then "\\t"
    else if n == 0x0A then "\\n"
    else if n == 0x0C then "\\f"
    else if n == 0x0D then "\\r"
    else if n < 0x20 then ['\\', 'u', '0', '0', LowerHex[n / 16], LowerHex[n % 16]]
    else [c]
  }

  function Escape(s: string): (r: string)
  {
    if s == [] then [] else EscapeChar(s[0]) + Escape(s[1..])
  }

  /** `JSON.stringify(s)` for a string `s`. */
  function Quote(s: string): (r: string)
  {
    "\"" + Escape(s) + "\""
  }

  /** Characters that `JSON.stringify` writes as themselves. */
  predicate NeedsNoEscape(c: char)
  {
    c != '"' && c != '\\' && (c as int) >= 0x20
  }

  lemma LowerHexDigit(d: nat)
    requires d < 16
    ensures IsHexDigit(LowerHex[d])
  {
    assert LowerHex == ['0', '1', '2', '3', '4', '5', '6', '7', '8', '9', 'a', 'b', 'c', 'd', 'e', 'f'];
  }

  /** The string reader steps over each escaped character. */
  lemma StringBodyEscapeChar(c: char, t: string)
    ensures StringBody(EscapeChar(c) + t) == StringBody(t)
  {
    var n := c as int;
    var s := EscapeChar(c) + t;
    if c == '"' || c == '\\' || n == 0x08 || n == 0x09 || n == 0x0A || n == 0x0C || n == 0x0D {
      assert s[2..] == t;
    } else if n < 0x20 {
      LowerHexDigit(n / 16);
      LowerHexDigit(n % 16);
      assert s[6..] == t;
    } else {
      assert s[1..] == t;
    }
  }

  /** The string reader reads an escaped text up to the closing quote. */
  lemma {:induction false} StringBodyEscape(s: string, t: string)
    ensures StringBody(Escape(s) + "\"" + t) == Some(t)
  {
    if s == [] {
      assert Escape(s) + "\"" + t == ['"'] + t;
      assert (['"'] + t)[1..] == t;
    } else {
      StringBodyEscape(s[1..], t);
      assert Escape(s) + "\"" + t == EscapeChar(s[0]) + (Escape(s[1..]) + "\"" + t);
      StringBodyEscapeChar(s[0], Escape(s[1..]) + "\"" + t);
    }
  }

  /** `JSON.parse` accepts whatever `JSON.stringify` makes of a string. */
  lemma QuoteIsJsonText(s: string)
    ensures IsJsonText(Quote(s))
  {
    var q := Quote(s);
    assert q == ['"'] + (Escape(s) + "\"" + []);
    StringBodyEscape(s, []);
    assert SkipWhitespace(q) == q;
    assert Value(q) == Some([]);
  }

  /** A string without quotes, backslashes or control characters is stringified by wrapping it in quotes. */
  lemma {:induction false} QuotePlain(s: string)
    requires forall i :: 0 <= i < |s| ==> NeedsNoEscape(s[i])
    ensures Escape(s) == s
    ensures Quote(s) == "\"" + s + "\""
  {
    if s != [] {
      QuotePlain(s[1..]);
      assert [s[0]] + s[1..] == s;
    }
  }

  /** What `JSON.stringify(undefined)` leaves in storage is not JSON text. */
  lemma UndefinedIsNotJsonText()
    ensures !IsJsonText("undefined")
  {
    assert Value("undefined") == None;
  }
}
