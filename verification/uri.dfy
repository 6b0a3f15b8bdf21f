/**
  `encodeURIComponent` of ECMA-262 (section "URI Handling Functions"): every
  character outside the unreserved set of RFC 3986 section 2.3 and the marks
  `!*'()` is written as the UTF-8 octets of its code point, each as `%` and
  two upper-case hexadecimal digits (RFC 3986 section 2.1).
 */
module Uri {

  import opened Wrappers

  type Byte = b: int | 0 <= b < 256

  /** The characters `encodeURIComponent` leaves as they are. */
  predicate IsUnreserved(c: char)
  {
    || ('A' <= c <= 'Z')
    || ('a' <= c <= 'z')
    || ('0' <= c <= '9')
    || c in "-_.!~*'()"
  }

  /** What can appear in the output of `encodeURIComponent`. */
  ghost predicate IsEncoded(s: string)
  {
    forall i :: 0 <= i < |s| ==> IsUnreserved(s[i]) || s[i] == '%'
  }

  const UpperHex: string := "0123456789ABCDEF"

  /** The UTF-8 octets of a Unicode scalar value (RFC 3629 section 3). */
  function Utf8(c: char): (bytes: seq<Byte>)
    ensures 1 <= |bytes| <= 4
  {
    var n := c as int;
    if n < 0x80 then [n]
    else if n < 0x800 then [0xC0 + n / 0x40, 0x80 + n % 0x40]
    else if n < 0x1_0000 then [0xE0 + n / 0x1000, 0x80 + n / 0x40 % 0x40, 0x80 + n % 0x40]
    else [0xF0 + n / 0x4_0000, 0x80 + n / 0x1000 % 0x40, 0x80 + n / 0x40 % 0x40, 0x80 + n % 0x40]
  }

  /** One octet as `%HH`. */
  function PercentByte(b: Byte): (r: string)
  {
    ['%', UpperHex[b / 16], UpperHex[b % 16]]
  }

  function PercentBytes(bytes: seq<Byte>): (r: string)
    ensures |r| == 3 * |bytes|
    ensures IsEncoded(r)
  {
    if bytes == [] then [] else PercentByte(bytes[0]) + PercentBytes(bytes[1..])
  }

  function EncodeChar(c: char): (r: string)
    ensures r != []
    ensures IsEncoded(r)
  {
    if IsUnreserved(c) then [c] else PercentBytes(Utf8(c))
  }

  /** `encodeURIComponent(s)`. */
  function EncodeURIComponent(s: string): (r: string)
    ensures IsEncoded(r)
    ensures |r| >= |s|
  {
    if s == [] then [] else EncodeChar(s[0]) + EncodeURIComponent(s[1..])
  }

  /** Encoded text never holds the query delimiters `&`, `=` and `?`. */
  lemma EncodedHasNoDelimiters(s: string)
    requires IsEncoded(s)
    ensures '&' !in s && '=' !in s && '?' !in s
  {
  }

  // decodeURIComponent, the inverse the query's reader applies

  /** The value of a hexadecimal digit of either case. */
  function HexValue(c: char): (r: Option<nat>)
    ensures r.Some? ==> r.value < 16
  {
    if '0' <= c <= '9' then Some(c as int - '0' as int)
    else if 'A' <= c <= 'F' then Some(c as int - 'A' as int + 10)
    else if 'a' <= c <= 'f' then Some(c as int - 'a' as int + 10)
    else None
  }

  /** The octet written as `%HH` at the head of `s`, and what follows it. */
  function ReadByte(s: string): (r: Option<(Byte, string)>)
    ensures r.Some? ==> |r.value.1| == |s| - 3
  {
    if |s| < 3 || s[0] != '%' then None
    else match (HexValue(s[1]), HexValue(s[2]))
      case (Some(hi), Some(lo)) => Some((hi * 16 + lo, s[3..]))
      case _ => None
  }

  /** `count` continuation octets `10xxxxxx`, each written as `%HH`. */
  function ReadContinuations(s: string, count: nat): (r: Option<(seq<Byte>, string)>)
    ensures r.Some? ==> |r.value.0| == count && |r.value.1| == |s| - 3 * count
    ensures r.Some? ==> forall i :: 0 <= i < count ==> 0x80 <= r.value.0[i] < 0xC0
  {
    if count == 0 then Some(([], s))
    else match ReadByte(s)
      case None => None
      case Some((b, rest)) =>
        if b < 0x80 || 0xC0 <= b then None
        else match ReadContinuations(rest, count - 1)
          case None => None
          case Some((bs, tail)) => Some(([b] + bs, tail))
  }

  /** The number of octets a UTF-8 sequence with leading octet `b` has; 0 if `b` cannot lead one. */
  function SequenceLength(b: Byte): (n: nat)
    ensures n == 0 || 2 <= n <= 4
  {
    if 0xC0 <= b < 0xE0 then 2
    else if 0xE0 <= b < 0xF0 then 3
    else if 0xF0 <= b < 0xF8 then 4
    else 0
  }

  /** The code point a multi-octet UTF-8 sequence spells, before range checks. */
  function CodePoint(lead: Byte, conts: seq<Byte>): int
    requires 1 <= |conts| <= 3
  {
    if |conts| == 1 then (lead as int - 0xC0) * 0x40 + (conts[0] as int - 0x80)
    else if |conts| == 2 then
      (lead as int - 0xE0) * 0x1000 + (conts[0] as int - 0x80) * 0x40 + (conts[1] as int - 0x80)
    else
      (lead as int - 0xF0) * 0x4_0000 + (conts[0] as int - 0x80) * 0x1000
      + (conts[1] as int - 0x80) * 0x40 + (conts[2] as int - 0x80)
  }

  /** The least code point that needs `n` octets: anything smaller is an overlong form. */
  function MinCodePoint(n: nat): int
  {
    if n == 2 then 0x80 else if n == 3 then 0x800 else 0x1_0000
  }

  /** `decodeURIComponent(s)`; `None` where it throws `URIError`. */
  function DecodeURIComponent(s: string): (r: Option<string>)
    decreases |s|
  {
    if s == [] then Some([])
    else if s[0] != '%' then
      match DecodeURIComponent(s[1..])
      case None => None
      case Some(t) => Some([s[0]] + t)
    else match ReadByte(s)
      case None => None
      case Some((lead, rest)) =>
        if lead < 0x80 then
          match DecodeURIComponent(rest)
          case None => None
          case Some(t) => Some([lead as char] + t)
        else
          var n := SequenceLength(lead);
          if n == 0 then None
          else match ReadContinuations(rest, n - 1)
            case None => None
            case Some((conts, tail)) =>
              var cp := CodePoint(lead, conts);
              if cp < MinCodePoint(n) || (0xD800 <= cp < 0xE000) || 0x11_0000 <= cp then None
              else match DecodeURIComponent(tail)
                case None => None
                case Some(t) => Some([cp as char] + t)
  }

  lemma HexDigitValue(d: nat)
    requires d < 16
    ensures HexValue(UpperHex[d]) == Some(d)
  {
    assert UpperHex == ['0', '1', '2', '3', '4', '5', '6', '7', '8', '9', 'A', 'B', 'C', 'D', 'E', 'F'];
  }

  lemma ReadPercentByte(b: Byte, t: string)
    ensures ReadByte(PercentByte(b) + t) == Some((b, t))
  {
    HexDigitValue(b / 16);
    HexDigitValue(b % 16);
    assert (PercentByte(b) + t)[3..] == t;
  }

  lemma {:induction false} ReadPercentContinuations(conts: seq<Byte>, t: string)
    requires forall i :: 0 <= i < |conts| ==> 0x80 <= conts[i] < 0xC0
    ensures ReadContinuations(PercentBytes(conts) + t, |conts|) == Some((conts, t))
  {
    if conts != [] {
      var rest := PercentBytes(conts[1..]) + t;
      assert PercentBytes(conts) + t == PercentByte(conts[0]) + rest;
      ReadPercentByte(conts[0], rest);
      ReadPercentContinuations(conts[1..], t);
      assert ReadContinuations(rest, |conts| - 1) == Some((conts[1..], t));
      assert [conts[0]] + conts[1..] == conts;
    } else {
      assert PercentBytes(conts) + t == t;
    }
  }

  lemma ThreeOctets(n: int)
    requires 0x800 <= n < 0x1_0000
    ensures n == n / 0x1000 * 0x1000 + n / 0x40 % 0x40 * 0x40 + n % 0x40
  {
    var q := n / 0x40;
    assert n == q * 0x40 + n % 0x40;
    assert q == q / 0x40 * 0x40 + q % 0x40;
    assert q / 0x40 == n / 0x1000;
  }

  lemma FourOctets(n: int)
    requires 0x1_0000 <= n < 0x11_0000
    ensures n == n / 0x4_0000 * 0x4_0000 + n / 0x1000 % 0x40 * 0x1000 + n / 0x40 % 0x40 * 0x40 + n % 0x40
  {
    var q := n / 0x40;
    var p := q / 0x40;
    assert n == q * 0x40 + n % 0x40;
    assert q == p * 0x40 + q % 0x40;
    assert p == p / 0x40 * 0x40 + p % 0x40;
    assert p == n / 0x1000;
    assert p / 0x40 == n / 0x4_0000;
  }

  /** Each UTF-8 form that `Utf8` produces is one the decoder reads back as the same code point. */
  lemma Utf8Decodes(c: char)
    ensures var bytes := Utf8(c);
      if |bytes| == 1 then bytes[0] == c as int
      else
        && SequenceLength(bytes[0]) == |bytes|
        && (forall i :: 1 <= i < |bytes| ==> 0x80 <= bytes[i] < 0xC0)
        && CodePoint(bytes[0], bytes[1..]) == c as int
        && MinCodePoint(|bytes|) <= c as int
  {
    var n := c as int;
    if 0x800 <= n < 0x1_0000 {
      ThreeOctets(n);
    } else if 0x1_0000 <= n {
      FourOctets(n);
    }
  }

  /** The decoder's step on a character that was encoded as `%HH` octets. */
  lemma DecodePercentSequence(lead: Byte, conts: seq<Byte>, t: string, c: char)
    requires 0x80 <= lead
    requires SequenceLength(lead) == |conts| + 1
    requires forall i :: 0 <= i < |conts| ==> 0x80 <= conts[i] < 0xC0
    requires CodePoint(lead, conts) == c as int && MinCodePoint(|conts| + 1) <= c as int
    ensures DecodeURIComponent(PercentByte(lead) + (PercentBytes(conts) + t)) ==
      match DecodeURIComponent(t)
      case None => None
      case Some(u) => Some([c] + u)
  {
    var rest := PercentBytes(conts) + t;
    ReadPercentByte(lead, rest);
    ReadPercentContinuations(conts, t);
    DecodeSequenceStep(PercentByte(lead) + rest, lead, rest, conts, t, c);
  }

  /** The decoder's step on a well-formed multi-octet sequence, whatever text it stands in. */
  lemma DecodeSequenceStep(s: string, lead: Byte, rest: string, conts: seq<Byte>, t: string, c: char)
    requires ReadByte(s) == Some((lead, rest))
    requires 0x80 <= lead && SequenceLength(lead) == |conts| + 1
    requires ReadContinuations(rest, |conts|) == Some((conts, t))
    requires CodePoint(lead, conts) == c as int && MinCodePoint(|conts| + 1) <= c as int
    ensures DecodeURIComponent(s) ==
      match DecodeURIComponent(t)
      case None => None
      case Some(u) => Some([c] + u)
  {
    assert s[0] == '%';
    assert (c as int) as char == c;
  }

  /** The decoder's step on a character written as itself. */
  lemma DecodePlainChar(c: char, t: string)
    requires c != '%'
    ensures DecodeURIComponent([c] + t) ==
      match DecodeURIComponent(t)
      case None => None
      case Some(u) => Some([c] + u)
  {
    assert ([c] + t)[1..] == t;
  }

  /** The decoder's step on a character below 0x80 written as one `%HH`. */
  lemma DecodePercentAscii(b: Byte, t: string)
    requires b < 0x80
    ensures DecodeURIComponent(PercentByte(b) + t) ==
      match DecodeURIComponent(t)
      case None => None
      case Some(u) => Some([b as char] + u)
  {
    ReadPercentByte(b, t);
  }

  lemma DecodeEncodedChar(c: char, t: string)
    ensures DecodeURIComponent(EncodeChar(c) + t) ==
      match DecodeURIComponent(t)
      case None => None
      case Some(u) => Some([c] + u)
  {
    if IsUnreserved(c) {
      DecodePlainChar(c, t);
    } else {
      var bytes := Utf8(c);
      Utf8Decodes(c);
      var rest := PercentBytes(bytes[1..]) + t;
      assert EncodeChar(c) + t == PercentByte(bytes[0]) + rest;
      if |bytes| == 1 {
        DecodePercentAscii(bytes[0], t);
        assert rest == t;
      } else {
        DecodePercentSequence(bytes[0], bytes[1..], t, c);
      }
    }
  }

  /** `decodeURIComponent` undoes `encodeURIComponent`. */
  lemma {:induction false} DecodeEncode(s: string)
    ensures DecodeURIComponent(EncodeURIComponent(s)) == Some(s)
  {
    if s != [] {
      DecodeEncode(s[1..]);
      DecodeEncodedChar(s[0], EncodeURIComponent(s[1..]));
      assert [s[0]] + s[1..] == s;
    }
  }

  /** Different texts have different encodings. */
  lemma EncodeInjective(a: string, b: string)
    requires EncodeURIComponent(a) == EncodeURIComponent(b)
    ensures a == b
  {
    DecodeEncode(a);
    DecodeEncode(b);
  }
}
