/**
  Percent-encoding of a URI component as `urllib.parse.quote` performs it with
  its default `safe='/'`: the text is encoded as UTF-8 (RFC 3629) and every
  byte other than an ASCII letter, digit, '_', '.', '-', '~' or '/' is written
  as '%' followed by two upper-case hexadecimal digits (section 2.1 of
  RFC 3986). `Unquote` is the percent-decoding a URI parser applies.
 */
module Percent {

  import opened Wrappers
  import opened Bits

  /** The UTF-8 encoding of one Unicode scalar value. */
  function Utf8(c: char): (r: seq<Byte>)
    ensures 1 <= |r| <= 4
    ensures c as int < 128 ==> r == [c as int]
    ensures c as int >= 128 ==> forall i :: 0 <= i < |r| ==> r[i] >= 128
  {
    var cp := c as int;
    if cp < 0x80 then [cp]
    else if cp < 0x800 then [0xC0 + cp / 64, 0x80 + cp % 64]
    else if cp < 0x1_0000 then [0xE0 + cp / 4096, 0x80 + (cp / 64) % 64, 0x80 + cp % 64]
    else [0xF0 + cp / 262144, 0x80 + (cp / 4096) % 64, 0x80 + (cp / 64) % 64, 0x80 + cp % 64]
  }

  function Utf8Encode(s: string): (r: seq<Byte>)
    ensures |r| >= |s|
    ensures |r| == 0 <==> |s| == 0
  {
    if |s| == 0 then [] else Utf8(s[0]) + Utf8Encode(s[1..])
  }

  /** The bytes `quote(s)` leaves as they are. */
  predicate IsSafe(b: Byte) {
    ('A' as int <= b <= 'Z' as int) || ('a' as int <= b <= 'z' as int) || ('0' as int <= b <= '9' as int)
    || b == '_' as int || b == '.' as int || b == '-' as int || b == '~' as int || b == '/' as int
  }

  predicate IsSafeChar(c: char) {
    c as int < 256 && IsSafe(c as int)
  }

  const HexDigits: string := "0123456789ABCDEF"

  /** The value of a hexadecimal digit of either case. */
  function HexValue(c: char): (r: Option<nat>)
    ensures r.Some? ==> r.value < 16
  {
    if '0' <= c <= '9' then Some(c as int - '0' as int)
    else if 'A' <= c <= 'F' then Some(c as int - 'A' as int + 10)
    else if 'a' <= c <= 'f' then Some(c as int - 'a' as int + 10)
    else None
  }

  lemma HexDigitAt(i: nat)
    requires i < 16
    ensures |HexDigits| == 16
    ensures HexValue(HexDigits[i]) == Some(i) && IsSafeChar(HexDigits[i])
  {
  }

  function QuoteByte(b: Byte): (r: string)
  {
    if IsSafe(b) then [b as char] else ['%', HexDigits[b / 16], HexDigits[b % 16]]
  }

  function QuoteBytes(bs: seq<Byte>): (r: string)
    ensures forall i :: 0 <= i < |r| ==> IsSafeChar(r[i]) || r[i] == '%'
  {
    if |bs| == 0 then []
    else
      var head := QuoteByte(bs[0]);
      assert forall i :: 0 <= i < |head| ==> IsSafeChar(head[i]) || head[i] == '%' by {
        if !IsSafe(bs[0]) {
          HexDigitAt(bs[0] / 16);
          HexDigitAt(bs[0] % 16);
        }
      }
      head + QuoteBytes(bs[1..])
  }

  /**
    `quote(s)`: every character of the result is safe or a '%'; in particular
    it holds no ':', '?', '&', '=' or line break.
   */
  function Quote(s: string): (r: string)
    ensures forall i :: 0 <= i < |r| ==> IsSafeChar(r[i]) || r[i] == '%'
    ensures ':' !in r && '?' !in r && '&' !in r && '=' !in r && '#' !in r && '+' !in r && '\n' !in r
  {
    QuoteBytes(Utf8Encode(s))
  }

  /** Percent-decoding: '%' and two hexadecimal digits stand for a byte, any other ASCII character for itself. */
  function Unquote(t: string): (r: Option<seq<Byte>>)
    decreases |t|
  {
    if |t| == 0 then Some([])
    else if t[0] == '%' then
      if |t| >= 3 && HexValue(t[1]).Some? && HexValue(t[2]).Some? then
        match Unquote(t[3..])
        case None => None
        case Some(rest) => Some([16 * HexValue(t[1]).value + HexValue(t[2]).value] + rest)
      else None
    else if t[0] as int < 128 then
      match Unquote(t[1..])
      case None => None
      case Some(rest) => Some([t[0] as int] + rest)
    else None
  }

  /** Percent-decoding undoes percent-encoding for every byte string. */
  lemma {:induction false} UnquoteQuoteBytes(bs: seq<Byte>)
    ensures Unquote(QuoteBytes(bs)) == Some(bs)
  {
    if |bs| > 0 {
      UnquoteQuoteBytes(bs[1..]);
      UnquoteAfterByte(bs[0], QuoteBytes(bs[1..]));
      assert bs == [bs[0]] + bs[1..];
    }
  }

  /** Decoding the encoding of one byte followed by more text. */
  lemma UnquoteAfterByte(b: Byte, t: string)
    ensures Unquote(QuoteByte(b) + t) == if Unquote(t).Some? then Some([b] + Unquote(t).value) else None
  {
    if IsSafe(b) {
      UnquoteAfterSafe(b, t);
    } else {
      UnquoteAfterEscape(b, t);
    }
  }

  lemma UnquoteAfterSafe(b: Byte, t: string)
    requires IsSafe(b)
    ensures Unquote([b as char] + t) == if Unquote(t).Some? then Some([b] + Unquote(t).value) else None
  {
    var u := [b as char] + t;
    assert u[0] == b as char && u[1..] == t;
  }

  lemma UnquoteAfterEscape(b: Byte, t: string)
    ensures Unquote(['%', HexDigits[b / 16], HexDigits[b % 16]] + t)
         == if Unquote(t).Some? then Some([b] + Unquote(t).value) else None
  {
    HexPair(b);
    UnquoteEscape(HexDigits[b / 16], HexDigits[b % 16], b, t);
  }

  /** An escape followed by more text decodes to the escaped byte, then the rest. */
  lemma UnquoteEscape(hi: char, lo: char, b: Byte, t: string)
    requires HexValue(hi).Some? && HexValue(lo).Some? && 16 * HexValue(hi).value + HexValue(lo).value == b
    ensures Unquote(['%', hi, lo] + t) == if Unquote(t).Some? then Some([b] + Unquote(t).value) else None
  {
    var u := ['%', hi, lo] + t;
    assert u[0] == '%' && u[1] == hi && u[2] == lo && u[3..] == t;
  }

  /** The two digits of an escape read back as the byte. */
  lemma HexPair(b: Byte)
    ensures |HexDigits| == 16 && b / 16 < 16
    ensures HexValue(HexDigits[b / 16]).Some? && HexValue(HexDigits[b % 16]).Some?
    ensures 16 * HexValue(HexDigits[b / 16]).value + HexValue(HexDigits[b % 16]).value == b
  {
    HexDigitAt(b / 16);
    HexDigitAt(b % 16);
  }

  /** A URI parser gets back the UTF-8 bytes of the text `quote` was given. */
  lemma UnquoteQuote(s: string)
    ensures Unquote(Quote(s)) == Some(Utf8Encode(s))
  {
    UnquoteQuoteBytes(Utf8Encode(s));
  }

  /** `quote` leaves a text made of safe ASCII characters as it is. */
  lemma {:induction false} QuoteSafe(s: string)
    requires forall i :: 0 <= i < |s| ==> IsSafeChar(s[i]) && s[i] as int < 128
    ensures Quote(s) == s
  {
    if |s| > 0 {
      QuoteSafe(s[1..]);
      assert Utf8Encode(s) == [s[0] as int] + Utf8Encode(s[1..]);
      assert QuoteBytes(Utf8Encode(s)) == [s[0]] + QuoteBytes(Utf8Encode(s[1..]));
    }
  }

  /** Percent-decoding a concatenation decodes the parts. */
  lemma {:induction false} UnquoteAppend(a: string, b: string)
    requires Unquote(a).Some? && Unquote(b).Some?
    ensures Unquote(a + b) == Some(Unquote(a).value + Unquote(b).value)
    decreases |a|
  {
    if |a| == 0 {
      assert a + b == b;
      assert Unquote(a).value + Unquote(b).value == Unquote(b).value;
    } else if a[0] == '%' {
      assert (a + b)[0] == '%' && (a + b)[1] == a[1] && (a + b)[2] == a[2];
      assert (a + b)[3..] == a[3..] + b;
      UnquoteAppend(a[3..], b);
      var x, y := Unquote(a[3..]).value, Unquote(b).value;
      var v := 16 * HexValue(a[1]).value + HexValue(a[2]).value;
      assert [v] + (x + y) == ([v] + x) + y;
    } else {
      assert (a + b)[0] == a[0];
      assert (a + b)[1..] == a[1..] + b;
      UnquoteAppend(a[1..], b);
      var x, y := Unquote(a[1..]).value, Unquote(b).value;
      assert [a[0] as int] + (x + y) == ([a[0] as int] + x) + y;
    }
  }

  lemma {:induction false} Utf8Append(a: string, b: string)
    ensures Utf8Encode(a + b) == Utf8Encode(a) + Utf8Encode(b)
  {
    if |a| == 0 {
      assert a + b == b;
    } else {
      assert (a + b)[1..] == a[1..] + b;
      Utf8Append(a[1..], b);
    }
  }
}
