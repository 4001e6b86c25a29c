/**
  Base64 as section 4 of RFC 4648 defines it. `Decode` is the strict decoder
  and `Encode` its partner, used to state the round trip. `Lenient` (below)
  models the library call `base64.b64decode` that `base64_to_base32` makes,
  in its default mode, and gives the same bytes wherever `Decode` accepts.

  `Decode` is strict about the characters and the padding: the text must be a
  whole number of 4-character quanta, may end with at most two '=' characters,
  and every other character must be in the alphabet. Like the library decoder
  it does not insist that the bits left over by a padded final quantum are
  zero: they are dropped.
 */
module Base64 {

  import opened Wrappers
  import opened Bits

  const Upper: string := "ABCDEFGHIJKLMNOPQRSTUVWXYZ"
  const Lower: string := "abcdefghijklmnopqrstuvwxyz"

  /** A-Z, a-z, 0-9, '+', '/': the digits 0 to 63. */
  const Alphabet: string := Upper + Lower + "0123456789+/"

  /** The digit a base64 character stands for, or None for any other character (including '='). */
  function DigitValue(c: char): (r: Option<nat>)
    ensures r.Some? ==> r.value < 64
  {
    if 'A' <= c <= 'Z' then Some(c as int - 'A' as int)
    else if 'a' <= c <= 'z' then Some(c as int - 'a' as int + 26)
    else if '0' <= c <= '9' then Some(c as int - '0' as int + 52)
    else if c == '+' then Some(62)
    else if c == '/' then Some(63)
    else None
  }

  /** The number of '=' characters `s` ends with. */
  function TrailingPad(s: string): (n: nat)
    ensures n <= |s|
    ensures forall i :: |s| - n <= i < |s| ==> s[i] == '='
    ensures n < |s| ==> s[|s| - n - 1] != '='
  {
    if |s| > 0 && s[|s| - 1] == '=' then TrailingPad(s[..|s| - 1]) + 1 else 0
  }

  /**
    Base64 decoding as section 4 of RFC 4648 defines it: whole quanta of
    alphabet characters, the last one possibly completed by one or two '=';
    None when the length, the padding or a character is wrong.
   */
  function Decode(s: string): (r: Option<seq<Byte>>)
    ensures |s| % 4 != 0 ==> r.None?
    ensures r.Some? ==> |r.value| == |s| / 4 * 3 - TrailingPad(s)
  {
    var pad := TrailingPad(s);
    if |s| % 4 != 0 || pad > 2 then None
    else
      match Digits(s[..|s| - pad], DigitValue)
      case None => None
      case Some(vals) =>
        var bits := Unchunk(vals, 6);
        assert Pow2(8) == 256;
        Some(Pack(bits, 8))
  }

  /** The padded base64 text of `b`. */
  function Encode(b: seq<Byte>): (s: string)
    ensures |s| % 4 == 0
  {
    var digits := Chunks(Unchunk(b, 8), 6);
    AlphabetDigits();
    Spell(digits, Alphabet) + Padding(|digits|)
  }

  /** The '=' characters that complete `n` digits to a whole number of quanta. */
  function Padding(n: nat): (p: string)
    ensures (n + |p|) % 4 == 0 && |p| < 4
    ensures forall i :: 0 <= i < |p| ==> p[i] == '='
  {
    seq((4 - n % 4) % 4, _ => '=')
  }

  lemma AlphabetDigits()
    ensures |Alphabet| == 64
  {
  }

  /** Each digit value is spelled by the alphabet character at that position. */
  lemma AlphabetAt(i: nat)
    requires i < 64
    ensures |Alphabet| == 64
    ensures DigitValue(Alphabet[i]) == Some(i)
  {
    if i < 26 {
      UpperAt(i);
      assert Alphabet[i] == Upper[i];
    } else if i < 52 {
      LowerAt(i - 26);
      assert Alphabet[i] == Lower[i - 26];
    } else {
      var rest := "0123456789+/";
      assert Alphabet[i] == rest[i - 52];
    }
  }

  lemma UpperAt(i: nat)
    requires i < 26
    ensures |Upper| == 26 && Upper[i] as int == 'A' as int + i
  {
  }

  lemma LowerAt(i: nat)
    requires i < 26
    ensures |Lower| == 26 && Lower[i] as int == 'a' as int + i
  {
  }

  /** Decoding the padded encoding of any byte string gives that byte string back. */
  lemma RoundTrip(b: seq<Byte>)
    ensures Decode(Encode(b)) == Some(b)
  {
    var bits := Unchunk(b, 8);
    var digits := Chunks(bits, 6);
    PaddingShort(|bits|, digits);
    DecodeEncoded(digits);
    assert Encode(b) == Spell(digits, Alphabet) + Padding(|digits|);
    UnpackBytes(b);
  }

  /** Digit values spelled and padded to whole quanta decode to the bytes of those digits. */
  lemma DecodeEncoded(digits: seq<nat>)
    requires forall i :: 0 <= i < |digits| ==> digits[i] < 64
    requires |Padding(|digits|)| <= 2
    ensures |Alphabet| == 64
    ensures Decode(Spell(digits, Alphabet) + Padding(|digits|)) == Some(Pack(Unchunk(digits, 6), 8))
  {
    AlphabetReads(digits);
    DigitsOfSpelling(digits, Alphabet, DigitValue);
    var text := Spell(digits, Alphabet);
    var pad := Padding(|digits|);
    assert |text| == |digits|;
    DecodeSpelled(text, pad, digits);
  }

  /** Digits spelled in full quanta with their padding decode to the bytes of those digits. */
  lemma DecodeSpelled(text: string, pad: string, digits: seq<nat>)
    requires Digits(text, DigitValue) == Some(digits)
    requires |pad| <= 2 && (|text| + |pad|) % 4 == 0
    requires forall i :: 0 <= i < |pad| ==> pad[i] == '='
    ensures Decode(text + pad) == Some(Pack(Unchunk(digits, 6), 8))
  {
    TrailingPadAfter(text, pad);
    PaddedSlice(text, pad);
    DecodeOf(text + pad, |pad|, text, digits);
  }

  lemma PaddedSlice(text: string, pad: string)
    requires (|text| + |pad|) % 4 == 0
    ensures |text + pad| % 4 == 0 && (text + pad)[..|text + pad| - |pad|] == text
  {
    var s := text + pad;
    assert s[..|s| - |pad|] == text;
    QuantumOfSum(|s|, |text|, |pad|);
  }

  lemma QuantumOfSum(n: nat, a: nat, b: nat)
    requires n == a + b && (a + b) % 4 == 0
    ensures n % 4 == 0
  {
  }

  /** The strict decoder's success case, unfolded once. */
  lemma DecodeOf(s: string, pad: nat, t: string, vals: seq<nat>)
    requires pad == TrailingPad(s) && pad <= 2 && |s| % 4 == 0
    requires t == s[..|s| - pad] && Digits(t, DigitValue) == Some(vals)
    ensures Decode(s) == Some(Pack(Unchunk(vals, 6), 8))
  {
    assert Digits(s[..|s| - TrailingPad(s)], DigitValue) == Some(vals);
  }

  /** A byte string's bits need at most two '=' characters of padding. */
  lemma PaddingShort(n: nat, digits: seq<nat>)
    requires n % 8 == 0
    requires |digits| * 6 >= n > (|digits| - 1) * 6
    ensures |Padding(|digits|)| <= 2
  {
    assert |digits| % 4 != 1;
  }

  /** `DigitValue` reads the character for each digit value back as that value. */
  lemma AlphabetReads(digits: seq<nat>)
    requires forall i :: 0 <= i < |digits| ==> digits[i] < 64
    ensures |Alphabet| == 64
    ensures forall i :: 0 <= i < |digits| ==> DigitValue(Alphabet[digits[i]]) == Some(digits[i])
  {
    forall i | 0 <= i < |digits|
      ensures DigitValue(Alphabet[digits[i]]) == Some(digits[i])
    {
      AlphabetAt(digits[i]);
    }
  }


  /** The bytes are recovered from their 6-bit groups: fewer than 8 zero bits of filling are dropped. */
  lemma UnpackBytes(b: seq<Byte>)
    ensures Pack(Unchunk(Chunks(Unchunk(b, 8), 6), 6), 8) == b
  {
    var bits := Unchunk(b, 8);
    UnchunkChunks(bits, 6);
    var u := Unchunk(Chunks(bits, 6), 6);
    assert Pow2(8) == 256;
    PackUnchunk(b, Zeros(|u| - |bits|), 8);
  }

  lemma TrailingPadAfter(text: string, pad: string)
    requires forall i :: 0 <= i < |text| ==> DigitValue(text[i]).Some?
    requires forall i :: 0 <= i < |pad| ==> pad[i] == '='
    ensures TrailingPad(text + pad) == |pad|
    decreases |pad|
  {
    if |pad| == 0 {
      assert text + pad == text;
      assert |text| > 0 ==> DigitValue(text[|text| - 1]).Some?;
    } else {
      var s := text + pad;
      assert s[..|s| - 1] == text + pad[..|pad| - 1];
      TrailingPadAfter(text, pad[..|pad| - 1]);
    }
  }

  // ---------------------------------------------------------------------------
  // The library decoder in its default, non-validating mode

  /** What the library decoder has taken from a text: the digit values, and whether a padding sequence ended the input. */
  datatype Scanned = Scanned(digits: seq<nat>, stopped: bool)

  /**
    The character loop of the non-validating decoder, from a quantum position
    `quadPos` with `pads` '=' characters seen since the last digit. A character
    outside the alphabet is skipped. An '=' is skipped too unless it completes
    a padding sequence: once the quantum holds two digits and two '=' have
    followed, or three digits and one '=', decoding stops and the rest of the
    input is ignored.
   */
  function Scan(s: string, quadPos: nat, pads: nat): Scanned
    decreases |s|
  {
    if |s| == 0 then Scanned([], false)
    else if s[0] == '=' then
      if quadPos >= 2 && quadPos + pads + 1 >= 4 then Scanned([], true)
      else Scan(s[1..], quadPos, if quadPos >= 2 then pads + 1 else pads)
    else
      match DigitValue(s[0])
      case None => Scan(s[1..], quadPos, pads)
      case Some(v) =>
        var rest := Scan(s[1..], (quadPos + 1) % 4, 0);
        Scanned([v] + rest.digits, rest.stopped)
  }

  /**
    `base64.b64decode(s)` with its defaults: a text holding a non-ASCII
    character is refused; otherwise the digits are scanned as above, and the
    input is refused when it ends inside a quantum that no padding closed.
    The bits of an unfinished last quantum that do not fill a byte are dropped.
   */
  function Lenient(s: string): (r: Option<seq<Byte>>)
    ensures Decode(s).Some? ==> r == Decode(s)
  {
    LenientAgrees(s);
    LenientOf(s)
  }

  function LenientOf(s: string): Option<seq<Byte>> {
    if !IsAscii(s) then None
    else
      var scanned := Scan(s, 0, 0);
      if scanned.stopped || |scanned.digits| % 4 == 0 then
        assert Pow2(8) == 256;
        Some(Pack(Unchunk(scanned.digits, 6), 8))
      else None
  }

  predicate IsAscii(s: string) {
    forall i :: 0 <= i < |s| ==> s[i] as int < 128
  }

  /** Wherever the strict decoder accepts a text, the library decoder gives the same bytes. */
  lemma LenientAgrees(s: string)
    ensures Decode(s).Some? ==> LenientOf(s) == Decode(s)
  {
    if Decode(s).Some? {
      var pad := TrailingPad(s);
      var t, tail := s[..|s| - pad], s[|s| - pad..];
      var vals := StrictParts(s, t, tail);
      ScanStrict(t, tail, vals);
      LenientOfScanned(s, vals, |tail| > 0);
    }
  }

  /** A scan that stopped at padding, or took whole quanta, decodes to the bytes of its digits. */
  lemma LenientOfScanned(s: string, vals: seq<nat>, stopped: bool)
    requires IsAscii(s) && Scan(s, 0, 0) == Scanned(vals, stopped)
    requires stopped || |vals| % 4 == 0
    ensures LenientOf(s) == Some(Pack(Unchunk(vals, 6), 8))
  {
  }

  /** Digits followed by the '=' that complete their last quantum scan to those digits. */
  lemma ScanStrict(t: string, tail: string, vals: seq<nat>)
    requires Digits(t, DigitValue) == Some(vals)
    requires |tail| <= 2 && (|t| % 4 + |tail| == 4 || (|tail| == 0 && |t| % 4 == 0))
    requires forall i :: 0 <= i < |tail| ==> tail[i] == '='
    ensures Scan(t + tail, 0, 0) == Scanned(vals, |tail| > 0)
  {
    ScanPadding(tail, |t| % 4);
    DigitsValues(t, vals);
    ScanAllDigits(t, tail, vals, Scanned([], |tail| > 0));
    assert vals + [] == vals;
  }

  /** Digits read from the start of a quantum leave the scan at their number modulo 4. */
  lemma ScanAllDigits(t: string, rest: string, vals: seq<nat>, after: Scanned)
    requires ValuesOf(t, vals)
    requires after == Scan(rest, |t| % 4, 0)
    ensures Scan(t + rest, 0, 0) == Scanned(vals + after.digits, after.stopped)
  {
    QuadFromStart(|t|, |t| % 4);
    ScanDigits(t, rest, 0, vals, after);
  }

  /**
    A text the strict decoder accepts: ASCII digits `t` with values `vals`,
    then a `tail` of at most two '=' that completes the last quantum.
   */
  lemma StrictParts(s: string, t: string, tail: string) returns (vals: seq<nat>)
    requires Decode(s).Some?
    requires t == s[..|s| - TrailingPad(s)] && tail == s[|s| - TrailingPad(s)..]
    ensures s == t + tail && IsAscii(s)
    ensures |tail| <= 2 && (|t| % 4 + |tail| == 4 || (|tail| == 0 && |t| % 4 == 0))
    ensures forall i :: 0 <= i < |t| ==> DigitValue(t[i]).Some?
    ensures forall i :: 0 <= i < |tail| ==> tail[i] == '='
    ensures Digits(t, DigitValue) == Some(vals)
    ensures Decode(s) == Some(Pack(Unchunk(vals, 6), 8))
  {
    var pad := TrailingPad(s);
    vals := DecodeParts(s, t, pad);
    assert |t| == |s| - pad && |tail| == pad;
    PadQuantum(|s|, pad, |t|);
    assert s == t + tail;
    StrictAscii(s, t, pad);
  }

  /** What the strict decoder checks of a text it accepts. */
  lemma DecodeParts(s: string, t: string, pad: nat) returns (vals: seq<nat>)
    requires Decode(s).Some?
    requires pad == TrailingPad(s) && t == s[..|s| - pad]
    ensures |s| % 4 == 0 && pad <= 2
    ensures Digits(t, DigitValue) == Some(vals)
    ensures Decode(s) == Some(Pack(Unchunk(vals, 6), 8))
  {
    vals := Digits(t, DigitValue).value;
  }

  lemma StrictAscii(s: string, t: string, pad: nat)
    requires pad <= |s| && t == s[..|s| - pad]
    requires forall i :: 0 <= i < |t| ==> DigitValue(t[i]).Some?
    requires forall i :: |s| - pad <= i < |s| ==> s[i] == '='
    ensures IsAscii(s)
  {
    forall i | 0 <= i < |s| ensures s[i] as int < 128 {
      if i < |t| {
        assert s[i] == t[i];
        AsciiDigit(t[i]);
      }
    }
  }

  /** Removing at most two pad characters from whole quanta leaves a position that they complete. */
  lemma PadQuantum(n: nat, pad: nat, m: nat)
    requires n % 4 == 0 && pad <= 2 && m + pad == n
    ensures m % 4 + pad == 4 || (pad == 0 && m % 4 == 0)
  {
    if pad > 0 {
      DivModOfSum(n / 4 - 1, 4 - pad, 4);
      assert m == (n / 4 - 1) * 4 + (4 - pad);
    }
  }

  lemma AsciiDigit(c: char)
    requires DigitValue(c).Some?
    ensures c as int < 128
  {
  }

  /** Digits are all taken, in order, and leave the quantum position advanced by their number. */
  lemma {:induction false} ScanDigits(t: string, rest: string, quadPos: nat, vals: seq<nat>, after: Scanned)
    requires quadPos < 4 && ValuesOf(t, vals)
    requires after == Scan(rest, (quadPos + |t|) % 4, 0)
    ensures Scan(t + rest, quadPos, 0) == Scanned(vals + after.digits, after.stopped)
  {
    if |t| == 0 {
      assert t + rest == rest && vals == [];
      assert quadPos % 4 == quadPos;
    } else {
      DigitsFirst(t, vals);
      QuadStep(quadPos, |t|);
      ScanDigits(t[1..], rest, (quadPos + 1) % 4, vals[1..], after);
      ScanCons(t, rest, quadPos, vals[0], vals[1..] + after.digits, after.stopped);
      AppendFirst(vals, after.digits);
    }
  }

  /** `vals` are the digit values of the characters of `t`, one for one. */
  predicate ValuesOf(t: string, vals: seq<nat>) {
    |vals| == |t| && forall i :: 0 <= i < |t| ==> DigitValue(t[i]) == Some(vals[i])
  }

  /** The digit values `Digits` reads are those of the characters, one for one. */
  lemma DigitsValues(t: string, vals: seq<nat>)
    requires Digits(t, DigitValue) == Some(vals)
    ensures ValuesOf(t, vals)
  {
  }

  /** The values of a text of digits start with the value of its first character. */
  lemma DigitsFirst(t: string, vals: seq<nat>)
    requires |t| > 0 && ValuesOf(t, vals)
    ensures |vals| > 0 && DigitValue(t[0]) == Some(vals[0]) && ValuesOf(t[1..], vals[1..])
  {
    assert forall i :: 0 <= i < |t| - 1 ==> t[1..][i] == t[i + 1] && vals[1..][i] == vals[i + 1];
  }

  /** Taking the head off a sequence and putting it back before an append. */
  lemma AppendFirst(a: seq<nat>, b: seq<nat>)
    requires |a| > 0
    ensures [a[0]] + (a[1..] + b) == a + b
  {
  }

  /** The first digit of `t` is taken before the scan goes on into the rest of `t`. */
  lemma ScanCons(t: string, rest: string, quadPos: nat, v: nat, digits: seq<nat>, stopped: bool)
    requires |t| > 0 && quadPos < 4 && DigitValue(t[0]) == Some(v)
    requires Scan(t[1..] + rest, (quadPos + 1) % 4, 0) == Scanned(digits, stopped)
    ensures Scan(t + rest, quadPos, 0) == Scanned([v] + digits, stopped)
  {
    assert t + rest == [t[0]] + (t[1..] + rest);
    ScanDigit(t[0], v, t[1..] + rest, quadPos);
  }

  lemma QuadFromStart(n: nat, q: nat)
    requires q == n % 4
    ensures q == (0 + n) % 4
  {
  }

  lemma QuadStep(quadPos: nat, n: nat)
    requires quadPos < 4 && n >= 1
    ensures ((quadPos + 1) % 4 + (n - 1)) % 4 == (quadPos + n) % 4
  {
    if quadPos == 3 {
      assert (quadPos + 1) % 4 == 0;
      assert (quadPos + n) == (n - 1) + 4;
    } else {
      assert (quadPos + 1) % 4 == quadPos + 1;
    }
  }

  /** A digit is taken and advances the quantum position. */
  lemma ScanDigit(c: char, v: nat, rest: string, quadPos: nat)
    requires quadPos < 4 && DigitValue(c) == Some(v)
    ensures var after := Scan(rest, (quadPos + 1) % 4, 0);
      Scan([c] + rest, quadPos, 0) == Scanned([v] + after.digits, after.stopped)
  {
    var u := [c] + rest;
    assert u[0] == c != '=' && u[1..] == rest;
  }

  /** The padding the strict decoder allows ends the scan, or there is none and the quantum is complete. */
  lemma ScanPadding(tail: string, quadPos: nat)
    requires |tail| <= 2 && (quadPos + |tail| == 4 || (|tail| == 0 && quadPos == 0))
    requires forall i :: 0 <= i < |tail| ==> tail[i] == '='
    ensures Scan(tail, quadPos, 0) == Scanned([], |tail| > 0)
  {
    if |tail| == 2 {
      assert tail[1..][0] == '=';
    }
  }

  /** The scan stops at padding that closes a quantum: the digits after it are not taken. */
  lemma ScanStopsAtPadding()
    ensures Scan("QQ==QUJD", 0, 0) == Scanned([16, 16], true)
  {
    var s := "QQ==QUJD";
    assert s[3..][0] == '=' && Scan(s[3..], 2, 1) == Scanned([], true);
    assert s[2..][0] == '=' && s[2..][1..] == s[3..];
    assert Scan(s[2..], 2, 0) == Scanned([], true);
    assert s[1..][0] == 'Q' && s[1..][1..] == s[2..];
    assert Scan(s[1..], 1, 0) == Scanned([16], true);
  }

  /** The scan skips a '=' that comes at the start of a quantum. */
  lemma ScanSkipsPad()
    ensures Scan("QUJD=", 0, 0) == Scanned([16, 20, 9, 3], false)
  {
    var t := "QUJD=";
    assert Scan(t[4..], 0, 0) == Scanned([], false) by { assert t[4..][1..] == []; }
    assert t[3..][0] == 'D' && t[3..][1..] == t[4..];
    assert Scan(t[3..], 3, 0) == Scanned([3], false);
    assert t[2..][0] == 'J' && t[2..][1..] == t[3..];
    assert Scan(t[2..], 2, 0) == Scanned([9, 3], false);
    assert t[1..][0] == 'U' && t[1..][1..] == t[2..];
    assert Scan(t[1..], 1, 0) == Scanned([20, 9, 3], false);
  }

  /** The first example is refused by the strict decoder and taken by the library decoder. */
  lemma LenientExample()
    ensures Decode("QQ==QUJD").None? && Lenient("QQ==QUJD").Some?
  {
    StrictRefuses();
    LenientTakes();
  }

  lemma StrictRefuses()
    ensures Decode("QQ==QUJD").None?
  {
    var s := "QQ==QUJD";
    assert TrailingPad(s) == 0;
    assert s[..|s|] == s && DigitValue(s[2]).None?;
  }

  lemma LenientTakes()
    ensures LenientOf("QQ==QUJD").Some?
  {
    var s := "QQ==QUJD";
    ScanStopsAtPadding();
    assert IsAscii(s);
  }

  /** The library decoder also reads back every padded encoding. */
  lemma LenientRoundTrip(b: seq<Byte>)
    ensures Lenient(Encode(b)) == Some(b)
  {
    RoundTrip(b);
  }

  /** The scan loop skips a character outside the alphabet other than '=', wherever it stands (non-ASCII text is refused before the scan). */
  lemma {:induction false} ScanSkips(a: string, c: char, b: string, quadPos: nat, pads: nat)
    requires c != '=' && DigitValue(c).None?
    ensures Scan(a + [c] + b, quadPos, pads) == Scan(a + b, quadPos, pads)
    decreases |a|
  {
    var u, w := a + [c] + b, a + b;
    if |a| == 0 {
      assert u == [c] + b && u[0] == c && u[1..] == b && w == b;
    } else {
      assert u[0] == a[0] && w[0] == a[0];
      assert u[1..] == a[1..] + [c] + b && w[1..] == a[1..] + b;
      if a[0] == '=' {
        var pads' := if quadPos >= 2 then pads + 1 else pads;
        ScanSkips(a[1..], c, b, quadPos, pads');
      } else if DigitValue(a[0]).None? {
        ScanSkips(a[1..], c, b, quadPos, pads);
      } else {
        ScanSkips(a[1..], c, b, (quadPos + 1) % 4, 0);
      }
    }
  }

  /** Whatever follows the padding that closes the last quantum of some digits is not read. */
  lemma ScanStopsAfter(t: string, pad: string, rest: string)
    requires forall i :: 0 <= i < |t| ==> DigitValue(t[i]).Some?
    requires 1 <= |pad| <= 2 && |t| % 4 + |pad| == 4
    requires forall i :: 0 <= i < |pad| ==> pad[i] == '='
    ensures Scan(t + pad + rest, 0, 0) == Scan(t + pad, 0, 0)
  {
    var vals := Digits(t, DigitValue).value;
    ScanStrict(t, pad, vals);
    ScanPaddingRest(pad, rest, |t| % 4);
    DigitsValues(t, vals);
    ScanAllDigits(t, pad + rest, vals, Scanned([], true));
    assert t + pad + rest == t + (pad + rest);
    assert vals + [] == vals;
  }

  /** One or two '=' that close a quantum stop the scan, whatever follows them. */
  lemma ScanPaddingRest(pad: string, rest: string, quadPos: nat)
    requires 1 <= |pad| <= 2 && quadPos + |pad| == 4
    requires forall i :: 0 <= i < |pad| ==> pad[i] == '='
    ensures Scan(pad + rest, quadPos, 0) == Scanned([], true)
  {
    var u := pad + rest;
    assert u[0] == '=';
    if |pad| == 2 {
      assert u[1..][0] == '=';
    }
  }

  /**
    `b64decode` skips an ASCII character outside the alphabet other than '=',
    wherever it stands: removing it does not change the result.
   */
  lemma LenientSkips(a: string, c: char, b: string)
    requires c as int < 128 && c != '=' && DigitValue(c).None?
    ensures Lenient(a + [c] + b) == Lenient(a + b)
  {
    ScanSkips(a, c, b, 0, 0);
    AsciiSkips(a, c, b);
  }

  /** Dropping an ASCII character keeps a text ASCII or not ASCII. */
  lemma AsciiSkips(a: string, c: char, b: string)
    requires c as int < 128
    ensures IsAscii(a + [c] + b) <==> IsAscii(a + b)
  {
    var u, w := a + [c] + b, a + b;
    if IsAscii(w) {
      forall i | 0 <= i < |u|
        ensures u[i] as int < 128
      {
        if i > |a| {
          assert u[i] == w[i - 1];
        } else if i < |a| {
          assert u[i] == w[i];
        }
      }
    }
    if IsAscii(u) {
      forall i | 0 <= i < |w|
        ensures w[i] as int < 128
      {
        if i < |a| {
          assert w[i] == u[i];
        } else {
          assert w[i] == u[i + 1];
        }
      }
    }
  }

  /** `b64decode` refuses a text holding a non-ASCII character, wherever it stands. */
  lemma LenientRefusesNonAscii(s: string, i: nat)
    requires i < |s| && s[i] as int >= 128
    ensures Lenient(s) == None
  {
  }
}
