/**
  Unpadded base32 as section 6 of RFC 4648 defines it: the text that
  `base64_to_base32` is meant to produce (`Encode`), and the decoder an
  authenticator applies to the `secret` parameter (`Decode`).
 */
module Base32 {

  import opened Wrappers
  import opened Bits

  /** The alphabet `base64_to_base32` indexes: the digits 0 to 31. */
  const Alphabet: string := "ABCDEFGHIJKLMNOPQRSTUVWXYZ234567"

  /** The digit a base32 character stands for, or None for any other character (including '='). */
  function DigitValue(c: char): (r: Option<nat>)
    ensures r.Some? ==> r.value < 32
  {
    if 'A' <= c <= 'Z' then Some(c as int - 'A' as int)
    else if '2' <= c <= '7' then Some(c as int - '2' as int + 26)
    else None
  }

  /** The characters of the alphabet: upper-case letters and the digits 2 to 7 (so never the pad '='). */
  predicate IsLetter(c: char) {
    'A' <= c <= 'Z' || '2' <= c <= '7'
  }

  /** `IsLetter` picks out exactly the characters of the alphabet. */
  lemma LetterInAlphabet(c: char)
    ensures IsLetter(c) <==> c in Alphabet
  {
    if c in Alphabet {
      var k :| 0 <= k < |Alphabet| && Alphabet[k] == c;
      AlphabetAt(k);
    }
    if IsLetter(c) {
      var k := DigitValue(c).value;
      AlphabetAt(k);
    }
  }

  /** The letter at position i of the alphabet stands for the digit i. */
  lemma AlphabetAt(i: nat)
    requires i < 32
    ensures |Alphabet| == 32
    ensures DigitValue(Alphabet[i]) == Some(i)
  {
  }

  lemma AlphabetSize()
    ensures |Alphabet| == 32 == Pow2(5)
  {
  }

  /** The base32 letters for a bit string: 5-bit groups, the last one zero-filled on its low side. */
  function Text(bits: seq<Bit>): (s: string)
    ensures |s| == (|bits| + 4) / 5
    ensures forall i :: 0 <= i < |s| ==> IsLetter(s[i])
  {
    AlphabetSize();
    SpelledInAlphabet(Chunks(bits, 5));
    Spell(Chunks(bits, 5), Alphabet)
  }

  lemma SpelledInAlphabet(digits: seq<nat>)
    requires forall i :: 0 <= i < |digits| ==> digits[i] < 32
    ensures |Alphabet| == 32
    ensures var s := Spell(digits, Alphabet);
      forall i :: 0 <= i < |s| ==> IsLetter(s[i])
  {
    var s := Spell(digits, Alphabet);
    forall i | 0 <= i < |s| ensures IsLetter(s[i]) {
      AlphabetAt(digits[i]);
    }
  }

  /** The unpadded base32 text of `b`: ceil(8n/5) letters of the alphabet. */
  function Encode(b: seq<Byte>): (s: string)
    ensures |s| == (8 * |b| + 4) / 5
    ensures forall i :: 0 <= i < |s| ==> IsLetter(s[i])
  {
    Text(Unchunk(b, 8))
  }

  /** Extending a whole number of groups by up to five bits adds one letter: their zero-filled value. */
  lemma TextSnoc(p: seq<Bit>, c: seq<Bit>)
    requires |p| % 5 == 0 && 0 < |c| <= 5
    ensures Val(c + Zeros(5 - |c|)) < 32
    ensures Text(p + c) == Text(p) + [Alphabet[Val(c + Zeros(5 - |c|))]]
  {
    AlphabetSize();
    ChunksSnoc(p, c, 5);
    SpellSnoc(Chunks(p, 5), Val(c + Zeros(5 - |c|)));
  }

  lemma SpellSnoc(before: seq<nat>, v: nat)
    requires forall i :: 0 <= i < |before| ==> before[i] < 32
    requires v < 32
    ensures |Alphabet| == 32 && Spell(before + [v], Alphabet) == Spell(before, Alphabet) + [Alphabet[v]]
  {
    AlphabetSize();
    SpellAppend(before, [v], Alphabet);
  }

  /** The bytes an unpadded base32 text stands for; bits that do not fill a byte are dropped. */
  function Decode(s: string): (r: Option<seq<Byte>>)
    ensures r.Some? <==> forall i :: 0 <= i < |s| ==> IsLetter(s[i])
    ensures r.Some? ==> |r.value| == 5 * |s| / 8
  {
    match Digits(s, DigitValue)
    case None => None
    case Some(vals) =>
      assert Pow2(8) == 256;
      Some(Pack(Unchunk(vals, 5), 8))
  }

  /** `DigitValue` reads the letter for each digit value back as that value. */
  lemma AlphabetReads(digits: seq<nat>)
    requires forall i :: 0 <= i < |digits| ==> digits[i] < 32
    ensures |Alphabet| == 32
    ensures forall i :: 0 <= i < |digits| ==> DigitValue(Alphabet[digits[i]]) == Some(digits[i])
  {
    forall i | 0 <= i < |digits|
      ensures DigitValue(Alphabet[digits[i]]) == Some(digits[i])
    {
      AlphabetAt(digits[i]);
    }
  }


  /**
    The final partial group is zero-filled on its low side: the bits the text
    spells are the bits of `b` followed by fewer than five zero bits.
   */
  lemma ZeroFilled(b: seq<Byte>)
    ensures var digits := Digits(Encode(b), DigitValue);
      digits.Some? &&
      var bits := Unchunk(digits.value, 5);
      |bits| - 8 * |b| < 5 &&
      bits == Unchunk(b, 8) + Zeros(|bits| - 8 * |b|)
  {
    AlphabetSize();
    var digits := Chunks(Unchunk(b, 8), 5);
    AlphabetReads(digits);
    DigitsOfSpelling(digits, Alphabet, DigitValue);
    UnchunkChunks(Unchunk(b, 8), 5);
  }

  /** Decoding the base32 text of any byte string gives that byte string back. */
  lemma RoundTrip(b: seq<Byte>)
    ensures Decode(Encode(b)) == Some(b)
  {
    ZeroFilled(b);
    var bits := Unchunk(Digits(Encode(b), DigitValue).value, 5);
    assert Pow2(8) == 256;
    PackUnchunk(b, Zeros(|bits| - 8 * |b|), 8);
  }
}
