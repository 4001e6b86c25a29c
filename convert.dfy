/**
  `base64_to_base32` of the Microsoft Authenticator export script: decode a
  base64 secret and spell its bits in base32 through a bit accumulator.
 */
module Convert {

  import opened Wrappers
  import opened Bits
  import Base64
  import Base32

  /**
    What `base64_to_base32` returns: None when `b64decode` refuses the text,
    otherwise unpadded base32 text that decodes to the same bytes.
   */
  function Transcode(s: string): (r: Option<string>)
    ensures r.None? <==> Base64.Lenient(s).None?
    ensures r.Some? ==> Base32.Decode(r.value) == Base64.Lenient(s)
    ensures r.Some? ==> |r.value| == (8 * |Base64.Lenient(s).value| + 4) / 5
    ensures r.Some? ==> forall i :: 0 <= i < |r.value| ==> Base32.IsLetter(r.value[i])
  {
    match Base64.Lenient(s)
    case None => None
    case Some(bytes) =>
      Base32.RoundTrip(bytes);
      Some(Base32.Encode(bytes))
  }

  /**
    The state of the bit accumulator once the bits `consumed` have been
    shifted in: `bits` holds all of them, the last `bitCount` are still
    waiting, and `result` spells the ones before them in 5-bit groups.
   */
  ghost predicate Accumulated(consumed: seq<Bit>, bits: nat, bitCount: nat, result: string)
  {
    bitCount <= |consumed| && (|consumed| - bitCount) % 5 == 0
    && bits == Val(consumed)
    && result == Base32.Text(consumed[..|consumed| - bitCount])
  }

  /** `base64_to_base32`: decodes the base64 text, then re-encodes the bytes. */
  method Base64ToBase32(base64Str: string) returns (r: Option<string>)
    ensures r == Transcode(base64Str)
  {
    var decoded := Base64.Lenient(base64Str);
    if decoded.None? {
      return None;
    }
    var text := EncodeBytes(decoded.value);
    return Some(text);
  }

  /** The bit accumulator of `base64_to_base32`: 8 bits in per byte, 5 bits out while at least 5 wait. */
  method EncodeBytes(bytes: seq<Byte>) returns (text: string)
    ensures text == Base32.Encode(bytes)
  {
    Base32.AlphabetSize();
    var result: string := [];
    var bits: nat := 0;
    var bitCount: nat := 0;
    for i := 0 to |bytes|
      invariant bitCount < 5
      invariant Accumulated(Unchunk(bytes[..i], 8), bits, bitCount, result)
    {
      ghost var consumed := Unchunk(bytes[..i + 1], 8);
      ShiftInByte(bytes, i, bits, bitCount, result);
      // shift the byte in below the waiting bits
      bits := bits * 256 + bytes[i];
      bitCount := bitCount + 8;
      while bitCount >= 5
        invariant Accumulated(consumed, bits, bitCount, result)
        decreases bitCount
      {
        bitCount := bitCount - 5;
        // the five bits above the ones still waiting
        var index := Shr(bits, bitCount) % 32;
        EmitGroup(consumed, bits, bitCount, result);
        result := result + [Base32.Alphabet[index]];
      }
    }
    assert bytes[..|bytes|] == bytes;
    FlushGroup(Unchunk(bytes, 8), bits, bitCount, result);
    if bitCount > 0 {
      // the waiting bits, zero-filled on the low side to a group of five
      var index := Shl(bits, 5 - bitCount) % 32;
      result := result + [Base32.Alphabet[index]];
    }
    return result;
  }

  /** Shifting in the next byte keeps the accumulator state. */
  lemma ShiftInByte(bytes: seq<Byte>, i: nat, bits: nat, bitCount: nat, result: string)
    requires i < |bytes| && bitCount < 5
    requires Accumulated(Unchunk(bytes[..i], 8), bits, bitCount, result)
    ensures Accumulated(Unchunk(bytes[..i + 1], 8), bits * 256 + bytes[i], bitCount + 8, result)
  {
    var before := Unchunk(bytes[..i], 8);
    var after := before + NatBits(bytes[i], 8);
    UnchunkSnoc(bytes, i);
    ValByte(before, bytes[i]);
    assert after[..|after| - (bitCount + 8)] == before[..|before| - bitCount];
  }

  /** Emitting the group of five bits above the last `bitCount` waiting ones keeps the accumulator state. */
  lemma EmitGroup(consumed: seq<Bit>, bits: nat, bitCount: nat, result: string)
    requires Accumulated(consumed, bits, bitCount + 5, result)
    ensures Shr(bits, bitCount) % 32 < |Base32.Alphabet|
    ensures Accumulated(consumed, bits, bitCount, result + [Base32.Alphabet[Shr(bits, bitCount) % 32]])
  {
    GroupAbove(consumed, bitCount);
    TextGroup(consumed, bitCount);
  }

  /** The text of the bits up to the last `k` is the text up to five bits before, and the letter for those five. */
  lemma TextGroup(consumed: seq<Bit>, k: nat)
    requires k + 5 <= |consumed| && (|consumed| - k - 5) % 5 == 0
    ensures Val(consumed[|consumed| - k - 5..|consumed| - k]) < 32 == |Base32.Alphabet|
    ensures Base32.Text(consumed[..|consumed| - k])
         == Base32.Text(consumed[..|consumed| - k - 5]) + [Base32.Alphabet[Val(consumed[|consumed| - k - 5..|consumed| - k])]]
  {
    var n := |consumed|;
    var p, c := consumed[..n - k - 5], consumed[n - k - 5..n - k];
    assert consumed[..n - k] == p + c;
    assert c + Zeros(0) == c;
    Base32.AlphabetSize();
    Base32.TextSnoc(p, c);
  }

  /** Flushing the waiting bits, zero-filled, completes the base32 text of everything consumed. */
  lemma FlushGroup(consumed: seq<Bit>, bits: nat, bitCount: nat, result: string)
    requires bitCount < 5 && Accumulated(consumed, bits, bitCount, result)
    ensures Shl(bits, 5 - bitCount) % 32 < |Base32.Alphabet|
    ensures Base32.Text(consumed)
         == if bitCount > 0 then result + [Base32.Alphabet[Shl(bits, 5 - bitCount) % 32]] else result
  {
    var n := |consumed|;
    Base32.AlphabetSize();
    if bitCount == 0 {
      assert consumed[..n] == consumed;
    } else {
      var p, t := consumed[..n - bitCount], consumed[n - bitCount..];
      assert consumed == p + t;
      FlushText(p, t);
    }
  }

  /** The last, partial group is the waiting bits zero-filled on the low side. */
  lemma FlushText(p: seq<Bit>, t: seq<Bit>)
    requires |p| % 5 == 0 && 0 < |t| < 5
    ensures Shl(Val(p + t), 5 - |t|) % 32 < |Base32.Alphabet|
    ensures Base32.Text(p + t) == Base32.Text(p) + [Base32.Alphabet[Shl(Val(p + t), 5 - |t|) % 32]]
  {
    FlushValue(p, t);
    Base32.TextSnoc(p, t);
  }

  /** The waiting bits shifted up to a group of five: `(bits << (5 - k)) & 0x1F`. */
  lemma FlushValue(p: seq<Bit>, t: seq<Bit>)
    requires 0 < |t| < 5
    ensures Shl(Val(p + t), 5 - |t|) % 32 == Val(t + Zeros(5 - |t|))
  {
    var z := Zeros(5 - |t|);
    ShlVal(p + t, 5 - |t|);
    assert (p + t) + z == p + (t + z);
    LowFive(p + (t + z));
    assert (p + (t + z))[|p + (t + z)| - 5..] == t + z;
  }
}
