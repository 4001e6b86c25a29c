/**
  Bit strings and their big-endian values: the vocabulary shared by the base64
  and base32 codecs and by the bit accumulator of the exporter.

  A byte string is turned into bits with `Unchunk(bytes, 8)`; a base-2^w text
  is the sequence `Chunks(bits, w)` of w-bit digits, the last one filled with
  zero bits on its low side; `Pack(bits, 8)` turns bits back into bytes,
  dropping an incomplete trailing group.
 */
module Bits {

  import opened Wrappers

  type Bit = x: int | 0 <= x < 2

  type Byte = x: int | 0 <= x < 256

  function Pow2(k: nat): (r: nat)
    ensures r >= 1
  {
    if k == 0 then 1 else 2 * Pow2(k - 1)
  }

  /** `x >> k`: k halvings, each dropping the low bit. */
  function Shr(x: nat, k: nat): nat {
    if k == 0 then x else Shr(x / 2, k - 1)
  }

  /** `x << k`: k doublings, each bringing in a zero bit. */
  function Shl(x: nat, k: nat): nat
    decreases k
  {
    if k == 0 then x else Shl(2 * x, k - 1)
  }

  /** The value of `s` read as a big-endian binary numeral. */
  function Val(s: seq<Bit>): (r: nat)
    ensures r < Pow2(|s|)
  {
    if |s| == 0 then 0 else 2 * Val(s[..|s| - 1]) + s[|s| - 1]
  }

  /** The `k` low bits of `x`, most significant first. */
  function NatBits(x: nat, k: nat): (r: seq<Bit>)
    ensures |r| == k
  {
    if k == 0 then [] else NatBits(x / 2, k - 1) + [x % 2]
  }

  function Zeros(k: nat): (r: seq<Bit>)
    ensures |r| == k
    ensures forall i :: 0 <= i < k ==> r[i] == 0
  {
    seq(k, _ => 0)
  }

  /** The w-bit groups of `bits`; a final partial group is zero-filled on its low side. */
  function Chunks(bits: seq<Bit>, w: nat): (r: seq<nat>)
    requires w > 0
    ensures |r| * w >= |bits| > (|r| - 1) * w
    ensures forall i :: 0 <= i < |r| ==> r[i] < Pow2(w)
    decreases |bits|
  {
    if |bits| == 0 then []
    else if |bits| < w then [Val(bits + Zeros(w - |bits|))]
    else [Val(bits[..w])] + Chunks(bits[w..], w)
  }

  /** The concatenation of the w-bit numerals of `vals`. */
  function Unchunk(vals: seq<nat>, w: nat): (r: seq<Bit>)
    ensures |r| == |vals| * w
  {
    if |vals| == 0 then [] else NatBits(vals[0], w) + Unchunk(vals[1..], w)
  }

  /** The values of the complete w-bit groups of `bits`; trailing bits that do not fill a group are dropped. */
  function Pack(bits: seq<Bit>, w: nat): (r: seq<nat>)
    requires w > 0
    ensures |r| * w <= |bits| < (|r| + 1) * w
    ensures forall i :: 0 <= i < |r| ==> r[i] < Pow2(w)
    decreases |bits|
  {
    if |bits| < w then [] else [Val(bits[..w])] + Pack(bits[w..], w)
  }

  /** The text whose characters are the alphabet's letters for `vals`. */
  function Spell(vals: seq<nat>, alphabet: string): (s: string)
    requires forall i :: 0 <= i < |vals| ==> vals[i] < |alphabet|
    ensures |s| == |vals|
    ensures forall i :: 0 <= i < |s| ==> s[i] == alphabet[vals[i]]
  {
    seq(|vals|, i requires 0 <= i < |vals| => alphabet[vals[i]])
  }

  /**
    Reading back the spelling of digit values gives the values, whenever
    `value` reads the letter of each of them back as that digit.
   */
  lemma DigitsOfSpelling(digits: seq<nat>, alphabet: string, value: char -> Option<nat>)
    requires forall i :: 0 <= i < |digits| ==> digits[i] < |alphabet|
    requires forall i :: 0 <= i < |digits| ==> value(alphabet[digits[i]]) == Some(digits[i])
    ensures Digits(Spell(digits, alphabet), value) == Some(digits)
  {
    var text := Spell(digits, alphabet);
    var r := Digits(text, value);
    assert r.Some?;
    assert r.value == digits;
  }

  lemma SpellAppend(a: seq<nat>, b: seq<nat>, alphabet: string)
    requires forall i :: 0 <= i < |a| ==> a[i] < |alphabet|
    requires forall i :: 0 <= i < |b| ==> b[i] < |alphabet|
    ensures Spell(a + b, alphabet) == Spell(a, alphabet) + Spell(b, alphabet)
  {
  }

  /** The digit values of the characters of `s`, or None when one of them is not a digit. */
  function Digits(s: string, value: char -> Option<nat>): (r: Option<seq<nat>>)
    ensures r.Some? <==> forall i :: 0 <= i < |s| ==> value(s[i]).Some?
    ensures r.Some? ==> |r.value| == |s| && forall i :: 0 <= i < |s| ==> Some(r.value[i]) == value(s[i])
  {
    if |s| == 0 then Some([])
    else match value(s[0])
      case None => None
      case Some(v) =>
        match Digits(s[1..], value)
        case None => None
        case Some(rest) => Some([v] + rest)
  }

  // ---------------------------------------------------------------------------
  // Arithmetic

  /** Euclidean division is determined by quotient and remainder. */
  lemma DivModOfSum(q: int, r: int, m: int)
    requires m > 0 && 0 <= r < m
    ensures (q * m + r) / m == q
    ensures (q * m + r) % m == r
  {
    var n := q * m + r;
    var q', r' := n / m, n % m;
    assert n == q' * m + r';
    assert (q - q') * m == r' - r;
    if q' < q {
      MulAtLeast(q - q', m);
      assert false;
    } else if q' > q {
      MulAtLeast(q' - q, m);
      assert false;
    }
  }

  lemma DivMod(n: int, m: int)
    requires m > 0
    ensures n == (n / m) * m + n % m && 0 <= n % m < m
  {
  }

  /** Taking x modulo 2m is taking x / 2 modulo m and putting the low bit of x back. */
  lemma ModDouble(x: nat, m: nat)
    requires m > 0
    ensures x % (2 * m) == 2 * ((x / 2) % m) + x % 2
  {
    var h, b := x / 2, x % 2;
    var q, r := h / m, h % m;
    DivMod(h, m);
    assert x == 2 * h + b;
    assert 2 * (q * m) == q * (2 * m);
    assert x == q * (2 * m) + (2 * r + b);
    DivModOfSum(q, 2 * r + b, 2 * m);
  }

  lemma MulAtLeast(a: int, m: int)
    requires a >= 1 && m > 0
    ensures a * m >= m
  {
    assert a * m == (a - 1) * m + m;
    assert (a - 1) * m >= 0;
  }

  lemma {:induction false} Pow2Add(a: nat, b: nat)
    ensures Pow2(a + b) == Pow2(a) * Pow2(b)
    decreases a
  {
    if a > 0 {
      Pow2Add(a - 1, b);
      assert Pow2(a + b) == 2 * Pow2(a - 1 + b);
    }
  }

  // ---------------------------------------------------------------------------
  // Values of bit strings

  /** Appending bits shifts the value left by their number and adds theirs. */
  lemma {:induction false} ValAppend(a: seq<Bit>, b: seq<Bit>)
    ensures Val(a + b) == Val(a) * Pow2(|b|) + Val(b)
    decreases |b|
  {
    if |b| == 0 {
      assert a + b == a;
    } else {
      var b', x := b[..|b| - 1], b[|b| - 1];
      assert (a + b)[..|a + b| - 1] == a + b';
      ValAppend(a, b');
      var va, vb, p := Val(a), Val(b'), Pow2(|b'|);
      assert Val(a + b) == 2 * (va * p + vb) + x;
      DoubleProduct(va, p);
    }
  }

  lemma DoubleProduct(x: int, y: int)
    ensures 2 * (x * y) == x * (2 * y)
  {
  }

  /** Shifting right by `k` drops the last `k` bits. */
  lemma {:induction false} ShrVal(s: seq<Bit>, k: nat)
    requires k <= |s|
    ensures Shr(Val(s), k) == Val(s[..|s| - k])
    decreases k
  {
    if k == 0 {
      assert s[..|s|] == s;
    } else {
      var s' := s[..|s| - 1];
      assert Val(s) == Val(s') * 2 + s[|s| - 1];
      DivModOfSum(Val(s'), s[|s| - 1], 2);
      assert Shr(Val(s), k) == Shr(Val(s'), k - 1);
      ShrVal(s', k - 1);
      assert s'[..|s'| - (k - 1)] == s[..|s| - k];
    }
  }

  /** Shifting left by `k` appends `k` zero bits. */
  lemma {:induction false} ShlVal(s: seq<Bit>, k: nat)
    ensures Shl(Val(s), k) == Val(s + Zeros(k))
    decreases k
  {
    if k == 0 {
      assert s + Zeros(0) == s;
    } else {
      var s0 := s + [0];
      assert s0[..|s0| - 1] == s;
      ShlVal(s0, k - 1);
      assert s0 + Zeros(k - 1) == s + Zeros(k);
    }
  }

  /** `& 0x1F` keeps the last five bits. */
  lemma LowFive(s: seq<Bit>)
    requires |s| >= 5
    ensures Val(s) % 32 == Val(s[|s| - 5..])
  {
    var high, low := s[..|s| - 5], s[|s| - 5..];
    assert s == high + low;
    ValFive(high, low);
    ModOfSplit(Val(s), Val(high), Val(low));
  }

  lemma ModOfSplit(v: int, h: int, l: int)
    requires 0 <= l < 32 && v == h * 32 + l
    ensures v % 32 == l
  {
    DivModOfSum(h, l, 32);
  }

  /** Appending five bits multiplies by 32 and adds them. */
  lemma ValFive(high: seq<Bit>, low: seq<Bit>)
    requires |low| == 5
    ensures Val(low) < 32 && Val(high + low) == Val(high) * 32 + Val(low)
  {
    assert Pow2(5) == 32;
    ValAppend(high, low);
  }

  /** The five bits above the last `k`: `(Val(s) >> k) & 0x1F`. */
  lemma GroupAbove(s: seq<Bit>, k: nat)
    requires k + 5 <= |s|
    ensures Shr(Val(s), k) % 32 == Val(s[|s| - k - 5..|s| - k])
    ensures s[..|s| - k] == s[..|s| - k - 5] + s[|s| - k - 5..|s| - k]
  {
    var upTo := s[..|s| - k];
    ShrVal(s, k);
    LowFive(upTo);
    assert upTo[|upTo| - 5..] == s[|s| - k - 5..|s| - k];
  }

  lemma {:induction false} ValZeros(k: nat)
    ensures Val(Zeros(k)) == 0
  {
    if k > 0 {
      assert Zeros(k)[..k - 1] == Zeros(k - 1);
      ValZeros(k - 1);
    }
  }

  /** `NatBits` keeps the low k bits of its argument. */
  lemma {:induction false} ValNatBits(x: nat, k: nat)
    ensures Val(NatBits(x, k)) == x % Pow2(k)
  {
    if k == 0 {
    } else {
      var bs := NatBits(x, k);
      ValNatBits(x / 2, k - 1);
      assert bs[..k - 1] == NatBits(x / 2, k - 1);
      assert Val(bs) == 2 * ((x / 2) % Pow2(k - 1)) + x % 2;
      ModDouble(x, Pow2(k - 1));
    }
  }

  /** Reading a bit string as a number and writing it back gives the same bits. */
  lemma {:induction false} NatBitsVal(s: seq<Bit>)
    ensures NatBits(Val(s), |s|) == s
  {
    if |s| > 0 {
      var s', b := s[..|s| - 1], s[|s| - 1];
      DivModOfSum(Val(s'), b, 2);
      NatBitsVal(s');
      assert s == s' + [b];
    }
  }

  lemma SmallMod(x: nat, m: nat)
    requires x < m
    ensures x % m == x
  {
    DivModOfSum(0, x, m);
  }

  // ---------------------------------------------------------------------------
  // Groups of bits

  lemma {:induction false} UnchunkAppend(a: seq<nat>, b: seq<nat>, w: nat)
    ensures Unchunk(a + b, w) == Unchunk(a, w) + Unchunk(b, w)
  {
    if |a| > 0 {
      assert (a + b)[1..] == a[1..] + b;
      UnchunkAppend(a[1..], b, w);
    } else {
      assert a + b == b;
    }
  }

  /** The bits of one more byte follow the bits of the bytes before it. */
  lemma UnchunkSnoc(bytes: seq<Byte>, i: nat)
    requires i < |bytes|
    ensures Unchunk(bytes[..i + 1], 8) == Unchunk(bytes[..i], 8) + NatBits(bytes[i], 8)
  {
    assert bytes[..i + 1] == bytes[..i] + [bytes[i]];
    UnchunkAppend(bytes[..i], [bytes[i]], 8);
    assert Unchunk([bytes[i]], 8) == NatBits(bytes[i], 8) + Unchunk([], 8);
  }

  /** Appending the eight bits of a byte: `(Val(s) << 8) | b`. */
  lemma ValByte(s: seq<Bit>, b: Byte)
    ensures Val(s + NatBits(b, 8)) == Val(s) * 256 + b
  {
    ValAppend(s, NatBits(b, 8));
    ValNatBits(b, 8);
    assert Pow2(8) == 256;
    SmallMod(b, 256);
  }

  /** Packing w-bit numerals back into w-bit groups gives the numerals, whatever short tail follows. */
  lemma {:induction false} PackUnchunk(vals: seq<nat>, tail: seq<Bit>, w: nat)
    requires w > 0 && |tail| < w
    requires forall i :: 0 <= i < |vals| ==> vals[i] < Pow2(w)
    ensures Pack(Unchunk(vals, w) + tail, w) == vals
  {
    if |vals| == 0 {
      assert Unchunk(vals, w) + tail == tail;
    } else {
      var bits := Unchunk(vals, w) + tail;
      var head := NatBits(vals[0], w);
      assert bits == head + (Unchunk(vals[1..], w) + tail);
      assert bits[..w] == head;
      assert bits[w..] == Unchunk(vals[1..], w) + tail;
      ValNatBits(vals[0], w);
      SmallMod(vals[0], Pow2(w));
      PackUnchunk(vals[1..], tail, w);
    }
  }

  /** Chunking and unchunking a bit string gives it back followed by fewer than w zero bits. */
  lemma {:induction false} UnchunkChunks(bits: seq<Bit>, w: nat)
    requires w > 0
    ensures var u := Unchunk(Chunks(bits, w), w);
      |bits| <= |u| < |bits| + w && u == bits + Zeros(|u| - |bits|)
    decreases |bits|
  {
    var c := Chunks(bits, w);
    if |bits| == 0 {
    } else if |bits| < w {
      var padded := bits + Zeros(w - |bits|);
      NatBitsVal(padded);
      assert Unchunk(c, w) == NatBits(Val(padded), w) + Unchunk([], w);
    } else {
      NatBitsVal(bits[..w]);
      UnchunkChunks(bits[w..], w);
      assert c[1..] == Chunks(bits[w..], w);
      var u' := Unchunk(c[1..], w);
      assert Unchunk(c, w) == bits[..w] + u';
      assert bits == bits[..w] + bits[w..];
    }
  }

  /** Chunking distributes over a prefix made of whole groups. */
  lemma {:induction false} ChunksAppend(p: seq<Bit>, c: seq<Bit>, w: nat)
    requires w > 0 && |p| % w == 0
    ensures Chunks(p + c, w) == Chunks(p, w) + Chunks(c, w)
    decreases |p|
  {
    if |p| == 0 {
      assert p + c == c;
    } else {
      DivModOfSum(|p| / w - 1, 0, w);
      assert |p| >= w;
      assert (|p| - w) % w == 0 by {
        assert |p| - w == (|p| / w - 1) * w;
        DivModOfSum(|p| / w - 1, 0, w);
      }
      assert (p + c)[..w] == p[..w];
      assert (p + c)[w..] == p[w..] + c;
      ChunksAppend(p[w..], c, w);
    }
  }

  /** The values of the w-bit groups of a whole-group prefix followed by one group. */
  lemma ChunksSnoc(p: seq<Bit>, c: seq<Bit>, w: nat)
    requires w > 0 && |p| % w == 0 && 0 < |c| <= w
    ensures Chunks(p + c, w) == Chunks(p, w) + [Val(c + Zeros(w - |c|))]
  {
    ChunksAppend(p, c, w);
    if |c| == w {
      assert c + Zeros(0) == c;
      assert c[..w] == c;
      assert Chunks(c, w) == [Val(c)] + Chunks(c[w..], w);
      assert c[w..] == [];
    }
  }
}
