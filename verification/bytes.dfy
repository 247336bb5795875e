/** Big-endian byte strings, and the bytes that JavaScript's shift-and-mask
    idiom `(x >> s) & 0xff` extracts from a 32-bit word. */
module ByteOrder {
  import opened Positional
  import opened JsInt

  /** The k-byte big-endian encoding of v modulo 256^k: byte j is digit
      k - 1 - j of v in base 256. */
  function BE(v: int, k: nat): (r: seq<int>)
    ensures |r| == k
  {
    seq(k, j requires 0 <= j < k => (v / Pow(256, k - 1 - j)) % 256)
  }

  /** The k-byte little-endian encoding of v modulo 256^k. */
  function LE(v: int, k: nat): (r: seq<int>)
    ensures |r| == k
  {
    seq(k, j requires 0 <= j < k => (v / Pow(256, j)) % 256)
  }

  /** A byte string is the little-endian encoding of its own value. */
  lemma LEOfEval(b: seq<int>)
    requires IsBytes(b)
    ensures LE(Eval(b, 256), |b|) == b
  {
    forall j | 0 <= j < |b|
      ensures LE(Eval(b, 256), |b|)[j] == b[j]
    {
      DigitOf(b, j, 256);
    }
  }

  lemma BEBytes(v: int, k: nat)
    ensures IsBytes(BE(v, k))
  {
  }

  /** A quotient and remainder after adding a multiple of the divisor. */
  lemma AddMultiple(x: int, y: int, k: int, d: int)
    requires d > 0
    requires y == x + k * d
    ensures y / d == x / d + k
    ensures y % d == x % d
  {
    DivUnique(y, d, x / d + k, x % d);
  }

  lemma DivDiv(x: int, a: int, b: int)
    requires a > 0 && b > 0
    ensures (x / a) / b == x / (a * b)
  {
    var q := (x / a) / b;
    var r := (x / a) % b;
    assert x == x % a + (x / a) * a;
    assert x / a == r + q * b;
    assert x == (x % a + r * a) + q * (a * b) by {
      MulAssoc(q, b, a);
    }
    assert 0 <= x % a + r * a < a * b by {
      MulLe(r, b - 1, a);
    }
    DivUnique(x, a * b, q, x % a + r * a);
  }

  /** An encoding of hi·256^b + lo (lo below 256^b) is that of hi followed
      by that of lo. */
  lemma BESplit(hi: int, lo: int, a: nat, b: nat)
    requires 0 <= lo < Pow(256, b)
    ensures BE(hi * Pow(256, b) + lo, a + b) == BE(hi, a) + BE(lo, b)
  {
    var v := hi * Pow(256, b) + lo;
    DivUnique(v, Pow(256, b), hi, lo);
    forall j | 0 <= j < a + b
      ensures BE(v, a + b)[j] == (BE(hi, a) + BE(lo, b))[j]
    {
      if j < a {
        HighByte(v, hi, a, b, j);
      } else {
        LowByteOf(v, hi, lo, b, j - a);
      }
    }
  }

  lemma HighByte(v: int, hi: int, a: nat, b: nat, j: nat)
    requires j < a
    requires v / Pow(256, b) == hi
    ensures (v / Pow(256, a + b - 1 - j)) % 256 == (hi / Pow(256, a - 1 - j)) % 256
  {
    PowAdd(256, b, a - 1 - j);
    DivDiv(v, Pow(256, b), Pow(256, a - 1 - j));
  }

  lemma LowByteOf(v: int, hi: int, lo: int, b: nat, i: nat)
    requires i < b
    requires v == hi * Pow(256, b) + lo
    ensures (v / Pow(256, b - 1 - i)) % 256 == (lo / Pow(256, b - 1 - i)) % 256
  {
    var d := Pow(256, b - 1 - i);
    PowAdd(256, i, b - i);
    PowSucc(256, b - 1 - i);
    assert Pow(256, b) == Pow(256, i) * (256 * d);
    assert v == lo + (hi * Pow(256, i)) * (256 * d) by {
      MulAssoc(hi, Pow(256, i), 256 * d);
    }
    ShiftedDigit(lo, v, hi * Pow(256, i), d, 256);
  }

  /** A value below 256^b encoded in a + b bytes has a leading zeros. */
  lemma BELeadingZeros(v: int, a: nat, b: nat)
    requires 0 <= v < Pow(256, b)
    ensures BE(v, a + b) == Zeros(a) + BE(v, b)
  {
    BESplit(0, v, a, b);
    assert 0 * Pow(256, b) + v == v;
    forall j | 0 <= j < a
      ensures BE(0, a)[j] == 0
    {
      DivUnique(0, Pow(256, a - 1 - j), 0, 0);
    }
  }

  lemma PowByteFacts()
    ensures Pow(256, 1) == Pow(2, 8) && Pow(256, 2) == Pow(2, 16) && Pow(256, 3) == Pow(2, 24)
    ensures Pow(256, 4) == TWO32
  {
    PowFacts();
    assert Pow(256, 2) == 256 * 256;
    assert Pow(256, 4) == 256 * Pow(256, 3);
  }

  /** A byte is the same whatever multiple of c·d is added before the
      division by d. */
  lemma ShiftedDigit(x: int, y: int, k: int, d: int, c: int)
    requires d > 0 && c > 0
    requires y == x + k * (c * d)
    ensures (y / d) % c == (x / d) % c
  {
    assert y == x + (k * c) * d by {
      MulAssoc(k, c, d);
    }
    AddMultiple(x, y, k * c, d);
    AddMultiple(x / d, y / d, k, c);
  }

  /** `(h >> s) & 0xff` is byte s/8 (from the low end) of h's 32 bits. */
  lemma ShrByte(h: int, s: nat)
    requires s + 8 <= 32
    ensures Low(Shr(h, s), 8) == (U32(h) / Pow(2, s)) % 256
  {
    PowFacts();
    var k := if I32(h) == U32(h) then 0 else -1;
    assert I32(h) == U32(h) + k * TWO32;
    PowAdd(2, 8, s);
    PowAdd(2, 8 + s, 24 - s);
    var e := Pow(2, 24 - s);
    assert TWO32 == (256 * Pow(2, s)) * e;
    assert I32(h) == U32(h) + (k * e) * (256 * Pow(2, s)) by {
      MulRotate(k, 256 * Pow(2, s), e);
    }
    ShiftedDigit(U32(h), I32(h), k * e, Pow(2, s), 256);
  }

  /** The low byte of h is the low byte of its 32 bits. */
  lemma LowByte(h: int)
    ensures Low(h, 8) == U32(h) % 256
  {
    PowFacts();
    assert h == U32(h) + (h / TWO32 * 0x100_0000) * 256;
    AddMultiple(U32(h), h, h / TWO32 * 0x100_0000, 256);
  }

  /** The four bytes `(h >> 24) & 0xff`, …, `h & 0xff` are the big-endian
      encoding of h's 32 bits. */
  lemma WordBytes(h: int)
    ensures [Low(Shr(h, 24), 8), Low(Shr(h, 16), 8), Low(Shr(h, 8), 8), Low(h, 8)] == BE(U32(h), 4)
  {
    PowByteFacts();
    ShrByte(h, 24);
    ShrByte(h, 16);
    ShrByte(h, 8);
    LowByte(h);
    assert Pow(256, 0) == 1;
  }

  /** The same bytes extracted with the logical shift `>>>`. */
  lemma WordBytesUnsigned(h: int)
    ensures [Low(Ushr(h, 24), 8), Low(Ushr(h, 16), 8), Low(Ushr(h, 8), 8), Low(h, 8)] == BE(U32(h), 4)
  {
    PowByteFacts();
    LowByte(h);
    assert Pow(256, 0) == 1;
  }
}
