/** SHA-512 as driven by lib/nacl.js: the block loop of
    crypto_hashblocks_hl, the final padding block built by crypto_hash, and
    the big-endian serialisation of the state. The 80-round compression of
    one 128-byte block is a parameter. The main theorem says that the
    driver hashes exactly the padded message of FIPS 180-4, section 5.1.2. */
module Sha512 {
  import opened Positional
  import opened JsInt
  import opened ByteOrder

  /** The chaining state as two Int32Arrays: the high and the low halves
      of the eight 64-bit words. */
  datatype HashState = HashState(hh: seq<int>, hl: seq<int>)

  type State = s: HashState | |s.hh| == 8 && |s.hl| == 8
    witness HashState(Zeros(8), Zeros(8))

  /** One pass of the 80 rounds and the feed-forward over a 128-byte block. */
  type Compress = (State, seq<int>) -> State

  /** The initial hash value, stored in Int32Arrays (so wrapped by ToInt32). */
  function IV(): (st: State)
    ensures forall i :: 0 <= i < 8 ==> InInt32(st.hh[i]) && InInt32(st.hl[i])
  {
    HashState(
      [I32(0x6a09e667), I32(0xbb67ae85), I32(0x3c6ef372), I32(0xa54ff53a),
       I32(0x510e527f), I32(0x9b05688c), I32(0x1f83d9ab), I32(0x5be0cd19)],
      [I32(0xf3bcc908), I32(0x84caa73b), I32(0xfe94f82b), I32(0x5f1d36f1),
       I32(0xade682d1), I32(0x2b3e6c1f), I32(0xfb41bd6b), I32(0x137e2179)])
  }

  /** The 64-bit word i of a state. */
  function Word(st: State, i: nat): (w: nat)
    requires i < 8
    ensures w < TWO32 * TWO32
  {
    U32(st.hh[i]) * TWO32 + U32(st.hl[i])
  }

  /** crypto_hashblocks_hl's loop: compress whole blocks from pos while at
      least 128 bytes remain; returns the state and the bytes left over. */
  function HashBlocks(compress: Compress, st: State, m: seq<int>, pos: nat, n: int): (r: (State, int))
    requires 0 <= n && pos + n <= |m|
    ensures r.1 == n % 128
    decreases n
  {
    if n >= 128 then HashBlocks(compress, compress(st, m[pos..pos + 128]), m, pos + 128, n - 128)
    else (st, n)
  }

  /** Reference: the compression folded over a sequence of whole blocks. */
  function Absorb(compress: Compress, st: State, s: seq<int>): State
    requires |s| % 128 == 0
    decreases |s|
  {
    if |s| == 0 then st else Absorb(compress, compress(st, s[..128]), s[128..])
  }

  lemma {:induction false} AbsorbAppend(compress: Compress, st: State, a: seq<int>, b: seq<int>)
    requires |a| % 128 == 0 && |b| % 128 == 0
    ensures Absorb(compress, st, a + b) == Absorb(compress, Absorb(compress, st, a), b)
    decreases |a|
  {
    if |a| > 0 {
      assert (a + b)[..128] == a[..128];
      assert (a + b)[128..] == a[128..] + b;
      AbsorbAppend(compress, compress(st, a[..128]), a[128..], b);
    } else {
      assert a + b == b;
    }
  }

  /** The block loop compresses exactly the whole blocks of m[pos..pos+n]. */
  lemma {:induction false} HashBlocksAbsorbs(compress: Compress, st: State, m: seq<int>, pos: nat, n: int)
    requires 0 <= n && pos + n <= |m|
    ensures HashBlocks(compress, st, m, pos, n).0 == Absorb(compress, st, m[pos..pos + n - n % 128])
    decreases n
  {
    if n >= 128 {
      var s := m[pos..pos + n - n % 128];
      assert s[..128] == m[pos..pos + 128];
      assert s[128..] == m[pos + 128..pos + 128 + (n - 128) - (n - 128) % 128];
      HashBlocksAbsorbs(compress, compress(st, m[pos..pos + 128]), m, pos + 128, n - 128);
    } else {
      assert m[pos..pos + n - n % 128] == [];
    }
  }

  /** ts64: eight bytes of the pair (h, l), written at x[i..i+8]. */
  function Ts64(x: seq<int>, i: nat, h: int, l: int): (r: seq<int>)
    requires i + 8 <= |x|
    ensures |r| == |x|
  {
    x[i := Low(Shr(h, 24), 8)][i + 1 := Low(Shr(h, 16), 8)]
     [i + 2 := Low(Shr(h, 8), 8)][i + 3 := Low(h, 8)]
     [i + 4 := Low(Shr(l, 24), 8)][i + 5 := Low(Shr(l, 16), 8)]
     [i + 6 := Low(Shr(l, 8), 8)][i + 7 := Low(l, 8)]
  }

  /** ts64 stores the 64-bit big-endian encoding of (h, l) and nothing else. */
  lemma Ts64Writes(x: seq<int>, i: nat, h: int, l: int)
    requires i + 8 <= |x|
    ensures Ts64(x, i, h, l) == x[..i] + BE(U32(h) * TWO32 + U32(l), 8) + x[i + 8..]
  {
    var e := [Low(Shr(h, 24), 8), Low(Shr(h, 16), 8), Low(Shr(h, 8), 8), Low(h, 8),
              Low(Shr(l, 24), 8), Low(Shr(l, 16), 8), Low(Shr(l, 8), 8), Low(l, 8)];
    StoreEight(x, i, e);
    WordBytes(h);
    WordBytes(l);
    PowByteFacts();
    BESplit(U32(h), U32(l), 4, 4);
    assert e == BE(U32(h), 4) + BE(U32(l), 4);
  }

  /** Eight consecutive stores replace x[i..i+8] and nothing else. */
  lemma StoreEight(x: seq<int>, i: nat, e: seq<int>)
    requires i + 8 <= |x| && |e| == 8
    ensures x[i := e[0]][i + 1 := e[1]][i + 2 := e[2]][i + 3 := e[3]]
             [i + 4 := e[4]][i + 5 := e[5]][i + 6 := e[6]][i + 7 := e[7]]
            == x[..i] + e + x[i + 8..]
  {
  }

  /** The 256-byte buffer of crypto_hash after the last partial block is
      copied in, the 0x80 marker is set and the bit length is stored. */
  function PadBuffer(m: seq<int>): (x: seq<int>)
    ensures |x| == 256
  {
    var b := |m|;
    Ts64(Marked(m), PadLength(b % 128) - 8, I32(b / 0x2000_0000), Shl(b, 3))
  }

  /** The buffer before ts64: the n trailing bytes of m, the marker 128 at
      x[n], and the store `x[n' - 9] = 0` where n' is the padded length. */
  function Marked(m: seq<int>): (x: seq<int>)
    ensures |x| == 256
  {
    var b := |m|;
    var n := b % 128;
    var x0 := seq(256, i requires 0 <= i < 256 => if i < n then m[b - n + i] else if i == n then 128 else 0);
    x0[PadLength(n) - 9 := 0]
  }

  /** Up to the length field the buffer holds the tail, the marker and zeros. */
  lemma MarkedPrefix(m: seq<int>)
    ensures var n := |m| % 128;
            Marked(m)[..PadLength(n) - 8] == m[|m| - n..] + [0x80] + Zeros(PadLength(n) - n - 9)
  {
    var n := |m| % 128;
    var nb := PadLength(n);
    var x := Marked(m)[..nb - 8];
    var y := m[|m| - n..] + [0x80] + Zeros(nb - n - 9);
    assert forall i :: 0 <= i < nb - 8 ==> x[i] == y[i];
  }

  /** The buffer with the length field written. */
  lemma PadBufferSplit(m: seq<int>)
    requires |m| < MaxLength
    ensures var nb := PadLength(|m| % 128);
            PadBuffer(m)[..nb] == Marked(m)[..nb - 8] + BE(8 * |m|, 8)
  {
    var b := |m|;
    var nb := PadLength(b % 128);
    LengthWords(b);
    Ts64Writes(Marked(m), nb - 8, I32(b / 0x2000_0000), Shl(b, 3));
  }

  /** The bytes left for the final blocks: one block when the remainder
      leaves room for the marker and the length, two otherwise. */
  function PadLength(n: int): (nb: int)
    ensures n < 112 ==> nb == 128
    ensures n >= 112 ==> nb == 256
  {
    256 - 128 * (if n < 112 then 1 else 0)
  }

  /** The digest bytes: `(hh[i] >>> 24) & 0xff`, …, `hl[i] & 0xff`. */
  function Serialise(st: State): (out: seq<int>)
    ensures |out| == 64
  {
    seq(64, k requires 0 <= k < 64 => OutByte(st.hh[k / 8], st.hl[k / 8], k % 8))
  }

  function OutByte(h: int, l: int, j: nat): int
    requires j < 8
  {
    match j
    case 0 => Low(Ushr(h, 24), 8)
    case 1 => Low(Ushr(h, 16), 8)
    case 2 => Low(Ushr(h, 8), 8)
    case 3 => Low(h, 8)
    case 4 => Low(Ushr(l, 24), 8)
    case 5 => Low(Ushr(l, 16), 8)
    case 6 => Low(Ushr(l, 8), 8)
    case _ => Low(l, 8)
  }

  /** Reference: the eight 64-bit words in big-endian order. */
  function WordsBE(st: State, i: nat): (r: seq<int>)
    requires i <= 8
    decreases 8 - i
  {
    if i == 8 then [] else BE(Word(st, i), 8) + WordsBE(st, i + 1)
  }

  lemma {:induction false} WordsBELength(st: State, i: nat)
    requires i <= 8
    ensures |WordsBE(st, i)| == 8 * (8 - i)
    decreases 8 - i
  {
    if i < 8 {
      WordsBELength(st, i + 1);
    }
  }

  /** Byte r of word i + j sits at offset 8·j + r. */
  lemma {:induction false} WordsBEIndex(st: State, i: nat, j: nat, r: nat)
    requires i + j < 8 && r < 8
    ensures 8 * j + r < |WordsBE(st, i)|
    ensures WordsBE(st, i)[8 * j + r] == BE(Word(st, i + j), 8)[r]
    decreases j
  {
    WordsBELength(st, i);
    if j > 0 {
      WordsBEIndex(st, i + 1, j - 1, r);
    }
  }

  lemma OutWord(h: int, l: int, j: nat)
    requires j < 8
    ensures OutByte(h, l, j) == BE(U32(h) * TWO32 + U32(l), 8)[j]
  {
    WordBytesUnsigned(h);
    WordBytesUnsigned(l);
    PowByteFacts();
    BESplit(U32(h), U32(l), 4, 4);
  }

  /** The digest is the state's words written big-endian. */
  lemma SerialiseIsBigEndian(st: State)
    ensures Serialise(st) == WordsBE(st, 0)
  {
    forall k | 0 <= k < 64
      ensures Serialise(st)[k] == WordsBE(st, 0)[k]
    {
      WordsBEIndex(st, 0, k / 8, k % 8);
      OutWord(st.hh[k / 8], st.hl[k / 8], k % 8);
    }
    WordsBELength(st, 0);
  }

  /** crypto_hash: the whole blocks of m, then the one or two padding
      blocks from PadBuffer, then the serialised state. */
  function CryptoHash(compress: Compress, m: seq<int>): (out: seq<int>)
    ensures |out| == 64 && IsBytes(out)
  {
    var st := HashBlocks(compress, IV(), m, 0, |m|).0;
    var x := PadBuffer(m);
    var st' := HashBlocks(compress, st, x, 0, PadLength(|m| % 128)).0;
    SerialiseIsBigEndian(st');
    WordsBEBytes(st', 0);
    Serialise(st')
  }

  lemma {:induction false} WordsBEBytes(st: State, i: nat)
    requires i <= 8
    ensures IsBytes(WordsBE(st, i))
    decreases 8 - i
  {
    if i < 8 {
      BEBytes(Word(st, i), 8);
      WordsBEBytes(st, i + 1);
    }
  }

  /** The message padded as FIPS 180-4, section 5.1.2 prescribes: a 1 bit,
      zeros up to 112 mod 128 bytes, and the bit length in 128 bits. */
  function FipsPad(m: seq<int>): (p: seq<int>)
    ensures |p| % 128 == 0
  {
    var z := (111 - |m|) % 128;
    var len := BE(8 * |m|, 16);
    assert |m| + 1 + z + 16 == |m| + z + 17;
    m + [0x80] + Zeros(z) + len
  }

  const MaxLength: int := 0x2000_0000_0000_0000

  /** The bit length as ts64 stores it: `(b / 0x20000000) | 0` and
      `b << 3` are the two halves of 8·b. */
  lemma LengthWords(b: nat)
    requires b < MaxLength
    ensures U32(I32(b / 0x2000_0000)) * TWO32 + U32(Shl(b, 3)) == 8 * b
  {
    PowFacts();
    var hi := b / 0x2000_0000;
    assert hi < TWO32;
    assert U32(I32(hi)) == hi by {
      AddMultiple(hi, I32(hi), (I32(hi) - hi) / TWO32, TWO32);
    }
    var k := (I32(b) - b) / TWO32;
    assert I32(b) == b + k * TWO32;
    assert I32(b) * 8 == 8 * b + (8 * k) * TWO32;
    AddMultiple(8 * b, I32(b) * 8, 8 * k, TWO32);
    var y := I32(b) * 8;
    assert U32(Shl(b, 3)) == (8 * b) % TWO32 by {
      assert Shl(b, 3) == I32(y);
      AddMultiple(y, I32(y), (I32(y) - y) / TWO32, TWO32);
    }
    DivDiv(8 * b, 8, 0x2000_0000);
    assert (8 * b) / 8 == b;
    assert 8 * b == (8 * b) / TWO32 * TWO32 + (8 * b) % TWO32;
  }

  /** The FIPS-padded message after m's whole blocks: the partial block,
      the marker, the zeros and the 128-bit length. */
  function Trailer(m: seq<int>): (t: seq<int>)
  {
    m[|m| - |m| % 128..] + [0x80] + Zeros((111 - |m|) % 128) + BE(8 * |m|, 16)
  }

  /** The blocks crypto_hash compresses after the whole blocks of m are
      the FIPS trailer. */
  lemma PadBlocks(m: seq<int>)
    requires |m| < MaxLength
    ensures PadBuffer(m)[..PadLength(|m| % 128)] == Trailer(m)
  {
    var b := |m|;
    var n := b % 128;
    var nb := PadLength(n);
    var z := (111 - b) % 128;
    assert z == nb - n - 17;
    PadBufferSplit(m);
    MarkedPrefix(m);
    LengthField(b);
    assert Zeros(nb - n - 9) == Zeros(z) + Zeros(8);
  }

  /** The 128-bit length field is the 64-bit one after eight zero bytes. */
  lemma LengthField(b: nat)
    requires b < MaxLength
    ensures BE(8 * b, 16) == Zeros(8) + BE(8 * b, 8)
  {
    PowByteFacts();
    PowAdd(256, 4, 4);
    BELeadingZeros(8 * b, 8, 8);
  }

  /** The padded message is m's whole blocks followed by the final ones. */
  lemma FipsPadSplit(m: seq<int>)
    ensures FipsPad(m) == m[..|m| - |m| % 128] + Trailer(m)
  {
    var n := |m| % 128;
    assert m == m[..|m| - n] + m[|m| - n..];
  }

  /** crypto_hash computes SHA-512 of m: the serialised state after the
      compression is folded over the FIPS-padded message. */
  lemma CryptoHashIsSha512(compress: Compress, m: seq<int>)
    requires |m| < MaxLength
    ensures CryptoHash(compress, m) == Serialise(Absorb(compress, IV(), FipsPad(m)))
  {
    var whole := m[..|m| - |m| % 128];
    var st := HashBlocks(compress, IV(), m, 0, |m|).0;
    HashBlocksAbsorbs(compress, IV(), m, 0, |m|);
    assert m[0..|m| - |m| % 128] == whole;
    FinalBlocks(compress, st, m);
    FipsPadSplit(m);
    WholeBlocks(|m|);
    AbsorbAppend(compress, IV(), whole, Trailer(m));
  }

  lemma WholeBlocks(b: nat)
    ensures (b - b % 128) % 128 == 0
  {
    AddMultiple(0, b - b % 128, b / 128, 128);
  }

  lemma FinalBlocks(compress: Compress, st: State, m: seq<int>)
    requires |m| < MaxLength
    ensures |Trailer(m)| % 128 == 0
    ensures HashBlocks(compress, st, PadBuffer(m), 0, PadLength(|m| % 128)).0 == Absorb(compress, st, Trailer(m))
  {
    var x := PadBuffer(m);
    var nb := PadLength(|m| % 128);
    HashBlocksAbsorbs(compress, st, x, 0, nb);
    assert x[0..nb - nb % 128] == x[..nb];
    PadBlocks(m);
  }
}
