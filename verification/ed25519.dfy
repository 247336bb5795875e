/** Key derivation and signing of the TweetNaCl port (lib/nacl.js:433-488),
    following RFC 8032, sections 5.1.5 and 5.1.6. SHA-512's compression
    function and the point addition are parameters. */
module Ed25519 {
  import opened Positional
  import opened Field25519
  import opened JsInt
  import opened ByteOrder
  import opened Sha512
  import opened Curve
  import opened ScalarModL
  import opened LimbBounds

  /** The two primitives the model leaves uninterpreted. */
  datatype Primitives = Primitives(compress: Compress, add: PointAdd)

  const TWO254: int := 0x4000000000000000000000000000000000000000000000000000000000000000

  /** crypto_hash over a whole byte string. */
  function Hash(pr: Primitives, m: seq<int>): (h: seq<int>)
    ensures |h| == 64 && IsBytes(h)
  {
    CryptoHash(pr.compress, m)
  }

  // ---------------------------------------------------------------------
  // Clamping (lib/nacl.js:437-439 and 477-479)

  /** `d[0] &= 248; d[31] &= 127; d[31] |= 64` on the 64-byte digest. */
  function Clamp(d: seq<int>): (c: seq<int>)
    requires |d| == 64 && IsBytes(d)
    ensures |c| == 64 && IsBytes(c)
    ensures c[0] == d[0] - d[0] % 8 && c[31] == d[31] % 64 + 64
    ensures forall k :: 0 <= k < 64 && k != 0 && k != 31 ==> c[k] == d[k]
  {
    ClampBytes(d[0], d[31]);
    d[0 := And(d[0], 248)][31 := Or(And(d[31], 127), 64)]
  }

  lemma ClampBytes(x: nat, y: nat)
    requires x < 256 && y < 256
    ensures And(x, 248) == x - x % 8
    ensures Or(And(y, 127), 64) == y % 64 + 64
  {
    ClearLowBits(x);
    SetBitSix(y);
  }

  /** `x & 248` clears the three low bits of a byte. */
  lemma ClearLowBits(x: nat)
    requires x < 256
    ensures And(x, 248) == x - x % 8
  {
    AndShifts(x);
    AndCommutes(x / 8, 31);
    AndLowBits(x / 8, 5);
    assert Pow(2, 5) == 32;
    DivUnique(x / 8, 32, 0, x / 8);
  }

  /** `(y & 127) | 64` keeps the six low bits and sets bit 6. */
  lemma SetBitSix(y: nat)
    requires y < 256
    ensures Or(And(y, 127), 64) == y % 64 + 64
  {
    AndCommutes(y, 127);
    AndLowBits(y, 7);
    assert Pow(2, 7) == 128 && Pow(2, 6) == 64;
    OrBit(y % 128, 6);
    ModOfMod(y);
  }

  lemma ModOfMod(y: nat)
    ensures (y % 128) % 64 == y % 64
  {
    var q, t := y / 128, y % 128;
    var u, v := t / 64, t % 64;
    assert y == v + (2 * q + u) * 64;
    DivUnique(y, 64, 2 * q + u, v);
  }

  /** Clearing the three low bits is three halvings of the mask. */
  lemma AndShifts(x: nat)
    ensures And(x, 248) == 8 * And(x / 8, 31)
  {
    AndHalf(x, 124);
    AndHalf(x / 2, 62);
    AndHalf(x / 4, 31);
    assert x / 2 / 2 == x / 4 && x / 4 / 2 == x / 8;
  }

  lemma AndHalf(a: nat, b: nat)
    ensures And(a, 2 * b) == 2 * And(a / 2, b)
  {
    if a != 0 && b != 0 {
      DivUnique(2 * b, 2, b, 0);
    }
  }

  /** The clamped scalar is a multiple of 8 in [2^254, 2^255). */
  lemma ClampedScalar(d: seq<int>)
    requires |d| == 64 && IsBytes(d)
    ensures Eval(Clamp(d)[..32], 256) % 8 == 0
    ensures TWO254 <= Eval(Clamp(d)[..32], 256) < TWO255
  {
    ClampedLow(d);
    ClampedHigh(d);
  }

  /** Clearing the low three bits of byte 0 makes the scalar a multiple of 8. */
  lemma ClampedLow(d: seq<int>)
    requires |d| == 64 && IsBytes(d)
    ensures Eval(Clamp(d)[..32], 256) % 8 == 0
  {
    var c := Clamp(d)[..32];
    assert c == [c[0]] + c[1..];
    EvalCons(c[0], c[1..], 256);
    assert c[0] == 8 * (d[0] / 8);
    ModShiftEq(Eval(c, 256), 0, d[0] / 8 + 32 * Eval(c[1..], 256), 8);
  }

  /** Bit 254 set and bit 255 clear put the scalar in [2^254, 2^255). */
  lemma ClampedHigh(d: seq<int>)
    requires |d| == 64 && IsBytes(d)
    ensures TWO254 <= Eval(Clamp(d)[..32], 256) < TWO255
  {
    var c := Clamp(d)[..32];
    var top := Pow(256, 31);
    EvalPrefix(c, 31, 256);
    assert c[..32] == c;
    EvalBounds(c[..31], 256);
    PowTop();
    MulLe(64, c[31], top);
    MulLe(c[31], 127, top);
  }

  // ---------------------------------------------------------------------
  // getPublicKey (lib/nacl.js:472-484)

  /** The secret scalar and the nonce prefix both come from SHA-512(seed). */
  function Expanded(pr: Primitives, seed: seq<int>): (d: seq<int>)
    requires |seed| >= 32
    ensures |d| == 64 && IsBytes(d)
  {
    Clamp(Hash(pr, seed[..32]))
  }

  /** getPublicKey: the encoding of [a]B for the clamped scalar a. The
      ladder reads the first 32 bytes of the digest. */
  function PublicKey(pr: Primitives, seed: seq<int>): (pk: seq<int>)
    requires |seed| >= 32
    ensures |pk| == 32 && IsBytes(pk)
  {
    PackPoint(ScalarBase(pr.add, Expanded(pr, seed)[..32]))
  }

  /** For an addition that keeps limbs small, the public key is RFC 8032's
      encoding of the affine point [a]B for the clamped scalar a. */
  lemma PublicKeyValue(pr: Primitives, seed: seq<int>)
    requires KeepsSmall(pr.add) && |seed| >= 32
    ensures Eval(PublicKey(pr, seed), 256) == EncodedValue(ScalarBase(pr.add, Expanded(pr, seed)[..32]))
  {
    var s := Expanded(pr, seed)[..32];
    ScalarBaseSmall(pr.add, s);
    PackSmall(ScalarBase(pr.add, s));
  }

  // ---------------------------------------------------------------------
  // The scalar product r + h·a (lib/nacl.js:454-461)

  /** The inner loop `x[i+j] += h[i] * d[j]` from j on. */
  function MulRow(t: seq<int>, a: int, d: seq<int>, i: nat, j: nat): (r: seq<int>)
    requires |t| == 64 && |d| == 32 && i < 32 && j <= 32
    ensures |r| == 64
    decreases 32 - j
  {
    if j == 32 then t else MulRow(t[i + j := t[i + j] + a * d[j]], a, d, i, j + 1)
  }

  /** The row adds a·d[k-i] exactly at the limbs i+j .. i+31. */
  lemma {:induction false} MulRowEffect(t: seq<int>, a: int, d: seq<int>, i: nat, j: nat)
    requires |t| == 64 && |d| == 32 && i < 32 && j <= 32
    ensures forall k :: 0 <= k < 64 ==>
      MulRow(t, a, d, i, j)[k] == if i + j <= k < i + 32 then t[k] + a * d[k - i] else t[k]
    decreases 32 - j
  {
    if j < 32 {
      MulRowEffect(t[i + j := t[i + j] + a * d[j]], a, d, i, j + 1);
    }
  }

  /** The accumulator after the outer rows 0 .. i-1. */
  function MulRows(x: seq<int>, h: seq<int>, d: seq<int>, i: nat): (t: seq<int>)
    requires |x| == 64 && |h| == 32 && |d| == 32 && i <= 32
    ensures |t| == 64
  {
    if i == 0 then x else MulRow(MulRows(x, h, d, i - 1), h[i - 1], d, i - 1, 0)
  }

  /** x starts as r followed by 32 zeros; then the product is added. */
  function MulAdd(r: seq<int>, h: seq<int>, d: seq<int>): (x: seq<int>)
    requires |r| == 32 && |h| == 32 && |d| == 32
    ensures |x| == 64
  {
    MulRows(r + Zeros(32), h, d, 32)
  }

  /** One row adds a · 256^i · value(d). */
  lemma MulRowValue(t: seq<int>, a: int, d: seq<int>, i: nat)
    requires |t| == 64 && |d| == 32 && i < 32
    ensures Eval(MulRow(t, a, d, i, 0), 256) == Eval(t, 256) + a * (Pow(256, i) * Eval(d, 256))
  {
    var r := MulRow(t, a, d, i, 0);
    var s := Shifted(d, i);
    MulRowEffect(t, a, d, i, 0);
    assert forall k :: 0 <= k < 64 ==> r[k] == t[k] + a * s[k];
    EvalPointwise(t, s, r, a, 256);
    ShiftedValue(d, i);
  }

  /** d placed at limbs i .. i+31 of 64 zero limbs. */
  function Shifted(d: seq<int>, i: nat): (s: seq<int>)
    requires |d| == 32 && i < 32
    ensures |s| == 64
  {
    seq(64, k requires 0 <= k < 64 => if i <= k < i + 32 then d[k - i] else 0)
  }

  lemma ShiftedValue(d: seq<int>, i: nat)
    requires |d| == 32 && i < 32
    ensures Eval(Shifted(d, i), 256) == Pow(256, i) * Eval(d, 256)
  {
    assert Shifted(d, i) == Zeros(i) + d + Zeros(32 - i);
    EvalZeroTail(Zeros(i) + d, Zeros(32 - i), 256);
    EvalAppend(Zeros(i), d, 256);
    EvalZeros(i, 256);
  }

  /** The accumulator holds value(x) + value(h[..i]) · value(d). */
  lemma {:induction false} MulRowsValue(x: seq<int>, h: seq<int>, d: seq<int>, i: nat)
    requires |x| == 64 && |h| == 32 && |d| == 32 && i <= 32
    ensures Eval(MulRows(x, h, d, i), 256) == Eval(x, 256) + Eval(h[..i], 256) * Eval(d, 256)
  {
    if i == 0 {
      assert h[..0] == [];
    } else {
      MulRowsValue(x, h, d, i - 1);
      MulRowValue(MulRows(x, h, d, i - 1), h[i - 1], d, i - 1);
      EvalPrefix(h, i - 1, 256);
      RowSum(Eval(x, 256), Eval(h[..i - 1], 256), h[i - 1], Pow(256, i - 1), Eval(d, 256),
             Eval(h[..i], 256));
    }
  }

  lemma RowSum(ex: int, e: int, a: int, w: int, v: int, e': int)
    requires e' == e + a * w
    ensures ex + e * v + a * (w * v) == ex + e' * v
  {
  }

  /** The limb bound after i rows: 255 from r plus i products of bytes. */
  function RowsBound(i: nat): int
  {
    255 + i * 65025
  }

  /** Every limb stays within the bound the reduction mod L accepts. */
  lemma {:induction false} MulRowsBound(x: seq<int>, h: seq<int>, d: seq<int>, i: nat)
    requires |x| == 64 && |h| == 32 && |d| == 32 && i <= 32
    requires IsBytes(x) && IsBytes(h) && IsBytes(d)
    ensures forall k :: 0 <= k < 64 ==> 0 <= MulRows(x, h, d, i)[k] <= RowsBound(i)
  {
    if i > 0 {
      var j := i - 1;
      MulRowsBound(x, h, d, j);
      RowBound(MulRows(x, h, d, j), h[j], d, j);
    }
  }

  /** One more row keeps the limbs within the next bound. */
  lemma RowBound(t: seq<int>, a: int, d: seq<int>, j: nat)
    requires |t| == 64 && |d| == 32 && j < 32 && 0 <= a <= 255 && IsBytes(d)
    requires forall k :: 0 <= k < 64 ==> 0 <= t[k] <= RowsBound(j)
    ensures forall k :: 0 <= k < 64 ==> 0 <= MulRow(t, a, d, j, 0)[k] <= RowsBound(j + 1)
  {
    MulRowEffect(t, a, d, j, 0);
    forall k | 0 <= k < 64
      ensures 0 <= MulRow(t, a, d, j, 0)[k] <= RowsBound(j + 1)
    {
      if j <= k < j + 32 {
        LimbStep(t[k], a, d[k - j], j);
      } else {
        LimbStep(t[k], 0, 0, j);
      }
    }
  }

  lemma LimbStep(v: int, a: int, b: int, j: nat)
    requires 0 <= v <= RowsBound(j)
    requires 0 <= a <= 255 && 0 <= b <= 255
    ensures 0 <= v + a * b <= RowsBound(j + 1)
  {
    MulLe(a, 255, b);
    MulLe(b, 255, 255);
  }

  /** The 64 limbs handed to modL hold r + h·a, each within the bound. */
  lemma MulAddValue(r: seq<int>, h: seq<int>, d: seq<int>)
    requires |r| == 32 && |h| == 32 && |d| == 32
    requires IsBytes(r) && IsBytes(h) && IsBytes(d)
    ensures Eval(MulAdd(r, h, d), 256) == Eval(r, 256) + Eval(h, 256) * Eval(d, 256)
    ensures forall k :: 0 <= k < 64 ==> -InputBound <= MulAdd(r, h, d)[k] <= InputBound
  {
    var x := r + Zeros(32);
    EvalZeroTail(r, Zeros(32), 256);
    assert h[..32] == h;
    MulRowsValue(x, h, d, 32);
    assert IsBytes(x) by {
      assert forall k :: 0 <= k < 64 ==> x[k] == if k < 32 then r[k] else 0;
    }
    MulRowsBound(x, h, d, 32);
  }

  // ---------------------------------------------------------------------
  // crypto_sign and sign (lib/nacl.js:433-470)

  /** The nonce r = SHA-512(prefix ‖ m) mod L, as 32 bytes. */
  function Nonce(pr: Primitives, d: seq<int>, msg: seq<int>): (r: seq<int>)
    requires |d| == 64
    ensures |r| == 32
  {
    Reduce(Hash(pr, d[32..] + msg))[..32]
  }

  /** The challenge k = SHA-512(R ‖ A ‖ m) mod L, as 32 bytes. */
  function Challenge(pr: Primitives, rEnc: seq<int>, pk: seq<int>, msg: seq<int>): (k: seq<int>)
    ensures |k| == 32
  {
    Reduce(Hash(pr, rEnc + pk + msg))[..32]
  }

  /** R = encode([r]B) for the nonce r (lib/nacl.js:449-450). */
  function NoncePoint(pr: Primitives, d: seq<int>, msg: seq<int>): (rEnc: seq<int>)
    requires |d| == 64
    ensures |rEnc| == 32
  {
    PackPoint(ScalarBase(pr.add, Nonce(pr, d, msg)))
  }

  /** S = (r + k·a) mod L for the challenge over R ‖ pk ‖ m (lib/nacl.js:452-462). */
  function Response(pr: Primitives, d: seq<int>, msg: seq<int>, rEnc: seq<int>, pk: seq<int>): (s: seq<int>)
    requires |d| == 64
    ensures |s| == 32
  {
    ModL(MulAdd(Nonce(pr, d, msg), Challenge(pr, rEnc, pk, msg), d[..32]))
  }

  /** The signing steps for an expanded key d and the public key pk placed
      in the challenge. */
  function SignWith(pr: Primitives, msg: seq<int>, d: seq<int>, pk: seq<int>): (sig: seq<int>)
    requires |d| == 64
    ensures |sig| == 64
  {
    var rEnc := NoncePoint(pr, d, msg);
    rEnc + Response(pr, d, msg, rEnc, pk)
  }

  /** sign(message, secretKey) over the corrected modL: the first 64 bytes
      of crypto_sign's output, R ‖ S. The public key in the challenge is
      secretKey[32..64] as stored, not recomputed from the seed. */
  function Sign(pr: Primitives, msg: seq<int>, sk: seq<int>): (sig: seq<int>)
    requires |sk| == 64
    ensures |sig| == 64
  {
    SignWith(pr, msg, Expanded(pr, sk), sk[32..])
  }

  /** RFC 8032, section 5.1.6, on numbers: r and k are residues of the
      digests read little-endian and S = (r + k·s) mod L. */
  function SpecWith(pr: Primitives, msg: seq<int>, d: seq<int>, pk: seq<int>): (sig: seq<int>)
    requires |d| == 64
    ensures |sig| == 64
  {
    var s := Eval(d[..32], 256);
    var r := DigestScalar(Hash(pr, d[32..] + msg));
    var rEnc := PackPoint(ScalarBase(pr.add, LE(r, 32)));
    var k := DigestScalar(Hash(pr, rEnc + pk + msg));
    rEnc + SigScalar(r, k, s)
  }

  /** RFC 8032's S = (r + k·s) mod L as 32 little-endian bytes. */
  function SigScalar(r: int, k: int, s: int): (e: seq<int>)
    ensures |e| == 32
  {
    LE((r + k * s) % L, 32)
  }

  /** A digest read as a little-endian integer and reduced mod L. */
  function DigestScalar(h: seq<int>): int
  {
    Eval(h, 256) % L
  }

  /** Reference: the RFC 8032 signature of a seed, with the public key
      derived from the seed. */
  function SignSpec(pr: Primitives, msg: seq<int>, seed: seq<int>): (sig: seq<int>)
    requires |seed| == 32
    ensures |sig| == 64
  {
    SpecWith(pr, msg, Expanded(pr, seed), PublicKey(pr, seed))
  }

  /** A reduced hash is the little-endian encoding of the residue. */
  lemma ReducedHash(x: seq<int>)
    requires |x| == 64 && IsBytes(x)
    ensures Reduce(x)[..32] == LE(Eval(x, 256) % L, 32)
    ensures IsBytes(Reduce(x)[..32]) && Eval(Reduce(x)[..32], 256) == Eval(x, 256) % L
  {
    assert forall m :: 0 <= m < 64 ==> -InputBound <= x[m] <= InputBound;
    ModLReduces(x);
    assert Reduce(x)[..32] == ModL(x);
    LEOfEval(ModL(x));
  }

  /** The signature scalar S is the encoding of (r + k·a) mod L. */
  lemma SignScalar(r: seq<int>, k: seq<int>, d: seq<int>)
    requires |r| == 32 && |k| == 32 && |d| == 32
    requires IsBytes(r) && IsBytes(k) && IsBytes(d)
    ensures ModL(MulAdd(r, k, d)) == SigScalar(Eval(r, 256), Eval(k, 256), Eval(d, 256))
  {
    var x := MulAdd(r, k, d);
    MulAddValue(r, k, d);
    ModLReduces(x);
    SameResidue(x, r, k, d);
    LEOfEval(ModL(x));
  }

  lemma SameResidue(x: seq<int>, r: seq<int>, k: seq<int>, d: seq<int>)
    requires Eval(x, 256) == Eval(r, 256) + Eval(k, 256) * Eval(d, 256)
    ensures LE(Eval(x, 256) % L, 32) == SigScalar(Eval(r, 256), Eval(k, 256), Eval(d, 256))
  {
    ResidueOf(Eval(x, 256), Eval(r, 256), Eval(k, 256), Eval(d, 256));
  }

  lemma ResidueOf(v: int, a: int, b: int, c: int)
    requires v == a + b * c
    ensures LE(v % L, 32) == SigScalar(a, b, c)
  {
  }

  lemma ScalarValues(r: seq<int>, k: seq<int>, s: seq<int>, h1: seq<int>, h2: seq<int>)
    requires Eval(r, 256) == DigestScalar(h1) && Eval(k, 256) == DigestScalar(h2)
    ensures SigScalar(Eval(r, 256), Eval(k, 256), Eval(s, 256)) ==
      SigScalar(DigestScalar(h1), DigestScalar(h2), Eval(s, 256))
  {
  }

  lemma PrefixBytes(d: seq<int>)
    requires |d| == 64 && IsBytes(d)
    ensures IsBytes(d[..32])
  {
  }

  /** Only the first 32 bytes of a secret key reach the expansion. */
  lemma ExpandedPrefix(pr: Primitives, sk: seq<int>, sk': seq<int>)
    requires |sk| >= 32 && |sk'| >= 32 && sk[..32] == sk'[..32]
    ensures Expanded(pr, sk) == Expanded(pr, sk')
  {
  }

  lemma SeedExpansion(pr: Primitives, sk: seq<int>)
    requires |sk| >= 32
    ensures Expanded(pr, sk[..32]) == Expanded(pr, sk)
  {
    assert sk[..32][..32] == sk[..32];
  }

  /** The nonce is the encoding of the reduced digest of prefix ‖ m. */
  lemma NonceValue(pr: Primitives, d: seq<int>, msg: seq<int>)
    requires |d| == 64
    ensures Nonce(pr, d, msg) == LE(DigestScalar(Hash(pr, d[32..] + msg)), 32)
    ensures IsBytes(Nonce(pr, d, msg)) && Eval(Nonce(pr, d, msg), 256) == DigestScalar(Hash(pr, d[32..] + msg))
  {
    ReducedHash(Hash(pr, d[32..] + msg));
  }

  /** S is (r + k·s) mod L with r and k the reduced digests. */
  lemma ResponseValue(pr: Primitives, d: seq<int>, msg: seq<int>, rEnc: seq<int>, pk: seq<int>)
    requires |d| == 64 && IsBytes(d)
    ensures Response(pr, d, msg, rEnc, pk) ==
      SigScalar(DigestScalar(Hash(pr, d[32..] + msg)), DigestScalar(Hash(pr, rEnc + pk + msg)), Eval(d[..32], 256))
  {
    var r := Nonce(pr, d, msg);
    NonceValue(pr, d, msg);
    var h2 := Hash(pr, rEnc + pk + msg);
    ReducedHash(h2);
    var k := Challenge(pr, rEnc, pk, msg);
    PrefixBytes(d);
    SignScalar(r, k, d[..32]);
    ScalarValues(r, k, d[..32], Hash(pr, d[32..] + msg), h2);
  }

  /** The code's signing steps compute the numbers RFC 8032 prescribes. */
  lemma SignWithMatches(pr: Primitives, msg: seq<int>, d: seq<int>, pk: seq<int>)
    requires |d| == 64 && IsBytes(d)
    ensures SignWith(pr, msg, d, pk) == SpecWith(pr, msg, d, pk)
  {
    NonceValue(pr, d, msg);
    ResponseValue(pr, d, msg, NoncePoint(pr, d, msg), pk);
  }

  /** For a secret key as getKeypair assembles it (seed ‖ public key), sign
      produces the RFC 8032 signature of the seed. */
  lemma SignMatchesSpec(pr: Primitives, msg: seq<int>, sk: seq<int>)
    requires |sk| == 64 && IsBytes(sk) && sk[32..] == PublicKey(pr, sk[..32])
    ensures Sign(pr, msg, sk) == SignSpec(pr, msg, sk[..32])
  {
    SeedExpansion(pr, sk);
    SignWithMatches(pr, msg, Expanded(pr, sk), sk[32..]);
  }

  /** A signature is 64 bytes: R is an encoding and S a residue mod L. */
  lemma SignBytes(pr: Primitives, msg: seq<int>, sk: seq<int>)
    requires |sk| == 64
    ensures IsBytes(Sign(pr, msg, sk))
  {
    SignWithBytes(pr, msg, Expanded(pr, sk), sk[32..]);
  }

  lemma SignWithBytes(pr: Primitives, msg: seq<int>, d: seq<int>, pk: seq<int>)
    requires |d| == 64 && IsBytes(d)
    ensures IsBytes(SignWith(pr, msg, d, pk))
  {
    var rEnc := NoncePoint(pr, d, msg);
    ResponseBytes(pr, d, msg, rEnc, pk);
    BytesJoin(rEnc, Response(pr, d, msg, rEnc, pk));
  }

  lemma BytesJoin(a: seq<int>, b: seq<int>)
    requires IsBytes(a) && IsBytes(b)
    ensures IsBytes(a + b)
  {
    assert forall k :: 0 <= k < |a + b| ==> (a + b)[k] == if k < |a| then a[k] else b[k - |a|];
  }

  lemma ResponseBytes(pr: Primitives, d: seq<int>, msg: seq<int>, rEnc: seq<int>, pk: seq<int>)
    requires |d| == 64 && IsBytes(d)
    ensures IsBytes(Response(pr, d, msg, rEnc, pk))
  {
    var r := Nonce(pr, d, msg);
    NonceValue(pr, d, msg);
    ReducedHash(Hash(pr, rEnc + pk + msg));
    var k := Challenge(pr, rEnc, pk, msg);
    PrefixBytes(d);
    MulAddValue(r, k, d[..32]);
    ModLReduces(MulAdd(r, k, d[..32]));
  }

  /** R does not depend on the stored public key half of the secret key. */
  lemma NonceIgnoresPublicHalf(pr: Primitives, msg: seq<int>, sk: seq<int>, sk': seq<int>)
    requires |sk| == 64 && |sk'| == 64 && sk[..32] == sk'[..32]
    ensures Sign(pr, msg, sk)[..32] == Sign(pr, msg, sk')[..32]
  {
    ExpandedPrefix(pr, sk, sk');
  }

  // ---------------------------------------------------------------------
  // sign as lib/nacl.js writes it

  /** The nonce as lib/nacl.js:447-448 computes it with the as-written
      reduce. */
  function NonceAsWritten(pr: Primitives, d: seq<int>, msg: seq<int>): (r: seq<int>)
    requires |d| == 64
    ensures |r| == 32
  {
    ReduceAsWritten(Hash(pr, d[32..] + msg))[..32]
  }

  /** The challenge as lib/nacl.js:453-454 computes it with the as-written
      reduce. */
  function ChallengeAsWritten(pr: Primitives, rEnc: seq<int>, pk: seq<int>, msg: seq<int>): (k: seq<int>)
    ensures |k| == 32
  {
    ReduceAsWritten(Hash(pr, rEnc + pk + msg))[..32]
  }

  /** R for the as-written nonce. */
  function NoncePointAsWritten(pr: Primitives, d: seq<int>, msg: seq<int>): (rEnc: seq<int>)
    requires |d| == 64
    ensures |rEnc| == 32
  {
    PackPoint(ScalarBase(pr.add, NonceAsWritten(pr, d, msg)))
  }

  /** S as lib/nacl.js:456-464 computes it with the as-written modL. */
  function ResponseAsWritten(pr: Primitives, d: seq<int>, msg: seq<int>, rEnc: seq<int>, pk: seq<int>): (s: seq<int>)
    requires |d| == 64
    ensures |s| == 32
  {
    ModLAsWritten(MulAdd(NonceAsWritten(pr, d, msg), ChallengeAsWritten(pr, rEnc, pk, msg), d[..32]))
  }

  /** sign with every reduction mod L done by the as-written modL: reduce
      of the nonce digest (lib/nacl.js:448), reduce of the challenge digest
      (lib/nacl.js:454) and the final modL (lib/nacl.js:464). */
  function SignAsWritten(pr: Primitives, msg: seq<int>, sk: seq<int>): (sig: seq<int>)
    requires |sk| == 64
    ensures |sig| == 64
  {
    var d := Expanded(pr, sk);
    var rEnc := NoncePointAsWritten(pr, d, msg);
    rEnc + ResponseAsWritten(pr, d, msg, rEnc, sk[32..])
  }

  /** The as-written modL gives the residue on x. */
  predicate ReducesRight(x: seq<int>)
  {
    |x| == 64 && ModLAsWritten(x) == ModL(x)
  }

  /** The as-written modL agrees with the corrected one on the three values
      signing sk's message reduces. */
  predicate SignReducesRight(pr: Primitives, msg: seq<int>, sk: seq<int>)
    requires |sk| == 64
  {
    var d := Expanded(pr, sk);
    var rEnc := NoncePoint(pr, d, msg);
    ReducesRight(Hash(pr, d[32..] + msg)) && ReducesRight(Hash(pr, rEnc + sk[32..] + msg))
    && ReducesRight(MulAdd(Nonce(pr, d, msg), Challenge(pr, rEnc, sk[32..], msg), d[..32]))
  }

  /** Where the as-written modL agrees with the corrected one on the values
      it reduces, the as-written sign is the corrected sign. */
  lemma SignAsWrittenAgrees(pr: Primitives, msg: seq<int>, sk: seq<int>)
    requires |sk| == 64 && SignReducesRight(pr, msg, sk)
    ensures SignAsWritten(pr, msg, sk) == Sign(pr, msg, sk)
  {
    var d := Expanded(pr, sk);
    var rEnc := NoncePoint(pr, d, msg);
    NonceAgrees(pr, d, msg);
    ChallengeAgrees(pr, rEnc, sk[32..], msg);
    ResponseAgrees(pr, d, msg, rEnc, sk[32..]);
    SignWithSplit(pr, msg, d, sk[32..], NoncePointAsWritten(pr, d, msg), ResponseAsWritten(pr, d, msg, rEnc, sk[32..]));
  }

  lemma NonceAgrees(pr: Primitives, d: seq<int>, msg: seq<int>)
    requires |d| == 64 && ReducesRight(Hash(pr, d[32..] + msg))
    ensures NonceAsWritten(pr, d, msg) == Nonce(pr, d, msg)
    ensures NoncePointAsWritten(pr, d, msg) == NoncePoint(pr, d, msg)
  {
  }

  lemma ResponseAgrees(pr: Primitives, d: seq<int>, msg: seq<int>, rEnc: seq<int>, pk: seq<int>)
    requires |d| == 64 && NonceAsWritten(pr, d, msg) == Nonce(pr, d, msg)
    requires ChallengeAsWritten(pr, rEnc, pk, msg) == Challenge(pr, rEnc, pk, msg)
    requires ReducesRight(MulAdd(Nonce(pr, d, msg), Challenge(pr, rEnc, pk, msg), d[..32]))
    ensures ResponseAsWritten(pr, d, msg, rEnc, pk) == Response(pr, d, msg, rEnc, pk)
  {
  }

  lemma ChallengeAgrees(pr: Primitives, rEnc: seq<int>, pk: seq<int>, msg: seq<int>)
    requires ReducesRight(Hash(pr, rEnc + pk + msg))
    ensures ChallengeAsWritten(pr, rEnc, pk, msg) == Challenge(pr, rEnc, pk, msg)
  {
  }



  /** SignWith is R followed by S. */
  lemma SignWithSplit(pr: Primitives, msg: seq<int>, d: seq<int>, pk: seq<int>, rEnc: seq<int>, s: seq<int>)
    requires |d| == 64 && rEnc == NoncePoint(pr, d, msg) && s == Response(pr, d, msg, rEnc, pk)
    ensures SignWith(pr, msg, d, pk) == rEnc + s
  {
  }

  /** A nonce digest equal to the counterexample of ScalarModL gets a nonce
      that is not its residue modulo L, so R differs from RFC 8032's
      [r]B unless the two scalars happen to give the same point. */
  lemma NonceAsWrittenWrong(pr: Primitives, msg: seq<int>, sk: seq<int>)
    requires |sk| == 64
    requires IsCounterInput(Hash(pr, Expanded(pr, sk)[32..] + msg))
    ensures var h := Hash(pr, Expanded(pr, sk)[32..] + msg);
      Eval(NonceAsWritten(pr, Expanded(pr, sk), msg), 256) != DigestScalar(h)
      && Eval(Nonce(pr, Expanded(pr, sk), msg), 256) == DigestScalar(h)
  {
    var d := Expanded(pr, sk);
    ReduceAsWrittenMisreduces(Hash(pr, d[32..] + msg));
    NonceValue(pr, d, msg);
  }
}
