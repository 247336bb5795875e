/** The Edwards-curve driver of the TweetNaCl port (lib/nacl.js:358-396):
    the constant-time swap of two points, the Montgomery-ladder shape of
    scalarmult, the base-point setup and the point encoding. The point
    addition formula itself is a parameter: only what the ladder does with
    it is modelled. */
module Curve {
  import opened Positional
  import opened JsInt
  import opened Field25519
  import opened FieldMul
  import opened FieldPack
  import opened CarryBounds
  import opened ByteOrder

  /** A point in extended coordinates (X : Y : Z : T), four limb arrays. */
  datatype Point = Point(x: Gf, y: Gf, z: Gf, t: Gf)

  /** `add(p, q)` of lib/nacl.js:358-366 as a function: the new value of p. */
  type PointAdd = (Point, Point) -> Point

  const Gf0: Gf := [0, 0, 0, 0, 0, 0, 0, 0, 0, 0, 0, 0, 0, 0, 0, 0]
  const Gf1: Gf := [1, 0, 0, 0, 0, 0, 0, 0, 0, 0, 0, 0, 0, 0, 0, 0]

  /** The affine coordinates of the standard base point (lib/nacl.js:14-15). */
  const BaseX: Gf := [0xd51a, 0x8f25, 0x2d60, 0xc956, 0xa7b2, 0x9525, 0xc760, 0x692c,
                      0xdc5c, 0xfdd6, 0xe231, 0xc0a4, 0x53fe, 0xcd6e, 0x36d3, 0x2169]
  const BaseY: Gf := [0x6658, 0x6666, 0x6666, 0x6666, 0x6666, 0x6666, 0x6666, 0x6666,
                      0x6666, 0x6666, 0x6666, 0x6666, 0x6666, 0x6666, 0x6666, 0x6666]

  /** The highest scalar bit the ladder reads. */
  const BitTop: nat := 255

  /** The neutral element (0 : 1 : 1 : 0) that scalarmult starts from. */
  function Neutral(): Point
  {
    Point(Gf0, Gf1, Gf1, Gf0)
  }

  function WrapPoint(p: Point): Point
  {
    Point(Wrap(p.x), Wrap(p.y), Wrap(p.z), Wrap(p.t))
  }

  // ---------------------------------------------------------------------
  // cswap (lib/nacl.js:368-370)

  /** cswap: sel25519 on each of the four coordinates. */
  function CSwap(p: Point, q: Point, b: int): (r: (Point, Point))
    requires b == 0 || b == 1
    ensures r == if b == 1 then (WrapPoint(q), WrapPoint(p)) else (WrapPoint(p), WrapPoint(q))
  {
    var sx := Sel25519(p.x, q.x, b);
    var sy := Sel25519(p.y, q.y, b);
    var sz := Sel25519(p.z, q.z, b);
    var st := Sel25519(p.t, q.t, b);
    (Point(sx.0, sy.0, sz.0, st.0), Point(sx.1, sy.1, sz.1, st.1))
  }

  lemma WrapTwice(g: Gf)
    ensures Wrap(Wrap(g)) == Wrap(g)
  {
  }

  /** Swapping twice with the same bit gives both points back, limbs
      stored as Int32. */
  lemma CSwapTwice(p: Point, q: Point, b: int)
    requires b == 0 || b == 1
    ensures CSwap(CSwap(p, q, b).0, CSwap(p, q, b).1, b) == (WrapPoint(p), WrapPoint(q))
  {
    WrapTwice(p.x);
    WrapTwice(p.y);
    WrapTwice(p.z);
    WrapTwice(p.t);
    WrapTwice(q.x);
    WrapTwice(q.y);
    WrapTwice(q.z);
    WrapTwice(q.t);
  }

  // ---------------------------------------------------------------------
  // The ladder of scalarmult (lib/nacl.js:380-389)

  /** Bit i of the scalar: `(s[(i/8)|0] >> (i&7)) & 1`. */
  function Bit(s: seq<int>, i: nat): (b: int)
    requires i < 8 * |s|
    ensures b == 0 || b == 1
  {
    PowOne(2);
    Low(Shr(s[i / 8], i % 8), 1)
  }

  /** One turn of the loop: swap, `add(q, p)`, `add(p, p)`, swap back. */
  function Rung(add: PointAdd, p: Point, q: Point, b: int): (r: (Point, Point))
    requires b == 0 || b == 1
  {
    var w := CSwap(p, q, b);
    var q1 := add(w.1, w.0);
    var p1 := add(w.0, w.0);
    CSwap(p1, q1, b)
  }

  /** The loop from bit i down to bit 0. */
  function Ladder(add: PointAdd, p: Point, q: Point, s: seq<int>, i: int): (r: (Point, Point))
    requires -1 <= i < 8 * |s|
    decreases i + 1
  {
    if i < 0 then (p, q)
    else
      var n := Rung(add, p, q, Bit(s, i));
      Ladder(add, n.0, n.1, s, i - 1)
  }

  /** scalarmult: p starts at the neutral element, q is the point. */
  function ScalarMult(add: PointAdd, q: Point, s: seq<int>): (p: Point)
    requires |s| == 32
  {
    Ladder(add, Neutral(), q, s, BitTop).0
  }

  /** The base point in extended coordinates: (X, Y, 1, X·Y). */
  function BasePoint(): Point
  {
    Point(BaseX, BaseY, Gf1, Mul(BaseX, BaseY))
  }

  /** scalarbase: the ladder run on the base point. */
  function ScalarBase(add: PointAdd, s: seq<int>): (p: Point)
    requires |s| == 32
  {
    ScalarMult(add, BasePoint(), s)
  }

  /** The addition as the ladder uses it: on Int32-stored limbs, with the
      result stored back through a swap. */
  function Sum(add: PointAdd, a: Point, b: Point): Point
  {
    WrapPoint(add(WrapPoint(a), WrapPoint(b)))
  }

  /** The swaps are the branch-free form of the textbook ladder rung: bit 0
      doubles the first register and adds into the second, bit 1 adds into
      the first and doubles the second. */
  lemma RungBranches(add: PointAdd, p: Point, q: Point, b: int)
    requires b == 0 || b == 1
    ensures b == 0 ==> Rung(add, p, q, b) == (Sum(add, p, p), Sum(add, q, p))
    ensures b == 1 ==> Rung(add, p, q, b) == (Sum(add, p, q), Sum(add, q, q))
  {
  }

  /** The number formed by the bits above i, most significant first: what
      the ladder has consumed when it reaches bit i. */
  function Consumed(s: seq<int>, i: int): (k: nat)
    requires -1 <= i < 8 * |s|
    decreases 8 * |s| - i
  {
    if i == 8 * |s| - 1 then 0 else 2 * Consumed(s, i + 1) + Bit(s, i + 1)
  }

  /** A reading of points as residues modulo n under which the addition is
      a group operation on the points satisfying `on`. */
  ghost predicate Homomorphic(add: PointAdd, val: Point -> int, n: int, on: Point -> bool)
  {
    n > 0 &&
    forall a, b {:trigger Sum(add, a, b)} :: on(a) && on(b) ==>
      on(Sum(add, a, b)) && val(Sum(add, a, b)) % n == (val(a) + val(b)) % n
  }

  /** Under that reading, p stands for the multiple k of v. */
  ghost predicate Holds(val: Point -> int, n: int, on: Point -> bool, p: Point, k: int, v: int)
  {
    n > 0 && on(p) && val(p) % n == (k * v) % n
  }

  lemma ModSum(a: int, b: int, x: int, y: int, n: int)
    requires n > 0 && a % n == x % n && b % n == y % n
    ensures (a + b) % n == (x + y) % n
  {
    var k := (a / n - x / n) + (b / n - y / n);
    assert a + b == (x + y) + k * n by {
      assert a == a / n * n + a % n;
      assert x == x / n * n + x % n;
      assert b == b / n * n + b % n;
      assert y == y / n * n + y % n;
      assert k * n == (a / n) * n - (x / n) * n + (b / n) * n - (y / n) * n;
    }
    ModShiftEq(a + b, x + y, k, n);
  }

  /** Adding multiples ka and kb of v gives the multiple ka + kb. */
  lemma SumHolds(add: PointAdd, val: Point -> int, n: int, on: Point -> bool,
                 a: Point, ka: int, b: Point, kb: int, v: int, k: int)
    requires Homomorphic(add, val, n, on)
    requires Holds(val, n, on, a, ka, v) && Holds(val, n, on, b, kb, v) && k == ka + kb
    ensures Holds(val, n, on, Sum(add, a, b), k, v)
  {
    SumArith(val(a), val(b), val(Sum(add, a, b)), ka, kb, v, k, n);
  }

  lemma SumArith(va: int, vb: int, vs: int, ka: int, kb: int, v: int, k: int, n: int)
    requires n > 0 && k == ka + kb
    requires va % n == (ka * v) % n && vb % n == (kb * v) % n && vs % n == (va + vb) % n
    ensures vs % n == (k * v) % n
  {
    ModSum(va, vb, ka * v, kb * v, n);
    assert k * v == ka * v + kb * v;
  }

  /** The textbook ladder with branches instead of swaps (the reference). */
  function BranchLadder(add: PointAdd, p: Point, q: Point, s: seq<int>, i: int): (r: (Point, Point))
    requires -1 <= i < 8 * |s|
    decreases i + 1
  {
    if i < 0 then (p, q)
    else if Bit(s, i) == 0 then BranchLadder(add, Sum(add, p, p), Sum(add, q, p), s, i - 1)
    else BranchLadder(add, Sum(add, p, q), Sum(add, q, q), s, i - 1)
  }

  /** The constant-time ladder computes the branching one. */
  lemma {:induction false} LadderBranches(add: PointAdd, p: Point, q: Point, s: seq<int>, i: int)
    requires -1 <= i < 8 * |s|
    ensures Ladder(add, p, q, s, i) == BranchLadder(add, p, q, s, i)
    decreases i + 1
  {
    if i >= 0 {
      var r := Rung(add, p, q, Bit(s, i));
      RungBranches(add, p, q, Bit(s, i));
      LadderBranches(add, r.0, r.1, s, i - 1);
    }
  }

  /** Doubling and adding take the multiples (k, k + 1) of v to (k', k' + 1)
      with k' = 2k + b. */
  lemma BranchValue(add: PointAdd, val: Point -> int, n: int, on: Point -> bool,
                    p: Point, q: Point, b: int, k: int, k': int, v: int)
    requires Homomorphic(add, val, n, on) && (b == 0 || b == 1) && k' == 2 * k + b
    requires Holds(val, n, on, p, k, v) && Holds(val, n, on, q, k + 1, v)
    ensures b == 0 ==> Holds(val, n, on, Sum(add, p, p), k', v) && Holds(val, n, on, Sum(add, q, p), k' + 1, v)
    ensures b == 1 ==> Holds(val, n, on, Sum(add, p, q), k', v) && Holds(val, n, on, Sum(add, q, q), k' + 1, v)
  {
    if b == 0 {
      SumHolds(add, val, n, on, p, k, p, k, v, k');
      SumHolds(add, val, n, on, q, k + 1, p, k, v, k' + 1);
    } else {
      SumHolds(add, val, n, on, p, k, q, k + 1, v, k');
      SumHolds(add, val, n, on, q, k + 1, q, k + 1, v, k' + 1);
    }
  }

  lemma ConsumedStep(s: seq<int>, i: int)
    requires 0 <= i < 8 * |s|
    ensures Consumed(s, i - 1) == 2 * Consumed(s, i) + Bit(s, i)
  {
  }

  /** The ladder invariant: the registers hold the multiples (k, k + 1) of v
      where k is the part of the scalar consumed so far. */
  lemma {:induction false} LadderValue(add: PointAdd, val: Point -> int, n: int, on: Point -> bool,
                                       p: Point, q: Point, s: seq<int>, i: int, v: int)
    requires Homomorphic(add, val, n, on) && -1 <= i < 8 * |s|
    requires Holds(val, n, on, p, Consumed(s, i), v) && Holds(val, n, on, q, Consumed(s, i) + 1, v)
    ensures Holds(val, n, on, BranchLadder(add, p, q, s, i).0, Consumed(s, -1), v)
    decreases i + 1
  {
    if i >= 0 {
      var b := Bit(s, i);
      ConsumedStep(s, i);
      BranchValue(add, val, n, on, p, q, b, Consumed(s, i), Consumed(s, i - 1), v);
      if b == 0 {
        LadderValue(add, val, n, on, Sum(add, p, p), Sum(add, q, p), s, i - 1, v);
      } else {
        LadderValue(add, val, n, on, Sum(add, p, q), Sum(add, q, q), s, i - 1, v);
      }
    }
  }

  /** scalarmult computes the scalar multiple [s]q, for any reading of the
      points that turns the addition into a group law. */
  lemma ScalarMultValue(add: PointAdd, val: Point -> int, n: int, on: Point -> bool, q: Point, s: seq<int>)
    requires Homomorphic(add, val, n, on) && on(Neutral()) && on(q)
    requires val(Neutral()) % n == 0
    requires |s| == 32 && IsBytes(s)
    ensures on(ScalarMult(add, q, s)) && val(ScalarMult(add, q, s)) % n == (Eval(s, 256) * val(q)) % n
  {
    var v := val(q);
    LadderStart(s);
    assert Holds(val, n, on, Neutral(), 0, v);
    assert Holds(val, n, on, q, 1, v);
    LadderValue(add, val, n, on, Neutral(), q, s, BitTop, v);
    LadderBranches(add, Neutral(), q, s, BitTop);
    ConsumedAll(s);
  }

  lemma LadderStart(s: seq<int>)
    requires |s| == 32
    ensures Consumed(s, BitTop) == 0
  {
  }

  lemma ConsumedAll(s: seq<int>)
    requires IsBytes(s)
    ensures Consumed(s, -1) == Eval(s, 256)
  {
    ConsumedValue(s, -1);
    assert Pow(2, 0) == 1;
  }

  // ---------------------------------------------------------------------
  // The bits of a little-endian scalar

  lemma {:induction false} BytePow(k: nat)
    ensures Pow(256, k) == Pow(2, 8 * k)
    decreases k
  {
    if k > 0 {
      BytePow(k - 1);
      PowAdd(2, 8, 8 * (k - 1));
      PowFacts();
    }
  }

  /** Bit i of s is bit i of the number s encodes. */
  lemma BitOfScalar(s: seq<int>, i: nat)
    requires IsBytes(s) && i < 8 * |s|
    ensures Bit(s, i) == (Eval(s, 256) / Pow(2, i)) % 2
  {
    var k, j := i / 8, i % 8;
    var x, y := s[k], Eval(s[k + 1..], 256);
    ByteBit(x, j);
    ScalarShift(s, i);
    TailByte(s, k);
    HigherBits(x, y, j);
    BitChain(Bit(s, i), Eval(s, 256) / Pow(2, i), Eval(s[k..], 256), x, y, Pow(2, j));
  }

  /** The equalities of BitOfScalar, chained over plain integers. */
  lemma BitChain(b: int, shifted: int, tail: int, x: int, y: int, p: int)
    requires p > 0
    requires b == (x / p) % 2
    requires shifted == tail / p && tail == x + 256 * y
    requires ((x + 256 * y) / p) % 2 == (x / p) % 2
    ensures b == shifted % 2
  {
  }

  /** Shifting the number right by i bits drops i / 8 bytes, then i % 8 bits. */
  lemma ScalarShift(s: seq<int>, i: nat)
    requires IsBytes(s) && i < 8 * |s|
    ensures Eval(s, 256) / Pow(2, i) == Eval(s[i / 8..], 256) / Pow(2, i % 8)
  {
    var k, j := i / 8, i % 8;
    EvalDropLow(s, k, 256);
    PowAdd(2, 8 * k, j);
    BytePow(k);
    DivDiv(Eval(s, 256), Pow(256, k), Pow(2, j));
  }

  /** The suffix from byte k is that byte plus 256 times the rest. */
  lemma TailByte(s: seq<int>, k: nat)
    requires k < |s|
    ensures Eval(s[k..], 256) == s[k] + 256 * Eval(s[k + 1..], 256)
  {
    assert s[k..] == [s[k]] + s[k + 1..];
    EvalCons(s[k], s[k + 1..], 256);
  }

  lemma ByteBit(x: int, j: nat)
    requires 0 <= x < 256 && j < 8
    ensures Low(Shr(x, j), 1) == (x / Pow(2, j)) % 2
  {
    PowOne(2);
  }

  /** Bits of the next bytes do not disturb bit j of the low byte. */
  lemma HigherBits(x: int, y: int, j: nat)
    requires j < 8
    ensures ((x + 256 * y) / Pow(2, j)) % 2 == (x / Pow(2, j)) % 2
  {
    PowAdd(2, j, 7 - j);
    PowFacts();
    assert Pow(2, 8) == 2 * Pow(2, 7);
    HigherArith(x, y, Pow(2, j), Pow(2, 7 - j));
  }

  lemma HigherArith(x: int, y: int, d: int, h: int)
    requires d > 0 && 256 == 2 * (d * h)
    ensures ((x + 256 * y) / d) % 2 == (x / d) % 2
  {
    var m := (h * y) * 2;
    assert 256 * y == m * d by {
      MulAssoc(2 * d, h, y);
      MulAssoc(2, d, h);
    }
    AddMultiple(x, x + 256 * y, m, d);
    AddMultiple(x / d, x / d + m, h * y, 2);
  }

  lemma Halve(e: int, d: int)
    requires d > 0
    ensures e / d == 2 * (e / (d * 2)) + (e / d) % 2
  {
    DivDiv(e, d, 2);
  }

  /** The consumed bits are the scalar with its low i + 1 bits shifted out. */
  lemma {:induction false} ConsumedValue(s: seq<int>, i: int)
    requires IsBytes(s) && -1 <= i < 8 * |s|
    ensures Consumed(s, i) == Eval(s, 256) / Pow(2, i + 1)
    decreases 8 * |s| - i
  {
    var e := Eval(s, 256);
    if i == 8 * |s| - 1 {
      EvalBounds(s, 256);
      BytePow(|s|);
      DivUnique(e, Pow(2, i + 1), 0, e);
    } else {
      ConsumedValue(s, i + 1);
      BitOfScalar(s, i + 1);
      PowSucc(2, i + 1);
      assert Pow(2, i + 2) == Pow(2, i + 1) * 2;
      Halve(e, Pow(2, i + 1));
    }
  }

  // ---------------------------------------------------------------------
  // pack (lib/nacl.js:372-378)

  /** The affine coordinates X/Z and Y/Z. */
  function Affine(p: Point): (a: (Gf, Gf))
    ensures Value(a.0) % P == (Value(p.x) * Value(Inv25519(p.z))) % P
    ensures Value(a.1) % P == (Value(p.y) * Value(Inv25519(p.z))) % P
  {
    var zi := Inv25519(p.z);
    (Mul(p.x, zi), Mul(p.y, zi))
  }

  /** pack: the encoding of y with the parity of x xored into the top bit. */
  function PackPoint(p: Point): (r: seq<int>)
    ensures |r| == 32 && IsBytes(r)
  {
    var a := Affine(p);
    XorTop(Pack25519(a.1), Par25519(a.0))
  }

  /** `y[31] ^= bit << 7`, stored back into a Uint8Array (so modulo 256). */
  function XorTop(y: seq<int>, bit: int): (r: seq<int>)
    requires |y| == 32 && IsBytes(y) && (bit == 0 || bit == 1)
    ensures |r| == 32 && IsBytes(r) && r[..31] == y[..31]
  {
    PowFacts();
    y[31 := Low(Xor(U32(y[31]), U32(Shl(bit, 7))), 8)]
  }

  /** Xor with a multiple of 2^k leaves the k low bits alone. */
  lemma {:induction false} XorHigh(a: nat, b: nat, k: nat)
    requires a < Pow(2, k)
    ensures Xor(a, b * Pow(2, k)) == a + b * Pow(2, k)
    decreases k
  {
    if k > 0 && a != 0 && b != 0 {
      var w := Pow(2, k - 1);
      var t := b * Pow(2, k);
      assert t == (b * w) * 2 by {
        MulAssoc(b, w, 2);
      }
      DivUnique(t, 2, b * w, 0);
      XorHigh(a / 2, b, k - 1);
      XorEven(a, t, a / 2 + b * w);
    }
  }

  /** One bit of Xor against an even number, given the xor of the halves. */
  lemma XorEven(a: nat, t: nat, h: nat)
    requires a != 0 && t != 0 && t % 2 == 0
    requires Xor(a / 2, t / 2) == h
    ensures Xor(a, t) == 2 * h + a % 2
  {
  }

  lemma PowSeven()
    ensures Pow(2, 7) == 128 && 128 * Pow(256, 31) == TWO255
  {
    PowFacts();
    assert Pow(2, 8) == 2 * Pow(2, 7);
    RadixFacts();
    PowSquare(256, 15);
    PowSucc(256, 30);
  }

  /** The stored top byte: for a clear top bit, bit lands in bit 7. */
  lemma TopByte(v: int, bit: int)
    requires 0 <= v < 128 && (bit == 0 || bit == 1)
    ensures Low(Xor(U32(v), U32(Shl(bit, 7))), 8) == v + 128 * bit
  {
    PowSeven();
    PowFacts();
    assert Shl(bit, 7) == bit * 128;
    assert U32(v) == v && U32(bit * 128) == bit * 128;
    XorHigh(v, bit, 7);
  }

  /** On a clear top bit the xor sets bit 255 of the encoded number to bit. */
  lemma XorTopValue(y: seq<int>, bit: int)
    requires |y| == 32 && IsBytes(y) && (bit == 0 || bit == 1) && y[31] < 128
    ensures XorTop(y, bit) == y[31 := y[31] + 128 * bit]
    ensures Eval(XorTop(y, bit), 256) == Eval(y, 256) + TWO255 * bit
  {
    TopByte(y[31], bit);
    PowSeven();
    EvalUpdate(y, 31, y[31] + 128 * bit, 256);
  }

  /** RFC 8032's encoding of a point (section 5.1.2) read as a
      little-endian integer: y modulo p with the parity of x in bit 255. */
  function EncodedValue(p: Point): int
  {
    var a := Affine(p);
    Value(a.1) % P + TWO255 * ((Value(a.0) % P) % 2)
  }

  /** For canonical limbs, the encoding is RFC 8032's (section 5.1.2): y
      modulo p in little-endian order with the low bit of x on top. */
  lemma PackPointValue(p: Point)
    requires Exact(Affine(p).0) && Exact(Affine(p).1)
    ensures Eval(PackPoint(p), 256) == Value(Affine(p).1) % P + TWO255 * ((Value(Affine(p).0) % P) % 2)
  {
    var a := Affine(p);
    var y := Pack25519(a.1);
    PackValue(a.1);
    ParValue(a.0);
    TopByteClear(y);
    XorTopValue(y, Par25519(a.0));
  }

  /** A value below p has a clear top bit. */
  lemma TopByteClear(y: seq<int>)
    requires |y| == 32 && IsBytes(y) && Eval(y, 256) < P
    ensures y[31] < 128
  {
    EvalPrefix(y, 31, 256);
    assert y[..32] == y;
    EvalBounds(y[..31], 256);
    PowSeven();
    if y[31] >= 128 {
      MulLe(128, y[31], Pow(256, 31));
    }
  }
}
