/** Reduction modulo the order L of the Ed25519 base point: `modL` and
    `reduce` of lib/nacl.js. The 64 limbs of the input are the
    little-endian base-256 digits of a number, held in a Float64Array, so
    they may exceed a byte and be negative while the arithmetic stays
    exact; here they are unbounded integers. */
module ScalarModL {
  import opened Positional
  import opened JsInt

  /** L = 2^252 + 27742317777372353535851937790883648493. */
  const L: int := 0x1000000000000000000000000000000014def9dea2f79cd65812631a5cf5d3ed

  /** The bytes of L, least significant first. */
  const LBytes: seq<int> := [0xed, 0xd3, 0xf5, 0x5c, 0x1a, 0x63, 0x12, 0x58,
                             0xd6, 0x9c, 0xf7, 0xa2, 0xde, 0xf9, 0xde, 0x14,
                             0, 0, 0, 0, 0, 0, 0, 0,
                             0, 0, 0, 0, 0, 0, 0, 0x10]

  /** L without its top byte: the value of bytes 0..19 of L. */
  const LLow: int := 0x14def9dea2f79cd65812631a5cf5d3ed

  /** 256^31, the weight of the top byte of a 32-byte number. */
  const TWO248: int := 0x100000000000000000000000000000000000000000000000000000000000000

  /** 256^32, the weight of limb 32. */
  const TWO256: int := 256 * TWO248

  /** A bound on the input limbs: crypto_sign feeds sums of at most 32
      products of two bytes plus a byte, all below 2^21. */
  const InputBound: int := 0x20_0000

  /** A bound on every limb during the first phase. */
  const LimbBound: int := 0x20_4000

  /** Where the first phase adds its carry: at limb i - Intended, as
      TweetNaCl does, or at limb i - AsWritten, as lib/nacl.js does. */
  const Intended: nat := 12
  const AsWritten: nat := 20

  /** The index of the top limb, where the first phase starts. */
  const Top: nat := 63

  /** Bytes k..n-1 of L read as one number (Horner form). */
  function LTail(k: nat, n: nat): int
    requires k <= n <= 32
    decreases n - k
  {
    if k == n then 0 else LBytes[k] + 256 * LTail(k + 1, n)
  }

  lemma LFacts()
    ensures LTail(0, 20) == LLow && LTail(0, 32) == L
    ensures L == LLow + 16 * TWO248
  {
    assert LTail(19, 20) == 0x0;
    assert LTail(18, 20) == 0x0;
    assert LTail(16, 20) == 0x0;
    assert LTail(14, 20) == 0x14de;
    assert LTail(12, 20) == 0x14def9de;
    assert LTail(10, 20) == 0x14def9dea2f7;
    assert LTail(8, 20) == 0x14def9dea2f79cd6;
    assert LTail(6, 20) == 0x14def9dea2f79cd65812;
    assert LTail(4, 20) == 0x14def9dea2f79cd65812631a;
    assert LTail(2, 20) == 0x14def9dea2f79cd65812631a5cf5;
    assert LTail(0, 20) == 0x14def9dea2f79cd65812631a5cf5d3ed;
    assert LTail(31, 32) == 0x10;
    assert LTail(30, 32) == 0x1000;
    assert LTail(28, 32) == 0x10000000;
    assert LTail(26, 32) == 0x100000000000;
    assert LTail(24, 32) == 0x1000000000000000;
    assert LTail(22, 32) == 0x10000000000000000000;
    assert LTail(20, 32) == 0x100000000000000000000000;
    assert LTail(18, 32) == 0x1000000000000000000000000000;
    assert LTail(16, 32) == 0x10000000000000000000000000000000;
    assert LTail(14, 32) == 0x1000000000000000000000000000000014de;
    assert LTail(12, 32) == 0x1000000000000000000000000000000014def9de;
    assert LTail(10, 32) == 0x1000000000000000000000000000000014def9dea2f7;
    assert LTail(8, 32) == 0x1000000000000000000000000000000014def9dea2f79cd6;
    assert LTail(6, 32) == 0x1000000000000000000000000000000014def9dea2f79cd65812;
    assert LTail(4, 32) == 0x1000000000000000000000000000000014def9dea2f79cd65812631a;
    assert LTail(2, 32) == 0x1000000000000000000000000000000014def9dea2f79cd65812631a5cf5;
  }

  /** LFacts at a symbolic argument, so that no literal call of LTail
      is unfolded where it is used. */
  lemma LowTail(k: nat)
    requires k == 0
    ensures LTail(k, 20) == LLow
  {
    LFacts();
  }

  lemma LTailStep(k: nat, n: nat)
    requires k < n <= 32
    ensures LTail(k, n) == LBytes[k] + 256 * LTail(k + 1, n)
  {
  }

  lemma LBytesRange(t: nat)
    requires t < 32
    ensures 0 <= LBytes[t] <= 255
    ensures 16 <= t < 31 ==> LBytes[t] == 0
  {
  }

  /** The inner loop of the first phase at outer index i: limbs j..i-13
      lose 16·xi·L·256^(i-32) digit by digit, each rounded into
      [-128, 128) with the rounding carried on; returns the limbs and the
      carry left at position i - 12. */
  function Inner(x: seq<int>, xi: int, i: nat, j: nat, c: int): (r: (seq<int>, int))
    requires 32 <= i < |x| && i - 32 <= j <= i - 12
    ensures |r.0| == |x|
    decreases i - 12 - j
  {
    if j == i - 12 then (x, c)
    else
      var n := InnerNext(x, xi, i, j, c);
      Inner(n.0, xi, i, j + 1, n.1)
  }

  /** One step of the inner loop: limb j less 16·xi times byte j - (i - 32)
      of L, plus the incoming carry, rounded; with the carry it passes on. */
  function InnerNext(x: seq<int>, xi: int, i: nat, j: nat, c: int): (n: (seq<int>, int))
    requires 32 <= i < |x| && i - 32 <= j < i - 12
    ensures |n.0| == |x|
  {
    var v := InnerSum(x, xi, i, j, c);
    (x[j := v - RoundCarry(v) * 256], RoundCarry(v))
  }

  /** Limb j of the inner loop before it is rounded. */
  function InnerSum(x: seq<int>, xi: int, i: nat, j: nat, c: int): int
    requires 32 <= i < |x| && i - 32 <= j < i - 12
  {
    x[j] + c - 16 * xi * LBytes[j - (i - 32)]
  }

  /** `Math.floor((v + 128) / 256)`: the carry that leaves v - 256·carry
      in [-128, 128). */
  function RoundCarry(v: int): int
  {
    (v + 128) / 256
  }

  lemma InnerStep(e: int, e1: int, y: int, w: int, w2: int, xj: int, nd: int, c: int, xi: int,
                  lt: int, k: int, t1: int, t0: int)
    requires e1 == e + (nd - xj) * w && nd == xj + c - 16 * xi * lt - k * 256
    requires y == e1 + w2 * (k - 16 * xi * t1)
    requires w2 == 256 * w && t0 == lt + 256 * t1
    ensures y == e + w * (c - 16 * xi * t0)
  {
    assert w2 * (k - 16 * xi * t1) == 256 * w * k - w * (16 * xi * (256 * t1)) by {
      MulRotate(w, 256, k);
      MulRotate(w, 256, 16 * xi * t1);
    }
  }

  lemma NothingLeft(p: int, q: int, c: int, xi: int, lt: int)
    requires p == q && lt == 0
    ensures c * q == p * (c - 16 * xi * lt)
  {
  }

  /** Limbs r.0 with the carry r.1 at limb i - 12. */
  function Carried(r: (seq<int>, int), i: nat): int
    requires i >= 12
  {
    Eval(r.0, 256) + r.1 * Pow(256, i - 12)
  }

  /** Limbs x with the carry c at limb j, less the part of
      16·xi·L·256^(i-32) from byte j - (i - 32) of L on. */
  function Pending(x: seq<int>, xi: int, i: nat, j: nat, c: int): int
    requires 32 <= i && i - 32 <= j <= i - 12
  {
    Eval(x, 256) + Pow(256, j) * (c - 16 * xi * LTail(j - (i - 32), 20))
  }

  /** What the inner loop leaves is the input less the part of
      16·xi·L·256^(i-32) it has reached, with the carry at i - 12. */
  lemma {:induction false} InnerValue(x: seq<int>, xi: int, i: nat, j: nat, c: int)
    requires 32 <= i < |x| && i - 32 <= j <= i - 12
    ensures Carried(Inner(x, xi, i, j, c), i) == Pending(x, xi, i, j, c)
    decreases i - 12 - j
  {
    if j < i - 12 {
      var n := InnerNext(x, xi, i, j, c);
      InnerValue(n.0, xi, i, j + 1, n.1);
      NextValue(x, xi, i, j, c);
    } else {
      InnerDone(x, xi, i, j, c);
    }
  }

  lemma InnerDone(x: seq<int>, xi: int, i: nat, j: nat, c: int)
    requires 32 <= i < |x| && j == i - 12
    ensures Carried(Inner(x, xi, i, j, c), i) == Pending(x, xi, i, j, c)
  {
    assert Inner(x, xi, i, j, c) == (x, c);
    assert LTail(j - (i - 32), 20) == 0;
    NothingLeft(Pow(256, j), Pow(256, i - 12), c, xi, LTail(j - (i - 32), 20));
  }

  /** One inner step moves the part of the subtraction it performs from
      the pending term into the limbs. */
  lemma NextValue(x: seq<int>, xi: int, i: nat, j: nat, c: int)
    requires 32 <= i < |x| && i - 32 <= j < i - 12
    ensures Pending(InnerNext(x, xi, i, j, c).0, xi, i, j + 1, InnerNext(x, xi, i, j, c).1)
         == Pending(x, xi, i, j, c)
  {
    var t := j - (i - 32);
    var n := InnerNext(x, xi, i, j, c);
    var nd := n.0[j];
    assert nd == x[j] + c - 16 * xi * LBytes[t] - n.1 * 256;
    assert n.0 == x[j := nd];
    assert Eval(n.0, 256) == Eval(x, 256) + (nd - x[j]) * Pow(256, j) by {
      EvalUpdate(x, j, nd, 256);
    }
    assert Pow(256, j + 1) == 256 * Pow(256, j) by {
      PowSucc(256, j);
    }
    assert j + 1 - (i - 32) == t + 1;
    assert LTail(t, 20) == LBytes[t] + 256 * LTail(t + 1, 20) by {
      LTailStep(t, 20);
    }
    InnerStep(Eval(x, 256), Eval(n.0, 256),
              Eval(n.0, 256) + Pow(256, j + 1) * (n.1 - 16 * xi * LTail(t + 1, 20)),
              Pow(256, j), Pow(256, j + 1), x[j], nd, c, xi,
              LBytes[t], n.1, LTail(t + 1, 20), LTail(t, 20));
  }

  /** The inner loop touches only limbs j..i-13 and leaves each of them in
      [-128, 128). */
  lemma {:induction false} InnerShape(x: seq<int>, xi: int, i: nat, j: nat, c: int)
    requires 32 <= i < |x| && i - 32 <= j <= i - 12
    ensures forall m :: 0 <= m < |x| && (m < j || m >= i - 12) ==> Inner(x, xi, i, j, c).0[m] == x[m]
    ensures forall m :: j <= m < i - 12 ==> -128 <= Inner(x, xi, i, j, c).0[m] <= 127
    decreases i - 12 - j
  {
    if j < i - 12 {
      var n := InnerNext(x, xi, i, j, c);
      InnerShape(n.0, xi, i, j + 1, n.1);
    }
  }

  /** A bound on the carry after t steps of the inner loop, when the limbs
      it reads are within LimbBound and those opposite the zero bytes
      16..19 of L within top. */
  function CarryCap(t: nat, top: int): int
  {
    if t <= 16 then 17 * LimbBound else (top + CarryCap(t - 1, top) + 128) / 256 + 1
  }

  lemma CarryCaps()
    ensures CarryCap(20, 128) == 2 && CarryCap(20, InputBound) == 8225
  {
    assert CarryCap(17, 128) == 140354;
    assert CarryCap(18, 128) == 550;
    assert CarryCap(17, InputBound) == 148545;
    assert CarryCap(18, InputBound) == 8773;
  }

  lemma MulBound(a: int, b: int, bound: int)
    requires -bound <= a <= bound && 0 <= b <= 255
    ensures -255 * bound <= a * b <= 255 * bound
  {
    if a >= 0 {
      MulLe(b, 255, a);
    } else {
      MulLe(b, 255, -a);
    }
  }

  lemma CarryStep(v: int, bound: int)
    requires -bound <= v <= bound
    ensures -((bound + 128) / 256 + 1) <= RoundCarry(v) <= (bound + 128) / 256 + 1
  {
  }

  lemma {:induction false} InnerCarry(x: seq<int>, xi: int, i: nat, j: nat, c: int, top: int)
    requires 32 <= i < |x| && i - 32 <= j <= i - 12
    requires 0 <= top <= LimbBound && -LimbBound <= xi <= LimbBound
    requires forall m :: j <= m < i - 12 ==> -LimbBound <= x[m] <= LimbBound
    requires forall m :: j <= m && i - 16 <= m < i - 12 ==> -top <= x[m] <= top
    requires -CarryCap(j - (i - 32), top) <= c <= CarryCap(j - (i - 32), top)
    ensures -CarryCap(20, top) <= Inner(x, xi, i, j, c).1 <= CarryCap(20, top)
    decreases i - 12 - j
  {
    if j < i - 12 {
      var n := InnerNext(x, xi, i, j, c);
      NextCarry(x, xi, i, j, c, top);
      InnerCarry(n.0, xi, i, j + 1, n.1, top);
    }
  }

  lemma NextCarry(x: seq<int>, xi: int, i: nat, j: nat, c: int, top: int)
    requires 32 <= i < |x| && i - 32 <= j < i - 12
    requires 0 <= top <= LimbBound && -LimbBound <= xi <= LimbBound
    requires -LimbBound <= x[j] <= LimbBound && (i - 16 <= j ==> -top <= x[j] <= top)
    requires -CarryCap(j - (i - 32), top) <= c <= CarryCap(j - (i - 32), top)
    ensures -CarryCap(j + 1 - (i - 32), top) <= InnerNext(x, xi, i, j, c).1 <= CarryCap(j + 1 - (i - 32), top)
  {
    var t := j - (i - 32);
    var v := InnerSum(x, xi, i, j, c);
    LBytesRange(t);
    MulBound(xi, LBytes[t], LimbBound);
    if t < 16 {
      CarryStep(v, 4098 * LimbBound);
    } else {
      CarryStep(v, top + CarryCap(t, top));
    }
    assert j + 1 - (i - 32) == t + 1;
  }

  lemma PowTop()
    ensures Pow(256, 31) == TWO248 && Pow(256, 32) == 256 * TWO248
  {
    PowAdd(256, 16, 15);
    PowAdd(256, 8, 8);
    PowAdd(256, 4, 4);
    PowAdd(256, 2, 2);
    PowAdd(256, 8, 7);
    PowAdd(256, 4, 3);
    PowAdd(256, 2, 1);
    assert Pow(256, 2) == 0x1_0000;
    PowSucc(256, 31);
  }
  /** PowTop at symbolic exponents, so that no literal power is unfolded
      where it is used. */
  lemma PowLimb31(n: nat)
    requires n == 31
    ensures Pow(256, n) == TWO248
  {
    PowTop();
  }

  lemma PowLimb32(n: nat)
    requires n == 32
    ensures Pow(256, n) == TWO256
  {
    PowTop();
  }

  /** 256^i is 256^(i-32) times the weight of limb 32. */
  lemma PowShift(i: nat)
    requires i >= 32
    ensures Pow(256, i) == Pow(256, i - 32) * TWO256
  {
    var n: nat :| n == 32;
    PowAdd(256, i - 32, n);
    PowLimb32(n);
  }

  /** The top byte of L and the rest. */
  lemma LSplit()
    ensures L == LLow + 16 * TWO248 && TWO248 < L < TWO256
  {
  }


  /** One step of the outer loop of the first phase: limb i, worth
      x[i]·256^i = 16·x[i]·256^(i-32)·L - 16·x[i]·256^(i-32)·LLow modulo L,
      is cleared and the second term is spread over limbs i-32..i-13; the
      final carry is added at limb i - landing. */
  function Pass(x: seq<int>, i: nat, landing: nat): (y: seq<int>)
    requires 32 <= i < |x| && 12 <= landing <= 20
    ensures |y| == |x|
  {
    var r := Inner(x, x[i], i, i - 32, 0);
    Land(r.0, r.1, i, landing)
  }

  /** Limb i cleared and the carry c added at limb i - landing. */
  function Land(w: seq<int>, c: int, i: nat, landing: nat): (y: seq<int>)
    requires 12 <= landing <= i < |w|
    ensures |y| == |w|
  {
    w[i - landing := w[i - landing] + c][i := 0]
  }

  /** The carry that Pass adds at limb i - landing. */
  function PassCarry(x: seq<int>, i: nat): int
    requires 32 <= i < |x|
  {
    Inner(x, x[i], i, i - 32, 0).1
  }

  lemma PassStep(ex: int, ew: int, ey: int, xi: int, c: int, p: int, p12: int, pl: int, pi: int,
                 lv: int, lo: int, tp: int)
    requires ew + c * p12 == ex + p * (0 - 16 * xi * lo)
    requires ey == ew + c * pl + (0 - xi) * pi
    requires pi == p * (256 * tp) && lv == lo + 16 * tp
    ensures ey == ex - (16 * xi * p) * lv + c * (pl - p12)
  {
    var a := 16 * xi * p;
    assert p * (0 - 16 * xi * lo) == 0 - a * lo by {
      MulRotate(p, 16 * xi, lo);
    }
    assert (0 - xi) * pi == 0 - a * (16 * tp) by {
      MulRotate(xi, p, 256 * tp);
      MulAssoc(xi, p, 16 * (16 * tp));
      MulRotate(a, 16, tp);
    }
    assert a * lv == a * lo + a * (16 * tp);
  }

  /** Clearing limb i and adding the carry at i - landing, given the value
      the inner loop leaves. */
  lemma LandValue(x: seq<int>, w: seq<int>, c: int, i: nat, landing: nat)
    requires 32 <= i < |x| == |w| && 12 <= landing <= 20
    requires w[i] == x[i]
    requires Eval(w, 256) + c * Pow(256, i - 12) == Eval(x, 256) + Pow(256, i - 32) * (0 - 16 * x[i] * LLow)
    ensures Eval(Land(w, c, i, landing), 256)
         == Eval(x, 256) - (16 * x[i] * Pow(256, i - 32)) * L + c * (Pow(256, i - landing) - Pow(256, i - 12))
  {
    var u := w[i - landing := w[i - landing] + c];
    assert Land(w, c, i, landing) == u[i := 0] == w[i - landing := w[i - landing] + c][i := w[i] + (0 - x[i])];
    EvalAddTwo(w, i - landing, i, c, 0 - x[i], 256);
    assert Pow(256, i) == Pow(256, i - 32) * (256 * TWO248) by {
      PowShift(i);
    }
    assert L == LLow + 16 * TWO248 by {
      LSplit();
    }
    PassStep(Eval(x, 256), Eval(w, 256), Eval(u[i := 0], 256), x[i], c,
             Pow(256, i - 32), Pow(256, i - 12), Pow(256, i - landing), Pow(256, i), L, LLow, TWO248);
  }

  /** Pass lowers the value by a multiple of L and, unless the carry lands
      at i - 12, moves carry·256^(i-12) to carry·256^(i-landing). */
  lemma PassValue(x: seq<int>, i: nat, landing: nat)
    requires 32 <= i < |x| && 12 <= landing <= 20
    ensures Eval(Pass(x, i, landing), 256)
         == Eval(x, 256) - (16 * x[i] * Pow(256, i - 32)) * L
            + PassCarry(x, i) * (Pow(256, i - landing) - Pow(256, i - 12))
  {
    var r := Inner(x, x[i], i, i - 32, 0);
    assert Eval(r.0, 256) + r.1 * Pow(256, i - 12) == Eval(x, 256) + Pow(256, i - 32) * (0 - 16 * x[i] * LLow) by {
      InnerValue(x, x[i], i, i - 32, 0);
      assert Carried(r, i) == Pending(x, x[i], i, i - 32, 0);
      LowTail(i - 32 - (i - 32));
    }
    assert r.0[i] == x[i] by {
      InnerShape(x, x[i], i, i - 32, 0);
    }
    LandValue(x, r.0, r.1, i, landing);
  }

  /** The first phase: outer steps i down to 32 clear limbs 63..32. */
  function Phase1(x: seq<int>, i: nat, landing: nat): (y: seq<int>)
    requires 31 <= i < |x| && 12 <= landing <= 20
    ensures |y| == |x|
    decreases i
  {
    if i == 31 then x else Phase1(Pass(x, i, landing), i - 1, landing)
  }

  /** With the carry at i - 12, the first phase keeps the value modulo L. */
  lemma {:induction false} Phase1Congruent(x: seq<int>, i: nat)
    requires 31 <= i < |x|
    ensures Eval(Phase1(x, i, Intended), 256) % L == Eval(x, 256) % L
    decreases i
  {
    if i > 31 {
      PassCongruent(x, i);
      Phase1Congruent(Pass(x, i, Intended), i - 1);
    }
  }

  /** One outer step with the carry at i - 12 keeps the value modulo L. */
  lemma PassCongruent(x: seq<int>, i: nat)
    requires 32 <= i < |x|
    ensures Eval(Pass(x, i, Intended), 256) % L == Eval(x, 256) % L
  {
    PassLowers(x, i);
    ModShiftEq(Eval(Pass(x, i, Intended), 256), Eval(x, 256), -(16 * x[i] * Pow(256, i - 32)), L);
  }

  lemma PassLowers(x: seq<int>, i: nat)
    requires 32 <= i < |x|
    ensures Eval(Pass(x, i, Intended), 256) == Eval(x, 256) + -(16 * x[i] * Pow(256, i - 32)) * L
  {
    PassValue(x, i, Intended);
    DropCarry(Eval(Pass(x, i, Intended), 256), Eval(x, 256), 16 * x[i] * Pow(256, i - 32), L,
              PassCarry(x, i), Pow(256, i - Intended), Pow(256, i - 12));
  }

  lemma DropCarry(e: int, ex: int, a: int, l: int, c: int, p1: int, p2: int)
    requires e == ex - a * l + c * (p1 - p2) && p1 == p2
    ensures e == ex + -a * l
  {
  }

  function Bound(i: nat): int
  {
    if i == 63 then InputBound else LimbBound
  }

  /** The limbs before outer step i (steps 63..i+1 done): limbs above i
      are clear; limbs i-31..i-12, last rounded by step i+1, are in
      [-128, 128); limbs i-11..i, rounded earlier and then given one
      carry of at most 2, are within 130 (limb 51 and above, never
      rounded, only within LimbBound). */
  predicate Inv(x: seq<int>, i: nat)
  {
    |x| == 64 && 31 <= i <= 63
    && (forall m :: i < m < 64 ==> x[m] == 0)
    && (forall m :: 0 <= m <= i ==> -Bound(i) <= x[m] <= Bound(i))
    && (i < 63 ==> forall m :: i - 31 <= m <= i - 12 ==> -128 <= x[m] <= 127)
    && (i < 63 ==> forall m :: i - 11 <= m <= i && m <= 50 ==> -130 <= x[m] <= 130)
  }

  lemma PassKeepsInv(x: seq<int>, i: nat)
    requires Inv(x, i) && i >= 32
    ensures Inv(Pass(x, i, Intended), i - 1)
  {
    var y := Pass(x, i, Intended);
    var c := PassCarry(x, i);
    PassLimbs(x, i);
    assert -2 <= c <= 2 || (i == 63 && -8225 <= c <= 8225) by {
      var top := if i == 63 then InputBound else 128;
      InnerCarry(x, x[i], i, i - 32, 0, top);
      CarryCaps();
    }
    assert forall m :: i - 1 < m < 64 ==> y[m] == 0;
    assert forall m :: 0 <= m <= i - 1 ==> -LimbBound <= y[m] <= LimbBound by {
      forall m | 0 <= m <= i - 1
        ensures -LimbBound <= y[m] <= LimbBound
      {
        if m == i - 12 {
          assert -InputBound <= x[m] <= InputBound;
        }
      }
    }
    assert i - 1 < 63 ==> forall m :: i - 32 <= m <= i - 13 ==> -128 <= y[m] <= 127;
    assert forall m :: i - 12 <= m <= i - 1 && m <= 50 ==> -130 <= y[m] <= 130 by {
      forall m | i - 12 <= m <= i - 1 && m <= 50
        ensures -130 <= y[m] <= 130
      {
        assert i < 63;
      }
    }
  }

  /** What an outer step with the carry at i - 12 leaves in each limb. */
  lemma PassLimbs(x: seq<int>, i: nat)
    requires 32 <= i < |x|
    ensures var y := Pass(x, i, Intended);
            && y[i] == 0 && y[i - 12] == x[i - 12] + PassCarry(x, i)
            && (forall m :: 0 <= m < |x| && (m < i - 32 || i - 12 < m < i || i < m) ==> y[m] == x[m])
            && (forall m :: i - 32 <= m < i - 12 ==> -128 <= y[m] <= 127)
  {
    InnerShape(x, x[i], i, i - 32, 0);
  }

  lemma {:induction false} Phase1Bounds(x: seq<int>, i: nat)
    requires Inv(x, i)
    ensures Inv(Phase1(x, i, Intended), 31)
    decreases i
  {
    if i > 31 {
      PassKeepsInv(x, i);
      Phase1Bounds(Pass(x, i, Intended), i - 1);
    }
  }

  /** `v >> 8`, `v & 255` and `v >> 4` of an Int32 value. */
  lemma ShrLow(v: int)
    requires InInt32(v)
    ensures Shr(v, 8) == v / 256 && Low(v, 8) == v % 256 && Shr(v, 4) == v / 16
  {
    PowFacts();
  }

  /** The second phase: limbs j..31 lose q·L, q being `x[31] >> 4` (read
      before the loop here: the loop writes x[31] only in its last step,
      after reading it), and each is cut to its low byte with the rest
      carried on by `>> 8`. */
  function Phase2(x: seq<int>, q: int, j: nat, c: int): (r: (seq<int>, int))
    requires |x| == 64 && j <= 32
    ensures |r.0| == 64
    decreases 32 - j
  {
    if j == 32 then (x, c)
    else
      var v := Phase2Sum(x, q, j, c);
      Phase2(x[j := Low(v, 8)], q, j + 1, Shr(v, 8))
  }

  /** Limb j of the second phase before it is cut to a byte. */
  function Phase2Sum(x: seq<int>, q: int, j: nat, c: int): int
    requires |x| == 64 && j < 32
  {
    x[j] + c - q * LBytes[j]
  }

  /** The limb where the second phase starts; a named constant rather than
      a literal, so that the recursion is not unrolled where it is used. */
  const FirstLimb: nat := 0

  /** The limbs the first phase leaves, in the ranges its invariant gives. */
  predicate Phase2Ready(x: seq<int>, q: int, j: nat, c: int)
  {
    |x| == 64 && j <= 32 && -9 <= q <= 9 && -10 <= c <= 10
    && forall m :: j <= m < 32 ==> -130 <= x[m] <= 130
  }

  lemma {:induction false} Phase2Shape(x: seq<int>, q: int, j: nat, c: int)
    requires Phase2Ready(x, q, j, c)
    ensures forall m :: 0 <= m < 64 && (m < j || m >= 32) ==> Phase2(x, q, j, c).0[m] == x[m]
    ensures forall m :: j <= m < 32 ==> 0 <= Phase2(x, q, j, c).0[m] <= 255
    ensures -10 <= Phase2(x, q, j, c).1 <= 10
    decreases 32 - j
  {
    if j < 32 {
      var v := Phase2Sum(x, q, j, c);
      LBytesRange(j);
      MulBound(q, LBytes[j], 9);
      ShrLow(v);
      Phase2Shape(x[j := Low(v, 8)], q, j + 1, Shr(v, 8));
    }
  }

  lemma Phase2Arith(e: int, e1: int, y: int, w: int, w2: int, xj: int, nd: int, cn: int, c: int,
                   q: int, lt: int, t1: int, t0: int)
    requires e1 == e + (nd - xj) * w && nd + 256 * cn == xj + c - q * lt
    requires y == e1 + w2 * (cn - q * t1)
    requires w2 == 256 * w && t0 == lt + 256 * t1
    ensures y == e + w * (c - q * t0)
  {
    assert w2 * (cn - q * t1) == 256 * w * cn - w * (q * (256 * t1)) by {
      MulRotate(w, 256, cn);
      MulRotate(w, 256, q * t1);
    }
  }

  /** The second phase with exact floor division in place of the 32-bit
      shift: the reference the value lemma is proved against. */
  function FloorPhase2(x: seq<int>, q: int, j: nat, c: int): (r: (seq<int>, int))
    requires |x| == 64 && j <= 32
    ensures |r.0| == 64
    decreases 32 - j
  {
    if j == 32 then (x, c)
    else
      var n := FloorNext(x, q, j, c);
      FloorPhase2(n.0, q, j + 1, n.1)
  }

  /** One step of FloorPhase2: limb j keeps the remainder of its sum by
      256 and passes the quotient on. */
  function FloorNext(x: seq<int>, q: int, j: nat, c: int): (n: (seq<int>, int))
    requires |x| == 64 && j < 32
    ensures |n.0| == 64
  {
    var v := Phase2Sum(x, q, j, c);
    (x[j := Rem256(v)], Floor256(v))
  }

  function Floor256(v: int): int
  {
    v / 256
  }

  function Rem256(v: int): int
  {
    v - 256 * Floor256(v)
  }

  /** On the limbs the first phase leaves, the shifts never wrap. */
  lemma {:induction false} Phase2IsFloor(x: seq<int>, q: int, j: nat, c: int)
    requires Phase2Ready(x, q, j, c)
    ensures Phase2(x, q, j, c) == FloorPhase2(x, q, j, c)
    decreases 32 - j
  {
    if j < 32 {
      var v := Phase2Sum(x, q, j, c);
      LBytesRange(j);
      MulBound(q, LBytes[j], 9);
      ShrLow(v);
      assert Low(v, 8) == Rem256(v);
      assert FloorNext(x, q, j, c) == (x[j := Low(v, 8)], Shr(v, 8));
      Phase2IsFloor(x[j := Low(v, 8)], q, j + 1, Shr(v, 8));
    }
  }

  /** Limbs with a carry c out of limb 31. */
  function Spilled(r: (seq<int>, int)): int
  {
    Eval(r.0, 256) + r.1 * TWO256
  }

  /** Limbs x with the carry c at limb j, less the part of q·L from byte
      j of L on. */
  function Owed(x: seq<int>, q: int, j: nat, c: int): int
    requires j <= 32
  {
    Eval(x, 256) + Pow(256, j) * (c - q * LTail(j, 32))
  }

  lemma {:induction false} FloorPhase2Value(x: seq<int>, q: int, j: nat, c: int)
    requires |x| == 64 && j <= 32
    ensures Spilled(FloorPhase2(x, q, j, c)) == Owed(x, q, j, c)
    decreases 32 - j
  {
    if j < 32 {
      var n := FloorNext(x, q, j, c);
      FloorPhase2Value(n.0, q, j + 1, n.1);
      FloorNextValue(x, q, j, c);
    } else {
      FloorDone(x, q, j, c);
    }
  }

  lemma FloorDone(x: seq<int>, q: int, j: nat, c: int)
    requires |x| == 64 && j == 32
    ensures Spilled(FloorPhase2(x, q, j, c)) == Owed(x, q, j, c)
  {
    assert FloorPhase2(x, q, j, c) == (x, c);
    assert LTail(j, 32) == 0;
    PowLimb32(j);
  }

  /** One step moves byte j's share of q·L from the pending term into
      the limbs. */
  lemma FloorNextValue(x: seq<int>, q: int, j: nat, c: int)
    requires |x| == 64 && j < 32
    ensures Owed(FloorNext(x, q, j, c).0, q, j + 1, FloorNext(x, q, j, c).1) == Owed(x, q, j, c)
  {
    var n := FloorNext(x, q, j, c);
    var v := Phase2Sum(x, q, j, c);
    assert n.0 == x[j := Rem256(v)] && n.1 == Floor256(v);
    assert Eval(n.0, 256) == Eval(x, 256) + (Rem256(v) - x[j]) * Pow(256, j) by {
      EvalUpdate(x, j, Rem256(v), 256);
    }
    assert Pow(256, j + 1) == 256 * Pow(256, j) by {
      PowSucc(256, j);
    }
    assert LTail(j, 32) == LBytes[j] + 256 * LTail(j + 1, 32) by {
      LTailStep(j, 32);
    }
    Phase2Arith(Eval(x, 256), Eval(n.0, 256), Owed(n.0, q, j + 1, n.1), Pow(256, j), Pow(256, j + 1),
                x[j], Rem256(v), Floor256(v), c, q, LBytes[j], LTail(j + 1, 32), LTail(j, 32));
  }

  /** The second phase subtracts q·L, leaving a carry out of limb 31. */
  lemma Phase2Value(x: seq<int>, q: int)
    requires Phase2Ready(x, q, FirstLimb, 0)
    ensures Spilled(Phase2(x, q, FirstLimb, 0)) == Eval(x, 256) - q * L
  {
    var z: nat :| z == FirstLimb;
    Phase2IsFloor(x, q, z, 0);
    FloorPhase2Value(x, q, z, 0);
    OwedAtStart(x, q, z);
  }

  lemma OwedAtStart(x: seq<int>, q: int, z: nat)
    requires z == 0
    ensures Owed(x, q, z, 0) == Eval(x, 256) - q * L
  {
    LongTail(z);
    assert Pow(256, z) == 1;
  }

  /** The third phase: limbs below 32 lose carry·L. */
  function Phase3(x: seq<int>, c: int): (y: seq<int>)
    requires |x| == 64
    ensures |y| == 64
  {
    seq(64, k requires 0 <= k < 64 => if k < 32 then x[k] - c * LBytes[k] else x[k])
  }

  lemma LongTail(k: nat)
    requires k == 0
    ensures LTail(k, 32) == L
  {
    LFacts();
  }

  lemma {:induction false} TailValue(k: nat)
    requires k <= 32
    ensures Eval(LBytes[k..], 256) == LTail(k, 32)
    decreases 32 - k
  {
    if k < 32 {
      TailValue(k + 1);
      assert LBytes[k..] == [LBytes[k]] + LBytes[k + 1..];
      EvalCons(LBytes[k], LBytes[k + 1..], 256);
    }
  }

  /** L written out over 64 limbs. */
  lemma WideL(n: nat)
    requires n == 32
    ensures Eval(LBytes + Zeros(n), 256) == L
  {
    var z: nat :| z == 0;
    EvalZeroTail(LBytes, Zeros(n), 256);
    TailValue(z);
    assert LBytes[z..] == LBytes;
    LongTail(z);
  }

  lemma Phase3Value(x: seq<int>, c: int)
    requires |x| == 64
    ensures Eval(Phase3(x, c), 256) == Eval(x, 256) - c * L
  {
    var y := Phase3(x, c);
    var n: nat :| n == 32;
    var wide := LBytes + Zeros(n);
    assert forall k :: 0 <= k < 64 ==> y[k] == x[k] + (-c) * wide[k] by {
      forall k | 0 <= k < 64
        ensures y[k] == x[k] + (-c) * wide[k]
      {
        if k < 32 {
          assert wide[k] == LBytes[k];
        } else {
          assert wide[k] == 0;
        }
      }
    }
    assert Eval(y, 256) == Eval(x, 256) + (-c) * Eval(wide, 256) by {
      EvalPointwise(x, wide, y, -c, 256);
    }
    assert Eval(wide, 256) == L by {
      WideL(n);
    }
  }

  /** The last phase over limbs s with carry c coming in: each limb plus
      the carry keeps its low byte (`& 255`) and passes the rest
      (`>> 8`) on. The source adds `x[i] >> 8` into limb i + 1 before
      that limb is read, which is the same dataflow. */
  function Phase4(s: seq<int>, c: int): (r: seq<int>)
    ensures |r| == |s|
    decreases |s|
  {
    if |s| == 0 then [] else [Low(Incoming(s, c), 8)] + Phase4(s[1..], Shr(Incoming(s, c), 8))
  }

  /** The first limb with the carry added. */
  function Incoming(s: seq<int>, c: int): int
    requires |s| > 0
  {
    s[0] + c
  }

  /** What the last phase passes beyond its last limb (into limb 32). */
  function Spill(s: seq<int>, c: int): int
    decreases |s|
  {
    if |s| == 0 then c else Spill(s[1..], Shr(Incoming(s, c), 8))
  }

  predicate Phase4Ready(s: seq<int>, c: int)
  {
    0 <= c <= 2 && forall m :: 0 <= m < |s| ==> 0 <= s[m] <= 510
  }

  lemma Phase4Step(er: int, er1: int, sp: int, w: int, w1: int, b: int, q: int, v: int, es1: int, es: int, c: int, s0: int)
    requires er == b + 256 * er1 && er1 + sp * w1 == es1 + q
    requires w == 256 * w1 && v == b + 256 * q && v == s0 + c && es == s0 + 256 * es1
    ensures er + sp * w == es + c
  {
    MulRotate(sp, 256, w1);
  }

  lemma {:induction false} Phase4Value(s: seq<int>, c: int)
    requires Phase4Ready(s, c)
    ensures IsBytes(Phase4(s, c))
    ensures Eval(Phase4(s, c), 256) + Spill(s, c) * Pow(256, |s|) == Eval(s, 256) + c
    decreases |s|
  {
    if |s| == 0 {
      assert Pow(256, 0) == 1;
    } else {
      var v := Incoming(s, c);
      var b, q := Low(v, 8), Shr(v, 8);
      var r1 := Phase4(s[1..], q);
      assert v == b + 256 * q && 0 <= b <= 255 && 0 <= q <= 2 by {
        ShrLow(v);
      }
      Phase4Value(s[1..], q);
      assert Phase4(s, c) == [b] + r1;
      assert Eval([b] + r1, 256) == b + 256 * Eval(r1, 256) by {
        EvalCons(b, r1, 256);
      }
      assert Eval(s, 256) == s[0] + 256 * Eval(s[1..], 256) by {
        assert s == [s[0]] + s[1..];
        EvalCons(s[0], s[1..], 256);
      }
      assert Pow(256, |s|) == 256 * Pow(256, |s| - 1) by {
        PowSucc(256, |s| - 1);
      }
      Phase4Step(Eval([b] + r1, 256), Eval(r1, 256), Spill(s, c), Pow(256, |s|), Pow(256, |s| - 1),
                 b, q, v, Eval(s[1..], 256), Eval(s, 256), c, s[0]);
    }
  }

  /** The limbs the first phase hands on: the low 32 within 130, the high
      32 cleared. */
  predicate FinishReady(x: seq<int>)
  {
    |x| == 64
    && (forall m :: 0 <= m < 32 ==> -130 <= x[m] <= 130)
    && (forall m :: 32 <= m < 64 ==> x[m] == 0)
  }

  /** Cleared high limbs add nothing to the value. */
  lemma LowHalf(y: seq<int>)
    requires |y| == 64 && forall m :: 32 <= m < 64 ==> y[m] == 0
    ensures Eval(y, 256) == Eval(y[..32], 256)
  {
    assert y == y[..32] + y[32..];
    EvalZeroTail(y[..32], y[32..], 256);
  }

  lemma MulSigned(a: int, bound: int, p: int)
    requires -bound <= a <= bound && p >= 0
    ensures -bound * p <= a * p <= bound * p
  {
    MulLe(a + bound, 2 * bound, p);
  }

  /** e lies within ±bound·(p - 1)/255. */
  predicate SignedWithin(e: int, bound: int, p: int)
  {
    -bound * (p - 1) <= 255 * e <= bound * (p - 1)
  }

  /** Limbs within ±bound give a value within ±bound·(256^n - 1)/255. */
  lemma {:induction false} EvalSigned(s: seq<int>, bound: int)
    requires bound >= 0 && forall m :: 0 <= m < |s| ==> -bound <= s[m] <= bound
    ensures SignedWithin(Eval(s, 256), bound, Pow(256, |s|))
    decreases |s|
  {
    if |s| > 0 {
      var n := |s| - 1;
      EvalSigned(s[..n], bound);
      assert Eval(s, 256) == Eval(s[..n], 256) + s[n] * Pow(256, n) by {
        assert s[..n + 1] == s;
        EvalPrefix(s, n, 256);
      }
      assert Pow(256, |s|) == 256 * Pow(256, n) by {
        PowSucc(256, n);
      }
      assert -bound * Pow(256, n) <= s[n] * Pow(256, n) <= bound * Pow(256, n) by {
        MulSigned(s[n], bound, Pow(256, n));
      }
      SignedStep(Eval(s, 256), Eval(s[..n], 256), s[n], Pow(256, n), Pow(256, |s|), bound);
    } else {
      assert Pow(256, 0) == 1;
    }
  }

  lemma SignedStep(e: int, e1: int, d: int, p: int, p1: int, bound: int)
    requires SignedWithin(e1, bound, p)
    requires -bound * p <= d * p <= bound * p
    requires e == e1 + d * p && p1 == 256 * p
    ensures SignedWithin(e, bound, p1)
  {
    assert bound * (p1 - 1) == 256 * (bound * p) - bound;
  }

  /** The quotient estimate q = x[31] >> 4 of the source leaves x - q·L
      strictly between -256^31 and L. */
  lemma TopBound(x: seq<int>)
    requires FinishReady(x)
    ensures -9 <= Shr(x[31], 4) <= 8
    ensures -TWO248 < Eval(x, 256) - Shr(x[31], 4) * L < L
  {
    ShrLow(x[31]);
    var q := Shr(x[31], 4);
    var rest := Eval(x[..31], 256);
    assert Eval(x, 256) == rest + x[31] * TWO248 by {
      var k: nat :| k == 31;
      LowHalf(x);
      EvalPrefix(x, k, 256);
      assert x[..32] == x[..k + 1] && x[..31] == x[..k];
      PowLimb31(k);
    }
    assert -130 * (TWO248 - 1) <= 255 * rest <= 130 * (TWO248 - 1) by {
      EvalSigned(x[..31], 130);
      PowLimb31(|x[..31]|);
      assert SignedWithin(rest, 130, TWO248);
    }
    assert L == LLow + 16 * TWO248 by {
      LSplit();
    }
    assert 0 <= x[31] - 16 * q <= 15;
  }

  /** The second to fourth phases: the limbs come out as the bytes of the
      least non-negative residue. */
  function Finish(x: seq<int>): (r: seq<int>)
    requires |x| == 64
    ensures |r| == 32
  {
    var p := Phase2(x, Shr(x[31], 4), FirstLimb, 0);
    Phase4(Phase3(p.0, p.1)[..32], 0)
  }

  /** What the second phase leaves: bytes below limb 32, the high limbs
      untouched, and a carry of 0 (x - q·L not negative) or -1. */
  lemma SecondPhase(x: seq<int>)
    requires FinishReady(x)
    ensures var q := Shr(x[31], 4);
            var p := Phase2(x, q, FirstLimb, 0);
            && IsBytes(p.0[..32]) && (forall m :: 32 <= m < 64 ==> p.0[m] == 0)
            && p.1 == (if Eval(x, 256) - q * L >= 0 then 0 else -1)
            && Eval(p.0[..32], 256) + p.1 * TWO256 == Eval(x, 256) - q * L
  {
    var q := Shr(x[31], 4);
    TopBound(x);
    var p := Phase2(x, q, FirstLimb, 0);
    Phase2Shape(x, q, FirstLimb, 0);
    Phase2Value(x, q);
    assert IsBytes(p.0[..32]);
    LowHalf(p.0);
    assert 0 <= Eval(p.0[..32], 256) < TWO256 by {
      EvalBounds(p.0[..32], 256);
      PowLimb32(|p.0[..32]|);
    }
    CarryOut(Eval(p.0[..32], 256), p.1, Eval(x, 256) - q * L, TWO256, L);
  }

  /** A value in (-w, w) written as e + c·w with e in [0, w) has c = 0 when
      it is not negative and c = -1 otherwise. */
  lemma CarryOut(e: int, c: int, v: int, w: int, l: int)
    requires 0 <= e < w && e + c * w == v && -w < v < l <= w
    ensures c == (if v >= 0 then 0 else -1)
  {
    MulAtLeast(c, w);
    MulAtLeast(c + 1, w);
  }

  /** The third phase adds back L when the carry was -1, leaving limbs
      of at most two bytes' worth. */
  lemma ThirdPhase(y: seq<int>, c: int)
    requires |y| == 64 && IsBytes(y[..32]) && (c == 0 || c == -1)
    requires forall m :: 32 <= m < 64 ==> y[m] == 0
    ensures Phase4Ready(Phase3(y, c)[..32], 0)
    ensures Eval(Phase3(y, c)[..32], 256) == Eval(y[..32], 256) - c * L
  {
    var z := Phase3(y, c);
    forall k | 0 <= k < 32
      ensures 0 <= z[..32][k] <= 510
    {
      LBytesRange(k);
      assert 0 <= y[..32][k] <= 255;
    }
    Phase3Value(y, c);
    LowHalf(z);
    LowHalf(y);
  }

  /** The arithmetic closing the finishing phases: with v = x - q·L in
      (-L, L), carry c, and the last phase's spill s, the bytes hold
      x - (q + c)·L, which lies in [0, L). */
  lemma FinishArith(ex: int, q: int, c: int, v: int, ey: int, es: int, er: int, s: int, l: int, w: int)
    requires 0 < l < w && -l < v < l && v == ex - q * l
    requires c == (if v >= 0 then 0 else -1)
    requires ey + c * w == v && es == ey - c * l && er + s * w == es
    requires 0 <= ey < w && 0 <= er < w
    ensures er == ex - (q + c) * l && 0 <= er < l
  {
    if c == 0 {
      MulAtLeast(s, w);
    } else {
      MulAtLeast(s - 1, w);
    }
  }

  /** The second to fourth phases yield the bytes of x mod L. */
  lemma FinishValue(x: seq<int>)
    requires FinishReady(x)
    ensures IsBytes(Finish(x)) && Eval(Finish(x), 256) == Eval(x, 256) % L
  {
    var q := Shr(x[31], 4);
    var p := Phase2(x, q, FirstLimb, 0);
    var y, c := p.0, p.1;
    TopBound(x);
    SecondPhase(x);
    var s := Phase3(y, c)[..32];
    ThirdPhase(y, c);
    var r := Phase4(s, 0);
    assert r == Finish(x);
    assert IsBytes(r) && Eval(r, 256) + Spill(s, 0) * TWO256 == Eval(s, 256) by {
      Phase4Value(s, 0);
      PowLimb32(|s|);
    }
    assert 0 <= Eval(y[..32], 256) < TWO256 && 0 <= Eval(r, 256) < TWO256 by {
      EvalBounds(y[..32], 256);
      EvalBounds(r, 256);
      PowLimb32(|r|);
    }
    assert 0 < L < TWO256 && TWO248 < L by {
      LSplit();
    }
    FinishArith(Eval(x, 256), q, c, Eval(x, 256) - q * L, Eval(y[..32], 256), Eval(s, 256),
                Eval(r, 256), Spill(s, 0), L, TWO256);
    DivUnique(Eval(x, 256), L, q + c, Eval(r, 256));
  }

  /** The corrected modL: the carry of each first-phase step lands at limb
      i - 12, the weight it was taken from. lib/nacl.js:409 adds it at
      limb i - 20 instead (ModLAsWritten); the rest of the model uses this
      definition. */
  function ModL(x: seq<int>): (r: seq<int>)
    requires |x| == 64
    ensures |r| == 32
  {
    Finish(Phase1(x, Top, Intended))
  }

  /** modL as lib/nacl.js writes it: the carry lands at limb i - 20. */
  function ModLAsWritten(x: seq<int>): (r: seq<int>)
    requires |x| == 64
    ensures |r| == 32
  {
    Finish(Phase1(x, Top, AsWritten))
  }

  /** For every input the signing code can produce, modL returns the 32
      bytes of the least non-negative residue modulo L. */
  lemma ModLReduces(x: seq<int>)
    requires |x| == 64 && forall m :: 0 <= m < 64 ==> -InputBound <= x[m] <= InputBound
    ensures IsBytes(ModL(x)) && Eval(ModL(x), 256) == Eval(x, 256) % L
  {
    assert Inv(x, Top);
    Phase1Bounds(x, Top);
    Phase1Congruent(x, Top);
    FinishValue(Phase1(x, Top, Intended));
  }

  /** reduce (lib/nacl.js:425-431) over the corrected modL: the 64 bytes
      replaced by their residue modulo L, zero padded. */
  function Reduce(r: seq<int>): (out: seq<int>)
    requires |r| == 64
    ensures |out| == 64
  {
    ModL(r) + Zeros(32)
  }

  lemma ReduceIsMod(r: seq<int>)
    requires |r| == 64 && IsBytes(r)
    ensures IsBytes(Reduce(r)) && Reduce(r)[32..] == Zeros(32)
    ensures Eval(Reduce(r), 256) == Eval(r, 256) % L
  {
    var m := ModL(r);
    var z := Zeros(32);
    assert forall k :: 0 <= k < 64 ==> -InputBound <= r[k] <= InputBound;
    ModLReduces(r);
    assert Eval(m + z, 256) == Eval(m, 256) by {
      EvalZeroTail(m, z, 256);
    }
    assert (m + z)[32..] == z;
    assert IsBytes(m + z) by {
      forall k | 0 <= k < 64
        ensures 0 <= (m + z)[k] < 256
      {
        if k < 32 {
          assert (m + z)[k] == m[k];
        }
      }
    }
  }

  // The carry placement of lib/nacl.js:409. Each outer step's inner loop
  // ends with its carry at limb i - 12 (weight 256^(i-12)); lib/nacl.js
  // adds it at limb i - 20, so the value changes by
  // carry·(256^(i-20) - 256^(i-12)), which is not a multiple of L.

  /** An inner loop over limbs already in [-128, 128), with nothing to
      subtract and no carry coming in, changes nothing. */
  lemma {:induction false} QuietInner(x: seq<int>, i: nat, j: nat)
    requires 32 <= i < |x| && i - 32 <= j <= i - 12
    requires forall m :: j <= m < i - 12 ==> -128 <= x[m] <= 127
    ensures Inner(x, 0, i, j, 0) == (x, 0)
    decreases i - 12 - j
  {
    if j < i - 12 {
      assert InnerNext(x, 0, i, j, 0) == (x, 0) by {
        assert RoundCarry(InnerSum(x, 0, i, j, 0)) == 0;
        assert x[j := x[j]] == x;
      }
      QuietInner(x, i, j + 1);
    }
  }

  /** An outer step at a clear limb over a rounded window is the identity,
      wherever its (zero) carry lands. */
  lemma QuietPass(x: seq<int>, i: nat, landing: nat)
    requires 32 <= i < |x| && 12 <= landing <= 20 && x[i] == 0
    requires forall m :: i - 32 <= m < i - 12 ==> -128 <= x[m] <= 127
    ensures Pass(x, i, landing) == x
  {
    QuietInner(x, i, i - 32);
    assert x[i - landing := x[i - landing] + 0][i := 0] == x;
  }

  /** Outer steps i down to k + 1 over clear limbs and a rounded window
      change nothing. */
  lemma {:induction false} QuietPhase1(x: seq<int>, i: nat, k: nat, landing: nat)
    requires 31 <= k <= i < |x| && 12 <= landing <= 20
    requires forall m :: k < m <= i ==> x[m] == 0
    requires forall m :: k - 31 <= m < i - 12 ==> -128 <= x[m] <= 127
    ensures Phase1(x, i, landing) == Phase1(x, k, landing)
    decreases i
  {
    if i > k {
      QuietPass(x, i, landing);
      QuietPhase1(x, i - 1, k, landing);
    }
  }

  /** x with limbs a..b-1 set to -128. */
  function Ripple(x: seq<int>, a: int, b: int): (y: seq<int>)
    ensures |y| == |x|
  {
    seq(|x|, m requires 0 <= m < |x| => if a <= m < b then -128 else x[m])
  }

  /** A carry of 1 entering a run of limbs 127 turns each into -128 and
      leaves the inner loop as a carry of 1. */
  lemma {:induction false} RippleInner(x: seq<int>, i: nat, j: nat)
    requires 32 <= i < |x| && i - 32 <= j <= i - 12
    requires forall m :: j <= m < i - 12 ==> x[m] == 127
    ensures Inner(x, 0, i, j, 1) == (Ripple(x, j, i - 12), 1)
    decreases i - 12 - j
  {
    if j < i - 12 {
      var x1 := x[j := -128];
      assert InnerNext(x, 0, i, j, 1) == (x1, 1) by {
        assert RoundCarry(InnerSum(x, 0, i, j, 1)) == 1;
      }
      RippleInner(x1, i, j + 1);
      assert Ripple(x1, j + 1, i - 12) == Ripple(x, j, i - 12);
    } else {
      assert Ripple(x, j, i - 12) == x;
    }
  }

  /** The input that exhibits it: limb 12 is 128, limbs 13..31 are 127,
      the rest 0. */
  predicate IsCounterInput(x: seq<int>)
  {
    |x| == 64 && x[12] == 128
    && (forall m :: 13 <= m < 32 ==> x[m] == 127)
    && (forall m :: 0 <= m < 64 && (m < 12 || m >= 32) ==> x[m] == 0)
  }

  /** What the as-written first phase leaves of it: limbs 12..31 are
      -128 except limb 24, which is -127. */
  predicate IsCounterLimbs(y: seq<int>)
  {
    |y| == 64 && y[24] == -127
    && (forall m :: 12 <= m < 32 && m != 24 ==> y[m] == -128)
    && (forall m :: 0 <= m < 64 && (m < 12 || m >= 32) ==> y[m] == 0)
  }

  const CounterInput: seq<int> := seq(64, m => if m == 12 then 128 else if 13 <= m < 32 then 127 else 0)

  lemma CounterWitness()
    ensures IsCounterInput(CounterInput)
  {
  }

  /** Outer step 44: rounding limb 12 ripples a carry of 1 up to limb 32. */
  lemma CounterInner(x: seq<int>, i: nat)
    requires IsCounterInput(x) && i == 44
    ensures Inner(x, x[i], i, i - 32, 0) == (Ripple(x[i - 32 := -128], i - 31, i - 12), 1)
  {
    var x' := x[i - 32 := -128];
    assert x[i] == 0;
    assert InnerNext(x, 0, i, i - 32, 0) == (x', 1) by {
      FirstRound(x, i);
    }
    assert Inner(x, x[i], i, i - 32, 0) == Inner(x', 0, i, i - 31, 1);
    RippleInner(x', i, i - 31);
  }

  lemma FirstRound(x: seq<int>, i: nat)
    requires IsCounterInput(x) && i == 44
    ensures InnerSum(x, 0, i, i - 32, 0) == 128 && RoundCarry(128) == 1
  {
  }

  lemma CounterCarry(x: seq<int>, i: nat)
    requires IsCounterInput(x) && i == 44
    ensures x[i] == 0 && PassCarry(x, i) == 1
  {
    CounterInner(x, i);
  }

  /** lib/nacl.js adds the carry of step 44 at limb 24. */
  lemma CounterStep(x: seq<int>, i: nat)
    requires IsCounterInput(x) && i == 44
    ensures IsCounterLimbs(Pass(x, i, AsWritten))
  {
    CounterInner(x, i);
  }

  /** On the counterexample only outer step 44 acts. */
  lemma AsWrittenFirstPhase(x: seq<int>)
    requires IsCounterInput(x)
    ensures IsCounterLimbs(Phase1(x, Top, AsWritten))
    ensures Eval(Phase1(x, Top, AsWritten), 256) == Eval(x, 256) + Misplaced
  {
    var i: nat :| i == 44;
    CounterOnlyStep(x, i);
    CounterStep(x, i);
    CounterValue(x, i);
  }

  lemma CounterOnlyStep(x: seq<int>, i: nat)
    requires IsCounterInput(x) && i == 44
    ensures Phase1(x, Top, AsWritten) == Pass(x, i, AsWritten)
  {
    var y := Pass(x, i, AsWritten);
    assert Phase1(x, Top, AsWritten) == Phase1(x, i, AsWritten) by {
      QuietPhase1(x, Top, i, AsWritten);
    }
    assert Phase1(x, i, AsWritten) == Phase1(y, i - 1, AsWritten);
    CounterStep(x, i);
    QuietRest(y, i - 1);
  }

  /** Below step 44 the counterexample's limbs stay put. */
  lemma QuietRest(y: seq<int>, i: nat)
    requires IsCounterLimbs(y) && i == 43
    ensures Phase1(y, i, AsWritten) == y
  {
    var k: nat :| k == 31;
    QuietPhase1(y, i, k, AsWritten);
  }

  lemma CounterValue(x: seq<int>, i: nat)
    requires IsCounterInput(x) && i == 44
    ensures Eval(Pass(x, i, AsWritten), 256) == Eval(x, 256) + Misplaced
  {
    CounterShift(x, i);
    assert Pow(256, i - AsWritten) == TWO192 && Pow(256, i - 12) == TWO256 by {
      PowLanding(i - AsWritten);
      PowLimb32(i - 12);
    }
  }

  /** modL as written maps the counterexample to the wrong residue, where
      the corrected modL maps it to the right one. */
  lemma AsWrittenMisreduces(x: seq<int>)
    requires IsCounterInput(x)
    ensures Eval(ModLAsWritten(x), 256) != Eval(x, 256) % L
    ensures Eval(ModL(x), 256) == Eval(x, 256) % L
  {
    AsWrittenValue(x);
    ResidueMoves(x);
    CounterBounded(x);
    ModLReduces(x);
  }

  /** reduce as lib/nacl.js writes it, through the as-written modL. */
  function ReduceAsWritten(r: seq<int>): (out: seq<int>)
    requires |r| == 64
    ensures |out| == 64
  {
    ModLAsWritten(r) + Zeros(32)
  }

  /** The counterexample is a byte string, so a digest equal to it is
      reduced to the wrong residue by the as-written reduce and to the
      right one by the corrected reduce. */
  lemma ReduceAsWrittenMisreduces(x: seq<int>)
    requires IsCounterInput(x)
    ensures IsBytes(x)
    ensures Eval(ReduceAsWritten(x)[..32], 256) != Eval(x, 256) % L
    ensures Eval(Reduce(x), 256) == Eval(x, 256) % L
  {
    CounterBounded(x);
    AsWrittenMisreduces(x);
    assert ReduceAsWritten(x)[..32] == ModLAsWritten(x);
    ReduceIsMod(x);
  }

  /** Adding Misplaced changes the residue of any value. */
  lemma ResidueMoves(x: seq<int>)
    ensures (Eval(x, 256) + Misplaced) % L != Eval(x, 256) % L
  {
    ShiftResidue();
    ModDiffers(Eval(x, 256), Misplaced, L);
  }

  /** The counterexample is 64 bytes, so it can be a SHA-512 digest handed
      to reduce, and it lies within the bound ModLReduces assumes. */
  lemma CounterBounded(x: seq<int>)
    requires IsCounterInput(x)
    ensures |x| == 64 && IsBytes(x)
    ensures forall m :: 0 <= m < 64 ==> -InputBound <= x[m] <= InputBound
  {
    forall m | 0 <= m < 64
      ensures -InputBound <= x[m] <= InputBound
    {
      if m < 12 || m >= 32 {
        assert x[m] == 0;
      } else if m > 12 {
        assert x[m] == 127;
      }
    }
  }

  lemma CounterReady(y: seq<int>)
    requires IsCounterLimbs(y)
    ensures FinishReady(y)
  {
    forall m | 0 <= m < 32
      ensures -130 <= y[m] <= 130
    {
      if m < 12 {
        assert y[m] == 0;
      } else if m != 24 {
        assert y[m] == -128;
      }
    }
  }

  /** As written, modL reduces the counterexample plus 256^24 - 256^32. */
  lemma AsWrittenValue(x: seq<int>)
    requires IsCounterInput(x)
    ensures Eval(ModLAsWritten(x), 256) == (Eval(x, 256) + Misplaced) % L
  {
    var y := Phase1(x, Top, AsWritten);
    AsWrittenFirstPhase(x);
    CounterReady(y);
    FinishValue(y);
  }

  /** 256^24 - 256^32 = -16·L + r with r in (0, L). */
  lemma ShiftResidue()
    ensures Misplaced % L == 6277101735386680764279666507645624072675986449118172888784
  {
    DivUnique(Misplaced, L, -16, 6277101735386680764279666507645624072675986449118172888784);
  }

  /** Adding a non-multiple of m changes the residue modulo m. */
  lemma ModDiffers(a: int, d: int, m: int)
    requires m > 0 && d % m != 0
    ensures (a + d) % m != a % m
  {
    if (a + d) % m == a % m {
      assert d == ((a + d) / m - a / m) * m + 0;
      DivUnique(d, m, (a + d) / m - a / m, 0);
    }
  }

  /** 256^24, where the misplaced carry of step 44 lands. */
  const TWO192: int := 0x1_000000000000000000000000000000000000000000000000

  /** What the misplaced carry of step 44 adds to the value. */
  const Misplaced: int := TWO192 - TWO256

  lemma PowLanding(n: nat)
    requires n == 24
    ensures Pow(256, n) == TWO192
  {
    PowAdd(256, 16, 8);
    PowAdd(256, 8, 8);
    PowAdd(256, 4, 4);
    PowAdd(256, 2, 2);
    assert Pow(256, 2) == 0x1_0000;
  }

  /** The misplaced carry adds 256^(i-20) - 256^(i-12) to the value. */
  lemma CounterShift(x: seq<int>, i: nat)
    requires IsCounterInput(x) && i == 44
    ensures Eval(Pass(x, i, AsWritten), 256) == Eval(x, 256) + (Pow(256, i - AsWritten) - Pow(256, i - 12))
  {
    PassValue(x, i, AsWritten);
    CounterCarry(x, i);
    MovedCarry(Eval(Pass(x, i, AsWritten), 256), Eval(x, 256), x[i], Pow(256, i - 32), L, PassCarry(x, i),
               Pow(256, i - AsWritten), Pow(256, i - 12));
  }

  lemma MovedCarry(e: int, ex: int, xi: int, p: int, l: int, c: int, p1: int, p2: int)
    requires e == ex - (16 * xi * p) * l + c * (p1 - p2) && xi == 0 && c == 1
    ensures e == ex + (p1 - p2)
  {
  }
}
