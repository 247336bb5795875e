/** Field multiplication, squaring and the two fixed exponent chains of the
    TweetNaCl port (lib/nacl.js:111-149). */
module FieldMul {
  import opened Positional
  import opened Field25519

  // ---------------------------------------------------------------------
  // The schoolbook product (lib/nacl.js:112-118)

  /** The inner loop `for j: t[i+j] += x * b[j]` from j on. */
  function RowLoop(t: seq<int>, x: int, b: Gf, i: nat, j: nat): (r: seq<int>)
    requires |t| == 31 && i < 16 && j <= 16
    ensures |r| == 31
    decreases 16 - j
  {
    if j == 16 then t else RowLoop(t[i + j := t[i + j] + x * b[j]], x, b, i, j + 1)
  }

  /** The row adds x·b[k-i] exactly at the limbs i+j .. i+15. */
  lemma {:induction false} RowLoopEffect(t: seq<int>, x: int, b: Gf, i: nat, j: nat)
    requires |t| == 31 && i < 16 && j <= 16
    ensures forall k :: 0 <= k < 31 ==>
      RowLoop(t, x, b, i, j)[k] == if i + j <= k < i + 16 then t[k] + x * b[k - i] else t[k]
    decreases 16 - j
  {
    if j < 16 {
      RowLoopEffect(t[i + j := t[i + j] + x * b[j]], x, b, i, j + 1);
    }
  }

  /** The accumulator after the outer rows 0 .. i-1. */
  function Product(a: Gf, b: Gf, i: nat): (t: seq<int>)
    requires i <= 16
    ensures |t| == 31
  {
    if i == 0 then Zeros(31) else RowLoop(Product(a, b, i - 1), a[i - 1], b, i - 1, 0)
  }

  /** b placed at limb offset i in a 31-limb frame. */
  function Shifted(b: Gf, i: nat): (s: seq<int>)
    requires i < 16
    ensures |s| == 31
  {
    Zeros(i) + b + Zeros(15 - i)
  }

  lemma ShiftedValue(b: Gf, i: nat)
    requires i < 16
    ensures Eval(Shifted(b, i), RADIX) == Pow(RADIX, i) * Eval(b, RADIX)
  {
    EvalAppend(Zeros(i) + b, Zeros(15 - i), RADIX);
    EvalAppend(Zeros(i), b, RADIX);
    EvalZeros(i, RADIX);
    EvalZeros(15 - i, RADIX);
  }

  /** One row adds x · 2^(16 i) · value(b). */
  lemma RowValue(t: seq<int>, x: int, b: Gf, i: nat)
    requires |t| == 31 && i < 16
    ensures Eval(RowLoop(t, x, b, i, 0), RADIX) == Eval(t, RADIX) + x * (Pow(RADIX, i) * Eval(b, RADIX))
  {
    var r := RowLoop(t, x, b, i, 0);
    var s := Shifted(b, i);
    RowLoopEffect(t, x, b, i, 0);
    forall k | 0 <= k < 31
      ensures r[k] == t[k] + x * s[k]
    {
      if i <= k < i + 16 {
        assert s[k] == b[k - i];
      } else {
        assert s[k] == 0;
      }
    }
    EvalPointwise(t, s, r, x, RADIX);
    ShiftedValue(b, i);
  }

  /** The accumulator holds value(a[..i]) · value(b). */
  lemma {:induction false} ProductValue(a: Gf, b: Gf, i: nat)
    requires i <= 16
    ensures Eval(Product(a, b, i), RADIX) == Eval(a[..i], RADIX) * Eval(b, RADIX)
  {
    if i == 0 {
      EvalZeros(31, RADIX);
      assert a[..0] == [];
    } else {
      ProductValue(a, b, i - 1);
      ProductStep(a, b, i);
    }
  }

  lemma ProductStep(a: Gf, b: Gf, i: nat)
    requires 0 < i <= 16
    requires Eval(Product(a, b, i - 1), RADIX) == Eval(a[..i - 1], RADIX) * Eval(b, RADIX)
    ensures Eval(Product(a, b, i), RADIX) == Eval(a[..i], RADIX) * Eval(b, RADIX)
  {
    var t := Product(a, b, i - 1);
    var x, w, vb := a[i - 1], Pow(RADIX, i - 1), Eval(b, RADIX);
    var e, e' := Eval(a[..i - 1], RADIX), Eval(a[..i], RADIX);
    assert Product(a, b, i) == RowLoop(t, x, b, i - 1, 0);
    RowValue(t, x, b, i - 1);
    assert Eval(Product(a, b, i), RADIX) == e * vb + x * (w * vb);
    EvalPrefix(a, i - 1, RADIX);
    assert a[..i - 1 + 1] == a[..i];
    assert e' == e + x * w;
    RowArith(e, x, w, vb, e');
  }

  lemma RowArith(e: int, x: int, w: int, v: int, e': int)
    requires e' == e + x * w
    ensures e * v + x * (w * v) == e' * v
  {
  }

  // ---------------------------------------------------------------------
  // Folding by 38 (lib/nacl.js:119-122)

  /** The loop `for i < 15: t[i] += 38 * t[i+16]` from i on. */
  function FoldLoop(t: seq<int>, i: nat): (r: seq<int>)
    requires |t| == 31 && i <= 15
    ensures |r| == 31
    decreases 15 - i
  {
    if i == 15 then t else FoldLoop(t[i := t[i] + 38 * t[i + 16]], i + 1)
  }

  /** Limb k < 15 (from i on) gains 38 times limb k + 16; the rest stay. */
  lemma {:induction false} FoldLoopEffect(t: seq<int>, i: nat)
    requires |t| == 31 && i <= 15
    ensures forall k {:trigger FoldLoop(t, i)[k]} :: 0 <= k < 31 ==>
      FoldLoop(t, i)[k] == if i <= k < 15 then t[k] + 38 * t[k + 16] else t[k]
    decreases 15 - i
  {
    if i < 15 {
      var t' := t[i := t[i] + 38 * t[i + 16]];
      FoldLoopEffect(t', i + 1);
      forall k | 0 <= k < 31
        ensures FoldLoop(t, i)[k] == if i <= k < 15 then t[k] + 38 * t[k + 16] else t[k]
      {
        assert FoldLoop(t, i) == FoldLoop(t', i + 1);
        if k == i {
          assert FoldLoop(t', i + 1)[k] == t'[k];
        } else if i < k < 15 {
          assert t'[k + 16] == t[k + 16];
          assert FoldLoop(t', i + 1)[k] == t'[k] + 38 * t'[k + 16];
        } else if k < i {
          assert FoldLoop(t', i + 1)[k] == t'[k];
        } else {
          assert k >= 15;
          assert FoldLoop(t', i + 1)[k] == t'[k];
        }
      }
    } else {
      assert FoldLoop(t, i) == t;
    }
  }

  /** The folded low sixteen limbs: `o[i] = t[i]` after the fold. */
  function Fold(t: seq<int>): (o: Gf)
    requires |t| == 31
  {
    FoldLoop(t, 0)[..16]
  }

  /** Folding adds 38 times the high fifteen limbs to the low sixteen. */
  lemma FoldSplit(t: seq<int>)
    requires |t| == 31
    ensures Eval(Fold(t), RADIX) == Eval(t[..16], RADIX) + 38 * Eval(t[16..], RADIX)
  {
    var lo, h := t[..16], t[16..];
    var hi := h + [0];
    var o := Fold(t);
    FoldLoopEffect(t, 0);
    forall k | 0 <= k < 16
      ensures o[k] == lo[k] + 38 * hi[k]
    {
    }
    EvalPointwise(lo, hi, o, 38, RADIX);
    EvalSnoc(h, 0, RADIX);
  }

  /** 2^256 ≡ 38 (mod p): folding keeps the value modulo p. */
  lemma FoldValue(t: seq<int>)
    requires |t| == 31
    ensures Eval(Fold(t), RADIX) % P == Eval(t, RADIX) % P
  {
    var lo, h := t[..16], t[16..];
    FoldSplit(t);
    assert t == lo + h;
    EvalAppend(lo, h, RADIX);
    RadixFacts();
    FoldArith(Eval(lo, RADIX), Eval(h, RADIX), Eval(Fold(t), RADIX), Eval(t, RADIX));
  }

  lemma FoldArith(l: int, h: int, vo: int, vt: int)
    requires vo == l + 38 * h && vt == l + TWO256 * h
    ensures vo % P == vt % P
  {
    assert vt == vo + (2 * h) * P;
    ModShift(vo, 2 * h, P);
  }

  // ---------------------------------------------------------------------
  // M and S (lib/nacl.js:111-129)

  /** M: product, fold, two carry passes. */
  function Mul(a: Gf, b: Gf): (r: Gf)
    ensures Value(r) % P == (Value(a) * Value(b)) % P
    ensures forall j :: 1 <= j < 16 ==> 0 <= r[j] < RADIX
  {
    var t := Product(a, b, 16);
    ProductValue(a, b, 16);
    assert a[..16] == a;
    FoldValue(t);
    Car25519(Car25519(Fold(t)))
  }

  /** S: squaring is M with both operands the same. */
  function Square(a: Gf): (r: Gf)
    ensures Value(r) % P == (Value(a) * Value(a)) % P
  {
    Mul(a, a)
  }

  // ---------------------------------------------------------------------
  // The exponent chains (lib/nacl.js:131-149)

  /** One pass of the loop body at index a. */
  function ChainStep(c: Gf, x: Gf, a: int, skips: set<int>): Gf
  {
    var s := Square(c);
    if a in skips then s else Mul(s, x)
  }

  /** The loop `for a from hi down to 0: c = c²; if a ∉ skips: c = c·x`. */
  function Chain(c: Gf, x: Gf, a: int, skips: set<int>): Gf
    requires a >= -1
    decreases a + 1
  {
    if a < 0 then c else Chain(ChainStep(c, x, a, skips), x, a - 1, skips)
  }

  /** The exponent the same loop builds: e ↦ 2e, plus one unless skipped. */
  function ChainExp(e: nat, a: int, skips: set<int>): nat
    requires a >= -1
    decreases a + 1
  {
    if a < 0 then e else ChainExp(2 * e + (if a in skips then 0 else 1), a - 1, skips)
  }

  lemma ModMul(a: int, b: int, a': int, b': int)
    requires a % P == a' % P && b % P == b' % P
    ensures (a * b) % P == (a' * b') % P
  {
    MulCongruent(a, b, a', b', P);
  }

  /** Squaring doubles the exponent modulo p. */
  lemma SquareStep(vc: int, vs: int, v: int, e: nat)
    requires vc % P == Pow(v, e) % P
    requires vs % P == (vc * vc) % P
    ensures vs % P == Pow(v, 2 * e) % P
  {
    ModMul(vc, vc, Pow(v, e), Pow(v, e));
    PowAdd(v, e, e);
  }

  /** Multiplying by x adds one to the exponent modulo p. */
  lemma MulStep(vs: int, vm: int, v: int, e: nat)
    requires vs % P == Pow(v, e) % P
    requires vm % P == (vs * v) % P
    ensures vm % P == Pow(v, e + 1) % P
  {
    ModMul(vs, v, Pow(v, e), v);
    PowAdd(v, e, 1);
    assert Pow(v, 1) == v;
  }

  lemma SquareValue(c: Gf, x: Gf, e: nat)
    requires Eval(c, RADIX) % P == Pow(Eval(x, RADIX), e) % P
    ensures Eval(Square(c), RADIX) % P == Pow(Eval(x, RADIX), 2 * e) % P
  {
    SquareStep(Eval(c, RADIX), Eval(Square(c), RADIX), Eval(x, RADIX), e);
  }

  lemma MulValue(s: Gf, x: Gf, e: nat)
    requires Eval(s, RADIX) % P == Pow(Eval(x, RADIX), e) % P
    ensures Eval(Mul(s, x), RADIX) % P == Pow(Eval(x, RADIX), e + 1) % P
  {
    MulStep(Eval(s, RADIX), Eval(Mul(s, x), RADIX), Eval(x, RADIX), e);
  }

  /** A skipped pass squares only: x^e becomes x^(2e). */
  lemma SkipPassValue(c: Gf, x: Gf, a: int, skips: set<int>, e: nat)
    requires a in skips
    requires Eval(c, RADIX) % P == Pow(Eval(x, RADIX), e) % P
    ensures Eval(ChainStep(c, x, a, skips), RADIX) % P == Pow(Eval(x, RADIX), 2 * e) % P
  {
    SquareValue(c, x, e);
  }

  /** A full pass squares and multiplies: x^e becomes x^(2e+1). */
  lemma FullPassValue(c: Gf, x: Gf, a: int, skips: set<int>, e: nat)
    requires a !in skips
    requires Eval(c, RADIX) % P == Pow(Eval(x, RADIX), e) % P
    ensures Eval(ChainStep(c, x, a, skips), RADIX) % P == Pow(Eval(x, RADIX), 2 * e + 1) % P
  {
    SquareValue(c, x, e);
    MulValue(Square(c), x, 2 * e);
  }

  /** One pass maps x^e to x^(2e) or x^(2e+1). */
  lemma ChainStepValue(c: Gf, x: Gf, a: int, skips: set<int>, e: nat)
    requires Eval(c, RADIX) % P == Pow(Eval(x, RADIX), e) % P
    ensures Eval(ChainStep(c, x, a, skips), RADIX) % P
      == Pow(Eval(x, RADIX), 2 * e + (if a in skips then 0 else 1)) % P
  {
    if a in skips {
      SkipPassValue(c, x, a, skips, e);
      assert 2 * e + (if a in skips then 0 else 1) == 2 * e;
    } else {
      FullPassValue(c, x, a, skips, e);
    }
  }

  /** If c ≡ x^e then the loop yields x^ChainExp(e). */
  lemma {:induction false} ChainValue(c: Gf, x: Gf, a: int, skips: set<int>, e: nat)
    requires a >= -1
    requires Eval(c, RADIX) % P == Pow(Eval(x, RADIX), e) % P
    ensures Eval(Chain(c, x, a, skips), RADIX) % P == Pow(Eval(x, RADIX), ChainExp(e, a, skips)) % P
    decreases a + 1
  {
    if a >= 0 {
      var e' := 2 * e + (if a in skips then 0 else 1);
      ChainStepValue(c, x, a, skips, e);
      ChainValue(ChainStep(c, x, a, skips), x, a - 1, skips, e');
    }
  }

  /** A run of steps from a down to lo with no skip maps e to
      e·2^n + 2^n - 1, where n = a - lo + 1. */
  lemma {:induction false} ChainExpRun(e: nat, a: int, lo: nat, skips: set<int>)
    requires lo <= a + 1
    requires forall k :: lo <= k <= a ==> k !in skips
    ensures ChainExp(e, a, skips)
      == ChainExp(e * Pow(2, a - lo + 1) + Pow(2, a - lo + 1) - 1, lo - 1, skips)
    decreases a - lo + 1
  {
    if a >= lo {
      assert ChainExp(e, a, skips) == ChainExp(2 * e + 1, a - 1, skips);
      ChainExpRun(2 * e + 1, a - 1, lo, skips);
      var w := Pow(2, a - lo);
      PowSucc(2, a - lo);
      RunArith(e, w, Pow(2, a - lo + 1));
    } else {
      assert Pow(2, 0) == 1;
    }
  }

  lemma RunArith(e: int, w: int, w2: int)
    requires w2 == 2 * w
    ensures (2 * e + 1) * w + w - 1 == e * w2 + w2 - 1
  {
  }

  lemma PowTwoTop()
    ensures Pow(2, 255) == 64 * Pow(2, 249)
    ensures Pow(2, 255) == TWO255
  {
    PowAdd(2, 249, 6);
    PowFacts();
    PowAdd(2, 4, 2);
    PowAdd(2, 1, 1);
    PowAdd(2, 1, 255);
    PowMul(2, 16, 16);
    RadixFacts();
  }

  lemma {:induction false} PowMul(b: int, m: nat, n: nat)
    ensures Pow(b, m * n) == Pow(Pow(b, m), n)
    decreases n
  {
    if n > 0 {
      PowMul(b, m, n - 1);
      PowAdd(b, m, m * (n - 1));
      assert m + m * (n - 1) == m * n;
    }
  }

  /** inv25519 skips the multiplication at a = 2 and a = 4. */
  function InvSkips(): set<int>
  {
    {2, 4}
  }

  /** pow2523 skips the multiplication at a = 1. */
  function Pow2523Skips(): set<int>
  {
    {1}
  }

  /** The last five passes of inv25519 (a = 4 .. 0, skipping 4 and 2). */
  lemma InvTail(w: nat)
    requires w >= 1
    ensures ChainExp(2 * w - 1, 4, InvSkips()) == 64 * w - 21
  {
    var sk := InvSkips();
    assert 4 in sk && 3 !in sk && 2 in sk && 1 !in sk && 0 !in sk;
    assert ChainExp(2 * w - 1, 4, sk) == ChainExp(4 * w - 2, 3, sk);
    assert ChainExp(4 * w - 2, 3, sk) == ChainExp(8 * w - 3, 2, sk);
    assert ChainExp(8 * w - 3, 2, sk) == ChainExp(16 * w - 6, 1, sk);
    assert ChainExp(16 * w - 6, 1, sk) == ChainExp(32 * w - 11, 0, sk);
  }

  /** The last two passes of pow2523 (a = 1 skipped, a = 0). */
  lemma Pow2523Tail(w: nat)
    requires w >= 1
    ensures ChainExp(2 * w - 1, 1, Pow2523Skips()) == 8 * w - 3
  {
    var sk := Pow2523Skips();
    assert 1 in sk && 0 !in sk;
    assert ChainExp(2 * w - 1, 1, sk) == ChainExp(4 * w - 2, 0, sk);
  }

  /** inv25519 builds the exponent 2^255 - 21 = p - 2. */
  lemma InvExponent()
    ensures ChainExp(1, 253, InvSkips()) == P - 2
  {
    ChainExpRun(1, 253, 5, InvSkips());
    var w := Pow(2, 249);
    InvTail(w);
    PowTwoTop();
  }

  /** pow2523 builds the exponent 2^252 - 3 = (p - 5) / 8. */
  lemma Pow2523Exponent()
    ensures ChainExp(1, 250, Pow2523Skips()) == (P - 5) / 8
  {
    ChainExpRun(1, 250, 2, Pow2523Skips());
    var w := Pow(2, 249);
    Pow2523Tail(w);
    PowTwoTop();
    assert P - 5 == 8 * (8 * w - 3);
  }

  /** inv25519: x^(p-2), the inverse of x for x ≢ 0 (mod p). */
  function Inv25519(x: Gf): (r: Gf)
    ensures Value(r) % P == Pow(Value(x), P - 2) % P
  {
    ChainValue(x, x, 253, InvSkips(), 1);
    PowOne(Value(x));
    InvExponent();
    Chain(x, x, 253, InvSkips())
  }

  /** pow2523: x^((p-5)/8), used for square roots. */
  function Pow2523(x: Gf): (r: Gf)
    ensures Value(r) % P == Pow(Value(x), (P - 5) / 8) % P
  {
    ChainValue(x, x, 250, Pow2523Skips(), 1);
    PowOne(Value(x));
    Pow2523Exponent();
    Chain(x, x, 250, Pow2523Skips())
  }
}
