/** Arithmetic in GF(2^255 - 19) on sixteen limbs of radix 2^16, as in the
    TweetNaCl port (lib/nacl.js:39-149). A limb array `g` stands for the
    number Value(g) = Σ g[i]·2^(16i); limbs are exact integers and may be
    negative or exceed 2^16 between normalisations. */
module Field25519 {
  import opened Positional
  import opened JsInt

  /** The field prime 2^255 - 19. */
  const P: int := 0x7fffffffffffffffffffffffffffffffffffffffffffffffffffffffffffffed
  const RADIX: int := 0x1_0000
  const TWO240: int := 0x1000000000000000000000000000000000000000000000000000000000000
  const TWO255: int := 0x8000000000000000000000000000000000000000000000000000000000000000
  const TWO256: int := 0x10000000000000000000000000000000000000000000000000000000000000000

  type Gf = s: seq<int> | |s| == 16 witness [0, 0, 0, 0, 0, 0, 0, 0, 0, 0, 0, 0, 0, 0, 0, 0]

  function Value(g: seq<int>): int
  {
    Eval(g, RADIX)
  }

  /** Every limb lies in [0, 2^16). */
  predicate Normalized(g: seq<int>)
  {
    Digits(g, RADIX)
  }

  lemma RadixFacts()
    ensures Pow(RADIX, 1) == RADIX
    ensures Pow(RADIX, 15) == TWO240
    ensures Pow(RADIX, 16) == TWO256
    ensures TWO256 == 2 * P + 38 && TWO255 == P + 19
  {
    assert Pow(RADIX, 1) == RADIX;
    PowAdd(RADIX, 1, 1);
    PowAdd(RADIX, 2, 1);
    PowAdd(RADIX, 2, 2);
    PowAdd(RADIX, 4, 4);
    PowAdd(RADIX, 8, 8);
    PowAdd(RADIX, 3, 4);
    PowAdd(RADIX, 7, 8);
  }

  lemma NormalizedRange(g: seq<int>)
    requires |g| == 16 && Normalized(g)
    ensures 0 <= Value(g) < TWO256
  {
    EvalBounds(g, RADIX);
    RadixFacts();
  }

  // ---------------------------------------------------------------------
  // A, Z (lib/nacl.js:103-109)

  /** Limb-wise sum; no carry is taken. */
  function Add(a: Gf, b: Gf): (r: Gf)
    ensures Value(r) == Value(a) + Value(b)
  {
    var r := seq(16, i requires 0 <= i < 16 => a[i] + b[i]);
    EvalPointwise(a, b, r, 1, RADIX);
    r
  }

  /** Limb-wise difference; limbs may become negative. */
  function Sub(a: Gf, b: Gf): (r: Gf)
    ensures Value(r) == Value(a) - Value(b)
  {
    var r := seq(16, i requires 0 <= i < 16 => a[i] - b[i]);
    EvalPointwise(a, b, r, -1, RADIX);
    r
  }

  // ---------------------------------------------------------------------
  // sel25519 (lib/nacl.js:53-60)

  /** `~(b - 1)` as the 32 bits the `&` sees. */
  function SelMask(b: int): nat
  {
    U32(-I32(b - 1) - 1)
  }

  /** One limb of sel25519: `t = c & (p ^ q); p ^= t; q ^= t`. The limbs
      come back as Int32 values because `^=` stores the Int32 result. */
  function SelLimb(p: int, q: int, c: nat): (int, int)
  {
    var t := And(c, Xor(U32(p), U32(q)));
    (I32(Xor(U32(p), t)), I32(Xor(U32(q), t)))
  }

  lemma I32OfU32(x: int)
    ensures I32(U32(x)) == I32(x)
  {
  }

  lemma SelLimbSwaps(p: int, q: int, b: int)
    requires b == 0 || b == 1
    ensures b == 1 ==> SelLimb(p, q, SelMask(b)) == (I32(q), I32(p))
    ensures b == 0 ==> SelLimb(p, q, SelMask(b)) == (I32(p), I32(q))
  {
    var pu, qu := U32(p), U32(q);
    I32OfU32(p);
    I32OfU32(q);
    if b == 1 {
      PowFacts();
      assert SelMask(b) == Pow(2, 32) - 1;
      XorBound(pu, qu, 32);
      AndAllOnes(Xor(pu, qu), 32);
      XorCancel(pu, qu);
      XorCommutes(pu, qu);
      XorCancel(qu, pu);
    } else {
      assert SelMask(b) == 0;
      AndZero(Xor(pu, qu));
      XorZero(pu);
      XorZero(qu);
    }
  }

  /** The limbs as Int32 values, which is what any bitwise step stores. */
  function Wrap(g: Gf): Gf
  {
    seq(16, i requires 0 <= i < 16 => I32(g[i]))
  }

  predicate LimbsInInt32(g: Gf)
  {
    forall i :: 0 <= i < 16 ==> InInt32(g[i])
  }

  /** Constant-time conditional swap: for b = 1 the two elements trade
      places, for b = 0 both stay; either way limbs are stored as Int32. */
  function Sel25519(p: Gf, q: Gf, b: int): (r: (Gf, Gf))
    requires b == 0 || b == 1
    ensures b == 1 ==> r == (Wrap(q), Wrap(p))
    ensures b == 0 ==> r == (Wrap(p), Wrap(q))
    ensures LimbsInInt32(p) && LimbsInInt32(q) ==> r == (if b == 1 then (q, p) else (p, q))
  {
    var c := SelMask(b);
    var r: (Gf, Gf) := (seq(16, i requires 0 <= i < 16 => SelLimb(p[i], q[i], c).0),
                        seq(16, i requires 0 <= i < 16 => SelLimb(p[i], q[i], c).1));
    forall i | 0 <= i < 16
      ensures r.0[i] == (if b == 1 then I32(q[i]) else I32(p[i]))
      ensures r.1[i] == (if b == 1 then I32(p[i]) else I32(q[i]))
    {
      SelLimbSwaps(p[i], q[i], b);
    }
    assert b == 1 ==> r.0 == Wrap(q) && r.1 == Wrap(p);
    assert b == 0 ==> r.0 == Wrap(p) && r.1 == Wrap(q);
    assert LimbsInInt32(p) ==> Wrap(p) == p;
    assert LimbsInInt32(q) ==> Wrap(q) == q;
    r
  }

  // ---------------------------------------------------------------------
  // car25519 (lib/nacl.js:43-51)

  /** One pass of the loop body in car25519 at index i. */
  function CarStep(o: Gf, i: nat): Gf
    requires i < 16
  {
    var o1 := o[i := o[i] + RADIX];
    var c := o1[i] / RADIX;
    var k := if i < 15 then i + 1 else 0;
    var o2 := o1[k := o1[k] + c - 1 + 37 * (c - 1) * (if i == 15 then 1 else 0)];
    o2[i := o2[i] - c * RADIX]
  }

  /** What CarStep does, limb by limb: limb i keeps its residue mod 2^16 and
      the quotient moves to the next limb (times 38 into limb 0 from limb 15). */
  lemma CarStepEffect(o: Gf, i: nat)
    requires i < 16
    ensures var r := CarStep(o, i);
      && r[i] == o[i] % RADIX
      && (i < 15 ==> r[i + 1] == o[i + 1] + o[i] / RADIX)
      && (i == 15 ==> r[0] == o[0] + 38 * (o[15] / RADIX))
      && forall j :: 0 <= j < 16 && j != i && j != (if i < 15 then i + 1 else 0) ==> r[j] == o[j]
  {
    assert (o[i] + RADIX) / RADIX == o[i] / RADIX + 1;
  }

  lemma CarStepAsUpdates(o: Gf, i: nat)
    requires i < 16
    ensures var c := o[i] / RADIX;
      var k := if i < 15 then i + 1 else 0;
      CarStep(o, i) == o[i := o[i] + -c * RADIX][k := o[k] + (if i < 15 then c else 38 * c)]
  {
    CarStepEffect(o, i);
  }

  /** Adding da at limb i and dk at limb k adds their place values. */
  lemma TwoUpdates(o: Gf, i: nat, k: nat, da: int, dk: int)
    requires i < 16 && k < 16 && i != k
    ensures Value(o[i := o[i] + da][k := o[k] + dk]) == Value(o) + da * Pow(RADIX, i) + dk * Pow(RADIX, k)
  {
    EvalAddTwo(o, i, k, da, dk, RADIX);
  }

  /** Below the top limb a carry step moves value between limbs only. */
  lemma CarStepValueLow(o: Gf, i: nat)
    requires i < 15
    ensures Value(CarStep(o, i)) == Value(o)
  {
    var c := o[i] / RADIX;
    CarStepAsUpdates(o, i);
    TwoUpdates(o, i, i + 1, -c * RADIX, c);
    var w := Pow(RADIX, i);
    assert Pow(RADIX, i + 1) == RADIX * w;
    CarryCancels(c, w);
  }

  /** At the top limb the carry c re-enters limb 0 as 38c, removing 2cP. */
  lemma CarStepValueTop(o: Gf)
    ensures Value(CarStep(o, 15)) == Value(o) - (o[15] / RADIX) * (2 * P)
  {
    var c := o[15] / RADIX;
    CarStepAsUpdates(o, 15);
    TwoUpdates(o, 15, 0, -c * RADIX, 38 * c);
    RadixFacts();
    assert Pow(RADIX, 0) == 1;
    TopCarryFolds(c);
  }

  lemma CarryCancels(c: int, w: int)
    ensures (-c * RADIX) * w + c * (RADIX * w) == 0
  {
  }

  lemma TopCarryFolds(c: int)
    ensures (-c * RADIX) * TWO240 + (38 * c) * 1 == -c * (2 * P)
  {
    MulAssoc(-c, RADIX, TWO240);
    assert RADIX * TWO240 == 2 * P + 38;
    MulDistrib(-c, 2 * P, 38);
  }

  lemma CarStepValue(o: Gf, i: nat)
    requires i < 16
    ensures i < 15 ==> Value(CarStep(o, i)) == Value(o)
    ensures i == 15 ==> Value(CarStep(o, i)) == Value(o) - (o[15] / RADIX) * (2 * P)
  {
    if i < 15 {
      CarStepValueLow(o, i);
    } else {
      CarStepValueTop(o);
    }
  }

  /** The loop of car25519 from index i on. */
  function CarLoop(o: Gf, i: nat): (r: Gf)
    requires i <= 16
    ensures Value(r) % P == Value(o) % P
    ensures forall j :: (if i == 0 then 1 else i) <= j < 16 ==> 0 <= r[j] < RADIX
    ensures forall j :: 1 <= j < i ==> r[j] == o[j]
    decreases 16 - i
  {
    if i == 16 then o
    else
      var o' := CarStep(o, i);
      CarStepValue(o, i);
      CarStepEffect(o, i);
      ModShift(Value(o), -(o[15] / RADIX) * 2, P);
      CarLoop(o', i + 1)
  }

  /** car25519: one carry pass over all sixteen limbs. */
  function Car25519(o: Gf): (r: Gf)
    ensures Value(r) % P == Value(o) % P
    ensures forall j :: 1 <= j < 16 ==> 0 <= r[j] < RADIX
  {
    CarLoop(o, 0)
  }
}
