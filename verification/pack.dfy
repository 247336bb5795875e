/** Canonical byte encoding of field elements: pack25519, unpack25519,
    par25519 and neq25519 (lib/nacl.js:62-101). */
module FieldPack {
  import opened Positional
  import opened JsInt
  import opened Field25519
  import opened CarryBounds
  import opened ConstantTime

  /** The limbs of P that pack25519 subtracts: 0xffed, fourteen 0xffff, 0x7fff. */
  function PLimb(i: nat): int
  {
    if i == 0 then 0xffed else if i == 15 then 0x7fff else 0xffff
  }

  function PL(): Gf
  {
    seq(16, i requires 0 <= i < 16 => PLimb(i))
  }

  lemma PLValue()
    ensures Value(PL()) == P
  {
    var top := seq(16, _ => RADIX - 1);
    EvalAllTop(16, RADIX);
    RadixFacts();
    assert PL() == top[0 := 0xffed][15 := 0x7fff];
    EvalUpdate(top, 0, 0xffed, RADIX);
    EvalUpdate(top[0 := 0xffed], 15, 0x7fff, RADIX);
    assert Pow(RADIX, 0) == 1;
  }

  /** `(x >> 16) & 1`: the borrow out of a difference limb. */
  function Borrow(x: int): int
  {
    Low(Shr(x, 16), 1)
  }

  // ---------------------------------------------------------------------
  // The conditional subtraction of P (lib/nacl.js:68-79)

  /** The inner loop for i = i..14: limb i takes t[i] - 0xffff minus the
      borrow of limb i - 1, and limb i - 1 is then masked to 16 bits. */
  function BorrowLoop(t: Gf, m: Gf, i: nat): Gf
    requires 1 <= i <= 15
    decreases 15 - i
  {
    if i == 15 then m
    else
      var m1 := m[i := t[i] - 0xffff - Borrow(m[i - 1])];
      BorrowLoop(t, m1[i - 1 := Low(m1[i - 1], 16)], i + 1)
  }

  /** The array m when the inner loop is about to run index i: the low
      limbs spell t - P below 2^(16i), with the top one still unmasked. */
  predicate BorrowState(t: Gf, m: Gf, i: nat)
    requires 1 <= i <= 15
  {
    && (forall j :: 0 <= j < i - 1 ==> 0 <= m[j] < RADIX)
    && -RADIX <= m[i - 1] < RADIX
    && Eval(m[..i], RADIX) == Eval(t[..i], RADIX) - Eval(PL()[..i], RADIX)
  }

  /** Masking a limb in [-2^16, 2^16) adds the borrow times 2^16. */
  lemma MaskBorrow(x: int)
    requires -RADIX <= x < RADIX
    ensures Low(x, 16) == x + Borrow(x) * RADIX
    ensures Borrow(x) == (if x < 0 then 1 else 0)
  {
    ShrSign(x);
    PowFacts();
  }

  lemma BorrowStep(t: Gf, m: Gf, i: nat)
    requires 1 <= i < 15
    requires Normalized(t)
    requires BorrowState(t, m, i)
    ensures var m1 := m[i := t[i] - 0xffff - Borrow(m[i - 1])];
      BorrowState(t, m1[i - 1 := Low(m1[i - 1], 16)], i + 1)
  {
    var x := m[i - 1];
    MaskBorrow(x);
    var bor := Borrow(x);
    var v := t[i] - 0xffff - bor;
    var m1 := m[i := v];
    var m2 := m1[i - 1 := Low(m1[i - 1], 16)];
    var front := m[..i][i - 1 := x + bor * RADIX];
    assert m2[..i + 1] == front + [v];
    var w := Pow(RADIX, i - 1);
    var W := Pow(RADIX, i);
    assert W == RADIX * w;
    EvalUpdate(m[..i], i - 1, x + bor * RADIX, RADIX);
    assert (bor * RADIX) * w == bor * W;
    EvalAppend(front, [v], RADIX);
    EvalSingle(v, RADIX);
    EvalPrefix(t, i, RADIX);
    EvalPrefix(PL(), i, RADIX);
    assert PL()[i] == 0xffff;
    MulDiff3(t[i], PL()[i], bor, W);
    forall j | 0 <= j < i
      ensures 0 <= m2[j] < RADIX
    {
      if j < i - 1 {
        assert m2[j] == m[j];
      }
    }
  }

  lemma {:induction false} BorrowLoopState(t: Gf, m: Gf, i: nat)
    requires 1 <= i <= 15
    requires Normalized(t)
    requires BorrowState(t, m, i)
    ensures BorrowState(t, BorrowLoop(t, m, i), 15)
    decreases 15 - i
  {
    if i < 15 {
      BorrowStep(t, m, i);
      var m1 := m[i := t[i] - 0xffff - Borrow(m[i - 1])];
      BorrowLoopState(t, m1[i - 1 := Low(m1[i - 1], 16)], i + 1);
    }
  }

  /** After the inner loop: the top limb takes t[15] - 0x7fff minus the
      borrow of limb 14, and limb 14 is then masked to 16 bits. */
  function TopLimbs(t: Gf, m: Gf): Gf
  {
    var m2 := m[15 := t[15] - 0x7fff - Borrow(m[14])];
    m2[14 := Low(m2[14], 16)]
  }

  /** One iteration of the outer loop: subtract P limb by limb, read the
      final borrow b, and keep the difference when b = 0. The source reads
      b before masking limb 14, which does not touch limb 15. */
  function SubRound(t: Gf, m: Gf): (Gf, Gf)
  {
    var m0 := m[0 := t[0] - 0xffed];
    var d := TopLimbs(t, BorrowLoop(t, m0, 1));
    var b := Borrow(d[15]);
    PowFacts();
    Sel25519(t, d, 1 - b)
  }

  /** Masking limb 14 settles its borrow into limb 15's place value. */
  lemma TopLimbsLow(t: Gf, m: Gf)
    requires Normalized(t)
    requires BorrowState(t, m, 15)
    ensures var d := TopLimbs(t, m);
      && d[15] == t[15] - 0x7fff - Borrow(m[14])
      && Eval(d[..15], RADIX) == Eval(m[..15], RADIX) + Borrow(m[14]) * TWO240
      && Digits(d[..15], RADIX)
  {
    var x := m[14];
    MaskBorrow(x);
    var bor := Borrow(x);
    var d := TopLimbs(t, m);
    assert d[..15] == m[..15][14 := x + bor * RADIX];
    EvalUpdate(m[..15], 14, x + bor * RADIX, RADIX);
    RadixFacts();
    PowAdd(RADIX, 1, 14);
    assert (bor * RADIX) * Pow(RADIX, 14) == bor * TWO240;
    forall j | 0 <= j < 15
      ensures 0 <= d[j] < RADIX
    {
      if j < 14 {
        assert d[j] == m[j];
      }
    }
  }

  /** The value of the finished difference is t - P. */
  lemma TopLimbsValue(t: Gf, m: Gf)
    requires Normalized(t)
    requires BorrowState(t, m, 15)
    ensures var d := TopLimbs(t, m);
      && Value(d) == Value(t) - P
      && Digits(d[..15], RADIX)
      && -0x8000 <= d[15] < RADIX
  {
    var bor := Borrow(m[14]);
    MaskBorrow(m[14]);
    var d := TopLimbs(t, m);
    TopLimbsLow(t, m);
    var v := d[15];
    RadixFacts();
    MulDiff3(t[15], 0x7fff, bor, TWO240);
    assert d[..16] == d && t[..16] == t && PL()[..16] == PL();
    EvalPrefix(d, 15, RADIX);
    EvalPrefix(t, 15, RADIX);
    EvalPrefix(PL(), 15, RADIX);
    PLValue();
  }

  /** The final borrow is set exactly when t < P; otherwise the difference
      is normalised. */
  lemma FinishRound(t: Gf, m: Gf)
    requires Normalized(t)
    requires BorrowState(t, m, 15)
    ensures var d := TopLimbs(t, m);
      && LimbsInInt32(d)
      && Borrow(d[15]) == (if Value(t) >= P then 0 else 1)
      && (Value(t) >= P ==> Normalized(d) && Value(d) == Value(t) - P)
  {
    var d := TopLimbs(t, m);
    TopLimbsValue(t, m);
    var v := d[15];
    MaskBorrow(v);
    forall j | 0 <= j < 16
      ensures -RADIX <= d[j] < RADIX
    {
      if j < 15 {
        assert d[..15][j] == d[j];
      }
    }
    var low := Eval(d[..15], RADIX);
    EvalBounds(d[..15], RADIX);
    RadixFacts();
    assert d[..16] == d;
    EvalPrefix(d, 15, RADIX);
    assert Value(d) == low + v * TWO240;
    if v < 0 {
      MulAtLeast(v, TWO240);
      assert Value(t) < P;
    } else {
      assert Value(t) >= P;
      forall j | 0 <= j < 16
        ensures 0 <= d[j] < RADIX
      {
        if j < 15 {
          assert d[..15][j] == d[j];
        }
      }
    }
  }

  /** One outer round keeps limbs normalised and subtracts P exactly when
      the value is at least P. */
  lemma SubRoundValue(t: Gf, m: Gf)
    requires Normalized(t)
    ensures Normalized(SubRound(t, m).0)
    ensures Value(SubRound(t, m).0) == if Value(t) >= P then Value(t) - P else Value(t)
  {
    var m0 := m[0 := t[0] - 0xffed];
    assert m0[..1] == [t[0] - 0xffed] && t[..1] == [t[0]] && PL()[..1] == [0xffed];
    EvalSingle(t[0] - 0xffed, RADIX);
    EvalSingle(t[0], RADIX);
    EvalSingle(0xffed, RADIX);
    assert BorrowState(t, m0, 1);
    BorrowLoopState(t, m0, 1);
    FinishRound(t, BorrowLoop(t, m0, 1));
  }

  // ---------------------------------------------------------------------
  // pack25519

  /** The byte loop: o[2i] = t[i] & 0xff and o[2i+1] = t[i] >> 8, both
      stored into a Uint8Array. */
  function LimbBytes(t: Gf): (r: seq<int>)
    ensures |r| == 32 && IsBytes(r)
  {
    PowFacts();
    seq(32, k requires 0 <= k < 32 => if k % 2 == 0 then Low(t[k / 2], 8) else Shr(t[k / 2], 8) % 256)
  }

  function Pack25519(n: Gf): (r: seq<int>)
    ensures |r| == 32 && IsBytes(r)
  {
    var t := Car25519(Car25519(Car25519(n)));
    var round1 := SubRound(t, Zeros(16));
    var round2 := SubRound(round1.0, round1.1);
    LimbBytes(round2.0)
  }

  lemma LimbBytesValue(t: Gf)
    requires Normalized(t)
    ensures Eval(LimbBytes(t), 256) == Value(t)
  {
    PowFacts();
    assert LimbBytes(t) == SplitDigits(t);
    SplitValue(t);
  }

  /** pack25519 writes the little-endian bytes of the residue in [0, P). */
  lemma PackValue(n: Gf)
    requires Exact(n)
    ensures Eval(Pack25519(n), 256) == Value(n) % P
  {
    var t1 := Car25519(n);
    var t2 := Car25519(t1);
    var t := Car25519(t2);
    ThreePasses(n);
    var round1 := SubRound(t, Zeros(16));
    var round2 := SubRound(round1.0, round1.1);
    assert Pack25519(n) == LimbBytes(round2.0);
    ResidueAfterRounds(t, Zeros(16));
    LimbBytesValue(round2.0);
  }

  /** Two outer rounds reduce a normalised value below 2^256 into [0, P). */
  lemma ResidueAfterRounds(t: Gf, m: Gf)
    requires Normalized(t)
    ensures var round1 := SubRound(t, m);
      var round2 := SubRound(round1.0, round1.1);
      Normalized(round2.0) && Value(round2.0) == Value(t) % P
  {
    NormalizedRange(t);
    RadixFacts();
    var round1 := SubRound(t, m);
    SubRoundValue(t, m);
    var round2 := SubRound(round1.0, round1.1);
    SubRoundValue(round1.0, round1.1);
    var v := Value(t);
    if v < P {
      DivUnique(v, P, 0, v);
      assert Value(round2.0) == v;
    } else if v < 2 * P {
      DivUnique(v, P, 1, v - P);
      assert Value(round1.0) == v - P;
      assert Value(round2.0) == v - P;
    } else {
      DivUnique(v, P, 2, v - 2 * P);
      assert Value(round1.0) == v - P;
      assert Value(round2.0) == v - 2 * P;
    }
  }

  // ---------------------------------------------------------------------
  // unpack25519

  /** o[i] = n[2i] + (n[2i+1] << 8), then bit 255 is cleared. */
  function Unpack25519(n: seq<int>): (r: Gf)
    requires |n| == 32 && IsBytes(n)
    ensures Normalized(r)
    ensures Value(r) == Eval(n, 256) % TWO255
  {
    var o: Gf := seq(16, i requires 0 <= i < 16 => n[2 * i] + Shl(n[2 * i + 1], 8));
    UnpackProof(n, o);
    o[15 := Low(o[15], 15)]
  }

  lemma UnpackProof(n: seq<int>, o: Gf)
    requires |n| == 32 && IsBytes(n)
    requires forall i :: 0 <= i < 16 ==> o[i] == n[2 * i] + Shl(n[2 * i + 1], 8)
    ensures Normalized(o[15 := Low(o[15], 15)])
    ensures Value(o[15 := Low(o[15], 15)]) == Eval(n, 256) % TWO255
  {
    UnpackJoin(n, o);
    ClearTopBit(o);
  }

  /** Joining byte pairs into limbs keeps the value. */
  lemma UnpackJoin(n: seq<int>, o: Gf)
    requires |n| == 32 && IsBytes(n)
    requires forall i :: 0 <= i < 16 ==> o[i] == n[2 * i] + Shl(n[2 * i + 1], 8)
    ensures Normalized(o) && Value(o) == Eval(n, 256)
  {
    PowFacts();
    forall i | 0 <= i < 16
      ensures o[i] == n[2 * i] + 256 * n[2 * i + 1]
    {
      assert InInt32(n[2 * i + 1] * 256);
    }
    forall k | 0 <= k < 32
      ensures SplitDigits(o)[k] == n[k]
    {
      var i := k / 2;
      var lo, hi := n[2 * i], n[2 * i + 1];
      DivUnique(o[i], 256, hi, lo);
      if k % 2 == 0 {
        assert k == 2 * i && SplitDigits(o)[k] == o[i] % 256;
      } else {
        assert k == 2 * i + 1 && SplitDigits(o)[k] == o[i] / 256;
      }
    }
    assert SplitDigits(o) == n;
    SplitValue(o);
  }

  /** `o[15] &= 0x7fff` reduces a normalised value mod 2^255. */
  lemma ClearTopBit(o: Gf)
    requires Normalized(o)
    ensures Normalized(o[15 := Low(o[15], 15)])
    ensures Value(o[15 := Low(o[15], 15)]) == Value(o) % TWO255
  {
    PowFacts();
    var top := o[15] % 0x8000;
    var r := o[15 := top];
    var hi := o[15] / 0x8000;
    assert Low(o[15], 15) == top;
    assert o[15] == top + hi * 0x8000;
    EvalUpdate(o, 15, top, RADIX);
    RadixFacts();
    assert (top - o[15]) * TWO240 == -hi * TWO255;
    assert Normalized(r);
    assert r[..16] == r;
    EvalPrefix(r, 15, RADIX);
    EvalBounds(r[..15], RADIX);
    var low := Eval(r[..15], RADIX);
    assert Value(r) == low + top * TWO240;
    MulLe(top, 0x7fff, TWO240);
    assert Value(r) < TWO255;
    DivUnique(Value(o), TWO255, hi, Value(r));
  }

  /** unpack(pack(x)) is x reduced mod P. */
  lemma UnpackPack(x: Gf)
    requires Exact(x)
    ensures Value(Unpack25519(Pack25519(x))) == Value(x) % P
  {
    var b := Pack25519(x);
    PackValue(x);
    RadixFacts();
    DivUnique(Eval(b, 256), TWO255, 0, Eval(b, 256));
  }

  /** A canonical encoding (value below P) survives unpack then pack. */
  lemma PackUnpack(b: seq<int>)
    requires |b| == 32 && IsBytes(b)
    requires Eval(b, 256) < P
    ensures Pack25519(Unpack25519(b)) == b
  {
    var u := Unpack25519(b);
    EvalBounds(b, 256);
    RadixFacts();
    DivUnique(Eval(b, 256), TWO255, 0, Eval(b, 256));
    DivUnique(Eval(b, 256), P, 0, Eval(b, 256));
    assert Exact(u);
    PackValue(u);
    EvalInjective(Pack25519(u), b, 256);
  }

  // ---------------------------------------------------------------------
  // par25519 and neq25519

  /** The low bit of the canonical encoding. */
  function Par25519(a: Gf): (b: int)
    ensures b == 0 || b == 1
  {
    PowOne(2);
    Low(Pack25519(a)[0], 1)
  }

  lemma ParValue(a: Gf)
    requires Exact(a)
    ensures Par25519(a) == (Value(a) % P) % 2
  {
    PackValue(a);
    LowBit(Pack25519(a));
  }

  /** The low bit of a little-endian byte string is the low bit of byte 0. */
  lemma LowBit(b: seq<int>)
    requires |b| > 0
    ensures Low(b[0], 1) == Eval(b, 256) % 2
  {
    assert b == [b[0]] + b[1..];
    EvalCons(b[0], b[1..], 256);
    PowFacts();
    ModShift(b[0], 128 * Eval(b[1..], 256), 2);
  }

  /** 0 when the two canonical encodings agree, -1 otherwise. */
  function Neq25519(a: Gf, b: Gf): int
  {
    CryptoVerify32(Pack25519(a), 0, Pack25519(b), 0)
  }

  lemma NeqValue(a: Gf, b: Gf)
    requires Exact(a) && Exact(b)
    ensures Neq25519(a, b) == 0 || Neq25519(a, b) == -1
    ensures Neq25519(a, b) == 0 <==> Value(a) % P == Value(b) % P
  {
    PackValue(a);
    PackValue(b);
    SameEncoding(Pack25519(a), Pack25519(b));
  }

  /** Two 32-byte encodings agree exactly when their values do. */
  lemma SameEncoding(x: seq<int>, y: seq<int>)
    requires |x| == 32 && |y| == 32 && IsBytes(x) && IsBytes(y)
    ensures x[0..32] == y[0..32] <==> Eval(x, 256) == Eval(y, 256)
  {
    assert x[0..32] == x && y[0..32] == y;
    if Eval(x, 256) == Eval(y, 256) {
      EvalInjective(x, y, 256);
    }
  }
}
