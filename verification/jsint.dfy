/** The integer semantics of JavaScript's bitwise operators on Number
    values. A bitwise operator first converts its operands with ToInt32
    (wrap to a signed 32-bit integer); a store into a Uint8Array keeps the
    value modulo 256. */
module JsInt {
  import opened Positional

  const TWO32: int := 0x1_0000_0000
  const TWO31: int := 0x8000_0000

  predicate InInt32(x: int)
  {
    -TWO31 <= x < TWO31
  }

  /** ToInt32 of an integral Number. */
  function I32(x: int): (r: int)
    ensures InInt32(r)
    ensures (r - x) % TWO32 == 0
    ensures InInt32(x) ==> r == x
  {
    var m := x % TWO32;
    if m < TWO31 then m else m - TWO32
  }

  /** ToUint32 of an integral Number: the 32 bits a bitwise operator sees. */
  function U32(x: int): (r: nat)
    ensures r < TWO32
  {
    x % TWO32
  }

  /** `x >> k`: arithmetic shift of the Int32 value, i.e. floor division. */
  function Shr(x: int, k: nat): int
    requires k < 32
  {
    I32(x) / Pow(2, k)
  }

  /** `x & (2^k - 1)`: the low k bits, which ToInt32 never changes. */
  function Low(x: int, k: nat): int
  {
    x % Pow(2, k)
  }

  /** `x << k`: the Int32 value shifted left, truncated to 32 bits. */
  function Shl(x: int, k: nat): int
    requires k < 32
  {
    I32(I32(x) * Pow(2, k))
  }

  /** `x >>> k`: logical shift of the Uint32 value. */
  function Ushr(x: int, k: nat): int
    requires k < 32
  {
    U32(x) / Pow(2, k)
  }

  /** `a % b` for a positive divisor: the remainder of truncating
      division, which takes the sign of a. */
  function Rem(a: int, b: int): int
    requires b > 0
  {
    if a >= 0 then a % b else -((-a) % b)
  }

  /** `(a / b) | 0` for a positive divisor: the quotient truncated toward
      zero, then ToInt32. The floating-point quotient is exact for the
      small operands this model divides. */
  function Quot(a: int, b: int): int
    requires b > 0
  {
    I32(if a >= 0 then a / b else -((-a) / b))
  }

  /** A right shift of a positive value is strictly smaller. */
  lemma ShrShrinks(x: int, k: nat)
    requires 0 < k < 32 && x > 0
    ensures Shr(x, k) < x
  {
    var m := I32(x);
    if m > 0 {
      assert Pow(2, 1) == 2;
      PowMonotone(2, 1, k);
      QuotientShrinks(m, Pow(2, k));
    }
  }

  /** Truncating a positive value by a divisor above one shrinks it. */
  lemma QuotShrinks(x: int, b: int)
    requires x > 0 && b > 1
    ensures Quot(x, b) < x
  {
    QuotientShrinks(x, b);
    var q := x / b;
    assert I32(q) <= q by {
      assert q % TWO32 <= q;
    }
  }

  /** Bitwise exclusive or of two non-negative integers. */
  function Xor(a: nat, b: nat): nat
    decreases a + b
  {
    if a == 0 then b
    else if b == 0 then a
    else 2 * Xor(a / 2, b / 2) + (a % 2 + b % 2) % 2
  }

  /** Bitwise and of two non-negative integers. */
  function And(a: nat, b: nat): nat
    decreases a + b
  {
    if a == 0 || b == 0 then 0
    else 2 * And(a / 2, b / 2) + (a % 2) * (b % 2)
  }

  /** Bitwise or of two non-negative integers. */
  function Or(a: nat, b: nat): nat
    decreases a + b
  {
    if a == 0 then b
    else if b == 0 then a
    else 2 * Or(a / 2, b / 2) + (if a % 2 + b % 2 > 0 then 1 else 0)
  }

  /** The Int32 value whose 32 bits are `u`. */
  function Signed(u: nat): int
    requires u < TWO32
  {
    if u < TWO31 then u else u - TWO32
  }

  lemma {:induction false} XorBound(a: nat, b: nat, k: nat)
    requires a < Pow(2, k) && b < Pow(2, k)
    ensures Xor(a, b) < Pow(2, k)
    decreases a + b
  {
    if a != 0 && b != 0 {
      assert k > 0;
      XorBound(a / 2, b / 2, k - 1);
    }
  }

  lemma {:induction false} XorZero(a: nat)
    ensures Xor(a, 0) == a && Xor(0, a) == a
  {
  }

  lemma {:induction false} XorCommutes(a: nat, b: nat)
    ensures Xor(a, b) == Xor(b, a)
    decreases a + b
  {
    if a != 0 && b != 0 {
      XorCommutes(a / 2, b / 2);
    }
  }

  /** The low bit and the remaining bits of an exclusive or. */
  lemma XorHalves(a: nat, b: nat)
    ensures Xor(a, b) % 2 == (a % 2 + b % 2) % 2
    ensures Xor(a, b) / 2 == Xor(a / 2, b / 2)
  {
    var bit := (a % 2 + b % 2) % 2;
    if a == 0 {
      assert bit == b % 2;
    } else if b == 0 {
      assert bit == a % 2;
    } else {
      var x := Xor(a / 2, b / 2);
      assert Xor(a, b) == 2 * x + bit;
      HalfOf(x, bit);
    }
  }

  lemma {:induction false} XorCancel(a: nat, b: nat)
    ensures Xor(a, Xor(a, b)) == b
    decreases a + b
  {
    if a == 0 {
      XorZero(b);
    } else {
      var c := Xor(a, b);
      var r := Xor(a, c);
      XorHalves(a, b);
      XorHalves(a, c);
      XorCancel(a / 2, b / 2);
      SameBits(r, b);
    }
  }

  lemma SameBits(r: nat, b: nat)
    requires r / 2 == b / 2 && r % 2 == b % 2
    ensures r == b
  {
  }

  lemma HalfOf(x: nat, bit: nat)
    requires bit < 2
    ensures (2 * x + bit) / 2 == x && (2 * x + bit) % 2 == bit
  {
  }

  lemma {:induction false} XorSelf(a: nat)
    ensures Xor(a, a) == 0
    decreases a
  {
    if a != 0 {
      XorSelf(a / 2);
    }
  }

  lemma {:induction false} AndAllOnes(a: nat, k: nat)
    requires a < Pow(2, k)
    ensures And(Pow(2, k) - 1, a) == a
    decreases k
  {
    if a != 0 {
      assert k > 0;
      var m := Pow(2, k) - 1;
      assert m / 2 == Pow(2, k - 1) - 1 && m % 2 == 1;
      AndAllOnes(a / 2, k - 1);
    }
  }

  lemma AndZero(a: nat)
    ensures And(0, a) == 0
  {
  }

  lemma ShrSign(x: int)
    requires -0x1_0000 <= x < 0x1_0000
    ensures Low(Shr(x, 16), 1) == (if x < 0 then 1 else 0)
  {
    PowFacts();
  }

  lemma {:induction false} OrBound(a: nat, b: nat, k: nat)
    requires a < Pow(2, k) && b < Pow(2, k)
    ensures Or(a, b) < Pow(2, k)
    decreases a + b
  {
    if a != 0 && b != 0 {
      assert k > 0;
      OrBound(a / 2, b / 2, k - 1);
    }
  }

  lemma {:induction false} OrZero(a: nat, b: nat)
    ensures Or(a, b) == 0 <==> a == 0 && b == 0
    decreases a + b
  {
    if a != 0 && b != 0 {
      OrZero(a / 2, b / 2);
    }
  }

  /** Exclusive or is zero exactly on equal operands. */
  lemma XorZeroIff(a: nat, b: nat)
    ensures Xor(a, b) == 0 <==> a == b
  {
    XorSelf(a);
    if Xor(a, b) == 0 {
      XorCancel(a, b);
      XorZero(a);
    }
  }

  lemma {:induction false} AndCommutes(a: nat, b: nat)
    ensures And(a, b) == And(b, a)
    decreases a + b
  {
    if a != 0 && b != 0 {
      AndCommutes(a / 2, b / 2);
    }
  }

  /** Reassembling a number from its low bit and the rest, modulo 2w. */
  lemma LowBitsStep(a: nat, w: nat)
    requires w > 0
    ensures 2 * ((a / 2) % w) + a % 2 == a % (2 * w)
  {
    var q := (a / 2) / w;
    var r := 2 * ((a / 2) % w) + a % 2;
    assert a / 2 == w * q + (a / 2) % w;
    assert a == (2 * w) * q + r;
    DivUnique(a, 2 * w, q, r);
  }

  /** `a & (2^k - 1)` keeps the k low bits. */
  lemma {:induction false} AndLowBits(a: nat, k: nat)
    ensures And(Pow(2, k) - 1, a) == a % Pow(2, k)
    decreases k
  {
    if k == 0 {
      assert Pow(2, k) - 1 == 0;
    } else if a != 0 {
      var w := Pow(2, k - 1);
      var m := Pow(2, k) - 1;
      assert m / 2 == w - 1 && m % 2 == 1;
      AndLowBits(a / 2, k - 1);
      LowBitsStep(a, w);
    }
  }

  /** `y | 2^k` for y below 2^(k+1) sets bit k. */
  lemma {:induction false} OrBit(y: nat, k: nat)
    requires y < Pow(2, k + 1)
    ensures Or(y, Pow(2, k)) == y % Pow(2, k) + Pow(2, k)
    decreases k
  {
    if k == 0 {
      assert Pow(2, 1) == 2;
      if y == 1 {
        assert Or(1, 1) == 2 * Or(0, 0) + 1;
      }
    } else if y != 0 {
      var w := Pow(2, k - 1);
      assert Pow(2, k) == 2 * w;
      assert Pow(2, k) / 2 == w && Pow(2, k) % 2 == 0;
      OrBit(y / 2, k - 1);
      LowBitsStep(y, w);
    }
  }
}
