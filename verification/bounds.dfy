/** Limb bounds through M and the ladder: products of limbs below 2^21 stay
    exact in the folded accumulator, so two carry passes leave every limb
    close to [0, 2^16) (lib/nacl.js:111-129), and an addition that keeps
    such limbs keeps them along the whole scalarmult ladder
    (lib/nacl.js:372-395). This is what pack25519 needs of the affine
    coordinates it encodes. */
module LimbBounds {
  import opened Positional
  import opened JsInt
  import opened Field25519
  import opened FieldMul
  import opened CarryBounds
  import opened Curve

  /** Limbs of magnitude below 2^21. */
  const SMALL: int := 0x20_0000
  /** SMALL · SMALL. */
  const SMALL2: int := 0x400_0000_0000

  predicate Small(g: Gf)
  {
    forall j :: 0 <= j < 16 ==> -SMALL < g[j] < SMALL
  }

  /** What two carry passes leave: limbs 1..15 in [0, 2^16), limb 0 within
      38 of that range. */
  predicate Carried(g: Gf)
  {
    HighNormalized(g) && -38 <= g[0] < RADIX + 38
  }

  predicate SmallPoint(p: Point)
  {
    Small(p.x) && Small(p.y) && Small(p.z) && Small(p.t)
  }

  /** An addition that keeps small limbs small, as the source's `add` does:
      each coordinate it writes is an M product of sums of small limbs. */
  ghost predicate KeepsSmall(add: PointAdd)
  {
    forall a, b {:trigger add(a, b)} :: SmallPoint(a) && SmallPoint(b) ==> SmallPoint(add(a, b))
  }

  lemma CarriedSmall(g: Gf)
    requires Carried(g)
    ensures Small(g) && Exact(g)
  {
  }

  lemma LimbProduct(x: int, y: int)
    requires -SMALL < x < SMALL && -SMALL < y < SMALL
    ensures -SMALL2 <= x * y <= SMALL2
  {
    var ax, ay := if x < 0 then -x else x, if y < 0 then -y else y;
    MulLe(ax, SMALL, ay);
    MulLe(ay, SMALL, SMALL);
    assert ax * ay == if (x < 0) == (y < 0) then x * y else -(x * y);
  }

  /** The bound on an accumulator limb after i rows. */
  function RowsSmall(i: nat): int
  {
    i * SMALL2
  }

  /** After rows 0 .. i-1 every accumulator limb is at most i·2^42 in
      magnitude. */
  lemma {:induction false} ProductBound(a: Gf, b: Gf, i: nat)
    requires Small(a) && Small(b) && i <= 16
    ensures forall k :: 0 <= k < 31 ==> -RowsSmall(i) <= Product(a, b, i)[k] <= RowsSmall(i)
  {
    if i > 0 {
      var t := Product(a, b, i - 1);
      ProductBound(a, b, i - 1);
      RowLoopEffect(t, a[i - 1], b, i - 1, 0);
      forall k | 0 <= k < 31
        ensures -RowsSmall(i) <= Product(a, b, i)[k] <= RowsSmall(i)
      {
        if i - 1 <= k < i + 15 {
          LimbProduct(a[i - 1], b[k - (i - 1)]);
        }
      }
    }
  }

  /** The folded accumulator of small factors is exact. */
  lemma FoldExact(a: Gf, b: Gf)
    requires Small(a) && Small(b)
    ensures Exact(Fold(Product(a, b, 16)))
  {
    var t := Product(a, b, 16);
    ProductBound(a, b, 16);
    FoldLoopEffect(t, 0);
    forall j | 0 <= j < 16
      ensures -EXACT < Fold(t)[j] < EXACT
    {
      assert Fold(t)[j] == FoldLoop(t, 0)[j];
    }
  }

  /** M of small factors leaves carried limbs. */
  lemma MulCarried(a: Gf, b: Gf)
    requires Small(a) && Small(b)
    ensures Carried(Mul(a, b))
  {
    var o := Fold(Product(a, b, 16));
    FoldExact(a, b);
    Car25519Closed(o);
    FirstPass(o);
    var o1 := Car25519(o);
    Car25519Closed(o1);
    SecondPass(o1);
  }

  lemma MulSmall(a: Gf, b: Gf)
    requires Small(a) && Small(b)
    ensures Small(Mul(a, b)) && Exact(Mul(a, b))
  {
    MulCarried(a, b);
    CarriedSmall(Mul(a, b));
  }

  /** The exponent chains keep small limbs small. */
  lemma {:induction false} ChainSmall(c: Gf, x: Gf, a: int, skips: set<int>)
    requires a >= -1 && Small(c) && Small(x)
    ensures Small(Chain(c, x, a, skips))
    decreases a + 1
  {
    if a >= 0 {
      MulSmall(c, c);
      MulSmall(Square(c), x);
      ChainSmall(FieldMul.ChainStep(c, x, a, skips), x, a - 1, skips);
    }
  }

  /** Both affine coordinates of a small point are exact, so pack25519
      applies to them. */
  lemma AffineExact(p: Point)
    requires Small(p.x) && Small(p.y) && Small(p.z)
    ensures Exact(Affine(p).0) && Exact(Affine(p).1)
  {
    var zi := Inv25519(p.z);
    ChainSmall(p.z, p.z, 253, InvSkips());
    MulSmall(p.x, zi);
    MulSmall(p.y, zi);
  }

  /** pack of a point with small limbs is RFC 8032's encoding of it. */
  lemma PackSmall(p: Point)
    requires SmallPoint(p)
    ensures Eval(PackPoint(p), 256) == EncodedValue(p)
  {
    AffineExact(p);
    PackPointValue(p);
  }

  /** Storing small limbs as Int32 changes nothing. */
  lemma WrapSmall(p: Point)
    requires SmallPoint(p)
    ensures WrapPoint(p) == p
  {
    WrapKeeps(p.x);
    WrapKeeps(p.y);
    WrapKeeps(p.z);
    WrapKeeps(p.t);
  }

  lemma WrapKeeps(g: Gf)
    requires Small(g)
    ensures Wrap(g) == g
  {
    forall j | 0 <= j < 16
      ensures Wrap(g)[j] == g[j]
    {
      I32Small(g[j]);
    }
  }

  lemma I32Small(x: int)
    requires -SMALL < x < SMALL
    ensures I32(x) == x
  {
  }

  /** The ladder keeps both registers small when the addition does. */
  lemma {:induction false} LadderSmall(add: PointAdd, p: Point, q: Point, s: seq<int>, i: int)
    requires KeepsSmall(add) && SmallPoint(p) && SmallPoint(q)
    requires -1 <= i < 8 * |s|
    ensures SmallPoint(Ladder(add, p, q, s, i).0) && SmallPoint(Ladder(add, p, q, s, i).1)
    decreases i + 1
  {
    if i >= 0 {
      var b := Bit(s, i);
      var n := Rung(add, p, q, b);
      RungSmall(add, p, q, b);
      LadderSmall(add, n.0, n.1, s, i - 1);
    }
  }

  lemma RungSmall(add: PointAdd, p: Point, q: Point, b: int)
    requires KeepsSmall(add) && SmallPoint(p) && SmallPoint(q) && (b == 0 || b == 1)
    ensures SmallPoint(Rung(add, p, q, b).0) && SmallPoint(Rung(add, p, q, b).1)
  {
    WrapSmall(p);
    WrapSmall(q);
    var w := CSwap(p, q, b);
    var q1 := add(w.1, w.0);
    var p1 := add(w.0, w.0);
    WrapSmall(q1);
    WrapSmall(p1);
  }

  /** A point built from small affine coordinates, as the base point is. */
  lemma ExtendedSmall(x: Gf, y: Gf, z: Gf)
    requires Small(x) && Small(y) && Small(z)
    ensures SmallPoint(Point(x, y, z, Mul(x, y)))
  {
    MulSmall(x, y);
  }

  /** The base point and the neutral point have small limbs. */
  lemma BasePointSmall()
    ensures SmallPoint(BasePoint()) && SmallPoint(Neutral())
  {
    BaseCoordinatesSmall();
    ExtendedSmall(BaseX, BaseY, Gf1);
  }

  lemma BaseCoordinatesSmall()
    ensures Small(BaseX) && Small(BaseY) && Small(Gf1) && Small(Gf0)
  {
  }

  /** scalarmult of a small point is small, for an addition that keeps
      limbs small. */
  lemma ScalarMultSmall(add: PointAdd, q: Point, s: seq<int>)
    requires KeepsSmall(add) && SmallPoint(q) && SmallPoint(Neutral()) && |s| == 32
    ensures SmallPoint(ScalarMult(add, q, s))
  {
    LadderSmall(add, Neutral(), q, s, BitTop);
  }

  /** scalarbase yields a point with small limbs, for an addition that
      keeps them small. */
  lemma ScalarBaseSmall(add: PointAdd, s: seq<int>)
    requires KeepsSmall(add) && |s| == 32
    ensures SmallPoint(ScalarBase(add, s))
  {
    BasePointSmall();
    ScalarMultSmall(add, BasePoint(), s);
  }
}
