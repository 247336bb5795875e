/** Constant-time comparison of byte ranges (lib/nacl.js:29-37). */
module ConstantTime {
  import opened Positional
  import opened JsInt

  /** The accumulator `d` of vn after the first i byte pairs: the or of
      their exclusive ors. */
  function Diff(x: seq<int>, xi: nat, y: seq<int>, yi: nat, i: nat): (d: nat)
    requires IsBytes(x) && IsBytes(y)
    requires xi + i <= |x| && yi + i <= |y|
    ensures d < 256
    ensures d == 0 <==> x[xi..xi + i] == y[yi..yi + i]
    decreases i
  {
    if i == 0 then 0
    else
      var prev := Diff(x, xi, y, yi, i - 1);
      var a: nat, b: nat := x[xi + i - 1], y[yi + i - 1];
      var e := Xor(a, b);
      PowFacts();
      XorBound(a, b, 8);
      OrBound(prev, e, 8);
      OrZero(prev, e);
      XorZeroIff(a, b);
      assert x[xi..xi + i] == x[xi..xi + i - 1] + [a];
      assert y[yi..yi + i] == y[yi..yi + i - 1] + [b];
      assert x[xi..xi + i] == y[yi..yi + i] ==> x[xi..xi + i - 1] == y[yi..yi + i - 1] && a == b by {
        if x[xi..xi + i] == y[yi..yi + i] {
          assert x[xi..xi + i][..i - 1] == y[yi..yi + i][..i - 1];
        }
      }
      Or(prev, e)
  }

  /** vn: 0 when the n bytes at x[xi..] and y[yi..] agree, -1 otherwise. */
  function Vn(x: seq<int>, xi: nat, y: seq<int>, yi: nat, n: nat): (r: int)
    requires IsBytes(x) && IsBytes(y)
    requires xi + n <= |x| && yi + n <= |y|
    ensures r == 0 || r == -1
    ensures r == 0 <==> x[xi..xi + n] == y[yi..yi + n]
  {
    var d := Diff(x, xi, y, yi, n);
    PowFacts();
    assert d == 0 ==> Ushr(d - 1, 8) == 0xff_ffff;
    assert d != 0 ==> Ushr(d - 1, 8) == 0;
    Low(Ushr(d - 1, 8), 1) - 1
  }

  function CryptoVerify32(x: seq<int>, xi: nat, y: seq<int>, yi: nat): (r: int)
    requires IsBytes(x) && IsBytes(y)
    requires xi + 32 <= |x| && yi + 32 <= |y|
    ensures r == 0 <==> x[xi..xi + 32] == y[yi..yi + 32]
    ensures r == 0 || r == -1
  {
    Vn(x, xi, y, yi, 32)
  }
}
