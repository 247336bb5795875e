/** Little-endian positional values: the meaning of a limb array
    (radix 2^16) and of a byte array (radix 256). */
module Positional {

  function Pow(b: int, e: nat): (r: int)
    ensures b > 0 ==> r > 0
  {
    if e == 0 then 1 else b * Pow(b, e - 1)
  }

  /** The number Σ s[i]·base^i. Digits may lie outside [0, base). */
  function Eval(s: seq<int>, base: int): int
  {
    if |s| == 0 then 0 else Eval(s[..|s| - 1], base) + s[|s| - 1] * Pow(base, |s| - 1)
  }

  predicate Digits(s: seq<int>, base: int)
  {
    forall i :: 0 <= i < |s| ==> 0 <= s[i] < base
  }

  predicate IsBytes(s: seq<int>)
  {
    Digits(s, 256)
  }

  function Zeros(n: nat): (z: seq<int>)
    ensures |z| == n
    ensures forall i :: 0 <= i < n ==> z[i] == 0
  {
    seq(n, i => 0)
  }

  lemma {:induction false} PowAdd(b: int, m: nat, n: nat)
    ensures Pow(b, m + n) == Pow(b, m) * Pow(b, n)
    decreases n
  {
    if n > 0 {
      PowAdd(b, m, n - 1);
      var x, y := Pow(b, m), Pow(b, n - 1);
      assert Pow(b, m + n) == b * Pow(b, m + n - 1);
      assert Pow(b, n) == b * y;
      MulRotate(b, x, y);
    }
  }

  lemma PowOne(b: int)
    ensures Pow(b, 1) == b
  {
    assert Pow(b, 0) == 1;
  }

  lemma PowSucc(b: int, n: nat)
    ensures Pow(b, n + 1) == b * Pow(b, n)
  {
  }

  lemma {:induction false} PowMonotone(b: int, m: nat, n: nat)
    requires b > 0
    requires m <= n
    ensures Pow(b, m) <= Pow(b, n)
    decreases n
  {
    if n > m {
      PowMonotone(b, m, n - 1);
    }
  }

  /** Powers of two and of the two radixes that the model uses. */
  lemma PowFacts()
    ensures Pow(2, 1) == 2 && Pow(2, 4) == 16 && Pow(2, 8) == 256
    ensures Pow(2, 15) == 0x8000 && Pow(2, 16) == 0x1_0000
    ensures Pow(2, 24) == 0x100_0000 && Pow(2, 32) == 0x1_0000_0000
  {
    assert Pow(2, 1) == 2;
    PowAdd(2, 1, 1);
    PowAdd(2, 2, 2);
    PowAdd(2, 4, 4);
    PowAdd(2, 8, 8);
    PowAdd(2, 8, 16);
    PowAdd(2, 16, 16);
    PowAdd(2, 1, 15);
  }

  lemma {:induction false} EvalAppend(a: seq<int>, c: seq<int>, base: int)
    ensures Eval(a + c, base) == Eval(a, base) + Pow(base, |a|) * Eval(c, base)
    decreases |c|
  {
    if |c| == 0 {
      assert a + c == a;
    } else {
      var c' := c[..|c| - 1];
      var d := c[|c| - 1];
      assert (a + c)[..|a + c| - 1] == a + c';
      EvalAppend(a, c', base);
      PowAdd(base, |a|, |c| - 1);
      var pa, pc := Pow(base, |a|), Pow(base, |c| - 1);
      var ec' := Eval(c', base);
      assert Eval(a + c, base) == Eval(a, base) + pa * ec' + d * (pa * pc);
      assert Eval(c, base) == ec' + d * pc;
      MulDistrib(pa, ec', d * pc);
      assert d * (pa * pc) == pa * (d * pc);
    }
  }

  /** Zero digits on top add nothing. */
  lemma {:induction false} EvalZeroTail(a: seq<int>, c: seq<int>, base: int)
    requires forall k :: 0 <= k < |c| ==> c[k] == 0
    ensures Eval(a + c, base) == Eval(a, base)
    decreases |c|
  {
    if |c| == 0 {
      assert a + c == a;
    } else {
      var c' := c[..|c| - 1];
      assert (a + c)[..|a + c| - 1] == a + c';
      EvalZeroTail(a, c', base);
    }
  }

  lemma EvalSingle(d: int, base: int)
    ensures Eval([d], base) == d
  {
    assert [d][..0] == [];
  }

  /** Appending one digit adds it at the next place. */
  lemma EvalSnoc(s: seq<int>, x: int, base: int)
    ensures Eval(s + [x], base) == Eval(s, base) + x * Pow(base, |s|)
  {
    assert (s + [x])[..|s|] == s;
  }

  /** Front-recursive reading of the same value. */
  lemma EvalCons(d: int, s: seq<int>, base: int)
    ensures Eval([d] + s, base) == d + base * Eval(s, base)
  {
    EvalAppend([d], s, base);
    EvalSingle(d, base);
    assert Pow(base, 1) == base;
  }

  lemma {:induction false} EvalPrefix(s: seq<int>, k: nat, base: int)
    requires k < |s|
    ensures Eval(s[..k + 1], base) == Eval(s[..k], base) + s[k] * Pow(base, k)
  {
    assert s[..k + 1][..k] == s[..k];
  }

  lemma {:induction false} EvalUpdate(s: seq<int>, k: nat, v: int, base: int)
    requires k < |s|
    ensures Eval(s[k := v], base) == Eval(s, base) + (v - s[k]) * Pow(base, k)
  {
    var s' := s[k := v];
    assert s == s[..k] + [s[k]] + s[k + 1..];
    assert s' == s[..k] + [v] + s[k + 1..];
    EvalAppend(s[..k] + [s[k]], s[k + 1..], base);
    EvalAppend(s[..k] + [v], s[k + 1..], base);
    EvalAppend(s[..k], [s[k]], base);
    EvalAppend(s[..k], [v], base);
    EvalSingle(s[k], base);
    EvalSingle(v, base);
  }

  lemma EvalAddAt(s: seq<int>, k: nat, d: int, base: int)
    requires k < |s|
    ensures Eval(s[k := s[k] + d], base) == Eval(s, base) + d * Pow(base, k)
  {
    EvalUpdate(s, k, s[k] + d, base);
    assert (s[k] + d) - s[k] == d;
  }

  /** Two additions at distinct places add both place values. */
  lemma EvalAddTwo(s: seq<int>, i: nat, k: nat, di: int, dk: int, base: int)
    requires i < |s| && k < |s| && i != k
    ensures Eval(s[i := s[i] + di][k := s[k] + dk], base) == Eval(s, base) + di * Pow(base, i) + dk * Pow(base, k)
  {
    EvalAddAt(s, i, di, base);
    EvalAddAt(s[i := s[i] + di], k, dk, base);
  }

  /** Digit-wise combination `c[i] == a[i] + k * b[i]` combines the values alike. */
  lemma {:induction false} EvalPointwise(a: seq<int>, b: seq<int>, c: seq<int>, k: int, base: int)
    requires |a| == |b| == |c|
    requires forall i :: 0 <= i < |c| ==> c[i] == a[i] + k * b[i]
    ensures Eval(c, base) == Eval(a, base) + k * Eval(b, base)
    decreases |c|
  {
    if |c| > 0 {
      var n := |c| - 1;
      EvalPointwise(a[..n], b[..n], c[..n], k, base);
      var w := Pow(base, n);
      var ea, eb := Eval(a[..n], base), Eval(b[..n], base);
      assert Eval(a, base) == ea + a[n] * w;
      assert Eval(b, base) == eb + b[n] * w;
      assert Eval(c, base) == ea + k * eb + c[n] * w;
      assert c[n] * w == a[n] * w + k * (b[n] * w);
      MulDistrib(k, eb, b[n] * w);
    }
  }

  lemma {:induction false} EvalZeros(n: nat, base: int)
    ensures Eval(Zeros(n), base) == 0
    decreases n
  {
    if n > 0 {
      assert Zeros(n)[..n - 1] == Zeros(n - 1);
      EvalZeros(n - 1, base);
    }
  }

  lemma {:induction false} EvalBounds(s: seq<int>, base: int)
    requires base > 1
    requires Digits(s, base)
    ensures 0 <= Eval(s, base) < Pow(base, |s|)
    decreases |s|
  {
    if |s| > 0 {
      var n := |s| - 1;
      EvalBounds(s[..n], base);
      MulLe(s[n], base - 1, Pow(base, n));
      assert (base - 1) * Pow(base, n) + Pow(base, n) == base * Pow(base, n);
    }
  }

  /** The top digit is at least one: the value reaches base^(n-1). */
  lemma EvalLowerBound(s: seq<int>, base: int)
    requires base > 1
    requires Digits(s, base)
    requires |s| > 0 && s[|s| - 1] > 0
    ensures Eval(s, base) >= Pow(base, |s| - 1)
  {
    EvalBounds(s[..|s| - 1], base);
    MulAtLeast(s[|s| - 1], Pow(base, |s| - 1));
  }

  /** Two digit strings of the same length with the same value are equal. */
  lemma {:induction false} EvalInjective(s: seq<int>, t: seq<int>, base: int)
    requires base > 1
    requires Digits(s, base) && Digits(t, base)
    requires |s| == |t|
    requires Eval(s, base) == Eval(t, base)
    ensures s == t
    decreases |s|
  {
    if |s| > 0 {
      var n := |s| - 1;
      EvalBounds(s[..n], base);
      EvalBounds(t[..n], base);
      var q := Pow(base, n);
      // s[n] and t[n] are the quotients of the common value by base^n
      DivUnique(Eval(s, base), q, s[n], Eval(s[..n], base));
      DivUnique(Eval(t, base), q, t[n], Eval(t[..n], base));
      EvalInjective(s[..n], t[..n], base);
      assert s == s[..n] + [s[n]];
      assert t == t[..n] + [t[n]];
    }
  }

  lemma MulRotate(a: int, b: int, c: int)
    ensures a * (b * c) == b * (a * c)
  {
  }

  lemma MulAssoc(a: int, b: int, c: int)
    ensures (a * b) * c == a * (b * c)
  {
  }

  lemma MulDiff3(a: int, b: int, c: int, w: int)
    ensures (a - b - c) * w == a * w - b * w - c * w
  {
  }

  lemma MulLe(a: int, b: int, c: int)
    requires 0 <= a <= b && c >= 0
    ensures 0 <= a * c <= b * c
  {
  }

  lemma MulDistrib(a: int, b: int, c: int)
    ensures a * (b + c) == a * b + a * c
  {
  }

  lemma MulAtLeast(a: int, q: int)
    requires q > 0
    ensures a >= 1 ==> a * q >= q
    ensures a <= -1 ==> a * q <= -q
  {
  }

  /** Division of a positive number by a base above one shrinks it. */
  lemma QuotientShrinks(v: int, base: int)
    requires v > 0 && base > 1
    ensures 0 <= v / base < v
    ensures 0 <= v % base < base
    ensures v == v % base + base * (v / base)
  {
    var q, r := v / base, v % base;
    assert v == r + base * q;
    assert q < v by {
      if q >= v {
        MulLe(2, base, q);
      }
    }
  }

  lemma DivUnique(v: int, q: int, d: int, r: int)
    requires q > 0
    requires v == r + d * q
    requires 0 <= r < q
    ensures v / q == d && v % q == r
  {
    var d', r' := v / q, v % q;
    assert v == d' * q + r';
    assert (d - d') * q == r' - r;
    MulAtLeast(d - d', q);
  }

  lemma {:induction false} PowSquare(b: int, k: nat)
    ensures Pow(b * b, k) == Pow(b, 2 * k)
    decreases k
  {
    if k > 0 {
      PowSquare(b, k - 1);
      PowAdd(b, 2, 2 * k - 2);
      assert Pow(b, 1) == b;
    }
  }

  /** A run of n top digits base - 1. */
  lemma {:induction false} EvalAllTop(n: nat, base: int)
    ensures Eval(seq(n, _ => base - 1), base) == Pow(base, n) - 1
    decreases n
  {
    if n > 0 {
      assert seq(n, _ => base - 1)[..n - 1] == seq(n - 1, _ => base - 1);
      EvalAllTop(n - 1, base);
    }
  }

  /** Radix-2^16 digits written as two bytes each, low byte first. */
  function SplitDigits(s: seq<int>): (r: seq<int>)
    ensures |r| == 2 * |s|
  {
    seq(2 * |s|, k requires 0 <= k < 2 * |s| => if k % 2 == 0 then s[k / 2] % 256 else s[k / 2] / 256)
  }

  lemma SplitBytes(s: seq<int>)
    requires Digits(s, 0x1_0000)
    ensures IsBytes(SplitDigits(s))
  {
  }

  lemma {:induction false} SplitValue(s: seq<int>)
    requires Digits(s, 0x1_0000)
    ensures IsBytes(SplitDigits(s))
    ensures Eval(SplitDigits(s), 256) == Eval(s, 0x1_0000)
    decreases |s|
  {
    SplitBytes(s);
    if |s| > 0 {
      var n := |s| - 1;
      var d := s[n];
      var front := SplitDigits(s[..n]);
      SplitValue(s[..n]);
      var lo, hi := d % 256, d / 256;
      assert SplitDigits(s) == front + [lo, hi];
      EvalAppend(front, [lo, hi], 256);
      assert [lo, hi] == [lo] + [hi];
      EvalCons(lo, [hi], 256);
      EvalSingle(hi, 256);
      assert Eval([lo, hi], 256) == d;
      PowSquare(256, n);
      assert Pow(256, |front|) == Pow(0x1_0000, n);
      assert Eval(s, 0x1_0000) == Eval(s[..n], 0x1_0000) + d * Pow(0x1_0000, n);
    }
  }

  /** Adding a multiple of m does not change the residue. */
  lemma ModShift(a: int, k: int, m: int)
    requires m > 0
    ensures (a + k * m) % m == a % m
  {
    var q, r := a / m, a % m;
    assert a + k * m == r + (q + k) * m by {
      assert (q + k) * m == q * m + k * m;
    }
    DivUnique(a + k * m, m, q + k, r);
  }

  /** The same, for a value already known to differ from a by k·m. */
  lemma ModShiftEq(b: int, a: int, k: int, m: int)
    requires m > 0 && b == a + k * m
    ensures b % m == a % m
  {
    ModShift(a, k, m);
  }

  /** Congruence modulo m is preserved by multiplication. */
  lemma MulCongruent(a: int, b: int, a': int, b': int, m: int)
    requires m > 0 && a % m == a' % m && b % m == b' % m
    ensures (a * b) % m == (a' * b') % m
  {
    var qa, qb := a / m - a' / m, b / m - b' / m;
    assert a == a' + qa * m;
    assert b == b' + qb * m;
    assert a * b == a' * b' + (a' * qb + qa * b' + qa * qb * m) * m;
    ModShift(a' * b', a' * qb + qa * b' + qa * qb * m, m);
  }

  /** Dropping the k low digits divides by base^k. */
  lemma EvalDropLow(s: seq<int>, k: nat, base: int)
    requires base > 1 && Digits(s, base) && k <= |s|
    ensures Eval(s, base) / Pow(base, k) == Eval(s[k..], base)
  {
    assert s == s[..k] + s[k..];
    EvalAppend(s[..k], s[k..], base);
    EvalBounds(s[..k], base);
    DivUnique(Eval(s, base), Pow(base, k), Eval(s[k..], base), Eval(s[..k], base));
  }

  /** Digit k of a digit string, read back from its value. */
  lemma DigitOf(s: seq<int>, k: nat, base: int)
    requires base > 1 && Digits(s, base) && k < |s|
    ensures (Eval(s, base) / Pow(base, k)) % base == s[k]
  {
    EvalDropLow(s, k, base);
    HeadDigit(s[k..], base);
  }

  /** The lowest digit is the value's remainder. */
  lemma HeadDigit(t: seq<int>, base: int)
    requires base > 1 && Digits(t, base) && |t| > 0
    ensures Eval(t, base) % base == t[0]
  {
    var u := t[1..];
    assert t == [t[0]] + u;
    EvalCons(t[0], u, base);
    var e := Eval(u, base);
    assert base * e == e * base;
    DivUnique(Eval(t, base), base, e, t[0]);
  }
}
