/** Canonical digit strings: the shortest little-endian digit sequence of a
    number, and the big-endian reading of a digit string whose most
    significant digit comes first. */
module Numeral {
  import opened Positional

  /** The digits of v, least significant first, with no zero at the top;
      the empty sequence for zero. */
  function ToDigits(v: int, base: int): (s: seq<int>)
    requires base > 1
    ensures Digits(s, base)
    decreases v
  {
    if v <= 0 then []
    else
      QuotientShrinks(v, base);
      [v % base] + ToDigits(v / base, base)
  }

  /** No zero digit at the most significant end. */
  predicate Canonical(s: seq<int>)
  {
    |s| == 0 || s[|s| - 1] != 0
  }

  /** The value of s read most significant digit first. */
  function ValueBE(s: seq<int>, base: int): int
  {
    if |s| == 0 then 0 else ValueBE(s[..|s| - 1], base) * base + s[|s| - 1]
  }

  function Reverse<T>(s: seq<T>): (r: seq<T>)
    ensures |r| == |s|
    ensures forall i :: 0 <= i < |s| ==> r[i] == s[|s| - 1 - i]
  {
    seq(|s|, i requires 0 <= i < |s| => s[|s| - 1 - i])
  }

  /** How many elements at the front of s equal x. */
  function LeadingCount<T(==)>(s: seq<T>, x: T): (n: nat)
    ensures n <= |s|
    ensures forall i :: 0 <= i < n ==> s[i] == x
    ensures n < |s| ==> s[n] != x
  {
    if |s| == 0 || s[0] != x then 0 else 1 + LeadingCount(s[1..], x)
  }

  /** ToDigits is a right inverse of Eval, and its result is canonical. */
  lemma {:induction false} ToDigitsValue(v: int, base: int)
    requires base > 1
    requires v >= 0
    ensures Eval(ToDigits(v, base), base) == v
    ensures Canonical(ToDigits(v, base))
    decreases v
  {
    if v > 0 {
      QuotientShrinks(v, base);
      ToDigitsStep(v, base, v % base, v / base);
      ToDigitsValue(v / base, base);
      EvalCons(v % base, ToDigits(v / base, base), base);
    }
  }

  /** A canonical digit string is the only one of its value: it is what
      ToDigits produces. */
  lemma {:induction false} CanonicalUnique(s: seq<int>, base: int)
    requires base > 1
    requires Digits(s, base) && Canonical(s)
    ensures s == ToDigits(Eval(s, base), base)
    decreases |s|
  {
    if |s| > 0 {
      var d, t := s[0], s[1..];
      assert s == [d] + t;
      assert Canonical(t) by {
        if |t| > 0 {
          assert t[|t| - 1] == s[|s| - 1];
        }
      }
      CanonicalUnique(t, base);
      EvalCons(d, t, base);
      EvalBounds(t, base);
      var w := Eval(t, base);
      assert d + base * w > 0 by {
        if |t| > 0 {
          EvalLowerBound(t, base);
          MulAtLeast(w, base);
        }
      }
      ToDigitsStep(Eval(s, base), base, d, w);
    }
  }

  /** One division step of ToDigits, from a known quotient and remainder. */
  lemma ToDigitsStep(v: int, base: int, d: int, w: int)
    requires base > 1 && v > 0
    requires v == d + base * w && 0 <= d < base
    ensures ToDigits(v, base) == [d] + ToDigits(w, base)
  {
    DivUnique(v, base, w, d);
  }

  /** Two canonical digit strings of equal value are equal. */
  lemma CanonicalInjective(s: seq<int>, t: seq<int>, base: int)
    requires base > 1
    requires Digits(s, base) && Canonical(s)
    requires Digits(t, base) && Canonical(t)
    requires Eval(s, base) == Eval(t, base)
    ensures s == t
  {
    CanonicalUnique(s, base);
    CanonicalUnique(t, base);
  }

  /** A number below base^n has at most n canonical digits. */
  lemma {:induction false} ToDigitsLength(v: int, n: nat, base: int)
    requires base > 1
    requires 0 <= v < Pow(base, n)
    ensures |ToDigits(v, base)| <= n
    decreases n
  {
    if v > 0 {
      assert n > 0;
      DivUnique(v, base, v / base, v % base);
      assert v / base < Pow(base, n - 1) by {
        if v / base >= Pow(base, n - 1) {
          MulLe(Pow(base, n - 1), v / base, base);
        }
      }
      ToDigitsLength(v / base, n - 1, base);
    }
  }

  /** A digit string of length n plus a carry k above it, worth v together,
      renormalises to the canonical digits of v: the carry's own digits go on
      top. When k is zero the string must already reach base^(n-1). */
  lemma Renormalise(r: seq<int>, k: int, v: int, base: int)
    requires base > 1 && Digits(r, base) && k >= 0
    requires Eval(r + [k], base) == v
    requires |r| == 0 || v >= Pow(base, |r| - 1)
    ensures r + ToDigits(k, base) == ToDigits(v, base)
  {
    var t := ToDigits(k, base);
    ToDigitsValue(k, base);
    EvalSnoc(r, k, base);
    RenormaliseValue(r, t, k, v, base);
    RenormaliseCanonical(r, t, k, v, base);
    CanonicalAt(r + t, v, base);
  }

  /** A canonical digit string of value v is the digits of v. */
  lemma CanonicalAt(s: seq<int>, v: int, base: int)
    requires base > 1 && Digits(s, base) && Canonical(s) && Eval(s, base) == v
    ensures s == ToDigits(v, base)
  {
    CanonicalUnique(s, base);
  }

  /** Replacing the carry by its digits keeps the value. */
  lemma RenormaliseValue(r: seq<int>, t: seq<int>, k: int, v: int, base: int)
    requires base > 1 && Eval(t, base) == k
    requires Eval(r, base) + k * Pow(base, |r|) == v
    ensures Eval(r + t, base) == v
  {
    EvalAppend(r, t, base);
    SameProduct(Pow(base, |r|), Eval(t, base), k);
  }

  /** The product with a value does not care how the value is written. */
  lemma SameProduct(p: int, e: int, k: int)
    requires e == k
    ensures p * e == k * p
  {
  }

  /** The digits of r followed by the canonical digits t of the carry k form
      a canonical string: a zero at the top of r is only possible with a
      carry, since v reaches base^(|r|-1). */
  lemma RenormaliseCanonical(r: seq<int>, t: seq<int>, k: int, v: int, base: int)
    requires base > 1 && Digits(r, base) && k >= 0
    requires Digits(t, base) && Canonical(t) && Eval(t, base) == k
    requires Eval(r, base) + k * Pow(base, |r|) == v
    requires |r| == 0 || v >= Pow(base, |r| - 1)
    ensures Canonical(r + t) && Digits(r + t, base)
  {
    if |t| == 0 && |r| > 0 && r[|r| - 1] == 0 {
      assert k == 0;
      var n := |r| - 1;
      assert r == r[..n] + [0];
      EvalSnoc(r[..n], 0, base);
      EvalBounds(r[..n], base);
      assert false;
    }
  }

  /** A big-endian digit string is worth less than base^n. */
  lemma {:induction false} ValueBEBounds(s: seq<int>, base: int)
    requires base > 1 && Digits(s, base)
    ensures 0 <= ValueBE(s, base) < Pow(base, |s|)
    decreases |s|
  {
    if |s| > 0 {
      var n := |s| - 1;
      ValueBEBounds(s[..n], base);
      DigitStepBound(ValueBE(s[..n], base), s[n], Pow(base, n), base);
    }
  }

  /** Appending a digit to a number below p keeps it below base·p. */
  lemma DigitStepBound(w: int, d: int, p: int, base: int)
    requires base > 1 && 0 <= w < p && 0 <= d < base
    ensures 0 <= w * base + d < base * p
  {
    MulLe(w, p - 1, base);
    assert (p - 1) * base == base * p - base;
  }

  /** The arithmetic of one multiply-and-carry step over digit d: the sum c
      splits into the stored digit lo and the carry hi, and the rest of the
      pass, worth rest, absorbed m·below + hi. */
  lemma CarryStep(base: int, m: int, d: int, carry: int, c: int, lo: int, hi: int,
                  rest: int, below: int)
    requires c == carry + d * m && c == lo + base * hi
    requires rest == m * below + hi
    ensures lo + base * rest == m * (d + base * below) + carry
  {
    calc {
      lo + base * rest;
      lo + base * (m * below + hi);
      c + base * (m * below);
      carry + d * m + m * (base * below);
    }
  }

  /** Reading the reversal big-endian gives the little-endian value. */
  lemma {:induction false} ValueBEReverse(s: seq<int>, base: int)
    ensures ValueBE(Reverse(s), base) == Eval(s, base)
    decreases |s|
  {
    if |s| > 0 {
      var t := s[1..];
      assert s == [s[0]] + t;
      assert Reverse(s) == Reverse(t) + [s[0]];
      assert (Reverse(t) + [s[0]])[..|t|] == Reverse(t);
      ValueBEReverse(t, base);
      EvalCons(s[0], t, base);
    }
  }

  /** Leading zero digits do not change a big-endian value. */
  lemma {:induction false} ValueBELeadingZeros(n: nat, s: seq<int>, base: int)
    ensures ValueBE(Zeros(n) + s, base) == ValueBE(s, base)
    decreases |s|, n
  {
    if |s| > 0 {
      var m := |s| - 1;
      assert (Zeros(n) + s)[..n + m] == Zeros(n) + s[..m];
      ValueBELeadingZeros(n, s[..m], base);
    } else if n > 0 {
      assert Zeros(n) + s == Zeros(n);
      assert Zeros(n)[..n - 1] == Zeros(n - 1) + [];
      ValueBELeadingZeros(n - 1, [], base);
    }
  }

  lemma ReverseReverse<T>(s: seq<T>)
    ensures Reverse(Reverse(s)) == s
  {
  }

  /** Reversal distributes over concatenation, swapping the parts. */
  lemma ReverseAppend<T>(a: seq<T>, b: seq<T>)
    ensures Reverse(a + b) == Reverse(b) + Reverse(a)
  {
  }

  /** A sequence that begins with exactly n copies of x, then something else. */
  lemma {:induction false} LeadingCountOf<T>(n: nat, x: T, s: seq<T>)
    requires |s| == 0 || s[0] != x
    ensures LeadingCount(seq(n, i => x) + s, x) == n
    decreases n
  {
    if n > 0 {
      assert (seq(n, i => x) + s)[1..] == seq(n - 1, i => x) + s;
      LeadingCountOf(n - 1, x, s);
    } else {
      assert seq(n, i => x) + s == s;
    }
  }

  /** Some element differs from x, so the leading run of x stops short. */
  lemma LeadingCountShort<T>(s: seq<T>, x: T)
    requires exists i :: 0 <= i < |s| && s[i] != x
    ensures LeadingCount(s, x) < |s|
  {
  }

  /** Splitting off the leading run: s is that many copies of x followed by
      the rest. */
  lemma LeadingSplit<T>(s: seq<T>, x: T)
    ensures s == seq(LeadingCount(s, x), i => x) + s[LeadingCount(s, x)..]
  {
    var n := LeadingCount(s, x);
    assert s == s[..n] + s[n..];
    assert s[..n] == seq(n, i => x);
  }
}
