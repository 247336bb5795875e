/** A closed form of one car25519 pass and the limb bounds that three
    passes reach, which pack25519 relies on (lib/nacl.js:43-51, 65-67). */
module CarryBounds {
  import opened Positional
  import opened Field25519

  /** The quotient car25519 moves out of limb i, computed on the limbs the
      pass started from. */
  function CarryOut(o: Gf, i: nat): int
    requires i < 16
    decreases i, 1
  {
    (o[i] + Incoming(o, i)) / RADIX
  }

  /** The carry limb i receives from limb i - 1 during the pass. */
  function Incoming(o: Gf, i: nat): int
    requires i < 16
    decreases i, 0
  {
    if i == 0 then 0 else CarryOut(o, i - 1)
  }

  /** One car25519 pass stated limb by limb. */
  function PassSpec(o: Gf): Gf
  {
    seq(16, j requires 0 <= j < 16 =>
      if j == 0 then o[0] % RADIX + 38 * CarryOut(o, 15)
      else (o[j] + Incoming(o, j)) % RADIX)
  }

  /** The limbs of car25519's array when the loop is about to run index i. */
  predicate StateAt(s: Gf, o: Gf, i: nat)
    requires i < 16
  {
    && (forall j :: 0 <= j < i ==> s[j] == (o[j] + Incoming(o, j)) % RADIX)
    && s[i] == o[i] + Incoming(o, i)
    && (forall j :: i < j < 16 ==> s[j] == o[j])
  }

  lemma {:induction false} CarLoopClosed(s: Gf, o: Gf, i: nat)
    requires i < 16
    requires StateAt(s, o, i)
    ensures CarLoop(s, i) == PassSpec(o)
    decreases 16 - i
  {
    var r := CarStep(s, i);
    CarStepEffect(s, i);
    if i < 15 {
      assert StateAt(r, o, i + 1);
      CarLoopClosed(r, o, i + 1);
    } else {
      assert CarLoop(s, i) == r;
      assert r == PassSpec(o);
    }
  }

  /** car25519 equals its closed form. */
  lemma Car25519Closed(o: Gf)
    ensures Car25519(o) == PassSpec(o)
  {
    assert StateAt(o, o, 0);
    CarLoopClosed(o, o, 0);
  }

  /** One link of the carry chain through a limb already in [0, 2^16). */
  lemma ChainStep(x: int, k: int)
    requires 0 <= x < RADIX
    ensures k >= 0 ==> 0 <= (x + k) / RADIX <= k
    ensures k <= 0 ==> k <= (x + k) / RADIX <= 0
    ensures -RADIX <= k <= RADIX ==> -1 <= (x + k) / RADIX <= 1
    ensures -RADIX * RADIX <= k <= RADIX * RADIX ==> -RADIX <= (x + k) / RADIX <= RADIX
  {
  }

  /** Float64 limbs are exact below 2^53. */
  const EXACT: int := 0x20_0000_0000_0000
  const TWO38: int := 0x40_0000_0000

  predicate Exact(o: Gf)
  {
    forall j :: 0 <= j < 16 ==> -EXACT < o[j] < EXACT
  }

  lemma {:induction false} FirstPassCarries(o: Gf, i: nat)
    requires i < 16
    requires Exact(o)
    ensures -TWO38 <= CarryOut(o, i) <= TWO38
    decreases i
  {
    if i > 0 {
      FirstPassCarries(o, i - 1);
    }
  }

  /** After one pass over exact limbs, limbs 1..15 lie in [0, 2^16) and
      limb 0 is below 2^48 in magnitude. */
  lemma FirstPass(o: Gf)
    requires Exact(o)
    ensures var r := PassSpec(o);
      Normalized(r[1..]) && -0x1_0000_0000_0000 < r[0] < 0x1_0000_0000_0000
  {
    FirstPassCarries(o, 15);
  }

  predicate HighNormalized(o: Gf)
  {
    forall j :: 1 <= j < 16 ==> 0 <= o[j] < RADIX
  }

  lemma {:induction false} SettledCarries(o: Gf, i: nat)
    requires 2 <= i < 16
    requires HighNormalized(o)
    requires -RADIX * RADIX <= CarryOut(o, 0) <= RADIX * RADIX
    ensures -1 <= CarryOut(o, i) <= 1
    decreases i
  {
    if i == 2 {
      assert Incoming(o, 1) == CarryOut(o, 0);
      ChainStep(o[1], CarryOut(o, 0));
      assert Incoming(o, 2) == CarryOut(o, 1);
      ChainStep(o[2], CarryOut(o, 1));
    } else {
      SettledCarries(o, i - 1);
      assert Incoming(o, i) == CarryOut(o, i - 1);
      ChainStep(o[i], CarryOut(o, i - 1));
    }
  }

  /** A second pass brings limb 0 within 38 of [0, 2^16). */
  lemma SecondPass(o: Gf)
    requires HighNormalized(o)
    requires -0x1_0000_0000_0000 < o[0] < 0x1_0000_0000_0000
    ensures var r := PassSpec(o);
      HighNormalized(r) && -38 <= r[0] < RADIX + 38
  {
    SettledCarries(o, 15);
  }

  /** A carry leaving limb i has the sign of the carry leaving limb 0. */
  lemma {:induction false} CarrySign(o: Gf, i: nat)
    requires i < 16
    requires HighNormalized(o)
    ensures CarryOut(o, i) >= 1 ==> CarryOut(o, 0) >= 1
    ensures CarryOut(o, i) <= -1 ==> CarryOut(o, 0) <= -1
    decreases i
  {
    if i > 0 {
      CarrySign(o, i - 1);
      assert Incoming(o, i) == CarryOut(o, i - 1);
      ChainStep(o[i], CarryOut(o, i - 1));
    }
  }

  /** A third pass leaves every limb in [0, 2^16). */
  lemma ThirdPass(o: Gf)
    requires HighNormalized(o)
    requires -38 <= o[0] < RADIX + 38
    ensures Normalized(PassSpec(o))
  {
    var r := PassSpec(o);
    SettledCarries(o, 15);
    CarrySign(o, 15);
    assert 0 <= r[0] < RADIX;
  }

  /** Three car25519 passes over exact limbs normalise every limb. */
  lemma ThreePasses(o: Gf)
    requires Exact(o)
    ensures Normalized(Car25519(Car25519(Car25519(o))))
  {
    var t1 := Car25519(o);
    Car25519Closed(o);
    FirstPass(o);
    assert HighNormalized(t1);
    var t2 := Car25519(t1);
    Car25519Closed(t1);
    SecondPass(t1);
    Car25519Closed(t2);
    ThirdPass(t2);
  }
}
