/** The Base58 codec of the background worker
    (background/service-worker.js:10-50). A number is kept as a
    little-endian digit array that every input symbol multiplies and carries
    into; each leading zero byte is spelled as a leading '1' and back. */
module Base58 {
  import opened Wrappers
  import opened Positional
  import opened JsInt
  import opened Numeral

  /** BASE58_ALPHABET, written as its six runs of consecutive characters
      (Bitcoin's alphabet: no 0, I, O or l). */
  const Alphabet: string := "123456789" + "ABCDEFGH" + "JKLMN" + "PQRSTUVWXYZ" + "abcdefghijk" + "mnopqrstuvwxyz"

  datatype DecodeError = InvalidCharacter

  // ---------------------------------------------------------------------
  // The alphabet

  function Run(first: char, n: nat): string
    requires first as int + n <= 0x80
  {
    seq(n, i requires 0 <= i < n => (first as int + i) as char)
  }

  /** The symbol of digit d, read off the runs. */
  function Symbol(d: int): char
    requires 0 <= d < 58
  {
    if d < 9 then ('1' as int + d) as char
    else if d < 17 then ('A' as int + (d - 9)) as char
    else if d < 22 then ('J' as int + (d - 17)) as char
    else if d < 33 then ('P' as int + (d - 22)) as char
    else if d < 44 then ('a' as int + (d - 33)) as char
    else ('m' as int + (d - 44)) as char
  }

  /** The characters of the pattern class `[1-9A-HJ-NP-Za-km-z]`. */
  predicate IsSymbol(c: char)
  {
    ('1' <= c <= '9') || ('A' <= c <= 'H') || ('J' <= c <= 'N') ||
    ('P' <= c <= 'Z') || ('a' <= c <= 'k') || ('m' <= c <= 'z')
  }

  /** The digit a symbol stands for. */
  function DigitOfSymbol(c: char): (d: int)
    requires IsSymbol(c)
    ensures 0 <= d < 58 && Symbol(d) == c
  {
    if c <= '9' then c as int - '1' as int
    else if c <= 'H' then 9 + (c as int - 'A' as int)
    else if c <= 'N' then 17 + (c as int - 'J' as int)
    else if c <= 'Z' then 22 + (c as int - 'P' as int)
    else if c <= 'k' then 33 + (c as int - 'a' as int)
    else 44 + (c as int - 'm' as int)
  }

  lemma AlphabetRuns()
    ensures Alphabet == Run('1', 9) + Run('A', 8) + Run('J', 5) + Run('P', 11) + Run('a', 11) + Run('m', 14)
  {
    assert Run('1', 9) == "123456789";
    assert Run('A', 8) == "ABCDEFGH";
    assert Run('J', 5) == "JKLMN";
    assert Run('P', 11) == "PQRSTUVWXYZ";
    assert Run('a', 11) == "abcdefghijk";
    assert Run('m', 14) == "mnopqrstuvwxyz";
  }

  lemma AlphabetLength()
    ensures |Alphabet| == 58
  {
  }

  /** The alphabet spells digit d as Symbol(d), and the symbols ascend, so
      no symbol repeats. */
  lemma AlphabetSymbols()
    ensures |Alphabet| == 58
    ensures forall d :: 0 <= d < 58 ==> Alphabet[d] == Symbol(d)
    ensures forall i, j :: 0 <= i < j < 58 ==> Symbol(i) < Symbol(j)
  {
    AlphabetRuns();
  }

  /** `BASE58_ALPHABET.indexOf(c)`: the digit of c, or -1. It is computed
      from the runs; IndexOfAlphabet shows that it is the first position of
      c in the alphabet, and -1 exactly when c is not there. */
  function IndexOf(c: char): (i: int)
    ensures -1 <= i < 58
  {
    if IsSymbol(c) then DigitOfSymbol(c) else -1
  }

  lemma SymbolInClass(d: int)
    requires 0 <= d < 58
    ensures IsSymbol(Symbol(d))
  {
  }

  /** indexOf inverts the alphabet. */
  lemma IndexOfSymbol(d: int)
    requires 0 <= d < 58
    ensures IndexOf(Alphabet[d]) == d
  {
    AlphabetSymbols();
    SymbolInClass(d);
    var i := IndexOf(Alphabet[d]);
    assert Symbol(i) == Symbol(d);
  }

  /** indexOf answers with the first position of c in the alphabet, and
      with -1 exactly when c does not occur. */
  lemma IndexOfAlphabet(c: char)
    ensures IndexOf(c) == -1 <==> c !in Alphabet
    ensures IndexOf(c) >= 0 ==> Alphabet[IndexOf(c)] == c
    ensures IndexOf(c) >= 0 ==> forall j :: 0 <= j < IndexOf(c) ==> Alphabet[j] != c
  {
    AlphabetSymbols();
    if c in Alphabet {
      var j :| 0 <= j < 58 && Alphabet[j] == c;
      SymbolInClass(j);
    }
  }

  /** indexOf finds exactly the characters of the pattern class. */
  lemma IndexOfFound(c: char)
    ensures IndexOf(c) >= 0 <==> IsSymbol(c)
    ensures IndexOf(c) >= 0 ==> Alphabet[IndexOf(c)] == c
  {
    AlphabetSymbols();
  }

  lemma IndexOfOne()
    ensures Alphabet[0] == '1' && IndexOf('1') == 0
  {
    AlphabetSymbols();
  }

  /** Only digit zero is spelled '1'. */
  lemma SymbolOne(d: int)
    requires 0 <= d < 58
    ensures Alphabet[d] == '1' <==> d == 0
  {
    AlphabetSymbols();
    IndexOfSymbol(d);
    IndexOfSymbol(0);
  }

  // ---------------------------------------------------------------------
  // Decoding

  /** The value the inner loop of base58Decode adds up: `carry + bytes[j] * 58`. */
  function DecodeSum(carry: int, b: int): int
  {
    carry + b * 58
  }

  /** The inner loop of base58Decode from byte j on: each byte becomes
      `carry & 0xff` and the carry moves on as `carry >> 8`. */
  function MulBytes(bytes: seq<int>, carry: int): (r: (seq<int>, int))
    requires IsBytes(bytes) && 0 <= carry < 58
    ensures |r.0| == |bytes| && IsBytes(r.0) && 0 <= r.1 < 58
  {
    if |bytes| == 0 then ([], carry)
    else
      var c := DecodeSum(carry, bytes[0]);
      DecodeCarry(carry, bytes[0]);
      var rest := MulBytes(bytes[1..], Shr(c, 8));
      ([Low(c, 8)] + rest.0, rest.1)
  }

  /** `while (carry > 0) { bytes.push(carry & 0xff); carry >>= 8; }` */
  function PushBytes(carry: int): (r: seq<int>)
    ensures IsBytes(r)
    decreases carry
  {
    if carry <= 0 then []
    else
      ShrShrinks(carry, 8);
      PowFacts();
      [Low(carry, 8)] + PushBytes(Shr(carry, 8))
  }

  /** One symbol of value idx folded into the bytes. */
  function DecodeStep(bytes: seq<int>, idx: int): (r: seq<int>)
    requires IsBytes(bytes) && 0 <= idx < 58
    ensures IsBytes(r)
  {
    var m := MulBytes(bytes, idx);
    m.0 + PushBytes(m.1)
  }

  /** The outer loop of base58Decode from symbol i on. */
  function DecodeFrom(str: string, i: nat, bytes: seq<int>): (r: Result<seq<int>, DecodeError>)
    requires i <= |str| && IsBytes(bytes)
    ensures r.Ok? ==> IsBytes(r.value)
    decreases |str| - i
  {
    if i == |str| then Ok(bytes)
    else
      var idx := IndexOf(str[i]);
      if idx == -1 then Err(InvalidCharacter)
      else DecodeFrom(str, i + 1, DecodeStep(bytes, idx))
  }

  /** base58Decode: the accumulated bytes, one zero per leading '1', all
      reversed into big-endian order. */
  function Decode(str: string): (r: Result<seq<int>, DecodeError>)
    ensures r.Ok? ==> IsBytes(r.value)
  {
    match DecodeFrom(str, 0, [])
    case Err(e) => Err(e)
    case Ok(bytes) => Ok(Reverse(bytes + Zeros(LeadingCount(str, '1'))))
  }

  // ---------------------------------------------------------------------
  // Encoding

  /** The value the inner loop of base58Encode adds up: `carry + (digits[j] << 8)`. */
  function EncodeSum(carry: int, d: int): int
  {
    carry + Shl(d, 8)
  }

  /** The inner loop of base58Encode from digit j on: each digit becomes
      `carry % 58` and the carry moves on as `(carry / 58) | 0`. */
  function MulDigits(digits: seq<int>, carry: int): (r: (seq<int>, int))
    requires Digits(digits, 58) && 0 <= carry < 256
    ensures |r.0| == |digits| && Digits(r.0, 58) && 0 <= r.1 < 256
  {
    if |digits| == 0 then ([], carry)
    else
      var c := EncodeSum(carry, digits[0]);
      EncodeCarry(carry, digits[0]);
      var rest := MulDigits(digits[1..], Quot(c, 58));
      ([Rem(c, 58)] + rest.0, rest.1)
  }

  /** `while (carry > 0) { digits.push(carry % 58); carry = (carry / 58) | 0; }` */
  function PushDigits(carry: int): (r: seq<int>)
    ensures Digits(r, 58)
    decreases carry
  {
    if carry <= 0 then []
    else
      QuotShrinks(carry, 58);
      [Rem(carry, 58)] + PushDigits(Quot(carry, 58))
  }

  /** One byte folded into the digits. */
  function EncodeStep(digits: seq<int>, b: int): (r: seq<int>)
    requires Digits(digits, 58) && 0 <= b < 256
    ensures Digits(r, 58)
  {
    var m := MulDigits(digits, b);
    m.0 + PushDigits(m.1)
  }

  /** The outer loop of base58Encode from byte i on. */
  function EncodeFrom(bytes: seq<int>, i: nat, digits: seq<int>): (r: seq<int>)
    requires IsBytes(bytes) && i <= |bytes| && Digits(digits, 58)
    ensures Digits(r, 58)
    decreases |bytes| - i
  {
    if i == |bytes| then digits
    else EncodeFrom(bytes, i + 1, EncodeStep(digits, bytes[i]))
  }

  /** n copies of '1'. */
  function Ones(n: nat): string
  {
    seq(n, i => '1')
  }

  /** The symbols of a digit array, most significant digit first. */
  function Spell(digits: seq<int>): (s: string)
    requires Digits(digits, 58)
    ensures |s| == |digits|
  {
    AlphabetLength();
    seq(|digits|, k requires 0 <= k < |digits| => Alphabet[digits[|digits| - 1 - k]])
  }

  /** base58Encode: one '1' per leading zero byte, then the digits that
      started as [0], most significant first. */
  function Encode(bytes: seq<int>): string
    requires IsBytes(bytes)
  {
    Ones(LeadingCount(bytes, 0)) + Spell(EncodeFrom(bytes, 0, [0]))
  }

  // ---------------------------------------------------------------------
  // The loop arithmetic

  /** One step of the byte pass: the stored byte and the carry out split
      the sum, and the carry stays below 58. */
  lemma DecodeCarry(carry: int, b: int)
    requires 0 <= carry < 58 && 0 <= b < 256
    ensures 0 <= Low(DecodeSum(carry, b), 8) < 256
    ensures 0 <= Shr(DecodeSum(carry, b), 8) < 58
    ensures DecodeSum(carry, b) == Low(DecodeSum(carry, b), 8) + 256 * Shr(DecodeSum(carry, b), 8)
  {
    PowFacts();
  }

  /** One step of the digit pass: the stored digit and the carry out split
      the sum, and the carry stays below 256. */
  lemma EncodeCarry(carry: int, d: int)
    requires 0 <= carry < 256 && 0 <= d < 58
    ensures EncodeSum(carry, d) == carry + d * 256
    ensures 0 <= Rem(EncodeSum(carry, d), 58) < 58
    ensures 0 <= Quot(EncodeSum(carry, d), 58) < 256
    ensures EncodeSum(carry, d) == Rem(EncodeSum(carry, d), 58) + 58 * Quot(EncodeSum(carry, d), 58)
  {
    PowFacts();
  }

  /** The byte pass multiplies the bytes by 58 and adds the carry; the carry
      left over is the next byte up. */
  lemma {:induction false} MulBytesValue(bytes: seq<int>, carry: int)
    requires IsBytes(bytes) && 0 <= carry < 58
    ensures Eval(MulBytes(bytes, carry).0 + [MulBytes(bytes, carry).1], 256) == 58 * Eval(bytes, 256) + carry
    decreases |bytes|
  {
    var m := MulBytes(bytes, carry);
    if |bytes| == 0 {
      EvalSingle(carry, 256);
    } else {
      var c := DecodeSum(carry, bytes[0]);
      DecodeCarry(carry, bytes[0]);
      var rest := MulBytes(bytes[1..], Shr(c, 8));
      MulBytesValue(bytes[1..], Shr(c, 8));
      assert m.0 + [m.1] == [Low(c, 8)] + (rest.0 + [rest.1]);
      EvalCons(Low(c, 8), rest.0 + [rest.1], 256);
      assert bytes == [bytes[0]] + bytes[1..];
      EvalCons(bytes[0], bytes[1..], 256);
      CarryStep(256, 58, bytes[0], carry, c, Low(c, 8), Shr(c, 8),
                Eval(rest.0 + [rest.1], 256), Eval(bytes[1..], 256));
    }
  }

  /** The digit pass multiplies the digits by 256 and adds the carry; the
      carry left over is worth the next place up. */
  lemma {:induction false} MulDigitsValue(digits: seq<int>, carry: int)
    requires Digits(digits, 58) && 0 <= carry < 256
    ensures Eval(MulDigits(digits, carry).0 + [MulDigits(digits, carry).1], 58) == 256 * Eval(digits, 58) + carry
    decreases |digits|
  {
    var m := MulDigits(digits, carry);
    if |digits| == 0 {
      EvalSingle(carry, 58);
    } else {
      var c := EncodeSum(carry, digits[0]);
      EncodeCarry(carry, digits[0]);
      var rest := MulDigits(digits[1..], Quot(c, 58));
      MulDigitsValue(digits[1..], Quot(c, 58));
      assert m.0 + [m.1] == [Rem(c, 58)] + (rest.0 + [rest.1]);
      EvalCons(Rem(c, 58), rest.0 + [rest.1], 58);
      assert digits == [digits[0]] + digits[1..];
      EvalCons(digits[0], digits[1..], 58);
      CarryStep(58, 256, digits[0], carry, c, Rem(c, 58), Quot(c, 58),
                Eval(rest.0 + [rest.1], 58), Eval(digits[1..], 58));
    }
  }

  /** The push loop of base58Decode writes the canonical bytes of its carry. */
  lemma {:induction false} PushBytesDigits(carry: int)
    requires 0 <= carry < TWO31
    ensures PushBytes(carry) == ToDigits(carry, 256)
    decreases carry
  {
    if carry > 0 {
      PowFacts();
      ShrShrinks(carry, 8);
      PushBytesDigits(carry / 256);
    }
  }

  /** The push loop of base58Encode writes the canonical digits of its carry. */
  lemma {:induction false} PushDigitsDigits(carry: int)
    requires 0 <= carry < TWO31
    ensures PushDigits(carry) == ToDigits(carry, 58)
    decreases carry
  {
    if carry > 0 {
      QuotShrinks(carry, 58);
      PushDigitsDigits(carry / 58);
    }
  }

  /** Folding one symbol into the canonical bytes of w gives the canonical
      bytes of 58·w + idx. */
  lemma DecodeStepValue(bytes: seq<int>, idx: int, w: int)
    requires w >= 0 && bytes == ToDigits(w, 256) && 0 <= idx < 58
    ensures DecodeStep(bytes, idx) == ToDigits(58 * w + idx, 256)
  {
    ToDigitsValue(w, 256);
    var m := MulBytes(bytes, idx);
    MulBytesValue(bytes, idx);
    PushBytesDigits(m.1);
    if |bytes| > 0 {
      EvalLowerBound(bytes, 256);
    }
    Renormalise(m.0, m.1, 58 * w + idx, 256);
  }

  /** The digit array of base58Encode for the value v: the canonical base-58
      digits, except that zero keeps the initial digit 0. */
  function Base58Digits(v: int): (ds: seq<int>)
    ensures Digits(ds, 58) && |ds| > 0
  {
    if v <= 0 then [0]
    else
      ToDigitsValue(v, 58);
      ToDigits(v, 58)
  }

  /** Folding one byte into the digits of w gives the digits of 256·w + b. */
  lemma EncodeStepValue(digits: seq<int>, b: int, w: int)
    requires w >= 0 && digits == Base58Digits(w) && 0 <= b < 256
    ensures EncodeStep(digits, b) == Base58Digits(256 * w + b)
  {
    if w == 0 {
      EncodeFirstStep(b);
    } else {
      var m := MulDigits(digits, b);
      MulDigitsValue(digits, b);
      PushDigitsDigits(m.1);
      ToDigitsValue(w, 58);
      EvalLowerBound(digits, 58);
      Renormalise(m.0, m.1, 256 * w + b, 58);
    }
  }

  /** While the value is still zero the digits are [0], and a byte b turns
      them into the digits of b. */
  lemma EncodeFirstStep(b: int)
    requires 0 <= b < 256
    ensures EncodeStep([0], b) == Base58Digits(b)
  {
    var m := MulDigits([0], b);
    MulDigitsValue([0], b);
    PushDigitsDigits(m.1);
    EvalSingle(0, 58);
    assert Pow(58, 0) == 1 && Pow(58, 1) == 58;
    if b == 0 {
      EvalSingle(m.0[0], 58);
      assert m.0 == [m.0[0]];
    } else {
      Renormalise(m.0, m.1, b, 58);
    }
  }

  // ---------------------------------------------------------------------
  // Reference definitions

  /** The digits the symbols of str stand for, most significant first. */
  function Indexes(str: string): (s: seq<int>)
    ensures |s| == |str|
  {
    seq(|str|, i requires 0 <= i < |str| => IndexOf(str[i]))
  }

  /** Every character of str is in the alphabet. */
  predicate Valid(str: string)
  {
    forall i :: 0 <= i < |str| ==> IndexOf(str[i]) >= 0
  }

  /** Decoding by value: an invalid symbol is an error; otherwise one zero
      byte per leading '1', then the big-endian canonical bytes of the number
      the symbols spell. */
  function DecodeSpec(str: string): Result<seq<int>, DecodeError>
  {
    if !Valid(str) then Err(InvalidCharacter)
    else
      var v := ValueBE(Indexes(str), 58);
      Ok(Zeros(LeadingCount(str, '1')) + Reverse(ToDigits(v, 256)))
  }

  /** Encoding by value: one '1' per leading zero byte, then the base-58
      digits of the number the bytes spell, most significant first. */
  function EncodeSpec(bytes: seq<int>): string
    requires IsBytes(bytes)
  {
    Ones(LeadingCount(bytes, 0)) + Spell(Base58Digits(ValueBE(bytes, 256)))
  }

  lemma PrefixValue(s: seq<int>, i: nat, base: int)
    requires i < |s|
    ensures ValueBE(s[..i + 1], base) == ValueBE(s[..i], base) * base + s[i]
  {
    assert s[..i + 1][..i] == s[..i];
  }

  /** The canonical bytes of the first i symbols of str. */
  function BytesOfPrefix(str: string, i: nat): (r: seq<int>)
    requires i <= |str|
    ensures IsBytes(r)
  {
    ToDigits(ValueBE(Indexes(str)[..i], 58), 256)
  }

  /** The digit array of the first i bytes. */
  function DigitsOfPrefix(bytes: seq<int>, i: nat): (r: seq<int>)
    requires i <= |bytes|
    ensures Digits(r, 58)
  {
    Base58Digits(ValueBE(bytes[..i], 256))
  }

  /** One turn of the decoding loop over a valid symbol extends the prefix. */
  lemma DecodePrefixStep(str: string, i: nat)
    requires i < |str|
    requires forall j :: 0 <= j <= i ==> IndexOf(str[j]) >= 0
    ensures DecodeStep(BytesOfPrefix(str, i), IndexOf(str[i])) == BytesOfPrefix(str, i + 1)
  {
    var s := Indexes(str);
    assert Digits(s[..i], 58);
    ValueBEBounds(s[..i], 58);
    var w := ValueBE(s[..i], 58);
    DecodeStepValue(BytesOfPrefix(str, i), s[i], w);
    PrefixValue(s, i, 58);
  }

  /** One turn of the encoding loop extends the prefix. */
  lemma EncodePrefixStep(bytes: seq<int>, i: nat)
    requires IsBytes(bytes) && i < |bytes|
    ensures EncodeStep(DigitsOfPrefix(bytes, i), bytes[i]) == DigitsOfPrefix(bytes, i + 1)
  {
    ValueBEBounds(bytes[..i], 256);
    var w := ValueBE(bytes[..i], 256);
    EncodeStepValue(DigitsOfPrefix(bytes, i), bytes[i], w);
    PrefixValue(bytes, i, 256);
  }

  /** The decoding loop keeps the canonical bytes of the symbols read so far. */
  lemma {:induction false} DecodeFromValue(str: string, i: nat, bytes: seq<int>)
    requires i <= |str|
    requires forall j :: 0 <= j < i ==> IndexOf(str[j]) >= 0
    requires bytes == BytesOfPrefix(str, i)
    ensures DecodeFrom(str, i, bytes).Ok? <==> Valid(str)
    ensures DecodeFrom(str, i, bytes).Ok? ==> DecodeFrom(str, i, bytes).value == BytesOfPrefix(str, |str|)
    decreases |str| - i
  {
    if i < |str| && IndexOf(str[i]) >= 0 {
      DecodePrefixStep(str, i);
      DecodeFromValue(str, i + 1, DecodeStep(bytes, IndexOf(str[i])));
    }
  }

  /** The encoding loop keeps the digit array of the bytes read so far. */
  lemma {:induction false} EncodeFromValue(bytes: seq<int>, i: nat, digits: seq<int>)
    requires IsBytes(bytes) && i <= |bytes|
    requires digits == DigitsOfPrefix(bytes, i)
    ensures EncodeFrom(bytes, i, digits) == DigitsOfPrefix(bytes, |bytes|)
    decreases |bytes| - i
  {
    if i < |bytes| {
      EncodePrefixStep(bytes, i);
      EncodeFromValue(bytes, i + 1, EncodeStep(digits, bytes[i]));
    }
  }

  /** base58Decode computes the reference decoding. */
  lemma DecodeMatchesSpec(str: string)
    ensures Decode(str) == DecodeSpec(str)
  {
    assert Indexes(str)[..0] == [];
    DecodeFromValue(str, 0, []);
    assert Indexes(str)[..|str|] == Indexes(str);
    if Valid(str) {
      var b := ToDigits(ValueBE(Indexes(str), 58), 256);
      var z := LeadingCount(str, '1');
      ReverseAppend(b, Zeros(z));
      assert Reverse(Zeros(z)) == Zeros(z);
      assert DecodeFrom(str, 0, []) == Ok(b);
      assert Decode(str) == Ok(Reverse(b + Zeros(z)));
    } else {
      assert DecodeFrom(str, 0, []).error.InvalidCharacter?;
    }
  }

  /** base58Encode computes the reference encoding. */
  lemma EncodeMatchesSpec(bytes: seq<int>)
    requires IsBytes(bytes)
    ensures Encode(bytes) == EncodeSpec(bytes)
  {
    assert bytes[..0] == [];
    EncodeFromValue(bytes, 0, [0]);
    assert bytes[..|bytes|] == bytes;
  }

  // ---------------------------------------------------------------------
  // Round trips

  /** The string of leading '1's and spelled digits: every symbol is valid,
      reads back as the digits, and the '1's end where the digits begin. */
  lemma SpelledIndexes(z: nat, ds: seq<int>)
    requires Digits(ds, 58) && Canonical(ds) && |ds| > 0
    ensures Valid(Ones(z) + Spell(ds))
    ensures Indexes(Ones(z) + Spell(ds)) == Zeros(z) + Reverse(ds)
    ensures LeadingCount(Ones(z) + Spell(ds), '1') == z
  {
    var str := Ones(z) + Spell(ds);
    AlphabetSymbols();
    IndexOfSymbol(0);
    forall k | 0 <= k < |str|
      ensures IndexOf(str[k]) == (Zeros(z) + Reverse(ds))[k]
    {
      if k >= z {
        IndexOfSymbol(ds[|ds| - 1 - (k - z)]);
      }
    }
    SymbolOne(ds[|ds| - 1]);
    assert Ones(z) == seq(z, i => '1');
    LeadingCountOf(z, '1', Spell(ds));
  }

  /** Zero bytes followed by canonical big-endian bytes: the zeros are the
      leading run, and the value is that of the bytes. */
  lemma PaddedBytes(z: nat, v: int)
    requires v > 0
    ensures IsBytes(Zeros(z) + Reverse(ToDigits(v, 256)))
    ensures LeadingCount(Zeros(z) + Reverse(ToDigits(v, 256)), 0) == z
    ensures ValueBE(Zeros(z) + Reverse(ToDigits(v, 256)), 256) == v
  {
    var b := ToDigits(v, 256);
    ToDigitsValue(v, 256);
    assert |b| > 0;
    assert Zeros(z) == seq(z, i => 0);
    LeadingCountOf(z, 0, Reverse(b));
    ValueBELeadingZeros(z, Reverse(b), 256);
    ValueBEReverse(b, 256);
  }

  /** A digit string read big-endian after its leading zeros: when the first
      digit after the zeros is non-zero, its reversal is the canonical
      little-endian form of the value. */
  lemma LeadingZerosValue(s: seq<int>, z: nat, base: int)
    requires base > 1 && Digits(s, base)
    requires z < |s| && s[..z] == Zeros(z) && s[z] != 0
    ensures ValueBE(s, base) > 0
    ensures Reverse(s[z..]) == ToDigits(ValueBE(s, base), base)
  {
    var rest := s[z..];
    assert s == Zeros(z) + rest;
    ValueBELeadingZeros(z, rest, base);
    var d := Reverse(rest);
    assert Reverse(d) == rest;
    ValueBEReverse(d, base);
    assert Canonical(d) && Digits(d, base);
    CanonicalUnique(d, base);
    EvalLowerBound(d, base);
  }

  /** The reference codecs invert each other on byte strings with a
      non-zero byte. */
  lemma SpecDecodeEncode(bytes: seq<int>)
    requires IsBytes(bytes)
    requires LeadingCount(bytes, 0) < |bytes|
    ensures Valid(EncodeSpec(bytes))
    ensures DecodeSpec(EncodeSpec(bytes)) == Ok(bytes)
  {
    var z := LeadingCount(bytes, 0);
    var v := ValueBE(bytes, 256);
    SplitBytes(bytes);
    var ds := ToDigits(v, 58);
    ToDigitsValue(v, 58);
    assert EncodeSpec(bytes) == Ones(z) + Spell(ds);
    DecodeSpelled(z, ds);
  }

  /** A byte string with a non-zero byte is its leading zeros followed by
      the canonical big-endian bytes of its value. */
  lemma SplitBytes(bytes: seq<int>)
    requires IsBytes(bytes)
    requires LeadingCount(bytes, 0) < |bytes|
    ensures ValueBE(bytes, 256) > 0
    ensures bytes == Zeros(LeadingCount(bytes, 0)) + Reverse(ToDigits(ValueBE(bytes, 256), 256))
  {
    var z := LeadingCount(bytes, 0);
    ZeroRun(bytes, z);
    LeadingZerosValue(bytes, z, 256);
    ReverseReverse(bytes[z..]);
  }

  /** The first z bytes are zero: they are Zeros(z), and the rest follows. */
  lemma ZeroRun(s: seq<int>, z: nat)
    requires z <= |s|
    requires forall i :: 0 <= i < z ==> s[i] == 0
    ensures s[..z] == Zeros(z)
    ensures s == Zeros(z) + s[z..]
  {
    assert s == s[..z] + s[z..];
  }

  /** Decoding leading '1's and spelled canonical digits. */
  lemma DecodeSpelled(z: nat, ds: seq<int>)
    requires Digits(ds, 58) && Canonical(ds) && |ds| > 0
    ensures DecodeSpec(Ones(z) + Spell(ds)) == Ok(Zeros(z) + Reverse(ToDigits(Eval(ds, 58), 256)))
  {
    var str := Ones(z) + Spell(ds);
    SpelledIndexes(z, ds);
    ValueBELeadingZeros(z, Reverse(ds), 58);
    ValueBEReverse(ds, 58);
    assert ValueBE(Indexes(str), 58) == Eval(ds, 58);
  }

  /** Every byte string with a non-zero byte comes back from encoding and
      decoding unchanged. */
  lemma DecodeEncode(bytes: seq<int>)
    requires IsBytes(bytes)
    requires exists i :: 0 <= i < |bytes| && bytes[i] != 0
    ensures Valid(Encode(bytes))
    ensures Decode(Encode(bytes)) == Ok(bytes)
  {
    LeadingCountShort(bytes, 0);
    EncodeMatchesSpec(bytes);
    DecodeMatchesSpec(Encode(bytes));
    SpecDecodeEncode(bytes);
  }

  /** The string that a valid one with a symbol other than '1' decodes to,
      spelled back by the reference encoding. */
  lemma SpecEncodeDecode(str: string)
    requires Valid(str)
    requires LeadingCount(str, '1') < |str|
    ensures DecodeSpec(str).Ok? && IsBytes(DecodeSpec(str).value)
    ensures EncodeSpec(DecodeSpec(str).value) == str
  {
    var s := Indexes(str);
    var z := LeadingCount(str, '1');
    IndexesDigits(str);
    LeadingSymbols(str);
    LeadingZerosValue(s, z, 58);
    var v := ValueBE(s, 58);
    PaddedBytes(z, v);
    RespellIndexes(str, z);
  }

  lemma IndexesDigits(str: string)
    requires Valid(str)
    ensures Digits(Indexes(str), 58)
  {
  }

  /** The leading '1's of a valid string are its leading zero digits. */
  lemma LeadingSymbols(str: string)
    requires Valid(str)
    requires LeadingCount(str, '1') < |str|
    ensures Indexes(str)[..LeadingCount(str, '1')] == Zeros(LeadingCount(str, '1'))
    ensures Indexes(str)[LeadingCount(str, '1')] != 0
  {
    var z := LeadingCount(str, '1');
    var s := Indexes(str);
    IndexOfOne();
    assert s[..z] == Zeros(z) by {
      forall k | 0 <= k < z
        ensures s[k] == 0
      {
        assert str[k] == '1';
      }
    }
    assert s[z] != 0 by {
      IndexOfFound(str[z]);
    }
  }

  /** Spelling back the symbol values of a valid string after its leading
      '1's gives the string again. */
  lemma RespellIndexes(str: string, z: nat)
    requires Valid(str) && z <= |str|
    requires forall k :: 0 <= k < z ==> str[k] == '1'
    ensures Digits(Reverse(Indexes(str)[z..]), 58)
    ensures str == Ones(z) + Spell(Reverse(Indexes(str)[z..]))
  {
    var t := Ones(z) + Spell(Reverse(Indexes(str)[z..]));
    forall k | z <= k < |str|
      ensures str[k] == t[k]
    {
      RespellAt(str, z, k);
    }
  }

  lemma RespellAt(str: string, z: nat, k: nat)
    requires Valid(str) && z <= k < |str|
    ensures Digits(Reverse(Indexes(str)[z..]), 58)
    ensures (Ones(z) + Spell(Reverse(Indexes(str)[z..])))[k] == str[k]
  {
    var ds := Reverse(Indexes(str)[z..]);
    var d := ds[|ds| - 1 - (k - z)];
    assert d == IndexOf(str[k]);
    IndexOfFound(str[k]);
  }

  /** Every valid string with a symbol other than '1' comes back from
      decoding and encoding unchanged. */
  lemma EncodeDecode(str: string)
    requires Valid(str)
    requires exists i :: 0 <= i < |str| && str[i] != '1'
    ensures Decode(str).Ok? && IsBytes(Decode(str).value)
    ensures Encode(Decode(str).value) == str
  {
    LeadingCountShort(str, '1');
    DecodeMatchesSpec(str);
    SpecEncodeDecode(str);
    EncodeMatchesSpec(Decode(str).value);
  }

  lemma EncodeSpecZeros(n: nat)
    ensures EncodeSpec(Zeros(n)) == Ones(n + 1)
  {
    assert Zeros(n) == seq(n, i => 0) + [];
    LeadingCountOf(n, 0, []);
    ValueBELeadingZeros(n, [], 256);
    AlphabetSymbols();
    assert Spell([0]) == ['1'];
  }

  lemma DecodeSpecOnes(n: nat)
    ensures DecodeSpec(Ones(n)) == Ok(Zeros(n))
  {
    AlphabetSymbols();
    IndexOfSymbol(0);
    assert Alphabet[0] == '1';
    assert Valid(Ones(n));
    assert Indexes(Ones(n)) == Zeros(n) + [];
    ValueBELeadingZeros(n, [], 58);
    assert Ones(n) == seq(n, i => '1') + [];
    LeadingCountOf(n, '1', []);
    assert ToDigits(0, 256) == [];
    assert Zeros(n) + Reverse([]) == Zeros(n);
  }

  /** Bytes that are all zero, the empty string included, gain one '1' on
      encoding: the digit array keeps its initial 0, spelled '1'. Decoding
      then yields one zero byte more than was encoded. */
  lemma EncodeZeros(n: nat)
    ensures Encode(Zeros(n)) == Ones(n + 1)
    ensures Decode(Ones(n + 1)) == Ok(Zeros(n + 1))
  {
    EncodeMatchesSpec(Zeros(n));
    EncodeSpecZeros(n);
    DecodeMatchesSpec(Ones(n + 1));
    DecodeSpecOnes(n + 1);
  }
}
