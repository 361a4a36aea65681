/** The fields the converter derives from the stored word, in IEEE 754 binary32
    layout: digit 0 is the sign, digits 1..8 the biased exponent, digits 9..31
    the 23 trailing significand (fraction) bits. */
module Decoder {
  import opened Binary

  /** `getUint32(0, true).toString(2).padStart(32, "0")`: the word as 32 digits. */
  function BinaryVal(u: Word): (digits: string)
    ensures |digits| == 32 && IsBinary(digits)
    ensures BinValue(digits) == u
  {
    var t := ToBase2(u);
    Pow2Word();
    ToBase2Length(u, 32);
    ToBase2Value(u);
    LeadingZeros(32 - |t|, t);
    assert PadStart(t, 32, '0') == Repeat('0', 32 - |t|) + t;
    PadStart(t, 32, '0')
  }

  lemma Pow2Word()
    ensures Pow2(8) == 256 && Pow2(23) == 0x80_0000 && Pow2(31) == 0x8000_0000
    ensures Pow2(32) == 0x1_0000_0000
  {
    Pow2Add(8, 23);
    Pow2Add(1, 31);
  }

  lemma Pow2Halves()
    ensures Pow2(22) == 0x40_0000 && Pow2(21) == 0x20_0000
    ensures Pow2(20) == 0x10_0000 && Pow2(19) == 0x8_0000
  {
    Pow2Word();
    assert Pow2(23) == 2 * Pow2(22);
    assert Pow2(22) == 2 * Pow2(21);
    assert Pow2(21) == 2 * Pow2(20);
    assert Pow2(20) == 2 * Pow2(19);
  }

  /** `sign`: "+" when the sign digit is '0', "-" otherwise. */
  function Sign(digits: string): (r: char)
    requires |digits| == 32
    ensures r == '+' || r == '-'
    ensures r == '+' <==> digits[0] == '0'
  {
    if digits[0] == '0' then '+' else '-'
  }

  /** `exponentEncoded`: digits 1..8 parsed in base 2. Eight digits are never
      empty, so this `parseInt` never yields NaN. */
  function ExponentEncoded(digits: string): (e: nat)
    requires |digits| == 32 && IsBinary(digits)
    ensures e < 256
  {
    Pow2Word();
    BinValue(digits[1..9])
  }

  /** `exponent`: the biased exponent minus 127. */
  function Exponent(encoded: nat): (e: int)
    requires encoded < 256
    ensures -127 <= e <= 128
    ensures e + 127 == encoded
  {
    encoded - 127
  }

  /** The denominator powers `first`, `first + 1`, ... of the '1' digits of `ds`,
      in order: the `map` to `{digit, denom}` followed by the `filter` on "1". */
  function Denominators(ds: string, first: nat): (r: seq<nat>)
    ensures forall j :: 0 <= j < |r| ==> first <= r[j] < first + |ds|
    decreases |ds|
  {
    if ds == [] then []
    else (if ds[0] == '1' then [first] else []) + Denominators(ds[1..], first + 1)
  }

  predicate Increasing(r: seq<nat>) {
    forall i, j :: 0 <= i < j < |r| ==> r[i] < r[j]
  }

  /** The denominators are strictly increasing and are exactly the positions,
      counted from `first`, of the '1' digits. */
  lemma {:induction false} DenominatorsExact(ds: string, first: nat)
    ensures Increasing(Denominators(ds, first))
    ensures forall k :: k in Denominators(ds, first) <==>
      first <= k < first + |ds| && ds[k - first] == '1'
    decreases |ds|
  {
    if ds != [] {
      var head: seq<nat> := if ds[0] == '1' then [first] else [];
      var rest := Denominators(ds[1..], first + 1);
      assert Denominators(ds, first) == head + rest;
      DenominatorsExact(ds[1..], first + 1);
      var r := head + rest;
      forall i, j | 0 <= i < j < |r|
        ensures r[i] < r[j]
      {
        if i < |head| {
          assert r[i] == first && r[j] == rest[j - |head|];
        } else {
          assert r[i] == rest[i - |head|] && r[j] == rest[j - |head|];
        }
      }
      forall k
        ensures k in head + rest <==> first <= k < first + |ds| && ds[k - first] == '1'
      {
        if first + 1 <= k < first + |ds| {
          assert ds[1..][k - (first + 1)] == ds[k - first];
        }
      }
    }
  }

  /** `fractionEncoded`: the denominator powers 1..23 whose fraction digit is '1'. */
  function FractionEncoded(digits: string): (r: seq<nat>)
    requires |digits| == 32
    ensures forall j :: 0 <= j < |r| ==> 1 <= r[j] <= 23
  {
    Denominators(digits[9..], 1)
  }

  /** The `reduce` that starts from `acc` and adds 1/2^k for each listed k. Every
      term is a power of two no finer than 2^-23 and the total stays below 2, so
      the double arithmetic of the source is exact and is modelled by reals. */
  function FractionSum(terms: seq<nat>, acc: real): (r: real)
    ensures r >= acc
    ensures r == acc <==> terms == []
    decreases |terms|
  {
    if terms == [] then acc
    else FractionSum(terms[1..], acc + 1.0 / (Pow2(terms[0]) as real))
  }

  /** `fractionFloat`: 1 plus the listed fraction terms. */
  function FractionFloat(terms: seq<nat>): (r: real)
    ensures r >= 1.0
    ensures r == 1.0 <==> terms == []
  {
    FractionSum(terms, 1.0)
  }

  /** Sum of 2^(n - k) over the listed k: the listed terms scaled by 2^n. */
  function Weight(terms: seq<nat>, n: nat): nat
    requires forall j :: 0 <= j < |terms| ==> terms[j] <= n
  {
    if terms == [] then 0 else Pow2(n - terms[0]) + Weight(terms[1..], n)
  }

  /** The exponent field 255 with a non-zero fraction: the NaN encodings. */
  predicate IsNaNPattern(u: Word) {
    (u / 0x80_0000) % 256 == 255 && u % 0x80_0000 != 0
  }

  lemma {:induction false} WeightConcat(a: seq<nat>, b: seq<nat>, n: nat)
    requires forall j :: 0 <= j < |a| ==> a[j] <= n
    requires forall j :: 0 <= j < |b| ==> b[j] <= n
    ensures forall j :: 0 <= j < |a + b| ==> (a + b)[j] <= n
    ensures Weight(a + b, n) == Weight(a, n) + Weight(b, n)
    decreases |a|
  {
    if a == [] {
      assert a + b == b;
    } else {
      var ab := a + b;
      assert ab[0] == a[0];
      assert ab[1..] == a[1..] + b;
      WeightConcat(a[1..], b, n);
      assert Weight(ab, n) == Pow2(n - a[0]) + Weight(a[1..] + b, n);
    }
  }

  lemma WeightAtLeastLength(terms: seq<nat>, n: nat)
    requires forall j :: 0 <= j < |terms| ==> terms[j] <= n
    ensures Weight(terms, n) >= |terms|
    decreases |terms|
  {
    if terms != [] {
      WeightAtLeastLength(terms[1..], n);
    }
  }

  /** Scaled by 2^(first - 1 + |ds|), the listed denominators give back the
      base-2 value of the digits they were read from. */
  lemma {:induction false} DenominatorsWeight(ds: string, first: nat)
    requires IsBinary(ds) && first >= 1
    ensures Weight(Denominators(ds, first), first - 1 + |ds|) == BinValue(ds)
    decreases |ds|
  {
    if ds != [] {
      var n := first - 1 + |ds|;
      var head: seq<nat> := if ds[0] == '1' then [first] else [];
      var rest := Denominators(ds[1..], first + 1);
      assert Denominators(ds, first) == head + rest;
      assert Weight(head + rest, n) == Weight(head, n) + Weight(rest, n) by {
        WeightConcat(head, rest, n);
      }
      assert Weight(rest, n) == BinValue(ds[1..]) by {
        DenominatorsWeight(ds[1..], first + 1);
      }
      assert Weight(head, n) == DigitValue(ds[0]) * Pow2(|ds| - 1) by {
        HeadWeight(ds[0], first, n);
      }
      LeadingDigit(ds);
    }
  }

  lemma HeadWeight(c: char, first: nat, n: nat)
    requires first <= n
    ensures var head: seq<nat> := if c == '1' then [first] else [];
      Weight(head, n) == DigitValue(c) * Pow2(n - first)
  {
    var head: seq<nat> := if c == '1' then [first] else [];
    if c == '1' {
      assert head[1..] == [];
    }
  }

  /** The first digit contributes its value times 2^(|ds| - 1). */
  lemma LeadingDigit(ds: string)
    requires IsBinary(ds) && ds != []
    ensures BinValue(ds) == DigitValue(ds[0]) * Pow2(|ds| - 1) + BinValue(ds[1..])
  {
    assert ds == [ds[0]] + ds[1..];
    BinValueConcat([ds[0]], ds[1..]);
    assert BinValue([ds[0]]) == DigitValue(ds[0]) by {
      assert [ds[0]][..0] == [];
    }
  }

  lemma UnitFraction(a: real, b: real)
    requires a > 0.0 && b > 0.0
    ensures a / (a * b) == 1.0 / b
  {
  }

  lemma SumOfQuotients(x: real, y: real, p: real)
    requires p > 0.0
    ensures x / p + y / p == (x + y) / p
  {
  }

  /** One step of the reduce: adding 1/b is adding a/p when p = a * b. */
  lemma ReduceStep(acc: real, a: nat, b: nat, w: nat, p: nat)
    requires a > 0 && b > 0 && p == a * b
    ensures acc + 1.0 / (b as real) + (w as real) / (p as real) == acc + ((a + w) as real) / (p as real)
  {
    assert (p as real) == (a as real) * (b as real);
    assert 1.0 / (b as real) == (a as real) / (p as real) by {
      UnitFraction(a as real, b as real);
    }
    SumOfQuotients(a as real, w as real, p as real);
  }

  /** The reduce adds exactly the scaled weight of its terms. */
  lemma {:induction false} FractionSumWeight(terms: seq<nat>, acc: real, n: nat)
    requires forall j :: 0 <= j < |terms| ==> terms[j] <= n
    ensures FractionSum(terms, acc) == acc + (Weight(terms, n) as real) / (Pow2(n) as real)
    decreases |terms|
  {
    if terms != [] {
      var t := terms[0];
      var a, b, w, p := Pow2(n - t), Pow2(t), Weight(terms[1..], n), Pow2(n);
      FractionSumWeight(terms[1..], acc + 1.0 / (b as real), n);
      Pow2Add(n - t, t);
      ReduceStep(acc, a, b, w, p);
      assert Weight(terms, n) == a + w;
    }
  }

  lemma FieldBound(e: nat, f: nat, p: nat, n: nat)
    requires e < n && f < p
    ensures e * p + f < n * p
  {
    assert (n - e) * p >= p by {
      MulAtLeast(n - e, p);
    }
  }

  /** The 32 digits split into sign, exponent and fraction fields. */
  lemma Decomposition(u: Word)
    ensures var d := BinaryVal(u);
      u == (DigitValue(d[0]) * 256 + ExponentEncoded(d)) * 0x80_0000 + BinValue(d[9..])
  {
    var d := BinaryVal(u);
    Pow2Word();
    assert d == d[..9] + d[9..];
    BinValueConcat(d[..9], d[9..]);
    assert d[..9] == d[..1] + d[1..9];
    BinValueConcat(d[..1], d[1..9]);
    assert BinValue(d[..1]) == DigitValue(d[0]) by {
      assert d[..1][..0] == [];
    }
  }

  /** The sign symbol is "+" exactly when bit 31 of the word is clear. */
  lemma SignIsTopBit(u: Word)
    ensures Sign(BinaryVal(u)) == '+' <==> u < 0x8000_0000
  {
    var d := BinaryVal(u);
    Decomposition(u);
    Pow2Word();
    FieldBound(ExponentEncoded(d), BinValue(d[9..]), 0x80_0000, 256);
  }

  /** `exponentEncoded` is bits 23..30 of the word. */
  lemma ExponentIsWordField(u: Word)
    ensures ExponentEncoded(BinaryVal(u)) == (u / 0x80_0000) % 256
  {
    var d := BinaryVal(u);
    Decomposition(u);
    Pow2Word();
    var q := DigitValue(d[0]) * 256 + ExponentEncoded(d);
    DivModUnique(u, 0x80_0000, q, BinValue(d[9..]));
    DivModUnique(q, 256, DigitValue(d[0]), ExponentEncoded(d));
  }

  /** The fraction digits are the low 23 bits of the word. */
  lemma FractionDigitsAreLowBits(u: Word)
    ensures BinValue(BinaryVal(u)[9..]) == u % 0x80_0000
  {
    var d := BinaryVal(u);
    Decomposition(u);
    Pow2Word();
    DivModUnique(u, 0x80_0000, DigitValue(d[0]) * 256 + ExponentEncoded(d), BinValue(d[9..]));
  }

  /** `fractionEncoded` is strictly increasing within 1..23. */
  lemma FractionTermsOrdered(u: Word)
    ensures var fe := FractionEncoded(BinaryVal(u));
      (forall j :: 0 <= j < |fe| ==> 1 <= fe[j] <= 23) && Increasing(fe)
  {
    DenominatorsExact(BinaryVal(u)[9..], 1);
  }

  /** Denominator k is listed exactly when digit 8 + k of `binaryVal` is '1'. */
  lemma FractionTermIsDigit(u: Word, k: nat)
    ensures k in FractionEncoded(BinaryVal(u)) <==> 1 <= k <= 23 && BinaryVal(u)[8 + k] == '1'
  {
    var d := BinaryVal(u);
    DenominatorsExact(d[9..], 1);
    if 1 <= k <= 23 {
      assert d[9..][k - 1] == d[8 + k];
    }
  }

  /** Digit i of `binaryVal` is bit 31 - i of the word. */
  lemma DigitOfWord(u: Word, i: nat)
    requires i < 32
    ensures BinaryVal(u)[i] == '1' <==> (u / Pow2(31 - i)) % 2 == 1
  {
    DigitOfDigits(BinaryVal(u), u, i);
  }

  lemma DigitOfDigits(s: string, u: nat, i: nat)
    requires |s| == 32 && IsBinary(s) && BinValue(s) == u && i < 32
    ensures s[i] == '1' <==> (u / Pow2(31 - i)) % 2 == 1
  {
    DigitIsBit(s, i);
  }

  /** Denominator k is listed exactly when bit 23 - k of the word is set. */
  lemma FractionTermIsBit(u: Word, k: nat)
    ensures k in FractionEncoded(BinaryVal(u)) <==> 1 <= k <= 23 && (u / Pow2(23 - k)) % 2 == 1
  {
    FractionTermIsDigit(u, k);
    if 1 <= k <= 23 {
      DigitOfWord(u, 8 + k);
    }
  }

  /** Fraction bit k (1 = most significant) of the word: bit 23 - k. */
  predicate FractionBit(u: Word, k: int) {
    1 <= k <= 23 && (u / Pow2(23 - k)) % 2 == 1
  }

  /** `fractionEncoded` lists, in increasing order, exactly the set fraction bits. */
  lemma FractionTermsAreBits(u: Word)
    ensures Increasing(FractionEncoded(BinaryVal(u)))
    ensures forall k :: k in FractionEncoded(BinaryVal(u)) <==> FractionBit(u, k)
  {
    FractionTermsOrdered(u);
    forall k | k >= 0
      ensures k in FractionEncoded(BinaryVal(u)) <==> FractionBit(u, k)
    {
      FractionTermIsBit(u, k);
    }
  }

  /** `fractionFloat` is exactly 1 + (low 23 bits) / 2^23. */
  lemma FractionFloatValue(u: Word)
    ensures FractionFloat(FractionEncoded(BinaryVal(u))) ==
      1.0 + ((u % 0x80_0000) as real) / (0x80_0000 as real)
  {
    var d := BinaryVal(u);
    var fe := FractionEncoded(d);
    DenominatorsWeight(d[9..], 1);
    FractionSumWeight(fe, 1.0, 23);
    FractionDigitsAreLowBits(u);
    Pow2Word();
  }

  lemma ProperFraction(n: nat, p: nat)
    requires n < p
    ensures 0.0 <= (n as real) / (p as real) < 1.0
    ensures (n as real) / (p as real) == 0.0 <==> n == 0
  {
    var x := (n as real) / (p as real);
    assert x * (p as real) == n as real;
  }

  /** No fraction term is listed exactly when the low 23 bits are clear. */
  lemma NoTermsIffLowBitsClear(u: Word)
    ensures FractionEncoded(BinaryVal(u)) == [] <==> u % 0x80_0000 == 0
  {
    var fe := FractionEncoded(BinaryVal(u));
    DenominatorsWeight(BinaryVal(u)[9..], 1);
    FractionDigitsAreLowBits(u);
    WeightAtLeastLength(fe, 23);
  }

  /** `fractionFloat` lies in [1, 2), and is 1 exactly when no fraction bit is set. */
  lemma FractionFloatRange(u: Word)
    ensures 1.0 <= FractionFloat(FractionEncoded(BinaryVal(u))) < 2.0
    ensures FractionFloat(FractionEncoded(BinaryVal(u))) == 1.0 <==> FractionEncoded(BinaryVal(u)) == []
    ensures FractionFloat(FractionEncoded(BinaryVal(u))) == 1.0 <==> u % 0x80_0000 == 0
  {
    FractionFloatValue(u);
    NoTermsIffLowBitsClear(u);
    ProperFraction(u % 0x80_0000, 0x80_0000);
  }

  /** Nothing is lost: sign, exponent and fraction terms rebuild the word. */
  lemma Lossless(u: Word)
    ensures var d := BinaryVal(u);
      var fe := FractionEncoded(d);
      (forall j :: 0 <= j < |fe| ==> fe[j] <= 23) &&
      DigitValue(d[0]) * 0x8000_0000 + ExponentEncoded(d) * 0x80_0000 + Weight(fe, 23) == u
  {
    var d := BinaryVal(u);
    Decomposition(u);
    DenominatorsWeight(d[9..], 1);
  }

  /** Reading a 32-digit 0/1 string into the store and deriving `binaryVal`
      gives the same digits back. */
  lemma BinaryValRoundTrip(s: string)
    requires |s| == 32 && IsBinary(s)
    ensures BinValue(s) < 0x1_0000_0000
    ensures BinaryVal(BinValue(s)) == s
  {
    Pow2Word();
    BinValueInjective(BinaryVal(BinValue(s)), s);
  }

  /** The NaN encodings are the words with exponent field 255 and some fraction term. */
  lemma NaNPatternFields(u: Word)
    ensures IsNaNPattern(u) <==>
      ExponentEncoded(BinaryVal(u)) == 255 && FractionEncoded(BinaryVal(u)) != []
  {
    ExponentIsWordField(u);
    FractionFloatRange(u);
  }

  /** The all-zero word: sign "+", exponent -127, no fraction terms, fraction 1. */
  lemma ZeroWord(u: Word)
    requires u == 0
    ensures Sign(BinaryVal(u)) == '+'
    ensures Exponent(ExponentEncoded(BinaryVal(u))) == -127
    ensures FractionEncoded(BinaryVal(u)) == []
    ensures FractionFloat(FractionEncoded(BinaryVal(u))) == 1.0
  {
    var d := BinaryVal(u);
    assert Sign(d) == '+' by { SignIsTopBit(u); }
    assert ExponentEncoded(d) == 0 by { ExponentIsWordField(u); }
    assert u % 0x80_0000 == 0;
    FractionFloatRange(u);
    assert FractionFloat(FractionEncoded(d)) == 1.0;
    assert FractionEncoded(d) == [];
  }

  /** A word assembled from a sign s, an exponent field e and fraction bits f
      decodes to exactly those fields. */
  lemma DecodeFields(u: Word, s: nat, e: nat, f: nat)
    requires s < 2 && e < 256 && f < 0x80_0000
    requires u == (s * 256 + e) * 0x80_0000 + f
    ensures Sign(BinaryVal(u)) == if s == 0 then '+' else '-'
    ensures ExponentEncoded(BinaryVal(u)) == e
    ensures FractionFloat(FractionEncoded(BinaryVal(u))) == 1.0 + (f as real) / (0x80_0000 as real)
  {
    var d := BinaryVal(u);
    var s', e', f' := DigitValue(d[0]), ExponentEncoded(d), BinValue(d[9..]);
    assert s' * 256 + e' == s * 256 + e && u % 0x80_0000 == f by {
      Pow2Word();
      Decomposition(u);
      DivModUnique(u, 0x80_0000, s * 256 + e, f);
      DivModUnique(u, 0x80_0000, s' * 256 + e', f');
    }
    assert s' == s && e' == e by {
      DivModUnique(s * 256 + e, 256, s, e);
      DivModUnique(s' * 256 + e', 256, s', e');
    }
    assert d[0] == '0' <==> s' == 0;
    FractionFloatValue(u);
  }

  /** 0x3F680000, the binary32 encoding of 0.90625 = 2^-1 * 1.8125: sign "+",
      exponent field 126, fraction 1.8125. */
  lemma NearlyNineTenths(u: Word)
    requires u == 0x3F68_0000
    ensures Sign(BinaryVal(u)) == '+'
    ensures ExponentEncoded(BinaryVal(u)) == 126
    ensures Exponent(ExponentEncoded(BinaryVal(u))) == -1
    ensures FractionFloat(FractionEncoded(BinaryVal(u))) == 1.8125
  {
    assert (0x68_0000 as real) / (0x80_0000 as real) == 0.8125;
    DecodeFields(u, 0, 126, 0x68_0000);
  }

  /** The fraction terms of 0x3F680000 include 1/2, 1/4 and 1/16 but not 1/8. */
  lemma NearlyNineTenthsTerms(u: Word)
    requires u == 0x3F68_0000
    ensures var fe := FractionEncoded(BinaryVal(u));
      1 in fe && 2 in fe && 3 !in fe && 4 in fe
  {
    Pow2Halves();
    DivModUnique(u, 0x40_0000, 0xFD, 0x28_0000);
    DivModUnique(u, 0x20_0000, 0x1FB, 0x8_0000);
    DivModUnique(u, 0x10_0000, 0x3F6, 0x8_0000);
    DivModUnique(u, 0x8_0000, 0x7ED, 0);
    FractionTermIsBit(u, 1);
    FractionTermIsBit(u, 2);
    FractionTermIsBit(u, 3);
    FractionTermIsBit(u, 4);
  }
  /** Everything the component derives from the word on each render. */
  datatype Fields = Fields(
    binaryVal: string,
    sign: char,
    exponentEncoded: nat,
    exponent: int,
    fractionEncoded: seq<nat>,
    fractionFloat: real)

  /** The derivation block, read from one word of the store. */
  function Decode(u: Word): (f: Fields)
    ensures |f.binaryVal| == 32 && IsBinary(f.binaryVal) && BinValue(f.binaryVal) == u
    ensures f.sign == (if u < 0x8000_0000 then '+' else '-')
    ensures f.exponentEncoded == (u / 0x80_0000) % 256
    ensures f.exponent == f.exponentEncoded - 127
    ensures Increasing(f.fractionEncoded)
    ensures forall k :: k in f.fractionEncoded <==> FractionBit(u, k)
    ensures f.fractionFloat == 1.0 + ((u % 0x80_0000) as real) / (0x80_0000 as real)
  {
    var digits := BinaryVal(u);
    SignIsTopBit(u);
    ExponentIsWordField(u);
    FractionTermsAreBits(u);
    FractionFloatValue(u);
    var e := ExponentEncoded(digits);
    var terms := FractionEncoded(digits);
    Fields(digits, Sign(digits), e, Exponent(e), terms, FractionFloat(terms))
  }
}
