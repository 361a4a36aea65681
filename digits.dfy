/** The per-digit presentation state: which field a digit belongs to, and which
    fraction term is annotated while the pointer rests on a digit. */
module Digits {
  import opened Binary
  import opened Decoder

  datatype DigitClass = SignDigit | ExponentDigit | FractionDigit

  /** The class given to digit `i` of `binaryVal`. */
  function ClassOf(i: nat): (r: DigitClass)
    ensures r == SignDigit <==> i == 0
    ensures r == ExponentDigit <==> 1 <= i < 9
    ensures r == FractionDigit <==> i >= 9
  {
    if i == 0 then SignDigit else if i < 9 then ExponentDigit else FractionDigit
  }

  /** The classes are the fields the decoder reads: the sign digit decides the
      sign symbol, exponent digit i is bit 8 - i of `exponentEncoded`, and a
      fraction digit i is '1' exactly when denominator i - 8 is listed. */
  lemma ClassesMatchFields(u: Word, i: nat)
    requires i < 32
    ensures ClassOf(i) == SignDigit <==> i == 0
    ensures ClassOf(i) == ExponentDigit <==> 1 <= i <= 8
    ensures ClassOf(i) == FractionDigit <==> 9 <= i
    ensures ClassOf(i) == SignDigit ==> (Sign(BinaryVal(u)) == '+' <==> BinaryVal(u)[i] == '0')
    ensures ClassOf(i) == ExponentDigit ==>
      (BinaryVal(u)[i] == '1' <==> (ExponentEncoded(BinaryVal(u)) / Pow2(8 - i)) % 2 == 1)
    ensures ClassOf(i) == FractionDigit ==>
      (BinaryVal(u)[i] == '1' <==> i - 8 in FractionEncoded(BinaryVal(u)))
  {
    if 1 <= i <= 8 {
      ExponentDigitIsBit(BinaryVal(u), i);
    } else if 9 <= i {
      FractionTermIsDigit(u, i - 8);
    }
  }

  lemma ExponentDigitIsBit(d: string, i: nat)
    requires |d| == 32 && IsBinary(d) && 1 <= i <= 8
    ensures d[i] == '1' <==> (ExponentEncoded(d) / Pow2(8 - i)) % 2 == 1
  {
    assert d[1..9][i - 1] == d[i];
    DigitIsBit(d[1..9], i - 1);
  }

  /** `onDigitOver(index)`: the fraction index of the digit under the pointer,
      or -1 (no annotation) for a non-fraction digit or when that index is
      already shown. */
  function NextFracIndex(current: int, index: int): (r: int)
    ensures -1 <= r <= 23
    ensures r != -1 ==> r == index - 9 && r != current
    ensures 9 <= index <= 32 && index - 9 != current ==> r == index - 9
  {
    var thisFracIndex := index - 9;
    if thisFracIndex == current || thisFracIndex < 0 || thisFracIndex > 23 then -1
    else thisFracIndex
  }

  /** Over a fraction digit of the 32, the annotation shown is the term of that
      digit: index 0..22, denominator index + 1, listed when the digit is '1'. */
  lemma HoverShowsDigitsTerm(u: Word, current: int, i: nat)
    requires 9 <= i < 32 && current != i - 9
    ensures 0 <= NextFracIndex(current, i) <= 22
    ensures var denom := NextFracIndex(current, i) + 1;
      denom == i - 8 && (BinaryVal(u)[i] == '1' <==> denom in FractionEncoded(BinaryVal(u)))
  {
    ClassesMatchFields(u, i);
  }

  /** Entering the same digit again hides the annotation it just showed. */
  lemma HoverToggles(current: int, index: int)
    requires NextFracIndex(current, index) != -1
    ensures NextFracIndex(NextFracIndex(current, index), index) == -1
  {
  }

  /** The sign and exponent digits never show an annotation. */
  lemma NoAnnotationOutsideFraction(current: int, index: int)
    requires index < 9
    ensures NextFracIndex(current, index) == -1
  {
  }
}
