/** The binary text field's edit rules: every keystroke coerces the text to
    0/1 digits, and leaving the field left-pads it to 32 digits. */
module Normaliser {
  import opened Binary

  /** `'0'` stays `'0'`; every other character becomes `'1'`. */
  function NormaliseChar(c: char): (r: char)
    ensures r == '0' || r == '1'
    ensures r == '0' <==> c == '0'
  {
    if c == '0' then '0' else '1'
  }

  /** The text kept after a keystroke in the binary field (split, map, join). */
  function Normalise(text: string): (r: string)
    ensures |r| == |text| && IsBinary(r)
    ensures forall i :: 0 <= i < |text| ==> r[i] == NormaliseChar(text[i])
  {
    seq(|text|, i requires 0 <= i < |text| => NormaliseChar(text[i]))
  }

  /** The text kept when the binary field loses focus. */
  function BlurText(text: string): (r: string)
    ensures |r| == if |text| >= 32 then |text| else 32
    ensures IsBinary(r)
    ensures r[|r| - |text|..] == Normalise(text)
    ensures forall i :: 0 <= i < |r| - |text| ==> r[i] == '0'
  {
    PadStart(Normalise(text), 32, '0')
  }

  /** A string already made of 0/1 digits is left as it is. */
  lemma NormaliseKeepsBinary(s: string)
    requires IsBinary(s)
    ensures Normalise(s) == s
  {
    assert forall i :: 0 <= i < |s| ==> Normalise(s)[i] == s[i];
  }

  lemma NormaliseIdempotent(text: string)
    ensures Normalise(Normalise(text)) == Normalise(text)
  {
    NormaliseKeepsBinary(Normalise(text));
  }

  /** Padding on blur keeps the digits' value: live and blurred text store the same number. */
  lemma BlurKeepsValue(text: string)
    ensures BinValue(BlurText(text)) == BinValue(Normalise(text))
  {
    var n := Normalise(text);
    if |n| < 32 {
      assert BlurText(text) == Repeat('0', 32 - |n|) + n;
      LeadingZeros(32 - |n|, n);
    } else {
      assert BlurText(text) == n;
    }
  }

  /** A blurred 0/1 text of 32 or more digits is returned unchanged. */
  lemma BlurKeepsFullText(s: string)
    requires IsBinary(s) && |s| >= 32
    ensures BlurText(s) == s
  {
    NormaliseKeepsBinary(s);
  }

  lemma BlurIdempotent(text: string)
    ensures BlurText(BlurText(text)) == BlurText(text)
  {
    BlurKeepsFullText(BlurText(text));
  }

  /** A letter typed into the binary field is read as the digit 1. */
  lemma LetterBecomesOne()
    ensures Normalise("a") == "1"
    ensures Normalise("2a0") == "110"
  {
  }

  /** "101" blurs to 29 zeros followed by "101", and both denote 5. */
  lemma BlurOfOneZeroOne()
    ensures BlurText("101") == Repeat('0', 29) + "101"
    ensures BinValue(Normalise("101")) == 5
    ensures BinValue(BlurText("101")) == 5
  {
    NormaliseKeepsBinary("101");
    var b := BlurText("101");
    assert b == Repeat('0', 29) + "101";
    assert BinValue("101") == 5 by {
      assert "101"[..2] == "10" && "10"[..1] == "1" && "1"[..0] == "";
    }
    BlurKeepsValue("101");
  }
}
