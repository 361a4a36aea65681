/** The converter component: its typed texts, the hover index and the shared
    bit store, with the effects that push each committed text into the store. */
module Controller {
  import opened Binary
  import opened Normaliser
  import opened Decoder
  import opened Store
  import opened Digits

  /** A JavaScript number, as far as the component passes numbers around
      without looking inside them. */
  datatype Number = NaN | PositiveInfinity | NegativeInfinity | NegativeZero | Finite(value: real)

  /** The engine's conversions, taken as given: `Number.parseFloat` and the
      binary32 encoding (IEEE 754 round to nearest even) that
      `DataView.setFloat32` stores. */
  datatype Platform = Platform(parseFloat: string -> Number, float32Bits: Number -> Word)

  /** What the model relies on about the engine: an empty text parses to NaN,
      and NaN is stored as one of the NaN encodings. */
  predicate JsPlatform(p: Platform) {
    p.parseFloat("") == NaN && IsNaNPattern(p.float32Bits(NaN))
  }

  /** The decimal text the component starts with. */
  const InitialFloatText: string := "0.90624999"

  /** The word `setFloat(Number.parseFloat(text))` stores. */
  function FloatBits(p: Platform, text: string): (w: Word)
    ensures JsPlatform(p) && text == "" ==> IsNaNPattern(w)
  {
    p.float32Bits(p.parseFloat(text))
  }

  /** The word `setBinary(binary)` stores: `parseInt(binary, 2) || 0`, wrapped
      to 32 bits by `setUint32`. Up to 53 digits `parseInt` is exact. */
  function StoredBinary(binary: string): (w: Word)
    requires IsBinary(binary) && |binary| <= 53
    ensures w == BinValue(binary) % 0x1_0000_0000
    ensures |binary| <= 32 ==> w == BinValue(binary)
    ensures binary == "" ==> w == 0
  {
    var intRepr := ParseInt2(binary);
    var n := if intRepr.Some? then intRepr.value else 0;
    Pow2Word();
    Pow2Monotone(Min(|binary|, 32), 32);
    n % 0x1_0000_0000
  }

  function Min(a: nat, b: nat): nat {
    if a < b then a else b
  }

  /** The state the effects look at: the two typed texts and the stored word. */
  datatype ViewState = ViewState(typedBinary: string, typedFloat: string, bits: Word)

  /** The typed binary text is always a normalised 0/1 string; the model keeps
      it within the 53 digits that `parseInt` reads exactly. */
  predicate WellFormed(s: ViewState) {
    IsBinary(s.typedBinary) && |s.typedBinary| <= 53
  }

  /** The two effects after a render, in declaration order: the binary one
      writes when `typedBinary` changed, then the float one writes when
      `typedFloat` changed. Each write replaces the whole word. */
  function Effects(before: ViewState, typedBinary: string, typedFloat: string, p: Platform): (after: ViewState)
    requires IsBinary(typedBinary) && |typedBinary| <= 53
    ensures after.typedBinary == typedBinary && after.typedFloat == typedFloat
    ensures typedFloat != before.typedFloat ==> after.bits == FloatBits(p, typedFloat)
    ensures typedFloat == before.typedFloat && typedBinary != before.typedBinary ==>
      after.bits == StoredBinary(typedBinary)
    ensures typedFloat == before.typedFloat && typedBinary == before.typedBinary ==>
      after.bits == before.bits
  {
    var afterBinary := if typedBinary != before.typedBinary then StoredBinary(typedBinary) else before.bits;
    var afterFloat := if typedFloat != before.typedFloat then FloatBits(p, typedFloat) else afterBinary;
    ViewState(typedBinary, typedFloat, afterFloat)
  }

  /** After mounting: the store starts zeroed and both effects run once. The
      binary one writes `StoredBinary("")`, which is 0, so starting from a
      zeroed store with "" as the previous binary text gives the same word;
      the float one then writes the initial decimal text's encoding. */
  function Mount(p: Platform): (m: ViewState)
    ensures m.typedBinary == "" && m.typedFloat == InitialFloatText
    ensures m.bits == FloatBits(p, InitialFloatText)
  {
    Effects(ViewState("", "", 0), "", InitialFloatText, p)
  }

  /** `onFloatTextChange`: keep the typed decimal text, clear the binary text. */
  function FloatTextChange(s: ViewState, text: string, p: Platform): (t: ViewState)
    ensures t.typedBinary == "" && t.typedFloat == text
    ensures text != s.typedFloat ==> t.bits == FloatBits(p, text)
    ensures text == s.typedFloat && s.typedBinary == "" ==> t.bits == s.bits
    ensures text == s.typedFloat && s.typedBinary != "" ==> t.bits == 0
  {
    Effects(s, "", text, p)
  }

  /** `onBinaryTextChange`: keep the normalised binary text, clear the decimal text. */
  function BinaryTextChange(s: ViewState, text: string, p: Platform): (t: ViewState)
    requires |text| <= 53
    ensures t.typedBinary == Normalise(text) && t.typedFloat == ""
    ensures s.typedFloat != "" ==> t.bits == FloatBits(p, "")
    ensures s.typedFloat == "" && Normalise(text) != s.typedBinary ==> t.bits == StoredBinary(Normalise(text))
    ensures s.typedFloat == "" && Normalise(text) == s.typedBinary ==> t.bits == s.bits
  {
    Effects(s, Normalise(text), "", p)
  }

  /** `onBinaryTextBlur`: keep the normalised text padded to 32 digits. */
  function BinaryTextBlur(s: ViewState, text: string, p: Platform): (t: ViewState)
    requires |text| <= 53
    ensures t.typedBinary == BlurText(text) && t.typedFloat == s.typedFloat
    ensures BlurText(text) != s.typedBinary ==> t.bits == StoredBinary(BlurText(text))
    ensures BlurText(text) == s.typedBinary ==> t.bits == s.bits
  {
    Effects(s, BlurText(text), s.typedFloat, p)
  }

  /** The text the binary field shows: `typedBinary || binaryVal`. */
  function DisplayedBinary(s: ViewState): (r: string)
    ensures s.typedBinary != "" ==> r == s.typedBinary
    ensures s.typedBinary == "" ==> |r| == 32 && IsBinary(r) && BinValue(r) == s.bits
  {
    if s.typedBinary != "" then s.typedBinary else BinaryVal(s.bits)
  }

  /** Neither non-empty typed text contradicts the store: a typed binary text
      is the stored word's digits, a typed decimal text is its encoding. */
  predicate Consistent(s: ViewState, p: Platform)
    requires WellFormed(s)
  {
    (s.typedBinary != "" ==> s.bits == StoredBinary(s.typedBinary)) &&
    (s.typedFloat != "" ==> s.bits == FloatBits(p, s.typedFloat))
  }

  /** The effects with the float write skipped when the decimal text was only
      cleared because a non-empty binary text was typed. */
  function GuardedEffects(before: ViewState, typedBinary: string, typedFloat: string, p: Platform): ViewState
    requires IsBinary(typedBinary) && |typedBinary| <= 53
  {
    var afterBinary := if typedBinary != before.typedBinary then StoredBinary(typedBinary) else before.bits;
    var floatWrites := typedFloat != before.typedFloat && (typedFloat != "" || typedBinary == "");
    ViewState(typedBinary, typedFloat, if floatWrites then FloatBits(p, typedFloat) else afterBinary)
  }

  function GuardedBinaryTextChange(s: ViewState, text: string, p: Platform): ViewState
    requires |text| <= 53
  {
    GuardedEffects(s, Normalise(text), "", p)
  }

  /** Leading '0' padding does not change what `setBinary` stores. */
  lemma StoredBinaryPadding(text: string)
    requires |text| <= 53
    ensures StoredBinary(BlurText(text)) == StoredBinary(Normalise(text))
  {
    BlurKeepsValue(text);
  }

  /** Live "101" and blurred "000...0101" both store 5. */
  lemma OneZeroOneStoresFive()
    ensures StoredBinary(Normalise("101")) == 5
    ensures StoredBinary(BlurText("101")) == 5
  {
    BlurOfOneZeroOne();
  }

  /** Committing the digits the store displays writes the same word back. */
  lemma StoredBinaryRoundTrip(u: Word)
    ensures StoredBinary(BinaryVal(u)) == u
  {
  }

  lemma MountConsistent(p: Platform)
    ensures WellFormed(Mount(p)) && Consistent(Mount(p), p)
    ensures Mount(p) == ViewState("", InitialFloatText, FloatBits(p, InitialFloatText))
  {
  }

  /** A decimal edit (which always changes a non-empty decimal text) keeps the
      texts consistent with the store. */
  lemma FloatEditKeepsConsistent(s: ViewState, text: string, p: Platform)
    requires WellFormed(s) && Consistent(s, p)
    requires s.typedFloat != "" ==> text != s.typedFloat
    ensures WellFormed(FloatTextChange(s, text, p)) && Consistent(FloatTextChange(s, text, p), p)
  {
  }

  /** Leaving the binary field commits the displayed digits without changing
      the stored word, so the texts stay consistent with the store. */
  lemma BlurKeepsConsistent(s: ViewState, p: Platform)
    requires WellFormed(s) && Consistent(s, p)
    ensures |DisplayedBinary(s)| <= 53
    ensures BinaryTextBlur(s, DisplayedBinary(s), p).bits == s.bits
    ensures WellFormed(BinaryTextBlur(s, DisplayedBinary(s), p))
    ensures Consistent(BinaryTextBlur(s, DisplayedBinary(s), p), p)
  {
    var text := DisplayedBinary(s);
    if s.typedBinary != "" {
      NormaliseKeepsBinary(text);
      if |text| >= 32 {
        BlurKeepsFullText(text);
      } else {
        StoredBinaryPadding(text);
      }
    } else {
      BlurKeepsFullText(text);
      StoredBinaryRoundTrip(s.bits);
    }
  }

  /** As written, while the decimal text is non-empty, a binary keystroke's
      digits are overwritten by the float effect writing `parseFloat("")`. */
  lemma BinaryEditOverwritten(s: ViewState, text: string, p: Platform)
    requires |text| <= 53 && s.typedFloat != ""
    ensures BinaryTextChange(s, text, p).typedBinary == Normalise(text)
    ensures BinaryTextChange(s, text, p).bits == FloatBits(p, "")
  {
  }

  /** The first binary keystroke after mounting: the field shows "1" but the
      store holds a NaN encoding, not 1. */
  lemma FirstBinaryKeystrokeLost(p: Platform)
    requires JsPlatform(p)
    ensures var t := BinaryTextChange(Mount(p), "1", p);
      WellFormed(t) && t.typedBinary == "1" && IsNaNPattern(t.bits) && !Consistent(t, p)
  {
    var t := BinaryTextChange(Mount(p), "1", p);
    assert Normalise("1") == "1";
    assert t.bits == p.float32Bits(NaN);
    assert StoredBinary("1") == 1 by {
      assert "1"[..0] == "";
    }
  }

  /** With the guard, a binary edit keeps the texts consistent with the store,
      and a non-empty typed binary text is what the store holds. */
  lemma GuardedBinaryEditKeepsConsistent(s: ViewState, text: string, p: Platform)
    requires WellFormed(s) && Consistent(s, p) && |text| <= 53
    ensures WellFormed(GuardedBinaryTextChange(s, text, p))
    ensures Consistent(GuardedBinaryTextChange(s, text, p), p)
    ensures Normalise(text) != "" ==> GuardedBinaryTextChange(s, text, p).bits == StoredBinary(Normalise(text))
  {
  }

  /** The guard changes nothing for decimal edits and for leaving the binary field. */
  lemma GuardOnlyAffectsBinaryEdits(s: ViewState, text: string, p: Platform)
    requires |text| <= 53
    ensures GuardedEffects(s, "", text, p) == FloatTextChange(s, text, p)
    ensures GuardedEffects(s, BlurText(text), s.typedFloat, p) == BinaryTextBlur(s, text, p)
  {
  }

  /** Typing "1", "10", "101" after mounting ends with 5 stored, and leaving
      the field pads the text to 32 digits and still stores 5. */
  lemma TypingOneZeroOne(p: Platform)
    ensures var s3 := BinaryTextChange(BinaryTextChange(BinaryTextChange(Mount(p), "1", p), "10", p), "101", p);
      s3.bits == 5 && s3.typedBinary == "101" &&
      BinaryTextBlur(s3, "101", p).typedBinary == Repeat('0', 29) + "101" &&
      BinaryTextBlur(s3, "101", p).bits == 5
  {
    assert Normalise("1") == "1" && Normalise("10") == "10" && Normalise("101") == "101";
    OneZeroOneStoresFive();
    BlurOfOneZeroOne();
  }

  /** After "101" is typed the decimal text is "" and the decimal field shows
      the value; clearing that field changes no decimal text, so only the
      binary effect runs and `setBinary("")` stores 0, not a NaN encoding. */
  lemma ClearingShownDecimalStoresZero(p: Platform)
    requires JsPlatform(p)
    ensures var s3 := BinaryTextChange(BinaryTextChange(BinaryTextChange(Mount(p), "1", p), "10", p), "101", p);
      s3.typedFloat == "" && FloatTextChange(s3, "", p).bits == 0 &&
      !IsNaNPattern(FloatTextChange(s3, "", p).bits)
  {
    TypingOneZeroOne(p);
  }

  class Converter {
    const platform: Platform
    /** `state.dataView`: one buffer for the component's whole life. */
    const view: DataView
    var fracIndex: int
    var typedBinary: string
    var typedFloat: string

    ghost predicate Valid()
      reads this
    {
      view.Valid() && IsBinary(typedBinary) && |typedBinary| <= 53
    }

    /** The stored word, `getUint32(0, true)`. */
    function Bits(): Word
      reads this, view.bytes
      requires Valid()
    {
      view.Read(true)
    }

    function State(): ViewState
      reads this, view.bytes
      requires Valid()
    {
      ViewState(typedBinary, typedFloat, Bits())
    }

    /** Mounting: a zeroed buffer, the initial texts, then both effects in order. */
    constructor (platform: Platform)
      ensures Valid() && fresh(view) && fresh(view.bytes)
      ensures this.platform == platform
      ensures State() == Mount(platform) && fracIndex == -1
    {
      this.platform := platform;
      view := new DataView();
      fracIndex := -1;
      typedBinary := "";
      typedFloat := InitialFloatText;
      new;
      SetBinary(typedBinary);
      SetFloat(platform.parseFloat(typedFloat));
    }

    /** `setFloat`: `setFloat32(0, x, true)` stores the four bytes of x's
        binary32 encoding. */
    method SetFloat(x: Number)
      requires Valid()
      modifies view.bytes
      ensures Bits() == platform.float32Bits(x)
    {
      view.SetUint32(platform.float32Bits(x), true);
    }

    /** `setBinary`: parse in base 2, fall back to 0 for NaN, store with `setUint32`. */
    method SetBinary(binary: string)
      requires Valid() && IsBinary(binary) && |binary| <= 53
      modifies view.bytes
      ensures Bits() == StoredBinary(binary)
    {
      var intRepr := ParseInt2(binary);
      view.SetUint32(if intRepr.Some? then intRepr.value else 0, true);
    }

    /** The two effects, given the texts of the previous render. */
    method RunEffects(prevBinary: string, prevFloat: string)
      requires Valid()
      modifies view.bytes
      ensures State() == Effects(ViewState(prevBinary, prevFloat, old(Bits())), typedBinary, typedFloat, platform)
    {
      if typedBinary != prevBinary {
        SetBinary(typedBinary);
      }
      if typedFloat != prevFloat {
        SetFloat(platform.parseFloat(typedFloat));
      }
    }

    method OnFloatTextChange(text: string)
      requires Valid()
      modifies this, view.bytes
      ensures Valid() && State() == FloatTextChange(old(State()), text, platform)
      ensures fracIndex == old(fracIndex)
    {
      var prevBinary, prevFloat := typedBinary, typedFloat;
      typedFloat := text;
      typedBinary := "";
      RunEffects(prevBinary, prevFloat);
    }

    method OnBinaryTextChange(text: string)
      requires Valid() && |text| <= 53
      modifies this, view.bytes
      ensures Valid() && State() == BinaryTextChange(old(State()), text, platform)
      ensures fracIndex == old(fracIndex)
    {
      var prevBinary, prevFloat := typedBinary, typedFloat;
      typedBinary := Normalise(text);
      typedFloat := "";
      RunEffects(prevBinary, prevFloat);
    }

    method OnBinaryTextBlur(text: string)
      requires Valid() && |text| <= 53
      modifies this, view.bytes
      ensures Valid() && State() == BinaryTextBlur(old(State()), text, platform)
      ensures fracIndex == old(fracIndex)
    {
      var prevBinary := typedBinary;
      typedBinary := BlurText(text);
      RunEffects(prevBinary, typedFloat);
    }

    method OnDigitOver(index: int)
      modifies this`fracIndex
      ensures fracIndex == NextFracIndex(old(fracIndex), index)
    {
      var thisFracIndex := index - 9;
      if thisFracIndex == fracIndex || thisFracIndex < 0 || thisFracIndex > 23 {
        fracIndex := -1;
      } else {
        fracIndex := thisFracIndex;
      }
    }

    method OnDigitLeave()
      modifies this`fracIndex
      ensures fracIndex == -1
    {
      fracIndex := -1;
    }

    /** The derivation block of a render: read the word once and decode it. */
    method Derive() returns (f: Fields)
      requires Valid()
      ensures f == Decode(Bits())
    {
      var u := view.GetUint32(true);
      f := Decode(u);
    }
  }
}
