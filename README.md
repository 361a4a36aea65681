# IEEE-754 single-precision converter, modelled in Dafny

The converter is one React component (`src/Converter.tsx`). It keeps a 4-byte
`ArrayBuffer` behind a `DataView`. The user edits either a decimal text or the
binary text, shown as 32 digits until edited, and effects write the edited
value into the buffer. Each render reads the buffer back as an unsigned
32-bit word. From that word it
derives the binary digits, the sign, the biased and unbiased exponent, the
fraction denominators and the fraction's value, and it colours every digit
by the field it belongs to. Hovering a fraction digit annotates its term.

The project has six modules:

- `Binary` models the JavaScript primitives the component is built from:
  `parseInt(s, 2)`, `toString(2)`, `padStart` and the 32-bit word. It proves
  their value, length and padding properties.
- `Normaliser` models the binary field's edit rules: every keystroke maps
  each character to `0`/`1`, and leaving the field pads the text to 32 digits.
- `Store` models the `DataView` as a class over a 4-byte array. It has
  `setUint32`/`getUint32` in either byte order, with ToUint32 wrap-around.
- `Decoder` models the derivation block of a render, and proves each field
  against the IEEE 754 binary32 layout (bit 31 sign, bits 30..23 exponent,
  bits 22..0 fraction). The fraction sum is exact, so it is a `real`.
- `Digits` models the digit classes and the hover index.
- `Controller` models the component state:
  - the typed texts, the hover index and the store, as `class Converter`
    whose event methods are proved against pure transitions on `ViewState`;
  - the two effects, run in declaration order;
  - the consistency predicate `Consistent` (non-empty typed texts agree with
    the stored word): decimal edits and blurs keep it, and a binary edit as
    written breaks it (see Findings).

## Model

| member | source | states |
|---|---|---|
| Binary.BinValue | src/Converter.tsx:47 | the base-2 value of a 0/1 string is below 2^length |
| Binary.ParseInt2 | src/Converter.tsx:47 | `parseInt(s, 2)` on a 0/1 text is NaN (None) exactly for the empty text, and otherwise the digits' value, below 2^length |
| Binary.ToBase2 | src/Converter.tsx:57 | `toString(2)` gives 0/1 digits with no leading zero except for 0 |
| Binary.ToBase2Value | src/Converter.tsx:57 | reading `toString(2)` back in base 2 gives the number |
| Binary.ToBase2Length | src/Converter.tsx:57-58 | a number below 2^w prints in at most w digits, so padding to 32 adds only zeros |
| Binary.PadStart | src/Converter.tsx:58 | `padStart(n, c)` keeps the text as suffix, fills with `c`, and has length max(length, n) |
| Binary.LeadingZeros | src/Converter.tsx:58 | leading zeros do not change a binary text's value |
| Binary.BinValueConcat | src/Converter.tsx:63-68 | splitting the digits splits the value: high part times 2^(low length) plus low part |
| Binary.BinValueInjective | src/Converter.tsx:55-58 | two equal-length digit strings with one value are equal |
| Binary.DigitIsBit | src/Converter.tsx:60 | character i of a digit string is bit length-1-i of its value |
| Binary.Pow2 | src/Converter.tsx:70 | `Math.pow(2, k)` for a non-negative integer k, at least 1 |
| Binary.Pow2Add | src/Converter.tsx:70 | 2^(a+b) = 2^a * 2^b, the power `Math.pow(2, denom)` used throughout |
| Normaliser.NormaliseChar | src/Converter.tsx:81 | the result is a digit, and it is '0' exactly when the input was '0' |
| Normaliser.Normalise | src/Converter.tsx:79-82 | same length, 0/1 only, each character mapped on its own |
| Normaliser.BlurText | src/Converter.tsx:88-92 | length max(length, 32), the normalised text as suffix, zeros before it |
| Normaliser.NormaliseKeepsBinary | src/Converter.tsx:79-82 | a text already made of 0/1 is unchanged by normalising |
| Normaliser.NormaliseIdempotent | src/Converter.tsx:79-82 | normalising twice is normalising once |
| Normaliser.BlurKeepsValue | src/Converter.tsx:88-92 | the blurred text has the same base-2 value as the live text |
| Normaliser.BlurKeepsFullText | src/Converter.tsx:92 | a 0/1 text of 32 or more digits is unchanged on blur |
| Normaliser.BlurIdempotent | src/Converter.tsx:88-92 | blurring twice is blurring once |
| Normaliser.LetterBecomesOne | src/Converter.tsx:81 | "a" becomes "1", "2a0" becomes "110" |
| Normaliser.BlurOfOneZeroOne | src/Converter.tsx:92 | "101" blurs to 29 zeros then "101", and both denote 5 |
| Store.Compose | src/Converter.tsx:56 | the low byte and the top byte of the composed word are the first and last bytes |
| Store.DataView.constructor | src/Converter.tsx:31-32 | a new 4-byte buffer reads 0 in both byte orders |
| Store.DataView.SetUint32 | src/Converter.tsx:49 | after the write, reading in the same order gives the value mod 2^32 |
| Store.DataView.GetUint32 | src/Converter.tsx:56 | the read returns the word the bytes compose in the given order |
| Store.WriteThenRead | src/Converter.tsx:49-56 | writing and reading in one byte order returns the word written |
| Decoder.BinaryVal | src/Converter.tsx:55-58 | `binaryVal` has 32 digits, all 0/1, and denotes the stored word |
| Decoder.BinaryValRoundTrip | src/Converter.tsx:55-58 | any 32-digit 0/1 string is the `binaryVal` of its value |
| Decoder.Sign | src/Converter.tsx:61-62 | '+' when digit 0 is '0', '-' otherwise |
| Decoder.ExponentEncoded | src/Converter.tsx:63 | the biased exponent is below 256 |
| Decoder.Exponent | src/Converter.tsx:64 | the exponent is the biased exponent minus 127, in -127..128 |
| Decoder.Denominators | src/Converter.tsx:65-68 | every listed denominator lies in the digit range given |
| Decoder.DenominatorsExact | src/Converter.tsx:65-68 | the denominators increase strictly, and k is listed exactly when its digit is '1' |
| Decoder.FractionEncoded | src/Converter.tsx:65-68 | `fractionEncoded` lists denominators within 1..23 only |
| Decoder.DenominatorsWeight | src/Converter.tsx:65-68 | the listed denominators' weights add up to the digits' value |
| Decoder.WeightConcat | src/Converter.tsx:69-71 | term weights add across concatenation |
| Decoder.FractionSum | src/Converter.tsx:69-71 | the `reduce` never goes below its start value, and stays there exactly when no term is listed |
| Decoder.FractionFloat | src/Converter.tsx:69-71 | `fractionFloat` is at least 1, and is 1 exactly when no term is listed |
| Decoder.FractionSumWeight | src/Converter.tsx:69-71 | the reduce equals its start plus the summed weights over 2^n |
| Decoder.Decomposition | src/Converter.tsx:60-68 | sign digit, exponent digits and fraction digits recompose the word |
| Decoder.SignIsTopBit | src/Converter.tsx:61-62 | the sign is '+' exactly when the word is below 2^31 |
| Decoder.ExponentIsWordField | src/Converter.tsx:63 | the biased exponent is bits 30..23 of the word |
| Decoder.FractionDigitsAreLowBits | src/Converter.tsx:65-66 | the fraction digits denote the low 23 bits of the word |
| Decoder.FractionTermsOrdered | src/Converter.tsx:65-68 | the denominators lie in 1..23 and increase |
| Decoder.FractionTermIsDigit | src/Converter.tsx:65-68 | denominator k is listed exactly when digit 8+k is '1' |
| Decoder.DigitOfWord | src/Converter.tsx:55-60 | digit i of `binaryVal` is bit 31-i of the word |
| Decoder.FractionTermIsBit | src/Converter.tsx:65-68 | denominator k is listed exactly when bit 23-k of the word is set |
| Decoder.FractionTermsAreBits | src/Converter.tsx:65-68 | `fractionEncoded` is increasing and lists exactly the set fraction bits |
| Decoder.FractionFloatValue | src/Converter.tsx:69-71 | `fractionFloat` is 1 + (low 23 bits)/2^23 |
| Decoder.NoTermsIffLowBitsClear | src/Converter.tsx:65-68 | no term is listed exactly when the low 23 bits are zero |
| Decoder.FractionFloatRange | src/Converter.tsx:69-71 | `fractionFloat` lies in [1, 2), and is 1 exactly when no term is listed and the low bits are zero |
| Decoder.Lossless | src/Converter.tsx:60-71 | sign, biased exponent and listed terms together give back the word |
| Decoder.NaNPatternFields | src/Converter.tsx:63-68 | a word is a NaN encoding exactly when its biased exponent is 255 and a term is listed |
| Decoder.ZeroWord | src/Converter.tsx:60-71 | the zero word decodes to '+', exponent -127, no terms, fraction 1 |
| Decoder.DecodeFields | src/Converter.tsx:60-71 | a word built from sign s, biased exponent e and fraction f decodes to exactly s, e and 1 + f/2^23 |
| Decoder.NearlyNineTenths | src/Converter.tsx:29 | the word 0x3F680000 decodes to '+', biased 126, exponent -1, fraction 1.8125 |
| Decoder.NearlyNineTenthsTerms | src/Converter.tsx:65-68 | in that word, denominators 1, 2 and 4 are listed and 3 is not |
| Decoder.Decode | src/Converter.tsx:55-71 | all derived fields at once: the digits denote the word, sign from bit 31, exponent from bits 30..23, the listed denominators increasing and exactly the set fraction bits, fraction value from bits 22..0 |
| Digits.ClassesMatchFields | src/Converter.tsx:155-163 | digit 0 is the sign, 1..8 the exponent, the rest the fraction, and each class's digit is the matching bit of that field |
| Digits.ExponentDigitIsBit | src/Converter.tsx:63 | exponent digit i is bit 8-i of the biased exponent |
| Digits.ClassOf | src/Converter.tsx:156-163 | digit 0 is the sign digit, digits 1..8 exponent digits, the rest fraction digits |
| Digits.NextFracIndex | src/Converter.tsx:95-106 | the index is -1 or a fraction index different from the current one, and a fraction digit not already shown is selected |
| Digits.HoverShowsDigitsTerm | src/Converter.tsx:95-106 | hovering fraction digit i shows denominator i-8, which is listed exactly when that digit is '1' |
| Digits.HoverToggles | src/Converter.tsx:97-102 | hovering the same digit again clears the annotation |
| Digits.NoAnnotationOutsideFraction | src/Converter.tsx:99 | hovering a sign or exponent digit clears the annotation |
| Controller.StoredBinary | src/Converter.tsx:46-53 | `setBinary` stores the digits' value mod 2^32, the value itself for up to 32 digits, and 0 for "" |
| Controller.FloatBits | src/Converter.tsx:116-118 | the word `setFloat(Number.parseFloat(text))` stores; for the empty text, a NaN encoding |
| Controller.Effects | src/Converter.tsx:112-118 | both texts take their new values; a changed decimal text's encoding is stored last, otherwise a changed binary text's value, otherwise the word is kept |
| Controller.Mount | src/Converter.tsx:27-37 | after mounting, the binary text is "", the decimal text is "0.90624999", and the store holds its encoding |
| Controller.FloatTextChange | src/Converter.tsx:73-76 | the binary text becomes "", the decimal text the typed one; a changed decimal text's encoding is stored, and an unchanged one keeps the word when no binary text was typed and stores 0 (`setBinary("")`) when a typed binary text is cleared |
| Controller.ClearingShownDecimalStoresZero | src/Converter.tsx:112-118 | after typing "101", clearing the decimal field stores 0 rather than a NaN encoding |
| Controller.BinaryTextChange | src/Converter.tsx:78-85 | the binary text becomes the normalised input and the decimal text ""; a non-empty previous decimal text makes the store hold `parseFloat("")`'s encoding, otherwise a changed binary text's value is stored |
| Controller.BinaryTextBlur | src/Converter.tsx:87-93 | the binary text becomes the padded input, the decimal text is kept, and a changed binary text's value is stored |
| Controller.DisplayedBinary | src/Converter.tsx:142 | the binary field shows the typed text when there is one, otherwise 32 digits denoting the stored word |
| Controller.StoredBinaryPadding | src/Converter.tsx:87-93 | the blurred text stores the same word as the live text |
| Controller.OneZeroOneStoresFive | src/Converter.tsx:46-53 | "101" and its blurred form both store 5 |
| Controller.StoredBinaryRoundTrip | src/Converter.tsx:46-58 | storing the displayed `binaryVal` writes the same word back |
| Controller.MountConsistent | src/Converter.tsx:27-37 | after mounting, the binary text is empty, the decimal text is the initial one, and the store holds its encoding |
| Controller.FloatEditKeepsConsistent | src/Converter.tsx:73-76 | a decimal edit keeps both typed texts consistent with the store |
| Controller.BlurKeepsConsistent | src/Converter.tsx:87-93 | leaving the binary field does not change the stored word and keeps both texts consistent |
| Controller.BinaryEditOverwritten | src/Converter.tsx:78-85 | as written, a binary edit while the decimal text is non-empty stores `parseFloat("")`'s encoding |
| Controller.FirstBinaryKeystrokeLost | src/Converter.tsx:112-118 | as written, typing "1" after mounting leaves a NaN encoding stored and the state inconsistent |
| Controller.GuardedBinaryEditKeepsConsistent | src/Converter.tsx:112-118 | with the guard, a binary edit stores its digits and keeps both texts consistent |
| Controller.GuardOnlyAffectsBinaryEdits | src/Converter.tsx:112-118 | the guard leaves decimal edits and blurs unchanged |
| Controller.TypingOneZeroOne | src/Converter.tsx:78-93 | typing "1", "10", "101" after mounting ends with 5 stored, and blurring keeps 5 |
| Controller.Converter.constructor | src/Converter.tsx:27-37 | the mounted component keeps the given platform, its state is `Mount`, and no hover annotation is shown |
| Controller.Converter.SetFloat | src/Converter.tsx:39-44 | the store holds the number's binary32 encoding |
| Controller.Converter.SetBinary | src/Converter.tsx:46-53 | the store holds `StoredBinary` of the text |
| Controller.Converter.RunEffects | src/Converter.tsx:112-118 | binary effect then float effect, each only when its text changed |
| Controller.Converter.OnFloatTextChange | src/Converter.tsx:73-76 | the new state is `FloatTextChange` of the old, the hover index unchanged |
| Controller.Converter.OnBinaryTextChange | src/Converter.tsx:78-85 | the new state is `BinaryTextChange` of the old, the hover index unchanged |
| Controller.Converter.OnBinaryTextBlur | src/Converter.tsx:87-93 | the new state is `BinaryTextBlur` of the old, the hover index unchanged |
| Controller.Converter.OnDigitOver | src/Converter.tsx:95-106 | the hover index becomes `NextFracIndex` of the old index and the digit |
| Controller.Converter.OnDigitLeave | src/Converter.tsx:108-110 | the hover index becomes -1 |
| Controller.Converter.Derive | src/Converter.tsx:55-71 | the derived fields are `Decode` of the stored word |

## Left out

- `Number.parseFloat` and the rounding `setFloat32` performs are parameters of the model; `getFloat32` is not modelled (see next line). `JsPlatform` assumes only that "" parses to NaN and that NaN is stored as a NaN encoding.
- `floatVal` and the texts printed from it are not modelled. This covers the decimal field's fallback (line 135), the read-only value field (line 147) and the result label with its "Exponent too big (NaN)" text (line 214). They need the float decoding, which is a platform conversion.
- Binary.ParseInt2, Controller.StoredBinary: the digits' value is exact only up to 53 digits, and `StoredBinary` requires at most 53. Beyond that, `parseInt` rounds to a double, and the model does not capture that rounding. Wrap-around between 33 and 53 digits is modelled.
- Controller.Converter.OnBinaryTextChange: requires a text of at most 53 characters, for the same reason.
- Controller.Converter.OnBinaryTextBlur: requires a text of at most 53 characters, for the same reason.
- Normaliser.Normalise: a character outside the Basic Multilingual Plane (an emoji, say) is one `char` in the model, but `split("")` yields its two UTF-16 code units, each of which becomes '1'. For "😀" the source keeps "11" and the model "1".
- Normaliser.BlurText: for the same reason, `padStart` counts a non-BMP character as two code units in the source and one in the model. "😀" blurs to 30 zeros and "11" in the source, 31 zeros and "1" in the model, so the stored word is 3 in the source and 1 in the model. Texts made only of BMP characters behave identically.
- `parseInt`'s handling of whitespace, signs and non-digits is left out. The binary text reaching it is always 0/1 after normalising.
- The JSX markup, CSS classes, the `Frac` component and the 23 header cells (lines 11-24, 120-218) are left out. Only the digit classes and the hover index are modelled, along with the binary field's `typedBinary || binaryVal` (as `DisplayedBinary`).
- React's render scheduling is left out. A transition applies the handler's state updates and then both effects, in declaration order, compared with the previous render's texts.
- The `setState({...state})` copies only force a re-render, so they are left out.
- `fractionEncoded` keeps `{digit, denom}` records in the source. The model keeps the denominators alone, because every listed record has digit "1".
- Negative zero, infinities and NaN are constructors of `Number` only. Their encodings come from the platform.
- The code does not cap the binary text's length; the model follows it up to 53 digits (see above).

## Findings

| source | as written | input that shows it | evidently intended | confidence | as-written member | corrected member |
|---|---|---|---|---|---|---|
| src/Converter.tsx:83-84, 112-118 | a binary keystroke clears `typedFloat`, so the float effect runs after the binary effect and stores `parseFloat("")` (NaN), overwriting the typed digits | mount, then type "1" in the binary field: the field shows "1" but the store and every digit below hold a NaN encoding | the typed binary digits are what the store holds | not executed | Controller.FirstBinaryKeystrokeLost | Controller.GuardedBinaryEditKeepsConsistent |
