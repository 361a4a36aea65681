/** Base-2 text and 32-bit words: the JavaScript primitives the converter is
    built from (`Number.parseInt(s, 2)`, `Number.prototype.toString(2)`,
    `String.prototype.padStart`), stated over unbounded integers. */
module Binary {

  /** The value of `parseInt` when it finds no digit at all (NaN), or a number. */
  datatype Option<T> = None | Some(value: T)

  /** An unsigned 32-bit integer, as `DataView.getUint32` returns it. */
  type Word = x: nat | x < 0x1_0000_0000

  function Pow2(n: nat): (r: nat)
    ensures r >= 1
  {
    if n == 0 then 1 else 2 * Pow2(n - 1)
  }

  lemma {:induction false} Pow2Add(a: nat, b: nat)
    ensures Pow2(a + b) == Pow2(a) * Pow2(b)
  {
    if a > 0 {
      Pow2Add(a - 1, b);
    }
  }

  lemma {:induction false} Pow2Monotone(a: nat, b: nat)
    requires a <= b
    ensures Pow2(a) <= Pow2(b)
  {
    if a < b {
      Pow2Monotone(a, b - 1);
    }
  }

  lemma {:induction false} MulAtLeast(k: nat, d: nat)
    requires k >= 1
    ensures k * d >= d
  {
    if k > 1 {
      MulAtLeast(k - 1, d);
      assert k * d == (k - 1) * d + d;
    }
  }

  /** Division by a positive number has one quotient and one remainder. */
  lemma DivModUnique(n: int, d: int, q: int, r: int)
    requires d > 0 && 0 <= r < d && n == q * d + r
    ensures n / d == q && n % d == r
  {
    var q', r' := n / d, n % d;
    assert n == q' * d + r';
    if q' < q {
      assert (q - q') * d == r' - r;
      MulAtLeast(q - q', d);
    } else if q' > q {
      assert (q' - q) * d == r - r';
      MulAtLeast(q' - q, d);
    }
  }

  predicate IsBinary(s: string) {
    forall i :: 0 <= i < |s| ==> s[i] == '0' || s[i] == '1'
  }

  function DigitValue(c: char): nat {
    if c == '1' then 1 else 0
  }

  function Digit(b: nat): char
    requires b < 2
  {
    if b == 1 then '1' else '0'
  }

  /** The number a 0/1 string denotes in base 2, most significant digit first. */
  function BinValue(s: string): (v: nat)
    requires IsBinary(s)
    ensures v < Pow2(|s|)
    decreases |s|
  {
    if s == [] then 0 else 2 * BinValue(s[..|s| - 1]) + DigitValue(s[|s| - 1])
  }

  /** `Number.parseInt(s, 2)` on a 0/1 string: NaN (None) when there is no
      digit. The value is exact up to 53 digits, which is all the converter
      passes it here. */
  function ParseInt2(s: string): (r: Option<nat>)
    requires IsBinary(s)
    ensures r.None? <==> s == []
    ensures r.Some? ==> r.value == BinValue(s) && r.value < Pow2(|s|)
  {
    if s == [] then None else Some(BinValue(s))
  }

  /** `Number.prototype.toString(2)` on a non-negative integer: no leading zeros, "0" for 0. */
  function ToBase2(n: nat): (r: string)
    ensures IsBinary(r) && |r| >= 1
    ensures r[0] == '1' || n == 0
    decreases n
  {
    if n < 2 then [Digit(n)] else ToBase2(n / 2) + [Digit(n % 2)]
  }

  function Repeat(c: char, k: nat): (r: string)
    ensures |r| == k && forall i :: 0 <= i < k ==> r[i] == c
  {
    seq(k, _ => c)
  }

  /** `s.padStart(n, [c])`: prefixes copies of `c` until the length reaches `n`. */
  function PadStart(s: string, n: nat, c: char): (r: string)
    ensures |r| == if |s| >= n then |s| else n
    ensures r[|r| - |s|..] == s
    ensures forall i :: 0 <= i < |r| - |s| ==> r[i] == c
  {
    if |s| >= n then s else Repeat(c, n - |s|) + s
  }

  /** Splitting a digit string splits its value. */
  lemma {:induction false} BinValueConcat(a: string, b: string)
    requires IsBinary(a) && IsBinary(b)
    ensures IsBinary(a + b)
    ensures BinValue(a + b) == BinValue(a) * Pow2(|b|) + BinValue(b)
    decreases |b|
  {
    var ab := a + b;
    assert IsBinary(ab);
    if b == [] {
      assert ab == a;
    } else {
      var b' := b[..|b| - 1];
      assert ab[..|ab| - 1] == a + b' && ab[|ab| - 1] == b[|b| - 1];
      BinValueConcat(a, b');
      ShiftDigit(BinValue(a), Pow2(|b'|), BinValue(b'), DigitValue(b[|b| - 1]));
    }
  }

  lemma ShiftDigit(x: int, p: int, y: int, d: int)
    ensures 2 * (x * p + y) + d == x * (2 * p) + (2 * y + d)
  {
  }

  lemma {:induction false} ZerosValue(k: nat)
    ensures IsBinary(Repeat('0', k)) && BinValue(Repeat('0', k)) == 0
  {
    if k > 0 {
      assert Repeat('0', k)[..k - 1] == Repeat('0', k - 1);
      ZerosValue(k - 1);
    }
  }

  /** Leading '0' digits do not change the value. */
  lemma LeadingZeros(k: nat, s: string)
    requires IsBinary(s)
    ensures IsBinary(Repeat('0', k) + s)
    ensures BinValue(Repeat('0', k) + s) == BinValue(s)
  {
    ZerosValue(k);
    BinValueConcat(Repeat('0', k), s);
  }

  lemma {:induction false} ToBase2Value(n: nat)
    ensures BinValue(ToBase2(n)) == n
    decreases n
  {
    if n >= 2 {
      var t := ToBase2(n / 2) + [Digit(n % 2)];
      assert t[..|t| - 1] == ToBase2(n / 2);
      ToBase2Value(n / 2);
    }
  }

  lemma {:induction false} ToBase2Length(n: nat, w: nat)
    requires 1 <= w && n < Pow2(w)
    ensures |ToBase2(n)| <= w
    decreases n
  {
    if n >= 2 {
      assert w >= 2;
      ToBase2Length(n / 2, w - 1);
    }
  }

  /** Two 0/1 strings of one length with one value are the same string. */
  lemma {:induction false} BinValueInjective(a: string, b: string)
    requires IsBinary(a) && IsBinary(b) && |a| == |b|
    requires BinValue(a) == BinValue(b)
    ensures a == b
    decreases |a|
  {
    if a != [] {
      var n := |a|;
      var da, db := DigitValue(a[n - 1]), DigitValue(b[n - 1]);
      DivModUnique(BinValue(a), 2, BinValue(a[..n - 1]), da);
      DivModUnique(BinValue(b), 2, BinValue(b[..n - 1]), db);
      BinValueInjective(a[..n - 1], b[..n - 1]);
      assert a[n - 1] == b[n - 1];
      assert a == a[..n - 1] + [a[n - 1]];
      assert b == b[..n - 1] + [b[n - 1]];
    }
  }

  /** Character `i` of a 0/1 string is bit `|s| - 1 - i` of its value. */
  lemma DigitIsBit(s: string, i: nat)
    requires IsBinary(s) && i < |s|
    ensures s[i] == '1' <==> (BinValue(s) / Pow2(|s| - 1 - i)) % 2 == 1
  {
    var head, tail := s[..i + 1], s[i + 1..];
    assert s == head + tail;
    BinValueConcat(head, tail);
    assert head == s[..i] + [s[i]];
    BinValueConcat(s[..i], [s[i]]);
    assert BinValue([s[i]]) == DigitValue(s[i]) by {
      assert [s[i]][..0] == [];
    }
    var q := BinValue(head);
    assert q == BinValue(s[..i]) * 2 + DigitValue(s[i]);
    DivModUnique(BinValue(s), Pow2(|tail|), q, BinValue(tail));
    DivModUnique(q, 2, BinValue(s[..i]), DigitValue(s[i]));
  }
}
