/**
 * The small part of JavaScript's string and number semantics that the
 * follower-count arithmetic relies on.
 *
 * A JavaScript string is a sequence of UTF-16 code units: `length`,
 * `padEnd` and indexing all count code units, so a character outside the
 * Basic Multilingual Plane (such as a coloured square emoji) occupies two.
 * Non-negative safe integers are modelled as `nat`; `toString` of such a
 * number is its plain decimal text.
 */
module JsText {
  import opened Arithmetic

  /** One UTF-16 code unit. */
  newtype CodeUnit = x: int | 0 <= x < 0x1_0000

  /** A JavaScript string value. */
  type JsString = seq<CodeUnit>

  // ---------------------------------------------------------------------
  // UTF-16 encoding of source text
  // ---------------------------------------------------------------------

  predicate IsHighSurrogate(u: CodeUnit) { 0xD800 <= u < 0xDC00 }
  predicate IsLowSurrogate(u: CodeUnit) { 0xDC00 <= u < 0xE000 }

  /** The code units that encode one Unicode scalar value. */
  function EncodeChar(c: char): (r: JsString)
    ensures c as int < 0x1_0000 ==> r == [c as int as CodeUnit]
    ensures c as int >= 0x1_0000 ==>
      && |r| == 2 && IsHighSurrogate(r[0]) && IsLowSurrogate(r[1])
      && 0x1_0000 + (r[0] as int - 0xD800) * 0x400 + (r[1] as int - 0xDC00) == c as int
  {
    var v := c as int;
    if v < 0x1_0000 then [v as CodeUnit]
    else
      var w := v - 0x1_0000;
      [(0xD800 + w / 0x400) as CodeUnit, (0xDC00 + w % 0x400) as CodeUnit]
  }

  /** The JavaScript string value of a literal written in the source. */
  function Utf16(s: string): JsString
  {
    if s == [] then [] else EncodeChar(s[0]) + Utf16(s[1..])
  }

  lemma {:induction false} Utf16Append(a: string, b: string)
    ensures Utf16(a + b) == Utf16(a) + Utf16(b)
  {
    if a == [] {
      assert a + b == b;
    } else {
      var ab := a + b;
      assert ab[0] == a[0] && ab[1..] == a[1..] + b;
      Utf16Append(a[1..], b);
      assert Utf16(ab) == EncodeChar(a[0]) + (Utf16(a[1..]) + Utf16(b));
    }
  }

  lemma Utf16OfChar(c: char)
    ensures Utf16([c]) == EncodeChar(c)
  {
    assert [c][1..] == [];
  }

  /** Text inside the Basic Multilingual Plane takes one code unit per character. */
  lemma {:induction false} Utf16Bmp(s: string)
    requires forall i :: 0 <= i < |s| ==> s[i] as int < 0x1_0000
    ensures |Utf16(s)| == |s|
    ensures forall i :: 0 <= i < |s| ==> Utf16(s)[i] as int == s[i] as int
  {
    if s != [] {
      Utf16Bmp(s[1..]);
      assert Utf16(s) == [s[0] as int as CodeUnit] + Utf16(s[1..]);
    }
  }

  /** Code units that match a BMP text character for character are its encoding. */
  lemma Utf16OfBmpText(s: string, u: JsString)
    requires |u| == |s|
    requires forall i :: 0 <= i < |s| ==> s[i] as int < 0x1_0000 && u[i] as int == s[i] as int
    ensures u == Utf16(s)
  {
    Utf16Bmp(s);
  }

  // ---------------------------------------------------------------------
  // Decimal text of non-negative integers (Number.prototype.toString)
  // ---------------------------------------------------------------------

  function Pow10(k: nat): (r: nat)
    ensures r >= 1
  {
    if k == 0 then 1 else 10 * Pow10(k - 1)
  }

  predicate IsDigit(u: CodeUnit) { 0x30 <= u <= 0x39 }

  predicate AllDigits(s: JsString) { forall i :: 0 <= i < |s| ==> IsDigit(s[i]) }

  function Digit(d: nat): (u: CodeUnit)
    requires d < 10
    ensures IsDigit(u) && u as int - 0x30 == d
  {
    (0x30 + d) as CodeUnit
  }

  /** `n.toString()` for a non-negative integer: decimal digits, no leading zero. */
  function DecimalString(n: nat): (r: JsString)
    ensures 1 <= |r| && AllDigits(r)
    ensures |r| > 1 ==> r[0] != 0x30
  {
    if n < 10 then [Digit(n)] else DecimalString(n / 10) + [Digit(n % 10)]
  }

  /** Reads a string of decimal digits back as a number. */
  function ParseDecimal(s: JsString): nat
    requires AllDigits(s)
  {
    if s == [] then 0
    else ParseDecimal(s[..|s| - 1]) * 10 + (s[|s| - 1] as int - 0x30)
  }

  /** `int.toString().length` */
  function NumDigits(n: nat): nat
  {
    |DecimalString(n)|
  }

  // ---------------------------------------------------------------------
  // String.prototype.repeat and String.prototype.padEnd
  // ---------------------------------------------------------------------

  /** `s.repeat(k)` */
  function Repeat(s: JsString, k: nat): (r: JsString)
    ensures |r| == k * |s|
  {
    if k == 0 then [] else s + Repeat(s, k - 1)
  }

  /** The first `len` code units of `filler` repeated without end. */
  function FillerPrefix(filler: JsString, len: nat): (r: JsString)
    requires filler != []
    ensures |r| == len
    ensures forall i :: 0 <= i < len ==> r[i] == filler[i % |filler|]
    decreases len
  {
    ModAfterOnePeriod(|filler|);
    if len <= |filler| then filler[..len]
    else filler + FillerPrefix(filler, len - |filler|)
  }

  /**
   * `s.padEnd(maxLength, filler)`: when `s` is shorter than `maxLength`,
   * append copies of `filler`, the last one cut short, up to `maxLength`
   * code units; otherwise, or when the filler is empty, `s` unchanged.
   */
  function PadEnd(s: JsString, maxLength: nat, filler: JsString): (r: JsString)
    ensures |r| == if maxLength <= |s| || filler == [] then |s| else maxLength
    ensures r[..|s|] == s
    ensures !(maxLength <= |s| || filler == []) ==>
      forall i :: |s| <= i < |r| ==> r[i] == filler[(i - |s|) % |filler|]
  {
    if maxLength <= |s| || filler == [] then s
    else s + FillerPrefix(filler, maxLength - |s|)
  }

  // ---------------------------------------------------------------------
  // Lemmas
  // ---------------------------------------------------------------------

  lemma {:induction false} Pow10Add(a: nat, b: nat)
    ensures Pow10(a + b) == Pow10(a) * Pow10(b)
  {
    if a > 0 {
      Pow10Add(a - 1, b);
      assert Pow10(a + b) == 10 * Pow10(a - 1 + b);
    }
  }

  lemma {:induction false} Pow10Monotonic(a: nat, b: nat)
    requires a <= b
    ensures Pow10(a) <= Pow10(b)
    ensures a < b ==> Pow10(a) < Pow10(b)
  {
    if a < b {
      Pow10Monotonic(a, b - 1);
    }
  }

  /** Reading the decimal text of `n` gives back `n`. */
  lemma {:induction false} DecimalRoundTrip(n: nat)
    ensures ParseDecimal(DecimalString(n)) == n
  {
    var s := DecimalString(n);
    if n >= 10 {
      DecimalRoundTrip(n / 10);
      assert s[..|s| - 1] == DecimalString(n / 10);
    }
  }

  /** The decimal text of `n` has `d` digits exactly when `10^(d-1) <= n < 10^d` (and `n == 0` has one). */
  lemma {:induction false} NumDigitsBounds(n: nat)
    ensures n < Pow10(NumDigits(n))
    ensures n >= 1 ==> Pow10(NumDigits(n) - 1) <= n
  {
    if n >= 10 {
      NumDigitsBounds(n / 10);
      assert NumDigits(n) == NumDigits(n / 10) + 1;
    }
  }

  /** The digit count is determined by the magnitude of `n`. */
  lemma NumDigitsOfMagnitude(n: nat, d: nat)
    requires 1 <= d
    requires Pow10(d - 1) <= n < Pow10(d)
    ensures NumDigits(n) == d
  {
    NumDigitsBounds(n);
    var k := NumDigits(n);
    if k < d {
      Pow10Monotonic(k, d - 1);
      assert false;
    } else if k > d {
      Pow10Monotonic(d, k - 1);
      assert false;
    }
  }

  /** Each code unit of `s.repeat(k)` is the matching code unit of `s`. */
  lemma {:induction false} RepeatAt(s: JsString, k: nat, j: nat, t: nat)
    requires j < k && t < |s|
    ensures j * |s| + t < k * |s| && Repeat(s, k)[j * |s| + t] == s[t]
  {
    assert k * |s| == (k - 1) * |s| + |s|;
    if j > 0 {
      RepeatAt(s, k - 1, j - 1, t);
      assert j * |s| + t == (j - 1) * |s| + t + |s|;
    }
  }

  /** Padding by whole copies of the filler appends exactly `filler.repeat(k)`. */
  lemma {:induction false} FillerPrefixWhole(filler: JsString, k: nat)
    requires filler != []
    ensures FillerPrefix(filler, k * |filler|) == Repeat(filler, k)
  {
    if k > 1 {
      FillerPrefixWhole(filler, k - 1);
      assert k * |filler| - |filler| == (k - 1) * |filler|;
    } else if k == 1 {
      assert filler[..|filler|] == filler;
    }
  }

  lemma PadEndWhole(s: JsString, filler: JsString, k: nat)
    requires filler != [] && k > 0
    ensures PadEnd(s, |s| + k * |filler|, filler) == s + Repeat(filler, k)
  {
    FillerPrefixWhole(filler, k);
  }
}
