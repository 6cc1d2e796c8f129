/**
 * Checkpoint arithmetic of the follower counter (index.js:17-64).
 *
 * A count is written with its leading group of one to three digits and a
 * `k`, `M` or `B` suffix, and it is bracketed between two round numbers
 * (checkpoints): below 1000 the round numbers are the hundreds, from 1000
 * up they are the multiples of `10^unit`, where `unit` is the exponent that
 * leaves the leading group.
 */
module Checkpoints {
  import opened Options
  import opened Arithmetic
  import opened JsText

  // ---------------------------------------------------------------------
  // The operations
  // ---------------------------------------------------------------------

  /** `numOfDigits % 3 || 3`: the width of the leading digit group. */
  function LeadWidth(d: nat): (w: nat)
    ensures 1 <= w <= 3
    ensures (d - w) % 3 == 0
    ensures 1 <= d ==> w <= d
  {
    if d % 3 == 0 then 3 else d % 3
  }

  /** `unit = numOfDigits - (numOfDigits % 3 || 3)`: the decimal exponent below the leading group. */
  function Unit(n: nat): (u: nat)
    ensures u % 3 == 0
  {
    NumDigits(n) - LeadWidth(NumDigits(n))
  }

  /** `" kMB"[i]`: a one-letter string, or `None` for `undefined` past the four letters. */
  function UnitSuffix(i: nat): Option<JsString>
  {
    if i < 4 then Some([Utf16(" kMB")[i]]) else None
  }

  /** `Math.floor(int / Math.pow(10, unit))`: the leading digit group. */
  function LeadingGroup(n: nat): nat
  {
    DivNonnegative(n, Pow10(Unit(n)));
    n / Pow10(Unit(n))
  }

  /**
   * `abbreviateInt(n)`, as the text it contributes to the location. A
   * number plus a one-letter string is their concatenation; a number plus
   * `undefined` is the number `NaN`, printed as `NaN`.
   */
  function AbbreviateInt(n: nat): JsString
  {
    if n < 1000 then DecimalString(n)
    else
      match UnitSuffix(Unit(n) / 3)
      case Some(letter) => DecimalString(LeadingGroup(n)) + letter
      case None => Utf16("NaN")
  }

  /** `previousCheckpoint(n)` */
  function PreviousCheckpoint(n: nat): nat
  {
    if n < 100 then 0
    else if n < 1000 then (n / 100) * 100
    else
      var num := LeadingGroup(n);
      LeadingGroupWidth(n);
      num * Pow10(NumDigits(n) - NumDigits(num))
  }

  /** `nextCheckpoint(n)` */
  function NextCheckpoint(n: nat): nat
  {
    if n < 100 then 100
    else if n < 1000 then (n / 100 + 1) * 100
    else
      var num := LeadingGroup(n);
      LeadingGroupWidth(n);
      (num + 1) * Pow10(NumDigits(n) - NumDigits(num))
  }

  // ---------------------------------------------------------------------
  // Reference definitions
  // ---------------------------------------------------------------------

  /** The rounding step at the magnitude of `n`: hundreds below 1000, else `10^unit`. */
  function Granularity(n: nat): nat
  {
    if n < 1000 then 100 else Pow10(Unit(n))
  }

  /** A round number at its own magnitude: a checkpoint. */
  predicate IsCheckpoint(c: nat)
  {
    c % Granularity(c) == 0
  }

  /** The value an abbreviation stands for: digits, optionally followed by `k`, `M` or `B`. */
  function ReadAbbreviation(s: JsString): Option<nat>
  {
    if |s| >= 2 && AllDigits(s[..|s| - 1]) && s[|s| - 1] in SuffixValue then
      Some(ParseDecimal(s[..|s| - 1]) * SuffixValue[s[|s| - 1]])
    else if |s| >= 1 && AllDigits(s) then
      Some(ParseDecimal(s))
    else
      None
  }

  /** `k`, `M` and `B` as multipliers. */
  const SuffixValue: map<CodeUnit, nat> :=
    map[0x6B := 1_000, 0x4D := 1_000_000, 0x42 := 1_000_000_000]

  // ---------------------------------------------------------------------
  // Digit counts
  // ---------------------------------------------------------------------

  lemma NumDigitsTimes10(x: nat)
    requires x >= 1
    ensures NumDigits(x * 10) == NumDigits(x) + 1
  {
    assert (x * 10) / 10 == x;
  }

  /** Appending `u` zeros to a positive number adds `u` digits. */
  lemma {:induction false} NumDigitsScaled(m: nat, u: nat)
    requires m >= 1
    ensures NumDigits(m * Pow10(u)) == NumDigits(m) + u
  {
    if u > 0 {
      var q := Pow10(u - 1);
      var x := m * q;
      NumDigitsScaled(m, u - 1);
      assert NumDigits(x) == NumDigits(m) + u - 1;
      MulLe(1, m, q);
      NumDigitsTimes10(x);
      assert Pow10(u) == q * 10;
      Associate(m, q, 10);
    }
  }

  /** A number below `10^k` has at most `k` digits. */
  lemma NumDigitsBelow(n: nat, k: nat)
    requires 1 <= k && n < Pow10(k)
    ensures NumDigits(n) <= k
  {
    NumDigitsBounds(n);
    if NumDigits(n) > k {
      Pow10Monotonic(k, NumDigits(n) - 1);
    }
  }

  // ---------------------------------------------------------------------
  // The leading group
  // ---------------------------------------------------------------------

  /** A number of `u + w` digits divided by `10^u` leaves a quotient of `w` digits. */
  lemma GroupDigits(n: nat, u: nat, w: nat)
    requires 1 <= w
    requires Pow10(u + w - 1) <= n < Pow10(u + w)
    ensures Pow10(w - 1) <= n / Pow10(u) < Pow10(w)
  {
    var p, lo, hi := Pow10(u), Pow10(w - 1), Pow10(w);
    Pow10Add(u, w);
    Pow10Add(u, w - 1);
    assert Pow10(u + w - 1) == p * lo;
    assert Pow10(u + w) == p * hi;
    DivBounds(n, p, lo, hi);
  }

  /** Counts from 1000 up are exactly those with at least four digits, and those with a positive unit. */
  lemma UnitFrom1000(n: nat)
    ensures n >= 1000 <==> NumDigits(n) >= 4
    ensures n >= 1000 <==> Unit(n) >= 3
  {
    var d := NumDigits(n);
    NumDigitsBounds(n);
    // Compare the magnitude with 10^3 on whichever side `d` falls.
    Pow10Monotonic(if d <= 3 then d else 3, 3);
    Pow10Monotonic(3, if d >= 4 then d - 1 else 3);
  }

  /** The leading group has `LeadWidth` digits: so `num.toString().length` is `numOfDigits - unit`. */
  lemma LeadingGroupWidth(n: nat)
    ensures NumDigits(LeadingGroup(n)) == LeadWidth(NumDigits(n))
    ensures LeadingGroup(n) < 1000
    ensures n >= 1 ==> 1 <= LeadingGroup(n)
    ensures n >= 1000 <==> Unit(n) >= 3
  {
    var d := NumDigits(n);
    var w := LeadWidth(d);
    var u := Unit(n);
    var g := n / Pow10(u);
    assert u + w == d;
    if n == 0 {
      assert g == 0;
    } else {
      NumDigitsBounds(n);
      GroupDigits(n, u, w);
      NumDigitsOfMagnitude(g, w);
      Pow10Monotonic(0, w - 1);
    }
    Pow10Monotonic(w, 3);
    UnitFrom1000(n);
  }

  /**
   * Every number between `g * 10^u` and `(g + 1) * 10^u`, for a group `g` of
   * one to three digits and `u` a positive multiple of 3, has unit `u` and
   * leading group `g`.
   */
  lemma GroupOfBracket(g: nat, u: nat, c: nat)
    requires 1 <= g < 1000 && u >= 3 && u % 3 == 0
    requires g * Pow10(u) <= c < (g + 1) * Pow10(u)
    ensures c >= 1000 && Unit(c) == u && c / Pow10(u) == g
  {
    NumDigitsBelow(g, 3);
    ScaledMagnitude(g, u, c);
    UnitOfMagnitude(c, NumDigits(g), u);
    DivBetween(c, Pow10(u), g);
  }

  /** A number of `w + u` digits, `w` from 1 to 3 and `u` a positive multiple of 3, has unit `u`. */
  lemma UnitOfMagnitude(c: nat, w: nat, u: nat)
    requires 1 <= w <= 3 && u >= 3 && u % 3 == 0
    requires Pow10(w - 1 + u) <= c < Pow10(w + u)
    ensures c >= 1000 && Unit(c) == u
  {
    NumDigitsOfMagnitude(c, w + u);
    assert LeadWidth(w + u) == w;
    Pow10Monotonic(3, w - 1 + u);
  }

  /** Between `g * 10^u` and `(g + 1) * 10^u` lie only numbers of `u` more digits than `g`. */
  lemma ScaledMagnitude(g: nat, u: nat, c: nat)
    requires 1 <= g
    requires g * Pow10(u) <= c < (g + 1) * Pow10(u)
    ensures Pow10(NumDigits(g) - 1 + u) <= c < Pow10(NumDigits(g) + u)
  {
    var p := Pow10(u);
    var w := NumDigits(g);
    NumDigitsBounds(g);
    MulLe(Pow10(w - 1), g, p);
    MulLe(g + 1, Pow10(w), p);
    Pow10Add(w - 1, u);
    Pow10Add(w, u);
  }

  /**
   * From 1000 up, the checkpoints are the leading group and its successor,
   * scaled back by `10^unit`.
   */
  lemma CheckpointsOfGroup(n: nat)
    requires n >= 1000
    ensures var p := Pow10(Unit(n)); var g := LeadingGroup(n);
      && Unit(n) >= 3 && 1 <= g < 1000
      && PreviousCheckpoint(n) == g * p
      && NextCheckpoint(n) == (g + 1) * p
      && g * p <= n < (g + 1) * p
  {
    LeadingGroupWidth(n);
    var u := Unit(n);
    var p := Pow10(u);
    var g := LeadingGroup(n);
    assert NumDigits(n) - NumDigits(g) == u;
    assert PreviousCheckpoint(n) == g * Pow10(u);
    assert NextCheckpoint(n) == (g + 1) * Pow10(u);
    QuotientBounds(n, p);
  }

  /** From 1000 up, `n` lies in `[10^unit, 10^(unit+3))`. */
  lemma UnitMagnitude(n: nat)
    requires n >= 1000
    ensures Pow10(Unit(n)) <= n < Pow10(Unit(n) + 3)
  {
    var d := NumDigits(n);
    var u := Unit(n);
    LeadingGroupWidth(n);
    NumDigitsBounds(n);
    Pow10Monotonic(u, d - 1);
    Pow10Monotonic(d, u + 3);
  }

  lemma ScaledMultipleOf100(g: nat, u: nat)
    requires u >= 2
    ensures (g * Pow10(u)) % 100 == 0
  {
    var k := g * Pow10(u - 2);
    Pow10Add(2, u - 2);
    Associate(g, Pow10(u - 2), 100);
    assert g * Pow10(u) == k * 100;
    MultipleOfItself(k, 100);
  }

  // ---------------------------------------------------------------------
  // Properties
  // ---------------------------------------------------------------------

  /**
   * `previousCheckpoint(n) <= n < nextCheckpoint(n)`; the two are one
   * granularity apart (100, or `10^unit` with `unit` a positive multiple of
   * 3), and both are multiples of 100.
   */
  lemma Bracketing(n: nat)
    ensures PreviousCheckpoint(n) <= n < NextCheckpoint(n)
    ensures NextCheckpoint(n) - PreviousCheckpoint(n) == Granularity(n)
    ensures n < 1000 ==> Granularity(n) == 100
    ensures n >= 1000 ==> Granularity(n) == Pow10(Unit(n)) && Unit(n) >= 3 && Unit(n) % 3 == 0
    ensures PreviousCheckpoint(n) % 100 == 0 && NextCheckpoint(n) % 100 == 0
  {
    if n >= 1000 {
      CheckpointsOfGroup(n);
      var u := Unit(n);
      var g := n / Pow10(u);
      ScaledMultipleOf100(g, u);
      ScaledMultipleOf100(g + 1, u);
    }
  }

  /** Every count in `[previousCheckpoint(n), nextCheckpoint(n))` has the same checkpoints and leading group as `n`. */
  lemma SameBracket(n: nat, c: nat)
    requires PreviousCheckpoint(n) <= c < NextCheckpoint(n)
    ensures PreviousCheckpoint(c) == PreviousCheckpoint(n)
    ensures NextCheckpoint(c) == NextCheckpoint(n)
    ensures n >= 1000 ==> c >= 1000 && Unit(c) == Unit(n) && LeadingGroup(c) == LeadingGroup(n)
  {
    if n < 100 {
    } else if n < 1000 {
      DivBetween(c, 100, n / 100);
    } else {
      CheckpointsOfGroup(n);
      var u := Unit(n);
      var g := n / Pow10(u);
      GroupOfBracket(g, u, c);
      CheckpointsOfGroup(c);
    }
  }

  /** The checkpoints are exactly the fixed points of `previousCheckpoint`. */
  lemma CheckpointIsFixedPoint(c: nat)
    ensures IsCheckpoint(c) <==> PreviousCheckpoint(c) == c
  {
    if c >= 1000 {
      CheckpointsOfGroup(c);
      MultipleIff(c, Pow10(Unit(c)));
    }
  }

  /** `previousCheckpoint(n)` is the greatest checkpoint not above `n`. */
  lemma PreviousIsGreatestCheckpoint(n: nat, c: nat)
    ensures IsCheckpoint(PreviousCheckpoint(n)) && PreviousCheckpoint(n) <= n
    ensures IsCheckpoint(c) && c <= n ==> c <= PreviousCheckpoint(n)
  {
    Bracketing(n);
    SameBracket(n, PreviousCheckpoint(n));
    CheckpointIsFixedPoint(PreviousCheckpoint(n));
    if IsCheckpoint(c) && PreviousCheckpoint(n) < c <= n {
      SameBracket(n, c);
      CheckpointIsFixedPoint(c);
    }
  }

  /** `nextCheckpoint(n)` is the least checkpoint above `n`. */
  lemma NextIsLeastCheckpoint(n: nat, c: nat)
    ensures IsCheckpoint(NextCheckpoint(n)) && n < NextCheckpoint(n)
    ensures IsCheckpoint(c) && n < c ==> NextCheckpoint(n) <= c
  {
    Bracketing(n);
    NextIsCheckpoint(n);
    if IsCheckpoint(c) && n < c < NextCheckpoint(n) {
      SameBracket(n, c);
      CheckpointIsFixedPoint(c);
    }
  }

  /** A group of one to three digits scaled by `10^u` is a checkpoint. */
  lemma ScaledIsCheckpoint(m: nat, u: nat)
    requires 1 <= m < 1000 && u >= 3 && u % 3 == 0
    ensures IsCheckpoint(m * Pow10(u))
  {
    var p := Pow10(u);
    GroupOfBracket(m, u, m * p);
    MultipleOfItself(m, p);
  }

  /** A thousand times `10^u`, for `u` a multiple of 3, is a checkpoint. */
  lemma ThousandIsCheckpoint(u: nat)
    requires u % 3 == 0
    ensures IsCheckpoint(1000 * Pow10(u))
  {
    var c := 1000 * Pow10(u);
    Pow10Add(3, u);
    assert Pow10(3) == 1000;
    assert c == 1 * Pow10(u + 3);
    ScaledIsCheckpoint(1, u + 3);
  }

  lemma NextIsCheckpoint(n: nat)
    ensures IsCheckpoint(NextCheckpoint(n))
  {
    if n < 1000 {
      NextIsCheckpointBelow1000(n);
    } else {
      NextIsCheckpointFrom1000(n);
    }
  }

  lemma NextIsCheckpointBelow1000(n: nat)
    requires n < 1000
    ensures IsCheckpoint(NextCheckpoint(n))
  {
    if NextCheckpoint(n) == 1000 {
      ScaledIsCheckpoint(1, 3);
    }
  }

  lemma NextIsCheckpointFrom1000(n: nat)
    requires n >= 1000
    ensures IsCheckpoint(NextCheckpoint(n))
  {
    CheckpointsOfGroup(n);
    var u := Unit(n);
    var m := LeadingGroup(n) + 1;
    var c := NextCheckpoint(n);
    assert c == m * Pow10(u);
    if m < 1000 {
      ScaledIsCheckpoint(m, u);
    } else {
      assert c == 1000 * Pow10(u);
      ThousandIsCheckpoint(u);
    }
  }

  /** `previousCheckpoint` is idempotent. */
  lemma PreviousIdempotent(n: nat)
    ensures PreviousCheckpoint(PreviousCheckpoint(n)) == PreviousCheckpoint(n)
  {
    Bracketing(n);
    SameBracket(n, PreviousCheckpoint(n));
  }

  /**
   * From 1000 up, every count of a bracket is abbreviated alike; in
   * particular `abbreviateInt(previousCheckpoint(n)) == abbreviateInt(n)`.
   */
  lemma AbbreviateConstantOnBracket(n: nat, c: nat)
    requires n >= 1000
    requires PreviousCheckpoint(n) <= c < NextCheckpoint(n)
    ensures AbbreviateInt(c) == AbbreviateInt(n)
  {
    SameBracket(n, c);
  }

  lemma AbbreviatePrevious(n: nat)
    requires n >= 1000
    ensures AbbreviateInt(PreviousCheckpoint(n)) == AbbreviateInt(n)
  {
    Bracketing(n);
    AbbreviateConstantOnBracket(n, PreviousCheckpoint(n));
  }

  /** The three suffixes in use. */
  lemma SuffixLetters()
    ensures UnitSuffix(1) == Some(Utf16("k")) && UnitSuffix(2) == Some(Utf16("M"))
    ensures UnitSuffix(3) == Some(Utf16("B"))
  {
    Utf16OfBmpText(" kMB", [0x20, 0x6B, 0x4D, 0x42]);
    Utf16OfBmpText("k", [0x6B]);
    Utf16OfBmpText("M", [0x4D]);
    Utf16OfBmpText("B", [0x42]);
  }

  /** Below 10^12 the unit is 3, 6 or 9, chosen by the magnitude of `n`. */
  lemma UnitByMagnitude(n: nat)
    requires 1000 <= n < Pow10(12)
    ensures Unit(n) == if n < Pow10(6) then 3 else if n < Pow10(9) then 6 else 9
  {
    if n < Pow10(6) {
      UnitIs(n, 3);
    } else if n < Pow10(9) {
      UnitIs(n, 6);
    } else {
      UnitIs(n, 9);
    }
  }

  /** A count in `[10^e, 10^(e+3))`, for `e` a positive multiple of 3, has unit `e`. */
  lemma UnitIs(n: nat, e: nat)
    requires e >= 3 && e % 3 == 0
    requires Pow10(e) <= n < Pow10(e + 3)
    ensures Unit(n) == e
  {
    Pow10Monotonic(3, e);
    assert Pow10(3) == 1000;
    UnitMagnitude(n);
    var u := Unit(n);
    if u < e {
      ThreeApart(u, e);
      Pow10Monotonic(u + 3, e);
    } else if u > e {
      ThreeApart(e, u);
      Pow10Monotonic(e + 3, u);
    }
  }

  /**
   * Below 10^12 the abbreviation is chosen by magnitude: the count divided
   * by 10^3, 10^6 or 10^9, a number of one to three digits, followed by
   * `k`, `M` or `B`.
   */
  lemma AbbreviateByMagnitude(n: nat)
    requires 1000 <= n < Pow10(12)
    ensures var e := if n < Pow10(6) then 3 else if n < Pow10(9) then 6 else 9;
      var g := n / Pow10(e);
      && 1 <= g < 1000 && 1 <= |DecimalString(g)| <= 3
      && AbbreviateInt(n) == DecimalString(g) + Utf16(if e == 3 then "k" else if e == 6 then "M" else "B")
  {
    UnitByMagnitude(n);
    LeadingGroupWidth(n);
    SuffixLetters();
  }

  /** The suffix letter of units 3, 6 and 9 reads back as `10^unit`. */
  lemma SuffixReadsBack(u: nat)
    requires u == 3 || u == 6 || u == 9
    ensures UnitSuffix(u / 3).Some? && |UnitSuffix(u / 3).value| == 1
    ensures var letter := UnitSuffix(u / 3).value[0];
      letter in SuffixValue && SuffixValue[letter] == Pow10(u)
  {
  }

  /**
   * Reading an abbreviation back gives the count itself below 1000, and
   * `previousCheckpoint(n)` from 1000 up to 10^12: the label truncates.
   */
  lemma ReadAbbreviationBack(n: nat)
    requires n < Pow10(12)
    ensures ReadAbbreviation(AbbreviateInt(n)) == Some(if n < 1000 then n else PreviousCheckpoint(n))
  {
    var s := AbbreviateInt(n);
    if n < 1000 {
      DecimalRoundTrip(n);
      assert s[|s| - 1] !in SuffixValue;
    } else {
      CheckpointsOfGroup(n);
      UnitByMagnitude(n);
      var u := Unit(n);
      var g := LeadingGroup(n);
      SuffixReadsBack(u);
      assert s[..|s| - 1] == DecimalString(g);
      DecimalRoundTrip(g);
    }
  }

  /** From 10^12 up, the unit runs past the letters and the label is `NaN`. */
  lemma AbbreviateFromTrillions(n: nat)
    requires n >= Pow10(12)
    ensures Unit(n) >= 12
    ensures AbbreviateInt(n) == Utf16("NaN")
  {
    Pow10Monotonic(3, 12);
    assert Pow10(3) == 1000;
    UnitMagnitude(n);
    var u := Unit(n);
    if u < 12 {
      ThreeApart(u, 12);
      Pow10Monotonic(u + 3, 12);
    }
  }

  /** Below 10^12 a checkpoint's label reads back as the checkpoint exactly. */
  lemma CheckpointLabelExact(c: nat)
    requires c < Pow10(12) && IsCheckpoint(c)
    ensures ReadAbbreviation(AbbreviateInt(c)) == Some(c)
  {
    ReadAbbreviationBack(c);
    CheckpointIsFixedPoint(c);
  }

  /** The examples of the doc comments: 120 lies between 100 and 200, 12732 between 12000 and 13000. */
  lemma DocumentedExamples()
    ensures PreviousCheckpoint(120) == 100 && NextCheckpoint(120) == 200
    ensures PreviousCheckpoint(12732) == 12000 && NextCheckpoint(12732) == 13000
  {
    assert Pow10(3) == 1000 && Pow10(6) == 1_000_000;
    UnitIs(12732, 3);
    CheckpointsOfGroup(12732);
    DivBetween(12732, 1000, 12);
  }

  /** Their checkpoints are written `12k` and `13k`. */
  lemma DocumentedLabels()
    ensures AbbreviateInt(12000) == Utf16("12k") && AbbreviateInt(13000) == Utf16("13k")
  {
    assert Pow10(3) == 1000 && Pow10(6) == 1_000_000;
    UnitIs(12000, 3);
    UnitIs(13000, 3);
    DivBetween(12000, 1000, 12);
    DivBetween(13000, 1000, 13);
    assert DecimalString(12) == Utf16("12") && DecimalString(13) == Utf16("13");
    Utf16Append("12", "k");
    Utf16Append("13", "k");
    SuffixLetters();
  }
}
