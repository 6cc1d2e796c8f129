/**
 * The follower progress text shown as the profile location (index.js:66-81):
 * `<previous checkpoint> <bar> <next checkpoint> followers`, where the bar
 * has one green square per fifth of the bracket already covered, a yellow
 * square for a fifth begun, and white squares up to 10 UTF-16 code units.
 */
module Progress {
  import opened Options
  import opened Arithmetic
  import opened JsText
  import opened Checkpoints

  // ---------------------------------------------------------------------
  // The three squares, as JavaScript strings
  // ---------------------------------------------------------------------

  /** U+1F7E9 LARGE GREEN SQUARE: a surrogate pair. */
  const GreenSquare: JsString := [0xD83D, 0xDFE9]

  /** U+1F7E8 LARGE YELLOW SQUARE: a surrogate pair. */
  const YellowSquare: JsString := [0xD83D, 0xDFE8]

  /** U+2B1C WHITE LARGE SQUARE followed by U+FE0F VARIATION SELECTOR-16. */
  const WhiteSquare: JsString := [0x2B1C, 0xFE0F]

  /** The three constants are the UTF-16 encodings of the squares in the source text. */
  lemma SquaresAreUtf16()
    ensures GreenSquare == Utf16("\U{1F7E9}")
    ensures YellowSquare == Utf16("\U{1F7E8}")
    ensures WhiteSquare == Utf16("\U{2B1C}\U{FE0F}")
  {
    Utf16OfChar('\U{1F7E9}');
    Utf16OfChar('\U{1F7E8}');
    Utf16OfChar('\U{2B1C}');
    Utf16OfChar('\U{FE0F}');
    Utf16Append("\U{2B1C}", "\U{FE0F}");
  }

  // ---------------------------------------------------------------------
  // The operation
  // ---------------------------------------------------------------------

  /** `(next - prev) / 5`: one fifth of the bracket. */
  function Step(n: nat): nat
  {
    Bracketing(n);
    (NextCheckpoint(n) - PreviousCheckpoint(n)) / 5
  }

  /** `Math.floor((followersCount - prev) / ((next - prev) / 5))` */
  function FilledCount(n: nat): nat
  {
    StepPositive(n);
    (n - PreviousCheckpoint(n)) / Step(n)
  }

  /**
   * `(followersCount - prev) / ((next - prev) / 5) % 1 !== 0`: the quotient
   * has a fractional part, which is to say the fifth does not divide the
   * distance covered.
   */
  predicate HasPartial(n: nat)
  {
    StepPositive(n);
    (n - PreviousCheckpoint(n)) % Step(n) != 0
  }

  /** `(greenCubes + yellowCube).padEnd(10, "⬜️")` */
  function Bar(n: nat): JsString
  {
    PadEnd(Repeat(GreenSquare, FilledCount(n)) + (if HasPartial(n) then YellowSquare else []), 10, WhiteSquare)
  }

  /** `getFollowersProgress(followersCount)` */
  function FollowersProgress(n: nat): JsString
  {
    AbbreviateInt(PreviousCheckpoint(n)) + Utf16(" ") + Bar(n) + Utf16(" ")
      + AbbreviateInt(NextCheckpoint(n)) + Utf16(" followers")
  }

  // ---------------------------------------------------------------------
  // The counts
  // ---------------------------------------------------------------------

  lemma StepPositive(n: nat)
    ensures PreviousCheckpoint(n) <= n && Step(n) > 0
    ensures (n - PreviousCheckpoint(n)) / Step(n) >= 0
  {
    StepExact(n);
    Bracketing(n);
    DivNonnegative(n - PreviousCheckpoint(n), Step(n));
  }

  /** The bracket splits into five equal whole steps of at least 20. */
  lemma StepExact(n: nat)
    ensures Step(n) * 5 == NextCheckpoint(n) - PreviousCheckpoint(n) == Granularity(n)
    ensures Step(n) >= 20
  {
    Bracketing(n);
    FifthOfGranularity(n);
  }

  /** The granularity is five times a whole number of at least 20. */
  lemma FifthOfGranularity(n: nat)
    ensures Granularity(n) % 5 == 0 && Granularity(n) / 5 >= 20
  {
    if n >= 1000 {
      UnitFrom1000(n);
      var u := Unit(n);
      var q := Pow10(u - 3);
      Pow10Add(3, u - 3);
      assert Granularity(n) == (200 * q) * 5;
      MultipleOfItself(200 * q, 5);
      MulDiv(200 * q, 5);
    }
  }

  /**
   * The filled count is the number of whole fifths of the bracket covered:
   * at most 4, since the count stays below the next checkpoint, and with
   * the partial square at most 5 squares are coloured.
   */
  lemma FilledBounds(n: nat)
    ensures FilledCount(n) * Step(n) <= n - PreviousCheckpoint(n) < (FilledCount(n) + 1) * Step(n)
    ensures FilledCount(n) <= 4
    ensures FilledCount(n) + (if HasPartial(n) then 1 else 0) <= 5
  {
    StepExact(n);
    Bracketing(n);
    var d := n - PreviousCheckpoint(n);
    QuotientBounds(d, Step(n));
    if FilledCount(n) >= 5 {
      MulLe(5, FilledCount(n), Step(n));
    }
  }

  /**
   * No partial square exactly when the count sits on a fifth of its
   * bracket; in particular a count that is itself a checkpoint shows no
   * coloured square at all.
   */
  lemma PartialIff(n: nat)
    ensures !HasPartial(n) <==> n == PreviousCheckpoint(n) + FilledCount(n) * Step(n)
    ensures IsCheckpoint(n) <==> n == PreviousCheckpoint(n)
    ensures n == PreviousCheckpoint(n) ==> FilledCount(n) == 0 && !HasPartial(n)
  {
    StepExact(n);
    Bracketing(n);
    var d := n - PreviousCheckpoint(n);
    MultipleIff(d, Step(n));
    CheckpointIsFixedPoint(n);
  }

  // ---------------------------------------------------------------------
  // The bar as squares
  // ---------------------------------------------------------------------

  datatype Square = Green | Yellow | White

  function Glyph(q: Square): JsString
  {
    match q
    case Green => GreenSquare
    case Yellow => YellowSquare
    case White => WhiteSquare
  }

  function Render(squares: seq<Square>): JsString
  {
    if squares == [] then [] else Glyph(squares[0]) + Render(squares[1..])
  }

  /** The five squares of the bar: green, then yellow if a fifth is begun, then white. */
  function BarSquares(n: nat): seq<Square>
  {
    var f := FilledCount(n);
    seq(5, i => if i < f then Green else if i == f && HasPartial(n) then Yellow else White)
  }

  lemma {:induction false} RenderAppend(a: seq<Square>, b: seq<Square>)
    ensures Render(a + b) == Render(a) + Render(b)
  {
    if a == [] {
      assert a + b == b;
    } else {
      var ab := a + b;
      assert ab[0] == a[0] && ab[1..] == a[1..] + b;
      RenderAppend(a[1..], b);
      assert Render(ab) == Glyph(a[0]) + (Render(a[1..]) + Render(b));
    }
  }


  lemma {:induction false} RenderRun(q: Square, k: nat)
    ensures Render(seq(k, _ => q)) == Repeat(Glyph(q), k)
  {
    if k > 0 {
      RenderRun(q, k - 1);
      assert seq(k, _ => q)[1..] == seq(k - 1, _ => q);
    }
  }

  /**
   * The bar is always 10 code units: exactly the five squares of
   * `BarSquares`, each two code units wide, the white ones appended by
   * `padEnd`.
   */
  lemma BarIsFiveSquares(n: nat)
    ensures Bar(n) == Render(BarSquares(n))
    ensures |BarSquares(n)| == 5 && |Bar(n)| == 10
    ensures forall i :: 0 <= i < 5 ==> (BarSquares(n)[i] == Green <==> i < FilledCount(n))
    ensures (Yellow in BarSquares(n)) <==> HasPartial(n)
  {
    FilledBounds(n);
    var f := FilledCount(n);
    var y: seq<Square> := if HasPartial(n) then [Yellow] else [];
    var k := 5 - f - |y|;
    var prefix := Repeat(GreenSquare, f) + (if HasPartial(n) then YellowSquare else []);
    BarSquaresRuns(n);
    RenderRun(Green, f);
    RenderRun(White, k);
    RenderAppend(seq(f, _ => Green), y);
    RenderAppend(seq(f, _ => Green) + y, seq(k, _ => White));
    assert Render(y) == (if HasPartial(n) then YellowSquare else []);
    assert |prefix| == 10 - 2 * k;
    if k == 0 {
      assert Bar(n) == prefix;
    } else {
      PadEndWhole(prefix, WhiteSquare, k);
    }
    if HasPartial(n) {
      assert BarSquares(n)[f] == Yellow;
    }
  }

  /** The five squares are a run of green, the yellow one if any, and a run of white. */
  lemma BarSquaresRuns(n: nat)
    ensures FilledCount(n) + (if HasPartial(n) then 1 else 0) <= 5
    ensures var f := FilledCount(n);
      var y: seq<Square> := if HasPartial(n) then [Yellow] else [];
      BarSquares(n) == seq(f, _ => Green) + y + seq(5 - f - |y|, _ => White)
  {
    FilledBounds(n);
  }

  // ---------------------------------------------------------------------
  // Reading the location text back
  // ---------------------------------------------------------------------

  function ReadSquare(u: JsString): Option<Square>
  {
    if u == GreenSquare then Some(Green)
    else if u == YellowSquare then Some(Yellow)
    else if u == WhiteSquare then Some(White)
    else None
  }

  function ReadBar(s: JsString): Option<seq<Square>>
    decreases |s|
  {
    if s == [] then Some([])
    else if |s| < 2 then None
    else
      match (ReadSquare(s[..2]), ReadBar(s[2..]))
      case (Some(q), Some(rest)) => Some([q] + rest)
      case _ => None
  }

  /** Position of the first space, or the length when there is none. */
  function FirstSpace(s: JsString): (i: nat)
    ensures i <= |s|
    ensures forall j :: 0 <= j < i ==> s[j] != 0x20
    ensures i < |s| ==> s[i] == 0x20
  {
    if s == [] || s[0] == 0x20 then 0 else 1 + FirstSpace(s[1..])
  }

  /** What a location text states: the two checkpoints and the squares between them. */
  datatype Location = Location(previous: nat, squares: seq<Square>, next: nat)

  /** Reads `<label> <10 code units of squares> <label> followers`. */
  function ReadLocation(s: JsString): Option<Location>
  {
    var tail := Utf16(" followers");
    if |s| < |tail| || s[|s| - |tail|..] != tail then None
    else ReadFields(s[..|s| - |tail|])
  }

  /** Reads `<label> <10 code units of squares> <label>`. */
  function ReadFields(body: JsString): Option<Location>
  {
    var i := FirstSpace(body);
    if |body| < i + 12 || body[i + 11] != 0x20 then None
    else
      match (ReadAbbreviation(body[..i]), ReadBar(body[i + 1..i + 11]), ReadAbbreviation(body[i + 12..]))
      case (Some(p), Some(q), Some(x)) => Some(Location(p, q, x))
      case _ => None
  }

  lemma GlyphReadsBack(q: Square)
    ensures |Glyph(q)| == 2 && ReadSquare(Glyph(q)) == Some(q)
  {
  }

  lemma {:induction false} ReadBarRender(squares: seq<Square>)
    ensures ReadBar(Render(squares)) == Some(squares)
  {
    if squares != [] {
      var s := Render(squares);
      var q, rest := squares[0], squares[1..];
      GlyphReadsBack(q);
      ReadBarRender(rest);
      assert s == Glyph(q) + Render(rest);
      assert s[..2] == Glyph(q);
      assert s[2..] == Render(rest);
      assert [q] + rest == squares;
    }
  }

  /** Below 10^12 an abbreviation is digits and a letter: no space in it. */
  lemma AbbreviationHasNoSpace(n: nat)
    requires n < Pow10(12)
    ensures forall j :: 0 <= j < |AbbreviateInt(n)| ==> AbbreviateInt(n)[j] != 0x20
  {
    if n >= 1000 {
      AbbreviateByMagnitude(n);
    }
  }

  lemma SeparatorText()
    ensures Utf16(" ") == [0x20]
    ensures |Utf16(" followers")| == 10
  {
  }

  lemma {:induction false} FirstSpaceAfter(a: JsString, rest: JsString)
    requires forall j :: 0 <= j < |a| ==> a[j] != 0x20
    ensures FirstSpace(a + [0x20] + rest) == |a|
  {
    var s := a + [0x20] + rest;
    if a != [] {
      FirstSpaceAfter(a[1..], rest);
      assert s[0] == a[0];
      assert s[1..] == a[1..] + [0x20] + rest;
    }
  }

  /** The location text splits at its first space, after the bar, and before ` followers`. */
  lemma ReadLocationFields(a: JsString, bar: JsString, b: JsString)
    requires forall j :: 0 <= j < |a| ==> a[j] != 0x20
    requires |bar| == 10
    ensures ReadLocation(a + Utf16(" ") + bar + Utf16(" ") + b + Utf16(" followers")) ==
      match (ReadAbbreviation(a), ReadBar(bar), ReadAbbreviation(b))
      case (Some(p), Some(q), Some(x)) => Some(Location(p, q, x))
      case _ => None
  {
    SeparatorText();
    var tail := Utf16(" followers");
    var body := a + [0x20] + bar + [0x20] + b;
    var s := body + tail;
    assert a + Utf16(" ") + bar + Utf16(" ") + b + tail == s;
    assert s[|s| - |tail|..] == tail;
    assert s[..|s| - |tail|] == body;
    assert ReadLocation(s) == ReadFields(body);
    ReadFieldsSplit(a, bar, b);
  }

  lemma ReadFieldsSplit(a: JsString, bar: JsString, b: JsString)
    requires forall j :: 0 <= j < |a| ==> a[j] != 0x20
    requires |bar| == 10
    ensures ReadFields(a + [0x20] + bar + [0x20] + b) ==
      match (ReadAbbreviation(a), ReadBar(bar), ReadAbbreviation(b))
      case (Some(p), Some(q), Some(x)) => Some(Location(p, q, x))
      case _ => None
  {
    var body := a + [0x20] + bar + [0x20] + b;
    FirstSpaceAfter(a, bar + [0x20] + b);
    assert body == a + [0x20] + (bar + [0x20] + b);
    var i := |a|;
    assert body[i + 11] == 0x20;
    assert body[..i] == a;
    assert body[i + 1..i + 11] == bar;
    assert body[i + 12..] == b;
  }

  /**
   * Below 10^12 for the next checkpoint, the location text reads back as
   * the two checkpoints and the five squares of the bar: no information is
   * lost in the text.
   */
  lemma ReadFollowersProgress(n: nat)
    requires NextCheckpoint(n) < Pow10(12)
    ensures ReadLocation(FollowersProgress(n)) ==
      Some(Location(PreviousCheckpoint(n), BarSquares(n), NextCheckpoint(n)))
  {
    var prev, next := PreviousCheckpoint(n), NextCheckpoint(n);
    Bracketing(n);
    AbbreviationHasNoSpace(prev);
    BarIsFiveSquares(n);
    ReadLocationFields(AbbreviateInt(prev), Bar(n), AbbreviateInt(next));
    ReadBarRender(BarSquares(n));
    PreviousIsGreatestCheckpoint(n, 0);
    NextIsLeastCheckpoint(n, 0);
    CheckpointLabelExact(prev);
    CheckpointLabelExact(next);
  }
}
