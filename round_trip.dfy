/** How the two helpers compose: the colour settings are filled with `rgbToHex` of the body's
    computed background, and the colour-picker values they produce come back through
    `hexToRgb`. */
module ColorRoundTrip {
  import opened Wrappers
  import opened Ascii
  import opened JsNumber
  import opened HexColor
  import opened CssColor

  /** The lowercase `#rrggbb` form of three channel bytes. */
  function FormatHex(c: Channels): (s: seq<char>)
    requires c.red < 256 && c.green < 256 && c.blue < 256
    ensures |s| == 7 && s[0] == '#' && AllLowerHexDigits(s[1..])
  {
    var digits := ByteHex(c.red) + ByteHex(c.green) + ByteHex(c.blue);
    LowerHexConcat(ByteHex(c.red), ByteHex(c.green));
    LowerHexConcat(ByteHex(c.red) + ByteHex(c.green), ByteHex(c.blue));
    var s := ['#'] + digits;
    assert s[1..] == digits;
    s
  }

  /** hexToRgb reads the bytes back from their `#rrggbb` form. */
  lemma ParseFormatHex(c: Channels)
    requires c.red < 256 && c.green < 256 && c.blue < 256
    ensures ParseHexColor(FormatHex(c)) == Some(c)
  {
    var s := FormatHex(c);
    assert s[1..3] == ByteHex(c.red) && s[3..5] == ByteHex(c.green) && s[5..7] == ByteHex(c.blue);
    assert AllHexDigits(s[1..]) by {
      assert forall i :: 0 <= i < 6 ==> IsLowerHexDigit(s[1..][i]);
    }
    assert IsHexColorString(s);
    ParseHexColorSpec(s);
    ByteHexValue(c.red);
    ByteHexValue(c.green);
    ByteHexValue(c.blue);
  }

  lemma LowerHexDigitOfValue(c: char)
    requires IsHexDigit(c)
    ensures LowerHexDigit(HexDigitValue(c)) == ToLower(c)
  {
  }

  /** Writing back a parsed pair gives the pair in lowercase. */
  lemma PairCanonical(p: seq<char>)
    requires |p| == 2 && AllHexDigits(p)
    ensures HexValue(p) < 256 && ByteHex(HexValue(p)) == LowerCase(p)
  {
    PairValue(p);
    var n := HexValue(p);
    DivUnique(n, 16, HexDigitValue(p[0]), HexDigitValue(p[1]));
    LowerHexDigitOfValue(p[0]);
    LowerHexDigitOfValue(p[1]);
    assert LowerCase(p) == [ToLower(p[0]), ToLower(p[1])];
  }

  lemma CanonicalSix(t: seq<char>)
    requires |t| == 6 && AllHexDigits(t)
    ensures AllHexDigits(t[0..2]) && AllHexDigits(t[2..4]) && AllHexDigits(t[4..6])
    ensures var c := Channels(HexValue(t[0..2]), HexValue(t[2..4]), HexValue(t[4..6]));
      c.red < 256 && c.green < 256 && c.blue < 256 && FormatHex(c) == ['#'] + LowerCase(t)
  {
    PairCanonical(t[0..2]);
    PairCanonical(t[2..4]);
    PairCanonical(t[4..6]);
    assert LowerCase(t) == LowerCase(t[0..2]) + LowerCase(t[2..4]) + LowerCase(t[4..6]);
  }

  /** Parsing a hex colour and writing it back gives its canonical form: one `#`, then the
      six digits in lowercase. */
  lemma CanonicalForm(s: seq<char>)
    requires IsHexColorString(s)
    ensures ParseHexColor(s).Some?
    ensures FormatHex(ParseHexColor(s).value) == ['#'] + LowerCase(s[|s| - 6..])
  {
    ParseHexColorSpec(s);
    DigitsOfHexColor(s);
    var k := |s| - 6;
    var t := s[k..];
    assert s[k..k + 2] == t[0..2] && s[k + 2..k + 4] == t[2..4] && s[k + 4..k + 6] == t[4..6];
    CanonicalSix(t);
  }

  /** The value of each of the three runs of a byte-triple input. */
  function TripleChannels(runs: seq<seq<char>>): (c: Channels)
    requires |runs| == 3 && RunsBelow(runs, 256)
    ensures c.red < 256 && c.green < 256 && c.blue < 256
  {
    Channels(DecimalValue(runs[0]), DecimalValue(runs[1]), DecimalValue(runs[2]))
  }

  /** With byte-valued runs, rgbToHex is `#` followed by their two-digit forms. */
  lemma RgbToHexOfBytes(s: seq<char>)
    requires DigitRuns(s) != [] && RunsBelow(DigitRuns(s), 256)
    ensures RgbToHex(s) == Success(['#'] + BytesHex(DigitRuns(s)))
  {
    var runs := DigitRuns(s);
    NoRunsIffNoDigits(s);
    ReduceAppends(['#'], runs, RunHex);
    AllRunHexOfBytes(runs);
  }

  lemma BytesHexOfThree(runs: seq<seq<char>>)
    requires |runs| == 3 && RunsBelow(runs, 256)
    ensures var c := TripleChannels(runs);
      ['#'] + BytesHex(runs) == FormatHex(c)
  {
    var c := TripleChannels(runs);
    assert RunsBelow(runs[1..], 256) && RunsBelow(runs[2..], 256);
    assert runs[1..][1..] == runs[2..] && runs[2..][1..] == [];
    calc {
      BytesHex(runs);
      ByteHex(c.red) + BytesHex(runs[1..]);
      ByteHex(c.red) + (ByteHex(c.green) + BytesHex(runs[2..]));
      ByteHex(c.red) + (ByteHex(c.green) + (ByteHex(c.blue) + BytesHex([])));
      ByteHex(c.red) + ByteHex(c.green) + ByteHex(c.blue);
    }
  }

  /** rgbToHex of any string with exactly three digit runs, each a byte, is the
      lowercase `#rrggbb` of those bytes. */
  lemma RgbToHexOfByteTriple(s: seq<char>)
    requires |DigitRuns(s)| == 3 && RunsBelow(DigitRuns(s), 256)
    ensures RgbToHex(s) == Success(FormatHex(TripleChannels(DigitRuns(s))))
  {
    RgbToHexOfBytes(s);
    BytesHexOfThree(DigitRuns(s));
  }

  /** Round trip on digit runs: the bytes of a three-run input come back from hexToRgb,
      each divided by 255. */
  lemma RoundTripOfByteTriple(s: seq<char>)
    requires |DigitRuns(s)| == 3 && RunsBelow(DigitRuns(s), 256)
    ensures RgbToHex(s).Success?
    ensures var c := TripleChannels(DigitRuns(s));
      HexToRgb(RgbToHex(s).value) == Some(Color(Unit(c.red), Unit(c.green), Unit(c.blue)))
  {
    RgbToHexOfByteTriple(s);
    ParseFormatHex(TripleChannels(DigitRuns(s)));
  }

  /** The `rgb(r, g, b)` text that `getComputedStyle` gives for an opaque colour. */
  function CssRgb(r: nat, g: nat, b: nat): seq<char>
  {
    "rgb(" + (DecimalString(r) + (", " + (DecimalString(g) + (", " + (DecimalString(b) + ")")))))
  }

  /** A comma, a space and a number, in front of a tail that starts with a non-digit. */
  lemma RunsOfCommaNumber(d: seq<char>, t: seq<char>)
    requires |d| >= 1 && AllDigits(d) && |t| >= 1 && !IsDigit(t[0])
    ensures DigitRuns(", " + (d + t)) == [d] + DigitRuns(t)
  {
    RunsAfterNonDigits(", ", d + t);
    RunThenNonDigit(d, t);
  }

  /** The digit-run match on `rgb(a, b, c)` finds the three numbers, whatever their text. */
  lemma RunsOfThreeNumbers(d1: seq<char>, d2: seq<char>, d3: seq<char>)
    requires |d1| >= 1 && AllDigits(d1) && |d2| >= 1 && AllDigits(d2) && |d3| >= 1 && AllDigits(d3)
    ensures DigitRuns("rgb(" + (d1 + (", " + (d2 + (", " + (d3 + ")")))))) == [d1, d2, d3]
  {
    var y := ", " + (d3 + ")");
    var x := ", " + (d2 + y);
    RunsAfterNonDigits(")", []);
    assert ")" + [] == ")";
    RunsOfCommaNumber(d3, ")");
    RunsOfCommaNumber(d2, y);
    RunThenNonDigit(d1, x);
    RunsAfterNonDigits("rgb(", d1 + x);
  }

  /** The digit-run match on `rgb(r, g, b)` finds the three numbers. */
  lemma CssRgbRuns(r: nat, g: nat, b: nat)
    ensures DigitRuns(CssRgb(r, g, b)) == [DecimalString(r), DecimalString(g), DecimalString(b)]
  {
    RunsOfThreeNumbers(DecimalString(r), DecimalString(g), DecimalString(b));
  }

  /** The round trip the app relies on: for channel bytes r, g, b,
      `hexToRgb(rgbToHex("rgb(r, g, b)"))` is `{r: r/255, g: g/255, b: b/255}`. */
  lemma RoundTrip(r: nat, g: nat, b: nat)
    requires r < 256 && g < 256 && b < 256
    ensures var s := CssRgb(r, g, b);
      && RunsBelow(DigitRuns(s), 256)
      && RgbToHex(s) == Success(FormatHex(Channels(r, g, b)))
      && HexToRgb(RgbToHex(s).value) == Some(Color(Unit(r), Unit(g), Unit(b)))
  {
    CssRgbRuns(r, g, b);
    RoundTripOfByteTriple(CssRgb(r, g, b));
    RgbToHexOfByteTriple(CssRgb(r, g, b));
  }

  /** For runs below 4096, hexToRgb accepts what rgbToHex writes exactly when there were
      three runs: `rgba(…)` with an alpha, or a single number, never comes back. */
  lemma OnlyTriplesComeBack(s: seq<char>)
    requires DigitRuns(s) != [] && RunsBelow(DigitRuns(s), 4096)
    ensures RgbToHex(s).Success?
    ensures HexToRgb(RgbToHex(s).value).Some? <==> |DigitRuns(s)| == 3
  {
    var runs := DigitRuns(s);
    assert RunsBelow(runs, TwoTo31);
    RgbToHexLength(s);
    var out := RgbToHex(s).value;
    assert |out| == 1 + 2 * |runs|;
    HexToRgbSpec(out);
    if |runs| == 3 {
      assert AllHexDigits(out[1..]);
    }
  }

  lemma DefaultColourNumbers()
    ensures DecimalString(57) == "57" && DecimalString(15) == "15" && DecimalString(255) == "255"
  {
    assert DecimalString(5) == "5" && DecimalString(1) == "1" && DecimalString(25) == "25";
  }

  lemma DefaultColourText()
    ensures CssRgb(57, 15, 255) == "rgb(57, 15, 255)"
  {
    DefaultColourNumbers();
  }

  lemma DefaultColourHex()
    ensures FormatHex(Channels(57, 15, 255)) == "#390fff"
  {
    assert ByteHex(57) == "39" && ByteHex(15) == "0f" && ByteHex(255) == "ff";
  }

  /** The app's default colour `#390fff` for the box, the left spheres and the point light
      is what rgbToHex writes for `rgb(57, 15, 255)`, and hexToRgb reads it back. */
  lemma DefaultColourExample()
    ensures RunsBelow(DigitRuns("rgb(57, 15, 255)"), 256)
    ensures RgbToHex("rgb(57, 15, 255)") == Success("#390fff")
    ensures HexToRgb("#390fff") == Some(Color(57.0 / 255.0, 15.0 / 255.0, 1.0))
  {
    var css := CssRgb(57, 15, 255);
    DefaultColourText();
    DefaultColourHex();
    RoundTrip(57, 15, 255);
    assert RunsBelow(DigitRuns(css), 256) && RgbToHex(css) == Success("#390fff");
    assert Unit(57) == 57.0 / 255.0 && Unit(15) == 15.0 / 255.0 && Unit(255) == 1.0;
  }
}
