/** `hexToRgb(hex)`: recognise `#rrggbb` or `rrggbb` (hex digits in either case) and turn each
    two-digit pair into a channel in [0, 1]; anything else gives `null`. */
module HexColor {
  import opened Wrappers
  import opened Ascii
  import opened JsNumber

  /** The object `{r, g, b}` that hexToRgb returns. */
  datatype Color = Color(r: real, g: real, b: real)

  /** The three capture groups of a successful `exec`. */
  datatype Captures = Captures(red: seq<char>, green: seq<char>, blue: seq<char>)

  /** The three `parseInt(group, 16)` values, before the division by 255. */
  datatype Channels = Channels(red: nat, green: nat, blue: nat)

  /** The language of the anchored, case-insensitive colour pattern, stated directly:
      six hexadecimal digits, optionally after one `#`, and nothing else. */
  predicate IsHexColorString(s: seq<char>)
  {
    || (|s| == 6 && AllHexDigits(s))
    || (|s| == 7 && s[0] == '#' && AllHexDigits(s[1..]))
  }

  /** One two-hex-digit group at the front of t: the captured pair and what follows it. */
  function MatchPair(t: seq<char>): (m: Option<(seq<char>, seq<char>)>)
    ensures m.Some? <==> |t| >= 2 && IsHexDigit(t[0]) && IsHexDigit(t[1])
    ensures m.Some? ==> m.value.0 == t[..2] && m.value.1 == t[2..]
    ensures m.Some? ==> IsPair(m.value.0)
  {
    if |t| >= 2 && IsHexDigit(t[0]) && IsHexDigit(t[1]) then Some((t[..2], t[2..])) else None
  }

  /** A captured group: exactly two hexadecimal digits. */
  predicate IsPair(p: seq<char>)
  {
    |p| == 2 && AllHexDigits(p)
  }

  /** The three groups and then `$`, matched from the front of t. */
  function MatchGroups(t: seq<char>): (m: Option<Captures>)
    ensures m.Some? ==> IsPair(m.value.red) && IsPair(m.value.green) && IsPair(m.value.blue)
  {
    match MatchPair(t)
    case None => None
    case Some((red, t1)) =>
      match MatchPair(t1)
      case None => None
      case Some((green, t2)) =>
        match MatchPair(t2)
        case None => None
        case Some((blue, t3)) => if t3 == [] then Some(Captures(red, green, blue)) else None
  }

  /** `exec` of the anchored pattern on s. The greedy `#?` first consumes a leading `#` and
      backtracks to consuming nothing when the groups do not match after it. */
  function Exec(s: seq<char>): (m: Option<Captures>)
    ensures m.Some? ==> IsPair(m.value.red) && IsPair(m.value.green) && IsPair(m.value.blue)
  {
    if |s| > 0 && s[0] == '#' && MatchGroups(s[1..]).Some? then MatchGroups(s[1..])
    else MatchGroups(s)
  }

  lemma MatchGroupsExactly(t: seq<char>)
    ensures MatchGroups(t).Some? <==> |t| == 6 && AllHexDigits(t)
    ensures MatchGroups(t).Some? ==> MatchGroups(t).value == Captures(t[0..2], t[2..4], t[4..6])
  {
    if |t| == 6 && AllHexDigits(t) {
      assert t[2..][..2] == t[2..4] && t[2..][2..] == t[4..];
      assert t[4..][..2] == t[4..6] && t[4..][2..] == [];
    }
  }

  /** The regular expression matches exactly the strings of IsHexColorString, and its
      groups are the last six characters, two by two. */
  lemma {:induction false} ExecAcceptsHexColorStrings(s: seq<char>)
    ensures Exec(s).Some? <==> IsHexColorString(s)
    ensures Exec(s).Some? ==>
      var k := |s| - 6;
      Exec(s).value == Captures(s[k..k + 2], s[k + 2..k + 4], s[k + 4..k + 6])
  {
    MatchGroupsExactly(s);
    if |s| > 0 && s[0] == '#' {
      var t := s[1..];
      MatchGroupsExactly(t);
      assert !IsHexDigit(s[0]);
      assert MatchGroups(s) == None;
      if |s| == 7 && AllHexDigits(t) {
        assert t[0..2] == s[1..3] && t[2..4] == s[3..5] && t[4..6] == s[5..7];
      }
    } else {
      assert Exec(s) == MatchGroups(s);
      assert IsHexColorString(s) <==> |s| == 6 && AllHexDigits(s);
    }
  }

  /** `parseInt(pair, 16)` of a two-digit group. */
  lemma PairValue(p: seq<char>)
    requires |p| == 2 && AllHexDigits(p)
    ensures HexValue(p) == 16 * HexDigitValue(p[0]) + HexDigitValue(p[1])
    ensures HexValue(p) < 256
  {
    var first := p[..1];
    assert p[..|p| - 1] == first && first[..0] == [] && first[0] == p[0];
    assert HexValue(first) == HexDigitValue(p[0]);
  }

  /** The three `parseInt(result[i], 16)` calls of hexToRgb, or `null` when `exec` fails. */
  function ParseHexColor(s: seq<char>): (c: Option<Channels>)
    ensures c.Some? ==> c.value.red < 256 && c.value.green < 256 && c.value.blue < 256
  {
    match Exec(s)
    case None => None
    case Some(groups) =>
      PairValue(groups.red);
      PairValue(groups.green);
      PairValue(groups.blue);
      Some(Channels(HexValue(groups.red), HexValue(groups.green), HexValue(groups.blue)))
  }

  /** A channel byte divided by 255, as an exact real. */
  function Unit(v: nat): (r: real)
    ensures 0.0 <= r && r * 255.0 == v as real
    ensures v <= 255 ==> r <= 1.0
  {
    v as real / 255.0
  }

  /** hexToRgb: each parsed pair divided by 255, or `null`. */
  function HexToRgb(s: seq<char>): (c: Option<Color>)
    ensures c.Some? ==> 0.0 <= c.value.r <= 1.0 && 0.0 <= c.value.g <= 1.0 && 0.0 <= c.value.b <= 1.0
  {
    match ParseHexColor(s)
    case None => None
    case Some(ch) => Some(Color(Unit(ch.red), Unit(ch.green), Unit(ch.blue)))
  }

  /** The three `parseInt` calls read the last six characters, two by two. */
  lemma ParseHexColorSpec(s: seq<char>)
    ensures ParseHexColor(s).Some? <==> IsHexColorString(s)
    ensures IsHexColorString(s) ==>
      var k := |s| - 6;
      && AllHexDigits(s[k..k + 2]) && AllHexDigits(s[k + 2..k + 4]) && AllHexDigits(s[k + 4..k + 6])
      && ParseHexColor(s) == Some(Channels(HexValue(s[k..k + 2]), HexValue(s[k + 2..k + 4]),
                                           HexValue(s[k + 4..k + 6])))
  {
    ExecAcceptsHexColorStrings(s);
  }

  /** hexToRgb returns non-null exactly on an optional single `#` followed by six hexadecimal
      digits, and then each channel is the value of its digit pair divided by 255. */
  lemma HexToRgbSpec(s: seq<char>)
    ensures HexToRgb(s).Some? <==> IsHexColorString(s)
    ensures IsHexColorString(s) ==>
      var k := |s| - 6;
      HexToRgb(s) == Some(Color(Unit(HexValue(s[k..k + 2])), Unit(HexValue(s[k + 2..k + 4])),
                                Unit(HexValue(s[k + 4..k + 6]))))
  {
    ParseHexColorSpec(s);
  }

  /** `##abcdef`: only one `#` may precede the digits. */
  lemma DoubleHashRejected(t: seq<char>)
    ensures HexToRgb(['#', '#'] + t) == None
  {
    HexToRgbSpec(['#', '#'] + t);
    assert (['#', '#'] + t)[1] == '#';
  }

  /** The leading `#` is optional: prefixing one to a string that does not already start
      with `#` does not change the result. */
  lemma {:induction false} OptionalHash(h: seq<char>)
    requires h == [] || h[0] != '#'
    ensures HexToRgb(['#'] + h) == HexToRgb(h)
  {
    var s := ['#'] + h;
    assert s[1..] == h;
    MatchGroupsExactly(s);
    assert MatchGroups(s) == None by {
      assert !IsHexDigit(s[0]);
    }
  }

  /** Two strings of equal length whose characters agree up to ASCII case. */
  predicate SameIgnoringCase(s: seq<char>, t: seq<char>)
  {
    |s| == |t| && forall i :: 0 <= i < |s| ==> SameLetterIgnoringCase(s[i], t[i])
  }

  function LowerCase(s: seq<char>): (t: seq<char>)
    ensures |t| == |s| && forall i :: 0 <= i < |s| ==> t[i] == ToLower(s[i])
  {
    seq(|s|, i requires 0 <= i < |s| => ToLower(s[i]))
  }

  function UpperCase(s: seq<char>): (t: seq<char>)
    ensures |t| == |s| && forall i :: 0 <= i < |s| ==> t[i] == ToUpper(s[i])
  {
    seq(|s|, i requires 0 <= i < |s| => ToUpper(s[i]))
  }

  lemma PairIgnoresCase(s: seq<char>, t: seq<char>, k: nat)
    requires SameIgnoringCase(s, t) && k + 2 <= |s|
    requires AllHexDigits(s[k..k + 2])
    ensures AllHexDigits(t[k..k + 2])
    ensures HexValue(s[k..k + 2]) == HexValue(t[k..k + 2])
  {
    HexDigitIgnoresCase(s[k], t[k]);
    HexDigitIgnoresCase(s[k + 1], t[k + 1]);
    PairValue(s[k..k + 2]);
    PairValue(t[k..k + 2]);
  }

  lemma LanguageIgnoresCase(s: seq<char>, t: seq<char>)
    requires SameIgnoringCase(s, t)
    ensures IsHexColorString(s) <==> IsHexColorString(t)
  {
    forall i | 0 <= i < |s|
      ensures IsHexDigit(s[i]) <==> IsHexDigit(t[i])
      ensures s[i] == '#' <==> t[i] == '#'
    {
      HexDigitIgnoresCase(s[i], t[i]);
    }
    if |s| == 7 {
      assert AllHexDigits(s[1..]) <==> AllHexDigits(t[1..]) by {
        assert forall i :: 0 <= i < 6 ==> s[1..][i] == s[i + 1] && t[1..][i] == t[i + 1];
      }
    }
  }

  lemma DigitsOfHexColor(s: seq<char>)
    requires IsHexColorString(s)
    ensures forall i :: |s| - 6 <= i < |s| ==> IsHexDigit(s[i])
  {
    if |s| == 7 {
      assert forall i :: 1 <= i < 7 ==> s[i] == s[1..][i - 1];
    }
  }

  /** The three `parseInt` calls see the same digit values in case variants. */
  lemma ParseIgnoresCase(s: seq<char>, t: seq<char>)
    requires SameIgnoringCase(s, t)
    ensures ParseHexColor(s) == ParseHexColor(t)
  {
    LanguageIgnoresCase(s, t);
    ParseHexColorSpec(s);
    ParseHexColorSpec(t);
    if IsHexColorString(s) {
      var k := |s| - 6;
      PairIgnoresCase(s, t, k);
      PairIgnoresCase(s, t, k + 2);
      PairIgnoresCase(s, t, k + 4);
    }
  }

  /** The `i` flag: strings that differ only in letter case give the same result. */
  lemma CaseInsensitive(s: seq<char>, t: seq<char>)
    requires SameIgnoringCase(s, t)
    ensures HexToRgb(s) == HexToRgb(t)
  {
    ParseIgnoresCase(s, t);
  }

  /** An input and its ASCII lower-cased and upper-cased variants give the same result. */
  lemma CaseVariantsAgree(s: seq<char>)
    ensures HexToRgb(LowerCase(s)) == HexToRgb(s)
    ensures HexToRgb(UpperCase(s)) == HexToRgb(s)
  {
    forall i | 0 <= i < |s| ensures SameLetterIgnoringCase(s[i], LowerCase(s)[i]) {
      CaseVariants(s[i]);
    }
    forall i | 0 <= i < |s| ensures SameLetterIgnoringCase(s[i], UpperCase(s)[i]) {
      CaseVariants(s[i]);
    }
    CaseInsensitive(s, LowerCase(s));
    CaseInsensitive(s, UpperCase(s));
  }

  /** Inputs the pattern rejects: two `#`, five or seven digits, a non-hex letter. */
  lemma RejectedExamples()
    ensures HexToRgb("##abcdef") == None
    ensures HexToRgb("#abcde") == None && HexToRgb("abcdef0") == None
    ensures HexToRgb("#abcdeg") == None
  {
    HexToRgbSpec("##abcdef");
    HexToRgbSpec("#abcde");
    HexToRgbSpec("abcdef0");
    HexToRgbSpec("#abcdeg");
    assert !IsHexDigit("#abcdeg"[1..][5]);
  }
}
