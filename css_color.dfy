/** `rgbToHex(s)`: collect the maximal runs of decimal digits of a CSS colour string such as
    `rgb(57, 15, 255)` and fold them, starting from `#`, appending for each run b the
    base-16 text of b OR 256 without its first character. */
module CssColor {
  import opened Wrappers
  import opened Ascii
  import opened JsNumber

  /** What `rgbToHex` throws: on a string without digits `match` returns `null`, and
      reducing `null` raises a TypeError. */
  datatype Error = TypeError

  /** The length of the run of decimal digits at the front of s. */
  function LeadingDigits(s: seq<char>): (k: nat)
    ensures k <= |s| && AllDigits(s[..k])
    ensures k < |s| ==> !IsDigit(s[k])
  {
    if s == [] || !IsDigit(s[0]) then 0
    else
      var k := 1 + LeadingDigits(s[1..]);
      assert forall i :: 1 <= i < k ==> s[..k][i] == s[1..][..k - 1][i - 1];
      k
  }

  /** The global match of one-or-more decimal digits: the maximal runs of decimal digits of s, left to right; the
      empty sequence stands for the `null` returned when there is none. */
  function DigitRuns(s: seq<char>): (runs: seq<seq<char>>)
    ensures forall i :: 0 <= i < |runs| ==> |runs[i]| >= 1 && AllDigits(runs[i])
    decreases |s|
  {
    if s == [] then []
    else if !IsDigit(s[0]) then DigitRuns(s[1..])
    else
      var k := LeadingDigits(s);
      [s[..k]] + DigitRuns(s[k..])
  }

  /** Every run is an exact JavaScript number, so ToNumber does not round it. */
  predicate ExactRuns(runs: seq<seq<char>>)
  {
    RunsBelow(runs, TwoTo53)
  }

  /** Every run below a bound. */
  predicate RunsBelow(runs: seq<seq<char>>, bound: nat)
  {
    forall i :: 0 <= i < |runs| ==> AllDigits(runs[i]) && DecimalValue(runs[i]) < bound
  }

  /** The zero-padded, lowercase, two-digit hexadecimal form of a byte. */
  function ByteHex(n: nat): (h: seq<char>)
    requires n < 256
    ensures |h| == 2 && AllLowerHexDigits(h) && AllHexDigits(h)
  {
    [LowerHexDigit(n / 16), LowerHexDigit(n % 16)]
  }

  /** Reading ByteHex back with `parseInt(…, 16)` gives the byte. */
  lemma ByteHexValue(n: nat)
    requires n < 256
    ensures HexValue(ByteHex(n)) == n
  {
    var h := ByteHex(n);
    var first := h[..1];
    assert h[..|h| - 1] == first && first[..0] == [] && first[0] == h[0];
    assert HexValue(first) == n / 16;
    assert HexValue(h) == 16 * (n / 16) + n % 16;
  }

  /** The piece one digit run contributes: ToNumber, ToInt32, OR 256, base-16 text, and
      that text without its first character. */
  function RunHex(run: seq<char>): (h: seq<char>)
    requires AllDigits(run) && DecimalValue(run) < TwoTo53
    ensures |h| >= 1 && AllLowerHexDigits(h)
  {
    var y := Int32Or256(ToInt32(DecimalValue(run)));
    Or256SignOrLarge(ToInt32(DecimalValue(run)));
    HexStringLength(if y < 0 then -y else y);
    var t := ToString16(y);
    t[1..]
  }

  /** The callback's reduce: starting from acc, append piece(b) for each run b in turn. */
  function Reduce(acc: seq<char>, runs: seq<seq<char>>, piece: seq<char> --> seq<char>): (r: seq<char>)
    requires forall i :: 0 <= i < |runs| ==> piece.requires(runs[i])
    ensures |r| >= |acc| && r[..|acc|] == acc
    decreases |runs|
  {
    if runs == [] then acc else Reduce(acc + piece(runs[0]), runs[1..], piece)
  }

  /** The pieces of all runs, concatenated in order. */
  function Pieces(runs: seq<seq<char>>, piece: seq<char> --> seq<char>): seq<char>
    requires forall i :: 0 <= i < |runs| ==> piece.requires(runs[i])
  {
    if runs == [] then [] else piece(runs[0]) + Pieces(runs[1..], piece)
  }

  /** What RunHex writes for all the runs, in order. */
  function AllRunHex(runs: seq<seq<char>>): (h: seq<char>)
    requires ExactRuns(runs)
  {
    Pieces(runs, RunHex)
  }

  /** rgbToHex. */
  function RgbToHex(s: seq<char>): (r: Result<seq<char>, Error>)
    requires ExactRuns(DigitRuns(s))
    ensures r.Failure? <==> forall i :: 0 <= i < |s| ==> !IsDigit(s[i])
    ensures r.Success? ==> |r.value| >= 2 && r.value[0] == '#' && AllLowerHexDigits(r.value[1..])
  {
    var runs := DigitRuns(s);
    NoRunsIffNoDigits(s);
    if runs == [] then Failure(TypeError)
    else
      ReduceAppends(['#'], runs, RunHex);
      AllRunHexAlphabet(runs);
      Success(Reduce(['#'], runs, RunHex))
  }

  // ---------------------------------------------------------------- lemmas about `| 256`

  /** `x | 256` is negative, or at least 256 (bit 8 is set). */
  lemma Or256SignOrLarge(x: int)
    requires -TwoTo31 <= x < TwoTo31
    ensures Int32Or256(x) < 0 || Int32Or256(x) >= 256
  {
  }

  /** For a non-negative int32 n, `n | 256` is n with bit 8 set: between n and n + 256, at
      least 256, and below 4096 exactly when n is. */
  lemma Or256OfNonNegative(n: nat)
    requires n < TwoTo31
    ensures var y := Int32Or256(ToInt32(n));
      && 256 <= y && n <= y <= n + 256
      && (y < 4096 <==> n < 4096)
      && (n < 256 ==> y == n + 256)
  {
    assert ToInt32(n) == n && n % TwoTo32 == n;
    if (n / 256) % 2 == 0 {
      SetBit8StaysBelow(n, TwoTo31);
      if n < 4096 {
        SetBit8StaysBelow(n, 4096);
      }
    }
  }

  /** The number of hexadecimal digits of n, in the ranges rgbToHex cares about. */
  lemma {:induction false} HexStringLength(n: nat)
    ensures n < 16 <==> |HexString(n)| == 1
    ensures n < 256 <==> |HexString(n)| <= 2
    ensures n < 4096 <==> |HexString(n)| <= 3
  {
    if n >= 16 {
      HexStringLength(n / 16);
      assert |HexString(n)| == |HexString(n / 16)| + 1;
    }
  }

  // ---------------------------------------------------------------- lemmas about RunHex

  /** For a run whose value is a byte, RunHex writes that byte as two zero-padded lowercase
      hexadecimal digits. */
  lemma RunHexOfByte(run: seq<char>)
    requires AllDigits(run) && DecimalValue(run) < 256
    ensures RunHex(run) == ByteHex(DecimalValue(run))
  {
    var n := DecimalValue(run);
    Or256OfNonNegative(n);
    HexStringOfBit8(n + 256);
  }

  /** For a run between 256 and 511, bit 8 is already set, so `| 256` changes nothing and
      `slice(1)` drops the leading `1`: the run is written as its value minus 256. */
  lemma RunHexAboveByte(run: seq<char>)
    requires AllDigits(run) && 256 <= DecimalValue(run) < 512
    ensures RunHex(run) == ByteHex(DecimalValue(run) - 256)
  {
    var n := DecimalValue(run);
    assert n / 256 == 1 && n % TwoTo32 == n;
    assert ToInt32(n) == n && Int32Or256(n) == n;
    HexStringOfBit8(n);
  }

  /** A value from 256 to 511 is written in base 16 as `1` and then the two-digit form of
      its low byte. */
  lemma HexStringOfBit8(m: nat)
    requires 256 <= m < 512
    ensures HexString(m) == [LowerHexDigit(1)] + ByteHex(m - 256)
  {
    var k := m - 256;
    assert m / 16 == 16 + k / 16 && m % 16 == k % 16;
    assert (16 + k / 16) / 16 == 1 && (16 + k / 16) % 16 == k / 16;
    assert HexString(16 + k / 16) == [LowerHexDigit(1), LowerHexDigit(k / 16)];
  }

  /** Below 2^31, RunHex writes at least two digits, and exactly two when the run's value is
      below 4096 (and only then). */
  lemma RunHexWidth(run: seq<char>)
    requires AllDigits(run) && DecimalValue(run) < TwoTo31
    ensures |RunHex(run)| >= 2
    ensures |RunHex(run)| == 2 <==> DecimalValue(run) < 4096
  {
    var n := DecimalValue(run);
    Or256OfNonNegative(n);
    HexStringLength(Int32Or256(ToInt32(n)));
  }

  // ---------------------------------------------------------------- lemmas about the fold

  /** The fold appends the pieces of all runs, in order, to its initial value. */
  lemma {:induction false} ReduceAppends(acc: seq<char>, runs: seq<seq<char>>, piece: seq<char> --> seq<char>)
    requires forall i :: 0 <= i < |runs| ==> piece.requires(runs[i])
    ensures Reduce(acc, runs, piece) == acc + Pieces(runs, piece)
    decreases |runs|
  {
    if runs != [] {
      var head, rest := piece(runs[0]), runs[1..];
      ReduceAppends(acc + head, rest, piece);
      assert acc + head + Pieces(rest, piece) == acc + (head + Pieces(rest, piece));
    }
  }

  /** Every character RunHex writes for the runs is a lowercase hex digit, at least one per run. */
  lemma {:induction false} AllRunHexAlphabet(runs: seq<seq<char>>)
    requires ExactRuns(runs)
    ensures |AllRunHex(runs)| >= |runs| && AllLowerHexDigits(AllRunHex(runs))
  {
    if runs != [] {
      var head, rest := RunHex(runs[0]), runs[1..];
      assert ExactRuns(rest);
      AllRunHexAlphabet(rest);
      assert AllRunHex(runs) == head + AllRunHex(rest);
    }
  }

  /** Runs below 4096 contribute two digits each; below 2^31, that is the only way to get
      exactly two digits per run. */
  lemma {:induction false} AllRunHexLength(runs: seq<seq<char>>)
    requires RunsBelow(runs, TwoTo31)
    ensures |AllRunHex(runs)| >= 2 * |runs|
    ensures |AllRunHex(runs)| == 2 * |runs| <==> RunsBelow(runs, 4096)
  {
    if runs != [] {
      RunsBelowSplit(runs, TwoTo31);
      RunsBelowSplit(runs, 4096);
      AllRunHexLength(runs[1..]);
      RunHexWidth(runs[0]);
      assert AllRunHex(runs) == RunHex(runs[0]) + AllRunHex(runs[1..]);
    }
  }

  /** A non-empty list of runs is below a bound when its first run and the rest are. */
  lemma RunsBelowSplit(runs: seq<seq<char>>, bound: nat)
    requires runs != []
    ensures RunsBelow(runs, bound) <==>
      AllDigits(runs[0]) && DecimalValue(runs[0]) < bound && RunsBelow(runs[1..], bound)
  {
    if AllDigits(runs[0]) && DecimalValue(runs[0]) < bound && RunsBelow(runs[1..], bound) {
      forall i | 0 <= i < |runs| ensures AllDigits(runs[i]) && DecimalValue(runs[i]) < bound {
        if i > 0 {
          assert runs[i] == runs[1..][i - 1];
        }
      }
    }
  }

  /** The two-digit forms of byte-valued runs, concatenated. */
  function BytesHex(runs: seq<seq<char>>): (h: seq<char>)
    requires RunsBelow(runs, 256)
  {
    if runs == [] then [] else ByteHex(DecimalValue(runs[0])) + BytesHex(runs[1..])
  }

  /** When every run is a byte, the fold writes each one as its two-digit form. */
  lemma {:induction false} AllRunHexOfBytes(runs: seq<seq<char>>)
    requires RunsBelow(runs, 256)
    ensures AllRunHex(runs) == BytesHex(runs)
  {
    if runs != [] {
      RunHexOfByte(runs[0]);
      assert RunsBelow(runs[1..], 256);
      AllRunHexOfBytes(runs[1..]);
    }
  }

  /** rgbToHex writes `#` and at least two digits per run; exactly `1 + 2k` characters for k
      runs when every run is below 4096, and only then. */
  lemma RgbToHexLength(s: seq<char>)
    requires DigitRuns(s) != [] && RunsBelow(DigitRuns(s), TwoTo31)
    ensures RgbToHex(s).Success?
    ensures |RgbToHex(s).value| >= 1 + 2 * |DigitRuns(s)|
    ensures |RgbToHex(s).value| == 1 + 2 * |DigitRuns(s)| <==> RunsBelow(DigitRuns(s), 4096)
  {
    var runs := DigitRuns(s);
    NoRunsIffNoDigits(s);
    ReduceAppends(['#'], runs, RunHex);
    AllRunHexLength(runs);
  }

  // ---------------------------------------------------------------- lemmas about DigitRuns

  /** `match` finds no run exactly when s has no decimal digit. */
  lemma {:induction false} NoRunsIffNoDigits(s: seq<char>)
    ensures DigitRuns(s) == [] <==> forall i :: 0 <= i < |s| ==> !IsDigit(s[i])
    decreases |s|
  {
    if s != [] && !IsDigit(s[0]) {
      NoRunsIffNoDigits(s[1..]);
      assert forall i :: 1 <= i < |s| ==> s[i] == s[1..][i - 1];
    }
  }

  /** A non-empty string of digits is a single run. */
  lemma SingleRun(d: seq<char>)
    requires |d| >= 1 && AllDigits(d)
    ensures DigitRuns(d) == [d]
  {
    AllDigitsLeading(d);
    assert d[..|d|] == d && d[|d|..] == [];
  }

  lemma {:induction false} AllDigitsLeading(d: seq<char>)
    requires AllDigits(d)
    ensures LeadingDigits(d) == |d|
  {
    if d != [] {
      AllDigitsLeading(d[1..]);
    }
  }

  /** Characters that are not digits in front of s add no run. */
  lemma {:induction false} RunsAfterNonDigits(p: seq<char>, s: seq<char>)
    requires forall i :: 0 <= i < |p| ==> !IsDigit(p[i])
    ensures DigitRuns(p + s) == DigitRuns(s)
  {
    if p != [] {
      assert (p + s)[0] == p[0] && (p + s)[1..] == p[1..] + s;
      assert forall i :: 0 <= i < |p| - 1 ==> p[1..][i] == p[i + 1];
      assert !IsDigit(p[0]);
      assert DigitRuns(p + s) == DigitRuns(p[1..] + s);
      RunsAfterNonDigits(p[1..], s);
    } else {
      assert p + s == s;
    }
  }

  /** A whole run of digits followed by a non-digit (or the end) is one run by itself. */
  lemma RunThenNonDigit(d: seq<char>, s: seq<char>)
    requires |d| >= 1 && AllDigits(d)
    requires s == [] || !IsDigit(s[0])
    ensures DigitRuns(d + s) == [d] + DigitRuns(s)
  {
    LeadingDigitsStopAt(d, s);
    AllDigitsLeading(d);
    assert (d + s)[..|d|] == d && (d + s)[|d|..] == s;
  }

  /** A run never continues across a non-digit c: the runs left and right of c are found
      independently. */
  lemma {:induction false} RunsSplitAtNonDigit(a: seq<char>, c: char, b: seq<char>)
    requires !IsDigit(c)
    ensures DigitRuns(a + [c] + b) == DigitRuns(a) + DigitRuns(b)
    decreases |a|
  {
    var s := a + [c] + b;
    if a == [] {
      assert s[1..] == b;
    } else if !IsDigit(a[0]) {
      assert s[1..] == a[1..] + [c] + b;
      RunsSplitAtNonDigit(a[1..], c, b);
    } else {
      LeadingDigitsStopAt(a, [c] + b);
      assert s == a + ([c] + b);
      var k := LeadingDigits(a);
      assert s[..k] == a[..k];
      assert s[k..] == a[k..] + [c] + b;
      RunsSplitAtNonDigit(a[k..], c, b);
    }
  }

  lemma {:induction false} LeadingDigitsStopAt(a: seq<char>, t: seq<char>)
    requires t == [] || !IsDigit(t[0])
    ensures LeadingDigits(a + t) == LeadingDigits(a)
  {
    if a != [] && IsDigit(a[0]) {
      assert (a + t)[1..] == a[1..] + t;
      LeadingDigitsStopAt(a[1..], t);
    }
  }
}
