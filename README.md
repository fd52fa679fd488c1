# Colour helpers of the gravity demo, in Dafny

The gravity demo (a propeller spinning in a ring of spheres, rendered with three.js and
simulated with cannon-es) has two pure helpers in `src/helpers.js` that convert colours
between the two forms the app handles:

- `hexToRgb(hex)` recognises `rrggbb` or `#rrggbb` (hexadecimal digits in either case) and
  returns `{r, g, b}` with each two-digit pair read as a byte and divided by 255; any other
  string gives `null`. The app feeds it the values of its colour pickers.
- `rgbToHex(s)` takes every maximal run of decimal digits of a CSS colour such as
  `rgb(57, 15, 255)` and folds them, starting from `#`, appending for each run b the base-16
  text of `b | 256` without its first character. The app applies it to the page's computed
  background colour to seed the colour settings.

The model is functional, like the source:

- `Wrappers`: `Option` (a value or `null`) and `Result` (a value or a thrown error).
- `Ascii`: the character classes of the two patterns and ASCII case mapping.
- `JsNumber`: the JavaScript primitives the helpers use, over exact integers: reading a
  decimal or hexadecimal digit string, `toString` in base 10 and 16, ToInt32, and bitwise OR
  (a general bit-by-bit `BitOr`, proved to set one bit when OR-ing with a power of two).
- `HexColor`: the anchored pattern as a backtracking matcher (`Exec`), proved equal to a
  direct description of its language; `ParseHexColor` (the three byte values) and `HexToRgb`
  (each divided by 255 as an exact real).
- `CssColor`: the global digit-run match (`DigitRuns`), the piece written per run
  (`RunHex`), the left fold (`Reduce`) and `RgbToHex`, whose `null.reduce` TypeError is the
  `Failure(TypeError)` result.
- `ColorRoundTrip`: the two helpers composed, as the app composes them.

What is proved, in the system's terms: `hexToRgb` is non-null exactly on an optional single
`#` followed by six hex digits, each channel is its pair's value over 255 and lies in
[0, 1], ASCII letter case and the optional `#` do not matter; `rgbToHex` throws exactly when the
string has no digit, otherwise writes `#` and lowercase hex digits only, two per run for runs
below 4096 (and only then), with bytes written zero-padded; runs 256 to 511 silently wrap to
their value minus 256; and `hexToRgb(rgbToHex("rgb(r, g, b)"))` gives back r/255, g/255,
b/255 for bytes r, g, b. A string with more or fewer than three digit runs below 4096 (for
example a transparent `rgba(0, 0, 0, 0)` background, or an alpha written `0.5`) never comes
back through `hexToRgb`: it gives `null`.

## Model

| member | source | states |
|---|---|---|
| `HexColor.ExecAcceptsHexColorStrings` | src/helpers.js:2 | the pattern matches exactly an optional single `#` followed by six hex digits and nothing else, and its three groups are the last six characters two by two |
| `HexColor.MatchGroupsExactly` | src/helpers.js:2 | the three groups followed by the end anchor match exactly a six-hex-digit string, captured two by two |
| `HexColor.PairValue` | src/helpers.js:5-7 | `parseInt` of a two-digit group is 16 times the first digit plus the second, below 256 |
| `JsNumber.HexValue` | src/helpers.js:5-7 | `parseInt(s, 16)` of k hexadecimal digits is below 16^k |
| `HexColor.Unit` | src/helpers.js:5-7 | dividing a channel by 255 gives a non-negative real that times 255 is the channel again, at most 1 for a byte |
| `HexColor.ParseHexColor` | src/helpers.js:4-8 | every channel parsed from a match is a byte (below 256) |
| `HexColor.ParseHexColorSpec` | src/helpers.js:2-8 | parsing succeeds exactly on the accepted language and reads the last six characters pairwise |
| `HexColor.HexToRgb` | src/helpers.js:1-9 | every channel of a non-null result lies in [0, 1] |
| `HexColor.HexToRgbSpec` | src/helpers.js:1-9 | non-null exactly when the input is an optional `#` plus six hex digits; each channel is its pair's value divided by 255 |
| `HexColor.DoubleHashRejected` | src/helpers.js:2 | any string starting `##` gives `null` |
| `HexColor.OptionalHash` | src/helpers.js:2 | prefixing `#` to a string that does not start with `#` does not change the result |
| `HexColor.MatchGroups` | src/helpers.js:2 | every group of a successful match of the three groups and the end anchor is exactly two hexadecimal digits |
| `HexColor.Exec` | src/helpers.js:2 | every group of a successful match is exactly two hexadecimal digits |
| `HexColor.ParseIgnoresCase` | src/helpers.js:2-8 | strings equal up to letter case parse to the same three bytes |
| `HexColor.LanguageIgnoresCase` | src/helpers.js:2 | case variants are both accepted or both rejected |
| `HexColor.CaseInsensitive` | src/helpers.js:2 | strings equal up to letter case give the same result |
| `HexColor.CaseVariantsAgree` | src/helpers.js:2 | an input, its ASCII lower-cased and its ASCII upper-cased forms give the same result |
| `HexColor.RejectedExamples` | src/helpers.js:2-8 | `##abcdef`, five digits, seven digits and a non-hex letter give `null` |
| `JsNumber.HexString` | src/helpers.js:11 | base-16 text of n: lowercase hex digits whose value is n, no leading zero |
| `JsNumber.DecimalValue` | src/helpers.js:11 | ToNumber of a run of k decimal digits is below 10^k |
| `JsNumber.ToInt32` | src/helpers.js:11 | the operand of `|` becomes a signed 32-bit value congruent to it modulo 2^32 |
| `JsNumber.BitOrPowerOfTwo` | src/helpers.js:11 | OR with 2^k keeps a value whose bit k is set and adds 2^k otherwise |
| `JsNumber.Int32Or256` | src/helpers.js:11 | `x | 256` on an int32 is an int32 with bit 8 set and the low eight bits of x, equal to x, x + 256, or x + 256 wrapped past 2^31 |
| `JsNumber.ToString16` | src/helpers.js:11 | `x.toString(16)`: a `-` exactly for negative x, then lowercase hex digits without leading zero whose value is the magnitude of x |
| `JsNumber.SetBit8` | src/helpers.js:11 | setting bit 8 of an unsigned 32-bit pattern gives a pattern below 2^32 with bit 8 set and the same low eight bits, equal to the original or 256 above it |
| `JsNumber.SetBit8IsBitOr` | src/helpers.js:11 | setting bit 8 of a 32-bit pattern is the bitwise OR with 256 |
| `CssColor.LeadingDigits` | src/helpers.js:11 | the greedy digit run at the front is all digits and maximal |
| `CssColor.DigitRuns` | src/helpers.js:11 | every match is a non-empty run of decimal digits |
| `CssColor.NoRunsIffNoDigits` | src/helpers.js:11 | the match is `null` exactly when the string has no decimal digit |
| `CssColor.SingleRun` | src/helpers.js:11 | a whole-digit string is one match |
| `CssColor.RunsAfterNonDigits` | src/helpers.js:11 | non-digits before a string add no match |
| `CssColor.RunThenNonDigit` | src/helpers.js:11 | a digit run ended by a non-digit or the end is one match, followed by the matches of the rest |
| `CssColor.RunsSplitAtNonDigit` | src/helpers.js:11 | no match spans a non-digit: the matches left and right of it are concatenated |
| `CssColor.Or256SignOrLarge` | src/helpers.js:11 | `x | 256` is negative or at least 256 |
| `CssColor.Or256OfNonNegative` | src/helpers.js:11 | for a non-negative int32 n, `n | 256` lies in [n, n + 256], is at least 256, is below 4096 exactly when n is, and is n + 256 for a byte |
| `CssColor.HexStringLength` | src/helpers.js:11 | base-16 text has one digit below 16, at most two below 256, at most three below 4096, and only there |
| `CssColor.RunHex` | src/helpers.js:11 | each run contributes at least one character, all lowercase hex digits |
| `CssColor.ByteHexValue` | src/helpers.js:5-7 | reading the two-digit form of a byte back in base 16 gives the byte |
| `CssColor.HexStringOfBit8` | src/helpers.js:11 | `toString(16)` of a value from 256 to 511 is `1` followed by the zero-padded two-digit form of its low byte, which `slice(1)` then keeps |
| `CssColor.RunHexOfByte` | src/helpers.js:11 | a run whose value is a byte is written as that byte's zero-padded lowercase two-digit hex |
| `CssColor.RunHexAboveByte` | src/helpers.js:11 | a run from 256 to 511 is written as the two-digit hex of its value minus 256 |
| `CssColor.RunHexWidth` | src/helpers.js:11 | below 2^31 a run contributes at least two characters, exactly two when its value is below 4096 |
| `CssColor.Reduce` | src/helpers.js:11 | the fold never drops or changes its initial value: the result starts with it |
| `CssColor.ReduceAppends` | src/helpers.js:11 | the fold appends the pieces of all runs, in order, to its initial value |
| `CssColor.AllRunHexAlphabet` | src/helpers.js:11 | the pieces of all runs are lowercase hex digits only, at least one per run |
| `CssColor.AllRunHexLength` | src/helpers.js:11 | runs below 2^31 contribute at least two characters each, exactly two each iff all are below 4096 |
| `CssColor.AllRunHexOfBytes` | src/helpers.js:11 | for byte runs the pieces are the runs' two-digit forms, concatenated |
| `CssColor.RgbToHex` | src/helpers.js:11 | throws exactly when the input has no digit; otherwise the output starts with `#` followed only by lowercase hex digits |
| `CssColor.RgbToHexLength` | src/helpers.js:11 | the output has at least 1 + 2k characters for k runs, exactly 1 + 2k iff every run is below 4096 |
| `ColorRoundTrip.FormatHex` | src/helpers.js:11 | the `#rrggbb` form of three bytes: seven characters, `#` then lowercase hex |
| `ColorRoundTrip.ParseFormatHex` | src/helpers.js:1-9 | `hexToRgb`'s parse reads back the three bytes from their `#rrggbb` form |
| `ColorRoundTrip.PairCanonical` | src/helpers.js:5-7 | a parsed pair written back is the pair in lowercase |
| `ColorRoundTrip.CanonicalSix` | src/helpers.js:5-7 | six parsed digits written back are the six digits in lowercase after `#` |
| `ColorRoundTrip.CanonicalForm` | src/helpers.js:1-9 | parsing a hex colour and writing it back gives `#` plus its six digits in lowercase |
| `ColorRoundTrip.RgbToHexOfBytes` | src/helpers.js:11 | with byte runs, the output is `#` followed by the runs' two-digit forms |
| `ColorRoundTrip.BytesHexOfThree` | src/helpers.js:11 | three byte runs are written as the `#rrggbb` of their values |
| `ColorRoundTrip.RgbToHexOfByteTriple` | src/helpers.js:11 | any input with exactly three byte-valued runs gives the lowercase `#rrggbb` of those bytes |
| `ColorRoundTrip.RoundTripOfByteTriple` | src/helpers.js:1-11 | such an input comes back through `hexToRgb` as its three bytes divided by 255 |
| `ColorRoundTrip.CssRgbRuns` | src/helpers.js:11 | the digit runs of `rgb(r, g, b)` are the decimal texts of r, g and b |
| `ColorRoundTrip.RoundTrip` | src/helpers.js:1-11 | for bytes r, g, b, `rgbToHex("rgb(r, g, b)")` is their `#rrggbb` and `hexToRgb` of it is r/255, g/255, b/255 |
| `ColorRoundTrip.OnlyTriplesComeBack` | src/helpers.js:1-11 | for runs below 4096, `hexToRgb` of `rgbToHex(s)` is non-null exactly when s has three digit runs |
| `ColorRoundTrip.DefaultColourExample` | src/app.js:24-31 | the app's default colour `#390fff` is what `rgbToHex` writes for `rgb(57, 15, 255)`, and `hexToRgb` reads it as 57/255, 15/255, 1 |

## Left out

- src/app.js: scene, lights, camera, meshes, physics bodies and contact materials, the
  per-frame transform copying and fixed physics step, randomised and trigonometric spawn and
  ring positions, timer-driven spawning and the debug panel are calls into three.js,
  cannon-es, Tweakpane, Stats and the DOM, which are not part of this model. There is no
  sphere removal anywhere in it (spheres are only ever added, src/app.js:495).
- src/index.js (bootstrap and hot reload) and the webpack configuration have no behaviour to
  model.
- `window.getComputedStyle` is not modelled: `CssRgb` builds the `rgb(r, g, b)` text it
  returns for an opaque colour, with the numbers written as JavaScript writes integers.
- HexColor.HexToRgb: the division by 255 is an exact real; IEEE double rounding is not
  modelled.
- HexColor.HexToRgb: the argument is a string; JavaScript's coercion of non-string
  arguments to strings is not modelled.
- CssColor.RgbToHex: requires every digit run to be below 2^53, where ToNumber of the run is
  exact; longer runs are rounded to a double before ToInt32, which is not modelled. ToInt32's
  wrap-around, the sign of `| 256` and the minus sign of a negative base-16 text are modelled
  for every run below 2^53.
- CssColor.RgbToHexLength: the "exactly 1 + 2k only if every run is below 4096" direction is
  proved for runs below 2^31 only; above that ToInt32 can make a piece shorter.
- HexColor.CaseInsensitive: case is ASCII case; under the pattern's case-insensitive flag
  without the unicode flag no non-ASCII character matches a hexadecimal digit, so nothing
  else can matter.
- HexColor.CaseVariantsAgree: the variants are the ASCII case mappings, not JavaScript's
  `toUpperCase`, which can change a string's length and make an invalid input valid (the
  ligature `ﬀ` becomes `FF`).
