/** Character classes used by the two colour regular expressions, and ASCII case mapping. */
module Ascii {

  /** `\d` and `[0-9]`: the ten ASCII decimal digits. */
  predicate IsDigit(c: char)
  {
    '0' <= c <= '9'
  }

  /** A hexadecimal digit as the case-insensitive colour pattern reads it: a decimal digit
      or one of the letters a to f in either case.
      Under `i` without `u`, a non-ASCII character never canonicalises to an ASCII one,
      so no other character matches. */
  predicate IsHexDigit(c: char)
  {
    IsDigit(c) || 'a' <= c <= 'f' || 'A' <= c <= 'F'
  }

  /** The digits `Number.prototype.toString(16)` writes: 0-9 and lowercase a-f. */
  predicate IsLowerHexDigit(c: char)
  {
    IsDigit(c) || 'a' <= c <= 'f'
  }

  predicate AllDigits(s: seq<char>)
  {
    forall i :: 0 <= i < |s| ==> IsDigit(s[i])
  }

  predicate AllHexDigits(s: seq<char>)
  {
    forall i :: 0 <= i < |s| ==> IsHexDigit(s[i])
  }

  predicate AllLowerHexDigits(s: seq<char>)
  {
    forall i :: 0 <= i < |s| ==> IsLowerHexDigit(s[i])
  }

  lemma LowerHexConcat(a: seq<char>, b: seq<char>)
    requires AllLowerHexDigits(a) && AllLowerHexDigits(b)
    ensures AllLowerHexDigits(a + b)
  {
    assert forall i :: |a| <= i < |a| + |b| ==> (a + b)[i] == b[i - |a|];
  }

  function DigitValue(c: char): (d: nat)
    requires IsDigit(c)
    ensures d < 10
  {
    c as int - '0' as int
  }

  /** The value `parseInt(c, 16)` gives a single hexadecimal digit, in either case. */
  function HexDigitValue(c: char): (d: nat)
    requires IsHexDigit(c)
    ensures d < 16
    ensures IsDigit(c) <==> d < 10
  {
    if IsDigit(c) then c as int - '0' as int
    else if 'a' <= c <= 'f' then c as int - 'a' as int + 10
    else c as int - 'A' as int + 10
  }

  /** The decimal digit character for d. */
  function DecimalDigit(d: nat): (c: char)
    requires d < 10
    ensures IsDigit(c) && DigitValue(c) == d
  {
    ('0' as int + d) as char
  }

  /** The lowercase hexadecimal digit character for d, as `toString(16)` writes it. */
  function LowerHexDigit(d: nat): (c: char)
    requires d < 16
    ensures IsLowerHexDigit(c) && IsHexDigit(c) && HexDigitValue(c) == d
  {
    if d < 10 then ('0' as int + d) as char else ('a' as int + d - 10) as char
  }

  /** ASCII lower-casing: A-Z become a-z, every other character is kept. */
  function ToLower(c: char): char
  {
    if 'A' <= c <= 'Z' then (c as int + 32) as char else c
  }

  /** ASCII upper-casing: a-z become A-Z, every other character is kept. */
  function ToUpper(c: char): char
  {
    if 'a' <= c <= 'z' then (c as int - 32) as char else c
  }

  /** Two characters that the `i` flag does not tell apart. */
  predicate SameLetterIgnoringCase(a: char, b: char)
  {
    ToLower(a) == ToLower(b)
  }

  /** A character and a case variant of it are both hexadecimal digits or both not,
      and denote the same digit value. */
  lemma HexDigitIgnoresCase(a: char, b: char)
    requires SameLetterIgnoringCase(a, b)
    ensures IsHexDigit(a) <==> IsHexDigit(b)
    ensures IsHexDigit(a) ==> HexDigitValue(a) == HexDigitValue(b)
    ensures a == '#' <==> b == '#'
  {
  }

  lemma CaseVariants(c: char)
    ensures SameLetterIgnoringCase(c, ToLower(c))
    ensures SameLetterIgnoringCase(c, ToUpper(c))
  {
  }
}
