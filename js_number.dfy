/** The JavaScript number primitives the colour helpers rely on, over exact integers:
    reading a decimal or hexadecimal digit string, `Number.prototype.toString` in base 10
    and 16, ToInt32 and the bitwise `|` operator. */
module JsNumber {
  import opened Ascii

  const TwoTo31: int := 0x8000_0000
  const TwoTo32: int := 0x1_0000_0000
  /** Integers below this bound are exact JavaScript numbers. */
  const TwoTo53: int := 0x20_0000_0000_0000

  /** The integer a string of decimal digits denotes; what ToNumber gives for it,
      leading zeros included, while the value stays below 2^53. */
  function DecimalValue(s: seq<char>): (n: nat)
    requires AllDigits(s)
    ensures n < Power(10, |s|)
  {
    if s == [] then 0 else 10 * DecimalValue(s[..|s| - 1]) + DigitValue(s[|s| - 1])
  }

  /** The integer a string of hexadecimal digits (either case) denotes: `parseInt(s, 16)`. */
  function HexValue(s: seq<char>): (n: nat)
    requires AllHexDigits(s)
    ensures n < Power(16, |s|)
  {
    if s == [] then 0 else 16 * HexValue(s[..|s| - 1]) + HexDigitValue(s[|s| - 1])
  }

  /** `String(n)` for a non-negative integer: its decimal digits without leading zeros. */
  function DecimalString(n: nat): (s: seq<char>)
    ensures |s| >= 1 && AllDigits(s)
    ensures DecimalValue(s) == n
    ensures |s| > 1 ==> s[0] != '0'
  {
    if n < 10 then [DecimalDigit(n)]
    else
      var high := DecimalString(n / 10);
      var s := high + [DecimalDigit(n % 10)];
      assert s[..|s| - 1] == high;
      assert DecimalValue(s) == 10 * (n / 10) + n % 10;
      assert |high| == 1 ==> high[0] != '0';
      s
  }

  /** `n.toString(16)` for a non-negative integer: lowercase hexadecimal, no leading zeros. */
  function HexString(n: nat): (s: seq<char>)
    ensures |s| >= 1 && AllLowerHexDigits(s) && AllHexDigits(s)
    ensures HexValue(s) == n
    ensures |s| > 1 ==> s[0] != '0'
  {
    if n < 16 then [LowerHexDigit(n)]
    else
      var high := HexString(n / 16);
      var s := high + [LowerHexDigit(n % 16)];
      assert s[..|s| - 1] == high;
      assert HexValue(s) == 16 * (n / 16) + n % 16;
      assert |high| == 1 ==> high[0] != '0';
      s
  }

  /** `x.toString(16)` for any integer: a minus sign, then the digits of the magnitude. */
  function ToString16(x: int): (s: seq<char>)
    ensures |s| >= 1 && (s[0] == '-' <==> x < 0)
    ensures var digits := if x < 0 then s[1..] else s;
      && |digits| >= 1 && AllHexDigits(digits) && AllLowerHexDigits(digits)
      && HexValue(digits) == (if x < 0 then -x else x)
      && (|digits| > 1 ==> digits[0] != '0')
  {
    if x < 0 then ['-'] + HexString(-x) else HexString(x)
  }

  /** ToInt32: the low 32 bits of n read as a two's-complement number. */
  function ToInt32(n: int): (x: int)
    ensures -TwoTo31 <= x < TwoTo31
    ensures (n - x) % TwoTo32 == 0
  {
    var u := n % TwoTo32;
    if u < TwoTo31 then u else u - TwoTo32
  }

  /** Bitwise OR of two non-negative integers, bit by bit from the least significant. */
  function BitOr(a: nat, b: nat): nat
  {
    if a == 0 then b
    else if b == 0 then a
    else 2 * BitOr(a / 2, b / 2) + (if a % 2 == 1 || b % 2 == 1 then 1 else 0)
  }

  /** b raised to the k-th power. */
  function Power(b: nat, k: nat): (p: nat)
    ensures b >= 1 ==> p >= 1
  {
    if k == 0 then 1 else b * Power(b, k - 1)
  }

  /** The bit pattern of an int32 with bit 8 set, read unsigned: kept when the bit is already
      set, raised by 256 otherwise. */
  function SetBit8(u: nat): (v: nat)
    requires u < TwoTo32
    ensures 256 <= v < TwoTo32 && (v == u || v == u + 256)
    ensures (v / 256) % 2 == 1 && v % 256 == u % 256
  {
    if (u / 256) % 2 == 1 then u
    else
      SetBit8StaysBelow(u, TwoTo32);
      u + 256
  }

  /** `x | 256` on a 32-bit integer x: set bit 8 of its two's-complement pattern and read the
      result back as a signed 32-bit integer. */
  function Int32Or256(x: int): (y: int)
    requires -TwoTo31 <= x < TwoTo31
    ensures -TwoTo31 <= y < TwoTo31
    ensures (y / 256) % 2 == 1 && y % 256 == x % 256
    ensures y == x || y == x + 256 || y == x + 256 - TwoTo32
  {
    var v := SetBit8(x % TwoTo32);
    if v < TwoTo31 then v else v - TwoTo32
  }

  /** Setting a clear bit 8 of a value below a multiple of 512 keeps it below. */
  lemma SetBit8StaysBelow(u: nat, bound: nat)
    requires u < bound && bound % 512 == 0 && (u / 256) % 2 == 0
    ensures u + 256 < bound
  {
    var q := u / 256;
    assert u == 256 * q + u % 256;
    assert bound == 256 * (bound / 256);
    assert (bound / 256) % 2 == 0 by {
      assert bound == 512 * (bound / 512);
      DivUnique(bound, 256, 2 * (bound / 512), 0);
    }
    assert q < bound / 256;
    assert q + 1 < bound / 256;
  }

  /** Division is determined by any decomposition with a remainder in range. */
  lemma DivUnique(u: int, d: int, q: int, r: int)
    requires d >= 1 && 0 <= r < d && u == d * q + r
    ensures u / d == q && u % d == r
  {
    var q', r' := u / d, u % d;
    assert u == d * q' + r' && 0 <= r' < d;
    if q > q' {
      MulAtLeast(d, q - q');
    } else if q < q' {
      MulAtLeast(d, q' - q);
    }
  }

  lemma {:induction false} MulAtLeast(d: nat, k: nat)
    requires k >= 1
    ensures d * k >= d
  {
    if k > 1 {
      MulAtLeast(d, k - 1);
      assert d * k == d * (k - 1) + d;
    }
  }

  lemma DivTwice(u: nat, m: nat)
    requires m >= 1
    ensures (u / 2) / m == u / (2 * m)
  {
    var q, r := u / (2 * m), u % (2 * m);
    assert u == (2 * m) * q + r;
    DivUnique(u, 2, m * q + r / 2, r % 2);
    DivUnique(u / 2, m, q, r / 2);
  }

  /** OR-ing with a single bit 2^k sets that bit: the value is kept when the bit is
      already set, and grows by 2^k otherwise. */
  lemma {:induction false} BitOrPowerOfTwo(u: nat, k: nat)
    ensures BitOr(u, Power(2, k)) == if (u / Power(2, k)) % 2 == 1 then u else u + Power(2, k)
  {
    if k == 0 {
    } else if u == 0 {
    } else {
      var m := Power(2, k - 1);
      assert Power(2, k) == 2 * m;
      assert BitOr(u, 2 * m) == 2 * BitOr(u / 2, m) + (if u % 2 == 1 then 1 else 0) by {
        assert (2 * m) / 2 == m && (2 * m) % 2 == 0;
      }
      BitOrPowerOfTwo(u / 2, k - 1);
      DivTwice(u, m);
    }
  }

  /** Setting bit 8 is what the bitwise OR with 256 does to a 32-bit pattern. */
  lemma SetBit8IsBitOr(u: nat)
    requires u < TwoTo32
    ensures SetBit8(u) == BitOr(u, 256)
  {
    assert Power(2, 8) == 256 by {
      assert Power(2, 1) == 2 && Power(2, 2) == 4 && Power(2, 3) == 8 && Power(2, 4) == 16;
      assert Power(2, 5) == 32 && Power(2, 6) == 64 && Power(2, 7) == 128;
    }
    BitOrPowerOfTwo(u, 8);
  }
}
