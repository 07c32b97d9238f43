/** Shared vocabulary: optional values, results, bytes and the 32-bit integer
    arithmetic of the JVM (wrap-around, truncating division and remainder). */
module Common {

  datatype Option<+T> = None | Some(value: T)

  datatype Result<+T, +E> = Success(value: T) | Failure(error: E)

  /** A JVM byte, viewed unsigned (`b.toInt() and 0xFF`). */
  type Byte = b: int | 0 <= b < 256

  /** The signed value of a JVM byte (`b.toInt()` without masking). */
  function Signed(b: Byte): (v: int)
    ensures -128 <= v < 128
    ensures v % 256 == b
  {
    if b < 128 then b else b - 256
  }

  /** The code of an ASCII character as a byte (`'G'.code.toByte()`). */
  function Ascii(c: char): Byte
    requires c as int < 128
  {
    c as int
  }

  const Int32Modulus: int := 0x1_0000_0000
  const Int32Min: int := -0x8000_0000
  const Int32Max: int := 0x7FFF_FFFF

  predicate IsInt32(x: int) {
    Int32Min <= x <= Int32Max
  }

  /** A JVM `Int`. */
  type Int32 = x: int | -0x8000_0000 <= x < 0x8000_0000

  /** Two's complement wrap-around of an `Int` result. */
  function ToInt32(x: int): (r: int)
    ensures IsInt32(r)
    ensures (r - x) % Int32Modulus == 0
    ensures IsInt32(x) ==> r == x
  {
    (x - Int32Min) % Int32Modulus + Int32Min
  }

  /** Kotlin's `a % b` for a positive divisor: the sign follows the dividend. */
  function TruncRem(a: int, b: int): (r: int)
    requires b > 0
    ensures a >= 0 ==> 0 <= r < b
    ensures a < 0 ==> -b < r <= 0
  {
    if a >= 0 then a % b else -((-a) % b)
  }

  /** Kotlin's `a / b` for a positive divisor: rounds toward zero. */
  function TruncDiv(a: int, b: int): (q: int)
    requires b > 0
    ensures a >= 0 ==> q == a / b
    ensures a < 0 ==> q == -((-a) / b)
  {
    if a >= 0 then a / b else -((-a) / b)
  }

  function Max(a: int, b: int): (m: int)
    ensures m >= a && m >= b && (m == a || m == b)
  {
    if a >= b then a else b
  }

  function Min(a: int, b: int): (m: int)
    ensures m <= a && m <= b && (m == a || m == b)
  {
    if a <= b then a else b
  }

  /** Decimal rendering of an integer, as string templates print an `Int`. */
  function IntToString(i: int): (s: string)
    ensures |s| > 0
  {
    if i < 0 then "-" + NatToString(-i) else NatToString(i)
  }

  function NatToString(n: nat): (s: string)
    ensures |s| > 0
    ensures |s| == 1 <==> n < 10
    ensures forall k :: 0 <= k < |s| ==> '0' <= s[k] <= '9'
  {
    if n < 10 then [DigitChar(n)] else NatToString(n / 10) + [DigitChar(n % 10)]
  }

  function DigitChar(d: nat): (c: char)
    requires d < 10
    ensures '0' <= c <= '9'
  {
    ('0' as int + d) as char
  }

  /** Decimal rendering is injective: digits are read back from the right. */
  lemma {:induction false} NatToStringInjective(m: nat, n: nat)
    requires NatToString(m) == NatToString(n)
    ensures m == n
  {
    var sm, sn := NatToString(m), NatToString(n);
    if m >= 10 {
      assert sm == NatToString(m / 10) + [DigitChar(m % 10)];
      assert sn == NatToString(n / 10) + [DigitChar(n % 10)];
      assert sm[..|sm| - 1] == NatToString(m / 10);
      assert sn[..|sn| - 1] == NatToString(n / 10);
      NatToStringInjective(m / 10, n / 10);
      assert DigitChar(m % 10) == sm[|sm| - 1] == sn[|sn| - 1] == DigitChar(n % 10);
    } else {
      assert DigitChar(m) == sm[0] == sn[0] == DigitChar(n);
    }
  }

  /** A rendered integer starts with '-' exactly when it is negative. */
  lemma IntToStringSign(a: int)
    ensures IntToString(a)[0] == '-' <==> a < 0
  {
    if a >= 0 {
      assert '0' <= NatToString(a)[0] <= '9';
    }
  }

  lemma IntToStringInjective(a: int, b: int)
    requires IntToString(a) == IntToString(b)
    ensures a == b
  {
    var sa, sb := IntToString(a), IntToString(b);
    IntToStringSign(a);
    IntToStringSign(b);
    if a < 0 {
      assert sa == "-" + NatToString(-a) && sb == "-" + NatToString(-b);
      assert sa[1..] == NatToString(-a) && sb[1..] == NatToString(-b);
      NatToStringInjective(-a, -b);
    } else {
      NatToStringInjective(a, b);
    }
  }

  /** `s` contains no '-'. */
  predicate NoDash(s: string) {
    forall i :: 0 <= i < |s| ==> s[i] != '-'
  }

  /** Index of the first '-' in `s` (or `|s|`). */
  function FirstDash(s: string): (i: nat)
    ensures i <= |s|
  {
    if s == [] || s[0] == '-' then 0 else 1 + FirstDash(s[1..])
  }

  lemma {:induction false} FirstDashAfterPrefix(x: string, y: string)
    requires NoDash(x)
    ensures FirstDash(x + "-" + y) == |x|
  {
    if x != [] {
      assert (x + "-" + y)[1..] == x[1..] + "-" + y;
      FirstDashAfterPrefix(x[1..], y);
    }
  }

  /** A dash-free prefix is recovered from its first dash. */
  lemma SplitAtFirstDash(x: string, y: string, x': string, y': string)
    requires NoDash(x) && NoDash(x')
    requires x + "-" + y == x' + "-" + y'
    ensures x == x' && y == y'
  {
    var s := x + "-" + y;
    FirstDashAfterPrefix(x, y);
    FirstDashAfterPrefix(x', y');
    assert x == s[..|x|] == x';
    assert y == s[|x| + 1..] == y';
  }

  /** A rendered integer followed by a dash is recovered from the string, and
      so is the rest: a leading '-' marks the sign, then the digits run up to
      the first dash. */
  lemma SplitAtSignedPrefix(a: int, y: string, b: int, y': string)
    requires IntToString(a) + "-" + y == IntToString(b) + "-" + y'
    ensures a == b && y == y'
  {
    var sa, sb := IntToString(a), IntToString(b);
    assert sa[0] == (sa + "-" + y)[0] == (sb + "-" + y')[0] == sb[0];
    IntToStringSign(a);
    IntToStringSign(b);
    if a < 0 {
      var tm, tn := NatToString(-a) + "-" + y, NatToString(-b) + "-" + y';
      assert sa + "-" + y == "-" + tm;
      assert sb + "-" + y' == "-" + tn;
      assert tm == ("-" + tm)[1..];
      assert tn == ("-" + tn)[1..];
      SplitAtNatPrefix(-a, y, -b, y');
    } else {
      SplitAtNatPrefix(a, y, b, y');
    }
  }

  lemma NatNoDash(n: nat)
    ensures NoDash(NatToString(n))
  {
  }

  lemma SplitAtNatPrefix(m: nat, y: string, n: nat, y': string)
    requires NatToString(m) + "-" + y == NatToString(n) + "-" + y'
    ensures m == n && y == y'
  {
    NatNoDash(m);
    NatNoDash(n);
    SplitAtFirstDash(NatToString(m), y, NatToString(n), y');
    NatToStringInjective(m, n);
  }
}
