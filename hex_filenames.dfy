/** Cache file names: the lowercase hexadecimal rendering of a digest, two
    digits per byte (`joinToString("") { "%02x".format(it) }`), and its inverse. */
module HexFilenames {
  import opened Common

  /** A lowercase hexadecimal digit. */
  predicate IsHexDigit(c: char) {
    '0' <= c <= '9' || 'a' <= c <= 'f'
  }

  function HexDigit(v: nat): (c: char)
    requires v < 16
    ensures IsHexDigit(c)
  {
    if v < 10 then ('0' as int + v) as char else ('a' as int + v - 10) as char
  }

  /** `"%02x".format(b)`: two lowercase hex digits, high nibble first. */
  function HexByte(b: Byte): (s: string)
    ensures |s| == 2 && IsHexDigit(s[0]) && IsHexDigit(s[1])
  {
    [HexDigit(b / 16), HexDigit(b % 16)]
  }

  /** The digest rendered as hex, byte by byte. */
  function Hex(d: seq<Byte>): (s: string)
    ensures |s| == 2 * |d|
    ensures forall i :: 0 <= i < |s| ==> IsHexDigit(s[i])
  {
    if d == [] then "" else HexByte(d[0]) + Hex(d[1..])
  }

  function HexValue(c: char): (v: nat)
    requires IsHexDigit(c)
    ensures v < 16 && HexDigit(v) == c
  {
    if '0' <= c <= '9' then c as int - '0' as int else c as int - 'a' as int + 10
  }

  /** Reads a hex rendering back into bytes. */
  function UnHex(s: string): (d: seq<Byte>)
    requires |s| % 2 == 0
    requires forall i :: 0 <= i < |s| ==> IsHexDigit(s[i])
    ensures 2 * |d| == |s|
  {
    if s == [] then [] else [HexValue(s[0]) * 16 + HexValue(s[1])] + UnHex(s[2..])
  }

  lemma HexByteRoundTrip(b: Byte)
    ensures HexValue(HexByte(b)[0]) * 16 + HexValue(HexByte(b)[1]) == b
  {
  }

  /** Reading the rendering back gives the digest. */
  lemma {:induction false} HexRoundTrip(d: seq<Byte>)
    ensures UnHex(Hex(d)) == d
  {
    if d != [] {
      var s := Hex(d);
      assert s[..2] == HexByte(d[0]) && s[2..] == Hex(d[1..]);
      HexByteRoundTrip(d[0]);
      HexRoundTrip(d[1..]);
    }
  }

  /** Distinct digests never share a rendering. */
  lemma HexInjective(d1: seq<Byte>, d2: seq<Byte>)
    ensures Hex(d1) == Hex(d2) <==> d1 == d2
  {
    if Hex(d1) == Hex(d2) {
      HexRoundTrip(d1);
      HexRoundTrip(d2);
    }
  }
}
