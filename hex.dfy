/** Hexadecimal digits, as Python's `int(s, 16)` reads them and `'%x'` writes them. */
module HexDigits {

  /** The value of one hexadecimal digit. */
  type Nibble = n: int | 0 <= n < 16

  predicate IsHexDigit(c: char) {
    '0' <= c <= '9' || 'a' <= c <= 'f' || 'A' <= c <= 'F'
  }

  predicate AllHex(s: string) {
    forall i :: 0 <= i < |s| ==> IsHexDigit(s[i])
  }

  /** Reads a digit of either case. */
  function HexValue(c: char): Nibble
    requires IsHexDigit(c)
  {
    if c <= '9' then c as int - '0' as int
    else if c <= 'F' then c as int - 'A' as int + 10
    else c as int - 'a' as int + 10
  }

  /** Writes a digit in lower case, as `'%x'` does; reading it back gives the same value. */
  function HexChar(n: Nibble): (c: char)
    ensures IsHexDigit(c) && !('A' <= c <= 'F')
    ensures HexValue(c) == n
  {
    if n < 10 then ('0' as int + n) as char else ('a' as int + n - 10) as char
  }

  /** The lower-case form of a digit. */
  function LowerHex(c: char): (r: char)
    requires IsHexDigit(c)
    ensures IsHexDigit(r) && !('A' <= r <= 'F') && HexValue(r) == HexValue(c)
    ensures !('A' <= c <= 'F') ==> r == c
  {
    if 'A' <= c <= 'F' then (c as int - 'A' as int + 'a' as int) as char else c
  }

  /** Writing a digit's value gives back the digit in lower case. */
  lemma HexCharOfValue(c: char)
    requires IsHexDigit(c)
    ensures HexChar(HexValue(c)) == LowerHex(c)
  {
  }

  /** Digits written in lower case, most significant first. */
  function Hex(ds: seq<Nibble>): (s: string)
    ensures |s| == |ds| && AllHex(s)
    ensures forall i :: 0 <= i < |s| ==> !('A' <= s[i] <= 'F')
    ensures Nibbles(s) == ds
  {
    seq(|ds|, i requires 0 <= i < |ds| => HexChar(ds[i]))
  }

  /** The digit values of an all-hexadecimal string. */
  function Nibbles(s: string): (ds: seq<Nibble>)
    requires AllHex(s)
    ensures |ds| == |s|
  {
    seq(|s|, i requires 0 <= i < |s| => HexValue(s[i]))
  }

  /** Writing the digits read from `s` gives `s` in lower case. */
  lemma {:induction false} HexOfNibbles(s: string)
    requires AllHex(s)
    ensures |Hex(Nibbles(s))| == |s|
    ensures forall i :: 0 <= i < |s| ==> Hex(Nibbles(s))[i] == LowerHex(s[i])
  {
    forall i | 0 <= i < |s|
      ensures Hex(Nibbles(s))[i] == LowerHex(s[i])
    {
      HexCharOfValue(s[i]);
    }
  }

  lemma HexConcat(a: seq<Nibble>, b: seq<Nibble>)
    ensures Hex(a + b) == Hex(a) + Hex(b)
  {
  }

  /** A 16-bit number as four lower-case digits, as `'{0:04x}'.format(n)` writes it. */
  function Hex4(n: nat): (s: string)
    requires n < 0x10000
    ensures |s| == 4 && AllHex(s) && Value4(s) == n
  {
    var r1 := n % 0x1000;
    var r2 := r1 % 0x100;
    assert n == n / 0x1000 * 0x1000 + r1;
    assert r1 == r1 / 0x100 * 0x100 + r2;
    assert r2 == r2 / 16 * 16 + r2 % 16;
    [HexChar(n / 0x1000), HexChar(r1 / 0x100), HexChar(r2 / 16), HexChar(r2 % 16)]
  }

  /** The number four digits stand for. */
  function Value4(s: string): (n: nat)
    requires |s| == 4 && AllHex(s)
    ensures n < 0x10000
  {
    HexValue(s[0]) * 0x1000 + HexValue(s[1]) * 0x100 + HexValue(s[2]) * 16 + HexValue(s[3])
  }
}
