/** Bytes and the hexadecimal digits used by `%XX` escapes and `secrets.token_hex`. */
module Bytes {

  /** One octet. */
  type byte = x: int | 0 <= x < 256

  /** The value of an ASCII character as a byte (characters above U+007F are not bytes). */
  predicate IsAscii(c: char) { c as int < 128 }

  /** `'0'`..`'9'`, `'A'`..`'F'` or `'a'`..`'f'`: the digits a `%XX` escape may hold. */
  predicate IsHexDigit(c: char)
  {
    ('0' <= c <= '9') || ('A' <= c <= 'F') || ('a' <= c <= 'f')
  }

  /** Lower-case hexadecimal digit: what `bytes.hex()` emits. */
  predicate IsLowerHexDigit(c: char)
  {
    ('0' <= c <= '9') || ('a' <= c <= 'f')
  }

  function HexValue(c: char): (v: int)
    requires IsHexDigit(c)
    ensures 0 <= v < 16
  {
    if '0' <= c <= '9' then c as int - '0' as int
    else if 'A' <= c <= 'F' then c as int - 'A' as int + 10
    else c as int - 'a' as int + 10
  }

  /** The digit for `v` in upper case (`'%{:02X}'` in `urllib.parse.quote`). */
  function UpperDigit(v: int): (c: char)
    requires 0 <= v < 16
    ensures IsHexDigit(c) && HexValue(c) == v
    ensures !('a' <= c <= 'f')
  {
    if v < 10 then ('0' as int + v) as char else ('A' as int + v - 10) as char
  }

  /** The digit for `v` in lower case (`bytes.hex()`, used by `secrets.token_hex`). */
  function LowerDigit(v: int): (c: char)
    requires 0 <= v < 16
    ensures IsLowerHexDigit(c) && IsHexDigit(c) && HexValue(c) == v
  {
    if v < 10 then ('0' as int + v) as char else ('a' as int + v - 10) as char
  }

  /** `bytes.hex()`: two lower-case digits per byte, high nibble first. */
  function HexLower(bs: seq<byte>): (s: string)
    ensures |s| == 2 * |bs|
    ensures forall i :: 0 <= i < |s| ==> IsLowerHexDigit(s[i])
  {
    if bs == [] then []
    else [LowerDigit(bs[0] / 16), LowerDigit(bs[0] % 16)] + HexLower(bs[1..])
  }
}
