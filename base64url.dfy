/**
 * `base64.urlsafe_b64encode` (section 5 of RFC 4648: the alphabet with `-`
 * and `_` in place of `+` and `/`) followed by `.rstrip("=")`, the unpadded
 * form section 4.1 of RFC 7636 asks of a code verifier and challenge.
 */
module Base64Url {
  import opened Bytes

  /** A character of the URL-safe alphabet `[A-Za-z0-9_-]`. */
  predicate IsUrlSafe(c: char)
  {
    ('A' <= c <= 'Z') || ('a' <= c <= 'z') || ('0' <= c <= '9') || c == '-' || c == '_'
  }

  /** The alphabet symbol of the six-bit value `i`. */
  function Symbol(i: int): (c: char)
    requires 0 <= i < 64
    ensures IsUrlSafe(c)
  {
    if i < 26 then ('A' as int + i) as char
    else if i < 52 then ('a' as int + i - 26) as char
    else if i < 62 then ('0' as int + i - 52) as char
    else if i == 62 then '-'
    else '_'
  }

  /** The six-bit value of an alphabet symbol. */
  function SymbolValue(c: char): (i: int)
    requires IsUrlSafe(c)
    ensures 0 <= i < 64 && Symbol(i) == c
  {
    if 'A' <= c <= 'Z' then c as int - 'A' as int
    else if 'a' <= c <= 'z' then c as int - 'a' as int + 26
    else if '0' <= c <= '9' then c as int - '0' as int + 52
    else if c == '-' then 62
    else 63
  }

  lemma SymbolValueOfSymbol(i: int)
    requires 0 <= i < 64
    ensures SymbolValue(Symbol(i)) == i
  {
  }

  /** The four symbols of a full three-byte group. */
  function Quantum(b0: byte, b1: byte, b2: byte): (q: string)
    ensures |q| == 4 && forall i :: 0 <= i < 4 ==> IsUrlSafe(q[i])
  {
    [Symbol(b0 / 4), Symbol((b0 % 4) * 16 + b1 / 16), Symbol((b1 % 16) * 4 + b2 / 64), Symbol(b2 % 64)]
  }

  /** `base64.urlsafe_b64encode(bs)`, padded with `=` to a multiple of four. */
  function EncodePadded(bs: seq<byte>): (s: string)
    ensures |s| == 4 * ((|bs| + 2) / 3)
  {
    if |bs| >= 3 then
      assert (|bs| + 2) / 3 == (|bs| - 3 + 2) / 3 + 1;
      Quantum(bs[0], bs[1], bs[2]) + EncodePadded(bs[3..])
    else if |bs| == 2 then [Symbol(bs[0] / 4), Symbol((bs[0] % 4) * 16 + bs[1] / 16), Symbol((bs[1] % 16) * 4), '=']
    else if |bs| == 1 then [Symbol(bs[0] / 4), Symbol((bs[0] % 4) * 16), '=', '=']
    else []
  }

  /** `s.rstrip(c)`: `s` without its trailing run of `c`. */
  function RStrip(s: string, c: char): (r: string)
    ensures |r| <= |s| && r == s[..|r|]
    ensures r == [] || r[|r| - 1] != c
    ensures forall i :: |r| <= i < |s| ==> s[i] == c
  {
    if s != [] && s[|s| - 1] == c then RStrip(s[..|s| - 1], c) else s
  }

  /** `base64.urlsafe_b64encode(bs).decode().rstrip("=")`. */
  function EncodeNoPad(bs: seq<byte>): string
  {
    RStrip(EncodePadded(bs), '=')
  }

  /** The significant symbols of the encoding, without padding. */
  function Digits(bs: seq<byte>): (s: string)
    ensures |s| == (4 * |bs| + 2) / 3
    ensures forall i :: 0 <= i < |s| ==> IsUrlSafe(s[i])
  {
    if |bs| >= 3 then
      assert (4 * |bs| + 2) / 3 == (4 * (|bs| - 3) + 2) / 3 + 4;
      Quantum(bs[0], bs[1], bs[2]) + Digits(bs[3..])
    else if |bs| == 2 then [Symbol(bs[0] / 4), Symbol((bs[0] % 4) * 16 + bs[1] / 16), Symbol((bs[1] % 16) * 4)]
    else if |bs| == 1 then [Symbol(bs[0] / 4), Symbol((bs[0] % 4) * 16)]
    else []
  }

  /** The padding `urlsafe_b64encode` appends after `n` bytes. */
  function Padding(n: nat): string
  {
    if n % 3 == 1 then "==" else if n % 3 == 2 then "=" else ""
  }

  lemma {:induction false} PaddedIsDigitsThenPadding(bs: seq<byte>)
    ensures EncodePadded(bs) == Digits(bs) + Padding(|bs|)
  {
    if |bs| == 2 {
      assert Padding(|bs|) == "=";
    } else if |bs| == 1 {
      assert Padding(|bs|) == "==";
    } else if |bs| >= 3 {
      PaddedIsDigitsThenPadding(bs[3..]);
      PaddingStep(|bs|);
      assert EncodePadded(bs) == Quantum(bs[0], bs[1], bs[2]) + EncodePadded(bs[3..]);
      assert Digits(bs) == Quantum(bs[0], bs[1], bs[2]) + Digits(bs[3..]);
    }
  }

  lemma PaddingStep(n: nat)
    requires n >= 3
    ensures Padding(n - 3) == Padding(n)
  {
  }

  lemma {:induction false} RStripDigits(d: string, pad: string)
    requires forall i :: 0 <= i < |d| ==> IsUrlSafe(d[i])
    requires forall i :: 0 <= i < |pad| ==> pad[i] == '='
    ensures RStrip(d + pad, '=') == d
  {
    if pad == [] {
      assert d + pad == d;
    } else {
      var p' := pad[..|pad| - 1];
      assert (d + pad)[..|d + pad| - 1] == d + p';
      RStripDigits(d, p');
    }
  }

  /** Stripping the padding leaves exactly the significant symbols. */
  lemma EncodeNoPadIsDigits(bs: seq<byte>)
    ensures EncodeNoPad(bs) == Digits(bs)
  {
    PaddedIsDigitsThenPadding(bs);
    RStripDigits(Digits(bs), Padding(|bs|));
  }

  /**
   * The unpadded encoding has ceil(4n/3) characters, all from `[A-Za-z0-9_-]`
   * and none of them `=`: 43 characters for 32 bytes.
   */
  lemma EncodeNoPadShape(bs: seq<byte>)
    ensures |EncodeNoPad(bs)| == (4 * |bs| + 2) / 3
    ensures forall i :: 0 <= i < |EncodeNoPad(bs)| ==> IsUrlSafe(EncodeNoPad(bs)[i])
    ensures '=' !in EncodeNoPad(bs)
  {
    EncodeNoPadIsDigits(bs);
  }

  /** The three bytes of four symbols. */
  function DecodeQuantum(q: string): seq<byte>
    requires |q| == 4 && forall i :: 0 <= i < 4 ==> IsUrlSafe(q[i])
  {
    var i0, i1, i2, i3 := SymbolValue(q[0]), SymbolValue(q[1]), SymbolValue(q[2]), SymbolValue(q[3]);
    [i0 * 4 + i1 / 16, (i1 % 16) * 16 + i2 / 4, (i2 % 4) * 64 + i3]
  }

  /** The bytes of a final group of two or three symbols. */
  function DecodeTail(t: string): seq<byte>
    requires 2 <= |t| <= 3 && forall i :: 0 <= i < |t| ==> IsUrlSafe(t[i])
  {
    var i0, i1 := SymbolValue(t[0]), SymbolValue(t[1]);
    if |t| == 3 then [i0 * 4 + i1 / 16, (i1 % 16) * 16 + SymbolValue(t[2]) / 4]
    else [i0 * 4 + i1 / 16]
  }

  /** Decoding of significant symbols, the inverse of `Digits`. */
  function DecodeDigits(s: string): (bs: seq<byte>)
    requires forall i :: 0 <= i < |s| ==> IsUrlSafe(s[i])
  {
    if |s| >= 4 then DecodeQuantum(s[..4]) + DecodeDigits(s[4..])
    else if |s| >= 2 then DecodeTail(s)
    else []
  }

  lemma Nibbles16(h: int, l: int)
    requires 0 <= l < 16
    ensures (h * 16 + l) / 16 == h && (h * 16 + l) % 16 == l
  {
  }

  lemma Nibbles4(h: int, l: int)
    requires 0 <= l < 4
    ensures (h * 4 + l) / 4 == h && (h * 4 + l) % 4 == l
  {
  }

  lemma QuantumDecodes(b0: byte, b1: byte, b2: byte)
    ensures DecodeQuantum(Quantum(b0, b1, b2)) == [b0, b1, b2]
  {
    SymbolValueOfSymbol(b0 / 4);
    SymbolValueOfSymbol((b0 % 4) * 16 + b1 / 16);
    SymbolValueOfSymbol((b1 % 16) * 4 + b2 / 64);
    SymbolValueOfSymbol(b2 % 64);
    Nibbles16(b0 % 4, b1 / 16);
    Nibbles4(b1 % 16, b2 / 64);
  }

  lemma QuantumDecodesPrefix(bs: seq<byte>)
    requires |bs| >= 3
    ensures DecodeQuantum(Quantum(bs[0], bs[1], bs[2])) == bs[..3]
  {
    QuantumDecodes(bs[0], bs[1], bs[2]);
  }

  lemma TwoBytesDecode(b0: byte, b1: byte)
    ensures DecodeTail([Symbol(b0 / 4), Symbol((b0 % 4) * 16 + b1 / 16), Symbol((b1 % 16) * 4)]) == [b0, b1]
  {
    SymbolValueOfSymbol(b0 / 4);
    SymbolValueOfSymbol((b0 % 4) * 16 + b1 / 16);
    SymbolValueOfSymbol((b1 % 16) * 4);
    Nibbles16(b0 % 4, b1 / 16);
    Nibbles4(b1 % 16, 0);
  }

  lemma OneByteDecodes(b0: byte)
    ensures DecodeTail([Symbol(b0 / 4), Symbol((b0 % 4) * 16)]) == [b0]
  {
    SymbolValueOfSymbol(b0 / 4);
    SymbolValueOfSymbol((b0 % 4) * 16);
    Nibbles16(b0 % 4, 0);
  }

  /** Decoding proceeds one quantum at a time. */
  lemma DecodeStep(q: string, rest: string, head: seq<byte>, tail: seq<byte>)
    requires |q| == 4 && forall i :: 0 <= i < 4 ==> IsUrlSafe(q[i])
    requires forall i :: 0 <= i < |rest| ==> IsUrlSafe(rest[i])
    requires DecodeQuantum(q) == head && DecodeDigits(rest) == tail
    ensures forall i :: 0 <= i < |q + rest| ==> IsUrlSafe((q + rest)[i])
    ensures DecodeDigits(q + rest) == head + tail
  {
    var s := q + rest;
    assert s[..4] == q && s[4..] == rest;
  }

  lemma {:induction false} DecodeDigitsOfDigits(bs: seq<byte>)
    ensures DecodeDigits(Digits(bs)) == bs
  {
    if |bs| >= 3 {
      DecodeDigitsOfDigits(bs[3..]);
      DecodeFirstQuantum(bs);
    } else if |bs| == 2 {
      TwoBytesDecode(bs[0], bs[1]);
    } else if |bs| == 1 {
      OneByteDecodes(bs[0]);
    }
  }

  lemma DecodeFirstQuantum(bs: seq<byte>)
    requires |bs| >= 3 && DecodeDigits(Digits(bs[3..])) == bs[3..]
    ensures DecodeDigits(Digits(bs)) == bs
  {
    var q, rest := Quantum(bs[0], bs[1], bs[2]), Digits(bs[3..]);
    DigitsCons(bs);
    QuantumDecodesPrefix(bs);
    DecodeStep(q, rest, bs[..3], bs[3..]);
    assert bs == bs[..3] + bs[3..];
  }

  lemma DigitsCons(bs: seq<byte>)
    requires |bs| >= 3
    ensures Digits(bs) == Quantum(bs[0], bs[1], bs[2]) + Digits(bs[3..])
  {
  }

  /** Distinct byte strings have distinct unpadded encodings. */
  lemma EncodeNoPadInjective(a: seq<byte>, b: seq<byte>)
    requires a != b
    ensures EncodeNoPad(a) != EncodeNoPad(b)
  {
    EncodeNoPadIsDigits(a);
    EncodeNoPadIsDigits(b);
    DecodeDigitsOfDigits(a);
    DecodeDigitsOfDigits(b);
  }
}
