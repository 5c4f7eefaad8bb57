/**
 * UTF-8 as Python's `str.encode("utf-8")` and `bytes.decode("utf-8", "replace")`
 * use it. Decoding replaces each maximal ill-formed subsequence by one U+FFFD,
 * the policy CPython's decoder follows.
 */
module Utf8 {
  import opened Bytes

  const Replacement: char := '\U{FFFD}'

  /** The one to four bytes of `c`'s UTF-8 form. */
  function EncodeChar(c: char): (bs: seq<byte>)
    ensures 1 <= |bs| <= 4
    ensures (c as int < 128) <==> |bs| == 1
    ensures |bs| == 1 ==> bs[0] == c as int
  {
    var cp := c as int;
    if cp < 0x80 then [cp]
    else if cp < 0x800 then [0xC0 + cp / 64, 0x80 + cp % 64]
    else if cp < 0x10000 then [0xE0 + cp / 4096, 0x80 + (cp / 64) % 64, 0x80 + cp % 64]
    else [0xF0 + cp / 262144, 0x80 + (cp / 4096) % 64, 0x80 + (cp / 64) % 64, 0x80 + cp % 64]
  }

  /** `s.encode("utf-8")`. */
  function Encode(s: string): (bs: seq<byte>)
    ensures |bs| >= |s|
  {
    if s == [] then [] else EncodeChar(s[0]) + Encode(s[1..])
  }

  predicate IsContinuation(b: byte) { 0x80 <= b < 0xC0 }

  /**
   * One decoding step at the head of `bs`: the character decoded and the
   * number of bytes consumed. An ill-formed or truncated sequence yields
   * U+FFFD and consumes its longest prefix that could still begin a
   * well-formed sequence (at least one byte).
   */
  function Step(bs: seq<byte>): (r: (char, nat))
    requires |bs| > 0
    ensures 1 <= r.1 <= |bs|
  {
    var b0: int := bs[0];
    var b1: int := if |bs| > 1 then bs[1] else 0;
    var b2: int := if |bs| > 2 then bs[2] else 0;
    var b3: int := if |bs| > 3 then bs[3] else 0;
    if b0 < 0x80 then (b0 as char, 1)
    else if 0xC2 <= b0 <= 0xDF then
      if |bs| >= 2 && IsContinuation(b1)
      then (((b0 - 0xC0) * 64 + (b1 - 0x80)) as char, 2)
      else (Replacement, 1)
    else if 0xE0 <= b0 <= 0xEF then
      var lo := if b0 == 0xE0 then 0xA0 else 0x80;
      var hi := if b0 == 0xED then 0x9F else 0xBF;
      if |bs| < 2 || !(lo <= b1 <= hi) then (Replacement, 1)
      else if |bs| < 3 || !IsContinuation(b2) then (Replacement, 2)
      else (((b0 - 0xE0) * 4096 + (b1 - 0x80) * 64 + (b2 - 0x80)) as char, 3)
    else if 0xF0 <= b0 <= 0xF4 then
      var lo := if b0 == 0xF0 then 0x90 else 0x80;
      var hi := if b0 == 0xF4 then 0x8F else 0xBF;
      if |bs| < 2 || !(lo <= b1 <= hi) then (Replacement, 1)
      else if |bs| < 3 || !IsContinuation(b2) then (Replacement, 2)
      else if |bs| < 4 || !IsContinuation(b3) then (Replacement, 3)
      else (((b0 - 0xF0) * 262144 + (b1 - 0x80) * 4096 + (b2 - 0x80) * 64 + (b3 - 0x80)) as char, 4)
    else (Replacement, 1)
  }

  /** `bytes(bs).decode("utf-8", "replace")`. */
  function DecodeReplace(bs: seq<byte>): (s: string)
    ensures |s| <= |bs|
    decreases |bs|
  {
    if bs == [] then [] else [Step(bs).0] + DecodeReplace(bs[Step(bs).1..])
  }

  /** Decoding the encoding of one character gives that character back and consumes exactly its bytes. */
  lemma StepEncodeChar(c: char, rest: seq<byte>)
    ensures Step(EncodeChar(c) + rest) == (c, |EncodeChar(c)|)
  {
    var cp := c as int;
    if 0x80 <= cp < 0x800 {
      StepTwoBytes(c, rest);
    } else if 0x800 <= cp < 0x10000 {
      StepThreeBytes(c, rest);
    } else if 0x10000 <= cp {
      StepFourBytes(c, rest);
    }
  }

  lemma StepTwoBytes(c: char, rest: seq<byte>)
    requires 0x80 <= c as int < 0x800
    ensures Step(EncodeChar(c) + rest) == (c, 2)
  {
  }

  lemma StepThreeBytes(c: char, rest: seq<byte>)
    requires 0x800 <= c as int < 0x10000
    ensures Step(EncodeChar(c) + rest) == (c, 3)
  {
    Split3(c as int);
  }

  lemma StepFourBytes(c: char, rest: seq<byte>)
    requires 0x10000 <= c as int
    ensures Step(EncodeChar(c) + rest) == (c, 4)
  {
    Split4(c as int);
  }

  lemma Split3(x: nat)
    ensures x == (x / 4096) * 4096 + ((x / 64) % 64) * 64 + x % 64
  {
    assert x / 64 == (x / 4096) * 64 + (x / 64) % 64;
  }

  lemma Split4(x: nat)
    ensures x == (x / 262144) * 262144 + ((x / 4096) % 64) * 4096 + ((x / 64) % 64) * 64 + x % 64
  {
    Split3(x);
    assert x / 4096 == (x / 262144) * 64 + (x / 4096) % 64;
  }

  /** UTF-8 decoding with replacement inverts encoding: `s.encode().decode(errors="replace") == s`. */
  lemma {:induction false} DecodeEncode(s: string)
    ensures DecodeReplace(Encode(s)) == s
  {
    if s != [] {
      var bs := Encode(s);
      StepEncodeChar(s[0], Encode(s[1..]));
      assert bs[|EncodeChar(s[0])|..] == Encode(s[1..]);
      DecodeEncode(s[1..]);
    }
  }

  /** An ASCII string's UTF-8 form is its character codes. */
  lemma {:induction false} EncodeAscii(s: string)
    requires forall i :: 0 <= i < |s| ==> IsAscii(s[i])
    ensures |Encode(s)| == |s|
    ensures forall i :: 0 <= i < |s| ==> Encode(s)[i] == s[i] as int
  {
    if s != [] {
      EncodeAscii(s[1..]);
    }
  }
}
