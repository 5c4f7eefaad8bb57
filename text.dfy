/**
 * The Python `str` operations the core relies on: `split`, `join`, `strip`,
 * `replace` of one character, `str(int)` and `int(str)`.
 */
module Text {
  import opened Wrappers

  /** `c.isspace()`: the characters `str.strip()` removes. */
  predicate IsSpace(c: char)
  {
    var x := c as int;
    (0x09 <= x <= 0x0D) || (0x1C <= x <= 0x20) || x == 0x85 || x == 0xA0 || x == 0x1680
    || (0x2000 <= x <= 0x200A) || x == 0x2028 || x == 0x2029 || x == 0x202F || x == 0x205F
    || x == 0x3000
  }

  /** `s.split(c)`: the pieces between occurrences of `c`, one more piece than occurrences. */
  function Split(s: string, c: char): (parts: seq<string>)
    ensures |parts| >= 1
    ensures forall i :: 0 <= i < |parts| ==> c !in parts[i]
  {
    if s == [] then [""]
    else
      var rest := Split(s[1..], c);
      if s[0] == c then [""] + rest else [[s[0]] + rest[0]] + rest[1..]
  }

  /** `sep.join(parts)`. */
  function Join(parts: seq<string>, sep: string): string
  {
    if parts == [] then ""
    else if |parts| == 1 then parts[0]
    else parts[0] + sep + Join(parts[1..], sep)
  }

  lemma JoinCons(p: string, ps: seq<string>, sep: string)
    requires ps != []
    ensures Join([p] + ps, sep) == p + sep + Join(ps, sep)
  {
    assert ([p] + ps)[1..] == ps;
  }

  /** A character in none of the pieces and not in the separator is not in the join. */
  lemma {:induction false} JoinExcludes(parts: seq<string>, sep: string, c: char)
    requires c !in sep && forall i :: 0 <= i < |parts| ==> c !in parts[i]
    ensures c !in Join(parts, sep)
  {
    if |parts| > 1 {
      JoinExcludes(parts[1..], sep, c);
    }
  }

  /** Joining the pieces with the separator gives the original string back. */
  lemma {:induction false} JoinSplit(s: string, c: char)
    ensures Join(Split(s, c), [c]) == s
  {
    if s != [] {
      var rest := Split(s[1..], c);
      JoinSplit(s[1..], c);
      if s[0] == c {
        JoinCons("", rest, [c]);
        assert s == [c] + s[1..];
      } else {
        var parts := [[s[0]] + rest[0]] + rest[1..];
        if |rest| == 1 {
          assert Join(parts, [c]) == [s[0]] + rest[0];
        } else {
          JoinCons([s[0]] + rest[0], rest[1..], [c]);
          JoinCons(rest[0], rest[1..], [c]);
          assert rest == [rest[0]] + rest[1..];
        }
        assert s == [s[0]] + s[1..];
      }
    }
  }

  lemma {:induction false} SplitNoSeparator(p: string, c: char)
    requires c !in p
    ensures Split(p, c) == [p]
  {
    if p != [] {
      SplitNoSeparator(p[1..], c);
      assert p == [p[0]] + p[1..];
    }
  }

  lemma {:induction false} SplitAtSeparator(p: string, c: char, rest: string)
    requires c !in p
    ensures Split(p + [c] + rest, c) == [p] + Split(rest, c)
  {
    var s := p + [c] + rest;
    if p == [] {
      assert s == [c] + rest;
      assert s[1..] == rest;
    } else {
      assert s[1..] == p[1..] + [c] + rest;
      SplitAtSeparator(p[1..], c, rest);
      assert [p[0]] + p[1..] == p;
    }
  }

  /** Splitting a join of separator-free pieces gives the pieces back. */
  lemma {:induction false} SplitJoin(parts: seq<string>, c: char)
    requires parts != []
    requires forall i :: 0 <= i < |parts| ==> c !in parts[i]
    ensures Split(Join(parts, [c]), c) == parts
  {
    if |parts| == 1 {
      SplitNoSeparator(parts[0], c);
    } else {
      SplitJoin(parts[1..], c);
      SplitAtSeparator(parts[0], c, Join(parts[1..], [c]));
      assert parts == [parts[0]] + parts[1..];
    }
  }

  /** The index of the first `c` in `s`. */
  function IndexOf(s: string, c: char): (k: nat)
    requires c in s
    ensures k < |s| && s[k] == c && c !in s[..k]
  {
    if s[0] == c then 0 else 1 + IndexOf(s[1..], c)
  }

  /** `s.split(c, 1)` when `c` occurs: the text before and after the first `c`; `None` when it does not. */
  function SplitOnce(s: string, c: char): (r: Option<(string, string)>)
    ensures r.None? <==> c !in s
    ensures r.Some? ==> c !in r.value.0 && s == r.value.0 + [c] + r.value.1
  {
    if c in s then
      var k := IndexOf(s, c);
      assert s == s[..k] + [c] + s[k + 1..];
      Some((s[..k], s[k + 1..]))
    else None
  }

  /** `s.replace(a, b)` for single characters. */
  function ReplaceChar(s: string, a: char, b: char): (r: string)
    ensures |r| == |s|
    ensures forall i :: 0 <= i < |s| ==> r[i] == (if s[i] == a then b else s[i])
  {
    if s == [] then [] else [if s[0] == a then b else s[0]] + ReplaceChar(s[1..], a, b)
  }

  /** `s` with every character of `drop` removed. */
  function RemoveAll(s: string, drop: set<char>): (r: string)
    ensures forall i :: 0 <= i < |r| ==> r[i] !in drop
    ensures forall c :: c !in drop ==> (c in r <==> c in s)
  {
    if s == [] then [] else (if s[0] in drop then [] else [s[0]]) + RemoveAll(s[1..], drop)
  }

  /**
   * The whitespace `int()` skips around a number: the six ASCII characters of
   * C's `isspace` (tab, line feed, vertical tab, form feed, carriage return,
   * space) and every non-ASCII `str.isspace()` character, which CPython turns
   * into a space before parsing. U+001C..U+001F are `str.isspace()` but are
   * not skipped, so `int()` rejects text holding them.
   */
  predicate IsIntSpace(c: char)
  {
    var x := c as int;
    (0x09 <= x <= 0x0D) || x == 0x20 || (x >= 0x80 && IsSpace(c))
  }

  /** `s` without its leading and trailing runs of characters `space` holds of. */
  function Trim(s: string, space: char -> bool): (r: string)
    ensures exists i, j ::
              && 0 <= i <= j <= |s| && r == s[i..j]
              && (forall k :: 0 <= k < i ==> space(s[k]))
              && (forall k :: j <= k < |s| ==> space(s[k]))
    ensures r != [] ==> !space(r[0]) && !space(r[|r| - 1])
  {
    var i := SpacePrefix(s, space);
    var j := i + ContentLength(s[i..], space);
    assert s[i..][..j - i] == s[i..j];
    s[i..j]
  }

  /** `s.strip()`: `s` without its leading and trailing whitespace. */
  function Strip(s: string): string
  {
    Trim(s, IsSpace)
  }

  /** The length of the leading run of `space` characters. */
  function SpacePrefix(s: string, space: char -> bool): (n: nat)
    ensures n <= |s| && (forall k :: 0 <= k < n ==> space(s[k]))
    ensures n < |s| ==> !space(s[n])
  {
    if s != [] && space(s[0]) then 1 + SpacePrefix(s[1..], space) else 0
  }

  /** The length of `s` without its trailing run of `space` characters. */
  function ContentLength(s: string, space: char -> bool): (n: nat)
    ensures n <= |s| && (forall k :: n <= k < |s| ==> space(s[k]))
    ensures n > 0 ==> !space(s[n - 1])
  {
    if s != [] && space(s[|s| - 1]) then ContentLength(s[..|s| - 1], space) else |s|
  }

  predicate IsDigit(c: char) { '0' <= c <= '9' }

  function DigitChar(d: nat): (c: char)
    requires d < 10
    ensures IsDigit(c) && c as int - '0' as int == d
  {
    ('0' as int + d) as char
  }

  /** `str(n)` for `n >= 0`: decimal digits, no leading zero. */
  function NatToString(n: nat): (s: string)
    ensures s != [] && forall i :: 0 <= i < |s| ==> IsDigit(s[i])
    ensures |s| > 1 ==> s[0] != '0'
  {
    if n < 10 then [DigitChar(n)] else NatToString(n / 10) + [DigitChar(n % 10)]
  }

  /** `str(n)`: a minus sign before the digits of a negative number. */
  function IntToString(n: int): (s: string)
    ensures s != [] && forall i :: 0 <= i < |s| ==> IsDigit(s[i]) || s[i] == '-'
  {
    if n < 0 then "-" + NatToString(-n) else NatToString(n)
  }

  /**
   * Digits with single underscores between them, as `int()` accepts them:
   * nonempty, starting and ending with a digit, no two underscores in a row.
   */
  predicate IsDigitGroup(s: string)
  {
    s != [] && IsDigit(s[0]) && IsDigit(s[|s| - 1])
    && (forall i :: 0 <= i < |s| ==> IsDigit(s[i]) || s[i] == '_')
    && (forall i :: 0 <= i < |s| - 1 ==> !(s[i] == '_' && s[i + 1] == '_'))
  }

  /** The value of a run of digits and underscores, underscores ignored. */
  function DigitsValue(s: string): nat
    requires forall i :: 0 <= i < |s| ==> IsDigit(s[i]) || s[i] == '_'
  {
    if s == [] then 0
    else if s[|s| - 1] == '_' then DigitsValue(s[..|s| - 1])
    else
      assert IsDigit(s[|s| - 1]);
      DigitsValue(s[..|s| - 1]) * 10 + (s[|s| - 1] as int - '0' as int)
  }

  /** The number of decimal digits in `s`. */
  function DigitCount(s: string): (n: nat)
    ensures n <= |s|
    ensures (forall i :: 0 <= i < |s| ==> IsDigit(s[i])) ==> n == |s|
  {
    if s == [] then 0 else (if IsDigit(s[0]) then 1 else 0) + DigitCount(s[1..])
  }

  /** `sys.get_int_max_str_digits()` by default: `int()` refuses a decimal number of more digits. */
  const MaxStrDigits: nat := 4300

  /**
   * `int(s)`: `int()` whitespace around an optional sign and a digit group of
   * at most `MaxStrDigits` digits; `None` where Python raises ValueError.
   */
  function ParseInt(s: string): (r: Option<int>)
  {
    var t := Trim(s, IsIntSpace);
    var negative := t != [] && t[0] == '-';
    var body := if t != [] && (t[0] == '-' || t[0] == '+') then t[1..] else t;
    if IsDigitGroup(body) && DigitCount(body) <= MaxStrDigits then
      var v := DigitsValue(body);
      Some(if negative then -(v as int) else v)
    else None
  }

  lemma {:induction false} DigitsValueOfNat(n: nat)
    ensures DigitsValue(NatToString(n)) == n
  {
    var s := NatToString(n);
    if n >= 10 {
      assert s[..|s| - 1] == NatToString(n / 10);
      DigitsValueOfNat(n / 10);
    }
  }

  /** Text that neither starts nor ends with a `space` character is its own trim. */
  lemma TrimNoSpace(s: string, space: char -> bool)
    requires s != [] && !space(s[0]) && !space(s[|s| - 1])
    ensures Trim(s, space) == s
  {
  }

  /** `int(str(n)) == n` for every `n` whose decimal text `int()` accepts the length of. */
  lemma ParseIntToString(n: int)
    requires |NatToString(if n < 0 then -n else n)| <= MaxStrDigits
    ensures ParseInt(IntToString(n)) == Some(n)
  {
    var s := IntToString(n);
    TrimNoSpace(s, IsIntSpace);
    var digits := NatToString(if n < 0 then -n else n);
    DigitsValueOfNat(if n < 0 then -n else n);
    if n < 0 {
      assert s[1..] == digits;
    }
  }

  /** `int()` rejects text that starts with one of U+001C..U+001F, although `str.isspace()` holds of them. */
  lemma ParseIntRejectsSeparator(s: string)
    requires s != [] && 0x1C <= s[0] as int <= 0x1F
    ensures IsSpace(s[0]) && ParseInt(s) == None
  {
    var t := Trim(s, IsIntSpace);
    var i, j :| && 0 <= i <= j <= |s| && t == s[i..j]
                && (forall k :: 0 <= k < i ==> IsIntSpace(s[k]))
                && (forall k :: j <= k < |s| ==> IsIntSpace(s[k]));
    if t != [] {
      assert t[0] == s[0];
    }
  }

  /** `int()` rejects a run of more than `MaxStrDigits` decimal digits. */
  lemma ParseIntRejectsLong(s: string)
    requires |s| > MaxStrDigits && forall i :: 0 <= i < |s| ==> IsDigit(s[i])
    ensures ParseInt(s) == None
  {
    TrimNoSpace(s, IsIntSpace);
  }
}
