/**
 * The parts of Python's `urllib.parse` the login script relies on:
 * `urlencode` with its default `quote_plus` (sections 2.1 and 2.3 of
 * RFC 3986: unreserved bytes kept, space as `+`, every other UTF-8 byte as
 * `%XX`), and on the way back `urlparse(...).query`, `unquote_plus`,
 * `parse_qsl` and `parse_qs`.
 */
module UrlCodec {
  import opened Wrappers
  import opened Bytes
  import Utf8
  import opened Text

  /** `_ALWAYS_SAFE`: the unreserved characters `A-Z a-z 0-9 _ . - ~`. */
  predicate IsUnreserved(c: char)
  {
    ('A' <= c <= 'Z') || ('a' <= c <= 'z') || ('0' <= c <= '9') || c == '_' || c == '.' || c == '-' || c == '~'
  }

  /** A character `quote_plus` can emit. */
  predicate IsQuotedChar(c: char) { IsUnreserved(c) || c == '+' || c == '%' }

  /** What `quote_plus(..., safe='')` emits for one byte. */
  function QuoteByte(b: byte): (s: string)
    ensures s != [] && forall i :: 0 <= i < |s| ==> IsQuotedChar(s[i])
  {
    if IsUnreserved(b as char) then [b as char]
    else if b == 0x20 then "+"
    else ['%', UpperDigit(b / 16), UpperDigit(b % 16)]
  }

  function QuoteBytes(bs: seq<byte>): (s: string)
    ensures |s| >= |bs|
    ensures forall i :: 0 <= i < |s| ==> IsQuotedChar(s[i])
  {
    if bs == [] then [] else QuoteByte(bs[0]) + QuoteBytes(bs[1..])
  }

  /** `quote_plus(s, safe='')`: percent-encoding of the UTF-8 bytes of `s`, with space as `+`. */
  function QuotePlus(s: string): string
  {
    QuoteBytes(Utf8.Encode(s))
  }

  /** The alphabet of `quote_plus`: only unreserved characters, `+` and `%`, and nothing for nothing. */
  lemma QuotePlusShape(s: string)
    ensures |QuotePlus(s)| >= |s|
    ensures forall i :: 0 <= i < |QuotePlus(s)| ==> IsQuotedChar(QuotePlus(s)[i])
  {
  }

  /** The `key=value` fields `urlencode` joins with `&`. */
  function EncodeFields(pairs: seq<(string, string)>): (fields: seq<string>)
    ensures |fields| == |pairs|
  {
    if pairs == [] then [] else [QuotePlus(pairs[0].0) + "=" + QuotePlus(pairs[0].1)] + EncodeFields(pairs[1..])
  }

  /** `urlencode(pairs)` for string keys and values, in the order given. */
  function UrlEncode(pairs: seq<(string, string)>): string
  {
    Join(EncodeFields(pairs), "&")
  }

  // ---------------------------------------------------------------- decoding

  /** `unquote_to_bytes` of an ASCII run: `%` and two hex digits give one byte, every other character its own code. */
  function UnquoteToBytes(s: string): (bs: seq<byte>)
    requires forall i :: 0 <= i < |s| ==> IsAscii(s[i])
    ensures |bs| <= |s|
  {
    if s == [] then []
    else if s[0] == '%' && |s| >= 3 && IsHexDigit(s[1]) && IsHexDigit(s[2])
    then [HexValue(s[1]) * 16 + HexValue(s[2])] + UnquoteToBytes(s[3..])
    else
      assert IsAscii(s[0]);
      var b: byte := s[0] as int;
      [b] + UnquoteToBytes(s[1..])
  }

  /** The length of the leading run of ASCII characters. */
  function AsciiRun(s: string): (n: nat)
    ensures n <= |s| && forall i :: 0 <= i < n ==> IsAscii(s[i])
    ensures s != [] && IsAscii(s[0]) ==> n > 0
  {
    if s != [] && IsAscii(s[0]) then 1 + AsciiRun(s[1..]) else 0
  }

  /** `_generate_unquoted_parts`: non-ASCII text is kept, each ASCII run is unquoted to bytes and decoded with replacement. */
  function UnquoteParts(s: string): string
    decreases |s|
  {
    if s == [] then []
    else if !IsAscii(s[0]) then [s[0]] + UnquoteParts(s[1..])
    else
      var n := AsciiRun(s);
      Utf8.DecodeReplace(UnquoteToBytes(s[..n])) + UnquoteParts(s[n..])
  }

  /** `unquote(s)`: returned unchanged when it holds no `%`. */
  function Unquote(s: string): string
  {
    if '%' !in s then s else UnquoteParts(s)
  }

  /** `unquote_plus(s)`: `+` is a space, then `unquote`. */
  function UnquotePlus(s: string): string
  {
    Unquote(ReplaceChar(s, '+', ' '))
  }

  /**
   * One `&`-separated field of `parse_qsl` (keep_blank_values false): a field
   * with no `=`, or whose text after the first `=` is empty, yields nothing;
   * otherwise the unquoted name and value.
   */
  function ParseField(field: string): (r: seq<(string, string)>)
    ensures |r| <= 1
    ensures r == [] <==> field == "" || SplitOnce(field, '=').None? || SplitOnce(field, '=').value.1 == ""
    ensures r != [] ==> r[0] == (UnquotePlus(SplitOnce(field, '=').value.0), UnquotePlus(SplitOnce(field, '=').value.1))
  {
    if field == "" then []
    else match SplitOnce(field, '=')
      case None => []
      case Some((name, value)) =>
        if |value| > 0 then [(UnquotePlus(name), UnquotePlus(value))] else []
  }

  function ParseFields(fields: seq<string>): seq<(string, string)>
  {
    if fields == [] then [] else ParseField(fields[0]) + ParseFields(fields[1..])
  }

  /** `parse_qsl(qs)`: the name/value pairs of the query, in order. */
  function ParseQsl(qs: string): seq<(string, string)>
  {
    ParseFields(Split(qs, '&'))
  }

  /** One step of `parse_qs`'s loop: append `value` to the list of `name`, creating it if needed. */
  function AddValue(m: map<string, seq<string>>, name: string, value: string): map<string, seq<string>>
  {
    m[name := (if name in m then m[name] else []) + [value]]
  }

  function Group(acc: map<string, seq<string>>, pairs: seq<(string, string)>): map<string, seq<string>>
    decreases |pairs|
  {
    if pairs == [] then acc else Group(AddValue(acc, pairs[0].0, pairs[0].1), pairs[1..])
  }

  /** `parse_qs(qs)`: every name with the list of its values, in order of appearance. */
  function ParseQs(qs: string): map<string, seq<string>>
  {
    Group(map[], ParseQsl(qs))
  }

  /** The values paired with `name`, in order: the reference for `parse_qs`. */
  function ValuesOf(pairs: seq<(string, string)>, name: string): seq<string>
  {
    if pairs == [] then []
    else (if pairs[0].0 == name then [pairs[0].1] else []) + ValuesOf(pairs[1..], name)
  }

  /** `urlparse(url).query`: tabs and line breaks removed, the fragment cut at the first `#`, the text after the first `?`. */
  function UrlQuery(url: string): string
  {
    var u := RemoveAll(url, {'\t', '\r', '\n'});
    var beforeFragment := match SplitOnce(u, '#') case Some((a, _)) => a case None => u;
    match SplitOnce(beforeFragment, '?')
    case Some((_, q)) => q
    case None => ""
  }

  // ---------------------------------------------------------------- lemmas

  lemma {:induction false} GroupValues(acc: map<string, seq<string>>, pairs: seq<(string, string)>, name: string)
    ensures var m := Group(acc, pairs);
            var before := if name in acc then acc[name] else [];
            (name in m <==> name in acc || ValuesOf(pairs, name) != [])
            && (name in m ==> m[name] == before + ValuesOf(pairs, name))
    decreases |pairs|
  {
    if pairs != [] {
      GroupValues(AddValue(acc, pairs[0].0, pairs[0].1), pairs[1..], name);
    }
  }

  /** `parse_qs` keeps exactly the names `parse_qsl` yields, each with all its values in order. */
  lemma ParseQsValues(qs: string, name: string)
    ensures name in ParseQs(qs) <==> ValuesOf(ParseQsl(qs), name) != []
    ensures name in ParseQs(qs) ==> ParseQs(qs)[name] == ValuesOf(ParseQsl(qs), name)
  {
    GroupValues(map[], ParseQsl(qs), name);
  }

  lemma {:induction false} ReplaceConcat(a: string, b: string, x: char, y: char)
    ensures ReplaceChar(a + b, x, y) == ReplaceChar(a, x, y) + ReplaceChar(b, x, y)
  {
  }

  lemma UnquoteToBytesConcat(piece: string, rest: string, b: byte)
    requires forall i :: 0 <= i < |piece| ==> IsAscii(piece[i])
    requires forall i :: 0 <= i < |rest| ==> IsAscii(rest[i])
    requires (piece == [b as char] && b != '%' as int) || piece == ['%', UpperDigit(b / 16), UpperDigit(b % 16)]
    ensures UnquoteToBytes(piece + rest) == [b] + UnquoteToBytes(rest)
  {
    var s := piece + rest;
    if |piece| == 1 {
      assert s[1..] == rest;
    } else {
      assert s[3..] == rest;
    }
  }

  /** After `+` becomes a space, unquoting the quoted bytes yields the bytes. */
  lemma {:induction false} UnquoteQuoteBytes(bs: seq<byte>)
    ensures forall i :: 0 <= i < |ReplaceChar(QuoteBytes(bs), '+', ' ')| ==> IsAscii(ReplaceChar(QuoteBytes(bs), '+', ' ')[i])
    ensures UnquoteToBytes(ReplaceChar(QuoteBytes(bs), '+', ' ')) == bs
  {
    if bs != [] {
      var b := bs[0];
      var piece := QuoteByte(b);
      var rest := QuoteBytes(bs[1..]);
      ReplaceConcat(piece, rest, '+', ' ');
      UnquoteQuoteBytes(bs[1..]);
      var p' := ReplaceChar(piece, '+', ' ');
      if IsUnreserved(b as char) {
        assert p' == [b as char];
      } else if b == 0x20 {
        assert p' == [b as char];
      } else {
        assert p' == piece;
      }
      UnquoteToBytesConcat(p', ReplaceChar(rest, '+', ' '), b);
      assert bs == [b] + bs[1..];
    }
  }

  lemma {:induction false} UnquoteToBytesPlain(s: string)
    requires forall i :: 0 <= i < |s| ==> IsAscii(s[i])
    requires '%' !in s
    ensures UnquoteToBytes(s) == Utf8.Encode(s)
  {
    if s != [] {
      UnquoteToBytesPlain(s[1..]);
    }
  }

  /** `unquote`'s shortcut for text without `%` agrees with the general path. */
  lemma {:induction false} UnquotePartsPlain(s: string)
    requires '%' !in s
    ensures UnquoteParts(s) == s
    decreases |s|
  {
    if s != [] {
      if !IsAscii(s[0]) {
        UnquotePartsPlain(s[1..]);
      } else {
        var n := AsciiRun(s);
        UnquoteToBytesPlain(s[..n]);
        Utf8.DecodeEncode(s[..n]);
        UnquotePartsPlain(s[n..]);
        assert s == s[..n] + s[n..];
      }
    }
  }

  lemma UnquoteAscii(s: string)
    requires forall i :: 0 <= i < |s| ==> IsAscii(s[i])
    ensures Unquote(s) == Utf8.DecodeReplace(UnquoteToBytes(s))
  {
    if '%' !in s {
      UnquotePartsPlain(s);
      UnquoteToBytesPlain(s);
      Utf8.DecodeEncode(s);
    } else {
      AsciiRunAll(s);
      assert s[..AsciiRun(s)] == s;
      assert s[AsciiRun(s)..] == [];
      assert UnquoteParts(s) == Utf8.DecodeReplace(UnquoteToBytes(s)) + UnquoteParts([]);
    }
  }

  lemma {:induction false} AsciiRunAll(s: string)
    requires forall i :: 0 <= i < |s| ==> IsAscii(s[i])
    ensures AsciiRun(s) == |s|
  {
    if s != [] {
      AsciiRunAll(s[1..]);
    }
  }

  /** `unquote_plus(quote_plus(s)) == s` for every string. */
  lemma UnquotePlusQuotePlus(s: string)
    ensures UnquotePlus(QuotePlus(s)) == s
  {
    var bs := Utf8.Encode(s);
    UnquoteQuoteBytes(bs);
    UnquoteAscii(ReplaceChar(QuoteBytes(bs), '+', ' '));
    Utf8.DecodeEncode(s);
  }

  lemma SplitOnceAt(a: string, c: char, b: string)
    requires c !in a
    ensures SplitOnce(a + [c] + b, c) == Some((a, b))
  {
    var s := a + [c] + b;
    var r := SplitOnce(s, c);
    assert c in s by { assert s[|a|] == c; }
    var x := r.value.0;
    assert s[|x|] == c && s[|a|] == c;
    assert forall i :: 0 <= i < |x| ==> s[i] == x[i] != c;
    assert forall i :: 0 <= i < |a| ==> s[i] == a[i] != c;
    assert |x| == |a|;
    assert x == s[..|a|] == a;
    assert r.value.1 == s[|a| + 1..] == b;
  }

  /**
   * A field `urlencode` writes parses back to its pair, unless the value is
   * empty: `parse_qsl` then drops it.
   */
  lemma ParseEncodedField(name: string, value: string)
    ensures ParseField(QuotePlus(name) + "=" + QuotePlus(value)) == if value == "" then [] else [(name, value)]
  {
    QuotePlusShape(name);
    QuotePlusShape(value);
    SplitOnceAt(QuotePlus(name), '=', QuotePlus(value));
    UnquotePlusQuotePlus(name);
    UnquotePlusQuotePlus(value);
  }

  /** The pairs whose value is not empty, in order: what `parse_qsl` keeps. */
  function NonBlank(pairs: seq<(string, string)>): (r: seq<(string, string)>)
    ensures |r| <= |pairs| && forall i :: 0 <= i < |r| ==> r[i].1 != "" && r[i] in pairs
  {
    if pairs == [] then []
    else (if pairs[0].1 == "" then [] else [pairs[0]]) + NonBlank(pairs[1..])
  }

  lemma {:induction false} NonBlankAll(pairs: seq<(string, string)>)
    requires forall i :: 0 <= i < |pairs| ==> pairs[i].1 != ""
    ensures NonBlank(pairs) == pairs
  {
    if pairs != [] {
      NonBlankAll(pairs[1..]);
      assert pairs == [pairs[0]] + pairs[1..];
    }
  }

  lemma {:induction false} NonBlankKeeps(pairs: seq<(string, string)>, i: nat)
    requires i < |pairs| && pairs[i].1 != ""
    ensures pairs[i] in NonBlank(pairs)
  {
    if i > 0 {
      NonBlankKeeps(pairs[1..], i - 1);
    }
  }

  lemma {:induction false} ParseEncodedFields(pairs: seq<(string, string)>)
    ensures ParseFields(EncodeFields(pairs)) == NonBlank(pairs)
  {
    if pairs != [] {
      ParseEncodedField(pairs[0].0, pairs[0].1);
      ParseEncodedFields(pairs[1..]);
      assert EncodeFields(pairs)[1..] == EncodeFields(pairs[1..]);
    }
  }

  /** `parse_qsl(urlencode(pairs))` gives back every pair whose value is not empty, in order. */
  lemma ParseQslUrlEncode(pairs: seq<(string, string)>)
    ensures ParseQsl(UrlEncode(pairs)) == NonBlank(pairs)
  {
    if pairs == [] {
      assert Split("", '&') == [""];
    } else {
      EncodeFieldsExclude(pairs, '&');
      SplitJoin(EncodeFields(pairs), '&');
      ParseEncodedFields(pairs);
    }
  }

  /** The values of a name that exactly one pair carries: that pair's value alone. */
  lemma {:induction false} ValuesOfOnly(pairs: seq<(string, string)>, i: nat, name: string)
    requires i < |pairs| && pairs[i].0 == name
    requires forall j :: 0 <= j < |pairs| && j != i ==> pairs[j].0 != name
    ensures ValuesOf(pairs, name) == [pairs[i].1]
  {
    if i == 0 {
      ValuesOfAbsent(pairs[1..], name);
    } else {
      ValuesOfOnly(pairs[1..], i - 1, name);
    }
  }

  /** `parse_qs(q)[name]` is the one value of the one pair of `parse_qsl(q)` carrying `name`. */
  lemma ParseQsOnly(q: string, i: nat, name: string)
    requires i < |ParseQsl(q)| && ParseQsl(q)[i].0 == name
    requires forall j :: 0 <= j < |ParseQsl(q)| && j != i ==> ParseQsl(q)[j].0 != name
    ensures name in ParseQs(q) && ParseQs(q)[name] == [ParseQsl(q)[i].1]
  {
    ValuesOfOnly(ParseQsl(q), i, name);
    ParseQsValues(q, name);
  }

  lemma {:induction false} ValuesOfAbsent(pairs: seq<(string, string)>, name: string)
    requires forall j :: 0 <= j < |pairs| ==> pairs[j].0 != name
    ensures ValuesOf(pairs, name) == []
  {
    if pairs != [] {
      ValuesOfAbsent(pairs[1..], name);
    }
  }

  /** `parse_qs` knows a name exactly when some pair carries it. */
  lemma {:induction false} ValuesOfPresent(pairs: seq<(string, string)>, name: string)
    ensures ValuesOf(pairs, name) != [] <==> exists i :: 0 <= i < |pairs| && pairs[i].0 == name
  {
    if pairs != [] {
      ValuesOfPresent(pairs[1..], name);
      if pairs[0].0 != name && exists i :: 0 <= i < |pairs| && pairs[i].0 == name {
        var i :| 0 <= i < |pairs| && pairs[i].0 == name;
        assert pairs[1..][i - 1].0 == name;
      }
    }
  }

  /** `urlencode` output holds only unreserved characters, `+`, `%`, `=` and `&`. */
  lemma {:induction false} UrlEncodeExcludes(pairs: seq<(string, string)>, c: char)
    requires !IsQuotedChar(c) && c != '=' && c != '&'
    ensures c !in UrlEncode(pairs)
  {
    EncodeFieldsExclude(pairs, c);
    JoinExcludes(EncodeFields(pairs), "&", c);
  }

  lemma {:induction false} EncodeFieldsExclude(pairs: seq<(string, string)>, c: char)
    requires !IsQuotedChar(c) && c != '='
    ensures forall i :: 0 <= i < |pairs| ==> c !in EncodeFields(pairs)[i]
  {
    if pairs != [] {
      QuotePlusShape(pairs[0].0);
      QuotePlusShape(pairs[0].1);
      EncodeFieldsExclude(pairs[1..], c);
      assert forall i :: 1 <= i < |pairs| ==> EncodeFields(pairs)[i] == EncodeFields(pairs[1..])[i - 1];
    }
  }

  /** The query `urlparse` finds after the first `?` of a URL whose scheme, host and path hold no `?` or `#`. */
  lemma UrlQueryOf(base: string, q: string)
    requires forall i :: 0 <= i < |base| ==> base[i] !in {'?', '#', '\t', '\r', '\n'}
    requires forall i :: 0 <= i < |q| ==> q[i] !in {'#', '\t', '\r', '\n'}
    ensures UrlQuery(base + "?" + q) == q
  {
    var url := base + "?" + q;
    RemoveAllNone(url, {'\t', '\r', '\n'});
    assert '#' !in url;
    assert '?' !in base;
    SplitOnceAt(base, '?', q);
  }

  lemma {:induction false} RemoveAllNone(s: string, drop: set<char>)
    requires forall i :: 0 <= i < |s| ==> s[i] !in drop
    ensures RemoveAll(s, drop) == s
  {
    if s != [] {
      RemoveAllNone(s[1..], drop);
      assert s == [s[0]] + s[1..];
    }
  }
}
