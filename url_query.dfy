/**
 * A simplified model of PHP's `parse_str`, which decodes a query string as
 * `application/x-www-form-urlencoded`: the string is cut at every `&`
 * (empty pieces are skipped), each piece is cut at its first `=` into a
 * name and a value, both are URL-decoded (`+` is a space, `%XX` a byte),
 * a piece whose decoded name is empty is dropped, and a later piece with
 * the same name overwrites an earlier one.
 */
module UrlQuery {
  import opened Wrappers
  import opened PhpString

  // ---------------------------------------------------------------------
  // Hexadecimal digits
  // ---------------------------------------------------------------------

  /** C `isxdigit`. */
  predicate IsHexDigit(c: char)
  {
    '0' <= c <= '9' || 'a' <= c <= 'f' || 'A' <= c <= 'F'
  }

  /** The value of a hexadecimal digit, either case. */
  function HexValue(c: char): (v: nat)
    requires IsHexDigit(c)
    ensures v < 16
  {
    if '0' <= c <= '9' then c as int - '0' as int
    else if 'a' <= c <= 'f' then c as int - 'a' as int + 10
    else c as int - 'A' as int + 10
  }

  /** The upper-case hexadecimal digit for `n`, as `urlencode` writes it. */
  function HexDigit(n: nat): (c: char)
    requires n < 16
    ensures IsHexDigit(c) && HexValue(c) == n
  {
    if n < 10 then ('0' as int + n) as char else ('A' as int + n - 10) as char
  }

  // ---------------------------------------------------------------------
  // URL decoding and its inverse
  // ---------------------------------------------------------------------

  /** Every character of `s` stands for a byte. */
  predicate IsByteString(s: string)
  {
    forall i :: 0 <= i < |s| ==> s[i] as int < 256
  }

  /**
   * PHP `urldecode`: `+` becomes a space, `%` followed by two hexadecimal
   * digits becomes the byte they spell, every other byte is copied
   * (including a `%` that is not followed by two hexadecimal digits).
   */
  function UrlDecode(s: string): (r: string)
    ensures |r| <= |s|
    ensures IsByteString(s) ==> IsByteString(r)
    decreases |s|
  {
    if s == [] then []
    else if s[0] == '+' then [' '] + UrlDecode(s[1..])
    else if s[0] == '%' && |s| >= 3 && IsHexDigit(s[1]) && IsHexDigit(s[2]) then
      [(HexValue(s[1]) * 16 + HexValue(s[2])) as char] + UrlDecode(s[3..])
    else [s[0]] + UrlDecode(s[1..])
  }

  /** The bytes `urlencode` leaves as they are: letters, digits and `-_.`. */
  predicate IsUnreserved(c: char)
  {
    'a' <= c <= 'z' || 'A' <= c <= 'Z' || '0' <= c <= '9' || c == '-' || c == '_' || c == '.'
  }

  /** The encoding of one byte. */
  function EncodeByte(c: char): (r: string)
    requires c as int < 256
    ensures 1 <= |r| <= 3 && ' ' !in r
  {
    if IsUnreserved(c) then [c]
    else if c == ' ' then "+"
    else ['%', HexDigit(c as int / 16), HexDigit(c as int % 16)]
  }

  /**
   * PHP `urlencode`, the inverse of `UrlDecode` on byte strings: it is not
   * called by the parser and serves as the reference the decoder is proved
   * against.
   */
  function UrlEncode(s: string): (r: string)
    requires IsByteString(s)
    ensures |s| <= |r| <= 3 * |s|
    ensures ' ' !in r
    decreases |s|
  {
    if s == [] then [] else EncodeByte(s[0]) + UrlEncode(s[1..])
  }

  /** Decoding an encoded byte gives the byte back and leaves the rest to be decoded. */
  lemma DecodeEncodedByte(c: char, rest: string)
    requires c as int < 256
    ensures UrlDecode(EncodeByte(c) + rest) == [c] + UrlDecode(rest)
  {
    var e := EncodeByte(c) + rest;
    if IsUnreserved(c) {
      assert e[1..] == rest;
    } else if c == ' ' {
      assert e[1..] == rest;
    } else {
      assert e[1..] == [HexDigit(c as int / 16), HexDigit(c as int % 16)] + rest;
      assert e[3..] == rest;
      assert (c as int / 16) * 16 + c as int % 16 == c as int;
    }
  }

  /** Round trip: decoding the encoding of a byte string gives it back. */
  lemma {:induction false} UrlDecodeEncode(s: string)
    requires IsByteString(s)
    ensures UrlDecode(UrlEncode(s)) == s
    decreases |s|
  {
    if s != [] {
      assert IsByteString(s[1..]);
      DecodeEncodedByte(s[0], UrlEncode(s[1..]));
      UrlDecodeEncode(s[1..]);
    }
  }

  /**
   * `e` is an encoding of `s`: every character of `s` appears in turn either
   * as itself (when it is neither `+` nor `%`), as `+` when it is a space,
   * or as `%` and two hexadecimal digits of either case that spell it.
   * This allows every encoding `urldecode` accepts, not only the minimal
   * upper-case one `urlencode` writes.
   */
  predicate IsEncodingOf(e: string, s: string)
    decreases |e|
  {
    if e == [] then s == []
    else if s == [] then false
    else if e[0] == '+' then s[0] == ' ' && IsEncodingOf(e[1..], s[1..])
    else if e[0] == '%' then
      && |e| >= 3 && IsHexDigit(e[1]) && IsHexDigit(e[2])
      && s[0] as int == HexValue(e[1]) * 16 + HexValue(e[2])
      && IsEncodingOf(e[3..], s[1..])
    else e[0] == s[0] && IsEncodingOf(e[1..], s[1..])
  }

  /** Decoding any encoding of `s` gives `s`. */
  lemma {:induction false} UrlDecodeOfEncoding(e: string, s: string)
    requires IsEncodingOf(e, s)
    ensures UrlDecode(e) == s
    decreases |e|
  {
    if e != [] {
      if e[0] == '%' {
        UrlDecodeOfEncoding(e[3..], s[1..]);
      } else {
        UrlDecodeOfEncoding(e[1..], s[1..]);
      }
    }
  }

  /** The encoding `urlencode` writes is one of the encodings. */
  lemma {:induction false} UrlEncodeIsEncoding(s: string)
    requires IsByteString(s)
    ensures IsEncodingOf(UrlEncode(s), s)
    decreases |s|
  {
    if s != [] {
      assert IsByteString(s[1..]);
      UrlEncodeIsEncoding(s[1..]);
      var c, rest := s[0], UrlEncode(s[1..]);
      var e := EncodeByte(c) + rest;
      if IsUnreserved(c) {
        assert e[1..] == rest;
      } else if c == ' ' {
        assert e[1..] == rest;
      } else {
        assert e[3..] == rest;
        assert (c as int / 16) * 16 + c as int % 16 == c as int;
      }
    }
  }

  /** A hexadecimal digit has the same value in either case. */
  lemma HexValueEitherCase(c: char)
    requires 'a' <= c <= 'f'
    ensures HexValue(c) == HexValue((c as int - 32) as char)
  {
  }

  /** An escape `%XX` decodes to the character it spells, whatever the case of its digits. */
  lemma UrlDecodeEscape(h: char, l: char, rest: string)
    requires IsHexDigit(h) && IsHexDigit(l)
    ensures UrlDecode(['%', h, l] + rest) == [(HexValue(h) * 16 + HexValue(l)) as char] + UrlDecode(rest)
  {
    var e := ['%', h, l] + rest;
    assert e[0] == '%' && e[1] == h && e[2] == l && e[3..] == rest;
  }

  /** A `%` not followed by two hexadecimal digits is copied as it is. */
  lemma UrlDecodeMalformedEscape(s: string)
    requires s != [] && s[0] == '%'
    requires !(|s| >= 3 && IsHexDigit(s[1]) && IsHexDigit(s[2]))
    ensures UrlDecode(s) == ['%'] + UrlDecode(s[1..])
  {
  }

  /** `%20` is a space, `%2f` and `%2F` a slash, `%41` the letter A. */
  lemma UrlDecodeEscapeExamples()
    ensures UrlDecode("%20") == " "
    ensures UrlDecode("%2f") == "/" && UrlDecode("%2F") == "/"
    ensures UrlDecode("%41") == "A"
  {
    UrlDecodeEscape('2', '0', []);
    UrlDecodeEscape('2', 'f', []);
    UrlDecodeEscape('2', 'F', []);
    UrlDecodeEscape('4', '1', []);
  }

  /** A malformed escape such as `%zz`, and a trailing `%`, stay as they are. */
  lemma UrlDecodeMalformedExamples()
    ensures UrlDecode("%") == "%"
    ensures UrlDecode("%zz") == "%zz"
  {
  }

  /** A string without `+` and `%` decodes to itself. */
  lemma {:induction false} UrlDecodePlain(s: string)
    requires '+' !in s && '%' !in s
    ensures UrlDecode(s) == s
    decreases |s|
  {
    if s != [] {
      assert s[0] in s && s[0] != '+' && s[0] != '%';
      UrlDecodePlain(s[1..]);
      assert UrlDecode(s) == [s[0]] + UrlDecode(s[1..]);
    }
  }

  /** Decoding distributes over a concatenation whose left part holds no `%`. */
  lemma {:induction false} UrlDecodeConcat(a: string, b: string)
    requires '%' !in a
    ensures UrlDecode(a + b) == UrlDecode(a) + UrlDecode(b)
    decreases |a|
  {
    if a != [] {
      var s := a + b;
      assert s[0] == a[0] && s[1..] == a[1..] + b;
      UrlDecodeConcat(a[1..], b);
      var h := if a[0] == '+' then ' ' else a[0];
      assert UrlDecode(s) == [h] + UrlDecode(s[1..]);
      assert UrlDecode(a) == [h] + UrlDecode(a[1..]);
      Assoc([h], UrlDecode(a[1..]), UrlDecode(b));
    } else {
      assert a + b == b;
    }
  }

  /** A `+` between two plain strings decodes to a space. */
  lemma UrlDecodePlus(a: string, b: string)
    requires '+' !in a && '%' !in a && '+' !in b && '%' !in b
    ensures UrlDecode(a + "+" + b) == a + " " + b
  {
    var plus := "+";
    UrlDecodePlain(a);
    UrlDecodePlain(b);
    UrlDecodeConcat(a, plus + b);
    assert (plus + b)[0] == '+' && (plus + b)[1..] == b;
    assert a + plus + b == a + (plus + b);
  }

  // ---------------------------------------------------------------------
  // parse_str
  // ---------------------------------------------------------------------

  /**
   * One `name=value` piece cut at its first `=`; a piece without `=` is a
   * name whose value is empty.
   */
  function SplitPair(pair: string): (kv: (string, string))
    ensures '=' !in kv.0
    ensures '=' in pair ==> pair == kv.0 + "=" + kv.1
    ensures '=' !in pair ==> kv == (pair, "")
  {
    ContainsChar(pair, '=');
    match Find(pair, "=")
    case None => (pair, "")
    case Some(i) =>
      assert pair[i..i + 1] == "=";
      assert pair == pair[..i] + "=" + pair[i + 1..];
      ContainsChar(pair[..i], '=');
      PrefixFree(pair, "=", i);
      (pair[..i], pair[i + 1..])
  }

  /** The parameter map after one more piece of the query. */
  function AddPair(params: map<string, string>, pair: string): (r: map<string, string>)
    ensures var key := UrlDecode(SplitPair(pair).0);
      && (pair == "" || key == "" ==> r == params)
      && (pair != "" && key != "" ==> key in r && r[key] == UrlDecode(SplitPair(pair).1))
      && forall k :: k != key ==> (k in r <==> k in params) && (k in r ==> r[k] == params[k])
  {
    if pair == "" then params
    else
      var (name, value) := SplitPair(pair);
      var key := UrlDecode(name);
      if key == "" then params else params[key := UrlDecode(value)]
  }

  /** The parameter map of a sequence of pieces, taken from left to right. */
  function ParsePairs(pairs: seq<string>): (r: map<string, string>)
    ensures forall k :: k in r ==> k != ""
    decreases |pairs|
  {
    if pairs == [] then map[]
    else AddPair(ParsePairs(pairs[..|pairs| - 1]), pairs[|pairs| - 1])
  }

  /** PHP `parse_str(query, $result)`, simplified as described above. */
  function ParseStr(query: string): (params: map<string, string>)
    ensures forall k :: k in params ==> k != ""
  {
    ParsePairs(Explode("&", query))
  }

  /** An empty query string gives no parameters. */
  lemma ParseStrEmpty()
    ensures ParseStr("") == map[]
  {
    assert !Contains("", "&");
    assert Explode("&", "") == [""];
  }

  /** How a piece `name=value` whose name has no `=` is split. */
  lemma SplitNamedPair(name: string, value: string)
    requires '=' !in name
    ensures SplitPair(name + "=" + value) == (name, value)
  {
    var p := name + "=" + value;
    assert p[..|name|] == name;
    FirstChar(p, '=', |name|);
    FindIsFirst(p, "=", |name|);
    assert p[|name| + 1..] == value;
  }

  /** The parameter map of a query that is a single piece. */
  lemma ParseStrSingle(pair: string)
    requires '&' !in pair
    ensures ParseStr(pair) == AddPair(map[], pair)
  {
    ContainsChar(pair, '&');
    assert "&" == ['&'];
    var pieces := Explode("&", pair);
    assert pieces == [pair];
    assert pieces[..0] == [];
    assert ParsePairs(pieces) == AddPair(ParsePairs([]), pair);
  }

  /** A query of a single piece `name=value`. */
  lemma ParseStrPair(name: string, value: string)
    requires '&' !in name && '&' !in value && '=' !in name
    requires UrlDecode(name) != ""
    ensures ParseStr(name + "=" + value) == map[UrlDecode(name) := UrlDecode(value)]
  {
    var p := name + "=" + value;
    assert '&' !in p;
    ParseStrSingle(p);
    SplitNamedPair(name, value);
  }

  /** A piece whose name decodes to nothing adds no parameter. */
  lemma ParseStrEmptyName(value: string)
    requires '&' !in value
    ensures ParseStr("=" + value) == map[]
  {
    var p := "=" + value;
    assert '&' !in p;
    ParseStrSingle(p);
    SplitNamedPair("", value);
    assert "" + "=" + value == p;
  }

  /**
   * Last wins: a piece `name=value` appended after `&` sets the parameter
   * `name` to `value`, whatever the query before it says, and keeps every
   * other parameter.
   */
  lemma ParseStrLastWins(query: string, name: string, value: string)
    requires '&' !in name && '&' !in value && '=' !in name
    requires UrlDecode(name) != ""
    ensures ParseStr(query + "&" + name + "=" + value) == ParseStr(query)[UrlDecode(name) := UrlDecode(value)]
  {
    var p := name + "=" + value;
    assert '&' !in p;
    assert query + "&" + name + "=" + value == query + ['&'] + p;
    ExplodeCharSnoc('&', query, p);
    var pieces := Explode("&", query);
    assert (pieces + [p])[..|pieces|] == pieces;
    SplitNamedPair(name, value);
  }
}
