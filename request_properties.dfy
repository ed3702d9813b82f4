/**
 * Properties of the request-head parser that relate several of its
 * operations: which headers a head yields, which one wins, how the request
 * line and the URI are cut, and a worked request.
 */
module RequestProperties {
  import opened Wrappers
  import opened PhpString
  import opened UrlQuery
  import opened HttpRequest

  // ---------------------------------------------------------------------
  // Headers
  // ---------------------------------------------------------------------

  /** The map holds exactly the names of the lines that give an entry. */
  lemma {:induction false} CollectKeys(parse: string -> Option<(string, string)>, lines: seq<string>, name: string)
    ensures name in Collect(parse, lines) <==> exists i :: 0 <= i < |lines| && Names(parse(lines[i]), name)
    decreases |lines|
  {
    if lines != [] {
      var n := |lines|;
      var init := lines[..n - 1];
      CollectKeys(parse, init, name);
      if name in Collect(parse, lines) && !Names(parse(lines[n - 1]), name) {
        assert name in Collect(parse, init);
        var i :| 0 <= i < n - 1 && Names(parse(init[i]), name);
        assert lines[i] == init[i];
      }
      if exists i :: 0 <= i < n && Names(parse(lines[i]), name) {
        var i :| 0 <= i < n && Names(parse(lines[i]), name);
        if i < n - 1 {
          assert init[i] == lines[i];
        }
      }
    }
  }

  /** The value stored under a name is that of the last line giving an entry of that name. */
  lemma {:induction false} CollectLastWins(parse: string -> Option<(string, string)>, lines: seq<string>, i: nat, name: string, value: string)
    requires i < |lines| && parse(lines[i]) == Some((name, value))
    requires forall j :: i < j < |lines| ==> !Names(parse(lines[j]), name)
    ensures name in Collect(parse, lines) && Collect(parse, lines)[name] == value
    decreases |lines|
  {
    var n := |lines|;
    var init := lines[..n - 1];
    if i < n - 1 {
      assert !Names(parse(lines[n - 1]), name);
      forall j | i < j < |init| ensures !Names(parse(init[j]), name) {
        assert init[j] == lines[j];
      }
      assert init[i] == lines[i];
      CollectLastWins(parse, init, i, name, value);
    }
  }

  /** The header map holds exactly the names of the lines that give a header. */
  lemma HeaderMapKeys(lines: seq<string>, name: string)
    ensures name in HeaderMap(lines) <==> exists i :: 0 <= i < |lines| && DefinesHeader(lines[i], name)
  {
    CollectKeys(ParseHeaderLine, lines, name);
  }

  /**
   * Last wins: the value stored under a name is the one of the last line
   * that gives a header of that name.
   */
  lemma HeaderMapLastWins(lines: seq<string>, i: nat, name: string, value: string)
    requires i < |lines| && ParseHeaderLine(lines[i]) == Some((name, value))
    requires forall j :: i < j < |lines| ==> !DefinesHeader(lines[j], name)
    ensures name in HeaderMap(lines) && HeaderMap(lines)[name] == value
  {
    CollectLastWins(ParseHeaderLine, lines, i, name, value);
  }

  /** The first line of a head never gives a header: the headers come from the lines after it. */
  lemma HeadersSkipFirstLine(first: string, rest: string)
    requires '\n' !in first
    ensures Lines(first + "\n" + rest)[1..] == Lines(rest)
  {
    ExplodeCharCons('\n', first, rest);
  }

  /**
   * A well-formed header line `name: value` followed by trim characters
   * (such as the "\r" of a CRLF line end) gives exactly that header.
   */
  lemma HeaderLineOf(name: string, value: string, pad: string)
    requires name != "" && !IsTrimChar(name[0]) && !Contains(name, ": ")
    requires value != "" && !IsTrimChar(value[|value| - 1]) && !Contains(value, ": ")
    requires forall i :: 0 <= i < |pad| ==> IsTrimChar(pad[i])
    ensures ParseHeaderLine(name + ": " + value + pad) == Some((name, value))
  {
    var s := name + ": " + value;
    assert s[0] == name[0] && s[|s| - 1] == value[|value| - 1];
    TrimPadded(s, pad);
    PairFirst(name, ": ", value);
    ExplodeTwoJoin(": ", name, value);
  }

  /** A header value stops at the second ": " of its line; the rest of the line is lost. */
  lemma HeaderValueStopsAtSecondSeparator(name: string, value: string, more: string)
    requires name != "" && !IsTrimChar(name[0]) && !Contains(name, ": ")
    requires !Contains(value, ": ")
    requires more != "" && !IsTrimChar(more[|more| - 1])
    ensures ParseHeaderLine(name + ": " + value + ": " + more) == Some((name, value))
  {
    var tail := value + ": " + more;
    var s := name + ": " + tail;
    assert name + ": " + value + ": " + more == s;
    assert s[0] == name[0] && s[|s| - 1] == more[|more| - 1];
    TrimUntouched(s);
    ExplodeTwoOfPairs(": ", name, value, more);
  }

  // ---------------------------------------------------------------------
  // Request line and URI
  // ---------------------------------------------------------------------

  /**
   * The request line `m u rest`, where `rest` is empty or starts with a
   * space, has method token `m` and URI token `u`.
   */
  lemma RequestLineOf(m: string, u: string, rest: string)
    requires ' ' !in m && ' ' !in u
    requires rest == "" || rest[0] == ' '
    ensures RequestLine(m + " " + u + rest) == Some((m, u))
  {
    var line := m + " " + u + rest;
    assert line == m + [' '] + (u + rest);
    ExplodeCharCons(' ', m, u + rest);
    ContainsChar(line, ' ');
    if rest == "" {
      assert u + rest == u;
      ContainsChar(u, ' ');
    } else {
      assert u + rest == u + [' '] + rest[1..];
      ExplodeCharCons(' ', u, rest[1..]);
    }
  }

  /** The request line is not trimmed: a "\r" after the URI token stays in it, and in the path. */
  lemma CarriageReturnStaysInUri(m: string, u: string)
    requires ' ' !in m && ' ' !in u && '?' !in u
    ensures RequestLine(m + " " + u + "\r") == Some((m, u + "\r"))
    ensures UriPath(u + "\r") == u + "\r"
  {
    assert ' ' !in u + "\r";
    RequestLineOf(m, u + "\r", "");
    assert m + " " + (u + "\r") + "" == m + " " + u + "\r";
  }

  /**
   * A URI `path?query` followed by nothing or by a further "?" has path
   * `path` and query `query`: whatever follows a second "?" is dropped.
   */
  lemma UriOf(path: string, query: string, more: string)
    requires '?' !in path && '?' !in query
    requires more == "" || more[0] == '?'
    ensures UriPath(path + "?" + query + more) == path
    ensures QueryString(path + "?" + query + more) == query
  {
    var uri := path + "?" + query + more;
    assert uri == path + ['?'] + (query + more);
    ExplodeCharCons('?', path, query + more);
    if more == "" {
      assert query + more == query;
      ContainsChar(query, '?');
    } else {
      assert query + more == query + ['?'] + more[1..];
      ExplodeCharCons('?', query, more[1..]);
    }
  }

  /** A URI without "?" yields no parameters. */
  lemma NoQueryNoParameters(uri: string)
    requires '?' !in uri
    ensures UriPath(uri) == uri && ParseStr(QueryString(uri)) == map[]
  {
    ParseStrEmpty();
  }

  // ---------------------------------------------------------------------
  // A whole head
  // ---------------------------------------------------------------------

  /** The lines after the first of a four-line head. */
  lemma LinesAfterFirst<T>(a: T, b: T, c: T, d: T)
    ensures ([a, b, c] + [d])[0] == a && ([a, b, c] + [d])[1..] == [b, c, d]
  {
  }

  /** The empty head is one empty line. */
  lemma EmptyLines()
    ensures Lines("") == [""]
  {
    ContainsChar("", '\n');
  }

  /** The lines of `first\nsecond\nthird\nrest`. */
  lemma LinesOfThree(first: string, second: string, third: string, rest: string)
    requires '\n' !in first && '\n' !in second && '\n' !in third
    ensures Lines(first + "\n" + second + "\n" + third + "\n" + rest) == [first, second, third] + Lines(rest)
  {
    var nl := ['\n'];
    var s3 := third + nl + rest;
    var s2 := second + nl + s3;
    assert first + "\n" + second + "\n" + third + "\n" + rest == first + nl + s2;
    ExplodeCharCons('\n', first, s2);
    ExplodeCharCons('\n', second, s3);
    ExplodeCharCons('\n', third, rest);
  }

  /** Lines made of trim characters only give no header. */
  lemma BlankLineGivesNoHeader(line: string)
    requires forall i :: 0 <= i < |line| ==> IsTrimChar(line[i])
    ensures ParseHeaderLine(line) == None
  {
    TrimAllTrimmed(line);
    var empty := "";
    ContainsHead(empty, ": ");
  }

  /** Three lines of which only the first gives an entry. */
  lemma CollectOfThree(parse: string -> Option<(string, string)>, line: string, blank1: string, blank2: string, name: string, value: string)
    requires parse(line) == Some((name, value)) && parse(blank1) == None && parse(blank2) == None
    ensures Collect(parse, [line, blank1, blank2]) == map[name := value]
  {
    CollectSnoc(parse, [], line);
    CollectSnoc(parse, [line], blank1);
    CollectSnoc(parse, [line, blank1], blank2);
    assert [] + [line] == [line] && [line] + [blank1] == [line, blank1];
    assert [line, blank1] + [blank2] == [line, blank1, blank2];
  }

  /**
   * A head made of a first line, one header line and the blank line that
   * ends it: the first line is line 0 and the header line is the only one
   * that defines a header.
   */
  lemma OneHeaderHead(first: string, line: string, blank: string, name: string, value: string)
    requires '\n' !in first && '\n' !in line && '\n' !in blank
    requires forall i :: 0 <= i < |blank| ==> IsTrimChar(blank[i])
    requires ParseHeaderLine(line) == Some((name, value))
    ensures
      var lines := Lines(first + "\n" + line + "\n" + blank + "\n");
      && lines[0] == first
      && HeaderMap(lines[1..]) == map[name := value]
  {
    var empty := "";
    assert first + "\n" + line + "\n" + blank + "\n" == first + "\n" + line + "\n" + blank + "\n" + empty;
    LinesOfThree(first, line, blank, empty);
    EmptyLines();
    BlankLineGivesNoHeader(blank);
    BlankLineGivesNoHeader(empty);
    CollectOfThree(ParseHeaderLine, line, blank, empty, name, value);
    LinesAfterFirst(first, line, blank, empty);
  }

  /**
   * A head `m target HTTP/1.1\r\nname: value\r\n\r\n` has method token `m`,
   * URI token `target` and the single header `name: value`.
   */
  lemma TypicalHead(m: string, target: string, name: string, value: string)
    requires ' ' !in m && '\n' !in m && ' ' !in target && '\n' !in target
    requires '\n' !in name && '\n' !in value
    requires name != "" && !IsTrimChar(name[0]) && !Contains(name, ": ")
    requires value != "" && !IsTrimChar(value[|value| - 1]) && !Contains(value, ": ")
    ensures
      var lines := Lines(m + " " + target + " HTTP/1.1\r\n" + name + ": " + value + "\r\n\r\n");
      && RequestLine(lines[0]) == Some((m, target))
      && HeaderMap(lines[1..]) == map[name := value]
  {
    var version, cr := " HTTP/1.1\r", "\r";
    var first := m + " " + target + version;
    var line := name + ": " + value + cr;
    assert '\n' !in version && '\n' !in cr;
    assert '\n' !in first && '\n' !in line;
    assert m + " " + target + " HTTP/1.1\r\n" + name + ": " + value + "\r\n\r\n" == first + "\n" + line + "\n" + cr + "\n";
    RequestLineOf(m, target, version);
    HeaderLineOf(name, value, cr);
    OneHeaderHead(first, line, cr, name, value);
  }

  /**
   * A `+` in a parameter value is decoded to a space: the query
   * `name=a+b` gives the single parameter `name` = `a b`.
   */
  lemma PlusIsSpace(name: string, a: string, b: string)
    requires name != "" && '=' !in name
    requires '+' !in name && '%' !in name && '&' !in name
    requires '+' !in a && '%' !in a && '&' !in a
    requires '+' !in b && '%' !in b && '&' !in b
    ensures ParseStr(name + "=" + a + "+" + b) == map[name := a + " " + b]
  {
    var value := a + "+" + b;
    UrlDecodePlain(name);
    UrlDecodePlus(a, b);
    assert '&' !in value;
    ParseStrPair(name, value);
    var plus := "+";
    Assoc(name + "=", a, plus);
    Assoc(name + "=", a + plus, b);
  }

  /**
   * A search request `m path?name=a+b HTTP/1.1` with one header
   * `hname: hvalue`: method token `m`, path `path`, the single parameter
   * `name` = `a b` and the single header `hname` = `hvalue`.
   */
  lemma SearchRequest(m: string, path: string, name: string, a: string, b: string, hname: string, hvalue: string)
    requires ' ' !in m && '\n' !in m
    requires ' ' !in path && '\n' !in path && '?' !in path
    requires name != "" && '=' !in name
    requires ' ' !in name && '\n' !in name && '?' !in name && '+' !in name && '%' !in name && '&' !in name
    requires ' ' !in a && '\n' !in a && '?' !in a && '+' !in a && '%' !in a && '&' !in a
    requires ' ' !in b && '\n' !in b && '?' !in b && '+' !in b && '%' !in b && '&' !in b
    requires '\n' !in hname && '\n' !in hvalue
    requires hname != "" && !IsTrimChar(hname[0]) && !Contains(hname, ": ")
    requires hvalue != "" && !IsTrimChar(hvalue[|hvalue| - 1]) && !Contains(hvalue, ": ")
    ensures
      var target := path + "?" + name + "=" + a + "+" + b;
      var lines := Lines(m + " " + target + " HTTP/1.1\r\n" + hname + ": " + hvalue + "\r\n\r\n");
      var tokens := RequestLine(lines[0]);
      && tokens == Some((m, target))
      && UriPath(tokens.value.1) == path
      && ParseStr(QueryString(tokens.value.1)) == map[name := a + " " + b]
      && HeaderMap(lines[1..]) == map[hname := hvalue]
  {
    var query := name + "=" + a + "+" + b;
    var target := path + "?" + name + "=" + a + "+" + b;
    assert target == path + "?" + query;
    assert ' ' !in query && '\n' !in query && '?' !in query;
    assert ' ' !in target && '\n' !in target;
    TypicalHead(m, target, hname, hvalue);
    UriOf(path, query, "");
    assert path + "?" + query + "" == target;
    PlusIsSpace(name, a, b);
  }
}
