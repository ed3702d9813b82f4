/**
 * The request-head parser of the web server: `Request::__construct`,
 * `Request::getRequestWithHeaderString` and the accessors of a request.
 *
 * A raw head is cut into lines at every "\n". The first line is cut at
 * every space; its first piece is the method and its second the URI (the
 * line is not trimmed, so a "\r" can stay in the URI when the line has only
 * two pieces). Every later line is trimmed and, if it then contains ": ",
 * gives a header whose name is the text before the first ": " and whose
 * value is the text between the first and the second ": ". The URI is cut
 * at every "?": the path is the text before the first one and the query the
 * text between the first and the second one.
 */
module HttpRequest {
  import opened Wrappers
  import opened PhpString
  import opened UrlQuery

  /**
   * Why a head gives no request: the first line has no space, so there is
   * no URI to pass on, and PHP raises a TypeError when the request is
   * constructed.
   */
  datatype RequestError = MissingUri

  // ---------------------------------------------------------------------
  // The pieces of a head
  // ---------------------------------------------------------------------

  /** The lines of a raw head: `explode("\n", header)`. */
  function Lines(header: string): (lines: seq<string>)
    ensures |lines| >= 1
    ensures forall i :: 0 <= i < |lines| ==> '\n' !in lines[i]
    ensures Implode("\n", lines) == header
  {
    var lines := Explode("\n", header);
    ExplodePiecesFree("\n", header);
    ImplodeExplode("\n", header);
    assert forall i :: 0 <= i < |lines| ==> '\n' !in lines[i] by {
      forall i | 0 <= i < |lines| ensures '\n' !in lines[i] {
        ContainsChar(lines[i], '\n');
      }
    }
    lines
  }

  /**
   * The method token and the URI token of a request line: the text before
   * the first space and the text between the first and the second space
   * (or the end). A line without a space has no URI token.
   */
  function RequestLine(line: string): (r: Option<(string, string)>)
    ensures r.Some? <==> ' ' in line
    ensures r.Some? ==>
      var (m, u) := r.value;
      && ' ' !in m && ' ' !in u
      && |m| + 1 + |u| <= |line|
      && line[..|m|] == m && line[|m|] == ' ' && line[|m| + 1..|m| + 1 + |u|] == u
      && (|m| + 1 + |u| == |line| || line[|m| + 1 + |u|] == ' ')
  {
    var r := ExplodeTwo(" ", line);
    ContainsChar(line, ' ');
    if r.None? then None
    else
      var (m, u) := r.value;
      var rest := line[|m| + 1..];
      IsFirstChar(line, ' ', |m|);
      ContainsChar(m, ' ');
      ContainsChar(u, ' ');
      assert rest[..|u|] == line[|m| + 1..|m| + 1 + |u|];
      assert |m| + 1 + |u| < |line| ==> line[|m| + 1 + |u|] == ' ' by {
        if |m| + 1 + |u| < |line| {
          ContainsChar(rest, ' ');
          IsFirstChar(rest, ' ', |u|);
        }
      }
      r
  }

  /** The path of a URI: the text before its first "?", or all of it. */
  function UriPath(uri: string): (path: string)
    ensures '?' !in path
    ensures |path| <= |uri| && path == uri[..|path|]
    ensures '?' !in uri ==> path == uri
    ensures '?' in uri ==> |path| < |uri| && uri[|path|] == '?'
  {
    var parts := Explode("?", uri);
    ContainsChar(uri, '?');
    ExplodePiecesFree("?", uri);
    ContainsChar(parts[0], '?');
    assert |parts| > 1 ==> |parts[0]| < |uri| && uri[|parts[0]|] == '?' by {
      if |parts| > 1 { IsFirstChar(uri, '?', |parts[0]|); }
    }
    parts[0]
  }

  /**
   * The query of a URI: the text between its first and its second "?" (or
   * the end); empty when the URI has no "?".
   */
  function QueryString(uri: string): (query: string)
    ensures '?' !in query
    ensures '?' !in uri ==> query == ""
    ensures '?' in uri ==>
      var start := |UriPath(uri)| + 1;
      && start + |query| <= |uri| && uri[start..start + |query|] == query
      && (start + |query| == |uri| || uri[start + |query|] == '?')
  {
    var parts := Explode("?", uri);
    ContainsChar(uri, '?');
    if |parts| > 1 then
      var r := ExplodeTwo("?", uri);
      var (p, q) := r.value;
      var rest := uri[|p| + 1..];
      ContainsChar(q, '?');
      assert rest[..|q|] == uri[|p| + 1..|p| + 1 + |q|];
      assert |p| + 1 + |q| < |uri| ==> uri[|p| + 1 + |q|] == '?' by {
        if |p| + 1 + |q| < |uri| {
          ContainsChar(rest, '?');
          IsFirstChar(rest, '?', |q|);
        }
      }
      parts[1]
    else
      ""
  }

  /**
   * The header a non-first line gives: after trimming, the text before the
   * first ": " and the text between the first and the second ": " (or the
   * end). A line whose trimmed form has no ": " gives none.
   */
  function ParseHeaderLine(line: string): (h: Option<(string, string)>)
    ensures h.Some? <==> Contains(Trim(line), ": ")
    ensures h.Some? ==>
      var t := Trim(line);
      var (name, value) := h.value;
      && IsFirst(t, ": ", |name|) && name == t[..|name|]
      && var rest := t[|name| + 2..];
      && |value| <= |rest| && value == rest[..|value|]
      && (IsFirst(rest, ": ", |value|) || (value == rest && !Contains(rest, ": ")))
      && !Contains(name, ": ") && !Contains(value, ": ")
  {
    ExplodeTwo(": ", Trim(line))
  }

  /**
   * The map built by storing the entry `parse` gives for each line, from
   * first to last, so that a later entry with the same name overwrites an
   * earlier one and a line without an entry changes nothing.
   */
  function Collect(parse: string -> Option<(string, string)>, lines: seq<string>): (m: map<string, string>)
    ensures forall k :: k in m ==> exists i :: 0 <= i < |lines| && parse(lines[i]) == Some((k, m[k]))
    decreases |lines|
  {
    if lines == [] then map[]
    else
      var init := lines[..|lines| - 1];
      var m := Collect(parse, init);
      assert forall i :: 0 <= i < |init| ==> init[i] == lines[i];
      match parse(lines[|lines| - 1])
      case None => m
      case Some((name, value)) => m[name := value]
  }

  /** The header map of the lines after the request line. */
  function HeaderMap(lines: seq<string>): (headers: map<string, string>)
    ensures forall k :: k in headers ==> !Contains(k, ": ") && !Contains(headers[k], ": ")
  {
    Collect(ParseHeaderLine, lines)
  }

  /** `entry` is an entry named `name`. */
  predicate Names(entry: Option<(string, string)>, name: string)
  {
    entry.Some? && entry.value.0 == name
  }

  /** `line` gives a header named `name`. */
  predicate DefinesHeader(line: string, name: string)
  {
    Names(ParseHeaderLine(line), name)
  }

  /** Storing one more line's entry. */
  lemma CollectSnoc(parse: string -> Option<(string, string)>, lines: seq<string>, line: string)
    ensures Collect(parse, lines + [line]) == match parse(line)
      case None => Collect(parse, lines)
      case Some((name, value)) => Collect(parse, lines)[name := value]
  {
    assert (lines + [line])[..|lines|] == lines;
  }

  /** The header map of one more line of a head. */
  lemma HeaderMapPrefix(lines: seq<string>, i: nat)
    requires i < |lines|
    ensures HeaderMap(lines[..i + 1]) == match ParseHeaderLine(lines[i])
      case None => HeaderMap(lines[..i])
      case Some((name, value)) => HeaderMap(lines[..i])[name := value]
  {
    assert lines[..i + 1] == lines[..i] + [lines[i]];
    CollectSnoc(ParseHeaderLine, lines[..i], lines[i]);
  }

  /**
   * A line whose trimmed form contains ": " explodes on ": " into at least
   * two pieces, and its header is made of the first two.
   */
  lemma HeaderLineParts(line: string)
    requires Contains(Trim(line), ": ")
    ensures var parts := Explode(": ", Trim(line));
      && |parts| >= 2
      && ParseHeaderLine(line) == Some((parts[0], parts[1]))
  {
    ExplodeFirstTwo(": ", Trim(line));
  }

  /**
   * The header loop of `getRequestWithHeaderString`: every line is trimmed
   * and, when it contains ": ", the first two pieces of its explode on ": "
   * are stored as name and value.
   */
  method ParseHeaderLines(lines: seq<string>) returns (headers: map<string, string>)
    ensures headers == HeaderMap(lines)
  {
    headers := map[];
    for i := 0 to |lines|
      invariant headers == HeaderMap(lines[..i])
    {
      HeaderMapPrefix(lines, i);
      var line := Trim(lines[i]);
      if Contains(line, ": ") {
        HeaderLineParts(lines[i]);
        var parts := Explode(": ", line);
        headers := headers[parts[0] := parts[1]];
      }
    }
    assert lines[..|lines|] == lines;
  }

  // ---------------------------------------------------------------------
  // The request
  // ---------------------------------------------------------------------

  /** A parsed request; nothing changes it once it is constructed. */
  class Request {
    /** The request method, upper-cased. */
    const requestMethod: string
    /** The path of the requested URI, without its query. */
    const uri: string
    /** The query parameters. */
    const parameters: map<string, string>
    /** The request headers. */
    const headers: map<string, string>

    /** What every constructed request satisfies. */
    ghost predicate Valid()
    {
      && NoLower(requestMethod)
      && '?' !in uri
      && forall k :: k in parameters ==> k != ""
    }

    /**
     * `Request::__construct`: stores the headers as given, the method
     * upper-cased, the path of the URI and the parameters decoded from its
     * query.
     */
    constructor (requestMethod: string, uri: string, headers: map<string, string> := map[])
      ensures this.headers == headers
      ensures this.requestMethod == StrToUpper(requestMethod)
      ensures this.uri == UriPath(uri)
      ensures this.parameters == ParseStr(QueryString(uri))
      ensures Valid()
    {
      this.headers := headers;
      this.requestMethod := StrToUpper(requestMethod);
      this.uri := UriPath(uri);
      this.parameters := ParseStr(QueryString(uri));
      StrToUpperNoLower(requestMethod);
    }

    /**
     * `Request::getRequestWithHeaderString`: the request a raw head
     * describes, or `MissingUri` when its first line has no space.
     */
    static method GetRequestWithHeaderString(header: string) returns (r: Result<Request, RequestError>)
      ensures r.Failure? <==> ' ' !in Lines(header)[0]
      ensures r.Success? ==>
        var (m, u) := RequestLine(Lines(header)[0]).value;
        && fresh(r.value)
        && r.value.requestMethod == StrToUpper(m)
        && r.value.uri == UriPath(u)
        && r.value.parameters == ParseStr(QueryString(u))
        && r.value.headers == HeaderMap(Lines(header)[1..])
        && r.value.Valid()
    {
      var lines := Explode("\n", header);
      var first := lines[0];
      lines := lines[1..];
      var tokens := Explode(" ", first);
      ContainsChar(first, ' ');
      if |tokens| < 2 {
        return Failure(MissingUri);
      }
      var headers := ParseHeaderLines(lines);
      var request := new Request(tokens[0], tokens[1], headers);
      return Success(request);
    }

    /** `Request::method`. */
    function Method(): (m: string)
      ensures m == requestMethod
      ensures Valid() ==> NoLower(m)
    {
      requestMethod
    }

    /** `Request::uri`: the path, without the query. */
    function Uri(): (path: string)
      ensures path == uri
      ensures Valid() ==> '?' !in path
    {
      uri
    }

    /** `Request::getHeader`: the header named `key`, or nothing. */
    function GetHeader(key: string): (value: Option<string>)
      ensures value.Some? <==> key in headers
      ensures value.Some? ==> value.value == headers[key]
    {
      if key in headers then Some(headers[key]) else None
    }

    /** `Request::param`: the query parameter named `key`, or nothing. */
    function Param(key: string): (value: Option<string>)
      ensures value.Some? <==> key in parameters
      ensures value.Some? ==> value.value == parameters[key]
    {
      if key in parameters then Some(parameters[key]) else None
    }
  }
}
