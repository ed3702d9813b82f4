# HTTP request-head parser of a small PHP web server

This project models the `Request` class of the ClanCats Station PHP server.
The class turns the raw text of an HTTP request head into a request object
holding four things:

- an upper-cased method;
- the path of the requested URI;
- the query parameters decoded from the URI;
- a map of headers.

It also provides the accessors `method()`, `uri()`, `getHeader()` and
`param()`.

The PHP string built-ins the parser relies on are modelled by hand in
`php_string.dfy`: `explode`, `str_contains`, `trim` and `strtoupper`.
`url_query.dfy` models `urldecode` and a simplified `parse_str`.
`request.dfy` holds the parser and the `Request` class.
`request_properties.dfy` holds lemmas that relate several operations: which
headers a head yields, which one wins, how the request line and the URI are
cut, and whole worked heads.

How the code behaves, and so how the model behaves:

- A head is cut into lines at every `"\n"` (not at `"\r\n"`).
- The first line is cut at every space, and it is not trimmed. Its first
  piece is the method and its second piece is the URI. So in a line
  `GET /x\r` the URI keeps the `"\r"`.
- A first line without a space gives no URI. PHP then passes `null` to a
  `string` parameter under `strict_types`, which raises a `TypeError`. The
  model returns `Failure(MissingUri)` in that case. This includes the empty
  head: the code fails on it rather than producing an empty method and URI.
- Every later line is trimmed. It yields a header only when it then
  contains `": "`. The header name is the text before the first `": "` and
  the value is the text between the first and the second `": "`. Later
  headers overwrite earlier ones.
- The URI's path is the text before its first `?`. The query is the text
  between the first and the second `?`. Only the query is passed to
  `parse_str`.

`Request` is a class with `const` fields: nothing in the modelled code
changes a request after it is constructed. `method` is a Dafny keyword, so
the method field is called `requestMethod`.

## Model

| member | source | states |
|---|---|---|
| PhpString.Find | src/Request.php:80 | the result is the first position where the needle occurs, and `None` means it occurs nowhere |
| PhpString.Contains | src/Request.php:80 | `str_contains` holds exactly when the needle occurs somewhere in the string |
| PhpString.Explode | src/Request.php:69 | `explode` always gives at least one piece; what the pieces are is stated by the `Explode…` lemmas below |
| PhpString.ExplodeHead | src/Request.php:51-52 | the first piece of `explode` is a prefix of the input; there is a single piece exactly when the separator does not occur, and then it is the whole input; otherwise the first piece ends at the first occurrence |
| PhpString.ExplodeAt | src/Request.php:69 | `explode` cuts at the first occurrence and explodes the rest again |
| PhpString.ImplodeExplode | src/Request.php:69 | joining the pieces of `explode` with the separator rebuilds the input |
| PhpString.ExplodePiecesFree | src/Request.php:69 | no piece of `explode` contains the separator |
| PhpString.ExplodeCharSnoc | src/Request.php:57 | for a one-character separator `c`: appending `c` and a tail free of `c` appends that tail as one more piece |
| PhpString.ExplodeCharCons | src/Request.php:69 | for a one-character separator `c`: a head free of `c`, then `c`, gives that head as the first piece, followed by the explode of the rest |
| PhpString.ContainsChar | src/Request.php:80 | `str_contains` with a one-character needle holds exactly when that character occurs |
| PhpString.ExplodeTwo | src/Request.php:72 | `list($a, $b) = explode(...)` succeeds exactly when the separator occurs; `$a` is the text before the first occurrence and `$b` the text up to the second occurrence or the end, and neither contains the separator |
| PhpString.ExplodeTwoJoin | src/Request.php:81 | `a sep b`, where the written sep is the first occurrence and `b` does not contain sep, gives back `a` and `b` |
| PhpString.ExplodeTwoOfThree | src/Request.php:81 | `a sep b sep c` gives back `a` and `b`, and `c` is lost |
| PhpString.ExplodeTwoOfPairs | src/Request.php:81 | for a two-character separator whose characters differ, such as `": "`, `a sep b sep c` with `a` and `b` free of sep gives back `a` and `b` |
| PhpString.ExplodeTwoAt | src/Request.php:81 | the two pieces are the text before the first occurrence and the text between the first two occurrences |
| PhpString.PairFirst | src/Request.php:81 | with `a` free of a two-character separator whose two characters differ, the separator written after `a` is its first occurrence |
| PhpString.IsTrimChar | src/Request.php:78 | the six characters `trim` strips by default (space, tab, LF, CR, NUL, vertical tab), all at or below the space character |
| PhpString.TrimLeft | src/Request.php:78 | the result is a suffix of the input, everything removed is a trim character, and the result does not start with one |
| PhpString.TrimRight | src/Request.php:78 | the result is a prefix of the input, everything removed is a trim character, and the result does not end with one |
| PhpString.Trim | src/Request.php:78 | the result is a slice of the input with only trim characters cut from both ends, and it neither starts nor ends with a trim character |
| PhpString.TrimPadded | src/Request.php:78 | trimming a string that does not start or end with a trim character, followed by trim characters, gives that string back |
| PhpString.TrimUntouched | src/Request.php:78 | a string that neither starts nor ends with a trim character is its own trim |
| PhpString.TrimAllTrimmed | src/Request.php:78 | a line made only of trim characters trims to the empty string |
| PhpString.UpperChar | src/Request.php:48 | ASCII lower-case letters move to upper case and every other character is unchanged |
| PhpString.StrToUpper | src/Request.php:48 | the result has the input's length and upper-cases it character by character |
| PhpString.StrToUpperNoLower | src/Request.php:48 | the upper-cased string contains no `a`–`z`, and upper-casing changes nothing exactly when the input has none |
| PhpString.StrToUpperIdempotent | src/Request.php:48 | upper-casing twice is the same as upper-casing once |
| UrlQuery.HexDigit | src/Request.php:57 | the digit for `n` is a hexadecimal digit whose value is `n`; it is used only by `UrlEncode`, the reference inverse the decoder is proved against |
| UrlQuery.UrlDecode | src/Request.php:57 | decoding never lengthens a string and maps byte strings to byte strings |
| UrlQuery.UrlEncode | src/Request.php:57 | `urlencode`, not called by the parser: the reference inverse the decoder is proved against; the encoding of a byte string is between one and three times as long and contains no space |
| UrlQuery.DecodeEncodedByte | src/Request.php:57 | decoding the reference `urlencode` encoding of one byte gives that byte and leaves the rest to be decoded |
| UrlQuery.UrlDecodeEncode | src/Request.php:57 | round trip: decoding the encoding of any byte string gives it back |
| UrlQuery.UrlDecodeOfEncoding | src/Request.php:57 | decoding gives `s` back from every encoding of `s`: raw characters other than `+` and `%`, `+` for a space, and `%XX` escapes with hex digits of either case, escapes of unreserved characters included |
| UrlQuery.UrlEncodeIsEncoding | src/Request.php:57 | the reference `urlencode` output is one of those encodings |
| UrlQuery.HexValueEitherCase | src/Request.php:57 | a lower-case hex digit has the value of its upper-case form |
| UrlQuery.UrlDecodeEscape | src/Request.php:57 | `%` and two hex digits of either case decode to the character they spell, and the rest is decoded after it |
| UrlQuery.UrlDecodeMalformedEscape | src/Request.php:57 | a `%` not followed by two hex digits is copied unchanged |
| UrlQuery.UrlDecodeEscapeExamples | src/Request.php:57 | `%20` is a space, `%2f` and `%2F` are `/`, and `%41` is `A` |
| UrlQuery.UrlDecodeMalformedExamples | src/Request.php:57 | a lone trailing `%` and the malformed `%zz` are kept as they are |
| UrlQuery.UrlDecodePlain | src/Request.php:57 | a string without `+` and `%` decodes to itself |
| UrlQuery.UrlDecodeConcat | src/Request.php:57 | decoding distributes over a concatenation whose left part holds no `%` |
| UrlQuery.UrlDecodePlus | src/Request.php:57 | a `+` between two strings without `+` or `%` decodes to a space |
| UrlQuery.SplitPair | src/Request.php:57 | a query piece is cut at its first `=`, and a piece without `=` is a name with an empty value |
| UrlQuery.AddPair | src/Request.php:57 | one query piece sets its decoded name to its decoded value, unless the piece or the decoded name is empty, and leaves every other parameter as it was |
| UrlQuery.ParsePairs | src/Request.php:57 | no parameter has an empty name |
| UrlQuery.ParseStr | src/Request.php:56-58 | no parameter decoded from a query has an empty name |
| UrlQuery.ParseStrEmpty | src/Request.php:53-58 | the empty query gives no parameters |
| UrlQuery.SplitNamedPair | src/Request.php:57 | `name=value`, with `name` free of `=`, splits into `name` and `value` |
| UrlQuery.ParseStrSingle | src/Request.php:57 | a query without `&` is a single piece |
| UrlQuery.ParseStrPair | src/Request.php:57 | the query `name=value` gives exactly the parameter decoded name = decoded value |
| UrlQuery.ParseStrEmptyName | src/Request.php:57 | a piece whose name is empty adds no parameter |
| UrlQuery.ParseStrLastWins | src/Request.php:57 | a piece appended after `&` sets its parameter and keeps every other one (last wins) |
| HttpRequest.Lines | src/Request.php:69 | a head has at least one line, no line contains `"\n"`, and joining the lines with `"\n"` rebuilds the head |
| HttpRequest.RequestLine | src/Request.php:72 | the request line has tokens exactly when it contains a space; the method token is the text before the first space and the URI token runs from there to the second space or the end, and neither contains a space |
| HttpRequest.UriPath | src/Request.php:51-52 | the path is the prefix of the URI before the first `?`, contains no `?`, and is the whole URI when there is none |
| HttpRequest.QueryString | src/Request.php:51-53 | the query is the segment between the first and second `?` (or the end), and is empty when the URI has no `?` |
| HttpRequest.ParseHeaderLine | src/Request.php:78-82 | a line gives a header exactly when its trimmed form contains `": "`; the name is the text before the first `": "` and the value the text up to the second `": "` or the end |
| HttpRequest.Collect | src/Request.php:76-83 | every entry of the map built line by line comes from some line whose parse gives exactly that name and value |
| HttpRequest.HeaderMap | src/Request.php:74-84 | the header map of the `foreach` loop; no header name or value contains `": "` |
| HttpRequest.CollectSnoc | src/Request.php:76-83 | one more line stores its entry, or changes nothing when it gives none |
| HttpRequest.HeaderMapPrefix | src/Request.php:76-83 | the header map of the first `i + 1` lines is that of the first `i` lines with line `i`'s header stored, if it gives one |
| HttpRequest.HeaderLineParts | src/Request.php:80-82 | a line whose trimmed form contains `": "` explodes into at least two pieces, and its header is the first two |
| HttpRequest.ParseHeaderLines | src/Request.php:74-84 | the header loop builds exactly the header map of the lines, stored first to last |
| HttpRequest.Request.constructor | src/Request.php:45-59 | stores the headers unchanged, the upper-cased method, the URI path and the parameters decoded from the query, and establishes the request invariant |
| HttpRequest.Request.GetRequestWithHeaderString | src/Request.php:67-88 | fails exactly when the first line has no space; otherwise gives a fresh request whose method, path and parameters come from the first line's tokens and whose headers come from the lines after the first |
| HttpRequest.Request.Method | src/Request.php:95-98 | returns the stored method, which holds no lower-case letter |
| HttpRequest.Request.Uri | src/Request.php:105-108 | returns the stored path, which holds no `?` |
| HttpRequest.Request.GetHeader | src/Request.php:116-119 | returns the stored header value when the name is present and nothing otherwise |
| HttpRequest.Request.Param | src/Request.php:127-130 | returns the stored parameter value when the name is present and nothing otherwise |
| RequestProperties.CollectKeys | src/Request.php:76-83 | the map built by the loop holds exactly the names of the lines that give an entry |
| RequestProperties.CollectLastWins | src/Request.php:82 | the value stored under a name is that of the last line giving an entry of that name |
| RequestProperties.HeaderMapKeys | src/Request.php:74-84 | the header map holds exactly the names of the lines that give a header, and nothing else |
| RequestProperties.HeaderMapLastWins | src/Request.php:82 | a later header line with the same name overwrites an earlier one |
| RequestProperties.HeadersSkipFirstLine | src/Request.php:72-76 | the headers come only from the lines after the first, so the first line never gives a header |
| RequestProperties.HeaderLineOf | src/Request.php:78-82 | a line `name: value` followed by trim characters, such as the `"\r"` of CRLF, gives exactly that header |
| RequestProperties.HeaderValueStopsAtSecondSeparator | src/Request.php:81 | in `name: value: more`, the value stops at the second `": "` and the rest is lost |
| RequestProperties.RequestLineOf | src/Request.php:72 | `m u rest`, with `rest` empty or starting with a space, has method token `m` and URI token `u` |
| RequestProperties.CarriageReturnStaysInUri | src/Request.php:69-72 | the request line is not trimmed: a `"\r"` after the URI stays in the URI token and in the path |
| RequestProperties.UriOf | src/Request.php:51-53 | `path?query` followed by nothing or by a further `?` has path `path` and query `query`, and what follows the second `?` is dropped |
| RequestProperties.NoQueryNoParameters | src/Request.php:51-58 | a URI without `?` is its own path and yields no parameters |
| RequestProperties.EmptyLines | src/Request.php:69 | the empty head is one empty line |
| RequestProperties.LinesOfThree | src/Request.php:69 | the lines of `first\nsecond\nthird\nrest` are the three lines followed by the lines of `rest` |
| RequestProperties.BlankLineGivesNoHeader | src/Request.php:78-80 | a line made only of trim characters gives no header |
| RequestProperties.CollectOfThree | src/Request.php:76-83 | three lines of which only the first gives an entry yield exactly that entry |
| RequestProperties.OneHeaderHead | src/Request.php:69-84 | a head made of a first line, one header line and a blank line has that first line and exactly that one header |
| RequestProperties.TypicalHead | src/Request.php:67-84 | the head `m target HTTP/1.1\r\nname: value\r\n\r\n` has method token `m`, URI token `target` and the single header `name: value` |
| RequestProperties.PlusIsSpace | src/Request.php:56-58 | in the query `name=a+b`, the `+` decodes to a space, giving the single parameter `name` = `a b` |
| RequestProperties.SearchRequest | src/Request.php:45-88 | the head `m path?name=a+b HTTP/1.1\r\nhname: hvalue\r\n\r\n` gives method token `m`, path `path`, the single parameter `name` = `a b` and the single header `hname` = `hvalue` |

## Left out

- `src/Server.php` (sockets, the port check, the running flag) and `main.php`: these do socket I/O and run the accept loop. They are not part of this model.
- The response side and the 404 substitution of the server are not part of this model.
- `parse_str`'s array syntax (`a[]=1`, `a[k]=1`) is not modelled. Neither is its rewriting of `.` and space to `_` in names, its stripping of leading spaces from names, or its truncation of names at NUL. Its `arg_separator.input` setting is taken to be `&`. Even on the plain `name=value&…` form, the model differs from PHP in the three ways listed next.
- UrlQuery.ParseStr: PHP splits a NUL-terminated copy of the query, so a raw NUL character ends the whole query. For example, `a=x\0y&b=1` gives only `a` = `x` in PHP. The model reads past the NUL and gives `a` = `x\0y` and `b` = `1`.
- UrlQuery.ParseStr: PHP stops after `max_input_vars` pieces (1000 by default) and raises a warning. The model reads every piece.
- Order of parameters and headers: PHP arrays keep insertion order, and the public `$parameters` and `$headers` arrays expose it (for example to `print_r` in `main.php`). Dafny maps have no order, so the model says which keys and values are present, not in what order they were stored.
- `urldecode` works on bytes. The model works on characters and treats a decoded `%XX` as the character with that code. Character encodings are not modelled.
- PHP turns a decimal-integer string used as an array key (`"123"`) into an integer key. Lookups convert the same way, so this does not change what `getHeader` or `param` return. Keys are kept as strings here.
- `new static` (late static binding for subclasses): subclasses are not modelled, and the method always builds a `Request`.
- The PHP fields are public and writable, while the model makes them `const`. No code in `Request.php` writes them after construction, and writes from outside the class are not modelled.
- `strtoupper` is taken to be ASCII-only, as in PHP 8.2 and later. The locale-dependent upper-casing of earlier PHP versions is not modelled.
- The `TypeError` raised for a first line without a space is modelled as the result `Failure(MissingUri)`, not as an exception.
- PhpString.Explode: its own contract states only that there is at least one piece. What the pieces are is stated by `ExplodeHead`, `ExplodeAt`, `ImplodeExplode` and `ExplodePiecesFree`, which keeps the function cheap for the verifier to use.
