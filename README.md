# web_server_rs: the request parser, router and handlers, in Dafny

This project models the pure core of `web_server_rs`, a small HTTP/1.1 server.

- `HttpRequest::new` parses the text of one request into method, target, version, three headers and a body.
- `HttpRequest::response` routes on the target. `"/"` gets the fixed `200 test` answer. A target starting with `/echo` gets the echo handler, one starting with `/user-agent` gets the `User-Agent` value, and anything else gets the fixed `404 test` answer.
- The free function `targets::echo::handle_echo` computes the same echo answer from a bare path.

Every piece of the core is an expression over strings, so the model is datatypes, functions and lemmas.

- `str.dfy` (module `Str`) defines the Rust `str` operations the parser relies on:
  - `split` with a string or character separator: leftmost, non-overlapping, empty pieces kept.
  - `join`, `split_whitespace` (on the full Unicode `White_Space` set), `trim_start_matches`, `find` and `take_while`.
  - `len()` as the UTF-8 byte length, and decimal formatting.
  - The inverse and round-trip facts that tie these operations together.
- `wire.dfy` (module `Wire`) holds the one response shape every handler formats. It also holds an independent client-side reader, `ReadMessage`, that cuts a response into status line, headers and body. The handlers' contracts are stated through this reader: what a client reads back is the intended status and body, and the declared `Content-Length` is the body's byte length.
- `request.dfy` (module `Request`) covers `HttpHeaders`, `HttpRequest`, `new` (with the iterator step `skip` it uses), `response` and the four handlers, plus the parser and routing properties.
- `echo.dfy` (module `Echo`) covers `targets::echo::handle_echo` and its agreement with the method of the same name.

## Model

| member | source | states |
|---|---|---|
| Request.New | src/http/request.rs:20-52 | method, target and version never contain whitespace |
| Request.RequestLineFields | src/http/request.rs:23-32 | for a request line of tokens separated by any non-empty runs of whitespace (optionally led and trailed by whitespace), with no CRLF in it, followed by CRLF or the end of the text, method, target and version are the first, second and third tokens; a missing one is "" and extra tokens are ignored |
| Request.RequestLineOfNew | src/http/request.rs:23-32 | for a CRLF-free line followed by CRLF or the end of the text, the three fields are the 0th, 1st and 2nd whitespace tokens of that line, or "" when absent |
| Request.FirstLine | src/http/request.rs:23-24 | the request line is the text before the first CRLF, or the whole text if there is none |
| Request.TokenOrEmpty | src/http/request.rs:30-32 | `get(i).unwrap_or("")` yields one of the parts or ""; for non-empty tokens it is "" exactly when there is no part i |
| Request.Skip | src/http/request.rs:25-26 | `skip(n)` is what follows the first n lines, and nothing when there are at most n |
| Request.HeadersOf | src/http/request.rs:36-49 | each of the three headers is "" when no line starts with its name, and a found value never starts with its name |
| Request.HeaderValue | src/http/request.rs:36-47 | a header value is "" when no line starts with the header name; otherwise it is the first such line with every leading repetition of the name trimmed off |
| Request.HeaderValueTrimmed | src/http/request.rs:38-42 | a found header value never starts with the header name |
| Request.HeadersFromBlock | src/http/request.rs:25-47 | the headers are looked up in exactly the run of non-empty lines after the request line |
| Request.HeadersIgnoreTail | src/http/request.rs:25 | a header line after the first empty line is never picked up |
| Request.NoHeaderBlock | src/http/request.rs:25-47 | with an empty line right after the request line, every header is "" whatever follows |
| Request.FirstHeaderLines | src/http/request.rs:25-47 | non-empty CRLF-free header lines between the request line and the empty line are exactly the lines the three headers are looked up in, whatever follows |
| Request.FirstUserAgentHeader | src/http/request.rs:40-43 | a `User-Agent: v` line right after the request line, followed by any further header lines, yields v with all leading repetitions of the prefix trimmed |
| Request.BodyAfterSecondLine | src/http/request.rs:26 | the body is exactly the text after the second CRLF, and "" when there is no second CRLF; header lines and the empty line after them become part of it |
| Request.ResponseOk | src/http/request.rs:63-65 | a client reads status 200, `Content-Type: text/plain`, `Content-Length: 4` and body "test", and the response is framed |
| Request.ResponseNotFound | src/http/request.rs:67-69 | a client reads status 404 and body "test" with `Content-Length: 4`, and the response is framed |
| Request.FixedTestBody | src/http/request.rs:64 | the hard-coded literal equals the formatted response for body "test", so its `Content-Length: 4` is right |
| Request.HandleEcho | src/http/request.rs:73-79 | when the target has exactly two '/', a client reads status 200 and the text after the last '/'; otherwise it reads the fixed "test" body; either way the response is framed (and by `Wire.IsPlainTextExact` that reading fixes every byte) |
| Request.EchoPieces | src/http/request.rs:74-76 | `split('/')` gives exactly three pieces iff the target has exactly two '/', and then the third piece is the text after the last '/', which holds no '/' |
| Request.HandleUserAgent | src/http/request.rs:81-83 | a client reads status 200 and the `User-Agent` value as body, with `Content-Length` its byte length (0 and "" for an absent header); by `Wire.IsPlainTextExact` that reading fixes every byte |
| Request.Response | src/http/request.rs:54-61 | every answer is framed: its declared `Content-Length` equals the byte length of the body a client reads |
| Request.RouteRoot | src/http/request.rs:56 | exactly "/" gets the fixed 200 "test" answer |
| Request.RouteEcho | src/http/request.rs:57 | any other target starting with "/echo" gets the echo answer |
| Request.RouteUserAgent | src/http/request.rs:58 | a target starting with "/user-agent" but not with "/echo" gets the `User-Agent` value |
| Request.RouteNotFound | src/http/request.rs:59 | a target matching no route gets the fixed 404 "test" answer |
| Request.NotFoundExactlyWhenUnrouted | src/http/request.rs:54-61 | the status line is the 404 one iff the target is not "/" and starts with neither "/echo" nor "/user-agent" |
| Request.EchoAnyPrefix | src/http/request.rs:57 | the prefix test is not segment-aware: "/echo" + x + "/" + w with slash-free x and w echoes w, e.g. "/echoXYZ/abc" answers "abc" |
| Request.EchoDeepPath | src/http/request.rs:74-78 | "/echo/a/b" falls back to the fixed "test" body |
| Request.UserAgentEndToEnd | src/http/request.rs:20-61 | a `GET /user-agent HTTP/1.1` request whose first header is `User-Agent: v`, followed by any further header lines, is answered with v (prefix repetitions trimmed), whatever follows the empty line |
| Echo.HandleEcho | src/targets/echo.rs:3-9 | when the path has exactly two '/', a client reads status 200 and the text after the last '/'; otherwise the fixed "test" body; always framed |
| Echo.SameAsRequestHandler | src/targets/echo.rs:3-9 | the free function equals `HttpRequest::handle_echo` on every request's target |
| Echo.EchoBodyHasNoSlash | src/targets/echo.rs:4-8 | the echoed body never contains '/' and the status is always 200 |
| Echo.EchoWord | src/targets/echo.rs:5-6 | "/x/w" with slash-free x and w is answered with exactly the formatted response for w |
| Wire.PlainText | src/http/request.rs:76 | the `format!` of a response: a client reading it gets back the status line, the two headers and the body unchanged, and its `Content-Length` parses back to the byte length of the body |
| Wire.IsPlainTextExact | src/http/request.rs:82 | any text a client reads as status st and body b is byte for byte the formatted response for st and b (the reader demands the CRLF that closes the empty line) |
| Wire.IsPlainTextUnique | src/http/request.rs:63-83 | a response is read as one status and one body only |
| Wire.DeclaredLengthOfPlainText | src/http/request.rs:76 | the `Content-Length` header's decimal number parses back to the length it was formatted with |
| Str.Split | src/http/request.rs:23 | `split` yields at least one piece, and the first piece is a prefix of the text |
| Str.Join | src/http/request.rs:25-26 | `join` starts with the first part |
| Str.JoinSplit | src/http/request.rs:23-26 | joining the pieces of a split with the separator gives back the text |
| Str.SplitPiecesFree | src/http/request.rs:23 | no piece of a split contains the separator |
| Str.SplitJoin | src/http/request.rs:25-35 | splitting a join of separator-free pieces gives back the pieces (for a separator that cannot overlap itself, such as CRLF) |
| Str.SplitPrefix | src/http/request.rs:23 | a separator-free first line splits off as one piece |
| Str.SplitConcat | src/http/request.rs:23 | splitting `a + sep + b` gives the pieces of a followed by the pieces of b |
| Str.SplitCharCount | src/http/request.rs:74 | `split(c)` yields one more piece than the number of occurrences of c |
| Str.SplitWhitespace | src/http/request.rs:29 | every token is non-empty and holds no whitespace |
| Str.SplitWhitespaceKeepsText | src/http/request.rs:29 | the tokens concatenated are the text with all whitespace removed |
| Str.SplitWhitespaceJoin | src/http/request.rs:29 | splitting tokens joined by single spaces gives back the tokens |
| Str.SplitWhitespaceSkip | src/http/request.rs:29 | leading whitespace of any length and kind yields no token |
| Str.SplitWhitespaceSpaced | src/http/request.rs:29 | tokens separated by any non-empty whitespace runs, with optional whitespace around them, split back into those tokens |
| Str.NoCRLFAppend | src/http/request.rs:23 | two CRLF-free texts, the first not ending in a carriage return, put together hold no CRLF |
| Str.SplitWhitespaceWord | src/http/request.rs:29 | a token followed by whitespace or the end of the text is the first token |
| Str.TrimStartMatchesShape | src/http/request.rs:38 | the text is some number of repetitions of the prefix followed by the result |
| Str.TrimStartMatchesRepeat | src/http/request.rs:42 | k repetitions of the prefix followed by a text not starting with it trim to that text |
| Str.TrimStartMatches | src/http/request.rs:38 | the result is no longer than the text and, for a non-empty pattern, does not start with the pattern |
| Str.TrimStartMatchesCount | src/http/request.rs:42 | the text is exactly `TrimCount` copies of the pattern followed by the result |
| Str.TrimStartMatchesSuffix | src/http/request.rs:46 | the result is a suffix of the text |
| Str.FindPrefixed | src/http/request.rs:36-37 | `find` returns the first index whose line starts with the prefix, or none when no line does |
| Str.TakeNonEmpty | src/http/request.rs:25 | `take_while(non-empty)` is a prefix of the lines, all of them non-empty, and stops only at an empty line or the end |
| Str.TakeNonEmptyUpTo | src/http/request.rs:25 | non-empty lines followed by an empty one are taken exactly |
| Str.AfterLast | src/http/request.rs:74-76 | the text after the last c holds no c, is a suffix, and is preceded by c unless it is the whole text |
| Str.AfterLastOfSuffix | src/targets/echo.rs:4-6 | `x + c + p` with c-free p has p after its last c |
| Str.Utf8Length | src/http/request.rs:82 | `len()` is between 1 and 4 bytes per character |
| Str.Utf8LengthAscii | src/http/request.rs:82 | the byte length equals the number of characters exactly for ASCII text |
| Str.Utf8LengthAppend | src/http/request.rs:82 | the byte length is additive |
| Str.ParseDecimalOfDecimal | src/http/request.rs:76 | the decimal text of n parses back to n |
| Str.Decimal | src/http/request.rs:82 | decimal text is non-empty digits with no leading zero |
| Str.ContainsChar | src/targets/echo.rs:4 | a one-character pattern occurs iff the character occurs |

## Left out

- `run` in src/lib.rs is not part of this model: the TCP accept loop, the single 512-byte `read`, `from_utf8_lossy` and `write_all`/`flush`. The parser is modelled on an arbitrary string, so the trailing NUL characters that a short read leaves in the buffer are just part of that string. They end up in the last CRLF-separated line of the request.
- src/main.rs is not part of this model. It is the async entry point and argument parsing, through a `Config` that src/lib.rs does not define.
- There is no concurrency and no file system access in the core, so there is nothing of either to model.
- The core has no file routes, no `Content-Encoding: gzip`, no parsing of the request's own `Content-Length`/`Content-Type`, and no 400 answer, so none of these is modelled: none of them appears in src/http/request.rs or src/targets/echo.rs.
- The body is every line from the third on, joined by CRLF (src/http/request.rs:26), as the code does. It is not the text after the empty line. For a request with headers, the header lines after the first and the empty line are part of the body (`Request.BodyAfterSecondLine`).
- `Content-Length` is `str::len()`, which is the UTF-8 byte length (`Str.Utf8Length`), not a count of characters. For an ASCII body the two agree (`Str.Utf8LengthAscii`).
- `split_whitespace` uses the Unicode `White_Space` property (`Str.IsWhitespace`), not only ASCII whitespace.
- The field `method` is called `httpMethod`, since `method` is a keyword in Dafny.
- `lines.get(0).unwrap_or(&"")` always finds a line, because `split` never returns an empty list (`Str.Split`), so the default is not modelled.
- The fixed responses are written as concatenations of their lines rather than one literal; `Request.FixedTestBody` proves they equal the formatted response for body "test".
- Request.New: its own contract states only that the three request-line fields hold no whitespace; what the fields, headers and body are is stated by the parser lemmas in the table above.
- Request.Response: its own contract states only framing; which route answers is stated by `Request.RouteRoot`, `Request.RouteEcho`, `Request.RouteUserAgent`, `Request.RouteNotFound` and `Request.NotFoundExactlyWhenUnrouted`.
