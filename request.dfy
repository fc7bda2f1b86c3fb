/** The request parser, the router and the handlers of
    src/http/request.rs. A request is parsed once from the text of one read
    and never changed afterwards, so the parser is a total function from a
    string to an `HttpRequest`, and the router and the handlers are functions
    from an `HttpRequest` to the text of the response. */
module Request {
  import opened Str
  import opened Wire

  /** The three header values the parser keeps; an absent header is "". */
  datatype HttpHeaders = HttpHeaders(host: string, userAgent: string, accept: string)

  datatype HttpRequest = HttpRequest(
    httpMethod: string,
    target: string,
    version: string,
    headers: HttpHeaders,
    body: string)

  const HostPrefix: string := "Host: "
  const UserAgentPrefix: string := "User-Agent: "
  const AcceptPrefix: string := "Accept: "

  // ---------------------------------------------------------------------
  // Parsing

  /** `parts.get(i).unwrap_or(&"")`: one of the parts, or "". Since tokens
      are never empty, "" means exactly that there is no part `i`. */
  function TokenOrEmpty(parts: seq<string>, i: nat): (r: string)
    ensures r == "" || r in parts
    ensures (forall k :: 0 <= k < |parts| ==> IsToken(parts[k])) ==> (r == "" <==> |parts| <= i)
  {
    if i < |parts| then parts[i] else ""
  }

  /** `lines.iter().skip(n)`: what follows the first `n` lines, and nothing
      when there are no more than `n`. */
  function Skip(lines: seq<string>, n: nat): (r: seq<string>)
    ensures n <= |lines| ==> lines[..n] + r == lines
    ensures |lines| <= n ==> r == []
  {
    if n <= |lines| then lines[n..] else []
  }

  /** The value of a recognised header: the first line that starts with
      `name`, with every leading repetition of `name` trimmed off, or ""
      when no line starts with `name`. */
  function HeaderValue(lines: seq<string>, name: string): (v: string)
    ensures (forall j :: 0 <= j < |lines| ==> !StartsWith(lines[j], name)) ==> v == ""
    ensures forall i :: 0 <= i < |lines| && FirstWithPrefix(lines, i, name) ==>
      v == TrimStartMatches(lines[i], name)
  {
    match FindPrefixed(lines, name)
    case None => ""
    case Some(i) => TrimStartMatches(lines[i], name)
  }

  /** No line starts with `name`. */
  predicate Absent(lines: seq<string>, name: string) {
    forall j :: 0 <= j < |lines| ==> !StartsWith(lines[j], name)
  }

  /** The three headers looked up in `headers_parts`: an absent header is
      "", and a found value never starts with its own header name. */
  function HeadersOf(lines: seq<string>): (h: HttpHeaders)
    ensures Absent(lines, HostPrefix) ==> h.host == ""
    ensures Absent(lines, UserAgentPrefix) ==> h.userAgent == ""
    ensures Absent(lines, AcceptPrefix) ==> h.accept == ""
    ensures !StartsWith(h.host, HostPrefix) && !StartsWith(h.userAgent, UserAgentPrefix)
      && !StartsWith(h.accept, AcceptPrefix)
  {
    HeaderValueTrimmed(lines, HostPrefix);
    HeaderValueTrimmed(lines, UserAgentPrefix);
    HeaderValueTrimmed(lines, AcceptPrefix);
    HttpHeaders(
      HeaderValue(lines, HostPrefix),
      HeaderValue(lines, UserAgentPrefix),
      HeaderValue(lines, AcceptPrefix))
  }

  /** `HttpRequest::new`: the request line is the first CRLF line, split on
      whitespace into method, target and version; the header block is the
      run of non-empty lines after it, joined and split again; the body is
      every line from the third on, joined by CRLF. */
  function New(requestString: string): (r: HttpRequest)
    ensures NoWhitespace(r.httpMethod) && NoWhitespace(r.target) && NoWhitespace(r.version)
  {
    var lines := Split(requestString, CRLF);
    var requestLine := lines[0];
    var headersString := Join(TakeNonEmpty(lines[1..]), CRLF);
    var body := Join(Skip(lines, 2), CRLF);
    var parts := SplitWhitespace(requestLine);
    var headersParts := Split(headersString, CRLF);
    HttpRequest(
      TokenOrEmpty(parts, 0), TokenOrEmpty(parts, 1), TokenOrEmpty(parts, 2),
      HeadersOf(headersParts), body)
  }

  // ---------------------------------------------------------------------
  // Routing and handlers

  /** The targets the router sends somewhere other than the 404 response. */
  predicate Routed(target: string) {
    target == "/" || StartsWith(target, "/echo") || StartsWith(target, "/user-agent")
  }

  /** `HttpRequest::response_ok` */
  function ResponseOk(): (r: string)
    ensures IsPlainText(r, Ok, "test") && Framed(r)
  {
    FixedTestBody(Ok);
    "HTTP/1.1 200 OK" + "\r\n" + "Content-Type: text/plain" + "\r\n"
      + "Content-Length: 4" + "\r\n\r\n" + "test"
  }

  /** `HttpRequest::response_not_found` */
  function ResponseNotFound(): (r: string)
    ensures IsPlainText(r, NotFound, "test") && Framed(r)
  {
    FixedTestBody(NotFound);
    "HTTP/1.1 404 Not Found" + "\r\n" + "Content-Type: text/plain" + "\r\n"
      + "Content-Length: 4" + "\r\n\r\n" + "test"
  }

  /** `HttpRequest::handle_echo`: with exactly two slashes in the target the
      body is the text after the last one; otherwise the fixed "test". */
  function HandleEcho(req: HttpRequest): (r: string)
    ensures multiset(req.target)['/'] == 2 ==> IsPlainText(r, Ok, AfterLast(req.target, '/'))
    ensures multiset(req.target)['/'] != 2 ==> IsPlainText(r, Ok, "test")
    ensures Framed(r)
  {
    var parts := Split(req.target, "/");
    EchoPieces(req.target);
    if |parts| == 3 then
      PlainText(Ok, parts[2])
    else
      FixedTestBody(Ok);
      "HTTP/1.1 200 OK" + "\r\n" + "Content-Type: text/plain" + "\r\n"
      + "Content-Length: 4" + "\r\n\r\n" + "test"
  }

  /** `HttpRequest::handle_user_agent`: the body is the `User-Agent` value. */
  function HandleUserAgent(req: HttpRequest): (r: string)
    ensures IsPlainText(r, Ok, req.headers.userAgent) && Framed(r)
  {
    PlainText(Ok, req.headers.userAgent)
  }

  /** `HttpRequest::response`: exact "/" first, then the literal prefixes
      "/echo" and "/user-agent", then 404. Every answer is framed by its
      own `Content-Length`. */
  function Response(req: HttpRequest): (r: string)
    ensures Framed(r)
  {
    if req.target == "/" then ResponseOk()
    else if StartsWith(req.target, "/echo") then HandleEcho(req)
    else if StartsWith(req.target, "/user-agent") then HandleUserAgent(req)
    else ResponseNotFound()
  }

  // ---------------------------------------------------------------------
  // Facts the handlers rest on

  /** The hard-coded responses carry the right `Content-Length: 4`. */
  lemma FixedTestBody(st: Status)
    ensures PlainText(st, "test") == StatusLine(st) + "\r\n" + "Content-Type: text/plain" + "\r\n"
      + "Content-Length: 4" + "\r\n\r\n" + "test"
  {
    assert Utf8Length("test") == 4 by {
      assert "test"[1..] == "est";
      assert "est"[1..] == "st";
      assert "st"[1..] == "t";
      assert "t"[1..] == "";
    }
    assert Decimal(4) == "4";
    assert "Content-Length: 4" == ContentLengthPrefix + "4";
    assert "\r\n\r\n" == CRLF + CRLF;
  }

  /** Splitting a target on '/' gives three pieces exactly when it holds two
      slashes, and then the third piece is the text after the last slash. */
  lemma EchoPieces(t: string)
    ensures |Split(t, "/")| == 3 <==> multiset(t)['/'] == 2
    ensures |Split(t, "/")| == 3 ==> Split(t, "/")[2] == AfterLast(t, '/')
    ensures |Split(t, "/")| == 3 ==> '/' !in Split(t, "/")[2]
  {
    var parts := Split(t, "/");
    SplitCharCount(t, '/');
    assert "/" == ['/'];
    if |parts| == 3 {
      JoinSplit(t, "/");
      SplitPiecesFree(t, "/");
      ContainsChar(parts[2], '/');
      JoinThree(parts, "/");
      assert t == (parts[0] + "/" + parts[1]) + ['/'] + parts[2];
      AfterLastOfSuffix(parts[0] + "/" + parts[1], '/', parts[2]);
    }
  }

  // ---------------------------------------------------------------------
  // Properties of the parser

  /** The request line is the text up to the first CRLF, or all of it. */
  lemma FirstLine(line: string, rest: string)
    requires !Contains(line, CRLF)
    requires rest == "" || StartsWith(rest, CRLF)
    ensures Split(line + rest, CRLF)[0] == line
  {
    if rest == "" {
      assert line + rest == line;
      SplitNoSep(line, CRLF);
    } else {
      var t := rest[2..];
      assert rest == CRLF + t;
      assert line + rest == line + CRLF + t;
      CRLFBorderless();
      SplitPrefix(line, t, CRLF);
    }
  }

  /** Method, target and version are the first three whitespace tokens of
      the text before the first CRLF (or of all of it), "" where missing. */
  lemma RequestLineOfNew(line: string, rest: string)
    requires !Contains(line, CRLF)
    requires rest == "" || StartsWith(rest, CRLF)
    ensures var parts := SplitWhitespace(line);
      New(line + rest).httpMethod == TokenOrEmpty(parts, 0)
      && New(line + rest).target == TokenOrEmpty(parts, 1)
      && New(line + rest).version == TokenOrEmpty(parts, 2)
  {
    FirstLine(line, rest);
  }

  /** For a request line of tokens separated by any runs of whitespace
      (spaces, tabs, ..., with optional whitespace around them), method,
      target and version are the first three tokens; a missing one is ""
      and any further tokens are ignored. */
  lemma RequestLineFields(gaps: seq<string>, tokens: seq<string>, rest: string)
    requires Spaced(gaps, tokens)
    requires !Contains(Interleave(gaps, tokens), CRLF)
    requires rest == "" || StartsWith(rest, CRLF)
    ensures New(Interleave(gaps, tokens) + rest).httpMethod == TokenOrEmpty(tokens, 0)
    ensures New(Interleave(gaps, tokens) + rest).target == TokenOrEmpty(tokens, 1)
    ensures New(Interleave(gaps, tokens) + rest).version == TokenOrEmpty(tokens, 2)
  {
    SplitWhitespaceSpaced(gaps, tokens);
    RequestLineOfNew(Interleave(gaps, tokens), rest);
  }

  /** Header lookup searches exactly the header block: the non-empty lines
      after the request line, up to the first empty one. */
  lemma HeadersFromBlock(s: string)
    ensures New(s).headers == HeadersOf(TakeNonEmpty(Split(s, CRLF)[1..]))
  {
    var lines := Split(s, CRLF);
    var block := TakeNonEmpty(lines[1..]);
    if |block| == 0 {
      assert Split("", CRLF) == [""];
      assert !StartsWith("", HostPrefix) && !StartsWith("", UserAgentPrefix)
        && !StartsWith("", AcceptPrefix);
    } else {
      SplitPiecesFree(s, CRLF);
      forall i | 0 <= i < |block| ensures !Contains(block[i], CRLF) {
        assert block[i] == lines[1 + i];
      }
      CRLFBorderless();
      SplitJoin(block, CRLF);
    }
  }

  /** A header line after the first empty line is never picked up: when the
      request is `head`, an empty line and `tail`, and no line of `head`
      after the first is empty, the headers come from `head` alone. */
  lemma HeadersIgnoreTail(head: string, tail: string)
    requires forall i :: 1 <= i < |Split(head, CRLF)| ==> Split(head, CRLF)[i] != ""
    ensures New(head + CRLF + CRLF + tail).headers == HeadersOf(Split(head, CRLF)[1..])
  {
    var hs := Split(head, CRLF);
    var ts := Split(tail, CRLF);
    var s := head + CRLF + CRLF + tail;
    HeadThenBlankBlock(head, tail);
    HeadersFromBlock(s);
  }

  /** The header block of `head`, an empty line and `tail` is made of the
      lines of `head` after its first. */
  lemma HeadThenBlankBlock(head: string, tail: string)
    requires forall i :: 1 <= i < |Split(head, CRLF)| ==> Split(head, CRLF)[i] != ""
    ensures TakeNonEmpty(Split(head + CRLF + CRLF + tail, CRLF)[1..]) == Split(head, CRLF)[1..]
  {
    var hs := Split(head, CRLF);
    var ts := Split(tail, CRLF);
    var s := head + CRLF + CRLF + tail;
    CRLFBorderless();
    assert s == head + CRLF + (CRLF + tail);
    SplitConcat(head, CRLF + tail, CRLF);
    assert CRLF + tail == "" + CRLF + tail;
    assert !Contains("", CRLF);
    SplitPrefix("", tail, CRLF);
    var lines := hs + ([""] + ts);
    assert Split(s, CRLF) == lines;
    assert lines[1..] == hs[1..] + [""] + ts;
    TakeNonEmptyUpTo(hs[1..], ts);
  }

  /** With an empty line straight after the request line, every header is
      "", whatever follows. */
  lemma NoHeaderBlock(requestLine: string, tail: string)
    requires !Contains(requestLine, CRLF)
    ensures New(requestLine + CRLF + CRLF + tail).headers == HttpHeaders("", "", "")
  {
    SplitNoSep(requestLine, CRLF);
    HeadersIgnoreTail(requestLine, tail);
  }

  /** A found header value no longer starts with the header's prefix. */
  lemma HeaderValueTrimmed(lines: seq<string>, name: string)
    requires |name| > 0
    ensures !StartsWith(HeaderValue(lines, name), name)
  {
    match FindPrefixed(lines, name)
    case None =>
    case Some(i) => TrimStartMatchesShape(lines[i], name);
  }

  /** The body is the text after the second CRLF of the request, whatever
      lines it holds, and "" when there is no second CRLF. */
  lemma BodyAfterSecondLine(s: string)
    ensures var lines := Split(s, CRLF);
      |lines| >= 3 ==> s == lines[0] + CRLF + lines[1] + CRLF + New(s).body
    ensures |Split(s, CRLF)| < 3 ==> New(s).body == ""
  {
    var lines := Split(s, CRLF);
    var body := New(s).body;
    assert body == Join(Skip(lines, 2), CRLF);
    if |lines| >= 3 {
      assert Skip(lines, 2) == lines[2..];
      JoinSplit(s, CRLF);
      JoinCons(lines, CRLF);
      JoinCons(lines[1..], CRLF);
      assert lines[1..][1..] == lines[2..];
      assert s == lines[0] + CRLF + (lines[1] + CRLF + body);
      Assoc(lines[0] + CRLF, lines[1] + CRLF, body);
      Assoc(lines[0] + CRLF, lines[1], CRLF);
    }
  }


  // ---------------------------------------------------------------------
  // Properties of the router

  /** Exactly "/" is answered with the fixed 200 "test" response. */
  lemma RouteRoot(req: HttpRequest)
    requires req.target == "/"
    ensures IsPlainText(Response(req), Ok, "test")
  {
  }

  /** Any other target starting with "/echo" goes to the echo handler. */
  lemma RouteEcho(req: HttpRequest)
    requires req.target != "/" && StartsWith(req.target, "/echo")
    ensures IsPlainText(Response(req), Ok,
      if multiset(req.target)['/'] == 2 then AfterLast(req.target, '/') else "test")
  {
  }

  /** Otherwise a target starting with "/user-agent" is answered with the
      parsed `User-Agent` value. */
  lemma RouteUserAgent(req: HttpRequest)
    requires req.target != "/" && !StartsWith(req.target, "/echo")
    requires StartsWith(req.target, "/user-agent")
    ensures IsPlainText(Response(req), Ok, req.headers.userAgent)
  {
  }

  /** Every other target is answered with the fixed 404 "test" response. */
  lemma RouteNotFound(req: HttpRequest)
    requires !Routed(req.target)
    ensures IsPlainText(Response(req), NotFound, "test")
  {
  }

  /** The answer is a 404 exactly when no route matches the target. */
  lemma NotFoundExactlyWhenUnrouted(req: HttpRequest)
    ensures ReadMessage(Response(req)).Some?
    ensures ReadMessage(Response(req)).value.statusLine == StatusLine(NotFound) <==> !Routed(req.target)
  {
    assert StatusLine(Ok)[9] != StatusLine(NotFound)[9];
    var t := req.target;
    if t == "/" {
      RouteRoot(req);
    } else if StartsWith(t, "/echo") {
      RouteEcho(req);
    } else if StartsWith(t, "/user-agent") {
      RouteUserAgent(req);
    } else {
      RouteNotFound(req);
    }
  }

  /** The prefix test is not segment-aware: "/echo" followed by any text
      without a slash, a slash and a word echoes that word, so
      "/echoXYZ/abc" answers "abc" as "/echo/abc" does. */
  lemma EchoAnyPrefix(req: HttpRequest, x: string, w: string)
    requires '/' !in x && '/' !in w
    requires req.target == "/echo" + x + "/" + w
    ensures IsPlainText(Response(req), Ok, w)
  {
    var t := req.target;
    assert StartsWith(t, "/echo");
    assert t == "/echo" + x + ['/'] + w;
    assert multiset(t)['/'] == 2 by {
      assert multiset(t) == multiset("/") + multiset("echo") + multiset(x) + multiset("/") + multiset(w);
      assert multiset(x)['/'] == 0 && multiset(w)['/'] == 0;
    }
    AfterLastOfSuffix("/echo" + x, '/', w);
    RouteEcho(req);
  }

  /** A deeper echo path falls back to the fixed "test" body. */
  lemma EchoDeepPath(req: HttpRequest, a: string, b: string)
    requires req.target == "/echo/" + a + "/" + b
    ensures IsPlainText(Response(req), Ok, "test")
  {
    var t := req.target;
    assert StartsWith(t, "/echo");
    assert multiset(t)['/'] >= 3 by {
      assert multiset(t) == multiset("/echo/") + multiset(a) + multiset("/") + multiset(b);
      assert multiset("/echo/")['/'] == 2;
    }
    RouteEcho(req);
  }

  /** Further header lines: non-empty and CRLF-free. */
  predicate HeaderLines(hs: seq<string>) {
    forall i :: 0 <= i < |hs| ==> hs[i] != "" && !Contains(hs[i], CRLF)
  }

  /** One more header line in front keeps the lines well formed. */
  lemma HeaderLinesCons(h: string, hs: seq<string>)
    requires h != "" && !Contains(h, CRLF) && HeaderLines(hs)
    ensures HeaderLines([h] + hs)
  {
    assert forall i :: 1 <= i < |hs| + 1 ==> ([h] + hs)[i] == hs[i - 1];
  }

  /** A request line, a block of header lines and an empty line: the
      headers are looked up in exactly those lines. */
  lemma FirstHeaderLines(rl: string, hs: seq<string>, tail: string)
    requires !Contains(rl, CRLF) && |hs| > 0 && HeaderLines(hs)
    ensures New(rl + CRLF + Join(hs, CRLF) + CRLF + CRLF + tail).headers == HeadersOf(hs)
  {
    var head := rl + CRLF + Join(hs, CRLF);
    CRLFBorderless();
    SplitPrefix(rl, Join(hs, CRLF), CRLF);
    SplitJoin(hs, CRLF);
    assert Split(head, CRLF) == [rl] + hs;
    assert Split(head, CRLF)[1..] == hs;
    HeadersIgnoreTail(head, tail);
  }

  /** When the first header line is `User-Agent`, its value is that line's
      text with every leading repetition of the prefix trimmed off,
      whatever header lines follow it. */
  lemma FirstUserAgentHeader(rl: string, v: string, hs: seq<string>, tail: string)
    requires !Contains(rl, CRLF) && !Contains(v, CRLF) && HeaderLines(hs)
    ensures New(rl + CRLF + Join([UserAgentPrefix + v] + hs, CRLF) + CRLF + CRLF + tail).headers.userAgent
      == TrimStartMatches(v, UserAgentPrefix)
  {
    var ua := UserAgentPrefix + v;
    var lines := [ua] + hs;
    UserAgentPrefixOneLine();
    NoCRLFAppend(UserAgentPrefix, v);
    HeaderLinesCons(ua, hs);
    assert New(rl + CRLF + Join(lines, CRLF) + CRLF + CRLF + tail).headers == HeadersOf(lines) by {
      FirstHeaderLines(rl, lines, tail);
    }
    assert HeadersOf(lines).userAgent == TrimStartMatches(v, UserAgentPrefix) by {
      FirstUserAgentLine(v, hs);
    }
  }

  lemma UserAgentPrefixOneLine()
    ensures !Contains(UserAgentPrefix, CRLF) && UserAgentPrefix[|UserAgentPrefix| - 1] != '\r'
  {
    NoCarriageReturn(UserAgentPrefix);
  }

  lemma FirstUserAgentLine(v: string, hs: seq<string>)
    ensures HeaderValue([UserAgentPrefix + v] + hs, UserAgentPrefix) == TrimStartMatches(v, UserAgentPrefix)
  {
    var ua := UserAgentPrefix + v;
    assert StartsWith(ua, UserAgentPrefix) && ua[|UserAgentPrefix|..] == v;
    assert ([ua] + hs)[0] == ua;
    assert FindPrefixed([ua] + hs, UserAgentPrefix) == Some(0);
  }

  lemma UserAgentLineOneLine()
    ensures !Contains("GET /user-agent HTTP/1.1", CRLF)
  {
    NoCarriageReturn("GET /user-agent HTTP/1.1");
  }

  lemma UserAgentRequestLine(rest: string)
    requires rest == "" || StartsWith(rest, CRLF)
    ensures New("GET /user-agent HTTP/1.1" + rest).target == "/user-agent"
  {
    UserAgentTokens();
    UserAgentLineOneLine();
    RequestLineOfNew("GET /user-agent HTTP/1.1", rest);
  }

  lemma UserAgentTokens()
    ensures SplitWhitespace("GET /user-agent HTTP/1.1") == ["GET", "/user-agent", "HTTP/1.1"]
  {
    assert IsToken("GET") && IsToken("/user-agent") && IsToken("HTTP/1.1");
    assert "GET /user-agent HTTP/1.1" == "GET" + " " + "/user-agent" + " " + "HTTP/1.1";
    SplitWhitespaceThree("GET", "/user-agent", "HTTP/1.1");
  }

  lemma UserAgentTarget(t: string)
    requires t == "/user-agent"
    ensures t != "/" && !StartsWith(t, "/echo") && StartsWith(t, "/user-agent")
  {
    assert t[1] != "/echo"[1];
  }

  /** The request line of a `GET /user-agent` request with a header block
      after it. */
  lemma UserAgentParsedTarget(block: string, tail: string)
    ensures New("GET /user-agent HTTP/1.1" + CRLF + block + CRLF + CRLF + tail).target
      == "/user-agent"
  {
    var rl := "GET /user-agent HTTP/1.1";
    var rest := CRLF + block + CRLF + CRLF + tail;
    Assoc(rl, CRLF, block);
    Assoc(rl, CRLF + block, CRLF);
    Assoc(rl, CRLF + block + CRLF, CRLF);
    Assoc(rl, CRLF + block + CRLF + CRLF, tail);
    assert rest[..2] == CRLF;
    UserAgentRequestLine(rest);
  }

  /** The `User-Agent` value of a `GET /user-agent` request whose first
      header is `User-Agent`, followed by any further header lines. */
  lemma UserAgentParsedHeader(v: string, hs: seq<string>, tail: string)
    requires !Contains(v, CRLF) && HeaderLines(hs)
    ensures New("GET /user-agent HTTP/1.1" + CRLF + Join([UserAgentPrefix + v] + hs, CRLF) + CRLF + CRLF + tail)
      .headers.userAgent == TrimStartMatches(v, UserAgentPrefix)
  {
    UserAgentLineOneLine();
    FirstUserAgentHeader("GET /user-agent HTTP/1.1", v, hs, tail);
  }

  /** End to end: a `GET /user-agent` request whose first header is
      `User-Agent`, followed by any further header lines `hs`, is answered
      with that header's value (all leading repetitions of the prefix
      trimmed off), whatever follows the empty line. */
  lemma UserAgentEndToEnd(v: string, hs: seq<string>, tail: string)
    requires !Contains(v, CRLF) && HeaderLines(hs)
    ensures IsPlainText(
      Response(New("GET /user-agent HTTP/1.1" + CRLF + Join([UserAgentPrefix + v] + hs, CRLF) + CRLF + CRLF + tail)),
      Ok, TrimStartMatches(v, UserAgentPrefix))
  {
    var req := New("GET /user-agent HTTP/1.1" + CRLF + Join([UserAgentPrefix + v] + hs, CRLF) + CRLF + CRLF + tail);
    UserAgentParsedTarget(Join([UserAgentPrefix + v] + hs, CRLF), tail);
    UserAgentParsedHeader(v, hs, tail);
    UserAgentTarget(req.target);
    RouteUserAgent(req);
  }
}
