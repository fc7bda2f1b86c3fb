/** The HTTP/1.1 responses the server writes, and a client's reading of
    them. Every handler answers with one `format!` of the same shape
    (src/http/request.rs:63-83, src/targets/echo.rs:6-8): a status line,
    `Content-Type: text/plain`, `Content-Length: N`, an empty line and the
    body. `ReadMessage` is the other side of the wire: it is how a client
    cuts such a text into status line, headers and body, and the lemmas
    here show that a client reads back exactly what was put in, with a
    `Content-Length` equal to the byte length of the body. */
module Wire {
  import opened Str

  datatype Status = Ok | NotFound

  function StatusLine(st: Status): string {
    match st
    case Ok => "HTTP/1.1 200 OK"
    case NotFound => "HTTP/1.1 404 Not Found"
  }

  const ContentTypePlain: string := "Content-Type: text/plain"
  const ContentLengthPrefix: string := "Content-Length: "

  function ContentLengthLine(n: nat): string {
    ContentLengthPrefix + Decimal(n)
  }

  /** A response as a client sees it. */
  datatype Message = Message(statusLine: string, headers: seq<string>, body: string)

  /** Cuts a response at its lines: the lines before the first empty one
      are the status line and the headers, and everything after the CRLF
      that ends that empty line is the body. A text with no status line, or
      whose head does not end in an empty line closed by CRLF, is not a
      response. */
  function ReadMessage(r: string): Option<Message> {
    var lines := Split(r, CRLF);
    var head := TakeNonEmpty(lines);
    if |head| == 0 || |head| + 1 >= |lines| then None
    else Some(Message(head[0], head[1..], Join(lines[|head| + 1..], CRLF)))
  }

  /** The value of the first `Content-Length` header, if it is a number. */
  function DeclaredLength(m: Message): Option<nat> {
    match FindPrefixed(m.headers, ContentLengthPrefix)
    case None => None
    case Some(i) => ParseDecimal(m.headers[i][|ContentLengthPrefix|..])
  }

  /** A client reads a response whose declared length is the byte length
      of the body it finds after the empty line. */
  predicate Framed(r: string) {
    match ReadMessage(r)
    case None => false
    case Some(m) => DeclaredLength(m) == Some(Utf8Length(m.body))
  }

  /** A client reads `r` as a plain-text response with status `st` and
      body `body`. */
  predicate IsPlainText(r: string, st: Status, body: string) {
    ReadMessage(r)
      == Some(Message(StatusLine(st), [ContentTypePlain, ContentLengthLine(Utf8Length(body))], body))
  }

  lemma StatusLineOneLine(st: Status)
    ensures !Contains(StatusLine(st), CRLF)
  {
    NoCarriageReturn(StatusLine(st));
  }

  lemma ContentTypeOneLine()
    ensures !Contains(ContentTypePlain, CRLF)
  {
    NoCarriageReturn(ContentTypePlain);
  }

  lemma ContentLengthOneLine(n: nat)
    ensures !Contains(ContentLengthLine(n), CRLF)
  {
    var cl := ContentLengthLine(n);
    var d := Decimal(n);
    assert forall i :: 0 <= i < |d| ==> cl[16 + i] == d[i];
    assert forall i :: 0 <= i < |cl| ==> cl[i] != '\r';
    NoCarriageReturn(cl);
  }

  lemma SplitLine(p: string, t: string)
    requires !Contains(p, CRLF)
    ensures Split(p + CRLF + t, CRLF) == [p] + Split(t, CRLF)
  {
    CRLFBorderless();
    SplitPrefix(p, t, CRLF);
  }

  lemma SplitBlankThenBody(c: string, body: string)
    requires !Contains(c, CRLF)
    ensures Split(c + CRLF + ("" + CRLF + body), CRLF) == [c, ""] + Split(body, CRLF)
  {
    assert !Contains("", CRLF);
    SplitLine("", body);
    SplitLine(c, "" + CRLF + body);
  }

  lemma SplitTwoLinesThenBody(b: string, c: string, body: string)
    requires !Contains(b, CRLF) && !Contains(c, CRLF)
    ensures Split(b + CRLF + (c + CRLF + ("" + CRLF + body)), CRLF)
      == [b, c, ""] + Split(body, CRLF)
  {
    SplitBlankThenBody(c, body);
    SplitLine(b, c + CRLF + ("" + CRLF + body));
  }

  /** The head and body of a response, one line at a time. */
  lemma HeadNest(a: string, b: string, c: string, body: string)
    ensures a + CRLF + b + CRLF + c + CRLF + CRLF + body
      == a + CRLF + (b + CRLF + (c + CRLF + ("" + CRLF + body)))
  {
    var p := a + CRLF + b + CRLF;
    Nest5(p, c, CRLF, CRLF, body);
    Nest5(a, CRLF, b, CRLF, c + (CRLF + (CRLF + body)));
    assert "" + CRLF + body == CRLF + body;
    Assoc(c, CRLF, CRLF + body);
    Assoc(b, CRLF, c + CRLF + (CRLF + body));
    Assoc(a, CRLF, b + CRLF + (c + CRLF + (CRLF + body)));
  }

  /** Lines of a three-line head, an empty line and a body. */
  lemma SplitHead(a: string, b: string, c: string, body: string)
    requires !Contains(a, CRLF) && !Contains(b, CRLF) && !Contains(c, CRLF)
    ensures Split(a + CRLF + b + CRLF + c + CRLF + CRLF + body, CRLF)
      == [a, b, c, ""] + Split(body, CRLF)
  {
    var x1 := b + CRLF + (c + CRLF + ("" + CRLF + body));
    HeadNest(a, b, c, body);
    SplitTwoLinesThenBody(b, c, body);
    SplitLine(a, x1);
  }

  /** A client reads a three-line head and the body after it. */
  lemma ReadHead(a: string, b: string, c: string, body: string)
    requires !Contains(a, CRLF) && !Contains(b, CRLF) && !Contains(c, CRLF)
    requires a != "" && b != "" && c != ""
    ensures ReadMessage(a + CRLF + b + CRLF + c + CRLF + CRLF + body)
      == Some(Message(a, [b, c], body))
  {
    var r := a + CRLF + b + CRLF + c + CRLF + CRLF + body;
    var lines := Split(r, CRLF);
    assert lines == [a, b, c] + [""] + Split(body, CRLF) by {
      SplitHead(a, b, c, body);
      assert [a, b, c, ""] + Split(body, CRLF) == [a, b, c] + [""] + Split(body, CRLF);
    }
    assert TakeNonEmpty(lines) == [a, b, c] by {
      TakeNonEmptyUpTo([a, b, c], Split(body, CRLF));
    }
    assert Join(lines[4..], CRLF) == body by {
      assert lines[4..] == Split(body, CRLF);
      JoinSplit(body, CRLF);
    }
  }

  /** The response text every handler formats, with `Content-Length` the
      UTF-8 byte length of the body written in decimal. A client reading it
      gets back its status, its two headers and its body, and finds it
      framed by its own `Content-Length`. */
  function PlainText(st: Status, body: string): (r: string)
    ensures IsPlainText(r, st, body) && Framed(r)
  {
    var n := Utf8Length(body);
    StatusLineOneLine(st);
    ContentTypeOneLine();
    ContentLengthOneLine(n);
    ReadHead(StatusLine(st), ContentTypePlain, ContentLengthLine(n), body);
    PlainTextFramed(StatusLine(st) + CRLF + ContentTypePlain + CRLF
      + ContentLengthLine(n) + CRLF + CRLF + body, st, body);
    StatusLine(st) + CRLF + ContentTypePlain + CRLF
    + ContentLengthLine(n) + CRLF + CRLF + body
  }

  /** The declared length of a formatted response is the number it was
      formatted with. */
  lemma DeclaredLengthOfPlainText(n: nat)
    ensures DeclaredLength(Message("", [ContentTypePlain, ContentLengthLine(n)], "")) == Some(n)
  {
    var hs := [ContentTypePlain, ContentLengthLine(n)];
    assert ContentTypePlain[8] != ContentLengthPrefix[8];
    assert !StartsWith(hs[0], ContentLengthPrefix);
    assert StartsWith(hs[1], ContentLengthPrefix);
    assert hs[1][|ContentLengthPrefix|..] == Decimal(n);
    ParseDecimalOfDecimal(n);
  }

  /** A plain-text response that a client reads is correctly framed. */
  lemma PlainTextFramed(r: string, st: Status, body: string)
    requires IsPlainText(r, st, body)
    ensures Framed(r)
  {
    var n := Utf8Length(body);
    DeclaredLengthOfPlainText(n);
    var m := Message(StatusLine(st), [ContentTypePlain, ContentLengthLine(n)], body);
    assert DeclaredLength(m) == DeclaredLength(Message("", [ContentTypePlain, ContentLengthLine(n)], ""));
  }

  /** Two readings of one text agree: status and body are determined by
      the response. */
  lemma IsPlainTextUnique(r: string, st1: Status, b1: string, st2: Status, b2: string)
    requires IsPlainText(r, st1, b1) && IsPlainText(r, st2, b2)
    ensures st1 == st2 && b1 == b2
  {
    assert StatusLine(Ok)[9] != StatusLine(NotFound)[9];
  }

  lemma JoinCons(ps: seq<string>, sep: string)
    requires |ps| >= 2
    ensures Join(ps, sep) == ps[0] + sep + Join(ps[1..], sep)
  {
  }

  /** A text that a client reads as a plain-text response is exactly the
      formatted response: the reading fixes every byte. */
  lemma IsPlainTextExact(r: string, st: Status, body: string)
    requires IsPlainText(r, st, body)
    ensures r == PlainText(st, body)
  {
    var lines := Split(r, CRLF);
    var head := TakeNonEmpty(lines);
    assert |head| == 3 && |lines| >= 5;
    assert lines[0] == StatusLine(st) && lines[1] == ContentTypePlain;
    assert lines[2] == ContentLengthLine(Utf8Length(body)) && lines[3] == "";
    assert Join(lines[4..], CRLF) == body;
    JoinSplit(r, CRLF);
    JoinCons(lines, CRLF);
    JoinCons(lines[1..], CRLF);
    JoinCons(lines[2..], CRLF);
    JoinCons(lines[3..], CRLF);
    assert lines[1..][1..] == lines[2..];
    assert lines[2..][1..] == lines[3..];
    assert lines[3..][1..] == lines[4..];
    assert r == lines[0] + CRLF + (lines[1] + CRLF + (lines[2] + CRLF + ("" + CRLF + body)));
    HeadNest(lines[0], lines[1], lines[2], body);
  }
}
