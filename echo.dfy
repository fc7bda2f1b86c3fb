/** The free function `handle_echo` of src/targets/echo.rs: the same
    echo answer as `HttpRequest::handle_echo`, computed from a bare target
    path. */
module Echo {
  import opened Str
  import opened Wire
  import Request

  /** `targets::echo::handle_echo`: a path that splits at '/' into exactly
      three pieces is echoed by its third piece; any other path gets the
      fixed "test" answer. The status is always 200. */
  function HandleEcho(targetPath: string): (r: string)
    ensures multiset(targetPath)['/'] == 2 ==> IsPlainText(r, Ok, AfterLast(targetPath, '/'))
    ensures multiset(targetPath)['/'] != 2 ==> IsPlainText(r, Ok, "test")
    ensures Framed(r)
  {
    var parts := Split(targetPath, "/");
    Request.EchoPieces(targetPath);
    if |parts| == 3 then
      PlainText(Ok, parts[2])
    else
      Request.FixedTestBody(Ok);
      "HTTP/1.1 200 OK" + "\r\n" + "Content-Type: text/plain" + "\r\n"
      + "Content-Length: 4" + "\r\n\r\n" + "test"
  }

  /** The free function and the request method answer every target alike. */
  lemma SameAsRequestHandler(req: Request.HttpRequest)
    ensures HandleEcho(req.target) == Request.HandleEcho(req)
  {
  }

  /** The echoed body never contains a '/', and the status is always 200. */
  lemma EchoBodyHasNoSlash(targetPath: string)
    ensures ReadMessage(HandleEcho(targetPath)).Some?
    ensures ReadMessage(HandleEcho(targetPath)).value.statusLine == StatusLine(Ok)
    ensures '/' !in ReadMessage(HandleEcho(targetPath)).value.body
  {
  }

  /** "/x/w" with slash-free `x` and `w` is answered with exactly the
      formatted response for `w`. */
  lemma EchoWord(x: string, w: string)
    requires '/' !in x && '/' !in w
    ensures HandleEcho("/" + x + "/" + w) == PlainText(Ok, w)
  {
    var t := "/" + x + "/" + w;
    assert t == "/" + x + ['/'] + w;
    assert multiset(t)['/'] == 2 by {
      assert multiset(t) == multiset("/") + multiset(x) + multiset("/") + multiset(w);
      assert multiset(x)['/'] == 0 && multiset(w)['/'] == 0;
    }
    AfterLastOfSuffix("/" + x, '/', w);
    Request.EchoPieces(t);
  }
}
