/**
  `SimpleHttpServer`, the single-threaded HTTP/1.0 responder: the port guard of its constructor,
  the loop that drains one request up to its blank line, and the fixed response it writes back,
  a header of five CRLF-terminated lines and a blank line followed by a fixed HTML body.
*/
module SimpleHttpServer {
  import opened Wrappers
  import opened JavaText
  import opened HttpResponseReader

  /** Java's `int`. */
  newtype int32 = x: int | -0x8000_0000 <= x < 0x8000_0000

  const DefaultPort: int32 := 8080

  /** The configured server; the listening socket it opens is outside the model. */
  datatype Server = Server(port: int32)

  /** `IllegalArgumentException` with its message. */
  datatype ServerError = IllegalArgument(message: string)

  /** The constructor `SimpleHttpServer(int port)`: only a positive port is accepted, unchanged. */
  function NewServer(port: int32): (r: Result<Server, ServerError>)
    ensures r.Success? <==> port > 0
    ensures r.Success? ==> r.value.port == port
    ensures r.Failure? ==> r.error.message == "port range check: " + FormatInt(port as int)
  {
    if port <= 0 then Failure(IllegalArgument("port range check: " + FormatInt(port as int)))
    else Success(Server(port))
  }

  /** The constructor `SimpleHttpServer()`: the default port 8080. */
  function NewDefaultServer(): (r: Result<Server, ServerError>)
    ensures r == Success(Server(8080))
  {
    NewServer(DefaultPort)
  }

  /** A `readLine()` result that ends the request: end of stream (`null`) or the empty line. */
  predicate EndsRequest(line: Option<string>) {
    line.None? || line.value == ""
  }

  /**
    How many lines the request loop reads from `input`: up to and including the first line that
    ends the request, or all of them when none does.
  */
  function Drain(input: seq<Option<string>>): (consumed: nat)
    ensures consumed <= |input|
    ensures forall i :: 0 <= i < consumed - 1 ==> !EndsRequest(input[i])
    ensures (0 < consumed && EndsRequest(input[consumed - 1]))
         || (consumed == |input| && forall i :: 0 <= i < |input| ==> !EndsRequest(input[i]))
  {
    if |input| == 0 then 0
    else if EndsRequest(input[0]) then 1
    else
      var n := Drain(input[1..]);
      assert forall i :: 1 <= i < |input| ==> input[i] == input[1..][i - 1];
      1 + n
  }

  /** Whatever follows the line that ends the request is never read. */
  lemma {:induction false} DrainNeverReadsPast(input: seq<Option<string>>, later: seq<Option<string>>)
    requires exists i :: 0 <= i < |input| && EndsRequest(input[i])
    ensures Drain(input + later) == Drain(input)
  {
    if !EndsRequest(input[0]) {
      var i :| 0 <= i < |input| && EndsRequest(input[i]);
      assert input[1..][i - 1] == input[i];
      assert (input + later)[1..] == input[1..] + later;
      DrainNeverReadsPast(input[1..], later);
    }
  }

  /** The response body, piece by piece as `start()` appends it: the tags carry leading spaces. */
  function Body(): (body: string)
    ensures |body| == 61
  {
    HtmlOpen + BodyOpen + Heading + BodyClose + HtmlClose
  }

  /** The five pieces of the body, in the order they are appended. */
  const HtmlOpen: string := "<html>"
  const BodyOpen: string := "    <body>"
  const Heading: string := "        <h1>hello java</h1>"
  const BodyClose: string := "    </body>"
  const HtmlClose: string := "</html>"

  /** The header lines in the order they are appended, each without its CRLF. */
  const StatusLine: string := "HTTP/1.0 200 OK"
  const ServerLine: string := "Server: HTTP server/0.1"
  const ContentTypeLine: string := "Content-type: text/html; charset=" + "UTF-8"
  const ConnectionLine: string := "Connection: Closed"

  /** `Content-Length:%d `: no space after the colon, one space before the CRLF. */
  function ContentLengthLine(contentLength: nat): string {
    "Content-Length:" + NatToDecimal(contentLength) + " "
  }

  /** The response header: each line with its CRLF, and one more CRLF for the blank line. */
  function Header(contentLength: nat): string {
    StatusLine + CRLF
    + ServerLine + CRLF
    + ContentTypeLine + CRLF
    + ConnectionLine + CRLF
    + ContentLengthLine(contentLength) + CRLF + CRLF
  }

  /** The five header lines as a client sees them. */
  function HeaderLines(contentLength: nat): seq<string> {
    [StatusLine, ServerLine, ContentTypeLine, ConnectionLine, ContentLengthLine(contentLength)]
  }

  /** Every header line is non-empty and free of CR and LF, the digits of the length included. */
  lemma HeaderLinesArePlain(contentLength: nat)
    ensures AllPlainLines(HeaderLines(contentLength))
  {
    assert IsPlainLine(StatusLine);
    assert IsPlainLine(ServerLine);
    assert IsPlainLine(ContentTypeLine);
    assert IsPlainLine(ConnectionLine);
    assert IsPlainLine(ContentLengthLine(contentLength)) by {
      var digits := NatToDecimal(contentLength);
      var line := ContentLengthLine(contentLength);
      assert forall i :: 0 <= i < |digits| ==> line[15 + i] == digits[i];
    }
  }

  /** The bytes written to the client: the header, then the body. */
  function Response(): string {
    Header(Utf8Length(Body())) + Body()
  }

  /** The header is exactly its five lines, each CRLF-terminated, followed by the blank line. */
  lemma HeaderIsItsLines(contentLength: nat)
    ensures Header(contentLength) == Lines(HeaderLines(contentLength)) + CRLF
  {
    FiveLines(StatusLine, ServerLine, ContentTypeLine, ConnectionLine, ContentLengthLine(contentLength));
  }

  /** Five lines appended one after another, each with its CRLF, are `Lines` of the five. */
  lemma FiveLines(a: string, b: string, c: string, d: string, e: string)
    ensures a + CRLF + b + CRLF + c + CRLF + d + CRLF + e + CRLF + CRLF == Lines([a, b, c, d, e]) + CRLF
  {
    var ls := [a, b, c, d, e];
    assert Lines(ls[4..]) == e + CRLF by {
      assert ls[4..][1..] == [];
    }
    assert Lines(ls[3..]) == d + CRLF + Lines(ls[4..]) by {
      assert ls[3..][1..] == ls[4..];
    }
    assert Lines(ls[2..]) == c + CRLF + Lines(ls[3..]) by {
      assert ls[2..][1..] == ls[3..];
    }
    assert Lines(ls[1..]) == b + CRLF + Lines(ls[2..]) by {
      assert ls[1..][1..] == ls[2..];
    }
  }

  /** The body is ASCII, so its byte count is its character count, 61. */
  lemma ContentLengthIsBodySize()
    ensures IsAscii(Body())
    ensures Utf8Length(Body()) == |Body()| == 61
  {
    assert IsAscii(HtmlOpen);
    assert IsAscii(BodyOpen);
    assert IsAscii(Heading);
    assert IsAscii(BodyClose);
    assert IsAscii(HtmlClose);
    AsciiConcat(HtmlOpen, BodyOpen);
    AsciiConcat(HtmlOpen + BodyOpen, Heading);
    AsciiConcat(HtmlOpen + BodyOpen + Heading, BodyClose);
    AsciiConcat(HtmlOpen + BodyOpen + Heading + BodyClose, HtmlClose);
    AsciiUtf8Length(Body());
  }

  /** The length line actually sent for this body. */
  lemma ResponseContentLengthLine()
    ensures ContentLengthLine(Utf8Length(Body())) == "Content-Length:61 "
  {
    ContentLengthIsBodySize();
    assert NatToDecimal(61) == NatToDecimal(6) + [DigitChar(1)];
  }

  /** A client reading the header line by line gets the five lines in order, then the body. */
  lemma HeaderReadsBack(contentLength: nat, body: string)
    ensures ReadHead(Header(contentLength) + body) == Some((HeaderLines(contentLength), body))
  {
    HeaderIsItsLines(contentLength);
    HeaderLinesArePlain(contentLength);
    ReadHeadOfLines(HeaderLines(contentLength), body);
  }

  /** The header holds CR LF CR LF exactly once, as its last four characters. */
  lemma HeaderHasOneBlankLine(contentLength: nat)
    ensures var h := Header(contentLength);
      forall i :: BlankAt(h, i) <==> i == |h| - 4
  {
    var h := Header(contentLength);
    HeaderIsItsLines(contentLength);
    HeaderLinesArePlain(contentLength);
    BlankOnlyAtEndOfHead(HeaderLines(contentLength), "");
    assert h + "" == h;
  }

  /** Cutting the response at its first CR LF CR LF gives back the header and exactly the body. */
  lemma ResponseSplitsIntoHeaderAndBody()
    ensures SplitAtBlank(Response()) == Some((Header(61), Body()))
  {
    ContentLengthIsBodySize();
    HeaderIsItsLines(61);
    HeaderLinesArePlain(61);
    SplitAtBlankOfHead(HeaderLines(61), Body());
  }

  /** The `Content-Length` line, read strictly in this server's own format: no space after the colon, one before the CRLF. */
  function ContentLengthValue(line: string): Option<nat> {
    var name := "Content-Length:";
    if |line| > |name| && line[..|name|] == name && line[|line| - 1] == ' '
    then ParseDecimal(line[|name|..|line| - 1])
    else None
  }

  /** The number in the `Content-Length` line reads back as the length that was written. */
  lemma ContentLengthReadsBack(contentLength: nat)
    ensures |HeaderLines(contentLength)| == 5
    ensures ContentLengthValue(HeaderLines(contentLength)[4]) == Some(contentLength)
  {
    var digits := NatToDecimal(contentLength);
    var line := ContentLengthLine(contentLength);
    assert line[..15] == "Content-Length:";
    assert line[15..|line| - 1] == digits;
    DecimalParsesBack(contentLength);
  }

  /**
    One pass of the accept loop's body for one client: read lines until one ends the request,
    then write the header and the body. The response does not depend on what was read.
  */
  method HandleConnection(input: seq<Option<string>>) returns (consumed: nat, output: string)
    ensures consumed == Drain(input)
    ensures output == Response()
  {
    consumed := 0;
    var done := false;
    while !done && consumed < |input|
      invariant consumed <= |input|
      invariant done ==> consumed == Drain(input)
      invariant !done ==> consumed + Drain(input[consumed..]) == Drain(input)
      decreases |input| - consumed
    {
      var line := input[consumed];
      assert input[consumed..][1..] == input[consumed + 1..];
      consumed := consumed + 1;
      done := EndsRequest(line);
    }
    var body := Body();
    var header := Header(Utf8Length(body));
    output := header + body;
  }
}
