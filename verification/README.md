# Line-protocol parser and single-threaded HTTP responder, in Dafny

This project models the two pieces of real logic in a set of Java socket exercises:

- **`MethodParser.parse`** of the line protocol. It splits a request line with Java's
  `String.split(" ")` and returns the first token as the method and the second token as the
  value. A line with one token gets the value `""`. When the split yields no token the result
  is `null`.
- **`SimpleHttpServer`**, the HTTP/1.0 responder:
  - the port guard of its constructors;
  - the loop that reads request lines up to the blank line;
  - the fixed response it writes, a five-line header and a blank line followed by a fixed HTML body.

Modules:

- `Wrappers` (`wrappers.dfy`): `Option`, which stands for a Java `null` result, and `Result`,
  which stands for a thrown exception.
- `JavaSplit` (`java_split.dfy`): `String.split(" ")` with limit 0 as a function on strings.
  There is a raw split, Java's rule that drops trailing empty pieces, and Java's special case
  that returns the string itself when the separator never occurs. `Join` is the partner of the
  raw split.
- `MethodParser` (`method_parser.dfy`): `Parse`, plus `ParseReference`, a definition of the same
  rule that does not split: the text before the first space, then the text up to the next space.
- `JavaText` (`java_text.dfy`): `String.format("%d")` for integers and the byte count of
  `String.getBytes()`, taken as UTF-8. `DigitsValue` and `ParseDecimal` read the digits back.
- `HttpResponseReader` (`http_response_reader.dfy`): the client's view of a response. `ReadHead`
  reads CRLF-terminated lines up to the empty line, and `SplitAtBlank` cuts the response at its
  first CR LF CR LF. The lemmas about the server's output are stated through these readers.
- `SimpleHttpServer` (`simple_http_server.dfy`):
  - the constructors `NewServer` and `NewDefaultServer`;
  - the request drain `Drain`;
  - `Body`, `Header` and `Response`, the response written in header-then-body order;
  - `HandleConnection`, one client's read loop followed by the write.

Behaviour of the code that a reader might not expect, each fact tied to the lines that cause it:

- `parse` splits on the regular expression `" "` (MethodParser.java:3), so only the space
  character separates tokens. A tab is part of a token, and `"\t"` parses to the method `"\t"`
  with the value `""` (`ParseTabIsAToken`). Only a non-empty line made entirely of spaces yields
  `null`. The empty line parses to `("", "")` (see Findings).
- Leading empty pieces survive `split`, so a line that starts with a space gets the method `""`
  (`ParseMethodIsPrefix`).
- The body literals appended at SimpleHttpServer.java:84-88 carry leading spaces
  (`"    <body>"`, `"        <h1>hello java</h1>"`, `"    </body>"`), so the body is 61
  characters long (`Body`, `ContentLengthIsBodySize`). The comment at SimpleHttpServer.java:74-80
  sketches an indented document that reads `hello hava`; the model follows the appended literals.

## Model

| member | source | states |
|---|---|---|
| JavaSplit.SplitOn | src/networkSocket/socketz-method-time/server/parser/MethodParser.java:3 | the raw pieces of a split hold no separator, there is at least one, and joining them with the separator gives back the input |
| JavaSplit.SplitJoinRoundTrip | src/networkSocket/socketz-method-time/server/parser/MethodParser.java:3 | splitting a join of separator-free pieces gives back exactly those pieces, so split and join are inverse |
| JavaSplit.DropTrailingEmpty | src/networkSocket/socketz-method-time/server/parser/MethodParser.java:3 | limit 0 keeps a prefix of the pieces whose last element is non-empty, and every piece it removes is empty |
| JavaSplit.JavaSplitSpace | src/networkSocket/socketz-method-time/server/parser/MethodParser.java:3 | no token holds a space; the token array is empty exactly when the line is non-empty and made only of spaces; the last token is non-empty unless the line is empty |
| JavaSplit.JavaSplitSpaceRejoins | src/networkSocket/socketz-method-time/server/parser/MethodParser.java:3 | joining the tokens with single spaces gives the line with some trailing spaces removed, so leading and inner empty tokens are kept |
| JavaSplit.JavaSplitSpaceGeneralRule | src/networkSocket/socketz-method-time/server/parser/MethodParser.java:3 | for every non-empty line, Java's no-match special case gives the same tokens as the general cut-then-trim rule, so `""` is the only line where the special case shows |
| MethodParser.Parse | src/networkSocket/socketz-method-time/server/parser/MethodParser.java:2-11 | the result is null exactly when the line is non-empty and made only of spaces; a non-null result's method and value hold no space |
| MethodParser.ParseMatchesReference | src/networkSocket/socketz-method-time/server/parser/MethodParser.java:2-11 | on every line, parse equals the split-free reading: the method is the text before the first space and the value is the text between the first and second spaces |
| MethodParser.ParseMethodIsPrefix | src/networkSocket/socketz-method-time/server/parser/MethodParser.java:3-8 | a non-null result's method is a prefix of the line, and a leading space makes the method empty |
| MethodParser.ParseSingleToken | src/networkSocket/socketz-method-time/server/parser/MethodParser.java:5-6 | a line with no space parses to itself as method with value `""`, including the empty line |
| MethodParser.ParseMethodAndValue | src/networkSocket/socketz-method-time/server/parser/MethodParser.java:8 | `m + " " + v` parses to `(m, v)` for space-free `m` and `v` over any alphabet, unless both are empty |
| MethodParser.ParseNonAsciiValue | src/networkSocket/socketz-method-echo/test/MethodParserTest.java:21 | the Korean value of the parser test comes back unchanged as the value of `echo` |
| MethodParser.ParseDropsExtraTokens | src/networkSocket/socketz-method-time/server/parser/MethodParser.java:8 | tokens after the second are discarded: `m + " " + v + " " + rest` parses to `(m, v)` |
| MethodParser.ParseIgnoresTrailingSpace | src/networkSocket/socketz-method-time/server/parser/MethodParser.java:3 | on a non-empty line, one appended space does not change the result |
| MethodParser.ParseTabIsAToken | src/networkSocket/socketz-method-time/server/parser/MethodParser.java:3 | only the space character separates tokens, so a lone tab parses as a method with value `""` |
| MethodParser.ParseEmptyLineIsNotNull | src/networkSocket/socketz-method-time/server/parser/MethodParser.java:3-6 | as written, the empty line parses to `("", "")`, not null, and so differs from the corrected parser |
| MethodParser.ParseIntended | src/networkSocket/socketz-method-echo/test/MethodParserTest.java:42-52 | the corrected parser returns null exactly for lines made only of spaces, the empty line included, and agrees with `parse` on every other line |
| MethodParser.ParseIntendedMeetsTests | src/networkSocket/socketz-method-echo/test/MethodParserTest.java:44-45 | the corrected parser returns null for both lines of the empty-message test |
| JavaText.NatToDecimal | src/http/step1-singleThread-http-server/SimpleHttpServer.java:100 | `%d` of a length is a non-empty run of decimal digits with no leading zero |
| JavaText.DecimalRoundTrip | src/http/step1-singleThread-http-server/SimpleHttpServer.java:100 | reading the digits written by `%d` back gives the number |
| JavaText.DecimalParsesBack | src/http/step1-singleThread-http-server/SimpleHttpServer.java:100 | the strict decimal reader accepts what `%d` writes and returns the number |
| JavaText.FormatInt | src/http/step1-singleThread-http-server/SimpleHttpServer.java:31 | `%d` of an int is a non-empty run of decimal digits, preceded by a minus sign exactly when the int is negative; the digits read back as its absolute value and have no leading zero, so zero is the single digit `0` |
| JavaText.Utf8Length | src/http/step1-singleThread-http-server/SimpleHttpServer.java:100 | the byte count of `getBytes()` in UTF-8 lies between one and four bytes per character |
| JavaText.AsciiUtf8Length | src/http/step1-singleThread-http-server/SimpleHttpServer.java:100 | on ASCII text the byte count equals the character count |
| SimpleHttpServer.NewServer | src/http/step1-singleThread-http-server/SimpleHttpServer.java:28-34 | the port guard passes exactly for a positive port, and the port is stored unchanged; otherwise it fails with `IllegalArgumentException("port range check: " + port)` |
| SimpleHttpServer.NewDefaultServer | src/http/step1-singleThread-http-server/SimpleHttpServer.java:23-26 | the no-argument constructor succeeds with port 8080 |
| SimpleHttpServer.Drain | src/http/step1-singleThread-http-server/SimpleHttpServer.java:59-69 | the loop reads up to and including the first line that is null or empty; every earlier line is a non-empty header line; with no such line it reads all lines |
| SimpleHttpServer.DrainNeverReadsPast | src/http/step1-singleThread-http-server/SimpleHttpServer.java:59-69 | lines after the one that ends the request do not change how many lines are read, so they are never read |
| SimpleHttpServer.HandleConnection | src/http/step1-singleThread-http-server/SimpleHttpServer.java:56-105 | one client's loop reads exactly the drained lines, then writes header then body; the output is the same fixed response whatever the request held |
| SimpleHttpServer.Body | src/http/step1-singleThread-http-server/SimpleHttpServer.java:82-88 | the appended body is 61 characters long, because of the leading spaces of three of its literals |
| SimpleHttpServer.HeaderLinesArePlain | src/http/step1-singleThread-http-server/SimpleHttpServer.java:93-100 | every header line, the formatted length included, is non-empty and free of CR and LF |
| SimpleHttpServer.HeaderIsItsLines | src/http/step1-singleThread-http-server/SimpleHttpServer.java:91-100 | the appended header is its five lines in order, each ended by CRLF, followed by one more CRLF |
| SimpleHttpServer.ContentLengthIsBodySize | src/http/step1-singleThread-http-server/SimpleHttpServer.java:100 | the body is ASCII, so its byte length, the number sent as `Content-Length`, is its character count, 61 |
| SimpleHttpServer.ResponseContentLengthLine | src/http/step1-singleThread-http-server/SimpleHttpServer.java:100 | the length line actually sent is `Content-Length:61 `, with no space after the colon and one before the CRLF |
| SimpleHttpServer.ContentLengthReadsBack | src/http/step1-singleThread-http-server/SimpleHttpServer.java:100 | the header has five lines, and a strict reader of the fifth, the `Content-Length` line, gets back the length that was formatted |
| SimpleHttpServer.HeaderReadsBack | src/http/step1-singleThread-http-server/SimpleHttpServer.java:93-100 | a client reading CRLF lines up to the empty line gets the status, server, content-type, connection and length lines in that order, then exactly the bytes that follow |
| SimpleHttpServer.HeaderHasOneBlankLine | src/http/step1-singleThread-http-server/SimpleHttpServer.java:93-100 | CR LF CR LF occurs in the header exactly once, as its last four characters |
| SimpleHttpServer.ResponseSplitsIntoHeaderAndBody | src/http/step1-singleThread-http-server/SimpleHttpServer.java:103-105 | cutting the written response after its first CR LF CR LF gives back the header and exactly the body |

## Left out

- Sockets are not modelled: `ServerSocket`, `accept`, the reader and writer, `flush`, the
  closing by try-with-resources, and the `IOException` handler that logs and moves on to the
  next client (SimpleHttpServer.java:44-54, 108, 113-116). They are operating system I/O. The write order is modelled as the concatenation header then body.
- `new ServerSocket(port)` and its wrapping of `IOException` into `RuntimeException`
  (SimpleHttpServer.java:37-41) are library code. Its own rejection of ports above 65535 is not
  modelled either.
- The infinite accept loop `start()` is not modelled. Only one client's pass through its body is
  modelled, as `HandleConnection`.
- `BufferedReader.readLine` is a library call. The request arrives already cut into lines: a
  finite sequence of `Option<string>`, where `None` stands for end of stream. When the sequence
  runs out with no line that ends the request, everything has been read.
- Logging and the `requestBuilder` accumulation (SimpleHttpServer.java:56, 62) are left out.
  They only feed the log and have no effect on the output.
- Charsets are not modelled. Java strings are UTF-16, while Dafny strings here are Unicode
  scalar values. Splitting on a space is the same in both. `getBytes()` is taken as UTF-8, and
  byte counts are claimed only for the ASCII body.
- `String.format` is taken to write ASCII digits with no grouping, as it does for `%d` under
  the default locales.
- `parse(null)` is not modelled: a `null` line, which `readLine()` returns at end of stream,
  makes `message.split(" ")` at MethodParser.java:3 throw `NullPointerException`. `Parse` takes a
  Dafny string, which cannot be null.
- JavaText.Utf8Length: states only bounds and the ASCII case, because the JVM's default charset
  is platform configuration.
- `MessageServer` and `MessageClientTest` are left out. They are a blocking echo loop driven by
  thread interruption, plus a client test built on threads, redirected standard streams and
  sleeps. Their only logic is a port guard and echoing a line unchanged.
- The method registry (`ResponseFactory`, `EchoResponse`, `ResponseNotFoundException`) lies
  outside the parser and the HTTP responder and is not modelled.

## Findings

| source | as written | input that shows it | evidently intended | confidence | as-written member | corrected member |
|---|---|---|---|---|---|---|
| src/networkSocket/socketz-method-time/server/parser/MethodParser.java:3-6 | `"".split(" ")` is `{ "" }` (Java returns the string itself when the separator never occurs), so `parse("")` returns `("", "")` | `""` | `null` for the empty line, as the parser test of the echo module asserts (MethodParserTest.java:44, 52) | medium; not executed; the null expectation comes from the echo module's test, not from a test of this parser | MethodParser.ParseEmptyLineIsNotNull | MethodParser.ParseIntended |
