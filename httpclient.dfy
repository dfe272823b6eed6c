/**
  The HTTP/1.1 client of httpclient.py: one request per call over one TCP
  socket. A request is built as text from the host, the path and, for POST,
  the form content; it is sent UTF-8 encoded, the reply is read until the
  peer closes the stream, decoded, and split into a status code and a body.

  The network is a parameter: a `Peer` says whether the host can be reached
  and which chunks it sends back. Python exceptions that end a call (and the
  `sys.exit` after a failed connect) are `Failure` values carrying a `ClientError`.
*/
module HttpClient {
  import opened Wrappers
  import opened Utf8
  import opened Strings
  import opened FormEncoding
  import opened Sockets

  const DEFAULT_PORT := 80
  const RECV_SIZE := 1024
  const CRLF := "\r\n"
  const BLANK_LINE := "\r\n\r\n"

  /**
    The `Content-Type` header line of a POST request, written as four short
    literals so that `ContentTypeIsText` can check each one for CR and LF.
  */
  const CONTENT_TYPE_FORM := "Content-Type: " + "application/" + "x-www-form-" + "urlencoded"

  /** The record `GET` and `POST` return. */
  datatype HTTPResponse = HTTPResponse(code: int, body: string)

  /** The parts of `urllib.parse.urlparse(url)` the client reads. */
  datatype ParsedUrl = ParsedUrl(hostname: string, port: Option<int>, path: string)

  /**
    How a call ends without a response: `sys.exit` after a failed connect, the
    UnicodeDecodeError of `recvall`, and the IndexError or ValueError of `get_code`.
  */
  datatype ClientError = Exited | UnicodeDecodeError | IndexError | ValueError

  // ---------------------------------------------------------------------------
  // Request formatting

  /** `connect`: a port of None becomes 80; a given port is kept. */
  function DefaultPort(port: Option<int>): (p: int)
    ensures port.None? ==> p == 80
    ensures port.Some? ==> p == port.value
  {
    if port.None? then DEFAULT_PORT else port.value
  }

  /**
    `GET` and `POST`: an empty path becomes "/", any other is kept, so the
    request path is never empty and defaulting it again changes nothing.
  */
  function DefaultPath(path: string): (p: string)
    ensures p != ""
    ensures path == "" ==> p == "/"
    ensures path != "" ==> p == path
  {
    if path == "" then "/" else path
  }

  /**
    The GET request text of httpclient.py, line 140: the request line and the
    Host, Accept, Accept-Charset and Connection headers, each ended by CRLF,
    then the empty line.
  */
  function GetRequest(host: string, path: string): (r: string)
    ensures r == HeaderBlock(GetLines(host, path))
    ensures |r| >= 5 && r[..4] == "GET "
  {
    HeaderBlock5("GET " + path + " HTTP/1.1", "Host: " + host, "Accept: */*", "Accept-Charset: utf-8",
      "Connection: close");
    ("GET " + path + " HTTP/1.1") + CRLF + ("Host: " + host) + CRLF + "Accept: */*" + CRLF
      + "Accept-Charset: utf-8" + CRLF + "Connection: close" + CRLF + CRLF
  }

  /**
    The POST request text of httpclient.py, line 190: the POST request line,
    the same headers as GET with `Content-Type` and `Content-Length` (the
    length of the content) before `Connection`, the empty line, then the content.
  */
  function PostRequest(host: string, path: string, content: string): (r: string)
    ensures r == HeaderBlock(PostLines(host, path, |content|)) + content
    ensures |r| >= 5 && r[..5] == "POST "
  {
    HeaderBlock7("POST " + path + " HTTP/1.1", "Host: " + host, "Accept: */*", "Accept-Charset: utf-8",
      CONTENT_TYPE_FORM, "Content-Length: " + NatToString(|content|),
      "Connection: close");
    ("POST " + path + " HTTP/1.1") + CRLF + ("Host: " + host) + CRLF + "Accept: */*" + CRLF
      + "Accept-Charset: utf-8" + CRLF + CONTENT_TYPE_FORM + CRLF
      + ("Content-Length: " + NatToString(|content|)) + CRLF + "Connection: close" + CRLF + CRLF + content
  }

  /**
    The POST body: "" without arguments, otherwise the URL-encoded form, which
    is form text and decodes back to the arguments.
  */
  function FormContent(args: Option<Form>): (content: string)
    ensures args.None? ==> content == ""
    ensures args.Some? ==> DecodeForm(content) == args
    ensures IsFormText(content)
  {
    if args.None? then "" else UrlEncode(args.value)
  }

  /** The request `command` sends: POST exactly for "POST", GET for anything else. */
  function RequestFor(command: string, url: ParsedUrl, args: Option<Form>): (r: string)
    ensures |r| >= 5
    ensures command == "POST" <==> r[..5] == "POST "
    ensures command != "POST" <==> r[..4] == "GET "
  {
    if command == "POST" then
      var r := PostRequest(url.hostname, DefaultPath(url.path), FormContent(args));
      assert r[..4][3] == r[..5][3] == 'T';
      r
    else
      var r := GetRequest(url.hostname, DefaultPath(url.path));
      assert r[..5][0] == r[..4][0] == 'G';
      r
  }

  // ---------------------------------------------------------------------------
  // Response parsing

  /**
    `get_code`: the second whitespace-separated token read as an integer.
    Fewer than two tokens is IndexError; a token `int()` refuses is ValueError.
  */
  function GetCode(data: string): (r: Result<int, ClientError>)
    ensures r == Failure(IndexError) <==> |Words(data)| < 2
    ensures r == Failure(ValueError) <==> |Words(data)| >= 2 && ParseInt(Words(data)[1]).None?
    ensures r.Success? ==> |Words(data)| >= 2 && ParseInt(Words(data)[1]) == Some(r.value)
  {
    var words := Words(data);
    if |words| < 2 then Failure(IndexError)
    else match ParseInt(words[1])
      case None => Failure(ValueError)
      case Some(code) => Success(code)
  }

  /**
    `get_body`: piece [1] of the text split on the blank line, that is the text
    between the first blank line and the next one (or the end); "" when there
    is no blank line at all.
  */
  function GetBody(data: string): (body: string)
    ensures !Contains(body, BLANK_LINE)
    ensures !Contains(data, BLANK_LINE) ==> body == ""
  {
    var pieces := Split(data, BLANK_LINE);
    if |pieces| > 1 then pieces[1] else ""
  }

  /**
    The status code, then the body, as `GET` and `POST` read them after closing:
    IndexError exactly when the text has fewer than two tokens, ValueError
    exactly when the second token is not an integer, and otherwise that integer
    with the body `get_body` extracts.
  */
  function ParseResponse(text: string): (r: Result<HTTPResponse, ClientError>)
    ensures r == Failure(IndexError) <==> |Words(text)| < 2
    ensures r == Failure(ValueError) <==> |Words(text)| >= 2 && ParseInt(Words(text)[1]).None?
    ensures r.Success? ==> ParseInt(Words(text)[1]) == Some(r.value.code) && r.value.body == GetBody(text)
  {
    match GetCode(text)
    case Failure(e) => Failure(e)
    case Success(code) => Success(HTTPResponse(code, GetBody(text)))
  }

  // ---------------------------------------------------------------------------
  // Header blocks

  /** Lines each ended by CRLF, then the empty line that ends the headers. */
  function HeaderBlock(lines: seq<string>): string
  {
    if lines == [] then CRLF else lines[0] + CRLF + HeaderBlock(lines[1..])
  }

  /** Text that fits in one header line: no CR and no LF. */
  predicate IsLineText(s: string) {
    '\r' !in s && '\n' !in s
  }

  predicate AreHeaderLines(lines: seq<string>) {
    forall k :: 0 <= k < |lines| ==> |lines[k]| > 0 && IsLineText(lines[k])
  }

  function GetLines(host: string, path: string): seq<string>
  {
    ["GET " + path + " HTTP/1.1", "Host: " + host, "Accept: */*", "Accept-Charset: utf-8", "Connection: close"]
  }

  function PostLines(host: string, path: string, length: nat): seq<string>
  {
    ["POST " + path + " HTTP/1.1", "Host: " + host, "Accept: */*", "Accept-Charset: utf-8",
     CONTENT_TYPE_FORM, "Content-Length: " + NatToString(length),
     "Connection: close"]
  }

  lemma HeaderBlockCons(l: string, rest: seq<string>)
    ensures HeaderBlock([l] + rest) == l + CRLF + HeaderBlock(rest)
  {
    assert ([l] + rest)[1..] == rest;
  }

  lemma HeaderBlock5(a: string, b: string, c: string, d: string, e: string)
    ensures HeaderBlock([a, b, c, d, e]) == a + CRLF + b + CRLF + c + CRLF + d + CRLF + e + CRLF + CRLF
  {
    HeaderBlockCons(e, []);
    HeaderBlockCons(d, [e]);
    HeaderBlockCons(c, [d, e]);
    HeaderBlockCons(b, [c, d, e]);
    HeaderBlockCons(a, [b, c, d, e]);
    assert [e] + [] == [e];
    assert [d] + [e] == [d, e];
    assert [c] + [d, e] == [c, d, e];
    assert [b] + [c, d, e] == [b, c, d, e];
    assert [a] + [b, c, d, e] == [a, b, c, d, e];
  }

  lemma HeaderBlock7(a: string, b: string, c: string, d: string, e: string, f: string, g: string)
    ensures HeaderBlock([a, b, c, d, e, f, g])
      == a + CRLF + b + CRLF + c + CRLF + d + CRLF + e + CRLF + f + CRLF + g + CRLF + CRLF
  {
    HeaderBlock5(c, d, e, f, g);
    HeaderBlockCons(b, [c, d, e, f, g]);
    HeaderBlockCons(a, [b, c, d, e, f, g]);
    assert [b] + [c, d, e, f, g] == [b, c, d, e, f, g];
    assert [a] + [b, c, d, e, f, g] == [a, b, c, d, e, f, g];
  }

  lemma {:induction false} HeaderBlockEnds(lines: seq<string>)
    ensures |HeaderBlock(lines)| >= 2
    ensures HeaderBlock(lines)[|HeaderBlock(lines)| - 2..] == CRLF
    ensures lines != [] ==> |HeaderBlock(lines)| >= 4 && HeaderBlock(lines)[|HeaderBlock(lines)| - 4..] == BLANK_LINE
  {
    if lines != [] {
      var rest := HeaderBlock(lines[1..]);
      HeaderBlockEnds(lines[1..]);
      var front := lines[0] + CRLF;
      assert HeaderBlock(lines) == front + rest;
      SuffixOfAppend(front, rest, 2);
      if lines[1..] == [] {
        assert front + rest == lines[0] + BLANK_LINE;
        SuffixOfAppend(lines[0], BLANK_LINE, 4);
      } else {
        SuffixOfAppend(front, rest, 4);
      }
    }
  }

  /** The last `n` characters of `a + b` are those of `b` when `b` has `n` of them. */
  lemma SuffixOfAppend(a: string, b: string, n: nat)
    requires n <= |b|
    ensures (a + b)[|a + b| - n..] == b[|b| - n..]
  {
    assert (a + b)[|a + b| - n..] == (a + b)[|a|..][|b| - n..];
    assert (a + b)[|a|..] == b;
  }

  /** A blank line starts with CR and has CR two characters on. */
  lemma BlankLineAt(s: string, i: int)
    ensures OccursAt(s, BLANK_LINE, i) ==> s[i] == '\r' && s[i + 1] == '\n' && s[i + 2] == '\r'
  {
    if 0 <= i && i + 4 <= |s| {
      assert s[i] == s[i..i + 4][0] && s[i + 1] == s[i..i + 4][1] && s[i + 2] == s[i..i + 4][2];
    }
  }

  /** No blank line starts inside a CR-free prefix. */
  lemma NoBlankLineInLine(l: string, u: string)
    requires '\r' !in l
    ensures forall i :: 0 <= i < |l| ==> !OccursAt(l + u, BLANK_LINE, i)
  {
    forall i | 0 <= i < |l| ensures !OccursAt(l + u, BLANK_LINE, i) {
      BlankLineAt(l + u, i);
      assert (l + u)[i] == l[i];
    }
  }

  lemma HeaderBlockStart(lines: seq<string>, body: string)
    requires lines != [] && AreHeaderLines(lines)
    ensures |HeaderBlock(lines) + body| > 0 && (HeaderBlock(lines) + body)[0] != '\r'
  {
    assert HeaderBlock(lines) + body == lines[0] + (CRLF + HeaderBlock(lines[1..]) + body);
    assert (HeaderBlock(lines) + body)[0] == lines[0][0];
  }

  lemma AreHeaderLinesTail(lines: seq<string>)
    requires lines != [] && AreHeaderLines(lines)
    ensures AreHeaderLines(lines[1..])
  {
    forall k | 0 <= k < |lines[1..]| ensures |lines[1..][k]| > 0 && IsLineText(lines[1..][k]) {
      assert lines[1..][k] == lines[k + 1];
    }
  }

  /** A CR-free line, its CRLF, then text that does not start with CR: no blank line starts in the line or its CRLF. */
  lemma LineThenText(l: string, t: string)
    requires '\r' !in l && |t| > 0 && t[0] != '\r'
    ensures forall i :: 0 <= i < |l| + 2 ==> !OccursAt(l + CRLF + t, BLANK_LINE, i)
  {
    var s := l + CRLF + t;
    assert s == l + (CRLF + t);
    NoBlankLineInLine(l, CRLF + t);
    assert s[|l| + 1] == '\n' && s[|l| + 2] == t[0];
    BlankLineAt(s, |l|);
    BlankLineAt(s, |l| + 1);
  }

  /** The last line of a header block: the blank line starts right after it. */
  lemma LastLine(l: string, body: string)
    requires '\r' !in l
    ensures Find(l + BLANK_LINE + body, BLANK_LINE) == Some(|l|)
  {
    var s := l + BLANK_LINE + body;
    assert s == l + (BLANK_LINE + body);
    NoBlankLineInLine(l, BLANK_LINE + body);
    assert s[|l|..|l| + 4] == BLANK_LINE;
    FindIs(s, BLANK_LINE, |l|);
  }

  /** With no occurrence inside the prefix, the first occurrence is the first one in the rest, shifted. */
  lemma FindAfterPrefix(p: string, t: string, j: nat)
    requires forall i :: 0 <= i < |p| ==> !OccursAt(p + t, BLANK_LINE, i)
    requires Find(t, BLANK_LINE) == Some(j)
    ensures Find(p + t, BLANK_LINE) == Some(|p| + j)
  {
    OccursShift(p, t, BLANK_LINE, j);
    forall i | |p| <= i < |p| + j ensures !OccursAt(p + t, BLANK_LINE, i) {
      OccursShift(p, t, BLANK_LINE, i - |p|);
    }
    FindIs(p + t, BLANK_LINE, |p| + j);
  }

  /**
    In a header block of non-empty CR- and LF-free lines followed by anything,
    the first blank line is the one that ends the block.
  */
  lemma {:induction false} FirstBlankLine(lines: seq<string>, body: string)
    requires lines != [] && AreHeaderLines(lines)
    ensures Find(HeaderBlock(lines) + body, BLANK_LINE) == Some(|HeaderBlock(lines)| - 4)
    decreases |lines|
  {
    if |lines| == 1 {
      FirstBlankLineOfOne(lines, body);
    } else {
      AreHeaderLinesTail(lines);
      FirstBlankLine(lines[1..], body);
      FirstBlankLineStep(lines, body);
    }
  }

  lemma FirstBlankLineOfOne(lines: seq<string>, body: string)
    requires |lines| == 1 && AreHeaderLines(lines)
    ensures Find(HeaderBlock(lines) + body, BLANK_LINE) == Some(|HeaderBlock(lines)| - 4)
  {
    var l := lines[0];
    assert '\r' !in l;
    assert lines[1..] == [];
    assert HeaderBlock(lines) + body == l + BLANK_LINE + body;
    LastLine(l, body);
  }

  lemma FirstBlankLineStep(lines: seq<string>, body: string)
    requires |lines| >= 2 && AreHeaderLines(lines)
    requires Find(HeaderBlock(lines[1..]) + body, BLANK_LINE) == Some(|HeaderBlock(lines[1..])| - 4)
    ensures Find(HeaderBlock(lines) + body, BLANK_LINE) == Some(|HeaderBlock(lines)| - 4)
  {
    var l, rest := lines[0], lines[1..];
    assert '\r' !in l;
    assert HeaderBlock(lines) == l + CRLF + HeaderBlock(rest);
    AreHeaderLinesTail(lines);
    HeaderBlockStart(rest, body);
    HeaderBlockEnds(rest);
    FirstBlankLineAfter(l, HeaderBlock(rest), body);
  }

  /** A CR-free line and its CRLF in front of text move its first blank line along by their length. */
  lemma FirstBlankLineAfter(l: string, h: string, body: string)
    requires '\r' !in l && |h| >= 4 && (h + body)[0] != '\r'
    requires Find(h + body, BLANK_LINE) == Some(|h| - 4)
    ensures Find(l + CRLF + h + body, BLANK_LINE) == Some(|l + CRLF + h| - 4)
  {
    var t := h + body;
    Associative(l + CRLF, h, body);
    LineThenText(l, t);
    FindAfterPrefix(l + CRLF, t, |h| - 4);
  }

  /**
    `get_body` in terms of `find`: after the first blank line, up to the next
    one or to the end.
  */
  lemma GetBodyAfterFirstBlankLine(data: string, i: nat)
    requires Find(data, BLANK_LINE) == Some(i)
    ensures var t := data[i + 4..];
      GetBody(data) == match Find(t, BLANK_LINE) case Some(k) => t[..k] case None => t
  {
    var t := data[i + 4..];
    var pieces := Split(data, BLANK_LINE);
    assert pieces == [data[..i]] + Split(t, BLANK_LINE);
  }

  /** The body that follows a header block is what `get_body` extracts, when it holds no blank line. */
  lemma GetBodyOfMessage(lines: seq<string>, body: string)
    requires lines != [] && AreHeaderLines(lines)
    requires !Contains(body, BLANK_LINE)
    ensures GetBody(HeaderBlock(lines) + body) == body
  {
    var s := HeaderBlock(lines) + body;
    FirstBlankLine(lines, body);
    HeaderBlockEnds(lines);
    var i := |HeaderBlock(lines)| - 4;
    assert s[i + 4..] == body;
    GetBodyAfterFirstBlankLine(s, i);
  }

  /**
    Text after a second blank line is not part of the body: when the first blank
    line after the headers that `body` can start is the one right after it, the
    body is `body` whatever follows.
  */
  lemma GetBodyStopsAtBlankLine(lines: seq<string>, body: string, more: string)
    requires lines != [] && AreHeaderLines(lines)
    requires Find(body + BLANK_LINE, BLANK_LINE) == Some(|body|)
    ensures GetBody(HeaderBlock(lines) + body + BLANK_LINE + more) == body
  {
    var tail := body + BLANK_LINE + more;
    var s := HeaderBlock(lines) + tail;
    assert HeaderBlock(lines) + body + BLANK_LINE + more == s;
    FirstBlankLine(lines, tail);
    HeaderBlockEnds(lines);
    var i := |HeaderBlock(lines)| - 4;
    assert s[i + 4..] == tail;
    BodyBeforeBlankLine(body, more);
    GetBodyAfterFirstBlankLine(s, i);
  }

  /** The part of `body + BLANK_LINE + more` before its first blank line is `body`. */
  lemma BodyBeforeBlankLine(body: string, more: string)
    requires Find(body + BLANK_LINE, BLANK_LINE) == Some(|body|)
    ensures Find(body + BLANK_LINE + more, BLANK_LINE) == Some(|body|)
    ensures (body + BLANK_LINE + more)[..|body|] == body
  {
    FindExtend(body + BLANK_LINE, more, BLANK_LINE, |body|);
  }

  /** A CR-free body meets the condition of `GetBodyStopsAtBlankLine`. */
  lemma CrFreeBodyEndsAtBlankLine(body: string)
    requires '\r' !in body
    ensures Find(body + BLANK_LINE, BLANK_LINE) == Some(|body|)
  {
    LastLine(body, "");
    assert body + BLANK_LINE + "" == body + BLANK_LINE;
  }

  // ---------------------------------------------------------------------------
  // Properties of the request and of the parsers

  lemma NoCrNoBlankLine(s: string)
    requires '\r' !in s
    ensures !Contains(s, BLANK_LINE)
  {
    NoBlankLineInLine(s, "");
    assert s + "" == s;
  }

  lemma LineTextAppend(a: string, b: string)
    requires IsLineText(a) && IsLineText(b)
    ensures IsLineText(a + b)
  {
  }

  /** The request line `<method> <path> HTTP/1.1` of a path that fits in one line. */
  lemma RequestLineIsLineText(verb: string, path: string)
    requires IsLineText(verb) && IsLineText(path)
    ensures IsLineText(verb + path + " HTTP/1.1")
  {
    LineTextAppend(verb, path);
    LineTextAppend(verb + path, " HTTP/1.1");
  }

  /** The fixed header lines fit in one line each. */
  lemma FixedLinesAreText()
    ensures IsLineText("Accept: */*") && IsLineText("Accept-Charset: utf-8")
    ensures IsLineText("Connection: close")
    ensures IsLineText(CONTENT_TYPE_FORM)
  {
    ContentTypeIsText();
  }

  lemma ContentTypeIsText()
    ensures IsLineText(CONTENT_TYPE_FORM)
  {
    assert IsLineText("Content-Type: ") && IsLineText("application/");
    assert IsLineText("x-www-form-") && IsLineText("urlencoded");
    LineTextAppend("Content-Type: ", "application/");
    LineTextAppend("Content-Type: " + "application/", "x-www-form-");
    LineTextAppend("Content-Type: " + "application/" + "x-www-form-", "urlencoded");
  }

  lemma GetLinesAreHeaderLines(host: string, path: string)
    requires IsLineText(host) && IsLineText(path)
    ensures AreHeaderLines(GetLines(host, path))
  {
    var lines := GetLines(host, path);
    FixedLinesAreText();
    forall k | 0 <= k < |lines| ensures |lines[k]| > 0 && IsLineText(lines[k]) {
      if k == 0 {
        RequestLineIsLineText("GET ", path);
      } else if k == 1 {
        LineTextAppend("Host: ", host);
      }
    }
  }

  lemma PostLinesAreHeaderLines(host: string, path: string, length: nat)
    requires IsLineText(host) && IsLineText(path)
    ensures AreHeaderLines(PostLines(host, path, length))
  {
    var lines := PostLines(host, path, length);
    forall k | 0 <= k < |lines| ensures |lines[k]| > 0 && IsLineText(lines[k]) {
      if k < 4 {
        PostLinesHead(host, path, length, k);
      } else {
        PostLinesTail(host, path, length, k);
      }
    }
  }

  lemma PostLinesHead(host: string, path: string, length: nat, k: nat)
    requires IsLineText(host) && IsLineText(path) && k < 4
    ensures var l := PostLines(host, path, length)[k]; |l| > 0 && IsLineText(l)
  {
    FixedLinesAreText();
    if k == 0 {
      RequestLineIsLineText("POST ", path);
    } else if k == 1 {
      LineTextAppend("Host: ", host);
    }
  }

  lemma PostLinesTail(host: string, path: string, length: nat, k: nat)
    requires 4 <= k < 7
    ensures var l := PostLines(host, path, length)[k]; |l| > 0 && IsLineText(l)
  {
    FixedLinesAreText();
    if k == 5 {
      var digits := NatToString(length);
      assert '\r' !in digits && '\n' !in digits;
      LineTextAppend("Content-Length: ", digits);
    }
  }

  /**
    The GET request is the request line, then the Host, Accept, Accept-Charset and
    Connection: close headers, each ended by CRLF, then the empty line; with a host
    and path free of CR and LF its first blank line is its very end, so it carries
    no body.
  */
  lemma GetRequestLayout(host: string, path: string)
    requires IsLineText(host) && IsLineText(path)
    ensures GetRequest(host, path) == HeaderBlock(GetLines(host, path))
    ensures Find(GetRequest(host, path), BLANK_LINE) == Some(|GetRequest(host, path)| - 4)
    ensures GetBody(GetRequest(host, path)) == ""
  {
    var lines := GetLines(host, path);
    GetLinesAreHeaderLines(host, path);
    FirstBlankLine(lines, "");
    assert HeaderBlock(lines) + "" == HeaderBlock(lines);
    NoCrNoBlankLine("");
    GetBodyOfMessage(lines, "");
  }

  /**
    The POST request is its header block, with `Content-Length` the length of the
    content, followed directly by the content: the first blank line ends the
    headers and what follows it is exactly `content`.
  */
  lemma PostRequestLayout(host: string, path: string, content: string)
    requires IsLineText(host) && IsLineText(path)
    ensures PostRequest(host, path, content) == HeaderBlock(PostLines(host, path, |content|)) + content
    ensures Find(PostRequest(host, path, content), BLANK_LINE)
      == Some(|HeaderBlock(PostLines(host, path, |content|))| - 4)
    ensures '\r' !in content ==> GetBody(PostRequest(host, path, content)) == content
  {
    var lines := PostLines(host, path, |content|);
    PostLinesAreHeaderLines(host, path, |content|);
    FirstBlankLine(lines, content);
    if '\r' !in content {
      NoCrNoBlankLine(content);
      GetBodyOfMessage(lines, content);
    }
  }

  /**
    For the form the client sends, `Content-Length` reads back as the number of
    bytes of body that go on the wire after the headers, whatever the host and
    path; with a host and path free of CR and LF, `get_body` applied to the
    request also gives the form back.
  */
  lemma PostContentLength(host: string, path: string, args: Option<Form>)
    ensures var content := FormContent(args);
      var head := HeaderBlock(PostLines(host, path, |content|));
      && Encode(PostRequest(host, path, content)) == Encode(head) + Encode(content)
      && ParseInt(NatToString(|content|)) == Some(|Encode(content)|)
    ensures IsLineText(host) && IsLineText(path) ==>
      GetBody(PostRequest(host, path, FormContent(args))) == FormContent(args)
  {
    var content := FormContent(args);
    if args.Some? {
      UrlEncodeIsFormText(args.value);
    }
    EncodeAppend(HeaderBlock(PostLines(host, path, |content|)), content);
    ParseNatToString(|content|);
    if IsLineText(host) && IsLineText(path) {
      PostRequestLayout(host, path, content);
    }
  }

  /** Without arguments the POST body is empty and the header reads `Content-Length: 0`. */
  lemma PostWithoutArgs(host: string, path: string)
    ensures FormContent(None) == ""
    ensures PostRequest(host, path, FormContent(None)) == HeaderBlock(PostLines(host, path, 0))
    ensures PostLines(host, path, 0)[5] == "Content-Length: 0"
  {
    assert NatToString(0) == "0";
    assert HeaderBlock(PostLines(host, path, 0)) + "" == HeaderBlock(PostLines(host, path, 0));
  }

  /**
    The body the server finds in what `command` sends: the URL-encoded
    arguments for "POST", nothing for any other command.
  */
  lemma RequestForBody(command: string, url: ParsedUrl, args: Option<Form>)
    requires IsLineText(url.hostname) && IsLineText(url.path)
    ensures command == "POST" ==> GetBody(RequestFor(command, url, args)) == FormContent(args)
    ensures command != "POST" ==> GetBody(RequestFor(command, url, args)) == ""
  {
    var path := DefaultPath(url.path);
    assert IsLineText(path);
    if command == "POST" {
      PostContentLength(url.hostname, path, args);
    } else {
      GetRequestLayout(url.hostname, path);
    }
  }

  lemma IsWordDigits(n: nat)
    ensures IsWord(NatToString(n))
  {
  }

  /**
    On a status line `version SP code ...`, `get_code` gives the code: the second
    token is the decimal numeral and `int()` reads it back.
  */
  lemma GetCodeOfStatusLine(version: string, code: nat, rest: string)
    requires IsWord(version)
    requires rest == "" || IsSpace(rest[0])
    ensures GetCode(version + " " + NatToString(code) + rest) == Success(code)
  {
    var digits := NatToString(code);
    IsWordDigits(code);
    FirstTwoWords(version, digits, rest);
    var words := Words(version + " " + digits + rest);
    assert words[1] == words[..2][1] == digits;
    ParseNatToString(code);
  }

  /** A second token `int()` refuses makes `get_code` fail with ValueError. */
  lemma GetCodeNotANumber(version: string, token: string, rest: string)
    requires IsWord(version) && IsWord(token) && ParseInt(token).None?
    requires rest == "" || IsSpace(rest[0])
    ensures GetCode(version + " " + token + rest) == Failure(ValueError)
  {
    FirstTwoWords(version, token, rest);
  }

  /** The first two tokens of `first SP second rest`. */
  lemma FirstTwoWords(first: string, second: string, rest: string)
    requires IsWord(first) && IsWord(second)
    requires rest == "" || IsSpace(rest[0])
    ensures |Words(first + " " + second + rest)| >= 2
    ensures Words(first + " " + second + rest)[..2] == [first, second]
  {
    WordsOfWord(second, rest);
    WordsAfterSpace(" ", second + rest);
    Associative(first + " ", second, rest);
    Associative(first, " ", second + rest);
    WordsOfWord(first, " " + (second + rest));
  }

  /** Text with a single token makes `get_code` fail with IndexError. */
  lemma GetCodeOneToken(before: string, token: string, after: string)
    requires AllSpace(before) && IsWord(token) && AllSpace(after)
    ensures GetCode(before + token + after) == Failure(IndexError)
  {
    WordsAfterSpace(after, "");
    assert after + "" == after;
    WordsOfWord(token, after);
    assert before + token + after == before + (token + after);
    WordsAfterSpace(before, token + after);
  }

  // Examples of the parsers on concrete responses.

  /** The text of a 200 reply with the body "hello". */
  function OkReply(): string {
    "HTTP/1.1 200 OK" + CRLF + "Content-Length: 5" + CRLF + CRLF + "hello"
  }

  lemma OkReplyBody()
    ensures GetBody(OkReply()) == "hello"
  {
    var status, header := "HTTP/1.1 200 OK", "Content-Length: 5";
    var lines := [status, header];
    HeaderBlockCons(header, []);
    HeaderBlockCons(status, [header]);
    assert [header] + [] == [header] && [status] + [header] == lines;
    assert OkReply() == HeaderBlock(lines) + "hello";
    assert IsLineText(status) && IsLineText(header);
    assert AreHeaderLines(lines);
    NoCrNoBlankLine("hello");
    GetBodyOfMessage(lines, "hello");
  }

  lemma OkReplyCode()
    ensures GetCode(OkReply()) == Success(200)
  {
    var rest := " OK" + CRLF + "Content-Length: 5" + CRLF + CRLF + "hello";
    assert NatToString(200) == "200";
    assert "HTTP/1.1 200 OK" == "HTTP/1.1" + " " + "200" + " OK";
    assert OkReply() == "HTTP/1.1" + " " + NatToString(200) + rest;
    GetCodeOfStatusLine("HTTP/1.1", 200, rest);
  }

  lemma ParseOkResponse()
    ensures ParseResponse(OkReply()) == Success(HTTPResponse(200, "hello"))
  {
    OkReplyBody();
    OkReplyCode();
  }

  lemma ParseGarbage()
    ensures GetBody("garbage") == ""
    ensures GetCode("garbage") == Failure(IndexError)
  {
    NoCrNoBlankLine("garbage");
    GetCodeOneToken("", "garbage", "");
    assert "" + "garbage" + "" == "garbage";
  }

  /** A reply whose body itself holds a blank line. */
  function TwoBlankLinesReply(): string {
    "HTTP/1.1 200 OK" + CRLF + CRLF + "first" + CRLF + CRLF + "second"
  }

  /** Only the text up to the second blank line is taken as the body. */
  lemma ParseTwoBlankLines()
    ensures GetBody(TwoBlankLinesReply()) == "first"
  {
    var status := "HTTP/1.1 200 OK";
    var lines := [status];
    HeaderBlockCons(status, []);
    assert [status] + [] == lines;
    assert IsLineText(status);
    assert TwoBlankLinesReply() == HeaderBlock(lines) + "first" + BLANK_LINE + "second";
    CrFreeBodyEndsAtBlankLine("first");
    GetBodyStopsAtBlankLine(lines, "first", "second");
  }

  // ---------------------------------------------------------------------------
  // One exchange with a peer

  /** `buffer.decode('utf-8')` at the end of `recvall`. */
  function DecodeReply(bs: seq<byte>): (r: Result<string, ClientError>)
    ensures r.Success? ==> Encode(r.value) == bs
    ensures r.Failure? ==> r.error == UnicodeDecodeError
  {
    match Decode(bs)
    case None => Failure(UnicodeDecodeError)
    case Some(text) => Success(text)
  }

  /** The encoding of any text decodes back to that text. */
  lemma DecodeReplyOfEncode(s: string)
    ensures DecodeReply(Encode(s)) == Success(s)
  {
    DecodeEncode(s);
  }

  /**
    What `GET` or `POST` returns against `peer`: exit when it cannot be reached,
    the decode error when its reply is not UTF-8, and otherwise the parsed reply.
  */
  function Outcome(peer: Peer): (r: Result<HTTPResponse, ClientError>)
    ensures !peer.reachable ==> r == Failure(Exited)
    ensures peer.reachable && Decode(Flatten(peer.reply)).None? ==> r == Failure(UnicodeDecodeError)
    ensures forall text :: peer.reachable && Flatten(peer.reply) == Encode(text) ==> r == ParseResponse(text)
  {
    assert forall text :: Flatten(peer.reply) == Encode(text) ==> DecodeReply(Flatten(peer.reply)) == Success(text) by {
      forall text | Flatten(peer.reply) == Encode(text) ensures DecodeReply(Flatten(peer.reply)) == Success(text) {
        DecodeReplyOfEncode(text);
      }
    }
    if !peer.reachable then Failure(Exited)
    else match DecodeReply(Flatten(peer.reply))
      case Failure(e) => Failure(e)
      case Success(text) => ParseResponse(text)
  }

  /**
    The calls `GET` or `POST` make on their socket: connect; then, once
    connected, sendall of the encoded request, every recv of `recvall`, and
    close unless decoding the reply raised first.
  */
  ghost function CallTrace(host: string, port: int, request: string, peer: Peer): seq<Event>
  {
    [ConnectCall(host, port)]
      + (if !peer.reachable then []
         else [SendCall(Encode(request))] + RecvEvents(Reads(peer.reply, RECV_SIZE)) + Closing(peer))
  }

  /**
    The state the socket of an exchange is left in: never connected when the
    peer cannot be reached, still connected when decoding the reply raises
    before `close()`, and closed otherwise.
  */
  function FinalStatus(peer: Peer): Status
  {
    if !peer.reachable then Unconnected
    else if DecodeReply(Flatten(peer.reply)).Failure? then Connected
    else Closed
  }

  /** The close at the end of an exchange, left out when decoding the reply raises. */
  ghost function Closing(peer: Peer): seq<Event>
  {
    if DecodeReply(Flatten(peer.reply)).Failure? then [] else [CloseCall]
  }

  lemma CallTraceReachable(host: string, port: int, request: string, peer: Peer)
    requires peer.reachable
    ensures CallTrace(host, port, request, peer)
      == [ConnectCall(host, port)] + [SendCall(Encode(request))] + RecvEvents(Reads(peer.reply, RECV_SIZE)) + Closing(peer)
  {
    var c, sd, rs := [ConnectCall(host, port)], [SendCall(Encode(request))], RecvEvents(Reads(peer.reply, RECV_SIZE));
    Associative(c, sd, rs);
    Associative(c, sd + rs, Closing(peer));
  }

  /** The trace as the calls add to it, one after another. */
  lemma CallTraceSteps(host: string, port: int, request: string, peer: Peer)
    ensures !peer.reachable ==> CallTrace(host, port, request, peer) == [ConnectCall(host, port)]
    ensures peer.reachable && DecodeReply(Flatten(peer.reply)).Failure? ==>
      CallTrace(host, port, request, peer)
      == [ConnectCall(host, port)] + [SendCall(Encode(request))] + RecvEvents(Reads(peer.reply, RECV_SIZE))
    ensures peer.reachable && DecodeReply(Flatten(peer.reply)).Success? ==>
      CallTrace(host, port, request, peer)
      == [ConnectCall(host, port)] + [SendCall(Encode(request))] + RecvEvents(Reads(peer.reply, RECV_SIZE)) + [CloseCall]
  {
    var c, sd, rs := [ConnectCall(host, port)], [SendCall(Encode(request))], RecvEvents(Reads(peer.reply, RECV_SIZE));
    Associative(c + sd, rs, [CloseCall]);
    Associative(c, sd, rs);
    Associative(c, sd + rs, [CloseCall]);
    Associative(c, sd, rs + [CloseCall]);
    Associative(sd, rs, [CloseCall]);
    assert sd + rs + [] == sd + rs;
    assert c + [] == c;
  }

  lemma EventsAfter(c: Event, sd: Event, events: seq<Event>, tail: seq<Event>)
    ensures var t := [c] + [sd] + events + tail;
      && |t| == 2 + |events| + |tail| && t[0] == c && t[1] == sd
      && (forall k :: 2 <= k < 2 + |events| ==> t[k] == events[k - 2])
      && (forall k :: 0 <= k < |tail| ==> t[2 + |events| + k] == tail[k])
  {
  }

  /** Unreachable peer: the only call is the connect. */
  lemma CallOrderUnreachable(host: string, port: int, request: string, peer: Peer)
    requires !peer.reachable
    ensures CallTrace(host, port, request, peer) == [ConnectCall(host, port)]
  {
    CallTraceSteps(host, port, request, peer);
  }

  /**
    The order of the calls on a reachable peer: connect, then sendall of the
    whole encoded request, then the recv calls, the last of them the empty one.
  */
  lemma CallOrder(host: string, port: int, request: string, peer: Peer)
    requires peer.reachable
    ensures var t := CallTrace(host, port, request, peer);
      var parts := Reads(peer.reply, RECV_SIZE);
      && |t| >= 2 + |parts|
      && t[0] == ConnectCall(host, port)
      && t[1] == SendCall(Encode(request))
      && (forall k :: 2 <= k < 2 + |parts| ==> t[k] == RecvCall(parts[k - 2]))
      && t[1 + |parts|] == RecvCall(parts[|parts| - 1]) && parts[|parts| - 1] == []
  {
    CallTraceReachable(host, port, request, peer);
    var parts := Reads(peer.reply, RECV_SIZE);
    var events := RecvEvents(parts);
    EventsAfter(ConnectCall(host, port), SendCall(Encode(request)), events, Closing(peer));
    var t := CallTrace(host, port, request, peer);
    var k := 1 + |parts|;
    assert t[k] == events[k - 2];
  }

  /**
    After the reads, a reachable peer's socket is closed exactly when its reply
    decodes: the decode error is raised before `close()`.
  */
  lemma CallOrderClose(host: string, port: int, request: string, peer: Peer)
    requires peer.reachable
    ensures var t := CallTrace(host, port, request, peer);
      var parts := Reads(peer.reply, RECV_SIZE);
      && (DecodeReply(Flatten(peer.reply)).Success? ==> |t| == 3 + |parts| && t[2 + |parts|] == CloseCall)
      && (DecodeReply(Flatten(peer.reply)).Failure? ==> |t| == 2 + |parts|)
  {
    CallTraceReachable(host, port, request, peer);
  }

  /** The text of a 404 reply with the body "nope". */
  function NotFoundReply(): string {
    "HTTP/1.1 404 Not Found" + CRLF + CRLF + "nope"
  }

  lemma NotFoundReplyBody()
    ensures GetBody(NotFoundReply()) == "nope"
  {
    var status := "HTTP/1.1 404 Not Found";
    var lines := [status];
    HeaderBlockCons(status, []);
    assert [status] + [] == lines;
    assert NotFoundReply() == HeaderBlock(lines) + "nope";
    assert IsLineText(status);
    assert AreHeaderLines(lines);
    NoCrNoBlankLine("nope");
    GetBodyOfMessage(lines, "nope");
  }

  lemma NotFoundReplyCode()
    ensures GetCode(NotFoundReply()) == Success(404)
  {
    var rest := " Not Found" + CRLF + CRLF + "nope";
    assert NatToString(404) == "404";
    assert "HTTP/1.1 404 Not Found" == "HTTP/1.1" + " " + "404" + " Not Found";
    assert NotFoundReply() == "HTTP/1.1" + " " + NatToString(404) + rest;
    GetCodeOfStatusLine("HTTP/1.1", 404, rest);
  }

  /**
    End to end: a reachable server whose bytes, however they are split into
    segments, are the 404 reply gives the response with code 404 and body
    "nope", whichever request was sent.
  */
  lemma NotFoundExchange(segments: seq<seq<byte>>)
    requires Flatten(segments) == Encode(NotFoundReply())
    ensures Outcome(Peer(true, segments)) == Success(HTTPResponse(404, "nope"))
  {
    NotFoundReplyBody();
    NotFoundReplyCode();
  }

  lemma NotFoundInOneSegment()
    ensures Outcome(Peer(true, [Encode(NotFoundReply())])) == Success(HTTPResponse(404, "nope"))
  {
    FlattenSnoc([], Encode(NotFoundReply()));
    assert [] + [Encode(NotFoundReply())] == [Encode(NotFoundReply())];
    NotFoundExchange([Encode(NotFoundReply())]);
  }

  class HTTPClient {
    var socket: Socket?

    constructor ()
      ensures socket == null
    {
      socket := null;
    }

    /**
      `connect`: a new socket connected to `host` on `port`, 80 when `port` is
      None. An unreachable peer ends the program (the `sys.exit` of the source).
    */
    method Connect(host: string, port: Option<int>, peer: Peer) returns (r: Result<Socket, ClientError>)
      modifies this
      ensures socket != null && fresh(socket)
      ensures socket.reachable == peer.reachable && socket.incoming == peer.reply && socket.sent == []
      ensures socket.status == (if peer.reachable then Connected else Unconnected)
      ensures socket.trace == [ConnectCall(host, DefaultPort(port))]
      ensures r.Success? <==> peer.reachable
      ensures r.Success? ==> r.value == socket
      ensures r.Failure? ==> r.error == Exited
    {
      var p := DefaultPort(port);
      socket := new Socket(peer);
      var ok := socket.Connect(host, p);
      if !ok {
        return Failure(Exited);
      }
      return Success(socket);
    }

    /** `sendall`: the request goes out UTF-8 encoded. */
    method SendAll(data: string)
      requires socket != null && socket.status == Connected
      modifies socket
      ensures socket.sent == old(socket.sent) + Encode(data)
      ensures socket.incoming == old(socket.incoming) && socket.status == old(socket.status)
      ensures socket.trace == old(socket.trace) + [SendCall(Encode(data))]
    {
      socket.SendAll(Encode(data));
    }

    method Close()
      requires socket != null
      modifies socket
      ensures socket.status == Closed
      ensures socket.incoming == old(socket.incoming) && socket.sent == old(socket.sent)
      ensures socket.trace == old(socket.trace) + [CloseCall]
    {
      socket.Close();
    }

    /**
      `recvall`: `recv(1024)` until it returns nothing, then decode all that was
      received. The text is the decoded stream, the calls are exactly the reads
      `Reads` describes, and nothing is left unread.
    */
    method RecvAll(sock: Socket) returns (r: Result<string, ClientError>)
      requires sock.status == Connected
      modifies sock
      ensures r == DecodeReply(Flatten(old(sock.incoming)))
      ensures Flatten(sock.incoming) == []
      ensures sock.status == old(sock.status) && sock.sent == old(sock.sent)
      ensures sock.trace == old(sock.trace) + RecvEvents(Reads(old(sock.incoming), RECV_SIZE))
    {
      var buffer: seq<byte> := [];
      var done := false;
      ghost var taken: seq<seq<byte>> := [];
      ghost var start := sock.trace;
      while !done
        invariant sock.status == Connected && sock.sent == old(sock.sent)
        invariant buffer == Flatten(taken)
        invariant !done ==> taken + Reads(sock.incoming, RECV_SIZE) == Reads(old(sock.incoming), RECV_SIZE)
        invariant done ==> taken == Reads(old(sock.incoming), RECV_SIZE) && Flatten(sock.incoming) == []
        invariant sock.trace == start + RecvEvents(taken)
        decreases |Flatten(sock.incoming)| + (if done then 0 else 1)
      {
        ghost var before := sock.incoming;
        var part := sock.Recv(RECV_SIZE);
        ReadAdvance(old(sock.incoming), taken, before, part, sock.incoming, RECV_SIZE);
        TraceSnoc(start, taken, part);
        taken := taken + [part];
        if part != [] {
          buffer := buffer + part;
        } else {
          done := true;
        }
      }
      r := DecodeReply(buffer);
    }

    /**
      `GET`: connect, send the GET request for the URL's host and path, read the
      whole reply, close, then parse the status code and the body. `args` is
      accepted and not used, as in the source, and defaults to None. The network,
      `peer`, comes before the defaulted parameters.
    */
    method Get(url: ParsedUrl, peer: Peer, args: Option<Form> := None) returns (r: Result<HTTPResponse, ClientError>)
      modifies this
      ensures r == Outcome(peer)
      ensures socket != null && fresh(socket)
      ensures socket.sent == (if peer.reachable then Encode(GetRequest(url.hostname, DefaultPath(url.path))) else [])
      ensures socket.trace == CallTrace(url.hostname, DefaultPort(url.port), GetRequest(url.hostname, DefaultPath(url.path)), peer)
      ensures socket.reachable == peer.reachable && socket.status == FinalStatus(peer)
      ensures peer.reachable ==> Flatten(socket.incoming) == []
    {
      var host := url.hostname;
      var port := url.port;
      var path := DefaultPath(url.path);
      var connected := Connect(host, port, peer);
      if connected.Failure? {
        return Failure(Exited);
      }
      var request := GetRequest(host, path);
      CallTraceSteps(host, DefaultPort(port), request, peer);
      SendAll(request);
      assert socket.sent == Encode(request);
      var response := RecvAll(socket);
      if response.Failure? {
        return Failure(response.error);
      }
      Close();
      r := ParseResponse(response.value);
    }

    /**
      `POST`: like `GET`, with the POST request whose content is the URL-encoded
      `args` ("" when there are none, the default).
    */
    method Post(url: ParsedUrl, peer: Peer, args: Option<Form> := None) returns (r: Result<HTTPResponse, ClientError>)
      modifies this
      ensures r == Outcome(peer)
      ensures socket != null && fresh(socket)
      ensures socket.sent == (if peer.reachable
        then Encode(PostRequest(url.hostname, DefaultPath(url.path), FormContent(args))) else [])
      ensures socket.trace
        == CallTrace(url.hostname, DefaultPort(url.port), PostRequest(url.hostname, DefaultPath(url.path), FormContent(args)), peer)
      ensures socket.reachable == peer.reachable && socket.status == FinalStatus(peer)
      ensures peer.reachable ==> Flatten(socket.incoming) == []
    {
      var content := FormContent(args);
      var host := url.hostname;
      var port := url.port;
      var path := DefaultPath(url.path);
      var connected := Connect(host, port, peer);
      if connected.Failure? {
        return Failure(Exited);
      }
      var request := PostRequest(host, path, content);
      CallTraceSteps(host, DefaultPort(port), request, peer);
      SendAll(request);
      assert socket.sent == Encode(request);
      var response := RecvAll(socket);
      if response.Failure? {
        return Failure(response.error);
      }
      Close();
      r := ParseResponse(response.value);
    }

    /**
      `command`: POST exactly for "POST", GET for anything else; the command
      defaults to "GET" and the arguments to None.
    */
    method Command(url: ParsedUrl, peer: Peer, command: string := "GET", args: Option<Form> := None)
      returns (r: Result<HTTPResponse, ClientError>)
      modifies this
      ensures r == Outcome(peer)
      ensures socket != null && fresh(socket)
      ensures socket.sent == (if peer.reachable then Encode(RequestFor(command, url, args)) else [])
      ensures socket.trace == CallTrace(url.hostname, DefaultPort(url.port), RequestFor(command, url, args), peer)
      ensures socket.reachable == peer.reachable && socket.status == FinalStatus(peer)
      ensures peer.reachable ==> Flatten(socket.incoming) == []
    {
      if command == "POST" {
        r := Post(url, peer, args);
      } else {
        r := Get(url, peer, args);
      }
    }
  }
}
