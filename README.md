# httpclient.py in Dafny

A model of the HTTP/1.1 client in `httpclient.py`. `HTTPClient.GET` and `HTTPClient.POST` each make one request over one TCP connection:

1. Connect to the URL's host, on port 80 unless the URL names another one.
2. Build the request text. POST adds a URL-encoded form body.
3. Send the request UTF-8 encoded.
4. Read with `recv(1024)` until a read returns nothing.
5. Decode the reply as UTF-8 and close the socket.
6. Split the reply into a status code (`get_code`) and a body (`get_body`). The result is an `HTTPResponse(code, body)`.

`command` dispatches to POST exactly for the string `"POST"` and to GET for anything else.

## Modules

- `Wrappers`: `Option` and `Result`. `None` stands for Python's `None`; `Failure` stands for a raised exception.
- `Utf8`: `str.encode('utf-8')` and the strict `bytes.decode('utf-8')`. It proves the round trip in both directions.
- `Strings`: the Python string operations the client uses.
  - `split(sep)` with leftmost, non-overlapping matches.
  - `split()` over Python's whitespace set.
  - `int(token)` in base 10, with sign and `_` separators.
  - `str(n)`.
- `FormEncoding`: `urllib.parse.urlencode` of a sequence of `(key, value)` pairs, with `quote_plus` escaping. It also defines the decoder that undoes it; the round trip is proved.
- `Sockets`: the network as a scripted peer.
  - A `Peer` says whether `connect` reaches it and which byte segments it delivers before it closes the stream.
  - `Socket` is a class with the remaining segments, the bytes sent, a connection status and a ghost trace of calls.
- `HttpClient`: the request builders and the response parsers as functions, with their lemmas. The class `HTTPClient` holds `connect`, `sendall`, `close`, `recvall`, `GET`, `POST` and `command`.

Exceptions become `Failure` values carrying a `ClientError`, because the client does not catch them:
- `Exited`: the `sys.exit()` after a failed connect.
- `UnicodeDecodeError`: from `recvall`.
- `IndexError` and `ValueError`: from `get_code`.

`GET`, `POST` and `command` are proved against two specification functions, with lemmas about each:
- `Outcome(peer)` is the returned value.
- `CallTrace(...)` is the exact sequence of socket calls.

Two behaviours of the code are worth stating:
- **`get_body`:** it takes piece `[1]` of `data.split("\r\n\r\n")`. That is the text between the first blank line and the second one (or the end), not everything after the first blank line. `HttpClient.ParseTwoBlankLines` shows a reply whose body is truncated this way.
- **`Content-Length`:** it is written as `len(content)`, a count of characters, not of bytes. For every form the client can send the two agree, because URL-encoded text is ASCII: `HttpClient.PostContentLength` proves that `Content-Length` reads back as the number of encoded body bytes.

## Model

| member | source | states |
|---|---|---|
| HttpClient.DefaultPort | httpclient.py:50-51 | a port of None becomes 80; a given port is kept unchanged |
| HttpClient.DefaultPath | httpclient.py:129-131 | the request path is never empty, is "/" for an empty path, and is the path itself otherwise, so defaulting twice changes nothing (the same rule as lines 181-183) |
| HttpClient.GetRequest | httpclient.py:140 | the GET request is the request line `GET path HTTP/1.1` and the Host, Accept, Accept-Charset and Connection headers, each ended by CRLF, then the empty line; it starts with "GET " |
| HttpClient.GetRequestLayout | httpclient.py:140 | for a host and path without CR or LF, the first blank line of the GET request is its very end, and `get_body` finds no body in it |
| HttpClient.PostRequest | httpclient.py:190 | the POST request is its seven header lines, with `Content-Length: str(len(content))`, each ended by CRLF, then the empty line, followed directly by the content; it starts with "POST " |
| HttpClient.PostRequestLayout | httpclient.py:190 | for a host and path without CR or LF, the first blank line of the POST request ends the headers; when the content has no CR, `get_body` of the request is exactly the content |
| HttpClient.PostContentLength | httpclient.py:173-190 | for the form the client sends and any host and path, the encoded request is the encoded headers followed by the encoded content, and `Content-Length` parses back to the number of content bytes; for a host and path without CR or LF, `get_body` of the request also gives the form back |
| HttpClient.PostWithoutArgs | httpclient.py:173-174 | without arguments the content is "", the request is only its header block, and the header reads `Content-Length: 0` |
| HttpClient.FormContent | httpclient.py:173-176 | without arguments the content is ""; with arguments it is form text that URL-decodes back to exactly those pairs, in order |
| HttpClient.RequestFor | httpclient.py:248-252 | the request `command` sends starts with "POST " exactly when the command is "POST", and with "GET " exactly when it is anything else ("post", "get", "") |
| HttpClient.RequestForBody | httpclient.py:248-252 | for a host and path without CR or LF, the body a server finds in what `command` sends is the URL-encoded arguments for "POST" and empty for any other command |
| HttpClient.GetCode | httpclient.py:66-72 | IndexError exactly when the reply has fewer than two whitespace-separated tokens; ValueError exactly when `int()` rejects the second token; otherwise the code is the value `int()` reads from it |
| HttpClient.GetCodeOfStatusLine | httpclient.py:71 | on a reply starting `version SP str(code)` followed by whitespace or the end, `get_code` gives `code` |
| HttpClient.GetCodeNotANumber | httpclient.py:71 | a second token that `int()` rejects makes `get_code` fail with ValueError |
| HttpClient.FirstTwoWords | httpclient.py:71 | in `first SP second rest`, with `rest` empty or starting with whitespace, `split()` begins with `first` and `second` |
| HttpClient.GetCodeOneToken | httpclient.py:71 | text holding a single token (such as "garbage") makes `get_code` fail with IndexError |
| HttpClient.GetBody | httpclient.py:75-84 | the body never contains a blank line, and it is "" when the reply has no blank line |
| HttpClient.GetBodyAfterFirstBlankLine | httpclient.py:81 | with the first blank line at index i, the body is the text after it, up to the next blank line or to the end |
| HttpClient.FirstBlankLine | httpclient.py:81 | in a header block of CR-free, LF-free, non-empty lines followed by any text, the first blank line is the one that ends the headers |
| HttpClient.GetBodyOfMessage | httpclient.py:79-84 | the body of a header block of non-empty lines without CR or LF, followed by text that contains no blank line, is that text |
| HttpClient.GetBodyStopsAtBlankLine | httpclient.py:81 | when a header block of non-empty lines without CR or LF is followed by a body, a blank line and any further text, and no blank line starts before the one right after the body, only the body is returned; a body without CR always qualifies (`HttpClient.CrFreeBodyEndsAtBlankLine`) |
| HttpClient.CrFreeBodyEndsAtBlankLine | httpclient.py:81 | in a CR-free body followed by a blank line, the first blank line is the one right after the body |
| HttpClient.ParseResponse | httpclient.py:157-160 | IndexError exactly when the reply has fewer than two tokens; ValueError exactly when `int()` rejects the second token; otherwise the code is that token's value and the body is what `get_body` extracts (the same parse as lines 209-212) |
| HttpClient.ParseOkResponse | httpclient.py:157-160 | the reply `HTTP/1.1 200 OK`, `Content-Length: 5`, blank line, `hello` parses to code 200 and body "hello" |
| HttpClient.ParseGarbage | httpclient.py:79-84 | "garbage" has the body "" and makes `get_code` fail with IndexError |
| HttpClient.ParseTwoBlankLines | httpclient.py:81 | a reply with two blank lines has as body only the text between them |
| HttpClient.DecodeReply | httpclient.py:111 | a decoded reply re-encodes to exactly the received bytes; a failed decode is UnicodeDecodeError |
| HttpClient.DecodeReplyOfEncode | httpclient.py:111 | received bytes that are the UTF-8 encoding of a text decode to that text |
| HttpClient.Outcome | httpclient.py:114-160 | an unreachable peer ends the call with exit; a reachable peer whose bytes are not UTF-8 ends it with UnicodeDecodeError; a reachable peer whose bytes encode a text gives that text parsed into code and body, however the bytes are segmented |
| HttpClient.NotFoundExchange | httpclient.py:114-160 | end to end, a server that replies `HTTP/1.1 404 Not Found`, blank line, `nope`, in any segmentation, yields code 404 and body "nope" |
| HttpClient.NotFoundInOneSegment | httpclient.py:114-160 | the same reply delivered as one segment yields code 404 and body "nope" |
| HttpClient.CallOrderUnreachable | httpclient.py:54-62 | against an unreachable peer the only socket call is the connect |
| HttpClient.CallOrder | httpclient.py:135-148 | against a reachable peer the calls are: connect to the host and port; one sendall of the whole encoded request; then every recv of `recvall`, the last of them the empty one |
| HttpClient.CallOrderClose | httpclient.py:148-154 | after the reads, close is the last call when the reply decodes, and there is no close when decoding raises first |
| HttpClient.HTTPClient.Connect | httpclient.py:43-64 | a fresh socket facing the peer becomes `self.socket`; its trace is one connect to the host on the defaulted port; it is returned exactly when the peer is reachable, and exit is the result otherwise |
| HttpClient.HTTPClient.SendAll | httpclient.py:86-90 | the socket's sent bytes grow by exactly the UTF-8 encoding of the data and one sendall call is appended to its trace; its stream and status are unchanged |
| HttpClient.HTTPClient.Close | httpclient.py:92-96 | the socket is closed, and its stream and sent bytes are unchanged |
| HttpClient.HTTPClient.RecvAll | httpclient.py:99-111 | the result is the decoding of every byte the peer delivers, in order; the loop stops at the first empty read with nothing left unread; the recv calls are exactly the reads `Sockets.Reads` describes |
| HttpClient.HTTPClient.Get | httpclient.py:114-160 | `args` defaults to None; the result is `Outcome(peer)`; the socket received exactly the encoded GET request for the host and the defaulted path (nothing when unreachable); the call trace is `CallTrace` for that request; the socket ends unconnected when the peer is unreachable, still connected when decoding raised before the close, and closed otherwise, with nothing left unread from a reachable peer |
| HttpClient.HTTPClient.Post | httpclient.py:162-212 | `args` defaults to None; the result is `Outcome(peer)`; the socket received exactly the encoded POST request carrying the URL-encoded arguments; the call trace is `CallTrace` for that request; the final socket status and the drained stream are as for GET |
| HttpClient.HTTPClient.Command | httpclient.py:248-252 | the command defaults to "GET" and `args` to None; the result is `Outcome(peer)`; what the socket received, its call trace, its final status and its drained stream are those of the request `command` selects |
| Sockets.RecvStep | httpclient.py:105 | one `recv(bufsize)` returns an empty part exactly when no byte is left; otherwise it returns at most `bufsize` bytes, which together with what remains make up the stream as it was |
| Sockets.Reads | httpclient.py:103-110 | the successive reads end with exactly one empty read; together they are the whole stream, in order |
| Sockets.ReadsBounded | httpclient.py:105 | every read before the last, empty one holds between 1 and `bufsize` bytes |
| Sockets.ReadAdvance | httpclient.py:104-110 | one more `recv` keeps the reading loop's account: the reads so far and the reads still to come make up all of them, and an empty part means all have been made and nothing is left |
| Sockets.ReadsOfSegment | httpclient.py:105 | a segment no longer than the buffer takes one read; one longer than the buffer, up to twice its size, takes two reads, split at `bufsize` |
| Sockets.Socket.constructor | httpclient.py:54 | a new unconnected socket facing the peer, with nothing sent and an empty trace |
| Sockets.Socket.Connect | httpclient.py:55 | it succeeds exactly when the peer is reachable and then becomes connected; a connect is appended to the trace |
| Sockets.Socket.SendAll | httpclient.py:90 | every byte goes out, in order, appended to what was sent before |
| Sockets.Socket.Recv | httpclient.py:105 | the part and the new stream are those of `RecvStep` |
| Sockets.Socket.Close | httpclient.py:96 | the socket is closed and a close is appended to the trace |
| Strings.Split | httpclient.py:81 | the pieces joined with the separator give back the text; no piece contains the separator; there is a single piece exactly when the separator does not occur; every cut is at the leftmost occurrence of the separator in the text that remains |
| Strings.SplitUnique | httpclient.py:81 | the contract of `Split` determines its result: any pieces that join to the text, whose last piece lacks the separator and whose cuts are all leftmost, are the pieces of `split` |
| Strings.Words | httpclient.py:71 | every word of `split()` is non-empty and free of whitespace |
| Strings.WordsOfWord | httpclient.py:71 | a word followed by whitespace or by the end of the text is the first word |
| Strings.WordsAfterSpace | httpclient.py:71 | leading whitespace does not change the words |
| Strings.ParseInt | httpclient.py:71 | `int()` succeeds exactly on a digit run with an optional sign (single underscores between digits); the sign decides the sign of the value; `str()` of its magnitude is the token without sign, underscores and leading zeros |
| Strings.ParseNatToString | httpclient.py:190 | `int(str(n)) == n`, so the `Content-Length` header reads back as the length written |
| Strings.NatToString | httpclient.py:190 | `str(n)` is a non-empty run of digits without a leading zero |
| Utf8.DecodeEncode | httpclient.py:111 | decoding the encoding of any text gives that text |
| Utf8.Encode | httpclient.py:90 | a text encodes to between one and four bytes per character; an ASCII text to one byte per character, each equal to its code point |
| Utf8.Decode | httpclient.py:111 | bytes that decode are exactly the encoding of the decoded text |
| Utf8.EncodeChar | httpclient.py:90 | each character encodes to one to four bytes, a single byte exactly for ASCII, with continuation bytes after the first |
| FormEncoding.UrlEncode | httpclient.py:176 | the encoded form is form text (safe characters, '+', '%', '=' and '&') and URL-decodes back to the exact sequence of pairs |
| FormEncoding.UnquotePlusQuotePlus | httpclient.py:176 | unquoting undoes `quote_plus` on every text |
| FormEncoding.QuotePlus | httpclient.py:176 | `quote_plus` output holds only always-safe characters, '+' and '%', and every '%' is followed by two upper-case hex digits |
| FormEncoding.QuoteBytesSafe | httpclient.py:176 | text made of always-safe characters is left as it is |
| FormEncoding.UrlEncodeIsFormText | httpclient.py:176 | the encoded form is ASCII, has no CR or LF, and its UTF-8 length equals its length |
| FormEncoding.UrlEncodeExample | httpclient.py:176 | the arguments a=1, b=2 encode to exactly "a=1&b=2" |

## Left out

- `urllib.parse.urlparse` (httpclient.py:122, 170): the model takes an already parsed `ParsedUrl(hostname, port, path)`. The lemmas about where a request's headers end require a host and path without CR or LF; `urlsplit` in current CPython removes every tab, CR and LF from the URL before parsing it, so the hostname and path it yields meet that condition. The case of a URL without a host, where `hostname` is None, is not modelled.
- Real sockets, DNS and TCP: a scripted `Peer` stands for them. Errors raised by `sendall` or `recv` on a broken connection are not modelled.
- A peer that keeps the connection open: every scripted peer closes after its last segment. The model therefore cannot show `recvall` blocking forever against a keep-alive server.
- `print` diagnostics and the process exit itself: `sys.exit()` is the `Exited` result, and what follows it is not modelled.
- `get_headers` (httpclient.py:220-243): dead code that nothing calls.
- `help` and the `__main__` argument handling (httpclient.py:33-34, 254-263): command-line plumbing.
- The default arguments of `HTTPResponse` (httpclient.py:37): every construction in the client passes both the code and the body.
- `args` as a Python dict: the model takes the sequence of its items in iteration order, which is what `urlencode` walks. Values that are not strings, and the `doseq` flag, are not modelled.
- Strings.ParseInt: does not accept the non-ASCII Unicode decimal digits that Python's `int()` also reads, and does not model the ValueError CPython raises for a decimal string of more than 4300 digits (its default integer string conversion length limit). A token from `split()` has no surrounding whitespace, so that part of `int()` is not needed.
- Utf8.Encode: a Dafny `char` is a Unicode scalar value. Python strings that hold lone surrogates, which make `encode('utf-8')` raise, cannot be written.
