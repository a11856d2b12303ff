# go-http: the HTTP/1.1 request parser and responder, modelled in Dafny

no-yan/go-http is a small HTTP/1.1 server written in Go. It accepts TCP connections and reads one request from each:
- the request line "METHOD TARGET VERSION";
- the field lines, up to a blank line;
- a body of Content-Length bytes.

In server.go, once the peer has sent a whole request, or closed or failed the connection, the handler answers with exactly one response and then closes the connection. The repository holds three iterations of this logic. Each is modelled in its own module:

- **request.go** has the full parser (`RequestParser`):
  - an EOF on the request line is wrapped as "Connection closed: EOF";
  - any version other than HTTP/1.1 is refused;
  - every field line's value is appended to a per-name slice;
  - the last Content-Length wins;
  - the body is read with one `Read` into a zeroed buffer of that length.
- **server.go** has the server (`Server`):
  - its own copy of parseRequest, which returns a request-line read error unwrapped and reads the body but drops it;
  - `processRequest`, which answers 200 "OK";
  - `sendErrorResponse`, which answers 500 with the error's text as the body;
  - `handleConnection`, which ties them together and closes the connection.
- **main.go** is the first iteration (`EarlyServer`):
  - there is no version check and no body;
  - the Fields map is single-valued and the FIRST line of a name wins;
  - the error and request handlers are empty;
  - `Response.Write` always writes the same bytes.
- **respoonse.go** has `Response.Write` (`ResponseWriter`): the status line, a computed Content-Length, a blank line, then the body.

Shared pieces:
- `RequestLine`: parseRequestLine, which is the same in all three files.
- `FieldLines`: the field-line loop, written as a recursive function `FieldBlock` over the connection's bytes.
- `Text`: strings.TrimSpace, Split and Cut, strconv.Atoi, and `%d`.
- `Stream`: the connection as a `Connection(data, end)` value. `end` is the error the stream reports once `data` is used up: `EOF`, or a transport error.
  - `BufferedReader` is a class whose `ReadString` and `Read` advance a position.
  - `Conn` is a class holding the bytes written and whether the connection is closed.
- `RequestWire`: the inverse of the parser. It writes a request out as text and proves that this text parses back to the same request.

How I/O and the imperative code are modelled:
- A Go byte is a `char`. Strings are `seq<char>`.
- A `Read` may deliver fewer bytes than asked. The number it delivers is the parameter `chunk`: a call returns min(chunk, buffer length, bytes left) bytes.
- Each parseRequest is a method. Its header loop is a `while` loop that updates the Fields map, the content length and the reader, with invariants tying them to `FieldBlock`.
- Each method is proved equal to a specification function (`Parse`). The lemmas about `Parse` state what the source promises.

server.go's handleConnection also answers a peer that closed before sending a line: it sends a 500 response whose body is "EOF" (`Server.ClosedPeerGetsEOF`).

## Model

| member | source | states |
|---|---|---|
| Text.TrimSpace | request.go:34 | the result has no white space at either end; it is the input with a run of white space removed from the front and one from the back; it is empty exactly when the input is all white space |
| Text.TrimSpaceIdempotent | main.go:108-110 | trimming a trimmed value again (main.go stores `TrimSpace(value)` of an already trimmed value) changes nothing |
| Text.TrimSpaceSurrounded | request.go:34 | white space around a non-empty trimmed text is exactly what TrimSpace removes |
| Text.Split | request.go:97 | strings.Split gives one more piece than there are separators; no piece holds the separator; joining the pieces with it gives the input back |
| Text.Cut | request.go:63 | strings.Cut finds the separator exactly when it occurs; then the text is before + ':' + after, with no ':' before it; otherwise before is the whole text and after is empty |
| Text.Atoi | request.go:70 | a numeral accepted by strconv.Atoi is an optional '+' or '-' followed by one or more decimal digits, and its value has the sign of the numeral |
| Text.AtoiNumeral | request.go:70 | every optional '+' or '-' followed by one or more decimal digits ("+5", "-5", "007") is accepted, with the digits' decimal value, negated after '-' |
| Text.AtoiItoa | respoonse.go:20 | the `%d` numeral of any integer reads back through Atoi as that integer |
| Stream.LineFrom | request.go:27 | ReadString('\n') returns the bytes through the FIRST newline and the reader moves past them; with no newline left it fails with the stream's end error |
| Stream.LineThrough | request.go:27 | with the first newline after the position at index i, ReadString returns exactly the bytes through i and moves just past it |
| Stream.ReadChunk | request.go:86 | one Read delivers at most the buffer length and what is left; it reports the end error only when nothing is left, and then delivers nothing |
| Stream.BufferedReader.ReadString | request.go:27 | the reader method returns exactly LineFrom at its position and moves to its end (on failure, to the end of the data) |
| Stream.BufferedReader.Read | request.go:85-86 | the reader method fills the front of the buffer with the next bytes of the stream, leaves the rest of it unchanged, and reports ReadChunk's outcome |
| Errors.MessageIdentifiesError | request.go:24-107 | two error texts (`Message`, err.Error() of each fmt.Errorf) that are equal come from the same check, with the same line, version or value, or with read errors of the same text; only a request-line read error returned unchanged is excluded, since a transport may report any text |
| RequestLine.ParseRequestLine | request.go:96-107 | it succeeds exactly when the line holds exactly two spaces, and otherwise fails with "invalid request line"; the three parts hold no space and joined with spaces give the line |
| RequestLine.TrimmedLineParts | request.go:34-35 | after TrimSpace, a parsed method is not empty and does not start with white space, and the version is not empty |
| FieldLines.ParseFieldLine | request.go:63-74 | a line without ':' fails with "field line should have separator"; a line with one fails only with an invalid Content-Length; an accepted field never has a bad Content-Length |
| FieldLines.FieldLineHalves | request.go:63-64 | the name and the value are the trimmed texts before and after the FIRST ':' (later colons stay in the value) |
| FieldLines.FieldBlock | request.go:52-80 | no Content-Length it accepts is rejected by Atoi; without a newline left it fails with "failed to read header line"; its only errors are that one, a missing ':' and an invalid length |
| FieldLines.FieldBlockEndsAtBlank | request.go:52-61 | an accepted block ends just past a line that starts at the block's start or just after a newline, is read by ReadString, and is blank once trimmed; so a block whose data ends before such a line is not accepted |
| FieldLines.CollectIsValuesNamed | request.go:76-79 | request.go's Fields has a key for exactly the names that occur, and each key holds exactly that name's values in arrival order |
| FieldLines.FirstValuesIsFirst | main.go:108-110 | main.go's Fields has a key for exactly the names that occur, and each key holds the value of the EARLIEST line of that name |
| FieldLines.FirstValuesAreHeads | main.go:108-110 | the two maps have the same keys, and main.go's value is the first element of request.go's slice |
| FieldLines.ContentLengthIsLast | request.go:69-74 | ContentLength is 0 without a Content-Length line and otherwise the Atoi value of the LAST such line |
| FieldLines.ContentLengthAtLast | request.go:69-74 | the length is the Atoi value of the field at the latest Content-Length position |
| ResponseWriter.Write | respoonse.go:18-23 | Write appends exactly `ResponseWriter.Wire(r)` (status line, Content-Length line, blank line, body) to the connection's output and leaves it open |
| ResponseWriter.WireIgnoresOtherFields | respoonse.go:18-23 | only the version, the status code, the status message and the body reach the wire |
| ResponseWriter.FindBlankLine | respoonse.go:21 | it finds the FIRST CR LF CR LF of a text, or reports that there is none |
| ResponseWriter.WireFraming | respoonse.go:19-22 | when the version and the status message hold no CR, the head ends at the first blank line, what follows is exactly the body, and the Content-Length it announces reads back as the body's length |
| RequestParser.StartLineOf | request.go:27-43 | a parsed request line has version HTTP/1.1 and ends inside the data |
| RequestParser.BodyFrom | request.go:84-90 | the body is exactly ContentLength bytes long; it fails exactly when nothing is left to read and the end error is not EOF, and then with "failed to read body" |
| RequestParser.ReadFieldLines | request.go:52-80 | the loop fails exactly when FieldBlock fails, with its error; otherwise it stops where FieldBlock ends, and Fields and ContentLength are those of the block's fields |
| RequestParser.AddField | request.go:69-79 | one accepted field line turns Fields and ContentLength into those of the fields read so far plus that line: a Content-Length line sets the length, the value is appended under its name |
| RequestParser.ReadBody | request.go:84-89 | the body read returns exactly BodyFrom and moves the reader by the number of bytes Read delivered |
| RequestParser.ReadStartLine | request.go:27-43 | the first phase fails exactly when StartLineOf fails, with its error, and otherwise stops where the line ends |
| RequestParser.ParseRequest | request.go:24-93 | parseRequest returns exactly `RequestParser.Parse` of the connection (the start line, then FieldBlock, then BodyFrom); on success the reader stands where Consumed says |
| RequestParser.ParsedRequestLine | request.go:34-43 | a parsed request has version HTTP/1.1; its three parts hold no space and joined give the trimmed first line; the method is not empty and does not start with white space |
| RequestParser.ParsedFields | request.go:52-80 | Fields holds exactly the block's names with their values in order; ContentLength is 0 without Content-Length and otherwise the last one's value |
| RequestParser.ParsedBody | request.go:84-90 | the body is empty unless ContentLength is positive, and otherwise exactly ContentLength long: the bytes Read delivered, then zero bytes; a Read that may deliver it all (ContentLength <= chunk) gives exactly the bytes after the head |
| RequestParser.ParseWithoutLine | request.go:27-33 | a connection with no newline fails with "Connection closed: EOF" when the peer closed, and otherwise with the read error itself |
| RequestParser.ParseRefusesVersion | request.go:40-43 | a request line that splits into three parts but whose version is not HTTP/1.1 fails with "unsupported protocol version" |
| RequestParser.ClosedOnlyAtStart | request.go:27-43 | "Connection closed" comes only from the first read: once a request line was read, the head fails with another error |
| RequestWire.ParseRequestText | request.go:24-93 | for a sendable request (`SendableRequest`: the method is not empty and does not start with white space; the method and the target hold no space or newline; every field has a trimmed name without ':' and without newline, a trimmed value without newline, and no Content-Length value that Atoi rejects; the Content-Length, the last one or 0 without one, equals the body's length), and when one Read may deliver the whole body (length of body <= chunk), the request written out as request line, "Name: value" lines, blank line and body, followed by anything, parses back to itself, and the reader stands just past the body |
| RequestWire.FieldBlockBack | request.go:52-80 | field lines that are all sendable (`AllSendable`: each with a trimmed name without ':' or newline, a trimmed value without newline, and no Content-Length value that Atoi rejects), written out followed by a blank line, are read back as exactly those fields, ending just past the blank line |
| RequestWire.RequestLineBack | request.go:34-43 | for a method that is not empty, does not start with white space and holds no space, and a target that holds no space, the written request line is read back as that method, target and HTTP/1.1 |
| Server.ReadStartLine | server.go:74-87 | the server's first phase returns StartLineOf's outcome, which does not wrap a read error |
| Server.ParseRequest | server.go:71-136 | the server's parseRequest returns exactly `Server.Parse` of the connection, request.go's phases with an unwrapped request-line error and an empty body |
| Server.SendErrorResponse | server.go:52-60 | appends `Wire(ErrorResponse(e))`: the 500 "Internal Server Error" response whose body is `Errors.Message(e)`, the error's text |
| Server.ProcessRequest | server.go:62-70 | appends `Wire(OkResponse)`: the 200 "OK" response with body "OK", whatever the request |
| Server.HandleConnection | server.go:39-50 | the connection gets exactly one response, that of `ReplyTo` for the parse outcome, and is then closed; since Conn.Write needs an open connection, the response is written before the Close |
| Server.OkWire | server.go:62-70 | the 200 reply is "HTTP/1.1 200 OK\r\nContent-Length: 2\r\n\r\nOK" byte for byte |
| Server.ReplyCases | server.go:39-50 | status 200 exactly when the parse succeeded, with body "OK"; otherwise 500 with the error's text |
| Server.ReplyFramed | server.go:52-70 | either reply's head, up to its first blank line, is the status line and a Content-Length line announcing the length of what follows; what follows is exactly the body, and the announced numeral reads back through Atoi as the body's length |
| Server.ParseWithoutLine | server.go:74-77 | a connection with no newline fails with the bare read error |
| Server.ClosedPeerGetsEOF | server.go:39-60 | a peer that closes before sending a line still gets "HTTP/1.1 500 Internal Server Error\r\nContent-Length: 3\r\n\r\nEOF" |
| Server.StartLineAgrees | server.go:74-87 | once a first line was read, the server's request-line phase has exactly request.go's outcome; when no line can be read, the server fails with the bare read error and request.go wraps an EOF as "Connection closed" |
| Server.AgreesWithRequestParser | server.go:71-136 | where request.go parses a request, the server parses the same request with an empty body; "Connection closed" becomes the bare read error; every other error is the same |
| EarlyServer.ReadStartLine | main.go:65-73 | main.go's first phase returns StartLineOf's outcome; it checks no version |
| EarlyServer.ReadFieldLines | main.go:82-112 | the loop fails exactly when FieldBlock fails, with its error; otherwise Fields is the first value of each name and ContentLength is that of the block |
| EarlyServer.ParseRequest | main.go:62-115 | main.go's parseRequest returns exactly `EarlyServer.Parse` of the connection, with first-value Fields and no body |
| EarlyServer.HandleConnection | main.go:50-60 | nothing is written to the connection, since both handlers, `EarlyServer.SendErrorResponse` and `EarlyServer.ProcessRequest` (main.go:117-123), are empty, and it is closed |
| EarlyServer.Write | main.go:136-141 | the four fixed writes append exactly FixedWire |
| EarlyServer.FixedWireIsOk | main.go:136-141 | the fixed bytes are what respoonse.go's writer emits for a 200 "OK" response with body "OK" |
| EarlyServer.ParsedFields | main.go:82-112 | Fields holds exactly the block's names, each with the value of its earliest line; ContentLength is 0 without Content-Length and otherwise the last one's value |
| EarlyServer.AcceptsAnyVersion | main.go:65-73 | a first line that splits into three parts starts a request whatever its version |
| EarlyServer.AgreesWithRequestParser | main.go:62-115 | where request.go parses a request, main.go parses the same method, target, version and ContentLength, with the same keys, each holding the first of request.go's values |

## Left out

- Server.Start, the accept loop, NewServer and main (server.go:16-37, main.go:22-48, main.go:143-149): they listen on a TCP socket and start a goroutine per connection. The model covers one connection's handling; concurrency and the network are not modelled.
- server/main.go is not part of this model: it is a separate program that listens on localhost:8888 and, for each connection, does one raw `conn.Read` into a 4096-byte buffer, panics on any error other than EOF, prints the bytes and closes. It does no HTTP parsing and uses none of the modelled code.
- PrintStack (request.go:109-127): runtime stack inspection and printing, not part of request handling.
- The `fmt.Println(err)` log line in handleConnection (server.go:44) and the startup messages: console output only.
- Stalled peers: a modelled stream always ends, in EOF or a transport error, so every parse finishes and HandleConnection always reaches Close. No read in the source has a deadline. A peer that sends nothing, or stops partway through a request without closing, blocks ReadString (request.go:27 and 53, server.go:74 and 97, main.go:65 and 83) or Read (request.go:86, server.go:130) forever. That connection then gets no response, and its deferred Close (server.go:40, main.go:51) never runs.
- Write errors: `conn.Write` is modelled as always succeeding. The source ignores the error that Fprintf and Write return.
- bufio internals: the reader is modelled by its contract on the bytes (ReadString up to the first newline; Read of at most `chunk` bytes), not by its 4096-byte buffer.
- Text.TrimSpace: only ASCII white space is removed; Go's strings.TrimSpace also removes Unicode white space.
- Text.Atoi: integers are unbounded, so the 64-bit range error of strconv.Atoi is not modelled, and the error text quotes the value without Go's escaping of special characters.
- The Request.Response and Response.Request pointers (request.go:20, respoonse.go:15) are `Option`s that no modelled code sets.
- Response.Fields and Response.ContentLength are never written to the wire. ResponseWriter.WireIgnoresOtherFields states this rather than modelling those fields in Write.
- RequestParser.BodyFrom: only a Read that can deliver the whole remaining length is proved to give the full body. A bufio Read that comes back short leaves zero bytes, and the model says so through `chunk` instead of modelling bufio's buffering. It also does not capture that a huge Content-Length makes `make([]byte, n)` (request.go:85, server.go:129) panic with "makeslice: len out of range" or run out of memory, which ends the server process; the model allocates any length.
- The dropped body of server.go's parseRequest is read with RequestParser.ReadBody, so it is read exactly like request.go's body; only its error matters.
