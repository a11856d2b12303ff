/**
 * The Server of server.go: one connection is parsed with the server's own
 * parseRequest, answered with a fixed 200 "OK" or with a 500 whose body is the
 * parse error's text, and then closed.
 */
module Server {
  import opened Wrappers
  import opened Text
  import opened Stream
  import opened Errors
  import opened RequestLine
  import opened FieldLines
  import opened Messages
  import opened ResponseWriter
  import RequestParser

  /**
   * The server's request line: unlike request.go, a failed read is returned as it
   * is, so an EOF is not wrapped as "Connection closed".
   */
  function StartLineOf(c: Connection): (r: Result<RequestParser.StartLine, ParseError>)
    ensures r.Success? ==> r.value.next <= |c.data| && r.value.parts.protoVersion == RequestParser.Version
  {
    match LineFrom(c, 0)
    case Failure(e) => Failure(RequestLineUnread(e))
    case Success(l) =>
      match ParseRequestLine(TrimSpace(l.text))
      case Failure(e) => Failure(e)
      case Success(p) =>
        if p.protoVersion != RequestParser.Version then Failure(UnsupportedVersion(p.protoVersion))
        else Success(RequestParser.StartLine(p, l.next))
  }

  function ReadHead(c: Connection): (r: Result<RequestParser.Head, ParseError>)
    ensures r.Success? ==> r.value.bodyStart <= |c.data| && LengthsValid(r.value.fields)
  {
    match StartLineOf(c)
    case Failure(e) => Failure(e)
    case Success(s) =>
      match FieldBlock(c, s.next)
      case Failure(e) => Failure(e)
      case Success(b) => Success(RequestParser.Head(s.parts, b.fields, b.next))
  }

  /**
   * What the server's parseRequest returns: the head as request.go reads it; the body
   * is read when ContentLength is positive, and only its error counts. The request's
   * Body stays empty.
   */
  function Parse(c: Connection, chunk: nat): Result<Request, ParseError>
  {
    match ReadHead(c)
    case Failure(e) => Failure(e)
    case Success(h) =>
      var n := ContentLengthOf(h.fields);
      if n > 0 && RequestParser.BodyFrom(c, h.bodyStart, n, chunk).Failure? then
        Failure(RequestParser.BodyFrom(c, h.bodyStart, n, chunk).error)
      else
        Success(Request(h.line.httpMethod, h.line.target, h.line.protoVersion, n, Collect(h.fields), None, ""))
  }

  /** sendErrorResponse's response: 500, the error's text as the body. */
  function ErrorResponse(e: ParseError): Response {
    Response(500, "Internal Server Error", map[], Message(e), "HTTP/1.1", 0, None)
  }

  /** processRequest's response, whatever the request. */
  const OkResponse: Response := Response(200, "OK", map[], "OK", "HTTP/1.1", 0, None)

  /** The response handleConnection picks for a parse outcome. */
  function ReplyTo(p: Result<Request, ParseError>): Response {
    match p
    case Failure(e) => ErrorResponse(e)
    case Success(_) => OkResponse
  }

  /** The one response a connection gets. */
  function Reply(c: Connection, chunk: nat): Response {
    ReplyTo(Parse(c, chunk))
  }

  /** The server's first step: read the request line, split it, check the version. */
  method ReadStartLine(reader: BufferedReader) returns (r: Result<RequestLineParts, ParseError>)
    requires reader.Valid() && reader.pos == 0
    modifies reader
    ensures reader.Valid()
    ensures StartLineOf(reader.conn).Failure? <==> r.Failure?
    ensures r.Failure? ==> r.error == StartLineOf(reader.conn).error
    ensures r.Success? ==> StartLineOf(reader.conn) == Success(RequestParser.StartLine(r.value, reader.pos))
  {
    var requestLine := reader.ReadString();
    if requestLine.Failure? {
      return Failure(RequestLineUnread(requestLine.error));
    }
    var parts := ParseRequestLine(TrimSpace(requestLine.value));
    if parts.Failure? {
      return Failure(parts.error);
    }
    var p := parts.value;
    if p.protoVersion != RequestParser.Version {
      return Failure(UnsupportedVersion(p.protoVersion));
    }
    r := Success(p);
  }

  lemma ParseHeadFailure(c: Connection, chunk: nat)
    requires ReadHead(c).Failure?
    ensures Parse(c, chunk) == Failure(ReadHead(c).error)
  {
  }

  lemma ParseAfterHead(c: Connection, h: RequestParser.Head, chunk: nat)
    requires ReadHead(c) == Success(h)
    ensures var n := ContentLengthOf(h.fields);
            Parse(c, chunk) ==
              if n > 0 && RequestParser.BodyFrom(c, h.bodyStart, n, chunk).Failure? then
                Failure(RequestParser.BodyFrom(c, h.bodyStart, n, chunk).error)
              else
                Success(Request(h.line.httpMethod, h.line.target, h.line.protoVersion, n, Collect(h.fields), None, ""))
  {
  }

  /**
   * parseRequest(conn) of server.go: the header loop is the one of request.go; the
   * body is read into a buffer that is then dropped.
   */
  method ParseRequest(conn: Conn, chunk: nat) returns (r: Result<Request, ParseError>)
    ensures r == Parse(conn.incoming, chunk)
  {
    ghost var c := conn.incoming;
    var reader := new BufferedReader(conn.incoming);
    var parts := ReadStartLine(reader);
    if parts.Failure? {
      ParseHeadFailure(c, chunk);
      return Failure(parts.error);
    }
    var p := parts.value;
    var err, fields, contentLength, seen := RequestParser.ReadFieldLines(reader);
    if err.Some? {
      ParseHeadFailure(c, chunk);
      return Failure(err.value);
    }
    ghost var h := RequestParser.Head(p, seen, reader.pos);
    ParseAfterHead(c, h, chunk);
    if contentLength > 0 {
      var b := RequestParser.ReadBody(reader, contentLength, chunk);
      if b.Failure? {
        return Failure(b.error);
      }
    }
    r := Success(Request(p.httpMethod, p.target, p.protoVersion, contentLength, fields, None, ""));
  }

  /** sendErrorResponse: writes the 500 response for `e`. */
  method SendErrorResponse(conn: Conn, e: ParseError)
    requires !conn.closed
    modifies conn
    ensures conn.sent == old(conn.sent) + Wire(ErrorResponse(e)) && conn.closed == old(conn.closed)
  {
    var res := Response(500, "Internal Server Error", map[], Message(e), "HTTP/1.1", 0, None);
    Write(res, conn);
  }

  /** processRequest: writes the 200 "OK" response; the request is not looked at. */
  method ProcessRequest(conn: Conn, req: Request)
    requires !conn.closed
    modifies conn
    ensures conn.sent == old(conn.sent) + Wire(OkResponse) && conn.closed == old(conn.closed)
  {
    var r := Response(200, "OK", map[], "OK", "HTTP/1.1", 0, None);
    Write(r, conn);
  }

  /** handleConnection: parse, answer with exactly one response, close (the deferred Close runs on both paths). */
  method HandleConnection(conn: Conn, chunk: nat)
    requires !conn.closed
    modifies conn
    ensures conn.sent == old(conn.sent) + Wire(Reply(conn.incoming, chunk))
    ensures conn.closed
  {
    var req := ParseRequest(conn, chunk);
    if req.Failure? {
      SendErrorResponse(conn, req.error);
      conn.Close();
      return;
    }
    ProcessRequest(conn, req.value);
    conn.Close();
  }

  /** `%d` (Text.Itoa) of a three-digit number is its three digits, most significant first. */
  lemma ThreeDigits(n: nat, a: nat, b: nat, c: nat)
    requires a < 10 && b < 10 && c < 10 && 1 <= a && n == 100 * a + 10 * b + c
    ensures Itoa(n) == [DigitChar(a), DigitChar(b), DigitChar(c)]
  {
    assert NatToDigits(n / 10 / 10) == [DigitChar(a)];
    assert NatToDigits(n / 10) == NatToDigits(n / 10 / 10) + [DigitChar(b)];
  }

  /** A Content-Length line for a body of fewer than ten bytes. */
  lemma OneDigitLength(n: nat)
    requires n < 10
    ensures LengthLine(n) == "Content-Length: " + [DigitChar(n)] + "\r\n"
  {
  }

  /** The 200 response processRequest writes, byte for byte. */
  lemma OkWire()
    ensures Wire(OkResponse) == "HTTP/1.1 200 OK\r\nContent-Length: 2\r\n\r\nOK"
  {
    OkStatusLine();
    OneDigitLength(2);
    assert Wire(OkResponse) == "HTTP/1.1 200 OK\r\n" + "Content-Length: 2\r\n" + "\r\n" + "OK";
    OkWireLiteral();
  }

  lemma OkWireLiteral()
    ensures "HTTP/1.1 200 OK\r\n" + "Content-Length: 2\r\n" + "\r\n" + "OK" == "HTTP/1.1 200 OK\r\nContent-Length: 2\r\n\r\nOK"
  {
  }

  lemma OkStatusLine()
    ensures StatusLine(OkResponse) == "HTTP/1.1 200 OK\r\n"
  {
    ThreeDigits(200, 2, 0, 0);
  }

  /**
   * A connection gets status 200 exactly when the server's parse succeeds, with body
   * "OK"; otherwise status 500 with the error's text as the body.
   */
  lemma ReplyCases(p: Result<Request, ParseError>)
    ensures ReplyTo(p).statusCode == 200 <==> p.Success?
    ensures p.Success? ==> ReplyTo(p).body == "OK"
    ensures p.Failure? ==> ReplyTo(p).statusCode == 500 && ReplyTo(p).body == Message(p.error)
  {
  }

  /**
   * Either reply is framed: its body is exactly what follows the head's first blank
   * line, and Content-Length announces the length of that.
   */
  lemma ReplyFramed(p: Result<Request, ParseError>)
    ensures FindBlankLine(Wire(ReplyTo(p))).Some?
    ensures var w := Wire(ReplyTo(p));
            var k := FindBlankLine(w).value;
            w[..k + 4] == StatusLine(ReplyTo(p)) + LengthLine(|w[k + 4..]|) + "\r\n"
            && w[k + 4..] == ReplyTo(p).body
            && Atoi(Itoa(|w[k + 4..]|)) == Some(|ReplyTo(p).body|)
  {
    ReplyHeadWithoutCR(p);
    WireFraming(ReplyTo(p));
  }

  lemma ReplyHeadWithoutCR(p: Result<Request, ParseError>)
    ensures '\r' !in ReplyTo(p).protoVersion && '\r' !in ReplyTo(p).statusMessage
  {
    if p.Success? {
      assert ReplyTo(p) == OkResponse;
    } else {
      assert ReplyTo(p) == ErrorResponse(p.error);
    }
  }

  /** A connection without a newline fails on its request line with the reader's own error. */
  lemma ParseWithoutLine(c: Connection, chunk: nat)
    requires '\n' !in c.data
    ensures Parse(c, chunk) == Failure(RequestLineUnread(c.end))
  {
    assert c.data[0..] == c.data;
  }

  /** The 500 response for a bare EOF, byte for byte. */
  lemma EOFWire()
    ensures Wire(ErrorResponse(RequestLineUnread(EOF))) == "HTTP/1.1 500 Internal Server Error\r\nContent-Length: 3\r\n\r\nEOF"
  {
    var r := ErrorResponse(RequestLineUnread(EOF));
    assert r.body == "EOF";
    ErrorStatusLine(r);
    OneDigitLength(3);
    assert Wire(r) == "HTTP/1.1 500 Internal Server Error\r\n" + "Content-Length: 3\r\n" + "\r\n" + "EOF";
    EOFWireLiteral();
  }

  lemma EOFWireLiteral()
    ensures "HTTP/1.1 500 Internal Server Error\r\n" + "Content-Length: 3\r\n" + "\r\n" + "EOF"
            == "HTTP/1.1 500 Internal Server Error\r\nContent-Length: 3\r\n\r\nEOF"
  {
  }

  lemma ErrorStatusLine(r: Response)
    requires r.protoVersion == "HTTP/1.1" && r.statusCode == 500 && r.statusMessage == "Internal Server Error"
    ensures StatusLine(r) == "HTTP/1.1 500 Internal Server Error\r\n"
  {
    Itoa500();
    assert StatusLine(r) == "HTTP/1.1" + " " + "500" + " " + "Internal Server Error" + "\r\n";
  }

  lemma Itoa500()
    ensures Itoa(500) == "500"
  {
    ThreeDigits(500, 5, 0, 0);
  }

  /**
   * A peer that closes without sending a full line is not closed on silently: it is
   * answered with a 500 whose body is "EOF".
   */
  lemma ClosedPeerGetsEOF(c: Connection, chunk: nat)
    requires '\n' !in c.data && c.end == EOF
    ensures Wire(Reply(c, chunk)) == "HTTP/1.1 500 Internal Server Error\r\nContent-Length: 3\r\n\r\nEOF"
  {
    ParseWithoutLine(c, chunk);
    EOFWire();
  }

  /**
   * The server's request line agrees with request.go's once a line was read; when none
   * could be, request.go wraps an EOF as "Connection closed" and the server does not.
   */
  lemma StartLineAgrees(c: Connection)
    ensures LineFrom(c, 0).Success? ==> StartLineOf(c) == RequestParser.StartLineOf(c)
    ensures LineFrom(c, 0).Failure? ==>
              var e := LineFrom(c, 0).error;
              StartLineOf(c) == Failure(RequestLineUnread(e))
              && RequestParser.StartLineOf(c) == Failure(if e == EOF then ConnectionClosed(e) else RequestLineUnread(e))
  {
  }

  /** Past the request line the two heads are read alike. */
  lemma ReadHeadAgrees(c: Connection)
    ensures RequestParser.StartLineOf(c).Success? ==> ReadHead(c) == RequestParser.ReadHead(c)
    ensures RequestParser.StartLineOf(c).Failure? ==>
              RequestParser.ReadHead(c) == Failure(RequestParser.StartLineOf(c).error)
              && ReadHead(c) == Failure(StartLineOf(c).error)
  {
    StartLineAgrees(c);
  }

  /** With the same head, the two parses differ only in the body they keep. */
  lemma ParseAgreesAfterHead(c: Connection, h: RequestParser.Head, chunk: nat)
    requires ReadHead(c) == Success(h) && RequestParser.ReadHead(c) == Success(h)
    ensures var q := RequestParser.Parse(c, chunk);
            (q.Success? ==> Parse(c, chunk) == Success(q.value.(body := "")))
            && (q.Failure? ==> Parse(c, chunk) == q && !q.error.ConnectionClosed?)
  {
    RequestParser.ParseAfterHead(c, h, chunk);
    ParseAfterHead(c, h, chunk);
  }

  /** A head that request.go cannot read fails here with the same error, or with a bare EOF for "Connection closed". */
  lemma ParseAgreesOnHeadFailure(c: Connection, chunk: nat)
    requires RequestParser.ReadHead(c).Failure?
    ensures var e := RequestParser.ReadHead(c).error;
            RequestParser.Parse(c, chunk) == Failure(e)
            && Parse(c, chunk) == Failure(if e.ConnectionClosed? then RequestLineUnread(e.cause) else e)
  {
    StartLineAgrees(c);
    ReadHeadAgrees(c);
    RequestParser.ParseHeadFailure(c, chunk);
    if LineFrom(c, 0).Failure? {
      assert ReadHead(c) == Failure(RequestLineUnread(LineFrom(c, 0).error));
    } else {
      assert ReadHead(c) == RequestParser.ReadHead(c);
      RequestParser.ClosedOnlyAtStart(c);
    }
    ParseHeadFailure(c, chunk);
  }

  /**
   * server.go's parseRequest against request.go's: a request that parses there parses
   * here too, with the same parts and fields but an empty Body; "Connection closed: EOF"
   * there is a bare EOF here; every other error is the same.
   */
  lemma AgreesWithRequestParser(c: Connection, chunk: nat)
    ensures var q := RequestParser.Parse(c, chunk);
            (q.Success? ==> Parse(c, chunk) == Success(q.value.(body := "")))
            && (q.Failure? && q.error.ConnectionClosed? ==> Parse(c, chunk) == Failure(RequestLineUnread(q.error.cause)))
            && (q.Failure? && !q.error.ConnectionClosed? ==> Parse(c, chunk) == q)
  {
    if RequestParser.ReadHead(c).Success? {
      ReadHeadAgrees(c);
      ParseAgreesAfterHead(c, RequestParser.ReadHead(c).value, chunk);
    } else {
      ParseAgreesOnHeadFailure(c, chunk);
    }
  }
}
