/**
 * The first iteration, main.go: the same request line and field-line loop, but no
 * protocol-version check, a single-valued Fields map in which the first field line
 * of a name wins, no body, empty error and request handlers, and a Response whose
 * Write always puts the same 200 "OK" on the wire.
 */
module EarlyServer {
  import opened Wrappers
  import opened Text
  import opened Stream
  import opened Errors
  import opened RequestLine
  import opened FieldLines
  import RequestParser
  import Messages
  import ResponseWriter
  import Server

  /** main.go's Request: no Body and no Response pointer; one value per field name. */
  datatype Request = Request(
    httpMethod: string,
    target: string,
    protoVersion: string,
    contentLength: int,
    fields: map<string, string>)

  /** main.go's Response has no fields at all. */
  datatype Response = Response

  /** The request line, trimmed and split; a read error is returned as it is and any version passes. */
  function StartLineOf(c: Connection): (r: Result<RequestParser.StartLine, ParseError>)
    ensures r.Success? ==> r.value.next <= |c.data|
  {
    match LineFrom(c, 0)
    case Failure(e) => Failure(RequestLineUnread(e))
    case Success(l) =>
      match ParseRequestLine(TrimSpace(l.text))
      case Failure(e) => Failure(e)
      case Success(p) => Success(RequestParser.StartLine(p, l.next))
  }

  function ReadHead(c: Connection): (r: Result<RequestParser.Head, ParseError>)
    ensures r.Success? ==> LengthsValid(r.value.fields)
  {
    match StartLineOf(c)
    case Failure(e) => Failure(e)
    case Success(s) =>
      match FieldBlock(c, s.next)
      case Failure(e) => Failure(e)
      case Success(b) => Success(RequestParser.Head(s.parts, b.fields, b.next))
  }

  /** What main.go's parseRequest returns: nothing past the blank line is read. */
  function Parse(c: Connection): Result<Request, ParseError>
  {
    match ReadHead(c)
    case Failure(e) => Failure(e)
    case Success(h) =>
      Success(Request(h.line.httpMethod, h.line.target, h.line.protoVersion,
                      ContentLengthOf(h.fields), FirstValues(h.fields)))
  }

  method ReadStartLine(reader: BufferedReader) returns (r: Result<RequestLineParts, ParseError>)
    requires reader.Valid() && reader.pos == 0
    modifies reader
    ensures reader.Valid()
    ensures StartLineOf(reader.conn).Failure? <==> r.Failure?
    ensures r.Failure? ==> r.error == StartLineOf(reader.conn).error
    ensures r.Success? ==> StartLineOf(reader.conn) == Success(RequestParser.StartLine(r.value, reader.pos))
  {
    var requestLine := reader.ReadString();
    if requestLine.Failure? {
      return Failure(RequestLineUnread(requestLine.error));
    }
    r := ParseRequestLine(TrimSpace(requestLine.value));
  }

  /**
   * The header loop of main.go: as in request.go, except that a name's value is stored
   * (trimmed once more) only when the name is not in Fields yet.
   */
  method ReadFieldLines(reader: BufferedReader)
    returns (err: Option<ParseError>, fields: map<string, string>, contentLength: int, ghost seen: seq<Field>)
    requires reader.Valid()
    modifies reader
    ensures reader.Valid()
    ensures FieldBlock(reader.conn, old(reader.pos)).Failure? <==> err.Some?
    ensures err.Some? ==> err.value == FieldBlock(reader.conn, old(reader.pos)).error
    ensures err.None? ==> FieldBlock(reader.conn, old(reader.pos)) == Success(Block(seen, reader.pos))
    ensures err.None? ==> LengthsValid(seen) && fields == FirstValues(seen) && contentLength == ContentLengthOf(seen)
  {
    ghost var c := reader.conn;
    ghost var start := reader.pos;
    fields, contentLength, seen := map[], 0, [];
    PrefixedEmpty(FieldBlock(c, start));
    while true
      invariant reader.Valid() && reader.conn == c && start <= |c.data|
      invariant LengthsValid(seen) && fields == FirstValues(seen) && contentLength == ContentLengthOf(seen)
      invariant FieldBlock(c, start) == Prefixed(seen, FieldBlock(c, reader.pos))
      decreases |c.data| - reader.pos
    {
      ghost var before := reader.pos;
      var line := reader.ReadString();
      if line.Failure? {
        return Some(HeaderLineUnread(line.error)), fields, contentLength, seen;
      }
      ghost var l := LineFrom(c, before).value;
      var text := TrimSpace(line.value);
      if text == "" {
        assert FieldBlock(c, before) == Success(Block([], reader.pos));
        assert seen + [] == seen;
        return None, fields, contentLength, seen;
      }
      var parsed := ParseFieldLine(text);
      if parsed.Failure? {
        return Some(parsed.error), fields, contentLength, seen;
      }
      var f := parsed.value;
      if f.name == ContentLengthName {
        contentLength := Atoi(f.value).value;
      }
      if f.name !in fields {
        TrimSpaceOfTrimmed(f.value);
        fields := fields[f.name := TrimSpace(f.value)];
      }
      FieldBlockStep(c, before, seen, l, f);
      FirstValuesSnoc(seen, f);
      ContentLengthSnoc(seen, f);
      seen := seen + [f];
    }
  }

  lemma ParseHeadFailure(c: Connection)
    requires ReadHead(c).Failure?
    ensures Parse(c) == Failure(ReadHead(c).error)
  {
  }

  lemma ParseAfterHead(c: Connection, h: RequestParser.Head)
    requires ReadHead(c) == Success(h)
    ensures Parse(c) == Success(Request(h.line.httpMethod, h.line.target, h.line.protoVersion,
                                        ContentLengthOf(h.fields), FirstValues(h.fields)))
  {
  }

  /** parseRequest(conn) of main.go. */
  method ParseRequest(conn: Conn) returns (r: Result<Request, ParseError>)
    ensures r == Parse(conn.incoming)
  {
    ghost var c := conn.incoming;
    var reader := new BufferedReader(conn.incoming);
    var parts := ReadStartLine(reader);
    if parts.Failure? {
      ParseHeadFailure(c);
      return Failure(parts.error);
    }
    var p := parts.value;
    var err, fields, contentLength, seen := ReadFieldLines(reader);
    if err.Some? {
      ParseHeadFailure(c);
      return Failure(err.value);
    }
    ParseAfterHead(c, RequestParser.Head(p, seen, reader.pos));
    r := Success(Request(p.httpMethod, p.target, p.protoVersion, contentLength, fields));
  }

  /** sendErrorResponse of main.go has an empty body. */
  method SendErrorResponse(conn: Conn, e: ParseError)
  {
  }

  /** processRequest of main.go has an empty body. */
  method ProcessRequest(conn: Conn, req: Request)
  {
  }

  /** handleConnection of main.go: parse, hand the outcome to an empty handler, close. Nothing is written. */
  method HandleConnection(conn: Conn)
    modifies conn
    ensures conn.sent == old(conn.sent) && conn.closed
  {
    var req := ParseRequest(conn);
    if req.Failure? {
      SendErrorResponse(conn, req.error);
      conn.Close();
      return;
    }
    ProcessRequest(conn, req.value);
    conn.Close();
  }

  /** The four writes of main.go's Response.Write, whatever the response. */
  const FixedWire: string := "HTTP/1.1 200 OK\r\n" + "Content-Length: 2\r\n" + "\r\n" + "OK"

  method Write(r: Response, w: Conn)
    requires !w.closed
    modifies w
    ensures w.sent == old(w.sent) + FixedWire && w.closed == old(w.closed)
  {
    w.Write("HTTP/1.1 200 OK\r\n");
    w.Write("Content-Length: 2\r\n");
    w.Write("\r\n");
    w.Write("OK");
  }

  /** The fixed bytes are what respoonse.go's computed writer emits for a 200 "OK" response. */
  lemma FixedWireIsOk()
    ensures FixedWire == ResponseWriter.Wire(Messages.Response(200, "OK", map[], "OK", "HTTP/1.1", 0, None))
  {
    Server.OkWire();
    Server.OkWireLiteral();
  }

  /**
   * The Fields map of a parsed request holds exactly the names of the header block's
   * field lines, each with the value of its EARLIEST line; ContentLength is 0 without
   * a Content-Length field and otherwise the Atoi value of the last one.
   */
  lemma ParsedFields(c: Connection)
    requires Parse(c).Success?
    ensures ReadHead(c).Success?
    ensures var q := Parse(c).value;
            var fs := ReadHead(c).value.fields;
            AllAccepted(fs)
            && (forall name :: name in q.fields <==> Named(fs, name))
            && (forall name, j :: FirstNamed(fs, name, j) ==> q.fields[name] == fs[j].value)
            && (!Named(fs, ContentLengthName) ==> q.contentLength == 0)
            && (forall j :: LastLength(fs, j) ==> Atoi(fs[j].value) == Some(q.contentLength))
  {
    var fs := ReadHead(c).value.fields;
    forall name | true
      ensures name in FirstValues(fs) <==> Named(fs, name)
      ensures forall j :: FirstNamed(fs, name, j) ==> FirstValues(fs)[name] == fs[j].value
    {
      FirstValuesIsFirst(fs, name);
    }
    ContentLengthIsLast(fs);
  }

  /**
   * Any version passes: a first line that splits into three parts starts a request
   * whatever its third part says, where request.go refuses all but HTTP/1.1.
   */
  lemma AcceptsAnyVersion(c: Connection)
    requires LineFrom(c, 0).Success? && ParseRequestLine(TrimSpace(LineFrom(c, 0).value.text)).Success?
    ensures StartLineOf(c).Success?
    ensures StartLineOf(c).value.parts == ParseRequestLine(TrimSpace(LineFrom(c, 0).value.text)).value
  {
  }

  /**
   * main.go against request.go: where request.go parses a head, main.go parses the
   * same head, and its single value for each name is the first of request.go's values.
   */
  lemma AgreesWithRequestParser(c: Connection, chunk: nat)
    requires RequestParser.Parse(c, chunk).Success?
    ensures Parse(c).Success?
    ensures var q := RequestParser.Parse(c, chunk).value;
            var e := Parse(c).value;
            e.httpMethod == q.httpMethod && e.target == q.target && e.protoVersion == q.protoVersion
            && e.contentLength == q.contentLength
            && (forall name :: name in e.fields <==> name in q.fields)
            && (forall name :: name in q.fields ==> q.fields[name] != [] && e.fields[name] == q.fields[name][0])
  {
    var h := RequestParser.ReadHead(c).value;
    HeadAgrees(c);
    RequestParser.ParseAfterHead(c, h, chunk);
    ParseAfterHead(c, h);
    forall name | true
      ensures name in FirstValues(h.fields) <==> name in Collect(h.fields)
      ensures name in Collect(h.fields) ==>
                Collect(h.fields)[name] != [] && FirstValues(h.fields)[name] == Collect(h.fields)[name][0]
    {
      FirstValuesAreHeads(h.fields, name);
    }
  }

  /** A head request.go reads is read the same way here. */
  lemma HeadAgrees(c: Connection)
    requires RequestParser.ReadHead(c).Success?
    ensures ReadHead(c) == RequestParser.ReadHead(c)
  {
    assert StartLineOf(c) == RequestParser.StartLineOf(c);
  }
}
