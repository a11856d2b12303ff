/**
 * parseRequest of request.go: read the request line, insist on HTTP/1.1, read field
 * lines up to the blank line into a multi-valued map, then read a body of
 * Content-Length bytes. Every error ends the parse.
 */
module RequestParser {
  import opened Wrappers
  import opened Text
  import opened Stream
  import opened Errors
  import opened RequestLine
  import opened FieldLines
  import opened Messages

  /** The only protocol version the parser lets through. */
  const Version: string := "HTTP/1.1"

  /** Everything before the body: the request line's parts, the field lines, and where the body starts. */
  datatype Head = Head(line: RequestLineParts, fields: seq<Field>, bodyStart: nat)

  /** The request line's parts and where the field lines start. */
  datatype StartLine = StartLine(parts: RequestLineParts, next: nat)

  /**
   * The request line, trimmed, split and checked for HTTP/1.1. An EOF on this first
   * read is wrapped as "Connection closed"; any other error there is returned as it is.
   */
  function StartLineOf(c: Connection): (r: Result<StartLine, ParseError>)
    ensures r.Success? ==> r.value.next <= |c.data| && r.value.parts.protoVersion == Version
  {
    match LineFrom(c, 0)
    case Failure(e) => if e == EOF then Failure(ConnectionClosed(e)) else Failure(RequestLineUnread(e))
    case Success(l) =>
      match ParseRequestLine(TrimSpace(l.text))
      case Failure(e) => Failure(e)
      case Success(p) =>
        if p.protoVersion != Version then Failure(UnsupportedVersion(p.protoVersion))
        else Success(StartLine(p, l.next))
  }

  /** The request line and the header block. */
  function ReadHead(c: Connection): (r: Result<Head, ParseError>)
    ensures r.Success? ==> r.value.bodyStart <= |c.data| && LengthsValid(r.value.fields)
                           && AllAccepted(r.value.fields) && r.value.line.protoVersion == Version
  {
    match StartLineOf(c)
    case Failure(e) => Failure(e)
    case Success(s) =>
      match FieldBlock(c, s.next)
      case Failure(e) => Failure(e)
      case Success(b) => Success(Head(s.parts, b.fields, b.next))
  }

  /**
   * The body read at `pos` for a positive ContentLength `n`: a buffer of `n` zero bytes
   * whose front one Read filled (it may deliver fewer bytes). Only a read error other
   * than EOF fails, and only when nothing at all is left to read.
   */
  function BodyFrom(c: Connection, pos: nat, n: nat, chunk: nat): (r: Result<string, ParseError>)
    requires pos <= |c.data| && n > 0
    ensures r.Failure? <==> pos == |c.data| && c.end != EOF
    ensures r.Failure? ==> r.error == BodyUnread(c.end)
    ensures r.Success? ==> |r.value| == n
  {
    var rd := ReadChunk(c, pos, n, chunk);
    if rd.err.Some? && rd.err.value != EOF then Failure(BodyUnread(rd.err.value))
    else Success(c.data[pos..pos + rd.count] + Zeros(n - rd.count))
  }

  /** The body: empty unless ContentLength is positive. */
  function BodyOf(c: Connection, h: Head, chunk: nat): Result<string, ParseError>
    requires h.bodyStart <= |c.data| && LengthsValid(h.fields)
  {
    var n := ContentLengthOf(h.fields);
    if n <= 0 then Success("") else BodyFrom(c, h.bodyStart, n, chunk)
  }

  /** What parseRequest returns for the bytes of `c`, when the body's Read delivers `chunk` bytes. */
  function Parse(c: Connection, chunk: nat): Result<Request, ParseError>
  {
    match ReadHead(c)
    case Failure(e) => Failure(e)
    case Success(h) =>
      match BodyOf(c, h, chunk)
      case Failure(e) => Failure(e)
      case Success(body) =>
        Success(Request(h.line.httpMethod, h.line.target, h.line.protoVersion,
                        ContentLengthOf(h.fields), Collect(h.fields), None, body))
  }

  /** How far the parser's reader got in a parse that succeeded. */
  ghost function Consumed(c: Connection, chunk: nat): nat
  {
    match ReadHead(c)
    case Failure(_) => 0
    case Success(h) =>
      if ContentLengthOf(h.fields) <= 0 then h.bodyStart
      else h.bodyStart + ReadChunk(c, h.bodyStart, ContentLengthOf(h.fields), chunk).count
  }

  /**
   * The header loop of parseRequest: read lines until one is blank once trimmed,
   * cut each at its first ':', keep Content-Length's Atoi value (the last one wins)
   * and append every value to its name's slice in Fields. `seen` lists the fields read.
   */
  method ReadFieldLines(reader: BufferedReader)
    returns (err: Option<ParseError>, fields: map<string, seq<string>>, contentLength: int, ghost seen: seq<Field>)
    requires reader.Valid()
    modifies reader
    ensures reader.Valid()
    ensures FieldBlock(reader.conn, old(reader.pos)).Failure? <==> err.Some?
    ensures err.Some? ==> err.value == FieldBlock(reader.conn, old(reader.pos)).error
    ensures err.None? ==> FieldBlock(reader.conn, old(reader.pos)) == Success(Block(seen, reader.pos))
    ensures err.None? ==> LengthsValid(seen) && fields == Collect(seen) && contentLength == ContentLengthOf(seen)
  {
    ghost var c := reader.conn;
    ghost var start := reader.pos;
    fields, contentLength, seen := map[], 0, [];
    PrefixedEmpty(FieldBlock(c, start));
    while true
      invariant reader.Valid() && reader.conn == c && start <= |c.data|
      invariant LengthsValid(seen) && fields == Collect(seen) && contentLength == ContentLengthOf(seen)
      invariant FieldBlock(c, start) == Prefixed(seen, FieldBlock(c, reader.pos))
      decreases |c.data| - reader.pos
    {
      ghost var before := reader.pos;
      var line := reader.ReadString();
      if line.Failure? {
        return Some(HeaderLineUnread(line.error)), fields, contentLength, seen;
      }
      ghost var l := LineFrom(c, before).value;
      var text := TrimSpace(line.value);
      if text == "" {
        FieldBlockBlank(c, before, l);
        assert seen + [] == seen;
        return None, fields, contentLength, seen;
      }
      var parsed := ParseFieldLine(text);
      if parsed.Failure? {
        FieldBlockRejects(c, before, l);
        return Some(parsed.error), fields, contentLength, seen;
      }
      var f := parsed.value;
      fields, contentLength := AddField(fields, contentLength, f, seen);
      FieldBlockStep(c, before, seen, l, f);
      seen := seen + [f];
    }
  }

  /**
   * One field line's effect on parseRequest's locals: a Content-Length value replaces
   * the length kept so far, and the value is appended to its name's slice, which is
   * created empty first if the name is new.
   */
  method AddField(fields: map<string, seq<string>>, contentLength: int, f: Field, ghost seen: seq<Field>)
    returns (fields': map<string, seq<string>>, contentLength': int)
    requires LengthsValid(seen) && !BadLength(f)
    requires fields == Collect(seen) && contentLength == ContentLengthOf(seen)
    ensures LengthsValid(seen + [f])
    ensures fields' == Collect(seen + [f]) && contentLength' == ContentLengthOf(seen + [f])
  {
    fields', contentLength' := fields, contentLength;
    if f.name == ContentLengthName {
      contentLength' := Atoi(f.value).value;
    }
    if f.name !in fields' {
      fields' := fields'[f.name := []];
    }
    fields' := fields'[f.name := fields'[f.name] + [f.value]];
    CollectSnoc(seen, f);
    ContentLengthSnoc(seen, f);
  }

  /**
   * The body step of parseRequest: with a positive length, one Read into a fresh
   * buffer of `n` zero bytes; a read error other than EOF fails.
   */
  method ReadBody(reader: BufferedReader, n: nat, chunk: nat) returns (r: Result<string, ParseError>)
    requires reader.Valid() && n > 0
    modifies reader
    ensures reader.Valid()
    ensures reader.pos == old(reader.pos) + ReadChunk(reader.conn, old(reader.pos), n, chunk).count
    ensures r == BodyFrom(reader.conn, old(reader.pos), n, chunk)
  {
    var buf := new char[n](_ => '\0');
    assert buf[..] == Zeros(n);
    var count, err := reader.Read(buf, chunk);
    if err.Some? && err.value != EOF {
      return Failure(BodyUnread(err.value));
    }
    assert Zeros(n)[count..] == Zeros(n - count);
    r := Success(buf[..]);
  }

  /** The first step of parseRequest: read the request line, split it, check the version. */
  method ReadStartLine(reader: BufferedReader) returns (r: Result<RequestLineParts, ParseError>)
    requires reader.Valid() && reader.pos == 0
    modifies reader
    ensures reader.Valid()
    ensures StartLineOf(reader.conn).Failure? <==> r.Failure?
    ensures r.Failure? ==> r.error == StartLineOf(reader.conn).error
    ensures r.Success? ==> StartLineOf(reader.conn) == Success(StartLine(r.value, reader.pos))
  {
    var requestLine := reader.ReadString();
    if requestLine.Failure? {
      if requestLine.error == EOF {
        return Failure(ConnectionClosed(requestLine.error));
      }
      return Failure(RequestLineUnread(requestLine.error));
    }
    var parts := ParseRequestLine(TrimSpace(requestLine.value));
    if parts.Failure? {
      return Failure(parts.error);
    }
    var p := parts.value;
    if p.protoVersion != Version {
      return Failure(UnsupportedVersion(p.protoVersion));
    }
    r := Success(p);
  }

  /** "Connection closed" comes only from the first read; once a line was read, the head fails otherwise. */
  lemma ClosedOnlyAtStart(c: Connection)
    requires LineFrom(c, 0).Success? && ReadHead(c).Failure?
    ensures !ReadHead(c).error.ConnectionClosed?
  {
    if StartLineOf(c).Failure? {
      StartLineNotClosed(c);
      assert ReadHead(c).error == StartLineOf(c).error;
    } else {
      assert ReadHead(c).error == FieldBlock(c, StartLineOf(c).value.next).error;
    }
  }

  /** A request line that was read fails to parse or has the wrong version, but is never "Connection closed". */
  lemma StartLineNotClosed(c: Connection)
    requires LineFrom(c, 0).Success? && StartLineOf(c).Failure?
    ensures !StartLineOf(c).error.ConnectionClosed?
  {
    var p := ParseRequestLine(TrimSpace(LineFrom(c, 0).value.text));
    if p.Failure? {
      assert StartLineOf(c).error == p.error;
    } else {
      assert StartLineOf(c).error == UnsupportedVersion(p.value.protoVersion);
    }
  }

  /** A parse whose head failed fails with the same error. */
  lemma ParseHeadFailure(c: Connection, chunk: nat)
    requires ReadHead(c).Failure?
    ensures Parse(c, chunk) == Failure(ReadHead(c).error)
  {
  }

  /** A parse whose head was read goes on to the body. */
  lemma ParseAfterHead(c: Connection, h: Head, chunk: nat)
    requires ReadHead(c) == Success(h)
    ensures Parse(c, chunk) == match BodyOf(c, h, chunk)
      case Failure(e) => Failure(e)
      case Success(body) =>
        Success(Request(h.line.httpMethod, h.line.target, h.line.protoVersion,
                        ContentLengthOf(h.fields), Collect(h.fields), None, body))
    ensures Consumed(c, chunk) == if ContentLengthOf(h.fields) <= 0 then h.bodyStart
                                 else h.bodyStart + ReadChunk(c, h.bodyStart, ContentLengthOf(h.fields), chunk).count
  {
  }

  /**
   * parseRequest(conn) of request.go. `consumed` is where its reader stands at the end.
   */
  method ParseRequest(conn: Conn, chunk: nat) returns (r: Result<Request, ParseError>, ghost consumed: nat)
    ensures r == Parse(conn.incoming, chunk)
    ensures r.Success? ==> consumed == Consumed(conn.incoming, chunk)
  {
    consumed := 0;
    ghost var c := conn.incoming;
    var reader := new BufferedReader(conn.incoming);
    var parts := ReadStartLine(reader);
    if parts.Failure? {
      ParseHeadFailure(c, chunk);
      return Failure(parts.error), 0;
    }
    var p := parts.value;
    var err, fields, contentLength, seen := ReadFieldLines(reader);
    if err.Some? {
      ParseHeadFailure(c, chunk);
      return Failure(err.value), 0;
    }
    ghost var h := Head(p, seen, reader.pos);
    ParseAfterHead(c, h, chunk);
    var body := "";
    consumed := reader.pos;
    if contentLength > 0 {
      var b := ReadBody(reader, contentLength, chunk);
      if b.Failure? {
        return Failure(b.error), 0;
      }
      body := b.value;
      consumed := reader.pos;
    }
    r := Success(Request(p.httpMethod, p.target, p.protoVersion, contentLength, fields, None, body));
  }

  /**
   * A request that parses came on an HTTP/1.1 request line: its three parts hold no
   * space and put back together they give the first line, trimmed; the method is not
   * empty and does not start with white space.
   */
  lemma ParsedRequestLine(c: Connection, chunk: nat)
    requires Parse(c, chunk).Success?
    ensures LineFrom(c, 0).Success?
    ensures var q := Parse(c, chunk).value;
            q.protoVersion == Version
            && q.httpMethod + " " + q.target + " " + q.protoVersion == TrimSpace(LineFrom(c, 0).value.text)
            && ' ' !in q.httpMethod && ' ' !in q.target
            && q.httpMethod != [] && !IsSpace(q.httpMethod[0])
  {
    StartLineOfParse(c, chunk);
    StartLineFacts(c);
  }

  /** A parse that succeeded carries the request line's parts unchanged. */
  lemma StartLineOfParse(c: Connection, chunk: nat)
    requires Parse(c, chunk).Success?
    ensures StartLineOf(c).Success?
    ensures var q, p := Parse(c, chunk).value, StartLineOf(c).value.parts;
            q.httpMethod == p.httpMethod && q.target == p.target && q.protoVersion == p.protoVersion
  {
    assert ReadHead(c).Success?;
  }

  /** The parts of an accepted request line: HTTP/1.1, no spaces, joined they give the trimmed line. */
  lemma StartLineFacts(c: Connection)
    requires StartLineOf(c).Success?
    ensures LineFrom(c, 0).Success?
    ensures var p := StartLineOf(c).value.parts;
            p.protoVersion == Version
            && p.httpMethod + " " + p.target + " " + p.protoVersion == TrimSpace(LineFrom(c, 0).value.text)
            && ' ' !in p.httpMethod && ' ' !in p.target
            && p.httpMethod != [] && !IsSpace(p.httpMethod[0])
  {
    TrimmedLineParts(TrimSpace(LineFrom(c, 0).value.text));
  }

  /**
   * The Fields map of a parsed request holds exactly the names of the header block's
   * field lines, each with its values in arrival order; ContentLength is 0 without a
   * Content-Length field and otherwise the Atoi value of the LAST one.
   */
  lemma ParsedFields(c: Connection, chunk: nat)
    requires Parse(c, chunk).Success?
    ensures ReadHead(c).Success?
    ensures var q := Parse(c, chunk).value;
            var fs := ReadHead(c).value.fields;
            AllAccepted(fs)
            && (forall name :: name in q.fields <==> Named(fs, name))
            && (forall name :: name in q.fields ==> q.fields[name] == ValuesNamed(fs, name))
            && (!Named(fs, ContentLengthName) ==> q.contentLength == 0)
            && (forall j :: LastLength(fs, j) ==> Atoi(fs[j].value) == Some(q.contentLength))
  {
    var fs := ReadHead(c).value.fields;
    forall name | true
      ensures name in Collect(fs) <==> Named(fs, name)
      ensures name in Collect(fs) ==> Collect(fs)[name] == ValuesNamed(fs, name)
    {
      CollectIsValuesNamed(fs, name);
    }
    ContentLengthIsLast(fs);
  }

  /** `body` starts with the `got` bytes of `data` at `start`, and the rest of it is zero bytes. */
  predicate FilledFrom(body: string, data: string, start: nat, got: nat) {
    got <= |body| && start + got <= |data|
    && (forall i :: 0 <= i < got ==> body[i] == data[start + i])
    && (forall i :: got <= i < |body| ==> body[i] == '\0')
  }

  /**
   * The body buffer: the bytes one Read delivered, then zero bytes; a Read that
   * may deliver the whole length when that much is there delivers all of it.
   */
  lemma BodyFromBytes(c: Connection, pos: nat, n: nat, chunk: nat)
    requires pos <= |c.data| && n > 0 && BodyFrom(c, pos, n, chunk).Success?
    ensures FilledFrom(BodyFrom(c, pos, n, chunk).value, c.data, pos, ReadChunk(c, pos, n, chunk).count)
    ensures pos + n <= |c.data| && n <= chunk ==> ReadChunk(c, pos, n, chunk).count == n
  {
    var got := ReadChunk(c, pos, n, chunk).count;
    var b := BodyFrom(c, pos, n, chunk).value;
    assert b == c.data[pos..pos + got] + Zeros(n - got);
    assert forall i :: got <= i < n ==> b[i] == Zeros(n - got)[i - got];
  }

  /**
   * A parsed body is empty unless ContentLength is positive, and otherwise exactly
   * ContentLength bytes long: the bytes one Read delivered, then zero bytes. A Read
   * that may deliver the whole length gives exactly the bytes after the header block.
   */
  lemma ParsedBody(c: Connection, chunk: nat)
    requires Parse(c, chunk).Success?
    ensures ReadHead(c).Success?
    ensures var q := Parse(c, chunk).value;
            var start := ReadHead(c).value.bodyStart;
            start <= Consumed(c, chunk) <= |c.data|
            && (q.contentLength <= 0 ==> q.body == "" && Consumed(c, chunk) == start)
            && (q.contentLength > 0 ==>
                  |q.body| == q.contentLength
                  && FilledFrom(q.body, c.data, start, Consumed(c, chunk) - start)
                  && (start + q.contentLength <= |c.data| && q.contentLength <= chunk ==>
                        Consumed(c, chunk) == start + q.contentLength))
  {
    var h := ReadHead(c).value;
    ParseAfterHead(c, h, chunk);
    var n := ContentLengthOf(h.fields);
    if n > 0 {
      BodyFromBytes(c, h.bodyStart, n, chunk);
    }
  }

  /** A connection without a newline fails on its request line: "Connection closed: EOF" when the peer closed. */
  lemma ParseWithoutLine(c: Connection, chunk: nat)
    requires '\n' !in c.data
    ensures Parse(c, chunk) == Failure(if c.end == EOF then ConnectionClosed(EOF) else RequestLineUnread(c.end))
  {
    assert c.data[0..] == c.data;
  }

  /** A request line that splits into three parts but whose version is not HTTP/1.1 is refused with that version. */
  lemma ParseRefusesVersion(c: Connection, chunk: nat)
    requires LineFrom(c, 0).Success? && ParseRequestLine(TrimSpace(LineFrom(c, 0).value.text)).Success?
    requires ParseRequestLine(TrimSpace(LineFrom(c, 0).value.text)).value.protoVersion != Version
    ensures Parse(c, chunk) == Failure(UnsupportedVersion(ParseRequestLine(TrimSpace(LineFrom(c, 0).value.text)).value.protoVersion))
  {
  }
}
