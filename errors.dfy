/** The errors the three parseRequest iterations return, and the text err.Error() gives for each. */
module Errors {
  import opened Stream

  datatype ParseError =
    | ConnectionClosed(cause: ReadError)        // request-line read hit EOF, wrapped ("Connection closed: %w")
    | RequestLineUnread(cause: ReadError)       // request-line read error returned unchanged
    | InvalidRequestLine(line: string)          // not exactly three space-separated parts
    | UnsupportedVersion(version: string)       // third part is not HTTP/1.1
    | HeaderLineUnread(cause: ReadError)        // field-line read failed before the blank line
    | MissingSeparator(line: string)            // non-blank field line without ':'
    | InvalidContentLength(value: string)       // Content-Length value rejected by strconv.Atoi
    | BodyUnread(cause: ReadError)              // body read failed with something other than EOF

  /** err.Error() of a read error: io.EOF prints as "EOF". */
  function ReadErrorText(e: ReadError): string {
    match e
    case EOF => "EOF"
    case Transport(m) => m
  }

  /** err.Error() of a parse error, as fmt.Errorf formats it. */
  function Message(e: ParseError): string
  {
    match e
    case ConnectionClosed(cause) => "Connection closed: " + ReadErrorText(cause)
    case RequestLineUnread(cause) => ReadErrorText(cause)
    case InvalidRequestLine(line) => "invalid request line: " + line
    case UnsupportedVersion(version) => "unsupported protocol version: " + version
    case HeaderLineUnread(cause) => "failed to read header line: " + ReadErrorText(cause)
    case MissingSeparator(line) => "field line should have separator ':' || " + line
    case InvalidContentLength(value) => "invalid content length: " + AtoiErrorText(value)
    case BodyUnread(cause) => "failed to read body: " + ReadErrorText(cause)
  }

  /** err.Error() of the error strconv.Atoi returns for a value that is not a number. */
  function AtoiErrorText(value: string): string {
    "strconv.Atoi: parsing \"" + value + "\": invalid syntax"
  }

  /** Which check an error comes from. */
  function Kind(e: ParseError): nat {
    match e
    case ConnectionClosed(_) => 0
    case RequestLineUnread(_) => 1
    case InvalidRequestLine(_) => 2
    case UnsupportedVersion(_) => 3
    case HeaderLineUnread(_) => 4
    case MissingSeparator(_) => 5
    case InvalidContentLength(_) => 6
    case BodyUnread(_) => 7
  }

  /** The characters at positions 0, 1, 8 and 15 of each kind's text: no two kinds share them. */
  function Tag(e: ParseError): string {
    match e
    case ConnectionClosed(_) => "Cooe"
    case RequestLineUnread(_) => ""
    case InvalidRequestLine(_) => "inr "
    case UnsupportedVersion(_) => "untt"
    case HeaderLineUnread(_) => "faoh"
    case MissingSeparator(_) => "finl"
    case InvalidContentLength(_) => "inc "
    case BodyUnread(_) => "faob"
  }

  /**
   * The text of an error tells which check failed, and with what: two errors with
   * the same text are of the same kind and carry the same line, version or value, or
   * read errors with the same text. Only a read error returned unchanged is left out,
   * since a transport may report any text at all.
   */
  lemma MessageIdentifiesError(e1: ParseError, e2: ParseError)
    requires !e1.RequestLineUnread? && !e2.RequestLineUnread? && Message(e1) == Message(e2)
    ensures Kind(e1) == Kind(e2)
    ensures (e1.InvalidRequestLine? || e1.UnsupportedVersion? || e1.MissingSeparator? || e1.InvalidContentLength?)
            ==> e1 == e2
    ensures (e1.ConnectionClosed? || e1.HeaderLineUnread? || e1.BodyUnread?)
            ==> ReadErrorText(e1.cause) == ReadErrorText(e2.cause)
  {
    MessageStartsWithTag(e1);
    MessageStartsWithTag(e2);
    TagsDiffer(e1, e2);
    match e1
    case ConnectionClosed(c) => SameAfter("Connection closed: ", ReadErrorText(c), ReadErrorText(e2.cause));
    case InvalidRequestLine(l) => SameAfter("invalid request line: ", l, e2.line);
    case UnsupportedVersion(v) => SameAfter("unsupported protocol version: ", v, e2.version);
    case HeaderLineUnread(c) => SameAfter("failed to read header line: ", ReadErrorText(c), ReadErrorText(e2.cause));
    case MissingSeparator(l) => SameAfter("field line should have separator ':' || ", l, e2.line);
    case InvalidContentLength(v) =>
      SameAfter("invalid content length: ", AtoiErrorText(v), AtoiErrorText(e2.value));
      SameAround("strconv.Atoi: parsing \"", v, e2.value, "\": invalid syntax");
    case BodyUnread(c) => SameAfter("failed to read body: ", ReadErrorText(c), ReadErrorText(e2.cause));
  }

  /** The text of e is long enough to carry a tag, and carries e's. */
  predicate ShowsTag(e: ParseError) {
    var m := Message(e); |m| >= 16 && [m[0], m[1], m[8], m[15]] == Tag(e)
  }

  /** Every text but that of a bare read error shows its kind's tag. */
  lemma MessageStartsWithTag(e: ParseError)
    requires !e.RequestLineUnread?
    ensures ShowsTag(e)
  {
    match e
    case ConnectionClosed(c) => ConnectionClosedTag(c);
    case InvalidRequestLine(l) => InvalidRequestLineTag(l);
    case UnsupportedVersion(v) => UnsupportedVersionTag(v);
    case HeaderLineUnread(c) => HeaderLineUnreadTag(c);
    case MissingSeparator(l) => MissingSeparatorTag(l);
    case InvalidContentLength(v) => InvalidContentLengthTag(v);
    case BodyUnread(c) => BodyUnreadTag(c);
  }

  // One lemma per kind: the fixed opening of its text holds the tag.

  lemma ConnectionClosedTag(c: ReadError)
    ensures ShowsTag(ConnectionClosed(c))
  {
    Marks("Connection closed: ", ReadErrorText(c));
  }

  lemma InvalidRequestLineTag(l: string)
    ensures ShowsTag(InvalidRequestLine(l))
  {
    Marks("invalid request line: ", l);
  }

  lemma UnsupportedVersionTag(v: string)
    ensures ShowsTag(UnsupportedVersion(v))
  {
    Marks("unsupported protocol version: ", v);
  }

  lemma HeaderLineUnreadTag(c: ReadError)
    ensures ShowsTag(HeaderLineUnread(c))
  {
    Marks("failed to read header line: ", ReadErrorText(c));
  }

  lemma MissingSeparatorTag(l: string)
    ensures ShowsTag(MissingSeparator(l))
  {
    Marks("field line should have separator ':' || ", l);
  }

  lemma InvalidContentLengthTag(v: string)
    ensures ShowsTag(InvalidContentLength(v))
  {
    Marks("invalid content length: ", AtoiErrorText(v));
  }

  lemma BodyUnreadTag(c: ReadError)
    ensures ShowsTag(BodyUnread(c))
  {
    Marks("failed to read body: ", ReadErrorText(c));
  }

  /** The marked characters of a text lie in its fixed opening. */
  lemma Marks(p: string, x: string)
    requires |p| >= 16
    ensures var m := p + x; |m| >= 16 && [m[0], m[1], m[8], m[15]] == [p[0], p[1], p[8], p[15]]
  {
  }

  /** No two kinds share a tag. */
  lemma TagsDiffer(e1: ParseError, e2: ParseError)
    requires !e1.RequestLineUnread? && !e2.RequestLineUnread? && Tag(e1) == Tag(e2)
    ensures Kind(e1) == Kind(e2)
  {
    var t1, t2 := Tag(e1), Tag(e2);
    assert t1[0] == t2[0] && t1[1] == t2[1] && t1[2] == t2[2] && t1[3] == t2[3];
  }

  lemma SameAfter(p: string, x: string, y: string)
    requires p + x == p + y
    ensures x == y
  {
    assert x == (p + x)[|p|..];
    assert y == (p + y)[|p|..];
  }

  lemma SameAround(p: string, x: string, y: string, q: string)
    requires p + x + q == p + y + q
    ensures x == y
  {
    assert x == (p + x + q)[|p|..|p| + |x|];
    assert y == (p + y + q)[|p|..|p| + |y|];
  }
}
