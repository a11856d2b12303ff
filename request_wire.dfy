/**
 * The request format parseRequest of request.go reads, written out: a request line,
 * one "Name: value" line per field, a blank line, then the body. A request that can be
 * written this way parses back to itself.
 */
module RequestWire {
  import opened Wrappers
  import opened Text
  import opened Stream
  import opened Errors
  import opened RequestLine
  import opened FieldLines
  import opened Messages
  import opened RequestParser

  /** "METHOD TARGET HTTP/1.1" and its CR LF. */
  function RequestLineText(m: string, t: string): string {
    m + " " + t + " " + Version + "\r\n"
  }

  function FieldText(f: Field): string {
    f.name + ": " + f.value + "\r\n"
  }

  function FieldsText(fs: seq<Field>): string {
    if fs == [] then "" else FieldText(fs[0]) + FieldsText(fs[1..])
  }

  function RequestText(m: string, t: string, fs: seq<Field>, body: string): string {
    RequestLineText(m, t) + FieldsText(fs) + "\r\n" + body
  }

  /** A field that survives the trip: accepted by the parser, and on one line. */
  predicate Sendable(f: Field) {
    Accepted(f) && '\n' !in f.name && '\n' !in f.value
  }

  predicate AllSendable(fs: seq<Field>) {
    forall i :: 0 <= i < |fs| ==> Sendable(fs[i])
  }

  /**
   * A request that survives the trip: a method that does not start with white space,
   * neither the method nor the target holding a space or a newline, sendable fields,
   * and a Content-Length (the last one, or 0 without one) equal to the body's length.
   */
  predicate SendableRequest(m: string, t: string, fs: seq<Field>, body: string) {
    m != [] && !IsSpace(m[0]) && ' ' !in m && ' ' !in t && '\n' !in m && '\n' !in t
    && AllSendable(fs) && LengthsValid(fs) && ContentLengthOf(fs) == |body|
  }

  /** Two texts without spaces joined by one split back at that space. */
  lemma SpaceJoinUnique(x: string, y: string, x': string, y': string)
    requires ' ' !in x && ' ' !in x' && x + " " + y == x' + " " + y'
    ensures x == x' && y == y'
  {
    var s := x + " " + y;
    assert s[|x|] == ' ' && s[|x'|] == ' ';
    assert x == s[..|x|] == x';
    assert y == s[|x| + 1..] == y';
  }

  /** Three parts, the first two without spaces, joined by spaces split back into the same parts. */
  lemma ThreePartsUnique(x: string, y: string, z: string, x': string, y': string, z': string)
    requires ' ' !in x && ' ' !in y && ' ' !in x' && ' ' !in y'
    requires x + " " + y + " " + z == x' + " " + y' + " " + z'
    ensures x == x' && y == y' && z == z'
  {
    assert x + " " + y + " " + z == x + " " + (y + " " + z);
    assert x' + " " + y' + " " + z' == x' + " " + (y' + " " + z');
    SpaceJoinUnique(x, y + " " + z, x', y' + " " + z');
    SpaceJoinUnique(y, z, y', z');
  }

  /** The request line written out, once trimmed, loses just its CR LF. */
  lemma RequestLineTrimmed(m: string, t: string)
    requires m != [] && !IsSpace(m[0])
    ensures TrimSpace(RequestLineText(m, t)) == m + " " + t + " " + Version
  {
    var b := m + " " + t + " " + Version;
    assert RequestLineText(m, t) == "" + b + "\r\n";
    assert b[0] == m[0] && b[|b| - 1] == '1';
    TrimSpaceSurrounded("", b, "\r\n");
  }

  /** Two spaces join a method and a target without spaces to the version. */
  lemma TwoSpaces(m: string, t: string)
    requires ' ' !in m && ' ' !in t
    ensures multiset(m + " " + t + " " + Version)[' '] == 2
  {
    assert multiset(m)[' '] == 0 && multiset(t)[' '] == 0;
    assert multiset(Version)[' '] == 0 by { assert ' ' !in Version; }
    assert multiset(m + " " + t + " " + Version)
        == multiset(m) + multiset(" ") + multiset(t) + multiset(" ") + multiset(Version);
  }

  /** A request line of a method and a target without spaces splits back into them. */
  lemma RequestLineSplits(m: string, t: string)
    requires ' ' !in m && ' ' !in t
    ensures ParseRequestLine(m + " " + t + " " + Version) == Success(RequestLineParts(m, t, Version))
  {
    TwoSpaces(m, t);
    var p := ParseRequestLine(m + " " + t + " " + Version).value;
    ThreePartsUnique(p.httpMethod, p.target, p.protoVersion, m, t, Version);
  }

  /** The request line written out reads back as its three parts. */
  lemma RequestLineBack(m: string, t: string)
    requires m != [] && !IsSpace(m[0]) && ' ' !in m && ' ' !in t
    ensures ParseRequestLine(TrimSpace(RequestLineText(m, t))) == Success(RequestLineParts(m, t, Version))
  {
    RequestLineTrimmed(m, t);
    RequestLineSplits(m, t);
  }

  /** A name without ':' followed by ':' cuts back into the name and the rest. */
  lemma ColonHalves(name: string, rest: string)
    requires ':' !in name
    ensures var b := name + ":" + rest;
            |name| < |b| && b[|name|] == ':' && b[..|name|] == name && ':' !in b[..|name|]
            && b[|name| + 1..] == rest
  {
  }

  /** What follows the ':' of a written field line once the line is trimmed. */
  function ValuePart(v: string): string {
    if v == "" then "" else " " + v
  }

  /** A field line written out, once trimmed: its CR LF goes, and a trailing space too when the value is empty. */
  lemma FieldTextTrimmed(f: Field)
    requires Sendable(f)
    ensures TrimSpace(FieldText(f)) == f.name + ":" + ValuePart(f.value)
  {
    var tail := if f.value == "" then " \r\n" else "\r\n";
    FieldTextShape(f);
    FieldHeadTrimmed(f);
    assert AllSpace(tail);
    TrimSpaceSurrounded("", f.name + ":" + ValuePart(f.value), tail);
  }

  /** A written field line is its trimmed form followed by white space only. */
  lemma FieldTextShape(f: Field)
    ensures FieldText(f) == "" + (f.name + ":" + ValuePart(f.value)) + (if f.value == "" then " \r\n" else "\r\n")
  {
  }

  /** The name, the ':' and the value with its leading space neither start nor end with white space. */
  lemma FieldHeadTrimmed(f: Field)
    requires Sendable(f)
    ensures var b := f.name + ":" + ValuePart(f.value); b != [] && Trimmed(b)
  {
    var b := f.name + ":" + ValuePart(f.value);
    assert b[0] == (if f.name == "" then ':' else f.name[0]);
    if f.value != "" {
      assert b[|b| - 1] == f.value[|f.value| - 1];
    }
  }

  /** The trimmed field line cuts back into the field's name and value. */
  lemma FieldLineParses(f: Field)
    requires Sendable(f)
    ensures ParseFieldLine(f.name + ":" + ValuePart(f.value)) == Success(f)
  {
    ColonHalves(f.name, ValuePart(f.value));
    FieldLineHalves(f.name + ":" + ValuePart(f.value), |f.name|);
    TrimSpaceOfTrimmed(f.name);
    if f.value != "" {
      TrimSpaceAfterSpace(f.value);
    }
  }

  /** A field line written out reads back as the field. */
  lemma FieldLineBack(f: Field)
    requires Sendable(f)
    ensures TrimSpace(FieldText(f)) != ""
    ensures ParseFieldLine(TrimSpace(FieldText(f))) == Success(f)
  {
    FieldTextTrimmed(f);
    FieldLineParses(f);
  }

  lemma AllSendableTail(fs: seq<Field>)
    requires fs != [] && AllSendable(fs)
    ensures Sendable(fs[0]) && AllSendable(fs[1..])
  {
    forall i | 0 <= i < |fs[1..]| ensures Sendable(fs[1..][i]) { assert fs[1..][i] == fs[i + 1]; }
  }

  /** A written field line ends in its only newline. */
  lemma FieldTextIsLine(f: Field)
    requires Sendable(f)
    ensures var w := FieldText(f); w != [] && w[|w| - 1] == '\n' && '\n' !in w[..|w| - 1]
  {
    var w := FieldText(f);
    assert w[..|w| - 1] == f.name + ": " + f.value + "\r";
  }

  /** Reading a written field line takes that field and goes on right after the line. */
  lemma FieldLineRead(c: Connection, pos: nat, f: Field, next: nat)
    requires Sendable(f) && next == pos + |FieldText(f)| && BytesAt(c, pos, FieldText(f))
    ensures FieldBlock(c, pos) == Prefixed([f], FieldBlock(c, next))
  {
    var l := Line(FieldText(f), next);
    FieldTextIsLine(f);
    LineAt(c, pos, l.text);
    assert LineFrom(c, pos) == Success(l);
    FieldLineBack(f);
    FieldBlockUnfold(c, pos, l, f);
  }

  /** The blank line ends the header block with no field. */
  lemma BlankLineRead(c: Connection, pos: nat)
    requires BytesAt(c, pos, "\r\n")
    ensures FieldBlock(c, pos) == Success(Block([], pos + 2))
  {
    LineAt(c, pos, "\r\n");
    assert AllSpace("\r\n");
  }

  /** The first written field line at `pos`, and the rest of the block right after it. */
  lemma FieldsTextSplit(c: Connection, pos: nat, fs: seq<Field>, next: nat)
    requires fs != [] && BytesAt(c, pos, FieldsText(fs) + "\r\n") && next == pos + |FieldText(fs[0])|
    ensures BytesAt(c, pos, FieldText(fs[0]))
    ensures BytesAt(c, next, FieldsText(fs[1..]) + "\r\n")
    ensures |FieldsText(fs)| == |FieldText(fs[0])| + |FieldsText(fs[1..])|
  {
    var w, v := FieldText(fs[0]), FieldsText(fs[1..]);
    assert FieldsText(fs) == w + v;
    SplitAfter(c, pos, next, w, v, "\r\n");
  }

  /** A field put in front of the rest of a block heads that block. */
  lemma PrefixedCons(fs: seq<Field>, r: Result<Block, ParseError>, end: nat)
    requires fs != [] && r == Success(Block(fs[1..], end))
    ensures Prefixed([fs[0]], r) == Success(Block(fs, end))
  {
    assert [fs[0]] + fs[1..] == fs;
  }

  /** The field lines written out, then the blank line, read back as the same fields; `end` is just past them. */
  lemma {:induction false} FieldBlockBack(c: Connection, pos: nat, fs: seq<Field>, end: nat)
    requires AllSendable(fs) && BytesAt(c, pos, FieldsText(fs) + "\r\n")
    requires end == pos + |FieldsText(fs)| + 2
    ensures FieldBlock(c, pos) == Success(Block(fs, end))
    decreases |fs|
  {
    if fs == [] {
      assert FieldsText(fs) + "\r\n" == "\r\n";
      BlankLineRead(c, pos);
    } else {
      var next := pos + |FieldText(fs[0])|;
      FieldsTextSplit(c, pos, fs, next);
      AllSendableTail(fs);
      FieldBlockBack(c, next, fs[1..], end);
      FieldLineRead(c, pos, fs[0], next);
      PrefixedCons(fs, FieldBlock(c, next), end);
    }
  }

  /** The request line written out at the start of a connection is its start line. */
  lemma StartLineBack(c: Connection, m: string, t: string, next: nat)
    requires m != [] && !IsSpace(m[0]) && ' ' !in m && ' ' !in t && '\n' !in m && '\n' !in t
    requires BytesAt(c, 0, RequestLineText(m, t)) && next == |RequestLineText(m, t)|
    ensures StartLineOf(c) == Success(StartLine(RequestLineParts(m, t, Version), next))
  {
    var line := RequestLineText(m, t);
    assert line[..|line| - 1] == m + " " + t + " " + Version + "\r";
    LineAt(c, 0, line);
    assert LineFrom(c, 0) == Success(Line(line, next));
    RequestLineBack(m, t);
  }

  /** The head of a written request: its request line, its fields, and the body right after the blank line. */
  lemma HeadBack(c: Connection, m: string, t: string, fs: seq<Field>, next: nat, start: nat)
    requires m != [] && !IsSpace(m[0]) && ' ' !in m && ' ' !in t && '\n' !in m && '\n' !in t
    requires AllSendable(fs)
    requires BytesAt(c, 0, RequestLineText(m, t) + (FieldsText(fs) + "\r\n"))
    requires next == |RequestLineText(m, t)| && start == next + |FieldsText(fs)| + 2
    ensures ReadHead(c) == Success(Head(RequestLineParts(m, t, Version), fs, start))
  {
    BytesAtSplit(c, 0, RequestLineText(m, t), FieldsText(fs) + "\r\n");
    assert BytesAt(c, next, FieldsText(fs) + "\r\n");
    FieldBlockBack(c, next, fs, start);
    StartLineBack(c, m, t, next);
  }

  /** The body of a written request, read whole. */
  lemma BodyBack(c: Connection, start: nat, body: string, chunk: nat)
    requires BytesAt(c, start, body) && 0 < |body| <= chunk
    ensures BodyFrom(c, start, |body|, chunk) == Success(body)
    ensures ReadChunk(c, start, |body|, chunk).count == |body|
  {
    assert c.data[start..start + |body|] + Zeros(0) == body;
  }

  /**
   * A sendable request written out, followed by anything else, parses back to that
   * request (its Fields map being the fields' values by name) when the body's one Read
   * may deliver the whole body; the reader then stands just past it.
   */
  lemma ParseRequestText(m: string, t: string, fs: seq<Field>, body: string,
                         extra: string, end: ReadError, chunk: nat)
    requires SendableRequest(m, t, fs, body) && |body| <= chunk
    ensures var c := Connection(RequestText(m, t, fs, body) + extra, end);
            Parse(c, chunk) == Success(Request(m, t, Version, |body|, Collect(fs), None, body))
            && Consumed(c, chunk) == |RequestText(m, t, fs, body)|
  {
    var c := Connection(RequestText(m, t, fs, body) + extra, end);
    var line := RequestLineText(m, t);
    var head := FieldsText(fs) + "\r\n";
    assert c.data == (line + head) + body + extra;
    var next := |line|;
    var start := next + |FieldsText(fs)| + 2;
    LaidOut(c, line + head, body, extra, start);
    HeadBack(c, m, t, fs, next, start);
    ParseFromHead(c, Head(RequestLineParts(m, t, Version), fs, start), body, chunk);
  }

  /** After a head that was read, a body of the announced length that one Read delivers completes the parse. */
  lemma ParseFromHead(c: Connection, h: Head, body: string, chunk: nat)
    requires ReadHead(c) == Success(h) && BytesAt(c, h.bodyStart, body)
    requires ContentLengthOf(h.fields) == |body| <= chunk
    ensures Parse(c, chunk) == Success(Request(h.line.httpMethod, h.line.target, h.line.protoVersion,
                                               |body|, Collect(h.fields), None, body))
    ensures Consumed(c, chunk) == h.bodyStart + |body|
  {
    ParseAfterHead(c, h, chunk);
    if |body| > 0 {
      BodyBack(c, h.bodyStart, body, chunk);
    }
  }
}
