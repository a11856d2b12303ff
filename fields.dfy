/**
 * Field lines ("Name: Value") and the header block they form, as the parser loop of
 * every iteration reads them: cut at the first ':', trim both halves, stop at the
 * first line that is blank once trimmed.
 */
module FieldLines {
  import opened Wrappers
  import opened Text
  import opened Stream
  import opened Errors

  datatype Field = Field(name: string, value: string)

  /** The field name the parser matches, byte for byte and case-sensitively. */
  const ContentLengthName: string := "Content-Length"

  /** A Content-Length field whose value strconv.Atoi rejects. */
  predicate BadLength(f: Field) {
    f.name == ContentLengthName && Atoi(f.value).None?
  }

  /** What a field that the parser accepted looks like. */
  predicate Accepted(f: Field) {
    Trimmed(f.name) && Trimmed(f.value) && ':' !in f.name && !BadLength(f)
  }

  predicate AllAccepted(fs: seq<Field>) {
    forall i :: 0 <= i < |fs| ==> Accepted(fs[i])
  }

  /**
   * One non-blank trimmed field line: fails without a ':'; otherwise the name and value
   * are the trimmed text before and after the FIRST ':' (so the value may hold more
   * colons), and a Content-Length value must pass strconv.Atoi.
   */
  function ParseFieldLine(line: string): (r: Result<Field, ParseError>)
    ensures ':' !in line <==> r == Failure(MissingSeparator(line))
    ensures r.Success? ==> Accepted(r.value)
    ensures r.Failure? && ':' in line ==> r.error.InvalidContentLength?
  {
    var cut := Cut(line, ':');
    if !cut.found then Failure(MissingSeparator(line))
    else
      var name, value := TrimSpace(cut.before), TrimSpace(cut.after);
      if name == ContentLengthName && Atoi(value).None? then Failure(InvalidContentLength(value))
      else
        NoColonInTrim(cut.before);
        Success(Field(name, value))
  }

  lemma NoColonInTrim(s: string)
    requires ':' !in s
    ensures ':' !in TrimSpace(s)
  {
    var t := TrimSpace(s);
    forall k | 0 <= k < |t| ensures t[k] != ':' {
      assert t[k] == s[Lead(s) + k];
    }
  }

  /**
   * The halves ParseFieldLine works on: with k the index of the FIRST ':' of the line,
   * the name is the trimmed text before k and the value the trimmed text after it, colons
   * included; only a Content-Length value that strconv.Atoi rejects turns this into an error.
   */
  lemma {:induction false} FieldLineHalves(line: string, k: nat)
    requires k < |line| && line[k] == ':' && ':' !in line[..k]
    ensures var f := Field(TrimSpace(line[..k]), TrimSpace(line[k + 1..]));
            ParseFieldLine(line) == if BadLength(f) then Failure(InvalidContentLength(f.value)) else Success(f)
  {
    FirstIndexUnique(line, ':', k);
  }

  /** The field lines of one header block, and the position just past its blank line. */
  datatype Block = Block(fields: seq<Field>, next: nat)

  /**
   * The header loop from `pos`: read a line (a read error fails the parse), trim it,
   * stop at a blank one, otherwise parse it as a field line and go on.
   */
  function FieldBlock(c: Connection, pos: nat): (r: Result<Block, ParseError>)
    requires pos <= |c.data|
    ensures r.Success? ==> pos < r.value.next <= |c.data| && AllAccepted(r.value.fields)
    ensures r.Success? ==> LengthsValid(r.value.fields)
    ensures '\n' !in c.data[pos..] ==> r == Failure(HeaderLineUnread(c.end))
    ensures r.Failure? ==> r.error.HeaderLineUnread? || r.error.MissingSeparator? || r.error.InvalidContentLength?
    decreases |c.data| - pos
  {
    match LineFrom(c, pos)
    case Failure(e) => Failure(HeaderLineUnread(e))
    case Success(l) =>
      var line := TrimSpace(l.text);
      if line == "" then Success(Block([], l.next))
      else
        match ParseFieldLine(line)
        case Failure(e) => Failure(e)
        case Success(f) =>
          match FieldBlock(c, l.next)
          case Failure(e) => Failure(e)
          case Success(b) =>
            AllAcceptedCons(f, b.fields);
            Success(Block([f] + b.fields, b.next))
  }

  /** Puts the fields already read in front of the outcome of reading the rest. */
  function Prefixed(acc: seq<Field>, r: Result<Block, ParseError>): Result<Block, ParseError> {
    match r
    case Failure(e) => Failure(e)
    case Success(b) => Success(Block(acc + b.fields, b.next))
  }

  lemma AllAcceptedCons(f: Field, fs: seq<Field>)
    requires Accepted(f) && AllAccepted(fs)
    ensures AllAccepted([f] + fs)
  {
    forall i | 0 <= i < |[f] + fs| ensures Accepted(([f] + fs)[i]) {
      if i > 0 { assert ([f] + fs)[i] == fs[i - 1]; }
    }
  }

  /** The loop's step: reading one more field line moves it from the outcome into the prefix. */
  lemma FieldBlockStep(c: Connection, pos: nat, acc: seq<Field>, l: Line, f: Field)
    requires pos <= |c.data| && LineFrom(c, pos) == Success(l)
    requires TrimSpace(l.text) != "" && ParseFieldLine(TrimSpace(l.text)) == Success(f)
    ensures Prefixed(acc, FieldBlock(c, pos)) == Prefixed(acc + [f], FieldBlock(c, l.next))
  {
    FieldBlockUnfold(c, pos, l, f);
    PrefixedAssoc(acc, f, FieldBlock(c, l.next));
  }

  /**
   * A block that was read ends just past a line that is blank once trimmed; so a
   * connection that runs out before such a line fails the header loop.
   */
  lemma {:induction false} FieldBlockEndsAtBlank(c: Connection, pos: nat)
    requires pos <= |c.data| && FieldBlock(c, pos).Success?
    ensures var next := FieldBlock(c, pos).value.next;
            exists p :: pos <= p < next && (p == pos || c.data[p - 1] == '\n')
                        && LineFrom(c, p) == Success(Line(c.data[p..next], next))
                        && TrimSpace(c.data[p..next]) == ""
    decreases |c.data| - pos
  {
    var next := FieldBlock(c, pos).value.next;
    var l := LineFrom(c, pos).value;
    if TrimSpace(l.text) == "" {
      assert next == l.next;
      assert LineFrom(c, pos) == Success(Line(c.data[pos..next], next));
    } else {
      var f := ParseFieldLine(TrimSpace(l.text)).value;
      FieldBlockUnfold(c, pos, l, f);
      FieldBlockEndsAtBlank(c, l.next);
    }
  }

  /** A line blank once trimmed ends the block just after it. */
  lemma FieldBlockBlank(c: Connection, pos: nat, l: Line)
    requires pos <= |c.data| && LineFrom(c, pos) == Success(l) && TrimSpace(l.text) == ""
    ensures FieldBlock(c, pos) == Success(Block([], l.next))
  {
  }

  /** A non-blank line that does not parse ends the block with its error. */
  lemma FieldBlockRejects(c: Connection, pos: nat, l: Line)
    requires pos <= |c.data| && LineFrom(c, pos) == Success(l) && TrimSpace(l.text) != ""
    requires ParseFieldLine(TrimSpace(l.text)).Failure?
    ensures FieldBlock(c, pos) == Failure(ParseFieldLine(TrimSpace(l.text)).error)
  {
  }

  lemma FieldBlockUnfold(c: Connection, pos: nat, l: Line, f: Field)
    requires pos <= |c.data| && LineFrom(c, pos) == Success(l)
    requires TrimSpace(l.text) != "" && ParseFieldLine(TrimSpace(l.text)) == Success(f)
    ensures FieldBlock(c, pos) == Prefixed([f], FieldBlock(c, l.next))
  {
  }

  lemma PrefixedAssoc(acc: seq<Field>, f: Field, r: Result<Block, ParseError>)
    ensures Prefixed(acc, Prefixed([f], r)) == Prefixed(acc + [f], r)
  {
    if r.Success? {
      assert acc + ([f] + r.value.fields) == acc + [f] + r.value.fields;
    }
  }

  lemma PrefixedEmpty(r: Result<Block, ParseError>)
    ensures Prefixed([], r) == r
  {
    if r.Success? { assert [] + r.value.fields == r.value.fields; }
  }

  /** request.go's Fields map: each name to the values seen for it, appended in arrival order. */
  function Collect(fs: seq<Field>): map<string, seq<string>>
  {
    if fs == [] then map[]
    else
      var m := Collect(fs[..|fs| - 1]);
      var f := fs[|fs| - 1];
      var m' := if f.name !in m then m[f.name := []] else m;
      m'[f.name := m'[f.name] + [f.value]]
  }

  /** One more field: its name gets an empty slice if it had none, then the value is appended. */
  lemma CollectSnoc(fs: seq<Field>, f: Field)
    ensures var m := Collect(fs);
            var m' := if f.name !in m then m[f.name := []] else m;
            Collect(fs + [f]) == m'[f.name := m'[f.name] + [f.value]]
  {
    assert (fs + [f])[..|fs|] == fs;
  }

  /** The values of the fields called `name`, in order: a filter, independent of any map. */
  function ValuesNamed(fs: seq<Field>, name: string): seq<string>
  {
    if fs == [] then []
    else ValuesNamed(fs[..|fs| - 1], name) + (if fs[|fs| - 1].name == name then [fs[|fs| - 1].value] else [])
  }

  predicate Named(fs: seq<Field>, name: string) {
    exists i :: 0 <= i < |fs| && fs[i].name == name
  }

  lemma {:induction false} NamedPrefix(fs: seq<Field>, name: string)
    requires fs != []
    ensures Named(fs, name) <==> Named(fs[..|fs| - 1], name) || fs[|fs| - 1].name == name
  {
    var p := fs[..|fs| - 1];
    if Named(p, name) {
      var i :| 0 <= i < |p| && p[i].name == name;
      assert fs[i] == p[i];
    }
    if Named(fs, name) && fs[|fs| - 1].name != name {
      var i :| 0 <= i < |fs| && fs[i].name == name;
      assert p[i] == fs[i];
    }
  }

  /**
   * The map has a key for exactly the names that occur, and each key holds exactly the
   * values of that name in arrival order, Content-Length included.
   */
  lemma {:induction false} CollectIsValuesNamed(fs: seq<Field>, name: string)
    ensures name in Collect(fs) <==> Named(fs, name)
    ensures name in Collect(fs) ==> Collect(fs)[name] == ValuesNamed(fs, name)
  {
    if fs != [] {
      CollectIsValuesNamed(fs[..|fs| - 1], name);
      NamedPrefix(fs, name);
      if !Named(fs[..|fs| - 1], name) {
        ValuesNamedAbsent(fs[..|fs| - 1], name);
      }
    }
  }

  lemma {:induction false} ValuesNamedAbsent(fs: seq<Field>, name: string)
    requires !Named(fs, name)
    ensures ValuesNamed(fs, name) == []
  {
    if fs != [] {
      NamedPrefix(fs, name);
      ValuesNamedAbsent(fs[..|fs| - 1], name);
    }
  }

  /** main.go's Fields map: each name to the value of its first field line; later duplicates are dropped. */
  function FirstValues(fs: seq<Field>): map<string, string>
  {
    if fs == [] then map[]
    else
      var m := FirstValues(fs[..|fs| - 1]);
      var f := fs[|fs| - 1];
      if f.name !in m then m[f.name := f.value] else m
  }

  /** `j` is the earliest position of a field called `name`. */
  predicate FirstNamed(fs: seq<Field>, name: string, j: int) {
    0 <= j < |fs| && fs[j].name == name && forall k :: 0 <= k < j ==> fs[k].name != name
  }

  /** The key set is the set of names seen, and each key holds the value of the EARLIEST field of that name. */
  lemma {:induction false} FirstValuesIsFirst(fs: seq<Field>, name: string)
    ensures name in FirstValues(fs) <==> Named(fs, name)
    ensures forall j :: FirstNamed(fs, name, j) ==> FirstValues(fs)[name] == fs[j].value
  {
    if fs != [] {
      var p := fs[..|fs| - 1];
      FirstValuesIsFirst(p, name);
      NamedPrefix(fs, name);
      forall j | FirstNamed(fs, name, j) ensures FirstValues(fs)[name] == fs[j].value {
        if j < |p| {
          assert fs[j] == p[j];
          assert FirstNamed(p, name, j) by {
            forall k | 0 <= k < j ensures p[k].name != name { assert p[k] == fs[k]; }
          }
        } else {
          assert !Named(p, name) by {
            forall i | 0 <= i < |p| ensures p[i].name != name { assert p[i] == fs[i]; }
          }
        }
      }
    }
  }

  /** One more field: it is entered only when its name is new. */
  lemma FirstValuesSnoc(fs: seq<Field>, f: Field)
    ensures FirstValues(fs + [f]) ==
              if f.name !in FirstValues(fs) then FirstValues(fs)[f.name := f.value] else FirstValues(fs)
  {
    assert (fs + [f])[..|fs|] == fs;
  }

  /** main.go's single value for a name is the first of the values request.go collects for it. */
  lemma {:induction false} FirstOfValuesNamed(fs: seq<Field>, name: string)
    requires Named(fs, name)
    ensures name in FirstValues(fs) && ValuesNamed(fs, name) != []
    ensures ValuesNamed(fs, name)[0] == FirstValues(fs)[name]
  {
    var p := fs[..|fs| - 1];
    NamedPrefix(fs, name);
    if Named(p, name) {
      FirstOfValuesNamed(p, name);
    } else {
      ValuesNamedAbsent(p, name);
      FirstValuesIsFirst(p, name);
    }
  }

  /** Against request.go's map: the same keys, and main.go's value is the first of request.go's slice. */
  lemma FirstValuesAreHeads(fs: seq<Field>, name: string)
    ensures name in FirstValues(fs) <==> name in Collect(fs)
    ensures name in Collect(fs) ==> Collect(fs)[name] != [] && FirstValues(fs)[name] == Collect(fs)[name][0]
  {
    CollectIsValuesNamed(fs, name);
    FirstValuesIsFirst(fs, name);
    if Named(fs, name) {
      FirstOfValuesNamed(fs, name);
    }
  }

  /** No Content-Length field carries a value strconv.Atoi rejects. */
  predicate LengthsValid(fs: seq<Field>) {
    forall i :: 0 <= i < |fs| ==> !BadLength(fs[i])
  }

  lemma LengthsValidPrefix(fs: seq<Field>)
    requires fs != [] && LengthsValid(fs)
    ensures LengthsValid(fs[..|fs| - 1]) && !BadLength(fs[|fs| - 1])
  {
    var p := fs[..|fs| - 1];
    forall i | 0 <= i < |p| ensures !BadLength(p[i]) { assert p[i] == fs[i]; }
  }

  lemma LengthsValidSnoc(fs: seq<Field>, f: Field)
    requires LengthsValid(fs) && !BadLength(f)
    ensures LengthsValid(fs + [f])
  {
    assert forall i :: 0 <= i < |fs| ==> (fs + [f])[i] == fs[i];
  }

  /** Content-Length as the loop leaves it: every Content-Length line overwrites it; 0 when there is none. */
  function ContentLengthOf(fs: seq<Field>): int
    requires LengthsValid(fs)
  {
    if fs == [] then 0
    else
      LengthsValidPrefix(fs);
      var f := fs[|fs| - 1];
      if f.name == ContentLengthName then Atoi(f.value).value
      else ContentLengthOf(fs[..|fs| - 1])
  }

  /** One more field: a Content-Length field sets the length, any other leaves it. */
  lemma ContentLengthSnoc(fs: seq<Field>, f: Field)
    requires LengthsValid(fs) && !BadLength(f)
    ensures LengthsValid(fs + [f])
    ensures ContentLengthOf(fs + [f]) == if f.name == ContentLengthName then Atoi(f.value).value else ContentLengthOf(fs)
  {
    LengthsValidSnoc(fs, f);
    assert (fs + [f])[..|fs|] == fs;
  }

  /** `j` is the latest position of a Content-Length field. */
  predicate LastLength(fs: seq<Field>, j: int) {
    0 <= j < |fs| && fs[j].name == ContentLengthName
    && forall k :: j < k < |fs| ==> fs[k].name != ContentLengthName
  }

  /** Without a Content-Length field the length is 0; otherwise it is the Atoi value of the LAST one. */
  lemma ContentLengthIsLast(fs: seq<Field>)
    requires LengthsValid(fs)
    ensures !Named(fs, ContentLengthName) ==> ContentLengthOf(fs) == 0
    ensures forall j :: LastLength(fs, j) ==> Atoi(fs[j].value) == Some(ContentLengthOf(fs))
  {
    if !Named(fs, ContentLengthName) {
      ContentLengthAbsent(fs);
    }
    forall j | LastLength(fs, j) ensures Atoi(fs[j].value) == Some(ContentLengthOf(fs)) {
      ContentLengthAtLast(fs, j);
    }
  }

  lemma {:induction false} ContentLengthAbsent(fs: seq<Field>)
    requires LengthsValid(fs) && !Named(fs, ContentLengthName)
    ensures ContentLengthOf(fs) == 0
  {
    if fs != [] {
      LengthsValidPrefix(fs);
      NamedPrefix(fs, ContentLengthName);
      ContentLengthAbsent(fs[..|fs| - 1]);
    }
  }

  lemma {:induction false} ContentLengthAtLast(fs: seq<Field>, j: int)
    requires LengthsValid(fs) && LastLength(fs, j)
    ensures Atoi(fs[j].value) == Some(ContentLengthOf(fs))
  {
    var p := fs[..|fs| - 1];
    LengthsValidPrefix(fs);
    if j < |p| {
      assert fs[|fs| - 1].name != ContentLengthName;
      assert fs[j] == p[j];
      assert LastLength(p, j) by {
        forall k | j < k < |p| ensures p[k].name != ContentLengthName { assert p[k] == fs[k]; }
      }
      ContentLengthAtLast(p, j);
    }
  }
}
