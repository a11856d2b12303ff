/**
 * The byte stream of one TCP connection as the parser sees it through a
 * bufio.Reader, and the connection's write side.
 */
module Stream {
  import opened Wrappers
  import Text

  /** What a read reports: the peer closed the stream (io.EOF), or any other transport error. */
  datatype ReadError = EOF | Transport(message: string)

  /**
   * Everything a client sends on a connection: the bytes, and the error the stream
   * reports once those bytes are used up (EOF when the peer closed, otherwise a
   * transport failure).
   */
  datatype Connection = Connection(data: string, end: ReadError)

  /** A line read by ReadString('\n'), its trailing newline included, and where the next read starts. */
  datatype Line = Line(text: string, next: nat)

  /** ReadString('\n') started at `pos`: the bytes through the first newline; without one, the stream's end error. */
  function LineFrom(c: Connection, pos: nat): (r: Result<Line, ReadError>)
    requires pos <= |c.data|
    ensures r.Success? ==> pos < r.value.next <= |c.data|
                           && r.value.text == c.data[pos..r.value.next]
                           && c.data[r.value.next - 1] == '\n'
                           && '\n' !in c.data[pos..r.value.next - 1]
    ensures r.Failure? <==> '\n' !in c.data[pos..]
    ensures r.Failure? ==> r.error == c.end
  {
    match Text.IndexOf(c.data[pos..], '\n')
    case None => Failure(c.end)
    case Some(i) =>
      assert c.data[pos..pos + i] == c.data[pos..][..i];
      Success(Line(c.data[pos..pos + i + 1], pos + i + 1))
  }

  /** What one Read into a buffer reports: how many bytes it filled, and the error, if any. */
  datatype ReadOutcome = ReadOutcome(count: nat, err: Option<ReadError>)

  function Min(a: nat, b: nat): nat {
    if a <= b then a else b
  }

  /**
   * One Read of at most `want` bytes at `pos`. The transport delivers `chunk` bytes in
   * this call, so the read may come back short; it reports the stream's end error only
   * when nothing at all is left.
   */
  function ReadChunk(c: Connection, pos: nat, want: nat, chunk: nat): (r: ReadOutcome)
    requires pos <= |c.data|
    ensures r.count <= want && pos + r.count <= |c.data|
    ensures r.err.Some? <==> pos == |c.data|
    ensures r.err.Some? ==> r.count == 0 && r.err.value == c.end
  {
    if pos == |c.data| then ReadOutcome(0, Some(c.end))
    else ReadOutcome(Min(Min(chunk, want), |c.data| - pos), None)
  }

  /** `n` zero bytes: the initial contents of make([]byte, n). */
  function Zeros(n: nat): (z: string)
    ensures |z| == n && forall i :: 0 <= i < n ==> z[i] == '\0'
  {
    seq(n, _ => '\0')
  }

  /** The output buffer and the open/closed state of a net.Conn; writes never fail. */
  class Conn {
    const incoming: Connection
    var sent: string
    var closed: bool

    constructor (c: Connection)
      ensures incoming == c && sent == [] && !closed
    {
      incoming := c;
      sent := [];
      closed := false;
    }

    /** A write to an open connection sends its bytes; nothing is written after Close. */
    method Write(s: string)
      requires !closed
      modifies this
      ensures sent == old(sent) + s && closed == old(closed)
    {
      sent := sent + s;
    }

    method Close()
      modifies this
      ensures closed && sent == old(sent)
    {
      closed := true;
    }
  }

  /** A bufio.Reader over a connection: the connection plus the read position. */
  class BufferedReader {
    const conn: Connection
    var pos: nat

    ghost predicate Valid()
      reads this
    {
      pos <= |conn.data|
    }

    constructor (c: Connection)
      ensures Valid() && conn == c && pos == 0
    {
      conn := c;
      pos := 0;
    }

    /**
     * ReadString('\n'): on success the line through the newline, after which the
     * reader stands just past it; on failure the stream's end error, with every
     * remaining byte consumed.
     */
    method ReadString() returns (r: Result<string, ReadError>)
      requires Valid()
      modifies this
      ensures Valid()
      ensures LineFrom(conn, old(pos)).Success? ==>
                r == Success(LineFrom(conn, old(pos)).value.text) && pos == LineFrom(conn, old(pos)).value.next
      ensures LineFrom(conn, old(pos)).Failure? ==>
                r == Failure(conn.end) && pos == |conn.data|
    {
      var i := pos;
      while i < |conn.data| && conn.data[i] != '\n'
        invariant pos <= i <= |conn.data|
        invariant forall k :: pos <= k < i ==> conn.data[k] != '\n'
      {
        i := i + 1;
      }
      if i == |conn.data| {
        NoLineFrom(conn, pos);
        r := Failure(conn.end);
        pos := i;
      } else {
        LineThrough(conn, pos, i);
        r := Success(conn.data[pos..i + 1]);
        pos := i + 1;
      }
    }

    /**
     * Read(buf): copies up to buf.Length available bytes into the front of `buf`,
     * as many as ReadChunk allows, and leaves the rest of `buf` untouched.
     */
    method Read(buf: array<char>, chunk: nat) returns (n: nat, err: Option<ReadError>)
      requires Valid()
      modifies this, buf
      ensures Valid()
      ensures ReadOutcome(n, err) == ReadChunk(conn, old(pos), buf.Length, chunk)
      ensures pos == old(pos) + n
      ensures buf[..] == conn.data[old(pos)..pos] + old(buf[..])[n..]
    {
      var start := pos;
      var outcome := ReadChunk(conn, start, buf.Length, chunk);
      n, err := outcome.count, outcome.err;
      var i := 0;
      while i < n
        invariant 0 <= i <= n && start == old(pos)
        invariant forall k :: 0 <= k < i ==> buf[k] == conn.data[start + k]
        invariant forall k :: i <= k < buf.Length ==> buf[k] == old(buf[k])
      {
        buf[i] := conn.data[start + i];
        i := i + 1;
      }
      assert buf[..] == conn.data[start..start + n] + old(buf[..])[n..];
      pos := start + n;
    }
  }

  lemma FirstIndexUnique(s: string, c: char, i: nat)
    requires i < |s| && s[i] == c && forall k :: 0 <= k < i ==> s[k] != c
    ensures Text.IndexOf(s, c) == Some(i)
  {
    assert c in s;
  }

  /** The connection's bytes at `pos` are `w`. */
  predicate BytesAt(c: Connection, pos: nat, w: string) {
    pos + |w| <= |c.data| && c.data[pos..pos + |w|] == w
  }

  /** Bytes `u + v` at `pos` are `u` at `pos` and `v` right after it. */
  lemma BytesAtSplit(c: Connection, pos: nat, u: string, v: string)
    requires BytesAt(c, pos, u + v)
    ensures BytesAt(c, pos, u) && BytesAt(c, pos + |u|, v)
  {
    assert c.data[pos..pos + |u|] == (u + v)[..|u|];
    assert c.data[pos + |u|..pos + |u| + |v|] == (u + v)[|u|..];
  }

  /** Bytes `(u + v) + w` at `pos` are `u` there and `v + w` where `u` ends. */
  lemma SplitAfter(c: Connection, pos: nat, next: nat, u: string, v: string, w: string)
    requires BytesAt(c, pos, u + v + w) && next == pos + |u|
    ensures BytesAt(c, pos, u) && BytesAt(c, next, v + w)
  {
    assert u + v + w == u + (v + w);
    BytesAtSplit(c, pos, u, v + w);
  }

  /** A connection whose bytes are `u + v + w` holds `u` at its start and `v` right after it. */
  lemma LaidOut(c: Connection, u: string, v: string, w: string, next: nat)
    requires c.data == u + v + w && next == |u|
    ensures BytesAt(c, 0, u) && BytesAt(c, next, v)
  {
    assert c.data[..|u|] == u;
    assert c.data[|u|..|u| + |v|] == v;
  }

  /** Without a newline after `pos`, ReadString there reports the stream's end error. */
  lemma NoLineFrom(c: Connection, pos: nat)
    requires pos <= |c.data| && forall k :: pos <= k < |c.data| ==> c.data[k] != '\n'
    ensures LineFrom(c, pos) == Failure(c.end)
  {
    var rest := c.data[pos..];
    assert forall k :: 0 <= k < |rest| ==> rest[k] == c.data[pos + k];
    assert '\n' !in rest;
  }

  /** With the first newline after `pos` at `i`, ReadString there returns the bytes through `i`. */
  lemma LineThrough(c: Connection, pos: nat, i: nat)
    requires pos <= i < |c.data| && c.data[i] == '\n'
    requires forall k :: pos <= k < i ==> c.data[k] != '\n'
    ensures LineFrom(c, pos) == Success(Line(c.data[pos..i + 1], i + 1))
  {
    LineEndsAt(c, pos, i);
  }

  lemma LineEndsAt(c: Connection, pos: nat, i: nat)
    requires pos <= i < |c.data| && c.data[i] == '\n'
    requires forall k :: pos <= k < i ==> c.data[k] != '\n'
    ensures LineFrom(c, pos).Success? && LineFrom(c, pos).value.next == i + 1
  {
    assert c.data[pos..][i - pos] == '\n';
    var next := LineFrom(c, pos).value.next;
    NotInSlice(c.data, pos, next - 1, '\n');
    assert c.data[next - 1] == '\n';
  }

  lemma NotInSlice(s: string, a: nat, b: nat, x: char)
    requires a <= b <= |s| && x !in s[a..b]
    ensures forall k :: a <= k < b ==> s[k] != x
  {
    forall k | a <= k < b ensures s[k] != x {
      assert s[a..b][k - a] == s[k];
    }
  }

  /** Bytes at `pos` that end in their first newline are the line ReadString returns there. */
  lemma LineAt(c: Connection, pos: nat, w: string)
    requires BytesAt(c, pos, w)
    requires w != [] && w[|w| - 1] == '\n' && '\n' !in w[..|w| - 1]
    ensures LineFrom(c, pos) == Success(Line(w, pos + |w|))
  {
    var i := pos + |w| - 1;
    forall k | pos <= k < i ensures c.data[k] != '\n' {
      assert c.data[k] == c.data[pos..pos + |w|][k - pos] == w[..|w| - 1][k - pos];
    }
    assert c.data[i] == c.data[pos..pos + |w|][|w| - 1];
    LineThrough(c, pos, i);
  }
}
