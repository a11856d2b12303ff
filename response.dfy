/** Response.Write of respoonse.go: the status line, a computed Content-Length, a blank line, the body. */
module ResponseWriter {
  import opened Wrappers
  import opened Text
  import opened Stream
  import opened Messages

  /** `%s %d %s\r\n` of the version, the status code and the status message. */
  function StatusLine(r: Response): string {
    r.protoVersion + " " + Itoa(r.statusCode) + " " + r.statusMessage + "\r\n"
  }

  /** The only header the writer emits. */
  function LengthLine(n: int): string {
    "Content-Length: " + Itoa(n) + "\r\n"
  }

  /** The bytes Write puts on the wire for `r`. */
  function Wire(r: Response): string {
    StatusLine(r) + LengthLine(|r.body|) + "\r\n" + r.body
  }

  /** Appends the four pieces of the response to `w`, in order; nothing else of `w` changes. */
  method Write(r: Response, w: Conn)
    requires !w.closed
    modifies w
    ensures w.sent == old(w.sent) + Wire(r) && w.closed == old(w.closed)
  {
    ghost var before := w.sent;
    var status := r.protoVersion + " " + Itoa(r.statusCode) + " " + r.statusMessage + "\r\n";
    var length := "Content-Length: " + Itoa(|r.body|) + "\r\n";
    w.Write(status);
    w.Write(length);
    w.Write("\r\n");
    w.Write(r.body);
    AppendFour(before, status, length, "\r\n", r.body);
  }

  lemma AppendFour(x: string, a: string, b: string, c: string, d: string)
    ensures x + a + b + c + d == x + (a + b + c + d)
  {
  }

  /**
   * Only the version, the status code, the status message and the body reach the wire:
   * the Fields map, the ContentLength field and the Request pointer are never consulted.
   */
  lemma WireIgnoresOtherFields(r1: Response, r2: Response)
    requires r1.protoVersion == r2.protoVersion && r1.statusCode == r2.statusCode
    requires r1.statusMessage == r2.statusMessage && r1.body == r2.body
    ensures Wire(r1) == Wire(r2)
  {
  }

  /** A CR LF CR LF, the blank line that ends a message head, starts at `k`. */
  predicate BlankAt(s: string, k: int) {
    0 <= k && k + 4 <= |s| && s[k] == '\r' && s[k + 1] == '\n' && s[k + 2] == '\r' && s[k + 3] == '\n'
  }

  /** Where the first CR LF CR LF of `s` starts: the end of a message head. */
  function FindBlankLine(s: string): (i: Option<nat>)
    ensures i.Some? ==> BlankAt(s, i.value) && forall k :: 0 <= k < i.value ==> !BlankAt(s, k)
    ensures i.None? ==> forall k :: !BlankAt(s, k)
  {
    if |s| < 4 then None
    else if BlankAt(s, 0) then Some(0)
    else
      match FindBlankLine(s[1..])
      case None =>
        assert forall k :: BlankAt(s, k) ==> k >= 1 && BlankAt(s[1..], k - 1);
        None
      case Some(j) =>
        assert forall k :: 1 <= k <= j && BlankAt(s, k) ==> BlankAt(s[1..], k - 1);
        Some(j + 1)
  }

  lemma FindBlankLineAt(s: string, i: nat)
    requires BlankAt(s, i) && forall k :: 0 <= k < i ==> !BlankAt(s, k)
    ensures FindBlankLine(s) == Some(i)
  {
  }

  /**
   * When neither the version nor the status message holds a CR, the head of the
   * response ends at its FIRST blank line; what follows is exactly the body, and the
   * head announces exactly the length of what follows.
   */
  lemma {:induction false} WireFraming(r: Response)
    requires '\r' !in r.protoVersion && '\r' !in r.statusMessage
    ensures FindBlankLine(Wire(r)).Some?
    ensures var k := FindBlankLine(Wire(r)).value;
            Wire(r)[k + 4..] == r.body
            && Wire(r)[..k + 4] == StatusLine(r) + LengthLine(|Wire(r)[k + 4..]|) + "\r\n"
            && Atoi(Itoa(|Wire(r)[k + 4..]|)) == Some(|r.body|)
  {
    var a := r.protoVersion + " " + Itoa(r.statusCode) + " " + r.statusMessage;
    var b := "Content-Length: " + Itoa(|r.body|);
    assert Wire(r) == a + "\r\n" + b + "\r\n" + "\r\n" + r.body;
    StatusTextWithoutCR(r);
    LengthTextWithoutCR(|r.body|);
    HeadThenBody(a, b, r.body);
    assert StatusLine(r) + LengthLine(|r.body|) + "\r\n" == a + "\r\n" + b + "\r\n" + "\r\n";
    AtoiItoa(|r.body|);
  }

  /** The status line without its CR LF holds no CR when neither the version nor the message does. */
  lemma StatusTextWithoutCR(r: Response)
    requires '\r' !in r.protoVersion && '\r' !in r.statusMessage
    ensures '\r' !in r.protoVersion + " " + Itoa(r.statusCode) + " " + r.statusMessage
  {
    var code := Itoa(r.statusCode);
    var a := r.protoVersion + " " + code + " " + r.statusMessage;
    forall k | 0 <= k < |a| ensures a[k] != '\r' {
      if k < |r.protoVersion| {
        assert a[k] == r.protoVersion[k];
      } else if k == |r.protoVersion| || k == |r.protoVersion| + 1 + |code| {
      } else if k < |r.protoVersion| + 1 + |code| {
        assert a[k] == code[k - |r.protoVersion| - 1];
      } else {
        assert a[k] == r.statusMessage[k - |r.protoVersion| - 2 - |code|];
      }
    }
  }

  /** The Content-Length line without its CR LF holds no CR. */
  lemma LengthTextWithoutCR(n: int)
    ensures '\r' !in "Content-Length: " + Itoa(n)
  {
    var d := Itoa(n);
    assert '\r' !in d by {
      forall k | 0 <= k < |d| ensures d[k] != '\r' { }
    }
    assert '\r' !in "Content-Length: ";
    NotInEither('\r', "Content-Length: ", d);
  }

  lemma NotInEither(x: char, a: string, b: string)
    requires x !in a && x !in b
    ensures x !in a + b
  {
    forall k | 0 <= k < |a + b| ensures (a + b)[k] != x {
      if k < |a| { assert (a + b)[k] == a[k]; } else { assert (a + b)[k] == b[k - |a|]; }
    }
  }

  /**
   * Two lines without CR, each closed by CR LF, then CR LF: the first blank line is
   * the one closing the head, and the body follows it.
   */
  lemma HeadThenBody(a: string, b: string, body: string)
    requires '\r' !in a && '\r' !in b && b != []
    ensures var s, i := a + "\r\n" + b + "\r\n" + "\r\n" + body, |a| + 2 + |b|;
            FindBlankLine(s) == Some(i) && s[i + 4..] == body && s[..i + 4] == a + "\r\n" + b + "\r\n" + "\r\n"
  {
    var s := a + "\r\n" + b + "\r\n" + "\r\n" + body;
    var i := |a| + 2 + |b|;
    assert BlankAt(s, i);
    forall k | 0 <= k < i ensures !BlankAt(s, k) {
      if k < |a| {
        assert s[k] == a[k];
      } else if k == |a| {
        assert s[k + 2] == b[0];
      } else if k == |a| + 1 {
        assert s[k] == '\n';
      } else {
        assert s[k] == b[k - |a| - 2];
      }
    }
    FindBlankLineAt(s, i);
  }
}
