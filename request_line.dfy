/** parseRequestLine, character for character the same in all three iterations. */
module RequestLine {
  import opened Wrappers
  import opened Text
  import opened Errors

  datatype RequestLineParts = RequestLineParts(httpMethod: string, target: string, protoVersion: string)

  /**
   * Splits a request line at every space and demands exactly three parts. It succeeds
   * exactly when the line holds two spaces; the parts then contain no space, may be
   * empty, and put back together with spaces they give the line.
   */
  function ParseRequestLine(line: string): (r: Result<RequestLineParts, ParseError>)
    ensures r.Success? <==> multiset(line)[' '] == 2
    ensures r.Failure? ==> r.error == InvalidRequestLine(line)
    ensures r.Success? ==>
              r.value.httpMethod + " " + r.value.target + " " + r.value.protoVersion == line
    ensures r.Success? ==>
              ' ' !in r.value.httpMethod && ' ' !in r.value.target && ' ' !in r.value.protoVersion
  {
    var ls := Split(line, ' ');
    if |ls| != 3 then Failure(InvalidRequestLine(line))
    else
      JoinThree(ls, ' ');
      Success(RequestLineParts(ls[0], ls[1], ls[2]))
  }

  /**
   * After TrimSpace, a line that parses has a method that is neither empty nor
   * starts with white space, and a protocol version that is not empty.
   */
  lemma TrimmedLineParts(line: string)
    requires Trimmed(line) && ParseRequestLine(line).Success?
    ensures var p := ParseRequestLine(line).value;
            p.httpMethod != [] && !IsSpace(p.httpMethod[0]) && p.protoVersion != []
  {
    var p := ParseRequestLine(line).value;
    assert line == p.httpMethod + " " + p.target + " " + p.protoVersion;
    assert p.httpMethod != [] ==> line[0] == p.httpMethod[0];
  }
}
