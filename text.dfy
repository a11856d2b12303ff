/**
 * The string primitives of Go's standard library that the parser relies on:
 * strings.TrimSpace, strings.Split, strings.Cut, strconv.Atoi and the `%d` verb.
 * A Go string is a sequence of bytes; here each byte is one `char`.
 */
module Text {
  import opened Wrappers

  /** The ASCII white space that strings.TrimSpace removes. */
  predicate IsSpace(c: char) {
    c == ' ' || c == '\t' || c == '\n' || c == '\U{0B}' || c == '\U{0C}' || c == '\r'
  }

  predicate AllSpace(s: string) {
    forall i :: 0 <= i < |s| ==> IsSpace(s[i])
  }

  /** Neither end of `s` is white space. */
  predicate Trimmed(s: string) {
    s == [] || (!IsSpace(s[0]) && !IsSpace(s[|s| - 1]))
  }

  function TrimLeft(s: string): (r: string)
    ensures |r| <= |s| && r == s[|s| - |r|..]
    ensures AllSpace(s[..|s| - |r|])
    ensures r == [] || !IsSpace(r[0])
  {
    if s != [] && IsSpace(s[0]) then TrimLeft(s[1..]) else s
  }

  function TrimRight(s: string): (r: string)
    ensures |r| <= |s| && r == s[..|r|]
    ensures AllSpace(s[|r|..])
    ensures r == [] || !IsSpace(r[|r| - 1])
  {
    if s != [] && IsSpace(s[|s| - 1]) then TrimRight(s[..|s| - 1]) else s
  }

  /** How many white-space bytes TrimSpace drops at the front of `s`. */
  function Lead(s: string): nat {
    |s| - |TrimLeft(s)|
  }

  /** strings.TrimSpace restricted to ASCII: drop white space at both ends. */
  function TrimSpace(s: string): (r: string)
    ensures Trimmed(r)
    ensures Lead(s) + |r| <= |s| && r == s[Lead(s)..Lead(s) + |r|]
    ensures AllSpace(s[..Lead(s)]) && AllSpace(s[Lead(s) + |r|..])
    ensures r == [] <==> AllSpace(s)
  {
    TrimSpaceFacts(s, TrimLeft(s), TrimRight(TrimLeft(s)));
    TrimRight(TrimLeft(s))
  }

  lemma TrimSpaceFacts(s: string, l: string, r: string)
    requires l == TrimLeft(s) && r == TrimRight(l)
    ensures Trimmed(r)
    ensures Lead(s) + |r| <= |s| && r == s[Lead(s)..Lead(s) + |r|]
    ensures AllSpace(s[..Lead(s)]) && AllSpace(s[Lead(s) + |r|..])
    ensures r == [] <==> AllSpace(s)
  {
    TrimSlice(s, l, r);
    TrimTrimmed(l, r);
    TrimEmpty(s, l, r);
  }

  /** What TrimLeft and then TrimRight keep is one slice of the input, with white space on both sides. */
  lemma TrimSlice(s: string, l: string, r: string)
    requires l == TrimLeft(s) && r == TrimRight(l)
    ensures Lead(s) + |r| <= |s| && r == s[Lead(s)..Lead(s) + |r|]
    ensures AllSpace(s[..Lead(s)]) && AllSpace(s[Lead(s) + |r|..])
  {
    var i := Lead(s);
    SliceOfSuffix(s, i, |r|);
    assert s[i + |r|..] == l[|r|..];
  }

  lemma TrimTrimmed(l: string, r: string)
    requires (l == [] || !IsSpace(l[0])) && r == TrimRight(l)
    ensures Trimmed(r)
  {
    if r != [] {
      assert r[0] == l[0];
    }
  }

  lemma TrimEmpty(s: string, l: string, r: string)
    requires l == TrimLeft(s) && r == TrimRight(l)
    ensures r == [] <==> AllSpace(s)
  {
    var i := Lead(s);
    if r == [] {
      assert s == s[..i] + l;
      AllSpaceConcat(s[..i], l);
    } else {
      assert s[i] == l[0] == r[0];
    }
  }

  lemma SliceOfSuffix(s: string, i: nat, n: nat)
    requires i + n <= |s|
    ensures s[i..][..n] == s[i..i + n]
  {
  }

  lemma AllSpaceConcat(a: string, b: string)
    requires AllSpace(a) && AllSpace(b)
    ensures AllSpace(a + b)
  {
    forall k | 0 <= k < |a + b| ensures IsSpace((a + b)[k]) {
      if k < |a| { assert (a + b)[k] == a[k]; } else { assert (a + b)[k] == b[k - |a|]; }
    }
  }

  lemma {:induction false} TrimSpaceOfTrimmed(s: string)
    requires Trimmed(s)
    ensures TrimSpace(s) == s
  {
    assert TrimLeft(s) == s;
    assert TrimRight(s) == s;
  }

  /** Trimming twice is trimming once. */
  lemma TrimSpaceIdempotent(s: string)
    ensures TrimSpace(TrimSpace(s)) == TrimSpace(s)
  {
    TrimSpaceOfTrimmed(TrimSpace(s));
  }

  /** One space in front of a trimmed text is all TrimSpace removes. */
  lemma TrimSpaceAfterSpace(v: string)
    requires Trimmed(v) && v != []
    ensures TrimSpace(" " + v) == v
  {
    assert " " + v == " " + v + "";
    TrimSpaceSurrounded(" ", v, "");
  }

  /** TrimLeft drops exactly a leading run of white space that stops before a non-space. */
  lemma {:induction false} TrimLeftOfSpaces(a: string, t: string)
    requires AllSpace(a) && (t == [] || !IsSpace(t[0]))
    ensures TrimLeft(a + t) == t
  {
    if a != [] {
      assert (a + t)[1..] == a[1..] + t;
      TrimLeftOfSpaces(a[1..], t);
    } else {
      assert a + t == t;
    }
  }

  /** TrimRight drops exactly a trailing run of white space that follows a non-space. */
  lemma {:induction false} TrimRightOfSpaces(t: string, c: string)
    requires AllSpace(c) && (t == [] || !IsSpace(t[|t| - 1]))
    ensures TrimRight(t + c) == t
  {
    if c != [] {
      assert (t + c)[..|t + c| - 1] == t + c[..|c| - 1];
      TrimRightOfSpaces(t, c[..|c| - 1]);
    } else {
      assert t + c == t;
    }
  }

  /** White space around a trimmed, non-empty text is exactly what TrimSpace removes. */
  lemma TrimSpaceSurrounded(a: string, b: string, c: string)
    requires AllSpace(a) && AllSpace(c) && b != [] && Trimmed(b)
    ensures TrimSpace(a + b + c) == b
  {
    assert a + b + c == a + (b + c);
    TrimLeftOfSpaces(a, b + c);
    TrimRightOfSpaces(b, c);
  }

  /** The index of the first occurrence of `c` in `s`, if any. */
  function IndexOf(s: string, c: char): (r: Option<nat>)
    ensures r.None? <==> c !in s
    ensures r.Some? ==> r.value < |s| && s[r.value] == c && c !in s[..r.value]
  {
    if s == [] then None
    else if s[0] == c then Some(0)
    else
      match IndexOf(s[1..], c)
      case None => None
      case Some(i) =>
        assert s[..i + 1] == [s[0]] + s[1..][..i];
        Some(i + 1)
  }

  /** Joins `parts` with `sep` between neighbours; the inverse of Split. */
  function Join(parts: seq<string>, sep: char): string
  {
    if parts == [] then ""
    else if |parts| == 1 then parts[0]
    else parts[0] + [sep] + Join(parts[1..], sep)
  }

  /** Three parts joined: the first, the separator, the second, the separator, the third. */
  lemma JoinThree(parts: seq<string>, sep: char)
    requires |parts| == 3
    ensures Join(parts, sep) == parts[0] + [sep] + parts[1] + [sep] + parts[2]
  {
    assert parts[1..][1..] == parts[2..];
    assert Join(parts[2..], sep) == parts[2];
    assert Join(parts[1..], sep) == parts[1] + [sep] + parts[2];
  }

  /** strings.Split with a one-byte separator: the pieces between the separators. */
  function Split(s: string, sep: char): (parts: seq<string>)
    ensures |parts| == multiset(s)[sep] + 1
    ensures forall i :: 0 <= i < |parts| ==> sep !in parts[i]
    ensures Join(parts, sep) == s
    decreases |s|
  {
    match IndexOf(s, sep)
    case None =>
      assert multiset(s)[sep] == 0;
      [s]
    case Some(i) =>
      var rest := Split(s[i + 1..], sep);
      assert s == s[..i] + [sep] + s[i + 1..];
      assert multiset(s) == multiset(s[..i]) + multiset([sep]) + multiset(s[i + 1..]);
      [s[..i]] + rest
  }

  /** Splits `s` around `sep` as Cut does: `found` reports whether `sep` occurs. */
  datatype CutResult = CutResult(before: string, after: string, found: bool)

  /** strings.Cut: the text before and after the FIRST occurrence of `sep`. */
  function Cut(s: string, sep: char): (r: CutResult)
    ensures r.found <==> sep in s
    ensures r.found ==> s == r.before + [sep] + r.after && sep !in r.before
    ensures !r.found ==> r.before == s && r.after == ""
  {
    match IndexOf(s, sep)
    case None => CutResult(s, "", false)
    case Some(i) =>
      assert s == s[..i] + [sep] + s[i + 1..];
      CutResult(s[..i], s[i + 1..], true)
  }

  predicate IsDigit(c: char) {
    '0' <= c <= '9'
  }

  predicate AllDigits(s: string) {
    forall i :: 0 <= i < |s| ==> IsDigit(s[i])
  }

  /** The value of a decimal numeral, read most significant digit first. */
  function DigitsValue(s: string): nat
    requires AllDigits(s)
  {
    if s == [] then 0
    else DigitsValue(s[..|s| - 1]) * 10 + (s[|s| - 1] as int - '0' as int)
  }

  /**
   * strconv.Atoi on unbounded integers: an optional `+` or `-`, then one or
   * more decimal digits; anything else (the empty string included) fails.
   */
  function Atoi(s: string): (r: Option<int>)
    ensures r.Some? ==> s != [] && |s| >= (if s[0] == '+' || s[0] == '-' then 2 else 1)
    ensures r.Some? ==> AllDigits(if s[0] == '+' || s[0] == '-' then s[1..] else s)
    ensures r.Some? && s[0] == '-' ==> r.value <= 0
    ensures r.Some? && s[0] != '-' ==> r.value >= 0
  {
    if s == [] then None
    else
      var digits := if s[0] == '+' || s[0] == '-' then s[1..] else s;
      if digits == [] || !AllDigits(digits) then None
      else
        var v: int := if s[0] == '-' then 0 - DigitsValue(digits) as int else DigitsValue(digits);
        Some(v)
  }

  /** Every optionally signed run of decimal digits, leading zeros included, is accepted with its value. */
  lemma AtoiNumeral(sign: string, d: string)
    requires sign == "" || sign == "+" || sign == "-"
    requires d != [] && AllDigits(d)
    ensures Atoi(sign + d) == Some(if sign == "-" then -(DigitsValue(d) as int) else DigitsValue(d))
  {
    assert (sign + d)[|sign|..] == d;
    if sign == "" {
      assert sign + d == d;
      assert IsDigit(d[0]);
    }
  }

  function DigitChar(d: nat): (c: char)
    requires d < 10
    ensures IsDigit(c) && c as int - '0' as int == d
  {
    ('0' as int + d) as char
  }

  /** The shortest decimal numeral of `n`. */
  function NatToDigits(n: nat): (s: string)
    ensures AllDigits(s) && s != []
    ensures DigitsValue(s) == n
  {
    if n < 10 then [DigitChar(n)]
    else
      var s := NatToDigits(n / 10) + [DigitChar(n % 10)];
      assert s[..|s| - 1] == NatToDigits(n / 10);
      s
  }

  /** The `%d` rendering of an integer: a `-` sign for negatives, then its decimal digits. */
  function Itoa(n: int): (s: string)
    ensures forall i :: 0 <= i < |s| ==> IsDigit(s[i]) || s[i] == '-'
    ensures s != [] && (s[0] == '-' <==> n < 0)
  {
    if n < 0 then "-" + NatToDigits(-n) else NatToDigits(n)
  }

  /** The number `%d` prints reads back through Atoi as the same number. */
  lemma {:induction false} AtoiItoa(n: int)
    ensures Atoi(Itoa(n)) == Some(n)
  {
    var digits := NatToDigits(if n < 0 then -n else n);
    if n < 0 {
      assert Itoa(n)[1..] == digits;
    } else {
      assert digits[0] != '+' && digits[0] != '-' by { assert IsDigit(digits[0]); }
    }
  }
}
