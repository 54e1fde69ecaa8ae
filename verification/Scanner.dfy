/** Reading one header line: `MultibulkParser::readInt32` on byte strings. */
module Scanner {
  import opened Base
  import opened Decimal
  import opened Resp

  datatype Scan =
    | NoLine(err: Error)
    | Found(value: int, line: bytes, rest: bytes)

  /** `slack` is the memory of the input block behind the unread bytes. */
  function ReadInt(inp: bytes, slack: bytes): (r: Scan)
    ensures r.Found? ==> inp == r.line + r.rest && |r.line| >= 1
    ensures r.Found? ==> |r.rest| < |inp|
    ensures r.NoLine? ==> Incomplete(r.err) && LF !in inp
    ensures r.NoLine? ==> (r.err == OutOfBound <==> inp == [])
  {
    if inp == [] then NoLine(OutOfBound)
    else
      var k := Index(inp, LF);
      if k == |inp| then NoLine(TryAgain)
      else Found(ParseInt32(inp[..k + 1], inp[k + 1..] + slack), inp[..k + 1], inp[k + 1..])
  }

  /** A header line is plain when atoi stops inside it, or is not called: something behind the lead byte is no space. */
  predicate PlainLine(line: bytes) {
    |line| <= 1 || exists i :: 1 <= i < |line| && !IsSpace(line[i])
  }

  lemma {:induction false} MagnitudeStops(s: bytes, acc: nat, more: bytes)
    requires s != [] && !IsDigit(s[|s| - 1])
    ensures Magnitude(s + more, acc) == Magnitude(s, acc)
  {
    if IsDigit(s[0]) {
      assert (s + more)[1..] == s[1..] + more;
      MagnitudeStops(s[1..], 10 * acc + (s[0] - 48), more);
    }
  }

  lemma {:induction false} SkipStops(s: bytes, i: nat, more: bytes)
    requires i < |s| && !IsSpace(s[i])
    ensures SkipSpaces(s + more) == SkipSpaces(s) + more
    ensures var t := SkipSpaces(s); t != [] && !IsSpace(t[0]) && t[|t| - 1] == s[|s| - 1]
    decreases |s|
  {
    if IsSpace(s[0]) {
      assert (s + more)[1..] == s[1..] + more;
      SkipStops(s[1..], i - 1, more);
    }
  }

  lemma SignedStops(t: bytes, more: bytes)
    requires t != [] && !IsSpace(t[0]) && t[|t| - 1] == LF
    ensures Signed(t + more) == Signed(t)
  {
    assert (t + more)[1..] == t[1..] + more;
    if t[0] == MINUS || t[0] == PLUS {
      MagnitudeStops(t[1..], 0, more);
    } else {
      MagnitudeStops(t, 0, more);
    }
  }

  lemma PlainValue(line: bytes, x: bytes)
    requires PlainLine(line) && line != [] && line[|line| - 1] == LF
    ensures ParseInt32(line, x) == ParseInt32(line, [])
  {
    if |line| > 1 {
      var i :| 1 <= i < |line| && !IsSpace(line[i]);
      var s := line[1..];
      assert (line + x)[1..] == s + x && (line + [])[1..] == s + [];
      assert s[i - 1] == line[i];
      SkipStops(s, i - 1, x);
      SkipStops(s, i - 1, []);
      SignedStops(SkipSpaces(s), x);
      SignedStops(SkipSpaces(s), []);
    }
  }

  lemma {:induction false} AllSpaces(s: bytes, more: bytes)
    requires forall i :: 0 <= i < |s| ==> IsSpace(s[i])
    ensures SkipSpaces(s + more) == SkipSpaces(more)
    decreases |s|
  {
    if s == [] {
      assert s + more == more;
    } else {
      assert (s + more)[1..] == s[1..] + more;
      AllSpaces(s[1..], more);
    }
  }

  /** A header line of spaces has the value of whatever memory follows it. */
  lemma UnplainValue(line: bytes, d: byte)
    requires !PlainLine(line) && IsDigit(d)
    ensures ParseInt32(line, [d]) == d - 48
  {
    var s := line[1..];
    assert (line + [d])[1..] == s + [d];
    AllSpaces(s, [d]);
    assert Magnitude([d], 0) == d - 48;
  }

  /** The number in a header line is the line's own, whatever memory follows it, iff the line is plain. */
  lemma OwnValueIff(line: bytes)
    requires line != [] && line[|line| - 1] == LF
    ensures (forall x: bytes, y: bytes :: ParseInt32(line, x) == ParseInt32(line, y)) <==> PlainLine(line)
  {
    if PlainLine(line) {
      forall x: bytes, y: bytes ensures ParseInt32(line, x) == ParseInt32(line, y) {
        PlainValue(line, x);
        PlainValue(line, y);
      }
    } else {
      UnplainValue(line, 48);
      UnplainValue(line, 49);
    }
  }

  /** More bytes behind a plain header line leave it as it was. */
  lemma ReadIntExtends(a: bytes, b: bytes, s1: bytes, s2: bytes)
    requires ReadInt(a, s1).Found? && PlainLine(ReadInt(a, s1).line)
    ensures ReadInt(a + b, s2) == ReadInt(a, s1).(rest := ReadInt(a, s1).rest + b)
  {
    hide *;
    var k := Index(a, LF);
    FoundAt(a, s1);
    IndexStable(a, b, LF);
    CutBehind(a, b, k + 1);
    PlainValue(a[..k + 1], a[k + 1..] + s1);
    PlainValue(a[..k + 1], (a[k + 1..] + b) + s2);
    FoundAt(a + b, s2);
  }

  /** A header line goes up to the first line feed. */
  lemma FoundAt(a: bytes, slack: bytes)
    requires ReadInt(a, slack).Found? || Index(a, LF) < |a|
    ensures var k := Index(a, LF);
      && k < |a| && LF in a && a[..k + 1] != [] && a[..k + 1][k] == LF
      && ReadInt(a, slack) == Found(ParseInt32(a[..k + 1], a[k + 1..] + slack), a[..k + 1], a[k + 1..])
  {
    hide ParseInt32;
  }

  lemma IndexInHeader(lead: byte, n: nat, rest: bytes)
    requires lead != LF
    ensures Index(Header(lead, n) + rest, LF) == |Header(lead, n)| - 1
  {
    var h := Header(lead, n);
    var k := |h| - 1;
    assert forall j :: 1 <= j < k - 1 ==> h[j] == Digits(n)[j - 1];
    IndexIs(h + rest, LF, k);
  }

  /** The decimal round trip every framing theorem rests on. */
  lemma HeaderRoundTrip(lead: byte, n: nat, rest: bytes, slack: bytes)
    requires lead != LF && n <= INT32_MAX
    ensures PlainLine(Header(lead, n))
    ensures ReadInt(Header(lead, n) + rest, slack) == Found(n, Header(lead, n), rest)
  {
    var h := Header(lead, n);
    IndexInHeader(lead, n, rest);
    assert (h + rest)[..|h|] == h && (h + rest)[|h|..] == rest;
    AtoiOfDigits(n, rest + slack);
    assert (h + (rest + slack))[1..] == Digits(n) + CRLF + (rest + slack);
    assert h[1] == Digits(n)[0];
  }
}
