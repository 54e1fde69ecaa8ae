/** A request cut inside the line ending of its empty first argument: what the parser makes of the rest. */
module EmptyFirst {
  import opened Base
  import opened Decimal
  import opened Resp
  import opened Scanner
  import opened RequestMachine
  import opened Resumption
  import opened Requests
  import opened ReplyFraming
  import opened SessionBatches

  /** Inside the line ending of an empty first argument. */
  predicate CutInEmptyFirst(argv: Argv, cut: nat) {
    CutInEmpty(argv, cut) && Before(argv, cut) == 0
  }

  lemma CutInEmptyBytes(argv: Argv, p: bytes, q: bytes) returns (u: bytes)
    requires p != [] && q != [] && p + q == Encode(argv) && CutInEmptyFirst(argv, |p|)
    ensures argv != [] && argv[0] == [] && |u| < 2
    ensures p == Header(STAR, |argv|) + (Header(DOLLAR, 0) + u) && u + q == CRLF + EncodeArgs(argv[1..])
  {
    var h, h0, tail := Header(STAR, |argv|), Header(DOLLAR, 0), EncodeArgs(argv[1..]);
    assert argv[0] == [];
    hide Header;
    assert EncodeArg([]) == h0 + CRLF by { assert h0 + [] == h0; }
    assert Encode(argv) == h + (h0 + (CRLF + tail)) by { Regroup(h0, CRLF, tail); }
    u := p[|h| + |h0|..];
    TwoCuts(h, h0, CRLF + tail, p, q);
  }

  lemma TwoCuts(a: bytes, b: bytes, c: bytes, p: bytes, q: bytes)
    requires p + q == a + (b + c) && |p| >= |a| + |b|
    ensures var u := p[|a| + |b|..]; p == a + (b + u) && u + q == c
  {
    var w := a + (b + c);
    assert p == w[..|p|] && w[..|a| + |b|] == a + b;
    assert p[|a| + |b|..] + q == w[|a| + |b|..];
  }

  /** What the parser makes of the bytes behind a cut in an empty first argument. */
  lemma CutInEmptyParse(argv: Argv, p: bytes, q: bytes, s1: bytes)
    requires Sendable(argv) && p != [] && q != [] && p + q == Encode(argv) && CutInEmptyFirst(argv, |p|)
    ensures var r := ParseRequest(FRESH, [], p, s1);
      && r.err == TryAgain && r.st == ParserState(MultibulkType, Multibulk(|argv|, 0, 0)) && r.argv == []
      && argv != [] && argv[0] == [] && r.rest + q == CRLF + EncodeArgs(argv[1..])
  {
    var u := CutInEmptyBytes(argv, p, q);
    var m := Multibulk(|argv|, 0, 0);
    HeaderRoundTrip(STAR, |argv|, Header(DOLLAR, 0) + u, s1);
    assert p[0] == STAR;
    HeaderRoundTrip(DOLLAR, 0, u, s1);
    ReadLengthOf(0);
    hide Header, ReadInt, EncodeArgs, Encode;
    assert RequestLoop(m, [], Header(DOLLAR, 0) + u, s1) == ReadBulk(m, [], u, s1);
  }

  lemma {:induction false} LoopGrows(m: Multibulk, argv: Argv, inp: bytes, slack: bytes)
    ensures argv <= RequestLoop(m, argv, inp, slack).argv
    decreases m.len - m.index
  {
    if m.index < m.len {
      if m.bulk == 0 {
        var h := ReadInt(inp, slack);
        if h.Found? {
          BulkGrows(m.(bulk := h.value), argv, h.rest, slack);
        }
      } else {
        BulkGrows(m, argv, inp, slack);
      }
    }
  }

  lemma {:induction false} BulkGrows(m: Multibulk, argv: Argv, inp: bytes, slack: bytes)
    requires m.index < m.len
    ensures argv <= ReadBulk(m, argv, inp, slack).argv
    decreases m.len - m.index, 0
  {
    hide RequestLoop;
    var n := ReadLength(m.bulk);
    if inp != [] && n <= |inp| {
      LoopGrows(Multibulk(m.len, m.index + 1, 0), argv + [Trim(Taken(inp, n), 2)], inp[n..], slack);
    }
  }

  /** The parse came to the whole request and took all of the input. */
  predicate Exactly(r: BulkOut, argv: Argv) {
    r.err == OK && r.argv == argv && r.rest == []
  }

  /** What is left of the printed length behind its first digit, and what follows it up to the next argument. */
  lemma TailOfArg(a: bytes, z: bytes)
    ensures var d := Digits(|a|); var e := EncodeArg(a) + z;
      |e| >= 2 && e[0] == DOLLAR && e[2..] == d[1..] + CRLF + (a + (CRLF + z))
  {
    var d := Digits(|a|);
    assert d == [d[0]] + d[1..];
    assert EncodeArg(a) + z == [DOLLAR, d[0]] + (d[1..] + CRLF + (a + (CRLF + z)));
  }

  /** The first turn takes the lone line ending for a header and the next two bytes for the empty argument. */
  lemma FirstTurn(n: nat, e: bytes, slack: bytes)
    requires n > 1 && |e| >= 2 && e[0] == DOLLAR
    ensures RequestLoop(Multibulk(n, 0, 0), [], CRLF + e, slack)
         == RequestLoop(Multibulk(n, 1, 0), [[]], e[2..], slack)
  {
    ScanLoneEnding(e, slack);
    ReadLengthOf(0);
    hide RequestLoop, ReadInt;
    OneTurn(Multibulk(n, 0, 0), [], CRLF + e, slack);
    var none: Argv, empty: bytes := [], [];
    assert none + [empty] == [empty] && Trim(e[..2], 2) == empty;
  }

  /** The second turn finds what is left of the length as its line. */
  lemma SecondLine(d: bytes, y: bytes, slack: bytes)
    requires forall i :: 0 <= i < |d| ==> IsDigit(d[i])
    ensures ReadInt(d + CRLF + y, slack) == Found(ParseInt32(d + CRLF, y + slack), d + CRLF, y)
  {
    var line := d + CRLF;
    assert forall i :: 0 <= i < |d| ==> (line + y)[i] == d[i];
    IndexIs(line + y, LF, |d| + 1);
    assert (line + y)[..|line|] == line && (line + y)[|line|..] == y;
  }

  /** With at most one digit left the number is read from the bytes behind the line. */
  lemma ShortLine(d: bytes, y: bytes)
    requires |d| <= 1 && forall i :: 0 <= i < |d| ==> IsDigit(d[i])
    ensures ParseInt32(d + CRLF, y) == Atoi(y)
  {
    if d == [] {
      assert (d + CRLF + y)[1..] == [LF] + y && ([LF] + y)[1..] == y;
    } else {
      assert (d + CRLF + y)[1..] == [CR, LF] + y && ([CR, LF] + y)[1..] == [LF] + y && ([LF] + y)[1..] == y;
      assert SkipSpaces([CR, LF] + y) == SkipSpaces([LF] + y);
    }
  }

  lemma {:induction false} MagnitudeMore(s: bytes, acc: nat, d: byte)
    requires IsDigit(d) && forall i :: 0 <= i < |s| ==> IsDigit(s[i])
    ensures Magnitude(s + [d], acc) == 10 * Magnitude(s, acc) + (d - 48)
    decreases |s|
  {
    if s == [] {
      assert s + [d] == [d] && [d][1..] == [];
    } else {
      assert (s + [d])[1..] == s[1..] + [d];
      MagnitudeMore(s[1..], 10 * acc + (s[0] - 48), d);
    }
  }

  /** Without its first j digits a printed number is smaller. */
  lemma {:induction false} TailIsLess(k: nat, j: nat)
    requires 0 < j < |Digits(k)|
    ensures Magnitude(Digits(k)[j..], 0) < k
    decreases k
  {
    var d, t := Digits(k / 10), 48 + k % 10;
    if j < |d| {
      assert Digits(k)[j..] == d[j..] + [t];
      TailIsLess(k / 10, j);
      MagnitudeMore(d[j..], 0, t);
    } else {
      assert Digits(k)[j..] == [t] && [t][1..] == [];
      assert Magnitude([t], 0) == k % 10;
    }
  }

  lemma DigitsLength(k: nat)
    ensures |Digits(k)| <= 2 <==> k < 100
  {
    assert k >= 100 ==> k / 10 >= 10 && k / 10 / 10 >= 1;
  }

  /** With more digits left the number is theirs, and smaller than the length. */
  lemma LongLine(k: nat, y: bytes)
    requires 100 <= k <= INT32_MAX
    ensures |Digits(k)| > 2 && 0 <= ParseInt32(Digits(k)[1..] + CRLF, y) < k
  {
    DigitsLength(k);
    var d := Digits(k);
    var t := d[2..];
    assert (d[1..] + CRLF + y)[1..] == t + CRLF + y;
    TailIsLess(k, 2);
    LongValue(t, y);
  }

  lemma LongValue(t: bytes, y: bytes)
    requires t != [] && forall i :: 0 <= i < |t| ==> IsDigit(t[i])
    requires Magnitude(t, 0) <= INT32_MAX
    ensures Atoi(t + CRLF + y) == Magnitude(t, 0)
  {
    var s := t + CRLF;
    MagnitudeStops(s, 0, y);
    DigitsThenEnd(t, 0);
    assert (s + y)[0] == t[0];
  }

  lemma {:induction false} DigitsThenEnd(t: bytes, acc: nat)
    requires forall i :: 0 <= i < |t| ==> IsDigit(t[i])
    ensures Magnitude(t + CRLF, acc) == Magnitude(t, acc)
    decreases |t|
  {
    if t == [] {
      assert t + CRLF == CRLF;
    } else {
      assert (t + CRLF)[1..] == t[1..] + CRLF;
      DigitsThenEnd(t[1..], 10 * acc + (t[0] - 48));
    }
  }

  /** The number that the parser takes for the length of the argument a, when `after` is what follows a in memory. */
  function CountRead(a: bytes, after: bytes): int {
    ParseInt32(Digits(|a|)[1..] + CRLF, a + after)
  }

  lemma CountIsRight(a: bytes, after: bytes)
    requires |a| <= INT32_MAX
    ensures CountRead(a, after) == |a| <==> |a| < 100 && Atoi(a + after) == |a|
  {
    var d := Digits(|a|);
    DigitsLength(|a|);
    assert forall i :: 0 <= i < |d[1..]| ==> d[1..][i] == d[i + 1];
    if |a| < 100 {
      ShortLine(d[1..], a + after);
    } else {
      LongLine(|a|, a + after);
    }
  }

  /** A number that starts with a line ending and a dollar sign is zero. */
  lemma NoNumber(z: bytes)
    requires z != [] && z[0] == DOLLAR
    ensures Atoi(CRLF + z) == 0
  {
    assert (CRLF + z)[1..] == [LF] + z && ([LF] + z)[1..] == z;
    assert SkipSpaces([LF] + z) == SkipSpaces(z) == z;
    assert Magnitude(z, 0) == 0;
  }

  lemma NextArg(rest: Argv)
    requires rest != []
    ensures var z := EncodeArgs(rest); z != [] && z[0] == DOLLAR
  {
  }

  lemma SecondTurn(n: nat, a: bytes, z: bytes, slack: bytes)
    requires n > 1
    ensures var d := Digits(|a|);
      RequestLoop(Multibulk(n, 1, 0), [[]], d[1..] + CRLF + (a + (CRLF + z)), slack)
      == ReadBulk(Multibulk(n, 1, CountRead(a, CRLF + (z + slack))), [[]], a + (CRLF + z), slack)
  {
    var d, y := Digits(|a|)[1..], a + (CRLF + z);
    assert forall i :: 0 <= i < |d| ==> d[i] == Digits(|a|)[i + 1];
    SecondLine(d, y, slack);
    AllBehind(a, z, slack);
    hide ReadInt, Digits, ParseInt32;
    LoopIsBulk(Multibulk(n, 1, 0), [[]], d + CRLF + y, slack);
  }

  lemma AllBehind(a: bytes, z: bytes, slack: bytes)
    ensures a + (CRLF + z) + slack == a + (CRLF + (z + slack))
  {
  }

  /** The right number gives the argument and leaves the arguments behind it, which are read as they should. */
  lemma RightCount(a: bytes, rest: Argv, slack: bytes)
    requires Sendable([[], a] + rest)
    ensures Exactly(ReadBulk(Multibulk(|rest| + 2, 1, |a|), [[]], a + (CRLF + EncodeArgs(rest)), slack), [[], a] + rest)
  {
    hide *;
    var z, n, empty: bytes := EncodeArgs(rest), |rest| + 2, [];
    SendableRest(a, rest);
    ReadLengthOf(|a|);
    TakenArg(a, z);
    BulkTakes(Multibulk(n, 1, |a|), [empty], a + (CRLF + z), slack);
    assert [empty] + [a] == [empty, a] && z + [] == z;
    ReadBackArgs(Multibulk(n, 2, 0), [empty, a], rest, [], slack);
    ExactlyIs(ReadBulk(Multibulk(n, 1, |a|), [empty], a + (CRLF + z), slack), [empty, a] + rest);
  }

  lemma ExactlyIs(r: BulkOut, argv: Argv)
    requires r.err == OK && r.argv == argv && r.rest == []
    ensures Exactly(r, argv)
  {
  }

  lemma SendableRest(a: bytes, rest: Argv)
    requires Sendable([[], a] + rest)
    ensures |a| <= INT32_MAX - 2 && forall i :: 0 <= i < |rest| ==> |rest[i]| <= INT32_MAX - 2
  {
    var argv := [[], a] + rest;
    assert argv[1] == a && forall i :: 0 <= i < |rest| ==> rest[i] == argv[i + 2];
  }

  lemma TakenArg(a: bytes, z: bytes)
    ensures var x := a + (CRLF + z); var n := |a| + 2;
      n <= |x| && x[n..] == z && Trim(x[..n], 2) == a
  {
    var x := a + (CRLF + z);
    assert x[..|a| + 2] == a + CRLF && (a + CRLF)[..|a|] == a;
  }

  /** Any other number does not come to the request. */
  lemma WrongCount(a: bytes, rest: Argv, v: int, slack: bytes)
    requires Sendable([[], a] + rest) && v != |a| && -INT32_MAX - 1 <= v <= INT32_MAX
    requires v == -1 && a == [] ==> rest == []
    ensures !Exactly(ReadBulk(Multibulk(|rest| + 2, 1, v), [[]], a + (CRLF + EncodeArgs(rest)), slack), [[], a] + rest)
  {
    var z, n, k := EncodeArgs(rest), |rest| + 2, ReadLength(v);
    var x, argv := a + (CRLF + z), [[], a] + rest;
    assert argv[1] == a;
    hide RequestLoop, EncodeArgs;
    if k <= |x| {
      var arg := Trim(Taken(x, k), 2);
      var empty: bytes := [];
      assert [empty] + [arg] == [empty, arg];
      var next := Multibulk(n, 2, 0);
      LoopGrows(next, [empty, arg], x[k..], slack);
      WrongArg(a, rest, v, slack);
    }
  }

  lemma LengthIs(v: int, n: nat)
    requires -INT32_MAX - 1 <= v <= INT32_MAX && n <= INT32_MAX - 2 && ReadLength(v) == n + 2
    ensures v == n
  {
  }

  lemma TrimmedLength(x: bytes, k: nat)
    requires k <= |x| && |x| >= 2
    ensures |Trim(Taken(x, k), 2)| == if k == 0 then |x| - 2 else if k == 1 then 0 else k - 2
  {
  }

  lemma LoopOver(n: nat, argv: Argv, inp: bytes, slack: bytes)
    ensures RequestLoop(Multibulk(n, n, 0), argv, inp, slack).rest == inp
  {
  }

  /** The argument is another one, or bytes are left over. */
  lemma WrongArg(a: bytes, rest: Argv, v: int, slack: bytes)
    requires |a| <= INT32_MAX - 2 && v != |a| && -INT32_MAX - 1 <= v <= INT32_MAX
    requires v == -1 && a == [] ==> rest == []
    requires ReadLength(v) <= |a + (CRLF + EncodeArgs(rest))|
    ensures var x := a + (CRLF + EncodeArgs(rest)); var arg := Trim(Taken(x, ReadLength(v)), 2);
      arg != a || RequestLoop(Multibulk(|rest| + 2, 2, 0), [[], arg], x[ReadLength(v)..], slack).rest != []
  {
    var k := ReadLength(v);
    var x := a + (CRLF + EncodeArgs(rest));
    var arg := Trim(Taken(x, k), 2);
    TrimmedLength(x, k);
    if rest != [] {
      NextArg(rest);
    }
    if k >= 2 {
      if arg == a {
        LengthIs(v, |a|);
      }
    } else if arg == a {
      assert k == 1 ==> v == -1;
      hide RequestLoop, EncodeArgs, Taken, Trim;
      assert rest == [];
      LoopOver(2, [[], arg], x[k..], slack);
    }
  }

  /** The bytes behind a cut in an empty first argument are read as the request iff the next number is right. */
  lemma BehindCutIff(argv: Argv, slack: bytes)
    requires Sendable(argv) && |argv| > 1 && argv[0] == []
    ensures Exactly(RequestLoop(Multibulk(|argv|, 0, 0), [], CRLF + EncodeArgs(argv[1..]), slack), argv)
       <==> CountRead(argv[1], CRLF + (EncodeArgs(argv[2..]) + slack)) == |argv[1]|
  {
    var a, rest, n := argv[1], argv[2..], |argv|;
    var z, e := EncodeArgs(rest), EncodeArgs(argv[1..]);
    assert argv[1..][0] == a && argv[1..][1..] == rest && argv == [[], a] + rest;
    assert e == EncodeArg(a) + z;
    TailOfArg(a, z);
    FirstTurn(n, e, slack);
    SecondTurn(n, a, z, slack);
    var v := CountRead(a, CRLF + (z + slack));
    hide RequestLoop, EncodeArgs, EncodeArg, Exactly;
    if v == |a| {
      RightCount(a, rest, slack);
    } else {
      CountOfEmpty(a, rest, slack);
      WrongCount(a, rest, v, slack);
    }
  }

  lemma CountOfEmpty(a: bytes, rest: Argv, slack: bytes)
    ensures var v := CountRead(a, CRLF + (EncodeArgs(rest) + slack));
      -INT32_MAX - 1 <= v <= INT32_MAX && (a == [] && rest != [] ==> v == 0)
  {
    var z := EncodeArgs(rest) + slack;
    if a == [] && rest != [] {
      NextArg(rest);
      NoNumber(z);
      assert a + (CRLF + z) == CRLF + z && Digits(0)[1..] == [];
      ShortLine([], CRLF + z);
    }
  }

  /** The request goes on behind its empty first argument with one that spells its own length, in memory at least. */
  predicate SpellsLength(argv: Argv, slack: bytes) {
    && |argv| > 1 && |argv[1]| < 100
    && Atoi(argv[1] + (CRLF + (EncodeArgs(argv[2..]) + slack))) == |argv[1]|
  }

  lemma CutInEmptyParsedIff(argv: Argv, p: bytes, q: bytes, s1: bytes, s2: bytes)
    requires Sendable(argv) && p != [] && q != [] && p + q == Encode(argv) && CutInEmptyFirst(argv, |p|)
    ensures var r := ParseRequest(FRESH, [], p, s1); var o := ParseRequest(r.st, r.argv, r.rest + q, s2);
      o.err == OK && o.argv == argv && o.rest == [] <==> SpellsLength(argv, s2)
  {
    CutInEmptyParse(argv, p, q, s1);
    hide Encode, EncodeArgs, CutInEmptyFirst;
    if |argv| > 1 {
      BehindCutIff(argv, s2);
      CountIsRight(argv[1], CRLF + (EncodeArgs(argv[2..]) + s2));
      hide RequestLoop;
    } else {
      assert argv == [[]];
      NothingBehind(s2);
      hide RequestLoop;
    }
  }

  /** There is no second argument: the line ending is read as a header, and then bytes are missing. */
  lemma NothingBehind(slack: bytes)
    ensures !Exactly(RequestLoop(Multibulk(1, 0, 0), [], CRLF + EncodeArgs([[]][1..]), slack), [[]])
  {
    var argv: Argv := [[]];
    assert argv[1..] == [] && CRLF + EncodeArgs([]) == CRLF;
    IndexIs(CRLF, LF, 1);
    assert CRLF[2..] == [];
    LoopIsBulk(Multibulk(1, 0, 0), [], CRLF, slack);
  }

  /** The condition without the memory: what holds whatever is behind the second piece. */
  lemma SpellsLengthIff(argv: Argv)
    ensures (forall slack: bytes :: SpellsLength(argv, slack))
       <==> |argv| > 1 && |argv[1]| < 100
            && (if argv[1] == [] then |argv| > 2 else Atoi(argv[1] + CRLF) == |argv[1]|)
  {
    if |argv| > 1 {
      var a, z := argv[1], EncodeArgs(argv[2..]);
      if exists i :: 0 <= i < |a| && !IsSpace(a[i]) {
        forall slack: bytes ensures Atoi(a + (CRLF + (z + slack))) == Atoi(a + CRLF) {
          OwnNumber(a, z + slack);
        }
        assert SpellsLength(argv, []) <==> |a| < 100 && Atoi(a + CRLF) == |a|;
      } else {
        SpacesOnly(argv);
      }
    } else {
      assert !SpellsLength(argv, []);
    }
  }

  lemma OwnNumber(a: bytes, y: bytes)
    requires exists i :: 0 <= i < |a| && !IsSpace(a[i])
    ensures Atoi(a + (CRLF + y)) == Atoi(a + CRLF)
  {
    var i :| 0 <= i < |a| && !IsSpace(a[i]);
    var s := a + CRLF;
    assert s + y == a + (CRLF + y) && s[i] == a[i];
    SkipStops(s, i, y);
    SignedStops(SkipSpaces(s), y);
  }

  lemma SpacesOnly(argv: Argv)
    requires |argv| > 1 && forall i :: 0 <= i < |argv[1]| ==> IsSpace(argv[1][i])
    ensures (forall slack: bytes :: SpellsLength(argv, slack)) <==> argv[1] == [] && |argv| > 2
    ensures Atoi(argv[1] + CRLF) == 0
  {
    var a, rest := argv[1], argv[2..];
    var z := EncodeArgs(rest);
    forall y: bytes ensures Atoi(a + y) == Atoi(y) {
      AllSpaces(a, y);
    }
    assert Atoi(CRLF) == 0 by {
      assert CRLF[1..] == [LF] && [LF][1..] == [];
      assert SkipSpaces([LF]) == [] && SkipSpaces(CRLF) == SkipSpaces([LF]);
    }
    if rest != [] {
      NextArg(rest);
      forall slack: bytes ensures Atoi(a + (CRLF + (z + slack))) == 0 {
        NoNumber(z + slack);
      }
      assert SpellsLength(argv, []) <==> a == [];
    } else {
      assert z + [] == [] && CRLF + [] == CRLF;
      assert z + [49] == [49];
      AtoiOfOne();
      assert SpellsLength(argv, []) ==> a == [];
      assert SpellsLength(argv, [49]) ==> |a| == 1;
    }
  }

  lemma AtoiOfOne()
    ensures Atoi(CRLF + [49]) == 1
  {
    assert (CRLF + [49])[1..] == [LF, 49] && [LF, 49][1..] == [49] && [49][1..] == [];
    assert SkipSpaces([49]) == [49] && SkipSpaces([LF, 49]) == [49] && SkipSpaces(CRLF + [49]) == SkipSpaces([LF, 49]);
    assert Magnitude([49], 0) == 1;
  }
}
