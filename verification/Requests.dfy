/** Canonical requests: printing and parsing are inverse, however the stream is cut. */
module Requests {
  import opened Base
  import opened Decimal
  import opened Resp
  import opened Scanner
  import opened RequestMachine
  import opened Resumption

  lemma ReadLengthOf(n: nat)
    requires n <= INT32_MAX - 2
    ensures ReadLength(n) == n + 2
  {
  }

  /** A printed argument is its header line, its bytes and two more. */
  lemma ScanArg(arg: bytes, y: bytes, slack: bytes)
    requires |arg| <= INT32_MAX - 2
    ensures ReadInt(EncodeArg(arg) + y, slack) == Found(|arg|, Header(DOLLAR, |arg|), arg + CRLF + y)
    ensures PlainLine(Header(DOLLAR, |arg|))
    ensures var body := arg + CRLF + y; var n := |arg| + 2;
      && n <= |body| && body[n..] == y && Taken(body, n) == arg + CRLF && Trim(Taken(body, n), 2) == arg
  {
    var h := Header(DOLLAR, |arg|);
    var body := arg + CRLF + y;
    var n := |arg| + 2;
    assert EncodeArg(arg) + y == h + body;
    HeaderRoundTrip(DOLLAR, |arg|, body, slack);
    assert body[..n] == arg + CRLF && body[n..] == y;
    assert (arg + CRLF)[..|arg|] == arg;
  }

  lemma LoopIsBulk(m: Multibulk, argv: Argv, inp: bytes, slack: bytes)
    requires m.bulk == 0 && m.index < m.len && ReadInt(inp, slack).Found?
    ensures var h := ReadInt(inp, slack);
      RequestLoop(m, argv, inp, slack) == ReadBulk(m.(bulk := h.value), argv, h.rest, slack)
  {
    hide ReadInt, ReadBulk;
  }

  /** One turn of the loop that finds its header line and its bytes. */
  lemma OneTurn(m: Multibulk, argv: Argv, inp: bytes, slack: bytes)
    requires m.bulk == 0 && m.index < m.len && ReadInt(inp, slack).Found?
    requires 0 < ReadLength(ReadInt(inp, slack).value) <= |ReadInt(inp, slack).rest|
    ensures var h := ReadInt(inp, slack); var n := ReadLength(h.value);
      RequestLoop(m, argv, inp, slack)
      == RequestLoop(Multibulk(m.len, m.index + 1, 0), argv + [Trim(h.rest[..n], 2)], h.rest[n..], slack)
  {
    hide *;
    var h := ReadInt(inp, slack);
    LoopIsBulk(m, argv, inp, slack);
    BulkTakes(m.(bulk := h.value), argv, h.rest, slack);
  }

  lemma BulkTakes(m: Multibulk, argv: Argv, inp: bytes, slack: bytes)
    requires m.index < m.len && 0 < ReadLength(m.bulk) <= |inp|
    ensures var n := ReadLength(m.bulk);
      ReadBulk(m, argv, inp, slack)
      == RequestLoop(Multibulk(m.len, m.index + 1, 0), argv + [Trim(inp[..n], 2)], inp[n..], slack)
  {
    hide RequestLoop;
  }

  /** One printed argument is read back, whatever follows it. */
  lemma ReadBackArg(m: Multibulk, argv: Argv, arg: bytes, y: bytes, slack: bytes)
    requires m.bulk == 0 && m.index < m.len && |arg| <= INT32_MAX - 2
    ensures var next := Multibulk(m.len, m.index + 1, 0);
      RequestLoop(m, argv, EncodeArg(arg) + y, slack) == RequestLoop(next, argv + [arg], y, slack)
  {
    hide *;
    ScanArg(arg, y, slack);
    ReadLengthOf(|arg|);
    TakenIs(arg + CRLF + y, |arg| + 2);
    OneTurn(m, argv, EncodeArg(arg) + y, slack);
  }

  lemma TakenIs(s: bytes, n: nat)
    requires 0 < n <= |s|
    ensures Taken(s, n) == s[..n]
  {
  }

  lemma PlainArg(m: Multibulk, arg: bytes, y: bytes, slack: bytes)
    requires m.bulk == 0 && m.index < m.len && |arg| <= INT32_MAX - 2
    ensures PlainLoop(m, EncodeArg(arg) + y, slack) <==> PlainLoop(Multibulk(m.len, m.index + 1, 0), y, slack)
  {
    hide *;
    ScanArg(arg, y, slack);
    ReadLengthOf(|arg|);
    PlainTurn(m, EncodeArg(arg) + y, slack);
  }

  /** A turn that finds a plain header line and its bytes. */
  lemma PlainTurn(m: Multibulk, inp: bytes, slack: bytes)
    requires m.bulk == 0 && m.index < m.len
    requires ReadInt(inp, slack).Found? && PlainLine(ReadInt(inp, slack).line)
    requires 0 < ReadLength(ReadInt(inp, slack).value) <= |ReadInt(inp, slack).rest|
    ensures var h := ReadInt(inp, slack); var n := ReadLength(h.value);
      PlainLoop(m, inp, slack) <==> PlainLoop(Multibulk(m.len, m.index + 1, 0), h.rest[n..], slack)
  {
    hide ReadInt, ReadLength, PlainLine;
    var h := ReadInt(inp, slack);
    assert PlainLoop(m, inp, slack) <==> PlainBulk(m.(bulk := h.value), h.rest, slack);
  }

  lemma {:induction false} ReadBackArgs(m: Multibulk, argv: Argv, args: Argv, y: bytes, slack: bytes)
    requires m.bulk == 0 && m.len - m.index == |args|
    requires forall i :: 0 <= i < |args| ==> |args[i]| <= INT32_MAX - 2
    ensures RequestLoop(m, argv, EncodeArgs(args) + y, slack)
         == BulkOut(Multibulk(m.len, m.len, 0), argv + args, y, OK, false)
    ensures PlainLoop(m, EncodeArgs(args) + y, slack)
    decreases |args|
  {
    hide *;
    if args == [] {
      NothingLeft(m, argv, args, y, slack);
    } else {
      var tail := EncodeArgs(args[1..]) + y;
      var next := Multibulk(m.len, m.index + 1, 0);
      FirstArg(args, y);
      ReadBackArg(m, argv, args[0], tail, slack);
      PlainArg(m, args[0], tail, slack);
      ReadBackArgs(next, argv + [args[0]], args[1..], y, slack);
      assert argv + [args[0]] + args[1..] == argv + args;
    }
  }

  lemma NothingLeft(m: Multibulk, argv: Argv, args: Argv, y: bytes, slack: bytes)
    requires m.bulk == 0 && m.index == m.len && args == []
    ensures RequestLoop(m, argv, EncodeArgs(args) + y, slack) == BulkOut(m, argv + args, y, OK, false)
    ensures PlainLoop(m, EncodeArgs(args) + y, slack) && m == Multibulk(m.len, m.len, 0)
  {
    assert argv + args == argv && EncodeArgs(args) + y == y;
  }

  lemma FirstArg(args: Argv, y: bytes)
    requires args != []
    ensures EncodeArgs(args) + y == EncodeArg(args[0]) + (EncodeArgs(args[1..]) + y)
  {
    hide EncodeArg;
    Regroup(EncodeArg(args[0]), EncodeArgs(args[1..]), y);
  }

  /** The state in which ParseRequest reports a whole request of n arguments. */
  function Done(n: nat): ParserState {
    ParserState(MultibulkType, Multibulk(n, n, 0))
  }

  /** Parsing undoes printing, for arguments of any bytes, and stops at the last byte of the request. */
  lemma RoundTrip(argv: Argv, y: bytes, slack: bytes)
    requires Sendable(argv)
    ensures ParseRequest(FRESH, [], Encode(argv) + y, slack) == RequestOut(Done(|argv|), argv, y, OK, false)
  {
    var body := EncodeArgs(argv) + y;
    assert Encode(argv) + y == Header(STAR, |argv|) + body;
    HeaderRoundTrip(STAR, |argv|, body, slack);
    ReadBackArgs(Multibulk(|argv|, 0, 0), [], argv, y, slack);
    assert [] + argv == argv;
  }

  /** The encoding is injective and no request is a prefix of another. */
  lemma PrefixFree(a: Argv, b: Argv, x: bytes, y: bytes)
    requires Sendable(a) && Sendable(b)
    requires Encode(a) + x == Encode(b) + y
    ensures a == b && x == y
  {
    RoundTrip(a, x, []);
    RoundTrip(b, y, []);
  }

  /** A cut behind the header of an empty argument and before the end of its line ending. */
  predicate CutInEmptyArg(args: Argv, cut: nat) {
    && args != []
    && var size := |EncodeArg(args[0])|;
      if cut < size then args[0] == [] && cut >= |Header(DOLLAR, 0)|
      else CutInEmptyArg(args[1..], cut - size)
  }

  /** A cut exactly before the header of an argument. */
  predicate CutBeforeArg(args: Argv, cut: nat) {
    && args != []
    && (cut == 0 || (cut >= |EncodeArg(args[0])| && CutBeforeArg(args[1..], cut - |EncodeArg(args[0])|)))
  }

  predicate CutInEmpty(argv: Argv, cut: nat) {
    var h := |Header(STAR, |argv|)|;
    cut >= h && CutInEmptyArg(argv, cut - h)
  }

  predicate CutBeforeHeader(argv: Argv, cut: nat) {
    var h := |Header(STAR, |argv|)|;
    cut >= h && CutBeforeArg(argv, cut - h)
  }

  lemma NonEmptyArgsHaveNoGap(args: Argv, cut: nat)
    requires forall i :: 0 <= i < |args| ==> args[i] != []
    ensures !CutInEmptyArg(args, cut)
    decreases |args|
  {
    if args != [] && cut >= |EncodeArg(args[0])| {
      NonEmptyArgsHaveNoGap(args[1..], cut - |EncodeArg(args[0])|);
    }
  }

  lemma NoGap(argv: Argv, cut: nat)
    requires forall i :: 0 <= i < |argv| ==> argv[i] != []
    ensures !CutInEmpty(argv, cut)
  {
    var h := |Header(STAR, |argv|)|;
    if cut >= h {
      NonEmptyArgsHaveNoGap(argv, cut - h);
    }
  }

  /** Part of a header line is no header line. */
  lemma PartOfHeader(lead: byte, n: nat, p: bytes, slack: bytes)
    requires lead != LF && n <= INT32_MAX && p < Header(lead, n)
    ensures ReadInt(p, slack) == NoLine(if p == [] then OutOfBound else TryAgain)
  {
    var h := Header(lead, n);
    IndexInHeader(lead, n, []);
    assert h + [] == h;
    assert forall j :: 0 <= j < |p| ==> p[j] == h[j] != LF;
    if LF in p { assert false; }
    IndexStable(p, [], LF);
  }

  /** How the loop ends on part of the arguments. */
  ghost predicate StopsAt(r: BulkOut, args: Argv, cut: nat) {
    && Incomplete(r.err)
    && (r.midBulk && r.mb.bulk == 0 <==> CutInEmptyArg(args, cut))
    && (r.err == OutOfBound <==> CutBeforeArg(args, cut))
  }

  lemma PartOfArg(m: Multibulk, argv: Argv, arg: bytes, p: bytes, slack: bytes)
    requires m.bulk == 0 && m.index < m.len && |arg| <= INT32_MAX - 2
    requires p < EncodeArg(arg)
    ensures PlainLoop(m, p, slack)
    ensures var r := RequestLoop(m, argv, p, slack);
      && Incomplete(r.err)
      && (r.midBulk && r.mb.bulk == 0 <==> arg == [] && |p| >= |Header(DOLLAR, 0)|)
      && (r.err == OutOfBound <==> p == [])
  {
    var h := Header(DOLLAR, |arg|);
    Regroup(h, arg, CRLF);
    SplitPrefix(h, arg + CRLF, p);
    if |p| < |h| {
      PartOfHeader(DOLLAR, |arg|, p, slack);
    } else {
      var q := p[|h|..];
      HeaderRoundTrip(DOLLAR, |arg|, q, slack);
      ReadLengthOf(|arg|);
    }
  }

  lemma {:induction false} PartOfArgs(m: Multibulk, argv: Argv, args: Argv, p: bytes, slack: bytes)
    requires m.bulk == 0 && m.len - m.index == |args|
    requires forall i :: 0 <= i < |args| ==> |args[i]| <= INT32_MAX - 2
    requires p < EncodeArgs(args)
    ensures PlainLoop(m, p, slack)
    ensures StopsAt(RequestLoop(m, argv, p, slack), args, |p|)
    decreases |args|
  {
    var e := EncodeArg(args[0]);
    SplitPrefix(e, EncodeArgs(args[1..]), p);
    if |p| < |e| {
      PartOfArg(m, argv, args[0], p, slack);
    } else {
      var q := p[|e|..];
      ReadBackArg(m, argv, args[0], q, slack);
      PlainArg(m, args[0], q, slack);
      PartOfArgs(Multibulk(m.len, m.index + 1, 0), argv + [args[0]], args[1..], q, slack);
    }
  }

  /**
   * A call on part of a request never reports a request. It loses its place exactly when the cut is
   * inside an empty argument, and it reports OutOfBound, not TryAgain, exactly when the cut is in
   * front of an argument header.
   */
  lemma PartOfRequest(argv: Argv, p: bytes, slack: bytes)
    requires Sendable(argv) && [] < p < Encode(argv)
    ensures Stopped(FRESH, [], p, slack)
    ensures var r := ParseRequest(FRESH, [], p, slack);
      && (InEmptyBulk(r) <==> CutInEmpty(argv, |p|))
      && (r.err == OutOfBound <==> CutBeforeHeader(argv, |p|))
  {
    var h := Header(STAR, |argv|);
    var body := EncodeArgs(argv);
    SplitPrefix(h, body, p);
    assert p[0] == h[0] == STAR;
    if |p| < |h| {
      PartOfHeader(STAR, |argv|, p, slack);
    } else {
      var q := p[|h|..];
      HeaderRoundTrip(STAR, |argv|, q, slack);
      PartOfArgs(Multibulk(|argv|, 0, 0), [], argv, q, slack);
      LoopEnds(Multibulk(|argv|, 0, 0), [], q, slack);
    }
  }

  /** A cut of a canonical request is harmless, whatever comes next, iff it is outside its empty arguments. */
  lemma CutOfRequestIff(argv: Argv, p: bytes, slack: bytes)
    requires Sendable(argv) && [] < p < Encode(argv)
    ensures (forall b: bytes, s2: bytes :: b != [] ==> Resumed(ParseRequest(FRESH, [], p, slack), FRESH, [], p, b, s2))
       <==> !CutInEmpty(argv, |p|)
  {
    PartOfRequest(argv, p, slack);
    CutIsTransparentIff(FRESH, [], p, slack);
  }
}
