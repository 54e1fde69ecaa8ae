/** Resuming a request parse after more bytes arrive, on arbitrary bytes. */
module Resumption {
  import opened Base
  import opened Decimal
  import opened Resp
  import opened Scanner
  import opened RequestMachine

  /** Every header read from inp is plain, and none of them is -2, the length whose `Read` takes nothing. */
  ghost predicate PlainLoop(m: Multibulk, inp: bytes, slack: bytes)
    decreases m.len - m.index
  {
    m.index < m.len ==>
      if m.bulk == 0 then
        match ReadInt(inp, slack)
        case NoLine(_) => true
        case Found(v, line, rest) => PlainLine(line) && PlainBulk(m.(bulk := v), rest, slack)
      else PlainBulk(m, inp, slack)
  }

  ghost predicate PlainBulk(m: Multibulk, inp: bytes, slack: bytes)
    requires m.index < m.len
    decreases m.len - m.index, 0
  {
    var n := ReadLength(m.bulk);
    n > 0 && (n <= |inp| ==> PlainLoop(Multibulk(m.len, m.index + 1, 0), inp[n..], slack))
  }

  ghost predicate PlainRequest(st: ParserState, inp: bytes, slack: bytes) {
    inp != [] && RequestKind(st.kind, inp[0]) == MultibulkType ==>
      if st.mb.len == 0 then
        match ReadInt(inp, slack)
        case NoLine(_) => true
        case Found(v, line, rest) => PlainLine(line) && PlainLoop(st.mb.(len := v), rest, slack)
      else PlainLoop(st.mb, inp, slack)
  }

  /** Inline input in which no token is empty. */
  ghost predicate PlainInline(inp: bytes)
    decreases |inp|
  {
    var k := FirstSplit(inp);
    k < |inp| ==> k > 0 && (inp[k] == SPACE ==> PlainInline(inp[k + 1..]))
  }

  /** The state a stopped loop goes on from. */
  function GoOn(r: BulkOut, more: bytes, slack: bytes): BulkOut
    requires r.mb.index < r.mb.len
  {
    if r.midBulk then ReadBulk(r.mb, r.argv, r.rest + more, slack)
    else RequestLoop(r.mb, r.argv, r.rest + more, slack)
  }

  /** How a loop can end. */
  ghost predicate Ends(m: Multibulk, r: BulkOut) {
    && (r.err == OK || Incomplete(r.err))
    && r.mb.len == m.len
    && (r.err != OK ==> m.index <= r.mb.index < m.len)
    && (r.err != OK && !r.midBulk ==> r.mb.bulk == 0 && LF !in r.rest)
    && (r.midBulk ==> r.err == TryAgain && (r.rest == [] || |r.rest| < ReadLength(r.mb.bulk)))
    && (r.err == OutOfBound <==> r.err != OK && !r.midBulk && r.rest == [])
  }

  lemma {:induction false} LoopEnds(m: Multibulk, argv: Argv, inp: bytes, slack: bytes)
    ensures Ends(m, RequestLoop(m, argv, inp, slack))
    decreases m.len - m.index
  {
    if m.index < m.len {
      if m.bulk == 0 {
        var h := ReadInt(inp, slack);
        if h.Found? {
          BulkEnds(m.(bulk := h.value), argv, h.rest, slack);
        }
      } else {
        BulkEnds(m, argv, inp, slack);
      }
    }
  }

  lemma {:induction false} BulkEnds(m: Multibulk, argv: Argv, inp: bytes, slack: bytes)
    requires m.index < m.len
    ensures Ends(m, ReadBulk(m, argv, inp, slack))
    decreases m.len - m.index, 0
  {
    var n := ReadLength(m.bulk);
    if inp != [] && n <= |inp| {
      LoopEnds(Multibulk(m.len, m.index + 1, 0), argv + [Trim(Taken(inp, n), 2)], inp[n..], slack);
    }
  }

  ghost predicate Extends(r: BulkOut, r': BulkOut, b: bytes, s2: bytes) {
    && (r.err == OK ==> r' == r.(rest := r.rest + b))
    && (r.err != OK ==> r.mb.index < r.mb.len && r' == GoOn(r, b, s2))
  }

  lemma {:induction false} LoopExtends(m: Multibulk, argv: Argv, a: bytes, b: bytes, s1: bytes, s2: bytes)
    requires PlainLoop(m, a, s1)
    ensures Extends(RequestLoop(m, argv, a, s1), RequestLoop(m, argv, a + b, s2), b, s2)
    decreases m.len - m.index
  {
    if m.index < m.len {
      if m.bulk == 0 {
        var h := ReadInt(a, s1);
        if h.Found? {
          ReadIntExtends(a, b, s1, s2);
          BulkExtends(m.(bulk := h.value), argv, h.rest, b, s1, s2);
        }
      } else {
        BulkExtends(m, argv, a, b, s1, s2);
      }
    }
  }

  lemma {:induction false} BulkExtends(m: Multibulk, argv: Argv, a: bytes, b: bytes, s1: bytes, s2: bytes)
    requires m.index < m.len && PlainBulk(m, a, s1)
    ensures Extends(ReadBulk(m, argv, a, s1), ReadBulk(m, argv, a + b, s2), b, s2)
    decreases m.len - m.index, 0
  {
    hide RequestLoop, PlainLoop;
    var n := ReadLength(m.bulk);
    if n <= |a| {
      CutBehind(a, b, n);
      assert Taken(a + b, n) == Taken(a, n) == a[..n];
      LoopExtends(Multibulk(m.len, m.index + 1, 0), argv + [Trim(Taken(a, n), 2)], a[n..], b, s1, s2);
    }
  }

  lemma FirstSplitStable(a: bytes, b: bytes)
    requires FirstSplit(a) < |a|
    requires a[FirstSplit(a)] == LF ==> SPACE !in b
    ensures FirstSplit(a + b) == FirstSplit(a)
  {
    IndexStable(a, b, SPACE);
    IndexStable(a, b, LF);
  }

  lemma {:induction false} InlineExtends(argv: Argv, a: bytes, b: bytes)
    requires PlainInline(a) && (InlineRequest(argv, a).err == OK ==> SPACE !in b)
    ensures var r := InlineRequest(argv, a);
      && (r.err == OK ==> InlineRequest(argv, a + b) == r.(rest := r.rest + b))
      && (r.err != OK ==> InlineRequest(argv, a + b) == InlineRequest(r.argv, r.rest + b))
    decreases |a|
  {
    var k := FirstSplit(a);
    if k < |a| {
      FirstSplitStable(a, b);
      assert (a + b)[..k] == a[..k] && (a + b)[k + 1..] == a[k + 1..] + b;
      assert Taken(a + b, k) == Taken(a, k) == a[..k] && (a + b)[k - 1] == a[k - 1];
      if a[k] == SPACE {
        var more := argv + [a[..k]];
        assert InlineRequest(argv, a + b) == InlineRequest(more, a[k + 1..] + b);
        InlineExtends(more, a[k + 1..], b);
      }
    }
  }

  /** The call stopped behind the header of an empty bulk string and before its line ending. */
  predicate InEmptyBulk(r: RequestOut) {
    r.err == TryAgain && r.midBulk && r.st.mb.bulk == 0
  }

  /** Going on from r with b is the same as one call on a + b. */
  ghost predicate Resumed(r: RequestOut, st: ParserState, argv: Argv, a: bytes, b: bytes, slack: bytes) {
    ParseRequest(r.st, r.argv, r.rest + b, slack) == ParseRequest(st, argv, a + b, slack)
  }

  /** A first call of ParseRequest on a that left a request unfinished. */
  ghost predicate Stopped(st: ParserState, argv: Argv, a: bytes, slack: bytes) {
    && Resumable(st.mb) && a != []
    && PlainRequest(st, a, slack)
    && (RequestKind(st.kind, a[0]) != MultibulkType ==> PlainInline(a))
    && Incomplete(ParseRequest(st, argv, a, slack).err)
  }

  /** One call on all the bytes goes on exactly where the stopped call was. */
  lemma OneCall(st: ParserState, argv: Argv, a: bytes, b: bytes, s1: bytes, s2: bytes)
    requires Stopped(st, argv, a, s1)
    requires RequestKind(st.kind, a[0]) == MultibulkType
    ensures var r := ParseRequest(st, argv, a, s1);
      var r' := ParseRequest(st, argv, a + b, s2);
      && Resumable(r.st.mb) && r.st.kind == r'.st.kind == MultibulkType
      && (r.midBulk ==> r.err == TryAgain && r.st.mb.index < r.st.mb.len)
      && (r.midBulk ==> r.rest == [] || |r.rest| < ReadLength(r.st.mb.bulk))
      && (r.midBulk ==> var g := ReadBulk(r.st.mb, r.argv, r.rest + b, s2);
          r' == RequestOut(ParserState(MultibulkType, g.mb), g.argv, g.rest, g.err, g.midBulk))
      && (!r.midBulk ==> var g := HandleRequest(r.st.mb, r.argv, r.rest + b, s2);
          r.st.mb.bulk == 0 && r' == RequestOut(ParserState(MultibulkType, g.mb), g.argv, g.rest, g.err, g.midBulk))
  {
    assert (a + b)[0] == a[0];
    if st.mb.len == 0 {
      var h := ReadInt(a, s1);
      if h.Found? {
        ReadIntExtends(a, b, s1, s2);
        LoopEnds(st.mb.(len := h.value), argv, h.rest, s1);
        LoopExtends(st.mb.(len := h.value), argv, h.rest, b, s1, s2);
      }
    } else {
      LoopEnds(st.mb, argv, a, s1);
      LoopExtends(st.mb, argv, a, b, s1, s2);
    }
  }

  lemma InlineResumes(st: ParserState, argv: Argv, a: bytes, b: bytes, s1: bytes, s2: bytes)
    requires Stopped(st, argv, a, s1) && b != []
    requires RequestKind(st.kind, a[0]) != MultibulkType
    ensures Resumed(ParseRequest(st, argv, a, s1), st, argv, a, b, s2)
    ensures ParseRequest(st, argv, a, s1).st.mb == st.mb
  {
    assert (a + b)[0] == a[0];
    InlineExtends(argv, a, b);
  }

  lemma RequestResumes(st: ParserState, argv: Argv, a: bytes, b: bytes, s1: bytes, s2: bytes)
    requires Stopped(st, argv, a, s1) && b != []
    requires !InEmptyBulk(ParseRequest(st, argv, a, s1))
    ensures Resumed(ParseRequest(st, argv, a, s1), st, argv, a, b, s2)
    ensures Resumable(ParseRequest(st, argv, a, s1).st.mb)
  {
    var r := ParseRequest(st, argv, a, s1);
    var c := r.rest + b;
    if RequestKind(st.kind, a[0]) == MultibulkType {
      OneCall(st, argv, a, b, s1, s2);
      var go := HandleRequest(r.st.mb, r.argv, c, s2);
      assert r.midBulk ==> go == ReadBulk(r.st.mb, r.argv, c, s2);
    } else {
      InlineResumes(st, argv, a, b, s1, s2);
    }
  }

  /**
   * Inside an empty bulk string the length field reads "no header yet": the two bytes that end the
   * bulk are taken for a header and the argument is not appended, although one call would append it.
   */
  lemma EmptyBulkLosesItsPlace(st: ParserState, argv: Argv, a: bytes, b: bytes, s1: bytes, s2: bytes)
    requires Stopped(st, argv, a, s1)
    requires InEmptyBulk(ParseRequest(st, argv, a, s1))
    requires |ParseRequest(st, argv, a, s1).rest + b| == 2
    ensures var r := ParseRequest(st, argv, a, s1);
      && ParseRequest(r.st, r.argv, r.rest + b, s2).argv == r.argv
      && ParseRequest(st, argv, a + b, s2).argv == r.argv + [[]]
  {
    var r := ParseRequest(st, argv, a, s1);
    OneCall(st, argv, a, b, s1, s2);
    var c := r.rest + b;
    assert ReadLength(0) == 2 && Trim(Taken(c, 2), 2) == [] && c[2..] == [];
    var h := ReadInt(c, s2);
    assert h.Found? && h.rest != [] ==> |h.line| == 1 && h.value == 0;
    assert RequestLoop(r.st.mb, r.argv, c, s2).argv == r.argv;
  }

  /** Where a stream may be cut: a stopped call resumes right for all bytes to come iff it is not in an empty bulk. */
  lemma CutIsTransparentIff(st: ParserState, argv: Argv, a: bytes, s1: bytes)
    requires Stopped(st, argv, a, s1)
    ensures (forall b: bytes, s2: bytes :: b != [] ==> Resumed(ParseRequest(st, argv, a, s1), st, argv, a, b, s2))
       <==> !InEmptyBulk(ParseRequest(st, argv, a, s1))
  {
    var r := ParseRequest(st, argv, a, s1);
    if InEmptyBulk(r) {
      OneCall(st, argv, a, [], s1, []);
      var b: bytes := if r.rest == [] then CRLF else [LF];
      EmptyBulkLosesItsPlace(st, argv, a, b, s1, []);
      assert !Resumed(r, st, argv, a, b, []);
    } else {
      forall b: bytes, s2: bytes | b != [] ensures Resumed(r, st, argv, a, b, s2) {
        RequestResumes(st, argv, a, b, s1, s2);
      }
    }
  }

  // ---- lengths that no printer writes

  /** No input that fits into memory is long enough. */
  predicate TooLong(bulk: int) {
    -INT32_MAX - 1 <= bulk < -2 || INT32_MAX - 2 < bulk <= INT32_MAX
  }

  /**
   * An argument of length -1 is one byte long and reads as empty, one of length -2 is all the bytes there are
   * without the last two, and these bytes are read again. With any other length that is not one the call waits.
   */
  lemma OddLengths(m: Multibulk, argv: Argv, inp: bytes, slack: bytes)
    requires m.index < m.len && inp != [] && |inp| < TWO_63
    ensures var r := ReadBulk(m, argv, inp, slack); var next := Multibulk(m.len, m.index + 1, 0);
      && (m.bulk == -1 ==> r == RequestLoop(next, argv + [[]], inp[1..], slack))
      && (m.bulk == -2 ==> r == RequestLoop(next, argv + [if |inp| < 2 then [] else inp[..|inp| - 2]], inp, slack))
      && (TooLong(m.bulk) ==> r == BulkOut(m, argv, inp, TryAgain, true))
  {
    assert inp[0..] == inp;
    assert m.bulk == -1 ==> Trim(Taken(inp, 1), 2) == [];
  }

  /** A parser that stands in front of such an argument waits for ever. */
  lemma NeverComes(st: ParserState, argv: Argv, inp: bytes, slack: bytes)
    requires st.kind == MultibulkType && 0 <= st.mb.index < st.mb.len && TooLong(st.mb.bulk) && |inp| < TWO_63
    ensures ParseRequest(st, argv, inp, slack) == RequestOut(st, argv, inp, TryAgain, inp != [])
  {
    if inp != [] {
      OddLengths(st.mb, argv, inp, slack);
    }
  }
}
