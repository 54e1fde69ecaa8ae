/**
 * A request that was kept back because the upstream took no more, and what sending it later comes to: the parser
 * was not reset behind it.
 */
module SessionRetries {
  import opened Base
  import opened Decimal
  import opened Resp
  import opened Scanner
  import opened RequestMachine
  import opened Resumption
  import opened Requests
  import opened InlineRequests
  import opened UpstreamMachine
  import opened SessionMachine
  import opened SessionBatches

  /** The parser states in which a request with arguments is reported: behind an inline line, or behind an array. */
  predicate Finished(st: ParserState) {
    st == InlineDone || (st.mb.len > 0 && st == Done(st.mb.len))
  }

  lemma {:induction false} LoopFinishes(m: Multibulk, argv: Argv, inp: bytes, slack: bytes)
    ensures var r := RequestLoop(m, argv, inp, slack);
      r.err == OK ==> if m.index < m.len then r.mb == Multibulk(m.len, m.len, 0) else r.mb == m && r.argv == argv
    decreases m.len - m.index
  {
    if m.index < m.len {
      if m.bulk == 0 {
        var h := ReadInt(inp, slack);
        if h.Found? {
          BulkFinishes(m.(bulk := h.value), argv, h.rest, slack);
        }
      } else {
        BulkFinishes(m, argv, inp, slack);
      }
    }
  }

  lemma {:induction false} BulkFinishes(m: Multibulk, argv: Argv, inp: bytes, slack: bytes)
    requires m.index < m.len
    ensures var r := ReadBulk(m, argv, inp, slack); r.err == OK ==> r.mb == Multibulk(m.len, m.len, 0)
    decreases m.len - m.index, 0
  {
    var n := ReadLength(m.bulk);
    if inp != [] && n <= |inp| {
      LoopFinishes(Multibulk(m.len, m.index + 1, 0), argv + [Trim(Taken(inp, n), 2)], inp[n..], slack);
    }
  }

  /** Behind an array header whose count is zero or negative; there are no arguments. */
  predicate NoneCounted(st: ParserState) {
    st.mb.len <= 0 && st == ParserState(MultibulkType, Multibulk(st.mb.len, 0, 0))
  }

  /** The states in which a request is reported, on arbitrary bytes. */
  lemma FinishedStates(st: ParserState, argv: Argv, inp: bytes, slack: bytes)
    requires Resumable(st.mb) && (st.kind != MultibulkType ==> st.mb == START)
    requires ParseRequest(st, argv, inp, slack).err == OK
    ensures var r := ParseRequest(st, argv, inp, slack);
      Finished(r.st) || (NoneCounted(r.st) && r.argv == argv)
  {
    hide RequestLoop, InlineRequest;
    if RequestKind(st.kind, inp[0]) == MultibulkType {
      if st.mb.len == 0 {
        var h := ReadInt(inp, slack);
        LoopFinishes(st.mb.(len := h.value), argv, h.rest, slack);
      } else {
        LoopFinishes(st.mb, argv, inp, slack);
      }
    }
  }

  ghost predicate KeptBack(c: Client) {
    c.current != [] && Finished(c.st)
  }

  /** The session as it would be after `parser_.Reset` and `currentCmd_.Reset`. */
  function Reset(c: Client): Client {
    c.(st := FRESH, current := [])
  }

  /** An inline request is kept back like one in an array, but in the other state. */
  lemma InlineIsHeldBack(c: Client, l: Link, ws: Argv, ending: bytes, y: bytes, slack: bytes)
    requires WordList(ws) && Ending(ending) && SPACE !in y && Room(l) == 0
    requires c.st == FRESH && c.current == [] && c.input == Typed(ws, ending) + y
    ensures ClientRead(c, l, slack)
         == ClientOut(c.(st := InlineDone, current := ws, input := y, readable := false), l, OK)
  {
    InlineReadIff(ws, ending, y, slack);
    NoRoom(l, ws, SessionReader(c.id));
    hide ParseRequest, PoolPush;
  }

  /** Only behind an inline request, and in front of another one, does the parser go on as a fresh one. */
  lemma NextParseIff(st: ParserState, inp: bytes, slack: bytes)
    requires Finished(st) && inp != []
    ensures ParseRequest(st, [], inp, slack) == ParseRequest(FRESH, [], inp, slack)
       <==> st == InlineDone && inp[0] != STAR
  {
    RequestShrinks(FRESH, [], inp, slack);
  }

  lemma FreshStops(inp: bytes, slack: bytes)
    requires inp != []
    ensures var r := ParseRequest(FRESH, [], inp, slack);
      r.err != OK && r.st.mb.len > 0 ==> r.st.mb.index < r.st.mb.len
  {
    var h := ReadInt(inp, slack);
    if h.Found? {
      LoopEnds(START.(len := h.value), [], h.rest, slack);
    }
  }

  /** As long as the upstream takes no more, a call of the loop is one parse. */
  lemma OneParse(d: Client, l: Link, slack: bytes)
    requires d.current == [] && d.input != [] && Room(l) == 0
    ensures var r := ParseRequest(d.st, [], d.input, slack); var o := ReadLoop(d, l, slack);
      && o.link == l && o.client.st == r.st && o.client.input == r.rest
      && o.err == if r.err == TryAgain then OK else r.err
  {
    NoRoom(l, ParseRequest(d.st, [], d.input, slack).argv, SessionReader(d.id));
    hide ParseRequest, PoolPush;
  }

  lemma SameParse(d: Client, l: Link, slack: bytes)
    requires d.st == InlineDone && d.current == [] && d.input != [] && d.input[0] != STAR
    ensures ReadLoop(d, l, slack) == ReadLoop(Reset(d), l, slack)
  {
    NextParseIff(d.st, d.input, slack);
    hide ParseRequest, PoolPush;
  }

  lemma OtherParse(d: Client, l: Link, slack: bytes)
    requires Finished(d.st) && d.current == [] && d.input != [] && Room(l) == 0
    requires !(d.st == InlineDone && d.input[0] != STAR)
    ensures ReadLoop(d, l, slack) != ReadLoop(Reset(d), l, slack)
  {
    OneParse(d, l, slack);
    OneParse(Reset(d), l, slack);
    RequestShrinks(FRESH, [], d.input, slack);
    FreshStops(d.input, slack);
    hide ReadLoop, RequestLoop, InlineRequest, ReadInt;
  }

  /** The request in hand is sent, and then the parser goes on where it stands. */
  lemma RetrySends(c: Client, l: Link, slack: bytes)
    requires KeptBack(c) && Room(l) > 0
    ensures var next := Accepting(l, SessionReader(c.id), [c.current]);
      && Room(next) == Room(l) - 1
      && ClientRead(c, l, slack) == ReadLoop(c.(current := []), next, slack)
  {
    var reader := SessionReader(c.id);
    AcceptFirst(l, reader, [c.current]);
    assert [c.current][1..] == [];
    AcceptNone(PoolPush(l, c.current, reader).link, reader);
    hide PoolPush, Accepting, ReadLoop;
  }

  lemma AcceptTwo(l: Link, reader: Reader, a: Argv, b: Argv)
    requires Room(l) > 1
    ensures var p := PoolPush(Accepting(l, reader, [a]), b, reader);
      p.err == OK && p.link == Accepting(l, reader, [a, b])
  {
    assert [a, b][1..] == [b] && [a][1..] == [] && [b][1..] == [];
    AcceptFirst(l, reader, [a, b]);
    AcceptFirst(l, reader, [a]);
    var p := PoolPush(l, a, reader);
    AcceptNone(p.link, reader);
    AcceptFirst(p.link, reader, [b]);
    AcceptNone(PoolPush(p.link, b, reader).link, reader);
  }

  function FullLink(free: nat): Link {
    Link(true, Books(true, [], []), free, [], [])
  }

  /**
   * Sending a request that was kept back is harmless, whatever the upstream takes afterwards, iff it was an
   * inline request and the next byte does not start an array. With nothing behind it see RetryLaterIff.
   */
  lemma RetryIsHarmlessIff(c: Client)
    requires KeptBack(c)
    ensures (forall l: Link, slack: bytes :: Room(l) > 0 ==>
               ClientRead(c, l, slack) == ReadLoop(Reset(c), Accepting(l, SessionReader(c.id), [c.current]), slack))
       <==> c.st == InlineDone && c.input != [] && c.input[0] != STAR
  {
    var reader, d := SessionReader(c.id), c.(current := []);
    if c.st == InlineDone && c.input != [] && c.input[0] != STAR {
      forall l: Link, slack: bytes | Room(l) > 0
        ensures ClientRead(c, l, slack) == ReadLoop(Reset(c), Accepting(l, reader, [c.current]), slack)
      {
        RetrySends(c, l, slack);
        SameParse(d, Accepting(l, reader, [c.current]), slack);
      }
    } else {
      var l := FullLink(1);
      var next := Accepting(l, reader, [c.current]);
      RetrySends(c, l, []);
      if c.input != [] {
        OtherParse(d, next, []);
      }
      assert ClientRead(c, l, []) != ReadLoop(Reset(c), next, []);
    }
  }

  /** When nothing is behind it, the parser stays as it is until the next piece, with the same outcome. */
  lemma RetryLaterIff(c: Client, l: Link, q: bytes, slack: bytes)
    requires KeptBack(c) && c.input == [] && Room(l) > 0 && q != []
    ensures ClientRead(c, l, slack)
         == ClientOut(c.(current := []), Accepting(l, SessionReader(c.id), [c.current]), OK)
    ensures (forall l2: Link, s2: bytes ::
               ClientRead(c.(current := [], input := q), l2, s2) == ClientRead(Reset(c).(input := q), l2, s2))
       <==> c.st == InlineDone && q[0] != STAR
  {
    RetrySends(c, l, slack);
    var d := c.(current := [], input := q);
    assert Reset(d) == Reset(c).(input := q);
    if c.st == InlineDone && q[0] != STAR {
      forall l2: Link, s2: bytes ensures ClientRead(d, l2, s2) == ClientRead(Reset(d), l2, s2) {
        SameParse(d, l2, s2);
      }
    } else {
      OtherParse(d, FullLink(0), []);
      assert ClientRead(d, FullLink(0), []) != ClientRead(Reset(d), FullLink(0), []);
    }
  }

  /**
   * Behind an array the parser reports a request without arguments before it looks at the input: it is sent
   * too, at once if the upstream takes it, and otherwise by a later call.
   */
  lemma RetryAddsAnEmptyRequest(c: Client, l: Link, slack: bytes)
    requires KeptBack(c) && c.st != InlineDone && c.input != [] && Room(l) > 0
    ensures ClientRead(c, l, slack)
         == if Room(l) > 1 then ReadLoop(Reset(c), Accepting(l, SessionReader(c.id), [c.current, []]), slack)
            else ClientOut(c.(current := [], readable := false), Accepting(l, SessionReader(c.id), [c.current]), OK)
  {
    var reader, n := SessionReader(c.id), c.st.mb.len;
    RetrySends(c, l, slack);
    assert ParseRequest(Done(n), [], c.input, slack) == RequestOut(Done(n), [], c.input, OK, false);
    NoRoom(Accepting(l, reader, [c.current]), [], reader);
    if Room(l) > 1 {
      AcceptTwo(l, reader, c.current, []);
      assert c.(current := []).(st := FRESH) == Reset(c);
    }
  }

  /**
   * A request whose header counted zero arguments is forgotten when it was kept back: the next call takes it for
   * none at all. What is left of it does no harm iff another array follows.
   */
  lemma EmptyRequestIsForgotten(c: Client)
    requires c.st == Done(0) && c.current == [] && c.input != []
    ensures (forall l: Link, slack: bytes :: ClientRead(c, l, slack) == ClientRead(Reset(c), l, slack))
       <==> c.input[0] == STAR
  {
    if c.input[0] == STAR {
      forall l: Link, slack: bytes ensures ClientRead(c, l, slack) == ClientRead(Reset(c), l, slack) {
        SameKind(c.input, slack);
        hide ParseRequest, PoolPush;
      }
    } else {
      OneParse(c, FullLink(0), []);
      OneParse(Reset(c), FullLink(0), []);
      OtherKind(c.input, []);
      hide ReadLoop, ParseRequest;
      assert ClientRead(c, FullLink(0), []) != ClientRead(Reset(c), FullLink(0), []);
    }
  }

  lemma OtherKind(inp: bytes, slack: bytes)
    requires inp != [] && inp[0] != STAR
    ensures ParseRequest(Done(0), [], inp, slack).st.kind != ParseRequest(FRESH, [], inp, slack).st.kind
  {
    hide HandleRequest, InlineRequest;
  }

  lemma SameKind(inp: bytes, slack: bytes)
    requires inp != [] && inp[0] == STAR
    ensures ParseRequest(Done(0), [], inp, slack) == ParseRequest(FRESH, [], inp, slack)
  {
    hide HandleRequest;
  }

  function NegativeHeader(n: nat): bytes {
    [STAR, MINUS] + Digits(n) + CRLF
  }

  lemma NegativeLine(n: nat, y: bytes)
    ensures var h := NegativeHeader(n); Index(h + y, LF) == |h| - 1 && h[0] == STAR
  {
    var d, h := Digits(n), NegativeHeader(n);
    assert forall j :: 2 <= j < |h| - 2 ==> h[j] == d[j - 2];
    IndexIs(h + y, LF, |h| - 1);
  }

  lemma NegativeValue(n: nat, beyond: bytes)
    requires 0 < n <= INT32_MAX
    ensures ParseInt32(NegativeHeader(n), beyond) == 0 - n
  {
    var s := Digits(n) + (CRLF + beyond);
    assert (NegativeHeader(n) + beyond)[1..] == [MINUS] + s && ([MINUS] + s)[1..] == s;
    hide Digits;
    MagnitudeOfDigits(n, CRLF + beyond);
    assert SkipSpaces([MINUS] + s) == [MINUS] + s;
  }

  lemma ScanNegative(n: nat, y: bytes, slack: bytes)
    requires 0 < n <= INT32_MAX
    ensures var h := NegativeHeader(n); ReadInt(h + y, slack) == Found(0 - n, h, y)
  {
    var h := NegativeHeader(n);
    NegativeLine(n, y);
    NegativeValue(n, y + slack);
    hide NegativeHeader, ParseInt32;
    assert (h + y)[..|h|] == h && (h + y)[|h|..] == y;
  }

  /** A negative count is reported as a request without arguments. */
  lemma NegativeCount(n: nat, y: bytes, slack: bytes)
    requires 0 < n <= INT32_MAX
    ensures var inp := NegativeHeader(n) + y;
      && inp != []
      && ParseRequest(FRESH, [], inp, slack)
         == RequestOut(ParserState(MultibulkType, Multibulk(0 - n, 0, 0)), [], y, OK, false)
  {
    NegativeLine(n, y);
    ScanNegative(n, y, slack);
    hide ReadInt, NegativeHeader;
  }

  /** Without room it is kept back. */
  lemma NegativeCountIsHeldBack(c: Client, l: Link, n: nat, y: bytes, slack: bytes)
    requires c.st == FRESH && c.current == [] && c.input == NegativeHeader(n) + y
    requires 0 < n <= INT32_MAX && Room(l) == 0
    ensures ClientRead(c, l, slack)
         == ClientOut(c.(st := ParserState(MultibulkType, Multibulk(0 - n, 0, 0)), input := y, readable := false),
                      l, OK)
  {
    NegativeCount(n, y, slack);
    NoRoom(l, [], SessionReader(c.id));
    hide ParseRequest, PoolPush, NegativeHeader;
  }

  /** It is sent by the next call that finds input and room, and the parser goes on as a reset one. */
  lemma NegativeCountIsSent(c: Client, l: Link, slack: bytes)
    requires NoneCounted(c.st) && c.st.mb.len < 0 && c.current == [] && c.input != []
    ensures ClientRead(c, l, slack)
         == if Room(l) > 0 then ReadLoop(Reset(c), Accepting(l, SessionReader(c.id), [[]]), slack)
            else ClientOut(c.(readable := false), l, OK)
  {
    var reader := SessionReader(c.id);
    assert ParseRequest(c.st, [], c.input, slack) == RequestOut(c.st, [], c.input, OK, false);
    NoRoom(l, [], reader);
    if Room(l) > 0 {
      var cs: seq<Argv> := [[]];
      AcceptFirst(l, reader, cs);
      assert cs[1..] == [];
      AcceptNone(PoolPush(l, [], reader).link, reader);
    }
    hide ParseRequest, PoolPush, Accepting;
  }

  /** Behind an inline line the header of a canonical request is taken for a word, and sent as a request. */
  lemma HeaderTakenForAWord(c: Client, l: Link, argv: Argv, y: bytes, slack: bytes)
    requires c.st == InlineDone && c.current != [] && c.input == Encode(argv) + y && Room(l) > 1
    requires SPACE !in EncodeArgs(argv) + y
    ensures var reader := SessionReader(c.id);
      ClientRead(c, l, slack) == ReadLoop(Reset(c).(input := EncodeArgs(argv) + y),
        Accepting(l, reader, [c.current, [[STAR] + Digits(|argv|)]]), slack)
  {
    var reader := SessionReader(c.id);
    var w: bytes := [STAR] + Digits(|argv|);
    var d, rest := c.(current := []), EncodeArgs(argv) + y;
    HeaderIsAWord(argv, y, slack);
    RetrySends(c, l, slack);
    AcceptTwo(l, reader, c.current, [w]);
    hide ParseRequest, PoolPush, Accepting, Encode, EncodeArgs, Digits;
    assert d.(st := InlineDone, current := [w], input := rest).(st := FRESH, current := []) == Reset(c).(input := rest);
  }

  lemma HeaderIsWord(n: nat)
    ensures Word([STAR] + Digits(n))
  {
    var w: bytes := [STAR] + Digits(n);
    assert forall i :: 1 <= i < |w| ==> w[i] == Digits(n)[i - 1];
  }

  lemma HeaderIsAWord(argv: Argv, y: bytes, slack: bytes)
    requires SPACE !in EncodeArgs(argv) + y
    ensures var inp := Encode(argv) + y;
      && inp != []
      && ParseRequest(InlineDone, [], inp, slack)
         == RequestOut(InlineDone, [[STAR] + Digits(|argv|)], EncodeArgs(argv) + y, OK, false)
  {
    var w: bytes := [STAR] + Digits(|argv|);
    var rest := EncodeArgs(argv) + y;
    HeaderIsWord(|argv|);
    hide InlineRequest, EncodeArgs, Digits, Word;
    Regroup(w + CRLF, EncodeArgs(argv), y);
    LastWord([], w, CRLF, rest);
    JoinFirst([], [w]);
  }
}
