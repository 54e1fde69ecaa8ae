/** Which replies reach their readers: all of a stream, byte for byte, exactly when the parser can frame them. */
module ReplyDelivery {
  import opened Base
  import opened Decimal
  import opened Resp
  import opened Scanner
  import opened RequestMachine
  import opened ReplyMachine
  import opened Replies
  import opened Requests
  import opened ReplyFraming
  import opened UpstreamMachine
  import opened RequestStream
  import opened ReplyStream
  import opened ReplyForesight

  /** Reply i goes to the i-th reader of the queue. */
  function Deliveries(queue: seq<ReaderPair>, rs: seq<Reply>): (ds: seq<Delivery>)
    requires |rs| <= |queue|
    ensures |ds| == |rs|
  {
    seq(|rs|, i requires 0 <= i < |rs| <= |queue| => Delivery(queue[i].reader, EncodeReply(rs[i])))
  }

  lemma DeliveriesFirst(queue: seq<ReaderPair>, rs: seq<Reply>)
    requires 0 < |rs| <= |queue|
    ensures Deliveries(queue, rs)
         == [Delivery(queue[0].reader, EncodeReply(rs[0]))] + Deliveries(queue[1..], rs[1..])
  {
  }

  lemma HandLog(b: Books, reply: bytes)
    requires b.queue != [] && Present(b.queue)
    ensures Hand(b, reply).log == b.log + [Delivery(b.queue[0].reader, reply)]
    ensures Present(Hand(b, reply).queue)
  {
    assert b.queue[0] == PairOf(b.queue[0].reader);
  }

  lemma {:induction false} ServedLog(b: Books, rs: seq<Reply>)
    requires |rs| <= |b.queue| && Present(b.queue)
    ensures Served(b, rs).log == b.log + Deliveries(b.queue, rs)
    decreases |rs|
  {
    if rs != [] {
      HandLog(b, EncodeReply(rs[0]));
      ServedLog(Hand(b, EncodeReply(rs[0])), rs[1..]);
      hide Deliveries;
      DeliveriesFirst(b.queue, rs);
      assert b.log + [Delivery(b.queue[0].reader, EncodeReply(rs[0]))] + Deliveries(b.queue[1..], rs[1..])
          == b.log + Deliveries(b.queue, rs);
    } else {
      assert Deliveries(b.queue, rs) == [];
      assert b.log + [] == b.log;
    }
  }

  /** Between replies. */
  ghost predicate AtRest(u: State) {
    u.st == FRESH && u.resp == [] && u.input == []
  }

  lemma NothingPartial(rs: seq<Reply>, k: nat, p: bytes)
    requires k <= |rs| && EncodeReplies(rs) == EncodeReplies(rs[..k]) + p && PartOf(p, rs[k..])
    ensures k == |rs| && p == []
  {
    CutReplies(rs, k);
    var e, tail := EncodeReplies(rs[..k]), EncodeReplies(rs[k..]);
    assert p == (e + p)[|e|..] == tail;
  }

  /**
   * However the bytes of a stream of replies are cut into pieces, once they are all there each reply has gone,
   * byte for byte, to its reader, and the parser is ready for the next one.
   */
  lemma ReplyFragmentation(u: State, rs: seq<Reply>, chunks: seq<Chunk>)
    requires AtRest(u) && AllFramable(rs) && |rs| <= |u.books.queue| && Present(u.books.queue)
    requires forall i :: 0 <= i < |chunks| ==> chunks[i].data != []
    requires Received(chunks) == EncodeReplies(rs)
    ensures var v := Receive(u, chunks);
      && AtRest(v) && v.books.queue == u.books.queue[|rs|..]
      && v.books.log == u.books.log + Deliveries(u.books.queue, rs)
  {
    assert rs[..0] == [] && rs[0..] == rs && [] + Received(chunks) == Received(chunks);
    assert Stands(u.books, rs, [], u, 0, [], []);
    var k, p, s := ReceiveAll(u.books, rs, [], u, 0, [], [], chunks);
    NothingPartial(rs, k, p);
    assert rs[..|rs|] == rs;
    ServedQueue(u.books, rs);
    ServedLog(u.books, rs);
  }

  // ---- replies that the parser cannot frame

  ghost predicate AllWellFormed(rs: seq<Reply>) {
    forall i :: 0 <= i < |rs| ==> WellFormed(rs[i])
  }

  /** The first reader gets a reply that was cut short. */
  lemma GetsLess(u: State, r: Reply, w: bytes, slack: bytes)
    requires u.books.queue != [] && Present(u.books.queue) && WellFormed(r) && !Framable(r)
    ensures var log := ServerRead(Fresh(u, EncodeReply(r) + w), slack).state.books.log;
      |log| > |u.books.log| && log[|u.books.log|].reply < EncodeReply(r)
  {
    var e := EncodeReply(r);
    FirstOfReply(r);
    assert e + w != [];
    ReplyFramedIff(r, w, slack);
    var f := Fresh(u, e + w);
    var v := Parsed(f, slack);
    HandLog(u.books, v.resp);
    ResponseConserves(FRESH, [], e + w, slack);
    ReadIsFifo(Next(v), slack);
    var log := ServerRead(f, slack).state.books.log;
    assert Next(v).books.log <= log;
  }

  lemma {:induction false} CutShort(u: State, rs: seq<Reply>, slack: bytes)
    requires AllWellFormed(rs) && !AllFramable(rs) && |rs| <= |u.books.queue| && Present(u.books.queue)
    ensures !(u.books.log + Deliveries(u.books.queue, rs)
              <= ServerRead(Fresh(u, EncodeReplies(rs)), slack).state.books.log)
    decreases |rs|
  {
    var e, tail, b := EncodeReply(rs[0]), EncodeReplies(rs[1..]), u.books;
    var d := Delivery(b.queue[0].reader, e);
    DeliveriesFirst(b.queue, rs);
    var log := ServerRead(Fresh(u, EncodeReplies(rs)), slack).state.books.log;
    if Framable(rs[0]) {
      ReadsOne(u, rs[0], tail, slack);
      HandLog(b, e);
      var u' := State(Hand(b, e), FRESH, [], tail);
      CutShort(u', rs[1..], slack);
      Regroup3(b.log, d, Deliveries(b.queue[1..], rs[1..]));
    } else {
      GetsLess(u, rs[0], tail, slack);
      assert (b.log + Deliveries(b.queue, rs))[|b.log|] == d;
    }
  }

  lemma Regroup3<T>(a: seq<T>, x: T, b: seq<T>)
    ensures a + ([x] + b) == a + [x] + b
  {
  }

  /** The pieces, and the memory that happened to be behind each of them. */
  function Chunks(pieces: seq<bytes>, slacks: seq<bytes>): (chunks: seq<Chunk>)
    requires |slacks| == |pieces|
    ensures |chunks| == |pieces|
  {
    seq(|pieces|, i requires 0 <= i < |pieces| == |slacks| => Chunk(pieces[i], slacks[i]))
  }

  ghost predicate Intact(u: State, rs: seq<Reply>, chunks: seq<Chunk>)
    requires ReplyReady(u.st) && |rs| <= |u.books.queue|
  {
    u.books.log + Deliveries(u.books.queue, rs) <= Receive(u, chunks).books.log
  }

  lemma {:induction false} ChunksJoined(chunks: seq<Chunk>, pieces: seq<bytes>)
    requires |chunks| == |pieces| && forall i :: 0 <= i < |chunks| ==> chunks[i].data == pieces[i]
    ensures Received(chunks) == Joined(pieces)
    decreases |chunks|
  {
    if chunks != [] {
      ChunksJoined(chunks[1..], pieces[1..]);
    }
  }

  /** With a bad reply in the stream there is memory with which the pieces are not delivered intact. */
  lemma CutShortInPieces(u: State, rs: seq<Reply>, pieces: seq<bytes>) returns (slacks: seq<bytes>)
    requires AtRest(u) && AllWellFormed(rs) && !AllFramable(rs)
    requires |rs| <= |u.books.queue| && Present(u.books.queue)
    requires Joined(pieces) == EncodeReplies(rs) && forall i :: 0 <= i < |pieces| ==> pieces[i] != []
    ensures |slacks| == |pieces| && !Intact(u, rs, Chunks(pieces, slacks))
  {
    var chunks := Foreseen(pieces);
    slacks := seq(|pieces|, i requires 0 <= i < |chunks| => chunks[i].slack);
    assert Chunks(pieces, slacks) == chunks;
    FirstOfReply(rs[0]);
    PiecesForesee(u, pieces);
    assert u.(input := u.input + Joined(pieces)) == Fresh(u, EncodeReplies(rs));
    CutShort(u, rs, []);
  }

  /**
   * However a stream of well-formed replies is cut, it reaches its readers intact, whatever memory is behind the
   * pieces, iff none of the replies holds an empty bulk string.
   */
  lemma DeliveredIntactIff(u: State, rs: seq<Reply>, pieces: seq<bytes>)
    requires AtRest(u) && AllWellFormed(rs) && |rs| <= |u.books.queue| && Present(u.books.queue)
    requires Joined(pieces) == EncodeReplies(rs) && forall i :: 0 <= i < |pieces| ==> pieces[i] != []
    ensures (forall slacks: seq<bytes> :: |slacks| == |pieces| ==> Intact(u, rs, Chunks(pieces, slacks)))
       <==> AllFramable(rs)
  {
    if AllFramable(rs) {
      forall slacks: seq<bytes> | |slacks| == |pieces| ensures Intact(u, rs, Chunks(pieces, slacks)) {
        ChunksJoined(Chunks(pieces, slacks), pieces);
        ReplyFragmentation(u, rs, Chunks(pieces, slacks));
      }
    } else {
      var slacks := CutShortInPieces(u, rs, pieces);
    }
  }

  /** The line ending of an empty bulk, with a printed number behind it in memory. */
  lemma LoneEndingReadsOn(n: nat)
    requires n <= INT32_MAX
    ensures ReadInt(CRLF, Digits(n)) == Found(n, CRLF, [])
  {
    var d := Digits(n);
    IndexIs(CRLF, LF, 1);
    assert CRLF[..2] == CRLF && CRLF[2..] == [] && [] + d == d;
    NumberBehindEnding(n);
    hide ParseInt32, Digits;
  }

  lemma NumberBehindEnding(n: nat)
    requires n <= INT32_MAX
    ensures ParseInt32(CRLF, Digits(n)) == n
  {
    var d := Digits(n);
    assert d + [] == d;
    assert (CRLF + d)[1..] == [LF] + d && ([LF] + d)[1..] == d;
    MagnitudeOfDigits(n, []);
    hide Magnitude, Digits;
    assert SkipSpaces([LF] + d) == d;
  }

  lemma LuckyTurns(resp: bytes, n: nat)
    requires 0 < n <= INT32_MAX
    ensures var e := EncodeBulk(Text([]));
      ReplyLoop(Multibulk(2, 0, 0), resp, e, Digits(n)) == ReplyOut(Multibulk(2, 1, n), resp + e, [], TryAgain)
  {
    var e, h, d := EncodeBulk(Text([])), Header(DOLLAR, 0), Digits(n);
    assert e + [] == e && CRLF + [] == CRLF && h + [] == h;
    EmptyBulkTurn(Multibulk(2, 0, 0), resp, [], d);
    LoneEndingReadsOn(n);
    Regroup(resp, h, CRLF);
    hide ReadInt, Header, Digits;
    assert ReplyLoop(Multibulk(2, 1, 0), resp + h, CRLF, d)
        == ReadReplyBulk(Multibulk(2, 1, n), resp + h + CRLF, [], d);
  }

  /** A call that ends behind the line ending of an empty bulk, with the number n in memory. */
  lemma LuckyStart(n: nat)
    requires 0 < n <= INT32_MAX
    ensures var p := Header(STAR, 2) + EncodeBulk(Text([]));
      && p != []
      && ParseResponse(FRESH, [], p, Digits(n))
         == ResponseOut(ParserState(MultibulkType, Multibulk(2, 1, n)), p, [], TryAgain)
  {
    var h, e := Header(STAR, 2), EncodeBulk(Text([]));
    HeaderRoundTrip(STAR, 2, e, Digits(n));
    LuckyTurns(h, n);
    assert (h + e)[0] == STAR && [] + h == h;
    hide ReadInt, Header, EncodeBulk, Digits, ReplyLoop;
  }

  lemma LuckyEnd(p: bytes, e: bytes, n: nat, slack: bytes)
    requires |e| == n + 2 && 0 < n <= INT32_MAX - 2
    ensures ParseResponse(ParserState(MultibulkType, Multibulk(2, 1, n)), p, e, slack)
         == ResponseOut(ParserState(MultibulkType, Multibulk(2, 2, 0)), p + e, [], OK)
  {
    ReadLengthOf(n);
    assert e[..n + 2] == e && e[n + 2..] == [];
    var m := Multibulk(2, 1, n);
    assert ReplyLoop(m, p, e, slack) == ReadReplyBulk(m, p, e, slack);
    assert ReadReplyBulk(m, p, e, slack) == ReplyLoop(Multibulk(2, 2, 0), p + e, [], slack);
  }

  /** One call for each piece of a reply, the second one completing it. */
  lemma TwoCalls(u: State, p: bytes, q: bytes, mid: ParserState, last: ParserState, s1: bytes, s2: bytes)
    requires AtRest(u) && u.books.queue != [] && Present(u.books.queue) && p != [] && q != []
    requires ParseResponse(FRESH, [], p, s1) == ResponseOut(mid, p, [], TryAgain)
    requires ParseResponse(mid, p, q, s2) == ResponseOut(last, p + q, [], OK)
    ensures Receive(u, [Chunk(p, s1), Chunk(q, s2)]).books.log
         == u.books.log + [Delivery(u.books.queue[0].reader, p + q)]
  {
    var cs := [Chunk(p, s1), Chunk(q, s2)];
    var a := u.(input := u.input + p);
    assert a == Fresh(u, p);
    StaysReady(a, s1);
    var v := State(u.books, mid, p, []);
    assert ServerRead(a, s1) == ReadOut(v, OK);
    var b := v.(input := v.input + q);
    assert b == State(u.books, mid, p, q);
    HandLog(u.books, p + q);
    var w := Next(State(u.books, last, p + q, []));
    hide ParseResponse, Hand;
    assert ServerRead(b, s2) == ReadOut(w, OK);
    assert cs[1..] == [Chunk(q, s2)] && cs[1..][1..] == [];
    assert Receive(v, cs[1..]) == w;
  }

  lemma EncodePair(a: Bulk, b: Bulk)
    ensures EncodeReply(Array([a, b])) == Header(STAR, 2) + EncodeBulk(a) + EncodeBulk(b)
  {
    assert [a, b][1..] == [b] && [b][1..] == [];
    hide EncodeBulk, Header;
    assert EncodeBulks([b]) == EncodeBulk(b) + [] == EncodeBulk(b);
    Regroup(Header(STAR, 2), EncodeBulk(a), EncodeBulk(b));
  }

  /** A bad reply may reach its reader intact by luck: what was in memory happened to be the right length. */
  lemma IntactByLuck(u: State, t: bytes, slack: bytes)
    requires AtRest(u) && u.books.queue != [] && Present(u.books.queue) && |EncodeArg(t)| <= INT32_MAX
    ensures var r := Array([Text([]), Text(t)]); var p := Header(STAR, 2) + EncodeBulk(Text([]));
      && !Framable(r) && EncodeReply(r) == p + EncodeArg(t)
      && Intact(u, [r], [Chunk(p, Digits(|EncodeArg(t)| - 2)), Chunk(EncodeArg(t), slack)])
  {
    var r, e, n := Array([Text([]), Text(t)]), EncodeArg(t), |EncodeArg(t)| - 2;
    assert HasEmptyBulk(r.items) by { assert r.items[0] == Text([]); }
    EncodePair(Text([]), Text(t));
    LuckyStart(n);
    LuckyPair(u, r, Header(STAR, 2) + EncodeBulk(Text([])), e, n, slack);
  }

  lemma LuckyPair(u: State, r: Reply, p: bytes, e: bytes, n: nat, slack: bytes)
    requires AtRest(u) && u.books.queue != [] && Present(u.books.queue) && p != []
    requires |e| == n + 2 && 0 < n <= INT32_MAX - 2 && EncodeReply(r) == p + e
    requires ParseResponse(FRESH, [], p, Digits(n))
          == ResponseOut(ParserState(MultibulkType, Multibulk(2, 1, n)), p, [], TryAgain)
    ensures Intact(u, [r], [Chunk(p, Digits(n)), Chunk(e, slack)])
  {
    hide *;
    LuckyEnd(p, e, n, slack);
    TwoCalls(u, p, e, ParserState(MultibulkType, Multibulk(2, 1, n)), ParserState(MultibulkType, Multibulk(2, 2, 0)),
             Digits(n), slack);
    OneDelivery(u, r, [Chunk(p, Digits(n)), Chunk(e, slack)]);
  }

  lemma OneDelivery(u: State, r: Reply, chunks: seq<Chunk>)
    requires AtRest(u) && u.books.queue != []
    requires Receive(u, chunks).books.log == u.books.log + [Delivery(u.books.queue[0].reader, EncodeReply(r))]
    ensures Intact(u, [r], chunks)
  {
  }

  /** In one piece the memory behind it makes no difference. */
  lemma DeliveredAtOnceIff(u: State, rs: seq<Reply>, slack: bytes)
    requires AtRest(u) && AllWellFormed(rs) && |rs| <= |u.books.queue| && Present(u.books.queue)
    ensures u.books.log + Deliveries(u.books.queue, rs)
            <= ServerRead(Fresh(u, EncodeReplies(rs)), slack).state.books.log
       <==> AllFramable(rs)
  {
    if AllFramable(rs) {
      var k, p := ReadsReplies(u, rs, EncodeReplies(rs), slack);
      NothingPartial(rs, k, p);
      assert rs[..|rs|] == rs;
      ServedLog(u.books, rs);
    } else {
      CutShort(u, rs, slack);
    }
  }

  /** A line ending where a reply should start: no call gets past it. */
  ghost predicate Stuck(u: State) {
    u.st == FRESH && u.resp == [] && u.input != [] && u.input[0] == CR
  }

  lemma StuckCall(u: State, slack: bytes)
    requires Stuck(u)
    ensures ServerRead(u, slack) == ReadOut(u, Unknown)
  {
    assert ReplyKind(NoType, CR) == NoType;
  }

  lemma {:induction false} StuckForGood(u: State, chunks: seq<Chunk>)
    requires Stuck(u)
    ensures Stuck(Receive(u, chunks)) && Receive(u, chunks).books == u.books
    decreases |chunks|
  {
    if chunks != [] {
      var v := u.(input := u.input + chunks[0].data);
      assert v.input[0] == CR;
      StuckForGood(v, chunks[1..]);
    }
  }

  lemma EmptyBulkParsed(u: State, y: bytes, slack: bytes)
    ensures var o := ParseResponse(FRESH, [], EncodeReply(Single(Text([]))) + y, slack);
      o.err == OK && o.resp == Header(DOLLAR, 0) && o.rest == CRLF + y
    ensures EncodeReply(Single(Text([]))) + y != []
  {
    var e := EncodeBulk(Text([]));
    assert (e + y)[0] == DOLLAR;
    EmptyBulkTurn(Multibulk(1, 0, 0), [], y, slack);
    assert [] + Header(DOLLAR, 0) == Header(DOLLAR, 0);
    SingleIs(e + y, slack);
    hide ParseResponse, EncodeBulk, Header;
  }

  /**
   * The reply `$0` to a single command: its reader gets the header without the line ending, the call ends in
   * Unknown, and from then on no reader gets anything, whatever the server sends.
   */
  lemma EmptyBulkStopsTheUpstream(u: State, y: bytes, slack: bytes, chunks: seq<Chunk>)
    requires AtRest(u) && u.books.queue != [] && Present(u.books.queue)
    ensures var r := ServerRead(Fresh(u, EncodeReply(Single(Text([]))) + y), slack);
      && r.err == Unknown && Stuck(r.state)
      && r.state.books.log == u.books.log + [Delivery(u.books.queue[0].reader, Header(DOLLAR, 0))]
      && Receive(r.state, chunks).books == r.state.books
  {
    hide EncodeReply, Header, ParseResponse;
    var f := Fresh(u, EncodeReply(Single(Text([]))) + y);
    EmptyBulkParsed(u, y, slack);
    var v := Parsed(f, slack);
    HandLog(u.books, v.resp);
    assert ServerRead(f, slack) == ServerRead(Next(v), slack);
    assert Stuck(Next(v));
    StuckCall(Next(v), slack);
    StuckForGood(Next(v), chunks);
  }
}
