/** One request arriving in pieces: ParseRequest called after each piece. */
module RequestStream {
  import opened Base
  import opened Resp
  import opened RequestMachine
  import opened Resumption
  import opened Requests

  /** Bytes of one socket read, and the memory behind them in the input block at that time. */
  datatype Chunk = Chunk(data: bytes, slack: bytes)

  function Received(chunks: seq<Chunk>): bytes {
    if chunks == [] then [] else chunks[0].data + Received(chunks[1..])
  }

  datatype Fed =
    | Pending(st: ParserState, argv: Argv, buf: bytes)
    | Complete(used: nat, out: RequestOut)

  /** Parse after every chunk until a call returns something else than "incomplete". */
  function Feed(st: ParserState, argv: Argv, buf: bytes, chunks: seq<Chunk>, used: nat): Fed
    decreases |chunks|
  {
    if chunks == [] then Pending(st, argv, buf)
    else
      var r := ParseRequest(st, argv, buf + chunks[0].data, chunks[0].slack);
      if Incomplete(r.err) then Feed(r.st, r.argv, r.rest, chunks[1..], used + 1)
      else Complete(used + 1, r)
  }

  /** The bytes of a request, its arguments and the parser state in which it is reported. */
  datatype Message = Message(code: bytes, argv: Argv, done: ParserState)

  /** The parser state after the bytes a of the stream. */
  ghost predicate At(st: ParserState, argv: Argv, buf: bytes, a: bytes, slack: bytes) {
    if a == [] then st == FRESH && argv == [] && buf == []
    else var r := ParseRequest(FRESH, [], a, slack); st == r.st && argv == r.argv && buf == r.rest
  }

  ghost predicate StopsIn(now: bytes, slack: bytes) {
    Stopped(FRESH, [], now, slack) && !InEmptyBulk(ParseRequest(FRESH, [], now, slack))
  }

  ghost predicate Reported(e: Message, now: bytes, slack: bytes) {
    |e.code| <= |now| && ParseRequest(FRESH, [], now, slack) == RequestOut(e.done, e.argv, now[|e.code|..], OK, false)
  }

  /** A call on part of the message keeps its place. */
  ghost predicate Waits(e: Message, now: bytes) {
    [] < now < e.code ==> forall slack: bytes :: StopsIn(now, slack)
  }

  ghost predicate GoodParts(e: Message, a: bytes, chunks: seq<Chunk>) {
    forall k :: 0 <= k <= |chunks| ==> Waits(e, a + Received(chunks[..k]))
  }

  /** If piece k is the one that completes the message, one call on all bytes up to there reports it. */
  ghost predicate ReadAt(e: Message, a: bytes, chunks: seq<Chunk>, k: nat)
    requires 0 < k <= |chunks|
  {
    a + Received(chunks[..k - 1]) < e.code <= a + Received(chunks[..k]) ==>
      Reported(e, a + Received(chunks[..k]), chunks[k - 1].slack)
  }

  ghost predicate ReadWhole(e: Message, a: bytes, chunks: seq<Chunk>) {
    forall k :: 0 < k <= |chunks| ==> ReadAt(e, a, chunks, k)
  }

  /** What the pieces of the stream, from the bytes a on, must come to. */
  ghost predicate Delivered(e: Message, a: bytes, chunks: seq<Chunk>, used: nat, f: Fed) {
    var all := a + Received(chunks);
    && (all < e.code ==> f.Pending?)
    && (e.code <= all ==>
        && f.Complete? && used < f.used <= used + |chunks|
        && var now := a + Received(chunks[..f.used - used]);
           && a + Received(chunks[..f.used - used - 1]) < e.code <= now
           && f.out == RequestOut(e.done, e.argv, now[|e.code|..], OK, false))
  }

  lemma ReceivedFirst(chunks: seq<Chunk>, a: bytes, k: nat)
    requires 0 < k <= |chunks|
    ensures a + Received(chunks[..k]) == a + chunks[0].data + Received(chunks[1..][..k - 1])
  {
    assert chunks[..k][1..] == chunks[1..][..k - 1];
    Regroup(a, chunks[0].data, Received(chunks[1..][..k - 1]));
  }

  lemma ReceivedNone(chunks: seq<Chunk>, a: bytes)
    ensures a + Received(chunks[..0]) == a
  {
    assert Received(chunks[..0]) == [];
  }

  lemma GoodPartsTail(e: Message, a: bytes, chunks: seq<Chunk>)
    requires chunks != [] && GoodParts(e, a, chunks)
    ensures Waits(e, a) && Waits(e, a + chunks[0].data)
    ensures GoodParts(e, a + chunks[0].data, chunks[1..])
  {
    ReceivedNone(chunks, a);
    ReceivedFirst(chunks, a, 1);
    ReceivedNone(chunks[1..], a + chunks[0].data);
    forall k | 0 <= k <= |chunks[1..]| ensures Waits(e, a + chunks[0].data + Received(chunks[1..][..k])) {
      ReceivedFirst(chunks, a, k + 1);
    }
  }

  /** The first piece does not complete the message. */
  lemma ReadWholeTail(e: Message, a: bytes, chunks: seq<Chunk>)
    requires chunks != [] && a + chunks[0].data < e.code
    ensures ReadWhole(e, a, chunks) <==> ReadWhole(e, a + chunks[0].data, chunks[1..])
  {
    var now := a + chunks[0].data;
    ReceivedFirst(chunks, a, 1);
    ReceivedNone(chunks[1..], now);
    forall k | 1 < k <= |chunks| ensures ReadAt(e, a, chunks, k) <==> ReadAt(e, now, chunks[1..], k - 1) {
      ReceivedFirst(chunks, a, k);
      ReceivedFirst(chunks, a, k - 1);
    }
    assert forall k :: 0 < k <= |chunks[1..]| ==> (ReadAt(e, now, chunks[1..], k) <==> ReadAt(e, a, chunks, k + 1));
  }

  /** The first piece completes the message. */
  lemma ReadWholeFirst(e: Message, a: bytes, chunks: seq<Chunk>)
    requires chunks != [] && a < e.code <= a + chunks[0].data
    ensures ReadWhole(e, a, chunks) <==> Reported(e, a + chunks[0].data, chunks[0].slack)
  {
    ReceivedNone(chunks, a);
    ReceivedFirst(chunks, a, 1);
    ReceivedNone(chunks[1..], a + chunks[0].data);
    assert ReadAt(e, a, chunks, 1) <==> Reported(e, a + chunks[0].data, chunks[0].slack);
    forall k | 1 < k <= |chunks| ensures ReadAt(e, a, chunks, k) {
      ReceivedFirst(chunks, a, k - 1);
    }
  }

  lemma DeliveredTail(e: Message, a: bytes, chunks: seq<Chunk>, used: nat, f: Fed)
    requires chunks != [] && a + chunks[0].data < e.code
    ensures Delivered(e, a, chunks, used, f) <==> Delivered(e, a + chunks[0].data, chunks[1..], used + 1, f)
  {
    var c := chunks[0].data;
    Regroup(a, c, Received(chunks[1..]));
    ReceivedFirst(chunks, a, 1);
    ReceivedNone(chunks[1..], a + c);
    if e.code <= a + Received(chunks) && f.Complete? && used + 1 < f.used <= used + |chunks| {
      var k := f.used - used;
      ReceivedFirst(chunks, a, k);
      ReceivedFirst(chunks, a, k - 1);
    }
  }

  lemma FeedOne(e: Message, st: ParserState, argv: Argv, buf: bytes, a: bytes, s1: bytes, c: bytes, s2: bytes)
    requires a < e.code && At(st, argv, buf, a, s1) && Waits(e, a) && c != []
    ensures ParseRequest(st, argv, buf + c, s2) == ParseRequest(FRESH, [], a + c, s2)
  {
    if a == [] {
      assert a + c == c && buf + c == c;
    } else {
      assert StopsIn(a, s1);
      RequestResumes(FRESH, [], a, c, s1, s2);
    }
  }

  lemma {:induction false} FeedUses(st: ParserState, argv: Argv, buf: bytes, chunks: seq<Chunk>, used: nat)
    ensures var f := Feed(st, argv, buf, chunks, used); f.Complete? ==> used < f.used <= used + |chunks|
    decreases |chunks|
  {
    if chunks != [] {
      var r := ParseRequest(st, argv, buf + chunks[0].data, chunks[0].slack);
      FeedUses(r.st, r.argv, r.rest, chunks[1..], used + 1);
    }
  }

  /** Only the call after the completing piece can report the message. */
  lemma FeedLast(e: Message, a: bytes, chunks: seq<Chunk>, used: nat, f: Fed)
    requires chunks != [] && a < e.code <= a + chunks[0].data <= a + Received(chunks)
    requires var r := ParseRequest(FRESH, [], a + chunks[0].data, chunks[0].slack);
      if Incomplete(r.err) then f.Complete? ==> used + 1 < f.used else f == Complete(used + 1, r)
    ensures Delivered(e, a, chunks, used, f) <==> Reported(e, a + chunks[0].data, chunks[0].slack)
  {
    ReceivedNone(chunks, a);
    ReceivedFirst(chunks, a, 1);
    ReceivedNone(chunks[1..], a + chunks[0].data);
    if f.Complete? && used + 1 < f.used <= used + |chunks| {
      ReceivedFirst(chunks, a, f.used - used - 1);
    }
    hide ParseRequest;
  }

  lemma PrefixOrder(e: bytes, now: bytes, rest: bytes)
    requires now + rest < e || e <= now + rest
    ensures if |now| < |e| then now < e else e <= now
  {
    var all := now + rest;
    assert now == all[..|now|];
    if |e| <= |now| {
      assert e == all[..|e|] == now[..|e|];
    }
  }

  /**
   * When every part of a message leaves the parser waiting in its place, the pieces of a stream come to the
   * message iff one call on all bytes up to the completing piece does.
   */
  lemma {:induction false} FeedIff(e: Message, st: ParserState, argv: Argv, buf: bytes, a: bytes, s1: bytes,
                                   chunks: seq<Chunk>, used: nat)
    requires a < e.code && At(st, argv, buf, a, s1)
    requires forall k :: 0 <= k < |chunks| ==> chunks[k].data != []
    requires a + Received(chunks) < e.code || e.code <= a + Received(chunks)
    requires GoodParts(e, a, chunks)
    ensures Delivered(e, a, chunks, used, Feed(st, argv, buf, chunks, used)) <==> ReadWhole(e, a, chunks)
    decreases |chunks|
  {
    if chunks == [] {
      assert a + Received(chunks) == a;
    } else {
      var c := chunks[0];
      var now := a + c.data;
      Regroup(a, c.data, Received(chunks[1..]));
      GoodPartsTail(e, a, chunks);
      FeedOne(e, st, argv, buf, a, s1, c.data, c.slack);
      var r := ParseRequest(FRESH, [], now, c.slack);
      FeedUses(r.st, r.argv, r.rest, chunks[1..], used + 1);
      PrefixOrder(e.code, now, Received(chunks[1..]));
      hide ParseRequest, Delivered, ReadWhole, GoodParts, Received, Waits, Reported;
      if |now| < |e.code| {
        assert StopsIn(now, c.slack);
        FeedIff(e, r.st, r.argv, r.rest, now, c.slack, chunks[1..], used + 1);
        DeliveredTail(e, a, chunks, used, Feed(r.st, r.argv, r.rest, chunks[1..], used + 1));
        ReadWholeTail(e, a, chunks);
      } else {
        FeedLast(e, a, chunks, used, Feed(st, argv, buf, chunks, used));
        ReadWholeFirst(e, a, chunks);
      }
    }
  }

  function Canonical(argv: Argv): Message {
    Message(Encode(argv), argv, Done(|argv|))
  }

  lemma CanonicalWaits(argv: Argv, now: bytes)
    requires Sendable(argv) && !CutInEmpty(argv, |now|)
    ensures Waits(Canonical(argv), now)
  {
    forall slack: bytes | [] < now < Encode(argv) ensures StopsIn(now, slack) {
      PartOfRequest(argv, now, slack);
    }
  }

  lemma CanonicalReported(argv: Argv, now: bytes, slack: bytes)
    requires Sendable(argv) && Encode(argv) <= now
    ensures Reported(Canonical(argv), now, slack)
  {
    assert now == Encode(argv) + now[|Encode(argv)|..];
    RoundTrip(argv, now[|Encode(argv)|..], slack);
  }

  /**
   * However a stream that begins with the request is cut, ParseRequest never reports it early, reports
   * exactly its arguments after the first chunk that completes it, and leaves exactly the bytes behind it.
   * The cuts must stay out of the line ending of empty arguments.
   */
  lemma FragmentationIndependence(argv: Argv, chunks: seq<Chunk>)
    requires Sendable(argv)
    requires forall k :: 0 <= k < |chunks| ==> chunks[k].data != []
    requires Received(chunks) < Encode(argv) || Encode(argv) <= Received(chunks)
    requires forall k :: 0 <= k <= |chunks| ==> !CutInEmpty(argv, |Received(chunks[..k])|)
    ensures Delivered(Canonical(argv), [], chunks, 0, Feed(FRESH, [], [], chunks, 0))
  {
    var e := Canonical(argv);
    assert [] + Received(chunks) == Received(chunks);
    forall k | 0 <= k <= |chunks| ensures Waits(e, [] + Received(chunks[..k])) {
      assert [] + Received(chunks[..k]) == Received(chunks[..k]);
      CanonicalWaits(argv, Received(chunks[..k]));
    }
    forall k | 0 < k <= |chunks| ensures ReadAt(e, [], chunks, k) {
      if Encode(argv) <= [] + Received(chunks[..k]) {
        CanonicalReported(argv, [] + Received(chunks[..k]), chunks[k - 1].slack);
      }
    }
    FeedIff(e, FRESH, [], [], [], [], chunks, 0);
  }

  /** For arguments that are all non-empty every way to cut the stream will do. */
  lemma FragmentationOfNonEmpty(argv: Argv, chunks: seq<Chunk>)
    requires Sendable(argv) && forall i :: 0 <= i < |argv| ==> argv[i] != []
    requires forall k :: 0 <= k < |chunks| ==> chunks[k].data != []
    requires Received(chunks) < Encode(argv) || Encode(argv) <= Received(chunks)
    ensures Delivered(Canonical(argv), [], chunks, 0, Feed(FRESH, [], [], chunks, 0))
  {
    forall k | 0 <= k <= |chunks| ensures !CutInEmpty(argv, |Received(chunks[..k])|) {
      NoGap(argv, |Received(chunks[..k])|);
    }
    FragmentationIndependence(argv, chunks);
  }
}
