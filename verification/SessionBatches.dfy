/** Pipelined requests read by one call of `OnClientRead`, and what happens to a request cut in two. */
module SessionBatches {
  import opened Base
  import Decimal
  import opened Resp
  import opened Scanner
  import opened RequestMachine
  import opened Resumption
  import opened Requests
  import opened UpstreamMachine
  import opened SessionMachine

  function Requested(reader: Reader, cs: seq<Argv>): (rs: seq<Request>)
    ensures |rs| == |cs|
  {
    seq(|cs|, i requires 0 <= i < |cs| => Request(reader, cs[i]))
  }

  /** The link after it accepted the requests cs of one reader. */
  function Accepting(l: Link, reader: Reader, cs: seq<Argv>): Link {
    l.(books := l.books.(queue := l.books.queue + seq(|cs|, _ => PairOf(reader))),
       send := l.send + EncodeAll(cs),
       accepted := l.accepted + Requested(reader, cs))
  }

  /** How many more requests the upstream takes. */
  function Room(l: Link): nat {
    if l.connected && l.books.auth && |l.books.queue| < l.capacity then l.capacity - |l.books.queue| else 0
  }

  lemma AcceptNone(l: Link, reader: Reader)
    ensures Accepting(l, reader, []) == l
  {
    assert l.books.queue + seq(0, _ => PairOf(reader)) == l.books.queue;
    assert l.send + EncodeAll([]) == l.send;
    assert l.accepted + Requested(reader, []) == l.accepted;
  }

  /** One request more at the front. */
  lemma AcceptFirst(l: Link, reader: Reader, cs: seq<Argv>)
    requires cs != [] && Room(l) > 0
    ensures var p := PoolPush(l, cs[0], reader);
      && p.err == OK && Room(p.link) == Room(l) - 1
      && Accepting(p.link, reader, cs[1..]) == Accepting(l, reader, cs)
  {
    var n := |cs|;
    assert [PairOf(reader)] + seq(n - 1, _ => PairOf(reader)) == seq(n, _ => PairOf(reader));
    assert [Request(reader, cs[0])] + Requested(reader, cs[1..]) == Requested(reader, cs);
    Regroup(l.send, Encode(cs[0]), EncodeAll(cs[1..]));
    var q, a := l.books.queue, l.accepted;
    assert q + [PairOf(reader)] + seq(n - 1, _ => PairOf(reader)) == q + seq(n, _ => PairOf(reader));
    assert a + [Request(reader, cs[0])] + Requested(reader, cs[1..]) == a + Requested(reader, cs);
  }

  ghost predicate AllSendable(cs: seq<Argv>) {
    forall i :: 0 <= i < |cs| ==> Sendable(cs[i])
  }

  /** A session with nothing under way has cs and part of another request before it. */
  ghost predicate Facing(c: Client, cs: seq<Argv>, next: Argv, tail: bytes) {
    && c.st == FRESH && c.current == [] && c.input == EncodeAll(cs) + tail
    && AllSendable(cs) && Sendable(next) && tail < Encode(next)
  }

  /** The first request is parsed whole. */
  lemma ParseFirst(c: Client, cs: seq<Argv>, next: Argv, tail: bytes, slack: bytes)
    requires Facing(c, cs, next, tail) && cs != []
    ensures c.input != []
    ensures var rest := EncodeAll(cs[1..]) + tail;
      && ParseRequest(FRESH, [], c.input, slack) == RequestOut(Done(|cs[0]|), cs[0], rest, OK, false)
      && Facing(c.(input := rest), cs[1..], next, tail)
  {
    var rest := EncodeAll(cs[1..]) + tail;
    Regroup(Encode(cs[0]), EncodeAll(cs[1..]), tail);
    RoundTrip(cs[0], rest, slack);
  }

  /** What a call does with part of a request: it keeps it for later, or gives the client up. */
  function Leftover(c: Client, next: Argv, tail: bytes, slack: bytes): Client {
    if tail == [] then c.(input := [])
    else
      var r := ParseRequest(FRESH, [], tail, slack);
      c.(st := r.st, current := r.argv, input := r.rest, closing := c.closing || CutBeforeHeader(next, |tail|))
  }

  lemma ReadTail(c: Client, l: Link, next: Argv, tail: bytes, slack: bytes)
    requires Facing(c, [], next, tail)
    ensures var r := ReadLoop(c, l, slack);
      && r.link == l && r.client == Leftover(c, next, tail, slack)
      && r.err == if tail != [] && CutBeforeHeader(next, |tail|) then OutOfBound else OK
  {
    assert EncodeAll([]) + tail == tail;
    if tail != [] {
      PartOfRequest(next, tail, slack);
    }
  }

  /**
   * Requests that arrive in one piece, the last one perhaps not whole, are accepted one by one and in order,
   * and the upstream is sent exactly the client's own bytes for them. The client is given up, exactly when
   * the piece ends in front of an argument header.
   */
  lemma {:induction false} BatchIsForwarded(c: Client, l: Link, cs: seq<Argv>, next: Argv, tail: bytes, slack: bytes)
    requires Facing(c, cs, next, tail) && |cs| <= Room(l)
    ensures var r := ClientRead(c, l, slack);
      && r.link == Accepting(l, SessionReader(c.id), cs)
      && r.client == Leftover(c, next, tail, slack)
      && r.err == if tail != [] && CutBeforeHeader(next, |tail|) then OutOfBound else OK
    decreases |cs|
  {
    var reader := SessionReader(c.id);
    if cs == [] {
      ReadTail(c, l, next, tail, slack);
      AcceptNone(l, reader);
    } else {
      var rest := EncodeAll(cs[1..]) + tail;
      var d := c.(input := rest);
      var p := PoolPush(l, cs[0], reader);
      ParseFirst(c, cs, next, tail, slack);
      AcceptFirst(l, reader, cs);
      hide ParseRequest, Accepting, PoolPush;
      OneMore(c, l, cs[0], Done(|cs[0]|), rest, slack);
      BatchIsForwarded(d, p.link, cs[1..], next, tail, slack);
    }
  }

  /** One turn of the loop that ends with a request accepted. */
  lemma OneMore(c: Client, l: Link, argv: Argv, st: ParserState, rest: bytes, slack: bytes)
    requires c.st == FRESH && c.current == [] && c.input != []
    requires ParseRequest(FRESH, [], c.input, slack) == RequestOut(st, argv, rest, OK, false)
    requires PoolPush(l, argv, SessionReader(c.id)).err == OK
    ensures ClientRead(c, l, slack)
         == ClientRead(c.(input := rest), PoolPush(l, argv, SessionReader(c.id)).link, slack)
  {
    RequestShrinks(FRESH, [], c.input, slack);
    hide ParseRequest, PoolPush;
    assert c.(st := st, current := argv, input := rest).(st := FRESH, current := []) == c.(input := rest);
  }

  /** The upstream takes no more. */
  lemma NoRoom(l: Link, argv: Argv, reader: Reader)
    ensures PoolPush(l, argv, reader) == PushOut(l, TryAgain) <==> Room(l) == 0
    ensures Room(l) > 0 ==> PoolPush(l, argv, reader).err == OK
  {
    if PoolPush(l, argv, reader).err == OK {
      assert PoolPush(l, argv, reader).link != l by {
        assert |l.accepted + [Request(reader, argv)]| != |l.accepted|;
      }
    }
  }

  lemma HeldBack(c: Client, l: Link, argv: Argv, rest: bytes, slack: bytes)
    requires c.st == FRESH && c.current == [] && c.input != []
    requires ParseRequest(FRESH, [], c.input, slack) == RequestOut(Done(|argv|), argv, rest, OK, false)
    requires PoolPush(l, argv, SessionReader(c.id)).err == TryAgain
    ensures ClientRead(c, l, slack)
         == ClientOut(c.(st := Done(|argv|), current := argv, input := rest, readable := false), l, OK)
  {
    hide ParseRequest, PoolPush;
  }

  /** Of a batch that is too long the upstream gets as many requests as it takes; the next one is kept back. */
  lemma {:induction false} BatchIsHeldBack(c: Client, l: Link, cs: seq<Argv>, next: Argv, tail: bytes, slack: bytes)
    requires Facing(c, cs, next, tail) && Room(l) < |cs|
    ensures var r := ClientRead(c, l, slack); var k := Room(l);
      && r.link == Accepting(l, SessionReader(c.id), cs[..k]) && r.err == OK
      && r.client == c.(st := Done(|cs[k]|), current := cs[k], input := EncodeAll(cs[k + 1..]) + tail,
                        readable := false)
    decreases |cs|
  {
    hide *;
    var reader, k := SessionReader(c.id), Room(l);
    var rest := EncodeAll(cs[1..]) + tail;
    ParseFirst(c, cs, next, tail, slack);
    FacingIs(c, cs, next, tail);
    NoRoom(l, cs[0], reader);
    if k == 0 {
      assert cs[..0] == [];
      AcceptNone(l, reader);
      HeldBack(c, l, cs[0], rest, slack);
    } else {
      var p := PoolPush(l, cs[0], reader);
      assert cs[..k][1..] == cs[1..][..k - 1] && cs[1..][k - 1..] == cs[k..] && cs[1..][k..] == cs[k + 1..];
      AcceptFirst(l, reader, cs[..k]);
      OneMore(c, l, cs[0], Done(|cs[0]|), rest, slack);
      BatchIsHeldBack(c.(input := rest), p.link, cs[1..], next, tail, slack);
    }
  }

  lemma FacingIs(c: Client, cs: seq<Argv>, next: Argv, tail: bytes)
    requires Facing(c, cs, next, tail)
    ensures c.st == FRESH && c.current == []
  {
  }

  // ---- one request in two pieces

  /** How many arguments end before the cut. */
  function ArgsBefore(args: Argv, cut: nat): (j: nat)
    ensures j <= |args|
  {
    if args == [] || cut < |EncodeArg(args[0])| then 0 else 1 + ArgsBefore(args[1..], cut - |EncodeArg(args[0])|)
  }

  lemma PartAddsNothing(m: Multibulk, argv: Argv, arg: bytes, p: bytes, slack: bytes)
    requires m.bulk == 0 && m.index < m.len && |arg| <= Decimal.INT32_MAX - 2 && p < EncodeArg(arg)
    ensures RequestLoop(m, argv, p, slack).argv == argv
  {
    var h := Header(DOLLAR, |arg|);
    Regroup(h, arg, CRLF);
    SplitPrefix(h, arg + CRLF, p);
    if |p| < |h| {
      PartOfHeader(DOLLAR, |arg|, p, slack);
    } else {
      var q := p[|h|..];
      HeaderRoundTrip(DOLLAR, |arg|, q, slack);
      ReadLengthOf(|arg|);
    }
  }

  lemma TakeFirst<T>(xs: seq<T>, ys: seq<T>, j: nat)
    requires 0 < j <= |ys|
    ensures xs + [ys[0]] + ys[1..][..j - 1] == xs + ys[..j]
  {
  }

  lemma {:induction false} KeepsWholeArgs(m: Multibulk, argv: Argv, args: Argv, p: bytes, slack: bytes)
    requires m.bulk == 0 && m.len - m.index == |args|
    requires forall i :: 0 <= i < |args| ==> |args[i]| <= Decimal.INT32_MAX - 2
    requires p < EncodeArgs(args)
    ensures ArgsBefore(args, |p|) < |args|
    ensures RequestLoop(m, argv, p, slack).argv == argv + args[..ArgsBefore(args, |p|)]
    decreases |args|
  {
    var e := EncodeArg(args[0]);
    SplitPrefix(e, EncodeArgs(args[1..]), p);
    hide RequestLoop, EncodeArg;
    if |p| < |e| {
      PartAddsNothing(m, argv, args[0], p, slack);
      assert argv + args[..0] == argv;
    } else {
      var q, j := p[|e|..], ArgsBefore(args, |p|);
      ReadBackArg(m, argv, args[0], q, slack);
      KeepsWholeArgs(Multibulk(m.len, m.index + 1, 0), argv + [args[0]], args[1..], q, slack);
      TakeFirst(argv, args, j);
    }
  }

  /** The arguments the parser holds after part of a request. */
  function Before(argv: Argv, cut: nat): nat {
    var h := |Header(STAR, |argv|)|;
    if cut < h then 0 else ArgsBefore(argv, cut - h)
  }

  lemma EncodedIs(argv: Argv, cut: nat)
    ensures Encode(argv) == Header(STAR, |argv|) + EncodeArgs(argv)
    ensures var h := |Header(STAR, |argv|)|; Before(argv, cut) == if cut < h then 0 else ArgsBefore(argv, cut - h)
  {
  }

  lemma SendableIs(argv: Argv)
    requires Sendable(argv)
    ensures forall i :: 0 <= i < |argv| ==> |argv[i]| <= Decimal.INT32_MAX - 2
  {
  }

  lemma PartOfArgv(argv: Argv, p: bytes, slack: bytes)
    requires Sendable(argv) && [] < p < Encode(argv)
    ensures Before(argv, |p|) <= |argv| && (Before(argv, |p|) > 0 ==> Before(argv, |p|) < |argv|)
    ensures ParseRequest(FRESH, [], p, slack).argv == argv[..Before(argv, |p|)]
  {
    hide *;
    var h := Header(STAR, |argv|);
    EncodedIs(argv, |p|);
    SplitPrefix(h, EncodeArgs(argv), p);
    if |p| < |h| {
      BeforeArguments(argv, p, slack);
    } else {
      var q := p[|h|..];
      SendableIs(argv);
      BehindHeader(argv, q, slack);
      KeepsWholeArgs(Multibulk(|argv|, 0, 0), [], argv, q, slack);
      NothingBefore(argv[..ArgsBefore(argv, |q|)]);
    }
  }

  lemma NothingBefore<T>(s: seq<T>)
    ensures [] + s == s
  {
  }

  lemma BeforeArguments(argv: Argv, p: bytes, slack: bytes)
    requires Sendable(argv) && [] < p < Header(STAR, |argv|)
    ensures ParseRequest(FRESH, [], p, slack).argv == [] == argv[..0]
  {
    PartOfHeader(STAR, |argv|, p, slack);
    assert p[0] == Header(STAR, |argv|)[0];
  }

  lemma BehindHeader(argv: Argv, q: bytes, slack: bytes)
    requires Sendable(argv)
    ensures ParseRequest(FRESH, [], Header(STAR, |argv|) + q, slack).argv
         == RequestLoop(Multibulk(|argv|, 0, 0), [], q, slack).argv
  {
    HeaderRoundTrip(STAR, |argv|, q, slack);
    assert (Header(STAR, |argv|) + q)[0] == STAR;
    hide RequestLoop;
  }

  lemma {:induction false} LoopAccepts(c: Client, l: Link, slack: bytes)
    ensures l.accepted <= ReadLoop(c, l, slack).link.accepted
    decreases |c.input|, if c.st == FRESH then 0 else 1
  {
    if c.input != [] {
      var r := ParseRequest(c.st, c.current, c.input, slack);
      var p := PoolPush(l, r.argv, SessionReader(c.id));
      RequestShrinks(c.st, c.current, c.input, slack);
      if r.err == OK && p.err == OK {
        LoopAccepts(c.(st := FRESH, current := [], input := r.rest), p.link, slack);
      }
    }
  }

  /** Two calls, after the first and after the second piece of the bytes p + q. */
  function FirstCall(c: Client, l: Link, p: bytes, slack: bytes): ClientOut {
    ClientRead(c.(input := p), l, slack)
  }

  function SecondCall(o: ClientOut, q: bytes, slack: bytes): ClientOut {
    ClientRead(o.client.(input := o.client.input + q), o.link, slack)
  }

  /** The cut is in the line that gives the number of arguments, or inside the first argument. */
  predicate CutInFirst(argv: Argv, cut: nat) {
    var h := |Header(STAR, |argv|)|;
    cut < h || (argv != [] && h < cut < h + |EncodeArg(argv[0])|)
  }

  lemma CutsOfFirst(argv: Argv, cut: nat)
    requires 0 < cut < |Encode(argv)|
    ensures CutInFirst(argv, cut) <==> Before(argv, cut) == 0 && !CutBeforeHeader(argv, cut)
  {
  }

  lemma ForwardedIntact(c: Client, l: Link, argv: Argv, p: bytes, q: bytes, s1: bytes, s2: bytes)
    requires c.st == FRESH && c.current == [] && Room(l) > 0
    requires Sendable(argv) && p != [] && q != [] && p + q == Encode(argv) && !CutInEmpty(argv, |p|)
    requires Before(argv, |p|) == 0 && !CutBeforeHeader(argv, |p|)
    ensures var r1 := FirstCall(c, l, p, s1); var r2 := SecondCall(r1, q, s2);
      && r1.err == OK && r2.err == OK && r2.client == c.(input := [])
      && r2.link == Accepting(l, SessionReader(c.id), [argv])
  {
    PartOfRequest(argv, p, s1);
    PartOfArgv(argv, p, s1);
    var r := ParseRequest(FRESH, [], p, s1);
    assert argv[..0] == [];
    RequestResumes(FRESH, [], p, q, s1, s2);
    RoundTrip(argv, [], s2);
    assert Encode(argv) + [] == Encode(argv);
    var reader := SessionReader(c.id);
    AcceptFirst(l, reader, [argv]);
    assert [argv][1..] == [];
    AcceptNone(PoolPush(l, argv, reader).link, reader);
    hide ParseRequest, Accepting, PoolPush;
    var r1 := FirstCall(c, l, p, s1);
    assert r1.client == c.(st := r.st, current := [], input := r.rest) && r1.link == l;
    assert r.rest + q != [];
    SecondIsWhole(r1.client, l, argv, q, Done(|argv|), s2);
  }

  lemma SecondIsWhole(c: Client, l: Link, argv: Argv, q: bytes, st: ParserState, s2: bytes)
    requires c.current == [] && c.input + q != [] && PoolPush(l, argv, SessionReader(c.id)).err == OK
    requires ParseRequest(c.st, [], c.input + q, s2) == RequestOut(st, argv, [], OK, false)
    ensures ClientRead(c.(input := c.input + q), l, s2)
         == ClientOut(c.(st := FRESH, current := [], input := []), PoolPush(l, argv, SessionReader(c.id)).link, OK)
  {
    var link := PoolPush(l, argv, SessionReader(c.id)).link;
    var d := c.(input := c.input + q);
    var e := d.(st := FRESH, current := [], input := []);
    RequestShrinks(c.st, [], d.input, s2);
    hide ParseRequest, PoolPush;
    assert d.(st := st, current := argv, input := []).(st := FRESH, current := []) == e;
    assert ReadLoop(e, link, s2) == ClientOut(e, link, OK);
    assert ReadLoop(d, l, s2) == ReadLoop(e, link, s2);
  }

  lemma ForwardedInParts(c: Client, l: Link, argv: Argv, p: bytes, q: bytes, s1: bytes, s2: bytes)
    requires c.st == FRESH && c.current == [] && Room(l) > 0
    requires Sendable(argv) && p != [] && q != [] && p + q == Encode(argv)
    requires Before(argv, |p|) != 0 && !CutBeforeHeader(argv, |p|)
    ensures var j := Before(argv, |p|); var reader := SessionReader(c.id);
      && 0 < j < |argv|
      && l.accepted + [Request(reader, argv[..j])] <= SecondCall(FirstCall(c, l, p, s1), q, s2).link.accepted
  {
    PartOfRequest(argv, p, s1);
    PartOfArgv(argv, p, s1);
    var r := ParseRequest(FRESH, [], p, s1);
    var j, reader := Before(argv, |p|), SessionReader(c.id);
    NoRoom(l, argv[..j], reader);
    var r1 := FirstCall(c, l, p, s1);
    assert r1.link == l && r1.client == c.(st := r.st, current := argv[..j], input := r.rest);
    LoopAccepts(r1.client.(current := [], input := r.rest + q), PoolPush(l, argv[..j], reader).link, s2);
  }
}
