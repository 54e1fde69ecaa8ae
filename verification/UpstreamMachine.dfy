/**
 * What `Upstream` does, as functions of its fields: queueing requests, and handing replies to the
 * readers at the head of the queue.
 */
module UpstreamMachine {
  import opened Base
  import opened Resp
  import opened RequestMachine
  import opened ReplyMachine
  import opened Replies

  /** Who waits for a reply: the AUTH command of the upstream itself, or a session. */
  datatype Reader = AuthReader | SessionReader(id: nat)

  function Identity(r: Reader): nat {
    match r
    case AuthReader => 0
    case SessionReader(id) => id
  }

  datatype ReaderPair = ReaderPair(identity: nat, reader: Reader)

  function PairOf(r: Reader): ReaderPair {
    ReaderPair(Identity(r), r)
  }

  /** One call of `OnServerWrite`. */
  datatype Delivery = Delivery(reader: Reader, reply: bytes)

  /** `auth_`, `cmdQueue_`, and the calls of `OnServerWrite` so far. */
  datatype Books = Books(auth: bool, queue: seq<ReaderPair>, log: seq<Delivery>)

  /** The books, `parser_`, `respBuffer_` and the unread input. */
  datatype State = State(books: Books, st: ParserState, resp: bytes, input: bytes)

  /** `cmd::Auth::OnServerWrite` and `onAuthCallback`: only a status line lets clients in. */
  function AuthAfter(auth: bool, d: Delivery): bool {
    if d.reader == AuthReader then d.reply != [] && d.reply[0] == PLUS else auth
  }

  /** The oldest pair leaves the queue; its reader gets the reply if it is still the reader that was queued. */
  function Hand(b: Books, reply: bytes): (b': Books)
    requires b.queue != []
    ensures b'.queue == b.queue[1..]
  {
    var pair := b.queue[0];
    var d := Delivery(pair.reader, reply);
    if Identity(pair.reader) == pair.identity then Books(AuthAfter(b.auth, d), b.queue[1..], b.log + [d])
    else b.(queue := b.queue[1..])
  }

  /** No two readers have the same identity; the sessions are numbered from one on. */
  lemma IdentitiesDiffer(r: Reader, s: Reader)
    requires (r.SessionReader? ==> r.id > 0) && (s.SessionReader? ==> s.id > 0)
    ensures Identity(r) == Identity(s) <==> r == s
  {
  }

  /** A reader that is no longer the one that was queued gets nothing: its reply is dropped. */
  lemma HandIs(b: Books, reply: bytes)
    requires b.queue != []
    ensures var pair := b.queue[0]; var b' := Hand(b, reply);
      && b'.queue == b.queue[1..]
      && (Identity(pair.reader) != pair.identity ==> b'.log == b.log && b'.auth == b.auth)
      && (Identity(pair.reader) == pair.identity ==>
            b'.log == b.log + [Delivery(pair.reader, reply)]
            && (pair.reader == AuthReader ==> (b'.auth <==> [PLUS] <= reply))
            && (pair.reader != AuthReader ==> b'.auth == b.auth))
  {
    assert [PLUS] <= reply <==> reply != [] && reply[0] == PLUS;
  }

  datatype ReadOut = ReadOut(state: State, err: Error)

  /** `OnServerRead`, apart from the room it makes in the input buffer at the end. */
  function ServerRead(u: State, slack: bytes): (r: ReadOut)
    requires ReplyReady(u.st)
    decreases |u.input|
  {
    if u.input == [] then ReadOut(u, OK)
    else
      var o := ParseResponse(u.st, u.resp, u.input, slack);
      var v := State(u.books, o.st, o.resp, o.rest);
      if o.err == TryAgain then ReadOut(v, OK)
      else if o.err != OK then ReadOut(v, o.err)
      else if v.books.queue == [] then ReadOut(v, Empty)
      else
        ResponseConserves(u.st, u.resp, u.input, slack);
        ServerRead(Next(v), slack)
  }

  /** A reply was parsed: it is handed on, and the parser and the response start afresh. */
  function Next(v: State): State
    requires v.books.queue != []
  {
    State(Hand(v.books, v.resp), FRESH, [], v.input)
  }

  // ---- nothing is lost, on any bytes

  function Forwarded(log: seq<Delivery>): bytes {
    if log == [] then [] else log[0].reply + Forwarded(log[1..])
  }

  lemma {:induction false} ForwardedMore(log: seq<Delivery>, d: Delivery)
    ensures Forwarded(log + [d]) == Forwarded(log) + d.reply
  {
    if log != [] {
      ForwardedMore(log[1..], d);
      assert (log + [d])[1..] == log[1..] + [d];
    } else {
      assert Forwarded([d]) == d.reply + Forwarded([]);
    }
  }

  /** Every queued reader is still the one that asked. */
  ghost predicate Present(queue: seq<ReaderPair>) {
    forall i :: 0 <= i < |queue| ==> queue[i] == PairOf(queue[i].reader)
  }

  function Total(u: State): bytes {
    Forwarded(u.books.log) + u.resp + u.input
  }

  /** The call before anything is handed on. */
  function Parsed(u: State, slack: bytes): State {
    var o := ParseResponse(u.st, u.resp, u.input, slack);
    State(u.books, o.st, o.resp, o.rest)
  }

  lemma ParsedConserves(u: State, slack: bytes)
    requires ReplyReady(u.st)
    ensures Total(Parsed(u, slack)) == Total(u)
  {
    var v := Parsed(u, slack);
    ResponseConserves(u.st, u.resp, u.input, slack);
    Regroup(Forwarded(u.books.log), u.resp, u.input);
    Regroup(Forwarded(u.books.log), v.resp, v.input);
  }

  lemma NextConserves(v: State)
    requires v.books.queue != [] && Present(v.books.queue)
    ensures Total(Next(v)) == Total(v)
  {
    var n, b := Next(v), v.books;
    assert b.queue[0] == PairOf(b.queue[0].reader);
    ForwardedMore(b.log, Delivery(b.queue[0].reader, v.resp));
    assert Forwarded(n.books.log) + [] == Forwarded(b.log) + v.resp;
  }

  /**
   * Whatever the server sends and however the call ends, the bytes handed on, the reply collected so far
   * and the unread input are together the bytes received.
   */
  lemma {:induction false} ReadConserves(u: State, slack: bytes)
    requires ReplyReady(u.st) && Present(u.books.queue)
    ensures Total(ServerRead(u, slack).state) == Total(u)
    decreases |u.input|
  {
    if u.input != [] {
      var v := Parsed(u, slack);
      ResponseConserves(u.st, u.resp, u.input, slack);
      ParsedConserves(u, slack);
      hide Total;
      if ParseResponse(u.st, u.resp, u.input, slack).err == OK && v.books.queue != [] {
        NextConserves(v);
        ReadConserves(Next(v), slack);
      }
    }
  }

  /** A call leaves nobody in the queue who was not there. */
  lemma {:induction false} ReadKeepsPresent(u: State, slack: bytes)
    requires ReplyReady(u.st) && Present(u.books.queue)
    ensures Present(ServerRead(u, slack).state.books.queue)
    decreases |u.input|
  {
    if u.input != [] {
      var v := Parsed(u, slack);
      ResponseConserves(u.st, u.resp, u.input, slack);
      if ParseResponse(u.st, u.resp, u.input, slack).err == OK && v.books.queue != [] {
        ReadKeepsPresent(Next(v), slack);
      }
    }
  }

  /** A call ends in one of four ways, and the next one can go on unless a reply came that nobody asked for. */
  lemma {:induction false} StaysReady(u: State, slack: bytes)
    requires ReplyReady(u.st)
    ensures var r := ServerRead(u, slack);
      && r.err in {OK, OutOfBound, Unknown, Empty}
      && (r.err != Empty ==> ReplyReady(r.state.st))
      && (r.err == Empty ==> r.state.books.queue == [])
    decreases |u.input|
  {
    if u.input != [] {
      ResponseConserves(u.st, u.resp, u.input, slack);
      if ParseResponse(u.st, u.resp, u.input, slack).err == OK && u.books.queue != [] {
        StaysReady(Next(Parsed(u, slack)), slack);
      }
    }
  }

  /** The readers that got replies, as they were queued. */
  function Readers(log: seq<Delivery>): seq<ReaderPair> {
    seq(|log|, i requires 0 <= i < |log| => PairOf(log[i].reader))
  }

  lemma HandIsFifo(b: Books, reply: bytes)
    requires b.queue != [] && Present(b.queue)
    ensures Readers(Hand(b, reply).log) + Hand(b, reply).queue == Readers(b.log) + b.queue
    ensures b.log <= Hand(b, reply).log
  {
    assert b.queue[0] == PairOf(b.queue[0].reader);
    assert Readers(Hand(b, reply).log) == Readers(b.log) + [b.queue[0]];
  }

  /** Replies go to the readers at the head of the queue, in order. */
  lemma {:induction false} ReadIsFifo(u: State, slack: bytes)
    requires ReplyReady(u.st) && Present(u.books.queue)
    ensures var b := ServerRead(u, slack).state.books;
      && u.books.log <= b.log
      && Readers(b.log) + b.queue == Readers(u.books.log) + u.books.queue
    decreases |u.input|
  {
    if u.input != [] {
      var v := Parsed(u, slack);
      ResponseConserves(u.st, u.resp, u.input, slack);
      hide Readers;
      if ParseResponse(u.st, u.resp, u.input, slack).err == OK && v.books.queue != [] {
        HandIsFifo(v.books, v.resp);
        ReadIsFifo(Next(v), slack);
      }
    }
  }
}
