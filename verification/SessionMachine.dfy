/**
 * The way of a request: what `Session::OnClientRead` and `Upstream::PushRequest` do, as functions of the
 * fields they touch.
 */
module SessionMachine {
  import opened Base
  import opened Resp
  import opened Scanner
  import opened RequestMachine
  import opened UpstreamMachine

  /** A request that was accepted. */
  datatype Request = Request(reader: Reader, argv: Argv)

  /** The sending side of the upstream; `accepted` is the history of its queue. */
  datatype Link = Link(connected: bool, books: Books, capacity: nat, send: bytes, accepted: seq<Request>)

  datatype PushOut = PushOut(link: Link, err: Error)

  /** `Upstream::PushRequest` */
  function PushRequest(l: Link, argv: Argv, reader: Reader): PushOut {
    if !l.connected || |l.books.queue| >= l.capacity then PushOut(l, TryAgain)
    else
      PushOut(l.(books := l.books.(queue := l.books.queue + [PairOf(reader)]),
                 send := l.send + Encode(argv),
                 accepted := l.accepted + [Request(reader, argv)]), OK)
  }

  /** `UpstreamPool::PushRequest`, outside cluster mode: nobody is let in before AUTH succeeded. */
  function PoolPush(l: Link, argv: Argv, reader: Reader): PushOut {
    if !l.connected || !l.books.auth then PushOut(l, TryAgain) else PushRequest(l, argv, reader)
  }

  /** `parser_`, `currentCmd_`, the unread input, and what the session asked of its connection. */
  datatype Client = Client(id: nat, st: ParserState, current: Argv, input: bytes, readable: bool, closing: bool)

  datatype ClientOut = ClientOut(client: Client, link: Link, err: Error)

  lemma {:induction false} LoopShrinks(m: Multibulk, argv: Argv, inp: bytes, slack: bytes)
    ensures |RequestLoop(m, argv, inp, slack).rest| <= |inp|
    decreases m.len - m.index
  {
    if m.index < m.len {
      if m.bulk == 0 {
        var h := ReadInt(inp, slack);
        if h.Found? {
          BulkShrinks(m.(bulk := h.value), argv, h.rest, slack);
        }
      } else {
        BulkShrinks(m, argv, inp, slack);
      }
    }
  }

  lemma {:induction false} BulkShrinks(m: Multibulk, argv: Argv, inp: bytes, slack: bytes)
    requires m.index < m.len
    ensures |ReadBulk(m, argv, inp, slack).rest| <= |inp|
    decreases m.len - m.index, 0
  {
    hide RequestLoop;
    var n := ReadLength(m.bulk);
    if inp != [] && n <= |inp| {
      LoopShrinks(Multibulk(m.len, m.index + 1, 0), argv + [Trim(Taken(inp, n), 2)], inp[n..], slack);
    }
  }

  lemma {:induction false} InlineShrinks(argv: Argv, inp: bytes)
    ensures var r := InlineRequest(argv, inp); |r.rest| <= |inp| && (r.err == OK ==> |r.rest| < |inp|)
    decreases |inp|
  {
    var k := FirstSplit(inp);
    if k < |inp| && inp[k] == SPACE {
      InlineShrinks(argv + [Taken(inp, k)], inp[k + 1..]);
    }
  }

  /** A request reported by a fresh parser took input. */
  lemma RequestShrinks(st: ParserState, argv: Argv, inp: bytes, slack: bytes)
    ensures var r := ParseRequest(st, argv, inp, slack);
      |r.rest| <= |inp| && (st == FRESH && r.err == OK ==> |r.rest| < |inp|)
  {
    if inp != [] {
      InlineShrinks(argv, inp);
      if st.mb.len == 0 {
        var h := ReadInt(inp, slack);
        if h.Found? {
          LoopShrinks(st.mb.(len := h.value), argv, h.rest, slack);
        }
      } else {
        LoopShrinks(st.mb, argv, inp, slack);
      }
    }
  }

  /** The loop of `OnClientRead`. */
  function ReadLoop(c: Client, l: Link, slack: bytes): ClientOut
    decreases |c.input|, if c.st == FRESH then 0 else 1
  {
    if c.input == [] then ClientOut(c, l, OK)
    else
      var r := ParseRequest(c.st, c.current, c.input, slack);
      var d := c.(st := r.st, current := r.argv, input := r.rest);
      if r.err == TryAgain then ClientOut(d, l, OK)
      else if r.err != OK then ClientOut(d.(closing := true), l, r.err)
      else
        var p := PoolPush(l, d.current, SessionReader(c.id));
        if p.err == TryAgain then ClientOut(d.(readable := false), l, OK)
        else
          RequestShrinks(c.st, c.current, c.input, slack);
          ReadLoop(d.(st := FRESH, current := []), p.link, slack)
  }

  /** `OnClientRead`, apart from the room it makes in the input buffer at the end. */
  function ClientRead(c: Client, l: Link, slack: bytes): ClientOut {
    if c.current == [] then ReadLoop(c, l, slack)
    else
      var p := PoolPush(l, c.current, SessionReader(c.id));
      if p.err == TryAgain then ClientOut(c.(readable := false), l, OK)
      else ReadLoop(c.(current := []), p.link, slack)
  }
}
