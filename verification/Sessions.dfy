/** `Session`: requests of one client are parsed and pushed to the upstream, one call of `OnClientRead` at a time. */
module Sessions {
  import opened Base
  import Resp
  import opened Blocks
  import opened Buffers
  import opened Slices
  import opened Parsers
  import opened CmdParsers
  import opened Connections
  import opened RequestMachine
  import opened UpstreamMachine
  import opened SessionMachine
  import opened Upstreams

  /** The pool has a single upstream outside cluster mode. */
  class UpstreamPool {
    const singular: Upstream

    constructor (singular: Upstream)
      ensures this.singular == singular
    {
      this.singular := singular;
    }

    method PushRequest(cmd: Cmd, reader: Reader, ghost l: Link, conn: Connection) returns (err: Error)
      requires singular.serverConn != null ==> singular.HasLink(l, conn) && Connected(conn)
      requires cmd.Valid()
      modifies singular`accepted, singular.cmdQueue`end, singular.cmdQueue.holder
      modifies conn, conn.list`nodes, conn.sendBuffer, conn.sendBuffer.mem
      ensures old(singular.serverConn) == null ==> err == TryAgain && unchanged(singular) && unchanged(conn)
      ensures old(singular.serverConn) != null ==>
        var p := PoolPush(l, cmd.args, reader); singular.HasLink(p.link, conn) && err == p.err && Connected(conn)
      ensures !old(singular.IsAcceptable()) ==> err == TryAgain && unchanged(singular) && unchanged(conn)
      ensures old(singular.IsAcceptable()) ==>
        && err == (if |old(singular.cmdQueue.Contents())| < singular.cmdQueue.holder.Length - 1 then OK else TryAgain)
        && singular.cmdQueue.Contents() ==
          old(singular.cmdQueue.Contents()) + (if err == OK then [PairOf(reader)] else [])
        && conn.text == old(conn.text) + (if err == OK then Resp.Encode(cmd.args) else [])
        && conn.events == old(conn.events) + (if err == OK then {Out} else {})
    {
      hide Connected, Cmd.Valid;
      if !singular.IsAcceptable() {
        return TryAgain;
      }
      err := singular.PushRequest(cmd, reader, l, conn);
    }
  }

  /** Why the loop of `OnClientRead` stopped: no whole request is left, the upstream is full, or a parse error. */
  datatype Ending = Drained | Blocked | Refused(err: Error)

  /** The state in which the loop stopped. */
  datatype Stop = Stop(client: Client, link: Link, ending: Ending)

  /** What the end of a call makes of it. */
  function Close(s: Stop): ClientOut {
    match s.ending
    case Drained => ClientOut(s.client, s.link, OK)
    case Blocked => ClientOut(s.client.(readable := false), s.link, OK)
    case Refused(e) => ClientOut(s.client.(closing := true), s.link, e)
  }

  /** EPOLLIN and the close flag of the session's own connection. */
  ghost predicate HasFlags(c: Client, clientConn: Connection) reads clientConn {
    (c.readable <==> In in clientConn.events) && (c.closing <==> CloseFlag in clientConn.flag)
  }

  /** What the session's own connection was asked for. */
  ghost predicate Told(clientConn: Connection, text: bytes, bits: set<Interest>, was: set<NetFlag>,
                       describe: Error -> bytes, ending: Ending, err: Error)
    reads clientConn
  {
    match ending
    case Drained => err == OK && clientConn.text == text && clientConn.events == bits && clientConn.flag == was
    case Blocked => err == OK && clientConn.text == text && clientConn.events == bits - {In} && clientConn.flag == was
    case Refused(e) =>
      && err == e && clientConn.text == text + describe(e)
      && clientConn.events == bits + {Out} && clientConn.flag == was + {CloseFlag}
  }

  lemma FlagsAre(c: Client, clientConn: Connection)
    requires HasFlags(c, clientConn)
    ensures (c.readable <==> In in clientConn.events) && (c.closing <==> CloseFlag in clientConn.flag)
  {
  }

  lemma OwnSide(conn: Connection)
    requires Connected(conn)
    ensures conn.Holds() && conn in conn.list.conns
  {
  }

  /** The other connection of the list left it in order. */
  lemma StillConnected(conn: Connection, other: Connection)
    requires Connected(other) && conn.list == other.list && conn in conn.list.conns && conn.Holds()
    ensures Connected(conn)
  {
  }

  /** The text of an error in a buffer of its own. */
  method Message(text: bytes) returns (buffer: Buffer)
    ensures fresh(buffer) && fresh(buffer.mem) && HasText(buffer, text)
  {
    hide *;
    buffer := NewScratch();
    Put(buffer, text, []);
    assert [] + text == text;
    WritesText(buffer, text);
  }

  /** `conn->SetReadable( false )`, or the error is sent and the connection is to be closed. */
  method Answer(clientConn: Connection, describe: Error -> bytes, ending: Ending) returns (err: Error)
    requires Connected(clientConn)
    modifies clientConn, clientConn.list`nodes, clientConn.sendBuffer, clientConn.sendBuffer.mem
    ensures Connected(clientConn)
    ensures Told(clientConn, old(clientConn.text), old(clientConn.events), old(clientConn.flag), describe, ending, err)
  {
    hide Connection.Holds, WriteList.Agrees, WriteList.Scheduled, HasText;
    err := OK;
    match ending {
      case Drained =>
      case Blocked =>
        var op := clientConn.SetReadable(false);
      case Refused(e) =>
        var message := Message(describe(e));
        var werr := clientConn.WriteToBuffer(message, describe(e), {CloseFlag});
        err := e;
    }
  }

  class Session {
    const id: nat
    const mem: Memory
    const currentCmd: Cmd
    const parser: CmdParser
    const upstreamPool: UpstreamPool
    const readBufferMinSize: nat

    constructor (id: nat, mem: Memory, upstreamPool: UpstreamPool, readBufferMinSize: nat)
      requires mem.Valid()
      modifies mem
      ensures this.id == id && this.mem == mem && this.upstreamPool == upstreamPool
      ensures this.readBufferMinSize == readBufferMinSize
      ensures Shows(Client(id, FRESH, [], [], true, false), [])
    {
      this.id, this.mem, this.upstreamPool, this.readBufferMinSize := id, mem, upstreamPool, readBufferMinSize;
      parser := new CmdParser(mem);
      currentCmd := new Cmd(mem);
    }

    /** The parser, the request in hand and the input as a value; the flags are those of the connection. */
    ghost predicate Shows(c: Client, slack: bytes)
      reads parser, parser.multibulkParser, parser.inputbr, parser.inputbr.buffer, parser.inputbr.buffer.mem
      reads parser.inputbr.buffer.mem.views.Keys, currentCmd, currentCmd.mem, currentCmd.mem.views.Keys
    {
      && c.id == id && parser.inputb.mem == mem
      && Filling(parser, currentCmd, c.st, c.current, c.input, slack)
    }

    /**
     * `OnClientRead`. It stops reading when the upstream is full; when a request cannot be parsed the client gets
     * the error, and is closed when that is sent.
     */
    method OnClientRead(clientConn: Connection, describe: Error -> bytes, conn: Connection,
                        ghost c: Client, ghost l: Link, ghost slack: bytes)
      returns (err: Error, ghost behind: bytes)
      requires Shows(c, slack) && upstreamPool.singular.HasLink(l, conn) && Connected(conn)
      requires Connected(clientConn) && HasFlags(c, clientConn)
      requires clientConn.list == conn.list && mem != conn.sendBuffer.mem
      requires clientConn.sendBuffer.mem != conn.sendBuffer.mem && clientConn.sendBuffer.mem != mem
      modifies parser, parser.multibulkParser, parser.inputb, parser.inputbr, currentCmd, mem
      modifies upstreamPool.singular`accepted, upstreamPool.singular.cmdQueue`end, upstreamPool.singular.cmdQueue.holder
      modifies conn, conn.list`nodes, conn.sendBuffer, conn.sendBuffer.mem
      modifies clientConn, clientConn.sendBuffer, clientConn.sendBuffer.mem
      ensures Connected(conn) && Connected(clientConn)
      ensures var o := ClientRead(c, l, slack);
        && err == o.err && Shows(o.client, behind) && upstreamPool.singular.HasLink(o.link, conn)
        && HasFlags(o.client, clientConn)
        && (err == OK && o.client.readable ==> HasRoom(parser.inputb, readBufferMinSize))
      ensures err == OK ==> clientConn.text == old(clientConn.text) && clientConn.flag == old(clientConn.flag)
      ensures err == OK ==> clientConn.events in {old(clientConn.events), old(clientConn.events) - {In}}
      ensures err != OK ==>
        && clientConn.text == old(clientConn.text) + describe(err)
        && clientConn.flag == old(clientConn.flag) + {CloseFlag}
        && clientConn.events == old(clientConn.events) + {Out}
    {
      hide *;
      SendBuffersApart(clientConn, conn, c, slack);
      var ending;
      ghost var v, k, text, bits, was := c, l, clientConn.text, clientConn.events, clientConn.flag;
      FlagsAre(c, clientConn);
      ending, behind, v, k := HandleBeside(clientConn, conn, c, l, slack);
      err := AnswerBeside(clientConn, describe, ending, conn, v, k, behind);
      CallIs(clientConn, text, bits, was, describe, v, k, ending, err, behind);
    }

    /** The answer to the client is what the end of the call comes to. */
    lemma CallIs(clientConn: Connection, text: bytes, bits: set<Interest>, was: set<NetFlag>, describe: Error -> bytes,
                 v: Client, k: Link, ending: Ending, err: Error, behind: bytes)
      requires Shows(v, behind) && Told(clientConn, text, bits, was, describe, ending, err) && ending != Refused(OK)
      requires (v.readable <==> In in bits) && (v.closing <==> CloseFlag in was)
      ensures var o := Close(Stop(v, k, ending));
        && o.err == err && o.link == k && Shows(o.client, behind) && HasFlags(o.client, clientConn)
        && (err == OK && o.client.readable ==> ending == Drained)
      ensures err == OK ==> clientConn.text == text && clientConn.flag == was
      ensures err == OK ==> clientConn.events == bits || clientConn.events == bits - {In}
      ensures err != OK ==>
        && clientConn.text == text + describe(err)
        && clientConn.flag == was + {CloseFlag} && clientConn.events == bits + {Out}
    {
      hide Filling;
    }

    /** The three parties share no block. */
    ghost predicate Separate(clientConn: Connection, conn: Connection)
      reads mem, clientConn.sendBuffer.mem, conn.sendBuffer.mem
    {
      && clientConn != conn && clientConn.sendBuffer != conn.sendBuffer && clientConn.sendBuffer != parser.inputb
      && clientConn.sendBuffer.mem != mem && clientConn.sendBuffer.mem != conn.sendBuffer.mem
      && clientConn.sendBuffer !in mem.views && parser.inputb !in clientConn.sendBuffer.mem.views
      && conn.sendBuffer !in clientConn.sendBuffer.mem.views && clientConn.sendBuffer !in conn.sendBuffer.mem.views
      && parser.inputbr.buffer == parser.inputb && parser.inputb.mem == mem == currentCmd.mem
    }

    lemma SendBuffersApart(clientConn: Connection, conn: Connection, c: Client, slack: bytes)
      requires Shows(c, slack) && Connected(conn) && Connected(clientConn)
      requires clientConn.sendBuffer.mem != conn.sendBuffer.mem && clientConn.sendBuffer.mem != mem
      ensures Separate(clientConn, conn)
    {
    }

    lemma SeparateIs(clientConn: Connection, conn: Connection)
      requires Separate(clientConn, conn)
      ensures clientConn != conn && clientConn.sendBuffer != conn.sendBuffer && clientConn.sendBuffer != parser.inputb
      ensures clientConn.sendBuffer.mem != mem && clientConn.sendBuffer.mem != conn.sendBuffer.mem
      ensures clientConn.sendBuffer !in mem.views && parser.inputb !in clientConn.sendBuffer.mem.views
      ensures conn.sendBuffer !in clientConn.sendBuffer.mem.views
      ensures clientConn.sendBuffer !in conn.sendBuffer.mem.views
      ensures parser.inputbr.buffer == parser.inputb && parser.inputb.mem == mem == currentCmd.mem
    {
    }

    /** What the upstream is sent does not touch what the client is sent. */
    method HandleBeside(clientConn: Connection, conn: Connection, ghost c: Client, ghost l: Link, ghost slack: bytes)
      returns (ending: Ending, ghost behind: bytes, ghost v: Client, ghost k: Link)
      requires Shows(c, slack) && upstreamPool.singular.HasLink(l, conn) && Connected(conn) && Connected(clientConn)
      requires clientConn.list == conn.list && mem != conn.sendBuffer.mem && Separate(clientConn, conn)
      modifies parser, parser.multibulkParser, parser.inputb, parser.inputbr, currentCmd, mem
      modifies upstreamPool.singular`accepted, upstreamPool.singular.cmdQueue`end, upstreamPool.singular.cmdQueue.holder
      modifies conn, conn.list`nodes, conn.sendBuffer, conn.sendBuffer.mem
      ensures Shows(v, behind) && upstreamPool.singular.HasLink(k, conn) && Connected(conn) && Connected(clientConn)
      ensures Close(Stop(v, k, ending)) == ClientRead(c, l, slack)
      ensures v.readable == c.readable && v.closing == c.closing && ending != Refused(OK)
      ensures ending == Drained ==> HasRoom(parser.inputb, readBufferMinSize)
      ensures Separate(clientConn, conn)
    {
      hide *;
      SeparateIs(clientConn, conn);
      OwnSide(clientConn);
      ending, behind, v, k := HandleOnly(clientConn, conn, c, l, slack);
      StillConnected(clientConn, conn);
      SendBuffersApart(clientConn, conn, v, behind);
    }

    /** What the client is sent does not touch what the upstream is sent. */
    method AnswerBeside(clientConn: Connection, describe: Error -> bytes, ending: Ending, conn: Connection,
                        ghost v: Client, ghost k: Link, ghost behind: bytes) returns (err: Error)
      requires Shows(v, behind) && upstreamPool.singular.HasLink(k, conn) && Connected(conn) && Connected(clientConn)
      requires clientConn.list == conn.list && Separate(clientConn, conn)
      requires ending == Drained ==> HasRoom(parser.inputb, readBufferMinSize)
      modifies clientConn, clientConn.list`nodes, clientConn.sendBuffer, clientConn.sendBuffer.mem
      ensures Shows(v, behind) && upstreamPool.singular.HasLink(k, conn) && Connected(conn) && Connected(clientConn)
      ensures ending == Drained ==> HasRoom(parser.inputb, readBufferMinSize)
      ensures Told(clientConn, old(clientConn.text), old(clientConn.events), old(clientConn.flag),
                   describe, ending, err)
    {
      hide *;
      SeparateIs(clientConn, conn);
      OwnSide(conn);
      err := AnswerOnly(clientConn, describe, ending, conn, v, k, behind);
      StillConnected(conn, clientConn);
    }

    method HandleOnly(clientConn: Connection, conn: Connection, ghost c: Client, ghost l: Link, ghost slack: bytes)
      returns (ending: Ending, ghost behind: bytes, ghost v: Client, ghost k: Link)
      requires Shows(c, slack) && upstreamPool.singular.HasLink(l, conn) && Connected(conn) && clientConn.Holds()
      requires mem != conn.sendBuffer.mem
      requires clientConn != conn && clientConn.sendBuffer != conn.sendBuffer && clientConn.sendBuffer != parser.inputb
      requires clientConn.sendBuffer.mem != mem && clientConn.sendBuffer.mem != conn.sendBuffer.mem
      requires parser.inputb !in clientConn.sendBuffer.mem.views && conn.sendBuffer !in clientConn.sendBuffer.mem.views
      modifies parser, parser.multibulkParser, parser.inputb, parser.inputbr, currentCmd, mem
      modifies upstreamPool.singular`accepted, upstreamPool.singular.cmdQueue`end, upstreamPool.singular.cmdQueue.holder
      modifies conn, conn.list`nodes, conn.sendBuffer, conn.sendBuffer.mem
      ensures Shows(v, behind) && upstreamPool.singular.HasLink(k, conn) && Connected(conn) && clientConn.Holds()
      ensures Close(Stop(v, k, ending)) == ClientRead(c, l, slack)
      ensures v.readable == c.readable && v.closing == c.closing && ending != Refused(OK)
      ensures ending == Drained ==> HasRoom(parser.inputb, readBufferMinSize)
    {
      hide *;
      ending, behind, v, k := HandleRequests(conn, c, l, slack);
    }

    method AnswerOnly(clientConn: Connection, describe: Error -> bytes, ending: Ending, conn: Connection,
                      ghost v: Client, ghost k: Link, ghost behind: bytes) returns (err: Error)
      requires Shows(v, behind) && upstreamPool.singular.HasLink(k, conn) && conn.Holds() && Connected(clientConn)
      requires ending == Drained ==> HasRoom(parser.inputb, readBufferMinSize)
      requires clientConn != conn && clientConn.sendBuffer != conn.sendBuffer && clientConn.sendBuffer != parser.inputb
      requires clientConn.sendBuffer.mem != mem && clientConn.sendBuffer.mem != conn.sendBuffer.mem
      requires clientConn.sendBuffer !in mem.views && clientConn.sendBuffer !in conn.sendBuffer.mem.views
      requires parser.inputbr.buffer == parser.inputb && parser.inputb.mem == mem == currentCmd.mem
      modifies clientConn, clientConn.list`nodes, clientConn.sendBuffer, clientConn.sendBuffer.mem
      ensures Shows(v, behind) && upstreamPool.singular.HasLink(k, conn) && conn.Holds() && Connected(clientConn)
      ensures ending == Drained ==> HasRoom(parser.inputb, readBufferMinSize)
      ensures Told(clientConn, old(clientConn.text), old(clientConn.events), old(clientConn.flag),
                   describe, ending, err)
    {
      hide *;
      err := Answer(clientConn, describe, ending);
    }

    /** `OnClientRead`, apart from what it asks of its own connection. */
    method HandleRequests(conn: Connection, ghost c: Client, ghost l: Link, ghost slack: bytes)
      returns (ending: Ending, ghost behind: bytes, ghost v: Client, ghost k: Link)
      requires Shows(c, slack) && upstreamPool.singular.HasLink(l, conn) && Connected(conn)
      requires mem != conn.sendBuffer.mem
      modifies parser, parser.multibulkParser, parser.inputb, parser.inputbr, currentCmd, mem
      modifies upstreamPool.singular`accepted, upstreamPool.singular.cmdQueue`end, upstreamPool.singular.cmdQueue.holder
      modifies conn, conn.list`nodes, conn.sendBuffer, conn.sendBuffer.mem
      ensures Shows(v, behind) && upstreamPool.singular.HasLink(k, conn) && Connected(conn)
      ensures Close(Stop(v, k, ending)) == ClientRead(c, l, slack)
      ensures v.readable == c.readable && v.closing == c.closing && ending != Refused(OK)
      ensures ending == Drained ==> HasRoom(parser.inputb, readBufferMinSize)
    {
      hide *;
      ending, v, k := ReadRequests(conn, c, l, slack);
      behind := slack;
      if ending == Drained {
        behind := MakeRoomBeside(conn, v, k, slack);
      }
    }

    /** A reply goes to the client if it is still there, and its requests are read again. */
    method OnServerWrite(clientConn: Connection, reply: Buffer, ghost data: bytes)
      requires Connected(clientConn) && HasText(reply, data)
      modifies clientConn, clientConn.list`nodes, clientConn.sendBuffer, clientConn.sendBuffer.mem
      ensures Connected(clientConn)
      ensures old(clientConn.connected) ==>
        && clientConn.text == old(clientConn.text) + data && clientConn.events == old(clientConn.events) + {In, Out}
      ensures !old(clientConn.connected) ==>
        clientConn.text == old(clientConn.text) && clientConn.events == old(clientConn.events)
    {
      hide Connection.Holds, WriteList.Agrees, WriteList.Scheduled, HasText;
      if clientConn.connected {
        var err := clientConn.WriteToBuffer(reply, data);
        var op := clientConn.SetReadable(true);
      }
    }

    /** Making room does not touch what is sent. */
    method MakeRoomBeside(conn: Connection, ghost v: Client, ghost k: Link, ghost slack: bytes)
      returns (ghost behind: bytes)
      requires Shows(v, slack) && upstreamPool.singular.HasLink(k, conn) && Connected(conn)
      requires mem != conn.sendBuffer.mem
      modifies parser.inputb, mem
      ensures Shows(v, behind) && HasRoom(parser.inputb, readBufferMinSize)
      ensures upstreamPool.singular.HasLink(k, conn) && Connected(conn)
    {
      hide *;
      InputApart(conn, v, slack);
      behind := MakeRoom(readBufferMinSize, v, slack);
    }

    method MakeRoom(n: nat, ghost v: Client, ghost slack: bytes) returns (ghost behind: bytes)
      requires Shows(v, slack)
      modifies parser.inputb, mem
      ensures Shows(v, behind) && HasRoom(parser.inputb, n)
    {
      behind := MakeRoomFor(parser, currentCmd, n, v.input, slack);
    }

    /** There is room for what the client sends, and its socket is read from now on. */
    method OnNewClientConnection(conn: Connection, readBufferInitSize: nat, ghost c: Client, ghost slack: bytes)
      returns (err: Error, ghost behind: bytes)
      requires Shows(c, slack) && Connected(conn) && mem != conn.sendBuffer.mem
      modifies parser.inputb, mem, conn`events
      ensures err == OK && Shows(c, behind) && HasRoom(parser.inputb, readBufferInitSize)
      ensures Connected(conn) && conn.events == old(conn.events) + {In}
    {
      hide *;
      InputApart(conn, c, slack);
      behind := MakeRoom(readBufferInitSize, c, slack);
      var op := ListenTo(conn);
      err := OK;
    }

    /** `OnClientRead` up to where it looks at its own connection. */
    method ReadRequests(conn: Connection, ghost c: Client, ghost l: Link, ghost slack: bytes)
      returns (ending: Ending, ghost v: Client, ghost k: Link)
      requires Shows(c, slack) && upstreamPool.singular.HasLink(l, conn) && Connected(conn)
      requires mem != conn.sendBuffer.mem
      modifies parser, parser.multibulkParser, parser.inputb, parser.inputbr, currentCmd, mem
      modifies upstreamPool.singular`accepted, upstreamPool.singular.cmdQueue`end, upstreamPool.singular.cmdQueue.holder
      modifies conn, conn.list`nodes, conn.sendBuffer, conn.sendBuffer.mem
      ensures Shows(v, slack) && upstreamPool.singular.HasLink(k, conn) && Connected(conn)
      ensures Close(Stop(v, k, ending)) == ClientRead(c, l, slack)
      ensures v.readable == c.readable && v.closing == c.closing && ending != Refused(OK)
    {
      hide Connected, Filling, PoolPush, Upstream.HasLink, ReadLoop;
      var waiting := IsPending(c, slack);
      if waiting {
        ending, v, k := PushPending(conn, c, l, slack);
        if ending == Blocked {
          return;
        }
      } else {
        v, k := c, l;
      }
      ending, v, k := Loop(conn, v, k, slack);
    }

    /** `!currentCmd_.Empty()` */
    method IsPending(ghost c: Client, ghost slack: bytes) returns (waiting: bool)
      requires Shows(c, slack)
      ensures waiting <==> c.current != []
    {
      waiting := !currentCmd.Empty();
    }

    /** A request that was kept back is tried again; the parser is not reset. */
    method PushPending(conn: Connection, ghost c: Client, ghost l: Link, ghost slack: bytes)
      returns (ending: Ending, ghost v: Client, ghost k: Link)
      requires Shows(c, slack) && upstreamPool.singular.HasLink(l, conn) && Connected(conn)
      requires mem != conn.sendBuffer.mem
      modifies currentCmd, mem
      modifies upstreamPool.singular`accepted, upstreamPool.singular.cmdQueue`end, upstreamPool.singular.cmdQueue.holder
      modifies conn, conn.list`nodes, conn.sendBuffer, conn.sendBuffer.mem
      ensures Shows(v, slack) && upstreamPool.singular.HasLink(k, conn) && Connected(conn)
      ensures var p := PoolPush(l, c.current, SessionReader(c.id));
        if p.err == TryAgain then ending == Blocked && v == c && k == l
        else ending == Drained && v == c.(current := []) && k == p.link
    {
      PushIsOk(l, c.current, SessionReader(c.id));
      hide *;
      var err;
      err, k := TryPush(conn, c, l, slack);
      if err == TryAgain {
        ending, v := Blocked, c;
      } else {
        DropRequest(c, slack);
        ending, v := Drained, c.(current := []);
      }
    }

    method TryPush(conn: Connection, ghost c: Client, ghost l: Link, ghost slack: bytes)
      returns (err: Error, ghost k: Link)
      requires Shows(c, slack) && upstreamPool.singular.HasLink(l, conn) && Connected(conn)
      requires mem != conn.sendBuffer.mem
      modifies upstreamPool.singular`accepted, upstreamPool.singular.cmdQueue`end, upstreamPool.singular.cmdQueue.holder
      modifies conn, conn.list`nodes, conn.sendBuffer, conn.sendBuffer.mem
      ensures PushOut(k, err) == PoolPush(l, c.current, SessionReader(c.id))
      ensures upstreamPool.singular.HasLink(k, conn) && Connected(conn) && Shows(c, slack)
    {
      SendsApart(conn, c, l, slack);
      hide *;
      err := Push(conn, c, l, slack);
      k := PoolPush(l, c.current, SessionReader(c.id)).link;
    }

    lemma PushIsOk(l: Link, argv: Resp.Argv, reader: Reader)
      ensures var p := PoolPush(l, argv, reader); p.err == OK || p == PushOut(l, TryAgain)
    {
    }

    /** The loop is under way: what it will come to from here on is `goal`. */
    ghost predicate Reading(conn: Connection, c: Client, l: Link, slack: bytes, goal: ClientOut)
      reads parser, parser.multibulkParser, parser.inputbr, parser.inputbr.buffer, parser.inputbr.buffer.mem
      reads parser.inputbr.buffer.mem.views.Keys, currentCmd, currentCmd.mem, currentCmd.mem.views.Keys
      reads upstreamPool.singular, upstreamPool.singular.cmdQueue, upstreamPool.singular.cmdQueue.holder, conn
    {
      Shows(c, slack) && upstreamPool.singular.HasLink(l, conn) && ReadLoop(c, l, slack) == goal
    }

    ghost predicate HasRead(conn: Connection, v: Client, k: Link, ending: Ending, slack: bytes, goal: ClientOut)
      reads parser, parser.multibulkParser, parser.inputbr, parser.inputbr.buffer, parser.inputbr.buffer.mem
      reads parser.inputbr.buffer.mem.views.Keys, currentCmd, currentCmd.mem, currentCmd.mem.views.Keys
      reads upstreamPool.singular, upstreamPool.singular.cmdQueue, upstreamPool.singular.cmdQueue.holder, conn
    {
      && Shows(v, slack) && upstreamPool.singular.HasLink(k, conn)
      && Close(Stop(v, k, ending)) == goal && ending != Refused(OK)
    }

    /** The loop over the requests. */
    method Loop(conn: Connection, ghost c: Client, ghost l: Link, ghost slack: bytes)
      returns (ending: Ending, ghost v: Client, ghost k: Link)
      requires Shows(c, slack) && upstreamPool.singular.HasLink(l, conn) && Connected(conn)
      requires mem != conn.sendBuffer.mem
      modifies parser, parser.multibulkParser, parser.inputb, parser.inputbr, currentCmd, mem
      modifies upstreamPool.singular`accepted, upstreamPool.singular.cmdQueue`end, upstreamPool.singular.cmdQueue.holder
      modifies conn, conn.list`nodes, conn.sendBuffer, conn.sendBuffer.mem
      ensures HasRead(conn, v, k, ending, slack, ReadLoop(c, l, slack)) && Connected(conn)
      ensures v.readable == c.readable && v.closing == c.closing
    {
      ghost var goal := ReadLoop(c, l, slack);
      v, k, ending := c, l, Drained;
      var more := true;
      while more
        invariant Connected(conn) && v.readable == c.readable && v.closing == c.closing
        invariant more ==> Reading(conn, v, k, slack, goal)
        invariant !more ==> HasRead(conn, v, k, ending, slack, goal)
        decreases if more then 1 else 0, |v.input|, if v.st == FRESH then 0 else 1
      {
        hide *;
        more, ending, v, k := Turn(conn, v, k, slack, goal);
      }
    }

    /** The test of the loop and its body. */
    method Turn(conn: Connection, ghost c: Client, ghost l: Link, ghost slack: bytes, ghost goal: ClientOut)
      returns (more: bool, ending: Ending, ghost v: Client, ghost k: Link)
      requires Reading(conn, c, l, slack, goal) && Connected(conn) && mem != conn.sendBuffer.mem
      modifies parser, parser.multibulkParser, parser.inputb, parser.inputbr, currentCmd, mem
      modifies upstreamPool.singular`accepted, upstreamPool.singular.cmdQueue`end, upstreamPool.singular.cmdQueue.holder
      modifies conn, conn.list`nodes, conn.sendBuffer, conn.sendBuffer.mem
      ensures Connected(conn) && v.readable == c.readable && v.closing == c.closing
      ensures more ==> Reading(conn, v, k, slack, goal) && Smaller(v, c)
      ensures !more ==> HasRead(conn, v, k, ending, slack, goal)
    {
      ReadLoopStep(c, l, slack);
      hide Connected, Filling, ParseRequest, PoolPush, ReadLoop, Upstream.HasLink;
      ending, v, k, more := Drained, c, l, false;
      var empty := NoInput(c, slack);
      if !empty {
        more, ending, v, k := OneRequest(conn, c, l, slack);
      }
    }

    /** `buffer->Empty()` */
    method NoInput(ghost c: Client, ghost slack: bytes) returns (empty: bool)
      requires Shows(c, slack)
      ensures empty <==> c.input == []
    {
      empty := parser.InputEmpty(c.input, slack);
    }

    /** The body of the loop. */
    method OneRequest(conn: Connection, ghost c: Client, ghost l: Link, ghost slack: bytes)
      returns (more: bool, ending: Ending, ghost v: Client, ghost k: Link)
      requires Shows(c, slack) && upstreamPool.singular.HasLink(l, conn) && Connected(conn)
      requires mem != conn.sendBuffer.mem
      modifies parser, parser.multibulkParser, parser.inputb, parser.inputbr, currentCmd, mem
      modifies upstreamPool.singular`accepted, upstreamPool.singular.cmdQueue`end, upstreamPool.singular.cmdQueue.holder
      modifies conn, conn.list`nodes, conn.sendBuffer, conn.sendBuffer.mem
      ensures Shows(v, slack) && upstreamPool.singular.HasLink(k, conn) && Connected(conn)
      ensures var e := ParseRequest(c.st, c.current, c.input, slack).err;
        if e == OK then Submitted(AfterParse(c, slack), l, more, ending, v, k)
        else !more && ending == (if e == TryAgain then Drained else Refused(e)) && v == AfterParse(c, slack) && k == l
    {
      InputApart(conn, c, slack);
      hide *;
      var err := ParseBeside(conn, c, l, slack);
      v, k := AfterParse(c, slack), l;
      more, ending := false, if err == TryAgain then Drained else Refused(err);
      if err == OK {
        more, ending, v, k := Submit(conn, v, l, slack);
      }
    }

    /** Parsing does not touch what is sent. */
    method ParseBeside(conn: Connection, ghost c: Client, ghost l: Link, ghost slack: bytes) returns (err: Error)
      requires Shows(c, slack) && upstreamPool.singular.HasLink(l, conn) && Connected(conn)
      requires mem != conn.sendBuffer.mem
      requires parser.inputb !in conn.sendBuffer.mem.views && parser.inputb != conn.sendBuffer
      modifies parser, parser.multibulkParser, parser.inputb, parser.inputbr, currentCmd, mem
      ensures err == ParseRequest(c.st, c.current, c.input, slack).err && Shows(AfterParse(c, slack), slack)
      ensures upstreamPool.singular.HasLink(l, conn) && Connected(conn)
    {
      hide Connected, Filling, AfterParse, ParseRequest, Upstream.HasLink;
      err := Parse(c, slack);
    }

    lemma InputApart(conn: Connection, c: Client, slack: bytes)
      requires Shows(c, slack) && Connected(conn) && mem != conn.sendBuffer.mem
      ensures parser.inputb !in conn.sendBuffer.mem.views && parser.inputb != conn.sendBuffer
    {
    }

    /** What pushing a whole request comes to. */
    ghost predicate Submitted(d: Client, l: Link, more: bool, ending: Ending, v: Client, k: Link) {
      var p := PoolPush(l, d.current, SessionReader(d.id));
      if p.err == TryAgain then !more && ending == Blocked && v == d && k == l
      else more && v == d.(st := FRESH, current := []) && k == p.link
    }

    method Submit(conn: Connection, ghost d: Client, ghost l: Link, ghost slack: bytes)
      returns (more: bool, ending: Ending, ghost v: Client, ghost k: Link)
      requires Shows(d, slack) && upstreamPool.singular.HasLink(l, conn) && Connected(conn)
      requires mem != conn.sendBuffer.mem
      modifies parser, parser.multibulkParser, currentCmd, mem
      modifies upstreamPool.singular`accepted, upstreamPool.singular.cmdQueue`end, upstreamPool.singular.cmdQueue.holder
      modifies conn, conn.list`nodes, conn.sendBuffer, conn.sendBuffer.mem
      ensures Shows(v, slack) && upstreamPool.singular.HasLink(k, conn) && Connected(conn)
      ensures Submitted(d, l, more, ending, v, k)
    {
      PushIsOk(l, d.current, SessionReader(d.id));
      SubmittedIs(d, l);
      hide *;
      var err;
      err, k := TryPush(conn, d, l, slack);
      more, ending, v := err != TryAgain, Blocked, d;
      if more {
        Renew(d, slack);
        v := d.(st := FRESH, current := []);
      }
    }

    lemma SubmittedIs(d: Client, l: Link)
      ensures var p := PoolPush(l, d.current, SessionReader(d.id));
        && (p.err == TryAgain ==> Submitted(d, l, false, Blocked, d, l))
        && (p.err != TryAgain ==> Submitted(d, l, true, Blocked, d.(st := FRESH, current := []), p.link))
    {
    }

    predicate Smaller(v: Client, c: Client) {
      v.st == FRESH && (|v.input| < |c.input| || (|v.input| == |c.input| && c.st != FRESH))
    }

    /** The buffers of the session and the send buffer of the server's connection share no block. */
    ghost predicate Apart(conn: Connection) reads mem {
      && conn.sendBuffer !in mem.views && conn.sendBuffer != parser.inputb
      && parser.inputbr.buffer == parser.inputb && parser.inputb.mem == currentCmd.mem == mem
      && conn.sendBuffer.mem != mem
    }

    lemma SendsApart(conn: Connection, c: Client, l: Link, slack: bytes)
      requires Shows(c, slack) && mem != conn.sendBuffer.mem && upstreamPool.singular.HasLink(l, conn)
      ensures Apart(conn) && currentCmd.Valid() && currentCmd.args == c.current && c.id == id
      ensures upstreamPool.singular.serverConn == conn
    {
    }

    /** `upstreamPool_->PushRequest( currentCmd_, this )` */
    method Push(conn: Connection, ghost c: Client, ghost l: Link, ghost slack: bytes) returns (err: Error)
      requires Shows(c, slack) && upstreamPool.singular.HasLink(l, conn) && Connected(conn)
      requires Apart(conn) && currentCmd.Valid() && currentCmd.args == c.current && c.id == id
      requires upstreamPool.singular.serverConn == conn
      modifies upstreamPool.singular`accepted, upstreamPool.singular.cmdQueue`end, upstreamPool.singular.cmdQueue.holder
      modifies conn, conn.list`nodes, conn.sendBuffer, conn.sendBuffer.mem
      ensures var p := PoolPush(l, c.current, SessionReader(c.id));
        err == p.err && upstreamPool.singular.HasLink(p.link, conn)
      ensures Connected(conn) && Shows(c, slack)
    {
      hide Connected, Cmd.Valid, Filling, Upstream.HasLink, PoolPush;
      err := upstreamPool.PushRequest(currentCmd, SessionReader(id), l, conn);
    }

    /** One turn of the loop parses one request. */
    method Parse(ghost c: Client, ghost slack: bytes) returns (err: Error)
      requires Shows(c, slack)
      modifies parser, parser.multibulkParser, parser.inputb, parser.inputbr, currentCmd, mem
      ensures err == ParseRequest(c.st, c.current, c.input, slack).err && Shows(AfterParse(c, slack), slack)
    {
      hide ParseRequest;
      ghost var h, argv0 := mem.H(), currentCmd.argv;
      err := parser.ParseRequest(currentCmd, c.input, slack);
      RequestedIs(h, argv0, mem.H(), currentCmd.argv, parser.inputb);
    }

    /** `parser_.Reset(); currentCmd_.Reset();` */
    method Renew(ghost c: Client, ghost slack: bytes)
      requires Shows(c, slack)
      modifies parser, parser.multibulkParser, currentCmd, mem
      ensures Shows(c.(st := FRESH, current := []), slack)
    {
      parser.Reset();
      DropRequest(c.(st := FRESH), slack);
    }

    /** `currentCmd_.Reset();` */
    method DropRequest(ghost c: Client, ghost slack: bytes)
      requires Shows(c, slack)
      modifies currentCmd, mem
      ensures Shows(c.(current := []), slack)
    {
      CmdParsers.DropRequest(parser, currentCmd, c.input, slack);
    }
  }

  function AfterParse(c: Client, slack: bytes): Client {
    var q := ParseRequest(c.st, c.current, c.input, slack);
    c.(st := q.st, current := q.argv, input := q.rest)
  }

  /** One turn of the loop, and how it ends. */
  lemma ReadLoopStep(c: Client, l: Link, slack: bytes)
    ensures var r := ReadLoop(c, l, slack);
      var q := ParseRequest(c.st, c.current, c.input, slack);
      var d := AfterParse(c, slack);
      var p := PoolPush(l, q.argv, SessionReader(c.id));
      && (c.input == [] ==> r == ClientOut(c, l, OK))
      && (c.input != [] && q.err == TryAgain ==> r == ClientOut(d, l, OK))
      && (c.input != [] && q.err != TryAgain && q.err != OK ==> r == ClientOut(d.(closing := true), l, q.err))
      && (c.input != [] && q.err == OK && p.err == TryAgain ==>
            r == ClientOut(d.(readable := false), l, OK) && p.link == l)
      && (c.input != [] && q.err == OK && p.err != TryAgain ==>
            r == ReadLoop(d.(st := FRESH, current := []), p.link, slack))
      && |q.rest| <= |c.input| && (c.st == FRESH && q.err == OK ==> |q.rest| < |c.input|)
  {
    RequestShrinks(c.st, c.current, c.input, slack);
  }

  lemma RequestedIs<K>(h: Heap<K>, argv0: seq<K>, g: Heap<K>, argv: seq<K>, src: K)
    requires CmdParsers.Requested(h, argv0, g, argv, src)
    ensures src !in argv
  {
  }
}
