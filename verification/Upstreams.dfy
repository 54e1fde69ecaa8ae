/** `Upstream`: requests are queued and sent, replies are parsed and handed to the readers in the queue. */
module Upstreams {
  import opened Base
  import Resp
  import opened Blocks
  import opened BufferOps
  import BufferRuns
  import opened Buffers
  import opened Slices
  import opened Parsers
  import opened CmdParsers
  import opened Connections
  import opened Ring
  import opened RequestMachine
  import opened ReplyMachine
  import opened UpstreamMachine
  import Replies
  import SM = SessionMachine
  import Protocol

  class Upstream {
    const mem: Memory
    const parser: CmdParser
    const respBuffer: Buffer
    const cmdQueue: Recycle<ReaderPair>
    const readBufferMinSize: nat
    var serverConn: Connection?
    var auth: bool
    /** `authCmd_` is not null. */
    var authPending: bool
    /** The calls of `OnServerWrite`, and the requests that were queued. */
    ghost var log: seq<Delivery>
    ghost var accepted: seq<SM.Request>

    constructor (mem: Memory, sendBufferCount: nat, readBufferMinSize: nat)
      requires mem.Valid() && sendBufferCount >= 1
      modifies mem
      ensures this.mem == mem && cmdQueue.holder.Length == sendBufferCount && serverConn == null && !authPending
      ensures this.readBufferMinSize == readBufferMinSize
      ensures Shows(State(Books(false, [], []), FRESH, [], []), []) && accepted == []
      ensures fresh(parser) && fresh(parser.multibulkParser) && fresh(parser.inputb) && fresh(parser.inputbr)
      ensures fresh(respBuffer) && fresh(cmdQueue) && fresh(cmdQueue.holder)
    {
      hide Memory.Valid, WellFormed, SeesIn, Owner, After, Collects, Texts, InBounds;
      this.mem, this.readBufferMinSize := mem, readBufferMinSize;
      serverConn, auth, authPending := null, false, false;
      log, accepted := [], [];
      var newParser := new CmdParser(mem);
      var response := NewResponse(newParser, mem);
      parser, respBuffer := newParser, response;
      cmdQueue := new Recycle(sendBufferCount);
    }

    ghost predicate HasBooks(b: Books)
      reads this`auth, this`log, cmdQueue, cmdQueue.holder
    {
      cmdQueue.Valid() && b == Books(auth, cmdQueue.Contents(), log)
    }

    ghost predicate Parses(st: ParserState, resp: bytes, input: bytes, slack: bytes)
      reads parser, parser.multibulkParser, parser.inputbr, parser.inputbr.buffer, parser.inputbr.buffer.mem
      reads parser.inputbr.buffer.mem.views.Keys, respBuffer
    {
      parser.State() == st && parser.Gathers(respBuffer, resp, input, slack) && parser.inputb.mem == mem
    }

    /** The fields as a value. */
    ghost predicate Shows(u: State, slack: bytes)
      reads this`auth, this`log, cmdQueue, cmdQueue.holder
      reads parser, parser.multibulkParser, parser.inputbr, parser.inputbr.buffer, parser.inputbr.buffer.mem
      reads parser.inputbr.buffer.mem.views.Keys, respBuffer
    {
      HasBooks(u.books) && Parses(u.st, u.resp, u.input, slack)
    }

    /** Room for n bytes behind the input. */
    ghost predicate RoomFor(n: nat) reads mem, mem.views.Keys, parser.inputb {
      mem.Valid() && parser.inputb in mem.views && parser.inputb.mem == mem && parser.inputb.FreeSize() >= n
    }

    method OnServerRead(ghost u: State, ghost slack: bytes) returns (err: Error, ghost behind: bytes)
      requires Shows(u, slack) && ReplyReady(u.st)
      modifies this`auth, this`authPending, this`log, cmdQueue`start
      modifies parser, parser.multibulkParser, parser.inputb, parser.inputbr, respBuffer, mem
      ensures var r := ServerRead(u, slack);
        && err == r.err && HasBooks(r.state.books)
        && (err != Empty ==> Shows(r.state, behind))
        && (err == OK ==> RoomFor(readBufferMinSize))
        && (err != OK && err != Empty ==> RoomFor(|slack|) && parser.inputb.FreeSize() == |slack|)
    {
      hide Parses, RoomFor;
      ghost var v;
      err, v := ReadReplies(u, slack);
      behind := slack;
      if err == TryAgain {
        behind := MakeRoom(v, slack);
        err := OK;
      } else if err != Empty {
        RoomIsSlack(v, slack);
      }
    }

    /** What is free in the input block is the memory behind the input. */
    lemma RoomIsSlack(u: State, slack: bytes)
      requires Parses(u.st, u.resp, u.input, slack)
      ensures RoomFor(|slack|) && parser.inputb.FreeSize() == |slack|
    {
    }

    /**
     * `OnReadable` of the server's connection: what the socket brings goes behind the input, and `OnServerRead`
     * is called. Without room nothing is read and EPOLLIN is cleared. The call is a `Deliver` step of the protocol.
     */
    method OnReadable(conn: Connection, r: Arrival, ghost u: State, ghost slack: bytes)
      returns (err: Error, handled: Error, ghost now: bytes, ghost behind: bytes)
      requires Shows(u, slack) && ReplyReady(u.st) && conn.list.Agrees() && conn.list.Scheduled()
      modifies conn`events, conn`closing, this`auth, this`authPending, this`log, cmdQueue`start
      modifies parser, parser.multibulkParser, parser.inputb, parser.inputbr, respBuffer, mem
      ensures conn.list.Agrees() && conn.list.Scheduled()
      ensures |slack| == 0 ==> err == OK
      ensures |slack| > 0 && r.Failed? ==> err == if r.errno in {EAGAIN, EINTR} then TryAgain else Errno(r.errno)
      ensures |slack| > 0 && r.Bytes? ==> err == if r.data == [] then Error.Eof else OK
      ensures conn.events == if |slack| == 0 then old(conn.events) - {In} else old(conn.events)
      ensures conn.closing == (old(conn.closing) || (err != OK && err != TryAgain))
      ensures err != OK ==> Shows(u, slack)
      ensures |slack| == 0 ==> Handled(u, now, handled, behind)
      ensures 0 < |slack| && err == OK ==> r.Bytes?
      ensures 0 < |slack| && err == OK && |r.data| <= |slack| ==>
        Handled(u.(input := u.input + r.data), now, handled, behind)
      ensures 0 < |slack| && err == OK && |r.data| > |slack| ==>
        Handled(u.(input := u.input + r.data[..|slack|]), now, handled, behind)
    {
      hide *;
      err, now := ReadInput(conn, r, u, slack);
      behind, handled := slack, OK;
      ReadErrorIs(|slack|, r);
      BroughtIs(r, |slack|, u);
      if err == Full {
        err := OK;
        handled, behind := HandleInput(u, slack);
      } else if err == OK {
        handled, behind := HandleInput(u.(input := u.input + Brought(r, |slack|)), now);
      }
    }

    /** What `OnServerRead` on v came to. */
    ghost predicate Handled(v: State, slack: bytes, err: Error, behind: bytes)
      reads this`auth, this`log, cmdQueue, cmdQueue.holder, mem, mem.views.Keys
      reads parser, parser.multibulkParser, parser.inputb, parser.inputbr, parser.inputbr.buffer
      reads parser.inputbr.buffer.mem, parser.inputbr.buffer.mem.views.Keys, respBuffer
    {
      && ReplyReady(v.st)
      && var o := ServerRead(v, slack);
        && err == o.err && HasBooks(o.state.books)
        && (err != Empty ==> Shows(o.state, behind))
        && (err == OK ==> RoomFor(readBufferMinSize))
        && (err != OK && err != Empty ==> RoomFor(|slack|) && parser.inputb.FreeSize() == |slack|)
    }

    method HandleInput(ghost v: State, ghost slack: bytes) returns (handled: Error, ghost behind: bytes)
      requires Shows(v, slack) && ReplyReady(v.st)
      modifies this`auth, this`authPending, this`log, cmdQueue`start
      modifies parser, parser.multibulkParser, parser.inputb, parser.inputbr, respBuffer, mem
      ensures Handled(v, slack, handled, behind)
    {
      hide Parses, HasBooks, RoomFor, ServerRead;
      handled, behind := OnServerRead(v, slack);
    }

    /** `Read( recvBuffer_ )`; the replies collected so far stay as they are. */
    method ReadInput(conn: Connection, r: Arrival, ghost u: State, ghost slack: bytes)
      returns (err: Error, ghost now: bytes)
      requires Shows(u, slack) && conn.list.Agrees() && conn.list.Scheduled()
      modifies conn`events, conn`closing, parser.inputb, mem
      ensures conn.list.Agrees() && conn.list.Scheduled() && err == ReadError(|slack|, r)
      ensures conn.events == if err == Full then old(conn.events) - {In} else old(conn.events)
      ensures conn.closing == (old(conn.closing) || (err != OK && err != TryAgain && err != Full))
      ensures err != OK ==> Shows(u, slack) && now == slack
      ensures err == OK ==> Shows(u.(input := u.input + Brought(r, |slack|)), now)
    {
      hide HasBooks, Parses, WriteList.Agrees, WriteList.Scheduled, ReadError, Brought;
      err, now := ReadBehind(conn, r, u, slack);
    }

    method ReadBehind(conn: Connection, r: Arrival, ghost u: State, ghost slack: bytes)
      returns (err: Error, ghost now: bytes)
      requires Parses(u.st, u.resp, u.input, slack) && conn.list.Agrees() && conn.list.Scheduled()
      modifies conn`events, conn`closing, parser.inputb, mem
      ensures conn.list.Agrees() && conn.list.Scheduled() && err == ReadError(|slack|, r)
      ensures conn.events == if err == Full then old(conn.events) - {In} else old(conn.events)
      ensures conn.closing == (old(conn.closing) || (err != OK && err != TryAgain && err != Full))
      ensures err != OK ==> Parses(u.st, u.resp, u.input, slack) && now == slack
      ensures err == OK ==> Parses(u.st, u.resp, u.input + Brought(r, |slack|), now)
    {
      CanRead(u, slack);
      hide *;
      err, now := Gather(conn, r, u, slack, mem.H());
    }

    /** The parser, the replies and the input in the heap h. */
    ghost predicate Stands(h: Heap<Buffer>, u: State, slack: bytes)
      reads parser, parser.multibulkParser, parser.inputbr
    {
      && parser.State() == u.st && parser.inputbr.buffer == parser.inputb && parser.inputbr.offset == 0
      && parser.inputb.mem == mem && respBuffer.mem == mem
      && SeesIn(h, parser.inputb, 0, u.input, slack) && Owner(h, parser.inputb)
      && Collects(h, respBuffer, parser.inputb, u.resp)
      && (parser.multibulkParser.bulkLen != 0 ==> respBuffer in h.views && h.views[respBuffer].data != 0)
    }

    method Gather(conn: Connection, r: Arrival, ghost u: State, ghost slack: bytes, ghost h: Heap<Buffer>)
      returns (err: Error, ghost now: bytes)
      requires Stands(h, u, slack) && h == mem.H() && mem.Valid() && parser.inputb.mem == mem
      requires parser.inputb in mem.views && Owner(h, parser.inputb) && parser.inputb.FreeSize() == |slack|
      requires conn.list.Agrees() && conn.list.Scheduled()
      modifies conn`events, conn`closing, parser.inputb, mem
      ensures conn.list.Agrees() && conn.list.Scheduled() && err == ReadError(|slack|, r)
      ensures conn.events == if err == Full then old(conn.events) - {In} else old(conn.events)
      ensures conn.closing == (old(conn.closing) || (err != OK && err != TryAgain && err != Full))
      ensures err != OK ==> Parses(u.st, u.resp, u.input, slack) && now == slack
      ensures err == OK ==> Parses(u.st, u.resp, u.input + Brought(r, |slack|), now)
    {
      SourceThere(h, u, slack);
      hide *;
      err := conn.Read(parser.inputb, r);
      now := InputThere(h, u, slack, r, err);
    }

    lemma SourceThere(h: Heap<Buffer>, u: State, slack: bytes)
      requires Stands(h, u, slack) && h == mem.H() && mem.Valid()
      ensures WellFormed(h) && parser.inputb in h.views && h.views[parser.inputb].data == parser.inputb.data
    {
    }

    lemma InputThere(h: Heap<Buffer>, u: State, slack: bytes, r: Arrival, err: Error) returns (now: bytes)
      requires Stands(h, u, slack) && mem.Valid() && err == ReadError(|slack|, r)
      requires WellFormed(h) && parser.inputb in h.views && h.views[parser.inputb].data == parser.inputb.data
      requires Gains(h, parser.inputb, |slack|, r, err, mem.H())
      ensures err != OK ==> Parses(u.st, u.resp, u.input, slack) && now == slack
      ensures err == OK ==> Parses(u.st, u.resp, u.input + Brought(r, |slack|), now)
    {
      hide *;
      GainsIs(h, slack, r, err);
      now := slack;
      if err == OK {
        now := StandsMore(h, u, slack, Brought(r, |slack|));
        StandsParse(mem.H(), u.(input := u.input + Brought(r, |slack|)), now);
      } else {
        StandsParse(h, u, slack);
      }
    }

    lemma GainsIs(h: Heap<Buffer>, slack: bytes, r: Arrival, err: Error)
      requires err == ReadError(|slack|, r) && WellFormed(h) && parser.inputb in h.views
      requires Gains(h, parser.inputb, |slack|, r, err, mem.H())
      ensures err != OK ==> mem.H() == h
      ensures err == OK ==> FillResult(h, parser.inputb, Brought(r, |slack|), mem.H())
    {
      hide FillResult, WellFormed;
    }

    lemma StandsMore(h: Heap<Buffer>, u: State, slack: bytes, data: bytes) returns (now: bytes)
      requires Stands(h, u, slack) && mem.Valid() && WellFormed(h) && parser.inputb in h.views
      requires FillResult(h, parser.inputb, data, mem.H()) && h.views[parser.inputb].data == parser.inputb.data
      ensures Stands(mem.H(), u.(input := u.input + data), now)
    {
      var g := mem.H();
      SameBlock(h, data);
      InputArrives(h, parser.inputb, u.input, slack, data, g);
      now := Behind(g, parser.inputb);
      ResponseThere(h, data);
      hide SeesIn, Owner, Collects, FillResult, WellFormed, Memory.Valid, ArgsIn;
    }

    lemma SameBlock(h: Heap<Buffer>, data: bytes)
      requires mem.Valid() && parser.inputb.mem == mem && WellFormed(h) && parser.inputb in h.views
      requires FillResult(h, parser.inputb, data, mem.H()) && h.views[parser.inputb].data == parser.inputb.data
      ensures parser.inputb in mem.H().views && mem.H().views[parser.inputb].data == h.views[parser.inputb].data
    {
    }

    lemma ResponseThere(h: Heap<Buffer>, data: bytes)
      requires WellFormed(h) && parser.inputb in h.views && FillResult(h, parser.inputb, data, mem.H())
      ensures respBuffer in h.views && respBuffer != parser.inputb ==>
        respBuffer in mem.H().views && mem.H().views[respBuffer] == h.views[respBuffer]
    {
    }

    lemma StandsParse(h: Heap<Buffer>, v: State, slack: bytes)
      requires Stands(h, v, slack) && h == mem.H() && mem.Valid()
      ensures Parses(v.st, v.resp, v.input, slack)
    {
    }

    /** The input buffer may be written to behind its bytes. */
    lemma CanRead(u: State, slack: bytes)
      requires Parses(u.st, u.resp, u.input, slack)
      ensures parser.inputb.mem == mem && mem.Valid() && parser.inputb in mem.views
      ensures Owner(mem.H(), parser.inputb) && parser.inputb.FreeSize() == |slack|
      ensures Stands(mem.H(), u, slack)
    {
    }

    /** The sending side as a value. */
    ghost predicate HasLink(l: SM.Link, conn: Connection)
      reads this`auth, this`log, this`accepted, this`serverConn, cmdQueue, cmdQueue.holder, conn`connected, conn`text
    {
      cmdQueue.Valid() && serverConn == conn && l == LinkTo(conn.connected, conn.text)
    }

    ghost function LinkTo(connected: bool, send: bytes): SM.Link
      requires cmdQueue.Valid()
      reads this`auth, this`log, this`accepted, cmdQueue, cmdQueue.holder
    {
      SM.Link(connected, Books(auth, cmdQueue.Contents(), log), cmdQueue.holder.Length - 1, send, accepted)
    }

    method PushRequest(cmd: Cmd, reader: Reader, ghost l: SM.Link, conn: Connection) returns (err: Error)
      requires HasLink(l, conn) && Connected(conn) && cmd.Valid()
      modifies this`accepted, cmdQueue`end, cmdQueue.holder
      modifies conn, conn.list`nodes, conn.sendBuffer, conn.sendBuffer.mem
      ensures var p := SM.PushRequest(l, cmd.args, reader); HasLink(p.link, conn) && err == p.err
      ensures Connected(conn) && conn.connected == old(conn.connected)
      ensures old(conn.connected) && |old(cmdQueue.Contents())| < cmdQueue.holder.Length - 1 ==> err == OK
      ensures !old(conn.connected) || |old(cmdQueue.Contents())| >= cmdQueue.holder.Length - 1 ==> err == TryAgain
      ensures err == OK ==>
        && cmdQueue.Contents() == old(cmdQueue.Contents()) + [PairOf(reader)]
        && accepted == old(accepted) + [SM.Request(reader, cmd.args)]
        && conn.text == old(conn.text) + Resp.Encode(cmd.args) && conn.events == old(conn.events) + {Out}
      ensures err != OK ==>
        && cmdQueue.Contents() == old(cmdQueue.Contents()) && accepted == old(accepted)
        && conn.text == old(conn.text) && conn.events == old(conn.events)
    {
      hide Cmd.Valid, Connected, Resp.Encode;
      err := TryAgain;
      if conn.connected {
        err := Queue(reader, cmd.args);
        if err == OK {
          SendRequest(cmd, conn);
        }
      }
    }

    /** `cmdQueue_.Push(...)` */
    method Queue(reader: Reader, ghost argv: Resp.Argv) returns (err: Error)
      requires cmdQueue.Valid()
      modifies this`accepted, cmdQueue`end, cmdQueue.holder
      ensures cmdQueue.Valid()
      ensures err == if |old(cmdQueue.Contents())| == cmdQueue.holder.Length - 1 then TryAgain else OK
      ensures err == OK ==>
        && cmdQueue.Contents() == old(cmdQueue.Contents()) + [PairOf(reader)]
        && accepted == old(accepted) + [SM.Request(reader, argv)]
      ensures err != OK ==> cmdQueue.Contents() == old(cmdQueue.Contents()) && accepted == old(accepted)
    {
      err := cmdQueue.Push(PairOf(reader));
      if err != OK {
        return TryAgain;
      }
      accepted := accepted + [SM.Request(reader, argv)];
    }

    predicate IsAcceptable()
      reads this`serverConn, this`auth, if serverConn == null then {} else {serverConn}
      ensures IsAcceptable() <==> serverConn != null && serverConn.connected && auth
    {
      if serverConn == null then false else if !serverConn.connected then false else auth
    }

    /** A second call is refused. With a password AUTH is the first request, without one everybody is let in. */
    method Init(conn: Connection, password: bytes, readBufferInitSize: nat, ghost u: State, ghost slack: bytes)
      returns (err: Error, ghost behind: bytes)
      requires Shows(u, slack) && Connected(conn) && conn.sendBuffer.mem != mem
      modifies this`serverConn, this`auth, this`authPending, this`accepted, cmdQueue`end, cmdQueue.holder
      modifies conn, conn.list`nodes, conn.sendBuffer, conn.sendBuffer.mem, parser.inputb, mem
      ensures old(serverConn) != null ==> err == InitFailed
      ensures old(serverConn) == null && old(authPending) ==> err == TryAgain
      ensures old(serverConn) != null || old(authPending) ==>
        unchanged(this) && unchanged(mem) && unchanged(cmdQueue) && unchanged(conn)
      ensures old(serverConn) == null && !old(authPending) ==>
        && IsOpen(old(LinkTo(conn.connected, conn.text)), password, err, conn)
        && conn.events == old(conn.events) + {In} + (if password != [] && err == OK then {Out} else {})
        && authPending == (password != []) && serverConn == conn
        && Connected(conn) && Parses(u.st, u.resp, u.input, behind) && RoomFor(readBufferInitSize)
      ensures old(serverConn) == null && !old(authPending) && password == [] ==>
        err == OK && auth && cmdQueue.Contents() == old(cmdQueue.Contents()) && conn.text == old(conn.text)
      ensures old(serverConn) == null && !old(authPending) && password != [] ==>
        && auth == old(auth)
        && err == (if conn.connected && |old(cmdQueue.Contents())| < cmdQueue.holder.Length - 1 then OK else TryAgain)
        && cmdQueue.Contents() == old(cmdQueue.Contents()) + (if err == OK then [PairOf(AuthReader)] else [])
        && conn.text == old(conn.text) + (if err == OK then Resp.Encode([Protocol.AUTH, password]) else [])
    {
      behind := slack;
      if serverConn != null {
        err := InitFailed;
      } else if authPending {
        err := TryAgain;
      } else {
        ghost var l := LinkTo(conn.connected, conn.text);
        assert l.connected == conn.connected && l.books.auth == auth && l.books.queue == cmdQueue.Contents();
        assert l.send == conn.text && l.capacity == cmdQueue.holder.Length - 1;
        hide *;
        err, behind := Begin(conn, password, readBufferInitSize, u, slack);
        OpenIs(l, password, err, conn);
      }
    }

    lemma OpenIs(l: SM.Link, password: bytes, err: Error, conn: Connection)
      requires IsOpen(l, password, err, conn) && l.capacity == cmdQueue.holder.Length - 1
      ensures cmdQueue.Valid() && serverConn == conn && conn.connected == l.connected
      ensures password == [] ==> err == OK && auth && cmdQueue.Contents() == l.books.queue && conn.text == l.send
      ensures password != [] ==> auth == l.books.auth
      ensures password != [] ==>
        err == if l.connected && |l.books.queue| < l.capacity then OK else TryAgain
      ensures password != [] ==>
        && cmdQueue.Contents() == l.books.queue + (if err == OK then [PairOf(AuthReader)] else [])
        && conn.text == l.send + (if err == OK then Resp.Encode([Protocol.AUTH, password]) else [])
    {
      hide Resp.Encode;
      assert l.send + [] == l.send && l.books.queue + [] == l.books.queue;
    }

    method Begin(conn: Connection, password: bytes, readBufferInitSize: nat, ghost u: State, ghost slack: bytes)
      returns (err: Error, ghost behind: bytes)
      requires Parses(u.st, u.resp, u.input, slack) && cmdQueue.Valid()
      requires Connected(conn) && conn.sendBuffer.mem != mem
      modifies this`serverConn, this`auth, this`authPending, this`accepted, cmdQueue`end, cmdQueue.holder
      modifies conn, conn.list`nodes, conn.sendBuffer, conn.sendBuffer.mem, parser.inputb, mem
      ensures IsOpen(old(LinkTo(conn.connected, conn.text)), password, err, conn) && Connected(conn)
      ensures conn.events == old(conn.events) + {In} + (if password != [] && err == OK then {Out} else {})
      ensures authPending == (old(authPending) || password != [])
      ensures Parses(u.st, u.resp, u.input, behind) && RoomFor(readBufferInitSize)
    {
      hide *;
      OtherMemories(conn, u, slack);
      behind := Reserve(readBufferInitSize, u, slack);
      err := OpenBeside(conn, password, readBufferInitSize, u, behind);
    }

    /** What the parser has read does not depend on the connection. */
    method OpenBeside(conn: Connection, password: bytes, ghost room: nat, ghost u: State, ghost slack: bytes)
      returns (err: Error)
      requires Parses(u.st, u.resp, u.input, slack) && cmdQueue.Valid() && RoomFor(room)
      requires Connected(conn) && conn.sendBuffer.mem != mem
      modifies this`serverConn, this`auth, this`authPending, this`accepted, cmdQueue`end, cmdQueue.holder
      modifies conn, conn.list`nodes, conn.sendBuffer, conn.sendBuffer.mem
      ensures IsOpen(old(LinkTo(conn.connected, conn.text)), password, err, conn) && Connected(conn)
      ensures conn.events == old(conn.events) + {In} + (if password != [] && err == OK then {Out} else {})
      ensures authPending == (old(authPending) || password != [])
      ensures Parses(u.st, u.resp, u.input, slack) && RoomFor(room)
    {
      hide *;
      OtherMemories(conn, u, slack);
      err := Open(conn, password);
    }

    /** The send buffer is none of the buffers that could share a block with the input. */
    lemma OtherMemories(conn: Connection, u: State, slack: bytes)
      requires Parses(u.st, u.resp, u.input, slack) && Connected(conn) && conn.sendBuffer.mem != mem
      ensures conn.sendBuffer !in mem.views && parser.inputb !in conn.sendBuffer.mem.views
      ensures conn.sendBuffer != parser.inputb && conn.sendBuffer != respBuffer
      ensures parser.inputbr.buffer == parser.inputb && parser.inputb.mem == mem
    {
    }

    ghost predicate IsOpen(l: SM.Link, password: bytes, err: Error, conn: Connection)
      reads this`auth, this`log, this`accepted, this`serverConn, cmdQueue, cmdQueue.holder, conn`connected, conn`text
    {
      err == Opened(l, password).err && HasLink(Opened(l, password).link, conn)
    }

    method Open(conn: Connection, password: bytes) returns (err: Error)
      requires cmdQueue.Valid() && Connected(conn)
      modifies this`serverConn, this`auth, this`authPending, this`accepted, cmdQueue`end, cmdQueue.holder
      modifies conn, conn.list`nodes, conn.sendBuffer, conn.sendBuffer.mem
      ensures IsOpen(old(LinkTo(conn.connected, conn.text)), password, err, conn) && Connected(conn)
      ensures conn.events == old(conn.events) + {In} + (if password != [] && err == OK then {Out} else {})
      ensures authPending == (old(authPending) || password != [])
    {
      hide Connected, Resp.Encode, SM.PushRequest;
      serverConn := conn;
      var op := ListenTo(conn);
      if password != [] {
        authPending := true;
        err := PushAuth(conn, password);
      } else {
        auth := true;
        err := OK;
      }
    }

    /** `PushRequest( authCmd_->GetCmd(), authCmd_ )` */
    method PushAuth(conn: Connection, password: bytes) returns (err: Error)
      requires cmdQueue.Valid() && Connected(conn) && serverConn == conn
      modifies this`accepted, cmdQueue`end, cmdQueue.holder
      modifies conn, conn.list`nodes, conn.sendBuffer, conn.sendBuffer.mem
      ensures var p := SM.PushRequest(old(LinkTo(conn.connected, conn.text)), [Protocol.AUTH, password], AuthReader);
        HasLink(p.link, conn) && err == p.err
      ensures Connected(conn) && conn.events == old(conn.events) + (if err == OK then {Out} else {})
    {
      hide Connected, Resp.Encode, SM.PushRequest;
      var scratch := new Memory();
      var authCmd := AuthCommand(scratch, password);
      err := PushRequest(authCmd, AuthReader, LinkTo(conn.connected, conn.text), conn);
    }

    /** `buffer->AppendCapacity( n )` on the input buffer; it does nothing when there is room. */
    method Reserve(n: nat, ghost u: State, ghost slack: bytes) returns (ghost behind: bytes)
      requires Parses(u.st, u.resp, u.input, slack)
      modifies parser.inputb, mem
      ensures Parses(u.st, u.resp, u.input, behind) && RoomFor(n)
    {
      ghost var h := mem.H();
      behind := parser.MakeRoom(n, u.input, slack);
      CollectsGrown(h, respBuffer, parser.inputb, u.resp, mem.H());
    }

    /** The call is under way: what it will come to from v on is `goal`. */
    ghost predicate Reading(v: State, slack: bytes, goal: ReadOut)
      reads this`auth, this`log, cmdQueue, cmdQueue.holder
      reads parser, parser.multibulkParser, parser.inputbr, parser.inputbr.buffer, parser.inputbr.buffer.mem
      reads parser.inputbr.buffer.mem.views.Keys, respBuffer
    {
      Shows(v, slack) && ReplyReady(v.st) && ServerRead(v, slack) == goal
    }

    /** The call has come to its goal; TryAgain stands for waiting for more input. */
    ghost predicate HasRead(err: Error, v: State, slack: bytes, goal: ReadOut)
      reads this`auth, this`log, cmdQueue, cmdQueue.holder
      reads parser, parser.multibulkParser, parser.inputbr, parser.inputbr.buffer, parser.inputbr.buffer.mem
      reads parser.inputbr.buffer.mem.views.Keys, respBuffer
    {
      && goal.err == (if err == TryAgain then OK else err) && err != OK
      && HasBooks(goal.state.books) && (err != Empty ==> v == goal.state && Shows(v, slack))
    }

    /** The loop; TryAgain when it left it for want of input. */
    method ReadReplies(ghost u: State, ghost slack: bytes) returns (err: Error, ghost v: State)
      requires Shows(u, slack) && ReplyReady(u.st)
      modifies this`auth, this`authPending, this`log, cmdQueue`start
      modifies parser, parser.multibulkParser, parser.inputb, parser.inputbr, respBuffer, mem
      ensures HasRead(err, v, slack, ServerRead(u, slack))
    {
      ghost var goal := ServerRead(u, slack);
      v := u;
      err := OK;
      while err == OK
        invariant err == OK ==> Reading(v, slack, goal)
        invariant err != OK ==> HasRead(err, v, slack, goal)
        decreases if err == OK then 1 else 0, |v.input|
      {
        hide *;
        err, v := Turn(v, slack, goal);
      }
    }

    /** The test of the loop and its body. */
    method Turn(ghost u: State, ghost slack: bytes, ghost goal: ReadOut) returns (err: Error, ghost v: State)
      requires Reading(u, slack, goal)
      modifies this`auth, this`authPending, this`log, cmdQueue`start
      modifies parser, parser.multibulkParser, parser.inputb, parser.inputbr, respBuffer, mem
      ensures err == OK ==> Reading(v, slack, goal) && |v.input| < |u.input|
      ensures err != OK ==> HasRead(err, v, slack, goal)
    {
      hide ParseResponse, Next, HasBooks, Parses;
      v := u;
      var empty := NoInput(u, slack);
      if empty {
        return TryAgain, u;
      }
      ServerReadStep(u, slack);
      hide ServerRead, UpstreamMachine.Parsed;
      err, v := OneReply(u, slack);
    }

    /** `buffer->Empty()` */
    method NoInput(ghost u: State, ghost slack: bytes) returns (empty: bool)
      requires Shows(u, slack)
      ensures empty <==> u.input == []
    {
      empty := parser.InputEmpty(u.input, slack);
    }

    /** The body of the loop. */
    method OneReply(ghost u: State, ghost slack: bytes) returns (err: Error, ghost v: State)
      requires Shows(u, slack) && u.input != []
      modifies this`auth, this`authPending, this`log, cmdQueue`start
      modifies parser, parser.multibulkParser, parser.inputb, parser.inputbr, respBuffer, mem
      ensures var o := ParseResponse(u.st, u.resp, u.input, slack); var p := UpstreamMachine.Parsed(u, slack);
        && (o.err != OK ==> err == o.err && v == p && Shows(v, slack))
        && (o.err == OK && u.books.queue == [] ==> err == Empty && HasBooks(u.books))
        && (o.err == OK && u.books.queue != [] ==> err == OK && v == Next(p) && Shows(v, slack))
    {
      hide Parses, ParseResponse;
      v := UpstreamMachine.Parsed(u, slack);
      err := Parse(u, slack);
      if err != OK {
        return;
      }
      err := Deliver(v, slack);
      if err == OK {
        v := Next(v);
      }
    }

    method Parse(ghost u: State, ghost slack: bytes) returns (err: Error)
      requires Parses(u.st, u.resp, u.input, slack)
      modifies parser, parser.multibulkParser, parser.inputb, parser.inputbr, respBuffer, mem
      ensures var o := ParseResponse(u.st, u.resp, u.input, slack);
        && err == o.err
        && (o.err != OK ==> Parses(o.st, o.resp, o.rest, slack))
        && (o.err == OK ==> Answers(o.resp, o.rest, slack))
    {
      hide ParseResponse;
      err := parser.ParseResponse(respBuffer, u.input, slack, u.resp);
    }

    /** respBuffer holds a whole reply. */
    ghost predicate Answers(resp: bytes, input: bytes, slack: bytes)
      reads parser.inputbr, parser.inputbr.buffer, parser.inputbr.buffer.mem, parser.inputbr.buffer.mem.views.Keys
    {
      parser.Finished(respBuffer, resp, input, slack) && parser.inputb.mem == mem
    }

    /** The reply goes to the oldest reader, and the parser starts afresh. */
    method Deliver(ghost v: State, ghost slack: bytes) returns (err: Error)
      requires HasBooks(v.books) && Answers(v.resp, v.input, slack)
      modifies this`auth, this`authPending, this`log, cmdQueue`start
      modifies parser, parser.multibulkParser, respBuffer, mem
      ensures v.books.queue == [] ==> err == Empty && HasBooks(v.books)
      ensures v.books.queue != [] ==> err == OK && Shows(Next(v), slack)
    {
      hide Answers, Parses;
      var pair;
      err, pair := cmdQueue.Pop();
      if err != OK {
        return;
      }
      if Identity(pair.reader) == pair.identity {
        var reply := ReplyBytes(v.resp, v.input, slack);
        OnServerWrite(pair.reader, reply);
      }
      Renew(v.resp, v.input, slack);
    }

    /** The bytes a reader gets to see. */
    method ReplyBytes(ghost resp: bytes, ghost input: bytes, ghost slack: bytes) returns (reply: bytes)
      requires Answers(resp, input, slack)
      ensures reply == resp
    {
      RespondsIs(mem.H(), respBuffer, parser.inputb, resp);
      mem.Reads(respBuffer);
      reply := respBuffer.Bytes();
    }

    /** What a session does with a reply is up to its connection; AUTH's own reader decides who gets in. */
    method OnServerWrite(reader: Reader, reply: bytes)
      modifies this`auth, this`authPending, this`log
      ensures log == old(log) + [Delivery(reader, reply)]
      ensures auth == AuthAfter(old(auth), Delivery(reader, reply))
      ensures reader == AuthReader ==> (auth <==> reply != [] && reply[0] == PLUS) && !authPending
      ensures reader != AuthReader ==> auth == old(auth) && authPending == old(authPending)
    {
      log := log + [Delivery(reader, reply)];
      match reader
      case AuthReader =>
        if reply != [] {
          OnAuthCallback(reply[0] == PLUS);
        } else {
          OnAuthCallback(false);
        }
      case SessionReader(_) =>
    }

    method OnAuthCallback(ok: bool)
      modifies this`auth, this`authPending
      ensures auth == ok && !authPending
    {
      auth := ok;
      authPending := false;
    }

    /** `parser_.Reset(); respBuffer_.Clear();` */
    method Renew(ghost resp: bytes, ghost input: bytes, ghost slack: bytes)
      requires Answers(resp, input, slack)
      modifies parser, parser.multibulkParser, respBuffer, mem
      ensures Parses(FRESH, [], input, slack)
    {
      parser.Reset();
      parser.Discard(respBuffer, resp, input, slack);
    }

    /** The end of `OnServerRead`. */
    method MakeRoom(ghost u: State, ghost slack: bytes) returns (ghost behind: bytes)
      requires Shows(u, slack)
      modifies parser.inputb, mem
      ensures Shows(u, behind) && RoomFor(readBufferMinSize)
    {
      hide Parses, RoomFor;
      behind := Reserve(readBufferMinSize, u, slack);
    }
  }

  /** What a call of `read` with room for n bytes brings. */
  function Brought(r: Arrival, n: nat): bytes {
    if ReadError(n, r) == OK && r.Bytes? then AtMost(r.data, n) else []
  }

  lemma BroughtIs(r: Arrival, n: nat, u: State)
    ensures ReadError(n, r) == Full <==> n == 0
    ensures n == 0 ==> u.(input := u.input + Brought(r, n)) == u
    ensures ReadError(n, r) == OK ==> r.Bytes?
    ensures ReadError(n, r) == OK && |r.data| <= n ==> Brought(r, n) == r.data
    ensures ReadError(n, r) == OK && |r.data| > n ==> Brought(r, n) == r.data[..n]
  {
    assert u.input + [] == u.input;
  }

  /** A step of the protocol that brings n bytes leaves the upstream as `OnReadable` leaves it. */
  lemma ReadableIsDeliver(w: Protocol.World, n: nat, slack: bytes)
    requires 0 < n <= |w.fromServer| && ReplyReady(w.st)
    ensures var o := ServerRead(Protocol.Upstream(w).(input := w.input + w.fromServer[..n]), slack);
      var v := Protocol.After(w, Protocol.Deliver(n, slack));
      && Protocol.Upstream(v) == o.state && v.link.send == w.link.send && v.link.accepted == w.link.accepted
      && (v.failed <==> w.failed || (o.err != OK && o.err != OutOfBound))
  {
    hide ServerRead;
  }

  /** What opening the link with a password comes to. */
  function Opened(l: SM.Link, password: bytes): SM.PushOut {
    if password == [] then SM.PushOut(l.(books := l.books.(auth := true)), OK)
    else SM.PushRequest(l, [Protocol.AUTH, password], AuthReader)
  }

  /** On a new link this is where the runs of the protocol start. */
  lemma OpensAsStart(capacity: nat, password: bytes)
    ensures Opened(SM.Link(true, Books(false, [], []), capacity, [], []), password).link
         == Protocol.Start(password, capacity).link
  {
  }

  /** `OnReadEvent`: from now on the socket is read. */
  method ListenTo(conn: Connection) returns (op: Control)
    requires Connected(conn)
    modifies conn`events
    ensures Connected(conn) && conn.events == old(conn.events) + {In}
  {
    hide WriteList.Agrees, WriteList.Scheduled, Connection.Holds;
    op := conn.SetReadable(true);
  }

  /** The command of `cmd::Auth`. */
  method AuthCommand(mem: Memory, password: bytes) returns (cmd: Cmd)
    requires mem.Valid()
    modifies mem
    ensures fresh(cmd) && cmd.mem == mem && cmd.Valid() && cmd.args == [Protocol.AUTH, password]
  {
    cmd := new Cmd(mem);
    hide *;
    AddArg(cmd, Protocol.AUTH);
    AddArg(cmd, password);
  }

  /** The bytes of an argument, in a block of their own. */
  method NewArg(cmd: Cmd, arg: bytes) returns (buffer: Buffer)
    requires cmd.Valid()
    modifies cmd.mem
    ensures fresh(buffer) && buffer.mem == cmd.mem && buffer !in cmd.argv && cmd.Valid()
    ensures buffer in cmd.mem.views && IsSlice(cmd.mem.H(), buffer, cmd.mem.views[buffer], arg)
  {
    ghost var h := cmd.mem.H();
    ArgsThere(h, cmd.argv, cmd.args);
    hide Memory.Valid, Memory.Text, WellFormed, After, ArgsIn, Writes;
    buffer := new Buffer(cmd.mem);
    NewBufferWrites(h, buffer);
    CmdAfter(cmd, h, {buffer});
    ghost var g := cmd.mem.H();
    Put(buffer, arg, []);
    CmdAfter(cmd, g, {buffer});
    assert [] + arg == arg;
    WritesIs(cmd.mem.H(), buffer, arg);
  }

  /** `cmd_.AppendArg( Buffer( ... ) )` */
  method AddArg(cmd: Cmd, arg: bytes)
    requires cmd.Valid()
    modifies cmd, cmd.mem
    ensures cmd.Valid() && cmd.args == old(cmd.args) + [arg]
  {
    var buffer := NewArg(cmd, arg);
    ghost var h := cmd.mem.H();
    hide Memory.Valid, Memory.Text, WellFormed, After, ArgsIn, IsSlice;
    ghost var added := cmd.AppendArg(buffer, cmd.mem.views[buffer], arg);
    StillThere(h, cmd.mem.H(), {added}, buffer);
    Forget(cmd, buffer);
  }

  /** `Buffer buffer; buffer.AppendCapacity( 4 * 1024 );` */
  method NewScratch() returns (buffer: Buffer)
    ensures fresh(buffer) && fresh(buffer.mem) && buffer.mem.Valid() && Writes(buffer.mem.H(), buffer, [])
  {
    var scratch := new Memory();
    ghost var h := scratch.H();
    hide Memory.Text, After, Writes, GrowResult, Calm, Sole;
    buffer := new Buffer(scratch);
    NewBufferWrites(h, buffer);
    hide Memory.Valid, WellFormed;
    ghost var g := scratch.H();
    var err := buffer.AppendCapacity(4096);
    GrownWrites(g, buffer, 4096, scratch.H());
  }

  /** `cmd.FormatRESP2( &buffer );` into a new buffer. */
  method Printed(cmd: Cmd) returns (buffer: Buffer)
    requires cmd.Valid()
    ensures fresh(buffer) && fresh(buffer.mem) && HasText(buffer, Resp.Encode(cmd.args)) && cmd.Valid()
  {
    hide Memory.Valid, Memory.Text, WellFormed, After, ArgsIn, Writes, Resp.Encode, HasText;
    buffer := NewScratch();
    var err := cmd.FormatRESP2(buffer, []);
    assert [] + Resp.Encode(cmd.args) == Resp.Encode(cmd.args);
    WritesText(buffer, Resp.Encode(cmd.args));
  }

  lemma NewBufferWrites(h: Heap<Buffer>, buf: Buffer)
    requires WellFormed(h) && buf !in h.views
    ensures Writes(Attach(h, buf, NOTHING), buf, []) && After(h, Attach(h, buf, NOTHING), {buf})
  {
    AttachOk(h, buf, NOTHING);
    AttachTexts(h, buf, NOTHING);
  }

  lemma GrownWrites<K>(h: Heap<K>, buf: K, n: nat, h': Heap<K>)
    requires Writes(h, buf, []) && GrowResult(h, buf, n, h')
    ensures Writes(h', buf, []) && After(h, h', {buf})
  {
    GrownOwner(h, buf, n, h');
    BufferRuns.TextIs(h, buf);
    BufferRuns.TextIs(h', buf);
  }

  lemma WritesText(buf: Buffer, text: bytes)
    requires buf.mem.Valid() && Writes(buf.mem.H(), buf, text)
    ensures HasText(buf, text)
  {
    buf.mem.Reads(buf);
  }

  /** The end of the printed request's scope. */
  method Forget(cmd: Cmd, buffer: Buffer)
    requires cmd.Valid() && buffer.mem == cmd.mem && buffer in cmd.mem.views && buffer !in cmd.argv
    modifies cmd.mem
    ensures cmd.Valid()
  {
    ghost var h := cmd.mem.H();
    ScratchGone(h, buffer);
    hide Memory.Valid, WellFormed, After, ArgsIn, Detach;
    buffer.Destroy();
    CmdAfter(cmd, h, {buffer});
  }

  /** The connection is in order, and with all others it is scheduled when it has to send. */
  ghost predicate Connected(conn: Connection)
    reads conn`events, conn`writeListPos, conn`text, conn`written, conn`submitted
    reads conn.list, conn.list.conns`events, conn.list.conns`writeListPos, conn.list.conns`text, conn.list.conns`broken
    reads conn.sendBuffer, conn.sendBuffer.mem, conn.sendBuffer.mem.views.Keys
  {
    conn.list.Agrees() && conn.list.Scheduled() && conn in conn.list.conns && conn.Holds()
  }

  /** `serverConn_->WriteToBuffer( buffer )`; the printed request is dropped together with its memory. */
  method WriteOut(conn: Connection, buffer: Buffer, ghost data: bytes)
    requires Connected(conn) && HasText(buffer, data)
    modifies conn, conn.list`nodes, conn.sendBuffer, conn.sendBuffer.mem
    ensures Connected(conn) && conn.text == old(conn.text) + data && conn.connected == old(conn.connected)
    ensures conn.events == old(conn.events) + {Out}
  {
    hide Connection.Holds, WriteList.Agrees, WriteList.Scheduled, HasText, After;
    var err := conn.WriteToBuffer(buffer, data);
  }

  /** The request is printed and appended to the send buffer. */
  method SendRequest(cmd: Cmd, conn: Connection)
    requires Connected(conn) && cmd.Valid()
    modifies conn, conn.list`nodes, conn.sendBuffer, conn.sendBuffer.mem
    ensures Connected(conn) && conn.connected == old(conn.connected)
    ensures conn.text == old(conn.text) + Resp.Encode(cmd.args) && conn.events == old(conn.events) + {Out}
  {
    hide *;
    var buffer := Printed(cmd);
    WriteOut(conn, buffer, Resp.Encode(cmd.args));
  }

  /** `Buffer respBuffer_;` beside a new parser. */
  method NewResponse(parser: CmdParser, mem: Memory) returns (resp: Buffer)
    requires parser.Holds([], []) && parser.inputb.mem == mem && parser.State() == FRESH
    modifies mem
    ensures fresh(resp) && parser.Gathers(resp, [], [], [])
  {
    ghost var h := mem.H();
    SeesIsValid(parser.inputbr, [], []);
    hide Memory.Valid, Memory.Text, WellFormed, SeesIn, Owner, After, Collects, Target, Attach;
    resp := new Buffer(mem);
    ResponseBeside(h, resp, parser.inputb);
    SeesKeeps(parser.inputbr, h, {resp}, [], []);
  }

  lemma ResponseBeside<K>(h: Heap<K>, resp: K, src: K)
    requires WellFormed(h) && resp !in h.views && src in h.views && Owner(h, src)
    ensures var h' := Attach(h, resp, NOTHING);
      After(h, h', {resp}) && Collects(h', resp, src, []) && Owner(h', src)
  {
    NewTarget(h, resp, src);
    var h' := Attach(h, resp, NOTHING);
    NullWithin(h', resp, src);
    AfterView(h, h', {resp}, src);
    OwnerStays(h, h', {resp}, src);
  }

  /** One turn of the loop, and how it ends. */
  lemma ServerReadStep(u: State, slack: bytes)
    requires ReplyReady(u.st) && u.input != []
    ensures var o := ParseResponse(u.st, u.resp, u.input, slack); var r := ServerRead(u, slack);
      var v := UpstreamMachine.Parsed(u, slack);
      && (o.err == TryAgain ==> r == ReadOut(v, OK))
      && (o.err != OK && o.err != TryAgain ==> r == ReadOut(v, o.err))
      && (o.err == OK && u.books.queue == [] ==> r == ReadOut(v, Empty))
      && (o.err == OK && u.books.queue != [] ==>
            ReplyReady(Next(v).st) && r == ServerRead(Next(v), slack) && |Next(v).input| < |u.input|)
      && (o.err != OK ==> ReplyReady(v.st))
  {
    Replies.ResponseConserves(u.st, u.resp, u.input, slack);
  }
}
