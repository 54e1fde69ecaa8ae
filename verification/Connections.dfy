/**
 * The sending side of connections: the write list and its flag bits, and the send buffer that the socket
 * empties piece by piece.
 */
module Connections {
  import opened Base
  import opened Blocks
  import opened BufferOps
  import opened BufferRuns
  import opened Buffers
  import opened Slices
  import opened Parsers

  /** The bits EPOLLIN and EPOLLOUT of `events`. */
  datatype Interest = In | Out

  /** What `epoll_ctl` is called with, if it is called. */
  datatype Control = NoCall | Add | Modify | Delete

  /** NET_FLAG_CLOSE and NET_FLAG_RST. */
  datatype NetFlag = CloseFlag | RstFlag

  /** A position of the list `writeEvents`; erasing one position leaves the others valid. */
  class Node {
    const event: Connection

    constructor (event: Connection)
      ensures this.event == event
    {
      this.event := event;
    }
  }

  /** `erase(pos)` */
  function Without<T(==)>(s: seq<T>, x: T): seq<T> {
    if s == [] then [] else if s[0] == x then s[1..] else [s[0]] + Without(s[1..], x)
  }

  lemma {:induction false} WithoutAt<T>(a: seq<T>, x: T, b: seq<T>)
    requires x !in a
    ensures Without(a + [x] + b, x) == a + b
  {
    if a == [] {
      assert [] + [x] + b == [x] + b && ([x] + b)[1..] == b && [] + b == b;
    } else {
      assert (a + [x] + b)[1..] == a[1..] + [x] + b;
      WithoutAt(a[1..], x, b);
      assert [a[0]] + (a[1..] + b) == a + b;
    }
  }

  lemma {:induction false} WithoutIn<T>(s: seq<T>, x: T)
    requires forall i, j :: 0 <= i < j < |s| ==> s[i] != s[j]
    ensures var t := Without(s, x);
      && (forall y :: y in t <==> y in s && y != x)
      && (forall i, j :: 0 <= i < j < |t| ==> t[i] != t[j])
  {
    if s != [] {
      assert forall y :: y in s <==> y == s[0] || y in s[1..];
      WithoutIn(s[1..], x);
      var t := Without(s[1..], x);
      assert forall i :: 0 <= i < |s[1..]| ==> s[1..][i] == s[i + 1] != s[0];
      assert s[0] !in s[1..];
      assert forall i :: 0 <= i < |t| ==> t[i] in t;
    }
  }

  function Events(nodes: seq<Node>): (es: seq<Connection>)
    ensures |es| == |nodes|
  {
    seq(|nodes|, i requires 0 <= i < |nodes| => nodes[i].event)
  }

  function At(nodes: seq<Node>, i: nat): Node? {
    if i < |nodes| then nodes[i] else null
  }

  lemma EventsMore(nodes: seq<Node>, i: nat)
    requires i < |nodes|
    ensures Events(nodes[..i + 1]) == Events(nodes[..i]) + [nodes[i].event]
  {
  }

  /** The elements that are marked, in order. */
  function Pick<T>(s: seq<T>, marks: seq<bool>): (t: seq<T>)
    requires |s| == |marks|
    ensures forall x :: x in t ==> x in s
  {
    if s == [] then [] else Pick(s[..|s| - 1], marks[..|s| - 1]) + (if marks[|s| - 1] then [s[|s| - 1]] else [])
  }

  /** `++it` */
  function NextNode(nodes: seq<Node>, it: Node): Node? {
    if nodes == [] then null
    else if nodes[0] == it then if |nodes| > 1 then nodes[1] else null
    else NextNode(nodes[1..], it)
  }

  lemma {:induction false} NextIs(a: seq<Node>, it: Node, b: seq<Node>)
    requires it !in a
    ensures NextNode(a + [it] + b, it) == if b == [] then null else b[0]
  {
    var s := a + [it] + b;
    if a != [] {
      assert s[1..] == a[1..] + [it] + b;
      NextIs(a[1..], it, b);
    }
  }

  /** What a step does to the list. */
  lemma StepList(nodes: seq<Node>, all: seq<Node>, still: seq<bool>, stays: bool)
    requires |still| < |all| && nodes == Pick(all[..|still|], still) + all[|still|..]
    requires forall j, k :: 0 <= j < k < |all| ==> all[j] != all[k]
    ensures var i := |still|;
      (if stays then nodes else Without(nodes, all[i])) == Pick(all[..i + 1], still + [stays]) + all[i + 1..]
  {
    var i := |still|;
    var kept := Pick(all[..i], still);
    var marks := still + [stays];
    assert all[i..] == [all[i]] + all[i + 1..];
    assert nodes == kept + [all[i]] + all[i + 1..];
    assert all[..i + 1][..i] == all[..i] && marks[..i] == still;
    assert all[i] !in all[..i];
    WithoutAt(kept, all[i], all[i + 1..]);
    assert Pick(all[..i + 1], marks) == kept + (if stays then [all[i]] else []);
  }

  /** What a connection had to send before a sweep. */
  datatype Snapshot = Snapshot(text: bytes, written: bytes, flag: set<NetFlag>)

  /** The list `writeEvents` of all connections that want to write. */
  class WriteList {
    var nodes: seq<Node>
    ghost var conns: set<Connection>

    /** A connection is listed, once and at its own position, iff its EPOLLOUT bit is set. */
    ghost predicate Agrees() reads this, conns`events, conns`writeListPos {
      && (forall i, j :: 0 <= i < j < |nodes| ==> nodes[i] != nodes[j])
      && (forall c :: c in conns ==> c.list == this)
      && (forall c :: c in conns && Out in c.events ==> c.writeListPos in nodes && c.writeListPos.event == c)
      && (forall n :: n in nodes ==> n.event in conns && Out in n.event.events && n.event.writeListPos == n)
    }

    lemma ListedOnce(c: Connection)
      requires Agrees() && c in conns
      ensures Out in c.events <==> exists i :: 0 <= i < |nodes| && nodes[i].event == c
      ensures forall i, j :: 0 <= i < |nodes| && 0 <= j < |nodes| && nodes[i].event == nodes[j].event == c ==> i == j
    {
      forall i, j | 0 <= i < |nodes| && 0 <= j < |nodes| && nodes[i].event == nodes[j].event == c ensures i == j {
        assert nodes[i] == c.writeListPos == nodes[j];
      }
    }

    /** No connection with bytes to send is forgotten. */
    ghost predicate Scheduled() reads this`conns, conns`events, conns`text, conns`broken {
      forall c :: c in conns ==> c.Scheduled()
    }

    /** Bytes that wait to be sent are sent by a later sweep: their connection is listed, unless its socket broke. */
    lemma PendingIsListed(c: Connection)
      requires Agrees() && Scheduled() && c in conns && c.text != []
      ensures (exists i :: 0 <= i < |nodes| && nodes[i].event == c) <==> !c.broken
    {
      ListedOnce(c);
    }

    ghost predicate OthersScheduled(c: Connection)
      reads this`conns, (conns - {c})`events, (conns - {c})`text, (conns - {c})`broken
    {
      forall d :: d in conns && d != c ==> d.Scheduled()
    }

    lemma ScheduledIs(c: Connection)
      requires Scheduled() && c in conns
      ensures c.Scheduled() && OthersScheduled(c)
    {
    }

    lemma ScheduledAgain(c: Connection)
      requires c.Scheduled() && OthersScheduled(c)
      ensures Scheduled()
    {
    }

    /** Every send buffer is in order, belongs to one connection and is scheduled. */
    ghost predicate Sound(mem: Memory)
      reads this`conns, conns`events, conns`text, conns`broken, conns`written, conns`submitted, mem, mem.views.Keys
    {
      && mem.Valid() && Scheduled()
      && (forall c :: c in conns ==> c.sendBuffer.mem == mem && Writes(mem.H(), c.sendBuffer, c.text))
      && (forall c :: c in conns ==> c.submitted == c.written + c.text)
      && (forall c, d :: c in conns && d in conns && c != d ==> c.sendBuffer != d.sendBuffer)
    }

    /** One step of the sweep. */
    method Visit(c: Connection, ghost mem: Memory, r: Syscall)
      requires Agrees() && Sound(mem) && c in conns
      modifies c, this`nodes, c.sendBuffer, mem
      ensures Agrees() && Sound(mem) && c.Listing(old(nodes), old(c.events), old(c.writeListPos))
      ensures c.flag == old(c.flag) && c.writeListPos == old(c.writeListPos)
      ensures c.Moved(old(c.text), old(c.written), r)
      ensures c.events == if StopsWriting(old(c.text), c.flag, r) then old(c.events) - {Out} else old(c.events)
    {
      ghost var h := mem.H();
      SoundIs(mem, c);
      hide *;
      var err := c.OnWritable(r);
      SoundAgain(mem, h, c);
    }

    /** The sweep: every connection listed at the start is visited once, in order, though it may leave the list. */
    method HandleWriteEvents(ghost mem: Memory, results: seq<Syscall>, ghost before: seq<Snapshot>)
      returns (visited: seq<Connection>, ghost still: seq<bool>)
      requires Agrees() && Sound(mem) && |results| >= |nodes| == |before|
      requires forall i :: 0 <= i < |nodes| ==> before[i] == nodes[i].event.Now()
      modifies this`nodes, set n | n in nodes :: n.event, set n | n in nodes :: n.event.sendBuffer, mem
      ensures Swept(mem, old(nodes), before, results, still, visited)
    {
      ghost var all := nodes;
      visited, still := [], [];
      var it: Node? := if nodes == [] then null else nodes[0];
      SweepStarts(mem, before, results, it);
      hide *;
      while it != null
        invariant Underway(mem, all, before, results, still, visited, it)
        decreases |all| - |visited|
      {
        TurnOf(mem, all, before, results, still, visited, it);
        var evt, r := it.event, results[|visited|];
        it := SweepOne(it, mem, r, all, before, results, still, visited);
        visited := visited + [evt];
        still := still + [Out in evt.events];
      }
      SweepEnds(mem, all, before, results, still, visited);
    }

    lemma SweepStarts(mem: Memory, before: seq<Snapshot>, results: seq<Syscall>, it: Node?)
      requires Agrees() && Sound(mem) && |results| >= |nodes| == |before| && it == At(nodes, 0)
      requires forall i :: 0 <= i < |nodes| ==> before[i] == nodes[i].event.Now()
      ensures Underway(mem, nodes, before, results, [], [], it)
    {
      Unswept(before, results);
      assert nodes[..0] == [];
    }

    /** Each connection of the list `all` was visited, in order; the list keeps those that still have to write. */
    ghost predicate Swept(mem: Memory, all: seq<Node>, before: seq<Snapshot>, results: seq<Syscall>,
                          still: seq<bool>, visited: seq<Connection>)
      reads this, conns, mem, mem.views.Keys, set n | n in all :: n.event
    {
      && Agrees() && Sound(mem) && visited == Events(all)
      && |still| == |before| == |all| <= |results|
      && nodes == Pick(all, still) && Moves(all, before, results, still)
    }

    lemma SweepEnds(mem: Memory, all: seq<Node>, before: seq<Snapshot>, results: seq<Syscall>,
                    still: seq<bool>, visited: seq<Connection>)
      requires Underway(mem, all, before, results, still, visited, null)
      ensures Swept(mem, all, before, results, still, visited)
    {
      assert all[..|all|] == all && all[|all|..] == [];
    }

    ghost predicate Underway(mem: Memory, all: seq<Node>, before: seq<Snapshot>, results: seq<Syscall>,
                             still: seq<bool>, visited: seq<Connection>, it: Node?)
      reads this, conns, mem, mem.views.Keys, set n | n in all :: n.event
    {
      && Agrees() && Sound(mem) && Sweeping(all, before, results, still)
      && |visited| == |still| <= |all| && visited == Events(all[..|still|]) && it == At(all, |still|)
    }

    lemma TurnOf(mem: Memory, all: seq<Node>, before: seq<Snapshot>, results: seq<Syscall>,
                 still: seq<bool>, visited: seq<Connection>, it: Node)
      requires Underway(mem, all, before, results, still, visited, it)
      ensures |visited| == |still| < |all| && |still| < |results| && it in all
      ensures Turn(it.event, results[|still|], all, before, results, still)
    {
      assert all[|still|] == it;
    }

    /** The body of the loop. */
    method SweepOne(it: Node, ghost mem: Memory, r: Syscall, ghost all: seq<Node>, ghost before: seq<Snapshot>,
                    ghost results: seq<Syscall>, ghost still: seq<bool>, ghost visited: seq<Connection>)
      returns (next: Node?)
      requires Underway(mem, all, before, results, still, visited, it) && |still| < |results| && r == results[|still|]
      modifies it.event, this`nodes, it.event.sendBuffer, mem
      ensures Underway(mem, all, before, results, still + [Out in it.event.events], visited + [it.event], next)
    {
      hide Agrees, Sound, Sweeping, Turn, Events, Pick, Shape, NextNode, Connection.Scheduled;
      TurnOf(mem, all, before, results, still, visited, it);
      NextInSweep(all, before, results, still);
      EventsMore(all, |still|);
      next := NextNode(nodes, it);
      Step(it.event, mem, r, all, before, results, still);
    }

    /** What the visited connections have come to. */
    ghost predicate Moves(all: seq<Node>, before: seq<Snapshot>, results: seq<Syscall>, still: seq<bool>)
      requires |still| <= |all| == |before| <= |results|
      reads set n | n in all[..|still|] :: n.event
    {
      forall i :: 0 <= i < |still| ==> HasMoved(all[i].event, before[i], results[i], still[i])
    }

    ghost predicate HasMoved(c: Connection, s: Snapshot, r: Syscall, still: bool) reads c {
      c.Moved(s.text, s.written, r) && (still <==> Out in c.events) && (still <==> !StopsWriting(s.text, s.flag, r))
    }

    /** The connections from position i on are still to be visited. */
    ghost predicate NotYet(all: seq<Node>, before: seq<Snapshot>, i: nat)
      requires i <= |all| == |before|
      reads set n | n in all[i..] :: n.event
    {
      forall j :: i <= j < |all| ==> Waiting(all[j], before[j])
    }

    ghost predicate Shape(all: seq<Node>, before: seq<Snapshot>, results: seq<Syscall>) reads this`conns {
      && |all| == |before| <= |results|
      && (forall j, k :: 0 <= j < k < |all| ==> all[j] != all[k] && all[j].event != all[k].event)
      && (forall j :: 0 <= j < |all| ==> all[j].event in conns)
    }

    /** In the middle of the sweep: the list is what is left of the visited part, and the part not visited yet. */
    ghost predicate Sweeping(all: seq<Node>, before: seq<Snapshot>, results: seq<Syscall>, still: seq<bool>)
      reads this`nodes, this`conns, set n | n in all :: n.event
    {
      && Shape(all, before, results) && |still| <= |all|
      && nodes == Pick(all[..|still|], still) + all[|still|..]
      && Moves(all, before, results, still) && NotYet(all, before, |still|)
    }

    /** A listed connection that was not visited yet. */
    ghost predicate Waiting(n: Node, s: Snapshot) reads n.event {
      n.event.Now() == s && Out in n.event.events && n.event.writeListPos == n
    }

    lemma Unswept(before: seq<Snapshot>, results: seq<Syscall>)
      requires Agrees() && |results| >= |nodes| == |before|
      requires forall i :: 0 <= i < |nodes| ==> before[i] == nodes[i].event.Now()
      ensures Sweeping(nodes, before, results, [])
    {
      EventsDiffer();
      hide Agrees;
      assert nodes[..0] == [] && Pick(nodes[..0], []) == [] && [] + nodes[0..] == nodes;
    }

    lemma EventsDiffer()
      requires Agrees()
      ensures forall j, k :: 0 <= j < k < |nodes| ==> nodes[j] != nodes[k] && nodes[j].event != nodes[k].event
      ensures forall j :: 0 <= j < |nodes| ==>
        nodes[j].event in conns && Out in nodes[j].event.events && nodes[j].event.writeListPos == nodes[j]
    {
      assert forall j :: 0 <= j < |nodes| ==> nodes[j] in nodes;
    }

    lemma NextInSweep(all: seq<Node>, before: seq<Snapshot>, results: seq<Syscall>, still: seq<bool>)
      requires Sweeping(all, before, results, still) && |still| < |all|
      ensures var i := |still|;
        && i < |results| && all[i].event in conns
        && NextNode(nodes, all[i]) == if i + 1 < |all| then all[i + 1] else null
    {
      var i := |still|;
      var kept := Pick(all[..i], still);
      assert all[i..] == [all[i]] + all[i + 1..];
      assert nodes == kept + [all[i]] + all[i + 1..];
      assert all[i] !in all[..i];
      NextIs(kept, all[i], all[i + 1..]);
    }

    method Step(c: Connection, ghost mem: Memory, r: Syscall, ghost all: seq<Node>, ghost before: seq<Snapshot>,
                ghost results: seq<Syscall>, ghost still: seq<bool>)
      requires Agrees() && Sound(mem) && Turn(c, r, all, before, results, still)
      modifies c, this`nodes, c.sendBuffer, mem
      ensures Agrees() && Sound(mem) && Sweeping(all, before, results, still + [Out in c.events])
    {
      hide *;
      ghost var was := nodes;
      ghost var pos, s := Pause(c, r, all, before, results, still);
      VisitListed(c, mem, r, pos, s);
      Resume(c, r, pos, s, all, before, results, still, was);
    }

    /** It is the turn of connection c. */
    ghost predicate Turn(c: Connection, r: Syscall, all: seq<Node>, before: seq<Snapshot>, results: seq<Syscall>,
                         still: seq<bool>)
      reads this`nodes, this`conns, set n | n in all :: n.event
    {
      Sweeping(all, before, results, still) && |still| < |all| && c == all[|still|].event && r == results[|still|]
    }

    /** c is listed at pos and has s to send. */
    ghost predicate Listed(c: Connection, pos: Node, s: Snapshot) reads this`conns, c {
      c in conns && pos.event == c && Waiting(pos, s)
    }

    /** What the sweep knows of the other connections while c is visited. */
    ghost predicate Paused(c: Connection, r: Syscall, pos: Node, s: Snapshot, all: seq<Node>, before: seq<Snapshot>,
                           results: seq<Syscall>, still: seq<bool>, was: seq<Node>)
      reads this`conns, (set n | n in all :: n.event) - {c}
    {
      var i := |still|;
      && Shape(all, before, results) && i < |all|
      && pos == all[i] && pos.event == c && s == before[i] && r == results[i]
      && was == Pick(all[..i], still) + all[i..]
      && (forall j :: 0 <= j < i ==> HasMoved(all[j].event, before[j], results[j], still[j]))
      && (forall j :: i < j < |all| ==> Waiting(all[j], before[j]))
    }

    lemma Pause(c: Connection, r: Syscall, all: seq<Node>, before: seq<Snapshot>, results: seq<Syscall>,
                still: seq<bool>)
      returns (pos: Node, s: Snapshot)
      requires Turn(c, r, all, before, results, still)
      ensures Paused(c, r, pos, s, all, before, results, still, nodes) && Listed(c, pos, s)
    {
      hide HasMoved, Pick;
      pos, s := all[|still|], before[|still|];
    }

    lemma Resume(c: Connection, r: Syscall, pos: Node, s: Snapshot, all: seq<Node>, before: seq<Snapshot>,
                 results: seq<Syscall>, still: seq<bool>, was: seq<Node>)
      requires Paused(c, r, pos, s, all, before, results, still, was) && HasMoved(c, s, r, Out in c.events)
      requires nodes == if Out in c.events then was else Without(was, pos)
      ensures Sweeping(all, before, results, still + [Out in c.events])
    {
      hide *;
      MovesMore(c, r, pos, s, all, before, results, still, was);
      StepList(was, all, still, Out in c.events);
      SweepingIs(all, before, results, still + [Out in c.events]);
    }

    lemma SweepingIs(all: seq<Node>, before: seq<Snapshot>, results: seq<Syscall>, still: seq<bool>)
      requires Shape(all, before, results) && |still| <= |all|
      requires nodes == Pick(all[..|still|], still) + all[|still|..]
      requires Moves(all, before, results, still) && NotYet(all, before, |still|)
      ensures Sweeping(all, before, results, still)
    {
    }

    lemma MovesMore(c: Connection, r: Syscall, pos: Node, s: Snapshot, all: seq<Node>, before: seq<Snapshot>,
                    results: seq<Syscall>, still: seq<bool>, was: seq<Node>)
      requires Paused(c, r, pos, s, all, before, results, still, was) && HasMoved(c, s, r, Out in c.events)
      ensures Shape(all, before, results) && |still| < |all| == |before| <= |results| && pos == all[|still|]
      ensures was == Pick(all[..|still|], still) + all[|still|..]
      ensures forall j, k :: 0 <= j < k < |all| ==> all[j] != all[k]
      ensures Moves(all, before, results, still + [Out in c.events]) && NotYet(all, before, |still| + 1)
    {
      hide Pick, Without, HasMoved, Waiting;
    }

    /** A visit of a connection that is listed. */
    method VisitListed(c: Connection, ghost mem: Memory, r: Syscall, ghost pos: Node, ghost s: Snapshot)
      requires Agrees() && Sound(mem) && Listed(c, pos, s)
      modifies c, this`nodes, c.sendBuffer, mem
      ensures Agrees() && Sound(mem) && HasMoved(c, s, r, Out in c.events)
      ensures nodes == if Out in c.events then old(nodes) else Without(old(nodes), pos)
    {
      assert c.list == this;
      hide Agrees, Sound, Without, StopsWriting;
      Visit(c, mem, r);
    }

    /** The connections that a step leaves alone. */
    ghost predicate Others(mem: Memory, h: Heap<Buffer>, c: Connection)
      reads this`conns, (conns - {c})`text, (conns - {c})`written, (conns - {c})`submitted
    {
      forall d :: d in conns && d != c ==>
        && d.sendBuffer.mem == mem && Writes(h, d.sendBuffer, d.text) && d.submitted == d.written + d.text
        && d.sendBuffer != c.sendBuffer
        && forall e :: e in conns && e != d ==> e.sendBuffer != d.sendBuffer
    }

    lemma SoundIs(mem: Memory, c: Connection)
      requires Agrees() && Sound(mem) && c in conns
      ensures c.list == this && c.Holds() && c.sendBuffer.mem == mem && Others(mem, mem.H(), c) && Scheduled()
    {
    }

    lemma SoundAgain(mem: Memory, h: Heap<Buffer>, c: Connection)
      requires c in conns && c.Holds() && c.sendBuffer.mem == mem && Others(mem, h, c) && Scheduled()
      requires After(h, mem.H(), {c.sendBuffer})
      ensures Sound(mem)
    {
      hide Memory.Valid, WellFormed, After, Writes;
      forall d | d in conns && d != c ensures Writes(mem.H(), d.sendBuffer, d.text) {
        WritesBeside(h, mem.H(), c.sendBuffer, c.text, d.sendBuffer, d.text);
      }
    }

    constructor ()
      ensures nodes == [] && conns == {} && Agrees() && Scheduled()
    {
      nodes, conns := [], {};
    }
  }

  /** What the system call `write` returns: a count, or an error number. */
  datatype Syscall = Count(n: nat) | Failure(errno: int)

  const EAGAIN := 11

  /** The kernel takes no more bytes than it is given. */
  function Accepted(text: bytes, r: Syscall): (sent: bytes)
    ensures sent <= text
  {
    if r.Failure? then [] else if r.n < |text| then text[..r.n] else text
  }

  /** What the system call `read` finds: bytes, none at the end of the stream, or an error number. */
  datatype Arrival = Bytes(data: bytes) | Failed(errno: int)

  const EINTR := 4

  function AtMost(data: bytes, n: nat): bytes {
    if |data| <= n then data else data[..n]
  }

  /** What `Event::Read` returns. */
  function ReadError(freeSize: int, r: Arrival): Error {
    if freeSize == 0 then Full
    else if r.Failed? then if r.errno == EAGAIN || r.errno == EINTR then TryAgain else Errno(r.errno)
    else if r.data == [] then Error.Eof
    else OK
  }

  /** What a call of `Event::Read` does to the buffer. */
  ghost predicate Gains<K>(h: Heap<K>, buffer: K, freeSize: nat, r: Arrival, err: Error, h': Heap<K>)
    requires WellFormed(h) && buffer in h.views
  {
    if err == OK then r.Bytes? && FillResult(h, buffer, AtMost(r.data, freeSize), h') else h' == h
  }

  predicate GivesUp(r: Syscall) {
    r.Failure? && r.errno != EAGAIN
  }

  /** What `Event::Write` returns. */
  function WriteError(text: bytes, r: Syscall): Error {
    if GivesUp(r) then Errno(r.errno) else if Accepted(text, r) == text then OK else TryAgain
  }

  /** Nothing is left to write, or the socket is broken; with a close pending the bit stays set. */
  predicate StopsWriting(text: bytes, flag: set<NetFlag>, r: Syscall) {
    text == [] || GivesUp(r) || (Accepted(text, r) == text && CloseFlag !in flag)
  }

  /** What `OnWritable` returns. */
  function OutcomeOf(text: bytes, flag: set<NetFlag>, r: Syscall): Error {
    if text == [] then OK else if GivesUp(r) then Errno(r.errno) else if CloseFlag in flag then Closed else OK
  }

  /** A hard error is any but EAGAIN. */
  lemma WriteErrorIs(t: bytes, r: Syscall)
    requires t != []
    ensures GivesUp(r) <==> r.Failure? && r.errno != EAGAIN
    ensures r.Failure? ==> WriteError(t, r) == if r.errno == EAGAIN then TryAgain else Errno(r.errno)
    ensures r.Count? ==> WriteError(t, r) == if r.n < |t| then TryAgain else OK
  {
  }

  lemma OutcomeIs(t: bytes, flag: set<NetFlag>, r: Syscall)
    ensures GivesUp(r) <==> r.Failure? && r.errno != EAGAIN
    ensures t == [] ==> OutcomeOf(t, flag, r) == OK
    ensures t != [] && GivesUp(r) ==> OutcomeOf(t, flag, r) == Errno(r.errno)
    ensures t != [] && !GivesUp(r) ==> OutcomeOf(t, flag, r) == if CloseFlag in flag then Closed else OK
    ensures r.Failure? && t != [] ==> (StopsWriting(t, flag, r) <==> GivesUp(r))
    ensures r.Count? || t == [] ==>
      (StopsWriting(t, flag, r) <==> t == [] || (r.n >= |t| && CloseFlag !in flag))
  {
  }

  /** When does `Event::Read` return what? */
  lemma ReadErrorIs(freeSize: nat, r: Arrival)
    ensures ReadError(freeSize, r) == OK <==> freeSize > 0 && r.Bytes? && r.data != []
    ensures ReadError(freeSize, r) == Full <==> freeSize == 0
    ensures ReadError(freeSize, r) == Error.Eof <==> freeSize > 0 && r == Bytes([])
    ensures freeSize > 0 && r.Failed? ==>
      ReadError(freeSize, r) == if r.errno in {EAGAIN, EINTR} then TryAgain else Errno(r.errno)
  {
  }

  /** What was read stands behind the text, and nothing else is there. */
  lemma GainsText(h: Heap<Buffer>, buffer: Buffer, freeSize: nat, r: Arrival, err: Error)
    requires WellFormed(h) && buffer in h.views && buffer.mem.Valid()
    requires Gains(h, buffer, freeSize, r, err, buffer.mem.H())
    ensures buffer in buffer.mem.views
    ensures err == OK ==> r.Bytes?
    ensures err == OK && |r.data| <= freeSize ==> buffer.mem.Text(buffer) == Texts(h)[buffer] + r.data
    ensures err == OK && |r.data| > freeSize ==> buffer.mem.Text(buffer) == Texts(h)[buffer] + r.data[..freeSize]
    ensures err != OK ==> buffer.mem.H() == h
  {
    buffer.mem.Reads(buffer);
    hide Memory.Valid, WellFormed, Owner, Sole, Calm;
  }

  class Connection {
    const list: WriteList
    var events: set<Interest>
    var writeListPos: Node?
    const sendBuffer: Buffer
    var flag: set<NetFlag>
    var connected: bool
    /** -1 until the socket is there. */
    var fd: int
    /** `Close` was called. */
    var closing: bool
    /** What the send buffer holds, what the socket took, and what `WriteToBuffer` was given. */
    ghost var text: bytes
    ghost var written: bytes
    ghost var submitted: bytes
    /** A write failed for good, and nothing was given to `WriteToBuffer` since. */
    ghost var broken: bool

    /** The send buffer holds `text` in a block of its own, and no byte was lost, doubled or moved. */
    ghost predicate Holds()
      reads this`text, this`written, this`submitted, sendBuffer, sendBuffer.mem, sendBuffer.mem.views.Keys
    {
      && sendBuffer.mem.Valid() && Writes(sendBuffer.mem.H(), sendBuffer, text)
      && submitted == written + text
    }

    /** With bytes to send the EPOLLOUT bit is set, unless the socket broke. */
    ghost predicate Scheduled() reads this`events, this`text, this`broken {
      text != [] ==> (Out in events <==> !broken)
    }

    ghost function Now(): Snapshot reads this`text, this`written, this`flag {
      Snapshot(text, written, flag)
    }

    constructor (list: WriteList, mem: Memory)
      requires list.Agrees() && list.Scheduled() && mem.Valid()
      modifies list, mem
      ensures this.list == list && list.Agrees() && list.Scheduled() && list.conns == old(list.conns) + {this}
      ensures list.nodes == old(list.nodes) && events == {} && flag == {} && !closing && !connected
      ensures fresh(sendBuffer) && sendBuffer.mem == mem && sendBuffer !in old(mem.views)
      ensures Holds() && submitted == [] && After(old(mem.H()), mem.H(), {sendBuffer})
    {
      hide WellFormed, Slices.After, Writes, Attach;
      ghost var h := mem.H();
      this.list := list;
      events, writeListPos, flag, closing, connected, fd := {}, null, {}, false, false, -1;
      text, written, submitted, broken := [], [], [], false;
      var buffer := new Buffer(mem);
      sendBuffer := buffer;
      new;
      NewWrites(h, sendBuffer);
      list.conns := list.conns + {this};
    }

    method SetWritable(flag: bool)
      requires list.Agrees() && this in list.conns
      modifies this`events, this`writeListPos, list`nodes
      ensures list.Agrees()
      ensures events == if flag then old(events) + {Out} else old(events) - {Out}
      ensures flag && Out !in old(events) ==>
        fresh(writeListPos) && list.nodes == old(list.nodes) + [writeListPos] && writeListPos.event == this
      ensures !flag && Out in old(events) ==>
        exists pos: Node :: pos == old(writeListPos) && list.nodes == Without(old(list.nodes), pos)
      ensures (flag <==> Out in old(events)) ==> list.nodes == old(list.nodes)
      ensures !flag || Out in old(events) ==> writeListPos == old(writeListPos)
    {
      if flag {
        if Out !in events {
          var pos := new Node(this);
          events := events + {Out};
          writeListPos := pos;
          list.nodes := list.nodes + [pos];
        }
      } else {
        if Out in events {
          var pos: Node := writeListPos;
          WithoutIn(list.nodes, pos);
          events := events - {Out};
          list.nodes := Without(list.nodes, pos);
        }
      }
    }

    /** `Event::Read`: as much as there is room for goes behind the last byte of the buffer. */
    method Read(buffer: Buffer, r: Arrival) returns (err: Error)
      requires list.Agrees() && list.Scheduled()
      requires buffer.mem.Valid() && buffer in buffer.mem.views && Owner(buffer.mem.H(), buffer)
      modifies this`events, this`closing, buffer, buffer.mem
      ensures list.Agrees() && list.Scheduled() && buffer.mem.Valid() && buffer.data == old(buffer.data)
      ensures err == ReadError(old(buffer.FreeSize()), r)
      ensures closing == (old(closing) || (err != OK && err != TryAgain && err != Full))
      ensures events == if err == Full then old(events) - {In} else old(events)
      ensures Gains(old(buffer.mem.H()), buffer, old(buffer.FreeSize()), r, err, buffer.mem.H())
      ensures old(buffer.FreeSize()) == 0 ==> err == Full
      ensures old(buffer.FreeSize()) > 0 && r.Failed? ==>
        err == if r.errno in {EAGAIN, EINTR} then TryAgain else Errno(r.errno)
      ensures old(buffer.FreeSize()) > 0 && r.Bytes? ==> err == if r.data == [] then Error.Eof else OK
      ensures buffer in buffer.mem.views
      ensures err == OK ==> r.Bytes?
      ensures err == OK && |r.data| <= old(buffer.FreeSize()) ==>
        buffer.mem.Text(buffer) == old(buffer.mem.Text(buffer)) + r.data
      ensures err == OK && |r.data| > old(buffer.FreeSize()) ==>
        buffer.mem.Text(buffer) == old(buffer.mem.Text(buffer)) + r.data[..old(buffer.FreeSize())]
      ensures err != OK ==> buffer.mem.H() == old(buffer.mem.H())
    {
      hide *;
      ghost var h := buffer.mem.H();
      buffer.mem.Reads(buffer);
      var freeSize := buffer.FreeSize();
      err := Look(freeSize, r);
      err := Take(buffer, freeSize, r, err);
      ReadErrorIs(freeSize, r);
      GainsText(h, buffer, freeSize, r, err);
    }

    /** `read( fd, buffer->Tail(), freeSize )` and `buffer->AppendSize( nread )`. */
    method Take(buffer: Buffer, freeSize: nat, r: Arrival, looked: Error) returns (err: Error)
      requires list.Agrees() && list.Scheduled() && looked == ReadError(freeSize, r)
      requires buffer.mem.Valid() && buffer in buffer.mem.views && Owner(buffer.mem.H(), buffer)
      requires freeSize == buffer.FreeSize()
      modifies buffer, buffer.mem
      ensures list.Agrees() && list.Scheduled() && buffer.mem.Valid() && buffer.data == old(buffer.data)
      ensures err == looked && Gains(old(buffer.mem.H()), buffer, freeSize, r, err, buffer.mem.H())
    {
      hide Memory.Valid, FillResult, WellFormed, Owner, WriteList.Agrees, WriteList.Scheduled;
      err := looked;
      if err == OK {
        buffer.Fill(AtMost(r.data, freeSize));
      }
    }

    /** Is there room, and is there something to read? */
    method Look(freeSize: nat, r: Arrival) returns (err: Error)
      requires list.Agrees() && list.Scheduled()
      modifies this`events, this`closing
      ensures list.Agrees() && list.Scheduled() && err == ReadError(freeSize, r)
      ensures closing == (old(closing) || (err != OK && err != TryAgain && err != Full))
      ensures events == if err == Full then old(events) - {In} else old(events)
    {
      hide WriteList.Agrees, WriteList.Scheduled;
      if freeSize == 0 {
        var op := SetReadable(false);
        return Full;
      }
      if r.Failed? {
        if r.errno == EAGAIN || r.errno == EINTR {
          return TryAgain;
        }
        closing := true;
        return Errno(r.errno);
      }
      if r.data == [] {
        closing := true;
        return Error.Eof;
      }
      err := OK;
    }

    /** `SetReadable`, that is `operateNotify(EPOLLIN, flag)`: the write list and its bit are not touched. */
    method SetReadable(flag: bool) returns (op: Control)
      requires list.Agrees() && list.Scheduled()
      modifies this`events
      ensures list.Agrees() && list.Scheduled() && events == if flag then old(events) + {In} else old(events) - {In}
      ensures op == if fd == -1 || events == old(events) then NoCall
                    else if events == {} then Delete else if old(events) == {} then Add else Modify
    {
      op := if events == {} then Add else Modify;
      if flag == (In in events) {
        return NoCall;
      }
      events := if flag then events + {In} else events - {In};
      if fd == -1 {
        return NoCall;
      }
      if events == {} {
        op := Delete;
      }
    }

    method WriteToBuffer(b: Buffer, ghost data: bytes, flags: set<NetFlag> := {}) returns (err: Error)
      requires list.Agrees() && list.Scheduled() && this in list.conns && Holds()
      requires HasText(b, data)
      modifies this`events, this`writeListPos, this`flag, this`text, this`submitted, this`broken, list`nodes
      modifies sendBuffer, sendBuffer.mem
      ensures err == OK && list.Agrees() && list.Scheduled() && Holds() && !broken
      ensures events == old(events) + {Out} && text == old(text) + data && submitted == old(submitted) + data
      ensures flag == old(flag) + flags + (if RstFlag in flags then {CloseFlag} else {})
      ensures After(old(sendBuffer.mem.H()), sendBuffer.mem.H(), {sendBuffer})
      ensures Out in old(events) ==> list.nodes == old(list.nodes) && writeListPos == old(writeListPos)
    {
      hide *;
      Submit(b, data);
      flag := flag + flags + (if RstFlag in flags then {CloseFlag} else {});
      err := OK;
    }

    /** The data is added to the send buffer, and the connection is listed. */
    method Submit(b: Buffer, ghost data: bytes)
      requires list.Agrees() && list.Scheduled() && this in list.conns && Holds()
      requires HasText(b, data)
      modifies this`events, this`writeListPos, this`text, this`submitted, this`broken, list`nodes
      modifies sendBuffer, sendBuffer.mem
      ensures list.Agrees() && list.Scheduled() && Holds() && !broken
      ensures events == old(events) + {Out} && text == old(text) + data && submitted == old(submitted) + data
      ensures After(old(sendBuffer.mem.H()), sendBuffer.mem.H(), {sendBuffer})
      ensures Out in old(events) ==> list.nodes == old(list.nodes) && writeListPos == old(writeListPos)
    {
      list.ScheduledIs(this);
      hide *;
      EnqueueBeside(b, data);
    }

    /** The other connections stay as they are. */
    method EnqueueBeside(b: Buffer, ghost data: bytes)
      requires list.Agrees() && list.OthersScheduled(this) && this in list.conns && Holds()
      requires HasText(b, data)
      modifies this`events, this`writeListPos, this`text, this`submitted, this`broken, list`nodes
      modifies sendBuffer, sendBuffer.mem
      ensures list.Agrees() && list.Scheduled() && Holds() && !broken
      ensures events == old(events) + {Out} && text == old(text) + data && submitted == old(submitted) + data
      ensures After(old(sendBuffer.mem.H()), sendBuffer.mem.H(), {sendBuffer})
      ensures Out in old(events) ==> list.nodes == old(list.nodes) && writeListPos == old(writeListPos)
    {
      hide *;
      Enqueue(b, data);
      NowScheduled();
    }

    lemma NowScheduled()
      requires Out in events && !broken && list.OthersScheduled(this)
      ensures list.Scheduled()
    {
    }

    /** `SetWritable( true ); sendBuffer_.Append( ... );` */
    method Enqueue(b: Buffer, ghost data: bytes)
      requires list.Agrees() && this in list.conns && Holds()
      requires HasText(b, data)
      modifies this`events, this`writeListPos, this`text, this`submitted, this`broken, list`nodes
      modifies sendBuffer, sendBuffer.mem
      ensures list.Agrees() && Holds() && !broken
      ensures events == old(events) + {Out} && text == old(text) + data && submitted == old(submitted) + data
      ensures After(old(sendBuffer.mem.H()), sendBuffer.mem.H(), {sendBuffer})
      ensures Out in old(events) ==> list.nodes == old(list.nodes) && writeListPos == old(writeListPos)
    {
      hide Memory.Valid, Memory.Text, WellFormed, Slices.After, Writes, WriteList.Agrees;
      SetWritable(true);
      broken := false;
      var bytes := BytesOf(b, data);
      Append(bytes);
    }

    method Append(data: bytes)
      requires Holds()
      modifies this`text, this`submitted, sendBuffer, sendBuffer.mem
      ensures Holds() && text == old(text) + data && submitted == old(submitted) + data
      ensures After(old(sendBuffer.mem.H()), sendBuffer.mem.H(), {sendBuffer})
    {
      hide Memory.Valid, WellFormed, Slices.After, Writes;
      Put(sendBuffer, data, text);
      Regroup(written, text, data);
      text, submitted := text + data, submitted + data;
    }

    method OnWritable(r: Syscall) returns (err: Error)
      requires list.Agrees() && list.Scheduled() && this in list.conns && Holds()
      modifies this, list`nodes, sendBuffer, sendBuffer.mem
      ensures list.Agrees() && list.Scheduled() && Holds()
      ensures Listing(old(list.nodes), old(events), old(writeListPos))
      ensures submitted == old(submitted) && flag == old(flag) && writeListPos == old(writeListPos)
      ensures Moved(old(text), old(written), r)
      ensures r.Failure? ==> text == old(text) && written == old(written)
      ensures r.Count? && r.n <= |old(text)| ==>
        text == old(text)[r.n..] && written == old(written) + old(text)[..r.n]
      ensures r.Count? && r.n > |old(text)| ==> text == [] && written == old(written) + old(text)
      ensures events == if StopsWriting(old(text), old(flag), r) then old(events) - {Out} else old(events)
      ensures old(text) == [] ==> events == old(events) - {Out} && err == OK
      ensures old(text) != [] && r.Failure? ==>
        events == if r.errno != EAGAIN then old(events) - {Out} else old(events)
      ensures old(text) != [] && r.Count? ==>
        events == if r.n >= |old(text)| && CloseFlag !in old(flag) then old(events) - {Out} else old(events)
      ensures broken == (old(broken) || (old(text) != [] && r.Failure? && r.errno != EAGAIN))
      ensures old(text) != [] && r.Failure? && r.errno != EAGAIN ==> err == Errno(r.errno)
      ensures old(text) != [] && !(r.Failure? && r.errno != EAGAIN) ==>
        err == if CloseFlag in old(flag) then Closed else OK
      ensures closing == (old(closing) ||
        (old(text) != [] && CloseFlag in old(flag) && !(r.Failure? && r.errno != EAGAIN)))
      ensures Slices.After(old(sendBuffer.mem.H()), sendBuffer.mem.H(), {sendBuffer})
    {
      ghost var t, w, bits, was := text, written, events, broken;
      list.ScheduledIs(this);
      hide *;
      err := Attempt(r);
      StillScheduled(t, w, bits, was, r);
      list.ScheduledAgain(this);
      MovedIs(t, w, r);
      OutcomeIs(t, flag, r);
    }

    lemma StillScheduled(t: bytes, w: bytes, bits: set<Interest>, was: bool, r: Syscall)
      requires t != [] ==> (Out in bits <==> !was)
      requires Moved(t, w, r) && events == if StopsWriting(t, flag, r) then bits - {Out} else bits
      requires broken == (was || (t != [] && GivesUp(r)))
      ensures Scheduled()
    {
      assert t == Accepted(t, r) + t[|Accepted(t, r)|..];
    }

    method Attempt(r: Syscall) returns (err: Error)
      requires list.Agrees() && this in list.conns && Holds()
      modifies this, list`nodes, sendBuffer, sendBuffer.mem
      ensures list.Agrees() && Holds() && Listing(old(list.nodes), old(events), old(writeListPos))
      ensures submitted == old(submitted) && flag == old(flag) && writeListPos == old(writeListPos)
      ensures Moved(old(text), old(written), r)
      ensures events == if StopsWriting(old(text), old(flag), r) then old(events) - {Out} else old(events)
      ensures broken == (old(broken) || (old(text) != [] && GivesUp(r)))
      ensures err == OutcomeOf(old(text), old(flag), r) && closing == (old(closing) || err == Closed)
      ensures Slices.After(old(sendBuffer.mem.H()), sendBuffer.mem.H(), {sendBuffer})
    {
      hide *;
      var size := SendSize();
      if size == 0 {
        err := Idle(r);
      } else {
        err := Send(r);
      }
    }

    /** There is nothing to write. */
    method Idle(r: Syscall) returns (err: Error)
      requires list.Agrees() && this in list.conns && Holds() && text == []
      modifies this, list`nodes
      ensures list.Agrees() && Holds() && Listing(old(list.nodes), old(events), old(writeListPos))
      ensures submitted == old(submitted) && flag == old(flag) && writeListPos == old(writeListPos)
      ensures Moved(old(text), old(written), r)
      ensures events == if StopsWriting(old(text), old(flag), r) then old(events) - {Out} else old(events)
      ensures broken == (old(broken) || (old(text) != [] && GivesUp(r)))
      ensures err == OutcomeOf(old(text), old(flag), r) && closing == (old(closing) || err == Closed)
      ensures Slices.After(old(sendBuffer.mem.H()), sendBuffer.mem.H(), {sendBuffer})
    {
      StillHere();
      NothingToSend(r);
      hide Memory.Valid, Memory.Text, WellFormed, Slices.After, Writes, WriteList.Agrees;
      SetWritable(false);
      err := OK;
    }

    /** There is something to write. */
    method Send(r: Syscall) returns (err: Error)
      requires list.Agrees() && this in list.conns && Holds() && text != []
      modifies this, list`nodes, sendBuffer, sendBuffer.mem
      ensures list.Agrees() && Holds() && Listing(old(list.nodes), old(events), old(writeListPos))
      ensures submitted == old(submitted) && flag == old(flag) && writeListPos == old(writeListPos)
      ensures Moved(old(text), old(written), r)
      ensures events == if StopsWriting(old(text), old(flag), r) then old(events) - {Out} else old(events)
      ensures broken == (old(broken) || (old(text) != [] && GivesUp(r)))
      ensures err == OutcomeOf(old(text), old(flag), r) && closing == (old(closing) || err == Closed)
      ensures Slices.After(old(sendBuffer.mem.H()), sendBuffer.mem.H(), {sendBuffer})
    {
      hide Memory.Valid, Memory.Text, WellFormed, Slices.After, Writes, WriteList.Agrees, Moved;
      err := Flush(r);
      if err == OK || err == TryAgain {
        err := Conclude(err == OK);
      }
    }

    /** `Write`, and `Clear` when everything was written. */
    method Flush(r: Syscall) returns (err: Error)
      requires list.Agrees() && this in list.conns && Holds() && text != []
      modifies this`events, this`writeListPos, list`nodes, this`text, this`written, this`broken
      modifies sendBuffer, sendBuffer.mem
      ensures list.Agrees() && Holds() && writeListPos == old(writeListPos) && broken == (old(broken) || GivesUp(r))
      ensures err == WriteError(old(text), r) && Moved(old(text), old(written), r)
      ensures events == if GivesUp(r) then old(events) - {Out} else old(events)
      ensures Listing(old(list.nodes), old(events), old(writeListPos))
      ensures Slices.After(old(sendBuffer.mem.H()), sendBuffer.mem.H(), {sendBuffer})
    {
      hide Memory.Valid, Memory.Text, WellFormed, Slices.After, Writes, WriteList.Agrees;
      ghost var t, h := text, sendBuffer.mem.H();
      err := Write(r);
      if err == OK {
        ghost var g := sendBuffer.mem.H();
        Empty(t);
        AfterAgain(h, g, sendBuffer.mem.H(), {sendBuffer});
      }
    }

    lemma NothingToSend(r: Syscall)
      requires text == []
      ensures Moved(text, written, r)
    {
      assert written + [] == written;
    }

    /** The end of `OnWritable`: close when asked to, stop writing when there is no more. */
    method Conclude(sentOut: bool) returns (err: Error)
      requires list.Agrees() && this in list.conns
      modifies this`events, this`writeListPos, this`closing, list`nodes
      ensures list.Agrees() && Listing(old(list.nodes), old(events), old(writeListPos))
      ensures writeListPos == old(writeListPos)
      ensures events == if sentOut && CloseFlag !in flag then old(events) - {Out} else old(events)
      ensures err == (if CloseFlag in flag then Closed else OK) && closing == (old(closing) || err == Closed)
    {
      if CloseFlag in flag {
        closing := true;
        return Closed;
      }
      if sentOut {
        SetWritable(false);
      }
      err := OK;
    }

    /** `Event::Write`. When the socket takes everything the buffer is left for the caller to clear. */
    method Write(r: Syscall) returns (err: Error)
      requires list.Agrees() && this in list.conns && Holds() && text != []
      modifies this`events, this`writeListPos, list`nodes, this`text, this`written, this`broken
      modifies sendBuffer, sendBuffer.mem
      ensures list.Agrees() && writeListPos == old(writeListPos) && broken == (old(broken) || GivesUp(r))
      ensures Tried(old(text), old(written), r, err)
      ensures events == if GivesUp(r) then old(events) - {Out} else old(events)
      ensures Listing(old(list.nodes), old(events), old(writeListPos))
      ensures Slices.After(old(sendBuffer.mem.H()), sendBuffer.mem.H(), {sendBuffer})
      ensures r.Failure? ==> text == old(text) && written == old(written)
      ensures r.Count? && r.n <= |old(text)| ==>
        text == old(text)[r.n..] && written == old(written) + old(text)[..r.n]
      ensures r.Count? && r.n > |old(text)| ==> text == [] && written == old(written) + old(text)
      ensures r.Failure? ==> err == if r.errno == EAGAIN then TryAgain else Errno(r.errno)
      ensures r.Count? ==> err == if r.n < |old(text)| then TryAgain else OK
    {
      hide *;
      ghost var t, w := text, written;
      err := TryWrite(r);
      TriedIs(t, w, r, err);
      MovedIs(t, w, r);
      WriteErrorIs(t, r);
    }

    method TryWrite(r: Syscall) returns (err: Error)
      requires list.Agrees() && this in list.conns && Holds() && text != []
      modifies this`events, this`writeListPos, list`nodes, this`text, this`written, this`broken
      modifies sendBuffer, sendBuffer.mem
      ensures list.Agrees() && writeListPos == old(writeListPos) && broken == (old(broken) || GivesUp(r))
      ensures Tried(old(text), old(written), r, err)
      ensures events == if GivesUp(r) then old(events) - {Out} else old(events)
      ensures Listing(old(list.nodes), old(events), old(writeListPos))
      ensures Slices.After(old(sendBuffer.mem.H()), sendBuffer.mem.H(), {sendBuffer})
    {
      hide Holds, Tried, Slices.After, WriteList.Agrees;
      if r.Failure? {
        err := Fail(r);
      } else {
        err := CountBytes(r);
      }
    }

    /** The call failed: the socket takes nothing now, or it is broken. */
    method Fail(r: Syscall) returns (err: Error)
      requires list.Agrees() && this in list.conns && Holds() && text != [] && r.Failure?
      modifies this`events, this`writeListPos, this`broken, list`nodes
      ensures list.Agrees() && writeListPos == old(writeListPos) && broken == (old(broken) || GivesUp(r))
      ensures Tried(old(text), old(written), r, err)
      ensures events == if GivesUp(r) then old(events) - {Out} else old(events)
      ensures Listing(old(list.nodes), old(events), old(writeListPos))
      ensures Slices.After(old(sendBuffer.mem.H()), sendBuffer.mem.H(), {sendBuffer})
    {
      hide *;
      FailedIs(r);
      err := TryAgain;
      if r.errno != EAGAIN {
        Break();
        err := Errno(r.errno);
      }
    }

    lemma FailedIs(r: Syscall)
      requires Holds() && text != [] && r.Failure?
      ensures GivesUp(r) <==> r.errno != EAGAIN
      ensures Tried(text, written, r, if GivesUp(r) then Errno(r.errno) else TryAgain)
      ensures Slices.After(sendBuffer.mem.H(), sendBuffer.mem.H(), {sendBuffer})
      ensures Listing(list.nodes, events, writeListPos)
    {
      StillHere();
      NothingTaken(r);
    }

    /** The socket is broken. */
    method Break()
      requires list.Agrees() && this in list.conns
      modifies this`events, this`writeListPos, this`broken, list`nodes
      ensures list.Agrees() && broken && writeListPos == old(writeListPos) && events == old(events) - {Out}
      ensures Listing(old(list.nodes), old(events), old(writeListPos))
    {
      hide WriteList.Agrees;
      SetWritable(false);
      broken := true;
    }

    /** The call took `r.n` bytes, or all of them. */
    method CountBytes(r: Syscall) returns (err: Error)
      requires r.Count? && Holds() && text != []
      modifies this`text, this`written, sendBuffer, sendBuffer.mem
      ensures Tried(old(text), old(written), r, err)
      ensures Slices.After(old(sendBuffer.mem.H()), sendBuffer.mem.H(), {sendBuffer})
    {
      hide *;
      StillHere();
      var size := SendSize();
      if 0 < r.n < size {
        err := CountSome(r);
      } else if r.n == 0 {
        NothingCounted(r);
        err := TryAgain;
      } else {
        CountAll(r);
        err := OK;
      }
    }

    lemma NothingCounted(r: Syscall)
      requires Holds() && text != [] && r == Count(0)
      ensures Tried(text, written, r, TryAgain)
    {
      hide Memory.Valid, WellFormed, Slices.After, Writes;
      NothingTaken(r);
    }

    method CountAll(r: Syscall)
      requires Holds() && text != [] && r.Count? && r.n >= |text|
      modifies this`text, this`written
      ensures Tried(old(text), old(written), r, OK)
    {
      hide Memory.Valid, WellFormed, Slices.After, Writes;
      TookAll(text, r);
      text, written := [], written + text;
    }

    method CountSome(r: Syscall) returns (err: Error)
      requires r.Count? && Holds() && 0 < r.n < |text|
      modifies this`text, this`written, sendBuffer, sendBuffer.mem
      ensures Tried(old(text), old(written), r, err)
      ensures Slices.After(old(sendBuffer.mem.H()), sendBuffer.mem.H(), {sendBuffer})
    {
      hide Memory.Valid, Memory.Text, WellFormed, Slices.After, Writes;
      Drop(r.n);
      err := TryAgain;
    }

    /** What a call of `Write` on the bytes t comes to. */
    ghost predicate Tried(t: bytes, w: bytes, r: Syscall, err: Error)
      reads this`text, this`written, this`submitted, sendBuffer, sendBuffer.mem, sendBuffer.mem.views.Keys
    {
      && err == WriteError(t, r) && Moved(t, w, r)
      && (err != OK ==> Holds())
      && (err == OK ==> sendBuffer.mem.Valid() && Writes(sendBuffer.mem.H(), sendBuffer, t) && submitted == written)
    }

    lemma NothingTaken(r: Syscall)
      requires r.Failure? || r.n == 0
      ensures Moved(text, written, r)
      ensures text != [] ==> WriteError(text, r) == if GivesUp(r) then Errno(r.errno) else TryAgain
    {
      assert Accepted(text, r) == [] by { assert text != [] ==> text[..0] == []; }
      assert text[0..] == text && written + [] == written;
    }

    /** The socket took its part of the bytes t. */
    ghost predicate Moved(t: bytes, w: bytes, r: Syscall) reads this`text, this`written {
      text == t[|Accepted(t, r)|..] && written == w + Accepted(t, r)
    }

    /** The list is as it was, or has lost this connection's position together with its bit. */
    ghost predicate Listing(nodes: seq<Node>, bits: set<Interest>, pos: Node?)
      reads this, list
    {
      if Out in bits && Out !in events then exists n: Node :: n == pos && list.nodes == Without(nodes, n)
      else list.nodes == nodes
    }

    /** Of the bytes t the socket took as many as it says, none when the call failed. */
    lemma MovedIs(t: bytes, w: bytes, r: Syscall)
      requires Moved(t, w, r)
      ensures r.Failure? ==> text == t && written == w
      ensures r.Count? && r.n <= |t| ==> text == t[r.n..] && written == w + t[..r.n]
      ensures r.Count? && r.n > |t| ==> text == [] && written == w + t
    {
      assert t[|t|..] == [] && t[..|t|] == t && t[0..] == t && w + [] == w;
    }

    lemma TriedIs(t: bytes, w: bytes, r: Syscall, err: Error)
      requires Tried(t, w, r, err)
      ensures err == WriteError(t, r) && Moved(t, w, r)
    {
    }

    lemma StillHere()
      requires Holds()
      ensures Slices.After(sendBuffer.mem.H(), sendBuffer.mem.H(), {sendBuffer})
    {
    }

    /** `sendBuffer_.Size()` */
    method SendSize() returns (size: nat)
      requires Holds()
      ensures size == |text|
    {
      sendBuffer.mem.Reads(sendBuffer);
      size := sendBuffer.Length();
    }

    /** `buffer->Offset(nwrite)` */
    method Drop(n: nat)
      requires Holds() && 0 < n < |text|
      modifies this`text, this`written, sendBuffer, sendBuffer.mem
      ensures Holds() && text == old(text)[n..] && written == old(written) + old(text)[..n]
      ensures Slices.After(old(sendBuffer.mem.H()), sendBuffer.mem.H(), {sendBuffer})
    {
      hide Memory.Valid, Memory.Text, WellFormed, Slices.After, Writes, OffsetView, OffsetText, Calm, Texts, Resize;
      ghost var h := sendBuffer.mem.H();
      ViewIs(sendBuffer, text);
      SkipWrites(h, sendBuffer, text, n);
      MovePart(written, text, n);
      sendBuffer.Skip(n);
      written, text := written + text[..n], text[n..];
    }

    /** `sendBuffer_.Clear()` after everything was written. */
    method Empty(ghost sent: bytes)
      requires sendBuffer.mem.Valid() && Writes(sendBuffer.mem.H(), sendBuffer, sent)
      requires text == [] && submitted == written
      modifies sendBuffer, sendBuffer.mem
      ensures Holds()
      ensures Slices.After(old(sendBuffer.mem.H()), sendBuffer.mem.H(), {sendBuffer})
    {
      ghost var h := sendBuffer.mem.H();
      WritesIs(h, sendBuffer, sent);
      ClearWrites(h, sendBuffer, sent);
      hide Memory.Valid, Memory.Text, WellFormed, Slices.After, Writes, Calm, Sole, Texts, BufferOps.Clear, Owner;
      sendBuffer.Clear();
      assert written + [] == written;
    }
  }

  ghost predicate HasText(b: Buffer, data: bytes) reads b, b.mem, b.mem.views.Keys {
    b.mem.Valid() && b in b.mem.views && b.mem.Text(b) == data
  }

  /** The bytes at `b.Data()`. */
  method BytesOf(b: Buffer, ghost data: bytes) returns (bytes: bytes)
    requires HasText(b, data)
    ensures bytes == data
  {
    bytes := b.Bytes();
  }

  lemma ViewIs(buf: Buffer, text: bytes)
    requires buf.mem.Valid() && Writes(buf.mem.H(), buf, text)
    ensures buf in buf.mem.views && buf.mem.H().views[buf] == buf.Rep()
  {
  }

  lemma NewWrites(h: Heap<Buffer>, buf: Buffer)
    requires buf.mem.Valid() && WellFormed(h) && buf.mem.H() == Attach(h, buf, NOTHING) && buf !in h.views
    ensures Writes(buf.mem.H(), buf, []) && After(h, buf.mem.H(), {buf})
  {
    AttachOk(h, buf, NOTHING);
    AttachTexts(h, buf, NOTHING);
  }

  lemma TookAll(t: bytes, r: Syscall)
    requires r.Count? && r.n >= |t|
    ensures Accepted(t, r) == t && t[|t|..] == []
  {
  }

  lemma MovePart(a: bytes, b: bytes, n: nat)
    requires n <= |b|
    ensures a + b == a + b[..n] + b[n..]
  {
  }

  lemma SkipWrites<K>(h: Heap<K>, buf: K, text: bytes, n: nat)
    requires Writes(h, buf, text) && n <= |text|
    ensures var h' := Resize(h, buf, OffsetView(h.views[buf], n, 0));
      Writes(h', buf, text[n..]) && After(h, h', {buf})
  {
    var w := OffsetView(h.views[buf], n, 0);
    OffsetOk(h, buf, n, 0);
    hide WellFormed, InBounds, OffsetView;
    ResizedWrites(h, buf, text, w, n);
  }

  lemma ResizedWrites<K>(h: Heap<K>, buf: K, text: bytes, w: View, n: nat)
    requires Writes(h, buf, text) && n <= |text| && Kept(h, Resize(h, buf, w), buf) && InBounds(h.blocks, w)
    requires InBounds(h.blocks, h.views[buf]) && w.data == h.views[buf].data
    requires ViewText(h.blocks, w) == OffsetText(ViewText(h.blocks, h.views[buf]), n, 0)
    ensures var h' := Resize(h, buf, w); Writes(h', buf, text[n..]) && After(h, h', {buf})
  {
    hide WellFormed, Calm, Sole;
    ResizedSole(h, buf, w);
    TextIs(h, buf);
    TextIs(Resize(h, buf, w), buf);
  }

  lemma ResizedSole<K>(h: Heap<K>, buf: K, w: View)
    requires buf in h.views && Sole(h, buf) && w.data == h.views[buf].data
    ensures Sole(Resize(h, buf, w), buf)
  {
  }

  lemma ClearWrites<K>(h: Heap<K>, buf: K, text: bytes)
    requires Writes(h, buf, text)
    ensures Writes(BufferOps.Clear(h, buf), buf, []) && After(h, BufferOps.Clear(h, buf), {buf})
  {
    ClearKeeps(h, buf);
    ClearOk(h, buf);
  }

  /** A buffer with a block of its own does not see what happens to another such buffer. */
  lemma WritesBeside<K>(h: Heap<K>, h': Heap<K>, k: K, other: bytes, j: K, text: bytes)
    requires Writes(h, j, text) && After(h, h', {k}) && Writes(h', k, other) && j != k
    ensures Writes(h', j, text)
  {
    AfterKeeps(h, h', {k}, j);
    forall x | x in h'.views && x != j && h'.views[j].data != 0 ensures h'.views[x].data != h'.views[j].data {
      if x != k {
        assert SameView(h, h', x);
      }
    }
  }
}
