/**
 * A session whose request was held back is not read until it gets a reply: `OnServerWrite` is the only call that
 * sets EPOLLIN again. When does that happen?
 */
module Wakeups {
  import opened Base
  import opened Resp
  import opened RequestMachine
  import opened ReplyMachine
  import opened UpstreamMachine
  import opened RequestStream
  import opened ReplyStream
  import opened ReplyDelivery
  import opened SessionMachine
  import opened SessionBatches
  import opened Protocol
  import opened LinkSafety

  /** One of the deliveries since `before` went to the session. */
  ghost predicate Woken(before: seq<Delivery>, now: seq<Delivery>, id: nat) {
    exists i :: |before| <= i < |now| && now[i].reader == SessionReader(id)
  }

  /** A request of the session waits for its reply. */
  predicate HasRequest(queue: seq<ReaderPair>, id: nat) {
    PairOf(SessionReader(id)) in queue
  }

  /** Readers leave the queue in order: who is served was in it. */
  lemma ServedWereQueued(before: seq<Delivery>, queue: seq<ReaderPair>, now: seq<Delivery>, left: seq<ReaderPair>)
    requires before <= now && Readers(now) + left == Readers(before) + queue
    ensures |now| - |before| <= |queue|
    ensures forall i :: |before| <= i < |now| ==> PairOf(now[i].reader) == queue[i - |before|]
    ensures left == queue[|now| - |before|..]
  {
    var all := Readers(before) + queue;
    assert |Readers(now)| == |now| && |Readers(before)| == |before| && |all| == |now| + |left|;
    forall i | |before| <= i < |now| ensures PairOf(now[i].reader) == queue[i - |before|] {
      assert Readers(now)[i] == (Readers(now) + left)[i] == all[i] == queue[i - |before|];
    }
    assert left == (Readers(now) + left)[|now|..] == all[|now|..] == queue[|now| - |before|..];
  }

  /** Whatever the server sends, a session without a request in the queue is not woken. */
  lemma WokenOnlyIfQueued(u: State, chunks: seq<Chunk>, id: nat)
    requires ReplyReady(u.st) && Present(u.books.queue)
    ensures Woken(u.books.log, Receive(u, chunks).books.log, id) ==> HasRequest(u.books.queue, id)
  {
    var n := ReceiveConserves(u, chunks);
    var v := Receive(u, chunks);
    hide Receive, Readers, Total;
    ServedWereQueued(u.books.log, u.books.queue, v.books.log, v.books.queue);
  }

  /** The replies rs wake exactly the sessions whose requests stand first in the queue. */
  lemma WokenByReplies(u: State, rs: seq<Reply>, chunks: seq<Chunk>, id: nat)
    requires AtRest(u) && AllFramable(rs) && |rs| <= |u.books.queue| && Present(u.books.queue)
    requires forall i :: 0 <= i < |chunks| ==> chunks[i].data != []
    requires Received(chunks) == EncodeReplies(rs)
    ensures Woken(u.books.log, Receive(u, chunks).books.log, id) <==> HasRequest(u.books.queue[..|rs|], id)
  {
    ReplyFragmentation(u, rs, chunks);
    hide Receive, EncodeReplies;
    DeliveriesWake(u.books.log, u.books.queue, rs, id);
  }

  lemma DeliveriesWake(log: seq<Delivery>, queue: seq<ReaderPair>, rs: seq<Reply>, id: nat)
    requires |rs| <= |queue| && Present(queue)
    ensures Woken(log, log + Deliveries(queue, rs), id) <==> HasRequest(queue[..|rs|], id)
  {
    hide EncodeReply;
    var now := log + Deliveries(queue, rs);
    assert forall i :: 0 <= i < |rs| ==>
      now[|log| + i].reader == queue[i].reader && queue[i] == PairOf(queue[i].reader);
    if HasRequest(queue[..|rs|], id) {
      var i :| 0 <= i < |rs| && queue[..|rs|][i] == PairOf(SessionReader(id));
      assert now[|log| + i].reader == SessionReader(id);
    }
    if Woken(log, now, id) {
      var i :| |log| <= i < |now| && now[i].reader == SessionReader(id);
      assert queue[..|rs|][i - |log|] == queue[i - |log|];
    }
  }

  function Pluses(n: nat): (rs: seq<Reply>)
    ensures |rs| == n && AllFramable(rs)
  {
    seq(n, _ => Line(PLUS, []))
  }

  lemma PlusesEncoded(n: nat)
    requires n > 0
    ensures EncodeReplies(Pluses(n)) != []
  {
    assert EncodeReply(Pluses(n)[0]) == [PLUS] + [] + CRLF;
  }

  /** The server can wake a session iff one of the session's own requests is still queued. */
  lemma CanBeWokenIff(u: State, id: nat)
    requires AtRest(u) && Present(u.books.queue)
    ensures (exists chunks :: Woken(u.books.log, Receive(u, chunks).books.log, id)) <==> HasRequest(u.books.queue, id)
  {
    var queue := u.books.queue;
    if HasRequest(queue, id) {
      var rs := Pluses(|queue|);
      PlusesEncoded(|queue|);
      var chunks := [Chunk(EncodeReplies(rs), [])];
      assert chunks[1..] == [] && Received(chunks) == EncodeReplies(rs) + [] == EncodeReplies(rs);
      assert queue[..|queue|] == queue;
      WokenByReplies(u, rs, chunks, id);
    }
    forall chunks | Woken(u.books.log, Receive(u, chunks).books.log, id) ensures HasRequest(queue, id) {
      WokenOnlyIfQueued(u, chunks, id);
    }
  }

  /** A refused session stops reading, and if nothing of it is queued no bytes from the server wake it. */
  lemma RefusedForGood(c: Client, u: State, l: Link, slack: bytes, chunks: seq<Chunk>)
    requires c.current != [] && Room(l) == 0 && l.books == u.books
    requires ReplyReady(u.st) && Present(u.books.queue) && !HasRequest(u.books.queue, c.id)
    ensures var o := ClientRead(c, l, slack); !o.client.readable && o.link == l
    ensures !Woken(u.books.log, Receive(u, chunks).books.log, c.id)
  {
    NoRoom(l, c.current, SessionReader(c.id));
    WokenOnlyIfQueued(u, chunks, c.id);
    hide PoolPush, Receive;
  }

  // ---- over runs of the protocol

  /** The readers in the queue are there, and the session is not among them. */
  ghost predicate Asleep(w: World, id: nat) {
    Present(w.link.books.queue) && !HasRequest(w.link.books.queue, id)
  }

  /** Nothing was handed to the session between w and v. */
  ghost predicate Silent(w: World, v: World, id: nat) {
    w.link.books.log <= v.link.books.log && !Woken(w.link.books.log, v.link.books.log, id)
  }

  lemma SilentTwice(w: World, v: World, x: World, id: nat)
    requires Silent(w, v, id) && Silent(v, x, id)
    ensures Silent(w, x, id)
  {
  }

  lemma PushKeepsAsleep(w: World, other: nat, argv: Argv, id: nat)
    requires Asleep(w, id) && other != id && Sendable(argv)
    ensures Asleep(After(w, Push(other, argv)), id) && Silent(w, After(w, Push(other, argv)), id)
  {
    var v := After(w, Push(other, argv));
    assert v.link.books.queue == w.link.books.queue
        || v.link.books.queue == w.link.books.queue + [PairOf(SessionReader(other))];
  }

  lemma ReadKeepsAsleep(w: World, c: bytes, slack: bytes, id: nat)
    requires Asleep(w, id) && ReplyReady(w.st)
    ensures Asleep(Reads(w, c, slack), id) && Silent(w, Reads(w, c, slack), id)
  {
    var u := Upstream(w).(input := w.input + c);
    ReadIsFifo(u, slack);
    ReadKeepsPresent(u, slack);
    var v := ServerRead(u, slack).state;
    hide ServerRead, Readers;
    ServedWereQueued(u.books.log, u.books.queue, v.books.log, v.books.queue);
  }

  lemma StepKeepsAsleep(w: World, s: Step, id: nat)
    requires Enabled(w, s) && Asleep(w, id) && (s.Push? ==> s.id != id)
    ensures Asleep(After(w, s), id) && Silent(w, After(w, s), id)
  {
    match s
    case Push(other, argv) => PushKeepsAsleep(w, other, argv, id);
    case Write(n) =>
    case Reply(argv, reply) => hide Encode, EncodeReply;
    case Ignore => hide Encode;
    case Deliver(n, slack) =>
      if ReplyReady(w.st) {
        var w' := w.(fromServer := w.fromServer[n..], received := w.received + w.fromServer[..n]);
        ReadKeepsAsleep(w', w.fromServer[..n], slack, id);
        hide Reads;
      }
  }

  /**
   * A session that has no request in the queue and is not read stays so: in every run in which it pushes
   * nothing, no reply is handed to it.
   */
  lemma {:induction false} StaysAsleep(w: World, steps: seq<Step>, id: nat)
    requires LegalRun(w, steps) && Asleep(w, id)
    requires forall i :: 0 <= i < |steps| && steps[i].Push? ==> steps[i].id != id
    ensures Asleep(Run(w, steps), id) && Silent(w, Run(w, steps), id)
    decreases |steps|
  {
    hide After, Enabled, Asleep, Silent;
    if steps == [] {
      NothingHappened(w, id);
    } else {
      assert steps[0] in steps;
      StepKeepsAsleep(w, steps[0], id);
      StaysAsleep(After(w, steps[0]), steps[1..], id);
      SilentTwice(w, After(w, steps[0]), Run(w, steps), id);
    }
  }

  lemma NothingHappened(w: World, id: nat)
    ensures Silent(w, w, id)
  {
  }

  /** With a password every session that sends before the reply to AUTH came is refused, and is asleep. */
  lemma EarlySessionsSleep(password: bytes, capacity: nat, steps: seq<Step>, id: nat)
    requires Reached(password, capacity, steps) && password != []
    ensures var w := Run(Start(password, capacity), steps);
      w.link.books.log == [] ==> Asleep(w, id) && Room(w.link) == 0
  {
    var w := Run(Start(password, capacity), steps);
    var p, slack := ReachedInv(password, capacity, steps);
    hide Run, Start, Outgoing, Reached;
    if w.link.books.log == [] {
      NobodyIn(w, password, p, slack, id);
    }
  }

  lemma NobodyIn(w: World, password: bytes, p: bytes, slack: bytes, id: nat)
    requires Inv(w, password, p, slack) && password != [] && w.link.books.log == []
    ensures Asleep(w, id) && Room(w.link) == 0
  {
    hide Outgoing, EncodeReply, EncodeReplies, Midway;
    var accepted := w.link.accepted;
    assert accepted[0..] == accepted && |accepted| <= 1;
    assert w.link.books.queue == Pairs(accepted);
    assert !w.link.books.auth;
  }
}
