/**
 * The upstream link as a whole: sessions push requests, the socket takes and brings bytes in pieces of any
 * size, the server answers. What holds after every run of such steps.
 */
module Protocol {
  import opened Base
  import Decimal
  import opened Resp
  import opened RequestMachine
  import opened ReplyMachine
  import opened Requests
  import opened UpstreamMachine
  import opened SessionMachine
  import ReplyFraming
  import opened ReplyStream
  import opened ReplyDelivery

  datatype Answer = Answer(argv: Argv, reply: Reply)

  /**
   * `consumed` requests were read by the server, which gave `answers`; `written` and `received` are all
   * the bytes the socket took and brought. `failed` is set when `OnServerRead` ends in anything but
   * waiting for more bytes.
   */
  datatype World = World(link: Link, st: ParserState, resp: bytes, input: bytes,
                         written: bytes, toServer: bytes, consumed: nat, answers: seq<Answer>,
                         fromServer: bytes, received: bytes, failed: bool)

  datatype Step =
    | Push(id: nat, argv: Argv)
    | Write(n: nat)
    | Reply(argv: Argv, reply: Resp.Reply)
    | Ignore
    | Deliver(n: nat, slack: bytes)

  const AUTH: bytes := [97, 117, 116, 104]

  function AuthRequest(password: bytes): Request {
    Request(AuthReader, [AUTH, password])
  }

  /** `Upstream::Init` on a connection that is up. */
  function Start(password: bytes, capacity: nat): World {
    var l := Link(true, Books(password == [], [], []), capacity, [], []);
    var l' := if password == [] then l else PushRequest(l, AuthRequest(password).argv, AuthReader).link;
    World(l', FRESH, [], [], [], [], 0, [], [], [], false)
  }

  function Upstream(w: World): State {
    State(w.link.books, w.st, w.resp, w.input)
  }

  /** The server reads whole requests in order. It gives no answer to a request without arguments. */
  ghost predicate Enabled(w: World, s: Step) {
    match s
    case Push(_, argv) => Sendable(argv)
    case Write(n) => n <= |w.link.send|
    case Reply(argv, reply) => argv != [] && Sendable(argv) && Encode(argv) <= w.toServer && Framable(reply)
    case Ignore => Encode([]) <= w.toServer
    case Deliver(n, _) => 0 < n <= |w.fromServer|
  }

  function After(w: World, s: Step): World
    requires Enabled(w, s)
  {
    match s
    case Push(id, argv) => w.(link := PoolPush(w.link, argv, SessionReader(id)).link)
    case Write(n) =>
      var sent := w.link.send[..n];
      w.(link := w.link.(send := w.link.send[n..]), written := w.written + sent, toServer := w.toServer + sent)
    case Reply(argv, reply) =>
      w.(toServer := w.toServer[|Encode(argv)|..], consumed := w.consumed + 1,
         answers := w.answers + [Answer(argv, reply)], fromServer := w.fromServer + EncodeReply(reply))
    case Ignore => w.(toServer := w.toServer[|Encode([])|..], consumed := w.consumed + 1)
    case Deliver(n, slack) =>
      var w' := w.(fromServer := w.fromServer[n..], received := w.received + w.fromServer[..n]);
      if ReplyReady(w.st) then Reads(w', w.fromServer[..n], slack) else w'.(failed := true)
  }

  /** `OnReadable`: c is read into the input buffer, and `OnServerRead` is called. */
  function Reads(w: World, c: bytes, slack: bytes): World
    requires ReplyReady(w.st)
  {
    var r := ServerRead(Upstream(w).(input := w.input + c), slack);
    w.(link := w.link.(books := r.state.books), st := r.state.st, resp := r.state.resp, input := r.state.input,
       failed := w.failed || (r.err != OK && r.err != OutOfBound))
  }

  ghost predicate LegalRun(w: World, steps: seq<Step>)
    decreases |steps|
  {
    steps != [] ==> Enabled(w, steps[0]) && LegalRun(After(w, steps[0]), steps[1..])
  }

  function Run(w: World, steps: seq<Step>): World
    requires LegalRun(w, steps)
    decreases |steps|
  {
    if steps == [] then w else Run(After(w, steps[0]), steps[1..])
  }

  // ---- histories

  function Argvs(rs: seq<Request>): (cs: seq<Argv>)
    ensures |cs| == |rs|
  {
    seq(|rs|, i requires 0 <= i < |rs| => rs[i].argv)
  }

  function Pairs(rs: seq<Request>): (ps: seq<ReaderPair>)
    ensures |ps| == |rs|
  {
    seq(|rs|, i requires 0 <= i < |rs| => PairOf(rs[i].reader))
  }

  function Replied(answers: seq<Answer>): (rs: seq<Resp.Reply>)
    ensures |rs| == |answers|
  {
    seq(|answers|, i requires 0 <= i < |answers| => answers[i].reply)
  }

  function Asked(answers: seq<Answer>): (cs: seq<Argv>)
    ensures |cs| == |answers|
  {
    seq(|answers|, i requires 0 <= i < |answers| => answers[i].argv)
  }

  /** The requests that get an answer. */
  function NonEmpty(cs: seq<Argv>): (ds: seq<Argv>)
    ensures |ds| <= |cs|
  {
    if cs == [] then [] else if cs[0] == [] then NonEmpty(cs[1..]) else [cs[0]] + NonEmpty(cs[1..])
  }

  lemma {:induction false} NonEmptyAppend(xs: seq<Argv>, ys: seq<Argv>)
    ensures NonEmpty(xs + ys) == NonEmpty(xs) + NonEmpty(ys)
  {
    if xs == [] {
      assert xs + ys == ys;
    } else {
      NonEmptyAppend(xs[1..], ys);
      assert (xs + ys)[1..] == xs[1..] + ys;
      var keep := if xs[0] == [] then [] else [xs[0]];
      assert NonEmpty(xs + ys) == keep + NonEmpty(xs[1..] + ys);
      assert NonEmpty(xs) == keep + NonEmpty(xs[1..]);
      Associate(keep, NonEmpty(xs[1..]), NonEmpty(ys));
    }
  }

  lemma Associate<T>(a: seq<T>, b: seq<T>, c: seq<T>)
    ensures a + b + c == a + (b + c)
  {
  }

  // ---- the invariant

  /** The requests side: what was accepted is what the server has read, what is on its way, and what is not sent yet. */
  ghost predicate Outgoing(w: World) {
    var cs := Argvs(w.link.accepted);
    && (forall i :: 0 <= i < |cs| ==> Sendable(cs[i]))
    && w.consumed <= |cs|
    && w.toServer + w.link.send == EncodeAll(cs[w.consumed..])
    && w.written + w.link.send == EncodeAll(cs)
    && Asked(w.answers) == NonEmpty(cs[..w.consumed])
  }

  /** The i-th reply went to the i-th reader. */
  ghost predicate Matched(w: World) {
    var log := w.link.books.log;
    && |log| <= |w.answers| <= |w.link.accepted|
    && forall i :: 0 <= i < |log| ==>
         log[i] == Delivery(w.link.accepted[i].reader, EncodeReply(w.answers[i].reply))
  }

  /** The replies side: p is the part of the next reply that has come. */
  ghost predicate Incoming(w: World, p: bytes, slack: bytes) {
    var rs, k := Replied(w.answers), |w.link.books.log|;
    && AllFramable(rs) && Matched(w) && !w.failed
    && w.link.books.queue == Pairs(w.link.accepted[k..])
    && w.received == EncodeReplies(rs[..k]) + p && PartOf(p, rs[k..])
    && w.received + w.fromServer == EncodeReplies(rs)
    && Midway(Upstream(w), p, slack) && ReplyReady(w.st)
  }

  /** What the replies to AUTH so far let in. */
  function AuthFrom(auth: bool, log: seq<Delivery>): bool
    decreases |log|
  {
    if log == [] then auth else AuthFrom(AuthAfter(auth, log[0]), log[1..])
  }

  ghost predicate Gate(w: World, password: bytes) {
    var l := w.link;
    && l.connected
    && l.books.auth == AuthFrom(password == [], l.books.log)
    && (password == [] ==> forall i :: 0 <= i < |l.accepted| ==> l.accepted[i].reader != AuthReader)
    && (password != [] && l.accepted != [] ==> l.accepted[0] == AuthRequest(password))
    && (forall i :: 1 <= i < |l.accepted| ==> l.accepted[i].reader != AuthReader)
    && (password != [] && l.accepted == [] ==> !l.books.auth)
    && (password != [] && |l.accepted| > 1 ==> l.books.log != [] && l.books.auth)
    && |l.books.queue| <= l.capacity
  }

  ghost predicate Inv(w: World, password: bytes, p: bytes, slack: bytes) {
    Outgoing(w) && Incoming(w, p, slack) && Gate(w, password)
  }

  lemma StartOutgoing(password: bytes, capacity: nat)
    requires |password| <= Decimal.INT32_MAX - 2
    ensures Outgoing(Start(password, capacity))
  {
    var w := Start(password, capacity);
    var cs := Argvs(w.link.accepted);
    assert cs[0..] == cs && cs[..0] == [];
    if w.link.accepted != [] {
      assert cs == [[AUTH, password]] && cs[1..] == [];
      assert EncodeAll(cs) == Encode([AUTH, password]) + [];
    }
  }

  lemma StartInv(password: bytes, capacity: nat)
    requires |password| <= Decimal.INT32_MAX - 2
    ensures Inv(Start(password, capacity), password, [], [])
  {
    StartOutgoing(password, capacity);
    hide Outgoing, Encode;
    var w := Start(password, capacity);
    assert w.link.accepted[0..] == w.link.accepted;
    assert Gate(w, password);
    assert Incoming(w, [], []);
  }

  // ---- each step keeps it

  lemma ArgvsMore(rs: seq<Request>, r: Request, k: nat)
    requires k <= |rs|
    ensures Argvs(rs + [r]) == Argvs(rs) + [r.argv]
    ensures Argvs(rs + [r])[k..] == Argvs(rs)[k..] + [r.argv] && Argvs(rs + [r])[..k] == Argvs(rs)[..k]
    ensures Pairs((rs + [r])[k..]) == Pairs(rs[k..]) + [PairOf(r.reader)]
  {
  }

  lemma EncodeOne(cs: seq<Argv>, c: Argv)
    ensures EncodeAll(cs + [c]) == EncodeAll(cs) + Encode(c)
  {
    EncodeAllAppend(cs, [c]);
    assert EncodeAll([c]) == Encode(c) + [];
  }

  lemma PushOutgoing(w: World, id: nat, argv: Argv)
    requires Outgoing(w) && Sendable(argv)
    ensures Outgoing(After(w, Push(id, argv)))
  {
    var l := w.link;
    var w' := After(w, Push(id, argv));
    if w' != w {
      var cs := Argvs(l.accepted);
      ArgvsMore(l.accepted, Request(SessionReader(id), argv), w.consumed);
      EncodeOne(cs[w.consumed..], argv);
      EncodeOne(cs, argv);
      Regroup(w.toServer, l.send, Encode(argv));
      Regroup(w.written, l.send, Encode(argv));
    }
  }

  lemma PushIncoming(w: World, id: nat, argv: Argv, p: bytes, slack: bytes)
    requires Incoming(w, p, slack) && Sendable(argv)
    ensures Incoming(After(w, Push(id, argv)), p, slack)
  {
    ArgvsMore(w.link.accepted, Request(SessionReader(id), argv), |w.link.books.log|);
  }

  lemma PushGate(w: World, id: nat, argv: Argv, password: bytes)
    requires Gate(w, password) && Sendable(argv) && |w.link.books.log| <= |w.link.accepted|
    ensures Gate(After(w, Push(id, argv)), password)
  {
  }

  lemma WriteKeeps(w: World, n: nat, password: bytes, p: bytes, slack: bytes)
    requires Inv(w, password, p, slack) && n <= |w.link.send|
    ensures Inv(After(w, Write(n)), password, p, slack)
  {
    var send := w.link.send;
    assert send == send[..n] + send[n..];
    Regroup(w.toServer, send[..n], send[n..]);
    Regroup(w.written, send[..n], send[n..]);
  }

  /** The request the server reads next is the oldest one it has not read. */
  lemma NextRequest(w: World, argv: Argv)
    requires Outgoing(w) && Sendable(argv) && Encode(argv) <= w.toServer
    ensures var cs := Argvs(w.link.accepted);
      && w.consumed < |cs| && cs[w.consumed] == argv
      && w.toServer[|Encode(argv)|..] + w.link.send == EncodeAll(cs[w.consumed + 1..])
      && cs[..w.consumed + 1] == cs[..w.consumed] + [argv]
  {
    var cs := Argvs(w.link.accepted);
    var todo := cs[w.consumed..];
    var x := w.toServer[|Encode(argv)|..];
    assert w.toServer == Encode(argv) + x;
    Regroup(Encode(argv), x, w.link.send);
    assert Encode(argv) != [];
    assert todo != [];
    PrefixFree(argv, todo[0], x + w.link.send, EncodeAll(todo[1..]));
    assert todo[1..] == cs[w.consumed + 1..];
  }

  lemma ReadOutgoing(w: World, argv: Argv)
    requires Outgoing(w) && Sendable(argv) && Encode(argv) <= w.toServer
    ensures var w' := w.(toServer := w.toServer[|Encode(argv)|..], consumed := w.consumed + 1);
      && (argv == [] ==> Outgoing(w'))
      && forall r :: argv != [] ==> Outgoing(w'.(answers := w.answers + [Answer(argv, r)]))
  {
    var cs := Argvs(w.link.accepted);
    NextRequest(w, argv);
    NonEmptyAppend(cs[..w.consumed], [argv]);
    assert NonEmpty([argv]) == if argv == [] then [] else [argv];
    forall r ensures Asked(w.answers + [Answer(argv, r)]) == Asked(w.answers) + [argv] {
    }
  }

  lemma AnswersFit(w: World)
    requires Outgoing(w)
    ensures |w.answers| <= w.consumed <= |w.link.accepted|
  {
    var cs := Argvs(w.link.accepted);
    assert |Asked(w.answers)| == |NonEmpty(cs[..w.consumed])|;
  }

  lemma RepliesMore(answers: seq<Answer>, a: Answer, k: nat)
    requires k <= |answers|
    ensures Replied(answers + [a]) == Replied(answers) + [a.reply]
    ensures Replied(answers + [a])[..k] == Replied(answers)[..k]
    ensures Replied(answers + [a])[k..] == Replied(answers)[k..] + [a.reply]
  {
  }

  lemma EncodeOneReply(rs: seq<Resp.Reply>, r: Resp.Reply)
    ensures EncodeReplies(rs + [r]) == EncodeReplies(rs) + EncodeReply(r)
  {
    EncodeRepliesAppend(rs, [r]);
    assert EncodeReplies([r]) == EncodeReply(r) + [];
  }

  lemma ReplyIncoming(w: World, argv: Argv, reply: Resp.Reply, p: bytes, slack: bytes)
    requires Incoming(w, p, slack) && Framable(reply) && |w.answers| < |w.link.accepted|
    requires Encode(argv) <= w.toServer && argv != [] && Sendable(argv)
    ensures Incoming(After(w, Reply(argv, reply)), p, slack)
  {
    hide Framable, EncodeReply;
    var rs, k := Replied(w.answers), |w.link.books.log|;
    RepliesMore(w.answers, Answer(argv, reply), k);
    EncodeOneReply(rs, reply);
    Regroup(w.received, w.fromServer, EncodeReply(reply));
    if rs[k..] == [] {
      ReplyIsSome(reply);
    }
    assert AllFramable(rs + [reply]);
  }

  lemma ReplyIsSome(reply: Resp.Reply)
    requires Framable(reply)
    ensures [] < EncodeReply(reply)
  {
    ReplyFraming.FirstOfReply(reply);
  }

  /** What a delivery finds. */
  lemma DeliverFinds(w: World, n: nat, p: bytes, s1: bytes)
    requires Incoming(w, p, s1) && 0 < n <= |w.fromServer|
    ensures var rs := Replied(w.answers)[|w.link.books.log|..]; var c := w.fromServer[..n];
      && Midway(Upstream(w), p, s1) && PartOf(p, rs) && AllFramable(rs) && |rs| <= |w.link.books.queue|
      && c != [] && p + c <= EncodeReplies(rs)
  {
    var all, k, c := Replied(w.answers), |w.link.books.log|, w.fromServer[..n];
    hide EncodeReplies, EncodeReply, Framable, Midway, PartOf;
    assert w.fromServer == c + w.fromServer[n..];
    Regroup(w.received, c, w.fromServer[n..]);
    RestOfStream(all, k, p, c);
  }

  lemma ServedKeepsOrder(w: World, j: nat)
    requires Matched(w) && w.link.books.queue == Pairs(w.link.accepted[|w.link.books.log|..])
    requires |w.link.books.log| + j <= |w.answers|
    ensures var b := w.link.books; var rs := Replied(w.answers)[|b.log|..];
      && j <= |rs| <= |b.queue|
      && var w' := w.(link := w.link.(books := Served(b, rs[..j])));
         Matched(w') && |w'.link.books.log| == |b.log| + j
         && w'.link.books.queue == Pairs(w.link.accepted[|b.log| + j..])
         && w'.link.books.log == b.log + Deliveries(b.queue, rs[..j])
  {
    hide EncodeReply, Served, Deliveries, Present;
    var b, k := w.link.books, |w.link.books.log|;
    var rs := Replied(w.answers)[k..];
    PairsArePresent(w.link.accepted[k..]);
    ServedQueue(b, rs[..j]);
    ServedLog(b, rs[..j]);
    MatchedMore(w, j);
    assert w.link.accepted[k..][j..] == w.link.accepted[k + j..];
  }

  lemma PairsArePresent(rs: seq<Request>)
    ensures Present(Pairs(rs))
  {
  }

  /** The next j replies of the server go to the next j readers. */
  lemma MatchedMore(w: World, j: nat)
    requires Matched(w) && w.link.books.queue == Pairs(w.link.accepted[|w.link.books.log|..])
    requires |w.link.books.log| + j <= |w.answers|
    ensures var b, k := w.link.books, |w.link.books.log|; var rs := Replied(w.answers)[k..];
      && j <= |rs| <= |b.queue|
      && forall i :: 0 <= i < k + j ==>
           (b.log + Deliveries(b.queue, rs[..j]))[i] ==
             Delivery(w.link.accepted[i].reader, EncodeReply(w.answers[i].reply))
  {
    hide EncodeReply;
    var b, k := w.link.books, |w.link.books.log|;
    var ds := Deliveries(b.queue, Replied(w.answers)[k..][..j]);
    forall i | k <= i < k + j
      ensures ds[i - k] == Delivery(w.link.accepted[i].reader, EncodeReply(w.answers[i].reply))
    {
      assert b.queue[i - k] == PairOf(w.link.accepted[k..][i - k].reader);
      assert Replied(w.answers)[k..][..j][i - k] == w.answers[i].reply;
    }
  }

  /** The bytes a delivery leaves to come. */
  lemma DeliverLeaves(w: World, n: nat, p: bytes, s1: bytes, j: nat, p': bytes)
    requires Incoming(w, p, s1) && n <= |w.fromServer|
    requires var rs := Replied(w.answers)[|w.link.books.log|..];
      j <= |rs| && p + w.fromServer[..n] == EncodeReplies(rs[..j]) + p'
    ensures var all, k := Replied(w.answers), |w.link.books.log|;
      var received := w.received + w.fromServer[..n];
      && received == EncodeReplies(all[..k + j]) + p'
      && received + w.fromServer[n..] == EncodeReplies(all)
  {
    var k, all := |w.link.books.log|, Replied(w.answers);
    hide EncodeReplies, EncodeReply, Framable, Midway, PartOf;
    SplitReplies(all, k, j);
    MovePiece(w.received, w.fromServer, n, EncodeReplies(all[..k]), p, EncodeReplies(all[k..][..j]), p');
  }

  lemma MovePiece(r: bytes, f: bytes, n: nat, e: bytes, p: bytes, e': bytes, p': bytes)
    requires n <= |f| && r == e + p && p + f[..n] == e' + p'
    ensures r + f[..n] == (e + e') + p' && (r + f[..n]) + f[n..] == r + f
  {
    Regroup(e, p, f[..n]);
    Regroup(e, e', p');
    Regroup(r, f[..n], f[n..]);
    assert f[..n] + f[n..] == f;
  }

  /** A delivery hands on j replies. */
  ghost predicate Delivers(w: World, w': World, j: nat) {
    var b := w.link.books;
    && |b.log| <= |w.answers| && j <= |Replied(w.answers)[|b.log|..]| <= |b.queue|
    && w'.link == w.link.(books := Served(b, Replied(w.answers)[|b.log|..][..j]))
  }

  lemma DeliverReads(w: World, n: nat, slack: bytes, p: bytes, s1: bytes) returns (j: nat, p': bytes)
    requires Incoming(w, p, s1) && 0 < n <= |w.fromServer|
    ensures Delivers(w, After(w, Deliver(n, slack)), j)
    ensures var w' := After(w, Deliver(n, slack)); var rs := Replied(w.answers)[|w.link.books.log|..];
      && ReplyReady(w'.st) && !w'.failed && Midway(Upstream(w'), p', slack) && PartOf(p', rs[j..])
      && p + w.fromServer[..n] == EncodeReplies(rs[..j]) + p'
    ensures var w' := After(w, Deliver(n, slack));
      && w'.fromServer == w.fromServer[n..] && w'.received == w.received + w.fromServer[..n]
      && w'.answers == w.answers && w'.link.accepted == w.link.accepted
  {
    hide ServerRead, EncodeReplies, EncodeReply, Framable, Midway, PartOf, Served;
    DeliverFinds(w, n, p, s1);
    j, p' := ServesPiece(Upstream(w), Replied(w.answers)[|w.link.books.log|..], p, s1, w.fromServer[..n], slack);
  }

  lemma DeliverIncoming(w: World, n: nat, slack: bytes, p: bytes, s1: bytes) returns (j: nat, p': bytes)
    requires Incoming(w, p, s1) && 0 < n <= |w.fromServer|
    ensures Incoming(After(w, Deliver(n, slack)), p', slack)
    ensures Delivers(w, After(w, Deliver(n, slack)), j)
  {
    hide ServerRead, EncodeReplies, EncodeReply, Framable, Midway, PartOf, Served, After;
    j, p' := DeliverReads(w, n, slack, p, s1);
    ServedKeepsOrder(w, j);
    DeliverLeaves(w, n, p, s1, j, p');
    SplitReplies(Replied(w.answers), |w.link.books.log|, j);
  }

  lemma {:induction false} AuthFromMore(auth: bool, log: seq<Delivery>, more: seq<Delivery>)
    ensures AuthFrom(auth, log + more) == AuthFrom(AuthFrom(auth, log), more)
    decreases |log|
  {
    if log == [] {
      assert log + more == more;
    } else {
      assert (log + more)[1..] == log[1..] + more;
      AuthFromMore(AuthAfter(auth, log[0]), log[1..], more);
    }
  }

  lemma {:induction false} ServedAuth(b: Books, rs: seq<Resp.Reply>)
    requires |rs| <= |b.queue| && Present(b.queue)
    ensures Served(b, rs).auth == AuthFrom(b.auth, Deliveries(b.queue, rs))
    decreases |rs|
  {
    if rs != [] {
      var e := EncodeReply(rs[0]);
      HandLog(b, e);
      assert b.queue[0] == PairOf(b.queue[0].reader);
      ServedAuth(Hand(b, e), rs[1..]);
      hide Deliveries;
      DeliveriesFirst(b.queue, rs);
      AuthFromMore(b.auth, [Delivery(b.queue[0].reader, e)], Deliveries(b.queue[1..], rs[1..]));
    }
  }

  /** Replies to sessions let nobody in and lock nobody out. */
  lemma {:induction false} SessionsDoNotMatter(auth: bool, log: seq<Delivery>)
    requires forall i :: 0 <= i < |log| ==> log[i].reader != AuthReader
    ensures AuthFrom(auth, log) == auth
    decreases |log|
  {
    if log != [] {
      SessionsDoNotMatter(AuthAfter(auth, log[0]), log[1..]);
    }
  }

  lemma DeliverGate(w: World, w': World, j: nat, password: bytes)
    requires Matched(w) && w.link.books.queue == Pairs(w.link.accepted[|w.link.books.log|..])
    requires Gate(w, password) && Delivers(w, w', j)
    ensures Gate(w', password)
  {
    var b, k := w.link.books, |w.link.books.log|;
    var rs := Replied(w.answers)[k..][..j];
    var ds := Deliveries(b.queue, rs);
    assert Present(b.queue);
    ServedQueue(b, rs);
    ServedLog(b, rs);
    ServedAuth(b, rs);
    AuthFromMore(password == [], b.log, ds);
    if k >= 1 {
      forall i | 0 <= i < |ds| ensures ds[i].reader != AuthReader {
        assert ds[i].reader == w.link.accepted[k + i].reader;
      }
      SessionsDoNotMatter(b.auth, ds);
    }
  }

  lemma StepKeeps(w: World, s: Step, password: bytes, p: bytes, slack: bytes) returns (p': bytes, slack': bytes)
    requires Inv(w, password, p, slack) && Enabled(w, s)
    ensures Inv(After(w, s), password, p', slack')
  {
    p', slack' := p, slack;
    hide Outgoing, Incoming, Gate;
    match s {
      case Push(id, argv) =>
        PushOutgoing(w, id, argv);
        PushIncoming(w, id, argv, p, slack);
        LogFits(w, p, slack);
        PushGate(w, id, argv, password);
      case Write(n) =>
        WriteKeeps(w, n, password, p, slack);
      case Reply(argv, reply) =>
        ReadKeeps(w, argv, reply, password, p, slack);
      case Ignore =>
        IgnoreKeeps(w, password, p, slack);
      case Deliver(n, s2) =>
        p', slack' := DeliverKeeps(w, n, s2, password, p, slack);
    }
  }

  lemma LogFits(w: World, p: bytes, slack: bytes)
    requires Incoming(w, p, slack)
    ensures |w.link.books.log| <= |w.link.accepted|
  {
  }

  lemma RequestRead(w: World, argv: Argv, reply: Resp.Reply)
    requires Outgoing(w) && Enabled(w, Reply(argv, reply))
    ensures |w.answers| < |w.link.accepted| && Outgoing(After(w, Reply(argv, reply)))
  {
    hide Framable, EncodeReply;
    NextRequest(w, argv);
    AnswersFit(w);
    hide Outgoing;
    ReadOutgoing(w, argv);
    var w' := w.(toServer := w.toServer[|Encode(argv)|..], consumed := w.consumed + 1);
    assert Outgoing(w'.(answers := w.answers + [Answer(argv, reply)]));
    OutgoingIs(w'.(answers := w.answers + [Answer(argv, reply)]), After(w, Reply(argv, reply)));
  }

  /** The requests side does not look at the bytes that come back. */
  lemma OutgoingIs(w: World, w': World)
    requires Outgoing(w) && w' == w.(fromServer := w'.fromServer)
    ensures Outgoing(w')
  {
  }

  lemma ReadKeeps(w: World, argv: Argv, reply: Resp.Reply, password: bytes, p: bytes, slack: bytes)
    requires Inv(w, password, p, slack) && Enabled(w, Reply(argv, reply))
    ensures Inv(After(w, Reply(argv, reply)), password, p, slack)
  {
    RequestRead(w, argv, reply);
    hide Incoming, Outgoing, Framable, EncodeReply;
    ReplyIncoming(w, argv, reply, p, slack);
  }

  lemma IgnoreKeeps(w: World, password: bytes, p: bytes, slack: bytes)
    requires Inv(w, password, p, slack) && Enabled(w, Ignore)
    ensures Inv(After(w, Ignore), password, p, slack)
  {
    ReadOutgoing(w, []);
  }

  lemma DeliverKeeps(w: World, n: nat, slack: bytes, password: bytes, p: bytes, s1: bytes)
    returns (p': bytes, slack': bytes)
    requires Inv(w, password, p, s1) && Enabled(w, Deliver(n, slack))
    ensures Inv(After(w, Deliver(n, slack)), password, p', slack')
  {
    var j;
    j, p' := DeliverIncoming(w, n, slack, p, s1);
    slack' := slack;
    var w' := After(w, Deliver(n, slack));
    DeliverGate(w, w', j, password);
    assert w'.link.accepted == w.link.accepted && w'.link.send == w.link.send;
  }

  lemma {:induction false} RunKeeps(w: World, steps: seq<Step>, password: bytes, p: bytes, slack: bytes)
    returns (p': bytes, slack': bytes)
    requires Inv(w, password, p, slack) && LegalRun(w, steps)
    ensures Inv(Run(w, steps), password, p', slack')
    decreases |steps|
  {
    if steps == [] {
      p', slack' := p, slack;
    } else {
      hide Inv;
      p', slack' := StepKeeps(w, steps[0], password, p, slack);
      p', slack' := RunKeeps(After(w, steps[0]), steps[1..], password, p', slack');
    }
  }
}
