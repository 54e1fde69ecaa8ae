/** What every run of the upstream link guarantees, from `Upstream::Init` on. */
module LinkSafety {
  import opened Base
  import Decimal
  import opened Resp
  import opened Requests
  import opened ReplyMachine
  import opened UpstreamMachine
  import opened SessionMachine
  import opened ReplyStream
  import opened ReplyDelivery
  import opened Protocol

  ghost predicate Reached(password: bytes, capacity: nat, steps: seq<Step>) {
    |password| <= Decimal.INT32_MAX - 2 && LegalRun(Start(password, capacity), steps)
  }

  lemma ReachedInv(password: bytes, capacity: nat, steps: seq<Step>) returns (p: bytes, slack: bytes)
    requires Reached(password, capacity, steps)
    ensures Inv(Run(Start(password, capacity), steps), password, p, slack)
  {
    StartInv(password, capacity);
    p, slack := RunKeeps(Start(password, capacity), steps, password, [], []);
  }

  /**
   * However pushes of any sessions, partial writes and pieces of the reply stream are interleaved: the k-th
   * reply handed on is byte for byte the k-th answer of the server, it goes to the reader of the k-th request
   * that was accepted, the queue lists the readers of the other accepted requests in order, and no call of
   * OnServerRead finds the queue empty or a byte it does not know.
   */
  lemma RepliesMatchRequests(password: bytes, capacity: nat, steps: seq<Step>)
    requires Reached(password, capacity, steps)
    ensures var w := Run(Start(password, capacity), steps);
      && Matched(w) && !w.failed
      && w.link.books.queue == Pairs(w.link.accepted[|w.link.books.log|..])
      && |w.link.books.queue| <= w.link.capacity
  {
    var p, slack := ReachedInv(password, capacity, steps);
  }

  /** The bytes sent and to be sent are the accepted requests in order; the bytes received are the answers so far. */
  lemma StreamsAreWhole(password: bytes, capacity: nat, steps: seq<Step>)
    requires Reached(password, capacity, steps)
    ensures var w := Run(Start(password, capacity), steps);
      && w.written + w.link.send == EncodeAll(Argvs(w.link.accepted))
      && w.received + w.fromServer == EncodeReplies(Replied(w.answers))
      && |w.link.books.log| <= |w.answers|
      && EncodeReplies(Replied(w.answers)[..|w.link.books.log|]) <= w.received
  {
    var p, slack := ReachedInv(password, capacity, steps);
  }

  /** Nothing is under way in either direction. */
  predicate Drained(w: World) {
    w.link.send == [] && w.toServer == [] && w.fromServer == []
  }

  lemma NothingToEncode(cs: seq<Argv>)
    ensures cs != [] ==> EncodeAll(cs) != []
  {
    if cs != [] {
      assert Encode(cs[0]) != [];
    }
  }

  /** Once the link is drained, every request with arguments has got its reply and the parser is at rest. */
  lemma DrainedLinkHasAnswered(password: bytes, capacity: nat, steps: seq<Step>)
    requires Reached(password, capacity, steps)
    ensures var w := Run(Start(password, capacity), steps);
      Drained(w) ==> |w.link.books.log| == |NonEmpty(Argvs(w.link.accepted))| && AtRest(Upstream(w))
  {
    var w := Run(Start(password, capacity), steps);
    var p, slack := ReachedInv(password, capacity, steps);
    if Drained(w) {
      var cs, rs, k := Argvs(w.link.accepted), Replied(w.answers), |w.link.books.log|;
      NothingToEncode(cs[w.consumed..]);
      assert cs[..w.consumed] == cs;
      assert |Asked(w.answers)| == |NonEmpty(cs)|;
      assert w.received + [] == w.received;
      NothingPartial(rs, k, p);
    }
  }

  // ---- requests without arguments

  /** Where the i-th request with arguments stands among all requests. */
  function Position(cs: seq<Argv>, i: nat): (j: nat)
    requires i < |NonEmpty(cs)|
    ensures i <= j < |cs|
    decreases |cs|
  {
    if cs[0] == [] then 1 + Position(cs[1..], i)
    else if i == 0 then 0
    else 1 + Position(cs[1..], i - 1)
  }

  lemma {:induction false} PositionIs(cs: seq<Argv>, i: nat)
    requires i < |NonEmpty(cs)|
    ensures cs[Position(cs, i)] == NonEmpty(cs)[i]
    ensures Position(cs, i) == i <==> forall j :: 0 <= j <= i ==> cs[j] != []
    decreases |cs|
  {
    if cs[0] == [] {
      PositionIs(cs[1..], i);
    } else if i > 0 {
      PositionIs(cs[1..], i - 1);
      assert forall j :: 0 <= j <= i - 1 ==> cs[1..][j] == cs[j + 1];
      if Position(cs, i) == i {
        forall j | 0 <= j <= i ensures cs[j] != [] {
          assert j > 0 ==> cs[j] == cs[1..][j - 1];
        }
      }
    }
  }

  lemma AskedIsPrefix(w: World)
    requires Outgoing(w)
    ensures Asked(w.answers) <= NonEmpty(Argvs(w.link.accepted))
  {
    var cs := Argvs(w.link.accepted);
    NonEmptyAppend(cs[..w.consumed], cs[w.consumed..]);
    assert cs[..w.consumed] + cs[w.consumed..] == cs;
  }

  /**
   * The server's i-th answer is for the i-th request that has arguments, but it is handed to the reader of the
   * i-th request. These are the same request iff no request without arguments was accepted up to there.
   */
  lemma RightRequestIff(password: bytes, capacity: nat, steps: seq<Step>, i: nat)
    requires Reached(password, capacity, steps)
    requires i < |Run(Start(password, capacity), steps).link.books.log|
    ensures var w := Run(Start(password, capacity), steps);
      var accepted := w.link.accepted; var cs := Argvs(accepted);
      && i < |w.answers| <= |accepted| && i < |NonEmpty(cs)|
      && w.link.books.log[i] == Delivery(accepted[i].reader, EncodeReply(w.answers[i].reply))
      && w.answers[i].argv == accepted[Position(cs, i)].argv
      && (Position(cs, i) == i <==> forall j :: 0 <= j <= i ==> accepted[j].argv != [])
  {
    var w := Run(Start(password, capacity), steps);
    var p, slack := ReachedInv(password, capacity, steps);
    var cs := Argvs(w.link.accepted);
    AskedIsPrefix(w);
    assert Asked(w.answers)[i] == NonEmpty(cs)[i];
    PositionIs(cs, i);
    assert forall j :: 0 <= j <= i ==> cs[j] == w.link.accepted[j].argv;
  }

  lemma RunOne(w: World, s: Step, rest: seq<Step>)
    requires Enabled(w, s) && LegalRun(After(w, s), rest)
    ensures LegalRun(w, [s] + rest) && Run(w, [s] + rest) == Run(After(w, s), rest)
  {
    assert ([s] + rest)[1..] == rest;
  }

  /** Both requests sent, the empty one dropped, the other one answered and the answer delivered. */
  function Sent(a: nat, b: nat, argv: Argv): World
    requires Sendable(argv)
  {
    After(After(Start([], 2), Push(a, [])), Push(b, argv))
  }

  lemma SentIs(a: nat, b: nat, argv: Argv)
    requires Sendable(argv)
    ensures Enabled(Start([], 2), Push(a, [])) && Enabled(After(Start([], 2), Push(a, [])), Push(b, argv))
    ensures var w := Sent(a, b, argv);
      && w.link.send == Encode([]) + Encode(argv)
      && w.link.accepted == [Request(SessionReader(a), []), Request(SessionReader(b), argv)]
      && w.toServer == [] && w.fromServer == [] && w.answers == [] && w.written == [] && ReplyReady(w.st)
  {
    hide Encode;
    assert [] + Encode([]) == Encode([]);
  }

  function Tail(w: World, argv: Argv, reply: Resp.Reply, slack: bytes): seq<Step> {
    [Write(|w.link.send|)] + ([Ignore] + ([Reply(argv, reply)] + ([Deliver(|EncodeReply(reply)|, slack)] + [])))
  }

  lemma TailIs(w: World, argv: Argv, reply: Resp.Reply, slack: bytes)
    requires w.link.send == Encode([]) + Encode(argv) && w.toServer == [] && w.fromServer == [] && w.answers == []
    requires argv != [] && Sendable(argv) && Framable(reply)
    ensures LegalRun(w, Tail(w, argv, reply, slack))
    ensures var v := Run(w, Tail(w, argv, reply, slack));
      Drained(v) && v.link.accepted == w.link.accepted && v.answers == [Answer(argv, reply)]
  {
    hide Encode, Framable, UpstreamMachine.ServerRead;
    Protocol.ReplyIsSome(reply);
    hide EncodeReply;
    var send, r := w.link.send, EncodeReply(reply);
    var s1, s2, s3, s4 := Write(|send|), Ignore, Reply(argv, reply), Deliver(|r|, slack);
    var w1 := After(w, s1);
    assert send[..|send|] == send && [] + send == send && send[|send|..] == [];
    assert w1.toServer == Encode([]) + Encode(argv) && w1.link.send == [];
    var w2 := After(w1, s2);
    assert w2.toServer == Encode(argv);
    var w3 := After(w2, s3);
    assert [] + r == r && w3.fromServer == r && w3.toServer == [];
    var w4 := After(w3, s4);
    assert w4.fromServer == [];
    RunOne(w3, s4, []);
    RunOne(w2, s3, [s4] + []);
    RunOne(w1, s2, [s3] + ([s4] + []));
    RunOne(w, s1, [s2] + ([s3] + ([s4] + [])));
  }

  /**
   * Session a sends a request without arguments, session b a real one: the only answer is b's, and a gets it.
   */
  lemma EmptyRequestTakesTheNextReply(a: nat, b: nat, argv: Argv, reply: Resp.Reply, slack: bytes)
    returns (steps: seq<Step>)
    requires argv != [] && Sendable(argv) && Framable(reply)
    ensures Reached([], 2, steps)
    ensures var w := Run(Start([], 2), steps);
      && Drained(w) && w.answers == [Answer(argv, reply)]
      && w.link.accepted == [Request(SessionReader(a), []), Request(SessionReader(b), argv)]
      && w.link.books.log == [Delivery(SessionReader(a), EncodeReply(reply))]
  {
    var w0 := Start([], 2);
    SentIs(a, b, argv);
    var w2 := Sent(a, b, argv);
    TailIs(w2, argv, reply, slack);
    var tail := Tail(w2, argv, reply, slack);
    hide Encode, EncodeReply, Framable, Tail, Sendable;
    RunOne(After(w0, Push(a, [])), Push(b, argv), tail);
    RunOne(w0, Push(a, []), [Push(b, argv)] + tail);
    steps := [Push(a, [])] + ([Push(b, argv)] + tail);
    RepliesMatchRequests([], 2, steps);
    DrainedLinkHasAnswered([], 2, steps);
    var cs := Argvs(Run(w0, steps).link.accepted);
    assert cs == [[], argv] && cs[1..] == [argv];
    assert NonEmpty(cs) == [argv] + [];
  }

  // ---- the auth gate

  lemma AuthNeedsStatus(log: seq<Delivery>)
    requires log != [] && AuthFrom(false, log)
    requires forall i :: 1 <= i < |log| ==> log[i].reader != AuthReader
    ensures log[0].reader == AuthReader && log[0].reply != [] && log[0].reply[0] == PLUS
  {
    SessionsDoNotMatter(AuthAfter(false, log[0]), log[1..]);
  }

  lemma StartsWithAuth(w: World, password: bytes)
    requires Outgoing(w) && Gate(w, password) && password != [] && w.link.accepted != []
    ensures Encode([AUTH, password]) <= w.written + w.link.send
  {
    hide Encode;
    var cs := Argvs(w.link.accepted);
    assert cs[0] == [AUTH, password];
  }

  /** What it takes for a session's request to be accepted. */
  ghost predicate LetIn(w: World, i: nat) {
    && i > 0 && |w.answers| > 0 && |w.link.books.log| > 0
    && EncodeReply(w.answers[0].reply) != [] && EncodeReply(w.answers[0].reply)[0] == PLUS
  }

  lemma OthersWereLetIn(w: World, password: bytes)
    requires Matched(w) && Gate(w, password) && password != [] && |w.link.accepted| > 1
    ensures LetIn(w, 1)
  {
    hide EncodeReply;
    var accepted, log := w.link.accepted, w.link.books.log;
    forall i | 1 <= i < |log| ensures log[i].reader != AuthReader {
      assert log[i].reader == accepted[i].reader;
    }
    AuthNeedsStatus(log);
  }

  /**
   * With a password the stream to the server starts with AUTH, and a session's request gets in only after
   * the reply to AUTH has come and was a status line.
   */
  lemma AuthGate(password: bytes, capacity: nat, steps: seq<Step>)
    requires Reached(password, capacity, steps) && password != []
    ensures var w := Run(Start(password, capacity), steps);
      && (w.link.accepted != [] ==> Encode([AUTH, password]) <= w.written + w.link.send)
      && forall i :: 0 <= i < |w.link.accepted| && w.link.accepted[i].reader != AuthReader ==> LetIn(w, i)
  {
    var p, slack := ReachedInv(password, capacity, steps);
    hide Run, Start, Inv, LetIn;
    GateHolds(Run(Start(password, capacity), steps), password, p, slack);
  }

  function Ascii(s: string): bytes
    requires forall i :: 0 <= i < |s| ==> s[i] < 128 as char
  {
    seq(|s|, i requires 0 <= i < |s| => s[i] as int)
  }

  /** The bytes of the AUTH request. */
  lemma AuthOnTheWire(password: bytes)
    ensures Encode([AUTH, password])
         == Ascii("*2\r\n$4\r\nauth\r\n$") + (Decimal.Digits(|password|) + (CRLF + (password + CRLF)))
    ensures CRLF == Ascii("\r\n")
  {
    hide *;
    AuthArgs(password);
    AuthFront();
    ArgParts(password);
    var rest := Decimal.Digits(|password|) + (CRLF + (password + CRLF));
    Regroup(Header(STAR, 2), EncodeArg(AUTH), [DOLLAR] + rest);
    Regroup(Header(STAR, 2) + EncodeArg(AUTH), [DOLLAR], rest);
  }

  lemma ArgParts(arg: bytes)
    ensures EncodeArg(arg) == [DOLLAR] + (Decimal.Digits(|arg|) + (CRLF + (arg + CRLF)))
  {
    var n := Decimal.Digits(|arg|);
    assert EncodeArg(arg) == [DOLLAR] + n + CRLF + arg + CRLF;
    hide *;
    Regroup([DOLLAR] + n + CRLF, arg, CRLF);
    Regroup([DOLLAR] + n, CRLF, arg + CRLF);
    Regroup([DOLLAR], n, CRLF + (arg + CRLF));
  }

  lemma AuthArgs(password: bytes)
    ensures Encode([AUTH, password]) == Header(STAR, 2) + (EncodeArg(AUTH) + EncodeArg(password))
  {
    var argv: Argv := [AUTH, password];
    hide EncodeArg, Header;
    assert argv[1..] == [password] && [password][1..] == [];
    assert EncodeArgs([password]) == EncodeArg(password) + [] == EncodeArg(password);
  }

  const AUTH_FRONT: bytes := [42, 50, 13, 10, 36, 52, 13, 10, 97, 117, 116, 104, 13, 10, 36]

  lemma AuthFront()
    ensures Header(STAR, 2) + EncodeArg(AUTH) + [DOLLAR] == Ascii("*2\r\n$4\r\nauth\r\n$")
    ensures CRLF == Ascii("\r\n")
  {
    AuthFrontIs();
    hide Header, EncodeArg;
    assert Ascii("*2\r\n$4\r\nauth\r\n$") == AUTH_FRONT;
  }

  lemma AuthFrontIs()
    ensures Header(STAR, 2) + EncodeArg(AUTH) + [DOLLAR] == AUTH_FRONT
  {
    assert Decimal.Digits(2) == [50] && Decimal.Digits(4) == [52];
    assert Header(STAR, 2) == [42, 50, 13, 10];
    assert Header(DOLLAR, 4) == [36, 52, 13, 10];
  }

  /** Somebody is let in at once without a password, and with one as soon as AUTH was answered by a status line. */
  lemma LetInIff(password: bytes, capacity: nat, steps: seq<Step>)
    requires Reached(password, capacity, steps)
    ensures var w := Run(Start(password, capacity), steps);
      && |w.link.books.log| <= |w.answers|
      && (w.link.books.auth <==>
            password == [] || (w.link.books.log != [] && [PLUS] <= EncodeReply(w.answers[0].reply)))
  {
    var p, slack := ReachedInv(password, capacity, steps);
    hide Run, Start, Inv;
    FirstReplyDecides(Run(Start(password, capacity), steps), password, p, slack);
  }

  lemma FirstReplyDecides(w: World, password: bytes, p: bytes, slack: bytes)
    requires Inv(w, password, p, slack)
    ensures |w.link.books.log| <= |w.answers|
    ensures w.link.books.auth <==>
      password == [] || (w.link.books.log != [] && [PLUS] <= EncodeReply(w.answers[0].reply))
  {
    hide Outgoing, EncodeReply, EncodeReplies, Midway;
    var accepted, log := w.link.accepted, w.link.books.log;
    assert forall i :: 0 <= i < |log| ==> log[i].reader == accepted[i].reader;
    if password == [] || log == [] {
      SessionsDoNotMatter(password == [], log);
    } else {
      SessionsDoNotMatter(AuthAfter(false, log[0]), log[1..]);
      assert log[0] == Delivery(AuthReader, EncodeReply(w.answers[0].reply));
    }
  }

  lemma {:induction false} CapacityStays(w: World, steps: seq<Step>)
    requires LegalRun(w, steps)
    ensures Run(w, steps).link.capacity == w.link.capacity
    decreases |steps|
  {
    if steps != [] {
      var v := After(w, steps[0]);
      CapacityStays(v, steps[1..]);
      hide ServerRead, Encode, EncodeReply;
      assert v.link.capacity == w.link.capacity;
    }
  }

  /**
   * In every run a session's request is accepted iff fewer than `capacity` requests wait for their replies and,
   * with a password, AUTH was answered by a status line. Then the reader is queued and the request is to be sent;
   * otherwise nothing changes.
   */
  lemma PushIsAcceptedIff(password: bytes, capacity: nat, steps: seq<Step>, id: nat, argv: Argv)
    requires Reached(password, capacity, steps) && Sendable(argv)
    ensures var w := Run(Start(password, capacity), steps); var v := After(w, Push(id, argv));
      && |w.link.books.log| <= |w.answers|
      && if |w.link.books.queue| < capacity
            && (password == [] || (w.link.books.log != [] && [PLUS] <= EncodeReply(w.answers[0].reply)))
         then
           && v.link.accepted == w.link.accepted + [Request(SessionReader(id), argv)]
           && v.link.books.queue == w.link.books.queue + [PairOf(SessionReader(id))]
           && v.link.send == w.link.send + Encode(argv)
         else v == w
  {
    var w := Run(Start(password, capacity), steps);
    LetInIff(password, capacity, steps);
    CapacityStays(Start(password, capacity), steps);
    IsConnected(password, capacity, steps);
    hide Run, LegalRun, Encode, EncodeReply;
  }

  lemma IsConnected(password: bytes, capacity: nat, steps: seq<Step>)
    requires Reached(password, capacity, steps)
    ensures Run(Start(password, capacity), steps).link.connected
  {
    var p, slack := ReachedInv(password, capacity, steps);
  }

  lemma GateHolds(w: World, password: bytes, p: bytes, slack: bytes)
    requires Inv(w, password, p, slack) && password != []
    ensures w.link.accepted != [] ==> Encode([AUTH, password]) <= w.written + w.link.send
    ensures forall i :: 0 <= i < |w.link.accepted| && w.link.accepted[i].reader != AuthReader ==> LetIn(w, i)
  {
    hide Encode, EncodeReply, Outgoing;
    if w.link.accepted != [] {
      StartsWithAuth(w, password);
    }
    if |w.link.accepted| > 1 {
      OthersWereLetIn(w, password);
    }
  }
}
