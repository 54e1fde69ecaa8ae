/** The stream of server replies arriving in pieces: `OnServerRead` called after each piece. */
module ReplyStream {
  import opened Base
  import opened Resp
  import opened RequestMachine
  import opened ReplyMachine
  import opened Replies
  import opened ReplyFraming
  import opened UpstreamMachine
  import opened RequestStream

  /** The parser has seen the bytes p of a reply, with `slack` behind them. */
  ghost predicate Midway(u: State, p: bytes, slack: bytes) {
    if p == [] then u.st == FRESH && u.resp == [] && u.input == []
    else
      var o := ParseResponse(FRESH, [], p, slack);
      u.st == o.st && u.resp == o.resp && u.input == o.rest
  }

  /** The same upstream with a fresh parser in front of the bytes w. */
  function Fresh(u: State, w: bytes): State {
    u.(st := FRESH, resp := [], input := w)
  }

  /** The bytes p are a proper part of the reply that comes next, if one comes. */
  ghost predicate PartOf(p: bytes, rs: seq<Reply>) {
    if rs == [] then p == [] else p < EncodeReply(rs[0])
  }

  /** They end in front of an element of an array. */
  predicate AtElement(p: bytes, rs: seq<Reply>) {
    rs != [] && CutBeforeElement(rs[0], |p|)
  }

  ghost predicate AllFramable(rs: seq<Reply>) {
    forall i :: 0 <= i < |rs| ==> Framable(rs[i])
  }

  /** The replies rs handed to the readers at the head of the queue. */
  function Served(b: Books, rs: seq<Reply>): Books
    requires |rs| <= |b.queue|
    decreases |rs|
  {
    if rs == [] then b else Served(Hand(b, EncodeReply(rs[0])), rs[1..])
  }

  /** Nothing of an earlier call is forgotten: reading on is reading everything since the last reply ended. */
  lemma ReadsOn(u: State, rs: seq<Reply>, p: bytes, s1: bytes, c: bytes, s2: bytes)
    requires Midway(u, p, s1) && PartOf(p, rs) && AllFramable(rs) && c != []
    ensures ReplyReady(u.st)
    ensures ServerRead(u.(input := u.input + c), s2) == ServerRead(Fresh(u, p + c), s2)
  {
    if p == [] {
      assert u.input + c == c == p + c;
    } else {
      assert Framable(rs[0]);
      PartOfReply(rs[0], p, s1);
      ResponseConserves(FRESH, [], p, s1);
      ResponseResumes(FRESH, [], p, c, s1, s2);
    }
  }

  /** One whole reply at the front of the input goes to the first reader. */
  lemma ReadsOne(u: State, r: Reply, w: bytes, slack: bytes)
    requires Framable(r) && u.books.queue != []
    ensures ServerRead(Fresh(u, EncodeReply(r) + w), slack)
         == ServerRead(State(Hand(u.books, EncodeReply(r)), FRESH, [], w), slack)
  {
    var e := EncodeReply(r);
    FrameReply(r, w, slack);
    FirstOfReply(r);
    assert e + w != [];
    assert Next(State(u.books, ReplyDone(r), e, w)) == State(Hand(u.books, e), FRESH, [], w);
  }

  /** What a call comes to: k whole replies handed on, and p left over in the parser. */
  ghost predicate Serves(b: Books, rs: seq<Reply>, w: bytes, r: ReadOut, slack: bytes, k: nat, p: bytes)
    requires |rs| <= |b.queue|
  {
    && k <= |rs| && w == EncodeReplies(rs[..k]) + p && PartOf(p, rs[k..])
    && r.err == (if AtElement(p, rs[k..]) then OutOfBound else OK)
    && r.state.books == Served(b, rs[..k]) && Midway(r.state, p, slack)
  }

  lemma StopsShort(u: State, rs: seq<Reply>, w: bytes, slack: bytes)
    requires PartOf(w, rs) && AllFramable(rs) && |rs| <= |u.books.queue|
    ensures Serves(u.books, rs, w, ServerRead(Fresh(u, w), slack), slack, 0, w)
  {
    assert rs[..0] == [] && rs[0..] == rs && [] + w == w;
    if w != [] {
      assert Framable(rs[0]);
      PartOfReply(rs[0], w, slack);
    }
  }

  lemma ServesMore(b: Books, rs: seq<Reply>, w: bytes, r: ReadOut, slack: bytes, k: nat, p: bytes)
    requires rs != [] && |rs| <= |b.queue|
    requires Serves(Hand(b, EncodeReply(rs[0])), rs[1..], w, r, slack, k, p)
    ensures Serves(b, rs, EncodeReply(rs[0]) + w, r, slack, k + 1, p)
  {
    assert rs[..k + 1][1..] == rs[1..][..k] && rs[k + 1..] == rs[1..][k..];
    Regroup(EncodeReply(rs[0]), EncodeReplies(rs[1..][..k]), p);
  }

  /** A prefix of the stream is part of the first reply, or that reply and a prefix of the rest. */
  lemma FirstOfStream(rs: seq<Reply>, w: bytes)
    requires w <= EncodeReplies(rs)
    ensures rs == [] || |w| < |EncodeReply(rs[0])| ==> PartOf(w, rs)
    ensures rs != [] && |w| >= |EncodeReply(rs[0])| ==>
      var e := EncodeReply(rs[0]); w == e + w[|e|..] && w[|e|..] <= EncodeReplies(rs[1..])
  {
    if rs != [] {
      var e, tail := EncodeReply(rs[0]), EncodeReplies(rs[1..]);
      assert w <= e + tail;
      hide EncodeReply, EncodeReplies;
      if |w| < |e| {
        assert w == (e + tail)[..|w|] == e[..|w|];
      } else {
        PrefixBehind(e, tail, w);
      }
    }
  }

  lemma PrefixBehind(e: bytes, tail: bytes, w: bytes)
    requires w <= e + tail && |w| >= |e|
    ensures w == e + w[|e|..] && w[|e|..] <= tail
  {
    assert w == (e + tail)[..|w|];
    assert w[|e|..] == tail[..|w| - |e|];
  }

  /** A call on the bytes w of a reply stream hands on exactly the replies that are whole. */
  lemma {:induction false} ReadsReplies(u: State, rs: seq<Reply>, w: bytes, slack: bytes) returns (k: nat, p: bytes)
    requires AllFramable(rs) && |rs| <= |u.books.queue| && w <= EncodeReplies(rs)
    ensures Serves(u.books, rs, w, ServerRead(Fresh(u, w), slack), slack, k, p)
    decreases |rs|
  {
    hide Serves, ServerRead, EncodeReply, EncodeReplies, PartOf, Hand;
    FirstOfStream(rs, w);
    if rs == [] || |w| < |EncodeReply(rs[0])| {
      StopsShort(u, rs, w, slack);
      k, p := 0, w;
    } else {
      var e := EncodeReply(rs[0]);
      var w' := w[|e|..];
      var u' := State(Hand(u.books, e), FRESH, [], w');
      ReadsOne(u, rs[0], w', slack);
      k, p := ReadsReplies(u', rs[1..], w', slack);
      ServesMore(u.books, rs, w', ServerRead(u', slack), slack, k, p);
      k := k + 1;
    }
  }

  // ---- whole streams

  /** One call of `OnServerRead` after each piece, until a reply comes that nobody asked for. */
  function Receive(u: State, chunks: seq<Chunk>): State
    requires ReplyReady(u.st)
    decreases |chunks|
  {
    if chunks == [] then u
    else
      var v := u.(input := u.input + chunks[0].data);
      var r := ServerRead(v, chunks[0].slack);
      StaysReady(v, chunks[0].slack);
      if r.err == Empty then r.state else Receive(r.state, chunks[1..])
  }

  lemma OnePiece(u: State, c: bytes, slack: bytes)
    requires ReplyReady(u.st) && Present(u.books.queue)
    ensures var r := ServerRead(u.(input := u.input + c), slack).state;
      && Present(r.books.queue) && Total(r) == Total(u) + c
      && u.books.log <= r.books.log && Readers(r.books.log) + r.books.queue == Readers(u.books.log) + u.books.queue
  {
    var v := u.(input := u.input + c);
    ReadKeepsPresent(v, slack);
    ReadConserves(v, slack);
    ReadIsFifo(v, slack);
    hide ServerRead, Readers;
    Regroup(Forwarded(u.books.log) + u.resp, u.input, c);
  }

  /**
   * Over every run of calls, whatever bytes the server sends: after the first n pieces the bytes handed on, the
   * partial reply and the unread input are together the bytes received, and served and waiting readers are
   * those of the start in the same order. Pieces are left over only when a reply came that nobody asked for.
   */
  lemma {:induction false} ReceiveConserves(u: State, chunks: seq<Chunk>) returns (n: nat)
    requires ReplyReady(u.st) && Present(u.books.queue)
    ensures n <= |chunks|
    ensures var v := Receive(u, chunks);
      && Total(v) == Total(u) + Received(chunks[..n])
      && (n < |chunks| ==> v.books.queue == [])
      && u.books.log <= v.books.log && Readers(v.books.log) + v.books.queue == Readers(u.books.log) + u.books.queue
    decreases |chunks|
  {
    hide ServerRead, Readers, Total;
    if chunks == [] {
      n := 0;
      assert chunks[..0] == [] && Total(u) + [] == Total(u);
    } else {
      var c := chunks[0];
      var v := u.(input := u.input + c.data);
      OnePiece(u, c.data, c.slack);
      StaysReady(v, c.slack);
      var r := ServerRead(v, c.slack);
      var m := 0;
      if r.err == Empty {
        assert Total(r.state) + [] == Total(r.state);
      } else {
        m := ReceiveConserves(r.state, chunks[1..]);
      }
      n := m + 1;
      assert chunks[..n][1..] == chunks[1..][..m];
      Regroup(Total(u), c.data, Received(chunks[1..][..m]));
    }
  }

  /** The state after the bytes w of the stream rs: k whole replies handed on, and p left over. */
  ghost predicate Stands(b: Books, rs: seq<Reply>, w: bytes, u: State, k: nat, p: bytes, slack: bytes)
    requires |rs| <= |b.queue|
  {
    && k <= |rs| && w == EncodeReplies(rs[..k]) + p && PartOf(p, rs[k..])
    && u.books == Served(b, rs[..k]) && Midway(u, p, slack)
  }

  lemma {:induction false} ServedQueue(b: Books, rs: seq<Reply>)
    requires |rs| <= |b.queue|
    ensures Served(b, rs).queue == b.queue[|rs|..]
    decreases |rs|
  {
    if rs != [] {
      ServedQueue(Hand(b, EncodeReply(rs[0])), rs[1..]);
    }
  }

  lemma DropOne<T>(s: seq<T>, k: nat, j: nat)
    requires 0 < k && k + j <= |s|
    ensures s[..k][1..] == s[1..][..k - 1] && s[k..] == s[1..][k - 1..]
    ensures s[..k + j][1..] == s[1..][..k + j - 1]
  {
  }

  lemma {:induction false} ServedMore(b: Books, rs: seq<Reply>, k: nat, j: nat)
    requires k + j <= |rs| <= |b.queue|
    ensures |rs[k..]| <= |Served(b, rs[..k]).queue|
    ensures Served(Served(b, rs[..k]), rs[k..][..j]) == Served(b, rs[..k + j])
    decreases k
  {
    ServedQueue(b, rs[..k]);
    if k == 0 {
      assert rs[0..] == rs && rs[..0] == [];
    } else {
      var b' := Hand(b, EncodeReply(rs[0]));
      DropOne(rs, k, j);
      hide *;
      ServedFirst(b, rs[..k]);
      ServedFirst(b, rs[..k + j]);
      ServedMore(b', rs[1..], k - 1, j);
    }
  }

  lemma ServedFirst(b: Books, rs: seq<Reply>)
    requires 0 < |rs| <= |b.queue|
    ensures Served(b, rs) == Served(Hand(b, EncodeReply(rs[0])), rs[1..])
  {
    hide Hand, EncodeReply;
  }

  lemma TakeTwice<T>(s: seq<T>, k: nat, j: nat)
    requires k + j <= |s|
    ensures s[..k] + s[k..][..j] == s[..k + j]
    ensures s[k + j..] == s[k..][j..]
  {
  }

  lemma SplitReplies(rs: seq<Reply>, k: nat, j: nat)
    requires k + j <= |rs|
    ensures EncodeReplies(rs[..k + j]) == EncodeReplies(rs[..k]) + EncodeReplies(rs[k..][..j])
    ensures rs[k + j..] == rs[k..][j..]
  {
    hide EncodeReplies;
    TakeTwice(rs, k, j);
    EncodeRepliesAppend(rs[..k], rs[k..][..j]);
  }

  lemma DropPrefix(e: bytes, x: bytes, tail: bytes)
    requires e + x <= e + tail
    ensures x <= tail
  {
    assert x == (e + x)[|e|..] == (e + tail)[..|e + x|][|e|..] == tail[..|x|];
  }

  lemma CutReplies(rs: seq<Reply>, k: nat)
    requires k <= |rs|
    ensures EncodeReplies(rs) == EncodeReplies(rs[..k]) + EncodeReplies(rs[k..])
  {
    hide EncodeReplies;
    EncodeRepliesAppend(rs[..k], rs[k..]);
    assert rs[..k] + rs[k..] == rs;
  }

  /** What is left of the stream behind k replies. */
  lemma RestOfStream(rs: seq<Reply>, k: nat, p: bytes, c: bytes)
    requires k <= |rs| && (EncodeReplies(rs[..k]) + p) + c <= EncodeReplies(rs)
    ensures p + c <= EncodeReplies(rs[k..])
  {
    hide EncodeReplies;
    CutReplies(rs, k);
    var e, tail := EncodeReplies(rs[..k]), EncodeReplies(rs[k..]);
    Regroup(e, p, c);
    DropPrefix(e, p + c, tail);
  }

  lemma ReceivedMore(b: Books, rs: seq<Reply>, w: bytes, k: nat, p: bytes, c: bytes, r: ReadOut, slack: bytes,
                     j: nat, p': bytes)
    requires k <= |rs| <= |b.queue| && w == EncodeReplies(rs[..k]) + p
    requires |rs[k..]| <= |Served(b, rs[..k]).queue|
    requires Serves(Served(b, rs[..k]), rs[k..], p + c, r, slack, j, p')
    ensures k + j <= |rs| && r.err == (if AtElement(p', rs[k + j..]) then OutOfBound else OK)
    ensures Stands(b, rs, w + c, r.state, k + j, p', slack)
  {
    hide EncodeReplies, AtElement, Midway, PartOf;
    SplitReplies(rs, k, j);
    ServedMore(b, rs, k, j);
    var e, e' := EncodeReplies(rs[..k]), EncodeReplies(rs[k..][..j]);
    Regroup(e, p, c);
    Regroup(e, e', p');
  }

  /** One more piece of the stream. */
  lemma ReceiveOne(b: Books, rs: seq<Reply>, w: bytes, u: State, k: nat, p: bytes, s1: bytes, c: bytes, s2: bytes)
    returns (k': nat, p': bytes)
    requires AllFramable(rs) && |rs| <= |b.queue| && Stands(b, rs, w, u, k, p, s1)
    requires c != [] && w + c <= EncodeReplies(rs)
    ensures ReplyReady(u.st) && k <= k'
    ensures var r := ServerRead(u.(input := u.input + c), s2);
      && k' <= |rs| && r.err == (if AtElement(p', rs[k'..]) then OutOfBound else OK)
      && Stands(b, rs, w + c, r.state, k', p', s2)
  {
    hide *;
    StandsIs(b, rs, w, u, k, p, s1);
    RestOfStream(rs, k, p, c);
    ReadsOn(u, rs[k..], p, s1, c, s2);
    var j;
    j, p' := ReadsReplies(u, rs[k..], p + c, s2);
    var r := ServerRead(u.(input := u.input + c), s2);
    ReceivedMore(b, rs, w, k, p, c, r, s2, j, p');
    k' := k + j;
  }

  lemma StandsIs(b: Books, rs: seq<Reply>, w: bytes, u: State, k: nat, p: bytes, slack: bytes)
    requires AllFramable(rs) && |rs| <= |b.queue| && Stands(b, rs, w, u, k, p, slack)
    ensures k <= |rs| && w == EncodeReplies(rs[..k]) + p && PartOf(p, rs[k..]) && Midway(u, p, slack)
    ensures u.books == Served(b, rs[..k]) && |rs[k..]| <= |u.books.queue| && AllFramable(rs[k..])
  {
    hide EncodeReplies, Midway, PartOf, Framable;
    ServedMore(b, rs, k, 0);
  }

  lemma {:induction false} ReceiveAll(b: Books, rs: seq<Reply>, w: bytes, u: State, k: nat, p: bytes, s: bytes,
                                      chunks: seq<Chunk>)
    returns (k': nat, p': bytes, s': bytes)
    requires AllFramable(rs) && |rs| <= |b.queue| && Stands(b, rs, w, u, k, p, s) && ReplyReady(u.st)
    requires forall i :: 0 <= i < |chunks| ==> chunks[i].data != []
    requires w + Received(chunks) <= EncodeReplies(rs)
    ensures Stands(b, rs, w + Received(chunks), Receive(u, chunks), k', p', s')
    decreases |chunks|
  {
    if chunks == [] {
      assert w + [] == w;
      k', p', s' := k, p, s;
    } else {
      var c := chunks[0];
      var rest := Received(chunks[1..]);
      Regroup(w, c.data, rest);
      assert w + c.data <= (w + c.data) + rest;
      k', p' := ReceiveOne(b, rs, w, u, k, p, s, c.data, c.slack);
      var v := u.(input := u.input + c.data);
      StaysReady(v, c.slack);
      k', p', s' := ReceiveAll(b, rs, w + c.data, ServerRead(v, c.slack).state, k', p', c.slack, chunks[1..]);
    }
  }

  // ---- calls that make no room

  /** The first `cut` bytes of the stream end in front of an element of an array. */
  predicate CutAtElement(rs: seq<Reply>, cut: nat) {
    && rs != []
    && var e := |EncodeReply(rs[0])|;
      if cut < e then CutBeforeElement(rs[0], cut) else CutAtElement(rs[1..], cut - e)
  }

  lemma FirstEncoded(rs: seq<Reply>, k: nat)
    requires 0 < k <= |rs|
    ensures EncodeReplies(rs[..k]) == EncodeReply(rs[0]) + EncodeReplies(rs[1..][..k - 1])
    ensures rs[k..] == rs[1..][k - 1..]
  {
    hide EncodeReply;
    DropOne(rs, k, 0);
  }

  lemma CutInFirst(rs: seq<Reply>, p: bytes)
    requires PartOf(p, rs)
    ensures CutAtElement(rs, |p|) <==> AtElement(p, rs)
  {
    hide EncodeReply, CutBeforeElement;
  }

  lemma CutBehindFirst(rs: seq<Reply>, cut: nat)
    requires rs != []
    ensures CutAtElement(rs, |EncodeReply(rs[0])| + cut) <==> CutAtElement(rs[1..], cut)
  {
    hide EncodeReply, CutBeforeElement;
  }

  lemma {:induction false} CutAfterReplies(rs: seq<Reply>, k: nat, p: bytes)
    requires k <= |rs| && PartOf(p, rs[k..])
    ensures CutAtElement(rs, |EncodeReplies(rs[..k])| + |p|) <==> AtElement(p, rs[k..])
    decreases k
  {
    hide *;
    if k == 0 {
      NothingEncoded(rs);
      CutInFirst(rs, p);
    } else {
      FirstEncoded(rs, k);
      CutBehindFirst(rs, |EncodeReplies(rs[1..][..k - 1])| + |p|);
      CutAfterReplies(rs[1..], k - 1, p);
    }
  }

  lemma NothingEncoded(rs: seq<Reply>)
    ensures EncodeReplies(rs[..0]) == [] && rs[0..] == rs
  {
  }

  /**
   * However a stream of framable replies is cut into pieces, the call on the last piece c ends with OK, and makes
   * room for the next read, iff the stream received so far does not end in front of an element of an array.
   * Otherwise it ends with OutOfBound.
   */
  lemma MakesRoomIff(u: State, rs: seq<Reply>, chunks: seq<Chunk>, c: Chunk)
    requires u.st == FRESH && u.resp == [] && u.input == [] && AllFramable(rs) && |rs| <= |u.books.queue|
    requires c.data != [] && forall i :: 0 <= i < |chunks| ==> chunks[i].data != []
    requires Received(chunks) + c.data <= EncodeReplies(rs)
    ensures var v := Receive(u, chunks);
      && ReplyReady(v.st)
      && ServerRead(v.(input := v.input + c.data), c.slack).err
         == if CutAtElement(rs, |Received(chunks)| + |c.data|) then OutOfBound else OK
  {
    hide *;
    var w := Received(chunks);
    StandsAtStart(u, rs);
    var none: bytes := [];
    assert none + w == w;
    var k, p, s := ReceiveAll(u.books, rs, none, u, 0, [], [], chunks);
    var v := Receive(u, chunks);
    var k', p' := ReceiveOne(u.books, rs, w, v, k, p, s, c.data, c.slack);
    StandsCut(u.books, rs, w + c.data, ServerRead(v.(input := v.input + c.data), c.slack).state, k', p', c.slack);
  }

  lemma StandsAtStart(u: State, rs: seq<Reply>)
    requires u.st == FRESH && u.resp == [] && u.input == [] && AllFramable(rs) && |rs| <= |u.books.queue|
    ensures ReplyReady(u.st) && Stands(u.books, rs, [], u, 0, [], [])
  {
    assert rs[..0] == [] && rs[0..] == rs;
  }

  lemma StandsCut(b: Books, rs: seq<Reply>, w: bytes, u: State, k: nat, p: bytes, slack: bytes)
    requires AllFramable(rs) && |rs| <= |b.queue| && Stands(b, rs, w, u, k, p, slack)
    ensures k <= |rs| && (CutAtElement(rs, |w|) <==> AtElement(p, rs[k..]))
  {
    hide *;
    StandsIs(b, rs, w, u, k, p, slack);
    CutAfterReplies(rs, k, p);
  }

  /** One call in the middle of a stream. */
  lemma ServesPiece(u: State, rs: seq<Reply>, p: bytes, s1: bytes, c: bytes, s2: bytes) returns (j: nat, p': bytes)
    requires Midway(u, p, s1) && PartOf(p, rs) && AllFramable(rs) && |rs| <= |u.books.queue|
    requires c != [] && p + c <= EncodeReplies(rs)
    ensures ReplyReady(u.st)
    ensures var r := ServerRead(u.(input := u.input + c), s2);
      ReplyReady(r.state.st) && Serves(u.books, rs, p + c, r, s2, j, p')
  {
    hide ServerRead, EncodeReplies, Midway, PartOf;
    ReadsOn(u, rs, p, s1, c, s2);
    j, p' := ReadsReplies(u, rs, p + c, s2);
    StaysReady(u.(input := u.input + c), s2);
  }
}
