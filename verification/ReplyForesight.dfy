/**
 * Replies in pieces, when the memory behind each piece holds the bytes that come next: then the pieces do not
 * matter at all, whatever the server sends.
 */
module ReplyForesight {
  import opened Base
  import opened Decimal
  import opened Scanner
  import opened RequestMachine
  import opened ReplyMachine
  import opened Replies
  import opened UpstreamMachine
  import opened RequestStream
  import opened ReplyStream

  lemma ReadIntForesees(a: bytes, b: bytes, s: bytes)
    requires ReadInt(a, b + s).Found?
    ensures ReadInt(a + b, s) == ReadInt(a, b + s).(rest := ReadInt(a, b + s).rest + b)
    ensures ReadInt(a, b + s).value <= INT32_MAX
  {
    ReadIntShorter(a, b, b + s, s);
    Regroup(ReadInt(a, b + s).rest, b, s);
  }

  lemma {:induction false} LoopForesees(m: Multibulk, resp: bytes, a: bytes, b: bytes, s: bytes)
    requires 0 <= m.bulk <= INT32_MAX
    ensures ReplyExtends(ReplyLoop(m, resp, a, b + s), ReplyLoop(m, resp, a + b, s), b, s)
    decreases m.len - m.index
  {
    hide ReadInt;
    if m.index < m.len {
      if m.bulk == 0 {
        var h := ReadInt(a, b + s);
        if h.Found? {
          ReadIntForesees(a, b, s);
          if h.value <= 0 {
            LoopForesees(Multibulk(m.len, m.index + 1, 0), resp + h.line, h.rest, b, s);
          } else {
            BulkForesees(m.(bulk := h.value), resp + h.line, h.rest, b, s);
          }
        }
      } else {
        BulkForesees(m, resp, a, b, s);
      }
    }
  }

  lemma {:induction false} BulkForesees(m: Multibulk, resp: bytes, a: bytes, b: bytes, s: bytes)
    requires m.index < m.len && 0 < m.bulk <= INT32_MAX
    ensures ReplyExtends(ReadReplyBulk(m, resp, a, b + s), ReadReplyBulk(m, resp, a + b, s), b, s)
    decreases m.len - m.index, 0
  {
    hide *;
    StopsOrTakes(m, resp, a, b + s);
    StopsOrTakes(m, resp, a + b, s);
    var n := ReadLength(m.bulk);
    if n <= |a| {
      TakenOfBoth(a, b, n);
      LoopForesees(Multibulk(m.len, m.index + 1, 0), resp + Taken(a, n), a[n..], b, s);
    } else {
      StillStopped(m, resp, a, b, s);
    }
  }

  lemma MultibulkForesees(m: Multibulk, resp: bytes, a: bytes, b: bytes, s: bytes)
    requires Resumable(m) && 0 <= m.bulk <= INT32_MAX && a != [] && b != []
    ensures var r := HandleResponse(m, resp, a, b + s);
      && (r.err == OK ==> HandleResponse(m, resp, a + b, s) == r.(rest := r.rest + b))
      && (r.err != OK ==> HandleResponse(r.mb, r.resp, r.rest + b, s) == HandleResponse(m, resp, a + b, s))
  {
    assert (a + b)[0] == a[0];
    if m.len == 0 && a[0] == STAR {
      var h := ReadInt(a, b + s);
      if h.Found? {
        ReadIntForesees(a, b, s);
        ReplyLoopKeeps(m.(len := h.value), resp + h.line, h.rest, b + s);
        LoopForesees(m.(len := h.value), resp + h.line, h.rest, b, s);
      }
    } else {
      var m' := if m.len == 0 then m.(len := 1) else m;
      ReplyLoopKeeps(m', resp, a, b + s);
      LoopForesees(m', resp, a, b, s);
    }
  }

  lemma ResponseForesees(st: ParserState, resp: bytes, a: bytes, b: bytes, s: bytes)
    requires ReplyReady(st) && a != [] && b != []
    ensures var r := ParseResponse(st, resp, a, b + s); var o := ParseResponse(st, resp, a + b, s);
      && (r.err == OK || r.err == Unknown ==> o == r.(rest := r.rest + b))
      && (r.err != OK ==> ParseResponse(r.st, r.resp, r.rest + b, s) == o)
  {
    var kind := ReplyKind(st.kind, a[0]);
    assert (a + b)[0] == a[0];
    hide HandleResponse;
    if kind == MultibulkType {
      MultibulkConserves(st.mb, resp, a, b + s);
      MultibulkForesees(st.mb, resp, a, b, s);
    } else if kind == InlineType {
      LineResumes(ParserState(kind, st.mb), resp, a, b);
    }
  }

  /** Two calls are one call. */
  lemma {:induction false} CallForesees(u: State, b: bytes, s: bytes)
    requires ReplyReady(u.st) && b != []
    ensures var r := ServerRead(u, b + s); var o := ServerRead(u.(input := u.input + b), s);
      && (r.err == Empty ==> o.state.books == r.state.books)
      && (r.err != Empty ==>
            ReplyReady(r.state.st) && ServerRead(r.state.(input := r.state.input + b), s) == o)
    decreases |u.input|
  {
    StaysReady(u, b + s);
    if u.input != [] {
      var p := ParseResponse(u.st, u.resp, u.input, b + s);
      ResponseForesees(u.st, u.resp, u.input, b, s);
      ResponseConserves(u.st, u.resp, u.input, b + s);
      if p.err == OK && u.books.queue != [] {
        var v := Parsed(u, b + s);
        CallForesees(Next(v), b, s);
        assert Next(v.(input := v.input + b)) == Next(v).(input := Next(v).input + b);
      }
    }
  }

  /** The pieces, each with the later pieces behind it in memory. */
  function Foreseen(pieces: seq<bytes>): (chunks: seq<Chunk>)
    ensures |chunks| == |pieces|
    ensures Received(chunks) == Joined(pieces)
    ensures forall i :: 0 <= i < |chunks| ==> chunks[i].data == pieces[i]
  {
    if pieces == [] then [] else [Chunk(pieces[0], Joined(pieces[1..]))] + Foreseen(pieces[1..])
  }

  function Joined(pieces: seq<bytes>): bytes {
    if pieces == [] then [] else pieces[0] + Joined(pieces[1..])
  }

  /** A run over the pieces hands on what one call on all the bytes does. */
  lemma {:induction false} PiecesForesee(u: State, pieces: seq<bytes>)
    requires ReplyReady(u.st) && pieces != [] && forall i :: 0 <= i < |pieces| ==> pieces[i] != []
    ensures Receive(u, Foreseen(pieces)).books
         == ServerRead(u.(input := u.input + Joined(pieces)), []).state.books
    decreases |pieces|
  {
    var c, rest := pieces[0], Joined(pieces[1..]);
    var v := u.(input := u.input + c);
    Regroup(u.input, c, rest);
    StaysReady(v, rest);
    if |pieces| == 1 {
      assert rest == [] && c + [] == c;
    } else {
      assert rest + [] == rest;
      CallForesees(v, rest, []);
      var r := ServerRead(v, rest);
      if r.err != Empty {
        PiecesForesee(r.state, pieces[1..]);
      }
    }
  }
}
