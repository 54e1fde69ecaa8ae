/** Server replies: nothing is lost on any input, and well-formed replies are cut where they end. */
module Replies {
  import opened Base
  import opened Decimal
  import opened Resp
  import opened Scanner
  import opened RequestMachine
  import opened ReplyMachine

  // ---- any bytes at all

  ghost predicate LoopKeeps(m: Multibulk, resp: bytes, inp: bytes, r: ReplyOut) {
    && r.resp + r.rest == resp + inp
    && (r.err == OK || Incomplete(r.err))
    && r.mb.len == m.len && m.index <= r.mb.index
    && 0 <= r.mb.bulk <= INT32_MAX
    && (r.err != OK ==> r.mb.index < r.mb.len)
    && |r.rest| <= |inp|
    && (r.err == OK && m.index < m.len ==> |r.rest| < |inp|)
  }

  lemma {:induction false} ReplyLoopKeeps(m: Multibulk, resp: bytes, inp: bytes, slack: bytes)
    requires 0 <= m.bulk <= INT32_MAX
    ensures LoopKeeps(m, resp, inp, ReplyLoop(m, resp, inp, slack))
    decreases m.len - m.index
  {
    if m.index < m.len {
      if m.bulk == 0 {
        var h := ReadInt(inp, slack);
        if h.Found? {
          Regroup(resp, h.line, h.rest);
          if h.value <= 0 {
            ReplyLoopKeeps(Multibulk(m.len, m.index + 1, 0), resp + h.line, h.rest, slack);
          } else {
            ReplyBulkKeeps(m.(bulk := h.value), resp + h.line, h.rest, slack);
          }
        }
      } else {
        ReplyBulkKeeps(m, resp, inp, slack);
      }
    }
  }

  lemma {:induction false} ReplyBulkKeeps(m: Multibulk, resp: bytes, inp: bytes, slack: bytes)
    requires 0 < m.bulk <= INT32_MAX && m.index < m.len
    ensures LoopKeeps(m, resp, inp, ReadReplyBulk(m, resp, inp, slack))
    decreases m.len - m.index, 0
  {
    var n := ReadLength(m.bulk);
    if inp != [] && n <= |inp| {
      assert n > 0;
      assert inp == inp[..n] + inp[n..];
      Regroup(resp, inp[..n], inp[n..]);
      ReplyLoopKeeps(Multibulk(m.len, m.index + 1, 0), resp + inp[..n], inp[n..], slack);
    }
  }

  /**
   * On arbitrary bytes and for every outcome the response and the unread input together are unchanged,
   * the parser stays resumable unless it reports a reply, and a reported reply consumed input.
   */
  lemma ResponseConserves(st: ParserState, resp: bytes, inp: bytes, slack: bytes)
    requires ReplyReady(st)
    ensures var r := ParseResponse(st, resp, inp, slack);
      && r.resp + r.rest == resp + inp
      && r.err in {OK, TryAgain, OutOfBound, Unknown}
      && (r.err != OK ==> ReplyReady(r.st))
      && (r.err == OK ==> |r.rest| < |inp|)
  {
    hide HandleResponse;
    if inp != [] {
      var kind := ReplyKind(st.kind, inp[0]);
      if kind == MultibulkType {
        MultibulkConserves(st.mb, resp, inp, slack);
      } else if kind == InlineType {
        var k := Index(inp, LF);
        if k < |inp| {
          assert inp == inp[..k + 1] + inp[k + 1..];
        }
      }
    }
  }

  lemma MultibulkConserves(m: Multibulk, resp: bytes, inp: bytes, slack: bytes)
    requires Resumable(m) && 0 <= m.bulk <= INT32_MAX && inp != []
    ensures var r := HandleResponse(m, resp, inp, slack);
      && r.resp + r.rest == resp + inp
      && (r.err == OK || Incomplete(r.err))
      && 0 <= r.mb.bulk <= INT32_MAX
      && (r.err != OK ==> Resumable(r.mb))
      && (r.err == OK ==> |r.rest| < |inp|)
  {
    if m.len == 0 && inp[0] == STAR {
      var h := ReadInt(inp, slack);
      if h.Found? {
        Regroup(resp, h.line, h.rest);
        ReplyLoopKeeps(m.(len := h.value), resp + h.line, h.rest, slack);
      }
    } else {
      ReplyLoopKeeps(if m.len == 0 then m.(len := 1) else m, resp, inp, slack);
    }
  }

  /** Only the first byte of a reply can be unknown, and then nothing is touched; nor is it without input. */
  lemma UnknownIff(st: ParserState, resp: bytes, inp: bytes, slack: bytes)
    requires ReplyReady(st)
    ensures var r := ParseResponse(st, resp, inp, slack);
      && (r.err == Unknown <==>
            inp != [] && st.kind == NoType && inp[0] !in {STAR, DOLLAR, MINUS, PLUS, COLON})
      && (r.err == Unknown ==> r == ResponseOut(st, resp, inp, Unknown))
      && (inp == [] ==> r == ResponseOut(st, resp, [], TryAgain))
  {
    if inp != [] && ReplyKind(st.kind, inp[0]) == MultibulkType {
      MultibulkConserves(st.mb, resp, inp, slack);
    }
  }

  // ---- resuming

  ghost predicate PlainReplyLoop(m: Multibulk, inp: bytes, slack: bytes)
    decreases m.len - m.index
  {
    m.index < m.len ==>
      if m.bulk == 0 then
        match ReadInt(inp, slack)
        case NoLine(_) => true
        case Found(v, line, rest) =>
          && PlainLine(line)
          && (if v <= 0 then PlainReplyLoop(Multibulk(m.len, m.index + 1, 0), rest, slack)
              else PlainReplyBulk(m.(bulk := v), rest, slack))
      else PlainReplyBulk(m, inp, slack)
  }

  ghost predicate PlainReplyBulk(m: Multibulk, inp: bytes, slack: bytes)
    requires m.index < m.len
    decreases m.len - m.index, 0
  {
    var n := ReadLength(m.bulk);
    n > 0 && (n <= |inp| ==> PlainReplyLoop(Multibulk(m.len, m.index + 1, 0), inp[n..], slack))
  }

  ghost predicate PlainReply(st: ParserState, inp: bytes, slack: bytes) {
    inp != [] && ReplyKind(st.kind, inp[0]) == MultibulkType ==>
      if st.mb.len == 0 then
        if inp[0] == STAR then
          match ReadInt(inp, slack)
          case NoLine(_) => true
          case Found(v, line, rest) => PlainLine(line) && PlainReplyLoop(st.mb.(len := v), rest, slack)
        else PlainReplyLoop(st.mb.(len := 1), inp, slack)
      else PlainReplyLoop(st.mb, inp, slack)
  }

  ghost predicate ReplyExtends(r: ReplyOut, r': ReplyOut, b: bytes, s2: bytes) {
    && (r.err == OK ==> r' == r.(rest := r.rest + b))
    && (r.err != OK ==> r' == ReplyLoop(r.mb, r.resp, r.rest + b, s2))
  }

  /** A bulk of a reply is there, or it is waited for. */
  lemma StopsOrTakes(m: Multibulk, resp: bytes, inp: bytes, slack: bytes)
    requires m.index < m.len
    ensures var n := ReadLength(m.bulk);
      if inp == [] || n > |inp| then ReadReplyBulk(m, resp, inp, slack) == ReplyOut(m, resp, inp, TryAgain)
      else ReadReplyBulk(m, resp, inp, slack)
           == ReplyLoop(Multibulk(m.len, m.index + 1, 0), resp + Taken(inp, n), inp[n..], slack)
    ensures m.bulk > 0 && m.bulk <= INT32_MAX ==> ReadLength(m.bulk) > 0
  {
    hide ReplyLoop;
  }

  lemma TakenOfBoth(a: bytes, b: bytes, n: nat)
    requires 0 < n <= |a|
    ensures Taken(a + b, n) == Taken(a, n) && (a + b)[n..] == a[n..] + b
  {
    CutBehind(a, b, n);
  }

  lemma StillStopped(m: Multibulk, resp: bytes, a: bytes, b: bytes, slack: bytes)
    requires m.index < m.len && m.bulk != 0
    ensures ReplyExtends(ReplyOut(m, resp, a, TryAgain), ReadReplyBulk(m, resp, a + b, slack), b, slack)
  {
    hide ReadReplyBulk;
  }

  lemma PlainBulkIs(m: Multibulk, a: bytes, slack: bytes)
    requires m.index < m.len && PlainReplyBulk(m, a, slack)
    ensures var n := ReadLength(m.bulk);
      n > 0 && (n <= |a| ==> PlainReplyLoop(Multibulk(m.len, m.index + 1, 0), a[n..], slack))
  {
    hide PlainReplyLoop;
  }

  lemma {:induction false} ReplyLoopExtends(m: Multibulk, resp: bytes, a: bytes, b: bytes, s1: bytes, s2: bytes)
    requires PlainReplyLoop(m, a, s1)
    ensures ReplyExtends(ReplyLoop(m, resp, a, s1), ReplyLoop(m, resp, a + b, s2), b, s2)
    decreases m.len - m.index
  {
    hide ReadInt, PlainLine;
    if m.index < m.len {
      if m.bulk == 0 {
        var h := ReadInt(a, s1);
        if h.Found? {
          ReadIntExtends(a, b, s1, s2);
          if h.value <= 0 {
            ReplyLoopExtends(Multibulk(m.len, m.index + 1, 0), resp + h.line, h.rest, b, s1, s2);
          } else {
            ReplyBulkExtends(m.(bulk := h.value), resp + h.line, h.rest, b, s1, s2);
          }
        }
      } else {
        ReplyBulkExtends(m, resp, a, b, s1, s2);
      }
    }
  }

  lemma {:induction false} ReplyBulkExtends(m: Multibulk, resp: bytes, a: bytes, b: bytes, s1: bytes, s2: bytes)
    requires m.index < m.len && m.bulk != 0 && PlainReplyBulk(m, a, s1)
    ensures ReplyExtends(ReadReplyBulk(m, resp, a, s1), ReadReplyBulk(m, resp, a + b, s2), b, s2)
    decreases m.len - m.index, 0
  {
    hide *;
    StopsOrTakes(m, resp, a, s1);
    StopsOrTakes(m, resp, a + b, s2);
    PlainBulkIs(m, a, s1);
    var n := ReadLength(m.bulk);
    if n <= |a| {
      TakenOfBoth(a, b, n);
      ReplyLoopExtends(Multibulk(m.len, m.index + 1, 0), resp + Taken(a, n), a[n..], b, s1, s2);
    } else {
      StillStopped(m, resp, a, b, s2);
    }
  }

  /** A stopped reply parse resumes as if all the bytes had come at once; a finished one ignores later bytes. */
  lemma ResponseResumes(st: ParserState, resp: bytes, a: bytes, b: bytes, s1: bytes, s2: bytes)
    requires ReplyReady(st) && a != [] && b != [] && PlainReply(st, a, s1)
    ensures var r := ParseResponse(st, resp, a, s1);
      && (r.err == OK ==> ParseResponse(st, resp, a + b, s2) == r.(rest := r.rest + b))
      && (Incomplete(r.err) ==> ParseResponse(r.st, r.resp, r.rest + b, s2) == ParseResponse(st, resp, a + b, s2))
  {
    var kind := ReplyKind(st.kind, a[0]);
    assert (a + b)[0] == a[0];
    if kind == MultibulkType {
      MultibulkResumes(st.mb, resp, a, b, s1, s2);
    } else if kind == InlineType {
      LineResumes(ParserState(kind, st.mb), resp, a, b);
    }
  }

  lemma LineResumes(st: ParserState, resp: bytes, a: bytes, b: bytes)
    requires a != []
    ensures var r := LineResponse(st, resp, a);
      && r.st == st
      && (r.err == OK ==> LineResponse(st, resp, a + b) == r.(rest := r.rest + b))
      && (r.err != OK ==> r.resp == resp && r.rest == a)
  {
    IndexStable(a, b, LF);
    var k := Index(a, LF);
    if k < |a| {
      assert (a + b)[..k + 1] == a[..k + 1] && (a + b)[k + 1..] == a[k + 1..] + b;
    }
  }

  lemma MultibulkResumes(m: Multibulk, resp: bytes, a: bytes, b: bytes, s1: bytes, s2: bytes)
    requires Resumable(m) && 0 <= m.bulk <= INT32_MAX && a != [] && b != []
    requires PlainReply(ParserState(MultibulkType, m), a, s1)
    ensures var r := HandleResponse(m, resp, a, s1);
      && (r.err == OK ==> HandleResponse(m, resp, a + b, s2) == r.(rest := r.rest + b))
      && (r.err != OK ==> HandleResponse(r.mb, r.resp, r.rest + b, s2) == HandleResponse(m, resp, a + b, s2))
  {
    assert (a + b)[0] == a[0];
    if m.len == 0 && a[0] == STAR {
      var h := ReadInt(a, s1);
      if h.Found? {
        ReadIntExtends(a, b, s1, s2);
        ReplyLoopKeeps(m.(len := h.value), resp + h.line, h.rest, s1);
        ReplyLoopExtends(m.(len := h.value), resp + h.line, h.rest, b, s1, s2);
      }
    } else {
      var m' := if m.len == 0 then m.(len := 1) else m;
      ReplyLoopKeeps(m', resp, a, s1);
      ReplyLoopExtends(m', resp, a, b, s1, s2);
    }
  }

  lemma ReadIntShorter(a: bytes, b: bytes, s1: bytes, s2: bytes)
    requires ReadInt(a, s1).Found?
    ensures ReadInt(a + b, s2).Found? && ReadInt(a + b, s2).line == ReadInt(a, s1).line
    ensures ReadInt(a + b, s2).rest == ReadInt(a, s1).rest + b
  {
    var k := Index(a, LF);
    IndexStable(a, b, LF);
    CutBehind(a, b, k + 1);
    hide ParseInt32;
  }

  lemma {:induction false} PlainLoopPrefix(m: Multibulk, a: bytes, b: bytes, s1: bytes, s2: bytes)
    requires PlainReplyLoop(m, a + b, s2)
    ensures PlainReplyLoop(m, a, s1)
    decreases m.len - m.index
  {
    if m.index < m.len {
      if m.bulk == 0 {
        var h := ReadInt(a, s1);
        if h.Found? {
          ReadIntShorter(a, b, s1, s2);
          ReadIntExtends(a, b, s1, s2);
          if h.value <= 0 {
            PlainLoopPrefix(Multibulk(m.len, m.index + 1, 0), h.rest, b, s1, s2);
          } else {
            PlainBulkPrefix(m.(bulk := h.value), h.rest, b, s1, s2);
          }
        }
      } else {
        PlainBulkPrefix(m, a, b, s1, s2);
      }
    }
  }

  lemma {:induction false} PlainBulkPrefix(m: Multibulk, a: bytes, b: bytes, s1: bytes, s2: bytes)
    requires m.index < m.len && PlainReplyBulk(m, a + b, s2)
    ensures PlainReplyBulk(m, a, s1)
    decreases m.len - m.index, 0
  {
    var n := ReadLength(m.bulk);
    if n <= |a| {
      assert (a + b)[n..] == a[n..] + b;
      PlainLoopPrefix(Multibulk(m.len, m.index + 1, 0), a[n..], b, s1, s2);
    }
  }

  lemma PlainReplyPrefix(st: ParserState, a: bytes, b: bytes, s1: bytes, s2: bytes)
    requires PlainReply(st, a + b, s2)
    ensures PlainReply(st, a, s1)
  {
    if a != [] {
      assert (a + b)[0] == a[0];
      if ReplyKind(st.kind, a[0]) == MultibulkType {
        if st.mb.len == 0 && a[0] == STAR {
          var h := ReadInt(a, s1);
          if h.Found? {
            ReadIntShorter(a, b, s1, s2);
            ReadIntExtends(a, b, s1, s2);
            PlainLoopPrefix(st.mb.(len := h.value), h.rest, b, s1, s2);
          }
        } else {
          PlainLoopPrefix(if st.mb.len == 0 then st.mb.(len := 1) else st.mb, a, b, s1, s2);
        }
      }
    }
  }
}
