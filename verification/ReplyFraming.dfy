/** Well-formed replies are reported whole, however they arrive, exactly when they hold no empty bulk string. */
module ReplyFraming {
  import opened Base
  import opened Decimal
  import opened Resp
  import opened Scanner
  import opened RequestMachine
  import opened ReplyMachine
  import opened Replies
  import opened Requests

  lemma ScanNull(lead: byte, y: bytes, slack: bytes)
    requires lead != LF
    ensures ReadInt([lead, MINUS, 49] + CRLF + y, slack) == Found(-1, [lead, MINUS, 49] + CRLF, y)
    ensures PlainLine([lead, MINUS, 49] + CRLF)
  {
    var line: bytes := [lead, MINUS, 49] + CRLF;
    IndexIs(line + y, LF, 4);
    assert (line + y)[..5] == line && (line + y)[5..] == y;
    var s := (line + (y + slack))[1..];
    assert s[1..] == [49] + (CRLF + (y + slack));
    assert Digits(1) == [49];
    MagnitudeOfDigits(1, CRLF + (y + slack));
    assert SkipSpaces(s) == s;
  }

  /** The line ending of an empty bulk, read as a header in front of another bulk, has the value zero. */
  lemma ScanLoneEnding(y: bytes, slack: bytes)
    requires y != [] && y[0] == DOLLAR
    ensures ReadInt(CRLF + y, slack) == Found(0, CRLF, y)
  {
    var inp := CRLF + y;
    IndexIs(inp, LF, 1);
    assert inp[..2] == CRLF && inp[2..] == y;
    var z := y + slack;
    assert z[0] == DOLLAR;
    assert (CRLF + z)[1..] == [LF] + z && ([LF] + z)[1..] == z;
    assert SkipSpaces(z) == z && SkipSpaces([LF] + z) == z;
    assert Magnitude(z, 0) == 0;
  }

  /** One turn of the reply loop that finds its header line. */
  lemma Turn(m: Multibulk, resp: bytes, inp: bytes, slack: bytes)
    requires m.bulk == 0 && m.index < m.len && ReadInt(inp, slack).Found?
    ensures var h := ReadInt(inp, slack); var next := Multibulk(m.len, m.index + 1, 0);
      var n := ReadLength(h.value);
      && (h.value <= 0 ==> ReplyLoop(m, resp, inp, slack) == ReplyLoop(next, resp + h.line, h.rest, slack))
      && (h.value > 0 && 0 < n <= |h.rest| ==>
            ReplyLoop(m, resp, inp, slack) == ReplyLoop(next, resp + h.line + h.rest[..n], h.rest[n..], slack))
  {
    hide ReadInt;
    var h := ReadInt(inp, slack);
    if h.value > 0 {
      assert ReplyLoop(m, resp, inp, slack) == ReadReplyBulk(m.(bulk := h.value), resp + h.line, h.rest, slack);
    }
  }

  lemma PlainTurn(m: Multibulk, inp: bytes, slack: bytes)
    requires m.bulk == 0 && m.index < m.len
    requires ReadInt(inp, slack).Found? && PlainLine(ReadInt(inp, slack).line)
    ensures var h := ReadInt(inp, slack); var next := Multibulk(m.len, m.index + 1, 0);
      var n := ReadLength(h.value);
      && (h.value <= 0 && PlainReplyLoop(next, h.rest, slack) ==> PlainReplyLoop(m, inp, slack))
      && (h.value > 0 && 0 < n <= |h.rest| && PlainReplyLoop(next, h.rest[n..], slack) ==>
            PlainReplyLoop(m, inp, slack))
  {
    var h := ReadInt(inp, slack);
    if h.value > 0 {
      assert PlainReplyLoop(m, inp, slack) <==> PlainReplyBulk(m.(bulk := h.value), h.rest, slack);
    }
  }

  /** One element that the parser frames. */
  lemma ReadBackBulk(m: Multibulk, resp: bytes, b: Bulk, y: bytes, slack: bytes)
    requires m.bulk == 0 && m.index < m.len && BulkFits(b) && b != Text([])
    ensures var next := Multibulk(m.len, m.index + 1, 0); var e := EncodeBulk(b);
      && ReplyLoop(m, resp, e + y, slack) == ReplyLoop(next, resp + e, y, slack)
      && (PlainReplyLoop(next, y, slack) ==> PlainReplyLoop(m, e + y, slack))
  {
    var e := EncodeBulk(b);
    match b {
      case Null =>
        ScanNull(DOLLAR, y, slack);
      case Text(t) =>
        var h := Header(DOLLAR, |t|);
        ScanArg(t, y, slack);
        ReadLengthOf(|t|);
        Regroup(resp, h, t + CRLF);
        Regroup(h, t, CRLF);
    }
    Turn(m, resp, e + y, slack);
    PlainTurn(m, e + y, slack);
  }

  lemma {:induction false} ReadBackBulks(m: Multibulk, resp: bytes, items: seq<Bulk>, y: bytes, slack: bytes)
    requires m.bulk == 0 && m.len - m.index == |items|
    requires !HasEmptyBulk(items) && forall i :: 0 <= i < |items| ==> BulkFits(items[i])
    ensures ReplyLoop(m, resp, EncodeBulks(items) + y, slack)
         == ReplyOut(Multibulk(m.len, m.len, 0), resp + EncodeBulks(items), y, OK)
    ensures PlainReplyLoop(m, EncodeBulks(items) + y, slack)
    decreases |items|
  {
    if items == [] {
      assert resp + EncodeBulks(items) == resp && EncodeBulks(items) + y == y;
    } else {
      var e, tail := EncodeBulk(items[0]), EncodeBulks(items[1..]);
      var next := Multibulk(m.len, m.index + 1, 0);
      Regroup(e, tail, y);
      Regroup(resp, e, tail);
      assert items[0] != Text([]);
      ReadBackBulk(m, resp, items[0], tail + y, slack);
      ReadBackBulks(next, resp + e, items[1..], y, slack);
    }
  }

  lemma FirstByte(items: seq<Bulk>, y: bytes)
    requires items != []
    ensures EncodeBulks(items) + y != [] && (EncodeBulks(items) + y)[0] == DOLLAR
  {
  }

  /** An empty bulk takes one turn and leaves its line ending. */
  lemma EmptyBulkTurn(m: Multibulk, resp: bytes, y: bytes, slack: bytes)
    requires m.bulk == 0 && m.index < m.len
    ensures ReplyLoop(m, resp, EncodeBulk(Text([])) + y, slack)
         == ReplyLoop(Multibulk(m.len, m.index + 1, 0), resp + Header(DOLLAR, 0), CRLF + y, slack)
  {
    ScanArg([], y, slack);
    assert [] + CRLF + y == CRLF + y;
    Turn(m, resp, EncodeArg([]) + y, slack);
  }

  lemma LoneEndingTurn(m: Multibulk, resp: bytes, y: bytes, slack: bytes)
    requires m.bulk == 0 && m.index < m.len && y != [] && y[0] == DOLLAR
    ensures ReplyLoop(m, resp, CRLF + y, slack)
         == ReplyLoop(Multibulk(m.len, m.index + 1, 0), resp + CRLF, y, slack)
  {
    ScanLoneEnding(y, slack);
    Turn(m, resp, CRLF + y, slack);
  }

  /** In front of another element an empty bulk takes two turns, in the last turn it is cut in two. */
  lemma EmptyBulkTurns(m: Multibulk, resp: bytes, after: seq<Bulk>, y: bytes, slack: bytes)
    requires m.bulk == 0 && m.index < m.len && (m.index + 1 < m.len ==> after != [])
    ensures var r := ReplyLoop(m, resp, EncodeBulk(Text([])) + (EncodeBulks(after) + y), slack);
      && (m.index + 1 < m.len ==> r == ReplyLoop(Multibulk(m.len, m.index + 2, 0), resp + EncodeBulk(Text([])),
                                                 EncodeBulks(after) + y, slack))
      && (m.index + 1 == m.len ==> r.err == OK && |r.rest| > |EncodeBulks(after) + y|)
  {
    hide *;
    var x, h := EncodeBulks(after) + y, Header(DOLLAR, 0);
    EmptyBulkTurn(m, resp, x, slack);
    EmptyBulkIs(resp);
    if m.index + 1 < m.len {
      FirstByte(after, y);
      LoneEndingTurn(Multibulk(m.len, m.index + 1, 0), resp + h, x, slack);
    } else {
      LoopDone(Multibulk(m.len, m.index + 1, 0), resp + h, CRLF + x, slack);
    }
  }

  lemma LoopDone(m: Multibulk, resp: bytes, inp: bytes, slack: bytes)
    requires m.index >= m.len
    ensures ReplyLoop(m, resp, inp, slack) == ReplyOut(m, resp, inp, OK)
  {
  }

  lemma EmptyBulkIs(resp: bytes)
    ensures resp + Header(DOLLAR, 0) + CRLF == resp + EncodeBulk(Text([])) && |CRLF| == 2
  {
    assert Header(DOLLAR, 0) + [] == Header(DOLLAR, 0);
  }

  /** With fewer turns of the loop than elements left, the parser reports the reply too early. */
  lemma {:induction false} TooFewTurns(m: Multibulk, resp: bytes, items: seq<Bulk>, y: bytes, slack: bytes)
    requires m.bulk == 0 && 0 <= m.len - m.index < |items|
    requires forall i :: 0 <= i < |items| ==> BulkFits(items[i])
    ensures var r := ReplyLoop(m, resp, EncodeBulks(items) + y, slack);
      r.err == OK && |r.rest| > |y|
    decreases |items|
  {
    var e, tail := EncodeBulk(items[0]), EncodeBulks(items[1..]);
    Regroup(e, tail, y);
    if m.index < m.len {
      var next := Multibulk(m.len, m.index + 1, 0);
      if items[0] != Text([]) {
        ReadBackBulk(m, resp, items[0], tail + y, slack);
        TooFewTurns(next, resp + e, items[1..], y, slack);
      } else {
        EmptyBulkTurns(m, resp, items[1..], y, slack);
        if next.index < next.len {
          var last := Multibulk(m.len, m.index + 2, 0);
          TooFewTurns(last, resp + EncodeBulk(Text([])), items[1..], y, slack);
        }
      }
    }
  }

  lemma {:induction false} EmptyBulkCutsShort(m: Multibulk, resp: bytes, items: seq<Bulk>, y: bytes, slack: bytes)
    requires m.bulk == 0 && m.len - m.index == |items|
    requires HasEmptyBulk(items) && forall i :: 0 <= i < |items| ==> BulkFits(items[i])
    ensures var r := ReplyLoop(m, resp, EncodeBulks(items) + y, slack);
      r.err == OK && |r.rest| > |y|
    decreases |items|
  {
    var e, tail := EncodeBulk(items[0]), EncodeBulks(items[1..]);
    var next := Multibulk(m.len, m.index + 1, 0);
    Regroup(e, tail, y);
    if items[0] != Text([]) {
      var i :| 0 <= i < |items| && items[i] == Text([]);
      assert items[1..][i - 1] == Text([]);
      ReadBackBulk(m, resp, items[0], tail + y, slack);
      EmptyBulkCutsShort(next, resp + e, items[1..], y, slack);
    } else {
      EmptyBulkTurns(m, resp, items[1..], y, slack);
      if next.index < next.len {
        TooFewTurns(Multibulk(m.len, m.index + 2, 0), resp + EncodeBulk(Text([])), items[1..], y, slack);
      }
    }
  }

  function ReplyDone(r: Reply): ParserState {
    match r
    case Line(_, _) => ParserState(InlineType, START)
    case Single(_) => ParserState(MultibulkType, Multibulk(1, 1, 0))
    case NullArray => ParserState(MultibulkType, Multibulk(-1, 0, 0))
    case Array(items) => ParserState(MultibulkType, Multibulk(|items|, |items|, 0))
  }

  lemma FrameLine(lead: byte, line: bytes, y: bytes, slack: bytes)
    requires WellFormed(Line(lead, line))
    ensures var r := Line(lead, line);
      ParseResponse(FRESH, [], EncodeReply(r) + y, slack) == ResponseOut(ReplyDone(r), EncodeReply(r), y, OK)
  {
    var e := [lead] + line + CRLF;
    var k := |e| - 1;
    assert forall j :: 1 <= j < k - 1 ==> (e + y)[j] == line[j - 1];
    IndexIs(e + y, LF, k);
    assert (e + y)[..k + 1] == e && (e + y)[k + 1..] == y;
    assert [] + e == e;
  }

  lemma FrameSingle(b: Bulk, y: bytes, slack: bytes)
    requires BulkFits(b) && b != Text([])
    ensures ParseResponse(FRESH, [], EncodeBulk(b) + y, slack)
         == ResponseOut(ReplyDone(Single(b)), EncodeBulk(b), y, OK)
    ensures PlainReply(FRESH, EncodeBulk(b) + y, slack)
  {
    var e := EncodeBulk(b);
    assert [] + e == e && (e + y)[0] == DOLLAR;
    hide EncodeBulk;
    ReadBackBulk(Multibulk(1, 0, 0), [], b, y, slack);
    SingleIs(e + y, slack);
    hide ParseResponse, PlainReply;
  }

  /** A single bulk is read like the one element of an array. */
  lemma SingleIs(inp: bytes, slack: bytes)
    requires inp != [] && inp[0] == DOLLAR
    ensures var r := ReplyLoop(Multibulk(1, 0, 0), [], inp, slack);
      ParseResponse(FRESH, [], inp, slack) == ResponseOut(ParserState(MultibulkType, r.mb), r.resp, r.rest, r.err)
    ensures PlainReply(FRESH, inp, slack) <==> PlainReplyLoop(Multibulk(1, 0, 0), inp, slack)
  {
    hide ReplyLoop, PlainReplyLoop;
  }

  lemma FrameEmpty(y: bytes, slack: bytes)
    ensures var r := ParseResponse(FRESH, [], EncodeBulk(Text([])) + y, slack); r.err == OK && |r.rest| > |y|
  {
    var e := EncodeBulk(Text([]));
    assert (e + y)[0] == DOLLAR;
    EmptyBulkTurn(Multibulk(1, 0, 0), [], y, slack);
  }

  lemma FrameArray(items: seq<Bulk>, y: bytes, slack: bytes)
    requires WellFormed(Array(items))
    ensures var r := Array(items);
      && (!HasEmptyBulk(items) ==>
           && ParseResponse(FRESH, [], EncodeReply(r) + y, slack) == ResponseOut(ReplyDone(r), EncodeReply(r), y, OK)
           && PlainReply(FRESH, EncodeReply(r) + y, slack))
      && (HasEmptyBulk(items) ==>
           var o := ParseResponse(FRESH, [], EncodeReply(r) + y, slack); o.err == OK && |o.rest| > |y|)
  {
    var h, body := Header(STAR, |items|), EncodeBulks(items);
    Regroup(h, body, y);
    assert [] + h == h;
    assert (h + (body + y))[0] == STAR;
    HeaderRoundTrip(STAR, |items|, body + y, slack);
    var m := Multibulk(|items|, 0, 0);
    if HasEmptyBulk(items) {
      EmptyBulkCutsShort(m, h, items, y, slack);
    } else {
      ReadBackBulks(m, h, items, y, slack);
    }
  }

  lemma FrameNull(y: bytes, slack: bytes)
    ensures var e := EncodeReply(NullArray);
      && ParseResponse(FRESH, [], e + y, slack) == ResponseOut(ReplyDone(NullArray), e, y, OK)
      && PlainReply(FRESH, e + y, slack)
  {
    var e := EncodeReply(NullArray);
    ScanNull(STAR, y, slack);
    assert [] + e == e && (e + y)[0] == STAR;
    hide ReadInt, PlainLine;
  }

  lemma FrameReply(r: Reply, y: bytes, slack: bytes)
    requires WellFormed(r)
    ensures var o := ParseResponse(FRESH, [], EncodeReply(r) + y, slack);
      && (Framable(r) ==> o == ResponseOut(ReplyDone(r), EncodeReply(r), y, OK))
      && (Framable(r) ==> PlainReply(FRESH, EncodeReply(r) + y, slack))
      && (!Framable(r) ==> o.err == OK && |o.rest| > |y|)
  {
    hide ParseResponse;
    match r
    case Line(lead, line) =>
      FrameLine(lead, line, y, slack);
      assert (EncodeReply(r) + y)[0] == lead;
    case Single(b) =>
      hide PlainReply, EncodeBulk;
      if b == Text([]) {
        FrameEmpty(y, slack);
      } else {
        FrameSingle(b, y, slack);
      }
    case NullArray => FrameNull(y, slack);
    case Array(items) =>
      hide PlainReply, EncodeReply;
      FrameArray(items, y, slack);
  }

  /**
   * A well-formed reply in front of any bytes is reported as exactly its own bytes iff it holds no empty
   * bulk string. Otherwise a reply is reported all the same, but it is cut short.
   */
  lemma ReplyFramedIff(r: Reply, y: bytes, slack: bytes)
    requires WellFormed(r)
    ensures var o := ParseResponse(FRESH, [], EncodeReply(r) + y, slack);
      && o.err == OK
      && (o.resp == EncodeReply(r) && o.rest == y <==> Framable(r))
      && (!Framable(r) ==> o.resp < EncodeReply(r))
  {
    FrameReply(r, y, slack);
    var e := EncodeReply(r);
    var o := ParseResponse(FRESH, [], e + y, slack);
    ResponseConserves(FRESH, [], e + y, slack);
    assert o.resp + o.rest == [] + (e + y) == e + y;
    if !Framable(r) {
      assert o.resp == (o.resp + o.rest)[..|o.resp|] == (e + y)[..|o.resp|] == e[..|o.resp|];
    }
  }

  lemma NotUnknown(p: bytes, slack: bytes)
    requires p != [] && ReplyKind(NoType, p[0]) != NoType
    ensures ParseResponse(FRESH, [], p, slack).err != Unknown
  {
    var kind := ReplyKind(NoType, p[0]);
    if kind == MultibulkType {
      MultibulkConserves(START, [], p, slack);
    }
  }

  lemma FirstOfReply(r: Reply)
    requires WellFormed(r)
    ensures ReplyKind(NoType, EncodeReply(r)[0]) != NoType
  {
    match r
    case Line(lead, _) =>
    case Single(b) => assert b.Text? ==> EncodeBulk(b)[0] == DOLLAR;
    case NullArray =>
    case Array(items) => assert EncodeReply(r)[0] == STAR;
  }

  /** A cut exactly in front of an element. */
  predicate CutBeforeBulk(items: seq<Bulk>, cut: nat) {
    && items != []
    && (cut == 0 || (cut >= |EncodeBulk(items[0])| && CutBeforeBulk(items[1..], cut - |EncodeBulk(items[0])|)))
  }

  /** Behind the header of an array, or behind one of its elements, and in front of the next one. */
  predicate CutBeforeElement(r: Reply, cut: nat) {
    && r.Array?
    && var h := |Header(STAR, |r.items|)|; cut >= h && CutBeforeBulk(r.items, cut - h)
  }

  lemma PartOfNull(lead: byte, p: bytes, slack: bytes)
    requires lead != LF && p < [lead, MINUS, 49] + CRLF
    ensures ReadInt(p, slack) == NoLine(if p == [] then OutOfBound else TryAgain)
  {
    var line: bytes := [lead, MINUS, 49] + CRLF;
    assert forall j :: 0 <= j < |p| ==> p[j] == line[j] != LF;
    IndexStable(p, [], LF);
  }

  lemma PartOfBulk(m: Multibulk, resp: bytes, b: Bulk, p: bytes, slack: bytes)
    requires m.bulk == 0 && m.index < m.len && BulkFits(b) && b != Text([]) && p < EncodeBulk(b)
    ensures ReplyLoop(m, resp, p, slack).err == if p == [] then OutOfBound else TryAgain
  {
    match b
    case Null => PartOfNull(DOLLAR, p, slack);
    case Text(t) =>
      var h := Header(DOLLAR, |t|);
      Regroup(h, t, CRLF);
      SplitPrefix(h, t + CRLF, p);
      if |p| < |h| {
        PartOfHeader(DOLLAR, |t|, p, slack);
      } else {
        HeaderRoundTrip(DOLLAR, |t|, p[|h|..], slack);
        ReadLengthOf(|t|);
        hide ReadInt, Header;
        assert ReplyLoop(m, resp, p, slack) == ReadReplyBulk(m.(bulk := |t|), resp + h, p[|h|..], slack);
      }
  }

  lemma NoneEmptyBehind(items: seq<Bulk>)
    requires items != [] && !HasEmptyBulk(items)
    ensures items[0] != Text([]) && !HasEmptyBulk(items[1..])
  {
    assert forall i :: 0 <= i < |items[1..]| ==> items[1..][i] == items[i + 1];
  }

  lemma {:induction false} PartOfBulks(m: Multibulk, resp: bytes, items: seq<Bulk>, p: bytes, slack: bytes)
    requires m.bulk == 0 && m.len - m.index == |items| && !HasEmptyBulk(items)
    requires forall i :: 0 <= i < |items| ==> BulkFits(items[i])
    requires p < EncodeBulks(items)
    ensures ReplyLoop(m, resp, p, slack).err == if CutBeforeBulk(items, |p|) then OutOfBound else TryAgain
    decreases |items|
  {
    var e := EncodeBulk(items[0]);
    SplitPrefix(e, EncodeBulks(items[1..]), p);
    NoneEmptyBehind(items);
    hide ReplyLoop, EncodeBulk, EncodeBulks, HasEmptyBulk, PlainReplyLoop;
    if |p| < |e| {
      PartOfBulk(m, resp, items[0], p, slack);
    } else {
      var q := p[|e|..];
      ReadBackBulk(m, resp, items[0], q, slack);
      PartOfBulks(Multibulk(m.len, m.index + 1, 0), resp + e, items[1..], q, slack);
    }
  }

  lemma BehindStar(n: nat, h: bytes, q: bytes, slack: bytes)
    requires h != [] && h[0] == STAR && ReadInt(h + q, slack) == Found(n, h, q)
    ensures ParseResponse(FRESH, [], h + q, slack).err == ReplyLoop(Multibulk(n, 0, 0), h, q, slack).err
  {
    hide ReadInt, ReplyLoop;
    assert [] + h == h;
  }

  lemma PartOfArray(items: seq<Bulk>, p: bytes, slack: bytes)
    requires Framable(Array(items)) && [] < p < EncodeReply(Array(items))
    ensures ParseResponse(FRESH, [], p, slack).err
         == if CutBeforeElement(Array(items), |p|) then OutOfBound else TryAgain
  {
    hide *;
    var h, body := Header(STAR, |items|), EncodeBulks(items);
    ArrayIs(items, |p|);
    SplitPrefix(h, body, p);
    assert p[0] == (h + body)[0] == STAR;
    if |p| < |h| {
      PartOfHeader(STAR, |items|, p, slack);
      InFrontOfElements(p, slack);
    } else {
      var q := p[|h|..];
      HeaderRoundTrip(STAR, |items|, q, slack);
      PartOfBulks(Multibulk(|items|, 0, 0), h, items, q, slack);
      BehindStar(|items|, h, q, slack);
    }
  }

  lemma ArrayIs(items: seq<Bulk>, cut: nat)
    requires Framable(Array(items))
    ensures var h := Header(STAR, |items|);
      && EncodeReply(Array(items)) == h + EncodeBulks(items) && h != [] && h[0] == STAR
      && (CutBeforeElement(Array(items), cut) <==> cut >= |h| && CutBeforeBulk(items, cut - |h|))
    ensures |items| <= INT32_MAX && !HasEmptyBulk(items) && forall i :: 0 <= i < |items| ==> BulkFits(items[i])
    ensures STAR != LF
  {
    hide CutBeforeBulk, EncodeBulks;
  }

  lemma InFrontOfElements(p: bytes, slack: bytes)
    requires p != [] && p[0] == STAR && ReadInt(p, slack) == NoLine(TryAgain)
    ensures ParseResponse(FRESH, [], p, slack).err == TryAgain
  {
    hide ReadInt, ReplyLoop;
  }

  /** TryAgain, or in front of an element of an array OutOfBound. */
  lemma PartOfReplyError(r: Reply, p: bytes, slack: bytes)
    requires Framable(r) && [] < p < EncodeReply(r)
    requires Incomplete(ParseResponse(FRESH, [], p, slack).err)
    ensures ParseResponse(FRESH, [], p, slack).err == if CutBeforeElement(r, |p|) then OutOfBound else TryAgain
  {
    assert p[0] == EncodeReply(r)[0];
    match r
    case Line(lead, line) =>
    case Single(b) =>
      assert p[0] == DOLLAR;
      PartOfBulk(Multibulk(1, 0, 0), [], b, p, slack);
    case NullArray => PartOfNull(STAR, p, slack);
    case Array(items) => PartOfArray(items, p, slack);
  }

  /** A call on part of a reply keeps waiting; with OutOfBound iff the part ends in front of an element of an array. */
  lemma PartOfReply(r: Reply, p: bytes, slack: bytes)
    requires Framable(r) && [] < p < EncodeReply(r)
    ensures ParseResponse(FRESH, [], p, slack).err == if CutBeforeElement(r, |p|) then OutOfBound else TryAgain
    ensures PlainReply(FRESH, p, slack)
  {
    var e := EncodeReply(r);
    var q := e[|p|..];
    assert e == p + q && e + [] == e;
    FrameReply(r, [], []);
    PlainReplyPrefix(FRESH, p, q, slack, []);
    ResponseConserves(FRESH, [], p, slack);
    ResponseResumes(FRESH, [], p, q, slack, []);
    FirstOfReply(r);
    NotUnknown(p, slack);
    PartOfReplyError(r, p, slack);
  }
}
