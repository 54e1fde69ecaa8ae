/**
 * What one call of `CmdParser::ParseResponse` does, as a function of the parser fields,
 * the response collected so far and the unread input.
 */
module ReplyMachine {
  import opened Base
  import opened Decimal
  import opened Resp
  import opened Scanner
  import opened RequestMachine

  datatype ReplyOut = ReplyOut(mb: Multibulk, resp: bytes, rest: bytes, err: Error)

  /** The loop of `MultibulkParser::HandleResponse`. */
  function ReplyLoop(m: Multibulk, resp: bytes, inp: bytes, slack: bytes): (r: ReplyOut)
    decreases m.len - m.index
  {
    if m.index >= m.len then ReplyOut(m, resp, inp, OK)
    else if m.bulk == 0 then
      match ReadInt(inp, slack)
      case NoLine(e) => ReplyOut(m, resp, inp, e)
      case Found(v, line, rest) =>
        if v <= 0 then ReplyLoop(Multibulk(m.len, m.index + 1, 0), resp + line, rest, slack)
        else ReadReplyBulk(m.(bulk := v), resp + line, rest, slack)
    else ReadReplyBulk(m, resp, inp, slack)
  }

  function ReadReplyBulk(m: Multibulk, resp: bytes, inp: bytes, slack: bytes): (r: ReplyOut)
    requires m.index < m.len
    decreases m.len - m.index, 0
  {
    var n := ReadLength(m.bulk);
    if inp == [] || n > |inp| then ReplyOut(m, resp, inp, TryAgain)
    else ReplyLoop(Multibulk(m.len, m.index + 1, 0), resp + Taken(inp, n), inp[n..], slack)
  }

  /** `MultibulkParser::HandleResponse`. */
  function HandleResponse(m: Multibulk, resp: bytes, inp: bytes, slack: bytes): (r: ReplyOut) {
    if m.len == 0 then
      if inp != [] && inp[0] == STAR then
        match ReadInt(inp, slack)
        case NoLine(e) => ReplyOut(m, resp, inp, e)
        case Found(v, line, rest) => ReplyLoop(m.(len := v), resp + line, rest, slack)
      else ReplyLoop(m.(len := 1), resp, inp, slack)
    else ReplyLoop(m, resp, inp, slack)
  }

  datatype ResponseOut = ResponseOut(st: ParserState, resp: bytes, rest: bytes, err: Error)

  function ReplyKind(kind: Kind, first: byte): Kind {
    if kind != NoType then kind
    else if first == STAR || first == DOLLAR then MultibulkType
    else if first == MINUS || first == PLUS || first == COLON then InlineType
    else NoType
  }

  /** `InlineParser::HandleResponse`: a whole line or nothing. */
  function LineResponse(st: ParserState, resp: bytes, inp: bytes): (r: ResponseOut)
    requires inp != []
  {
    var k := Index(inp, LF);
    if k == |inp| then ResponseOut(st, resp, inp, TryAgain)
    else ResponseOut(st, resp + inp[..k + 1], inp[k + 1..], OK)
  }

  /** `CmdParser::ParseResponse`. */
  function ParseResponse(st: ParserState, resp: bytes, inp: bytes, slack: bytes): (r: ResponseOut) {
    if inp == [] then ResponseOut(st, resp, inp, TryAgain)
    else
      var kind := ReplyKind(st.kind, inp[0]);
      if kind == NoType then ResponseOut(st, resp, inp, Unknown)
      else if kind == MultibulkType then
        var r := HandleResponse(st.mb, resp, inp, slack);
        ResponseOut(ParserState(kind, r.mb), r.resp, r.rest, r.err)
      else LineResponse(ParserState(kind, st.mb), resp, inp)
  }

  /** Between calls; a reply parser keeps only positive bulk lengths. */
  predicate ReplyReady(st: ParserState) {
    && Resumable(st.mb)
    && (st.kind != MultibulkType ==> st.mb == START)
    && 0 <= st.mb.bulk <= INT32_MAX
  }
}
