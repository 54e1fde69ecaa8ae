/**
 * What one call of `CmdParser::ParseRequest` does, as a function of the parser fields,
 * the arguments collected so far and the unread input.
 */
module RequestMachine {
  import opened Base
  import opened Decimal
  import opened Resp
  import opened Scanner

  datatype Kind = NoType | InlineType | MultibulkType

  datatype Multibulk = Multibulk(len: int, index: int, bulk: int)

  datatype ParserState = ParserState(kind: Kind, mb: Multibulk)

  const START := Multibulk(0, 0, 0)
  const FRESH := ParserState(NoType, START)

  /** The fields between calls: untouched, or inside an array. */
  predicate Resumable(m: Multibulk) {
    m == START || 0 <= m.index < m.len
  }

  /** The std::size_t that `bulkLen_ + 2` becomes when it is passed to `Read`. */
  function ReadLength(bulk: int): (n: nat) {
    var v := Int32(bulk + 2);
    if v < 0 then 0x1_0000_0000_0000_0000 + v else v
  }

  /** `midBulk` tells a call that stopped inside a bulk string from one that stopped before a header. */
  datatype BulkOut = BulkOut(mb: Multibulk, argv: Argv, rest: bytes, err: Error, midBulk: bool)

  /** The loop of `MultibulkParser::HandleRequest`. */
  function RequestLoop(m: Multibulk, argv: Argv, inp: bytes, slack: bytes): (r: BulkOut)
    decreases m.len - m.index
  {
    if m.index >= m.len then BulkOut(m, argv, inp, OK, false)
    else if m.bulk == 0 then
      match ReadInt(inp, slack)
      case NoLine(e) => BulkOut(m, argv, inp, e, false)
      case Found(v, _, rest) => ReadBulk(m.(bulk := v), argv, rest, slack)
    else ReadBulk(m, argv, inp, slack)
  }

  function ReadBulk(m: Multibulk, argv: Argv, inp: bytes, slack: bytes): (r: BulkOut)
    requires m.index < m.len
    decreases m.len - m.index, 0
  {
    var n := ReadLength(m.bulk);
    if inp == [] || n > |inp| then BulkOut(m, argv, inp, TryAgain, true)
    else RequestLoop(Multibulk(m.len, m.index + 1, 0), argv + [Trim(Taken(inp, n), 2)], inp[n..], slack)
  }

  /** `MultibulkParser::HandleRequest`. */
  function HandleRequest(m: Multibulk, argv: Argv, inp: bytes, slack: bytes): (r: BulkOut) {
    if m.len == 0 then
      match ReadInt(inp, slack)
      case NoLine(e) => BulkOut(m, argv, inp, e, false)
      case Found(v, _, rest) => RequestLoop(m.(len := v), argv, rest, slack)
    else RequestLoop(m, argv, inp, slack)
  }

  datatype InlineOut = InlineOut(argv: Argv, rest: bytes, err: Error)

  /** `ReadUntil` over [space, LF]: the first listed delimiter that occurs, not the earliest one. */
  function FirstSplit(inp: bytes): (k: nat)
    ensures k <= |inp|
    ensures k < |inp| ==> inp[k] == SPACE || inp[k] == LF
    ensures k == |inp| <==> SPACE !in inp && LF !in inp
  {
    if SPACE in inp then Index(inp, SPACE) else Index(inp, LF)
  }

  /** `InlineParser::HandleRequest`. */
  function InlineRequest(argv: Argv, inp: bytes): (r: InlineOut)
    decreases |inp|
  {
    if inp == [] then InlineOut(argv, inp, OutOfBound)
    else
      var k := FirstSplit(inp);
      if k == |inp| then InlineOut(argv, inp, TryAgain)
      else
        var token := Taken(inp, k);
        if inp[k] == LF then
          InlineOut(argv + [if k > 0 && inp[k - 1] == CR then Trim(token, 1) else token], inp[k + 1..], OK)
        else InlineRequest(argv + [token], inp[k + 1..])
  }

  datatype RequestOut = RequestOut(st: ParserState, argv: Argv, rest: bytes, err: Error, midBulk: bool)

  function RequestKind(kind: Kind, first: byte): Kind {
    if kind != NoType then kind else if first == STAR then MultibulkType else InlineType
  }

  /** `CmdParser::ParseRequest`. */
  function ParseRequest(st: ParserState, argv: Argv, inp: bytes, slack: bytes): (r: RequestOut) {
    if inp == [] then RequestOut(st, argv, inp, TryAgain, false)
    else
      var kind := RequestKind(st.kind, inp[0]);
      if kind == MultibulkType then
        var r := HandleRequest(st.mb, argv, inp, slack);
        RequestOut(ParserState(kind, r.mb), r.argv, r.rest, r.err, r.midBulk)
      else
        var r := InlineRequest(argv, inp);
        RequestOut(ParserState(kind, st.mb), r.argv, r.rest, r.err, false)
  }
}
