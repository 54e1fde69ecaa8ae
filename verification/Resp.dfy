/** The wire format: what `Cmd::FormatRESP2` prints and what a RESP2 server answers. */
module Resp {
  import opened Base
  import opened Decimal

  type Argv = seq<bytes>

  function Header(lead: byte, n: nat): bytes {
    [lead] + Digits(n) + CRLF
  }

  function EncodeArg(arg: bytes): bytes {
    Header(DOLLAR, |arg|) + arg + CRLF
  }

  function EncodeArgs(args: Argv): bytes {
    if args == [] then [] else EncodeArg(args[0]) + EncodeArgs(args[1..])
  }

  /** The canonical request: an array of bulk strings. */
  function Encode(argv: Argv): bytes {
    Header(STAR, |argv|) + EncodeArgs(argv)
  }

  function EncodeAll(cmds: seq<Argv>): bytes {
    if cmds == [] then [] else Encode(cmds[0]) + EncodeAll(cmds[1..])
  }

  /** Lengths whose header, and whose length plus the trailing CRLF, are int32 values. */
  predicate Sendable(argv: Argv) {
    && |argv| <= INT32_MAX
    && forall i :: 0 <= i < |argv| ==> |argv[i]| <= INT32_MAX - 2
  }

  /** A bulk string of a reply; `Null` is the `$-1` form. */
  datatype Bulk = Null | Text(text: bytes)

  /** Replies made of one status, error or integer line, one bulk, or a flat array of bulks. */
  datatype Reply =
    | Line(lead: byte, line: bytes)
    | Single(bulk: Bulk)
    | NullArray
    | Array(items: seq<Bulk>)

  function EncodeBulk(b: Bulk): bytes {
    match b
    case Null => [DOLLAR, MINUS, 49] + CRLF
    case Text(t) => EncodeArg(t)
  }

  function EncodeBulks(items: seq<Bulk>): bytes {
    if items == [] then [] else EncodeBulk(items[0]) + EncodeBulks(items[1..])
  }

  function EncodeReply(r: Reply): bytes {
    match r
    case Line(lead, line) => [lead] + line + CRLF
    case Single(b) => EncodeBulk(b)
    case NullArray => [STAR, MINUS, 49] + CRLF
    case Array(items) => Header(STAR, |items|) + EncodeBulks(items)
  }

  function EncodeReplies(rs: seq<Reply>): bytes {
    if rs == [] then [] else EncodeReply(rs[0]) + EncodeReplies(rs[1..])
  }

  predicate BulkFits(b: Bulk) {
    b.Text? ==> |b.text| <= INT32_MAX - 2
  }

  predicate WellFormed(r: Reply) {
    match r
    case Line(lead, line) => lead in {PLUS, MINUS, COLON} && LF !in line
    case Single(b) => BulkFits(b)
    case NullArray => true
    case Array(items) =>
      |items| <= INT32_MAX && forall i :: 0 <= i < |items| ==> BulkFits(items[i])
  }

  predicate HasEmptyBulk(items: seq<Bulk>) {
    exists i :: 0 <= i < |items| && items[i] == Text([])
  }

  /** The replies the parser can frame: no bulk string of length zero. */
  predicate Framable(r: Reply) {
    && WellFormed(r)
    && (r.Single? ==> r.bulk != Text([]))
    && (r.Array? ==> !HasEmptyBulk(r.items))
  }

  /** Printing one more argument. */
  lemma EncodeOneMore(sofar: bytes, args: Argv, i: nat)
    requires i < |args|
    ensures sofar + EncodeArgs(args[i..]) == sofar + EncodeArg(args[i]) + EncodeArgs(args[i + 1..])
  {
    assert args[i..][1..] == args[i + 1..];
    Regroup(sofar, EncodeArg(args[i]), EncodeArgs(args[i + 1..]));
  }

  lemma {:induction false} EncodeAllAppend(xs: seq<Argv>, ys: seq<Argv>)
    ensures EncodeAll(xs + ys) == EncodeAll(xs) + EncodeAll(ys)
  {
    if xs == [] {
      assert xs + ys == ys;
    } else {
      var first := Encode(xs[0]);
      assert (xs + ys)[1..] == xs[1..] + ys;
      assert EncodeAll(xs + ys) == first + EncodeAll(xs[1..] + ys);
      EncodeAllAppend(xs[1..], ys);
    }
  }

  lemma {:induction false} EncodeRepliesAppend(xs: seq<Reply>, ys: seq<Reply>)
    ensures EncodeReplies(xs + ys) == EncodeReplies(xs) + EncodeReplies(ys)
  {
    if xs == [] {
      assert xs + ys == ys;
    } else {
      var first := EncodeReply(xs[0]);
      assert (xs + ys)[1..] == xs[1..] + ys;
      assert EncodeReplies(xs + ys) == first + EncodeReplies(xs[1..] + ys);
      EncodeRepliesAppend(xs[1..], ys);
    }
  }
}
