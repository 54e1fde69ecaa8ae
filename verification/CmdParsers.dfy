/** `CmdParser`: the resumable parser with its input buffer, proved against the machines. */
module CmdParsers {
  import opened Base
  import opened Blocks
  import opened BufferOps
  import opened BufferRuns
  import opened Buffers
  import opened Slices
  import opened Readers
  import opened RequestMachine
  import RM = ReplyMachine
  import opened Parsers

  /** The heap after `inputb_.Offset(at)`. */
  function Skipped<K>(h: Heap<K>, src: K, at: nat): Heap<K>
    requires src in h.views
  {
    Resize(h, src, OffsetView(h.views[src], at, 0))
  }

  /** src still ends where it did in its block. */
  ghost predicate SamePlace<K>(h: Heap<K>, h': Heap<K>, src: K) {
    && src in h.views && src in h'.views
    && h'.views[src].data == h.views[src].data && h'.views[src].size == h.views[src].size
  }

  /** What a call of ParseRequest did to the heap: input was consumed and arguments were added. */
  ghost predicate Requested<K>(h: Heap<K>, argv0: seq<K>, g: Heap<K>, argv: seq<K>, src: K) {
    && argv0 <= argv && src !in argv
    && (forall i :: |argv0| <= i < |argv| ==> argv[i] !in h.views)
    && After(h, g, {src} + set a | a in argv[|argv0|..])
  }

  lemma RequestedBy<K>(h: Heap<K>, argv0: seq<K>, g: Heap<K>, argv: seq<K>, src: K, g': Heap<K>)
    requires Parsed(h, argv0, g, argv, src, {}) && After(g, g', {src})
    ensures Requested(h, argv0, g', argv, src)
  {
    var added := set a | a in argv[|argv0|..];
    assert added + {} == added;
    AfterBoth(h, g, g', added, {src});
    assert added + {src} == {src} + added;
  }

  lemma RequestedNothing<K>(h: Heap<K>, argv: seq<K>, src: K)
    requires Parsed(h, argv, h, argv, src, {})
    ensures Requested(h, argv, h, argv, src)
  {
    assert argv[|argv|..] == [];
    AfterNothing(h, {src});
    RequestedBy(h, argv, h, argv, src, h);
  }

  class CmdParser {
    var parseType: Kind
    const inlineParser: InlineParser
    const multibulkParser: MultibulkParser
    const inputb: Buffer
    const inputbr: BufferReader

    ghost function State(): ParserState reads this, multibulkParser {
      ParserState(parseType, multibulkParser.State())
    }

    /** Between calls: the unread input, the memory behind it, and the cursor at its start. */
    ghost predicate Holds(inp: bytes, slack: bytes)
      reads inputbr, inputbr.buffer, inputbr.buffer.mem, inputbr.buffer.mem.views.Keys
    {
      && inputbr.buffer == inputb && inputbr.offset == 0 && Sees(inputbr, inp, slack)
      && Owner(inputb.mem.H(), inputb)
    }

    /** The input buffer is empty and has no block yet. */
    constructor (mem: Memory)
      requires mem.Valid()
      modifies mem
      ensures inputb.mem == mem && mem.Valid() && State() == FRESH && Holds([], [])
      ensures fresh(inputb) && fresh(inputbr) && fresh(multibulkParser)
      ensures inputb !in old(mem.views) && After(old(mem.H()), mem.H(), {inputb})
    {
      ghost var h := mem.H();
      parseType := NoType;
      inlineParser := new InlineParser();
      multibulkParser := new MultibulkParser();
      var input := new Buffer(mem);
      inputb := input;
      inputbr := new BufferReader(input);
      new;
      NewInput(h, inputb);
    }

    method Reset()
      modifies this, multibulkParser
      ensures State() == FRESH
    {
      parseType := NoType;
      multibulkParser.Reset();
    }

    /** Bytes that were read make room in the input buffer. */
    method Consume(ghost rest: bytes, ghost slack: bytes)
      requires inputbr.buffer == inputb && Sees(inputbr, rest, slack) && Owner(inputb.mem.H(), inputb)
      modifies inputb, inputbr, inputb.mem
      ensures Holds(rest, slack) && After(old(inputb.mem.H()), inputb.mem.H(), {inputb})
      ensures SamePlace(old(inputb.mem.H()), inputb.mem.H(), inputb)
    {
      ghost var h := inputb.mem.H();
      SeesIsValid(inputbr, rest, slack);
      Consumed(h, inputb, inputbr.offset, rest, slack);
      hide Memory.Valid, Memory.Text, WellFormed, Texts, SeesIn, After, Owner, Skipped, SamePlace;
      if inputbr.offset != 0 {
        DropRead();
      }
    }

    /** `inputb_.Offset( inputbr_.Offset() ); inputbr_.Reset();` */
    method DropRead()
      requires inputb.mem.Valid() && inputb in inputb.mem.views
      modifies inputb, inputbr, inputb.mem
      ensures inputb.mem.Valid() && inputbr.offset == 0
      ensures inputb.mem.H() == Skipped(old(inputb.mem.H()), inputb, old(inputbr.offset))
    {
      assert inputb.Rep() == inputb.mem.views[inputb];
      hide Memory.Valid, Memory.Text, OffsetView, OffsetText, Calm;
      inputb.Skip(inputbr.offset);
      inputbr.Reset();
    }

    /** The parser, the arguments and the input are as a call that came to `out` leaves them. */
    ghost predicate Leaves(out: RequestOut, cmd: Cmd, slack: bytes)
      reads this, multibulkParser, inputbr, inputbr.buffer, inputbr.buffer.mem, inputbr.buffer.mem.views.Keys
      reads cmd, cmd.mem, cmd.mem.views.Keys
    {
      && Holds(out.rest, slack) && cmd.Valid() && cmd.mem == inputb.mem
      && State() == out.st && cmd.args == out.argv
    }

    method ParseRequest(cmd: Cmd, ghost inp: bytes, ghost slack: bytes) returns (err: Error)
      requires Holds(inp, slack) && cmd.mem == inputb.mem && cmd.Valid() && inputb !in cmd.argv
      modifies this, multibulkParser, inputb, inputbr, cmd, inputb.mem
      ensures var out := RequestMachine.ParseRequest(old(State()), old(cmd.args), inp, slack);
        err == out.err && Leaves(out, cmd, slack)
      ensures inp == [] ==> err == TryAgain && State() == old(State()) && cmd.args == old(cmd.args)
      ensures Requested(old(cmd.mem.H()), old(cmd.argv), cmd.mem.H(), cmd.argv, inputb)
    {
      hide Memory.Valid, Memory.Text, WellFormed, SeesIn, Parsed, Requested, ArgsIn, Owner, After;
      hide RequestMachine.HandleRequest, InlineRequest, Texts, InBounds, BufferReader.Rest;
      NothingRequested(cmd, inp, slack);
      var eof, ch := First(inp, slack);
      if eof {
        return TryAgain;
      }
      if parseType == NoType {
        parseType := if ch == STAR then MultibulkType else InlineType;
      }
      err := Dispatch(cmd, inp, slack);
    }

    /** `inputbr_.Eof()` and `inputbr_.Current()` */
    method First(ghost inp: bytes, ghost slack: bytes) returns (eof: bool, ch: byte)
      requires Holds(inp, slack)
      ensures eof <==> inp == []
      ensures !eof ==> ch == inp[0]
      ensures inputbr.Valid()
    {
      SeesIsValid(inputbr, inp, slack);
      eof, ch := inputbr.Eof(), inputbr.Current();
    }

    method Conclude(cmd: Cmd, ghost rest: bytes, ghost slack: bytes, ghost h: Heap<Buffer>, ghost argv0: seq<Buffer>)
      requires inputbr.buffer == inputb && Ready(cmd, inputbr, rest, slack)
      requires Parsed(h, argv0, cmd.mem.H(), cmd.argv, inputb, {})
      modifies inputb, inputbr, inputb.mem
      ensures Holds(rest, slack) && cmd.Valid()
      ensures Requested(h, argv0, cmd.mem.H(), cmd.argv, inputb)
    {
      ghost var g := cmd.mem.H();
      ParsedIs(h, argv0, g, cmd.argv, inputb);
      hide Memory.Valid, WellFormed, SeesIn, Parsed, Requested, ArgsIn, Owner, After;
      Consume(rest, slack);
      RequestedBy(h, argv0, g, cmd.argv, inputb, cmd.mem.H());
      CmdAfter(cmd, g, {inputb});
    }

    /** The parser of the message's kind, and then the bytes it read go. */
    lemma NothingRequested(cmd: Cmd, inp: bytes, slack: bytes)
      requires Holds(inp, slack) && cmd.mem == inputb.mem && cmd.Valid() && inputb !in cmd.argv
      ensures var h := cmd.mem.H();
        Parsed(h, cmd.argv, h, cmd.argv, inputb, {}) && Requested(h, cmd.argv, h, cmd.argv, inputb)
    {
      ParsedNothing(cmd.mem.H(), cmd.argv, inputb);
      RequestedNothing(cmd.mem.H(), cmd.argv, inputb);
    }

    method Dispatch(cmd: Cmd, ghost inp: bytes, ghost slack: bytes) returns (err: Error)
      requires inp != [] && parseType != NoType
      requires Holds(inp, slack) && Ready(cmd, inputbr, inp, slack)
      requires Parsed(cmd.mem.H(), cmd.argv, cmd.mem.H(), cmd.argv, inputb, {})
      modifies multibulkParser, inputb, inputbr, cmd, inputb.mem
      ensures var out := RequestMachine.ParseRequest(old(State()), old(cmd.args), inp, slack);
        err == out.err && Leaves(out, cmd, slack)
      ensures Requested(old(cmd.mem.H()), old(cmd.argv), cmd.mem.H(), cmd.argv, inputb)
    {
      hide Memory.Valid, WellFormed, SeesIn, Parsed, ArgsIn, Owner;
      ghost var h, argv0 := cmd.mem.H(), cmd.argv;
      ghost var out := RequestMachine.ParseRequest(old(State()), old(cmd.args), inp, slack);
      if parseType == MultibulkType {
        err := multibulkParser.HandleRequest(cmd, inputbr, inp, slack);
      } else {
        err := inlineParser.HandleRequest(cmd, inputbr, inp, slack);
      }
      Conclude(cmd, out.rest, slack, h, argv0);
    }

    /** `buffer->Empty()` */
    method InputEmpty(ghost inp: bytes, ghost slack: bytes) returns (empty: bool)
      requires Holds(inp, slack)
      ensures empty <==> inp == []
    {
      SeesIsValid(inputbr, inp, slack);
      empty := inputb.Empty();
    }

    /** Room for n more bytes behind the input, as both readers of a CmdParser make it at the end of a call. */
    method MakeRoom(n: nat, ghost inp: bytes, ghost slack: bytes) returns (ghost behind: bytes)
      requires Holds(inp, slack)
      modifies inputb, inputb.mem
      ensures Holds(inp, behind) && After(old(inputb.mem.H()), inputb.mem.H(), {inputb})
      ensures inputb.mem.H() == old(inputb.mem.H()) || Sole(inputb.mem.H(), inputb)
      ensures inputb in inputb.mem.views && inputb.mem.Valid() && inputb.FreeSize() >= n
    {
      ghost var h := inputb.mem.H();
      SeesIsValid(inputbr, inp, slack);
      AfterNothing(h, {inputb});
      hide Memory.Text, WellFormed, Texts, SeesIn, After, Owner, GrowResult, Calm, Sole;
      behind := slack;
      if inputb.FreeSize() < n {
        var err := inputb.AppendCapacity(n);
        InputGrown(h, inputb, n, inp, slack, inputb.mem.H());
        behind := Behind(inputb.mem.H(), inputb);
      }
    }

    /** Between calls of ParseResponse: `text` is the part of a reply that resp holds already. */
    ghost predicate Gathers(resp: Buffer, text: bytes, inp: bytes, slack: bytes)
      reads multibulkParser, inputbr, inputbr.buffer, inputbr.buffer.mem, inputbr.buffer.mem.views.Keys, resp
    {
      && Holds(inp, slack) && resp.mem == inputb.mem && Collects(inputb.mem.H(), resp, inputb, text)
      && multibulkParser.HasBlock(resp)
    }

    /** resp holds the whole reply `text`. */
    ghost predicate Finished(resp: Buffer, text: bytes, inp: bytes, slack: bytes)
      reads inputbr, inputbr.buffer, inputbr.buffer.mem, inputbr.buffer.mem.views.Keys
    {
      Holds(inp, slack) && resp.mem == inputb.mem && Responds(inputb.mem.H(), resp, inputb, text)
    }

    /** The parser, the response and the input are as a call that came to `out` leaves them. */
    ghost predicate LeavesReply(out: RM.ResponseOut, resp: Buffer, slack: bytes)
      reads this, multibulkParser, inputbr, inputbr.buffer, inputbr.buffer.mem, inputbr.buffer.mem.views.Keys, resp
    {
      && State() == out.st
      && (out.err != OK ==> Gathers(resp, out.resp, out.rest, slack))
      && (out.err == OK ==> Finished(resp, out.resp, out.rest, slack))
    }

    method ParseResponse(resp: Buffer, ghost inp: bytes, ghost slack: bytes, ghost text: bytes) returns (err: Error)
      requires Gathers(resp, text, inp, slack)
      modifies this, multibulkParser, inputb, inputbr, resp, inputb.mem
      ensures var out := RM.ParseResponse(old(State()), text, inp, slack);
        err == out.err && LeavesReply(out, resp, slack)
      ensures inp == [] ==> err == TryAgain && State() == old(State())
      ensures After(old(inputb.mem.H()), inputb.mem.H(), {inputb, resp})
    {
      hide Memory.Valid, Memory.Text, WellFormed, SeesIn, Owner, After, Collects;
      hide RM.HandleResponse, RM.LineResponse, Texts, InBounds, BufferReader.Rest;
      GathersIs(inputb.mem.H(), resp, inputb, text);
      AfterNothing(inputb.mem.H(), {inputb, resp});
      var eof, ch := First(inp, slack);
      if eof {
        return TryAgain;
      }
      if parseType == NoType {
        if ch == STAR || ch == DOLLAR {
          parseType := MultibulkType;
        } else if ch == MINUS || ch == PLUS || ch == COLON {
          parseType := InlineType;
        } else {
          return Unknown;
        }
      }
      err := DispatchReply(resp, inp, slack, text);
    }

    /** `resp->Clear()` after a reply was handed on and the parser reset. */
    method Discard(resp: Buffer, ghost text: bytes, ghost inp: bytes, ghost slack: bytes)
      requires Finished(resp, text, inp, slack) && multibulkParser.State() == START
      modifies resp, inputb.mem
      ensures Gathers(resp, [], inp, slack) && After(old(inputb.mem.H()), inputb.mem.H(), {resp})
    {
      hide Memory.Valid, Memory.Text, WellFormed, SeesIn, Owner, After, Collects, Responds, BufferOps.Clear;
      hide Within, Texts;
      ghost var h := inputb.mem.H();
      RespondsIs(h, resp, inputb, text);
      Discarded(h, resp, inputb, text);
      resp.Clear();
      SeesKeeps(inputbr, h, {resp}, inp, slack);
    }

    method DispatchReply(resp: Buffer, ghost inp: bytes, ghost slack: bytes, ghost text: bytes) returns (err: Error)
      requires inp != [] && parseType != NoType && Gathers(resp, text, inp, slack)
      modifies multibulkParser, inputb, inputbr, resp, inputb.mem
      ensures var out := RM.ParseResponse(old(State()), text, inp, slack);
        err == out.err && LeavesReply(out, resp, slack)
      ensures After(old(inputb.mem.H()), inputb.mem.H(), {inputb, resp})
    {
      ghost var h := inputb.mem.H();
      ghost var out := RM.ParseResponse(State(), text, inp, slack);
      hide Memory.Valid, WellFormed, SeesIn, Owner, After, Collects, Responds;
      if parseType == MultibulkType {
        err := multibulkParser.HandleResponse(resp, inputbr, inp, slack, text);
        CollectsResponds(inputb.mem.H(), resp, inputb, out.resp);
      } else {
        err := inlineParser.HandleResponse(resp, inputbr, inp, slack, text);
        LineIsSimple(State(), text, inp);
        if err != OK {
          CollectsResponds(inputb.mem.H(), resp, inputb, out.resp);
        }
      }
      ConcludeReply(resp, out, slack, h);
    }

    /** The bytes that were read go; the response stays. */
    method ConcludeReply(resp: Buffer, ghost out: RM.ResponseOut, ghost slack: bytes, ghost h: Heap<Buffer>)
      requires inputbr.buffer == inputb && resp.mem == inputb.mem && State() == out.st
      requires Sees(inputbr, out.rest, slack) && Responds(inputb.mem.H(), resp, inputb, out.resp)
      requires out.err != OK ==> Collects(inputb.mem.H(), resp, inputb, out.resp) && multibulkParser.HasBlock(resp)
      requires Owner(h, inputb) && After(h, inputb.mem.H(), {resp})
      modifies inputb, inputbr, inputb.mem
      ensures LeavesReply(out, resp, slack) && After(h, inputb.mem.H(), {inputb, resp})
    {
      ghost var g := inputb.mem.H();
      StillOwner(h, g, resp, inputb, out.resp);
      hide Memory.Valid, WellFormed, SeesIn, Owner, After, Collects, Responds, Texts, Within;
      Consume(out.rest, slack);
      ReplyConcluded(h, g, resp, inputb, out.resp, inputb.mem.H());
    }
  }

  /** A response that was a slice of the input gives the block up; one with its own block keeps it. */
  lemma Discarded<K>(h: Heap<K>, resp: K, src: K, text: bytes)
    requires Responds(h, resp, src, text) && Owner(h, src)
    ensures var h' := BufferOps.Clear(h, resp);
      After(h, h', {resp}) && Collects(h', resp, src, []) && Owner(h', src)
  {
    ClearKeeps(h, resp);
    ClearOk(h, resp);
    var h' := BufferOps.Clear(h, resp);
    AfterView(h, h', {resp}, src);
    OwnerStays(h, h', {resp}, src);
  }

  /** More room behind the input, perhaps in another block. */
  lemma InputGrown<K>(h: Heap<K>, src: K, n: nat, inp: bytes, slack: bytes, h': Heap<K>)
    requires SeesIn(h, src, 0, inp, slack) && Owner(h, src) && GrowResult(h, src, n, h')
    ensures After(h, h', {src}) && Owner(h', src) && (h' == h || Sole(h', src))
    ensures src in h'.views && InBounds(h'.blocks, h'.views[src]) && SeesIn(h', src, 0, inp, Behind(h', src))
  {
    GrownOwner(h, src, n, h');
    TextIs(h, src);
    TextIs(h', src);
  }

  lemma CollectsGrown<K>(h: Heap<K>, resp: K, src: K, text: bytes, h': Heap<K>)
    requires Collects(h, resp, src, text) && After(h, h', {src}) && src in h'.views && (h' == h || Sole(h', src))
    ensures Collects(h', resp, src, text) && resp in h.views && resp in h'.views && h'.views[resp] == h.views[resp]
  {
    AfterKeeps(h, h', {src}, resp);
    forall j | j in h'.views && j != resp && h'.views[resp].data != 0 ensures h'.views[j].data != h'.views[resp].data {
      if j != src {
        assert SameView(h, h', j);
      }
    }
  }

  lemma ReplyConcluded<K>(h: Heap<K>, g: Heap<K>, resp: K, src: K, text: bytes, h': Heap<K>)
    requires After(h, g, {resp}) && Responds(g, resp, src, text) && After(g, h', {src}) && SamePlace(g, h', src)
    ensures After(h, h', {src, resp}) && Responds(h', resp, src, text)
    ensures Collects(g, resp, src, text) ==> Collects(h', resp, src, text)
    ensures resp in g.views && resp in h'.views && h'.views[resp] == g.views[resp]
  {
    hide WellFormed, Texts, Collects, Within;
    AfterBoth(h, g, h', {resp}, {src});
    assert {resp} + {src} == {src, resp};
    RespondsAfter(g, h', resp, src, text);
    RespondsIs(g, resp, src, text);
    AfterView(g, h', {src}, resp);
    if Collects(g, resp, src, text) {
      CollectsOn(g, resp, src, text, h');
    }
  }

  lemma StillOwner<K>(h: Heap<K>, g: Heap<K>, resp: K, src: K, text: bytes)
    requires Owner(h, src) && After(h, g, {resp}) && Responds(g, resp, src, text)
    ensures Owner(g, src)
  {
    AfterView(h, g, {resp}, src);
    OwnerStays(h, g, {resp}, src);
  }

  lemma LineIsSimple(st: ParserState, text: bytes, inp: bytes)
    requires inp != []
    ensures var k := Index(inp, LF); var r := RM.LineResponse(st, text, inp);
      r == if k == |inp| then RM.ResponseOut(st, text, inp, TryAgain)
           else RM.ResponseOut(st, text + inp[..k + 1], inp[k + 1..], OK)
  {
  }

  lemma GathersIs<K>(h: Heap<K>, resp: K, src: K, text: bytes)
    requires Collects(h, resp, src, text)
    ensures WellFormed(h) && resp in h.views && src in h.views
  {
  }

  /** Consuming input moves its view forward within its block. */
  lemma CollectsOn<K>(h: Heap<K>, resp: K, src: K, text: bytes, h': Heap<K>)
    requires Collects(h, resp, src, text) && After(h, h', {src}) && src in h'.views
    requires h'.views[src].data == h.views[src].data
    ensures Collects(h', resp, src, text) && h'.views[resp] == h.views[resp]
  {
    AfterKeeps(h, h', {src}, resp);
    forall j | j in h'.views && j != resp && h'.views[resp].data != 0 ensures h'.views[j].data != h'.views[resp].data {
      if j != src {
        assert SameView(h, h', j);
      }
    }
  }

  /** More input arrives: the parser sees it behind what it had, and nothing that was handed out changes. */
  lemma InputArrives<K>(h: Heap<K>, src: K, inp: bytes, slack: bytes, data: bytes, h': Heap<K>)
    requires SeesIn(h, src, 0, inp, slack) && FillResult(h, src, data, h') && h'.views[src].data == h.views[src].data
    ensures src in h'.views && InBounds(h'.blocks, h'.views[src])
    ensures SeesIn(h', src, 0, inp + data, Behind(h', src)) && Owner(h', src)
    ensures forall argv, args :: ArgsIn(h, argv, args) && src !in argv ==> ArgsIn(h', argv, args)
    ensures forall resp, text :: Collects(h, resp, src, text) ==> Collects(h', resp, src, text)
  {
    TextIs(h', src);
    assert Texts(h)[src][0..] == Texts(h)[src] && Texts(h')[src][0..] == Texts(h')[src];
    forall argv, args | ArgsIn(h, argv, args) && src !in argv ensures ArgsIn(h', argv, args) {
      forall i | 0 <= i < |argv| ensures argv[i] in h'.views && Texts(h')[argv[i]] == args[i] {
        assert argv[i] != src;
      }
    }
    forall resp, text | Collects(h, resp, src, text) ensures Collects(h', resp, src, text) {
      ResponseStays(h, src, data, h', resp, text);
    }
  }

  lemma ResponseStays<K>(h: Heap<K>, src: K, data: bytes, h': Heap<K>, resp: K, text: bytes)
    requires Collects(h, resp, src, text) && FillResult(h, src, data, h') && h'.views[src].data == h.views[src].data
    ensures Collects(h', resp, src, text)
  {
    forall j | j in h'.views && j != resp && h'.views[resp].data != 0 ensures h'.views[j].data != h'.views[resp].data {
      assert h'.views[j].data == h.views[j].data;
    }
  }

  /** `currentCmd_.Reset();` lets the slices of the input go; the input stays. */
  method DropRequest(parser: CmdParser, cmd: Cmd, ghost inp: bytes, ghost slack: bytes)
    requires parser.Holds(inp, slack) && cmd.Valid() && cmd.mem == parser.inputb.mem && parser.inputb !in cmd.argv
    modifies cmd, cmd.mem
    ensures parser.Holds(inp, slack) && cmd.Valid() && parser.inputb !in cmd.argv && cmd.args == []
  {
    ghost var h, argv := cmd.mem.H(), cmd.argv;
    SeesIsValid(parser.inputbr, inp, slack);
    hide Memory.Valid, Memory.Text, WellFormed, SeesIn, After, ArgsIn, Owner;
    cmd.Reset();
    InputStays(h, cmd.mem.H(), (set a | a in argv), parser.inputb, inp, slack);
    NoArgs(cmd.mem.H(), cmd.argv);
  }

  /** Room for more input behind the bytes that the arguments are slices of. */
  method MakeRoomFor(parser: CmdParser, cmd: Cmd, n: nat, ghost inp: bytes, ghost slack: bytes)
    returns (ghost behind: bytes)
    requires parser.Holds(inp, slack) && cmd.Valid() && cmd.mem == parser.inputb.mem && parser.inputb !in cmd.argv
    modifies parser.inputb, cmd.mem
    ensures parser.Holds(inp, behind) && cmd.Valid() && HasRoom(parser.inputb, n)
  {
    ghost var h := cmd.mem.H();
    hide Memory.Valid, Memory.Text, WellFormed, SeesIn, After, ArgsIn, Owner, Sole;
    behind := parser.MakeRoom(n, inp, slack);
    CmdAfter(cmd, h, {parser.inputb});
  }

  ghost predicate HasRoom(buffer: Buffer, n: nat) reads buffer, buffer.mem, buffer.mem.views.Keys {
    buffer.mem.Valid() && buffer in buffer.mem.views && buffer.FreeSize() >= n
  }

  lemma NoArgs<K>(h: Heap<K>, argv: seq<K>)
    requires ArgsIn(h, argv, [])
    ensures argv == []
  {
  }

  lemma InputStays<K>(h: Heap<K>, h': Heap<K>, dropped: set<K>, src: K, inp: bytes, slack: bytes)
    requires SeesIn(h, src, 0, inp, slack) && Owner(h, src) && After(h, h', dropped)
    requires src !in dropped && h'.views.Keys !! dropped
    ensures SeesIn(h', src, 0, inp, slack) && Owner(h', src)
  {
    SeesAfter(h, h', dropped, src, 0, inp, slack);
    OwnerStays(h, h', dropped, src);
  }

  /** A request parser and the command it fills: the fields, the arguments so far and the unread input. */
  ghost predicate Filling(parser: CmdParser, cmd: Cmd, st: ParserState, argv: seq<bytes>, inp: bytes, slack: bytes)
    reads parser, parser.multibulkParser, parser.inputbr, parser.inputbr.buffer, parser.inputbr.buffer.mem
    reads parser.inputbr.buffer.mem.views.Keys, cmd, cmd.mem, cmd.mem.views.Keys
  {
    && parser.State() == st && cmd.args == argv && parser.Holds(inp, slack)
    && cmd.Valid() && cmd.mem == parser.inputb.mem && parser.inputb !in cmd.argv
  }

  lemma NewInput(h: Heap<Buffer>, src: Buffer)
    requires src.mem.Valid() && WellFormed(h) && src.mem.H() == Attach(h, src, NOTHING) && src !in h.views
    ensures Owner(src.mem.H(), src) && After(h, src.mem.H(), {src})
    ensures SeesIn(src.mem.H(), src, 0, [], [])
  {
    AttachOk(h, src, NOTHING);
    AttachTexts(h, src, NOTHING);
  }

  lemma ParsedIs<K>(h: Heap<K>, argv0: seq<K>, g: Heap<K>, argv: seq<K>, src: K)
    requires Parsed(h, argv0, g, argv, src, {})
    ensures Owner(g, src) && src !in argv
    ensures forall i :: 0 <= i < |argv| ==> argv[i] !in {src}
  {
  }

  lemma Consumed<K>(h: Heap<K>, src: K, at: nat, rest: bytes, slack: bytes)
    requires SeesIn(h, src, at, rest, slack) && Owner(h, src)
    ensures WellFormed(h) && src in h.views && After(h, h, {src})
    ensures var h' := Skipped(h, src, at);
      && After(h, h', {src}) && SeesIn(h', src, 0, rest, slack) && Owner(h', src)
      && SamePlace(h, h', src)
    ensures SamePlace(h, h, src)
    ensures at == 0 ==> SeesIn(h, src, 0, rest, slack)
  {
    InputConsumed(h, src, at, rest, slack);
    AfterNothing(h, {src});
    TextIs(h, src);
  }
}
