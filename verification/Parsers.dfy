/** The parser classes, which move through their input in place, proved against the machines. */
module Parsers {
  import opened Base
  import Decimal
  import Resp
  import opened Scanner
  import opened Blocks
  import opened BufferOps
  import opened BufferRuns
  import opened Buffers
  import opened Slices
  import opened Readers
  import opened RequestMachine
  import RM = ReplyMachine

  /** `ParseInt32(buf, 1, -1)`: atoi sees the block, not the buffer's end. */
  function ParseInt32(buf: Buffer): (i: int)
    requires buf.mem.Valid() && buf in buf.mem.views
    reads buf, buf.mem, buf.mem.views.Keys
    ensures InBounds(buf.mem.blocks, buf.mem.views[buf])
    ensures i == Decimal.ParseInt32(buf.mem.Text(buf), Behind(buf.mem.H(), buf))
  {
    Decimal.ParseInt32(buf.Bytes(), buf.Beyond())
  }

  /** The unread input and the memory behind it, as the machines take them. */
  ghost predicate Sees(br: BufferReader, rest: bytes, slack: bytes)
    reads br, br.buffer, br.buffer.mem, br.buffer.mem.views.Keys
  {
    br.buffer.mem.Valid() && SeesIn(br.buffer.mem.H(), br.buffer, br.offset, rest, slack)
  }

  lemma SeesIsValid(br: BufferReader, rest: bytes, slack: bytes)
    requires Sees(br, rest, slack)
    ensures br.Valid() && br.Rest() == rest && SeesIn(br.buffer.mem.H(), br.buffer, br.offset, rest, slack)
  {
    br.buffer.mem.Reads(br.buffer);
  }

  ghost predicate CanRead(br: BufferReader, inp: bytes, slack: bytes, buf: Buffer)
    reads br, br.buffer, br.buffer.mem, br.buffer.mem.views.Keys
  {
    Sees(br, inp, slack) && buf.mem == br.buffer.mem && Target(br.buffer.mem.H(), buf, br.buffer)
  }

  /** `Cmd`: the arguments, each a buffer of its own. */
  class Cmd {
    const mem: Memory
    var argv: seq<Buffer>
    ghost var args: seq<bytes>

    ghost predicate Valid() reads this, mem, mem.views.Keys {
      && mem.Valid() && ArgsIn(mem.H(), argv, args)
      && forall i :: 0 <= i < |argv| ==> argv[i].mem == mem
    }

    constructor (mem: Memory)
      requires mem.Valid()
      ensures this.mem == mem && Valid() && argv == [] && args == []
    {
      this.mem := mem;
      argv, args := [], [];
    }

    predicate Empty()
      requires Valid()
      reads this, mem, mem.views.Keys
      ensures Empty() <==> args == []
    {
      argv == []
    }

    /** `argv_.push_back(arg)`; the vector copies the buffer, not its bytes. */
    method AppendArg(arg: Buffer, ghost w: View, ghost data: bytes) returns (ghost added: Buffer)
      requires Valid() && arg.mem == mem && IsSlice(mem.H(), arg, w, data)
      modifies this, mem
      ensures Valid() && args == old(args) + [data]
      ensures argv == old(argv) + [added] && fresh(added) && added !in old(mem.views)
      ensures After(old(mem.H()), mem.H(), {added}) && IsSlice(mem.H(), added, w, data)
    {
      hide Memory.Valid, WellFormed, After, Texts, ArgsIn, IsSlice, InBounds;
      var copy := CopyOf(arg, w, data);
      argv := argv + [copy];
      args := args + [data];
      added := copy;
    }

    method CopyOf(arg: Buffer, ghost w: View, ghost data: bytes) returns (copy: Buffer)
      requires Valid() && arg.mem == mem && IsSlice(mem.H(), arg, w, data)
      modifies mem
      ensures mem.Valid() && fresh(copy) && copy.mem == mem && copy !in old(mem.views)
      ensures After(old(mem.H()), mem.H(), {copy}) && IsSlice(mem.H(), copy, w, data)
      ensures ArgsIn(mem.H(), argv + [copy], args + [data])
    {
      ghost var h := mem.H();
      SliceView(arg, w, data);
      hide Memory.Valid, WellFormed, After, Texts, ArgsIn, IsSlice, Attach, Calm;
      copy := new Buffer.Copy(arg);
      ArgCopied(h, argv, args, arg, w, data, copy);
    }

    /** The canonical request, appended to a buffer that is none of the arguments. */
    method FormatRESP2(buffer: Buffer, ghost text: bytes) returns (err: Error)
      requires Valid() && Apart(buffer) && buffer.mem.Valid() && Writes(buffer.mem.H(), buffer, text)
      modifies buffer, buffer.mem
      ensures err == OK && Valid() && buffer.mem.Valid()
      ensures Writes(buffer.mem.H(), buffer, text + Resp.Encode(args))
    {
      ArgsThere(mem.H(), argv, args);
      Regroup(text, Resp.Header(STAR, |argv|), Resp.EncodeArgs(args));
      hide Memory.Valid, WellFormed, After, ArgsIn, Writes, Resp.Header, Resp.EncodeArgs;
      PutBeside(buffer, Resp.Header(STAR, |argv|), text);
      FormatArgs(buffer, text + Resp.Header(STAR, |argv|));
      err := OK;
    }

    ghost predicate Apart(buffer: Buffer) reads this, mem {
      if buffer.mem == mem then buffer !in argv else buffer !in mem.views
    }

    /** What is written to a buffer that is none of the arguments leaves them as they are. */
    method PutBeside(buffer: Buffer, bytes: bytes, ghost text: bytes)
      requires Valid() && Apart(buffer) && buffer.mem.Valid() && Writes(buffer.mem.H(), buffer, text)
      modifies buffer, buffer.mem
      ensures Valid() && Apart(buffer) && buffer.mem.Valid() && Writes(buffer.mem.H(), buffer, text + bytes)
    {
      hide Memory.Valid, WellFormed, After, ArgsIn, Writes;
      ghost var h := mem.H();
      Put(buffer, bytes, text);
      if buffer.mem == mem {
        CmdAfter(this, h, {buffer});
      }
    }

    /** The loop over the arguments. */
    method FormatArgs(buffer: Buffer, ghost text: bytes)
      requires Valid() && Apart(buffer) && buffer.mem.Valid() && Writes(buffer.mem.H(), buffer, text)
      requires |argv| == |args|
      modifies buffer, buffer.mem
      ensures Valid() && buffer.mem.Valid() && Writes(buffer.mem.H(), buffer, text + Resp.EncodeArgs(args))
    {
      hide Memory.Valid, WellFormed, After, ArgsIn, Writes;
      ghost var sofar := text;
      var i := 0;
      while i < |argv|
        invariant 0 <= i <= |argv| == |args| && Valid()
        invariant Apart(buffer) && buffer.mem.Valid() && Writes(buffer.mem.H(), buffer, sofar)
        invariant sofar + Resp.EncodeArgs(args[i..]) == text + Resp.EncodeArgs(args)
      {
        hide Resp.EncodeArgs;
        FormatArg(buffer, i, sofar);
        Resp.EncodeOneMore(sofar, args, i);
        sofar := sofar + Resp.EncodeArg(args[i]);
        i := i + 1;
      }
      assert sofar + Resp.EncodeArgs([]) == sofar;
    }

    /** One argument: its length, its bytes and a line ending. */
    method FormatArg(buffer: Buffer, i: nat, ghost text: bytes)
      requires Valid() && Apart(buffer) && buffer.mem.Valid() && Writes(buffer.mem.H(), buffer, text)
      requires i < |argv| == |args|
      modifies buffer, buffer.mem
      ensures Valid() && Apart(buffer)
      ensures buffer.mem.Valid() && Writes(buffer.mem.H(), buffer, text + Resp.EncodeArg(args[i]))
    {
      hide Memory.Valid, WellFormed, After, ArgsIn, Writes, Resp.EncodeArg, Resp.Header;
      var size, arg := Arg(i);
      ghost var head := Resp.Header(DOLLAR, size);
      ArgAfter(text, arg);
      PutBeside(buffer, Resp.Header(DOLLAR, size), text);
      PutBeside(buffer, arg, text + head);
      PutBeside(buffer, CRLF, text + head + arg);
    }

    /** `Size()` and the bytes at `Data()` of an argument. */
    method Arg(i: nat) returns (size: nat, arg: bytes)
      requires Valid() && i < |argv| == |args|
      ensures arg == args[i] && size == |arg|
    {
      mem.Reads(argv[i]);
      size, arg := argv[i].Length(), argv[i].Bytes();
    }

    /** `argv_.clear()`. */
    method Reset()
      requires Valid()
      modifies this, mem
      ensures Valid() && args == []
      ensures After(old(mem.H()), mem.H(), set a | a in old(argv))
      ensures forall i :: 0 <= i < |old(argv)| ==> old(argv)[i] !in mem.views
    {
      ghost var h := mem.H();
      DroppedNone(h, argv);
      while argv != []
        invariant Valid() && argv <= old(argv) && Dropped(h, old(argv), mem.H(), |argv|)
        decreases |argv|
      {
        hide Memory.Valid, ArgsIn, Dropped;
        ghost var g := mem.H();
        DropLast();
        DroppedMore(h, old(argv), g, |argv|, mem.H());
      }
      ArgsThere(mem.H(), argv, args);
    }

    method DropLast()
      requires Valid() && argv != []
      modifies this, mem
      ensures Valid() && argv == old(argv)[..|old(argv)| - 1]
      ensures After(old(mem.H()), mem.H(), {old(argv[|argv| - 1])})
      ensures mem.H().views.Keys == old(mem.H().views.Keys) - {old(argv[|argv| - 1])}
    {
      hide WellFormed, After, Texts, ArgsIn;
      ArgsFewer(mem.H(), argv, args);
      argv[|argv| - 1].Destroy();
      argv, args := argv[..|argv| - 1], args[..|args| - 1];
    }
  }

  /** From h to g the buffers of `all` from position n on went. */
  ghost predicate Dropped<K>(h: Heap<K>, all: seq<K>, g: Heap<K>, n: nat) {
    After(h, g, set a | a in all) && forall i :: n <= i < |all| ==> all[i] !in g.views
  }

  lemma DroppedNone<K>(h: Heap<K>, all: seq<K>)
    requires WellFormed(h)
    ensures Dropped(h, all, h, |all|)
  {
    AfterNothing(h, set a | a in all);
  }

  lemma DroppedMore<K>(h: Heap<K>, all: seq<K>, g: Heap<K>, n: nat, g': Heap<K>)
    requires Dropped(h, all, g, n + 1) && n < |all|
    requires After(g, g', {all[n]}) && g'.views.Keys == g.views.Keys - {all[n]}
    ensures Dropped(h, all, g', n)
  {
    hide After;
    AfterFewer(h, g, g', all, all[n]);
  }

  /** buf holds text, in a block of its own if any. */
  ghost predicate Writes<K>(h: Heap<K>, buf: K, text: bytes) {
    WellFormed(h) && buf in h.views && Sole(h, buf) && Texts(h)[buf] == text
  }

  lemma WritesIs<K>(h: Heap<K>, buf: K, text: bytes)
    requires Writes(h, buf, text)
    ensures WellFormed(h) && buf in h.views && Owner(h, buf) && Texts(h)[buf] == text
  {
  }

  lemma WritesNothing<K>(h: Heap<K>, buf: K, text: bytes)
    requires Writes(h, buf, text)
    ensures After(h, h, {buf})
  {
  }

  /** `buffer->Append( data, size )` on a buffer that shares its block with nobody. */
  method Put(buffer: Buffer, bytes: bytes, ghost text: bytes)
    requires buffer.mem.Valid() && Writes(buffer.mem.H(), buffer, text)
    modifies buffer, buffer.mem
    ensures buffer.mem.Valid() && Writes(buffer.mem.H(), buffer, text + bytes)
    ensures After(old(buffer.mem.H()), buffer.mem.H(), {buffer})
  {
    ghost var g := buffer.mem.H();
    WritesIs(g, buffer, text);
    WritesNothing(g, buffer, text);
    hide Memory.Valid, WellFormed, After, ArgsIn, Writes, FillResult, Owner;
    var err := buffer.AppendBytes(bytes);
    Wrote(g, g, buffer, text, bytes, buffer.mem.H());
  }

  lemma ArgAfter(text: bytes, arg: bytes)
    ensures text + Resp.EncodeArg(arg) == text + Resp.Header(DOLLAR, |arg|) + arg + CRLF
  {
    var head := Resp.Header(DOLLAR, |arg|);
    Regroup(text, head, arg);
    Regroup(text, head + arg, CRLF);
  }

  lemma Wrote<K>(h0: Heap<K>, h: Heap<K>, buf: K, text: bytes, data: bytes, h': Heap<K>)
    requires Writes(h, buf, text) && FillResult(h, buf, data, h') && After(h0, h, {buf})
    ensures Writes(h', buf, text + data) && After(h0, h', {buf}) && After(h, h', {buf})
  {
    hide WellFormed, Sole;
    assert After(h, h', {buf});
    AfterAgain(h0, h, h', {buf});
  }

  lemma SliceView(buf: Buffer, w: View, data: bytes)
    requires buf.mem.Valid() && IsSlice(buf.mem.H(), buf, w, data)
    ensures buf in buf.mem.views && buf.Rep() == buf.mem.views[buf]
  {
  }

  /** Reading a line into a new buffer. */
  method ReadLine(br: BufferReader, buf: Buffer, ghost inp: bytes, ghost slack: bytes) returns (err: Error)
    requires CanRead(br, inp, slack, buf)
    requires buf in buf.mem.views && buf.mem.views[buf].data == 0 && Texts(buf.mem.H())[buf] == []
    modifies br, buf, br.buffer.mem
    ensures After(old(br.buffer.mem.H()), br.buffer.mem.H(), {buf}) && Borrowed(br.buffer.mem.H(), buf, br.buffer)
    ensures match ReadInt(inp, slack) {
      case NoLine(e) => err == e && Sees(br, inp, slack)
      case Found(_, line, rest) =>
        err == OK && Sees(br, rest, slack) && HasLine(br.buffer.mem.H(), buf, line, rest + slack)
    }
  {
    hide Memory.Valid, WellFormed, Texts, Target, Took, Same, SeesIn, HasLine, After;
    ghost var h, at := br.buffer.mem.H(), br.offset;
    SeesIsValid(br, inp, slack);
    err := br.ReadUntil(buf, LF, 1);
    ghost var h' := br.buffer.mem.H();
    ghost var k := Index(inp, LF);
    if err != OK {
      BorrowedNothing(h, h', buf, br.buffer);
      NothingTaken(h, br.buffer, at, inp, slack, h');
      AfterMore(h, h', buf);
      if err == NotFound {
        err := TryAgain;
      }
    } else {
      LineTaken(h, buf, br.buffer, at, k + 1, inp, slack, h');
      LineBorrowed(h, buf, br.buffer, at, Taken(inp, k + 1), h');
    }
  }

  /** A local `Buffer buf;`. */
  method OpenScratch(br: BufferReader, ghost inp: bytes, ghost slack: bytes) returns (buf: Buffer)
    requires Sees(br, inp, slack)
    modifies br.buffer.mem
    ensures fresh(buf) && CanRead(br, inp, slack, buf) && buf in br.buffer.mem.views && buf !in old(br.buffer.mem.views)
    ensures buf.mem.views[buf].data == 0 && Texts(buf.mem.H())[buf] == [] && Blank(buf.mem.H(), buf, br.buffer)
    ensures After(old(br.buffer.mem.H()), br.buffer.mem.H(), {buf})
  {
    ghost var mem := br.buffer.mem;
    ghost var h := mem.H();
    SeesIsValid(br, inp, slack);
    hide WellFormed, Texts, Target, SeesIn, After, SameBuffer;
    buf := new Buffer(br.buffer.mem);
    NewTarget(h, buf, br.buffer);
    SeesAfter(h, mem.H(), {buf}, br.buffer, br.offset, inp, slack);
  }

  /** The end of its scope. */
  method CloseScratch(br: BufferReader, buf: Buffer, ghost rest: bytes, ghost slack: bytes,
                      ghost h: Heap<Buffer>, ghost but: set<Buffer>)
    requires Sees(br, rest, slack) && buf.mem == br.buffer.mem && buf != br.buffer
    requires After(h, br.buffer.mem.H(), but + {buf}) && buf !in h.views && buf in br.buffer.mem.views
    modifies br.buffer.mem
    ensures Sees(br, rest, slack) && After(h, br.buffer.mem.H(), but)
    ensures br.buffer.mem.H() == Detach(old(br.buffer.mem.H()), buf)
  {
    ghost var mem := br.buffer.mem;
    ghost var g := mem.H();
    ScratchGoes(h, g, buf, but);
    ScratchGone(g, buf);
    SeesAfter(g, Detach(g, buf), {buf}, br.buffer, br.offset, rest, slack);
    hide WellFormed, SeesIn, After, Detach;
    buf.Destroy();
  }

  lemma ScratchGone<K>(g: Heap<K>, buf: K)
    requires WellFormed(g) && buf in g.views
    ensures After(g, Detach(g, buf), {buf})
  {
    DetachOk(g, buf);
  }

  /** `readInt32` of the request parser. */
  method ReadInt32(br: BufferReader, ghost inp: bytes, ghost slack: bytes) returns (err: Error, i: int)
    requires Sees(br, inp, slack)
    modifies br, br.buffer.mem
    ensures After(old(br.buffer.mem.H()), br.buffer.mem.H(), {})
    ensures match ReadInt(inp, slack) {
      case NoLine(e) => err == e && Sees(br, inp, slack)
      case Found(v, _, rest) => err == OK && i == v && Sees(br, rest, slack)
    }
  {
    hide Memory.Valid, WellFormed, Texts, Target, SeesIn, HasLine, After;
    ghost var mem := br.buffer.mem;
    ghost var h := mem.H();
    i := 0;
    var buf := OpenScratch(br, inp, slack);
    assert buf != br.buffer;
    ghost var h1 := mem.H();
    err := ReadLine(br, buf, inp, slack);
    ghost var h2 := mem.H();
    AfterAgain(h, h1, h2, {buf});
    assert {buf} == {} + {buf};
    if err == OK {
      LineIs(buf, ReadInt(inp, slack).line, ReadInt(inp, slack).rest + slack);
      i := ParseInt32(buf);
      CloseScratch(br, buf, ReadInt(inp, slack).rest, slack, h, {});
    } else {
      CloseScratch(br, buf, inp, slack, h, {});
    }
  }

  lemma LineIs(buf: Buffer, line: bytes, beyond: bytes)
    requires buf.mem.Valid() && HasLine(buf.mem.H(), buf, line, beyond)
    ensures buf in buf.mem.views && buf.mem.Text(buf) == line
    ensures InBounds(buf.mem.blocks, buf.mem.views[buf]) && Behind(buf.mem.H(), buf) == beyond
  {
    buf.mem.Reads(buf);
  }

  /** buf, empty before, holds the n bytes wanted, or the reader says why not. */
  ghost predicate Got(br: BufferReader, h: Heap<Buffer>, buf: Buffer, want: Want, inp: bytes, slack: bytes, err: Error)
    reads br, br.buffer, br.buffer.mem, br.buffer.mem.views.Keys
  {
    && After(h, br.buffer.mem.H(), {buf}) && buf in br.buffer.mem.views
    && br.buffer in h.views && Within(br.buffer.mem.views[buf], h.views[br.buffer])
    && match want
       case No(e) => err == e && Sees(br, inp, slack)
       case Yes(n) =>
         && err == OK && n <= |inp| && Sees(br, inp[n..], slack) && br.buffer in h.views
         && IsSlice(br.buffer.mem.H(), buf, h.views[br.buffer], Taken(inp, n))
  }

  /** buf is empty and may take slices of the input. */
  ghost predicate Blank(h: Heap<Buffer>, buf: Buffer, src: Buffer) {
    Target(h, buf, src) && h.views[buf].data == 0 && Texts(h)[buf] == []
  }

  lemma BlankIs(h: Heap<Buffer>, buf: Buffer, src: Buffer)
    requires Blank(h, buf, src)
    ensures WellFormed(h) && buf in h.views && src in h.views && buf != src
    ensures h.views[buf].data == 0 && Texts(h)[buf] == [] && Within(h.views[buf], h.views[src])
  {
    NullHolds(h, buf);
  }

  lemma NullHolds<K>(h: Heap<K>, buf: K)
    requires WellFormed(h) && buf in h.views && h.views[buf].data == 0
    ensures h.views[buf].size == 0
  {
    HeldBlock(h, buf);
  }

  lemma AnswerIsGot(br: BufferReader, h: Heap<Buffer>, buf: Buffer, at: nat, want: Want, inp: bytes, slack: bytes,
                    err: Error)
    requires SeesIn(h, br.buffer, at, inp, slack) && Blank(h, buf, br.buffer)
    requires want.Yes? ==> want.n <= |inp|
    requires br.buffer.mem.Valid() && br.Answers(h, buf, at, inp, want, err)
    ensures Got(br, h, buf, want, inp, slack, err)
  {
    hide Memory.Valid, WellFormed, Texts, SeesIn, After, Took, Calm, InBounds;
    BlankIs(h, buf, br.buffer);
    var h' := br.buffer.mem.H();
    match want
    case No(e) =>
      NothingTaken(h, br.buffer, at, inp, slack, h');
      AfterMore(h, h', buf);
    case Yes(n) =>
      SliceTaken(h, buf, br.buffer, at, n, inp, slack, h');
      SliceWithin(h', buf, h.views[br.buffer], Taken(inp, n));
  }

  /** Reading n bytes into a new buffer. */
  method ReadSlice(br: BufferReader, buf: Buffer, n: nat, ghost inp: bytes, ghost slack: bytes) returns (err: Error)
    requires CanRead(br, inp, slack, buf) && Blank(br.buffer.mem.H(), buf, br.buffer)
    modifies br, buf, br.buffer.mem
    ensures Got(br, old(br.buffer.mem.H()), buf, Exactly(inp, n), inp, slack, err)
  {
    ghost var h, at := br.buffer.mem.H(), br.offset;
    SeesIsValid(br, inp, slack);
    hide Memory.Valid, Memory.Text, WellFormed, Texts, Target, SeesIn, Blank, Got, BufferReader.Answers;
    err := br.Read(buf, n);
    AnswerIsGot(br, h, buf, at, Exactly(inp, n), inp, slack, err);
  }

  lemma SeesKeeps(br: BufferReader, h: Heap<Buffer>, but: set<Buffer>, rest: bytes, slack: bytes)
    requires br.buffer.mem.Valid() && SeesIn(h, br.buffer, br.offset, rest, slack)
    requires After(h, br.buffer.mem.H(), but) && br.buffer !in but
    ensures Sees(br, rest, slack)
  {
    SeesAfter(h, br.buffer.mem.H(), but, br.buffer, br.offset, rest, slack);
  }

  lemma AfterView<K>(h: Heap<K>, h': Heap<K>, but: set<K>, k: K)
    requires After(h, h', but) && k in h.views && k !in but
    ensures k in h'.views && h'.views[k] == h.views[k]
  {
    assert SameView(h, h', k);
  }

  /** `buf.Offset(0, -drop)` on a slice. */
  method TrimSlice(buf: Buffer, ghost w: View, ghost data: bytes, drop: nat)
    requires buf.mem.Valid() && IsSlice(buf.mem.H(), buf, w, data)
    modifies buf, buf.mem
    ensures buf.mem.Valid() && After(old(buf.mem.H()), buf.mem.H(), {buf})
    ensures IsSlice(buf.mem.H(), buf, w, Trim(data, drop))
  {
    ghost var h := buf.mem.H();
    SliceView(buf, w, data);
    SliceTrimmed(h, buf, w, data, drop);
    hide Memory.Valid, IsSlice, After, Trimmed, Trim;
    SkipBack(buf, drop);
  }

  /** `buf.Offset(0, -drop)` */
  method SkipBack(buf: Buffer, drop: nat)
    requires buf.mem.Valid() && buf in buf.mem.views && buf.Rep() == buf.mem.views[buf]
    modifies buf, buf.mem
    ensures buf.mem.Valid() && buf.mem.H() == Trimmed(old(buf.mem.H()), buf, drop)
  {
    hide Memory.Valid, Memory.Text, OffsetText, OffsetView, Calm;
    buf.Skip(0, 0 - drop);
  }

  lemma CmdAfter(cmd: Cmd, h: Heap<Buffer>, but: set<Buffer>)
    requires cmd.mem.Valid() && ArgsIn(h, cmd.argv, cmd.args) && After(h, cmd.mem.H(), but)
    requires forall i :: 0 <= i < |cmd.argv| ==> cmd.argv[i] !in but && cmd.argv[i].mem == cmd.mem
    ensures cmd.Valid()
  {
    ArgsAfter(h, cmd.mem.H(), but, cmd.argv, cmd.args);
  }

  /** `cmd->AppendArg(buf)` for a slice of the input. */
  method KeepArg(cmd: Cmd, br: BufferReader, buf: Buffer, ghost w: View, ghost data: bytes,
                 ghost rest: bytes, ghost slack: bytes)
    returns (ghost added: Buffer)
    requires Sees(br, rest, slack) && cmd.Valid() && cmd.mem == br.buffer.mem == buf.mem && buf != br.buffer
    requires IsSlice(buf.mem.H(), buf, w, data)
    modifies cmd, br.buffer.mem
    ensures Sees(br, rest, slack) && cmd.Valid()
    ensures cmd.argv == old(cmd.argv) + [added] && cmd.args == old(cmd.args) + [data]
    ensures fresh(added) && added !in old(cmd.mem.views) && buf in cmd.mem.views
    ensures After(old(cmd.mem.H()), cmd.mem.H(), {added}) && IsSlice(cmd.mem.H(), added, w, data)
  {
    ghost var h := cmd.mem.H();
    SliceView(buf, w, data);
    SeesIsValid(br, rest, slack);
    hide Memory.Valid, WellFormed, Texts, SeesIn, IsSlice, After, InBounds, ArgsIn;
    added := cmd.AppendArg(buf, w, data);
    SeesAfter(h, cmd.mem.H(), {added}, br.buffer, br.offset, rest, slack);
    StillThere(h, cmd.mem.H(), {added}, buf);
  }

  lemma StillThere<K>(h: Heap<K>, h': Heap<K>, but: set<K>, buf: K)
    requires After(h, h', but) && buf in h.views && buf !in but
    ensures buf in h'.views
  {
  }

  /** `Buffer buf; br.Read(&buf, n); buf.Offset(0, -2); cmd->AppendArg(buf);` */
  method TakeArg(cmd: Cmd, br: BufferReader, n: nat, ghost inp: bytes, ghost slack: bytes)
    returns (err: Error, ghost added: Buffer)
    requires Sees(br, inp, slack) && cmd.Valid() && cmd.mem == br.buffer.mem
    modifies cmd, br, br.buffer.mem
    ensures cmd.Valid()
    ensures inp == [] || n > |inp| ==>
      && err == OutOfBound && Sees(br, inp, slack) && cmd.argv == old(cmd.argv) && cmd.args == old(cmd.args)
      && After(old(br.buffer.mem.H()), br.buffer.mem.H(), {})
    ensures !(inp == [] || n > |inp|) ==>
      && err == OK && Sees(br, inp[n..], slack)
      && cmd.argv == old(cmd.argv) + [added] && cmd.args == old(cmd.args) + [Trim(Taken(inp, n), 2)]
      && added !in old(br.buffer.mem.views) && fresh(added)
      && After(old(br.buffer.mem.H()), br.buffer.mem.H(), {added})
      && added in br.buffer.mem.views && br.buffer in old(br.buffer.mem.views)
      && Within(br.buffer.mem.views[added], old(br.buffer.mem.views[br.buffer]))
  {
    hide Memory.Valid, WellFormed, Texts, Target, SeesIn, IsSlice, After, InBounds, ArgsIn;
    ghost var mem, h := br.buffer.mem, br.buffer.mem.H();
    SeesIsValid(br, inp, slack);
    ghost var w := mem.views[br.buffer];
    var buf := OpenScratch(br, inp, slack);
    ghost var h1 := mem.H();
    AfterView(h, h1, {buf}, br.buffer);
    err := ReadSlice(br, buf, n, inp, slack);
    AfterAgain(h, h1, mem.H(), {buf});
    CmdAfter(cmd, h, {buf});
    added := buf;
    if err != OK {
      assert {buf} == {} + {buf};
      CloseScratch(br, buf, inp, slack, h, {});
      CmdAfter(cmd, h, {});
      return;
    }
    ghost var data, rest := Taken(inp, n), inp[n..];
    ghost var h2 := mem.H();
    TrimSlice(buf, w, data, 2);
    SeesKeeps(br, h2, {buf}, rest, slack);
    AfterAgain(h, h2, mem.H(), {buf});
    CmdAfter(cmd, h, {buf});
    ghost var h3 := mem.H();
    added := KeepArg(cmd, br, buf, w, Trim(data, 2), rest, slack);
    AfterBoth(h, h3, mem.H(), {buf}, {added});
    assert {buf} + {added} == {added} + {buf};
    ghost var h4 := mem.H();
    CloseScratch(br, buf, rest, slack, h, {added});
    ScratchGone(h4, buf);
    SliceAfter(h4, mem.H(), {buf}, added, w, Trim(data, 2));
    CmdAfter(cmd, h4, {buf});
  }

  /** A parser may go on from here: it sees its input and the arguments collected so far. */
  ghost predicate Ready(cmd: Cmd, br: BufferReader, rest: bytes, slack: bytes)
    reads cmd, cmd.mem, cmd.mem.views.Keys, br, br.buffer, br.buffer.mem, br.buffer.mem.views.Keys
  {
    Sees(br, rest, slack) && cmd.Valid() && cmd.mem == br.buffer.mem
  }

  /** One turn of the request loop: its header, when the length is not known yet. */
  lemma LoopStep(m: Multibulk, argv: seq<bytes>, inp: bytes, slack: bytes)
    ensures var r := RequestLoop(m, argv, inp, slack); var s := ReadInt(inp, slack);
      && (m.index >= m.len ==> r == BulkOut(m, argv, inp, OK, false))
      && (m.index < m.len && m.bulk != 0 ==> r == ReadBulk(m, argv, inp, slack))
      && (m.index < m.len && m.bulk == 0 && s.NoLine? ==> r == BulkOut(m, argv, inp, s.err, false))
      && (m.index < m.len && m.bulk == 0 && s.Found? ==> r == ReadBulk(m.(bulk := s.value), argv, s.rest, slack))
  {
  }

  /** The body of a bulk string. */
  lemma BulkStep(m: Multibulk, argv: seq<bytes>, inp: bytes, slack: bytes)
    requires m.index < m.len
    ensures var n := ReadLength(m.bulk); var r := ReadBulk(m, argv, inp, slack);
      && (inp == [] || n > |inp| ==> r == BulkOut(m, argv, inp, TryAgain, true))
      && (!(inp == [] || n > |inp|) ==>
            r == RequestLoop(Multibulk(m.len, m.index + 1, 0), argv + [Trim(Taken(inp, n), 2)], inp[n..], slack))
  {
    hide RequestLoop, Trim, Taken, ReadLength;
  }

  /** One turn of the reply loop: its header. */
  lemma ReplyStep(m: Multibulk, resp: bytes, inp: bytes, slack: bytes)
    ensures var r := RM.ReplyLoop(m, resp, inp, slack); var s := ReadInt(inp, slack);
      var next := Multibulk(m.len, m.index + 1, 0);
      && (m.index >= m.len ==> r == RM.ReplyOut(m, resp, inp, OK))
      && (m.index < m.len && m.bulk != 0 ==> r == RM.ReadReplyBulk(m, resp, inp, slack))
      && (m.index < m.len && m.bulk == 0 && s.NoLine? ==> r == RM.ReplyOut(m, resp, inp, s.err))
      && (m.index < m.len && m.bulk == 0 && s.Found? && s.value <= 0 ==>
            r == RM.ReplyLoop(next, resp + s.line, s.rest, slack))
      && (m.index < m.len && m.bulk == 0 && s.Found? && s.value > 0 ==>
            r == RM.ReadReplyBulk(m.(bulk := s.value), resp + s.line, s.rest, slack))
  {
  }

  /** The body of a bulk string of a reply. */
  lemma ReplyBulkStep(m: Multibulk, resp: bytes, inp: bytes, slack: bytes)
    requires m.index < m.len
    ensures var n := ReadLength(m.bulk); var r := RM.ReadReplyBulk(m, resp, inp, slack);
      && (inp == [] || n > |inp| ==> r == RM.ReplyOut(m, resp, inp, TryAgain))
      && (!(inp == [] || n > |inp|) ==>
            r == RM.ReplyLoop(Multibulk(m.len, m.index + 1, 0), resp + Taken(inp, n), inp[n..], slack))
  {
    hide RM.ReplyLoop, Taken, ReadLength;
  }

  class MultibulkParser {
    var multibulkLen: int
    var multibulkIndex: int
    var bulkLen: int

    ghost function State(): Multibulk reads this {
      Multibulk(multibulkLen, multibulkIndex, bulkLen)
    }

    constructor ()
      ensures State() == START
    {
      multibulkLen, multibulkIndex, bulkLen := 0, 0, 0;
    }

    method Reset()
      modifies this
      ensures State() == START
    {
      multibulkLen, multibulkIndex, bulkLen := 0, 0, 0;
    }

    method HandleRequest(cmd: Cmd, br: BufferReader, ghost inp: bytes, ghost slack: bytes) returns (err: Error)
      requires Ready(cmd, br, inp, slack)
      requires Parsed(cmd.mem.H(), cmd.argv, cmd.mem.H(), cmd.argv, br.buffer, {})
      modifies this, cmd, br, br.buffer.mem
      ensures var out := RequestMachine.HandleRequest(old(State()), old(cmd.args), inp, slack);
        && Ready(cmd, br, out.rest, slack)
        && State() == out.mb && cmd.args == out.argv && err == out.err
      ensures Parsed(old(cmd.mem.H()), old(cmd.argv), cmd.mem.H(), cmd.argv, br.buffer, {})
    {
      hide Memory.Valid, WellFormed, SeesIn, ArgsIn, After, Parsed;
      ghost var mem, h, argv0 := cmd.mem, cmd.mem.H(), cmd.argv;
      ghost var rest := inp;
      if multibulkLen == 0 {
        var value;
        err, value := ReadInt32(br, inp, slack);
        ParsedStep(h, argv0, h, cmd.argv, br.buffer, {}, mem.H());
        CmdAfter(cmd, h, {});
        if err != OK {
          return;
        }
        multibulkLen := value;
        rest := ReadInt(inp, slack).rest;
      }
      err := ReadArgs(cmd, br, rest, slack, h, argv0);
    }

    /** The loop over the bulk strings. */
    method ReadArgs(cmd: Cmd, br: BufferReader, ghost inp: bytes, ghost slack: bytes,
                    ghost h: Heap<Buffer>, ghost argv0: seq<Buffer>) returns (err: Error)
      requires Ready(cmd, br, inp, slack) && Parsed(h, argv0, cmd.mem.H(), cmd.argv, br.buffer, {})
      modifies this, cmd, br, br.buffer.mem
      ensures var out := RequestLoop(old(State()), old(cmd.args), inp, slack);
        && Ready(cmd, br, out.rest, slack)
        && State() == out.mb && cmd.args == out.argv && err == out.err
      ensures Parsed(h, argv0, cmd.mem.H(), cmd.argv, br.buffer, {})
    {
      hide Memory.Valid, WellFormed, SeesIn, ArgsIn, After, Parsed, RequestLoop, ReadBulk, Ready, Texts, InBounds;
      ghost var mem, rest := cmd.mem, inp;
      ghost var goal := RequestLoop(State(), cmd.args, inp, slack);
      err := OK;
      while multibulkIndex < multibulkLen
        invariant err == OK && Ready(cmd, br, rest, slack) && Parsed(h, argv0, mem.H(), cmd.argv, br.buffer, {})
        invariant RequestLoop(State(), cmd.args, rest, slack) == goal
        decreases multibulkLen - multibulkIndex
      {
        LoopStep(State(), cmd.args, rest, slack);
        err, rest := ReadHeader(cmd, br, rest, slack, h, argv0);
        if err != OK {
          return;
        }
        BulkStep(State(), cmd.args, rest, slack);
        err, rest := OneArg(cmd, br, rest, slack, h, argv0);
        if err != OK {
          return;
        }
        bulkLen := 0;
        multibulkIndex := multibulkIndex + 1;
      }
      LoopStep(State(), cmd.args, rest, slack);
    }

    /** The header of a bulk string, unless it was read by an earlier call. */
    method ReadHeader(cmd: Cmd, br: BufferReader, ghost inp: bytes, ghost slack: bytes,
                       ghost h: Heap<Buffer>, ghost argv0: seq<Buffer>) returns (err: Error, ghost rest: bytes)
      requires Ready(cmd, br, inp, slack) && Parsed(h, argv0, cmd.mem.H(), cmd.argv, br.buffer, {})
      modifies this`bulkLen, br, br.buffer.mem
      ensures cmd.args == old(cmd.args) && Ready(cmd, br, rest, slack)
      ensures Parsed(h, argv0, cmd.mem.H(), cmd.argv, br.buffer, {})
      ensures old(bulkLen) != 0 ==> err == OK && rest == inp && bulkLen == old(bulkLen)
      ensures old(bulkLen) == 0 ==> var s := ReadInt(inp, slack);
        && (s.NoLine? ==> err == s.err && rest == inp && bulkLen == 0)
        && (s.Found? ==> err == OK && rest == s.rest && bulkLen == s.value)
    {
      hide Memory.Valid, WellFormed, SeesIn, ArgsIn, After, Parsed;
      ghost var g := cmd.mem.H();
      rest := inp;
      if bulkLen != 0 {
        return OK, inp;
      }
      var value;
      err, value := ReadInt32(br, inp, slack);
      ParsedStep(h, argv0, g, cmd.argv, br.buffer, {}, cmd.mem.H());
      CmdAfter(cmd, g, {});
      if err == OK {
        bulkLen := value;
        rest := ReadInt(inp, slack).rest;
      }
    }

    method OneArg(cmd: Cmd, br: BufferReader, ghost inp: bytes, ghost slack: bytes,
                  ghost h: Heap<Buffer>, ghost argv0: seq<Buffer>) returns (err: Error, ghost rest: bytes)
      requires Ready(cmd, br, inp, slack) && Parsed(h, argv0, cmd.mem.H(), cmd.argv, br.buffer, {})
      modifies cmd, br, br.buffer.mem
      ensures var n := ReadLength(bulkLen);
        && Ready(cmd, br, rest, slack)
        && (inp == [] || n > |inp| ==> err == TryAgain && rest == inp && cmd.args == old(cmd.args))
        && (!(inp == [] || n > |inp|) ==>
              err == OK && rest == inp[n..] && cmd.args == old(cmd.args) + [Trim(Taken(inp, n), 2)])
      ensures Parsed(h, argv0, cmd.mem.H(), cmd.argv, br.buffer, {})
    {
      hide Memory.Valid, WellFormed, SeesIn, ArgsIn, After, Parsed, Within;
      ghost var mem, g, argv := cmd.mem, cmd.mem.H(), cmd.argv;
      ghost var added;
      var n := ReadLength(bulkLen);
      err, added := TakeArg(cmd, br, n, inp, slack);
      if err != OK {
        ParsedStep(h, argv0, g, argv, br.buffer, {}, mem.H());
        rest := inp;
        if err == OutOfBound {
          err := TryAgain;
        }
      } else {
        ParsedMore(h, argv0, g, argv, br.buffer, {}, mem.H(), added);
        rest := inp[n..];
      }
    }

    method HandleResponse(pbuf: Buffer, br: BufferReader, ghost inp: bytes, ghost slack: bytes, ghost resp: bytes)
      returns (err: Error)
      requires Collecting(br, pbuf, inp, slack, resp) && HasBlock(pbuf)
      modifies this, pbuf, br, br.buffer.mem
      ensures var out := RM.HandleResponse(old(State()), resp, inp, slack);
        && Collecting(br, pbuf, out.rest, slack, out.resp)
        && State() == out.mb && err == out.err
      ensures err != OK ==> HasBlock(pbuf)
      ensures After(old(br.buffer.mem.H()), br.buffer.mem.H(), {pbuf})
    {
      hide Memory.Valid, WellFormed, SeesIn, After, Collects, RM.ReplyLoop;
      ghost var mem, h := br.buffer.mem, br.buffer.mem.H();
      ghost var rest, text := inp, resp;
      CollectingIs(br, pbuf, inp, slack, resp);
      AfterNothing(h, {pbuf});
      if multibulkLen == 0 {
        var ch := br.Current();
        if ch == STAR {
          var value;
          err, value := ReadInt32Into(br, pbuf, inp, slack, resp);
          if err != OK {
            return;
          }
          multibulkLen := value;
          rest, text := ReadInt(inp, slack).rest, resp + ReadInt(inp, slack).line;
        } else {
          multibulkLen := 1;
        }
      }
      err := GatherBulks(pbuf, br, rest, slack, text, h);
    }

    /** A bulk string is only continued in a buffer that has a block. */
    ghost predicate HasBlock(pbuf: Buffer) reads this, pbuf, pbuf.mem {
      bulkLen != 0 ==> pbuf in pbuf.mem.views && pbuf.mem.views[pbuf].data != 0
    }

    /** The loop over the bulk strings of a reply. */
    method GatherBulks(pbuf: Buffer, br: BufferReader, ghost inp: bytes, ghost slack: bytes, ghost resp: bytes,
                       ghost h: Heap<Buffer>) returns (err: Error)
      requires Collecting(br, pbuf, inp, slack, resp) && HasBlock(pbuf) && After(h, pbuf.mem.H(), {pbuf})
      modifies this, pbuf, br, br.buffer.mem
      ensures var out := RM.ReplyLoop(old(State()), resp, inp, slack);
        && Collecting(br, pbuf, out.rest, slack, out.resp)
        && State() == out.mb && err == out.err
      ensures err != OK ==> HasBlock(pbuf)
      ensures pbuf.mem == br.buffer.mem && After(h, br.buffer.mem.H(), {pbuf})
    {
      hide Memory.Valid, WellFormed, SeesIn, After, Collects, Collecting, RM.ReplyLoop;
      ghost var rest, text, goal := inp, resp, RM.ReplyLoop(State(), resp, inp, slack);
      SameMemory(br, pbuf, inp, slack, resp);
      err := OK;
      while multibulkIndex < multibulkLen
        invariant err == OK && Collecting(br, pbuf, rest, slack, text) && HasBlock(pbuf)
        invariant After(h, pbuf.mem.H(), {pbuf})
        invariant RM.ReplyLoop(State(), text, rest, slack) == goal
        decreases multibulkLen - multibulkIndex
      {
        err, rest, text := GatherBulk(pbuf, br, rest, slack, text, h);
        if err != OK {
          return;
        }
        multibulkIndex := multibulkIndex + 1;
      }
      ReplyStep(State(), text, rest, slack);
    }

    /** The body of the loop. */
    method GatherBulk(pbuf: Buffer, br: BufferReader, ghost inp: bytes, ghost slack: bytes, ghost resp: bytes,
                      ghost h: Heap<Buffer>) returns (err: Error, ghost rest: bytes, ghost text: bytes)
      requires multibulkIndex < multibulkLen && pbuf.mem == br.buffer.mem
      requires Collecting(br, pbuf, inp, slack, resp) && HasBlock(pbuf) && After(h, pbuf.mem.H(), {pbuf})
      modifies this`bulkLen, pbuf, br, br.buffer.mem
      ensures Collecting(br, pbuf, rest, slack, text) && HasBlock(pbuf) && After(h, pbuf.mem.H(), {pbuf})
      ensures err != OK ==> RM.ReplyLoop(old(State()), resp, inp, slack) == RM.ReplyOut(State(), text, rest, err)
      ensures err == OK ==> bulkLen == 0
      ensures err == OK ==>
        RM.ReplyLoop(Multibulk(multibulkLen, multibulkIndex + 1, 0), text, rest, slack)
          == RM.ReplyLoop(old(State()), resp, inp, slack)
    {
      hide Memory.Valid, WellFormed, SeesIn, After, Collects, Collecting, RM.ReplyLoop, RM.ReadReplyBulk;
      var skip;
      ReplyStep(State(), resp, inp, slack);
      err, skip, rest, text := GatherHeader(pbuf, br, inp, slack, resp, h);
      if err == OK && !skip {
        ReplyBulkStep(State(), text, rest, slack);
        err, rest, text := GatherBody(pbuf, br, rest, slack, text, h);
      }
      if err == OK {
        bulkLen := 0;
      }
    }

    method GatherHeader(pbuf: Buffer, br: BufferReader, ghost inp: bytes, ghost slack: bytes, ghost resp: bytes,
                        ghost h: Heap<Buffer>) returns (err: Error, skip: bool, ghost rest: bytes, ghost text: bytes)
      requires Collecting(br, pbuf, inp, slack, resp) && HasBlock(pbuf) && After(h, pbuf.mem.H(), {pbuf})
      modifies this`bulkLen, pbuf, br, br.buffer.mem
      ensures Collecting(br, pbuf, rest, slack, text) && HasBlock(pbuf) && After(h, pbuf.mem.H(), {pbuf})
      ensures old(bulkLen) != 0 ==> err == OK && !skip && rest == inp && text == resp && bulkLen == old(bulkLen)
      ensures old(bulkLen) == 0 ==> var s := ReadInt(inp, slack);
        && (s.NoLine? ==> err == s.err && rest == inp && text == resp && bulkLen == 0)
        && (s.Found? ==> err == OK && rest == s.rest && text == resp + s.line)
        && (s.Found? ==> bulkLen == s.value && skip == (s.value <= 0))
      ensures err != OK ==> !skip && bulkLen == 0
    {
      hide Memory.Valid, WellFormed, SeesIn, After, Collects;
      ghost var g := pbuf.mem.H();
      rest, text, skip, err := inp, resp, false, OK;
      if bulkLen == 0 {
        var value;
        err, value := ReadInt32Into(br, pbuf, inp, slack, resp);
        AfterAgain(h, g, pbuf.mem.H(), {pbuf});
        if err == OK {
          bulkLen := value;
          skip := bulkLen <= 0;
          rest, text := ReadInt(inp, slack).rest, resp + ReadInt(inp, slack).line;
        }
      }
    }

    /** `br.Read(pbuf, bulkLen_ + 2)`. */
    method GatherBody(pbuf: Buffer, br: BufferReader, ghost inp: bytes, ghost slack: bytes, ghost resp: bytes,
                      ghost h: Heap<Buffer>) returns (err: Error, ghost rest: bytes, ghost text: bytes)
      requires bulkLen != 0
      requires Collecting(br, pbuf, inp, slack, resp) && HasBlock(pbuf) && After(h, pbuf.mem.H(), {pbuf})
      modifies pbuf, br, br.buffer.mem
      ensures Collecting(br, pbuf, rest, slack, text) && After(h, pbuf.mem.H(), {pbuf})
      ensures var n := ReadLength(bulkLen);
        && (inp == [] || n > |inp| ==> err == TryAgain && rest == inp && text == resp && HasBlock(pbuf))
        && (!(inp == [] || n > |inp|) ==> err == OK && rest == inp[n..] && text == resp + Taken(inp, n))
    {
      ghost var g, at := pbuf.mem.H(), br.offset;
      CollectingIs(br, pbuf, inp, slack, resp);
      hide Memory.Valid, Memory.Text, WellFormed, SeesIn, After, Collects, Target, BufferReader.Answers;
      var n := ReadLength(bulkLen);
      err := br.Read(pbuf, n);
      BodyRead(br, pbuf, g, at, n, inp, slack, resp, err);
      rest := if err == OK then inp[n..] else inp;
      text := if err == OK then resp + Taken(inp, n) else resp;
      AfterAgain(h, g, pbuf.mem.H(), {pbuf});
      if err == OutOfBound {
        err := TryAgain;
      }
    }
  }

  const SPLIT_SIGN: seq<byte> := [SPACE, LF]

  lemma FirstSplitIs(s: bytes)
    ensures FirstListed(SPLIT_SIGN, s) == FirstSplit(s)
  {
    assert SPLIT_SIGN[1..] == [LF] && [LF][1..] == [];
    assert FirstListed([LF], s) == if LF in s then Index(s, LF) else |s|;
    IndexStable(s, [], LF);
  }

  /** Reading up to a split sign into a new buffer. */
  method ReadToken(br: BufferReader, buf: Buffer, ghost inp: bytes, ghost slack: bytes) returns (err: Error)
    requires CanRead(br, inp, slack, buf) && Blank(br.buffer.mem.H(), buf, br.buffer)
    modifies br, buf, br.buffer.mem
    ensures Got(br, old(br.buffer.mem.H()), buf, Delimited(inp, FirstSplit(inp), 0), inp, slack, err)
    ensures br.offset == if err == OK then old(br.offset) + FirstSplit(inp) else old(br.offset)
  {
    ghost var h, at := br.buffer.mem.H(), br.offset;
    SeesIsValid(br, inp, slack);
    FirstSplitIs(inp);
    err := br.ReadUntilAny(buf, SPLIT_SIGN);
    hide Memory.Valid, Memory.Text, WellFormed, Texts, Target, SeesIn, Blank, Got;
    AnswerIsGot(br, h, buf, at, Delimited(inp, FirstSplit(inp), 0), inp, slack, err);
  }

  /** Inline parsing under way: argv0 grew to cmd.argv, buf is its scratch buffer, the whole input was `inp`. */
  ghost predicate Splitting(cmd: Cmd, br: BufferReader, buf: Buffer, rest: bytes, slack: bytes,
                            h: Heap<Buffer>, argv0: seq<Buffer>, inp: bytes)
    reads cmd, cmd.mem, cmd.mem.views.Keys, br, br.buffer, br.buffer.mem, br.buffer.mem.views.Keys
  {
    && Ready(cmd, br, rest, slack) && buf.mem == cmd.mem && buf != br.buffer && buf in cmd.mem.views
    && Parsed(h, argv0, cmd.mem.H(), cmd.argv, br.buffer, {buf})
    && Whole(cmd.mem.H(), br.buffer, inp) && br.offset <= |inp| && inp[br.offset..] == rest
  }

  /** buf holds the k bytes in front of the cursor, or all from there on when k is zero. */
  ghost predicate HoldsToken(br: BufferReader, buf: Buffer, rest: bytes, k: nat)
    reads br, br.buffer, br.buffer.mem
  {
    && k < |rest| && br.buffer in br.buffer.mem.views
    && IsSlice(br.buffer.mem.H(), buf, br.buffer.mem.views[br.buffer], Taken(rest, k))
  }

  /** The last argument of a line, without the CR in front of the LF. */
  function LastArg(rest: bytes): bytes
    requires FirstSplit(rest) < |rest|
  {
    var k := FirstSplit(rest);
    if k > 0 && rest[k - 1] == CR then Trim(Taken(rest, k), 1) else Taken(rest, k)
  }

  lemma InlineStep(argv: seq<bytes>, rest: bytes)
    ensures var k := FirstSplit(rest); var r := InlineRequest(argv, rest);
      && (rest == [] ==> r == InlineOut(argv, rest, OutOfBound))
      && (rest != [] && k == |rest| ==> r == InlineOut(argv, rest, TryAgain))
      && (k < |rest| && rest[k] == LF ==> r == InlineOut(argv + [LastArg(rest)], rest[k + 1..], OK))
      && (k < |rest| && rest[k] != LF ==> r == InlineRequest(argv + [Taken(rest, k)], rest[k + 1..]))
  {
  }

  class InlineParser {
    constructor () {}

    method HandleRequest(cmd: Cmd, br: BufferReader, ghost inp: bytes, ghost slack: bytes) returns (err: Error)
      requires Ready(cmd, br, inp, slack) && br.offset == 0
      requires Parsed(cmd.mem.H(), cmd.argv, cmd.mem.H(), cmd.argv, br.buffer, {})
      modifies cmd, br, br.buffer.mem
      ensures var out := InlineRequest(old(cmd.args), inp);
        Ready(cmd, br, out.rest, slack) && cmd.args == out.argv && err == out.err
      ensures Parsed(old(cmd.mem.H()), old(cmd.argv), cmd.mem.H(), cmd.argv, br.buffer, {})
    {
      ghost var h, argv0 := cmd.mem.H(), cmd.argv;
      assert AfterSpace(inp, inp);
      var buf := Start(cmd, br, inp, slack);
      hide Memory.Valid, WellFormed, Parsed, Blank, Splitting, TokenRead, InlineRequest, AfterSpace;
      ghost var rest, goal := inp, InlineRequest(cmd.args, inp);
      var done := false;
      err := NextToken(cmd, br, buf, rest, slack, h, argv0, inp);
      while err == OK
        invariant InlineRequest(cmd.args, rest) == goal
        invariant err == OK ==> TokenRead(cmd, br, buf, rest, slack, h, argv0, inp)
        invariant err != OK ==> NoToken(rest, err) && Splitting(cmd, br, buf, rest, slack, h, argv0, inp)
        decreases |rest|
      {
        done, err, rest := OneToken(cmd, br, buf, rest, slack, h, argv0, inp, goal);
        if done {
          Finish(cmd, br, buf, rest, slack, h, argv0, inp);
          return OK;
        }
      }
      InlineStep(cmd.args, rest);
      Finish(cmd, br, buf, rest, slack, h, argv0, inp);
      if err == NotFound {
        err := TryAgain;
      }
    }

    /** The body of the loop. The line is done when `done` is set; otherwise the next token was looked for. */
    method OneToken(cmd: Cmd, br: BufferReader, buf: Buffer, ghost rest: bytes, ghost slack: bytes,
                    ghost h: Heap<Buffer>, ghost argv0: seq<Buffer>, ghost inp: bytes, ghost goal: InlineOut)
      returns (done: bool, err: Error, ghost left: bytes)
      requires TokenRead(cmd, br, buf, rest, slack, h, argv0, inp) && InlineRequest(cmd.args, rest) == goal
      modifies cmd, br, buf, br.buffer.mem
      ensures |left| < |rest|
      ensures done ==> goal == InlineOut(cmd.args, left, OK) && Splitting(cmd, br, buf, left, slack, h, argv0, inp)
      ensures !done ==> InlineRequest(cmd.args, left) == goal
      ensures !done && err == OK ==> TokenRead(cmd, br, buf, left, slack, h, argv0, inp)
      ensures !done && err != OK ==> NoToken(left, err) && Splitting(cmd, br, buf, left, slack, h, argv0, inp)
    {
      hide Memory.Valid, WellFormed, Parsed, Blank, Splitting, TokenRead, InlineRequest, AfterSpace;
      ghost var k := FirstSplit(rest);
      InlineStep(cmd.args, rest);
      err := OK;
      var c := Delimiter(cmd, br, buf, rest, slack, h, argv0, inp);
      left := rest[k + 1..];
      if c == LF {
        LineEnd(cmd, br, buf, rest, slack, h, argv0, inp);
        done := true;
      } else {
        WordEnd(cmd, br, buf, rest, slack, h, argv0, inp);
        err := NextToken(cmd, br, buf, left, slack, h, argv0, inp);
        done := false;
      }
    }

    /** A whole line or nothing. The caller has seen that there is input, so the reader cannot report its end. */
    method HandleResponse(pbuf: Buffer, br: BufferReader, ghost inp: bytes, ghost slack: bytes, ghost resp: bytes)
      returns (err: Error)
      requires Collecting(br, pbuf, inp, slack, resp) && inp != []
      modifies pbuf, br, br.buffer.mem
      ensures var k := Index(inp, LF);
        && (k == |inp| ==> err == TryAgain && Collecting(br, pbuf, inp, slack, resp))
        && (k < |inp| ==> err == OK && Answered(br, pbuf, inp[k + 1..], slack, resp + inp[..k + 1]))
      ensures After(old(br.buffer.mem.H()), br.buffer.mem.H(), {pbuf})
      ensures pbuf.mem == br.buffer.mem && pbuf in old(pbuf.mem.views) && pbuf in pbuf.mem.views
      ensures err != OK ==> pbuf.mem.views[pbuf] == old(pbuf.mem.views[pbuf])
    {
      ghost var g, at := br.buffer.mem.H(), br.offset;
      CollectingIs(br, pbuf, inp, slack, resp);
      hide Memory.Valid, Memory.Text, WellFormed, SeesIn, After, Collects, Target, BufferReader.Answers;
      err := br.ReadUntil(pbuf, LF, 1);
      LineRead(br, pbuf, g, at, inp, slack, resp, err);
      if err == NotFound {
        return TryAgain;
      }
      err := OK;
    }

    predicate NoToken(rest: bytes, err: Error) {
      FirstSplit(rest) == |rest| && err == if rest == [] then OutOfBound else NotFound
    }

    /** A token was read: the cursor stands behind it, and in front of it there is a space or nothing. */
    ghost predicate TokenRead(cmd: Cmd, br: BufferReader, buf: Buffer, rest: bytes, slack: bytes,
                              h: Heap<Buffer>, argv0: seq<Buffer>, inp: bytes)
      reads cmd, cmd.mem, cmd.mem.views.Keys, br, br.buffer, br.buffer.mem, br.buffer.mem.views.Keys
    {
      var k := FirstSplit(rest);
      && k < |rest| && Splitting(cmd, br, buf, rest[k..], slack, h, argv0, inp) && HoldsToken(br, buf, rest, k)
      && AtToken(inp, rest, br.offset - k) && br.offset >= k
    }

    ghost predicate AtToken(inp: bytes, rest: bytes, at: int) {
      |rest| <= |inp| && at == |inp| - |rest| && inp[at..] == rest && AfterSpace(inp, rest)
    }

    ghost predicate AfterSpace(inp: bytes, rest: bytes) {
      |rest| < |inp| ==> inp[|inp| - |rest| - 1] == SPACE
    }

    /** `br.Current()` */
    method Delimiter(cmd: Cmd, br: BufferReader, buf: Buffer, ghost rest: bytes, ghost slack: bytes,
                     ghost h: Heap<Buffer>, ghost argv0: seq<Buffer>, ghost inp: bytes) returns (c: byte)
      requires TokenRead(cmd, br, buf, rest, slack, h, argv0, inp)
      ensures FirstSplit(rest) < |rest| && c == rest[FirstSplit(rest)]
    {
      ghost var k := FirstSplit(rest);
      SeesIsValid(br, rest[k..], slack);
      hide Memory.Valid, SeesIn, Parsed, Whole;
      c := br.Current();
    }

    /** The last token of the line. */
    method LineEnd(cmd: Cmd, br: BufferReader, buf: Buffer, ghost rest: bytes, ghost slack: bytes,
                   ghost h: Heap<Buffer>, ghost argv0: seq<Buffer>, ghost inp: bytes)
      requires TokenRead(cmd, br, buf, rest, slack, h, argv0, inp)
      modifies cmd, br, buf, br.buffer.mem
      ensures FirstSplit(rest) < |rest|
      ensures Splitting(cmd, br, buf, rest[FirstSplit(rest) + 1..], slack, h, argv0, inp)
      ensures cmd.args == old(cmd.args) + [LastArg(rest)]
    {
      hide Memory.Valid, WellFormed, SeesIn, ArgsIn, After, Parsed, Whole, IsSlice, Within;
      ghost var k := FirstSplit(rest);
      ghost var g, token := cmd.mem.H(), Taken(rest, k);
      ghost var w := cmd.mem.views[br.buffer];
      LastIs(br, inp, rest, k, slack);
      if br.Last() == CR {
        CutReturn(cmd, br, buf, token, rest[k..], slack, h, argv0, inp);
        token := Trim(token, 1);
      }
      KeepToken(cmd, br, buf, token, rest[k..], slack, h, argv0, inp);
      assert rest[k..][1..] == rest[k + 1..];
    }

    /** `buf.Offset(0, -1);` */
    method CutReturn(cmd: Cmd, br: BufferReader, buf: Buffer, ghost token: bytes, ghost rest: bytes, ghost slack: bytes,
                     ghost h: Heap<Buffer>, ghost argv0: seq<Buffer>, ghost inp: bytes)
      requires Splitting(cmd, br, buf, rest, slack, h, argv0, inp)
      requires br.buffer in cmd.mem.views && IsSlice(cmd.mem.H(), buf, cmd.mem.views[br.buffer], token)
      modifies buf, br.buffer.mem
      ensures cmd.args == old(cmd.args) && br.offset == old(br.offset)
      ensures Splitting(cmd, br, buf, rest, slack, h, argv0, inp)
      ensures br.buffer in cmd.mem.views && IsSlice(cmd.mem.H(), buf, cmd.mem.views[br.buffer], Trim(token, 1))
    {
      hide Memory.Valid, WellFormed, SeesIn, ArgsIn, After, Parsed, Whole, IsSlice, Within;
      ghost var g, w := cmd.mem.H(), cmd.mem.views[br.buffer];
      TrimSlice(buf, w, token, 1);
      SeesKeeps(br, g, {buf}, rest, slack);
      SliceWithin(cmd.mem.H(), buf, w, Trim(token, 1));
      AfterView(g, cmd.mem.H(), {buf}, br.buffer);
      StillSplitting(cmd, br, buf, rest, slack, h, argv0, inp, g);
    }

    /** A token with another one behind it. */
    method WordEnd(cmd: Cmd, br: BufferReader, buf: Buffer, ghost rest: bytes, ghost slack: bytes,
                   ghost h: Heap<Buffer>, ghost argv0: seq<Buffer>, ghost inp: bytes)
      requires TokenRead(cmd, br, buf, rest, slack, h, argv0, inp) && rest[FirstSplit(rest)] != LF
      modifies cmd, br, buf, br.buffer.mem
      ensures FirstSplit(rest) < |rest| && Blank(cmd.mem.H(), buf, br.buffer)
      ensures Splitting(cmd, br, buf, rest[FirstSplit(rest) + 1..], slack, h, argv0, inp)
      ensures cmd.args == old(cmd.args) + [Taken(rest, FirstSplit(rest))]
      ensures AfterSpace(inp, rest[FirstSplit(rest) + 1..])
    {
      hide Memory.Valid, WellFormed, SeesIn, ArgsIn, After, Parsed, Whole, IsSlice, Blank;
      ghost var k := FirstSplit(rest);
      TokenIs(br, buf, rest, k);
      assert rest[k..] != [] && inp != [];
      KeepToken(cmd, br, buf, Taken(rest, k), rest[k..], slack, h, argv0, inp);
      assert rest[k..][1..] == rest[k + 1..];
      ClearToken(cmd, br, buf, Taken(rest, k), rest[k + 1..], slack, h, argv0, inp);
    }

    /** `buf.Clear();` */
    method ClearToken(cmd: Cmd, br: BufferReader, buf: Buffer, ghost token: bytes, ghost rest: bytes,
                      ghost slack: bytes,
                      ghost h: Heap<Buffer>, ghost argv0: seq<Buffer>, ghost inp: bytes)
      requires inp != [] && Splitting(cmd, br, buf, rest, slack, h, argv0, inp)
      requires br.buffer in cmd.mem.views && IsSlice(cmd.mem.H(), buf, cmd.mem.views[br.buffer], token)
      modifies buf, br.buffer.mem
      ensures Splitting(cmd, br, buf, rest, slack, h, argv0, inp) && Blank(cmd.mem.H(), buf, br.buffer)
      ensures cmd.args == old(cmd.args) && br.offset == old(br.offset)
    {
      ghost var g := cmd.mem.H();
      HoldsSome(g, br.buffer, inp);
      SliceCleared(g, buf, cmd.mem.views[br.buffer], token, br.buffer);
      hide Memory.Valid, WellFormed, SeesIn, ArgsIn, After, Parsed, Whole, IsSlice, Within, Target, Texts;
      buf.Clear();
      SeesKeeps(br, g, {buf}, rest, slack);
      AfterView(g, cmd.mem.H(), {buf}, br.buffer);
      BlankWithin(cmd.mem.H(), buf, br.buffer);
      StillSplitting(cmd, br, buf, rest, slack, h, argv0, inp, g);
    }

    /** `cmd->AppendArg(buf); br.Next();` */
    method KeepToken(cmd: Cmd, br: BufferReader, buf: Buffer, ghost token: bytes, ghost rest: bytes, ghost slack: bytes,
                     ghost h: Heap<Buffer>, ghost argv0: seq<Buffer>, ghost inp: bytes)
      requires rest != [] && Splitting(cmd, br, buf, rest, slack, h, argv0, inp)
      requires br.buffer in cmd.mem.views && IsSlice(cmd.mem.H(), buf, cmd.mem.views[br.buffer], token)
      modifies cmd, br, br.buffer.mem
      ensures Splitting(cmd, br, buf, rest[1..], slack, h, argv0, inp)
      ensures br.buffer in cmd.mem.views && IsSlice(cmd.mem.H(), buf, cmd.mem.views[br.buffer], token)
      ensures cmd.args == old(cmd.args) + [token] && br.offset == old(br.offset) + 1
    {
      hide Memory.Valid, WellFormed, SeesIn, ArgsIn, After, Parsed, Whole, IsSlice, Within, InBounds, Texts;
      ghost var g, w, argv := cmd.mem.H(), cmd.mem.views[br.buffer], cmd.argv;
      ghost var added := KeepArg(cmd, br, buf, w, token, rest, slack);
      TokenKept(h, argv0, g, argv, br.buffer, buf, cmd.mem.H(), added, token, inp);
      Advance(br, rest, slack);
      assert inp[br.offset..] == inp[old(br.offset)..][1..];
    }

    /** `br.Next();` */
    method Advance(br: BufferReader, ghost rest: bytes, ghost slack: bytes)
      requires Sees(br, rest, slack) && rest != []
      modifies br
      ensures Sees(br, rest[1..], slack) && br.offset == old(br.offset) + 1
    {
      SeesIsValid(br, rest, slack);
      hide Memory.Valid, SeesIn;
      var err := br.Next();
      SeesNext(br, old(br.offset), rest, slack);
    }

    /** The end of buf's scope. */
    method Finish(cmd: Cmd, br: BufferReader, buf: Buffer, ghost rest: bytes, ghost slack: bytes,
                  ghost h: Heap<Buffer>, ghost argv0: seq<Buffer>, ghost inp: bytes)
      requires Splitting(cmd, br, buf, rest, slack, h, argv0, inp)
      modifies br.buffer.mem
      ensures Ready(cmd, br, rest, slack) && Parsed(h, argv0, cmd.mem.H(), cmd.argv, br.buffer, {})
    {
      ghost var g := cmd.mem.H();
      SeesIsValid(br, rest, slack);
      hide Memory.Valid, WellFormed, SeesIn, ArgsIn, After, Parsed, Whole, Detach;
      ParsedClose(h, argv0, g, cmd.argv, br.buffer, buf);
      ScratchGone(g, buf);
      NotInTmp(h, argv0, g, cmd.argv, br.buffer, buf);
      buf.Destroy();
      SeesKeeps(br, g, {buf}, rest, slack);
      CmdAfter(cmd, g, {buf});
    }

    /** `Buffer buf;` in front of the loop. */
    method Start(cmd: Cmd, br: BufferReader, ghost inp: bytes, ghost slack: bytes) returns (buf: Buffer)
      requires Ready(cmd, br, inp, slack) && br.offset == 0
      requires Parsed(cmd.mem.H(), cmd.argv, cmd.mem.H(), cmd.argv, br.buffer, {})
      modifies br.buffer.mem
      ensures fresh(buf) && Splitting(cmd, br, buf, inp, slack, old(cmd.mem.H()), cmd.argv, inp)
      ensures Blank(cmd.mem.H(), buf, br.buffer)
    {
      hide Memory.Valid, WellFormed, SeesIn, ArgsIn, After, Parsed, Whole, Blank, Target, InBounds, Texts;
      ghost var h := cmd.mem.H();
      WholeHere(br, inp, slack);
      ArgsThere(h, cmd.argv, cmd.args);
      buf := OpenScratch(br, inp, slack);
      CmdAfter(cmd, h, {buf});
      SplitStart(h, cmd.argv, br.buffer, buf, cmd.mem.H(), inp);
    }

    method NextToken(cmd: Cmd, br: BufferReader, buf: Buffer, ghost rest: bytes, ghost slack: bytes,
                     ghost h: Heap<Buffer>, ghost argv0: seq<Buffer>, ghost inp: bytes) returns (err: Error)
      requires Splitting(cmd, br, buf, rest, slack, h, argv0, inp) && Blank(cmd.mem.H(), buf, br.buffer)
      requires AfterSpace(inp, rest)
      modifies br, buf, br.buffer.mem
      ensures cmd.args == old(cmd.args)
      ensures FirstSplit(rest) == |rest| ==>
        NoToken(rest, err) && Splitting(cmd, br, buf, rest, slack, h, argv0, inp)
      ensures FirstSplit(rest) < |rest| ==>
        err == OK && TokenRead(cmd, br, buf, rest, slack, h, argv0, inp)
    {
      hide Memory.Valid, WellFormed, SeesIn, ArgsIn, After, Parsed, Whole, Blank, Target, Got, TokenRead, FirstSplit;
      hide NoToken, AfterSpace, InBounds, Texts;
      ghost var g := cmd.mem.H();
      BlankTarget(br, rest, slack, buf);
      err := ReadToken(br, buf, rest, slack);
      TokenGot(cmd, br, buf, rest, slack, h, argv0, inp, g, old(br.offset), err);
    }

    lemma TokenGot(cmd: Cmd, br: BufferReader, buf: Buffer, rest: bytes, slack: bytes,
                   h: Heap<Buffer>, argv0: seq<Buffer>, inp: bytes, g: Heap<Buffer>, at: nat, err: Error)
      requires buf.mem == cmd.mem == br.buffer.mem && buf != br.buffer
      requires ArgsIn(g, cmd.argv, cmd.args) && forall i :: 0 <= i < |cmd.argv| ==> cmd.argv[i].mem == cmd.mem
      requires Parsed(h, argv0, g, cmd.argv, br.buffer, {buf})
      requires Whole(g, br.buffer, inp) && at <= |inp| && inp[at..] == rest && AfterSpace(inp, rest)
      requires Got(br, g, buf, Delimited(rest, FirstSplit(rest), 0), rest, slack, err)
      requires br.offset == if err == OK then at + FirstSplit(rest) else at
      ensures FirstSplit(rest) == |rest| ==>
        NoToken(rest, err) && Splitting(cmd, br, buf, rest, slack, h, argv0, inp)
      ensures FirstSplit(rest) < |rest| ==>
        err == OK && TokenRead(cmd, br, buf, rest, slack, h, argv0, inp)
    {
      hide Memory.Valid, WellFormed, SeesIn, ArgsIn, After, Parsed, Whole, IsSlice, Within;
      var left := if err == OK then rest[FirstSplit(rest)..] else rest;
      assert inp[br.offset..] == left;
      NotInTmp(h, argv0, g, cmd.argv, br.buffer, buf);
      AfterView(g, cmd.mem.H(), {buf}, br.buffer);
      StillSplitting(cmd, br, buf, left, slack, h, argv0, inp, g);
    }
  }

  lemma TokenKept<K>(h: Heap<K>, argv0: seq<K>, g: Heap<K>, argv: seq<K>, src: K, buf: K, g': Heap<K>, added: K,
                     token: bytes, inp: bytes)
    requires Parsed(h, argv0, g, argv, src, {buf}) && After(g, g', {added}) && added !in g.views
    requires src in g.views && IsSlice(g', added, g.views[src], token)
    requires IsSlice(g, buf, g.views[src], token) && Whole(g, src, inp)
    ensures Parsed(h, argv0, g', argv + [added], src, {buf})
    ensures src in g'.views && IsSlice(g', buf, g'.views[src], token) && Whole(g', src, inp)
  {
    SliceWithin(g', added, g.views[src], token);
    assert added !in {buf};
    ParsedMore(h, argv0, g, argv, src, {buf}, g', added);
    SliceAfter(g, g', {added}, buf, g.views[src], token);
    WholeAfter(g, g', {added}, src, inp);
    AfterView(g, g', {added}, src);
  }

  lemma SplitStart(h: Heap<Buffer>, argv: seq<Buffer>, src: Buffer, buf: Buffer, g: Heap<Buffer>, inp: bytes)
    requires Parsed(h, argv, h, argv, src, {}) && After(h, g, {buf}) && buf !in h.views && Blank(g, buf, src)
    requires forall i :: 0 <= i < |argv| ==> argv[i] in h.views
    requires Whole(h, src, inp)
    ensures Parsed(h, argv, g, argv, src, {buf}) && Whole(g, src, inp)
  {
    WholeAfter(h, g, {buf}, src, inp);
    NullWithin(g, buf, src);
    AfterView(h, g, {buf}, src);
    ParsedOpen(h, argv, src, buf, g);
  }

  lemma BlankTarget(br: BufferReader, rest: bytes, slack: bytes, buf: Buffer)
    requires Sees(br, rest, slack) && buf.mem == br.buffer.mem && Blank(br.buffer.mem.H(), buf, br.buffer)
    ensures CanRead(br, rest, slack, buf)
  {
  }

  lemma TokenIs(br: BufferReader, buf: Buffer, rest: bytes, k: nat)
    requires HoldsToken(br, buf, rest, k)
    ensures k < |rest| && br.buffer in br.buffer.mem.views
    ensures IsSlice(br.buffer.mem.H(), buf, br.buffer.mem.views[br.buffer], Taken(rest, k))
  {
  }

  lemma HoldsSome<K>(h: Heap<K>, src: K, text: bytes)
    requires Whole(h, src, text) && text != []
    ensures h.views[src].data != 0
  {
    if h.views[src].data == 0 {
      NullHoldsNothing(h, src);
    }
  }

  lemma BlankWithin(h: Heap<Buffer>, buf: Buffer, src: Buffer)
    requires Blank(h, buf, src)
    ensures buf in h.views && src in h.views && Within(h.views[buf], h.views[src])
  {
    NullWithin(h, buf, src);
  }

  /** The cursor has moved by one byte. */
  lemma SeesNext(br: BufferReader, at: nat, rest: bytes, slack: bytes)
    requires br.buffer.mem.Valid() && SeesIn(br.buffer.mem.H(), br.buffer, at, rest, slack)
    requires rest != [] && br.offset == at + 1
    ensures Sees(br, rest[1..], slack)
  {
    var h := br.buffer.mem.H();
    AfterNothing(h, {});
    SeesAfter(h, h, {}, br.buffer, at, rest, slack);
    SeesOn(h, h, br.buffer, at, 1, rest, slack);
  }

  /** `Last()` sees the end of the token; behind an empty token there is a space or nothing. */
  lemma LastIs(br: BufferReader, inp: bytes, rest: bytes, k: nat, slack: bytes)
    requires k < |rest| && Sees(br, rest[k..], slack) && Whole(br.buffer.mem.H(), br.buffer, inp)
    requires |rest| <= |inp| && inp[|inp| - |rest|..] == rest && br.offset == |inp| - |rest| + k
    requires |rest| < |inp| ==> inp[|inp| - |rest| - 1] == SPACE
    ensures br.Valid() && (br.Last() == CR <==> k > 0 && rest[k - 1] == CR)
  {
    SeesIsValid(br, rest[k..], slack);
    br.buffer.mem.Reads(br.buffer);
    assert br.buffer.mem.Text(br.buffer) == inp;
    if k > 0 {
      assert inp[br.offset - 1] == inp[|inp| - |rest|..][k - 1];
    }
  }

  /** Inline parsing goes on after a step that touched the scratch buffer at most. */
  lemma StillSplitting(cmd: Cmd, br: BufferReader, buf: Buffer, rest: bytes, slack: bytes,
                       h: Heap<Buffer>, argv0: seq<Buffer>, inp: bytes, g: Heap<Buffer>)
    requires Sees(br, rest, slack) && buf.mem == cmd.mem == br.buffer.mem && buf != br.buffer && buf in cmd.mem.views
    requires ArgsIn(g, cmd.argv, cmd.args) && forall i :: 0 <= i < |cmd.argv| ==> cmd.argv[i].mem == cmd.mem
    requires Parsed(h, argv0, g, cmd.argv, br.buffer, {buf}) && After(g, cmd.mem.H(), {buf})
    requires br.buffer in g.views && Within(cmd.mem.views[buf], g.views[br.buffer])
    requires Whole(g, br.buffer, inp) && br.offset <= |inp| && inp[br.offset..] == rest
    ensures Splitting(cmd, br, buf, rest, slack, h, argv0, inp)
  {
    hide Memory.Valid, WellFormed, SeesIn, ArgsIn, After, Parsed, Whole, Within;
    ParsedStep(h, argv0, g, cmd.argv, br.buffer, {buf}, cmd.mem.H());
    WholeAfter(g, cmd.mem.H(), {buf}, br.buffer, inp);
    NotInTmp(h, argv0, g, cmd.argv, br.buffer, buf);
    CmdAfter(cmd, g, {buf});
  }

  lemma NotInTmp<K>(h: Heap<K>, argv0: seq<K>, g: Heap<K>, argv: seq<K>, src: K, buf: K)
    requires Parsed(h, argv0, g, argv, src, {buf})
    ensures forall i :: 0 <= i < |argv| ==> argv[i] !in {buf}
    ensures src in g.views && src != buf
  {
  }

  lemma WholeHere(br: BufferReader, inp: bytes, slack: bytes)
    requires Sees(br, inp, slack) && br.offset == 0
    ensures Whole(br.buffer.mem.H(), br.buffer, inp) && inp[0..] == inp && br.buffer in br.buffer.mem.views
  {
    assert Texts(br.buffer.mem.H())[br.buffer][0..] == Texts(br.buffer.mem.H())[br.buffer];
  }

  lemma ArgsThere<K>(h: Heap<K>, argv: seq<K>, args: seq<bytes>)
    requires ArgsIn(h, argv, args)
    ensures |argv| == |args| && forall i :: 0 <= i < |argv| ==> argv[i] in h.views
  {
  }

  lemma NullWithin<K>(h: Heap<K>, buf: K, src: K)
    requires WellFormed(h) && buf in h.views && h.views[buf].data == 0 && src in h.views
    ensures Within(h.views[buf], h.views[src])
  {
    HeldBlock(h, buf);
  }

  /** A reply parser may go on from here: it sees its input, and pbuf holds the response so far. */
  ghost predicate Collecting(br: BufferReader, pbuf: Buffer, rest: bytes, slack: bytes, resp: bytes)
    reads br, br.buffer, br.buffer.mem, br.buffer.mem.views.Keys
  {
    Sees(br, rest, slack) && pbuf.mem == br.buffer.mem && Collects(br.buffer.mem.H(), pbuf, br.buffer, resp)
  }

  lemma CollectsScratch(h: Heap<Buffer>, g: Heap<Buffer>, buf: Buffer, pbuf: Buffer, src: Buffer, resp: bytes)
    requires Collects(h, pbuf, src, resp) && After(h, g, {buf}) && buf !in h.views && Blank(g, buf, src)
    ensures Collects(g, pbuf, src, resp) && g.views[pbuf] == h.views[pbuf] && buf != pbuf && buf != src
  {
    CollectsBeside(h, g, buf, pbuf, src, resp);
  }

  lemma CollectsOwner(h: Heap<Buffer>, pbuf: Buffer, src: Buffer, resp: bytes)
    requires Collects(h, pbuf, src, resp)
    ensures pbuf in h.views && src in h.views && src != pbuf && Owner(h, pbuf) && Texts(h)[pbuf] == resp
  {
  }

  /** `pbuf->Append(buf.Data(), buf.Size()); *i = ParseInt32(buf, 1, -1);` */
  method CopyLine(br: BufferReader, pbuf: Buffer, buf: Buffer, ghost line: bytes, ghost rest: bytes,
                  ghost slack: bytes, ghost resp: bytes, ghost h: Heap<Buffer>) returns (i: int)
    requires Collecting(br, pbuf, rest, slack, resp) && buf != pbuf && buf.mem == pbuf.mem && line != []
    requires HasLine(pbuf.mem.H(), buf, line, rest + slack) && After(h, pbuf.mem.H(), {buf})
    modifies pbuf, br.buffer.mem
    ensures i == Decimal.ParseInt32(line, rest + slack)
    ensures Collecting(br, pbuf, rest, slack, resp + line) && pbuf.mem == br.buffer.mem
    ensures After(h, pbuf.mem.H(), {pbuf} + {buf}) && buf in pbuf.mem.views
    ensures pbuf in pbuf.mem.views && pbuf.mem.views[pbuf].data != 0
  {
    ghost var g := pbuf.mem.H();
    LineIs(buf, line, rest + slack);
    CollectsOwner(g, pbuf, br.buffer, resp);
    hide Memory.Valid, Memory.Text, WellFormed, Texts, Target, SeesIn, HasLine, After, Collects, FillResult, Owner;
    var err := pbuf.AppendBytes(buf.Bytes());
    LineCopied(h, g, pbuf, buf, br.buffer, br.offset, line, rest, slack, resp, pbuf.mem.H());
    LineIs(buf, line, rest + slack);
    CollectsOwner(pbuf.mem.H(), pbuf, br.buffer, resp + line);
    i := ParseInt32(buf);
  }

  /** The line's buffer goes. */
  method EndLine(br: BufferReader, pbuf: Buffer, buf: Buffer, ghost rest: bytes, ghost slack: bytes, ghost text: bytes,
                 ghost h: Heap<Buffer>, ghost but: set<Buffer>)
    requires Collecting(br, pbuf, rest, slack, text) && buf.mem == pbuf.mem && buf != pbuf && buf != br.buffer
    requires buf in pbuf.mem.views && buf !in h.views && After(h, pbuf.mem.H(), but + {buf})
    modifies br.buffer.mem
    ensures Collecting(br, pbuf, rest, slack, text) && After(h, pbuf.mem.H(), but)
    ensures pbuf in old(pbuf.mem.views) && pbuf in pbuf.mem.views
    ensures pbuf.mem.views[pbuf] == old(pbuf.mem.views[pbuf])
  {
    ghost var g := pbuf.mem.H();
    CollectsWithout(g, buf, pbuf, br.buffer, text);
    CollectsOwner(g, pbuf, br.buffer, text);
    CollectsOwner(Detach(g, buf), pbuf, br.buffer, text);
    hide Memory.Valid, WellFormed, SeesIn, After, Collects, Detach;
    CloseScratch(br, buf, rest, slack, h, but);
  }

  lemma CollectingIs(br: BufferReader, pbuf: Buffer, rest: bytes, slack: bytes, resp: bytes)
    requires Collecting(br, pbuf, rest, slack, resp)
    ensures br.Valid() && br.Rest() == rest && pbuf.mem == br.buffer.mem
    ensures SeesIn(pbuf.mem.H(), br.buffer, br.offset, rest, slack)
    ensures Collects(pbuf.mem.H(), pbuf, br.buffer, resp) && Target(pbuf.mem.H(), pbuf, br.buffer)
    ensures WellFormed(pbuf.mem.H()) && pbuf in pbuf.mem.views
  {
    SeesIsValid(br, rest, slack);
  }

  lemma SameMemory(br: BufferReader, pbuf: Buffer, rest: bytes, slack: bytes, resp: bytes)
    requires Collecting(br, pbuf, rest, slack, resp)
    ensures pbuf.mem == br.buffer.mem
  {
  }

  lemma BodyRead(br: BufferReader, pbuf: Buffer, g: Heap<Buffer>, at: nat, n: nat, inp: bytes, slack: bytes,
                 resp: bytes, err: Error)
    requires br.buffer.mem.Valid() && pbuf.mem == br.buffer.mem && SeesIn(g, br.buffer, at, inp, slack)
    requires Collects(g, pbuf, br.buffer, resp) && pbuf in g.views && g.views[pbuf].data != 0
    requires br.Answers(g, pbuf, at, inp, Exactly(inp, n), err)
    ensures err == if inp == [] || n > |inp| then OutOfBound else OK
    ensures err != OK ==> Collecting(br, pbuf, inp, slack, resp)
    ensures err == OK ==> Collecting(br, pbuf, inp[n..], slack, resp + Taken(inp, n))
    ensures After(g, pbuf.mem.H(), {pbuf})
    ensures err != OK ==> pbuf in pbuf.mem.views && pbuf.mem.views[pbuf].data != 0
  {
    hide Memory.Valid, WellFormed, Texts, SeesIn, After, Collects, Took, Same;
    if err != OK {
      NoBulk(g, br.buffer, pbuf, at, inp, slack, resp, pbuf.mem.H());
    } else {
      CollectedSlice(g, pbuf, br.buffer, at, n, inp, slack, resp, pbuf.mem.H());
    }
  }

  /** The reply parser is done with a reply: pbuf holds all of it. */
  ghost predicate Answered(br: BufferReader, pbuf: Buffer, rest: bytes, slack: bytes, text: bytes)
    reads br, br.buffer, br.buffer.mem, br.buffer.mem.views.Keys
  {
    Sees(br, rest, slack) && pbuf.mem == br.buffer.mem && Responds(br.buffer.mem.H(), pbuf, br.buffer, text)
  }

  lemma LineRead(br: BufferReader, pbuf: Buffer, g: Heap<Buffer>, at: nat, inp: bytes, slack: bytes,
                 resp: bytes, err: Error)
    requires br.buffer.mem.Valid() && pbuf.mem == br.buffer.mem && SeesIn(g, br.buffer, at, inp, slack)
    requires Collects(g, pbuf, br.buffer, resp) && inp != []
    requires br.Answers(g, pbuf, at, inp, Delimited(inp, Index(inp, LF), 1), err)
    ensures var k := Index(inp, LF);
      && (k == |inp| ==> err == NotFound && Collecting(br, pbuf, inp, slack, resp))
      && (k < |inp| ==> err == OK && Answered(br, pbuf, inp[k + 1..], slack, resp + inp[..k + 1]))
    ensures After(g, pbuf.mem.H(), {pbuf}) && pbuf in g.views && pbuf in pbuf.mem.views
    ensures err != OK ==> pbuf.mem.views[pbuf] == g.views[pbuf]
  {
    hide Memory.Valid, WellFormed, Texts, SeesIn, After, Collects, Took, Same, Responds, Within, Index, InBounds;
    hide BufferReader.Answers, Taken, Delimited;
    var k := Index(inp, LF);
    CollectsOwner(g, pbuf, br.buffer, resp);
    LineAnswers(br, pbuf, g, at, inp, err);
    if k == |inp| {
      NoBulk(g, br.buffer, pbuf, at, inp, slack, resp, pbuf.mem.H());
    } else {
      LineResponds(g, pbuf, br.buffer, at, k + 1, inp, slack, resp, pbuf.mem.H());
      RespondsIs(pbuf.mem.H(), pbuf, br.buffer, resp + inp[..k + 1]);
    }
  }

  lemma LineAnswers(br: BufferReader, pbuf: Buffer, g: Heap<Buffer>, at: nat, inp: bytes, err: Error)
    requires inp != [] && br.Answers(g, pbuf, at, inp, Delimited(inp, Index(inp, LF), 1), err)
    ensures var k := Index(inp, LF); var h := br.buffer.mem.H();
      && k <= |inp|
      && (k == |inp| ==> err == NotFound && br.offset == at && Same(g, h))
      && (k < |inp| ==> err == OK && br.offset == at + (k + 1) && Taken(inp, k + 1) == inp[..k + 1]
                        && Took(g, pbuf, br.buffer, at, Taken(inp, k + 1), h))
  {
    hide Same, Took, Memory.H;
  }

  lemma RespondsIs<K>(h: Heap<K>, pbuf: K, src: K, text: bytes)
    requires Responds(h, pbuf, src, text)
    ensures pbuf in h.views && src in h.views && pbuf != src && Within(h.views[pbuf], h.views[src])
    ensures WellFormed(h) && Texts(h)[pbuf] == text
  {
  }

  /** Nothing of a bulk string was taken. */
  lemma NoBulk<K>(g: Heap<K>, src: K, pbuf: K, at: nat, rest: bytes, slack: bytes, resp: bytes, g': Heap<K>)
    requires SeesIn(g, src, at, rest, slack) && Collects(g, pbuf, src, resp) && Same(g, g')
    ensures SeesIn(g', src, at, rest, slack) && Collects(g', pbuf, src, resp) && After(g, g', {pbuf})
    ensures pbuf in g'.views && pbuf in g.views && g'.views[pbuf] == g.views[pbuf]
  {
    NothingTaken(g, src, at, rest, slack, g');
    SameStays(g, g', pbuf);
  }

  /** `Buffer buf; br.ReadUntil(&buf, '\n', 1);` beside a response. */
  method OpenLine(br: BufferReader, pbuf: Buffer, ghost inp: bytes, ghost slack: bytes, ghost resp: bytes)
    returns (err: Error, buf: Buffer)
    requires Collecting(br, pbuf, inp, slack, resp)
    modifies br, br.buffer.mem
    ensures fresh(buf) && buf.mem == br.buffer.mem && buf !in old(br.buffer.mem.views) && buf in br.buffer.mem.views
    ensures buf != pbuf && buf != br.buffer && After(old(br.buffer.mem.H()), br.buffer.mem.H(), {buf})
    ensures pbuf in old(br.buffer.mem.views) && pbuf in br.buffer.mem.views
    ensures br.buffer.mem.views[pbuf] == old(br.buffer.mem.views[pbuf])
    ensures var s := ReadInt(inp, slack);
      && Collecting(br, pbuf, if s.Found? then s.rest else inp, slack, resp)
      && err == (if s.Found? then OK else s.err)
      && (s.Found? ==> HasLine(br.buffer.mem.H(), buf, s.line, s.rest + slack))
  {
    CollectsOwner(br.buffer.mem.H(), pbuf, br.buffer, resp);
    hide Memory.Valid, WellFormed, Texts, Target, SeesIn, HasLine, After, Collects, Blank;
    ghost var mem := br.buffer.mem;
    ghost var h := mem.H();
    buf := OpenScratch(br, inp, slack);
    ghost var h1 := mem.H();
    CollectsScratch(h, h1, buf, pbuf, br.buffer, resp);
    err := ReadLine(br, buf, inp, slack);
    AfterAgain(h, h1, mem.H(), {buf});
    CollectsBeside(h1, mem.H(), buf, pbuf, br.buffer, resp);
    CollectsOwner(mem.H(), pbuf, br.buffer, resp);
  }

  /** `readInt32` of the reply parser: the line is copied to the response before it is read as a number. */
  method ReadInt32Into(br: BufferReader, pbuf: Buffer, ghost inp: bytes, ghost slack: bytes, ghost resp: bytes)
    returns (err: Error, i: int)
    requires Collecting(br, pbuf, inp, slack, resp)
    modifies br, pbuf, br.buffer.mem
    ensures After(old(br.buffer.mem.H()), br.buffer.mem.H(), {pbuf})
    ensures pbuf in br.buffer.mem.views && pbuf in old(br.buffer.mem.views)
    ensures match ReadInt(inp, slack) {
      case NoLine(e) => err == e && Collecting(br, pbuf, inp, slack, resp)
        && br.buffer.mem.views[pbuf].data == old(br.buffer.mem.views[pbuf].data)
      case Found(v, line, rest) => err == OK && i == v && Collecting(br, pbuf, rest, slack, resp + line)
        && br.buffer.mem.views[pbuf].data != 0
    }
  {
    CollectsOwner(br.buffer.mem.H(), pbuf, br.buffer, resp);
    hide Memory.Valid, WellFormed, Texts, Target, SeesIn, HasLine, After, Collects;
    ghost var mem, h := br.buffer.mem, br.buffer.mem.H();
    i := 0;
    var buf;
    err, buf := OpenLine(br, pbuf, inp, slack, resp);
    if err == OK {
      ghost var s := ReadInt(inp, slack);
      i := CopyLine(br, pbuf, buf, s.line, s.rest, slack, resp, h);
      EndLine(br, pbuf, buf, s.rest, slack, resp + s.line, h, {pbuf});
    } else {
      assert {buf} == {} + {buf};
      EndLine(br, pbuf, buf, inp, slack, resp, h, {});
      AfterMore(h, mem.H(), pbuf);
    }
  }

  lemma AfterMore<K>(h: Heap<K>, h': Heap<K>, k: K)
    requires After(h, h', {})
    ensures After(h, h', {k})
  {
  }
}