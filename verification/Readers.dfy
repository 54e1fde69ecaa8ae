/** `BufferReader`: a cursor over a buffer that hands out slices of it. */
module Readers {
  import opened Base
  import opened Blocks
  import opened BufferOps
  import opened BufferRuns
  import opened Buffers
  import opened Slices

  class BufferReader {
    const buffer: Buffer
    var offset: nat

    ghost predicate Valid() reads this, buffer, buffer.mem, buffer.mem.views.Keys {
      buffer.mem.Valid() && buffer in buffer.mem.views && offset <= |buffer.mem.Text(buffer)|
    }

    /** The bytes not read yet. */
    ghost function Rest(): bytes
      requires Valid()
      reads this, buffer, buffer.mem, buffer.mem.views.Keys
    {
      buffer.mem.Text(buffer)[offset..]
    }

    constructor (buffer: Buffer)
      ensures this.buffer == buffer && offset == 0
    {
      this.buffer := buffer;
      offset := 0;
    }

    predicate Eof()
      requires Valid()
      reads this, buffer, buffer.mem, buffer.mem.views.Keys
      ensures Eof() <==> Rest() == []
    {
      offset >= buffer.Length()
    }

    /** 0 at the end of the buffer. */
    function Current(): (c: byte)
      requires Valid()
      reads this, buffer, buffer.mem, buffer.mem.views.Keys
      ensures c == if Rest() == [] then 0 else Rest()[0]
    {
      if Eof() then 0 else buffer.Bytes()[offset]
    }

    /** The byte in front of the cursor, 0 at the start of the buffer. */
    function Last(): (c: byte)
      requires Valid()
      reads this, buffer, buffer.mem, buffer.mem.views.Keys
      ensures c == if offset == 0 then 0 else buffer.mem.Text(buffer)[offset - 1]
    {
      if offset == 0 then 0 else buffer.Bytes()[offset - 1]
    }

    method Next(length: nat := 1) returns (err: Error)
      requires Valid()
      modifies this
      ensures err == if old(Rest()) == [] || length > |old(Rest())| then OutOfBound else OK
      ensures offset == if err == OK then old(offset) + length else old(offset)
      ensures Valid()
    {
      if Eof() {
        return OutOfBound;
      }
      var leftLength := buffer.Length() - offset;
      if length > leftLength {
        return OutOfBound;
      }
      offset := offset + length;
      err := OK;
    }

    method Reset()
      modifies this
      ensures offset == 0
    {
      offset := 0;
    }

    /** A temporary copy of the buffer from the cursor on, and what was found in it for buf to take. */
    method Rewound(ghost buf: Buffer) returns (tmp: Buffer)
      requires Valid() && Rest() != [] && Target(buffer.mem.H(), buf, buffer)
      modifies buffer.mem
      ensures tmp.mem == buffer.mem && buffer.mem.Valid() && fresh(tmp) && tmp in buffer.mem.views
      ensures Holding(old(buffer.mem.H()), buf, buffer, offset, tmp, buffer.mem.H())
      ensures buffer.mem.Text(tmp) == old(Rest())
    {
      ghost var h := buffer.mem.H();
      TextIs(h, buffer);
      tmp := Copied(h);
      TextIs(buffer.mem.H(), tmp);
    }

    method Copied(ghost h: Heap<Buffer>) returns (tmp: Buffer)
      requires Valid() && h == buffer.mem.H() && offset <= |Texts(h)[buffer]|
      modifies buffer.mem
      ensures tmp.mem == buffer.mem && buffer.mem.Valid() && fresh(tmp) && tmp in buffer.mem.views
      ensures Peeked(h, tmp, buffer, offset, buffer.mem.H())
    {
      hide WellFormed, Calm, Texts, InBounds, Peeked, ViewText, OffsetText;
      tmp := new Buffer.Copy(buffer);
      Peek(h, tmp, buffer, offset);
      tmp.Skip(offset);
    }

    /** Nothing was taken. */
    method Forget(tmp: Buffer, ghost buf: Buffer, ghost h: Heap<Buffer>)
      requires buffer.mem.Valid() && tmp.mem == buffer.mem && tmp in buffer.mem.views
      requires Holding(h, buf, buffer, offset, tmp, buffer.mem.H())
      modifies buffer.mem
      ensures buffer.mem.Valid() && Same(h, buffer.mem.H())
    {
      Unpeek(h, tmp, buffer, offset, buffer.mem.H());
      hide Memory.Valid, Calm, WellFormed, Detach;
      tmp.Destroy();
    }

    /** `buf->Append(tmp, n)`, after which tmp goes and the cursor moves on. */
    method Hand(buf: Buffer, tmp: Buffer, n: nat, ghost h: Heap<Buffer>)
      requires buffer.mem.Valid() && tmp.mem == buf.mem == buffer.mem && tmp in buffer.mem.views
      requires Holding(h, buf, buffer, offset, tmp, buffer.mem.H())
      requires n <= |buffer.mem.Text(tmp)|
      modifies this, buf, buffer.mem
      ensures buffer.mem.Valid()
      ensures Took(h, buf, buffer, old(offset), Taken(old(buffer.mem.Text(tmp)), n), buffer.mem.H())
      ensures offset == old(offset) + n
    {
      hide Memory.Valid, Memory.Text, Holding, Took, Detach, Calm;
      HandOver(buf, tmp, n, h);
      offset := offset + n;
      tmp.Destroy();
    }

    method HandOver(buf: Buffer, tmp: Buffer, n: nat, ghost h: Heap<Buffer>)
      requires buffer.mem.Valid() && tmp.mem == buf.mem == buffer.mem && tmp in buffer.mem.views
      requires Holding(h, buf, buffer, offset, tmp, buffer.mem.H())
      requires n <= |buffer.mem.Text(tmp)|
      modifies buf, buffer.mem
      ensures buffer.mem.Valid() && tmp in buffer.mem.views
      ensures Taking(h, buf, buffer, offset, Taken(old(buffer.mem.Text(tmp)), n), tmp, buffer.mem.H())
    {
      ghost var g := buffer.mem.H();
      ReadyToTake(h, buf, buffer, offset, tmp, g);
      hide WellFormed, Calm, Sole, Owner, Texts, InBounds, Holding, AppendResult, Took;
      var err := buf.AppendBuffer(tmp, n);
      TakeSlice(h, buf, buffer, offset, tmp, g, Taken(old(buffer.mem.Text(tmp)), n), buffer.mem.H());
    }

    /** `ReadUntil(buf, ch, extend)`: the slice up to the first ch, and with it when extend is 1. */
    method ReadUntil(buf: Buffer, ch: byte, extend: nat) returns (err: Error)
      requires Valid() && buf.mem == buffer.mem && Target(buffer.mem.H(), buf, buffer) && extend <= 1
      modifies this, buf, buffer.mem
      ensures Valid()
      ensures Answers(old(buffer.mem.H()), buf, old(offset), old(Rest()),
                      Delimited(old(Rest()), Index(old(Rest()), ch), extend), err)
    {
      hide Memory.Valid, Memory.Text, WellFormed, Texts, Target, Holding, Took, Same, InBounds, Behind;
      ghost var h, at := buffer.mem.H(), offset;
      buffer.mem.Reads(buffer);
      if Eof() {
        SameAsBefore(h);
        return OutOfBound;
      }
      var tmp := Rewound(buf);
      var k := Index(tmp.Bytes(), ch);
      if k == tmp.Length() {
        Forget(tmp, buf, h);
        SameStays(h, buffer.mem.H(), buffer);
        buffer.mem.Reads(buffer);
        return NotFound;
      }
      Hand(buf, tmp, k + extend, h);
      SourceStays(h, buf, buffer, at, Taken(old(Rest()), k + extend), buffer.mem.H());
      buffer.mem.Reads(buffer);
      err := OK;
    }

    /** `ReadUntil(buf, chs)`: the slice up to the first of the listed delimiters that occurs at all. */
    method ReadUntilAny(buf: Buffer, chs: seq<byte>) returns (err: Error)
      requires Valid() && buf.mem == buffer.mem && Target(buffer.mem.H(), buf, buffer)
      modifies this, buf, buffer.mem
      ensures Valid()
      ensures Answers(old(buffer.mem.H()), buf, old(offset), old(Rest()),
                      Delimited(old(Rest()), FirstListed(chs, old(Rest())), 0), err)
    {
      hide Memory.Valid, Memory.Text, WellFormed, Texts, Target, Holding, Took, Same, InBounds, Behind;
      ghost var h, at := buffer.mem.H(), offset;
      buffer.mem.Reads(buffer);
      if Eof() {
        SameAsBefore(h);
        return OutOfBound;
      }
      var tmp := Rewound(buf);
      var k := Find(tmp, chs);
      if k == tmp.Length() {
        Forget(tmp, buf, h);
        SameStays(h, buffer.mem.H(), buffer);
        buffer.mem.Reads(buffer);
        return NotFound;
      }
      Hand(buf, tmp, k, h);
      SourceStays(h, buf, buffer, at, Taken(old(Rest()), k), buffer.mem.H());
      buffer.mem.Reads(buffer);
      err := OK;
    }

    method Find(tmp: Buffer, chs: seq<byte>) returns (k: nat)
      requires tmp.mem.Valid() && tmp in tmp.mem.views
      ensures k == FirstListed(chs, tmp.mem.Text(tmp)) <= |tmp.mem.Text(tmp)|
    {
      var data := tmp.Bytes();
      for i := 0 to |chs|
        invariant FirstListed(chs, data) == FirstListed(chs[i..], data)
      {
        k := Index(data, chs[i]);
        IndexStable(data, [], chs[i]);
        if k < |data| {
          return;
        }
      }
      k := |data|;
    }

    /** `Read(buf, length)`. */
    method Read(buf: Buffer, length: nat) returns (err: Error)
      requires Valid() && buf.mem == buffer.mem && Target(buffer.mem.H(), buf, buffer)
      modifies this, buf, buffer.mem
      ensures Valid()
      ensures Answers(old(buffer.mem.H()), buf, old(offset), old(Rest()), Exactly(old(Rest()), length), err)
    {
      hide Memory.Valid, Memory.Text, WellFormed, Texts, Target, Holding, Took, Same, InBounds, Behind;
      ghost var h, at := buffer.mem.H(), offset;
      buffer.mem.Reads(buffer);
      if Eof() || length > buffer.Length() - offset {
        SameAsBefore(h);
        return OutOfBound;
      }
      var tmp := Rewound(buf);
      Hand(buf, tmp, length, h);
      SourceStays(h, buf, buffer, at, Taken(old(Rest()), length), buffer.mem.H());
      buffer.mem.Reads(buffer);
      err := OK;
    }

    /** What a call came to when it was to take so many bytes of `rest`, or none. */
    ghost predicate Answers(h: Heap<Buffer>, buf: Buffer, at: nat, rest: bytes, want: Want, err: Error)
      reads this, buffer.mem
    {
      match want
      case No(e) => err == e && offset == at && Same(h, buffer.mem.H())
      case Yes(n) => err == OK && offset == at + n && Took(h, buf, buffer, at, Taken(rest, n), buffer.mem.H())
    }
  }

  datatype Want = No(err: Error) | Yes(n: nat)

  /** A delimiter was found at k, or not at all when k is the length of the rest. */
  function Delimited(rest: bytes, k: nat, extend: nat): Want {
    if rest == [] then No(OutOfBound) else if k >= |rest| then No(NotFound) else Yes(k + extend)
  }

  /** The position of the first listed delimiter that occurs in s, or the length of s. */
  function FirstListed(chs: seq<byte>, s: bytes): (k: nat)
    ensures k <= |s|
  {
    if chs == [] then |s| else if chs[0] in s then Index(s, chs[0]) else FirstListed(chs[1..], s)
  }

  function Exactly(rest: bytes, n: nat): Want {
    if rest == [] || n > |rest| then No(OutOfBound) else Yes(n)
  }

  lemma SameAsBefore<K>(h: Heap<K>)
    requires WellFormed(h)
    ensures Same(h, h)
  {
  }
}
