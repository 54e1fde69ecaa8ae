/** The block allocator and class Buffer: pointers into counted blocks, updated in place. */
module Buffers {
  import opened Base
  import opened Blocks
  import opened BufferOps
  import BufferRuns

  /** The memory that the functions of mem_alloc.cpp manage, and the set of Buffer objects alive. */
  class Memory {
    var blocks: map<Ptr, Block>
    var top: Ptr
    ghost var views: map<Buffer, View>

    ghost predicate Addresses() reads this {
      top > 0 && forall p :: p in blocks ==> 0 < p < top
    }

    ghost function H(): Heap<Buffer> reads this {
      Heap(blocks, views)
    }

    ghost predicate Valid() reads this, views.Keys {
      && Addresses()
      && WellFormed(H())
      && forall b :: b in views ==> b.mem == this && View(b.data, b.size, b.offset) == views[b]
    }

    /** What each buffer holds. */
    ghost function Text(b: Buffer): bytes
      requires Valid() && b in views
      reads this, views.Keys
    {
      ViewText(blocks, views[b])
    }

    /** The same, read off the heap as a value. */
    lemma Reads(b: Buffer)
      requires Valid() && b in views
      ensures WellFormed(H()) && b in H().views && Text(b) == Texts(H())[b] && InBounds(blocks, views[b])
    {
    }

    /** b's fields have changed, or b is new; the heap is as the operation on b leaves it. */
    ghost method Update(b: Buffer)
      requires Addresses() && b.mem == this
      requires WellFormed(Heap(blocks, views[b := b.Rep()]))
      requires forall a :: a in views && a != b ==> a.mem == this && View(a.data, a.size, a.offset) == views[a]
      modifies this`views
      ensures Valid() && H() == Heap(blocks, old(views)[b := b.Rep()])
    {
      views := views[b := b.Rep()];
    }

    constructor ()
      ensures Valid() && views == map[]
    {
      blocks, top, views := map[], 1, map[];
    }

    /** The contents of a new block are whatever was in memory. */
    method AllocRef(size: nat) returns (p: Ptr)
      requires Addresses()
      modifies this`blocks, this`top
      ensures Addresses() && p != 0 && p !in old(blocks)
      ensures exists junk: bytes :: |junk| == size && blocks == old(blocks)[p := Block(1, junk)]
    {
      var memory := new byte[size];
      p := top;
      blocks := blocks[p := Block(1, memory[..])];
      top := top + 1;
      assert |memory[..]| == size;
    }

    method IncrRef(p: Ptr)
      requires p in blocks && Addresses()
      modifies this`blocks
      ensures Addresses() && blocks == Retain(old(blocks), p)
    {
      blocks := blocks[p := blocks[p].(refs := blocks[p].refs + 1)];
    }

    method DescRef(p: Ptr)
      requires p in blocks && blocks[p].refs > 0 && Addresses()
      modifies this`blocks
      ensures Addresses() && blocks == Release(old(blocks), p)
    {
      var refs := blocks[p].refs - 1;
      blocks := blocks[p := blocks[p].(refs := refs)];
      if refs == 0 {
        blocks := blocks - {p};
      }
    }

    /** A holder of p, if p is a block, lets go of it. */
    method LetGo(p: Ptr)
      requires p == 0 || (p in blocks && blocks[p].refs > 0)
      requires Addresses()
      modifies this`blocks
      ensures Addresses() && blocks == Release(old(blocks), p)
    {
      if p != 0 {
        DescRef(p);
      }
    }

    /** One more holder of p, if p is a block. */
    method Share(p: Ptr)
      requires p == 0 || p in blocks
      requires Addresses()
      modifies this`blocks
      ensures Addresses() && blocks == Retain(old(blocks), p)
    {
      if p != 0 {
        IncrRef(p);
      }
    }

    /** memcpy, or memmove when source and target overlap, into block p. */
    method Copy(p: Ptr, at: nat, data: bytes)
      requires p in blocks && at + |data| <= |blocks[p].bytes| && Addresses()
      modifies this`blocks
      ensures Addresses()
      ensures blocks == old(blocks)[p := old(blocks[p]).(bytes :=
        old(blocks[p].bytes)[..at] + data + old(blocks[p].bytes)[at + |data|..])]
    {
      var bytes := blocks[p].bytes;
      blocks := blocks[p := blocks[p].(bytes := bytes[..at] + data + bytes[at + |data|..])];
    }
  }

  class Buffer {
    const mem: Memory
    var data: Ptr
    var size: nat
    var offset: nat

    function Rep(): View reads this {
      View(data, size, offset)
    }

    /** `Size()`. */
    function Length(): nat
      requires mem.Valid() && this in mem.views
      reads this, mem, mem.views.Keys
      ensures Length() == |mem.Text(this)|
    {
      assert InBounds(mem.blocks, mem.views[this]);
      size - offset
    }

    function Empty(): bool
      requires mem.Valid() && this in mem.views
      reads this, mem, mem.views.Keys
      ensures Empty() <==> mem.Text(this) == []
    {
      Length() == 0
    }

    /** The bytes at `Data()`. */
    function Bytes(): bytes
      requires mem.Valid() && this in mem.views
      reads this, mem, mem.views.Keys
      ensures Bytes() == mem.Text(this)
    {
      assert InBounds(mem.blocks, mem.views[this]);
      if data == 0 then [] else mem.blocks[data].bytes[offset..size]
    }

    /** The memory of the block behind the last byte. */
    function Beyond(): bytes
      requires mem.Valid() && this in mem.views
      reads this, mem, mem.views.Keys
      ensures InBounds(mem.blocks, mem.views[this]) && Beyond() == Behind(mem.H(), this)
    {
      assert InBounds(mem.blocks, mem.views[this]);
      if data == 0 then [] else mem.blocks[data].bytes[size..]
    }

    function RefSize(): nat
      requires mem.Valid() && this in mem.views
      reads this, mem, mem.views.Keys
      ensures RefSize() == Capacity(mem.blocks, mem.views[this])
    {
      assert InBounds(mem.blocks, mem.views[this]);
      if data == 0 then 0 else |mem.blocks[data].bytes|
    }

    function FreeSize(): nat
      requires mem.Valid() && this in mem.views
      reads this, mem, mem.views.Keys
      ensures FreeSize() == Capacity(mem.blocks, mem.views[this]) - mem.views[this].size
    {
      assert InBounds(mem.blocks, mem.views[this]);
      if data == 0 then 0 else RefSize() - size
    }

    constructor (mem: Memory)
      requires mem.Valid()
      modifies mem
      ensures this.mem == mem && mem.Valid() && data == 0
      ensures mem.H() == Attach(old(mem.H()), this, NOTHING)
      ensures Calm(old(mem.H()), mem.H(), {this})
    {
      this.mem := mem;
      data, size, offset := 0, 0, 0;
      new;
      hide WellFormed, Calm;
      ghost var h := mem.H();
      assert this !in h.views;
      AttachOk(h, this, NOTHING);
      mem.Update(this);
    }

    /** The copy constructor shares the block. */
    constructor Copy(b: Buffer)
      requires b.mem.Valid() && b in b.mem.views
      modifies b.mem
      ensures mem == b.mem && mem.Valid()
      ensures mem.H() == Attach(old(b.mem.H()), this, old(b.Rep()))
      ensures Calm(old(b.mem.H()), mem.H(), {this})
    {
      mem := b.mem;
      data, size, offset := b.data, b.size, b.offset;
      new;
      hide WellFormed, Calm;
      ghost var h := mem.H();
      assert this !in h.views;
      HeldBlock(h, b);
      AttachOk(h, this, Rep());
      mem.Share(data);
      assert Heap(mem.blocks, h.views[this := Rep()]) == Attach(h, this, Rep());
      mem.Update(this);
    }

    /** `~Buffer()`. */
    method Destroy()
      requires mem.Valid() && this in mem.views
      modifies mem
      ensures mem.Valid()
      ensures mem.H() == Detach(old(mem.H()), this)
      ensures Calm(old(mem.H()), mem.H(), {this})
    {
      hide WellFormed, Calm, Sole;
      ghost var h := mem.H();
      HeldBlock(h, this);
      DetachOk(h, this);
      mem.LetGo(data);
      mem.views := mem.views - {this};
    }

    /** `operator=`; assigning a buffer to itself would free a block that nobody else holds. */
    method Assign(b: Buffer)
      requires mem.Valid() && this in mem.views && b in mem.views && Outlives(mem.H(), this, b)
      modifies this, mem
      ensures mem.Valid()
      ensures mem.H() == Attach(Detach(old(mem.H()), this), this, old(b.Rep()))
      ensures Calm(old(mem.H()), mem.H(), {this})
    {
      hide WellFormed, Calm, Sole;
      ghost var h := mem.H();
      ghost var v := h.views[b];
      AssignOk(h, this, b);
      AssignIs(h, this, v);
      hide Attach, Detach, Retain, Release;
      mem.LetGo(data);
      size := b.size;
      offset := b.offset;
      data := b.data;
      mem.Share(data);
      assert Rep() == v && mem.blocks == Retain(Detach(h, this).blocks, v.data);
      mem.Update(this);
    }

    method Clear()
      requires mem.Valid() && this in mem.views
      modifies this, mem
      ensures mem.Valid()
      ensures mem.H() == BufferOps.Clear(old(mem.H()), this)
      ensures Calm(old(mem.H()), mem.H(), {this}) && Sole(mem.H(), this)
      ensures mem.Text(this) == [] && size == offset == 0
      ensures data == if old(data in mem.blocks && mem.blocks[data].refs > 1) then 0 else old(data)
    {
      hide WellFormed, Calm, Sole;
      ghost var h := mem.H();
      HeldBlock(h, this);
      ClearOk(h, this);
      size := 0;
      offset := 0;
      if data != 0 && mem.blocks[data].refs > 1 {
        mem.DescRef(data);
        data := 0;
      }
      assert Heap(mem.blocks, h.views[this := Rep()]) == BufferOps.Clear(h, this);
      mem.Update(this);
    }

    /** `Offset(start, length)`. */
    method Skip(start: nat, length: int := 0)
      requires mem.Valid() && this in mem.views
      modifies this, mem
      ensures mem.Valid()
      ensures mem.H() == Resize(old(mem.H()), this, OffsetView(old(Rep()), start, length))
      ensures mem.Text(this) == OffsetText(old(mem.Text(this)), start, length)
      ensures length == 0 ==>
        mem.Text(this) == if start <= |old(mem.Text(this))| then old(mem.Text(this))[start..] else []
      ensures length > 0 && start <= |old(mem.Text(this))| - length ==>
        mem.Text(this) == old(mem.Text(this))[start..start + length]
      ensures length > 0 && |old(mem.Text(this))| - length < start ==>
        mem.Text(this) == if start <= |old(mem.Text(this))| then old(mem.Text(this))[start..] else []
      ensures length < 0 && start <= |old(mem.Text(this))| + length ==>
        mem.Text(this) == old(mem.Text(this))[start..|old(mem.Text(this))| + length]
      ensures length < 0 && |old(mem.Text(this))| + length < start ==> mem.Text(this) == []
      ensures Calm(old(mem.H()), mem.H(), {this})
    {
      hide *;
      OffsetTextIs(mem.Text(this), start, length);
      MoveWindow(start, length);
    }

    /** The window moves; no byte does. */
    method MoveWindow(start: nat, length: int)
      requires mem.Valid() && this in mem.views
      modifies this, mem
      ensures mem.Valid()
      ensures mem.H() == Resize(old(mem.H()), this, OffsetView(old(Rep()), start, length))
      ensures mem.Text(this) == OffsetText(old(mem.Text(this)), start, length)
      ensures Calm(old(mem.H()), mem.H(), {this})
    {
      hide WellFormed, Calm, Sole;
      ghost var h := mem.H();
      OffsetOk(h, this, start, length);
      offset := offset + start;
      var newSize := 0;
      if length > 0 {
        newSize := offset + length;
      } else if size > -length {
        newSize := size + length;
      }
      if newSize < size { size := newSize; }
      if offset > size { offset := size; }
      assert Rep() == OffsetView(h.views[this], start, length);
      assert Heap(mem.blocks, h.views[this := Rep()]) == Resize(h, this, Rep());
      mem.Update(this);
    }

    /** `AppendSize`: the n bytes behind the end were filled in by somebody else. */
    method AppendSize(n: nat) returns (err: Error)
      requires mem.Valid() && this in mem.views
      modifies this, mem
      ensures mem.Valid()
      ensures err == if n <= old(FreeSize()) then OK else OutOfBound
      ensures err != OK ==> mem.H() == old(mem.H())
      ensures err == OK ==> mem.H() == Resize(old(mem.H()), this, old(Rep()).(size := old(size) + n))
    {
      hide WellFormed, Calm, Sole;
      ghost var h := mem.H();
      HeldBlock(h, this);
      if size + n > RefSize() {
        return OutOfBound;
      }
      size := size + n;
      ResizeOk(h, this, Rep());
      assert Heap(mem.blocks, h.views[this := Rep()]) == Resize(h, this, Rep());
      mem.Update(this);
      err := OK;
    }

    /** Nobody else holds the block, and it has n bytes of room when its front is given up. */
    predicate InPlace(n: nat)
      requires mem.Valid() && this in mem.views
      reads this, mem, mem.views.Keys
    {
      data in mem.blocks && mem.blocks[data].refs == 1 && offset + FreeSize() >= n
    }

    method AppendCapacity(n: nat) returns (err: Error)
      requires mem.Valid() && this in mem.views
      modifies this, mem
      ensures err == OK && mem.Valid()
      ensures GrowResult(old(mem.H()), this, n, mem.H())
      ensures n <= FreeSize()
      ensures n <= old(FreeSize()) ==> mem.H() == old(mem.H()) && Rep() == old(Rep())
      ensures old(FreeSize()) < n ==> offset == 0 && data != 0
      ensures old(FreeSize()) < n && old(InPlace(n)) ==> data == old(data) && RefSize() == old(RefSize())
      ensures old(FreeSize()) < n && !old(InPlace(n)) ==> data !in old(mem.blocks) && RefSize() == old(Length()) + n
    {
      hide WellFormed, Calm, Sole, Grown;
      ghost var h := mem.H();
      HeldBlock(h, this);
      if n + size > RefSize() {
        if data == 0 {
          FirstBlock(n);
        } else if mem.blocks[data].refs == 1 && offset >= n + size - RefSize() {
          Compact(n);
        } else {
          Relocate(n);
        }
      } else {
        ghost var junk: bytes := seq(n, _ => 0);
        GrowOk(h, this, n, mem.top, junk);
      }
      err := OK;
    }

    method FirstBlock(n: nat)
      requires mem.Valid() && this in mem.views && data == 0 && n > 0
      modifies this, mem
      ensures mem.Valid() && GrowResult(old(mem.H()), this, n, mem.H())
      ensures offset == 0 && data != 0 && data !in old(mem.blocks) && RefSize() == old(Length()) + n
    {
      hide WellFormed, Calm, Sole, Grown;
      ghost var h := mem.H();
      HeldBlock(h, this);
      data := mem.AllocRef(n + size);
      ghost var junk := mem.blocks[data].bytes;
      size := 0;
      offset := 0;
      GrowOk(h, this, n, data, junk);
      assert Heap(mem.blocks, h.views[this := Rep()]) == Grow(h, this, n, data, junk);
      mem.Update(this);
    }

    method Compact(n: nat)
      requires mem.Valid() && this in mem.views && data in mem.blocks && mem.blocks[data].refs == 1
      requires n + size > RefSize() && offset >= n + size - RefSize()
      modifies this, mem
      ensures mem.Valid() && GrowResult(old(mem.H()), this, n, mem.H())
      ensures offset == 0 && data == old(data) && RefSize() == old(RefSize())
    {
      hide WellFormed, Calm, Sole, Grown;
      ghost var h := mem.H();
      HeldBlock(h, this);
      ghost var p, junk: bytes := mem.top, seq(n, _ => 0);
      var text := Bytes();
      mem.Copy(data, 0, text);
      size := size - offset;
      offset := 0;
      GrowOk(h, this, n, p, junk);
      assert h.blocks[data].bytes[..0] + text == text;
      assert Heap(mem.blocks, h.views[this := Rep()]) == Grow(h, this, n, p, junk);
      mem.Update(this);
    }

    /** A new block that starts with the bytes of the buffer and has room for n more. */
    method CopyOut(n: nat) returns (p: Ptr, ghost junk: bytes)
      requires mem.Valid() && this in mem.views
      modifies mem`blocks, mem`top
      ensures p != 0 && p !in old(mem.blocks) && |junk| == n && mem.Addresses()
      ensures mem.blocks == old(mem.blocks)[p := Block(1, old(Bytes()) + junk)]
    {
      var text := Bytes();
      p := mem.AllocRef(n + size - offset);
      junk := mem.blocks[p].bytes[|text|..];
      assert mem.blocks[p].bytes[..0] + text == text;
      mem.Copy(p, 0, text);
    }

    method Relocate(n: nat)
      requires mem.Valid() && this in mem.views && data in mem.blocks
      requires n + size > RefSize() && !(mem.blocks[data].refs == 1 && offset >= n + size - RefSize())
      modifies this, mem
      ensures mem.Valid() && GrowResult(old(mem.H()), this, n, mem.H())
      ensures offset == 0 && data != 0 && data !in old(mem.blocks) && RefSize() == old(Length()) + n
    {
      hide WellFormed, Calm, Sole, Grown;
      ghost var h := mem.H();
      HeldBlock(h, this);
      ghost var text := Bytes();
      var p, junk := CopyOut(n);
      mem.LetGo(data);
      assert mem.blocks == Detach(h, this).blocks[p := Block(1, text + junk)];
      data := p;
      size := size - offset;
      offset := 0;
      GrowOk(h, this, n, p, junk);
      assert Heap(mem.blocks, h.views[this := Rep()]) == Grow(h, this, n, p, junk);
      mem.Update(this);
    }

    /** memcpy of data to `Tail()`, then `AppendSize`. */
    method Fill(bytes: bytes)
      requires mem.Valid() && this in mem.views && Owner(mem.H(), this) && |bytes| <= FreeSize()
      modifies this, mem
      ensures mem.Valid() && FillResult(old(mem.H()), this, bytes, mem.H())
      ensures offset == old(offset) && data == old(data) && size == old(size) + |bytes|
    {
      hide WellFormed, Calm, Sole, Owner;
      ghost var h := mem.H();
      HeldBlock(h, this);
      FillOk(h, this, bytes);
      if data != 0 {
        mem.Copy(data, size, bytes);
      }
      size := size + |bytes|;
      assert data == 0 ==> h.views[this := Rep()] == h.views;
      assert Heap(mem.blocks, h.views[this := Rep()]) == BufferOps.Fill(h, this, bytes);
      mem.Update(this);
    }

    /** `Append(const char*, size)`. */
    method AppendBytes(bytes: bytes) returns (err: Error)
      requires mem.Valid() && this in mem.views && Owner(mem.H(), this)
      modifies this, mem
      ensures err == OK && mem.Valid()
      ensures FillResult(old(mem.H()), this, bytes, mem.H())
    {
      hide WellFormed, Calm, Sole, Owner;
      ghost var h := mem.H();
      err := AppendCapacity(|bytes|);
      ghost var g := mem.H();
      GrownOwner(h, this, |bytes|, g);
      Fill(bytes);
      GrownFilled(h, this, |bytes|, g, bytes, mem.H());
    }

    /**
     * `Append(const Buffer&, n)`: an empty buffer takes a view of the other's block, a buffer of the same
     * block grows over bytes that are there already, and any other copies. Zero stands for the whole buffer.
     */
    method AppendBuffer(buffer: Buffer, n: nat := 0) returns (err: Error)
      requires mem.Valid() && this in mem.views && buffer in mem.views && buffer != this
      requires if data == buffer.data then data != 0 && buffer.offset == size else Owner(mem.H(), this)
      requires data == 0 ==> buffer.data != 0
      modifies this, mem
      ensures mem.Valid()
      ensures err == if n > |old(mem.Text(buffer))| then OutOfBound else OK
      ensures err != OK ==> mem.H() == old(mem.H())
      ensures err == OK ==>
        BufferRuns.AppendResult(old(mem.H()), this, buffer, Taken(old(mem.Text(buffer)), n), mem.H())
    {
      HeldBlock(mem.H(), buffer);
      BufferRuns.TextIs(mem.H(), buffer);
      hide WellFormed, BufferRuns.AppendResult, FillResult, Owner, Texts;
      var bufferSize := buffer.Length();
      if n > bufferSize {
        return OutOfBound;
      }
      var taken := if n == 0 then bufferSize else n;
      ghost var bytes := Taken(mem.Text(buffer), n);
      assert bytes == mem.Text(buffer)[..taken];
      if data == 0 {
        Adopt(buffer, bytes, taken);
      } else if data == buffer.data {
        Extend(buffer, bytes, taken);
      } else {
        ghost var h := mem.H();
        var copied := buffer.Bytes()[..taken];
        err := AppendBytes(copied);
        BufferRuns.CopyResult(h, this, buffer, copied, mem.H());
      }
      err := OK;
    }

    /** An empty buffer takes a view of the other's block. */
    method Adopt(buffer: Buffer, ghost bytes: bytes, n: nat)
      requires mem.Valid() && this in mem.views && buffer in mem.views && data == 0 != buffer.data
      requires n <= |Texts(mem.H())[buffer]| && bytes == Texts(mem.H())[buffer][..n]
      modifies this, mem
      ensures mem.Valid()
      ensures BufferRuns.AppendResult(old(mem.H()), this, buffer, bytes, mem.H())
    {
      CanJoin(buffer, bytes, n);
      hide *;
      Join(buffer, n);
    }

    /** With a view of the first n bytes that the other buffer views. */
    ghost function Joined(buffer: Buffer, n: nat): Heap<Buffer> reads mem, buffer {
      Heap(Retain(mem.blocks, buffer.data),
           mem.views[this := View(buffer.data, buffer.offset + n, buffer.offset)])
    }

    lemma CanJoin(buffer: Buffer, bytes: bytes, n: nat)
      requires mem.Valid() && this in mem.views && buffer in mem.views && data == 0 != buffer.data
      requires n <= |Texts(mem.H())[buffer]| && bytes == Texts(mem.H())[buffer][..n]
      ensures buffer.data in mem.blocks && WellFormed(Joined(buffer, n))
      ensures BufferRuns.AppendResult(mem.H(), this, buffer, bytes, Joined(buffer, n))
    {
      hide *;
      JoinedIs(buffer, n);
      BufferRuns.AdoptResult(mem.H(), this, buffer, n);
    }

    lemma JoinedIs(buffer: Buffer, n: nat)
      requires mem.Valid() && this in mem.views && buffer in mem.views
      ensures var h := mem.H(); var w := h.views[buffer];
        && WellFormed(h) && h.views[this].data == data && w.data == buffer.data
        && h.blocks == mem.blocks && h.views == mem.views
        && Joined(buffer, n)
           == Heap(Retain(h.blocks, w.data), h.views[this := View(w.data, w.offset + n, w.offset)])
    {
    }

    method Join(buffer: Buffer, n: nat)
      requires mem.Valid() && this in mem.views && buffer in mem.views && buffer.data in mem.blocks
      requires WellFormed(Joined(buffer, n))
      modifies this, mem
      ensures mem.Valid() && mem.H() == old(Joined(buffer, n))
    {
      hide WellFormed;
      data := buffer.data;
      mem.IncrRef(data);
      offset := buffer.offset;
      size := offset + n;
      mem.Update(this);
    }

    /** A buffer of the same block grows over the other's bytes. */
    method Extend(buffer: Buffer, ghost bytes: bytes, n: nat)
      requires mem.Valid() && this in mem.views && buffer in mem.views && buffer != this
      requires data == buffer.data != 0 && buffer.offset == size
      requires n <= |Texts(mem.H())[buffer]| && bytes == Texts(mem.H())[buffer][..n]
      modifies this, mem
      ensures mem.Valid()
      ensures BufferRuns.AppendResult(old(mem.H()), this, buffer, bytes, mem.H())
    {
      ghost var h := mem.H();
      HeldBlock(h, buffer);
      hide WellFormed, BufferRuns.AppendResult, Texts, InBounds, Calm;
      BufferRuns.ShareResult(h, this, buffer, n);
      size := size + n;
      mem.Update(this);
    }
  }
}
