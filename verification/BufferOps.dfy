/**
 * Every operation of class Buffer on the heap of shared blocks, and the proof that together they
 * refine byte strings with value semantics.
 */
module BufferOps {
  import opened Base
  import opened Blocks

  /** `Clear`: give up a shared block, keep one's own. */
  function Clear<K>(h: Heap<K>, k: K): Heap<K>
    requires k in h.views
  {
    var p := h.views[k].data;
    if p in h.blocks && h.blocks[p].refs > 1 then Attach(Detach(h, k), k, NOTHING)
    else Resize(h, k, View(p, 0, 0))
  }

  /** `Offset(start, length)` on the fields. */
  function OffsetView(v: View, start: nat, length: int): View {
    var offset := v.offset + start;
    var newSize :=
      if length > 0 then offset + length
      else if v.size > -length then v.size + length
      else 0;
    var size := if newSize < v.size then newSize else v.size;
    View(v.data, size, if offset > size then size else offset)
  }

  /** What `Offset` means: a positive length keeps so many bytes, a negative one drops so many at the end. */
  function OffsetText(t: bytes, start: nat, length: int): bytes {
    var end :=
      if length > 0 && start + length < |t| then start + length
      else if length <= 0 then |t| + length
      else |t|;
    if start <= end then t[start..end] else []
  }

  lemma OffsetTextIs(t: bytes, start: nat, length: int)
    ensures length == 0 ==> OffsetText(t, start, length) == if start <= |t| then t[start..] else []
    ensures length > 0 && start <= |t| - length ==> OffsetText(t, start, length) == t[start..start + length]
    ensures length > 0 && |t| - length < start ==>
      OffsetText(t, start, length) == if start <= |t| then t[start..] else []
    ensures length < 0 ==>
      OffsetText(t, start, length) == if start <= |t| + length then t[start..|t| + length] else []
  {
  }

  /** Writing to a block and moving k's window in it, when no other view covers what is written. */
  function Rewrite<K>(h: Heap<K>, k: K, bytes: bytes, w: View): Heap<K>
    requires w.data in h.blocks
  {
    Resize(Poke(h, w.data, bytes), k, w)
  }

  /** `AppendCapacity(n)`; a new block, when one is needed, is at p and ends in the n bytes of junk. */
  function Grow<K>(h: Heap<K>, k: K, n: nat, p: Ptr, junk: bytes): Heap<K>
    requires k in h.views && InBounds(h.blocks, h.views[k])
  {
    var v := h.views[k];
    var capacity := Capacity(h.blocks, v);
    if n + v.size <= capacity then h
    else if v.data == 0 then Allocate(Detach(h, k), k, p, junk, 0)
    else
      var text := ViewText(h.blocks, v);
      if h.blocks[v.data].refs == 1 && v.offset >= n + v.size - capacity then
        Rewrite(h, k, text + h.blocks[v.data].bytes[|text|..], View(v.data, |text|, 0))
      else Allocate(Detach(h, k), k, p, text + junk, |text|)
  }

  /** memcpy behind the last byte, then `AppendSize`. */
  function Fill<K>(h: Heap<K>, k: K, data: bytes): Heap<K>
    requires k in h.views && InBounds(h.blocks, h.views[k])
    requires h.views[k].size + |data| <= Capacity(h.blocks, h.views[k])
  {
    var v := h.views[k];
    if v.data == 0 then h
    else
      var was := h.blocks[v.data].bytes;
      Rewrite(h, k, was[..v.size] + data + was[v.size + |data|..], v.(size := v.size + |data|))
  }

  ghost predicate FreshBlock<K>(h: Heap<K>, p: Ptr, n: nat, junk: bytes) {
    p != 0 && p !in h.blocks && |junk| == n
  }

  /** h' is h after `AppendCapacity(n)` on k, for some address and contents of the block allocated. */
  ghost predicate Grown<K>(h: Heap<K>, k: K, n: nat, h': Heap<K>) {
    && k in h.views && InBounds(h.blocks, h.views[k])
    && exists p: Ptr, junk: bytes :: FreshBlock(h, p, n, junk) && h' == Grow(h, k, n, p, junk)
  }

  // ---- each operation keeps the heap well formed and does to the texts what its name says

  lemma ClearKeeps<K>(h: Heap<K>, k: K)
    requires WellFormed(h) && k in h.views
    ensures WellFormed(Clear(h, k)) && Sole(Clear(h, k), k)
    ensures Texts(Clear(h, k)) == Texts(h)[k := []]
  {
    hide Exact;
    var v := h.views[k];
    if v.data != 0 && h.blocks[v.data].refs > 1 {
      DetachExact(h, k);
      DetachTexts(h, k);
      AttachExact(Detach(h, k), k, NOTHING);
      AttachTexts(Detach(h, k), k, NOTHING);
      assert (Texts(h) - {k})[k := []] == Texts(h)[k := []];
    } else {
      if v.data != 0 { CountOfOne(h, k); }
      ResizeExact(h, k, View(v.data, 0, 0));
      ResizeTexts(h, k, View(v.data, 0, 0));
    }
  }

  lemma OffsetWindow(bytes: bytes, v: View, start: nat, length: int)
    requires v.offset <= v.size <= |bytes|
    ensures var w := OffsetView(v, start, length);
      && w.offset <= w.size <= v.size && w.data == v.data
      && bytes[w.offset..w.size] == OffsetText(bytes[v.offset..v.size], start, length)
  {
    var w := OffsetView(v, start, length);
    if w.offset < w.size {
      SliceOfSlice(bytes, v.offset, v.size, start, w.size - v.offset);
    }
  }

  lemma SliceOfSlice(s: bytes, a: nat, b: nat, c: nat, d: nat)
    requires a <= b <= |s| && c <= d <= b - a
    ensures s[a..b][c..d] == s[a + c..a + d]
  {
    assert |s[a..b][c..d]| == |s[a + c..a + d]|;
    assert forall i :: 0 <= i < d - c ==> s[a..b][c..d][i] == s[a + c..a + d][i];
  }

  lemma OffsetKeeps<K>(h: Heap<K>, k: K, start: nat, length: int)
    requires WellFormed(h) && k in h.views
    ensures var v := OffsetView(h.views[k], start, length); var h' := Resize(h, k, v);
      && WellFormed(h')
      && Texts(h') == Texts(h)[k := OffsetText(Texts(h)[k], start, length)]
      && v.data == h.views[k].data && v.size <= h.views[k].size
  {
    var v := h.views[k];
    var w := OffsetView(v, start, length);
    if v.data != 0 {
      OffsetWindow(h.blocks[v.data].bytes, v, start, length);
    }
    ResizeExact(h, k, w);
    ResizeTexts(h, k, w);
  }

  lemma RewriteByStages<K>(h: Heap<K>, k: K, bytes: bytes, w: View)
    requires k in h.views && w.data in h.blocks
    ensures Rewrite(h, k, bytes, w)
         == Resize(Poke(Resize(h, k, View(w.data, 0, 0)), w.data, bytes), k, w)
  {
    assert h.views[k := View(w.data, 0, 0)][k := w] == h.views[k := w];
  }

  lemma RewriteKeeps<K>(h: Heap<K>, k: K, bytes: bytes, w: View)
    requires WellFormed(h) && k in h.views && h.views[k].data == w.data != 0
    requires |bytes| == |h.blocks[w.data].bytes| && w.offset <= w.size <= |bytes|
    requires forall j :: j in h.views && j != k ==> Untouched(h.blocks, w.data, bytes, h.views[j])
    ensures WellFormed(Rewrite(h, k, bytes, w))
    ensures Texts(Rewrite(h, k, bytes, w)) == Texts(h)[k := bytes[w.offset..w.size]]
  {
    var none := View(w.data, 0, 0);
    var g := Resize(h, k, none);
    ResizeExact(h, k, none);
    ResizeTexts(h, k, none);
    PokeExact(g, w.data, bytes);
    PokeTexts(g, w.data, bytes);
    ResizeExact(Poke(g, w.data, bytes), k, w);
    ResizeTexts(Poke(g, w.data, bytes), k, w);
    RewriteByStages(h, k, bytes, w);
    UpdateTwice(Texts(h), k, [], bytes[w.offset..w.size]);
  }

  lemma UpdateTwice<K, V>(m: map<K, V>, k: K, a: V, b: V)
    ensures m[k := a][k := b] == m[k := b]
  {
  }

  lemma GrowInPlace<K>(h: Heap<K>, k: K)
    requires WellFormed(h) && k in h.views && h.views[k].data != 0 && Sole(h, k)
    ensures var v := h.views[k]; var text := Texts(h)[k];
      var h' := Rewrite(h, k, text + h.blocks[v.data].bytes[|text|..], View(v.data, |text|, 0));
      && WellFormed(h') && Sole(h', k) && Texts(h') == Texts(h)
      && k in h'.views && h'.views == h.views[k := h'.views[k]] && h'.views[k].size == |text|
      && Capacity(h'.blocks, h'.views[k]) == Capacity(h.blocks, v)
  {
    var v := h.views[k];
    var text := Texts(h)[k];
    var bytes := text + h.blocks[v.data].bytes[|text|..];
    RewriteKeeps(h, k, bytes, View(v.data, |text|, 0));
    assert bytes[0..|text|] == text;
    assert Texts(h)[k := text] == Texts(h);
  }

  lemma AllocatedView<K>(h: Heap<K>, k: K, p: Ptr, bytes: bytes, size: nat)
    requires k in h.views && p != 0
    ensures var h' := Allocate(Detach(h, k), k, p, bytes, size);
      && k in h'.views && h'.views == h.views[k := h'.views[k]] && h'.views[k].size == size
      && Capacity(h'.blocks, h'.views[k]) == |bytes|
    ensures Detach(h, k) == Heap(Release(h.blocks, h.views[k].data), h.views - {k})
  {
    assert (h.views - {k})[k := View(p, size, 0)] == h.views[k := View(p, size, 0)];
  }

  lemma GrowByMove<K>(h: Heap<K>, k: K, n: nat, p: Ptr, junk: bytes)
    requires WellFormed(h) && k in h.views && FreshBlock(h, p, n, junk)
    ensures var text := Texts(h)[k]; var h' := Allocate(Detach(h, k), k, p, text + junk, |text|);
      && WellFormed(h') && Sole(h', k) && Texts(h') == Texts(h)
      && k in h'.views && h'.views == h.views[k := h'.views[k]] && h'.views[k].size == |text|
      && Capacity(h'.blocks, h'.views[k]) == |text| + n
  {
    hide Exact, Bounded, Texts, Allocate, Sole, Capacity, Detach;
    AllocatedView(h, k, p, Texts(h)[k] + junk, |Texts(h)[k]|);
    var text := Texts(h)[k];
    DetachExact(h, k);
    DetachTexts(h, k);
    AllocateExact(Detach(h, k), k, p, text + junk, |text|);
    AllocateTexts(Detach(h, k), k, p, text + junk, |text|);
    assert (text + junk)[..|text|] == text;
    assert (Texts(h) - {k})[k := text] == Texts(h);
  }

  /** The three ways `AppendCapacity` can go. */
  lemma GrowCases<K>(h: Heap<K>, k: K, n: nat, p: Ptr, junk: bytes)
    requires WellFormed(h) && k in h.views && FreshBlock(h, p, n, junk)
    ensures var v := h.views[k]; var text := Texts(h)[k]; var h' := Grow(h, k, n, p, junk);
      || (h' == h && v.size + n <= Capacity(h.blocks, v))
      || (&& v.data != 0 && Sole(h, k) && |text| + n <= Capacity(h.blocks, v)
          && h' == Rewrite(h, k, text + h.blocks[v.data].bytes[|text|..], View(v.data, |text|, 0)))
      || h' == Allocate(Detach(h, k), k, p, text + junk, |text|)
  {
    var v := h.views[k];
    if v.data != 0 {
      CountOfOne(h, k);
    } else {
      assert Texts(h)[k] + junk == junk;
    }
  }

  /** `AppendCapacity` changes no text and leaves room for n bytes, in each of its branches. */
  lemma GrowKeeps<K>(h: Heap<K>, k: K, n: nat, p: Ptr, junk: bytes)
    requires WellFormed(h) && k in h.views && FreshBlock(h, p, n, junk)
    ensures var h' := Grow(h, k, n, p, junk);
      && WellFormed(h') && Texts(h') == Texts(h)
      && h'.views == h.views[k := h'.views[k]]
      && h'.views[k].size + n <= Capacity(h'.blocks, h'.views[k])
      && (h' == h || Sole(h', k))
  {
    hide *;
    GrowCases(h, k, n, p, junk);
    if h.views[k].data != 0 && Sole(h, k) {
      GrowInPlace(h, k);
    }
    GrowByMove(h, k, n, p, junk);
    assert h.views[k := h.views[k]] == h.views;
  }

  lemma Overwrite(was: bytes, data: bytes, n: nat, a: nat, b: nat)
    requires a <= b <= n && n + |data| <= |was|
    ensures var bytes := was[..n] + data + was[n + |data|..];
      |bytes| == |was| && bytes[a..b] == was[a..b] && bytes[a..n + |data|] == was[a..n] + data
  {
  }

  /** An owner's tail is covered by no other view. */
  lemma TailIsFree<K>(h: Heap<K>, k: K, data: bytes)
    requires WellFormed(h) && Owner(h, k) && h.views[k].data != 0
    requires h.views[k].size + |data| <= Capacity(h.blocks, h.views[k])
    ensures var v := h.views[k]; var was := h.blocks[v.data].bytes;
      var bytes := was[..v.size] + data + was[v.size + |data|..];
      && |bytes| == |was|
      && forall j :: j in h.views && j != k ==> Untouched(h.blocks, v.data, bytes, h.views[j])
  {
    var v := h.views[k];
    var was := h.blocks[v.data].bytes;
    var bytes := was[..v.size] + data + was[v.size + |data|..];
    forall j | j in h.views && j != k ensures Untouched(h.blocks, v.data, bytes, h.views[j]) {
      var u := h.views[j];
      if u.data == v.data {
        Overwrite(was, data, v.size, u.offset, u.size);
      }
    }
  }

  lemma BlockText<K>(h: Heap<K>, k: K)
    requires WellFormed(h) && k in h.views && h.views[k].data != 0
    ensures InBounds(h.blocks, h.views[k])
    ensures Texts(h)[k] == h.blocks[h.views[k].data].bytes[h.views[k].offset..h.views[k].size]
  {
  }

  lemma FillBlock<K>(h: Heap<K>, k: K, data: bytes)
    requires WellFormed(h) && Owner(h, k) && h.views[k].data != 0
    requires h.views[k].size + |data| <= Capacity(h.blocks, h.views[k])
    ensures var h' := Fill(h, k, data);
      && WellFormed(h')
      && Texts(h') == Texts(h)[k := Texts(h)[k] + data]
      && h'.views == h.views[k := h.views[k].(size := h.views[k].size + |data|)]
  {
    hide Exact, Bounded, Sole, Untouched, Texts;
    BlockText(h, k);
    var v := h.views[k];
    var was := h.blocks[v.data].bytes;
    var bytes := was[..v.size] + data + was[v.size + |data|..];
    var w := v.(size := v.size + |data|);
    TailIsFree(h, k, data);
    Overwrite(was, data, v.size, v.offset, v.size);
    RewriteKeeps(h, k, bytes, w);
  }

  /** Appending at an owner's tail is concatenation, and no other buffer notices. */
  lemma FillKeeps<K>(h: Heap<K>, k: K, data: bytes)
    requires WellFormed(h) && Owner(h, k)
    requires h.views[k].size + |data| <= Capacity(h.blocks, h.views[k])
    ensures var h' := Fill(h, k, data);
      && WellFormed(h') && Owner(h', k) && (Sole(h, k) ==> Sole(h', k))
      && Texts(h') == Texts(h)[k := Texts(h)[k] + data]
      && h'.views == h.views[k := h.views[k].(size := h.views[k].size + |data|)]
  {
    if h.views[k].data == 0 {
      assert data == [];
      assert h.views[k := h.views[k]] == h.views;
      assert Texts(h)[k] + data == Texts(h)[k];
      assert Texts(h)[k := Texts(h)[k]] == Texts(h);
    } else {
      FillBlock(h, k, data);
    }
  }

  // ---- what the other buffers see of an operation: nothing, not even in the memory behind their bytes

  ghost predicate SameView<K>(h: Heap<K>, h': Heap<K>, j: K)
    requires j in h.views
  {
    var v := h.views[j];
    && j in h'.views && h'.views[j] == v
    && (v.data in h.blocks ==> v.data in h'.blocks && h'.blocks[v.data].bytes == h.blocks[v.data].bytes)
  }

  ghost predicate Calm<K>(h: Heap<K>, h': Heap<K>, but: set<K>) {
    forall j :: j in h.views && j !in but ==> SameView(h, h', j)
  }

  lemma CalmTransitive<K>(h: Heap<K>, h': Heap<K>, h'': Heap<K>, a: set<K>, b: set<K>, but: set<K>)
    requires Calm(h, h', a) && Calm(h', h'', b)
    requires forall j :: j in h.views && j !in but ==> j !in a && j !in b
    ensures Calm(h, h'', but)
  {
    forall j | j in h.views && j !in but ensures SameView(h, h'', j) {
      assert SameView(h, h', j) && SameView(h', h'', j);
    }
  }

  /** A calm change leaves the others' texts alone. */
  lemma CalmText<K>(h: Heap<K>, h': Heap<K>, but: set<K>, j: K)
    requires WellFormed(h) && WellFormed(h') && Calm(h, h', but) && j in h.views && j !in but
    ensures j in h'.views && Texts(h')[j] == Texts(h)[j]
  {
    assert SameView(h, h', j);
  }

  lemma DetachCalm<K>(h: Heap<K>, k: K)
    requires WellFormed(h) && k in h.views
    ensures Calm(h, Detach(h, k), {k})
  {
    forall j | j in h.views && j != k ensures SameView(h, Detach(h, k), j) {
      if h.views[j].data == h.views[k].data != 0 {
        SharedSurvives(h, k, j);
      }
    }
  }

  lemma AttachCalm<K>(h: Heap<K>, k: K, v: View)
    ensures Calm(h, Attach(h, k, v), {k})
  {
    forall j | j in h.views && j != k ensures SameView(h, Attach(h, k, v), j) {
    }
  }

  lemma ReplaceCalm<K>(h: Heap<K>, k: K, v: View)
    requires WellFormed(h) && k in h.views
    ensures Calm(h, Attach(Detach(h, k), k, v), {k})
  {
    DetachCalm(h, k);
    AttachCalm(Detach(h, k), k, v);
    CalmTransitive(h, Detach(h, k), Attach(Detach(h, k), k, v), {k}, {k}, {k});
  }

  lemma MoveCalm<K>(h: Heap<K>, k: K, p: Ptr, bytes: bytes, size: nat)
    requires WellFormed(h) && k in h.views && p !in h.blocks
    ensures Calm(h, Allocate(Detach(h, k), k, p, bytes, size), {k})
  {
    DetachCalm(h, k);
    var g := Detach(h, k);
    forall j | j in h.views && j != k ensures SameView(h, Allocate(g, k, p, bytes, size), j) {
      assert SameView(h, g, j);
    }
  }

  lemma RewriteCalm<K>(h: Heap<K>, k: K, bytes: bytes, w: View)
    requires Sole(h, k) && w.data == h.views[k].data != 0 && w.data in h.blocks
    ensures Calm(h, Rewrite(h, k, bytes, w), {k})
  {
    forall j | j in h.views && j != k ensures SameView(h, Rewrite(h, k, bytes, w), j) {
    }
  }

  lemma GrowCalm<K>(h: Heap<K>, k: K, n: nat, p: Ptr, junk: bytes)
    requires WellFormed(h) && k in h.views && FreshBlock(h, p, n, junk)
    ensures Calm(h, Grow(h, k, n, p, junk), {k})
  {
    var text := Texts(h)[k];
    GrowCases(h, k, n, p, junk);
    MoveCalm(h, k, p, text + junk, |text|);
    if h.views[k].data != 0 && Sole(h, k) {
      RewriteCalm(h, k, text + h.blocks[h.views[k].data].bytes[|text|..], View(h.views[k].data, |text|, 0));
    }
  }

  lemma FillCalm<K>(h: Heap<K>, k: K, data: bytes)
    requires WellFormed(h) && Sole(h, k)
    requires h.views[k].size + |data| <= Capacity(h.blocks, h.views[k])
    ensures Calm(h, Fill(h, k, data), {k})
  {
    var v := h.views[k];
    if v.data != 0 {
      var was := h.blocks[v.data].bytes;
      RewriteCalm(h, k, was[..v.size] + data + was[v.size + |data|..], v.(size := v.size + |data|));
    }
  }

  // ---- the same facts, as the methods of Buffer use them

  ghost predicate Kept<K>(h: Heap<K>, h': Heap<K>, k: K) {
    WellFormed(h') && Calm(h, h', {k})
  }

  lemma AttachOk<K>(h: Heap<K>, k: K, v: View)
    requires WellFormed(h) && k !in h.views && InBounds(h.blocks, v)
    ensures Kept(h, Attach(h, k, v), k)
  {
    AttachExact(h, k, v);
    AttachTexts(h, k, v);
    AttachCalm(h, k, v);
  }

  lemma DetachOk<K>(h: Heap<K>, k: K)
    requires WellFormed(h) && k in h.views
    ensures Kept(h, Detach(h, k), k)
  {
    DetachExact(h, k);
    DetachTexts(h, k);
    DetachCalm(h, k);
  }

  lemma ReplaceOk<K>(h: Heap<K>, k: K, v: View)
    requires WellFormed(h) && k in h.views && InBounds(Detach(h, k).blocks, v)
    ensures Kept(h, Attach(Detach(h, k), k, v), k)
  {
    DetachOk(h, k);
    AttachOk(Detach(h, k), k, v);
    ReplaceCalm(h, k, v);
  }

  lemma ResizeOk<K>(h: Heap<K>, k: K, v: View)
    requires WellFormed(h) && k in h.views && v.data == h.views[k].data && InBounds(h.blocks, v)
    ensures Kept(h, Resize(h, k, v), k)
  {
    ResizeExact(h, k, v);
    ResizeTexts(h, k, v);
  }

  lemma ClearOk<K>(h: Heap<K>, k: K)
    requires WellFormed(h) && k in h.views
    ensures Kept(h, Clear(h, k), k) && Sole(Clear(h, k), k)
    ensures var v := Clear(h, k).views[k]; InBounds(Clear(h, k).blocks, v) && v.size == v.offset == 0
  {
    ClearKeeps(h, k);
    ReplaceCalm(h, k, NOTHING);
  }

  lemma OffsetOk<K>(h: Heap<K>, k: K, start: nat, length: int)
    requires WellFormed(h) && k in h.views
    ensures var v := h.views[k]; var w := OffsetView(v, start, length);
      && InBounds(h.blocks, v) && InBounds(h.blocks, w)
      && Kept(h, Resize(h, k, w), k)
      && ViewText(h.blocks, w) == OffsetText(ViewText(h.blocks, v), start, length)
  {
    var v := h.views[k];
    if v.data != 0 {
      OffsetWindow(h.blocks[v.data].bytes, v, start, length);
    }
    ResizeOk(h, k, OffsetView(v, start, length));
  }

  /** When k lets its block go, j still has what it views: j is another buffer, or others hold the block too. */
  predicate Outlives<K(==)>(h: Heap<K>, k: K, j: K)
    requires k in h.views
  {
    var p := h.views[k].data;
    j != k || p == 0 || (p in h.blocks && h.blocks[p].refs > 1)
  }

  /** A view that outlives k's hold on its block is still there, and reads the same. */
  lemma OtherSurvives<K>(h: Heap<K>, k: K, src: K)
    requires WellFormed(h) && k in h.views && src in h.views && Outlives(h, k, src)
    ensures var v := h.views[src]; var blocks := Detach(h, k).blocks;
      InBounds(blocks, v) && ViewText(blocks, v) == ViewText(h.blocks, v)
      && (v.data in blocks <==> v.data in h.blocks)
      && (v.data in blocks ==> blocks[v.data].bytes == h.blocks[v.data].bytes)
  {
    if h.views[src].data == h.views[k].data != 0 && src != k {
      SharedSurvives(h, k, src);
    }
  }

  lemma HeldBlock<K>(h: Heap<K>, k: K)
    requires WellFormed(h) && k in h.views
    ensures InBounds(h.blocks, h.views[k])
    ensures h.views[k].data != 0 ==> h.views[k].data in h.blocks && h.blocks[h.views[k].data].refs >= 1
  {
    if h.views[k].data != 0 {
      CountOfOne(h, k);
    }
  }

  lemma AssignOk<K>(h: Heap<K>, k: K, j: K)
    requires WellFormed(h) && k in h.views && j in h.views && Outlives(h, k, j)
    ensures var v := h.views[j]; var blocks := Detach(h, k).blocks;
      && (h.views[k].data != 0 ==> h.views[k].data in h.blocks && h.blocks[h.views[k].data].refs >= 1)
      && 0 !in h.blocks
      && (v.data != 0 ==> v.data in blocks)
      && WellFormed(Heap(Retain(blocks, v.data), h.views[k := v]))
      && Calm(h, Attach(Detach(h, k), k, v), {k})
  {
    HeldBlock(h, k);
    OtherSurvives(h, k, j);
    ReplaceOk(h, k, h.views[j]);
    assert Heap(Retain(Detach(h, k).blocks, h.views[j].data), h.views[k := h.views[j]])
        == Attach(Detach(h, k), k, h.views[j]);
  }

  lemma AssignIs<K>(h: Heap<K>, k: K, v: View)
    requires k in h.views
    ensures Detach(h, k).blocks == Release(h.blocks, h.views[k].data)
    ensures Attach(Detach(h, k), k, v) == Heap(Retain(Detach(h, k).blocks, v.data), h.views[k := v])
  {
    assert Detach(h, k).views[k := v] == h.views[k := v];
  }

  ghost predicate GrowResult<K>(h: Heap<K>, k: K, n: nat, h': Heap<K>)
    requires WellFormed(h) && k in h.views
  {
    && Kept(h, h', k) && k in h'.views
    && InBounds(h'.blocks, h'.views[k]) && ViewText(h'.blocks, h'.views[k]) == ViewText(h.blocks, h.views[k])
    && h'.views == h.views[k := h'.views[k]]
    && h'.views[k].size + n <= Capacity(h'.blocks, h'.views[k])
    && (h' == h || Sole(h', k))
    && Grown(h, k, n, h')
  }

  lemma GrowOk<K>(h: Heap<K>, k: K, n: nat, p: Ptr, junk: bytes)
    requires WellFormed(h) && k in h.views && FreshBlock(h, p, n, junk)
    ensures InBounds(h.blocks, h.views[k])
    ensures GrowResult(h, k, n, Grow(h, k, n, p, junk))
  {
    GrowKeeps(h, k, n, p, junk);
    GrowCalm(h, k, n, p, junk);
    assert Texts(Grow(h, k, n, p, junk))[k] == Texts(h)[k];
  }

  ghost predicate FillResult<K>(h: Heap<K>, k: K, data: bytes, h': Heap<K>)
    requires WellFormed(h) && k in h.views
  {
    && WellFormed(h') && Owner(h', k)
    && k in h'.views && h'.views == h.views[k := h'.views[k]]
    && Texts(h') == Texts(h)[k := Texts(h)[k] + data]
    && (Sole(h, k) ==> Sole(h', k) && Calm(h, h', {k}))
  }

  lemma FillOk<K>(h: Heap<K>, k: K, data: bytes)
    requires WellFormed(h) && Owner(h, k)
    requires h.views[k].size + |data| <= Capacity(h.blocks, h.views[k])
    ensures InBounds(h.blocks, h.views[k])
    ensures FillResult(h, k, data, Fill(h, k, data))
    ensures h.views[k].data != 0 ==> h.views[k].data in h.blocks
  {
    FillKeeps(h, k, data);
    if Sole(h, k) {
      FillCalm(h, k, data);
    }
  }

  /** Growing keeps ownership. */
  lemma GrownOwner<K>(h: Heap<K>, k: K, n: nat, h': Heap<K>)
    requires WellFormed(h) && k in h.views && GrowResult(h, k, n, h')
    ensures Owner(h, k) ==> Owner(h', k)
    ensures Sole(h, k) ==> Sole(h', k)
  {
  }

  lemma GrownFilled<K>(h: Heap<K>, k: K, n: nat, h': Heap<K>, data: bytes, h'': Heap<K>)
    requires WellFormed(h) && k in h.views && GrowResult(h, k, n, h') && FillResult(h', k, data, h'')
    ensures FillResult(h, k, data, h'')
  {
    hide Exact, Bounded, Calm, Sole, Owner, Texts, ViewText, Grown, Capacity;
    CalmTexts(h, h', k);
    GrownOwner(h, k, n, h');
    UpdateTwice(h.views, k, h'.views[k], h''.views[k]);
    if Sole(h, k) {
      CalmTransitive(h, h', h'', {k}, {k}, {k});
    }
  }

  lemma CalmTexts<K>(h: Heap<K>, h': Heap<K>, k: K)
    requires WellFormed(h) && WellFormed(h') && k in h.views && Calm(h, h', {k})
    requires k in h'.views && h'.views == h.views[k := h'.views[k]]
    requires ViewText(h'.blocks, h'.views[k]) == ViewText(h.blocks, h.views[k])
    ensures Texts(h') == Texts(h)
  {
    forall j | j in h.views ensures Texts(h')[j] == Texts(h)[j] {
      if j != k { CalmText(h, h', {k}, j); }
    }
  }

  /** The memory of k's block behind its last byte. */
  function Behind<K>(h: Heap<K>, k: K): bytes
    requires k in h.views && InBounds(h.blocks, h.views[k])
  {
    var v := h.views[k];
    if v.data == 0 then [] else h.blocks[v.data].bytes[v.size..]
  }
}
