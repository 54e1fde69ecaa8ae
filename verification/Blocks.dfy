/**
 * Reference-counted memory blocks and the buffers that share them, as values.
 * A buffer is a window into a block. What a buffer operation does to the blocks is a function of the
 * heap; `Texts` is what the buffers hold when sharing, growing and compacting are forgotten.
 */
module Blocks {
  import opened Base

  /** An address; 0 is the null pointer. */
  type Ptr = nat

  datatype Block = Block(refs: nat, bytes: bytes)

  /** The fields of a Buffer: `data_`, `size_` and `offset_`. */
  datatype View = View(data: Ptr, size: nat, offset: nat)

  const NOTHING := View(0, 0, 0)

  datatype Heap<K(==)> = Heap(blocks: map<Ptr, Block>, views: map<K, View>)

  ghost function Holders<K>(views: map<K, View>, p: Ptr): set<K> {
    set k | k in views && views[k].data == p
  }

  predicate InBounds(blocks: map<Ptr, Block>, v: View) {
    && v.offset <= v.size
    && if v.data == 0 then v.size == 0 else v.data in blocks && v.size <= |blocks[v.data].bytes|
  }

  ghost predicate Counted<K>(h: Heap<K>, p: Ptr)
    requires p in h.blocks
  {
    h.blocks[p].refs == |Holders(h.views, p)| > 0
  }

  /** A block lives as long as it has holders, and its count is their number. */
  ghost predicate Exact<K>(h: Heap<K>) {
    && 0 !in h.blocks
    && forall p :: p in h.blocks ==> Counted(h, p)
  }

  ghost predicate Bounded<K>(h: Heap<K>) {
    forall k :: k in h.views ==> InBounds(h.blocks, h.views[k])
  }

  ghost predicate WellFormed<K>(h: Heap<K>) {
    Exact(h) && Bounded(h)
  }

  function ViewText(blocks: map<Ptr, Block>, v: View): bytes
    requires InBounds(blocks, v)
  {
    if v.data == 0 then [] else blocks[v.data].bytes[v.offset..v.size]
  }

  ghost function Texts<K>(h: Heap<K>): (t: map<K, bytes>)
    requires Bounded(h)
    ensures t.Keys == h.views.Keys
  {
    map k | k in h.views :: ViewText(h.blocks, h.views[k])
  }

  /** No other view of k's block reaches past k's end, so the memory behind it is k's to write. */
  ghost predicate Owner<K>(h: Heap<K>, k: K) {
    && k in h.views
    && forall j :: j in h.views && j != k && h.views[j].data == h.views[k].data != 0
         ==> h.views[j].size <= h.views[k].size
  }

  /** k shares its block with nobody. */
  ghost predicate Sole<K>(h: Heap<K>, k: K) {
    && k in h.views
    && forall j :: j in h.views && j != k && h.views[k].data != 0 ==> h.views[j].data != h.views[k].data
  }

  // ---- blocks

  function Retain(blocks: map<Ptr, Block>, p: Ptr): map<Ptr, Block> {
    if p in blocks then blocks[p := blocks[p].(refs := blocks[p].refs + 1)] else blocks
  }

  function Release(blocks: map<Ptr, Block>, p: Ptr): map<Ptr, Block> {
    if p !in blocks then blocks
    else if blocks[p].refs <= 1 then blocks - {p}
    else blocks[p := blocks[p].(refs := blocks[p].refs - 1)]
  }

  function Capacity(blocks: map<Ptr, Block>, v: View): nat {
    if v.data in blocks then |blocks[v.data].bytes| else 0
  }

  // ---- steps every operation is made of

  function Detach<K>(h: Heap<K>, k: K): Heap<K>
    requires k in h.views
  {
    Heap(Release(h.blocks, h.views[k].data), h.views - {k})
  }

  function Attach<K>(h: Heap<K>, k: K, v: View): Heap<K> {
    Heap(Retain(h.blocks, v.data), h.views[k := v])
  }

  function Allocate<K>(h: Heap<K>, k: K, p: Ptr, bytes: bytes, size: nat): Heap<K> {
    Heap(h.blocks[p := Block(1, bytes)], h.views[k := View(p, size, 0)])
  }

  function Resize<K>(h: Heap<K>, k: K, v: View): Heap<K> {
    h.(views := h.views[k := v])
  }

  function Poke<K>(h: Heap<K>, p: Ptr, bytes: bytes): Heap<K>
    requires p in h.blocks
  {
    h.(blocks := h.blocks[p := h.blocks[p].(bytes := bytes)])
  }

  lemma HoldersOfUpdate<K>(views: map<K, View>, k: K, v: View, p: Ptr)
    ensures Holders(views[k := v], p) == (Holders(views, p) - {k}) + (if v.data == p then {k} else {})
    ensures Holders(views - {k}, p) == Holders(views, p) - {k}
  {
  }

  lemma DetachExact<K>(h: Heap<K>, k: K)
    requires WellFormed(h) && k in h.views
    ensures Exact(Detach(h, k))
  {
    var h' := Detach(h, k);
    forall p | p in h'.blocks ensures Counted(h', p) {
      assert Counted(h, p);
      HoldersOfUpdate(h.views, k, NOTHING, p);
      if p == h.views[k].data {
        assert h.blocks[p].refs >= 2 && k in Holders(h.views, p);
      } else {
        assert Holders(h'.views, p) == Holders(h.views, p);
      }
    }
  }

  lemma SubsetSize<K>(a: set<K>, b: set<K>)
    requires a <= b
    ensures |a| <= |b|
  {
    assert b == a + (b - a);
  }

  /** A block that somebody else holds survives a release. */
  lemma SharedSurvives<K>(h: Heap<K>, k: K, j: K)
    requires WellFormed(h) && k in h.views && j in h.views && j != k
    requires h.views[j].data == h.views[k].data != 0
    ensures h.blocks[h.views[k].data].refs >= 2
  {
    var p := h.views[k].data;
    assert Counted(h, p);
    SubsetSize({j, k}, Holders(h.views, p));
  }

  lemma CountOfOne<K>(h: Heap<K>, k: K)
    requires WellFormed(h) && k in h.views && h.views[k].data != 0
    ensures h.blocks[h.views[k].data].refs >= 1
    ensures h.blocks[h.views[k].data].refs == 1 <==> Sole(h, k)
  {
    var p := h.views[k].data;
    assert Counted(h, p) && k in Holders(h.views, p);
    if !Sole(h, k) {
      var j :| j in h.views && j != k && h.views[j].data == p;
      SharedSurvives(h, k, j);
    } else {
      assert Holders(h.views, p) == {k};
    }
  }

  lemma DetachTexts<K>(h: Heap<K>, k: K)
    requires WellFormed(h) && k in h.views
    ensures Bounded(Detach(h, k))
    ensures Texts(Detach(h, k)) == Texts(h) - {k}
  {
    var h' := Detach(h, k);
    forall j | j in h'.views
      ensures InBounds(h'.blocks, h'.views[j])
      ensures ViewText(h'.blocks, h'.views[j]) == ViewText(h.blocks, h.views[j])
    {
      if h.views[j].data == h.views[k].data != 0 {
        SharedSurvives(h, k, j);
      }
    }
  }

  lemma AttachExact<K>(h: Heap<K>, k: K, v: View)
    requires WellFormed(h) && k !in h.views && InBounds(h.blocks, v)
    ensures Exact(Attach(h, k, v))
  {
    var h' := Attach(h, k, v);
    forall p | p in h'.blocks ensures Counted(h', p) {
      assert Counted(h, p);
      HoldersOfUpdate(h.views, k, v, p);
    }
  }

  /** Taking a view copies no bytes and changes none. */
  lemma AttachTexts<K>(h: Heap<K>, k: K, v: View)
    requires WellFormed(h) && k !in h.views && InBounds(h.blocks, v)
    ensures Bounded(Attach(h, k, v))
    ensures Texts(Attach(h, k, v)) == Texts(h)[k := ViewText(h.blocks, v)]
  {
    hide Exact, Texts;
    var h' := Attach(h, k, v);
    forall j | j in h.views
      ensures InBounds(h'.blocks, h.views[j])
      ensures ViewText(h'.blocks, h.views[j]) == ViewText(h.blocks, h.views[j])
    {
    }
    AttachedTexts(h, k, v, h');
  }

  lemma AttachedTexts<K>(h: Heap<K>, k: K, v: View, h': Heap<K>)
    requires Bounded(h) && k !in h.views && InBounds(h.blocks, v) && h'.views == h.views[k := v]
    requires InBounds(h'.blocks, v) && ViewText(h'.blocks, v) == ViewText(h.blocks, v)
    requires forall j :: j in h.views ==>
      InBounds(h'.blocks, h.views[j]) && ViewText(h'.blocks, h.views[j]) == ViewText(h.blocks, h.views[j])
    ensures Bounded(h') && Texts(h') == Texts(h)[k := ViewText(h.blocks, v)]
  {
    hide ViewText, InBounds;
  }

  lemma AllocateExact<K>(h: Heap<K>, k: K, p: Ptr, bytes: bytes, size: nat)
    requires WellFormed(h) && k !in h.views && p != 0 && p !in h.blocks && size <= |bytes|
    ensures Exact(Allocate(h, k, p, bytes, size))
    ensures Sole(Allocate(h, k, p, bytes, size), k)
  {
    var v := View(p, size, 0);
    var h' := Allocate(h, k, p, bytes, size);
    forall j | j in h.views ensures h.views[j].data != p {
      assert InBounds(h.blocks, h.views[j]);
    }
    forall q | q in h'.blocks ensures Counted(h', q) {
      HoldersOfUpdate(h.views, k, v, q);
      if q == p {
        assert Holders(h.views, p) == {};
      } else {
        assert Counted(h, q);
      }
    }
  }

  lemma AllocateTexts<K>(h: Heap<K>, k: K, p: Ptr, bytes: bytes, size: nat)
    requires WellFormed(h) && k !in h.views && p != 0 && p !in h.blocks && size <= |bytes|
    ensures Bounded(Allocate(h, k, p, bytes, size))
    ensures Texts(Allocate(h, k, p, bytes, size)) == Texts(h)[k := bytes[..size]]
  {
    var h' := Allocate(h, k, p, bytes, size);
    forall j | j in h.views
      ensures InBounds(h'.blocks, h.views[j])
      ensures ViewText(h'.blocks, h.views[j]) == ViewText(h.blocks, h.views[j])
    {
      assert InBounds(h.blocks, h.views[j]);
    }
  }

  lemma ResizeExact<K>(h: Heap<K>, k: K, v: View)
    requires WellFormed(h) && k in h.views && v.data == h.views[k].data
    ensures Exact(Resize(h, k, v))
  {
    var h' := Resize(h, k, v);
    forall p | p in h.blocks ensures Counted(h', p) {
      assert Counted(h, p);
      HoldersOfUpdate(h.views, k, v, p);
      assert Holders(h'.views, p) == Holders(h.views, p);
    }
  }

  lemma ResizeTexts<K>(h: Heap<K>, k: K, v: View)
    requires Bounded(h) && k in h.views && InBounds(h.blocks, v)
    ensures Bounded(Resize(h, k, v))
    ensures Texts(Resize(h, k, v)) == Texts(h)[k := ViewText(h.blocks, v)]
  {
  }

  ghost predicate Untouched(blocks: map<Ptr, Block>, p: Ptr, bytes: bytes, v: View)
    requires InBounds(blocks, v) && p in blocks && |bytes| == |blocks[p].bytes|
  {
    v.data == p != 0 ==> bytes[v.offset..v.size] == ViewText(blocks, v)
  }

  lemma PokeExact<K>(h: Heap<K>, p: Ptr, bytes: bytes)
    requires Exact(h) && p in h.blocks
    ensures Exact(Poke(h, p, bytes))
  {
    var h' := Poke(h, p, bytes);
    forall q | q in h'.blocks ensures Counted(h', q) {
      assert Counted(h, q);
    }
  }

  /** Writing bytes that no view covers changes no text. */
  lemma PokeTexts<K>(h: Heap<K>, p: Ptr, bytes: bytes)
    requires WellFormed(h) && p in h.blocks && |bytes| == |h.blocks[p].bytes|
    requires forall j :: j in h.views ==> Untouched(h.blocks, p, bytes, h.views[j])
    ensures Bounded(Poke(h, p, bytes))
    ensures Texts(Poke(h, p, bytes)) == Texts(h)
  {
    var h' := Poke(h, p, bytes);
    forall j | j in h.views
      ensures InBounds(h'.blocks, h.views[j])
      ensures ViewText(h'.blocks, h.views[j]) == ViewText(h.blocks, h.views[j])
    {
      assert Untouched(h.blocks, p, bytes, h.views[j]);
    }
  }
}
