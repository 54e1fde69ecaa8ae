/** Runs of buffer operations: sharing is never observable, and the counts are exact throughout. */
module BufferRuns {
  import opened Base
  import opened Blocks
  import opened BufferOps

  datatype Step<K(==)> =
    | Create(k: K)
    | Copy(k: K, src: K)
    | Assign(k: K, src: K)
    | Destroy(k: K)
    | DoClear(k: K)
    | DoOffset(k: K, start: nat, length: int)
    | Reserve(k: K, n: nat, p: Ptr, junk: bytes)
    | ReadIn(k: K, data: bytes)
    | AppendBytes(k: K, data: bytes, p: Ptr, junk: bytes)
    | AppendBuffer(k: K, src: K, n: nat, p: Ptr, junk: bytes)

  function Append<K>(h: Heap<K>, k: K, data: bytes, p: Ptr, junk: bytes): Heap<K>
    requires WellFormed(h) && k in h.views && FreshBlock(h, p, |data|, junk)
  {
    GrowKeeps(h, k, |data|, p, junk);
    Fill(Grow(h, k, |data|, p, junk), k, data)
  }

  ghost predicate Legal<K>(h: Heap<K>, s: Step<K>)
    requires WellFormed(h)
  {
    match s
    case Create(k) => k !in h.views
    case Copy(k, src) => k !in h.views && src in h.views
    case Assign(k, src) => k in h.views && src in h.views && Outlives(h, k, src)
    case Destroy(k) => k in h.views
    case DoClear(k) => k in h.views
    case DoOffset(k, _, _) => k in h.views
    case Reserve(k, n, p, junk) => k in h.views && FreshBlock(h, p, n, junk)
    case ReadIn(k, data) => Owner(h, k) && h.views[k].size + |data| <= Capacity(h.blocks, h.views[k])
    case AppendBytes(k, data, p, junk) => Owner(h, k) && FreshBlock(h, p, |data|, junk)
    case AppendBuffer(k, src, n, p, junk) =>
      && k in h.views && src in h.views && (h.views[k].data == 0 ==> h.views[src].data != 0)
      && FreshBlock(h, p, |Taken(Texts(h)[src], n)|, junk)
      && (if h.views[k].data == h.views[src].data then h.views[src].offset == h.views[k].size
          else Owner(h, k))
  }

  ghost function Do<K>(h: Heap<K>, s: Step<K>): Heap<K>
    requires WellFormed(h) && Legal(h, s)
  {
    match s
    case Create(k) => Attach(h, k, NOTHING)
    case Copy(k, src) => Attach(h, k, h.views[src])
    case Assign(k, src) => Attach(Detach(h, k), k, h.views[src])
    case Destroy(k) => Detach(h, k)
    case DoClear(k) => Clear(h, k)
    case DoOffset(k, start, length) => Resize(h, k, OffsetView(h.views[k], start, length))
    case Reserve(k, n, p, junk) => Grow(h, k, n, p, junk)
    case ReadIn(k, data) => Fill(h, k, data)
    case AppendBytes(k, data, p, junk) => Append(h, k, data, p, junk)
    case AppendBuffer(k, src, n, p, junk) =>
      var v, w := h.views[k], h.views[src];
      var data := Taken(Texts(h)[src], n);
      if n > |Texts(h)[src]| then h
      else if v.data == 0 then Attach(Detach(h, k), k, View(w.data, w.offset + |data|, w.offset))
      else if v.data == w.data then Resize(h, k, v.(size := v.size + |data|))
      else Append(h, k, data, p, junk)
  }

  /** The same step on separate byte strings. */
  ghost predicate Known<K>(t: map<K, bytes>, s: Step<K>) {
    && (s.Create? || s.Copy? || s.k in t)
    && (s.Copy? || s.Assign? || s.AppendBuffer? ==> s.src in t)
  }

  function DoText<K>(t: map<K, bytes>, s: Step<K>): map<K, bytes>
    requires Known(t, s)
  {
    match s
    case Create(k) => t[k := []]
    case Copy(k, src) => t[k := t[src]]
    case Assign(k, src) => t[k := t[src]]
    case Destroy(k) => t - {k}
    case DoClear(k) => t[k := []]
    case DoOffset(k, start, length) => t[k := OffsetText(t[k], start, length)]
    case Reserve(_, _, _, _) => t
    case ReadIn(k, data) => t[k := t[k] + data]
    case AppendBytes(k, data, _, _) => t[k := t[k] + data]
    case AppendBuffer(k, src, n, _, _) => if n > |t[src]| then t else t[k := t[k] + Taken(t[src], n)]
  }

  lemma AssignKeeps<K>(h: Heap<K>, k: K, v: View)
    requires WellFormed(h) && k in h.views && InBounds(Detach(h, k).blocks, v)
    requires v.data != 0 ==> InBounds(h.blocks, v)
    ensures var h' := Attach(Detach(h, k), k, v);
      WellFormed(h') && Texts(h') == Texts(h)[k := ViewText(Detach(h, k).blocks, v)]
  {
    hide Exact, Bounded, Texts, Attach, Retain, Release;
    DetachExact(h, k);
    DetachTexts(h, k);
    AttachExact(Detach(h, k), k, v);
    AttachTexts(Detach(h, k), k, v);
    assert (Texts(h) - {k})[k := ViewText(Detach(h, k).blocks, v)] == Texts(h)[k := ViewText(Detach(h, k).blocks, v)];
  }

  lemma AppendKeeps<K>(h: Heap<K>, k: K, data: bytes, p: Ptr, junk: bytes)
    requires WellFormed(h) && Owner(h, k) && FreshBlock(h, p, |data|, junk)
    ensures var h' := Append(h, k, data, p, junk);
      && WellFormed(h') && Owner(h', k) && (Sole(h, k) ==> Sole(h', k))
      && Texts(h') == Texts(h)[k := Texts(h)[k] + data]
      && h'.views == h.views[k := h'.views[k]]
  {
    GrowKeeps(h, k, |data|, p, junk);
    FillKeeps(Grow(h, k, |data|, p, junk), k, data);
  }

  lemma ShareKeeps<K>(h: Heap<K>, k: K, src: K, n: nat)
    requires WellFormed(h) && k in h.views && src in h.views && h.views[src].data == h.views[k].data != 0
    requires h.views[src].offset == h.views[k].size && n <= |Texts(h)[src]|
    ensures var v := h.views[k]; var h' := Resize(h, k, v.(size := v.size + n));
      WellFormed(h') && Texts(h') == Texts(h)[k := Texts(h)[k] + Texts(h)[src][..n]]
  {
    hide Exact;
    var v, w := h.views[k], h.views[src];
    var bytes := h.blocks[v.data].bytes;
    ResizeExact(h, k, v.(size := v.size + n));
    ResizeTexts(h, k, v.(size := v.size + n));
    assert bytes[v.offset..v.size + n] == bytes[v.offset..v.size] + bytes[w.offset..w.size][..n];
  }

  /** A buffer of the same block is appended by moving the end over whatever is there: right iff these are its bytes. */
  lemma ShareIff<K>(h: Heap<K>, k: K, src: K, n: nat)
    requires WellFormed(h) && k in h.views && src in h.views && h.views[src].data == h.views[k].data != 0
    requires n <= |Texts(h)[src]| && h.views[k].size + n <= Capacity(h.blocks, h.views[k])
    ensures var v := h.views[k]; var h' := Resize(h, k, v.(size := v.size + n));
      && WellFormed(h') && v.data in h.blocks && v.size + n <= |h.blocks[v.data].bytes|
      && (Texts(h') == Texts(h)[k := Texts(h)[k] + Texts(h)[src][..n]]
          <==> h.blocks[v.data].bytes[v.size..v.size + n] == Texts(h)[src][..n])
  {
    hide Exact;
    var v := h.views[k];
    var bytes, t := h.blocks[v.data].bytes, Texts(h)[src][..n];
    var h' := Resize(h, k, v.(size := v.size + n));
    ResizeExact(h, k, v.(size := v.size + n));
    ResizeTexts(h, k, v.(size := v.size + n));
    assert Texts(h)[k] == bytes[v.offset..v.size];
    SameTail(bytes[v.offset..v.size], bytes[v.size..v.size + n], t);
    assert Texts(h')[k] == bytes[v.offset..v.size + n] == Texts(h)[k] + bytes[v.size..v.size + n];
  }

  lemma SameTail(a: bytes, b: bytes, c: bytes)
    ensures a + b == a + c <==> b == c
  {
    if a + b == a + c {
      assert b == (a + b)[|a|..] == (a + c)[|a|..] == c;
    }
  }

  lemma AdoptKeeps<K>(h: Heap<K>, k: K, src: K, n: nat)
    requires WellFormed(h) && k in h.views && src in h.views && h.views[k].data == 0 != h.views[src].data
    requires n <= |Texts(h)[src]|
    ensures var w := h.views[src]; var h' := Attach(Detach(h, k), k, View(w.data, w.offset + n, w.offset));
      WellFormed(h') && Texts(h') == Texts(h)[k := Texts(h)[src][..n]]
  {
    hide Exact;
    var w := h.views[src];
    OtherSurvives(h, k, src);
    AssignKeeps(h, k, View(w.data, w.offset + n, w.offset));
    var bytes := h.blocks[w.data].bytes;
    assert bytes[w.offset..w.size][..n] == bytes[w.offset..w.offset + n];
  }

  /** One step on shared blocks does to the texts what it does to separate strings. */
  lemma StepRefines<K>(h: Heap<K>, s: Step<K>)
    requires WellFormed(h) && Legal(h, s)
    ensures WellFormed(Do(h, s)) && Known(Texts(h), s)
    ensures Texts(Do(h, s)) == DoText(Texts(h), s)
  {
    match s
    case Create(k) =>
      AttachExact(h, k, NOTHING);
      AttachTexts(h, k, NOTHING);
    case Copy(k, src) =>
      AttachExact(h, k, h.views[src]);
      AttachTexts(h, k, h.views[src]);
    case Assign(k, src) =>
      OtherSurvives(h, k, src);
      AssignKeeps(h, k, h.views[src]);
    case Destroy(k) =>
      DetachExact(h, k);
      DetachTexts(h, k);
    case DoClear(k) => ClearKeeps(h, k);
    case DoOffset(k, start, length) => OffsetKeeps(h, k, start, length);
    case Reserve(k, n, p, junk) => GrowKeeps(h, k, n, p, junk);
    case ReadIn(k, data) => FillKeeps(h, k, data);
    case AppendBytes(k, data, p, junk) => AppendKeeps(h, k, data, p, junk);
    case AppendBuffer(k, src, n, p, junk) => AppendBufferRefines(h, s);
  }

  lemma NullHoldsNothing<K>(h: Heap<K>, k: K)
    requires WellFormed(h) && k in h.views && h.views[k].data == 0
    ensures Texts(h)[k] == []
  {
  }

  lemma AppendBufferRefines<K>(h: Heap<K>, s: Step<K>)
    requires WellFormed(h) && Legal(h, s) && s.AppendBuffer?
    ensures WellFormed(Do(h, s))
    ensures Texts(Do(h, s)) == DoText(Texts(h), s)
  {
    hide Exact, Bounded, Texts, Attach, Detach, Append, Owner;
    var AppendBuffer(k, src, n, p, junk) := s;
    var data := Taken(Texts(h)[src], n);
    if n <= |Texts(h)[src]| {
      assert data == Texts(h)[src][..|data|];
      if h.views[k].data == 0 {
        AdoptKeeps(h, k, src, |data|);
        NullHoldsNothing(h, k);
        assert [] + data == data;
      } else if h.views[k].data == h.views[src].data {
        ShareKeeps(h, k, src, |data|);
      } else {
        AppendKeeps(h, k, data, p, junk);
      }
    }
  }

  ghost predicate LegalRun<K>(h: Heap<K>, steps: seq<Step<K>>)
    requires WellFormed(h)
    decreases |steps|
  {
    steps != [] ==>
      && Legal(h, steps[0])
      && (StepRefines(h, steps[0]); LegalRun(Do(h, steps[0]), steps[1..]))
  }

  ghost function Run<K>(h: Heap<K>, steps: seq<Step<K>>): Heap<K>
    requires WellFormed(h) && LegalRun(h, steps)
    decreases |steps|
  {
    if steps == [] then h
    else StepRefines(h, steps[0]); Run(Do(h, steps[0]), steps[1..])
  }

  ghost predicate KnownRun<K>(t: map<K, bytes>, steps: seq<Step<K>>)
    decreases |steps|
  {
    steps != [] ==> Known(t, steps[0]) && KnownRun(DoText(t, steps[0]), steps[1..])
  }

  function RunText<K>(t: map<K, bytes>, steps: seq<Step<K>>): map<K, bytes>
    requires KnownRun(t, steps)
    decreases |steps|
  {
    if steps == [] then t else RunText(DoText(t, steps[0]), steps[1..])
  }

  /**
   * Over every run of buffer operations the counts stay exact (a block is freed when, and only when, its
   * last holder goes; no view points at a freed block) and the buffers read as if nothing were shared.
   */
  lemma {:induction false} RunRefines<K>(h: Heap<K>, steps: seq<Step<K>>)
    requires WellFormed(h) && LegalRun(h, steps)
    ensures WellFormed(Run(h, steps)) && KnownRun(Texts(h), steps)
    ensures Texts(Run(h, steps)) == RunText(Texts(h), steps)
    decreases |steps|
  {
    if steps != [] {
      StepRefines(h, steps[0]);
      RunRefines(Do(h, steps[0]), steps[1..]);
    }
  }

  lemma {:induction false} TextStays<K>(t: map<K, bytes>, steps: seq<Step<K>>, k: K)
    requires KnownRun(t, steps) && k in t
    requires forall i :: 0 <= i < |steps| ==> steps[i].k != k
    ensures k in RunText(t, steps) && RunText(t, steps)[k] == t[k]
    decreases |steps|
  {
    if steps != [] {
      assert steps[0].k != k;
      TextStays(DoText(t, steps[0]), steps[1..], k);
    }
  }

  /** A slice nobody operates on keeps its bytes, whatever is read, appended, compacted or freed around it. */
  lemma SliceStability<K>(h: Heap<K>, steps: seq<Step<K>>, k: K)
    requires WellFormed(h) && LegalRun(h, steps) && k in h.views
    requires forall i :: 0 <= i < |steps| ==> steps[i].k != k
    ensures WellFormed(Run(h, steps)) && k in Run(h, steps).views
    ensures Texts(Run(h, steps))[k] == Texts(h)[k]
  {
    RunRefines(h, steps);
    TextStays(Texts(h), steps, k);
  }

  // ---- `Append(buffer, n)`, as the method of Buffer uses it

  /** h' is h after the bytes `data`, the first of src, were appended to k. */
  ghost predicate AppendResult<K>(h: Heap<K>, k: K, src: K, data: bytes, h': Heap<K>)
    requires WellFormed(h) && k in h.views && src in h.views
  {
    var v, w := h.views[k], h.views[src];
    && WellFormed(h')
    && k in h'.views && h'.views == h.views[k := h'.views[k]]
    && Texts(h') == Texts(h)[k := Texts(h)[k] + data]
    && (Sole(h, k) ==> Calm(h, h', {k}))
    && (v.data == 0 ==> h'.views[k] == View(w.data, w.offset + |data|, w.offset))
    && (v.data != 0 && Sole(h, k) ==> Sole(h', k))
  }

  lemma AdoptResult<K>(h: Heap<K>, k: K, src: K, n: nat)
    requires WellFormed(h) && k in h.views && src in h.views && h.views[k].data == 0 != h.views[src].data
    requires n <= |Texts(h)[src]|
    ensures var w := h.views[src]; var v := View(w.data, w.offset + n, w.offset);
      && AppendResult(h, k, src, Texts(h)[src][..n], Heap(Retain(h.blocks, w.data), h.views[k := v]))
      && WellFormed(Heap(Retain(h.blocks, w.data), h.views[k := v])) && w.data in h.blocks
  {
    hide Exact, Bounded, Texts, Calm;
    var w := h.views[src];
    var v := View(w.data, w.offset + n, w.offset);
    HeldBlock(h, src);
    NullHoldsNothing(h, k);
    var data := Texts(h)[src][..n];
    assert [] + data == data;
    AdoptKeeps(h, k, src, n);
    ReplaceCalm(h, k, v);
    NoBlockToLeave(h, k, v);
  }

  lemma TextIs<K>(h: Heap<K>, k: K)
    requires WellFormed(h) && k in h.views
    ensures InBounds(h.blocks, h.views[k]) && Texts(h)[k] == ViewText(h.blocks, h.views[k])
  {
  }

  lemma NoBlockToLeave<K>(h: Heap<K>, k: K, v: View)
    requires WellFormed(h) && k in h.views && h.views[k].data == 0
    ensures Heap(Retain(h.blocks, v.data), h.views[k := v]) == Attach(Detach(h, k), k, v)
  {
    assert h.views[k := v] == (h.views - {k})[k := v];
  }

  lemma ShareResult<K>(h: Heap<K>, k: K, src: K, n: nat)
    requires WellFormed(h) && k in h.views && src in h.views && src != k
    requires h.views[src].data == h.views[k].data != 0 && h.views[src].offset == h.views[k].size
    requires n <= |Texts(h)[src]|
    ensures var v := h.views[k];
      && AppendResult(h, k, src, Texts(h)[src][..n], Heap(h.blocks, h.views[k := v.(size := v.size + n)]))
      && WellFormed(Heap(h.blocks, h.views[k := v.(size := v.size + n)]))
  {
    assert !Sole(h, k);
    hide Exact, Bounded, Texts, Calm, Sole;
    ShareKeeps(h, k, src, n);
  }

  lemma CopyResult<K>(h: Heap<K>, k: K, src: K, data: bytes, h': Heap<K>)
    requires WellFormed(h) && k in h.views && src in h.views && FillResult(h, k, data, h')
    requires h.views[k].data != 0
    ensures AppendResult(h, k, src, data, h')
  {
  }
}
