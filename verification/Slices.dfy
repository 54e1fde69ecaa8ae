/** Handing out slices of a buffer: what the reader's copy, skip, append and destroy come to. */
module Slices {
  import opened Base
  import opened Blocks
  import opened BufferOps
  import opened BufferRuns

  /** h' is h plus a temporary buffer that views src's bytes from `at` on. */
  ghost predicate Peeked<K>(h: Heap<K>, tmp: K, src: K, at: nat, h': Heap<K>)
    requires WellFormed(h) && src in h.views
  {
    var v := h.views[src];
    && WellFormed(h') && Calm(h, h', {tmp}) && tmp !in h.views
    && h'.views == h.views[tmp := View(v.data, v.size, v.offset + at)]
    && at <= |Texts(h)[src]| && Texts(h')[tmp] == Texts(h)[src][at..]
  }

  /** The copy of src after `Offset(at)`. */
  function PeekHeap<K>(h: Heap<K>, tmp: K, src: K, at: nat): Heap<K>
    requires src in h.views
  {
    Resize(Attach(h, tmp, h.views[src]), tmp, OffsetView(h.views[src], at, 0))
  }

  lemma PeekCalm<K>(h: Heap<K>, tmp: K, src: K, at: nat)
    requires WellFormed(h) && src in h.views && tmp !in h.views
    ensures WellFormed(PeekHeap(h, tmp, src, at)) && Calm(h, PeekHeap(h, tmp, src, at), {tmp})
  {
    var v := h.views[src];
    var g := Attach(h, tmp, v);
    TextIs(h, src);
    AttachOk(h, tmp, v);
    OffsetOk(g, tmp, at, 0);
    CalmTransitive(h, g, PeekHeap(h, tmp, src, at), {tmp}, {tmp}, {tmp});
  }

  lemma Peek<K>(h: Heap<K>, tmp: K, src: K, at: nat)
    requires WellFormed(h) && src in h.views && tmp !in h.views && at <= |Texts(h)[src]|
    ensures Peeked(h, tmp, src, at, PeekHeap(h, tmp, src, at))
  {
    PeekCalm(h, tmp, src, at);
    PeekedText(h, tmp, src, at);
  }

  lemma PeekedText<K>(h: Heap<K>, tmp: K, src: K, at: nat)
    requires WellFormed(h) && src in h.views && tmp !in h.views && at <= |Texts(h)[src]|
    requires WellFormed(PeekHeap(h, tmp, src, at))
    ensures var v := h.views[src]; var h' := PeekHeap(h, tmp, src, at);
      && h'.views == h.views[tmp := View(v.data, v.size, v.offset + at)]
      && Texts(h')[tmp] == Texts(h)[src][at..]
  {
    var v := h.views[src];
    TextIs(h, src);
    assert OffsetView(v, at, 0) == View(v.data, v.size, v.offset + at);
    if v.data != 0 {
      SliceOfSlice(h.blocks[v.data].bytes, v.offset, v.size, at, v.size - v.offset);
    }
  }

  /** buf may take bytes of src: it is another buffer and shares its block with nobody. */
  ghost predicate Target<K>(h: Heap<K>, buf: K, src: K) {
    WellFormed(h) && buf in h.views && src in h.views && buf != src && Sole(h, buf)
  }

  /** g is h with a temporary copy tmp of the unread bytes of src, of which there are some. */
  ghost predicate Holding<K>(h: Heap<K>, buf: K, src: K, at: nat, tmp: K, g: Heap<K>) {
    && Target(h, buf, src) && Peeked(h, tmp, src, at, g)
    && Texts(g)[tmp] != []
  }

  /** buf holds `data` more: a view of the bytes of src from `at` on, or a copy in a block of its own. */
  ghost predicate Took<K>(h: Heap<K>, buf: K, src: K, at: nat, data: bytes, h': Heap<K>) {
    && Target(h, buf, src)
    && var v, w := h.views[buf], h.views[src];
    && WellFormed(h') && Calm(h, h', {buf})
    && buf in h'.views && h'.views == h.views[buf := h'.views[buf]]
    && Texts(h')[buf] == Texts(h)[buf] + data
    && (v.data == 0 ==> h'.views[buf] == View(w.data, w.offset + at + |data|, w.offset + at))
    && (v.data != 0 ==> Sole(h', buf))
  }

  /** As `Took`, while the temporary copy is still alive. */
  ghost predicate Taking<K>(h: Heap<K>, buf: K, src: K, at: nat, data: bytes, tmp: K, g: Heap<K>) {
    tmp in g.views && Took(h, buf, src, at, data, Detach(g, tmp))
  }

  lemma TakeCalm<K>(h: Heap<K>, buf: K, tmp: K, g: Heap<K>, g': Heap<K>)
    requires WellFormed(g') && tmp in g'.views && tmp !in h.views
    requires Calm(h, g, {tmp}) && Calm(g, g', {buf})
    ensures WellFormed(Detach(g', tmp)) && Calm(h, Detach(g', tmp), {buf})
  {
    DetachOk(g', tmp);
    CalmTransitive(h, g, g', {tmp}, {buf}, {tmp, buf});
    CalmTransitive(h, g', Detach(g', tmp), {tmp, buf}, {tmp}, {tmp, buf});
    forall j | j in h.views && j != buf ensures SameView(h, Detach(g', tmp), j) {
      assert j !in {tmp, buf};
    }
  }

  lemma TakeSlice<K>(h: Heap<K>, buf: K, src: K, at: nat, tmp: K, g: Heap<K>, data: bytes, g': Heap<K>)
    requires Holding(h, buf, src, at, tmp, g) && buf in g.views && AppendResult(g, buf, tmp, data, g')
    ensures Taking(h, buf, src, at, data, tmp, g')
  {
    hide Exact, Bounded, Calm, Texts;
    SoleStays(h, buf, tmp, src, at, g);
    TakeCalm(h, buf, tmp, g, g');
    TookText(h, buf, tmp, g, data, g');
    TookViews(h.views, buf, tmp, g.views[tmp], g'.views[buf]);
    if h.views[buf].data != 0 {
      SoleAfterDetach(g', buf, tmp);
    }
  }

  lemma TookViews<K>(views: map<K, View>, buf: K, tmp: K, a: View, b: View)
    requires buf in views && tmp !in views
    ensures views[tmp := a][buf := b] - {tmp} == views[buf := b]
  {
  }

  lemma SoleStays<K>(h: Heap<K>, buf: K, tmp: K, src: K, at: nat, g: Heap<K>)
    requires WellFormed(h) && buf in h.views && src in h.views && buf != src && Sole(h, buf)
    requires Peeked(h, tmp, src, at, g)
    ensures Sole(g, buf) && g.views[buf] == h.views[buf]
  {
  }

  lemma SoleAfterDetach<K>(h: Heap<K>, buf: K, tmp: K)
    requires Sole(h, buf) && tmp in h.views && tmp != buf
    ensures Sole(Detach(h, tmp), buf)
  {
  }

  lemma TookText<K>(h: Heap<K>, buf: K, tmp: K, g: Heap<K>, data: bytes, g': Heap<K>)
    requires WellFormed(h) && WellFormed(g) && buf in h.views && tmp !in h.views
    requires tmp in g.views && Calm(h, g, {tmp}) && buf in g.views
    requires WellFormed(g') && g'.views.Keys == g.views.Keys && Texts(g') == Texts(g)[buf := Texts(g)[buf] + data]
    ensures WellFormed(Detach(g', tmp))
    ensures Texts(Detach(g', tmp))[buf] == Texts(h)[buf] + data
  {
    hide Exact, Calm;
    CalmText(h, g, {tmp}, buf);
    DetachExact(g', tmp);
    DetachTexts(g', tmp);
  }

  /** A temporary that was not used leaves nothing behind. */
  lemma Unpeek<K>(h: Heap<K>, tmp: K, src: K, at: nat, g: Heap<K>)
    requires WellFormed(h) && src in h.views && Peeked(h, tmp, src, at, g)
    ensures var h' := Detach(g, tmp);
      WellFormed(h') && h'.views == h.views && Calm(h, h', {})
  {
    hide Exact, Bounded, Calm, Texts;
    DetachOk(g, tmp);
    CalmTransitive(h, g, Detach(g, tmp), {tmp}, {tmp}, {tmp});
    assert h.views[tmp := g.views[tmp]] - {tmp} == h.views;
    CalmButNew(h, Detach(g, tmp), tmp);
  }

  lemma CalmButNew<K>(h: Heap<K>, h': Heap<K>, tmp: K)
    requires Calm(h, h', {tmp}) && tmp !in h.views
    ensures Calm(h, h', {})
  {
  }

  /** A target of its own block, or of none, is apart from the slice that it takes. */
  lemma ReadyToTake<K>(h: Heap<K>, buf: K, src: K, at: nat, tmp: K, g: Heap<K>)
    requires Holding(h, buf, src, at, tmp, g)
    ensures buf in g.views && tmp in g.views && buf != tmp && Owner(g, buf)
    ensures g.views[tmp].data != 0 && g.views[buf].data != g.views[tmp].data
    ensures InBounds(g.blocks, g.views[tmp]) && Texts(g)[tmp] == ViewText(g.blocks, g.views[tmp])
  {
    SoleStays(h, buf, tmp, src, at, g);
    TextIs(g, tmp);
    if g.views[tmp].data == 0 {
      NullHoldsNothing(g, tmp);
    }
  }

  /** h' differs from h in counts only. */
  ghost predicate Same<K>(h: Heap<K>, h': Heap<K>) {
    WellFormed(h') && h'.views == h.views && Calm(h, h', {})
  }

  /** k has the same bytes in the same place, and the same memory behind them. */
  ghost predicate SameBuffer<K>(h: Heap<K>, h': Heap<K>, k: K) {
    && WellFormed(h) && WellFormed(h') && k in h.views && k in h'.views
    && h'.views[k] == h.views[k] && Texts(h')[k] == Texts(h)[k] && Behind(h', k) == Behind(h, k)
  }

  lemma CalmBuffer<K>(h: Heap<K>, h': Heap<K>, but: set<K>, k: K)
    requires WellFormed(h) && WellFormed(h') && Calm(h, h', but) && k in h.views && k !in but
    ensures SameBuffer(h, h', k)
  {
    assert SameView(h, h', k);
  }

  /** The source of a slice is as it was. */
  lemma SourceStays<K>(h: Heap<K>, buf: K, src: K, at: nat, data: bytes, h': Heap<K>)
    requires Took(h, buf, src, at, data, h')
    ensures SameBuffer(h, h', src)
  {
    CalmBuffer(h, h', {buf}, src);
  }

  lemma SameStays<K>(h: Heap<K>, h': Heap<K>, k: K)
    requires WellFormed(h) && Same(h, h') && k in h.views
    ensures SameBuffer(h, h', k)
  {
    CalmBuffer(h, h', {}, k);
  }

  /** A slice that an empty buffer took is followed in memory by the rest of its source. */
  lemma BehindSlice<K>(h: Heap<K>, buf: K, src: K, at: nat, data: bytes, h': Heap<K>)
    requires Took(h, buf, src, at, data, h') && h.views[buf].data == 0
    requires at + |data| <= |Texts(h)[src]|
    ensures SameBuffer(h, h', src) && InBounds(h'.blocks, h'.views[buf])
    ensures h.views[src].data != 0 ==> Behind(h', buf) == Texts(h)[src][at + |data|..] + Behind(h, src)
  {
    SourceStays(h, buf, src, at, data, h');
    TextIs(h, src);
    var w := h.views[src];
    if w.data != 0 {
      var bytes := h'.blocks[w.data].bytes;
      SliceOfSlice(bytes, w.offset, w.size, at + |data|, w.size - w.offset);
      assert bytes[w.offset + at + |data|..] == bytes[w.offset + at + |data|..w.size] + bytes[w.size..];
    }
  }

  // ---- buffers that live for one call

  /** From h to h' nothing happened except to the buffers in `but`, some of which may have come or gone. */
  ghost predicate After<K>(h: Heap<K>, h': Heap<K>, but: set<K>) {
    && WellFormed(h) && WellFormed(h') && Calm(h, h', but)
    && h'.views.Keys <= h.views.Keys + but && h.views.Keys <= h'.views.Keys + but
  }

  lemma AfterBoth<K>(h: Heap<K>, h': Heap<K>, h'': Heap<K>, a: set<K>, b: set<K>)
    requires After(h, h', a) && After(h', h'', b)
    ensures After(h, h'', a + b)
  {
    CalmTransitive(h, h', h'', a, b, a + b);
  }

  lemma AfterAgain<K>(h: Heap<K>, h': Heap<K>, h'': Heap<K>, a: set<K>)
    requires After(h, h', a) && After(h', h'', a)
    ensures After(h, h'', a)
  {
    AfterBoth(h, h', h'', a, a);
    assert a + a == a;
  }

  lemma AfterKeeps<K>(h: Heap<K>, h': Heap<K>, but: set<K>, k: K)
    requires After(h, h', but) && k in h.views && k !in but
    ensures SameBuffer(h, h', k)
  {
    CalmBuffer(h, h', but, k);
  }

  /** A new empty buffer may take slices. */
  lemma NewTarget<K>(h: Heap<K>, buf: K, src: K)
    requires WellFormed(h) && buf !in h.views && src in h.views
    ensures var h' := Attach(h, buf, NOTHING);
      && Target(h', buf, src) && Texts(h')[buf] == []
      && After(h, h', {buf}) && SameBuffer(h, h', src)
  {
    var h' := Attach(h, buf, NOTHING);
    AttachOk(h, buf, NOTHING);
    CalmBuffer(h, h', {buf}, src);
  }

  /** A buffer of this call only goes; nobody else notices. */
  lemma ScratchGoes<K>(h: Heap<K>, h': Heap<K>, buf: K, but: set<K>)
    requires After(h, h', but + {buf}) && buf !in h.views && buf in h'.views
    ensures After(h, Detach(h', buf), but)
  {
    var h'' := Detach(h', buf);
    DetachOk(h', buf);
    CalmTransitive(h, h', h'', but + {buf}, {buf}, but + {buf});
    forall j | j in h.views && j !in but ensures SameView(h, h'', j) {
      assert j !in but + {buf};
    }
  }

  predicate Within(v: View, w: View) {
    v.data == w.data ==> v.size <= w.size
  }

  /** src stays the owner of the memory behind it when what changed are slices of it, or lives in other blocks. */
  lemma OwnerStays<K>(h: Heap<K>, h': Heap<K>, but: set<K>, src: K)
    requires Owner(h, src) && After(h, h', but) && src !in but
    requires forall j :: j in but && j in h'.views ==> Within(h'.views[j], h.views[src])
    ensures Owner(h', src)
  {
    assert SameView(h, h', src);
    forall j | j in h'.views && j != src && j !in but ensures h'.views[j] == h.views[j] {
      assert SameView(h, h', j);
    }
  }

  // ---- reading lines and arguments

  /** A cursor at `at` in src has `rest` before it and `slack` behind that. */
  ghost predicate SeesIn<K>(h: Heap<K>, src: K, at: nat, rest: bytes, slack: bytes) {
    && WellFormed(h) && src in h.views && InBounds(h.blocks, h.views[src])
    && at <= |Texts(h)[src]| && Texts(h)[src][at..] == rest && Behind(h, src) == slack
  }

  /** buf holds a header line, and `beyond` follows it in memory. */
  ghost predicate HasLine<K>(h: Heap<K>, buf: K, line: bytes, beyond: bytes) {
    && WellFormed(h) && buf in h.views && InBounds(h.blocks, h.views[buf])
    && Texts(h)[buf] == line && Behind(h, buf) == beyond
  }

  lemma SeesOn<K>(h: Heap<K>, h': Heap<K>, src: K, at: nat, n: nat, rest: bytes, slack: bytes)
    requires SeesIn(h, src, at, rest, slack) && SameBuffer(h, h', src) && n <= |rest|
    ensures SeesIn(h', src, at + n, rest[n..], slack)
  {
    TextIs(h', src);
  }

  lemma SeesAfter<K>(h: Heap<K>, h': Heap<K>, but: set<K>, src: K, at: nat, rest: bytes, slack: bytes)
    requires SeesIn(h, src, at, rest, slack) && After(h, h', but) && src !in but
    ensures SeesIn(h', src, at, rest, slack) && SameBuffer(h, h', src)
  {
    AfterKeeps(h, h', but, src);
    SeesOn(h, h', src, at, 0, rest, slack);
    assert rest[0..] == rest;
  }

  lemma LineTaken<K>(h: Heap<K>, buf: K, src: K, at: nat, n: nat, rest: bytes, slack: bytes, h': Heap<K>)
    requires SeesIn(h, src, at, rest, slack) && 0 < n <= |rest|
    requires buf in h.views && h.views[buf].data == 0 && Texts(h)[buf] == []
    requires Took(h, buf, src, at, Taken(rest, n), h')
    ensures After(h, h', {buf}) && SeesIn(h', src, at + n, rest[n..], slack)
    ensures HasLine(h', buf, rest[..n], rest[n..] + slack)
  {
    var data := Taken(rest, n);
    SourceStays(h, buf, src, at, data, h');
    SeesOn(h, h', src, at, n, rest, slack);
    BehindSlice(h, buf, src, at, data, h');
    TextIs(h, src);
    if h.views[src].data == 0 { NullHoldsNothing(h, src); }
    assert [] + data == data;
    assert Texts(h)[src][at + n..] == rest[n..];
  }

  lemma NothingTaken<K>(h: Heap<K>, src: K, at: nat, rest: bytes, slack: bytes, h': Heap<K>)
    requires SeesIn(h, src, at, rest, slack) && Same(h, h')
    ensures After(h, h', {}) && SeesIn(h', src, at, rest, slack)
  {
    SameStays(h, h', src);
    TextIs(h', src);
  }

  /** buf holds data in the block of the view w, and reaches no further than w. */
  ghost predicate IsSlice<K>(h: Heap<K>, buf: K, w: View, data: bytes) {
    && WellFormed(h) && buf in h.views && Texts(h)[buf] == data
    && h.views[buf].data == w.data && h.views[buf].size <= w.size
  }

  lemma SliceTaken<K>(h: Heap<K>, buf: K, src: K, at: nat, n: nat, rest: bytes, slack: bytes, h': Heap<K>)
    requires SeesIn(h, src, at, rest, slack) && n <= |rest|
    requires buf in h.views && h.views[buf].data == 0 && Texts(h)[buf] == []
    requires Took(h, buf, src, at, Taken(rest, n), h')
    ensures After(h, h', {buf}) && SeesIn(h', src, at + n, rest[n..], slack)
    ensures IsSlice(h', buf, h.views[src], Taken(rest, n))
  {
    var data := Taken(rest, n);
    SourceStays(h, buf, src, at, data, h');
    SeesOn(h, h', src, at, n, rest, slack);
    TextIs(h, src);
    assert [] + data == data;
  }

  /** `buf.Offset(0, -drop)`. */
  function Trimmed<K>(h: Heap<K>, buf: K, drop: nat): Heap<K>
    requires buf in h.views
  {
    Resize(h, buf, OffsetView(h.views[buf], 0, 0 - drop))
  }

  lemma TrimAfter<K>(h: Heap<K>, buf: K, drop: nat)
    requires WellFormed(h) && buf in h.views
    ensures var h' := Trimmed(h, buf, drop);
      && After(h, h', {buf}) && InBounds(h.blocks, h.views[buf]) && InBounds(h'.blocks, h'.views[buf])
      && ViewText(h'.blocks, h'.views[buf]) == OffsetText(ViewText(h.blocks, h.views[buf]), 0, 0 - drop)
      && h'.views[buf].data == h.views[buf].data && h'.views[buf].size <= h.views[buf].size
  {
    OffsetOk(h, buf, 0, 0 - drop);
  }

  lemma SliceTrimmed<K>(h: Heap<K>, buf: K, w: View, data: bytes, drop: nat)
    requires IsSlice(h, buf, w, data)
    ensures After(h, Trimmed(h, buf, drop), {buf}) && IsSlice(Trimmed(h, buf, drop), buf, w, Trim(data, drop))
  {
    TrimAfter(h, buf, drop);
    TextIs(h, buf);
    TextIs(Trimmed(h, buf, drop), buf);
  }

  lemma SliceCopied<K>(h: Heap<K>, buf: K, w: View, data: bytes, copy: K)
    requires IsSlice(h, buf, w, data) && copy !in h.views
    ensures var h' := Attach(h, copy, h.views[buf]);
      After(h, h', {copy}) && IsSlice(h', copy, w, data) && IsSlice(h', buf, w, data)
  {
    var h' := Attach(h, copy, h.views[buf]);
    TextIs(h, buf);
    AttachOk(h, copy, h.views[buf]);
    AttachTexts(h, copy, h.views[buf]);
  }

  lemma SliceAfter<K>(h: Heap<K>, h': Heap<K>, but: set<K>, buf: K, w: View, data: bytes)
    requires IsSlice(h, buf, w, data) && After(h, h', but) && buf !in but
    ensures IsSlice(h', buf, w, data)
  {
    AfterKeeps(h, h', but, buf);
  }

  /** The buffers of argv hold args. */
  ghost predicate ArgsIn<K>(h: Heap<K>, argv: seq<K>, args: seq<bytes>) {
    && WellFormed(h) && |argv| == |args|
    && (forall i :: 0 <= i < |argv| ==> argv[i] in h.views && Texts(h)[argv[i]] == args[i])
    && (forall i, j :: 0 <= i < j < |argv| ==> argv[i] != argv[j])
  }

  lemma ArgsAfter<K>(h: Heap<K>, h': Heap<K>, but: set<K>, argv: seq<K>, args: seq<bytes>)
    requires ArgsIn(h, argv, args) && After(h, h', but)
    requires forall i :: 0 <= i < |argv| ==> argv[i] !in but
    ensures ArgsIn(h', argv, args)
  {
    forall i | 0 <= i < |argv| ensures argv[i] in h'.views && Texts(h')[argv[i]] == args[i] {
      AfterKeeps(h, h', but, argv[i]);
    }
  }

  lemma ArgsMore<K>(h: Heap<K>, argv: seq<K>, args: seq<bytes>, buf: K, w: View, data: bytes)
    requires ArgsIn(h, argv, args) && IsSlice(h, buf, w, data)
    requires forall i :: 0 <= i < |argv| ==> argv[i] != buf
    ensures ArgsIn(h, argv + [buf], args + [data])
  {
  }

  lemma ArgsFewer<K>(h: Heap<K>, argv: seq<K>, args: seq<bytes>)
    requires ArgsIn(h, argv, args) && argv != []
    ensures var last := argv[|argv| - 1];
      && |args| == |argv| && last in h.views && After(h, Detach(h, last), {last})
      && ArgsIn(Detach(h, last), argv[..|argv| - 1], args[..|args| - 1])
  {
    var last, init := argv[|argv| - 1], argv[..|argv| - 1];
    DetachOk(h, last);
    assert ArgsIn(h, init, args[..|args| - 1]);
    ArgsAfter(h, Detach(h, last), {last}, init, args[..|args| - 1]);
  }

  lemma AfterFewer<K>(h: Heap<K>, h': Heap<K>, h'': Heap<K>, all: seq<K>, last: K)
    requires After(h, h', set a | a in all) && After(h', h'', {last}) && last in all
    ensures After(h, h'', set a | a in all)
  {
    AfterBoth(h, h', h'', set a | a in all, {last});
    assert (set a | a in all) + {last} == set a | a in all;
  }

  lemma AfterNothing<K>(h: Heap<K>, but: set<K>)
    requires WellFormed(h)
    ensures After(h, h, but)
  {
  }

  /**
   * From h to g the parser took arguments out of src: argv0 grew to argv by new slices, src kept its place.
   * The buffers in tmp live only for this call.
   */
  ghost predicate Parsed<K>(h: Heap<K>, argv0: seq<K>, g: Heap<K>, argv: seq<K>, src: K, tmp: set<K>) {
    && argv0 <= argv
    && (forall i :: |argv0| <= i < |argv| ==> argv[i] !in h.views)
    && src in h.views && After(h, g, (set a | a in argv[|argv0|..]) + tmp)
    && Owner(g, src) && g.views[src] == h.views[src]
    && (forall i :: 0 <= i < |argv| ==> argv[i] != src && argv[i] !in tmp)
    && tmp !! h.views.Keys
  }

  lemma ParsedNothing<K>(h: Heap<K>, argv: seq<K>, src: K)
    requires WellFormed(h) && Owner(h, src) && forall i :: 0 <= i < |argv| ==> argv[i] != src
    ensures Parsed(h, argv, h, argv, src, {})
  {
    AfterNothing(h, set a | a in argv[|argv|..]);
  }

  /** A step that touched at most temporaries. */
  lemma ParsedStep<K>(h: Heap<K>, argv0: seq<K>, g: Heap<K>, argv: seq<K>, src: K, tmp: set<K>, g': Heap<K>)
    requires Parsed(h, argv0, g, argv, src, tmp) && After(g, g', tmp)
    requires forall j :: j in tmp && j in g'.views ==> Within(g'.views[j], g.views[src])
    ensures Parsed(h, argv0, g', argv, src, tmp)
  {
    var added := set a | a in argv[|argv0|..];
    AfterBoth(h, g, g', added + tmp, tmp);
    assert added + tmp + tmp == added + tmp;
    OwnerStays(g, g', tmp, src);
    AfterKeeps(g, g', tmp, src);
  }

  /** One more argument. */
  lemma ParsedMore<K>(h: Heap<K>, argv0: seq<K>, g: Heap<K>, argv: seq<K>, src: K, tmp: set<K>, g': Heap<K>, copy: K)
    requires Parsed(h, argv0, g, argv, src, tmp) && After(g, g', {copy}) && copy !in g.views && copy in g'.views
    requires Within(g'.views[copy], g.views[src]) && copy !in tmp
    ensures Parsed(h, argv0, g', argv + [copy], src, tmp)
  {
    hide WellFormed, Calm, Texts, Behind;
    var added := set a | a in argv[|argv0|..];
    AddedMore(argv, |argv0|, copy, tmp);
    AfterBoth(h, g, g', added + tmp, {copy});
    OwnerStays(g, g', {copy}, src);
    AfterKeeps(g, g', {copy}, src);
  }

  lemma AddedMore<K>(argv: seq<K>, n: nat, copy: K, tmp: set<K>)
    requires n <= |argv|
    ensures (set a | a in argv[n..]) + tmp + {copy} == (set a | a in (argv + [copy])[n..]) + tmp
  {
    assert (argv + [copy])[n..] == argv[n..] + [copy];
  }

  /** A temporary appears. */
  lemma ParsedOpen<K>(h: Heap<K>, argv: seq<K>, src: K, buf: K, g: Heap<K>)
    requires Parsed(h, argv, h, argv, src, {}) && After(h, g, {buf}) && buf !in h.views
    requires buf in g.views ==> Within(g.views[buf], h.views[src])
    requires forall i :: 0 <= i < |argv| ==> argv[i] in h.views
    ensures Parsed(h, argv, g, argv, src, {buf})
  {
    assert (set a | a in argv[|argv|..]) + {buf} == {buf};
    OwnerStays(h, g, {buf}, src);
    AfterKeeps(h, g, {buf}, src);
  }

  /** The temporary goes. */
  lemma ParsedClose<K>(h: Heap<K>, argv0: seq<K>, g: Heap<K>, argv: seq<K>, src: K, buf: K)
    requires Parsed(h, argv0, g, argv, src, {buf}) && buf in g.views
    ensures Parsed(h, argv0, Detach(g, buf), argv, src, {})
  {
    var added := set a | a in argv[|argv0|..];
    ScratchGoes(h, g, buf, added);
    assert added + {} == added;
    DetachOk(g, buf);
    assert After(g, Detach(g, buf), {buf});
    OwnerStays(g, Detach(g, buf), {buf}, src);
    AfterKeeps(g, Detach(g, buf), {buf}, src);
  }

  /** Clearing a slice gives the input's block up, so that the buffer may take another slice. */
  lemma SliceCleared<K>(h: Heap<K>, buf: K, w: View, data: bytes, src: K)
    requires IsSlice(h, buf, w, data) && src in h.views && h.views[src] == w && src != buf && w.data != 0
    ensures var h' := BufferOps.Clear(h, buf);
      && After(h, h', {buf}) && Target(h', buf, src)
      && h'.views[buf].data == 0 && Texts(h')[buf] == []
  {
    CountOfOne(h, buf);
    ClearKeeps(h, buf);
    ClearOk(h, buf);
  }

  /** A copied slice joins the arguments. */
  lemma ArgCopied<K>(h: Heap<K>, argv: seq<K>, args: seq<bytes>, arg: K, w: View, data: bytes, copy: K)
    requires ArgsIn(h, argv, args) && IsSlice(h, arg, w, data) && copy !in h.views
    ensures var h' := Attach(h, copy, h.views[arg]);
      After(h, h', {copy}) && IsSlice(h', copy, w, data) && ArgsIn(h', argv + [copy], args + [data])
  {
    var h' := Attach(h, copy, h.views[arg]);
    SliceCopied(h, arg, w, data, copy);
    ArgsAfter(h, h', {copy}, argv, args);
    ArgsMore(h', argv, args, copy, w, data);
  }

  /** The whole text of src, wherever the cursor is. */
  ghost predicate Whole<K>(h: Heap<K>, src: K, text: bytes) {
    WellFormed(h) && src in h.views && Texts(h)[src] == text
  }

  lemma WholeAfter<K>(h: Heap<K>, h': Heap<K>, but: set<K>, src: K, text: bytes)
    requires Whole(h, src, text) && After(h, h', but) && src !in but
    ensures Whole(h', src, text)
  {
    AfterKeeps(h, h', but, src);
  }

  /** A slice of src with a view of src's own block does not reach past src. */
  lemma SliceWithin<K>(h: Heap<K>, buf: K, w: View, data: bytes)
    requires IsSlice(h, buf, w, data)
    ensures buf in h.views && Within(h.views[buf], w)
  {
  }

  // ---- collecting a response

  /** buf holds `text`, in a block of its own if any. */
  ghost predicate Collects<K>(h: Heap<K>, buf: K, src: K, text: bytes) {
    Target(h, buf, src) && Texts(h)[buf] == text
  }

  lemma CollectsAfter<K>(h: Heap<K>, h': Heap<K>, but: set<K>, buf: K, src: K, text: bytes)
    requires Collects(h, buf, src, text) && After(h, h', but) && buf !in but && src !in but
    requires forall j :: j in but && j in h'.views && h'.views[j].data != 0 ==> h'.views[j].data != h.views[buf].data
    ensures Collects(h', buf, src, text) && h'.views[buf] == h.views[buf]
  {
    AfterKeeps(h, h', but, buf);
    AfterKeeps(h, h', but, src);
    forall j | j in h'.views && j != buf && h'.views[buf].data != 0 ensures h'.views[j].data != h'.views[buf].data {
      if j !in but {
        assert SameView(h, h', j);
      }
    }
  }

  /** Copying a line to the end of the response. */
  lemma Collected<K>(h: Heap<K>, buf: K, src: K, text: bytes, line: bytes, h': Heap<K>)
    requires Collects(h, buf, src, text) && FillResult(h, buf, line, h')
    ensures After(h, h', {buf}) && Collects(h', buf, src, text + line)
    ensures line != [] ==> h'.views[buf].data != 0
    ensures h.views[src].data != 0 ==> h'.views[buf].data != h.views[src].data
  {
    if h'.views[buf].data == 0 {
      NullHoldsNothing(h', buf);
    }
    assert src in h'.views && h'.views[src] == h.views[src];
  }

  /** A response in a block of its own takes a slice by copying it. */
  lemma CollectedSlice<K>(h: Heap<K>, buf: K, src: K, at: nat, n: nat, rest: bytes, slack: bytes, text: bytes,
                          h': Heap<K>)
    requires SeesIn(h, src, at, rest, slack) && n <= |rest|
    requires Collects(h, buf, src, text) && h.views[buf].data != 0
    requires Took(h, buf, src, at, Taken(rest, n), h')
    ensures After(h, h', {buf}) && SeesIn(h', src, at + n, rest[n..], slack)
    ensures Collects(h', buf, src, text + Taken(rest, n))
  {
    SourceStays(h, buf, src, at, Taken(rest, n), h');
    SeesOn(h, h', src, at, n, rest, slack);
  }

  /** tmp has no block, or src's. */
  ghost predicate Borrowed<K>(h: Heap<K>, tmp: K, src: K) {
    tmp in h.views && src in h.views && (h.views[tmp].data == 0 || h.views[tmp].data == h.views[src].data)
  }

  /** A slice of the input that comes does not disturb the response. */
  lemma CollectsBeside<K>(h: Heap<K>, h': Heap<K>, tmp: K, buf: K, src: K, text: bytes)
    requires Collects(h, buf, src, text) && After(h, h', {tmp}) && Borrowed(h', tmp, src) && tmp != buf && tmp != src
    ensures Collects(h', buf, src, text) && h'.views[buf] == h.views[buf]
  {
    AfterKeeps(h, h', {tmp}, src);
    CollectsAfter(h, h', {tmp}, buf, src, text);
  }

  lemma CollectsWithout<K>(h: Heap<K>, tmp: K, buf: K, src: K, text: bytes)
    requires Collects(h, buf, src, text) && tmp in h.views && tmp != buf && tmp != src
    ensures Collects(Detach(h, tmp), buf, src, text) && Detach(h, tmp).views[buf] == h.views[buf]
  {
    DetachOk(h, tmp);
    CollectsAfter(h, Detach(h, tmp), {tmp}, buf, src, text);
  }

  lemma LineBorrowed<K>(h: Heap<K>, buf: K, src: K, at: nat, data: bytes, h': Heap<K>)
    requires Took(h, buf, src, at, data, h') && h.views[buf].data == 0
    ensures Borrowed(h', buf, src)
  {
    SourceStays(h, buf, src, at, data, h');
  }

  lemma LineAfter<K>(h: Heap<K>, h': Heap<K>, but: set<K>, buf: K, line: bytes, beyond: bytes)
    requires HasLine(h, buf, line, beyond) && After(h, h', but) && buf !in but
    ensures HasLine(h', buf, line, beyond)
  {
    AfterKeeps(h, h', but, buf);
    TextIs(h', buf);
  }

  lemma BorrowedNothing<K>(h: Heap<K>, h': Heap<K>, buf: K, src: K)
    requires Same(h, h') && buf in h.views && src in h.views && h.views[buf].data == 0
    ensures Borrowed(h', buf, src)
  {
  }

  /** What copying a line to the response does, all at once. */
  lemma LineCopied<K>(h: Heap<K>, g: Heap<K>, pbuf: K, buf: K, src: K, at: nat, line: bytes, rest: bytes, slack: bytes,
                      resp: bytes, g': Heap<K>)
    requires Collects(g, pbuf, src, resp) && FillResult(g, pbuf, line, g') && buf != pbuf && line != []
    requires SeesIn(g, src, at, rest, slack) && HasLine(g, buf, line, rest + slack) && After(h, g, {buf})
    ensures Collects(g', pbuf, src, resp + line) && g'.views[pbuf].data != 0
    ensures SeesIn(g', src, at, rest, slack) && HasLine(g', buf, line, rest + slack)
    ensures After(h, g', {pbuf} + {buf})
  {
    Collected(g, pbuf, src, resp, line, g');
    SeesAfter(g, g', {pbuf}, src, at, rest, slack);
    LineAfter(g, g', {pbuf}, buf, line, rest + slack);
    AfterBoth(h, g, g', {buf}, {pbuf});
    assert {buf} + {pbuf} == {pbuf} + {buf};
  }

  /** `inputb_.Offset(offset)`: the bytes in front of the cursor go. */
  lemma InputConsumed<K>(h: Heap<K>, src: K, at: nat, rest: bytes, slack: bytes)
    requires SeesIn(h, src, at, rest, slack)
    ensures var h' := Resize(h, src, OffsetView(h.views[src], at, 0));
      && After(h, h', {src}) && SeesIn(h', src, 0, rest, slack)
      && (Owner(h, src) ==> Owner(h', src))
  {
    var v := h.views[src];
    var h' := Resize(h, src, OffsetView(v, at, 0));
    OffsetOk(h, src, at, 0);
    TextIs(h, src);
    TextIs(h', src);
    assert h'.views[src].size == v.size;
    assert Texts(h')[src][0..] == Texts(h')[src];
  }

  /** buf holds a whole response; it may be a slice of src's block. */
  ghost predicate Responds<K>(h: Heap<K>, buf: K, src: K, text: bytes) {
    && WellFormed(h) && buf in h.views && src in h.views && buf != src
    && Texts(h)[buf] == text && Within(h.views[buf], h.views[src])
  }

  lemma CollectsResponds<K>(h: Heap<K>, buf: K, src: K, text: bytes)
    requires Collects(h, buf, src, text)
    ensures Responds(h, buf, src, text)
  {
    if h.views[buf].data == 0 {
      HeldBlock(h, buf);
    }
  }

  lemma LineResponds<K>(h: Heap<K>, buf: K, src: K, at: nat, n: nat, rest: bytes, slack: bytes, text: bytes,
                        h': Heap<K>)
    requires SeesIn(h, src, at, rest, slack) && n <= |rest| && Collects(h, buf, src, text)
    requires Took(h, buf, src, at, Taken(rest, n), h')
    ensures After(h, h', {buf}) && SeesIn(h', src, at + n, rest[n..], slack)
    ensures Responds(h', buf, src, text + Taken(rest, n))
  {
    SourceStays(h, buf, src, at, Taken(rest, n), h');
    SeesOn(h, h', src, at, n, rest, slack);
    TextIs(h, src);
  }

  lemma RespondsAfter<K>(h: Heap<K>, h': Heap<K>, buf: K, src: K, text: bytes)
    requires Responds(h, buf, src, text) && After(h, h', {src}) && src in h'.views
    requires h'.views[src].data == h.views[src].data && h'.views[src].size == h.views[src].size
    ensures Responds(h', buf, src, text)
  {
    AfterKeeps(h, h', {src}, buf);
  }
}
