/** The calls of `OnClientRead` as steps of the protocol: what holds for every run holds for every session. */
module SessionRuns {
  import opened Base
  import opened Decimal
  import opened Resp
  import opened Scanner
  import opened RequestMachine
  import opened UpstreamMachine
  import opened SessionMachine
  import opened Protocol

  /** Pushes of one session, one after the other. */
  function Pushes(id: nat, cs: seq<Argv>): (steps: seq<Step>)
    ensures |steps| == |cs|
  {
    if cs == [] then [] else [Push(id, cs[0])] + Pushes(id, cs[1..])
  }

  function PushAll(l: Link, id: nat, cs: seq<Argv>): Link
    decreases |cs|
  {
    if cs == [] then l else PushAll(PoolPush(l, cs[0], SessionReader(id)).link, id, cs[1..])
  }

  /** A rejected push changes nothing. */
  lemma Rejected(l: Link, argv: Argv, reader: Reader)
    ensures PoolPush(l, argv, reader).err != OK ==> PoolPush(l, argv, reader) == PushOut(l, TryAgain)
  {
  }

  // ---- what is parsed out of a buffer fits into int32 when the buffer does

  predicate AllUpTo(argv: Argv, n: nat) {
    forall i :: 0 <= i < |argv| ==> |argv[i]| <= n
  }

  /** Every argument takes a byte of input, except perhaps one whose header was read before. */
  lemma {:induction false} LoopFits(m: Multibulk, argv: Argv, inp: bytes, slack: bytes, n: nat)
    requires AllUpTo(argv, n) && |inp| <= n
    ensures var r := RequestLoop(m, argv, inp, slack);
      AllUpTo(r.argv, n) && |r.argv| + |r.rest| <= |argv| + |inp| + if m.bulk == 0 then 0 else 1
    decreases m.len - m.index
  {
    if m.index < m.len {
      if m.bulk == 0 {
        var h := ReadInt(inp, slack);
        if h.Found? {
          ArgFits(m.(bulk := h.value), argv, h.rest, slack, n);
        }
      } else {
        ArgFits(m, argv, inp, slack, n);
      }
    }
  }

  lemma {:induction false} ArgFits(m: Multibulk, argv: Argv, inp: bytes, slack: bytes, n: nat)
    requires m.index < m.len && AllUpTo(argv, n) && |inp| <= n
    ensures var r := ReadBulk(m, argv, inp, slack);
      AllUpTo(r.argv, n) && |r.argv| + |r.rest| <= |argv| + |inp| + 1
    decreases m.len - m.index, 0
  {
    var k := ReadLength(m.bulk);
    if inp != [] && k <= |inp| {
      LoopFits(Multibulk(m.len, m.index + 1, 0), argv + [Trim(Taken(inp, k), 2)], inp[k..], slack, n);
    }
  }

  lemma {:induction false} InlineFits(argv: Argv, inp: bytes, n: nat)
    requires AllUpTo(argv, n) && |inp| <= n
    ensures var r := InlineRequest(argv, inp); AllUpTo(r.argv, n) && |r.argv| + |r.rest| <= |argv| + |inp|
    decreases |inp|
  {
    var k := FirstSplit(inp);
    if k < |inp| && inp[k] == SPACE {
      InlineFits(argv + [Taken(inp, k)], inp[k + 1..], n);
    }
  }

  lemma RequestFits(st: ParserState, argv: Argv, inp: bytes, slack: bytes, n: nat)
    requires AllUpTo(argv, n) && |inp| <= n
    ensures var r := ParseRequest(st, argv, inp, slack);
      AllUpTo(r.argv, n) && |r.argv| + |r.rest| <= |argv| + |inp| + 1
  {
    InlineFits(argv, inp, n);
    if st.mb.len == 0 {
      var h := ReadInt(inp, slack);
      if h.Found? {
        LoopFits(st.mb.(len := h.value), argv, h.rest, slack, n);
      }
    } else {
      LoopFits(st.mb, argv, inp, slack, n);
    }
  }

  /** The request in hand and the input are small enough for their lengths to be printed and read back. */
  predicate Fits(c: Client) {
    |c.current| + |c.input| < INT32_MAX - 2 && AllUpTo(c.current, INT32_MAX - 2)
  }

  ghost predicate AllSent(cs: seq<Argv>) {
    forall i :: 0 <= i < |cs| ==> Sendable(cs[i])
  }

  lemma FitsOn(c: Client, slack: bytes)
    requires Fits(c)
    ensures var r := ParseRequest(c.st, c.current, c.input, slack);
      Sendable(r.argv) && Fits(c.(st := FRESH, current := [], input := r.rest))
  {
    RequestFits(c.st, c.current, c.input, slack, INT32_MAX - 2);
    RequestShrinks(c.st, c.current, c.input, slack);
  }

  lemma {:induction false} LoopIsPushes(c: Client, l: Link, slack: bytes) returns (cs: seq<Argv>)
    ensures ReadLoop(c, l, slack).link == PushAll(l, c.id, cs)
    ensures Fits(c) ==> AllSent(cs)
    decreases |c.input|, if c.st == FRESH then 0 else 1
  {
    cs := [];
    if c.input != [] {
      var r := ParseRequest(c.st, c.current, c.input, slack);
      RequestShrinks(c.st, c.current, c.input, slack);
      Rejected(l, r.argv, SessionReader(c.id));
      if Fits(c) {
        FitsOn(c, slack);
      }
      hide ParseRequest, PoolPush, Fits, Sendable;
      if r.err == OK {
        cs := [r.argv];
        assert cs[1..] == [];
        var p := PoolPush(l, r.argv, SessionReader(c.id));
        if p.err != TryAgain {
          var rest := LoopIsPushes(c.(st := FRESH, current := [], input := r.rest), p.link, slack);
          cs := [r.argv] + rest;
          assert cs[1..] == rest;
        }
      }
    }
  }

  lemma ClientReadIsPushes(c: Client, l: Link, slack: bytes) returns (cs: seq<Argv>)
    ensures ClientRead(c, l, slack).link == PushAll(l, c.id, cs)
    ensures Fits(c) ==> AllSent(cs)
  {
    if c.current == [] {
      cs := LoopIsPushes(c, l, slack);
    } else {
      Rejected(l, c.current, SessionReader(c.id));
      var p := PoolPush(l, c.current, SessionReader(c.id));
      cs := [c.current];
      assert cs[1..] == [];
      if p.err != TryAgain {
        var rest := LoopIsPushes(c.(current := []), p.link, slack);
        cs := [c.current] + rest;
        assert cs[1..] == rest;
      }
    }
  }

  lemma {:induction false} RunPushes(w: World, id: nat, cs: seq<Argv>)
    requires AllSent(cs)
    ensures LegalRun(w, Pushes(id, cs))
    ensures Run(w, Pushes(id, cs)) == w.(link := PushAll(w.link, id, cs))
    decreases |cs|
  {
    if cs != [] {
      var steps := Pushes(id, cs);
      assert steps[1..] == Pushes(id, cs[1..]);
      RunPushes(After(w, steps[0]), id, cs[1..]);
    }
  }

  /**
   * Whatever a client sends, and whatever state its session is in, one call of OnClientRead does to the
   * upstream what a run of pushes of that session does, as long as its buffers hold less than 2 GiB.
   */
  lemma ClientReadIsARun(w: World, c: Client, slack: bytes) returns (cs: seq<Argv>)
    ensures ClientRead(c, w.link, slack).link == PushAll(w.link, c.id, cs)
    ensures Fits(c) ==> LegalRun(w, Pushes(c.id, cs))
    ensures Fits(c) ==> Run(w, Pushes(c.id, cs)) == w.(link := ClientRead(c, w.link, slack).link)
  {
    cs := ClientReadIsPushes(c, w.link, slack);
    if Fits(c) {
      RunPushes(w, c.id, cs);
    }
  }
}
