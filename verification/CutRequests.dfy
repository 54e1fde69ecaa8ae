/** A request that arrives in two pieces: when is it forwarded as what it is? */
module CutRequests {
  import opened Base
  import opened Resp
  import opened RequestMachine
  import opened Requests
  import opened InlineRequests
  import opened UpstreamMachine
  import opened SessionMachine
  import opened SessionBatches
  import opened EmptyFirst

  /** After both pieces exactly this request was accepted, and nothing is left of it in the session. */
  ghost predicate Forwarded(c: Client, l: Link, argv: Argv, p: bytes, q: bytes, s1: bytes, s2: bytes) {
    var r1 := FirstCall(c, l, p, s1);
    var r2 := SecondCall(r1, q, s2);
    && r1.err == OK && r2.err == OK
    && r2.client == c.(input := []) && r2.link == Accepting(l, SessionReader(c.id), [argv])
  }

  // ---- requests in an array

  /** Behind a fresh parser any byte that is left over shows. */
  lemma LeftoverShows(e: Client, l: Link, slack: bytes)
    requires e.st == FRESH && e.current == [] && e.input != []
    ensures ReadLoop(e, l, slack) != ClientOut(e.(input := []), l, OK)
  {
    var r := ParseRequest(FRESH, [], e.input, slack);
    var p := PoolPush(l, r.argv, SessionReader(e.id));
    assert r.st.kind != NoType;
    NoRoom(l, r.argv, SessionReader(e.id));
    RequestShrinks(FRESH, [], e.input, slack);
    if r.err == OK && p.err == OK {
      LoopAccepts(e.(input := r.rest), p.link, slack);
    }
    hide ParseRequest;
  }

  /** One call on a whole request, or on something else. */
  lemma CallIsWholeIff(d: Client, l: Link, argv: Argv, slack: bytes)
    requires d.current == [] && d.input != [] && Room(l) > 0
    ensures var o := ParseRequest(d.st, [], d.input, slack); var reader := SessionReader(d.id);
      ClientRead(d, l, slack) == ClientOut(d.(st := FRESH, input := []), Accepting(l, reader, [argv]), OK)
      <==> o.err == OK && o.argv == argv && o.rest == []
  {
    var o, reader := ParseRequest(d.st, [], d.input, slack), SessionReader(d.id);
    var one := Accepting(l, reader, [argv]);
    assert one.accepted == l.accepted + [Request(reader, argv)];
    AcceptFirst(l, reader, [argv]);
    assert [argv][1..] == [];
    AcceptNone(PoolPush(l, argv, reader).link, reader);
    NoRoom(l, o.argv, reader);
    var next := PoolPush(l, o.argv, reader).link;
    var e := d.(st := FRESH, input := o.rest);
    if o.err == OK {
      LoopAccepts(e, next, slack);
      assert next.accepted == l.accepted + [Request(reader, o.argv)];
      RequestShrinks(d.st, [], d.input, slack);
      hide ParseRequest, PoolPush, Accepting;
      assert ClientRead(d, l, slack) == ReadLoop(e, next, slack);
      if o.argv != argv {
        assert next.accepted[|l.accepted|] != one.accepted[|l.accepted|];
      } else if o.rest != [] {
        LeftoverShows(e, next, slack);
      }
    } else {
      hide ParseRequest, PoolPush, Accepting;
      assert |one.accepted| != |l.accepted|;
    }
  }

  lemma CutInEmptyIff(c: Client, l: Link, argv: Argv, p: bytes, q: bytes, s1: bytes, s2: bytes)
    requires c.st == FRESH && c.current == [] && Room(l) > 0
    requires Sendable(argv) && p != [] && q != [] && p + q == Encode(argv) && CutInEmptyFirst(argv, |p|)
    ensures Forwarded(c, l, argv, p, q, s1, s2) <==> SpellsLength(argv, s2)
  {
    CutInEmptyParse(argv, p, q, s1);
    CutInEmptyParsedIff(argv, p, q, s1, s2);
    var r := ParseRequest(FRESH, [], p, s1);
    hide ParseRequest, SpellsLength, Encode, EncodeArgs, CutInEmptyFirst, Accepting;
    var r1 := FirstCall(c, l, p, s1);
    assert r1 == ClientOut(c.(st := r.st, current := [], input := r.rest), l, OK);
    CallIsWholeIff(r1.client.(input := r.rest + q), l, argv, s2);
  }

  /**
   * A request that arrives in two pieces is forwarded intact iff the cut is before the end of its first argument,
   * and not right in front of it. After a later cut the next call sends the arguments it has as a request of
   * their own, or the client has been given up. A cut inside an empty first argument is survived only when the
   * next argument spells its own length.
   */
  lemma CutInTwoIff(c: Client, l: Link, argv: Argv, p: bytes, q: bytes, s1: bytes, s2: bytes)
    requires c.st == FRESH && c.current == [] && Room(l) > 0
    requires Sendable(argv) && p != [] && q != [] && p + q == Encode(argv)
    ensures Forwarded(c, l, argv, p, q, s1, s2)
       <==> if CutInEmptyFirst(argv, |p|) then SpellsLength(argv, s2) else CutInFirst(argv, |p|)
  {
    if CutInEmptyFirst(argv, |p|) {
      CutInEmptyIff(c, l, argv, p, q, s1, s2);
    } else {
      CutElsewhereIff(c, l, argv, p, q, s1, s2);
    }
  }

  lemma CutElsewhereIff(c: Client, l: Link, argv: Argv, p: bytes, q: bytes, s1: bytes, s2: bytes)
    requires c.st == FRESH && c.current == [] && Room(l) > 0
    requires Sendable(argv) && p != [] && q != [] && p + q == Encode(argv) && !CutInEmptyFirst(argv, |p|)
    ensures Forwarded(c, l, argv, p, q, s1, s2) <==> CutInFirst(argv, |p|)
  {
    CutsOfFirst(argv, |p|);
    var reader := SessionReader(c.id);
    if CutInFirst(argv, |p|) {
      ForwardedIntact(c, l, argv, p, q, s1, s2);
    } else if CutBeforeHeader(argv, |p|) {
      PartOfRequest(argv, p, s1);
    } else {
      ForwardedInParts(c, l, argv, p, q, s1, s2);
      var r2 := SecondCall(FirstCall(c, l, p, s1), q, s2);
      assert r2.link.accepted[|l.accepted|].argv == argv[..Before(argv, |p|)] != argv;
      assert Accepting(l, reader, [argv]).accepted[|l.accepted|] == Request(reader, argv);
    }
  }

  // ---- inline requests

  /** A call on part of the last word, or of the first one. */
  lemma PartOfOneWord(argv: Argv, w: bytes, tail: bytes, p: bytes)
    requires Word(w) && p < w + tail && (|p| <= |w| || (SPACE !in tail && (LF !in tail[..|p| - |w|])))
    ensures SPACE !in p
    ensures InlineRequest(argv, p) == InlineOut(argv, p, if p == [] then OutOfBound else TryAgain)
  {
    var s := w + tail;
    assert forall i :: 0 <= i < |p| ==> p[i] == s[i];
    forall i | 0 <= i < |p| ensures p[i] != SPACE && p[i] != LF {
      if i >= |w| {
        assert s[i] == tail[i - |w|] == tail[..|p| - |w|][i - |w|];
      }
    }
  }

  /** A call on part of a line took the first j words, and waits or gives the client up. */
  predicate TookWords(argv: Argv, ws: Argv, p: bytes, r: InlineOut, j: nat) {
    && j < |ws| && (j == 0 <==> SPACE !in p)
    && r.argv == argv + ws[..j] && (j == 0 ==> r.rest == p)
    && r.err == if p == [] || p[|p| - 1] == SPACE then OutOfBound else TryAgain
  }

  lemma NoWordTaken(argv: Argv, ws: Argv, tail: bytes, p: bytes)
    requires ws != [] && Word(ws[0]) && p < ws[0] + tail
    requires |p| <= |ws[0]| || (SPACE !in tail && (LF !in tail[..|p| - |ws[0]|]))
    ensures TookWords(argv, ws, p, InlineRequest(argv, p), 0)
  {
    PartOfOneWord(argv, ws[0], tail, p);
    assert argv + ws[..0] == argv;
  }

  lemma SpaceInside(w: bytes, q: bytes)
    ensures var p := w + ([SPACE] + q);
      SPACE in p && p != [] && (p[|p| - 1] == SPACE <==> q == [] || q[|q| - 1] == SPACE)
  {
    var p := w + ([SPACE] + q);
    assert p[|w|] == SPACE;
    if q != [] {
      assert p[|p| - 1] == q[|q| - 1];
    }
  }

  lemma TookOneMore(argv: Argv, ws: Argv, p: bytes, q: bytes, r: InlineOut, j: nat)
    requires ws != [] && TookWords(argv + [ws[0]], ws[1..], q, r, j)
    requires SPACE in p && p != [] && (p[|p| - 1] == SPACE <==> q == [] || q[|q| - 1] == SPACE)
    ensures TookWords(argv, ws, p, r, j + 1)
  {
    TakeFirst(argv, ws, j + 1);
  }

  lemma OneWordMore(argv: Argv, ws: Argv, p: bytes, q: bytes, j: nat)
    requires ws != [] && Word(ws[0]) && p == ws[0] + ([SPACE] + q)
    requires TookWords(argv + [ws[0]], ws[1..], q, InlineRequest(argv + [ws[0]], q), j)
    ensures TookWords(argv, ws, p, InlineRequest(argv, p), j + 1)
  {
    hide *;
    FirstWord(argv, ws[0], q);
    SpaceInside(ws[0], q);
    TookOneMore(argv, ws, p, q, InlineRequest(argv, p), j);
  }

  lemma {:induction false} PartOfWords(argv: Argv, ws: Argv, ending: bytes, p: bytes) returns (j: nat)
    requires ws != [] && (forall i :: 0 <= i < |ws| ==> Word(ws[i])) && Ending(ending)
    requires p < Typed(ws, ending)
    ensures TookWords(argv, ws, p, InlineRequest(argv, p), j)
    decreases |ws|
  {
    hide *;
    TypedIs(ws, ending);
    var w := ws[0];
    j := 0;
    if |ws| == 1 {
      NotPastEnding(w, ending, p);
      NoWordTaken(argv, ws, ending, p);
    } else {
      var tail := Typed(ws[1..], ending);
      if |p| <= |w| {
        NoWordTaken(argv, ws, [SPACE] + tail, p);
      } else {
        var q := p[|w| + 1..];
        CutBehindSpace(w, tail, p);
        var i := PartOfWords(argv + [w], ws[1..], ending, q);
        OneWordMore(argv, ws, p, q, i);
        j := i + 1;
      }
    }
  }

  lemma TypedIs(ws: Argv, ending: bytes)
    requires ws != []
    ensures Typed(ws, ending) == ws[0] + if |ws| == 1 then ending else [SPACE] + Typed(ws[1..], ending)
  {
  }

  lemma NotPastEnding(w: bytes, ending: bytes, p: bytes)
    requires Ending(ending) && p < w + ending
    ensures SPACE !in ending && (|p| > |w| ==> LF !in ending[..|p| - |w|])
  {
  }

  lemma CutBehindSpace(w: bytes, tail: bytes, p: bytes)
    requires p < w + ([SPACE] + tail) && |p| > |w|
    ensures var q := p[|w| + 1..]; p == w + ([SPACE] + q) && q < tail
  {
    Regroup(w, [SPACE], tail);
    SplitPrefix(w + [SPACE], tail, p);
    Regroup(w, [SPACE], p[|w| + 1..]);
  }

  lemma PartOfLineParsed(ws: Argv, ending: bytes, p: bytes, slack: bytes) returns (j: nat)
    requires WordList(ws) && Ending(ending) && [] < p < Typed(ws, ending)
    ensures j < |ws| && (j == 0 <==> SPACE !in p)
    ensures var r := ParseRequest(FRESH, [], p, slack);
      && r.st == InlineDone && r.argv == ws[..j] && (j == 0 ==> r.rest == p)
      && r.err == if p[|p| - 1] == SPACE then OutOfBound else TryAgain
  {
    assert p[0] == Typed(ws, ending)[0] == ws[0][0];
    hide InlineRequest;
    j := PartOfWords([], ws, ending, p);
    assert [] + ws[..j] == ws[..j];
  }

  /** The line is complete when the second piece has come. */
  lemma WholeLine(ws: Argv, ending: bytes, slack: bytes)
    requires WordList(ws) && Ending(ending)
    ensures var t := Typed(ws, ending);
      && t != []
      && ParseRequest(InlineDone, [], t, slack) == RequestOut(InlineDone, ws, [], OK, false)
  {
    var t := Typed(ws, ending);
    assert t[0] == ws[0][0] && t + [] == t;
    InlineReadIff(ws, ending, [], slack);
    hide InlineRequest;
  }

  /** The first words were accepted as a request. */
  ghost predicate SentInParts(before: seq<Request>, reader: Reader, ws: Argv, accepted: seq<Request>) {
    exists j :: 0 < j < |ws| && before + [Request(reader, ws[..j])] <= accepted
  }

  /**
   * An inline request that arrives in two pieces is forwarded intact iff there is no space in the first piece.
   * When that piece ends in a space the client is given up; otherwise the words that have a space behind them
   * are sent as a request of their own.
   */
  lemma InlineCutInTwoIff(c: Client, l: Link, ws: Argv, ending: bytes, p: bytes, q: bytes, s1: bytes, s2: bytes)
    requires c.st == FRESH && c.current == [] && Room(l) > 0
    requires WordList(ws) && Ending(ending) && p != [] && q != [] && p + q == Typed(ws, ending)
    ensures Forwarded(c, l, ws, p, q, s1, s2) <==> SPACE !in p
    ensures p[|p| - 1] == SPACE ==>
      var r1 := FirstCall(c, l, p, s1); r1.err == OutOfBound && r1.client.closing && r1.link == l
    ensures SPACE in p && p[|p| - 1] != SPACE ==>
      SentInParts(l.accepted, SessionReader(c.id), ws, SecondCall(FirstCall(c, l, p, s1), q, s2).link.accepted)
  {
    assert p < p + q;
    var j := PartOfLineParsed(ws, ending, p, s1);
    var r, reader := ParseRequest(FRESH, [], p, s1), SessionReader(c.id);
    WholeLine(ws, ending, s2);
    assert ws[..0] == [];
    hide ParseRequest, Typed;
    var r1 := FirstCall(c, l, p, s1);
    if SPACE !in p {
      assert r1 == ClientOut(c.(st := InlineDone, current := [], input := p), l, OK);
      CallIsWholeIff(r1.client.(input := p + q), l, ws, s2);
    } else if p[|p| - 1] != SPACE {
      assert r1 == ClientOut(c.(st := InlineDone, current := ws[..j], input := r.rest), l, OK);
      WordsSent(r1.client, l, ws, j, q, s2);
    }
  }

  lemma WordsSent(c: Client, l: Link, ws: Argv, j: nat, q: bytes, slack: bytes)
    requires 0 < j < |ws| && c.current == ws[..j] && Room(l) > 0
    ensures var reader := SessionReader(c.id); var o := ClientRead(c.(input := c.input + q), l, slack);
      && SentInParts(l.accepted, reader, ws, o.link.accepted)
      && o.link != Accepting(l, reader, [ws])
  {
    var reader := SessionReader(c.id);
    var d := c.(input := c.input + q);
    NoRoom(l, ws[..j], reader);
    LoopAccepts(d.(current := []), PoolPush(l, ws[..j], reader).link, slack);
    var o := ClientRead(d, l, slack);
    assert l.accepted + [Request(reader, ws[..j])] <= o.link.accepted;
    assert o.link.accepted[|l.accepted|].argv == ws[..j] != ws;
    assert Accepting(l, reader, [ws]).accepted[|l.accepted|] == Request(reader, ws);
  }
}
