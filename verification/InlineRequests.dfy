/** Inline commands: one line of words separated by single spaces. */
module InlineRequests {
  import opened Base
  import opened Decimal
  import opened Resp
  import opened RequestMachine
  import opened Resumption
  import opened Requests
  import opened RequestStream

  /** A word, or nothing between two spaces. */
  predicate Piece(w: bytes) {
    SPACE !in w && LF !in w && CR !in w
  }

  predicate Word(w: bytes) {
    w != [] && Piece(w)
  }

  predicate WordList(ws: Argv) {
    && ws != []
    && (forall i :: 0 <= i < |ws| ==> Word(ws[i]))
    && ws[0][0] != STAR
  }

  predicate Ending(e: bytes) { e == CRLF || e == [LF] }

  /** The line; its last word is followed by the ending. */
  function Typed(ws: Argv, ending: bytes): bytes
    requires ws != []
  {
    if |ws| == 1 then ws[0] + ending else ws[0] + ([SPACE] + Typed(ws[1..], ending))
  }

  lemma SplitAtSpace(w: bytes, x: bytes)
    requires Piece(w)
    ensures FirstSplit(w + ([SPACE] + x)) == |w|
  {
    IndexIs(w + ([SPACE] + x), SPACE, |w|);
  }

  lemma SplitAtEnding(w: bytes, ending: bytes, y: bytes)
    requires Piece(w) && Ending(ending)
    ensures SPACE !in y ==> FirstSplit(w + ending + y) == |w + ending| - 1
    ensures SPACE in y ==> FirstSplit(w + ending + y) >= |w + ending|
  {
    var s := w + ending + y;
    if SPACE in y {
      assert SPACE in s;
    } else {
      IndexIs(s, LF, |w + ending| - 1);
    }
  }

  lemma LastWord(argv: Argv, w: bytes, ending: bytes, y: bytes)
    requires Piece(w) && Ending(ending) && SPACE !in y && (w != [] || ending == CRLF)
    ensures InlineRequest(argv, w + ending + y) == InlineOut(argv + [w], y, OK)
  {
    var s := w + ending + y;
    var k := FirstSplit(s);
    SplitAtEnding(w, ending, y);
    assert s[k + 1..] == y;
    if ending == CRLF {
      assert s[..k] == w + [CR] && Trim(w + [CR], 1) == w;
    } else {
      assert s[..k] == w && s[k - 1] == w[|w| - 1];
    }
  }

  lemma Overrun(argv: Argv, s: bytes, w: bytes)
    requires 0 < FirstSplit(s) < |s| && s[FirstSplit(s)] == SPACE && s[..FirstSplit(s)] != w
    ensures InlineRequest(argv, s).argv != argv + [w]
  {
    var k := FirstSplit(s);
    Grows(argv + [s[..k]], s[k + 1..]);
    assert (argv + [s[..k]])[|argv|] == s[..k];
  }

  /** With a space behind the line its last word swallows the end of the line. */
  lemma LastWordOverruns(argv: Argv, w: bytes, ending: bytes, y: bytes)
    requires Piece(w) && Ending(ending) && SPACE in y
    ensures InlineRequest(argv, w + ending + y).argv != argv + [w]
  {
    var s := w + ending + y;
    var k := FirstSplit(s);
    SplitAtEnding(w, ending, y);
    assert SPACE in s && s[k] == SPACE;
    var token := s[..k];
    assert token[|w + ending| - 1] == s[|w + ending| - 1] == LF;
    Overrun(argv, s, w);
  }

  lemma {:induction false} Grows(argv: Argv, inp: bytes)
    ensures argv <= InlineRequest(argv, inp).argv
    decreases |inp|
  {
    var k := FirstSplit(inp);
    if k < |inp| && inp[k] == SPACE {
      Grows(argv + [Taken(inp, k)], inp[k + 1..]);
    }
  }

  /** Nothing in front of a delimiter: all the bytes there are become the word. */
  lemma EmptyWordTakesAll(argv: Argv, y: bytes)
    ensures InlineRequest(argv, [SPACE] + y) == InlineRequest(argv + [[SPACE] + y], y)
    ensures SPACE !in y ==> InlineRequest(argv, [LF] + y) == InlineOut(argv + [[LF] + y], y, OK)
  {
    var s, t := [SPACE] + y, [LF] + y;
    IndexIs(s, SPACE, 0);
    IndexIs(t, LF, 0);
    assert s[1..] == y && t[1..] == y;
    assert SPACE in s && s[0] == SPACE && Taken(s, 0) == s && Taken(t, 0) == t;
  }

  /** No word of the line is empty, except for the last one in front of a carriage return. */
  predicate NoneEmpty(ws: Argv, ending: bytes)
    requires ws != []
  {
    (forall i :: 0 <= i < |ws| - 1 ==> ws[i] != []) && (ws[|ws| - 1] != [] || ending == CRLF)
  }

  lemma OnlyPiece(argv: Argv, w: bytes, ending: bytes, y: bytes)
    requires Piece(w) && Ending(ending)
    ensures SPACE !in y && NoneEmpty([w], ending) ==>
      InlineRequest(argv, w + ending + y) == InlineOut(argv + [w], y, OK)
    ensures SPACE in y || !NoneEmpty([w], ending) ==> InlineRequest(argv, w + ending + y).argv != argv + [w]
  {
    hide InlineRequest;
    if SPACE in y {
      LastWordOverruns(argv, w, ending, y);
    } else if NoneEmpty([w], ending) {
      LastWord(argv, w, ending, y);
    } else {
      assert w + ending + y == [LF] + y;
      EmptyWordTakesAll(argv, y);
      assert (argv + [[LF] + y])[|argv|] != (argv + [w])[|argv|];
    }
  }

  lemma EmptyWordOverruns(argv: Argv, x: bytes, ws: Argv)
    requires ws != [] && ws[0] == []
    ensures InlineRequest(argv, [] + ([SPACE] + x)).argv != argv + ws
  {
    var s := [SPACE] + x;
    EmptyWordTakesAll(argv, x);
    Grows(argv + [s], x);
    assert [] + s == s && (argv + [s])[|argv|] == s && (argv + ws)[|argv|] == [];
  }

  lemma {:induction false} ReadPieces(argv: Argv, ws: Argv, ending: bytes, y: bytes)
    requires ws != [] && (forall i :: 0 <= i < |ws| ==> Piece(ws[i])) && Ending(ending)
    ensures SPACE !in y && NoneEmpty(ws, ending) ==>
      InlineRequest(argv, Typed(ws, ending) + y) == InlineOut(argv + ws, y, OK)
    ensures SPACE in y || !NoneEmpty(ws, ending) ==> InlineRequest(argv, Typed(ws, ending) + y).argv != argv + ws
    decreases |ws|
  {
    hide InlineRequest;
    if |ws| == 1 {
      assert ws == [ws[0]];
      OnlyPiece(argv, ws[0], ending, y);
    } else {
      TypedFirst(ws, ending, y);
      hide Typed;
      if ws[0] == [] {
        EmptyWordOverruns(argv, Typed(ws[1..], ending) + y, ws);
      } else {
        FirstWord(argv, ws[0], Typed(ws[1..], ending) + y);
        ReadPieces(argv + [ws[0]], ws[1..], ending, y);
        JoinFirst(argv, ws);
        NoneEmptyTail(ws, ending);
      }
    }
  }

  lemma NoneEmptyTail(ws: Argv, ending: bytes)
    requires |ws| > 1 && ws[0] != []
    ensures NoneEmpty(ws, ending) <==> NoneEmpty(ws[1..], ending)
  {
    var t := ws[1..];
    assert forall i :: 0 <= i < |t| ==> t[i] == ws[i + 1];
    if NoneEmpty(t, ending) {
      forall i | 0 <= i < |ws| - 1 ensures ws[i] != [] {
        assert i > 0 ==> ws[i] == t[i - 1];
      }
    }
  }

  lemma JoinFirst<T>(xs: seq<T>, ys: seq<T>)
    requires ys != []
    ensures xs + [ys[0]] + ys[1..] == xs + ys
  {
  }

  lemma FirstWord(argv: Argv, w: bytes, x: bytes)
    requires Word(w)
    ensures InlineRequest(argv, w + ([SPACE] + x)) == InlineRequest(argv + [w], x)
  {
    var s := w + ([SPACE] + x);
    SplitAtSpace(w, x);
    CutAtSpace(w, x);
    hide FirstSplit;
    assert s[|w|] == SPACE && Taken(s, |w|) == w;
  }

  lemma CutAtSpace(w: bytes, x: bytes)
    ensures var s := w + ([SPACE] + x); s[..|w|] == w && s[|w| + 1..] == x
  {
  }

  lemma TypedFirst(ws: Argv, ending: bytes, y: bytes)
    requires |ws| > 1
    ensures Typed(ws, ending) + y == ws[0] + ([SPACE] + (Typed(ws[1..], ending) + y))
  {
  }

  const InlineDone := ParserState(InlineType, START)

  /**
   * A line of pieces, which may be empty, gives exactly these and leaves exactly the bytes behind it iff there is no
   * space in those bytes and no piece is empty; the last one may be, in front of a carriage return.
   */
  lemma InlinePiecesIff(ws: Argv, ending: bytes, y: bytes, slack: bytes)
    requires ws != [] && (forall i :: 0 <= i < |ws| ==> Piece(ws[i])) && Ending(ending)
    requires ws[0] != [] ==> ws[0][0] != STAR
    ensures ParseRequest(FRESH, [], Typed(ws, ending) + y, slack) == RequestOut(InlineDone, ws, y, OK, false)
       <==> SPACE !in y && NoneEmpty(ws, ending)
  {
    var s := Typed(ws, ending) + y;
    FirstOfLine(ws, ending, y);
    ReadPieces([], ws, ending, y);
    assert [] + ws == ws;
    hide InlineRequest, Typed, NoneEmpty;
  }

  lemma FirstOfLine(ws: Argv, ending: bytes, y: bytes)
    requires ws != [] && Ending(ending) && (ws[0] != [] ==> ws[0][0] != STAR)
    ensures var s := Typed(ws, ending) + y; s != [] && s[0] != STAR
  {
  }

  /**
   * A line gives exactly its words and leaves exactly the bytes behind it iff there is no space in those
   * bytes: a space anywhere in the buffer is taken before the end of the line.
   */
  lemma InlineReadIff(ws: Argv, ending: bytes, y: bytes, slack: bytes)
    requires WordList(ws) && Ending(ending)
    ensures ParseRequest(FRESH, [], Typed(ws, ending) + y, slack) == RequestOut(InlineDone, ws, y, OK, false)
       <==> SPACE !in y
  {
    assert NoneEmpty(ws, ending);
    InlinePiecesIff(ws, ending, y, slack);
  }

  lemma PartOfLastWord(argv: Argv, w: bytes, ending: bytes, p: bytes)
    requires Word(w) && Ending(ending) && p < w + ending
    ensures PlainInline(p) && Incomplete(InlineRequest(argv, p).err)
  {
    var s := w + ending;
    assert forall j :: 0 <= j < |p| ==> p[j] == s[j] != SPACE && p[j] != LF;
    assert FirstSplit(p) == |p|;
  }

  lemma {:induction false} PartOfLine(argv: Argv, ws: Argv, ending: bytes, p: bytes)
    requires ws != [] && (forall i :: 0 <= i < |ws| ==> Word(ws[i])) && Ending(ending)
    requires p < Typed(ws, ending)
    ensures PlainInline(p) && Incomplete(InlineRequest(argv, p).err)
    decreases |ws|
  {
    if |ws| == 1 {
      PartOfLastWord(argv, ws[0], ending, p);
    } else {
      var w, tail := ws[0], Typed(ws[1..], ending);
      var s := w + ([SPACE] + tail);
      if |p| <= |w| {
        assert forall j :: 0 <= j < |p| ==> p[j] == s[j] == w[j];
        assert FirstSplit(p) == |p|;
      } else {
        var q := p[|w| + 1..];
        Regroup(w, [SPACE], tail);
        SplitPrefix(w + [SPACE], tail, p);
        assert p == w + ([SPACE] + q);
        SplitAtSpace(w, q);
        assert p[..|w|] == w;
        PartOfLine(argv + [w], ws[1..], ending, q);
      }
    }
  }

  lemma InlineWaits(ws: Argv, ending: bytes, now: bytes)
    requires WordList(ws) && Ending(ending)
    ensures Waits(Message(Typed(ws, ending), ws, InlineDone), now)
  {
    var t := Typed(ws, ending);
    assert t[0] == ws[0][0];
    if [] < now < t {
      assert now[0] == t[0];
      PartOfLine([], ws, ending, now);
      assert forall slack: bytes :: StopsIn(now, slack);
    }
  }

  lemma InlineReportedIff(ws: Argv, ending: bytes, now: bytes, slack: bytes)
    requires WordList(ws) && Ending(ending) && Typed(ws, ending) <= now
    ensures Reported(Message(Typed(ws, ending), ws, InlineDone), now, slack) <==> SPACE !in now[|Typed(ws, ending)|..]
  {
    var t := Typed(ws, ending);
    var y := now[|t|..];
    assert now == t + y;
    InlineReadIff(ws, ending, y, slack);
  }

  /** No piece that completes the line has a space behind it. */
  ghost predicate NoSpaceBehind(t: bytes, chunks: seq<Chunk>) {
    forall k :: 0 < k <= |chunks| && Received(chunks[..k - 1]) < t <= Received(chunks[..k]) ==>
      SPACE !in Received(chunks[..k])[|t|..]
  }

  /**
   * An inline command comes out right, however it is cut into pieces, iff there is no space behind its line in
   * the piece that completes it.
   */
  lemma InlineFragmentationIff(ws: Argv, ending: bytes, chunks: seq<Chunk>)
    requires WordList(ws) && Ending(ending)
    requires forall k :: 0 <= k < |chunks| ==> chunks[k].data != []
    requires Received(chunks) < Typed(ws, ending) || Typed(ws, ending) <= Received(chunks)
    ensures Delivered(Message(Typed(ws, ending), ws, InlineDone), [], chunks, 0, Feed(FRESH, [], [], chunks, 0))
       <==> NoSpaceBehind(Typed(ws, ending), chunks)
  {
    var t, all := Typed(ws, ending), Received(chunks);
    var e := Message(t, ws, InlineDone);
    assert [] + all == all;
    forall k | 0 <= k <= |chunks| ensures Waits(e, [] + Received(chunks[..k])) {
      InlineWaits(ws, ending, [] + Received(chunks[..k]));
    }
    forall k | 0 < k <= |chunks| && t <= Received(chunks[..k])
      ensures Reported(e, [] + Received(chunks[..k]), chunks[k - 1].slack) <==> SPACE !in Received(chunks[..k])[|t|..]
    {
      assert [] + Received(chunks[..k]) == Received(chunks[..k]);
      InlineReportedIff(ws, ending, Received(chunks[..k]), chunks[k - 1].slack);
    }
    FeedIff(e, FRESH, [], [], [], [], chunks, 0);
    WholeIsNoSpace(e, chunks);
  }

  lemma WholeIsNoSpace(e: Message, chunks: seq<Chunk>)
    requires forall k :: 0 < k <= |chunks| && e.code <= Received(chunks[..k]) ==>
      (Reported(e, [] + Received(chunks[..k]), chunks[k - 1].slack) <==> SPACE !in Received(chunks[..k])[|e.code|..])
    ensures ReadWhole(e, [], chunks) <==> NoSpaceBehind(e.code, chunks)
  {
    hide Reported, Received;
    assert forall k :: 0 <= k <= |chunks| ==> [] + Received(chunks[..k]) == Received(chunks[..k]);
    if NoSpaceBehind(e.code, chunks) {
      forall k | 0 < k <= |chunks| ensures ReadAt(e, [], chunks, k) {
      }
    }
    if ReadWhole(e, [], chunks) {
      forall k | 0 < k <= |chunks| && Received(chunks[..k - 1]) < e.code <= Received(chunks[..k])
        ensures SPACE !in Received(chunks[..k])[|e.code|..]
      {
        assert ReadAt(e, [], chunks, k);
      }
    }
  }

  /** The upstream sees the words of an inline command as a canonical request with the same arguments. */
  lemma InlineThenCanonical(ws: Argv, ending: bytes, slack: bytes)
    requires WordList(ws) && Ending(ending) && Sendable(ws)
    ensures var argv := ParseRequest(FRESH, [], Typed(ws, ending), slack).argv;
      ParseRequest(FRESH, [], Encode(argv), slack).argv == argv == ws
  {
    InlineReadIff(ws, ending, [], slack);
    assert Typed(ws, ending) + [] == Typed(ws, ending);
    RoundTrip(ws, [], slack);
    assert Encode(ws) + [] == Encode(ws);
  }
}
