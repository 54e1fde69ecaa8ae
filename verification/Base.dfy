/** Bytes, error codes and the byte search shared by every module. */
module Base {

  type byte = x: int | 0 <= x < 256

  type bytes = seq<byte>

  const LF: byte := 10
  const CR: byte := 13
  const SPACE: byte := 32
  const DOLLAR: byte := 36
  const STAR: byte := 42
  const PLUS: byte := 43
  const MINUS: byte := 45
  const COLON: byte := 58

  const CRLF: bytes := [CR, LF]

  /** The codes of `Error`; `Errno` stands for a code taken from the operating system. */
  datatype Error =
    | OK | Closed | Empty | Full | Eof | TryAgain | InitFailed
    | Unknown | NotImplemented | Exhausted | OutOfBound | NotFound
    | Errno(code: int)

  /** A parser that returns one of these kept its state and waits for more input. */
  predicate Incomplete(e: Error) {
    e == TryAgain || e == OutOfBound
  }

  /** memchr: the position of the first c in s, or |s| when there is none. */
  function Index(s: bytes, c: byte): (i: nat)
    ensures i <= |s|
    ensures i < |s| ==> s[i] == c
    ensures forall j :: 0 <= j < i ==> s[j] != c
  {
    if s == [] || s[0] == c then 0 else 1 + Index(s[1..], c)
  }

  lemma IndexIs(s: bytes, c: byte, i: nat)
    requires i < |s| && s[i] == c
    requires forall j :: 0 <= j < i ==> s[j] != c
    ensures Index(s, c) == i
  {
  }

  /** Bytes that arrive later do not move a delimiter that is already there. */
  lemma IndexStable(a: bytes, b: bytes, c: byte)
    ensures c in a ==> Index(a + b, c) == Index(a, c)
    ensures c in a <==> Index(a, c) < |a|
  {
    if c in a {
      var k :| 0 <= k < |a| && a[k] == c;
      assert Index(a, c) <= k;
      IndexIs(a + b, c, Index(a, c));
    }
  }

  /** What `Append(buffer, n)` takes of a buffer that holds t: zero stands for all of it. */
  function Taken(t: bytes, n: nat): bytes {
    if n == 0 || n > |t| then t else t[..n]
  }

  /** What `Offset(0, -drop)` leaves of t. */
  function Trim(t: bytes, drop: nat): bytes {
    if |t| >= drop then t[..|t| - drop] else []
  }

  /** A proper prefix of e + tail ends inside e, or is e and a proper prefix of tail. */
  lemma SplitPrefix(e: bytes, tail: bytes, p: bytes)
    requires p < e + tail
    ensures |p| < |e| ==> p < e
    ensures |p| >= |e| ==> p == e + p[|e|..] && p[|e|..] < tail
  {
    var w := e + tail;
    assert p == w[..|p|];
    if |p| < |e| {
      assert w[..|p|] == e[..|p|];
    } else {
      assert w[..|p|] == e + tail[..|p| - |e|];
    }
  }

  lemma CutBehind(a: bytes, b: bytes, k: nat)
    requires k <= |a|
    ensures (a + b)[..k] == a[..k] && (a + b)[k..] == a[k..] + b
  {
  }

  lemma Regroup(a: bytes, b: bytes, c: bytes)
    ensures a + b + c == a + (b + c)
  {
  }
}
