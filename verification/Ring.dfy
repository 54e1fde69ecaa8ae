/** The circular queue `Recycle<T>` and its iterator, as a bounded first-in first-out queue. */
module Ring {
  import opened Base

  /** What the slots from start up to, but not including, end hold when the ring is read round. */
  function Window<T>(slots: seq<T>, start: nat, end: nat): (w: seq<T>)
    requires start < |slots| && end < |slots|
    ensures |w| == if start <= end then end - start else |slots| - start + end
    ensures |w| < |slots|
  {
    if start <= end then slots[start..end] else slots[start..] + slots[..end]
  }

  function Succ(i: nat, n: nat): (j: nat)
    requires i < n
    ensures j < n && j == if i + 1 == n then 0 else i + 1
  {
    (i + 1) % n
  }

  lemma WindowPush<T>(slots: seq<T>, start: nat, end: nat, x: T)
    requires start < |slots| && end < |slots| && Succ(end, |slots|) != start
    ensures Window(slots[end := x], start, Succ(end, |slots|)) == Window(slots, start, end) + [x]
  {
  }

  lemma WindowTail<T>(slots: seq<T>, start: nat, end: nat)
    requires start < |slots| && end < |slots| && start != end
    ensures Window(slots, start, end)[0] == slots[start]
    ensures Window(slots, Succ(start, |slots|), end) == Window(slots, start, end)[1..]
  {
  }

  /** The slot an iterator is at after k calls of `Next`. */
  function Steps(start: nat, k: nat, n: nat): (i: nat)
    requires start < n
    ensures i < n
  {
    if k == 0 then start else Succ(Steps(start, k - 1, n), n)
  }

  /**
   * After k steps from the oldest element an iterator stands at element k. It is at the end iff it has
   * visited all of them, and cutting the queue off there leaves exactly the elements it has not visited.
   */
  lemma {:induction false} Visits<T>(slots: seq<T>, start: nat, end: nat, k: nat)
    requires start < |slots| && end < |slots| && k <= |Window(slots, start, end)|
    ensures var i := Steps(start, k, |slots|); var all := Window(slots, start, end);
      && Window(slots, i, end) == all[k..]
      && (i == end <==> k == |all|)
      && (k < |all| ==> slots[i] == all[k])
  {
    if k > 0 {
      Visits(slots, start, end, k - 1);
      WindowTail(slots, Steps(start, k - 1, |slots|), end);
    }
    var i := Steps(start, k, |slots|);
    if i != end {
      WindowTail(slots, i, end);
    }
  }

  class Recycle<T(0)> {
    const holder: array<T>
    var start: nat
    var end: nat

    ghost predicate Valid() reads this {
      start < holder.Length && end < holder.Length
    }

    ghost function Contents(): (s: seq<T>)
      requires Valid()
      reads this, holder
      ensures |s| < holder.Length
    {
      Window(holder[..], start, end)
    }

    constructor (size: nat)
      requires size >= 1
      ensures Valid() && fresh(holder) && holder.Length == size && Contents() == []
    {
      holder := new T[size];
      start, end := 0, 0;
    }

    method Push(data: T) returns (err: Error)
      requires Valid()
      modifies this`end, holder
      ensures Valid()
      ensures err == if |old(Contents())| == holder.Length - 1 then Full else OK
      ensures Contents() == if err == OK then old(Contents()) + [data] else old(Contents())
    {
      var newEnd := Succ(end, holder.Length);
      if newEnd == start {
        return Full;
      }
      WindowPush(holder[..], start, end, data);
      holder[end] := data;
      end := newEnd;
      err := OK;
    }

    /** On Empty the value of data is not specified. */
    method Pop() returns (err: Error, data: T)
      requires Valid()
      modifies this`start
      ensures Valid()
      ensures err == if old(Contents()) == [] then Empty else OK
      ensures err == OK ==> [data] + Contents() == old(Contents())
      ensures err != OK ==> Contents() == old(Contents())
    {
      data := holder[start];
      if start == end {
        return Empty, data;
      }
      WindowTail(holder[..], start, end);
      start := Succ(start, holder.Length);
      err := OK;
    }

    predicate IsEmpty()
      requires Valid()
      reads this, holder
      ensures IsEmpty() <==> Contents() == []
    {
      start == end
    }

    predicate IsFull()
      requires Valid()
      reads this, holder
      ensures IsFull() <==> |Contents()| == holder.Length - 1
    {
      Succ(end, holder.Length) == start
    }

    method EraseUntil(it: Iterator<T>) returns (err: Error)
      requires Valid() && it.Valid() && it.host == this
      modifies this`start
      ensures Valid() && err == OK && Contents() == old(it.Remaining())
    {
      start := it.index;
      err := OK;
    }
  }

  class Iterator<T(0)> {
    const host: Recycle<T>
    var index: nat

    ghost predicate Valid() reads this, host {
      host.Valid() && index < host.holder.Length
    }

    /** The elements still to be visited. */
    ghost function Remaining(): seq<T>
      requires Valid()
      reads this, host, host.holder
    {
      Window(host.holder[..], index, host.end)
    }

    /** `FromBegin`. */
    constructor (host: Recycle<T>)
      requires host.Valid()
      ensures this.host == host && Valid() && Remaining() == host.Contents()
    {
      this.host := host;
      index := host.start;
    }

    predicate Eof()
      requires Valid()
      reads this, host, host.holder
      ensures Eof() <==> Remaining() == []
    {
      index == host.end
    }

    function Current(): (x: T)
      requires Valid() && !Eof()
      reads this, host, host.holder
      ensures x == Remaining()[0]
    {
      host.holder[index]
    }

    method Next()
      requires Valid() && !Eof()
      modifies this
      ensures Valid() && Remaining() == old(Remaining())[1..]
    {
      WindowTail(host.holder[..], index, host.end);
      index := Succ(index, host.holder.Length);
    }
  }
}
