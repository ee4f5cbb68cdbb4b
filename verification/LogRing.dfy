/**
 The ring buffer of the logger, log.cpp:124-142, 172-247, 250-281 and 283-306: entries between `head` and `tail`,
 doubled by `add` when it fills up, and given an end marker by `pause` without that check.
 */
module LogRing {

  /** A formatted message: what `add` copies out of its arguments and the logger's settings. */
  datatype Message = Message(level: nat, prefix: bool, timestamp: int, text: string)

  datatype Entry = Entry(message: Message, isEnd: bool)

  const BLANK := Entry(Message(0, false, 0, ""), false)

  datatype Ring = Ring(entries: seq<Entry>, head: nat, tail: nat) {

    ghost predicate Valid() {
      head < |entries| && tail < |entries|
    }

    /** How many entries are waiting. */
    function Count(): (n: nat)
      requires Valid()
      ensures n < |entries|
    {
      if tail >= head then tail - head else tail + |entries| - head
    }

    /** The waiting entries, first in first. */
    ghost function Pending(): (p: seq<Entry>)
      requires Valid()
      ensures |p| == Count()
    {
      seq(Count(), i requires 0 <= i < Count() => entries[Wrap(head + i, |entries|)])
    }

    /** The next entry is written, and the buffer doubled when that fills it. */
    function Add(m: Message): (r: Ring)
      requires Valid()
      ensures r.Valid()
    {
      var written := entries[tail := Entry(m, false)];
      var next := Wrap(tail + 1, |entries|);
      if next == head then Ring(Grown(written, head), 0, |entries|) else Ring(written, head, next)
    }

    /** The first waiting entry is taken. */
    function Take(): (r: Ring)
      requires Valid()
      ensures r.Valid()
    {
      Ring(entries, Wrap(head + 1, |entries|), tail)
    }

    /** The end marker: the entry at `tail` is marked, whatever it held, and never grown for. */
    function MarkEnd(): (r: Ring)
      requires Valid()
      ensures r.Valid()
    {
      Ring(entries[tail := entries[tail].(isEnd := true)], head, Wrap(tail + 1, |entries|))
    }
  }

  /** `x % n` for the sums that come up. */
  function Wrap(x: nat, n: nat): (r: nat)
    requires x < 2 * n
    ensures r < n && r == x % n
  {
    if x < n then x else x - n
  }

  /** A full buffer unrolled from `head` on, with as many blank entries behind it. */
  function Grown(entries: seq<Entry>, head: nat): (r: seq<Entry>)
    requires head < |entries|
    ensures |r| == 2 * |entries|
  {
    seq(2 * |entries|, i requires 0 <= i < 2 * |entries| =>
      if i < |entries| then entries[Wrap(head + i, |entries|)] else BLANK)
  }

  function Empty(capacity: nat): (r: Ring)
    requires capacity > 0
    ensures r.Valid() && r.Pending() == []
  {
    Ring(seq(capacity, _ => BLANK), 0, 0)
  }

  /** The written slot is the one behind the last waiting entry, so no waiting entry is lost. */
  lemma WrittenBehind(r: Ring, e: Entry)
    requires r.Valid()
    ensures Wrap(r.head + r.Count(), |r.entries|) == r.tail
    ensures forall i :: 0 <= i < r.Count() ==> r.entries[r.tail := e][Wrap(r.head + i, |r.entries|)] == r.Pending()[i]
  {
    forall i | 0 <= i < r.Count()
      ensures r.entries[r.tail := e][Wrap(r.head + i, |r.entries|)] == r.Pending()[i]
    {
      assert Wrap(r.head + i, |r.entries|) != r.tail;
    }
  }

  lemma AddGrows(r: Ring, m: Message)
    requires r.Valid() && Wrap(r.tail + 1, |r.entries|) == r.head
    ensures r.Add(m).Pending() == r.Pending() + [Entry(m, false)]
  {
    var n, c, after := |r.entries|, r.Count(), r.Add(m);
    var written := r.entries[r.tail := Entry(m, false)];
    WrittenBehind(r, Entry(m, false));
    assert c + 1 == n && after.Count() == n;
    forall i | 0 <= i < n
      ensures after.Pending()[i] == written[Wrap(r.head + i, n)]
    {
      assert Wrap(0 + i, 2 * n) == i;
      assert Grown(written, r.head)[i] == written[Wrap(r.head + i, n)];
    }
    assert after.Pending()[c] == Entry(m, false);
  }

  lemma AddFits(r: Ring, m: Message)
    requires r.Valid() && Wrap(r.tail + 1, |r.entries|) != r.head
    ensures r.Add(m).Pending() == r.Pending() + [Entry(m, false)]
  {
    var n, c, after := |r.entries|, r.Count(), r.Add(m);
    WrittenBehind(r, Entry(m, false));
    assert after.Count() == c + 1 && after.entries == r.entries[r.tail := Entry(m, false)];
    assert after.Pending()[c] == Entry(m, false);
  }

  /** Adding appends, and growing keeps what is waiting and its order. */
  lemma AddAppends(r: Ring, m: Message)
    requires r.Valid()
    ensures r.Add(m).Pending() == r.Pending() + [Entry(m, false)]
  {
    if Wrap(r.tail + 1, |r.entries|) == r.head {
      AddGrows(r, m);
    } else {
      AddFits(r, m);
    }
  }

  lemma TakeFirst(r: Ring)
    requires r.Valid() && r.head != r.tail
    ensures r.Pending() != [] && r.Pending()[0] == r.entries[r.head]
    ensures r.Take().Pending() == r.Pending()[1..]
  {
    var n, after := |r.entries|, r.Take();
    assert r.Pending()[0] == r.entries[Wrap(r.head, n)];
    assert after.Count() == r.Count() - 1;
    forall i | 0 <= i < after.Count()
      ensures after.Pending()[i] == r.Pending()[i + 1]
    {
      assert Wrap(after.head + i, n) == Wrap(r.head + (i + 1), n);
    }
  }

  lemma EmptyIff(r: Ring)
    requires r.Valid()
    ensures r.head == r.tail <==> r.Pending() == []
  {
  }

  /** With two free slots the end marker is appended; with one it makes the ring look empty. */
  lemma MarkEndAppendsIff(r: Ring)
    requires r.Valid()
    ensures r.Count() + 1 < |r.entries| ==>
              r.MarkEnd().Pending() == r.Pending() + [r.entries[r.tail].(isEnd := true)]
    ensures r.Count() + 1 == |r.entries| ==> r.MarkEnd().Pending() == []
  {
    var n, c, after := |r.entries|, r.Count(), r.MarkEnd();
    WrittenBehind(r, r.entries[r.tail].(isEnd := true));
    if c + 1 < n {
      assert after.Count() == c + 1;
    }
  }

  class CommonLog {
    var running: bool
    var entries: array<Entry>
    var head: nat
    var tail: nat
    var cur: Entry

    ghost predicate Valid()
      reads this
    {
      head < entries.Length && tail < entries.Length
    }

    ghost function Contents(): Ring
      reads this, entries
    {
      Ring(entries[..], head, tail)
    }

    constructor (capacity: nat)
      requires capacity > 0
      ensures Valid() && fresh(entries) && Contents() == Empty(capacity) && !running
    {
      running := false;
      entries := new Entry[capacity](_ => BLANK);
      head, tail, cur := 0, 0, BLANK;
      new;
      assert entries[..] == seq(capacity, _ => BLANK);
    }

    method Add(m: Message)
      requires Valid()
      modifies this`entries, this`head, this`tail, entries
      ensures Valid() && (entries == old(entries) || fresh(entries))
      ensures Contents() == if running then old(Contents()).Add(m) else old(Contents())
    {
      if !running {
        return;
      }
      entries[tail] := Entry(m, false);
      tail := (tail + 1) % entries.Length;
      assert tail == Wrap(old(tail) + 1, entries.Length);
      assert entries[..] == old(entries[..])[old(tail) := Entry(m, false)];
      if tail == head {
        Expand();
      }
    }

    /** A full buffer is copied into one of twice the size, from `head` around to `tail`. */
    method Expand()
      requires Valid() && tail == head
      modifies this`entries, this`head, this`tail
      ensures Valid() && fresh(entries)
      ensures Contents() == Ring(Grown(old(entries[..]), old(head)), 0, |old(entries[..])|)
    {
      var n := entries.Length;
      var newEntries := new Entry[2 * n](_ => BLANK);
      var newTail := 0;
      ghost var start := head;
      while newTail == 0 || head != tail
        invariant entries == old(entries) && tail == start < n && head < n
        invariant newTail <= n
        invariant newTail < n ==> head == Wrap(start + newTail, n)
        invariant newTail == n ==> head == start
        invariant forall i :: 0 <= i < newTail ==> newEntries[i] == entries[Wrap(start + i, n)]
        invariant forall i :: newTail <= i < 2 * n ==> newEntries[i] == BLANK
        decreases n - newTail
      {
        newEntries[newTail] := entries[head];
        assert Wrap(head + 1, n) == (head + 1) % n;
        head := (head + 1) % n;
        newTail := newTail + 1;
      }
      head := 0;
      tail := newTail;
      entries := newEntries;
      assert entries[..] == Grown(old(entries[..]), start);
    }

    /** The worker's critical section: the first entry is copied into `cur`. */
    method Take()
      requires Valid() && head != tail
      modifies this`cur, this`head
      ensures Valid() && cur == old(Contents().entries[head])
      ensures Contents() == old(Contents()).Take()
    {
      cur := entries[head];
      head := (head + 1) % entries.Length;
    }

    /** The critical section of `resume`: whether a worker is to be started. */
    method Resume() returns (start: bool)
      modifies this`running
      ensures start == !old(running) && running
    {
      start := !running;
      running := true;
    }

    /** The critical section of `pause`: whether there is a worker to wait for. */
    method MarkEnd() returns (wait: bool)
      requires Valid()
      modifies this`running, this`tail, entries
      ensures Valid() && wait == old(running) && !running
      ensures Contents() == if wait then old(Contents()).MarkEnd() else old(Contents())
    {
      if !running {
        return false;
      }
      running := false;
      entries[tail] := entries[tail].(isEnd := true);
      tail := (tail + 1) % entries.Length;
      assert tail == Wrap(old(tail) + 1, entries.Length);
      wait := true;
    }
  }
}
