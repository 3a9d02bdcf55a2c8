/** FixedSizeQueue of Common/FixedSizeQueue.h: a ring buffer that also hands out its slots as two
    spans.  What it holds is a sequence, and every operation is the one on sequences. */
module FixedSizeQueues {

  // The count elements from head on, going round the end of the storage.
  function Ring<T>(storage: seq<T>, head: nat, count: nat): (r: seq<T>)
    requires head < |storage| && count <= |storage|
    ensures |r| == count
  {
    if head + count <= |storage| then storage[head..head + count]
      else storage[head..] + storage[..head + count - |storage|]
  }

  // Where the k-th of them lies.
  function Slot(head: nat, k: nat, size: nat): nat { if head + k < size then head + k else head + k - size }

  lemma RingAt<T>(storage: seq<T>, head: nat, count: nat, k: nat)
    requires head < |storage| && k < count <= |storage|
    ensures Slot(head, k, |storage|) < |storage| && Ring(storage, head, count)[k] == storage[Slot(head, k, |storage|)]
  {}

  // Taking from the front and adding at the back.
  lemma RingSplits<T>(storage: seq<T>, head: nat, count: nat, n: nat)
    requires head < |storage| && n <= count <= |storage|
    ensures var head' := Slot(head, n, |storage|);
      head' < |storage| && Ring(storage, head, count) == Ring(storage, head, n) + Ring(storage, head', count - n)
  {
    var head' := Slot(head, n, |storage|);
    var a, b := Ring(storage, head, n), Ring(storage, head', count - n);
    forall k | 0 <= k < count
      ensures Ring(storage, head, count)[k] == (a + b)[k]
    {
      SplitAt(storage, head, head', n, count, k);
    }
  }

  lemma SplitAt<T>(storage: seq<T>, head: nat, head': nat, n: nat, count: nat, k: nat)
    requires head < |storage| && n <= count <= |storage| && head' == Slot(head, n, |storage|) && k < count
    ensures head' < |storage|
    ensures Ring(storage, head, count)[k]
         == if k < n then Ring(storage, head, n)[k] else Ring(storage, head', count - n)[k - n]
  {
    RingAt(storage, head, count, k);
    if k < n { RingAt(storage, head, n, k); } else { RingAt(storage, head', count - n, k - n); }
  }

  // Slots outside the ring do not matter to it.
  lemma RingKept<T>(s: seq<T>, t: seq<T>, head: nat, count: nat)
    requires |s| == |t| && head < |s| && count <= |s|
    requires forall k :: 0 <= k < count ==> s[Slot(head, k, |s|)] == t[Slot(head, k, |s|)]
    ensures Ring(s, head, count) == Ring(t, head, count)
  {
    forall k | 0 <= k < count
      ensures Ring(s, head, count)[k] == Ring(t, head, count)[k]
    {
      RingAt(s, head, count, k);
      RingAt(t, head, count, k);
    }
  }

  class FixedSizeQueue<T(0)> {
    const storage: array<T>
    var head: nat
    var tail: nat
    var count: nat

    // tail is head + count round the storage.
    ghost predicate Valid()
      reads this
    {
      head < storage.Length && count <= storage.Length && tail == Slot(head, count, storage.Length)
    }

    ghost function Contents(): seq<T>
      reads this, storage
      requires Valid()
    {
      Ring(storage[..], head, count)
    }

    constructor (n: nat)
      requires n > 0
      ensures Valid() && storage.Length == n && Contents() == [] && fresh(storage)
    {
      storage := new T[n];
      head, tail, count := 0, 0, 0;
    }

    method Clear()
      requires Valid()
      modifies this
      ensures Valid() && Contents() == []
    {
      head, tail, count := 0, 0, 0;
    }

    method Push(t: T)
      requires Valid() && count < storage.Length
      modifies this, storage
      ensures Valid() && Contents() == old(Contents()) + [t]
    {
      ghost var before := storage[..];
      storage[tail] := t;
      RingKept(before, storage[..], head, count);
      RingSplits(storage[..], head, count + 1, count);
      tail := tail + 1;
      if tail == storage.Length { tail := 0; }
      count := count + 1;
    }

    method Pop()
      requires Valid() && count > 0
      modifies this
      ensures Valid() && Contents() == old(Contents())[1..]
    {
      RingSplits(storage[..], head, count, 1);
      head := head + 1;
      if head == storage.Length { head := 0; }
      count := count - 1;
    }

    method PopFront() returns (t: T)
      requires Valid() && count > 0
      modifies this
      ensures Valid() && old(Contents()) == [t] + Contents()
    {
      RingSplits(storage[..], head, count, 1);
      t := storage[head];
      Pop();
    }

    // Two spans of the storage, from dest1 and from 0, for the next `size` elements; what they hold
    // until the caller writes them is what was there.
    method PushPointers(size: nat) returns (dest1: nat, sz1: nat, sz2: nat)
      requires Valid() && size <= storage.Length - count
      modifies this
      ensures Valid() && head == old(head) && count == old(count) + size
      ensures dest1 == old(tail) && sz1 + sz2 == size && dest1 + sz1 <= storage.Length && sz2 <= dest1
      ensures sz2 > 0 ==> dest1 + sz1 == storage.Length
      ensures Contents() == old(Contents()) + (storage[..][dest1..dest1 + sz1] + storage[..][..sz2])
    {
      RingSplits(storage[..], head, count + size, count);
      dest1 := tail;
      if tail + size < storage.Length {
        sz1, sz2 := size, 0;
        tail := tail + size; // the test for the end that follows cannot succeed
      } else {
        sz1 := storage.Length - tail;
        tail := size - sz1;
        sz2 := tail;
      }
      count := count + size;
    }

    // Two spans holding the oldest elements, `size` of them or as many as there are.
    method PopPointers(size: nat) returns (src1: nat, sz1: nat, sz2: nat)
      requires Valid()
      modifies this
      ensures Valid() && src1 == old(head) && sz1 + sz2 == (if size > old(count) then old(count) else size)
      ensures src1 + sz1 <= storage.Length && sz2 <= src1
      ensures old(Contents()) == (storage[..][src1..src1 + sz1] + storage[..][..sz2]) + Contents()
    {
      var n := if size > count then count else size;
      RingSplits(storage[..], head, count, n);
      src1 := head;
      if head + n < storage.Length {
        sz1, sz2 := n, 0;
        head := head + n;
      } else {
        sz1 := storage.Length - head;
        head := n - sz1;
        sz2 := head;
      }
      count := count - n;
    }

    // A producer's copy into one span.
    method Write(dest: nat, part: seq<T>)
      requires dest + |part| <= storage.Length
      modifies storage
      ensures storage[..] == Overwrite(old(storage[..]), dest, part)
    {
      forall k | 0 <= k < |part| {
        storage[dest + k] := part[k];
      }
    }

    method WriteSpans(dest1: nat, data: seq<T>, sz1: nat)
      requires sz1 <= |data| && dest1 + sz1 <= storage.Length && |data| - sz1 <= dest1
      modifies storage
      ensures storage[..] == Overwrite(Overwrite(old(storage[..]), dest1, data[..sz1]), 0, data[sz1..])
    {
      Write(dest1, data[..sz1]);
      Write(0, data[sz1..]);
    }

    // What a producer does with the spans.
    method PushAll(data: seq<T>)
      requires Valid() && |data| <= storage.Length - count
      modifies this, storage
      ensures Valid() && Contents() == old(Contents()) + data
    {
      ghost var was, n := storage[..], count;
      var dest1, sz1, sz2 := PushPointers(|data|);
      WriteSpans(dest1, data, sz1);
      Filled(was, Overwrite(was, dest1, data[..sz1]), storage[..], head, n, dest1, data, sz1);
    }
  }

  function Overwrite<T>(s: seq<T>, dest: nat, part: seq<T>): seq<T>
    requires dest + |part| <= |s|
  {
    s[..dest] + part + s[dest + |part|..]
  }

  // The storage after both copies, slot by slot.
  function Overlaid<T>(was: seq<T>, dest1: nat, data: seq<T>, sz1: nat, j: nat): T
    requires j < |was| && sz1 <= |data|
  {
    if j < |data| - sz1 then data[sz1 + j] else if dest1 <= j < dest1 + sz1 then data[j - dest1] else was[j]
  }

  lemma Copied<T>(was: seq<T>, half: seq<T>, now: seq<T>, dest1: nat, data: seq<T>, sz1: nat, j: nat)
    requires sz1 <= |data| && dest1 + sz1 <= |was| && |data| - sz1 <= dest1 && j < |was|
    requires half == Overwrite(was, dest1, data[..sz1]) && now == Overwrite(half, 0, data[sz1..])
    ensures |now| == |was| && now[j] == Overlaid(was, dest1, data, sz1, j)
  {
    if j >= |data| - sz1 { assert now[j] == half[j]; }
  }

  // The spans filled, everything before is kept and the data follow it.
  lemma Filled<T>(was: seq<T>, half: seq<T>, now: seq<T>, head: nat, n: nat, dest1: nat, data: seq<T>, sz1: nat)
    requires head < |was| && n + |data| <= |was| && dest1 == Slot(head, n, |was|) && sz1 <= |data|
        && dest1 + sz1 <= |was|
    requires |data| - sz1 <= dest1 && (|data| > sz1 ==> dest1 + sz1 == |was|)
    requires half == Overwrite(was, dest1, data[..sz1]) && now == Overwrite(half, 0, data[sz1..])
    ensures |now| == |was| && Ring(now, head, n + |data|) == Ring(was, head, n) + data
  {
    Copied(was, half, now, dest1, data, sz1, head);
    forall k | 0 <= k < n
      ensures now[Slot(head, k, |was|)] == was[Slot(head, k, |was|)]
    {
      Copied(was, half, now, dest1, data, sz1, Slot(head, k, |was|));
    }
    RingKept(now, was, head, n);
    RingSplits(now, head, n + |data|, n);
    NewPart(was, half, now, head, n, dest1, data, sz1);
  }

  lemma NewPart<T>(was: seq<T>, half: seq<T>, now: seq<T>, head: nat, n: nat, dest1: nat, data: seq<T>, sz1: nat)
    requires head < |was| == |now| && n + |data| <= |was| && dest1 == Slot(head, n, |was|) < |was| && sz1 <= |data|
        && dest1 + sz1 <= |was|
    requires |data| - sz1 <= dest1 && (|data| > sz1 ==> dest1 + sz1 == |was|)
    requires half == Overwrite(was, dest1, data[..sz1]) && now == Overwrite(half, 0, data[sz1..])
    ensures Ring(now, dest1, |data|) == data
  {
    forall k | 0 <= k < |data|
      ensures Ring(now, dest1, |data|)[k] == data[k]
    {
      RingAt(now, dest1, |data|, k);
      Copied(was, half, now, dest1, data, sz1, Slot(dest1, k, |was|));
    }
  }
}
