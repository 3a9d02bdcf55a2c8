/** A queue of Core/CoreTiming.cpp together with its free pool: `first` with eventPool, or
    `tsFirst`/`tsLast` with eventTsPool. */
module EventStores {
  import opened EventQueue
  import opened EventLists

  class EventStore {
    const list: EventList
    const pool: FreeList
    var lent: int // allocatedTsEvents of the shared queue: nodes taken and not given back
    ghost var repr: set<object>

    ghost predicate Valid()
      reads this, repr
    {
      Core() && list.Tail() == true
    }

    // Valid, but for the tail pointer.
    ghost predicate Core()
      reads this, repr
    {
      && this in repr && list in repr && pool in repr
      && (forall n :: n in list.nodes ==> n in repr) && (forall n :: n in pool.nodes ==> n in repr)
      && (forall n: Event :: n in repr ==> n in list.nodes || n in pool.nodes)
      && list.Valid() == pool.Valid() == true // one fact each, not split further
    }

    constructor (hasTail: bool)
      ensures Valid() && fresh(repr) && list.nodes == [] && pool.nodes == [] && list.hasTail == hasTail && lent == 0
    {
      list := new EventList(hasTail);
      pool := new FreeList();
      lent := 0;
      new;
      repr := {this, list, pool};
    }

    // GetNewEvent and GetNewTsEvent.
    method Get() returns (ev: Event)
      requires Core()
      modifies repr
      ensures Core() && list.last == old(list.last) && ev.home == null && ev !in repr
      ensures repr == old(repr) - {ev} && (if old(pool.nodes) == [] then fresh(ev) else ev in old(repr))
      ensures |pool.nodes| == if old(pool.nodes) == [] then 0 else |old(pool.nodes)| - 1
      ensures list.nodes == old(list.nodes) && list.events == old(list.events) && lent == old(lent) + 1
    {
      ghost var p := pool.nodes;
      lent := lent + 1;
      ev := pool.Get();
      assert p != [] ==> ev in p && p == [ev] + pool.nodes;
      assert ev !in list.nodes;
      repr := repr - {ev};
    }

    // Takes a node out of the pool, to delete it or to move it to the other pool.
    method TakeFree() returns (ev: Event)
      requires Valid() && pool.head != null
      modifies repr
      ensures Valid() && ev.home == null && ev in old(repr) && repr == old(repr) - {ev}
      ensures list.nodes == old(list.nodes) && list.events == old(list.events)
      ensures |pool.nodes| == |old(pool.nodes)| - 1 && lent == old(lent)
    {
      ghost var p := pool.nodes;
      ev := pool.Pop();
      assert ev in p && ev in repr;
      repr := repr - {ev};
    }

    // Unlinks the head event.
    method PopHead() returns (ev: Event)
      requires Valid() && list.first != null
      modifies repr
      ensures Valid() && ev.home == null && ev in old(repr) && repr == old(repr) - {ev}
      ensures ev.base == old(list.events)[0] && list.events == old(list.events)[1..]
      ensures pool.nodes == old(pool.nodes) && lent == old(lent)
    {
      ghost var l := list.nodes;
      ev := list.Pop();
      assert ev in l && ev in repr;
      repr := repr - {ev};
    }

    // FreeEvent and FreeTsEvent.
    method Free(ev: Event)
      requires Core() && ev.home == null
      modifies repr, ev
      ensures Core() && list.last == old(list.last) && repr == old(repr) + {ev}
      ensures list.nodes == old(list.nodes) && list.events == old(list.events)
      ensures pool.nodes == [ev] + old(pool.nodes) && lent == old(lent) - 1
    {
      pool.Push(ev);
      lent := lent - 1;
      repr := repr + {ev};
    }

    method Add(ne: Event)
      requires Valid() && !list.hasTail && ne.home == null
      modifies repr, ne`next, ne`home
      ensures Valid() && repr == old(repr) + {ne} && lent == old(lent)
      ensures list.events == Insert(old(list.events), ne.base) && (old(list.Ordered()) ==> list.Ordered())
    {
      assert forall n :: n in pool.nodes ==> n !in list.nodes && n != ne;
      list.Add(ne);
      assert forall n :: n in pool.nodes ==> n.next == old(n.next);
      repr := repr + {ne};
    }

    method Append(ne: Event)
      requires Valid() && list.hasTail && ne.home == null
      modifies repr, ne`next, ne`home
      ensures Valid() && repr == old(repr) + {ne} && lent == old(lent)
      ensures list.events == old(list.events) + [ne.base]
    {
      assert forall n :: n in pool.nodes ==> n !in list.nodes && n != ne;
      list.Append(ne);
      assert forall n :: n in pool.nodes ==> n.next == old(n.next);
      repr := repr + {ne};
    }

    // The body of ScheduleEvent.
    method AddNew(base: Ev)
      requires Valid() && !list.hasTail
      modifies repr
      ensures Valid() && old(repr) <= repr && fresh(repr - old(repr)) && lent == old(lent) + 1
      ensures list.events == Insert(old(list.events), base) && (old(list.Ordered()) ==> list.Ordered())
    {
      ghost var r := repr;
      var ne := Get();
      ne.base := base;
      Add(ne);
      assert repr == r + {ne};
    }

    // The body of ScheduleEvent_Threadsafe.
    method AppendNew(base: Ev)
      requires Valid() && list.hasTail
      modifies repr
      ensures Valid() && old(repr) <= repr && fresh(repr - old(repr)) && lent == old(lent) + 1
      ensures list.events == old(list.events) + [base]
    {
      ghost var r := repr;
      var ne := Get();
      ne.base := base;
      Append(ne);
      assert repr == r + {ne};
    }

    method Remove(sel: Selector, now: int) returns (result: int, count: nat)
      requires Valid()
      modifies repr
      ensures Valid() && repr == old(repr) && lent == old(lent) - count
      ensures list.events == Without(old(list.events), sel) && count == |old(list.events)| - |list.events|
      ensures var p := LastPicked(old(list.events), sel); result == if p.0 then p.1 - now else 0
    {
      result, count := list.Remove(sel, now, pool);
      lent := lent - count;
    }

    // The free loop of DoLinkedList over a chain that has been cut off.
    method FreeChain(cur0: Event?, ghost chain: seq<Event>)
      requires Core() && Linked(cur0, chain, null) && forall n :: n in chain ==> n.home == null
      modifies repr, chain
      ensures Core() && list.last == old(list.last) && repr == old(repr) + Members(chain)
      ensures list.nodes == old(list.nodes) && list.events == old(list.events)
      ensures |pool.nodes| == old(|pool.nodes|) + |chain| && lent == old(lent) - |chain|
    {
      var cur := cur0;
      ghost var left, r, done := chain, repr, 0;
      LinkedIsAcyclic(cur0, chain);
      while cur != null
        invariant Core() && list.last == old(list.last) && Linked(cur, left, null) && forall n :: n in left ==>
            n.home == null
        invariant |left| <= |chain| && left == chain[|chain| - |left|..]
        invariant done == |chain| - |left| && repr == r + Members(chain[..done])
        invariant list.nodes == old(list.nodes) && list.events == old(list.events)
        invariant |pool.nodes| == old(|pool.nodes|) + |chain| - |left| && lent == old(lent) - done
        decreases |left|
      {
        assert chain[..done + 1] == chain[..done] + [cur];
        MembersSnoc(chain[..done], cur);
        var next := FreeLink(cur, left);
        left, done := left[1..], done + 1;
        cur := next;
      }
      assert chain[..|chain|] == chain;
    }

    method FreeLink(cur: Event, ghost left: seq<Event>) returns (next: Event?)
      requires Core() && Linked(cur, left, null) && forall n :: n in left ==> n.home == null
      modifies repr, cur
      ensures Core() && list.last == old(list.last) && repr == old(repr) + {cur}
          && pool.nodes == [cur] + old(pool.nodes)
      ensures left != [] && left[0] == cur && Linked(next, left[1..], null) && forall n :: n in left[1..] ==>
          n.home == null
      ensures list.nodes == old(list.nodes) && list.events == old(list.events) && lent == old(lent) - 1
    {
      LinkedIsAcyclic(cur, left);
      next := cur.next;
      assert forall n :: n in left[1..] ==> n != cur && n !in repr;
      Free(cur);
    }

    // Links ne in behind the last node, prev, as DoLinkedList does: the tail pointer waits.
    method Link(prev: Event?, ne: Event)
      requires Core() && prev == (if list.nodes == [] then null else list.nodes[|list.nodes| - 1]) && ne.home == null
      modifies repr, ne`next, ne`home
      ensures Core() && list.last == old(list.last) && repr == old(repr) + {ne}
      ensures list.nodes == old(list.nodes) + [ne] && list.events == old(list.events) + [ne.base]
      ensures pool.nodes == old(pool.nodes) && lent == old(lent)
    {
      assert forall n :: n in pool.nodes ==> n !in list.nodes && n != ne;
      assert list.nodes[..|list.nodes|] == list.nodes && list.events[..|list.events|] == list.events;
      ne.next := null;
      list.SpliceAfter(prev, ne, |list.nodes|);
      assert forall n :: n in pool.nodes ==> n.next == old(n.next);
      repr := repr + {ne};
    }

    // Points the tail at the last node.
    method SetTail(prev: Event?)
      requires Core() && prev == if list.nodes == [] then null else list.nodes[|list.nodes| - 1]
      modifies list`last
      ensures Valid() == true
    {
      list.last := prev;
    }

    // Overwrites the payload of the k-th node.
    method Overwrite(node: Event, base: Ev, ghost k: nat)
      requires Core() && k < |list.nodes| && node == list.nodes[k]
      modifies list`events, node`base
      ensures Core() && list.events == old(list.events)[k := base]
    {
      list.SetBase(node, base, k);
    }

    // Cuts the list off behind prev, the node before the k-th.
    method CutAway(prev: Event?, ghost k: nat) returns (rest: Event?)
      requires Core() && k <= |list.nodes| && prev == if k == 0 then null else list.nodes[k - 1]
      modifies repr
      ensures Core() && list.last == old(list.last) && repr == old(repr) - Members(old(list.nodes)[k..])
      ensures list.nodes == old(list.nodes)[..k] && list.events == old(list.events)[..k]
      ensures pool.nodes == old(pool.nodes) && lent == old(lent)
      ensures Linked(rest, old(list.nodes)[k..], null) && forall n :: n in old(list.nodes)[k..] ==> n.home == null
    {
      ghost var t := list.nodes[k..];
      assert forall n :: n in pool.nodes ==> n !in list.nodes;
      rest := list.Truncate(prev, k);
      assert forall n :: n in pool.nodes ==> n.next == old(n.next) && n.home == old(n.home);
      repr := repr - Members(t);
    }

    // And frees what was cut off.
    method CutOff(prev: Event?, ghost k: nat)
      requires Core() && k <= |list.nodes| && prev == if k == 0 then null else list.nodes[k - 1]
      modifies repr
      ensures Core() && list.last == old(list.last) && repr == old(repr)
      ensures list.nodes == old(list.nodes)[..k] && list.events == old(list.events)[..k]
      ensures |pool.nodes| == |old(pool.nodes)| + |old(list.nodes)| - k
      ensures lent == old(lent) - (|old(list.nodes)| - k)
    {
      ghost var r, t := repr, list.nodes[k..];
      assert forall n :: n in t ==> n in list.nodes;
      var rest := CutAway(prev, k);
      FreeChain(rest, t);
      assert repr == r;
    }
  }
}
