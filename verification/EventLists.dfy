/** The intrusive lists of Core/CoreTiming.cpp over heap nodes: the free pools, the main queue
    behind `first`, and the thread-safe queue behind `tsFirst` and `tsLast`.

    Every node carries a ghost `home`, the list that holds it (null while an operation has it in
    hand), so that lists with different identities are disjoint. */
module EventLists {
  import opened EventQueue

  class Event {
    var base: Ev
    var next: Event?
    ghost var home: object?

    constructor ()
      ensures home == null
    {
      base, next, home := Ev(0, 0, 0), null, null;
    }
  }

  // The nodes of s, linked in this order from `from` up to `to`.
  ghost predicate Linked(from: Event?, s: seq<Event>, to: Event?)
    reads s`next
  {
    if s == [] then from == to else from == s[0] && Linked(s[0].next, s[1..], to)
  }

  ghost predicate AllIn(s: seq<Event>, home: object)
    reads s`home
  {
    forall n :: n in s ==> n.home == home
  }

  ghost predicate Carries(s: seq<Event>, evs: seq<Ev>)
    reads s`base
  {
    |s| == |evs| && forall i :: 0 <= i < |s| ==> s[i].base == evs[i]
  }

  lemma LinkedSnoc(from: Event?, a: seq<Event>, last: Event)
    requires Linked(from, a, last)
    ensures Linked(from, a + [last], last.next)
  {
    assert Linked(last, [last], last.next);
    LinkedJoin(from, a, last, [last], last.next);
  }

  lemma LinkedThrough(from: Event?, a: seq<Event>, mid: Event, b: seq<Event>)
    requires Linked(from, a, mid) && Linked(mid.next, b, null)
    ensures Linked(from, a + [mid] + b, null)
  {
    LinkedSnoc(from, a, mid);
    LinkedJoin(from, a + [mid], mid.next, b, null);
  }

  lemma {:induction false} LinkedSplit(from: Event?, s: seq<Event>, to: Event?, k: nat)
    requires k <= |s|
    ensures Linked(from, s, to) <==>
      Linked(from, s[..k], if k < |s| then s[k] else to) && Linked(if k < |s| then s[k] else to, s[k..], to)
    decreases k
  {
    if k == 0 {
      assert s[0..] == s;
    } else {
      LinkedSplit(s[0].next, s[1..], to, k - 1);
      assert s[..k][1..] == s[1..][..k - 1] && s[k..] == s[1..][k - 1..];
    }
  }

  lemma {:induction false} LinkedJoin(from: Event?, a: seq<Event>, mid: Event?, b: seq<Event>, to: Event?)
    requires Linked(from, a, mid) && Linked(mid, b, to)
    ensures Linked(from, a + b, to)
  {
    if a == [] {
      assert a + b == b;
    } else {
      LinkedJoin(a[0].next, a[1..], mid, b, to);
      assert (a + b)[1..] == a[1..] + b;
    }
  }

  lemma {:induction false} LinkedAt(from: Event?, s: seq<Event>, k: nat)
    requires Linked(from, s, null) && k < |s|
    ensures s[k].next == if k + 1 < |s| then s[k + 1] else null
  {
    if k > 0 { LinkedAt(s[0].next, s[1..], k - 1); }
  }

  // A list that ends in null visits no node twice.
  lemma {:induction false} LinkedIsAcyclic(from: Event?, s: seq<Event>)
    requires Linked(from, s, null)
    ensures forall i, j :: 0 <= i < j < |s| ==> s[i] != s[j]
  {
    if exists i, j :: 0 <= i < j < |s| && s[i] == s[j] {
      var i, j :| 0 <= i < j < |s| && s[i] == s[j];
      LinkedSplit(from, s, null, i);
      LinkedSplit(from, s, null, j);
      LinkedDetermines(s[i], s[i..], s[j..]);
    }
  }

  ghost function Members(s: seq<Event>): (m: set<object>)
    ensures forall n :: n in s ==> n in m
    ensures forall o :: o in m ==> o is Event && o as Event in s
  {
    set n | n in s
  }

  lemma MembersSnoc(s: seq<Event>, n: Event)
    ensures Members(s + [n]) == Members(s) + {n}
  {}

  // Two pairs of lists hold the same nodes.
  ghost predicate SameNodes(a: seq<Event>, b: seq<Event>, c: seq<Event>, d: seq<Event>) {
    && (forall n :: n in a ==> n in c || n in d) && (forall n :: n in b ==> n in c || n in d)
    && (forall n :: n in c ==> n in a || n in b) && (forall n :: n in d ==> n in a || n in b)
  }

  // What putting a node in before the k-th one rests on.
  lemma SpliceFacts(from: Event?, s: seq<Event>, evs: seq<Ev>, k: nat, ne: Event, home: object)
    requires Linked(from, s, null) && AllIn(s, home) && Carries(s, evs) && k <= |s| && ne.home == null
    ensures ne !in s && Linked(from, s[..k], if k < |s| then s[k] else null)
    ensures Linked(if k < |s| then s[k] else null, s[k..], null)
    ensures Carries(s[..k] + [ne] + s[k..], evs[..k] + [ne.base] + evs[k..])
    ensures forall n :: n in s[..k] + [ne] + s[k..] ==> n == ne || n in s
    ensures k > 0 ==>
      && Linked(from, s[..k - 1], s[k - 1]) && s[..k] == s[..k - 1] + [s[k - 1]]
      && s[k - 1] !in s[..k - 1] && s[k - 1] !in s[k..]
  {
    LinkedIsAcyclic(from, s);
    LinkedSplit(from, s, null, k);
    if k > 0 { LinkedSplit(from, s, null, k - 1); }
  }

  lemma TruncateFacts(from: Event?, s: seq<Event>, k: nat)
    requires Linked(from, s, null) && k <= |s|
    ensures Linked(if k < |s| then s[k] else null, s[k..], null)
    ensures forall n :: n in s[k..] ==> n !in s[..k]
    ensures k == 0 ==> from == if |s| > 0 then s[0] else null
    ensures k > 0 ==>
      && Linked(from, s[..k - 1], s[k - 1]) && s[..k] == s[..k - 1] + [s[k - 1]]
      && s[k - 1] !in s[..k - 1] && s[k - 1] !in s[k..] && s[k - 1].next == if k < |s| then s[k] else null
  {
    LinkedIsAcyclic(from, s);
    LinkedSplit(from, s, null, k);
    if k > 0 {
      LinkedSplit(from, s, null, k - 1);
      LinkedAt(from, s, k - 1);
    }
  }

  // What taking the (k+1)-st node out of a list rests on.
  lemma CutFacts(from: Event?, s: seq<Event>, evs: seq<Ev>, k: nat, home: object)
    requires Linked(from, s, null) && AllIn(s, home) && Carries(s, evs) && k + 1 < |s|
    ensures s[k].next == s[k + 1]
    ensures var t := s[..k + 1] + s[k + 2..];
      s[k + 1] !in t && t == s[..k] + [s[k]] + s[k + 2..]
      && AllIn(t, home) && Carries(t, evs[..k + 1] + evs[k + 2..])
    ensures s[k] !in s[..k] && s[k] !in s[k + 2..]
    ensures Linked(from, s[..k], s[k]) && Linked(s[k + 1].next, s[k + 2..], null)
    ensures s[k + 1] == s[|s| - 1] <==> k + 1 == |s| - 1
  {
    LinkedIsAcyclic(from, s);
    LinkedAt(from, s, k);
    LinkedSplit(from, s, null, k);
    LinkedSplit(from, s, null, k + 1);
    assert s[k + 1..][1..] == s[k + 2..];
  }

  lemma {:induction false} LinkedDetermines(from: Event?, a: seq<Event>, b: seq<Event>)
    requires Linked(from, a, null) && Linked(from, b, null)
    ensures a == b
  {
    if a != [] && b != [] { LinkedDetermines(a[0].next, a[1..], b[1..]); }
  }

  // eventPool and eventTsPool.
  class FreeList {
    var head: Event?
    ghost var nodes: seq<Event>

    ghost predicate Valid()
      reads this, nodes
    {
      Linked(head, nodes, null) && AllIn(nodes, this)
    }

    constructor ()
      ensures Valid() && nodes == []
    {
      head, nodes := null, [];
    }

    method Push(ev: Event)
      requires Valid() && ev.home == null
      modifies this, ev`next, ev`home
      ensures Valid() && nodes == [ev] + old(nodes)
    {
      ev.next := head;
      head := ev;
      ev.home := this;
      nodes := [ev] + nodes;
      assert nodes[1..] == old(nodes);
    }

    // GetNewEvent and GetNewTsEvent.
    method Get() returns (ev: Event)
      requires Valid()
      modifies this, nodes`home
      ensures Valid() && ev.home == null
      ensures if old(nodes) == [] then fresh(ev) && nodes == [] else [ev] + nodes == old(nodes)
    {
      if head == null {
        ev := new Event();
      } else {
        ev := Pop();
      }
    }

    method Pop() returns (ev: Event)
      requires Valid() && head != null
      modifies this, head`home
      ensures Valid() && [ev] + nodes == old(nodes) && ev == old(head) && ev.home == null
    {
      LinkedIsAcyclic(head, nodes);
      ev := head;
      head := ev.next;
      nodes := nodes[1..];
      ev.home := null;
    }
  }

  // The main queue behind `first`, or, with a tail pointer, the queue behind tsFirst and tsLast.
  class EventList {
    const hasTail: bool
    var first: Event?
    var last: Event?
    ghost var nodes: seq<Event>
    ghost var events: seq<Ev>

    ghost predicate Tail()
      reads this
    {
      hasTail ==> last == if nodes == [] then null else nodes[|nodes| - 1]
    }

    ghost predicate Valid()
      reads this, nodes
    {
      Linked(first, nodes, null) && AllIn(nodes, this) && Carries(nodes, events)
    }

    ghost predicate Ordered()
      reads this
    {
      Sorted(events)
    }

    constructor (hasTail: bool)
      ensures Valid() && Tail() && nodes == [] && this.hasTail == hasTail
    {
      this.hasTail := hasTail;
      first, last, nodes, events := null, null, [], [];
    }

    // Links ne, whose next is already set, in behind prev (in front of everything for null).
    method SpliceAfter(prev: Event?, ne: Event, ghost k: nat)
      requires Valid() && k <= |nodes| && ne.home == null
      requires prev == (if k == 0 then null else nodes[k - 1])
      requires ne.next == (if k < |nodes| then nodes[k] else null)
      modifies this`first, this`nodes, this`events, nodes`next, ne`home
      ensures Valid() && nodes == old(nodes)[..k] + [ne] + old(nodes)[k..]
      ensures events == old(events)[..k] + [ne.base] + old(events)[k..]
    {
      ghost var s := nodes;
      SpliceFacts(first, s, events, k, ne, this);
      ne.home := this;
      if prev == null {
        first := ne;
      } else {
        prev.next := ne;
        LinkedSnoc(first, s[..k - 1], prev);
      }
      LinkedThrough(first, s[..k], ne, s[k..]);
      nodes, events := s[..k] + [ne] + s[k..], events[..k] + [ne.base] + events[k..];
    }

    // Overwrites the payload of the k-th node.
    method SetBase(node: Event, base: Ev, ghost k: nat)
      requires Valid() && k < |nodes| && node == nodes[k]
      modifies this`events, node`base
      ensures Valid() && events == old(events)[k := base]
    {
      LinkedIsAcyclic(first, nodes);
      node.base := base;
      events := events[k := base];
    }

    // Cuts the list off behind prev, the node before the k-th (at the head for null).
    method Truncate(prev: Event?, ghost k: nat) returns (rest: Event?)
      requires Valid() && k <= |nodes| && prev == if k == 0 then null else nodes[k - 1]
      modifies this`first, this`nodes, this`events, nodes`next, nodes`home
      ensures Valid() && nodes == old(nodes)[..k] && events == old(events)[..k]
      ensures Linked(rest, old(nodes)[k..], null) && forall n :: n in old(nodes)[k..] ==> n.home == null
      ensures forall n :: n in old(nodes) ==> (n in nodes <==> n !in old(nodes)[k..])
    {
      ghost var s, t := nodes, nodes[k..];
      TruncateFacts(first, s, k);
      if prev == null {
        rest := first;
        first := null;
      } else {
        rest := prev.next;
        prev.next := null;
        LinkedSnoc(first, s[..k - 1], prev);
      }
      forall n | n in t { n.home := null; }
      assert s == s[..k] + t;
      nodes, events := s[..k], events[..k];
    }

    // The walk of AddEventToQueue: past every event that is not later.
    method FindSlot(time: int) returns (prev: Event?, next: Event?, ghost k: nat)
      requires Valid()
      ensures k <= |nodes| && prev == (if k == 0 then null else nodes[k - 1])
      ensures next == if k < |nodes| then nodes[k] else null
      ensures forall i :: 0 <= i < k ==> events[i].time <= time
      ensures k < |nodes| ==> time < events[k].time
    {
      prev, next, k := null, first, 0;
      assert nodes[0..] == nodes;
      while next != null && time >= next.base.time
        invariant k <= |nodes|
        invariant prev == if k == 0 then null else nodes[k - 1]
        invariant Linked(next, nodes[k..], null)
        invariant forall i :: 0 <= i < k ==> events[i].time <= time
        decreases |nodes| - k
      {
        assert nodes[k..][1..] == nodes[k + 1..];
        prev := next;
        next := next.next;
        k := k + 1;
      }
    }

    // AddEventToQueue.
    method Add(ne: Event)
      requires Valid() && !hasTail && ne.home == null
      modifies this, nodes`next, ne`next, ne`home
      ensures Valid() && events == Insert(old(events), ne.base) && (old(Ordered()) ==> Ordered())
      ensures forall n :: n in nodes <==> n == ne || n in old(nodes)
    {
      var prev, next;
      ghost var k;
      prev, next, k := FindSlot(ne.base.time);
      assert ne !in nodes;
      ne.next := next;
      InsertAt(events, ne.base, k);
      if Sorted(events) { InsertSorted(events, ne.base); }
      assert nodes == nodes[..k] + nodes[k..];
      SpliceAfter(prev, ne, k);
    }

    // IsScheduled.
    method HasKind(kind: int) returns (found: bool)
      requires Valid()
      ensures found <==> exists e :: e in events && e.kind == kind
    {
      var e := first;
      ghost var k := 0;
      assert nodes[0..] == nodes;
      while e != null
        invariant 0 <= k <= |nodes| && Linked(e, nodes[k..], null)
        invariant forall i :: 0 <= i < k ==> events[i].kind != kind
        decreases |nodes| - k
      {
        assert e.base == events[k] && nodes[k..][1..] == nodes[k + 1..];
        if e.base.kind == kind { return true; }
        e := e.next;
        k := k + 1;
      }
      return false;
    }

    // The tail of ScheduleEvent_Threadsafe: behind tsLast, or first when there is none.
    method Append(ne: Event)
      requires Valid() && Tail() && hasTail && ne.home == null
      modifies this, nodes`next, ne`next, ne`home
      ensures Valid() && Tail() && nodes == old(nodes) + [ne] && events == old(events) + [ne.base]
    {
      ne.next := null;
      assert nodes[..|nodes|] == nodes && events[..|events|] == events;
      SpliceAfter(last, ne, |nodes|);
      last := ne;
    }

    method UnlinkHead() returns (ev: Event)
      requires Valid() && first != null
      modifies this`first, this`nodes, this`events, first`home
      ensures Valid() && ev == old(nodes)[0] && ev.home == null && ev.base == old(events)[0]
      ensures nodes == old(nodes)[1..] && events == old(events)[1..]
    {
      LinkedIsAcyclic(first, nodes);
      ev := first;
      first := ev.next;
      ev.home := null;
      nodes, events := nodes[1..], events[1..];
    }

    // Takes the head out for good.
    method Pop() returns (ev: Event)
      requires Valid() && Tail() && first != null
      modifies this, first`home
      ensures Valid() && Tail() && ev.home == null && ev.base == old(events)[0]
      ensures [ev] + nodes == old(nodes) && events == old(events)[1..]
    {
      ev := UnlinkHead();
      if first == null { last := null; }
    }

    // prev->next = ptr->next, and tsLast = prev if that was the last; prev is the k-th node.
    method UnlinkAfter(prev: Event, ghost k: nat) returns (ev: Event)
      requires Valid() && Tail() && k + 1 < |nodes| && prev == nodes[k] && prev.next != null
      modifies this, prev`next, prev.next`home
      ensures Valid() && Tail() && ev == old(nodes)[k + 1] && ev.home == null && ev.base == old(events)[k + 1]
      ensures nodes == old(nodes)[..k + 1] + old(nodes)[k + 2..]
      ensures events == old(events)[..k + 1] + old(events)[k + 2..]
      ensures prev.next == old(ev.next)
    {
      ghost var s := nodes;
      ghost var t := s[..k + 1] + s[k + 2..];
      CutFacts(first, s, events, k, this);
      ev := prev.next;
      if hasTail && ev == last { last := prev; }
      prev.next := ev.next;
      ev.home := null;
      LinkedThrough(first, s[..k], prev, s[k + 2..]);
      nodes, events := t, events[..k + 1] + events[k + 2..];
    }

    // Frees the head of this list.
    method FreeHead(freed: FreeList)
      requires Valid() && freed.Valid() && first != null
      modifies this`first, this`nodes, this`events, freed, first
      ensures Valid() && freed.Valid()
      ensures nodes == old(nodes)[1..] && events == old(events)[1..]
      ensures SameNodes(nodes, freed.nodes, old(nodes), old(freed.nodes))
    {
      assert nodes == [nodes[0]] + nodes[1..];
      var ev := UnlinkHead();
      freed.Push(ev);
    }

    // Frees the successor of prev, the k-th node.
    method FreeAfter(prev: Event, freed: FreeList, ghost k: nat)
      requires Valid() && Tail() && freed.Valid() && k + 1 < |nodes| && prev == nodes[k] && prev.next != null
      modifies this, freed, prev`next, prev.next
      ensures Valid() && Tail() && freed.Valid()
      ensures nodes == old(nodes)[..k + 1] + old(nodes)[k + 2..]
      ensures events == old(events)[..k + 1] + old(events)[k + 2..]
      ensures SameNodes(nodes, freed.nodes, old(nodes), old(freed.nodes))
      ensures prev.next == old(prev.next.next)
    {
      assert nodes == nodes[..k + 1] + [nodes[k + 1]] + nodes[k + 2..];
      LinkedAt(first, nodes, k);
      assert prev.home == this && prev !in freed.nodes;
      var ev := UnlinkAfter(prev, k);
      freed.Push(ev);
    }

    // How far a removal has come: all[..m] is done with, j events of it stay.
    ghost predicate Progress(all: seq<Ev>, m: nat, j: nat, sel: Selector, now: int, result: int)
      reads this
    {
      && m <= |all| && events == Without(all[..m], sel) + all[m..] && j == |Without(all[..m], sel)|
      && var p := LastPicked(all[..m], sel); result == if p.0 then p.1 - now else 0
    }

    // Where the second removal loop stands: ptr is the node behind prev, the k-th one.
    ghost predicate At(prev: Event, ptr: Event?, k: nat)
      reads this
    {
      k < |nodes| && prev == nodes[k] && ptr == if k + 1 < |nodes| then nodes[k + 1] else null
    }

    method HeadStep(sel: Selector, now: int, freed: FreeList, ghost all: seq<Ev>, ghost m: nat, ghost r0: int)
      returns (result: int)
      requires Valid() && Tail() && freed.Valid() && first != null && sel.Picks(first.base)
      requires Progress(all, m, 0, sel, now, r0) == true
      modifies this, freed, first
      ensures Valid() == true && freed.Valid() == true && nodes == old(nodes)[1..] && (nodes != [] ==> Tail())
      ensures Progress(all, m + 1, 0, sel, now, result) == true
      ensures SameNodes(nodes, freed.nodes, old(nodes), old(freed.nodes))
    {
      assert events[0] == all[m];
      RemovalStep(all, m, sel);
      result := first.base.time - now;
      FreeHead(freed);
    }

    // The first loop of RemoveEvent and UnscheduleEvent: strip the head.
    method RemoveHeads(sel: Selector, now: int, freed: FreeList) returns (result: int, count: nat, ghost m: nat)
      requires Valid() && Tail() && freed.Valid()
      modifies this, nodes, freed
      ensures Valid() && freed.Valid() && (nodes != [] ==> Tail())
      ensures Progress(old(events), m, 0, sel, now, result) == true
      ensures count == m <= |old(nodes)| && nodes == old(nodes)[m..]
      ensures SameNodes(nodes, freed.nodes, old(nodes), old(freed.nodes))
      ensures first != null ==> !sel.Picks(first.base)
    {
      result, count, m := 0, 0, 0;
      ghost var all := events;
      assert all[0..] == all;
      while first != null && sel.Picks(first.base)
        invariant Valid() == true && freed.Valid() == true && (nodes != [] ==> Tail())
        invariant Progress(all, m, 0, sel, now, result) == true
        invariant count == m <= |old(nodes)| && nodes == old(nodes)[m..]
        invariant SameNodes(nodes, freed.nodes, old(nodes), old(freed.nodes))
        decreases |nodes|
      {
        assert first in nodes;
        result := HeadStep(sel, now, freed, all, m, result);
        count, m := count + 1, m + 1;
      }
    }

    // It meets an event that stays.
    lemma KeepAfter(sel: Selector, now: int, prev: Event, all: seq<Ev>, m: nat, k: nat, r0: int)
      requires Valid() && At(prev, prev.next, k) && prev.next != null && !sel.Picks(prev.next.base)
      requires Progress(all, m, k + 1, sel, now, r0)
      ensures At(prev.next, prev.next.next, k + 1)
      ensures m < |all| && Progress(all, m + 1, k + 2, sel, now, r0)
    {
      assert events[k + 1] == all[m];
      RemovalStep(all, m, sel);
      LinkedAt(first, nodes, k + 1);
    }

    // The second loop meets a selected event behind prev.
    method DropAfter(sel: Selector, now: int, freed: FreeList, prev: Event, ghost all: seq<Ev>, ghost m: nat,
                     ghost k: nat, ghost r0: int)
      returns (result: int)
      requires Valid() && Tail() && freed.Valid() && At(prev, prev.next, k) && prev.next != null
          && sel.Picks(prev.next.base)
      requires Progress(all, m, k + 1, sel, now, r0)
      modifies this, freed, prev`next, prev.next
      ensures Valid() && Tail() && freed.Valid() && At(prev, prev.next, k) && |nodes| == |old(nodes)| - 1
      ensures m < |all| && Progress(all, m + 1, k + 1, sel, now, result)
      ensures forall n :: n in nodes ==> n in old(nodes)
      ensures SameNodes(nodes, freed.nodes, old(nodes), old(freed.nodes))
    {
      assert events[k + 1] == all[m];
      RemovalStep(all, m, sel);
      LinkedAt(first, nodes, k + 1);
      result := prev.next.base.time - now;
      FreeAfter(prev, freed, k);
    }

    // One turn of the second loop.
    method RestTurn(sel: Selector, now: int, freed: FreeList, prev: Event, ghost all: seq<Ev>, ghost m: nat,
                    ghost k: nat, r0: int)
      returns (prev': Event, result: int, dropped: bool, ghost k': nat)
      requires Valid() && Tail() && freed.Valid() && At(prev, prev.next, k) && prev.next != null
      requires Progress(all, m, k + 1, sel, now, r0) == true
      modifies this, freed, prev`next, prev.next
      ensures Valid() == true && Tail() && freed.Valid() == true && At(prev', prev'.next, k') == true
      ensures |nodes| == |old(nodes)| - (if dropped then 1 else 0) && |nodes| - k' < |old(nodes)| - k
      ensures m < |all| && Progress(all, m + 1, k' + 1, sel, now, result) == true
      ensures forall n :: n in nodes ==> n in old(nodes)
      ensures SameNodes(nodes, freed.nodes, old(nodes), old(freed.nodes))
    {
      dropped := sel.Picks(prev.next.base);
      if dropped {
        result := DropAfter(sel, now, freed, prev, all, m, k, r0);
        prev', k' := prev, k;
      } else {
        KeepAfter(sel, now, prev, all, m, k, r0);
        prev', result, k' := prev.next, r0, k + 1;
      }
    }

    // Their second loop starts behind a head that stays.
    lemma RestStarts(sel: Selector, now: int, all: seq<Ev>, m: nat, result: int)
      requires Valid() && first != null && !sel.Picks(first.base) && Progress(all, m, 0, sel, now, result)
      ensures At(first, first.next, 0) && m < |all| && Progress(all, m + 1, 1, sel, now, result) == true
    {
      RemovalStep(all, m, sel);
      LinkedAt(first, nodes, 0);
    }

    // And ends behind the last node.
    lemma RestEnds(sel: Selector, now: int, prev: Event, all: seq<Ev>, m: nat, k: nat, result: int)
      requires Valid() && At(prev, null, k) && Progress(all, m, k + 1, sel, now, result) == true
      ensures Progress(all, |all|, |events|, sel, now, result) == true
    {
      assert |events| == |nodes| == k + 1;
      assert m == |all|;
    }

    // Their second loop, with a head that stays.
    method RemoveRest(sel: Selector, now: int, freed: FreeList, result0: int, ghost all: seq<Ev>, ghost m0: nat)
      returns (result: int, count: nat)
      requires Valid() && Tail() && freed.Valid() && first != null && !sel.Picks(first.base)
      requires Progress(all, m0, 0, sel, now, result0)
      modifies this, nodes, freed
      ensures Valid() && Tail() && freed.Valid()
      ensures Progress(all, |all|, |events|, sel, now, result) == true && count == |old(nodes)| - |nodes|
      ensures SameNodes(nodes, freed.nodes, old(nodes), old(freed.nodes))
    {
      result, count := result0, 0;
      var prev: Event := first;
      ghost var k: nat, m: nat := 0, m0 + 1;
      RestStarts(sel, now, all, m0, result);
      while prev.next != null
        invariant Valid() == true && Tail() && freed.Valid() == true && At(prev, prev.next, k) == true
        invariant Progress(all, m, k + 1, sel, now, result) == true
        invariant (forall n :: n in nodes ==> n in old(nodes)) && count == |old(nodes)| - |nodes|
        invariant SameNodes(nodes, freed.nodes, old(nodes), old(freed.nodes))
        decreases |nodes| - k
      {
        assert prev in nodes && prev.next in nodes;
        var dropped;
        prev, result, dropped, k := RestTurn(sel, now, freed, prev, all, m, k, result);
        m := m + 1;
        if dropped { count := count + 1; }
      }
      RestEnds(sel, now, prev, all, m, k, result);
    }

    // RemoveEvent and UnscheduleEvent; with a tail pointer, their thread-safe twins.
    method Remove(sel: Selector, now: int, freed: FreeList) returns (result: int, count: nat)
      requires Valid() && Tail() && freed.Valid()
      modifies this, nodes, freed
      ensures Valid() && Tail() && freed.Valid()
      ensures events == Without(old(events), sel) && count == |old(nodes)| - |nodes|
      ensures var p := LastPicked(old(events), sel); result == if p.0 then p.1 - now else 0
      ensures SameNodes(nodes, freed.nodes, old(nodes), old(freed.nodes))
    {
      ghost var all, m := events, 0;
      result, count, m := RemoveHeads(sel, now, freed);
      if first == null {
        last := null;
      } else {
        var c;
        result, c := RemoveRest(sel, now, freed, result, all, m);
        count := count + c;
      }
      assert all[..|all|] == all;
    }
  }
}
