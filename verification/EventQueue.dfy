/** The time-ordered event queue of Core/CoreTiming.cpp, seen as a sequence.

    `Insert` is the walk of AddEventToQueue and `InsertAll` is the drain loop of MoveEvents.
    What the scheduler is for is stated independently of either: a queue is a *stable ordering*
    of a sequence of arrivals when it is sorted by time and, for every time, holds the arrivals
    of that time in arrival order.  Such an ordering is unique (`StableOrderUnique`). */
module EventQueue {

  // BaseEvent: the payload of a list node.
  datatype Ev = Ev(time: int, userdata: int, kind: int)

  ghost predicate Sorted(q: seq<Ev>) {
    forall i, j :: 0 <= i < j < |q| ==> q[i].time <= q[j].time
  }

  // The events of one time, in the order in which they stand.
  ghost function AtTime(q: seq<Ev>, t: int): seq<Ev> {
    if q == [] then [] else if q[0].time == t then [q[0]] + AtTime(q[1..], t) else AtTime(q[1..], t)
  }

  ghost predicate StableOrderOf(q: seq<Ev>, arrivals: seq<Ev>) {
    Sorted(q) && forall t :: AtTime(q, t) == AtTime(arrivals, t)
  }

  // AddEventToQueue: walk past every event whose time is not greater.
  function Insert(q: seq<Ev>, e: Ev): seq<Ev> {
    if q == [] || e.time < q[0].time then [e] + q else [q[0]] + Insert(q[1..], e)
  }

  // The drain loop of MoveEvents.
  function InsertAll(q: seq<Ev>, s: seq<Ev>): seq<Ev>
    decreases s
  {
    if s == [] then q else InsertAll(Insert(q, s[0]), s[1..])
  }

  lemma {:induction false} AtTimeConcat(a: seq<Ev>, b: seq<Ev>, t: int)
    ensures AtTime(a + b, t) == AtTime(a, t) + AtTime(b, t)
  {
    if a == [] {
      assert a + b == b;
    } else {
      AtTimeConcat(a[1..], b, t);
      assert (a + b)[1..] == a[1..] + b;
    }
  }

  lemma {:induction false} AtTimeEmpty(q: seq<Ev>, t: int)
    requires forall i :: 0 <= i < |q| ==> q[i].time != t
    ensures AtTime(q, t) == []
  {
    if q != [] { AtTimeEmpty(q[1..], t); }
  }

  // Where Insert puts its event: after the last event that is not later.
  lemma {:induction false} InsertSplits(q: seq<Ev>, e: Ev) returns (k: nat)
    ensures k <= |q| && Insert(q, e) == q[..k] + [e] + q[k..]
    ensures forall i :: 0 <= i < k ==> q[i].time <= e.time
    ensures k < |q| ==> e.time < q[k].time
  {
    if q == [] || e.time < q[0].time {
      k := 0;
    } else {
      k := InsertSplits(q[1..], e);
      k := k + 1;
      assert q[..k] == [q[0]] + q[1..][..k - 1];
      assert q[k..] == q[1..][k - 1..];
    }
  }

  lemma {:induction false} InsertAt(q: seq<Ev>, e: Ev, k: nat)
    requires k <= |q| && (forall i :: 0 <= i < k ==> q[i].time <= e.time) && (k < |q| ==> e.time < q[k].time)
    ensures Insert(q, e) == q[..k] + [e] + q[k..]
  {
    if k > 0 {
      InsertAt(q[1..], e, k - 1);
      assert q[..k] == [q[0]] + q[1..][..k - 1] && q[k..] == q[1..][k - 1..];
    }
  }

  lemma InsertSorted(q: seq<Ev>, e: Ev)
    requires Sorted(q)
    ensures Sorted(Insert(q, e))
  {
    var k := InsertSplits(q, e);
  }

  // Insertion keeps the order, and puts the new event last among those of its own time.
  lemma InsertStable(q: seq<Ev>, e: Ev)
    requires Sorted(q)
    ensures Sorted(Insert(q, e))
    ensures forall t :: AtTime(Insert(q, e), t) == AtTime(q, t) + if e.time == t then [e] else []
  {
    InsertSorted(q, e);
    var k := InsertSplits(q, e);
    forall t ensures AtTime(Insert(q, e), t) == AtTime(q, t) + if e.time == t then [e] else [] {
      AtTimeAround(q, e, k, t);
    }
  }

  lemma {:induction false} AtTimeAround(q: seq<Ev>, e: Ev, k: nat, t: int)
    requires k <= |q| && forall i :: k <= i < |q| ==> e.time < q[i].time
    ensures AtTime(q[..k] + [e] + q[k..], t) == AtTime(q, t) + if e.time == t then [e] else []
  {
    AtTimeConcat(q[..k] + [e], q[k..], t);
    AtTimeConcat(q[..k], [e], t);
    AtTimeConcat(q[..k], q[k..], t);
    assert q == q[..k] + q[k..];
    assert AtTime([e][1..], t) == [];
    if e.time == t { AtTimeEmpty(q[k..], t); }
  }

  // MoveEvents merges the arrivals behind everything already queued for the same time.
  lemma {:induction false} InsertAllStable(q: seq<Ev>, s: seq<Ev>)
    requires Sorted(q)
    ensures StableOrderOf(InsertAll(q, s), q + s)
    decreases s
  {
    if s == [] {
      assert q + s == q;
    } else {
      InsertStable(q, s[0]);
      var q' := Insert(q, s[0]);
      InsertAllStable(q', s[1..]);
      forall t ensures AtTime(InsertAll(q, s), t) == AtTime(q + s, t) {
        AtTimeConcat(q', s[1..], t);
        AtTimeConcat(q, s, t);
      }
    }
  }

  lemma {:induction false} AtTimeHead(q: seq<Ev>, t: int)
    requires AtTime(q, t) != []
    ensures exists i :: 0 <= i < |q| && q[i].time == t
  {
    if q[0].time != t {
      AtTimeHead(q[1..], t);
      var i :| 0 <= i < |q[1..]| && q[1..][i].time == t;
      assert q[i + 1].time == t;
    }
  }

  // A stable ordering of given arrivals is unique, so every two implementations of the
  // priority queue agree on the whole firing order.
  lemma {:induction false} StableOrderUnique(p: seq<Ev>, q: seq<Ev>)
    requires Sorted(p) && Sorted(q)
    requires forall t :: AtTime(p, t) == AtTime(q, t)
    ensures p == q
  {
    var t0 := if p != [] then p[0].time else if q != [] then q[0].time else 0;
    assert AtTime(p, t0) == AtTime(q, t0);
    if p != [] && q != [] {
      AtTimeHead(q, t0);
      AtTimeHead(p, q[0].time);
      assert q[0].time == t0;
      assert AtTime(p, t0)[0] == p[0] && AtTime(q, t0)[0] == q[0];
      forall t ensures AtTime(p[1..], t) == AtTime(q[1..], t) {
        var head := if t == t0 then [p[0]] else [];
        assert AtTime(p, t) == head + AtTime(p[1..], t) && AtTime(q, t) == head + AtTime(q[1..], t);
        assert AtTime(p, t)[|head|..] == AtTime(p[1..], t);
      }
      StableOrderUnique(p[1..], q[1..]);
    }
  }

  // The selectors of the four removal loops: by kind (RemoveEvent, RemoveThreadsafeEvent) or
  // by kind and user data (UnscheduleEvent, UnscheduleThreadsafeEvent).
  datatype Selector = ByKind(kind: int) | ByKindAndData(kind: int, userdata: int) {
    predicate Picks(e: Ev) {
      e.kind == kind && (ByKindAndData? ==> e.userdata == userdata)
    }
  }

  function Without(q: seq<Ev>, sel: Selector): seq<Ev> {
    if q == [] then [] else if sel.Picks(q[0]) then Without(q[1..], sel) else [q[0]] + Without(q[1..], sel)
  }

  // The time of the last selected event, which is what the removal loops report.
  function LastPicked(q: seq<Ev>, sel: Selector): (r: (bool, int)) {
    if q == [] then (false, 0)
    else
      var r := LastPicked(q[1..], sel);
      if r.0 then r else if sel.Picks(q[0]) then (true, q[0].time) else (false, 0)
  }

  lemma {:induction false} WithoutConcat(a: seq<Ev>, b: seq<Ev>, sel: Selector)
    ensures Without(a + b, sel) == Without(a, sel) + Without(b, sel)
  {
    if a == [] {
      assert a + b == b;
    } else {
      WithoutConcat(a[1..], b, sel);
      assert (a + b)[1..] == a[1..] + b && (a + b)[0] == a[0];
      var x, y := Without(a[1..], sel), Without(b, sel);
      assert [a[0]] + (x + y) == [a[0]] + x + y;
    }
  }

  lemma {:induction false} LastPickedSnoc(a: seq<Ev>, e: Ev, sel: Selector)
    ensures LastPicked(a + [e], sel) == if sel.Picks(e) then (true, e.time) else LastPicked(a, sel)
  {
    if a == [] {
      assert LastPicked([e][1..], sel) == (false, 0);
    } else {
      LastPickedSnoc(a[1..], e, sel);
      assert (a + [e])[1..] == a[1..] + [e];
    }
  }

  // One event of a removal loop that has dealt with all[..m].
  lemma RemovalStep(all: seq<Ev>, m: nat, sel: Selector)
    requires m < |all|
    ensures Without(all[..m + 1], sel) == Without(all[..m], sel) + if sel.Picks(all[m]) then [] else [all[m]]
    ensures LastPicked(all[..m + 1], sel) == if sel.Picks(all[m]) then (true, all[m].time)
        else LastPicked(all[..m], sel)
  {
    assert all[..m + 1] == all[..m] + [all[m]];
    WithoutConcat(all[..m], [all[m]], sel);
    LastPickedSnoc(all[..m], all[m], sel);
    assert Without([all[m]][1..], sel) == [];
  }

  lemma {:induction false} WithoutElements(q: seq<Ev>, sel: Selector)
    ensures forall e :: e in Without(q, sel) <==> e in q && !sel.Picks(e)
  {
    if q != [] {
      WithoutElements(q[1..], sel);
      assert q == [q[0]] + q[1..];
    }
  }

  lemma {:induction false} WithoutSorted(q: seq<Ev>, sel: Selector)
    requires Sorted(q)
    ensures Sorted(Without(q, sel))
  {
    if q != [] {
      WithoutSorted(q[1..], sel);
      WithoutElements(q[1..], sel);
      assert forall e :: e in Without(q[1..], sel) ==> q[0].time <= e.time;
    }
  }

  lemma {:induction false} WithoutAtTime(q: seq<Ev>, sel: Selector, t: int)
    ensures AtTime(Without(q, sel), t) == Without(AtTime(q, t), sel)
  {
    if q != [] {
      WithoutAtTime(q[1..], sel, t);
      AtTimeConcat(if sel.Picks(q[0]) then [] else [q[0]], Without(q[1..], sel), t);
      WithoutConcat(if q[0].time == t then [q[0]] else [], AtTime(q[1..], t), sel);
    }
  }

  // Removal keeps the order of what stays and takes every selected event.
  lemma WithoutStable(q: seq<Ev>, sel: Selector)
    requires Sorted(q)
    ensures Sorted(Without(q, sel))
    ensures forall e :: e in Without(q, sel) <==> e in q && !sel.Picks(e)
    ensures forall t :: AtTime(Without(q, sel), t) == Without(AtTime(q, t), sel)
  {
    WithoutSorted(q, sel);
    WithoutElements(q, sel);
    forall t ensures AtTime(Without(q, sel), t) == Without(AtTime(q, t), sel) { WithoutAtTime(q, sel, t); }
  }
}
