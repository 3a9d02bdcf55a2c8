/** PointerWrap::DoLinkedList of Common/ChunkFile.h, as Core/CoreTiming.cpp uses it for its two
    event lists: the template is instantiated with GetNewEvent, FreeEvent and Event_DoState. */
module LinkedListState {
  import opened ByteOrder
  import opened SaveFormat
  import opened ChunkFile
  import opened SaveStates
  import opened SaveSafety
  import opened PointerWraps
  import opened EventQueue
  import opened EventLists
  import opened EventStores

  const TWO_64 := 0x1_0000_0000_0000_0000

  function U64(x: int): (r: seq<Byte>)
    ensures |r| == 8
  {
    Le(x % TWO_64, 8)
  }

  function ToS64(b: seq<Byte>): int {
    if Number(b) < TWO_64 / 2 then Number(b) else Number(b) - TWO_64
  }

  // The ranges of s64 time, u64 userdata and int type.
  predicate InRange(e: Ev) {
    -TWO_64 / 2 <= e.time < TWO_64 / 2 && 0 <= e.userdata < TWO_64 && -0x8000_0000 <= e.kind < 0x8000_0000
  }

  function EventBytes(e: Ev): seq<Byte> { U64(e.time) + (U64(e.userdata) + U32(e.kind)) }

  lemma U64RoundTrip(x: int)
    ensures 0 <= x < TWO_64 ==> Number(U64(x)) == x
    ensures -TWO_64 / 2 <= x < TWO_64 / 2 ==> ToS64(U64(x)) == x
  {
    Limits();
    LeNumber(x % TWO_64, 8);
  }

  // sizeof(BaseEvent) is 24.
  const PADDING: seq<Byte> := [0, 0, 0, 0]

  function EventOf(b: seq<Byte>): Ev
    requires |b| == 24
  {
    Ev(ToS64(b[..8]), Number(b[8..16]), ToS32(b[16..20]))
  }

  // Event_DoState, and before version 3 of the section Event_DoStateOld: the struct, padding and
  // all.
  function DoEvent(p: Wrap, e: Ev, since: int): (r: (Ev, Wrap))
    ensures r.1.mode == p.mode && r.1.error == p.error && |r.1.mem| == |p.mem| && r.1.ptr >= p.ptr + 20
  {
    if since >= 3 then
      var (t, p1) := DoVoid(p, U64(e.time));
      var (u, p2) := DoVoid(p1, U64(e.userdata));
      var (k, p3) := DoVoid(p2, U32(e.kind));
      (if p.mode == READ then Ev(ToS64(t), Number(u), ToS32(k)) else e, p3)
    else
      var (b, q) := DoVoid(p, EventBytes(e) + PADDING);
      (if p.mode == READ then EventOf(b) else e, q)
  }

  // What an event read into a new node starts from.
  const BLANK := Ev(0, 0, 0)

  // The traversal over what is left of the list, cur: what it becomes, and the wrapper behind.
  function DoList(cur: seq<Ev>, p: Wrap, since: int): (r: (seq<Ev>, Wrap))
    decreases |cur|, if |p.mem| >= p.ptr then |p.mem| - p.ptr + 1 else 0
  {
    var (b, q) := DoVoid(p, [if cur != [] then 1 else 0]);
    if b == [1] then
      var (e, q1) := DoEvent(q, if cur != [] then cur[0] else BLANK, since);
      var (rest, q2) := DoList(if cur != [] then cur[1..] else [], q1, since);
      ([e] + rest, q2)
    else
      var q1 := if b != [0] then SetError(q, ERROR_FAILURE) else q;
      (if q1.mode == READ then [] else cur, q1)
  }

  // What stands behind each event of a saved list: nothing, and before version 3 the padding,
  // whatever it held.
  ghost predicate Pads(pads: seq<seq<Byte>>, n: nat, since: int) {
    |pads| == n && forall i :: 0 <= i < n ==> |pads[i]| == if since >= 3 then 0 else 4
  }

  // The bytes of a saved list.
  function EncodeList(evs: seq<Ev>, pads: seq<seq<Byte>>): seq<Byte>
    requires |pads| == |evs|
  {
    if evs == [] then [0] else [1] + (EventBytes(evs[0]) + pads[0] + EncodeList(evs[1..], pads[1..]))
  }

  lemma EventTakes(p: Wrap, e: Ev, x: Ev, pad: seq<Byte>, since: int)
    requires InRange(e) && Takes(p, EventBytes(e) + pad) && |pad| == if since >= 3 then 0 else 4
    requires p.mode != READ ==> x == e && since >= 3
    ensures DoEvent(p, x, since) == (e, After(p, EventBytes(e) + pad))
  {
    if since >= 3 {
      assert EventBytes(e) + pad == EventBytes(e);
      NewEventTakes(p, e, x);
    } else {
      VoidTakes(p, EventBytes(e) + pad, EventBytes(x) + PADDING);
      OldEventReads(e, pad);
    }
  }

  lemma NewEventTakes(p: Wrap, e: Ev, x: Ev)
    requires InRange(e) && Takes(p, EventBytes(e)) && (p.mode != READ ==> x == e)
    ensures DoEvent(p, x, 3) == (e, After(p, EventBytes(e)))
  {
    var a, b, c := U64(e.time), U64(e.userdata), U32(e.kind);
    TakesConcat(p, a, b + c);
    TakesConcat(After(p, a), b, c);
    VoidTakes(p, a, U64(x.time));
    VoidTakes(After(p, a), b, U64(x.userdata));
    VoidTakes(After(After(p, a), b), c, U32(x.kind));
    U64RoundTrip(e.time);
    U64RoundTrip(e.userdata);
    U32RoundTrip(e.kind);
  }

  lemma OldEventReads(e: Ev, pad: seq<Byte>)
    requires InRange(e) && |pad| == 4
    ensures EventOf(EventBytes(e) + pad) == e
  {
    var b := EventBytes(e) + pad;
    assert b[..8] == U64(e.time) && b[8..16] == U64(e.userdata) && b[16..20] == U32(e.kind);
    U64RoundTrip(e.time);
    U64RoundTrip(e.userdata);
    U32RoundTrip(e.kind);
  }

  // Over the bytes of a saved list every mode yields that list, whatever list was there before
  // it was read: shorter, longer or empty.  Lists of the older versions are only read.
  lemma {:induction false} ListTraverse(saved: seq<Ev>, pads: seq<seq<Byte>>, cur: seq<Ev>, p: Wrap, since: int)
    requires (forall i :: 0 <= i < |saved| ==> InRange(saved[i])) && Pads(pads, |saved|, since)
    requires (p.mode != READ ==> cur == saved && since >= 3) && Takes(p, EncodeList(saved, pads))
    ensures DoList(cur, p, since) == (saved, After(p, EncodeList(saved, pads)))
    decreases saved
  {
    if saved == [] {
      VoidTakes(p, [0], [if cur != [] then 1 else 0]);
    } else {
      var e, rest := EventBytes(saved[0]) + pads[0], EncodeList(saved[1..], pads[1..]);
      TakesConcat(p, [1], e + rest);
      TakesConcat(After(p, [1]), e, rest);
      VoidTakes(p, [1], [if cur != [] then 1 else 0]);
      EventTakes(After(p, [1]), saved[0], if cur != [] then cur[0] else BLANK, pads[0], since);
      ListTraverse(saved[1..], pads[1..], if cur != [] then cur[1..] else [], After(After(p, [1]), e), since);
      Rejoined(saved);
    }
  }

  lemma Rejoined(s: seq<Ev>)
    requires s != []
    ensures [s[0]] + s[1..] == s
  {}

  // No list lowers the error, or changes the mode other than to MEASURE by failing.
  lemma {:induction false} ListErrorNeverLowers(cur: seq<Ev>, p: Wrap, since: int)
    ensures Worse(p, DoList(cur, p, since).1)
    decreases |cur|, if |p.mem| >= p.ptr then |p.mem| - p.ptr + 1 else 0
  {
    var (b, q) := DoVoid(p, [if cur != [] then 1 else 0]);
    if b == [1] {
      var q1 := DoEvent(q, if cur != [] then cur[0] else BLANK, since).1;
      ListErrorNeverLowers(if cur != [] then cur[1..] else [], q1, since);
    }
  }

  // After a failure a list is left as it was, and so is the buffer; only the cursor moves.
  lemma {:induction false} ListFailureSticks(cur: seq<Ev>, p: Wrap, since: int)
    requires Failed(p)
    ensures var r := DoList(cur, p, since); r.0 == cur && r.1 == p.(ptr := r.1.ptr)
    decreases cur
  {
    if cur != [] {
      var q := DoEvent(DoVoid(p, [1]).1, cur[0], since).1;
      ListFailureSticks(cur[1..], q, since);
      Rejoined(cur);
    }
  }

  // Event_DoState and Event_DoStateOld over the wrapper object.
  method EventDoState(p: PointerWrap, e: Ev, since: int) returns (r: Ev)
    modifies p, p.buf
    ensures (r, p.State()) == DoEvent(old(p.State()), e, since)
  {
    r := e;
    if since >= 3 {
      var t := p.DoVoid(U64(e.time));
      var u := p.DoVoid(U64(e.userdata));
      var k := p.DoVoid(U32(e.kind));
      if p.mode == READ { r := Ev(ToS64(t), Number(u), ToS32(k)); }
    } else {
      var b := p.DoVoid(EventBytes(e) + PADDING);
      if p.mode == READ { r := EventOf(b); }
    }
  }

  ghost predicate Apart(p: PointerWrap, store: EventStore)
    reads store
  {
    p !in store.repr && p.buf !in store.repr
  }

  // Where the loop stands: cur is the k-th node, prev the one before.
  ghost predicate Standing(list: EventList, prev: Event?, cur: Event?, k: nat)
    reads list
  {
    && k <= |list.nodes|
    && prev == (if k == 0 then null else list.nodes[k - 1])
    && cur == if k < |list.nodes| then list.nodes[k] else null
  }

  // A turn over a node that is there.
  method OverExisting(p: PointerWrap, store: EventStore, cur: Event, since: int, ghost prev: Event?, ghost k: nat)
    requires store.Core() && Apart(p, store) && Standing(store.list, prev, cur, k)
    modifies p, p.buf, store.list`events, cur`base
    ensures store.Core() == true && Standing(store.list, cur, cur.next, k + 1)
    ensures var r := DoEvent(old(p.State()), old(store.list.events)[k], since);
      p.State() == r.1 && store.list.events == old(store.list.events)[k := r.0]
  {
    LinkedAt(store.list.first, store.list.nodes, k);
    var base := EventDoState(p, cur.base, since);
    store.Overwrite(cur, base, k);
  }

  // TNew and TDo for a node that is missing.
  method ReadNew(p: PointerWrap, store: EventStore, since: int) returns (cur: Event)
    requires store.Core() && Apart(p, store)
    modifies p, p.buf, store.repr
    ensures store.Core() == true && cur.home == null && cur !in store.repr
    ensures store.list.last == old(store.list.last)
    ensures store.list.nodes == old(store.list.nodes) && store.list.events == old(store.list.events)
    ensures store.repr == old(store.repr) - {cur}
        && if old(store.pool.nodes) == [] then fresh(cur) else cur in old(store.repr)
    ensures |store.pool.nodes| == if old(store.pool.nodes) == [] then 0 else |old(store.pool.nodes)| - 1
    ensures store.lent == old(store.lent) + 1
    ensures (cur.base, p.State()) == DoEvent(old(p.State()), BLANK, since)
  {
    cur := store.Get();
    var base := EventDoState(p, BLANK, since);
    cur.base := base;
  }

  // A turn over a node that is missing: allocate, read, link.
  method OverMissing(p: PointerWrap, store: EventStore, prev: Event?, since: int) returns (cur: Event)
    requires store.Core() && Apart(p, store) && Standing(store.list, prev, null, |store.list.nodes|)
    modifies p, p.buf, store.repr
    ensures store.Core() == true && store.list.nodes == old(store.list.nodes) + [cur]
    ensures store.list.last == old(store.list.last)
    ensures Grows(store)
    ensures old(store.pool.nodes) != [] ==> store.repr == old(store.repr)
    ensures |store.pool.nodes| == if old(store.pool.nodes) == [] then 0 else |old(store.pool.nodes)| - 1
    ensures store.lent == old(store.lent) + 1
    ensures var r := DoEvent(old(p.State()), BLANK, since);
      p.State() == r.1 && store.list.events == old(store.list.events) + [r.0]
  {
    ghost var repr := store.repr;
    cur := ReadNew(p, store, since);
    store.Link(prev, cur);
    assert store.repr == repr - {cur} + {cur};
  }

  // Where the loop stands before its k-th turn: the list, the wrapper in front of the marker,
  // the marker, and the wrapper behind it.
  datatype Spot = Spot(evs: seq<Ev>, w: Wrap, b: seq<Byte>, q: Wrap, since: int)

  function FlagAt(evs: seq<Ev>, k: nat): seq<Byte> { [if k < |evs| then 1 else 0] }

  function SpotOf(evs: seq<Ev>, k: nat, w: Wrap, since: int): Spot {
    var (b, q) := DoVoid(w, FlagAt(evs, k)); Spot(evs, w, b, q, since)
  }

  // The list after one turn over its k-th place.
  function Turned(evs: seq<Ev>, k: nat, e: Ev): seq<Ev>
    requires k <= |evs|
  {
    if k < |evs| then evs[k := e] else evs + [e]
  }

  // One turn of the loop over the k-th place.
  function TurnOf(s: Spot, k: nat): Spot
    requires k <= |s.evs|
  {
    var (e, q) := DoEvent(s.q, if k < |s.evs| then s.evs[k] else BLANK, s.since);
    SpotOf(Turned(s.evs, k, e), k + 1, q, s.since)
  }

  // At the k-th spot, evs[..k] is done and the rest of the traversal is still to come.
  ghost predicate Rest(start: Spot, s: Spot, k: nat) {
    && k <= |s.evs| && s == SpotOf(s.evs, k, s.w, start.since)
    && var all, r := DoList(start.evs, start.w, s.since), DoList(s.evs[k..], s.w, s.since);
       all == (s.evs[..k] + r.0, r.1)
  }

  lemma RestTurns(start: Spot, s: Spot, k: nat)
    requires Rest(start, s, k) && s.b == [1]
    ensures Rest(start, TurnOf(s, k), k + 1)
  {
    var t := TurnOf(s, k);
    assert t.evs[k + 1..] == if k < |s.evs| then s.evs[k..][1..] else [];
    var (rest, end) := DoList(t.evs[k + 1..], t.w, t.since);
    assert DoList(s.evs[k..], s.w, s.since) == ([t.evs[k]] + rest, end);
    assert t.evs[..k + 1] == s.evs[..k] + [t.evs[k]];
    DoneGrows(s.evs[..k], t.evs[k], rest, t.evs[..k + 1]);
  }

  lemma DoneGrows(done: seq<Ev>, e: Ev, rest: seq<Ev>, done': seq<Ev>)
    requires done' == done + [e]
    ensures done + ([e] + rest) == done' + rest
  {}

  // The k-th turn leads from s to t; only reading makes the list longer.
  ghost predicate TurnsTo(s: Spot, k: nat, t: Spot) {
    && k <= |s.evs| && s.b == [1] && t == TurnOf(s, k)
    && t.w.mode == s.w.mode && (s.w.mode != READ ==> |t.evs| == |s.evs|)
  }

  // The i-th spot of a run, and the turn from it unless it is the last.
  ghost predicate TurnAt(run: seq<Spot>, i: nat) {
    i < |run| ==>
      && run[i] == SpotOf(run[i].evs, i, run[i].w, run[i].since)
      && (i + 1 < |run| ==> TurnsTo(run[i], i, run[i + 1]))
  }

  ghost predicate Chain(run: seq<Spot>) {
    run != [] && forall i: nat :: TurnAt(run, i)
  }

  // A run up to the marker that ends the loop.
  ghost predicate IsRun(run: seq<Spot>) {
    Chain(run) && run[|run| - 1].b != [1]
  }

  function ToRead(w: Wrap): nat { if |w.mem| >= w.ptr then |w.mem| - w.ptr + 1 else 0 }

  lemma TurnKeepsMode(s: Spot, k: nat)
    requires k <= |s.evs| && s == SpotOf(s.evs, k, s.w, s.since) && s.b == [1]
    ensures var t := TurnOf(s, k);
      && TurnsTo(s, k, t) && k + 1 <= |t.evs|
      && (|t.evs| - (k + 1) < |s.evs| - k || (|t.evs| - (k + 1) == |s.evs| - k && ToRead(t.w) < ToRead(s.w)))
  {}

  lemma ChainSnoc(run: seq<Spot>, t: Spot)
    requires Chain(run) && TurnsTo(run[|run| - 1], |run| - 1, t)
    ensures Chain(run + [t])
  {
    forall i: nat
      ensures TurnAt(run + [t], i)
    {
      assert TurnAt(run, i);
    }
  }

  lemma {:induction false} RunOf(run: seq<Spot>) returns (full: seq<Spot>)
    requires Chain(run) && Rest(run[0], run[|run| - 1], |run| - 1)
    ensures IsRun(full) && full[0] == run[0] && Rest(full[0], full[|full| - 1], |full| - 1) == true
    decreases |run[|run| - 1].evs| - (|run| - 1), ToRead(run[|run| - 1].w)
  {
    var s, k := run[|run| - 1], |run| - 1;
    if s.b == [1] {
      var t := TurnOf(s, k);
      RunGrows(run, s, k, t);
      full := RunOf(run + [t]);
    } else {
      full := run;
    }
  }

  // One more turn on a run, which leaves less to do.
  lemma RunGrows(run: seq<Spot>, s: Spot, k: nat, t: Spot)
    requires Chain(run) && k == |run| - 1 && s == run[k] && Rest(run[0], s, k) && s.b == [1] && t == TurnOf(s, k)
    ensures Chain(run + [t]) == true && Rest(run[0], t, k + 1) == true
    ensures |t.evs| - (k + 1) < |s.evs| - k || (|t.evs| - (k + 1) == |s.evs| - k && ToRead(t.w) < ToRead(s.w))
    ensures k + 1 <= |t.evs|
  {
    RestTurns(run[0], s, k);
    TurnKeepsMode(s, k);
    ChainSnoc(run, t);
  }

  lemma RunTurns(run: seq<Spot>, k: nat)
    requires IsRun(run) && k < |run|
    ensures run[k].b == [1] <==> k + 1 < |run|
    ensures k + 1 < |run| ==> TurnsTo(run[k], k, run[k + 1])
  {
    assert TurnAt(run, k);
  }

  lemma NextSpot(run: seq<Spot>, k: nat)
    requires IsRun(run) && k < |run| && run[k].b == [1]
    ensures k < |run| - 1 && k <= |run[k].evs|
    ensures run[k + 1].since == run[k].since
    ensures var r := DoEvent(run[k].q, if k < |run[k].evs| then run[k].evs[k] else BLANK, run[k].since);
      var evs := Turned(run[k].evs, k, r.0);
      run[k + 1].evs == evs && (run[k + 1].b, run[k + 1].q) == DoVoid(r.1, FlagAt(evs, k + 1))
  {
    RunTurns(run, k);
  }

  // Without reading the list keeps its length, and no mode changes before the loop ends.
  lemma {:induction false} RunKeepsMode(run: seq<Spot>, k: nat)
    requires Chain(run) && k < |run|
    ensures run[k].w.mode == run[0].w.mode && (run[0].w.mode != READ ==> |run[k].evs| == |run[0].evs|)
  {
    if k > 0 {
      RunKeepsMode(run, k - 1);
      assert TurnAt(run, k - 1);
    }
  }

  // The footprint only grows, by what was allocated.
  twostate predicate Grows(store: EventStore)
    reads store
  {
    old(store.repr) <= store.repr && forall o :: o in store.repr ==> o in old(store.repr) || fresh(o)
  }

  // The nodes of the list and of the pool, the footprint, the tail pointer and the count.
  datatype Books = Books(nodes: seq<Event>, pool: seq<Event>, repr: set<object>, last: Event?, lent: int)

  ghost function BooksOf(store: EventStore): Books
    reads store, store.list, store.pool
  {
    Books(store.list.nodes, store.pool.nodes, store.repr, store.list.last, store.lent)
  }

  // What a turn does to the books, over a node that is there or is missing.
  ghost predicate BooksTurned(now: Books, now': Books, there: bool, node: Event) {
    && now'.last == now.last && now'.lent - |now'.nodes| == now.lent - |now.nodes|
    && if there then now'.nodes == now.nodes && now'.pool == now.pool && now'.repr == now.repr
       else
         && now'.nodes == now.nodes + [node] && (now.pool != [] ==> now'.repr == now.repr)
         && |now'.pool| == if now.pool == [] then 0 else |now.pool| - 1
  }

  method Turn(p: PointerWrap, store: EventStore, prev: Event?, cur: Event?, since: int, ghost k: nat)
    returns (prev': Event, cur': Event?)
    requires store.Core() && Apart(p, store) && Standing(store.list, prev, cur, k)
    modifies p, p.buf, store.repr
    ensures store.Core() == true && Standing(store.list, prev', cur', k + 1) && Grows(store)
    ensures BooksTurned(old(BooksOf(store)), BooksOf(store), cur != null, prev') == true
    ensures var r := DoEvent(old(p.State()), if cur != null then old(store.list.events)[k] else BLANK, since);
      p.State() == r.1 && store.list.events == Turned(old(store.list.events), k, r.0)
  {
    if cur == null {
      prev' := OverMissing(p, store, prev, since);
      cur' := null;
    } else {
      OverExisting(p, store, cur, since, prev, k);
      prev', cur' := cur, cur.next;
    }
  }

  // The books after k turns: nodes that were there stay, and the missing ones are taken from the
  // pool as long as it lasts.
  ghost predicate Accounts(was: Books, now: Books, k: nat) {
    && now.last == was.last && now.lent - |now.nodes| == was.lent - |was.nodes|
    && if k <= |was.nodes| then now.nodes == was.nodes && now.pool == was.pool && now.repr == was.repr
       else
         && |now.nodes| == k && was.nodes <= now.nodes
         && if k - |was.nodes| <= |was.pool| then now.repr == was.repr && |now.pool| == |was.pool| - (k - |was.nodes|)
            else |now.pool| == 0
  }

  function Flag(cur: Event?): seq<Byte> { [if cur != null then 1 else 0] }

  // The books after one more turn, over a list that is k nodes in.
  lemma AccountsTurn(was: Books, now: Books, now': Books, k: nat, node: Event)
    requires Accounts(was, now, k) == true && k <= |now.nodes| && BooksTurned(now, now', k < |now.nodes|, node) == true
    ensures Accounts(was, now', k + 1) == true
  {}

  // The loop has read the marker in front of its k-th turn.
  ghost predicate AtMarker(p: PointerWrap, store: EventStore, prev: Event?, cur: Event?, b: seq<Byte>, run: seq<Spot>,
                           k: nat)
    reads p, p.buf, store, store.repr
  {
    && store.Core() && Apart(p, store) && Standing(store.list, prev, cur, k)
    && k < |run| && store.list.events == run[k].evs && b == run[k].b && p.State() == run[k].q
  }

  method ReadMarker(p: PointerWrap, store: EventStore, prev: Event?, cur: Event?, ghost run: seq<Spot>, ghost k: nat)
    returns (b: seq<Byte>)
    requires store.Core() && Apart(p, store) && Standing(store.list, prev, cur, k)
    requires k < |run| && store.list.events == run[k].evs
    requires DoVoid(p.State(), FlagAt(run[k].evs, k)) == (run[k].b, run[k].q)
    modifies p, p.buf
    ensures AtMarker(p, store, prev, cur, b, run, k) == true
  {
    assert Flag(cur) == FlagAt(run[k].evs, k);
    b := p.DoVoid(Flag(cur));
  }

  // A turn and the marker after it.
  method Step(p: PointerWrap, store: EventStore, prev: Event?, cur: Event?, since: int, ghost run: seq<Spot>,
              ghost k: nat, ghost was: Books)
    returns (prev': Event?, cur': Event?, b: seq<Byte>)
    requires IsRun(run) && AtMarker(p, store, prev, cur, [1], run, k) == true
    requires run[k].since == since && Accounts(was, BooksOf(store), k) == true
    modifies p, p.buf, store.repr
    ensures k + 1 < |run| && run[k + 1].since == since && AtMarker(p, store, prev', cur', b, run, k + 1) == true
    ensures Grows(store) && Accounts(was, BooksOf(store), k + 1) == true
  {
    ghost var now := BooksOf(store);
    NextSpot(run, k);
    prev', cur' := Turn(p, store, prev, cur, since, k);
    AccountsTurn(was, now, BooksOf(store), k, prev');
    b := ReadMarker(p, store, prev', cur', run, k + 1);
  }

  // The loop, up to a marker that is not 1: the first k nodes are done.
  method Turns(p: PointerWrap, store: EventStore, since: int, ghost run: seq<Spot>)
    returns (prev: Event?, cur: Event?, b: seq<Byte>, ghost k: nat)
    requires store.Core() && Apart(p, store) && IsRun(run) && run[0] == SpotOf(store.list.events, 0, p.State(), since)
    modifies p, p.buf, store.repr
    ensures AtMarker(p, store, prev, cur, b, run, k) == true && k == |run| - 1 && b != [1]
    ensures Grows(store) && Accounts(old(BooksOf(store)), BooksOf(store), k) == true
  {
    ghost var was := BooksOf(store);
    prev, cur, k := null, store.list.first, 0;
    b := ReadMarker(p, store, prev, cur, run, 0);
    while b == [1]
      invariant AtMarker(p, store, prev, cur, b, run, k) == true && run[k].since == since
      invariant Grows(store) && Accounts(was, BooksOf(store), k) == true
      decreases |run| - k
    {
      prev, cur, b := Step(p, store, prev, cur, since, run, k, was);
      k := k + 1;
    }
    RunTurns(run, k);
  }

  // The loop from the start of the list.
  method AllTurns(p: PointerWrap, store: EventStore, since: int)
    returns (prev: Event?, cur: Event?, b: seq<Byte>, ghost run: seq<Spot>, ghost k: nat)
    requires store.Valid() && Apart(p, store)
    modifies p, p.buf, store.repr
    ensures AtMarker(p, store, prev, cur, b, run, k) == true
    ensures b != [1] && Rest(run[0], run[k], k) == true && run[k].w.mode == old(p.mode)
    ensures run[0].evs == old(store.list.events) && run[0].w == old(p.State()) && run[0].since == since
    ensures old(p.mode) != READ ==> store.list.Tail() && BooksOf(store) == old(BooksOf(store))
    ensures Grows(store) && Accounts(old(BooksOf(store)), BooksOf(store), k) == true
  {
    run := RunFrom(store.list.events, p.State(), since);
    prev, cur, b, k := Turns(p, store, since, run);
  }

  // The traversal over the heap list, with all its effects: the values and the wrapper of
  // DoList; nodes that were there stay in their places; only missing nodes are taken from the
  // pool or allocated, and counted as lent; surplus nodes go back to the pool.  Only a read moves
  // nodes.  The tail pointer is set at the end of a successful read; a read that fails on a bad
  // marker leaves it where it was, which is wrong exactly when nodes have been linked behind it.
  // After a failure neither the list nor the buffer changes.
  method DoLinkedList(p: PointerWrap, store: EventStore, since: int)
    requires store.Valid() && Apart(p, store)
    modifies p, p.buf, store.repr
    ensures store.Core() == true
        && (store.list.events, p.State()) == DoList(old(store.list.events), old(p.State()), since)
    ensures p.mode == old(p.mode) ==> store.Valid() == true
    ensures p.mode != old(p.mode) ==>
        (store.Valid() <==> !store.list.hasTail || |store.list.nodes| == |old(store.list.nodes)|)
    ensures Grows(store) && Settled(old(BooksOf(store)), BooksOf(store)) == true
    ensures old(p.mode) != READ ==>
        store.list.nodes == old(store.list.nodes) && store.pool.nodes == old(store.pool.nodes)
    ensures Failed(old(p.State())) ==>
        store.list.events == old(store.list.events) && p.State() == old(p.State()).(ptr := p.State().ptr)
  {
    ghost var was := BooksOf(store);
    var prev, cur, b;
    ghost var run, k;
    prev, cur, b, run, k := AllTurns(p, store, since);
    Finish(p, store, prev, cur, b, run, k, was);
    if Failed(run[0].w) { ListFailureSticks(run[0].evs, run[0].w, since); }
  }

  // A tail pointer left behind is right exactly when nothing was linked after it.
  lemma StaleTail(list: EventList, was: seq<Event>)
    requires list.Valid() && list.hasTail && was <= list.nodes
    requires list.last == if was == [] then null else was[|was| - 1]
    ensures list.Tail() <==> |list.nodes| == |was|
  {
    LinkedIsAcyclic(list.first, list.nodes);
  }

  lemma StaleStore(store: EventStore, was: Books, k: nat)
    requires store.Core() && Accounts(was, BooksOf(store), k) == true
    requires store.list.hasTail ==> was.last == if was.nodes == [] then null else was.nodes[|was.nodes| - 1]
    ensures store.Valid() <==> !store.list.hasTail || |store.list.nodes| == |was.nodes|
  {
    SettledAsIs(was, BooksOf(store), k);
    if store.list.hasTail { StaleTail(store.list, was.nodes); }
  }

  // Such a read: one event and then a marker that is neither 0 nor 1, into an empty list.
  lemma FailedReadLinksNode()
    ensures var r := DoList([], Wrap([1] + (EventBytes(BLANK) + [2]), 0, READ, ERROR_NONE, true), 3);
      r.0 == [BLANK] && r.1.mode == MEASURE && r.1.error == ERROR_FAILURE
  {
    var e := EventBytes(BLANK);
    var p := Wrap([1] + (e + [2]), 0, READ, ERROR_NONE, true);
    assert p.Here(22) == [1] + (e + [2]);
    TakesConcat(p, [1], e + [2]);
    TakesConcat(After(p, [1]), e, [2]);
    NewEventTakes(After(p, [1]), BLANK, BLANK);
    BadMarkerFails(After(After(p, [1]), e));
  }

  lemma BadMarkerFails(p: Wrap)
    requires p.mode == READ && Takes(p, [2])
    ensures DoList([], p, 3) == ([], SetError(p.Skip(1), ERROR_FAILURE))
  {}

  // After the last turn: b is the marker that ended the loop.
  method Finish(p: PointerWrap, store: EventStore, prev: Event?, cur: Event?, b: seq<Byte>, ghost run: seq<Spot>,
                ghost k: nat, ghost was: Books)
    requires AtMarker(p, store, prev, cur, b, run, k) == true && b != [1] && Rest(run[0], run[k], k) == true
    requires run[k].w.mode != READ ==> store.list.Tail() && BooksOf(store) == was
    requires store.list.hasTail ==> was.last == if was.nodes == [] then null else was.nodes[|was.nodes| - 1]
    requires Accounts(was, BooksOf(store), k) == true
    modifies p, p.buf, store.repr
    ensures store.Core() == true && store.repr == old(store.repr)
    ensures (store.list.events, p.State()) == DoList(run[0].evs, run[0].w, run[0].since)
    ensures p.mode == run[k].w.mode ==> store.Valid() == true
    ensures p.mode != run[k].w.mode ==>
        (store.Valid() <==> !store.list.hasTail || |store.list.nodes| == |was.nodes|)
    ensures run[k].w.mode != READ ==> BooksOf(store) == was
    ensures Settled(was, BooksOf(store)) == true
  {
    ListEnds(run[0], run[k], k);
    SettledAsIs(was, BooksOf(store), k);
    if b != [0] { p.SetError(ERROR_FAILURE); }
    if p.mode == READ {
      EndRead(store, prev, k, was);
    } else {
      StaleStore(store, was, k);
    }
  }

  // What the end of a successful read does to the list.
  method EndRead(store: EventStore, prev: Event?, ghost k: nat, ghost was: Books)
    requires store.Core() && k <= |store.list.nodes| && prev == if k == 0 then null else store.list.nodes[k - 1]
    requires Accounts(was, BooksOf(store), k) == true
    modifies store.repr
    ensures store.Valid() == true && store.repr == old(store.repr)
    ensures store.list.events == old(store.list.events)[..k] && Settled(was, BooksOf(store)) == true
  {
    ghost var now := BooksOf(store);
    store.CutOff(prev, k);
    if store.list.hasTail { store.SetTail(prev); }
    SettledCut(was, now, BooksOf(store), k);
  }

  lemma SettledCut(was: Books, now: Books, end: Books, k: nat)
    requires Accounts(was, now, k) && k <= |now.nodes| && end.nodes == now.nodes[..k] && end.repr == now.repr
    requires |end.pool| == |now.pool| + |now.nodes| - k && end.lent == now.lent - (|now.nodes| - k)
    ensures Settled(was, end) == true
  {}

  lemma SettledAsIs(was: Books, now: Books, k: nat)
    requires Accounts(was, now, k)
    ensures Settled(was, now) == true && was.nodes <= now.nodes && now.last == was.last
  {}

  lemma RunFrom(evs: seq<Ev>, w: Wrap, since: int) returns (run: seq<Spot>)
    ensures IsRun(run) && run[0] == SpotOf(evs, 0, w, since) && Rest(run[0], run[|run| - 1], |run| - 1)
    ensures var s := run[|run| - 1]; s.w.mode == w.mode && (w.mode != READ ==> |s.evs| == |evs|)
  {
    assert evs[0..] == evs;
    var all := DoList(evs, w, since).0;
    assert evs[..0] + all == all;
    run := RunOf([SpotOf(evs, 0, w, since)]);
    RunKeepsMode(run, |run| - 1);
  }

  // A marker other than 1 ends the traversal from the start.
  lemma ListEnds(start: Spot, s: Spot, k: nat)
    requires Rest(start, s, k) && s.b != [1]
    ensures var q1 := if s.b != [0] then SetError(s.q, ERROR_FAILURE) else s.q;
      DoList(start.evs, start.w, start.since) == (if q1.mode == READ then s.evs[..k] else s.evs, q1)
  {
    var done, left := s.evs[..k], s.evs[k..];
    assert done + left == s.evs && done + [] == done;
  }

  // The books at the end.
  ghost predicate Settled(was: Books, now: Books) {
    && now.lent - |now.nodes| == was.lent - |was.nodes|
    && if |now.nodes| <= |was.nodes| then
         now.nodes <= was.nodes && now.repr == was.repr && |now.pool| == |was.pool| + |was.nodes| - |now.nodes|
       else
         && was.nodes <= now.nodes
         && if |now.nodes| - |was.nodes| <= |was.pool|
            then now.repr == was.repr && |now.pool| == |was.pool| - (|now.nodes| - |was.nodes|)
            else |now.pool| == 0
  }
}
