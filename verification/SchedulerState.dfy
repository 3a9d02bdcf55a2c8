/** DoState of Core/CoreTiming.cpp: the section "CoreTiming" with both event lists and the clocks.
    The order of the fields is that of the code; what it does not save is the downcount, which
    belongs to the CPU, and the flag of the shared queue. */
module SchedulerStates {
  import opened ByteOrder
  import opened SaveFormat
  import opened ChunkFile
  import opened SaveStates
  import opened SaveSafety
  import opened PointerWraps
  import opened EventQueue
  import opened EventStores
  import opened LinkedListState
  import opened EmulatedTime
  import opened CoreTiming
  import Words

  // Invalid is what resize puts in, AntiCrashCallback.
  datatype EventType = Registered(id: nat) | Invalid

  datatype Saved = Saved(types: seq<EventType>, queue: seq<Ev>, ts: seq<Ev>, clocks: Clocks)

  datatype Clocks = Clocks(hz: int, slicelength: int, globalTimer: int, idledCycles: int, base: int, baseUs: int)

  const TITLE: seq<Byte> := [67, 111, 114, 101, 84, 105, 109, 105, 110, 103] // "CoreTiming"

  // ------------------------------------------------------------ the traversal

  // Do on an int and on an s64.
  function Int32(p: Wrap, x: int): (r: (int, Wrap))
    ensures r.1.mode == p.mode && r.1.error == p.error
  {
    var (b, q) := DoVoid(p, U32(x)); (if p.mode == READ then ToS32(b) else x, q)
  }

  function Int64(p: Wrap, x: int): (r: (int, Wrap))
    ensures r.1.mode == p.mode && r.1.error == p.error
  {
    var (b, q) := DoVoid(p, U64(x)); (if p.mode == READ then ToS64(b) else x, q)
  }

  // The number of event types; resize throws at a negative one.
  function Types(p: Wrap, types: seq<EventType>): (r: (seq<EventType>, Wrap))
    ensures r.1.mode == p.mode && r.1.error == p.error
  {
    var (n, q) := Int32(p, Words.ToS32(|types|));
    if n < 0 then (types, q.(ok := false)) else (Resize(types, n, Invalid), q)
  }

  function ClocksDone(p: Wrap, c: Clocks, since: int): (r: (Clocks, Wrap))
    ensures r.1.mode == p.mode && r.1.error == p.error
  {
    var (hz, p1) := Int32(p, c.hz);
    var (slicelength, p2) := Int32(p1, c.slicelength);
    var (globalTimer, p3) := Int64(p2, c.globalTimer);
    var (idledCycles, p4) := Int64(p3, c.idledCycles);
    if since < 2 then (Clocks(hz, slicelength, globalTimer, idledCycles, 0, 0), p4)
    else
      var (base, p5) := Int64(p4, c.base);
      var (baseUs, p6) := Int64(p5, c.baseUs);
      (Clocks(hz, slicelength, globalTimer, idledCycles, base, baseUs), p6)
  }

  function Body(x: Saved, since: int, p: Wrap): (Saved, Wrap) {
    var (types, p1) := Types(p, x.types);
    var (queue, p2) := DoList(x.queue, p1, since);
    var (ts, p3) := DoList(x.ts, p2, since);
    var (clocks, p4) := ClocksDone(p3, x.clocks, since);
    (Saved(types, queue, ts, clocks), p4)
  }

  function Scheduled(x: Saved, p: Wrap): (Saved, Wrap) {
    var (version, q) := FindSection(p, TITLE, 1, 3);
    if version <= 0 then (x, q)
    else
      var (y, q') := Body(x, version, q);
      (y, DoMarker(q'))
  }

  // ------------------------------------------------------------ the bytes

  function ClockBytes(c: Clocks, since: int): seq<Byte> {
    U32(c.hz) + (U32(c.slicelength) + (U64(c.globalTimer) + (U64(c.idledCycles)
      + if since < 2 then [] else U64(c.base) + U64(c.baseUs))))
  }

  // What a program that knows this version writes; the pads stand behind the events of both lists.
  function BodyBytes(x: Saved, since: int, pads: seq<seq<Byte>>, tsPads: seq<seq<Byte>>): seq<Byte>
    requires |pads| == |x.queue| && |tsPads| == |x.ts|
  {
    U32(|x.types|) + (EncodeList(x.queue, pads) + (EncodeList(x.ts, tsPads) + ClockBytes(x.clocks, since)))
  }

  function SchedulerBytes(x: Saved, since: int, pads: seq<seq<Byte>>, tsPads: seq<seq<Byte>>): seq<Byte>
    requires |pads| == |x.queue| && |tsPads| == |x.ts|
  {
    Marker(TITLE) + U32(since) + (BodyBytes(x, since, pads, tsPads) + U32(MARKER))
  }

  predicate IsS32(x: int) { -0x8000_0000 <= x < 0x8000_0000 }

  predicate IsS64(x: int) { -TWO_64 / 2 <= x < TWO_64 / 2 }

  // The ranges of the fields.
  ghost predicate Fits(x: Saved) {
    && |x.types| < 0x8000_0000
    && (forall i :: 0 <= i < |x.queue| ==> InRange(x.queue[i])) && (forall i :: 0 <= i < |x.ts| ==> InRange(x.ts[i]))
    && ClocksFit(x.clocks)
  }

  predicate ClocksFit(c: Clocks) {
    IsS32(c.hz) && IsS32(c.slicelength) && IsS64(c.globalTimer) && IsS64(c.idledCycles) && IsS64(c.base)
      && IsS64(c.baseUs)
  }

  function ClocksLoaded(c: Clocks, since: int): Clocks { if since < 2 then c.(base := 0, baseUs := 0) else c }

  // What a load leaves: of the event types only the number is saved.
  function Loaded(x: Saved, types: seq<EventType>, since: int): Saved {
    Saved(Resize(types, |x.types|, Invalid), x.queue, x.ts, ClocksLoaded(x.clocks, since))
  }

  lemma Int32Takes(p: Wrap, v: int, x: int)
    requires IsS32(v) && Takes(p, U32(v)) && (p.mode != READ ==> x == v)
    ensures Int32(p, x) == (v, After(p, U32(v)))
  {
    VoidTakes(p, U32(v), U32(x));
    U32RoundTrip(v);
  }

  lemma Int64Takes(p: Wrap, v: int, x: int)
    requires IsS64(v) && Takes(p, U64(v)) && (p.mode != READ ==> x == v)
    ensures Int64(p, x) == (v, After(p, U64(v)))
  {
    VoidTakes(p, U64(v), U64(x));
    U64RoundTrip(v);
  }

  lemma TypesTake(p: Wrap, types: seq<EventType>, n: nat)
    requires n < 0x8000_0000 && Takes(p, U32(n)) && (p.mode != READ ==> |types| == n)
    ensures Types(p, types) == (Resize(types, n, Invalid), After(p, U32(n)))
  {
    Int32Takes(p, n, Words.ToS32(|types|));
  }

  // The reference point of the microseconds, which the first version lacks.
  lemma BaseTakes(p: Wrap, c: Clocks, x: Clocks, since: int)
    requires ClocksFit(c) && (p.mode != READ ==> x == c && since >= 2)
    requires Takes(p, if since < 2 then [] else U64(c.base) + U64(c.baseUs))
    ensures since < 2 ==> After(p, []) == p
    ensures since >= 2 ==>
      && Int64(p, x.base) == (c.base, After(p, U64(c.base)))
      && Int64(After(p, U64(c.base)), x.baseUs) == (c.baseUs, After(p, U64(c.base) + U64(c.baseUs)))
  {
    if since < 2 {
      AfterNothing(p);
    } else {
      TakesConcat(p, U64(c.base), U64(c.baseUs));
      Int64Takes(p, c.base, x.base);
      Int64Takes(After(p, U64(c.base)), c.baseUs, x.baseUs);
    }
  }

  lemma ClocksTake(p: Wrap, c: Clocks, x: Clocks, since: int)
    requires ClocksFit(c) && (p.mode != READ ==> x == c && since >= 2) && Takes(p, ClockBytes(c, since))
    ensures ClocksDone(p, x, since) == (ClocksLoaded(c, since), After(p, ClockBytes(c, since)))
  {
    var rest4 := if since < 2 then [] else U64(c.base) + U64(c.baseUs);
    var rest3 := U64(c.idledCycles) + rest4;
    var rest2 := U64(c.globalTimer) + rest3;
    TakesConcat(p, U32(c.hz), U32(c.slicelength) + rest2);
    var p1 := After(p, U32(c.hz));
    Int32Takes(p, c.hz, x.hz);
    TakesConcat(p1, U32(c.slicelength), rest2);
    var p2 := After(p1, U32(c.slicelength));
    Int32Takes(p1, c.slicelength, x.slicelength);
    TakesConcat(p2, U64(c.globalTimer), rest3);
    var p3 := After(p2, U64(c.globalTimer));
    Int64Takes(p2, c.globalTimer, x.globalTimer);
    TakesConcat(p3, U64(c.idledCycles), rest4);
    Int64Takes(p3, c.idledCycles, x.idledCycles);
    BaseTakes(After(p3, U64(c.idledCycles)), c, x, since);
  }

  lemma BodyTakes(saved: Saved, x: Saved, since: int, pads: seq<seq<Byte>>, tsPads: seq<seq<Byte>>, p: Wrap)
    requires Fits(saved) && Pads(pads, |saved.queue|, since) && Pads(tsPads, |saved.ts|, since)
    requires (p.mode != READ ==> x == saved && since >= 3) && Takes(p, BodyBytes(saved, since, pads, tsPads))
    ensures Body(x, since, p)
         == (Loaded(saved, x.types, since), After(p, BodyBytes(saved, since, pads, tsPads)))
  {
    var n, queue, ts, clocks := U32(|saved.types|), EncodeList(saved.queue, pads), EncodeList(saved.ts, tsPads),
      ClockBytes(saved.clocks, since);
    TakesConcat(p, n, queue + (ts + clocks));
    TypesTake(p, x.types, |saved.types|);
    var p1 := After(p, n);
    TakesConcat(p1, queue, ts + clocks);
    ListTraverse(saved.queue, pads, x.queue, p1, since);
    var p2 := After(p1, queue);
    TakesConcat(p2, ts, clocks);
    ListTraverse(saved.ts, tsPads, x.ts, p2, since);
    ClocksTake(After(p2, ts), saved.clocks, x.clocks, since);
  }

  // Over the bytes of a saved scheduler every mode yields that scheduler, whatever stood there
  // before a read.  A section of an older version loads as well, into later fields that are reset.
  lemma SchedulerTraverse(saved: Saved, x: Saved, since: int, pads: seq<seq<Byte>>, tsPads: seq<seq<Byte>>, p: Wrap)
    requires Fits(saved) && 1 <= since <= 3
    requires Pads(pads, |saved.queue|, since) && Pads(tsPads, |saved.ts|, since)
    requires (p.mode != READ ==> x == saved && since == 3) && Takes(p, SchedulerBytes(saved, since, pads, tsPads))
    ensures Scheduled(x, p) == (Loaded(saved, x.types, since), After(p, SchedulerBytes(saved, since, pads, tsPads)))
  {
    var head, body := Marker(TITLE) + U32(since), BodyBytes(saved, since, pads, tsPads);
    TakesConcat(p, head, body + U32(MARKER));
    SectionTakes(p, TITLE, 1, 3, since);
    TakesConcat(After(p, head), body, U32(MARKER));
    BodyTakes(saved, x, since, pads, tsPads, After(p, head));
    MarkerTakes(After(After(p, head), body));
  }

  function NoPads(n: nat): seq<seq<Byte>> { seq(n, _ => []) }

  function CurrentBytes(x: Saved): seq<Byte> { SchedulerBytes(x, 3, NoPads(|x.queue|), NoPads(|x.ts|)) }

  lemma CurrentTraverse(saved: Saved, x: Saved, p: Wrap)
    requires Fits(saved) && (p.mode != READ ==> x == saved) && Takes(p, CurrentBytes(saved))
    ensures Scheduled(x, p)
         == (saved.(types := Resize(x.types, |saved.types|, Invalid)), After(p, CurrentBytes(saved)))
  {
    SchedulerTraverse(saved, x, 3, NoPads(|saved.queue|), NoPads(|saved.ts|), p);
  }

  lemma SchedulerFills(saved: Saved, e: seq<Byte>, buffer: seq<Byte>)
    requires Fits(saved) && e == CurrentBytes(saved) && |e| <= |buffer|
    ensures Scheduled(saved, Wrap(buffer, 0, WRITE, ERROR_NONE, true))
         == (saved, Wrap(e + buffer[|e|..], |e|, WRITE, ERROR_NONE, true))
  {
    CurrentTraverse(saved, saved, Wrap(buffer, 0, WRITE, ERROR_NONE, true));
    FilledFromStart(e, buffer);
    assert Resize(saved.types, |saved.types|, Invalid) == saved.types;
  }

  lemma SchedulerReadsBack(saved: Saved, other: Saved, e: seq<Byte>, suffix: seq<Byte>)
    requires Fits(saved) && e == CurrentBytes(saved)
    ensures Scheduled(other, Wrap(e + suffix, 0, READ, ERROR_NONE, true))
         == (saved.(types := Resize(other.types, |saved.types|, Invalid)),
             Wrap(e + suffix, |e|, READ, ERROR_NONE, true))
  {
    var p := Wrap(e + suffix, 0, READ, ERROR_NONE, true);
    assert p.Here(|e|) == e;
    CurrentTraverse(saved, other, p);
  }

  // Measuring, saving and loading into any other scheduler.
  lemma SchedulerComesBack(saved: Saved, other: Saved, buffer: seq<Byte>)
    requires Fits(saved)
    ensures var size := Scheduled(saved, Wrap([], 0, MEASURE, ERROR_NONE, true)).1.ptr;
      && size == |CurrentBytes(saved)|
      && (size <= |buffer| ==>
        var (kept, written) := Scheduled(saved, Wrap(buffer, 0, WRITE, ERROR_NONE, true));
        && kept == saved && written == Wrap(CurrentBytes(saved) + buffer[size..], size, WRITE, ERROR_NONE, true)
        && Scheduled(other, Wrap(written.mem, 0, READ, ERROR_NONE, true))
          == (saved.(types := Resize(other.types, |saved.types|, Invalid)),
              Wrap(written.mem, size, READ, ERROR_NONE, true)))
  {
    var e := CurrentBytes(saved);
    CurrentTraverse(saved, saved, Wrap([], 0, MEASURE, ERROR_NONE, true));
    if |e| <= |buffer| {
      SchedulerFills(saved, e, buffer);
      SchedulerReadsBack(saved, other, e, buffer[|e|..]);
    }
  }

  lemma BodyErrorNeverLowers(x: Saved, since: int, p: Wrap)
    ensures Worse(p, Body(x, since, p).1)
  {
    var p1 := Types(p, x.types).1;
    ListErrorNeverLowers(x.queue, p1, since);
    ListErrorNeverLowers(x.ts, DoList(x.queue, p1, since).1, since);
  }

  // The error never gets lower, and after a failure nothing is changed.
  lemma SchedulerErrorNeverLowers(x: Saved, p: Wrap)
    ensures Worse(p, Scheduled(x, p).1)
    ensures Failed(p) ==> Scheduled(x, p).0 == x && Scheduled(x, p).1 == p.(ptr := Scheduled(x, p).1.ptr)
  {
    var (version, q) := FindSection(p, TITLE, 1, 3);
    if version > 0 { BodyErrorNeverLowers(x, version, q); }
  }

  // ------------------------------------------------------------ over the heap

  class EventTypes {
    var types: seq<EventType>

    constructor ()
      ensures types == []
    {
      types := [];
    }
  }

  function ClocksOf(s: Scheduler, clock: TimeBase): Clocks
    reads s, clock
  {
    Clocks(clock.cpuHz, s.slicelength, s.globalTimer, s.idledCycles, clock.lastGlobalTimeTicks, clock.lastGlobalTimeUs)
  }

  ghost function Values(s: Scheduler, clock: TimeBase, registry: EventTypes): Saved
    reads s, s.main.list, s.shared.list, clock, registry
  {
    Saved(registry.types, s.main.list.events, s.shared.list.events, ClocksOf(s, clock))
  }

  method DoInt32(p: PointerWrap, x: int) returns (r: int)
    modifies p, p.buf
    ensures (r, p.State()) == Int32(old(p.State()), x)
  {
    r := x;
    var b := p.DoVoid(U32(x));
    if p.mode == READ { r := ToS32(b); }
  }

  method DoInt64(p: PointerWrap, x: int) returns (r: int)
    modifies p, p.buf
    ensures (r, p.State()) == Int64(old(p.State()), x)
  {
    r := x;
    var b := p.DoVoid(U64(x));
    if p.mode == READ { r := ToS64(b); }
  }

  method DoTypes(p: PointerWrap, types: seq<EventType>) returns (r: seq<EventType>)
    modifies p, p.buf
    ensures (r, p.State()) == Types(old(p.State()), types)
  {
    r := types;
    var n := DoInt32(p, Words.ToS32(|types|));
    if n < 0 { p.ok := false; } else { r := Resize(types, n, Invalid); }
  }

  method DoClocks(p: PointerWrap, c: Clocks, since: int) returns (r: Clocks)
    modifies p, p.buf
    ensures (r, p.State()) == ClocksDone(old(p.State()), c, since)
  {
    var hz := DoInt32(p, c.hz);
    var slicelength := DoInt32(p, c.slicelength);
    var globalTimer := DoInt64(p, c.globalTimer);
    var idledCycles := DoInt64(p, c.idledCycles);
    var base, baseUs := 0, 0;
    if since >= 2 {
      base := DoInt64(p, c.base);
      baseUs := DoInt64(p, c.baseUs);
    }
    r := Clocks(hz, slicelength, globalTimer, idledCycles, base, baseUs);
  }

  // The wrapper is no part of the scheduler.
  ghost predicate ApartFrom(p: PointerWrap, s: Scheduler)
    reads s, s.main, s.shared
  {
    p !in s.Repr() && p.buf !in s.Repr()
  }

  // What a scheduler asks of its stores, but for the order of the queue and the tail pointer of
  // the other list.
  ghost predicate Whole(main: EventStore, shared: EventStore, owner: object)
    reads main, shared, main.repr, shared.repr
  {
    && main.Core() == shared.Core() == true
    && main.repr !! shared.repr && owner !in main.repr + shared.repr
    && !main.list.hasTail && shared.list.hasTail && |shared.list.events| <= shared.lent
  }

  lemma SizeOf(store: EventStore)
    requires store.Core()
    ensures |store.list.nodes| == |store.list.events|
  {
    assert store.list.Valid();
  }

  method DoMain(p: PointerWrap, s: Scheduler, since: int)
    requires s.Valid() && ApartFrom(p, s)
    modifies p, p.buf, s.main.repr
    ensures (s.main.list.events, p.State()) == DoList(old(s.main.list.events), old(p.State()), since)
    ensures Whole(s.main, s.shared, s) == true && s.Grows() && ApartFrom(p, s) && s.shared.list.Tail() == true
    ensures s.shared.list.events == old(s.shared.list.events)
    ensures p.mode == old(p.mode) ==> s.main.list.Tail() == true
  {
    DoLinkedList(p, s.main, since);
  }

  method DoShared(p: PointerWrap, s: Scheduler, since: int)
    requires Whole(s.main, s.shared, s) && s.shared.list.Tail() && ApartFrom(p, s)
    modifies p, p.buf, s.shared.repr
    ensures (s.shared.list.events, p.State()) == DoList(old(s.shared.list.events), old(p.State()), since)
    ensures Whole(s.main, s.shared, s) == true && s.Grows() && s.main.list.Tail() == old(s.main.list.Tail())
    ensures s.main.list.events == old(s.main.list.events)
    ensures p.mode == old(p.mode) ==> s.shared.list.Tail() == true
  {
    SizeOf(s.shared);
    DoLinkedList(p, s.shared, since);
    SizeOf(s.shared);
  }

  // Both lists.
  method DoLists(p: PointerWrap, s: Scheduler, since: int)
    requires s.Valid() && ApartFrom(p, s)
    modifies p, p.buf, s.main.repr, s.shared.repr
    ensures var (queue, p1) := DoList(old(s.main.list.events), old(p.State()), since);
      var (ts, p2) := DoList(old(s.shared.list.events), p1, since);
      s.main.list.events == queue && s.shared.list.events == ts && p.State() == p2
    ensures Whole(s.main, s.shared, s) == true && s.Grows() && unchanged(s)
    ensures p.mode == old(p.mode) ==> s.main.list.Tail() == s.shared.list.Tail() == true
  {
    ListErrorNeverLowers(s.main.list.events, p.State(), since);
    DoMain(p, s, since);
    ListErrorNeverLowers(s.shared.list.events, p.State(), since);
    DoShared(p, s, since);
  }

  // The lists as they are, seen from what does not touch them.
  twostate predicate ListsKept(s: Scheduler)
    reads s, s.main, s.shared, s.main.list, s.shared.list
  {
    && s.main.repr == old(s.main.repr) && s.shared.repr == old(s.shared.repr)
    && s.main.list.events == old(s.main.list.events) && s.shared.list.events == old(s.shared.list.events)
    && s.main.list.Tail() == old(s.main.list.Tail()) && s.shared.list.Tail() == old(s.shared.list.Tail())
  }

  // What comes behind the lists.
  method DoRest(p: PointerWrap, s: Scheduler, clock: TimeBase, since: int)
    requires Whole(s.main, s.shared, s) == true && ApartFrom(p, s) && clock !in s.Repr()
    modifies p, p.buf, s`slicelength, s`globalTimer, s`idledCycles, clock
    ensures (ClocksOf(s, clock), p.State()) == ClocksDone(old(p.State()), old(ClocksOf(s, clock)), since)
    ensures Whole(s.main, s.shared, s) == true && ListsKept(s) == true
    ensures unchanged(s`hasTsEvents, s`downcount, s`log)
  {
    var c := ReadClocks(p, s, clock, since);
    SetClocks(s, clock, c);
  }

  method ReadClocks(p: PointerWrap, s: Scheduler, clock: TimeBase, since: int) returns (c: Clocks)
    requires Whole(s.main, s.shared, s) == true && ApartFrom(p, s)
    modifies p, p.buf
    ensures (c, p.State()) == ClocksDone(old(p.State()), old(ClocksOf(s, clock)), since)
    ensures Whole(s.main, s.shared, s) == true && ListsKept(s) == true
  {
    c := DoClocks(p, ClocksOf(s, clock), since);
  }

  method SetClocks(s: Scheduler, clock: TimeBase, c: Clocks)
    requires Whole(s.main, s.shared, s) == true && clock !in s.Repr()
    modifies s`slicelength, s`globalTimer, s`idledCycles, clock
    ensures ClocksOf(s, clock) == c
    ensures Whole(s.main, s.shared, s) == true && ListsKept(s) == true
  {
    s.slicelength, s.globalTimer, s.idledCycles := c.slicelength, c.globalTimer, c.idledCycles;
    clock.cpuHz, clock.lastGlobalTimeTicks, clock.lastGlobalTimeUs := c.hz, c.base, c.baseUs;
  }

  method ReadTypes(p: PointerWrap, s: Scheduler, registry: EventTypes)
    requires s.Valid() && ApartFrom(p, s) && registry !in s.Repr()
    modifies p, p.buf, registry
    ensures (registry.types, p.State()) == Types(old(p.State()), old(registry.types))
    ensures s.Valid() == true && ListsKept(s) == true && unchanged(s)
  {
    registry.types := DoTypes(p, registry.types);
  }

  // The section's body.
  method DoBody(p: PointerWrap, s: Scheduler, clock: TimeBase, registry: EventTypes, since: int)
    requires s.Valid() && ApartFrom(p, s) && clock !in s.Repr() && registry !in s.Repr()
    modifies p, p.buf, s.main.repr, s.shared.repr, s`slicelength, s`globalTimer, s`idledCycles, clock, registry
    ensures (Values(s, clock, registry), p.State()) == Body(old(Values(s, clock, registry)), since, old(p.State()))
    ensures Whole(s.main, s.shared, s) == true && s.Grows()
    ensures unchanged(s`hasTsEvents, s`downcount, s`log)
    ensures p.mode == old(p.mode) ==> s.main.list.Tail() == s.shared.list.Tail() == true
  {
    ReadTypes(p, s, registry);
    DoLists(p, s, since);
    DoRest(p, s, clock, since);
  }

  method EndSection(p: PointerWrap, s: Scheduler)
    requires Whole(s.main, s.shared, s) == true && ApartFrom(p, s)
    modifies p, p.buf
    ensures p.State() == DoMarker(old(p.State()))
    ensures Whole(s.main, s.shared, s) == true && ListsKept(s) == true
  {
    p.DoMarker();
  }

  lemma SoundAgain(s: Scheduler)
    requires Whole(s.main, s.shared, s) && s.main.list.Tail() == s.shared.list.Tail() == true
        && Sorted(s.main.list.events)
    ensures s.Valid() == true
  {}

  // Once the section is found.
  method DoOpened(p: PointerWrap, s: Scheduler, clock: TimeBase, registry: EventTypes, version: int)
    requires s.Valid() && ApartFrom(p, s) && clock !in s.Repr() && registry !in s.Repr()
    modifies p, p.buf, s.main.repr, s.shared.repr, s`slicelength, s`globalTimer, s`idledCycles, clock, registry
    ensures var (y, q) := Body(old(Values(s, clock, registry)), version, old(p.State()));
      Values(s, clock, registry) == y && p.State() == DoMarker(q)
    ensures Whole(s.main, s.shared, s) == true && s.Grows()
    ensures unchanged(s`hasTsEvents, s`downcount, s`log)
    ensures p.mode == old(p.mode) && Sorted(s.main.list.events) ==> s.Valid() == true
  {
    ghost var was := p.mode;
    BodyErrorNeverLowers(Values(s, clock, registry), version, p.State());
    DoBody(p, s, clock, registry, version);
    EndSection(p, s);
    if p.mode == was && Sorted(s.main.list.events) { SoundAgain(s); }
  }

  method BeginSection(p: PointerWrap, s: Scheduler) returns (version: int)
    requires s.Valid() && ApartFrom(p, s)
    modifies p, p.buf
    ensures (version, p.State()) == FindSection(old(p.State()), TITLE, 1, 3)
    ensures s.Valid() == true && ListsKept(s) == true
  {
    version := p.FindSection(TITLE, 1, 3);
  }

  // All of it, up to the callbacks on a change of frequency.  Every node is kept; afterwards the
  // scheduler is sound if nothing failed and the list that was read is in order, as a saved one is.
  method DoState(p: PointerWrap, s: Scheduler, clock: TimeBase, registry: EventTypes)
    requires s.Valid() && ApartFrom(p, s) && clock !in s.Repr() && registry !in s.Repr()
    modifies p, p.buf, s.main.repr, s.shared.repr, s`slicelength, s`globalTimer, s`idledCycles, clock, registry
    ensures (Values(s, clock, registry), p.State()) == Scheduled(old(Values(s, clock, registry)), old(p.State()))
    ensures Whole(s.main, s.shared, s) == true && s.Grows()
    ensures unchanged(s`hasTsEvents, s`downcount, s`log)
    ensures p.mode == old(p.mode) && Sorted(s.main.list.events) ==> s.Valid() == true
  {
    var version := BeginSection(p, s);
    if version > 0 { DoOpened(p, s, clock, registry, version); }
  }
}
