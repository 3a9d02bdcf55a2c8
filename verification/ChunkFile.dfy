/** PointerWrap of Common/ChunkFile.h and Common/ChunkFile.cpp: one traversal in four modes, as
    a function on the wrapper's state.  The class in PointerWrap.dfy is proved to compute it. */
module ChunkFile {
  import opened ByteOrder
  import opened SaveFormat

  datatype Mode = READ | WRITE | MEASURE | VERIFY

  const ERROR_NONE := 0
  const ERROR_WARNING := 1
  const ERROR_FAILURE := 2

  const MARKER := 0x42

  // `ok` turns false at an access outside the buffer and at a failed MODE_VERIFY assertion.
  datatype Wrap = Wrap(mem: seq<Byte>, ptr: int, mode: Mode, error: int, ok: bool) {
    predicate Room(n: int) { 0 <= ptr && 0 <= n && ptr + n <= |mem| }

    function Here(n: nat): (b: seq<Byte>)
      requires Room(n)
      ensures |b| == n
    {
      mem[ptr..ptr + n]
    }

    function Skip(n: int): Wrap { this.(ptr := ptr + n) }

    function Put(b: seq<Byte>): (p: Wrap)
      requires Room(|b|)
      ensures |p.mem| == |mem|
    {
      this.(mem := mem[..ptr] + b + mem[ptr + |b|..])
    }
  }

  // The error never gets lower, and the mode changes only to MODE_MEASURE and only by failure.
  predicate Worse(p: Wrap, q: Wrap) {
    && p.error <= q.error
    && (q.mode == p.mode || (q.mode == MEASURE && q.error >= ERROR_FAILURE))
  }

  function SetError(p: Wrap, error: int): (q: Wrap)
    ensures Worse(p, q) && error <= q.error
  {
    var e := if p.error < error then error else p.error;
    p.(error := e, mode := if e > ERROR_WARNING then MEASURE else p.mode)
  }

  function DoVoid(p: Wrap, b: seq<Byte>): (r: (seq<Byte>, Wrap))
    ensures |r.0| == |b| && r.1.mode == p.mode && r.1.error == p.error
  {
    match p.mode
    case READ => if p.Room(|b|) then (p.Here(|b|), p.Skip(|b|)) else (b, p.Skip(|b|).(ok := false))
    case WRITE => (b, if p.Room(|b|) then p.Put(b).Skip(|b|) else p.Skip(|b|).(ok := false))
    case MEASURE => (b, p.Skip(|b|))
    case VERIFY => (b, if p.Room(|b|) && p.Here(|b|) == b then p.Skip(|b|) else p.Skip(|b|).(ok := false))
  }

  // As DoVoid, except that a mismatch on reading is reported and does not advance.
  function ExpectVoid(p: Wrap, b: seq<Byte>): (r: (bool, Wrap))
    ensures r.1.mode == p.mode && r.1.error == p.error
  {
    if p.mode == READ then
      if !p.Room(|b|) then (false, p.(ok := false))
      else if p.Here(|b|) == b then (true, p.Skip(|b|)) else (false, p)
    else (true, DoVoid(p, b).1)
  }

  function DoMarker(p: Wrap): (q: Wrap)
    ensures Worse(p, q)
  {
    var (b, p1) := DoVoid(p, U32(MARKER));
    if p1.mode == READ && b != U32(MARKER) then SetError(p1, ERROR_FAILURE) else p1
  }

  // char marker[16] after strncpy.
  function Marker(title: seq<Byte>): (r: seq<Byte>)
    ensures |r| == 16
  {
    if |title| >= 16 then title[..16] else title + seq(16 - |title|, _ => 0)
  }

  // PointerWrap::Section: the version found, 0 for a section that is not there, -1 for failure.
  function FindSection(p: Wrap, title: seq<Byte>, minVer: int, ver: int): (r: (int, Wrap))
    ensures Worse(p, r.1)
  {
    var (found, p1) := ExpectVoid(p, Marker(title));
    var (version, p2) :=
      if found then
        var (b, q) := DoVoid(p1, U32(ver)); (ToS32(b), q)
      else if ver == 1 then
        var (legacy, q) := ExpectVoid(p1, U32(1));
        if legacy then (1, DoMarker(q)) else (0, q)
      else (0, p1);
    if p2.error == ERROR_FAILURE || version < minVer || version > ver then (-1, SetError(p2, ERROR_FAILURE))
    else (version, p2)
  }

  // ---------------------------------------------------------------- strings

  // The number of bytes before the first NUL.
  function StrLen(b: seq<Byte>): (n: nat)
    ensures n <= |b| && (n < |b| ==> b[n] == 0) && forall i :: 0 <= i < n ==> b[i] != 0
  {
    if b == [] || b[0] == 0 then 0 else 1 + StrLen(b[1..])
  }

  function DoText(p: Wrap, b: seq<Byte>): (r: (seq<Byte>, Wrap))
    ensures r.1.mode == p.mode && r.1.error == p.error
  {
    var (lenBytes, p1) := DoVoid(p, U32(|b| + 1));
    TextBody(p1, b, ToS32(lenBytes))
  }

  function TextBody(p: Wrap, b: seq<Byte>, stringLen: int): (r: (seq<Byte>, Wrap))
    ensures r.1.mode == p.mode && r.1.error == p.error
  {
    var rest := if 0 <= p.ptr <= |p.mem| then p.mem[p.ptr..] else [];
    var terminated := StrLen(rest) < |rest|;
    match p.mode
    case READ => (if terminated then rest[..StrLen(rest)] else b, p.Skip(stringLen).(ok := p.ok && terminated))
    case WRITE =>
      var fits := stringLen == |b| + 1 && p.Room(|b| + 1);
      (b, (if fits then p.Put(b + [0]) else p).Skip(stringLen).(ok := p.ok && fits))
    case MEASURE => (b, p.Skip(stringLen))
    case VERIFY => (b, p.Skip(stringLen).(ok := p.ok && terminated && rest[..StrLen(rest)] == b[..StrLen(b)]))
  }

  // ---------------------------------------------------------------- containers

  function Resize<T>(items: seq<T>, n: nat, default: T): (r: seq<T>)
    ensures |r| == n
  {
    if n <= |items| then items[..n] else items + seq(n - |items|, _ => default)
  }

  // x[key] = val on a std::map whose entries stand in key order.
  function PutEntry(less: KeyOrder, entries: seq<(Value, Value)>, key: Value, val: Value): seq<(Value, Value)> {
    if entries == [] || less(key, entries[0].0) then [(key, val)] + entries
    else if less(entries[0].0, key) then [entries[0]] + PutEntry(less, entries[1..], key, val)
    else [(entries[0].0, val)] + entries[1..]
  }

  // x.insert(item) on a std::set.
  function PutItem(less: KeyOrder, items: seq<Value>, item: Value): seq<Value> {
    if items == [] || less(item, items[0]) then [item] + items
    else if less(items[0], item) then [items[0]] + PutItem(less, items[1..], item)
    else items
  }

  // ---------------------------------------------------------------- the traversal

  // Do on an object of the schema inside a section of version `since`.
  ghost function Do(s: Schema, v: Value, since: int, p: Wrap): (r: (Value, Wrap))
    requires Shaped(s, v)
    ensures Shaped(s, r.0)
    decreases s, 1, 0
  {
    match s
    case Unit => (v, p)
    case Pod(_) => var (b, q) := DoVoid(p, v.bytes); (Bytes(b), q)
    case Text => var (b, q) := DoText(p, v.bytes); (Bytes(b), q)
    case Vector(e) =>
      var (b, q) := DoVoid(p, U32(|v.items|));
      DefaultShaped(e);
      var (items, q') := DoItems(s, Resize(v.items, ToU32(b), Default(e)), since, q);
      (Items(items), q')
    case Map(_, _, _) =>
      var (b, q) := DoVoid(p, U32(|v.entries|));
      if q.mode == READ then
        var (entries, q') := ReadEntries(s, ToU32(b), [], since, q); (Entries(entries), q')
      else
        (v, DoEntries(s, v.entries, since, q))
    case Set(_, _) =>
      var (b, q) := DoVoid(p, U32(|v.items|));
      if q.mode == READ then
        var (items, q') := ReadItems(s, ToU32(b), [], since, q); (Items(items), q')
      else
        (v, DoItems(s, v.items, since, q).1)
    case Then(a, b) =>
      var (x, q) := Do(a, v.first, since, p);
      var (y, q') := Do(b, v.second, since, q);
      (Both(x, y), q')
    case Section(title, minVer, ver, body) =>
      var (version, q) := FindSection(p, title, minVer, ver);
      if version <= 0 then (v, q)
      else
        var (x, q') := Do(body, v, version, q);
        (x, DoMarker(q'))
    case Since(added, body) =>
      DefaultShaped(body);
      if since >= added then Do(body, v, since, p) else (Default(body), p)
  }

  // Do on each item in turn, where s is the container's schema.
  ghost function DoItems(s: Schema, items: seq<Value>, since: int, p: Wrap): (r: (seq<Value>, Wrap))
    requires (s.Vector? || s.Set?) && |items| < 0x1_0000_0000 && forall i :: 0 <= i < |items| ==>
        Shaped(s.elem, items[i])
    ensures |r.0| == |items| && forall i :: 0 <= i < |items| ==> Shaped(s.elem, r.0[i])
    decreases s, 0, |items|
  {
    if items == [] then ([], p)
    else
      var (x, q) := Do(s.elem, items[0], since, p);
      var (xs, q') := DoItems(s, items[1..], since, q);
      ([x] + xs, q')
  }

  // Do on a copy of each key and on each value of a std::map, which changes nothing but the
  // cursor and the buffer.
  ghost function DoEntries(s: Schema, entries: seq<(Value, Value)>, since: int, p: Wrap): Wrap
    requires s.Map? && forall i :: 0 <= i < |entries| ==> Shaped(s.key, entries[i].0) && Shaped(s.val, entries[i].1)
    decreases s, 0, |entries|
  {
    if entries == [] then p
    else DoEntries(s, entries[1..], since, Do(s.val, entries[0].1, since, Do(s.key, entries[0].0, since, p).1).1)
  }

  ghost function ReadEntries(s: Schema, n: nat, acc: seq<(Value, Value)>, since: int,
                             p: Wrap): (r: (seq<(Value, Value)>, Wrap))
    requires s.Map? && Shaped(s, Entries(acc)) && |acc| + n < 0x1_0000_0000
    ensures Shaped(s, Entries(r.0))
    decreases s, 0, n
  {
    if n == 0 then (acc, p)
    else
      DefaultShaped(s.key);
      DefaultShaped(s.val);
      var (key, q) := Do(s.key, Default(s.key), since, p);
      var (val, q') := Do(s.val, Default(s.val), since, q);
      PutEntryShaped(s, acc, key, val);
      ReadEntries(s, n - 1, PutEntry(s.less, acc, key, val), since, q')
  }

  ghost function ReadItems(s: Schema, n: nat, acc: seq<Value>, since: int, p: Wrap): (r: (seq<Value>, Wrap))
    requires s.Set? && Shaped(s, Items(acc)) && |acc| + n < 0x1_0000_0000
    ensures Shaped(s, Items(r.0))
    decreases s, 0, n
  {
    if n == 0 then (acc, p)
    else
      DefaultShaped(s.elem);
      var (item, q) := Do(s.elem, Default(s.elem), since, p);
      PutItemShaped(s, acc, item);
      ReadItems(s, n - 1, PutItem(s.less, acc, item), since, q)
  }

  lemma {:induction false} PutEntryShaped(s: Schema, entries: seq<(Value, Value)>, key: Value, val: Value)
    requires s.Map? && Shaped(s, Entries(entries)) && |entries| + 1 < 0x1_0000_0000 && Shaped(s.key, key)
        && Shaped(s.val, val)
    ensures Shaped(s, Entries(PutEntry(s.less, entries, key, val)))
        && |PutEntry(s.less, entries, key, val)| <= |entries| + 1
  {
    if entries != [] { PutEntryShaped(s, entries[1..], key, val); }
  }

  lemma {:induction false} PutItemShaped(s: Schema, items: seq<Value>, item: Value)
    requires s.Set? && Shaped(s, Items(items)) && |items| + 1 < 0x1_0000_0000 && Shaped(s.elem, item)
    ensures Shaped(s, Items(PutItem(s.less, items, item))) && |PutItem(s.less, items, item)| <= |items| + 1
  {
    if items != [] { PutItemShaped(s, items[1..], item); }
  }
}
