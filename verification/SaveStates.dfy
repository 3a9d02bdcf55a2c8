/** What a save state is for: MeasurePtr, SavePtr, LoadPtr and Verify of Common/ChunkFile.h agree
    on one encoding, reading gives the saved value back, sections are version-safe, and a failure
    sticks. */
module SaveStates {
  import opened ByteOrder
  import opened SaveFormat
  import opened ChunkFile

  // ---------------------------------------------------------------- the encoding

  // The bytes of a value inside a section of version `since`.
  function Encode(s: Schema, v: Value, since: int): seq<Byte>
    decreases s, 1, 0
  {
    match s
    case Unit => []
    case Pod(_) => if v.Bytes? then v.bytes else []
    case Text => if v.Bytes? then U32(|v.bytes| + 1) + (v.bytes + [0]) else []
    case Vector(_) => if v.Items? then U32(|v.items|) + EncodeItems(s, v.items, since) else []
    case Map(_, _, _) => if v.Entries? then U32(|v.entries|) + EncodeEntries(s, v.entries, since) else []
    case Set(_, _) => if v.Items? then U32(|v.items|) + EncodeItems(s, v.items, since) else []
    case Then(a, b) => if v.Both? then Encode(a, v.first, since) + Encode(b, v.second, since) else []
    case Section(title, _, ver, body) => Marker(title) + U32(ver) + (Encode(body, v, ver) + U32(MARKER))
    case Since(added, body) => if since >= added then Encode(body, v, since) else []
  }

  function EncodeItems(s: Schema, items: seq<Value>, since: int): seq<Byte>
    requires s.Vector? || s.Set?
    decreases s, 0, |items|
  {
    if items == [] then [] else Encode(s.elem, items[0], since) + EncodeItems(s, items[1..], since)
  }

  function EncodeEntries(s: Schema, entries: seq<(Value, Value)>, since: int): seq<Byte>
    requires s.Map?
    decreases s, 0, |entries|
  {
    if entries == [] then []
    else
      Encode(s.key, entries[0].0, since)
      + (Encode(s.val, entries[0].1, since) + EncodeEntries(s, entries[1..], since))
  }

  // All that reading a container back asks of operator<.
  ghost predicate Asymmetric(less: KeyOrder) { forall a, b :: less(a, b) ==> !less(b, a) }

  // The values that a program of this version can hold and save: strings without NUL, ordered
  // containers in order, sections in their own version, nothing in fields added later.
  ghost predicate Savable(s: Schema, v: Value, since: int)
    decreases s
  {
    && Shaped(s, v)
    && match s
       case Unit => true
       case Pod(_) => true
       case Text => |v.bytes| + 1 < 0x8000_0000 && 0 !in v.bytes
       case Vector(e) => forall i :: 0 <= i < |v.items| ==> Savable(e, v.items[i], since)
       case Map(k, x, less) =>
         && Asymmetric(less)
         && (forall i :: 0 <= i < |v.entries| ==>
           Savable(k, v.entries[i].0, since) && Savable(x, v.entries[i].1, since))
         && forall i, j :: 0 <= i < j < |v.entries| ==> less(v.entries[i].0, v.entries[j].0)
       case Set(e, less) =>
         && Asymmetric(less)
         && (forall i :: 0 <= i < |v.items| ==> Savable(e, v.items[i], since))
         && forall i, j :: 0 <= i < j < |v.items| ==> less(v.items[i], v.items[j])
       case Then(a, b) => Savable(a, v.first, since) && Savable(b, v.second, since)
       case Section(_, minVer, ver, body) => 1 <= ver < 0x8000_0000 && minVer <= ver && Savable(body, v, ver)
       case Since(added, body) => if since >= added then Savable(body, v, since) else v == Default(body)
  }

  // ---------------------------------------------------------------- one step over known bytes

  // The wrapper can take the bytes e here: there is room for them, and when they are read or
  // verified they are what the buffer holds.
  predicate Takes(p: Wrap, e: seq<Byte>) {
    && p.error < ERROR_FAILURE
    && (p.mode != MEASURE ==> p.Room(|e|))
    && (p.mode == READ || p.mode == VERIFY ==> p.Here(|e|) == e)
  }

  // The wrapper after e.
  function After(p: Wrap, e: seq<Byte>): Wrap
    requires Takes(p, e)
  {
    if p.mode == WRITE then p.Put(e).Skip(|e|) else p.Skip(|e|)
  }

  lemma AfterNothing(p: Wrap)
    requires Takes(p, [])
    ensures After(p, []) == p
  {
    if p.mode == WRITE { assert p.mem[..p.ptr] + [] + p.mem[p.ptr..] == p.mem; }
  }

  lemma TakesConcat(p: Wrap, a: seq<Byte>, b: seq<Byte>)
    requires Takes(p, a + b)
    ensures Takes(p, a) && Takes(After(p, a), b) && After(After(p, a), b) == After(p, a + b)
  {
    match p.mode
    case MEASURE =>
    case WRITE => PutConcat(p, a, b);
    case _ =>
      assert p.Here(|a|) == p.Here(|a + b|)[..|a|] == a;
      assert p.Skip(|a|).Here(|b|) == p.Here(|a + b|)[|a|..] == b;
  }

  lemma PutConcat(p: Wrap, a: seq<Byte>, b: seq<Byte>)
    requires p.Room(|a + b|)
    ensures p.Put(a).Skip(|a|).Put(b).mem == p.Put(a + b).mem
  {
    var q := p.Put(a).Skip(|a|);
    assert q.mem[..q.ptr] == p.mem[..p.ptr] + a;
    assert q.mem[q.ptr + |b|..] == p.mem[p.ptr + |a + b|..];
  }

  lemma VoidTakes(p: Wrap, e: seq<Byte>, x: seq<Byte>)
    requires Takes(p, e) && |x| == |e| && (p.mode != READ ==> x == e)
    ensures DoVoid(p, x) == (e, After(p, e))
  {}

  lemma MarkerTakes(p: Wrap)
    requires Takes(p, U32(MARKER))
    ensures DoMarker(p) == After(p, U32(MARKER))
  {
    VoidTakes(p, U32(MARKER), U32(MARKER));
  }

  lemma StrLenOf(b: seq<Byte>, rest: seq<Byte>)
    requires 0 !in b && |b| < |rest| && rest[..|b| + 1] == b + [0]
    ensures StrLen(rest) == |b| && rest[..|b|] == b
  {
    assert rest[|b|] == rest[..|b| + 1][|b|] == 0;
    assert rest[..|b|] == rest[..|b| + 1][..|b|] == b;
    forall i | 0 <= i < |b| ensures rest[i] != 0 { assert rest[..|b|][i] in b; }
  }

  lemma TextTakes(p: Wrap, b: seq<Byte>, x: seq<Byte>)
    requires |b| + 1 < 0x8000_0000 && 0 !in b && (p.mode != READ ==> x == b)
    requires Takes(p, U32(|b| + 1) + (b + [0]))
    ensures DoText(p, x) == (b, After(p, U32(|b| + 1) + (b + [0])))
  {
    TakesConcat(p, U32(|b| + 1), b + [0]);
    VoidTakes(p, U32(|b| + 1), U32(|x| + 1));
    U32RoundTrip(|b| + 1);
    TextBytesTake(After(p, U32(|b| + 1)), b);
  }

  // The characters behind the length.
  lemma RestOf(p: Wrap, e: seq<Byte>)
    requires Takes(p, e) && (p.mode == READ || p.mode == VERIFY)
    ensures 0 <= p.ptr <= |p.mem| && |e| <= |p.mem[p.ptr..]| && p.mem[p.ptr..][..|e|] == e
  {
    assert p.mem[p.ptr..][..|e|] == p.Here(|e|);
  }

  lemma TextBytesTake(p: Wrap, b: seq<Byte>)
    requires 0 !in b && Takes(p, b + [0])
    ensures p.mode == READ || p.mode == VERIFY ==>
      && 0 <= p.ptr <= |p.mem|
      && var rest := p.mem[p.ptr..]; StrLen(rest) == |b| < |rest| && rest[..|b|] == b
    ensures StrLen(b) == |b| && b[..|b|] == b
  {
    if p.mode == READ || p.mode == VERIFY {
      RestOf(p, b + [0]);
      StrLenOf(b, p.mem[p.ptr..]);
    }
    assert StrLen(b) == |b| by {
      if StrLen(b) < |b| { assert b[StrLen(b)] in b; }
    }
  }

  lemma SectionTakes(p: Wrap, title: seq<Byte>, minVer: int, ver: int, written: int)
    requires Takes(p, Marker(title) + U32(written)) && minVer <= written <= ver
    requires -0x8000_0000 <= written < 0x8000_0000 && (p.mode != READ ==> written == ver)
    ensures FindSection(p, title, minVer, ver) == (written, After(p, Marker(title) + U32(written)))
  {
    TakesConcat(p, Marker(title), U32(written));
    VoidTakes(p, Marker(title), Marker(title));
    VoidTakes(After(p, Marker(title)), U32(written), U32(ver));
    U32RoundTrip(written);
  }

  // ---------------------------------------------------------------- the traversal over known bytes

  // In all four modes: over the bytes of v the traversal yields v, whatever the object held
  // before it was read, and moves the wrapper exactly past those bytes.
  lemma {:induction false} Traverse(s: Schema, v: Value, x: Value, since: int, p: Wrap)
    requires Savable(s, v, since) && Shaped(s, x) && (p.mode != READ ==> x == v)
    requires Takes(p, Encode(s, v, since))
    ensures Do(s, x, since, p) == (v, After(p, Encode(s, v, since)))
    decreases s, 1, 0
  {
    match s
    case Unit => AfterNothing(p);
    case Pod(_) => VoidTakes(p, v.bytes, x.bytes);
    case Text => TextTakes(p, v.bytes, x.bytes);
    case Vector(_) => TraverseVector(s, v, x, since, p);
    case Map(_, _, _) => TraverseMap(s, v, x, since, p);
    case Set(_, _) => TraverseSet(s, v, x, since, p);
    case Then(a, b) =>
      TakesConcat(p, Encode(a, v.first, since), Encode(b, v.second, since));
      Traverse(a, v.first, x.first, since, p);
      Traverse(b, v.second, x.second, since, After(p, Encode(a, v.first, since)));
    case Section(title, minVer, ver, body) =>
      TraverseSection(title, minVer, ver, ver, body, v, x, since, p);
    case Since(added, body) =>
      if since >= added { Traverse(body, v, x, since, p); } else { AfterNothing(p); }
  }

  lemma {:induction false} TraverseVector(s: Schema, v: Value, x: Value, since: int, p: Wrap)
    requires s.Vector? && Savable(s, v, since) && Shaped(s, x) && (p.mode != READ ==> x == v)
    requires Takes(p, Encode(s, v, since))
    ensures Do(s, x, since, p) == (v, After(p, Encode(s, v, since)))
    decreases s, 0, |v.items| + 1
  {
    DefaultShaped(s.elem);
    CountTakes(p, |v.items|, |x.items|, EncodeItems(s, v.items, since));
    TraverseItems(s, v.items, Resize(x.items, |v.items|, Default(s.elem)), since, After(p, U32(|v.items|)));
  }

  lemma {:induction false} TraverseMap(s: Schema, v: Value, x: Value, since: int, p: Wrap)
    requires s.Map? && Savable(s, v, since) && Shaped(s, x) && (p.mode != READ ==> x == v)
    requires Takes(p, Encode(s, v, since))
    ensures Do(s, x, since, p) == (v, After(p, Encode(s, v, since)))
    decreases s, 0, |v.entries| + 1
  {
    CountTakes(p, |v.entries|, |x.entries|, EncodeEntries(s, v.entries, since));
    if p.mode == READ {
      assert [] + v.entries == v.entries;
      TraverseReadEntries(s, v.entries, [], since, After(p, U32(|v.entries|)));
    } else {
      TraverseEntries(s, v.entries, since, After(p, U32(|v.entries|)));
    }
  }

  lemma {:induction false} TraverseSet(s: Schema, v: Value, x: Value, since: int, p: Wrap)
    requires s.Set? && Savable(s, v, since) && Shaped(s, x) && (p.mode != READ ==> x == v)
    requires Takes(p, Encode(s, v, since))
    ensures Do(s, x, since, p) == (v, After(p, Encode(s, v, since)))
    decreases s, 0, |v.items| + 1
  {
    CountTakes(p, |v.items|, |x.items|, EncodeItems(s, v.items, since));
    if p.mode == READ {
      assert [] + v.items == v.items;
      TraverseReadItems(s, v.items, [], since, After(p, U32(|v.items|)));
    } else {
      TraverseItems(s, v.items, v.items, since, After(p, U32(|v.items|)));
    }
  }

  // A section written in any version that the reader supports.
  lemma {:induction false} TraverseSection(title: seq<Byte>, minVer: int, ver: int, written: int, body: Schema,
                                           v: Value, x: Value, since: int, p: Wrap)
    requires 1 <= written < 0x8000_0000 && minVer <= written <= ver && (p.mode != READ ==> written == ver)
    requires Savable(body, v, written) && Shaped(body, x) && (p.mode != READ ==> x == v)
    requires Takes(p, Encode(Section(title, minVer, written, body), v, since))
    ensures Do(Section(title, minVer, ver, body), x, since, p)
        == (v, After(p, Encode(Section(title, minVer, written, body), v, since)))
    decreases body, 2, 0
  {
    var head, e := Marker(title) + U32(written), Encode(body, v, written);
    TakesConcat(p, head, e + U32(MARKER));
    SectionTakes(p, title, minVer, ver, written);
    TakesConcat(After(p, head), e, U32(MARKER));
    Traverse(body, v, x, written, After(p, head));
    MarkerTakes(After(After(p, head), e));
  }

  lemma CountTakes(p: Wrap, n: int, m: int, rest: seq<Byte>)
    requires 0 <= n < 0x1_0000_0000 && (p.mode != READ ==> m == n) && Takes(p, U32(n) + rest)
    ensures Takes(p, U32(n)) && Takes(After(p, U32(n)), rest)
        && After(After(p, U32(n)), rest) == After(p, U32(n) + rest)
    ensures DoVoid(p, U32(m)) == (U32(n), After(p, U32(n))) && ToU32(U32(n)) == n
  {
    TakesConcat(p, U32(n), rest);
    VoidTakes(p, U32(n), U32(m));
    U32RoundTrip(n);
  }

  lemma {:induction false} TraverseItems(s: Schema, items: seq<Value>, xs: seq<Value>, since: int, p: Wrap)
    requires (s.Vector? || s.Set?) && |xs| == |items| < 0x1_0000_0000 && (p.mode != READ ==> xs == items)
    requires forall i :: 0 <= i < |items| ==> Savable(s.elem, items[i], since) && Shaped(s.elem, xs[i])
    requires Takes(p, EncodeItems(s, items, since))
    ensures DoItems(s, xs, since, p) == (items, After(p, EncodeItems(s, items, since)))
    decreases s, 0, |items|
  {
    if items == [] {
      AfterNothing(p);
    } else {
      var e := Encode(s.elem, items[0], since);
      TakesConcat(p, e, EncodeItems(s, items[1..], since));
      Traverse(s.elem, items[0], xs[0], since, p);
      TraverseItems(s, items[1..], xs[1..], since, After(p, e));
      assert items == [items[0]] + items[1..];
    }
  }

  lemma {:induction false} TraverseEntries(s: Schema, entries: seq<(Value, Value)>, since: int, p: Wrap)
    requires s.Map? && p.mode != READ
    requires forall i :: 0 <= i < |entries| ==>
        Savable(s.key, entries[i].0, since) && Savable(s.val, entries[i].1, since)
    requires forall i :: 0 <= i < |entries| ==> Shaped(s.key, entries[i].0) && Shaped(s.val, entries[i].1)
    requires Takes(p, EncodeEntries(s, entries, since))
    ensures DoEntries(s, entries, since, p) == After(p, EncodeEntries(s, entries, since))
    decreases s, 0, |entries|
  {
    if entries == [] {
      AfterNothing(p);
    } else {
      var k, x, rest := Encode(s.key, entries[0].0, since), Encode(s.val, entries[0].1, since),
        EncodeEntries(s, entries[1..], since);
      TakesConcat(p, k, x + rest);
      TakesConcat(After(p, k), x, rest);
      Traverse(s.key, entries[0].0, entries[0].0, since, p);
      Traverse(s.val, entries[0].1, entries[0].1, since, After(p, k));
      TraverseEntries(s, entries[1..], since, After(After(p, k), x));
    }
  }

  lemma {:induction false} PutLastEntry(less: KeyOrder, entries: seq<(Value, Value)>, key: Value, val: Value)
    requires Asymmetric(less) && forall i :: 0 <= i < |entries| ==> less(entries[i].0, key)
    ensures PutEntry(less, entries, key, val) == entries + [(key, val)]
  {
    if entries != [] {
      assert less(entries[0].0, key);
      PutLastEntry(less, entries[1..], key, val);
    }
  }

  lemma {:induction false} PutLastItem(less: KeyOrder, items: seq<Value>, item: Value)
    requires Asymmetric(less) && forall i :: 0 <= i < |items| ==> less(items[i], item)
    ensures PutItem(less, items, item) == items + [item]
  {
    if items != [] {
      assert less(items[0], item);
      PutLastItem(less, items[1..], item);
    }
  }

  lemma MoveHead<T>(acc: seq<T>, rest: seq<T>)
    requires rest != []
    ensures acc + [rest[0]] + rest[1..] == acc + rest && (acc + rest)[|acc|] == rest[0]
    ensures forall i :: 0 <= i < |acc| ==> acc[i] == (acc + rest)[i]
  {}

  // The next key of a map that is read belongs behind those read before it.
  lemma EntryIsNext(s: Schema, acc: seq<(Value, Value)>, entries: seq<(Value, Value)>, since: int)
    requires s.Map? && entries != [] && Savable(s, Entries(acc + entries), since)
    ensures Savable(s.key, entries[0].0, since) && Savable(s.val, entries[0].1, since)
    ensures PutEntry(s.less, acc, entries[0].0, entries[0].1) == acc + [entries[0]]
    ensures Savable(s, Entries(acc + [entries[0]] + entries[1..]), since)
  {
    MoveHead(acc, entries);
    PutLastEntry(s.less, acc, entries[0].0, entries[0].1);
  }

  lemma ItemIsNext(s: Schema, acc: seq<Value>, items: seq<Value>, since: int)
    requires s.Set? && items != [] && Savable(s, Items(acc + items), since)
    ensures Savable(s.elem, items[0], since) && PutItem(s.less, acc, items[0]) == acc + [items[0]]
    ensures Savable(s, Items(acc + [items[0]] + items[1..]), since)
  {
    MoveHead(acc, items);
    PutLastItem(s.less, acc, items[0]);
  }

  // One turn of the loop that reads a map.
  lemma ReadsEntry(s: Schema, n: nat, acc: seq<(Value, Value)>, key: Value, val: Value, since: int, p: Wrap, q: Wrap,
                   q': Wrap)
    requires s.Map? && n > 0 && Shaped(s, Entries(acc)) && |acc| + n < 0x1_0000_0000
    requires Shaped(s.key, Default(s.key)) && Shaped(s.val, Default(s.val))
    requires Do(s.key, Default(s.key), since, p) == (key, q) && Do(s.val, Default(s.val), since, q) == (val, q')
    requires PutEntry(s.less, acc, key, val) == acc + [(key, val)]
    ensures Shaped(s, Entries(acc + [(key, val)]))
    ensures ReadEntries(s, n, acc, since, p) == ReadEntries(s, n - 1, acc + [(key, val)], since, q')
  {
    PutEntryShaped(s, acc, key, val);
  }

  lemma {:induction false} TraverseReadEntries(s: Schema, entries: seq<(Value, Value)>, acc: seq<(Value, Value)>,
                                               since: int, p: Wrap)
    requires s.Map? && p.mode == READ && Savable(s, Entries(acc + entries), since) && Shaped(s, Entries(acc))
    requires Takes(p, EncodeEntries(s, entries, since))
    ensures ReadEntries(s, |entries|, acc, since, p) == (acc + entries, After(p, EncodeEntries(s, entries, since)))
    decreases s, 0, |entries|
  {
    if entries == [] {
      AfterNothing(p);
      assert acc + entries == acc;
    } else {
      var key, val, later := entries[0].0, entries[0].1, entries[1..];
      var k, x, rest := Encode(s.key, key, since), Encode(s.val, val, since), EncodeEntries(s, later, since);
      EntryIsNext(s, acc, entries, since);
      TakesConcat(p, k, x + rest);
      TakesConcat(After(p, k), x, rest);
      DefaultShaped(s.key);
      DefaultShaped(s.val);
      Traverse(s.key, key, Default(s.key), since, p);
      Traverse(s.val, val, Default(s.val), since, After(p, k));
      ReadsEntry(s, |entries|, acc, key, val, since, p, After(p, k), After(After(p, k), x));
      TraverseReadEntries(s, later, acc + [entries[0]], since, After(After(p, k), x));
      MoveHead(acc, entries);
    }
  }

  lemma {:induction false} TraverseReadItems(s: Schema, items: seq<Value>, acc: seq<Value>, since: int, p: Wrap)
    requires s.Set? && p.mode == READ && Savable(s, Items(acc + items), since) && Shaped(s, Items(acc))
    requires Takes(p, EncodeItems(s, items, since))
    ensures ReadItems(s, |items|, acc, since, p) == (acc + items, After(p, EncodeItems(s, items, since)))
    decreases s, 0, |items|
  {
    if items == [] {
      AfterNothing(p);
      assert acc + items == acc;
    } else {
      var item, e := items[0], Encode(s.elem, items[0], since);
      ItemIsNext(s, acc, items, since);
      TakesConcat(p, e, EncodeItems(s, items[1..], since));
      DefaultShaped(s.elem);
      Traverse(s.elem, item, Default(s.elem), since, p);
      PutItemShaped(s, acc, item);
      TraverseReadItems(s, items[1..], acc + [item], since, After(p, e));
      MoveHead(acc, items);
    }
  }
}
