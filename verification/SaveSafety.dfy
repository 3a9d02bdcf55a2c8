/** The promises of the save-state format, from the traversal theorem: one encoding for all four
    modes, section versioning, and failures that stick. */
module SaveSafety {
  import opened ByteOrder
  import opened SaveFormat
  import opened ChunkFile
  import opened SaveStates

  // ---------------------------------------------------------------- save and load

  // MeasurePtr, SavePtr and LoadPtr together: the measured size is the size of the encoding;
  // writing fills exactly the measured bytes of any large enough buffer; reading them, followed
  // by anything, gives the value back whatever the object held, and stops at the suffix.
  lemma SaveThenLoad(s: Schema, v: Value, x: Value, buffer: seq<Byte>)
    requires Savable(s, v, 0) && Shaped(s, x)
    ensures var size := Do(s, v, 0, Wrap([], 0, MEASURE, ERROR_NONE, true)).1.ptr;
      && size == |Encode(s, v, 0)|
      && (size <= |buffer| ==>
        var written := Do(s, v, 0, Wrap(buffer, 0, WRITE, ERROR_NONE, true)).1;
        && written == Wrap(Encode(s, v, 0) + buffer[size..], size, WRITE, ERROR_NONE, true)
        && Do(s, x, 0, Wrap(written.mem, 0, READ, ERROR_NONE, true))
          == (v, Wrap(written.mem, size, READ, ERROR_NONE, true)))
  {
    Traverse(s, v, v, 0, Wrap([], 0, MEASURE, ERROR_NONE, true));
    var e := Encode(s, v, 0);
    if |e| <= |buffer| {
      WriteFills(s, v, buffer);
      ReadsBack(s, v, x, buffer[|e|..]);
    }
  }

  lemma WriteFills(s: Schema, v: Value, buffer: seq<Byte>)
    requires Savable(s, v, 0) && |Encode(s, v, 0)| <= |buffer|
    ensures var e := Encode(s, v, 0);
      Do(s, v, 0, Wrap(buffer, 0, WRITE, ERROR_NONE, true))
        == (v, Wrap(e + buffer[|e|..], |e|, WRITE, ERROR_NONE, true))
  {
    var e := Encode(s, v, 0);
    Traverse(s, v, v, 0, Wrap(buffer, 0, WRITE, ERROR_NONE, true));
    FilledFromStart(e, buffer);
  }

  lemma FilledFromStart(e: seq<Byte>, buffer: seq<Byte>)
    requires |e| <= |buffer|
    ensures After(Wrap(buffer, 0, WRITE, ERROR_NONE, true), e) == Wrap(e + buffer[|e|..], |e|, WRITE, ERROR_NONE, true)
  {
    assert buffer[..0] + e + buffer[|e|..] == e + buffer[|e|..];
  }

  lemma ReadsBack(s: Schema, v: Value, x: Value, suffix: seq<Byte>)
    requires Savable(s, v, 0) && Shaped(s, x)
    ensures var e := Encode(s, v, 0);
      Do(s, x, 0, Wrap(e + suffix, 0, READ, ERROR_NONE, true)) == (v, Wrap(e + suffix, |e|, READ, ERROR_NONE, true))
  {
    var e := Encode(s, v, 0);
    var p := Wrap(e + suffix, 0, READ, ERROR_NONE, true);
    assert p.Here(|e|) == e;
    Traverse(s, v, x, 0, p);
  }

  // CChunkFileReader::Verify finds no difference.
  lemma VerifyAccepts(s: Schema, v: Value, buffer: seq<Byte>)
    requires Savable(s, v, 0) && |buffer| == |Encode(s, v, 0)|
    ensures var written := Do(s, v, 0, Wrap(buffer, 0, WRITE, ERROR_NONE, true)).1;
      Do(s, v, 0, written.(ptr := 0, mode := VERIFY)) == (v, written.(mode := VERIFY))
  {
    var e := Encode(s, v, 0);
    WriteFills(s, v, buffer);
    assert e + buffer[|e|..] == e;
    var p := Wrap(e, 0, VERIFY, ERROR_NONE, true);
    assert p.Here(|e|) == e;
    Traverse(s, v, v, 0, p);
  }

  // Two values with the same encoding are the same value.
  lemma EncodingIsInjective(s: Schema, v: Value, w: Value)
    requires Savable(s, v, 0) && Savable(s, w, 0) && Encode(s, v, 0) == Encode(s, w, 0)
    ensures v == w
  {
    var p := Wrap(Encode(s, v, 0), 0, READ, ERROR_NONE, true);
    assert p.Here(|Encode(s, v, 0)|) == Encode(s, v, 0);
    Traverse(s, v, v, 0, p);
    Traverse(s, w, v, 0, p);
  }

  // A string comes back up to its first NUL, so exactly the NUL-free strings come back; the
  // cursor is in step either way.
  lemma StringsStopAtNul(b: seq<Byte>, x: seq<Byte>)
    requires |b| + 1 < 0x8000_0000
    ensures var e := Encode(Text, Bytes(b), 0);
      DoText(Wrap(e, 0, READ, ERROR_NONE, true), x) == (b[..StrLen(b)], Wrap(e, |e|, READ, ERROR_NONE, true))
    ensures b[..StrLen(b)] == b <==> 0 !in b
  {
    var e := Encode(Text, Bytes(b), 0);
    var p := Wrap(e, 0, READ, ERROR_NONE, true);
    U32RoundTrip(|b| + 1);
    assert p.Here(4) == U32(|b| + 1);
    assert e[4..] == b + [0];
    BodyStopsAtNul(p.Skip(4), b, x);
    assert StrLen(b) < |b| ==> b[StrLen(b)] in b;
  }

  lemma BodyStopsAtNul(p: Wrap, b: seq<Byte>, x: seq<Byte>)
    requires p.mode == READ && 0 <= p.ptr <= |p.mem| && p.mem[p.ptr..] == b + [0] && p.ok
    ensures TextBody(p, x, |b| + 1) == (b[..StrLen(b)], p.Skip(|b| + 1))
  {
    StrLenWithNul(b);
    assert (b + [0])[..StrLen(b)] == b[..StrLen(b)];
  }

  lemma {:induction false} StrLenWithNul(b: seq<Byte>)
    ensures StrLen(b + [0]) == StrLen(b)
  {
    if b != [] && b[0] != 0 {
      StrLenWithNul(b[1..]);
      assert (b + [0])[1..] == b[1..] + [0];
    }
  }

  // ---------------------------------------------------------------- sections

  // Where the marker is, the version decides.
  lemma FoundSection(p: Wrap, title: seq<Byte>, minVer: int, ver: int)
    requires p.mode == READ && p.error < ERROR_FAILURE && p.Room(20) && p.Here(16) == Marker(title)
    ensures var w := ToS32(p.Here(20)[16..]);
      FindSection(p, title, minVer, ver) ==
        if minVer <= w <= ver then (w, p.Skip(20)) else (-1, SetError(p.Skip(20), ERROR_FAILURE))
  {
    assert p.Skip(16).Here(4) == p.Here(20)[16..];
  }

  // Where it is not, and no version-1 section without a name is meant and there, the section is
  // absent: version 0 at an unmoved cursor if that is allowed, a failure otherwise.
  lemma MissingSection(p: Wrap, title: seq<Byte>, minVer: int, ver: int)
    requires p.mode == READ && p.error < ERROR_FAILURE && p.Room(16) && p.Here(16) != Marker(title)
    requires ver != 1 || p.Here(4) != U32(1)
    ensures FindSection(p, title, minVer, ver) ==
      if minVer <= 0 <= ver then (0, p) else (-1, SetError(p, ERROR_FAILURE))
  {
    assert FindSection(p, title, minVer, ver).1.ptr == p.ptr;
  }

  // The sections of version 1 that were written before there were names: the version and a
  // marker.
  lemma LegacySection(p: Wrap, title: seq<Byte>, minVer: int)
    requires p.mode == READ && p.error < ERROR_FAILURE && p.Room(16) && p.Here(16) != Marker(title)
    requires p.Here(4) == U32(1)
    ensures FindSection(p, title, minVer, 1) ==
      if p.Skip(4).Here(4) == U32(MARKER) && minVer <= 1 then (1, p.Skip(8))
        else (-1, SetError(p.Skip(8), ERROR_FAILURE))
  {
    assert ExpectVoid(p, Marker(title)) == (false, p);
    assert ExpectVoid(p, U32(1)) == (true, p.Skip(4));
  }

  // Such a section loads wherever it stands, unless its first 16 bytes happen to be the name.
  lemma LegacySectionLoads(p: Wrap, title: seq<Byte>, minVer: int, body: Schema, v: Value, x: Value, since: int)
    requires minVer <= 1 && Savable(body, v, 1) && Shaped(body, x)
    requires p.mode == READ && p.error < ERROR_FAILURE && p.Room(16) && p.Here(16) != Marker(title)
    requires p.Here(4) == U32(1) && p.Skip(4).Here(4) == U32(MARKER)
    requires Takes(p.Skip(8), Encode(body, v, 1) + U32(MARKER))
    ensures Do(Section(title, minVer, 1, body), x, since, p) == (v, After(p.Skip(8), Encode(body, v, 1) + U32(MARKER)))
  {
    var e := Encode(body, v, 1);
    LegacySection(p, title, minVer);
    TakesConcat(p.Skip(8), e, U32(MARKER));
    Traverse(body, v, x, 1, p.Skip(8));
    MarkerTakes(After(p.Skip(8), e));
  }

  // So what follows an optional section reads the same from an older stream without it.
  lemma OptionalSectionSkipped(title: seq<Byte>, minVer: int, ver: int, body: Schema, rest: Schema,
                               x: Value, y: Value, v: Value, since: int, p: Wrap)
    requires minVer <= 0 && ver >= 2 && Shaped(body, x) && Shaped(rest, y) && Savable(rest, v, since)
    requires p.mode == READ && Takes(p, Encode(rest, v, since)) && p.Room(16) && p.Here(16) != Marker(title)
    ensures Do(Then(Section(title, minVer, ver, body), rest), Both(x, y), since, p)
         == (Both(x, v), After(p, Encode(rest, v, since)))
  {
    SectionSkipped(title, minVer, ver, body, x, since, p);
    Traverse(rest, v, y, since, p);
  }

  lemma SectionSkipped(title: seq<Byte>, minVer: int, ver: int, body: Schema, x: Value, since: int, p: Wrap)
    requires minVer <= 0 && ver >= 2 && Shaped(body, x)
    requires p.mode == READ && p.error < ERROR_FAILURE && p.Room(16) && p.Here(16) != Marker(title)
    ensures Do(Section(title, minVer, ver, body), x, since, p) == (x, p)
  {
    MissingSection(p, title, minVer, ver);
  }

  // A section written by an older program is read by a newer one that still supports its
  // version, fields added since then being reset.
  lemma OlderSectionLoads(title: seq<Byte>, minVer: int, written: int, ver: int, body: Schema, v: Value, x: Value,
                          suffix: seq<Byte>)
    requires 1 <= written <= ver < 0x8000_0000 && minVer <= written
    requires Savable(body, v, written) && Shaped(body, x)
    ensures var e := Encode(Section(title, minVer, written, body), v, 0);
      Do(Section(title, minVer, ver, body), x, 0, Wrap(e + suffix, 0, READ, ERROR_NONE, true))
        == (v, Wrap(e + suffix, |e|, READ, ERROR_NONE, true))
  {
    var e := Encode(Section(title, minVer, written, body), v, 0);
    var p := Wrap(e + suffix, 0, READ, ERROR_NONE, true);
    assert p.Here(|e|) == e;
    TraverseSection(title, minVer, ver, written, body, v, x, 0, p);
  }

  // ---------------------------------------------------------------- failure

  lemma {:induction false} ErrorNeverLowers(s: Schema, v: Value, since: int, p: Wrap)
    requires Shaped(s, v)
    ensures Worse(p, Do(s, v, since, p).1)
    decreases s, 1, 0
  {
    match s
    case Vector(_) => ContainerErrorNeverLowers(s, v, since, p);
    case Map(_, _, _) => ContainerErrorNeverLowers(s, v, since, p);
    case Set(_, _) => ContainerErrorNeverLowers(s, v, since, p);
    case Then(a, b) =>
      ErrorNeverLowers(a, v.first, since, p);
      ErrorNeverLowers(b, v.second, since, Do(a, v.first, since, p).1);
    case Section(title, minVer, ver, body) =>
      var (version, q) := FindSection(p, title, minVer, ver);
      if version > 0 { ErrorNeverLowers(body, v, version, q); }
    case Since(_, body) => ErrorNeverLowers(body, v, since, p);
    case _ =>
  }

  lemma {:induction false} ContainerErrorNeverLowers(s: Schema, v: Value, since: int, p: Wrap)
    requires Shaped(s, v) && (s.Vector? || s.Map? || s.Set?)
    ensures Worse(p, Do(s, v, since, p).1)
    decreases s, 0, 0x2_0000_0000
  {
    var (b, q) := DoVoid(p, U32(if s.Map? then |v.entries| else |v.items|));
    match s
    case Vector(e) =>
      DefaultShaped(e);
      ItemsErrorNeverLowers(s, Resize(v.items, ToU32(b), Default(e)), since, q);
    case Map(_, _, _) =>
      if q.mode == READ { ReadEntriesErrorNeverLowers(s, ToU32(b), [], since, q); }
      else { EntriesErrorNeverLowers(s, v.entries, since, q); }
    case Set(_, _) =>
      if q.mode == READ { ReadItemsErrorNeverLowers(s, ToU32(b), [], since, q); }
      else { ItemsErrorNeverLowers(s, v.items, since, q); }
  }

  lemma {:induction false} ItemsErrorNeverLowers(s: Schema, items: seq<Value>, since: int, p: Wrap)
    requires (s.Vector? || s.Set?) && |items| < 0x1_0000_0000 && forall i :: 0 <= i < |items| ==>
        Shaped(s.elem, items[i])
    ensures Worse(p, DoItems(s, items, since, p).1)
    decreases s, 0, |items|
  {
    if items != [] {
      ErrorNeverLowers(s.elem, items[0], since, p);
      ItemsErrorNeverLowers(s, items[1..], since, Do(s.elem, items[0], since, p).1);
    }
  }

  lemma {:induction false} EntriesErrorNeverLowers(s: Schema, entries: seq<(Value, Value)>, since: int, p: Wrap)
    requires s.Map? && Shaped(s, Entries(entries))
    ensures Worse(p, DoEntries(s, entries, since, p))
    decreases s, 0, |entries|
  {
    if entries != [] {
      var q := Do(s.key, entries[0].0, since, p).1;
      ErrorNeverLowers(s.key, entries[0].0, since, p);
      ErrorNeverLowers(s.val, entries[0].1, since, q);
      EntriesErrorNeverLowers(s, entries[1..], since, Do(s.val, entries[0].1, since, q).1);
    }
  }

  lemma {:induction false} ReadEntriesErrorNeverLowers(s: Schema, n: nat, acc: seq<(Value, Value)>, since: int, p: Wrap)
    requires s.Map? && Shaped(s, Entries(acc)) && |acc| + n < 0x1_0000_0000
    ensures Worse(p, ReadEntries(s, n, acc, since, p).1)
    decreases s, 0, n
  {
    if n > 0 {
      DefaultShaped(s.key);
      DefaultShaped(s.val);
      var (key, q) := Do(s.key, Default(s.key), since, p);
      var (val, q') := Do(s.val, Default(s.val), since, q);
      ErrorNeverLowers(s.key, Default(s.key), since, p);
      ErrorNeverLowers(s.val, Default(s.val), since, q);
      PutEntryShaped(s, acc, key, val);
      ReadEntriesErrorNeverLowers(s, n - 1, PutEntry(s.less, acc, key, val), since, q');
    }
  }

  lemma {:induction false} ReadItemsErrorNeverLowers(s: Schema, n: nat, acc: seq<Value>, since: int, p: Wrap)
    requires s.Set? && Shaped(s, Items(acc)) && |acc| + n < 0x1_0000_0000
    ensures Worse(p, ReadItems(s, n, acc, since, p).1)
    decreases s, 0, n
  {
    if n > 0 {
      DefaultShaped(s.elem);
      var (item, q) := Do(s.elem, Default(s.elem), since, p);
      ErrorNeverLowers(s.elem, Default(s.elem), since, p);
      PutItemShaped(s, acc, item);
      ReadItemsErrorNeverLowers(s, n - 1, PutItem(s.less, acc, item), since, q);
    }
  }

  // No version test outside a section of its own resets anything.
  ghost predicate Live(s: Schema, since: int) {
    match s
    case Vector(e) => Live(e, since)
    case Map(k, x, _) => Live(k, since) && Live(x, since)
    case Set(e, _) => Live(e, since)
    case Then(a, b) => Live(a, since) && Live(b, since)
    case Since(added, b) => since >= added && Live(b, since)
    case _ => true
  }

  // A wrapper that has failed.
  ghost predicate Failed(p: Wrap) { p.error == ERROR_FAILURE && p.mode == MEASURE }

  // After a failure a Do changes neither the object nor the buffer, only the cursor.
  lemma {:induction false} FailureSticks(s: Schema, v: Value, since: int, p: Wrap)
    requires Failed(p) && Shaped(s, v) && Live(s, since)
    ensures var r := Do(s, v, since, p); r.0 == v && r.1 == p.(ptr := r.1.ptr)
    decreases s, 1, 0
  {
    match s
    case Vector(e) =>
      U32RoundTrip(|v.items|);
      DefaultShaped(e);
      assert Resize(v.items, |v.items|, Default(e)) == v.items;
      ItemsFailureSticks(s, v.items, since, p.Skip(4));
    case Map(_, _, _) => EntriesFailureSticks(s, v.entries, since, p.Skip(4));
    case Set(_, _) => ItemsFailureSticks(s, v.items, since, p.Skip(4));
    case Then(a, b) =>
      FailureSticks(a, v.first, since, p);
      FailureSticks(b, v.second, since, Do(a, v.first, since, p).1);
    case Since(_, body) => FailureSticks(body, v, since, p);
    case _ =>
  }

  lemma {:induction false} ItemsFailureSticks(s: Schema, items: seq<Value>, since: int, p: Wrap)
    requires (s.Vector? || s.Set?) && |items| < 0x1_0000_0000 && forall i :: 0 <= i < |items| ==>
        Shaped(s.elem, items[i])
    requires Failed(p) && Live(s.elem, since)
    ensures var r := DoItems(s, items, since, p); r.0 == items && r.1 == p.(ptr := r.1.ptr)
    decreases s, 0, |items|
  {
    if items != [] {
      FailureSticks(s.elem, items[0], since, p);
      ItemsFailureSticks(s, items[1..], since, Do(s.elem, items[0], since, p).1);
    }
  }

  lemma {:induction false} EntriesFailureSticks(s: Schema, entries: seq<(Value, Value)>, since: int, p: Wrap)
    requires s.Map? && forall i :: 0 <= i < |entries| ==> Shaped(s.key, entries[i].0) && Shaped(s.val, entries[i].1)
    requires Failed(p) && Live(s.key, since) && Live(s.val, since)
    ensures var r := DoEntries(s, entries, since, p); r == p.(ptr := r.ptr)
    decreases s, 0, |entries|
  {
    if entries != [] {
      var q := Do(s.key, entries[0].0, since, p).1;
      FailureSticks(s.key, entries[0].0, since, p);
      FailureSticks(s.val, entries[0].1, since, q);
      EntriesFailureSticks(s, entries[1..], since, Do(s.val, entries[0].1, since, q).1);
    }
  }
}
