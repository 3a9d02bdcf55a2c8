/** The PointerWrap object over its buffer.  Every method is proved to compute the function of
    the same name in ChunkFile on the wrapper's state. */
module PointerWraps {
  import opened ByteOrder
  import opened SaveFormat
  import CF = ChunkFile
  import opened ChunkFile

  class PointerWrap {
    const buf: array<Byte>
    var ptr: int
    var mode: Mode
    var error: int
    ghost var ok: bool

    ghost function State(): Wrap
      reads this, buf
    {
      Wrap(buf[..], ptr, mode, error, ok)
    }

    constructor (buf: array<Byte>, mode: Mode)
      ensures this.buf == buf && State() == Wrap(buf[..], 0, mode, ERROR_NONE, true)
    {
      this.buf, ptr, this.mode, error, ok := buf, 0, mode, ERROR_NONE, true;
    }

    method SetError(e: int)
      modifies this
      ensures State() == CF.SetError(old(State()), e)
    {
      if error < e { error := e; }
      if error > ERROR_WARNING { mode := MEASURE; }
    }

    predicate Room(n: int)
      reads this
    {
      0 <= ptr && 0 <= n && ptr + n <= buf.Length
    }

    // memcpy to the cursor.
    method Store(data: seq<Byte>)
      requires Room(|data|)
      modifies buf
      ensures buf[..] == old(State()).Put(data).mem
    {
      var i := 0;
      while i < |data|
        invariant 0 <= i <= |data|
        invariant buf[..] == old(buf[..ptr]) + data[..i] + old(buf[ptr + i..])
      {
        buf[ptr + i] := data[i];
        i := i + 1;
      }
    }

    method DoVoid(data: seq<Byte>) returns (r: seq<Byte>)
      modifies this, buf
      ensures (r, State()) == CF.DoVoid(old(State()), data)
    {
      r := data;
      ghost var room := Room(|data|);
      match mode {
        case READ => if Room(|data|) { r := buf[ptr..ptr + |data|]; }
        case WRITE => if Room(|data|) { Store(data); }
        case MEASURE => room := true;
        case VERIFY => room := room && buf[ptr..ptr + |data|] == data;
      }
      ok := ok && room;
      ptr := ptr + |data|;
    }

    method ExpectVoid(data: seq<Byte>) returns (found: bool)
      modifies this, buf
      ensures (found, State()) == CF.ExpectVoid(old(State()), data)
    {
      if mode == READ {
        if !Room(|data|) { ok := false; return false; }
        if buf[ptr..ptr + |data|] != data { return false; }
      }
      var _ := DoVoid(data);
      return true;
    }

    method DoMarker()
      modifies this, buf
      ensures State() == CF.DoMarker(old(State()))
    {
      var cookie := DoVoid(U32(MARKER));
      if mode == READ && cookie != U32(MARKER) { SetError(ERROR_FAILURE); }
    }

    method FindSection(title: seq<Byte>, minVer: int, ver: int) returns (version: int)
      modifies this, buf
      ensures (version, State()) == CF.FindSection(old(State()), title, minVer, ver)
    {
      version := ver;
      var found := ExpectVoid(Marker(title));
      if !found {
        var legacy := false;
        if version == 1 { legacy := ExpectVoid(U32(version)); }
        if legacy { DoMarker(); } else { version := 0; }
      } else {
        var b := DoVoid(U32(version));
        version := ToS32(b);
      }
      if error == ERROR_FAILURE || version < minVer || version > ver {
        SetError(ERROR_FAILURE);
        version := -1;
      }
    }

    // x = (char *)*ptr: the bytes up to the first NUL, if there is one.
    method ReadCString() returns (x: seq<Byte>, terminated: bool)
      ensures var rest := if 0 <= ptr <= buf.Length then buf[ptr..] else [];
        terminated == (StrLen(rest) < |rest|) && x == rest[..StrLen(rest)]
    {
      x, terminated := [], false;
      if 0 <= ptr <= buf.Length {
        var n := 0;
        while ptr + n < buf.Length && buf[ptr + n] != 0
          invariant 0 <= n && ptr + n <= buf.Length
          invariant forall i :: 0 <= i < n ==> buf[ptr..][i] != 0
        {
          n := n + 1;
        }
        x, terminated := buf[ptr..][..n], ptr + n < buf.Length;
      }
    }

    method DoText(x: seq<Byte>) returns (r: seq<Byte>)
      modifies this, buf
      ensures (r, State()) == CF.DoText(old(State()), x)
    {
      var b := DoVoid(U32(|x| + 1));
      r := TextBody(x, ToS32(b));
    }

    method TextBody(x: seq<Byte>, stringLen: int) returns (r: seq<Byte>)
      modifies this, buf
      ensures (r, State()) == CF.TextBody(old(State()), x, stringLen)
    {
      r := x;
      match mode {
        case READ =>
          var there, terminated := ReadCString();
          if terminated { r := there; }
          ok := ok && terminated;
        case WRITE =>
          ghost var fits := stringLen == |x| + 1 && Room(|x| + 1);
          if stringLen == |x| + 1 && Room(|x| + 1) { Store(x + [0]); }
          ok := ok && fits;
        case MEASURE =>
        case VERIFY =>
          var there, terminated := ReadCString();
          ok := ok && terminated && there == x[..StrLen(x)];
      }
      ptr := ptr + stringLen;
    }

    // The loops of DoVector, DoDeque, DoList and, outside MODE_READ, DoSet.
    method DoItems(s: Schema, items: seq<Value>, since: int) returns (r: seq<Value>)
      requires (s.Vector? || s.Set?) && |items| < 0x1_0000_0000 && forall i :: 0 <= i < |items| ==>
          Shaped(s.elem, items[i])
      modifies this, buf
      ensures (r, State()) == CF.DoItems(s, items, since, old(State()))
      decreases s, 0
    {
      r := [];
      var i := 0;
      assert items[0..] == items;
      while i < |items|
        invariant 0 <= i <= |items|
        invariant var rest, all := CF.DoItems(s, items[i..], since, State()), CF.DoItems(s, items, since, old(State()));
          all.0 == r + rest.0 && all.1 == rest.1
      {
        assert items[i..][0] == items[i] && items[i..][1..] == items[i + 1..];
        var x := Do(s.elem, items[i], since);
        r := r + [x];
        i := i + 1;
      }
      assert items[|items|..] == [] && r + [] == r;
    }

    // The loop of DoMap outside MODE_READ.
    method DoEntries(s: Schema, entries: seq<(Value, Value)>, since: int)
      requires s.Map? && forall i :: 0 <= i < |entries| ==> Shaped(s.key, entries[i].0) && Shaped(s.val, entries[i].1)
      modifies this, buf
      ensures State() == CF.DoEntries(s, entries, since, old(State()))
      decreases s, 0
    {
      var i := 0;
      assert entries[0..] == entries;
      while i < |entries|
        invariant 0 <= i <= |entries|
        invariant CF.DoEntries(s, entries[i..], since, State()) == CF.DoEntries(s, entries, since, old(State()))
      {
        assert entries[i..][0] == entries[i] && entries[i..][1..] == entries[i + 1..];
        var _ := Do(s.key, entries[i].0, since);
        var _ := Do(s.val, entries[i].1, since);
        i := i + 1;
      }
    }

    method ReadEntry(s: Schema, acc: seq<(Value, Value)>, since: int, ghost n: nat) returns (r: seq<(Value, Value)>)
      requires s.Map? && n > 0 && |acc| + n < 0x1_0000_0000 && Shaped(s, Entries(acc))
      modifies this, buf
      ensures |r| <= |acc| + 1 && Shaped(s, Entries(r))
      ensures CF.ReadEntries(s, n, acc, since, old(State())) == CF.ReadEntries(s, n - 1, r, since, State())
      decreases s, 0, 0
    {
      DefaultShaped(s.key);
      DefaultShaped(s.val);
      var key := Do(s.key, Default(s.key), since);
      var val := Do(s.val, Default(s.val), since);
      PutEntryShaped(s, acc, key, val);
      r := PutEntry(s.less, acc, key, val);
    }

    // The loop of DoMap in MODE_READ.
    method ReadEntries(s: Schema, number: nat, since: int) returns (r: seq<(Value, Value)>)
      requires s.Map? && number < 0x1_0000_0000
      modifies this, buf
      ensures (r, State()) == CF.ReadEntries(s, number, [], since, old(State()))
      decreases s, 0, 1
    {
      r := [];
      var n: nat := number;
      while n > 0
        invariant n <= number && |r| + n < 0x1_0000_0000 && Shaped(s, Entries(r))
        invariant CF.ReadEntries(s, n, r, since, State()) == CF.ReadEntries(s, number, [], since, old(State()))
      {
        r := ReadEntry(s, r, since, n);
        n := n - 1;
      }
    }

    method ReadItem(s: Schema, acc: seq<Value>, since: int, ghost n: nat) returns (r: seq<Value>)
      requires s.Set? && n > 0 && |acc| + n < 0x1_0000_0000 && Shaped(s, Items(acc))
      modifies this, buf
      ensures |r| <= |acc| + 1 && Shaped(s, Items(r))
      ensures CF.ReadItems(s, n, acc, since, old(State())) == CF.ReadItems(s, n - 1, r, since, State())
      decreases s, 0, 0
    {
      DefaultShaped(s.elem);
      var item := Do(s.elem, Default(s.elem), since);
      PutItemShaped(s, acc, item);
      r := PutItem(s.less, acc, item);
    }

    // The loop of DoSet in MODE_READ.
    method ReadItems(s: Schema, number: nat, since: int) returns (r: seq<Value>)
      requires s.Set? && number < 0x1_0000_0000
      modifies this, buf
      ensures (r, State()) == CF.ReadItems(s, number, [], since, old(State()))
      decreases s, 0, 1
    {
      r := [];
      var n: nat := number;
      while n > 0
        invariant n <= number && |r| + n < 0x1_0000_0000 && Shaped(s, Items(r))
        invariant CF.ReadItems(s, n, r, since, State()) == CF.ReadItems(s, number, [], since, old(State()))
      {
        r := ReadItem(s, r, since, n);
        n := n - 1;
      }
    }

    // Do on an object of the schema, with the version of the enclosing section at hand.
    method Do(s: Schema, v: Value, since: int) returns (r: Value)
      requires Shaped(s, v)
      modifies this, buf
      ensures (r, State()) == CF.Do(s, v, since, old(State()))
      decreases s, 1
    {
      match s {
        case Unit => r := v;
        case Pod(_) => var b := DoVoid(v.bytes); r := Bytes(b);
        case Text => var b := DoText(v.bytes); r := Bytes(b);
        case Vector(e) =>
          var b := DoVoid(U32(|v.items|));
          DefaultShaped(e);
          var items := DoItems(s, Resize(v.items, ToU32(b), Default(e)), since);
          r := Items(items);
        case Map(_, _, _) =>
          var b := DoVoid(U32(|v.entries|));
          if mode == READ {
            var entries := ReadEntries(s, ToU32(b), since);
            r := Entries(entries);
          } else {
            DoEntries(s, v.entries, since);
            r := v;
          }
        case Set(_, _) =>
          var b := DoVoid(U32(|v.items|));
          if mode == READ {
            var items := ReadItems(s, ToU32(b), since);
            r := Items(items);
          } else {
            var _ := DoItems(s, v.items, since);
            r := v;
          }
        case Then(a, b) =>
          var x := Do(a, v.first, since);
          var y := Do(b, v.second, since);
          r := Both(x, y);
        case Section(title, minVer, ver, body) =>
          var version := FindSection(title, minVer, ver);
          r := v;
          if version > 0 {
            r := Do(body, v, version);
            DoMarker();
          }
        case Since(added, body) =>
          if since >= added { r := Do(body, v, since); } else { r := Default(body); }
      }
    }
  }
}
