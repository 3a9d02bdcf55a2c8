/** The save-state format of Common/ChunkFile.h: bytes, little-endian numbers, the values that
    a DoState traversal visits and the bytes that it is meant to leave. */
module SaveFormat {

  import opened ByteOrder
  import Words

  // ---------------------------------------------------------------- numbers

  function U32(x: int): (r: seq<Byte>)
    ensures |r| == 4
  {
    Le(x % 0x1_0000_0000, 4)
  }

  function ToU32(b: seq<Byte>): (x: nat)
    requires |b| == 4
    ensures x < 0x1_0000_0000
  {
    (b[0] as int) + 256 * ((b[1] as int) + 256 * ((b[2] as int) + 256 * (b[3] as int)))
  }

  function ToS32(b: seq<Byte>): (x: int)
    requires |b| == 4
    ensures -0x8000_0000 <= x < 0x8000_0000
  {
    Words.ToS32(ToU32(b))
  }

  lemma U32RoundTrip(x: int)
    ensures 0 <= x < 0x1_0000_0000 ==> ToU32(U32(x)) == x
    ensures -0x8000_0000 <= x < 0x8000_0000 ==> ToS32(U32(x)) == x
  {
    var y := x % 0x1_0000_0000;
    var y1, y2, y3 := y / 256, y / 256 / 256, y / 256 / 256 / 256;
    assert Le(y3, 1) == [y3 % 256];
    assert Le(y2, 2) == [y2 % 256, y3 % 256];
    assert Le(y1, 3) == [y1 % 256, y2 % 256, y3 % 256];
    assert U32(x) == [y % 256, y1 % 256, y2 % 256, y3 % 256];
  }

  // ---------------------------------------------------------------- schemas and values

  // operator< of the key type of a std::map or std::set.
  type KeyOrder = (Value, Value) -> bool

  datatype Schema =
    | Unit
    | Pod(size: nat)                       // DoVoid
    | Text                                 // std::string
    | Vector(elem: Schema)                 // std::vector, std::deque, std::list
    | Map(key: Schema, val: Schema, less: KeyOrder)  // std::map, in the order of its keys
    | Set(elem: Schema, less: KeyOrder)    // std::set
    | Then(first: Schema, second: Schema)  // one Do after another
    | Section(title: seq<Byte>, minVer: int, ver: int, body: Schema)
    | Since(added: int, body: Schema)      // if (s >= added) Do else reset, inside a section

  datatype Value =
    | Nothing
    | Bytes(bytes: seq<Byte>)
    | Items(items: seq<Value>)
    | Entries(entries: seq<(Value, Value)>)
    | Both(first: Value, second: Value)

  // T(): what a container's new element holds before it is read.
  function Default(s: Schema): Value {
    match s
    case Unit => Nothing
    case Pod(n) => Bytes(seq(n, _ => 0))
    case Text => Bytes([])
    case Vector(_) => Items([])
    case Map(_, _, _) => Entries([])
    case Set(_, _) => Items([])
    case Then(a, b) => Both(Default(a), Default(b))
    case Section(_, _, _, b) => Default(b)
    case Since(_, b) => Default(b)
  }

  // A C++ object of the schema's type, whatever it holds.
  ghost predicate Shaped(s: Schema, v: Value) {
    match s
    case Unit => v.Nothing?
    case Pod(n) => v.Bytes? && |v.bytes| == n
    case Text => v.Bytes?
    case Vector(e) => v.Items? && |v.items| < 0x1_0000_0000 && forall i :: 0 <= i < |v.items| ==> Shaped(e, v.items[i])
    case Map(k, x, _) => v.Entries? && |v.entries| < 0x1_0000_0000 && forall i :: 0 <= i < |v.entries| ==>
      Shaped(k, v.entries[i].0) && Shaped(x, v.entries[i].1)
    case Set(e, _) => v.Items? && |v.items| < 0x1_0000_0000 && forall i :: 0 <= i < |v.items| ==> Shaped(e, v.items[i])
    case Then(a, b) => v.Both? && Shaped(a, v.first) && Shaped(b, v.second)
    case Section(_, _, _, b) => Shaped(b, v)
    case Since(_, b) => Shaped(b, v)
  }

  lemma {:induction false} DefaultShaped(s: Schema)
    ensures Shaped(s, Default(s))
  {
    match s
    case Then(a, b) => DefaultShaped(a); DefaultShaped(b);
    case Section(_, _, _, b) => DefaultShaped(b);
    case Since(_, b) => DefaultShaped(b);
    case _ =>
  }
}
