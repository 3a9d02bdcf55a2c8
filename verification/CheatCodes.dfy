/** What a list of CWCheat codes does (CWCheatEngine::Run in Core/CwCheat.cpp), as a function from
    memory to memory.  Words are 32 bits wide; an address is read and written byte by byte. */
module CheatCodes {
  import Words
  import opened ByteOrder

  type Memory = map<nat, nat>

  // One of the two numbers of a line: whether its text begins with '0', and its value.
  datatype Part = Part(zero: bool, value: nat)

  // IsValidAddress; what some games take off every address; the buttons when the line at a
  // position is run.
  datatype Env = Env(valid: nat -> bool, shift: nat, buttons: nat -> nat)

  // fault: the first number of a missing operand line was read.
  datatype State = State(mem: Memory, pos: nat, fault: bool)

  function U32(x: int): (r: nat)
    ensures r < 0x1_0000_0000
  {
    x % 0x1_0000_0000
  }

  // ------------------------------------------------------------ memory

  function Read(m: Memory, a: nat, n: nat): nat
    decreases n
  {
    if n == 0 then 0 else (if a in m then m[a] % 256 else 0) + 256 * Read(m, a + 1, n - 1)
  }

  function Write(m: Memory, a: nat, v: nat, n: nat): Memory
    decreases n
  {
    if n == 0 then m else Write(m[a := v % 256], a + 1, v / 256, n - 1)
  }

  // Read_U8 to Read_U32 and Write_U8 to Write_U32: invalid addresses read 0 and keep nothing.
  function Load(env: Env, m: Memory, addr: int, n: nat): nat
  {
    if env.valid(U32(addr)) then Read(m, U32(addr), n) else 0
  }

  function Store(env: Env, m: Memory, addr: int, v: int, n: nat): Memory {
    if env.valid(U32(addr)) then Write(m, U32(addr), U32(v), n) else m
  }

  // All bytes are read before the first is written.
  function Bytes(m: Memory, a: nat, n: nat): seq<nat>
    decreases n
  {
    if n == 0 then [] else [Read(m, a, 1)] + Bytes(m, a + 1, n - 1)
  }

  function Put(m: Memory, a: nat, b: seq<nat>): Memory
    decreases |b|
  {
    if b == [] then m else Put(m[a := b[0]], a + 1, b[1..])
  }

  function Copy(m: Memory, dst: nat, src: nat, len: nat): Memory { Put(m, dst, Bytes(m, src, len)) }

  function CopyIfValid(env: Env, m: Memory, dst: int, src: int, len: nat): Memory {
    if env.valid(U32(dst)) && env.valid(U32(src)) then Copy(m, U32(dst), U32(src), len) else m
  }

  function GetAddress(env: Env, value: int): int { (value + 0x0880_0000) % 0x4000_0000 - env.shift }

  // ------------------------------------------------------------ the cursor

  ghost predicate IsList(parts: seq<Part>) {
    |parts| % 2 == 0 && |parts| < PAST_ALL && forall k :: 0 <= k < |parts| ==> parts[k].value < 0x1_0000_0000
  }

  // Behind the code at pos: a code whose first number does not begin with '0' takes in all
  // remaining lines.
  function After(parts: seq<Part>, pos: nat): (r: nat)
    requires IsList(parts) && pos < |parts| && pos % 2 == 0
    ensures pos < r <= |parts| && r % 2 == 0
  {
    if parts[pos].zero then pos + 2 else |parts|
  }

  // Past every code: codes.size() - 1 of a list nobody fills.
  const PAST_ALL: nat := 0xFFFF_FFFF_FFFF_FFFF

  predicate IsCursor(parts: seq<Part>, pos: nat) { pos % 2 == 0 || pos >= |parts| }

  // SkipCodes: up to count codes, and none behind one that is 0.
  function Skip(parts: seq<Part>, pos: nat, count: int): (r: nat)
    requires IsList(parts) && IsCursor(parts, pos)
    ensures r >= pos && IsCursor(parts, r) && (r > pos ==> r <= |parts|)
    decreases |parts| - pos
  {
    if count <= 0 || pos >= |parts| then pos
    else if parts[pos].value == 0 then After(parts, pos)
    else Skip(parts, After(parts, pos), count - 1)
  }

  // ------------------------------------------------------------ the codes

  function Pow16(k: nat): (r: nat)
    ensures r > 0
  {
    if k == 0 then 1 else 16 * Pow16(k - 1)
  }

  // The operand line, if there is one.
  datatype Operand = Missing | Found(first: nat, second: nat, pos: nat)

  function Next(parts: seq<Part>, pos: nat): (o: Operand)
    requires IsList(parts) && IsCursor(parts, pos)
    ensures o.Found? ==> pos < o.pos <= |parts| && o.pos % 2 == 0
  {
    if pos < |parts| then Found(parts[pos].value, parts[pos + 1].value, After(parts, pos)) else Missing
  }

  // The three plain writes: type 0 by the size of the value.
  function PlainWidth(kind: nat, arg: nat): nat {
    if kind == 1 || (kind == 0 && 0x100 <= arg < 0x1_0000) then 2 else if kind == 0 && arg < 0x100 then 1 else 4
  }

  function AdjustWidth(kind: nat): nat { if kind == 1 || kind == 2 then 1 else if kind == 3 || kind == 4 then 2 else 4 }

  // Add to a value or, for an even kind, take from it.
  function Adjust(env: Env, m: Memory, addr: int, kind: nat, amount: int): Memory {
    if 1 <= kind <= 6 then
      var n := AdjustWidth(kind);
      Store(env, m, addr, Load(env, m, addr, n) + if kind % 2 == 1 then amount else -amount, n)
    else m
  }

  // count values from data on, each dataAdd more, every step bytes from addr on.
  function Patch(env: Env, m: Memory, addr: int, data: int, n: nat, step: nat, dataAdd: int, count: nat): Memory
    decreases count
  {
    if count == 0 then m
      else Patch(env, Store(env, m, addr, data, n), addr + step, data + dataAdd, n, step, dataAdd, count - 1)
  }

  // Boolean commands: even numbers on bytes, odd ones on half-words; from 6 on none.
  function Logic(op: nat, x: nat, y: nat): nat
    requires op < 6
  {
    if op < 2 then Words.Or(x, y) else if op < 4 then Words.And(x, y) else Words.Xor(x, y)
  }

  function Boolean(env: Env, m: Memory, addr: int, arg: nat): Memory {
    var op, n := arg / 0x1_0000, if arg / 0x1_0000 % 2 == 0 then 1 else 2;
    if op < 6 && env.valid(U32(addr))
      then Store(env, m, addr, Logic(op, arg % Pow16(2 * n), Load(env, m, addr, n)), n) else m
  }

  // How a value compares with the one wanted; kinds from 4 on are never met.
  predicate Holds(kind: int, have: int, want: int) {
    (kind == 0 && have == want) || (kind == 1 && have != want) || (kind == 2 && have < want)
      || (kind == 3 && have > want)
  }

  // A type 6 code: where it writes and what, while its further lines are walked.  done: a copy
  // has taken the place of the write.
  datatype Walk = Walk(mem: Memory, pos: nat, base: int, done: bool)

  // A further line.  The leading digits are taken with their sign, so that 9 is none of them.
  function WalkLine(env: Env, w: Walk, o: Operand, addr: int, baseOffset: int, offset: int, arg: nat): Walk
    requires o.Found?
  {
    var kind := o.first / 0x1000_0000;
    Walk(if kind == 1 then CopyBetween(env, w.mem, addr, baseOffset, offset, o.first, arg) else w.mem, o.pos,
         if kind == 2 || kind == 3 then NextBase(env, w.mem, w.base, o.first, o.second) else w.base, w.done
           || kind == 1)
  }

  // From the pointer at addr to the half-word at the base.
  function CopyBetween(env: Env, m: Memory, addr: int, baseOffset: int, offset: int, first: nat, len: nat): Memory {
    CopyIfValid(env, m, Load(env, m, addr + baseOffset, 2) + first % 0x1000_0000, Load(env, m, addr, 4) + offset, len)
  }

  // One or two pointers on, forwards (2) or backwards (3).
  function NextBase(env: Env, m: Memory, base: int, first: nat, second: nat): int {
    var base' := Load(env, m, base + if first / 0x1000_0000 == 3 then -(first % 0x1000_0000) else first % 0x1000_0000,
      4);
    if second / 0x1000_0000 == 2 then Load(env, m, base' + second % 0x1000_0000, 4)
    else if second / 0x1000_0000 == 3 then Load(env, m, base' - second % 0x1000_0000, 4)
    else base'
  }

  function WalkLines(env: Env, parts: seq<Part>, w: Walk, addr: int, baseOffset: int, offset: int, arg: nat,
                     count: int): (r: Walk)
    requires IsList(parts) && IsCursor(parts, w.pos)
    ensures IsCursor(parts, r.pos) && r.pos >= w.pos
    decreases |parts| - w.pos
  {
    var o := Next(parts, w.pos);
    if count <= 0 || o.Missing? then w
    else WalkLines(env, parts, WalkLine(env, w, o, addr, baseOffset, offset, arg), addr, baseOffset, offset, arg,
      count - 1)
  }

  // Kinds 0 to 2 write at the base plus the offset, 3 to 5 minus it.
  function PointerWrite(env: Env, w: Walk, kind: nat, offset: int, arg: nat): Memory {
    if w.done || kind > 5 then w.mem
    else Store(env, w.mem,
      if kind < 3 then w.base + offset else w.base - offset, arg, if kind % 3 == 0 then 1 else if kind % 3 == 1 then 2
        else 4)
  }

  function Pointer(env: Env, parts: seq<Part>, m: Memory, addr: int, arg: nat, o: Operand): (r: State)
    requires IsList(parts) && o.Found? && IsCursor(parts, o.pos)
    ensures IsCursor(parts, r.pos) && r.pos >= o.pos
  {
    var baseOffset, offset := Words.ToS32(o.first) / 0x10_0000 * 4, Words.ToS32(o.second);
    var base := Load(env, m, addr + baseOffset, 4);
    var w := WalkLines(env, parts, Walk(m, o.pos, base, false), addr, baseOffset, offset, arg, o.first % 0x1_0000 - 2);
    State(PointerWrite(env, w, o.first / 0x1_0000 % 16, offset, arg), w.pos, false)
  }

  // ------------------------------------------------------------ the tests

  // Type E, and the end of a memory comparison.  How many codes it skips.
  function MultiSkip(env: Env, m: Memory, comm: nat, arg: nat): nat {
    var n := if comm / 0x100_0000 == 0xE1 then 1 else 2;
    var addr := GetAddress(env, arg % 0x1000_0000);
    if env.valid(U32(addr)) && !Holds(arg / 0x1000_0000, Load(env, m, addr, n), comm % Pow16(2 * n))
    then comm / 0x1_0000 % (if n == 1 then 0x100 else 0x1000) else 0
  }

  // Type D on a value: one code.
  function ValueSkip(env: Env, m: Memory, comm: nat, arg: nat): nat {
    var n := if arg / 0x1000_0000 == 2 then 1 else 2;
    var addr := GetAddress(env, comm % 0x1000_0000);
    if env.valid(U32(addr)) && !Holds(arg / 0x10_0000 % 16, Load(env, m, addr, n), arg % Pow16(2 * n)) then 1 else 0
  }

  // Type D on the buttons: 1 skips unless all are pressed, 3 if they are.
  function ButtonSkip(buttons: nat, comm: nat, arg: nat): nat {
    var pressed := Words.And(buttons, arg % 0x1000_0000) == arg % 0x1000_0000;
    if pressed == (arg / 0x1000_0000 == 3) then comm % 0x100 + 1 else 0
  }

  // Type D on two places in memory.
  function CompareSkip(env: Env, m: Memory, comm: nat, arg: nat, o: Operand): int
    requires o.Found?
  {
    var addr1, addr2 := GetAddress(env, comm % 0x1000_0000), GetAddress(env, arg % 0x1000_0000);
    var n := if o.second % 16 == 0 then 1 else if o.second % 16 == 1 then 2 else if o.second % 16 == 2 then 4 else 0;
    if env.valid(U32(addr1)) && env.valid(U32(addr2))
       && !Holds(arg / 0x1000_0000 - 4, Words.ToS32(Load(env, m, addr1, n)), Words.ToS32(Load(env, m, addr2, n)))
    then Words.ToS32(o.first) else 0
  }

  function Compare(env: Env, parts: seq<Part>, m: Memory, comm: nat, arg: nat, pos: nat): (r: nat)
    requires IsList(parts) && IsCursor(parts, pos) && arg / 0x1000_0000 >= 4
    ensures r >= pos && IsCursor(parts, r)
  {
    var o := Next(parts, pos);
    Skip(parts, if o.Found? then Skip(parts, o.pos, CompareSkip(env, m, comm, arg, o)) else pos,
      MultiSkip(env, m, comm, arg))
  }

  function TestD(env: Env, parts: seq<Part>, m: Memory, comm: nat, arg: nat, pos: nat, buttons: nat): (r: nat)
    requires IsList(parts) && IsCursor(parts, pos)
    ensures r >= pos && IsCursor(parts, r)
  {
    var kind := arg / 0x1000_0000;
    if kind == 0 || kind == 2 then Skip(parts, pos, ValueSkip(env, m, comm, arg))
    else if kind == 1 || kind == 3 then Skip(parts, pos, ButtonSkip(buttons, comm, arg))
    else if kind < 8 then Compare(env, parts, m, comm, arg, pos)
    else pos
  }

  // ------------------------------------------------------------ a code, and a list of them

  predicate Stopped(env: Env, m: Memory, comm: nat, arg: nat) {
    var addr := GetAddress(env, comm % 0x1000_0000);
    env.valid(U32(addr)) && Load(env, m, addr, 4) != arg
  }

  // The codes that cannot do without a second line: 32-bit adjustments, 32-bit patches, copies.
  predicate NeedsOperand(comm: nat) {
    var kind := comm / 0x1000_0000;
    kind == 4 || kind == 5 || (kind == 3 && (comm / 0x10_0000 % 16 == 5 || comm / 0x10_0000 % 16 == 6))
  }

  // What a code other than type 6 does to memory, with its operand line if it has one.
  function Effect(env: Env, m: Memory, comm: nat, arg: nat, o: Operand): Memory {
    var kind, addr := comm / 0x1000_0000, GetAddress(env, comm % 0x1000_0000);
    var kind3, place := comm / 0x10_0000 % 16, GetAddress(env, arg % 0x1000_0000);
    if kind < 3 then Store(env, m, addr, arg, PlainWidth(kind, arg))
    else if kind == 3 && !NeedsOperand(comm)
      then Adjust(env, m, place, kind3, comm % if kind3 < 3 then 0x100 else 0x1_0000)
    else if kind == 7 then Boolean(env, m, addr, arg)
    else if o.Missing? then m
    else if kind == 3 then Adjust(env, m, place, kind3, o.first)
    else if kind == 4 then Patch(env, m, addr, o.first, 4, arg % 0x1_0000 * 4, o.second, arg / 0x1_0000)
    else if kind == 5 then CopyIfValid(env, m, GetAddress(env, o.first), addr, arg)
    else if kind == 8 then
      var n := if o.first < 0x1_0000 then 1 else 2;
      Patch(env, m, addr, o.first, n, arg % 0x1_0000 * n, o.second, arg / 0x1_0000)
    else m
  }

  // Where it leaves the cursor, which is at pos behind its own line.
  function Jump(env: Env, parts: seq<Part>, m: Memory, comm: nat, arg: nat, pos: nat, buttons: nat): (r: nat)
    requires IsList(parts) && pos % 2 == 0 && pos <= |parts|
    ensures r >= pos && IsCursor(parts, r)
  {
    var kind, o := comm / 0x1000_0000, Next(parts, pos);
    if kind == 12 then (if Stopped(env, m, comm, arg) then PAST_ALL else pos)
    else if kind == 13 then TestD(env, parts, m, comm, arg, pos, buttons)
    else if kind == 14 then Skip(parts, pos, MultiSkip(env, m, comm, arg))
    else if (NeedsOperand(comm) || kind == 8) && o.Found? then o.pos
    else pos
  }

  function Execute(env: Env, parts: seq<Part>, s: State): (r: State)
    requires IsList(parts) && s.pos < |parts| && s.pos % 2 == 0
    ensures r.pos > s.pos && IsCursor(parts, r.pos)
  {
    var comm, arg, pos := parts[s.pos].value, parts[s.pos + 1].value, After(parts, s.pos);
    var o := Next(parts, pos);
    if NeedsOperand(comm) && o.Missing? then State(s.mem, pos, true)
    else if comm / 0x1000_0000 == 6 && o.Found? then
      Pointer(env, parts, s.mem, GetAddress(env, comm % 0x1000_0000), arg, o).(fault := s.fault)
    else State(Effect(env, s.mem, comm, arg, o), Jump(env, parts, s.mem, comm, arg, pos, env.buttons(s.pos)), s.fault)
  }

  // Every step leaves fewer lines unread.
  function RunFrom(env: Env, parts: seq<Part>, s: State): State
    requires IsList(parts) && IsCursor(parts, s.pos)
    decreases |parts| - s.pos
  {
    if s.pos >= |parts| || s.fault then s else RunFrom(env, parts, Execute(env, parts, s))
  }

  // ------------------------------------------------------------ what the cursor does

  // The states in which codes were run, first to last.
  function Turns(env: Env, parts: seq<Part>, s: State): seq<State>
    requires IsList(parts) && IsCursor(parts, s.pos)
    decreases |parts| - s.pos
  {
    if s.pos >= |parts| || s.fault then [] else [s] + Turns(env, parts, Execute(env, parts, s))
  }

  ghost predicate RunsAt(parts: seq<Part>, s: State) { IsList(parts) && s.pos < |parts| && s.pos % 2 == 0 && !s.fault }

  ghost predicate LeadsTo(env: Env, parts: seq<Part>, s: State, s': State)
  {
    RunsAt(parts, s) && Execute(env, parts, s) == s'
  }

  ghost predicate EndsBefore(env: Env, parts: seq<Part>, s: State, s': State)
  {
    RunsAt(parts, s) && Execute(env, parts, s).pos <= s'.pos
  }

  // Every turn is the one code at its position, and leads to the next.
  lemma {:induction false} TurnsLeadOn(env: Env, parts: seq<Part>, s: State)
    requires IsList(parts) && IsCursor(parts, s.pos)
    ensures var t := Turns(env, parts, s) + [RunFrom(env, parts, s)];
      t[0] == s && forall i :: 0 <= i < |t| - 1 ==> LeadsTo(env, parts, t[i], t[i + 1])
    decreases |parts| - s.pos
  {
    if s.pos < |parts| && !s.fault {
      var s' := Execute(env, parts, s);
      var t, t' := Turns(env, parts, s) + [RunFrom(env, parts, s)], Turns(env, parts, s') + [RunFrom(env, parts, s')];
      TurnsLeadOn(env, parts, s');
      assert t == [s] + t';
      forall i | 0 <= i < |t| - 1 ensures LeadsTo(env, parts, t[i], t[i + 1]) {
        if i > 0 { assert t[i] == t'[i - 1] && t[i + 1] == t'[i]; }
      }
    }
  }

  // The codes are run in the order of the list and none twice: each begins where the last one
  // with all it read or skipped had ended, or behind.
  lemma EachLineOnce(env: Env, parts: seq<Part>, s: State, i: nat, j: nat)
    requires IsList(parts) && IsCursor(parts, s.pos) && i < j < |Turns(env, parts, s)|
    ensures var t := Turns(env, parts, s); EndsBefore(env, parts, t[i], t[j]) && t[i].pos < t[j].pos
  {
    var t := Turns(env, parts, s) + [RunFrom(env, parts, s)];
    TurnsLeadOn(env, parts, s);
    assert t[i] == Turns(env, parts, s)[i] && t[j] == Turns(env, parts, s)[j];
    InOrder(env, parts, t, i, j);
  }

  lemma {:induction false} InOrder(env: Env, parts: seq<Part>, t: seq<State>, i: nat, j: nat)
    requires i < j < |t| && forall k :: 0 <= k < |t| - 1 ==> LeadsTo(env, parts, t[k], t[k + 1])
    ensures EndsBefore(env, parts, t[i], t[j]) && t[i].pos < t[j].pos
    decreases j - i
  {
    assert LeadsTo(env, parts, t[i], t[i + 1]);
    if i + 1 < j { InOrder(env, parts, t, i + 1, j); }
  }

  // A list is run to its end unless a code lacks its operand line, and that happens exactly at a
  // code that needs one and takes in the rest of the list.
  lemma FaultsExactly(env: Env, parts: seq<Part>, s: State)
    requires RunsAt(parts, s)
    ensures Execute(env, parts, s).fault <==> NeedsOperand(parts[s.pos].value) && After(parts, s.pos) == |parts|
  {}

  ghost predicate WellFormed(parts: seq<Part>) {
    forall k :: 0 <= k < |parts| && k % 2 == 0 && NeedsOperand(parts[k].value) ==> parts[k].zero && k + 2 < |parts|
  }

  lemma {:induction false} WellFormedRunsOut(env: Env, parts: seq<Part>, s: State)
    requires IsList(parts) && IsCursor(parts, s.pos) && WellFormed(parts) && !s.fault
    ensures RunFrom(env, parts, s).pos >= |parts| && !RunFrom(env, parts, s).fault
    decreases |parts| - s.pos
  {
    if s.pos < |parts| {
      FaultsExactly(env, parts, s);
      WellFormedRunsOut(env, parts, Execute(env, parts, s));
    }
  }

  // Behind a stopper whose word is not the one in memory nothing is run.
  lemma StopperEnds(env: Env, parts: seq<Part>, s: State)
    requires RunsAt(parts, s) && parts[s.pos].value / 0x1000_0000 == 12
    ensures var stopped := Stopped(env, s.mem, parts[s.pos].value, parts[s.pos + 1].value);
      RunFrom(env, parts, s) == if stopped then State(s.mem, PAST_ALL, false)
        else RunFrom(env, parts, State(s.mem, After(parts, s.pos), false))
  {
    assert RunFrom(env, parts, s) == RunFrom(env, parts, Execute(env, parts, s));
  }

  // ------------------------------------------------------------ skipped lines

  // Same lengths, the same from `from` on.
  ghost predicate SameFrom(parts: seq<Part>, parts': seq<Part>, from: nat) {
    IsList(parts) && IsList(parts') && |parts| == |parts'| && forall k :: from <= k < |parts| ==> parts[k] == parts'[k]
  }

  lemma {:induction false} SkipSame(parts: seq<Part>, parts': seq<Part>, pos: nat, count: int)
    requires SameFrom(parts, parts', pos) && IsCursor(parts, pos)
    ensures Skip(parts, pos, count) == Skip(parts', pos, count)
    decreases |parts| - pos
  {
    if count > 0 && pos < |parts| { SkipSame(parts, parts', After(parts, pos), count - 1); }
  }

  lemma {:induction false} WalkSame(env: Env, parts: seq<Part>, parts': seq<Part>, w: Walk, addr: int, baseOffset: int,
                                    offset: int, arg: nat, count: int)
    requires SameFrom(parts, parts', w.pos) && IsCursor(parts, w.pos)
    ensures WalkLines(env, parts, w, addr, baseOffset, offset, arg, count)
        == WalkLines(env, parts', w, addr, baseOffset, offset, arg, count)
    decreases |parts| - w.pos
  {
    if count > 0 && w.pos < |parts| {
      var w' := WalkLine(env, w, Next(parts, w.pos), addr, baseOffset, offset, arg);
      WalkSame(env, parts, parts', w', addr, baseOffset, offset, arg, count - 1);
    }
  }

  lemma ExecuteSame(env: Env, parts: seq<Part>, parts': seq<Part>, s: State)
    requires SameFrom(parts, parts', s.pos) && RunsAt(parts, s)
    ensures Execute(env, parts, s) == Execute(env, parts', s)
  {
    var comm, arg, pos := parts[s.pos].value, parts[s.pos + 1].value, After(parts, s.pos);
    var addr, o := GetAddress(env, comm % 0x1000_0000), Next(parts, pos);
    assert o == Next(parts', pos);
    if comm / 0x1000_0000 == 6 && o.Found? {
      PointerSame(env, parts, parts', s.mem, addr, arg, o);
    } else {
      JumpSame(env, parts, parts', s.mem, comm, arg, pos, env.buttons(s.pos));
    }
  }

  lemma PointerSame(env: Env, parts: seq<Part>, parts': seq<Part>, m: Memory, addr: int, arg: nat, o: Operand)
    requires o.Found? && SameFrom(parts, parts', o.pos) && IsCursor(parts, o.pos)
    ensures Pointer(env, parts, m, addr, arg, o) == Pointer(env, parts', m, addr, arg, o)
  {
    var baseOffset, offset := Words.ToS32(o.first) / 0x10_0000 * 4, Words.ToS32(o.second);
    WalkSame(env, parts, parts', Walk(m, o.pos, Load(env, m, addr + baseOffset, 4), false), addr, baseOffset, offset,
      arg, o.first % 0x1_0000 - 2);
  }

  lemma JumpSame(env: Env, parts: seq<Part>, parts': seq<Part>, m: Memory, comm: nat, arg: nat, pos: nat, buttons: nat)
    requires SameFrom(parts, parts', pos) && pos % 2 == 0 && pos <= |parts|
    ensures Jump(env, parts, m, comm, arg, pos, buttons) == Jump(env, parts', m, comm, arg, pos, buttons)
  {
    TestSame(env, parts, parts', m, comm, arg, pos, buttons);
    SkipSame(parts, parts', pos, MultiSkip(env, m, comm, arg));
  }

  lemma TestSame(env: Env, parts: seq<Part>, parts': seq<Part>, m: Memory, comm: nat, arg: nat, pos: nat, buttons: nat)
    requires SameFrom(parts, parts', pos) && IsCursor(parts, pos)
    ensures TestD(env, parts, m, comm, arg, pos, buttons) == TestD(env, parts', m, comm, arg, pos, buttons)
  {
    SkipSame(parts, parts', pos, ValueSkip(env, m, comm, arg));
    SkipSame(parts, parts', pos, ButtonSkip(buttons, comm, arg));
    var o := Next(parts, pos);
    var p := if o.Found? then Skip(parts, o.pos, CompareSkip(env, m, comm, arg, o)) else pos;
    if o.Found? { SkipSame(parts, parts', o.pos, CompareSkip(env, m, comm, arg, o)); }
    SkipSame(parts, parts', p, MultiSkip(env, m, comm, arg));
  }

  // A run depends on nothing in front of the cursor.
  lemma {:induction false} RunSame(env: Env, parts: seq<Part>, parts': seq<Part>, s: State)
    requires SameFrom(parts, parts', s.pos) && IsCursor(parts, s.pos)
    ensures RunFrom(env, parts, s) == RunFrom(env, parts', s)
    decreases |parts| - s.pos
  {
    if s.pos < |parts| && !s.fault {
      ExecuteSame(env, parts, parts', s);
      RunSame(env, parts, parts', Execute(env, parts, s));
    }
  }

  // Where a test's skipping begins: behind its line, or its operand line.
  function SkipStart(parts: seq<Part>, s: State): nat
    requires IsList(parts) && s.pos < |parts| && s.pos % 2 == 0
  {
    var kind, kind2, pos := parts[s.pos].value / 0x1000_0000, parts[s.pos + 1].value / 0x1000_0000, After(parts, s.pos);
    if kind == 13 && 4 <= kind2 < 8 && Next(parts, pos).Found? then Next(parts, pos).pos else pos
  }

  predicate IsTest(comm: nat) { comm / 0x1000_0000 == 13 || comm / 0x1000_0000 == 14 }

  // The lines from lo to hi say something else; only a line of the number 0 stays one, and what
  // takes in the rest of the list still does.
  ghost predicate Rewritten(parts: seq<Part>, parts': seq<Part>, lo: nat, hi: nat) {
    && IsList(parts) && IsList(parts') && |parts| == |parts'|
    && (forall k :: 0 <= k < |parts| && !(lo <= k < hi) ==> parts[k] == parts'[k])
    && (forall k :: 0 <= k < |parts| && k % 2 == 0 ==>
      parts[k].zero == parts'[k].zero && (parts[k].value == 0 <==> parts'[k].value == 0))
  }

  lemma {:induction false} SkipKeeps(parts: seq<Part>, parts': seq<Part>, lo: nat, hi: nat, pos: nat, count: int)
    requires Rewritten(parts, parts', lo, hi) && IsCursor(parts, pos)
    ensures Skip(parts, pos, count) == Skip(parts', pos, count)
    decreases |parts| - pos
  {
    if count > 0 && pos < |parts| { SkipKeeps(parts, parts', lo, hi, After(parts, pos), count - 1); }
  }

  lemma ComparisonKeeps(env: Env, parts: seq<Part>, parts': seq<Part>, m: Memory, comm: nat, arg: nat, pos: nat,
                        hi: nat)
    requires IsList(parts) && IsCursor(parts, pos) && arg / 0x1000_0000 >= 4
    requires Rewritten(parts, parts', if Next(parts, pos).Found? then Next(parts, pos).pos else pos, hi)
    ensures Compare(env, parts, m, comm, arg, pos) == Compare(env, parts', m, comm, arg, pos)
  {
    var o := Next(parts, pos);
    var lo := if o.Found? then o.pos else pos;
    assert o == Next(parts', pos);
    var p := if o.Found? then Skip(parts, o.pos, CompareSkip(env, m, comm, arg, o)) else pos;
    if o.Found? { SkipKeeps(parts, parts', lo, hi, o.pos, CompareSkip(env, m, comm, arg, o)); }
    SkipKeeps(parts, parts', lo, hi, p, MultiSkip(env, m, comm, arg));
  }

  lemma TestDKeeps(env: Env, parts: seq<Part>, parts': seq<Part>, m: Memory, comm: nat, arg: nat, pos: nat,
                   buttons: nat, lo: nat, hi: nat)
    requires Rewritten(parts, parts', lo, hi) && IsCursor(parts, pos)
    requires lo == if 4 <= arg / 0x1000_0000 < 8 && Next(parts, pos).Found? then Next(parts, pos).pos else pos
    ensures TestD(env, parts, m, comm, arg, pos, buttons) == TestD(env, parts', m, comm, arg, pos, buttons)
  {
    var kind := arg / 0x1000_0000;
    if kind == 0 || kind == 2 {
      SkipKeeps(parts, parts', lo, hi, pos, ValueSkip(env, m, comm, arg));
    } else if kind == 1 || kind == 3 {
      SkipKeeps(parts, parts', lo, hi, pos, ButtonSkip(buttons, comm, arg));
    } else if kind < 8 {
      ComparisonKeeps(env, parts, parts', m, comm, arg, pos, hi);
    }
  }

  lemma TestKeeps(env: Env, parts: seq<Part>, parts': seq<Part>, s: State, hi: nat)
    requires RunsAt(parts, s) && IsTest(parts[s.pos].value) && Rewritten(parts, parts', SkipStart(parts, s), hi)
    ensures Execute(env, parts, s) == Execute(env, parts', s) && Execute(env, parts, s).mem == s.mem
  {
    var comm, arg, lo, pos := parts[s.pos].value, parts[s.pos + 1].value, SkipStart(parts, s), After(parts, s.pos);
    if comm / 0x1000_0000 == 14 {
      SkipKeeps(parts, parts', lo, hi, pos, MultiSkip(env, s.mem, comm, arg));
    } else {
      TestDKeeps(env, parts, parts', s.mem, comm, arg, pos, env.buttons(s.pos), lo, hi);
    }
  }

  // What a failed test skips has no effect whatever it says: on memory, or on what is run next.
  lemma SkippedLinesDoNothing(env: Env, parts: seq<Part>, parts': seq<Part>, s: State)
    requires RunsAt(parts, s) && IsTest(parts[s.pos].value)
        && Rewritten(parts, parts', SkipStart(parts, s), Execute(env, parts, s).pos)
    ensures RunFrom(env, parts, s) == RunFrom(env, parts', s)
  {
    TestKeeps(env, parts, parts', s, Execute(env, parts, s).pos);
    RunSame(env, parts, parts', Execute(env, parts, s));
  }

  // A memory comparison runs on into the test of several lines, whose conditions its kind never
  // meets.  So the line behind its operand is run only if the comparison holds (or skips nothing)
  // and the second address is invalid or its code's middle digits are 0.
  lemma ComparisonFallsThrough(env: Env, parts: seq<Part>, m: Memory, comm: nat, arg: nat, pos: nat)
    requires IsList(parts) && IsCursor(parts, pos) && 4 <= arg / 0x1000_0000 < 8 && Next(parts, pos).Found?
        && Next(parts, pos).pos < |parts|
    requires comm / 0x1000_0000 == 13
    ensures var o := Next(parts, pos);
      TestD(env, parts, m, comm, arg, pos, 0) == o.pos <==>
      CompareSkip(env, m, comm, arg, o) <= 0
        && (!env.valid(U32(GetAddress(env, arg % 0x1000_0000))) || comm / 0x1_0000 % 0x1000 == 0)
  {
    var o := Next(parts, pos);
    var c := CompareSkip(env, m, comm, arg, o);
    SkipMoves(parts, o.pos, c);
    SkipMoves(parts, o.pos, MultiSkip(env, m, comm, arg));
    assert comm / 0x100_0000 != 0xE1;
  }

  // Comparing two places of empty memory for equality, with nothing to skip, still skips the line
  // behind.
  lemma EqualValuesStillSkip(buttons: nat -> nat)
    ensures var env := Env(_ => true, 0, buttons);
      var parts := [Part(true, 0xD001_0000), Part(true, 0x4000_0000), Part(true, 0), Part(true, 0),
                    Part(true, 0x2000_0000), Part(true, 1)];
      && CompareSkip(env, map[], 0xD001_0000, 0x4000_0000, Found(0, 0, 4)) == 0
      && Execute(env, parts, State(map[], 0, false)) == State(map[], 6, false)
  {
    var env := Env(_ => true, 0, buttons);
    var parts := [Part(true, 0xD001_0000), Part(true, 0x4000_0000), Part(true, 0), Part(true, 0),
                  Part(true, 0x2000_0000), Part(true, 1)];
    assert IsList(parts) && Next(parts, 2) == Found(0, 0, 4);
    assert MultiSkip(env, map[], 0xD001_0000, 0x4000_0000) == 1;
    assert Skip(parts, 4, 0) == 4 && Skip(parts, 4, 1) == Skip(parts, 6, 0) == 6;
  }

  lemma SkipMoves(parts: seq<Part>, pos: nat, count: int)
    requires IsList(parts) && IsCursor(parts, pos) && pos < |parts|
    ensures Skip(parts, pos, count) == pos <==> count <= 0
  {}

  // ------------------------------------------------------------ memory cells

  lemma {:induction false} WriteElsewhere(m: Memory, a: nat, v: nat, n: nat, k: nat)
    requires k < a || a + n <= k
    ensures (k in Write(m, a, v, n)) == (k in m) && (k in m ==> Write(m, a, v, n)[k] == m[k])
    decreases n
  {
    if n > 0 { WriteElsewhere(m[a := v % 256], a + 1, v / 256, n - 1, k); }
  }

  lemma {:induction false} ReadsWritten(m: Memory, a: nat, v: nat, n: nat)
    ensures Read(Write(m, a, v, n), a, n) == v % Limit(n)
    decreases n
  {
    if n > 0 {
      var m' := m[a := v % 256];
      WriteElsewhere(m', a + 1, v / 256, n - 1, a);
      ReadsWritten(m', a + 1, v / 256, n - 1);
      ByteSplit(v, Limit(n - 1));
    }
  }

  lemma ByteSplit(v: nat, l: nat)
    requires l > 0
    ensures v % (256 * l) == v % 256 + 256 * (v / 256 % l)
  {
    Words.Digits(v, 256, l);
  }

  lemma {:induction false} ReadsElsewhere(m: Memory, a: nat, v: nat, n: nat, b: nat, l: nat)
    requires b + l <= a || a + n <= b
    ensures Read(Write(m, a, v, n), b, l) == Read(m, b, l)
    decreases l
  {
    if l > 0 {
      WriteElsewhere(m, a, v, n, b);
      ReadsElsewhere(m, a, v, n, b + 1, l - 1);
    }
  }

  // Cell k of a patch.
  function Cell(addr: int, step: nat, k: nat): nat { U32(addr + k * step) }

  ghost predicate Untouched(env: Env, addr: int, step: nat, n: nat, count: nat, b: nat, l: nat) {
    forall k: nat :: k < count && env.valid(Cell(addr, step, k)) ==>
      b + l <= Cell(addr, step, k) || Cell(addr, step, k) + n <= b
  }

  lemma NextCell(addr: int, step: nat, k: nat)
    ensures Cell(addr + step, step, k) == Cell(addr, step, k + 1)
  {}

  // A patch leaves alone what none of its valid cells covers,
  lemma {:induction false} PatchElsewhere(env: Env, m: Memory, addr: int, data: int, n: nat, step: nat, dataAdd: int,
                                          count: nat, b: nat, l: nat)
    requires Untouched(env, addr, step, n, count, b, l)
    ensures Read(Patch(env, m, addr, data, n, step, dataAdd, count), b, l) == Read(m, b, l)
    decreases count
  {
    if count > 0 {
      var next := addr + step;
      assert Cell(addr, step, 0) == U32(addr);
      forall k: nat {:trigger Cell(next, step, k)} | k < count - 1 ensures Cell(next, step, k)
        == Cell(addr, step, k + 1) { NextCell(addr, step, k); }
      PatchElsewhere(env, Store(env, m, addr, data, n), addr + step, data + dataAdd, n, step, dataAdd, count - 1, b, l);
      if env.valid(U32(addr)) { ReadsElsewhere(m, U32(addr), U32(data), n, b, l); }
    }
  }

  // and leaves in each valid cell its value, unless a later valid cell overlaps it.
  lemma {:induction false} PatchedCell(env: Env, m: Memory, addr: int, data: int, n: nat, step: nat, dataAdd: int,
                                       count: nat, k: nat)
    requires k < count && env.valid(Cell(addr, step, k))
    requires Untouched(env, addr + (k + 1) * step, step, n, count - k - 1, Cell(addr, step, k), n)
    ensures Read(Patch(env, m, addr, data, n, step, dataAdd, count), Cell(addr, step, k), n)
        == U32(data + k * dataAdd) % Limit(n)
    decreases count
  {
    var m' := Store(env, m, addr, data, n);
    if k == 0 {
      assert Cell(addr, step, 0) == U32(addr);
      PatchElsewhere(env, m', addr + step, data + dataAdd, n, step, dataAdd, count - 1, U32(addr), n);
      ReadsWritten(m, U32(addr), U32(data), n);
    } else {
      assert addr + step + (k - 1) * step == addr + k * step && addr + step + k * step == addr + (k + 1) * step;
      assert data + dataAdd + (k - 1) * dataAdd == data + k * dataAdd;
      PatchedCell(env, m', addr + step, data + dataAdd, n, step, dataAdd, count - 1, k - 1);
    }
  }
}
