/** CWCheatEngine of Core/CwCheat.cpp: the cursor over the list and the interpreter's loop, against
    CheatCodes.  Instruction-cache invalidation is not modelled. */
module CwCheat {
  import opened CheatCodes
  import Words

  class CWCheatEngine {
    const env: Env
    var parts: seq<Part>
    var codes: seq<Part> // never filled
    var currentCode: nat
    var exit2: bool
    var mem: Memory
    var fault: bool

    constructor (env: Env, parts: seq<Part>, mem: Memory)
      requires IsList(parts)
      ensures Valid() && this.env == env && this.parts == parts && this.mem == mem
    {
      this.env, this.parts, this.mem := env, parts, mem;
      codes, currentCode, exit2, fault := [], 0, false, false;
    }

    ghost predicate Valid()
      reads this
    {
      IsList(parts) && codes == [] && IsCursor(parts, currentCode)
    }

    ghost function Now(): State
      reads this
    {
      State(mem, currentCode, fault)
    }

    method Exit()
      modifies this`exit2
      ensures exit2
    {
      exit2 := true;
    }

    // The numbers of the next code, its own first; none at the end of the list.
    method GetNextCode() returns (finalCode: seq<nat>)
      requires Valid()
      modifies this`currentCode
      ensures Valid()
      ensures old(currentCode) >= |parts| ==> finalCode == [] && currentCode == old(currentCode)
      ensures old(currentCode) < |parts| ==>
                && |finalCode| >= 2 && finalCode[0] == parts[old(currentCode)].value
                  && finalCode[1] == parts[old(currentCode) + 1].value
                && currentCode == After(parts, old(currentCode))
    {
      finalCode := [];
      var splitCode: seq<Part> := [];
      while true
        invariant Valid() && currentCode >= old(currentCode)
            && (currentCode > old(currentCode) ==> currentCode <= |parts|)
        invariant currentCode == old(currentCode) ==> splitCode == [] && finalCode == []
        invariant currentCode != old(currentCode) ==> |splitCode| >= 2 && |finalCode| >= 2 && !splitCode[0].zero
        invariant currentCode != old(currentCode) ==>
          splitCode[..2] == parts[old(currentCode)..old(currentCode) + 2]
        invariant currentCode != old(currentCode) ==>
          finalCode[0] == splitCode[0].value && finalCode[1] == splitCode[1].value
        decreases |parts| - currentCode
      {
        if currentCode >= |parts| { break; }
        splitCode := splitCode + [parts[currentCode], parts[currentCode + 1]];
        currentCode := currentCode + 2;
        finalCode := finalCode + [splitCode[0].value, splitCode[1].value];
        if splitCode[0].zero { break; }
      }
    }

    method SkipCodes(count: int)
      requires Valid()
      modifies this`currentCode
      ensures Valid() && currentCode == Skip(parts, old(currentCode), count)
    {
      var i := 0;
      while i < count
        invariant Valid() && i >= 0 && Skip(parts, currentCode, count - i) == Skip(parts, old(currentCode), count)
        decreases count - i
      {
        var code := GetNextCode();
        if code == [] { break; }
        if code[0] == 0 { break; }
        i := i + 1;
      }
    }

    method SkipAllCodes()
      requires Valid()
      modifies this`currentCode
      ensures Valid() && currentCode == PAST_ALL
    {
      currentCode := (|codes| - 1) % 0x1_0000_0000_0000_0000;
    }

    // Case 3: what it does to memory, the amount once known.
    method AdjustMemory(addr: int, kind: nat, increment: nat)
      modifies this`mem
      ensures mem == Adjust(env, old(mem), addr, kind, increment)
    {
      var n := AdjustWidth(kind);
      if 1 <= kind <= 6 {
        var value: int := Load(env, mem, addr, n);
        if kind % 2 == 1 { value := value + increment; } else { value := value - increment; }
        mem := Store(env, mem, addr, value, n);
      }
    }

    method AdjustCommand(comm: nat, arg: nat)
      requires Valid() && comm / 0x1000_0000 == 3
      modifies this`currentCode, this`mem, this`fault
      ensures var o := Next(parts, old(currentCode));
        if NeedsOperand(comm) && o.Missing? then fault && mem == old(mem) && currentCode == old(currentCode)
        else
          && fault == old(fault) && currentCode == (if NeedsOperand(comm) then o.pos else old(currentCode))
          && mem == Effect(env, old(mem), comm, arg, o)
    {
      var addr, kind := GetAddress(env, arg % 0x1000_0000), comm / 0x10_0000 % 16;
      var increment := comm % if kind < 3 then 0x100 else 0x1_0000;
      if kind == 5 || kind == 6 {
        var code := GetNextCode();
        if code == [] {
          fault := true;
          return;
        }
        increment := code[0];
      }
      AdjustMemory(addr, kind, increment);
    }

    // The loop of cases 4 and 8.
    method PatchMemory(start: int, first: int, n: nat, stepAddr: nat, dataAdd: int, count: nat)
      modifies this`mem
      ensures mem == Patch(env, old(mem), start, first, n, stepAddr, dataAdd, count)
    {
      var addr, data := start, first;
      for a := 0 to count
        invariant Patch(env, mem, addr, data, n, stepAddr, dataAdd, count - a)
            == Patch(env, old(mem), start, first, n, stepAddr, dataAdd, count)
      {
        if env.valid(U32(addr)) { mem := Store(env, mem, addr, data, n); }
        addr := addr + stepAddr;
        data := data + dataAdd;
      }
    }

    // Cases 4 and 8, and 5.
    method BlockCommand(comm: nat, arg: nat)
      requires Valid() && (comm / 0x1000_0000 == 4 || comm / 0x1000_0000 == 5 || comm / 0x1000_0000 == 8)
      modifies this`currentCode, this`mem, this`fault
      ensures var o := Next(parts, old(currentCode));
        && currentCode == (if o.Found? then o.pos else old(currentCode))
        && fault == (old(fault) || (o.Missing? && comm / 0x1000_0000 != 8))
        && mem == Effect(env, old(mem), comm, arg, o)
    {
      var kind, addr := comm / 0x1000_0000, GetAddress(env, comm % 0x1000_0000);
      var code := GetNextCode();
      if code == [] {
        if kind != 8 { fault := true; }
        return;
      }
      if kind == 4 {
        PatchMemory(addr, code[0], 4, arg % 0x1_0000 * 4, code[1], arg / 0x1_0000);
      } else if kind == 5 {
        mem := CopyIfValid(env, mem, GetAddress(env, code[0]), addr, arg);
      } else {
        var is8Bit := code[0] / 0x1_0000 == 0;
        PatchMemory(addr, code[0], if is8Bit then 1 else 2, arg % 0x1_0000 * if is8Bit then 1 else 2, code[1],
          arg / 0x1_0000);
      }
    }

    // Case 6.
    method PointerCommand(comm: nat, arg: nat)
      requires Valid()
      modifies this`currentCode, this`mem
      ensures var o, addr := Next(parts, old(currentCode)), GetAddress(env, comm % 0x1000_0000);
        if o.Missing? then currentCode == old(currentCode) && mem == old(mem)
        else State(mem, currentCode, false) == Pointer(env, parts, old(mem), addr, arg, o)
    {
      var addr := GetAddress(env, comm % 0x1000_0000);
      var code := GetNextCode();
      if |code| < 2 { return; }
      var offset, baseOffset := Words.ToS32(code[1]), Words.ToS32(code[0]) / 0x10_0000 * 4;
      var base := Load(env, mem, addr + baseOffset, 4);
      var done;
      base, done := WalkPointer(addr, baseOffset, offset, arg, base, code[0] % 0x1_0000);
      mem := PointerWrite(env, Walk(mem, currentCode, base, done), code[0] / 0x1_0000 % 16, offset, arg);
    }

    method WalkPointer(addr: int, baseOffset: int, offset: int, arg: nat, start: int, count: nat)
      returns (base: int, done: bool)
      requires Valid()
      modifies this`currentCode, this`mem
      ensures Valid()
      ensures Walk(mem, currentCode, base, done)
           == WalkLines(env, parts, Walk(old(mem), old(currentCode), start, false), addr, baseOffset, offset, arg,
             count - 2)
    {
      base, done := start, false;
      var i := 1;
      while i + 1 < count
        invariant Valid() && 1 <= i
        invariant WalkLines(env, parts, Walk(mem, currentCode, base, done), addr, baseOffset, offset, arg,
            count - 1 - i)
               == WalkLines(env, parts, Walk(old(mem), old(currentCode), start, false), addr, baseOffset, offset, arg,
                 count - 2)
      {
        var code := GetNextCode();
        if |code| < 2 { break; }
        base, done := WalkStep(addr, baseOffset, offset, arg, code[0], code[1], base, done);
        i := i + 1;
      }
    }

    method WalkStep(addr: int, baseOffset: int, offset: int, arg: nat, first: nat, second: nat, base: int, done: bool)
      returns (base': int, done': bool)
      modifies this`mem
      ensures Walk(mem, currentCode, base', done')
           == WalkLine(env, Walk(old(mem), 0, base, done), Found(first, second, currentCode), addr, baseOffset, offset,
             arg)
    {
      var kind, kind2 := first / 0x1000_0000, second / 0x1000_0000;
      base', done' := base, done;
      if kind == 1 {
        var srcAddr := Load(env, mem, addr, 4) + offset;
        var dstAddr := Load(env, mem, addr + baseOffset, 2) + first % 0x1000_0000;
        mem := CopyIfValid(env, mem, dstAddr, srcAddr, arg);
        done' := true;
      } else if kind == 2 || kind == 3 {
        var walkOffset: int := first % 0x1000_0000;
        if kind == 3 { walkOffset := -walkOffset; }
        base' := Load(env, mem, base + walkOffset, 4);
        if kind2 == 2 || kind2 == 3 {
          walkOffset := second % 0x1000_0000;
          if kind2 == 3 { walkOffset := -walkOffset; }
          base' := Load(env, mem, base' + walkOffset, 4);
        }
      }
    }

    // Case 0xD; true: it runs on into case 0xE.
    method TestCommand(comm: nat, arg: nat, buttons: nat) returns (fallsThrough: bool)
      requires Valid()
      modifies this`currentCode
      ensures Valid() && fallsThrough == (4 <= arg / 0x1000_0000 < 8)
      ensures (if fallsThrough then Skip(parts, currentCode, MultiSkip(env, mem, comm, arg)) else currentCode)
           == TestD(env, parts, mem, comm, arg, old(currentCode), buttons)
    {
      var kind, addr := arg / 0x1000_0000, GetAddress(env, comm % 0x1000_0000);
      fallsThrough := false;
      if kind == 0 || kind == 2 {
        var n := if kind == 2 then 1 else 2;
        if env.valid(U32(addr))
          && !Holds(arg / 0x10_0000 % 16, Load(env, mem, addr, n), arg % Pow16(2 * n)) { SkipCodes(1); }
      } else if kind == 1 || kind == 3 {
        var mask := arg % 0x1000_0000;
        var pressed := Words.And(buttons, mask) == mask;
        if pressed == (kind == 3) { SkipCodes(comm % 0x100 + 1); }
      } else if kind < 8 {
        CompareCommand(comm, arg);
        fallsThrough := true;
      }
    }

    method CompareCommand(comm: nat, arg: nat)
      requires Valid() && arg / 0x1000_0000 >= 4
      modifies this`currentCode
      ensures Valid()
      ensures var o := Next(parts, old(currentCode));
        currentCode == if o.Found? then Skip(parts, o.pos, CompareSkip(env, mem, comm, arg, o)) else old(currentCode)
    {
      var addr1, addr2 := GetAddress(env, comm % 0x1000_0000), GetAddress(env, arg % 0x1000_0000);
      var code := GetNextCode();
      if |code| >= 2 && env.valid(U32(addr1)) && env.valid(U32(addr2)) {
        var width := code[1] % 16;
        var memoryValue1, memoryValue2 := 0, 0;
        if width <= 2 {
          var n := if width == 0 then 1 else if width == 1 then 2 else 4;
          memoryValue1, memoryValue2 := Words.ToS32(Load(env, mem, addr1, n)), Words.ToS32(Load(env, mem, addr2, n));
        }
        if !Holds(arg / 0x1000_0000 - 4, memoryValue1, memoryValue2) { SkipCodes(Words.ToS32(code[0])); }
      }
    }

    // One code, its line read already.
    method RunCode(comm: nat, arg: nat, buttons: nat, ghost s: State)
      requires Valid() && RunsAt(parts, s) && comm == parts[s.pos].value && arg == parts[s.pos + 1].value
          && buttons == env.buttons(s.pos)
      requires Now() == State(s.mem, After(parts, s.pos), false)
      modifies this`currentCode, this`mem, this`fault
      ensures Valid() && Now() == Execute(env, parts, s)
    {
      var kind, addr := comm / 0x1000_0000, GetAddress(env, comm % 0x1000_0000);
      if kind < 3 {
        if env.valid(U32(addr)) { mem := Store(env, mem, addr, arg, PlainWidth(kind, arg)); }
      } else if kind == 3 {
        AdjustCommand(comm, arg);
      } else if kind == 4 || kind == 5 || kind == 8 {
        BlockCommand(comm, arg);
      } else if kind == 6 {
        PointerCommand(comm, arg);
      } else if kind == 7 {
        mem := Boolean(env, mem, addr, arg);
      } else if kind == 12 {
        if env.valid(U32(addr)) && Load(env, mem, addr, 4) != arg { SkipAllCodes(); }
      } else if kind == 13 {
        var fallsThrough := TestCommand(comm, arg, buttons);
        if fallsThrough { SkipCodes(MultiSkip(env, mem, comm, arg)); }
      } else if kind == 14 {
        SkipCodes(MultiSkip(env, mem, comm, arg));
      }
    }

    // The whole list from its start, over memory as it is: terminates, exited, with the state
    // the codes lead to.
    method Run()
      requires Valid()
      modifies this`exit2, this`currentCode, this`mem, this`fault
      ensures Valid() && exit2
      ensures Now() == RunFrom(env, parts, State(old(mem), 0, false))
    {
      exit2, fault := false, false;
      while !exit2
        invariant Valid()
            && if exit2 then Now() == RunFrom(env, parts, State(old(mem), 0, false)) else mem == old(mem) && !fault
        decreases !exit2
      {
        currentCode := 0;
        while true
          invariant Valid() && !exit2 && !fault
              && RunFrom(env, parts, Now()) == RunFrom(env, parts, State(old(mem), 0, false))
          decreases |parts| - currentCode
        {
          ghost var s := Now();
          var buttons := env.buttons(currentCode);
          var code := GetNextCode();
          if |code| < 2 {
            Exit();
            break;
          }
          RunCode(code[0], code[1], buttons, s);
          if fault {
            Exit();
            break;
          }
        }
      }
      Exit();
    }
  }
}
