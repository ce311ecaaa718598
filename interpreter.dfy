/** The interpreter object (class `chip8`): its fields are updated in place, one method per
    public operation, each proved against the machine-value semantics. */
module Interpreter {
  import opened Hardware
  import opened Instructions
  import opened Sprites
  import opened Semantics

  class Chip8 {
    var opcode: Word
    const memory: array<Byte>
    const v: array<Byte>
    var index: Word
    var pc: Word
    const gfx: array<Byte>
    var delayTimer: Byte
    var soundTimer: Byte
    const stack: array<Word>
    var sp: Word
    /** The keypad; the input backend writes it directly (it is public in the C++). */
    const key: array<Byte>
    var drawFlag: bool

    /** The fixed array sizes, a stack pointer within the stack, and no two byte arrays shared. */
    ghost predicate Valid()
      reads this
    {
      memory.Length == MemorySize && v.Length == RegisterCount && gfx.Length == PixelCount &&
      stack.Length == StackSize && key.Length == KeyCount && sp <= StackSize &&
      memory != v && memory != gfx && memory != key && v != gfx && v != key && gfx != key
    }

    /** The object's state as a machine value. */
    ghost function Model(): (m: Machine)
      reads this, memory, v, gfx, stack, key
      ensures Valid() ==> WellFormed(m)
    {
      Machine(opcode, memory[..], v[..], index, pc, gfx[..], delayTimer, soundTimer,
              stack[..], sp, key[..], drawFlag)
    }

    /** The C++ constructor is empty; the program's only instance is a global, which static
        storage zero-initialises, so the arrays start zeroed here. */
    constructor ()
      ensures Valid()
      ensures fresh(memory) && fresh(v) && fresh(gfx) && fresh(stack) && fresh(key)
    {
      memory := new Byte[MemorySize](_ => 0);
      v := new Byte[RegisterCount](_ => 0);
      gfx := new Byte[PixelCount](_ => 0);
      stack := new Word[StackSize](_ => 0);
      key := new Byte[KeyCount](_ => 0);
      opcode, index, pc, sp := 0, 0, 0, 0;
      delayTimer, soundTimer, drawFlag := 0, 0, false;
    }

    /** Counters to their start values, every array cleared, the font copied to address 0. */
    method Initialize()
      requires Valid()
      modifies this, memory, v, gfx, stack, key
      ensures Valid() && IsReset(Model())
    {
      pc := ProgramStart;
      opcode := 0;
      index := 0;
      sp := 0;
      delayTimer := 0;
      soundTimer := 0;
      forall a | 0 <= a < memory.Length { memory[a] := 0; }
      forall r | 0 <= r < v.Length { v[r] := 0; }
      forall p | 0 <= p < gfx.Length { gfx[p] := 0; }
      forall d | 0 <= d < stack.Length { stack[d] := 0; }
      forall k | 0 <= k < key.Length { key[k] := 0; }
      drawFlag := true;
      for i := 0 to FontSize
        modifies memory
        invariant forall a | 0 <= a < MemorySize :: memory[a] == if a < i then FontSet[a] else 0
      {
        memory[i] := FontSet[i];
      }
    }

    /** The size checks and the copy of `LoadGame`, with the file's bytes given as `rom`. */
    method LoadRom(rom: seq<Byte>) returns (outcome: Result<(), LoadError>)
      requires Valid()
      modifies memory
      ensures Valid()
      ensures Load(old(Model()), rom) == if outcome.Ok? then Ok(Model()) else Err(outcome.error)
      ensures outcome.Err? ==> Model() == old(Model())
    {
      if |rom| == 0 {
        return Err(RomEmpty);
      }
      if |rom| > MaxRomSize {
        return Err(RomTooLarge);
      }
      for i := 0 to |rom|
        modifies memory
        invariant forall a | 0 <= a < MemorySize ::
          memory[a] == if ProgramStart <= a < ProgramStart + i then rom[a - ProgramStart] else old(memory[a])
      {
        memory[ProgramStart + i] := rom[i];
      }
      assert memory[..] == old(memory[..])[..ProgramStart] + rom + old(memory[..])[ProgramStart + |rom|..];
      outcome := Ok(());
    }

    /** One cycle of `EmulateCycle`: fetch, decode, execute. An out-of-range access is
        reported and leaves the object as it was. */
    method Step(random: nat) returns (outcome: Result<(), Fault>)
      requires Valid()
      modifies this, memory, v, gfx, stack
      ensures Valid()
      ensures Semantics.Step(old(Model()), random) == if outcome.Ok? then Ok(Model()) else Err(outcome.error)
      ensures outcome.Err? ==> Model() == old(Model())
    {
      ghost var before := Model();
      if pc + 1 >= MemorySize {
        assert !CanFetch(before);
        return Err(FetchOutOfRange);
      }
      var word := memory[pc] as int * 0x100 + memory[pc + 1];
      assert CanFetch(before) && word == Fetch(before);
      var ins := Decode(word);
      var fault := FindHazard(ins);
      HazardAfterFetch(before, ins);
      if fault.Some? {
        assert Semantics.Step(before, random) == Err(fault.value);
        return Err(fault.value);
      }
      opcode := word;
      pc := WrapWord(pc + 2);
      assert Model() == Fetched(before);
      Execute(ins, random);
      assert Semantics.Step(before, random) == Ok(Model());
      outcome := Ok(());
    }

    /** The out-of-range access `ins` would make, read off the current fields. */
    method FindHazard(ins: Instr) returns (fault: Option<Fault>)
      requires Valid()
      ensures fault == Hazard(Model(), ins)
    {
      ghost var m := Model();
      assert m.sp == sp && m.index == index && m.v == v[..];
      match ins
      case Return => fault := if sp == 0 then Some(StackUnderflow) else None;
      case Call(_) => fault := if sp >= StackSize then Some(StackOverflow) else None;
      case Draw(_, _, n) => fault := if n > 0 && index + n > MemorySize then Some(MemoryOutOfRange) else None;
      case SkipIfKeyDown(x) => fault := if v[x] >= KeyCount then Some(KeyOutOfRange) else None;
      case SkipIfKeyUp(x) => fault := if v[x] >= KeyCount then Some(KeyOutOfRange) else None;
      case StoreBcd(_) => fault := if index + 3 > MemorySize then Some(MemoryOutOfRange) else None;
      case StoreRegisters(x) => fault := if index + x + 1 > MemorySize then Some(MemoryOutOfRange) else None;
      case LoadRegisters(x) => fault := if index + x + 1 > MemorySize then Some(MemoryOutOfRange) else None;
      case _ => fault := None;
    }

    /** The `switch` of `EmulateCycle`, on a state whose pc has already advanced. */
    method Execute(ins: Instr, random: nat)
      requires Valid() && Hazard(Model(), ins).None?
      modifies this, memory, v, gfx, stack
      ensures Valid() && Model() == Apply(old(Model()), ins, random)
    {
      if IsControl(ins) {
        ExecuteControl(ins);
      } else if IsSkip(ins) {
        var condition := EvaluateSkip(ins);
        if condition {
          pc := WrapWord(pc + 2);
        }
      } else if IsArithmetic(ins) {
        ExecuteArithmetic(ins, random);
      } else if IsTimerOrIndex(ins) {
        ExecuteTimerOrIndex(ins);
      } else if IsMemoryTransfer(ins) {
        ExecuteMemoryTransfer(ins);
      } else if ins.WaitForKey? {
        WaitForKey(ins.x);
      } else {
        Draw(ins.x, ins.y, ins.n);
      }
    }

    /** 00E0, 00EE, 1NNN, 2NNN, BNNN and the unknown opcodes. */
    method ExecuteControl(ins: Instr)
      requires Valid() && Hazard(Model(), ins).None? && IsControl(ins)
      modifies this, gfx, stack
      ensures Valid() && Model() == ApplyControl(old(Model()), ins)
    {
      match ins
      case ClearScreen =>
        forall p | 0 <= p < gfx.Length { gfx[p] := 0; }
        drawFlag := true;
        assert gfx[..] == seq(PixelCount, _ => 0);
      case Return =>
        sp := sp - 1;
        pc := stack[sp];
      case Jump(nnn) =>
        pc := nnn;
      case Call(nnn) =>
        stack[sp] := pc;
        sp := sp + 1;
        pc := nnn;
      case JumpOffset(nnn) =>
        pc := v[0] + nnn;
      case _ =>
    }

    /** The condition of 3XNN, 4XNN, 5XY0, 9XY0, EX9E and EXA1. */
    method EvaluateSkip(ins: Instr) returns (condition: bool)
      requires Valid() && Hazard(Model(), ins).None? && IsSkip(ins)
      ensures condition == SkipCondition(Model(), ins)
    {
      match ins
      case SkipIfEqual(x, nn) => condition := v[x] == nn;
      case SkipIfNotEqual(x, nn) => condition := v[x] != nn;
      case SkipIfRegistersEqual(x, y) => condition := v[x] == v[y];
      case SkipIfRegistersDiffer(x, y) => condition := v[x] != v[y];
      case SkipIfKeyDown(x) => condition := key[v[x]] != 0;
      case SkipIfKeyUp(x) => condition := key[v[x]] == 0;
    }

    /** 6XNN, 7XNN, the 8XY_ group and CXNN; `random` stands for `rand()`. */
    method ExecuteArithmetic(ins: Instr, random: nat)
      requires Valid() && IsArithmetic(ins)
      modifies v
      ensures v[..] == Registers(old(v[..]), ins, random)
    {
      if ins.Add? || ins.Subtract? || ins.SubtractReverse? || ins.ShiftRight? || ins.ShiftLeft? {
        ExecuteFlagged(ins);
      } else {
        ExecuteUnflagged(ins, random);
      }
    }

    /** 6XNN, 7XNN, 8XY0, 8XY1, 8XY2, 8XY3 and CXNN. */
    method ExecuteUnflagged(ins: Instr, random: nat)
      requires Valid() && IsArithmetic(ins)
      requires !(ins.Add? || ins.Subtract? || ins.SubtractReverse? || ins.ShiftRight? || ins.ShiftLeft?)
      modifies v
      ensures v[..] == Registers(old(v[..]), ins, random)
    {
      match ins
      case SetRegister(x, nn) =>
        v[x] := nn;
      case AddImmediate(x, nn) =>
        v[x] := WrapByte(v[x] as int + nn);
      case Copy(x, y) =>
        v[x] := v[y];
      case Or(x, y) =>
        v[x] := BitOr(v[x], v[y]);
        v[FlagRegister] := 0;
      case And(x, y) =>
        v[x] := BitAnd(v[x], v[y]);
        v[FlagRegister] := 0;
      case Xor(x, y) =>
        v[x] := BitXor(v[x], v[y]);
        v[FlagRegister] := 0;
      case Random(x, nn) =>
        v[x] := BitAnd(random % 255, nn);
    }

    /** 8XY4, 8XY5, 8XY6, 8XY7 and 8XYE, which also set VF. */
    method ExecuteFlagged(ins: Instr)
      requires Valid()
      requires ins.Add? || ins.Subtract? || ins.SubtractReverse? || ins.ShiftRight? || ins.ShiftLeft?
      modifies v
      ensures v[..] == Registers(old(v[..]), ins, 0)
    {
      match ins
      case Add(x, y) =>
        v[FlagRegister] := if v[y] > 0xFF - v[x] then 1 else 0;
        v[x] := WrapByte(v[x] as int + v[y]);
      case Subtract(x, y) =>
        v[FlagRegister] := if v[x] >= v[y] then 1 else 0;
        v[x] := WrapByte(v[x] as int - v[y]);
      case ShiftRight(x, y) =>
        v[x] := v[y] / 2;
        v[FlagRegister] := v[x] % 2;
      case SubtractReverse(x, y) =>
        v[FlagRegister] := if v[y] > v[x] then 1 else 0;
        v[x] := WrapByte(v[y] as int - v[x]);
      case ShiftLeft(x, y) =>
        v[x] := WrapByte(v[y] as int * 2);
        v[FlagRegister] := v[x] / 0x80;
    }

    /** ANNN, FX07, FX15, FX18, FX1E and FX29. */
    method ExecuteTimerOrIndex(ins: Instr)
      requires Valid() && IsTimerOrIndex(ins)
      modifies this, v
      ensures Valid() && Model() == ApplyTimerOrIndex(old(Model()), ins)
    {
      if ins.ReadDelay? {
        v[ins.x] := delayTimer;
        return;
      }
      match ins
      case SetIndex(nnn) =>
        index := nnn;
      case SetDelay(x) =>
        delayTimer := v[x];
      case SetSound(x) =>
        soundTimer := v[x];
      case AddToIndex(x) =>
        index := WrapWord(index + v[x]);
      case FontCharacter(x) =>
        index := 0x50 + 5 * v[x] as int;
    }

    /** FX33, FX55 and FX65. */
    method ExecuteMemoryTransfer(ins: Instr)
      requires Valid() && Hazard(Model(), ins).None? && IsMemoryTransfer(ins)
      modifies this, memory, v
      ensures Valid() && Model() == ApplyMemoryTransfer(old(Model()), ins)
    {
      match ins
      case StoreBcd(x) =>
        memory[index] := v[x] / 100;
        memory[index + 1] := (v[x] / 10) % 10;
        memory[index + 2] := (v[x] % 100) % 10;
      case StoreRegisters(x) =>
        StoreRegisters(x);
      case LoadRegisters(x) =>
        LoadRegisters(x);
    }

    /** FX0A: the lowest pressed key goes to VX; with none pressed, pc steps back so that the
        instruction runs again. */
    method WaitForKey(x: Reg)
      requires Valid()
      modifies this, v
      ensures Valid() && Model() == ApplyWaitForKey(old(Model()), x)
    {
      var pressed := false;
      var i := 0;
      while i < KeyCount
        modifies v
        invariant 0 <= i <= KeyCount
        invariant !pressed && v[..] == old(v[..])
        invariant forall j | 0 <= j < i :: key[j] == 0
      {
        if key[i] != 0 {
          v[x] := i;
          pressed := true;
          break;
        }
        i := i + 1;
      }
      if !pressed {
        pc := WrapWord(pc - 2);
      }
    }

    /** FX55: V0..VX to memory[I..I + X], then I advances past them. */
    method StoreRegisters(x: Reg)
      requires Valid() && index + x + 1 <= MemorySize
      modifies this, memory
      ensures Valid() && Model() == ApplyMemoryTransfer(old(Model()), Instr.StoreRegisters(x))
    {
      for i := 0 to x + 1
        modifies memory
        invariant forall a | 0 <= a < MemorySize ::
          memory[a] == if index <= a < index + i then v[a - index] else old(memory[a])
      {
        memory[index + i] := v[i];
      }
      assert memory[..] == old(memory[..])[..index] + v[..x + 1] + old(memory[..])[index + x + 1..];
      index := WrapWord(index + x + 1);
    }

    /** FX65: memory[I..I + X] to V0..VX, then I advances past them. */
    method LoadRegisters(x: Reg)
      requires Valid() && index + x + 1 <= MemorySize
      modifies this, v
      ensures Valid() && Model() == ApplyMemoryTransfer(old(Model()), Instr.LoadRegisters(x))
    {
      for i := 0 to x + 1
        modifies v
        invariant forall r | 0 <= r < RegisterCount ::
          v[r] == if r < i then memory[index + r] else old(v[r])
      {
        v[i] := memory[index + i];
      }
      assert v[..] == memory[index .. index + x + 1] + old(v[..])[x + 1..];
      index := WrapWord(index + x + 1);
    }

    /** DXYN: the row and column loops, toggling each covered pixel and raising VF on a
        pixel that was on. */
    method Draw(x: Reg, y: Reg, n: Nibble)
      requires Valid() && Hazard(Model(), Instr.Draw(x, y, n)).None?
      modifies this, v, gfx
      ensures Valid() && Model() == ApplyDraw(old(Model()), x, y, n)
    {
      var vx, vy := v[x], v[y];
      v[FlagRegister] := 0;
      ghost var before := gfx[..];
      ghost var sprite := SpriteRows(old(Model()), n);
      PartlyDrawnStart(before, sprite, vx, vy);
      for row := 0 to n
        modifies v, gfx
        invariant gfx[..] == PartlyDrawn(before, sprite, vx, vy, row, 0)
        invariant v[..] == old(v[..])[FlagRegister := if CollidesBefore(before, sprite, vx, vy, row, 0) then 1 else 0]
      {
        var pixel := memory[index + row];
        for col := 0 to 8
          modifies v, gfx
          invariant gfx[..] == PartlyDrawn(before, sprite, vx, vy, row, col)
          invariant v[..] == old(v[..])[FlagRegister := if CollidesBefore(before, sprite, vx, vy, row, col) then 1 else 0]
        {
          PartlyDrawnNextColumn(before, sprite, vx, vy, row, col);
          CollidesBeforeNextColumn(before, sprite, vx, vy, row, col);
          if SpriteBit(pixel, col) {
            var pos := PixelIndex(vx, vy, row, col);
            if gfx[pos] == 1 {
              v[FlagRegister] := 1;
            }
            gfx[pos] := Toggle(gfx[pos]);
          }
        }
        PartlyDrawnNextRow(before, sprite, vx, vy, row);
      }
      PartlyDrawnAll(before, sprite, vx, vy);
      drawFlag := true;
    }

    /** The 60 Hz countdown of both timers; `beep` is raised where the C++ prints "Beep!". */
    method UpdateTimers() returns (beep: bool)
      requires Valid()
      modifies this
      ensures Valid() && (Model(), beep) == Tick(old(Model()))
    {
      beep := false;
      if delayTimer > 0 {
        delayTimer := delayTimer - 1;
      }
      if soundTimer > 0 {
        if soundTimer == 1 {
          beep := true;
        }
        soundTimer := soundTimer - 1;
      }
    }

    /** The byte at `address`; the C++ does no bounds check, so the caller must stay in range. */
    method GetMemory(address: int) returns (b: Byte)
      requires Valid() && 0 <= address < MemorySize
      ensures b == Model().memory[address]
    {
      b := memory[address];
    }

    /** Pixel `num` of the 64x32 framebuffer, row-major; 0 is off, 1 is on. */
    method GetPixel(num: int) returns (pixel: int)
      requires Valid() && 0 <= num < PixelCount
      ensures pixel == Model().gfx[num]
      ensures PixelsAreBits(Model()) ==> pixel == 0 || pixel == 1
    {
      pixel := gfx[num];
    }

    /** Whether the framebuffer changed since the front end last cleared the flag. */
    method GetDrawFlag() returns (flag: bool)
      ensures flag == Model().drawFlag
    {
      flag := drawFlag;
    }
  }
}
