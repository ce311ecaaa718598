/** The meaning of the CHIP-8 interpreter's operations on a machine value: one fetch-decode-
    execute cycle (`EmulateCycle`), one timer tick (`UpdateTimers`) and the copy of a ROM image
    (`LoadGame`). Every access the C++ makes out of bounds (undefined behaviour there) is a
    `Fault` here, and a faulting cycle changes nothing. */
module Semantics {
  import opened Hardware
  import opened Instructions
  import opened Sprites

  datatype Option<T> = None | Some(value: T)

  datatype Result<T, E> = Ok(value: T) | Err(error: E)

  /** The out-of-range accesses of `EmulateCycle`. */
  datatype Fault =
    | FetchOutOfRange    // memory[pc + 1] past the end of memory
    | StackOverflow      // stack[sp] with sp == 16 (2NNN)
    | StackUnderflow     // --sp with sp == 0 (00EE)
    | MemoryOutOfRange   // memory[I + k] past the end of memory (DXYN, FX33, FX55, FX65)
    | KeyOutOfRange      // key[VX] with VX > 15 (EX9E, EXA1)

  /** The two size checks of `LoadGame`. */
  datatype LoadError = RomEmpty | RomTooLarge

  /** The fetch reads memory[pc] and memory[pc + 1]. */
  predicate CanFetch(m: Machine)
  {
    m.pc + 1 < MemorySize
  }

  /** `memory[pc] << 8 | memory[pc + 1]`: the low byte is below 0x100, so `|` is `+`. */
  function Fetch(m: Machine): (r: Word)
    requires WellFormed(m) && CanFetch(m)
    ensures r / 0x100 == m.memory[m.pc] && r % 0x100 == m.memory[m.pc + 1]
  {
    var word := m.memory[m.pc] as int * 0x100 + m.memory[m.pc + 1];
    DivMod(word, 0x100, m.memory[m.pc], m.memory[m.pc + 1]);
    word
  }

  /** The state after the fetch: opcode latched and `pc += 2`, before the instruction runs.
      On a pc that can be fetched the 16-bit `pc += 2` never wraps. */
  function Fetched(m: Machine): (r: Machine)
    requires WellFormed(m) && CanFetch(m)
    ensures WellFormed(r) && r == m.(opcode := r.opcode, pc := r.pc) && r.pc == m.pc + 2
  {
    m.(opcode := Fetch(m), pc := WrapWord(m.pc + 2))
  }

  /** The out-of-range access an instruction would make in state m, if any. Only the eight
      instructions that index an array with a run-time value can make one, and none of them
      is a fetch fault. */
  function Hazard(m: Machine, ins: Instr): (r: Option<Fault>)
    requires WellFormed(m)
    ensures r.Some? ==> r.value != FetchOutOfRange
    ensures r.Some? ==>
      ins.Return? || ins.Call? || ins.Draw? || ins.SkipIfKeyDown? || ins.SkipIfKeyUp? ||
      ins.StoreBcd? || ins.StoreRegisters? || ins.LoadRegisters?
  {
    match ins
    case Return => if m.sp == 0 then Some(StackUnderflow) else None
    case Call(_) => if m.sp >= StackSize then Some(StackOverflow) else None
    case Draw(_, _, n) => if n > 0 && m.index + n > MemorySize then Some(MemoryOutOfRange) else None
    case SkipIfKeyDown(x) => if m.v[x] >= KeyCount then Some(KeyOutOfRange) else None
    case SkipIfKeyUp(x) => if m.v[x] >= KeyCount then Some(KeyOutOfRange) else None
    case StoreBcd(_) => if m.index + 3 > MemorySize then Some(MemoryOutOfRange) else None
    case StoreRegisters(x) => if m.index + x + 1 > MemorySize then Some(MemoryOutOfRange) else None
    case LoadRegisters(x) => if m.index + x + 1 > MemorySize then Some(MemoryOutOfRange) else None
    case _ => None
  }

  /** The instruction skips the next one: `pc += 2` on top of the fetch's own advance. */
  function Skip(m: Machine, condition: bool): Machine
  {
    if condition then m.(pc := WrapWord(m.pc + 2)) else m
  }

  /** The lowest index of a pressed (non-zero) key, scanning upwards from 0. */
  function FirstPressed(key: seq<Byte>): (r: Option<nat>)
    ensures r.Some? ==> r.value < |key| && key[r.value] != 0 && forall j | 0 <= j < r.value :: key[j] == 0
    ensures r.None? ==> forall j | 0 <= j < |key| :: key[j] == 0
  {
    if |key| == 0 then None
    else if key[0] != 0 then Some(0)
    else match FirstPressed(key[1..])
      case None => None
      case Some(k) => Some(k + 1)
  }

  /** The N sprite rows DXYN reads, `memory[I + 0] .. memory[I + N - 1]`. */
  function SpriteRows(m: Machine, n: nat): (rows: seq<Byte>)
    requires WellFormed(m) && (n == 0 || m.index + n <= MemorySize)
    ensures |rows| == n
  {
    if n == 0 then [] else m.memory[m.index .. m.index + n]
  }

  /** Instructions that change only pc, the stack or the whole screen (groups 0x0, 0x1, 0x2,
      0xB), and the unknown words, which change nothing. */
  predicate IsControl(ins: Instr)
  {
    ins.ClearScreen? || ins.Return? || ins.Jump? || ins.Call? || ins.JumpOffset? || ins.Unknown?
  }

  /** The conditional skips (groups 0x3, 0x4, 0x5, 0x9, 0xE). */
  predicate IsSkip(ins: Instr)
  {
    ins.SkipIfEqual? || ins.SkipIfNotEqual? || ins.SkipIfRegistersEqual? ||
    ins.SkipIfRegistersDiffer? || ins.SkipIfKeyDown? || ins.SkipIfKeyUp?
  }

  /** Instructions that change only the register file (groups 0x6, 0x7, 0x8, 0xC). */
  predicate IsArithmetic(ins: Instr)
  {
    ins.SetRegister? || ins.AddImmediate? || ins.Copy? || ins.Or? || ins.And? || ins.Xor? ||
    ins.Add? || ins.Subtract? || ins.ShiftRight? || ins.SubtractReverse? || ins.ShiftLeft? ||
    ins.Random?
  }

  /** Instructions on the timers and the index register (ANNN, FX07, FX15, FX18, FX1E, FX29). */
  predicate IsTimerOrIndex(ins: Instr)
  {
    ins.SetIndex? || ins.ReadDelay? || ins.SetDelay? || ins.SetSound? || ins.AddToIndex? ||
    ins.FontCharacter?
  }

  /** Instructions that move bytes between registers and memory at I (FX33, FX55, FX65). */
  predicate IsMemoryTransfer(ins: Instr)
  {
    ins.StoreBcd? || ins.StoreRegisters? || ins.LoadRegisters?
  }

  /** The effect of one decoded instruction on a fetched state (pc already advanced). No
      instruction writes the keypad or the opcode latch, and only FX33 and FX55 write memory. */
  ghost function Apply(m: Machine, ins: Instr, random: nat): (r: Machine)
    requires WellFormed(m) && Hazard(m, ins).None?
    ensures WellFormed(r) && r.key == m.key && r.opcode == m.opcode
    ensures r.memory != m.memory ==> ins.StoreBcd? || ins.StoreRegisters?
  {
    if IsControl(ins) then ApplyControl(m, ins)
    else if IsSkip(ins) then Skip(m, SkipCondition(m, ins))
    else if IsArithmetic(ins) then m.(v := Registers(m.v, ins, random))
    else if IsTimerOrIndex(ins) then ApplyTimerOrIndex(m, ins)
    else if IsMemoryTransfer(ins) then ApplyMemoryTransfer(m, ins)
    else if ins.WaitForKey? then ApplyWaitForKey(m, ins.x)
    else ApplyDraw(m, ins.x, ins.y, ins.n)
  }

  /** 00E0, 00EE, 1NNN, 2NNN, BNNN and the unknown words: only the screen, the stack and pc
      change; only 2NNN writes the stack and only 00E0 the screen. */
  ghost function ApplyControl(m: Machine, ins: Instr): (r: Machine)
    requires WellFormed(m) && Hazard(m, ins).None? && IsControl(ins)
    ensures WellFormed(r)
    ensures r == m.(gfx := r.gfx, drawFlag := r.drawFlag, stack := r.stack, sp := r.sp, pc := r.pc)
    ensures r.stack != m.stack ==> ins.Call?
    ensures r.gfx != m.gfx ==> ins.ClearScreen?
  {
    match ins
    case ClearScreen => m.(gfx := seq(PixelCount, _ => 0), drawFlag := true)
    case Return => m.(sp := m.sp - 1, pc := m.stack[m.sp - 1])
    case Jump(nnn) => m.(pc := nnn)
    case Call(nnn) => m.(stack := m.stack[m.sp := m.pc], sp := m.sp + 1, pc := nnn)
    case JumpOffset(nnn) => m.(pc := m.v[0] + nnn)
    case _ => m
  }

  /** The condition under which a skip instruction skips. */
  predicate SkipCondition(m: Machine, ins: Instr)
    requires WellFormed(m) && Hazard(m, ins).None? && IsSkip(ins)
  {
    match ins
    case SkipIfEqual(x, nn) => m.v[x] == nn
    case SkipIfNotEqual(x, nn) => m.v[x] != nn
    case SkipIfRegistersEqual(x, y) => m.v[x] == m.v[y]
    case SkipIfRegistersDiffer(x, y) => m.v[x] != m.v[y]
    case SkipIfKeyDown(x) => m.key[m.v[x]] != 0
    case SkipIfKeyUp(x) => m.key[m.v[x]] == 0
    case _ => false
  }

  /** The register file after an instruction of groups 0x6, 0x7, 0x8 or 0xC. Where the C++
      writes VF and then reads registers again, the reads here are of the updated file. */
  function Registers(v: seq<Byte>, ins: Instr, random: nat): (r: seq<Byte>)
    requires |v| == RegisterCount && IsArithmetic(ins)
    ensures |r| == RegisterCount
    ensures forall k | 0 <= k < RegisterCount && k != ins.x && k != FlagRegister :: r[k] == v[k]
    ensures (ins.SetRegister? || ins.AddImmediate? || ins.Copy? || ins.Random?) ==>
      forall k | 0 <= k < RegisterCount && k != ins.x :: r[k] == v[k]
    ensures !(ins.SetRegister? || ins.AddImmediate? || ins.Copy? || ins.Random?) && ins.x != FlagRegister ==>
      r[FlagRegister] <= 1
  {
    match ins
    case SetRegister(x, nn) => v[x := nn]
    case AddImmediate(x, nn) => v[x := WrapByte(v[x] + nn)]
    case Copy(x, y) => v[x := v[y]]
    case Or(x, y) => v[x := BitOr(v[x], v[y])][FlagRegister := 0]
    case And(x, y) => v[x := BitAnd(v[x], v[y])][FlagRegister := 0]
    case Xor(x, y) => v[x := BitXor(v[x], v[y])][FlagRegister := 0]
    case Add(x, y) =>
      var v1 := v[FlagRegister := if v[y] > 0xFF - v[x] then 1 else 0];
      v1[x := WrapByte(v1[x] + v1[y])]
    case Subtract(x, y) =>
      var v1 := v[FlagRegister := if v[x] >= v[y] then 1 else 0];
      v1[x := WrapByte(v1[x] - v1[y])]
    case ShiftRight(x, y) =>
      // VX = VY >> 1, then VF = VX & 1 of the shifted value
      var v1 := v[x := v[y] / 2];
      v1[FlagRegister := v1[x] % 2]
    case SubtractReverse(x, y) =>
      var v1 := v[FlagRegister := if v[y] > v[x] then 1 else 0];
      v1[x := WrapByte(v1[y] - v1[x])]
    case ShiftLeft(x, y) =>
      // VX = VY << 1 truncated to 8 bits, then VF = VX >> 7 of the shifted value
      var v1 := v[x := WrapByte(v[y] as int * 2)];
      v1[FlagRegister := v1[x] / 0x80]
    case Random(x, nn) => v[x := BitAnd(random % 255, nn)]
    case _ => v
  }

  /** ANNN, FX07, FX15, FX18, FX1E and FX29: only the registers, I and the timers change, and
      only FX07 writes a register. */
  ghost function ApplyTimerOrIndex(m: Machine, ins: Instr): (r: Machine)
    requires WellFormed(m) && IsTimerOrIndex(ins)
    ensures WellFormed(r)
    ensures r == m.(v := r.v, index := r.index, delayTimer := r.delayTimer, soundTimer := r.soundTimer)
    ensures r.v != m.v ==> ins.ReadDelay?
  {
    match ins
    case SetIndex(nnn) => m.(index := nnn)
    case ReadDelay(x) => m.(v := m.v[x := m.delayTimer])
    case SetDelay(x) => m.(delayTimer := m.v[x])
    case SetSound(x) => m.(soundTimer := m.v[x])
    case AddToIndex(x) => m.(index := WrapWord(m.index + m.v[x]))
    case FontCharacter(x) => m.(index := 0x50 + 5 * m.v[x] as int)
    case _ => m
  }

  /** FX33, FX55 and FX65: only memory, the registers and I change; FX65 writes no memory
      and the other two write no register. */
  ghost function ApplyMemoryTransfer(m: Machine, ins: Instr): (r: Machine)
    requires WellFormed(m) && Hazard(m, ins).None? && IsMemoryTransfer(ins)
    ensures WellFormed(r)
    ensures r == m.(memory := r.memory, v := r.v, index := r.index)
    ensures r.memory != m.memory ==> !ins.LoadRegisters?
    ensures r.v != m.v ==> ins.LoadRegisters?
  {
    match ins
    case StoreBcd(x) =>
      m.(memory := m.memory[m.index := m.v[x] / 100]
                           [m.index + 1 := (m.v[x] / 10) % 10]
                           [m.index + 2 := (m.v[x] % 100) % 10])
    case StoreRegisters(x) =>
      m.(memory := m.memory[..m.index] + m.v[..x + 1] + m.memory[m.index + x + 1..],
         index := WrapWord(m.index + x + 1))
    case LoadRegisters(x) =>
      m.(v := m.memory[m.index .. m.index + x + 1] + m.v[x + 1..],
         index := WrapWord(m.index + x + 1))
    case _ => m
  }

  /** FX0A: the lowest pressed key goes to VX; with none pressed, pc steps back by 2 so that
      the instruction runs again. */
  ghost function ApplyWaitForKey(m: Machine, x: Reg): (r: Machine)
    requires WellFormed(m)
    ensures WellFormed(r) && r == m.(v := r.v, pc := r.pc)
    ensures forall k | 0 <= k < RegisterCount && k != x :: r.v[k] == m.v[k]
    ensures r.pc == m.pc <==> exists k | 0 <= k < KeyCount :: m.key[k] != 0
  {
    match FirstPressed(m.key)
    case Some(k) => m.(v := m.v[x := k])
    case None => m.(pc := WrapWord(m.pc - 2))
  }

  /** DXYN: the sprite toggles the pixels it covers, VF records whether one of them was on,
      and a redraw is requested. VX and VY are read before VF is cleared. */
  ghost function ApplyDraw(m: Machine, x: Reg, y: Reg, n: Nibble): (r: Machine)
    requires WellFormed(m) && Hazard(m, Draw(x, y, n)).None?
    ensures WellFormed(r) && r == m.(gfx := r.gfx, v := r.v, drawFlag := true)
    ensures r.v[FlagRegister] <= 1 && forall k | 0 <= k < FlagRegister :: r.v[k] == m.v[k]
  {
    var sprite := SpriteRows(m, n);
    var vx, vy := m.v[x], m.v[y];
    m.(gfx := Drawn(m.gfx, sprite, vx, vy),
       v := m.v[FlagRegister := if Collides(m.gfx, sprite, vx, vy) then 1 else 0],
       drawFlag := true)
  }

  /** The fetch changes only opcode and pc, on which no hazard depends. */
  lemma HazardAfterFetch(m: Machine, ins: Instr)
    requires WellFormed(m) && CanFetch(m)
    ensures Hazard(Fetched(m), ins) == Hazard(m, ins)
  {
  }

  /** One instruction on a fetched state: refused with its fault, or applied. */
  ghost function Execute(m: Machine, ins: Instr, random: nat): Result<Machine, Fault>
    requires WellFormed(m)
  {
    match Hazard(m, ins)
    case Some(f) => Err(f)
    case None => Ok(Apply(m, ins, random))
  }

  /** One cycle of `EmulateCycle`; `random` stands for the value `rand()` returns. */
  ghost function Step(m: Machine, random: nat): (r: Result<Machine, Fault>)
    requires WellFormed(m)
    ensures r.Ok? ==> WellFormed(r.value)
    ensures r == Err(FetchOutOfRange) <==> !CanFetch(m)
  {
    if !CanFetch(m) then Err(FetchOutOfRange)
    else Execute(Fetched(m), Decode(Fetch(m)), random)
  }

  /** One call of `UpdateTimers`: each timer that is above zero counts down by one, and the
      second component is the beep, raised when the sound timer counts down from 1. */
  function Tick(m: Machine): (r: (Machine, bool))
    ensures r.0 == m.(delayTimer := r.0.delayTimer, soundTimer := r.0.soundTimer)
    ensures r.0.delayTimer == if m.delayTimer > 0 then m.delayTimer - 1 else 0
    ensures r.0.soundTimer == if m.soundTimer > 0 then m.soundTimer - 1 else 0
    ensures r.1 <==> m.soundTimer == 1
  {
    var delay := if m.delayTimer > 0 then m.delayTimer - 1 else m.delayTimer;
    var sound := if m.soundTimer > 0 then m.soundTimer - 1 else m.soundTimer;
    (m.(delayTimer := delay, soundTimer := sound), m.soundTimer == 1)
  }

  /** The size checks and the copy of `LoadGame`: a ROM of 1..3584 bytes lands at 0x200 and
      nothing else changes; an empty or larger one is rejected. */
  ghost function Load(m: Machine, rom: seq<Byte>): (r: Result<Machine, LoadError>)
    requires WellFormed(m)
    ensures r == Err(RomEmpty) <==> |rom| == 0
    ensures r == Err(RomTooLarge) <==> |rom| > MaxRomSize
    ensures r.Ok? ==> WellFormed(r.value) && r.value == m.(memory := r.value.memory)
    ensures r.Ok? ==> forall k | 0 <= k < |rom| :: r.value.memory[ProgramStart + k] == rom[k]
    ensures r.Ok? ==> forall a | 0 <= a < MemorySize && !(ProgramStart <= a < ProgramStart + |rom|) ::
      r.value.memory[a] == m.memory[a]
  {
    if |rom| == 0 then Err(RomEmpty)
    else if |rom| > MaxRomSize then Err(RomTooLarge)
    else Ok(m.(memory := m.memory[..ProgramStart] + rom + m.memory[ProgramStart + |rom|..]))
  }
}
