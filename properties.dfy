/** What the interpreter's cycle, timer tick and ROM load guarantee, stated over the machine
    value and proved from the semantics. */
module Properties {
  import opened Hardware
  import opened Instructions
  import opened Sprites
  import opened Semantics

  /** The instruction at pc can be fetched and decodes to `ins`. */
  ghost predicate Runs(m: Machine, ins: Instr)
  {
    WellFormed(m) && CanFetch(m) && Decode(Fetch(m)) == ins
  }

  /** Registers other than `x` and VF keep their values. */
  ghost predicate OthersKept(before: seq<Byte>, after: seq<Byte>, x: Reg)
    requires |before| == RegisterCount && |after| == RegisterCount
  {
    forall k | 0 <= k < RegisterCount && k != x && k != FlagRegister :: after[k] == before[k]
  }

  // ---------------------------------------------------------------- fetch, faults, flow

  /** The cycle latches `memory[pc] << 8 | memory[pc + 1]` as the opcode, advances pc by 2 and
      then runs the instruction; it is refused exactly when the instruction would go out of
      range. */
  lemma StepFetchesThenExecutes(m: Machine, ins: Instr, random: nat)
    requires Runs(m, ins)
    ensures Fetch(m) / 0x100 == m.memory[m.pc] && Fetch(m) % 0x100 == m.memory[m.pc + 1]
    ensures Step(m, random).Err? <==> Hazard(m, ins).Some?
    ensures Hazard(m, ins).None? ==>
      Step(m, random) == Ok(Apply(m.(opcode := Fetch(m), pc := m.pc + 2), ins, random))
  {
    HazardAfterFetch(m, ins);
    DivMod(Fetch(m), 0x100, m.memory[m.pc], m.memory[m.pc + 1]);
  }

  /** 2NNN and 00EE fault exactly on a full and on an empty stack. */
  lemma StackFaults(m: Machine, ins: Instr, random: nat)
    requires Runs(m, ins)
    ensures Step(m, random) == Err(StackOverflow) <==> ins.Call? && m.sp == StackSize
    ensures Step(m, random) == Err(StackUnderflow) <==> ins.Return? && m.sp == 0
  {
    HazardAfterFetch(m, ins);
  }

  /** EX9E and EXA1 fault exactly when VX is not a key number, so `key[VX]` would be out of
      range. */
  lemma KeyFaults(m: Machine, ins: Instr, random: nat)
    requires Runs(m, ins)
    ensures Step(m, random) == Err(KeyOutOfRange) <==>
      (ins.SkipIfKeyDown? || ins.SkipIfKeyUp?) && m.v[ins.x] >= KeyCount
  {
    HazardAfterFetch(m, ins);
  }

  /** DXYN, FX33, FX55 and FX65 fault exactly when the highest address they touch lies past
      the end of memory: I + N - 1 for DXYN (which touches nothing when N is 0), I + 2 for
      FX33, and I + X for FX55 and FX65. */
  lemma MemoryFaults(m: Machine, ins: Instr, random: nat)
    requires Runs(m, ins)
    ensures Step(m, random) == Err(MemoryOutOfRange) <==>
      (ins.Draw? && ins.n > 0 && m.index + ins.n - 1 >= MemorySize) ||
      (ins.StoreBcd? && m.index + 2 >= MemorySize) ||
      ((ins.StoreRegisters? || ins.LoadRegisters?) && m.index + ins.x >= MemorySize)
  {
    HazardAfterFetch(m, ins);
  }

  /** 2NNN pushes the address of the next instruction and jumps. */
  lemma CallPushesReturnAddress(m: Machine, a: Address, random: nat)
    requires Runs(m, Call(a)) && m.sp < StackSize
    ensures Step(m, random) ==
      Ok(m.(opcode := Fetch(m), stack := m.stack[m.sp := m.pc + 2], sp := m.sp + 1, pc := a))
  {
    var fetched := m.(opcode := Fetch(m), pc := m.pc + 2);
    StepFetchesThenExecutes(m, Call(a), random);
    assert Step(m, random) == Ok(Apply(fetched, Call(a), random));
    assert Apply(fetched, Call(a), random) ==
      fetched.(stack := fetched.stack[m.sp := fetched.pc], sp := m.sp + 1, pc := a);
  }

  /** A 00EE after a 2NNN comes back to the instruction after the call, with the stack pointer
      it had before the call; only the opcode latch and the stack slot written remain. */
  lemma CallThenReturn(m: Machine, a: Address, random: nat, random': nat)
    requires Runs(m, Call(a)) && m.sp < StackSize
    ensures Step(m, random).Ok?
    ensures var called := Step(m, random).value;
      Runs(called, Return) ==>
        Step(called, random') ==
          Ok(m.(opcode := Fetch(called), stack := m.stack[m.sp := m.pc + 2], pc := m.pc + 2))
  {
    CallPushesReturnAddress(m, a, random);
    var called := Step(m, random).value;
    assert called == m.(opcode := Fetch(m), stack := m.stack[m.sp := m.pc + 2], sp := m.sp + 1, pc := a);
    if Runs(called, Return) {
      StepFetchesThenExecutes(called, Return, random');
      var fetched := called.(opcode := Fetch(called), pc := called.pc + 2);
      assert Apply(fetched, Return, random') == fetched.(sp := m.sp, pc := m.pc + 2);
    }
  }

  /** 3XNN, 4XNN, 5XY0, 9XY0, EX9E and EXA1 end 4 bytes further when their condition holds
      and 2 bytes further otherwise, changing nothing else but the opcode latch. */
  lemma SkipLandsTwoFurther(m: Machine, ins: Instr, random: nat)
    requires Runs(m, ins) && IsSkip(ins) && Hazard(m, ins).None?
    ensures Step(m, random) ==
      Ok(m.(opcode := Fetch(m), pc := if SkipCondition(m, ins) then m.pc + 4 else m.pc + 2))
  {
    StepFetchesThenExecutes(m, ins, random);
  }

  /** The skip conditions, as the opcode table states them. */
  lemma SkipConditions(m: Machine, ins: Instr)
    requires WellFormed(m) && IsSkip(ins) && Hazard(m, ins).None?
    ensures ins.SkipIfEqual? ==> (SkipCondition(m, ins) <==> m.v[ins.x] == ins.nn)
    ensures ins.SkipIfNotEqual? ==> (SkipCondition(m, ins) <==> m.v[ins.x] != ins.nn)
    ensures ins.SkipIfRegistersDiffer? ==> (SkipCondition(m, ins) <==> m.v[ins.x] != m.v[ins.y])
    ensures ins.SkipIfKeyDown? ==> m.v[ins.x] < KeyCount && (SkipCondition(m, ins) <==> m.key[m.v[ins.x]] != 0)
    ensures ins.SkipIfKeyUp? ==> m.v[ins.x] < KeyCount && (SkipCondition(m, ins) <==> m.key[m.v[ins.x]] == 0)
  {
  }

  /** FX0A with no key down leaves pc on the same instruction, so it runs again. */
  lemma WaitForKeyBlocks(m: Machine, x: Reg, random: nat)
    requires Runs(m, WaitForKey(x))
    requires forall k | 0 <= k < KeyCount :: m.key[k] == 0
    ensures Step(m, random) == Ok(m.(opcode := Fetch(m)))
  {
    StepFetchesThenExecutes(m, WaitForKey(x), random);
    assert FirstPressed(m.key).None?;
  }

  /** FX0A with keys down stores the lowest one in VX and moves on. */
  lemma WaitForKeyTakesLowest(m: Machine, x: Reg, k: nat, random: nat)
    requires Runs(m, WaitForKey(x))
    requires k < KeyCount && m.key[k] != 0 && forall j | 0 <= j < k :: m.key[j] == 0
    ensures Step(m, random) == Ok(m.(opcode := Fetch(m), pc := m.pc + 2, v := m.v[x := k]))
  {
    StepFetchesThenExecutes(m, WaitForKey(x), random);
    assert FirstPressed(m.key) == Some(k);
  }

  /** BNNN jumps to V0 + NNN, which never needs the 16-bit wrap. */
  lemma JumpOffsetTarget(m: Machine, a: Address, random: nat)
    requires Runs(m, JumpOffset(a))
    ensures Step(m, random).Ok? && Step(m, random).value.pc == m.v[0] + a <= 0xFF + 0xFFF
  {
    StepFetchesThenExecutes(m, JumpOffset(a), random);
  }

  /** 00E0 blanks every pixel, raises the draw flag and moves on. */
  lemma ClearScreenClears(m: Machine, random: nat)
    requires Runs(m, ClearScreen)
    ensures Step(m, random) ==
      Ok(m.(opcode := Fetch(m), pc := m.pc + 2, gfx := seq(PixelCount, _ => 0), drawFlag := true))
  {
    StepFetchesThenExecutes(m, ClearScreen, random);
  }

  /** 1NNN sets pc to NNN and changes nothing else but the opcode latch. */
  lemma JumpLands(m: Machine, a: Address, random: nat)
    requires Runs(m, Jump(a))
    ensures Step(m, random) == Ok(m.(opcode := Fetch(m), pc := a))
  {
    StepFetchesThenExecutes(m, Jump(a), random);
  }

  /** Words the decoder does not know change nothing but the opcode latch and pc. */
  lemma UnknownOnlyAdvances(m: Machine, w: Word, random: nat)
    requires Runs(m, Unknown(w))
    ensures Step(m, random) == Ok(m.(opcode := Fetch(m), pc := m.pc + 2))
  {
    StepFetchesThenExecutes(m, Unknown(w), random);
  }

  // ---------------------------------------------------------------- registers

  /** 6XNN stores NN in VX; every other register, VF included, keeps its value. */
  lemma SetRegisterStores(v: seq<Byte>, x: Reg, nn: Byte, random: nat)
    requires |v| == RegisterCount
    ensures var r := Registers(v, SetRegister(x, nn), random);
      r[x] == nn && forall k | 0 <= k < RegisterCount && k != x :: r[k] == v[k]
  {
  }

  /** 8XY0 copies VY into VX; every other register, VF included, keeps its value. */
  lemma CopyStores(v: seq<Byte>, x: Reg, y: Reg, random: nat)
    requires |v| == RegisterCount
    ensures var r := Registers(v, Copy(x, y), random);
      r[x] == v[y] && forall k | 0 <= k < RegisterCount && k != x :: r[k] == v[k]
  {
  }

  /** 7XNN adds modulo 256 and, unlike 8XY4, leaves VF alone. */
  lemma AddImmediateWraps(v: seq<Byte>, x: Reg, nn: Byte, random: nat)
    requires |v| == RegisterCount
    ensures var r := Registers(v, AddImmediate(x, nn), random);
      r[x] == (v[x] as int + nn) % 0x100 &&
      r[x] == (if v[x] as int + nn > 0xFF then v[x] as int + nn - 0x100 else v[x] as int + nn) &&
      forall k | 0 <= k < RegisterCount && k != x :: r[k] == v[k]
  {
  }

  /** 8XY4 for X, Y other than F: VX gets the sum modulo 256 and VF the carry. */
  lemma AddSetsCarry(v: seq<Byte>, x: Reg, y: Reg, random: nat)
    requires |v| == RegisterCount && x != FlagRegister && y != FlagRegister
    ensures var r := Registers(v, Add(x, y), random);
      r[x] == (v[x] as int + v[y]) % 0x100 && (r[FlagRegister] == 1 <==> v[x] as int + v[y] > 0xFF) &&
      r[FlagRegister] <= 1 && OthersKept(v, r, x)
  {
  }

  /** 8XY5 for X, Y other than F: VX gets VX - VY modulo 256 and VF is 1 exactly when no
      borrow was needed. */
  lemma SubtractSetsNoBorrow(v: seq<Byte>, x: Reg, y: Reg, random: nat)
    requires |v| == RegisterCount && x != FlagRegister && y != FlagRegister
    ensures var r := Registers(v, Subtract(x, y), random);
      r[x] == (v[x] as int - v[y]) % 0x100 && (r[FlagRegister] == 1 <==> v[x] >= v[y]) &&
      r[FlagRegister] <= 1 && OthersKept(v, r, x)
  {
  }

  /** 8XY7 for X, Y other than F: VX gets VY - VX modulo 256 and VF is 1 exactly when VY is
      strictly greater (so VF is 0 when the two are equal). */
  lemma SubtractReverseSetsFlag(v: seq<Byte>, x: Reg, y: Reg, random: nat)
    requires |v| == RegisterCount && x != FlagRegister && y != FlagRegister
    ensures var r := Registers(v, SubtractReverse(x, y), random);
      r[x] == (v[y] as int - v[x]) % 0x100 && (r[FlagRegister] == 1 <==> v[y] > v[x]) &&
      r[FlagRegister] <= 1 && OthersKept(v, r, x)
  {
  }

  /** 8XY4 with X = F: the carry is written first and then added to, so VF ends up holding
      carry + VY and the sum VF + VY is lost. */
  lemma AddIntoFlagRegister(v: seq<Byte>, y: Reg, random: nat)
    requires |v| == RegisterCount && y != FlagRegister
    ensures var carry := if v[y] > 0xFF - v[FlagRegister] then 1 else 0;
      Registers(v, Add(FlagRegister, y), random)[FlagRegister] == (carry + v[y] as int) % 0x100
  {
  }

  /** 8FY5 and 8FY7 with Y other than F: the flag is written first and then replaced by the
      difference computed from it, so VF ends up holding flag - VY or VY - flag. */
  lemma SubtractIntoFlagRegister(v: seq<Byte>, y: Reg, random: nat)
    requires |v| == RegisterCount && y != FlagRegister
    ensures var noBorrow := if v[FlagRegister] >= v[y] then 1 else 0;
      Registers(v, Subtract(FlagRegister, y), random)[FlagRegister] == (noBorrow - v[y] as int) % 0x100
    ensures var greater := if v[y] > v[FlagRegister] then 1 else 0;
      Registers(v, SubtractReverse(FlagRegister, y), random)[FlagRegister] == (v[y] as int - greater) % 0x100
  {
  }

  /** 8XF4, 8XF5 and 8XF7 with X other than F: VY is VF, which the flag has already
      overwritten, so VX is combined with the new flag rather than with the old VF. */
  lemma FlagRegisterAsSource(v: seq<Byte>, x: Reg, random: nat)
    requires |v| == RegisterCount && x != FlagRegister
    ensures var carry := if v[FlagRegister] > 0xFF - v[x] then 1 else 0;
      var r := Registers(v, Add(x, FlagRegister), random);
      r[FlagRegister] == carry && r[x] == (v[x] as int + carry) % 0x100
    ensures var noBorrow := if v[x] >= v[FlagRegister] then 1 else 0;
      var r := Registers(v, Subtract(x, FlagRegister), random);
      r[FlagRegister] == noBorrow && r[x] == (v[x] as int - noBorrow) % 0x100
    ensures var greater := if v[FlagRegister] > v[x] then 1 else 0;
      var r := Registers(v, SubtractReverse(x, FlagRegister), random);
      r[FlagRegister] == greater && r[x] == (greater - v[x] as int) % 0x100
  {
  }

  /** 8XY1, 8XY2 and 8XY3 for X other than F combine VX with VY and then clear VF. */
  lemma LogicClearsFlag(v: seq<Byte>, ins: Instr, random: nat)
    requires |v| == RegisterCount && (ins.Or? || ins.And? || ins.Xor?) && ins.x != FlagRegister
    ensures var r := Registers(v, ins, random);
      r[FlagRegister] == 0 && OthersKept(v, r, ins.x) &&
      r[ins.x] == (if ins.Or? then BitOr(v[ins.x], v[ins.y])
                   else if ins.And? then BitAnd(v[ins.x], v[ins.y])
                   else BitXor(v[ins.x], v[ins.y]))
  {
  }

  /** 8XY6 for X other than F: VX = VY >> 1 and VF is the low bit of that result, not the bit
      shifted out. */
  lemma ShiftRightFlag(v: seq<Byte>, x: Reg, y: Reg, random: nat)
    requires |v| == RegisterCount && x != FlagRegister
    ensures var r := Registers(v, ShiftRight(x, y), random);
      r[x] == v[y] / 2 && r[FlagRegister] == (v[y] / 2) % 2 && OthersKept(v, r, x)
  {
  }

  /** 8XYE for X other than F: VX = (VY << 1) mod 256 and VF is the top bit of that result. */
  lemma ShiftLeftFlag(v: seq<Byte>, x: Reg, y: Reg, random: nat)
    requires |v| == RegisterCount && x != FlagRegister
    ensures var r := Registers(v, ShiftLeft(x, y), random);
      r[x] == (v[y] as int * 2) % 0x100 && r[FlagRegister] == r[x] / 0x80 && r[FlagRegister] <= 1 &&
      OthersKept(v, r, x)
  {
  }

  /** 8XY6 with X = F: the flag overwrites the shifted value. */
  lemma ShiftIntoFlagRegister(v: seq<Byte>, y: Reg, random: nat)
    requires |v| == RegisterCount
    ensures Registers(v, ShiftRight(FlagRegister, y), random)[FlagRegister] == (v[y] / 2) % 2
  {
  }

  /** `a & b` keeps only the bits both operands have, so it is at most either of them. */
  lemma {:induction false} BitwiseAndBelow(a: nat, b: nat)
    ensures Bitwise(AndBits, a, b) <= a && Bitwise(AndBits, a, b) <= b
    decreases a + b
  {
    if a > 0 || b > 0 {
      BitwiseAndBelow(a / 2, b / 2);
    }
  }

  /** CXNN: `rand() % 255` never reaches 0xFF, so VX is at most NN and never 0xFF. */
  lemma RandomBelowMask(v: seq<Byte>, x: Reg, nn: Byte, random: nat)
    requires |v| == RegisterCount
    ensures var r := Registers(v, Random(x, nn), random);
      r[x] == BitAnd(random % 255, nn) && r[x] <= nn && r[x] < 0xFF &&
      forall k | 0 <= k < RegisterCount && k != x :: r[k] == v[k]
  {
    BitwiseAndBelow(random % 255, nn);
  }

  // ---------------------------------------------------------------- DXYN

  /** Each set sprite bit toggles the cell it lands on, and every cell that changes lies
      under a set sprite bit. */
  lemma DrawTogglesSpritePixels(m: Machine, x: Reg, y: Reg, n: Nibble)
    requires WellFormed(m) && Hazard(m, Draw(x, y, n)).None?
    ensures var r, sprite, vx, vy := ApplyDraw(m, x, y, n), SpriteRows(m, n), m.v[x], m.v[y];
      (forall row, col | 0 <= row < n && 0 <= col < 8 && SpriteBit(sprite[row], col) ::
        PixelIndex(vx, vy, row, col) < PixelCount &&
        r.gfx[PixelIndex(vx, vy, row, col)] == Toggle(m.gfx[PixelIndex(vx, vy, row, col)])) &&
      (forall p | 0 <= p < PixelCount && r.gfx[p] != m.gfx[p] ::
        exists row, col | 0 <= row < n && 0 <= col < 8 ::
          SpriteBit(sprite[row], col) && p == PixelIndex(vx, vy, row, col))
  {
    var r, sprite, vx, vy := ApplyDraw(m, x, y, n), SpriteRows(m, n), m.v[x], m.v[y];
    forall row, col | 0 <= row < n && 0 <= col < 8 && SpriteBit(sprite[row], col)
      ensures PixelIndex(vx, vy, row, col) < PixelCount &&
        r.gfx[PixelIndex(vx, vy, row, col)] == Toggle(m.gfx[PixelIndex(vx, vy, row, col)])
    {
      PixelIndexInverse(vx, vy, row, col);
    }
    forall p | 0 <= p < PixelCount && r.gfx[p] != m.gfx[p]
      ensures exists row, col | 0 <= row < n && 0 <= col < 8 ::
        SpriteBit(sprite[row], col) && p == PixelIndex(vx, vy, row, col)
    {
      PixelIndexOnto(vx, vy, p);
      assert Covers(sprite, vx, vy, p);
    }
  }

  /** VF after DXYN is 1 exactly when a set sprite bit landed on a cell that was on. */
  lemma DrawCollisionFlag(m: Machine, x: Reg, y: Reg, n: Nibble)
    requires WellFormed(m) && Hazard(m, Draw(x, y, n)).None?
    ensures var r, sprite, vx, vy := ApplyDraw(m, x, y, n), SpriteRows(m, n), m.v[x], m.v[y];
      r.drawFlag && r.v[FlagRegister] <= 1 &&
      (r.v[FlagRegister] == 1 <==>
        exists row, col | 0 <= row < n && 0 <= col < 8 ::
          SpriteBit(sprite[row], col) && PixelIndex(vx, vy, row, col) < PixelCount &&
          m.gfx[PixelIndex(vx, vy, row, col)] == 1)
  {
    var r, sprite, vx, vy := ApplyDraw(m, x, y, n), SpriteRows(m, n), m.v[x], m.v[y];
    if r.v[FlagRegister] == 1 {
      var p :| 0 <= p < |m.gfx| && Covers(sprite, vx, vy, p) && m.gfx[p] == 1;
      PixelIndexOnto(vx, vy, p);
      var row, col := RowAt(vy, p), ColumnAt(vx, p);
      assert SpriteBit(sprite[row], col) && PixelIndex(vx, vy, row, col) == p;
    }
    if exists row, col | 0 <= row < n && 0 <= col < 8 ::
        SpriteBit(sprite[row], col) && PixelIndex(vx, vy, row, col) < PixelCount &&
        m.gfx[PixelIndex(vx, vy, row, col)] == 1
    {
      var row, col :| 0 <= row < n && 0 <= col < 8 &&
        SpriteBit(sprite[row], col) && PixelIndex(vx, vy, row, col) < PixelCount &&
        m.gfx[PixelIndex(vx, vy, row, col)] == 1;
      PixelIndexInverse(vx, vy, row, col);
      assert Covers(sprite, vx, vy, PixelIndex(vx, vy, row, col));
    }
  }

  /** Drawing keeps every framebuffer cell 0 or 1. */
  lemma DrawKeepsBits(m: Machine, x: Reg, y: Reg, n: Nibble)
    requires WellFormed(m) && PixelsAreBits(m) && Hazard(m, Draw(x, y, n)).None?
    ensures PixelsAreBits(ApplyDraw(m, x, y, n))
  {
    var r := ApplyDraw(m, x, y, n);
    forall p | 0 <= p < |r.gfx|
      ensures r.gfx[p] == 0 || r.gfx[p] == 1
    {
      ToggleBit(m.gfx[p]);
    }
  }

  /** For X and Y other than F, drawing the same sprite a second time erases it: the
      framebuffer is as before the first draw. The second draw reports a collision exactly
      when the first one turned a pixel on, that is, when a set sprite bit landed on a pixel
      that was off before the first draw (so on a screen that was all on, it reports none). */
  lemma DrawTwiceRestores(m: Machine, x: Reg, y: Reg, n: Nibble)
    requires WellFormed(m) && PixelsAreBits(m) && Hazard(m, Draw(x, y, n)).None?
    requires x != FlagRegister && y != FlagRegister
    ensures var once, sprite, vx, vy := ApplyDraw(m, x, y, n), SpriteRows(m, n), m.v[x], m.v[y];
      Hazard(once, Draw(x, y, n)).None? && ApplyDraw(once, x, y, n).gfx == m.gfx &&
      (ApplyDraw(once, x, y, n).v[FlagRegister] == 1 <==>
        exists row, col | 0 <= row < n && 0 <= col < 8 ::
          SpriteBit(sprite[row], col) && PixelIndex(vx, vy, row, col) < PixelCount &&
          m.gfx[PixelIndex(vx, vy, row, col)] == 0)
  {
    var once := ApplyDraw(m, x, y, n);
    var sprite, vx, vy := SpriteRows(m, n), m.v[x], m.v[y];
    assert SpriteRows(once, n) == sprite && once.v[x] == vx && once.v[y] == vy;
    var twice := ApplyDraw(once, x, y, n);
    forall p | 0 <= p < PixelCount
      ensures twice.gfx[p] == m.gfx[p]
    {
      ToggleBit(m.gfx[p]);
      ToggleBit(Toggle(m.gfx[p]));
    }
    SecondDrawCollision(m, x, y, n);
  }

  /** The collision flag of the second of two identical draws. */
  lemma SecondDrawCollision(m: Machine, x: Reg, y: Reg, n: Nibble)
    requires WellFormed(m) && PixelsAreBits(m) && Hazard(m, Draw(x, y, n)).None?
    requires x != FlagRegister && y != FlagRegister
    ensures var once, sprite, vx, vy := ApplyDraw(m, x, y, n), SpriteRows(m, n), m.v[x], m.v[y];
      Hazard(once, Draw(x, y, n)).None? &&
      (ApplyDraw(once, x, y, n).v[FlagRegister] == 1 <==>
        exists row, col | 0 <= row < n && 0 <= col < 8 ::
          SpriteBit(sprite[row], col) && PixelIndex(vx, vy, row, col) < PixelCount &&
          m.gfx[PixelIndex(vx, vy, row, col)] == 0)
  {
    var once := ApplyDraw(m, x, y, n);
    var sprite, vx, vy := SpriteRows(m, n), m.v[x], m.v[y];
    assert SpriteRows(once, n) == sprite && once.v[x] == vx && once.v[y] == vy;
    DrawTogglesSpritePixels(m, x, y, n);
    DrawCollisionFlag(once, x, y, n);
    forall row, col | 0 <= row < n && 0 <= col < 8 && SpriteBit(sprite[row], col)
      ensures PixelIndex(vx, vy, row, col) < PixelCount &&
        (once.gfx[PixelIndex(vx, vy, row, col)] == 1 <==> m.gfx[PixelIndex(vx, vy, row, col)] == 0)
    {
      ToggleBit(m.gfx[PixelIndex(vx, vy, row, col)]);
    }
  }

  /** Every instruction keeps the framebuffer cells 0 or 1. */
  lemma StepKeepsBits(m: Machine, random: nat)
    requires WellFormed(m) && PixelsAreBits(m)
    ensures Step(m, random).Ok? ==> PixelsAreBits(Step(m, random).value)
  {
    if CanFetch(m) {
      var ins := Decode(Fetch(m));
      var fetched := Fetched(m);
      HazardAfterFetch(m, ins);
      if Hazard(m, ins).None? {
        if ins.Draw? {
          DrawKeepsBits(fetched, ins.x, ins.y, ins.n);
        } else if !ins.ClearScreen? {
          ApplyKeepsScreen(fetched, ins, random);
        }
      }
    }
  }

  /** Only 00E0 and DXYN write the framebuffer. */
  lemma ApplyKeepsScreen(m: Machine, ins: Instr, random: nat)
    requires WellFormed(m) && Hazard(m, ins).None? && !ins.Draw? && !ins.ClearScreen?
    ensures Apply(m, ins, random).gfx == m.gfx
  {
    if IsControl(ins) {
    } else if IsSkip(ins) {
    } else if IsArithmetic(ins) {
    } else if IsTimerOrIndex(ins) {
    } else if IsMemoryTransfer(ins) {
    } else {
    }
  }

  // ---------------------------------------------------------------- FX29, FX33, FX55, FX65

  /** FX33 writes the three decimal digits of VX at I, I + 1 and I + 2. */
  lemma BcdDigits(m: Machine, x: Reg)
    requires WellFormed(m) && Hazard(m, StoreBcd(x)).None?
    ensures var r, i := ApplyMemoryTransfer(m, StoreBcd(x)), m.index;
      r.memory[i] < 10 && r.memory[i + 1] < 10 && r.memory[i + 2] < 10 &&
      r.memory[i] * 100 + r.memory[i + 1] * 10 + r.memory[i + 2] == m.v[x] &&
      forall a | 0 <= a < MemorySize && !(i <= a < i + 3) :: r.memory[a] == m.memory[a]
  {
    var d := m.v[x];
    assert (d % 100) % 10 == d % 10;
    assert d == (d / 100) * 100 + ((d / 10) % 10) * 10 + d % 10;
  }

  /** FX33 on 255 writes 2, 5, 5. */
  lemma BcdOf255(m: Machine, x: Reg)
    requires WellFormed(m) && Hazard(m, StoreBcd(x)).None? && m.v[x] == 255
    ensures var r, i := ApplyMemoryTransfer(m, StoreBcd(x)), m.index;
      r.memory[i] == 2 && r.memory[i + 1] == 5 && r.memory[i + 2] == 5
  {
  }

  /** FX55 copies V0..VX to memory[I..I + X], leaves the rest of memory, and moves I past them. */
  lemma StoreRegistersCopies(m: Machine, x: Reg)
    requires WellFormed(m) && Hazard(m, StoreRegisters(x)).None?
    ensures var r := ApplyMemoryTransfer(m, StoreRegisters(x));
      (forall k | 0 <= k <= x :: r.memory[m.index + k] == m.v[k]) &&
      (forall a | 0 <= a < MemorySize && !(m.index <= a <= m.index + x) :: r.memory[a] == m.memory[a]) &&
      r.index == m.index + x + 1 && r.v == m.v
  {
    var r := ApplyMemoryTransfer(m, StoreRegisters(x));
    forall k | 0 <= k <= x
      ensures r.memory[m.index + k] == m.v[k]
    {
      assert r.memory[m.index + k] == (m.v[..x + 1])[k];
    }
  }

  /** FX65 copies memory[I..I + X] to V0..VX, leaves the other registers, and moves I past them. */
  lemma LoadRegistersCopies(m: Machine, x: Reg)
    requires WellFormed(m) && Hazard(m, LoadRegisters(x)).None?
    ensures var r := ApplyMemoryTransfer(m, LoadRegisters(x));
      (forall k | 0 <= k <= x :: r.v[k] == m.memory[m.index + k]) &&
      (forall k | x < k < RegisterCount :: r.v[k] == m.v[k]) &&
      r.index == m.index + x + 1 && r.memory == m.memory
  {
  }

  /** FX65 from the address an FX55 used gives back the registers it stored. */
  lemma LoadAfterStoreRestores(m: Machine, x: Reg)
    requires WellFormed(m) && Hazard(m, StoreRegisters(x)).None?
    ensures var stored := ApplyMemoryTransfer(m, StoreRegisters(x)).(index := m.index);
      Hazard(stored, LoadRegisters(x)).None? &&
      ApplyMemoryTransfer(stored, LoadRegisters(x)).v == m.v
  {
    var stored := ApplyMemoryTransfer(m, StoreRegisters(x)).(index := m.index);
    StoreRegistersCopies(m, x);
    LoadRegistersCopies(stored, x);
    var loaded := ApplyMemoryTransfer(stored, LoadRegisters(x));
    assert forall k | 0 <= k < RegisterCount :: loaded.v[k] == m.v[k];
  }

  /** ANNN sets I to NNN and moves on. */
  lemma SetIndexStores(m: Machine, a: Address, random: nat)
    requires Runs(m, SetIndex(a))
    ensures Step(m, random) == Ok(m.(opcode := Fetch(m), pc := m.pc + 2, index := a))
  {
    StepFetchesThenExecutes(m, SetIndex(a), random);
  }

  /** FX07 copies the delay timer into VX and moves on. */
  lemma ReadDelayStores(m: Machine, x: Reg, random: nat)
    requires Runs(m, ReadDelay(x))
    ensures Step(m, random) ==
      Ok(m.(opcode := Fetch(m), pc := m.pc + 2, v := m.v[x := m.delayTimer]))
  {
    StepFetchesThenExecutes(m, ReadDelay(x), random);
  }

  /** FX15 sets the delay timer to VX and moves on. */
  lemma SetDelayStores(m: Machine, x: Reg, random: nat)
    requires Runs(m, SetDelay(x))
    ensures Step(m, random) == Ok(m.(opcode := Fetch(m), pc := m.pc + 2, delayTimer := m.v[x]))
  {
    StepFetchesThenExecutes(m, SetDelay(x), random);
  }

  /** FX18 sets the sound timer to VX and moves on. */
  lemma SetSoundStores(m: Machine, x: Reg, random: nat)
    requires Runs(m, SetSound(x))
    ensures Step(m, random) == Ok(m.(opcode := Fetch(m), pc := m.pc + 2, soundTimer := m.v[x]))
  {
    StepFetchesThenExecutes(m, SetSound(x), random);
  }

  /** FX1E adds VX to I modulo 65536. */
  lemma AddToIndexWraps(m: Machine, x: Reg)
    requires WellFormed(m)
    ensures var r := ApplyTimerOrIndex(m, AddToIndex(x));
      var sum := m.index as int + m.v[x];
      r.index == if sum < 0x1_0000 then sum else sum - 0x1_0000
  {
  }

  /** FX29 points I 80 bytes past the glyph of digit VX, which Initialize stores at 5 * VX:
      while memory below 0x200 holds the font and zeros, the five bytes at I are zero and
      the glyph lies 80 bytes lower. */
  lemma FontCharacterMissesGlyph(m: Machine, x: Reg)
    requires FontLoaded(m) && m.v[x] < 16
    ensures var r, d := ApplyTimerOrIndex(m, FontCharacter(x)), m.v[x];
      r.index == FontSize + 5 * d && r.index + 5 <= ProgramStart &&
      r.memory[r.index .. r.index + 5] == [0, 0, 0, 0, 0] &&
      r.memory[5 * d .. 5 * d + 5] == FontSet[5 * d .. 5 * d + 5]
  {
    assert |FontSet| == FontSize;
  }

  // ---------------------------------------------------------------- timers and loading

  /** `k` calls of UpdateTimers: the machine afterwards and the number of beeps. */
  function TickTimes(m: Machine, k: nat): (r: (Machine, nat))
    decreases k
  {
    if k == 0 then (m, 0)
    else
      var (next, beep) := Tick(m);
      var (last, beeps) := TickTimes(next, k - 1);
      (last, beeps + if beep then 1 else 0)
  }

  /** After k ticks each timer has counted down by k, stopping at 0, and a sound timer that
      reached 0 during them beeped exactly once. */
  lemma {:induction false} TimersCountDown(m: Machine, k: nat)
    ensures var (r, beeps) := TickTimes(m, k);
      r == m.(delayTimer := r.delayTimer, soundTimer := r.soundTimer) &&
      r.delayTimer == (if m.delayTimer > k then m.delayTimer - k else 0) &&
      r.soundTimer == (if m.soundTimer > k then m.soundTimer - k else 0) &&
      beeps == (if 0 < m.soundTimer <= k then 1 else 0)
    decreases k
  {
    if k > 0 {
      TimersCountDown(Tick(m).0, k - 1);
    }
  }

  /** The beep is raised by the tick that brings the sound timer to 0, and only by it. */
  lemma BeepEndsSound(m: Machine)
    ensures Tick(m).1 <==> m.soundTimer > 0 && Tick(m).0.soundTimer == 0
  {
  }

  /** Loading a ROM after Initialize keeps the font region that FX29 reads. */
  lemma FontSurvivesLoad(m: Machine, rom: seq<Byte>)
    requires IsReset(m) && Load(m, rom).Ok?
    ensures FontLoaded(m) && FontLoaded(Load(m, rom).value)
  {
  }

  /** After Initialize and a successful LoadRom the first cycle fetches the ROM's first two
      bytes, at 0x200. */
  lemma FirstFetchAfterLoad(m: Machine, rom: seq<Byte>)
    requires IsReset(m) && 2 <= |rom| && Load(m, rom).Ok?
    ensures var loaded := Load(m, rom).value;
      CanFetch(loaded) && loaded.pc == ProgramStart && Fetch(loaded) == rom[0] as int * 0x100 + rom[1]
  {
    var loaded := Load(m, rom).value;
    assert loaded.memory[ProgramStart + 0] == rom[0];
    assert loaded.memory[ProgramStart + 1] == rom[1];
  }
}
