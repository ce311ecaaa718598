# CHIP-8 interpreter core in Dafny

This project models the `chip8` class of a small CHIP-8 interpreter written in C++: its
machine state (4 KiB of memory, sixteen 8-bit registers V0..VF, the index register I,
the program counter, the 16-entry call stack, the two timers, the 64x32 framebuffer and
the 16-key keypad) and its operations:

- `Initialize` resets the machine and copies the 80-byte hexadecimal font to address 0.
- `LoadGame` checks the ROM's size and copies it to 0x200.
- `EmulateCycle` fetches, decodes and executes one of the 35 instructions.
- `UpdateTimers` counts the timers down.
- Three accessors read memory, one pixel and the redraw flag.

The project has two layers:

- **A value model.** The state is a `Machine` value (`hardware.dfy`). Instruction
  words decode into an `Instr` datatype (`instructions.dfy`). The sprite-drawing
  geometry is in `sprites.dfy`. Each operation is a function on `Machine`
  (`semantics.dfy`).
- **An imperative model.** The C++ object becomes the class `Interpreter.Chip8`
  (`interpreter.dfy`). Its memory, registers, framebuffer, stack and keypad are
  arrays updated in place. Each method is proved to produce exactly the state that
  the value model prescribes, via `Model()`. The loops of `Initialize`, `LoadGame`,
  FX0A, FX55, FX65 and DXYN are verified loops.

The lemmas in `properties.dfy` state what the cycle, the timers and the loader
guarantee.

Integers are unbounded in Dafny. The C++ types are modelled as follows:

- `unsigned char` becomes `Byte` (0..255).
- `unsigned short` becomes `Word` (0..65535).
- Every C++ wrap-around is written out as `% 0x100` or `% 0x10000` (`WrapByte`,
  `WrapWord`).
- The bitwise `&`, `|` and `^` on bytes are defined bit by bit (`Hardware.Bitwise`).

Out-of-range array accesses are undefined behaviour in the C++. In the model each one
is an explicit error, and the cycle is refused with the state left unchanged. The
faults are:

- `FetchOutOfRange`: pc + 1 is beyond memory.
- `StackOverflow`: 2NNN with 16 entries on the stack.
- `StackUnderflow`: 00EE with an empty stack.
- `MemoryOutOfRange`: DXYN, FX33, FX55 or FX65 would read or write past address 4095.
- `KeyOutOfRange`: EX9E or EXA1 with VX >= 16.

The ROM loader returns `RomEmpty` or `RomTooLarge` where the C++ prints a message and
exits.

The instruction behaviour is the code's, including where it departs from the usual
CHIP-8 description:

- 5XY0 compares VX with V0, because `(opcode & 0x00F0) >> 8` is always 0.
- Group 0 dispatches on the low nibble only, so every 0x0NN0 clears the screen and
  every 0x0NNE returns.
- FX29 points I at `0x50 + 5 * VX`, although the font is stored at address 0.
- CXNN uses `rand() % 255`, which is never 0xFF.
- The 8XY4, 8XY5 and 8XY7 instructions write VF before computing VX. So when X or Y
  is F, the new flag takes part in the computation instead of the old VF.
- 8XY6 and 8XYE take VF from the shifted result.
- 8XY1, 8XY2 and 8XY3 clear VF.

The usual CHIP-8 description differs on three of these instructions: 5XY0 compares VX
with VY, FX29 selects the glyph, and CXNN produces any 8-bit value. The model follows
the code. Each behaviour in the list above has a lemma stating it:

- 5XY0: `SkipIfRegistersEqualUsesV0`.
- Group 0: `GroupZeroIgnoresMiddleByte`.
- FX29: `FontCharacterMissesGlyph`, for every digit 0..15.
- CXNN: `RandomBelowMask`.
- The VF ordering: `AddIntoFlagRegister`, `SubtractIntoFlagRegister` and
  `FlagRegisterAsSource`, for exactly one of X and Y equal to F.
- The shifts: `ShiftRightFlag`, `ShiftLeftFlag` and `ShiftIntoFlagRegister`.
- 8XY1, 8XY2 and 8XY3: `LogicClearsFlag`.

## Model

| member | source | states |
|---|---|---|
| Hardware.ResetIsWellFormed | chip8.cpp:10-45 | a reset machine has the array sizes of the class, framebuffer cells 0 or 1, and the font set in memory[0..80) |
| Hardware.BitwiseWidth | chip8.cpp:166-179 | `&`, `\|`, `^` of two values below 2^w stay below 2^w, so on bytes they give a byte |
| Instructions.MaskedHighY | chip8.cpp:148 | the second register index that 5XY0 computes, `(opcode & 0x00F0) >> 8`, is always 0 |
| Instructions.DecodeEncode | chip8.cpp:109-346 | decoding the standard encoding of every known instruction gives it back, except that 5XY0 always comes back as a comparison with V0 |
| Instructions.EncodeDecode | chip8.cpp:109-346 | every word outside groups 0x0, 0x5 and 0x9 that the dispatch recognises is exactly the encoding of what it decodes to |
| Instructions.GroupZeroIgnoresMiddleByte | chip8.cpp:110-124 | a word 0x0NNN is 00E0 when its low nibble is 0, 00EE when it is 0xE, and unknown otherwise, whatever its middle byte |
| Instructions.SkipIfRegistersEqualUsesV0 | chip8.cpp:147-150 | every 5XYN word decodes to a comparison of VX with V0, for every Y and every low nibble N |
| Instructions.Decode | chip8.cpp:109-346 | a word decodes to an unknown instruction only in groups 0x0, 0x8, 0xE and 0xF, the groups with a `default:` arm, and then carries the word itself |
| Instructions.DecodeFields | chip8.cpp:109-346 | the nested dispatch on the nibbles yields an unknown instruction only in groups 0x0, 0x8, 0xE and 0xF |
| Sprites.ToggleBit | chip8.cpp:260 | `gfx[pos] ^= 1` turns 0 into 1 and 1 into 0 |
| Sprites.PixelIndexInverse | chip8.cpp:249-253 | sprite cell (r, c) lands on column (VX + c) % 64 and row (VY + r) % 32 of the framebuffer, and maps back to (r, c) |
| Sprites.Drawn | chip8.cpp:244-263 | on a framebuffer of 0s and 1s, the draw changes exactly the cells a set sprite bit lands on, and they stay 0 or 1 |
| Sprites.Collides | chip8.cpp:255-257 | on a framebuffer of 0s and 1s, a collision is exactly a pixel that the draw turns from 1 to 0 |
| Sprites.PixelIndexOnto | chip8.cpp:249-253 | every framebuffer cell is where some sprite cell lands |
| Sprites.DrawnBeforeStep | chip8.cpp:244-247 | one pass of the inner loop handles exactly one new on-screen pixel when its sprite bit is set, and none otherwise |
| Sprites.PartlyDrawnNextColumn | chip8.cpp:246-261 | one pass of the inner loop toggles that pixel from its original value when the sprite bit is set, and changes nothing otherwise |
| Sprites.CollidesBeforeNextColumn | chip8.cpp:255-257 | a collision is recorded on that pass exactly when the sprite bit is set and the pixel was on |
| Sprites.PartlyDrawnNextRow | chip8.cpp:244-246 | the end of one sprite row is the start of the next |
| Sprites.PartlyDrawnAll | chip8.cpp:244-263 | after all rows, the framebuffer has every covered pixel toggled and the collision flag says whether a covered pixel was on |
| Semantics.FirstPressed | chip8.cpp:293-299 | the scan finds the lowest pressed key, or reports that none is pressed |
| Semantics.Fetch | chip8.cpp:103 | the opcode's high byte is memory[pc] and its low byte memory[pc + 1] |
| Semantics.Fetched | chip8.cpp:103-106 | the fetch changes only the opcode latch and pc, and `pc += 2` never wraps on a fetchable pc |
| Semantics.Hazard | chip8.cpp:117-337 | only 00EE, 2NNN, DXYN, EX9E, EXA1, FX33, FX55 and FX65, which index an array with a run-time value, can make an out-of-range access |
| Semantics.Apply | chip8.cpp:109-346 | no instruction writes the keypad or the opcode latch, and only FX33 and FX55 write memory |
| Semantics.ApplyControl | chip8.cpp:110-135 | 00E0, 00EE, 1NNN, 2NNN, BNNN and the unknown words change only the screen, the stack and pc; only 2NNN writes the stack and only 00E0 the screen |
| Semantics.Registers | chip8.cpp:152-235 | groups 6, 7, 8 and C change only VX and VF; 6XNN, 7XNN, 8XY0 and CXNN leave VF alone; the others leave VF at 0 or 1 when X is not F |
| Semantics.ApplyTimerOrIndex | chip8.cpp:285-319 | ANNN, FX07, FX15, FX18, FX1E and FX29 change only the registers, I and the timers, and only FX07 writes a register |
| Semantics.ApplyMemoryTransfer | chip8.cpp:321-337 | FX33, FX55 and FX65 change only memory, the registers and I; FX65 writes no memory and the other two write no register |
| Semantics.ApplyWaitForKey | chip8.cpp:291-302 | FX0A changes only VX and pc, and pc stays on the next instruction exactly when some key is down |
| Semantics.ApplyDraw | chip8.cpp:237-266 | DXYN changes only the screen and VF, leaves VF at 0 or 1, and sets the redraw flag |
| Semantics.Step | chip8.cpp:101-106 | a cycle fails with a fetch fault exactly when pc + 1 lies outside memory, and a completed cycle keeps the array sizes and the stack bound |
| Semantics.Tick | chip8.cpp:360-368 | each timer above 0 counts down by 1 and one at 0 stays; nothing else changes; the beep is raised exactly when the sound timer was 1 |
| Semantics.Load | chip8.cpp:63-88 | an empty ROM and one over 3584 bytes are rejected; otherwise the ROM's bytes are at 0x200 onward and nothing outside memory changes |
| Interpreter.Chip8.constructor | chip8.cpp:7-8 | a fresh object with arrays of the class's sizes |
| Interpreter.Chip8.Initialize | chip8.cpp:10-49 | pc = 0x200, the other counters and timers 0, every array zeroed except memory[0..80) = the font, redraw flag set |
| Interpreter.Chip8.LoadRom | chip8.cpp:63-88 | the copy loop produces what Load prescribes, and a rejected ROM leaves the object unchanged |
| Interpreter.Chip8.Step | chip8.cpp:101-346 | the object after one cycle is exactly the state Step prescribes; a refused cycle leaves it unchanged |
| Interpreter.Chip8.Execute | chip8.cpp:109-346 | the switch on the decoded instruction produces exactly the state Apply prescribes |
| Interpreter.Chip8.ExecuteControl | chip8.cpp:110-135 | 00E0, 00EE, 1NNN, 2NNN, BNNN and the unknown words produce exactly what ApplyControl prescribes |
| Interpreter.Chip8.ExecuteArithmetic | chip8.cpp:152-235 | groups 6, 7, 8 and C leave the register file as Registers prescribes |
| Interpreter.Chip8.ExecuteUnflagged | chip8.cpp:152-179 | 6XNN, 7XNN, 8XY0..8XY3 and CXNN leave the register file as Registers prescribes |
| Interpreter.Chip8.ExecuteFlagged | chip8.cpp:181-213 | 8XY4..8XY7 and 8XYE, with their VF writes in source order, leave the register file as Registers prescribes |
| Interpreter.Chip8.ExecuteTimerOrIndex | chip8.cpp:285-319 | ANNN, FX07, FX15, FX18, FX1E and FX29 produce exactly what ApplyTimerOrIndex prescribes |
| Interpreter.Chip8.ExecuteMemoryTransfer | chip8.cpp:321-337 | FX33, FX55 and FX65 produce exactly what ApplyMemoryTransfer prescribes |
| Interpreter.Chip8.WaitForKey | chip8.cpp:291-302 | the key scan loop stores the lowest pressed key in VX, or steps pc back by 2 when no key is down |
| Interpreter.Chip8.StoreRegisters | chip8.cpp:327-331 | the loop copies V0..VX to memory[I..I+X] and I moves past them |
| Interpreter.Chip8.LoadRegisters | chip8.cpp:333-337 | the loop copies memory[I..I+X] to V0..VX and I moves past them |
| Interpreter.Chip8.Draw | chip8.cpp:237-266 | the nested sprite loops leave the framebuffer, VF and the redraw flag as ApplyDraw prescribes |
| Interpreter.Chip8.UpdateTimers | chip8.cpp:360-368 | the timers after the call and the beep are exactly Tick's |
| Interpreter.Chip8.GetMemory | chip8.h:17 | returns the memory byte at the address |
| Interpreter.Chip8.GetPixel | chip8.cpp:356-358 | returns framebuffer cell num, which is 0 or 1 while all cells are |
| Interpreter.Chip8.GetDrawFlag | chip8.cpp:370-372 | returns the redraw flag |
| Properties.StepFetchesThenExecutes | chip8.cpp:103-106 | the opcode is memory[pc] as high byte and memory[pc+1] as low byte; the cycle fails exactly when the instruction would go out of range, and otherwise runs it on the state with pc advanced by 2 |
| Properties.StackFaults | chip8.cpp:117-135 | 2NNN faults exactly on a full stack and 00EE exactly on an empty one |
| Properties.KeyFaults | chip8.cpp:268-278 | EX9E and EXA1 fault exactly when VX is 16 or more, so `key[VX]` would be out of range |
| Properties.MemoryFaults | chip8.cpp:237-337 | DXYN, FX33, FX55 and FX65 fault exactly when the highest address they touch (I + N - 1, I + 2, I + X) is past 4095 |
| Properties.CallPushesReturnAddress | chip8.cpp:131-135 | 2NNN stores the address after it on the stack, increments sp and jumps to NNN |
| Properties.CallThenReturn | chip8.cpp:117-135 | a 00EE after a 2NNN comes back to the instruction after the call with the original sp |
| Properties.SkipLandsTwoFurther | chip8.cpp:137-150 | a skip instruction ends 4 bytes further when its condition holds and 2 further otherwise, changing nothing else |
| Properties.SkipConditions | chip8.cpp:137-278 | the conditions of 3XNN, 4XNN, 9XY0, EX9E and EXA1 in terms of registers and keys, each as an if-and-only-if |
| Properties.WaitForKeyBlocks | chip8.cpp:300-301 | FX0A with no key down leaves pc on itself, so the instruction runs again |
| Properties.WaitForKeyTakesLowest | chip8.cpp:293-299 | FX0A with keys down stores the lowest one in VX and moves on |
| Properties.JumpOffsetTarget | chip8.cpp:229-231 | BNNN jumps to V0 + NNN, which never exceeds 0xFF + 0xFFF |
| Properties.UnknownOnlyAdvances | chip8.cpp:122-123 | an unrecognised word changes only the opcode latch and pc |
| Properties.ClearScreenClears | chip8.cpp:112-115 | a 00E0 cycle sets every pixel to 0, raises the draw flag and advances pc by 2; nothing else but the opcode latch changes |
| Properties.JumpLands | chip8.cpp:127-129 | a 1NNN cycle sets pc to NNN; nothing else but the opcode latch changes |
| Properties.SetRegisterStores | chip8.cpp:152-154 | 6XNN sets VX to NN and leaves every other register, VF included |
| Properties.CopyStores | chip8.cpp:162-164 | 8XY0 sets VX to VY and leaves every other register, VF included |
| Properties.AddImmediateWraps | chip8.cpp:156-158 | 7XNN adds modulo 256 and leaves every other register, VF included |
| Properties.AddSetsCarry | chip8.cpp:181-187 | 8XY4 gives the sum modulo 256 and VF = 1 exactly on carry |
| Properties.SubtractSetsNoBorrow | chip8.cpp:189-195 | 8XY5 gives VX - VY modulo 256 and VF = 1 exactly when VX >= VY |
| Properties.SubtractReverseSetsFlag | chip8.cpp:202-208 | 8XY7 gives VY - VX modulo 256 and VF = 1 exactly when VY > VX |
| Properties.AddIntoFlagRegister | chip8.cpp:181-187 | 8FY4 leaves carry + VY in VF, because the carry is written first |
| Properties.SubtractIntoFlagRegister | chip8.cpp:189-208 | 8FY5 and 8FY7 leave flag - VY and VY - flag in VF, because the flag is written first |
| Properties.FlagRegisterAsSource | chip8.cpp:181-208 | 8XF4, 8XF5 and 8XF7 combine VX with the new flag, not the old VF, and leave the flag in VF |
| Properties.LogicClearsFlag | chip8.cpp:166-179 | 8XY1, 8XY2 and 8XY3 combine VX with VY, clear VF, and leave the others |
| Properties.ShiftRightFlag | chip8.cpp:197-200 | 8XY6 gives VY >> 1 and VF the low bit of that result |
| Properties.ShiftLeftFlag | chip8.cpp:210-213 | 8XYE gives (VY << 1) mod 256 and VF the top bit of that result |
| Properties.ShiftIntoFlagRegister | chip8.cpp:197-200 | 8FY6 leaves the flag, not the shifted value, in VF |
| Properties.BitwiseAndBelow | chip8.cpp:234 | `a & b` is at most a and at most b |
| Properties.RandomBelowMask | chip8.cpp:233-235 | CXNN stores `(random % 255) & NN` in VX, so a value at most NN and never 0xFF, and leaves the other registers |
| Properties.DrawTogglesSpritePixels | chip8.cpp:244-263 | DXYN toggles the cell under every set sprite bit, and changes no other cell |
| Properties.DrawCollisionFlag | chip8.cpp:242-265 | after DXYN, VF is 1 exactly when a set sprite bit landed on a cell that was on, and 0 otherwise; the redraw flag is set |
| Properties.DrawKeepsBits | chip8.cpp:260 | drawing keeps every framebuffer cell 0 or 1 |
| Properties.DrawTwiceRestores | chip8.cpp:237-266 | drawing the same sprite twice at the same place restores the framebuffer, and the second draw reports a collision exactly when the first turned a pixel on |
| Properties.SecondDrawCollision | chip8.cpp:242-257 | the second of two identical draws sets VF exactly when a set sprite bit landed on a pixel that was off before the first |
| Properties.StepKeepsBits | chip8.cpp:101-346 | no instruction puts a value other than 0 or 1 into the framebuffer |
| Properties.ApplyKeepsScreen | chip8.cpp:109-346 | only 00E0 and DXYN write the framebuffer |
| Properties.BcdDigits | chip8.cpp:321-325 | FX33 writes three decimal digits at I, I+1, I+2 whose value is VX, and nothing else |
| Properties.BcdOf255 | chip8.cpp:321-325 | FX33 of 255 writes 2, 5, 5 |
| Properties.StoreRegistersCopies | chip8.cpp:327-331 | FX55 copies V0..VX to memory at I, leaves the rest of memory and moves I by X + 1 |
| Properties.LoadRegistersCopies | chip8.cpp:333-337 | FX65 copies memory at I to V0..VX, leaves the other registers and moves I by X + 1 |
| Properties.LoadAfterStoreRestores | chip8.cpp:327-337 | FX65 from the address an FX55 used gives back the stored registers |
| Properties.SetIndexStores | chip8.cpp:225-227 | an ANNN cycle sets I to NNN and advances pc by 2; nothing else but the opcode latch changes |
| Properties.ReadDelayStores | chip8.cpp:287-289 | an FX07 cycle sets VX to the delay timer and advances pc by 2; nothing else but the opcode latch changes |
| Properties.SetDelayStores | chip8.cpp:305-307 | an FX15 cycle sets the delay timer to VX and advances pc by 2; nothing else but the opcode latch changes |
| Properties.SetSoundStores | chip8.cpp:309-311 | an FX18 cycle sets the sound timer to VX and advances pc by 2; nothing else but the opcode latch changes |
| Properties.AddToIndexWraps | chip8.cpp:313-315 | FX1E adds VX to I modulo 65536 |
| Properties.FontCharacterMissesGlyph | chip8.cpp:317-319 | for every digit VX, FX29 sets I = 0x50 + 5 VX; while memory below 0x200 holds the font and zeros, the five bytes there are zero, while the glyph itself is at 5 VX |
| Properties.FontSurvivesLoad | chip8.cpp:85-88 | a ROM loaded after Initialize leaves the font region that FX29 reads as Initialize left it |
| Properties.TimersCountDown | chip8.cpp:360-368 | after k calls each timer has dropped by k, stopping at 0, and a sound timer that reached 0 beeped exactly once |
| Properties.BeepEndsSound | chip8.cpp:363-366 | the beep is raised exactly by the call that brings the sound timer to 0 |
| Properties.FirstFetchAfterLoad | chip8.cpp:85-88 | after a reset and a load, the first cycle fetches the ROM's first two bytes at 0x200 |

## Left out

- File access in `LoadGame` is left out: opening the file, `tellg`, reading into a buffer and
  `exit(1)`. The ROM's bytes are a parameter. The failure to open a file and a negative
  `tellg` are not modelled; the two size checks become the error results `RomEmpty` and
  `RomTooLarge`.
- `srand(time(0))` and `rand()` are left out. The value `rand()` returns is the `random`
  parameter of `Step`.
- The `printf` calls are left out. The unknown-opcode messages become the `Unknown`
  instruction, which changes nothing. The "Beep!" message becomes the `beep` result of
  `UpdateTimers`.
- `GetGFX()`, which returns a raw pointer to the framebuffer, is not part of this model.
  `GetGFX(int)` is modelled as `GetPixel`.
- The header declares no `draw_flag` field, although the source file uses one. The
  model gives the class a `drawFlag` field.
- `SetDrawFlag` is not part of this model, since it is declared nowhere.
- `main.cpp` and `platform.cpp` are not part of this model: the window, keyboard polling and
  frame timing.
- The C++ constructor is empty. The program's only instance is a global object, which
  static storage zero-initialises. `Interpreter.Chip8.constructor` zeroes the state to
  match.
- A faulting cycle leaves opcode and pc unchanged. In the C++ the fetch has already
  latched the opcode and advanced pc when the undefined access happens.
- Properties.FontCharacterMissesGlyph: does not prove that the glyph bytes themselves are
  nonzero, only that they sit at 5 VX and that the five bytes FX29 points at are zero.
