/** The machine state of the CHIP-8 interpreter (the fields of class `chip8`), as a value.
    C++ `unsigned char` becomes `Byte` and `unsigned short` becomes `Word`; every place where
    the C++ arithmetic wraps is written out with `WrapByte` / `WrapWord`. */
module Hardware {

  /** `unsigned char`: 0..255. */
  type Byte = b: int | 0 <= b < 0x100

  /** `unsigned short`: 0..65535. */
  type Word = w: int | 0 <= w < 0x1_0000

  const MemorySize := 4096
  const RegisterCount := 16
  const StackSize := 16
  const KeyCount := 16
  const ScreenWidth := 64
  const ScreenHeight := 32
  const PixelCount := 2048
  const ProgramStart := 0x200
  const MaxRomSize := 4096 - 0x200
  const FontSize := 80
  /** VF, the register that instructions overwrite with a carry, borrow, shift or collision flag. */
  const FlagRegister := 0xF

  /** Truncation of an `int` result stored into an `unsigned char`. */
  function WrapByte(n: int): Byte { n % 0x100 }

  /** Truncation of an `int` result stored into an `unsigned short`. */
  function WrapWord(n: int): Word { n % 0x1_0000 }

  /** 2 to the power n. */
  function Pow2(n: nat): (r: nat)
    ensures r >= 1
  {
    if n == 0 then 1 else 2 * Pow2(n - 1)
  }

  /** Eight bits make a byte. */
  lemma Pow2Byte()
    ensures Pow2(8) == 0x100
  {
    assert Pow2(4) == 16;
  }

  /** The bitwise operators `&`, `|` and `^`. */
  datatype BitOp = AndBits | OrBits | XorBits

  /** `a op b` on non-negative integers, built up from the lowest bit. */
  function Bitwise(op: BitOp, a: nat, b: nat): nat
    decreases a + b
  {
    if a == 0 && b == 0 then 0
    else
      var p, q := a % 2 == 1, b % 2 == 1;
      var low := match op
        case AndBits => p && q
        case OrBits => p || q
        case XorBits => p != q;
      2 * Bitwise(op, a / 2, b / 2) + (if low then 1 else 0)
  }

  /** Operands of `width` bits give a result of `width` bits. */
  lemma {:induction false} BitwiseWidth(op: BitOp, a: nat, b: nat, width: nat)
    requires a < Pow2(width) && b < Pow2(width)
    ensures Bitwise(op, a, b) < Pow2(width)
    decreases width
  {
    if width > 0 && (a > 0 || b > 0) {
      BitwiseWidth(op, a / 2, b / 2, width - 1);
    }
  }

  /** `a & b`, `a | b` and `a ^ b` on unsigned chars. */
  function BitAnd(a: Byte, b: Byte): Byte { Pow2Byte(); BitwiseWidth(AndBits, a, b, 8); Bitwise(AndBits, a, b) }
  function BitOr(a: Byte, b: Byte): Byte { Pow2Byte(); BitwiseWidth(OrBits, a, b, 8); Bitwise(OrBits, a, b) }
  function BitXor(a: Byte, b: Byte): Byte { Pow2Byte(); BitwiseWidth(XorBits, a, b, 8); Bitwise(XorBits, a, b) }

  /** The 16 hexadecimal glyphs, 5 rows of 8 pixels each, installed at address 0 by Initialize. */
  const FontSet: seq<Byte> := [
    0xF0, 0x90, 0x90, 0x90, 0xF0, // 0
    0x20, 0x60, 0x20, 0x20, 0x70, // 1
    0xF0, 0x10, 0xF0, 0x80, 0xF0, // 2
    0xF0, 0x10, 0xF0, 0x10, 0xF0, // 3
    0x90, 0x90, 0xF0, 0x10, 0x10, // 4
    0xF0, 0x80, 0xF0, 0x10, 0xF0, // 5
    0xF0, 0x80, 0xF0, 0x90, 0xF0, // 6
    0xF0, 0x10, 0x20, 0x40, 0x40, // 7
    0xF0, 0x90, 0xF0, 0x90, 0xF0, // 8
    0xF0, 0x90, 0xF0, 0x10, 0xF0, // 9
    0xF0, 0x90, 0xF0, 0x90, 0x90, // A
    0xE0, 0x90, 0xE0, 0x90, 0xE0, // B
    0xF0, 0x80, 0x80, 0x80, 0xF0, // C
    0xE0, 0x90, 0x90, 0x90, 0xE0, // D
    0xF0, 0x80, 0xF0, 0x80, 0xF0, // E
    0xF0, 0x80, 0xF0, 0x80, 0x80  // F
  ]

  /** Every field of the C++ class, plus `drawFlag`, which the code uses but the header
      does not declare. `key` is written by the input backend: a non-zero cell is a pressed key. */
  datatype Machine = Machine(
    opcode: Word,
    memory: seq<Byte>,
    v: seq<Byte>,
    index: Word,
    pc: Word,
    gfx: seq<Byte>,
    delayTimer: Byte,
    soundTimer: Byte,
    stack: seq<Word>,
    sp: Word,
    key: seq<Byte>,
    drawFlag: bool)

  /** The fixed array sizes of the class, and a stack pointer that stays within the stack. */
  ghost predicate WellFormed(m: Machine)
  {
    |m.memory| == MemorySize && |m.v| == RegisterCount && |m.gfx| == PixelCount &&
    |m.stack| == StackSize && |m.key| == KeyCount && m.sp <= StackSize
  }

  /** Every framebuffer cell is off (0) or on (1). */
  ghost predicate PixelsAreBits(m: Machine)
  {
    forall p | 0 <= p < |m.gfx| :: m.gfx[p] == 0 || m.gfx[p] == 1
  }

  /** The state Initialize leaves behind: counters at their start values, every array zero
      except the font at the bottom of memory, and a pending redraw. */
  ghost predicate IsReset(m: Machine)
  {
    WellFormed(m) &&
    m.pc == ProgramStart && m.opcode == 0 && m.index == 0 && m.sp == 0 &&
    m.delayTimer == 0 && m.soundTimer == 0 && m.drawFlag &&
    (forall a | 0 <= a < MemorySize :: m.memory[a] == if a < FontSize then FontSet[a] else 0) &&
    (forall r | 0 <= r < RegisterCount :: m.v[r] == 0) &&
    (forall p | 0 <= p < PixelCount :: m.gfx[p] == 0) &&
    (forall d | 0 <= d < StackSize :: m.stack[d] == 0) &&
    (forall k | 0 <= k < KeyCount :: m.key[k] == 0)
  }

  /** Memory below 0x200 as Initialize leaves it and LoadGame keeps it: the font in its first
      80 bytes and zeros after it. Instructions may change everything else. */
  ghost predicate FontLoaded(m: Machine)
  {
    WellFormed(m) &&
    forall a | 0 <= a < ProgramStart :: m.memory[a] == if a < FontSize then FontSet[a] else 0
  }

  lemma ResetIsWellFormed(m: Machine)
    requires IsReset(m)
    ensures WellFormed(m) && PixelsAreBits(m)
    ensures m.memory[..FontSize] == FontSet
  {
    assert |FontSet| == FontSize;
  }
}
