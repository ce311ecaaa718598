/** Decoding of a 16-bit instruction word into one of the 35 CHIP-8 instructions, following the
    nested `switch` of `chip8::EmulateCycle`. Operand fields are read as the code reads them:
    X = (opcode & 0x0F00) >> 8, Y = (opcode & 0x00F0) >> 4, N = opcode & 0x000F,
    NN = opcode & 0x00FF, NNN = opcode & 0x0FFF, written here with `/` and `%` by powers of two. */
module Instructions {
  import opened Hardware

  /** A register index V0..VF. */
  type Reg = r: nat | r < 16

  /** A 4-bit immediate (the sprite height of DXYN). */
  type Nibble = n: nat | n < 16

  /** A 12-bit address or literal. */
  type Address = a: nat | a < 0x1000

  datatype Instr =
    | ClearScreen                        // 00E0
    | Return                             // 00EE
    | Jump(nnn: Address)                 // 1NNN
    | Call(nnn: Address)                 // 2NNN
    | SkipIfEqual(x: Reg, nn: Byte)      // 3XNN
    | SkipIfNotEqual(x: Reg, nn: Byte)   // 4XNN
    | SkipIfRegistersEqual(x: Reg, y: Reg)   // 5XY0, with y as the code computes it
    | SetRegister(x: Reg, nn: Byte)      // 6XNN
    | AddImmediate(x: Reg, nn: Byte)     // 7XNN
    | Copy(x: Reg, y: Reg)               // 8XY0
    | Or(x: Reg, y: Reg)                 // 8XY1
    | And(x: Reg, y: Reg)                // 8XY2
    | Xor(x: Reg, y: Reg)                // 8XY3
    | Add(x: Reg, y: Reg)                // 8XY4
    | Subtract(x: Reg, y: Reg)           // 8XY5
    | ShiftRight(x: Reg, y: Reg)         // 8XY6
    | SubtractReverse(x: Reg, y: Reg)    // 8XY7
    | ShiftLeft(x: Reg, y: Reg)          // 8XYE
    | SkipIfRegistersDiffer(x: Reg, y: Reg)  // 9XY0
    | SetIndex(nnn: Address)             // ANNN
    | JumpOffset(nnn: Address)           // BNNN
    | Random(x: Reg, nn: Byte)           // CXNN
    | Draw(x: Reg, y: Reg, n: Nibble)    // DXYN
    | SkipIfKeyDown(x: Reg)              // EX9E
    | SkipIfKeyUp(x: Reg)                // EXA1
    | ReadDelay(x: Reg)                  // FX07
    | WaitForKey(x: Reg)                 // FX0A
    | SetDelay(x: Reg)                   // FX15
    | SetSound(x: Reg)                   // FX18
    | AddToIndex(x: Reg)                 // FX1E
    | FontCharacter(x: Reg)              // FX29
    | StoreBcd(x: Reg)                   // FX33
    | StoreRegisters(x: Reg)             // FX55
    | LoadRegisters(x: Reg)              // FX65
    | Unknown(word: Word)                // the `default:` arms of groups 0x0, 0x8, 0xE and 0xF

  /** The instruction a word encodes; `Unknown` for the words the `default:` arms report. */
  function Decode(op: Word): (r: Instr)
    ensures r.Unknown? ==>
      r.word == op && (op / 0x1000 == 0x0 || op / 0x1000 == 0x8 || op / 0x1000 == 0xE || op / 0x1000 == 0xF)
  {
    SplitFields(op);
    DecodeFields(op / 0x1000, (op / 0x100) % 0x10, (op / 0x10) % 0x10, op % 0x10)
  }

  /** The dispatch of `EmulateCycle` on the nibbles G X Y N of the word GXYN: first on G
      (`opcode & 0xF000`), then on N (`opcode & 0x000F`) in groups 0x0 and 0x8, and on the low
      byte YN (`opcode & 0x00FF`) in groups 0xE and 0xF. */
  function DecodeFields(g: Nibble, x: Reg, y: Reg, n: Nibble): (r: Instr)
    ensures r.Unknown? ==> r.word == Assemble(g, x, y, n) && (g == 0x0 || g == 0x8 || g == 0xE || g == 0xF)
  {
    var nn: Byte := y * 0x10 + n;
    var nnn: Address := x * 0x100 + y * 0x10 + n;
    match g
    case 0x0 =>
      // Only the low nibble is examined: every 0x0NN0 clears, every 0x0NNE returns.
      if n == 0x0 then ClearScreen else if n == 0xE then Return else Unknown(Assemble(g, x, y, n))
    case 0x1 => Jump(nnn)
    case 0x2 => Call(nnn)
    case 0x3 => SkipIfEqual(x, nn)
    case 0x4 => SkipIfNotEqual(x, nn)
    case 0x5 => SkipIfRegistersEqual(x, MaskedHighY(y))
    case 0x6 => SetRegister(x, nn)
    case 0x7 => AddImmediate(x, nn)
    case 0x8 =>
      if n == 0x0 then Copy(x, y)
      else if n == 0x1 then Or(x, y)
      else if n == 0x2 then And(x, y)
      else if n == 0x3 then Xor(x, y)
      else if n == 0x4 then Add(x, y)
      else if n == 0x5 then Subtract(x, y)
      else if n == 0x6 then ShiftRight(x, y)
      else if n == 0x7 then SubtractReverse(x, y)
      else if n == 0xE then ShiftLeft(x, y)
      else Unknown(Assemble(g, x, y, n))
    case 0x9 => SkipIfRegistersDiffer(x, y)
    case 0xA => SetIndex(nnn)
    case 0xB => JumpOffset(nnn)
    case 0xC => Random(x, nn)
    case 0xD => Draw(x, y, n)
    case 0xE =>
      if nn == 0x9E then SkipIfKeyDown(x)
      else if nn == 0xA1 then SkipIfKeyUp(x)
      else Unknown(Assemble(g, x, y, n))
    case _ =>
      if nn == 0x07 then ReadDelay(x)
      else if nn == 0x0A then WaitForKey(x)
      else if nn == 0x15 then SetDelay(x)
      else if nn == 0x18 then SetSound(x)
      else if nn == 0x1E then AddToIndex(x)
      else if nn == 0x29 then FontCharacter(x)
      else if nn == 0x33 then StoreBcd(x)
      else if nn == 0x55 then StoreRegisters(x)
      else if nn == 0x65 then LoadRegisters(x)
      else Unknown(Assemble(g, x, y, n))
  }

  /** `(opcode & 0x00F0) >> 8`, the second index of 5XY0 as the code computes it: the mask
      keeps the Y field in bits 4..7, so shifting right by 8 leaves nothing. */
  function MaskedHighY(y: Nibble): (r: Reg)
    ensures r == 0
  {
    DivMod(y * 0x10, 0x100, 0, y * 0x10);
    (y * 0x10) / 0x100
  }

  /** The standard CHIP-8 encoding of an instruction: the reference the decoder is checked
      against. An unknown word encodes as itself. */
  function Encode(ins: Instr): Word
  {
    match ins
    case ClearScreen => Assemble(0x0, 0x0, 0xE, 0x0)
    case Return => Assemble(0x0, 0x0, 0xE, 0xE)
    case Jump(a) => Assemble(0x1, a / 0x100, a / 0x10 % 0x10, a % 0x10)
    case Call(a) => Assemble(0x2, a / 0x100, a / 0x10 % 0x10, a % 0x10)
    case SkipIfEqual(x, nn) => Assemble(0x3, x, nn / 0x10, nn % 0x10)
    case SkipIfNotEqual(x, nn) => Assemble(0x4, x, nn / 0x10, nn % 0x10)
    case SkipIfRegistersEqual(x, y) => Assemble(0x5, x, y, 0x0)
    case SetRegister(x, nn) => Assemble(0x6, x, nn / 0x10, nn % 0x10)
    case AddImmediate(x, nn) => Assemble(0x7, x, nn / 0x10, nn % 0x10)
    case Copy(x, y) => Assemble(0x8, x, y, 0x0)
    case Or(x, y) => Assemble(0x8, x, y, 0x1)
    case And(x, y) => Assemble(0x8, x, y, 0x2)
    case Xor(x, y) => Assemble(0x8, x, y, 0x3)
    case Add(x, y) => Assemble(0x8, x, y, 0x4)
    case Subtract(x, y) => Assemble(0x8, x, y, 0x5)
    case ShiftRight(x, y) => Assemble(0x8, x, y, 0x6)
    case SubtractReverse(x, y) => Assemble(0x8, x, y, 0x7)
    case ShiftLeft(x, y) => Assemble(0x8, x, y, 0xE)
    case SkipIfRegistersDiffer(x, y) => Assemble(0x9, x, y, 0x0)
    case SetIndex(a) => Assemble(0xA, a / 0x100, a / 0x10 % 0x10, a % 0x10)
    case JumpOffset(a) => Assemble(0xB, a / 0x100, a / 0x10 % 0x10, a % 0x10)
    case Random(x, nn) => Assemble(0xC, x, nn / 0x10, nn % 0x10)
    case Draw(x, y, n) => Assemble(0xD, x, y, n)
    case SkipIfKeyDown(x) => Assemble(0xE, x, 0x9, 0xE)
    case SkipIfKeyUp(x) => Assemble(0xE, x, 0xA, 0x1)
    case ReadDelay(x) => Assemble(0xF, x, 0x0, 0x7)
    case WaitForKey(x) => Assemble(0xF, x, 0x0, 0xA)
    case SetDelay(x) => Assemble(0xF, x, 0x1, 0x5)
    case SetSound(x) => Assemble(0xF, x, 0x1, 0x8)
    case AddToIndex(x) => Assemble(0xF, x, 0x1, 0xE)
    case FontCharacter(x) => Assemble(0xF, x, 0x2, 0x9)
    case StoreBcd(x) => Assemble(0xF, x, 0x3, 0x3)
    case StoreRegisters(x) => Assemble(0xF, x, 0x5, 0x5)
    case LoadRegisters(x) => Assemble(0xF, x, 0x6, 0x5)
    case Unknown(w) => w
  }

  /** Division with remainder by the field widths 0x10, 0x100 and 0x1000: the quotient and
      remainder are the unique pair that rebuilds the dividend. */
  lemma DivMod(a: int, b: int, q: int, r: int)
    requires b == 0x10 || b == 0x100 || b == 0x1000
    requires 0 <= r < b && a == q * b + r
    ensures a / b == q && a % b == r
  {
    if b == 0x10 {
    } else if b == 0x100 {
    } else {
    }
  }

  /** The four nibbles of a word, most significant first. */
  function Assemble(g: Nibble, x: Nibble, y: Nibble, n: Nibble): Word
  {
    g * 0x1000 + x * 0x100 + y * 0x10 + n
  }

  /** Each operand field reads back the nibbles a word was assembled from. */
  lemma AssembleFields(g: Nibble, x: Nibble, y: Nibble, n: Nibble)
    ensures var op := Assemble(g, x, y, n);
      op / 0x1000 == g && (op / 0x100) % 0x10 == x && (op / 0x10) % 0x10 == y &&
      op % 0x10 == n && op % 0x100 == y * 0x10 + n && op % 0x1000 == x * 0x100 + y * 0x10 + n
  {
    var op := Assemble(g, x, y, n);
    DivMod(op, 0x1000, g, x * 0x100 + y * 0x10 + n);
    DivMod(op, 0x100, g * 0x10 + x, y * 0x10 + n);
    DivMod(g * 0x10 + x, 0x10, g, x);
    DivMod(op, 0x10, g * 0x100 + x * 0x10 + y, n);
    DivMod(g * 0x100 + x * 0x10 + y, 0x10, g * 0x10 + x, y);
  }

  /** Every word is assembled from its own four nibbles. */
  lemma SplitFields(op: Word)
    ensures op / 0x1000 < 0x10
    ensures op == Assemble(op / 0x1000, (op / 0x100) % 0x10, (op / 0x10) % 0x10, op % 0x10)
  {
    DivMod(op, 0x1000, op / 0x1000, op % 0x1000);
    DivMod(op % 0x1000, 0x100, (op % 0x1000) / 0x100, op % 0x100);
    DivMod(op, 0x100, op / 0x100, op % 0x100);
    DivMod(op / 0x100, 0x10, op / 0x1000, (op % 0x1000) / 0x100);
    DivMod(op % 0x100, 0x10, (op % 0x100) / 0x10, op % 0x10);
    DivMod(op, 0x10, op / 0x10, op % 0x10);
    DivMod(op / 0x10, 0x10, op / 0x100, (op % 0x100) / 0x10);
  }

  /** A 12-bit address is assembled from its three nibbles. */
  lemma AddressFields(a: Address)
    ensures a == Assemble(0x0, a / 0x100, a / 0x10 % 0x10, a % 0x10)
  {
    SplitFields(a);
    DivMod(a, 0x1000, 0, a);
    DivMod(a, 0x100, a / 0x100, a % 0x100);
    DivMod(a / 0x100, 0x10, 0, a / 0x100);
  }

  /** The decoder reads back the fields of an assembled word. */
  lemma DecodeAssembled(g: Nibble, x: Nibble, y: Nibble, n: Nibble)
    ensures Decode(Assemble(g, x, y, n)) == DecodeFields(g, x, y, n)
  {
    AssembleFields(g, x, y, n);
  }

  /** Decoding undoes the standard encoding of every instruction, except that 5XY0 always
      comes back comparing VX with V0. */
  lemma DecodeEncode(ins: Instr)
    requires !ins.Unknown?
    ensures Decode(Encode(ins)) == if ins.SkipIfRegistersEqual? then SkipIfRegistersEqual(ins.x, 0) else ins
  {
    if ins.SkipIfRegistersEqual? {
      DecodeAssembled(0x5, ins.x, ins.y, 0x0);
    } else if ins.ClearScreen? || ins.Return? || ins.Jump? || ins.Call? || ins.SetIndex? || ins.JumpOffset? {
      DecodeEncodeFlow(ins);
    } else if ins.SkipIfEqual? || ins.SkipIfNotEqual? || ins.SetRegister? || ins.AddImmediate? || ins.Random? {
      DecodeEncodeImmediate(ins);
    } else if ins.SkipIfRegistersDiffer? || ins.Draw? || ins.Copy? || ins.Or? || ins.And? || ins.Xor? {
      DecodeEncodeRegisterPairs(ins);
    } else if ins.Add? || ins.Subtract? || ins.ShiftRight? || ins.SubtractReverse? || ins.ShiftLeft? {
      DecodeEncodeArithmetic(ins);
    } else if ins.SkipIfKeyDown? || ins.SkipIfKeyUp? || ins.ReadDelay? || ins.WaitForKey? || ins.SetDelay? || ins.SetSound? {
      DecodeEncodeKeys(ins);
    } else {
      DecodeEncodeIndex(ins);
    }
  }

  /** DecodeEncode for the screen, subroutine and jump instructions. */
  lemma DecodeEncodeFlow(ins: Instr)
    requires ins.ClearScreen? || ins.Return? || ins.Jump? || ins.Call? || ins.SetIndex? || ins.JumpOffset?
    ensures Decode(Encode(ins)) == ins
  {
    match ins
    case ClearScreen => DecodeAssembled(0x0, 0x0, 0xE, 0x0);
    case Return => DecodeAssembled(0x0, 0x0, 0xE, 0xE);
    case Jump(a) => AddressFields(a); DecodeAssembled(0x1, a / 0x100, a / 0x10 % 0x10, a % 0x10);
    case Call(a) => AddressFields(a); DecodeAssembled(0x2, a / 0x100, a / 0x10 % 0x10, a % 0x10);
    case SetIndex(a) => AddressFields(a); DecodeAssembled(0xA, a / 0x100, a / 0x10 % 0x10, a % 0x10);
    case JumpOffset(a) => AddressFields(a); DecodeAssembled(0xB, a / 0x100, a / 0x10 % 0x10, a % 0x10);
  }

  /** DecodeEncode for the instructions with a byte operand. */
  lemma DecodeEncodeImmediate(ins: Instr)
    requires ins.SkipIfEqual? || ins.SkipIfNotEqual? || ins.SetRegister? || ins.AddImmediate? || ins.Random?
    ensures Decode(Encode(ins)) == ins
  {
    match ins
    case SkipIfEqual(x, nn) => DecodeAssembled(0x3, x, nn / 0x10, nn % 0x10);
    case SkipIfNotEqual(x, nn) => DecodeAssembled(0x4, x, nn / 0x10, nn % 0x10);
    case SetRegister(x, nn) => DecodeAssembled(0x6, x, nn / 0x10, nn % 0x10);
    case AddImmediate(x, nn) => DecodeAssembled(0x7, x, nn / 0x10, nn % 0x10);
    case Random(x, nn) => DecodeAssembled(0xC, x, nn / 0x10, nn % 0x10);
  }

  /** DecodeEncode for the instructions with two register operands. */
  lemma DecodeEncodeRegisterPairs(ins: Instr)
    requires ins.SkipIfRegistersDiffer? || ins.Draw? || ins.Copy? || ins.Or? || ins.And? || ins.Xor?
    ensures Decode(Encode(ins)) == ins
  {
    match ins
    case SkipIfRegistersDiffer(x, y) => DecodeAssembled(0x9, x, y, 0x0);
    case Draw(x, y, n) => DecodeAssembled(0xD, x, y, n);
    case Copy(x, y) => DecodeAssembled(0x8, x, y, 0x0);
    case Or(x, y) => DecodeAssembled(0x8, x, y, 0x1);
    case And(x, y) => DecodeAssembled(0x8, x, y, 0x2);
    case Xor(x, y) => DecodeAssembled(0x8, x, y, 0x3);
  }

  /** DecodeEncode for the flag-setting arithmetic instructions. */
  lemma DecodeEncodeArithmetic(ins: Instr)
    requires ins.Add? || ins.Subtract? || ins.ShiftRight? || ins.SubtractReverse? || ins.ShiftLeft?
    ensures Decode(Encode(ins)) == ins
  {
    match ins
    case Add(x, y) => DecodeAssembled(0x8, x, y, 0x4);
    case Subtract(x, y) => DecodeAssembled(0x8, x, y, 0x5);
    case ShiftRight(x, y) => DecodeAssembled(0x8, x, y, 0x6);
    case SubtractReverse(x, y) => DecodeAssembled(0x8, x, y, 0x7);
    case ShiftLeft(x, y) => DecodeAssembled(0x8, x, y, 0xE);
  }

  /** DecodeEncode for the key and timer instructions. */
  lemma DecodeEncodeKeys(ins: Instr)
    requires ins.SkipIfKeyDown? || ins.SkipIfKeyUp? || ins.ReadDelay? || ins.WaitForKey? || ins.SetDelay? || ins.SetSound?
    ensures Decode(Encode(ins)) == ins
  {
    match ins
    case SkipIfKeyDown(x) => DecodeAssembled(0xE, x, 0x9, 0xE);
    case SkipIfKeyUp(x) => DecodeAssembled(0xE, x, 0xA, 0x1);
    case ReadDelay(x) => DecodeAssembled(0xF, x, 0x0, 0x7);
    case WaitForKey(x) => DecodeAssembled(0xF, x, 0x0, 0xA);
    case SetDelay(x) => DecodeAssembled(0xF, x, 0x1, 0x5);
    case SetSound(x) => DecodeAssembled(0xF, x, 0x1, 0x8);
  }

  /** DecodeEncode for the index-register instructions. */
  lemma DecodeEncodeIndex(ins: Instr)
    requires ins.AddToIndex? || ins.FontCharacter? || ins.StoreBcd? || ins.StoreRegisters? || ins.LoadRegisters?
    ensures Decode(Encode(ins)) == ins
  {
    match ins
    case AddToIndex(x) => DecodeAssembled(0xF, x, 0x1, 0xE);
    case FontCharacter(x) => DecodeAssembled(0xF, x, 0x2, 0x9);
    case StoreBcd(x) => DecodeAssembled(0xF, x, 0x3, 0x3);
    case StoreRegisters(x) => DecodeAssembled(0xF, x, 0x5, 0x5);
    case LoadRegisters(x) => DecodeAssembled(0xF, x, 0x6, 0x5);
  }

  /** Conversely, a word of any group whose low bits the decoder examines in full is the
      standard encoding of what it decodes to. In groups 0x0, 0x5 and 0x9 it is not: bits the
      decoder ignores are lost. */
  lemma EncodeDecode(op: Word)
    requires !Decode(op).Unknown?
    requires op / 0x1000 != 0x0 && op / 0x1000 != 0x5 && op / 0x1000 != 0x9
    ensures Encode(Decode(op)) == op
  {
    SplitFields(op);
    var g, x, y, n := op / 0x1000, (op / 0x100) % 0x10, (op / 0x10) % 0x10, op % 0x10;
    DivMod(y * 0x10 + n, 0x10, y, n);
    AssembleFields(0x0, x, y, n);
    assert Decode(op) == DecodeFields(g, x, y, n);
    assert op == Assemble(g, x, y, n);
    if g == 0x1 {
      EncodeDecodeGroup1(x, y, n);
    } else if g == 0x2 {
      EncodeDecodeGroup2(x, y, n);
    } else if g == 0x3 {
      EncodeDecodeGroup3(x, y, n);
    } else if g == 0x4 {
      EncodeDecodeGroup4(x, y, n);
    } else if g == 0x6 {
      EncodeDecodeGroup6(x, y, n);
    } else if g == 0x7 {
      EncodeDecodeGroup7(x, y, n);
    } else if g == 0x8 {
      EncodeDecodeGroup8(x, y, n);
    } else if g == 0xA {
      EncodeDecodeGroupA(x, y, n);
    } else if g == 0xB {
      EncodeDecodeGroupB(x, y, n);
    } else if g == 0xC {
      EncodeDecodeGroupC(x, y, n);
    } else if g == 0xD {
      EncodeDecodeGroupD(x, y, n);
    } else if g == 0xE {
      EncodeDecodeGroupE(x, y, n);
    } else {
      EncodeDecodeGroupF(x, y, n);
    }
  }

  lemma EncodeDecodeGroup1(x: Nibble, y: Nibble, n: Nibble)
    requires !DecodeFields(0x1, x, y, n).Unknown?
    requires (y * 0x10 + n) / 0x10 == y && (y * 0x10 + n) % 0x10 == n
    requires var a := Assemble(0x0, x, y, n); a / 0x100 == x && a / 0x10 % 0x10 == y && a % 0x10 == n
    ensures Encode(DecodeFields(0x1, x, y, n)) == Assemble(0x1, x, y, n)
  {
  }

  lemma EncodeDecodeGroup2(x: Nibble, y: Nibble, n: Nibble)
    requires !DecodeFields(0x2, x, y, n).Unknown?
    requires (y * 0x10 + n) / 0x10 == y && (y * 0x10 + n) % 0x10 == n
    requires var a := Assemble(0x0, x, y, n); a / 0x100 == x && a / 0x10 % 0x10 == y && a % 0x10 == n
    ensures Encode(DecodeFields(0x2, x, y, n)) == Assemble(0x2, x, y, n)
  {
  }

  lemma EncodeDecodeGroup3(x: Nibble, y: Nibble, n: Nibble)
    requires !DecodeFields(0x3, x, y, n).Unknown?
    requires (y * 0x10 + n) / 0x10 == y && (y * 0x10 + n) % 0x10 == n
    requires var a := Assemble(0x0, x, y, n); a / 0x100 == x && a / 0x10 % 0x10 == y && a % 0x10 == n
    ensures Encode(DecodeFields(0x3, x, y, n)) == Assemble(0x3, x, y, n)
  {
  }

  lemma EncodeDecodeGroup4(x: Nibble, y: Nibble, n: Nibble)
    requires !DecodeFields(0x4, x, y, n).Unknown?
    requires (y * 0x10 + n) / 0x10 == y && (y * 0x10 + n) % 0x10 == n
    requires var a := Assemble(0x0, x, y, n); a / 0x100 == x && a / 0x10 % 0x10 == y && a % 0x10 == n
    ensures Encode(DecodeFields(0x4, x, y, n)) == Assemble(0x4, x, y, n)
  {
  }

  lemma EncodeDecodeGroup6(x: Nibble, y: Nibble, n: Nibble)
    requires !DecodeFields(0x6, x, y, n).Unknown?
    requires (y * 0x10 + n) / 0x10 == y && (y * 0x10 + n) % 0x10 == n
    requires var a := Assemble(0x0, x, y, n); a / 0x100 == x && a / 0x10 % 0x10 == y && a % 0x10 == n
    ensures Encode(DecodeFields(0x6, x, y, n)) == Assemble(0x6, x, y, n)
  {
  }

  lemma EncodeDecodeGroup7(x: Nibble, y: Nibble, n: Nibble)
    requires !DecodeFields(0x7, x, y, n).Unknown?
    requires (y * 0x10 + n) / 0x10 == y && (y * 0x10 + n) % 0x10 == n
    requires var a := Assemble(0x0, x, y, n); a / 0x100 == x && a / 0x10 % 0x10 == y && a % 0x10 == n
    ensures Encode(DecodeFields(0x7, x, y, n)) == Assemble(0x7, x, y, n)
  {
  }

  lemma EncodeDecodeGroup8(x: Nibble, y: Nibble, n: Nibble)
    requires !DecodeFields(0x8, x, y, n).Unknown?
    requires (y * 0x10 + n) / 0x10 == y && (y * 0x10 + n) % 0x10 == n
    requires var a := Assemble(0x0, x, y, n); a / 0x100 == x && a / 0x10 % 0x10 == y && a % 0x10 == n
    ensures Encode(DecodeFields(0x8, x, y, n)) == Assemble(0x8, x, y, n)
  {
  }

  lemma EncodeDecodeGroupA(x: Nibble, y: Nibble, n: Nibble)
    requires !DecodeFields(0xA, x, y, n).Unknown?
    requires (y * 0x10 + n) / 0x10 == y && (y * 0x10 + n) % 0x10 == n
    requires var a := Assemble(0x0, x, y, n); a / 0x100 == x && a / 0x10 % 0x10 == y && a % 0x10 == n
    ensures Encode(DecodeFields(0xA, x, y, n)) == Assemble(0xA, x, y, n)
  {
  }

  lemma EncodeDecodeGroupB(x: Nibble, y: Nibble, n: Nibble)
    requires !DecodeFields(0xB, x, y, n).Unknown?
    requires (y * 0x10 + n) / 0x10 == y && (y * 0x10 + n) % 0x10 == n
    requires var a := Assemble(0x0, x, y, n); a / 0x100 == x && a / 0x10 % 0x10 == y && a % 0x10 == n
    ensures Encode(DecodeFields(0xB, x, y, n)) == Assemble(0xB, x, y, n)
  {
  }

  lemma EncodeDecodeGroupC(x: Nibble, y: Nibble, n: Nibble)
    requires !DecodeFields(0xC, x, y, n).Unknown?
    requires (y * 0x10 + n) / 0x10 == y && (y * 0x10 + n) % 0x10 == n
    requires var a := Assemble(0x0, x, y, n); a / 0x100 == x && a / 0x10 % 0x10 == y && a % 0x10 == n
    ensures Encode(DecodeFields(0xC, x, y, n)) == Assemble(0xC, x, y, n)
  {
  }

  lemma EncodeDecodeGroupD(x: Nibble, y: Nibble, n: Nibble)
    requires !DecodeFields(0xD, x, y, n).Unknown?
    requires (y * 0x10 + n) / 0x10 == y && (y * 0x10 + n) % 0x10 == n
    requires var a := Assemble(0x0, x, y, n); a / 0x100 == x && a / 0x10 % 0x10 == y && a % 0x10 == n
    ensures Encode(DecodeFields(0xD, x, y, n)) == Assemble(0xD, x, y, n)
  {
  }

  lemma EncodeDecodeGroupE(x: Nibble, y: Nibble, n: Nibble)
    requires !DecodeFields(0xE, x, y, n).Unknown?
    requires (y * 0x10 + n) / 0x10 == y && (y * 0x10 + n) % 0x10 == n
    requires var a := Assemble(0x0, x, y, n); a / 0x100 == x && a / 0x10 % 0x10 == y && a % 0x10 == n
    ensures Encode(DecodeFields(0xE, x, y, n)) == Assemble(0xE, x, y, n)
  {
  }

  lemma EncodeDecodeGroupF(x: Nibble, y: Nibble, n: Nibble)
    requires !DecodeFields(0xF, x, y, n).Unknown?
    requires (y * 0x10 + n) / 0x10 == y && (y * 0x10 + n) % 0x10 == n
    requires var a := Assemble(0x0, x, y, n); a / 0x100 == x && a / 0x10 % 0x10 == y && a % 0x10 == n
    ensures Encode(DecodeFields(0xF, x, y, n)) == Assemble(0xF, x, y, n)
  {
  }

  /** Group 0x0 looks only at the low nibble: 0x0NN0 is a clear-screen and 0x0NNE a return,
      whatever NN is. */
  lemma GroupZeroIgnoresMiddleByte(op: Word)
    requires op < 0x1000
    ensures op % 0x10 == 0x0 ==> Decode(op) == ClearScreen
    ensures op % 0x10 == 0xE ==> Decode(op) == Return
    ensures op % 0x10 != 0x0 && op % 0x10 != 0xE ==> Decode(op) == Unknown(op)
  {
    SplitFields(op);
  }

  /** 5XYN never reads the Y field nor the low nibble: for every Y and N it compares VX
      with V0. */
  lemma SkipIfRegistersEqualUsesV0(x: Reg, y: Reg, n: Nibble)
    ensures Decode(0x5000 + x * 0x100 + y * 0x10 + n) == SkipIfRegistersEqual(x, 0)
  {
    DecodeAssembled(0x5, x, y, n);
  }
}
