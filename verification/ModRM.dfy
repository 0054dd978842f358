/**
  Memory and register operands in ModRM and SIB bytes: `asm_modrm`, `gen_modrm`, and a decoder
  after the processor manual.
 */
module ModRM {
  import opened Bytes
  import opened JumpList
  import opened X86
  import opened CodeGen

  const ESP := 4
  const EBP := 5

  /** An operand: a register, or base + index << scale + disp, with -1 for no base or no index. */
  datatype Operand = Register(r: nat) | Memory(base: int, index: int, scale: nat, disp: u32)

  /** What the decoder reads: the register field, the operand, and how many bytes they took. */
  datatype Reading = Reading(reg: nat, operand: Operand, len: nat)

  /** Tables 2-2 and 2-3 of the Intel Software Developer's Manual, volume 2A, section 2.1.5, for 32-bit addresses. */
  function Read(c: Code, i: nat): Reading {
    var m, s := ByteAt(c, i), ByteAt(c, i + 1);
    var mode, reg, rm := m / 64, m / 8 % 8, m % 8;
    if mode == 3 then Reading(reg, Register(rm), 1)
    else if mode == 0 && rm == 5 then Reading(reg, Memory(-1, -1, 0, WordAt(c, i + 1)), 5)
    else if rm == 4 then
      var scale, index, base := s / 64, s / 8 % 8, s % 8;
      var x := if index == 4 then -1 else index;
      var k := if index == 4 then 0 else scale;
      if mode == 0 && base == 5 then Reading(reg, Memory(-1, x, k, WordAt(c, i + 2)), 6)
      else if mode == 0 then Reading(reg, Memory(base, x, k, 0), 2)
      else if mode == 1 then Reading(reg, Memory(base, x, k, SignExtend(ByteAt(c, i + 2))), 3)
      else Reading(reg, Memory(base, x, k, WordAt(c, i + 2)), 6)
    else if mode == 0 then Reading(reg, Memory(rm, -1, 0, 0), 1)
    else if mode == 1 then Reading(reg, Memory(rm, -1, 0, SignExtend(s)), 2)
    else Reading(reg, Memory(rm, -1, 0, WordAt(c, i + 1)), 5)
  }

  /** The address a memory operand stands for. */
  function Effective(o: Operand, regs: Regs): u32 {
    match o
    case Register(_) => 0
    case Memory(base, index, scale, disp) =>
      ((if 0 <= base < 8 then regs[base] else 0)
        + (if 0 <= index < 8 then regs[index] * Pow2(scale) else 0)
        + disp) % WRAP
  }

  /**
    An assembler operand: `Operand` of `asm_modrm`, with the value of its displacement expression and whether that has a
    symbol.
   */
  datatype AsmOperand = AsmOperand(isReg: bool, reg: int, reg2: int, shift: nat, v: int, hasSym: bool)

  predicate WellFormed(op: AsmOperand) {
    if op.isReg then 0 <= op.reg < 8 else -1 <= op.reg < 8 && -1 <= op.reg2 < 8 && op.shift < 4
  }

  /** The operand as it was written; without an index the scale has no meaning. */
  function Written(op: AsmOperand): Operand
    requires WellFormed(op)
  {
    if op.isReg then Register(op.reg)
    else Memory(op.reg, op.reg2, if op.reg2 == -1 then 0 else op.shift, op.v % WRAP)
  }

  /** The mode bits in place: 0x00, 0x40 or 0x80. */
  function Mode(op: AsmOperand): nat {
    if op.reg == -1 then 0
    else if op.v == 0 && !op.hasSym && op.reg != 5 then 0
    else if FitsByte(op.v) && !op.hasSym then 0x40
    else 0x80
  }

  /** ModRM byte and, where there is one, SIB byte of a memory operand that has a base or an index. */
  function Head(reg: nat, op: AsmOperand): seq<byte>
    requires reg < 8 && WellFormed(op) && !op.isReg && !(op.reg == -1 && op.reg2 == -1)
  {
    var base := if op.reg == -1 then 5 else op.reg;
    if op.reg2 != -1 then [Mode(op) + 8 * reg + 4, 64 * op.shift + 8 * op.reg2 + base]
    else if op.reg == 4 then [Mode(op) + 8 * reg + 4, 64 * op.shift + 36]
    else [Mode(op) + 8 * reg + op.reg]
  }

  function Tail(op: AsmOperand): seq<byte> {
    if Mode(op) == 0x40 then [op.v % 0x100] else if Mode(op) == 0x80 || op.reg == -1 then Le32(op.v % WRAP) else []
  }

  function ModrmBytes(reg: nat, op: AsmOperand): seq<byte>
    requires reg < 8 && WellFormed(op)
  {
    if op.isReg then [0xC0 + 8 * reg + op.reg]
    else if op.reg == -1 && op.reg2 == -1 then [5 + 8 * reg] + Le32(op.v % WRAP)
    else Head(reg, op) + Tail(op)
  }

  lemma Fields(mode: nat, reg: nat, rm: nat)
    requires mode < 4 && reg < 8 && rm < 8
    ensures var m := 64 * mode + 8 * reg + rm; m < 256 && m / 64 == mode && m / 8 % 8 == reg && m % 8 == rm
  {
  }

  /** Reading back an operand whose address has no SIB byte. */
  lemma ReadPlain(c: Code, i: nat, reg: nat, op: AsmOperand)
    requires reg < 8 && WellFormed(op) && !op.isReg && op.reg != -1 && op.reg != 4 && op.reg2 == -1
    requires Holds(c, i, ModrmBytes(reg, op))
    ensures Read(c, i) == Reading(reg, Written(op), |ModrmBytes(reg, op)|)
  {
    hide ByteAt, WordAt, Le32, SignExtend;
    HoldsAt(c, i, ModrmBytes(reg, op));
    Fields(Mode(op) / 64, reg, op.reg);
    if Mode(op) == 0x40 {
      ByteDisp(op.v);
    } else if Mode(op) == 0x80 {
      WordBehind(c, i, Head(reg, op), op.v % WRAP);
    }
  }

  /** Reading back an operand with a SIB byte. */
  lemma ReadSib(c: Code, i: nat, reg: nat, op: AsmOperand)
    requires reg < 8 && WellFormed(op) && !op.isReg && (op.reg == 4 || op.reg2 != -1) && op.reg2 != 4
    requires Holds(c, i, ModrmBytes(reg, op))
    ensures Read(c, i) == Reading(reg, Written(op), |ModrmBytes(reg, op)|)
  {
    hide ByteAt, WordAt, Le32, SignExtend;
    HoldsAt(c, i, ModrmBytes(reg, op));
    Fields(Mode(op) / 64, reg, 4);
    Fields(op.shift, if op.reg2 == -1 then 4 else op.reg2, if op.reg == -1 then 5 else op.reg);
    if Mode(op) == 0x40 {
      ByteDisp(op.v);
    } else if Mode(op) == 0x80 || op.reg == -1 {
      WordBehind(c, i, Head(reg, op), op.v % WRAP);
    }
  }

  lemma ReadRest(c: Code, i: nat, reg: nat, op: AsmOperand)
    requires reg < 8 && WellFormed(op) && (op.isReg || (op.reg == -1 && op.reg2 == -1))
    requires Holds(c, i, ModrmBytes(reg, op))
    ensures Read(c, i) == Reading(reg, Written(op), |ModrmBytes(reg, op)|)
  {
    hide ByteAt, WordAt, Le32, SignExtend;
    HoldsAt(c, i, ModrmBytes(reg, op));
    if op.isReg {
      Fields(3, reg, op.reg);
    } else {
      Fields(0, reg, 5);
      WordBehind(c, i, [5 + 8 * reg], op.v % WRAP);
    }
  }

  /** esp cannot be an index: its place in the SIB byte says that there is none. */
  lemma EspIndexLost(c: Code, i: nat, reg: nat, op: AsmOperand)
    requires reg < 8 && WellFormed(op) && !op.isReg && op.reg2 == 4 && Holds(c, i, ModrmBytes(reg, op))
    ensures Read(c, i).operand != Written(op)
  {
    hide ByteAt, WordAt, Le32, SignExtend;
    HoldsAt(c, i, ModrmBytes(reg, op));
    Fields(Mode(op) / 64, reg, 4);
    Fields(op.shift, 4, if op.reg == -1 then 5 else op.reg);
  }

  /**
    The decoder takes exactly the bytes emitted and gives the operand back as written, if and only if esp is not its
    index.
   */
  lemma RoundTripIff(c: Code, i: nat, reg: nat, op: AsmOperand)
    requires reg < 8 && WellFormed(op) && Holds(c, i, ModrmBytes(reg, op))
    ensures Read(c, i) == Reading(reg, Written(op), |ModrmBytes(reg, op)|) <==> op.isReg || op.reg2 != ESP
  {
    hide Read, ModrmBytes, Holds, Written;
    if op.isReg || (op.reg == -1 && op.reg2 == -1) {
      ReadRest(c, i, reg, op);
    } else if op.reg2 == 4 {
      EspIndexLost(c, i, reg, op);
    } else if op.reg == 4 || op.reg2 != -1 {
      ReadSib(c, i, reg, op);
    } else {
      ReadPlain(c, i, reg, op);
    }
  }

  /** The encoding of a memory operand with a base or an index. */
  method EmitMemory(text: Section, reg: nat, op: AsmOperand)
    requires reg < 8 && WellFormed(op) && !op.isReg && !(op.reg == -1 && op.reg2 == -1)
    modifies text`code
    ensures text.code == if text.nocode then old(text.code) else old(text.code) + (Head(reg, op) + Tail(op))
  {
    hide Le32;
    ghost var c := text.code;
    var base, mode := op.reg, 0x80;
    if base == -1 {
      base := 5;
      mode := 0;
    } else if op.v == 0 && !op.hasSym && op.reg != 5 {
      mode := 0;
    } else if FitsByte(op.v) && !op.hasSym {
      mode := 0x40;
    }
    var rm := op.reg;
    if op.reg2 != -1 {
      rm := 4;
    }
    text.G(mode + 8 * reg + rm);
    if rm == 4 {
      var index := if op.reg2 == -1 then 4 else op.reg2;
      text.G(64 * op.shift + 8 * index + base);
    }
    assert !text.nocode ==> text.code == c + Head(reg, op);
    if mode == 0x40 {
      text.G(op.v % 0x100);
    } else if mode == 0x80 || op.reg == -1 {
      text.GenLe32(op.v % WRAP);
    }
    assert !text.nocode ==> text.code == c + (Head(reg, op) + Tail(op));
  }

  /** `asm_modrm` */
  method AsmModrm(text: Section, reg: nat, op: AsmOperand)
    requires reg < 8 && WellFormed(op)
    modifies text`code
    ensures text.code == if text.nocode then old(text.code) else old(text.code) + ModrmBytes(reg, op)
    ensures !text.nocode && (op.isReg || op.reg2 != ESP) ==>
      Read(text.code, |old(text.code)|) == Reading(reg, Written(op), |text.code| - |old(text.code)|)
  {
    hide Read, Le32, Written, Holds, Head, Tail;
    ghost var c := text.code;
    if op.isReg {
      text.G(0xC0 + 8 * reg + op.reg);
    } else if op.reg == -1 && op.reg2 == -1 {
      text.G(5 + 8 * reg);
      text.GenLe32(op.v % WRAP);
    } else {
      EmitMemory(text, reg, op);
    }
    if !text.nocode {
      assert text.code == c + ModrmBytes(reg, op);
      EndHolds(c, ModrmBytes(reg, op));
      RoundTripIff(text.code, |c|, reg, op);
    }
  }

  // ----- references from compiled code -----

  /** Where compiled code finds a value: a fixed address, an offset from ebp, or behind a register. */
  datatype Place = Fixed(c: int) | Local(c: int) | Behind(r: nat)

  /** The operand a place stands for. */
  function PlaceOperand(p: Place): Operand {
    match p
    case Fixed(c) => Memory(-1, -1, 0, c % WRAP)
    case Local(c) => Memory(EBP, -1, 0, c % WRAP)
    case Behind(r) => Memory(r, -1, 0, 0)
  }

  function PlaceBytes(reg: nat, p: Place): seq<byte>
    requires reg < 8 && (p.Behind? ==> p.r < 8)
  {
    match p
    case Fixed(c) => [5 + 8 * reg] + Le32(c % WRAP)
    case Local(c) => if FitsByte(c) then [0x45 + 8 * reg, c % 0x100] else [0x85 + 8 * reg] + Le32(c % WRAP)
    case Behind(r) => [8 * reg + r]
  }

  /**
    A reference reads back as its place, unless it goes through esp or ebp without an offset, which mean something else.
   */
  lemma PlaceReadsIff(c: Code, i: nat, reg: nat, p: Place)
    requires reg < 8 && (p.Behind? ==> p.r < 8) && Holds(c, i, PlaceBytes(reg, p))
    ensures Read(c, i) == Reading(reg, PlaceOperand(p), |PlaceBytes(reg, p)|) <==>
      !(p.Behind? && (p.r == ESP || p.r == EBP))
  {
    hide ByteAt, WordAt, Le32, SignExtend;
    HoldsAt(c, i, PlaceBytes(reg, p));
    match p
    case Fixed(v) =>
      Fields(0, reg, 5);
      WordBehind(c, i, [5 + 8 * reg], v % WRAP);
    case Local(v) =>
      if FitsByte(v) {
        Fields(1, reg, 5);
        ByteDisp(v);
      } else {
        Fields(2, reg, 5);
        WordBehind(c, i, [0x85 + 8 * reg], v % WRAP);
      }
    case Behind(r) =>
      Fields(0, reg, r);
  }

  /** `gen_modrm`, the relocation of a symbol aside. */
  method GenModrm(text: Section, reg: nat, p: Place)
    requires reg < 8 && (p.Behind? ==> p.r < 8 && p.r != ESP && p.r != EBP)
    modifies text`code
    ensures text.code == if text.nocode then old(text.code) else old(text.code) + PlaceBytes(reg, p)
    ensures !text.nocode ==>
      Read(text.code, |old(text.code)|) == Reading(reg, PlaceOperand(p), |text.code| - |old(text.code)|)
  {
    hide Read, Le32, Opcode, Holds;
    ghost var c0 := text.code;
    match p {
      case Fixed(c) =>
        OneByte(5 + 8 * reg);
        text.O(5 + 8 * reg);
        text.GenLe32(c % WRAP);
      case Local(c) =>
        if FitsByte(c) {
          OneByte(0x45 + 8 * reg);
          text.O(0x45 + 8 * reg);
          text.G(c % 0x100);
        } else {
          OneByte(0x85 + 8 * reg);
          var _ := text.Oad(0x85 + 8 * reg, c % WRAP);
        }
      case Behind(r) =>
        text.G(8 * reg + r);
    }
    if !text.nocode {
      assert text.code == c0 + PlaceBytes(reg, p);
      EndHolds(c0, PlaceBytes(reg, p));
      PlaceReadsIff(text.code, |c0|, reg, p);
    }
  }

  /** A local reached by the assembler's form and by the compiler's form is the same memory. */
  lemma SameLocal(c: int, regs: Regs)
    ensures Effective(PlaceOperand(Local(c)), regs) == Effective(Written(AsmOperand(false, EBP, -1, 0, c, false)), regs)
    ensures Effective(PlaceOperand(Local(c)), regs) == (regs[EBP] + c) % WRAP
  {
  }
}
