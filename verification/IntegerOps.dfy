/** `gen_opi`: the code of integer operations, and what it computes. */
module IntegerOps {
  import opened Bytes
  import opened JumpList
  import opened X86
  import opened Lowering
  import opened CodeGen

  datatype Op =
    | Add | AddC1 | AddC2 | Sub | SubC1 | SubC2 | AndOp | OrOp | XorOp | MulOp
    | Shl | Shr | Sar | DivOp | UDiv | PDiv | ModOp | UMod | UMull
    | Relation(tok: nat)

  /** The second operand: a constant, or a register. */
  datatype Operand = Const(c: u32) | InReg(fr: nat)

  /** The tokens from TOK_ULT to TOK_GT that name a relation. */
  predicate IsRelation(tok: nat) {
    (0x92 <= tok <= 0x97) || (0x9C <= tok <= 0x9F)
  }

  predicate SharesEncoding(op: Op) {
    op.Add? || op.AddC1? || op.AddC2? || op.Sub? || op.SubC1? || op.SubC2? || op.AndOp? || op.OrOp? || op.XorOp? ||
      op.Relation?
  }

  predicate IsShiftOp(op: Op) {
    op.Shl? || op.Shr? || op.Sar?
  }

  predicate Divides(op: Op) {
    op.DivOp? || op.UDiv? || op.PDiv? || op.ModOp? || op.UMod? || op.UMull?
  }

  /** `opc` */
  function Opc(op: Op): (n: nat)
    ensures n < 8
  {
    match op
    case Add => 0 case AddC1 => 0 case OrOp => 1 case AddC2 => 2 case SubC2 => 3
    case AndOp => 4 case Sub => 5 case SubC1 => 5 case XorOp => 6
    case Shl => 4 case Shr => 5 case Sar => 7
    case _ => 7
  }

  /** `c == (char)c` */
  predicate Small(c: u32) {
    c < 0x80 || c >= 0xFFFF_FF80
  }

  // ----- what the operations mean -----

  /** The 32-bit value an operation names; `carry` is what an earlier half left behind. */
  function Meaning(op: Op, x: u32, y: u32, carry: bool): u32 {
    var k := if carry then 1 else 0;
    match op
    case Add => (x + y) % WRAP
    case AddC1 => (x + y) % WRAP
    case AddC2 => (x + y + k) % WRAP
    case Sub => (x - y) % WRAP
    case SubC1 => (x - y) % WRAP
    case SubC2 => (x - y - k) % WRAP
    case AndOp => And(x, y)
    case OrOp => Or(x, y)
    case XorOp => Xor(x, y)
    case MulOp => (x * y) % WRAP
    case Shl => x * Pow2(y % 32) % WRAP
    case Shr => x / Pow2(y % 32) % WRAP
    case Sar => Floor(Signed(x), Pow2(y % 32)) % WRAP
    case _ => x
  }

  /** The relation a comparison token names. */
  predicate Related(tok: nat, x: u32, y: u32) {
    match tok
    case 0x92 => x < y
    case 0x93 => x >= y
    case 0x94 => x == y
    case 0x95 => x != y
    case 0x96 => x <= y
    case 0x97 => x > y
    case 0x9C => Signed(x) < Signed(y)
    case 0x9D => Signed(x) >= Signed(y)
    case 0x9E => Signed(x) <= Signed(y)
    case 0x9F => Signed(x) > Signed(y)
    case _ => false
  }

  /** After comparing, the condition code of every relation token says whether the relation holds. */
  lemma FlagsRelate(tok: nat, x: u32, y: u32)
    requires IsRelation(tok)
    ensures Cond(tok - 0x90, SubFlags(x, y, 0)) <==> Related(tok, x, y)
  {
    hide Parity;
    ZeroDifference(x, y);
    SignOfDifference(x, y);
  }

  lemma ZeroDifference(x: u32, y: u32)
    ensures Difference(x, y, 0) == 0 <==> x == y
  {
  }

  /** Sign and overflow flags differ exactly when the first operand is the smaller one as a signed number. */
  lemma SignOfDifference(x: u32, y: u32)
    ensures ((Difference(x, y, 0) >= 0x8000_0000) != !InRange(Signed(x) - Signed(y))) <==> Signed(x) < Signed(y)
  {
  }

  // ----- the code -----

  function ShortForm(op: Op, r: nat, c: u32): seq<byte>
    requires r < 8 && SharesEncoding(op)
  {
    if c == 1 && Opc(op) == 0 && !op.AddC1? then [0x40 + r]
    else if c == 1 && Opc(op) == 5 && !op.SubC1? then [0x48 + r]
    else [0x83, 0xC0 + 8 * Opc(op) + r, c % 0x100]
  }

  /** The bytes for `r op= y`. */
  function OpiCode(op: Op, r: nat, y: Operand): seq<byte>
    requires r < 8 && (y.InReg? ==> y.fr < 8)
  {
    if SharesEncoding(op) then
      match y
      case Const(c) => if Small(c) then ShortForm(op, r, c) else [0x81, 0xC0 + 8 * Opc(op) + r] + Le32(c)
      case InReg(fr) => [8 * Opc(op) + 1, 0xC0 + r + 8 * fr]
    else if op.MulOp? then
      if y.InReg? then [0x0F, 0xAF, 0xC0 + y.fr + 8 * r] else []
    else if IsShiftOp(op) then
      match y
      case Const(c) => [0xC1, 0xC0 + 8 * Opc(op) + r, c % 32]
      case InReg(_) => [0xD3, 0xC0 + 8 * Opc(op) + r]
    else if y.Const? then []
    else if op.UMull? then [0xF7, 0xE0 + y.fr]
    else if op.UDiv? || op.UMod? then [0x31, 0xD2, 0xF7, 0xF0 + y.fr]
    else [0x99, 0xF7, 0xF8 + y.fr]
  }

  /** Adding or subtracting 1 takes one byte, a constant that fits a signed byte three, any other six. */
  lemma ImmediateSize(op: Op, r: nat, c: u32)
    requires SharesEncoding(op) && r < 8
    ensures |OpiCode(op, r, Const(c))| ==
      if c == 1 && (op.Add? || op.Sub?) then 1 else if -128 <= Signed(c) < 128 then 3 else 6
  {
    hide Le32;
  }

  /** What register allocation has seen to before the code is emitted. */
  predicate Allocated(op: Op, r: nat, y: Operand) {
    && r < 8 && (y.InReg? ==> y.fr < 8)
    && (op.Relation? ==> IsRelation(op.tok))
    && (op.MulOp? ==> y.InReg?)
    && (IsShiftOp(op) && y.InReg? ==> y.fr == ECX && r != ECX)
    && (Divides(op) ==> y.InReg? && r == EAX && y.fr != EAX && y.fr != EDX)
  }

  function OperandOf(y: Operand, s: State): u32 {
    match y
    case Const(c) => c
    case InReg(fr) => Get(s, fr)
  }

  // ----- one instruction -----

  lemma SmallByte(c: u32)
    requires Small(c)
    ensures SignExtend(c % 0x100) == c
  {
  }

  lemma PairByte(reg: nat, rm: nat)
    requires reg < 8 && rm < 8
    ensures 0xC0 + 8 * reg + rm < 0x100 && IsPair(0xC0 + 8 * reg + rm) && Reg(0xC0 + 8 * reg + rm) == reg
    ensures Rm(0xC0 + 8 * reg + rm) == rm
  {
  }

  lemma DecodeAluReg(c: Code, i: nat, op: nat, dst: nat, src: nat)
    requires op < 8 && dst < 8 && src < 8 && ByteAt(c, i) == 8 * op + 1 && ByteAt(c, i + 1) == 0xC0 + dst + 8 * src
    ensures Decode(c, i) == Decoded(AluReg(op, dst, src), 2)
  {
    hide ByteAt, WordAt;
    PairByte(src, dst);
  }

  lemma DecodeAluImm8(c: Code, i: nat, op: nat, r: nat, n: u32)
    requires op < 8 && r < 8 && Small(n) && ByteAt(c, i) == 0x83 && ByteAt(c, i + 1) == 0xC0 + 8 * op + r
    requires ByteAt(c, i + 2) == n % 0x100
    ensures Decode(c, i) == Decoded(AluImm(op, r, n), 3)
  {
    hide ByteAt, WordAt;
    PairByte(op, r);
    SmallByte(n);
  }

  lemma DecodeAluImm32(c: Code, i: nat, op: nat, r: nat, n: u32)
    requires op < 8 && r < 8 && ByteAt(c, i) == 0x81 && ByteAt(c, i + 1) == 0xC0 + 8 * op + r && WordAt(c, i + 2) == n
    ensures Decode(c, i) == Decoded(AluImm(op, r, n), 6)
  {
    hide ByteAt, WordAt;
    PairByte(op, r);
  }

  /** Inc and dec give the sum and difference with 1, but keep the carry. */
  lemma ShortAgrees(op: Op, r: nat, c: u32, code: Code, s: State)
    requires SharesEncoding(op) && r < 8 && Small(c) && Holds(code, s.ip, ShortForm(op, r, c))
    ensures var t := Step(code, {}, At(s));
      && t.At? && t.s.ip == s.ip + |ShortForm(op, r, c)|
      && t.s.regs == s.regs[r := Alu(Opc(op), s.regs[r], c, s.flags).0]
      && (!op.Add? && !op.Sub? ==> t.s.flags == Alu(Opc(op), s.regs[r], c, s.flags).1)
  {
    hide ByteAt, WordAt, Parity, And, Or, Xor;
    HoldsAt(code, s.ip, ShortForm(op, r, c));
    if c == 1 && Opc(op) == 0 && !op.AddC1? {
      assert Decode(code, s.ip) == Decoded(Inc(r), 1);
    } else if c == 1 && Opc(op) == 5 && !op.SubC1? {
      assert Decode(code, s.ip) == Decoded(Dec(r), 1);
    } else {
      DecodeAluImm8(code, s.ip, Opc(op), r, c);
    }
  }

  /** Where one instruction of the shared encoding leads. */
  ghost predicate DoesAlu(op: Op, r: nat, y: u32, len: nat, code: Code, s: State)
    requires r < 8
  {
    var t, a := Step(code, {}, At(s)), Alu(Opc(op), s.regs[r], y, s.flags);
    && t.At? && t.s.ip == s.ip + len && t.s.regs == s.regs[r := a.0]
    && (!op.Add? && !op.Sub? ==> t.s.flags == a.1)
  }

  lemma LongDoes(op: Op, r: nat, c: u32, code: Code, s: State)
    requires SharesEncoding(op) && r < 8 && Holds(code, s.ip, [0x81, 0xC0 + 8 * Opc(op) + r] + Le32(c))
    ensures DoesAlu(op, r, c, 6, code, s)
  {
    hide ByteAt, WordAt, Alu, Le32, Opc, Decode;
    var w := [0x81, 0xC0 + 8 * Opc(op) + r] + Le32(c);
    HoldsAt(code, s.ip, w);
    assert code[s.ip + 2..s.ip + 6] == w[2..6] == Le32(c);
    WordIs(code, s.ip + 2, c);
    DecodeAluImm32(code, s.ip, Opc(op), r, c);
  }

  lemma RegisterDoes(op: Op, r: nat, fr: nat, code: Code, s: State)
    requires SharesEncoding(op) && r < 8 && fr < 8 && Holds(code, s.ip, [8 * Opc(op) + 1, 0xC0 + r + 8 * fr])
    ensures DoesAlu(op, r, s.regs[fr], 2, code, s)
  {
    hide ByteAt, WordAt, Alu, Opc, Decode;
    HoldsAt(code, s.ip, [8 * Opc(op) + 1, 0xC0 + r + 8 * fr]);
    DecodeAluReg(code, s.ip, Opc(op), r, fr);
  }

  /** Inc, dec, short, long and register forms all do the same operation. */
  lemma FormsAgree(op: Op, r: nat, y: Operand, code: Code, s: State)
    requires SharesEncoding(op) && Allocated(op, r, y) && Holds(code, s.ip, OpiCode(op, r, y))
    ensures DoesAlu(op, r, OperandOf(y, s), |OpiCode(op, r, y)|, code, s)
  {
    hide Alu, Le32, Step, Opc, Holds;
    match y
    case Const(c) =>
      if Small(c) {
        ShortAgrees(op, r, c, code, s);
      } else {
        LongDoes(op, r, c, code, s);
      }
    case InReg(fr) =>
      RegisterDoes(op, r, fr, code, s);
  }

  lemma AluMeans(op: Op, x: u32, y: u32, f: Flags)
    requires SharesEncoding(op)
    ensures Alu(Opc(op), x, y, f).0 == Meaning(op, x, y, f.cf)
    ensures op.AddC1? ==> (Alu(Opc(op), x, y, f).1.cf <==> x + y >= WRAP)
    ensures op.SubC1? ==> (Alu(Opc(op), x, y, f).1.cf <==> x < y)
    ensures op.Relation? ==> Alu(Opc(op), x, y, f).1 == SubFlags(x, y, 0)
  {
    hide Parity, And, Or, Xor;
  }

  /** Where the result is: the remainder in edx, everything else in the first register. */
  function ResultReg(op: Op, r: nat): nat {
    if op.ModOp? || op.UMod? then EDX else r
  }

  /** No division by zero, and no signed quotient that 32 bits cannot hold. */
  predicate Defined(op: Op, x: u32, y: u32) {
    if op.UDiv? || op.UMod? then y != 0
    else if op.DivOp? || op.PDiv? || op.ModOp? then y != 0 && !(x == 0x8000_0000 && y == 0xFFFF_FFFF)
    else true
  }

  /** The value the code leaves, divisions included: signed ones round towards zero. */
  function Computed(op: Op, x: u32, y: u32, carry: bool): u32
    requires Defined(op, x, y)
  {
    match op
    case UDiv => x / y
    case UMod => x % y
    case DivOp => Quotient(Signed(x), Signed(y)) % WRAP
    case PDiv => Quotient(Signed(x), Signed(y)) % WRAP
    case ModOp => (Signed(x) - Quotient(Signed(x), Signed(y)) * Signed(y)) % WRAP
    case UMull => (x * y) % WRAP
    case _ => Meaning(op, x, y, carry)
  }

  // ----- the other encodings -----

  lemma MulDoes(r: nat, fr: nat, code: Code, s: State)
    requires r < 8 && fr < 8 && Holds(code, s.ip, [0x0F, 0xAF, 0xC0 + fr + 8 * r])
    ensures Step(code, {}, At(s)) == At(s.(ip := s.ip + 3, regs := s.regs[r := (s.regs[r] * s.regs[fr]) % WRAP]))
  {
    hide WordAt, ByteAt;
    HoldsAt(code, s.ip, [0x0F, 0xAF, 0xC0 + fr + 8 * r]);
    PairByte(r, fr);
    assert Decode(code, s.ip) == Decoded(Imul(r, fr), 3);
  }

  lemma ShiftMeans(op: Op, x: u32, y: u32)
    requires IsShiftOp(op)
    ensures Shift(Opc(op), x, y % 32) == Meaning(op, x, y, false)
  {
    hide Pow2, Floor, Signed;
  }

  lemma ShiftImmDoes(op: nat, r: nat, n: nat, code: Code, s: State)
    requires IsShift(op) && op < 8 && r < 8 && n < 32 && Holds(code, s.ip, [0xC1, 0xC0 + 8 * op + r, n])
    ensures Step(code, {}, At(s)) == At(s.(ip := s.ip + 3, regs := s.regs[r := Shift(op, s.regs[r], n)]))
  {
    hide WordAt, ByteAt, Shift;
    HoldsAt(code, s.ip, [0xC1, 0xC0 + 8 * op + r, n]);
    PairByte(op, r);
    assert Decode(code, s.ip) == Decoded(ShiftImm(op, r, n), 3);
  }

  lemma ShiftClDoes(op: nat, r: nat, code: Code, s: State)
    requires IsShift(op) && op < 8 && r < 8 && Holds(code, s.ip, [0xD3, 0xC0 + 8 * op + r])
    ensures Step(code, {}, At(s)) == At(s.(ip := s.ip + 2, regs := s.regs[r := Shift(op, s.regs[r], s.regs[ECX] % 32)]))
  {
    hide WordAt, ByteAt, Shift;
    HoldsAt(code, s.ip, [0xD3, 0xC0 + 8 * op + r]);
    PairByte(op, r);
    assert Decode(code, s.ip) == Decoded(ShiftCl(op, r), 2);
  }

  lemma ShiftDoes(op: Op, r: nat, y: Operand, code: Code, s: State)
    requires IsShiftOp(op) && Allocated(op, r, y) && Holds(code, s.ip, OpiCode(op, r, y))
    ensures Step(code, {}, At(s))
         == At(s.(ip := s.ip + |OpiCode(op, r, y)|,
           regs := s.regs[r := Meaning(op, s.regs[r], OperandOf(y, s), false)]))
  {
    hide Shift, Meaning, Step, Holds;
    ShiftMeans(op, s.regs[r], OperandOf(y, s));
    match y
    case Const(c) => ShiftImmDoes(Opc(op), r, c % 32, code, s);
    case InReg(fr) => ShiftClDoes(Opc(op), r, code, s);
  }

  // ----- products and quotients -----

  lemma NonNegative(a: nat, b: nat)
    ensures a * b >= 0
  {
  }

  lemma AtLeast(y: nat, q: nat)
    requires y >= 1
    ensures y * q >= q
  {
    NonNegative(y - 1, q);
    assert y * q == (y - 1) * q + q;
  }

  lemma AtLeastTwice(y: nat, q: nat)
    requires y >= 2
    ensures y * q >= 2 * q
  {
    NonNegative(y - 2, q);
    assert y * q == (y - 2) * q + 2 * q;
  }

  lemma DivFacts(x: nat, y: nat, q: nat, r: nat)
    requires y != 0 && q == x / y && r == x % y
    ensures x == y * q + r && r < y && q >= 0
  {
  }

  lemma QuotientSmall(x: nat, y: nat)
    requires y != 0
    ensures x / y <= x && x % y < y
  {
    var q, r := x / y, x % y;
    DivFacts(x, y, q, r);
    AtLeast(y, q);
  }

  lemma HalfAtMost(a: nat, b: nat)
    requires b >= 2
    ensures 2 * (a / b) <= a
  {
    var q, r := a / b, a % b;
    DivFacts(a, b, q, r);
    AtLeastTwice(b, q);
  }

  lemma MulBelow(x: nat, m: nat, y: nat)
    requires x <= m
    ensures x * y <= m * y
  {
    NonNegative(m - x, y);
    assert m * y == x * y + (m - x) * y;
  }

  lemma XorSelf(x: u32)
    ensures Xor(x, x) == 0
  {
    var v := x as bv32;
    assert v ^ v == 0;
  }

  /** What a division leaves: quotient and remainder in eax and edx, or a fault. */
  ghost predicate Divided(op: Op, fr: nat, code: Code, s: State, len: nat)
    requires fr < 8
  {
    var t, x, y := Step(code, {}, Step(code, {}, At(s))), s.regs[EAX], s.regs[fr];
    if Defined(op, x, y) then
      && t.At? && t.s.ip == s.ip + len && t.s.regs[ResultReg(op, EAX)] == Computed(op, x, y, false)
      && forall i :: 0 <= i < 8 && i != EAX && i != EDX ==> t.s.regs[i] == s.regs[i]
    else t.Stuck?
  }

  lemma ClearsEdx(code: Code, s: State) returns (u: State)
    requires ByteAt(code, s.ip) == 0x31 && ByteAt(code, s.ip + 1) == 0xD2
    ensures Step(code, {}, At(s)) == At(u) && u.ip == s.ip + 2 && u.regs == s.regs[EDX := 0]
  {
    hide WordAt, ByteAt, Parity, Xor, Decode;
    DecodeAluReg(code, s.ip, 6, EDX, EDX);
    XorSelf(s.regs[EDX]);
    u := Step(code, {}, At(s)).s;
  }

  lemma UnsignedDoes(op: Op, fr: nat, code: Code, s: State)
    requires (op.UDiv? || op.UMod?) && fr < 8 && fr != EAX && fr != EDX
    requires Holds(code, s.ip, [0x31, 0xD2, 0xF7, 0xF0 + fr])
    ensures Divided(op, fr, code, s, 4)
  {
    hide WordAt, ByteAt, Decode, Execute;
    HoldsAt(code, s.ip, [0x31, 0xD2, 0xF7, 0xF0 + fr]);
    var u := ClearsEdx(code, s);
    assert ByteAt(code, u.ip) == 0xF7 && ByteAt(code, u.ip + 1) == 0xF0 + fr;
    DecodeDiv(code, u.ip, fr);
    DivExecutes(fr, u.ip + 2, u);
  }

  lemma DecodeDiv(code: Code, i: nat, fr: nat)
    requires fr < 8 && ByteAt(code, i) == 0xF7
    ensures ByteAt(code, i + 1) == 0xF0 + fr ==> Decode(code, i) == Decoded(Div(fr), 2)
    ensures ByteAt(code, i + 1) == 0xF8 + fr ==> Decode(code, i) == Decoded(Idiv(fr), 2)
  {
    hide WordAt, ByteAt;
    PairByte(6, fr);
    PairByte(7, fr);
  }

  lemma DivExecutes(fr: nat, next: nat, u: State)
    requires fr < 8 && u.regs[EDX] == 0
    ensures Execute(Div(fr), next, u) ==
      if u.regs[fr] == 0 then Fault
      else Done(u.(ip := next, regs := u.regs[EAX := u.regs[EAX] / u.regs[fr]][EDX := u.regs[EAX] % u.regs[fr]]))
  {
    if u.regs[fr] != 0 {
      QuotientSmall(u.regs[EAX], u.regs[fr]);
    }
  }

  lemma IdivExecutes(fr: nat, next: nat, u: State)
    requires fr < 8 && Signed(u.regs[EDX]) * WRAP + u.regs[EAX] == Signed(u.regs[EAX])
    ensures var x, y := Signed(u.regs[EAX]), Signed(u.regs[fr]);
      Execute(Idiv(fr), next, u) ==
        if y == 0 || (x == -0x8000_0000 && y == -1) then Fault
        else Done(u.(ip := next, regs := u.regs[EAX := Quotient(x, y) % WRAP][EDX := (x - Quotient(x, y) * y) % WRAP]))
  {
    hide Quotient;
    var x, y := Signed(u.regs[EAX]), Signed(u.regs[fr]);
    if y != 0 {
      QuotientFits(x, y);
    }
  }

  /** A signed quotient only leaves 32 bits for the most negative number by -1. */
  lemma QuotientFits(x: int, y: int)
    requires InRange(x) && InRange(y) && y != 0
    ensures InRange(Quotient(x, y)) <==> !(x == -0x8000_0000 && y == -1)
  {
    var a, b := if x < 0 then -x else x, if y < 0 then -y else y;
    QuotientSmall(a, b);
    if b >= 2 {
      HalfAtMost(a, b);
    }
  }

  lemma ExtendsIntoEdx(code: Code, s: State) returns (u: State)
    requires ByteAt(code, s.ip) == 0x99
    ensures Step(code, {}, At(s)) == At(u) && u.ip == s.ip + 1 && u.regs == s.regs[EDX := u.regs[EDX]]
    ensures Signed(u.regs[EDX]) * WRAP + u.regs[EAX] == Signed(s.regs[EAX])
  {
    hide WordAt, ByteAt;
    assert Decode(code, s.ip) == Decoded(Cltd, 1);
    u := Step(code, {}, At(s)).s;
  }

  lemma IdivSteps(fr: nat, code: Code, u: State)
    requires fr < 8 && ByteAt(code, u.ip) == 0xF7 && ByteAt(code, u.ip + 1) == 0xF8 + fr
    requires Signed(u.regs[EDX]) * WRAP + u.regs[EAX] == Signed(u.regs[EAX])
    ensures var x, y := Signed(u.regs[EAX]), Signed(u.regs[fr]);
      Step(code, {}, At(u)) ==
        if y == 0 || (x == -0x8000_0000 && y == -1) then Stuck
        else At(u.(ip := u.ip + 2,
          regs := u.regs[EAX := Quotient(x, y) % WRAP][EDX := (x - Quotient(x, y) * y) % WRAP]))
  {
    hide WordAt, ByteAt, Quotient, Decode, Execute, Signed;
    DecodeDiv(code, u.ip, fr);
    IdivExecutes(fr, u.ip + 2, u);
  }

  lemma SignedDoes(op: Op, fr: nat, code: Code, s: State)
    requires (op.DivOp? || op.PDiv? || op.ModOp?) && fr < 8 && fr != EAX && fr != EDX
    requires Holds(code, s.ip, [0x99, 0xF7, 0xF8 + fr])
    ensures Divided(op, fr, code, s, 3)
  {
    hide WordAt, ByteAt, Quotient, Step;
    HoldsAt(code, s.ip, [0x99, 0xF7, 0xF8 + fr]);
    var u := ExtendsIntoEdx(code, s);
    assert ByteAt(code, u.ip) == 0xF7 && ByteAt(code, u.ip + 1) == 0xF8 + fr;
    IdivSteps(fr, code, u);
  }

  lemma ProductFits(x: u32, y: u32, p: nat)
    requires p == x * y
    ensures p / WRAP < WRAP && p == WRAP * (p / WRAP) + p % WRAP
  {
    MulBelow(x, WRAP - 1, y);
    DivideBound(p);
  }

  lemma DivideBound(p: nat)
    requires p <= (WRAP - 1) * (WRAP - 1)
    ensures p / WRAP < WRAP && p == WRAP * (p / WRAP) + p % WRAP
  {
  }

  /** The full product: low half in eax, high half in edx. */
  lemma FullProduct(fr: nat, code: Code, s: State, lo: u32, hi: u32)
    requires fr < 8 && Holds(code, s.ip, [0xF7, 0xE0 + fr])
    requires s.regs[EAX] as int * s.regs[fr] as int == WRAP * hi as int + lo as int
    ensures Step(code, {}, At(s)) == At(s.(ip := s.ip + 2, regs := s.regs[EAX := lo][EDX := hi]))
  {
    hide WordAt, ByteAt, Decode, Execute;
    HoldsAt(code, s.ip, [0xF7, 0xE0 + fr]);
    DecodeMul(code, s.ip, fr);
    MulExecutes(fr, s.ip + 2, s, s.regs[EAX] as int * s.regs[fr] as int, lo, hi);
  }

  lemma DecodeMul(code: Code, i: nat, fr: nat)
    requires fr < 8 && ByteAt(code, i) == 0xF7 && ByteAt(code, i + 1) == 0xE0 + fr
    ensures Decode(code, i) == Decoded(Mul(fr), 2)
  {
    hide WordAt, ByteAt;
    PairByte(4, fr);
  }

  lemma MulExecutes(fr: nat, next: nat, s: State, p: int, lo: u32, hi: u32)
    requires fr < 8 && p == s.regs[EAX] as int * s.regs[fr] as int && p == WRAP * hi as int + lo as int
    ensures Execute(Mul(fr), next, s) == Done(s.(ip := next, regs := s.regs[EAX := lo][EDX := hi]))
  {
    WordsOf(p, lo, hi);
  }

  lemma WordsOf(p: int, lo: u32, hi: u32)
    requires p == WRAP * hi as int + lo as int
    ensures p % WRAP == lo && p / WRAP % WRAP == hi
  {
  }

  // ----- the whole operation -----

  /** Instructions an operation takes. */
  function Count(op: Op): nat {
    if Divides(op) && !op.UMull? then 2 else 1
  }

  /** What a run over the code of one operation does to the machine. */
  ghost predicate Performs(op: Op, r: nat, y: Operand, code: Code, s: State)
    requires r < 8
  {
    var x, z := s.regs[r], OperandOf(y, s);
    var f := Run(code, {}, At(s), Count(op));
    if !Defined(op, x, z) then f.Stuck?
    else
      && f.At? && f.s.ip == s.ip + (if r < 8 && (y.InReg? ==> y.fr < 8) then |OpiCode(op, r, y)| else 0)
      && f.s.regs[ResultReg(op, r)] == Computed(op, x, z, s.flags.cf)
      && (forall i :: 0 <= i < 8 && i != r && !(Divides(op) && i == EDX) ==> f.s.regs[i] == s.regs[i])
      && (op.UMull? ==> WRAP * f.s.regs[EDX] as int + f.s.regs[EAX] as int == x as int * z as int)
      && (op.AddC1? ==> (f.s.flags.cf <==> x + z >= WRAP))
      && (op.SubC1? ==> (f.s.flags.cf <==> x < z))
      && (op.Relation? && op.tok >= 0x90 ==> (Cond(op.tok - 0x90, f.s.flags) <==> Related(op.tok, x, z)))
  }

  lemma SharedPerforms(op: Op, r: nat, y: Operand, code: Code, s: State)
    requires SharesEncoding(op) && Allocated(op, r, y) && Holds(code, s.ip, OpiCode(op, r, y))
    ensures Performs(op, r, y, code, s)
  {
    hide Step, OpiCode, Alu, Holds, Cond, Related, SubFlags, Meaning;
    OneStep(code, {}, At(s));
    FormsAgree(op, r, y, code, s);
    AluMeans(op, s.regs[r], OperandOf(y, s), s.flags);
    if op.Relation? {
      FlagsRelate(op.tok, s.regs[r], OperandOf(y, s));
    }
  }

  lemma DivisionCarry(op: Op, x: u32, y: u32, c: bool)
    requires Divides(op) && Defined(op, x, y)
    ensures Computed(op, x, y, c) == Computed(op, x, y, false)
  {
    hide Quotient;
  }

  lemma DivisionPerforms(op: Op, r: nat, y: Operand, code: Code, s: State)
    requires Divides(op) && !op.UMull? && Allocated(op, r, y) && Holds(code, s.ip, OpiCode(op, r, y))
    ensures Performs(op, r, y, code, s)
  {
    hide Step, Holds, Computed, Defined;
    TwoSteps(code, {}, At(s));
    if Defined(op, s.regs[EAX], s.regs[y.fr]) {
      DivisionCarry(op, s.regs[EAX], s.regs[y.fr], s.flags.cf);
    }
    if op.UDiv? || op.UMod? {
      UnsignedDoes(op, y.fr, code, s);
    } else {
      SignedDoes(op, y.fr, code, s);
    }
  }

  /**
    For all register contents: the code of every operation computes the value the operation names, or faults exactly
    when it has none.
   */
  lemma OpiPerforms(op: Op, r: nat, y: Operand, code: Code, s: State)
    requires Allocated(op, r, y) && Holds(code, s.ip, OpiCode(op, r, y))
    ensures Performs(op, r, y, code, s)
  {
    hide Step, Holds, Meaning;
    OneStep(code, {}, At(s));
    if SharesEncoding(op) {
      SharedPerforms(op, r, y, code, s);
    } else if op.MulOp? {
      MulDoes(r, y.fr, code, s);
      MulMeans(s.regs[r], s.regs[y.fr], s.flags.cf);
    } else if IsShiftOp(op) {
      ShiftDoes(op, r, y, code, s);
      ShiftCarry(op, s.regs[r], OperandOf(y, s), s.flags.cf);
    } else if op.UMull? {
      ProductParts(s.regs[r], s.regs[y.fr]);
      FullProduct(y.fr, code, s, s.regs[r] * s.regs[y.fr] % WRAP, s.regs[r] * s.regs[y.fr] / WRAP);
    } else {
      DivisionPerforms(op, r, y, code, s);
    }
  }

  lemma MulMeans(x: u32, y: u32, c: bool)
    ensures Meaning(MulOp, x, y, c) == (x * y) % WRAP
  {
  }

  lemma ShiftCarry(op: Op, x: u32, y: u32, c: bool)
    requires IsShiftOp(op)
    ensures Meaning(op, x, y, c) == Meaning(op, x, y, false)
  {
    hide Pow2, Floor;
  }

  lemma ProductParts(x: u32, y: u32)
    ensures 0 <= x * y / WRAP < WRAP && x * y == WRAP * (x * y / WRAP) + x * y % WRAP
  {
    NonNegative(x, y);
    ProductFits(x, y, x * y);
  }

  // ----- two halves of a 64-bit operation -----

  const WRAP64 := 0x1_0000_0000_0000_0000

  function Wide(hi: u32, lo: u32): nat {
    WRAP * hi as int + lo as int
  }

  lemma WideSum(xh: u32, xl: u32, yh: u32, yl: u32, hi: u32, lo: u32)
    requires lo == (xl + yl) % WRAP && hi == (xh + yh + (if xl + yl >= WRAP then 1 else 0)) % WRAP
    ensures Wide(hi, lo) == (Wide(xh, xl) + Wide(yh, yl)) % WRAP64
  {
    var k := if xl + yl >= WRAP then 1 else 0;
    assert xl as int + yl as int == WRAP * k + lo;
    var h := xh as int + yh as int + k;
    var j := h / WRAP;
    assert h == WRAP * j + hi;
    WrapWide(Wide(xh, xl) + Wide(yh, yl), j, WRAP * hi as int + lo as int);
  }

  lemma WideDifference(xh: u32, xl: u32, yh: u32, yl: u32, hi: u32, lo: u32)
    requires lo == (xl - yl) % WRAP && hi == (xh - yh - (if xl < yl then 1 else 0)) % WRAP
    ensures Wide(hi, lo) == (Wide(xh, xl) - Wide(yh, yl)) % WRAP64
  {
    var k := if xl < yl then 1 else 0;
    assert xl as int - yl as int == lo - WRAP * k;
    var h := xh as int - yh as int - k;
    var j := h / WRAP;
    assert h == WRAP * j + hi;
    WrapWide(Wide(xh, xl) - Wide(yh, yl), j, WRAP * hi as int + lo as int);
  }

  lemma WrapWide(n: int, j: int, r: int)
    requires n == WRAP64 * j + r && 0 <= r < WRAP64
    ensures n % WRAP64 == r
  {
  }

  /** The two halves stand one after the other and do not disturb each other's operands. */
  predicate PairAt(first: Op, second: Op, r: nat, q: nat, y: Operand, z: Operand, code: Code, i: nat) {
    && Allocated(first, r, y) && Allocated(second, q, z) && q != r && z != InReg(r)
    && Holds(code, i, OpiCode(first, r, y)) && Holds(code, i + |OpiCode(first, r, y)|, OpiCode(second, q, z))
  }

  lemma HalfRuns(op: Op, r: nat, y: Operand, code: Code, s: State) returns (t: State)
    requires SharesEncoding(op) && Allocated(op, r, y) && Holds(code, s.ip, OpiCode(op, r, y))
    ensures Run(code, {}, At(s), 1) == At(t) && Step(code, {}, At(s)) == At(t)
    ensures Performs(op, r, y, code, s) && t.ip == s.ip + |OpiCode(op, r, y)|
    ensures forall i :: 0 <= i < 8 && i != r ==> t.regs[i] == s.regs[i]
  {
    hide Step, Holds, Computed, OpiCode;
    OneStep(code, {}, At(s));
    OpiPerforms(op, r, y, code, s);
    t := Run(code, {}, At(s), 1).s;
  }

  lemma PairRuns(first: Op, second: Op, r: nat, q: nat, y: Operand, z: Operand, code: Code, s: State)
    returns (t: State, u: State)
    requires SharesEncoding(first) && SharesEncoding(second) && PairAt(first, second, r, q, y, z, code, s.ip)
    ensures Run(code, {}, At(s), 1) == At(t) && Run(code, {}, At(s), 2) == At(u) && Run(code, {}, At(t), 1) == At(u)
    ensures Performs(first, r, y, code, s) && Performs(second, q, z, code, t)
    ensures t.ip == s.ip + |OpiCode(first, r, y)| && t.regs[q] == s.regs[q] && OperandOf(z, t) == OperandOf(z, s)
    ensures u.regs[r] == t.regs[r]
  {
    hide Step, Holds, Performs, Run, OpiCode;
    t := HalfRuns(first, r, y, code, s);
    u := HalfRuns(second, q, z, code, t);
    TwoSteps(code, {}, At(s));
  }

  lemma LowerHalf(op: Op, r: nat, y: Operand, code: Code, s: State, t: State)
    requires (op.Add? || op.AddC1? || op.SubC1?) && Allocated(op, r, y)
    requires Run(code, {}, At(s), 1) == At(t) && Performs(op, r, y, code, s)
    ensures op.Add? || op.AddC1? ==> t.regs[r] == (s.regs[r] + OperandOf(y, s)) % WRAP
    ensures op.SubC1? ==> t.regs[r] == (s.regs[r] - OperandOf(y, s)) % WRAP
    ensures op.AddC1? ==> (t.flags.cf <==> s.regs[r] + OperandOf(y, s) >= WRAP)
    ensures op.SubC1? ==> (t.flags.cf <==> s.regs[r] < OperandOf(y, s))
  {
    hide Run, OpiCode, OperandOf;
  }

  lemma UpperHalf(op: Op, q: nat, z: Operand, code: Code, t: State, u: State, xh: u32, yh: u32)
    requires (op.AddC2? || op.SubC2?) && Allocated(op, q, z)
    requires Run(code, {}, At(t), 1) == At(u) && Performs(op, q, z, code, t) && t.regs[q] == xh && OperandOf(z, t) == yh
    ensures op.AddC2? ==> u.regs[q] == (xh + yh + (if t.flags.cf then 1 else 0)) % WRAP
    ensures op.SubC2? ==> u.regs[q] == (xh - yh - (if t.flags.cf then 1 else 0)) % WRAP
  {
    hide Run, OpiCode, OperandOf;
  }

  /** One half of a pair at `s`, which leads to `t`. */
  predicate Half(op: Op, r: nat, y: Operand, code: Code, s: State, t: State) {
    SharesEncoding(op) && Allocated(op, r, y) && Holds(code, s.ip, OpiCode(op, r, y)) &&
      Run(code, {}, At(s), 1) == At(t)
  }

  /** The code between the halves may do anything that keeps the carry and the lower result. */
  predicate CarriesOver(r: nat, t: State, t': State) {
    r < 8 && t'.flags.cf == t.flags.cf && t'.regs[r] == t.regs[r]
  }

  /**
    ADDC1 and ADDC2, wherever they stand, are the 64-bit sum, because the first half never loses its carry to an inc.
   */
  lemma AddApart(r: nat, q: nat, y: Operand, z: Operand, code: Code, s: State, t: State, t': State, u: State)
    requires q != r && Half(AddC1, r, y, code, s, t) && CarriesOver(r, t, t') && Half(AddC2, q, z, code, t', u)
    ensures Wide(u.regs[q], u.regs[r]) == (Wide(t'.regs[q], s.regs[r]) +
      Wide(OperandOf(z, t'), OperandOf(y, s))) % WRAP64
  {
    hide Run, OpiCode, Holds, Wide, Performs, OperandOf;
    HalvesPerform(AddC1, AddC2, r, q, y, z, code, s, t, t', u);
    LowerHalf(AddC1, r, y, code, s, t);
    UpperHalf(AddC2, q, z, code, t', u, t'.regs[q], OperandOf(z, t'));
    WideSum(t'.regs[q], s.regs[r], OperandOf(z, t'), OperandOf(y, s), u.regs[q], u.regs[r]);
  }

  /** SUBC1 and SUBC2, wherever they stand, are the 64-bit difference. */
  lemma SubApart(r: nat, q: nat, y: Operand, z: Operand, code: Code, s: State, t: State, t': State, u: State)
    requires q != r && Half(SubC1, r, y, code, s, t) && CarriesOver(r, t, t') && Half(SubC2, q, z, code, t', u)
    ensures Wide(u.regs[q], u.regs[r]) ==
      (Wide(t'.regs[q], s.regs[r]) - Wide(OperandOf(z, t'), OperandOf(y, s))) % WRAP64
  {
    hide Run, OpiCode, Holds, Wide, Performs, OperandOf;
    HalvesPerform(SubC1, SubC2, r, q, y, z, code, s, t, t', u);
    LowerHalf(SubC1, r, y, code, s, t);
    UpperHalf(SubC2, q, z, code, t', u, t'.regs[q], OperandOf(z, t'));
    WideDifference(t'.regs[q], s.regs[r], OperandOf(z, t'), OperandOf(y, s), u.regs[q], u.regs[r]);
  }

  lemma HalvesPerform(first: Op, second: Op, r: nat, q: nat, y: Operand, z: Operand, code: Code, s: State, t: State,
                      t': State, u: State)
    requires q != r && Half(first, r, y, code, s, t) && CarriesOver(r, t, t') && Half(second, q, z, code, t', u)
    ensures Performs(first, r, y, code, s) && Performs(second, q, z, code, t') && u.regs[r] == t.regs[r]
  {
    hide Run, OpiCode, Holds, Performs, Step;
    var _ := HalfRuns(first, r, y, code, s);
    var _ := HalfRuns(second, q, z, code, t');
  }

  /** One right after the other, the two halves do it in two steps. */
  lemma AddPair(r: nat, q: nat, y: Operand, z: Operand, code: Code, s: State)
    requires PairAt(AddC1, AddC2, r, q, y, z, code, s.ip)
    ensures var f := Run(code, {}, At(s), 2);
      f.At? && Wide(f.s.regs[q], f.s.regs[r]) ==
        (Wide(s.regs[q], s.regs[r]) + Wide(OperandOf(z, s), OperandOf(y, s))) % WRAP64
  {
    hide Run, OpiCode, Holds, Wide, Performs, OperandOf;
    var t, u := PairRuns(AddC1, AddC2, r, q, y, z, code, s);
    AddApart(r, q, y, z, code, s, t, t, u);
  }

  lemma SubPair(r: nat, q: nat, y: Operand, z: Operand, code: Code, s: State)
    requires PairAt(SubC1, SubC2, r, q, y, z, code, s.ip)
    ensures var f := Run(code, {}, At(s), 2);
      f.At? && Wide(f.s.regs[q], f.s.regs[r]) ==
        (Wide(s.regs[q], s.regs[r]) - Wide(OperandOf(z, s), OperandOf(y, s))) % WRAP64
  {
    hide Run, OpiCode, Holds, Wide, Performs, OperandOf;
    var t, u := PairRuns(SubC1, SubC2, r, q, y, z, code, s);
    SubApart(r, q, y, z, code, s, t, t, u);
  }

  /**
    An inc in place of the first half would only do when the carry left over from before happens to be the right one.
   */
  lemma IncPairIff(r: nat, q: nat, z: Operand, code: Code, s: State)
    requires PairAt(Add, AddC2, r, q, Const(1), z, code, s.ip)
    ensures var f := Run(code, {}, At(s), 2);
      f.At? && (Wide(f.s.regs[q], f.s.regs[r]) == (Wide(s.regs[q], s.regs[r]) + Wide(OperandOf(z, s), 1)) % WRAP64
                <==> (s.flags.cf <==> s.regs[r] == 0xFFFF_FFFF))
  {
    hide Run, Holds, OpiCode, Step, Wide, Performs, OperandOf;
    var t, u := PairRuns(Add, AddC2, r, q, Const(1), z, code, s);
    IncKeepsCarry(r, code, s);
    OneStep(code, {}, At(s));
    LowerHalf(Add, r, Const(1), code, s, t);
    assert OperandOf(Const(1), s) == 1 by {
      ConstOperand(1, s);
    }
    UpperHalf(AddC2, q, z, code, t, u, s.regs[q], OperandOf(z, s));
    WideSumIff(s.regs[q], s.regs[r], OperandOf(z, s), 1, s.flags.cf, u.regs[q], u.regs[r]);
  }

  lemma ConstOperand(c: u32, s: State)
    ensures OperandOf(Const(c), s) == c
  {
  }

  lemma WideSumIff(xh: u32, xl: u32, yh: u32, yl: u32, c: bool, hi: u32, lo: u32)
    requires hi == (xh + yh + (if c then 1 else 0)) % WRAP && lo == (xl + yl) % WRAP
    ensures Wide(hi, lo) == (Wide(xh, xl) + Wide(yh, yl)) % WRAP64 <==> (c <==> xl + yl >= WRAP)
  {
    hide Wide;
    var h, k := xh as int + yh as int, if xl + yl >= WRAP then 1 else 0;
    WideSum(xh, xl, yh, yl, (h + k) % WRAP, lo);
    NextDiffers(h);
    WideDiffers(hi, (h + k) % WRAP, lo);
  }

  lemma NextDiffers(h: int)
    ensures h % WRAP != (h + 1) % WRAP
  {
  }

  lemma WideDiffers(a: u32, b: u32, lo: u32)
    ensures Wide(a, lo) == Wide(b, lo) <==> a == b
  {
  }

  lemma IncKeepsCarry(r: nat, code: Code, s: State)
    requires r < 8 && Holds(code, s.ip, OpiCode(Add, r, Const(1)))
    ensures Step(code, {}, At(s)).At? && Step(code, {}, At(s)).s.flags.cf == s.flags.cf
  {
    hide ByteAt, WordAt, Parity;
    HoldsAt(code, s.ip, OpiCode(Add, r, Const(1)));
    assert Decode(code, s.ip) == Decoded(Inc(r), 1);
  }

  // ----- the method -----

  lemma ThreeBytes(a: byte, b: byte, c: byte)
    requires c != 0
    ensures Opcode(a + 0x100 * b + 0x1_0000 * c) == [a, b, c]
  {
    TwoBytes(b, c);
    var n := a + 0x100 * b + 0x1_0000 * c;
    assert n % 0x100 == a && n / 0x100 == b + 0x100 * c;
  }

  /** `gen_opi`, once register allocation has put the operands where they have to be. */
  method GenOpi(text: Section, op: Op, r: nat, y: Operand)
    requires Allocated(op, r, y)
    modifies text`code
    ensures text.code == if text.nocode then old(text.code) else old(text.code) + OpiCode(op, r, y)
    ensures !text.nocode ==> forall s: State :: s.ip == |old(text.code)| ==> Performs(op, r, y, text.code, s)
  {
    hide Opcode, Le32, Performs, OpiCode, Holds;
    ghost var c0 := text.code;
    if SharesEncoding(op) {
      GenShared(text, op, r, y);
    } else if op.MulOp? {
      GenMul(text, r, y.fr);
    } else if IsShiftOp(op) {
      GenShift(text, op, r, y);
    } else {
      GenDivision(text, op, y.fr);
    }
    forall s: State | s.ip == |c0| && !text.nocode
      ensures Performs(op, r, y, text.code, s)
    {
      EndHolds(c0, OpiCode(op, r, y));
      OpiPerforms(op, r, y, text.code, s);
    }
  }

  method GenMul(text: Section, r: nat, fr: nat)
    requires r < 8 && fr < 8
    modifies text`code
    ensures text.code == if text.nocode then old(text.code) else old(text.code) + OpiCode(MulOp, r, InReg(fr))
  {
    hide Opcode;
    TwoBytes(0x0F, 0xAF);
    text.O(0xAF0F);
    OneByte(0xC0 + fr + r * 8);
    text.O(0xC0 + fr + r * 8);
  }

  method GenShort(text: Section, op: Op, r: nat, c: u32)
    requires r < 8 && SharesEncoding(op)
    modifies text`code
    ensures text.code == if text.nocode then old(text.code) else old(text.code) + ShortForm(op, r, c)
  {
    hide Opcode;
    var opc := Opc(op);
    if c == 1 && opc == 0 && !op.AddC1? {
      OneByte(0x40 + r);
      text.O(0x40 + r);
    } else if c == 1 && opc == 5 && !op.SubC1? {
      OneByte(0x48 + r);
      text.O(0x48 + r);
    } else {
      OneByte(0x83);
      text.O(0x83);
      OneByte(0xC0 + opc * 8 + r);
      text.O(0xC0 + opc * 8 + r);
      text.G(c % 0x100);
    }
  }

  method GenShared(text: Section, op: Op, r: nat, y: Operand)
    requires Allocated(op, r, y) && SharesEncoding(op)
    modifies text`code
    ensures text.code == if text.nocode then old(text.code) else old(text.code) + OpiCode(op, r, y)
  {
    hide Opcode, Le32, ShortForm;
    var opc := Opc(op);
    match y
    case Const(c) =>
      if Small(c) {
        GenShort(text, op, r, c);
      } else {
        OneByte(0x81);
        text.O(0x81);
        OneByte(0xC0 + opc * 8 + r);
        var _ := text.Oad(0xC0 + opc * 8 + r, c);
      }
    case InReg(fr) =>
      OneByte(opc * 8 + 1);
      text.O(opc * 8 + 1);
      OneByte(0xC0 + r + fr * 8);
      text.O(0xC0 + r + fr * 8);
  }

  method GenShift(text: Section, op: Op, r: nat, y: Operand)
    requires Allocated(op, r, y) && IsShiftOp(op)
    modifies text`code
    ensures text.code == if text.nocode then old(text.code) else old(text.code) + OpiCode(op, r, y)
  {
    hide Opcode, Le32;
    var opc := 0xC0 + 8 * Opc(op);
    OneByte(opc + r);
    match y
    case Const(c) =>
      OneByte(0xC1);
      text.O(0xC1);
      text.O(opc + r);
      text.G(c % 32);
    case InReg(_) =>
      OneByte(0xD3);
      text.O(0xD3);
      text.O(opc + r);
  }

  method GenDivision(text: Section, op: Op, fr: nat)
    requires Allocated(op, EAX, InReg(fr)) && Divides(op)
    modifies text`code
    ensures text.code == if text.nocode then old(text.code) else old(text.code) + OpiCode(op, EAX, InReg(fr))
  {
    hide Opcode, Le32;
    if op.UMull? {
      OneByte(0xF7);
      text.O(0xF7);
      OneByte(0xE0 + fr);
      text.O(0xE0 + fr);
    } else if op.UDiv? || op.UMod? {
      ThreeBytes(0x31, 0xD2, 0xF7);
      text.O(0xF7D231);
      OneByte(0xF0 + fr);
      text.O(0xF0 + fr);
    } else {
      TwoBytes(0x99, 0xF7);
      text.O(0xF799);
      OneByte(0xF8 + fr);
      text.O(0xF8 + fr);
    }
  }
}
