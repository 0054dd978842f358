/**
  The part of the i386 instruction set that the integer back end emits, after the Intel Software Developer's Manual,
  volume 2. Memory operands, privileged state and timing are not part of it.
 */
module X86 {
  import opened Bytes
  import opened JumpList

  datatype Flags = Flags(cf: bool, pf: bool, zf: bool, sf: bool, of: bool)

  type Regs = r: seq<u32> | |r| == 8 witness [0, 0, 0, 0, 0, 0, 0, 0]

  const EAX := 0
  const ECX := 1
  const EDX := 2

  datatype State = State(ip: nat, regs: Regs, flags: Flags)

  datatype Instr =
    | MovImm(r: nat, imm: u32)
    | Jmp(disp: u32)
    | Jcc(cc: nat, disp: u32)
    | SetCc(cc: nat, r: nat)
    | AluReg(op: nat, dst: nat, src: nat)
    | AluImm(op: nat, dst: nat, imm: u32)
    | Inc(r: nat)
    | Dec(r: nat)
    | Imul(dst: nat, src: nat)
    | ShiftImm(op: nat, r: nat, n: nat)
    | ShiftCl(op: nat, r: nat)
    | Mul(r: nat)
    | Div(r: nat)
    | Idiv(r: nat)
    | Cltd
    | Loop(kind: nat, disp: u32)
    | Bad

  datatype Decoded = Decoded(instr: Instr, len: nat)

  /** A byte extended to 32 bits with its sign. */
  function SignExtend(b: byte): u32 {
    if b >= 0x80 then b + 0xFFFF_FF00 else b
  }

  function ByteAt(c: Code, i: nat): byte {
    if i < |c| then c[i] else 0
  }

  function WordAt(c: Code, i: nat): u32 {
    if i + 4 <= |c| then Read32(c, i) else 0
  }

  /** A ModRM byte that names two registers. */
  predicate IsPair(b: byte) {
    b >= 0xC0
  }

  function Rm(b: byte): nat {
    b % 8
  }

  function Reg(b: byte): nat {
    b / 8 % 8
  }

  function Decode(c: Code, i: nat): Decoded {
    var b, m := ByteAt(c, i), ByteAt(c, i + 1);
    if 0xB8 <= b <= 0xBF then Decoded(MovImm(b - 0xB8, WordAt(c, i + 1)), 5)
    else if b == 0xE9 then Decoded(Jmp(WordAt(c, i + 1)), 5)
    else if b == 0xEB then Decoded(Jmp(SignExtend(m)), 2)
    else if 0x70 <= b <= 0x7F then Decoded(Jcc(b - 0x70, SignExtend(m)), 2)
    else if b == 0x0F then
      if 0x80 <= m <= 0x8F then Decoded(Jcc(m - 0x80, WordAt(c, i + 2)), 6)
      else if 0x90 <= m <= 0x9F && IsPair(ByteAt(c, i + 2)) then Decoded(SetCc(m - 0x90, Rm(ByteAt(c, i + 2))), 3)
      else if m == 0xAF && IsPair(ByteAt(c, i + 2)) then Decoded(Imul(Reg(ByteAt(c, i + 2)), Rm(ByteAt(c, i + 2))), 3)
      else Decoded(Bad, 0)
    else if b < 0x40 && b % 8 == 1 && IsPair(m) then Decoded(AluReg(b / 8, Rm(m), Reg(m)), 2)
    else if b == 0x83 && IsPair(m) then Decoded(AluImm(Reg(m), Rm(m), SignExtend(ByteAt(c, i + 2))), 3)
    else if b == 0x81 && IsPair(m) then Decoded(AluImm(Reg(m), Rm(m), WordAt(c, i + 2)), 6)
    else if 0x40 <= b <= 0x47 then Decoded(Inc(b - 0x40), 1)
    else if 0x48 <= b <= 0x4F then Decoded(Dec(b - 0x48), 1)
    else if b == 0xC1 && IsPair(m) && IsShift(Reg(m)) then Decoded(ShiftImm(Reg(m), Rm(m), ByteAt(c, i + 2)), 3)
    else if b == 0xD3 && IsPair(m) && IsShift(Reg(m)) then Decoded(ShiftCl(Reg(m), Rm(m)), 2)
    else if b == 0xF7 && IsPair(m) && Reg(m) == 4 then Decoded(Mul(Rm(m)), 2)
    else if b == 0xF7 && IsPair(m) && Reg(m) == 6 then Decoded(Div(Rm(m)), 2)
    else if b == 0xF7 && IsPair(m) && Reg(m) == 7 then Decoded(Idiv(Rm(m)), 2)
    else if b == 0x99 then Decoded(Cltd, 1)
    else if 0xE0 <= b <= 0xE3 then Decoded(Loop(b - 0xE0, SignExtend(m)), 2)
    else Decoded(Bad, 0)
  }

  predicate IsShift(op: nat) {
    op == 4 || op == 5 || op == 7
  }

  // ----- bytes in place -----

  /** `c` carries the bytes `w` at `i`. */
  predicate Holds(c: Code, i: nat, w: seq<byte>) {
    i + |w| <= |c| && c[i..i + |w|] == w
  }

  lemma HoldsAt(c: Code, i: nat, w: seq<byte>)
    requires Holds(c, i, w)
    ensures forall k :: 0 <= k < |w| ==> ByteAt(c, i + k) == w[k]
    ensures |w| > 0 ==> ByteAt(c, i) == w[0]
    ensures |w| > 1 ==> ByteAt(c, i + 1) == w[1]
    ensures |w| > 2 ==> ByteAt(c, i + 2) == w[2]
    ensures |w| > 3 ==> ByteAt(c, i + 3) == w[3]
  {
    forall k | 0 <= k < |w|
      ensures ByteAt(c, i + k) == w[k]
    {
      assert c[i..i + |w|][k] == c[i + k];
    }
    if |w| > 0 { assert ByteAt(c, i + 0) == w[0]; }
  }

  lemma EndHolds(c: Code, w: seq<byte>)
    ensures Holds(c + w, |c|, w)
  {
  }

  /** `x == (char)x` */
  predicate FitsByte(v: int) {
    -0x80 <= v < 0x80
  }

  lemma ByteDisp(v: int)
    requires FitsByte(v)
    ensures SignExtend(v % 0x100) == v % WRAP
  {
  }

  lemma WordIs(c: Code, i: nat, n: u32)
    requires i + 4 <= |c| && c[i..i + 4] == Le32(n)
    ensures WordAt(c, i) == n
  {
    Le32RoundTrip(c, i, n);
  }

  /** A word right behind the bytes `head`. */
  lemma WordBehind(c: Code, i: nat, head: seq<byte>, n: u32)
    requires Holds(c, i, head + Le32(n))
    ensures WordAt(c, i + |head|) == n
  {
    hide Le32;
    var w := head + Le32(n);
    assert c[i + |head|..i + |head| + 4] == c[i..i + |w|][|head|..] == Le32(n);
    Le32RoundTrip(c, i + |head|, n);
  }

  // ----- arithmetic -----

  function Signed(x: u32): int {
    if x >= 0x8000_0000 then x - WRAP else x
  }

  function Carry(f: Flags): nat {
    if f.cf then 1 else 0
  }

  /** Even number of ones in the low byte. */
  function Parity(x: u32): bool {
    (x % 2 + x / 2 % 2 + x / 4 % 2 + x / 8 % 2 + x / 16 % 2 + x / 32 % 2 + x / 64 % 2 + x / 128 % 2) % 2 == 0
  }

  function ResultFlags(r: u32, cf: bool, of: bool): Flags {
    Flags(cf, Parity(r), r == 0, r >= 0x8000_0000, of)
  }

  function Sum(x: u32, y: u32, carry: nat): u32 {
    (x + y + carry) % WRAP
  }

  function Difference(x: u32, y: u32, borrow: nat): u32 {
    (x - y - borrow) % WRAP
  }

  predicate InRange(n: int) {
    -0x8000_0000 <= n < 0x8000_0000
  }

  function AddFlags(x: u32, y: u32, carry: nat): Flags {
    ResultFlags(Sum(x, y, carry), x + y + carry >= WRAP, !InRange(Signed(x) + Signed(y) + carry))
  }

  function SubFlags(x: u32, y: u32, borrow: nat): Flags {
    ResultFlags(Difference(x, y, borrow), x < y + borrow, !InRange(Signed(x) - Signed(y) - borrow))
  }

  function And(x: u32, y: u32): u32 {
    ((x as bv32) & (y as bv32)) as int
  }

  function Or(x: u32, y: u32): u32 {
    ((x as bv32) | (y as bv32)) as int
  }

  function Xor(x: u32, y: u32): u32 {
    ((x as bv32) ^ (y as bv32)) as int
  }

  /** Result and flags of the eight operations that share one encoding. */
  function Alu(op: nat, x: u32, y: u32, f: Flags): (u32, Flags) {
    match op
    case 0 => (Sum(x, y, 0), AddFlags(x, y, 0))
    case 1 => (Or(x, y), ResultFlags(Or(x, y), false, false))
    case 2 => (Sum(x, y, Carry(f)), AddFlags(x, y, Carry(f)))
    case 3 => (Difference(x, y, Carry(f)), SubFlags(x, y, Carry(f)))
    case 4 => (And(x, y), ResultFlags(And(x, y), false, false))
    case 5 => (Difference(x, y, 0), SubFlags(x, y, 0))
    case 6 => (Xor(x, y), ResultFlags(Xor(x, y), false, false))
    case _ => (x, SubFlags(x, y, 0))
  }

  function Pow2(n: nat): (p: nat)
    ensures p > 0
  {
    if n == 0 then 1 else 2 * Pow2(n - 1)
  }

  /** Division that rounds down, for the arithmetic right shift. */
  function Floor(x: int, d: nat): int
    requires d > 0
  {
    x / d
  }

  /** Shifts by 0 to 31: 4 left, 5 right with zeros, 7 right with the sign. */
  function Shift(op: nat, x: u32, n: nat): u32 {
    if op == 4 then x * Pow2(n) % WRAP
    else if op == 5 then x / Pow2(n) % WRAP
    else Floor(Signed(x), Pow2(n)) % WRAP
  }

  /** Division that rounds towards zero. */
  function Quotient(x: int, y: int): int
    requires y != 0
  {
    var q := (if x < 0 then -x else x) / (if y < 0 then -y else y);
    if (x < 0) != (y < 0) then -q else q
  }

  /** The condition codes of jcc and setcc. */
  function Cond(cc: nat, f: Flags): bool {
    match cc
    case 0 => f.of
    case 1 => !f.of
    case 2 => f.cf
    case 3 => !f.cf
    case 4 => f.zf
    case 5 => !f.zf
    case 6 => f.cf || f.zf
    case 7 => !f.cf && !f.zf
    case 8 => f.sf
    case 9 => !f.sf
    case 10 => f.pf
    case 11 => !f.pf
    case 12 => f.sf != f.of
    case 13 => f.sf == f.of
    case 14 => f.zf || f.sf != f.of
    case _ => !f.zf && f.sf == f.of
  }

  function Low(x: u32, b: bool): u32 {
    x - x % 256 + if b then 1 else 0
  }

  datatype Outcome = Done(s: State) | Fault

  function Put(s: State, r: nat, v: u32): State {
    if r < 8 then s.(regs := s.regs[r := v]) else s
  }

  function Get(s: State, r: nat): u32 {
    if r < 8 then s.regs[r] else 0
  }

  /**
    loopne, loope and loop go on while ecx, counted down, is not 0 and zf is as they want it; jecxz jumps when it is 0.
   */
  predicate LoopGoes(kind: nat, s: State) {
    if kind == 3 then s.regs[ECX] == 0
    else Difference(s.regs[ECX], 1, 0) != 0 && (kind == 0 ==> !s.flags.zf) && (kind == 1 ==> s.flags.zf)
  }

  /**
    Effect of one instruction whose successor stands at `next`. Shifts and multiplications leave flags nobody reads.
   */
  function Execute(i: Instr, next: nat, s: State): Outcome {
    var t := s.(ip := next);
    match i
    case MovImm(r, imm) => Done(Put(t, r, imm))
    case Jmp(disp) => Done(t.(ip := (next + disp) % WRAP))
    case Jcc(cc, disp) => Done(if Cond(cc, s.flags) then t.(ip := (next + disp) % WRAP) else t)
    case SetCc(cc, r) => if r < 4 then Done(Put(t, r, Low(Get(s, r), Cond(cc, s.flags)))) else Fault
    case AluReg(op, dst, src) =>
      var a := Alu(op, Get(s, dst), Get(s, src), s.flags);
      Done(Put(t, dst, a.0).(flags := a.1))
    case AluImm(op, dst, imm) =>
      var a := Alu(op, Get(s, dst), imm, s.flags);
      Done(Put(t, dst, a.0).(flags := a.1))
    case Inc(r) => Done(Put(t, r, Sum(Get(s, r), 1, 0)).(flags := AddFlags(Get(s, r), 1, 0).(cf := s.flags.cf)))
    case Dec(r) => Done(Put(t, r, Difference(Get(s, r), 1, 0)).(flags := SubFlags(Get(s, r), 1, 0).(cf := s.flags.cf)))
    case Imul(dst, src) => Done(Put(t, dst, (Get(s, dst) * Get(s, src)) % WRAP))
    case ShiftImm(op, r, n) => Done(Put(t, r, Shift(op, Get(s, r), n % 32)))
    case ShiftCl(op, r) => Done(Put(t, r, Shift(op, Get(s, r), s.regs[ECX] % 32)))
    case Mul(r) =>
      var p := s.regs[EAX] * Get(s, r);
      Done(Put(Put(t, EAX, p % WRAP), EDX, p / WRAP % WRAP))
    case Div(r) =>
      var n, d := s.regs[EDX] * WRAP + s.regs[EAX], Get(s, r);
      if d == 0 || n / d >= WRAP then Fault else Done(Put(Put(t, EAX, n / d), EDX, n % d))
    case Idiv(r) =>
      var n, d := Signed(s.regs[EDX]) * WRAP + s.regs[EAX], Signed(Get(s, r));
      if d == 0 || !InRange(Quotient(n, d)) then Fault
      else Done(Put(Put(t, EAX, Quotient(n, d) % WRAP), EDX, (n - Quotient(n, d) * d) % WRAP))
    case Cltd => Done(Put(t, EDX, if s.regs[EAX] >= 0x8000_0000 then 0xFFFF_FFFF else 0))
    case Loop(kind, disp) =>
      var u := if kind == 3 then t else Put(t, ECX, Difference(s.regs[ECX], 1, 0));
      Done(if LoopGoes(kind, s) then u.(ip := (next + disp) % WRAP) else u)
    case Bad => Fault
  }
}
