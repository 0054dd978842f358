/** Targets of jumps and calls: short and long forms, displacements inside a section, and those left to the linker. */
module Branches {
  import opened Bytes
  import opened JumpList
  import opened X86
  import opened Lowering
  import opened CodeGen

  // ----- jumps inside the code being generated -----

  /** The bytes of a jump from `at` to `a`. */
  function JumpBytes(at: nat, a: int): seq<byte> {
    if FitsByte(a - at - 2) then [0xEB, (a - at - 2) % 0x100] else [0xE9] + Le32((a - at - 5) % WRAP)
  }

  lemma Lands(at: nat, len: nat, a: int)
    ensures (at + len + (a - at - len) % WRAP) % WRAP == a % WRAP
  {
    var d := a - at - len;
    assert d == WRAP * (d / WRAP) + d % WRAP;
    WholeTurns(a, d / WRAP);
  }

  lemma WholeTurns(a: int, k: int)
    ensures (a - WRAP * k) % WRAP == a % WRAP
  {
  }

  lemma ShortArrives(c: Code, a: int, s: State)
    requires Holds(c, s.ip, JumpBytes(s.ip, a)) && FitsByte(a - s.ip - 2)
    ensures Step(c, {}, At(s)) == At(s.(ip := a % WRAP))
  {
    hide Cond, Parity, ByteAt, WordAt, SignExtend;
    HoldsAt(c, s.ip, JumpBytes(s.ip, a));
    ByteDisp(a - s.ip - 2);
    Lands(s.ip, 2, a);
  }

  lemma LongArrives(c: Code, a: int, s: State)
    requires Holds(c, s.ip, JumpBytes(s.ip, a)) && !FitsByte(a - s.ip - 2)
    ensures Step(c, {}, At(s)) == At(s.(ip := a % WRAP))
  {
    hide Cond, Parity, ByteAt, WordAt, Le32, SignExtend;
    HoldsAt(c, s.ip, JumpBytes(s.ip, a));
    WordBehind(c, s.ip, [0xE9], (a - s.ip - 5) % WRAP);
    Lands(s.ip, 5, a);
  }

  /** Whichever form is chosen, the jump arrives at `a`. */
  lemma JumpArrives(c: Code, a: int, s: State)
    requires Holds(c, s.ip, JumpBytes(s.ip, a))
    ensures Step(c, {}, At(s)) == At(s.(ip := a % WRAP))
  {
    hide Step, Holds, JumpBytes;
    if FitsByte(a - s.ip - 2) {
      ShortArrives(c, a, s);
    } else {
      LongArrives(c, a, s);
    }
  }

  /** `gjmp_addr` */
  method GjmpAddr(text: Section, a: int)
    modifies text`code
    ensures text.code == if text.nocode then old(text.code) else old(text.code) + JumpBytes(|old(text.code)|, a)
    ensures !text.nocode ==> forall s: State :: s.ip == |old(text.code)| ==>
      Step(text.code, {}, At(s)) == At(s.(ip := a % WRAP))
  {
    hide Step, Le32, Opcode, Holds;
    ghost var c := text.code;
    var r := a - |text.code| - 2;
    if FitsByte(r) {
      text.G(0xEB);
      text.G(r % 0x100);
    } else {
      OneByte(0xE9);
      var _ := text.Oad(0xE9, (a - |text.code| - 5) % WRAP);
    }
    forall s: State | s.ip == |c| && !text.nocode
      ensures Step(text.code, {}, At(s)) == At(s.(ip := a % WRAP))
    {
      assert text.code == c + JumpBytes(|c|, a);
      EndHolds(c, JumpBytes(|c|, a));
      JumpArrives(text.code, a, s);
    }
  }

  // ----- branches in assembler text -----

  /**
    A branch with an 8-bit form, as the opcode table has it: `opcode` with the condition `test` still to be added.
    The table holds jmp (0xEB), the conditional jumps (0x70), and loopne, loope, loop and jecxz (0xE0 to 0xE3).
   */
  datatype Branch = Branch(opcode: u16, test: nat)

  predicate Known(b: Branch) {
    if b.opcode == 0x70 then b.test < 16 else b.test == 0 && (b.opcode == 0xEB || 0xE0 <= b.opcode <= 0xE3)
  }

  /**
    What is known of the target: an offset from a symbol, and where that symbol stands if it is in the same section.
   */
  datatype Target = Target(v: int, symbol: Option)
  datatype Option = Elsewhere | Here(value: int)

  datatype Encoding = Encoded(bytes: seq<byte>) | InvalidDisplacement

  /** An opcode goes out high byte first, a high byte of 0 not at all. */
  function OpcodeBytes(v: nat): seq<byte> {
    if v / 0x100 % 0x100 == 0 then [v % 0x100] else [v / 0x100 % 0x100, v % 0x100]
  }

  /** The distance of the short form: the opcode counts as two bytes from 0xFF on. */
  function ShortDistance(b: Branch, to: int, at: nat): int {
    to - at - 2 - if b.opcode >= 0xFF then 1 else 0
  }

  predicate Near(b: Branch, t: Target, at: nat) {
    t.symbol.Here? && FitsByte(ShortDistance(b, t.v + t.symbol.value, at))
  }

  /** The opcode of the long form; only jmp and the conditional jumps have one. */
  function LongOpcode(b: Branch): nat {
    if b.opcode == 0xEB then 0xE9 + b.test else b.opcode + 0x0F10 + b.test
  }

  /** The choice in `asm_opcode`, with the displacement of `gen_disp32` in the long form. */
  function BranchBytes(b: Branch, t: Target, at: nat): Encoding {
    if Near(b, t, at) then
      Encoded(OpcodeBytes(b.opcode + b.test) + [ShortDistance(b, t.v + t.symbol.value, at) % 0x100])
    else if b.opcode != 0xEB && b.opcode != 0x70 then InvalidDisplacement
    else Encoded(OpcodeBytes(LongOpcode(b)) + Le32(Displacement(t, at + |OpcodeBytes(LongOpcode(b))|)))
  }

  /**
    The field `gen_disp32` and `gen_addrpc32` put at `at`: final inside the section, an addend for the linker otherwise.
   */
  function Displacement(t: Target, at: nat): u32 {
    match t.symbol
    case Here(value) => (t.v + value - at - 4) % WRAP
    case Elsewhere => (t.v - 4) % WRAP
  }

  /** Relocation R_386_PC32 of the Intel386 psABI, chapter 4: S + A - P. */
  function Pc32(s: int, addend: u32, p: int): u32 {
    (s + addend - p) % WRAP
  }

  lemma TwoTurns(x: int, y: int)
    ensures (x + y % WRAP) % WRAP == (x + y) % WRAP
  {
    assert y == WRAP * (y / WRAP) + y % WRAP;
    WholeTurns(x + y, y / WRAP);
  }

  /**
    Wherever the section ends up, the direct displacement is what a relocation against the same symbol would have given.
   */
  lemma DirectIsRelocated(v: int, value: int, at: nat, base: int)
    ensures Displacement(Target(v, Here(value)), at) ==
      Pc32(base + value, Displacement(Target(v, Elsewhere), at), base + at)
  {
    TwoTurns(value - at, v - 4);
    assert base + value + Displacement(Target(v, Elsewhere), at) - (base + at) == value - at + (v - 4) % WRAP;
  }

  /** After relocation, a jump whose field stands at `p` reaches the symbol plus its offset. */
  lemma RelocatedLands(v: int, s: int, p: int)
    ensures (p + 4 + Pc32(s, Displacement(Target(v, Elsewhere), 0), p)) % WRAP == (s + v) % WRAP
  {
    TwoTurns(s - p, v - 4);
    TwoTurns(p + 4, s - p + v - 4);
  }

  // ----- what the branches do -----

  /** The branch is taken in state `s`. */
  predicate Goes(b: Branch, s: State) {
    b.opcode == 0xEB
    || (b.opcode == 0x70 && Cond(b.test, s.flags))
    || (0xE0 <= b.opcode <= 0xE3 && LoopGoes(b.opcode - 0xE0, s))
  }

  /** The loop instructions count ecx down, jecxz and the other branches change no register. */
  function Counted(b: Branch, s: State): Regs {
    if 0xE0 <= b.opcode <= 0xE2 then s.regs[ECX := Difference(s.regs[ECX], 1, 0)] else s.regs
  }

  /** Short and long forms of a branch to a label of the section do the same: they reach it, or fall through. */
  lemma BranchArrives(b: Branch, v: int, value: int, c: Code, s: State)
    requires Known(b) && BranchBytes(b, Target(v, Here(value)), s.ip).Encoded?
    requires Holds(c, s.ip, BranchBytes(b, Target(v, Here(value)), s.ip).bytes)
    ensures Step(c, {}, At(s)) == At(s.(
      ip := if Goes(b, s) then (v + value) % WRAP else s.ip + |BranchBytes(b, Target(v, Here(value)), s.ip).bytes|,
      regs := Counted(b, s)))
  {
    hide Step, Goes, Counted, Known, Holds, Le32, OpcodeBytes;
    if Near(b, Target(v, Here(value)), s.ip) {
      NearArrives(b, v, value, c, s);
    } else {
      FarArrives(b, v, value, c, s);
    }
  }

  lemma NearArrives(b: Branch, v: int, value: int, c: Code, s: State)
    requires Known(b) && Near(b, Target(v, Here(value)), s.ip)
    requires Holds(c, s.ip, OpcodeBytes(b.opcode + b.test) + [ShortDistance(b, v + value, s.ip) % 0x100])
    ensures |OpcodeBytes(b.opcode + b.test)| == 1
    ensures Step(c, {}, At(s)) ==
      At(s.(ip := if Goes(b, s) then (v + value) % WRAP else s.ip + 2, regs := Counted(b, s)))
  {
    hide Cond, ByteAt, WordAt, SignExtend, Decode;
    var d := v + value - s.ip - 2;
    HoldsAt(c, s.ip, [b.opcode + b.test, d % 0x100]);
    ByteDisp(d);
    Lands(s.ip, 2, v + value);
    ShortDecodes(b, c, s.ip, d % 0x100);
  }

  lemma FarArrives(b: Branch, v: int, value: int, c: Code, s: State)
    requires Known(b) && (b.opcode == 0xEB || b.opcode == 0x70)
    requires var head := OpcodeBytes(LongOpcode(b));
      Holds(c, s.ip, head + Le32(Displacement(Target(v, Here(value)), s.ip + |head|)))
    ensures Step(c, {}, At(s)) == At(s.(
      ip := if Goes(b, s) then (v + value) % WRAP else s.ip + |OpcodeBytes(LongOpcode(b))| + 4,
      regs := Counted(b, s)))
  {
    hide Cond, ByteAt, WordAt, Le32, Decode;
    var head := OpcodeBytes(LongOpcode(b));
    var w := Displacement(Target(v, Here(value)), s.ip + |head|);
    HoldsAt(c, s.ip, head + Le32(w));
    WordBehind(c, s.ip, head, w);
    Lands(s.ip, |head| + 4, v + value);
    LongDecodes(b, c, s.ip, w);
  }

  lemma ShortDecodes(b: Branch, c: Code, i: nat, d: byte)
    requires Known(b) && ByteAt(c, i) == b.opcode + b.test && ByteAt(c, i + 1) == d
    ensures Decode(c, i) == Decoded(
      if b.opcode == 0xEB then Jmp(SignExtend(d))
      else if b.opcode == 0x70 then Jcc(b.test, SignExtend(d))
      else Loop(b.opcode - 0xE0, SignExtend(d)), 2)
  {
    hide ByteAt, WordAt, SignExtend;
  }

  lemma LongDecodes(b: Branch, c: Code, i: nat, n: u32)
    requires Known(b) && (b.opcode == 0xEB || b.opcode == 0x70)
    requires forall k :: 0 <= k < |OpcodeBytes(LongOpcode(b))| ==> ByteAt(c, i + k) == OpcodeBytes(LongOpcode(b))[k]
    requires WordAt(c, i + |OpcodeBytes(LongOpcode(b))|) == n
    ensures Decode(c, i) == Decoded(if b.opcode == 0xEB then Jmp(n)
      else Jcc(b.test, n), |OpcodeBytes(LongOpcode(b))| + 4)
  {
    hide ByteAt, WordAt, SignExtend;
    var head := OpcodeBytes(LongOpcode(b));
    assert head == if b.opcode == 0xEB then [0xE9] else [0x0F, 0x80 + b.test];
    assert ByteAt(c, i + 0) == head[0];
    assert b.opcode == 0x70 ==> ByteAt(c, i + 1) == head[1];
  }

  /**
    loopne, loope, loop and jecxz have no long form: they are encoded, in two bytes, exactly when the target is near.
   */
  lemma OnlyShortIff(b: Branch, t: Target, at: nat)
    requires Known(b) && b.opcode != 0xEB && b.opcode != 0x70
    ensures BranchBytes(b, t, at).Encoded? <==> t.symbol.Here? && FitsByte(t.v + t.symbol.value - at - 2)
    ensures BranchBytes(b, t, at).Encoded? ==> |BranchBytes(b, t, at).bytes| == 2
  {
  }

  /** For every entry of the table, the distance is measured from the end of the short form. */
  lemma DistanceFromEnd(b: Branch, t: Target, at: nat)
    requires Known(b) && Near(b, t, at)
    ensures at + |BranchBytes(b, t, at).bytes| + ShortDistance(b, t.v + t.symbol.value, at) == t.v + t.symbol.value
  {
  }

  /** jmp and the conditional jumps can be encoded wherever the target is, the others only near it. */
  lemma EncodedIff(b: Branch, t: Target, at: nat)
    requires Known(b)
    ensures BranchBytes(b, t, at).Encoded? <==>
      b.opcode == 0xEB || b.opcode == 0x70 || (t.symbol.Here? && -128 <= t.v + t.symbol.value - (at + 2) < 128)
  {
  }

  /** The short form is chosen exactly when the target is known and near. */
  lemma ShortIff(b: Branch, t: Target, at: nat)
    requires Known(b) && BranchBytes(b, t, at).Encoded?
    ensures |BranchBytes(b, t, at).bytes| == 2 <==> t.symbol.Here? && -128 <= t.v + t.symbol.value - (at + 2) < 128
  {
  }

  lemma ShortJumpIff(at: nat, a: int)
    ensures |JumpBytes(at, a)| == 2 <==> -128 <= a - (at + 2) < 128
  {
  }

  /** The branch-size part of `asm_opcode`: false for a displacement that cannot be encoded. */
  method AsmBranch(text: Section, b: Branch, t: Target) returns (ok: bool)
    modifies text`code
    ensures ok <==> BranchBytes(b, t, |old(text.code)|).Encoded?
    ensures text.code == if text.nocode || !ok then old(text.code)
      else old(text.code) + BranchBytes(b, t, |old(text.code)|).bytes
    ensures ok && !text.nocode && Known(b) && t.symbol.Here? ==>
      forall s: State :: s.ip == |old(text.code)| ==>
        Step(text.code, {}, At(s)) == At(s.(
          ip := if Goes(b, s) then (t.v + t.symbol.value) % WRAP else |text.code|,
          regs := Counted(b, s)))
  {
    hide Le32, OpcodeBytes, Step, Goes, Counted, Known, Holds;
    ghost var c := text.code;
    var at := |text.code|;
    var v := b.opcode;
    var short := false;
    var disp := 0;
    if t.symbol.Here? {
      disp := t.v + t.symbol.value - at - 2 - (if v >= 0xFF then 1 else 0);
      short := FitsByte(disp);
    }
    if !short {
      if v == 0xEB {
        v := 0xE9;
      } else if v == 0x70 {
        v := v + 0x0F10;
      } else {
        return false;
      }
    }
    var op := OpcodeBytes(v + b.test);
    EmitAll(text, op);
    if short {
      text.G(disp % 0x100);
      assert c + op + [disp % 0x100] == c + (op + [disp % 0x100]);
    } else {
      text.GenLe32(Displacement(t, at + |op|));
      assert c + op + Le32(Displacement(t, at + |op|)) == c + (op + Le32(Displacement(t, at + |op|)));
    }
    forall s: State | s.ip == |c| && !text.nocode && Known(b) && t.symbol.Here?
      ensures Step(text.code, {}, At(s)) == At(s.(
        ip := if Goes(b, s) then (t.v + t.symbol.value) % WRAP else |text.code|,
        regs := Counted(b, s)))
    {
      EndHolds(c, BranchBytes(b, t, |c|).bytes);
      BranchArrives(b, t.v, t.symbol.value, text.code, s);
    }
    return true;
  }

  method EmitAll(text: Section, w: seq<byte>)
    modifies text`code
    ensures text.code == if text.nocode then old(text.code) else old(text.code) + w
  {
    ghost var c := text.code;
    var i := 0;
    while i < |w|
      invariant 0 <= i <= |w| && text.code == if text.nocode then c else c + w[..i]
    {
      text.G(w[i]);
      assert w[..i + 1] == w[..i] + [w[i]];
      i := i + 1;
    }
    assert w[..i] == w;
  }
}
