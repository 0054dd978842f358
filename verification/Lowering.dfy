/** Values that are still conditions or pending jumps, and the code that tests or loads them. */
module Lowering {
  import opened Bytes
  import opened JumpList
  import opened X86

  // ----- running code with pending jumps -----

  /** A run stands at an instruction, has taken a jump that leads nowhere yet, or cannot go on. */
  datatype Config = At(s: State) | Pending(slot: nat, regs: Regs, flags: Flags) | Stuck

  /** Where the displacement of a four-byte jump at `ip` stands; 0 for anything else. */
  function SlotOf(d: Decoded, ip: nat): nat {
    if d.instr.Jmp? && d.len == 5 then ip + 1 else if d.instr.Jcc? && d.len == 6 then ip + 2 else 0
  }

  predicate Taken(i: Instr, f: Flags) {
    i.Jmp? || (i.Jcc? && Cond(i.cc, f))
  }

  function Step(c: Code, pending: set<nat>, k: Config): Config {
    if !k.At? then k
    else
      var d := Decode(c, k.s.ip);
      if Taken(d.instr, k.s.flags) && SlotOf(d, k.s.ip) in pending then Pending(SlotOf(d, k.s.ip), k.s.regs, k.s.flags)
      else
        match Execute(d.instr, k.s.ip + d.len, k.s)
        case Done(t) => At(t)
        case Fault => Stuck
  }

  function Run(c: Code, pending: set<nat>, k: Config, n: nat): Config
    decreases n
  {
    if n == 0 then k else Run(c, pending, Step(c, pending, k), n - 1)
  }

  /** A pending jump whose slot is bound has arrived where the slot says. */
  function Settle(c: Code, pending: set<nat>, k: Config): Config {
    if k.Pending? && k.slot !in pending then
      if k.slot + 4 <= |c| then At(State(Landing(c, k.slot), k.regs, k.flags)) else Stuck
    else k
  }

  function RegsOf(k: Config): Regs {
    match k
    case At(s) => s.regs
    case Pending(_, regs, _) => regs
    case Stuck => [0, 0, 0, 0, 0, 0, 0, 0]
  }

  function FlagsOf(k: Config): Flags {
    match k
    case At(s) => s.flags
    case Pending(_, _, flags) => flags
    case Stuck => Flags(false, false, false, false, false)
  }

  // ----- values -----

  /** The top of the value stack: flags of a comparison (`VT_CMP`), or a list of jumps (`VT_JMP`, `VT_JMPI`). */
  datatype Value = Compare(op: nat) | Jumps(list: nat, inverted: bool)

  /** At a point where code generation stands at `end`, a run in `k` carries truth value `b` in `v`. */
  ghost predicate Stands(v: Value, slots: seq<nat>, end: nat, k: Config, b: bool) {
    match v
    case Compare(op) => k.At? && k.s.ip == end && 0x90 <= op <= 0x9F && Cond(op - 0x90, k.s.flags) == b
    case Jumps(_, inverted) => if b != inverted then k.Pending? && k.slot in slots else k.At? && k.s.ip == end
  }

  /** `(op - 16) ^ inv`: the second byte of the conditional jump. */
  function JumpOpcode(op: nat, inv: bool): byte
    requires 0x90 <= op <= 0x9F
  {
    if !inv then op - 16 else if op % 2 == 0 then op - 15 else op - 17
  }

  /** The lowest bit of a condition code inverts it. */
  lemma Inverse(op: nat, inv: bool, f: Flags)
    requires 0x90 <= op <= 0x9F
    ensures Cond(JumpOpcode(op, inv) - 0x80, f) == (Cond(op - 0x90, f) != inv)
  {
  }

  function Members(slots: seq<nat>): set<nat> {
    set s | s in slots
  }

  /** The run goes on to a jump of `slots` or to the end of the code, with registers and flags as they were. */
  ghost predicate Tested(c: Code, pending: set<nat>, k: Config, jump: bool, slots: seq<nat>) {
    exists n: nat ::
      var f := Run(c, pending, Settle(c, pending, k), n);
      && RegsOf(f) == RegsOf(k) && FlagsOf(f) == FlagsOf(k)
      && if jump then f.Pending? && f.slot in slots else f.At? && f.s.ip == |c|
  }

  /** The run goes on to the end of the code with `b` as 0 or 1 in register `r` and every other register as it was. */
  ghost predicate LoadedAs(c: Code, pending: set<nat>, k: Config, r: nat, b: bool) {
    exists n: nat ::
      var f := Run(c, pending, Settle(c, pending, k), n);
      r < 8 && f.At? && f.s.ip == |c| && f.s.regs == RegsOf(k)[r := if b then 1 else 0]
  }

  // ----- decoding what was emitted -----

  lemma JccStep(c: Code, pending: set<nat>, s: State, cc: nat)
    requires s.ip + 6 <= |c| && cc < 16 && c[s.ip] == 0x0F && c[s.ip + 1] == 0x80 + cc && s.ip + 2 in pending
    ensures Step(c, pending, At(s)) == if Cond(cc, s.flags) then Pending(s.ip + 2, s.regs, s.flags)
      else At(s.(ip := s.ip + 6))
  {
    hide Cond, Read32, Parity;
  }

  lemma JmpStep(c: Code, pending: set<nat>, s: State)
    requires s.ip + 5 <= |c| && c[s.ip] == 0xE9 && s.ip + 1 in pending
    ensures Step(c, pending, At(s)) == Pending(s.ip + 1, s.regs, s.flags)
  {
    hide Cond, Read32, Parity;
  }

  lemma ShortJmpStep(c: Code, pending: set<nat>, s: State)
    requires s.ip + 2 <= |c| && c[s.ip] == 0xEB && c[s.ip + 1] == 5 && 0 !in pending && s.ip + 7 < WRAP
    ensures Step(c, pending, At(s)) == At(s.(ip := s.ip + 7))
  {
    hide Cond, Read32, Parity;
  }

  lemma MovStep(c: Code, pending: set<nat>, s: State, r: nat, n: u32)
    requires s.ip + 5 <= |c| && r < 8 && c[s.ip] == 0xB8 + r && c[s.ip + 1..s.ip + 5] == Le32(n)
    ensures Step(c, pending, At(s)) == At(s.(ip := s.ip + 5, regs := s.regs[r := n]))
  {
    hide Cond, Read32, Parity, Le32;
    WordIs(c, s.ip + 1, n);
  }

  lemma SetStep(c: Code, pending: set<nat>, s: State, r: nat, cc: nat)
    requires s.ip + 3 <= |c| && r < 4 && cc < 16 && c[s.ip] == 0x0F && c[s.ip + 1] == 0x90 + cc
    requires c[s.ip + 2] == 0xC0 + r
    ensures Step(c, pending, At(s)) == At(s.(ip := s.ip + 3, regs := s.regs[r := Low(s.regs[r], Cond(cc, s.flags))]))
  {
    hide Cond, Read32, Parity, Low;
  }

  lemma OneStep(c: Code, pending: set<nat>, k: Config)
    ensures Run(c, pending, k, 0) == k && Run(c, pending, k, 1) == Step(c, pending, k)
  {
  }

  lemma TwoSteps(c: Code, pending: set<nat>, k: Config)
    ensures Run(c, pending, k, 2) == Step(c, pending, Step(c, pending, k))
  {
    OneStep(c, pending, Step(c, pending, k));
  }

  // ----- the code for a test -----

  /** A comparison: one conditional jump, in the sense asked for. */
  lemma CompareTested(c: Code, t: u32, op: nat, inv: bool, slots: seq<nat>, k: Config, b: bool)
    requires 0x90 <= op <= 0x9F && |c| + 2 in slots && Stands(Compare(op), [], |c|, k, b)
    ensures Tested(c + [0x0F, JumpOpcode(op, inv)] + Le32(t), Members(slots), k, b != inv, [|c| + 2])
  {
    hide Cond, Le32;
    var c' := c + [0x0F, JumpOpcode(op, inv)] + Le32(t);
    var p := Members(slots);
    Inverse(op, inv, k.s.flags);
    JccStep(c', p, k.s, JumpOpcode(op, inv) - 0x80);
    OneStep(c', p, k);
    assert Run(c', p, Settle(c', p, k), 1) == Step(c', p, k);
  }

  /** Jumps in the sense asked for: they stay pending, and falling through falls through. */
  lemma JumpsKept(c: Code, c': Code, v: Value, a: seq<nat>, slots: seq<nat>, k: Config, b: bool)
    requires v.Jumps? && |c'| == |c| && Stands(v, a, |c|, k, b) && forall s :: s in a ==> s in slots
    ensures Tested(c', Members(slots), k, b != v.inverted, a)
  {
    var p := Members(slots);
    OneStep(c', p, k);
    assert Run(c', p, Settle(c', p, k), 0) == k;
  }

  /** Bytes behind the bound slots are as emitted. */
  lemma BehindSlots(c: Code, c': Code, a: seq<nat>, to: nat, from: nat)
    requires Bound(c, c', a, to) && forall i :: 0 <= i < |a| ==> a[i] + 4 <= from
    ensures |c'| == |c| && forall i :: from <= i < |c| ==> c'[i] == c[i]
  {
    forall i | from <= i < |c|
      ensures c'[i] == c[i]
    {
      assert Outside(a, i);
    }
  }

  /** A jump of a bound list arrives. */
  lemma Arrives(c: Code, c': Code, c'': Code, a: seq<nat>, to: nat, pending: set<nat>, k: Config)
    requires Bound(c, c', a, to) && to < WRAP && k.Pending? && k.slot in a && k.slot !in pending
    requires |c'| <= |c''| && c''[..|c'|] == c'
    ensures Settle(c'', pending, k) == At(State(to, k.regs, k.flags))
  {
    hide Read32;
    var i :| 0 <= i < |a| && a[i] == k.slot;
    BoundLands(c, c', a, to, i);
    forall j | k.slot <= j < k.slot + 4
      ensures c''[j] == c'[j]
    {
      assert c''[..|c'|][j] == c''[j];
    }
    Read32Same(c', c'', k.slot);
  }

  lemma Read32Same(c: Code, c': Code, o: nat)
    requires o + 4 <= |c| <= |c'| && forall j :: o <= j < o + 4 ==> c'[j] == c[j]
    ensures Read32(c', o) == Read32(c, o)
  {
  }

  /** Jumps in the opposite sense: falling through now jumps, and the old jumps land behind it. */
  lemma JumpsTurned(c: Code, t: u32, c': Code, v: Value, a: seq<nat>, slots: seq<nat>, k: Config, b: bool)
    requires v.Jumps? && Stands(v, a, |c|, k, b) && |c| + 5 < WRAP && |c| + 1 in slots
    requires Bound(c + [0xE9] + Le32(t), c', a, |c| + 5) && forall i :: 0 <= i < |a| ==>
      a[i] + 4 <= |c| && a[i] !in slots
    ensures Tested(c', Members(slots), k, b == v.inverted, [|c| + 1])
  {
    hide Le32, Run, Step, Bound, Read32;
    var p := Members(slots);
    BehindSlots(c + [0xE9] + Le32(t), c', a, |c| + 5, |c|);
    OneStep(c', p, Settle(c', p, k));
    if k.At? {
      JmpStep(c', p, k.s);
      assert Run(c', p, Settle(c', p, k), 1) == Step(c', p, k);
    } else {
      assert c'[..|c'|] == c';
      Arrives(c + [0xE9] + Le32(t), c', c', a, |c| + 5, p, k);
      assert Run(c', p, Settle(c', p, k), 0) == Settle(c', p, k);
    }
  }

  // ----- the code for a load -----

  function LoadCompare(c: Code, r: nat, op: nat): Code
    requires r < 8 && 0x90 <= op <= 0x9F
  {
    c + [0xB8 + r] + Le32(0) + [0x0F, op, 0xC0 + r]
  }

  lemma CompareLoaded(c: Code, r: nat, op: nat, pending: set<nat>, k: Config, b: bool)
    requires r < 4 && 0x90 <= op <= 0x9F && Stands(Compare(op), [], |c|, k, b)
    ensures LoadedAs(LoadCompare(c, r, op), pending, k, r, b)
  {
    hide Cond, Le32;
    var c' := LoadCompare(c, r, op);
    assert c'[|c| + 1..|c| + 5] == Le32(0);
    MovStep(c', pending, k.s, r, 0);
    var s1 := k.s.(ip := |c| + 5, regs := k.s.regs[r := 0]);
    SetStep(c', pending, s1, r, op - 0x90);
    TwoSteps(c', pending, k);
    assert s1.regs[r := Low(0, b)] == k.s.regs[r := if b then 1 else 0];
    assert Run(c', pending, Settle(c', pending, k), 2).s.ip == |c'|;
  }

  function FirstHalf(c: Code, r: nat, t: u32): Code
    requires r < 8
  {
    c + [0xB8 + r] + Le32(t) + [0xEB, 0x05]
  }

  function SecondHalf(c: Code, r: nat, t: u32): Code
    requires r < 8
  {
    c + [0xB8 + r] + Le32(t)
  }

  /** Falling through leaves `t`. */
  lemma FallLoaded(c: Code, c2: Code, r: nat, t: u32, pending: set<nat>, s: State)
    requires r < 8 && t <= 1 && s.ip == |c| && |c| + 12 < WRAP && 0 !in pending && |c2| == |c| + 7
    requires forall i :: |c| <= i < |c2| ==> c2[i] == FirstHalf(c, r, t)[i]
    ensures LoadedAs(SecondHalf(c2, r, 1 - t), pending, At(s), r, t == 1)
  {
    hide Le32, Run, Step;
    var c1 := FirstHalf(c, r, t);
    var c' := SecondHalf(c2, r, 1 - t);
    assert c1[|c| + 1..|c| + 5] == Le32(t);
    assert c'[|c| + 1..|c| + 5] == c1[|c| + 1..|c| + 5];
    MovStep(c', pending, s, r, t);
    ShortJmpStep(c', pending, s.(ip := |c| + 5, regs := s.regs[r := t]));
    TwoSteps(c', pending, At(s));
    assert Run(c', pending, Settle(c', pending, At(s)), 2) == At(s.(ip := |c| + 12, regs := s.regs[r := t]));
  }

  /** Jumping leaves the opposite. */
  lemma JumpLoaded(c1: Code, c2: Code, r: nat, n: u32, a: seq<nat>, pending: set<nat>, k: Config)
    requires r < 8 && n <= 1 && k.Pending? && k.slot in a && k.slot !in pending && |c2| + 5 < WRAP
    requires Bound(c1, c2, a, |c2|)
    ensures LoadedAs(SecondHalf(c2, r, n), pending, k, r, n == 1)
  {
    hide Le32, Run, Step, Bound, Settle;
    var c' := SecondHalf(c2, r, n);
    assert c'[..|c2|] == c2;
    Arrives(c1, c2, c', a, |c2|, pending, k);
    var s := State(|c2|, k.regs, k.flags);
    assert c'[|c2| + 1..|c2| + 5] == Le32(n);
    MovStep(c', pending, s, r, n);
    OneStep(c', pending, At(s));
    assert Run(c', pending, Settle(c', pending, k), 1) == At(s.(ip := |c2| + 5, regs := s.regs[r := n]));
  }

  /** Each way through the code of a pending list ends with the value in the register. */
  lemma JumpsLoaded(c: Code, c2: Code, r: nat, v: Value, a: seq<nat>, pending: set<nat>, k: Config, b: bool)
    requires r < 8 && v.Jumps? && Stands(v, a, |c|, k, b) && |c| + 12 < WRAP && 0 !in pending
    requires Bound(FirstHalf(c, r, if v.inverted then 1 else 0), c2, a, |c| + 7)
    requires forall i :: 0 <= i < |a| ==> a[i] + 4 <= |c| && a[i] !in pending
    ensures LoadedAs(SecondHalf(c2, r, if v.inverted then 0 else 1), pending, k, r, b)
  {
    hide Le32, LoadedAs, Bound, SecondHalf;
    var t: u32 := if v.inverted then 1 else 0;
    BehindSlots(FirstHalf(c, r, t), c2, a, |c| + 7, |c|);
    if k.At? {
      FallLoaded(c, c2, r, t, pending, k.s);
    } else {
      JumpLoaded(FirstHalf(c, r, t), c2, r, 1 - t, a, pending, k);
    }
  }
}
