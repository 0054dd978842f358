/** How one operand of an inline assembly statement gets its register: the constraint letters, tried in order. */
module RegisterChoice {
  const REGS := 8
  const ESP := 4
  const EBP := 5

  /** What a register is taken for: REG_OUT_MASK and REG_IN_MASK. */
  datatype Roles = Roles(output: bool, input: bool)

  const NONE := Roles(false, false)
  const INPUT := Roles(false, true)
  const OUTPUT := Roles(true, false)
  const BOTH := Roles(true, true)

  predicate Overlap(a: Roles, b: Roles) {
    (a.output && b.output) || (a.input && b.input)
  }

  function Join(a: Roles, b: Roles): Roles {
    Roles(a.output || b.output, a.input || b.input)
  }

  predicate Within(a: Roles, b: Roles) {
    (a.output ==> b.output) && (a.input ==> b.input)
  }

  /** `regs_allocated` */
  type RegMap = m: seq<Roles> | |m| == REGS witness seq(REGS, _ => NONE)

  /**
    `ASMOperand` and what the allocator asks about its value: whether it is a constant (with or without a symbol),
      whether
    it is reached through a pointer kept in memory (VT_LLOCAL), the register of a register variable (-1 for none),
      and the
    operand a digit or name in its constraint stands for (-1 for none).
   */
  datatype Operand = Operand(
    constraint: string, isConst: bool, isPlainConst: bool, indirect: bool, pinned: int, target: int,
    inputIndex: int, refIndex: int, reg: int, isMemory: bool, isRw: bool, isLlong: bool, priority: int)

  /** The registers an operand occupies. */
  function RegsOf(o: Operand): set<int> {
    if o.reg < 0 then {} else if o.isLlong then {0, 2} else {o.reg}
  }

  predicate Free(m: RegMap, r: nat, mask: Roles) {
    r < REGS && !Overlap(m[r], mask)
  }

  /** Lowest register below `n`, from `r` on, that is free for `mask`; -1 when there is none. */
  function FirstFree(m: RegMap, mask: Roles, r: nat, n: nat): (f: int)
    requires r <= n <= REGS
    ensures f == -1 || (r <= f < n && Free(m, f, mask))
    ensures f == -1 ==> forall i :: r <= i < n ==> !Free(m, i, mask)
    decreases n - r
  {
    if r == n then -1 else if Free(m, r, mask) then r else FirstFree(m, mask, r + 1, n)
  }

  /** The register a single-letter constraint names; -1 for the other letters. */
  function Named(c: char): (r: int)
    ensures r < REGS
  {
    match c
    case 'a' => 0 case 'b' => 3 case 'c' => 1 case 'd' => 2 case 'S' => 6 case 'D' => 7
    case _ => -1
  }

  /** What the letters yield: a register (or -1 when none is needed) taken for `roles`, or nothing that works. */
  datatype Choice = Choice(reg: int, llong: bool, memory: bool, rw: bool, roles: Roles) | Refused

  predicate IsLetter(c: char) {
    c in "AabcdSDqrRpeiINMmg"
  }

  function InReg(r: int, mask: Roles, rw: bool): Choice {
    if r < 0 then Refused else Choice(r, false, false, rw, mask)
  }

  /** One letter: a choice, or refused for now. */
  function Letter(c: char, o: Operand, isOutput: bool, m: RegMap, mask: Roles, rw: bool): Choice {
    if c == 'A' then
      if Free(m, 0, mask) && Free(m, 2, mask) then Choice(0, true, false, rw, mask) else Refused
    else if Named(c) >= 0 then
      if Free(m, Named(c), mask) then InReg(Named(c), mask, rw) else Refused
    else if c == 'q' then InReg(FirstFree(m, mask, 0, 4), mask, rw)
    else if c == 'r' || c == 'R' || c == 'p' then InReg(FirstFree(m, mask, 0, 8), mask, rw)
    else if c == 'e' || c == 'i' then
      if o.isConst then Choice(-1, false, false, rw, mask) else Refused
    else if c == 'I' || c == 'N' || c == 'M' then
      if o.isPlainConst then Choice(-1, false, false, rw, mask) else Refused
    else if (isOutput || c == 'm') && o.indirect then
      if FirstFree(m, INPUT, 0, 8) < 0 then Refused else Choice(FirstFree(m, INPUT, 0, 8), false, true, rw, INPUT)
    else Choice(-1, false, false, rw, mask)
  }

  /** The loop over the constraint of an operand that is not pinned. */
  function Choose(s: string, o: Operand, isOutput: bool, m: RegMap, mask: Roles, rw: bool): Choice
    decreases |s|
  {
    if s == "" then Refused
    else if s[0] == '=' then Choose(s[1..], o, isOutput, m, mask, rw)
    else if s[0] == '+' then if isOutput then Choose(s[1..], o, isOutput, m, BOTH, true) else Refused
    else if s[0] == '&' then if isOutput then Choose(s[1..], o, isOutput, m, BOTH, rw) else Refused
    else if !IsLetter(s[0]) then Refused
    else if Letter(s[0], o, isOutput, m, mask, rw).Refused? then Choose(s[1..], o, isOutput, m, mask, rw)
    else Letter(s[0], o, isOutput, m, mask, rw)
  }

  /** Registers a choice takes. */
  function Taken(g: Choice): set<int> {
    if g.Refused? || g.reg < 0 then {} else if g.llong then {0, 2} else {g.reg}
  }

  /** Modifiers before the first letter say "read and written" or "written early". */
  predicate Exclusive(s: string) {
    s != "" && (s[0] == '+' || s[0] == '&' || (s[0] == '=' && Exclusive(s[1..])))
  }

  /** Only registers that are free for the roles they are taken for, and never fewer roles than asked. */
  ghost predicate Safe(g: Choice, m: RegMap, mask: Roles, rw: bool) {
    g.Choice? ==>
      && g.reg < REGS && (g.llong ==> g.reg == 0)
      && (forall r :: r in Taken(g) ==> 0 <= r < REGS && Free(m, r, g.roles))
      && (if g.memory then g.roles == INPUT && !g.llong else Within(mask, g.roles))
      && (rw ==> g.rw)
  }

  lemma LetterSafe(c: char, o: Operand, isOutput: bool, m: RegMap, mask: Roles, rw: bool)
    ensures Safe(Letter(c, o, isOutput, m, mask, rw), m, mask, rw)
  {
    hide Free;
  }

  lemma WiderSafe(g: Choice, m: RegMap, mask: Roles, rw: bool)
    requires Safe(g, m, BOTH, true) || Safe(g, m, BOTH, rw)
    ensures Safe(g, m, mask, rw) && (g.Choice? && !g.memory ==> g.roles == BOTH)
  {
    hide Free;
  }

  lemma {:induction false} ChooseSafe(s: string, o: Operand, isOutput: bool, m: RegMap, mask: Roles, rw: bool)
    ensures Safe(Choose(s, o, isOutput, m, mask, rw), m, mask, rw)
    decreases |s|
  {
    hide Letter, IsLetter, Free;
    if s != "" {
      if s[0] == '+' && isOutput {
        ChooseSafe(s[1..], o, isOutput, m, BOTH, true);
        WiderSafe(Choose(s[1..], o, isOutput, m, BOTH, true), m, mask, rw);
      } else if s[0] == '&' && isOutput {
        ChooseSafe(s[1..], o, isOutput, m, BOTH, rw);
        WiderSafe(Choose(s[1..], o, isOutput, m, BOTH, rw), m, mask, rw);
      } else {
        ChooseSafe(s[1..], o, isOutput, m, mask, rw);
        LetterSafe(s[0], o, isOutput, m, mask, rw);
      }
    }
  }

  /** An operand marked "+" or "&" gets its register for both roles. */
  lemma {:induction false} ChooseExclusive(s: string, o: Operand, isOutput: bool, m: RegMap, mask: Roles, rw: bool)
    requires Exclusive(s)
    ensures var g := Choose(s, o, isOutput, m, mask, rw); g.Choice? && !g.memory ==> g.roles == BOTH
    decreases |s|
  {
    hide Letter, IsLetter, Free, Safe;
    if s[0] == '=' {
      ChooseExclusive(s[1..], o, isOutput, m, mask, rw);
    } else if isOutput {
      ChooseSafe(s[1..], o, isOutput, m, BOTH, true);
      ChooseSafe(s[1..], o, isOutput, m, BOTH, rw);
      WiderSafe(Choose(s[1..], o, isOutput, m, BOTH, s[0] == '+' || rw), m, mask, rw);
    }
  }

  // ----- what each letter asks for, by the register numbers of the processor manual -----

  /**
    A register `r` (-1 for none), alone or as the pair with edx, or a register that holds the address of memory,
      is what the
    letter `c` stands for. The processor numbers eax 0, ecx 1, edx 2, ebx 3, esp 4, ebp 5, esi 6, edi 7.
   */
  predicate Suits(c: char, o: Operand, isOutput: bool, r: int, pair: bool, memory: bool) {
    match c
    case 'A' => r == 0 && pair && !memory
    case 'a' => r == 0 && !pair && !memory
    case 'b' => r == 3 && !pair && !memory
    case 'c' => r == 1 && !pair && !memory
    case 'd' => r == 2 && !pair && !memory
    case 'S' => r == 6 && !pair && !memory
    case 'D' => r == 7 && !pair && !memory
    case 'q' => 0 <= r < 4 && !pair && !memory
    case 'r' => 0 <= r < 8 && !pair && !memory
    case 'R' => 0 <= r < 8 && !pair && !memory
    case 'p' => 0 <= r < 8 && !pair && !memory
    case 'e' => r == -1 && o.isConst && !pair && !memory
    case 'i' => r == -1 && o.isConst && !pair && !memory
    case 'I' => r == -1 && o.isPlainConst && !pair && !memory
    case 'N' => r == -1 && o.isPlainConst && !pair && !memory
    case 'M' => r == -1 && o.isPlainConst && !pair && !memory
    case 'm' => !pair && if o.indirect then 0 <= r < 8 && memory else r == -1 && !memory
    case 'g' => !pair && if isOutput && o.indirect then 0 <= r < 8 && memory else r == -1 && !memory
    case _ => false
  }

  /** Nothing that is asked for is taken already; the address of memory only has to be free as an input. */
  predicate Available(m: RegMap, mask: Roles, r: int, pair: bool, memory: bool) {
    r < 0 || (r < 8 && Free(m, r, if memory then INPUT else mask) && (pair ==> Free(m, 2, mask)))
  }

  ghost predicate Offers(c: char, o: Operand, isOutput: bool, m: RegMap, mask: Roles, r: int, pair: bool,
                         memory: bool) {
    Suits(c, o, isOutput, r, pair, memory) && Available(m, mask, r, pair, memory)
  }

  ghost predicate OffersNothing(c: char, o: Operand, isOutput: bool, m: RegMap, mask: Roles) {
    forall r: int, pair: bool, memory: bool :: !Offers(c, o, isOutput, m, mask, r, pair, memory)
  }

  /** `g` is the lowest of what `c` offers. */
  ghost predicate Best(c: char, o: Operand, isOutput: bool, m: RegMap, mask: Roles, rw: bool, g: Choice) {
    && g.Choice? && g.rw == rw && g.roles == (if g.memory then INPUT else mask)
    && Offers(c, o, isOutput, m, mask, g.reg, g.llong, g.memory)
    && forall r: int, pair: bool, memory: bool :: Offers(c, o, isOutput, m, mask, r, pair, memory) ==> g.reg <= r
  }

  ghost predicate Exact(c: char, o: Operand, isOutput: bool, m: RegMap, mask: Roles, rw: bool) {
    var g := Letter(c, o, isOutput, m, mask, rw);
    if g.Refused? then OffersNothing(c, o, isOutput, m, mask) else Best(c, o, isOutput, m, mask, rw, g)
  }

  lemma NamedExact(c: char, o: Operand, isOutput: bool, m: RegMap, mask: Roles, rw: bool)
    requires c in "abcdSD"
    ensures Exact(c, o, isOutput, m, mask, rw)
  {
    hide Free;
  }

  lemma AnyExact(c: char, o: Operand, isOutput: bool, m: RegMap, mask: Roles, rw: bool)
    requires c in "qrRp"
    ensures Exact(c, o, isOutput, m, mask, rw)
  {
    hide Free;
  }

  lemma PlainExact(c: char, o: Operand, isOutput: bool, m: RegMap, mask: Roles, rw: bool)
    requires c == 'A' || c in "eiINM"
    ensures Exact(c, o, isOutput, m, mask, rw)
  {
    hide Free;
  }

  lemma MemoryExact(c: char, o: Operand, isOutput: bool, m: RegMap, mask: Roles, rw: bool)
    requires c in "mg"
    ensures Exact(c, o, isOutput, m, mask, rw)
  {
    hide Free;
  }

  lemma LetterExact(c: char, o: Operand, isOutput: bool, m: RegMap, mask: Roles, rw: bool)
    requires IsLetter(c)
    ensures Exact(c, o, isOutput, m, mask, rw)
  {
    hide Exact;
    if c in "abcdSD" {
      NamedExact(c, o, isOutput, m, mask, rw);
    } else if c in "qrRp" {
      AnyExact(c, o, isOutput, m, mask, rw);
    } else if c in "mg" {
      MemoryExact(c, o, isOutput, m, mask, rw);
    } else {
      PlainExact(c, o, isOutput, m, mask, rw);
    }
  }

  predicate Modifies(c: char, isOutput: bool) {
    c == '=' || (isOutput && (c == '+' || c == '&'))
  }

  ghost predicate Has(s: string, k: nat, c: char) {
    exists j :: 0 <= j < k && j < |s| && s[j] == c
  }

  /** The roles asked for at position `k`: both behind "+" or "&". */
  ghost function MaskAt(s: string, k: nat, mask: Roles): Roles {
    if Has(s, k, '+') || Has(s, k, '&') then BOTH else mask
  }

  /** Every character before position `k` is a modifier in its place, or a letter that has nothing to offer. */
  ghost predicate InVain(s: string, k: nat, o: Operand, isOutput: bool, m: RegMap, mask: Roles) {
    forall j :: 0 <= j < k && j < |s| ==>
      Modifies(s[j], isOutput) || (IsLetter(s[j]) && OffersNothing(s[j], o, isOutput, m, MaskAt(s, j, mask)))
  }

  /** The choice was made at position `k`: the first letter that had something to offer. */
  ghost predicate MadeAt(s: string, k: nat, o: Operand, isOutput: bool, m: RegMap, mask: Roles, rw: bool, g: Choice) {
    && k < |s| && InVain(s, k, o, isOutput, m, mask)
    && Best(s[k], o, isOutput, m, MaskAt(s, k, mask), rw || Has(s, k, '+'), g)
  }

  lemma MaskShift(s: string, k: nat, mask: Roles)
    requires s != "" && k < |s|
    ensures Has(s, k + 1, '+') <==> s[0] == '+' || Has(s[1..], k, '+')
    ensures Has(s, k + 1, '&') <==> s[0] == '&' || Has(s[1..], k, '&')
    ensures MaskAt(s, k + 1, mask) == MaskAt(s[1..], k, if s[0] == '+' || s[0] == '&' then BOTH else mask)
  {
    forall c: char
      ensures Has(s, k + 1, c) <==> s[0] == c || Has(s[1..], k, c)
    {
      if Has(s, k + 1, c) {
        var j :| 0 <= j < k + 1 && j < |s| && s[j] == c;
        assert j > 0 ==> s[1..][j - 1] == c;
      }
      if Has(s[1..], k, c) {
        var j :| 0 <= j < k && j < |s[1..]| && s[1..][j] == c;
        assert s[j + 1] == c;
      }
    }
  }

  lemma InVainShift(s: string, k: nat, o: Operand, isOutput: bool, m: RegMap, mask: Roles)
    requires s != "" && InVain(s[1..], k, o, isOutput, m, if s[0] == '+' || s[0] == '&' then BOTH else mask)
    requires Modifies(s[0], isOutput) || (IsLetter(s[0]) && OffersNothing(s[0], o, isOutput, m, mask))
    ensures InVain(s, k + 1, o, isOutput, m, mask)
  {
    hide OffersNothing, IsLetter, MaskAt, Modifies;
    forall j | 0 <= j < k + 1 && j < |s|
      ensures Modifies(s[j], isOutput) || (IsLetter(s[j]) && OffersNothing(s[j], o, isOutput, m, MaskAt(s, j, mask)))
    {
      if j == 0 {
        MaskNone(s, mask);
      } else {
        MaskShift(s, j - 1, mask);
        assert s[1..][j - 1] == s[j];
      }
    }
  }

  lemma MaskNone(s: string, mask: Roles)
    ensures MaskAt(s, 0, mask) == mask && !Has(s, 0, '+')
  {
  }

  /**
    The loop over the constraint takes the first letter that has something to offer, and of that the lowest register. It
    fails only when there is none, or when it meets a character that has no business there first.
   */
  lemma {:induction false} ChooseExact(s: string, o: Operand, isOutput: bool, m: RegMap, mask: Roles,
                                       rw: bool) returns (k: nat)
    ensures var g := Choose(s, o, isOutput, m, mask, rw);
      if g.Choice? then MadeAt(s, k, o, isOutput, m, mask, rw, g)
      else
        && k <= |s| && InVain(s, k, o, isOutput, m, mask)
        && (k < |s| ==> !Modifies(s[k], isOutput) && !IsLetter(s[k]))
    decreases |s|
  {
    hide Letter, IsLetter, Best, OffersNothing, MaskAt, Has;
    k := 0;
    MaskNone(s, mask);
    if s != "" {
      if IsLetter(s[0]) {
        LetterExact(s[0], o, isOutput, m, mask, rw);
      }
      NoLetter(s[0]);
      if Modifies(s[0], isOutput) || (IsLetter(s[0]) && Letter(s[0], o, isOutput, m, mask, rw).Refused?) {
        var more := s[0] == '+' || s[0] == '&';
        k := ChooseExact(s[1..], o, isOutput, m, if more then BOTH else mask, rw || s[0] == '+');
        InVainShift(s, k, o, isOutput, m, mask);
        if k < |s[1..]| {
          MaskShift(s, k, mask);
        }
        k := k + 1;
      }
    }
  }

  lemma NoLetter(c: char)
    ensures c == '=' || c == '+' || c == '&' ==> !IsLetter(c)
  {
  }

  /** An operand holds what some letter of its constraint stands for. */
  ghost predicate SuitsItsConstraint(o: Operand, isOutput: bool) {
    exists k :: 0 <= k < |o.constraint| && Suits(o.constraint[k], o, isOutput, o.reg, o.isLlong, o.isMemory)
  }

  /** The registers taken, marked in the map. */
  function Mark(m: RegMap, g: Choice): RegMap {
    seq(REGS, r requires 0 <= r < REGS => if r in Taken(g) then Join(m[r], g.roles) else m[r])
  }
}
