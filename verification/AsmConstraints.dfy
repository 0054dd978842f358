/** `asm_compute_constraints`: registers for all operands of an inline assembly statement. */
module AsmConstraints {
  import opened RegisterChoice

  // ----- priorities and references -----

  /** `skip_constraint_modifiers` */
  function Skip(s: string): string {
    if s != "" && (s[0] == '=' || s[0] == '&' || s[0] == '+' || s[0] == '%') then Skip(s[1..]) else s
  }

  predicate IsReference(s: string) {
    Skip(s) != "" && ('0' <= Skip(s)[0] <= '9' || Skip(s)[0] == '[')
  }

  /** Priority of one letter; -1 for a letter that is not known. */
  function Rank(c: char): int {
    if c == 'A' then 0
    else if c in "abcdSD" then 1
    else if c == 'q' then 2
    else if c in "rRp" then 3
    else if c in "NMIeimg" then 4
    else -1
  }

  /** The lowest rank that suits all letters, -1 when one of them is not known. */
  function Priority(s: string): int {
    if s == "" then 0
    else if Rank(s[0]) < 0 || Priority(s[1..]) < 0 then -1
    else if Rank(s[0]) > Priority(s[1..]) then Rank(s[0]) else Priority(s[1..])
  }

  /** The letters of each rank and those above. */
  const ALL_LETTERS := "AabcdSDqrRpNMIeimg"
  const FROM_FIXED := "abcdSDqrRpNMIeimg"
  const FROM_FOUR := "qrRpNMIeimg"
  const FROM_ANY := "rRpNMIeimg"
  const NO_REGISTER := "NMIeimg"

  ghost predicate AllIn(s: string, t: string) {
    forall k :: 0 <= k < |s| ==> s[k] in t
  }

  ghost predicate SomeIn(s: string, t: string) {
    exists k :: 0 <= k < |s| && s[k] in t
  }

  lemma RankIff(c: char)
    ensures Rank(c) >= 0 <==> c in ALL_LETTERS
    ensures Rank(c) >= 1 <==> c in FROM_FIXED
    ensures Rank(c) >= 2 <==> c in FROM_FOUR
    ensures Rank(c) >= 3 <==> c in FROM_ANY
    ensures Rank(c) >= 4 <==> c in NO_REGISTER
    ensures Rank(c) <= 4
  {
  }

  /** The priority is an error exactly for an unknown letter, and otherwise that of the least demanding letter. */
  lemma {:induction false} PriorityIff(s: string)
    ensures Priority(s) >= 0 <==> AllIn(s, ALL_LETTERS)
    ensures Priority(s) >= 1 <==> AllIn(s, ALL_LETTERS) && SomeIn(s, FROM_FIXED)
    ensures Priority(s) >= 2 <==> AllIn(s, ALL_LETTERS) && SomeIn(s, FROM_FOUR)
    ensures Priority(s) >= 3 <==> AllIn(s, ALL_LETTERS) && SomeIn(s, FROM_ANY)
    ensures Priority(s) >= 4 <==> AllIn(s, ALL_LETTERS) && SomeIn(s, NO_REGISTER)
    ensures Priority(s) <= 4
  {
    hide Rank;
    if s != "" {
      PriorityIff(s[1..]);
      RankIff(s[0]);
      FirstIn(s, ALL_LETTERS);
      FirstIn(s, FROM_FIXED);
      FirstIn(s, FROM_FOUR);
      FirstIn(s, FROM_ANY);
      FirstIn(s, NO_REGISTER);
    }
  }

  lemma FirstIn(s: string, t: string)
    requires s != ""
    ensures AllIn(s, t) <==> s[0] in t && AllIn(s[1..], t)
    ensures SomeIn(s, t) <==> s[0] in t || SomeIn(s[1..], t)
  {
    assert forall k :: 0 < k < |s| ==> s[k] == s[1..][k - 1];
    if SomeIn(s[1..], t) {
      var k :| 0 <= k < |s[1..]| && s[1..][k] in t;
      assert s[k + 1] in t;
    }
    if AllIn(s, t) {
      forall k | 0 <= k < |s[1..]|
        ensures s[1..][k] in t
      {
        assert s[k + 1] in t;
      }
    }
  }

  /** Skipping drops exactly the modifiers in front. */
  lemma {:induction false} SkipIsSuffix(s: string) returns (k: nat)
    ensures k <= |s| && Skip(s) == s[k..] && (forall j :: 0 <= j < k ==> s[j] in "=&+%")
    ensures (k < |s| ==> s[k] !in "=&+%")
  {
    k := 0;
    if s != "" && s[0] in "=&+%" {
      k := SkipIsSuffix(s[1..]);
      assert forall j :: 0 < j < k + 1 ==> s[j] == s[1..][j - 1];
      k := k + 1;
    }
  }

  /** Behind the modifiers in front, the constraint begins with a digit or with "[": it refers to another operand. */
  ghost predicate Refers(s: string) {
    exists k :: 0 <= k < |s| && (forall j :: 0 <= j < k ==> s[j] in "=&+%") && (s[k] in "0123456789" || s[k] == '[')
  }

  lemma IsReferenceIff(s: string)
    ensures IsReference(s) <==> Refers(s)
  {
    var k := SkipIsSuffix(s);
    hide Skip;
    if Refers(s) {
      var i :| 0 <= i < |s| && (forall j :: 0 <= j < i ==> s[j] in "=&+%") && (s[i] in "0123456789" || s[i] == '[');
      assert i == k;
    }
  }

  ghost predicate SameLinks(a: seq<Operand>, b: seq<Operand>) {
    |a| == |b| && forall i :: 0 <= i < |a| ==> a[i].refIndex == b[i].refIndex
  }

  /** After classification, exactly the operands that refer to another one are linked, and to the one they name. */
  lemma RightLinks(ops: seq<Operand>, nbOutputs: nat)
    requires Classified(ops, nbOutputs, |ops|)
    ensures forall i :: 0 <= i < |ops| ==> ops[i].refIndex == if Refers(ops[i].constraint) then ops[i].target else -1
  {
    hide IsReference, Priority, Skip, Refers, Linked, Fresh;
    forall i | 0 <= i < |ops|
      ensures ops[i].refIndex == if Refers(ops[i].constraint) then ops[i].target else -1
    {
      IsReferenceIff(ops[i].constraint);
    }
  }

  lemma LinksOn(a: seq<Operand>, b: seq<Operand>)
    requires SameLinks(a, b) && SameOperands(a, b)
    requires forall i :: 0 <= i < |b| ==> b[i].refIndex == if Refers(b[i].constraint) then b[i].target else -1
    ensures forall i :: 0 <= i < |a| ==> a[i].refIndex == if Refers(a[i].constraint) then a[i].target else -1
  {
    hide Refers;
  }

  /** `constraint_priority` */
  method ConstraintPriority(str: string) returns (priority: int)
    ensures priority == Priority(str)
  {
    hide Rank;
    priority := 0;
    var i := 0;
    assert str[0..] == str;
    while i < |str|
      invariant 0 <= i <= |str| && priority >= 0
      invariant Priority(str) ==
        if Priority(str[i..]) < 0 then -1
        else if priority > Priority(str[i..]) then priority
        else Priority(str[i..])
    {
      assert str[i..][1..] == str[i + 1..] && str[i..][0] == str[i];
      var pr := Rank(str[i]);
      if pr < 0 {
        return -1;
      }
      if pr > priority {
        priority := pr;
      }
      i := i + 1;
    }
    assert str[i..] == "";
  }

  /** The fields that describe an operand and never change. */
  predicate SameOperand(a: Operand, b: Operand) {
    && a.constraint == b.constraint && a.isConst == b.isConst && a.isPlainConst == b.isPlainConst
    && a.indirect == b.indirect && a.pinned == b.pinned && a.target == b.target
  }

  ghost predicate SameOperands(a: seq<Operand>, b: seq<Operand>) {
    |a| == |b| && forall i :: 0 <= i < |a| ==> SameOperand(a[i], b[i])
  }

  /** What classification leaves for operand `i`: no register yet, except for a register variable. */
  predicate Fresh(o: Operand) {
    && !o.isMemory && !o.isRw && !o.isLlong
    && (o.reg == -1 || (0 <= o.reg < REGS && o.reg == o.pinned && o.refIndex < 0))
  }

  /** References point to earlier operands, no operand is referenced twice, and the two links belong together. */
  ghost predicate Linked(ops: seq<Operand>, nbOutputs: nat) {
    && (forall i :: 0 <= i < |ops| && ops[i].refIndex >= 0 ==>
         ops[i].refIndex < i && i >= nbOutputs && ops[ops[i].refIndex].inputIndex == i)
    && (forall k :: 0 <= k < |ops| && ops[k].inputIndex >= 0 ==>
         k < ops[k].inputIndex < |ops| && ops[ops[k].inputIndex].refIndex == k)
    && (forall i :: 0 <= i < |ops| ==> ops[i].refIndex >= -1 && ops[i].inputIndex >= -1)
  }

  /** Operands up to `n` are classified, the others only initialised. */
  ghost predicate Classified(ops: seq<Operand>, nbOutputs: nat, n: nat) {
    && Linked(ops, nbOutputs)
    && (forall i :: 0 <= i < |ops| ==> Fresh(ops[i]))
    && (forall i :: 0 <= i < n && i < |ops| ==>
         if IsReference(ops[i].constraint) then ops[i].refIndex == ops[i].target >= 0 && ops[i].priority == 5
         else ops[i].refIndex == -1 && (if ops[i].pinned >= 0 then ops[i].reg == ops[i].pinned && ops[i].priority == 1
                                        else ops[i].reg == -1 && ops[i].priority == Priority(Skip(ops[i].constraint))))
    && (forall i :: n <= i < |ops| ==> ops[i].refIndex == -1 && ops[i].inputIndex == -1 && ops[i].reg == -1)
  }

  /** A reference found: the two links are set, unless it points forward, stands on an output, or comes second. */
  lemma LinkOne(ops: seq<Operand>, nbOutputs: nat, i: nat, k: nat)
    requires Classified(ops, nbOutputs, i) && i < |ops| && IsReference(ops[i].constraint) && ops[i].target == k
    requires k < i && nbOutputs <= i && ops[k].inputIndex < 0
    ensures Classified(ops[i := ops[i].(refIndex := k, priority := 5)][k := ops[k].(inputIndex := i)], nbOutputs, i + 1)
  {
    hide IsReference, Priority, Skip;
    assert ops[i].inputIndex == -1;
    var now := ops[i := ops[i].(refIndex := k, priority := 5)][k := ops[k].(inputIndex := i)];
    forall j | 0 <= j < |ops| && now[j].refIndex >= 0
      ensures now[now[j].refIndex].inputIndex == j
    {
      if j != i {
        assert ops[ops[j].refIndex].inputIndex == j;
      }
    }
  }

  lemma ClassifyOne(ops: seq<Operand>, nbOutputs: nat, i: nat, o: Operand)
    requires Classified(ops, nbOutputs, i) && i < |ops| && !IsReference(ops[i].constraint) && SameOperand(o, ops[i])
    requires Fresh(o)
    requires o.refIndex == -1 && o.inputIndex == ops[i].inputIndex
    requires if o.pinned >= 0 then o.reg == o.pinned && o.priority == 1
             else o.reg == -1 && o.priority == Priority(Skip(o.constraint))
    ensures Classified(ops[i := o], nbOutputs, i + 1)
  {
    hide IsReference, Priority, Skip;
    var now := ops[i := o];
    assert ops[i].refIndex == -1;
    forall j | 0 <= j < |ops| && now[j].refIndex >= 0
      ensures now[now[j].refIndex].inputIndex == j
    {
      assert ops[ops[j].refIndex].inputIndex == j;
    }
    forall k | 0 <= k < |ops| && now[k].inputIndex >= 0
      ensures now[now[k].inputIndex].refIndex == k
    {
      assert ops[ops[k].inputIndex].refIndex == k;
    }
  }

  datatype Classification = Ready(ops: seq<Operand>) | Invalid

  function Initial(o: Operand): Operand {
    o.(inputIndex := -1, refIndex := -1, reg := -1, isMemory := false, isRw := false)
  }

  function Initials(ops: seq<Operand>): seq<Operand> {
    seq(|ops|, i requires 0 <= i < |ops| => Initial(ops[i]))
  }

  /** Operands from `i` on, one after the other: references linked, register variables noted, priorities computed. */
  function ClassifyFrom(ops: seq<Operand>, nbOutputs: nat, i: nat): Classification
    decreases |ops| - i
  {
    if i >= |ops| then Ready(ops)
    else
      var o := ops[i];
      if IsReference(o.constraint) then
        var k := o.target;
        if k < 0 || k >= i || i < nbOutputs || ops[k].inputIndex >= 0 then Invalid
        else ClassifyFrom(ops[i := o.(refIndex := k, priority := 5)][k := ops[k].(inputIndex := i)], nbOutputs, i + 1)
      else if o.pinned >= 0 then ClassifyFrom(ops[i := o.(priority := 1, reg := o.pinned)], nbOutputs, i + 1)
      else if Priority(Skip(o.constraint)) < 0 then Invalid
      else ClassifyFrom(ops[i := o.(priority := Priority(Skip(o.constraint)))], nbOutputs, i + 1)
  }

  /** The first two loops: fields initialised, references linked, priorities computed. False stands for an error. */
  method Classify(ops: array<Operand>, nbOutputs: nat) returns (ok: bool)
    requires forall i :: 0 <= i < ops.Length ==>
      -1 <= ops[i].pinned < REGS && ops[i].target < ops.Length && !ops[i].isLlong
    modifies ops
    ensures SameOperands(ops[..], old(ops[..]))
    ensures ok ==> Classified(ops[..], nbOutputs, ops.Length)
    ensures ClassifyFrom(Initials(old(ops[..])), nbOutputs, 0) == if ok then Ready(ops[..]) else Invalid
  {
    hide IsReference, Priority, Skip, Classified, SameOperands, Fresh;
    ghost var was := ops[..];
    InitOperands(ops);
    Initialised(ops[..], nbOutputs);
    var i := 0;
    while i < ops.Length
      invariant 0 <= i <= ops.Length && SameOperands(ops[..], was) && Classified(ops[..], nbOutputs, i)
      invariant ClassifyFrom(Initials(was), nbOutputs, 0) == ClassifyFrom(ops[..], nbOutputs, i)
    {
      ghost var now := ops[..];
      Facts(now, nbOutputs, i);
      SameAt(now, was, i);
      if IsReference(ops[i].constraint) {
        var k := ops[i].target;
        if k < 0 || k >= i || i < nbOutputs {
          return false;
        }
        if ops[k].inputIndex >= 0 {
          return false;
        }
        LinkOne(now, nbOutputs, i, k);
        ops[i] := ops[i].(refIndex := k, priority := 5);
        ops[k] := ops[k].(inputIndex := i);
        assert ops[..] == now[i := now[i].(refIndex := k, priority := 5)][k := now[k].(inputIndex := i)];
        SameTwo(now, was, i, k, ops[i], ops[k]);
      } else if ops[i].pinned >= 0 {
        ops[i] := ops[i].(priority := 1, reg := ops[i].pinned);
        FreshWith(now[i], ops[i]);
        assert ops[..] == now[i := ops[i]];
        ClassifyOne(now, nbOutputs, i, ops[i]);
        SameOne(now, was, i, ops[i]);
      } else {
        var p := ConstraintPriority(Skip(ops[i].constraint));
        if p < 0 {
          return false;
        }
        ops[i] := ops[i].(priority := p);
        FreshWith(now[i], ops[i]);
        assert ops[..] == now[i := ops[i]];
        ClassifyOne(now, nbOutputs, i, ops[i]);
        SameOne(now, was, i, ops[i]);
      }
      i := i + 1;
    }
    return true;
  }

  /** `init fields` */
  method InitOperands(ops: array<Operand>)
    requires forall i :: 0 <= i < ops.Length ==> !ops[i].isLlong
    modifies ops
    ensures SameOperands(ops[..], old(ops[..]))
    ensures forall k :: 0 <= k < ops.Length ==>
      ops[k].refIndex == -1 && ops[k].inputIndex == -1 && ops[k].reg == -1 && Fresh(ops[k])
    ensures ops[..] == Initials(old(ops[..]))
  {
    ghost var was := ops[..];
    var i := 0;
    while i < ops.Length
      invariant 0 <= i <= ops.Length
      invariant forall k :: 0 <= k < i ==> ops[k] == Initial(was[k])
      invariant forall k :: i <= k < ops.Length ==> ops[k] == was[k]
    {
      ops[i] := ops[i].(inputIndex := -1, refIndex := -1, reg := -1, isMemory := false, isRw := false);
      i := i + 1;
    }
  }

  lemma SameAt(a: seq<Operand>, b: seq<Operand>, i: nat)
    requires SameOperands(a, b) && i < |a|
    ensures |b| == |a| && SameOperand(a[i], b[i])
  {
  }

  lemma SameOne(a: seq<Operand>, b: seq<Operand>, i: nat, o: Operand)
    requires SameOperands(a, b) && i < |a| && SameOperand(o, a[i])
    ensures SameOperands(a[i := o], b)
  {
  }

  lemma SameTwo(a: seq<Operand>, b: seq<Operand>, i: nat, k: nat, o: Operand, p: Operand)
    requires SameOperands(a, b) && i < |a| && k < |a| && SameOperand(o, a[i]) && SameOperand(p, a[k])
    ensures SameOperands(a[i := o][k := p], b)
  {
  }

  lemma FreshWith(a: Operand, b: Operand)
    requires Fresh(a) && a.refIndex == -1 && a.reg == -1 && -1 <= a.pinned < REGS
    requires b == a.(priority := b.priority, reg := b.reg) && (b.reg == -1 || (b.reg >= 0 && b.reg == a.pinned))
    ensures Fresh(b)
  {
  }

  lemma Initialised(ops: seq<Operand>, nbOutputs: nat)
    requires forall i :: 0 <= i < |ops| ==>
      ops[i].refIndex == -1 && ops[i].inputIndex == -1 && ops[i].reg == -1 && Fresh(ops[i])
    ensures Classified(ops, nbOutputs, 0)
  {
  }

  lemma Facts(ops: seq<Operand>, nbOutputs: nat, i: nat)
    requires Classified(ops, nbOutputs, i) && i < |ops|
    ensures Fresh(ops[i]) && ops[i].refIndex == -1 && ops[i].inputIndex == -1 && ops[i].reg == -1
  {
    hide IsReference, Priority, Skip;
  }

  // ----- the order of allocation -----

  /** Every index below `n` exactly once. */
  ghost predicate Permutation(order: seq<nat>, n: nat) {
    && |order| == n
    && (forall i :: 0 <= i < n ==> order[i] < n)
    && forall i, j :: 0 <= i < j < n ==> order[i] != order[j]
  }

  ghost predicate SortedUpTo(order: seq<nat>, ops: seq<Operand>, n: nat) {
    forall i, j :: 0 <= i < j < |order| && i < n && order[i] < |ops| && order[j] < |ops| ==>
      ops[order[i]].priority <= ops[order[j]].priority
  }

  /** The entries behind `i`, up to `n`, have no lower priority than entry `i`. */
  ghost predicate LeastAt(order: seq<nat>, ops: seq<Operand>, i: nat, n: nat) {
    forall k :: i < k < n && k < |order| && order[i] < |ops| && order[k] < |ops| ==>
      ops[order[i]].priority <= ops[order[k]].priority
  }

  /** The exchange sort by priority. */
  method SortByPriority(ops: array<Operand>) returns (order: array<nat>)
    ensures fresh(order) && Permutation(order[..], ops.Length) && SortedUpTo(order[..], ops[..], ops.Length)
  {
    hide Permutation, SortedUpTo, LeastAt;
    var n := ops.Length;
    order := new nat[n](i => i);
    SortStart(order[..], ops[..]);
    var i := 0;
    while i < n - 1
      invariant 0 <= i <= n && (n > 0 ==> i < n) && Permutation(order[..], n) && SortedUpTo(order[..], ops[..], i)
    {
      var j := i + 1;
      LeastStart(order[..], ops[..], i);
      while j < n
        invariant i < j <= n && Permutation(order[..], n) && SortedUpTo(order[..], ops[..], i)
        invariant LeastAt(order[..], ops[..], i, j)
      {
        ghost var was := order[..];
        InRange(was, n);
        if ops[order[j]].priority < ops[order[i]].priority {
          order[i], order[j] := order[j], order[i];
          Swapped(was, order[..], ops[..], i, j);
        } else {
          LeastKept(was, ops[..], i, j);
        }
        j := j + 1;
      }
      OneMore(order[..], ops[..], i);
      i := i + 1;
    }
    SortEnd(order[..], ops[..], i);
  }

  lemma SortStart(order: seq<nat>, ops: seq<Operand>)
    requires |order| == |ops| && forall i :: 0 <= i < |ops| ==> order[i] == i
    ensures Permutation(order, |ops|) && SortedUpTo(order, ops, 0)
  {
  }

  lemma InRange(order: seq<nat>, n: nat)
    requires Permutation(order, n)
    ensures |order| == n && forall i :: 0 <= i < n ==> order[i] < n
  {
  }

  lemma LeastStart(order: seq<nat>, ops: seq<Operand>, i: nat)
    requires i < |order|
    ensures LeastAt(order, ops, i, i + 1)
  {
  }

  lemma LeastKept(order: seq<nat>, ops: seq<Operand>, i: nat, j: nat)
    requires Permutation(order, |ops|) && LeastAt(order, ops, i, j) && i < j < |ops|
    requires order[i] < |ops| && order[j] < |ops| && ops[order[i]].priority <= ops[order[j]].priority
    ensures LeastAt(order, ops, i, j + 1)
  {
  }

  lemma OneMore(order: seq<nat>, ops: seq<Operand>, i: nat)
    requires Permutation(order, |ops|) && SortedUpTo(order, ops, i) && LeastAt(order, ops, i, |ops|) && i < |ops|
    ensures SortedUpTo(order, ops, i + 1)
  {
  }

  lemma SortEnd(order: seq<nat>, ops: seq<Operand>, i: nat)
    requires Permutation(order, |ops|) && SortedUpTo(order, ops, i) && i + 1 >= |ops|
    ensures SortedUpTo(order, ops, |ops|)
  {
  }

  lemma Swapped(was: seq<nat>, now: seq<nat>, ops: seq<Operand>, i: nat, j: nat)
    requires Permutation(was, |ops|) && SortedUpTo(was, ops, i) && LeastAt(was, ops, i, j) && i < j < |ops|
    requires now == was[i := was[j]][j := was[i]] && was[i] < |ops| && was[j] < |ops|
    requires ops[was[j]].priority < ops[was[i]].priority
    ensures Permutation(now, |ops|) && SortedUpTo(now, ops, i) && LeastAt(now, ops, i, j + 1)
  {
    forall a, b | 0 <= a < b < |ops| && a < i
      ensures ops[now[a]].priority <= ops[now[b]].priority
    {
      assert now[a] == was[a];
      var c := if b == i then j else if b == j then i else b;
      assert now[b] == was[c];
    }
    forall k | i < k < j + 1
      ensures ops[now[i]].priority <= ops[now[k]].priority
    {
      assert k < j ==> now[k] == was[k];
    }
  }

  // ----- allocation -----

  /** The roles an operand asks for, modifiers aside. */
  function Mask(o: Operand, j: nat, nbOutputs: nat): Roles {
    if o.inputIndex >= 0 then BOTH else if j < nbOutputs then OUTPUT else INPUT
  }

  /** The choice for operand `j`: its own register if it is a register variable, else by its letters. */
  function Pick(o: Operand, j: nat, nbOutputs: nat, m: RegMap): Choice {
    if o.reg >= 0 then
      if Free(m, o.reg, Mask(o, j, nbOutputs)) then
        Choice(o.reg, false, false, o.isRw, Mask(o, j, nbOutputs))
      else Refused
    else Choose(o.constraint, o, j < nbOutputs, m, Mask(o, j, nbOutputs), false)
  }

  /** The operand with its choice filled in. */
  function Chosen(o: Operand, g: Choice): Operand {
    if g.Refused? then o
    else o.(reg := if g.reg >= 0 then g.reg else o.reg, isLlong := g.llong, isMemory := g.memory, isRw := g.rw)
  }

  /** Operand `j` and the one that refers to it, if any. */
  function Assign(ops: seq<Operand>, j: nat, g: Choice): (r: seq<Operand>)
    requires j < |ops|
    ensures |r| == |ops|
  {
    var o := Chosen(ops[j], g);
    var now := ops[j := o];
    if 0 <= o.inputIndex < |ops| && o.inputIndex != j then
      now[o.inputIndex := now[o.inputIndex].(reg := o.reg, isLlong := o.isLlong)] else now
  }

  datatype Progress = Done(ops: seq<Operand>, m: RegMap) | Failed

  /** The operands `order[i..]`, each served in its turn, until one cannot be. */
  function ServeFrom(ops: seq<Operand>, m: RegMap, order: seq<nat>, i: nat, nbOutputs: nat): Progress
    decreases |order| - i
  {
    if i >= |order| then Done(ops, m)
    else if order[i] >= |ops| then Failed
    else if ops[order[i]].refIndex >= 0 then ServeFrom(ops, m, order, i + 1, nbOutputs)
    else
      var g := Pick(ops[order[i]], order[i], nbOutputs, m);
      if g.Refused? then Failed else ServeFrom(Assign(ops, order[i], g), Mark(m, g), order, i + 1, nbOutputs)
  }

  /** Registers `m` starts with: clobbered ones, esp and ebp are taken for everything. */
  function Reserve(clobbered: seq<bool>): RegMap {
    seq(REGS, r requires 0 <= r < REGS =>
      if r == ESP || r == EBP || (r < |clobbered| && clobbered[r]) then BOTH else NONE)
  }

  predicate Reserved(clobbered: seq<bool>, r: int) {
    r == ESP || r == EBP || (0 <= r < |clobbered| && clobbered[r])
  }

  /** Reserved registers stay taken for everything. */
  ghost predicate KeepsReserved(m: RegMap, clobbered: seq<bool>) {
    forall r :: 0 <= r < REGS && Reserved(clobbered, r) ==> m[r] == BOTH
  }

  /**
    What operand `j`, which holds its registers for `roles`, got: never a reserved one, and each marked for these roles.
   */
  ghost predicate Holds(o: Operand, roles: Roles, m: RegMap, clobbered: seq<bool>) {
    && o.reg < REGS && (o.isLlong ==> o.reg == 0)
    && forall r :: r in RegsOf(o) ==> 0 <= r < REGS && !Reserved(clobbered, r) && Within(roles, m[r])
  }

  /**
    What the operand got goes with what it is. A register variable is in its register, any other operand in something
    a letter of its constraint stands for. Outputs are held as output, inputs as input, referenced and exclusive ones as
    both.
   */
  ghost predicate RolesFit(o: Operand, j: nat, nbOutputs: nat, roles: Roles) {
    && (o.pinned < 0 ==> SuitsItsConstraint(o, j < nbOutputs))
    && (o.pinned >= 0 ==> o.reg == o.pinned && !o.isLlong && !o.isMemory)
    && if o.isMemory then roles == INPUT
       else
         && (if j < nbOutputs then roles.output else roles.input)
         && (o.inputIndex >= 0 ==> roles == BOTH)
         && (o.pinned < 0 && Exclusive(o.constraint) ==> roles == BOTH)
  }

  /** Two operands with overlapping roles share no register. */
  predicate Separate(a: Operand, b: Operand, ra: Roles, rb: Roles) {
    Overlap(ra, rb) ==> RegsOf(a) !! RegsOf(b)
  }

  /** State after the operands of `done` were served. */
  ghost predicate Served(ops: seq<Operand>, m: RegMap, roles: seq<Roles>, clobbered: seq<bool>, nbOutputs: nat,
                         done: set<nat>) {
    && |roles| == |ops| && KeepsReserved(m, clobbered) && Linked(ops, nbOutputs)
    && (forall j :: 0 <= j < |ops| && j in done && ops[j].refIndex < 0 ==>
         Holds(ops[j], roles[j], m, clobbered) && RolesFit(ops[j], j, nbOutputs, roles[j]))
    && (forall j, k :: 0 <= j < |ops| && 0 <= k < |ops| && j != k && j in done && k in done
                       && ops[j].refIndex < 0 && ops[k].refIndex < 0 ==>
         Separate(ops[j], ops[k], roles[j], roles[k]))
    && (forall j :: 0 <= j < |ops| && j !in done && ops[j].refIndex < 0 ==>
         Fresh(ops[j]) && (ops[j].pinned >= 0 <==> ops[j].reg >= 0))
    && (forall i :: 0 <= i < |ops| && ops[i].refIndex >= 0 ==> RefFilled(ops, i, done))
  }

  /** A reference has what its target has, once that was served; a reference to a reference gets nothing. */
  predicate RefFilled(ops: seq<Operand>, i: nat, done: set<nat>) {
    i < |ops| && 0 <= ops[i].refIndex < |ops| ==>
      var t := ops[i].refIndex;
      if t in done && ops[t].refIndex < 0 then ops[i].reg == ops[t].reg && ops[i].isLlong == ops[t].isLlong
      else ops[i].reg == -1 && !ops[i].isLlong
  }

  /** An operand that is served by its letters ends up with what one of them stands for. */
  lemma ChosenSuits(o: Operand, j: nat, nbOutputs: nat, m: RegMap)
    requires o.reg == -1 && Pick(o, j, nbOutputs, m).Choice?
    ensures SuitsItsConstraint(Chosen(o, Pick(o, j, nbOutputs, m)), j < nbOutputs)
  {
    hide Choose, InVain, Free, OffersNothing, Available;
    var g := Pick(o, j, nbOutputs, m);
    var k := ChooseExact(o.constraint, o, j < nbOutputs, m, Mask(o, j, nbOutputs), false);
    var c, p := o.constraint[k], Chosen(o, g);
    assert Suits(c, o, j < nbOutputs, g.reg, g.llong, g.memory);
    assert p.reg == g.reg by {
      hide MadeAt, Best;
      SuitsBounds(c, o, j < nbOutputs, g.reg, g.llong, g.memory);
    }
    assert Suits(p.constraint[k], p, j < nbOutputs, p.reg, p.isLlong, p.isMemory);
  }

  lemma SuitsBounds(c: char, o: Operand, isOutput: bool, r: int, pair: bool, memory: bool)
    requires Suits(c, o, isOutput, r, pair, memory)
    ensures -1 <= r < REGS
  {
  }

  lemma PickFacts(o: Operand, j: nat, nbOutputs: nat, m: RegMap, clobbered: seq<bool>)
    requires Fresh(o) && (o.pinned >= 0 <==> o.reg >= 0) && KeepsReserved(m, clobbered)
    requires Pick(o, j, nbOutputs, m).Choice?
    ensures var g := Pick(o, j, nbOutputs, m);
      && RegsOf(Chosen(o, g)) == Taken(g) && (forall r :: r in Taken(g) ==> 0 <= r < REGS && Free(m, r, g.roles))
      && RolesFit(Chosen(o, g), j, nbOutputs, g.roles) && g.roles != NONE
      && Chosen(o, g).reg < REGS && (Chosen(o, g).isLlong ==> Chosen(o, g).reg == 0)
      && forall r :: r in Taken(g) ==> !Reserved(clobbered, r)
  {
    hide Choose;
    var g := Pick(o, j, nbOutputs, m);
    if o.reg < 0 {
      ChooseSafe(o.constraint, o, j < nbOutputs, m, Mask(o, j, nbOutputs), false);
      ChosenSuits(o, j, nbOutputs, m);
      if Exclusive(o.constraint) {
        ChooseExclusive(o.constraint, o, j < nbOutputs, m, Mask(o, j, nbOutputs), false);
      }
    }
    forall r | r in Taken(g)
      ensures !Reserved(clobbered, r)
    {
      assert Free(m, r, g.roles);
    }
  }

  lemma Marked(m: RegMap, g: Choice, clobbered: seq<bool>)
    requires KeepsReserved(m, clobbered)
    ensures KeepsReserved(Mark(m, g), clobbered)
    ensures forall r, roles :: 0 <= r < REGS && Within(roles, m[r]) ==> Within(roles, Mark(m, g)[r])
    ensures g.Choice? ==> forall r :: r in Taken(g) && 0 <= r < REGS ==> Within(g.roles, Mark(m, g)[r])
  {
    hide Reserved;
    assert forall r :: 0 <= r < REGS ==> Mark(m, g)[r] == if r in Taken(g) then Join(m[r], g.roles) else m[r];
  }

  lemma HoldsOn(o: Operand, roles: Roles, m: RegMap, g: Choice, clobbered: seq<bool>)
    requires KeepsReserved(m, clobbered) && Holds(o, roles, m, clobbered)
    ensures Holds(o, roles, Mark(m, g), clobbered)
  {
    hide Mark, Within, Reserved;
    Marked(m, g, clobbered);
  }

  lemma NoClash(ra: Roles, held: Roles, mine: Roles)
    requires Within(ra, held) && !Overlap(held, mine)
    ensures !Overlap(ra, mine) && !Overlap(mine, ra)
  {
  }

  /** A register free for `mine` is not among those held for overlapping roles. */
  lemma NoneShared(a: Operand, ra: Roles, m: RegMap, clobbered: seq<bool>, b: Operand, mine: Roles)
    requires Holds(a, ra, m, clobbered) && forall r :: r in RegsOf(b) ==> 0 <= r < REGS && Free(m, r, mine)
    ensures Separate(a, b, ra, mine) && Separate(b, a, mine, ra)
  {
    hide RegsOf, Reserved;
    forall r | r in RegsOf(a) && r in RegsOf(b)
      ensures !Overlap(ra, mine)
    {
      NoClash(ra, m[r], mine);
    }
  }

  /** What assigning changes. */
  lemma AssignEffect(ops: seq<Operand>, nbOutputs: nat, j: nat, g: Choice)
    requires Linked(ops, nbOutputs) && j < |ops| && ops[j].refIndex < 0
    ensures var now := Assign(ops, j, g);
      && Linked(now, nbOutputs) && now[j] == Chosen(ops[j], g) && SameOperands(now, ops)
      && (forall i :: 0 <= i < |ops| ==> now[i].refIndex == ops[i].refIndex && now[i].inputIndex == ops[i].inputIndex)
      && (forall i :: 0 <= i < |ops| && i != j && ops[i].refIndex != j ==> now[i] == ops[i])
      && (forall i :: 0 <= i < |ops| && ops[i].refIndex == j ==>
           now[i].reg == now[j].reg && now[i].isLlong == now[j].isLlong)
  {
    hide Chosen;
    ChosenKeeps(ops[j], g);
    var now := Assign(ops, j, g);
    var t := ops[j].inputIndex;
    forall i | 0 <= i < |ops| && ops[i].refIndex == j
      ensures i == t
    {
      assert ops[ops[i].refIndex].inputIndex == i;
    }
    assert t >= 0 ==> ops[t].refIndex == j && t != j;
    LinkedSame(ops, now, nbOutputs);
  }

  lemma ChosenKeeps(o: Operand, g: Choice)
    ensures SameOperand(Chosen(o, g), o) && Chosen(o, g).refIndex == o.refIndex
    ensures Chosen(o, g).inputIndex == o.inputIndex
  {
  }

  lemma LinkedSame(a: seq<Operand>, b: seq<Operand>, nbOutputs: nat)
    requires Linked(a, nbOutputs) && |a| == |b|
    requires forall i :: 0 <= i < |a| ==> b[i].refIndex == a[i].refIndex && b[i].inputIndex == a[i].inputIndex
    ensures Linked(b, nbOutputs)
  {
    forall i | 0 <= i < |b| && b[i].refIndex >= 0
      ensures b[i].refIndex < i && i >= nbOutputs && b[b[i].refIndex].inputIndex == i
    {
      assert a[a[i].refIndex].inputIndex == i;
    }
    forall k | 0 <= k < |b| && b[k].inputIndex >= 0
      ensures k < b[k].inputIndex < |b| && b[b[k].inputIndex].refIndex == k
    {
      assert a[a[k].inputIndex].refIndex == k;
    }
  }

  lemma RefsOn(ops: seq<Operand>, now: seq<Operand>, nbOutputs: nat, j: nat, done: set<nat>, i: nat)
    requires Linked(ops, nbOutputs) && j < |ops| && |now| == |ops| && ops[j].refIndex < 0 && j !in done && i < |ops|
    requires ops[i].refIndex >= 0
    requires RefFilled(ops, i, done)
    requires forall k :: 0 <= k < |ops| ==> now[k].refIndex == ops[k].refIndex && now[k].inputIndex == ops[k].inputIndex
    requires forall k :: 0 <= k < |ops| && k != j && ops[k].refIndex != j ==> now[k] == ops[k]
    requires forall k :: 0 <= k < |ops| && ops[k].refIndex == j ==>
      now[k].reg == now[j].reg && now[k].isLlong == now[j].isLlong
    ensures RefFilled(now, i, done + {j})
  {
    var t := ops[i].refIndex;
    assert ops[t].inputIndex == i;
    if t != j && ops[t].refIndex < 0 {
      assert now[t] == ops[t];
    }
  }

  /** One turn of the allocation loop. */
  lemma ServeOne(ops: seq<Operand>, m: RegMap, roles: seq<Roles>, clobbered: seq<bool>, nbOutputs: nat, done: set<nat>,
                 j: nat)
    requires Served(ops, m, roles, clobbered, nbOutputs, done) && j < |ops| && j !in done && ops[j].refIndex < 0
    requires Pick(ops[j], j, nbOutputs, m).Choice?
    ensures var g := Pick(ops[j], j, nbOutputs, m);
      Served(Assign(ops, j, g), Mark(m, g), roles[j := g.roles], clobbered, nbOutputs, done + {j})
  {
    hide Pick, Chosen, Fresh, Holds, RolesFit, Separate, KeepsReserved, Linked, RefFilled, RegsOf, Mark, Free, Taken,
      Assign, SameOperands;
    var g := Pick(ops[j], j, nbOutputs, m);
    PickFacts(ops[j], j, nbOutputs, m, clobbered);
    Marked(m, g, clobbered);
    AssignEffect(ops, nbOutputs, j, g);
    var now, held := Assign(ops, j, g), roles[j := g.roles];
    NewHolds(Chosen(ops[j], g), g, m, clobbered);
    forall k | 0 <= k < |ops| && k in done + {j} && now[k].refIndex < 0
      ensures Holds(now[k], held[k], Mark(m, g), clobbered) && RolesFit(now[k], k, nbOutputs, held[k])
    {
      if k != j {
        HoldsOn(ops[k], roles[k], m, g, clobbered);
      }
    }
    forall a, b | 0 <= a < |ops| && 0 <= b < |ops| && a != b && a in done + {j} && b in done + {j} &&
      now[a].refIndex < 0 && now[b].refIndex < 0
      ensures Separate(now[a], now[b], held[a], held[b])
    {
      if a == j {
        NoneShared(ops[b], roles[b], m, clobbered, now[j], g.roles);
      } else if b == j {
        NoneShared(ops[a], roles[a], m, clobbered, now[j], g.roles);
      }
    }
    forall i | 0 <= i < |ops| && now[i].refIndex >= 0
      ensures RefFilled(now, i, done + {j})
    {
      RefsOn(ops, now, nbOutputs, j, done, i);
    }
  }

  lemma NewHolds(o: Operand, g: Choice, m: RegMap, clobbered: seq<bool>)
    requires KeepsReserved(m, clobbered) && g.Choice? && RegsOf(o) == Taken(g) && o.reg < REGS
    requires (o.isLlong ==> o.reg == 0)
    requires forall r :: r in Taken(g) ==> 0 <= r < REGS && !Reserved(clobbered, r)
    ensures Holds(o, g.roles, Mark(m, g), clobbered)
  {
    hide Mark, Taken, RegsOf, Reserved, Within;
    Marked(m, g, clobbered);
  }

  lemma SkipReference(ops: seq<Operand>, m: RegMap, roles: seq<Roles>, clobbered: seq<bool>, nbOutputs: nat,
                      done: set<nat>, j: nat, now: set<nat>)
    requires Served(ops, m, roles, clobbered, nbOutputs, done) && j < |ops| && j !in done && ops[j].refIndex >= 0
    requires now == done + {j}
    ensures Served(ops, m, roles, clobbered, nbOutputs, now)
  {
    hide Fresh, Holds, RolesFit, Separate, KeepsReserved, Linked, RegsOf;
    forall i | 0 <= i < |ops| && ops[i].refIndex >= 0
      ensures RefFilled(ops, i, now)
    {
      assert RefFilled(ops, i, done);
    }
    hide RefFilled;
    forall k | 0 <= k < |ops| && ops[k].refIndex < 0
      ensures k in now <==> k in done
    {
    }
    forall a, b | 0 <= a < |ops| && 0 <= b < |ops| && a != b && a in now && b in now && ops[a].refIndex < 0 &&
      ops[b].refIndex < 0
      ensures Separate(ops[a], ops[b], roles[a], roles[b])
    {
      assert a in done && b in done;
    }
  }

  lemma ServeNone(ops: seq<Operand>, clobbered: seq<bool>, nbOutputs: nat)
    requires Classified(ops, nbOutputs, |ops|)
    ensures Served(ops, Reserve(clobbered), seq(|ops|, _ => NONE), clobbered, nbOutputs, {})
  {
    hide IsReference, Priority, Skip;
    forall i | 0 <= i < |ops|
      ensures Fresh(ops[i]) && (ops[i].refIndex < 0 ==> (ops[i].pinned >= 0 <==> ops[i].reg >= 0))
      ensures ops[i].refIndex >= 0 ==> RefFilled(ops, i, {})
    {
    }
    hide Fresh, RefFilled;
    ReserveKeeps(clobbered);
  }

  lemma ReserveKeeps(clobbered: seq<bool>)
    ensures KeepsReserved(Reserve(clobbered), clobbered)
  {
  }

  // ----- the loops as methods -----

  /** Lowest free register of a range. */
  method FindFree(regs: array<Roles>, mask: Roles, n: nat) returns (r: int)
    requires regs.Length == REGS && n <= REGS
    ensures r == FirstFree(regs[..], mask, 0, n)
  {
    var i := 0;
    while i < n
      invariant 0 <= i <= n && FirstFree(regs[..], mask, 0, n) == FirstFree(regs[..], mask, i, n)
    {
      if !Overlap(regs[i], mask) {
        return i;
      }
      i := i + 1;
    }
    return -1;
  }

  /** The switch of the allocation loop for one letter. */
  method TryLetter(c: char, o: Operand, isOutput: bool, regs: array<Roles>, mask: Roles, rw: bool) returns (g: Choice)
    requires regs.Length == REGS
    ensures g == Letter(c, o, isOutput, regs[..], mask, rw)
  {
    hide FirstFree;
    if c == 'A' {
      g := if Overlap(regs[0], mask) || Overlap(regs[2], mask) then Refused else Choice(0, true, false, rw, mask);
    } else if Named(c) >= 0 {
      g := if Overlap(regs[Named(c)], mask) then Refused else InReg(Named(c), mask, rw);
    } else if c == 'q' {
      var r := FindFree(regs, mask, 4);
      g := InReg(r, mask, rw);
    } else if c == 'r' || c == 'R' || c == 'p' {
      var r := FindFree(regs, mask, 8);
      g := InReg(r, mask, rw);
    } else if c == 'e' || c == 'i' {
      g := if o.isConst then Choice(-1, false, false, rw, mask) else Refused;
    } else if c == 'I' || c == 'N' || c == 'M' {
      g := if o.isPlainConst then Choice(-1, false, false, rw, mask) else Refused;
    } else if (isOutput || c == 'm') && o.indirect {
      var r := FindFree(regs, INPUT, 8);
      g := if r < 0 then Refused else Choice(r, false, true, rw, INPUT);
    } else {
      g := Choice(-1, false, false, rw, mask);
    }
  }

  /** The loop over the constraint string. */
  method ChooseByLetters(o: Operand, isOutput: bool, regs: array<Roles>, mask: Roles) returns (g: Choice)
    requires regs.Length == REGS
    ensures g == Choose(o.constraint, o, isOutput, regs[..], mask, false)
  {
    hide Letter, IsLetter;
    var s, roles, rw := o.constraint, mask, false;
    while s != ""
      invariant Choose(o.constraint, o, isOutput, regs[..], mask, false) == Choose(s, o, isOutput, regs[..], roles, rw)
      decreases |s|
    {
      var c := s[0];
      if c == '+' || c == '&' {
        if !isOutput {
          return Refused;
        }
        rw := rw || c == '+';
        roles := BOTH;
      } else if c != '=' {
        if !IsLetter(c) {
          return Refused;
        }
        g := TryLetter(c, o, isOutput, regs, roles, rw);
        if g.Choice? {
          return;
        }
      }
      s := s[1..];
    }
    return Refused;
  }

  /** `regs_allocated[reg] |= reg_mask` */
  method MarkTaken(regs: array<Roles>, g: Choice)
    requires regs.Length == REGS && g.Choice? && g.reg < REGS && (g.llong ==> g.reg == 0)
    modifies regs
    ensures regs[..] == Mark(old(regs[..]), g)
  {
    ghost var was := regs[..];
    if g.reg >= 0 {
      regs[g.reg] := Join(regs[g.reg], g.roles);
      if g.llong {
        regs[2] := Join(regs[2], g.roles);
      }
    }
    assert forall r :: 0 <= r < REGS ==> regs[r] == Mark(was, g)[r];
  }

  /**
    The allocation loop, in order of priority. False stands for an error. `roles` says for every operand
    that is no reference what its registers are held for.
   */
  method Allocate(ops: array<Operand>, order: array<nat>, regs: array<Roles>, nbOutputs: nat,
                  ghost clobbered: seq<bool>)
    returns (ok: bool, ghost roles: seq<Roles>)
    requires Classified(ops[..], nbOutputs, ops.Length) && Permutation(order[..], ops.Length)
    requires regs.Length == REGS && regs[..] == Reserve(clobbered)
    modifies ops, regs
    ensures SameOperands(ops[..], old(ops[..]))
    ensures ok ==> Served(ops[..], regs[..], roles, clobbered, nbOutputs, Indices(ops.Length))
    ensures ServeFrom(old(ops[..]), old(regs[..]), order[..], 0, nbOutputs) ==
      if ok then Done(ops[..], regs[..]) else Failed
    ensures SameLinks(ops[..], old(ops[..]))
  {
    hide Classified, Permutation, Served, Pick, Mark, Assign, SameOperands, Reserve;
    roles := seq(ops.Length, _ => NONE);
    ServeNone(ops[..], clobbered, nbOutputs);
    SameSelf(ops[..]);
    FrontNone(order[..]);
    var i := 0;
    while i < ops.Length
      invariant 0 <= i <= ops.Length && SameOperands(ops[..], old(ops[..])) && Permutation(order[..], ops.Length)
      invariant Served(ops[..], regs[..], roles, clobbered, nbOutputs, Front(order[..], i))
      invariant ServeFrom(old(ops[..]), old(regs[..]), order[..], 0, nbOutputs) ==
        ServeFrom(ops[..], regs[..], order[..], i, nbOutputs)
      invariant SameLinks(ops[..], old(ops[..]))
    {
      ghost var was, m := ops[..], regs[..];
      InRange(order[..], ops.Length);
      NextIndex(order[..], i, ops.Length);
      ServedLinked(was, m, roles, clobbered, nbOutputs, Front(order[..], i));
      var j := order[i];
      if ops[j].refIndex < 0 {
        var g := ServeOperand(ops, regs, nbOutputs, j);
        if g.Refused? {
          return false, roles;
        }
        ServeOne(was, m, roles, clobbered, nbOutputs, Front(order[..], i), j);
        AssignEffect(was, nbOutputs, j, g);
        SameChain(ops[..], was, old(ops[..]));
        roles := roles[j := g.roles];
      } else {
        SkipReference(was, m, roles, clobbered, nbOutputs, Front(order[..], i), j, Front(order[..], i + 1));
      }
      i := i + 1;
    }
    AllIndices(order[..], ops.Length);
    InRange(order[..], ops.Length);
    return true, roles;
  }

  /** One operand that is no reference: its register, and the same for the operand that refers to it. */
  method ServeOperand(ops: array<Operand>, regs: array<Roles>, nbOutputs: nat, j: nat) returns (g: Choice)
    requires j < ops.Length && regs.Length == REGS && Linked(ops[..], nbOutputs) && ops[j].reg < REGS
    modifies ops, regs
    ensures g == Pick(old(ops[..])[j], j, nbOutputs, old(regs[..]))
    ensures g.Refused? ==> ops[..] == old(ops[..])
    ensures g.Choice? ==> ops[..] == Assign(old(ops[..]), j, g) && regs[..] == Mark(old(regs[..]), g)
  {
    hide Choose, Mark;
    var o, mask := ops[j], Mask(ops[j], j, nbOutputs);
    assert ops[..][j] == ops[j];
    if o.reg >= 0 {
      if Overlap(regs[o.reg], mask) {
        return Refused;
      }
      g := Choice(o.reg, false, false, o.isRw, mask);
    } else {
      g := ChooseByLetters(o, j < nbOutputs, regs, mask);
      if g.Refused? {
        return;
      }
      ChooseSafe(o.constraint, o, j < nbOutputs, regs[..], mask, false);
    }
    ghost var was := ops[..];
    MarkTaken(regs, g);
    ops[j] := Chosen(o, g);
    if ops[j].inputIndex >= 0 {
      assert was[was[j].inputIndex].refIndex == j;
      var t := ops[j].inputIndex;
      ops[t] := ops[t].(reg := ops[j].reg, isLlong := ops[j].isLlong);
    }
    assert ops[..] == Assign(was, j, g);
  }

  function Indices(n: nat): (s: set<nat>)
    ensures forall i: nat :: i in s <==> i < n
  {
    if n == 0 then {} else Indices(n - 1) + {n - 1}
  }

  function Elements(s: seq<nat>): set<nat> {
    set k | k in s
  }

  function Front(order: seq<nat>, i: nat): set<nat> {
    if i <= |order| then Elements(order[..i]) else {}
  }

  lemma FrontNone(order: seq<nat>)
    ensures Front(order, 0) == {}
  {
  }

  lemma NextIndex(order: seq<nat>, i: nat, n: nat)
    requires Permutation(order, n) && i < n
    ensures order[i] !in Front(order, i) && Front(order, i + 1) == Front(order, i) + {order[i]}
  {
    assert order[..i + 1] == order[..i] + [order[i]];
    forall k | 0 <= k < i
      ensures order[..i][k] != order[i]
    {
      assert order[k] != order[i];
    }
  }

  lemma SameSelf(a: seq<Operand>)
    ensures SameOperands(a, a)
  {
  }

  lemma SameChain(a: seq<Operand>, b: seq<Operand>, c: seq<Operand>)
    requires SameOperands(a, b) && SameOperands(b, c)
    ensures SameOperands(a, c)
  {
  }

  lemma ServedLinked(ops: seq<Operand>, m: RegMap, roles: seq<Roles>, clobbered: seq<bool>, nbOutputs: nat,
                     done: set<nat>)
    requires Served(ops, m, roles, clobbered, nbOutputs, done)
    ensures Linked(ops, nbOutputs) && |roles| == |ops|
    ensures forall j :: 0 <= j < |ops| && j !in done && ops[j].refIndex < 0 ==> ops[j].reg < REGS
  {
  }

  /** A sequence of `n` different indices below `n` has them all. */
  lemma AllIndices(order: seq<nat>, n: nat)
    requires Permutation(order, n)
    ensures Front(order, n) == Indices(n)
  {
    CountFront(order, n, n);
    assert order[..n] == order;
    assert Front(order, n) <= Indices(n);
    CountIndices(n);
    SameSize(Front(order, n), Indices(n));
  }

  lemma {:induction false} CountFront(order: seq<nat>, i: nat, n: nat)
    requires Permutation(order, n) && i <= n
    ensures |Front(order, i)| == i
  {
    hide Front, Permutation;
    if i == 0 {
      FrontNone(order);
    } else {
      CountFront(order, i - 1, n);
      InRange(order, n);
      NextIndex(order, i - 1, n);
    }
  }

  lemma {:induction false} CountIndices(n: nat)
    ensures |Indices(n)| == n
  {
    if n > 0 {
      CountIndices(n - 1);
    }
  }

  lemma SameSize(a: set<nat>, b: set<nat>)
    requires a <= b && |a| == |b|
    ensures a == b
  {
    assert b == a + (b - a);
    assert |b| == |a| + |b - a|;
  }

  // ----- the whole assignment -----

  /** The operand needs a register to reach its memory through after the statement. */
  predicate NeedsReload(o: Operand) {
    o.reg >= 0 && o.indirect && !o.isMemory
  }

  predicate AnyReload(ops: seq<Operand>) {
    exists i :: 0 <= i < |ops| && NeedsReload(ops[i])
  }

  lemma NeedsReloadIs(ops: seq<Operand>)
    ensures AnyReload(ops) <==> exists i :: 0 <= i < |ops| && ops[i].reg >= 0 && ops[i].indirect && !ops[i].isMemory
  {
    if i :| 0 <= i < |ops| && ops[i].reg >= 0 && ops[i].indirect && !ops[i].isMemory {
      assert NeedsReload(ops[i]);
    }
  }

  /** The lowest register no output is in, if one is needed. */
  function Reload(ops: seq<Operand>, m: RegMap): (r: int)
    ensures -1 <= r < REGS
  {
    if AnyReload(ops) then FirstFree(m, OUTPUT, 0, 8) else -1
  }

  /** `*pout_reg`: a register no output is in; -1 when nothing needs it. */
  method ReloadRegister(ops: array<Operand>, regs: array<Roles>) returns (ok: bool, reg: int)
    requires regs.Length == REGS
    ensures reg == Reload(ops[..], regs[..]) && ok == (AnyReload(ops[..]) ==> reg >= 0)
    ensures reg >= 0 ==> !regs[reg].output
  {
    var i := 0;
    while i < ops.Length
      invariant 0 <= i <= ops.Length && forall k :: 0 <= k < i ==> !NeedsReload(ops[k])
    {
      if NeedsReload(ops[i]) {
        var r := FindFree(regs, OUTPUT, 8);
        assert NeedsReload(ops[..][i]);
        return r >= 0, r;
      }
      i := i + 1;
    }
    return true, -1;
  }

  /** The operand whose constraint decides the register of operand `i`. */
  function Root(ops: seq<Operand>, i: nat): nat {
    if i < |ops| && 0 <= ops[i].refIndex then ops[i].refIndex else i
  }

  /** What a successful run guarantees about operands, their roles and the reload register. */
  ghost predicate Sound(ops: seq<Operand>, roles: seq<Roles>, clobbered: seq<bool>, nbOutputs: nat, outReg: int) {
    && |roles| == |ops| && Linked(ops, nbOutputs)
    && (forall i :: 0 <= i < |ops| ==> forall r :: r in RegsOf(ops[i]) ==> 0 <= r < REGS && !Reserved(clobbered, r))
    && (forall i :: 0 <= i < |ops| && ops[i].refIndex < 0 ==> RolesFit(ops[i], i, nbOutputs, roles[i]))
    && (forall i, j :: 0 <= i < |ops| && 0 <= j < |ops| ==> Compatible(ops, roles, i, j))
    && (forall i :: 0 <= i < |ops| && ops[i].refIndex >= 0 ==> RefFilled(ops, i, Indices(|ops|)))
    && (outReg >= 0 ==> outReg < REGS && !Reserved(clobbered, outReg))
    && (outReg >= 0 ==> forall i :: 0 <= i < |ops| && ops[i].refIndex < 0 && roles[i].output ==>
         outReg !in RegsOf(ops[i]))
  }

  /** Operands with overlapping roles share no register, unless one is a reference to the other. */
  predicate Compatible(ops: seq<Operand>, roles: seq<Roles>, i: nat, j: nat) {
    var a, b := Root(ops, i), Root(ops, j);
    i < |ops| && j < |ops| && a < |roles| && b < |roles| && a != b && Overlap(roles[a], roles[b]) ==>
      RegsOf(ops[i]) !! RegsOf(ops[j])
  }

  /** The registers of an operand are those of its root, or none. */
  lemma RootRegs(ops: seq<Operand>, m: RegMap, roles: seq<Roles>, clobbered: seq<bool>, nbOutputs: nat, i: nat)
    requires Served(ops, m, roles, clobbered, nbOutputs, Indices(|ops|)) && i < |ops|
    ensures Root(ops, i) < |ops|
    ensures RegsOf(ops[i]) == {} || (RegsOf(ops[i]) == RegsOf(ops[Root(ops, i)]) && ops[Root(ops, i)].refIndex < 0)
  {
    hide Holds, RolesFit, Separate, Fresh, KeepsReserved;
    if ops[i].refIndex >= 0 {
      assert RefFilled(ops, i, Indices(|ops|));
    }
  }

  lemma ServedCompatible(ops: seq<Operand>, m: RegMap, roles: seq<Roles>, clobbered: seq<bool>, nbOutputs: nat, i: nat,
                         j: nat)
    requires Served(ops, m, roles, clobbered, nbOutputs, Indices(|ops|)) && i < |ops| && j < |ops|
    ensures Compatible(ops, roles, i, j)
  {
    hide Holds, RolesFit, Fresh, KeepsReserved, RegsOf, RefFilled, Overlap, Linked;
    RootRegs(ops, m, roles, clobbered, nbOutputs, i);
    RootRegs(ops, m, roles, clobbered, nbOutputs, j);
    var a, b := Root(ops, i), Root(ops, j);
    if a != b && ops[a].refIndex < 0 && ops[b].refIndex < 0 {
      assert Separate(ops[a], ops[b], roles[a], roles[b]);
    }
  }

  lemma ServedSound(ops: seq<Operand>, m: RegMap, roles: seq<Roles>, clobbered: seq<bool>, nbOutputs: nat, outReg: int)
    requires Served(ops, m, roles, clobbered, nbOutputs, Indices(|ops|))
    requires outReg < REGS && (outReg >= 0 ==> !m[outReg].output)
    ensures Sound(ops, roles, clobbered, nbOutputs, outReg)
  {
    hide RolesFit, Separate, Fresh, RegsOf, RefFilled, Linked, Compatible, Reserved, Root;
    forall i | 0 <= i < |ops|
      ensures forall r :: r in RegsOf(ops[i]) ==> 0 <= r < REGS && !Reserved(clobbered, r)
    {
      RootRegs(ops, m, roles, clobbered, nbOutputs, i);
      if ops[Root(ops, i)].refIndex < 0 {
        assert Holds(ops[Root(ops, i)], roles[Root(ops, i)], m, clobbered);
      }
    }
    forall i, j | 0 <= i < |ops| && 0 <= j < |ops|
      ensures Compatible(ops, roles, i, j)
    {
      ServedCompatible(ops, m, roles, clobbered, nbOutputs, i, j);
    }
    forall i | 0 <= i < |ops| && ops[i].refIndex < 0 && roles[i].output && outReg >= 0
      ensures outReg !in RegsOf(ops[i])
    {
      assert Holds(ops[i], roles[i], m, clobbered);
    }
  }

  /** What the function returns and leaves, for some order that is sorted by priority. */
  ghost predicate Computed(was: seq<Operand>, nbOutputs: nat, clobbered: seq<bool>, order: seq<nat>, ok: bool,
                           now: seq<Operand>, outReg: int) {
    match ClassifyFrom(Initials(was), nbOutputs, 0)
    case Invalid => !ok
    case Ready(ops) =>
      && Permutation(order, |ops|) && SortedUpTo(order, ops, |ops|)
      && match ServeFrom(ops, Reserve(clobbered), order, 0, nbOutputs)
         case Failed => !ok
         case Done(served, m) =>
           ok == (AnyReload(served) ==> Reload(served, m) >= 0) && now == served && outReg == Reload(served, m)
  }

  /**
    `asm_compute_constraints`. False stands for an error; after success the order was a permutation sorted by
    priority and the assignment is sound.
   */
  method ComputeConstraints(ops: array<Operand>, nbOutputs: nat, clobbered: array<bool>)
    returns (ok: bool, outReg: int, ghost roles: seq<Roles>, ghost sorted: seq<nat>)
    requires clobbered.Length == REGS
    requires forall i :: 0 <= i < ops.Length ==>
      -1 <= ops[i].pinned < REGS && ops[i].target < ops.Length && !ops[i].isLlong
    modifies ops
    ensures SameOperands(ops[..], old(ops[..]))
    ensures ok ==> Sound(ops[..], roles, clobbered[..], nbOutputs, outReg)
    ensures ok ==> forall i :: 0 <= i < ops.Length ==>
      ops[i].refIndex == if Refers(ops[i].constraint) then ops[i].target else -1
    ensures ok ==> (outReg >= 0 <==>
      exists i :: 0 <= i < ops.Length && ops[i].reg >= 0 && ops[i].indirect && !ops[i].isMemory)
    ensures Computed(old(ops[..]), nbOutputs, clobbered[..], sorted, ok, ops[..], outReg)
  {
    hide Classified, Permutation, Served, SameOperands, Sound, AnyReload, SortedUpTo, SameLinks, Refers, Fresh,
      ClassifyFrom, ServeFrom,
      Initials;
    outReg, roles, sorted := -1, [], [];
    ghost var was := ops[..];
    ok := Classify(ops, nbOutputs);
    if !ok {
      return;
    }
    RightLinks(ops[..], nbOutputs);
    var order := SortByPriority(ops);
    ghost var classified := ops[..];
    sorted := order[..];
    var regs := new Roles[REGS](_ => NONE);
    var i := 0;
    while i < REGS
      invariant ops[..] == classified && order[..] == sorted
      invariant 0 <= i <= REGS && forall k :: 0 <= k < i ==> regs[k] == if clobbered[k] then BOTH else NONE
    {
      regs[i] := if clobbered[i] then BOTH else NONE;
      i := i + 1;
    }
    regs[ESP] := BOTH;
    regs[EBP] := BOTH;
    assert regs[..] == Reserve(clobbered[..]);
    ok, roles := Allocate(ops, order, regs, nbOutputs, clobbered[..]);
    SameChain(ops[..], classified, was);
    if !ok {
      return;
    }
    LinksOn(ops[..], classified);
    NeedsReloadIs(ops[..]);
    ok, outReg := ReloadRegister(ops, regs);
    if ok {
      ServedSound(ops[..], regs[..], roles, clobbered[..], nbOutputs, outReg);
    }
  }

  /**
    A register variable is not served by its letters, so its modifiers go unseen: an early-clobber or read-write
    output in a register variable leaves its register to the inputs, unless an input refers to it.
   */
  lemma PinnedSharesIff(o: Operand, j: nat, nbOutputs: nat, m: RegMap)
    requires 0 <= o.reg < REGS && j < nbOutputs && Exclusive(o.constraint) && m[o.reg] == NONE
    ensures var g := Pick(o, j, nbOutputs, m);
      g.Choice? && (Free(Mark(m, g), o.reg, INPUT) <==> o.inputIndex < 0)
  {
  }

  /** An operand given by its constraint and its register variable, as the parser hands it over. */
  function Plain(constraint: string, pinned: int): Operand {
    Operand(constraint, false, false, false, pinned, -1, -1, -1, -1, false, false, false, 0)
  }

  /** "+r" in a register variable that is ebx, and an input that wants ebx. */
  function PinnedPair(): seq<Operand> {
    [Plain("+r", 3), Plain("b", -1)]
  }

  lemma PairClassified()
    ensures ClassifyFrom(Initials(PinnedPair()), 1, 0) ==
      Ready([Plain("+r", 3).(priority := 1, reg := 3), Plain("b", -1).(priority := 1)])
  {
    var a, b := Plain("+r", 3), Plain("b", -1);
    assert Initials(PinnedPair()) == [a, b];
    assert Skip("+r") == "r" by {
      assert "+r"[1..] == "r";
    }
    assert Priority("b") == 1 by {
      assert "b"[1..] == "";
    }
    var a1, b1 := a.(priority := 1, reg := 3), b.(priority := 1);
    assert [a, b][0 := a1] == [a1, b] && [a1, b][1 := b1] == [a1, b1];
    assert ClassifyFrom([a1, b], 1, 1) == ClassifyFrom([a1, b1], 1, 2);
  }

  /** Such a statement: the call succeeds, and the read-write output and the unrelated input are both in ebx. */
  lemma PinnedShares(clobbered: seq<bool>, order: seq<nat>, ok: bool, now: seq<Operand>, outReg: int)
    requires |clobbered| == REGS && !clobbered[3] && Computed(PinnedPair(), 1, clobbered, order, ok, now, outReg)
    ensures ok && |now| == 2 && now[0].reg == now[1].reg == 3 && Exclusive(now[0].constraint)
  {
    PairClassified();
    var m := Reserve(clobbered);
    assert m[3] == NONE;
    PairServed(m, order);
  }

  lemma PickOutput(k: RegMap)
    requires !k[3].output
    ensures var a, g := Plain("+r", 3).(priority := 1, reg := 3), Choice(3, false, false, false, OUTPUT);
      && Pick(a, 0, 1, k) == g && Mark(k, g)[3].input == k[3].input
      && forall b: Operand :: Assign([a, b], 0, g) == [a, b]
  {
  }

  lemma PickInput(k: RegMap)
    requires !k[3].input
    ensures var b, h := Plain("b", -1).(priority := 1), Choice(3, false, false, false, INPUT);
      && Pick(b, 1, 1, k) == h && Mark(k, h)[3].output == k[3].output
      && forall a: Operand :: Assign([a, b], 1, h) == [a, b.(reg := 3)]
  {
    var b := Plain("b", -1).(priority := 1);
    assert Choose("b", b, false, k, INPUT, false) == Letter('b', b, false, k, INPUT, false);
  }

  /** Whichever of the two comes first, both get ebx. */
  lemma PairServed(m: RegMap, order: seq<nat>)
    requires m[3] == NONE && Permutation(order, 2)
    ensures var a, b := Plain("+r", 3).(priority := 1, reg := 3), Plain("b", -1).(priority := 1);
      var p := ServeFrom([a, b], m, order, 0, 1);
      p.Done? && p.ops == [a, b.(reg := 3)] && !AnyReload(p.ops)
  {
    hide Pick, Mark, Assign;
    var a, b := Plain("+r", 3).(priority := 1, reg := 3), Plain("b", -1).(priority := 1);
    var g, h := Choice(3, false, false, false, OUTPUT), Choice(3, false, false, false, INPUT);
    PickOutput(m);
    PickInput(m);
    PickOutput(Mark(m, h));
    PickInput(Mark(m, g));
    if order == [0, 1] {
      LastServed([a, b], Mark(m, g), order);
    } else {
      assert order == [1, 0];
      LastServed([a, b.(reg := 3)], Mark(m, h), order);
    }
  }

  /** The second of two turns. */
  lemma LastServed(ops: seq<Operand>, m: RegMap, order: seq<nat>)
    requires |ops| == 2 && Permutation(order, 2) && ops[order[1]].refIndex < 0
    ensures ServeFrom(ops, m, order, 1, 1) == var g := Pick(ops[order[1]], order[1], 1, m);
      if g.Refused? then Failed else Done(Assign(ops, order[1], g), Mark(m, g))
  {
    hide Pick, Mark, Assign;
  }
}
