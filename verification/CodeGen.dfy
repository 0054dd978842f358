/** The emitters of the i386 back end and the two places where pending conditions become code: `gtst` and `load`. */
module CodeGen {
  import opened Bytes
  import opened JumpList
  import opened Lowering

  /** The bytes `o` emits for `c`: low byte first, up to the highest byte that is not 0. */
  function Opcode(c: u32): seq<byte>
    decreases c
  {
    if c == 0 then [] else [c % 0x100] + Opcode(c / 0x100)
  }

  lemma OneByte(c: u32)
    requires 0 < c < 0x100
    ensures Opcode(c) == [c]
  {
    assert Opcode(0) == [];
  }

  lemma TwoBytes(lo: byte, hi: byte)
    requires hi != 0
    ensures Opcode(lo + 0x100 * hi) == [lo, hi]
  {
    OneByte(hi);
    assert (lo + 0x100 * hi) % 0x100 == lo && (lo + 0x100 * hi) / 0x100 == hi;
  }

  lemma ApartParts(a: seq<nat>, b: seq<nat>)
    requires Apart(a + b)
    ensures Apart(a) && Apart(b) && forall s :: s in a ==> s !in b
  {
    assert forall i :: 0 <= i < |a| ==> (a + b)[i] == a[i];
    assert forall j :: 0 <= j < |b| ==> (a + b)[|a| + j] == b[j];
    forall i, j | 0 <= i < |a| && 0 <= j < |b|
      ensures a[i] != b[j]
    {
      assert (a + b)[i] == a[i] && (a + b)[|a| + j] == b[j];
    }
  }

  /** Binding the slots of `a` leaves a list that shares no byte with them. */
  lemma OtherListKept(c: Code, c': Code, a: seq<nat>, to: nat, t: nat, b: seq<nat>)
    requires Bound(c, c', a, to) && IsList(c, t, b)
    requires forall i, j :: 0 <= i < |a| && 0 <= j < |b| ==> a[i] + 4 <= b[j] || b[j] + 4 <= a[i]
    ensures IsList(c', t, b)
  {
    forall j, k | 0 <= j < |b| && 0 <= k < |c| && Covers(b[j], k)
      ensures c'[k] == c[k]
    {
      assert Outside(a, k);
    }
    ListFrame(c, c', t, b);
  }

  class Section {
    var code: Code
    var nocode: bool

    constructor ()
      ensures code == [] && !nocode
    {
      code, nocode := [], false;
    }

    /** `g` */
    method G(c: byte)
      modifies this`code
      ensures code == if nocode then old(code) else old(code) + [c]
    {
      if nocode {
        return;
      }
      code := code + [c];
    }

    /** `o` */
    method O(c: u32)
      modifies this`code
      ensures code == if nocode then old(code) else old(code) + Opcode(c)
    {
      var rest := c;
      while rest != 0
        invariant nocode ==> code == old(code)
        invariant !nocode ==> code + Opcode(rest) == old(code) + Opcode(c)
        decreases rest
      {
        ghost var before := code;
        G(rest % 0x100);
        assert Opcode(rest) == [rest % 0x100] + Opcode(rest / 0x100);
        assert before + ([rest % 0x100] + Opcode(rest / 0x100)) == before + [rest % 0x100] + Opcode(rest / 0x100);
        rest := rest / 0x100;
      }
      assert code + Opcode(0) == code;
    }

    /** `gen_le32` */
    method GenLe32(n: u32)
      modifies this`code
      ensures code == if nocode then old(code) else old(code) + Le32(n)
    {
      var w := Le32(n);
      ghost var c0 := code;
      G(w[0]);
      G(w[1]);
      G(w[2]);
      G(w[3]);
      assert [w[0]] + [w[1]] + [w[2]] + [w[3]] == w;
      assert !nocode ==> code == c0 + ([w[0]] + [w[1]] + [w[2]] + [w[3]]);
    }

    /** `oad`: an instruction with four bytes of data, whose address it returns. */
    method Oad(c: u32, s: u32) returns (t: nat)
      modifies this`code
      ensures code == if nocode then old(code) else old(code) + Opcode(c) + Le32(s)
      ensures t == if nocode then s else |old(code)| + |Opcode(c)|
    {
      hide Opcode, Le32;
      if nocode {
        return s;
      }
      O(c);
      t := |code|;
      GenLe32(s);
    }

    /** `gjmp`: a jump that joins the list `t`. */
    method Gjmp(t: u32, ghost slots: seq<nat>) returns (r: nat)
      requires IsList(code, t, slots) && Apart(slots)
      modifies this`code
      ensures nocode ==> r == t && code == old(code)
      ensures !nocode ==> code == old(code) + [0xE9] + Le32(t) && r == |old(code)| + 1
      ensures IsList(code, r, if nocode then slots else [r] + slots) && Apart(if nocode then slots else [r] + slots)
    {
      hide Opcode, Le32;
      ghost var c := code;
      OneByte(0xE9);
      r := Oad(0xE9, t);
      if !nocode {
        assert code[r..] == Le32(t) && code[..|c|] == c;
        Grow(c, code, t, slots, r);
      }
    }

    /** `gsym` */
    method Gsym(t: nat, ghost slots: seq<nat>)
      requires IsList(code, t, slots) && Apart(slots)
      modifies this`code
      ensures Bound(old(code), code, slots, |old(code)|)
    {
      code := GsymAddr(code, t, |code|, slots);
    }

    /** `gtst` of a comparison: a conditional jump in front of the list. */
    method TestCompare(v: Value, inv: bool, t: u32, ghost a: seq<nat>, ghost b: seq<nat>)
      returns (r: nat, ghost slots: seq<nat>)
      requires !nocode && v.Compare? && 0x90 <= v.op <= 0x9F && a == []
      requires IsList(code, t, b) && Apart(b) && |code| + 16 < WRAP
      modifies this`code
      ensures IsList(code, r, slots + b) && Apart(slots + b) && |old(code)| <= |code|
      ensures forall i :: 0 <= i < |old(code)| && Outside(a, i) ==> code[i] == old(code)[i]
      ensures forall k, x :: Stands(v, a, |old(code)|, k, x) ==> Tested(code, Members(slots + b), k, x != inv, slots)
    {
      hide Opcode, Le32, Tested, Stands, Members, Read32, Bound, IsList, Apart, Outside, Covers;
      ghost var c := code;
      G(0x0F);
      OneByte(JumpOpcode(v.op, inv));
      r := Oad(JumpOpcode(v.op, inv), t);
      assert code == c + [0x0F, JumpOpcode(v.op, inv)] + Le32(t);
      slots := [r];
      Grow(c, code, t, b, r);
      forall k, x | Stands(v, a, |c|, k, x)
        ensures Tested(code, Members(slots + b), k, x != inv, slots)
      {
        CompareTested(c, t, v.op, inv, slots + b, k, x);
      }
    }

    /** `gtst` of jumps that already go the way asked for: the two lists become one. */
    method TestMerge(v: Value, inv: bool, t: u32, ghost a: seq<nat>, ghost b: seq<nat>)
      returns (r: nat, ghost slots: seq<nat>)
      requires v.Jumps? && IsList(code, v.list, a) && v.inverted == inv
      requires IsList(code, t, b) && Apart(a + b)
      modifies this`code
      ensures IsList(code, r, slots + b) && Apart(slots + b) && |old(code)| <= |code|
      ensures forall i :: 0 <= i < |old(code)| && Outside(a, i) ==> code[i] == old(code)[i]
      ensures forall k, x :: Stands(v, a, |old(code)|, k, x) ==> Tested(code, Members(slots + b), k, x != inv, slots)
      ensures slots == a
    {
      hide Opcode, Le32, Tested, Stands, Members, Read32, Bound, IsList, Apart, Outside, Covers;
      ghost var c := code;
      ListSlots(c, v.list, a);
      slots := a;
      r := t;
      if v.list != 0 {
        code := Splice(code, v.list, t, a, b);
        r := v.list;
        OutsideLast(a);
      } else {
        assert a + b == b;
      }
      forall k, x | Stands(v, a, |c|, k, x)
        ensures Tested(code, Members(slots + b), k, x != inv, slots)
      {
        JumpsKept(c, code, v, a, slots + b, k, x);
      }
    }

    /** `gtst` of jumps that go the other way: a jump in front of the list, and the old jumps land behind it. */
    method TestTurn(v: Value, inv: bool, t: u32, ghost a: seq<nat>, ghost b: seq<nat>)
      returns (r: nat, ghost slots: seq<nat>)
      requires !nocode && v.Jumps? && IsList(code, v.list, a) && v.inverted != inv
      requires IsList(code, t, b) && Apart(a + b) && |code| + 16 < WRAP
      modifies this`code
      ensures IsList(code, r, slots + b) && Apart(slots + b) && |old(code)| <= |code|
      ensures forall i :: 0 <= i < |old(code)| && Outside(a, i) ==> code[i] == old(code)[i]
      ensures forall k, x :: Stands(v, a, |old(code)|, k, x) ==> Tested(code, Members(slots + b), k, x != inv, slots)
    {
      hide Opcode, Le32, Tested, Stands, Members, Read32, Bound, IsList, Apart, Outside, Covers;
      ghost var c := code;
      ApartParts(a, b);
      ListSlots(c, t, b);
      ListSlots(c, v.list, a);
      r := Gjmp(t, b);
      ghost var c1 := code;
      slots := [r];
      KeptByEmit(c, c1, v.list, a);
      Gsym(v.list, a);
      TurnedList(c1, code, a, |c| + 5, r, b, |c|);
      BehindSlots(c1, code, a, |c| + 5, |c|);
      OutsideKept(c1, code, a, |c| + 5);
      forall k, x | Stands(v, a, |c|, k, x)
        ensures Tested(code, Members(slots + b), k, x != inv, slots)
      {
        JumpsTurned(c, t, code, v, a, slots + b, k, x);
      }
    }

    /**
      `gtst`: a test of the top value, whose jumps join the list `t`. With `inv` it jumps when the value is false.
      `a` are the slots of the value itself, `b` those of `t`.
     */
    method Gtst(v: Value, inv: bool, t: u32, ghost a: seq<nat>, ghost b: seq<nat>)
      returns (r: nat, ghost slots: seq<nat>)
      requires v.Compare? ==> 0x90 <= v.op <= 0x9F && a == []
      requires v.Jumps? ==> IsList(code, v.list, a)
      requires IsList(code, t, b) && Apart(a + b) && |code| + 16 < WRAP
      modifies this`code
      ensures nocode ==> r == t && code == old(code)
      ensures !nocode ==> IsList(code, r, slots + b) && Apart(slots + b) && |old(code)| <= |code|
      ensures !nocode ==> forall i :: 0 <= i < |old(code)| && Outside(a, i) ==> code[i] == old(code)[i]
      ensures !nocode ==> forall k, x :: Stands(v, a, |old(code)|, k, x) ==>
        Tested(code, Members(slots + b), k, x != inv, slots)
    {
      hide Opcode, Le32, Tested, Stands, Members, Read32, Bound, IsList, Apart, Outside, Covers;
      slots := [];
      if nocode {
        return t, slots;
      }
      ApartParts(a, b);
      if v.Compare? {
        r, slots := TestCompare(v, inv, t, a, b);
      } else if v.inverted == inv {
        r, slots := TestMerge(v, inv, t, a, b);
      } else {
        r, slots := TestTurn(v, inv, t, a, b);
      }
    }

    /** The boolean cases of `load`: register `r` gets 0 or 1. */
    method LoadValue(v: Value, r: nat, ghost a: seq<nat>, ghost pending: set<nat>)
      requires !nocode && r < 4 && |code| + 16 < WRAP
      requires v.Compare? ==> 0x90 <= v.op <= 0x9F && a == []
      requires v.Jumps? ==> IsList(code, v.list, a)
      requires Apart(a) && 0 !in pending && forall s :: s in a ==> s !in pending
      modifies this`code
      ensures |old(code)| <= |code|
      ensures forall i :: 0 <= i < |old(code)| && Outside(a, i) ==> code[i] == old(code)[i]
      ensures forall k, x :: Stands(v, a, |old(code)|, k, x) ==> LoadedAs(code, pending, k, r, x)
    {
      hide Opcode, Le32, LoadedAs, Stands, Read32, Bound;
      ghost var c := code;
      OneByte(0xB8 + r);
      if v.Compare? {
        var _ := Oad(0xB8 + r, 0);
        OneByte(0x0F);
        O(0x0F);
        OneByte(v.op);
        O(v.op);
        OneByte(0xC0 + r);
        O(0xC0 + r);
        assert code == LoadCompare(c, r, v.op);
        forall k, x | Stands(v, a, |c|, k, x)
          ensures LoadedAs(code, pending, k, r, x)
        {
          CompareLoaded(c, r, v.op, pending, k, x);
        }
      } else {
        ListSlots(c, v.list, a);
        var t := if v.inverted then 1 else 0;
        var _ := Oad(0xB8 + r, t);
        TwoBytes(0xEB, 0x05);
        O(0x05EB);
        assert code == FirstHalf(c, r, t);
        ghost var c1 := code;
        KeptByEmit(c, c1, v.list, a);
        Gsym(v.list, a);
        ghost var c2 := code;
        var _ := Oad(0xB8 + r, 1 - t);
        assert code == SecondHalf(c2, r, 1 - t);
        OutsideKept(c1, c2, a, |c| + 7);
        forall k, x | Stands(v, a, |c|, k, x)
          ensures LoadedAs(code, pending, k, r, x)
        {
          JumpsLoaded(c, c2, r, v, a, pending, k, x);
        }
      }
    }
  }

  lemma KeptByEmit(c: Code, c': Code, t: nat, slots: seq<nat>)
    requires IsList(c, t, slots) && |c| <= |c'| && c'[..|c|] == c
    ensures IsList(c', t, slots)
  {
    forall k | 0 <= k < |c|
      ensures c'[k] == c[k]
    {
      assert c'[..|c|][k] == c'[k];
    }
    ListFrame(c, c', t, slots);
  }

  lemma OutsideLast(a: seq<nat>)
    requires a != []
    ensures forall i: nat :: Outside(a, i) ==> !Covers(a[|a| - 1], i)
  {
  }

  lemma OutsideKept(c: Code, c': Code, a: seq<nat>, to: nat)
    requires Bound(c, c', a, to)
    ensures |c'| == |c| && forall i :: 0 <= i < |c| && Outside(a, i) ==> c'[i] == c[i]
  {
  }

  /** The list with the new jump in front survives the binding of the old jumps. */
  lemma TurnedList(c: Code, c': Code, a: seq<nat>, to: nat, r: nat, b: seq<nat>, end: nat)
    requires Bound(c, c', a, to) && IsList(c, r, [r] + b) && Apart([r] + b) && r == end + 1 && Apart(a + b)
    requires forall i :: 0 <= i < |a| ==> a[i] + 4 <= end
    ensures IsList(c', r, [r] + b)
  {
    forall i, j | 0 <= i < |a| && 0 <= j < |[r] + b|
      ensures a[i] + 4 <= ([r] + b)[j] || ([r] + b)[j] + 4 <= a[i]
    {
      if j > 0 {
        assert (a + b)[i] == a[i] && (a + b)[|a| + j - 1] == b[j - 1];
      }
    }
    OtherListKept(c, c', a, to, r, [r] + b);
  }
}
