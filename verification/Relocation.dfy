/** `relocate`, and the procedure linkage table of an executable: `create_plt_entry`, `relocate_plt`. */
module Relocation {
  import opened Bytes
  import opened JumpList
  import opened X86
  import opened Lowering
  import opened Branches

  // ----- words in a section's bytes -----

  function Word(s: seq<byte>, o: nat): u32 {
    if o + 4 <= |s| then Read32(s, o) else 0
  }

  /** Word `o` became `n`, and no other byte changed. */
  ghost predicate WordSet(s: seq<byte>, s': seq<byte>, o: nat, n: u32) {
    && |s'| == |s| && o + 4 <= |s| && Read32(s', o) == n
    && forall k :: 0 <= k < |s| && !(o <= k < o + 4) ==> s'[k] == s[k]
  }

  /** `write32le` */
  method Write32(data: array<byte>, o: nat, n: u32)
    requires o + 4 <= data.Length
    modifies data
    ensures WordSet(old(data[..]), data[..], o, n)
  {
    hide Le32;
    var w := Le32(n);
    data[o] := w[0];
    data[o + 1] := w[1];
    data[o + 2] := w[2];
    data[o + 3] := w[3];
    assert data[..][o..o + 4] == w;
    Le32RoundTrip(data[..], o, n);
  }

  /** `add32le` */
  method Add32(data: array<byte>, o: nat, n: int)
    requires o + 4 <= data.Length
    modifies data
    ensures WordSet(old(data[..]), data[..], o, (Read32(old(data[..]), o) + n) % WRAP)
  {
    hide Le32, Read32;
    Write32(data, o, (Read32(data[..], o) + n) % WRAP);
  }

  // ----- relocations -----

  datatype Kind = Abs32 | Pc32 | Plt32 | GlobDat | JmpSlot | GotPc | GotOff | Got32 | Relative | Copy

  /** Two numbers that are the same address. */
  predicate Same(x: int, y: int) {
    (x - y) % WRAP == 0
  }

  lemma SameWord(n: u32, x: int)
    requires n == x % WRAP
    ensures Same(n, x)
  {
    assert x == WRAP * (x / WRAP) + n;
    Whole(-(x / WRAP));
  }

  lemma Whole(k: int)
    ensures WRAP * k % WRAP == 0
  {
  }

  /**
    A jump or conditional jump whose field stands at `o`, as it is left for a symbol elsewhere: `v` behind the symbol.
   */
  predicate JumpsElsewhere(c: Code, o: nat, b: Branch, v: int) {
    var head := OpcodeBytes(LongOpcode(b));
    && Known(b) && (b.opcode == 0xEB || b.opcode == 0x70) && o >= |head|
    && Holds(c, o - |head|, head + Le32(Displacement(Target(v, Elsewhere), o)))
  }

  /** Executed where its section was put, at `addr - o`, the jump reaches the address `to` when it is taken. */
  ghost predicate Reaches(c: Code, o: nat, b: Branch, to: int, addr: int) {
    forall s: State :: s.ip + |OpcodeBytes(LongOpcode(b))| == o ==>
      Step(c, {}, At(s)) == At(s.(
        ip := if Goes(b, s) then (to - (addr - o)) % WRAP else o + 4,
        regs := Counted(b, s)))
  }

  lemma JumpRelocated(c: Code, c': Code, o: nat, b: Branch, addr: int, val: int, v: int)
    requires o + 4 <= |c| && JumpsElsewhere(c, o, b, v) && WordSet(c, c', o, (Read32(c, o) + val - addr) % WRAP)
    ensures Reaches(c', o, b, val + v, addr)
  {
    hide Le32, Read32, Cond, Parity, Step, OpcodeBytes, Goes, Counted, Known;
    var head := OpcodeBytes(LongOpcode(b));
    var here := Target(v, Here(val - (addr - o)));
    WordBehind(c, o - |head|, head, Displacement(Target(v, Elsewhere), o));
    TwoTurns(val - addr, v - 4);
    assert Read32(c', o) == Displacement(here, o);
    WordHolds(c', o);
    assert c'[o - |head|..o] == c[o - |head|..o] == head by {
      assert c[o - |head|..o + 4][..|head|] == head;
    }
    assert c'[o - |head|..o + 4] == head + Le32(Displacement(here, o));
    forall s: State | s.ip + |head| == o
      ensures Step(c', {}, At(s)) == At(s.(
        ip := if Goes(b, s) then (val + v - (addr - o)) % WRAP else o + 4,
        regs := Counted(b, s)))
    {
      FarArrives(b, v, val - (addr - o), c', s);
    }
  }

  /**
    `relocate` for an executable: `val` is the symbol's address (its PLT entry's for Plt32), `addr` that of the field,
    `got` that of the global offset table and `gotOffset` the symbol's place in it. What the changed word means
    is what the Intel386 psABI, chapter 4, asks of each type; the words of RELATIVE and COPY stay as they are here.
   */
  method Relocate(data: array<byte>, k: Kind, o: nat, addr: int, val: int, got: int, gotOffset: int)
    requires o + 4 <= data.Length
    modifies data
    ensures forall i :: 0 <= i < data.Length && !(o <= i < o + 4) ==> data[i] == old(data[i])
    ensures k.Abs32? ==> Same(Word(data[..], o) - old(Word(data[..], o)), val)
    ensures k.Pc32? || k.Plt32? ==> Same(addr + Word(data[..], o), val + old(Word(data[..], o)))
    ensures k.Pc32? || k.Plt32? ==>
      forall b: Branch, v: int :: JumpsElsewhere(old(data[..]), o, b, v) ==> Reaches(data[..], o, b, val + v, addr)
    ensures k.GlobDat? || k.JmpSlot? ==> Same(Word(data[..], o), val)
    ensures k.GotPc? ==> Same(addr + Word(data[..], o), got + old(Word(data[..], o)))
    ensures k.GotOff? ==> Same(got + Word(data[..], o), val + old(Word(data[..], o)))
    ensures k.Got32? ==> Same(got + Word(data[..], o), got + gotOffset + old(Word(data[..], o)))
    ensures k.Relative? || k.Copy? ==> data[..] == old(data[..])
  {
    hide Read32, Reaches, JumpsElsewhere, Same;
    ghost var was := data[..];
    match k {
      case Abs32 =>
        Add32(data, o, val);
        AddedWord(was, data[..], o, val, 0);
      case Pc32 =>
        Add32(data, o, val - addr);
        AddedWord(was, data[..], o, val, addr);
      case Plt32 =>
        Add32(data, o, val - addr);
        AddedWord(was, data[..], o, val, addr);
      case GlobDat =>
        Write32(data, o, val % WRAP);
        SameWord(val % WRAP, val);
      case JmpSlot =>
        Write32(data, o, val % WRAP);
        SameWord(val % WRAP, val);
      case GotPc =>
        Add32(data, o, got - addr);
        AddedWord(was, data[..], o, got, addr);
      case GotOff =>
        Add32(data, o, val - got);
        AddedWord(was, data[..], o, val, got);
      case Got32 =>
        Add32(data, o, gotOffset);
        AddedWord(was, data[..], o, got + gotOffset, got);
      case Relative =>
      case Copy =>
    }
    forall b: Branch, v: int | (k.Pc32? || k.Plt32?) && JumpsElsewhere(was, o, b, v)
      ensures Reaches(data[..], o, b, val + v, addr)
    {
      JumpRelocated(was, data[..], o, b, addr, val, v);
    }
  }

  /** Adding `x - y` to a word, seen from both sides. */
  lemma AddedWord(s: seq<byte>, s': seq<byte>, o: nat, x: int, y: int)
    requires o + 4 <= |s| && WordSet(s, s', o, (Read32(s, o) + x - y) % WRAP)
    ensures Same(y + Word(s', o), x + Word(s, o)) && Same(Word(s', o) - Word(s, o), x - y)
  {
    hide Read32;
    SameWord(Word(s', o), Word(s, o) + x - y);
    assert y + Word(s', o) - (x + Word(s, o)) == Word(s', o) - (Word(s, o) + x - y);
    assert Word(s', o) - Word(s, o) - (x - y) == Word(s', o) - (Word(s, o) + x - y);
  }

  // ----- the procedure linkage table -----

  const ENTRY := 16

  /** What one entry asks for: the offset of its GOT slot, and of its relocation record. */
  datatype Request = Request(slot: u32, record: u32)

  /** Entry 0: push the library's identifier from GOT + 4, jump through GOT + 8. */
  predicate IsFirst(s: seq<byte>, got: int) {
    && |s| >= ENTRY
    && s[0] == 0xFF && s[1] == 0x35 && Word(s, 2) == (got + 4) % WRAP
    && s[6] == 0xFF && s[7] == 0x25 && Word(s, 8) == (got + 8) % WRAP
  }

  /** Where the jump at the end of entry `k` leads, as an offset in the table. */
  function BackTo(s: seq<byte>, k: nat): int {
    (ENTRY * (k + 1) + Word(s, ENTRY * k + 12)) % WRAP
  }

  /** Entry `k`: jump through the GOT slot, push the record's offset, jump back to entry 0. */
  predicate IsEntry(s: seq<byte>, k: nat, got: int, r: Request) {
    var o := ENTRY * k;
    && o + ENTRY <= |s|
    && s[o] == 0xFF && s[o + 1] == 0x25 && Word(s, o + 2) == (got + r.slot) % WRAP
    && s[o + 6] == 0x68 && Word(s, o + 7) == r.record
    && s[o + 11] == 0xE9 && BackTo(s, k) == 0
  }

  /** A table with entry 0 and one entry per request, for a GOT at `got` (0 before the addresses are known). */
  ghost predicate IsTable(s: seq<byte>, got: int, rs: seq<Request>) {
    if rs == [] then s == []
    else |s| == ENTRY * (|rs| + 1) && IsFirst(s, got) && forall j :: 0 <= j < |rs| ==> IsEntry(s, j + 1, got, rs[j])
  }

  /** `memset` plus the stores of entry 0. */
  function FirstEntry(): seq<byte> {
    [0xFF, 0x35] + Le32(4) + [0xFF, 0x25] + Le32(8) + [0, 0, 0, 0]
  }

  function NewEntry(r: Request, end: int): seq<byte> {
    [0xFF, 0x25] + Le32(r.slot) + [0x68] + Le32(r.record) + [0xE9] + Le32((-end) % WRAP)
  }

  lemma FirstEntryIs()
    ensures |FirstEntry()| == ENTRY && IsFirst(FirstEntry(), 0)
  {
    hide Le32;
    var s := FirstEntry();
    assert s[2..6] == Le32(4) && s[8..12] == Le32(8);
    Le32RoundTrip(s, 2, 4);
    Le32RoundTrip(s, 8, 8);
  }

  lemma NewEntryIs(s: seq<byte>, r: Request, k: nat)
    requires |s| == ENTRY * k
    ensures IsEntry(s + NewEntry(r, |s| + ENTRY), k, 0, r)
  {
    hide Le32, Read32;
    var e, t := NewEntry(r, |s| + ENTRY), s + NewEntry(r, |s| + ENTRY);
    var back: u32 := (-(|s| + ENTRY)) % WRAP;
    var o := ENTRY * k;
    var head := [0xFF, 0x25] + Le32(r.slot) + [0x68] + Le32(r.record) + [0xE9];
    assert e == head + Le32(back) && |head| == 12;
    assert t[o + 2..o + 6] == e[2..6] == Le32(r.slot);
    assert t[o + 7..o + 11] == e[7..11] == Le32(r.record);
    assert t[o + 12..o + 16] == e[12..16] == Le32(back);
    Le32RoundTrip(t, o + 2, r.slot);
    Le32RoundTrip(t, o + 7, r.record);
    Le32RoundTrip(t, o + 12, back);
    assert t[o] == e[0] && t[o + 1] == e[1] && t[o + 6] == e[6] && t[o + 11] == e[11];
    BackHome(|s| + ENTRY);
  }

  lemma BackHome(n: int)
    ensures (n + (-n) % WRAP) % WRAP == 0
  {
    assert -n == WRAP * (-n / WRAP) + (-n) % WRAP;
  }

  /** An entry only depends on its own sixteen bytes. */
  lemma EntryFrame(s: seq<byte>, t: seq<byte>, k: nat, got: int, r: Request)
    requires IsEntry(s, k, got, r) && |s| <= |t| && forall i :: ENTRY * k <= i < ENTRY * k + ENTRY ==> t[i] == s[i]
    ensures IsEntry(t, k, got, r)
  {
    var o := ENTRY * k;
    assert Word(t, o + 2) == Word(s, o + 2) && Word(t, o + 7) == Word(s, o + 7) && Word(t, o + 12) == Word(s, o + 12);
  }

  lemma FirstFrame(s: seq<byte>, t: seq<byte>, got: int)
    requires IsFirst(s, got) && |s| <= |t| && forall i :: 0 <= i < ENTRY ==> t[i] == s[i]
    ensures IsFirst(t, got)
  {
    assert Word(t, 2) == Word(s, 2) && Word(t, 8) == Word(s, 8);
  }

  /** Appending one entry to a table of any length. */
  lemma TableGrows(s: seq<byte>, rs: seq<Request>, r: Request)
    requires IsTable(s, 0, rs)
    ensures var t := if s == [] then FirstEntry() else s; IsTable(t + NewEntry(r, |t| + ENTRY), 0, rs + [r])
  {
    hide Le32, IsEntry, IsFirst, FirstEntry;
    FirstEntryIs();
    var t := if s == [] then FirstEntry() else s;
    var u := t + NewEntry(r, |t| + ENTRY);
    NewEntryIs(t, r, |rs| + 1);
    FirstFrame(t, u, 0);
    forall j | 0 <= j < |rs| + 1
      ensures IsEntry(u, j + 1, 0, (rs + [r])[j])
    {
      if j < |rs| {
        EntryFrame(s, u, j + 1, 0, rs[j]);
      }
    }
  }

  class Plt {
    var data: seq<byte>

    constructor ()
      ensures data == []
    {
      data := [];
    }

    /** `create_plt_entry` for an executable; `record` is the current end of the GOT's relocation section. */
    method CreateEntry(slot: u32, record: u32, ghost rs: seq<Request>) returns (offset: nat)
      requires IsTable(data, 0, rs)
      modifies this
      ensures IsTable(data, 0, rs + [Request(slot, record)]) && offset == ENTRY * (|rs| + 1)
    {
      hide Le32, IsEntry, IsFirst;
      TableGrows(data, rs, Request(slot, record));
      FirstEntryIs();
      if data == [] {
        data := FirstEntry();
      }
      offset := |data|;
      data := data + NewEntry(Request(slot, record), offset + ENTRY);
    }
  }

  /** Progress of `relocate_plt`: entries before `n` are final, the others still relative. */
  ghost predicate Halfway(s: seq<byte>, got: int, rs: seq<Request>, n: nat) {
    && |s| == ENTRY * (|rs| + 1) && IsFirst(s, got)
    && forall j :: 0 <= j < |rs| ==> IsEntry(s, j + 1, if j + 1 < n then got else 0, rs[j])
  }

  lemma SlotMoved(s: seq<byte>, t: seq<byte>, k: nat, got: int, r: Request)
    requires IsEntry(s, k, 0, r) && WordSet(s, t, ENTRY * k + 2, (Read32(s, ENTRY * k + 2) + got) % WRAP)
    ensures IsEntry(t, k, got, r)
  {
    var o := ENTRY * k;
    assert Word(t, o + 7) == Word(s, o + 7) && Word(t, o + 12) == Word(s, o + 12);
  }

  /** One more entry made final. */
  lemma OneFinal(s: seq<byte>, t: seq<byte>, got: int, rs: seq<Request>, n: nat)
    requires Halfway(s, got, rs, n) && 1 <= n <= |rs|
    requires WordSet(s, t, ENTRY * n + 2, (Read32(s, ENTRY * n + 2) + got) % WRAP)
    ensures Halfway(t, got, rs, n + 1)
  {
    hide IsEntry, IsFirst, Read32;
    FirstFrame(s, t, got);
    assert IsEntry(s, n, 0, rs[n - 1]);
    SlotMoved(s, t, n, got, rs[n - 1]);
    forall j | 0 <= j < |rs|
      ensures IsEntry(t, j + 1, if j + 1 < n + 1 then got else 0, rs[j])
    {
      if j + 1 != n {
        EntryFrame(s, t, j + 1, if j + 1 < n then got else 0, rs[j]);
      }
    }
  }

  lemma FirstFinal(s: seq<byte>, t: seq<byte>, u: seq<byte>, got: int, rs: seq<Request>)
    requires IsTable(s, 0, rs) && rs != []
    requires WordSet(s, t, 2, (Read32(s, 2) + got) % WRAP) && WordSet(t, u, 8, (Read32(t, 8) + got) % WRAP)
    ensures Halfway(u, got, rs, 1)
  {
    hide IsEntry;
    FirstMoved(s, t, u, got);
    forall j | 0 <= j < |rs|
      ensures IsEntry(u, j + 1, 0, rs[j])
    {
      EntryFrame(s, u, j + 1, 0, rs[j]);
    }
  }

  lemma FirstMoved(s: seq<byte>, t: seq<byte>, u: seq<byte>, got: int)
    requires IsFirst(s, 0) && WordSet(s, t, 2, (Read32(s, 2) + got) % WRAP)
    requires WordSet(t, u, 8, (Read32(t, 8) + got) % WRAP)
    ensures IsFirst(u, got)
  {
    assert Word(t, 8) == Word(s, 8) && Word(u, 2) == Word(t, 2);
  }

  /** `relocate_plt`: once the GOT's address is known, every entry jumps through its own slot and back to entry 0. */
  method RelocatePlt(plt: array<byte>, got: int, ghost rs: seq<Request>)
    requires IsTable(plt[..], 0, rs)
    modifies plt
    ensures IsTable(plt[..], got, rs)
  {
    hide IsEntry, IsFirst, Read32, IsTable, Halfway;
    TableLength(plt[..], 0, rs);
    if plt.Length > 0 {
      ghost var s := plt[..];
      Add32(plt, 2, got);
      ghost var t := plt[..];
      Add32(plt, 8, got);
      FirstFinal(s, t, plt[..], got, rs);
      var p := ENTRY;
      ghost var n := 1;
      while p < plt.Length
        invariant p == ENTRY * n && 1 <= n <= |rs| + 1 && Halfway(plt[..], got, rs, n)
      {
        ghost var u := plt[..];
        Add32(plt, p + 2, got);
        OneFinal(u, plt[..], got, rs, n);
        p := p + ENTRY;
        n := n + 1;
      }
    }
    AllFinal(plt[..], got, rs);
  }

  lemma TableLength(s: seq<byte>, got: int, rs: seq<Request>)
    requires IsTable(s, got, rs)
    ensures |s| == if rs == [] then 0 else ENTRY * (|rs| + 1)
  {
  }

  lemma AllFinal(s: seq<byte>, got: int, rs: seq<Request>)
    requires if rs == [] then s == [] else Halfway(s, got, rs, |rs| + 1)
    ensures IsTable(s, got, rs)
  {
    hide IsEntry, IsFirst;
  }
}
