/** Who maps which physical frame, and how launching, faulting and dying change that. */
module FrameOwnership {
  import opened Frames

  const ENTRIES := 1024

  /** A page table as its 1024 entries. */
  type Table = t: seq<nat> | |t| == ENTRIES witness seq(ENTRIES, _ => 0)

  datatype Proc = Proc(active: bool, table: Table)

  predicate Present(e: nat) {
    e % 2 == 1
  }

  /** `e & 0xFFFFF000` */
  function Target(e: nat): nat {
    e - e % FRAME
  }

  /** `frame | 0x07`: present, writable, for user code. */
  function Entry(a: nat): nat {
    a + 7
  }

  /** Live process `p` has frame `n` present at page `i`. */
  ghost predicate Maps(ps: seq<Proc>, p: nat, i: nat, n: nat) {
    p < |ps| && ps[p].active && i < ENTRIES && Present(ps[p].table[i]) && Target(ps[p].table[i]) == AddressOf(n)
  }

  ghost predicate Mapped(ps: seq<Proc>, n: nat) {
    exists p: nat, i: nat :: Maps(ps, p, i, n)
  }

  /** A frame's bit is set exactly when exactly one live page table has it present. */
  ghost predicate Owned(ps: seq<Proc>, b: Bitmap, max: nat) {
    && (forall n: nat :: n < max ==> (Used(b, n) <==> Mapped(ps, n)))
    && forall n: nat, p: nat, i: nat, q: nat, j: nat :: n < max && Maps(ps, p, i, n) && Maps(ps, q, j, n) ==>
         p == q && i == j
  }

  lemma FlagBits(k: nat)
    ensures (FRAME * k + 7) % FRAME == 7
    ensures (FRAME * k + 7) % 2 == 1
  {
    assert FRAME * k + 7 == 2 * (2048 * k + 3) + 1;
  }

  lemma EntryMeaning(n: nat)
    ensures Present(Entry(AddressOf(n))) && Target(Entry(AddressOf(n))) == AddressOf(n)
    ensures Target(Entry(0)) == 0 && !Present(0)
  {
    assert AddressOf(n) == FRAME * (8192 + n);
    FlagBits(8192 + n);
  }

  lemma NoPoolBelow(n: nat)
    ensures AddressOf(n) != 0
    ensures forall m: nat :: AddressOf(m) == AddressOf(n) ==> m == n
  {
  }

  /** Entry `e` makes a frame of the pool present. */
  ghost predicate PoolEntry(e: nat, max: nat) {
    Present(e) && exists n: nat :: n < max && Target(e) == AddressOf(n)
  }

  function WithEntry(ps: seq<Proc>, p: nat, i: nat, e: nat): seq<Proc>
    requires p < |ps| && i < ENTRIES
  {
    ps[p := ps[p].(table := ps[p].table[i := e])]
  }

  lemma EntryMaps(ps: seq<Proc>, p: nat, i: nat, e: nat, q: nat, j: nat, m: nat)
    requires p < |ps| && ps[p].active && i < ENTRIES
    ensures Maps(WithEntry(ps, p, i, e), q, j, m) <==>
      if q == p && j == i then Present(e) && Target(e) == AddressOf(m) else Maps(ps, q, j, m)
  {
  }

  /** Mapping a fresh frame keeps ownership when the entry held no frame before. */
  lemma MapKeeps(ps: seq<Proc>, b: Bitmap, b': Bitmap, max: nat, p: nat, i: nat, n: nat)
    requires Owned(ps, b, max) && Walled(b, max) && Handed(b, b', n, max)
    requires p < |ps| && ps[p].active && i < ENTRIES && !PoolEntry(ps[p].table[i], max)
    ensures Owned(WithEntry(ps, p, i, Entry(AddressOf(n))), b', max)
  {
    hide Maps, Used, WithEntry, Present, Target, AddressOf;
    var e := Entry(AddressOf(n));
    var ps' := WithEntry(ps, p, i, e);
    EntryMeaning(n);
    NoPoolBelow(n);
    forall q: nat, j: nat, m: nat
      ensures Maps(ps', q, j, m) <==> if q == p && j == i then m == n else Maps(ps, q, j, m)
    {
      EntryMaps(ps, p, i, e, q, j, m);
    }
    forall m: nat | m < max
      ensures Used(b', m) <==> Mapped(ps', m)
    {
      if m == n {
        assert Maps(ps', p, i, n);
      } else if Mapped(ps, m) {
        var q: nat, j: nat :| Maps(ps, q, j, m);
        HeldEntry(ps, q, j, m, max);
        assert Maps(ps', q, j, m);
      }
    }
  }

  lemma HeldEntry(ps: seq<Proc>, q: nat, j: nat, m: nat, max: nat)
    requires Maps(ps, q, j, m) && m < max
    ensures q < |ps| && j < ENTRIES && PoolEntry(ps[q].table[j], max)
  {
  }

  /** A page that held a frame already would lose it: the handler may only be entered for pages that are not present. */
  lemma MapKeepsIff(ps: seq<Proc>, b: Bitmap, b': Bitmap, max: nat, p: nat, i: nat, n: nat)
    requires Owned(ps, b, max) && Walled(b, max) && Handed(b, b', n, max)
    requires p < |ps| && ps[p].active && i < ENTRIES
    ensures Owned(WithEntry(ps, p, i, Entry(AddressOf(n))), b', max) <==> !PoolEntry(ps[p].table[i], max)
  {
    hide Used, WithEntry, Present, Target, AddressOf, Maps;
    if PoolEntry(ps[p].table[i], max) {
      var m: nat :| m < max && Target(ps[p].table[i]) == AddressOf(m);
      Stranded(ps, b, b', max, p, i, n, m);
    } else {
      MapKeeps(ps, b, b', max, p, i, n);
    }
  }

  lemma Stranded(ps: seq<Proc>, b: Bitmap, b': Bitmap, max: nat, p: nat, i: nat, n: nat, m: nat)
    requires Owned(ps, b, max) && Walled(b, max) && Handed(b, b', n, max) && m < max
    requires p < |ps| && ps[p].active && i < ENTRIES && Present(ps[p].table[i])
    requires Target(ps[p].table[i]) == AddressOf(m)
    ensures Used(b', m) && !Mapped(WithEntry(ps, p, i, Entry(AddressOf(n))), m)
  {
    hide Used, WithEntry, AddressOf, Present, Target;
    assert Maps(ps, p, i, m);
    assert Mapped(ps, m) && m != n;
    EntryMeaning(n);
    NoPoolBelow(n);
    var ps' := WithEntry(ps, p, i, Entry(AddressOf(n)));
    forall q: nat, j: nat
      ensures !Maps(ps', q, j, m)
    {
      EntryMaps(ps, p, i, Entry(AddressOf(n)), q, j, m);
    }
  }

  /** The bits after everything process `p` has present was handed back. */
  ghost predicate Returned(ps: seq<Proc>, b: Bitmap, b': Bitmap, max: nat, p: nat) {
    && Walled(b', max)
    && forall n: nat :: n < max ==> (Used(b', n) <==> Used(b, n) && !exists i: nat :: Maps(ps, p, i, n))
  }

  function Dead(ps: seq<Proc>, p: nat): seq<Proc>
    requires p < |ps|
  {
    ps[p := ps[p].(active := false)]
  }

  /** A process that dies gives back exactly its own frames. */
  lemma ReapKeeps(ps: seq<Proc>, b: Bitmap, b': Bitmap, max: nat, p: nat)
    requires Owned(ps, b, max) && p < |ps| && Returned(ps, b, b', max, p)
    ensures Owned(Dead(ps, p), b', max)
  {
    hide Used, AddressOf, Present, Target;
    var ps' := Dead(ps, p);
    forall q: nat, j: nat, m: nat
      ensures Maps(ps', q, j, m) <==> q != p && Maps(ps, q, j, m)
    {
    }
    hide Maps, Dead;
    forall m: nat | m < max
      ensures Used(b', m) <==> Mapped(ps', m)
    {
      if Mapped(ps, m) {
        var q: nat, j: nat :| Maps(ps, q, j, m);
        assert q != p ==> Maps(ps', q, j, m);
      }
    }
  }

  // ----- a table being filled by the loader counts as one more process -----

  function Loading(ps: seq<Proc>, t: Table): seq<Proc> {
    ps + [Proc(true, t)]
  }

  lemma SameOwners(ps: seq<Proc>, qs: seq<Proc>, b: Bitmap, max: nat)
    requires Owned(ps, b, max)
    requires forall p: nat, i: nat, n: nat :: Maps(ps, p, i, n) <==> Maps(qs, p, i, n)
    ensures Owned(qs, b, max)
  {
    hide Used, Maps;
    forall m: nat | m < max
      ensures Mapped(ps, m) <==> Mapped(qs, m)
    {
      if Mapped(ps, m) {
        var p: nat, i: nat :| Maps(ps, p, i, m);
        assert Maps(qs, p, i, m);
      }
    }
  }

  lemma StartLoading(ps: seq<Proc>, b: Bitmap, max: nat)
    requires Owned(ps, b, max)
    ensures Owned(Loading(ps, seq(ENTRIES, _ => 0)), b, max)
  {
    hide Used, AddressOf;
    SameOwners(ps, Loading(ps, seq(ENTRIES, _ => 0)), b, max);
  }

  lemma StopLoading(ps: seq<Proc>, t: Table, b: Bitmap, max: nat)
    requires Owned(Dead(Loading(ps, t), |ps|), b, max)
    ensures Owned(ps, b, max)
  {
    hide Used, AddressOf;
    SameOwners(Dead(Loading(ps, t), |ps|), ps, b, max);
  }

  /** The loaded table goes into a free slot. */
  lemma FinishLoading(ps: seq<Proc>, t: Table, b: Bitmap, max: nat, pid: nat)
    requires Owned(Loading(ps, t), b, max) && pid < |ps| && !ps[pid].active
    ensures Owned(ps[pid := Proc(true, t)], b, max)
  {
    hide Used, AddressOf, Present, Target;
    var ls, qs := Loading(ps, t), ps[pid := Proc(true, t)];
    forall q: nat, j: nat, m: nat
      ensures Maps(qs, q, j, m) <==> if q == pid then Maps(ls, |ps|, j, m) else q < |ps| && Maps(ls, q, j, m)
      ensures !Maps(ls, pid, j, m) && (q > |ps| ==> !Maps(ls, q, j, m))
    {
    }
    hide Maps, Loading;
    forall m: nat | m < max
      ensures Mapped(ls, m) <==> Mapped(qs, m)
    {
      if Mapped(ls, m) {
        var q: nat, j: nat :| Maps(ls, q, j, m);
        assert Maps(qs, if q == |ps| then pid else q, j, m);
      }
      if Mapped(qs, m) {
        var q: nat, j: nat :| Maps(qs, q, j, m);
        assert Maps(ls, if q == pid then |ps| else q, j, m);
      }
    }
  }

  // ----- all apps dead -----

  /** When no process is alive, the bitmap is the one the machine started with, word for word. */
  lemma AllDeadIsInitial(ps: seq<Proc>, b: Bitmap, max: nat)
    requires Owned(ps, b, max) && Walled(b, max) && forall p :: 0 <= p < |ps| ==> !ps[p].active
    ensures b == InitialBits(max)
  {
    hide Used, AddressOf, InitialBits;
    AllFreeIsInitial(b, max);
  }

  lemma NobodyOwns(ps: seq<Proc>, max: nat)
    requires max % 32 == 0 && max <= 253952 && forall p :: 0 <= p < |ps| ==> !ps[p].active
    ensures Owned(ps, InitialBits(max), max)
  {
    hide AddressOf, InitialBits;
    InitialUsed(max);
  }

  // ----- counting -----

  function FreeFrames(b: Bitmap, max: nat): set<nat> {
    set n: nat | n < max && !Used(b, n)
  }

  lemma OneFewer(b: Bitmap, b': Bitmap, n: nat, max: nat)
    requires Walled(b, max) && Handed(b, b', n, max)
    ensures |FreeFrames(b', max)| == |FreeFrames(b, max)| - 1
  {
    hide Used;
    assert FreeFrames(b', max) == FreeFrames(b, max) - {n};
  }

  lemma SomeFree(b: Bitmap, max: nat)
    ensures (forall n: nat :: n < max ==> Used(b, n)) <==> |FreeFrames(b, max)| == 0
  {
    hide Used;
    if |FreeFrames(b, max)| != 0 {
      var n :| n in FreeFrames(b, max);
    }
    assert forall n: nat :: n < max ==> (Used(b, n) <==> n !in FreeFrames(b, max));
  }
}
