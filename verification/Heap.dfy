/** `kmalloc`, `kfree` and their DMA twins, on block headers linked through memory. */
module Heap {
  import opened Bytes
  import opened HeapBlocks

  /** `mem_block_t`; `next` is an address, 0 for none. */
  datatype Header = Header(size: nat, free: bool, next: nat)

  function AddrAt(s: seq<Cell>, k: nat): nat {
    if k < |s| then s[k].addr else 0
  }

  predicate Links(mem: map<nat, Header>, s: seq<Cell>, k: nat) {
    k < |s| ==> s[k].addr in mem && mem[s[k].addr] == Header(s[k].size, s[k].free, AddrAt(s, k + 1))
  }

  /** The headers in memory form the list `s`. */
  ghost predicate Linked(mem: map<nat, Header>, s: seq<Cell>) {
    forall k: nat :: k < |s| ==> Links(mem, s, k)
  }

  /** Payload address the allocator returns for block `k`, NULL when there is none. */
  function Answer(s: seq<Cell>, k: nat): nat {
    if k < |s| then s[k].addr + PAGE else 0
  }

  lemma AddrsDiffer(s: seq<Cell>, lo: nat, hi: nat, k: nat)
    requires Tiles(s, lo, hi) && k < |s|
    ensures forall i :: 0 <= i < |s| && i != k ==> s[i].addr != s[k].addr
  {
    forall i | 0 <= i < |s| && i != k
      ensures s[i].addr != s[k].addr
    {
      Distinct(s, lo, hi, i, k);
    }
  }

  /** The header of the block that is split off lies where no header of the list is. */
  lemma NewHeaderFresh(s: seq<Cell>, lo: nat, hi: nat, k: nat, n: nat)
    requires Tiles(s, lo, hi) && k < |s| && s[k].size > n + PAGE
    ensures forall i :: 0 <= i < |s| ==> s[i].addr != s[k].addr + PAGE + n
  {
    forall i | 0 <= i < |s|
      ensures s[i].addr != s[k].addr + PAGE + n
    {
      if i < k {
        Ordered(s, lo, hi, i, k);
      } else if k < i {
        Ordered(s, lo, hi, k, i);
      }
    }
  }

  lemma LinkedSplit(mem: map<nat, Header>, mem': map<nat, Header>, s: seq<Cell>, lo: nat, hi: nat, k: nat, n: nat,
                    a: nat, b: nat)
    requires Tiles(s, lo, hi) && Linked(mem, s) && k < |s| && s[k].size > n + PAGE + 16
    requires a == s[k].addr && b == a + PAGE + n
    requires mem' == mem[b := Header(s[k].size - n - PAGE, true, AddrAt(s, k + 1))][a := Header(n, false, b)]
    ensures Linked(mem', Take(s, k, n))
  {
    hide Tiles, Take;
    var t := Take(s, k, n);
    AddrsDiffer(s, lo, hi, k);
    NewHeaderFresh(s, lo, hi, k, n);
    SplitShape(s, k, n);
    forall i: nat | i < |t|
      ensures Links(mem', t, i)
    {
      if i < k {
        assert Links(mem, s, i) && AddrAt(t, i + 1) == AddrAt(s, i + 1);
      } else if i >= k + 2 {
        assert Links(mem, s, i - 1) && AddrAt(t, i + 1) == AddrAt(s, i);
      } else if i == k {
        assert AddrAt(t, k + 1) == b;
      } else {
        assert AddrAt(t, k + 2) == AddrAt(s, k + 1);
      }
    }
  }

  lemma LinkedMark(mem: map<nat, Header>, s: seq<Cell>, lo: nat, hi: nat, k: nat, free: bool)
    requires Tiles(s, lo, hi) && Linked(mem, s) && k < |s|
    ensures s[k].addr in mem
    ensures Linked(mem[s[k].addr := mem[s[k].addr].(free := free)], s[k := s[k].(free := free)])
  {
    hide Tiles;
    AddrsDiffer(s, lo, hi, k);
    assert Links(mem, s, k);
    var mem', t := mem[s[k].addr := mem[s[k].addr].(free := free)], s[k := s[k].(free := free)];
    forall i: nat | i < |t|
      ensures Links(mem', t, i)
    {
      assert Links(mem, s, i) && AddrAt(t, i + 1) == AddrAt(s, i + 1);
    }
  }

  /** The list with block `k` and its successor made one. */
  function Joined(s: seq<Cell>, k: nat): (t: seq<Cell>)
    requires k + 1 < |s|
    ensures |t| == |s| - 1 && t[k] == Join(s[k], s[k + 1])
    ensures (forall i :: 0 <= i < k ==> t[i] == s[i]) && forall i :: k + 1 <= i < |t| ==> t[i] == s[i + 1]
  {
    s[..k] + [Join(s[k], s[k + 1])] + s[k + 2..]
  }

  lemma JoinedTiles(s: seq<Cell>, lo: nat, hi: nat, k: nat)
    requires Tiles(s, lo, hi) && k + 1 < |s|
    ensures Tiles(Joined(s, k), lo, hi)
  {
    var t := Joined(s, k);
    assert s[k + 1].addr == End(s[k]);
    forall i, j | 0 <= i < j < |t| && j == i + 1
      ensures t[j].addr == End(t[i])
    {
      if i >= k {
        assert s[j + 1].addr == End(s[i + 1]);
      } else {
        assert s[j].addr == End(s[i]);
      }
    }
  }

  /** Merging block `k` with its successor, by rewriting the header of `k` alone. */
  lemma LinkedJoin(mem: map<nat, Header>, mem': map<nat, Header>, s: seq<Cell>, lo: nat, hi: nat, k: nat)
    requires Tiles(s, lo, hi) && Linked(mem, s) && k + 1 < |s|
    requires mem' == mem[s[k].addr := Header(s[k].size + PAGE + s[k + 1].size, s[k].free, AddrAt(s, k + 2))]
    ensures Linked(mem', Joined(s, k))
  {
    hide Tiles;
    var t := Joined(s, k);
    AddrsDiffer(s, lo, hi, k);
    forall i: nat | i < |t|
      ensures Links(mem', t, i)
    {
      if i < k {
        assert Links(mem, s, i) && AddrAt(t, i + 1) == AddrAt(s, i + 1);
      } else if i > k {
        assert Links(mem, s, i + 1) && AddrAt(t, i + 1) == AddrAt(s, i + 2);
      } else {
        assert AddrAt(t, k + 1) == AddrAt(s, k + 2);
      }
    }
  }

  lemma {:induction false} Aligned(s: seq<Cell>, lo: nat, hi: nat, k: nat)
    requires Tiles(s, lo, hi) && k < |s|
    ensures s[k].addr % PAGE == lo % PAGE
  {
    if k > 0 {
      Aligned(s, lo, hi, k - 1);
      assert s[k].addr == End(s[k - 1]);
    }
  }

  lemma AddrPositive(s: seq<Cell>, lo: nat, hi: nat, k: nat)
    requires Tiles(s, lo, hi) && 0 < lo
    ensures s != [] && AddrAt(s, 0) == lo
    ensures AddrAt(s, k) != 0 <==> k < |s|
  {
    if k < |s| {
      Below(s, lo, hi, k);
    }
  }

  lemma Nobody(s: seq<Cell>)
    ensures forall c: Cell :: c in s ==> c.addr + PAGE != 0
  {
  }

  /** What handing out block `k` means for the caller and for everybody else. */
  lemma Taken(s: seq<Cell>, lo: nat, hi: nat, k: nat, n: nat, dma: bool)
    requires Tiles(s, lo, hi) && k < |s| && Usable(s[k], n, dma)
    ensures var t, p := Take(s, k, n), s[k].addr + PAGE;
      && p % PAGE == lo % PAGE
      && (exists c: Cell :: c in t && !c.free && c.addr + PAGE == p && c.size >= n)
      && (dma && n > 0 ==> p / WINDOW == (p + n - 1) / WINDOW)
      && forall c: Cell :: !c.free && c in s ==> c in t
  {
    hide Tiles, Take, Crosses;
    TakeEffect(s, lo, hi, k, n);
    Aligned(s, lo, hi, k);
    assert Take(s, k, n)[k] in Take(s, k, n);
    if dma {
      NoCrossing(s[k], n);
    }
  }

  lemma NoCrossing(c: Cell, n: nat)
    requires Usable(c, n, true)
    ensures (c.addr + PAGE) / WINDOW == (c.addr + PAGE + n - 1) / WINDOW
  {
  }

  lemma TakeWhole(s: seq<Cell>, k: nat, n: nat)
    requires k < |s| && n <= s[k].size <= n + PAGE + 16
    ensures Take(s, k, n) == s[k := s[k].(free := false)]
  {
  }

  class Heap {
    const lo: nat
    const hi: nat
    var mem: map<nat, Header>
    ghost var cells: seq<Cell>

    ghost predicate Valid()
      reads this
    {
      0 < lo && hi < 0x1_0000_0000 && Tiles(cells, lo, hi) && Merged(cells) && Linked(mem, cells)
    }

    /** `init_heap`, `init_dma_heap` */
    constructor (lo: nat, hi: nat)
      requires 0 < lo && lo + PAGE <= hi < 0x1_0000_0000 && (hi - lo) % PAGE == 0
      ensures Valid() && this.lo == lo && this.hi == hi && cells == Initial(lo, hi)
    {
      this.lo, this.hi := lo, hi;
      mem := map[lo := Header(hi - lo - PAGE, true, 0)];
      cells := Initial(lo, hi);
    }

    /**
      `kmalloc`, and `kmalloc_dma` when `dma` is set: the first free block that is large enough (and, for DMA,
      whose start keeps clear of a boundary), split when the rest is worth a header.
     */
    method Alloc(size: u32, dma: bool) returns (p: nat)
      requires Valid()
      modifies this
      ensures Valid() && cells == HeapBlocks.Alloc(old(cells), Rounded(size), dma)
      ensures p == Answer(old(cells), FirstFit(old(cells), Rounded(size), dma, 0))
      ensures p == 0 ==> cells == old(cells)
      ensures !dma ==> (p == 0 <==> !Room(old(cells), lo, hi, PAGE + Rounded(size)))
      ensures p != 0 ==> p % PAGE == lo % PAGE
      ensures p != 0 ==>
        exists c: Cell :: c in cells && !c.free && c.addr + PAGE == p && c.size >= Rounded(size)
      ensures p != 0 && dma && Rounded(size) > 0 ==> p / WINDOW == (p + Rounded(size) - 1) / WINDOW
      ensures forall c: Cell :: !c.free && c in old(cells) ==> c in cells
    {
      hide Tiles, Take, Rounded, Room, Merged, Crosses;
      var n := Rounded(size);
      var current := lo;
      AddrPositive(cells, lo, hi, 0);
      ghost var k := 0;
      FailsIff(cells, lo, hi, n);
      while current != 0
        invariant k <= |cells| && current == AddrAt(cells, k)
        invariant cells == old(cells) && mem == old(mem) && (current != 0 <==> k < |cells|)
        invariant FirstFit(cells, n, dma, 0) == FirstFit(cells, n, dma, k)
        decreases |cells| - k
      {
        assert Links(mem, cells, k);
        Below(cells, lo, hi, k);
        var h := mem[current];
        if h.free && h.size >= n {
          if !(dma && Crosses(current + PAGE, n)) {
            assert FirstFit(cells, n, dma, k) == k;
            ghost var m: map<nat, Header> := mem;
            if h.size > n + PAGE + 16 {
              var rest: nat := current + PAGE + n;
              LinkedSplit(mem, mem[rest := Header(h.size - n - PAGE, true, h.next)][current := Header(n, false, rest)],
                cells, lo, hi, k, n, current, rest);
              mem := mem[rest := Header(h.size - n - PAGE, true, h.next)];
              mem := mem[current := Header(n, h.free, rest)];
              ghost var split: map<nat, Header> := m[rest := Header(h.size - n - PAGE, true, h.next)];
              assert mem[current := Header(n, false, rest)] == split[current := Header(n, false, rest)];
            } else {
              LinkedMark(mem, cells, lo, hi, k, false);
              TakeWhole(cells, k, n);
            }
            mem := mem[current := mem[current].(free := false)];
            TakeTiles(cells, lo, hi, k, n);
            Taken(cells, lo, hi, k, n, dma);
            cells := Take(cells, k, n);
            return current + PAGE;
          }
        }
        current := h.next;
        k := k + 1;
        AddrPositive(cells, lo, hi, k);
      }
      return 0;
    }

    /** `kfree`, `kfree_dma`: mark the block free, then merge free neighbours in one pass over the whole list. */
    method Free(p: nat)
      requires Valid() && (p == 0 || Owner(cells, p) < |cells|)
      modifies this
      ensures Valid()
      ensures cells == if p == 0 then old(cells) else Coalesce(Release(old(cells), Owner(old(cells), p)))
      ensures forall c: Cell :: !c.free ==> (c in cells <==> c in old(cells) && c.addr + PAGE != p)
    {
      hide Tiles, Merged, Coalesce, Owner, Joined;
      if p == 0 {
        Nobody(cells);
        return;
      }
      ghost var s, k := cells, Owner(cells, p);
      LinkedMark(mem, s, lo, hi, k, true);
      ReleaseTiles(s, lo, hi, k);
      mem := mem[p - PAGE := mem[p - PAGE].(free := true)];
      ghost var t := Release(s, k);
      cells := t;
      var current := lo;
      ghost var j := 0;
      assert cells[0..] == cells && cells[..0] + Coalesce(cells) == Coalesce(cells);
      AddrPositive(cells, lo, hi, 0);
      while current != 0
        invariant j <= |cells| && current == AddrAt(cells, j) && (current != 0 <==> j < |cells|)
        invariant Tiles(cells, lo, hi) && Linked(mem, cells)
        invariant Coalesce(t) == cells[..j] + Coalesce(cells[j..])
        decreases 2 * |cells| - j
      {
        assert Links(mem, cells, j) && Links(mem, cells, j + 1);
        AddrPositive(cells, lo, hi, j + 1);
        var h := mem[current];
        if h.free && h.next != 0 && mem[h.next].free {
          var after := mem[h.next];
          LinkedJoin(mem, mem[current := Header(h.size + PAGE + after.size, h.free, after.next)], cells, lo, hi, j);
          JoinedTiles(cells, lo, hi, j);
          JoinRest(cells, j);
          mem := mem[current := Header(h.size + PAGE + after.size, h.free, after.next)];
          cells := Joined(cells, j);
        } else {
          PassBy(cells, j);
          current := h.next;
          j := j + 1;
        }
      }
      assert cells[..j] == cells && cells[j..] == [] && cells + [] == cells;
      NothingLeft();
      CoalesceMerges(t);
      forall c: Cell | !c.free
        ensures c in cells <==> c in s && c.addr + PAGE != p
      {
        FreeEffect(s, lo, hi, k, c);
        OnlyOwner(s, lo, hi, k, c);
      }
    }
  }

  lemma OnlyOwner(s: seq<Cell>, lo: nat, hi: nat, k: nat, c: Cell)
    requires Tiles(s, lo, hi) && k < |s|
    ensures c in s ==> (c == s[k] <==> c.addr == s[k].addr)
  {
    AddrsDiffer(s, lo, hi, k);
  }

  lemma NothingLeft()
    ensures Coalesce([]) == []
  {
  }

  lemma JoinRest(s: seq<Cell>, j: nat)
    requires j + 1 < |s| && s[j].free && s[j + 1].free
    ensures var t := Joined(s, j);
      |t| == |s| - 1 && t[j].addr == s[j].addr && t[..j] == s[..j] && Coalesce(t[j..]) == Coalesce(s[j..])
  {
    var t := Joined(s, j);
    assert t[j..] == [Join(s[j], s[j + 1])] + s[j + 2..];
    assert s[j..][2..] == s[j + 2..];
  }

  lemma PassBy(s: seq<Cell>, j: nat)
    requires j < |s| && !(s[j].free && j + 1 < |s| && s[j + 1].free)
    ensures s[..j] + Coalesce(s[j..]) == s[..j + 1] + Coalesce(s[j + 1..])
  {
    hide Coalesce;
    PassHead(s[j..]);
    assert s[j..][1..] == s[j + 1..];
    assert s[..j + 1] == s[..j] + [s[j]];
  }

  lemma PassHead(s: seq<Cell>)
    requires s != [] && !(s[0].free && 1 < |s| && s[1].free)
    ensures Coalesce(s) == [s[0]] + Coalesce(s[1..])
  {
    if |s| == 1 {
      assert s == [s[0]] + s[1..];
    }
  }
}
