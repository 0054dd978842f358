/** The list of heap blocks as a sequence, and what allocating and freeing do to it. */
module HeapBlocks {
  import opened Bytes

  /** Size of a block header, and the unit every request is rounded up to. */
  const PAGE := 4096

  /** The DMA controller cannot cross a multiple of this. */
  const WINDOW := 131072

  datatype Cell = Cell(addr: nat, size: nat, free: bool)

  function End(c: Cell): nat {
    c.addr + PAGE + c.size
  }

  /** The blocks cover `lo` to `hi` without gap or overlap, in whole pages. */
  ghost predicate Tiles(s: seq<Cell>, lo: nat, hi: nat) {
    && s != [] && s[0].addr == lo && End(s[|s| - 1]) == hi
    && (forall i, j :: 0 <= i < j < |s| && j == i + 1 ==> s[j].addr == End(s[i]))
    && forall i :: 0 <= i < |s| ==> s[i].size % PAGE == 0
  }

  /** No two neighbours are both free. */
  ghost predicate Merged(s: seq<Cell>) {
    forall i, j :: 0 <= i < j < |s| && j == i + 1 ==> !(s[i].free && s[j].free)
  }

  /** Every block up to block `k` is followed by one that starts later. */
  lemma {:induction false} Ordered(s: seq<Cell>, lo: nat, hi: nat, i: nat, j: nat)
    requires Tiles(s, lo, hi) && i < j < |s|
    ensures lo <= s[i].addr && End(s[i]) <= s[j].addr && End(s[j]) <= hi
    decreases |s| - i
  {
    Below(s, lo, hi, i);
    Above(s, lo, hi, j);
    if i + 1 < j {
      Ordered(s, lo, hi, i + 1, j);
    }
  }

  lemma {:induction false} Below(s: seq<Cell>, lo: nat, hi: nat, i: nat)
    requires Tiles(s, lo, hi) && i < |s|
    ensures lo <= s[i].addr
  {
    if i > 0 {
      Below(s, lo, hi, i - 1);
      assert s[i].addr == End(s[i - 1]);
    }
  }

  lemma {:induction false} Above(s: seq<Cell>, lo: nat, hi: nat, i: nat)
    requires Tiles(s, lo, hi) && i < |s|
    ensures End(s[i]) <= hi
    decreases |s| - i
  {
    if i + 1 < |s| {
      Above(s, lo, hi, i + 1);
      assert s[i + 1].addr == End(s[i]);
    }
  }

  /** Headers and payloads of different blocks never overlap. */
  lemma Disjoint(s: seq<Cell>, lo: nat, hi: nat, i: nat, j: nat, x: nat)
    requires Tiles(s, lo, hi) && i < |s| && j < |s| && s[i].addr <= x < End(s[i]) && s[j].addr <= x < End(s[j])
    ensures i == j
  {
    if i < j {
      Ordered(s, lo, hi, i, j);
    } else if j < i {
      Ordered(s, lo, hi, j, i);
    }
  }

  // ----- allocating -----

  /** The size after rounding up to whole pages, in 32 bits: the largest requests come out as 0. */
  function Rounded(size: u32): (r: u32)
    ensures r % PAGE == 0
    ensures size <= 0xFFFF_F000 ==> size <= r < size + PAGE
    ensures size > 0xFFFF_F000 ==> r == 0
  {
    if size % PAGE != 0 then (size + (PAGE - size % PAGE)) % 0x1_0000_0000 else size
  }

  /** The range of `n` bytes at `p` runs over a DMA boundary; for `n == 0` the end lies before `p`. */
  predicate Crosses(p: nat, n: nat) {
    p / WINDOW != (p + n - 1) / WINDOW
  }

  predicate Usable(c: Cell, n: nat, dma: bool) {
    c.free && c.size >= n && !(dma && Crosses(c.addr + PAGE, n))
  }

  /** First block from `k` on that the allocator accepts; |s| when there is none. */
  function FirstFit(s: seq<Cell>, n: nat, dma: bool, k: nat): (r: nat)
    requires k <= |s|
    ensures k <= r <= |s| && (r < |s| ==> Usable(s[r], n, dma))
    ensures forall i :: k <= i < r ==> !Usable(s[i], n, dma)
    decreases |s| - k
  {
    if k == |s| || Usable(s[k], n, dma) then k else FirstFit(s, n, dma, k + 1)
  }

  /** Block `k` handed out for `n` bytes; the rest becomes a block of its own when it is worth a header. */
  function Take(s: seq<Cell>, k: nat, n: nat): seq<Cell>
    requires k < |s| && s[k].size >= n
  {
    var c := s[k];
    if c.size > n + PAGE + 16 then
      s[..k] + [Cell(c.addr, n, false), Cell(c.addr + PAGE + n, c.size - n - PAGE, true)] + s[k + 1..]
    else s[k := c.(free := false)]
  }

  function Alloc(s: seq<Cell>, n: nat, dma: bool): seq<Cell> {
    var k := FirstFit(s, n, dma, 0);
    if k == |s| then s else Take(s, k, n)
  }

  /** What a split looks like block by block. */
  lemma SplitShape(s: seq<Cell>, k: nat, n: nat)
    requires k < |s| && s[k].size > n + PAGE + 16
    ensures var t := Take(s, k, n);
      && |t| == |s| + 1 && t[k] == Cell(s[k].addr, n, false) &&
           t[k + 1] == Cell(s[k].addr + PAGE + n, s[k].size - n - PAGE, true)
      && (forall i :: 0 <= i < k ==> t[i] == s[i]) && forall i :: k + 2 <= i < |t| ==> t[i] == s[i - 1]
  {
  }

  /** Two blocks in place of block `k` that cover the same bytes: the first taken, the second free. */
  lemma SplitTiles(s: seq<Cell>, t: seq<Cell>, lo: nat, hi: nat, k: nat)
    requires Tiles(s, lo, hi) && Merged(s) && k < |s| && s[k].free && |t| == |s| + 1
    requires t[k].addr == s[k].addr && !t[k].free && t[k].size % PAGE == 0
    requires t[k + 1].addr == End(t[k]) && End(t[k + 1]) == End(s[k]) && t[k + 1].size % PAGE == 0 && t[k + 1].free
    requires (forall i :: 0 <= i < k ==> t[i] == s[i]) && forall i :: k + 2 <= i < |t| ==> t[i] == s[i - 1]
    ensures Tiles(t, lo, hi) && Merged(t)
  {
    forall i, j | 0 <= i < j < |t| && j == i + 1
      ensures t[j].addr == End(t[i]) && !(t[i].free && t[j].free)
    {
      if j <= k {
        assert s[j].addr == End(s[i]);
      } else if i > k {
        assert s[i].addr == End(s[i - 1]);
      }
    }
  }

  lemma TakeTiles(s: seq<Cell>, lo: nat, hi: nat, k: nat, n: nat)
    requires Tiles(s, lo, hi) && Merged(s) && k < |s| && s[k].free && s[k].size >= n && n % PAGE == 0
    ensures Tiles(Take(s, k, n), lo, hi) && Merged(Take(s, k, n))
  {
    if s[k].size > n + PAGE + 16 {
      hide Take;
      SplitShape(s, k, n);
      SplitTiles(s, Take(s, k, n), lo, hi, k);
    }
  }

  /** An allocation that succeeds: who got it, that it is large enough, and that nobody else is touched. */
  lemma TakeEffect(s: seq<Cell>, lo: nat, hi: nat, k: nat, n: nat)
    requires Tiles(s, lo, hi) && k < |s| && s[k].free && s[k].size >= n
    ensures var t := Take(s, k, n);
      && k < |t| && t[k].addr == s[k].addr && !t[k].free && n <= t[k].size
      && (s[k].size <= n + PAGE + 16 ==> t[k].size == s[k].size)
      && (s[k].size > n + PAGE + 16 ==> t[k].size == n)
      && (forall c: Cell :: !c.free && c in t <==> !c.free && (c in s || c == t[k]))
  {
    var t := Take(s, k, n);
    if s[k].size > n + PAGE + 16 {
      var a, b := Cell(s[k].addr, n, false), Cell(s[k].addr + PAGE + n, s[k].size - n - PAGE, true);
      assert t == s[..k] + [a, b] + s[k + 1..];
      forall c: Cell | !c.free
        ensures c in t <==> c in s || c == t[k]
      {
        assert s == s[..k] + [s[k]] + s[k + 1..];
        assert c in [a, b] <==> c == a;
      }
    } else {
      assert t == s[..k] + [t[k]] + s[k + 1..];
      assert s == s[..k] + [s[k]] + s[k + 1..];
    }
  }

  // ----- when an allocation fails -----

  /** `len` bytes at `p` inside the heap that overlap no allocated block, headers included. */
  ghost predicate Stretch(s: seq<Cell>, lo: nat, hi: nat, p: nat, len: nat) {
    && lo <= p && p + len <= hi
    && forall i :: 0 <= i < |s| && !s[i].free ==> End(s[i]) <= p || p + len <= s[i].addr
  }

  /** Somewhere there are `len` contiguous bytes free. */
  ghost predicate Room(s: seq<Cell>, lo: nat, hi: nat, len: nat) {
    exists p: nat :: Stretch(s, lo, hi, p, len)
  }

  lemma {:induction false} CellAt(s: seq<Cell>, lo: nat, hi: nat, p: nat, k: nat) returns (i: nat)
    requires Tiles(s, lo, hi) && lo <= p < hi && k < |s| && s[k].addr <= p
    ensures i < |s| && s[i].addr <= p < End(s[i])
    decreases |s| - k
  {
    if p < End(s[k]) {
      i := k;
    } else {
      assert k + 1 < |s|;
      i := CellAt(s, lo, hi, p, k + 1);
    }
  }

  /** Free memory that is contiguous lies in one free block, because neighbours are merged. */
  lemma StretchInside(s: seq<Cell>, lo: nat, hi: nat, len: nat, n: nat) returns (i: nat)
    requires Tiles(s, lo, hi) && Merged(s) && Room(s, lo, hi, len) && len == PAGE + n
    ensures i < |s| && Usable(s[i], n, false)
  {
    var p: nat :| Stretch(s, lo, hi, p, len);
    i := CellAt(s, lo, hi, p, 0);
    if i + 1 < |s| {
      assert s[i + 1].addr == End(s[i]);
    }
  }

  /** A free block is contiguous free memory from its header on. */
  lemma BlockStretch(s: seq<Cell>, lo: nat, hi: nat, k: nat, len: nat)
    requires Tiles(s, lo, hi) && k < |s| && s[k].free && s[k].addr + len <= End(s[k])
    ensures Stretch(s, lo, hi, s[k].addr, len)
  {
    forall i | 0 <= i < |s| && !s[i].free
      ensures End(s[i]) <= s[k].addr || s[k].addr + len <= s[i].addr
    {
      if i < k {
        Ordered(s, lo, hi, i, k);
      } else {
        Ordered(s, lo, hi, k, i);
      }
    }
    Below(s, lo, hi, k);
    Above(s, lo, hi, k);
  }

  /** The plain allocator fails exactly when no contiguous free memory holds the header and the rounded request. */
  lemma FailsIff(s: seq<Cell>, lo: nat, hi: nat, n: nat)
    requires Tiles(s, lo, hi) && Merged(s)
    ensures FirstFit(s, n, false, 0) == |s| <==> !Room(s, lo, hi, PAGE + n)
  {
    var k := FirstFit(s, n, false, 0);
    if k < |s| {
      BlockStretch(s, lo, hi, k, PAGE + n);
    } else if Room(s, lo, hi, PAGE + n) {
      var i := StretchInside(s, lo, hi, PAGE + n, n);
    }
  }

  /** Free memory can begin at `p`: at the bottom of the heap, or right behind an allocated block. */
  ghost predicate Opens(s: seq<Cell>, lo: nat, p: nat) {
    p == lo || exists i :: 0 <= i < |s| && !s[i].free && End(s[i]) == p
  }

  /** Contiguous free memory for header and request at `p`, with the request clear of every boundary. */
  ghost predicate DmaRange(s: seq<Cell>, lo: nat, hi: nat, p: nat, n: nat) {
    Stretch(s, lo, hi, p, PAGE + n) && !Crosses(p + PAGE, n)
  }

  lemma CellOpening(s: seq<Cell>, lo: nat, hi: nat, p: nat) returns (i: nat)
    requires Tiles(s, lo, hi) && Opens(s, lo, p) && p < hi
    ensures i < |s| && s[i].addr == p
  {
    if p == lo {
      i := 0;
    } else {
      var j :| 0 <= j < |s| && !s[j].free && End(s[j]) == p;
      i := j + 1;
      assert s[i].addr == End(s[j]);
    }
  }

  /** A range that would do and begins where free memory begins is the start of a block the DMA twin accepts. */
  lemma DmaUsable(s: seq<Cell>, lo: nat, hi: nat, p: nat, n: nat) returns (i: nat)
    requires Tiles(s, lo, hi) && Merged(s) && Opens(s, lo, p) && DmaRange(s, lo, hi, p, n)
    ensures i < |s| && Usable(s[i], n, true)
  {
    hide Crosses;
    i := CellOpening(s, lo, hi, p);
    if i + 1 < |s| {
      assert s[i + 1].addr == End(s[i]);
    }
  }

  /**
    The DMA twin fails exactly when no range that would do begins where free memory begins: it tries each free block
    at its start only, and never a later part of it.
   */
  lemma DmaFailsIff(s: seq<Cell>, lo: nat, hi: nat, n: nat)
    requires Tiles(s, lo, hi) && Merged(s)
    ensures FirstFit(s, n, true, 0) == |s| <==> !exists p: nat :: Opens(s, lo, p) && DmaRange(s, lo, hi, p, n)
  {
    var k := FirstFit(s, n, true, 0);
    if k < |s| {
      BlockStretch(s, lo, hi, k, PAGE + n);
      if k > 0 {
        assert s[k].addr == End(s[k - 1]) && !s[k - 1].free;
      }
      assert Opens(s, lo, s[k].addr) && DmaRange(s, lo, hi, s[k].addr, n);
    } else if p: nat :| Opens(s, lo, p) && DmaRange(s, lo, hi, p, n) {
      var i := DmaUsable(s, lo, hi, p, n);
    }
  }

  const DMA_START := 0x20_0000
  const DMA_END := 0x40_0000

  /** The list `init_dma_heap` makes. */
  function EmptyDma(): seq<Cell> {
    [Cell(DMA_START, DMA_END - DMA_START - PAGE, true)]
  }

  /** The empty DMA heap serves requests up to 124 KB: the header takes the first page of the window it begins in. */
  lemma EmptyDmaIff(n: nat)
    requires n > 0
    ensures FirstFit(EmptyDma(), n, true, 0) == 0 <==> n <= WINDOW - PAGE
  {
    var p := DMA_START + PAGE;
    assert p / WINDOW == 16;
    if n <= WINDOW - PAGE {
      assert (p + n - 1) / WINDOW == 16;
    } else {
      assert p + n - 1 >= 17 * WINDOW;
    }
  }

  /** So it refuses 128 KB, although the second window has room for them. */
  lemma DmaOverlooks()
    ensures var s, n := EmptyDma(), WINDOW;
      && Tiles(s, DMA_START, DMA_END) && Merged(s)
      && FirstFit(s, n, true, 0) == |s| && DmaRange(s, DMA_START, DMA_END, DMA_START + WINDOW - PAGE, n)
  {
    EmptyDmaIff(WINDOW);
  }

  /** No request of more than 131072 bytes is ever met from the DMA heap, however empty it is. */
  lemma DmaLimit(s: seq<Cell>, n: nat)
    requires n > WINDOW
    ensures FirstFit(s, n, true, 0) == |s|
  {
    forall p: nat
      ensures Crosses(p, n)
    {
      DivGrows(p + WINDOW, p + n - 1);
    }
  }

  lemma DivGrows(a: nat, b: nat)
    requires WINDOW <= a <= b
    ensures (a - WINDOW) / WINDOW < b / WINDOW
  {
  }

  // ----- freeing -----

  function Join(a: Cell, b: Cell): Cell {
    Cell(a.addr, a.size + PAGE + b.size, a.free)
  }

  /** The pass over the whole list that merges free neighbours. */
  function Coalesce(s: seq<Cell>): (r: seq<Cell>)
    decreases |s|
  {
    if |s| < 2 then s
    else if s[0].free && s[1].free then Coalesce([Join(s[0], s[1])] + s[2..])
    else [s[0]] + Coalesce(s[1..])
  }

  function Release(s: seq<Cell>, k: nat): seq<Cell>
    requires k < |s|
  {
    s[k := s[k].(free := true)]
  }

  lemma {:induction false} CoalesceHead(s: seq<Cell>)
    requires s != []
    ensures Coalesce(s) != [] && Coalesce(s)[0].addr == s[0].addr && Coalesce(s)[0].free == s[0].free
    decreases |s|
  {
    if |s| >= 2 && s[0].free && s[1].free {
      CoalesceHead([Join(s[0], s[1])] + s[2..]);
    }
  }

  /** After the pass no two neighbours are free, whatever the list was before. */
  lemma {:induction false} CoalesceMerges(s: seq<Cell>)
    ensures Merged(Coalesce(s))
    decreases |s|
  {
    if |s| >= 2 {
      if s[0].free && s[1].free {
        CoalesceMerges([Join(s[0], s[1])] + s[2..]);
      } else {
        CoalesceMerges(s[1..]);
        CoalesceHead(s[1..]);
        var r := Coalesce(s[1..]);
        assert Coalesce(s) == [s[0]] + r;
        assert forall i :: 1 <= i < |r| + 1 ==> ([s[0]] + r)[i] == r[i - 1];
      }
    }
  }

  lemma TilesTail(s: seq<Cell>, lo: nat, hi: nat)
    requires |s| >= 2
    ensures Tiles(s, lo, hi) <==> s[0].addr == lo && s[0].size % PAGE == 0 && Tiles(s[1..], End(s[0]), hi)
  {
    var t := s[1..];
    assert forall i :: 0 <= i < |t| ==> t[i] == s[i + 1];
    if s[0].addr == lo && s[0].size % PAGE == 0 && Tiles(t, End(s[0]), hi) {
      forall i, j | 0 <= i < j < |s| && j == i + 1
        ensures s[j].addr == End(s[i])
      {
        if i > 0 {
          assert t[j - 1].addr == End(t[i - 1]);
        }
      }
      assert forall i :: 0 < i < |s| ==> s[i] == t[i - 1];
    }
  }

  lemma JoinTiles(s: seq<Cell>, lo: nat, hi: nat)
    requires |s| >= 2 && Tiles(s, lo, hi)
    ensures Tiles([Join(s[0], s[1])] + s[2..], lo, hi)
  {
    var t := [Join(s[0], s[1])] + s[2..];
    assert s[1].addr == End(s[0]);
    assert forall i :: 1 <= i < |t| ==> t[i] == s[i + 1];
    forall i, j | 0 <= i < j < |t| && j == i + 1
      ensures t[j].addr == End(t[i])
    {
      assert s[j + 1].addr == End(s[i + 1]);
    }
  }

  lemma {:induction false} CoalesceTiles(s: seq<Cell>, lo: nat, hi: nat)
    requires Tiles(s, lo, hi)
    ensures Tiles(Coalesce(s), lo, hi)
    decreases |s|
  {
    if |s| >= 2 {
      if s[0].free && s[1].free {
        JoinTiles(s, lo, hi);
        CoalesceTiles([Join(s[0], s[1])] + s[2..], lo, hi);
      } else {
        TilesTail(s, lo, hi);
        CoalesceTiles(s[1..], End(s[0]), hi);
        var r := Coalesce(s);
        CoalesceHead(s[1..]);
        assert r[1..] == Coalesce(s[1..]);
        TilesTail(r, lo, hi);
      }
    }
  }

  /** Merging neither moves, resizes nor drops an allocated block, and makes none. */
  lemma {:induction false} CoalesceKeeps(s: seq<Cell>, c: Cell)
    requires !c.free
    ensures c in Coalesce(s) <==> c in s
    decreases |s|
  {
    if |s| >= 2 {
      if s[0].free && s[1].free {
        var t := [Join(s[0], s[1])] + s[2..];
        CoalesceKeeps(t, c);
        assert s == [s[0], s[1]] + s[2..];
      } else {
        CoalesceKeeps(s[1..], c);
        assert s == [s[0]] + s[1..];
      }
    }
  }

  lemma ReleaseTiles(s: seq<Cell>, lo: nat, hi: nat, k: nat)
    requires Tiles(s, lo, hi) && k < |s|
    ensures Tiles(Release(s, k), lo, hi)
  {
  }

  /** Freeing block `k` leaves exactly the other allocated blocks allocated, in place and of the same size. */
  lemma FreeEffect(s: seq<Cell>, lo: nat, hi: nat, k: nat, c: Cell)
    requires Tiles(s, lo, hi) && k < |s| && !c.free
    ensures c in Coalesce(Release(s, k)) <==> c in s && c != s[k]
  {
    CoalesceKeeps(Release(s, k), c);
    var t := Release(s, k);
    if c in s && c != s[k] {
      var i :| 0 <= i < |s| && s[i] == c;
      assert t[i] == c;
    }
    if c in t {
      var i :| 0 <= i < |t| && t[i] == c;
      assert i != k && s[i] == c;
      if c == s[k] {
        Distinct(s, lo, hi, i, k);
      }
    }
  }

  lemma Distinct(s: seq<Cell>, lo: nat, hi: nat, i: nat, k: nat)
    requires Tiles(s, lo, hi) && i < |s| && k < |s| && i != k
    ensures s[i].addr != s[k].addr
  {
    Ordered(s, lo, hi, if i < k then i else k, if i < k then k else i);
  }

  /** What `init_heap` makes of the range. */
  function Initial(lo: nat, hi: nat): seq<Cell>
    requires lo + PAGE <= hi
  {
    [Cell(lo, hi - lo - PAGE, true)]
  }

  lemma FirstPair(s: seq<Cell>)
    requires Merged(s) && |s| >= 2
    ensures !(s[0].free && s[1].free)
  {
  }

  /** Once everything is free again, the list is the single initial block. */
  lemma AllFreeIsInitial(s: seq<Cell>, lo: nat, hi: nat)
    requires Tiles(s, lo, hi) && Merged(s) && forall i :: 0 <= i < |s| ==> s[i].free
    ensures lo + PAGE <= hi && s == Initial(lo, hi)
  {
    if |s| >= 2 {
      FirstPair(s);
    }
  }

  // ----- whole runs -----

  /** Requests to a heap; a block is freed by the address of its payload. */
  datatype Request = Get(size: u32, dma: bool) | Put(p: nat)

  /** Index of the block whose payload starts at `p`; |s| when there is none. */
  function Owner(s: seq<Cell>, p: nat): (k: nat)
    ensures k <= |s| && (k < |s| ==> s[k].addr + PAGE == p)
    ensures k == |s| ==> forall i :: 0 <= i < |s| ==> s[i].addr + PAGE != p
  {
    if s == [] then 0 else if s[0].addr + PAGE == p then 0 else
      var k := Owner(s[1..], p);
      assert forall i :: 1 <= i < |s| ==> s[i] == s[1..][i - 1];
      k + 1
  }

  function After(s: seq<Cell>, r: Request): seq<Cell> {
    match r
    case Get(size, dma) => Alloc(s, Rounded(size), dma)
    case Put(p) => if Owner(s, p) == |s| then s else Coalesce(Release(s, Owner(s, p)))
  }

  function AfterAll(s: seq<Cell>, rs: seq<Request>): seq<Cell>
    decreases |rs|
  {
    if rs == [] then s else After(AfterAll(s, rs[..|rs| - 1]), rs[|rs| - 1])
  }

  lemma StepKeeps(s: seq<Cell>, lo: nat, hi: nat, r: Request)
    requires Tiles(s, lo, hi) && Merged(s)
    ensures Tiles(After(s, r), lo, hi) && Merged(After(s, r))
  {
    match r
    case Get(size, dma) =>
      var k := FirstFit(s, Rounded(size), dma, 0);
      if k < |s| {
        TakeTiles(s, lo, hi, k, Rounded(size));
      }
    case Put(p) =>
      var k := Owner(s, p);
      if k < |s| {
        ReleaseTiles(s, lo, hi, k);
        CoalesceTiles(Release(s, k), lo, hi);
        CoalesceMerges(Release(s, k));
      }
  }

  /**
    From the initial block on, every run of requests keeps the tiling, and nothing allocated means nothing changed at
    all.
   */
  lemma {:induction false} RunKeeps(lo: nat, hi: nat, rs: seq<Request>)
    requires lo + PAGE <= hi && (hi - lo) % PAGE == 0
    ensures var s := AfterAll(Initial(lo, hi), rs);
      Tiles(s, lo, hi) && Merged(s) && ((forall i :: 0 <= i < |s| ==> s[i].free) <==> s == Initial(lo, hi))
    decreases |rs|
  {
    var s := AfterAll(Initial(lo, hi), rs);
    if rs != [] {
      RunKeeps(lo, hi, rs[..|rs| - 1]);
      StepKeeps(AfterAll(Initial(lo, hi), rs[..|rs| - 1]), lo, hi, rs[|rs| - 1]);
    }
    if forall i :: 0 <= i < |s| ==> s[i].free {
      AllFreeIsInitial(s, lo, hi);
    }
  }
}
