/** Bookkeeping for the double indirect stage: positions are counted from the master block on. */
module DoubleStage {
  import opened Bytes
  import opened Bitmap
  import opened BlockTree
  import opened Allocation

  /** The `i`-th sub pointer block is in the master's table and lists its leaves, or could not be allocated. */
  ghost predicate SubDone(d: Disk, masters: seq<u32>, a: seq<u32>, count: nat, i: nat)
    requires |masters| == PTRS && i < PTRS
  {
    && 1 + 257 * i < |a| && masters[i] == a[1 + 257 * i]
    && (masters[i] != 0 ==> forall k :: 0 <= k < PTRS ==>
          Pointers(At(d, masters[i]))[k] == if PTRS * i + k < count && 2 + 257 * i + k < |a| then a[2 + 257 * i + k]
            else 0)
    && (masters[i] == 0 ==> At(d, 0) == ZeroBlock())
  }

  function LeafPos(k: nat): nat {
    2 + k + k / PTRS
  }

  /** State after `m` sub pointer blocks and `w` leaves out of `count`. */
  ghost predicate DoubleInv(d: Disk, masters: seq<u32>, a: seq<u32>, content: seq<byte>, count: nat, m: nat, w: nat) {
    && |masters| == PTRS && m <= PTRS
    && w == (if PTRS * m < count then PTRS * m else count) && |a| == 1 + w + m
    && (m > 0 ==> PTRS * (m - 1) < count)
    && (forall i :: 0 <= i < m ==> SubDone(d, masters, a, count, i))
    && (forall i :: m <= i < PTRS ==> masters[i] == 0)
    && (forall k: nat :: k < w && LeafPos(k) < |a| && a[LeafPos(k)] != 0 ==>
         At(d, a[LeafPos(k)]) == Chunk(content, SINGLE_END + k))
  }

  lemma KeptAt(bm: Bits, bm': Bits, a: seq<u32>, d: Disk, d': Disk, x: u32)
    requires Allocated(bm, bm', a) && Kept(bm', d, d') && x in a && x != 0
    ensures At(d', x) == At(d, x)
  {
    hide Bit;
  }

  lemma FailedBefore(bm: Bits, bm': Bits, bm'': Bits, a: seq<u32>, list: u32, leaves: seq<u32>)
    requires Allocated(bm, bm', a) && 0 in a && Allocated(bm', bm'', [list] + leaves)
    ensures list == 0
  {
    hide Bit;
    assert list in [list] + leaves;
  }

  lemma SubKept(bm: Bits, bm': Bits, bm'': Bits, d: Disk, d': Disk, masters: seq<u32>, a: seq<u32>, count: nat, i: nat,
                m: nat, list: u32, leaves: seq<u32>)
    requires |masters| == PTRS && i < m < PTRS && SubDone(d, masters, a, count, i) && 1 + 257 * m == |a|
    requires Allocated(bm, bm', a) && Kept(bm', d, d') && Allocated(bm', bm'', [list] + leaves)
    requires list == 0 ==> At(d', 0) == ZeroBlock()
    ensures SubDone(d', masters[m := list], a + ([list] + leaves), count, i)
  {
    hide Allocated, Kept, At, Pointers, ZeroBlock;
    assert masters[i] in a;
    if masters[i] == 0 {
      FailedBefore(bm, bm', bm'', a, list, leaves);
    } else {
      KeptAt(bm, bm', a, d, d', masters[i]);
    }
  }

  lemma LeafKept(bm: Bits, bm': Bits, d: Disk, d': Disk, a: seq<u32>, k: nat)
    requires Allocated(bm, bm', a) && Kept(bm', d, d') && k < |a| && a[k] != 0
    ensures At(d', a[k]) == At(d, a[k])
  {
    KeptAt(bm, bm', a, d, d', a[k]);
  }

  lemma LeafPosNew(m: nat, k: nat)
    requires k < PTRS
    ensures LeafPos(PTRS * m + k) == 2 + 257 * m + k
  {
    assert (PTRS * m + k) / PTRS == m;
  }

  lemma LeafPosOld(m: nat, k: nat)
    requires k < PTRS * m
    ensures LeafPos(k) < 1 + 257 * m
  {
  }

  /** One more sub pointer block. */
  lemma DoubleStep(bm: Bits, bm': Bits, bm'': Bits, d: Disk, d': Disk, masters: seq<u32>, a: seq<u32>,
                   content: seq<byte>,
                   count: nat, m: nat, list: u32, ptrs: seq<u32>, c: nat)
    requires DoubleInv(d, masters, a, content, count, m, PTRS * m) && m < PTRS && PTRS * m < count
    requires c == (if count - PTRS * m < PTRS then count - PTRS * m else PTRS) && |ptrs| == PTRS
    requires forall k :: c <= k < PTRS ==> ptrs[k] == 0
    requires Allocated(bm, bm', a) && Kept(bm', d, d') && Allocated(bm', bm'', [list] + ptrs[..c])
    requires Pointers(At(d', list)) == ptrs && (list == 0 ==> At(d', 0) == ZeroBlock())
    requires forall k :: 0 <= k < c && ptrs[k] != 0 ==> At(d', ptrs[k]) == Chunk(content, SINGLE_END + PTRS * m + k)
    ensures DoubleInv(d', masters[m := list], a + ([list] + ptrs[..c]), content, count, m + 1, PTRS * m + c)
  {
    hide Allocated, Kept, At, Pointers, ZeroBlock, Chunk, LeafPos;
    var a', ms := a + ([list] + ptrs[..c]), masters[m := list];
    assert |a| == 1 + 257 * m;
    forall i | 0 <= i < m + 1
      ensures SubDone(d', ms, a', count, i)
    {
      if i < m {
        SubKept(bm, bm', bm'', d, d', masters, a, count, i, m, list, ptrs[..c]);
      } else {
        assert a'[1 + 257 * m] == list;
        assert forall k :: 0 <= k < c ==> a'[2 + 257 * m + k] == ptrs[k];
      }
    }
    forall k: nat | k < PTRS * m + c && LeafPos(k) < |a'| && a'[LeafPos(k)] != 0
      ensures At(d', a'[LeafPos(k)]) == Chunk(content, SINGLE_END + k)
    {
      if k < PTRS * m {
        LeafPosOld(m, k);
        LeafKept(bm, bm', d, d', a, LeafPos(k));
      } else {
        LeafPosNew(m, k - PTRS * m);
        assert a'[LeafPos(k)] == ptrs[k - PTRS * m];
      }
    }
  }

  lemma MasterIsFirst(bm: Bits, bm': Bits, a: seq<u32>, k: nat)
    requires Allocated(bm, bm', a) && 0 < k < |a|
    ensures a[0] == 0 ==> a[k] == 0
    ensures a[k] != 0 ==> a[k] != a[0]
  {
  }

  lemma SubMaster(d: Disk, d': Disk, masters: seq<u32>, a: seq<u32>, count: nat, i: nat)
    requires |masters| == PTRS && i < PTRS && SubDone(d, masters, a, count, i) && |a| > 0 && a[0] < |d|
    requires masters[i] != 0 ==> masters[i] != a[0]
    requires a[0] == 0 ==> masters[i] == 0 && PointerBytes(masters) == ZeroBlock()
    requires d' == d[a[0] := PointerBytes(masters)]
    ensures SubDone(d', masters, a, count, i)
  {
    if masters[i] != 0 {
      assert At(d', masters[i]) == At(d, masters[i]);
    } else if a[0] != 0 {
      assert At(d', 0) == At(d, 0);
    }
  }

  lemma AllZero(masters: seq<u32>)
    requires |masters| == PTRS && forall i :: 0 <= i < PTRS ==> masters[i] == 0
    ensures PointerBytes(masters) == ZeroBlock()
  {
    assert masters == seq(PTRS, _ => 0);
    ZeroPointers();
  }

  /** Writing the master block last disturbs nothing. */
  lemma DoubleMaster(bm: Bits, bm': Bits, d: Disk, d': Disk, masters: seq<u32>, a: seq<u32>, content: seq<byte>,
                     count: nat, m: nat)
    requires DoubleInv(d, masters, a, content, count, m, count) && Allocated(bm, bm', a) && a[0] < |d|
    requires d' == d[a[0] := PointerBytes(masters)]
    ensures DoubleInv(d', masters, a, content, count, m, count)
    ensures Pointers(At(d', a[0])) == masters
    ensures a[0] == 0 ==> At(d', 0) == ZeroBlock()
  {
    hide Allocated, Pointers, PointerBytes, ZeroBlock, Chunk, LeafPos;
    PointersRoundTrip(masters);
    forall i | 0 <= i < PTRS
      ensures i < m ==> masters[i] == a[1 + 257 * i] && (masters[i] != 0 ==> masters[i] != a[0])
      ensures a[0] == 0 ==> masters[i] == 0
    {
      if i < m {
        assert SubDone(d, masters, a, count, i);
        MasterIsFirst(bm, bm', a, 1 + 257 * i);
      }
    }
    if a[0] == 0 {
      AllZero(masters);
    }
    forall i | 0 <= i < m
      ensures SubDone(d', masters, a, count, i)
    {
      SubMaster(d, d', masters, a, count, i);
    }
    forall k: nat | k < count && LeafPos(k) < |a| && a[LeafPos(k)] != 0
      ensures At(d', a[LeafPos(k)]) == Chunk(content, SINGLE_END + k)
    {
      assert LeafPos(k) > 0 by {
        LeafPosPositive(k);
      }
      MasterIsFirst(bm, bm', a, LeafPos(k));
    }
  }

  lemma LeafPosPositive(k: nat)
    ensures LeafPos(k) > 0
  {
  }

  /** Before the first sub pointer block. */
  lemma DoubleStart(d: Disk, master: u32, content: seq<byte>, count: nat)
    ensures DoubleInv(d, seq(PTRS, _ => 0), [master], content, count, 0, 0)
  {
  }
}
