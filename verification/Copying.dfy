/** The block-by-block loop of `ext2_copy_file` over two trees on the same disk. */
module Copying {
  import opened Bytes
  import opened Bitmap
  import opened BlockTree
  import opened Allocation
  import opened TreeAssembly

  /** A block written to the disk; a write past its end is lost. */
  function Put(d: Disk, b: nat, x: Block): Disk {
    if b < |d| then d[b := x] else d
  }

  /**
    The disk after logical blocks `l` to `n` of `s` were copied over those of `t`; a missing block on either side ends
    it.
   */
  function Copied(d: Disk, s: Slots, t: Slots, l: nat, n: nat): Disk
    decreases n - l
  {
    if l >= n || Phys(d, s, l) == 0 || Phys(d, t, l) == 0 then d
    else Copied(Put(d, Phys(d, t, l), At(d, Phys(d, s, l))), s, t, l + 1, n)
  }

  /** The first `nb` logical blocks of a file are all there. */
  ghost predicate Complete(d: Disk, s: Slots, nb: nat) {
    forall k :: 0 <= k < nb ==> PathOk(d, s, k) && Phys(d, s, k) != 0
  }

  /** The tree over `a` may be overwritten leaf by leaf without touching itself or `s`. */
  ghost predicate Target(d: Disk, s: Slots, t: Slots, a: seq<u32>, nb: nat) {
    && IsTree(d, t, a, nb) && TrashZeroed(d, a, nb) && NoRepeat(a)
    && (forall x :: x in a ==> x < |d|)
    && forall x: u32 :: x in Owned(d, s) ==> x !in a
  }

  /** Leaves of a tree are none of its pointer blocks. */
  lemma LeafPut(d: Disk, t: Slots, a: seq<u32>, nb: nat, l: nat, x: Block)
    requires IsTree(d, t, a, nb) && TrashZeroed(d, a, nb) && NoRepeat(a)
    requires l < nb && Pos(l) < |a| && a[Pos(l)] != 0 && a[Pos(l)] < |d|
    ensures IsTree(d[a[Pos(l)] := x], t, a, nb) && TrashZeroed(d[a[Pos(l)] := x], a, nb)
  {
    hide Pointers, ZeroBlock, Pos, SubPos, Needed;
    var d' := d[a[Pos(l)] := x];
    PosInjective(l, l, 0);
    forall m | 0 <= m < PTRS
      ensures Pos(l) != SubPos(m)
    {
      PosInjective(l, l, m);
    }
    assert |a| > 12 && a[12] != 0 ==> At(d', a[12]) == At(d, a[12]);
    assert |a| > 269 && a[269] != 0 ==> At(d', a[269]) == At(d, a[269]);
    assert forall m :: 0 <= m < PTRS && SubEntry(a, nb, m) != 0 ==>
      At(d', SubEntry(a, nb, m)) == At(d, SubEntry(a, nb, m));
    assert At(d', 0) == At(d, 0);
    BigTree(d, t, a, nb);
  }

  lemma BigTree(d: Disk, t: Slots, a: seq<u32>, nb: nat)
    requires IsTree(d, t, a, nb)
    ensures nb > DIRECT ==> |a| > 12
    ensures nb > SINGLE_END ==> |a| > 269
  {
  }

  lemma PosGrows(k: nat, l: nat)
    requires k < l
    ensures Pos(k) < Pos(l)
  {
  }

  /** One block copied: the target tree and the source keep their shape, and only that leaf changes. */
  lemma CopyOne(d: Disk, s: Slots, t: Slots, a: seq<u32>, nb: nat, l: nat, x: Block)
    requires Target(d, s, t, a, nb) && Complete(d, s, nb) && l < nb
    requires Pos(l) < |a| && a[Pos(l)] != 0
    ensures a[Pos(l)] < |d|
    ensures var d' := d[a[Pos(l)] := x];
      && Target(d', s, t, a, nb) && Complete(d', s, nb)
      && forall k :: 0 <= k < nb ==> Phys(d', s, k) == Phys(d, s, k) && At(d', Phys(d, s, k)) == At(d, Phys(d, s, k))
  {
    hide IsTree, TrashZeroed, NoRepeat, Pos, Owned, Phys, PathOk, PointerBlocks;
    assert a[Pos(l)] in a;
    var d' := d[a[Pos(l)] := x];
    LeafPut(d, t, a, nb, l, x);
    forall p | p in Owned(d, s)
      ensures At(d', p) == At(d, p)
    {
    }
    forall p | p in PointerBlocks(d, s)
      ensures At(d', p) == At(d, p)
    {
      PointerBlocksOwned(d, s, p);
    }
    OwnedFrame(d, d', s);
    forall k | 0 <= k < nb
      ensures PathOk(d', s, k) && Phys(d', s, k) == Phys(d, s, k) && At(d', Phys(d, s, k)) == At(d, Phys(d, s, k))
    {
      PhysKept(d, d', s, k);
      PhysFrame(d, d', s, k);
    }
  }

  /** The loop leaves every leaf from `l` on with the bytes of the source and touches no other block. */
  lemma {:induction false} CopyAll(d: Disk, s: Slots, t: Slots, a: seq<u32>, nb: nat, l: nat)
    requires Target(d, s, t, a, nb) && Complete(d, s, nb) && l <= nb
    ensures var d' := Copied(d, s, t, l, nb);
      && Target(d', s, t, a, nb) && |d'| == |d|
      && (forall b: nat :: b < |d| && b !in a ==> d'[b] == d[b])
      && (forall k: nat :: k < l && Pos(k) < |a| ==> At(d', a[Pos(k)]) == At(d, a[Pos(k)]))
      && (forall k: nat :: l <= k < nb && Pos(k) < |a| && a[Pos(k)] != 0 ==> At(d', a[Pos(k)]) == At(d, Phys(d, s, k)))
    decreases nb - l
  {
    hide Target, Complete, Pos, Phys;
    TargetParts(d, s, t, a, nb);
    if l < nb {
      Walked(d, s, t, a, nb, l);
      assert Phys(d, s, l) != 0 by {
        CompleteAt(d, s, nb, l);
      }
      var p := Phys(d, t, l);
      if p != 0 {
        var x := At(d, Phys(d, s, l));
        CopyOne(d, s, t, a, nb, l, x);
        var d1 := d[p := x];
        CopyAll(d1, s, t, a, nb, l + 1);
        assert Copied(d, s, t, l, nb) == Copied(d1, s, t, l + 1, nb);
        forall k: nat | k != l && Pos(k) < |a|
          ensures At(d1, a[Pos(k)]) == At(d, a[Pos(k)])
        {
          OtherLeaf(a, k, l);
        }
      } else {
        forall k: nat | l <= k < nb && Pos(k) < |a|
          ensures a[Pos(k)] == 0
        {
          if l < k {
            PosGrows(l, k);
          }
        }
      }
    }
  }

  lemma TargetParts(d: Disk, s: Slots, t: Slots, a: seq<u32>, nb: nat)
    requires Target(d, s, t, a, nb)
    ensures ZeroSuffix(a) && NoRepeat(a) && nb <= DOUBLE_END
  {
  }

  lemma CompleteAt(d: Disk, s: Slots, nb: nat, l: nat)
    requires Complete(d, s, nb) && l < nb
    ensures PathOk(d, s, l) && Phys(d, s, l) != 0
  {
  }

  lemma Walked(d: Disk, s: Slots, t: Slots, a: seq<u32>, nb: nat, l: nat)
    requires Target(d, s, t, a, nb) && l < nb
    ensures Pos(l) < |a| && Phys(d, t, l) == a[Pos(l)]
  {
    WalkAgrees(d, t, a, nb, l);
  }

  lemma OtherLeaf(a: seq<u32>, k: nat, l: nat)
    requires NoRepeat(a) && k != l && Pos(k) < |a| && Pos(l) < |a| && a[Pos(l)] != 0
    ensures a[Pos(k)] != a[Pos(l)]
  {
    hide Pos;
    if k < l {
      PosGrows(k, l);
    } else {
      PosGrows(l, k);
    }
  }

  // ----- what the copy reads as -----

  /** Reading whole blocks delivers them one after the other. */
  lemma {:induction false} ReadFull(d: Disk, s: Slots, nb: nat, l: nat, k: nat)
    requires Complete(d, s, nb) && l <= nb
    ensures |ReadFrom(d, s, l, 1024 * nb)| == 1024 * (nb - l)
    ensures l <= k < nb ==> ReadFrom(d, s, l, 1024 * nb)[1024 * (k - l)..1024 * (k - l) + 1024] == At(d, Phys(d, s, k))
    decreases nb - l
  {
    hide Phys, PathOk, At;
    if l < nb {
      var rest := ReadFrom(d, s, l + 1, 1024 * nb);
      var r := ReadFrom(d, s, l, 1024 * nb);
      var b: seq<byte> := At(d, Phys(d, s, l));
      ReadFull(d, s, nb, l + 1, k);
      assert b[..1024] == b;
      assert r == b + rest;
      if l < k < nb {
        assert r[1024 * (k - l)..1024 * (k - l) + 1024] == rest[1024 * (k - l - 1)..1024 * (k - l - 1) + 1024];
      }
    }
  }

  /** Reading `size` bytes delivers the front of the whole blocks. */
  lemma {:induction false} ReadFront(d: Disk, s: Slots, size: nat, l: nat)
    requires Complete(d, s, BlocksFor(size)) && l <= BlocksFor(size)
    ensures var n := if 1024 * l < size then size - 1024 * l else 0;
      n <= |ReadFrom(d, s, l, 1024 * BlocksFor(size))| &&
        ReadFrom(d, s, l, size) == ReadFrom(d, s, l, 1024 * BlocksFor(size))[..n]
    decreases BlocksFor(size) - l
  {
    hide Phys, PathOk, At;
    var nb := BlocksFor(size);
    ReadFull(d, s, nb, l, l);
    if l < nb {
      ReadFront(d, s, size, l + 1);
      var b: seq<byte>, rest := At(d, Phys(d, s, l)), ReadFrom(d, s, l + 1, 1024 * nb);
      assert b[..1024] == b;
      assert ReadFrom(d, s, l, 1024 * nb) == b + rest;
      if size - 1024 * l <= 1024 {
        assert ReadFrom(d, s, l + 1, size) == [];
      } else {
        assert (b + rest)[..size - 1024 * l] == b + rest[..size - 1024 * (l + 1)];
      }
    }
  }

  lemma ChunkIs(c: seq<byte>, k: nat, b: Block)
    requires 1024 * k + 1024 <= |c| && c[1024 * k..1024 * k + 1024] == b
    ensures Chunk(c, k) == b
  {
    forall i | 0 <= i < 1024
      ensures Chunk(c, k)[i] == b[i]
    {
      assert c[1024 * k..1024 * k + 1024][i] == c[1024 * k + i];
    }
  }

  lemma WholeBlocks(size: nat)
    ensures BlocksFor(1024 * BlocksFor(size)) == BlocksFor(size)
  {
  }

  /** The bytes of the source, whole blocks of them. */
  function Bulk(d: Disk, s: Slots, size: nat): seq<byte> {
    ReadFrom(d, s, 0, 1024 * BlocksFor(size))
  }

  /** After the copy, the target is the tree a write of the source's bytes would have built over the same blocks. */
  lemma CopyBuilt(bm: Bits, bm': Bits, d: Disk, s: Slots, t: Slots, a: seq<u32>, blank: seq<byte>)
    requires TreeBuilt(bm, bm', d, t, a, blank) && Complete(d, s, BlocksFor(|blank|))
    requires Target(d, s, t, a, BlocksFor(|blank|))
    ensures TreeBuilt(bm, bm', Copied(d, s, t, 0, BlocksFor(|blank|)), t, a, Bulk(d, s, |blank|))
  {
    hide IsTree, TrashZeroed, Allocated, Phys, Complete, Pos, Chunk, At, Copied, BlocksFor;
    var nb := BlocksFor(|blank|);
    CopyAll(d, s, t, a, nb, 0);
    WholeBlocks(|blank|);
    var c := Bulk(d, s, |blank|);
    ReadFull(d, s, nb, 0, 0);
    forall k: nat | k < nb
      ensures At(d, Phys(d, s, k)) == Chunk(c, k)
    {
      ReadFull(d, s, nb, 0, k);
      ChunkIs(c, k, At(d, Phys(d, s, k)));
    }
  }

  /** A complete source is copied byte for byte exactly when there was room for all blocks of the target. */
  lemma CopyReadsIff(bm: Bits, bm': Bits, d: Disk, s: Slots, t: Slots, a: seq<u32>, blank: seq<byte>)
    requires TreeBuilt(bm, bm', d, t, a, blank) && blank != [] && Complete(d, s, BlocksFor(|blank|))
    requires Target(d, s, t, a, BlocksFor(|blank|))
    ensures ReadFrom(Copied(d, s, t, 0, BlocksFor(|blank|)), t, 0, |blank|) == ReadFrom(d, s, 0, |blank|)
      <==> Needed(BlocksFor(|blank|)) <= |Free(bm)|
  {
    hide IsTree, TrashZeroed, Allocated, Phys, PathOk, Pos, At, Copied, Target, Needed, Free, LeavesDone, BlocksFor;
    var size, nb := |blank|, BlocksFor(|blank|);
    var d' := Copied(d, s, t, 0, nb);
    CopyBuilt(bm, bm', d, s, t, a, blank);
    WholeBlocks(size);
    ReadFull(d, s, nb, 0, 0);
    ReadFront(d, s, size, 0);
    BlocksCover(size);
    ReadBackIff(bm, bm', d', t, a, Bulk(d, s, size));
    FailsIffTooFew(bm, bm', a);
    LengthOfTree(d, t, a, nb);
    if 0 in a {
      LastIsData(nb);
      WalkAgrees(d', t, a, nb, nb - 1);
      TargetParts(d, s, t, a, nb);
      ZeroLast(a);
      ReadShort(d', t, 0, nb - 1, size);
    } else {
      forall k | 0 <= k < nb
        ensures PathOk(d', t, k) && Phys(d', t, k) != 0
      {
        WalkAgrees(d', t, a, nb, k);
        TreePath(d', t, a, nb, k);
      }
      ReadFront(d', t, size, 0);
    }
  }

  lemma ZeroLast(a: seq<u32>)
    requires ZeroSuffix(a) && 0 in a
    ensures a[|a| - 1] == 0
  {
    var i :| 0 <= i < |a| && a[i] == 0;
  }

  lemma BlocksCover(size: nat)
    requires size > 0
    ensures 0 < BlocksFor(size) && 1024 * (BlocksFor(size) - 1) < size <= 1024 * BlocksFor(size)
  {
  }

  /** With no failed allocation, no pointer block is missing. */
  lemma TreePath(d: Disk, t: Slots, a: seq<u32>, nb: nat, k: nat)
    requires IsTree(d, t, a, nb) && 0 !in a && k < nb
    ensures PathOk(d, t, k)
  {
    hide Pointers, At;
    PosInRange(k, nb);
    if DIRECT <= k {
      assert a[12] in a;
    }
    if SINGLE_END <= k {
      assert a[269] in a;
      TreeShape(d, t, a, nb, (k - SINGLE_END) / PTRS);
      assert a[SubPos((k - SINGLE_END) / PTRS)] in a;
    }
  }

  lemma BeyondReach(d: Disk, t: Slots, l: nat)
    requires l >= DOUBLE_END
    ensures Phys(d, t, l) == 0
  {
  }

  /** Whatever the source is, the loop only changes blocks of the target tree, and keeps its shape. */
  lemma {:induction false} CopyFrame(d: Disk, s: Slots, t: Slots, a: seq<u32>, nb: nat, l: nat, n: nat)
    requires IsTree(d, t, a, nb) && TrashZeroed(d, a, nb) && NoRepeat(a) && (n <= nb || nb == DOUBLE_END) &&
      forall x :: x in a ==> x < |d|
    ensures var d' := Copied(d, s, t, l, n);
      && IsTree(d', t, a, nb) && TrashZeroed(d', a, nb) && |d'| == |d|
      && forall b: nat :: b < |d| && b !in a ==> d'[b] == d[b]
    decreases n - l
  {
    hide IsTree, TrashZeroed, NoRepeat, Pos, Phys;
    if l < n {
      if l < nb {
        WalkAgrees(d, t, a, nb, l);
      } else {
        BeyondReach(d, t, l);
      }
      var p := Phys(d, t, l);
      if Phys(d, s, l) != 0 && p != 0 {
        assert p in a;
        LeafPut(d, t, a, nb, l, At(d, Phys(d, s, l)));
        CopyFrame(d[p := At(d, Phys(d, s, l))], s, t, a, nb, l + 1, n);
      }
    }
  }
}
