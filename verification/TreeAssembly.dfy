/** Putting the three stages of a write together: the sequence of allocations and the tree it forms. */
module TreeAssembly {
  import opened Bytes
  import opened Bitmap
  import opened BlockTree
  import opened Allocation
  import opened DoubleStage

  /** Every allocated block among the first `n` logical blocks holds its chunk. */
  ghost predicate LeavesDone(d: Disk, a: seq<u32>, content: seq<byte>, n: nat) {
    forall l: nat :: l < n && Pos(l) < |a| && a[Pos(l)] != 0 ==> At(d, a[Pos(l)]) == Chunk(content, l)
  }

  /** The blocks of a new file: which were taken, the tree over them, and the chunks in its leaves. */
  ghost predicate TreeBuilt(bm: Bits, bm': Bits, d: Disk, ib: Slots, a: seq<u32>, content: seq<byte>) {
    && Allocated(bm, bm', a)
    && BlocksFor(|content|) <= DOUBLE_END && ib[14] == 0
    && IsTree(d, ib, a, BlocksFor(|content|))
    && TrashZeroed(d, a, BlocksFor(|content|))
    && LeavesDone(d, a, content, BlocksFor(|content|))
  }

  function MakeSlots(blocks: seq<u32>, list: u32, master: u32): Slots
    requires |blocks| == DIRECT
  {
    blocks + [list, master, 0]
  }

  lemma AssembleSmall(d: Disk, blocks: seq<u32>, a: seq<u32>, content: seq<byte>, nb: nat)
    requires nb <= DIRECT == |blocks| && a == blocks[..nb] && ZeroSuffix(a)
    requires forall k :: nb <= k < DIRECT ==> blocks[k] == 0
    requires forall k :: 0 <= k < nb && blocks[k] != 0 ==> At(d, blocks[k]) == Chunk(content, k)
    ensures IsTree(d, MakeSlots(blocks, 0, 0), a, nb) && TrashZeroed(d, a, nb) && LeavesDone(d, a, content, nb)
  {
    hide Pointers, Chunk, At, ZeroBlock;
  }

  lemma AssembleSingle(d: Disk, blocks: seq<u32>, list: u32, ptrs: seq<u32>, c: nat, a: seq<u32>, nb: nat)
    requires |blocks| == DIRECT && |ptrs| == PTRS && 0 < c <= PTRS && DIRECT + c <= nb
    requires (c < PTRS ==> nb == DIRECT + c)
    requires nb <= DOUBLE_END && |a| >= 13 + c && a[..13 + c] == blocks + [list] + ptrs[..c]
    requires forall k :: c <= k < PTRS ==> ptrs[k] == 0
    ensures forall l :: 0 <= l < DIRECT ==> blocks[l] == Entry(a, nb, l)
    ensures a[12] == list
    ensures forall k :: 0 <= k < PTRS ==> ptrs[k] == Entry(a, nb, DIRECT + k)
  {
    forall k | 0 <= k < 13 + c
      ensures a[k] == (blocks + [list] + ptrs[..c])[k]
    {
      assert a[k] == a[..13 + c][k];
    }
  }

  lemma AssembleMid(d: Disk, blocks: seq<u32>, list: u32, ptrs: seq<u32>, a: seq<u32>, content: seq<byte>, nb: nat)
    requires DIRECT < nb <= SINGLE_END && |blocks| == DIRECT && |ptrs| == PTRS && ZeroSuffix(a)
    requires a == blocks + [list] + ptrs[..nb - DIRECT]
    requires forall k :: nb - DIRECT <= k < PTRS ==> ptrs[k] == 0
    requires forall k :: 0 <= k < DIRECT && blocks[k] != 0 ==> At(d, blocks[k]) == Chunk(content, k)
    requires list != 0 ==> Pointers(At(d, list)) == ptrs
    requires list == 0 ==> At(d, 0) == ZeroBlock()
    requires forall k :: 0 <= k < nb - DIRECT && ptrs[k] != 0 ==> At(d, ptrs[k]) == Chunk(content, DIRECT + k)
    ensures IsTree(d, MakeSlots(blocks, list, 0), a, nb) && TrashZeroed(d, a, nb) && LeavesDone(d, a, content, nb)
  {
    hide Pointers, Chunk, At, ZeroBlock;
    assert a[..|a|] == a;
    AssembleSingle(d, blocks, list, ptrs, nb - DIRECT, a, nb);
    forall l: nat | l < nb && Pos(l) < |a| && a[Pos(l)] != 0
      ensures At(d, a[Pos(l)]) == Chunk(content, l)
    {
      if l >= DIRECT {
        assert a[Pos(l)] == ptrs[l - DIRECT];
      }
    }
  }

  /** Positions of the third stage inside the whole sequence. */
  lemma DoublePositions(a: seq<u32>, b: seq<u32>, nb: nat)
    requires SINGLE_END < nb <= DOUBLE_END && |a| == 269 + |b| && a[269..] == b
    requires |b| == 1 + (nb - SINGLE_END) + (nb - SINGLE_END + 255) / PTRS
    ensures |a| == Needed(nb) && a[269] == b[0]
    ensures forall m :: 0 <= m < PTRS && SINGLE_END + PTRS * m < nb ==>
      1 + 257 * m < |b| && a[SubPos(m)] == b[1 + 257 * m]
  {
    forall m | 0 <= m < PTRS && SINGLE_END + PTRS * m < nb
      ensures 1 + 257 * m < |b| && a[SubPos(m)] == b[1 + 257 * m]
    {
      assert b[1 + 257 * m] == a[269..][1 + 257 * m];
    }
    assert b[0] == a[269..][0];
  }

  lemma DoubleLeafPosition(a: seq<u32>, b: seq<u32>, nb: nat, k: nat)
    requires SINGLE_END < nb <= DOUBLE_END && |a| == 269 + |b| && a[269..] == b && k < nb - SINGLE_END
    requires |b| == 1 + (nb - SINGLE_END) + (nb - SINGLE_END + 255) / PTRS
    ensures Pos(SINGLE_END + k) < |a| && LeafPos(k) < |b| && a[Pos(SINGLE_END + k)] == b[LeafPos(k)]
  {
    assert b[LeafPos(k)] == a[269..][LeafPos(k)];
  }

  lemma DoubleEntries(d: Disk, masters: seq<u32>, a: seq<u32>, b: seq<u32>, content: seq<byte>, nb: nat, m: nat)
    requires SINGLE_END < nb <= DOUBLE_END && |a| == 269 + |b| && a[269..] == b && m < PTRS
    requires DoubleInv(d, masters, b, content, nb - SINGLE_END, (nb - SINGLE_END + 255) / PTRS, nb - SINGLE_END)
    ensures masters[m] == SubEntry(a, nb, m)
    ensures SINGLE_END + PTRS * m < nb && masters[m] == 0 ==> At(d, 0) == ZeroBlock()
    ensures masters[m] != 0 ==> forall k :: 0 <= k < PTRS ==>
              Pointers(At(d, masters[m]))[k] == Entry(a, nb, SINGLE_END + PTRS * m + k)
  {
    hide Pointers, At, ZeroBlock, LeafPos, Chunk;
    var count := nb - SINGLE_END;
    DoublePositions(a, b, nb);
    if m < (count + 255) / PTRS {
      assert SubDone(d, masters, b, count, m);
      forall k | masters[m] != 0 && 0 <= k < PTRS
        ensures Pointers(At(d, masters[m]))[k] == Entry(a, nb, SINGLE_END + PTRS * m + k)
      {
        if PTRS * m + k < count {
          DoubleLeafPosition(a, b, nb, PTRS * m + k);
          LeafPosNew(m, k);
        }
      }
    }
  }

  lemma AssembleBig(d: Disk, blocks: seq<u32>, list: u32, ptrs: seq<u32>, master: u32, masters: seq<u32>, b: seq<u32>,
                    a: seq<u32>, content: seq<byte>, nb: nat)
    requires SINGLE_END < nb <= DOUBLE_END && |blocks| == DIRECT && |ptrs| == PTRS && ZeroSuffix(a)
    requires a == blocks + [list] + ptrs + b
    requires forall k :: 0 <= k < DIRECT && blocks[k] != 0 ==> At(d, blocks[k]) == Chunk(content, k)
    requires list != 0 ==> Pointers(At(d, list)) == ptrs
    requires list == 0 ==> At(d, 0) == ZeroBlock()
    requires forall k :: 0 <= k < PTRS && ptrs[k] != 0 ==> At(d, ptrs[k]) == Chunk(content, DIRECT + k)
    requires DoubleInv(d, masters, b, content, nb - SINGLE_END, (nb - SINGLE_END + 255) / PTRS, nb - SINGLE_END)
    requires b[0] == master && Pointers(At(d, master)) == masters
    requires master == 0 ==> At(d, 0) == ZeroBlock()
    ensures IsTree(d, MakeSlots(blocks, list, master), a, nb) && TrashZeroed(d, a, nb) && LeavesDone(d, a, content, nb)
  {
    hide Pointers, Chunk, At, ZeroBlock, DoubleInv, LeafPos;
    assert ptrs[..PTRS] == ptrs && a[..269] == blocks + [list] + ptrs && a[269..] == b;
    AssembleSingle(d, blocks, list, ptrs, PTRS, a, nb);
    DoubleLength(d, masters, b, content, nb);
    DoublePositions(a, b, nb);
    forall m | 0 <= m < PTRS
      ensures masters[m] == SubEntry(a, nb, m)
      ensures SINGLE_END + PTRS * m < nb && SubPos(m) < |a| && a[SubPos(m)] == 0 ==> At(d, 0) == ZeroBlock()
    {
      DoubleEntries(d, masters, a, b, content, nb, m);
    }
    forall m, k | 0 <= m < PTRS && 0 <= k < PTRS && SubEntry(a, nb, m) != 0
      ensures Pointers(At(d, SubEntry(a, nb, m)))[k] == Entry(a, nb, SINGLE_END + PTRS * m + k)
    {
      DoubleEntries(d, masters, a, b, content, nb, m);
    }
    forall l: nat | l < nb && Pos(l) < |a| && a[Pos(l)] != 0
      ensures At(d, a[Pos(l)]) == Chunk(content, l)
    {
      if DIRECT <= l < SINGLE_END {
        assert a[Pos(l)] == ptrs[l - DIRECT];
      } else if SINGLE_END <= l {
        DoubleLeafPosition(a, b, nb, l - SINGLE_END);
        DoubleLeafChunk(d, masters, b, content, nb, l - SINGLE_END);
      }
    }
  }

  lemma DoubleLength(d: Disk, masters: seq<u32>, b: seq<u32>, content: seq<byte>, nb: nat)
    requires SINGLE_END < nb <= DOUBLE_END
    requires DoubleInv(d, masters, b, content, nb - SINGLE_END, (nb - SINGLE_END + 255) / PTRS, nb - SINGLE_END)
    ensures |masters| == PTRS && |b| == 1 + (nb - SINGLE_END) + (nb - SINGLE_END + 255) / PTRS
  {
  }

  lemma DoubleLeafChunk(d: Disk, masters: seq<u32>, b: seq<u32>, content: seq<byte>, nb: nat, k: nat)
    requires SINGLE_END < nb <= DOUBLE_END && k < nb - SINGLE_END
    requires DoubleInv(d, masters, b, content, nb - SINGLE_END, (nb - SINGLE_END + 255) / PTRS, nb - SINGLE_END)
    ensures LeafPos(k) < |b| && b[LeafPos(k)] != 0 ==> At(d, b[LeafPos(k)]) == Chunk(content, SINGLE_END + k)
  {
  }

  // ----- what a built tree promises -----

  lemma LastIsData(nb: nat)
    requires 0 < nb <= DOUBLE_END
    ensures Pos(nb - 1) == Needed(nb) - 1
  {
  }

  /** Reading a new file gives its content back exactly when the volume had room for all of its blocks. */
  lemma ReadBackIff(bm: Bits, bm': Bits, d: Disk, ib: Slots, a: seq<u32>, content: seq<byte>)
    requires TreeBuilt(bm, bm', d, ib, a, content) && content != []
    ensures ReadFrom(d, ib, 0, |content|) == content <==> Needed(BlocksFor(|content|)) <= |Free(bm)|
  {
    hide Pointers, Chunk, At, ZeroBlock, Phys, IsTree, TrashZeroed, Free, Needed, Pos;
    var nb := BlocksFor(|content|);
    FailsIffTooFew(bm, bm', a);
    LengthOfTree(d, ib, a, nb);
    forall l | 0 <= l < nb
      ensures Pos(l) < |a| && Phys(d, ib, l) == a[Pos(l)]
    {
      WalkAgrees(d, ib, a, nb, l);
    }
    if 0 in a {
      LastIsData(nb);
      ReadShort(d, ib, 0, nb - 1, |content|);
    } else {
      ReadChunks(d, ib, content, 0);
      assert content[1024 * 0..] == content;
    }
  }

  /** With room, every byte of every block is the content's, and the rest of the last block is zero. */
  lemma BlocksHold(bm: Bits, bm': Bits, d: Disk, ib: Slots, a: seq<u32>, content: seq<byte>, l: nat, k: nat)
    requires TreeBuilt(bm, bm', d, ib, a, content) && Needed(BlocksFor(|content|)) <= |Free(bm)|
    requires l < BlocksFor(|content|) && k < 1024
    ensures At(d, Phys(d, ib, l))[k] == if 1024 * l + k < |content| then content[1024 * l + k] else 0
  {
    hide Pointers, Chunk, At, ZeroBlock, Phys, IsTree, TrashZeroed, Free, Needed, Pos;
    FailsIffTooFew(bm, bm', a);
    LengthOfTree(d, ib, a, BlocksFor(|content|));
    WalkAgrees(d, ib, a, BlocksFor(|content|), l);
    ChunkByte(content, l, k);
  }

  lemma ChunkByte(content: seq<byte>, l: nat, k: nat)
    requires k < 1024
    ensures Chunk(content, l)[k] == if 1024 * l + k < |content| then content[1024 * l + k] else 0
  {
  }

  lemma LengthOfTree(d: Disk, ib: Slots, a: seq<u32>, nb: nat)
    requires IsTree(d, ib, a, nb)
    ensures |a| == Needed(nb)
  {
  }

  /** The destroyer's list of a new file: what was allocated, without repetition. */
  lemma BuiltOwned(bm: Bits, bm': Bits, d: Disk, ib: Slots, a: seq<u32>, content: seq<byte>)
    requires TreeBuilt(bm, bm', d, ib, a, content)
    ensures NoDup(Owned(d, ib))
    ensures forall x :: x in Owned(d, ib) <==> x in a && x != 0
  {
    hide IsTree, TrashZeroed, Owned, Bit, LeavesDone;
    TreeOwned(d, ib, a, BlocksFor(|content|));
  }

  lemma TreeOwned(d: Disk, ib: Slots, a: seq<u32>, nb: nat)
    requires IsTree(d, ib, a, nb) && NoRepeat(a)
    ensures NoDup(Owned(d, ib))
    ensures forall x :: x in Owned(d, ib) <==> x in a && x != 0
  {
    hide IsTree, Owned, NonZero;
    OwnedIsAllocated(d, ib, a, nb);
    NonZeroNoDup(a);
    forall x
      ensures x in Owned(d, ib) <==> x in a && x != 0
    {
      InNonZero(a, x);
      SameMembers(Owned(d, ib), NonZero(a), x);
    }
  }

  lemma SameMembers(s: seq<u32>, t: seq<u32>, x: u32)
    requires multiset(s) == multiset(t)
    ensures x in s <==> x in t
  {
    assert x in s <==> x in multiset(s);
    assert x in t <==> x in multiset(t);
  }

  lemma {:induction false} NonZeroAll(a: seq<u32>)
    requires 0 !in a
    ensures NonZero(a) == a
  {
    if a != [] {
      assert a == [a[0]] + a[1..];
      NonZeroAll(a[1..]);
    }
  }

  lemma SameSize(s: seq<u32>, t: seq<u32>)
    requires multiset(s) == multiset(t)
    ensures |s| == |t|
  {
    assert |multiset(s)| == |s| && |multiset(t)| == |t|;
  }

  /** With room for it, a file owns exactly as many blocks as the write counts into `i_blocks`, two sectors each. */
  lemma BuiltSize(bm: Bits, bm': Bits, d: Disk, ib: Slots, a: seq<u32>, content: seq<byte>)
    requires TreeBuilt(bm, bm', d, ib, a, content) && Needed(BlocksFor(|content|)) <= |Free(bm)|
    ensures |Owned(d, ib)| == Needed(BlocksFor(|content|))
  {
    hide TrashZeroed, Owned, NonZero, Bit, LeavesDone, IsTree, Needed, Free;
    FailsIffTooFew(bm, bm', a);
    LengthOfTree(d, ib, a, BlocksFor(|content|));
    OwnedIsAllocated(d, ib, a, BlocksFor(|content|));
    NonZeroAll(a);
    SameSize(Owned(d, ib), a);
  }

  lemma {:induction false} NonZeroShorter(a: seq<u32>)
    ensures |NonZero(a)| <= |a| && (0 in a ==> |NonZero(a)| < |a|)
  {
    if a != [] {
      assert a == [a[0]] + a[1..];
      NonZeroShorter(a[1..]);
    }
  }

  /** On a volume that fills up midway the file owns fewer blocks than are counted. */
  lemma BuiltSizeIff(bm: Bits, bm': Bits, d: Disk, ib: Slots, a: seq<u32>, content: seq<byte>)
    requires TreeBuilt(bm, bm', d, ib, a, content)
    ensures |Owned(d, ib)| == Needed(BlocksFor(|content|)) <==> Needed(BlocksFor(|content|)) <= |Free(bm)|
  {
    hide TrashZeroed, Owned, NonZero, Bit, LeavesDone, IsTree, Needed, Free;
    FailsIffTooFew(bm, bm', a);
    LengthOfTree(d, ib, a, BlocksFor(|content|));
    if 0 in a {
      OwnedIsAllocated(d, ib, a, BlocksFor(|content|));
      NonZeroShorter(a);
      SameSize(Owned(d, ib), NonZero(a));
    } else {
      BuiltSize(bm, bm', d, ib, a, content);
    }
  }

  /** Releasing the destroyer's list gives the block bitmap back byte for byte, full volume or not. */
  lemma WriteThenFree(bm: Bits, bm': Bits, bm'': Bits, d: Disk, ib: Slots, a: seq<u32>, content: seq<byte>)
    requires TreeBuilt(bm, bm', d, ib, a, content) && Freed(bm', bm'', Owned(d, ib))
    ensures bm'' == bm
  {
    hide IsTree, TrashZeroed, Owned, Bit, LeavesDone;
    BuiltOwned(bm, bm', d, ib, a, content);
    FreeUndoesAllocate(bm, bm', bm'', a, Owned(d, ib));
  }

  /** The tree of a new file survives writes to blocks that are not its own. */
  lemma TreeMoved(bm: Bits, bm': Bits, d: Disk, d': Disk, ib: Slots, a: seq<u32>, content: seq<byte>)
    requires TreeBuilt(bm, bm', d, ib, a, content)
    requires forall x: u32 :: x == 0 || x in a ==> At(d', x) == At(d, x)
    ensures TreeBuilt(bm, bm', d', ib, a, content)
  {
    hide At, Pointers, Chunk, ZeroBlock, Allocated;
    var nb := BlocksFor(|content|);
    assert ib[12] == 0 || ib[12] in a;
    assert ib[13] == 0 || ib[13] in a;
    assert forall m :: 0 <= m < PTRS && SubEntry(a, nb, m) != 0 ==> SubEntry(a, nb, m) in a;
    assert forall l: nat :: l < nb && Pos(l) < |a| ==> a[Pos(l)] in a;
  }
}
