/** Adding a file or a directory keeps the volume sound and touches nothing else. */
module Growth {
  import opened Bytes
  import opened Bitmap
  import opened BlockTree
  import opened Allocation
  import opened RecordChain
  import opened DirBlock
  import opened VolumeState

  /** The entry `n` was put behind record `p` of directory `d`, and the first sector of its block written back. */
  ghost predicate EntryPut(v: Vol, v': Vol, d: nat, p: nat, n: Name, ino: u32, kind: byte) {
    && KeptBut(v, v', DirNum(v, d))
    && DirNum(v, d) < |v.disk|
    && InBuffer(DirBlk(v, d), p, n)
    && v'.disk[DirNum(v, d)] == WriteBack(DirBlk(v, d), Insert(DirBlk(v, d), p, ino, n, kind))
  }

  /** Inode `ino` became `node`, which owns exactly the freshly allocated blocks `got`. */
  ghost predicate NodeMade(v: Vol, v': Vol, ino: u32, node: Inode, got: seq<u32>) {
    && v'.first == v.first
    && Allocated(v.blockMap, v'.blockMap, got)
    && ino != 0 && ino - 1 < |v.inodes| && Taken(v.nodeMap, v'.nodeMap, ino)
    && v'.inodes == v.inodes[ino - 1 := node]
    && NoDup(Owned(v'.disk, node.block))
    && forall x: u32 :: x in Owned(v'.disk, node.block) <==> x in got && x != 0
  }

  /**
    The place the scan of write and mkdir picked: a record other than the first, with enough slack, in the first sector.
   */
  ghost predicate Reaches(v: Vol, d: nat, p: nat, n: Name) {
    && WellFormed(DirBlk(v, d)) && IsStart(Records(DirBlk(v, d)), 0, p) && p != 0
    && Fits(DirBlk(v, d), p, n) && InBuffer(DirBlk(v, d), p, n) && NewAt(DirBlk(v, d), p) + 8 + |n| <= SECTOR
    && ValidName(n) && n !in Ents(v, d)
  }

  lemma NewNotLive(v: Vol, v': Vol, live: set<nat>, ino: u32)
    requires BlocksSound(v, live) && ino != 0 && Taken(v.nodeMap, v'.nodeMap, ino)
    ensures ino !in live && ino <= |v.inodes| && |v'.nodeMap| == |v.nodeMap|
    ensures forall n: nat :: Bit(v'.nodeMap, n) <==> n == ino - 1 || Bit(v.nodeMap, n)
  {
    hide Bit, OwnsWell, Disjoint;
    SetBitEffect(v.nodeMap, ino - 1);
    var n: nat := ino - 1;
    assert !Bit(v.nodeMap, n);
  }

  lemma ShapeGrown(v: Vol, v': Vol, got: seq<u32>)
    requires Shape(v) && |v'.disk| == |v.disk| && |v'.inodes| == |v.inodes| && v'.first == v.first
    requires Allocated(v.blockMap, v'.blockMap, got)
    requires |v'.nodeMap| == |v.nodeMap| && forall n: nat :: Bit(v.nodeMap, n) ==> Bit(v'.nodeMap, n)
    ensures Shape(v')
  {
    hide Bit;
  }

  lemma FreshBlock(v: Vol, v': Vol, got: seq<u32>, x: u32)
    requires Shape(v) && Allocated(v.blockMap, v'.blockMap, got) && x in got && x != 0
    ensures x < |v.disk| && v.first <= x && !Bit(v.blockMap, x - 1) && Bit(v'.blockMap, x - 1)
  {
    hide Bit;
    var n: nat := x - 1;
    assert !Bit(v.blockMap, n);
  }

  lemma OldOwnsWell(v: Vol, v': Vol, got: seq<u32>, i: nat)
    requires OwnsWell(v, i) && Own(v', i) == Own(v, i) && |v'.disk| == |v.disk| && v'.first == v.first
    requires Allocated(v.blockMap, v'.blockMap, got)
    ensures OwnsWell(v', i)
  {
    hide Bit, Own, NoDup;
  }

  lemma NewOwnsWell(v: Vol, v': Vol, ino: u32, node: Inode, got: seq<u32>)
    requires Shape(v) && NodeMade(v, v', ino, node, got) && |v'.disk| == |v.disk|
    ensures Own(v', ino) == Owned(v'.disk, node.block) && OwnsWell(v', ino)
  {
    hide Bit, Owned, NoDup, Shape, Allocated;
    forall x | x in Own(v', ino)
      ensures 1 <= x < |v'.disk| && v'.first <= x && Bit(v'.blockMap, x - 1)
    {
      FreshBlock(v, v', got, x);
    }
  }

  /** Block ownership stays sound when an inode is made and one directory block rewritten. */
  lemma BlocksGrown(v: Vol, v': Vol, live: set<nat>, d: nat, ino: u32, node: Inode, got: seq<u32>)
    requires Sound(v, live) && Dir(v, live, d) && KeptBut(v, v', DirNum(v, d)) && NodeMade(v, v', ino, node, got)
    ensures ino !in live && BlocksSound(v', live + {ino as nat})
    ensures forall i: nat :: i in live ==> Node(v', i) == Node(v, i) && Own(v', i) == Own(v, i)
  {
    hide Bit, Own, IsDir, DirNum, TreeSound, Acyclic, DirWell, Shape, OwnsWell, Taken, Allocated, NoDup, Owned;
    var live' := live + {ino as nat};
    NewNotLive(v, v', live, ino);
    ShapeGrown(v, v', got);
    forall i: nat | i in live
      ensures Node(v', i) == Node(v, i) && Own(v', i) == Own(v, i)
      ensures OwnsWell(v', i)
    {
      OwnKept(v, v', live, d, i);
      OldOwnsWell(v, v', got, i);
    }
    NewOwnsWell(v, v', ino, node, got);
    forall i: nat, j: nat, x: u32 | i in live' && j in live' && x in Own(v', i) && x in Own(v', j)
      ensures i == j
    {
      if i != j && (i == ino || j == ino) {
        FreshBlock(v, v', got, x);
        assert OwnsWell(v, if i == ino then j else i);
        OwnedUsed(v, if i == ino then j else i, x);
      }
    }
  }

  lemma OwnedUsed(v: Vol, i: nat, x: u32)
    requires OwnsWell(v, i) && x in Own(v, i)
    ensures x >= 1 && Bit(v.blockMap, x - 1)
  {
  }

  /** What the edited directory looks like afterwards. */
  lemma EntsGrown(v: Vol, v': Vol, d: nat, p: nat, n: Name, ino: u32, kind: byte)
    requires EntryPut(v, v', d, p, n, ino, kind) && Reaches(v, d, p, n) && ino != 0 && Node(v', d) == Node(v, d)
    ensures WellFormed(DirBlk(v', d)) && Ents(v', d) == Ents(v, d)[n := ino]
    ensures Records(DirBlk(v', d))[0] == Records(DirBlk(v, d))[0]
  {
    hide WellFormed, Records, Insert, WriteBack, RecAt, Node;
    var b := DirBlk(v, d);
    SlotBehind(b, p);
    InsertKept(b, p, ino, n, kind);
    assert DirBlk(v', d) == Insert(b, p, ino, n, kind);
    InsertRefines(b, p, ino, n, kind);
    InsertKeepsFirst(b, p, ino, n, kind);
  }

  lemma DirGrown(v: Vol, v': Vol, live: set<nat>, d: nat, p: nat, n: Name, ino: u32, kind: byte, e: nat)
    requires Sound(v, live) && Dir(v, live, d) && EntryPut(v, v', d, p, n, ino, kind) && Reaches(v, d, p, n)
    requires ino != 0 && Dir(v, live, e) && Node(v', e) == Node(v, e)
    ensures DirWell(v', live + {ino as nat}, e)
    ensures Ents(v', e) == if e == d then Ents(v, d)[n := ino] else Ents(v, e)
    ensures ParentOf(v', e) == ParentOf(v, e)
  {
    hide BlocksSound, TreeSound, Node, WellFormed, Records, Read32, Reaches, InBuffer, WriteBack, Insert;
    assert DirWell(v, live, e);
    OtherBlocksKept(v, v', live, d, e);
    ReachesName(v, live, d, p, n);
    if e == d {
      EntsGrown(v, v', d, p, n, ino, kind);
    } else {
      DirKept(v, v', live, d, e);
    }
  }

  lemma ReachesName(v: Vol, live: set<nat>, d: nat, p: nat, n: Name)
    requires Reaches(v, d, p, n) && DirWell(v, live, d)
    ensures n !in Ents(v, d) && !IsDots(n)
  {
  }

  lemma ChildGrown(v: Vol, v': Vol, live: set<nat>, d: nat, n: Name, ino: u32, e: nat, m: Name, i: nat)
    requires ino !in live && Dir(v, live, d) && n !in Ents(v, d) && !IsDots(n)
    requires forall k: nat :: k in live ==> Node(v', k) == Node(v, k)
    requires forall k: nat :: Dir(v, live, k) ==> Ents(v', k) == if k == d then Ents(v, d)[n := ino] else Ents(v, k)
    requires IsDir(v', ino) ==> Ents(v', ino).Keys == {[DOT], [DOT, DOT]}
    ensures Child(v', live + {ino as nat}, e, m, i) <==> Child(v, live, e, m, i) || (e == d && m == n && i == ino)
  {
    hide Ents, Node;
    if e == ino {
      assert forall k :: k in {[DOT], [DOT, DOT]} ==> IsDots(k);
    }
  }

  lemma TreeGrown(v: Vol, v': Vol, live: set<nat>, d: nat, n: Name, ino: u32)
    requires Sound(v, live) && ino !in live && Dir(v, live, d) && n !in Ents(v, d) && !IsDots(n)
    requires forall k: nat :: k in live ==> Node(v', k) == Node(v, k)
    requires forall k: nat :: Dir(v, live, k) ==> Ents(v', k) == if k == d then Ents(v, d)[n := ino] else Ents(v, k)
    requires forall k: nat :: Dir(v, live, k) ==> ParentOf(v', k) == ParentOf(v, k)
    requires IsDir(v', ino) ==> Ents(v', ino).Keys == {[DOT], [DOT, DOT]} && ParentOf(v', ino) == d
    ensures TreeSound(v', live + {ino as nat})
  {
    hide Ents, Node, BlocksSound, ParentOf, DirWell, Child;
    var live' := live + {ino as nat};
    forall e: nat, m: Name, i: nat
      ensures Child(v', live', e, m, i) <==> Child(v, live, e, m, i) || (e == d && m == n && i == ino)
    {
      ChildGrown(v, v', live, d, n, ino, e, m, i);
    }
    forall e: nat, m: Name | Child(v, live, e, m, ino)
      ensures false
    {
      ChildLive(v, live, e, m, ino);
    }
    forall e: nat | Dir(v', live', e) && e != ROOT
      ensures Holds(v', live', ParentOf(v', e), e)
    {
      if e == ino {
        assert Child(v', live', d, n, ino);
      } else {
        assert Dir(v, live, e);
        assert Holds(v, live, ParentOf(v, e), e);
        var m :| Child(v, live, ParentOf(v, e), m, e);
        assert Child(v', live', ParentOf(v', e), m, e);
      }
    }
    assert ROOT in live;
  }

  lemma AcyclicGrown(v: Vol, v': Vol, live: set<nat>, d: nat, n: Name, ino: u32)
    requires Sound(v, live) && ino !in live && Dir(v, live, d) && n !in Ents(v, d) && !IsDots(n)
    requires forall k: nat :: k in live ==> Node(v', k) == Node(v, k)
    requires forall k: nat :: Dir(v, live, k) ==> Ents(v', k) == if k == d then Ents(v, d)[n := ino] else Ents(v, k)
    requires IsDir(v', ino) ==> Ents(v', ino).Keys == {[DOT], [DOT, DOT]}
    ensures Acyclic(v', live + {ino as nat})
  {
    hide Ents, Node, BlocksSound, TreeSound, ParentOf, DirWell, Child;
    var live' := live + {ino as nat};
    var depth :| Ranked(v, live, depth);
    var depth' := depth[ino := depth[d] + 1];
    forall e: nat, m: Name, i: nat | Child(v', live', e, m, i) && e in depth' && i in depth'
      ensures depth'[e] < depth'[i]
    {
      ChildGrown(v, v', live, d, n, ino, e, m, i);
      if Child(v, live, e, m, i) {
        ChildLive(v, live, e, m, i);
        ChildOf(v, live, e, m, i);
      }
    }
    assert Ranked(v', live', depth');
  }

  lemma ChildOf(v: Vol, live: set<nat>, e: nat, m: Name, i: nat)
    requires Child(v, live, e, m, i)
    ensures e in live
  {
  }

  lemma ChildLive(v: Vol, live: set<nat>, e: nat, m: Name, i: nat)
    requires Sound(v, live) && Child(v, live, e, m, i)
    ensures i in live
  {
    assert DirWell(v, live, e);
  }

  /** Everything `ext2_write_file` and `ext2_make_directory` change when they return 1. */
  ghost predicate Added(v: Vol, v': Vol, live: set<nat>, d: nat, p: nat, n: Name, ino: u32, kind: byte, node: Inode,
                        got: seq<u32>) {
    && Dir(v, live, d)
    && EntryPut(v, v', d, p, n, ino, kind)
    && NodeMade(v, v', ino, node, got)
  }

  lemma GrownDirs(v: Vol, v': Vol, live: set<nat>, d: nat, p: nat, n: Name, ino: u32, kind: byte, node: Inode,
                  got: seq<u32>)
    requires Sound(v, live) && Added(v, v', live, d, p, n, ino, kind, node, got) && Reaches(v, d, p, n)
    ensures ino !in live && ino != 0 && BlocksSound(v', live + {ino as nat}) && n !in Ents(v, d) && !IsDots(n)
    ensures forall k: nat :: k in live ==> Node(v', k) == Node(v, k)
    ensures forall k: nat :: Dir(v, live, k) ==> DirWell(v', live + {ino as nat}, k)
    ensures forall k: nat :: Dir(v, live, k) ==> Ents(v', k) == if k == d then Ents(v, d)[n := ino] else Ents(v, k)
    ensures forall k: nat :: Dir(v, live, k) ==> ParentOf(v', k) == ParentOf(v, k)
  {
    hide Ents, Node, BlocksSound, ParentOf, DirWell, Child, TreeSound, Acyclic, EntryPut, NodeMade, Reaches, IsDir;
    assert DirWell(v, live, d);
    ReachesName(v, live, d, p, n);
    AddedParts(v, v', live, d, p, n, ino, kind, node, got);
    BlocksGrown(v, v', live, d, ino, node, got);
    forall k: nat | Dir(v, live, k)
      ensures DirWell(v', live + {ino as nat}, k)
      ensures Ents(v', k) == if k == d then Ents(v, d)[n := ino] else Ents(v, k)
      ensures ParentOf(v', k) == ParentOf(v, k)
    {
      DirGrown(v, v', live, d, p, n, ino, kind, k);
    }
  }

  lemma AddedParts(v: Vol, v': Vol, live: set<nat>, d: nat, p: nat, n: Name, ino: u32, kind: byte, node: Inode,
                   got: seq<u32>)
    requires Added(v, v', live, d, p, n, ino, kind, node, got)
    ensures KeptBut(v, v', DirNum(v, d)) && ino != 0 && Node(v', ino) == node
  {
  }

  /** Writing a file keeps the volume sound, adds exactly one name, and leaves every other inode's blocks alone. */
  lemma FileAddedSound(v: Vol, v': Vol, live: set<nat>, d: nat, p: nat, n: Name, ino: u32, kind: byte, node: Inode,
                       got: seq<u32>)
    requires Sound(v, live) && Added(v, v', live, d, p, n, ino, kind, node, got) && Reaches(v, d, p, n)
    requires node.mode == FILE_MODE
    ensures ino !in live && Sound(v', live + {ino as nat})
    ensures forall k: nat :: Dir(v, live, k) ==> Ents(v', k) == if k == d then Ents(v, d)[n := ino] else Ents(v, k)
    ensures forall k: nat :: k in live ==> Node(v', k) == Node(v, k)
  {
    hide Ents, Node, BlocksSound, ParentOf, DirWell, Child, TreeSound, Acyclic, EntryPut, NodeMade, Reaches, Added;
    GrownDirs(v, v', live, d, p, n, ino, kind, node, got);
    AddedParts(v, v', live, d, p, n, ino, kind, node, got);
    AddedDir(v, v', live, d, p, n, ino, kind, node, got);
    TreeGrown(v, v', live, d, n, ino);
    AcyclicGrown(v, v', live, d, n, ino);
    AllDirs(v, v', live, ino);
  }

  lemma AllDirs(v: Vol, v': Vol, live: set<nat>, ino: nat)
    requires Dir(v, live, ROOT) && forall k: nat :: k in live ==> Node(v', k) == Node(v, k)
    requires forall k: nat :: Dir(v, live, k) ==> DirWell(v', live + {ino}, k)
    requires IsDir(v', ino) ==> DirWell(v', live + {ino}, ino)
    ensures Dir(v', live + {ino}, ROOT) && forall k: nat :: Dir(v', live + {ino}, k) ==> DirWell(v', live + {ino}, k)
  {
    hide Node, DirWell;
    forall k: nat | Dir(v', live + {ino}, k)
      ensures DirWell(v', live + {ino}, k)
    {
      if k != ino {
        assert Dir(v, live, k);
      }
    }
  }

  lemma AddedDir(v: Vol, v': Vol, live: set<nat>, d: nat, p: nat, n: Name, ino: u32, kind: byte, node: Inode,
                 got: seq<u32>)
    requires Added(v, v', live, d, p, n, ino, kind, node, got)
    ensures Dir(v, live, d)
  {
  }

  /** Making a directory does the same, and the new directory knows itself and its parent. */
  lemma DirAddedSound(v: Vol, v': Vol, live: set<nat>, d: nat, p: nat, n: Name, ino: u32, kind: byte, node: Inode,
                      got: seq<u32>)
    requires Sound(v, live) && Added(v, v', live, d, p, n, ino, kind, node, got) && Reaches(v, d, p, n)
    requires node.mode == DIR_MODE && (forall k :: 1 <= k < 15 ==> node.block[k] == 0) && node.block[0] != 0
    requires d < 0x1_0000_0000 && At(v'.disk, node.block[0]) == FreshDir(ino, d)
    ensures ino !in live && Sound(v', live + {ino as nat})
    ensures forall k: nat :: Dir(v, live, k) ==> Ents(v', k) == if k == d then Ents(v, d)[n := ino] else Ents(v, k)
    ensures forall k: nat :: k in live ==> Node(v', k) == Node(v, k)
    ensures Ents(v', ino) == map[[DOT] := ino, [DOT, DOT] := d as u32]
  {
    hide BlocksSound, DirWell, Child, TreeSound, Acyclic, EntryPut, NodeMade, Reaches, Added, FreshDir, WellFormed,
      Records;
    GrownDirs(v, v', live, d, p, n, ino, kind, node, got);
    AddedParts(v, v', live, d, p, n, ino, kind, node, got);
    AddedDir(v, v', live, d, p, n, ino, kind, node, got);
    LiveInTable(v, live, d);
    FreshDirNames(ino, d);
    NewDirWell(v', live + {ino as nat}, ino, d, node);
    TreeGrown(v, v', live, d, n, ino);
    AcyclicGrown(v, v', live, d, n, ino);
    AllDirs(v, v', live, ino);
  }

  lemma LiveInTable(v: Vol, live: set<nat>, i: nat)
    requires Sound(v, live) && i in live
    ensures 1 <= i <= MAX_INODES
  {
    assert InTable(v, i);
  }

  lemma NewDirWell(v: Vol, live: set<nat>, ino: u32, d: nat, node: Inode)
    requires ino != 0 && 0 < d < 0x1_0000_0000 && ino in live && d in live
    requires Node(v, ino) == node && (forall k :: 1 <= k < 15 ==> node.block[k] == 0) && node.block[0] != 0
    requires At(v.disk, node.block[0]) == FreshDir(ino, d)
    ensures DirWell(v, live, ino) && Ents(v, ino) == map[[DOT] := ino, [DOT, DOT] := d as u32] && ParentOf(v, ino) == d
  {
    hide FreshDir, WellFormed, Records, Names, Node;
    FreshDirNames(ino, d);
  }

  // ----- allocations that no directory entry ever names -----

  /** Bits were set and unused blocks written, nothing else. */
  ghost predicate Leaked(v: Vol, v': Vol, got: seq<u32>) {
    && v'.first == v.first && v'.inodes == v.inodes
    && Allocated(v.blockMap, v'.blockMap, got) && Kept(v.blockMap, v.disk, v'.disk)
    && |v'.nodeMap| == |v.nodeMap| && forall n: nat :: Bit(v.nodeMap, n) ==> Bit(v'.nodeMap, n)
  }

  lemma LeakedKept(v: Vol, v': Vol, live: set<nat>, got: seq<u32>, i: nat)
    requires Sound(v, live) && Leaked(v, v', got) && i in live
    ensures Own(v', i) == Own(v, i) && OwnsWell(v', i)
    ensures IsDir(v, i) ==> DirBlk(v', i) == DirBlk(v, i)
    ensures IsDir(v, i) ==> forall k :: 1 <= k < DIRECT && Node(v, i).block[k] != 0 ==>
              At(v'.disk, Node(v, i).block[k]) == At(v.disk, Node(v, i).block[k])
  {
    hide Bit, Own, NoDup, BlocksSound, TreeSound, Acyclic, DirWell, Allocated, At, WellFormed, Ents;
    LiveOwnsWell(v, live, i);
    var ib := Node(v, i).block;
    forall p | p in Own(v, i)
      ensures At(v'.disk, p) == At(v.disk, p)
    {
      OwnedUsed(v, i, p);
      SameAt(v, v', p);
    }
    OwnSame(v, v', i);
    OldOwnsWell(v, v', got, i);
    if IsDir(v, i) {
      DirOwnsBlock(v, live, i);
      forall k | 1 <= k < DIRECT && ib[k] != 0
        ensures At(v'.disk, ib[k]) == At(v.disk, ib[k])
      {
        OtherBlocks(v, i, k);
      }
    }
  }

  lemma SameAt(v: Vol, v': Vol, p: u32)
    requires Kept(v.blockMap, v.disk, v'.disk) && p >= 1 && Bit(v.blockMap, p - 1)
    ensures At(v'.disk, p) == At(v.disk, p)
  {
  }

  lemma OwnSame(v: Vol, v': Vol, i: nat)
    requires v'.inodes == v.inodes && forall p: u32 :: p in Own(v, i) ==> At(v'.disk, p) == At(v.disk, p)
    ensures Own(v', i) == Own(v, i)
  {
    hide Owned, PointerBlocks, At;
    forall p | p in PointerBlocks(v.disk, Node(v, i).block)
      ensures At(v'.disk, p) == At(v.disk, p)
    {
      PointerBlocksOwned(v.disk, Node(v, i).block, p);
    }
    OwnedFrame(v.disk, v'.disk, Node(v, i).block);
  }

  lemma TreeSame(v: Vol, v': Vol, live: set<nat>)
    requires v'.inodes == v.inodes && TreeSound(v, live) && Acyclic(v, live)
    requires forall k: nat :: Dir(v, live, k) ==> Ents(v', k) == Ents(v, k)
    requires Dir(v, live, ROOT)
    ensures TreeSound(v', live) && Acyclic(v', live)
  {
    hide Ents;
    forall e: nat, m: Name, i: nat
      ensures Child(v', live, e, m, i) <==> Child(v, live, e, m, i)
    {
    }
    forall e: nat | Dir(v', live, e) && e != ROOT
      ensures Holds(v', live, ParentOf(v', e), e)
    {
      assert Dir(v, live, e) && ParentOf(v', e) == ParentOf(v, e);
      assert Holds(v, live, ParentOf(v, e), e);
      var m: Name :| Child(v, live, ParentOf(v, e), m, e);
      assert Child(v', live, ParentOf(v, e), m, e);
    }
    var depth :| Ranked(v, live, depth);
    assert Ranked(v', live, depth);
  }

  /** Leaked allocations are lost space, but they do not make the volume unsound. */
  lemma LeakedSound(v: Vol, v': Vol, live: set<nat>, got: seq<u32>)
    requires Sound(v, live) && Leaked(v, v', got)
    ensures Sound(v', live)
    ensures forall i: nat :: Node(v', i) == Node(v, i)
    ensures forall k: nat :: Dir(v, live, k) ==> Ents(v', k) == Ents(v, k)
  {
    hide Bit, Own, NoDup, TreeSound, Acyclic, WellFormed, Records, Shape, OwnsWell, Allocated, At, Read32;
    ShapeGrown(v, v', got);
    forall i: nat | i in live
      ensures Own(v', i) == Own(v, i) && OwnsWell(v', i)
    {
      LeakedKept(v, v', live, got, i);
    }
    forall k: nat | Dir(v, live, k)
      ensures DirBlk(v', k) == DirBlk(v, k)
      ensures DirWell(v', live, k)
    {
      LeakedKept(v, v', live, got, k);
      assert DirWell(v, live, k);
    }
    TreeSame(v, v', live);
  }
}
