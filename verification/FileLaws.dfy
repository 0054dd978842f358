/** What the calls on a volume mean for each other: read after write, delete after write, and everybody else's files. */
module FileLaws {
  import opened Bytes
  import opened Bitmap
  import opened BlockTree
  import opened Allocation
  import opened TreeAssembly
  import opened Copying
  import opened RecordChain
  import opened DirBlock
  import opened VolumeState
  import opened Growth
  import opened Shrink
  import opened Rmdir
  import opened Paths
  import opened Ext2Volume

  /**
    The entry a write or mkdir of `path` makes would lie in the first sector of the parent's block, behind a record
    other than the first.
   */
  ghost predicate Lands(v: Vol, path: seq<byte>) {
    SplitOf(path).Split? && Reaches(v, ParentDir(v, path), SlotOf(v, ParentDir(v, path)), SplitOf(path).name)
  }

  // ----- paths on a volume that grew -----

  /** Every name leads where it led before. */
  ghost predicate NamesStay(v: Vol, v': Vol, live: set<nat>) {
    && (forall k: nat :: k in live ==> Node(v', k) == Node(v, k))
    && forall k: nat, n: Name :: Dir(v, live, k) && n in Ents(v, k) ==>
         n in Ents(v', k) && Ents(v', k)[n] == Ents(v, k)[n]
  }

  lemma {:induction false} WalkStays(v: Vol, v': Vol, live: set<nat>, live': set<nat>, cur: nat, names: seq<Name>)
    requires Sound(v, live) && Sound(v', live') && live <= live' && NamesStay(v, v', live) && cur in live
    ensures Walk(v, cur, names) != 0 ==> Walk(v', cur, names) == Walk(v, cur, names)
    decreases names
  {
    hide Sound, Step, Ents, Node;
    if names != [] {
      StepIsMap(v, live, cur, names[0]);
      StepIsMap(v', live', cur, names[0]);
      SameKind(v, v', live, cur);
      var next := Step(v, cur, names[0]);
      if next != 0 {
        WalkStays(v, v', live, live', next, names[1..]);
      }
    }
  }

  lemma SameKind(v: Vol, v': Vol, live: set<nat>, k: nat)
    requires NamesStay(v, v', live) && k in live
    ensures IsDir(v', k) == IsDir(v, k) && IsFile(v', k) == IsFile(v, k)
  {
    hide Ents, Node;
  }

  lemma ResolveStays(v: Vol, v': Vol, live: set<nat>, live': set<nat>, path: seq<byte>)
    requires Sound(v, live) && Sound(v', live') && live <= live' && NamesStay(v, v', live)
    ensures Resolve(v, path) != 0 ==> Resolve(v', path) == Resolve(v, path)
  {
    hide BlocksSound, TreeSound, Acyclic, DirWell, Ents, NamesStay;
    if path != [] && path[0] == SLASH {
      WalkStays(v, v', live, live', ROOT, Components(path, 1));
    }
  }

  // ----- what a write leaves behind -----

  /**
    What holds after something was added under a path: its first 255 characters lead there, and everything else is as it
    was.
   */
  ghost predicate AddedAt(v: Vol, v': Vol, live: set<nat>, path: seq<byte>, ino: u32) {
    && SplitOf(path).Split? && ino !in live && Sound(v', live + {ino as nat})
    && Resolve(v', Clip(path)) == ino
    && (forall p: seq<byte> :: Resolve(v, p) != 0 ==> Resolve(v', p) == Resolve(v, p))
    && (forall i: nat :: i in live ==> Node(v', i) == Node(v, i))
    && (forall i: nat :: i in live && i != ParentDir(v, path) && Intact(v, i) ==> Content(v', i) == Content(v, i))
    && (forall k: nat :: Dir(v, live, k) ==>
         Ents(v', k) == if k == ParentDir(v, path) then Ents(v, k)[SplitOf(path).name := ino] else Ents(v, k))
  }

  lemma GrownNames(v: Vol, v': Vol, live: set<nat>, d: nat, n: Name, ino: u32)
    requires n !in Ents(v, d)
    requires forall k: nat :: Dir(v, live, k) ==> Ents(v', k) == if k == d then Ents(v, d)[n := ino] else Ents(v, k)
    requires forall k: nat :: k in live ==> Node(v', k) == Node(v, k)
    ensures NamesStay(v, v', live)
  {
    hide Ents, Node, IsDir;
  }

  lemma LandsParts(v: Vol, path: seq<byte>)
    requires Lands(v, path)
    ensures SplitOf(path).Split? && SplitOf(path).name !in Ents(v, ParentDir(v, path))
  {
  }

  lemma AddedFound(v: Vol, v': Vol, live: set<nat>, path: seq<byte>, ino: u32)
    requires Sound(v, live) && SplitOf(path).Split? && ino !in live && ino != 0
    requires Sound(v', live + {ino as nat}) && NamesStay(v, v', live) && Dir(v, live, ParentDir(v, path))
    requires SplitOf(path).name in Ents(v', ParentDir(v, path))
    requires Ents(v', ParentDir(v, path))[SplitOf(path).name] == ino
    ensures Resolve(v', Clip(path)) == ino
    ensures forall p: seq<byte> :: Resolve(v, p) != 0 ==> Resolve(v', p) == Resolve(v, p)
  {
    hide Sound, Resolve, Ents, NamesStay, Node, SplitOf, IsDir;
    var live' := live + {ino as nat};
    forall p: seq<byte>
      ensures Resolve(v, p) != 0 ==> Resolve(v', p) == Resolve(v, p)
    {
      ResolveStays(v, v', live, live', p);
    }
    var d := ParentDir(v, path);
    DirNonZero(v, live, d);
    ClipSplits(v, path);
    ResolveSplit(v', Clip(path));
    SameKind(v, v', live, d);
    StepIsMap(v', live', d, SplitOf(path).name);
  }

  lemma DirNonZero(v: Vol, live: set<nat>, d: nat)
    requires Sound(v, live) && d in live
    ensures d != 0
  {
    assert InTable(v, d);
  }

  lemma SparedContents(v: Vol, v': Vol, live: set<nat>, d: nat)
    requires Sound(v, live) && Dir(v, live, d) && KeptBut(v, v', DirNum(v, d))
    requires forall i: nat :: i in live ==> Node(v', i) == Node(v, i)
    ensures forall i: nat :: i in live && i != d && Intact(v, i) ==> Content(v', i) == Content(v, i)
  {
    hide Sound, Content, Intact, Node, IsDir, KeptBut;
    forall i: nat | i in live && i != d && Intact(v, i)
      ensures Content(v', i) == Content(v, i)
    {
      ContentKept(v, v', live, d, i);
    }
  }

  lemma FileAddedAt(v: Vol, v': Vol, live: set<nat>, path: seq<byte>, ino: u32, node: Inode, a: seq<u32>)
    requires Sound(v, live) && Lands(v, path) && node.mode == FILE_MODE
    requires Added(v, v', live, ParentDir(v, path), SlotOf(v, ParentDir(v, path)), SplitOf(path).name, ino, 1, node, a)
    ensures AddedAt(v, v', live, path, ino) && Node(v', ino) == node
  {
    hide Sound, Resolve, Ents, NamesStay, Node, SplitOf, IsDir, Reaches, Added, Content, Intact, ParentDir, KeptBut;
    var d, n := ParentDir(v, path), SplitOf(path).name;
    FileAddedSound(v, v', live, d, SlotOf(v, d), n, ino, 1, node, a);
    AddedParts(v, v', live, d, SlotOf(v, d), n, ino, 1, node, a);
    AddedDir(v, v', live, d, SlotOf(v, d), n, ino, 1, node, a);
    LandsParts(v, path);
    GrownNames(v, v', live, d, n, ino);
    AddedFound(v, v', live, path, ino);
    SparedContents(v, v', live, d);
  }

  /**
    Read after write. The path, up to its 255th character, leads to the new file,
      its size is the length of what was written, everything else is
    as it was, and reading it gives the written bytes back exactly when the volume had room for all its blocks.
   */
  lemma WriteThenRead(v: Vol, v': Vol, live: set<nat>, live': set<nat>, path: seq<byte>, content: seq<byte>, ino: u32,
                      a: seq<u32>)
    requires Sound(v, live) && content != [] && Lands(v, path)
    requires WriteOutcome(v, v', live, live', path, content, 1, ino, a)
    ensures live' == live + {ino as nat} && AddedAt(v, v', live, path, ino)
    ensures IsFile(v', ino) && Node(v', ino).size == |content|
    ensures Content(v', ino) == content <==> Needed(BlocksFor(|content|)) <= |Free(v.blockMap)|
  {
    hide Sound, Resolve, Ents, Node, SplitOf, IsDir, Reaches, Added, Intact, ParentDir, AddedAt, TreeBuilt, Free,
      Needed;
    var d, n := ParentDir(v, path), SplitOf(path).name;
    assert Stored(v, v', live, d, SlotOf(v, d), n, content, ino, a);
    var ib := Node(v', ino).block;
    FileAddedAt(v, v', live, path, ino, FileNode(|content|, ib), a);
    FileMode(v', ino, FileNode(|content|, ib));
    ReadBackIff(v.blockMap, v'.blockMap, v'.disk, ib, a, content);
  }

  lemma FileMode(v: Vol, i: nat, node: Inode)
    requires Node(v, i) == node && node.mode == FILE_MODE
    ensures IsFile(v, i) && !IsDir(v, i)
  {
  }

  /** `i_blocks` counts every block the new file owns, two sectors each, exactly when there was room for all of them. */
  lemma WriteCountsBlocks(v: Vol, v': Vol, live: set<nat>, live': set<nat>, path: seq<byte>, content: seq<byte>,
                          ino: u32, a: seq<u32>)
    requires Sound(v, live) && content != [] && Lands(v, path)
    requires WriteOutcome(v, v', live, live', path, content, 1, ino, a)
    ensures Node(v', ino).blocks == 2 * |Own(v', ino)| <==> Needed(BlocksFor(|content|)) <= |Free(v.blockMap)|
  {
    hide Sound, Resolve, Ents, Node, SplitOf, IsDir, Reaches, Added, Intact, ParentDir, AddedAt, TreeBuilt, Free,
      Needed, Owned;
    var d, n := ParentDir(v, path), SplitOf(path).name;
    assert Stored(v, v', live, d, SlotOf(v, d), n, content, ino, a);
    var ib := Node(v', ino).block;
    FileAddedAt(v, v', live, path, ino, FileNode(|content|, ib), a);
    BuiltSizeIff(v.blockMap, v'.blockMap, v'.disk, ib, a, content);
  }

  /** A new directory can be resolved at once, holds itself and its parent, and leaves everything else as it was. */
  lemma MkdirThenResolve(v: Vol, v': Vol, live: set<nat>, live': set<nat>, path: seq<byte>, ino: u32, b: u32)
    requires Sound(v, live) && Lands(v, path)
    requires MkdirOutcome(v, v', live, live', path, 1, ino, b)
    ensures live' == live + {ino as nat} && AddedAt(v, v', live, path, ino) && IsDir(v', ino)
    ensures ParentDir(v, path) < 0x1_0000_0000
    ensures Ents(v', ino) == map[[DOT] := ino, [DOT, DOT] := ParentDir(v, path) as u32]
  {
    hide Sound, Resolve, Ents, NamesStay, Node, SplitOf, IsDir, Reaches, Added, Content, Intact, ParentDir, KeptBut,
      FreshDir;
    var d, n := ParentDir(v, path), SplitOf(path).name;
    assert Made(v, v', live, d, SlotOf(v, d), n, ino, b);
    DirAddedSound(v, v', live, d, SlotOf(v, d), n, ino, 2, DirNode(b), [b]);
    AddedParts(v, v', live, d, SlotOf(v, d), n, ino, 2, DirNode(b), [b]);
    AddedDir(v, v', live, d, SlotOf(v, d), n, ino, 2, DirNode(b), [b]);
    LandsParts(v, path);
    GrownNames(v, v', live, d, n, ino);
    AddedFound(v, v', live, path, ino);
    SparedContents(v, v', live, d);
    DirMode(v', ino, DirNode(b));
  }

  lemma DirMode(v: Vol, i: nat, node: Inode)
    requires Node(v, i) == node && node.mode == DIR_MODE
    ensures IsDir(v, i) && !IsFile(v, i)
  {
  }

  // ----- undoing a write or a mkdir -----

  /** The record just put is within reach of the one-sector scan of delete and rmdir. */
  lemma NewIsSeen(v: Vol, v': Vol, d: nat, p: nat, n: Name, ino: u32, kind: byte)
    requires EntryPut(v, v', d, p, n, ino, kind) && Reaches(v, d, p, n) && ino != 0 && Node(v', d) == Node(v, d)
    ensures Seen(v', d, n).Hit?
  {
    hide WellFormed, Records, Insert, WriteBack, RecAt, Node, Find, FirstSector;
    var b := DirBlk(v, d);
    SlotBehind(b, p);
    InsertKept(b, p, ino, n, kind);
    assert DirBlk(v', d) == Insert(b, p, ino, n, kind);
    InsertRefines(b, p, ino, n, kind);
    InsertFindsNew(b, p, ino, n, kind);
    WholeSees(DirBlk(v', d), n);
  }

  lemma WholeSees(b: Block, n: Name)
    requires WellFormed(b) && ValidName(n)
    requires Find(Records(b), 0, 0, n).Hit? && Find(Records(b), 0, 0, n).at + 8 + |n| <= SECTOR
    ensures Find(Records(FirstSector(b)), 0, 0, n).Hit?
  {
    hide Find, FirstSector, RecAt, Records;
    DeleteSees(b, 0, 0, n);
  }

  lemma PutIsSeen(v: Vol, v': Vol, live: set<nat>, path: seq<byte>, ino: u32, kind: byte, node: Inode, got: seq<u32>)
    requires Sound(v, live) && Lands(v, path) && AddedAt(v, v', live, path, ino)
    requires Added(v, v', live, ParentDir(v, path), SlotOf(v, ParentDir(v, path)), SplitOf(path).name,
         ino, kind, node, got)
    ensures ParentDir(v', path) == ParentDir(v, path) && IsDir(v', ParentDir(v, path)) && ParentDir(v, path) != 0
    ensures Seen(v', ParentDir(v, path), SplitOf(path).name).Hit?
    ensures SplitOf(path).name in Ents(v', ParentDir(v, path))
    ensures Ents(v', ParentDir(v, path))[SplitOf(path).name] == ino
  {
    hide Sound, Resolve, Ents, NodeMade, EntryPut, SplitOf, Reaches, Content, Intact, Seen, Node, SlotOf;
    var d := ParentDir(v, path);
    DirNonZero(v, live, d);
    assert Resolve(v, SplitOf(path).parent) == d;
    SameDir(v, v', d);
    AddedParts(v, v', live, d, SlotOf(v, d), SplitOf(path).name, ino, kind, node, got);
    NewIsSeen(v, v', d, SlotOf(v, d), SplitOf(path).name, ino, kind);
  }

  lemma SameDir(v: Vol, v': Vol, d: nat)
    requires Node(v', d) == Node(v, d)
    ensures IsDir(v', d) == IsDir(v, d)
  {
  }

  /** Allocating and then freeing exactly what was allocated gives the block bitmap back. */
  lemma BlocksUndone(v: Vol, v': Vol, v'': Vol, ino: u32, node: Inode, got: seq<u32>)
    requires NodeMade(v, v', ino, node, got) && BlocksFreed(v', v'.blockMap, v''.blockMap, {ino as nat})
    ensures v''.blockMap == v.blockMap
  {
    hide Bit, Owned, NoDup, Taken;
    forall n: nat
      ensures Bit(v''.blockMap, n) <==> Bit(v.blockMap, n)
    {
      if Bit(v'.blockMap, n) {
        BitInRange(v'.blockMap, n);
      }
      assert OwnedBy(v', {ino as nat}, n + 1) <==> n + 1 in Own(v', ino);
      assert n + 1 in got ==> !Bit(v.blockMap, n);
    }
    Extensional(v''.blockMap, v.blockMap);
  }

  lemma NodesUndone(im: Bits, im': Bits, im'': Bits, ino: u32)
    requires ino != 0 && Taken(im, im', ino) && NodesFreed(im', im'', {ino as nat})
    ensures im'' == im
  {
    hide Bit;
    SetBitEffect(im, ino - 1);
    forall n: nat
      ensures Bit(im'', n) <==> Bit(im, n)
    {
      assert n + 1 in {ino as nat} <==> n == ino - 1;
    }
    Extensional(im'', im);
  }

  /** What is left of a file or empty directory that was made and removed again: nothing. */
  ghost predicate Undone(v: Vol, v'': Vol, live: set<nat>, path: seq<byte>) {
    && v''.blockMap == v.blockMap && v''.nodeMap == v.nodeMap && Sound(v'', live)
    && (forall i: nat :: i in live ==> Node(v'', i) == Node(v, i))
    && (forall k: nat :: Dir(v, live, k) ==> Ents(v'', k) == Ents(v, k))
    && (forall i: nat :: i in live && i != ParentDir(v, path) && Intact(v, i) ==> Content(v'', i) == Content(v, i))
  }

  lemma StillIntact(v: Vol, v': Vol, live: set<nat>, d: nat, i: nat)
    requires Sound(v, live) && Dir(v, live, d) && KeptBut(v, v', DirNum(v, d)) && i in live && i != d
    requires Node(v', i) == Node(v, i) && Intact(v, i)
    ensures Intact(v', i)
  {
    hide Sound, IsDir, Node, At, Owned, KeptBut, DirNum, PathOk;
    forall p | p in Own(v, i)
      ensures At(v'.disk, p) == At(v.disk, p)
    {
      OwnedAtKept(v, v', live, d, i, p);
    }
    var ib := Node(v, i).block;
    forall p | p in PointerBlocks(v.disk, ib)
      ensures At(v'.disk, p) == At(v.disk, p)
    {
      PointerBlocksOwned(v.disk, ib, p);
    }
    forall k | 0 <= k < BlocksFor(Node(v', i).size)
      ensures PathOk(v'.disk, Node(v', i).block, k)
    {
      assert PathOk(v.disk, ib, k);
      PhysFrame(v.disk, v'.disk, ib, k);
    }
  }

  lemma RemovedAgain(v: Vol, v': Vol, v'': Vol, live: set<nat>, path: seq<byte>, ino: u32, kind: byte, node: Inode,
                     got: seq<u32>)
    requires Sound(v, live) && Lands(v, path) && AddedAt(v, v', live, path, ino)
    requires Added(v, v', live, ParentDir(v, path), SlotOf(v, ParentDir(v, path)), SplitOf(path).name,
         ino, kind, node, got)
    requires Removed(v', v'', live + {ino as nat}, ParentDir(v, path), SplitOf(path).name, ino, {ino as nat})
    ensures Undone(v, v'', live, path)
  {
    hide Sound, Resolve, Ents, EntryPut, SplitOf, Reaches, Content, Intact, Node, SlotOf, BlocksFreed, NodesFreed,
      KeptBut, Taken, Owned, IsDir, NoDup, Allocated, ParentDir;
    var d, n := ParentDir(v, path), SplitOf(path).name;
    BlocksUndone(v, v', v'', ino, node, got);
    NodesUndone(v.nodeMap, v'.nodeMap, v''.nodeMap, ino);
    RemovedSound(v', v'', live + {ino as nat}, d, n, ino, {ino as nat});
    assert live + {ino as nat} - {ino as nat} == live;
    LandsParts(v, path);
    AddedParts(v, v', live, d, SlotOf(v, d), n, ino, kind, node, got);
    forall k: nat | Dir(v, live, k)
      ensures Ents(v'', k) == Ents(v, k)
    {
      SameDir(v, v', k);
      assert Dir(v', live + {ino as nat}, k) && k != ino;
    }
    forall i: nat | i in live && i != d && Intact(v, i)
      ensures Content(v'', i) == Content(v, i)
    {
      StillIntact(v, v', live, d, i);
      ContentKept(v', v'', live + {ino as nat}, d, i);
    }
  }

  /**
    Delete after write: it succeeds, and both bitmaps, every directory and every other file are as before the write.
   */
  lemma WriteThenDelete(v: Vol, v': Vol, v'': Vol, live: set<nat>, live': set<nat>, live'': set<nat>, path: seq<byte>,
                        content: seq<byte>,
                        ino: u32, a: seq<u32>, r: int)
    requires Sound(v, live) && content != [] && Lands(v, path)
    requires WriteOutcome(v, v', live, live', path, content, 1, ino, a)
    requires DeleteOutcome(v', v'', live', live'', path, r)
    ensures r == 1 && live'' == live && Undone(v, v'', live, path)
  {
    hide Sound, Resolve, Ents, Node, SplitOf, IsDir, Reaches, Added, Intact, AddedAt, TreeBuilt, Free, Needed, Seen,
      Undone, Removed, Content, ParentDir;
    WriteThenRead(v, v', live, live', path, content, ino, a);
    var d, n := ParentDir(v, path), SplitOf(path).name;
    assert Stored(v, v', live, d, SlotOf(v, d), n, content, ino, a);
    var node := FileNode(|content|, Node(v', ino).block);
    FileAddedAt(v, v', live, path, ino, node, a);
    FileMode(v', ino, node);
    PutIsSeen(v, v', live, path, ino, 1, node, a);
    RemovedAgain(v, v', v'', live, path, ino, 1, node, a);
    assert live + {ino as nat} - {ino as nat} == live by {
      AddedFacts(v, v', live, path, ino);
    }
  }

  lemma AddedFacts(v: Vol, v': Vol, live: set<nat>, path: seq<byte>, ino: u32)
    requires AddedAt(v, v', live, path, ino)
    ensures ino !in live && Sound(v', live + {ino as nat}) && Resolve(v', Clip(path)) == ino
    ensures forall i: nat :: i in live ==> Node(v', i) == Node(v, i)
  {
    hide Sound, Resolve, Node;
  }

  lemma BareSubtree(v: Vol, live: set<nat>, t: nat, gone: set<nat>)
    requires Subtree(v, live, t, gone) && forall n: Name :: n in Ents(v, t) ==> IsDots(n)
    requires TreeSound(v, live) && Acyclic(v, live)
    ensures gone == {t}
  {
    hide Ents, IsDots;
    var rest := gone - {t};
    if rest != {} {
      var depth :| Ranked(v, live, depth);
      var j := Shallowest(depth, rest);
      ShallowestHeld(v, live, t, gone, depth, j);
    }
  }

  lemma ShallowestHeld(v: Vol, live: set<nat>, t: nat, gone: set<nat>, depth: map<nat, nat>, j: nat)
    requires Subtree(v, live, t, gone) && Ranked(v, live, depth) && j in gone && j != t
    requires forall n: Name :: n in Ents(v, t) ==> IsDots(n)
    ensures exists e: nat :: e in gone && e != t && e in depth && depth[e] < depth[j]
  {
    hide Ents, IsDots;
    var e: nat, m: Name :| e in gone && Child(v, live, e, m, j);
    assert e != t;
  }

  /** Rmdir after mkdir does the same. */
  lemma MkdirThenRmdir(v: Vol, v': Vol, v'': Vol, live: set<nat>, live': set<nat>, live'': set<nat>, path: seq<byte>,
                       ino: u32, b: u32,
                       r: int, gone: set<nat>)
    requires Sound(v, live) && Lands(v, path)
    requires MkdirOutcome(v, v', live, live', path, 1, ino, b) && RmdirOutcome(v', v'', live', live'', path, r, gone)
    ensures r == 1 && gone == {ino as nat} && live'' == live && Undone(v, v'', live, path)
  {
    hide Sound, Resolve, Ents, Node, SplitOf, IsDir, Reaches, Added, Intact, AddedAt, Seen, Undone, Content, ParentDir,
      FreshDir, IsDots, Removed;
    MkdirThenResolve(v, v', live, live', path, ino, b);
    AddedFacts(v, v', live, path, ino);
    var d, n := ParentDir(v, path), SplitOf(path).name;
    assert Made(v, v', live, d, SlotOf(v, d), n, ino, b);
    PutIsSeen(v, v', live, path, ino, 2, DirNode(b), [b]);
    AddedDir(v, v', live, d, SlotOf(v, d), n, ino, 2, DirNode(b), [b]);
    LandsNoDots(v, live, path);
    assert Ents(v', ino).Keys == {[DOT], [DOT, DOT]};
    NewbornGone(v', v'', live', d, n, ino, gone);
    RemovedAgain(v, v', v'', live, path, ino, 2, DirNode(b), [b]);
    assert live + {ino as nat} - {ino as nat} == live;
  }

  lemma LandsNoDots(v: Vol, live: set<nat>, path: seq<byte>)
    requires Sound(v, live) && Lands(v, path) && Dir(v, live, ParentDir(v, path))
    ensures SplitOf(path).Split? && !IsDots(SplitOf(path).name)
  {
    hide BlocksSound, TreeSound, Acyclic, Ents, SplitOf;
    assert DirWell(v, live, ParentDir(v, path));
  }

  lemma NewbornGone(v: Vol, v': Vol, live: set<nat>, d: nat, n: Name, t: nat, gone: set<nat>)
    requires Sound(v, live) && Removed(v, v', live, d, n, t, gone) && Ents(v, t).Keys == {[DOT], [DOT, DOT]}
    ensures gone == {t}
  {
    hide BlocksSound, TreeSound, Acyclic, Ents, DirWell, BlocksFreed, NodesFreed, KeptBut, WellFormed, Records, Child,
      Subtree;
    forall m: Name | m in Ents(v, t)
      ensures IsDots(m)
    {
      assert m in Ents(v, t).Keys;
    }
    BareSubtree(v, live, t, gone);
  }

  // ----- what a removal leaves alone -----

  /** The walk along `names` looks up `n` in directory `d` on its way. */
  ghost predicate Passes(v: Vol, cur: nat, names: seq<Name>, d: nat, n: Name)
    decreases names
  {
    names != [] && ((cur == d && names[0] == n) ||
      (Step(v, cur, names[0]) != 0 && Passes(v, Step(v, cur, names[0]), names[1..], d, n)))
  }

  ghost predicate PathPasses(v: Vol, path: seq<byte>, d: nat, n: Name) {
    path != [] && path[0] == SLASH && Passes(v, ROOT, Components(path, 1), d, n)
  }

  lemma StepOutside(v: Vol, live: set<nat>, d: nat, n: Name, t: nat, gone: set<nat>, cur: nat, m: Name)
    requires Sound(v, live) && Child(v, live, d, n, t) && Subtree(v, live, t, gone)
    requires cur in live && cur !in gone && !(cur == d && m == n)
    ensures Step(v, cur, m) != 0 ==> Step(v, cur, m) in live && Step(v, cur, m) !in gone
  {
    hide BlocksSound, TreeSound, Acyclic, DirWell, Ents, Child, Subtree, Step, IsDir;
    StepIsMap(v, live, cur, m);
    if IsDir(v, cur) {
      NoDangling(v, live, d, n, t, gone, cur, m);
    }
  }

  /** After a removal a walk ends where it did before, unless it went through the removed name: then it ends nowhere. */
  lemma {:induction false} WalkRemoved(v: Vol, v': Vol, live: set<nat>, d: nat, n: Name, t: nat, gone: set<nat>,
                                       cur: nat, names: seq<Name>)
    requires Sound(v, live) && Removed(v, v', live, d, n, t, gone) && Sound(v', live - gone) && cur in live
    requires cur !in gone
    requires forall k: nat :: k in live ==> Node(v', k) == Node(v, k)
    requires forall k: nat :: Dir(v, live, k) && k !in gone ==> Ents(v', k) == if k == d then Ents(v, d) - {n}
      else Ents(v, k)
    ensures Walk(v', cur, names) == if Passes(v, cur, names, d, n) then 0 else Walk(v, cur, names)
    decreases names
  {
    hide Sound, Step, Ents, Node, Removed, Child, Subtree;
    if names != [] {
      RemovedDir(v, v', live, d, n, t, gone);
      SameDir(v, v', cur);
      StepIsMap(v, live, cur, names[0]);
      StepIsMap(v', live - gone, cur, names[0]);
      if !(cur == d && names[0] == n) {
        StepOutside(v, live, d, n, t, gone, cur, names[0]);
        if Step(v, cur, names[0]) != 0 {
          WalkRemoved(v, v', live, d, n, t, gone, Step(v, cur, names[0]), names[1..]);
        }
      }
    }
  }

  /** What holds after `gone` was removed behind name `n` of directory `d`. */
  ghost predicate OnlyRemoved(v: Vol, v': Vol, live: set<nat>, d: nat, n: Name, gone: set<nat>) {
    && Sound(v', live - gone)
    && (forall p: seq<byte> :: Resolve(v', p) == if PathPasses(v, p, d, n) then 0 else Resolve(v, p))
    && (forall i: nat :: i in live && i !in gone ==> Node(v', i) == Node(v, i))
    && (forall i: nat :: i in live && i !in gone && i != d && Intact(v, i) ==> Content(v', i) == Content(v, i))
    && (forall k: nat :: Dir(v, live, k) && k !in gone ==> Ents(v', k) == if k == d then Ents(v, k) - {n}
         else Ents(v, k))
    && (forall b: nat :: Bit(v'.blockMap, b) <==> Bit(v.blockMap, b) && !OwnedBy(v, gone, b + 1))
    && (forall i: nat :: Bit(v'.nodeMap, i) <==> Bit(v.nodeMap, i) && i + 1 !in gone)
  }

  lemma RemovedOnly(v: Vol, v': Vol, live: set<nat>, d: nat, n: Name, t: nat, gone: set<nat>)
    requires Sound(v, live) && Removed(v, v', live, d, n, t, gone)
    ensures OnlyRemoved(v, v', live, d, n, gone)
  {
    hide Sound, Resolve, Ents, Node, Content, Intact, Removed, Child, Subtree, Bit, KeptBut, IsDir, Walk, Passes;
    RemovedSound(v, v', live, d, n, t, gone);
    RemovedDir(v, v', live, d, n, t, gone);
    RemovedMaps(v, v', live, d, n, t, gone);
    SparedContents(v, v', live, d);
    forall p: seq<byte>
      ensures Resolve(v', p) == if PathPasses(v, p, d, n) then 0 else Resolve(v, p)
    {
      ResolveRemoved(v, v', live, d, n, t, gone, p);
    }
  }

  lemma RemovedMaps(v: Vol, v': Vol, live: set<nat>, d: nat, n: Name, t: nat, gone: set<nat>)
    requires Removed(v, v', live, d, n, t, gone)
    ensures BlocksFreed(v, v.blockMap, v'.blockMap, gone) && NodesFreed(v.nodeMap, v'.nodeMap, gone)
  {
  }

  lemma ResolveRemoved(v: Vol, v': Vol, live: set<nat>, d: nat, n: Name, t: nat, gone: set<nat>, path: seq<byte>)
    requires Sound(v, live) && Removed(v, v', live, d, n, t, gone) && Sound(v', live - gone)
    requires forall k: nat :: k in live ==> Node(v', k) == Node(v, k)
    requires forall k: nat :: Dir(v, live, k) && k !in gone ==> Ents(v', k) == if k == d then Ents(v, d) - {n}
      else Ents(v, k)
    ensures Resolve(v', path) == if PathPasses(v, path, d, n) then 0 else Resolve(v, path)
  {
    hide BlocksSound, TreeSound, Acyclic, DirWell, Ents, Node, Removed, Child, Subtree, Walk, Passes, Components;
    if path != [] && path[0] == SLASH {
      RemovedDir(v, v', live, d, n, t, gone);
      OutsideGone(v, live, d, n, t, gone);
      WalkRemoved(v, v', live, d, n, t, gone, ROOT, Components(path, 1));
    }
  }

  /**
    A delete that returns 1 frees exactly the file's blocks and inode; every other path, file and directory is as
    before.
   */
  lemma DeleteSpares(v: Vol, v': Vol, live: set<nat>, live': set<nat>, path: seq<byte>)
    requires Sound(v, live) && DeleteOutcome(v, v', live, live', path, 1)
    ensures SplitOf(path).Split? && SplitOf(path).name in Ents(v, ParentDir(v, path))
    ensures var d, n := ParentDir(v, path), SplitOf(path).name;
      var t: nat := Ents(v, d)[n];
      !IsDir(v, t) && live' == live - {t} && OnlyRemoved(v, v', live, d, n, {t})
  {
    hide Sound, Ents, SplitOf, ParentDir, IsDir, Seen, Removed, OnlyRemoved;
    var d, n := ParentDir(v, path), SplitOf(path).name;
    RemovedOnly(v, v', live, d, n, Ents(v, d)[n], {Ents(v, d)[n] as nat});
  }

  /** An rmdir that returns 1 does the same for the whole subtree, if and only if it was not called by "." or "..". */
  lemma RmdirSparesIff(v: Vol, v': Vol, live: set<nat>, live': set<nat>, path: seq<byte>, gone: set<nat>)
    requires Sound(v, live) && RmdirOutcome(v, v', live, live', path, 1, gone)
    ensures SplitOf(path).Split? && SplitOf(path).name in Ents(v, ParentDir(v, path))
    ensures var d, n := ParentDir(v, path), SplitOf(path).name;
      Subtree(v, live, Ents(v, d)[n], gone) && OnlyRemoved(v, v', live, d, n, gone) <==> !IsDots(n)
  {
    hide Sound, Ents, SplitOf, ParentDir, IsDir, Seen, Removed, Resolve, Content, Intact, Node, IsDots, Bit, Subtree,
      Gutted;
    var d, n := ParentDir(v, path), SplitOf(path).name;
    RmdirSoundIff(v, v', live, live', path, gone);
    if !IsDots(n) {
      RemovedOnly(v, v', live, d, n, Ents(v, d)[n], gone);
      RemovedSubtree(v, v', live, d, n, Ents(v, d)[n], gone);
    }
  }

  lemma RemovedSubtree(v: Vol, v': Vol, live: set<nat>, d: nat, n: Name, t: nat, gone: set<nat>)
    requires Removed(v, v', live, d, n, t, gone)
    ensures Subtree(v, live, t, gone)
  {
  }

  // ----- copying -----

  /** A file with all its blocks, of a size a write could have made. */
  ghost predicate Whole(v: Vol, i: nat) {
    0 < Node(v, i).size <= MAX_SIZE && Complete(v.disk, Node(v, i).block, BlocksFor(Node(v, i).size))
  }

  lemma WholeIntact(v: Vol, i: nat)
    requires Whole(v, i)
    ensures Intact(v, i)
  {
    hide PathOk, Phys, Node, BlocksFor;
  }

  /** The source is untouched by the write of the blank destination. */
  lemma SourceReady(v: Vol, w: Vol, live: set<nat>, d: nat, i: nat)
    requires Sound(v, live) && Dir(v, live, d) && KeptBut(v, w, DirNum(v, d)) && i in live && i != d
    requires Node(w, i) == Node(v, i) && Whole(v, i)
    ensures Whole(w, i) && Own(w, i) == Own(v, i) && Content(w, i) == Content(v, i)
  {
    hide Sound, IsDir, At, Owned, KeptBut, DirNum, PathOk, PointerBlocks, Phys, Intact;
    WholeIntact(v, i);
    ContentKept(v, w, live, d, i);
    OwnKept(v, w, live, d, i);
    forall p | p in Own(v, i)
      ensures At(w.disk, p) == At(v.disk, p)
    {
      OwnedAtKept(v, w, live, d, i, p);
    }
    var ib := Node(v, i).block;
    forall p | p in PointerBlocks(v.disk, ib)
      ensures At(w.disk, p) == At(v.disk, p)
    {
      PointerBlocksOwned(v.disk, ib, p);
    }
    forall k | 0 <= k < BlocksFor(Node(v, i).size)
      ensures PathOk(w.disk, ib, k) && Phys(w.disk, ib, k) != 0
    {
      assert PathOk(v.disk, ib, k) && Phys(v.disk, ib, k) != 0;
      PhysKept(v.disk, w.disk, ib, k);
      PhysFrame(v.disk, w.disk, ib, k);
    }
  }

  lemma FreshTarget(v: Vol, w: Vol, live: set<nat>, i: nat, t: Slots, a: seq<u32>, blank: seq<byte>)
    requires Sound(v, live) && i in live && Own(w, i) == Own(v, i) && |w.disk| == |v.disk|
    requires TreeBuilt(v.blockMap, w.blockMap, w.disk, t, a, blank)
    ensures Target(w.disk, Node(w, i).block, t, a, BlocksFor(|blank|))
  {
    hide TreeSound, Acyclic, DirWell, IsTree, TrashZeroed, Owned, Bit, LeavesDone, Node, NoDup, Disjoint;
    LiveOwnsWell(v, live, i);
    SoundReady(v, live);
    AllocatedPadded(v.blockMap, w.blockMap, a, v.disk);
    forall x: u32 | x in Own(v, i)
      ensures x !in a
    {
      assert x >= 1 && Bit(v.blockMap, x - 1);
    }
  }

  lemma UsedIsOld(bm: Bits, bm': Bits, a: seq<u32>, b: nat)
    requires Allocated(bm, bm', a) && 1 <= b && Bit(bm, b - 1)
    ensures b !in a
  {
    hide Bit;
  }

  /** The copied leaves are all among the blocks just allocated, so for the rest of the volume the copy is the write. */
  lemma CopiedAdded(v: Vol, w: Vol, v': Vol, live: set<nat>, d: nat, p: nat, n: Name, ino: u32, node: Inode,
                    a: seq<u32>, nb: nat)
    requires Sound(v, live) && Added(v, w, live, d, p, n, ino, 1, node, a) && v' == w.(disk := v'.disk)
    requires |v'.disk| == |w.disk|
    requires forall b: nat :: b < |w.disk| && b !in a ==> v'.disk[b] == w.disk[b]
    requires IsTree(v'.disk, node.block, a, nb)
    ensures Added(v, v', live, d, p, n, ino, 1, node, a)
  {
    hide Sound, IsDir, Insert, WriteBack, InBuffer, IsTree, NoDup, Owned, Node, Bit;
    DirBlockUsed(v, live, d);
    TreeOwned(v'.disk, node.block, a, nb);
    UsedIsOld(v.blockMap, w.blockMap, a, DirNum(v, d));
    forall b: nat | 1 <= b < |v.disk| && Bit(v.blockMap, b - 1) && b != DirNum(v, d)
      ensures v'.disk[b] == v.disk[b]
    {
      UsedIsOld(v.blockMap, w.blockMap, a, b);
    }
    SameNode(w, v', d);
  }

  lemma CopySize(v: Vol, i: nat)
    requires Whole(v, i)
    ensures FileSize(Node(v, i).size) == Node(v, i).size && BlocksCopied(Node(v, i).size) == BlocksFor(Node(v, i).size)
    ensures |Wanted(Null, Node(v, i).size)| == Node(v, i).size > 0
  {
  }

  lemma SourceIsNoDir(v: Vol, i: nat, d: nat)
    requires IsFile(v, i) && IsDir(v, d)
    ensures i != d
  {
  }

  /** The copy loop on the volume: what is added is what the write added, with the source's bytes in its leaves. */
  lemma CopyTree(v: Vol, w: Vol, v': Vol, live: set<nat>, d: nat, p: nat, n: Name, i: nat, ino: u32, ib: Slots,
                 a: seq<u32>, blank: seq<byte>)
    requires Sound(v, live) && i in live && i != d && Whole(v, i) && |blank| == Node(v, i).size
    requires Added(v, w, live, d, p, n, ino, 1, FileNode(|blank|, ib), a) && Node(w, ino) == FileNode(|blank|, ib)
    requires Node(w, i) == Node(v, i) && TreeBuilt(v.blockMap, w.blockMap, w.disk, ib, a, blank)
    requires v' == w.(disk := Copied(w.disk, Node(w, i).block, ib, 0, BlocksFor(|blank|)))
    ensures Added(v, v', live, d, p, n, ino, 1, FileNode(|blank|, ib), a)
    ensures ReadFrom(v'.disk, ib, 0, |blank|) == Content(v, i) <==> Needed(BlocksFor(|blank|)) <= |Free(v.blockMap)|
  {
    hide Sound, Node, IsDir, Added, TreeBuilt, Free, Needed, FileSize, Whole, Copied, Target, BlocksFor, Complete,
      FileNode;
    AddedParts(v, w, live, d, p, n, ino, 1, FileNode(|blank|, ib), a);
    AddedDir(v, w, live, d, p, n, ino, 1, FileNode(|blank|, ib), a);
    SourceReady(v, w, live, d, i);
    WholeParts(w, i);
    SameLength(v, w, d);
    FreshTarget(v, w, live, i, ib, a, blank);
    var s := Node(w, i).block;
    CopyAll(w.disk, s, ib, a, BlocksFor(|blank|), 0);
    TargetTree(v'.disk, s, ib, a, BlocksFor(|blank|));
    CopyReadsIff(v.blockMap, w.blockMap, w.disk, s, ib, a, blank);
    MadeSlots(|blank|, ib);
    CopiedAdded(v, w, v', live, d, p, n, ino, FileNode(|blank|, ib), a, BlocksFor(|blank|));
  }

  lemma TargetTree(d: Disk, s: Slots, t: Slots, a: seq<u32>, nb: nat)
    requires Target(d, s, t, a, nb)
    ensures IsTree(d, t, a, nb)
  {
  }

  lemma SameLength(v: Vol, v': Vol, d: nat)
    requires KeptBut(v, v', DirNum(v, d))
    ensures |v'.disk| == |v.disk|
  {
  }

  lemma MadeSlots(size: nat, ib: Slots)
    requires size <= MAX_SIZE
    ensures FileNode(size, ib).block == ib && FileNode(size, ib).size == size && FileNode(size, ib).mode == FILE_MODE
  {
  }

  /**
    A copy of a whole file. The destination path leads to a new file of the same size, everything else, the source
    included, is as it was, and the new file holds the source's bytes exactly when there was room for all its blocks.
    The bound on the path matters: the copy loop looks the destination up by its whole path, which for a longer one
    need not be the file that was just made under its first 255 characters.
   */
  lemma CopyDelivers(v: Vol, w: Vol, v': Vol, live: set<nat>, live': set<nat>, src: seq<byte>, dest: seq<byte>,
                     ino: u32, a: seq<u32>)
    requires Sound(v, live) && |dest| <= MAX_PATH && Lands(v, dest) && Whole(v, Resolve(v, src))
    requires CopyOutcome(v, w, v', live, live', src, dest, false, 1, ino, a)
    ensures live' == live + {ino as nat} && AddedAt(v, v', live, dest, ino)
    ensures IsFile(v', ino) && Node(v', ino).size == Node(v, Resolve(v, src)).size
    ensures Content(v', ino) == Content(v, Resolve(v, src))
      <==> Needed(BlocksFor(Node(v, Resolve(v, src)).size)) <= |Free(v.blockMap)|
  {
    hide Sound, Resolve, Ents, Node, SplitOf, IsDir, IsFile, Reaches, Added, Intact, ParentDir, AddedAt, TreeBuilt,
      Free, Needed, Wanted,
      FileSize, Whole, Copied, Target, BlocksCopied, BlocksFor, Complete, Content;
    var i, d, n := Resolve(v, src), ParentDir(v, dest), SplitOf(dest).name;
    var blank := Wanted(Null, Node(v, i).size);
    CopySize(v, i);
    WholeParts(v, i);
    WriteThenRead(v, w, live, live', dest, blank, ino, a);
    assert Stored(v, w, live, d, SlotOf(v, d), n, blank, ino, a);
    AddedFacts(v, w, live, dest, ino);
    ResolveLive(v, live, src);
    AddedDir(v, w, live, d, SlotOf(v, d), n, ino, 1, FileNode(|blank|, Node(w, ino).block), a);
    AddedParts(v, w, live, d, SlotOf(v, d), n, ino, 1, FileNode(|blank|, Node(w, ino).block), a);
    SourceIsNoDir(v, i, d);
    MadeSlots(|blank|, Node(w, ino).block);
    CopyTree(v, w, v', live, d, SlotOf(v, d), n, i, ino, Node(w, ino).block, a, blank);
    FileAddedAt(v, v', live, dest, ino, FileNode(|blank|, Node(w, ino).block), a);
    FileMode(v', ino, FileNode(|blank|, Node(w, ino).block));
    ContentIs(v', ino);
  }

  lemma ContentIs(v: Vol, i: nat)
    ensures Content(v, i) == ReadFrom(v.disk, Node(v, i).block, 0, Node(v, i).size)
  {
  }

  lemma WholeParts(v: Vol, i: nat)
    requires Whole(v, i)
    ensures 0 < Node(v, i).size <= MAX_SIZE && Complete(v.disk, Node(v, i).block, BlocksFor(Node(v, i).size))
  {
  }

  // ----- room for a new name -----

  /** The test for slack leaves 20 bytes, because lengths are multiples of 4: enough for every name of up to 12. */
  lemma SlackFits(b: Block, p: nat, n: Name)
    requires Slack(Records(b), p) && |n| <= 12
    ensures Fits(b, p, n)
  {
    hide Records;
  }

  /** With exactly these 20 bytes, 12 is the longest name that fits. */
  lemma TightSlackFitsIff(b: Block, p: nat, n: Name)
    requires Slack(Records(b), p) && Records(b)[p].len == RealLen(|Records(b)[p].name|) + 20
    ensures Fits(b, p, n) <==> |n| <= 12
  {
    hide Records;
  }

  /**
    A write, mkdir or copy under a name of up to 12 bytes stays inside the directory buffer, whatever the directory
    holds.
   */
  lemma ShortNamesSafe(v: Vol, live: set<nat>, path: seq<byte>)
    requires Sound(v, live) && SplitOf(path).Split? && |SplitOf(path).name| <= 12
    ensures InsertSafe(v, path)
  {
    hide BlocksSound, TreeSound, Acyclic, Resolve, Records, SplitOf, Lookup, RecAt, InBuffer;
    var d, n := ParentDir(v, path), SplitOf(path).name;
    if d != 0 && IsDir(v, d) && SlotOf(v, d) != 0 {
      var b := DirBlk(v, d);
      ParentFacts(v, live, SplitOf(path).parent, d, n);
      SlotIsSlack(Records(b), 0, 0);
      SlackFits(b, SlotOf(v, d), n);
      FitsInBuffer(b, SlotOf(v, d), n);
    }
  }
}
