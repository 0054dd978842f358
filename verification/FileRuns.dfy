/** Whole runs of calls on a volume. */
module FileRuns {
  import opened Bytes
  import opened Bitmap
  import opened BlockTree
  import opened Allocation
  import opened TreeAssembly
  import opened Copying
  import opened RecordChain
  import opened DirBlock
  import opened VolumeState
  import opened Growth
  import opened Shrink
  import opened Rmdir
  import opened Paths
  import opened Ext2Volume
  import opened FileLaws

  datatype Call =
    | Write(path: seq<byte>, content: seq<byte>)
    | Mkdir(path: seq<byte>)
    | Delete(path: seq<byte>)
    | RemoveDir(path: seq<byte>)
    | Copy(src: seq<byte>, dest: seq<byte>)

  /** Call `c` returned `r` and took the volume from `v` to `v'`. */
  ghost predicate Does(v: Vol, live: set<nat>, c: Call, r: int, v': Vol, live': set<nat>) {
    match c
    case Write(path, content) => exists ino: u32, a: seq<u32> ::
      WriteOutcome(v, v', live, live', path, content, r, ino, a)
    case Mkdir(path) => exists ino: u32, b: u32 :: MkdirOutcome(v, v', live, live', path, r, ino, b)
    case Delete(path) => DeleteOutcome(v, v', live, live', path, r)
    case RemoveDir(path) => exists gone: set<nat> :: RmdirOutcome(v, v', live, live', path, r, gone)
    case Copy(src, dest) => exists w: Vol, busy: bool, ino: u32, a: seq<u32> ::
      CopyOutcome(v, w, v', live, live', src, dest, busy, r, ino, a)
  }

  /**
    What a caller has to see to: a new entry must fit the first sector of its directory,
      "." and ".." must not be removed,
    and the destination of a copy, which is looked up by its whole path,
      must not be longer than what the write looks at.
   */
  ghost predicate Proper(v: Vol, c: Call, r: int) {
    r == 1 ==>
      match c
      case Write(path, content) => Lands(v, path)
      case Mkdir(path) => Lands(v, path)
      case Delete(path) => true
      case RemoveDir(path) => SplitOf(path).Split? ==> !IsDots(SplitOf(path).name)
      case Copy(src, dest) => |dest| <= MAX_PATH && Lands(v, dest)
  }

  /** Every intact file that is live before and after has the same inode and contents, and is still intact. */
  ghost predicate FilesKept(v: Vol, live: set<nat>, v': Vol, live': set<nat>) {
    forall i: nat :: i in live && i in live' && IsFile(v, i) && Intact(v, i) ==>
      Node(v', i) == Node(v, i) && Content(v', i) == Content(v, i) && Intact(v', i)
  }

  lemma SameBlocks(v: Vol, v': Vol, i: nat)
    requires Node(v', i) == Node(v, i) && Intact(v, i)
    requires forall p: u32 :: p in Own(v, i) ==> At(v'.disk, p) == At(v.disk, p)
    ensures Content(v', i) == Content(v, i) && Intact(v', i)
  {
    hide Node, At, Owned, PathOk, PointerBlocks, BlocksFor;
    var ib := Node(v, i).block;
    ReadFrame(v.disk, v'.disk, ib, 0, Node(v, i).size);
    forall p | p in PointerBlocks(v.disk, ib)
      ensures At(v'.disk, p) == At(v.disk, p)
    {
      PointerBlocksOwned(v.disk, ib, p);
    }
    forall k | 0 <= k < BlocksFor(Node(v', i).size)
      ensures PathOk(v'.disk, Node(v', i).block, k)
    {
      assert PathOk(v.disk, ib, k);
      PhysFrame(v.disk, v'.disk, ib, k);
    }
  }

  lemma KeptFiles(v: Vol, v': Vol, live: set<nat>, live': set<nat>, d: nat)
    requires Sound(v, live) && Dir(v, live, d) && KeptBut(v, v', DirNum(v, d))
    requires forall i: nat :: i in live && i in live' ==> Node(v', i) == Node(v, i)
    ensures FilesKept(v, live, v', live')
  {
    hide Sound, IsDir, IsFile, Node, At, Own, KeptBut, DirNum, Intact, Content;
    forall i: nat | i in live && i in live' && IsFile(v, i) && Intact(v, i)
      ensures Content(v', i) == Content(v, i) && Intact(v', i)
    {
      SourceIsNoDir(v, i, d);
      forall p: u32 | p in Own(v, i)
        ensures At(v'.disk, p) == At(v.disk, p)
      {
        OwnedAtKept(v, v', live, d, i, p);
      }
      SameBlocks(v, v', i);
    }
  }

  lemma LeakKeeps(v: Vol, v': Vol, live: set<nat>, got: seq<u32>)
    requires Sound(v, live) && Leaked(v, v', got)
    ensures Sound(v', live) && FilesKept(v, live, v', live)
  {
    hide BlocksSound, TreeSound, Acyclic, DirWell, IsDir, IsFile, Node, At, Own, Intact, Content, Allocated, Bit;
    LeakedSound(v, v', live, got);
    forall i: nat | i in live && IsFile(v, i) && Intact(v, i)
      ensures Content(v', i) == Content(v, i) && Intact(v', i)
    {
      LiveOwnsWell(v, live, i);
      forall p: u32 | p in Own(v, i)
        ensures At(v'.disk, p) == At(v.disk, p)
      {
        OwnedUsed(v, i, p);
        SameAt(v, v', p);
      }
      SameBlocks(v, v', i);
    }
  }

  lemma NothingDone(v: Vol, live: set<nat>)
    ensures FilesKept(v, live, v, live)
  {
  }

  lemma AddKeeps(v: Vol, v': Vol, live: set<nat>, path: seq<byte>, ino: u32, kind: byte, node: Inode, got: seq<u32>)
    requires Sound(v, live) && AddedAt(v, v', live, path, ino) && SplitOf(path).Split?
    requires Added(v, v', live, ParentDir(v, path), SlotOf(v, ParentDir(v, path)), SplitOf(path).name,
         ino, kind, node, got)
    ensures Sound(v', live + {ino as nat}) && FilesKept(v, live, v', live + {ino as nat})
  {
    hide Sound, IsDir, Node, At, Own, KeptBut, DirNum, Intact, Content, Added, SplitOf, ParentDir, SlotOf, AddedAt,
      FilesKept;
    var d, n := ParentDir(v, path), SplitOf(path).name;
    AddedFacts(v, v', live, path, ino);
    AddedParts(v, v', live, d, SlotOf(v, d), n, ino, kind, node, got);
    AddedDir(v, v', live, d, SlotOf(v, d), n, ino, kind, node, got);
    KeptFiles(v, v', live, live + {ino as nat}, d);
  }

  lemma WriteStep(v: Vol, v': Vol, live: set<nat>, live': set<nat>, path: seq<byte>, content: seq<byte>, r: int,
                  ino: u32, a: seq<u32>)
    requires Sound(v, live) && WriteOutcome(v, v', live, live', path, content, r, ino, a)
    requires r == 1 ==> Lands(v, path)
    ensures Sound(v', live') && FilesKept(v, live, v', live')
  {
    hide Sound, Resolve, Ents, Node, SplitOf, IsDir, Reaches, Added, ParentDir, AddedAt, TreeBuilt, SlotOf, Leaked,
      FilesKept, Full;
    if r == 1 {
      var d, n := ParentDir(v, path), SplitOf(path).name;
      assert Stored(v, v', live, d, SlotOf(v, d), n, content, ino, a);
      var node := FileNode(|content|, Node(v', ino).block);
      FileAddedAt(v, v', live, path, ino, node, a);
      AddKeeps(v, v', live, path, ino, 1, node, a);
    } else if v' == v {
      NothingDone(v, live);
    } else {
      LeakKeeps(v, v', live, a);
    }
  }

  lemma MkdirStep(v: Vol, v': Vol, live: set<nat>, live': set<nat>, path: seq<byte>, r: int, ino: u32, b: u32)
    requires Sound(v, live) && MkdirOutcome(v, v', live, live', path, r, ino, b)
    requires r == 1 ==> Lands(v, path)
    ensures Sound(v', live') && FilesKept(v, live, v', live')
  {
    hide Sound, Resolve, Ents, Node, SplitOf, IsDir, Reaches, Added, ParentDir, AddedAt, FreshDir, SlotOf, Leaked,
      FilesKept, Full;
    if r == 1 {
      var d, n := ParentDir(v, path), SplitOf(path).name;
      assert Made(v, v', live, d, SlotOf(v, d), n, ino, b);
      MkdirThenResolve(v, v', live, live', path, ino, b);
      AddKeeps(v, v', live, path, ino, 2, DirNode(b), [b]);
    } else if v' == v {
      NothingDone(v, live);
    } else {
      LeakKeeps(v, v', live, [b]);
    }
  }

  lemma RemoveKeeps(v: Vol, v': Vol, live: set<nat>, d: nat, n: Name, t: nat, gone: set<nat>)
    requires Sound(v, live) && Removed(v, v', live, d, n, t, gone)
    ensures Sound(v', live - gone) && FilesKept(v, live, v', live - gone)
  {
    hide Sound, Ents, Node, Removed, FilesKept, Own, KeptBut;
    RemovedSound(v, v', live, d, n, t, gone);
    RemovedDir(v, v', live, d, n, t, gone);
    KeptFiles(v, v', live, live - gone, d);
  }

  lemma DeleteStep(v: Vol, v': Vol, live: set<nat>, live': set<nat>, path: seq<byte>, r: int)
    requires Sound(v, live) && DeleteOutcome(v, v', live, live', path, r)
    ensures Sound(v', live') && FilesKept(v, live, v', live')
  {
    hide Sound, Ents, SplitOf, ParentDir, IsDir, Seen, Removed, FilesKept;
    if r == 1 {
      var d, n := ParentDir(v, path), SplitOf(path).name;
      RemoveKeeps(v, v', live, d, n, Ents(v, d)[n], {Ents(v, d)[n] as nat});
    } else {
      NothingDone(v, live);
    }
  }

  lemma RmdirStep(v: Vol, v': Vol, live: set<nat>, live': set<nat>, path: seq<byte>, r: int, gone: set<nat>)
    requires Sound(v, live) && RmdirOutcome(v, v', live, live', path, r, gone)
    requires r == 1 && SplitOf(path).Split? ==> !IsDots(SplitOf(path).name)
    ensures Sound(v', live') && FilesKept(v, live, v', live')
  {
    hide Sound, Ents, SplitOf, ParentDir, IsDir, Seen, Removed, FilesKept, Gutted, IsDots;
    if r == 1 {
      var d, n := ParentDir(v, path), SplitOf(path).name;
      RemoveKeeps(v, v', live, d, n, Ents(v, d)[n], gone);
    } else {
      NothingDone(v, live);
    }
  }

  lemma BlankTarget(v: Vol, w: Vol, live: set<nat>, t: Slots, a: seq<u32>, blank: seq<byte>, n: nat, s: Slots)
    requires Sound(v, live) && |w.disk| == |v.disk| && TreeBuilt(v.blockMap, w.blockMap, w.disk, t, a, blank)
    requires n <= BlocksFor(|blank|) || BlocksFor(|blank|) == DOUBLE_END
    ensures var d' := Copied(w.disk, s, t, 0, n);
      && IsTree(d', t, a, BlocksFor(|blank|)) && |d'| == |w.disk|
      && forall b: nat :: b < |w.disk| && b !in a ==> d'[b] == w.disk[b]
  {
    hide Sound, IsTree, TrashZeroed, Bit, LeavesDone, Copied, BlocksFor;
    SoundReady(v, live);
    AllocatedPadded(v.blockMap, w.blockMap, a, v.disk);
    CopyFrame(w.disk, s, t, a, BlocksFor(|blank|), 0, n);
  }

  lemma CopyCount(size: u32)
    requires size > 0
    ensures var blank := Wanted(Null, FileSize(size));
      |blank| > 0 && |blank| <= MAX_SIZE && (BlocksCopied(size) <= BlocksFor(|blank|) ||
        BlocksFor(|blank|) == DOUBLE_END)
  {
  }

  lemma CopyStep(v: Vol, w: Vol, v': Vol, live: set<nat>, live': set<nat>, src: seq<byte>, dest: seq<byte>, busy: bool,
                 r: int, ino: u32,
                 a: seq<u32>)
    requires Sound(v, live) && CopyOutcome(v, w, v', live, live', src, dest, busy, r, ino, a)
    requires r == 1 ==> |dest| <= MAX_PATH && Lands(v, dest)
    ensures Sound(v', live') && FilesKept(v, live, v', live')
    ensures r == 1 ==> PutAt(v, v', live, live', dest, ino, a)
  {
    hide PutAt, Sound, Resolve, Ents, Node, SplitOf, IsDir, IsFile, Reaches, Added, ParentDir, AddedAt, TreeBuilt,
      SlotOf, Leaked, FilesKept, Full,
      Wanted, FileSize, BlocksCopied, Copied, Content, Lands, WriteOutcome;
    var i := Resolve(v, src);
    if busy || i == 0 || !IsFile(v, i) || Node(v, i).size == 0 {
      NothingDone(v, live);
    } else {
      var blank := Wanted(Null, FileSize(Node(v, i).size));
      CopyCount(Node(v, i).size);
      if r == 1 {
        ResolveLive(v, live, src);
        SourceStays(v, w, live, live', dest, blank, ino, a, i);
        CopyDone(v, w, v', live, live', i, dest, ino, a, blank);
      } else {
        WriteStep(v, w, live, live', dest, blank, r, ino, a);
      }
    }
  }

  lemma CopyDone(v: Vol, w: Vol, v': Vol, live: set<nat>, live': set<nat>, i: nat, dest: seq<byte>, ino: u32,
                 a: seq<u32>, blank: seq<byte>)
    requires Sound(v, live) && WriteOutcome(v, w, live, live', dest, blank, 1, ino, a) && |dest| <= MAX_PATH
    requires Lands(v, dest)
    requires 0 < |blank| <= MAX_SIZE && v' == AfterCopy(w, i, Resolve(w, dest))
    requires BlocksCopied(Node(w, i).size) <= BlocksFor(|blank|) || BlocksFor(|blank|) == DOUBLE_END
    ensures Sound(v', live') && FilesKept(v, live, v', live') && PutAt(v, v', live, live', dest, ino, a)
  {
    hide Sound, Resolve, Ents, Node, SplitOf, IsDir, Reaches, Added, ParentDir, AddedAt, TreeBuilt, SlotOf, FilesKept,
      BlocksCopied, Copied, Content, Lands, BlocksFor, Owned, FileNode, KeptBut, IsTree;
    WriteThenRead(v, w, live, live', dest, blank, ino, a);
    LandsParts(v, dest);
    var d, n := ParentDir(v, dest), SplitOf(dest).name;
    assert Stored(v, w, live, d, SlotOf(v, d), n, blank, ino, a);
    AddedFacts(v, w, live, dest, ino);
    var ib := Node(w, ino).block;
    var node := FileNode(|blank|, ib);
    MadeSlots(|blank|, ib);
    AddedParts(v, w, live, d, SlotOf(v, d), n, ino, 1, node, a);
    SameLength(v, w, d);
    BlankTarget(v, w, live, ib, a, blank, BlocksCopied(Node(w, i).size), Node(w, i).block);
    CopiedAdded(v, w, v', live, d, SlotOf(v, d), n, ino, node, a, BlocksFor(|blank|));
    FileAddedAt(v, v', live, dest, ino, node, a);
    AddKeeps(v, v', live, dest, ino, 1, node, a);
  }

  /** All in all a file was added under `path`. */
  ghost predicate PutAt(v: Vol, v': Vol, live: set<nat>, live': set<nat>, path: seq<byte>, ino: u32, a: seq<u32>) {
    && SplitOf(path).Split? && live' == live + {ino as nat} && Node(v', ino).mode == FILE_MODE
    && Added(v, v', live, ParentDir(v, path), SlotOf(v, ParentDir(v, path)), SplitOf(path).name,
         ino, 1, Node(v', ino), a)
  }

  /** One call, whatever it returns, keeps the volume sound and the contents of every intact file. */
  lemma StepKeeps(v: Vol, live: set<nat>, c: Call, r: int, v': Vol, live': set<nat>)
    requires Sound(v, live) && Does(v, live, c, r, v', live') && Proper(v, c, r)
    ensures Sound(v', live') && FilesKept(v, live, v', live')
  {
    hide Sound, FilesKept, WriteOutcome, MkdirOutcome, DeleteOutcome, RmdirOutcome, CopyOutcome, Lands, SplitOf, IsDots;
    match c
    case Write(path, content) =>
      var ino: u32, a: seq<u32> :| WriteOutcome(v, v', live, live', path, content, r, ino, a);
      WriteStep(v, v', live, live', path, content, r, ino, a);
    case Mkdir(path) =>
      var ino: u32, b: u32 :| MkdirOutcome(v, v', live, live', path, r, ino, b);
      MkdirStep(v, v', live, live', path, r, ino, b);
    case Delete(path) =>
      DeleteStep(v, v', live, live', path, r);
    case RemoveDir(path) =>
      var gone: set<nat> :| RmdirOutcome(v, v', live, live', path, r, gone);
      RmdirStep(v, v', live, live', path, r, gone);
    case Copy(src, dest) =>
      var w: Vol, busy: bool, ino: u32, a: seq<u32> :| CopyOutcome(v, w, v', live, live', src, dest, busy, r, ino, a);
      CopyStep(v, w, v', live, live', src, dest, busy, r, ino, a);
  }

  datatype Moment = Moment(vol: Vol, live: set<nat>)

  /** `ms` are the moments between the calls `cs`, which returned `rs`. */
  ghost predicate Run(ms: seq<Moment>, cs: seq<Call>, rs: seq<int>) {
    && |ms| == |cs| + 1 && |rs| == |cs|
    && forall k :: 0 <= k < |cs| ==>
         Does(ms[k].vol, ms[k].live, cs[k], rs[k], ms[k + 1].vol, ms[k + 1].live) && Proper(ms[k].vol, cs[k], rs[k])
  }

  /** Soundness holds at every moment of every run that starts on a sound volume. */
  lemma {:induction false} RunSound(ms: seq<Moment>, cs: seq<Call>, rs: seq<int>, k: nat)
    requires Run(ms, cs, rs) && Sound(ms[0].vol, ms[0].live) && k <= |cs|
    ensures Sound(ms[k].vol, ms[k].live)
  {
    hide Sound, Does, Proper;
    if k > 0 {
      RunSound(ms, cs, rs, k - 1);
      var j := k - 1;
      StepKeeps(ms[j].vol, ms[j].live, cs[j], rs[j], ms[j + 1].vol, ms[j + 1].live);
    }
  }

  /** A file that stays live all along keeps its inode and every byte of its contents, whatever happens around it. */
  lemma {:induction false} RunKeepsFile(ms: seq<Moment>, cs: seq<Call>, rs: seq<int>, i: nat, k: nat)
    requires Run(ms, cs, rs) && Sound(ms[0].vol, ms[0].live) && k <= |cs|
    requires IsFile(ms[0].vol, i) && Intact(ms[0].vol, i) && forall j :: 0 <= j <= k ==> i in ms[j].live
    ensures Node(ms[k].vol, i) == Node(ms[0].vol, i) && Content(ms[k].vol, i) == Content(ms[0].vol, i)
    ensures Intact(ms[k].vol, i)
  {
    hide Sound, Does, Proper, Node, Content, Intact, IsFile;
    if k > 0 {
      var j := k - 1;
      RunKeepsFile(ms, cs, rs, i, j);
      RunSound(ms, cs, rs, j);
      SameFile(ms[0].vol, ms[j].vol, i);
      StepKeeps(ms[j].vol, ms[j].live, cs[j], rs[j], ms[j + 1].vol, ms[j + 1].live);
    }
  }

  lemma SameFile(v: Vol, v': Vol, i: nat)
    requires Node(v', i) == Node(v, i)
    ensures IsFile(v', i) == IsFile(v, i)
  {
  }

  // ----- a volume to start from -----

  function NewBlock(i: nat): Block {
    if i == 5 then FreshDir(ROOT, ROOT) else ZeroBlock()
  }

  /**
    Sixteen inodes and nine blocks, of which the first four hold the file system itself and the fifth the root
    directory.
   */
  function NewVolume(): Vol {
    Vol(
      seq(512, i => if i == 0 then 0x1F as bv8 else if i == 1 then 0xFE else 0xFF),
      seq(512, i => if i == 0 then 0x03 as bv8 else if i == 1 then 0x00 else 0xFF),
      seq(16, i => if i == 1 then DirNode(5) else BlankInode()),
      seq(10, i requires 0 <= i < 10 => NewBlock(i)),
      5)
  }

  lemma NewBits(k: nat)
    requires k < 8
    ensures Has(0x1F, k) <==> k < 5
    ensures Has(0xFE, k) <==> k >= 1
    ensures Has(0x03, k) <==> k < 2
    ensures Has(0xFF, k) && !Has(0x00, k)
  {
  }

  lemma NewMaps(n: nat)
    ensures Bit(NewVolume().blockMap, n) <==> n < 5 || 9 <= n < 4096
    ensures Bit(NewVolume().nodeMap, n) <==> n < 2 || 16 <= n < 4096
  {
    hide FreshDir, Has;
    if n < 4096 {
      NewBits(n % 8);
    }
  }

  lemma NewRoot(v: Vol)
    requires v == NewVolume()
    ensures Node(v, ROOT) == DirNode(5) && DirBlk(v, ROOT) == FreshDir(ROOT, ROOT) && IsDir(v, ROOT)
    ensures Own(v, ROOT) == [5]
    ensures DirWell(v, {ROOT}, ROOT) && Ents(v, ROOT) == map[[DOT] := ROOT as u32, [DOT, DOT] := ROOT as u32]
  {
    hide FreshDir, WellFormed, Records, Names, Owned;
    DirNodeOwns(v.disk, 5);
    FreshDirNames(ROOT, ROOT);
    NewDirWell(v, {ROOT}, ROOT, ROOT, DirNode(5));
  }

  /** An empty formatted volume is sound, so runs have somewhere to start. */
  lemma NewVolumeSound()
    ensures Sound(NewVolume(), {ROOT})
  {
    hide NewVolume, Bit, DirWell, Own, IsDir, Node, Ents, WellFormed, Records;
    var v := NewVolume();
    forall n: nat
      ensures Bit(v.blockMap, n) <==> n < 5 || 9 <= n < 4096
      ensures Bit(v.nodeMap, n) <==> n < 2 || 16 <= n < 4096
    {
      NewMaps(n);
    }
    NewRoot(v);
    NewSizes();
    assert OwnsWell(v, ROOT);
    assert forall n: Name :: n in Ents(v, ROOT) ==> IsDots(n);
    assert forall d: nat, n: Name, i: nat :: !Child(v, {ROOT}, d, n, i);
    assert Ranked(v, {ROOT}, map[ROOT := 0]);
  }

  lemma NewSizes()
    ensures var v := NewVolume();
      |v.blockMap| == 512 && |v.nodeMap| == 512 && |v.inodes| == 16 && |v.disk| == 10 && v.first == 5
  {
  }
}
