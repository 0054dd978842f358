/**
  When exactly a call keeps a volume sound. Directories are rewritten one sector at a time, so their second sectors stay
  blank for ever; a new entry that would reach past the first sector tears the block apart.
 */
module SectorLimits {
  import opened Bytes
  import opened BlockTree
  import opened TreeAssembly
  import opened Allocation
  import opened RecordChain
  import opened DirBlock
  import opened VolumeState
  import opened Damage
  import opened Growth
  import opened Shrink
  import opened Rmdir
  import opened Paths
  import opened Ext2Volume
  import opened FileLaws
  import opened FileRuns

  /** The second sector of every directory block is blank, as mkdir leaves it. */
  ghost predicate TailsBlank(v: Vol, live: set<nat>) {
    forall d: nat :: Dir(v, live, d) ==> SecondSectorBlank(DirBlk(v, d))
  }

  lemma BlankTail(b: Block, c: Block)
    requires SecondSectorBlank(b) && SameTail(b, c)
    ensures SecondSectorBlank(c)
  {
    assert forall k :: SECTOR <= k < BLOCK ==> c[k] == c[SECTOR..][k - SECTOR];
  }

  // ----- a torn entry breaks the volume -----

  lemma EntryOnDisk(v: Vol, v': Vol, live: set<nat>, d: nat, p: nat, n: Name, ino: u32, kind: byte, node: Inode,
                    got: seq<u32>)
    requires Sound(v, live) && Added(v, v', live, d, p, n, ino, kind, node, got)
    ensures OnlyDir(v, v', live, d) && ino != 0 && InBuffer(DirBlk(v, d), p, n)
    ensures DirBlk(v', d) == WriteBack(DirBlk(v, d), Insert(DirBlk(v, d), p, ino, n, kind))
  {
    hide Sound, IsDir, Node, Insert, WriteBack, KeptBut, InBuffer, NodeMade;
    AddedParts(v, v', live, d, p, n, ino, kind, node, got);
    BlocksGrown(v, v', live, d, ino, node, got);
  }

  lemma TornUnsound(v: Vol, v': Vol, live: set<nat>, d: nat, p: nat, n: Name, ino: u32, kind: byte, node: Inode,
                    got: seq<u32>)
    requires Sound(v, live) && TailsBlank(v, live) && Added(v, v', live, d, p, n, ino, kind, node, got)
    requires WellFormed(DirBlk(v, d)) && p != 0 && IsStart(Records(DirBlk(v, d)), 0, p)
    requires n !in Ents(v, d) && ValidName(n) && !Reaches(v, d, p, n)
    ensures Unsound(v')
  {
    hide Sound, IsDir, Node, Insert, WriteBack, KeptBut, InBuffer, NodeMade, EntryPut, Fits, WellFormed, Records,
      OnlyDir, Unsound, DirBlk;
    AddedDir(v, v', live, d, p, n, ino, kind, node, got);
    LiveDirWell(v, live, d);
    EntryOnDisk(v, v', live, d, p, n, ino, kind, node, got);
    WrittenWellFormedIff(DirBlk(v, d), p, ino, n, kind);
    BrokenDir(v, v', live, d);
  }

  /** The slot that the scan found is the start of a record other than the first. */
  lemma SlotIsStart(v: Vol, live: set<nat>, d: nat)
    requires Sound(v, live) && Dir(v, live, d) && SlotOf(v, d) != 0
    ensures WellFormed(DirBlk(v, d)) && IsStart(Records(DirBlk(v, d)), 0, SlotOf(v, d))
  {
    hide Sound, IsDir, Records, DirBlk;
    LiveDirWell(v, live, d);
    SlotIsSlack(Records(DirBlk(v, d)), 0, 0);
  }

  lemma AddedIff(v: Vol, v': Vol, live: set<nat>, path: seq<byte>, ino: u32, kind: byte, node: Inode, got: seq<u32>)
    requires Sound(v, live) && TailsBlank(v, live) && CString(path) && SplitOf(path).Split?
    requires Added(v, v', live, ParentDir(v, path), SlotOf(v, ParentDir(v, path)), SplitOf(path).name,
         ino, kind, node, got)
    requires SlotOf(v, ParentDir(v, path)) != 0 && SplitOf(path).name !in Ents(v, ParentDir(v, path))
    ensures Lands(v, path) || Unsound(v')
  {
    hide Sound, TailsBlank, Added, Ents, Reaches, SlotOf, ParentDir, SplitOf, Unsound, WellFormed, Records;
    var d, n := ParentDir(v, path), SplitOf(path).name;
    AddedDir(v, v', live, d, SlotOf(v, d), n, ino, kind, node, got);
    SlotIsStart(v, live, d);
    SplitNameValid(path);
    if !Lands(v, path) {
      TornUnsound(v, v', live, d, SlotOf(v, d), n, ino, kind, node, got);
    }
  }

  /**
    A write that returns 1 keeps the volume sound if and only if the new record fits the slack it was given and ends in
    the first sector of the directory block. Otherwise there is no set of inodes the volume is sound with.
   */
  lemma WriteSoundIff(v: Vol, v': Vol, live: set<nat>, live': set<nat>, path: seq<byte>, content: seq<byte>, ino: u32,
                      a: seq<u32>)
    requires Sound(v, live) && TailsBlank(v, live) && CString(path)
    requires WriteOutcome(v, v', live, live', path, content, 1, ino, a)
    ensures Sound(v', live') <==> Lands(v, path)
    ensures Unsound(v') <==> !Lands(v, path)
  {
    hide Sound, TailsBlank, Added, Ents, Lands, ParentDir, SplitOf, TreeBuilt, SlotOf, IsDir, Full, FilesKept, Node;
    var d, n := ParentDir(v, path), SplitOf(path).name;
    assert Stored(v, v', live, d, SlotOf(v, d), n, content, ino, a);
    AddedIff(v, v', live, path, ino, 1, FileNode(|content|, Node(v', ino).block), a);
    if Lands(v, path) {
      WriteStep(v, v', live, live', path, content, 1, ino, a);
    }
  }

  /** The same holds for a mkdir. */
  lemma MkdirSoundIff(v: Vol, v': Vol, live: set<nat>, live': set<nat>, path: seq<byte>, ino: u32, b: u32)
    requires Sound(v, live) && TailsBlank(v, live) && CString(path)
    requires MkdirOutcome(v, v', live, live', path, 1, ino, b)
    ensures Sound(v', live') <==> Lands(v, path)
    ensures Unsound(v') <==> !Lands(v, path)
  {
    hide Sound, TailsBlank, Added, Ents, Lands, ParentDir, SplitOf, FreshDir, SlotOf, IsDir, Full, FilesKept, Node;
    var d, n := ParentDir(v, path), SplitOf(path).name;
    assert Made(v, v', live, d, SlotOf(v, d), n, ino, b);
    AddedIff(v, v', live, path, ino, 2, DirNode(b), [b]);
    if Lands(v, path) {
      MkdirStep(v, v', live, live', path, 1, ino, b);
    }
  }

  // ----- no call leaves its buffer -----

  /** Behind a record of the first sector there is always room for a name of any length inside the block. */
  lemma BlankInBuffer(b: Block, p: nat, n: Name)
    requires WellFormed(b) && SecondSectorBlank(b) && IsStart(Records(b), 0, p) && |n| <= 255
    ensures InBuffer(b, p, n)
  {
    hide RecAt, Records, Distinct;
    SplitInSector(b, p);
    GoodBytes(b, p);
  }

  /**
    On a sound volume whose directories have blank second sectors, a write, mkdir or copy under any path stays inside
    the directory buffer: the precondition of the methods excludes no call of the runs below.
   */
  lemma BlankInsertSafe(v: Vol, live: set<nat>, path: seq<byte>)
    requires Sound(v, live) && TailsBlank(v, live) && CString(path)
    ensures InsertSafe(v, path)
  {
    hide Sound, Resolve, Records, SplitOf, Lookup, RecAt, InBuffer, SecondSectorBlank, WellFormed, SlotOf, DirBlk,
      IsDir;
    var d := ParentDir(v, path);
    if SplitOf(path).Split? && d != 0 && IsDir(v, d) && SlotOf(v, d) != 0 {
      ResolveLive(v, live, SplitOf(path).parent);
      SlotIsStart(v, live, d);
      SplitNameValid(path);
      BlankInBuffer(DirBlk(v, d), SlotOf(v, d), SplitOf(path).name);
    }
  }

  // ----- second sectors stay blank -----

  lemma AddedTails(v: Vol, v': Vol, live: set<nat>, d: nat, p: nat, n: Name, ino: u32, kind: byte, node: Inode,
                   got: seq<u32>)
    requires Sound(v, live) && TailsBlank(v, live) && Added(v, v', live, d, p, n, ino, kind, node, got)
    requires IsDir(v', ino) ==> SecondSectorBlank(DirBlk(v', ino))
    ensures TailsBlank(v', live + {ino as nat})
  {
    hide Sound, IsDir, Node, Insert, KeptBut, Added, OnlyDir, SecondSectorBlank, DirBlk, InBuffer, WriteBack;
    AddedDir(v, v', live, d, p, n, ino, kind, node, got);
    AddedParts(v, v', live, d, p, n, ino, kind, node, got);
    EntryOnDisk(v, v', live, d, p, n, ino, kind, node, got);
    WriteBackTail(DirBlk(v, d), Insert(DirBlk(v, d), p, ino, n, kind));
    BlankTail(DirBlk(v, d), DirBlk(v', d));
    forall e: nat | Dir(v', live + {ino as nat}, e)
      ensures SecondSectorBlank(DirBlk(v', e))
    {
      if e in live && e != d {
        OtherTail(v, v', live, d, e);
      }
    }
  }

  lemma OtherTail(v: Vol, v': Vol, live: set<nat>, d: nat, e: nat)
    requires Sound(v, live) && TailsBlank(v, live) && OnlyDir(v, v', live, d) && e in live && IsDir(v', e) && e != d
    ensures SecondSectorBlank(DirBlk(v', e))
  {
    hide Sound, IsDir, Node, KeptBut, SecondSectorBlank, DirBlk;
    KindKept(v, v', live, d, e);
    DirKept(v, v', live, d, e);
  }

  lemma RemovedTails(v: Vol, v': Vol, live: set<nat>, d: nat, n: Name, t: nat, gone: set<nat>)
    requires Sound(v, live) && TailsBlank(v, live) && Removed(v, v', live, d, n, t, gone)
    ensures TailsBlank(v', live - gone)
  {
    hide Sound, IsDir, Node, KeptBut, Removed, OnlyDir, SecondSectorBlank, DirBlk, SameTail, Own, Ents, Subtree;
    RemovedDir(v, v', live, d, n, t, gone);
    RemovedSound(v, v', live, d, n, t, gone);
    OnlyEntries(v, v', live, d);
    BlankTail(DirBlk(v, d), DirBlk(v', d));
    forall e: nat | Dir(v', live - gone, e)
      ensures SecondSectorBlank(DirBlk(v', e))
    {
      if e != d {
        OtherTail(v, v', live, d, e);
      }
    }
  }

  lemma OnlyEntries(v: Vol, v': Vol, live: set<nat>, d: nat)
    requires Dir(v, live, d) && KeptBut(v, v', DirNum(v, d)) && forall i: nat :: i in live ==> Node(v', i) == Node(v, i)
    ensures OnlyDir(v, v', live, d)
  {
    hide Node, KeptBut, IsDir;
  }

  lemma LeakedTails(v: Vol, v': Vol, live: set<nat>, got: seq<u32>)
    requires Sound(v, live) && TailsBlank(v, live) && Leaked(v, v', got)
    ensures TailsBlank(v', live)
  {
    hide Sound, IsDir, Node, SecondSectorBlank, DirBlk, Own, OwnsWell, At, Leaked;
    LeakedSound(v, v', live, got);
    forall e: nat | Dir(v', live, e)
      ensures SecondSectorBlank(DirBlk(v', e))
    {
      SameDir(v, v', e);
      LeakedKept(v, v', live, got, e);
    }
  }

  lemma FileTails(v: Vol, v': Vol, live: set<nat>, live': set<nat>, path: seq<byte>, ino: u32, a: seq<u32>)
    requires Sound(v, live) && TailsBlank(v, live) && PutAt(v, v', live, live', path, ino, a)
    ensures TailsBlank(v', live')
  {
    hide Sound, TailsBlank, Added, SplitOf, ParentDir, SlotOf, Node;
    FileMode(v', ino, Node(v', ino));
    AddedTails(v, v', live, ParentDir(v, path), SlotOf(v, ParentDir(v, path)), SplitOf(path).name, ino, 1,
      Node(v', ino), a);
  }

  lemma WriteTails(v: Vol, v': Vol, live: set<nat>, live': set<nat>, path: seq<byte>, content: seq<byte>, r: int,
                   ino: u32, a: seq<u32>)
    requires Sound(v, live) && TailsBlank(v, live) && WriteOutcome(v, v', live, live', path, content, r, ino, a)
    requires r == 1 ==> Lands(v, path)
    ensures TailsBlank(v', live')
  {
    hide Sound, TailsBlank, Added, Ents, Reaches, ParentDir, SplitOf, TreeBuilt, SlotOf, IsDir, Full, Node, Leaked;
    if r == 1 {
      var d, n := ParentDir(v, path), SplitOf(path).name;
      assert Stored(v, v', live, d, SlotOf(v, d), n, content, ino, a);
      AddedParts(v, v', live, d, SlotOf(v, d), n, ino, 1, FileNode(|content|, Node(v', ino).block), a);
      FileTails(v, v', live, live', path, ino, a);
    } else if v' != v {
      LeakedTails(v, v', live, a);
    }
  }

  lemma MkdirTails(v: Vol, v': Vol, live: set<nat>, live': set<nat>, path: seq<byte>, r: int, ino: u32, b: u32)
    requires Sound(v, live) && TailsBlank(v, live) && MkdirOutcome(v, v', live, live', path, r, ino, b)
    requires r == 1 ==> Lands(v, path)
    ensures TailsBlank(v', live')
  {
    hide Sound, TailsBlank, Added, Ents, Reaches, ParentDir, SplitOf, FreshDir, SlotOf, IsDir, Full, Node, Leaked,
      SecondSectorBlank;
    if r == 1 {
      var d, n := ParentDir(v, path), SplitOf(path).name;
      assert Made(v, v', live, d, SlotOf(v, d), n, ino, b);
      AddedParts(v, v', live, d, SlotOf(v, d), n, ino, 2, DirNode(b), [b]);
      FreshDirNames(ino, d);
      AddedTails(v, v', live, d, SlotOf(v, d), n, ino, 2, DirNode(b), [b]);
    } else if v' != v {
      LeakedTails(v, v', live, [b]);
    }
  }

  lemma CopyTails(v: Vol, w: Vol, v': Vol, live: set<nat>, live': set<nat>, src: seq<byte>, dest: seq<byte>, busy: bool,
                  r: int,
                  ino: u32, a: seq<u32>)
    requires Sound(v, live) && TailsBlank(v, live) && CopyOutcome(v, w, v', live, live', src, dest, busy, r, ino, a)
    requires r == 1 ==> |dest| <= MAX_PATH && Lands(v, dest)
    ensures TailsBlank(v', live')
  {
    hide Sound, TailsBlank, Lands, WriteOutcome, Resolve, IsFile, Node, AfterCopy, PutAt, Wanted, FileSize, FilesKept;
    var i := Resolve(v, src);
    if !busy && i != 0 && IsFile(v, i) && Node(v, i).size != 0 {
      if r == 1 {
        CopyStep(v, w, v', live, live', src, dest, busy, r, ino, a);
        FileTails(v, v', live, live', dest, ino, a);
      } else {
        WriteTails(v, w, live, live', dest, Wanted(Null, FileSize(Node(v, i).size)), r, ino, a);
      }
    }
  }

  // ----- calls and runs -----

  /** The paths of a call are C strings. */
  predicate Strings(c: Call) {
    match c
    case Write(path, _) => CString(path)
    case Mkdir(path) => CString(path)
    case Delete(path) => CString(path)
    case RemoveDir(path) => CString(path)
    case Copy(src, dest) => CString(src) && CString(dest)
  }

  /** No proper call writes into the second sector of a directory. */
  lemma StepTails(v: Vol, live: set<nat>, c: Call, r: int, v': Vol, live': set<nat>)
    requires Sound(v, live) && TailsBlank(v, live) && Does(v, live, c, r, v', live') && Proper(v, c, r)
    ensures TailsBlank(v', live')
  {
    hide Sound, TailsBlank, Removed, Ents, IsDir, Lands, SplitOf, ParentDir, Seen, IsDots, WriteOutcome, MkdirOutcome,
      CopyOutcome, Gutted;
    match c
    case Write(path, content) =>
      var ino: u32, a: seq<u32> :| WriteOutcome(v, v', live, live', path, content, r, ino, a);
      WriteTails(v, v', live, live', path, content, r, ino, a);
    case Mkdir(path) =>
      var ino: u32, b: u32 :| MkdirOutcome(v, v', live, live', path, r, ino, b);
      MkdirTails(v, v', live, live', path, r, ino, b);
    case Delete(path) =>
      if r == 1 {
        var d, n := ParentDir(v, path), SplitOf(path).name;
        RemovedTails(v, v', live, d, n, Ents(v, d)[n], {Ents(v, d)[n] as nat});
      }
    case RemoveDir(path) =>
      var gone: set<nat> :| RmdirOutcome(v, v', live, live', path, r, gone);
      if r == 1 {
        var d, n := ParentDir(v, path), SplitOf(path).name;
        RemovedTails(v, v', live, d, n, Ents(v, d)[n], gone);
      }
    case Copy(src, dest) =>
      var w: Vol, busy: bool, ino: u32, a: seq<u32> :| CopyOutcome(v, w, v', live, live', src, dest, busy, r, ino, a);
      CopyTails(v, w, v', live, live', src, dest, busy, r, ino, a);
  }

  /** A call other than a copy keeps the volume sound if and only if it is proper; if not, nothing is sound any more. */
  lemma StepSoundIff(v: Vol, live: set<nat>, c: Call, r: int, v': Vol, live': set<nat>)
    requires Sound(v, live) && TailsBlank(v, live) && Does(v, live, c, r, v', live') && Strings(c) && !c.Copy?
    ensures Sound(v', live') <==> Proper(v, c, r)
    ensures Unsound(v') <==> !Proper(v, c, r)
  {
    hide Sound, TailsBlank, Does, Lands, SplitOf, IsDots;
    if Proper(v, c, r) {
      StepKeeps(v, live, c, r, v', live');
    } else {
      ImproperUnsound(v, live, c, r, v', live');
    }
  }

  lemma ImproperUnsound(v: Vol, live: set<nat>, c: Call, r: int, v': Vol, live': set<nat>)
    requires Sound(v, live) && TailsBlank(v, live) && Does(v, live, c, r, v', live') && Strings(c) && !c.Copy?
    requires !Proper(v, c, r)
    ensures Unsound(v')
  {
    hide Sound, TailsBlank, Lands, SplitOf, IsDots, CString, WriteOutcome, MkdirOutcome, RmdirOutcome, DeleteOutcome,
      Unsound;
    match c
    case Write(path, content) =>
      var ino: u32, a: seq<u32> :| WriteOutcome(v, v', live, live', path, content, r, ino, a);
      WriteSoundIff(v, v', live, live', path, content, ino, a);
    case Mkdir(path) =>
      var ino: u32, b: u32 :| MkdirOutcome(v, v', live, live', path, r, ino, b);
      MkdirSoundIff(v, v', live, live', path, ino, b);
    case Delete(path) =>
    case RemoveDir(path) =>
      var gone: set<nat> :| RmdirOutcome(v, v', live, live', path, r, gone);
      RmdirSoundIff(v, v', live, live', path, gone);
  }

  /** `ms` are the moments between the calls `cs`, whatever these do to the volume. */
  ghost predicate FreeRun(ms: seq<Moment>, cs: seq<Call>, rs: seq<int>) {
    && |ms| == |cs| + 1 && |rs| == |cs|
    && forall k :: 0 <= k < |cs| ==>
         && Strings(cs[k]) && Does(ms[k].vol, ms[k].live, cs[k], rs[k], ms[k + 1].vol, ms[k + 1].live)
         && (cs[k].Copy? ==> Proper(ms[k].vol, cs[k], rs[k]))
  }

  /** The first `k` calls were all proper. */
  ghost predicate ProperUpTo(ms: seq<Moment>, cs: seq<Call>, rs: seq<int>, k: nat)
    requires FreeRun(ms, cs, rs) && k <= |cs|
  {
    forall j :: 0 <= j < k ==> Proper(ms[j].vol, cs[j], rs[j])
  }

  ghost predicate SoundUpTo(ms: seq<Moment>, k: nat)
    requires k < |ms|
  {
    forall j :: 0 <= j <= k ==> Sound(ms[j].vol, ms[j].live)
  }

  /**
    In any run from a sound volume with blank second sectors, the volume is sound at every moment exactly when all calls
    are proper.
   */
  lemma {:induction false} RunSoundIff(ms: seq<Moment>, cs: seq<Call>, rs: seq<int>, k: nat)
    requires FreeRun(ms, cs, rs) && Sound(ms[0].vol, ms[0].live) && TailsBlank(ms[0].vol, ms[0].live) && k <= |cs|
    ensures SoundUpTo(ms, k) <==> ProperUpTo(ms, cs, rs, k)
    ensures SoundUpTo(ms, k) ==> TailsBlank(ms[k].vol, ms[k].live)
  {
    hide Sound, TailsBlank, Does, Proper, Strings;
    if k > 0 {
      var j := k - 1;
      RunSoundIff(ms, cs, rs, j);
      if SoundUpTo(ms, j) {
        var m, m' := ms[j], ms[k];
        if Proper(m.vol, cs[j], rs[j]) {
          StepKeeps(m.vol, m.live, cs[j], rs[j], m'.vol, m'.live);
          StepTails(m.vol, m.live, cs[j], rs[j], m'.vol, m'.live);
        } else {
          StepSoundIff(m.vol, m.live, cs[j], rs[j], m'.vol, m'.live);
        }
      }
    }
  }

  /** Runs can start on the empty volume. */
  lemma NewTailsBlank()
    ensures TailsBlank(NewVolume(), {ROOT})
  {
    hide NewVolume, FreshDir, SecondSectorBlank, WellFormed, Records, DirBlk, Ents, DirWell, Own, IsDir, Node;
    NewRoot(NewVolume());
    FreshDirNames(ROOT, ROOT);
  }
}
