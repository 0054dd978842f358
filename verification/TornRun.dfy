/**
  A run of two ordinary calls that breaks a volume: on an empty volume, mkdir of a name of 240 letters and then
    of another.
  Both calls return 1, but the record of the second does not end in the first sector of the root's block.
 */
module TornRun {
  import opened Bytes
  import opened Bitmap
  import opened Allocation
  import opened RecordChain
  import opened DirBlock
  import opened VolumeState
  import opened Damage
  import opened Growth
  import opened Paths
  import opened Ext2Volume
  import opened FileRuns
  import opened DotRun
  import opened SectorLimits

  const LENGTH := 240

  /** The letter `c`, 240 times, and the path of that name in the root. */
  function LongName(c: byte): Name {
    seq(LENGTH, _ => c)
  }

  function LongPath(c: byte): seq<byte> {
    [SLASH] + LongName(c)
  }

  predicate Letter(c: byte) {
    97 <= c <= 122
  }

  lemma LongSplits(c: byte)
    requires Letter(c)
    ensures SplitOf(LongPath(c)) == Split([SLASH], LongName(c)) && CString(LongPath(c))
    ensures ValidName(LongName(c)) && !IsDots(LongName(c))
  {
    hide LastSlash;
    var p := LongPath(c);
    assert Clip(p) == p;
    assert LastSlash(p) == 0 by {
      assert p[0] == SLASH;
    }
    assert p[1..] == LongName(c);
  }

  lemma InRoot(v: Vol, c: byte)
    requires Letter(c)
    ensures SplitOf(LongPath(c)).Split? && SplitOf(LongPath(c)).name == LongName(c) && ParentDir(v, LongPath(c)) == ROOT
  {
    LongSplits(c);
    RootResolves(v);
  }

  lemma DifferentNames(c: byte, e: byte)
    requires c != e
    ensures LongName(c) != LongName(e)
  {
    assert LongName(c)[0] == c && LongName(e)[0] == e;
  }

  /** The first call: it returns 1 and keeps the volume sound, with blank second sectors. */
  lemma FirstLong(v1: Vol, live1: set<nat>, r: int, ino: u32, b: u32, c: byte)
    requires Letter(c) && MkdirOutcome(NewVolume(), v1, {ROOT}, live1, LongPath(c), r, ino, b)
    ensures r == 1 && Sound(v1, live1) && TailsBlank(v1, live1)
    ensures Made(NewVolume(), v1, {ROOT}, ROOT, 12, LongName(c), ino, b)
  {
    hide NewVolume, FreshDir, Resolve, SplitOf, Records, RecAt, InBuffer, WellFormed, Node, Ents, Full, Made, Leaked,
      Sound,
      TailsBlank, FilesKept, Reaches, ParentDir, LongPath, IsDir;
    var v := NewVolume();
    NewVolumeSound();
    NewTailsBlank();
    NewRoot(v);
    NotFull();
    LongSplits(c);
    InRoot(v, c);
    FreshReaches(v, ROOT, ROOT, ROOT, LongName(c));
    MkdirStep(v, v1, {ROOT}, live1, LongPath(c), r, ino, b);
    MkdirTails(v, v1, {ROOT}, live1, LongPath(c), r, ino, b);
  }

  /** The block of the root after it: the scan picks the new record at 24, behind which the next would start at 272. */
  lemma SecondSlot(b: Block, ino: u32, n: Name)
    requires b == FreshDir(ROOT, ROOT) && ValidName(n) && |n| == LENGTH && ino != 0
    ensures InBuffer(b, 12, n)
    ensures var b1 := Insert(b, 12, ino, n, 2);
      b1 == WriteBack(b, b1) && SlotFrom(Records(b1), 0, 0) == 24 && NewAt(b1, 24) == 272
  {
    hide FreshDir, RecAt, Insert, WriteBack, RealLen;
    FreshDirRecords(ROOT, ROOT);
    FreshSlot(ROOT, ROOT, n);
    InsertKept(b, 12, ino, n, 2);
    InsertSplits(b, 12, ino, n, 2);
    var b1 := Insert(b, 12, ino, n, 2);
    var v, w := Records(b), Records(b1);
    assert v[0] == Rec(ROOT, 12, [DOT]) && v[12] == Rec(ROOT, 1012, [DOT, DOT]);
    assert w[0] == v[0];
    assert SlotFrom(w, 24, 0) == SlotFrom(w, 1024, 24);
    assert SlotFrom(w, 12, 0) == SlotFrom(w, 24, 0);
    GoodBytes(b1, 24);
  }

  lemma MadeParts(v: Vol, v1: Vol, live: set<nat>, d: nat, p: nat, n: Name, ino: u32, b: u32)
    requires Made(v, v1, live, d, p, n, ino, b)
    ensures Added(v, v1, live, d, p, n, ino, 2, DirNode(b), [b])
    ensures EntryPut(v, v1, d, p, n, ino, 2) && NodeMade(v, v1, ino, DirNode(b), [b]) && ino != 0
  {
    hide EntryPut, FreshDir;
  }

  lemma RootAfter(v1: Vol, c: byte, ino: u32, b: u32)
    requires Letter(c) && Made(NewVolume(), v1, {ROOT}, ROOT, 12, LongName(c), ino, b)
    ensures SlotOf(v1, ROOT) == 24 && NewAt(DirBlk(v1, ROOT), 24) == 272 && IsDir(v1, ROOT)
    ensures !Full(v1.blockMap) && !Full(v1.nodeMap)
  {
    hide NewVolume, FreshDir, Records, Insert, WriteBack, Sound, NodeMade, InBuffer, LongName, Made, Added, DirBlk,
      IsDir, OnlyDir,
      NewAt, Full, EntryPut, Ents, Node, DirWell, Own;
    var v := NewVolume();
    NewVolumeSound();
    NewRoot(v);
    LongSplits(c);
    NameLength(c);
    MadeParts(v, v1, {ROOT}, ROOT, 12, LongName(c), ino, b);
    EntryOnDisk(v, v1, {ROOT}, ROOT, 12, LongName(c), ino, 2, DirNode(b), [b]);
    KindKept(v, v1, {ROOT}, ROOT, ROOT);
    SecondSlot(DirBlk(v, ROOT), ino, LongName(c));
    StillRoom(v1, ino, b);
  }

  /** One inode and one block are taken of more than one. */
  lemma StillRoom(v1: Vol, ino: u32, b: u32)
    requires NodeMade(NewVolume(), v1, ino, DirNode(b), [b])
    ensures !Full(v1.blockMap) && !Full(v1.nodeMap)
  {
    hide NewVolume, Bit;
    var v := NewVolume();
    NewSizes();
    NewMaps(5);
    NewMaps(6);
    NewMaps(7);
    SetBitEffect(v.nodeMap, ino - 1);
    assert !Bit(v1.blockMap, 5) || !Bit(v1.blockMap, 6);
    assert !Bit(v1.nodeMap, 5) || !Bit(v1.nodeMap, 6);
  }

  lemma NewName(v1: Vol, c: byte, e: byte, ino: u32, b: u32)
    requires Letter(c) && Letter(e) && c != e && Made(NewVolume(), v1, {ROOT}, ROOT, 12, LongName(c), ino, b)
    ensures LongName(e) !in Ents(v1, ROOT)
  {
    hide NewVolume, FreshDir, Sound, NodeMade, InBuffer, LongName, Made, Added, DirBlk, IsDir, EntryPut, Ents, Node,
      DirWell, Own,
      Reaches, SlotOf;
    var v := NewVolume();
    NewVolumeSound();
    NewRoot(v);
    LongSplits(c);
    LongSplits(e);
    DifferentNames(c, e);
    MadeParts(v, v1, {ROOT}, ROOT, 12, LongName(c), ino, b);
    FreshReaches(v, ROOT, ROOT, ROOT, LongName(c));
    RootKept(v, v1, LongName(c), ino, b);
    EntsGrown(v, v1, ROOT, 12, LongName(c), ino, 2);
  }

  lemma RootKept(v: Vol, v1: Vol, n: Name, ino: u32, b: u32)
    requires Sound(v, {ROOT}) && Added(v, v1, {ROOT}, ROOT, 12, n, ino, 2, DirNode(b), [b])
    ensures Node(v1, ROOT) == Node(v, ROOT)
  {
    hide Sound, Added, Node, KeptBut, IsDir;
    EntryOnDisk(v, v1, {ROOT}, ROOT, 12, n, ino, 2, DirNode(b), [b]);
  }

  /** Whatever else the two calls may do, both return 1, and the volume they leave is sound for no set of inodes. */
  lemma TornRunBreaks(v1: Vol, v2: Vol, live1: set<nat>, live2: set<nat>, r1: int, r2: int, ino1: u32, b1: u32,
                      ino2: u32,
                      b2: u32)
    requires MkdirOutcome(NewVolume(), v1, {ROOT}, live1, LongPath(97), r1, ino1, b1)
    requires MkdirOutcome(v1, v2, live1, live2, LongPath(98), r2, ino2, b2)
    ensures r1 == 1 && r2 == 1 && Sound(v1, live1) && Unsound(v2)
  {
    hide NewVolume, Resolve, SplitOf, Sound, IsDir, Ents, Full, Made, Leaked, TailsBlank, ParentDir, LongPath, LongName,
      SlotOf,
      DirBlk, WellFormed, Records, Fits, InBuffer;
    FirstLong(v1, live1, r1, ino1, b1, 97);
    RootAfter(v1, 97, ino1, b1);
    NewName(v1, 97, 98, ino1, b1);
    LongSplits(98);
    InRoot(v1, 98);
    NameLength(98);
    MkdirSoundIff(v1, v2, live1, live2, LongPath(98), ino2, b2);
  }

  lemma NameLength(c: byte)
    ensures |LongName(c)| == LENGTH
  {
  }

  /** The run itself. */
  method RunByLength() returns (vol: Volume, r1: int, r2: int)
    ensures fresh(vol) && r1 == 1 && r2 == 1 && Unsound(vol.State())
  {
    hide NewVolume, MkdirOutcome, Sound, InsertSafe, CString, Unsound, TailsBlank, LongPath;
    NewVolumeSound();
    NewTailsBlank();
    LongSplits(97);
    LongSplits(98);
    BlankInsertSafe(NewVolume(), {ROOT}, LongPath(97));
    vol := new Volume.Mount(NewVolume(), {ROOT});
    ghost var ino1, b1, ino2, b2;
    r1, ino1, b1 := vol.MakeDirectory(LongPath(97));
    ghost var v1, live1 := vol.State(), vol.live;
    FirstLong(v1, live1, r1, ino1, b1, 97);
    BlankInsertSafe(v1, live1, LongPath(98));
    r2, ino2, b2 := vol.MakeDirectory(LongPath(98));
    TornRunBreaks(v1, vol.State(), live1, vol.live, r1, r2, ino1, b1, ino2, b2);
  }
}
