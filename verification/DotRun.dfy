/** A run that breaks a volume: mkdir of "/a" on an empty volume, then rmdir of "/a/.". Both calls return 1. */
module DotRun {
  import opened Bytes
  import opened Bitmap
  import opened BlockTree
  import opened Allocation
  import opened RecordChain
  import opened DirBlock
  import opened VolumeState
  import opened Damage
  import opened Growth
  import opened Shrink
  import opened Rmdir
  import opened Paths
  import opened Ext2Volume
  import opened FileLaws
  import opened FileRuns

  const LETTER: byte := 97

  /** "/a" and "/a/." */
  const DIR_PATH: seq<byte> := [SLASH, LETTER]
  const DOT_PATH: seq<byte> := [SLASH, LETTER, SLASH, DOT]

  lemma PathSplits()
    ensures SplitOf(DIR_PATH) == Split([SLASH], [LETTER]) && SplitOf(DOT_PATH) == Split(DIR_PATH, [DOT])
    ensures CString(DIR_PATH) && CString(DOT_PATH) && Clip(DIR_PATH) == DIR_PATH
  {
    hide LastSlash;
    assert Clip(DIR_PATH) == DIR_PATH && Clip(DOT_PATH) == DOT_PATH;
    assert LastSlash(DIR_PATH) == 0 by {
      assert DIR_PATH[0] == SLASH;
    }
    assert LastSlash(DOT_PATH) == 2 by {
      assert DOT_PATH[2] == SLASH;
    }
    assert DOT_PATH[..2] == DIR_PATH;
  }

  lemma RootResolves(v: Vol)
    ensures Resolve(v, [SLASH]) == ROOT
  {
  }

  /** The scan of a fresh directory picks the record of "..", at 12, and the new record goes to 24. */
  lemma FreshSlot(self: u32, parent: u32, n: Name)
    requires self != 0 && parent != 0 && |n| <= 255
    ensures var b := FreshDir(self, parent);
      && WellFormed(b) && SlotFrom(Records(b), 0, 0) == 12 && IsStart(Records(b), 0, 12)
      && NewAt(b, 12) == 24 && Fits(b, 12, n) && InBuffer(b, 12, n)
      && Find(Records(b), 0, 0, [DOT]) == Hit(0, 0)
  {
    hide FreshDir, RecAt;
    FreshDirRecords(self, parent);
    FreshDirNames(self, parent);
    var b := FreshDir(self, parent);
    var v := Records(b);
    assert v[0] == Rec(self, 12, [DOT]) && v[12] == Rec(parent, 1012, [DOT, DOT]);
    assert SlotFrom(v, 12, 0) == SlotFrom(v, 1024, 12);
    assert IsStart(v, 12, 12);
    GoodBytes(b, 12);
    FitsInBuffer(b, 12, n);
  }

  lemma FreshReaches(v: Vol, d: nat, self: u32, parent: u32, n: Name)
    requires DirBlk(v, d) == FreshDir(self, parent) && self != 0 && parent != 0
    requires ValidName(n) && !IsDots(n)
    ensures SlotOf(v, d) == 12 && InBuffer(DirBlk(v, d), 12, n) && n !in Ents(v, d)
    ensures Reaches(v, d, 12, n)
  {
    hide FreshDir, RecAt, Records, WellFormed;
    FreshSlot(self, parent, n);
    FreshDirNames(self, parent);
  }

  lemma FreshSeen(v: Vol, d: nat, self: u32, parent: u32)
    requires DirBlk(v, d) == FreshDir(self, parent) && self != 0 && parent != 0
    ensures Seen(v, d, [DOT]).Hit?
  {
    hide FreshDir, RecAt, Records, FirstSector;
    FreshSlot(self, parent, []);
    DeleteSees(DirBlk(v, d), 0, 0, [DOT]);
  }

  lemma NotFull()
    ensures !Full(NewVolume().blockMap) && !Full(NewVolume().nodeMap)
  {
    hide NewVolume, Bit;
    NewMaps(5);
    NewSizes();
  }

  /** The empty volume has room for a directory "/a". */
  lemma RoomForOne()
    ensures Lands(NewVolume(), DIR_PATH) && InsertSafe(NewVolume(), DIR_PATH)
    ensures ParentDir(NewVolume(), DIR_PATH) == ROOT
  {
    hide NewVolume, FreshDir, Resolve, SplitOf, Records, RecAt, InBuffer, Reaches, WellFormed, Node, Ents, Lookup;
    var v := NewVolume();
    PathSplits();
    RootResolves(v);
    NewRoot(v);
    FreshReaches(v, ROOT, ROOT, ROOT, [LETTER]);
  }

  lemma FirstMkdir(v': Vol, live': set<nat>, r: int, ino: u32, b: u32)
    requires MkdirOutcome(NewVolume(), v', {ROOT}, live', DIR_PATH, r, ino, b)
    ensures r == 1
  {
    hide NewVolume, FreshDir, Resolve, SplitOf, Records, RecAt, InBuffer, WellFormed, Node, Ents, Full, Made, Leaked;
    RoomForOne();
    RootResolves(NewVolume());
    NewRoot(NewVolume());
    NotFull();
  }

  /** Whatever else the two calls may do, both return 1, and the volume they leave is sound for no set of inodes. */
  lemma DotRunBreaks(v1: Vol, v2: Vol, live1: set<nat>, live2: set<nat>, r1: int, r2: int, ino: u32, b: u32,
                     gone: set<nat>)
    requires MkdirOutcome(NewVolume(), v1, {ROOT}, live1, DIR_PATH, r1, ino, b)
    requires RmdirOutcome(v1, v2, live1, live2, DOT_PATH, r2, gone)
    ensures r1 == 1 && r2 == 1 && Sound(v1, live1) && Unsound(v2)
  {
    hide NewVolume, MkdirOutcome, FreshDir, Resolve, SplitOf, Sound, Lands, InsertSafe, IsDir, Ents, Removed, Gutted,
      AddedAt, Seen, Unsound;
    var v := NewVolume();
    NewVolumeSound();
    RoomForOne();
    FirstMkdir(v1, live1, r1, ino, b);
    MkdirThenResolve(v, v1, {ROOT}, live1, DIR_PATH, ino, b);
    AddedFacts(v, v1, {ROOT}, DIR_PATH, ino);
    PathSplits();
    MadeBlock(v, v1, {ROOT}, live1, ino, b);
    FreshSeen(v1, ino, ino, ROOT);
    assert [DOT] in Ents(v1, ino) && Ents(v1, ino)[[DOT]] == ino;
    RmdirSoundIff(v1, v2, live1, live2, DOT_PATH, gone);
  }

  lemma MadeBlock(v: Vol, v1: Vol, live: set<nat>, live1: set<nat>, ino: u32, b: u32)
    requires MkdirOutcome(v, v1, live, live1, DIR_PATH, 1, ino, b) && ParentDir(v, DIR_PATH) == ROOT
    ensures ino != 0 && DirBlk(v1, ino) == FreshDir(ino, ROOT)
  {
    hide FreshDir, Resolve, SplitOf, IsDir, Ents, EntryPut, Allocated, Owned, NoDup, Taken, At;
  }

  /** The run itself. */
  method RunByDot() returns (vol: Volume, r1: int, r2: int)
    ensures fresh(vol) && r1 == 1 && r2 == 1 && Unsound(vol.State())
  {
    hide NewVolume, MkdirOutcome, RmdirOutcome, Sound, Lands, InsertSafe, CString, Unsound;
    NewVolumeSound();
    RoomForOne();
    PathSplits();
    vol := new Volume.Mount(NewVolume(), {ROOT});
    ghost var ino, b, gone;
    r1, ino, b := vol.MakeDirectory(DIR_PATH);
    ghost var v1, live1 := vol.State(), vol.live;
    MkdirStep(NewVolume(), v1, {ROOT}, live1, DIR_PATH, r1, ino, b);
    r2, gone := vol.RemoveDirectory(DOT_PATH);
    DotRunBreaks(v1, vol.State(), live1, vol.live, r1, r2, ino, b, gone);
  }
}
