/** What a caller of write, mkdir and read sees: bytes in, bytes out, and the fields of the new inodes and entries. */
module Storage {
  import opened Bytes
  import opened Bitmap
  import opened BlockTree
  import opened Allocation
  import opened Copying
  import opened TreeAssembly
  import opened RecordChain
  import opened DirBlock
  import opened VolumeState
  import opened Damage
  import opened Growth
  import opened Paths
  import opened Ext2Volume
  import opened FileLaws
  import opened SectorLimits

  /** How many bytes a write of `request` bytes stores: at least 1, and no more than the tree can reach. */
  ghost predicate IsSize(n: nat, request: nat) {
    n == if request < 1 then 1 else if request > 67383296 then 67383296 else request
  }

  /** The caller's bytes, or zeros when it passes NULL. */
  ghost predicate Holds(content: seq<byte>, data: Source, n: nat) {
    && |content| == n
    && forall k :: 0 <= k < n ==>
         match data
         case Null => content[k] == 0
         case Bytes(s) => k < |s| && content[k] == s[k]
  }

  lemma WantedHolds(data: Source, request: nat, n: nat)
    requires IsSize(n, request) && (data.Bytes? ==> n <= |data.s|)
    ensures FileSize(request) == n && Holds(Wanted(data, FileSize(request)), data, n)
  {
  }

  /**
    The inode of a new file: a regular file, mode 0644, one link, two sectors for each block it owns, and no triple
    indirect block.
   */
  ghost predicate IsFileInode(v: Vol, ino: nat, n: nat) {
    Node(v, ino).mode == 0x81A4 && Node(v, ino).links == 1 && Node(v, ino).size == n
      && Node(v, ino).blocks == 2 * |Own(v, ino)| && Node(v, ino).block[14] == 0
  }

  lemma FileFields(size: nat, ib: Slots)
    requires size <= MAX_SIZE
    ensures FileNode(size, ib).mode == 0x81A4 && FileNode(size, ib).links == 1 && FileNode(size, ib).size == size
  {
  }

  /**
    What a write stores. With room for it, the new inode has the size asked for and the file holds the caller's bytes,
    one by one, or zeros for NULL.
   */
  lemma StoresBytes(v: Vol, v': Vol, live: set<nat>, live': set<nat>, path: seq<byte>, data: Source, request: nat,
                    n: nat,
                    ino: u32, a: seq<u32>)
    requires Sound(v, live) && Lands(v, path) && IsSize(n, request) && (data.Bytes? ==> n <= |data.s|)
    requires WriteOutcome(v, v', live, live', path, Wanted(data, FileSize(request)), 1, ino, a)
    requires Needed(BlocksFor(n)) <= |Free(v.blockMap)|
    ensures IsFileInode(v', ino, n) && IsFile(v', ino) && Holds(Content(v', ino), data, n)
    ensures Sound(v', live') && Resolve(v', Clip(path)) == ino
  {
    hide Sound, Resolve, Node, SplitOf, IsDir, IsFile, Added, ParentDir, AddedAt, TreeBuilt, Free, Needed, Lands, Owned,
      Content,
      Ents, Full, Leaked, SlotOf, Wanted, FileSize, Holds, BlocksFor, FileNode;
    var content := Wanted(data, FileSize(request));
    WantedHolds(data, request, n);
    assert |content| == n by {
      HoldsLength(content, data, n);
    }
    WriteThenRead(v, v', live, live', path, content, ino, a);
    WriteCountsBlocks(v, v', live, live', path, content, ino, a);
    AddedFacts(v, v', live, path, ino);
    var d := ParentDir(v, path);
    LandsParts(v, path);
    assert Stored(v, v', live, d, SlotOf(v, d), SplitOf(path).name, content, ino, a);
    AddedParts(v, v', live, d, SlotOf(v, d), SplitOf(path).name, ino, 1, FileNode(n, Node(v', ino).block), a);
    FileFields(n, Node(v', ino).block);
    NoTriple(v.blockMap, v'.blockMap, v'.disk, Node(v', ino).block, a, content);
  }

  lemma NoTriple(bm: Bits, bm': Bits, d: Disk, ib: Slots, a: seq<u32>, content: seq<byte>)
    requires TreeBuilt(bm, bm', d, ib, a, content)
    ensures ib[14] == 0
  {
    hide IsTree, TrashZeroed, Allocated;
  }

  lemma HoldsLength(content: seq<byte>, data: Source, n: nat)
    requires Holds(content, data, n)
    ensures |content| == n
  {
  }

  /**
    A place for a file under `path`: its directory exists and its entry lands, an inode is free, and blocks for `n`
    bytes are.
   */
  ghost predicate Ready(v: Vol, path: seq<byte>, n: nat) {
    && Lands(v, path) && ParentDir(v, path) != 0 && IsDir(v, ParentDir(v, path))
    && !Full(v.nodeMap) && Needed(BlocksFor(n)) <= |Free(v.blockMap)|
  }

  lemma ReadyWrites(v: Vol, v': Vol, live: set<nat>, live': set<nat>, path: seq<byte>, content: seq<byte>, n: nat,
                    r: int,
                    ino: u32, a: seq<u32>)
    requires Ready(v, path, n) && WriteOutcome(v, v', live, live', path, content, r, ino, a)
    ensures r == 1
  {
    hide Resolve, SplitOf, IsDir, ParentDir, Ents, Full, Leaked, Stored, SlotOf, Free, Needed;
  }

  lemma ReadyLands(v: Vol, live: set<nat>, path: seq<byte>, n: nat)
    requires Ready(v, path, n)
    ensures Lands(v, path) && Needed(BlocksFor(n)) <= |Free(v.blockMap)| && InsertSafe(v, path)
  {
    hide Resolve, SplitOf, IsDir, ParentDir, Ents, Full, SlotOf, Free, Needed, InBuffer, WellFormed, Fits, Lookup;
  }

  /** Write, seen from the caller: the file is there, with the caller's bytes. */
  method StoreFile(vol: Volume, path: seq<byte>, data: Source, request: nat, ghost n: nat) returns (r: int,
                   ghost ino: u32)
    requires Sound(vol.State(), vol.live) && CString(path) && IsSize(n, request) && request < 0x1_0000_0000
    requires Ready(vol.State(), path, n) && (data.Bytes? ==> n <= |data.s|)
    modifies vol
    ensures r == 1 && Sound(vol.State(), vol.live) && Resolve(vol.State(), Clip(path)) == ino && ino != 0
    ensures IsFileInode(vol.State(), ino, n) && IsFile(vol.State(), ino) && Holds(Content(vol.State(), ino), data, n)
  {
    hide Sound, Resolve, WriteOutcome, IsFileInode, IsFile, Holds, Content, Lands, InsertSafe, Ready, Wanted, FileSize,
      Clip, Free,
      Needed, BlocksFor;
    ghost var v, live := vol.State(), vol.live;
    ReadyLands(v, live, path, n);
    WantedHolds(data, request, n);
    ghost var a;
    r, ino, a := vol.WriteFile(path, data, request);
    ReadyWrites(v, vol.State(), live, vol.live, path, Wanted(data, FileSize(request)), n, r, ino, a);
    StoresBytes(v, vol.State(), live, vol.live, path, data, request, n, ino, a);
    NumberedFrom1(v, vol.State(), live, vol.live, path, Wanted(data, FileSize(request)), ino, a);
  }

  lemma NumberedFrom1(v: Vol, v': Vol, live: set<nat>, live': set<nat>, path: seq<byte>, content: seq<byte>, ino: u32,
                      a: seq<u32>)
    requires WriteOutcome(v, v', live, live', path, content, 1, ino, a)
    ensures ino != 0
  {
    hide Resolve, SplitOf, IsDir, ParentDir, Ents, Full, Leaked, SlotOf, TreeBuilt, EntryPut, Allocated, Owned, Taken,
      NoDup;
    assert Stored(v, v', live, ParentDir(v, path), SlotOf(v, ParentDir(v, path)), SplitOf(path).name, content, ino, a);
  }

  /** A file that holds all its bytes fills the buffer with them, and nothing behind them changes but one NUL. */
  lemma FilledBytes(was: seq<byte>, now: seq<byte>, s: seq<byte>, maxSize: nat)
    requires Filled(was, now, s, |s|, maxSize) && maxSize <= |was| && 0 < |s| <= maxSize
    ensures |now| == |was| && now[..|s|] == s
    ensures |s| < maxSize ==> now[|s|] == 0 && now[|s| + 1..] == was[|s| + 1..]
    ensures |s| == maxSize ==> now[|s|..] == was[|s|..]
  {
    assert s[..|s|] == s;
  }

  /** Writing the bytes `s` under a path and reading them back through a buffer of any size that holds them. */
  method StoreAndRead(vol: Volume, path: seq<byte>, s: seq<byte>, dest: array<byte>, maxSize: nat)
    returns (r: int, ok: bool, size: nat)
    requires Sound(vol.State(), vol.live) && CString(path) && |path| <= 255 && 0 < |s| <= 67383296
    requires Ready(vol.State(), path, |s|) && |s| <= maxSize <= dest.Length
    modifies vol, dest
    ensures r == 1 && ok && size == |s| && dest[..|s|] == s
    ensures |s| < maxSize ==> dest[|s|] == 0 && dest[|s| + 1..] == old(dest[|s| + 1..])
    ensures |s| == maxSize ==> dest[|s|..] == old(dest[|s|..])
  {
    hide Sound, Resolve, IsFile, Content, Ready, Filled, CString, Free, Needed, BlocksFor;
    ghost var ino, was := 0, dest[..];
    r, ino := StoreFile(vol, path, Bytes(s), |s|, |s|);
    assert Content(vol.State(), ino) == s;
    ok, size := vol.ReadFile(path, dest, maxSize);
    FilledBytes(was, dest[..], s, maxSize);
    assert dest[..][|s| + if |s| < maxSize then 1 else 0..] == dest[|s| + if |s| < maxSize then 1 else 0..];
  }

  // ----- whole files -----

  /** A file with all its blocks delivers as many bytes as its size says. */
  lemma WholeLength(v: Vol, i: nat)
    requires Whole(v, i) || Node(v, i).size == 0
    ensures |Content(v, i)| == Node(v, i).size
  {
    hide Phys, PathOk, At, Complete;
    if Node(v, i).size != 0 {
      WholeParts(v, i);
      ReadFull(v.disk, Node(v, i).block, BlocksFor(Node(v, i).size), 0, 0);
      ReadFront(v.disk, Node(v, i).block, Node(v, i).size, 0);
    }
  }

  /** So reading a whole file fills the buffer with the first `maxSize` bytes of it, or all. */
  lemma WholeDelivered(v: Vol, i: nat, was: seq<byte>, now: seq<byte>, maxSize: nat)
    requires (Whole(v, i) || Node(v, i).size == 0) && Filled(was, now, Content(v, i), Node(v, i).size, maxSize)
    ensures var m := if Node(v, i).size < maxSize then Node(v, i).size else maxSize;
      m <= |now| && m <= |Content(v, i)| && now[..m] == Content(v, i)[..m]
  {
    hide Content, Whole;
    WholeLength(v, i);
  }

  // ----- directories and entries -----

  /** The inode of a new directory: mode 0755, one block, which its links and sector count say too. */
  lemma DirFields(v: Vol, v': Vol, live: set<nat>, live': set<nat>, path: seq<byte>, ino: u32, b: u32)
    requires MkdirOutcome(v, v', live, live', path, 1, ino, b)
    ensures Node(v', ino) == Inode(0x41ED, 1024, 2, 2, [b, 0, 0, 0, 0, 0, 0, 0, 0, 0, 0, 0, 0, 0, 0])
  {
    hide Resolve, SplitOf, IsDir, ParentDir, Ents, Full, Leaked, SlotOf, EntryPut, Allocated, Owned, Taken, NoDup,
      FreshDir, Node;
    var d := ParentDir(v, path);
    assert Made(v, v', live, d, SlotOf(v, d), SplitOf(path).name, ino, b);
    AddedParts(v, v', live, d, SlotOf(v, d), SplitOf(path).name, ino, 2, DirNode(b), [b]);
  }

  /** The bytes of a new record as ext2 lays them out: inode, record length, name length, kind, name. */
  lemma RecordBytes(b: Block, p: nat, ino: u32, n: Name, kind: byte)
    requires InBuffer(b, p, n)
    ensures var c, t := Insert(b, p, ino, n, kind), NewAt(b, p);
      && Read32(c, t) == ino && Read16(c, t + 4) == Read16(b, p + 4) - (t - p) && c[t + 6] == |n| && c[t + 7] == kind
      && c[t + 8..t + 8 + |n|] == n
  {
    hide Le16, Le32, Read16, Read32, RealLen, Patch;
    var c, t := Insert(b, p, ino, n, kind), NewAt(b, p);
    var h := Header(ino, Read16(b, p + 4) - (t - p), |n|, kind);
    HeaderFields(ino, Read16(b, p + 4) - (t - p), |n|, kind);
    SpliceNew(Patch(b, p + 4, Le16(t - p)), t, h, n);
    assert c[t + 6] == h[6] && c[t + 7] == h[7];
  }

  /** An entry says what it names: 1 for a file, 2 for a directory. */
  lemma EntryKind(v: Vol, v': Vol, live: set<nat>, path: seq<byte>, ino: u32, kind: byte, node: Inode, got: seq<u32>)
    requires Sound(v, live) && Lands(v, path)
    requires Added(v, v', live, ParentDir(v, path), SlotOf(v, ParentDir(v, path)), SplitOf(path).name, ino, kind, node,
      got)
    ensures var d := ParentDir(v, path);
      var t := NewAt(DirBlk(v, d), SlotOf(v, d));
      t + 8 <= BLOCK && DirBlk(v', d)[t + 7] == kind
  {
    hide Sound, Resolve, SplitOf, ParentDir, Added, Insert, WriteBack, IsDir, Node, Records, DirBlk, Fits, WellFormed,
      NewAt, SlotOf,
      OnlyDir;
    var d, n := ParentDir(v, path), SplitOf(path).name;
    EntryOnDisk(v, v', live, d, SlotOf(v, d), n, ino, kind, node, got);
    RecordBytes(DirBlk(v, d), SlotOf(v, d), ino, n, kind);
    SlotBehind(DirBlk(v, d), SlotOf(v, d));
    InsertKept(DirBlk(v, d), SlotOf(v, d), ino, n, kind);
  }

  lemma WriteKind(v: Vol, v': Vol, live: set<nat>, live': set<nat>, path: seq<byte>, content: seq<byte>, ino: u32,
                  a: seq<u32>)
    requires Sound(v, live) && Lands(v, path) && WriteOutcome(v, v', live, live', path, content, 1, ino, a)
    ensures var d := ParentDir(v, path);
      var t := NewAt(DirBlk(v, d), SlotOf(v, d));
      t + 8 <= BLOCK && DirBlk(v', d)[t + 7] == 1
  {
    hide Sound, Resolve, SplitOf, ParentDir, Added, Lands, Ents, IsDir, Full, SlotOf, TreeBuilt, DirBlk, NewAt;
    assert Stored(v, v', live, ParentDir(v, path), SlotOf(v, ParentDir(v, path)), SplitOf(path).name, content, ino, a);
    EntryKind(v, v', live, path, ino, 1, FileNode(|content|, Node(v', ino).block), a);
  }

  lemma MkdirKind(v: Vol, v': Vol, live: set<nat>, live': set<nat>, path: seq<byte>, ino: u32, b: u32)
    requires Sound(v, live) && Lands(v, path) && MkdirOutcome(v, v', live, live', path, 1, ino, b)
    ensures var d := ParentDir(v, path);
      var t := NewAt(DirBlk(v, d), SlotOf(v, d));
      t + 8 <= BLOCK && DirBlk(v', d)[t + 7] == 2
  {
    hide Sound, Resolve, SplitOf, ParentDir, Added, Lands, Ents, IsDir, Full, SlotOf, FreshDir, DirBlk, NewAt;
    assert Made(v, v', live, ParentDir(v, path), SlotOf(v, ParentDir(v, path)), SplitOf(path).name, ino, b);
    EntryKind(v, v', live, path, ino, 2, DirNode(b), [b]);
  }

  /** The block of a new directory, byte by byte up to the end of ".."; the rest is zero. */
  lemma FreshDirBytes(self: u32, parent: u32)
    ensures var b := FreshDir(self, parent);
      && b[0..12] == Le32(self) + [12, 0, 1, 2, 46, 0, 0, 0]
      && b[12..24] == Le32(parent) + [0xF4, 0x03, 2, 2, 46, 46, 0, 0]
      && forall k :: 24 <= k < BLOCK ==> b[k] == 0
  {
    hide Le32;
    assert Le16(12) == [12, 0] && Le16(1012) == [0xF4, 0x03];
  }
}
