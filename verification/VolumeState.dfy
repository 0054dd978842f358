/**
  A one-group ext2 volume as a value, and what it means for it to be sound. `live` is the set of
  inode numbers the directory tree holds; everything soundness says is about those.
 */
module VolumeState {
  import opened Bytes
  import opened Bitmap
  import opened BlockTree
  import opened RecordChain
  import opened DirBlock

  const ROOT := 2
  const MAX_INODES := 4096
  const DIR_MODE: u16 := 0x41ED
  const FILE_MODE: u16 := 0x81A4

  datatype Inode = Inode(mode: u16, size: u32, links: u16, blocks: u32, block: Slots)

  /** `first` is the first block behind the superblock, descriptors, bitmaps and inode table. */
  datatype Vol = Vol(blockMap: Bits, nodeMap: Bits, inodes: seq<Inode>, disk: Disk, first: nat)

  function BlankInode(): Inode {
    Inode(0, 0, 0, 0, [0, 0, 0, 0, 0, 0, 0, 0, 0, 0, 0, 0, 0, 0, 0])
  }

  predicate InTable(v: Vol, i: nat) {
    1 <= i <= |v.inodes|
  }

  function Node(v: Vol, i: nat): Inode {
    if InTable(v, i) then v.inodes[i - 1] else BlankInode()
  }

  predicate IsDir(v: Vol, i: nat) {
    Node(v, i).mode / 0x1000 == 4
  }

  predicate IsFile(v: Vol, i: nat) {
    Node(v, i).mode / 0x1000 == 8
  }

  /** The kind of an inode stands in the four highest bits of its mode. */
  lemma KindIff(v: Vol, i: nat)
    ensures IsDir(v, i) <==> 0x4000 <= Node(v, i).mode < 0x5000
    ensures IsFile(v, i) <==> 0x8000 <= Node(v, i).mode < 0x9000
  {
  }

  /** The blocks inode `i` owns, as the destroyer lists them. */
  function Own(v: Vol, i: nat): seq<u32> {
    Owned(v.disk, Node(v, i).block)
  }

  /** Number of the block that holds the entries of directory `i`. */
  function DirNum(v: Vol, i: nat): u32 {
    Node(v, i).block[0]
  }

  function DirBlk(v: Vol, i: nat): Block {
    At(v.disk, DirNum(v, i))
  }

  function Ents(v: Vol, i: nat): map<Name, u32> {
    if WellFormed(DirBlk(v, i)) then Names(DirBlk(v, i)) else map[]
  }

  /** The bytes a complete read of file `i` delivers. */
  function Content(v: Vol, i: nat): seq<byte> {
    ReadFrom(v.disk, Node(v, i).block, 0, Node(v, i).size)
  }

  /** No pointer block of file `i` is missing, as is the case for every file written while there was room. */
  ghost predicate Intact(v: Vol, i: nat) {
    forall k :: 0 <= k < BlocksFor(Node(v, i).size) ==> PathOk(v.disk, Node(v, i).block, k)
  }

  // ----- soundness -----

  ghost predicate Shape(v: Vol) {
    && |v.blockMap| % 512 == 0 && Padded(v.blockMap, v.disk)
    && |v.nodeMap| == 512 && ROOT <= |v.inodes| <= MAX_INODES
    && (forall n: nat :: |v.inodes| <= n < 8 * |v.nodeMap| ==> Bit(v.nodeMap, n))
    && (forall n: nat :: n + 1 < v.first ==> Bit(v.blockMap, n))
  }

  /** Bits for blocks past the end of the disk are set, as mke2fs leaves them. */
  ghost predicate Padded(bm: Bits, d: Disk) {
    && 8 * |bm| < 0x1_0000_0000
    && |d| > 0
    && forall n: nat :: |d| - 1 <= n < 8 * |bm| ==> Bit(bm, n)
  }

  /** Every block of inode `i` is marked used, lies behind the metadata, and is listed once. */
  ghost predicate OwnsWell(v: Vol, i: nat) {
    && NoDup(Own(v, i))
    && forall x: u32 :: x in Own(v, i) ==> 1 <= x < |v.disk| && v.first <= x && Bit(v.blockMap, x - 1)
  }

  /** No block belongs to two inodes. */
  ghost predicate Disjoint(v: Vol, live: set<nat>) {
    forall i: nat, j: nat, x: u32 :: i in live && j in live && x in Own(v, i) && x in Own(v, j) ==> i == j
  }

  ghost predicate BlocksSound(v: Vol, live: set<nat>) {
    && Shape(v)
    && (forall i: nat :: i in live ==> InTable(v, i) && Bit(v.nodeMap, i - 1) && OwnsWell(v, i))
    && Disjoint(v, live)
  }

  /**
    A directory: one block of entries that starts with "." and names live inodes only; any further blocks are empty.
   */
  ghost predicate DirWell(v: Vol, live: set<nat>, d: nat) {
    && DirNum(v, d) != 0 && Node(v, d).block[12] == 0 && Node(v, d).block[13] == 0
    && (forall k :: 1 <= k < DIRECT && Node(v, d).block[k] != 0 ==> Read32(At(v.disk, Node(v, d).block[k]), 0) == 0)
    && WellFormed(DirBlk(v, d))
    && Records(DirBlk(v, d))[0].Rec? && Records(DirBlk(v, d))[0].name == [DOT]
    && [DOT] in Ents(v, d) && Ents(v, d)[[DOT]] == d && [DOT, DOT] in Ents(v, d)
    && (forall n :: n in Ents(v, d) ==> Ents(v, d)[n] in live)
  }

  ghost predicate Dir(v: Vol, live: set<nat>, d: nat) {
    d in live && IsDir(v, d)
  }

  /** Directory `d` names inode `i` by `n`, not counting "." and "..". */
  ghost predicate Child(v: Vol, live: set<nat>, d: nat, n: Name, i: nat) {
    Dir(v, live, d) && n in Ents(v, d) && !IsDots(n) && Ents(v, d)[n] == i
  }

  ghost predicate Holds(v: Vol, live: set<nat>, d: nat, i: nat) {
    exists n: Name :: Child(v, live, d, n, i)
  }

  /** Where ".." of directory `e` points. */
  function ParentOf(v: Vol, e: nat): nat {
    if [DOT, DOT] in Ents(v, e) then Ents(v, e)[[DOT, DOT]] else 0
  }

  /** The directories form a tree: one parent each, ".." naming it, and the root on top. */
  ghost predicate TreeSound(v: Vol, live: set<nat>) {
    && (forall d: nat, n: Name, e: nat, m: Name, i: nat :: Child(v, live, d, n, i) && Child(v, live, e, m, i) ==>
         d == e && n == m)
    && (forall d: nat, n: Name :: !Child(v, live, d, n, ROOT))
    && (forall e: nat :: Dir(v, live, e) && e != ROOT ==> Holds(v, live, ParentOf(v, e), e))
    && ParentOf(v, ROOT) == ROOT
  }

  /** `depth` grows from every directory to what it names. */
  ghost predicate Ranked(v: Vol, live: set<nat>, depth: map<nat, nat>) {
    && (forall i: nat :: i in live ==> i in depth)
    && forall d: nat, n: Name, i: nat :: Child(v, live, d, n, i) && d in depth && i in depth ==> depth[d] < depth[i]
  }

  ghost predicate Acyclic(v: Vol, live: set<nat>) {
    exists depth: map<nat, nat> :: Ranked(v, live, depth)
  }

  ghost predicate Sound(v: Vol, live: set<nat>) {
    && BlocksSound(v, live)
    && Dir(v, live, ROOT)
    && (forall d: nat :: Dir(v, live, d) ==> DirWell(v, live, d))
    && TreeSound(v, live)
    && Acyclic(v, live)
  }

  // ----- what a change to one directory block leaves alone -----

  /** Blocks in use keep their bytes, except possibly block `db`. */
  ghost predicate KeptBut(v: Vol, v': Vol, db: nat) {
    |v'.disk| == |v.disk| && forall b: nat :: 1 <= b < |v.disk| && Bit(v.blockMap, b - 1) && b != db ==>
      v'.disk[b] == v.disk[b]
  }

  lemma DirOwnsBlock(v: Vol, live: set<nat>, d: nat)
    requires Sound(v, live) && Dir(v, live, d)
    ensures DirNum(v, d) in Own(v, d) && PointerBlocks(v.disk, Node(v, d).block) == {}
  {
    hide WellFormed, Records, Ents, DirBlk, TreeSound, OwnsWell, Disjoint, Shape;
    assert DirWell(v, live, d);
    var ib := Node(v, d).block;
    assert ib[..12][0] == ib[0];
    InNonZero(ib[..12], ib[0]);
  }

  lemma OwnedAtKept(v: Vol, v': Vol, live: set<nat>, d: nat, i: nat, x: u32)
    requires Sound(v, live) && Dir(v, live, d) && KeptBut(v, v', DirNum(v, d))
    requires i in live && x in Own(v, i) && (i != d || x != DirNum(v, d))
    ensures At(v'.disk, x) == At(v.disk, x)
  {
    hide DirWell, TreeSound, Own, Shape, DirNum, IsDir, Bit;
    DirOwnsBlock(v, live, d);
    assert OwnsWell(v, i);
  }

  /** No live inode gains or loses a block when only a directory's entries change. */
  lemma OwnKept(v: Vol, v': Vol, live: set<nat>, d: nat, i: nat)
    requires Sound(v, live) && Dir(v, live, d) && KeptBut(v, v', DirNum(v, d))
    requires i in live && Node(v', i) == Node(v, i)
    ensures Own(v', i) == Own(v, i)
  {
    hide Sound, IsDir, Node, At, Owned, KeptBut, DirNum;
    DirOwnsBlock(v, live, d);
    var ib := Node(v, i).block;
    forall p | p in PointerBlocks(v.disk, ib)
      ensures At(v'.disk, p) == At(v.disk, p)
    {
      PointerBlocksOwned(v.disk, ib, p);
      OwnedAtKept(v, v', live, d, i, p);
    }
    OwnedFrame(v.disk, v'.disk, ib);
  }

  /** Every other intact file keeps its contents. */
  lemma ContentKept(v: Vol, v': Vol, live: set<nat>, d: nat, i: nat)
    requires Sound(v, live) && Dir(v, live, d) && KeptBut(v, v', DirNum(v, d))
    requires i in live && i != d && Node(v', i) == Node(v, i) && Intact(v, i)
    ensures Content(v', i) == Content(v, i)
  {
    hide Sound, IsDir, Node, At, Owned, KeptBut, DirNum, PathOk;
    forall p | p in Own(v, i)
      ensures At(v'.disk, p) == At(v.disk, p)
    {
      OwnedAtKept(v, v', live, d, i, p);
    }
    ReadFrame(v.disk, v'.disk, Node(v, i).block, 0, Node(v, i).size);
  }

  /** Every other directory keeps its entries. */
  lemma DirKept(v: Vol, v': Vol, live: set<nat>, d: nat, e: nat)
    requires Sound(v, live) && Dir(v, live, d) && KeptBut(v, v', DirNum(v, d))
    requires Dir(v, live, e) && e != d && Node(v', e) == Node(v, e)
    ensures DirBlk(v', e) == DirBlk(v, e)
  {
    hide Sound, IsDir, Own, At, KeptBut;
    DirOwnsBlock(v, live, e);
    OwnedAtKept(v, v', live, d, e, DirNum(v, e));
  }

  lemma NonZeroTwice(s: seq<u32>)
    requires s != [] && s[0] != 0
    ensures multiset(NonZero(s))[s[0]] == 1 + multiset(NonZero(s[1..]))[s[0]]
  {
  }

  lemma {:induction false} NoDupNonZero(s: seq<u32>, j: nat, k: nat)
    requires NoDup(NonZero(s)) && j < k < |s| && s[k] != 0
    ensures s[j] != s[k]
  {
    if j == 0 {
      assert s[1..][k - 1] == s[k];
      InNonZero(s[1..], s[k]);
      if s[0] != 0 {
        NonZeroTwice(s);
      }
    } else {
      NoDupTail(s);
      NoDupNonZero(s[1..], j - 1, k - 1);
    }
  }

  lemma NoDupTail(s: seq<u32>)
    requires NoDup(NonZero(s)) && s != []
    ensures NoDup(NonZero(s[1..]))
  {
    var h := if s[0] == 0 then [] else [s[0]];
    assert NonZero(s) == h + NonZero(s[1..]);
    forall x: u32
      ensures multiset(NonZero(s[1..]))[x] <= 1
    {
      assert multiset(NonZero(s))[x] == multiset(h)[x] + multiset(NonZero(s[1..]))[x];
    }
  }

  lemma NoDupPrefix(s: seq<u32>, t: seq<u32>)
    requires NoDup(s + t)
    ensures NoDup(s)
  {
    forall x: u32
      ensures multiset(s)[x] <= 1
    {
      assert multiset(s + t)[x] == multiset(s)[x] + multiset(t)[x];
    }
  }

  lemma DirectNoDup(v: Vol, d: nat)
    requires NoDup(Own(v, d))
    ensures NoDup(NonZero(Node(v, d).block[..12]))
    ensures forall x: u32 :: x in NonZero(Node(v, d).block[..12]) ==> x in Own(v, d)
  {
    hide NonZero, OwnedSingle, OwnedDouble, NoDup;
    var ib := Node(v, d).block;
    var rest := OwnedSingle(v.disk, ib[12]) + OwnedDouble(v.disk, ib[13]);
    assert Own(v, d) == NonZero(ib[..12]) + rest;
    NoDupPrefix(NonZero(ib[..12]), rest);
  }

  /** The further blocks of a directory are owned by it and are not its first block. */
  lemma OtherBlocks(v: Vol, d: nat, k: nat)
    requires OwnsWell(v, d) && 1 <= k < DIRECT && Node(v, d).block[k] != 0
    ensures Node(v, d).block[k] in Own(v, d) && Node(v, d).block[k] != DirNum(v, d)
  {
    hide NonZero, Owned, NoDup, Node;
    var ib := Node(v, d).block;
    DirectNoDup(v, d);
    assert ib[..12][k] == ib[k] && ib[..12][0] == ib[0];
    InNonZero(ib[..12], ib[k]);
    NoDupNonZero(ib[..12], 0, k);
  }

  /** The empty further blocks of every live directory stay empty. */
  lemma OtherBlocksKept(v: Vol, v': Vol, live: set<nat>, d: nat, e: nat)
    requires Sound(v, live) && Dir(v, live, d) && KeptBut(v, v', DirNum(v, d))
    requires Dir(v, live, e) && Node(v', e) == Node(v, e)
    ensures forall k :: 1 <= k < DIRECT && Node(v', e).block[k] != 0 ==>
      Read32(At(v'.disk, Node(v', e).block[k]), 0) == 0
  {
    hide BlocksSound, TreeSound, Acyclic, KeptBut, At, Own, Node, OwnsWell, Read32, WellFormed, Records, Ents, IsDir,
      DirNum;
    assert DirWell(v, live, e);
    LiveOwnsWell(v, live, e);
    forall k | 1 <= k < DIRECT && Node(v', e).block[k] != 0
      ensures Read32(At(v'.disk, Node(v', e).block[k]), 0) == 0
    {
      OtherBlocks(v, e, k);
      OwnedAtKept(v, v', live, d, e, Node(v, e).block[k]);
    }
  }

  lemma LiveOwnsWell(v: Vol, live: set<nat>, i: nat)
    requires BlocksSound(v, live) && i in live
    ensures InTable(v, i) && Bit(v.nodeMap, i - 1) && OwnsWell(v, i)
  {
  }
}
