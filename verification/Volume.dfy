/** The mounted one-group ext2 volume: its two bitmaps, its inode table, and its blocks. */
module Ext2Volume {
  import opened Bytes
  import opened Bitmap
  import opened BlockTree
  import opened Allocation
  import opened DoubleStage
  import opened TreeAssembly
  import opened Copying
  import opened RecordChain
  import opened DirBlock
  import opened VolumeState
  import opened Growth
  import opened Shrink
  import opened Wiping
  import opened Damage
  import opened Rmdir
  import opened Paths

  lemma AllocatedPadded(bm: Bits, bm': Bits, a: seq<u32>, d: Disk)
    requires Allocated(bm, bm', a) && Padded(bm, d)
    ensures Padded(bm', d)
    ensures forall x :: x in a ==> x < |d|
  {
    hide Bit;
    forall x | x in a
      ensures x < |d|
    {
      if x != 0 {
        var n: nat := x - 1;
        assert !Bit(bm, n);
      }
    }
  }

  lemma KeptTrans(bm: Bits, bm': Bits, a: seq<u32>, d: Disk, d': Disk, d'': Disk)
    requires Kept(bm, d, d') && Allocated(bm, bm', a) && Kept(bm', d', d'')
    ensures Kept(bm, d, d'')
  {
    hide Bit;
  }

  /** The bitmap scan both allocators share: sectors, bytes that are not 0xFF, then bits; 0 when every bit is set. */
  method TakeLowest(bm: Bits) returns (bm': Bits, b: u32)
    requires |bm| % 512 == 0 && 8 * |bm| < 0x1_0000_0000
    ensures Taken(bm, bm', b)
  {
    var sectors := |bm| / 512;
    var s := 0;
    while s < sectors
      invariant 0 <= s <= sectors
      invariant forall n: nat :: n < 4096 * s ==> Bit(bm, n)
    {
      var i := 0;
      while i < 512
        invariant 0 <= i <= 512
        invariant forall n: nat :: n < 4096 * s + 8 * i ==> Bit(bm, n)
      {
        var at := 512 * s + i;
        FullByte(bm[at]);
        if bm[at] != 0xFF {
          var bit := 0;
          while bit < 8
            invariant 0 <= bit <= 8
            invariant forall k :: 0 <= k < bit ==> Has(bm[at], k)
            invariant forall n: nat :: n < 8 * at + bit ==> Bit(bm, n)
          {
            assert (8 * at + bit) / 8 == at && (8 * at + bit) % 8 == bit;
            if !Has(bm[at], bit) {
              return bm[at := With(bm[at], bit)], 4096 * s + 8 * i + bit + 1;
            }
            bit := bit + 1;
          }
        } else {
          forall n: nat | 8 * at <= n < 8 * at + 8
            ensures Bit(bm, n)
          {
            assert Has(bm[at], n % 8);
          }
        }
        i := i + 1;
      }
      s := s + 1;
    }
    return bm, 0;
  }

  /** The buffer after both sectors of a block were read into it. */
  method Load(b: Block) returns (buf: array<byte>)
    ensures fresh(buf) && buf[..] == b
  {
    buf := new byte[BLOCK](k requires 0 <= k < BLOCK => b[k]);
  }

  lemma AllocatedSuffix(bm: Bits, bm': Bits, a: seq<u32>)
    requires Allocated(bm, bm', a)
    ensures ZeroSuffix(a)
  {
  }

  /** A stage adds its allocations and leaves alone what was in use at the very start. */
  lemma StageKept(bm: Bits, bm': Bits, bm'': Bits, d: Disk, d': Disk, d'': Disk, a: seq<u32>, b: seq<u32>)
    requires Allocated(bm, bm', a) && Kept(bm, d, d') && Allocated(bm', bm'', b) && Kept(bm', d', d'')
    ensures Allocated(bm, bm'', a + b) && Kept(bm, d, d'')
  {
    hide Allocated, Kept;
    AllocatedConcat(bm, bm', bm'', a, b);
    KeptTrans(bm, bm', a, d, d', d'');
  }

  lemma DirectKept(bm: Bits, bm': Bits, d: Disk, d': Disk, blocks: seq<u32>, b: seq<u32>, content: seq<byte>)
    requires |blocks| == DIRECT && Allocated(bm, bm', blocks + b) && Kept(bm', d, d')
    requires forall k :: 0 <= k < DIRECT && blocks[k] != 0 ==> At(d, blocks[k]) == Chunk(content, k)
    ensures forall k :: 0 <= k < DIRECT && blocks[k] != 0 ==> At(d', blocks[k]) == Chunk(content, k)
  {
    hide Allocated, Kept, At, Chunk;
    forall k | 0 <= k < DIRECT && blocks[k] != 0
      ensures At(d', blocks[k]) == Chunk(content, k)
    {
      assert (blocks + b)[k] == blocks[k];
      LeafKept(bm, bm', d, d', blocks + b, k);
    }
  }

  lemma SingleKept(bm: Bits, bm': Bits, bm'': Bits, d: Disk, d': Disk, a: seq<u32>, list: u32, ptrs: seq<u32>,
                   more: seq<u32>,
                   content: seq<byte>)
    requires |a| == DIRECT && |ptrs| == PTRS && |more| > 0
    requires Allocated(bm, bm', a + ([list] + ptrs[..PTRS])) && Kept(bm', d, d') && Allocated(bm', bm'', more)
    requires Pointers(At(d, list)) == ptrs && (list == 0 ==> At(d, 0) == ZeroBlock())
    requires more[0] == 0 ==> At(d', 0) == ZeroBlock()
    requires forall k :: 0 <= k < PTRS && ptrs[k] != 0 ==> At(d, ptrs[k]) == Chunk(content, DIRECT + k)
    ensures list != 0 ==> Pointers(At(d', list)) == ptrs
    ensures list == 0 ==> At(d', 0) == ZeroBlock()
    ensures forall k :: 0 <= k < PTRS && ptrs[k] != 0 ==> At(d', ptrs[k]) == Chunk(content, DIRECT + k)
  {
    hide Allocated, Kept, At, Chunk, Pointers, ZeroBlock;
    var c := a + ([list] + ptrs[..PTRS]);
    assert c[12] == list;
    if list == 0 {
      assert more == [more[0]] + more[1..];
      assert 0 in c;
      FailedBefore(bm, bm', bm'', c, more[0], more[1..]);
    } else {
      LeafKept(bm, bm', d, d', c, 12);
    }
    forall k | 0 <= k < PTRS && ptrs[k] != 0
      ensures At(d', ptrs[k]) == Chunk(content, DIRECT + k)
    {
      assert c[13 + k] == ptrs[k];
      LeafKept(bm, bm', d, d', c, 13 + k);
    }
  }

  /**
    The caller's buffer after a read of a file that holds `content` and says it has `size` bytes: what there is of it,
      up to
    `maxSize` bytes, a NUL behind it if there is room for one, and the rest as it was.
   */
  ghost predicate Filled(was: seq<byte>, now: seq<byte>, content: seq<byte>, size: nat, maxSize: nat) {
    var m := if size < maxSize then size else maxSize;
    var n := if |content| < m then |content| else m;
    && |now| == |was| && n <= |now| && now[..n] == content[..n]
    && (0 < m && n < maxSize ==> n < |now| && now[n] == 0)
    && forall k :: n <= k < |now| && !(k == n && 0 < m && n < maxSize) ==> now[k] == was[k]
  }

  /** The inner copy loop: up to 1024 bytes of one block, never past byte `n` of the file. */
  method CopyChunk(stream: Block, dest: array<byte>, at: nat, n: nat) returns (i: nat)
    requires at < n <= dest.Length
    modifies dest
    ensures i == if n - at < BLOCK then n - at else BLOCK
    ensures dest[..] == old(dest[..at]) + stream[..i] + old(dest[at + i..])
  {
    i := 0;
    while i < BLOCK && at + i < n
      invariant 0 <= i <= BLOCK && at + i <= n
      invariant forall k :: 0 <= k < dest.Length ==> dest[k] == if at <= k < at + i then stream[k - at]
        else old(dest[k])
    {
      dest[at + i] := stream[i];
      i := i + 1;
    }
  }

  lemma {:induction false} ReadLength(d: Disk, ib: Slots, l: nat, n: nat)
    ensures |ReadFrom(d, ib, l, n)| <= if 1024 * l < n then n - 1024 * l else 0
    decreases n - 1024 * l
  {
    if 1024 * l < n {
      ReadLength(d, ib, l + 1, n);
    }
  }

  /** Reading fewer bytes delivers the front of what reading more would. */
  lemma {:induction false} ReadPrefix(d: Disk, ib: Slots, l: nat, m: nat, n: nat)
    requires m <= n
    ensures var c := ReadFrom(d, ib, l, n);
      var room := if 1024 * l < m then m - 1024 * l else 0;
      ReadFrom(d, ib, l, m) == c[..if |c| < room then |c| else room]
    decreases n - 1024 * l
  {
    hide Phys, At;
    if 1024 * l < m && Phys(d, ib, l) != 0 {
      var b: seq<byte> := At(d, Phys(d, ib, l));
      var i, j := if m - 1024 * l < BLOCK then m - 1024 * l else BLOCK, if n - 1024 * l < BLOCK then n - 1024 * l
        else BLOCK;
      ReadStep(d, ib, l, m, i);
      ReadStep(d, ib, l, n, j);
      ReadPrefix(d, ib, l + 1, m, n);
      if i < BLOCK {
        ReadEnd(d, ib, l + 1, m);
        assert b[..i] + [] == (b[..j] + ReadFrom(d, ib, l + 1, n))[..i];
      }
    }
  }

  lemma ReadStep(d: Disk, ib: Slots, l: nat, n: nat, i: nat)
    requires 1024 * l < n && Phys(d, ib, l) != 0 && i == (if n - 1024 * l < BLOCK then n - 1024 * l else BLOCK)
    ensures ReadFrom(d, ib, l, n) == At(d, Phys(d, ib, l))[..i] + ReadFrom(d, ib, l + 1, n)
  {
  }

  lemma ReadEnd(d: Disk, ib: Slots, l: nat, n: nat)
    requires 1024 * l >= n || Phys(d, ib, l) == 0
    ensures ReadFrom(d, ib, l, n) == []
  {
  }

  /** One turn of the copy loop on the caller's buffer. */
  lemma Streamed(before: seq<byte>, after: seq<byte>, was: seq<byte>, chunk: Block, loaded: nat, i: nat,
                 rest: seq<byte>, whole: seq<byte>)
    requires i <= BLOCK && loaded + i <= |before| == |was| && before[loaded..] == was[loaded..]
    requires after == before[..loaded] + chunk[..i] + before[loaded + i..]
    requires before[..loaded] + (chunk[..i] + rest) == whole
    ensures |after| == |was| && after[..loaded + i] + rest == whole && after[loaded + i..] == was[loaded + i..]
  {
    assert after[..loaded + i] == before[..loaded] + chunk[..i];
    assert before[loaded + i..] == before[loaded..][i..];
    assert was[loaded + i..] == was[loaded..][i..];
  }

  // ----- creating a file -----

  /** What the caller passes as `data`: a buffer, or NULL for a file full of zeros. */
  datatype Source = Null | Bytes(s: seq<byte>)

  /** Size of the file made for a request: a request of 0 makes 1 byte, and the tree's reach is the upper limit. */
  function FileSize(request: nat): (r: nat)
    ensures 0 < r <= MAX_SIZE
  {
    if request == 0 then 1 else if request > MAX_SIZE then MAX_SIZE else request
  }

  /** The bytes the new file is to hold. */
  function Wanted(data: Source, size: nat): (c: seq<byte>)
    ensures data.Null? || size <= |data.s| ==> |c| == size
  {
    if data.Bytes? && size <= |data.s| then data.s[..size] else seq(size, _ => 0)
  }

  lemma NeededBound(size: nat)
    requires size <= MAX_SIZE
    ensures Needed(BlocksFor(size)) <= 66063
  {
  }

  /** `new_file_inode`: the size, one link, and `i_blocks` counting two sectors per block, pointer blocks included. */
  function FileNode(size: nat, ib: Slots): Inode {
    if size <= MAX_SIZE then
      NeededBound(size);
      Inode(FILE_MODE, size, 1, 2 * Needed(BlocksFor(size)), ib)
    else BlankInode()
  }

  /** The parent directory and the slot that write and mkdir work with. */
  function ParentDir(v: Vol, path: seq<byte>): nat {
    if SplitOf(path).Split? then Resolve(v, SplitOf(path).parent) else 0
  }

  function SlotOf(v: Vol, d: nat): nat {
    SlotFrom(Records(DirBlk(v, d)), 0, 0)
  }

  /** The new record would stay inside the 1024-byte buffer; the code relies on this without checking it. */
  predicate InsertSafe(v: Vol, path: seq<byte>) {
    var d := ParentDir(v, path);
    SplitOf(path).Split? && d != 0 && IsDir(v, d) && SlotOf(v, d) != 0 && Lookup(DirBlk(v, d), SplitOf(path).name) == 0
    ==> InBuffer(DirBlk(v, d), SlotOf(v, d), SplitOf(path).name)
  }

  /** What storing a file did: one entry, one inode, and the tree over the blocks `a`. */
  ghost predicate Stored(v: Vol, v': Vol, live: set<nat>, d: nat, p: nat, n: Name, content: seq<byte>, ino: u32,
                         a: seq<u32>) {
    && |content| <= MAX_SIZE
    && Added(v, v', live, d, p, n, ino, 1, FileNode(|content|, Node(v', ino).block), a)
    && TreeBuilt(v.blockMap, v'.blockMap, v'.disk, Node(v', ino).block, a, content)
  }

  /** Everything a write returns and changes, case by case. */
  ghost predicate WriteOutcome(v: Vol, v': Vol, live: set<nat>, live': set<nat>, path: seq<byte>, content: seq<byte>,
                               r: int, ino: u32, a: seq<u32>) {
    var s, d := SplitOf(path), ParentDir(v, path);
    if s.NoSplit? then r == 0 && v' == v && live' == live
    else if d == 0 || !IsDir(v, d) then r == -2 && v' == v && live' == live
    else if s.name in Ents(v, d) then r == -1 && v' == v && live' == live
    else if SlotOf(v, d) == 0 then r == 0 && v' == v && live' == live
    else if Full(v.nodeMap) then r == 0 && Leaked(v, v', a) && live' == live
    else
      && r == 1 && Stored(v, v', live, d, SlotOf(v, d), s.name, content, ino, a)
      && live' == if Reaches(v, d, SlotOf(v, d), s.name) then live + {ino as nat} else live
  }

  lemma DirBlockUsed(v: Vol, live: set<nat>, d: nat)
    requires Sound(v, live) && Dir(v, live, d)
    ensures 1 <= DirNum(v, d) < |v.disk| && Bit(v.blockMap, DirNum(v, d) - 1)
  {
    hide TreeSound, Acyclic, DirWell, Own, IsDir;
    DirOwnsBlock(v, live, d);
    LiveOwnsWell(v, live, d);
  }

  lemma TreePut(v: Vol, bm': Bits, d1: Disk, db: nat, block: Block, ib: Slots, a: seq<u32>, content: seq<byte>)
    requires TreeBuilt(v.blockMap, bm', d1, ib, a, content) && 1 <= db < |d1| && Bit(v.blockMap, db - 1)
    ensures TreeBuilt(v.blockMap, bm', d1[db := block], ib, a, content)
  {
    hide Bit, IsTree, TrashZeroed, LeavesDone;
    TreeMoved(v.blockMap, bm', d1, d1[db := block], ib, a, content);
  }

  lemma WriteAdds(v: Vol, v': Vol, live: set<nat>, d: nat, p: nat, n: Name, ino: u32, node: Inode, a: seq<u32>,
                  content: seq<byte>, d1: Disk)
    requires Sound(v, live) && Dir(v, live, d) && InBuffer(DirBlk(v, d), p, n)
    requires TreeBuilt(v.blockMap, v'.blockMap, d1, node.block, a, content) && Kept(v.blockMap, v.disk, d1)
    requires v'.first == v.first && ino != 0 && Taken(v.nodeMap, v'.nodeMap, ino)
    requires ino <= |v.inodes| && v'.inodes == v.inodes[ino - 1 := node]
    requires DirNum(v, d) < |d1|
    requires v'.disk == d1[DirNum(v, d) := WriteBack(d1[DirNum(v, d)], Insert(DirBlk(v, d), p, ino, n, 1))]
    ensures Added(v, v', live, d, p, n, ino, 1, node, a)
    ensures TreeBuilt(v.blockMap, v'.blockMap, v'.disk, node.block, a, content)
  {
    hide Sound, Insert, WriteBack, InBuffer, TreeBuilt, NoDup, Taken, Owned, IsDir, Bit;
    DirBlockUsed(v, live, d);
    TreePut(v, v'.blockMap, d1, DirNum(v, d), WriteBack(d1[DirNum(v, d)], Insert(DirBlk(v, d), p, ino, n, 1)),
      node.block, a, content);
    BuiltOwned(v.blockMap, v'.blockMap, v'.disk, node.block, a, content);
    BuiltAllocated(v.blockMap, v'.blockMap, v'.disk, node.block, a, content);
  }

  lemma BuiltAllocated(bm: Bits, bm': Bits, d: Disk, ib: Slots, a: seq<u32>, content: seq<byte>)
    requires TreeBuilt(bm, bm', d, ib, a, content)
    ensures Allocated(bm, bm', a)
  {
  }

  /** What the scan of the parent directory establishes. */
  lemma ParentFacts(v: Vol, live: set<nat>, parent: seq<byte>, d: nat, n: Name)
    requires Sound(v, live) && d == Resolve(v, parent) && d != 0 && IsDir(v, d)
    ensures Dir(v, live, d) && WellFormed(DirBlk(v, d))
    ensures Find(Records(DirBlk(v, d)), 0, 0, n).Hit? <==> n in Ents(v, d)
    ensures Lookup(DirBlk(v, d), n) == 0 <==> n !in Ents(v, d)
  {
    hide BlocksSound, TreeSound, Acyclic, Resolve, Records;
    ResolveLive(v, live, parent);
    assert DirWell(v, live, d);
    FindIsLookup(Records(DirBlk(v, d)), 0, 0, n);
    LookupIsMap(DirBlk(v, d), n);
    NamesNonZero(v, live, d, n);
  }

  lemma NamesNonZero(v: Vol, live: set<nat>, d: nat, n: Name)
    requires Sound(v, live) && Dir(v, live, d)
    ensures n in Ents(v, d) ==> Ents(v, d)[n] != 0
  {
    hide TreeSound, Acyclic, Ents;
    assert DirWell(v, live, d);
    assert n in Ents(v, d) ==> InTable(v, Ents(v, d)[n]);
  }

  lemma SoundReady(v: Vol, live: set<nat>)
    requires Sound(v, live)
    ensures |v.blockMap| % 512 == 0 && Padded(v.blockMap, v.disk) && |v.nodeMap| == 512
  {
  }

  lemma InodesFull(v: Vol, v': Vol, a: seq<u32>, live: set<nat>, ib: Slots, content: seq<byte>, nm: Bits)
    requires Sound(v, live) && v'.first == v.first && v'.inodes == v.inodes && Kept(v.blockMap, v.disk, v'.disk)
    requires TreeBuilt(v.blockMap, v'.blockMap, v'.disk, ib, a, content) && nm == v.nodeMap && Taken(nm, v'.nodeMap, 0)
    ensures Leaked(v, v', a) && Full(v'.nodeMap) && Sound(v', live)
  {
    hide Sound, Bit;
    BuiltAllocated(v.blockMap, v'.blockMap, v'.disk, ib, a, content);
    LeakedSound(v, v', live, a);
  }

  lemma FullIff(nm: Bits, nm': Bits, ino: u32)
    requires Taken(nm, nm', ino)
    ensures ino == 0 <==> Full(nm)
  {
    hide Bit;
  }

  lemma OldNode(v: Vol, v': Vol, live: set<nat>, d: nat, ino: u32, node: Inode)
    requires Sound(v, live) && d in live && ino != 0 && ino - 1 < |v.inodes| && Taken(v.nodeMap, v'.nodeMap, ino)
    requires v'.inodes == v.inodes[ino - 1 := node]
    ensures Node(v', d) == Node(v, d)
  {
    hide Bit, TreeSound, Acyclic, OwnsWell, Disjoint, Shape;
    assert d != ino;
  }

  lemma NewInode(v: Vol, live: set<nat>, nm: Bits, nm': Bits, ino: u32)
    requires Sound(v, live) && nm == v.nodeMap && ino != 0 && Taken(nm, nm', ino)
    ensures ino <= |v.inodes|
  {
    hide Bit, TreeSound, Acyclic, OwnsWell, Disjoint;
    var n: nat := ino - 1;
    assert !Bit(v.nodeMap, n);
  }

  // ----- copying a file -----

  /** Blocks the copy loop counts for a size: the sum is a 32-bit one. */
  function BlocksCopied(size: u32): nat {
    (size + 1023) % 0x1_0000_0000 / 1024
  }

  /** The volume after the copy loop ran between inodes `s` and `t` of `w`. */
  function AfterCopy(w: Vol, s: nat, t: nat): Vol {
    w.(disk := Copied(w.disk, Node(w, s).block, Node(w, t).block, 0, BlocksCopied(Node(w, s).size)))
  }

  /**
    Everything a copy returns and changes, case by case; `w` is the volume right after the file of zeros was written.
   */
  ghost predicate CopyOutcome(v: Vol, w: Vol, v': Vol, live: set<nat>, live': set<nat>, src: seq<byte>, dest: seq<byte>,
                              busy: bool,
                              r: int, ino: u32, a: seq<u32>) {
    var i := Resolve(v, src);
    if busy then r == -6 && v' == v && live' == live
    else if i == 0 || !IsFile(v, i) then r == -3 && v' == v && live' == live
    else if Node(v, i).size == 0 then r == -4 && v' == v && live' == live
    else
      && WriteOutcome(v, w, live, live', dest, Wanted(Null, FileSize(Node(v, i).size)), r, ino, a)
      && v' == if r == 1 then AfterCopy(w, i, Resolve(w, dest)) else w
  }

  /** No write, whatever it returns, changes the size of a live inode. */
  lemma SourceStays(v: Vol, w: Vol, live: set<nat>, live': set<nat>, path: seq<byte>, content: seq<byte>, ino: u32,
                    a: seq<u32>, i: nat)
    requires Sound(v, live) && WriteOutcome(v, w, live, live', path, content, 1, ino, a) && i in live
    ensures Node(w, i) == Node(v, i)
  {
    hide SplitOf, Ents, IsDir, TreeBuilt, EntryPut, Reaches, Full, Sound, Node, FileNode, Allocated, Owned, NoDup,
      ParentDir, SlotOf, Taken;
    assert Stored(v, w, live, ParentDir(v, path), SlotOf(v, ParentDir(v, path)), SplitOf(path).name, content, ino, a);
    NodeStays(v, w, live, ino, i);
  }

  lemma NodeStays(v: Vol, w: Vol, live: set<nat>, ino: u32, i: nat)
    requires Sound(v, live) && ino != 0 && ino - 1 < |v.inodes| && Taken(v.nodeMap, w.nodeMap, ino) && i in live
    requires |w.inodes| == |v.inodes| && forall k :: 0 <= k < |v.inodes| && k != ino - 1 ==> w.inodes[k] == v.inodes[k]
    ensures Node(w, i) == Node(v, i)
  {
    hide Bit, TreeSound, Acyclic, OwnsWell, Disjoint, Shape;
    assert InTable(v, i);
    assert i != ino;
  }

  // ----- creating a directory -----

  function DirNode(b: u32): Inode {
    Inode(DIR_MODE, 1024, 2, 2, [b, 0, 0, 0, 0, 0, 0, 0, 0, 0, 0, 0, 0, 0, 0])
  }

  lemma DirNodeOwns(d: Disk, b: u32)
    requires b != 0
    ensures Owned(d, DirNode(b).block) == [b]
  {
    var ib := DirNode(b).block;
    NonZeroAppend([b], ib[1..12]);
    assert ib[..12] == [b] + ib[1..12];
    NonZeroOfZeros(ib[1..12]);
    NonZeroOne(b);
  }

  /** What making a directory did: one entry, one inode, and one block with "." and "..". */
  ghost predicate Made(v: Vol, v': Vol, live: set<nat>, d: nat, p: nat, n: Name, ino: u32, b: u32) {
    && b != 0 && 0 < d < 0x1_0000_0000
    && Added(v, v', live, d, p, n, ino, 2, DirNode(b), [b])
    && At(v'.disk, b) == FreshDir(ino, d)
  }

  /** Everything a mkdir returns and changes, case by case. */
  ghost predicate MkdirOutcome(v: Vol, v': Vol, live: set<nat>, live': set<nat>, path: seq<byte>, r: int, ino: u32,
                               b: u32) {
    var s, d := SplitOf(path), ParentDir(v, path);
    if s.NoSplit? then r == 0 && v' == v && live' == live
    else if d == 0 || !IsDir(v, d) then r == -2 && v' == v && live' == live
    else if s.name in Ents(v, d) then r == -1 && v' == v && live' == live
    else if SlotOf(v, d) == 0 then r == 0 && v' == v && live' == live
    else if Full(v.nodeMap) || Full(v.blockMap) then r == 0 && Leaked(v, v', [b]) && live' == live
    else
      && r == 1 && Made(v, v', live, d, SlotOf(v, d), s.name, ino, b)
      && live' == if Reaches(v, d, SlotOf(v, d), s.name) then live + {ino as nat} else live
  }

  lemma MkdirLeaks(v: Vol, v': Vol, ino: u32, b: u32)
    requires v'.first == v.first && v'.inodes == v.inodes && v'.disk == v.disk
    requires Taken(v.blockMap, v'.blockMap, b) && Taken(v.nodeMap, v'.nodeMap, ino)
    ensures Leaked(v, v', [b])
  {
    hide Bit, Full;
    OneTaken(v.blockMap, v'.blockMap, b);
    if ino != 0 {
      SetBitEffect(v.nodeMap, ino - 1);
    }
  }

  lemma OneTaken(bm: Bits, bm': Bits, b: u32)
    requires Taken(bm, bm', b)
    ensures Allocated(bm, bm', [b])
  {
    hide Bit, Taken;
    AllocatedNone(bm);
    AllocatedStep(bm, bm, bm', [], b);
    assert [] + [b] == [b];
  }

  lemma MkdirAdds(v: Vol, v': Vol, live: set<nat>, d: nat, p: nat, n: Name, ino: u32, b: u32)
    requires Sound(v, live) && Dir(v, live, d) && InBuffer(DirBlk(v, d), p, n) && 0 < d < 0x1_0000_0000
    requires v'.first == v.first && ino != 0 && Taken(v.nodeMap, v'.nodeMap, ino)
    requires b != 0 && b < |v.disk| && Taken(v.blockMap, v'.blockMap, b)
    requires ino <= |v.inodes| && v'.inodes == v.inodes[ino - 1 := DirNode(b)]
    requires DirNum(v, d) < |v.disk|
    requires v'.disk == v.disk[b := FreshDir(ino, d)]
               [DirNum(v, d) := WriteBack(v.disk[b := FreshDir(ino, d)][DirNum(v, d)],
                 Insert(DirBlk(v, d), p, ino, n, 2))]
    ensures Made(v, v', live, d, p, n, ino, b)
  {
    hide Sound, Insert, WriteBack, InBuffer, FreshDir, Owned, IsDir, Bit, Node;
    DirBlockUsed(v, live, d);
    OneTaken(v.blockMap, v'.blockMap, b);
    DirNodeOwns(v'.disk, b);
    assert !Bit(v.blockMap, b - 1) && b != DirNum(v, d);
  }

  lemma FreshInRange(v: Vol, live: set<nat>, bm': Bits, b: u32)
    requires Sound(v, live) && Taken(v.blockMap, bm', b)
    ensures b < |v.disk|
  {
    hide Bit, TreeSound, Acyclic, OwnsWell, Disjoint;
    if b != 0 {
      var n: nat := b - 1;
      assert !Bit(v.blockMap, n);
    }
  }

  // ----- deleting -----

  lemma InBitmapParts(bm: Bits, s: seq<u32>, t: seq<u32>)
    requires InBitmap(bm, s + t)
    ensures InBitmap(bm, s) && InBitmap(bm, t)
  {
    assert forall x: u32 :: x in s || x in t ==> x in s + t;
  }

  lemma InBitmapList(bm: Bits, s: seq<u32>)
    requires InBitmap(bm, NonZero(s))
    ensures forall k :: 0 <= k < |s| ==> s[k] <= 8 * |bm|
  {
    hide NonZero;
    forall k | 0 <= k < |s|
      ensures s[k] <= 8 * |bm|
    {
      InNonZero(s, s[k]);
    }
  }

  lemma InBitmapSub(bm: Bits, d: Disk, ms: seq<u32>, m: u32)
    requires InBitmap(bm, Subs(d, ms)) && m in ms && m != 0
    ensures InBitmap(bm, NonZero(Pointers(At(d, m)))) && m <= 8 * |bm|
  {
    hide NonZero, Pointers, At;
    forall x: u32 | x in Leaves(d, m)
      ensures x <= 8 * |bm|
    {
      InSubs(d, ms, m, x);
    }
    assert m in Leaves(d, m);
    InBitmapParts(bm, NonZero(Pointers(At(d, m))), [m]);
  }

  /** The record that the one-sector scan of delete and rmdir finds, and the inode it names. */
  function Seen(v: Vol, d: nat, n: Name): Search {
    Find(Records(FirstSector(DirBlk(v, d))), 0, 0, n)
  }

  /** Everything a delete returns and changes, case by case. */
  ghost predicate DeleteOutcome(v: Vol, v': Vol, live: set<nat>, live': set<nat>, path: seq<byte>, r: int) {
    var s, d := SplitOf(path), ParentDir(v, path);
    if s.NoSplit? || d == 0 || !IsDir(v, d) || Seen(v, d, s.name).Miss? then r == 0 && v' == v && live' == live
    else if s.name !in Ents(v, d) then false
    else
      var t := Ents(v, d)[s.name];
      if IsDir(v, t) then r == -1 && v' == v && live' == live
      else r == 1 && Removed(v, v', live, d, s.name, t, {t as nat}) && live' == live - {t as nat}
  }

  /** What a hit in the first sector means. */
  lemma SeenFacts(v: Vol, live: set<nat>, parent: seq<byte>, d: nat, n: Name)
    requires Sound(v, live) && d == Resolve(v, parent) && d != 0 && IsDir(v, d) && ValidName(n) && Seen(v, d, n).Hit?
    ensures Dir(v, live, d) && n in Ents(v, d) && Ents(v, d)[n] in live
    ensures var h, b := Seen(v, d, n), DirBlk(v, d);
      && WellFormed(b) && h.at + 8 + |n| <= SECTOR && IsStart(Records(b), 0, h.at) && Records(b)[h.at].Rec? &&
           Records(b)[h.at].name == n
      && Read32(FirstSector(b), h.at) == Ents(v, d)[n]
      && (h.at != 0 ==> IsStart(Records(b), 0, h.prev) && h.prev + 8 <= h.at && h.prev + Read16(b, h.prev + 4) == h.at)
      && (h.at == 0 ==> n == [DOT] && h.prev == 0)
  {
    hide BlocksSound, TreeSound, Acyclic, Resolve, RecAt, Read16, Read32;
    var b := DirBlk(v, d);
    ParentFacts(v, live, parent, d, n);
    assert DirWell(v, live, d);
    DeleteSees(b, 0, 0, n);
    FindIsLookup(Records(b), 0, 0, n);
    FoundInode(b, n);
    var h := Find(Records(b), 0, 0, n);
    HeaderInSector(b, FirstSector(b), h.at);
    if h.at != 0 {
      StartInChain(Records(b), 0, h.prev);
      GoodBytes(b, h.prev);
    }
  }

  lemma SeenInBlock(v: Vol, live: set<nat>, parent: seq<byte>, d: nat, n: Name)
    requires Sound(v, live) && d == Resolve(v, parent) && d != 0 && IsDir(v, d) && ValidName(n) && Seen(v, d, n).Hit?
    ensures Seen(v, d, n).at + 8 <= BLOCK && Seen(v, d, n).prev + 8 <= BLOCK
  {
    hide Sound, Resolve, IsDir, Ents, WellFormed, Records, RecAt, Read32, Read16, FirstSector, Seen, Find;
    SeenFacts(v, live, parent, d, n);
  }

  lemma FirstRecord(v: Vol, live: set<nat>, d: nat)
    requires Sound(v, live) && Dir(v, live, d)
    ensures Records(DirBlk(v, d))[0].Rec?
  {
    hide BlocksSound, TreeSound, Acyclic, Ents, WellFormed;
    assert DirWell(v, live, d);
  }

  /** Clearing bits leaves directories as they are. */
  lemma BitmapsOnly(v1: Vol, v2: Vol, v: Vol, d: nat)
    requires v2.disk == v1.disk && v2.inodes == v1.inodes
    ensures DirBlk(v2, d) == DirBlk(v1, d) && Ents(v2, d) == Ents(v1, d)
    ensures KeptBut(v, v1, DirNum(v, d)) ==> KeptBut(v, v2, DirNum(v, d))
  {
    hide WellFormed;
  }

  lemma DotsAreDirs(v: Vol, live: set<nat>, d: nat, n: Name)
    requires Sound(v, live) && Dir(v, live, d) && n in Ents(v, d) && IsDots(n)
    ensures IsDir(v, Ents(v, d)[n])
  {
    hide BlocksSound, Acyclic, Ents;
    assert DirWell(v, live, d);
    if n == [DOT, DOT] && d != ROOT {
      assert Holds(v, live, ParentOf(v, d), d);
    }
  }

  lemma LeafSubtree(v: Vol, live: set<nat>, t: nat)
    requires t in live && !IsDir(v, t)
    ensures Subtree(v, live, t, {t})
  {
    hide Ents, IsDir;
  }

  /** The edited directory block, as it ends up on disk. */
  lemma UnlinkedDir(v: Vol, v': Vol, live: set<nat>, parent: seq<byte>, d: nat, n: Name)
    requires Sound(v, live) && d == Resolve(v, parent) && d != 0 && IsDir(v, d) && ValidName(n) && Seen(v, d, n).Hit?
    requires n in Ents(v, d) && n != [DOT] && v'.inodes == v.inodes
    requires 1 <= DirNum(v, d) < |v.disk| && Seen(v, d, n).prev + 8 <= BLOCK && Seen(v, d, n).at + 8 <= BLOCK
    requires v'.disk == v.disk[DirNum(v, d) :=
               WriteBack(DirBlk(v, d), Unlink(FirstSector(DirBlk(v, d)), Seen(v, d, n).prev, Seen(v, d, n).at))]
    ensures WellFormed(DirBlk(v', d)) && Ents(v', d) == Ents(v, d) - {n} && Records(DirBlk(v', d))[0].Rec?
    ensures Records(DirBlk(v', d))[0].name == Records(DirBlk(v, d))[0].name
    ensures KeptBut(v, v', DirNum(v, d)) && SameTail(DirBlk(v, d), DirBlk(v', d))
  {
    hide Sound, Resolve, IsDir, Node, WriteBack, Unlink, FirstSector, RecAt, Read16, Read32;
    SeenFacts(v, live, parent, d, n);
    var b, h := DirBlk(v, d), Seen(v, d, n);
    UnlinkFirstSector(b, h.prev, h.at);
    SameNode(v, v', d);
    WriteBackTail(b, Unlink(FirstSector(b), h.prev, h.at));
    assert DirBlk(v', d) == Unlink(b, h.prev, h.at);
    UnlinkRefines(b, h.prev, h.at);
    UnlinkKeepsFirst(b, h.prev, h.at);
  }

  lemma SameNode(v: Vol, v': Vol, d: nat)
    requires v'.inodes == v.inodes
    ensures Node(v', d) == Node(v, d)
  {
  }

  lemma FreedLength(bm: Bits, bm': Bits, f: seq<u32>)
    ensures Freed(bm, bm', f) ==> |bm'| == |bm|
  {
  }

  lemma NoSubs(d: Disk)
    ensures Subs(d, []) == []
  {
  }

  lemma SameBound(bm: Bits, bm': Bits, s: seq<u32>)
    requires InBitmap(bm, s) && |bm'| == |bm|
    ensures InBitmap(bm', s)
  {
  }

  lemma BoundedParts(bm: Bits, d: Disk, ib: Slots)
    requires InBitmap(bm, Owned(d, ib))
    ensures InBitmap(bm, NonZero(ib[..12]))
    ensures ib[12] != 0 ==> ib[12] <= 8 * |bm| && InBitmap(bm, NonZero(Pointers(At(d, ib[12]))))
    ensures ib[13] != 0 ==> ib[13] <= 8 * |bm| && InBitmap(bm, Subs(d, Pointers(At(d, ib[13]))))
  {
    hide NonZero, Pointers, At, Subs, InBitmap;
    InBitmapParts(bm, NonZero(ib[..12]) + OwnedSingle(d, ib[12]), OwnedDouble(d, ib[13]));
    InBitmapParts(bm, NonZero(ib[..12]), OwnedSingle(d, ib[12]));
    if ib[12] != 0 {
      InBitmapParts(bm, NonZero(Pointers(At(d, ib[12]))), [ib[12]]);
      InBitmapOne(bm, ib[12]);
    }
    if ib[13] != 0 {
      InBitmapParts(bm, Subs(d, Pointers(At(d, ib[13]))), [ib[13]]);
      InBitmapOne(bm, ib[13]);
    }
  }

  lemma InBitmapOne(bm: Bits, x: u32)
    requires InBitmap(bm, [x])
    ensures x <= 8 * |bm|
  {
    assert x in [x];
  }

  /** After the directory edit, the target still owns what it owned, all of it inside the bitmap. */
  lemma FreeReady(v: Vol, v': Vol, live: set<nat>, d: nat, t: nat)
    requires Sound(v, live) && Dir(v, live, d) && KeptBut(v, v', DirNum(v, d)) && t in live
    requires v'.inodes == v.inodes && v'.blockMap == v.blockMap && v'.nodeMap == v.nodeMap
    ensures Own(v', t) == Own(v, t) && InBitmap(v'.blockMap, Own(v', t)) && 1 <= t <= 8 * |v'.nodeMap|
  {
    hide TreeSound, Acyclic, DirWell, Own, IsDir, NoDup, Bit;
    SameNode(v, v', t);
    OwnKept(v, v', live, d, t);
    LiveOwnsWell(v, live, t);
    forall x: u32 | x in Own(v, t)
      ensures x <= 8 * |v.blockMap|
    {
      assert Bit(v.blockMap, x - 1);
      BitInRange(v.blockMap, x - 1);
    }
  }

  lemma FileRemoved(v: Vol, v': Vol, live: set<nat>, d: nat, n: Name, t: nat)
    requires Dir(v, live, d) && n in Ents(v, d) && !IsDots(n) && Ents(v, d)[n] == t
    requires v'.first == v.first && v'.inodes == v.inodes && KeptBut(v, v', DirNum(v, d))
    requires WellFormed(DirBlk(v', d)) && Ents(v', d) == Ents(v, d) - {n} && Records(DirBlk(v', d))[0].Rec?
    requires Records(DirBlk(v, d))[0].Rec? && Records(DirBlk(v', d))[0].name == Records(DirBlk(v, d))[0].name
    requires SameTail(DirBlk(v, d), DirBlk(v', d))
    requires BlocksFreed(v, v.blockMap, v'.blockMap, {t}) && NodesFreed(v.nodeMap, v'.nodeMap, {t})
    requires Subtree(v, live, t, {t})
    ensures Removed(v, v', live, d, n, t, {t})
  {
    hide Ents, WellFormed, Records, BlocksFreed, Subtree, KeptBut;
  }

  lemma BelowHas(w: Vol, i: nat, gone: set<nat>)
    requires Below(w, i, gone)
    ensures i in gone
  {
  }

  lemma ForestNone(w: Vol, i: nat)
    requires Below(w, i, {i})
    ensures Below(w, i, {} + {i})
  {
    assert {} + {i} == {i};
  }

  // ----- removing a directory -----

  /** Everything an rmdir returns and changes, case by case. */
  ghost predicate RmdirOutcome(v: Vol, v': Vol, live: set<nat>, live': set<nat>, path: seq<byte>, r: int,
                               gone: set<nat>) {
    var s, d := SplitOf(path), ParentDir(v, path);
    if s.NoSplit? || d == 0 || !IsDir(v, d) || Seen(v, d, s.name).Miss? then r == 0 && v' == v && live' == live
    else if s.name !in Ents(v, d) then false
    else
      var t := Ents(v, d)[s.name];
      if !IsDir(v, t) then r == -1 && v' == v && live' == live
      else
        && r == 1 && live' == live - gone
        && if IsDots(s.name) then Gutted(v, v', live, d, s.name, t, gone) else Removed(v, v', live, d, s.name, t, gone)
  }

  /** Clearing the very first record, which only happens for the name ".". */
  lemma DotEdited(v: Vol, v1: Vol, live: set<nat>, d: nat)
    requires Sound(v, live) && Dir(v, live, d) && v1.inodes == v.inodes && v1.blockMap == v.blockMap
    requires 1 <= DirNum(v, d) < |v.disk|
    requires v1.disk == v.disk[DirNum(v, d) := WriteBack(DirBlk(v, d), Unlink(FirstSector(DirBlk(v, d)), 0, 0))]
    ensures Edited(v, v1, d) && SameTail(DirBlk(v, d), DirBlk(v1, d)) && Read32(DirBlk(v1, d), 0) == 0
  {
    hide Sound, IsDir, Node, WellFormed;
    SameNode(v, v1, d);
    WriteBackTail(DirBlk(v, d), Unlink(FirstSector(DirBlk(v, d)), 0, 0));
    assert Read32(DirBlk(v1, d), 0) == 0;
    BlankFirst(DirBlk(v1, d));
  }

  lemma NameEdited(v: Vol, v1: Vol, d: nat, n: Name)
    requires v1.inodes == v.inodes && v1.blockMap == v.blockMap && KeptBut(v, v1, DirNum(v, d))
    requires WellFormed(DirBlk(v1, d)) && Ents(v1, d) == Ents(v, d) - {n}
    ensures Edited(v, v1, d)
  {
    hide WellFormed, KeptBut, DirBlk, DirNum;
  }

  lemma TreeRemoved(v: Vol, v1: Vol, v': Vol, live: set<nat>, d: nat, n: Name, t: nat, depth: map<nat, nat>, bound: nat,
                    gone: set<nat>)
    requires Sound(v, live) && Dir(v, live, d) && n in Ents(v, d) && !IsDots(n) && Ents(v, d)[n] == t
    requires Edited(v, v1, d) && Ents(v1, d) == Ents(v, d) - {n} && WellFormed(DirBlk(v1, d))
    requires Records(DirBlk(v1, d))[0].Rec?
    requires Records(DirBlk(v, d))[0].Rec? && Records(DirBlk(v1, d))[0].name == Records(DirBlk(v, d))[0].name
    requires SameTail(DirBlk(v, d), DirBlk(v1, d))
    requires Ranked(v, live, depth) && Wipeable(v1, live, depth, bound) && Below(v1, t, gone) && gone <= live
    requires v'.first == v.first && v'.inodes == v1.inodes && v'.disk == v1.disk
    requires BlocksFreed(v1, v.blockMap, v'.blockMap, gone) && NodesFreed(v.nodeMap, v'.nodeMap, gone)
    ensures Removed(v, v', live, d, n, t, gone)
  {
    hide Sound, IsDir, Node, WellFormed, Ents, Records, Ranked, Wipeable, Below, Subtree, BlocksFreed, NodesFreed,
      KeptBut;
    WipedSubtree(v, v1, live, d, n, t, depth, bound, gone);
    SameOwned(v, v1, live, d, gone, v.blockMap, v'.blockMap);
    BitmapsOnly(v1, v', v, d);
  }

  lemma DotsGutted(v: Vol, v1: Vol, v': Vol, live: set<nat>, d: nat, n: Name, t: nat, depth: map<nat, nat>, bound: nat,
                   gone: set<nat>)
    requires Sound(v, live) && Dir(v, live, d) && Edited(v, v1, d) && IsDots(n) && n in Ents(v, d) && Ents(v, d)[n] == t
    requires SameTail(DirBlk(v, d), DirBlk(v1, d)) && (n == [DOT] ==> Read32(DirBlk(v1, d), 0) == 0)
    requires n != [DOT] ==> WellFormed(DirBlk(v1, d)) && Ents(v1, d) == Ents(v, d) - {n}
    requires Ranked(v, live, depth) && Wipeable(v1, live, depth, bound) && Below(v1, t, gone) && gone <= live
    requires v'.first == v.first && v'.inodes == v1.inodes && v'.disk == v1.disk
    requires BlocksFreed(v1, v.blockMap, v'.blockMap, gone) && NodesFreed(v.nodeMap, v'.nodeMap, gone)
    ensures Gutted(v, v', live, d, n, t, gone)
  {
    hide Sound, IsDir, Node, WellFormed, Ents, Records, Ranked, Wipeable, Below, Subtree, BlocksFreed, NodesFreed,
      KeptBut, Read32, SameTail;
    if n == [DOT] {
      DotTarget(v, live, d);
      BlankWiped(v1, live, d, depth, bound, gone);
    } else {
      DotsSubtree(v, v1, live, d, n, t, depth, bound, gone);
    }
    BelowHas(v1, t, gone);
    SameOwned(v, v1, live, d, gone, v.blockMap, v'.blockMap);
    BitmapsOnly(v1, v', v, d);
  }

  /**
    An rmdir that goes through keeps the volume sound exactly when the last name of the path is neither "." nor "..".
   */
  lemma RmdirSoundIff(v: Vol, v': Vol, live: set<nat>, live': set<nat>, path: seq<byte>, gone: set<nat>)
    requires Sound(v, live) && RmdirOutcome(v, v', live, live', path, 1, gone)
    ensures Sound(v', live') <==> !IsDots(SplitOf(path).name)
    ensures Unsound(v') <==> IsDots(SplitOf(path).name)
  {
    hide Sound, IsDir, Ents, SplitOf, ParentDir, Seen, Removed, Gutted, IsDots;
    var d, n := ParentDir(v, path), SplitOf(path).name;
    if IsDots(n) {
      DotsBreak(v, v', live, d, n, Ents(v, d)[n], gone);
    } else {
      RemovedSound(v, v', live, d, n, Ents(v, d)[n], gone);
    }
  }

  lemma DotIsDots(n: Name)
    ensures n == [DOT] ==> IsDots(n)
  {
  }

  lemma HitNotFirst(v: Vol, live: set<nat>, parent: seq<byte>, d: nat, n: Name)
    requires Sound(v, live) && d == Resolve(v, parent) && d != 0 && IsDir(v, d) && ValidName(n) && Seen(v, d, n).Hit?
    requires Seen(v, d, n).at != 0
    ensures n != [DOT]
  {
    hide BlocksSound, TreeSound, Acyclic, Resolve, RecAt, Read32, FirstSector, Records;
    SeenFacts(v, live, parent, d, n);
    assert DirWell(v, live, d);
    FirstIsDot(DirBlk(v, d), Seen(v, d, n).at, n);
  }

  lemma FirstIsDot(b: Block, at: nat, n: Name)
    requires WellFormed(b) && Records(b)[0].Rec? && Records(b)[0].name == [DOT]
    requires IsStart(Records(b), 0, at) && at != 0 && at < BLOCK && Records(b)[at].Rec? && Records(b)[at].name == n
    ensures n != [DOT]
  {
    hide RecAt, Records;
    if n == [DOT] {
      StartInChain(Records(b), 0, at);
      NamesAreUnique(Records(b), 0, 0, at);
    }
  }

  lemma RankOf(v: Vol, live: set<nat>) returns (depth: map<nat, nat>)
    requires Sound(v, live)
    ensures Ranked(v, live, depth) && forall i: nat :: i in live ==> i in depth
  {
    hide BlocksSound, TreeSound, DirWell;
    depth :| Ranked(v, live, depth);
  }

  lemma NextComponent(path: seq<byte>, i: nat, t: nat)
    requires i < t <= |path| && t - i <= MAX_PATH && forall k :: i <= k < t ==> path[k] != SLASH
    requires t == |path| || path[t] == SLASH || t - i == MAX_PATH
    ensures Components(path, i) == [path[i..t]] + Components(path, t)
  {
    EndOfIsSlash(path, i, i + 1, t);
  }

  /** The scan of one directory block for a name: its inode number, or 0. */
  method LookupIn(buf: array<byte>, n: Name) returns (i: u32)
    requires buf.Length == BLOCK
    ensures i == Lookup(buf[..], n)
  {
    hide RecAt, Records, Read32;
    var h := FindEntry(buf, n);
    HitInBlock(buf[..], 0, 0, n);
    i := if h.Hit? then Read32(buf[..], h.at) else 0;
  }

  lemma AllocatedFirst(bm: Bits, bm': Bits, a: seq<u32>)
    requires Allocated(bm, bm', a) && |a| > 0
    ensures a[0] in a && (a[0] != 0 ==> !Bit(bm, a[0] - 1))
  {
  }

  lemma ListIsNoLeaf(bm: Bits, bm': Bits, list: u32, leaves: seq<u32>)
    requires Allocated(bm, bm', [list] + leaves)
    ensures list != 0 ==> !Bit(bm, list - 1)
    ensures forall k :: 0 <= k < |leaves| ==> if list == 0 then leaves[k] == 0 else leaves[k] != list
  {
    var c := [list] + leaves;
    assert c[0] == list && list in c;
    assert forall k :: 0 <= k < |leaves| ==> leaves[k] == c[k + 1];
  }

  /** The block just allocated was neither in use at the start nor handed out before. */
  lemma FreshInOld(bm: Bits, bm': Bits, a: seq<u32>, p: u32)
    requires Allocated(bm, bm', a + [p])
    ensures p != 0 ==> !Bit(bm, p - 1) && p !in a
  {
    var c := a + [p];
    assert c[|a|] == p && p in c;
    if p in a {
      var i :| 0 <= i < |a| && a[i] == p;
      assert c[i] == c[|a|];
    }
  }

  class Volume {
    var blockMap: Bits
    var nodeMap: Bits
    var inodes: seq<Inode>
    var disk: Disk
    const first: nat
    ghost var live: set<nat>

    constructor Mount(v: Vol, ghost live: set<nat>)
      ensures State() == v && this.live == live
    {
      blockMap, nodeMap, inodes, disk, first := v.blockMap, v.nodeMap, v.inodes, v.disk, v.first;
      this.live := live;
    }

    function State(): Vol
      reads this
    {
      Vol(blockMap, nodeMap, inodes, disk, first)
    }

    // ----- sectors -----

    method WriteBlock(b: u32, data: Block)
      requires b < |disk|
      modifies this`disk
      ensures disk == old(disk)[b := data]
    {
      disk := disk[b := data];
    }

    // ----- bitmaps -----

    /** `ext2_allocate_block` on one group. */
    method AllocateBlock() returns (b: u32)
      requires |blockMap| % 512 == 0 && 8 * |blockMap| < 0x1_0000_0000
      modifies this`blockMap
      ensures Taken(old(blockMap), blockMap, b)
    {
      blockMap, b := TakeLowest(blockMap);
    }

    /** `ext2_allocate_inode` on one group. */
    method AllocateInode() returns (i: u32)
      requires |nodeMap| == 512
      modifies this`nodeMap
      ensures Taken(old(nodeMap), nodeMap, i)
    {
      nodeMap, i := TakeLowest(nodeMap);
    }

    /** `ext2_free_block_safe` */
    method FreeBlock(b: u32)
      requires b <= 8 * |blockMap|
      modifies this`blockMap
      ensures Freed(old(blockMap), blockMap, NonZero([b]))
    {
      FreedOne(blockMap, b);
      if b != 0 {
        blockMap := ClearBit(blockMap, b - 1);
      }
    }

    // ----- writing a file's blocks -----

    ghost predicate Ready()
      reads this`blockMap, this`disk
    {
      |blockMap| % 512 == 0 && Padded(blockMap, disk)
    }

    /**
      The inner loop of the single and of the double indirect stage: allocate a block per entry,
      write its chunk, and leave the rest of the 256 entries zero. A failed allocation writes to block 0.
     */
    method WriteLeaves(content: seq<byte>, first: nat, count: nat) returns (ptrs: seq<u32>)
      requires Ready() && count <= PTRS
      modifies this`blockMap, this`disk
      ensures Ready() && |ptrs| == PTRS && forall k :: count <= k < PTRS ==> ptrs[k] == 0
      ensures Allocated(old(blockMap), blockMap, ptrs[..count])
      ensures Kept(old(blockMap), old(disk), disk)
      ensures forall k :: 0 <= k < count && ptrs[k] != 0 ==> At(disk, ptrs[k]) == Chunk(content, first + k)
    {
      hide Bit, Chunk, Allocated;
      ptrs := seq(PTRS, _ => 0);
      AllocatedNone(blockMap);
      assert ptrs[..0] == [];
      var b := 0;
      while b < count
        invariant 0 <= b <= count && |ptrs| == PTRS && forall k :: b <= k < PTRS ==> ptrs[k] == 0
        invariant Ready()
        invariant Allocated(old(blockMap), blockMap, ptrs[..b])
        invariant Kept(old(blockMap), old(disk), disk)
        invariant forall k :: 0 <= k < b && ptrs[k] != 0 ==> At(disk, ptrs[k]) == Chunk(content, first + k)
      {
        ghost var before, bm := ptrs[..b], blockMap;
        var p := AllocateBlock();
        AllocatedStep(old(blockMap), bm, blockMap, before, p);
        AllocatedPadded(old(blockMap), blockMap, before + [p], disk);
        FreshInOld(old(blockMap), blockMap, before, p);
        ptrs := ptrs[b := p];
        assert ptrs[..b + 1] == before + [p];
        WriteBlock(p, Chunk(content, first + b));
        assert forall k :: 0 <= k < b ==> ptrs[k] == before[k];
        b := b + 1;
      }
    }

    /** The direct stage: up to twelve blocks, stopping at the first failed allocation. */
    method WriteDirect(content: seq<byte>, count: nat) returns (blocks: seq<u32>)
      requires Ready() && count <= DIRECT
      modifies this`blockMap, this`disk
      ensures Ready() && |blocks| == DIRECT && forall k :: count <= k < DIRECT ==> blocks[k] == 0
      ensures Allocated(old(blockMap), blockMap, blocks[..count])
      ensures Kept(old(blockMap), old(disk), disk)
      ensures forall k :: 0 <= k < count && blocks[k] != 0 ==> At(disk, blocks[k]) == Chunk(content, k)
    {
      hide Bit, Chunk, Allocated;
      blocks := seq(DIRECT, _ => 0);
      AllocatedNone(blockMap);
      assert blocks[..0] == [];
      var b := 0;
      while b < count
        invariant 0 <= b <= count && |blocks| == DIRECT && forall k :: b <= k < DIRECT ==> blocks[k] == 0
        invariant Ready()
        invariant Allocated(old(blockMap), blockMap, blocks[..b])
        invariant Kept(old(blockMap), old(disk), disk)
        invariant forall k :: 0 <= k < b && blocks[k] != 0 ==> At(disk, blocks[k]) == Chunk(content, k)
      {
        ghost var before, bm := blocks[..b], blockMap;
        var p := AllocateBlock();
        AllocatedStep(old(blockMap), bm, blockMap, before, p);
        AllocatedPadded(old(blockMap), blockMap, before + [p], disk);
        FreshInOld(old(blockMap), blockMap, before, p);
        blocks := blocks[b := p];
        assert blocks[..b + 1] == before + [p];
        if p == 0 {
          assert blocks[..b + 1][b] == 0;
          AllocatedPad(old(blockMap), blockMap, blocks[..b + 1], count - b - 1);
          assert blocks[..count] == blocks[..b + 1] + seq(count - b - 1, _ => 0);
          return;
        }
        WriteBlock(p, Chunk(content, b));
        assert forall k :: 0 <= k < b ==> blocks[k] == before[k];
        b := b + 1;
      }
    }

    /** One pointer block with its leaves: allocated first, written last, into block 0 when there was none. */
    method WriteIndirect(content: seq<byte>, first: nat, count: nat) returns (list: u32, ptrs: seq<u32>)
      requires Ready() && count <= PTRS
      modifies this`blockMap, this`disk
      ensures Ready() && |ptrs| == PTRS && forall k :: count <= k < PTRS ==> ptrs[k] == 0
      ensures Allocated(old(blockMap), blockMap, [list] + ptrs[..count])
      ensures Kept(old(blockMap), old(disk), disk)
      ensures forall k :: 0 <= k < count && ptrs[k] != 0 ==> At(disk, ptrs[k]) == Chunk(content, first + k)
      ensures Pointers(At(disk, list)) == ptrs
      ensures list == 0 ==> At(disk, 0) == ZeroBlock()
    {
      hide Bit, Chunk, Allocated, Pointers, PointerBytes, ZeroBlock;
      AllocatedNone(blockMap);
      list := AllocateBlock();
      assert [] + [list] == [list];
      AllocatedStep(old(blockMap), old(blockMap), blockMap, [], list);
      ghost var bm := blockMap;
      AllocatedPadded(old(blockMap), blockMap, [list], disk);
      ptrs := WriteLeaves(content, first, count);
      AllocatedConcat(old(blockMap), bm, blockMap, [list], ptrs[..count]);
      KeptTrans(old(blockMap), bm, [list], old(disk), old(disk), disk);
      AllocatedPadded(old(blockMap), blockMap, [list] + ptrs[..count], disk);
      ListIsNoLeaf(old(blockMap), blockMap, list, ptrs[..count]);
      assert forall k :: 0 <= k < count ==> ptrs[k] == ptrs[..count][k];
      WriteBlock(list, PointerBytes(ptrs));
      PointersRoundTrip(ptrs);
      if list == 0 {
        assert ptrs == seq(PTRS, _ => 0);
        ZeroPointers();
      }
    }

    /** The double indirect stage: a master block and, for every 256 leaves, a sub pointer block. */
    method WriteDouble(content: seq<byte>, count: nat) returns (master: u32, masters: seq<u32>, ghost a: seq<u32>)
      requires Ready() && 0 < count <= PTRS * PTRS
      modifies this`blockMap, this`disk
      ensures Ready()
      ensures Allocated(old(blockMap), blockMap, a) && Kept(old(blockMap), old(disk), disk)
      ensures DoubleInv(disk, masters, a, content, count, (count + 255) / PTRS, count)
      ensures |a| > 0 && a[0] == master && Pointers(At(disk, master)) == masters
      ensures master == 0 ==> At(disk, 0) == ZeroBlock()
    {
      hide Bit, Chunk, Allocated, Pointers, PointerBytes, ZeroBlock, DoubleInv;
      AllocatedNone(blockMap);
      master := AllocateBlock();
      assert [] + [master] == [master];
      AllocatedStep(old(blockMap), old(blockMap), blockMap, [], master);
      AllocatedPadded(old(blockMap), blockMap, [master], disk);
      masters := seq(PTRS, _ => 0);
      a := [master];
      DoubleStart(disk, master, content, count);
      var written, m := 0, 0;
      while written < count && m < PTRS
        invariant 0 <= m <= PTRS && written == (if PTRS * m < count then PTRS * m else count)
        invariant m > 0 ==> PTRS * (m - 1) < count
        invariant Ready() && |masters| == PTRS && |a| > 0 && a[0] == master
        invariant Allocated(old(blockMap), blockMap, a) && Kept(old(blockMap), old(disk), disk)
        invariant DoubleInv(disk, masters, a, content, count, m, written)
      {
        ghost var bm, d := blockMap, disk;
        var c := if count - written < PTRS then count - written else PTRS;
        var list, ptrs := WriteIndirect(content, SINGLE_END + written, c);
        ghost var more := [list] + ptrs[..c];
        DoubleStep(old(blockMap), bm, blockMap, d, disk, masters, a, content, count, m, list, ptrs, c);
        AllocatedConcat(old(blockMap), bm, blockMap, a, more);
        KeptTrans(old(blockMap), bm, a, old(disk), d, disk);
        masters, a := masters[m := list], a + more;
        written, m := written + c, m + 1;
      }
      assert m == (count + 255) / PTRS;
      ghost var d := disk;
      AllocatedPadded(old(blockMap), blockMap, a, disk);
      AllocatedFirst(old(blockMap), blockMap, a);
      WriteBlock(master, PointerBytes(masters));
      DoubleMaster(old(blockMap), blockMap, d, disk, masters, a, content, count, m);
    }

    /** Sections A to C of `ext2_write_file`: all blocks of a new file of 1 to 67383296 bytes. */
    method BuildTree(content: seq<byte>) returns (ib: Slots, ghost a: seq<u32>)
      requires Ready() && 0 < |content| <= MAX_SIZE
      modifies this`blockMap, this`disk
      ensures Ready()
      ensures TreeBuilt(old(blockMap), blockMap, disk, ib, a, content) && Kept(old(blockMap), old(disk), disk)
    {
      hide Bit, Chunk, Allocated, Pointers, ZeroBlock, DoubleInv, IsTree, TrashZeroed, LeavesDone, At;
      var nb := BlocksFor(|content|);
      CapIsReach(|content|);
      ghost var bm0, d0 := blockMap, disk;
      var direct := if nb > DIRECT then DIRECT else nb;
      var blocks := WriteDirect(content, direct);
      a := blocks[..direct];
      ghost var bm1, d1 := blockMap, disk;
      if nb <= DIRECT {
        ib := MakeSlots(blocks, 0, 0);
        AllocatedSuffix(bm0, bm1, a);
        AssembleSmall(disk, blocks, a, content, nb);
        return;
      }
      assert a == blocks;
      var single := if nb - DIRECT > PTRS then PTRS else nb - DIRECT;
      var list, ptrs := WriteIndirect(content, DIRECT, single);
      ghost var b := [list] + ptrs[..single];
      ghost var bm2, d2 := blockMap, disk;
      StageKept(bm0, bm1, bm2, d0, d1, d2, a, b);
      assert blocks + [] == a;
      DirectKept(bm0, bm1, d1, d2, blocks, [], content);
      if nb <= SINGLE_END {
        ib := MakeSlots(blocks, list, 0);
        a := a + b;
        AllocatedSuffix(bm0, bm2, a);
        assert a == blocks + [list] + ptrs[..nb - DIRECT];
        AssembleMid(disk, blocks, list, ptrs, a, content, nb);
        return;
      }
      var master, masters, more := WriteDouble(content, nb - SINGLE_END);
      StageKept(bm0, bm2, blockMap, d0, d2, disk, a + b, more);
      DirectKept(bm0, bm2, d2, disk, blocks, b, content);
      SingleKept(bm0, bm2, blockMap, d2, disk, a, list, ptrs, more, content);
      ib := MakeSlots(blocks, list, master);
      a := a + b + more;
      AllocatedSuffix(bm0, blockMap, a);
      assert a == blocks + [list] + ptrs + more;
      AssembleBig(disk, blocks, list, ptrs, master, masters, more, a, content, nb);
    }

    // ----- paths -----

    /** `ext2_resolve_path` */
    method ResolvePath(path: seq<byte>) returns (r: nat)
      ensures r == Resolve(State(), path)
    {
      hide Lookup, IsDir, DirBlk, Components;
      if path == [] || path[0] != SLASH {
        return 0;
      }
      var current: nat, i: nat := ROOT, 1;
      while i < |path|
        invariant 1 <= i <= |path| && current != 0
        invariant Walk(State(), ROOT, Components(path, 1)) == Walk(State(), current, Components(path, i))
        decreases |path| - i
      {
        var t := i;
        while t < |path| && path[t] != SLASH && t - i < MAX_PATH
          invariant i <= t <= |path| && t - i <= MAX_PATH
          invariant forall k :: i <= k < t ==> path[k] != SLASH
        {
          t := t + 1;
        }
        if t == i {
          ComponentsFromSlash(path, i);
          i := i + 1;
          continue;
        }
        NextComponent(path, i, t);
        var name := path[i..t];
        assert Components(path, i)[1..] == Components(path, t);
        if !IsDir(State(), current) {
          return 0;
        }
        var buf := Load(DirBlk(State(), current));
        var next := LookupIn(buf, name);
        if next == 0 {
          return 0;
        }
        current, i := next, t;
        if i < |path| && path[i] == SLASH {
          ComponentsFromSlash(path, i);
          i := i + 1;
        }
      }
      ComponentsFromSlash(path, i);
      return current;
    }

    // ----- reading a file -----

    /** `ext2_read_file`: `size` is the file's full size even when only `maxSize` bytes of it are wanted. */
    method ReadFile(path: seq<byte>, dest: array<byte>, maxSize: nat) returns (ok: bool, size: nat)
      requires maxSize <= dest.Length
      modifies dest
      ensures var v, i := State(), Resolve(State(), path);
        if i == 0 || !IsFile(v, i) then !ok && dest[..] == old(dest[..])
        else ok && size == Node(v, i).size && Filled(old(dest[..]), dest[..], Content(v, i), size, maxSize)
    {
      hide IsFile, Resolve, ReadFrom;
      size := 0;
      var target := ResolvePath(path);
      if target == 0 {
        return false, size;
      }
      var inode := Node(State(), target);
      if !IsFile(State(), target) {
        return false, size;
      }
      size := inode.size;
      ok := true;
      var n := if size > maxSize then maxSize else size;
      if n == 0 {
        return;
      }
      ghost var was := dest[..];
      var loaded := Stream(inode.block, n, dest);
      ReadLength(disk, inode.block, 0, n);
      ReadPrefix(disk, inode.block, 0, n, size);
      assert dest[..loaded] == Content(State(), target)[..loaded];
      if loaded < maxSize {
        dest[loaded] := 0;
      }
    }

    /** The loop that follows the tree block by block and copies out what it finds, up to `n` bytes. */
    method Stream(ib: Slots, n: nat, dest: array<byte>) returns (loaded: nat)
      requires n <= dest.Length
      modifies dest
      ensures var got := ReadFrom(disk, ib, 0, n); loaded == |got| <= n && dest[..] == got + old(dest[..])[|got|..]
    {
      hide Phys, At, ReadFrom;
      ghost var was := dest[..];
      ReadLength(disk, ib, 0, n);
      var total, l := BlocksFor(n), 0;
      loaded := 0;
      while l < total
        invariant 0 <= l <= total && loaded == (if 1024 * l < n then 1024 * l else n)
        invariant dest[..loaded] + ReadFrom(disk, ib, l, n) == ReadFrom(disk, ib, 0, n)
        invariant dest[loaded..] == was[loaded..]
      {
        var p := Phys(disk, ib, l);
        if p == 0 {
          break;
        }
        ghost var before := dest[..];
        var i := CopyChunk(At(disk, p), dest, loaded, n);
        ReadStep(disk, ib, l, n, i);
        Streamed(before, dest[..], was, At(disk, p), loaded, i, ReadFrom(disk, ib, l + 1, n), ReadFrom(disk, ib, 0, n));
        loaded, l := loaded + i, l + 1;
        assert dest[..][..loaded] == dest[..loaded] && dest[..][loaded..] == dest[loaded..];
      }
      ReadEnd(disk, ib, l, n);
      assert dest[..loaded] + [] == dest[..loaded];
      assert dest[..] == dest[..loaded] + dest[loaded..];
    }

    // ----- creating a file -----

    /** Sections 4 to 6 of `ext2_write_file`; a full inode bitmap shows up only after the blocks were taken. */
    method StoreFile(d: nat, slot: nat, n: Name, content: seq<byte>, buf: array<byte>)
      returns (ino: u32, ghost a: seq<u32>)
      requires Sound(State(), live) && Dir(State(), live, d) && 0 < |content| <= MAX_SIZE
      requires buf.Length == BLOCK && buf[..] == DirBlk(State(), d) && InBuffer(buf[..], slot, n)
      modifies this, buf
      ensures live == old(live)
      ensures ino == 0 <==> Full(old(nodeMap))
      ensures if ino == 0 then Leaked(old(State()), State(), a)
              else Stored(old(State()), State(), live, d, slot, n, content, ino, a)
    {
      hide Sound, IsDir, Ents, WellFormed, Lookup, Records, Insert, WriteBack, TreeBuilt, Needed, Leaked, Added, Bit,
        Full, InBuffer;
      ghost var v := State();
      SoundReady(v, live);
      var ib;
      ib, a := BuildTree(content);
      ghost var d1 := disk;
      ino := AllocateInode();
      FullIff(v.nodeMap, nodeMap, ino);
      if ino == 0 {
        InodesFull(v, State(), a, live, ib, content, v.nodeMap);
        return;
      }
      NewInode(v, live, v.nodeMap, nodeMap, ino);
      inodes := inodes[ino - 1 := FileNode(|content|, ib)];
      InsertRecord(buf, slot, ino, n, 1);
      DirBlockUsed(v, live, d);
      var db := DirNum(State(), d);
      OldNode(v, State(), live, d, ino, inodes[ino - 1]);
      disk := disk[db := WriteBack(disk[db], buf[..])];
      WriteAdds(v, State(), live, d, slot, n, ino, FileNode(|content|, ib), a, content, d1);
    }

    /**
      `ext2_write_file`. Returns 1 on success, -1 for a duplicate name, -2 for a missing parent, 0 otherwise.
      When the inode bitmap is full the blocks stay allocated: the failure is not rolled back.
     */
    method WriteFile(path: seq<byte>, data: Source, request: u32) returns (r: int, ghost ino: u32, ghost a: seq<u32>)
      requires Sound(State(), live) && CString(path) && InsertSafe(State(), path)
      requires data.Bytes? ==> FileSize(request) <= |data.s|
      modifies this
      ensures WriteOutcome(old(State()), State(), old(live), live, path, Wanted(data, FileSize(request)), r, ino, a)
    {
      hide Sound, Resolve, IsDir, Ents, WellFormed, Lookup, Records, Leaked, Reaches, Stored, Full, RecAt, InBuffer,
        SplitOf, SlotFrom;
      ghost var v := State();
      ino, a := 0, [];
      var split := SplitPath(path);
      if split.NoSplit? {
        return 0, ino, a;
      }
      var d := ResolvePath(split.parent);
      if d == 0 || !IsDir(State(), d) {
        return -2, ino, a;
      }
      var n := split.name;
      ParentFacts(v, live, split.parent, d, n);
      var buf := Load(DirBlk(State(), d));
      var dup, slot := ScanForSlot(buf, n);
      if dup {
        return -1, ino, a;
      }
      if slot == 0 {
        return 0, ino, a;
      }
      var content := Wanted(data, FileSize(request));
      var made;
      made, a := StoreFile(d, slot, n, content, buf);
      ino := made;
      if made == 0 {
        return 0, ino, a;
      }
      if Reaches(v, d, slot, n) {
        live := live + {ino as nat};
      }
      return 1, ino, a;
    }

    // ----- copying a file -----

    /**
      `ext2_copy_file`; `busy` is the lock it finds on entry. The destination is first written full of zeros and
      looked up again by its whole path, then overwritten block by block.
     */
    method CopyFile(src: seq<byte>, dest: seq<byte>, busy: bool)
      returns (r: int, ghost w: Vol, ghost ino: u32, ghost a: seq<u32>)
      requires Sound(State(), live) && CString(dest) && InsertSafe(State(), dest)
      modifies this
      ensures CopyOutcome(old(State()), w, State(), old(live), live, src, dest, busy, r, ino, a)
    {
      hide Sound, Resolve, IsDir, IsFile, WriteOutcome, FileSize, Wanted, Phys, Node, InsertSafe;
      ghost var v := State();
      w, ino, a := v, 0, [];
      if busy {
        return -6, w, ino, a;
      }
      var none := new byte[0];
      var ok, size := ReadFile(src, none, 0);
      if !ok {
        return -3, w, ino, a;
      }
      if size == 0 {
        return -4, w, ino, a;
      }
      var i := ResolvePath(src);
      r, ino, a := WriteFile(dest, Null, size);
      w := State();
      ghost var now := live;
      if r != 1 {
        return;
      }
      ResolveLive(v, old(live), src);
      SourceStays(v, w, old(live), live, dest, Wanted(Null, FileSize(size)), ino, a, i);
      var t := ResolvePath(dest);
      var s, d := Node(State(), i).block, Node(State(), t).block;
      var l := 0;
      while l < BlocksCopied(size)
        invariant 0 <= l <= BlocksCopied(size)
        invariant State() == w.(disk := disk) && live == now
        invariant Copied(disk, s, d, l, BlocksCopied(size)) == Copied(w.disk, s, d, 0, BlocksCopied(size))
      {
        var p, q := Phys(disk, s, l), Phys(disk, d, l);
        if p == 0 || q == 0 {
          break;
        }
        disk := Put(disk, q, At(disk, p));
        l := l + 1;
      }
      assert disk == Copied(w.disk, s, d, 0, BlocksCopied(size));
    }

    // ----- creating a directory -----

    /** Sections 4 to 7 of `ext2_make_directory`. */
    method StoreDir(d: nat, slot: nat, n: Name, buf: array<byte>) returns (ino: u32, ghost b: u32)
      requires Sound(State(), live) && Dir(State(), live, d) && 0 < d < 0x1_0000_0000
      requires buf.Length == BLOCK && buf[..] == DirBlk(State(), d) && InBuffer(buf[..], slot, n)
      modifies this, buf
      ensures live == old(live)
      ensures ino == 0 <==> Full(old(nodeMap)) || Full(old(blockMap))
      ensures if ino == 0 then Leaked(old(State()), State(), [b])
              else Made(old(State()), State(), live, d, slot, n, ino, b)
    {
      hide Sound, IsDir, Ents, WellFormed, Lookup, Records, Insert, WriteBack, FreshDir, Leaked, Added, Bit, Full,
        InBuffer;
      ghost var v := State();
      SoundReady(v, live);
      var block := AllocateBlock();
      var node := AllocateInode();
      b := block;
      FullIff(v.nodeMap, nodeMap, node);
      FullIff(v.blockMap, blockMap, block);
      if block == 0 || node == 0 {
        MkdirLeaks(v, State(), node, block);
        return 0, b;
      }
      ino := node;
      FreshInRange(v, live, blockMap, block);
      disk := disk[block := FreshDir(ino, d)];
      NewInode(v, live, v.nodeMap, nodeMap, ino);
      inodes := inodes[ino - 1 := DirNode(block)];
      InsertRecord(buf, slot, ino, n, 2);
      DirBlockUsed(v, live, d);
      var db := DirNum(State(), d);
      OldNode(v, State(), live, d, ino, inodes[ino - 1]);
      disk := disk[db := WriteBack(disk[db], buf[..])];
      MkdirAdds(v, State(), live, d, slot, n, ino, block);
    }

    /** `ext2_make_directory`: 1 on success, -1 for a duplicate name, -2 for a missing parent, 0 otherwise. */
    method MakeDirectory(path: seq<byte>) returns (r: int, ghost ino: u32, ghost b: u32)
      requires Sound(State(), live) && CString(path) && InsertSafe(State(), path)
      modifies this
      ensures MkdirOutcome(old(State()), State(), old(live), live, path, r, ino, b)
    {
      hide Sound, Resolve, IsDir, Ents, WellFormed, Lookup, Records, Leaked, Reaches, Made, Full, RecAt, InBuffer,
        SplitOf, SlotFrom;
      ghost var v := State();
      ino, b := 0, 0;
      var split := SplitPath(path);
      if split.NoSplit? {
        return 0, ino, b;
      }
      var d := ResolvePath(split.parent);
      if d == 0 || !IsDir(State(), d) {
        return -2, ino, b;
      }
      var n := split.name;
      ParentFacts(v, live, split.parent, d, n);
      LiveInTable(v, live, d);
      var buf := Load(DirBlk(State(), d));
      var dup, slot := ScanForSlot(buf, n);
      if dup {
        return -1, ino, b;
      }
      if slot == 0 {
        return 0, ino, b;
      }
      var made;
      made, b := StoreDir(d, slot, n, buf);
      ino := made;
      if made == 0 {
        return 0, ino, b;
      }
      if Reaches(v, d, slot, n) {
        live := live + {ino as nat};
      }
      return 1, ino, b;
    }

    // ----- deleting -----

    /** The loops over `ext2_free_block_safe` for a list of block numbers. */
    method FreeList(ptrs: seq<u32>)
      requires forall k :: 0 <= k < |ptrs| ==> ptrs[k] <= 8 * |blockMap|
      modifies this`blockMap
      ensures Freed(old(blockMap), blockMap, NonZero(ptrs))
    {
      hide Bit, Freed, NonZero;
      FreedNone(blockMap);
      NonZeroOfZeros([]);
      assert ptrs[..0] == [];
      var k := 0;
      FreedLength(old(blockMap), blockMap, NonZero(ptrs[..k]));
      while k < |ptrs|
        invariant 0 <= k <= |ptrs| && |blockMap| == |old(blockMap)|
        invariant Freed(old(blockMap), blockMap, NonZero(ptrs[..k]))
      {
        ghost var bm := blockMap;
        FreeBlock(ptrs[k]);
        FreedConcat(old(blockMap), bm, blockMap, NonZero(ptrs[..k]), NonZero([ptrs[k]]));
        NonZeroAppend(ptrs[..k], [ptrs[k]]);
        assert ptrs[..k + 1] == ptrs[..k] + [ptrs[k]];
        k := k + 1;
        FreedLength(old(blockMap), blockMap, NonZero(ptrs[..k]));
      }
      assert ptrs[..k] == ptrs;
    }

    /** The blocks a pointer block names, then the pointer block itself. */
    method FreeLeaves(p: u32)
      requires p != 0 && p <= 8 * |blockMap| && InBitmap(blockMap, NonZero(Pointers(At(disk, p))))
      modifies this`blockMap
      ensures Freed(old(blockMap), blockMap, Leaves(disk, p))
    {
      hide Bit, Freed, NonZero, Pointers, At;
      InBitmapList(blockMap, Pointers(At(disk, p)));
      FreeList(Pointers(At(disk, p)));
      ghost var bm := blockMap;
      FreedLength(old(blockMap), bm, NonZero(Pointers(At(disk, p))));
      FreeBlock(p);
      NonZeroOne(p);
      FreedConcat(old(blockMap), bm, blockMap, NonZero(Pointers(At(disk, p))), [p]);
    }

    method FreeSubs(ms: seq<u32>)
      requires InBitmap(blockMap, Subs(disk, ms))
      modifies this`blockMap
      ensures Freed(old(blockMap), blockMap, Subs(disk, ms))
    {
      hide Bit, Freed, Leaves, InBitmap, Subs;
      FreedNone(blockMap);
      assert ms[..0] == [];
      NoSubs(disk);
      var k := 0;
      while k < |ms|
        invariant 0 <= k <= |ms| && |blockMap| == |old(blockMap)|
        invariant Freed(old(blockMap), blockMap, Subs(disk, ms[..k]))
      {
        ghost var bm := blockMap;
        SubsAppend(disk, ms[..k], ms[k]);
        assert ms[..k + 1] == ms[..k] + [ms[k]];
        if ms[k] != 0 {
          InBitmapSub(old(blockMap), disk, ms, ms[k]);
          SameBound(old(blockMap), blockMap, NonZero(Pointers(At(disk, ms[k]))));
          FreeLeaves(ms[k]);
          FreedConcat(old(blockMap), bm, blockMap, Subs(disk, ms[..k]), Leaves(disk, ms[k]));
        } else {
          assert Subs(disk, ms[..k]) + [] == Subs(disk, ms[..k]);
        }
        k := k + 1;
        FreedLength(old(blockMap), blockMap, Subs(disk, ms[..k]));
      }
      assert ms[..k] == ms;
    }

    /** The block-freeing part that `ext2_delete_file` and `ext2_wipe_inode` share: direct, single, double indirect. */
    method FreeTree(ib: Slots)
      requires InBitmap(blockMap, Owned(disk, ib))
      modifies this`blockMap
      ensures Freed(old(blockMap), blockMap, Owned(disk, ib))
    {
      hide Bit, Freed, NonZero, Pointers, At, Subs, Leaves, InBitmap;
      BoundedParts(blockMap, disk, ib);
      InBitmapList(blockMap, ib[..12]);
      FreeList(ib[..12]);
      ghost var bm1 := blockMap;
      FreedLength(old(blockMap), bm1, NonZero(ib[..12]));
      if ib[12] != 0 {
        SameBound(old(blockMap), blockMap, NonZero(Pointers(At(disk, ib[12]))));
        FreeLeaves(ib[12]);
      } else {
        FreedNone(blockMap);
      }
      ghost var bm2 := blockMap;
      FreedLength(bm1, bm2, OwnedSingle(disk, ib[12]));
      FreedConcat(old(blockMap), bm1, bm2, NonZero(ib[..12]), OwnedSingle(disk, ib[12]));
      if ib[13] != 0 {
        var ms := Pointers(At(disk, ib[13]));
        SameBound(old(blockMap), blockMap, Subs(disk, ms));
        FreeSubs(ms);
        ghost var bm3 := blockMap;
        FreedLength(bm2, bm3, Subs(disk, ms));
        FreeBlock(ib[13]);
        NonZeroOne(ib[13]);
        FreedConcat(bm2, bm3, blockMap, Subs(disk, ms), [ib[13]]);
      } else {
        FreedNone(blockMap);
      }
      FreedConcat(old(blockMap), bm2, blockMap, NonZero(ib[..12]) + OwnedSingle(disk, ib[12]),
        OwnedDouble(disk, ib[13]));
    }

    /**
      Step 5 of `ext2_delete_file` and what follows: unlink the name, write one sector, free the blocks and the inode.
     */
    method DropFile(parent: seq<byte>, d: nat, n: Name, h: Search, t: u32, buf: array<byte>)
      requires Sound(State(), live) && d == Resolve(State(), parent) && d != 0 && IsDir(State(), d) && ValidName(n)
      requires h == Seen(State(), d, n) && h.Hit? && h.at + 8 <= BLOCK && h.prev + 8 <= BLOCK
      requires n in Ents(State(), d) && Ents(State(), d)[n] == t && !IsDir(State(), t)
      requires buf.Length == BLOCK && buf[..] == FirstSector(DirBlk(State(), d))
      modifies this, buf
      ensures Removed(old(State()), State(), old(live), d, n, t, {t as nat}) && live == old(live) - {t as nat}
    {
      hide Sound, Resolve, IsDir, Ents, WellFormed, Records, RecAt, Read32, FirstSector, Removed, WriteBack, Unlink,
        Freed, Owned, Seen, IsDots, Subtree, BlocksFreed, NodesFreed, KeptBut, InBitmap;
      ghost var v := State();
      SeenFacts(v, live, parent, d, n);
      if IsDots(n) {
        DotsAreDirs(v, live, d, n);
      }
      DotIsDots(n);
      DirBlockUsed(v, live, d);
      UnlinkRecord(buf, h.prev, h.at);
      var db := DirNum(State(), d);
      disk := disk[db := WriteBack(disk[db], buf[..])];
      ghost var v1 := State();
      UnlinkedDir(v, v1, live, parent, d, n);
      FreeReady(v, v1, live, d, t);
      FreeTree(Node(State(), t).block);
      OneFreed(v, v.blockMap, blockMap, nodeMap, t);
      nodeMap := ClearBit(nodeMap, t - 1);
      LeafSubtree(v, live, t);
      FirstRecord(v, live, d);
      BitmapsOnly(v1, State(), v, d);
      FileRemoved(v, State(), live, d, n, t);
      live := live - {t as nat};
    }

    /** `ext2_delete_file`: 1 when deleted, -1 for a directory, 0 when there is nothing it can see by that name. */
    method DeleteFile(path: seq<byte>) returns (r: int)
      requires Sound(State(), live) && CString(path)
      modifies this
      ensures DeleteOutcome(old(State()), State(), old(live), live, path, r)
    {
      hide Sound, Resolve, IsDir, Ents, WellFormed, Records, RecAt, Read32, FirstSector, SplitOf, Removed;
      ghost var v := State();
      var split := SplitPath(path);
      if split.NoSplit? {
        return 0;
      }
      var d := ResolvePath(split.parent);
      if d == 0 || !IsDir(State(), d) {
        return 0;
      }
      var n := split.name;
      SplitNameValid(path);
      var buf := Load(FirstSector(DirBlk(State(), d)));
      var h := FindEntry(buf, n);
      if h.Miss? {
        return 0;
      }
      SeenFacts(v, live, split.parent, d, n);
      SeenInBlock(v, live, split.parent, d, n);
      var t := Read32(buf[..], h.at);
      if IsDir(State(), t) {
        return -1;
      }
      DropFile(split.parent, d, n, h, t, buf);
      return 1;
    }

    // ----- removing a directory -----

    /** The scan of the entries in the first block of directory `i`, wiping what they name. */
    method WipeEntries(i: nat, ghost w: Vol, ghost g: set<nat>, ghost depth: map<nat, nat>, ghost bound: nat)
      returns (ghost gone: set<nat>)
      requires Wipeable(w, g, depth, bound) && i in g && i in depth && depth[i] <= bound && IsDir(w, i)
      requires disk == w.disk && inodes == w.inodes && |blockMap| == |w.blockMap| && |nodeMap| == 512
      modifies this`blockMap, this`nodeMap
      ensures gone <= g && Forest(w, i, gone) && forall m: Name, j: nat :: Kid(w, i, m, j) ==> j in gone
      ensures BlocksFreed(w, old(blockMap), blockMap, gone) && NodesFreed(old(nodeMap), nodeMap, gone)
      decreases bound - depth[i], 0
    {
      hide Kid, Wipeable, WellFormed, RecAt, Records, Bit, Forest, BlocksFreed, NodesFreed, IsDir, Ents, ScanInv, Below;
      gone := {};
      NothingFreed(w, blockMap, nodeMap);
      NoForest(w, i);
      NodeReady(w, g, depth, bound, i);
      var buf := Load(At(disk, Node(State(), i).block[0]));
      var b: Block := buf[..];
      assert b == DirBlk(w, i);
      if Read32(b, 0) == 0 {
        BlankFirst(b);
        BlankNoKids(w, i);
        return;
      }
      ScanStart(w, i);
      var offset: nat := 0;
      while offset < BLOCK
        invariant offset <= BLOCK && ScanInv(w, i, offset, gone)
        invariant gone <= g && Forest(w, i, gone)
        invariant BlocksFreed(w, old(blockMap), blockMap, gone) && NodesFreed(old(nodeMap), nodeMap, gone)
        invariant |blockMap| == |w.blockMap| && |nodeMap| == 512
        decreases BLOCK - offset
      {
        ScanStep(w, i, offset, gone, gone);
        GoodBytes(b, offset);
        var r := RecAt(b, offset);
        if r.Bad? || r.inode == 0 || r.len == 0 {
          break;
        }
        if !IsDots(r.name) {
          ghost var bm, im := blockMap, nodeMap;
          KidOf(w, i, r.name, r.inode);
          KidReady(w, g, depth, bound, i, r.name, r.inode);
          ghost var more := WipeInode(r.inode, w, g, depth, bound);
          ForestGrows(w, i, gone, r.name, r.inode, more);
          FreedMore(w, old(blockMap), bm, blockMap, gone, more);
          NodesMore(old(nodeMap), im, nodeMap, gone, more);
          FreedLengths(w, bm, blockMap, im, nodeMap, more);
          BelowHas(w, r.inode, more);
          ScanStep(w, i, offset, gone, gone + more);
          gone := gone + more;
        }
        offset := offset + r.len;
      }
      ScanEnd(w, i, gone);
    }

    /**
      `ext2_wipe_inode`: first everything a directory names, then the blocks of the inode, then its bit.
      `g` is a set of inodes the walk may enter and `depth` a ranking of it, which is what makes it terminate.
     */
    method WipeInode(i: nat, ghost w: Vol, ghost g: set<nat>, ghost depth: map<nat, nat>, ghost bound: nat)
      returns (ghost gone: set<nat>)
      requires Wipeable(w, g, depth, bound) && i in g && i in depth && depth[i] <= bound
      requires disk == w.disk && inodes == w.inodes && |blockMap| == |w.blockMap| && |nodeMap| == 512
      modifies this`blockMap, this`nodeMap
      ensures gone <= g && Below(w, i, gone)
      ensures BlocksFreed(w, old(blockMap), blockMap, gone) && NodesFreed(old(nodeMap), nodeMap, gone)
      decreases bound - depth[i], 1
    {
      hide Kid, Wipeable, WellFormed, RecAt, Records, Bit, Forest, BlocksFreed, NodesFreed, Ents, Below, InBitmap,
        Owned, Freed;
      NodeReady(w, g, depth, bound, i);
      var inode := Node(State(), i);
      gone := {};
      NothingFreed(w, blockMap, nodeMap);
      if IsDir(State(), i) {
        var k := 0;
        while k < DIRECT && inode.block[k] != 0
          invariant 0 <= k <= DIRECT && disk == w.disk && inodes == w.inodes
          invariant |blockMap| == |w.blockMap| && |nodeMap| == 512
          invariant if k == 0 then gone == {} && blockMap == old(blockMap) && nodeMap == old(nodeMap)
                    else gone <= g && Forest(w, i, gone) && forall m: Name, j: nat :: Kid(w, i, m, j) ==> j in gone
          invariant BlocksFreed(w, old(blockMap), blockMap, gone) && NodesFreed(old(nodeMap), nodeMap, gone)
        {
          if k == 0 {
            gone := WipeEntries(i, w, g, depth, bound);
            FreedLengths(w, old(blockMap), blockMap, old(nodeMap), nodeMap, gone);
          } else {
            // The scan of a further block ends at its first record, whose inode is 0.
            var buf := Load(At(disk, inode.block[k]));
            BlankFirst(buf[..]);
          }
          k := k + 1;
        }
        ForestIsBelow(w, i, gone);
      } else {
        NoKids(w, i);
        ForestNone(w, i);
      }
      ghost var bm, im := blockMap, nodeMap;
      SameBound(w.blockMap, blockMap, Own(w, i));
      FreeTree(inode.block);
      OneFreed(w, bm, blockMap, im, i);
      nodeMap := ClearBit(nodeMap, i - 1);
      FreedMore(w, old(blockMap), bm, blockMap, gone, {i});
      NodesMore(old(nodeMap), im, nodeMap, gone, {i});
      gone := gone + {i};
    }

    /** The end of `ext2_remove_directory`: unlink the name, write one sector, and set off the recursive walk. */
    method DropDir(parent: seq<byte>, d: nat, n: Name, h: Search, t: u32,
                   buf: array<byte>) returns (ghost gone: set<nat>)
      requires Sound(State(), live) && d == Resolve(State(), parent) && d != 0 && IsDir(State(), d) && ValidName(n)
      requires h == Seen(State(), d, n) && h.Hit? && h.at + 8 <= BLOCK && h.prev + 8 <= BLOCK
      requires n in Ents(State(), d) && Ents(State(), d)[n] == t && IsDir(State(), t)
      requires buf.Length == BLOCK && buf[..] == FirstSector(DirBlk(State(), d))
      modifies this, buf
      ensures live == old(live) - gone
      ensures if IsDots(n) then Gutted(old(State()), State(), old(live), d, n, t, gone)
              else Removed(old(State()), State(), old(live), d, n, t, gone)
    {
      hide SameTail, Sound, Resolve, IsDir, Ents, WellFormed, Records, RecAt, Read32, FirstSector, Removed, WriteBack,
        Unlink, Seen, IsDots,
        Subtree, BlocksFreed, NodesFreed, KeptBut, Gutted, Edited, Wipeable, Below, Ranked;
      ghost var v := State();
      SeenFacts(v, live, parent, d, n);
      DirBlockUsed(v, live, d);
      FirstRecord(v, live, d);
      SoundReady(v, live);
      UnlinkRecord(buf, h.prev, h.at);
      var db := DirNum(State(), d);
      disk := disk[db := WriteBack(disk[db], buf[..])];
      ghost var v1 := State();
      if h.at == 0 {
        DotEdited(v, v1, live, d);
        DotIsDots(n);
      } else {
        HitNotFirst(v, live, parent, d, n);
        UnlinkedDir(v, v1, live, parent, d, n);
        NameEdited(v, v1, d, n);
      }
      ghost var depth := RankOf(v, live);
      ghost var bound := MaxDepth(depth, live);
      EditedWipeable(v, v1, live, d, depth, bound);
      gone := WipeInode(t, v1, live, depth, bound);
      if IsDots(n) {
        DotsGutted(v, v1, State(), live, d, n, t, depth, bound, gone);
      } else {
        TreeRemoved(v, v1, State(), live, d, n, t, depth, bound, gone);
      }
      live := live - gone;
    }

    /**
      `ext2_remove_directory`: 1 when removed, -1 for something that is no directory, 0 when there is nothing it can
      see.
     */
    method RemoveDirectory(path: seq<byte>) returns (r: int, ghost gone: set<nat>)
      requires Sound(State(), live) && CString(path)
      modifies this
      ensures RmdirOutcome(old(State()), State(), old(live), live, path, r, gone)
    {
      hide Sound, Resolve, IsDir, Ents, WellFormed, Records, RecAt, Read32, FirstSector, SplitOf, Removed, Gutted,
        IsDots;
      ghost var v := State();
      gone := {};
      var split := SplitPath(path);
      if split.NoSplit? {
        return 0, gone;
      }
      var d := ResolvePath(split.parent);
      if d == 0 || !IsDir(State(), d) {
        return 0, gone;
      }
      var n := split.name;
      SplitNameValid(path);
      var buf := Load(FirstSector(DirBlk(State(), d)));
      var h := FindEntry(buf, n);
      if h.Miss? {
        return 0, gone;
      }
      SeenFacts(v, live, split.parent, d, n);
      SeenInBlock(v, live, split.parent, d, n);
      var t := Read32(buf[..], h.at);
      if !IsDir(State(), t) {
        return -1, gone;
      }
      gone := DropDir(split.parent, d, n, h, t, buf);
      return 1, gone;
    }
  }
}
