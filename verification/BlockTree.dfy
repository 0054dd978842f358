/** The block tree of a file: 12 direct blocks, 256 through a single and 65536 through a double indirect block. */
module BlockTree {
  import opened Bytes

  const DIRECT := 12
  const SINGLE_END := 268
  const DOUBLE_END := 65804
  const MAX_SIZE := 67383296

  type Disk = seq<Block>

  /** `i_block[15]` of an inode. */
  type Slots = s: seq<u32> | |s| == 15 witness seq(15, _ => 0)

  /** What the two sector reads of block `b` deliver; a read past the end of the disk leaves zeros. */
  function At(disk: Disk, b: nat): Block {
    if b < |disk| then disk[b] else ZeroBlock()
  }

  // ----- the reader's walk -----

  /** `ext2_get_phys_block` */
  function Phys(disk: Disk, ib: Slots, l: nat): u32 {
    if l < DIRECT then ib[l]
    else if l < SINGLE_END then Pointers(At(disk, ib[12]))[l - DIRECT]
    else if l < DOUBLE_END then
      var d := l - SINGLE_END;
      var sub := Pointers(At(disk, ib[13]))[d / PTRS];
      Pointers(At(disk, sub))[d % PTRS]
    else 0
  }

  // ----- the destroyer's walk -----

  function NonZero(s: seq<u32>): seq<u32> {
    if s == [] then [] else (if s[0] == 0 then [] else [s[0]]) + NonZero(s[1..])
  }

  /** The blocks freed for one pointer block: the blocks it names, then itself. */
  function Leaves(disk: Disk, p: u32): seq<u32> {
    NonZero(Pointers(At(disk, p))) + [p]
  }

  function Subs(disk: Disk, ms: seq<u32>): seq<u32> {
    if ms == [] then [] else (if ms[0] == 0 then [] else Leaves(disk, ms[0])) + Subs(disk, ms[1..])
  }

  function OwnedSingle(disk: Disk, p: u32): seq<u32> {
    if p == 0 then [] else Leaves(disk, p)
  }

  function OwnedDouble(disk: Disk, p: u32): seq<u32> {
    if p == 0 then [] else Subs(disk, Pointers(At(disk, p))) + [p]
  }

  /** Every block `ext2_delete_file` and `ext2_wipe_inode` release for an inode, in the order they do it. */
  function Owned(disk: Disk, ib: Slots): seq<u32> {
    NonZero(ib[..12]) + OwnedSingle(disk, ib[12]) + OwnedDouble(disk, ib[13])
  }

  /** The pointer blocks of a tree: the only blocks whose contents shape it. */
  function PointerBlocks(disk: Disk, ib: Slots): set<u32> {
    (if ib[12] != 0 then {ib[12]} else {})
    + (if ib[13] != 0 then {ib[13]} + (set m | m in Pointers(At(disk, ib[13])) && m != 0) else {})
  }

  /** Every pointer block on the way to logical block `l` was allocated. */
  predicate PathOk(disk: Disk, ib: Slots, l: nat) {
    && (DIRECT <= l < SINGLE_END ==> ib[12] != 0)
    && (SINGLE_END <= l < DOUBLE_END ==> ib[13] != 0 && Pointers(At(disk, ib[13]))[(l - SINGLE_END) / PTRS] != 0)
  }

  /** No block is listed twice. */
  ghost predicate NoDup(s: seq<u32>) {
    forall x: u32 :: multiset(s)[x] <= 1
  }

  // ----- contents -----

  /** Bytes the copy loop of `ext2_read_file` delivers from logical block `l` on; it stops at a missing block. */
  function ReadFrom(disk: Disk, ib: Slots, l: nat, size: nat): seq<byte>
    decreases size - 1024 * l
  {
    if 1024 * l >= size || Phys(disk, ib, l) == 0 then []
    else
      var n := if size - 1024 * l < BLOCK then size - 1024 * l else BLOCK;
      At(disk, Phys(disk, ib, l))[..n] + ReadFrom(disk, ib, l + 1, size)
  }

  /** The 1024 bytes written for logical block `l` of `content`, zero padded. */
  function Chunk(content: seq<byte>, l: nat): Block {
    seq(BLOCK, i requires 0 <= i < BLOCK => if 1024 * l + i < |content| then content[1024 * l + i] else 0)
  }

  function BlocksFor(size: nat): nat {
    (size + 1023) / 1024
  }

  // ----- the writer's numbering -----

  /** Blocks a file of `nb` data blocks takes, pointer blocks included. */
  function Needed(nb: nat): nat {
    nb + (if nb > DIRECT then 1 else 0) + (if nb > SINGLE_END then 1 + (nb - SINGLE_END + 255) / PTRS else 0)
  }

  /** Where in the order of allocation logical block `l` gets its block. */
  function Pos(l: nat): nat {
    if l < DIRECT then l else if l < SINGLE_END then l + 1 else l + 3 + (l - SINGLE_END) / PTRS
  }

  /** Where in the order of allocation the `m`-th sub pointer block gets its block. */
  function SubPos(m: nat): nat {
    270 + 257 * m
  }

  predicate ZeroSuffix(a: seq<u32>) {
    forall i, j :: 0 <= i < j < |a| && a[i] == 0 ==> a[j] == 0
  }

  /** The `k`-th entry of a pointer block whose first entry stands for logical block `first`. */
  function Entry(a: seq<u32>, nb: nat, l: nat): u32 {
    if l < nb && Pos(l) < |a| then a[Pos(l)] else 0
  }

  function SubEntry(a: seq<u32>, nb: nat, m: nat): u32 {
    if SINGLE_END + PTRS * m < nb && SubPos(m) < |a| then a[SubPos(m)] else 0
  }

  /** The tree `ext2_write_file` builds out of the sequence `a` of its allocations. */
  predicate IsTree(disk: Disk, ib: Slots, a: seq<u32>, nb: nat) {
    && |a| == Needed(nb)
    && nb <= DOUBLE_END
    && ZeroSuffix(a)
    && (forall l :: 0 <= l < DIRECT ==> ib[l] == Entry(a, nb, l))
    && ib[12] == (if nb > DIRECT then a[12] else 0)
    && ib[13] == (if nb > SINGLE_END then a[269] else 0)
    && (ib[12] != 0 ==> forall k :: 0 <= k < PTRS ==> Pointers(At(disk, ib[12]))[k] == Entry(a, nb, DIRECT + k))
    && (ib[13] != 0 ==> forall m :: 0 <= m < PTRS ==> Pointers(At(disk, ib[13]))[m] == SubEntry(a, nb, m))
    && (ib[13] != 0 ==> forall m, k :: 0 <= m < PTRS && 0 <= k < PTRS && SubEntry(a, nb, m) != 0 ==>
          Pointers(At(disk, SubEntry(a, nb, m)))[k] == Entry(a, nb, SINGLE_END + PTRS * m + k))
  }

  /** When a pointer block could not be allocated, the last write meant for it zeroed block 0. */
  predicate TrashZeroed(disk: Disk, a: seq<u32>, nb: nat) {
    && (nb > DIRECT && |a| > 12 && a[12] == 0 ==> At(disk, 0) == ZeroBlock())
    && (nb > SINGLE_END && |a| > 269 && a[269] == 0 ==> At(disk, 0) == ZeroBlock())
    && (forall m :: 0 <= m < PTRS && SINGLE_END + PTRS * m < nb && SubPos(m) < |a| && a[SubPos(m)] == 0 ==>
          At(disk, 0) == ZeroBlock())
  }

  lemma PosInRange(l: nat, nb: nat)
    requires l < nb <= DOUBLE_END
    ensures Pos(l) < Needed(nb)
    ensures l >= SINGLE_END ==> SubPos((l - SINGLE_END) / PTRS) < Pos(l)
    ensures l >= DIRECT ==> Needed(nb) > 12
    ensures l >= SINGLE_END ==> Needed(nb) > 269
  {
  }

  /** Different logical blocks sit at different positions, and none sits where a pointer block does. */
  lemma PosInjective(l: nat, k: nat, m: nat)
    requires l < DOUBLE_END && k < DOUBLE_END
    ensures Pos(l) == Pos(k) ==> l == k
    ensures Pos(l) != 12 && Pos(l) != 269 && Pos(l) != SubPos(m)
  {
  }

  /** The size cap is exactly the reach of the tree, and the master index stays below 256. */
  lemma CapIsReach(size: nat)
    requires 1 <= size <= MAX_SIZE
    ensures MAX_SIZE == DOUBLE_END * BLOCK
    ensures (size + 1023) / 1024 <= DOUBLE_END
    ensures (size + 1023) / 1024 > SINGLE_END ==> ((size + 1023) / 1024 - SINGLE_END + 255) / PTRS <= PTRS
  {
  }

  lemma WalkSingle(disk: Disk, ib: Slots, a: seq<u32>, nb: nat, l: nat)
    requires IsTree(disk, ib, a, nb) && TrashZeroed(disk, a, nb) && DIRECT <= l < nb && l < SINGLE_END
    ensures Pos(l) < |a| && Phys(disk, ib, l) == a[Pos(l)]
  {
    PosInRange(l, nb);
    var k := l - DIRECT;
    assert a[12] == 0 ==> a[Pos(l)] == 0;
    if a[12] == 0 {
      ZeroPointers();
    } else {
      assert Pointers(At(disk, ib[12]))[k] == Entry(a, nb, DIRECT + k);
    }
  }

  lemma DoubleFacts(disk: Disk, ib: Slots, a: seq<u32>, nb: nat, m: nat, k: nat)
    requires IsTree(disk, ib, a, nb) && TrashZeroed(disk, a, nb)
    requires m < PTRS && k < PTRS && SINGLE_END + PTRS * m + k < nb
    ensures SubPos(m) < Pos(SINGLE_END + PTRS * m + k) < |a|
    ensures ib[13] == a[269] && (a[269] == 0 ==> a[SubPos(m)] == 0)
    ensures a[SubPos(m)] == 0 ==> a[Pos(SINGLE_END + PTRS * m + k)] == 0 && At(disk, 0) == ZeroBlock()
    ensures ib[13] != 0 ==> Pointers(At(disk, ib[13]))[m] == a[SubPos(m)]
    ensures a[SubPos(m)] != 0 ==> Pointers(At(disk, a[SubPos(m)]))[k] == a[Pos(SINGLE_END + PTRS * m + k)]
  {
    var l := SINGLE_END + PTRS * m + k;
    assert (l - SINGLE_END) / PTRS == m;
    PosInRange(l, nb);
    assert SubEntry(a, nb, m) == a[SubPos(m)];
  }

  lemma WalkDouble(disk: Disk, ib: Slots, a: seq<u32>, nb: nat, m: nat, k: nat)
    requires IsTree(disk, ib, a, nb) && TrashZeroed(disk, a, nb)
    requires m < PTRS && k < PTRS && SINGLE_END + PTRS * m + k < nb
    ensures Pos(SINGLE_END + PTRS * m + k) < |a|
    ensures Pointers(At(disk, Pointers(At(disk, ib[13]))[m]))[k] == a[Pos(SINGLE_END + PTRS * m + k)]
  {
    hide IsTree, TrashZeroed, Needed, Pos, SubPos, Pointers, At;
    DoubleFacts(disk, ib, a, nb, m, k);
    ZeroBlockPointers(disk, m);
    ZeroBlockPointers(disk, k);
  }

  lemma ZeroBlockPointers(disk: Disk, k: nat)
    requires k < PTRS
    ensures At(disk, 0) == ZeroBlock() ==> Pointers(At(disk, 0))[k] == 0
  {
  }

  /** The reader finds every logical block where the writer put it, even on a volume that filled up midway. */
  lemma WalkAgrees(disk: Disk, ib: Slots, a: seq<u32>, nb: nat, l: nat)
    requires IsTree(disk, ib, a, nb) && TrashZeroed(disk, a, nb) && l < nb
    ensures Pos(l) < |a| && Phys(disk, ib, l) == a[Pos(l)]
  {
    PosInRange(l, nb);
    if DIRECT <= l < SINGLE_END {
      WalkSingle(disk, ib, a, nb, l);
    } else if SINGLE_END <= l {
      WalkDouble(disk, ib, a, nb, (l - SINGLE_END) / PTRS, (l - SINGLE_END) % PTRS);
    }
  }

  // ----- the destroyer frees exactly what the writer took -----

  lemma NonZeroAppend(a: seq<u32>, b: seq<u32>)
    ensures NonZero(a + b) == NonZero(a) + NonZero(b)
  {
    if a == [] {
      assert a + b == b;
    } else {
      assert (a + b)[1..] == a[1..] + b;
      NonZeroAppend(a[1..], b);
    }
  }

  lemma NonZeroOfZeros(s: seq<u32>)
    requires forall k :: 0 <= k < |s| ==> s[k] == 0
    ensures NonZero(s) == []
  {
  }

  function From(a: seq<u32>, j: nat): seq<u32> {
    if j < |a| then a[j..] else []
  }

  lemma FromZero(a: seq<u32>, j: nat, j': nat)
    requires ZeroSuffix(a) && j <= j' && (j < |a| ==> a[j] == 0)
    ensures NonZero(From(a, j')) == []
  {
    NonZeroOfZeros(From(a, j'));
  }

  /** A zero-padded pointer block holds the allocations at positions j, j + 1, ..., j + c - 1. */
  lemma LeavesAre(p: seq<u32>, a: seq<u32>, j: nat, c: nat)
    requires |p| == PTRS && c <= PTRS && j + c <= |a|
    requires forall k :: 0 <= k < PTRS ==> p[k] == if k < c then a[j + k] else 0
    ensures NonZero(p) == NonZero(a[j..j + c])
  {
    assert p == a[j..j + c] + p[c..];
    NonZeroAppend(a[j..j + c], p[c..]);
    NonZeroOfZeros(p[c..]);
  }

  /** How many of the 256 entries from logical block `first` on are in use. */
  function Count(nb: nat, first: nat): nat {
    if nb <= first then 0 else if nb - first > PTRS then PTRS else nb - first
  }

  lemma PosOfLeaf(m: nat, k: nat)
    requires k < PTRS
    ensures Pos(SINGLE_END + PTRS * m + k) == SubPos(m) + 1 + k
  {
    assert (PTRS * m + k) / PTRS == m;
  }

  lemma SubEntries(disk: Disk, ib: Slots, a: seq<u32>, nb: nat, m: nat, k: nat)
    requires IsTree(disk, ib, a, nb) && ib[13] != 0 && m < PTRS && SubEntry(a, nb, m) != 0 && k < PTRS
    ensures Pointers(At(disk, SubEntry(a, nb, m)))[k] == Entry(a, nb, SINGLE_END + PTRS * m + k)
  {
  }

  lemma TreeCap(disk: Disk, ib: Slots, a: seq<u32>, nb: nat)
    requires IsTree(disk, ib, a, nb)
    ensures nb <= DOUBLE_END
  {
  }

  lemma SubLeaves(disk: Disk, ib: Slots, a: seq<u32>, nb: nat, m: nat)
    requires IsTree(disk, ib, a, nb) && ib[13] != 0 && m < PTRS && SubEntry(a, nb, m) != 0
    ensures SubPos(m) + 1 + Count(nb, SINGLE_END + PTRS * m) <= |a|
    ensures NonZero(Pointers(At(disk, SubEntry(a, nb, m))))
         == NonZero(a[SubPos(m) + 1..SubPos(m) + 1 + Count(nb, SINGLE_END + PTRS * m)])
  {
    hide IsTree, Pointers, At, NonZero, Pos;
    var first := SINGLE_END + PTRS * m;
    var c, j := Count(nb, first), SubPos(m) + 1;
    TreeShape(disk, ib, a, nb, m);
    TreeCap(disk, ib, a, nb);
    PosInRange(first + c - 1, nb);
    PosOfLeaf(m, c - 1);
    var p := Pointers(At(disk, SubEntry(a, nb, m)));
    forall k | 0 <= k < PTRS
      ensures p[k] == if k < c then a[j + k] else 0
    {
      SubEntries(disk, ib, a, nb, m, k);
      PosOfLeaf(m, k);
    }
    LeavesAre(p, a, j, c);
  }

  lemma NonZeroOne(x: u32)
    ensures NonZero([x]) == if x == 0 then [] else [x]
  {
  }

  /** A pointer block counts before its leaves for the writer and after them for the destroyer. */
  lemma LeavesPermute(disk: Disk, p: u32, leaves: seq<u32>)
    requires p != 0 && NonZero(Pointers(At(disk, p))) == NonZero(leaves)
    ensures multiset(Leaves(disk, p)) == multiset(NonZero([p] + leaves))
  {
    NonZeroAppend([p], leaves);
    NonZeroOne(p);
  }

  lemma SubStep(disk: Disk, ms: seq<u32>, leaves: seq<u32>, rest: seq<u32>)
    requires ms != [] && ms[0] != 0 && NonZero(Pointers(At(disk, ms[0]))) == NonZero(leaves)
    requires multiset(Subs(disk, ms[1..])) == multiset(NonZero(rest))
    ensures multiset(Subs(disk, ms)) == multiset(NonZero([ms[0]] + leaves + rest))
  {
    LeavesPermute(disk, ms[0], leaves);
    NonZeroAppend([ms[0]] + leaves, rest);
    assert Subs(disk, ms) == Leaves(disk, ms[0]) + Subs(disk, ms[1..]);
  }

  lemma Segment(a: seq<u32>, j: nat, c: nat)
    requires j + 1 + c <= |a|
    ensures a[j..] == [a[j]] + a[j + 1..j + 1 + c] + a[j + 1 + c..]
  {
  }

  lemma SubSkip(disk: Disk, ms: seq<u32>, a: seq<u32>, j: nat, j': nat)
    requires ms != [] && ms[0] == 0 && ZeroSuffix(a) && j <= j'
    requires multiset(Subs(disk, ms[1..])) == multiset(NonZero(From(a, j')))
    requires j < |a| ==> a[j] == 0
    ensures multiset(Subs(disk, ms)) == multiset(NonZero(From(a, j)))
  {
    FromZero(a, j, j);
    FromZero(a, j, j');
    assert Subs(disk, ms) == Subs(disk, ms[1..]);
  }

  lemma NothingBeyond(nb: nat, m: nat)
    requires nb > SINGLE_END && nb <= SINGLE_END + PTRS * m
    ensures Needed(nb) <= SubPos(m)
  {
  }

  /** The allocations from one sub pointer block on: itself, its leaves, then the next one's. */
  lemma Segments(a: seq<u32>, nb: nat, m: nat)
    requires SINGLE_END + PTRS * m < nb && |a| == Needed(nb)
    ensures SubPos(m) + 1 + Count(nb, SINGLE_END + PTRS * m) <= |a|
    ensures From(a, SubPos(m))
         == [a[SubPos(m)]] + a[SubPos(m) + 1..SubPos(m) + 1 + Count(nb, SINGLE_END + PTRS * m)] + From(a, SubPos(m + 1))
  {
    var j, c := SubPos(m), Count(nb, SINGLE_END + PTRS * m);
    assert j + 1 + c == if SubPos(m + 1) < Needed(nb) then SubPos(m + 1) else Needed(nb);
    assert From(a, SubPos(m + 1)) == a[j + 1 + c..];
    Segment(a, j, c);
  }

  lemma TreeShape(disk: Disk, ib: Slots, a: seq<u32>, nb: nat, m: nat)
    requires IsTree(disk, ib, a, nb) && ib[13] != 0 && m < PTRS
    ensures nb > SINGLE_END && |a| == Needed(nb) && ZeroSuffix(a)
    ensures Pointers(At(disk, ib[13]))[m] == SubEntry(a, nb, m)
    ensures SINGLE_END + PTRS * m < nb ==> SubPos(m) < |a|
  {
    if SINGLE_END + PTRS * m < nb {
      PosInRange(SINGLE_END + PTRS * m, nb);
    }
  }

  lemma SubsFrom(disk: Disk, ms: seq<u32>, a: seq<u32>, nb: nat, m: nat)
    requires m < |ms| == PTRS && nb > SINGLE_END && |a| == Needed(nb)
    requires SINGLE_END + PTRS * m < nb ==> SubPos(m) < |a|
    requires ms[m] == SubEntry(a, nb, m) && ms[m] != 0
    requires
      var c := Count(nb, SINGLE_END + PTRS * m);
      SubPos(m) + 1 + c <= |a| && NonZero(Pointers(At(disk, ms[m]))) == NonZero(a[SubPos(m) + 1..SubPos(m) + 1 + c])
    requires multiset(Subs(disk, ms[m + 1..])) == multiset(NonZero(From(a, SubPos(m + 1))))
    ensures multiset(Subs(disk, ms[m..])) == multiset(NonZero(From(a, SubPos(m))))
  {
    assert ms[m..][1..] == ms[m + 1..];
    Segments(a, nb, m);
    SubStep(disk, ms[m..], a[SubPos(m) + 1..SubPos(m) + 1 + Count(nb, SINGLE_END + PTRS * m)], From(a, SubPos(m + 1)));
  }

  lemma {:induction false} SubsOfTree(disk: Disk, ib: Slots, a: seq<u32>, nb: nat, m: nat)
    requires IsTree(disk, ib, a, nb) && ib[13] != 0 && m <= PTRS
    ensures multiset(Subs(disk, Pointers(At(disk, ib[13]))[m..])) == multiset(NonZero(From(a, SubPos(m))))
    decreases PTRS - m
  {
    var ms := Pointers(At(disk, ib[13]));
    if m == PTRS {
      NothingBeyond(nb, m);
      assert ms[m..] == [] && From(a, SubPos(m)) == [];
    } else {
      SubsOfTree(disk, ib, a, nb, m + 1);
      TreeShape(disk, ib, a, nb, m);
      if ms[m] != 0 {
        SubLeaves(disk, ib, a, nb, m);
        SubsFrom(disk, ms, a, nb, m);
      } else {
        assert SINGLE_END + PTRS * m >= nb ==> |a| <= SubPos(m) by {
          if SINGLE_END + PTRS * m >= nb {
            NothingBeyond(nb, m);
          }
        }
        assert ms[m..][1..] == ms[m + 1..];
        SubSkip(disk, ms[m..], a, SubPos(m), SubPos(m + 1));
      }
    }
  }

  lemma SingleLeaves(disk: Disk, ib: Slots, a: seq<u32>, nb: nat)
    requires IsTree(disk, ib, a, nb) && nb > DIRECT && a[12] != 0
    ensures 13 + Count(nb, DIRECT) <= |a|
    ensures ib[12] == a[12]
    ensures NonZero(Pointers(At(disk, ib[12]))) == NonZero(a[13..13 + Count(nb, DIRECT)])
  {
    var c := Count(nb, DIRECT);
    PosInRange(DIRECT + c - 1, nb);
    var p := Pointers(At(disk, ib[12]));
    forall k | 0 <= k < PTRS
      ensures p[k] == if k < c then a[13 + k] else 0
    {
      assert p[k] == Entry(a, nb, DIRECT + k);
    }
    LeavesAre(p, a, 13, c);
  }

  lemma SingleBase(disk: Disk, ib: Slots, a: seq<u32>, nb: nat)
    requires IsTree(disk, ib, a, nb) && nb > DIRECT
    ensures 13 + Count(nb, DIRECT) <= |a| && ib[12] == a[12] && ZeroSuffix(a)
  {
    hide Pointers, At;
    PosInRange(DIRECT + Count(nb, DIRECT) - 1, nb);
  }

  lemma SingleOfTree(disk: Disk, ib: Slots, a: seq<u32>, nb: nat)
    requires IsTree(disk, ib, a, nb) && nb > DIRECT
    ensures 13 + Count(nb, DIRECT) <= |a|
    ensures multiset(OwnedSingle(disk, ib[12])) == multiset(NonZero(a[12..13 + Count(nb, DIRECT)]))
  {
    hide IsTree, Needed, Pos, Pointers, At, Leaves, NonZero;
    var c := Count(nb, DIRECT);
    SingleBase(disk, ib, a, nb);
    if a[12] == 0 {
      assert forall k :: 12 <= k < 13 + c ==> a[k] == 0;
      NonZeroOfZeros(a[12..13 + c]);
    } else {
      SingleLeaves(disk, ib, a, nb);
      assert a[12..13 + c] == [a[12]] + a[13..13 + c];
      LeavesPermute(disk, ib[12], a[13..13 + c]);
    }
  }

  lemma HeadTail(a: seq<u32>, j: nat)
    requires j < |a|
    ensures a[j..] == [a[j]] + From(a, j + 1)
  {
  }

  lemma DoubleOfTree(disk: Disk, ib: Slots, a: seq<u32>, nb: nat)
    requires IsTree(disk, ib, a, nb) && nb > SINGLE_END
    ensures multiset(OwnedDouble(disk, ib[13])) == multiset(NonZero(a[269..]))
  {
    if a[269] == 0 {
      FromZero(a, 269, 269);
      assert From(a, 269) == a[269..];
    } else {
      SubsOfTree(disk, ib, a, nb, 0);
      MasterPermute(disk, ib[13], From(a, 270));
      HeadTail(a, 269);
    }
  }

  lemma MasterPermute(disk: Disk, p: u32, rest: seq<u32>)
    requires p != 0 && multiset(Subs(disk, Pointers(At(disk, p))[0..])) == multiset(NonZero(rest))
    ensures multiset(Subs(disk, Pointers(At(disk, p))) + [p]) == multiset(NonZero([p] + rest))
  {
    assert Pointers(At(disk, p))[0..] == Pointers(At(disk, p));
    NonZeroAppend([p], rest);
    NonZeroOne(p);
  }

  lemma DirectOfTree(disk: Disk, ib: Slots, a: seq<u32>, nb: nat)
    requires IsTree(disk, ib, a, nb)
    ensures NonZero(ib[..12]) == NonZero(if nb < DIRECT then a else a[..12])
  {
    var d := if nb < DIRECT then a else a[..12];
    assert ib[..12] == d + ib[|d|..12] by {
      assert forall l :: 0 <= l < DIRECT ==> ib[l] == Entry(a, nb, l);
    }
    NonZeroAppend(d, ib[|d|..12]);
    NonZeroOfZeros(ib[|d|..12]);
  }

  lemma SmallTree(disk: Disk, ib: Slots, a: seq<u32>, nb: nat)
    requires IsTree(disk, ib, a, nb) && nb <= DIRECT
    ensures Owned(disk, ib) == NonZero(a)
  {
    DirectOfTree(disk, ib, a, nb);
    var d := if nb < DIRECT then a else a[..12];
    assert d == a;
    assert OwnedSingle(disk, ib[12]) == [] && OwnedDouble(disk, ib[13]) == [];
  }

  lemma NonZeroThree(x: seq<u32>, y: seq<u32>, z: seq<u32>)
    ensures NonZero(x + y + z) == NonZero(x) + NonZero(y) + NonZero(z)
  {
    NonZeroAppend(x + y, z);
    NonZeroAppend(x, y);
  }

  lemma Cut(a: seq<u32>, i: nat, j: nat)
    requires i <= j <= |a|
    ensures a == a[..i] + a[i..j] + a[j..]
  {
  }

  lemma Join(p: seq<u32>, q: seq<u32>, r: seq<u32>, a: seq<u32>, i: nat, j: nat)
    requires i <= j <= |a|
    requires multiset(p) == multiset(NonZero(a[..i])) && multiset(q) == multiset(NonZero(a[i..j]))
    requires multiset(r) == multiset(NonZero(a[j..]))
    ensures multiset(p + q + r) == multiset(NonZero(a))
  {
    Cut(a, i, j);
    NonZeroThree(a[..i], a[i..j], a[j..]);
  }

  lemma RestOfTree(disk: Disk, ib: Slots, a: seq<u32>, nb: nat)
    requires IsTree(disk, ib, a, nb) && nb > DIRECT
    ensures 13 + Count(nb, DIRECT) <= |a|
    ensures multiset(OwnedDouble(disk, ib[13])) == multiset(NonZero(a[13 + Count(nb, DIRECT)..]))
  {
    if nb > SINGLE_END {
      DoubleOfTree(disk, ib, a, nb);
    } else {
      assert a[13 + Count(nb, DIRECT)..] == [];
    }
  }

  /** The destroyer's walk visits every block the writer allocated exactly once, and nothing else. */
  lemma OwnedIsAllocated(disk: Disk, ib: Slots, a: seq<u32>, nb: nat)
    requires IsTree(disk, ib, a, nb)
    ensures multiset(Owned(disk, ib)) == multiset(NonZero(a))
  {
    hide NonZero, OwnedSingle, OwnedDouble, Needed, IsTree;
    if nb <= DIRECT {
      SmallTree(disk, ib, a, nb);
    } else {
      DirectOfTree(disk, ib, a, nb);
      SingleOfTree(disk, ib, a, nb);
      RestOfTree(disk, ib, a, nb);
      var p, q, r := NonZero(ib[..12]), OwnedSingle(disk, ib[12]), OwnedDouble(disk, ib[13]);
      Join(p, q, r, a, 12, 13 + Count(nb, DIRECT));
      assert Owned(disk, ib) == p + q + r;
    }
  }

  // ----- what a tree depends on -----

  lemma {:induction false} InNonZero(s: seq<u32>, x: u32)
    ensures x in NonZero(s) <==> x in s && x != 0
  {
    if s != [] {
      InNonZero(s[1..], x);
      assert s == [s[0]] + s[1..];
    }
  }

  lemma {:induction false} InSubs(disk: Disk, ms: seq<u32>, m: u32, x: u32)
    requires m in ms && m != 0 && x in Leaves(disk, m)
    ensures x in Subs(disk, ms)
  {
    assert ms == [ms[0]] + ms[1..];
    if m != ms[0] {
      InSubs(disk, ms[1..], m, x);
    }
  }

  lemma PointerBlocksOwned(disk: Disk, ib: Slots, p: u32)
    requires p in PointerBlocks(disk, ib)
    ensures p in Owned(disk, ib) && p != 0
  {
    if p != ib[12] && p != ib[13] {
      InSubs(disk, Pointers(At(disk, ib[13])), p, p);
    }
  }

  lemma {:induction false} SubsFrame(disk: Disk, disk': Disk, ms: seq<u32>)
    requires forall m :: m in ms && m != 0 ==> At(disk', m) == At(disk, m)
    ensures Subs(disk', ms) == Subs(disk, ms)
  {
    if ms != [] {
      SubsFrame(disk, disk', ms[1..]);
    }
  }

  /** The tree only depends on its pointer blocks. */
  lemma OwnedFrame(disk: Disk, disk': Disk, ib: Slots)
    requires forall p :: p in PointerBlocks(disk, ib) ==> At(disk', p) == At(disk, p)
    ensures Owned(disk', ib) == Owned(disk, ib) && PointerBlocks(disk', ib) == PointerBlocks(disk, ib)
  {
    if ib[13] != 0 {
      assert ib[13] in PointerBlocks(disk, ib);
      SubsFrame(disk, disk', Pointers(At(disk, ib[13])));
    }
  }

  lemma PhysFrame(disk: Disk, disk': Disk, ib: Slots, l: nat)
    requires forall p :: p in PointerBlocks(disk, ib) ==> At(disk', p) == At(disk, p)
    requires PathOk(disk, ib, l)
    ensures Phys(disk', ib, l) == Phys(disk, ib, l) && PathOk(disk', ib, l)
  {
    if SINGLE_END <= l < DOUBLE_END {
      var m := Pointers(At(disk, ib[13]))[(l - SINGLE_END) / PTRS];
      assert m in Pointers(At(disk, ib[13]));
      assert ib[13] in PointerBlocks(disk, ib) && m in PointerBlocks(disk, ib);
    }
  }

  /** Every block the reader reaches is one the destroyer frees. */
  lemma PhysOwned(disk: Disk, ib: Slots, l: nat)
    requires PathOk(disk, ib, l) && Phys(disk, ib, l) != 0
    ensures Phys(disk, ib, l) in Owned(disk, ib)
  {
    var x := Phys(disk, ib, l);
    if l < DIRECT {
      assert ib[..12][l] == x;
      InNonZero(ib[..12], x);
    } else if l < SINGLE_END {
      InNonZero(Pointers(At(disk, ib[12])), x);
    } else {
      var ms := Pointers(At(disk, ib[13]));
      var m := ms[(l - SINGLE_END) / PTRS];
      assert m in ms;
      InNonZero(Pointers(At(disk, m)), x);
      InSubs(disk, ms, m, x);
    }
  }

  lemma PhysKept(disk: Disk, disk': Disk, ib: Slots, l: nat)
    requires forall p :: p in Owned(disk, ib) ==> At(disk', p) == At(disk, p)
    requires PathOk(disk, ib, l)
    ensures Phys(disk', ib, l) == Phys(disk, ib, l)
    ensures Phys(disk, ib, l) != 0 ==> At(disk', Phys(disk, ib, l)) == At(disk, Phys(disk, ib, l))
  {
    hide Owned, PointerBlocks, Phys, PathOk, At;
    forall p | p in PointerBlocks(disk, ib)
      ensures At(disk', p) == At(disk, p)
    {
      PointerBlocksOwned(disk, ib, p);
    }
    PhysFrame(disk, disk', ib, l);
    if Phys(disk, ib, l) != 0 {
      PhysOwned(disk, ib, l);
    }
  }

  /** Contents only depend on the blocks of the tree, as long as no pointer block is missing. */
  lemma {:induction false} ReadFrame(disk: Disk, disk': Disk, ib: Slots, l: nat, size: nat)
    requires forall p :: p in Owned(disk, ib) ==> At(disk', p) == At(disk, p)
    requires forall k :: 0 <= k < BlocksFor(size) ==> PathOk(disk, ib, k)
    ensures ReadFrom(disk', ib, l, size) == ReadFrom(disk, ib, l, size)
    decreases size - 1024 * l
  {
    hide Owned, Phys, PathOk, At;
    if 1024 * l < size {
      assert PathOk(disk, ib, l);
      PhysKept(disk, disk', ib, l);
      ReadFrame(disk, disk', ib, l + 1, size);
    }
  }

  /** Reading a file whose every logical block holds its chunk of `content` gives `content` back. */
  lemma ChunkSlice(content: seq<byte>, l: nat, n: nat)
    requires n <= BLOCK && 1024 * l + n <= |content|
    ensures Chunk(content, l)[..n] == content[1024 * l..1024 * l + n]
    ensures content[1024 * l..] == content[1024 * l..1024 * l + n] + content[1024 * l + n..]
  {
  }

  lemma {:induction false} ReadChunks(disk: Disk, ib: Slots, content: seq<byte>, l: nat)
    requires 1024 * l <= |content|
    requires forall k :: 0 <= k < BlocksFor(|content|) ==>
      Phys(disk, ib, k) != 0 && At(disk, Phys(disk, ib, k)) == Chunk(content, k)
    ensures ReadFrom(disk, ib, l, |content|) == content[1024 * l..]
    decreases |content| - 1024 * l
  {
    hide Phys, At, Chunk;
    if 1024 * l < |content| {
      assert l < BlocksFor(|content|);
      var n := if |content| - 1024 * l < BLOCK then |content| - 1024 * l else BLOCK;
      ChunkSlice(content, l, n);
      if n == BLOCK {
        ReadChunks(disk, ib, content, l + 1);
      } else {
        assert ReadFrom(disk, ib, l + 1, |content|) == [];
      }
    }
  }

  /** A missing block makes the read come out short. */
  lemma {:induction false} ReadShort(disk: Disk, ib: Slots, l: nat, k: nat, size: nat)
    requires l <= k && 1024 * k < size && Phys(disk, ib, k) == 0
    ensures |ReadFrom(disk, ib, l, size)| <= 1024 * (k - l)
    decreases k - l
  {
    if l < k && Phys(disk, ib, l) != 0 {
      ReadShort(disk, ib, l + 1, k, size);
    }
  }

  lemma {:induction false} SubsAppend(disk: Disk, ms: seq<u32>, m: u32)
    ensures Subs(disk, ms + [m]) == Subs(disk, ms) + (if m == 0 then [] else Leaves(disk, m))
  {
    hide Leaves;
    if ms == [] {
      assert ms + [m] == [m] && [m][1..] == [];
      assert Subs(disk, [m]) == if m == 0 then [] else Leaves(disk, m);
    } else {
      assert (ms + [m])[1..] == ms[1..] + [m] && (ms + [m])[0] == ms[0];
      SubsAppend(disk, ms[1..], m);
    }
  }
}
