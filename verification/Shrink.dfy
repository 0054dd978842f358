/** Removing a file or a whole subtree frees exactly what it owns and keeps the rest of the volume sound. */
module Shrink {
  import opened Bytes
  import opened Bitmap
  import opened BlockTree
  import opened RecordChain
  import opened DirBlock
  import opened VolumeState

  /** Some inode of `gone` owns block `b`. */
  ghost predicate OwnedBy(v: Vol, gone: set<nat>, b: nat) {
    exists j: nat :: j in gone && b in Own(v, j)
  }

  /** The bits of exactly the blocks of `gone` were cleared. */
  ghost predicate BlocksFreed(v: Vol, bm: Bits, bm': Bits, gone: set<nat>) {
    |bm'| == |bm| && forall n: nat :: Bit(bm', n) <==> (Bit(bm, n) && !OwnedBy(v, gone, n + 1))
  }

  /** The bits of exactly the inodes of `gone` were cleared. */
  ghost predicate NodesFreed(im: Bits, im': Bits, gone: set<nat>) {
    |im'| == |im| && forall n: nat :: Bit(im', n) <==> (Bit(im, n) && n + 1 !in gone)
  }

  /** `gone` is `t` and everything below it. */
  ghost predicate Subtree(v: Vol, live: set<nat>, t: nat, gone: set<nat>) {
    && t in gone && gone <= live
    && (forall e: nat, m: Name, j: nat :: Child(v, live, e, m, j) && e in gone ==> j in gone)
    && (forall j: nat :: j in gone && j != t ==> exists e: nat, m: Name :: e in gone && Child(v, live, e, m, j))
  }

  /** Name `n` of directory `d` was unlinked and the subtree `gone` behind it freed. */
  ghost predicate Removed(v: Vol, v': Vol, live: set<nat>, d: nat, n: Name, t: nat, gone: set<nat>) {
    && Child(v, live, d, n, t)
    && v'.first == v.first && v'.inodes == v.inodes
    && KeptBut(v, v', DirNum(v, d))
    && WellFormed(DirBlk(v', d)) && Ents(v', d) == Ents(v, d) - {n} && Records(DirBlk(v', d))[0].Rec?
    && Records(DirBlk(v', d))[0].name == Records(DirBlk(v, d))[0].name && SameTail(DirBlk(v, d), DirBlk(v', d))
    && BlocksFreed(v, v.blockMap, v'.blockMap, gone)
    && NodesFreed(v.nodeMap, v'.nodeMap, gone)
    && Subtree(v, live, t, gone)
  }

  // ----- the subtree does not reach its own parent -----

  lemma {:induction false} Shallowest(depth: map<nat, nat>, gone: set<nat>) returns (j: nat)
    requires gone != {} && forall i: nat :: i in gone ==> i in depth
    ensures j in gone && forall i: nat :: i in gone ==> depth[j] <= depth[i]
    decreases gone
  {
    var k :| k in gone;
    if gone == {k} {
      j := k;
    } else {
      var m := Shallowest(depth, gone - {k});
      j := if depth[k] <= depth[m] then k else m;
    }
  }

  lemma GoneBelow(v: Vol, live: set<nat>, t: nat, gone: set<nat>, depth: map<nat, nat>)
    requires Ranked(v, live, depth) && Subtree(v, live, t, gone)
    ensures forall i: nat :: i in gone ==> i in depth && depth[t] <= depth[i]
  {
    hide Child;
    var j := Shallowest(depth, gone);
    assert j == t;
  }

  lemma OutsideGone(v: Vol, live: set<nat>, d: nat, n: Name, t: nat, gone: set<nat>)
    requires Sound(v, live) && Child(v, live, d, n, t) && Subtree(v, live, t, gone)
    ensures d !in gone && ROOT !in gone
  {
    hide Child, BlocksSound, DirWell;
    var depth :| Ranked(v, live, depth);
    GoneBelow(v, live, t, gone, depth);
    ChildIn(v, live, d, n, t);
    if ROOT in gone {
      assert false;
    }
  }

  lemma ChildIn(v: Vol, live: set<nat>, d: nat, n: Name, i: nat)
    requires Child(v, live, d, n, i)
    ensures d in live && IsDir(v, d) && n in Ents(v, d) && Ents(v, d)[n] == i
  {
  }

  /** What is freed is named from inside, except the top by its own name. */
  lemma HeldInside(v: Vol, live: set<nat>, d: nat, n: Name, t: nat, gone: set<nat>, e: nat, m: Name, j: nat)
    requires TreeSound(v, live) && Child(v, live, d, n, t) && Subtree(v, live, t, gone) && Child(v, live, e, m, j)
    ensures j in gone ==> e in gone || (e == d && m == n)
  {
    hide Child;
  }

  /** No remaining directory names a removed inode, except `d` by `n`. */
  lemma NoDangling(v: Vol, live: set<nat>, d: nat, n: Name, t: nat, gone: set<nat>, e: nat, m: Name)
    requires Sound(v, live) && Child(v, live, d, n, t) && Subtree(v, live, t, gone)
    requires Dir(v, live, e) && e !in gone && !(e == d && m == n)
    ensures m in Ents(v, e) ==> Ents(v, e)[m] in live && Ents(v, e)[m] !in gone
  {
    hide BlocksSound, Ents, IsDir, TreeSound, Acyclic, Subtree;
    assert DirWell(v, live, e);
    if m == [DOT, DOT] {
      ParentStays(v, live, d, n, t, gone, e);
    } else if m != [DOT] && m in Ents(v, e) {
      HeldInside(v, live, d, n, t, gone, e, m, Ents(v, e)[m]);
    }
  }

  lemma ParentStays(v: Vol, live: set<nat>, d: nat, n: Name, t: nat, gone: set<nat>, e: nat)
    requires Sound(v, live) && Child(v, live, d, n, t) && Subtree(v, live, t, gone)
    requires Dir(v, live, e) && e !in gone
    ensures ParentOf(v, e) !in gone
  {
    hide BlocksSound, DirWell, Child, IsDir;
    var p := ParentOf(v, e);
    OutsideGone(v, live, d, n, t, gone);
    if e != ROOT {
      assert Holds(v, live, p, e);
      var m: Name :| Child(v, live, p, m, e);
    }
  }

  // ----- soundness of what remains -----

  lemma OwnedInside(v: Vol, live: set<nat>, gone: set<nat>, x: nat)
    requires BlocksSound(v, live) && gone <= live
    ensures OwnedBy(v, gone, x) ==> v.first <= x < |v.disk|
  {
    hide Bit, Own, NoDup, Shape;
    if OwnedBy(v, gone, x) {
      var j: nat :| j in gone && x in Own(v, j);
      assert OwnsWell(v, j);
    }
  }

  lemma ShapeShrunk(v: Vol, v': Vol, live: set<nat>, gone: set<nat>)
    requires BlocksSound(v, live) && gone <= live && |v'.disk| == |v.disk| && v'.inodes == v.inodes
    requires v'.first == v.first
    requires BlocksFreed(v, v.blockMap, v'.blockMap, gone) && NodesFreed(v.nodeMap, v'.nodeMap, gone)
    ensures Shape(v')
  {
    hide Bit, Own, NoDup;
    forall n: nat | n + 1 < v.first || |v.disk| - 1 <= n < 8 * |v.blockMap|
      ensures Bit(v'.blockMap, n)
    {
      OwnedInside(v, live, gone, n + 1);
    }
  }

  lemma OnlyOwner(v: Vol, live: set<nat>, gone: set<nat>, i: nat, x: u32)
    requires BlocksSound(v, live) && gone <= live && i in live && x in Own(v, i)
    ensures OwnedBy(v, gone, x) <==> i in gone
  {
    hide Bit, Own, NoDup, Shape, OwnsWell;
  }

  lemma OwnsWellShrunk(v: Vol, v': Vol, live: set<nat>, gone: set<nat>, i: nat)
    requires BlocksSound(v, live) && gone <= live && |v'.disk| == |v.disk| && v'.first == v.first
    requires BlocksFreed(v, v.blockMap, v'.blockMap, gone) && i in live && i !in gone && Own(v', i) == Own(v, i)
    ensures OwnsWell(v', i)
  {
    hide Bit, Own, NoDup, Shape;
    assert OwnsWell(v, i);
    forall x: u32 | x in Own(v', i)
      ensures Bit(v'.blockMap, x - 1)
    {
      OnlyOwner(v, live, gone, i, x);
      assert Bit(v.blockMap, x - 1);
      assert x - 1 + 1 == x;
    }
  }

  lemma BlocksShrunk(v: Vol, v': Vol, live: set<nat>, d: nat, n: Name, t: nat, gone: set<nat>)
    requires Sound(v, live) && Removed(v, v', live, d, n, t, gone)
    ensures BlocksSound(v', live - gone)
    ensures forall i: nat :: i in live ==> Node(v', i) == Node(v, i) && Own(v', i) == Own(v, i)
  {
    hide Bit, Own, IsDir, DirNum, TreeSound, DirWell, Shape, OwnsWell, NoDup, Child, Ents, Acyclic, BlocksFreed,
      WellFormed, Records;
    ShapeShrunk(v, v', live, gone);
    RemovedDir(v, v', live, d, n, t, gone);
    forall i: nat | i in live
      ensures Node(v', i) == Node(v, i) && Own(v', i) == Own(v, i)
      ensures i !in gone ==> OwnsWell(v', i)
    {
      OwnKept(v, v', live, d, i);
      if i !in gone {
        OwnsWellShrunk(v, v', live, gone, i);
      }
    }
  }

  lemma RemovedDir(v: Vol, v': Vol, live: set<nat>, d: nat, n: Name, t: nat, gone: set<nat>)
    requires Removed(v, v', live, d, n, t, gone)
    ensures Dir(v, live, d) && n in Ents(v, d) && !IsDots(n) && KeptBut(v, v', DirNum(v, d))
    ensures Subtree(v, live, t, gone)
    ensures Child(v, live, d, n, t) && v'.inodes == v.inodes && Ents(v', d) == Ents(v, d) - {n}
    ensures SameTail(DirBlk(v, d), DirBlk(v', d))
  {
  }

  lemma DirShrunk(v: Vol, v': Vol, live: set<nat>, d: nat, n: Name, t: nat, gone: set<nat>, e: nat)
    requires Sound(v, live) && Removed(v, v', live, d, n, t, gone) && Dir(v, live, e) && e !in gone
    ensures Node(v', e) == Node(v, e)
    ensures Ents(v', e) == if e == d then Ents(v, d) - {n} else Ents(v, e)
    ensures ParentOf(v', e) == ParentOf(v, e)
    ensures DirWell(v', live - gone, e)
  {
    hide BlocksSound, TreeSound, Acyclic, WellFormed, Records, Read32, Child, BlocksFreed, NodesFreed, KeptBut, At;
    RemovedDir(v, v', live, d, n, t, gone);
    assert DirWell(v, live, e);
    OtherBlocksKept(v, v', live, d, e);
    forall m: Name | !(e == d && m == n)
      ensures m in Ents(v, e) ==> Ents(v, e)[m] in live && Ents(v, e)[m] !in gone
    {
      NoDangling(v, live, d, n, t, gone, e, m);
    }
    if e != d {
      DirKept(v, v', live, d, e);
    }
  }

  lemma ChildShrunk(v: Vol, v': Vol, live: set<nat>, d: nat, n: Name, gone: set<nat>, e: nat, m: Name, i: nat)
    requires e in live && e !in gone ==> Node(v', e) == Node(v, e)
    requires Dir(v, live, e) && e !in gone ==> Ents(v', e) == if e == d then Ents(v, d) - {n} else Ents(v, e)
    ensures Child(v', live - gone, e, m, i) <==> Child(v, live, e, m, i) && e !in gone && !(e == d && m == n)
  {
    hide Ents, Node;
  }

  lemma TreeShrunk(v: Vol, v': Vol, live: set<nat>, d: nat, n: Name, t: nat, gone: set<nat>)
    requires Sound(v, live) && Removed(v, v', live, d, n, t, gone)
    requires forall k: nat :: k in live ==> Node(v', k) == Node(v, k)
    requires forall k: nat :: Dir(v, live, k) && k !in gone ==> Ents(v', k) == if k == d then Ents(v, d) - {n}
      else Ents(v, k)
    requires forall k: nat :: Dir(v, live, k) && k !in gone ==> ParentOf(v', k) == ParentOf(v, k)
    ensures TreeSound(v', live - gone) && Acyclic(v', live - gone)
  {
    hide Ents, Node, BlocksSound, ParentOf, DirWell, Child, Removed;
    RemovedDir(v, v', live, d, n, t, gone);
    var live' := live - gone;
    forall e: nat, m: Name, i: nat
      ensures Child(v', live', e, m, i) <==> Child(v, live, e, m, i) && e !in gone && !(e == d && m == n)
    {
      ChildShrunk(v, v', live, d, n, gone, e, m, i);
    }
    OutsideGone(v, live, d, n, t, gone);
    forall e: nat | Dir(v', live', e) && e != ROOT
      ensures Holds(v', live', ParentOf(v', e), e)
    {
      assert Dir(v, live, e);
      assert Holds(v, live, ParentOf(v, e), e);
      var m: Name :| Child(v, live, ParentOf(v, e), m, e);
      ParentStays(v, live, d, n, t, gone, e);
      ChildUnique(v, live, d, n, t, ParentOf(v, e), m, e);
      assert Child(v', live', ParentOf(v', e), m, e);
    }
    var depth :| Ranked(v, live, depth);
    assert Ranked(v', live', depth);
  }

  lemma ChildUnique(v: Vol, live: set<nat>, d: nat, n: Name, t: nat, e: nat, m: Name, i: nat)
    requires Child(v, live, d, n, t) && Child(v, live, e, m, i)
    ensures e == d && m == n ==> i == t
  {
  }

  /**
    Removing a name and freeing the subtree behind it keeps the volume sound and every other directory and inode as it
    was.
   */
  lemma RemovedSound(v: Vol, v': Vol, live: set<nat>, d: nat, n: Name, t: nat, gone: set<nat>)
    requires Sound(v, live) && Removed(v, v', live, d, n, t, gone)
    ensures Sound(v', live - gone) && d in live - gone
    ensures forall k: nat :: k in live ==> Node(v', k) == Node(v, k) && Own(v', k) == Own(v, k)
    ensures forall k: nat :: Dir(v, live, k) && k !in gone ==> Ents(v', k) == if k == d then Ents(v, d) - {n}
      else Ents(v, k)
  {
    hide Ents, Node, BlocksSound, ParentOf, DirWell, Child, Removed, TreeSound, Acyclic, Own;
    BlocksShrunk(v, v', live, d, n, t, gone);
    RemovedDir(v, v', live, d, n, t, gone);
    OutsideGone(v, live, d, n, t, gone);
    forall k: nat | Dir(v, live, k) && k !in gone
      ensures Ents(v', k) == if k == d then Ents(v, d) - {n} else Ents(v, k)
      ensures ParentOf(v', k) == ParentOf(v, k)
      ensures DirWell(v', live - gone, k)
    {
      DirShrunk(v, v', live, d, n, t, gone, k);
    }
    TreeShrunk(v, v', live, d, n, t, gone);
    assert Dir(v', live - gone, ROOT);
    forall k: nat | Dir(v', live - gone, k)
      ensures DirWell(v', live - gone, k)
    {
      assert Dir(v, live, k);
    }
  }
}
