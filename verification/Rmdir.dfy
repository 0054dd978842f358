/** What `ext2_remove_directory` leaves behind: the exact subtree for an ordinary name, damage for "." and "..". */
module Rmdir {
  import opened Bytes
  import opened Bitmap
  import opened BlockTree
  import opened RecordChain
  import opened DirBlock
  import opened VolumeState
  import opened Damage
  import opened Shrink
  import opened Wiping

  lemma MaxDepth(depth: map<nat, nat>, live: set<nat>) returns (bound: nat)
    requires forall i: nat :: i in live ==> i in depth
    ensures forall i: nat :: i in live ==> depth[i] <= bound
    decreases live
  {
    if live == {} {
      bound := 0;
    } else {
      var k :| k in live;
      var b := MaxDepth(depth, live - {k});
      bound := if depth[k] > b then depth[k] else b;
    }
  }

  /** Directory `d` after its record was unlinked: entries of before, or a block that starts with a blank record. */
  ghost predicate Edited(v: Vol, v1: Vol, d: nat) {
    && v1.inodes == v.inodes && v1.blockMap == v.blockMap && KeptBut(v, v1, DirNum(v, d))
    && (forall n :: n in Ents(v1, d) ==> n in Ents(v, d) && Ents(v1, d)[n] == Ents(v, d)[n])
    && (WellFormed(DirBlk(v1, d)) || Read32(DirBlk(v1, d), 0) == 0)
  }

  lemma KidIsChild(v: Vol, v1: Vol, live: set<nat>, d: nat, e: nat, m: Name, j: nat)
    requires Sound(v, live) && Dir(v, live, d) && Edited(v, v1, d) && e in live && Kid(v1, e, m, j)
    ensures Child(v, live, e, m, j)
  {
    hide Sound, Ents, KeptBut, DirBlk, WellFormed;
    SameNodes(v, v1, e);
    if e != d {
      DirKept(v, v1, live, d, e);
      SameEnts(v, v1, e);
    }
  }

  lemma SameNodes(v: Vol, v1: Vol, e: nat)
    requires v1.inodes == v.inodes
    ensures Node(v1, e) == Node(v, e) && IsDir(v1, e) == IsDir(v, e)
  {
  }

  lemma DirReadyAfter(v: Vol, v1: Vol, live: set<nat>, d: nat, e: nat)
    requires Sound(v, live) && Dir(v, live, d) && Edited(v, v1, d) && Dir(v, live, e)
    ensures DirReady(v1, e)
  {
    hide BlocksSound, TreeSound, Acyclic, Ents, KeptBut, WellFormed, Records, Read32, Node;
    assert DirWell(v, live, e);
    SameNodes(v, v1, e);
    OtherBlocksKept(v, v1, live, d, e);
    if e != d {
      DirKept(v, v1, live, d, e);
    }
  }

  lemma InodeReadyAfter(v: Vol, v1: Vol, live: set<nat>, d: nat, j: nat)
    requires Sound(v, live) && Dir(v, live, d) && Edited(v, v1, d) && j in live
    ensures InTable(v1, j) && j <= MAX_INODES && Own(v1, j) == Own(v, j) && InBitmap(v1.blockMap, Own(v1, j))
  {
    hide TreeSound, Acyclic, DirWell, Own, IsDir, NoDup, Bit, Ents, WellFormed;
    SameNodes(v, v1, j);
    OwnKept(v, v1, live, d, j);
    LiveOwnsWell(v, live, j);
    forall x: u32 | x in Own(v, j)
      ensures x <= 8 * |v.blockMap|
    {
      assert Bit(v.blockMap, x - 1);
      BitInRange(v.blockMap, x - 1);
    }
  }

  /** The walk may enter every live inode once the record is unlinked. */
  lemma EditedWipeable(v: Vol, v1: Vol, live: set<nat>, d: nat, depth: map<nat, nat>, bound: nat)
    requires Sound(v, live) && Dir(v, live, d) && Edited(v, v1, d) && Ranked(v, live, depth)
    requires forall i: nat :: i in live ==> depth[i] <= bound
    ensures Wipeable(v1, live, depth, bound)
  {
    hide Sound, Edited, Kid, Child, DirReady, InBitmap, Own, InTable, IsDir;
    forall j: nat | j in live
      ensures InTable(v1, j) && j <= MAX_INODES && InBitmap(v1.blockMap, Own(v1, j))
      ensures IsDir(v1, j) ==> DirReady(v1, j)
    {
      InodeReadyAfter(v, v1, live, d, j);
      EditedNodes(v, v1, d);
      SameNodes(v, v1, j);
      if IsDir(v1, j) {
        DirReadyAfter(v, v1, live, d, j);
      }
    }
    forall e: nat, m: Name, j: nat | Kid(v1, e, m, j) && e in live
      ensures j in live && e in depth && j in depth && depth[e] < depth[j]
    {
      KidIsChild(v, v1, live, d, e, m, j);
      ChildDeeper(v, live, depth, e, m, j);
    }
  }

  lemma EditedNodes(v: Vol, v1: Vol, d: nat)
    requires Edited(v, v1, d)
    ensures v1.inodes == v.inodes
  {
  }

  /** Everything wiped lies at or below the target. */
  lemma BelowDeeper(v1: Vol, live: set<nat>, depth: map<nat, nat>, bound: nat, t: nat, gone: set<nat>)
    requires Wipeable(v1, live, depth, bound) && Below(v1, t, gone) && gone <= live
    ensures forall i: nat :: i in gone ==> i in depth && depth[t] <= depth[i]
  {
    hide Kid, DirReady, InBitmap, Own;
    var j := Shallowest(depth, gone);
    assert Held(v1, gone, j) ==> j == t;
  }

  /** Whatever was wiped is the subtree of the volume as it was before. */
  lemma WipedSubtree(v: Vol, v1: Vol, live: set<nat>, d: nat, n: Name, t: nat, depth: map<nat, nat>, bound: nat,
                     gone: set<nat>)
    requires Sound(v, live) && Child(v, live, d, n, t) && Edited(v, v1, d) && Ents(v1, d) == Ents(v, d) - {n}
    requires Ranked(v, live, depth) && Wipeable(v1, live, depth, bound) && Below(v1, t, gone) && gone <= live
    ensures Subtree(v, live, t, gone) && d !in gone
  {
    hide Kid, Wipeable, Ranked, BlocksSound, TreeSound, Acyclic, DirWell, Ents, IsDir, Edited;
    BelowDeeper(v1, live, depth, bound, t, gone);
    ChildDeeper(v, live, depth, d, n, t);
    EditedNodes(v, v1, d);
    forall e: nat, m: Name, j: nat | Child(v, live, e, m, j) && e in gone
      ensures j in gone
    {
      ChildIsKid(v, v1, live, d, e, m, j);
    }
    forall j: nat | j in gone && j != t
      ensures exists e: nat, m: Name :: e in gone && Child(v, live, e, m, j)
    {
      assert Held(v1, gone, j);
      var e: nat, m: Name :| e in gone && Kid(v1, e, m, j);
      KidIsChild(v, v1, live, d, e, m, j);
    }
  }

  lemma ChildIsKid(v: Vol, v1: Vol, live: set<nat>, d: nat, e: nat, m: Name, j: nat)
    requires Sound(v, live) && Dir(v, live, d) && Edited(v, v1, d) && Child(v, live, e, m, j) && e != d
    ensures Kid(v1, e, m, j)
  {
    hide Sound, Ents, KeptBut, DirBlk, WellFormed;
    SameNodes(v, v1, e);
    DirKept(v, v1, live, d, e);
    SameEnts(v, v1, e);
  }

  lemma SameOwned(v: Vol, v1: Vol, live: set<nat>, d: nat, gone: set<nat>, bm: Bits, bm': Bits)
    requires Sound(v, live) && Dir(v, live, d) && Edited(v, v1, d) && gone <= live && BlocksFreed(v1, bm, bm', gone)
    ensures BlocksFreed(v, bm, bm', gone)
  {
    hide Sound, Edited, Own, IsDir, Bit;
    forall j: nat | j in gone
      ensures Own(v1, j) == Own(v, j)
    {
      InodeReadyAfter(v, v1, live, d, j);
    }
    forall x: nat
      ensures OwnedBy(v1, gone, x) <==> OwnedBy(v, gone, x)
    {
      if OwnedBy(v1, gone, x) {
        var j: nat :| j in gone && x in Own(v1, j);
        assert x in Own(v, j);
      }
      if OwnedBy(v, gone, x) {
        var j: nat :| j in gone && x in Own(v, j);
        assert x in Own(v1, j);
      }
    }
  }

  // ----- "." and ".." -----

  /**
    The call went through by the name `n` of directory `d`, "." or "..",
      which leads to `t`: the record is unlinked as any
    other, and `gone` is freed. Without its "." a directory reads as empty,
      so only `t` goes; by ".." all below `t` goes.
   */
  ghost predicate Gutted(v: Vol, v': Vol, live: set<nat>, d: nat, n: Name, t: nat, gone: set<nat>) {
    && Dir(v, live, d) && v'.first == v.first && v'.inodes == v.inodes
    && KeptBut(v, v', DirNum(v, d)) && SameTail(DirBlk(v, d), DirBlk(v', d))
    && t in gone && gone <= live
    && BlocksFreed(v, v.blockMap, v'.blockMap, gone)
    && NodesFreed(v.nodeMap, v'.nodeMap, gone)
    && if n == [DOT] then gone == {t} && Read32(DirBlk(v', d), 0) == 0
       else WellFormed(DirBlk(v', d)) && Ents(v', d) == Ents(v, d) - {n} && Subtree(v, live, t, gone)
  }

  lemma DotTarget(v: Vol, live: set<nat>, d: nat)
    requires Sound(v, live) && Dir(v, live, d)
    ensures [DOT] in Ents(v, d) && Ents(v, d)[[DOT]] == d
  {
    hide BlocksSound, TreeSound, Acyclic, Ents, WellFormed, Records;
    assert DirWell(v, live, d);
  }

  lemma BlankKids(w: Vol, d: nat)
    requires Read32(DirBlk(w, d), 0) == 0
    ensures forall m: Name, j: nat :: !Kid(w, d, m, j)
  {
    hide Read32;
  }

  /** Below a directory that reads as empty there is nothing to wipe. */
  lemma BlankWiped(w: Vol, live: set<nat>, t: nat, depth: map<nat, nat>, bound: nat, gone: set<nat>)
    requires Wipeable(w, live, depth, bound) && Below(w, t, gone) && gone <= live && Read32(DirBlk(w, t), 0) == 0
    ensures gone == {t}
  {
    hide Kid, DirReady, InBitmap, Own, Read32;
    BlankKids(w, t);
    var rest := gone - {t};
    if rest != {} {
      var j := Shallowest(depth, rest);
      var _ := RestHeld(w, live, t, depth, bound, gone, j);
    }
  }

  lemma RestHeld(w: Vol, live: set<nat>, t: nat, depth: map<nat, nat>, bound: nat, gone: set<nat>,
                 j: nat) returns (e: nat)
    requires Wipeable(w, live, depth, bound) && Below(w, t, gone) && gone <= live && j in gone && j != t
    requires forall m: Name, i: nat :: !Kid(w, t, m, i)
    ensures e in gone && e != t && e in depth && j in depth && depth[e] < depth[j]
  {
    hide Kid, DirReady, InBitmap, Own;
    assert Held(w, gone, j);
    var k: nat, m: Name :| k in gone && Kid(w, k, m, j);
    e := k;
  }

  /** What is wiped by ".." is the subtree of the volume as it was before. */
  lemma DotsSubtree(v: Vol, v1: Vol, live: set<nat>, d: nat, n: Name, t: nat, depth: map<nat, nat>, bound: nat,
                    gone: set<nat>)
    requires Sound(v, live) && Dir(v, live, d) && IsDots(n) && Edited(v, v1, d) && Ents(v1, d) == Ents(v, d) - {n}
    requires Below(v1, t, gone) && gone <= live
    ensures Subtree(v, live, t, gone)
  {
    hide BlocksSound, TreeSound, Acyclic, DirWell, Ents, IsDir, Edited;
    EditedNodes(v, v1, d);
    SameNodes(v, v1, d);
    forall e: nat, m: Name, j: nat | Child(v, live, e, m, j) && e in gone
      ensures Kid(v1, e, m, j)
    {
      if e != d {
        ChildIsKid(v, v1, live, d, e, m, j);
      }
    }
    forall j: nat | j in gone && j != t
      ensures exists e: nat, m: Name :: e in gone && Child(v, live, e, m, j)
    {
      assert Held(v1, gone, j);
      var e: nat, m: Name :| e in gone && Kid(v1, e, m, j);
      KidIsChild(v, v1, live, d, e, m, j);
    }
  }

  lemma GuttedParts(v: Vol, v': Vol, live: set<nat>, d: nat, n: Name, t: nat, gone: set<nat>)
    requires Gutted(v, v', live, d, n, t, gone)
    ensures OnlyDir(v, v', live, d) && Dir(v, live, d) && t in gone && gone <= live
    ensures NodesFreed(v.nodeMap, v'.nodeMap, gone)
  {
    hide KeptBut, NodesFreed, BlocksFreed, Subtree, SameTail, WellFormed;
  }

  /**
    A directory removed through its own "." or through a child's ".." stays named by its parent while its inode is
    marked free: the volume is sound for no set of inodes any more.
   */
  lemma DotsBreak(v: Vol, v': Vol, live: set<nat>, d: nat, n: Name, t: nat, gone: set<nat>)
    requires Sound(v, live) && Gutted(v, v', live, d, n, t, gone)
    requires IsDots(n) && n in Ents(v, d) && Ents(v, d)[n] == t && IsDir(v, t)
    ensures Unsound(v')
  {
    hide TreeSound, Acyclic, DirWell, BlocksSound, Ents, IsDir, Gutted, OnlyDir, Bit, Ranked;
    GuttedParts(v, v', live, d, n, t, gone);
    var depth := RankedDir(v, live, d);
    DotsAbove(v, live, depth, d, n, t);
    LiveNumber(v, live, t);
    assert !Bit(v'.nodeMap, t - 1) by {
      assert t - 1 + 1 in gone;
    }
    FreedDir(v, v', live, d, depth, t);
  }

  lemma LiveNumber(v: Vol, live: set<nat>, t: nat)
    requires Sound(v, live) && t in live
    ensures t >= 1
  {
    assert InTable(v, t);
  }

  lemma DotsAbove(v: Vol, live: set<nat>, depth: map<nat, nat>, d: nat, n: Name, t: nat)
    requires Sound(v, live) && Dir(v, live, d) && IsDots(n) && n in Ents(v, d) && Ents(v, d)[n] == t
    requires Ranked(v, live, depth)
    ensures d in depth && t in depth && depth[t] <= depth[d]
  {
    hide BlocksSound, Ents, IsDir, WellFormed, Records;
    assert DirWell(v, live, d);
    if n == [DOT, DOT] && d != ROOT {
      assert ParentOf(v, d) == t;
      assert Holds(v, live, t, d);
      var m: Name :| Child(v, live, t, m, d);
      ChildDeeper(v, live, depth, t, m, d);
    }
  }
}
