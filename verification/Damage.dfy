/** Changes to one directory that no choice of live inodes makes sound again. */
module Damage {
  import opened Bitmap
  import opened RecordChain
  import opened DirBlock
  import opened VolumeState

  /** There is no set of inodes the volume would be sound with. */
  ghost predicate Unsound(v: Vol) {
    forall live: set<nat> :: !Sound(v, live)
  }

  lemma SameEnts(v: Vol, v1: Vol, e: nat)
    requires DirBlk(v1, e) == DirBlk(v, e)
    ensures Ents(v1, e) == Ents(v, e)
  {
  }

  lemma ChildDeeper(v: Vol, live: set<nat>, depth: map<nat, nat>, e: nat, m: Name, j: nat)
    requires Sound(v, live) && Ranked(v, live, depth) && Child(v, live, e, m, j)
    ensures e in live && j in live && e in depth && j in depth && depth[e] < depth[j]
  {
    hide BlocksSound, TreeSound, Acyclic;
    assert DirWell(v, live, e);
  }

  lemma NamedLive(v: Vol, live: set<nat>, e: nat, m: Name)
    requires Sound(v, live) && Dir(v, live, e) && m in Ents(v, e)
    ensures Ents(v, e)[m] in live
  {
    hide BlocksSound, TreeSound, Acyclic, Ents;
    assert DirWell(v, live, e);
  }

  lemma HasParent(v: Vol, live: set<nat>, e: nat) returns (m: Name)
    requires Sound(v, live) && Dir(v, live, e) && e != ROOT
    ensures Child(v, live, ParentOf(v, e), m, e)
  {
    hide BlocksSound, DirWell, Acyclic, Child, ParentOf;
    assert Holds(v, live, ParentOf(v, e), e);
    m :| Child(v, live, ParentOf(v, e), m, e);
  }

  /** `v'` has the inodes of `v`, and blocks in use keep their bytes except for the entries of directory `d`. */
  ghost predicate OnlyDir(v: Vol, v': Vol, live: set<nat>, d: nat) {
    && Dir(v, live, d) && KeptBut(v, v', DirNum(v, d))
    && forall i: nat :: i in live ==> Node(v', i) == Node(v, i)
  }

  lemma KindKept(v: Vol, v': Vol, live: set<nat>, d: nat, e: nat)
    requires OnlyDir(v, v', live, d) && e in live
    ensures IsDir(v', e) == IsDir(v, e)
  {
    hide Node, KeptBut;
  }

  lemma EntsKept(v: Vol, v': Vol, live: set<nat>, d: nat, e: nat)
    requires Sound(v, live) && OnlyDir(v, v', live, d) && Dir(v, live, e) && e != d
    ensures Ents(v', e) == Ents(v, e)
  {
    hide Sound, IsDir, KeptBut, DirBlk, Ents, Node;
    DirKept(v, v', live, d, e);
    SameEnts(v, v', e);
  }

  /** The directories above `d` still lead to it, so no reading of the new volume can leave them out. */
  lemma {:induction false} AboveStays(v: Vol, v': Vol, live: set<nat>, d: nat, depth: map<nat, nat>, e: nat,
                                      l: set<nat>)
    requires Sound(v, live) && OnlyDir(v, v', live, d) && Ranked(v, live, depth) && Sound(v', l)
    requires Dir(v, live, e) && e in depth && d in depth && depth[e] <= depth[d]
    ensures e in l
    decreases depth[e]
  {
    hide BlocksSound, DirWell, TreeSound, Acyclic, Ents, IsDir, OnlyDir, Ranked, ParentOf;
    if e != ROOT {
      var m := HasParent(v, live, e);
      var q := ParentOf(v, e);
      ChildDeeper(v, live, depth, q, m, e);
      AboveStays(v, v', live, d, depth, q, l);
      KindKept(v, v', live, d, q);
      EntsKept(v, v', live, d, q);
      NamedLive(v', l, q, m);
    }
  }

  lemma RankedDir(v: Vol, live: set<nat>, d: nat) returns (depth: map<nat, nat>)
    requires Sound(v, live) && d in live
    ensures Ranked(v, live, depth) && d in depth
  {
    hide BlocksSound, DirWell, TreeSound;
    depth :| Ranked(v, live, depth);
  }

  lemma LiveDirWell(v: Vol, live: set<nat>, d: nat)
    requires Sound(v, live) && Dir(v, live, d)
    ensures WellFormed(DirBlk(v, d))
  {
    hide BlocksSound, TreeSound, Acyclic, Ents, WellFormed, Records;
    assert DirWell(v, live, d);
  }

  /** A directory whose records no longer form a chain breaks the volume. */
  lemma BrokenDir(v: Vol, v': Vol, live: set<nat>, d: nat)
    requires Sound(v, live) && OnlyDir(v, v', live, d) && !WellFormed(DirBlk(v', d))
    ensures Unsound(v')
  {
    hide BlocksSound, TreeSound, Acyclic, Ents, IsDir, Node, WellFormed, KeptBut, DirBlk, Records;
    var depth := RankedDir(v, live, d);
    forall l: set<nat>
      ensures !Sound(v', l)
    {
      if Sound(v', l) {
        AboveStays(v, v', live, d, depth, d, l);
        KindKept(v, v', live, d, d);
        LiveDirWell(v', l, d);
      }
    }
  }

  /** So does a directory at or above `d` that is still named but no longer marked used. */
  lemma FreedDir(v: Vol, v': Vol, live: set<nat>, d: nat, depth: map<nat, nat>, t: nat)
    requires Sound(v, live) && OnlyDir(v, v', live, d) && Ranked(v, live, depth)
    requires Dir(v, live, t) && t in depth && d in depth && depth[t] <= depth[d]
    requires t >= 1 && !Bit(v'.nodeMap, t - 1)
    ensures Unsound(v')
  {
    hide TreeSound, Acyclic, DirWell, IsDir, Bit, OnlyDir, Ranked, OwnsWell, Disjoint, Shape;
    forall l: set<nat>
      ensures !Sound(v', l)
    {
      if Sound(v', l) {
        AboveStays(v, v', live, d, depth, t, l);
      }
    }
  }
}
