/** The recursive walk of `ext2_wipe_inode`, on a disk and inode table that do not change while it runs. */
module Wiping {
  import opened Bytes
  import opened Bitmap
  import opened BlockTree
  import opened Allocation
  import opened RecordChain
  import opened DirBlock
  import opened VolumeState
  import opened Shrink

  ghost predicate InBitmap(bm: Bits, s: seq<u32>) {
    forall x: u32 :: x in s ==> x <= 8 * |bm|
  }

  /** Inode `e` is a directory that names `j` by `m`, other than by "." and "..". */
  ghost predicate Kid(w: Vol, e: nat, m: Name, j: nat) {
    IsDir(w, e) && m in Ents(w, e) && !IsDots(m) && Ents(w, e)[m] == j
  }

  ghost predicate DirReady(w: Vol, j: nat) {
    && DirNum(w, j) != 0 && (WellFormed(DirBlk(w, j)) || Read32(DirBlk(w, j), 0) == 0)
    && forall k :: 1 <= k < DIRECT && Node(w, j).block[k] != 0 ==> Read32(At(w.disk, Node(w, j).block[k]), 0) == 0
  }

  /** The walk may enter any inode of `g`: what it finds there is well formed, stays in `g`, and lies deeper. */
  ghost predicate Wipeable(w: Vol, g: set<nat>, depth: map<nat, nat>, bound: nat) {
    && (forall j: nat :: j in g ==>
         InTable(w, j) && j <= MAX_INODES && j in depth && depth[j] <= bound && InBitmap(w.blockMap, Own(w, j)))
    && (forall j: nat :: j in g && IsDir(w, j) ==> DirReady(w, j))
    && (forall e: nat, m: Name, j: nat :: Kid(w, e, m, j) && e in g ==>
         j in g && e in depth && j in depth && depth[e] < depth[j])
  }

  ghost predicate Closed(w: Vol, gone: set<nat>) {
    forall e: nat, m: Name, j: nat :: Kid(w, e, m, j) && e in gone ==> j in gone
  }

  ghost predicate Held(w: Vol, gone: set<nat>, j: nat) {
    exists e: nat, m: Name :: e in gone && Kid(w, e, m, j)
  }

  ghost predicate IsKid(w: Vol, e: nat, j: nat) {
    exists m: Name :: Kid(w, e, m, j)
  }

  /** `gone` is `i` and everything below it. */
  ghost predicate Below(w: Vol, i: nat, gone: set<nat>) {
    i in gone && Closed(w, gone) && forall j: nat :: j in gone && j != i ==> Held(w, gone, j)
  }

  /** `gone` is everything below some of the entries of `i`. */
  ghost predicate Forest(w: Vol, i: nat, gone: set<nat>) {
    Closed(w, gone) && forall j: nat :: j in gone ==> Held(w, gone, j) || IsKid(w, i, j)
  }

  lemma ForestGrows(w: Vol, i: nat, a: set<nat>, m: Name, c: nat, b: set<nat>)
    requires Forest(w, i, a) && Kid(w, i, m, c) && Below(w, c, b)
    ensures Forest(w, i, a + b)
  {
    hide Kid;
    forall j: nat | j in a + b
      ensures Held(w, a + b, j) || IsKid(w, i, j)
    {
      if j in a && Held(w, a, j) {
        var e: nat, n: Name :| e in a && Kid(w, e, n, j);
        assert e in a + b;
      } else if j in b && j != c {
        var e: nat, n: Name :| e in b && Kid(w, e, n, j);
        assert e in a + b;
      }
    }
  }

  lemma ForestIsBelow(w: Vol, i: nat, a: set<nat>)
    requires Forest(w, i, a) && forall m: Name, j: nat :: Kid(w, i, m, j) ==> j in a
    ensures Below(w, i, a + {i})
  {
    hide Kid;
    var g := a + {i};
    forall j: nat | j in g && j != i
      ensures Held(w, g, j)
    {
      if Held(w, a, j) {
        var e: nat, n: Name :| e in a && Kid(w, e, n, j);
        assert e in g;
      } else {
        var n: Name :| Kid(w, i, n, j);
        assert i in g;
      }
    }
  }

  lemma FreedMore(w: Vol, bm: Bits, bm': Bits, bm'': Bits, a: set<nat>, b: set<nat>)
    requires BlocksFreed(w, bm, bm', a) && BlocksFreed(w, bm', bm'', b)
    ensures BlocksFreed(w, bm, bm'', a + b)
  {
    hide Bit, Own;
    forall n: nat
      ensures Bit(bm'', n) <==> (Bit(bm, n) && !OwnedBy(w, a + b, n + 1))
    {
      OwnedByUnion(w, a, b, n + 1);
    }
  }

  lemma OwnedByUnion(w: Vol, a: set<nat>, b: set<nat>, x: nat)
    ensures OwnedBy(w, a + b, x) <==> OwnedBy(w, a, x) || OwnedBy(w, b, x)
  {
    hide Own;
    if OwnedBy(w, a, x) {
      var j: nat :| j in a && x in Own(w, j);
      assert j in a + b;
    }
    if OwnedBy(w, b, x) {
      var j: nat :| j in b && x in Own(w, j);
      assert j in a + b;
    }
  }

  lemma NodesMore(im: Bits, im': Bits, im'': Bits, a: set<nat>, b: set<nat>)
    requires NodesFreed(im, im', a) && NodesFreed(im', im'', b)
    ensures NodesFreed(im, im'', a + b)
  {
    hide Bit;
  }

  lemma NothingFreed(w: Vol, bm: Bits, im: Bits)
    ensures BlocksFreed(w, bm, bm, {}) && NodesFreed(im, im, {})
  {
    hide Bit, Own;
  }

  lemma OneFreed(w: Vol, bm: Bits, bm': Bits, im: Bits, t: nat)
    requires Freed(bm, bm', Own(w, t)) && 1 <= t <= 8 * |im|
    ensures BlocksFreed(w, bm, bm', {t}) && NodesFreed(im, ClearBit(im, t - 1), {t})
  {
    hide Bit, Own;
    ClearBitEffect(im, t - 1);
  }

  lemma FreedLengths(w: Vol, bm: Bits, bm': Bits, im: Bits, im': Bits, a: set<nat>)
    ensures BlocksFreed(w, bm, bm', a) ==> |bm'| == |bm|
    ensures NodesFreed(im, im', a) ==> |im'| == |im|
  {
  }

  /** While the scan stands at `o`, every entry of `i` is either still ahead or has been dealt with. */
  ghost predicate ScanInv(w: Vol, i: nat, o: nat, gone: set<nat>) {
    var v := Records(DirBlk(w, i));
    && Chain(v, o)
    && (forall n :: n in Entries(v, o) ==> n in Ents(w, i) && Ents(w, i)[n] == Entries(v, o)[n])
    && (forall n :: n in Ents(w, i) ==> n in Entries(v, o) || IsDots(n) || Ents(w, i)[n] in gone)
    && Distinct(v, o)
  }

  lemma ScanStart(w: Vol, i: nat)
    requires WellFormed(DirBlk(w, i))
    ensures ScanInv(w, i, 0, {})
  {
  }

  lemma ScanEnd(w: Vol, i: nat, gone: set<nat>)
    requires ScanInv(w, i, BLOCK, gone)
    ensures forall m: Name, j: nat :: Kid(w, i, m, j) ==> j in gone
  {
  }

  lemma ScanStep(w: Vol, i: nat, o: nat, gone: set<nat>, gone': set<nat>)
    requires ScanInv(w, i, o, gone) && o < BLOCK && gone <= gone'
    ensures Good(Records(DirBlk(w, i)), o)
    ensures var r := Records(DirBlk(w, i))[o];
      && r.Rec? && r.inode != 0 && r.len != 0
      && r.name in Ents(w, i) && Ents(w, i)[r.name] == r.inode
      && (IsDots(r.name) || r.inode as nat in gone' ==> ScanInv(w, i, o + r.len, gone'))
  {
    hide Ents, RecAt;
  }

  lemma KidOf(w: Vol, i: nat, n: Name, j: nat)
    requires IsDir(w, i) && n in Ents(w, i) && !IsDots(n) && Ents(w, i)[n] == j
    ensures Kid(w, i, n, j)
  {
  }

  lemma KidReady(w: Vol, g: set<nat>, depth: map<nat, nat>, bound: nat, i: nat, n: Name, j: nat)
    requires Wipeable(w, g, depth, bound) && i in g && Kid(w, i, n, j)
    ensures j in g && j in depth && i in depth && depth[i] < depth[j] <= bound
  {
    hide Kid;
  }

  lemma NodeReady(w: Vol, g: set<nat>, depth: map<nat, nat>, bound: nat, i: nat)
    requires Wipeable(w, g, depth, bound) && i in g
    ensures 1 <= i <= |w.inodes| && i <= MAX_INODES && i in depth && depth[i] <= bound
    ensures InBitmap(w.blockMap, Own(w, i))
    ensures IsDir(w, i) ==> DirReady(w, i)
  {
    hide Kid;
  }

  lemma NoKids(w: Vol, i: nat)
    requires !IsDir(w, i)
    ensures Below(w, i, {i}) && Forest(w, i, {})
  {
    hide Ents;
  }

  lemma NoForest(w: Vol, i: nat)
    ensures Forest(w, i, {})
  {
  }

  /** A block whose first record is blank ends the scan at once. */
  lemma BlankFirst(b: Block)
    requires Read32(b, 0) == 0
    ensures !WellFormed(b) && RecAt(b, 0).Rec? && RecAt(b, 0).inode == 0
  {
    assert Records(b)[0] == RecAt(b, 0);
  }

  lemma BlankNoKids(w: Vol, i: nat)
    requires Read32(DirBlk(w, i), 0) == 0
    ensures forall m: Name, j: nat :: !Kid(w, i, m, j)
  {
    BlankFirst(DirBlk(w, i));
  }
}
