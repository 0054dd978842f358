/** What a run of `ext2_allocate_block` calls does to the block bitmap, and how its results are counted. */
module Allocation {
  import opened Bytes
  import opened Bitmap
  import opened BlockTree

  ghost predicate Full(bm: Bits) {
    forall n: nat :: n < 8 * |bm| ==> Bit(bm, n)
  }

  /** The block numbers `bm` has free. */
  function Free(bm: Bits): set<nat> {
    set n: nat | n < 8 * |bm| && !Bit(bm, n) :: n + 1
  }

  /** One call: the lowest free block number, or 0 on a full bitmap. */
  ghost predicate Taken(bm: Bits, bm': Bits, b: u32) {
    if b == 0 then Full(bm) && bm' == bm
    else b - 1 < 8 * |bm| && !Bit(bm, b - 1) && (forall n: nat :: n < b - 1 ==> Bit(bm, n)) && bm' == SetBit(bm, b - 1)
  }

  /** Nothing but 0 occurs twice. */
  ghost predicate NoRepeat(a: seq<u32>) {
    forall i, j :: 0 <= i < j < |a| && a[i] == a[j] ==> a[i] == 0
  }

  /** `a` lists the results of consecutive calls that turned `bm` into `bm'`. */
  ghost predicate Allocated(bm: Bits, bm': Bits, a: seq<u32>) {
    && |bm'| == |bm|
    && (forall n: nat :: Bit(bm', n) <==> (Bit(bm, n) || n + 1 in a))
    && (forall x :: x in a && x != 0 ==> x - 1 < 8 * |bm| && !Bit(bm, x - 1))
    && NoRepeat(a)
    && (0 in a ==> Full(bm'))
    && ZeroSuffix(a)
  }

  /** Blocks in use according to `bm` have not been written. */
  ghost predicate Kept(bm: Bits, d: Disk, d': Disk) {
    |d'| == |d| && forall b: nat :: 1 <= b < |d| && Bit(bm, b - 1) ==> d'[b] == d[b]
  }

  lemma AllocatedNone(bm: Bits)
    ensures Allocated(bm, bm, [])
  {
  }

  lemma AllocatedStep(bm: Bits, bm': Bits, bm'': Bits, a: seq<u32>, b: u32)
    requires Allocated(bm, bm', a) && Taken(bm', bm'', b)
    ensures Allocated(bm, bm'', a + [b])
  {
    hide Bit, SetBit;
    if b != 0 {
      SetBitEffect(bm', b - 1);
      assert !Bit(bm, b - 1);
      assert b !in a;
      assert 0 !in a;
    }
    assert forall x :: x in a + [b] <==> x in a || x == b;
  }

  lemma AllocatedConcat(bm: Bits, bm': Bits, bm'': Bits, a: seq<u32>, b: seq<u32>)
    requires Allocated(bm, bm', a) && Allocated(bm', bm'', b)
    ensures Allocated(bm, bm'', a + b)
  {
    hide Bit;
    var c := a + b;
    assert forall x :: x in c <==> x in a || x in b;
    forall x | x in b && x != 0
      ensures x - 1 < 8 * |bm| && !Bit(bm, x - 1) && x !in a && 0 !in a
    {
      assert !Bit(bm', x - 1);
    }
    forall i, j | 0 <= i < j < |c|
      ensures c[i] == c[j] ==> c[i] == 0
      ensures c[i] == 0 ==> c[j] == 0
    {
      if i < |a| <= j {
        assert c[i] in a && c[j] in b;
      }
    }
  }

  /** After a failed call the following ones fail too and change nothing. */
  lemma AllocatedPad(bm: Bits, bm': Bits, a: seq<u32>, k: nat)
    requires Allocated(bm, bm', a) && 0 in a
    ensures Allocated(bm, bm', a + seq(k, _ => 0))
  {
    hide Bit;
    var c := a + seq(k, _ => 0);
    assert forall x :: x in c <==> x in a;
  }

  // ----- counting -----

  /** The block numbers actually handed out. */
  function Handed(a: seq<u32>): set<nat> {
    if a == [] then {} else Handed(a[1..]) + (if a[0] == 0 then {} else {a[0] as nat})
  }

  lemma {:induction false} InHanded(a: seq<u32>, x: nat)
    ensures x in Handed(a) <==> x in a && x != 0
  {
    if a != [] {
      InHanded(a[1..], x);
      assert a == [a[0]] + a[1..];
    }
  }

  lemma NoRepeatTail(a: seq<u32>)
    requires NoRepeat(a) && a != []
    ensures NoRepeat(a[1..]) && (a[0] != 0 ==> a[0] !in a[1..])
  {
    var r := a[1..];
    assert forall k :: 0 <= k < |r| ==> r[k] == a[k + 1];
  }

  lemma {:induction false} CountHanded(a: seq<u32>)
    requires NoRepeat(a)
    ensures |Handed(a)| <= |a| && (|Handed(a)| == |a| <==> 0 !in a)
  {
    if a != [] {
      NoRepeatTail(a);
      CountHanded(a[1..]);
      InHanded(a[1..], a[0]);
      assert a == [a[0]] + a[1..];
    }
  }

  lemma {:induction false} NonZeroNoDup(a: seq<u32>)
    requires NoRepeat(a)
    ensures NoDup(NonZero(a))
  {
    if a != [] {
      NoRepeatTail(a);
      NonZeroNoDup(a[1..]);
      InNonZero(a[1..], a[0]);
    }
  }

  /** Some call fails exactly when there are fewer free blocks than calls. */
  lemma FailsIffTooFew(bm: Bits, bm': Bits, a: seq<u32>)
    requires Allocated(bm, bm', a)
    ensures 0 in a <==> |Free(bm)| < |a|
  {
    hide Bit, Handed;
    CountHanded(a);
    forall x: nat
      ensures x in Handed(a) <==> x in a && x != 0
    {
      InHanded(a, x);
    }
    assert Handed(a) <= Free(bm);
    if 0 in a {
      assert forall b :: b in Free(bm) ==> Bit(bm', b - 1);
      assert Handed(a) == Free(bm);
    } else {
      SubsetSize(Handed(a), Free(bm));
    }
  }

  lemma SubsetSize<T>(s: set<T>, t: set<T>)
    requires s <= t
    ensures |s| <= |t|
    decreases s
  {
    if s != {} {
      var x :| x in s;
      SubsetSize(s - {x}, t - {x});
    }
  }

  // ----- freeing -----

  /** Exactly the bits of the listed blocks were cleared. */
  ghost predicate Freed(bm: Bits, bm': Bits, a: seq<u32>) {
    && |bm'| == |bm|
    && (forall n: nat :: Bit(bm', n) <==> (Bit(bm, n) && n + 1 !in a))
  }

  lemma FreedNone(bm: Bits)
    ensures Freed(bm, bm, [])
  {
  }

  lemma FreedConcat(bm: Bits, bm': Bits, bm'': Bits, f: seq<u32>, g: seq<u32>)
    requires Freed(bm, bm', f) && Freed(bm', bm'', g)
    ensures Freed(bm, bm'', f + g)
  {
    hide Bit;
    assert forall x :: x in f + g <==> x in f || x in g;
  }

  /** One `ext2_free_block_safe`. */
  lemma FreedOne(bm: Bits, x: u32)
    requires x <= 8 * |bm|
    ensures Freed(bm, if x == 0 then bm else ClearBit(bm, x - 1), NonZero([x]))
  {
    hide Bit, ClearBit;
    NonZeroOne(x);
    if x != 0 {
      ClearBitEffect(bm, x - 1);
    }
  }

  /** Freeing what was allocated, in any order, gives the old bitmap back byte for byte. */
  lemma FreeUndoesAllocate(bm: Bits, bm': Bits, bm'': Bits, a: seq<u32>, f: seq<u32>)
    requires Allocated(bm, bm', a) && Freed(bm', bm'', f)
    requires forall x :: x in f <==> x in a && x != 0
    ensures bm'' == bm
  {
    hide Bit;
    forall n: nat
      ensures Bit(bm'', n) <==> Bit(bm, n)
    {
      if n + 1 in a {
        assert !Bit(bm, n);
      }
    }
    Extensional(bm'', bm);
  }
}
