/** Allocation bitmaps: bit n of byte n / 8 stands for block (or inode) number n + 1. */
module Bitmap {

  type Bits = seq<bv8>

  function Mask(i: nat): bv8
    requires i < 8
  {
    match i
    case 0 => 0x01
    case 1 => 0x02
    case 2 => 0x04
    case 3 => 0x08
    case 4 => 0x10
    case 5 => 0x20
    case 6 => 0x40
    case 7 => 0x80
  }

  predicate Has(b: bv8, i: nat)
    requires i < 8
  {
    b & Mask(i) != 0
  }

  function With(b: bv8, i: nat): bv8
    requires i < 8
  {
    b | Mask(i)
  }

  function Without(b: bv8, i: nat): bv8
    requires i < 8
  {
    b & !Mask(i)
  }

  predicate Bit(bm: Bits, n: nat)
  {
    n < 8 * |bm| && Has(bm[n / 8], n % 8)
  }

  lemma BitInRange(bm: Bits, n: nat)
    ensures Bit(bm, n) ==> n < 8 * |bm|
  {
  }

  /** `bitmap[byte] |= 1 << bit` */
  function SetBit(bm: Bits, n: nat): Bits
    requires n < 8 * |bm|
  {
    bm[n / 8 := With(bm[n / 8], n % 8)]
  }

  /** `bitmap[byte] &= ~(1 << bit)` */
  function ClearBit(bm: Bits, n: nat): Bits
    requires n < 8 * |bm|
  {
    bm[n / 8 := Without(bm[n / 8], n % 8)]
  }

  lemma SetInByte(b: bv8, i: nat, j: nat)
    requires i < 8 && j < 8
    ensures Has(With(b, i), j) <==> (i == j || Has(b, j))
  {
  }

  lemma ClearInByte(b: bv8, i: nat, j: nat)
    requires i < 8 && j < 8
    ensures Has(Without(b, i), j) <==> (i != j && Has(b, j))
  {
  }

  lemma SetBitAt(bm: Bits, n: nat, m: nat)
    requires n < 8 * |bm| && m < 8 * |bm|
    ensures Bit(SetBit(bm, n), m) <==> (m == n || Bit(bm, m))
  {
    var was, now := bm[m / 8], SetBit(bm, n)[m / 8];
    if m / 8 == n / 8 {
      assert now == With(was, n % 8);
      SetInByte(was, n % 8, m % 8);
    } else {
      assert now == was;
    }
  }

  lemma SetBitEffect(bm: Bits, n: nat)
    requires n < 8 * |bm|
    ensures |SetBit(bm, n)| == |bm|
    ensures forall m: nat :: Bit(SetBit(bm, n), m) <==> (m == n || Bit(bm, m))
  {
    forall m: nat
      ensures Bit(SetBit(bm, n), m) <==> (m == n || Bit(bm, m))
    {
      if m < 8 * |bm| {
        SetBitAt(bm, n, m);
      }
    }
  }

  lemma ClearBitAt(bm: Bits, n: nat, m: nat)
    requires n < 8 * |bm| && m < 8 * |bm|
    ensures Bit(ClearBit(bm, n), m) <==> (m != n && Bit(bm, m))
  {
    var was, now := bm[m / 8], ClearBit(bm, n)[m / 8];
    if m / 8 == n / 8 {
      assert now == Without(was, n % 8);
      ClearInByte(was, n % 8, m % 8);
    } else {
      assert now == was;
    }
  }

  lemma ClearBitEffect(bm: Bits, n: nat)
    requires n < 8 * |bm|
    ensures |ClearBit(bm, n)| == |bm|
    ensures forall m: nat :: Bit(ClearBit(bm, n), m) <==> (m != n && Bit(bm, m))
  {
    forall m: nat
      ensures Bit(ClearBit(bm, n), m) <==> (m != n && Bit(bm, m))
    {
      if m < 8 * |bm| {
        ClearBitAt(bm, n, m);
      }
    }
  }

  lemma FullByte(b: bv8)
    ensures b == 0xFF <==> forall i :: 0 <= i < 8 ==> Has(b, i)
  {
    if forall i :: 0 <= i < 8 ==> Has(b, i) {
      assert Has(b, 0) && Has(b, 1) && Has(b, 2) && Has(b, 3);
      assert Has(b, 4) && Has(b, 5) && Has(b, 6) && Has(b, 7);
    }
  }

  lemma EqualBytes(a: bv8, b: bv8)
    requires forall i :: 0 <= i < 8 ==> (Has(a, i) <==> Has(b, i))
    ensures a == b
  {
    assert forall i :: 0 <= i < 8 ==> (Has(a, i) <==> Has(b, i));
    assert (Has(a, 0) <==> Has(b, 0)) && (Has(a, 1) <==> Has(b, 1));
    assert (Has(a, 2) <==> Has(b, 2)) && (Has(a, 3) <==> Has(b, 3));
    assert (Has(a, 4) <==> Has(b, 4)) && (Has(a, 5) <==> Has(b, 5));
    assert (Has(a, 6) <==> Has(b, 6)) && (Has(a, 7) <==> Has(b, 7));
  }

  /** Two bitmaps of one length with the same bits are the same bytes. */
  lemma Extensional(a: Bits, b: Bits)
    requires |a| == |b|
    requires forall n: nat :: Bit(a, n) <==> Bit(b, n)
    ensures a == b
  {
    forall k | 0 <= k < |a|
      ensures a[k] == b[k]
    {
      forall i | 0 <= i < 8
        ensures Has(a[k], i) <==> Has(b[k], i)
      {
        var n := 8 * k + i;
        assert n / 8 == k && n % 8 == i;
        assert Bit(a, n) <==> Bit(b, n);
      }
      EqualBytes(a[k], b[k]);
    }
  }
}
