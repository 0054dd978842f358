/** The bitmap of physical page frames: `init_pfa`, `pfa_alloc_frame`, `pfa_free_frame`. */
module Frames {

  const FRAME := 4096
  const POOL_START := 0x0200_0000
  const APP_BASE := 0x4000_0000
  const WORDS := 8192

  /** A 32-bit word of the bitmap as its bits, lowest first. */
  type Word = w: seq<bool> | |w| == 32 witness seq(32, _ => false)

  type Bitmap = seq<Word>

  predicate Used(b: Bitmap, n: nat) {
    n < 32 * |b| && b[n / 32][n % 32]
  }

  /** Physical address of frame `n`. */
  function AddressOf(n: nat): nat {
    POOL_START + FRAME * n
  }

  /** Words of the bitmap that stand for memory: 8 a megabyte above 32, at most up to 1024 megabytes. */
  function WordsOf(mb: nat): (w: nat)
    ensures w <= 7936
  {
    if mb <= 32 then 0 else if mb > 1024 then 7936 else 8 * (mb - 32)
  }

  /** Frames of a machine with `mb` megabytes. */
  function FramesOf(mb: nat): nat {
    32 * WordsOf(mb)
  }

  /** The bitmap `init_pfa` makes: existing frames free, everything else taken for good. */
  function InitialBits(max: nat): Bitmap {
    seq(WORDS, i requires 0 <= i < WORDS => seq(32, _ => i >= max / 32))
  }

  /** `b'` is `b` with frame `n` set to `v`. */
  ghost predicate Marked(b: Bitmap, b': Bitmap, n: nat, v: bool) {
    |b'| == |b| && forall m: nat :: m < 32 * |b| ==> (Used(b', m) <==> if m == n then v else Used(b, m))
  }

  /** Frame `n`, the lowest free one, was taken. */
  ghost predicate Handed(b: Bitmap, b': Bitmap, n: nat, max: nat) {
    n < max && !Used(b, n) && (forall m: nat :: m < n ==> Used(b, m)) && Marked(b, b', n, true)
  }

  /** Frames past the end of memory are taken. */
  ghost predicate Walled(b: Bitmap, max: nat) {
    && |b| == WORDS && max % 32 == 0 && max <= 253952
    && forall n: nat :: max <= n < 32 * WORDS ==> Used(b, n)
  }

  lemma WordUpdate(b: Bitmap, i: nat, bit: nat, v: bool)
    requires i < |b| && bit < 32
    ensures Marked(b, b[i := b[i][bit := v]], 32 * i + bit, v)
  {
    var b' := b[i := b[i][bit := v]];
    forall m: nat | m < 32 * |b|
      ensures Used(b', m) <==> if m == 32 * i + bit then v else Used(b, m)
    {
      assert (32 * i + bit) / 32 == i && (32 * i + bit) % 32 == bit;
      if m / 32 == i && m % 32 == bit {
        assert m == 32 * i + bit;
      }
    }
  }

  /** Two bitmaps that agree on every frame are the same words. */
  lemma SameBits(b: Bitmap, c: Bitmap)
    requires |b| == |c| && forall m: nat :: m < 32 * |b| ==> (Used(b, m) <==> Used(c, m))
    ensures b == c
  {
    forall i | 0 <= i < |b|
      ensures b[i] == c[i]
    {
      forall k | 0 <= k < 32
        ensures b[i][k] == c[i][k]
      {
        assert (32 * i + k) / 32 == i && (32 * i + k) % 32 == k;
        assert Used(b, 32 * i + k) <==> Used(c, 32 * i + k);
      }
    }
  }

  lemma InitialUsed(max: nat)
    requires max % 32 == 0 && max <= 253952
    ensures Walled(InitialBits(max), max)
    ensures forall n: nat :: n < 32 * WORDS ==> (Used(InitialBits(max), n) <==> n >= max)
  {
    forall n: nat | n < 32 * WORDS
      ensures Used(InitialBits(max), n) <==> n >= max
    {
      assert n / 32 >= max / 32 <==> n >= max;
    }
  }

  /** A bitmap with no frame of the machine in use is the initial one, word for word. */
  lemma AllFreeIsInitial(b: Bitmap, max: nat)
    requires Walled(b, max) && forall n: nat :: n < max ==> !Used(b, n)
    ensures b == InitialBits(max)
  {
    InitialUsed(max);
    SameBits(b, InitialBits(max));
  }

  /** Every frame ends at or below the window the apps see. */
  lemma BelowWindow(mb: nat, n: nat)
    requires n < FramesOf(mb)
    ensures POOL_START <= AddressOf(n) && AddressOf(n) + FRAME <= APP_BASE && AddressOf(n) % FRAME == 0
    ensures mb <= 1024 ==> AddressOf(n) + FRAME <= mb * 1048576
  {
  }

  /**
    The frames are exactly the pages between 32 megabytes and the end of memory, of which at most 1024 megabytes count.
   */
  lemma FramesCover(mb: nat, a: nat)
    ensures (exists n: nat :: n < FramesOf(mb) && a == AddressOf(n)) <==>
      a % 4096 == 0 && 32 * 1048576 <= a && a + 4096 <= 1048576 * if mb > 1024 then 1024 else mb
  {
    if a % 4096 == 0 && 32 * 1048576 <= a && a + 4096 <= 1048576 * if mb > 1024 then 1024 else mb {
      var n := (a - POOL_START) / FRAME;
      assert a == AddressOf(n) && n < FramesOf(mb);
    }
    forall n: nat | n < FramesOf(mb) && a == AddressOf(n)
      ensures a % 4096 == 0 && 32 * 1048576 <= a && a + 4096 <= 1048576 * if mb > 1024 then 1024 else mb
    {
      BelowWindow(mb, n);
    }
  }

  class FramePool {
    const max: nat
    const bitmap: array<Word>

    ghost predicate Valid()
      reads this, bitmap
    {
      Walled(bitmap[..], max)
    }

    /** `init_pfa` */
    constructor (mb: nat)
      ensures Valid() && fresh(bitmap) && max == FramesOf(mb) && bitmap[..] == InitialBits(max)
    {
      var frames := FramesOf(mb);
      max := frames;
      bitmap := new Word[WORDS](_ => seq(32, _ => false));
      new;
      var i := 0;
      while i < WORDS
        invariant 0 <= i <= WORDS
        invariant forall k :: 0 <= k < i ==> bitmap[k] == InitialBits(max)[k]
      {
        bitmap[i] := if i < max / 32 then seq(32, _ => false) else seq(32, _ => true);
        assert bitmap[i] == InitialBits(max)[i];
        i := i + 1;
      }
      assert bitmap[..] == InitialBits(max);
      InitialUsed(max);
    }

    /**
      `pfa_alloc_frame`: the lowest free frame, 0 when there is none. The test against the end of memory,
      which would leave a bit set and still return 0, is never true.
     */
    method Alloc() returns (a: int)
      requires Valid()
      modifies bitmap
      ensures Valid()
      ensures a == 0 <==> forall n: nat :: n < max ==> Used(old(bitmap[..]), n)
      ensures a == 0 ==> bitmap[..] == old(bitmap[..])
      ensures a != 0 ==> exists n: nat :: a == AddressOf(n) && Handed(old(bitmap[..]), bitmap[..], n, max)
    {
      if max == 0 {
        return 0;
      }
      ghost var was := bitmap[..];
      var i := 0;
      while i < max / 32 + 1
        invariant 0 <= i <= max / 32 + 1 && bitmap[..] == was
        invariant forall n: nat :: n < 32 * i ==> Used(was, n)
      {
        if bitmap[i] != seq(32, _ => true) {
          var bit := 0;
          while bit < 32
            invariant 0 <= bit <= 32 && bitmap[..] == was
            invariant forall n: nat :: n < 32 * i + bit ==> Used(was, n)
          {
            assert (32 * i + bit) / 32 == i && (32 * i + bit) % 32 == bit;
            if !bitmap[i][bit] {
              assert !Used(was, 32 * i + bit);
              WordUpdate(was, i, bit, true);
              bitmap[i] := bitmap[i][bit := true];
              assert bitmap[..] == was[i := was[i][bit := true]];
              var frame := i * 32 + bit;
              assert frame < max;
              assert Handed(was, bitmap[..], frame, max);
              return if frame >= max then 0 else POOL_START + frame * FRAME;
            }
            bit := bit + 1;
          }
        } else {
          forall n: nat | 32 * i <= n < 32 * i + 32
            ensures Used(was, n)
          {
            assert n / 32 == i;
          }
        }
        i := i + 1;
      }
      return 0;
    }

    /** `pfa_free_frame`: clears the bit of an address inside the pool and ignores any other. */
    method Free(a: nat)
      requires Valid()
      modifies bitmap
      ensures Valid()
      ensures if POOL_START <= a < AddressOf(max) then
        Marked(old(bitmap[..]), bitmap[..], (a - POOL_START) / FRAME, false)
              else bitmap[..] == old(bitmap[..])
    {
      if a < POOL_START || a >= POOL_START + max * FRAME {
        return;
      }
      var n := (a - POOL_START) / FRAME;
      var i, bit := n / 32, n % 32;
      WordUpdate(bitmap[..], i, bit, false);
      bitmap[i] := bitmap[i][bit := false];
      assert bitmap[..] == old(bitmap[..])[i := old(bitmap[..])[i][bit := false]];
    }
  }
}
