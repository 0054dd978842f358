/** Machine bytes and words, and the little-endian layout both the ext2 disk format and i386 code use. */
module Bytes {

  type byte = x: int | 0 <= x < 0x100
  type u16 = x: int | 0 <= x < 0x1_0000
  type u32 = x: int | 0 <= x < 0x1_0000_0000

  function Read16(s: seq<byte>, o: nat): u16
    requires o + 2 <= |s|
  {
    s[o] as int + 0x100 * s[o + 1] as int
  }

  function Read32(s: seq<byte>, o: nat): u32
    requires o + 4 <= |s|
  {
    s[o] as int + 0x100 * s[o + 1] as int + 0x1_0000 * s[o + 2] as int + 0x100_0000 * s[o + 3] as int
  }

  function Le16(n: u16): (s: seq<byte>)
    ensures |s| == 2 && Read16(s, 0) == n
  {
    [n % 0x100, n / 0x100]
  }

  function Le32(n: u32): (s: seq<byte>)
    ensures |s| == 4 && Read32(s, 0) == n
  {
    [n % 0x100, n / 0x100 % 0x100, n / 0x1_0000 % 0x100, n / 0x100_0000]
  }

  /** Writing `w` over `s` from offset `o` on, as a C copy loop into a buffer does. */
  function Patch(s: seq<byte>, o: nat, w: seq<byte>): (r: seq<byte>)
    requires o + |w| <= |s|
    ensures |r| == |s|
    ensures forall k :: 0 <= k < |s| ==> r[k] == if o <= k < o + |w| then w[k - o] else s[k]
  {
    seq(|s|, k requires 0 <= k < |s| => if o <= k < o + |w| then w[k - o] else s[k])
  }

  /** Addresses and lengths are stored low byte first. */
  lemma LowByteFirst()
    ensures Le32(0x1234_5678) == [0x78, 0x56, 0x34, 0x12] && Le16(0x1234) == [0x34, 0x12]
  {
  }

  lemma WordHolds(s: seq<byte>, o: nat)
    requires o + 4 <= |s|
    ensures s[o..o + 4] == Le32(Read32(s, o))
  {
    var w := Le32(Read32(s, o));
    FourDigits(s[o], s[o + 1], s[o + 2], s[o + 3], w[0], w[1], w[2], w[3]);
  }

  lemma FourDigits(a: byte, b: byte, c: byte, d: byte, e: byte, f: byte, g: byte, h: byte)
    requires a as int + 0x100 * b as int + 0x1_0000 * c as int + 0x100_0000 * d as int
          == e as int + 0x100 * f as int + 0x1_0000 * g as int + 0x100_0000 * h as int
    ensures a == e && b == f && c == g && d == h
  {
  }

  lemma Le32RoundTrip(s: seq<byte>, o: nat, n: u32)
    requires o + 4 <= |s| && s[o..o + 4] == Le32(n)
    ensures Read32(s, o) == n
  {
    hide Le32;
    var w := s[o..o + 4];
    assert s[o] == w[0] && s[o + 1] == w[1] && s[o + 2] == w[2] && s[o + 3] == w[3];
  }

  /** The word after a patch that does not touch it. */
  lemma Read32Frame(s: seq<byte>, t: seq<byte>, o: nat)
    requires |s| == |t| && o + 4 <= |s|
    requires forall k :: o <= k < o + 4 ==> s[k] == t[k]
    ensures Read32(s, o) == Read32(t, o)
  {
  }

  // ----- 1024-byte blocks, and blocks of 256 block numbers -----

  const BLOCK := 1024
  const PTRS := 256

  type Block = b: seq<byte> | |b| == BLOCK witness seq(BLOCK, _ => 0)

  function ZeroBlock(): Block {
    seq(BLOCK, _ => 0)
  }

  /** The view of a block through a `uint32_t*`. */
  function Pointers(b: Block): (p: seq<u32>)
    ensures |p| == PTRS
  {
    seq(PTRS, i requires 0 <= i < PTRS => Read32(b, 4 * i))
  }

  /** The bytes of 256 block numbers, as `ata_write_sector` sees them. */
  function PointerBytes(p: seq<u32>): (b: Block)
    requires |p| == PTRS
  {
    seq(BLOCK, k requires 0 <= k < BLOCK => Le32(p[k / 4])[k % 4])
  }

  lemma PointerRoundTrip(p: seq<u32>, i: nat)
    requires i < |p| == PTRS
    ensures Read32(PointerBytes(p), 4 * i) == p[i]
  {
    hide Le32, Read32;
    var b, w := PointerBytes(p), Le32(p[i]);
    assert (4 * i + 1) / 4 == i && (4 * i + 2) / 4 == i && (4 * i + 3) / 4 == i;
    assert b[4 * i] == w[0] && b[4 * i + 1] == w[1] && b[4 * i + 2] == w[2] && b[4 * i + 3] == w[3];
    assert b[4 * i..4 * i + 4] == w;
    Le32RoundTrip(b, 4 * i, p[i]);
  }

  lemma PointersRoundTrip(p: seq<u32>)
    requires |p| == PTRS
    ensures Pointers(PointerBytes(p)) == p
  {
    forall i | 0 <= i < PTRS
      ensures Pointers(PointerBytes(p))[i] == p[i]
    {
      PointerRoundTrip(p, i);
    }
  }

  lemma ZeroPointers()
    ensures Pointers(ZeroBlock()) == seq(PTRS, _ => 0)
    ensures PointerBytes(seq(PTRS, _ => 0)) == ZeroBlock()
  {
  }
}
