/** Directory blocks as bytes: the record headers, the two edits, and what one 512-byte sector shows of them. */
module DirBlock {
  import opened Bytes
  import opened RecordChain

  const SECTOR := 512

  // ----- reading -----

  function RecAt(b: Block, o: nat): Rec {
    if o + 8 > BLOCK then Bad
    else
      var end := o + 8 + b[o + 6];
      Rec(Read32(b, o), Read16(b, o + 4), if end <= BLOCK then b[o + 8..end] else [])
  }

  function Records(b: Block): View {
    seq(BLOCK, o requires 0 <= o < BLOCK => RecAt(b, o))
  }

  /** A directory block the code may walk: a chain from 0 to 1024, without repeated names. */
  predicate WellFormed(b: Block) {
    Chain(Records(b), 0) && Distinct(Records(b), 0)
  }

  function Names(b: Block): map<Name, u32>
    requires WellFormed(b)
  {
    Entries(Records(b), 0)
  }

  /** Inode number of `n` in the directory block, 0 when absent: what one step of the path walk computes. */
  function Lookup(b: Block, n: Name): u32 {
    match Find(Records(b), 0, 0, n)
    case Miss => 0
    case Hit(at, _) => if at + 8 <= BLOCK then Read32(b, at) else 0
  }

  lemma LookupIsMap(b: Block, n: Name)
    requires WellFormed(b)
    ensures Lookup(b, n) == if n in Names(b) then Names(b)[n] else 0
  {
    FindIsLookup(Records(b), 0, 0, n);
  }

  /** The walk looking for a name, as delete, rmdir and the path walk do it. */
  method FindEntry(buf: array<byte>, n: Name) returns (h: Search)
    requires buf.Length == BLOCK
    ensures h == Find(Records(buf[..]), 0, 0, n)
  {
    hide RecAt;
    ghost var v := Records(buf[..]);
    var offset: nat, prev: nat := 0, 0;
    while offset < BLOCK
      invariant Find(v, 0, 0, n) == Find(v, offset, prev, n)
      decreases BLOCK - offset
    {
      var r := RecAt(buf[..], offset);
      assert r == v[offset];
      if r.Bad? || r.inode == 0 || r.len == 0 {
        break;
      }
      if r.name == n {
        return Hit(offset, prev);
      }
      prev := offset;
      offset := offset + r.len;
    }
    return Miss;
  }

  /** Offset of the last record with more than 16 spare bytes, or `acc`. */
  function SlotFrom(v: View, o: nat, acc: nat): nat
    decreases BLOCK - o
  {
    if o >= BLOCK || v[o].Bad? || v[o].inode == 0 || v[o].len == 0 then acc
    else SlotFrom(v, o + v[o].len, if v[o].len > RealLen(|v[o].name|) + 16 then o else acc)
  }

  predicate Slack(v: View, p: nat) {
    Good(v, p) && v[p].len > RealLen(|v[p].name|) + 16
  }

  lemma {:induction false} SlotIsSlack(v: View, o: nat, acc: nat)
    requires Chain(v, o)
    ensures var p := SlotFrom(v, o, acc);
      if exists q :: IsStart(v, o, q) && Slack(v, q) then IsStart(v, o, p) && Slack(v, p) else p == acc
    decreases BLOCK - o
  {
    if o < BLOCK {
      SlotIsSlack(v, Next(v, o), if Slack(v, o) then o else acc);
      if q :| IsStart(v, o, q) && Slack(v, q) {
        assert q == o || IsStart(v, Next(v, o), q);
      }
      assert IsStart(v, o, o);
    }
  }

  /** Of all records with slack, the remembered one is the last. */
  lemma {:induction false} SlotIsLast(v: View, o: nat, acc: nat, q: nat)
    requires Chain(v, o) && IsStart(v, o, q) && Slack(v, q)
    ensures q <= SlotFrom(v, o, acc)
    decreases BLOCK - o
  {
    var acc' := if Slack(v, o) then o else acc;
    if o == q {
      SlotAfter(v, Next(v, o), o);
    } else {
      SlotIsLast(v, Next(v, o), acc', q);
    }
  }

  lemma {:induction false} SlotAfter(v: View, o: nat, acc: nat)
    requires Chain(v, o) && acc <= o
    ensures acc <= SlotFrom(v, o, acc)
    decreases BLOCK - o
  {
    if o < BLOCK {
      SlotAfter(v, Next(v, o), if Slack(v, o) then o else acc);
    }
  }

  /** The walk of write and mkdir: stops at a duplicate, otherwise remembers the last record with slack. */
  method ScanForSlot(buf: array<byte>, n: Name) returns (dup: bool, slot: nat)
    requires buf.Length == BLOCK
    ensures dup <==> Find(Records(buf[..]), 0, 0, n).Hit?
    ensures !dup ==> slot == SlotFrom(Records(buf[..]), 0, 0)
  {
    hide RecAt, RealLen;
    ghost var v := Records(buf[..]);
    var offset: nat, prev: nat := 0, 0;
    slot := 0;
    while offset < BLOCK
      invariant Find(v, 0, 0, n) == Find(v, offset, prev, n)
      invariant SlotFrom(v, 0, 0) == SlotFrom(v, offset, slot)
      decreases BLOCK - offset
    {
      var r := RecAt(buf[..], offset);
      assert r == v[offset];
      if r.Bad? || r.inode == 0 || r.len == 0 {
        break;
      }
      if r.name == n {
        return true, slot;
      }
      if r.len > RealLen(|r.name|) + 16 {
        slot := offset;
      }
      prev := offset;
      offset := offset + r.len;
    }
    dup := false;
  }

  // ----- writing -----

  function Header(inode: u32, len: u16, nameLen: byte, kind: byte): (h: seq<byte>)
    ensures |h| == 8
  {
    var i, l := Le32(inode), Le16(len);
    [i[0], i[1], i[2], i[3], l[0], l[1], nameLen, kind]
  }

  lemma HeaderFields(inode: u32, len: u16, nameLen: byte, kind: byte)
    ensures var h := Header(inode, len, nameLen, kind);
      Read32(h, 0) == inode && Read16(h, 4) == len && h[6] == nameLen && h[7] == kind
  {
    hide Le16, Le32;
  }

  /** Copying a header out, changing `rec_len` and copying it back: the other six bytes stay what they were. */
  function SetLen(b: Block, o: nat, len: u16): Block
    requires o + 8 <= BLOCK
  {
    Patch(b, o + 4, Le16(len))
  }

  /** The same with `inode = 0`. */
  function ClearInode(b: Block, o: nat): Block
    requires o + 8 <= BLOCK
  {
    Patch(b, o, [0, 0, 0, 0])
  }

  /** A record depends on its header and name bytes only. */
  lemma RecordFrame(b: Block, c: Block, o: nat)
    requires o + 8 <= BLOCK && o + 8 + b[o + 6] <= BLOCK
    requires forall k :: o <= k < o + 8 + b[o + 6] ==> b[k] == c[k]
    ensures RecAt(c, o) == RecAt(b, o)
  {
    assert b[o + 8..o + 8 + b[o + 6]] == c[o + 8..o + 8 + b[o + 6]];
  }

  /** Copies `w` into the buffer byte by byte, as the `((uint8_t*)&entry)[i]` loops do. */
  method Store(buf: array<byte>, o: nat, w: seq<byte>)
    requires o + |w| <= buf.Length
    modifies buf
    ensures buf[..] == Patch(old(buf[..]), o, w)
  {
    var i := 0;
    while i < |w|
      invariant 0 <= i <= |w|
      invariant forall k :: 0 <= k < buf.Length ==> buf[k] == if o <= k < o + i then w[k - o] else old(buf[k])
    {
      buf[o + i] := w[i];
      i := i + 1;
    }
  }

  /** Where a record put behind `p` goes. */
  function NewAt(b: Block, p: nat): nat
    requires p + 8 <= BLOCK
  {
    p + RealLen(b[p + 6])
  }

  /** The new record stays inside the buffer, and inside 16 bits of record length. */
  predicate InBuffer(b: Block, p: nat, n: Name) {
    p + 8 <= BLOCK && NewAt(b, p) + 8 + |n| <= BLOCK && |n| <= 255 && RealLen(b[p + 6]) <= Read16(b, p + 4)
  }

  /** The three stores of an insertion: the old record's length, the new header, the new name. */
  function Splice(b: Block, p: nat, len: seq<byte>, t: nat, header: seq<byte>, n: Name): Block
    requires |len| == 2 && |header| == 8 && p + 6 <= BLOCK && t + 8 + |n| <= BLOCK
  {
    Patch(Patch(Patch(b, p + 4, len), t, header), t + 8, n)
  }

  /** Splits record `p`: it shrinks to its real length and the rest becomes a record for `n`. */
  function Insert(b: Block, p: nat, ino: u32, n: Name, kind: byte): Block
    requires InBuffer(b, p, n)
  {
    var t := NewAt(b, p);
    Splice(b, p, Le16(t - p), t, Header(ino, Read16(b, p + 4) - (t - p), |n|, kind), n)
  }

  method InsertRecord(buf: array<byte>, p: nat, ino: u32, n: Name, kind: byte)
    requires buf.Length == BLOCK && InBuffer(buf[..], p, n)
    modifies buf
    ensures buf[..] == Insert(old(buf[..]), p, ino, n, kind)
  {
    var b: Block := buf[..];
    var t := NewAt(b, p);
    Store(buf, p + 4, Le16(t - p));
    Store(buf, t, Header(ino, Read16(b, p + 4) - (t - p), |n|, kind));
    Store(buf, t + 8, n);
  }

  /** Clears the inode of record `t` and lets its predecessor `q` swallow it; `q == t` for the first record. */
  function Unlink(b: Block, q: nat, t: nat): Block
    requires q + 8 <= BLOCK && t + 8 <= BLOCK
  {
    var b1 := ClearInode(b, t);
    if q == t then b1 else SetLen(b1, q, (Read16(b1, q + 4) + Read16(b, t + 4)) % 0x1_0000)
  }

  method UnlinkRecord(buf: array<byte>, q: nat, t: nat)
    requires buf.Length == BLOCK && q + 8 <= BLOCK && t + 8 <= BLOCK
    modifies buf
    ensures buf[..] == Unlink(old(buf[..]), q, t)
  {
    hide Le16, Read16, Patch;
    var b: Block := buf[..];
    var recLen := Read16(b, t + 4);
    Store(buf, t, [0, 0, 0, 0]);
    ghost var b1: Block := buf[..];
    assert b1 == ClearInode(b, t);
    if q != t {
      Store(buf, q + 4, Le16((Read16(buf[..], q + 4) + recLen) % 0x1_0000));
      assert buf[..] == SetLen(b1, q, (Read16(b1, q + 4) + recLen) % 0x1_0000);
    }
  }

  // ----- the edits refine the map -----

  /** Room for a record named `n` in the slack behind record `p`. */
  predicate Fits(b: Block, p: nat, n: Name) {
    Good(Records(b), p) && RealLen(|Records(b)[p].name|) + 8 + |n| <= Records(b)[p].len
  }

  lemma GoodBytes(b: Block, p: nat)
    requires Good(Records(b), p)
    ensures p + 8 + b[p + 6] <= BLOCK && |Records(b)[p].name| == b[p + 6] && Records(b)[p].len == Read16(b, p + 4)
    ensures Records(b)[p] == RecAt(b, p)
  {
  }

  lemma FitsInBuffer(b: Block, p: nat, n: Name)
    requires Fits(b, p, n) && |n| <= 255
    ensures InBuffer(b, p, n) && NewAt(b, p) + 8 + |n| <= Next(Records(b), p)
  {
    GoodBytes(b, p);
  }

  lemma SetLenRecord(b: Block, p: nat, len: seq<byte>)
    requires |len| == 2 && p + 8 <= BLOCK && p + 8 + b[p + 6] <= BLOCK
    ensures RecAt(b, p).Rec?
    ensures RecAt(Patch(b, p + 4, len), p) == RecAt(b, p).(len := Read16(len, 0))
  {
    hide Patch, Read32;
    var c := Patch(b, p + 4, len);
    Read32Frame(b, c, p);
    assert c[p + 4] == len[0] && c[p + 5] == len[1] && c[p + 6] == b[p + 6];
    assert c[p + 8..p + 8 + b[p + 6]] == b[p + 8..p + 8 + b[p + 6]];
  }

  lemma SpliceNew(b: Block, t: nat, header: seq<byte>, n: Name)
    requires |header| == 8 && header[6] == |n| && t + 8 + |n| <= BLOCK
    ensures RecAt(Patch(Patch(b, t, header), t + 8, n), t) == Rec(Read32(header, 0), Read16(header, 4), n)
  {
    var c := Patch(Patch(b, t, header), t + 8, n);
    assert forall i :: 0 <= i < 8 ==> c[t + i] == header[i];
    assert c[t + 8..t + 8 + |n|] == n;
  }

  lemma SpliceRecords(b: Block, p: nat, len: seq<byte>, t: nat, header: seq<byte>, n: Name)
    requires |len| == 2 && |header| == 8 && header[6] == |n| && t + 8 + |n| <= BLOCK
    requires p + 8 <= t && p + 8 + b[p + 6] <= t
    ensures RecAt(b, p).Rec?
    ensures var c := Splice(b, p, len, t, header, n);
      && RecAt(c, p) == RecAt(b, p).(len := Read16(len, 0))
      && RecAt(c, t) == Rec(Read32(header, 0), Read16(header, 4), n)
  {
    SetLenRecord(b, p, len);
    var b1 := Patch(b, p + 4, len);
    SpliceNew(b1, t, header, n);
    RecordFrame(b1, Splice(b, p, len, t, header, n), p);
  }

  lemma SameRecord(b: Block, c: Block, k: nat, from: nat, to: nat)
    requires Good(Records(b), k) && (Next(Records(b), k) <= from || to <= k)
    requires forall i :: 0 <= i < BLOCK && (i < from || to <= i) ==> c[i] == b[i]
    ensures Records(c)[k] == Records(b)[k]
  {
    GoodBytes(b, k);
    RecordFrame(b, c, k);
  }

  lemma SameBytesOutside(b: Block, c: Block, from: nat, to: nat)
    requires forall i :: 0 <= i < BLOCK && (i < from || to <= i) ==> c[i] == b[i]
    ensures SameOutside(Records(b), Records(c), from, to)
  {
    forall k | 0 <= k && Good(Records(b), k) && (Next(Records(b), k) <= from || to <= k)
      ensures Records(c)[k] == Records(b)[k]
    {
      SameRecord(b, c, k, from, to);
    }
  }

  lemma SpliceSplits(b: Block, p: nat, len: seq<byte>, t: nat, header: seq<byte>, n: Name)
    requires |len| == 2 && |header| == 8 && header[6] == |n| && t + 8 + |n| <= BLOCK
    requires Good(Records(b), p) && p + 8 + |Records(b)[p].name| <= t && t + 8 + |n| <= Next(Records(b), p)
    requires t % 4 == p % 4 && ValidName(n) && Read32(header, 0) != 0
    requires Read16(len, 0) == t - p && Read16(header, 4) == Next(Records(b), p) - t
    ensures Split(Records(b), Records(Splice(b, p, len, t, header, n)), p, t, Read32(header, 0), n)
  {
    GoodBytes(b, p);
    SpliceRecords(b, p, len, t, header, n);
    SameBytesOutside(b, Splice(b, p, len, t, header, n), p, Next(Records(b), p));
    SplitAt(Records(b), Records(Splice(b, p, len, t, header, n)), p, t, Read32(header, 0), n);
  }

  lemma InsertSplits(b: Block, p: nat, ino: u32, n: Name, kind: byte)
    requires Fits(b, p, n) && ValidName(n) && ino != 0
    ensures InBuffer(b, p, n)
    ensures Split(Records(b), Records(Insert(b, p, ino, n, kind)), p, NewAt(b, p), ino, n)
  {
    hide Le16, Le32, Read16, Read32, Header, Splice, RecAt, Records, Split, RealLen, Good;
    FitsInBuffer(b, p, n);
    GoodBytes(b, p);
    var t := NewAt(b, p);
    var len := Read16(b, p + 4) - (t - p);
    HeaderFields(ino, len, |n|, kind);
    SpliceSplits(b, p, Le16(t - p), t, Header(ino, len, |n|, kind), n);
  }

  /** Inserting adds exactly the one name to the map and keeps the chain covering the block. */
  lemma InsertRefines(b: Block, p: nat, ino: u32, n: Name, kind: byte)
    requires WellFormed(b) && IsStart(Records(b), 0, p) && n !in Names(b)
    requires Fits(b, p, n) && ValidName(n) && ino != 0
    ensures InBuffer(b, p, n)
    ensures var c := Insert(b, p, ino, n, kind); WellFormed(c) && Names(c) == Names(b)[n := ino]
  {
    InsertSplits(b, p, ino, n, kind);
    SplitRefines(Records(b), Records(Insert(b, p, ino, n, kind)), 0, p, NewAt(b, p), ino, n);
  }

  lemma UnlinkBytes(b: Block, q: nat, t: nat)
    requires q + 8 <= t && t + 8 <= BLOCK
    ensures var c := Unlink(b, q, t); forall k :: 0 <= k < q || q + 8 <= k < t || t + 8 <= k < BLOCK ==> c[k] == b[k]
  {
  }

  lemma ClearedRecord(b: Block, q: nat, t: nat)
    requires q + 8 <= t && t + 8 <= BLOCK && q + 8 + b[q + 6] <= t
    ensures var b1 := ClearInode(b, t);
      RecAt(b1, q) == RecAt(b, q) && b1[q + 6] == b[q + 6] && Read16(b1, q + 4) == Read16(b, q + 4)
  {
    hide Patch;
    RecordFrame(b, ClearInode(b, t), q);
  }

  lemma UnlinkPrev(b: Block, q: nat, t: nat)
    requires q + 8 <= t && t + 8 <= BLOCK && q + 8 + b[q + 6] <= t && Read16(b, q + 4) + Read16(b, t + 4) <= BLOCK
    ensures RecAt(b, q).Rec?
    ensures RecAt(Unlink(b, q, t), q) == RecAt(b, q).(len := Read16(b, q + 4) + Read16(b, t + 4))
  {
    hide Le16, Read16, Read32, Patch, ClearInode;
    ClearedRecord(b, q, t);
    SetLenRecord(ClearInode(b, t), q, Le16(Read16(b, q + 4) + Read16(b, t + 4)));
  }

  lemma UnlinkMerges(b: Block, q: nat, t: nat)
    requires Good(Records(b), q) && Good(Records(b), t) && t == Next(Records(b), q)
    ensures q + 8 <= BLOCK && t + 8 <= BLOCK
    ensures Merged(Records(b), Records(Unlink(b, q, t)), q, t)
  {
    GoodBytes(b, q);
    GoodBytes(b, t);
    UnlinkBytes(b, q, t);
    UnlinkPrev(b, q, t);
    SameBytesOutside(b, Unlink(b, q, t), q, Next(Records(b), t));
    MergeAt(Records(b), Records(Unlink(b, q, t)), q, t);
  }

  /** Unlinking removes exactly the one name from the map and keeps the chain covering the block. */
  lemma UnlinkRefines(b: Block, q: nat, t: nat)
    requires WellFormed(b) && IsStart(Records(b), 0, q) && IsStart(Records(b), 0, t)
    requires q + 8 <= BLOCK && t + 8 <= BLOCK && t == q + Read16(b, q + 4)
    ensures var c := Unlink(b, q, t); WellFormed(c) && Names(c) == Names(b) - {Records(b)[t].name}
  {
    StartInChain(Records(b), 0, q);
    StartInChain(Records(b), 0, t);
    GoodBytes(b, q);
    UnlinkMerges(b, q, t);
    MergedRefines(Records(b), Records(Unlink(b, q, t)), 0, q, t);
  }

  lemma OverflowBreaks(b: Block, p: nat, ino: u32, n: Name, kind: byte)
    requires WellFormed(b) && IsStart(Records(b), 0, p) && InBuffer(b, p, n) && !Fits(b, p, n)
    ensures !WellFormed(Insert(b, p, ino, n, kind))
  {
    hide Insert, RealLen, RecAt, Distinct;
    var c, t := Insert(b, p, ino, n, kind), NewAt(b, p);
    StartInChain(Records(b), 0, p);
    GoodBytes(b, p);
    InsertOld(b, p, ino, n, kind);
    InsertNew(b, p, ino, n, kind);
    InsertBytes(b, p, ino, n, kind);
    SameBytesBefore(b, c, p);
    OverflowBreaksChain(b, c, p, t, ino, n);
  }

  lemma OverflowBreaksChain(b: Block, c: Block, p: nat, t: nat, ino: u32, n: Name)
    requires WellFormed(b) && IsStart(Records(b), 0, p) && Good(Records(b), p) && p < t < BLOCK
    requires t <= Next(Records(b), p)
    requires forall k :: 0 <= k && Good(Records(b), k) && Next(Records(b), k) <= p ==> Records(c)[k] == Records(b)[k]
    requires RecAt(c, p) == Records(b)[p].(len := t - p) && RecAt(c, t) == Rec(ino, Next(Records(b), p) - t, n)
    requires Next(Records(b), p) - t < 8 + |n|
    ensures !WellFormed(c)
  {
    assert Records(c)[p] == RecAt(c, p) && Records(c)[t] == RecAt(c, t);
    BrokenChain(Records(b), Records(c), 0, p);
  }

  /** Memory-safe insertions keep the block well formed exactly when the new record fits the slack. */
  lemma InsertWellFormedIff(b: Block, p: nat, ino: u32, n: Name, kind: byte)
    requires WellFormed(b) && IsStart(Records(b), 0, p) && n !in Names(b) && ValidName(n) && ino != 0
    requires InBuffer(b, p, n)
    ensures WellFormed(Insert(b, p, ino, n, kind)) <==> Fits(b, p, n)
  {
    if Fits(b, p, n) {
      InsertRefines(b, p, ino, n, kind);
    } else {
      OverflowBreaks(b, p, ino, n, kind);
    }
  }

  lemma InsertOld(b: Block, p: nat, ino: u32, n: Name, kind: byte)
    requires InBuffer(b, p, n)
    ensures p + 8 + b[p + 6] <= BLOCK && RecAt(b, p).Rec?
    ensures RecAt(Insert(b, p, ino, n, kind), p) == RecAt(b, p).(len := NewAt(b, p) - p)
  {
    hide Le16, Le32, Read16, Read32, Header, Splice, RecAt, RealLen;
    var t := NewAt(b, p);
    var len := Read16(b, p + 4) - (t - p);
    HeaderFields(ino, len, |n|, kind);
    SpliceRecords(b, p, Le16(t - p), t, Header(ino, len, |n|, kind), n);
  }

  lemma InsertNew(b: Block, p: nat, ino: u32, n: Name, kind: byte)
    requires InBuffer(b, p, n)
    ensures RecAt(Insert(b, p, ino, n, kind), NewAt(b, p)) == Rec(ino, Read16(b, p + 4) - (NewAt(b, p) - p), n)
  {
    hide Le16, Le32, Read16, Read32, Header, Splice, RecAt, RealLen;
    var t := NewAt(b, p);
    var len := Read16(b, p + 4) - (t - p);
    HeaderFields(ino, len, |n|, kind);
    SpliceRecords(b, p, Le16(t - p), t, Header(ino, len, |n|, kind), n);
  }

  lemma SameBytesBefore(b: Block, c: Block, p: nat)
    requires p <= BLOCK && forall i :: 0 <= i < p ==> c[i] == b[i]
    ensures forall k :: 0 <= k && Good(Records(b), k) && Next(Records(b), k) <= p ==> Records(c)[k] == Records(b)[k]
  {
    forall k | 0 <= k && Good(Records(b), k) && Next(Records(b), k) <= p
      ensures Records(c)[k] == Records(b)[k]
    {
      GoodBytes(b, k);
      RecordFrame(b, c, k);
    }
  }

  // ----- what one sector shows and keeps -----

  /** The buffer of delete and rmdir: the first sector is read, the second half stays zero. */
  function FirstSector(b: Block): Block {
    b[..SECTOR] + seq(SECTOR, _ => 0)
  }

  /** The disk block after only the first sector of the buffer `c` was written over `b`. */
  function WriteBack(b: Block, c: Block): Block {
    c[..SECTOR] + b[SECTOR..]
  }

  /** What no call ever changes of a directory block: its second sector. */
  predicate SameTail(b: Block, c: Block) {
    c[SECTOR..] == b[SECTOR..]
  }

  lemma WriteBackTail(b: Block, c: Block)
    ensures SameTail(b, WriteBack(b, c))
  {
  }

  /** A record whose header or name reaches past the first sector cannot match a name there. */
  lemma HalfRecord(b: Block, o: nat, n: Name)
    requires Good(Records(b), o) && ValidName(n) && o % 4 == 0
    ensures o + 8 <= BLOCK
    ensures var r := Records(FirstSector(b))[o];
      && r.Rec?
      && (o + 8 > SECTOR ==> r.inode == 0 || r.len == 0)
      && (o + 8 <= SECTOR ==> r.inode == Records(b)[o].inode && r.len == Records(b)[o].len)
      && (o + 8 + b[o + 6] <= SECTOR ==> r.name == Records(b)[o].name)
      && (o + 8 <= SECTOR < o + 8 + b[o + 6] ==> r.name != n)
  {
    GoodBytes(b, o);
    var c := FirstSector(b);
    assert forall k :: 0 <= k < SECTOR ==> c[k] == b[k];
    assert forall k :: SECTOR <= k < BLOCK ==> c[k] == 0;
    if o + 8 <= SECTOR {
      Read32Frame(b, c, o);
      if o + 8 + b[o + 6] <= SECTOR {
        RecordFrame(b, c, o);
      } else {
        var m := RecAt(c, o).name;
        assert |m| == b[o + 6] && m[|m| - 1] == c[o + 7 + |m|] == 0;
      }
    }
  }

  /** Deletion and rmdir, which read one sector, find a name exactly when its whole record header and name lie there. */
  lemma {:induction false} DeleteSees(b: Block, o: nat, prev: nat, n: Name)
    requires Chain(Records(b), o) && o % 4 == 0 && ValidName(n)
    ensures Find(Records(FirstSector(b)), o, prev, n)
         == match Find(Records(b), o, prev, n)
            case Miss => Miss
            case Hit(at, q) => if at + 8 + |n| <= SECTOR then Hit(at, q) else Miss
    decreases BLOCK - o
  {
    hide Read32, Read16, RecAt, FirstSector, Records;
    var v, w := Records(b), Records(FirstSector(b));
    if o < BLOCK {
      HalfRecord(b, o, n);
      GoodBytes(b, o);
      if o + 8 > SECTOR {
        FindFrom(v, o, prev, n);
      } else if v[o].name == n && o + 8 + |n| > SECTOR {
        var next := Next(v, o);
        if next < BLOCK {
          HalfRecord(b, next, n);
        }
      } else if v[o].name != n {
        DeleteSees(b, Next(v, o), o, n);
      }
    }
  }

  /** A search only hits at or after its start. */
  lemma {:induction false} FindFrom(v: View, o: nat, prev: nat, n: Name)
    requires Chain(v, o)
    ensures Find(v, o, prev, n).Hit? ==> Find(v, o, prev, n).at >= o
    decreases BLOCK - o
  {
    if o < BLOCK {
      FindFrom(v, Next(v, o), o, n);
    }
  }

  lemma InsertBytes(b: Block, p: nat, ino: u32, n: Name, kind: byte)
    requires InBuffer(b, p, n) && p + 8 <= NewAt(b, p)
    ensures var c, t := Insert(b, p, ino, n, kind), NewAt(b, p);
      forall k :: 0 <= k < p + 4 || p + 6 <= k < t || t + 8 + |n| <= k < BLOCK ==> c[k] == b[k]
  {
    hide Le16, Le32, Read16, Read32, Header, RealLen;
  }

  lemma InsertKept(b: Block, p: nat, ino: u32, n: Name, kind: byte)
    requires InBuffer(b, p, n) && NewAt(b, p) + 8 + |n| <= SECTOR && p + 8 <= NewAt(b, p)
    ensures WriteBack(b, Insert(b, p, ino, n, kind)) == Insert(b, p, ino, n, kind)
  {
    InsertBytes(b, p, ino, n, kind);
  }

  /** When even the old record's length lies in the second sector, nothing reaches the disk. */
  lemma InsertLost(b: Block, p: nat, ino: u32, n: Name, kind: byte)
    requires InBuffer(b, p, n) && p >= SECTOR - 4 && p + 8 <= NewAt(b, p)
    ensures WriteBack(b, Insert(b, p, ino, n, kind)) == b
  {
    hide Le16, Le32, Read16, Read32, Header, RealLen;
    var t := NewAt(b, p);
    var c := Insert(b, p, ino, n, kind);
    assert forall k :: 0 <= k < SECTOR ==> c[k] == b[k];
  }

  predicate SecondSectorBlank(b: Block) {
    forall k :: SECTOR <= k < BLOCK ==> b[k] == 0
  }

  lemma InsertFindsNew(b: Block, p: nat, ino: u32, n: Name, kind: byte)
    requires WellFormed(b) && IsStart(Records(b), 0, p) && n !in Names(b)
    requires Fits(b, p, n) && ValidName(n) && ino != 0
    ensures InBuffer(b, p, n)
    ensures var h := Find(Records(Insert(b, p, ino, n, kind)), 0, 0, n); h.Hit? && h.at == NewAt(b, p)
  {
    hide Insert, WellFormed, RecAt;
    FitsInBuffer(b, p, n);
    InsertSplits(b, p, ino, n, kind);
    InsertRefines(b, p, ino, n, kind);
    FoundAtSplit(b, Insert(b, p, ino, n, kind), p, NewAt(b, p), ino, n);
  }

  lemma FoundAtSplit(b: Block, c: Block, p: nat, t: nat, ino: u32, n: Name)
    requires WellFormed(b) && WellFormed(c) && IsStart(Records(b), 0, p) && Good(Records(b), p)
    requires Split(Records(b), Records(c), p, t, ino, n) && n in Names(c)
    ensures var h := Find(Records(c), 0, 0, n); h.Hit? && h.at == t
  {
    hide RecAt, Records;
    SplitStart(Records(b), Records(c), 0, p, t, ino, n);
    FindIsLookup(Records(c), 0, 0, n);
    var h := Find(Records(c), 0, 0, n);
    StartInChain(Records(c), 0, h.at);
    NamesAreUnique(Records(c), 0, h.at, t);
  }

  /**
    In a directory whose second sector is blank, which is how mkdir leaves it, the new name can be
    looked up on disk after the call exactly when its record ends inside the first sector.
   */
  lemma InsertReachesDiskIff(b: Block, p: nat, ino: u32, n: Name, kind: byte)
    requires WellFormed(b) && IsStart(Records(b), 0, p) && n !in Names(b) && SecondSectorBlank(b)
    requires Fits(b, p, n) && ValidName(n) && ino != 0
    ensures InBuffer(b, p, n)
    ensures Lookup(WriteBack(b, Insert(b, p, ino, n, kind)), n) == ino <==> NewAt(b, p) + 8 + |n| <= SECTOR
    ensures Lookup(WriteBack(b, Insert(b, p, ino, n, kind)), n) != 0 <==> NewAt(b, p) + 8 + |n| <= SECTOR
  {
    FitsInBuffer(b, p, n);
    InsertFindsNew(b, p, ino, n, kind);
    InsertRefines(b, p, ino, n, kind);
    BlankLookup(b, Insert(b, p, ino, n, kind), NewAt(b, p), ino, n);
  }

  lemma HeaderInSector(b: Block, c: Block, t: nat)
    requires t + 8 <= SECTOR && forall k :: 0 <= k < SECTOR ==> b[k] == c[k]
    ensures Read32(b, t) == Read32(c, t)
  {
  }

  lemma FoundInode(c: Block, n: Name)
    requires WellFormed(c) && n in Names(c)
    ensures var h := Find(Records(c), 0, 0, n); h.Hit? && h.at + 8 <= BLOCK && Read32(c, h.at) == Names(c)[n]
  {
    FindIsLookup(Records(c), 0, 0, n);
    var t := Find(Records(c), 0, 0, n).at;
    StartInChain(Records(c), 0, t);
    GoodBytes(c, t);
  }

  lemma BlankLookup(b: Block, c: Block, t: nat, ino: u32, n: Name)
    requires SecondSectorBlank(b) && WellFormed(c) && ValidName(n) && ino != 0 && n in Names(c) && Names(c)[n] == ino
    requires Find(Records(c), 0, 0, n).Hit? && Find(Records(c), 0, 0, n).at == t
    ensures Lookup(WriteBack(b, c), n) == if t + 8 + |n| <= SECTOR then ino else 0
  {
    hide Read32, Read16, ValidName, Find, Records, Entries;
    var d := WriteBack(b, c);
    assert d == FirstSector(c);
    DeleteSees(c, 0, 0, n);
    FoundInode(c, n);
    if t + 8 + |n| <= SECTOR {
      HeaderInSector(c, d, t);
    }
  }

  /** A good record of a block with a blank second sector ends in the first. */
  lemma GoodInSector(b: Block, p: nat)
    requires SecondSectorBlank(b) && Good(Records(b), p)
    ensures p + 8 + b[p + 6] <= SECTOR
  {
    GoodBytes(b, p);
    var n := Records(b)[p].name;
    assert n[|n| - 1] == b[p + 7 + |n|];
  }

  /**
    What is on disk of a record that ends behind the first sector: no inode, no length, or a name cut short by a zero.
   */
  lemma TornRecord(c: Block, t: nat, n: Name)
    requires SecondSectorBlank(c) && t % 4 == 0 && t + 8 + |n| <= BLOCK && |n| <= 255 && t + 8 + |n| > SECTOR && n != []
    requires t + 8 <= SECTOR ==> c[t + 6] == |n|
    ensures !Good(Records(c), t)
  {
    if Good(Records(c), t) {
      GoodInSector(c, t);
    }
  }

  lemma WriteBackBytes(b: Block, c: Block)
    ensures forall k :: 0 <= k < BLOCK ==> WriteBack(b, c)[k] == if k < SECTOR then c[k] else b[k]
  {
  }

  /** The record that was split lies in the first sector, and starts and ends on multiples of four. */
  lemma SplitInSector(b: Block, p: nat)
    requires WellFormed(b) && IsStart(Records(b), 0, p) && SecondSectorBlank(b)
    ensures p + 8 <= BLOCK && p + 8 + b[p + 6] <= SECTOR && Good(Records(b), p) && NewAt(b, p) % 4 == 0
    ensures p + 8 <= NewAt(b, p)
    ensures Records(b)[p] == RecAt(b, p)
  {
    hide RecAt, Distinct, Good, Records, Chain, IsStart, RealLen, SecondSectorBlank;
    StartInChain(Records(b), 0, p);
    StartAligned(Records(b), 0, p);
    GoodBytes(b, p);
    GoodInSector(b, p);
    assert NewAt(b, p) == p + RealLen(b[p + 6]);
  }

  /** On disk, the split record has its new length, and the records before it are as they were. */
  lemma TornBefore(b: Block, p: nat, ino: u32, n: Name, kind: byte)
    requires InBuffer(b, p, n) && p + 8 + b[p + 6] <= SECTOR && p + 8 <= NewAt(b, p)
    ensures var c := WriteBack(b, Insert(b, p, ino, n, kind));
      && RecAt(c, p) == RecAt(b, p).(len := NewAt(b, p) - p)
      && forall k :: 0 <= k && Good(Records(b), k) && Next(Records(b), k) <= p ==> Records(c)[k] == Records(b)[k]
  {
    hide Insert, WriteBack, RecAt, RealLen;
    var d := Insert(b, p, ino, n, kind);
    var c := WriteBack(b, d);
    InsertOld(b, p, ino, n, kind);
    InsertBytes(b, p, ino, n, kind);
    WriteBackBytes(b, d);
    assert d[p + 6] == b[p + 6];
    RecordFrame(d, c, p);
    SameBytesBefore(b, c, p);
  }

  lemma InsertNameLength(b: Block, p: nat, ino: u32, n: Name, kind: byte)
    requires InBuffer(b, p, n)
    ensures Insert(b, p, ino, n, kind)[NewAt(b, p) + 6] == |n|
  {
    hide Le16, Le32, RealLen;
  }

  lemma TornBreaks(b: Block, p: nat, ino: u32, n: Name, kind: byte)
    requires WellFormed(b) && IsStart(Records(b), 0, p) && SecondSectorBlank(b) && InBuffer(b, p, n) && n != []
    requires NewAt(b, p) + 8 + |n| > SECTOR
    ensures !WellFormed(WriteBack(b, Insert(b, p, ino, n, kind)))
  {
    hide Insert, WriteBack, RecAt, Distinct, RealLen;
    var c, t := WriteBack(b, Insert(b, p, ino, n, kind)), NewAt(b, p);
    SplitInSector(b, p);
    TornBefore(b, p, ino, n, kind);
    InsertNameLength(b, p, ino, n, kind);
    WriteBackBytes(b, Insert(b, p, ino, n, kind));
    TornRecord(c, t, n);
    assert Records(c)[p] == RecAt(c, p);
    BrokenChain(Records(b), Records(c), 0, p);
  }

  /**
    In a directory whose second sector is blank, the block on disk stays well formed exactly when the new record fits
    the slack and ends inside the first sector.
   */
  lemma WrittenWellFormedIff(b: Block, p: nat, ino: u32, n: Name, kind: byte)
    requires WellFormed(b) && IsStart(Records(b), 0, p) && n !in Names(b) && SecondSectorBlank(b)
    requires InBuffer(b, p, n) && ValidName(n) && ino != 0
    ensures WellFormed(WriteBack(b, Insert(b, p, ino, n, kind))) <==> Fits(b, p, n) && NewAt(b, p) + 8 + |n| <= SECTOR
  {
    hide Insert, WriteBack, WellFormed, RecAt, Fits, SecondSectorBlank;
    if NewAt(b, p) + 8 + |n| <= SECTOR {
      SlotBehind(b, p);
      InsertKept(b, p, ino, n, kind);
      InsertWellFormedIff(b, p, ino, n, kind);
    } else {
      TornBreaks(b, p, ino, n, kind);
    }
  }

  lemma SlotBehind(b: Block, p: nat)
    requires WellFormed(b) && IsStart(Records(b), 0, p)
    ensures p + 8 <= BLOCK && p + 8 <= NewAt(b, p)
  {
    StartInChain(Records(b), 0, p);
    GoodBytes(b, p);
  }

  /** The first record of a block survives an insertion behind a later one. */
  lemma InsertKeepsFirst(b: Block, p: nat, ino: u32, n: Name, kind: byte)
    requires WellFormed(b) && IsStart(Records(b), 0, p) && p != 0 && Fits(b, p, n) && ValidName(n) && ino != 0
    ensures InBuffer(b, p, n) && Records(Insert(b, p, ino, n, kind))[0] == Records(b)[0]
  {
    hide Insert, RecAt, Records;
    InsertSplits(b, p, ino, n, kind);
    StartInChain(Records(b), 0, p);
  }

  // ----- the block of a new directory -----

  /** "." with record length 12, then ".." up to the end of the block. */
  function FreshDir(self: u32, parent: u32): Block {
    var zero: Block := seq(BLOCK, _ => 0);
    var b1 := Patch(Patch(zero, 0, Header(self, 12, 1, 2)), 8, [DOT]);
    Patch(Patch(b1, 12, Header(parent, 1012, 2, 2)), 20, [DOT, DOT])
  }

  lemma FreshDirRecords(self: u32, parent: u32)
    ensures RecAt(FreshDir(self, parent), 0) == Rec(self, 12, [DOT])
    ensures RecAt(FreshDir(self, parent), 12) == Rec(parent, 1012, [DOT, DOT])
  {
    hide Le16, Le32, Read16, Read32, Header;
    var zero: Block := seq(BLOCK, _ => 0);
    HeaderFields(self, 12, 1, 2);
    HeaderFields(parent, 1012, 2, 2);
    SpliceNew(zero, 0, Header(self, 12, 1, 2), [DOT]);
    var b1 := Patch(Patch(zero, 0, Header(self, 12, 1, 2)), 8, [DOT]);
    SpliceNew(b1, 12, Header(parent, 1012, 2, 2), [DOT, DOT]);
    assert b1[6] == 1 by {
      assert b1[6] == Header(self, 12, 1, 2)[6];
    }
    RecordFrame(b1, FreshDir(self, parent), 0);
  }

  lemma FreshDirNames(self: u32, parent: u32)
    requires self != 0 && parent != 0
    ensures WellFormed(FreshDir(self, parent))
    ensures Names(FreshDir(self, parent)) == map[[DOT] := self, [DOT, DOT] := parent]
    ensures Records(FreshDir(self, parent))[0] == Rec(self, 12, [DOT])
    ensures SecondSectorBlank(FreshDir(self, parent))
  {
    hide RecAt, Le16, Le32;
    FreshDirRecords(self, parent);
    var v := Records(FreshDir(self, parent));
    assert v[0] == Rec(self, 12, [DOT]) && v[12] == Rec(parent, 1012, [DOT, DOT]);
    assert Chain(v, 1024) && Chain(v, 12) && Chain(v, 0);
    assert Entries(v, 12) == map[[DOT, DOT] := parent];
    assert [DOT] != [DOT, DOT];
  }

  /** A hit is a readable record. */
  lemma {:induction false} HitInBlock(b: Block, o: nat, prev: nat, n: Name)
    ensures Find(Records(b), o, prev, n).Hit? ==> Find(Records(b), o, prev, n).at + 8 <= BLOCK
    decreases BLOCK - o
  {
    hide Read32, Read16;
    var v := Records(b);
    if o < BLOCK && !v[o].Bad? && v[o].inode != 0 && v[o].len != 0 && v[o].name != n {
      HitInBlock(b, o + v[o].len, o, n);
    }
  }

  /** Editing the one-sector buffer and writing that sector back is editing the whole block. */
  lemma UnlinkFirstSector(b: Block, q: nat, t: nat)
    requires q + 8 <= t && t + 8 <= SECTOR
    ensures WriteBack(b, Unlink(FirstSector(b), q, t)) == Unlink(b, q, t)
  {
    hide Le16;
    var f := FirstSector(b);
    assert forall k :: 0 <= k < SECTOR ==> f[k] == b[k];
    assert Read16(f, t + 4) == Read16(b, t + 4);
    assert Read16(ClearInode(f, t), q + 4) == Read16(ClearInode(b, t), q + 4);
  }

  lemma UnlinkKeepsFirst(b: Block, q: nat, t: nat)
    requires WellFormed(b) && IsStart(Records(b), 0, q) && IsStart(Records(b), 0, t)
    requires q + 8 <= BLOCK && t + 8 <= BLOCK && t == q + Read16(b, q + 4)
    ensures Records(Unlink(b, q, t))[0].Rec? && Records(b)[0].Rec?
    ensures Records(Unlink(b, q, t))[0].name == Records(b)[0].name
  {
    hide Unlink, RecAt;
    StartInChain(Records(b), 0, q);
    StartInChain(Records(b), 0, t);
    GoodBytes(b, q);
    UnlinkMerges(b, q, t);
  }
}
