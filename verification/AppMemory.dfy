/** Launching apps, demand paging, and the four ways an app dies, over the pool of physical frames. */
module AppMemory {
  import opened Bytes
  import opened Frames
  import opened FrameOwnership

  const MAX_PROCESSES := 16

  type Page = p: seq<byte> | |p| == FRAME witness seq(FRAME, _ => 0)

  function Zeros(): Page {
    seq(FRAME, _ => 0)
  }

  /** Contents of the frame at physical address `a`. */
  function PageAt(ram: map<nat, Page>, a: nat): Page {
    if a in ram then ram[a] else Zeros()
  }

  /** The `f`-th page of a file of `size` bytes, its tail cleared. */
  function ImagePage(file: seq<byte>, size: nat, f: nat): Page
    requires size <= |file|
  {
    seq(FRAME, k requires 0 <= k < FRAME => if f * FRAME + k < size then file[f * FRAME + k] else 0)
  }

  /** The file begins with "EDXI" and says, in its sixth byte, that it is meant for ring 3. */
  ghost predicate Executable(file: seq<byte>, size: nat)
    requires size <= |file|
  {
    size >= 6 && file[0] == 0x45 && file[1] == 0x44 && file[2] == 0x58 && file[3] == 0x49 && file[5] == 1
  }

  /**
    The table shows the file: every byte stands where the app expects it, the rest of the last page is 0, and no
    further page is present. An entry is the address of its frame with the flags present, writable and user.
   */
  ghost predicate ShowsFile(t: Table, ram: map<nat, Page>, file: seq<byte>, size: nat)
    requires size <= |file| && size < 4096 * ENTRIES
  {
    forall x: nat :: x < 4096 * (size / 4096 + 1) ==>
      var e := t[x / 4096];
      e % 4096 == 7 && e - 7 in ram && ram[e - 7][x % 4096] == if x < size then file[x] else 0
  }

  lemma PageByte(file: seq<byte>, size: nat, x: nat)
    requires size <= |file|
    ensures ImagePage(file, size, x / FRAME)[x % FRAME] == if x < size then file[x] else 0
  {
    assert x / FRAME * FRAME + x % FRAME == x;
  }

  lemma EntryFlags(n: nat)
    ensures Entry(AddressOf(n)) % 4096 == 7 && Entry(AddressOf(n)) - 7 == AddressOf(n)
  {
    FlagBits(8192 + n);
    assert AddressOf(n) == FRAME * (8192 + n);
  }

  /** A load that found a frame for every page shows the file. */
  lemma LoadedShows(t: Table, got: seq<nat>, b: Bitmap, max: nat, ram: map<nat, Page>, file: seq<byte>, size: nat)
    requires Loaded(t, got, b, max, ram, file, size) && |got| == size / 4096 + 1 && size < 4096 * ENTRIES
    requires forall k :: 0 <= k < |got| ==> got[k] < max
    ensures ShowsFile(t, ram, file, size)
  {
    hide Used, ImagePage, AddressOf, Entry;
    forall x: nat | x < 4096 * (size / 4096 + 1)
      ensures var e := t[x / 4096];
        e % 4096 == 7 && e - 7 in ram && ram[e - 7][x % 4096] == if x < size then file[x] else 0
    {
      assert x / 4096 < |got|;
      EntryFlags(got[x / 4096]);
      PageByte(file, size, x);
    }
  }

  lemma HeaderIsExecutable(file: seq<byte>, size: nat)
    requires size <= |file|
    ensures HeaderOk(ImagePage(file, size, 0)) <==> Executable(file, size)
  {
  }

  /** Magic "EDXI" and the flag for a virtual (ring 3) app. */
  predicate HeaderOk(p: Page) {
    p[0] == 0x45 && p[1] == 0x44 && p[2] == 0x58 && p[3] == 0x49 && p[5] == 1
  }

  /** Frames an executable of `size` bytes is given. */
  function FramesFor(size: nat): nat {
    size / FRAME + 1
  }

  datatype Fault = Paged | Killed | Panic

  predicate InWindow(a: nat) {
    APP_BASE <= a < 0x4040_0000
  }

  function PageIndex(a: nat): nat {
    if InWindow(a) then (a - APP_BASE) / FRAME else 0
  }

  /** Lowest free slot from `p` on. */
  function FreeSlot(ps: seq<Proc>, p: nat): (r: nat)
    ensures p < |ps| ==> p <= r <= |ps|
    ensures p <= r < |ps| ==> !ps[r].active
    ensures forall q :: p <= q < r && q < |ps| ==> ps[q].active
    decreases |ps| - p
  {
    if p >= |ps| then |ps| else if !ps[p].active then p else FreeSlot(ps, p + 1)
  }

  /** Every frame in use keeps its contents. */
  ghost predicate ContentsKept(b: Bitmap, max: nat, ram: map<nat, Page>, ram': map<nat, Page>) {
    forall n: nat :: n < max && Used(b, n) ==> PageAt(ram', AddressOf(n)) == PageAt(ram, AddressOf(n))
  }

  lemma WriteFresh(b: Bitmap, max: nat, ram: map<nat, Page>, n: nat, p: Page)
    requires n < |b| * 32 && !Used(b, n)
    ensures ContentsKept(b, max, ram, ram[AddressOf(n) := p])
  {
    hide Used;
    NoPoolBelow(n);
  }

  lemma WriteNull(b: Bitmap, max: nat, ram: map<nat, Page>, p: Page)
    ensures ContentsKept(b, max, ram, ram[0 := p])
  {
    hide Used;
  }

  /** What the loader's loop knows: page `k` got frame `got[k]`, or none when `got[k] == max`. */
  ghost predicate Loaded(t: Table, got: seq<nat>, b: Bitmap, max: nat, ram: map<nat, Page>, file: seq<byte>,
                         size: nat) {
    && size <= |file| && |got| <= ENTRIES
    && (forall k :: |got| <= k < ENTRIES ==> t[k] == 0)
    && forall k :: 0 <= k < |got| ==>
         if got[k] < max then
           && t[k] == Entry(AddressOf(got[k])) && Used(b, got[k])
           && AddressOf(got[k]) in ram && ram[AddressOf(got[k])] == ImagePage(file, size, k)
         else t[k] == Entry(0)
  }

  lemma LoadFrame(t: Table, got: seq<nat>, b: Bitmap, b': Bitmap, max: nat, ram: map<nat, Page>, file: seq<byte>,
                  size: nat, n: nat)
    requires Loaded(t, got, b, max, ram, file, size) && |got| < ENTRIES && Walled(b, max) && Handed(b, b', n, max)
    ensures Loaded(t[|got| := Entry(AddressOf(n))], got + [n], b', max,
      ram[AddressOf(n) := ImagePage(file, size, |got|)], file, size)
  {
    hide Used, ImagePage;
    NoPoolBelow(n);
    var now := got + [n];
    forall k | 0 <= k < |got| && got[k] < max
      ensures Used(b', got[k]) && AddressOf(got[k]) != AddressOf(n)
    {
      assert Used(b, got[k]) && got[k] != n;
    }
    assert forall k :: 0 <= k < |got| ==> now[k] == got[k];
  }

  lemma LoadNothing(t: Table, got: seq<nat>, b: Bitmap, max: nat, ram: map<nat, Page>, file: seq<byte>, size: nat)
    requires Loaded(t, got, b, max, ram, file, size) && |got| < ENTRIES
    ensures Loaded(t[|got| := Entry(0)], got + [max], b, max, ram[0 := ImagePage(file, size, |got|)], file, size)
  {
    hide Used, ImagePage;
    var now := got + [max];
    assert forall k :: 0 <= k < |got| ==> now[k] == got[k];
  }

  /** The next entry of the table being loaded holds nothing yet. */
  lemma NextIsEmpty(ps: seq<Proc>, t: Table, got: seq<nat>, b: Bitmap, max: nat, ram: map<nat, Page>, file: seq<byte>,
                    size: nat)
    requires Loaded(t, got, b, max, ram, file, size) && |got| < ENTRIES
    ensures |Loading(ps, t)| == |ps| + 1 && Loading(ps, t)[|ps|] == Proc(true, t) && !PoolEntry(t[|got|], max)
    ensures forall e: nat :: Loading(ps, t[|got| := e]) == WithEntry(Loading(ps, t), |ps|, |got|, e)
  {
    hide Used, ImagePage;
    assert t[|got|] == 0;
  }

  /** Entries that name no frame of the pool do not matter. */
  lemma NullEntry(ps: seq<Proc>, b: Bitmap, max: nat, p: nat, i: nat)
    requires Owned(ps, b, max) && p < |ps| && ps[p].active && i < ENTRIES && !PoolEntry(ps[p].table[i], max)
    ensures Owned(WithEntry(ps, p, i, Entry(0)), b, max)
  {
    hide Used, AddressOf, Present, Target, WithEntry, Maps;
    var ps' := WithEntry(ps, p, i, Entry(0));
    EntryMeaning(0);
    forall q: nat, j: nat, m: nat
      ensures m < max ==> (Maps(ps', q, j, m) <==> Maps(ps, q, j, m))
    {
      EntryMaps(ps, p, i, Entry(0), q, j, m);
      NoPoolBelow(m);
      if Maps(ps, q, j, m) && m < max {
        HeldEntry(ps, q, j, m, max);
      }
    }
    forall m: nat | m < max
      ensures Used(b, m) <==> Mapped(ps', m)
    {
      if Mapped(ps, m) {
        var q: nat, j: nat :| Maps(ps, q, j, m);
        assert Maps(ps', q, j, m);
      }
    }
  }

  /** Progress of the loop that hands back the frames of a dying process. */
  ghost predicate Returning(ps: seq<Proc>, b: Bitmap, b': Bitmap, max: nat, p: nat, i: nat) {
    && Walled(b', max)
    && forall n: nat :: n < max ==> (Used(b', n) <==> Used(b, n) && !exists j: nat :: j < i && Maps(ps, p, j, n))
  }

  lemma ReturnOne(ps: seq<Proc>, b: Bitmap, b': Bitmap, b'': Bitmap, max: nat, p: nat, i: nat)
    requires p < |ps| && ps[p].active && i < ENTRIES && Returning(ps, b, b', max, p, i) && Walled(b'', max)
    requires var e := ps[p].table[i];
      if Present(e) && POOL_START <= Target(e) < AddressOf(max) then
        Marked(b', b'', (Target(e) - POOL_START) / FRAME, false) else b'' == b'
    ensures Returning(ps, b, b'', max, p, i + 1)
  {
    hide Used, Walled;
    var e := ps[p].table[i];
    forall n: nat | n < max
      ensures Used(b'', n) <==> Used(b, n) && !exists j: nat :: j < i + 1 && Maps(ps, p, j, n)
    {
      TargetFrame(e, n, max);
      assert Used(b', n) <==> Used(b, n) && !exists j: nat :: j < i && Maps(ps, p, j, n);
      assert Maps(ps, p, i, n) <==> Present(e) && Target(e) == AddressOf(n);
      WalledLength(b', max);
    }
  }

  lemma WalledLength(b: Bitmap, max: nat)
    requires Walled(b, max)
    ensures max <= 32 * |b|
  {
  }

  lemma TargetFrame(e: nat, n: nat, max: nat)
    requires n < max
    ensures Target(e) == AddressOf(n) <==>
      POOL_START <= Target(e) < AddressOf(max) && (Target(e) - POOL_START) / FRAME == n
  {
    var t := Target(e);
    assert t % FRAME == 0;
  }

  class Machine {
    const pool: FramePool
    var procs: seq<Proc>
    var ram: map<nat, Page>

    ghost predicate Valid()
      reads this, pool, pool.bitmap
    {
      pool.Valid() && |procs| == MAX_PROCESSES && Owned(procs, pool.bitmap[..], pool.max)
    }

    constructor (mb: nat)
      ensures Valid() && fresh(pool) && fresh(pool.bitmap) && pool.max == FramesOf(mb)
      ensures pool.bitmap[..] == InitialBits(pool.max) && forall p :: 0 <= p < MAX_PROCESSES ==> !procs[p].active
    {
      pool := new FramePool(mb);
      procs := seq(MAX_PROCESSES, _ => Proc(false, seq(ENTRIES, _ => 0)));
      ram := map[];
      new;
      NobodyOwns(procs, pool.max);
    }

    /** `get_free_pid`; 0 stands for the -1 of a full table. */
    method FreePid() returns (pid: nat)
      requires |procs| == MAX_PROCESSES
      ensures pid == if FreeSlot(procs, 1) < MAX_PROCESSES then FreeSlot(procs, 1) else 0
      ensures pid == 0 ==> forall q :: 1 <= q < 16 ==> procs[q].active
      ensures pid != 0 ==> 1 <= pid < 16 && !procs[pid].active && forall q :: 1 <= q < pid ==> procs[q].active
    {
      var i := 1;
      while i < MAX_PROCESSES
        invariant 1 <= i <= MAX_PROCESSES && FreeSlot(procs, 1) == FreeSlot(procs, i)
      {
        if !procs[i].active {
          return i;
        }
        i := i + 1;
      }
      return 0;
    }

    /**
      The loader's loop: a frame for every page of the file, filled from the buffer. When the pool is empty the
      entry gets address 0 and the bytes go to physical page 0.
     */
    method LoadImage(file: seq<byte>, size: nat) returns (t: Table, ghost got: seq<nat>)
      requires Valid() && size <= |file| && FramesFor(size) <= ENTRIES
      modifies this`ram, pool.bitmap
      ensures pool.Valid() && Owned(Loading(procs, t), pool.bitmap[..], pool.max)
      ensures |got| == FramesFor(size) && Loaded(t, got, pool.bitmap[..], pool.max, ram, file, size)
      ensures (forall k :: 0 <= k < |got| ==> got[k] < pool.max) <==>
        FramesFor(size) <= |FreeFrames(old(pool.bitmap[..]), pool.max)|
      ensures ContentsKept(old(pool.bitmap[..]), pool.max, old(ram), ram)
    {
      hide Owned, Used, Present, Target, AddressOf, FreeFrames, Marked, Loading, WithEntry, ImagePage, Loaded,
        ContentsKept, Handed;
      ghost var was, room := pool.bitmap[..], |FreeFrames(pool.bitmap[..], pool.max)|;
      t := seq(ENTRIES, _ => 0);
      got := [];
      StartLoading(procs, was, pool.max);
      LoadStart(was, pool.max, ram, file, size);
      var f := 0;
      while f < FramesFor(size)
        invariant 0 <= f <= FramesFor(size) && |got| == f && pool.Valid()
        invariant Owned(Loading(procs, t), pool.bitmap[..], pool.max)
        invariant Loaded(t, got, pool.bitmap[..], pool.max, ram, file, size)
        invariant |FreeFrames(pool.bitmap[..], pool.max)| == if f <= room then room - f else 0
        invariant (forall k :: 0 <= k < |got| ==> got[k] < pool.max) <==> f <= room
        invariant forall m: nat :: m < pool.max && Used(was, m) ==> Used(pool.bitmap[..], m)
        invariant ContentsKept(was, pool.max, old(ram), ram)
      {
        ghost var b, r := pool.bitmap[..], ram;
        SomeFree(b, pool.max);
        NextIsEmpty(procs, t, got, b, pool.max, ram, file, size);
        var a := pool.Alloc();
        ram := ram[a := ImagePage(file, size, f)];
        if a == 0 {
          LoadNothing(t, got, b, pool.max, r, file, size);
          NullEntry(Loading(procs, t), b, pool.max, |procs|, f);
          WriteNull(b, pool.max, r, ImagePage(file, size, f));
          CountLoaded(got, pool.max, pool.max, room, |FreeFrames(b, pool.max)|);
          got := got + [pool.max];
        } else {
          ghost var n: nat :| a == AddressOf(n) && Handed(b, pool.bitmap[..], n, pool.max);
          FreshFacts(b, pool.bitmap[..], n, pool.max);
          LoadFrame(t, got, b, pool.bitmap[..], pool.max, r, file, size, n);
          MapKeeps(Loading(procs, t), b, pool.bitmap[..], pool.max, |procs|, f, n);
          WriteFresh(b, pool.max, r, n, ImagePage(file, size, f));
          OneFewer(b, pool.bitmap[..], n, pool.max);
          GrownBits(b, pool.bitmap[..], n, pool.max);
          CountLoaded(got, n, pool.max, room, |FreeFrames(b, pool.max)|);
          got := got + [n];
        }
        ContentsChain(was, b, pool.max, old(ram), r, ram);
        t := t[f := Entry(a)];
        f := f + 1;
      }
    }

    /** The abort loop: the first `count` entries are handed back without looking at their flags. */
    method Abandon(t: Table, count: nat)
      requires pool.Valid() && count <= ENTRIES && Owned(Loading(procs, t), pool.bitmap[..], pool.max)
      requires (forall k :: 0 <= k < count ==> Present(t[k])) && forall k :: count <= k < ENTRIES ==> t[k] == 0
      modifies pool.bitmap
      ensures pool.Valid() && Owned(procs, pool.bitmap[..], pool.max)
    {
      hide Owned, Used, Walled, Marked, Maps, Present, Target, AddressOf;
      ghost var was, ps := pool.bitmap[..], Loading(procs, t);
      assert ps[|procs|] == Proc(true, t);
      var f := 0;
      while f < count
        invariant 0 <= f <= count && pool.Valid()
        invariant Returning(ps, was, pool.bitmap[..], pool.max, |procs|, f)
      {
        ghost var now := pool.bitmap[..];
        pool.Free(Target(t[f]));
        ReturnOne(ps, was, now, pool.bitmap[..], pool.max, |procs|, f);
        f := f + 1;
      }
      AllAborted(procs, t, was, pool.bitmap[..], pool.max, count);
      ReapKeeps(ps, was, pool.bitmap[..], pool.max, |procs|);
      StopLoading(procs, t, pool.bitmap[..], pool.max);
    }

    /**
      Launching the executable `file` of `size` bytes, which is at most what the loader's buffer holds.
      0 when its header is wrong or no slot is free: then the bitmap is as before, word for word.
     */
    method Launch(file: seq<byte>, size: nat) returns (pid: nat)
      requires Valid() && size <= |file| && size < 4096 * ENTRIES
      modifies this, pool.bitmap
      ensures Valid() && ContentsKept(old(pool.bitmap[..]), pool.max, old(ram), ram)
      ensures pid == 0 ==> procs == old(procs) && pool.bitmap[..] == old(pool.bitmap[..])
      ensures pid != 0 ==> pid < 16 && !old(procs)[pid].active && forall q :: 1 <= q < pid ==> old(procs)[q].active
      ensures pid != 0 ==> procs == old(procs)[pid := Proc(true, procs[pid].table)]
      ensures size / 4096 + 1 <= |FreeFrames(old(pool.bitmap[..]), pool.max)| ==>
        (pid != 0 <==> Executable(file, size) && exists q :: 1 <= q < 16 && !old(procs)[q].active)
      ensures pid != 0 && size / 4096 + 1 <= |FreeFrames(old(pool.bitmap[..]), pool.max)| ==>
        ShowsFile(procs[pid].table, ram, file, size)
      ensures pid != 0 ==> forall f :: 0 <= f < ENTRIES ==>
        (procs[pid].table[f] % 2 == 1 <==> f <= size / 4096) && (f > size / 4096 ==> procs[pid].table[f] == 0)
    {
      hide Owned, Used, Target, AddressOf, FreeFrames, ImagePage, Loaded, ContentsKept, HeaderOk, Walled, Loading,
        ShowsFile, Executable;
      ghost var was := pool.bitmap[..];
      var t, got := LoadImage(file, size);
      HeaderIsExecutable(file, size);
      if FramesFor(size) <= |FreeFrames(was, pool.max)| {
        LoadedShows(t, got, pool.bitmap[..], pool.max, ram, file, size);
      }
      LoadedPages(t, got, pool.bitmap[..], pool.max, ram, file, size);
      var header := PageAt(ram, Target(t[0]));
      if !HeaderOk(header) {
        Abandon(t, FramesFor(size));
        OwnersFixBits(procs, was, pool.bitmap[..], pool.max);
        return 0;
      }
      pid := FreePid();
      if pid != 0 {
        FinishLoading(procs, t, pool.bitmap[..], pool.max, pid);
        procs := procs[pid := Proc(true, t)];
      } else {
        Abandon(t, FramesFor(size));
        OwnersFixBits(procs, was, pool.bitmap[..], pool.max);
      }
    }

    /** The loop over a page table that hands its frames back. */
    method ReturnFrames(t: Table, ghost ps: seq<Proc>, ghost p: nat)
      requires pool.Valid() && p < |ps| && ps[p] == Proc(true, t)
      modifies pool.bitmap
      ensures pool.Valid() && Returned(ps, old(pool.bitmap[..]), pool.bitmap[..], pool.max, p)
    {
      hide Used, Walled, Marked, Maps, Present, Target, AddressOf;
      ghost var was := pool.bitmap[..];
      var i := 0;
      while i < ENTRIES
        invariant 0 <= i <= ENTRIES && pool.Valid()
        invariant Returning(ps, was, pool.bitmap[..], pool.max, p, i)
      {
        ghost var now := pool.bitmap[..];
        if Present(t[i]) {
          pool.Free(Target(t[i]));
        }
        ReturnOne(ps, was, now, pool.bitmap[..], pool.max, p, i);
        i := i + 1;
      }
      AllReturned(ps, was, pool.bitmap[..], pool.max, p);
    }

    /**
      `kill_process`, `terminate_faulting_app`, closing a window, and the kill command: the same steps in four places.
     */
    method Reap(p: nat)
      requires Valid() && p < MAX_PROCESSES && procs[p].active
      modifies this`procs, pool.bitmap
      ensures Valid() && procs == old(procs)[p := old(procs)[p].(active := false)]
      ensures Returned(old(procs), old(pool.bitmap[..]), pool.bitmap[..], pool.max, p)
    {
      hide Owned, Returned, Used;
      ghost var ps, b := procs, pool.bitmap[..];
      procs := procs[p := procs[p].(active := false)];
      ReturnFrames(procs[p].table, ps, p);
      ReapKeeps(ps, b, pool.bitmap[..], pool.max, p);
    }

    /**
      `panic_pagefault` for an access to `a` while process `p` runs; `user` is the privilege level of the access.
      The processor only raises it for a page of the window when its entry is not present.
     */
    method PageFault(p: nat, a: nat, user: bool) returns (r: Fault)
      requires Valid() && p < MAX_PROCESSES && (p != 0 ==> procs[p].active)
      requires p != 0 && 0x4000_0000 <= a < 0x4040_0000 ==> procs[p].table[(a - 0x4000_0000) / 4096] % 2 == 0
      modifies this, pool.bitmap
      ensures Valid()
      ensures r == (
        if p != 0 && 0x4000_0000 <= a < 0x4040_0000 then
          if |FreeFrames(old(pool.bitmap[..]), pool.max)| > 0 then Paged else Killed
        else if user then Killed else Panic)
      ensures r == Paged ==>
        var i, e := (a - 0x4000_0000) / 4096, procs[p].table[(a - 0x4000_0000) / 4096];
        && e % 4096 == 7 && e - 7 in ram && ram[e - 7] == seq(4096, _ => 0)
        && procs == old(procs)[p := old(procs)[p].(table := old(procs)[p].table[i := e])]
        && |FreeFrames(pool.bitmap[..], pool.max)| == |FreeFrames(old(pool.bitmap[..]), pool.max)| - 1
      ensures r == Killed ==>
        procs == if p == 0 then old(procs) else old(procs)[p := old(procs)[p].(active := false)]
      ensures r == Killed && p != 0 ==> Returned(old(procs), old(pool.bitmap[..]), pool.bitmap[..], pool.max, p)
      ensures r == Panic ==> procs == old(procs) && pool.bitmap[..] == old(pool.bitmap[..])
      ensures ContentsKept(old(pool.bitmap[..]), pool.max, old(ram), ram)
    {
      hide Owned, Used, Target, AddressOf, Returned, FreeFrames, Walled, Marked;
      ghost var b, ps := pool.bitmap[..], procs;
      SomeFree(b, pool.max);
      if InWindow(a) {
        if p != 0 {
          var frame := pool.Alloc();
          if frame == 0 {
            Reap(p);
            return Killed;
          }
          ghost var n: nat :| frame == AddressOf(n) && Handed(b, pool.bitmap[..], n, pool.max);
          InBitmap(b, n, pool.max);
          WriteFresh(b, pool.max, ram, n, Zeros());
          ram := ram[frame := Zeros()];
          EntryMeaning(n);
          EntryFlags(n);
          NotPresent(ps[p].table[PageIndex(a)], pool.max);
          MapKeeps(ps, b, pool.bitmap[..], pool.max, p, PageIndex(a), n);
          OneFewer(b, pool.bitmap[..], n, pool.max);
          procs := WithEntry(procs, p, PageIndex(a), Entry(frame));
          return Paged;
        }
      }
      if user {
        if p > 0 {
          Reap(p);
        }
        return Killed;
      }
      return Panic;
    }
  }

  /** One more frame, or one more failure, in the count of free frames. */
  lemma CountLoaded(got: seq<nat>, n: nat, max: nat, room: nat, left: nat)
    requires left == (if |got| <= room then room - |got| else 0)
    requires (forall k :: 0 <= k < |got| ==> got[k] < max) <==> |got| <= room
    requires n < max <==> left > 0
    ensures (forall k :: 0 <= k < |got + [n]| ==> (got + [n])[k] < max) <==> |got| + 1 <= room
  {
    var now := got + [n];
    assert now[|got|] == n;
    assert forall k :: 0 <= k < |got| ==> now[k] == got[k];
  }

  lemma GrownBits(b: Bitmap, b': Bitmap, n: nat, max: nat)
    requires Handed(b, b', n, max)
    ensures forall m: nat :: m < 32 * |b| && Used(b, m) ==> Used(b', m)
  {
    hide Used;
  }

  lemma ContentsChain(was: Bitmap, b: Bitmap, max: nat, r0: map<nat, Page>, r1: map<nat, Page>, r2: map<nat, Page>)
    requires ContentsKept(was, max, r0, r1) && ContentsKept(b, max, r1, r2)
    requires forall m: nat :: m < max && Used(was, m) ==> Used(b, m)
    ensures ContentsKept(was, max, r0, r2)
  {
    hide Used;
  }

  /** All frames of an aborted load are among its first `i` entries. */
  lemma AllAborted(ps: seq<Proc>, t: Table, b: Bitmap, b': Bitmap, max: nat, i: nat)
    requires Returning(Loading(ps, t), b, b', max, |ps|, i) && i <= ENTRIES && forall k :: i <= k < ENTRIES ==>
      t[k] == 0
    ensures Returned(Loading(ps, t), b, b', max, |ps|)
  {
    hide Used, Walled;
    forall n: nat | n < max
      ensures Used(b', n) <==> Used(b, n) && !exists j: nat :: Maps(Loading(ps, t), |ps|, j, n)
    {
      assert forall j: nat :: Maps(Loading(ps, t), |ps|, j, n) ==> j < i;
    }
  }

  /** The same owners mean the same bitmap. */
  lemma OwnersFixBits(ps: seq<Proc>, b: Bitmap, c: Bitmap, max: nat)
    requires Owned(ps, b, max) && Owned(ps, c, max) && Walled(b, max) && Walled(c, max)
    ensures b == c
  {
    hide Used, Mapped, Maps;
    SameBits(b, c);
  }

  lemma LoadedPages(t: Table, got: seq<nat>, b: Bitmap, max: nat, ram: map<nat, Page>, file: seq<byte>, size: nat)
    requires Loaded(t, got, b, max, ram, file, size)
    ensures forall k :: 0 <= k < |got| ==> Present(t[k])
    ensures forall k :: 0 <= k < |got| && got[k] < max ==> PageAt(ram, Target(t[k])) == ImagePage(file, size, k)
    ensures forall k :: |got| <= k < ENTRIES ==> t[k] == 0
  {
    hide Used, ImagePage;
    EntryMeaning(0);
    forall k | 0 <= k < |got|
      ensures Present(t[k]) && (got[k] < max ==> PageAt(ram, Target(t[k])) == ImagePage(file, size, k))
    {
      EntryMeaning(got[k]);
    }
  }

  lemma AllReturned(ps: seq<Proc>, b: Bitmap, b': Bitmap, max: nat, p: nat)
    requires Returning(ps, b, b', max, p, ENTRIES)
    ensures Returned(ps, b, b', max, p)
  {
    hide Used, Walled;
    forall n: nat | n < max
      ensures Used(b', n) <==> Used(b, n) && !exists j: nat :: Maps(ps, p, j, n)
    {
      assert forall j: nat :: Maps(ps, p, j, n) ==> j < ENTRIES;
    }
  }

  lemma InBitmap(b: Bitmap, n: nat, max: nat)
    requires Walled(b, max) && n < max
    ensures n < 32 * |b|
  {
  }

  lemma FreshFacts(b: Bitmap, b': Bitmap, n: nat, max: nat)
    requires Walled(b, max) && Handed(b, b', n, max)
    ensures n < max && n < 32 * |b| && !Used(b, n) && AddressOf(n) != 0 && max <= 32 * |b|
  {
  }

  lemma LoadStart(b: Bitmap, max: nat, ram: map<nat, Page>, file: seq<byte>, size: nat)
    requires size <= |file|
    ensures Loaded(seq(ENTRIES, _ => 0), [], b, max, ram, file, size) && ContentsKept(b, max, ram, ram)
  {
  }

  lemma NotPresent(e: nat, max: nat)
    requires !Present(e)
    ensures !PoolEntry(e, max)
  {
  }
}
