/**
  The records of a directory block, seen apart from their byte encoding: `v[o]` is the record
  that would be read at offset `o`. A chain of such records covers the 1024 bytes exactly and
  stands for a finite map from names to inode numbers.
 */
module RecordChain {
  import opened Bytes

  type Name = seq<byte>

  const SLASH: byte := 47
  const DOT: byte := 46

  /** `Bad` is an offset whose header would not fit in the block. */
  datatype Rec = Bad | Rec(inode: u32, len: u16, name: Name)

  type View = v: seq<Rec> | |v| == BLOCK witness seq(BLOCK, _ => Bad)

  predicate ValidName(n: Name) {
    1 <= |n| <= 255 && forall k :: 0 <= k < |n| ==> n[k] != 0 && n[k] != SLASH
  }

  /** The two names every directory starts with. */
  predicate IsDots(n: Name) {
    n == [DOT] || n == [DOT, DOT]
  }

  /** Bytes a record really needs: header and name, rounded up to a multiple of four. */
  function RealLen(nameLen: nat): (r: nat)
    ensures r % 4 == 0 && 8 + nameLen <= r < 12 + nameLen
  {
    var r := 8 + nameLen;
    if r % 4 != 0 then r + (4 - r % 4) else r
  }

  /** A live record that ends inside the block and contains its own name. */
  predicate Good(v: View, o: nat) {
    && o < BLOCK
    && v[o].Rec?
    && v[o].inode != 0
    && v[o].len % 4 == 0
    && 8 + |v[o].name| <= v[o].len
    && o + v[o].len <= BLOCK
    && ValidName(v[o].name)
  }

  function Next(v: View, o: nat): nat
    requires Good(v, o)
  {
    o + v[o].len
  }

  /** From `o` on, records follow each other without gap or overlap up to the end of the block. */
  predicate Chain(v: View, o: nat)
    decreases BLOCK - o
  {
    o == BLOCK || (Good(v, o) && Chain(v, Next(v, o)))
  }

  /** The map that the chain from `o` on stands for. */
  function Entries(v: View, o: nat): map<Name, u32>
    requires Chain(v, o)
    decreases BLOCK - o
  {
    if o == BLOCK then map[] else Entries(v, Next(v, o))[v[o].name := v[o].inode]
  }

  predicate Distinct(v: View, o: nat)
    requires Chain(v, o)
    decreases BLOCK - o
  {
    o == BLOCK || (v[o].name !in Entries(v, Next(v, o)) && Distinct(v, Next(v, o)))
  }

  /** A record of the chain from `o` starts at `p`. */
  predicate IsStart(v: View, o: nat, p: nat)
    requires Chain(v, o)
    decreases BLOCK - o
  {
    o < BLOCK && (o == p || IsStart(v, Next(v, o), p))
  }

  // ----- search, as the scan loops do it -----

  datatype Search = Miss | Hit(at: nat, prev: nat)

  /** First record from `o` on that is named `n`; the walk ends at a record without inode or without length. */
  function Find(v: View, o: nat, prev: nat, n: Name): Search
    decreases BLOCK - o
  {
    if o >= BLOCK || v[o].Bad? || v[o].inode == 0 || v[o].len == 0 then Miss
    else if v[o].name == n then Hit(o, prev)
    else Find(v, o + v[o].len, o, n)
  }

  lemma {:induction false} StartInChain(v: View, o: nat, p: nat)
    requires Chain(v, o) && IsStart(v, o, p)
    ensures o <= p < BLOCK && Chain(v, p) && Good(v, p) && Good(v, o)
    ensures p == o || Next(v, o) <= p
    decreases BLOCK - o
  {
    if o != p {
      StartInChain(v, Next(v, o), p);
    }
  }

  lemma {:induction false} NextStart(v: View, o: nat, p: nat)
    requires Chain(v, o) && IsStart(v, o, p)
    ensures Good(v, p)
    ensures Next(v, p) < BLOCK ==> IsStart(v, o, Next(v, p))
    decreases BLOCK - o
  {
    if o != p {
      NextStart(v, Next(v, o), p);
    }
  }

  lemma {:induction false} StartAligned(v: View, o: nat, p: nat)
    requires Chain(v, o) && IsStart(v, o, p) && o % 4 == 0
    ensures p % 4 == 0
    decreases BLOCK - o
  {
    if o != p {
      StartAligned(v, Next(v, o), p);
    }
  }

  lemma {:induction false} StartHasEntry(v: View, o: nat, p: nat)
    requires Chain(v, o) && IsStart(v, o, p)
    ensures Good(v, p) && v[p].name in Entries(v, o)
    decreases BLOCK - o
  {
    if o != p {
      StartHasEntry(v, Next(v, o), p);
    }
  }

  /** `at` is the record named `n`, and `p` the record just before it (`prev` when `at` comes first). */
  predicate HitOk(v: View, o: nat, prev: nat, n: Name, at: nat, p: nat)
    requires Chain(v, o) && n in Entries(v, o)
  {
    && IsStart(v, o, at) && at < BLOCK && v[at].Rec? && v[at].name == n && v[at].inode == Entries(v, o)[n]
    && if at == o then p == prev else IsStart(v, o, p) && Good(v, p) && Next(v, p) == at
  }

  /** Searching a chain is looking the name up in the map it stands for. */
  lemma {:induction false} FindIsLookup(v: View, o: nat, prev: nat, n: Name)
    requires Chain(v, o)
    ensures Find(v, o, prev, n).Hit? <==> n in Entries(v, o)
    ensures Find(v, o, prev, n).Hit? ==> HitOk(v, o, prev, n, Find(v, o, prev, n).at, Find(v, o, prev, n).prev)
    decreases BLOCK - o
  {
    if o < BLOCK && v[o].name != n {
      FindIsLookup(v, Next(v, o), o, n);
      var h := Find(v, o, prev, n);
      if h.Hit? {
        StartInChain(v, Next(v, o), h.at);
      }
    }
  }

  // ----- the edits, on records -----

  /** A chain only depends on the records from its start on. */
  lemma {:induction false} ChainFrame(v: View, w: View, o: nat)
    requires Chain(v, o) && forall k :: o <= k < BLOCK && Good(v, k) ==> w[k] == v[k]
    ensures Chain(w, o) && Entries(w, o) == Entries(v, o) && Distinct(w, o) == Distinct(v, o)
    decreases BLOCK - o
  {
    if o < BLOCK {
      ChainFrame(v, w, Next(v, o));
    }
  }

  /** `w` is `v` with record `p` split at `t`: the first part keeps its name, the second is `n`, numbered `ino`. */
  ghost predicate Split(v: View, w: View, p: nat, t: nat, ino: u32, n: Name)
    requires Good(v, p)
  {
    && (forall k :: 0 <= k && Good(v, k) && (Next(v, k) <= p || Next(v, p) <= k) ==> w[k] == v[k])
    && Good(w, p) && Next(w, p) == t && w[p].inode == v[p].inode && w[p].name == v[p].name
    && Good(w, t) && Next(w, t) == Next(v, p) && w[t].inode == ino && w[t].name == n
  }

  /** `w` has the records of `v` that end at or before `from` or start at or after `to`. */
  ghost predicate SameOutside(v: View, w: View, from: nat, to: nat) {
    forall k :: 0 <= k && Good(v, k) && (Next(v, k) <= from || to <= k) ==> w[k] == v[k]
  }

  lemma SplitAt(v: View, w: View, p: nat, t: nat, ino: u32, n: Name)
    requires Good(v, p) && t % 4 == p % 4 && ValidName(n) && ino != 0 && SameOutside(v, w, p, Next(v, p))
    requires p + 8 + |v[p].name| <= t && t + 8 + |n| <= Next(v, p)
    requires w[p] == v[p].(len := t - p) && w[t] == Rec(ino, Next(v, p) - t, n)
    ensures Split(v, w, p, t, ino, n)
  {
  }

  lemma MergeAt(v: View, w: View, q: nat, t: nat)
    requires Good(v, q) && Good(v, t) && t == Next(v, q) && SameOutside(v, w, q, Next(v, t))
    requires w[q] == v[q].(len := v[q].len + v[t].len)
    ensures Merged(v, w, q, t)
  {
  }

  lemma SplitHere(v: View, w: View, p: nat, t: nat, ino: u32, n: Name)
    requires Chain(v, p) && p < BLOCK && Split(v, w, p, t, ino, n)
    requires Distinct(v, p) && n !in Entries(v, p)
    ensures Chain(w, p) && Distinct(w, p) && Entries(w, p) == Entries(v, p)[n := ino]
  {
    ChainFrame(v, w, Next(v, p));
    assert Chain(w, t) && Entries(w, t) == Entries(v, Next(v, p))[n := ino];
  }

  /** Splitting a record adds exactly the one name to the map. */
  lemma {:induction false} SplitRefines(v: View, w: View, o: nat, p: nat, t: nat, ino: u32, n: Name)
    requires Chain(v, o) && IsStart(v, o, p) && Good(v, p) && Split(v, w, p, t, ino, n)
    requires Distinct(v, o) && n !in Entries(v, o)
    ensures Chain(w, o) && Distinct(w, o) && Entries(w, o) == Entries(v, o)[n := ino]
    decreases BLOCK - o
  {
    StartInChain(v, o, p);
    if o == p {
      SplitHere(v, w, p, t, ino, n);
    } else {
      SplitRefines(v, w, Next(v, o), p, t, ino, n);
    }
  }

  /** `w` is `v` with record `t` swallowed by its predecessor `q`. */
  ghost predicate Merged(v: View, w: View, q: nat, t: nat)
    requires Good(v, q) && Good(v, t)
  {
    && (forall k :: 0 <= k && Good(v, k) && (Next(v, k) <= q || Next(v, t) <= k) ==> w[k] == v[k])
    && Good(w, q) && Next(w, q) == Next(v, t) && w[q].inode == v[q].inode && w[q].name == v[q].name
  }

  lemma MergedHere(v: View, w: View, q: nat, t: nat)
    requires Chain(v, q) && Distinct(v, q) && Good(v, q) && Good(v, t) && t == Next(v, q) && Merged(v, w, q, t)
    ensures Chain(w, q) && Distinct(w, q) && Entries(w, q) == Entries(v, q) - {v[t].name}
  {
    var next := Next(v, t);
    ChainFrame(v, w, next);
    assert Entries(w, q) == Entries(v, next)[v[q].name := v[q].inode];
    assert Entries(v, q) == Entries(v, next)[v[t].name := v[t].inode][v[q].name := v[q].inode];
  }

  /** Swallowing a record removes exactly its name from the map. */
  lemma {:induction false} MergedRefines(v: View, w: View, o: nat, q: nat, t: nat)
    requires Chain(v, o) && IsStart(v, o, q) && Good(v, q) && Good(v, t)
    requires Distinct(v, o) && t == Next(v, q) && Merged(v, w, q, t)
    ensures Chain(w, o) && Distinct(w, o) && Entries(w, o) == Entries(v, o) - {v[t].name}
    decreases BLOCK - o
  {
    StartInChain(v, o, q);
    if o == q {
      MergedHere(v, w, q, t);
    } else {
      var o' := Next(v, o);
      MergedRefines(v, w, o', q, t);
      NextStart(v, o', q);
      StartHasEntry(v, o', t);
    }
  }

  /** A view that agrees up to record `p`, keeps a good record there and then meets a bad one is no chain. */
  lemma {:induction false} BrokenChain(v: View, w: View, o: nat, p: nat)
    requires Chain(v, o) && IsStart(v, o, p)
    requires forall k :: 0 <= k && Good(v, k) && Next(v, k) <= p ==> w[k] == v[k]
    requires Good(w, p) ==> Next(w, p) < BLOCK && !Good(w, Next(w, p))
    ensures !Chain(w, o)
    decreases BLOCK - o
  {
    StartInChain(v, o, p);
    if o != p {
      BrokenChain(v, w, Next(v, o), p);
    }
  }

  lemma {:induction false} SplitStart(v: View, w: View, o: nat, p: nat, t: nat, ino: u32, n: Name)
    requires Chain(v, o) && IsStart(v, o, p) && Good(v, p) && Split(v, w, p, t, ino, n) && Chain(w, o)
    ensures IsStart(w, o, t)
    decreases BLOCK - o
  {
    StartInChain(v, o, p);
    if o != p {
      SplitStart(v, w, Next(v, o), p, t, ino, n);
    }
  }

  lemma {:induction false} NamesAreUnique(v: View, o: nat, p: nat, q: nat)
    requires Chain(v, o) && Distinct(v, o) && IsStart(v, o, p) && IsStart(v, o, q)
    requires Good(v, p) && Good(v, q) && v[p].name == v[q].name
    ensures p == q
    decreases BLOCK - o
  {
    if o != p && o != q {
      NamesAreUnique(v, Next(v, o), p, q);
    } else if o != p {
      StartHasEntry(v, Next(v, o), p);
    } else if o != q {
      StartHasEntry(v, Next(v, o), q);
    }
  }
}
