/** Absolute paths: how the walk cuts them into names, and how write, mkdir and delete split off the last one. */
module Paths {
  import opened Bytes
  import opened RecordChain
  import opened DirBlock
  import opened VolumeState

  const MAX_PATH := 255

  /** A C string: no NUL inside. */
  predicate CString(p: seq<byte>) {
    forall k :: 0 <= k < |p| ==> p[k] != 0
  }

  // ----- cutting a path into names -----

  /** End of the name that starts at `i`: the next slash, the end of the path, or 255 characters later. */
  function EndOf(p: seq<byte>, i: nat, e: nat): (r: nat)
    requires i <= e <= |p| && e - i <= MAX_PATH
    ensures e <= r <= |p| && r - i <= MAX_PATH
    ensures r == |p| || p[r] == SLASH || r - i == MAX_PATH
    ensures forall k :: e <= k < r ==> p[k] != SLASH
    decreases |p| - e
  {
    if e == |p| || p[e] == SLASH || e - i == MAX_PATH then e else EndOf(p, i, e + 1)
  }

  /** The names the walk looks up from position `i` on, in order. */
  function Components(p: seq<byte>, i: nat): seq<Name>
    decreases |p| - i
  {
    if i >= |p| then []
    else if p[i] == SLASH then Components(p, i + 1)
    else
      var e := EndOf(p, i, i + 1);
      [p[i..e]] + Components(p, e)
  }

  /** The text between slashes, empty pieces included. */
  function Pieces(s: seq<byte>): (r: seq<Name>)
    ensures |r| >= 1
  {
    if s == [] then [[]]
    else if s[0] == SLASH then [[]] + Pieces(s[1..])
    else
      var r := Pieces(s[1..]);
      [[s[0]] + r[0]] + r[1..]
  }

  function NonEmpty(r: seq<Name>): seq<Name> {
    if r == [] then [] else (if r[0] == [] then [] else [r[0]]) + NonEmpty(r[1..])
  }

  lemma {:induction false} EndOfIsSlash(p: seq<byte>, i: nat, e: nat, k: nat)
    requires i <= e <= k <= |p| && k - i <= MAX_PATH && (k == |p| || p[k] == SLASH || k - i == MAX_PATH)
    requires forall j :: e <= j < k ==> p[j] != SLASH
    ensures EndOf(p, i, e) == k
    decreases k - e
  {
    if e < k {
      EndOfIsSlash(p, i, e + 1, k);
    }
  }

  /** The first piece of a text is what stands before its first slash. */
  lemma {:induction false} FirstPiece(s: seq<byte>, k: nat)
    requires k <= |s| && (k == |s| || s[k] == SLASH) && forall j :: 0 <= j < k ==> s[j] != SLASH
    ensures Pieces(s)[0] == s[..k]
    ensures Pieces(s)[1..] == if k == |s| then [] else Pieces(s[k + 1..])
  {
    if s != [] {
      if k == 0 {
        assert s[0 + 1..] == s[1..];
      } else {
        FirstPiece(s[1..], k - 1);
        assert s[..k] == [s[0]] + s[1..][..k - 1];
        if k < |s| {
          assert s[1..][k - 1 + 1..] == s[k + 1..];
        }
      }
    }
  }

  lemma FirstSlash(s: seq<byte>) returns (k: nat)
    ensures k <= |s| && (k == |s| || s[k] == SLASH) && forall j :: 0 <= j < k ==> s[j] != SLASH
  {
    k := 0;
    while k < |s| && s[k] != SLASH
      invariant k <= |s| && forall j :: 0 <= j < k ==> s[j] != SLASH
    {
      k := k + 1;
    }
  }

  ghost predicate AllShort(r: seq<Name>) {
    forall k :: 0 <= k < |r| ==> |r[k]| <= 255
  }

  lemma LetterComponent(p: seq<byte>, i: nat, k: nat, piece: Name)
    requires i < |p| && p[i] != SLASH && i + k <= |p| && k <= MAX_PATH && (i + k == |p| || p[i + k] == SLASH)
    requires forall j :: i <= j < i + k ==> p[j] != SLASH
    requires piece == p[i..i + k]
    ensures piece != [] && Components(p, i) == [piece] + if i + k == |p| then [] else Components(p, i + k + 1)
  {
    hide Pieces, NonEmpty;
    EndOfIsSlash(p, i, i + 1, i + k);
    assert Components(p, i) == [piece] + Components(p, i + k);
    ComponentsFromSlash(p, i + k);
  }

  lemma ShortRest(q: seq<Name>)
    requires AllShort(q) && q != []
    ensures AllShort(q[1..]) && |q[0]| <= MAX_PATH && NonEmpty([]) == []
    ensures NonEmpty(q) == (if q[0] == [] then [] else [q[0]]) + NonEmpty(q[1..])
  {
  }

  lemma NoPieces(s: seq<byte>)
    requires s == []
    ensures NonEmpty(Pieces(s)) == []
  {
  }

  lemma SlashPiece(s: seq<byte>)
    requires s != [] && s[0] == SLASH
    ensures Pieces(s) == [[]] + Pieces(s[1..])
  {
  }

  lemma {:induction false} ComponentsArePieces(p: seq<byte>, i: nat)
    requires i <= |p| && AllShort(Pieces(p[i..]))
    ensures Components(p, i) == NonEmpty(Pieces(p[i..]))
    decreases |p| - i
  {
    hide Pieces, NonEmpty, Components, AllShort;
    var s := p[i..];
    var q := Pieces(s);
    if i == |p| {
      NoPieces(s);
      ComponentsFromSlash(p, i);
    } else if p[i] == SLASH {
      assert s[1..] == p[i + 1..];
      SlashPiece(s);
      ShortRest(q);
      ComponentsFromSlash(p, i);
      ComponentsArePieces(p, i + 1);
    } else {
      var k := FirstSlash(s);
      FirstPiece(s, k);
      ShortRest(q);
      assert forall j :: i <= j < i + k ==> p[j] == s[j - i];
      assert p[i..i + k] == s[..k];
      LetterComponent(p, i, k, q[0]);
      if i + k < |p| {
        assert s[k + 1..] == p[i + k + 1..];
        ComponentsArePieces(p, i + k + 1);
      }
    }
  }

  lemma ComponentsFromSlash(p: seq<byte>, i: nat)
    requires i <= |p| && (i == |p| || p[i] == SLASH)
    ensures Components(p, i) == if i == |p| then [] else Components(p, i + 1)
  {
  }

  lemma {:induction false} ComponentsShort(p: seq<byte>, i: nat)
    ensures AllShort(Components(p, i))
    decreases |p| - i
  {
    if i < |p| {
      if p[i] == SLASH {
        ComponentsShort(p, i + 1);
      } else {
        ComponentsShort(p, EndOf(p, i, i + 1));
      }
    }
  }

  lemma {:induction false} NonEmptyHas(r: seq<Name>, k: nat)
    requires k < |r| && r[k] != []
    ensures r[k] in NonEmpty(r)
  {
    if k > 0 {
      NonEmptyHas(r[1..], k - 1);
    }
  }

  /** The walk sees the non-empty pieces between the slashes exactly when none of them is longer than 255 characters. */
  lemma ComponentsIff(p: seq<byte>, i: nat)
    requires i <= |p|
    ensures Components(p, i) == NonEmpty(Pieces(p[i..])) <==> AllShort(Pieces(p[i..]))
  {
    if AllShort(Pieces(p[i..])) {
      ComponentsArePieces(p, i);
    } else {
      var r := Pieces(p[i..]);
      var k :| 0 <= k < |r| && |r[k]| > MAX_PATH;
      NonEmptyHas(r, k);
      ComponentsShort(p, i);
    }
  }

  // ----- looking names up one after the other -----

  /** One step of the walk: from directory `cur` to what it names `n`, 0 when there is no such thing. */
  function Step(v: Vol, cur: nat, n: Name): nat {
    if IsDir(v, cur) then Lookup(DirBlk(v, cur), n) else 0
  }

  function Walk(v: Vol, cur: nat, names: seq<Name>): nat
    decreases names
  {
    if names == [] then cur
    else
      var next := Step(v, cur, names[0]);
      if next == 0 then 0 else Walk(v, next, names[1..])
  }

  /** `ext2_resolve_path`: the fold of `Step` over the names of an absolute path, from the root. */
  function Resolve(v: Vol, path: seq<byte>): nat {
    if path == [] || path[0] != SLASH then 0 else Walk(v, ROOT, Components(path, 1))
  }

  lemma {:induction false} WalkAppend(v: Vol, cur: nat, a: seq<Name>, n: Name)
    requires cur != 0
    ensures Walk(v, cur, a + [n]) == var m := Walk(v, cur, a); if m == 0 then 0 else Step(v, m, n)
    decreases a
  {
    if a == [] {
      assert (a + [n])[1..] == [];
    } else {
      var next := Step(v, cur, a[0]);
      assert (a + [n])[1..] == a[1..] + [n];
      if next != 0 {
        WalkAppend(v, next, a[1..], n);
      }
    }
  }

  /** In a sound volume a step is a lookup in the map the directory stands for. */
  lemma StepIsMap(v: Vol, live: set<nat>, d: nat, n: Name)
    requires Sound(v, live) && d in live
    ensures Step(v, d, n) == if IsDir(v, d) && n in Ents(v, d) then Ents(v, d)[n] else 0
    ensures Step(v, d, n) != 0 ==> Step(v, d, n) in live
  {
    hide BlocksSound, TreeSound, Acyclic, Records;
    if IsDir(v, d) {
      assert DirWell(v, live, d);
      LookupIsMap(DirBlk(v, d), n);
    }
  }

  lemma {:induction false} WalkLive(v: Vol, live: set<nat>, cur: nat, names: seq<Name>)
    requires Sound(v, live) && cur in live
    ensures Walk(v, cur, names) == 0 || Walk(v, cur, names) in live
    decreases names
  {
    hide Sound, Step;
    if names != [] {
      StepIsMap(v, live, cur, names[0]);
      if Step(v, cur, names[0]) != 0 {
        WalkLive(v, live, Step(v, cur, names[0]), names[1..]);
      }
    }
  }

  /** A path only ever leads to live inodes. */
  lemma ResolveLive(v: Vol, live: set<nat>, path: seq<byte>)
    requires Sound(v, live)
    ensures Resolve(v, path) == 0 || Resolve(v, path) in live
  {
    hide BlocksSound, TreeSound, Acyclic, DirWell;
    WalkLive(v, live, ROOT, if path == [] then [] else Components(path, 1));
  }

  // ----- splitting off the last name -----

  datatype Split = NoSplit | Split(parent: seq<byte>, name: Name)

  /** The first 255 characters, which is all the split looks at. */
  function Clip(p: seq<byte>): seq<byte> {
    if |p| <= MAX_PATH then p else p[..MAX_PATH]
  }

  function SplitAt(q: seq<byte>, last: int): Split
    requires -1 <= last < |q|
  {
    if last == -1 || |q| == 1 || last + 1 == |q| then NoSplit
    else Split(if last == 0 then [SLASH] else q[..last], q[last + 1..])
  }

  predicate IsLastSlash(q: seq<byte>, last: int) {
    && -1 <= last < |q|
    && (last >= 0 ==> q[last] == SLASH)
    && forall k :: last < k < |q| ==> q[k] != SLASH
  }

  function LastSlash(q: seq<byte>): (r: int)
    ensures IsLastSlash(q, r)
  {
    if q == [] then -1
    else if q[|q| - 1] == SLASH then |q| - 1
    else
      var r := LastSlash(q[..|q| - 1]);
      assert forall k :: 0 <= k < |q| - 1 ==> q[k] == q[..|q| - 1][k];
      r
  }

  /** Parent path and last name of the first 255 characters of a path. */
  function SplitOf(path: seq<byte>): Split {
    SplitAt(Clip(path), LastSlash(Clip(path)))
  }

  /** The split at the head of write, mkdir, delete and rmdir. */
  method SplitPath(path: seq<byte>) returns (s: Split)
    ensures s == SplitOf(path)
  {
    var lastSlash, len := -1, 0;
    while len < |path| && len < MAX_PATH
      invariant 0 <= len <= |path| && len <= MAX_PATH
      invariant IsLastSlash(path[..len], lastSlash)
    {
      if path[len] == SLASH {
        lastSlash := len;
      }
      len := len + 1;
    }
    var q := path[..len];
    assert q == Clip(path);
    assert lastSlash == LastSlash(q);
    if lastSlash == -1 || len == 1 {
      return NoSplit;
    }
    var parent := if lastSlash == 0 then [SLASH] else q[..lastSlash];
    var name := q[lastSlash + 1..];
    if name == [] {
      return NoSplit;
    }
    s := Split(parent, name);
  }

  lemma {:induction false} ComponentsOfJoin(q: seq<byte>, n: Name, i: nat)
    requires i <= |q| && 1 <= |n| <= MAX_PATH && forall k :: 0 <= k < |n| ==> n[k] != SLASH
    ensures Components(q + [SLASH] + n, i) == Components(q, i) + [n]
    decreases |q| - i
  {
    var p := q + [SLASH] + n;
    if i == |q| {
      assert p[i] == SLASH && p[i + 1] == n[0];
      EndOfIsSlash(p, i + 1, i + 2, |p|);
      assert p[i + 1..|p|] == n;
      assert Components(p, |p|) == [];
      assert Components(p, i + 1) == [n];
    } else if q[i] == SLASH {
      assert p[i] == SLASH;
      ComponentsOfJoin(q, n, i + 1);
    } else {
      var e := EndOf(q, i, i + 1);
      assert forall k :: 0 <= k < |q| ==> p[k] == q[k];
      EndOfIsSlash(p, i, i + 1, e);
      assert p[i..e] == q[i..e];
      ComponentsOfJoin(q, n, e);
      assert Components(p, i) == [p[i..e]] + Components(p, e);
      assert Components(q, i) == [q[i..e]] + Components(q, e);
    }
  }

  /** Resolving a path is resolving its parent and then looking the last name up there. */
  lemma ResolveSplit(v: Vol, path: seq<byte>)
    requires |path| <= MAX_PATH && path != [] && path[0] == SLASH && SplitOf(path).Split?
    ensures var s := SplitOf(path);
      Resolve(v, path) == var m := Resolve(v, s.parent); if m == 0 then 0 else Step(v, m, s.name)
  {
    hide Step, Walk, LastSlash;
    var s, last := SplitOf(path), LastSlash(path);
    assert path == path[..last] + [SLASH] + s.name;
    if last == 0 {
      assert path[1..] == s.name;
      assert Components(path, 1) == [s.name] by {
        EndOfIsSlash(path, 1, 2, |path|);
        assert path[1..|path|] == s.name;
        assert Components(path, |path|) == [];
      }
      assert Components([SLASH], 1) == [];
      WalkAppend(v, ROOT, [], s.name);
      assert [] + [s.name] == [s.name];
    } else {
      ComponentsOfJoin(path[..last], s.name, 1);
      WalkAppend(v, ROOT, Components(path[..last], 1), s.name);
    }
  }

  /**
    The first 255 characters of a path split as the path does, and start at the root when its parent can be resolved.
   */
  lemma ClipSplits(v: Vol, path: seq<byte>)
    ensures SplitOf(Clip(path)) == SplitOf(path)
    ensures Clip(path) == path[..if |path| < 255 then |path| else 255]
    ensures SplitOf(path).Split? && Resolve(v, SplitOf(path).parent) != 0 ==> Clip(path) != [] && Clip(path)[0] == SLASH
  {
    hide LastSlash, Walk;
    var last := LastSlash(Clip(path));
    if SplitOf(path).Split? && Resolve(v, SplitOf(path).parent) != 0 && last > 0 {
      assert SplitOf(path).parent[0] == Clip(path)[0];
    }
  }

  lemma SplitNameValid(path: seq<byte>)
    requires CString(path) && SplitOf(path).Split?
    ensures ValidName(SplitOf(path).name)
  {
    hide LastSlash;
  }
}
