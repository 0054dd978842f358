/** Lists of jumps that are not resolved yet, threaded through the code bytes themselves. */
module JumpList {
  import opened Bytes

  const WRAP := 0x1_0000_0000

  type Code = seq<byte>

  /** Where a link or a displacement of four bytes can stand; 0 ends a list. */
  predicate Slot(c: Code, s: nat) {
    0 < s && s + 4 <= |c|
  }

  /** `t` heads the list of `slots`: each holds the address of the next, the last one 0. */
  ghost predicate IsList(c: Code, t: nat, slots: seq<nat>)
    decreases |slots|
  {
    if slots == [] then t == 0
    else t == slots[0] && Slot(c, t) && IsList(c, Read32(c, t), slots[1..])
  }

  /** No two slots share a byte; their addresses need not be in any order. */
  ghost predicate Apart(slots: seq<nat>) {
    forall i, j :: 0 <= i < j < |slots| ==> slots[i] + 4 <= slots[j] || slots[j] + 4 <= slots[i]
  }

  predicate Covers(s: nat, k: nat) {
    s <= k < s + 4
  }

  /** Byte `k` belongs to no slot. */
  ghost predicate Outside(slots: seq<nat>, k: nat) {
    forall i :: 0 <= i < |slots| ==> !Covers(slots[i], k)
  }

  /** The displacement that makes the jump with slot `s` go to `a`. */
  function Rel(a: nat, s: nat): u32 {
    (a - s - 4) % WRAP
  }

  /** Where the jump with slot `s` goes. */
  function Landing(c: Code, s: nat): nat
    requires s + 4 <= |c|
  {
    (s + 4 + Read32(c, s)) % WRAP
  }

  lemma RelLands(a: nat, s: nat)
    ensures (s + 4 + Rel(a, s)) % WRAP == a % WRAP
  {
  }

  /** All jumps of the list go to `a`, and no other byte changed. */
  ghost predicate Bound(c: Code, c': Code, slots: seq<nat>, a: nat) {
    && |c'| == |c|
    && (forall i :: 0 <= i < |slots| ==> slots[i] + 4 <= |c'| && Read32(c', slots[i]) == Rel(a, slots[i]))
    && forall k :: 0 <= k < |c| && Outside(slots, k) ==> c'[k] == c[k]
  }

  /** A list only depends on the bytes of its slots. */
  lemma {:induction false} ListFrame(c: Code, c': Code, t: nat, slots: seq<nat>)
    requires IsList(c, t, slots) && |c| <= |c'|
    requires forall i, k :: 0 <= i < |slots| && 0 <= k < |c| && Covers(slots[i], k) ==> c'[k] == c[k]
    ensures IsList(c', t, slots)
    decreases |slots|
  {
    if slots != [] {
      assert forall k :: t <= k < t + 4 ==> Covers(slots[0], k);
      assert c'[t] == c[t] && c'[t + 1] == c[t + 1] && c'[t + 2] == c[t + 2] && c'[t + 3] == c[t + 3];
      assert forall i :: 0 <= i < |slots| - 1 ==> slots[1..][i] == slots[i + 1];
      ListFrame(c, c', Read32(c, t), slots[1..]);
    }
  }

  /** The code and the head fix the list. */
  lemma {:induction false} ListUnique(c: Code, t: nat, a: seq<nat>, b: seq<nat>)
    requires IsList(c, t, a) && IsList(c, t, b)
    ensures a == b
    decreases |a|
  {
    if a != [] && b != [] {
      ListUnique(c, Read32(c, t), a[1..], b[1..]);
      assert a == [a[0]] + a[1..] && b == [b[0]] + b[1..];
    }
  }

  lemma {:induction false} ListSlots(c: Code, t: nat, slots: seq<nat>)
    requires IsList(c, t, slots)
    ensures forall i :: 0 <= i < |slots| ==> Slot(c, slots[i])
    ensures t == 0 <==> slots == []
    ensures slots != [] ==> t == slots[0]
    decreases |slots|
  {
    if slots != [] {
      ListSlots(c, Read32(c, t), slots[1..]);
      assert forall i :: 0 < i < |slots| ==> slots[i] == slots[1..][i - 1];
    }
  }

  lemma ApartTail(slots: seq<nat>)
    requires Apart(slots) && slots != []
    ensures Apart(slots[1..]) && forall i :: 0 <= i < |slots| - 1 ==> slots[1..][i] == slots[i + 1]
  {
  }

  /** A fresh slot behind everything extends any list. */
  lemma Grow(c: Code, c': Code, t: u32, slots: seq<nat>, s: nat)
    requires IsList(c, t, slots) && Apart(slots) && 0 < s && |c| <= s && |c'| == s + 4 && c'[..|c|] == c
    requires c'[s..] == Le32(t)
    ensures IsList(c', s, [s] + slots) && Apart([s] + slots)
  {
    hide Le32;
    ListSlots(c, t, slots);
    forall k | 0 <= k < |c|
      ensures c'[k] == c[k]
    {
      assert c'[..|c|][k] == c'[k];
    }
    ListFrame(c, c', t, slots);
    assert c'[s..s + 4] == c'[s..];
    Le32RoundTrip(c', s, t);
    assert ([s] + slots)[1..] == slots;
  }

  // ----- binding a list -----

  /** One more slot bound. */
  lemma BindOne(c: Code, c': Code, done: seq<nat>, s: nat, a: nat)
    requires Bound(c, c', done, a) && Slot(c, s) && forall i :: 0 <= i < |done| ==> done[i] + 4 <= s || s + 4 <= done[i]
    ensures Bound(c, Patch(c', s, Le32(Rel(a, s))), done + [s], a)
  {
    hide Le32, Rel;
    var c'' := Patch(c', s, Le32(Rel(a, s)));
    assert c''[s..s + 4] == Le32(Rel(a, s));
    Le32RoundTrip(c'', s, Rel(a, s));
    forall i | 0 <= i < |done|
      ensures Read32(c'', done[i]) == Rel(a, done[i])
    {
      Read32Frame(c', c'', done[i]);
    }
    forall k | 0 <= k < |c| && Outside(done + [s], k)
      ensures c''[k] == c[k]
    {
      assert (done + [s])[|done|] == s;
      assert forall i :: 0 <= i < |done| ==> (done + [s])[i] == done[i];
      assert Outside(done, k);
    }
  }

  /** `gsym_addr`: walks the list and makes every jump in it land on `a`. */
  method GsymAddr(code: Code, t: nat, a: nat, ghost slots: seq<nat>) returns (c: Code)
    requires IsList(code, t, slots) && Apart(slots)
    ensures Bound(code, c, slots, a)
  {
    hide Rel, Le32, Bound;
    var t: nat := t;
    c := code;
    ghost var k := 0;
    assert slots[..0] == [] && slots[0..] == slots;
    BoundNone(code, a);
    ListSlots(code, t, slots);
    while t != 0
      invariant k <= |slots| && Bound(code, c, slots[..k], a) && IsList(c, t, slots[k..])
      decreases |slots| - k
    {
      var n := Read32(c, t);
      BoundLength(code, c, slots[..k], a);
      BindOne(code, c, slots[..k], t, a);
      assert slots[k..][1..] == slots[k + 1..] && slots[..k] + [t] == slots[..k + 1];
      ListFrame(c, Patch(c, t, Le32(Rel(a, t))), n, slots[k + 1..]);
      c := Patch(c, t, Le32(Rel(a, t)));
      t := n;
      k := k + 1;
    }
    ListSlots(c, t, slots[k..]);
    assert slots[..k] == slots;
  }

  lemma BoundNone(c: Code, a: nat)
    ensures Bound(c, c, [], a)
  {
  }

  lemma BoundLength(c: Code, c': Code, slots: seq<nat>, a: nat)
    requires Bound(c, c', slots, a)
    ensures |c'| == |c|
  {
  }

  /** What binding means: every jump of the list lands on `a`. */
  lemma BoundLands(c: Code, c': Code, slots: seq<nat>, a: nat, i: nat)
    requires Bound(c, c', slots, a) && i < |slots|
    ensures slots[i] + 4 <= |c'| && Landing(c', slots[i]) == a % WRAP
  {
    RelLands(a, slots[i]);
  }

  // ----- merging two lists -----

  lemma {:induction false} Relinked(c: Code, t: u32, a: seq<nat>, b: seq<nat>, n: nat)
    requires a != [] && IsList(c, n, a) && IsList(c, t, b) && Apart(a + b)
    ensures Slot(c, a[|a| - 1])
    ensures IsList(Patch(c, a[|a| - 1], Le32(t)), n, a + b)
    decreases |a|
  {
    hide Le32;
    ListSlots(c, n, a);
    var last := a[|a| - 1];
    var c' := Patch(c, last, Le32(t));
    if |a| == 1 {
      assert c'[last..last + 4] == Le32(t);
      Le32RoundTrip(c', last, t);
      assert (a + b)[1..] == b && (a + b)[0] == last;
      forall i, k | 0 <= i < |b| && 0 <= k < |c| && Covers(b[i], k)
        ensures c'[k] == c[k]
      {
        assert (a + b)[i + 1] == b[i];
      }
      ListFrame(c, c', t, b);
    } else {
      assert (a + b)[1..] == a[1..] + b;
      ApartTail(a + b);
      Relinked(c, t, a[1..], b, Read32(c, n));
      assert (a + b)[0] == n && (a + b)[|a| - 1] == last;
      Read32Frame(c, c', n);
    }
  }

  /** The merge in `gtst`: walk to the last link of a non-empty list and hang the other list onto it. */
  method Splice(code: Code, n: nat, t: u32, ghost a: seq<nat>, ghost b: seq<nat>) returns (c: Code)
    requires n != 0 && IsList(code, n, a) && IsList(code, t, b) && Apart(a + b)
    ensures |c| == |code| && IsList(c, n, a + b)
    ensures a != [] && forall k :: 0 <= k < |code| && !Covers(a[|a| - 1], k) ==> c[k] == code[k]
  {
    hide Le32, Read32;
    ListSlots(code, n, a);
    var m: nat := n;
    ghost var k := 0;
    assert a[0..] == a;
    while Read32(code, m) != 0
      invariant k < |a| && m == a[k] && Slot(code, m) && IsList(code, m, a[k..])
      decreases |a| - k
    {
      assert a[k..][1..] == a[k + 1..];
      ListSlots(code, Read32(code, m), a[k + 1..]);
      m := Read32(code, m);
      k := k + 1;
    }
    assert a[k..][1..] == a[k + 1..];
    ListSlots(code, Read32(code, m), a[k + 1..]);
    Relinked(code, t, a, b, n);
    return Patch(code, m, Le32(t));
  }
}
