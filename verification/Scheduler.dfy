/** The round-robin part of `schedule`, and how long a runnable process can wait for its turn. */
module Scheduler {
  const MAX_PROCESSES := 16

  /** What the scheduler reads and writes of a `process_t`; `table` is the address of the page table. */
  datatype Task = Task(active: bool, waiting: nat, esp: nat, table: nat)

  predicate Runnable(t: Task) {
    t.active && t.waiting == 0
  }

  type Tasks = ts: seq<Task> | |ts| == MAX_PROCESSES witness seq(MAX_PROCESSES, _ => Task(false, 0, 0, 0))

  /** Ticks of the cursor from slot `c` to slot `n`, 1 to 16. */
  function Ahead(c: nat, n: nat): nat
    requires c < MAX_PROCESSES && n < MAX_PROCESSES
  {
    if n > c then n - c else n + MAX_PROCESSES - c
  }

  /** `n` is the first runnable slot after `c` in cyclic order, `c` itself coming last. */
  ghost predicate IsFirst(ts: Tasks, c: nat, n: nat) {
    && c < MAX_PROCESSES && n < MAX_PROCESSES && Runnable(ts[n])
    && forall m :: 0 <= m < MAX_PROCESSES && Runnable(ts[m]) ==> Ahead(c, n) <= Ahead(c, m)
  }

  /** Which slot that is does not leave a choice. */
  lemma FirstIsUnique(ts: Tasks, c: nat, n: nat, m: nat)
    requires IsFirst(ts, c, n) && IsFirst(ts, c, m)
    ensures n == m
  {
  }

  lemma AheadIs(c: nat, n: nat)
    requires c < MAX_PROCESSES && n < MAX_PROCESSES
    ensures Ahead(c, n) == (n - c - 1) % 16 + 1
  {
  }

  lemma NobodyBetween(ts: Tasks, c: nat, n: nat)
    requires IsFirst(ts, c, n)
    ensures forall m :: 0 <= m < 16 && (m - c - 1) % 16 < (n - c - 1) % 16 ==> !ts[m].active || ts[m].waiting > 0
  {
    forall m | 0 <= m < 16 && (m - c - 1) % 16 < (n - c - 1) % 16
      ensures !ts[m].active || ts[m].waiting > 0
    {
      AheadIs(c, m);
      AheadIs(c, n);
    }
  }

  /** `table | 0x07` */
  function Mounted(table: nat): nat {
    table - table % 8 + 7
  }

  class Cpu {
    var tasks: Tasks
    var current: nat
    var esp: nat
    /** Entry 256 of the page directory: the window of the apps. */
    var window: nat

    constructor (tasks: Tasks)
      ensures this.tasks == tasks && current == 0 && window == 0
    {
      this.tasks, current, esp, window := tasks, 0, 0, 0;
    }

    /** The search ends because slot 0, the kernel, stays runnable. */
    method Schedule()
      requires current < 16 && tasks[0].active && tasks[0].waiting == 0
      modifies this
      ensures tasks == old(tasks)[old(current) := old(tasks)[old(current)].(esp := old(esp))]
      ensures IsFirst(old(tasks), old(current), current)
      ensures current < 16 && tasks[current].active && tasks[current].waiting == 0
      ensures forall m :: 0 <= m < 16 && (m - old(current) - 1) % 16 < (current - old(current) - 1) % 16 ==>
        !tasks[m].active || tasks[m].waiting > 0
      ensures esp == tasks[current].esp
      ensures window == if current > 0 then tasks[current].table / 8 * 8 + 7 else 0
    {
      tasks := tasks[current := tasks[current].(esp := esp)];
      ghost var c, steps := current, 1;
      current := current + 1;
      if current >= MAX_PROCESSES {
        current := 0;
      }
      while !tasks[current].active || tasks[current].waiting > 0
        invariant current < MAX_PROCESSES && 1 <= steps && Ahead(c, current) == steps
        invariant tasks == old(tasks)[c := old(tasks)[c].(esp := old(esp))]
        invariant forall m :: 0 <= m < MAX_PROCESSES && Ahead(c, m) < steps ==> !Runnable(tasks[m])
        decreases MAX_PROCESSES - steps
      {
        assert Ahead(c, 0) >= steps && current != 0;
        forall m | 0 <= m < MAX_PROCESSES && Ahead(c, m) < steps + 1
          ensures !Runnable(tasks[m])
        {
          assert Ahead(c, m) == steps ==> m == current;
        }
        current := current + 1;
        if current >= MAX_PROCESSES {
          current := 0;
        }
        steps := steps + 1;
      }
      forall m | 0 <= m < MAX_PROCESSES
        ensures Runnable(old(tasks)[m]) <==> Runnable(tasks[m])
      {
      }
      NobodyBetween(tasks, c, current);
      esp := tasks[current].esp;
      window := if current > 0 then Mounted(tasks[current].table) else 0;
    }
  }

  // ----- runs of the timer -----

  /** The process table before each tick and the running slot: the table may change arbitrarily between ticks. */
  ghost predicate Ticks(ts: seq<Tasks>, cs: seq<nat>) {
    && |cs| == |ts| + 1 && cs[0] < MAX_PROCESSES
    && forall t :: 0 <= t < |ts| ==> IsFirst(ts[t], cs[t], cs[t + 1])
  }

  lemma {:induction false} TurnWithin(ts: seq<Tasks>, cs: seq<nat>, p: nat, t: nat, d: nat)
    requires Ticks(ts, cs) && p < MAX_PROCESSES && t <= t + d <= |ts| && cs[t] < MAX_PROCESSES && d == Ahead(cs[t], p)
    requires forall j :: t <= j < t + d ==> Runnable(ts[j][p])
    ensures exists j :: t < j <= t + d && cs[j] == p
    decreases d
  {
    assert Runnable(ts[t][p]) && IsFirst(ts[t], cs[t], cs[t + 1]);
    if cs[t + 1] != p {
      assert Ahead(cs[t + 1], p) == d - Ahead(cs[t], cs[t + 1]);
      TurnWithin(ts, cs, p, t + 1, Ahead(cs[t + 1], p));
    }
  }

  /** A process that stays runnable gets the processor within 16 ticks, whatever the others do. */
  lemma BoundedWaiting(ts: seq<Tasks>, cs: seq<nat>, p: nat, t: nat)
    requires Ticks(ts, cs) && p < MAX_PROCESSES && t + MAX_PROCESSES <= |ts|
    requires forall j :: t <= j < t + MAX_PROCESSES ==> Runnable(ts[j][p])
    ensures exists j :: t < j <= t + MAX_PROCESSES && cs[j] == p
  {
    SlotInRange(ts, cs, t);
    TurnWithin(ts, cs, p, t, Ahead(cs[t], p));
  }

  lemma SlotInRange(ts: seq<Tasks>, cs: seq<nat>, t: nat)
    requires Ticks(ts, cs) && t <= |ts|
    ensures cs[t] < MAX_PROCESSES
  {
    if t > 0 {
      assert IsFirst(ts[t - 1], cs[t - 1], cs[t]);
    }
  }

  /** The bound is met with equality when everybody is runnable: then the slots simply take turns. */
  lemma {:induction false} FullTable(ts: seq<Tasks>, cs: seq<nat>, t: nat, k: nat)
    requires Ticks(ts, cs) && t + k <= |ts| && k <= MAX_PROCESSES && cs[t] < MAX_PROCESSES
    requires forall j, p :: t <= j < t + k && 0 <= p < MAX_PROCESSES ==> Runnable(ts[j][p])
    ensures cs[t + k] == (cs[t] + k) % MAX_PROCESSES
  {
    if k > 0 {
      FullTable(ts, cs, t, k - 1);
      var c := cs[t + k - 1];
      assert IsFirst(ts[t + k - 1], c, cs[t + k]);
      var n := if c + 1 == MAX_PROCESSES then 0 else c + 1;
      assert Runnable(ts[t + k - 1][n]) && Ahead(c, n) == 1;
    }
  }
}
