/**
  The `vfs_lock` protocol under arbitrary timer preemption. Two facts of the machine are parameters: `gate` says that
  the system call gate is an interrupt gate, which turns interrupts off on entry, and `retest` that a waiting call
  tests the lock again once it has turned them off.
 */
module DiskLock {
  import opened Scheduler

  /**
    Where a task is. For an app: in user code; in system call 4 or 10 before the test, between "sti" and "cli" of the
    waiting loop, past the test, or on the disk; or killed. For the kernel, task 0: outside `ext2_copy_file`,
    past its test of the lock, or on the disk. `off` says that interrupts are disabled.
   */
  datatype Place =
    | User | Entered(off: bool) | Waiting | Passed(off: bool) | OnDisk(off: bool) | Dead
    | Idle | Checked | Copying

  datatype State = State(current: nat, lock: bool, at: seq<Place>)

  datatype Act =
    | Tick(next: nat) | Call | Test | Resume | Lock | Unlock | OutOfMemory | Kill(victim: nat)
    | CopyTest | CopyFails | CopyLock | CopyUnlock

  predicate Masked(p: Place) {
    match p
    case Entered(off) => off
    case Passed(off) => off
    case OnDisk(off) => off
    case _ => false
  }

  /** The task is inside one of the three disk sections. */
  predicate Section(p: Place) {
    p.OnDisk? || p.Copying?
  }

  predicate WellShaped(s: State) {
    |s.at| == MAX_PROCESSES && s.current < MAX_PROCESSES
  }

  /** Which steps the running task, or the timer, can take. */
  predicate Enabled(s: State, a: Act)
    requires WellShaped(s)
  {
    var p := s.at[s.current];
    match a
    case Tick(next) => next < MAX_PROCESSES && !Masked(p) && !s.at[next].Dead?
    case Call => p.User?
    case Test => p.Entered?
    case Resume => p.Waiting?
    case Lock => p.Passed?
    case Unlock => p.OnDisk?
    case OutOfMemory => p.OnDisk?
    case Kill(victim) => s.current == 0 && 0 < victim < MAX_PROCESSES && (p.Idle? || p.Checked?)
    case CopyTest => p.Idle?
    case CopyFails => p.Checked?
    case CopyLock => p.Checked?
    case CopyUnlock => p.Copying?
  }

  function Move(s: State, p: Place): State
    requires WellShaped(s)
  {
    s.(at := s.at[s.current := p])
  }

  function Do(s: State, a: Act, gate: bool, retest: bool): State
    requires WellShaped(s) && Enabled(s, a)
  {
    match a
    case Tick(next) => s.(current := next)
    case Call => Move(s, Entered(gate))
    case Test => Move(s, if s.lock then Waiting else Passed(s.at[s.current].off))
    case Resume => Move(s, if retest then Entered(true) else Passed(true))
    case Lock => Move(s, OnDisk(s.at[s.current].off)).(lock := true)
    case Unlock => Move(s, User).(lock := false)
    case OutOfMemory => Move(s, Dead)
    case Kill(victim) => s.(at := s.at[victim := Dead])
    case CopyTest => Move(s, if s.lock then Idle else Checked)
    case CopyFails => Move(s, Idle)
    case CopyLock => Move(s, Copying).(lock := true)
    case CopyUnlock => Move(s, Idle).(lock := false)
  }

  function Start(): State {
    State(0, false, [Idle] + seq(MAX_PROCESSES - 1, _ => User))
  }

  /** `s'` is reached from `s` by the steps `acts`. */
  ghost predicate Runs(s: State, acts: seq<Act>, s': State, gate: bool, retest: bool)
    decreases |acts|
  {
    if acts == [] then s' == s
    else WellShaped(s) && Enabled(s, acts[0]) && Runs(Do(s, acts[0], gate, retest), acts[1..], s', gate, retest)
  }

  ghost predicate Exclusive(s: State) {
    forall i, j :: 0 <= i < |s.at| && 0 <= j < |s.at| && Section(s.at[i]) && Section(s.at[j]) ==> i == j
  }

  /** With an interrupt gate, a call past its entry is the running task; past the test nobody else has the disk. */
  ghost predicate Inv(s: State) {
    && WellShaped(s)
    && (s.at[0].Idle? || s.at[0].Checked? || s.at[0].Copying?)
    && (forall i :: 0 < i < MAX_PROCESSES ==> !s.at[i].Idle? && !s.at[i].Checked? && !s.at[i].Copying?)
    && (forall i :: 0 < i < MAX_PROCESSES && (s.at[i].Entered? || s.at[i].Passed? || s.at[i].OnDisk?) ==>
         Masked(s.at[i]) && i == s.current)
    && (forall i :: 0 < i < MAX_PROCESSES && s.at[i].Passed? ==> !s.lock)
    && (forall i :: 0 < i < MAX_PROCESSES && s.at[i].OnDisk? ==> s.lock && !s.at[0].Copying?)
    && (s.at[0].Copying? ==> s.lock)
  }

  lemma StepKeeps(s: State, a: Act)
    requires Inv(s) && Enabled(s, a)
    ensures Inv(Do(s, a, true, true))
  {
    hide Inv;
    if a.Tick? {
      TickKeeps(s, a);
    } else if a.Kill? {
      KillKeeps(s, a);
    } else if s.current == 0 {
      KernelKeeps(s, a);
    } else {
      CallKeeps(s, a);
    }
  }

  lemma TickKeeps(s: State, a: Act)
    requires Inv(s) && Enabled(s, a) && a.Tick?
    ensures Inv(Do(s, a, true, true))
  {
  }

  lemma KillKeeps(s: State, a: Act)
    requires Inv(s) && Enabled(s, a) && a.Kill?
    ensures Inv(Do(s, a, true, true))
  {
  }

  lemma KernelKeeps(s: State, a: Act)
    requires Inv(s) && Enabled(s, a) && !a.Tick? && !a.Kill? && s.current == 0
    ensures Inv(Do(s, a, true, true))
  {
  }

  lemma CallKeeps(s: State, a: Act)
    requires Inv(s) && Enabled(s, a) && !a.Tick? && !a.Kill? && s.current != 0
    ensures Inv(Do(s, a, true, true))
  {
  }

  lemma {:induction false} RunKeeps(s: State, acts: seq<Act>, s': State)
    requires Inv(s) && Runs(s, acts, s', true, true)
    ensures Inv(s')
    decreases |acts|
  {
    if acts != [] {
      StepKeeps(s, acts[0]);
      RunKeeps(Do(s, acts[0], true, true), acts[1..], s');
    }
  }

  lemma StartFacts()
    ensures WellShaped(Start()) && Inv(Start())
  {
  }

  /** Every reachable state has at most one task on the disk. */
  ghost predicate Safe(gate: bool, retest: bool) {
    forall acts: seq<Act>, s: State :: Runs(Start(), acts, s, gate, retest) ==> Exclusive(s)
  }

  /** A trap gate, first half: two calls pass the test one after the other. */
  lemma TwoPassed(retest: bool) returns (acts: seq<Act>, s: State)
    ensures |acts| == 6 && forall more: seq<Act>, s': State :: Runs(Start(), acts + more, s', false, retest) <==>
      Runs(s, more, s', false, retest)
    ensures WellShaped(s) && s.current == 2 && s.at[1] == Passed(false) && s.at[2] == Passed(false)
  {
    acts := [Tick(1), Call, Test, Tick(2), Call, Test];
    var s0 := Start();
    var s1 := Do(s0, Tick(1), false, retest);
    var s2 := Do(s1, Call, false, retest);
    var s3 := Do(s2, Test, false, retest);
    var s4 := Do(s3, Tick(2), false, retest);
    var s5 := Do(s4, Call, false, retest);
    s := Do(s5, Test, false, retest);
    forall more: seq<Act>, s': State
      ensures Runs(Start(), acts + more, s', false, retest) <==> Runs(s, more, s', false, retest)
    {
      assert (acts + more)[3..] == [Tick(2), Call, Test] + more && ([Tick(2), Call, Test] + more)[3..] == more;
      Steps(s0, acts + more, s1, s2, s3, false, retest);
      Steps(s3, [Tick(2), Call, Test] + more, s4, s5, s, false, retest);
    }
  }

  /** A trap gate: the timer strikes between test and lock. */
  lemma TrapGateBreaks(retest: bool) returns (acts: seq<Act>, s: State)
    ensures Runs(Start(), acts, s, false, retest) && !Exclusive(s)
  {
    hide Start;
    var first, s6 := TwoPassed(retest);
    var rest := [Lock, Tick(1), Lock];
    var s7 := Do(s6, Lock, false, retest);
    var s8 := Do(s7, Tick(1), false, retest);
    s := Do(s8, Lock, false, retest);
    Steps(s6, rest, s7, s8, s, false, retest);
    assert rest[3..] == [];
    Ends(s, false, retest);
    acts := first + rest;
    assert Section(s.at[1]) && Section(s.at[2]);
  }

  lemma Ends(s: State, gate: bool, retest: bool)
    ensures Runs(s, [], s, gate, retest)
  {
  }

  /** Three steps of a run at once. */
  lemma Steps(s: State, acts: seq<Act>, s1: State, s2: State, s3: State, gate: bool, retest: bool)
    requires |acts| >= 3 && WellShaped(s) && Enabled(s, acts[0]) && s1 == Do(s, acts[0], gate, retest)
    requires WellShaped(s1) && Enabled(s1, acts[1]) && s2 == Do(s1, acts[1], gate, retest)
    requires WellShaped(s2) && Enabled(s2, acts[2]) && s3 == Do(s2, acts[2], gate, retest)
    ensures forall s': State :: Runs(s, acts, s', gate, retest) <==> Runs(s3, acts[3..], s', gate, retest)
  {
    hide Do, Enabled;
    assert acts[1..][0] == acts[1] && acts[1..][1..] == acts[2..] && acts[2..][0] == acts[2] &&
      acts[2..][1..] == acts[3..];
    forall s': State
      ensures Runs(s, acts, s', gate, retest) <==> Runs(s3, acts[3..], s', gate, retest)
    {
      assert Runs(s, acts, s', gate, retest) <==> Runs(s1, acts[1..], s', gate, retest);
      assert Runs(s1, acts[1..], s', gate, retest) <==> Runs(s2, acts[2..], s', gate, retest);
      assert Runs(s2, acts[2..], s', gate, retest) <==> Runs(s3, acts[3..], s', gate, retest);
    }
  }

  /** The kernel is copying and app 1 runs. */
  lemma CopyUnderWay(gate: bool) returns (acts: seq<Act>, s: State)
    ensures |acts| == 3 && forall more: seq<Act>, s': State ::
      Runs(Start(), acts + more, s', gate, false) <==> Runs(s, more, s', gate, false)
    ensures WellShaped(s) && s.current == 1 && s.lock && s.at[0].Copying? && s.at[1].User?
  {
    hide Runs;
    acts := [CopyTest, CopyLock, Tick(1)];
    var s1 := Do(Start(), CopyTest, gate, false);
    var s2 := Do(s1, CopyLock, gate, false);
    s := Do(s2, Tick(1), gate, false);
    forall more: seq<Act>, s': State
      ensures Runs(Start(), acts + more, s', gate, false) <==> Runs(s, more, s', gate, false)
    {
      assert (acts + more)[3..] == more;
      Steps(Start(), acts + more, s1, s2, s, gate, false);
    }
  }

  /** A waiting call that does not look again: it joins the copy it was waiting for. */
  lemma NoRetestBreaks(gate: bool) returns (acts: seq<Act>, s: State)
    ensures Runs(Start(), acts, s, gate, false) && !Exclusive(s)
  {
    hide Start, Runs;
    var first, s3 := CopyUnderWay(gate);
    var rest := [Call, Test, Resume, Lock];
    var s4 := Do(s3, Call, gate, false);
    var s5 := Do(s4, Test, gate, false);
    var s6 := Do(s5, Resume, gate, false);
    s := Do(s6, Lock, gate, false);
    Steps(s3, rest, s4, s5, s6, gate, false);
    assert rest[3..] == [Lock];
    OneStep(s6, Lock, s, gate, false);
    acts := first + rest;
    assert Section(s.at[0]) && Section(s.at[1]);
  }

  lemma OneStep(s: State, a: Act, s': State, gate: bool, retest: bool)
    requires WellShaped(s) && Enabled(s, a) && s' == Do(s, a, gate, retest)
    ensures Runs(s, [a], s', gate, retest)
  {
    assert [a][1..] == [];
    Ends(s', gate, retest);
  }

  lemma InvExclusive(s: State)
    requires Inv(s)
    ensures Exclusive(s)
  {
  }

  /** The disk sections never overlap, in any run and under any preemption, if and only if both facts hold. */
  lemma SafeIff(gate: bool, retest: bool)
    ensures Safe(gate, retest) <==> gate && retest
  {
    hide Runs, Inv, Exclusive, Start;
    if gate && retest {
      forall acts: seq<Act>, s: State | Runs(Start(), acts, s, true, true)
        ensures Exclusive(s)
      {
        StartFacts();
        RunKeeps(Start(), acts, s);
        InvExclusive(s);
      }
    } else if gate {
      var acts, s := NoRetestBreaks(true);
    } else {
      var acts, s := TrapGateBreaks(retest);
    }
  }

  // ----- releasing the lock -----

  /** The lock is held exactly while some task is on the disk. */
  ghost predicate Honest(s: State) {
    s.lock <==> exists i :: 0 <= i < |s.at| && Section(s.at[i])
  }

  lemma StepHonest(s: State, a: Act)
    requires Inv(s) && Honest(s) && Enabled(s, a) && !a.OutOfMemory?
    ensures Honest(Do(s, a, true, true))
  {
    var s' := Do(s, a, true, true);
    if i :| 0 <= i < |s.at| && Section(s.at[i]) {
      assert i == s.current || s'.at[i] == s.at[i] || a.Kill?;
    }
    assert Section(s'.at[s.current]) || !Section(s'.at[s.current]);
  }

  /** Unless the memory runs out during a system call, every way out of a section releases the lock. */
  lemma {:induction false} LockReleased(s: State, acts: seq<Act>, s': State)
    requires Inv(s) && Honest(s) && Runs(s, acts, s', true, true) && forall k :: 0 <= k < |acts| ==>
      !acts[k].OutOfMemory?
    ensures Honest(s')
    decreases |acts|
  {
    hide Honest;
    if acts != [] {
      StepKeeps(s, acts[0]);
      StepHonest(s, acts[0]);
      LockReleased(Do(s, acts[0], true, true), acts[1..], s');
    }
  }

  /** The state an out-of-memory kill can leave behind: the lock held, by nobody, and no copy past its test. */
  ghost predicate Wedged(s: State) {
    Inv(s) && s.lock && s.at[0].Idle? && forall i :: 0 <= i < |s.at| ==> !Section(s.at[i])
  }

  /** From there on nobody ever gets to the disk again. */
  lemma {:induction false} WedgedForever(s: State, acts: seq<Act>, s': State)
    requires Wedged(s) && Runs(s, acts, s', true, true)
    ensures Wedged(s')
    decreases |acts|
  {
    if acts != [] {
      StepKeeps(s, acts[0]);
      WedgedStep(s, acts[0]);
      WedgedForever(Do(s, acts[0], true, true), acts[1..], s');
    }
  }

  lemma WedgedStep(s: State, a: Act)
    requires Wedged(s) && Enabled(s, a)
    ensures Wedged(Do(s, a, true, true))
  {
    StepKeeps(s, a);
  }

  /** A kill for lack of memory wedges the disk exactly when the kernel is not past the test of a copy. */
  lemma OutOfMemoryWedgesIff(s: State)
    requires Inv(s) && Enabled(s, OutOfMemory)
    ensures Wedged(Do(s, OutOfMemory, true, true)) <==> s.at[0].Idle?
  {
    StepKeeps(s, OutOfMemory);
    var s' := Do(s, OutOfMemory, true, true);
    assert s'.at[0] == s.at[0];
  }

  /** One app calls, gets the lock, and runs out of memory on the disk: four steps after the first tick it is wedged. */
  lemma WedgeRun() returns (acts: seq<Act>, s: State)
    ensures Runs(Start(), acts, s, true, true) && Wedged(s)
    ensures |acts| == 5 && acts[4] == OutOfMemory && forall k :: 0 <= k < 4 ==> acts[k] != OutOfMemory
  {
    hide Runs, Inv;
    acts := [Tick(1), Call, Test, Lock, OutOfMemory];
    var s1 := Do(Start(), Tick(1), true, true);
    var s2 := Do(s1, Call, true, true);
    var s3 := Do(s2, Test, true, true);
    var s4 := Do(s3, Lock, true, true);
    s := Do(s4, OutOfMemory, true, true);
    assert acts[3..] == [Lock, OutOfMemory];
    Steps(Start(), acts, s1, s2, s3, true, true);
    LastTwo(s3, Lock, s4, OutOfMemory, s);
    StartFacts();
    RunKeeps(Start(), acts, s);
    assert forall i :: 0 <= i < |s.at| ==> !Section(s.at[i]);
  }

  lemma LastTwo(s: State, a: Act, s1: State, b: Act, s2: State)
    requires WellShaped(s) && Enabled(s, a) && s1 == Do(s, a, true, true)
    requires WellShaped(s1) && Enabled(s1, b) && s2 == Do(s1, b, true, true)
    ensures Runs(s, [a, b], s2, true, true)
  {
    assert [a, b][1..] == [b];
    OneStep(s1, b, s2, true, true);
  }
}
