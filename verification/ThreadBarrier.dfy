/** A barrier for threads, as the steps its threads take: `workers` threads that each
    call block(), and one that calls releaseThreads(workers). */
module ThreadBarrier {
  /** Where a thread is: before its call, holding the mutex at the start of it,
      waiting for the condition, woken but without the mutex, holding the mutex at
      the end of its call, or back. */
  datatype Phase = Before | Inside | Waiting | Signalled | Leaving | Returned

  /** Threads 0 to workers - 1 are the workers, the last one the releaser. */
  datatype State = State(n: nat, waitFor: nat, holder: int, phase: seq<Phase>)

  const NOBODY := -1

  function Initial(workers: nat): State {
    State(0, 0, NOBODY, seq(workers + 1, _ => Before))
  }

  /** pthread_cond_broadcast. */
  function Broadcast(p: seq<Phase>): (r: seq<Phase>)
    ensures |r| == |p|
    ensures forall t :: 0 <= t < |p| ==> r[t] == if p[t] == Waiting then Signalled else p[t]
  {
    seq(|p|, t requires 0 <= t < |p| => if p[t] == Waiting then Signalled else p[t])
  }

  function UnblockThreads(s: State): State {
    State(0, 0, s.holder, Broadcast(s.phase))
  }

  /** What block() and releaseThreads() do once they hold the mutex: let all go, or
      give up the mutex and wait. */
  function Act(s: State, workers: nat, t: nat): State
    requires t < |s.phase|
  {
    if t < workers then
      var b := s.(n := s.n + 1);
      if b.waitFor > 0 && b.n == b.waitFor then Leave(UnblockThreads(b), t) else Wait(b, t)
    else if s.n >= workers then Leave(UnblockThreads(s), t)
    else Wait(s.(waitFor := workers), t)
  }

  function Leave(s: State, t: nat): State
    requires t < |s.phase|
  {
    s.(phase := s.phase[t := Leaving])
  }

  function Wait(s: State, t: nat): State
    requires t < |s.phase|
  {
    s.(phase := s.phase[t := Waiting], holder := NOBODY)
  }

  /** The assertion in block(). */
  predicate AssertionHolds(s: State) {
    s.waitFor == 0 || s.n + 1 <= s.waitFor
  }

  /** The barrier's own fields, as the code between lock and unlock changes them. */
  class WaitForThreads {
    var n: nat
    var waitFor: nat

    constructor ()
      ensures n == 0 && waitFor == 0
    {
      n, waitFor := 0, 0;
    }

    /** The state has this barrier's counters. */
    ghost predicate In(s: State)
      reads this
    {
      s.n == n && s.waitFor == waitFor
    }

    /** Holding the mutex, up to the wait or the broadcast: a worker's step. */
    method Block(ghost s: State, ghost workers: nat, ghost t: nat) returns (unblocks: bool)
      requires In(s) && AssertionHolds(s) && t < workers && t < |s.phase|
      modifies this
      ensures In(Act(s, workers, t)) && Act(s, workers, t).phase[t] == if unblocks then Leaving else Waiting
      ensures unblocks ==> Act(s, workers, t).phase == Broadcast(s.phase)[t := Leaving]
    {
      n := n + 1;
      if waitFor > 0 && n == waitFor {
        n, waitFor := 0, 0;
        return true;
      }
      unblocks := false;
    }

    /** The same for the releaser. */
    method ReleaseThreads(num: nat, ghost s: State, ghost t: nat) returns (unblocks: bool)
      requires In(s) && num <= t < |s.phase|
      modifies this
      ensures In(Act(s, num, t)) && Act(s, num, t).phase[t] == if unblocks then Leaving else Waiting
      ensures unblocks ==> Act(s, num, t).phase == Broadcast(s.phase)[t := Leaving]
    {
      if n >= num {
        n, waitFor := 0, 0;
        return true;
      }
      waitFor := num;
      unblocks := false;
    }
  }

  /** Thread `t` can take a step. */
  predicate Enabled(s: State, t: nat) {
    t < |s.phase| &&
    match s.phase[t]
    case Before => s.holder == NOBODY
    case Inside => s.holder == t
    case Waiting => false
    case Signalled => s.holder == NOBODY
    case Leaving => s.holder == t
    case Returned => false
  }

  /** The step it takes: lock the mutex, act, lock it again after waiting, unlock it
      and return. */
  function Step(s: State, workers: nat, t: nat): State
    requires Enabled(s, t)
  {
    match s.phase[t]
    case Before => s.(holder := t, phase := s.phase[t := Inside])
    case Inside => Act(s, workers, t)
    case Signalled => s.(holder := t, phase := s.phase[t := Leaving])
    case Leaving => s.(holder := NOBODY, phase := s.phase[t := Returned])
  }

  // ----- runs -----

  /** The steps of the threads in `run`, one after the other, are possible. */
  ghost predicate IsRun(s: State, workers: nat, run: seq<nat>)
    decreases |run|
  {
    run == [] || (Enabled(s, run[0]) && IsRun(Step(s, workers, run[0]), workers, run[1..]))
  }

  function After(s: State, workers: nat, run: seq<nat>): State
    requires IsRun(s, workers, run)
    decreases |run|
  {
    if run == [] then s else After(Step(s, workers, run[0]), workers, run[1..])
  }

  // ----- the invariant -----

  predicate Arrived(p: Phase) {
    !p.Before? && !p.Inside?
  }

  predicate Free(p: Phase) {
    p.Signalled? || p.Leaving? || p.Returned?
  }

  /** How many of the first `k` threads are waiting. */
  function Waiters(p: seq<Phase>, k: nat): (c: nat)
    requires k <= |p|
    ensures c <= k
  {
    if k == 0 then 0 else Waiters(p, k - 1) + (if p[k - 1] == Waiting then 1 else 0)
  }

  lemma {:induction false} WaitersUpdate(p: seq<Phase>, k: nat, t: nat, x: Phase)
    requires k <= |p| && t < |p|
    ensures Waiters(p[t := x], k) == Waiters(p, k)
      + (if t < k && x == Waiting then 1 else 0) - (if t < k && p[t] == Waiting then 1 else 0)
    decreases k
  {
    if k > 0 {
      WaitersUpdate(p, k - 1, t, x);
    }
  }

  lemma {:induction false} WaitersAll(p: seq<Phase>, k: nat)
    requires k <= |p| && Waiters(p, k) == k
    ensures forall t :: 0 <= t < k ==> p[t] == Waiting
    decreases k
  {
    if k > 0 {
      WaitersAll(p, k - 1);
    }
  }

  lemma {:induction false} WaitersNone(p: seq<Phase>, k: nat)
    requires k <= |p| && forall t :: 0 <= t < k ==> p[t] == Before
    ensures Waiters(p, k) == 0
    decreases k
  {
    if k > 0 {
      WaitersNone(p, k - 1);
    }
  }

  ghost predicate MutexOk(s: State) {
    forall t :: 0 <= t < |s.phase| ==> (s.phase[t].Inside? || s.phase[t].Leaving? <==> s.holder == t)
  }

  /** Nobody has been let go: `n` counts the workers waiting, and the releaser waits
      only for more of them. */
  ghost predicate Gathering(s: State, workers: nat)
    requires |s.phase| == workers + 1
  {
    && (forall t :: 0 <= t <= workers ==> !Free(s.phase[t]))
    && s.n == Waiters(s.phase, workers)
    && (if s.phase[workers] == Waiting then s.waitFor == workers && s.n < workers else s.waitFor == 0)
  }

  /** Everybody has been let go. */
  ghost predicate Released(s: State, workers: nat)
    requires |s.phase| == workers + 1
  {
    (forall t :: 0 <= t <= workers ==> Free(s.phase[t])) && s.n == 0 && s.waitFor == 0
  }

  ghost predicate Inv(s: State, workers: nat) {
    && |s.phase| == workers + 1 && NOBODY <= s.holder <= workers
    && MutexOk(s) && (Gathering(s, workers) || Released(s, workers))
  }

  lemma {:induction false} InitialInv(workers: nat)
    ensures Inv(Initial(workers), workers)
  {
    WaitersNone(Initial(workers).phase, workers);
  }

  /** The step that lets everybody go finds everybody else waiting. */
  lemma {:induction false} Releases(s: State, workers: nat, t: nat)
    requires Inv(s, workers) && Gathering(s, workers) && t <= workers && s.phase[t].Inside?
    requires if t < workers then s.waitFor > 0 && s.n + 1 == s.waitFor else s.n >= workers
    ensures forall u :: 0 <= u <= workers && u != t ==> s.phase[u] == Waiting
  {
    if t < workers {
      var p := s.phase[t := Waiting];
      WaitersUpdate(s.phase, workers, t, Waiting);
      WaitersAll(p, workers);
      forall u | 0 <= u <= workers && u != t
        ensures s.phase[u] == Waiting
      {
        assert u < workers ==> p[u] == s.phase[u];
      }
    } else {
      WaitersAll(s.phase, workers);
    }
  }

  lemma {:induction false} ActInv(s: State, workers: nat, t: nat)
    requires Inv(s, workers) && t <= workers && s.phase[t].Inside?
    ensures t < workers ==> AssertionHolds(s)
    ensures Inv(Act(s, workers, t), workers)
  {
    assert Gathering(s, workers);
    if t < workers {
      WaitersUpdate(s.phase, workers, t, Waiting);
      if s.waitFor > 0 && s.n + 1 == s.waitFor {
        Releases(s, workers, t);
      }
    } else {
      if s.n >= workers {
        Releases(s, workers, t);
      }
      WaitersUpdate(s.phase, workers, t, Waiting);
    }
  }

  lemma {:induction false} StepInv(s: State, workers: nat, t: nat)
    requires Inv(s, workers) && Enabled(s, t)
    ensures Inv(Step(s, workers, t), workers)
  {
    match s.phase[t] {
      case Before =>
        WaitersUpdate(s.phase, workers, t, Inside);
      case Inside =>
        ActInv(s, workers, t);
      case Signalled =>
      case Leaving =>
    }
  }

  lemma {:induction false} RunInv(s: State, workers: nat, run: seq<nat>)
    requires Inv(s, workers) && IsRun(s, workers, run)
    ensures Inv(After(s, workers, run), workers)
    decreases |run|
  {
    if run != [] {
      StepInv(s, workers, run[0]);
      RunInv(Step(s, workers, run[0]), workers, run[1..]);
    }
  }

  // ----- what every interleaving keeps -----

  /** In every run: nobody leaves before all have arrived, the assertion in block()
      never fails, and once all have arrived nobody is left waiting. */
  lemma {:induction false} BarrierSafe(workers: nat, run: seq<nat>)
    requires IsRun(Initial(workers), workers, run)
    ensures var s := After(Initial(workers), workers, run);
      && |s.phase| == workers + 1
      && ((exists t :: 0 <= t <= workers && Free(s.phase[t])) ==> forall t :: 0 <= t <= workers ==> Arrived(s.phase[t]))
      && (forall t :: 0 <= t < workers && s.phase[t].Inside? ==> AssertionHolds(s))
      && ((forall t :: 0 <= t <= workers ==> Arrived(s.phase[t])) ==>
          forall t :: 0 <= t <= workers ==> s.phase[t] != Waiting)
  {
    InitialInv(workers);
    RunInv(Initial(workers), workers, run);
    var s := After(Initial(workers), workers, run);
    forall t | 0 <= t < workers && s.phase[t].Inside?
      ensures AssertionHolds(s)
    {
      ActInv(s, workers, t);
    }
    if forall t :: 0 <= t <= workers ==> Arrived(s.phase[t]) {
      AllArrived(s, workers);
    }
  }

  lemma {:induction false} AllArrived(s: State, workers: nat)
    requires Inv(s, workers) && forall t :: 0 <= t <= workers ==> Arrived(s.phase[t])
    ensures Released(s, workers)
  {
    if Gathering(s, workers) {
      assert forall t :: 0 <= t <= workers ==> s.phase[t] == Waiting;
      AllWaiting(s.phase, workers);
    }
  }

  lemma {:induction false} AllWaiting(p: seq<Phase>, k: nat)
    requires k <= |p| && forall t :: 0 <= t < k ==> p[t] == Waiting
    ensures Waiters(p, k) == k
    decreases k
  {
    if k > 0 {
      AllWaiting(p, k - 1);
    }
  }

  // ----- everybody gets through -----

  function Rank(p: Phase): nat {
    match p
    case Before => 5
    case Inside => 4
    case Waiting => 3
    case Signalled => 2
    case Leaving => 1
    case Returned => 0
  }

  function Ranks(p: seq<Phase>, k: nat): nat
    requires k <= |p|
  {
    if k == 0 then 0 else Ranks(p, k - 1) + Rank(p[k - 1])
  }

  lemma {:induction false} RanksLess(p: seq<Phase>, q: seq<Phase>, k: nat, t: nat)
    requires |p| == |q| && k <= |p| && t < |p|
    requires (forall u :: 0 <= u < |p| ==> Rank(q[u]) <= Rank(p[u])) && Rank(q[t]) < Rank(p[t])
    ensures Ranks(q, k) <= Ranks(p, k) && (t < k ==> Ranks(q, k) < Ranks(p, k))
    decreases k
  {
    if k > 0 {
      RanksLess(p, q, k - 1, t);
    }
  }

  /** Every step gets some thread further, and none back. */
  lemma {:induction false} StepLess(s: State, workers: nat, t: nat)
    requires Inv(s, workers) && Enabled(s, t)
    ensures Ranks(Step(s, workers, t).phase, workers + 1) < Ranks(s.phase, workers + 1)
  {
    StepInv(s, workers, t);
    RanksLess(s.phase, Step(s, workers, t).phase, workers + 1, t);
  }

  /** Unless all are back, some thread can go on. */
  lemma {:induction false} SomebodyGoesOn(s: State, workers: nat)
    requires Inv(s, workers) && exists t :: 0 <= t <= workers && s.phase[t] != Returned
    ensures exists t :: Enabled(s, t)
  {
    if s.holder != NOBODY {
      assert Enabled(s, s.holder);
    } else if Released(s, workers) {
      var t :| 0 <= t <= workers && s.phase[t] != Returned;
      assert Enabled(s, t);
    } else if forall t :: 0 <= t <= workers ==> Arrived(s.phase[t]) {
      AllArrived(s, workers);
    } else {
      var t :| 0 <= t <= workers && !Arrived(s.phase[t]);
      assert Enabled(s, t);
    }
  }

  lemma {:induction false} RunLength(s: State, workers: nat, run: seq<nat>)
    requires Inv(s, workers) && IsRun(s, workers, run)
    ensures |After(s, workers, run).phase| == workers + 1
    ensures Ranks(After(s, workers, run).phase, workers + 1) + |run| <= Ranks(s.phase, workers + 1)
    decreases |run|
  {
    if run != [] {
      RunInv(s, workers, run);
      StepLess(s, workers, run[0]);
      StepInv(s, workers, run[0]);
      RunLength(Step(s, workers, run[0]), workers, run[1..]);
    }
  }

  lemma {:induction false} RanksBefore(p: seq<Phase>, k: nat)
    requires k <= |p| && forall t :: 0 <= t < k ==> p[t] == Before
    ensures Ranks(p, k) == 5 * k
    decreases k
  {
    if k > 0 {
      RanksBefore(p, k - 1);
    }
  }

  /** However the threads interleave, after at most five steps each nobody can go on,
      and when nobody can, everybody has returned. */
  lemma {:induction false} BarrierLive(workers: nat, run: seq<nat>)
    requires IsRun(Initial(workers), workers, run)
    ensures |run| <= 5 * (workers + 1)
    ensures var s := After(Initial(workers), workers, run);
      (exists t :: Enabled(s, t)) || forall t :: 0 <= t < |s.phase| ==> s.phase[t] == Returned
  {
    var s := After(Initial(workers), workers, run);
    InitialInv(workers);
    RunInv(Initial(workers), workers, run);
    RunLength(Initial(workers), workers, run);
    RanksBefore(Initial(workers).phase, workers + 1);
    if exists t :: 0 <= t <= workers && s.phase[t] != Returned {
      SomebodyGoesOn(s, workers);
    }
  }

  // ----- spurious wakeups -----

  /** POSIX allows a thread to wake without having been signalled. */
  function WakeSpuriously(s: State, t: nat): State
    requires t < |s.phase| && s.phase[t] == Waiting
  {
    s.(phase := s.phase[t := Signalled])
  }

  /** The wait is not in a loop: one spurious wakeup, and a worker returns while no
      other thread has arrived. */
  lemma {:induction false} SpuriousWakeupEscapes(workers: nat) returns (s: State)
    requires workers > 0
    ensures IsRun(Initial(workers), workers, [0, 0])
    ensures var w := After(Initial(workers), workers, [0, 0]);
      && |w.phase| == workers + 1 && w.phase[0] == Waiting
      && IsRun(WakeSpuriously(w, 0), workers, [0, 0]) && s == After(WakeSpuriously(w, 0), workers, [0, 0])
    ensures |s.phase| == workers + 1 && s.phase[0] == Returned && s.phase[workers] == Before
  {
    var s0 := Initial(workers);
    var s1 := Step(s0, workers, 0);
    var w := Step(s1, workers, 0);
    TwoSteps(s0, workers, 0);
    var s2 := Step(WakeSpuriously(w, 0), workers, 0);
    s := Step(s2, workers, 0);
    TwoSteps(WakeSpuriously(w, 0), workers, 0);
  }

  lemma {:induction false} TwoSteps(s: State, workers: nat, t: nat)
    requires Enabled(s, t) && Enabled(Step(s, workers, t), t)
    ensures IsRun(s, workers, [t, t]) && After(s, workers, [t, t]) == Step(Step(s, workers, t), workers, t)
  {
    assert [t, t][1..] == [t];
    assert [t][1..] == [];
    var s1 := Step(s, workers, t);
    assert IsRun(s1, workers, [t]);
    assert After(s1, workers, [t]) == After(Step(s1, workers, t), workers, []);
  }
}
