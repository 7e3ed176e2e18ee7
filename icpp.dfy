/**
 * The ICPP scheduler of icpp.c (`sched_icpp`). Each ready task's priority is
 * initialised from its period when still 0. A ceiling starts at `ULONG_MAX`;
 * a task whose priority is strictly below the current ceiling becomes the
 * candidate, and lowers the ceiling to its priority when it holds a lock. The
 * candidate is therefore the LAST task that beat the ceiling when visited, not
 * the task of least priority. With no candidate the first ready task is
 * returned.
 */
module Icpp {
  import opened Timespecs
  import opened Tasks

  datatype Option<T> = None | Some(value: T)

  /** The priorities the ready tasks hold now. */
  function Priorities(ready: seq<Task>): (ps: seq<int>)
    reads ready
    ensures |ps| == |ready|
  {
    if ready == [] then [] else [ready[0].dynamicPriority] + Priorities(ready[1..])
  }

  /**
   * The priorities the ready tasks will hold once initialised (icpp.c lines
   * 44-45): a zero priority is replaced by the period's conversion.
   */
  function InitPriorities(ready: seq<Task>, toLong: Timespec -> ULong): (ps: seq<int>)
    reads ready
    ensures |ps| == |ready|
  {
    if ready == [] then []
    else [if ready[0].dynamicPriority == 0 then toLong(ready[0].period) else ready[0].dynamicPriority] + InitPriorities(ready[1..], toLong)
  }

  function LocksHeld(ready: seq<Task>): (ls: seq<int>)
    ensures |ls| == |ready|
  {
    if ready == [] then [] else [ready[0].locksHeld] + LocksHeld(ready[1..])
  }

  lemma {:induction false} TaskViewsAt(ready: seq<Task>, toLong: Timespec -> ULong, i: nat)
    requires i < |ready|
    ensures Priorities(ready)[i] == ready[i].dynamicPriority
    ensures InitPriorities(ready, toLong)[i] == (if ready[i].dynamicPriority == 0 then toLong(ready[i].period) else ready[i].dynamicPriority)
    ensures LocksHeld(ready)[i] == ready[i].locksHeld
    decreases i
  {
    if i > 0 {
      TaskViewsAt(ready[1..], toLong, i - 1);
    }
  }

  /** `csstar` after the first `k` tasks have been visited. */
  function Ceiling(prios: seq<int>, locks: seq<int>, k: nat): int
    requires k <= |prios| && |prios| == |locks|
  {
    if k == 0 then ULONG_MAX
    else
      var c := Ceiling(prios, locks, k - 1);
      if prios[k - 1] < c && locks[k - 1] > 0 then prios[k - 1] else c
  }

  /** Task `k` is below the ceiling at the moment it is visited. */
  predicate Qualifies(prios: seq<int>, locks: seq<int>, k: nat)
    requires k < |prios| && |prios| == |locks|
  {
    prios[k] < Ceiling(prios, locks, k)
  }

  /** `best` after the first `n` tasks have been visited, as an index. */
  function LastQualifying(prios: seq<int>, locks: seq<int>, n: nat): (b: Option<nat>)
    requires n <= |prios| && |prios| == |locks|
    ensures b.Some? ==> b.value < n
  {
    if n == 0 then None
    else if Qualifies(prios, locks, n - 1) then Some(n - 1)
    else LastQualifying(prios, locks, n - 1)
  }

  /** The index `sched_icpp` returns: `best`, or the head when there is none. */
  function IcppPick(prios: seq<int>, locks: seq<int>): (k: nat)
    requires 0 < |prios| && |prios| == |locks|
    ensures k < |prios|
  {
    match LastQualifying(prios, locks, |prios|)
    case Some(k) => k
    case None => 0
  }

  /** The ceiling starts at `ULONG_MAX` and never increases. */
  lemma {:induction false} CeilingNonIncreasing(prios: seq<int>, locks: seq<int>, j: nat, k: nat)
    requires j <= k <= |prios| && |prios| == |locks|
    ensures Ceiling(prios, locks, k) <= Ceiling(prios, locks, j) <= ULONG_MAX
    decreases k
  {
    if j < k {
      CeilingNonIncreasing(prios, locks, j, k - 1);
    } else if 0 < k {
      CeilingNonIncreasing(prios, locks, 0, k - 1);
    }
  }

  /**
   * The ceiling is either still `ULONG_MAX` or the priority of a visited,
   * lock-holding task that was below the ceiling when visited.
   */
  lemma {:induction false} CeilingFromLockHolder(prios: seq<int>, locks: seq<int>, k: nat)
    requires k <= |prios| && |prios| == |locks|
    ensures Ceiling(prios, locks, k) == ULONG_MAX ||
      exists i :: 0 <= i < k && locks[i] > 0 && Qualifies(prios, locks, i) &&
        Ceiling(prios, locks, k) == prios[i]
    decreases k
  {
    if k > 0 {
      CeilingFromLockHolder(prios, locks, k - 1);
    }
  }

  /**
   * `best` is the last visited task that was below the ceiling when visited;
   * when there is none, no visited task was.
   */
  lemma {:induction false} LastQualifyingSpec(prios: seq<int>, locks: seq<int>, n: nat)
    requires n <= |prios| && |prios| == |locks|
    ensures match LastQualifying(prios, locks, n)
      case Some(k) =>
        && k < n && Qualifies(prios, locks, k)
        && forall j :: k < j < n ==> !Qualifies(prios, locks, j)
      case None => forall j :: 0 <= j < n ==> !Qualifies(prios, locks, j)
    decreases n
  {
    if n > 0 {
      LastQualifyingSpec(prios, locks, n - 1);
    }
  }

  /** With no lock holder the ceiling stays at `ULONG_MAX`. */
  lemma {:induction false} NoLocksNoCeiling(prios: seq<int>, locks: seq<int>, k: nat)
    requires k <= |prios| && |prios| == |locks|
    requires forall i :: 0 <= i < |locks| ==> locks[i] <= 0
    ensures Ceiling(prios, locks, k) == ULONG_MAX
    decreases k
  {
    if k > 0 {
      NoLocksNoCeiling(prios, locks, k - 1);
    }
  }

  /**
   * With no lock holder the pick is the last task whose priority is below
   * `ULONG_MAX`, or the first task when there is none.
   */
  lemma NoLocksPicksLastBelowMax(prios: seq<int>, locks: seq<int>)
    requires 0 < |prios| && |prios| == |locks|
    requires forall i :: 0 <= i < |locks| ==> locks[i] <= 0
    ensures var k := IcppPick(prios, locks);
      && k < |prios|
      && (prios[k] < ULONG_MAX ==> forall j :: k < j < |prios| ==> prios[j] >= ULONG_MAX)
      && (prios[k] >= ULONG_MAX ==> k == 0 && forall j :: 0 <= j < |prios| ==> prios[j] >= ULONG_MAX)
  {
    var n := |prios|;
    LastQualifyingSpec(prios, locks, n);
    forall j | 0 <= j < n
      ensures Qualifies(prios, locks, j) <==> prios[j] < ULONG_MAX
    {
      NoLocksNoCeiling(prios, locks, j);
    }
  }

  /** The pick is a ready-list position; it is `best` whenever some task qualified. */
  lemma IcppPickSpec(prios: seq<int>, locks: seq<int>)
    requires 0 < |prios| && |prios| == |locks|
    ensures var k := IcppPick(prios, locks);
      && k < |prios|
      && ((exists j :: 0 <= j < |prios| && Qualifies(prios, locks, j)) ==>
            Qualifies(prios, locks, k) &&
            forall j :: k < j < |prios| ==> !Qualifies(prios, locks, j))
      && ((forall j :: 0 <= j < |prios| ==> !Qualifies(prios, locks, j)) ==> k == 0)
  {
    LastQualifyingSpec(prios, locks, |prios|);
  }

  /** The pick need not hold the smallest priority: a later, larger one below the ceiling still wins. */
  lemma NotARunningMinimum()
    ensures IcppPick([1, 5], [0, 0]) == 1
  {
    assert Qualifies([1, 5], [0, 0], 1);
  }

  /** Visiting task `i`: how the ceiling and `best` move on. */
  lemma VisitStep(prios: seq<int>, locks: seq<int>, i: nat)
    requires i < |prios| && |prios| == |locks|
    ensures Ceiling(prios, locks, i + 1) ==
      if prios[i] < Ceiling(prios, locks, i) && locks[i] > 0 then prios[i] else Ceiling(prios, locks, i)
    ensures LastQualifying(prios, locks, i + 1) ==
      if prios[i] < Ceiling(prios, locks, i) then Some(i) else LastQualifying(prios, locks, i)
  {
  }

  /**
   * `sched_icpp`: initialises every zero priority in place, writes no other
   * field, and returns the task `IcppPick` selects on the initialised
   * priorities.
   */
  method SchedIcpp(ready: seq<Task>, toLong: Timespec -> ULong) returns (r: Task)
    requires |ready| > 0
    requires Distinct(ready)
    modifies ready
    ensures forall i :: 0 <= i < |ready| ==>
      ready[i].dynamicPriority ==
        (if old(ready[i].dynamicPriority) == 0 then toLong(ready[i].period) else old(ready[i].dynamicPriority))
    ensures forall j :: 0 <= j < |ready| ==> ready[j].aborted == old(ready[j].aborted)
    ensures r == ready[IcppPick(Priorities(ready), LocksHeld(ready))]
  {
    ghost var prios := InitPriorities(ready, toLong);
    ghost var locks := LocksHeld(ready);
    forall j | 0 <= j < |ready|
      ensures prios[j] == (if ready[j].dynamicPriority == 0 then toLong(ready[j].period) else ready[j].dynamicPriority)
      ensures locks[j] == ready[j].locksHeld
    {
      TaskViewsAt(ready, toLong, j);
    }
    var csstar: int := ULONG_MAX;
    var best: Task? := null;
    ghost var bestIdx: Option<nat> := None;
    var i := 0;
    while i < |ready|
      invariant 0 <= i <= |ready|
      invariant forall j :: 0 <= j < i ==> ready[j].dynamicPriority == prios[j]
      invariant forall j :: i <= j < |ready| ==> ready[j].dynamicPriority == old(ready[j].dynamicPriority)
      invariant forall j :: 0 <= j < |ready| ==> ready[j].aborted == old(ready[j].aborted)
      invariant csstar == Ceiling(prios, locks, i)
      invariant bestIdx == LastQualifying(prios, locks, i)
      invariant bestIdx.None? <==> best == null
      invariant bestIdx.Some? ==> bestIdx.value < |ready| && best == ready[bestIdx.value]
    {
      var it := ready[i];
      if it.dynamicPriority == 0 {
        it.dynamicPriority := toLong(it.period);
      }
      var p := it.dynamicPriority;
      assert p == prios[i] && it.locksHeld == locks[i] by {
        TaskViewsAt(ready, toLong, i);
      }
      VisitStep(prios, locks, i);
      if p < csstar {
        if it.locksHeld > 0 {
          csstar := p;
        }
        best := it;
        bestIdx := Some(i);
      }
      i := i + 1;
    }
    forall j | 0 <= j < |ready|
      ensures Priorities(ready)[j] == prios[j]
    {
      TaskViewsAt(ready, toLong, j);
    }
    assert Priorities(ready) == prios;
    if best != null {
      return best;
    }
    return ready[0];
  }
}
