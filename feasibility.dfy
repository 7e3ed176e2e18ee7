/**
 * The schedule feasibility test of the DASA-ND scheduler (`schedule_feasible`
 * in dasa.c): starting from the current time, run the listed tasks one after
 * the other, each for the time it still needs, and fail as soon as one of
 * them would finish after its deadline.
 */
module Feasibility {
  import opened Timespecs
  import opened Tasks

  /** The instant at which the tasks of `s`, run back to back from `now`, are done. */
  function Elapsed(now: Timespec, s: seq<Task>): Timespec
  {
    if s == [] then now else AddTs(Elapsed(now, s[..|s| - 1]), s[|s| - 1].left)
  }

  /** Total remaining execution time of the tasks of `s`, in nanoseconds. */
  function SumLeft(s: seq<Task>): int
  {
    if s == [] then 0 else SumLeft(s[..|s| - 1]) + Nanos(s[|s| - 1].left)
  }

  /** No task of `s` finishes strictly after its deadline. */
  predicate Feasible(now: Timespec, s: seq<Task>)
  {
    forall k :: 0 <= k < |s| ==> !EarlierDeadline(s[k].deadline, Elapsed(now, s[..k + 1]))
  }

  /** `schedule_feasible`: the sequential-execution simulation over the list. */
  method ScheduleFeasible(s: seq<Task>, now: Timespec) returns (ok: bool)
    ensures ok == Feasible(now, s)
  {
    var exec := now;
    var i := 0;
    while i < |s|
      invariant 0 <= i <= |s|
      invariant exec == Elapsed(now, s[..i])
      invariant forall k :: 0 <= k < i ==> !EarlierDeadline(s[k].deadline, Elapsed(now, s[..k + 1]))
    {
      assert s[..i + 1][..i] == s[..i];
      exec := AddTs(exec, s[i].left);
      if EarlierDeadline(s[i].deadline, exec) {
        return false;
      }
      i := i + 1;
    }
    return true;
  }

  lemma {:induction false} ElapsedNanos(now: Timespec, s: seq<Task>)
    ensures Nanos(Elapsed(now, s)) == Nanos(now) + SumLeft(s)
    decreases |s|
  {
    if s != [] {
      ElapsedNanos(now, s[..|s| - 1]);
    }
  }

  /**
   * With normalised deadlines, a list is feasible exactly when every task's
   * deadline is at least `now` plus the remaining times of the tasks up to and
   * including it.
   */
  lemma FeasibleIffDeadlinesMet(now: Timespec, s: seq<Task>)
    requires forall t :: t in s ==> Normalized(t.deadline)
    ensures Feasible(now, s) <==>
      forall k :: 0 <= k < |s| ==> Nanos(now) + SumLeft(s[..k + 1]) <= Nanos(s[k].deadline)
  {
    forall k | 0 <= k < |s|
      ensures EarlierDeadline(s[k].deadline, Elapsed(now, s[..k + 1]))
          <==> Nanos(s[k].deadline) < Nanos(now) + SumLeft(s[..k + 1])
    {
      var p := s[..k + 1];
      assert p != [];
      ElapsedNanos(now, p);
      EarlierIffFewerNanos(s[k].deadline, Elapsed(now, p));
    }
  }

  /** The empty list is feasible. */
  lemma EmptyFeasible(now: Timespec)
    ensures Feasible(now, [])
  {
  }

  /** Feasibility is prefix-closed: the test stops at the first late task. */
  lemma FeasiblePrefix(now: Timespec, s: seq<Task>, m: nat)
    requires Feasible(now, s)
    requires m <= |s|
    ensures Feasible(now, s[..m])
  {
    forall k | 0 <= k < m
      ensures !EarlierDeadline(s[..m][k].deadline, Elapsed(now, s[..m][..k + 1]))
    {
      assert s[..m][..k + 1] == s[..k + 1];
    }
  }
}
