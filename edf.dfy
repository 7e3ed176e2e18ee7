/**
 * The EDF scheduler of edf.c (`sched_edf`): one pass over the ready list that
 * keeps the task with the earliest deadline, replacing it only on a strictly
 * earlier one, so the first of several tied tasks wins.
 */
module Edf {
  import opened Timespecs
  import opened Tasks

  const INT_MIN: int := -0x8000_0000
  const INT_MAX: int := 0x7FFF_FFFF

  /** The C conversion of a long to a 32-bit `int` (two's-complement wrap-around). */
  function Int32(x: int): (r: int)
    ensures INT_MIN <= r <= INT_MAX
    ensures INT_MIN <= x <= INT_MAX ==> r == x
    ensures (x - r) % 0x1_0000_0000 == 0
  {
    (x - INT_MIN) % 0x1_0000_0000 + INT_MIN
  }

  /** Every difference of two deadlines' seconds fits the `int secdiff` of edf.c. */
  predicate SecDiffsFitInt(ready: seq<Task>)
  {
    forall i, j :: 0 <= i < |ready| && 0 <= j < |ready| ==>
      INT_MIN <= ready[i].deadline.sec - ready[j].deadline.sec <= INT_MAX
  }

  /** The comparison edf.c makes: `um` replaces `best` when its deadline is strictly earlier. */
  predicate Replaces(um: Timespec, best: Timespec)
  {
    var secdiff := Int32(um.sec - best.sec);
    secdiff < 0 || (secdiff == 0 && um.nsec - best.nsec < 0)
  }

  /** When the seconds difference fits in an `int`, the comparison is `earlier_deadline`. */
  lemma ReplacesIsEarlier(um: Timespec, best: Timespec)
    requires INT_MIN <= um.sec - best.sec <= INT_MAX
    ensures Replaces(um, best) <==> EarlierDeadline(um, best)
  {
  }

  /**
   * `sched_edf`: the result is a ready task whose deadline no ready task
   * beats, and every task before it in the list has a strictly later
   * deadline (the first of the tied tasks wins). No task is modified.
   */
  method SchedEdf(ready: seq<Task>) returns (best: Task)
    requires |ready| > 0
    requires SecDiffsFitInt(ready)
    ensures best in ready
    ensures forall t :: t in ready ==> !EarlierDeadline(t.deadline, best.deadline)
    ensures exists k :: && 0 <= k < |ready| && ready[k] == best
                        && (forall j :: 0 <= j < k ==> EarlierDeadline(best.deadline, ready[j].deadline))
    ensures |ready| == 1 ==> best == ready[0]
  {
    best := ready[0];
    ghost var k := 0;
    var i := 0;
    while i < |ready|
      invariant 0 <= i <= |ready|
      invariant 0 <= k < |ready| && ready[k] == best
      invariant forall j :: 0 <= j < i ==> !EarlierDeadline(ready[j].deadline, best.deadline)
      invariant forall j :: 0 <= j < k ==> EarlierDeadline(best.deadline, ready[j].deadline)
    {
      var um := ready[i];
      ReplacesIsEarlier(um.deadline, best.deadline);
      var secdiff := Int32(um.deadline.sec - best.deadline.sec);
      if secdiff < 0 {
        best, k := um, i;
      } else if secdiff == 0 && um.deadline.nsec - best.deadline.nsec < 0 {
        best, k := um, i;
      }
      i := i + 1;
    }
  }
}
