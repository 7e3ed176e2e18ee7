/**
 * The scheduler's view of a real-time task (`struct rt_info`). Tasks are
 * owned by the kernel. `livd` and `update_left` write `local_ivd` and `left`
 * during pass 1 of the two DASA-ND schedulers; the model takes the values they write
 * as fixed before they are read, so the timing attributes are constant fields
 * here. The two fields a call writes in place (the ICPP priority and the
 * aborted flag) are variables.
 */
module Tasks {
  import opened Timespecs

  const ULONG_MAX: int := 0xFFFF_FFFF_FFFF_FFFF

  /** The values of a C `unsigned long`. */
  type ULong = x: int | 0 <= x <= ULONG_MAX

  class Task {
    /** Absolute deadline of the current job. */
    const deadline: Timespec
    /** Execution time the job still needs (`left`). */
    const left: Timespec
    const period: Timespec
    /** Inverse value density (`local_ivd`): lower is more valuable. */
    const localIvd: int
    /** Number of resources the task currently holds. */
    const locksHeld: int
    /** ICPP priority; 0 means "not yet initialised". */
    var dynamicPriority: ULong
    /** The flag that `check_task_aborted` reads and `abort_thread` sets. */
    var aborted: bool

    constructor (deadline: Timespec, left: Timespec, period: Timespec, localIvd: int, locksHeld: int)
      ensures this.deadline == deadline && this.left == left && this.period == period
      ensures this.localIvd == localIvd && this.locksHeld == locksHeld
      ensures dynamicPriority == 0 && !aborted
    {
      this.deadline := deadline;
      this.left := left;
      this.period := period;
      this.localIvd := localIvd;
      this.locksHeld := locksHeld;
      dynamicPriority := 0;
      aborted := false;
    }
  }

  /** An intrusive kernel list holds each task at most once. */
  predicate Distinct(s: seq<Task>)
  {
    forall i, j :: 0 <= i < j < |s| ==> s[i] != s[j]
  }
}
