/**
 * The hand-written DASA-ND scheduler of dasa.c (`sched_dasa_nd`). It builds a
 * density list ordered by inverse value density, offers each task in that
 * order to a schedule list ordered by deadline, keeps an offer only if the
 * whole schedule stays feasible, and picks the schedule's head (or, if nothing
 * could be admitted, the density list's head).
 */
module Dasa {
  import opened Timespecs
  import opened Tasks
  import opened Feasibility

  /** Index of the first task of `s` in `failing`, or `|s|` if there is none. */
  function FirstFailing(s: seq<Task>, failing: set<Task>): (k: nat)
    ensures k <= |s|
    ensures k < |s| ==> s[k] in failing
    ensures forall j :: 0 <= j < k ==> s[j] !in failing
  {
    if s == [] then 0
    else if s[0] in failing then 0
    else 1 + FirstFailing(s[1..], failing)
  }

  /** What inserting `t` at position `p` (a `list_add` after the cursor) does. */
  lemma InsertAt(s: seq<Task>, t: Task, p: nat)
    requires p <= |s|
    ensures var r := s[..p] + [t] + s[p..];
      && |r| == |s| + 1 && r[p] == t
      && (forall i :: 0 <= i < p ==> r[i] == s[i])
      && (forall i :: p < i < |r| ==> r[i] == s[i - 1])
  {
  }

  /** Inserting adds exactly `t`, and removing the entry at `p` again undoes it. */
  lemma InsertAtContents(s: seq<Task>, t: Task, p: nat)
    requires p <= |s|
    ensures var r := s[..p] + [t] + s[p..];
      && multiset(r) == multiset(s) + multiset{t}
      && r[..p] + r[p + 1..] == s
  {
    var r := s[..p] + [t] + s[p..];
    assert r[..p] == s[..p];
    assert r[p + 1..] == s[p..];
    assert s == s[..p] + s[p..];
  }

  // ---------------------------------------------------------------------
  // The density list

  predicate SortedByIvd(d: seq<Task>)
  {
    forall i, j :: 0 <= i < j < |d| ==> d[i].localIvd <= d[j].localIvd
  }

  /** Where the cursor walk stops: before the first entry whose ivd exceeds `ivd`. */
  function DensityPos(d: seq<Task>, ivd: int): (p: nat)
    ensures p <= |d|
  {
    if d == [] then 0
    else if d[0].localIvd > ivd then 0
    else 1 + DensityPos(d[1..], ivd)
  }

  /**
   * The insertion point is the one position with only entries of ivd at most
   * `ivd` before it and an entry of greater ivd (or the end) at it.
   */
  lemma {:induction false} DensityPosSpec(d: seq<Task>, ivd: int, q: nat)
    ensures var p := DensityPos(d, ivd);
      && (forall i :: 0 <= i < p ==> d[i].localIvd <= ivd)
      && (p < |d| ==> d[p].localIvd > ivd)
    ensures (&& q <= |d|
             && (forall i :: 0 <= i < q ==> d[i].localIvd <= ivd)
             && (q < |d| ==> d[q].localIvd > ivd))
            ==> q == DensityPos(d, ivd)
    decreases |d|
  {
    if d != [] && d[0].localIvd <= ivd {
      DensityPosSpec(d[1..], ivd, if q == 0 then 0 else q - 1);
    }
  }

  function DensityInsert(d: seq<Task>, t: Task): seq<Task>
  {
    var p := DensityPos(d, t.localIvd);
    d[..p] + [t] + d[p..]
  }

  /** The density list after the tasks of `s` have been inserted in order. */
  function DensityOf(s: seq<Task>): seq<Task>
  {
    if s == [] then [] else DensityInsert(DensityOf(s[..|s| - 1]), s[|s| - 1])
  }

  /**
   * Inserting into a sorted density list keeps it sorted, adds exactly `t`,
   * and puts `t` after every entry of equal ivd (the insertion is stable).
   */
  lemma DensityInsertSorted(d: seq<Task>, t: Task)
    requires SortedByIvd(d)
    ensures var r := DensityInsert(d, t); var p := DensityPos(d, t.localIvd);
      && SortedByIvd(r)
      && multiset(r) == multiset(d) + multiset{t}
      && r[p] == t
      && (forall i :: 0 <= i < p ==> r[i].localIvd <= t.localIvd)
      && (forall i :: p < i < |r| ==> r[i].localIvd > t.localIvd)
  {
    var p := DensityPos(d, t.localIvd);
    InsertAtContents(d, t, p);
    DensityInsertOrder(d, t);
  }

  lemma DensityInsertOrder(d: seq<Task>, t: Task)
    requires SortedByIvd(d)
    ensures var r := DensityInsert(d, t); var p := DensityPos(d, t.localIvd);
      && SortedByIvd(r)
      && (forall i :: 0 <= i < p ==> r[i].localIvd <= t.localIvd)
      && (forall i :: p < i < |r| ==> r[i].localIvd > t.localIvd)
  {
    var p := DensityPos(d, t.localIvd);
    var r := DensityInsert(d, t);
    var ivd := t.localIvd;
    DensityPosSpec(d, ivd, 0);
    InsertAt(d, t, p);
    forall i | p < i < |r|
      ensures r[i].localIvd > ivd
    {
      assert r[i] == d[i - 1];
      assert d[p].localIvd <= d[i - 1].localIvd;
    }
    forall i, j | 0 <= i < j < |r|
      ensures r[i].localIvd <= r[j].localIvd
    {
      if j < p {
        assert r[i] == d[i] && r[j] == d[j];
      } else if j == p {
        assert r[i] == d[i];
      } else if i < p {
        assert r[i] == d[i] && r[i].localIvd <= ivd;
      } else if i > p {
        assert r[i] == d[i - 1] && r[j] == d[j - 1];
      }
    }
  }

  /** The density list is the ready list, sorted by ivd. */
  lemma {:induction false} DensityOfSortedPermutation(s: seq<Task>)
    ensures SortedByIvd(DensityOf(s))
    ensures multiset(DensityOf(s)) == multiset(s)
    decreases |s|
  {
    if s != [] {
      var init := s[..|s| - 1];
      DensityOfSortedPermutation(init);
      DensityInsertSorted(DensityOf(init), s[|s| - 1]);
      assert s == init + [s[|s| - 1]];
    }
  }

  /** `dasa.c` lines 68-78: walk the cursor, then `list_add` after it. */
  method InsertByDensity(density: seq<Task>, it: Task) returns (r: seq<Task>)
    ensures r == DensityInsert(density, it)
  {
    var ivd := it.localIvd;
    var i := 0;
    while i < |density|
      invariant 0 <= i <= |density|
      invariant forall k :: 0 <= k < i ==> density[k].localIvd <= ivd
    {
      if density[i].localIvd > ivd {
        break;
      }
      i := i + 1;
    }
    DensityPosSpec(density, ivd, i);
    r := density[..i] + [it] + density[i..];
  }

  // ---------------------------------------------------------------------
  // The schedule list

  /** Each entry's deadline is no earlier than that of any entry after it. */
  predicate NonIncreasingDeadlines(s: seq<Task>)
  {
    forall i, j :: 0 <= i < j < |s| ==> !EarlierDeadline(s[i].deadline, s[j].deadline)
  }

  /** Where the cursor walk stops: before the first entry with a strictly earlier deadline. */
  function SchedulePos(s: seq<Task>, d: Timespec): (p: nat)
    ensures p <= |s|
  {
    if s == [] then 0
    else if EarlierDeadline(s[0].deadline, d) then 0
    else 1 + SchedulePos(s[1..], d)
  }

  /**
   * The insertion point is the one position with no entry of strictly
   * earlier deadline before it and such an entry (or the end) at it.
   */
  lemma {:induction false} SchedulePosSpec(s: seq<Task>, d: Timespec, q: nat)
    ensures var p := SchedulePos(s, d);
      && (forall i :: 0 <= i < p ==> !EarlierDeadline(s[i].deadline, d))
      && (p < |s| ==> EarlierDeadline(s[p].deadline, d))
    ensures (&& q <= |s|
             && (forall i :: 0 <= i < q ==> !EarlierDeadline(s[i].deadline, d))
             && (q < |s| ==> EarlierDeadline(s[q].deadline, d)))
            ==> q == SchedulePos(s, d)
    decreases |s|
  {
    if s != [] && !EarlierDeadline(s[0].deadline, d) {
      SchedulePosSpec(s[1..], d, if q == 0 then 0 else q - 1);
    }
  }

  function ScheduleInsert(s: seq<Task>, t: Task): seq<Task>
  {
    var p := SchedulePos(s, t.deadline);
    s[..p] + [t] + s[p..]
  }

  /**
   * The insertion keeps a schedule in non-increasing deadline order and adds
   * exactly `t`; removing the entry at the insertion point gives `s` back.
   */
  lemma ScheduleInsertOrdered(s: seq<Task>, t: Task)
    requires NonIncreasingDeadlines(s)
    ensures var r := ScheduleInsert(s, t); var p := SchedulePos(s, t.deadline);
      && NonIncreasingDeadlines(r)
      && multiset(r) == multiset(s) + multiset{t}
      && r[p] == t
      && r[..p] + r[p + 1..] == s
  {
    var p := SchedulePos(s, t.deadline);
    InsertAt(s, t, p);
    InsertAtContents(s, t, p);
    ScheduleInsertOrder(s, t);
  }

  lemma ScheduleInsertOrder(s: seq<Task>, t: Task)
    requires NonIncreasingDeadlines(s)
    ensures NonIncreasingDeadlines(ScheduleInsert(s, t))
  {
    var p := SchedulePos(s, t.deadline);
    var r := ScheduleInsert(s, t);
    var dt := t.deadline;
    InsertAt(s, t, p);
    SchedulePosSpec(s, dt, 0);
    forall i, j | 0 <= i < j < |r|
      ensures !EarlierDeadline(r[i].deadline, r[j].deadline)
    {
      if j < p {
        assert r[i] == s[i] && r[j] == s[j];
      } else if j == p {
        assert r[i] == s[i];
      } else if i > p {
        assert r[i] == s[i - 1] && r[j] == s[j - 1];
      } else {
        assert r[j] == s[j - 1];
        NotLaterThanEarlier(s, t, j - 1);
        if i < p {
          assert r[i] == s[i];
          NotEarlierTransitive(r[i].deadline, dt, r[j].deadline);
        }
      }
    }
  }

  /** Every entry from the insertion point on has a deadline no later than `t`'s. */
  lemma NotLaterThanEarlier(s: seq<Task>, t: Task, k: int)
    requires NonIncreasingDeadlines(s)
    requires SchedulePos(s, t.deadline) <= k < |s|
    ensures !EarlierDeadline(t.deadline, s[k].deadline)
  {
    var p := SchedulePos(s, t.deadline);
    SchedulePosSpec(s, t.deadline, 0);
    if p < k {
      assert !EarlierDeadline(s[p].deadline, s[k].deadline);
    }
  }

  lemma NotEarlierTransitive(a: Timespec, b: Timespec, c: Timespec)
    requires !EarlierDeadline(a, b) && !EarlierDeadline(b, c)
    ensures !EarlierDeadline(a, c)
  {
  }

  /** `dasa.c` lines 91-101: walk the cursor, then `list_add` after it. */
  method InsertByDeadline(schedule: seq<Task>, it: Task) returns (r: seq<Task>, pos: nat)
    ensures pos == SchedulePos(schedule, it.deadline)
    ensures r == ScheduleInsert(schedule, it)
  {
    var t1 := it.deadline;
    var i := 0;
    while i < |schedule|
      invariant 0 <= i <= |schedule|
      invariant forall k :: 0 <= k < i ==> !EarlierDeadline(schedule[k].deadline, t1)
    {
      if EarlierDeadline(schedule[i].deadline, t1) {
        break;
      }
      i := i + 1;
    }
    SchedulePosSpec(schedule, t1, i);
    r, pos := schedule[..i] + [it] + schedule[i..], i;
  }

  // ---------------------------------------------------------------------
  // Admission

  /** One offer: insert `t`, and undo the insertion if the result is infeasible. */
  function AdmitStep(now: Timespec, s: seq<Task>, t: Task): seq<Task>
  {
    var s' := ScheduleInsert(s, t);
    if Feasible(now, s') then s' else s
  }

  /** The schedule list after every task of `d` has been offered, in order. */
  function Admitted(now: Timespec, d: seq<Task>): seq<Task>
  {
    if d == [] then [] else AdmitStep(now, Admitted(now, d[..|d| - 1]), d[|d| - 1])
  }

  /** The schedule list only ever holds tasks offered to it. */
  lemma {:induction false} AdmittedFromOffers(now: Timespec, d: seq<Task>)
    ensures multiset(Admitted(now, d)) <= multiset(d)
    decreases |d|
  {
    if d != [] {
      var init, t := d[..|d| - 1], d[|d| - 1];
      AdmittedFromOffers(now, init);
      AdmitStepKeepsAccepted(now, Admitted(now, init), t);
      assert d == init + [t];
    }
  }

  /** After every offer the schedule list is feasible and deadline-ordered. */
  lemma {:induction false} AdmittedFeasibleOrdered(now: Timespec, d: seq<Task>)
    ensures Feasible(now, Admitted(now, d))
    ensures NonIncreasingDeadlines(Admitted(now, d))
    decreases |d|
  {
    if d != [] {
      var s := Admitted(now, d[..|d| - 1]);
      AdmittedFeasibleOrdered(now, d[..|d| - 1]);
      ScheduleInsertOrdered(s, d[|d| - 1]);
    }
  }

  /**
   * An offer never removes a task accepted earlier: either the schedule is
   * unchanged (rejected) or it gains exactly the offered task (accepted).
   */
  lemma AdmitStepKeepsAccepted(now: Timespec, s: seq<Task>, t: Task)
    ensures var s' := AdmitStep(now, s, t);
      s' == s || multiset(s') == multiset(s) + multiset{t}
    ensures AdmitStep(now, s, t) == s <==> !Feasible(now, ScheduleInsert(s, t))
  {
    InsertAtContents(s, t, SchedulePos(s, t.deadline));
  }

  /** A task accepted by some offer is still in the schedule after every later offer. */
  lemma {:induction false} AdmittedMonotone(now: Timespec, d: seq<Task>, j: nat, k: nat)
    requires j <= k <= |d|
    ensures multiset(Admitted(now, d[..j])) <= multiset(Admitted(now, d[..k]))
    decreases k - j
  {
    if j < k {
      var first, last := multiset(Admitted(now, d[..j])), multiset(Admitted(now, d[..k]));
      var mid := multiset(Admitted(now, d[..k - 1]));
      AdmittedMonotone(now, d, j, k - 1);
      AdmittedGrows(now, d, k);
      assert first <= mid <= last;
    }
  }

  /** One more offer never removes a task from the schedule list. */
  lemma AdmittedGrows(now: Timespec, d: seq<Task>, j: nat)
    requires 0 < j <= |d|
    ensures multiset(Admitted(now, d[..j - 1])) <= multiset(Admitted(now, d[..j]))
  {
    var before, t := Admitted(now, d[..j - 1]), d[j - 1];
    AdmittedStep(now, d, j - 1);
    AdmitStepKeepsAccepted(now, before, t);
  }

  // ---------------------------------------------------------------------
  // The scheduling decision

  /**
   * The task `sched_dasa_nd` (dasa.c) returns for a non-empty ready list: the
   * first failing task if there is one; otherwise the head of the schedule
   * list, or the head of the density list when no task could be admitted.
   * Either way it is a ready task.
   */
  function DasaPick(ready: seq<Task>, failing: set<Task>, now: Timespec): (r: Task)
    requires |ready| > 0
    ensures r in ready
  {
    var k := FirstFailing(ready, failing);
    if k < |ready| then ready[k]
    else
      var d := DensityOf(ready);
      var s := Admitted(now, d);
      DensityOfSortedPermutation(ready);
      AdmittedFromOffers(now, d);
      assert |d| == |multiset(d)| == |ready|;
      assert d[0] in multiset(ready);
      assert s != [] ==> s[0] in multiset(d);
      if s != [] then s[0] else d[0]
  }

  /**
   * When no ready task is failing, the decision is the head of a feasible,
   * deadline-ordered schedule drawn from the density list, or the head of the
   * density list (the ready tasks sorted by ivd) when that schedule is empty.
   */
  lemma DasaPickAdmitted(ready: seq<Task>, failing: set<Task>, now: Timespec)
    requires |ready| > 0
    requires forall t :: t in ready ==> t !in failing
    ensures var d := DensityOf(ready); var s := Admitted(now, d);
      && SortedByIvd(d) && multiset(d) == multiset(ready)
      && Feasible(now, s) && NonIncreasingDeadlines(s)
      && DasaPick(ready, failing, now) == (if s != [] then s[0] else d[0])
  {
    DensityOfSortedPermutation(ready);
    AdmittedFeasibleOrdered(now, DensityOf(ready));
  }

  /** A failing task short-circuits: the first one in ready order is returned. */
  lemma DasaPickFailing(ready: seq<Task>, failing: set<Task>, now: Timespec, k: nat)
    requires k < |ready| && ready[k] in failing
    requires forall j :: 0 <= j < k ==> ready[j] !in failing
    ensures DasaPick(ready, failing, now) == ready[k]
  {
    var f := FirstFailing(ready, failing);
    assert f <= k;
  }

  lemma DensityOfStep(s: seq<Task>, i: nat)
    requires i < |s|
    ensures DensityOf(s[..i + 1]) == DensityInsert(DensityOf(s[..i]), s[i])
  {
    assert s[..i + 1][..i] == s[..i];
  }

  lemma AdmittedStep(now: Timespec, d: seq<Task>, j: nat)
    requires j < |d|
    ensures Admitted(now, d[..j + 1]) == AdmitStep(now, Admitted(now, d[..j]), d[j])
  {
    assert d[..j + 1][..j] == d[..j];
  }

  /**
   * dasa.c lines 88-107: offer each task, in density order, to the schedule,
   * and remove it again when `schedule_feasible` rejects the result.
   */
  method OfferAll(density: seq<Task>, now: Timespec) returns (schedule: seq<Task>)
    ensures schedule == Admitted(now, density)
  {
    schedule := [];
    var j := 0;
    while j < |density|
      invariant 0 <= j <= |density|
      invariant schedule == Admitted(now, density[..j])
    {
      var it := density[j];
      AdmittedStep(now, density, j);
      InsertAtContents(schedule, it, SchedulePos(schedule, it.deadline));
      var pos;
      schedule, pos := InsertByDeadline(schedule, it);
      var ok := ScheduleFeasible(schedule, now);
      if !ok {
        schedule := schedule[..pos] + schedule[pos + 1..];
      }
      j := j + 1;
    }
    assert density[..j] == density;
  }

  /** `sched_dasa_nd` of dasa.c. */
  method SchedDasaNd(ready: seq<Task>, failing: set<Task>, now: Timespec) returns (r: Task)
    requires |ready| > 0
    ensures r == DasaPick(ready, failing, now)
  {
    // Pass 1: failure short-circuit and density list.
    var density: seq<Task> := [];
    var i := 0;
    while i < |ready|
      invariant 0 <= i <= |ready|
      invariant forall j :: 0 <= j < i ==> ready[j] !in failing
      invariant density == DensityOf(ready[..i])
    {
      var it := ready[i];
      if it in failing {
        DasaPickFailing(ready, failing, now, i);
        return it;
      }
      DensityOfStep(ready, i);
      density := InsertByDensity(density, it);
      i := i + 1;
    }
    assert ready[..i] == ready;

    // Pass 2: offer each task, by density, to the schedule.
    var schedule := OfferAll(density, now);

    DasaPickAdmitted(ready, failing, now);
    if schedule == [] {
      r := density[0];
    } else {
      r := schedule[0];
    }
  }
}
