/**
 * The library-helper DASA-ND scheduler of dasa-nd.c (`sched_dasa_nd`). It
 * returns an aborted task, or aborts and returns a task whose deadline has
 * already passed; otherwise it sorts the ready tasks by inverse value density,
 * offers them in that order to a schedule list kept in ascending deadline
 * order, keeps an offer only if the schedule stays feasible, and picks the
 * schedule's head (or the first ready task if nothing was admitted).
 *
 * The helpers `quicksort`, `insert_on_list` and `list_is_feasible` are not
 * part of this model; each is given the contract its use here relies on, with
 * a body that meets it.
 */
module DasaNd {
  import opened Timespecs
  import opened Tasks
  import opened Feasibility
  import Dasa

  // ---------------------------------------------------------------------
  // `insert_on_list(it, &schedule, SCHEDULE_LIST, SORT_KEY_DEADLINE, 1)`

  /** Each entry's deadline is no later than that of any entry after it. */
  predicate AscendingDeadlines(s: seq<Task>)
  {
    forall i, j :: 0 <= i < j < |s| ==> !EarlierDeadline(s[j].deadline, s[i].deadline)
  }

  /** Insertion point: before the first entry whose deadline is strictly later than `d`. */
  function AscendingPos(s: seq<Task>, d: Timespec): (p: nat)
    ensures p <= |s|
  {
    if s == [] then 0
    else if EarlierDeadline(d, s[0].deadline) then 0
    else 1 + AscendingPos(s[1..], d)
  }

  lemma {:induction false} AscendingPosSpec(s: seq<Task>, d: Timespec, q: nat)
    ensures var p := AscendingPos(s, d);
      && (forall i :: 0 <= i < p ==> !EarlierDeadline(d, s[i].deadline))
      && (p < |s| ==> EarlierDeadline(d, s[p].deadline))
    ensures (&& q <= |s|
             && (forall i :: 0 <= i < q ==> !EarlierDeadline(d, s[i].deadline))
             && (q < |s| ==> EarlierDeadline(d, s[q].deadline)))
            ==> q == AscendingPos(s, d)
    decreases |s|
  {
    if s != [] && !EarlierDeadline(d, s[0].deadline) {
      AscendingPosSpec(s[1..], d, if q == 0 then 0 else q - 1);
    }
  }

  function AscendingInsert(s: seq<Task>, t: Task): seq<Task>
  {
    var p := AscendingPos(s, t.deadline);
    s[..p] + [t] + s[p..]
  }

  /** Every entry from the insertion point on has a deadline no earlier than `t`'s. */
  lemma NotEarlierThanLater(s: seq<Task>, t: Task, k: int)
    requires AscendingDeadlines(s)
    requires AscendingPos(s, t.deadline) <= k < |s|
    ensures !EarlierDeadline(s[k].deadline, t.deadline)
  {
    var p := AscendingPos(s, t.deadline);
    AscendingPosSpec(s, t.deadline, 0);
    if p < k {
      assert !EarlierDeadline(s[k].deadline, s[p].deadline);
    }
  }

  lemma AscendingInsertOrder(s: seq<Task>, t: Task)
    requires AscendingDeadlines(s)
    ensures AscendingDeadlines(AscendingInsert(s, t))
  {
    var p := AscendingPos(s, t.deadline);
    var r := AscendingInsert(s, t);
    var dt := t.deadline;
    Dasa.InsertAt(s, t, p);
    AscendingPosSpec(s, dt, 0);
    forall i, j | 0 <= i < j < |r|
      ensures !EarlierDeadline(r[j].deadline, r[i].deadline)
    {
      if j < p {
        assert r[i] == s[i] && r[j] == s[j];
      } else if j == p {
        assert r[i] == s[i];
      } else if i > p {
        assert r[i] == s[i - 1] && r[j] == s[j - 1];
      } else {
        assert r[j] == s[j - 1];
        NotEarlierThanLater(s, t, j - 1);
        if i < p {
          assert r[i] == s[i];
          Dasa.NotEarlierTransitive(r[j].deadline, dt, r[i].deadline);
        }
      }
    }
  }

  /**
   * The insertion keeps a schedule in ascending deadline order, adds exactly
   * `t` after every entry with the same deadline, and removing the entry at
   * the insertion point gives `s` back.
   */
  lemma AscendingInsertOrdered(s: seq<Task>, t: Task)
    requires AscendingDeadlines(s)
    ensures var r := AscendingInsert(s, t); var p := AscendingPos(s, t.deadline);
      && AscendingDeadlines(r)
      && multiset(r) == multiset(s) + multiset{t}
      && r[p] == t
      && (forall i :: 0 <= i < p ==> !EarlierDeadline(t.deadline, r[i].deadline))
      && r[..p] + r[p + 1..] == s
  {
    var p := AscendingPos(s, t.deadline);
    Dasa.InsertAt(s, t, p);
    Dasa.InsertAtContents(s, t, p);
    AscendingPosSpec(s, t.deadline, 0);
    AscendingInsertOrder(s, t);
  }

  /**
   * `insert_on_list`: link `it` into the deadline-ordered schedule; `pos` is
   * where it went, which is how the model's `list_remove` finds the node.
   */
  method InsertOnList(schedule: seq<Task>, it: Task) returns (r: seq<Task>, pos: nat)
    ensures pos == AscendingPos(schedule, it.deadline)
    ensures r == AscendingInsert(schedule, it)
  {
    var i := 0;
    while i < |schedule|
      invariant 0 <= i <= |schedule|
      invariant forall k :: 0 <= k < i ==> !EarlierDeadline(it.deadline, schedule[k].deadline)
    {
      if EarlierDeadline(it.deadline, schedule[i].deadline) {
        break;
      }
      i := i + 1;
    }
    AscendingPosSpec(schedule, it.deadline, i);
    r, pos := schedule[..i] + [it] + schedule[i..], i;
  }

  // ---------------------------------------------------------------------
  // `quicksort(&density_list, DENSITY_LIST, SORT_KEY_LVD, 1)`

  /** The contract assumed of `quicksort`: a permutation, ascending by ivd. */
  method Quicksort(d: seq<Task>) returns (r: seq<Task>)
    ensures Dasa.SortedByIvd(r)
    ensures multiset(r) == multiset(d)
  {
    r := [];
    var i := 0;
    while i < |d|
      invariant 0 <= i <= |d|
      invariant Dasa.SortedByIvd(r)
      invariant multiset(r) == multiset(d[..i])
    {
      Dasa.DensityInsertSorted(r, d[i]);
      r := Dasa.InsertByDensity(r, d[i]);
      assert d[..i + 1] == d[..i] + [d[i]];
      i := i + 1;
    }
    assert d[..i] == d;
  }

  // ---------------------------------------------------------------------
  // `list_is_feasible(&schedule, SCHEDULE_LIST)`

  /**
   * The contract assumed of `list_is_feasible`: the same sequential-execution
   * test as `schedule_feasible` in dasa.c.
   */
  method ListIsFeasible(s: seq<Task>, now: Timespec) returns (ok: bool)
    ensures ok == Feasible(now, s)
  {
    ok := ScheduleFeasible(s, now);
  }

  // ---------------------------------------------------------------------
  // Admission

  function AdmitStep(now: Timespec, s: seq<Task>, t: Task): seq<Task>
  {
    var s' := AscendingInsert(s, t);
    if Feasible(now, s') then s' else s
  }

  /** The schedule list after every task of `d` has been offered, in order. */
  function Admitted(now: Timespec, d: seq<Task>): seq<Task>
  {
    if d == [] then [] else AdmitStep(now, Admitted(now, d[..|d| - 1]), d[|d| - 1])
  }

  /**
   * An offer is undone exactly when the enlarged schedule is infeasible, and
   * it never removes a task accepted before.
   */
  lemma AdmitStepKeepsAccepted(now: Timespec, s: seq<Task>, t: Task)
    ensures var s' := AdmitStep(now, s, t);
      s' == s || multiset(s') == multiset(s) + multiset{t}
    ensures AdmitStep(now, s, t) == s <==> !Feasible(now, AscendingInsert(s, t))
  {
    Dasa.InsertAtContents(s, t, AscendingPos(s, t.deadline));
  }

  /** The schedule list only ever holds tasks offered to it. */
  lemma {:induction false} AdmittedFromOffers(now: Timespec, d: seq<Task>)
    ensures multiset(Admitted(now, d)) <= multiset(d)
    decreases |d|
  {
    if d != [] {
      var init, t := d[..|d| - 1], d[|d| - 1];
      AdmittedFromOffers(now, init);
      AdmitStepKeepsAccepted(now, Admitted(now, init), t);
      assert d == init + [t];
    }
  }

  /** After every offer the schedule list is feasible and in ascending deadline order. */
  lemma {:induction false} AdmittedFeasibleOrdered(now: Timespec, d: seq<Task>)
    ensures Feasible(now, Admitted(now, d))
    ensures AscendingDeadlines(Admitted(now, d))
    decreases |d|
  {
    if d != [] {
      var s := Admitted(now, d[..|d| - 1]);
      AdmittedFeasibleOrdered(now, d[..|d| - 1]);
      AscendingInsertOrder(s, d[|d| - 1]);
    }
  }

  lemma AdmittedStep(now: Timespec, d: seq<Task>, j: nat)
    requires j < |d|
    ensures Admitted(now, d[..j + 1]) == AdmitStep(now, Admitted(now, d[..j]), d[j])
  {
    assert d[..j + 1][..j] == d[..j];
  }

  /** A task accepted by some offer is still in the schedule after every later offer. */
  lemma {:induction false} AdmittedMonotone(now: Timespec, d: seq<Task>, j: nat, k: nat)
    requires j <= k <= |d|
    ensures multiset(Admitted(now, d[..j])) <= multiset(Admitted(now, d[..k]))
    decreases k - j
  {
    if j < k {
      var first, last := multiset(Admitted(now, d[..j])), multiset(Admitted(now, d[..k]));
      var mid := multiset(Admitted(now, d[..k - 1]));
      AdmittedMonotone(now, d, j, k - 1);
      AdmittedGrows(now, d, k);
      assert first <= mid <= last;
    }
  }

  /** One more offer never removes a task from the schedule list. */
  lemma AdmittedGrows(now: Timespec, d: seq<Task>, j: nat)
    requires 0 < j <= |d|
    ensures multiset(Admitted(now, d[..j - 1])) <= multiset(Admitted(now, d[..j]))
  {
    var before, t := Admitted(now, d[..j - 1]), d[j - 1];
    AdmittedStep(now, d, j - 1);
    AdmitStepKeepsAccepted(now, before, t);
  }

  // ---------------------------------------------------------------------
  // The scheduling decision

  /** The first ready task that is aborted or has already missed its deadline. */
  function FirstStop(ready: seq<Task>, now: Timespec): (k: nat)
    reads ready
    ensures k <= |ready|
  {
    if ready == [] then 0
    else if ready[0].aborted || EarlierDeadline(ready[0].deadline, now) then 0
    else 1 + FirstStop(ready[1..], now)
  }

  lemma {:induction false} FirstStopSpec(ready: seq<Task>, now: Timespec)
    ensures var k := FirstStop(ready, now);
      && (k < |ready| ==> ready[k].aborted || EarlierDeadline(ready[k].deadline, now))
      && (forall j :: 0 <= j < k ==> !ready[j].aborted && !EarlierDeadline(ready[j].deadline, now))
    decreases |ready|
  {
    if ready != [] && !(ready[0].aborted || EarlierDeadline(ready[0].deadline, now)) {
      FirstStopSpec(ready[1..], now);
    }
  }

  /**
   * The decision when nothing short-circuits, given the density list `d`:
   * the schedule's head, or the first ready task when the schedule is empty.
   */
  function NdPick(ready: seq<Task>, d: seq<Task>, now: Timespec): (r: Task)
    requires |ready| > 0
    requires multiset(d) == multiset(ready)
    ensures r in ready
  {
    var s := Admitted(now, d);
    AdmittedFromOffers(now, d);
    assert s != [] ==> s[0] in multiset(d);
    if s != [] then s[0] else ready[0]
  }

  /**
   * Without a short-circuit the decision is the head of a feasible schedule in
   * ascending deadline order drawn from the density list, or the first ready
   * task (not the density list's head) when nothing was admitted.
   */
  lemma NdPickSpec(ready: seq<Task>, d: seq<Task>, now: Timespec)
    requires |ready| > 0
    requires multiset(d) == multiset(ready)
    ensures var s := Admitted(now, d);
      && Feasible(now, s) && AscendingDeadlines(s) && multiset(s) <= multiset(d)
      && NdPick(ready, d, now) == (if s != [] then s[0] else ready[0])
  {
    AdmittedFeasibleOrdered(now, d);
    AdmittedFromOffers(now, d);
  }

  /** `abort_thread`: only the effect on the aborted flag is modelled. */
  method AbortThread(t: Task)
    modifies t
    ensures t.aborted
    ensures t.dynamicPriority == old(t.dynamicPriority)
  {
    t.aborted := true;
  }

  /**
   * dasa-nd.c lines 72-81: offer each task, in density order, to the
   * schedule, and remove it again when `list_is_feasible` rejects the result.
   */
  method OfferAll(density: seq<Task>, now: Timespec) returns (schedule: seq<Task>)
    ensures schedule == Admitted(now, density)
  {
    schedule := [];
    var j := 0;
    while j < |density|
      invariant 0 <= j <= |density|
      invariant schedule == Admitted(now, density[..j])
    {
      var it := density[j];
      AdmittedStep(now, density, j);
      Dasa.InsertAtContents(schedule, it, AscendingPos(schedule, it.deadline));
      var pos;
      schedule, pos := InsertOnList(schedule, it);
      var ok := ListIsFeasible(schedule, now);
      if !ok {
        schedule := schedule[..pos] + schedule[pos + 1..];
      }
      j := j + 1;
    }
    assert density[..j] == density;
  }

  /** `sched_dasa_nd` of dasa-nd.c. */
  method SchedDasaNd(ready: seq<Task>, now: Timespec) returns (r: Task)
    requires |ready| > 0
    modifies ready
    ensures r in ready && r.aborted == (old(r.aborted) || old(FirstStop(ready, now)) < |ready|)
    ensures forall t :: t in ready && t != r ==> t.aborted == old(t.aborted)
    ensures forall t :: t in ready ==> t.dynamicPriority == old(t.dynamicPriority)
    ensures old(FirstStop(ready, now)) < |ready| ==> r == ready[old(FirstStop(ready, now))]
    ensures old(FirstStop(ready, now)) == |ready| ==>
      exists d :: && Dasa.SortedByIvd(d) && multiset(d) == multiset(ready)
                  && r == NdPick(ready, d, now)
  {
    FirstStopSpec(ready, now);
    var density: seq<Task> := [];
    var i := 0;
    while i < |ready|
      invariant 0 <= i <= |ready|
      invariant forall j :: 0 <= j < i ==> !ready[j].aborted && !EarlierDeadline(ready[j].deadline, now)
      invariant density == ready[..i]
      invariant forall t :: t in ready ==> t.aborted == old(t.aborted) && t.dynamicPriority == old(t.dynamicPriority)
    {
      var it := ready[i];
      if it.aborted {
        return it;
      }
      var t1 := now;
      if EarlierDeadline(it.deadline, t1) {
        AbortThread(it);
        return it;
      }
      density := density + [it];
      i := i + 1;
    }
    assert density == ready;

    density := Quicksort(density);
    var schedule := OfferAll(density, now);

    if schedule != [] {
      r := schedule[0];
    } else {
      r := ready[0];
    }
    assert r == NdPick(ready, density, now);
  }
}
