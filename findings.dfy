/**
 * The schedule-list insertion of dasa.c keeps deadlines in non-increasing
 * order, although the comment at dasa.c:89 says the list is sorted by
 * deadline. Two tasks that fit one after the other in ascending order are
 * then tried in the opposite order: the later-deadline task goes first and pushes the other
 * past its deadline, so the second task is rejected. The ascending insertion
 * the model assumes of `insert_on_list` in dasa-nd.c admits both.
 */
module Findings {
  import opened Timespecs
  import opened Tasks
  import opened Feasibility
  import Dasa
  import DasaNd

  /**
   * Two tasks, `a` (deadline 10 s, 2 s left, more valuable) and `b`
   * (deadline 4 s, 3 s left), scheduled at time 0. The ascending order
   * [b, a] is feasible, but dasa.c tries [a, b], rejects `b` and returns `a`.
   */
  lemma DescendingOrderDropsFeasibleTask(a: Task, b: Task)
    requires a.deadline == Timespec(10, 0) && a.left == Timespec(2, 0) && a.localIvd == 1
    requires b.deadline == Timespec(4, 0) && b.left == Timespec(3, 0) && b.localIvd == 2
    ensures Feasible(Timespec(0, 0), [b, a])
    ensures !Feasible(Timespec(0, 0), [a, b])
    ensures Dasa.Admitted(Timespec(0, 0), [a, b]) == [a]
    ensures Dasa.DasaPick([a, b], {}, Timespec(0, 0)) == a
  {
    var now := Timespec(0, 0);
    ExampleFeasibility(a, b);
    assert Dasa.DensityOf([a, b]) == [a, b] by {
      assert [a, b][..1] == [a];
      assert [a][..0] == [];
      assert Dasa.DensityOf([a]) == [a];
    }
    assert Dasa.Admitted(now, [a]) == [a] by {
      assert [a][..0] == [];
      assert Dasa.ScheduleInsert([], a) == [a];
    }
    assert Dasa.ScheduleInsert([a], b) == [a, b];
    assert [a, b][..1] == [a];
    assert Dasa.Admitted(now, [a, b]) == Dasa.AdmitStep(now, [a], b);
    assert Dasa.FirstFailing([a, b], {}) == 2;
  }

  /** The sequential feasibility test on the two example tasks at time 0. */
  lemma ExampleFeasibility(a: Task, b: Task)
    requires a.deadline == Timespec(10, 0) && a.left == Timespec(2, 0)
    requires b.deadline == Timespec(4, 0) && b.left == Timespec(3, 0)
    ensures Feasible(Timespec(0, 0), [a])
    ensures Feasible(Timespec(0, 0), [b, a])
    ensures !Feasible(Timespec(0, 0), [a, b])
  {
    var now := Timespec(0, 0);
    assert Elapsed(now, [a]) == Timespec(2, 0) by {
      assert [a][..0] == [];
    }
    assert Elapsed(now, [b]) == Timespec(3, 0) by {
      assert [b][..0] == [];
    }
    assert Elapsed(now, [b, a]) == Timespec(5, 0) by {
      assert [b, a][..1] == [b];
    }
    assert Elapsed(now, [a, b]) == Timespec(5, 0) by {
      assert [a, b][..1] == [a];
    }
    assert [a][..1] == [a];
    assert [b, a][..1] == [b] && [b, a][..2] == [b, a];
    assert [a, b][..2] == [a, b];
  }

  /**
   * On the same two tasks the ascending insertion of dasa-nd.c, offering
   * them in density order, admits both and returns `b`.
   */
  lemma AscendingOrderAdmitsBoth(a: Task, b: Task)
    requires a.deadline == Timespec(10, 0) && a.left == Timespec(2, 0) && a.localIvd == 1
    requires b.deadline == Timespec(4, 0) && b.left == Timespec(3, 0) && b.localIvd == 2
    ensures DasaNd.Admitted(Timespec(0, 0), [a, b]) == [b, a]
    ensures DasaNd.NdPick([a, b], [a, b], Timespec(0, 0)) == b
  {
    var now := Timespec(0, 0);
    assert Feasible(now, [b, a]) by {
      DescendingOrderDropsFeasibleTask(a, b);
    }
    assert DasaNd.Admitted(now, [a]) == [a] by {
      assert [a][..0] == [];
      assert DasaNd.AscendingPos([], a.deadline) == 0;
      assert DasaNd.AscendingInsert([], a) == [a];
      assert Feasible(now, [a]) by {
        assert [a][..1] == [a];
        assert Elapsed(now, [a]) == Timespec(2, 0);
      }
    }
    assert DasaNd.AscendingPos([a], b.deadline) == 0;
    assert DasaNd.AscendingInsert([a], b) == [b, a];
    assert [a, b][..1] == [a];
    assert DasaNd.Admitted(now, [a, b]) == DasaNd.AdmitStep(now, [a], b);
  }

  /**
   * The decision of dasa.c with the schedule list kept in ascending deadline
   * order, as its own comment at dasa.c:89 says and as the model assumes of
   * `insert_on_list` in dasa-nd.c:
   * the failure short-circuit and the density list are unchanged.
   */
  function CorrectedDasaPick(ready: seq<Task>, failing: set<Task>, now: Timespec): (r: Task)
    requires |ready| > 0
    ensures r in ready
  {
    var k := Dasa.FirstFailing(ready, failing);
    if k < |ready| then ready[k]
    else
      var d := Dasa.DensityOf(ready);
      var s := DasaNd.Admitted(now, d);
      Dasa.DensityOfSortedPermutation(ready);
      DasaNd.AdmittedFromOffers(now, d);
      assert |d| == |multiset(d)| == |ready|;
      assert d[0] in multiset(ready);
      assert s != [] ==> s[0] in multiset(d);
      if s != [] then s[0] else d[0]
  }

  /**
   * With no failing task, the corrected decision is the head of a feasible
   * schedule in ascending deadline order drawn from the ready tasks, or the
   * head of the density list when that schedule is empty.
   */
  lemma CorrectedDasaPickAdmitted(ready: seq<Task>, failing: set<Task>, now: Timespec)
    requires |ready| > 0
    requires forall t :: t in ready ==> t !in failing
    ensures var d := Dasa.DensityOf(ready); var s := DasaNd.Admitted(now, d);
      && Feasible(now, s) && DasaNd.AscendingDeadlines(s)
      && multiset(s) <= multiset(ready)
      && CorrectedDasaPick(ready, failing, now) == (if s != [] then s[0] else d[0])
  {
    var d := Dasa.DensityOf(ready);
    Dasa.DensityOfSortedPermutation(ready);
    DasaNd.AdmittedFeasibleOrdered(now, d);
    DasaNd.AdmittedFromOffers(now, d);
  }

  /** On the two tasks above the corrected decision admits both and returns `b`. */
  lemma CorrectedOrderPicksEarliest(a: Task, b: Task)
    requires a.deadline == Timespec(10, 0) && a.left == Timespec(2, 0) && a.localIvd == 1
    requires b.deadline == Timespec(4, 0) && b.left == Timespec(3, 0) && b.localIvd == 2
    ensures CorrectedDasaPick([a, b], {}, Timespec(0, 0)) == b
  {
    assert Dasa.DensityOf([a, b]) == [a, b] by {
      assert [a, b][..1] == [a];
      assert [a][..0] == [];
      assert Dasa.DensityOf([a]) == [a];
    }
    AscendingOrderAdmitsBoth(a, b);
    assert Dasa.FirstFailing([a, b], {}) == 2;
  }
}
