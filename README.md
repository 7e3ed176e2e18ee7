# ChronOS single-core schedulers in Dafny

This project models the decision logic of four single-core real-time
schedulers of ChronOS. Each scheduler is called once per scheduling decision
with the ready list of tasks and returns the task that should run next.

- **DASA-ND, hand-written version (`dasa.c`).** Pass 1 returns the first failing task, if
  any. Otherwise it builds a *density list* by stable ascending insertion on
  the inverse value density (`local_ivd`). Pass 2 offers each task, in density
  order, to a *schedule list* ordered by deadline. After each insertion it runs
  the sequential feasibility test `schedule_feasible`, and it undoes the
  insertion when the test fails. The decision is the head of the schedule
  list, or the head of the density list when the schedule list is empty.
- **DASA-ND, library variant (`dasa-nd.c`).**
  - Pass 1 finds the first ready task that is either already aborted or past
    its deadline, whichever comes first in the ready list. It returns that
    task, aborting it first when its deadline has passed.
  - It then sorts the density list with `quicksort` and offers the tasks to
    the schedule list with `insert_on_list` (ascending deadline) and
    `list_is_feasible`.
  - The decision is the head of the schedule list, or the first ready task
    when the schedule list is empty.
- **EDF (`edf.c`).** It returns the first ready task with the earliest deadline,
  comparing deadlines by their seconds difference as a C `int`.
- **ICPP (`icpp.c`).**
  - It gives a task whose `dynamic_priority` is 0 a priority derived from its
    period.
  - It walks the ready list with a ceiling `csstar`, which starts at
    `ULONG_MAX`. A task whose priority is below the ceiling becomes `best`. If
    that task holds a lock, the ceiling drops to its priority.
  - It returns `best`, or the first ready task when no task qualified.

Modules:

- `Timespecs`: `struct timespec` values, with the assumed meanings of
  `earlier_deadline` (strict lexicographic order) and `add_ts` (normalising
  sum), related to a nanosecond count.
- `Tasks`: the task record (`struct rt_info`) as a class.
  - The timing attributes are `const`. `livd` and `update_left` do write
    `local_ivd` and `left` during pass 1. The model takes the values they write
    as fixed before they are read.
  - `dynamicPriority` (an `unsigned long`) and `aborted` are the fields the
    schedulers update.
- `Feasibility`: `schedule_feasible`, meaning the tasks of a list run back to
  back from "now" and each finishes no later than its deadline.
- `Dasa`, `DasaNd`, `Edf`, `Icpp`: the four schedulers. Each one is a method
  that follows the C loops.
  - The two DASA-ND methods and the ICPP method are proved equal to a functional
    specification, whose properties are proved as lemmas.
  - `Edf.SchedEdf` states its property directly in its postcondition: it
    returns the first ready task with the earliest deadline.
- `Findings`: the ordering discrepancy described under "## Findings".

Modelling choices:

- The clock (`CURRENT_TIME`, `current_kernel_time()`) is read once and passed
  as the parameter `now`.
- `check_task_failure` is an oracle, modelled as the set `failing` of tasks
  it reports.
- `timespec_to_long` is the function parameter `toLong`.
- `livd` and `update_left` write `local_ivd` and `left` before those are read.
  The model takes the values they write as the tasks' `localIvd` and `left`.
- The intrusive kernel lists become sequences.
  - `list_add` after the cursor is an insertion at an index.
  - `list_remove` of the task just inserted deletes that index again.

Two behaviours of the code are easy to misread:

- In ICPP each task's priority is compared against the ceiling `csstar`,
  not against `best` (icpp.c:49). So `best` is the last task whose priority
  was below the ceiling when it was visited, which need not be the task with
  the smallest priority. `Icpp.NotARunningMinimum` gives an example.
- The schedule list built by the hand-written pass 2 of `dasa.c` is kept in
  non-increasing deadline order, although the comment at dasa.c:89 says it
  is sorted by deadline (see "## Findings").

## Model

| member | source | states |
|---|---|---|
| Timespecs.FromNanos | dasa.c:21 | turns a nanosecond count into a normalised timespec that denotes exactly that count |
| Timespecs.AddTs | dasa.c:21 | `add_ts` returns a normalised timespec whose nanosecond count is the sum of its operands' counts |
| Timespecs.EarlierIffFewerNanos | dasa.c:22 | on normalised timespecs, `earlier_deadline` holds exactly when the first denotes fewer nanoseconds |
| Timespecs.EarlierIsStrictTotalOrder | dasa.c:94-97 | `earlier_deadline` is irreflexive and transitive, and any two distinct timespecs are comparable |
| Feasibility.ScheduleFeasible | dasa.c:17-25 | the loop returns 1 exactly when no task's deadline is earlier than the accumulated finish time after it, starting from now |
| Feasibility.ElapsedNanos | dasa.c:19-21 | the finish time accumulated through a list is now plus the sum of the tasks' remaining times |
| Feasibility.FeasibleIffDeadlinesMet | dasa.c:17-25 | with normalised deadlines, a list is feasible iff for every prefix now + total remaining time <= the last task's deadline |
| Feasibility.EmptyFeasible | dasa.c:20-24 | the empty schedule is feasible |
| Feasibility.FeasiblePrefix | dasa.c:20-23 | every prefix of a feasible list is feasible |
| Dasa.FirstFailing | dasa.c:50-52 | the index of the first ready task reported failing, with no failing task before it, or the list length when none fails |
| Dasa.InsertAtContents | dasa.c:101-106 | inserting a task adds exactly that task to the contents, and removing it at the same position restores the list |
| Dasa.DensityPosSpec | dasa.c:68-77 | the cursor stops after every entry with ivd <= the new one and before the first larger one, and that position is unique |
| Dasa.DensityInsertSorted | dasa.c:68-78 | the density insertion keeps ascending ivd order, adds exactly the new task, and places it after all entries of equal ivd (stable) |
| Dasa.DensityOfSortedPermutation | dasa.c:50-80 | the density list built from the ready list is sorted by ivd and a permutation of the ready list |
| Dasa.InsertByDensity | dasa.c:68-78 | the cursor loop and `list_add` produce the density insertion |
| Dasa.SchedulePosSpec | dasa.c:91-100 | the schedule cursor stops before the first entry with a strictly earlier deadline than the new task and after no such entry, and that position is unique |
| Dasa.ScheduleInsertOrdered | dasa.c:91-101 | the schedule insertion keeps non-increasing deadline order, adds exactly the new task at the cursor, and removing it there restores the list |
| Dasa.InsertByDeadline | dasa.c:91-101 | the cursor loop returns the insertion position and the list after `list_add` |
| Dasa.AdmitStepKeepsAccepted | dasa.c:101-106 | one offer either leaves the schedule unchanged or adds exactly the offered task, and it leaves it unchanged exactly when the tentative schedule is infeasible |
| Dasa.AdmittedFromOffers | dasa.c:88-107 | the schedule list holds only tasks offered to it |
| Dasa.AdmittedFeasibleOrdered | dasa.c:88-107 | after any number of offers the schedule list is feasible and in non-increasing deadline order |
| Dasa.AdmittedGrows | dasa.c:101-106 | one more offer never removes a task from the schedule list |
| Dasa.AdmittedMonotone | dasa.c:88-107 | a task accepted by an earlier offer is still in the schedule after every later offer |
| Dasa.DasaPick | dasa.c:50-121 | the decision for a non-empty ready list is one of the ready tasks |
| Dasa.DasaPickAdmitted | dasa.c:82-121 | with no failing task, the decision is the head of a feasible schedule drawn from the sorted permutation of the ready list, or the density list's head when the schedule is empty |
| Dasa.DasaPickFailing | dasa.c:50-52 | the first failing ready task is returned |
| Dasa.OfferAll | dasa.c:88-107 | the offer loop with its undo yields the specified schedule list |
| Dasa.SchedDasaNd | dasa.c:27-123 | the two passes return exactly the specified decision |
| DasaNd.AscendingPosSpec | dasa-nd.c:75 | `insert_on_list` places a task after every entry whose deadline is not later and before the first later one, and that position is unique |
| DasaNd.AscendingInsertOrdered | dasa-nd.c:75 | the insertion keeps ascending deadline order, adds exactly the new task with no later-deadline entry before it, and removing it restores the list |
| DasaNd.InsertOnList | dasa-nd.c:75 | returns the insertion position and the list after the ascending insertion |
| DasaNd.Quicksort | dasa-nd.c:67-70 | the density list becomes a permutation of itself sorted by ascending ivd |
| DasaNd.ListIsFeasible | dasa-nd.c:79 | `list_is_feasible` answers the sequential feasibility test |
| DasaNd.AbortThread | dasa-nd.c:45 | `abort_thread` sets the task's aborted flag and leaves its priority unchanged |
| DasaNd.AdmitStepKeepsAccepted | dasa-nd.c:75-80 | one offer leaves the schedule unchanged or adds exactly the offered task, and leaves it unchanged exactly when the tentative schedule is infeasible |
| DasaNd.AdmittedFromOffers | dasa-nd.c:72-81 | the schedule list holds only tasks offered to it |
| DasaNd.AdmittedFeasibleOrdered | dasa-nd.c:72-81 | after any number of offers the schedule list is feasible and in ascending deadline order |
| DasaNd.AdmittedGrows | dasa-nd.c:75-80 | one more offer never removes a task from the schedule list |
| DasaNd.AdmittedMonotone | dasa-nd.c:72-81 | a task accepted by an earlier offer is still in the schedule after every later offer |
| DasaNd.FirstStopSpec | dasa-nd.c:36-47 | the first ready task that is aborted or whose deadline is before now is found, and every task before it is neither |
| DasaNd.NdPick | dasa-nd.c:83-88 | the decision without a short-circuit is a ready task |
| DasaNd.NdPickSpec | dasa-nd.c:72-88 | without a short-circuit, the decision is the head of a feasible, ascending-deadline schedule drawn from the density list, or the first ready task when the schedule is empty |
| DasaNd.OfferAll | dasa-nd.c:72-81 | the offer loop with its undo yields the specified schedule list |
| DasaNd.SchedDasaNd | dasa-nd.c:17-90 | returns (and marks aborted) the first aborted or late ready task. No other task's flag and no priority changes. Otherwise it returns the decision for some ivd-sorted permutation of the ready list |
| Edf.Int32 | edf.c:24-27 | the seconds difference wraps into the C `int` range: the result is in range, congruent to the difference modulo 2^32, and unchanged when the difference fits |
| Edf.ReplacesIsEarlier | edf.c:27-30 | when the seconds difference fits an `int`, the replacement test is exactly `earlier_deadline` |
| Edf.SchedEdf | edf.c:17-37 | returns a ready task that no ready task's deadline precedes, and every task before it has a strictly later deadline (the first earliest) |
| Icpp.CeilingNonIncreasing | icpp.c:40-51 | the ceiling starts at `ULONG_MAX` and only decreases along the walk |
| Icpp.CeilingFromLockHolder | icpp.c:49-51 | the ceiling is `ULONG_MAX` or the priority of an earlier lock-holding task that qualified when visited |
| Icpp.LastQualifyingSpec | icpp.c:49-55 | `best` is the last visited task whose priority was below the ceiling at its visit, or none |
| Icpp.NoLocksNoCeiling | icpp.c:49-51 | with no locks held the ceiling stays `ULONG_MAX` |
| Icpp.NoLocksPicksLastBelowMax | icpp.c:43-74 | with no locks held the pick is the last task with priority below `ULONG_MAX`, or the first task when none is |
| Icpp.IcppPickSpec | icpp.c:41-74 | the pick is the last qualifying task when one exists, and the first ready task otherwise |
| Icpp.NotARunningMinimum | icpp.c:49-55 | for priorities [1, 5] and no locks the pick is the task with priority 5 |
| Icpp.SchedIcpp | icpp.c:30-75 | every task's priority that was 0 becomes `timespec_to_long` of its period and every other priority is kept (icpp.c:44-45). No abort flag changes. The returned task is the specified pick over the initialised priorities |
| Findings.DescendingOrderDropsFeasibleTask | dasa.c:91-106 | for two tasks whose ascending-deadline order is feasible, the as-written schedule rejects the earlier-deadline task and returns the other |
| Findings.ExampleFeasibility | dasa.c:17-25 | at time 0 the two example tasks are feasible in ascending deadline order and infeasible in descending order |
| Findings.AscendingOrderAdmitsBoth | dasa-nd.c:72-88 | on the same tasks the ascending insertion admits both and returns the earlier-deadline task |
| Findings.CorrectedDasaPick | dasa.c:50-121 | the corrected decision (ascending schedule list) is a ready task |
| Findings.CorrectedDasaPickAdmitted | dasa.c:82-121 | with no failing task, the corrected decision is the head of a feasible ascending-deadline schedule of ready tasks, or the density head |
| Findings.CorrectedOrderPicksEarliest | dasa.c:91-106 | on the two example tasks the corrected decision returns the earlier-deadline task |

## Left out

- Module registration and teardown (`struct rt_sched_local`, `module_init`, `module_exit`) are not modelled because they hold no decision logic.
- The `flags` argument is not modelled. It is only handed on to oracles.
- `printk` and the commented-out code in `edf.c` and `icpp.c` are not modelled. This covers priority inheritance, `list_sort` and the dynamic schedule.
- `lbesa.c` is not modelled. No file of this scheduler set walks dependency chains, and none is modelled.
- `check_task_failure`, `check_task_aborted`, `livd`, `update_left`, `timespec_to_long`, `add_ts` and `earlier_deadline` are oracles. `add_ts` is assumed to return the normalised sum of its operands. `earlier_deadline` is taken as strict "a before b" on (sec, nsec), which is how dasa.c:22 and dasa-nd.c:43 use it. Their results are parameters or task fields, and their side effects are not modelled.
- `abort_thread` only sets the aborted flag. Signalling the thread is not modelled.
- `initialize_lists` is not modelled; each working list starts empty. `list_add_after` in dasa-nd.c is modelled as appending in ready order.
- The clock is read once per decision.
  - `schedule_feasible` in `dasa.c` re-reads `CURRENT_TIME` on every call (dasa.c:19).
  - `dasa-nd.c` reads `current_kernel_time()` once per task.
  - The model uses one value `now` for all of these, so `Dasa.AdmittedFeasibleOrdered`, `Dasa.DasaPickAdmitted` and their dasa-nd.c counterparts assume every feasibility test and deadline check happens at one instant.
- The intrusive list nodes are modelled by position. Aliasing between the per-list nodes of one task is not represented.
- DasaNd.InsertOnList: the body of `insert_on_list` is not part of this model, and the meaning of its last argument (`1`) is not known. A task is assumed to go after the entries with an equal deadline. `NdPick`, `OfferAll` and the decision stated by `DasaNd.SchedDasaNd` depend on this tie rule. For two tasks with the same deadline that fit together, the task offered first heads the schedule and is returned. An insertion that put ties first would return the other.
- DasaNd.Quicksort: the body of `quicksort` is not part of this model. The method states only the sorted-permutation contract and meets it by insertion sort, so ties among equal ivds may be ordered differently.
- DasaNd.ListIsFeasible: the body of `list_is_feasible` is not part of this model. It is taken to be the same sequential test as `schedule_feasible` in `dasa.c`.
- DasaNd.SchedDasaNd: the density order is fixed only up to the `quicksort` contract, so the decision is stated for some ivd-sorted permutation of the ready list.
- Edf.SchedEdf: requires every seconds difference between two ready deadlines to fit in a C `int`. Outside that range the truncated `int` subtraction can pick a task that is not earliest, and that is not modelled.
- Dasa.SchedDasaNd, DasaNd.SchedDasaNd, Edf.SchedEdf, Icpp.SchedIcpp: each requires a non-empty ready list. On an empty list the C code returns `list_first_entry` of a bare list head, which is not a task; in `dasa.c` it is the address of the returning frame's local `density_list`. The model does not describe that result.
- Icpp.SchedIcpp: requires the ready list to hold each task once. This is always true of an intrusive kernel list.
- `task_cmp_by_dynamic_priority` is referenced only by commented-out code and is not modelled.

## Findings

| source | as written | input that shows it | evidently intended | confidence | as-written member | corrected member |
|---|---|---|---|---|---|---|
| dasa.c:91-101 | the pass-2 cursor stops before the first entry with a strictly earlier deadline, so the schedule list is in non-increasing deadline order and feasibility is tested on the latest deadline first | now = 0; a: deadline 10 s, left 2 s, ivd 1; b: deadline 4 s, left 3 s, ivd 2. The order [b, a] is feasible, but [a, b] is tried, b is rejected and a is returned | the schedule list is sorted by ascending deadline, as the comment at dasa.c:89 says and as the model assumes of `insert_on_list` in dasa-nd.c, so both tasks are admitted and b is returned | medium, not executed | Findings.DescendingOrderDropsFeasibleTask | Findings.CorrectedDasaPickAdmitted |
