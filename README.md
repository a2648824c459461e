# (m,k)-firm schedulers of simso: DBP, EDF and RMS

This project models the three scheduling policies for (m,k)-firm real-time tasks in
`simso/schedulers`: `MK_DBP` (Distance-Based Priority), `MK_EDF` (global earliest deadline
first with an (m,k)-aware preemption condition) and `MK_RMS` (rate monotonic; its condition compares periods only and
shares with EDF just the rule that an optional job never preempts a mandatory one). A task with firmness (m,k) must meet at least m deadlines in every k
consecutive jobs. Each job is flagged optional or mandatory. When the engine calls
`schedule(cpu)`, the policy returns one pair `(job, processor)`, or nothing.

Modules:

- `Types` holds the shared vocabulary. It has tasks, jobs, processors and decisions. It has
  the Python values a seed configuration can hold. It has `list.remove` (first occurrence)
  and the ready-list update made by a dispatch.
- `Lex` holds Python's tuple comparison. Keys are sequences of integers and infinities.
  `min` and `max` with a key function return the first extremal element in list order; in
  the model they return its index (`ArgMin`, `ArgMax`).
- `History` holds the DBP outcome windows. It normalises the `initial_k_sequence` seed. It
  builds the initial window of exactly max(1, k) outcomes. It models the bounded
  `deque.append`.
- `Distance` holds the DBP distance: the number of further consecutive misses a task can
  absorb before fewer than m of its last k outcomes are successes. The source's simulation
  loop is proved equal to a closed form: the largest j such that the window's suffix from j
  still holds m successes.
- `Dbp` holds the DBP scheduler. It is a class with the ready list and the dictionary of
  windows. Each method is proved against pure functions of the state before the call.
- `Edf` holds the stateless EDF scheduler as a function. Its preemption condition is
  modelled exactly as written.
- `Rms` holds the RMS scheduler. It is a class with the ready list, and `schedule` is proved
  against a pure step function.

Modelling choices:

- Tasks and jobs are values. A job object is identified by its `id`: `job in ready_list`
  and `ready_list.remove(job)` look for an entry with the job's `id` (`Types.HasJob`,
  `Types.RemoveJob`), so the outcome flag the terminating job carries does not stop it from
  being found. A processor is likewise compared by its `id`, as `x is cpu` does.
- A job carries both attributes `optional` and `mandatory`, because the schedulers read each
  of them. The assumption `mandatory == not optional` is stated as `Types.Classified`. Only
  the lemmas that need it require it.
- `float("inf")` is a sentinel in the source. Distances are `Fin(n) | Inf`, and key
  components are `NegInf | Num(n) | PosInf`.
- DBP looks up a task's window with get-or-initialise while it evaluates the keys. That
  insertion never changes what any lookup returns (`Dbp.GetOrInit`). So `schedule` first
  performs all lookups that key evaluation makes, in the source's order: running jobs in
  processor order, then ready jobs in list order. It then evaluates every key over the
  windows as they were on entry.
- The `resched()` notifications to the engine become a returned flag `resched`.

## Model

| member | source | states |
|---|---|---|
| Types.IndexOfJob | simso/schedulers/MK_RMS.py:20-21 | the position `in` and `remove` find is the first entry that is the job: no earlier entry has its `id` |
| Types.RemoveJob | simso/schedulers/MK_DBP.py:31-32 | `ready_list.remove(job)` on a list that holds the job shortens it by exactly one |
| Types.RemoveJobProperties | simso/schedulers/MK_RMS.py:21 | `list.remove` drops exactly the first entry that is the job: the prefix before it is kept, the rest shifts left, and that one entry leaves the multiset |
| Types.RemoveJobUnique | simso/schedulers/MK_RMS.py:19-23 | in a list of distinct jobs, the removed job is no longer in the list, the list stays free of duplicates, and the entry removed is the job itself |
| Types.RemoveJobByIdentity | simso/schedulers/MK_DBP.py:29-34 | `in` and `remove` depend only on the job's identity: a terminating job whose outcome flag changed since it was queued is found and removed at the same position |
| Types.AbortedWhileReadyIsRemoved | simso/schedulers/MK_DBP.py:29-34 | a job aborted while still ready, its outcome flag now set, is found in the list `[job]` and removing it leaves `[]`, although the two values differ |
| Types.RemoveJobAppend | simso/schedulers/MK_RMS.py:15-23 | activating a job that is not in the ready list and then terminating it before dispatch restores the list |
| Types.AfterDispatch | simso/schedulers/MK_RMS.py:44-46 | a dispatch keeps the ready list's length when it preempts a job and shortens it by one on an idle processor |
| Types.AfterDispatchUnique | simso/schedulers/MK_RMS.py:44-46 | when the preempted job is not in the ready list, a dispatch keeps the list free of duplicates and the dispatched job leaves it |
| Types.AfterDispatchProperties | simso/schedulers/MK_RMS.py:44-46 | a dispatch removes the job's first entry and appends the preempted job last; the multiset trades that entry, which is the job itself in a list of distinct jobs, for the preempted one |
| Lex.KeyLessAsymmetric | simso/schedulers/MK_DBP.py:41 | two keys are never each smaller than the other |
| Lex.KeyLessOrder | simso/schedulers/MK_DBP.py:41 | Python's tuple `<` is a strict total order (irreflexive, transitive, total) |
| Lex.KeyLess3 | simso/schedulers/MK_EDF.py:26-31 | two three-part keys compare component by component |
| Lex.KeyNotLessFront | simso/schedulers/MK_DBP.py:44-49 | `not (a < b)` bounds the first three components of longer keys, one after the other |
| Lex.KeyNotLessFourth | simso/schedulers/MK_DBP.py:44-49 | for four-part keys agreeing in their first three components, `not (a < b)` bounds the fourth |
| Lex.ArgMin | simso/schedulers/MK_RMS.py:35 | `min(xs, key=f)` returns an element with no smaller key, and every earlier element has a strictly larger key |
| Lex.ArgMax | simso/schedulers/MK_EDF.py:31 | `max(xs, key=f)` returns an element with no larger key, and every earlier element has a strictly smaller key |
| Lex.FirstMinPrefersClearFlag | simso/schedulers/MK_DBP.py:45 | when every key starts with a flag, `min` picks an element whose flag is clear (`False < True`) as soon as one element's is clear |
| Lex.FirstMinUnique | simso/schedulers/MK_DBP.py:144 | the first-minimum characterisation determines the index `min` picks |
| Lex.FirstMaxUnique | simso/schedulers/MK_EDF.py:31 | the first-maximum characterisation determines the index `max` picks |
| History.Normalized | simso/schedulers/MK_DBP.py:101-123 | the normalised seed is never empty and all 0/1; None or an unknown type gives [1]; a bool or a number gives one outcome, its truthiness |
| History.StrOutcomes | simso/schedulers/MK_DBP.py:107-111 | the string loop yields exactly the outcomes the string's '0'/'1' characters spell, in order |
| History.ListOutcomes | simso/schedulers/MK_DBP.py:112-114 | the sequence loop yields one outcome per element, its truthiness |
| History.NormalizeInitSequence | simso/schedulers/MK_DBP.py:101-123 | `_normalize_init_sequence` returns the normalised seed |
| History.StrBitsAppend | simso/schedulers/MK_DBP.py:107-111 | the outcomes of a concatenated string are the outcomes of its pieces, concatenated |
| History.StrBitsRoundTrip | simso/schedulers/MK_DBP.py:107-111 | spelling 0/1 outcomes as a string and reading it back gives the same outcomes |
| History.NormalizeIdempotent | simso/schedulers/MK_DBP.py:112-114 | a non-empty 0/1 list, given as a list or as a string, normalises to itself |
| History.NormalizeNormalized | simso/schedulers/MK_DBP.py:101-123 | normalising an already normalised seed changes nothing |
| History.Window | simso/schedulers/MK_DBP.py:88 | the deque length max(1, k) is at least 1 and at least k |
| History.DequeAppend | simso/schedulers/MK_DBP.py:131 | a bounded append grows the deque until it is full and then keeps its length; the result is the longest suffix of the extended deque that fits |
| History.InitialHistory | simso/schedulers/MK_DBP.py:87-99 | the initial window has length exactly max(1, k), is all 0/1, and is the last max(1, k) normalised outcomes, left-padded with 1s |
| History.InitialHistoryFrom | simso/schedulers/MK_DBP.py:94-98 | the kept suffix `values[slice_start:]` fits the deque, and padding it with 1s gives the initial window |
| History.FillDeque | simso/schedulers/MK_DBP.py:95-96 | appending values that fit into an empty bounded deque yields exactly those values |
| History.PadWithSuccesses | simso/schedulers/MK_DBP.py:97-98 | `appendleft(1)` until full prefixes exactly max(1, k) minus the length 1s |
| History.InitHistory | simso/schedulers/MK_DBP.py:87-99 | `_init_history` returns the initial window |
| History.InitialHistoryIdempotent | simso/schedulers/MK_DBP.py:87-99 | a valid window given back as the seed initialises to itself |
| History.InitialHistoryExample | simso/schedulers/MK_DBP.py:87-99 | the seed "1010" with k = 4 gives the window [1, 0, 1, 0] |
| History.StrBitsIgnoresOthers | simso/schedulers/MK_DBP.py:107-111 | characters other than '0' and '1' are skipped: "x0110" spells [0, 1, 1, 0] |
| History.InitialHistoryTruncates | simso/schedulers/MK_DBP.py:94-96 | only the last k outcomes are kept: "x0110" with k = 2 gives [1, 0] |
| Distance.LastViable | simso/schedulers/MK_DBP.py:77-85 | with at least m successes, the number of simulated misses is below k; every suffix up to it keeps m successes and the next one does not |
| Distance.LastViableUnique | simso/schedulers/MK_DBP.py:77-85 | those two properties determine the number |
| Distance.HistoryDistance | simso/schedulers/MK_DBP.py:70-85 | the distance is infinite exactly when m <= 0; 0 when fewer than m successes; otherwise below k, with m successes from position d on and fewer from d + 1 on |
| Distance.DistanceIsLargestViable | simso/schedulers/MK_DBP.py:77-85 | the distance is the largest j with sum(history[j:]) >= m |
| Distance.ComputeDistanceLoop | simso/schedulers/MK_DBP.py:70-85 | the simulation loop returns the distance; the final `return allowed` is never reached |
| Distance.RecordMissDistance | simso/schedulers/MK_DBP.py:131 | with m >= 1, recording a miss turns distance d into max(0, d - 1) |
| Distance.RecordSuccessDistance | simso/schedulers/MK_DBP.py:131 | recording a success never lowers the distance |
| Distance.DistanceExampleViolatedNext | simso/schedulers/MK_DBP.py:77-85 | [1, 0, 1, 0] with m = 2 has distance 0 |
| Distance.DistanceExampleThree | simso/schedulers/MK_DBP.py:77-85 | [1, 1, 1, 1] with m = 1 has distance 3 |
| Dbp.HistoryOf | simso/schedulers/MK_DBP.py:66-69 | the window a lookup sees is a valid window for the task |
| Dbp.GetOrInit | simso/schedulers/MK_DBP.py:66-69 | get-or-initialise adds the task's key, keeps the dictionary valid, and changes no lookup |
| Dbp.Touch | simso/schedulers/MK_DBP.py:137-144 | a series of get-or-initialise lookups adds exactly the looked-up tasks and changes no lookup |
| Dbp.InitialHistories | simso/schedulers/MK_DBP.py:19-23 | `init` builds one initial window per task of the task list, and nothing else |
| Dbp.InitialHistoriesSnoc | simso/schedulers/MK_DBP.py:22-23 | one more loop iteration of `init` stores one more initial window |
| Dbp.Updated | simso/schedulers/MK_DBP.py:125-131 | `_update_history` evicts the oldest outcome of the job's task's window (initialised on demand) and appends 0 for a miss, 1 otherwise; windows keep length max(1, k); no other task changes |
| Dbp.DistanceOf | simso/schedulers/MK_DBP.py:56-85 | over valid windows, `_compute_distance` is inf exactly when m <= 0 and otherwise fewer misses than the window's length |
| Dbp.PriorityTuple | simso/schedulers/MK_DBP.py:43-49 | the priority tuple has four components; its distance component is +inf exactly when m <= 0 and otherwise below the window's length |
| Dbp.PriorityDistance | simso/schedulers/MK_DBP.py:51-54 | inf for an idle processor and for a running task with m <= 0; otherwise below the running task's window length |
| Dbp.ShouldRun | simso/schedulers/MK_DBP.py:36-41 | `_should_run` never lets an optional job displace a mandatory one, never displaces a job whose tuple is smaller than the candidate's, and never lets a job displace itself |
| Dbp.CpuKeyOrder | simso/schedulers/MK_DBP.py:137-141 | the processor key orders idle before busy, the requesting processor first among idle ones, the larger running distance first among busy ones, then the requesting processor |
| Dbp.NegatedDistanceOrder | simso/schedulers/MK_DBP.py:139 | `-distance` orders processors by decreasing distance, with -inf for inf |
| Dbp.DistanceScalarOrder | simso/schedulers/MK_DBP.py:46 | the distance component orders jobs by increasing distance, with inf last |
| Dbp.RunningTasks | simso/schedulers/MK_DBP.py:137-142 | the tasks the processor key looks up are exactly the tasks of the running jobs |
| Dbp.Decide | simso/schedulers/MK_DBP.py:146-153 | without dispatch the ready list stays as it is; the decision step does not touch the windows |
| Dbp.ScheduleStep | simso/schedulers/MK_DBP.py:133-153 | an empty ready list gives None and no change; without dispatch the ready list is unchanged; no lookup of any task changes and the windows stay valid |
| Dbp.TaskSet | simso/schedulers/MK_DBP.py:137-144 | the tasks the keys look up are those of the running jobs and of the ready jobs |
| Dbp.ScheduleTouches | simso/schedulers/MK_DBP.py:137-144 | after `schedule` the dictionary holds its former tasks plus those of the running and the ready jobs, and no others |
| Dbp.ScheduleDecision | simso/schedulers/MK_DBP.py:133-153 | a decision exactly when the list is non-empty and `_should_run` admits the first minimal job onto the selected processor; then the job leaves the list, the preempted job joins its end, and an optional job never lands on a mandatory one |
| Dbp.SelectCpuChoice | simso/schedulers/MK_DBP.py:137-142 | an idle processor if any: the requesting one, else the first idle one; otherwise the largest running distance, ties to the requesting processor and then to list order |
| Dbp.PriorityNotLess | simso/schedulers/MK_DBP.py:43-49 | between two jobs of one class, a priority tuple that is not smaller means a distance that is not smaller, at equal distances a deadline that is not earlier, and at equal distances and deadlines a period that is not shorter |
| Dbp.ScheduleKeepsUnique | simso/schedulers/MK_DBP.py:146-149 | when no running job is in the ready list, `schedule` keeps the list free of duplicates and a dispatched job leaves it |
| Dbp.SelectJobSmallestDistance | simso/schedulers/MK_DBP.py:144 | within its class the chosen job has the smallest distance, the earliest deadline among equal distances, and the shortest period among equal distances and deadlines |
| Dbp.SelectJobPrefersMandatory | simso/schedulers/MK_DBP.py:45 | whenever a mandatory job is ready, the chosen job is mandatory |
| Dbp.ShouldRunIsKeyOrder | simso/schedulers/MK_DBP.py:36-41 | for classified jobs, `_should_run` is exactly "idle, or the candidate's tuple is smaller" |
| Dbp.UpdatedDistance | simso/schedulers/MK_DBP.py:125-131 | after a terminated job, a miss lowers its task's distance to max(0, d - 1), a success never lowers it, m <= 0 keeps it infinite, and no other task's distance changes |
| Dbp.BuildHistories | simso/schedulers/MK_DBP.py:21-23 | the loop of `init` builds exactly one initial window per listed task |
| Dbp.DbpScheduler.Init | simso/schedulers/MK_DBP.py:19-23 | after `init` the ready list is empty and the dictionary holds each task's initial window |
| Dbp.DbpScheduler.OnActivate | simso/schedulers/MK_DBP.py:25-27 | the job is appended to the ready list, the windows are untouched, and a reschedule is requested; a new job keeps the list free of duplicates |
| Dbp.DbpScheduler.GetOrInitHistory | simso/schedulers/MK_DBP.py:66-69 | returns the window a lookup sees and leaves the dictionary get-or-initialised |
| Dbp.DbpScheduler.ComputeDistance | simso/schedulers/MK_DBP.py:56-85 | `_compute_distance` returns the task's distance and only get-or-initialises its window |
| Dbp.DbpScheduler.UpdateHistory | simso/schedulers/MK_DBP.py:125-131 | `_update_history` leaves the dictionary in the updated state and the ready list unchanged |
| Dbp.DbpScheduler.OnTerminated | simso/schedulers/MK_DBP.py:29-34 | records the terminating job's outcome; a job in the ready list (by identity) leaves it, its first entry, and no reschedule is requested, otherwise the list is unchanged and one is; in a list of distinct jobs the job is gone afterwards |
| Dbp.DbpScheduler.TouchHistories | simso/schedulers/MK_DBP.py:137-144 | performs the get-or-initialise lookups of the key evaluations |
| Dbp.DbpScheduler.Dispatch | simso/schedulers/MK_DBP.py:147-149 | removes the job and appends the preempted job, if any |
| Dbp.DbpScheduler.Schedule | simso/schedulers/MK_DBP.py:133-153 | returns the decision, ready list and dictionary of the pure step, and keeps the windows valid |
| Edf.JobKeyOrder | simso/schedulers/MK_EDF.py:36 | the job key orders mandatory before optional, then the earlier deadline, then the shorter period |
| Edf.CpuKeyOrder | simso/schedulers/MK_EDF.py:26-30 | the processor key puts idle above busy, the requesting processor above the others among idle ones, the later running deadline above the earlier, then the requesting processor |
| Edf.Admits | simso/schedulers/MK_EDF.py:38-47 | the condition never preempts at equal deadlines, and between classified jobs preempts only a job whose key is larger than the candidate's |
| Edf.ReadyJobs | simso/schedulers/MK_EDF.py:19-20 | a job is ready exactly when it is the job of an active task that is not running |
| Edf.ReadyJobsOne | simso/schedulers/MK_EDF.py:19-20 | a single task contributes its job exactly when it is active and its job is not running |
| Edf.ReadyJobsAppend | simso/schedulers/MK_EDF.py:19-20 | the ready list of concatenated task lists is the concatenation of their ready lists: one entry per ready task, in task-list order, which fixes the tie-break of `min` |
| Edf.Schedule | simso/schedulers/MK_EDF.py:17-50 | None when no task has a ready job; a decision names a ready job and a listed processor, and never an optional job onto a mandatory one |
| Edf.ScheduleDecision | simso/schedulers/MK_EDF.py:22-50 | a decision exactly when some job is ready and the condition admits the first minimal job onto the first maximal processor; an idle selected processor always gets a decision |
| Edf.SelectJobEarliest | simso/schedulers/MK_EDF.py:36 | within its class the chosen job has the earliest deadline, and the shortest period among equal deadlines |
| Edf.SelectJobPrefersMandatory | simso/schedulers/MK_EDF.py:36 | whenever a mandatory job is ready, the chosen job is mandatory |
| Edf.SelectCpuChoice | simso/schedulers/MK_EDF.py:26-31 | the requesting processor if idle, else the first idle processor; otherwise the greatest running deadline, ties to the requesting processor and then to list order |
| Edf.AdmitsCases | simso/schedulers/MK_EDF.py:38-47 | idle always admits; optional never preempts mandatory; same class preempts iff the running deadline is strictly later; mandatory preempts optional iff the deadlines differ; the period is never consulted |
| Edf.AdmitsIsNotKeyOrder | simso/schedulers/MK_EDF.py:38-47 | two inputs where the candidate's key is smaller yet the condition does not preempt |
| Rms.JobKeyOrder | simso/schedulers/MK_RMS.py:39 | the job key orders mandatory before optional, then the shorter period |
| Rms.CpuKeyOrder | simso/schedulers/MK_RMS.py:30-34 | the processor key orders idle before busy, the requesting processor first among idle ones, the longer running period first among busy ones, then the requesting processor |
| Rms.Admits | simso/schedulers/MK_RMS.py:41-42 | between classified jobs the guard preempts only a job whose key is larger than the candidate's |
| Rms.ScheduleStep | simso/schedulers/MK_RMS.py:25-50 | without dispatch the ready list is unchanged; a dispatch keeps the length on preemption and shortens it by one on an idle processor, names a ready job and a listed processor, and never puts an optional job onto a mandatory one |
| Rms.ScheduleDecision | simso/schedulers/MK_RMS.py:25-50 | a decision exactly when the list is non-empty and the guard admits the first minimal job onto the first minimal processor; the ready list is then updated by the dispatch |
| Rms.ScheduleReadyList | simso/schedulers/MK_RMS.py:44-47 | on dispatch the job's first entry leaves, the rest of the list keeps its order, the preempted job is last, and the multiset trades that entry, the job itself in a list of distinct jobs, for the preempted one |
| Rms.ScheduleKeepsUnique | simso/schedulers/MK_RMS.py:41-47 | when no running job is in the ready list, `schedule` keeps the list free of duplicates and a dispatched job leaves it |
| Rms.SelectJobShortestPeriod | simso/schedulers/MK_RMS.py:39 | within its class the chosen job has the shortest period |
| Rms.SelectJobPrefersMandatory | simso/schedulers/MK_RMS.py:39 | whenever a mandatory job is ready, the chosen job is mandatory |
| Rms.SelectCpuChoice | simso/schedulers/MK_RMS.py:30-35 | an idle processor if any: the requesting one, else the first idle one; otherwise the longest running period, ties to the requesting processor and then to list order |
| Rms.AdmitsCases | simso/schedulers/MK_RMS.py:41-42 | idle always admits; optional never preempts mandatory; otherwise preemption happens iff the candidate's period is strictly shorter; deadlines are never consulted |
| Rms.AdmitsIsNotKeyOrder | simso/schedulers/MK_RMS.py:41-42 | a mandatory candidate with the same period as the optional running job has the smaller key yet does not preempt |
| Rms.RmsScheduler.Init | simso/schedulers/MK_RMS.py:12-13 | `init` empties the ready list |
| Rms.RmsScheduler.OnActivate | simso/schedulers/MK_RMS.py:15-17 | the job is appended and a reschedule is requested; a new job keeps the list free of duplicates |
| Rms.RmsScheduler.OnTerminated | simso/schedulers/MK_RMS.py:19-23 | a job in the ready list (by identity) leaves it, its first entry; otherwise the list is unchanged and a reschedule is requested; in a list of distinct jobs the job is gone afterwards |
| Rms.RmsScheduler.Schedule | simso/schedulers/MK_RMS.py:25-50 | returns the decision and leaves the ready list of the pure step |

## Left out

- The `job.cpu.resched()` calls belong to the simulation engine. Each notification returns a flag `resched` instead.
- The `print` tracing of simulation time and names is output only.
- The `Scheduler` base class and the `@scheduler` registration are engine code. So is the filling of `task_list` and `processors`: both are inputs to the model.
- `t.is_active()` and `t.job.is_running()` are engine calls. They become the fields of `Edf.TaskView`.
- The `getattr` defaults for m and k and the `task.data` dictionary lookup are engine code. They become the task fields `m`, `k` and `seed`.
- The `float` branch of seed normalisation is only a truthiness test. It is modelled by the integer non-zero test.
- Deadlines and periods are integers. `float("inf")` is the sentinel `Inf`/`PosInf`/`NegInf`.
- Multiprocessor timing is not modelled. Callbacks are serialised, and processor selection works over any finite list.
- `MK_EDF.on_activate` and `MK_EDF.on_terminated` only notify the engine. They change no state, so they have no member.
- The insertion order of the windows dictionary is not modelled: a Dafny `map` is unordered.
- Object identity becomes `id` equality for jobs and processors and value equality for tasks. Job ids are taken to be unique per job object: two entries with one `id` stand for one object queued twice. A task's fields never change, so its value stands for the object.
- Distinct ready entries (`Types.UniqueIds`) are not a class invariant. `OnActivate` (for a job not yet queued), `OnTerminated` and `schedule` (`Dbp.ScheduleKeepsUnique`, `Rms.ScheduleKeepsUnique`) are proved to keep the property. For `schedule` this rests on an engine fact the model takes as a hypothesis: a running job is never in the ready list. Without it, a dispatch that preempts a job still queued leaves that job in the list twice. The statements that the removed entry is the job itself also require distinct entries.
- `Job` objects are always taken to be truthy, so `if x.running` means "a job is running".
- The precondition "the processor list is non-empty when a job is ready" mirrors Python's `min`/`max`, which raise on an empty list.
- Dbp.DbpScheduler.Schedule: performs the get-or-initialise lookups before evaluating the keys, not interleaved with them. No lookup result changes, and the final dictionary is the same.
