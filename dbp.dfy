/** The Distance-Based Priority scheduler (`MK_DBP`): per-task outcome windows, the
    priority key `(optional, distance, absolute_deadline, period)`, processor selection by
    largest running distance, and the guarded dispatch that updates the ready list. */
module Dbp {
  import opened Types
  import opened Lex
  import opened History
  import opened Distance

  /** The `_k_histories` dictionary, keyed by task. */
  type Histories = map<Task, seq<int>>

  /** A window fit for task `t`: the deque length max(1, k), every outcome 0 or 1. */
  predicate IsWindow(h: seq<int>, t: Task) {
    |h| == Window(t) && AllBits(h)
  }

  predicate ValidHistories(hs: Histories) {
    forall t :: t in hs ==> IsWindow(hs[t], t)
  }

  /** The window a lookup of `t` sees: the stored one, or the one get-or-initialise
      would insert. */
  function HistoryOf(hs: Histories, t: Task): (h: seq<int>)
    ensures ValidHistories(hs) ==> IsWindow(h, t)
  {
    if t in hs then hs[t] else InitialHistory(t)
  }

  /** The dictionary after get-or-initialise of `t`: `t` is present afterwards and no
      lookup sees a different window. */
  function GetOrInit(hs: Histories, t: Task): (r: Histories)
    ensures r.Keys == hs.Keys + {t}
    ensures forall u :: HistoryOf(r, u) == HistoryOf(hs, u)
    ensures ValidHistories(hs) ==> ValidHistories(r)
  {
    if t in hs then hs else hs[t := InitialHistory(t)]
  }

  /** The dictionary after get-or-initialise of every task of `ts`, in order. */
  function Touch(hs: Histories, ts: seq<Task>): (r: Histories)
    ensures r.Keys == hs.Keys + set t | t in ts
    ensures forall u :: HistoryOf(r, u) == HistoryOf(hs, u)
    ensures ValidHistories(hs) ==> ValidHistories(r)
    decreases |ts|
  {
    if ts == [] then hs else GetOrInit(Touch(hs, ts[..|ts| - 1]), ts[|ts| - 1])
  }

  /** The dictionary that `init` builds: one initial window per task of the task list. */
  function InitialHistories(tasks: seq<Task>): (hs: Histories)
    ensures hs.Keys == set t | t in tasks
    ensures ValidHistories(hs)
    ensures forall t :: t in tasks ==> hs[t] == InitialHistory(t)
  {
    map t | t in tasks :: InitialHistory(t)
  }

  lemma InitialHistoriesSnoc(tasks: seq<Task>, t: Task)
    ensures InitialHistories(tasks + [t]) == InitialHistories(tasks)[t := InitialHistory(t)]
  {
    var a := InitialHistories(tasks + [t]);
    var b := InitialHistories(tasks)[t := InitialHistory(t)];
    assert a.Keys == b.Keys;
    forall u | u in a ensures a[u] == b[u] {
    }
  }

  /** The dictionary after `_update_history(job)`: the job's task's window (initialised on
      demand) has its oldest outcome evicted and the job's outcome appended; every other
      task's entry is as before. */
  function Updated(hs: Histories, job: Job): (r: Histories)
    requires ValidHistories(hs)
    ensures ValidHistories(r)
    ensures r.Keys == hs.Keys + {job.task}
    ensures r[job.task] == HistoryOf(hs, job.task)[1..] + [OutcomeBit(job.exceededDeadline)]
    ensures forall u :: u != job.task ==> HistoryOf(r, u) == HistoryOf(hs, u)
    ensures forall u :: u != job.task ==> (u in r <==> u in hs)
  {
    var t := job.task;
    var h := HistoryOf(hs, t);
    hs[t := DequeAppend(h, OutcomeBit(job.exceededDeadline), Window(t))]
  }

  /** `_compute_distance(task)` as the value it returns: infinite exactly when m <= 0, and
      otherwise less than the window's length. */
  function DistanceOf(hs: Histories, t: Task): (d: Distance)
    ensures ValidHistories(hs) ==> (d.Inf? <==> t.m <= 0) && (d.Fin? ==> d.n < Window(t))
  {
    HistoryDistance(HistoryOf(hs, t), t.m)
  }

  /** A distance as a key component, and its negation `-distance` (with -inf for inf). */
  function DistanceScalar(d: Distance): Scalar {
    if d.Inf? then PosInf else Num(d.n)
  }

  function NegatedDistance(d: Distance): Scalar {
    if d.Inf? then NegInf else Num(-(d.n as int))
  }

  lemma NegatedDistanceOrder(a: Distance, b: Distance)
    ensures ScalarLess(NegatedDistance(a), NegatedDistance(b)) <==> !DistanceLe(a, b)
    ensures NegatedDistance(a) == NegatedDistance(b) <==> a == b
  {
  }

  lemma DistanceScalarOrder(a: Distance, b: Distance)
    ensures ScalarLess(DistanceScalar(a), DistanceScalar(b)) <==> !DistanceLe(b, a)
    ensures DistanceScalar(a) == DistanceScalar(b) <==> a == b
  {
  }

  /** `_priority_tuple`: four components; the distance component is +inf exactly when the
      task's m is at most 0, and otherwise a number of misses below the window's length. */
  function PriorityTuple(hs: Histories, job: Job): (k: Key)
    ensures |k| == 4
    ensures ValidHistories(hs) ==>
              (k[1] == PosInf <==> job.task.m <= 0) && (k[1].Num? ==> 0 <= k[1].n < Window(job.task))
  {
    [BoolScalar(job.optional), DistanceScalar(DistanceOf(hs, job.task)),
     Num(job.absoluteDeadline), Num(job.period)]
  }

  /** `_priority_distance`: infinite for an idle processor and for a running task with
      m <= 0, and otherwise less than the running task's window length. */
  function PriorityDistance(hs: Histories, job: Option<Job>): (d: Distance)
    ensures ValidHistories(hs) ==> (d.Inf? <==> job.None? || job.value.task.m <= 0)
    ensures ValidHistories(hs) && d.Fin? ==> d.n < Window(job.value.task)
  {
    if job.None? then Inf else DistanceOf(hs, job.value.task)
  }

  /** `_should_run`: it never lets an optional job displace a mandatory one, never displaces
      a job whose key is smaller than the candidate's, and never lets a job displace
      itself. */
  function ShouldRun(hs: Histories, candidate: Job, current: Option<Job>): (r: bool)
    ensures r ==> !(current.Some? && current.value.mandatory && candidate.optional)
    ensures r && current.Some? ==> !KeyLess(PriorityTuple(hs, current.value), PriorityTuple(hs, candidate))
    ensures current == Some(candidate) ==> !r
  {
    if current.None? then true
    else if current.value.mandatory && candidate.optional then false
    else
      KeyLessIrreflexive(PriorityTuple(hs, candidate));
      KeyLessAsymmetric(PriorityTuple(hs, candidate), PriorityTuple(hs, current.value));
      KeyLess(PriorityTuple(hs, candidate), PriorityTuple(hs, current.value))
  }

  /** The processor key of `schedule`: idle first, then the largest running distance, then
      the requesting processor. */
  function CpuKey(hs: Histories, cpu: Processor, x: Processor): Key {
    [Num(if x.running.None? then 0 else 1),
     if x.running.Some? then NegatedDistance(PriorityDistance(hs, x.running)) else Num(0),
     Num(if x.id == cpu.id then 0 else 1)]
  }

  /** The order of processor keys: an idle processor before a busy one; among idle ones the
      requesting processor first; among busy ones the larger running distance first, and
      at equal distances the requesting processor first. */
  lemma CpuKeyOrder(hs: Histories, cpu: Processor, x: Processor, y: Processor)
    ensures KeyLess(CpuKey(hs, cpu, x), CpuKey(hs, cpu, y)) <==>
      || (x.running.None? && y.running.Some?)
      || (x.running.None? && y.running.None? && x.id == cpu.id && y.id != cpu.id)
      || (x.running.Some? && y.running.Some? &&
          (|| !DistanceLe(PriorityDistance(hs, x.running), PriorityDistance(hs, y.running))
           || (PriorityDistance(hs, x.running) == PriorityDistance(hs, y.running) &&
               x.id == cpu.id && y.id != cpu.id)))
  {
    var kx, ky := CpuKey(hs, cpu, x), CpuKey(hs, cpu, y);
    KeyLess3(kx[0], kx[1], kx[2], ky[0], ky[1], ky[2]);
    NegatedDistanceOrder(PriorityDistance(hs, x.running), PriorityDistance(hs, y.running));
  }

  function SelectCpu(hs: Histories, cpu: Processor, processors: seq<Processor>): (i: nat)
    requires |processors| > 0
    ensures i < |processors|
  {
    ArgMin(processors, x => CpuKey(hs, cpu, x))
  }

  function SelectJob(hs: Histories, ready: seq<Job>): (i: nat)
    requires |ready| > 0
    ensures i < |ready|
  {
    ArgMin(ready, j => PriorityTuple(hs, j))
  }

  /** The tasks of the jobs running on `processors`, in processor order. */
  function RunningTasks(processors: seq<Processor>): (ts: seq<Task>)
    ensures forall p :: p in processors && p.running.Some? ==> p.running.value.task in ts
    ensures forall t :: t in ts ==> exists p :: p in processors && p.running.Some? && p.running.value.task == t
    decreases |processors|
  {
    if processors == [] then []
    else
      var p := processors[|processors| - 1];
      var front := processors[..|processors| - 1];
      assert forall q :: q in front ==> q in processors;
      assert p in processors;
      RunningTasks(front) + (if p.running.Some? then [p.running.value.task] else [])
  }

  /** The tasks of the ready jobs, in list order. */
  function JobTasks(jobs: seq<Job>): (ts: seq<Task>)
    ensures |ts| == |jobs| && forall i :: 0 <= i < |jobs| ==> ts[i] == jobs[i].task
  {
    seq(|jobs|, i requires 0 <= i < |jobs| => jobs[i].task)
  }

  /** The outcome of one `schedule` call: the decision, the new ready list, the new
      dictionary. */
  datatype Step = Step(decision: Option<Decision>, ready: seq<Job>, histories: Histories)

  /** The decision and the new ready list of `schedule` on a non-empty ready list, with
      every key evaluated over the windows `hs`. */
  function Decide(hs: Histories, ready: seq<Job>, cpu: Processor, processors: seq<Processor>): (s: Step)
    requires |processors| > 0 && ready != []
    ensures s.decision.None? ==> s.ready == ready
    ensures s.histories == hs
  {
    var cpuMin := processors[SelectCpu(hs, cpu, processors)];
    var job := ready[SelectJob(hs, ready)];
    assert HasJob(ready, job) by {
      assert ready[SelectJob(hs, ready)].id == job.id;
    }
    if ShouldRun(hs, job, cpuMin.running) then
      Step(Some(Decision(job, cpuMin)), AfterDispatch(ready, job, cpuMin.running), hs)
    else
      Step(None, ready, hs)
  }

  /** `schedule(cpu)` as a function of the scheduler state before the call. Every key
      computation looks its task up with get-or-initialise, so the dictionary gains the
      tasks of the running and the ready jobs, and no lookup changes. */
  function ScheduleStep(hs: Histories, ready: seq<Job>, cpu: Processor, processors: seq<Processor>): (s: Step)
    requires ready != [] ==> |processors| > 0
    ensures ready == [] ==> s == Step(None, ready, hs)
    ensures s.decision.None? ==> s.ready == ready
    ensures forall u :: HistoryOf(s.histories, u) == HistoryOf(hs, u)
    ensures ValidHistories(hs) ==> ValidHistories(s.histories)
  {
    if ready == [] then Step(None, ready, hs)
    else
      var d := Decide(hs, ready, cpu, processors);
      Step(d.decision, d.ready, Touch(hs, RunningTasks(processors) + JobTasks(ready)))
  }

  /** The tasks of `rs` followed by those of the jobs `ready`, as a set. */
  lemma TaskSet(rs: seq<Task>, ready: seq<Job>)
    ensures (set t | t in rs + JobTasks(ready)) == (set t | t in rs) + (set j | j in ready :: j.task)
  {
    var js := JobTasks(ready);
    var ts := rs + js;
    forall t | t in ts && t !in rs ensures exists j :: j in ready && j.task == t {
      var i :| 0 <= i < |js| && js[i] == t;
      assert ready[i] in ready;
    }
    forall j | j in ready ensures j.task in ts {
      var i :| 0 <= i < |ready| && ready[i] == j;
      assert ts[|rs| + i] == j.task;
    }
  }

  /** After `schedule` the dictionary holds exactly its former tasks and those of the
      running and of the ready jobs. */
  lemma ScheduleTouches(hs: Histories, ready: seq<Job>, cpu: Processor, processors: seq<Processor>)
    requires |processors| > 0 && ready != []
    ensures ScheduleStep(hs, ready, cpu, processors).histories.Keys ==
              hs.Keys + (set t | t in RunningTasks(processors)) + (set j | j in ready :: j.task)
  {
    TaskSet(RunningTasks(processors), ready);
  }

  /** What `schedule` decides: a decision exactly when the ready list is non-empty and the
      guard admits the first minimal job onto the selected processor; then that job leaves
      the ready list, the preempted job joins its end, and the decision never puts an
      optional job onto a processor running a mandatory one. */
  lemma ScheduleDecision(hs: Histories, ready: seq<Job>, cpu: Processor, processors: seq<Processor>)
    requires ready != [] ==> |processors| > 0
    ensures var s := ScheduleStep(hs, ready, cpu, processors);
            && (s.decision.Some? <==>
                  ready != [] &&
                  ShouldRun(hs, ready[SelectJob(hs, ready)], processors[SelectCpu(hs, cpu, processors)].running))
            && (s.decision.Some? ==>
                  var d := s.decision.value;
                  && d.job == ready[SelectJob(hs, ready)]
                  && IsFirstMin(ready, j => PriorityTuple(hs, j), SelectJob(hs, ready))
                  && d.cpu == processors[SelectCpu(hs, cpu, processors)]
                  && s.ready == AfterDispatch(ready, d.job, d.cpu.running)
                  && !(d.cpu.running.Some? && d.cpu.running.value.mandatory && d.job.optional))
  {
    if ready != [] {
      var i := SelectJob(hs, ready);
      var c := processors[SelectCpu(hs, cpu, processors)];
      var s := ScheduleStep(hs, ready, cpu, processors);
      if ShouldRun(hs, ready[i], c.running) {
        assert s.decision == Some(Decision(ready[i], c));
      } else {
        assert s.decision == None;
      }
    }
  }

  /** As long as no running job is also in the ready list, `schedule` keeps the ready list
      free of duplicates, and a dispatched job leaves it. */
  lemma ScheduleKeepsUnique(hs: Histories, ready: seq<Job>, cpu: Processor, processors: seq<Processor>)
    requires ready != [] ==> |processors| > 0
    requires UniqueIds(ready)
    requires forall p :: p in processors && p.running.Some? ==> !HasJob(ready, p.running.value)
    ensures var s := ScheduleStep(hs, ready, cpu, processors);
            UniqueIds(s.ready) && (s.decision.Some? ==> !HasJob(s.ready, s.decision.value.job))
  {
    var s := ScheduleStep(hs, ready, cpu, processors);
    if s.decision.Some? {
      var d := s.decision.value;
      ScheduleDecision(hs, ready, cpu, processors);
      assert processors[SelectCpu(hs, cpu, processors)] in processors;
      assert ready[SelectJob(hs, ready)].id == d.job.id;
      AfterDispatchUnique(ready, d.job, d.cpu.running);
    }
  }

  /** Processor selection: an idle processor whenever there is one, the requesting
      processor when it is idle and else the first idle one; otherwise a busy processor
      with the largest running distance, the requesting processor when it is among those,
      and else the first of them in list order. */
  lemma SelectCpuChoice(hs: Histories, cpu: Processor, processors: seq<Processor>)
    requires |processors| > 0
    ensures var i := SelectCpu(hs, cpu, processors);
            var c := processors[i];
      && ((exists j :: 0 <= j < |processors| && processors[j].running.None?) ==> c.running.None?)
      && ((exists j :: 0 <= j < |processors| && processors[j].running.None? && processors[j].id == cpu.id) ==>
            c.id == cpu.id)
      && ((c.running.None? && c.id != cpu.id) ==>
            forall j :: 0 <= j < i ==> processors[j].running.Some?)
      && (c.running.Some? ==> forall j :: 0 <= j < |processors| ==>
            processors[j].running.Some? &&
            DistanceLe(PriorityDistance(hs, processors[j].running), PriorityDistance(hs, c.running)))
      && ((c.running.Some? &&
           exists j :: 0 <= j < |processors| && processors[j].id == cpu.id &&
             PriorityDistance(hs, processors[j].running) == PriorityDistance(hs, c.running)) ==>
            c.id == cpu.id)
      && (c.running.Some? ==> forall j :: 0 <= j < i ==>
            !DistanceLe(PriorityDistance(hs, c.running), PriorityDistance(hs, processors[j].running)) ||
            (processors[j].id != cpu.id && c.id == cpu.id))
  {
    var key := x => CpuKey(hs, cpu, x);
    var i := SelectCpu(hs, cpu, processors);
    var c := processors[i];
    assert IsFirstMin(processors, key, i);
    forall j | 0 <= j < |processors|
      ensures !KeyLess(CpuKey(hs, cpu, processors[j]), CpuKey(hs, cpu, c))
      ensures j < i ==> KeyLess(CpuKey(hs, cpu, c), CpuKey(hs, cpu, processors[j]))
    {
    }
    forall j | 0 <= j < |processors|
      ensures processors[j].running.None? ==> c.running.None?
      ensures processors[j].running.None? && processors[j].id == cpu.id ==> c.id == cpu.id
      ensures c.running.None? && c.id != cpu.id && j < i ==> processors[j].running.Some?
      ensures c.running.Some? ==>
        (processors[j].running.Some? &&
         DistanceLe(PriorityDistance(hs, processors[j].running), PriorityDistance(hs, c.running)))
      ensures (c.running.Some? && processors[j].id == cpu.id &&
               PriorityDistance(hs, processors[j].running) == PriorityDistance(hs, c.running)) ==>
        c.id == cpu.id
      ensures c.running.Some? && j < i ==>
        !DistanceLe(PriorityDistance(hs, c.running), PriorityDistance(hs, processors[j].running)) ||
        (processors[j].id != cpu.id && c.id == cpu.id)
    {
      var p := processors[j];
      var kp := CpuKey(hs, cpu, p);
      var kc := CpuKey(hs, cpu, c);
      KeyLess3(kp[0], kp[1], kp[2], kc[0], kc[1], kc[2]);
      KeyLess3(kc[0], kc[1], kc[2], kp[0], kp[1], kp[2]);
      NegatedDistanceOrder(PriorityDistance(hs, p.running), PriorityDistance(hs, c.running));
      NegatedDistanceOrder(PriorityDistance(hs, c.running), PriorityDistance(hs, p.running));
    }
  }

  /** If job `a`, at distance `da`, has a key not below that of job `b`, at distance
      `db`, and both are of one class, then `db <= da`; at equal distances `b`'s deadline
      is not later; and at equal distances and deadlines `b`'s period is not longer. */
  lemma PriorityNotLess(a: Job, da: Distance, b: Job, db: Distance)
    requires a.optional == b.optional
    requires !KeyLess([BoolScalar(a.optional), DistanceScalar(da), Num(a.absoluteDeadline), Num(a.period)],
                      [BoolScalar(b.optional), DistanceScalar(db), Num(b.absoluteDeadline), Num(b.period)])
    ensures DistanceLe(db, da)
    ensures db == da ==> b.absoluteDeadline <= a.absoluteDeadline
    ensures db == da && a.absoluteDeadline == b.absoluteDeadline ==> b.period <= a.period
  {
    var ka := [BoolScalar(a.optional), DistanceScalar(da), Num(a.absoluteDeadline), Num(a.period)];
    var kb := [BoolScalar(b.optional), DistanceScalar(db), Num(b.absoluteDeadline), Num(b.period)];
    KeyNotLessFront(ka, kb);
    DistanceScalarOrder(da, db);
    if db == da && a.absoluteDeadline == b.absoluteDeadline {
      KeyNotLessFourth(ka, kb);
    }
  }

  /** Job selection: within the candidate's class no ready job has a smaller distance,
      nor an equal distance and an earlier deadline, nor an equal distance and deadline
      and a shorter period. */
  lemma SelectJobSmallestDistance(hs: Histories, ready: seq<Job>)
    requires |ready| > 0
    ensures var c := ready[SelectJob(hs, ready)];
            forall j :: 0 <= j < |ready| && ready[j].optional == c.optional ==>
              DistanceLe(DistanceOf(hs, c.task), DistanceOf(hs, ready[j].task)) &&
              (DistanceOf(hs, c.task) == DistanceOf(hs, ready[j].task) ==>
                 c.absoluteDeadline <= ready[j].absoluteDeadline) &&
              ((DistanceOf(hs, c.task) == DistanceOf(hs, ready[j].task) &&
                c.absoluteDeadline == ready[j].absoluteDeadline) ==> c.period <= ready[j].period)
  {
    var key := x => PriorityTuple(hs, x);
    var i := SelectJob(hs, ready);
    assert IsFirstMin(ready, key, i);
    forall j | 0 <= j < |ready| && ready[j].optional == ready[i].optional
      ensures DistanceLe(DistanceOf(hs, ready[i].task), DistanceOf(hs, ready[j].task))
      ensures DistanceOf(hs, ready[i].task) == DistanceOf(hs, ready[j].task) ==>
                ready[i].absoluteDeadline <= ready[j].absoluteDeadline
      ensures (DistanceOf(hs, ready[i].task) == DistanceOf(hs, ready[j].task) &&
               ready[i].absoluteDeadline == ready[j].absoluteDeadline) ==> ready[i].period <= ready[j].period
    {
      assert !KeyLess(key(ready[j]), key(ready[i]));
      PriorityNotLess(ready[j], DistanceOf(hs, ready[j].task), ready[i], DistanceOf(hs, ready[i].task));
    }
  }

  /** Whenever a mandatory job is ready, the candidate is mandatory. */
  lemma SelectJobPrefersMandatory(hs: Histories, ready: seq<Job>, j: nat)
    requires j < |ready| && ready[j].mandatory
    requires forall x :: x in ready ==> Classified(x)
    ensures ready[SelectJob(hs, ready)].mandatory
  {
    assert ready[j] in ready && ready[SelectJob(hs, ready)] in ready;
    FirstMinPrefersClearFlag(ready, x => PriorityTuple(hs, x), (x: Job) => x.optional, j);
  }

  /** For classified jobs the guard `not (mandatory running and optional candidate)` adds
      nothing: dispatch happens exactly when the processor is idle or the candidate's key is
      strictly smaller than the running job's. */
  lemma ShouldRunIsKeyOrder(hs: Histories, candidate: Job, current: Option<Job>)
    requires Classified(candidate) && (current.Some? ==> Classified(current.value))
    ensures ShouldRun(hs, candidate, current) <==>
              current.None? || KeyLess(PriorityTuple(hs, candidate), PriorityTuple(hs, current.value))
  {
    if current.Some? && current.value.mandatory && candidate.optional {
      var kc := PriorityTuple(hs, candidate);
      var kr := PriorityTuple(hs, current.value);
      assert ScalarLess(kr[0], kc[0]);
      KeyLessOrder();
    }
  }

  /** Recording a terminated job: a miss lowers the task's distance d to max(0, d - 1), a
      success never lowers it, and no other task's distance changes. */
  lemma UpdatedDistance(hs: Histories, job: Job)
    requires ValidHistories(hs)
    ensures var t := job.task;
            var before := DistanceOf(hs, t);
            var after := DistanceOf(Updated(hs, job), t);
            && (job.exceededDeadline && t.m >= 1 ==>
                  after == Fin(if before.n == 0 then 0 else before.n - 1))
            && (!job.exceededDeadline ==> DistanceLe(before, after))
            && (t.m <= 0 ==> after == Inf)
    ensures forall u :: u != job.task ==> DistanceOf(Updated(hs, job), u) == DistanceOf(hs, u)
  {
    var t := job.task;
    var h := HistoryOf(hs, t);
    assert HistoryOf(Updated(hs, job), t) == h[1..] + [OutcomeBit(job.exceededDeadline)];
    if job.exceededDeadline {
      if t.m >= 1 {
        RecordMissDistance(h, t.m);
      }
    } else {
      RecordSuccessDistance(h, t.m);
    }
  }

  /** The loop of `init`: one `_init_history` per task of the task list, stored under it. */
  method BuildHistories(tasks: seq<Task>) returns (hs: Histories)
    ensures hs == InitialHistories(tasks)
  {
    hs := map[];
    for i := 0 to |tasks|
      invariant hs == InitialHistories(tasks[..i])
    {
      var h := InitHistory(tasks[i]);
      assert tasks[..i + 1] == tasks[..i] + [tasks[i]];
      InitialHistoriesSnoc(tasks[..i], tasks[i]);
      hs := hs[tasks[i] := h];
    }
    assert tasks[..|tasks|] == tasks;
  }

  /** The scheduler object: the ready list and the dictionary of windows. */
  class DbpScheduler {
    var readyList: seq<Job>
    var histories: Histories

    ghost predicate Valid()
      reads this
    {
      ValidHistories(histories)
    }

    /** `init`: an empty ready list and an initial window for every task. */
    method Init(tasks: seq<Task>)
      modifies this
      ensures Valid()
      ensures readyList == [] && histories == InitialHistories(tasks)
    {
      readyList := [];
      histories := BuildHistories(tasks);
    }

    /** `on_activate`: the job joins the ready list; a reschedule is requested. */
    method OnActivate(job: Job) returns (resched: bool)
      requires Valid()
      modifies this
      ensures Valid()
      ensures readyList == old(readyList) + [job] && histories == old(histories)
      ensures resched
      ensures UniqueIds(old(readyList)) && !HasJob(old(readyList), job) ==> UniqueIds(readyList)
    {
      readyList := readyList + [job];
      resched := true;
    }

    /** The lookup with lazy insertion that `_compute_distance` and `_update_history`
        start with. */
    method GetOrInitHistory(task: Task) returns (h: seq<int>)
      requires Valid()
      modifies this
      ensures Valid()
      ensures h == HistoryOf(old(histories), task)
      ensures histories == GetOrInit(old(histories), task) && readyList == old(readyList)
    {
      if task in histories {
        h := histories[task];
      } else {
        h := InitHistory(task);
        histories := histories[task := h];
      }
    }

    /** `_compute_distance`. */
    method ComputeDistance(task: Task) returns (d: Distance)
      requires Valid()
      modifies this
      ensures Valid()
      ensures d == DistanceOf(old(histories), task)
      ensures histories == GetOrInit(old(histories), task) && readyList == old(readyList)
    {
      var history := GetOrInitHistory(task);
      d := ComputeDistanceLoop(history, task.m);
    }

    /** `_update_history`. */
    method UpdateHistory(job: Job)
      requires Valid()
      modifies this
      ensures Valid()
      ensures histories == Updated(old(histories), job) && readyList == old(readyList)
    {
      var history := GetOrInitHistory(job.task);
      histories := histories[job.task := DequeAppend(history, if job.exceededDeadline then 0 else 1, Window(job.task))];
    }

    /** `on_terminated`: records the outcome the terminating job object carries; a job
        still in the ready list leaves it, otherwise a reschedule is requested. */
    method OnTerminated(job: Job) returns (resched: bool)
      requires Valid()
      modifies this
      ensures Valid()
      ensures histories == Updated(old(histories), job)
      ensures readyList == if HasJob(old(readyList), job) then RemoveJob(old(readyList), job) else old(readyList)
      ensures resched <==> !HasJob(old(readyList), job)
      ensures UniqueIds(old(readyList)) ==> !HasJob(readyList, job) && UniqueIds(readyList)
    {
      UpdateHistory(job);
      if HasJob(readyList, job) {
        if UniqueIds(readyList) {
          RemoveJobUnique(readyList, job);
        }
        readyList := RemoveJob(readyList, job);
        resched := false;
      } else {
        resched := true;
      }
    }

    /** The get-or-initialise lookups of `tasks`, one after the other. */
    method TouchHistories(tasks: seq<Task>)
      requires Valid()
      modifies this
      ensures Valid()
      ensures histories == Touch(old(histories), tasks) && readyList == old(readyList)
    {
      var i := 0;
      while i < |tasks|
        invariant 0 <= i <= |tasks|
        invariant Valid() && readyList == old(readyList)
        invariant histories == Touch(old(histories), tasks[..i])
      {
        assert tasks[..i + 1][..i] == tasks[..i];
        var _ := GetOrInitHistory(tasks[i]);
        i := i + 1;
      }
      assert tasks[..|tasks|] == tasks;
    }

    /** The dispatch branch of `schedule`: the job leaves the ready list and the job it
        preempts, if any, is appended. */
    method Dispatch(job: Job, preempted: Option<Job>)
      requires HasJob(readyList, job)
      modifies this
      ensures readyList == AfterDispatch(old(readyList), job, preempted) && histories == old(histories)
    {
      readyList := RemoveJob(readyList, job);
      if preempted.Some? {
        readyList := readyList + [preempted.value];
      }
    }

    /** `schedule(cpu)`. The lookups that the key computations make are performed first;
        the keys are then evaluated over the windows as they were on entry, which those
        lookups do not change. */
    method Schedule(cpu: Processor, processors: seq<Processor>) returns (decision: Option<Decision>)
      requires Valid() && (readyList != [] ==> |processors| > 0)
      modifies this
      ensures Valid()
      ensures Step(decision, readyList, histories) == ScheduleStep(old(histories), old(readyList), cpu, processors)
    {
      var hs0 := histories;
      if readyList == [] {
        return None;
      }
      TouchHistories(RunningTasks(processors) + JobTasks(readyList));
      var cpuMin := processors[SelectCpu(hs0, cpu, processors)];
      var job := readyList[SelectJob(hs0, readyList)];
      assert readyList[SelectJob(hs0, readyList)].id == job.id;
      if ShouldRun(hs0, job, cpuMin.running) {
        Dispatch(job, cpuMin.running);
        decision := Some(Decision(job, cpuMin));
      } else {
        decision := None;
      }
    }
  }
}
