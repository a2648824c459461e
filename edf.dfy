/** The (m,k)-firm global EDF scheduler (`MK_EDF`). It keeps no state of its own: every
    `schedule` call derives the ready jobs from the tasks, picks the first job minimal under
    `(optional, absolute_deadline, period)`, picks a processor by a three-part key, and
    dispatches when a hand-written preemption condition holds. */
module Edf {
  import opened Types
  import opened Lex

  /** What `schedule` reads of a task: whether it is active, its current job, and whether
      that job is running. */
  datatype TaskView = TaskView(active: bool, job: Job, jobRunning: bool)

  predicate IsReady(t: TaskView) {
    t.active && !t.jobRunning
  }

  /** The jobs of the active tasks whose job is not running, in task-list order. */
  function ReadyJobs(tasks: seq<TaskView>): (r: seq<Job>)
    ensures |r| <= |tasks|
    ensures forall j :: j in r <==> exists t :: t in tasks && IsReady(t) && t.job == j
    decreases |tasks|
  {
    if tasks == [] then []
    else
      var rest := ReadyJobs(tasks[1..]);
      assert forall t :: t in tasks <==> t == tasks[0] || t in tasks[1..];
      (if IsReady(tasks[0]) then [tasks[0].job] else []) + rest
  }

  /** The ready list of a single task: its job when the task is ready, else nothing. */
  lemma ReadyJobsOne(t: TaskView)
    ensures ReadyJobs([t]) == if IsReady(t) then [t.job] else []
  {
    assert [t][1..] == [];
  }

  /** The ready list is built task by task: the ready jobs of a concatenated task list are
      those of its parts, concatenated. So the list holds one entry per ready task, in
      task-list order. */
  lemma {:induction false} ReadyJobsAppend(a: seq<TaskView>, b: seq<TaskView>)
    ensures ReadyJobs(a + b) == ReadyJobs(a) + ReadyJobs(b)
    decreases |a|
  {
    if a == [] {
      assert a + b == b;
    } else {
      var head := if IsReady(a[0]) then [a[0].job] else [];
      assert (a + b)[0] == a[0] && (a + b)[1..] == a[1..] + b;
      assert ReadyJobs(a + b) == head + ReadyJobs(a[1..] + b);
      assert ReadyJobs(a) == head + ReadyJobs(a[1..]);
      ReadyJobsAppend(a[1..], b);
      assert head + (ReadyJobs(a[1..]) + ReadyJobs(b)) == (head + ReadyJobs(a[1..])) + ReadyJobs(b);
    }
  }

  /** The job key `(optional, absolute_deadline, period)`. */
  function JobKey(j: Job): Key {
    [BoolScalar(j.optional), Num(j.absoluteDeadline), Num(j.period)]
  }

  /** The processor key for `max`: idle first, then the greatest running deadline, then the
      requesting processor. */
  function CpuKey(cpu: Processor, x: Processor): Key {
    [Num(if x.running.None? then 1 else 0),
     Num(if x.running.Some? then x.running.value.absoluteDeadline else 0),
     Num(if x.id == cpu.id then 1 else 0)]
  }

  /** The order of job keys: a mandatory job before an optional one; within a class the
      earlier deadline first, and at equal deadlines the shorter period. */
  lemma JobKeyOrder(a: Job, b: Job)
    ensures KeyLess(JobKey(a), JobKey(b)) <==>
      || (!a.optional && b.optional)
      || (a.optional == b.optional &&
          (a.absoluteDeadline < b.absoluteDeadline ||
           (a.absoluteDeadline == b.absoluteDeadline && a.period < b.period)))
  {
    var ka, kb := JobKey(a), JobKey(b);
    KeyLess3(ka[0], ka[1], ka[2], kb[0], kb[1], kb[2]);
  }

  /** The order of processor keys, of which `max` takes the largest: a busy processor below
      an idle one; among idle ones the requesting processor last; among busy ones the
      earlier running deadline below the later, and at equal deadlines the requesting
      processor last. */
  lemma CpuKeyOrder(cpu: Processor, x: Processor, y: Processor)
    ensures KeyLess(CpuKey(cpu, x), CpuKey(cpu, y)) <==>
      || (x.running.Some? && y.running.None?)
      || (x.running.None? && y.running.None? && x.id != cpu.id && y.id == cpu.id)
      || (x.running.Some? && y.running.Some? &&
          (|| x.running.value.absoluteDeadline < y.running.value.absoluteDeadline
           || (x.running.value.absoluteDeadline == y.running.value.absoluteDeadline &&
               x.id != cpu.id && y.id == cpu.id)))
  {
    var kx, ky := CpuKey(cpu, x), CpuKey(cpu, y);
    KeyLess3(kx[0], kx[1], kx[2], ky[0], ky[1], ky[2]);
  }

  function SelectCpu(cpu: Processor, processors: seq<Processor>): (i: nat)
    requires |processors| > 0
    ensures i < |processors|
  {
    ArgMax(processors, x => CpuKey(cpu, x))
  }

  function SelectJob(ready: seq<Job>): (i: nat)
    requires |ready| > 0
    ensures i < |ready|
  {
    ArgMin(ready, JobKey)
  }

  /** The preemption condition, branch for branch as `MK_EDF.schedule` writes it: an idle
      processor; an optional running job, a mandatory candidate and a later candidate
      deadline; or a strictly later running deadline; and in every case not an optional
      candidate against a mandatory running job. It never preempts at equal deadlines, and
      between classified jobs it preempts only a job whose key is larger than the
      candidate's. */
  function Admits(running: Option<Job>, job: Job): (r: bool)
    ensures r && running.Some? ==> running.value.absoluteDeadline != job.absoluteDeadline
    ensures r && running.Some? && Classified(job) && Classified(running.value) ==>
              KeyLess(JobKey(job), JobKey(running.value))
  {
    var r :=
      && (|| running.None?
          || (running.value.optional && job.mandatory && running.value.absoluteDeadline < job.absoluteDeadline)
          || running.value.absoluteDeadline > job.absoluteDeadline)
      && !(running.Some? && running.value.mandatory && job.optional);
    if running.Some? then JobKeyOrder(job, running.value); r else r
  }

  /** `schedule(cpu)`: the decision `(job, cpu_min)`, or None. */
  function Schedule(tasks: seq<TaskView>, cpu: Processor, processors: seq<Processor>): (d: Option<Decision>)
    requires ReadyJobs(tasks) != [] ==> |processors| > 0
    ensures (forall t :: t in tasks ==> !IsReady(t)) ==> d.None?
    ensures d.Some? ==> d.value.job in ReadyJobs(tasks) && d.value.cpu in processors
    ensures d.Some? ==> !(d.value.cpu.running.Some? && d.value.cpu.running.value.mandatory && d.value.job.optional)
  {
    var ready := ReadyJobs(tasks);
    if ready == [] then None
    else
      var cpuMin := processors[SelectCpu(cpu, processors)];
      var job := ready[SelectJob(ready)];
      assert job in ready && cpuMin in processors;
      if Admits(cpuMin.running, job) then Some(Decision(job, cpuMin)) else None
  }

  /** A decision is returned exactly when some job is ready and the condition admits the
      first minimal job onto the selected processor; it names that job and that processor. */
  lemma ScheduleDecision(tasks: seq<TaskView>, cpu: Processor, processors: seq<Processor>)
    requires ReadyJobs(tasks) != [] ==> |processors| > 0
    ensures var d, ready := Schedule(tasks, cpu, processors), ReadyJobs(tasks);
            && (d.Some? <==>
                  ready != [] && Admits(processors[SelectCpu(cpu, processors)].running, ready[SelectJob(ready)]))
            && (d.Some? ==>
                  && d.value.job == ready[SelectJob(ready)]
                  && IsFirstMin(ready, JobKey, SelectJob(ready))
                  && d.value.cpu == processors[SelectCpu(cpu, processors)]
                  && IsFirstMax(processors, x => CpuKey(cpu, x), SelectCpu(cpu, processors)))
            && (ready != [] && processors[SelectCpu(cpu, processors)].running.None? ==> d.Some?)
  {
  }

  /** Job selection: within the candidate's own class no ready job has an earlier deadline,
      nor an equal deadline and a shorter period; every earlier job in the list has a
      strictly larger key. */
  lemma SelectJobEarliest(ready: seq<Job>)
    requires |ready| > 0
    ensures var c := ready[SelectJob(ready)];
            forall j :: 0 <= j < |ready| && ready[j].optional == c.optional ==>
              c.absoluteDeadline <= ready[j].absoluteDeadline &&
              (c.absoluteDeadline == ready[j].absoluteDeadline ==> c.period <= ready[j].period)
  {
    var i := SelectJob(ready);
    var c := ready[i];
    assert IsFirstMin(ready, JobKey, i);
    forall j | 0 <= j < |ready| && ready[j].optional == c.optional
      ensures c.absoluteDeadline <= ready[j].absoluteDeadline
      ensures c.absoluteDeadline == ready[j].absoluteDeadline ==> c.period <= ready[j].period
    {
      var kj, kc := JobKey(ready[j]), JobKey(c);
      assert !KeyLess(kj, kc);
      KeyLess3(kj[0], kj[1], kj[2], kc[0], kc[1], kc[2]);
    }
  }

  /** Whenever a mandatory job is ready, the candidate is mandatory. */
  lemma SelectJobPrefersMandatory(ready: seq<Job>, j: nat)
    requires j < |ready| && ready[j].mandatory
    requires forall x :: x in ready ==> Classified(x)
    ensures ready[SelectJob(ready)].mandatory
  {
    assert ready[j] in ready && ready[SelectJob(ready)] in ready;
    FirstMinPrefersClearFlag(ready, JobKey, (x: Job) => x.optional, j);
  }

  /** Processor selection: the requesting processor when it is idle; otherwise the first
      idle processor; otherwise a processor whose running job has the greatest deadline,
      the requesting processor among those, and else the first of them in list order. */
  lemma SelectCpuChoice(cpu: Processor, processors: seq<Processor>)
    requires |processors| > 0
    ensures var i := SelectCpu(cpu, processors);
            var c := processors[i];
      && ((exists j :: 0 <= j < |processors| && processors[j].running.None? && processors[j].id == cpu.id) ==>
            c.running.None? && c.id == cpu.id)
      && ((exists j :: 0 <= j < |processors| && processors[j].running.None?) ==>
            c.running.None?)
      && ((c.running.None? && c.id != cpu.id) ==>
            forall j :: 0 <= j < i ==> processors[j].running.Some?)
      && (c.running.Some? ==> forall j :: 0 <= j < |processors| ==>
            processors[j].running.Some? &&
            processors[j].running.value.absoluteDeadline <= c.running.value.absoluteDeadline)
      && (c.running.Some? ==> forall j :: 0 <= j < |processors| ==>
            (processors[j].id == cpu.id &&
             processors[j].running.value.absoluteDeadline == c.running.value.absoluteDeadline) ==>
            c.id == cpu.id)
      && (c.running.Some? ==> forall j :: 0 <= j < i ==>
            processors[j].running.value.absoluteDeadline < c.running.value.absoluteDeadline ||
            (processors[j].id != cpu.id && c.id == cpu.id))
  {
    var key := x => CpuKey(cpu, x);
    var i := SelectCpu(cpu, processors);
    var c := processors[i];
    assert IsFirstMax(processors, key, i);
    forall j | 0 <= j < |processors|
      ensures !KeyLess(CpuKey(cpu, c), CpuKey(cpu, processors[j]))
      ensures j < i ==> KeyLess(CpuKey(cpu, processors[j]), CpuKey(cpu, c))
    {
    }
    forall j | 0 <= j < |processors|
      ensures processors[j].running.None? && processors[j].id == cpu.id ==> c.running.None? && c.id == cpu.id
      ensures processors[j].running.None? ==> c.running.None?
      ensures c.running.None? && c.id != cpu.id && j < i ==> processors[j].running.Some?
      ensures c.running.Some? ==>
        processors[j].running.Some? &&
        processors[j].running.value.absoluteDeadline <= c.running.value.absoluteDeadline
      ensures (c.running.Some? && processors[j].id == cpu.id &&
               processors[j].running.value.absoluteDeadline == c.running.value.absoluteDeadline) ==>
        c.id == cpu.id
      ensures c.running.Some? && j < i ==>
        processors[j].running.value.absoluteDeadline < c.running.value.absoluteDeadline ||
        (processors[j].id != cpu.id && c.id == cpu.id)
    {
      var kp, kc := CpuKey(cpu, processors[j]), CpuKey(cpu, c);
      KeyLess3(kp[0], kp[1], kp[2], kc[0], kc[1], kc[2]);
      KeyLess3(kc[0], kc[1], kc[2], kp[0], kp[1], kp[2]);
    }
  }

  /** The preemption condition case by case: an idle processor always admits; an optional
      candidate never preempts a mandatory job; within one class it preempts exactly when
      the running deadline is strictly later (the period plays no part); a mandatory
      candidate preempts an optional job exactly when the deadlines differ. */
  lemma AdmitsCases(running: Option<Job>, job: Job)
    requires Classified(job) && (running.Some? ==> Classified(running.value))
    ensures running.None? ==> Admits(running, job)
    ensures running.Some? && running.value.mandatory && job.optional ==> !Admits(running, job)
    ensures running.Some? && running.value.optional == job.optional ==>
              (Admits(running, job) <==> running.value.absoluteDeadline > job.absoluteDeadline)
    ensures running.Some? && running.value.optional && job.mandatory ==>
              (Admits(running, job) <==> running.value.absoluteDeadline != job.absoluteDeadline)
    ensures forall p :: Admits(running, job) == Admits(running, job.(period := p))
  {
  }

  /** Two inputs on which the condition differs from "candidate key smaller than the running
      job's key": a shorter period at equal deadlines, and a mandatory candidate against an
      optional job with the same deadline. */
  lemma AdmitsIsNotKeyOrder(t: Task)
    ensures var running := Job(0, t, false, true, 10, 8, false);
            var job := Job(1, t, false, true, 10, 5, false);
            KeyLess(JobKey(job), JobKey(running)) && !Admits(Some(running), job)
    ensures var running := Job(0, t, true, false, 10, 5, false);
            var job := Job(1, t, false, true, 10, 5, false);
            KeyLess(JobKey(job), JobKey(running)) && !Admits(Some(running), job)
  {
    KeyLess3(Num(0), Num(10), Num(5), Num(0), Num(10), Num(8));
    KeyLess3(Num(0), Num(10), Num(5), Num(1), Num(10), Num(5));
  }
}
