/** The (m,k)-firm rate-monotonic scheduler (`MK_RMS`): a ready list maintained by the
    activation and termination notifications, the candidate minimal under
    `(optional, period)`, processor selection by longest running period, and a guard that
    compares periods only. */
module Rms {
  import opened Types
  import opened Lex

  /** The job key `(optional, period)`. */
  function JobKey(j: Job): Key {
    [BoolScalar(j.optional), Num(j.period)]
  }

  /** The processor key for `min`: idle first, then the longest running period (`-period`),
      then the requesting processor. */
  function CpuKey(cpu: Processor, x: Processor): Key {
    [Num(if x.running.None? then 0 else 1),
     if x.running.Some? then Num(-x.running.value.period) else Num(0),
     Num(if x.id == cpu.id then 0 else 1)]
  }

  /** The order of job keys: a mandatory job before an optional one, and within a class the
      shorter period first. */
  lemma JobKeyOrder(a: Job, b: Job)
    ensures KeyLess(JobKey(a), JobKey(b)) <==>
              (!a.optional && b.optional) || (a.optional == b.optional && a.period < b.period)
  {
    var ka, kb := JobKey(a), JobKey(b);
    assert ka == [ka[0]] + [ka[1]] && kb == [kb[0]] + [kb[1]];
    assert [ka[1]] == [ka[1]] + [] && [kb[1]] == [kb[1]] + [];
    KeyLessCons(ka[0], [ka[1]], kb[0], [kb[1]]);
    KeyLessCons(ka[1], [], kb[1], []);
  }

  /** The order of processor keys: an idle processor before a busy one; among idle ones the
      requesting processor first; among busy ones the longer running period first, and at
      equal periods the requesting processor first. */
  lemma CpuKeyOrder(cpu: Processor, x: Processor, y: Processor)
    ensures KeyLess(CpuKey(cpu, x), CpuKey(cpu, y)) <==>
      || (x.running.None? && y.running.Some?)
      || (x.running.None? && y.running.None? && x.id == cpu.id && y.id != cpu.id)
      || (x.running.Some? && y.running.Some? &&
          (|| x.running.value.period > y.running.value.period
           || (x.running.value.period == y.running.value.period && x.id == cpu.id && y.id != cpu.id)))
  {
    var kx, ky := CpuKey(cpu, x), CpuKey(cpu, y);
    KeyLess3(kx[0], kx[1], kx[2], ky[0], ky[1], ky[2]);
  }

  function SelectCpu(cpu: Processor, processors: seq<Processor>): (i: nat)
    requires |processors| > 0
    ensures i < |processors|
  {
    ArgMin(processors, x => CpuKey(cpu, x))
  }

  function SelectJob(ready: seq<Job>): (i: nat)
    requires |ready| > 0
    ensures i < |ready|
  {
    ArgMin(ready, JobKey)
  }

  /** The guard: an idle processor or a strictly longer running period, and not an optional
      candidate against a mandatory running job. Between classified jobs it preempts only a
      job whose key is larger than the candidate's. */
  function Admits(running: Option<Job>, job: Job): (r: bool)
    ensures r && running.Some? && Classified(job) && Classified(running.value) ==>
              KeyLess(JobKey(job), JobKey(running.value))
  {
    var r :=
      && (running.None? || running.value.period > job.period)
      && !(running.Some? && running.value.mandatory && job.optional);
    if running.Some? then JobKeyOrder(job, running.value); r else r
  }

  /** The decision of one `schedule` call and the ready list it leaves. */
  datatype Outcome = Outcome(decision: Option<Decision>, ready: seq<Job>)

  /** `schedule(cpu)` as a function of the ready list before the call. */
  function ScheduleStep(ready: seq<Job>, cpu: Processor, processors: seq<Processor>): (o: Outcome)
    requires ready != [] ==> |processors| > 0
    ensures o.decision.None? ==> o.ready == ready
    ensures o.decision.Some? ==> |o.ready| == if o.decision.value.cpu.running.Some? then |ready| else |ready| - 1
    ensures o.decision.Some? ==> o.decision.value.job in ready && o.decision.value.cpu in processors
    ensures o.decision.Some? ==>
              !(o.decision.value.cpu.running.Some? && o.decision.value.cpu.running.value.mandatory &&
                o.decision.value.job.optional)
  {
    if ready == [] then Outcome(None, ready)
    else
      var cpuMin := processors[SelectCpu(cpu, processors)];
      var job := ready[SelectJob(ready)];
      assert job in ready && cpuMin in processors;
      assert ready[SelectJob(ready)].id == job.id;
      if Admits(cpuMin.running, job) then
        Outcome(Some(Decision(job, cpuMin)), AfterDispatch(ready, job, cpuMin.running))
      else
        Outcome(None, ready)
  }

  /** A decision is returned exactly when the ready list is non-empty and the guard admits
      the first minimal job onto the selected processor, and it names that job and that
      processor. */
  lemma ScheduleDecision(ready: seq<Job>, cpu: Processor, processors: seq<Processor>)
    requires ready != [] ==> |processors| > 0
    ensures var o := ScheduleStep(ready, cpu, processors);
            && (o.decision.Some? <==>
                  ready != [] && Admits(processors[SelectCpu(cpu, processors)].running, ready[SelectJob(ready)]))
            && (o.decision.Some? ==>
                  var d := o.decision.value;
                  && d.job == ready[SelectJob(ready)]
                  && IsFirstMin(ready, JobKey, SelectJob(ready))
                  && d.cpu == processors[SelectCpu(cpu, processors)]
                  && IsFirstMin(processors, x => CpuKey(cpu, x), SelectCpu(cpu, processors))
                  && o.ready == AfterDispatch(ready, d.job, d.cpu.running))
  {
  }

  /** On dispatch the job leaves the ready list (its first entry), the rest keeps its
      order, and the preempted job, if any, is appended at the end: as a multiset the list
      trades the removed entry, which is the dispatched job whenever the list holds no job
      twice, for the preempted one. */
  lemma ScheduleReadyList(ready: seq<Job>, cpu: Processor, processors: seq<Processor>)
    requires ready != [] ==> |processors| > 0
    ensures var o := ScheduleStep(ready, cpu, processors);
            o.decision.Some? ==>
              var d := o.decision.value;
              && HasJob(ready, d.job)
              && var removed := ready[IndexOfJob(ready, d.job)];
              && removed.id == d.job.id
              && (UniqueIds(ready) ==> removed == d.job)
              && o.ready[..|ready| - 1] == RemoveJob(ready, d.job)
              && (d.cpu.running.Some? ==> o.ready[|o.ready| - 1] == d.cpu.running.value)
              && multiset(o.ready) + multiset{removed} ==
                 multiset(ready) + (if d.cpu.running.Some? then multiset{d.cpu.running.value} else multiset{})
  {
    var o := ScheduleStep(ready, cpu, processors);
    if o.decision.Some? {
      var d := o.decision.value;
      ScheduleDecision(ready, cpu, processors);
      assert ready[SelectJob(ready)].id == d.job.id;
      AfterDispatchProperties(ready, d.job, d.cpu.running);
      assert ready[IndexOfJob(ready, d.job)] in multiset(ready);
    }
  }

  /** As long as no running job is also in the ready list, `schedule` keeps the ready list
      free of duplicates, and a dispatched job leaves it. */
  lemma ScheduleKeepsUnique(ready: seq<Job>, cpu: Processor, processors: seq<Processor>)
    requires ready != [] ==> |processors| > 0
    requires UniqueIds(ready)
    requires forall p :: p in processors && p.running.Some? ==> !HasJob(ready, p.running.value)
    ensures var o := ScheduleStep(ready, cpu, processors);
            UniqueIds(o.ready) && (o.decision.Some? ==> !HasJob(o.ready, o.decision.value.job))
  {
    var o := ScheduleStep(ready, cpu, processors);
    if o.decision.Some? {
      var d := o.decision.value;
      ScheduleDecision(ready, cpu, processors);
      assert ready[SelectJob(ready)].id == d.job.id;
      AfterDispatchUnique(ready, d.job, d.cpu.running);
    }
  }

  /** Job selection: within the candidate's class no ready job has a shorter period. */
  lemma SelectJobShortestPeriod(ready: seq<Job>)
    requires |ready| > 0
    ensures var c := ready[SelectJob(ready)];
            forall j :: 0 <= j < |ready| && ready[j].optional == c.optional ==> c.period <= ready[j].period
  {
    var i := SelectJob(ready);
    var c := ready[i];
    assert IsFirstMin(ready, JobKey, i);
    forall j | 0 <= j < |ready| && ready[j].optional == c.optional
      ensures c.period <= ready[j].period
    {
      var kj, kc := JobKey(ready[j]), JobKey(c);
      assert !KeyLess(kj, kc);
      assert kj == [kj[0]] + [kj[1]] && kc == [kc[0]] + [kc[1]];
      KeyLessCons(kj[0], [kj[1]], kc[0], [kc[1]]);
      KeyLessCons(kj[1], [], kc[1], []);
      assert [kj[1]] == [kj[1]] + [] && [kc[1]] == [kc[1]] + [];
    }
  }

  /** Whenever a mandatory job is ready, the candidate is mandatory. */
  lemma SelectJobPrefersMandatory(ready: seq<Job>, j: nat)
    requires j < |ready| && ready[j].mandatory
    requires forall x :: x in ready ==> Classified(x)
    ensures ready[SelectJob(ready)].mandatory
  {
    assert ready[j] in ready && ready[SelectJob(ready)] in ready;
    FirstMinPrefersClearFlag(ready, JobKey, (x: Job) => x.optional, j);
  }

  /** Processor selection: an idle processor whenever there is one, the requesting
      processor when it is idle; otherwise a processor whose running job has the longest
      period, the requesting processor when it is among those, and else the first of them
      in list order. */
  lemma SelectCpuChoice(cpu: Processor, processors: seq<Processor>)
    requires |processors| > 0
    ensures var i := SelectCpu(cpu, processors);
            var c := processors[i];
      && ((exists j :: 0 <= j < |processors| && processors[j].running.None?) ==>
            c.running.None?)
      && ((exists j :: 0 <= j < |processors| && processors[j].running.None? && processors[j].id == cpu.id) ==>
            c.id == cpu.id)
      && ((c.running.None? && c.id != cpu.id) ==>
            forall j :: 0 <= j < i ==> processors[j].running.Some?)
      && (c.running.Some? ==> forall j :: 0 <= j < |processors| ==>
            processors[j].running.Some? &&
            processors[j].running.value.period <= c.running.value.period)
      && (c.running.Some? ==> forall j :: 0 <= j < |processors| ==>
            (processors[j].id == cpu.id &&
             processors[j].running.value.period == c.running.value.period) ==>
            c.id == cpu.id)
      && (c.running.Some? ==> forall j :: 0 <= j < i ==>
            processors[j].running.value.period < c.running.value.period ||
            (processors[j].id != cpu.id && c.id == cpu.id))
  {
    var key := x => CpuKey(cpu, x);
    var i := SelectCpu(cpu, processors);
    var c := processors[i];
    assert IsFirstMin(processors, key, i);
    forall j | 0 <= j < |processors|
      ensures !KeyLess(CpuKey(cpu, processors[j]), CpuKey(cpu, c))
      ensures j < i ==> KeyLess(CpuKey(cpu, c), CpuKey(cpu, processors[j]))
    {
    }
    forall j | 0 <= j < |processors|
      ensures processors[j].running.None? ==> c.running.None?
      ensures processors[j].running.None? && processors[j].id == cpu.id ==> c.id == cpu.id
      ensures c.running.None? && c.id != cpu.id && j < i ==> processors[j].running.Some?
      ensures c.running.Some? ==>
        processors[j].running.Some? &&
        processors[j].running.value.period <= c.running.value.period
      ensures (c.running.Some? && processors[j].id == cpu.id &&
               processors[j].running.value.period == c.running.value.period) ==>
        c.id == cpu.id
      ensures c.running.Some? && j < i ==>
        processors[j].running.value.period < c.running.value.period ||
        (processors[j].id != cpu.id && c.id == cpu.id)
    {
      var kp, kc := CpuKey(cpu, processors[j]), CpuKey(cpu, c);
      KeyLess3(kp[0], kp[1], kp[2], kc[0], kc[1], kc[2]);
      KeyLess3(kc[0], kc[1], kc[2], kp[0], kp[1], kp[2]);
    }
  }

  /** The guard case by case: an idle processor always admits; an optional candidate never
      preempts a mandatory job; otherwise preemption happens exactly when the candidate's
      period is strictly shorter, whatever the classes and the deadlines. */
  lemma AdmitsCases(running: Option<Job>, job: Job)
    requires Classified(job) && (running.Some? ==> Classified(running.value))
    ensures running.None? ==> Admits(running, job)
    ensures running.Some? && running.value.mandatory && job.optional ==> !Admits(running, job)
    ensures running.Some? && !(running.value.mandatory && job.optional) ==>
              (Admits(running, job) <==> job.period < running.value.period)
    ensures forall dl :: Admits(running, job) == Admits(running, job.(absoluteDeadline := dl))
  {
  }

  /** A mandatory candidate whose period equals that of the optional running job has the
      smaller key, yet the guard does not let it preempt. */
  lemma AdmitsIsNotKeyOrder(t: Task)
    ensures var running := Job(0, t, true, false, 10, 5, false);
            var job := Job(1, t, false, true, 10, 5, false);
            KeyLess(JobKey(job), JobKey(running)) && !Admits(Some(running), job)
  {
    assert [Num(0), Num(5)] == [Num(0)] + [Num(5)] && [Num(1), Num(5)] == [Num(1)] + [Num(5)];
    KeyLessCons(Num(0), [Num(5)], Num(1), [Num(5)]);
  }

  /** The scheduler object: its ready list. */
  class RmsScheduler {
    var readyList: seq<Job>

    /** `init`: an empty ready list. */
    method Init()
      modifies this
      ensures readyList == []
    {
      readyList := [];
    }

    /** `on_activate`: the job joins the end of the ready list; a reschedule is requested. */
    method OnActivate(job: Job) returns (resched: bool)
      modifies this
      ensures readyList == old(readyList) + [job]
      ensures resched
      ensures UniqueIds(old(readyList)) && !HasJob(old(readyList), job) ==> UniqueIds(readyList)
    {
      readyList := readyList + [job];
      resched := true;
    }

    /** `on_terminated`: a job still in the ready list leaves it (its first entry);
        otherwise the list is unchanged and a reschedule is requested. */
    method OnTerminated(job: Job) returns (resched: bool)
      modifies this
      ensures readyList == if HasJob(old(readyList), job) then RemoveJob(old(readyList), job) else old(readyList)
      ensures resched <==> !HasJob(old(readyList), job)
      ensures UniqueIds(old(readyList)) ==> !HasJob(readyList, job) && UniqueIds(readyList)
    {
      if HasJob(readyList, job) {
        if UniqueIds(readyList) {
          RemoveJobUnique(readyList, job);
        }
        readyList := RemoveJob(readyList, job);
        resched := false;
      } else {
        resched := true;
      }
    }

    /** `schedule(cpu)`. */
    method Schedule(cpu: Processor, processors: seq<Processor>) returns (decision: Option<Decision>)
      requires readyList != [] ==> |processors| > 0
      modifies this
      ensures Outcome(decision, readyList) == ScheduleStep(old(readyList), cpu, processors)
    {
      decision := None;
      if readyList != [] {
        var cpuMin := processors[SelectCpu(cpu, processors)];
        var job := readyList[SelectJob(readyList)];
        assert readyList[SelectJob(readyList)].id == job.id;
        if Admits(cpuMin.running, job) {
          readyList := RemoveJob(readyList, job);
          if cpuMin.running.Some? {
            readyList := readyList + [cpuMin.running.value];
          }
          decision := Some(Decision(job, cpuMin));
        }
      }
    }
  }
}
