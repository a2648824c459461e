/** Shared vocabulary of the three (m,k)-firm scheduler policies: the Python values a
    seed configuration can hold, tasks, jobs, processors, dispatch decisions, and the
    ready-list operations (`in` and `list.remove` on job objects, re-queueing a preempted
    job). */
module Types {

  datatype Option<+T> = None | Some(value: T)

  /** A Python value as far as the seed normalisation looks at it: its type and its
      truthiness. `PyNum` stands for `int` (and `float`, only tested for being non-zero);
      `PySeq` for `list`, `tuple` and `deque`; `PyOther` for any other object. */
  datatype PyValue =
    | PyNone
    | PyBool(b: bool)
    | PyNum(n: int)
    | PyStr(s: string)
    | PySeq(items: seq<PyValue>)
    | PyOther(truthy: bool)

  /** Python truthiness (`bool(v)`). */
  predicate Truthy(v: PyValue) {
    match v
    case PyNone => false
    case PyBool(b) => b
    case PyNum(n) => n != 0
    case PyStr(s) => s != []
    case PySeq(items) => items != []
    case PyOther(t) => t
  }

  /** A task's configuration as the schedulers read it: the (m,k) pair (defaults m = 1,
      k = 1 are the engine's business) and the `initial_k_sequence` seed (PyNone when the
      task data has no such entry). */
  datatype Task = Task(id: nat, m: int, k: int, seed: PyValue)

  /** One activation of a task, as a snapshot of the job object. The object is identified
      by `id`. `optional` and `mandatory` are two separate attributes of the object; the
      schedulers read each of them directly. `exceededDeadline` is the outcome flag, final
      only once the job has terminated. */
  datatype Job = Job(
    id: nat,
    task: Task,
    optional: bool,
    mandatory: bool,
    absoluteDeadline: int,
    period: int,
    exceededDeadline: bool)

  /** The assumption that a job is mandatory exactly when it is not optional. */
  predicate Classified(j: Job) {
    j.mandatory == !j.optional
  }

  datatype Processor = Processor(id: nat, running: Option<Job>)

  /** The pair `(job, cpu)` a scheduler returns to the engine. */
  datatype Decision = Decision(job: Job, cpu: Processor)

  /** Python's `job in ready_list`. A job object is identified by its `id`: the list holds the
      job when some entry has the same `id`, whatever the entries' other attributes say. The
      outcome flag `exceededDeadline` of an entry may predate the job's termination. */
  predicate HasJob(s: seq<Job>, j: Job) {
    exists i :: 0 <= i < |s| && s[i].id == j.id
  }

  /** No two entries of the list are the same job. */
  predicate UniqueIds(s: seq<Job>) {
    forall a, b :: 0 <= a < b < |s| ==> s[a].id != s[b].id
  }

  /** Index of the first entry that is the job `j`. */
  function IndexOfJob(s: seq<Job>, j: Job): (i: nat)
    requires HasJob(s, j)
    ensures i < |s| && s[i].id == j.id
    ensures forall k :: 0 <= k < i ==> s[k].id != j.id
  {
    if s[0].id == j.id then 0
    else
      assert HasJob(s[1..], j) by {
        var k :| 0 <= k < |s| && s[k].id == j.id;
        assert s[1..][k - 1] == s[k];
      }
      1 + IndexOfJob(s[1..], j)
  }

  /** Python's `ready_list.remove(job)`: drops the first entry that is the job. */
  function RemoveJob(s: seq<Job>, j: Job): (r: seq<Job>)
    requires HasJob(s, j)
    ensures |r| == |s| - 1
  {
    var i := IndexOfJob(s, j);
    s[..i] + s[i + 1..]
  }

  /** `list.remove` keeps everything before the first entry that is the job, shifts
      everything after it, and removes that one entry from the multiset of elements; only
      one entry leaves, even when the list holds the job twice. */
  lemma RemoveJobProperties(s: seq<Job>, j: Job)
    requires HasJob(s, j)
    ensures var i, r := IndexOfJob(s, j), RemoveJob(s, j);
            && s[i].id == j.id && (forall k :: 0 <= k < i ==> s[k].id != j.id)
            && r[..i] == s[..i] && r[i..] == s[i + 1..]
            && multiset(r) == multiset(s) - multiset{s[i]}
  {
    var i := IndexOfJob(s, j);
    assert s == s[..i] + [s[i]] + s[i + 1..];
  }

  /** In a list of distinct jobs, removing a job leaves a list of distinct jobs that no
      longer holds it, and the entry `remove` drops is the job itself whenever the list
      holds that very value. */
  lemma RemoveJobUnique(s: seq<Job>, j: Job)
    requires UniqueIds(s) && HasJob(s, j)
    ensures !HasJob(RemoveJob(s, j), j)
    ensures UniqueIds(RemoveJob(s, j))
    ensures j in s ==> s[IndexOfJob(s, j)] == j
  {
    var i := IndexOfJob(s, j);
    var r := RemoveJob(s, j);
    RemoveJobEntries(s, j);
    forall a | 0 <= a < |r| ensures r[a].id != j.id {
      if a >= i {
        assert s[a + 1].id != s[i].id;
      }
    }
    forall a, b | 0 <= a < b < |r| ensures r[a].id != r[b].id {
      var a', b' := if a < i then a else a + 1, if b < i then b else b + 1;
      assert r[a] == s[a'] && r[b] == s[b'] && a' < b';
    }
    if j in s {
      var k :| 0 <= k < |s| && s[k] == j;
      assert k == i;
    }
  }

  /** The entries after `remove`, position by position. */
  lemma RemoveJobEntries(s: seq<Job>, j: Job)
    requires HasJob(s, j)
    ensures var i, r := IndexOfJob(s, j), RemoveJob(s, j);
            forall a :: 0 <= a < |r| ==> r[a] == if a < i then s[a] else s[a + 1]
  {
  }

  /** Membership and removal see only the job's identity: the job object whose termination
      is reported (with its outcome flag set by then) is found and removed exactly as the
      entry the ready list held for it. */
  lemma RemoveJobByIdentity(s: seq<Job>, j: Job, j': Job)
    requires j.id == j'.id
    ensures HasJob(s, j) <==> HasJob(s, j')
    ensures HasJob(s, j) ==> IndexOfJob(s, j) == IndexOfJob(s, j') && RemoveJob(s, j) == RemoveJob(s, j')
  {
  }

  /** A job that was ready, then aborted while still ready (its outcome flag now set), is
      still found in the ready list and is removed from it. */
  lemma AbortedWhileReadyIsRemoved(t: Task)
    ensures var ready := Job(1, t, false, true, 100, 10, false);
            var aborted := ready.(exceededDeadline := true);
            && aborted !in [ready]
            && HasJob([ready], aborted) && RemoveJob([ready], aborted) == []
  {
    var ready := Job(1, t, false, true, 100, 10, false);
    assert [ready][0].id == ready.id;
  }

  /** Appending a job that was not in the list and then removing it restores the list:
      an activation followed by the termination of the same job, before it was ever
      dispatched, leaves the ready list as it was. */
  lemma RemoveJobAppend(s: seq<Job>, x: Job)
    requires !HasJob(s, x)
    ensures HasJob(s + [x], x) && RemoveJob(s + [x], x) == s
  {
    assert (s + [x])[|s|] == x;
    assert forall k :: 0 <= k < |s| ==> (s + [x])[k] == s[k] && s[k].id != x.id;
    assert (s + [x])[..|s|] == s;
  }

  /** The ready list after dispatching `job` onto a processor that was running `preempted`:
      the job leaves the list and the preempted job, if any, goes back at the end. */
  function AfterDispatch(ready: seq<Job>, job: Job, preempted: Option<Job>): (r: seq<Job>)
    requires HasJob(ready, job)
    ensures |r| == if preempted.Some? then |ready| else |ready| - 1
  {
    RemoveJob(ready, job) + (if preempted.Some? then [preempted.value] else [])
  }

  /** Dispatching keeps the ready list's length when it preempts and shortens it by one on
      an idle processor; the preempted job ends up last; as a multiset the list loses the
      dispatched job and gains the preempted one. */
  lemma AfterDispatchProperties(ready: seq<Job>, job: Job, preempted: Option<Job>)
    requires HasJob(ready, job)
    ensures var r, removed := AfterDispatch(ready, job, preempted), ready[IndexOfJob(ready, job)];
            && removed.id == job.id
            && r[..|ready| - 1] == RemoveJob(ready, job)
            && (preempted.Some? ==> r[|r| - 1] == preempted.value)
            && multiset(r) == multiset(ready) - multiset{removed}
                              + (if preempted.Some? then multiset{preempted.value} else multiset{})
            && (UniqueIds(ready) && job in ready ==> removed == job)
  {
    RemoveJobProperties(ready, job);
    if UniqueIds(ready) {
      RemoveJobUnique(ready, job);
    }
  }

  /** Dispatch keeps the ready list free of duplicates and the dispatched job leaves it,
      provided the job it preempts, which was running, is not in the ready list. */
  lemma AfterDispatchUnique(ready: seq<Job>, job: Job, preempted: Option<Job>)
    requires UniqueIds(ready) && HasJob(ready, job)
    requires preempted.Some? ==> !HasJob(ready, preempted.value)
    ensures UniqueIds(AfterDispatch(ready, job, preempted))
    ensures !HasJob(AfterDispatch(ready, job, preempted), job)
  {
    var r := RemoveJob(ready, job);
    RemoveJobUnique(ready, job);
    RemoveJobEntries(ready, job);
    if preempted.Some? {
      var p := preempted.value;
      var r' := r + [p];
      assert p.id != job.id by {
        var i := IndexOfJob(ready, job);
        assert ready[i].id == job.id;
      }
      forall a | 0 <= a < |r'| ensures r'[a].id != job.id {
        if a < |r| {
          assert r'[a] == r[a];
        }
      }
      forall a | 0 <= a < |r| ensures r[a].id != p.id {
        var i := IndexOfJob(ready, job);
        var k := if a < i then a else a + 1;
        assert r[a] == ready[k];
      }
      forall a, b | 0 <= a < b < |r'| ensures r'[a].id != r'[b].id {
        if b == |r| {
          assert r'[a] == r[a] && r'[b] == p;
        } else {
          assert r'[a] == r[a] && r'[b] == r[b];
        }
      }
    }
  }
}
