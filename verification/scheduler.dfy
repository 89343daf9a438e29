/**
 * Scheduler.cpp: the multilevel feedback queue. `runs` holds one FIFO of pids
 * per priority level, the highest index being the most important; `quants`
 * holds each level's time quantum; `jobs` is an arena keyed by pid that
 * stands for the JobHashTable of job pointers; `completed` is the set of pids
 * whose table entry was made complete. `Step` is one iteration of the
 * `process` loop without its console I/O.
 */
module Scheduling {
  import opened Errors
  import opened SeqUtil
  import opened Jobs
  import BST

  /** Scheduler.h:20-21, in milliseconds. */
  const BASE_QUANTUM := 1000
  const DIFF_QUANTUM := 100

  /** Scheduler.cpp:15: the most levels whose quanta all stay positive. */
  const MAX_LEVELS := BASE_QUANTUM / DIFF_QUANTUM

  /** Scheduler.cpp:26: the quantum of level `i`. */
  function Quantum(i: int): int {
    BASE_QUANTUM - i * DIFF_QUANTUM
  }

  /**
   * What the scheduler knows about one job: the remaining burst, the memory
   * it is charged, its status, the tree of pids it still waits for and the
   * pids that wait for it.
   */
  datatype JobRecord = JobRecord(
    execTime: int,
    resources: int,
    status: Status,
    deps: BST.Tree,
    successors: seq<int>)

  // ---------------------------------------------------------------------
  // Memory accounting over the queued jobs

  /** The memory charged for `pid`: its resources, or nothing for a pid the arena lacks. */
  function Charge(jobs: map<int, JobRecord>, pid: int): int {
    if pid in jobs then jobs[pid].resources else 0
  }

  /** Memory charged by the jobs queued on one level, one charge per entry. */
  function LevelMemory(q: seq<int>, jobs: map<int, JobRecord>): int
    decreases |q|
  {
    if q == [] then 0 else LevelMemory(q[..|q| - 1], jobs) + Charge(jobs, q[|q| - 1])
  }

  /** Memory charged by every queued job, level by level. */
  function QueuedMemory(runs: seq<seq<int>>, jobs: map<int, JobRecord>): int
    decreases |runs|
  {
    if runs == [] then 0
    else QueuedMemory(runs[..|runs| - 1], jobs) + LevelMemory(runs[|runs| - 1], jobs)
  }

  /** Every queued pid, with multiplicity. */
  function Queued(runs: seq<seq<int>>): multiset<int>
    decreases |runs|
  {
    if runs == [] then multiset{} else Queued(runs[..|runs| - 1]) + multiset(runs[|runs| - 1])
  }

  /** Appending to a level adds the newcomer's charge. */
  lemma LevelMemorySnoc(q: seq<int>, pid: int, jobs: map<int, JobRecord>)
    ensures LevelMemory(q + [pid], jobs) == LevelMemory(q, jobs) + Charge(jobs, pid)
  {
    assert (q + [pid])[..|q|] == q;
  }

  /** Popping the front of a level removes the front's charge. */
  lemma {:induction false} LevelMemoryFront(q: seq<int>, jobs: map<int, JobRecord>)
    requires q != []
    ensures LevelMemory(q, jobs) == Charge(jobs, q[0]) + LevelMemory(q[1..], jobs)
    decreases |q|
  {
    if |q| == 1 {
      assert q[1..] == [] && q[..0] == [];
    } else {
      var init := q[..|q| - 1];
      LevelMemoryFront(init, jobs);
      assert init[1..] == q[1..][..|q| - 2];
      assert q[1..][|q| - 2] == q[|q| - 1];
    }
  }

  /** Replacing one level changes the total by the difference of the two levels. */
  lemma {:induction false} QueuedMemoryUpdate(runs: seq<seq<int>>, l: nat, q: seq<int>, jobs: map<int, JobRecord>)
    requires l < |runs|
    ensures QueuedMemory(runs[l := q], jobs) + LevelMemory(runs[l], jobs)
            == QueuedMemory(runs, jobs) + LevelMemory(q, jobs)
    decreases |runs|
  {
    var n := |runs| - 1;
    var u := runs[l := q];
    if l == n {
      assert u[..n] == runs[..n];
    } else {
      assert u[..n] == runs[..n][l := q];
      QueuedMemoryUpdate(runs[..n], l, q, jobs);
    }
  }

  /** Replacing one level trades its pids for the new level's. */
  lemma {:induction false} QueuedUpdate(runs: seq<seq<int>>, l: nat, q: seq<int>)
    requires l < |runs|
    ensures Queued(runs[l := q]) + multiset(runs[l]) == Queued(runs) + multiset(q)
    decreases |runs|
  {
    var n := |runs| - 1;
    var u := runs[l := q];
    if l == n {
      assert u[..n] == runs[..n];
      UnionSwap(Queued(runs[..n]), multiset(q), multiset(runs[l]));
    } else {
      assert u[..n] == runs[..n][l := q];
      QueuedUpdate(runs[..n], l, q);
      UnionInsert(Queued(u[..n]), Queued(runs[..n]), multiset(runs[l]), multiset(q), multiset(runs[n]));
    }
  }

  /** `jobs2` charges every job of `jobs` the same. */
  ghost predicate SameCharges(jobs: map<int, JobRecord>, jobs2: map<int, JobRecord>) {
    forall p :: p in jobs ==> p in jobs2 && jobs2[p].resources == jobs[p].resources
  }

  /** Every pid of `q` is in the arena. */
  ghost predicate AllIn(q: seq<int>, jobs: map<int, JobRecord>) {
    forall x :: x in q ==> x in jobs
  }

  /** Every queued pid is in the arena. */
  ghost predicate Known(runs: seq<seq<int>>, jobs: map<int, JobRecord>) {
    forall l :: 0 <= l < |runs| ==> AllIn(runs[l], jobs)
  }

  /** A level's charge depends only on the resources of its own jobs. */
  lemma {:induction false} LevelMemoryFrame(q: seq<int>, jobs: map<int, JobRecord>, jobs2: map<int, JobRecord>)
    requires AllIn(q, jobs) && SameCharges(jobs, jobs2)
    ensures LevelMemory(q, jobs) == LevelMemory(q, jobs2)
    decreases |q|
  {
    if q != [] {
      assert q[|q| - 1] in q;
      LevelMemoryFrame(q[..|q| - 1], jobs, jobs2);
    }
  }

  /** The total charge depends only on the resources of the queued jobs. */
  lemma {:induction false} QueuedMemoryFrame(runs: seq<seq<int>>, jobs: map<int, JobRecord>, jobs2: map<int, JobRecord>)
    requires Known(runs, jobs) && SameCharges(jobs, jobs2)
    ensures QueuedMemory(runs, jobs) == QueuedMemory(runs, jobs2)
    decreases |runs|
  {
    if runs != [] {
      var n := |runs| - 1;
      assert AllIn(runs[n], jobs);
      assert Known(runs[..n], jobs) by {
        forall l | 0 <= l < n ensures AllIn(runs[..n][l], jobs) {
          assert runs[..n][l] == runs[l];
          assert AllIn(runs[l], jobs);
        }
      }
      QueuedMemoryFrame(runs[..n], jobs, jobs2);
      LevelMemoryFrame(runs[n], jobs, jobs2);
    }
  }

  // ---------------------------------------------------------------------
  // Selection, slice and demotion as functions of the queues

  /**
   * The priority scan of Scheduler.cpp:49-55 begun at level `start`: the first
   * non-empty level at or below it. A start past the last level reads outside
   * `runs`, which the model reports as OutOfRange.
   */
  function Scan(runs: seq<seq<int>>, start: int): (r: Result<nat>)
    ensures start < |runs| && r.Ok? ==>
              && r.value <= start && runs[r.value] != []
              && forall l :: r.value < l <= start ==> runs[l] == []
    ensures start < |runs| ==> (r.Err? <==> forall l :: 0 <= l <= start ==> runs[l] == [])
    ensures start < |runs| && r.Err? ==> r.error == NoRunnableJob
    decreases start + 1
  {
    if start < 0 then Err(NoRunnableJob)
    else if start >= |runs| then Err(OutOfRange)
    else if runs[start] != [] then Ok(start)
    else Scan(runs, start - 1)
  }

  /**
   * Scheduler.cpp:45-59 with the scan begun at the last level: the highest
   * non-empty level, or NoRunnableJob when every level is empty.
   */
  function Select(runs: seq<seq<int>>): (r: Result<nat>)
    ensures r.Ok? ==> r.value < |runs| && runs[r.value] != []
                      && forall l :: r.value < l < |runs| ==> runs[l] == []
    ensures r.Err? <==> forall l :: 0 <= l < |runs| ==> runs[l] == []
    ensures r.Err? ==> r.error == NoRunnableJob
  {
    Scan(runs, |runs| - 1)
  }

  /** Scheduler.cpp:45 as written: the scan begins at `runs.size()`. */
  function SelectAsWritten(runs: seq<seq<int>>): (r: Result<nat>)
    ensures r == Err(OutOfRange)
  {
    Scan(runs, |runs|)
  }

  /** With one job waiting on the only level, the as-written scan reads past `runs` first. */
  lemma SelectAsWrittenMissesWaitingJob()
    ensures Select([[5]]) == Ok(0)
    ensures SelectAsWritten([[5]]) == Err(OutOfRange)
  {
    assert Scan([[5]], 0) == Ok(0);
  }

  /**
   * The job after a slice of quantum `q` (Scheduler.cpp:64-69), where each
   * `decrement_time()` runs one unit: a job that fits completes with its last
   * unit left on the clock, any other one loses `q` units.
   */
  function AfterSlice(rec: JobRecord, q: int): JobRecord {
    if rec.status == COMPLETE then rec
    else if rec.execTime <= q then rec.(status := COMPLETE, execTime := Min(rec.execTime, 1))
    else rec.(execTime := rec.execTime - q)
  }

  /** The units of the quantum a slice uses. */
  function SliceUnits(rec: JobRecord, q: int): int {
    if rec.status == COMPLETE then 0 else Min(Max(rec.execTime, 1), q)
  }

  /** A slice of a runnable job uses min(quantum, remaining) units and completes it exactly when that is all of it. */
  lemma SliceConsumes(rec: JobRecord, q: int)
    requires q > 0 && rec.status != COMPLETE && rec.execTime >= 1
    ensures SliceUnits(rec, q) == Min(q, rec.execTime)
    ensures AfterSlice(rec, q).status == COMPLETE <==> rec.execTime <= q
    ensures AfterSlice(rec, q).status != COMPLETE ==>
              AfterSlice(rec, q).execTime == rec.execTime - SliceUnits(rec, q)
    ensures AfterSlice(rec, q).resources == rec.resources
  {
  }

  /** Scheduler.cpp:88-90: the level a job that used up its slice moves to. */
  function Below(p: nat): nat {
    if p > 0 then p - 1 else 0
  }

  /** Scheduler.cpp:86-92: the front of level `p` goes to the back of the level below (level 0 round-robins). */
  function Demoted(runs: seq<seq<int>>, p: nat): seq<seq<int>>
    requires p < |runs| && runs[p] != []
  {
    var popped := runs[p := runs[p][1..]];
    popped[Below(p) := popped[Below(p)] + [runs[p][0]]]
  }

  /** Demotion loses no job and adds none: the queued pids are the same multiset. */
  lemma DemotedConserves(runs: seq<seq<int>>, p: nat)
    requires p < |runs| && runs[p] != []
    ensures |Demoted(runs, p)| == |runs|
    ensures Queued(Demoted(runs, p)) == Queued(runs)
    ensures var low := Demoted(runs, p)[Below(p)]; low != [] && low[|low| - 1] == runs[p][0]
  {
    var x := runs[p][0];
    var tail := runs[p][1..];
    var popped := runs[p := tail];
    var b := Below(p);
    var low := popped[b] + [x];
    assert runs[p] == [x] + tail;
    assert multiset(runs[p]) == multiset(tail) + multiset{x};
    QueuedUpdate(runs, p, tail);
    QueuedUpdate(popped, b, low);
    assert Queued(popped) + multiset{x} == Queued(runs) by {
      MultisetAddCancel(Queued(popped) + multiset{x}, Queued(runs), multiset(tail));
    }
    assert Queued(Demoted(runs, p)) == Queued(popped) + multiset{x} by {
      MultisetAddCancel(Queued(Demoted(runs, p)), Queued(popped) + multiset{x}, multiset(popped[b]));
    }
  }

  /** Demotion leaves the memory charge unchanged. */
  lemma DemotedMemory(runs: seq<seq<int>>, p: nat, jobs: map<int, JobRecord>)
    requires p < |runs| && runs[p] != []
    ensures QueuedMemory(Demoted(runs, p), jobs) == QueuedMemory(runs, jobs)
  {
    var x := runs[p][0];
    var tail := runs[p][1..];
    var popped := runs[p := tail];
    var b := Below(p);
    LevelMemoryFront(runs[p], jobs);
    LevelMemorySnoc(popped[b], x, jobs);
    QueuedMemoryUpdate(runs, p, tail, jobs);
    QueuedMemoryUpdate(popped, b, popped[b] + [x], jobs);
  }

  /** Demotion queues no pid the arena lacks. */
  lemma DemotedKnown(runs: seq<seq<int>>, p: nat, jobs: map<int, JobRecord>)
    requires p < |runs| && runs[p] != [] && Known(runs, jobs)
    ensures Known(Demoted(runs, p), jobs)
  {
    assert AllIn(runs[p], jobs);
    forall l | 0 <= l < |runs| ensures AllIn(Demoted(runs, p)[l], jobs) {
      assert AllIn(runs[l], jobs);
    }
  }

  /** Scheduler.cpp:230: `ps` join the back of the highest level, in order. */
  function Admit(runs: seq<seq<int>>, ps: seq<int>): seq<seq<int>>
    requires |runs| > 0
  {
    runs[|runs| - 1 := runs[|runs| - 1] + ps]
  }

  /** Admitting two batches one after the other admits them together. */
  lemma AdmitTwice(runs: seq<seq<int>>, a: seq<int>, b: seq<int>)
    requires |runs| > 0
    ensures Admit(Admit(runs, a), b) == Admit(runs, a + b)
  {
    assert runs[|runs| - 1] + a + b == runs[|runs| - 1] + (a + b);
  }

  // ---------------------------------------------------------------------
  // Releasing dependents

  /** Scheduler.cpp:266-270 for one dependent: drop `pid` from its tree; an emptied tree starts it. */
  function Release(rec: JobRecord, pid: int): JobRecord {
    var d := BST.RemoveFrom(rec.deps, pid).0;
    rec.(deps := d, status := if d == BST.Nil then RUNNING else rec.status)
  }

  /** The dependents in `succ` whose trees the removal of `pid` empties, in list order. */
  function Started(succ: seq<int>, jobs: map<int, JobRecord>, pid: int): seq<int>
    decreases |succ|
  {
    if succ == [] then []
    else
      var s := succ[|succ| - 1];
      Started(succ[..|succ| - 1], jobs, pid)
        + (if s in jobs && BST.RemoveFrom(jobs[s].deps, pid).0 == BST.Nil then [s] else [])
  }

  /** The arena after releasing `pid` from each dependent in `succ`. */
  function Released(jobs: map<int, JobRecord>, succ: seq<int>, pid: int): map<int, JobRecord> {
    map q | q in jobs :: if q in succ then Release(jobs[q], pid) else jobs[q]
  }

  /** A well-formed tree is empty exactly when it holds no value. */
  lemma EmptyTree(t: BST.Tree)
    requires BST.IsBST(t)
    ensures t == BST.Nil <==> BST.Elements(t) == multiset{}
  {
    if t.Node? {
      assert t.data in BST.Copies(t.data, t.count);
    }
  }

  /**
   * A dependent is started exactly when one copy of `pid` was all it still
   * waited for.
   */
  lemma {:induction false} StartedExactly(succ: seq<int>, jobs: map<int, JobRecord>, pid: int, s: int)
    requires forall x :: x in succ ==> x in jobs && BST.IsBST(jobs[x].deps)
    ensures s in Started(succ, jobs, pid) <==>
              s in succ && BST.Elements(jobs[s].deps) - multiset{pid} == multiset{}
    decreases |succ|
  {
    if succ != [] {
      var n := |succ| - 1;
      var last := succ[n];
      assert succ == succ[..n] + [last];
      StartedExactly(succ[..n], jobs, pid, s);
      if s == last {
        BST.RemoveFromOrdered(jobs[s].deps, pid);
        BST.RemoveFromElements(jobs[s].deps, pid);
        EmptyTree(BST.RemoveFrom(jobs[s].deps, pid).0);
      }
    }
  }

  /** Releasing one more dependent updates only that dependent. */
  lemma ReleasedSnoc(jobs: map<int, JobRecord>, succ: seq<int>, i: nat, pid: int)
    requires i < |succ| && succ[i] in jobs && succ[i] !in succ[..i]
    ensures Released(jobs, succ[..i + 1], pid)
            == Released(jobs, succ[..i], pid)[succ[i] := Release(jobs[succ[i]], pid)]
  {
    assert succ[..i + 1] == succ[..i] + [succ[i]];
  }

  /** The dependents started so far grow by the one just released, if it was emptied. */
  lemma StartedSnoc(succ: seq<int>, i: nat, jobs: map<int, JobRecord>, pid: int)
    requires i < |succ|
    ensures Started(succ[..i + 1], jobs, pid)
            == Started(succ[..i], jobs, pid)
               + (if succ[i] in jobs && BST.RemoveFrom(jobs[succ[i]].deps, pid).0 == BST.Nil then [succ[i]] else [])
  {
    assert succ[..i + 1][..i] == succ[..i];
  }

  // ---------------------------------------------------------------------
  // Reading dependencies

  /**
   * The filter of Scheduler.cpp:212-220 over the pids typed before the -1
   * terminator: a pid whose job is complete is dropped, a pending one is kept,
   * and a pid the table never held makes `find_job` throw.
   */
  function FilterDependencies(listed: seq<int>, jobs: map<int, JobRecord>, completed: set<int>): (r: Result<seq<int>>)
    ensures r.Err? <==> exists x :: x in listed && x !in jobs
    ensures r.Err? ==> r.error == NotFound
    ensures r.Ok? ==> forall x :: x in r.value <==> x in listed && x !in completed
    ensures r.Ok? ==> |r.value| <= |listed|
    decreases |listed|
  {
    if listed == [] then Ok([])
    else
      var init := listed[..|listed| - 1];
      var x := listed[|listed| - 1];
      assert listed == init + [x];
      var rest := FilterDependencies(init, jobs, completed);
      if rest.Err? then rest
      else if x !in jobs then Err(NotFound)
      else if x in completed then rest
      else Ok(rest.value + [x])
  }

  // ---------------------------------------------------------------------
  // Well-formed arenas

  /** A job's tree is ordered, its successors are distinct and all in the arena. */
  ghost predicate WellLinked(rec: JobRecord, jobs: map<int, JobRecord>) {
    && BST.IsBST(rec.deps)
    && Distinct(rec.successors)
    && forall s :: s in rec.successors ==> s in jobs
  }

  ghost predicate Linked(jobs: map<int, JobRecord>) {
    forall p :: p in jobs ==> WellLinked(jobs[p], jobs)
  }

  lemma LinkedAt(jobs: map<int, JobRecord>, p: int)
    requires Linked(jobs) && p in jobs
    ensures WellLinked(jobs[p], jobs)
  {
  }

  /** Replacing one record by a well-linked one keeps the arena well-linked. */
  lemma LinkedUpdate(jobs: map<int, JobRecord>, p: int, rec: JobRecord)
    requires Linked(jobs) && p in jobs && WellLinked(rec, jobs)
    ensures Linked(jobs[p := rec])
  {
    var u := jobs[p := rec];
    assert u.Keys == jobs.Keys;
    forall q | q in u ensures WellLinked(u[q], u) {
      if q != p {
        assert WellLinked(jobs[q], jobs);
      }
    }
  }

  /** Adding a record whose links are in the arena keeps the arena well-linked. */
  lemma LinkedAdd(jobs: map<int, JobRecord>, p: int, rec: JobRecord)
    requires Linked(jobs) && p !in jobs && WellLinked(rec, jobs[p := rec])
    ensures Linked(jobs[p := rec])
  {
    var u := jobs[p := rec];
    forall q | q in u ensures WellLinked(u[q], u) {
      if q != p {
        assert WellLinked(jobs[q], jobs);
      }
    }
  }

  /** The arena after `pid` is appended to the successors of every job in `ps`. */
  function AppendedTo(jobs: map<int, JobRecord>, ps: seq<int>, pid: int): map<int, JobRecord> {
    map q | q in jobs :: if q in ps then jobs[q].(successors := jobs[q].successors + [pid]) else jobs[q]
  }

  /** Only the membership of the list matters. */
  lemma AppendedSame(jobs: map<int, JobRecord>, a: seq<int>, b: seq<int>, pid: int)
    requires forall x :: x in a <==> x in b
    ensures AppendedTo(jobs, a, pid) == AppendedTo(jobs, b, pid)
  {
    var u, v := AppendedTo(jobs, a, pid), AppendedTo(jobs, b, pid);
    assert u.Keys == v.Keys;
    forall q | q in u ensures u[q] == v[q] {
      assert q in a <==> q in b;
    }
  }

  lemma AppendedSnoc(jobs: map<int, JobRecord>, ps: seq<int>, i: nat, pid: int)
    requires i < |ps| && ps[i] in jobs && ps[i] !in ps[..i]
    ensures AppendedTo(jobs, ps[..i + 1], pid)
            == AppendedTo(jobs, ps[..i], pid)[ps[i] := jobs[ps[i]].(successors := jobs[ps[i]].successors + [pid])]
  {
    assert ps[..i + 1] == ps[..i] + [ps[i]];
  }

  // ---------------------------------------------------------------------

  class Scheduler {
    /** Scheduler.h:26: one FIFO of pids per level. */
    var runs: seq<seq<int>>
    /** Scheduler.h:27: the quantum of each level, fixed at construction. */
    const quants: seq<int>
    /** Scheduler.h:29: every job admitted so far, running, waiting or complete. */
    var jobs: map<int, JobRecord>
    /** The pids that `make_complete` has marked in the table. */
    var completed: set<int>
    var memoryUsed: int
    var current: int
    var priority: int

    /** The level quanta follow Scheduler.cpp:25-27 and every level has one. */
    ghost predicate Levels()
      reads this
    {
      && |runs| == |quants| <= MAX_LEVELS
      && forall i :: 0 <= i < |quants| ==> quants[i] == Quantum(i)
    }

    ghost predicate Valid()
      reads this
    {
      && Levels()
      && Known(runs, jobs)
      && memoryUsed == QueuedMemory(runs, jobs)
      && Linked(jobs)
      && completed <= jobs.Keys
    }

    /** The quanta are positive and strictly decreasing from level 0 upwards. */
    lemma QuantaDecrease()
      requires Levels()
      ensures forall i, j :: 0 <= i < j < |quants| ==> quants[i] > quants[j] > 0
    {
    }

    /** Scheduler.cpp:21-30: `numQueues` empty levels with their quanta and nothing charged. */
    constructor (numQueues: int)
      requires 0 <= numQueues <= MAX_LEVELS
      ensures Valid()
      ensures |runs| == numQueues && forall l :: 0 <= l < numQueues ==> runs[l] == []
      ensures memoryUsed == 0 && jobs == map[] && completed == {}
    {
      var qs := [];
      var i := 0;
      while i < numQueues && i < MAX_LEVELS
        invariant 0 <= i <= numQueues
        invariant |qs| == i && forall k :: 0 <= k < i ==> qs[k] == Quantum(k)
      {
        qs := qs + [BASE_QUANTUM - i * DIFF_QUANTUM];
        i := i + 1;
      }
      runs := seq(numQueues, _ => []);
      quants := qs;
      jobs := map[];
      completed := {};
      memoryUsed := 0;
      new;
      assert QueuedMemory(runs, jobs) == 0 by {
        QueuedZero(runs, jobs);
      }
    }

    /** Scheduler.cpp:15-19: more levels than BASE_QUANTUM / DIFF_QUANTUM are refused. */
    static method Create(numQueues: int) returns (r: Result<Scheduler>)
      requires numQueues >= 0
      ensures r.Err? <==> numQueues > MAX_LEVELS
      ensures r.Err? ==> r.error == LogicError
      ensures r.Ok? ==> fresh(r.value) && r.value.Valid() && |r.value.runs| == numQueues
    {
      if numQueues > MAX_LEVELS {
        return Err(LogicError);
      }
      var s := new Scheduler(numQueues);
      return Ok(s);
    }

    /**
     * Scheduler.cpp:228-232: the job becomes RUNNING, joins the back of the
     * highest level and is charged its memory.
     */
    method StartProcessing(pid: int)
      requires Valid() && pid in jobs && |runs| > 0
      modifies this`jobs, this`runs, this`memoryUsed
      ensures Valid()
      ensures jobs == old(jobs)[pid := old(jobs[pid]).(status := RUNNING)]
      ensures runs == Admit(old(runs), [pid])
      ensures memoryUsed == old(memoryUsed) + old(jobs[pid].resources)
    {
      var rec := jobs[pid];
      var top := |runs| - 1;
      var level := runs[top] + [pid];
      ghost var jobs0 := jobs;
      jobs := jobs[pid := rec.(status := RUNNING)];
      LinkedUpdate(jobs0, pid, rec.(status := RUNNING));
      QueuedMemoryFrame(runs, jobs0, jobs);
      QueuedMemoryUpdate(runs, top, level, jobs);
      LevelMemorySnoc(runs[top], pid, jobs);
      assert AllIn(runs[top], jobs);
      runs := runs[top := level];
      memoryUsed := memoryUsed + rec.resources;
    }

    /**
     * Scheduler.cpp:202-222 without the `cin` reads: every pid of `listed`
     * that is still pending goes into a fresh dependency tree, a completed one
     * is skipped, and a pid the table never held ends the read with an error.
     */
    method ReadDependencies(listed: seq<int>) returns (r: Result<BST.Tree>)
      ensures r.Err? <==> FilterDependencies(listed, jobs, completed).Err?
      ensures r.Err? ==> r.error == NotFound
      ensures r.Ok? ==> BST.IsBST(r.value)
                        && BST.Elements(r.value) == multiset(FilterDependencies(listed, jobs, completed).value)
    {
      var deps := BST.Nil;
      var i := 0;
      while i < |listed|
        invariant 0 <= i <= |listed|
        invariant FilterDependencies(listed[..i], jobs, completed).Ok?
        invariant BST.IsBST(deps)
        invariant BST.Elements(deps) == multiset(FilterDependencies(listed[..i], jobs, completed).value)
      {
        var pid := listed[i];
        assert listed[..i + 1] == listed[..i] + [pid];
        if pid !in jobs {
          assert pid in listed;
          return Err(NotFound);
        }
        if pid !in completed {
          BST.InsertOrdered(deps, pid);
          BST.InsertElements(deps, pid);
          deps := BST.InsertInto(deps, pid);
        }
        i := i + 1;
      }
      assert listed[..i] == listed;
      return Ok(deps);
    }

    /**
     * JobHashTable.cpp:66-76 as called from Scheduler.cpp:194: `pid` is
     * appended once to the successors of each distinct pid of `deps`, in the
     * post-order of `return_vector`.
     */
    method AddSuccessors(pid: int, deps: BST.Tree)
      requires Valid() && BST.IsBST(deps) && pid in jobs
      requires forall p :: p in BST.Values(deps) ==> p in jobs
      requires forall q :: q in jobs ==> pid !in jobs[q].successors
      modifies this`jobs
      ensures Valid()
      ensures jobs == AppendedTo(old(jobs), BST.PostOrder(deps), pid)
    {
      var vec := BST.PostOrder(deps);
      BST.PostOrderDistinct(deps);
      AddSuccessorsFrom(pid, vec);
    }

    /** The loop of JobHashTable.cpp:70-75 over the distinct pids `vec`. */
    method AddSuccessorsFrom(pid: int, vec: seq<int>)
      requires Valid() && Distinct(vec) && pid in jobs
      requires forall p :: p in vec ==> p in jobs
      requires forall q :: q in jobs ==> pid !in jobs[q].successors
      modifies this`jobs
      ensures Valid()
      ensures jobs == AppendedTo(old(jobs), vec, pid)
    {
      ghost var jobs0 := jobs;
      var i := 0;
      while i < |vec|
        invariant 0 <= i <= |vec|
        invariant Valid()
        invariant jobs == AppendedTo(jobs0, vec[..i], pid)
      {
        AddSuccessorNext(vec, i, pid, jobs0);
        i := i + 1;
      }
      assert vec[..i] == vec;
    }

    /** One turn of the loop in `AddSuccessors`, for `vec[i]`. */
    method AddSuccessorNext(vec: seq<int>, i: nat, pid: int, ghost jobs0: map<int, JobRecord>)
      requires Valid() && i < |vec| && Distinct(vec) && pid in jobs
      requires forall x :: x in vec ==> x in jobs0
      requires forall q :: q in jobs0 ==> pid !in jobs0[q].successors
      requires jobs == AppendedTo(jobs0, vec[..i], pid)
      modifies this`jobs
      ensures Valid()
      ensures jobs == AppendedTo(jobs0, vec[..i + 1], pid)
    {
      var p := vec[i];
      assert p in vec;
      DistinctPrefix(vec, i);
      AppendedSnoc(jobs0, vec, i, pid);
      var rec := jobs[p];
      LinkedAt(jobs, p);
      var rec' := rec.(successors := rec.successors + [pid]);
      assert Distinct(rec'.successors) by {
        DistinctConcat(rec.successors, [pid]);
      }
      ghost var before := jobs;
      jobs := jobs[p := rec'];
      LinkedUpdate(before, p, rec');
      QueuedMemoryFrame(runs, before, jobs);
    }

    /**
     * Scheduler.cpp:182-196 once the console reads are done: read the
     * dependencies, record the job, then start it at once if it depends on
     * nothing pending, or else register it as a successor of each dependency.
     */
    method AddJob(pid: int, execTime: int, resources: int, listed: seq<int>) returns (r: Outcome)
      requires Valid() && |runs| > 0 && pid !in jobs
      modifies this`jobs, this`runs, this`memoryUsed
      ensures Valid()
      ensures r.Fail? <==> FilterDependencies(listed, old(jobs), completed).Err?
      ensures r.Fail? ==> r.error == NotFound && jobs == old(jobs) && runs == old(runs)
                          && memoryUsed == old(memoryUsed)
      ensures r.Pass? ==> Admitted(pid, execTime, resources,
                                   FilterDependencies(listed, old(jobs), completed).value,
                                   old(jobs), old(runs), old(memoryUsed))
    {
      var read := ReadDependencies(listed);
      if read.Err? {
        return Fail(read.error);
      }
      ghost var kept := FilterDependencies(listed, jobs, completed).value;
      Dispatch(pid, execTime, resources, read.value, kept);
      r := Pass;
    }

    /**
     * The state after job `pid` with dependencies `kept` was admitted to the
     * arena `jobs0` and the queues `runs0`: started at once when `kept` is
     * empty, otherwise waiting as a successor of each of its dependencies.
     */
    ghost predicate Admitted(pid: int, execTime: int, resources: int, kept: seq<int>,
                             jobs0: map<int, JobRecord>, runs0: seq<seq<int>>, memory0: int)
      reads this
    {
      && pid in jobs && |runs0| > 0
      && jobs[pid].execTime == execTime && jobs[pid].resources == resources
      && BST.Elements(jobs[pid].deps) == multiset(kept) && jobs[pid].successors == []
      && (kept == [] ==>
            && jobs == jobs0[pid := jobs[pid]] && jobs[pid].status == RUNNING
            && runs == Admit(runs0, [pid]) && memoryUsed == memory0 + resources)
      && (kept != [] ==>
            && jobs[pid].status == WAITING && runs == runs0 && memoryUsed == memory0
            && jobs == AppendedTo(jobs0[pid := jobs[pid]], kept, pid))
    }

    /** Scheduler.cpp:184-196: record the job, then start it or make it wait on `kept`. */
    method Dispatch(pid: int, execTime: int, resources: int, deps: BST.Tree, ghost kept: seq<int>)
      requires Valid() && |runs| > 0 && pid !in jobs
      requires BST.IsBST(deps) && BST.Elements(deps) == multiset(kept)
      requires forall x :: x in kept ==> x in jobs
      modifies this`jobs, this`runs, this`memoryUsed
      ensures Valid()
      ensures Admitted(pid, execTime, resources, kept, old(jobs), old(runs), old(memoryUsed))
    {
      EmptyTree(deps);
      assert deps == BST.Nil <==> kept == [] by {
        if kept != [] {
          assert kept[0] in multiset(kept);
        }
      }
      forall x ensures x in BST.Values(deps) <==> x in kept {
        BST.ElementsMatchValues(deps, x);
      }
      ghost var jobs0 := jobs;
      var rec := JobRecord(execTime, resources, WAITING, deps, []);
      InsertRecord(pid, rec);
      if deps == BST.Nil {
        StartProcessing(pid);
      } else {
        forall q | q in jobs ensures pid !in jobs[q].successors {
          if q != pid {
            LinkedAt(jobs0, q);
          }
        }
        AddSuccessors(pid, deps);
        AppendedSame(jobs0[pid := rec], BST.PostOrder(deps), kept, pid);
      }
    }

    /** Scheduler.cpp:185: the new job enters the arena; nothing is queued or charged yet. */
    method InsertRecord(pid: int, rec: JobRecord)
      requires Valid() && pid !in jobs && WellLinked(rec, jobs[pid := rec])
      modifies this`jobs
      ensures Valid() && jobs == old(jobs)[pid := rec]
    {
      ghost var jobs0 := jobs;
      jobs := jobs[pid := rec];
      LinkedAdd(jobs0, pid, rec);
      QueuedMemoryFrame(runs, jobs0, jobs);
      assert Known(runs, jobs) by {
        forall l | 0 <= l < |runs| ensures AllIn(runs[l], jobs) {
          assert AllIn(runs[l], jobs0);
        }
      }
    }

    /**
     * The priority scan of Scheduler.cpp:45-59, begun at the last level. It
     * stops at the first non-empty level and takes that level's front job.
     */
    method SelectCurrent() returns (r: Outcome)
      modifies this`priority, this`current
      ensures r.Fail? <==> Select(runs).Err?
      ensures r.Fail? ==> r.error == NoRunnableJob && priority == -1
      ensures r.Pass? ==> priority == Select(runs).value && current == runs[priority][0]
    {
      priority := |runs| - 1;
      while priority >= 0
        invariant -1 <= priority < |runs|
        invariant Scan(runs, priority) == Select(runs)
        decreases priority + 1
      {
        if runs[priority] != [] {
          current := runs[priority][0];
          return Pass;
        }
        priority := priority - 1;
      }
      return Fail(NoRunnableJob);
    }

    /**
     * Scheduler.cpp:64-69: run the current job one unit at a time until it
     * completes or the level's quantum is used up; `slice` is what is left.
     */
    method RunSlice() returns (slice: int)
      requires current in jobs && 0 <= priority < |quants| && quants[priority] > 0
      modifies this`jobs
      ensures jobs == old(jobs)[current := AfterSlice(old(jobs[current]), quants[priority])]
      ensures slice == quants[priority] - SliceUnits(old(jobs[current]), quants[priority])
    {
      var rec := jobs[current];
      ghost var start := rec;
      ghost var e := start.execTime;
      var q := quants[priority];
      slice := q;
      while rec.status != COMPLETE && slice > 0
        invariant 0 <= slice <= q
        invariant rec == start.(execTime := rec.execTime, status := rec.status)
        invariant start.status == COMPLETE ==> rec == start && slice == q
        invariant start.status != COMPLETE && rec.status == COMPLETE ==>
                    q - slice == Max(e, 1) && rec.execTime == Min(e, 1)
        invariant rec.status != COMPLETE ==>
                    rec.status == start.status && rec.execTime == e - (q - slice) && q - slice < Max(e, 1)
      {
        var b := DecrementRule(rec.execTime, 1);
        rec := rec.(execTime := b.execTime, status := if b.completes then COMPLETE else rec.status);
        slice := slice - 1;
      }
      jobs := jobs[current := rec];
    }

    /**
     * Scheduler.cpp:264-272: release the current job from each successor's
     * tree in list order, starting every successor left with an empty tree.
     */
    method UpdateSuccessors()
      requires Valid() && |runs| > 0 && current in jobs
      modifies this`jobs, this`runs, this`memoryUsed
      ensures Valid()
      ensures jobs == Released(old(jobs), old(jobs[current].successors), current)
      ensures runs == Admit(old(runs), Started(old(jobs[current].successors), old(jobs), current))
    {
      var succ := jobs[current].successors;
      ghost var jobs0, runs0 := jobs, runs;
      LinkedAt(jobs, current);
      var i := 0;
      assert succ[..0] == [] && runs0[|runs0| - 1] + [] == runs0[|runs0| - 1];
      while i < |succ|
        invariant 0 <= i <= |succ| && |runs| == |runs0|
        invariant Valid()
        invariant jobs == Released(jobs0, succ[..i], current)
        invariant runs == Admit(runs0, Started(succ[..i], jobs0, current))
      {
        ReleaseNext(succ, i, jobs0, runs0);
        i := i + 1;
      }
      assert succ[..i] == succ;
    }

    /** One turn of the loop in `UpdateSuccessors`: the successors before `i` are released, now `succ[i]` is. */
    method ReleaseNext(succ: seq<int>, i: nat, ghost jobs0: map<int, JobRecord>, ghost runs0: seq<seq<int>>)
      requires Valid() && |runs| > 0 && |runs0| == |runs| && i < |succ| && Distinct(succ)
      requires forall x :: x in succ ==> x in jobs0
      requires jobs == Released(jobs0, succ[..i], current)
      requires runs == Admit(runs0, Started(succ[..i], jobs0, current))
      modifies this`jobs, this`runs, this`memoryUsed
      ensures Valid() && |runs| == |runs0|
      ensures jobs == Released(jobs0, succ[..i + 1], current)
      ensures runs == Admit(runs0, Started(succ[..i + 1], jobs0, current))
    {
      var s := succ[i];
      assert s in succ;
      DistinctPrefix(succ, i);
      ReleasedSnoc(jobs0, succ, i, current);
      StartedSnoc(succ, i, jobs0, current);
      ghost var started := Started(succ[..i], jobs0, current);
      ReleaseOne(s, jobs0);
      if BST.RemoveFrom(jobs0[s].deps, current).0 == BST.Nil {
        AdmitTwice(runs0, started, [s]);
      } else {
        assert started + [] == started;
      }
    }

    /** Release the current job from the successor `s`, starting it if nothing else holds it back. */
    method ReleaseOne(s: int, ghost jobs0: map<int, JobRecord>)
      requires Valid() && |runs| > 0 && s in jobs && s in jobs0 && jobs[s] == jobs0[s]
      modifies this`jobs, this`runs, this`memoryUsed
      ensures Valid()
      ensures jobs == old(jobs)[s := Release(jobs0[s], current)]
      ensures BST.RemoveFrom(jobs0[s].deps, current).0 != BST.Nil ==> runs == old(runs)
      ensures BST.RemoveFrom(jobs0[s].deps, current).0 == BST.Nil ==> runs == Admit(old(runs), [s])
    {
      var rec := jobs[s];
      var d := BST.RemoveFrom(rec.deps, current).0;
      LinkedAt(jobs, s);
      BST.RemoveFromOrdered(rec.deps, current);
      ghost var before := jobs;
      jobs := jobs[s := rec.(deps := d)];
      LinkedUpdate(before, s, rec.(deps := d));
      QueuedMemoryFrame(runs, before, jobs);
      if d == BST.Nil {
        StartProcessing(s);
      }
    }

    /**
     * Scheduler.cpp:72-79: the finished job leaves its level and the memory
     * count, its successors are released, and its pid is marked complete.
     */
    method Retire()
      requires Valid() && 0 <= priority < |runs| && runs[priority] != [] && runs[priority][0] == current
      modifies this`jobs, this`runs, this`memoryUsed, this`completed
      ensures Valid()
      ensures completed == old(completed) + {current}
      ensures jobs == Released(old(jobs), old(jobs[current].successors), current)
      ensures runs == Admit(old(runs)[priority := old(runs)[priority][1..]],
                            Started(old(jobs[current].successors), old(jobs), current))
    {
      assert AllIn(runs[priority], jobs);
      var tail := runs[priority][1..];
      LevelMemoryFront(runs[priority], jobs);
      QueuedMemoryUpdate(runs, priority, tail, jobs);
      memoryUsed := memoryUsed - jobs[current].resources;
      runs := runs[priority := tail];
      UpdateSuccessors();
      completed := completed + {current};
    }

    /**
     * Scheduler.cpp:86-92: the job that used up its slice moves from the front
     * of its level to the back of the level below; level 0 round-robins.
     */
    method DemoteCurrent()
      requires Valid() && 0 <= priority < |runs| && runs[priority] != [] && runs[priority][0] == current
      modifies this`runs, this`priority
      ensures Valid()
      ensures runs == Demoted(old(runs), old(priority)) && priority == Below(old(priority))
      ensures Queued(runs) == Queued(old(runs))
    {
      DemotedConserves(runs, priority);
      DemotedMemory(runs, priority, jobs);
      DemotedKnown(runs, priority, jobs);
      runs := runs[priority := runs[priority][1..]];
      if priority > 0 {
        priority := priority - 1;
      }
      runs := runs[priority := runs[priority] + [current]];
    }

    /**
     * The state after the job `x` at the front of level `p` of `runs0` ran one
     * slice: a job that completed has left its level, released its
     * successors and been marked complete; any other job lost a quantum of
     * time and was demoted.
     */
    ghost predicate Settled(p: nat, x: int, jobs0: map<int, JobRecord>, runs0: seq<seq<int>>, completed0: set<int>)
      reads this
    {
      && p < |runs0| == |quants| && runs0[p] != [] && runs0[p][0] == x && x in jobs0
      && var sliced := jobs0[x := AfterSlice(jobs0[x], quants[p])];
         && (sliced[x].status == COMPLETE ==>
               && completed == completed0 + {x}
               && jobs == Released(sliced, sliced[x].successors, x)
               && runs == Admit(runs0[p := runs0[p][1..]], Started(sliced[x].successors, sliced, x)))
         && (sliced[x].status != COMPLETE ==>
               && completed == completed0 && jobs == sliced
               && runs == Demoted(runs0, p))
    }

    /**
     * One iteration of the `process` loop, Scheduler.cpp:45-95: select the
     * front job of the highest non-empty level, run one slice of it, then
     * retire it if it completed or demote it otherwise.
     */
    method Step() returns (r: Outcome)
      requires Valid()
      modifies this`runs, this`jobs, this`memoryUsed, this`completed, this`current, this`priority
      ensures Valid()
      ensures r.Fail? <==> Select(old(runs)).Err?
      ensures r.Fail? ==> r.error == NoRunnableJob && runs == old(runs) && jobs == old(jobs)
                          && memoryUsed == old(memoryUsed) && completed == old(completed)
      ensures r.Pass? ==> Settled(Select(old(runs)).value, current, old(jobs), old(runs), old(completed))
    {
      r := SelectCurrent();
      if r.Fail? {
        return;
      }
      RunCurrent();
    }

    /** Scheduler.cpp:64-95 for the selected job: one slice, then retire or demote it. */
    method RunCurrent()
      requires Valid() && 0 <= priority < |runs| && runs[priority] != [] && runs[priority][0] == current
      modifies this`runs, this`jobs, this`memoryUsed, this`completed, this`priority
      ensures Valid()
      ensures Settled(old(priority), current, old(jobs), old(runs), old(completed))
    {
      assert AllIn(runs[priority], jobs);
      ghost var before := jobs;
      var slice := RunSlice();
      LinkedAt(before, current);
      LinkedUpdate(before, current, jobs[current]);
      QueuedMemoryFrame(runs, before, jobs);
      ghost var sliced := jobs;
      // The source tests the front of the level, which is `current`.
      if jobs[current].status == COMPLETE {
        Retire();
        assert jobs == Released(sliced, sliced[current].successors, current);
      } else if slice <= 0 {
        DemoteCurrent();
      } else {
        // Scheduler.cpp:94: a job that neither completed nor used its slice.
        assert false;
      }
    }
  }

  /** A scheduler with nothing queued charges nothing. */
  lemma {:induction false} QueuedZero(runs: seq<seq<int>>, jobs: map<int, JobRecord>)
    requires forall l :: 0 <= l < |runs| ==> runs[l] == []
    ensures QueuedMemory(runs, jobs) == 0
    decreases |runs|
  {
    if runs != [] {
      QueuedZero(runs[..|runs| - 1], jobs);
    }
  }
}
