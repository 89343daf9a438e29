/**
 * The job entity of Job.cpp: a pid, a status that moves LATENT -> WAITING ->
 * COMPLETE, the remaining burst time, a memory need, the successor and
 * dependency lists (held as pids rather than Job pointers) and the clock
 * stamps used for statistics.
 */
module Jobs {
  import opened Errors
  import opened SeqUtil

  datatype Status = LATENT | WAITING | RUNNING | COMPLETE

  /** Position of a status along LATENT -> WAITING -> RUNNING -> COMPLETE. */
  function Rank(s: Status): nat {
    match s
    case LATENT => 0
    case WAITING => 1
    case RUNNING => 2
    case COMPLETE => 3
  }

  /** The effect of one `decrement_time(time)` call on a job whose remaining time is `execTime`. */
  datatype Burst = Burst(consumed: int, execTime: int, completes: bool)

  /**
   * Job.cpp:26-34. The work consumed is the smaller of the remaining time and the
   * offered time; a job that fits completes, and its remaining time is then left
   * as it was rather than set to zero.
   */
  function DecrementRule(execTime: int, time: int): (b: Burst)
    ensures b.consumed == Min(execTime, time) && b.consumed <= time
    ensures b.completes <==> execTime <= time
    ensures b.completes ==> b.execTime == execTime
    ensures !b.completes ==> b.consumed == time && b.consumed + b.execTime == execTime
  {
    if execTime <= time then Burst(execTime, execTime, true)
    else Burst(time, execTime - time, false)
  }

  /** `s` arose from `d0` by dropping copies of `p` only. */
  ghost predicate KeepsOthers(s: seq<int>, d0: seq<int>, p: int) {
    && (forall x :: x != p ==> multiset(s)[x] == multiset(d0)[x])
    && multiset(s)[p] <= multiset(d0)[p]
  }

  /** Swap-and-pop on a match of `p` drops a copy of `p` only. */
  lemma DropMatchKeepsOthers(s: seq<int>, d0: seq<int>, p: int, i: nat)
    requires i < |s| && s[i] == p && KeepsOthers(s, d0, p)
    ensures KeepsOthers(SwapRemove(s, i), d0, p)
  {
    SwapRemoveMultiset(s, i);
  }

  /** When `p` is gone from a distinct list, exactly one copy of it was dropped (if there was one). */
  lemma KeepsOthersExact(s: seq<int>, d0: seq<int>, p: int)
    requires KeepsOthers(s, d0, p) && Distinct(d0) && p !in s
    ensures multiset(s) == multiset(d0) - multiset{p}
  {
    if p in d0 {
      var k :| 0 <= k < |d0| && d0[k] == p;
      DistinctCount(d0, k);
    }
    forall x ensures multiset(s)[x] == (multiset(d0) - multiset{p})[x] {
    }
  }

  class Job {
    const pid: int
    var status: Status
    var execTime: int
    var originalExecTime: int
    var resources: int
    var successors: seq<int>
    var dependencies: seq<int>
    var clockInsert: int
    var clockBegin: int
    var clockComplete: int
    var deepSuccessorCount: int

    /** Job.cpp:8-11: a latent job knows only its pid; its vectors start empty. */
    constructor (pid: int)
      ensures this.pid == pid && status == LATENT
      ensures successors == [] && dependencies == []
    {
      this.pid := pid;
      status := LATENT;
      successors := [];
      dependencies := [];
    }

    /** Job.cpp:17-24: fill in a latent job; any other status is an error that changes nothing. */
    method Prepare(execTime: int, resources: int) returns (r: Outcome)
      modifies this`status, this`execTime, this`originalExecTime, this`resources
      ensures r == if old(status) == LATENT then Pass else Fail(InvalidState)
      ensures r.Pass? ==> status == WAITING && this.execTime == execTime
                          && originalExecTime == execTime && this.resources == resources
      ensures r.Fail? ==> status == old(status) && this.execTime == old(this.execTime)
                          && originalExecTime == old(originalExecTime) && this.resources == old(this.resources)
      ensures Rank(old(status)) <= Rank(status)
    {
      if status != LATENT {
        return Fail(InvalidState);
      }
      this.execTime := execTime;
      originalExecTime := execTime;
      this.resources := resources;
      status := WAITING;
      r := Pass;
    }

    /** Job.cpp:26-34: run the job for `time` units and return the work actually done. */
    method DecrementTime(time: int) returns (consumed: int)
      modifies this`execTime, this`status
      ensures consumed == DecrementRule(old(execTime), time).consumed
      ensures execTime == DecrementRule(old(execTime), time).execTime
      ensures status == if old(execTime) <= time then COMPLETE else old(status)
      ensures Rank(old(status)) <= Rank(status)
    {
      if execTime <= time {
        status := COMPLETE;
        consumed := execTime;
      } else {
        execTime := execTime - time;
        consumed := time;
      }
    }

    /** Job.cpp:48-50. */
    method SetStatus(status: Status)
      modifies this`status
      ensures this.status == status
    {
      this.status := status;
    }

    /** Job.cpp:56-58: successors are kept in the order they were recorded. */
    method AddSuccessor(p: int)
      modifies this`successors
      ensures successors == old(successors) + [p]
      ensures !NoSuccessors()
    {
      successors := successors + [p];
    }

    /** Job.cpp:102-104: dependencies are kept in the order they were recorded. */
    method AddDependency(p: int)
      modifies this`dependencies
      ensures dependencies == old(dependencies) + [p]
      ensures !NoDependencies()
    {
      dependencies := dependencies + [p];
    }

    /**
     * Job.cpp:92-100: every match met by the index loop is overwritten by the
     * last entry, which is then popped. Entries with other pids are never lost;
     * on a list of distinct pids exactly the matching entry goes.
     */
    method RemoveDependency(p: int)
      modifies this`dependencies
      ensures forall x :: x != p ==> multiset(dependencies)[x] == multiset(old(dependencies))[x]
      ensures multiset(dependencies) <= multiset(old(dependencies))
      ensures p !in old(dependencies) ==> dependencies == old(dependencies)
      ensures Distinct(old(dependencies)) ==>
                Distinct(dependencies) && multiset(dependencies) == multiset(old(dependencies)) - multiset{p}
    {
      ghost var d0 := dependencies;
      var i := 0;
      while i < |dependencies|
        invariant 0 <= i <= |dependencies| + 1
        invariant KeepsOthers(dependencies, d0, p)
        invariant p !in d0 ==> dependencies == d0
        invariant Distinct(d0) ==> Distinct(dependencies) && p !in dependencies[..Min(i, |dependencies|)]
        decreases |dependencies| - i
      {
        if dependencies[i] == p {
          DropMatchKeepsOthers(dependencies, d0, p, i);
          if Distinct(d0) {
            SwapRemoveDistinct(dependencies, i);
          }
          dependencies := SwapRemove(dependencies, i);
        } else if Distinct(d0) {
          assert dependencies[..i + 1] == dependencies[..i] + [dependencies[i]];
        }
        i := i + 1;
      }
      if Distinct(d0) {
        assert dependencies[..|dependencies|] == dependencies;
        KeepsOthersExact(dependencies, d0, p);
      }
    }

    /** Job.cpp:88-90. */
    function NoSuccessors(): (b: bool)
      reads this
      ensures b <==> |successors| == 0
    {
      successors == []
    }

    /** Job.cpp:106-108: the eligibility test. */
    function NoDependencies(): (b: bool)
      reads this
      ensures b <==> |dependencies| == 0
    {
      dependencies == []
    }

    /** Job.cpp:126-136. */
    method SetClocks(insert: int, begin: int, complete: int)
      modifies this`clockInsert, this`clockBegin, this`clockComplete
      ensures clockInsert == insert && clockBegin == begin && clockComplete == complete
    {
      clockInsert, clockBegin, clockComplete := insert, begin, complete;
    }

    /** Job.cpp:110-112: time spent waiting before the first slice. */
    function GetLatency(): int
      reads this
    {
      clockBegin - clockInsert
    }

    /** Job.cpp:122-124: time from the first slice to completion. */
    function GetTurnaround(): int
      reads this
    {
      clockComplete - clockBegin
    }

    /** Job.cpp:114-116: the whole stay, which splits into latency and turnaround. */
    function GetResponse(): (t: int)
      reads this
      ensures t == GetLatency() + GetTurnaround()
      ensures clockInsert <= clockBegin <= clockComplete ==> GetLatency() <= t && GetTurnaround() <= t
    {
      clockComplete - clockInsert
    }

    /** Job.cpp:138-140. */
    method IncrementDeepSuccess()
      modifies this`deepSuccessorCount
      ensures deepSuccessorCount == old(deepSuccessorCount) + 1
    {
      deepSuccessorCount := deepSuccessorCount + 1;
    }
  }
}
