/**
 * JobQueue.cpp: the FIFO of non-owning job references used for every
 * priority level. The doubly linked nodes are abstracted to the sequence of
 * pids they hold, front first; `sizeCount` is kept beside it as in the source.
 */
module JobQueues {
  import opened Errors

  /** The queue contents after removing the first occurrence of `pid` (unchanged if there is none). */
  function RemoveFirst(s: seq<int>, pid: int): (r: seq<int>)
  {
    if s == [] then []
    else if s[0] == pid then s[1..]
    else [s[0]] + RemoveFirst(s[1..], pid)
  }

  /**
   * RemoveFirst cuts out exactly the first match and keeps everything before
   * and after it in order.
   */
  lemma {:induction false} RemoveFirstAt(s: seq<int>, pid: int, i: nat)
    requires i < |s| && s[i] == pid
    requires forall k :: 0 <= k < i ==> s[k] != pid
    ensures RemoveFirst(s, pid) == s[..i] + s[i + 1..]
  {
    if i > 0 {
      RemoveFirstAt(s[1..], pid, i - 1);
      assert s[1..][..i - 1] == s[1..i];
      assert s[1..][i..] == s[i + 1..];
      assert s[..i] == [s[0]] + s[1..i];
    }
  }

  /** Removing an absent pid changes nothing. */
  lemma {:induction false} RemoveFirstAbsent(s: seq<int>, pid: int)
    requires pid !in s
    ensures RemoveFirst(s, pid) == s
  {
    if s != [] {
      assert s[0] != pid;
      RemoveFirstAbsent(s[1..], pid);
      assert s == [s[0]] + s[1..];
    }
  }

  /** Removing a present pid takes away one copy of it and nothing else. */
  lemma {:induction false} RemoveFirstMultiset(s: seq<int>, pid: int)
    ensures pid in s ==> multiset(RemoveFirst(s, pid)) == multiset(s) - multiset{pid}
    ensures pid in s ==> |RemoveFirst(s, pid)| == |s| - 1
  {
    if s != [] && s[0] != pid {
      RemoveFirstMultiset(s[1..], pid);
      assert s == [s[0]] + s[1..];
      if pid in s {
        assert pid in s[1..];
      }
    } else if s != [] {
      assert s == [s[0]] + s[1..];
    }
  }

  class JobQueue {
    /** The pids held by the nodes from `frontPtr` to `backPtr`. */
    var items: seq<int>
    var sizeCount: int

    /**
     * JobQueue.cpp:22: frontPtr is null iff backPtr is null iff the count is 0;
     * with the nodes abstracted to `items` this is the count agreeing with them.
     */
    ghost predicate Valid()
      reads this
    {
      sizeCount == |items|
    }

    /** JobQueue.cpp:23-27. */
    constructor ()
      ensures Valid() && items == []
    {
      items := [];
      sizeCount := 0;
    }

    /** JobQueue.cpp:48-64: append at the back; duplicates are not checked. */
    method Push(pid: int)
      requires Valid()
      modifies this
      ensures Valid() && items == old(items) + [pid]
    {
      items := items + [pid];
      sizeCount := sizeCount + 1;
    }

    /** JobQueue.cpp:69-83: drop the front, or report EmptyQueue and change nothing. */
    method Pop() returns (r: Outcome)
      requires Valid()
      modifies this
      ensures Valid()
      ensures r == if old(items) == [] then Fail(EmptyQueue) else Pass
      ensures items == if old(items) == [] then old(items) else old(items)[1..]
    {
      if items == [] {
        return Fail(EmptyQueue);
      }
      items := items[1..];
      sizeCount := sizeCount - 1;
      r := Pass;
    }

    /** JobQueue.cpp:86-88. */
    function Empty(): (b: bool)
      reads this
      ensures b <==> |items| == 0
    {
      items == []
    }

    /** JobQueue.cpp:91-97: peek at the front without changing the queue. */
    method Front() returns (r: Result<int>)
      requires Valid()
      ensures r.Ok? <==> |items| > 0
      ensures r.Ok? ==> r.value == items[0]
      ensures r.Err? ==> r.error == EmptyQueue
    {
      if items == [] {
        return Err(EmptyQueue);
      }
      r := Ok(items[0]);
    }

    /** JobQueue.cpp:130-132: the stored count is the number of queued references. */
    function Size(): (n: int)
      reads this
      requires Valid()
      ensures n == |items| && (n == 0 <==> Empty())
    {
      sizeCount
    }

    /**
     * JobQueue.cpp:103-127 as its header (JobQueue.h:32) describes it: walk from
     * the front to the first job with `pid` and unlink it, from any position.
     * The source's single-node shortcut, its null dereferences at the ends and
     * its unchanged `sizeCount` are modelled separately by ForcePopAsWritten.
     */
    method ForcePop(pid: int) returns (found: bool)
      requires Valid()
      modifies this
      ensures Valid()
      ensures found <==> pid in old(items)
      ensures items == RemoveFirst(old(items), pid)
    {
      var i := 0;
      while i < |items| && items[i] != pid
        invariant 0 <= i <= |items|
        invariant forall k :: 0 <= k < i ==> items[k] != pid
      {
        i := i + 1;
      }
      if i == |items| {
        RemoveFirstAbsent(items, pid);
        return false;
      }
      RemoveFirstAt(items, pid, i);
      items := items[..i] + items[i + 1..];
      sizeCount := sizeCount - 1;
      found := true;
    }
  }

  /** What force_pop returns and leaves behind, as JobQueue.cpp:103-127 is written. */
  datatype ForcePopEffect = ForcePopEffect(found: bool, items: seq<int>, sizeCount: int)

  /**
   * JobQueue.cpp:103-127 as written: a one-node queue is emptied whatever its
   * pid (106-111); a match at the front or back follows a null prev or next
   * pointer (115-116); the count is never decremented.
   */
  function ForcePopAsWritten(items: seq<int>, sizeCount: int, pid: int): (r: Result<ForcePopEffect>)
  {
    if |items| == 1 then Ok(ForcePopEffect(true, [], sizeCount))
    else if pid !in items then Ok(ForcePopEffect(false, items, sizeCount))
    else
      var i := FirstIndex(items, pid);
      if i == 0 || i == |items| - 1 then Err(NullDereference)
      else Ok(ForcePopEffect(true, items[..i] + items[i + 1..], sizeCount))
  }

  /** Index of the first occurrence of a present pid. */
  function FirstIndex(s: seq<int>, pid: int): (i: nat)
    requires pid in s
    ensures i < |s| && s[i] == pid && forall k :: 0 <= k < i ==> s[k] != pid
  {
    if s[0] == pid then 0 else 1 + FirstIndex(s[1..], pid)
  }

  /**
   * The as-written single-node branch reports success for a pid that is not
   * queued and drops the queued job, where the intended ForcePop reports
   * false and keeps it.
   */
  lemma ForcePopAsWrittenDropsWrongJob()
    ensures ForcePopAsWritten([5], 1, 7) == Ok(ForcePopEffect(true, [], 1))
    ensures RemoveFirst([5], 7) == [5]
  {
  }

  /** The as-written walk dereferences null when the match is the front of a longer queue. */
  lemma ForcePopAsWrittenFrontCrashes()
    ensures ForcePopAsWritten([5, 6], 2, 5) == Err(NullDereference)
    ensures RemoveFirst([5, 6], 5) == [6]
  {
    assert FirstIndex([5, 6], 5) == 0;
  }

  /**
   * Where the as-written code does succeed on a longer queue (an interior
   * match, or an absent pid), it agrees with the intended ForcePop on the
   * contents and only leaves the count stale.
   */
  lemma {:induction false} ForcePopAsWrittenInterior(items: seq<int>, sizeCount: int, pid: int)
    requires |items| != 1
    requires ForcePopAsWritten(items, sizeCount, pid).Ok?
    ensures ForcePopAsWritten(items, sizeCount, pid).value.items == RemoveFirst(items, pid)
    ensures ForcePopAsWritten(items, sizeCount, pid).value.sizeCount == sizeCount
  {
    if pid in items {
      RemoveFirstAt(items, pid, FirstIndex(items, pid));
    } else {
      RemoveFirstAbsent(items, pid);
    }
  }

  /** JobQueue.cpp:48-97, the FIFO law: after push(a); push(b); pop() the front is b. */
  method PushPushPopFront(a: int, b: int) returns (f: Result<int>)
    ensures f == Ok(b)
  {
    var q := new JobQueue();
    q.Push(a);
    q.Push(b);
    var _ := q.Pop();
    f := q.Front();
  }
}
