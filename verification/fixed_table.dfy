/**
 * JobHashTable.cpp: the fixed-size table of the older scheduler. There are
 * SIZE chains; a new node is linked in front of its chain, and a completed
 * job keeps its node with a null job pointer so that its pid still resolves.
 * Each chain is the sequence of its nodes, head first.
 */
module FixedTable {
  import opened Errors
  import opened SeqUtil
  import opened Jobs
  import BST

  /** JobHashTable.h:23. */
  const SIZE := 100

  /** JobHashTable.h:25-29 without `next`: a pid and the job, null once the job is complete. */
  datatype Node = Node(pid: int, jobPtr: Job?)

  /** True iff no node of `chain` carries `pid`. */
  ghost predicate Absent(chain: seq<Node>, pid: int) {
    forall k :: 0 <= k < |chain| ==> chain[k].pid != pid
  }

  /**
   * JobHashTable.cpp:51-62 as its name and its callers intend: walk from the
   * head to the first node with `pid`; running off the end of the chain is
   * the runtime_error of line 53.
   */
  function FindNode(chain: seq<Node>, pid: int): (r: Result<nat>)
    ensures r.Ok? ==> r.value < |chain| && chain[r.value].pid == pid
    ensures r.Ok? ==> forall k :: 0 <= k < r.value ==> chain[k].pid != pid
    ensures r.Err? <==> Absent(chain, pid)
    ensures r.Err? ==> r.error == NotFound
  {
    if chain == [] then Err(NotFound)
    else if chain[0].pid == pid then Ok(0)
    else match FindNode(chain[1..], pid)
      case Ok(i) => Ok(i + 1)
      case Err(e) => Err(e)
  }

  /**
   * JobHashTable.cpp:51-62 as written: the result of the recursive call on
   * line 59 is dropped, so a match below the head falls through to the
   * logic_error of line 61.
   */
  function FindNodeAsWritten(chain: seq<Node>, pid: int): (r: Result<nat>)
    ensures r.Ok? <==> |chain| > 0 && chain[0].pid == pid
    ensures r.Ok? ==> r.value == 0
  {
    if chain == [] then Err(NotFound)
    else if chain[0].pid == pid then Ok(0)
    else match FindNodeAsWritten(chain[1..], pid)
      case Ok(_) => Err(LogicError)
      case Err(e) => Err(e)
  }

  /**
   * The as-written walk agrees with the intended one exactly when the pid is
   * at the head or missing; a pid further down raises logic_error.
   */
  lemma {:induction false} FindNodeAsWrittenBelowHead(chain: seq<Node>, pid: int)
    ensures FindNode(chain, pid).Ok? && FindNode(chain, pid).value > 0 ==> FindNodeAsWritten(chain, pid) == Err(LogicError)
    ensures FindNode(chain, pid).Err? ==> FindNodeAsWritten(chain, pid) == Err(NotFound)
    ensures FindNode(chain, pid) == Ok(0) ==> FindNodeAsWritten(chain, pid) == Ok(0)
  {
    if chain != [] && chain[0].pid != pid {
      FindNodeAsWrittenBelowHead(chain[1..], pid);
    }
  }

  /** Pids 7 and 107 share chain 7; after inserting 7 and then 107, pid 7 is second and the as-written find fails. */
  lemma FindNodeAsWrittenMissesSecond()
    ensures FindNode([Node(107, null), Node(7, null)], 7) == Ok(1)
    ensures FindNodeAsWritten([Node(107, null), Node(7, null)], 7) == Err(LogicError)
  {
    var c := [Node(107, null), Node(7, null)];
    assert c[1..] == [Node(7, null)];
  }

  /** A node linked in front of a chain is found first for its pid and hides no other pid. */
  lemma {:induction false} FindNodeAfterPush(chain: seq<Node>, n: Node, pid: int)
    ensures FindNode([n] + chain, pid) ==
              if n.pid == pid then Ok(0)
              else if FindNode(chain, pid).Ok? then Ok(FindNode(chain, pid).value + 1)
              else Err(NotFound)
  {
    assert ([n] + chain)[1..] == chain;
  }

  /** Rewriting the job pointer of a node keeps every pid where it was. */
  lemma {:induction false} FindNodeAfterUpdate(chain: seq<Node>, i: nat, job: Job?, pid: int)
    requires i < |chain|
    ensures FindNode(chain[i := Node(chain[i].pid, job)], pid) == FindNode(chain, pid)
  {
    var c' := chain[i := Node(chain[i].pid, job)];
    if chain != [] && chain[0].pid != pid && i > 0 {
      FindNodeAfterUpdate(chain[1..], i - 1, job, pid);
      assert c'[1..] == chain[1..][i - 1 := Node(chain[i].pid, job)];
    } else if chain != [] && chain[0].pid != pid {
      assert c'[1..] == chain[1..];
    }
  }

  /** What `pid` resolves to in `chains`: the job pointer of the first node for it in chain `pid % SIZE`. */
  function Lookup(chains: seq<seq<Node>>, pid: int): (r: Result<Job?>)
    requires |chains| == SIZE && pid >= 0
    ensures r.Err? <==> Absent(chains[pid % SIZE], pid)
    ensures r.Err? ==> r.error == NotFound
  {
    var chain := chains[pid % SIZE];
    match FindNode(chain, pid)
    case Ok(i) => Ok(chain[i].jobPtr)
    case Err(e) => Err(e)
  }

  /** In `chains`, `j`'s own pid resolves to `j`. */
  ghost predicate RecordedIn(chains: seq<seq<Node>>, j: Job) {
    j.pid >= 0 && |chains| == SIZE && Lookup(chains, j.pid).Ok? && Lookup(chains, j.pid).value == j
  }

  /**
   * Every node of `chains` sits in the chain its pid hashes to, and a live
   * node's job has the node's pid and is one of `inserted`.
   */
  ghost predicate Placed(chains: seq<seq<Node>>, inserted: set<Job>) {
    && |chains| == SIZE
    && forall i, k :: 0 <= i < SIZE && 0 <= k < |chains[i]| ==>
         && chains[i][k].pid >= 0 && chains[i][k].pid % SIZE == i
         && (chains[i][k].jobPtr != null ==>
               chains[i][k].jobPtr.pid == chains[i][k].pid && chains[i][k].jobPtr in inserted)
  }

  /** In placed chains a pid resolves to null or to an inserted job with that very pid. */
  lemma LookupRecorded(chains: seq<seq<Node>>, inserted: set<Job>, pid: int)
    requires |chains| == SIZE && pid >= 0
    ensures Placed(chains, inserted) && Lookup(chains, pid).Ok? && Lookup(chains, pid).value != null ==>
              var j := Lookup(chains, pid).value;
              j.pid == pid && j in inserted && RecordedIn(chains, j)
  {
  }

  /** Every pid of `ps` resolves in `chains` to a job that is not complete. */
  ghost predicate AllLive(chains: seq<seq<Node>>, ps: seq<int>) {
    forall k :: 0 <= k < |ps| ==>
      ps[k] >= 0 && |chains| == SIZE && Lookup(chains, ps[k]).Ok? && Lookup(chains, ps[k]).value != null
  }

  /** Extending a resolving prefix by a resolving pid. */
  lemma AllLiveSnoc(chains: seq<seq<Node>>, ps: seq<int>, p: int)
    requires AllLive(chains, ps) && p >= 0 && |chains| == SIZE
    requires Lookup(chains, p).Ok? && Lookup(chains, p).value != null
    ensures AllLive(chains, ps + [p])
  {
    forall k | 0 <= k < |ps| + 1 ensures (ps + [p])[k] == if k < |ps| then ps[k] else p {
    }
  }

  /** One pid that does not resolve spoils the whole sequence. */
  lemma AllLiveFails(chains: seq<seq<Node>>, ps: seq<int>, i: nat)
    requires i < |ps| && ps[i] >= 0 && |chains| == SIZE
    requires !(Lookup(chains, ps[i]).Ok? && Lookup(chains, ps[i]).value != null)
    ensures !AllLive(chains, ps)
  {
  }

  /** The pids before position `k` resolve to live jobs and the one at `k` does not. */
  ghost predicate StopsAt(chains: seq<seq<Node>>, ps: seq<int>, k: nat) {
    && k < |ps| && AllLive(chains, ps[..k])
    && !(|chains| == SIZE && ps[k] >= 0 && Lookup(chains, ps[k]).Ok? && Lookup(chains, ps[k]).value != null)
  }

  class JobHashTable {
    /** JobHashTable.h:31: the chains, each head first. */
    var table: array<seq<Node>>
    /** Every job ever inserted: a frame that covers each job a node points to. */
    ghost var inserted: set<Job>

    /** The chains are placed (JobHashTable.cpp:27-32). */
    ghost predicate Valid()
      reads this, table
    {
      table.Length == SIZE && Placed(table[..], inserted)
    }

    /** JobHashTable.cpp:7-11: every chain starts empty. */
    constructor ()
      ensures Valid() && fresh(table)
      ensures forall i :: 0 <= i < SIZE ==> table[i] == []
    {
      table := new seq<Node>[SIZE](_ => []);
      inserted := {};
    }

    /** JobHashTable.cpp:79-81: C++ `%`, a chain index for every pid that is not negative. */
    function Hash(pid: int): (key: int)
      ensures pid >= 0 ==> 0 <= key < SIZE && key == pid % SIZE
      ensures pid < 0 ==> -SIZE < key <= 0
    {
      CMod(pid, SIZE)
    }

    /**
     * JobHashTable.cpp:47-49: the job recorded for `pid`; null when the job is
     * complete; NotFound when the pid was never inserted.
     */
    function FindJob(pid: int): (r: Result<Job?>)
      reads this, table
      requires table.Length == SIZE && pid >= 0
      ensures r.Err? <==> Absent(table[Hash(pid)], pid)
      ensures r.Err? ==> r.error == NotFound
      ensures Valid() && r.Ok? && r.value != null ==> r.value.pid == pid && r.value in inserted
    {
      LookupRecorded(table[..], inserted, pid);
      Lookup(table[..], pid)
    }

    /**
     * JobHashTable.cpp:26-34: link a node for `job` in front of chain
     * `pid % SIZE`; the job is found under its pid from then on and every
     * other pid resolves as before.
     */
    method Insert(job: Job)
      requires Valid() && job.pid >= 0
      modifies this`inserted, table
      ensures Valid()
      ensures table[Hash(job.pid)] == [Node(job.pid, job)] + old(table[Hash(job.pid)])
      ensures forall i :: 0 <= i < SIZE && i != Hash(job.pid) ==> table[i] == old(table[i])
      ensures FindJob(job.pid).Ok? && FindJob(job.pid).value == job
      ensures forall q :: q >= 0 && q != job.pid ==> FindJob(q) == old(FindJob(q))
    {
      var key := Hash(job.pid);
      ghost var chain := table[key];
      table[key] := [Node(job.pid, job)] + table[key];
      inserted := inserted + {job};
      FindNodeAfterPush(chain, Node(job.pid, job), job.pid);
      forall q | q >= 0 && q != job.pid ensures FindJob(q) == old(FindJob(q)) {
        FindNodeAfterPush(chain, Node(job.pid, job), q);
      }
    }

    /**
     * JobHashTable.cpp:38-43: null the job pointer of the node for `pid` and
     * keep the node, so the pid still resolves, to null. A pid never inserted
     * is the runtime_error of find. Freeing the job is not modelled.
     */
    method MakeComplete(pid: int) returns (r: Outcome)
      requires Valid() && pid >= 0
      modifies table
      ensures Valid()
      ensures r.Fail? <==> old(FindJob(pid)).Err?
      ensures r.Fail? ==> r.error == NotFound && table[..] == old(table[..])
      ensures r.Pass? ==> FindJob(pid) == Ok(null)
      ensures forall q :: q >= 0 && q != pid ==> FindJob(q) == old(FindJob(q))
    {
      var key := Hash(pid);
      var f := FindNode(table[key], pid);
      if f.Err? {
        return Fail(f.error);
      }
      ghost var chain := table[key];
      var i := f.value;
      table[key] := table[key][i := Node(pid, null)];
      FindNodeAfterUpdate(chain, i, null, pid);
      forall q | q >= 0 && q != pid ensures FindJob(q) == old(FindJob(q)) {
        FindNodeAfterUpdate(chain, i, null, q);
      }
      r := Pass;
    }

    /**
     * JobHashTable.cpp:66-76: for each dependency pid of the tree, in the
     * tree's post-order, append `job` (as its pid) to the successors of the
     * job recorded for that pid. It fails at the first pid never inserted
     * (find's runtime_error) or already complete (the null job pointer is
     * dereferenced); jobs visited before that keep their new entry.
     */
    method AddSuccessors(job: Job, deps: BST.IntBST) returns (r: Outcome)
      requires Valid() && deps.Valid()
      requires forall p :: p in BST.Elements(deps.root) ==> p >= 0
      modifies deps`vec, inserted`successors
      ensures deps.vec == BST.PostOrder(deps.root)
      ensures r.Pass? <==> AllLive(table[..], deps.vec)
      ensures r.Pass? ==> forall j :: j in inserted ==>
                j.successors == old(j.successors) +
                  (if j.pid in deps.vec && RecordedIn(table[..], j) then [job.pid] else [])
      ensures r.Fail? ==> (exists k ::
                0 <= k < |deps.vec| && StopsAt(table[..], deps.vec, k) &&
                (forall j :: j in inserted ==>
                   j.successors == old(j.successors) +
                     (if j.pid in deps.vec[..k] && RecordedIn(table[..], j) then [job.pid] else [])))
    {
      ghost var chains := table[..];
      var vec := deps.ReturnVector();
      assert table[..] == chains;
      r := AddSuccessorsFrom(job, vec, chains);
    }

    /**
     * The loop of JobHashTable.cpp:72-74 over the dependency pids `vec`, which
     * are distinct: it stops at the first pid that does not resolve to a job.
     */
    method AddSuccessorsFrom(job: Job, vec: seq<int>, ghost chains: seq<seq<Node>>) returns (r: Outcome)
      requires table.Length == SIZE && table[..] == chains && Placed(chains, inserted)
      requires Distinct(vec) && forall p :: p in vec ==> p >= 0
      modifies inserted`successors
      ensures r.Pass? <==> AllLive(chains, vec)
      ensures r.Pass? ==> forall j :: j in inserted ==>
                j.successors == old(j.successors) +
                  (if j.pid in vec && RecordedIn(chains, j) then [job.pid] else [])
      ensures r.Fail? ==> (exists k ::
                0 <= k < |vec| && StopsAt(chains, vec, k) &&
                (forall j :: j in inserted ==>
                   j.successors == old(j.successors) +
                     (if j.pid in vec[..k] && RecordedIn(chains, j) then [job.pid] else [])))
    {
      var i := 0;
      while i < |vec|
        invariant 0 <= i <= |vec|
        invariant table[..] == chains
        invariant AllLive(chains, vec[..i])
        invariant forall j :: j in inserted ==>
                    j.successors == old(j.successors) +
                      (if j.pid in vec[..i] && RecordedIn(chains, j) then [job.pid] else [])
      {
        DistinctPrefix(vec, i);
        assert vec[i] in vec;
        label Before:
        r := AddSuccessorTo(vec[i], job, chains);
        if r.Fail? {
          AllLiveFails(chains, vec, i);
          assert StopsAt(chains, vec, i);
          return;
        }
        AllLiveSnoc(chains, vec[..i], vec[i]);
        forall j | j in inserted
          ensures j.successors == old(j.successors) +
                    (if j.pid in vec[..i + 1] && RecordedIn(chains, j) then [job.pid] else [])
        {
          assert j.successors == old@Before(j.successors) +
                   (if j.pid == vec[i] && RecordedIn(chains, j) then [job.pid] else []);
        }
        i := i + 1;
      }
      assert vec[..i] == vec;
      r := Pass;
    }

    /**
     * The loop body of JobHashTable.cpp:72-74 for one dependency `pid`: look
     * the job up and append `job`'s pid to its successors.
     */
    method AddSuccessorTo(pid: int, job: Job, ghost chains: seq<seq<Node>>) returns (r: Outcome)
      requires table.Length == SIZE && table[..] == chains && Placed(chains, inserted) && pid >= 0
      modifies inserted`successors
      ensures r.Pass? <==> Lookup(chains, pid).Ok? && Lookup(chains, pid).value != null
      ensures r.Fail? ==> unchanged(inserted`successors)
      ensures forall j :: j in inserted ==>
                j.successors == old(j.successors) +
                  (if r.Pass? && j.pid == pid && RecordedIn(chains, j) then [job.pid] else [])
    {
      var f := FindJob(pid);
      if f.Err? {
        return Fail(f.error);
      }
      if f.value == null {
        return Fail(NullDereference);
      }
      var target := f.value;
      LookupRecorded(chains, inserted, pid);
      target.AddSuccessor(job.pid);
      r := Pass;
    }
  }
}
