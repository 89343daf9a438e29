/**
 * src/JobHashTable.cpp: the resizable chaining hash table of the newer
 * scheduler. `buckets` is an array of vectors of job references; a job with
 * pid `p` lives in bucket `p % capacity`; the capacity doubles (and every
 * entry is rehashed) when an insert brings the load factor to 0.8.
 */
module ResizableTable {
  import opened SeqUtil
  import opened Jobs

  /** The jobs held by the first `n` buckets, with multiplicity. */
  ghost function Held(bs: seq<seq<Job>>, n: nat): multiset<Job>
    requires n <= |bs|
  {
    if n == 0 then multiset{} else Held(bs, n - 1) + multiset(bs[n - 1])
  }

  /** Every job held by a sequence of buckets, with multiplicity. */
  ghost function Flatten(bs: seq<seq<Job>>): multiset<Job> {
    Held(bs, |bs|)
  }

  /** Prefixes that agree bucket by bucket hold the same jobs. */
  lemma {:induction false} HeldFrame(bs: seq<seq<Job>>, cs: seq<seq<Job>>, n: nat)
    requires n <= |bs| && n <= |cs|
    requires forall i :: 0 <= i < n ==> bs[i] == cs[i]
    ensures Held(bs, n) == Held(cs, n)
  {
    if n > 0 {
      HeldFrame(bs, cs, n - 1);
    }
  }

  /** Appending a job to bucket `k` adds it to every prefix that includes bucket `k`. */
  lemma {:induction false} HeldPush(bs: seq<seq<Job>>, n: nat, k: nat, j: Job)
    requires k < n <= |bs|
    ensures Held(bs[k := bs[k] + [j]], n) == Held(bs, n) + multiset{j}
  {
    if k == n - 1 {
      HeldFrame(bs, bs[k := bs[k] + [j]], n - 1);
      MultisetSnoc(bs[k], j);
    } else {
      HeldPush(bs, n - 1, k, j);
    }
  }

  /** Each of the first `n` buckets' jobs are among the jobs they hold. */
  lemma {:induction false} HeldHolds(bs: seq<seq<Job>>, n: nat, k: nat)
    requires k < n <= |bs|
    ensures multiset(bs[k]) <= Held(bs, n)
  {
    if k < n - 1 {
      HeldHolds(bs, n - 1, k);
    }
  }

  /** Replacing bucket `k` by `b` trades its jobs for those of `b` in every prefix that includes it. */
  lemma {:induction false} HeldReplace(bs: seq<seq<Job>>, n: nat, k: nat, b: seq<Job>)
    requires k < n <= |bs|
    ensures Held(bs[k := b], n) + multiset(bs[k]) == Held(bs, n) + multiset(b)
  {
    var cs := bs[k := b];
    var hc, hb := Held(cs, n - 1), Held(bs, n - 1);
    var ma, mb, mc := multiset(bs[k]), multiset(b), multiset(bs[n - 1]);
    assert Held(cs, n) == hc + multiset(cs[n - 1]);
    assert Held(bs, n) == hb + mc;
    if k == n - 1 {
      HeldFrame(bs, cs, n - 1);
      assert cs[n - 1] == b && mc == ma;
      UnionSwap(hb, mb, ma);
    } else {
      HeldReplace(bs, n - 1, k, b);
      assert cs[n - 1] == bs[n - 1];
      UnionInsert(hc, hb, ma, mb, mc);
    }
  }

  /** Swap-and-pop in bucket `k` takes the dropped job out of every prefix that includes bucket `k`. */
  lemma HeldSwapRemove(bs: seq<seq<Job>>, n: nat, k: nat, i: nat)
    requires k < n <= |bs| && i < |bs[k]|
    ensures Held(bs[k := SwapRemove(bs[k], i)], n) == Held(bs, n) - multiset{bs[k][i]}
  {
    HeldReplace(bs, n, k, SwapRemove(bs[k], i));
    SwapRemoveMultiset(bs[k], i);
    MultisetCancel(Held(bs[k := SwapRemove(bs[k], i)], n), Held(bs, n), multiset(bs[k]), bs[k][i]);
  }

  /** A held job sits in one of the first `n` buckets. */
  lemma {:induction false} HeldMember(bs: seq<seq<Job>>, n: nat, j: Job) returns (k: nat)
    requires n <= |bs| && j in Held(bs, n)
    ensures k < n && j in bs[k]
  {
    if j in multiset(bs[n - 1]) {
      k := n - 1;
    } else {
      k := HeldMember(bs, n - 1, j);
    }
  }

  /** The first `n` buckets hold nothing iff each of them is empty. */
  lemma {:induction false} HeldEmpty(bs: seq<seq<Job>>, n: nat)
    requires n <= |bs|
    ensures Held(bs, n) == multiset{} <==> forall i :: 0 <= i < n ==> bs[i] == []
  {
    if n > 0 {
      HeldEmpty(bs, n - 1);
    }
  }

  /** Appending a job to one bucket adds exactly that job. */
  lemma FlattenPush(bs: seq<seq<Job>>, k: nat, j: Job)
    requires k < |bs|
    ensures Flatten(bs[k := bs[k] + [j]]) == Flatten(bs) + multiset{j}
  {
    HeldPush(bs, |bs|, k, j);
  }

  /** Swap-and-pop in one bucket takes away exactly the job it drops. */
  lemma FlattenSwapRemove(bs: seq<seq<Job>>, k: nat, i: nat)
    requires k < |bs| && i < |bs[k]|
    ensures Flatten(bs[k := SwapRemove(bs[k], i)]) == Flatten(bs) - multiset{bs[k][i]}
  {
    HeldSwapRemove(bs, |bs|, k, i);
  }

  /** Every job of bucket `i` has a pid that is not negative and is `i` modulo `cap`. */
  ghost predicate PlacedIn(bs: seq<seq<Job>>, cap: int)
    requires cap > 0
  {
    forall i, k :: 0 <= i < |bs| && 0 <= k < |bs[i]| ==> bs[i][k].pid >= 0 && bs[i][k].pid % cap == i
  }

  /** Appending a job to its own bucket keeps every job placed. */
  lemma PlacedAppend(bs: seq<seq<Job>>, cap: int, key: nat, j: Job)
    requires cap > 0 && PlacedIn(bs, cap) && key < |bs|
    requires j.pid >= 0 && j.pid % cap == key
    ensures PlacedIn(bs[key := bs[key] + [j]], cap)
  {
    var bs': seq<seq<Job>> := bs[key := bs[key] + [j]];
    forall i, k | 0 <= i < |bs'| && 0 <= k < |bs'[i]| ensures bs'[i][k].pid >= 0 && bs'[i][k].pid % cap == i {
      if i == key && k == |bs[key]| {
        assert bs'[i][k] == j;
      } else {
        assert bs'[i][k] == bs[i][k];
      }
    }
  }

  /** Swap-and-pop inside a bucket keeps every job placed. */
  lemma PlacedSwapRemove(bs: seq<seq<Job>>, cap: int, key: nat, i: nat)
    requires cap > 0 && PlacedIn(bs, cap) && key < |bs| && i < |bs[key]|
    ensures PlacedIn(bs[key := SwapRemove(bs[key], i)], cap)
  {
    var bs': seq<seq<Job>> := bs[key := SwapRemove(bs[key], i)];
    forall a, k | 0 <= a < |bs'| && 0 <= k < |bs'[a]| ensures bs'[a][k].pid >= 0 && bs'[a][k].pid % cap == a {
      if a == key && k == i {
        assert bs'[a][k] == bs[key][|bs[key]| - 1];
      } else {
        assert bs'[a][k] == bs[a][k];
      }
    }
  }

  /** A placed job with `pid` can only be in the bucket `pid % cap`. */
  lemma PlacedLookup(bs: seq<seq<Job>>, cap: int, x: Job)
    requires cap > 0 && PlacedIn(bs, cap) && x in Flatten(bs)
    ensures x.pid >= 0 && 0 <= x.pid % cap < |bs| && x in bs[x.pid % cap]
  {
    var b := HeldMember(bs, |bs|, x);
    var k :| 0 <= k < |bs[b]| && bs[b][k] == x;
  }

  class JobHashTable {
    var buckets: array<seq<Job>>
    var size: int
    var capacity: int

    /** The jobs referenced by the table, with multiplicity. */
    ghost function Stored(): multiset<Job>
      reads this, buckets
    {
      Flatten(buckets[..])
    }

    /**
     * src/JobHashTable.cpp:58, 120-122: the buckets match the capacity and each
     * job sits in bucket `pid % capacity`, which is in range because its pid is
     * not negative.
     */
    ghost predicate Placed()
      reads this, buckets
    {
      && capacity > 0 && buckets.Length == capacity
      && PlacedIn(buckets[..], capacity)
    }

    /**
     * Placement, and between operations the load factor stays below 0.8
     * (src/JobHashTable.cpp:61-63). `size` counts inserts and is never
     * decremented by remove, so it bounds the jobs held from above.
     */
    ghost predicate Valid()
      reads this, buckets
    {
      && Placed()
      && 0 <= size && 5 * size < 4 * capacity
      && |Stored()| <= size
    }

    /** src/JobHashTable.cpp:26-32: `capacity` empty buckets and size 0. */
    constructor (capacity: int)
      requires capacity > 0
      ensures Valid() && fresh(buckets)
      ensures this.capacity == capacity && size == 0
      ensures forall i :: 0 <= i < buckets.Length ==> buckets[i] == []
      ensures Stored() == multiset{}
    {
      var table := EmptyBuckets(capacity);
      this.capacity := capacity;
      buckets := table;
      size := 0;
    }

    /** src/JobHashTable.cpp:120-122: the bucket index, in range exactly for pids that are not negative. */
    function Hash(pid: int): (key: int)
      reads this
      requires capacity > 0
      ensures pid >= 0 ==> key == pid % capacity && 0 <= key < capacity
      ensures pid < 0 ==> key <= 0
    {
      CMod(pid, capacity)
    }

    /** src/JobHashTable.cpp:43-52: a held job with `pid`, or null when none is held. */
    method Find(pid: int) returns (j: Job?)
      requires Valid() && pid >= 0
      ensures j != null ==> j in Stored() && j.pid == pid
      ensures j == null <==> forall x :: x in Stored() ==> x.pid != pid
    {
      var key := Hash(pid);
      var i := 0;
      while i < |buckets[key]|
        invariant 0 <= i <= |buckets[key]|
        invariant forall k :: 0 <= k < i ==> buckets[key][k].pid != pid
      {
        if buckets[key][i].pid == pid {
          HeldHolds(buckets[..], buckets.Length, key);
          assert buckets[key][i] in multiset(buckets[..][key]);
          return buckets[key][i];
        }
        i := i + 1;
      }
      forall x | x in Stored() ensures x.pid != pid {
        PlacedLookup(buckets[..], capacity, x);
      }
      j := null;
    }

    /**
     * src/JobHashTable.cpp:55-64: append to the job's bucket, count it, and
     * double the capacity when the load factor reaches 0.8 (as integers,
     * `5 * size >= 4 * capacity`).
     */
    method Insert(j: Job)
      requires Valid() && j.pid >= 0
      modifies this, buckets
      ensures Valid()
      ensures Stored() == old(Stored()) + multiset{j}
      ensures size == old(size) + 1
      ensures capacity == if 5 * size >= 4 * old(capacity) then 2 * old(capacity) else old(capacity)
    {
      var key := Hash(j.pid);
      ghost var bs := buckets[..];
      FlattenPush(bs, key, j);
      PlacedAppend(bs, capacity, key, j);
      buckets[key] := buckets[key] + [j];
      size := size + 1;
      assert buckets[..] == bs[key := bs[key] + [j]];
      assert Placed() && Stored() == old(Stored()) + multiset{j};
      assert |Stored()| <= size;
      if 5 * size >= 4 * capacity {
        ghost var before := Stored();
        Expand();
        assert Stored() == before;
      }
    }

    /**
     * src/JobHashTable.cpp:67-79: swap the first match in the pid's bucket with
     * the bucket's last entry and pop it. `size` is left as it was.
     */
    method Remove(pid: int) returns (found: bool)
      requires Valid() && pid >= 0
      modifies buckets
      ensures Valid()
      ensures found <==> exists x :: x in old(Stored()) && x.pid == pid
      ensures !found ==> buckets[..] == old(buckets[..])
      ensures found ==> exists x :: x in old(Stored()) && x.pid == pid && Stored() == old(Stored()) - multiset{x}
    {
      var key := Hash(pid);
      var i := 0;
      while i < |buckets[key]|
        invariant 0 <= i <= |buckets[key]|
        invariant forall k :: 0 <= k < i ==> buckets[key][k].pid != pid
      {
        if buckets[key][i].pid == pid {
          ghost var bs := buckets[..];
          var x := bs[key][i];
          HeldHolds(bs, |bs|, key);
          assert x in multiset(bs[key]);
          FlattenSwapRemove(bs, key, i);
          PlacedSwapRemove(bs, capacity, key, i);
          buckets[key] := SwapRemove(buckets[key], i);
          assert buckets[..] == bs[key := SwapRemove(bs[key], i)];
          assert Placed() && Stored() == old(Stored()) - multiset{x};
          return true;
        }
        i := i + 1;
      }
      forall x | x in Stored() ensures x.pid != pid {
        PlacedLookup(buckets[..], capacity, x);
      }
      found := false;
    }

    /** src/JobHashTable.cpp:102-109: true iff every bucket is empty, i.e. no job is held. */
    method IsEmpty() returns (e: bool)
      requires Valid()
      ensures e <==> forall i :: 0 <= i < buckets.Length ==> buckets[i] == []
      ensures e <==> Stored() == multiset{}
    {
      HeldEmpty(buckets[..], buckets.Length);
      var i := 0;
      while i < capacity
        invariant 0 <= i <= capacity
        invariant forall k :: 0 <= k < i ==> buckets[k] == []
      {
        if buckets[i] != [] {
          return false;
        }
        i := i + 1;
      }
      e := true;
    }

    /**
     * src/JobHashTable.cpp:128-144: double the capacity, then rehash every
     * job of the old buckets, in bucket order, into a fresh array.
     */
    method Expand()
      requires Placed()
      modifies this`capacity, this`buckets
      ensures Placed() && fresh(buckets)
      ensures capacity == 2 * old(capacity)
      ensures Stored() == old(Stored())
    {
      var old_ := buckets;
      ghost var ob := old_[..];
      var cap := capacity * 2;
      var table := EmptyBuckets(cap);
      var i := 0;
      while i < old_.Length
        modifies table
        invariant 0 <= i <= |ob| && old_[..] == ob
        invariant PlacedIn(table[..], cap)
        invariant Flatten(table[..]) == Held(ob, i)
      {
        var bucket := old_[i];
        assert bucket == ob[i];
        assert forall k :: 0 <= k < |bucket| ==> bucket[k].pid >= 0;
        ghost var before := Flatten(table[..]);
        RehashBucket(table, cap, bucket);
        ghost var after := Flatten(table[..]);
        assert after == before + multiset(bucket);
        assert Held(ob, i + 1) == Held(ob, i) + multiset(ob[i]);
        i := i + 1;
      }
      assert Flatten(table[..]) == Flatten(ob);
      capacity := cap;
      buckets := table;
    }
  }

  /** A fresh array of `cap` empty buckets, as src/JobHashTable.cpp:30 and 133 allocate. */
  method EmptyBuckets(cap: int) returns (table: array<seq<Job>>)
    requires cap > 0
    ensures fresh(table) && table.Length == cap
    ensures forall i :: 0 <= i < cap ==> table[i] == []
    ensures PlacedIn(table[..], cap) && Flatten(table[..]) == multiset{}
  {
    table := new seq<Job>[cap](_ => []);
    HeldEmpty(table[..], table.Length);
  }

  /**
   * The inner loop of src/JobHashTable.cpp:137-139: append each job of one
   * old bucket to its bucket of `table`, hashed with the new capacity `cap`.
   */
  method RehashBucket(table: array<seq<Job>>, cap: int, bucket: seq<Job>)
    requires cap == table.Length > 0 && PlacedIn(table[..], cap)
    requires forall k :: 0 <= k < |bucket| ==> bucket[k].pid >= 0
    modifies table
    ensures PlacedIn(table[..], cap)
    ensures Flatten(table[..]) == old(Flatten(table[..])) + multiset(bucket)
  {
    ghost var f0 := Flatten(table[..]);
    var k := 0;
    while k < |bucket|
      invariant 0 <= k <= |bucket|
      invariant PlacedIn(table[..], cap)
      invariant Flatten(table[..]) == f0 + multiset(bucket[..k])
    {
      var job := bucket[k];
      var h := CMod(job.pid, cap);
      ghost var ts := table[..];
      FlattenPush(ts, h, job);
      PlacedAppend(ts, cap, h, job);
      table[h] := table[h] + [job];
      assert table[..] == ts[h := ts[h] + [job]];
      PrefixSnoc(bucket, k);
      k := k + 1;
    }
    assert bucket[..k] == bucket;
  }
}
