/** Small helpers used by several components: sequences, multisets and C++ arithmetic. */
module SeqUtil {

  /** No element occurs twice. */
  predicate Distinct<T(==)>(s: seq<T>) {
    forall a, b :: 0 <= a < b < |s| ==> s[a] != s[b]
  }

  /** Two distinct sequences with no common element concatenate to a distinct one. */
  lemma DistinctConcat<T>(a: seq<T>, b: seq<T>)
    requires Distinct(a) && Distinct(b)
    requires forall x :: x in a ==> x !in b
    ensures Distinct(a + b)
  {
    var s := a + b;
    forall i, j | 0 <= i < j < |s| ensures s[i] != s[j] {
      if j < |a| {
        assert s[i] == a[i] && s[j] == a[j];
      } else if i < |a| {
        assert s[i] in a && s[j] in b;
      } else {
        assert s[i] == b[i - |a|] && s[j] == b[j - |a|];
      }
    }
  }

  /** Extending a prefix by one element adds that element. */
  lemma PrefixSnoc<T>(s: seq<T>, k: nat)
    requires k < |s|
    ensures s[..k + 1] == s[..k] + [s[k]]
    ensures multiset(s[..k + 1]) == multiset(s[..k]) + multiset{s[k]}
  {
    assert s[..k + 1] == s[..k] + [s[k]];
  }

  /** In a distinct sequence an element does not occur before its own position. */
  lemma DistinctPrefix<T>(s: seq<T>, i: nat)
    requires Distinct(s) && i < |s|
    ensures s[i] !in s[..i]
    ensures s[..i + 1] == s[..i] + [s[i]]
  {
    assert s[..i + 1] == s[..i] + [s[i]];
  }

  /** Appending one element adds it to the multiset. */
  lemma MultisetSnoc<T>(s: seq<T>, x: T)
    ensures multiset(s + [x]) == multiset(s) + multiset{x}
  {
  }

  /** The last two summands of a multiset union can be exchanged. */
  lemma UnionSwap<T>(h: multiset<T>, a: multiset<T>, b: multiset<T>)
    ensures h + a + b == h + b + a
  {
    forall y ensures (h + a + b)[y] == (h + b + a)[y] {
    }
  }

  /** A summand added to both sides of an equation can go in the middle. */
  lemma UnionInsert<T>(p: multiset<T>, q: multiset<T>, a: multiset<T>, b: multiset<T>, c: multiset<T>)
    requires p + a == q + b
    ensures p + c + a == q + c + b
  {
    forall y ensures (p + c + a)[y] == (q + c + b)[y] {
      assert (p + a)[y] == (q + b)[y];
    }
  }

  /** Cancelling a common summand from which one copy of `x` was taken. */
  lemma MultisetCancel<T>(p: multiset<T>, q: multiset<T>, a: multiset<T>, x: T)
    requires x in a && p + a == q + (a - multiset{x})
    ensures p == q - multiset{x}
  {
    forall y ensures p[y] == (q - multiset{x})[y] {
      assert (p + a)[y] == (q + (a - multiset{x}))[y];
    }
  }

  /** A summand common to both sides of an equation can be dropped. */
  lemma MultisetAddCancel<T>(p: multiset<T>, q: multiset<T>, c: multiset<T>)
    requires p + c == q + c
    ensures p == q
  {
    forall y ensures p[y] == q[y] {
      assert (p + c)[y] == (q + c)[y];
    }
  }

  /** C++ `%` on ints: the remainder takes the sign of the dividend. */
  function CMod(a: int, b: int): (r: int)
    requires b > 0
    ensures a >= 0 ==> r == a % b
    ensures -b < r < b && (a < 0 ==> r <= 0)
  {
    if a >= 0 then a % b else -((-a) % b)
  }

  function Min(a: int, b: int): int { if a <= b then a else b }

  function Max(a: int, b: int): int { if a >= b then a else b }

  /**
   * The vector idiom `swap(v[i], v.back()); v.pop_back();`: the element at `i`
   * is overwritten by the last one and the last slot is dropped.
   */
  function SwapRemove<T>(s: seq<T>, i: nat): (r: seq<T>)
    requires i < |s|
    ensures |r| == |s| - 1
    ensures forall k :: 0 <= k < |r| && k != i ==> r[k] == s[k]
    ensures i < |r| ==> r[i] == s[|s| - 1]
  {
    s[i := s[|s| - 1]][..|s| - 1]
  }

  /** Swap-and-pop removes exactly the one occurrence at `i`. */
  lemma SwapRemoveMultiset<T>(s: seq<T>, i: nat)
    requires i < |s|
    ensures multiset(SwapRemove(s, i)) == multiset(s) - multiset{s[i]}
  {
    var last := |s| - 1;
    var u := s[i := s[last]];
    var r := u[..last];
    assert u == r + [s[last]];
    var ms, mu, mr := multiset(s), multiset(u), multiset(r);
    var one, top := multiset{s[i]}, multiset{s[last]};
    assert mu == mr + top;
    assert mu == ms - one + top;
    assert s[i] in ms;
    forall x ensures mr[x] == (ms - one)[x] {
      assert mu[x] == mr[x] + top[x];
      assert mu[x] == (ms - one)[x] + top[x];
    }
  }

  /** Dropping one element keeps the others distinct. */
  lemma SwapRemoveDistinct<T>(s: seq<T>, i: nat)
    requires i < |s| && Distinct(s)
    ensures Distinct(SwapRemove(s, i))
    ensures s[i] !in SwapRemove(s, i)
  {
    var r := SwapRemove(s, i);
    SwapRemoveMultiset(s, i);
    assert multiset(s)[s[i]] == 1 by {
      DistinctCount(s, i);
    }
    assert multiset(r)[s[i]] == 0;
    forall a, b | 0 <= a < b < |r| ensures r[a] != r[b] {
      var a' := if a == i then |s| - 1 else a;
      var b' := if b == i then |s| - 1 else b;
      assert r[a] == s[a'] && r[b] == s[b'];
    }
  }

  /** In a distinct sequence every element occurs exactly once. */
  lemma {:induction false} DistinctCount<T>(s: seq<T>, i: nat)
    requires i < |s| && Distinct(s)
    ensures multiset(s)[s[i]] == 1
  {
    if i == 0 {
      assert s == [s[0]] + s[1..];
      assert s[0] !in s[1..];
    } else {
      assert s == [s[0]] + s[1..];
      assert Distinct(s[1..]);
      assert s[1..][i - 1] == s[i];
      DistinctCount(s[1..], i - 1);
    }
  }
}
