/**
 * IntBST.cpp: a binary search tree of ints in which a value inserted several
 * times is kept once, with a count. The scheduler stores each job's
 * outstanding dependency pids in one. Nodes are modelled as a datatype value
 * `Tree`; the class keeps the `root` and `vec` members the source updates.
 */
module BST {
  import opened SeqUtil

  /** INT_MAX of <climits>, what find_min and find_max return on an empty tree. */
  const INT_MAX: int := 2147483647

  datatype Tree = Nil | Node(left: Tree, data: int, count: nat, right: Tree)

  /** The distinct values stored in a tree. */
  function Values(t: Tree): set<int> {
    match t
    case Nil => {}
    case Node(l, d, _, r) => Values(l) + {d} + Values(r)
  }

  /** The stored values with their multiplicities. */
  function Elements(t: Tree): multiset<int> {
    match t
    case Nil => multiset{}
    case Node(l, d, c, r) => Elements(l) + Copies(d, c) + Elements(r)
  }

  /** `c` copies of `d`. */
  function Copies(d: int, c: nat): (m: multiset<int>)
    ensures m[d] == c && |m| == c
  {
    if c == 0 then multiset{} else Copies(d, c - 1) + multiset{d}
  }

  /** Copies of `d` hold nothing else. */
  lemma {:induction false} CopiesOnly(d: int, c: nat, x: int)
    requires x != d
    ensures x !in Copies(d, c)
  {
    if c > 0 {
      CopiesOnly(d, c - 1, x);
    }
  }

  /** Taking one `v` out of a sum whose later parts hold no `v`. */
  lemma MinusFromFirst(a: multiset<int>, b: multiset<int>, c: multiset<int>, v: int)
    requires v !in b && v !in c
    ensures (a + b + c) - multiset{v} == (a - multiset{v}) + b + c
  {
    forall x ensures ((a + b + c) - multiset{v})[x] == ((a - multiset{v}) + b + c)[x] {
    }
  }

  /** Taking one `v` out of a sum whose earlier parts hold no `v`. */
  lemma MinusFromLast(a: multiset<int>, b: multiset<int>, c: multiset<int>, v: int)
    requires v !in a && v !in b
    ensures (a + b + c) - multiset{v} == a + b + (c - multiset{v})
  {
    forall x ensures ((a + b + c) - multiset{v})[x] == (a + b + (c - multiset{v}))[x] {
    }
  }

  /** The search-tree ordering, with every node's count at least one. */
  ghost predicate IsBST(t: Tree) {
    match t
    case Nil => true
    case Node(l, d, c, r) =>
      && c >= 1 && IsBST(l) && IsBST(r)
      && (forall v :: v in Values(l) ==> v < d)
      && (forall v :: v in Values(r) ==> d < v)
  }

  /** In a search tree a value is stored iff it has a node. */
  lemma {:induction false} ElementsMatchValues(t: Tree, v: int)
    ensures IsBST(t) ==> (v in Elements(t) <==> v in Values(t))
  {
    match t
    case Nil =>
    case Node(l, d, c, r) =>
      ElementsMatchValues(l, v);
      ElementsMatchValues(r, v);
      if v != d {
        CopiesOnly(d, c, v);
      }
  }

  // ---------------------------------------------------------------------
  // Queries (IntBST.cpp:122-187, 354-414)

  /** IntBST.cpp:175-187: descend towards `v` only. */
  function ContainsIn(t: Tree, v: int): (b: bool)
    ensures IsBST(t) ==> (b <==> v in Values(t))
  {
    match t
    case Nil => false
    case Node(l, d, _, r) =>
      if v == d then true
      else if v < d then ContainsIn(l, v)
      else ContainsIn(r, v)
  }

  /** IntBST.cpp:135-141: the leftmost node. */
  function MinNode(t: Tree): (m: Tree)
    requires t.Node?
    ensures m.Node? && m.data in Values(t) && m.left == Nil
    ensures IsBST(t) ==> m.count >= 1 && forall v :: v in Values(t) ==> m.data <= v
  {
    if t.left == Nil then t else MinNode(t.left)
  }

  /** IntBST.cpp:157-163: the rightmost node. */
  function MaxNode(t: Tree): (m: Tree)
    requires t.Node?
    ensures m.Node? && m.data in Values(t)
    ensures IsBST(t) ==> forall v :: v in Values(t) ==> v <= m.data
  {
    if t.right == Nil then t else MaxNode(t.right)
  }

  /** Height by the usual definition: -1 for the empty tree. */
  function Height(t: Tree): int {
    match t
    case Nil => -1
    case Node(l, _, _, r) => 1 + Max(Height(l), Height(r))
  }

  /** IntBST.cpp:369-377: 0 for a missing node or a leaf, else one more than the taller child. */
  function HeightFrom(t: Tree): (h: int)
    ensures h >= 0
    ensures t.Node? ==> h == Height(t)
  {
    if t == Nil || (t.left == Nil && t.right == Nil) then 0
    else 1 + Max(HeightFrom(t.left), HeightFrom(t.right))
  }

  /** IntBST.cpp:389-396: one per node, duplicates included in their node. */
  function CountNodes(t: Tree): (n: nat)
    ensures IsBST(t) ==> n == |Values(t)|
  {
    match t
    case Nil => 0
    case Node(l, d, _, r) =>
      DisjointCard(l, d, r, IsBST(t));
      1 + CountNodes(l) + CountNodes(r)
  }

  /** The three parts of a search-tree node share no value, so their sizes add up. */
  lemma {:induction false} DisjointCard(l: Tree, d: int, r: Tree, ordered: bool)
    requires ordered ==> (forall v :: v in Values(l) ==> v < d) && (forall v :: v in Values(r) ==> d < v)
    ensures ordered ==> |Values(l) + {d} + Values(r)| == |Values(l)| + 1 + |Values(r)|
  {
    if ordered {
      var a, b := Values(l), Values(r);
      assert a * {d} == {};
      assert |a + {d}| == |a| + 1;
      forall x | x in a + {d} ensures x !in b {
      }
      assert (a + {d}) * b == {};
    }
  }

  /** A node's height never reaches its number of nodes. */
  lemma {:induction false} HeightBelowNodes(t: Tree)
    ensures Height(t) < CountNodes(t)
  {
    match t
    case Nil =>
    case Node(l, _, _, r) =>
      HeightBelowNodes(l);
      HeightBelowNodes(r);
  }

  /** IntBST.cpp:407-414: value times count, summed over the nodes. */
  function TotalOf(t: Tree): int {
    match t
    case Nil => 0
    case Node(l, d, c, r) => d * c + TotalOf(l) + TotalOf(r)
  }

  /** `c` copies of `d`. */
  function Repeat(d: int, c: nat): (s: seq<int>)
    ensures |s| == c && multiset(s) == Copies(d, c)
  {
    if c == 0 then [] else Repeat(d, c - 1) + [d]
  }

  /** Every stored value, repetitions included, left to right. */
  function InOrder(t: Tree): (s: seq<int>)
    ensures multiset(s) == Elements(t)
  {
    match t
    case Nil => []
    case Node(l, d, c, r) => InOrder(l) + Repeat(d, c) + InOrder(r)
  }

  function Sum(s: seq<int>): int {
    if s == [] then 0 else s[0] + Sum(s[1..])
  }

  lemma {:induction false} SumAppend(a: seq<int>, b: seq<int>)
    ensures Sum(a + b) == Sum(a) + Sum(b)
  {
    if a == [] {
      assert a + b == b;
    } else {
      assert (a + b)[0] == a[0];
      assert (a + b)[1..] == a[1..] + b;
      SumAppend(a[1..], b);
    }
  }

  lemma {:induction false} SumRepeat(d: int, c: nat)
    ensures Sum(Repeat(d, c)) == d * c
  {
    if c > 0 {
      SumAppend(Repeat(d, c - 1), [d]);
      SumRepeat(d, c - 1);
      assert Sum([d]) == d;
      assert d * c == d * (c - 1) + d;
    }
  }

  /** count_total is the sum of the stored multiset, each copy counted. */
  lemma {:induction false} TotalIsSumOfElements(t: Tree)
    ensures TotalOf(t) == Sum(InOrder(t))
  {
    match t
    case Nil =>
    case Node(l, d, c, r) =>
      TotalIsSumOfElements(l);
      TotalIsSumOfElements(r);
      SumRepeat(d, c);
      SumAppend(InOrder(l) + Repeat(d, c), InOrder(r));
      SumAppend(InOrder(l), Repeat(d, c));
  }

  /** IntBST.cpp:27-35: left subtree, right subtree, then the node (one entry per node). */
  function PostOrder(t: Tree): (s: seq<int>)
    ensures |s| == CountNodes(t)
    ensures forall x :: x in s <==> x in Values(t)
  {
    match t
    case Nil => []
    case Node(l, d, _, r) => PostOrder(l) + PostOrder(r) + [d]
  }

  /** In a search tree the post-order list names each distinct value exactly once. */
  lemma {:induction false} PostOrderDistinct(t: Tree)
    requires IsBST(t)
    ensures Distinct(PostOrder(t))
  {
    match t
    case Nil =>
    case Node(l, d, _, r) =>
      var a, b := PostOrder(l), PostOrder(r);
      PostOrderDistinct(l);
      PostOrderDistinct(r);
      forall x | x in a ensures x !in b {
        assert x in Values(l);
      }
      DistinctConcat(a, b);
      forall x | x in a + b ensures x !in [d] {
        assert x in Values(l) || x in Values(r);
      }
      DistinctConcat(a + b, [d]);
  }

  /** IntBST.cpp:107-120: a node-by-node copy, which as a value is the same tree. */
  function PreOrderCopy(t: Tree): (c: Tree)
    ensures c == t
  {
    match t
    case Nil => Nil
    case Node(l, d, n, r) => Node(PreOrderCopy(l), d, n, PreOrderCopy(r))
  }

  // ---------------------------------------------------------------------
  // Insertion (IntBST.cpp:194-239)

  /** IntBST.cpp:194-239: a new leaf where the search falls off, or one more on an equal node. */
  function InsertInto(t: Tree, v: int): (r: Tree)
    ensures Values(r) == Values(t) + {v}
  {
    match t
    case Nil => Node(Nil, v, 1, Nil)
    case Node(l, d, c, r) =>
      if v == d then Node(l, d, c + 1, r)
      else if v < d then Node(InsertInto(l, v), d, c, r)
      else Node(l, d, c, InsertInto(r, v))
  }

  /** Insertion keeps the search-tree ordering. */
  lemma {:induction false} InsertOrdered(t: Tree, v: int)
    requires IsBST(t)
    ensures IsBST(InsertInto(t, v))
  {
    match t
    case Nil =>
    case Node(l, d, c, r) =>
      if v < d {
        InsertOrdered(l, v);
      } else if v > d {
        InsertOrdered(r, v);
      }
  }

  /** Insertion adds exactly one copy of `v` to the stored multiset. */
  lemma {:induction false} InsertElements(t: Tree, v: int)
    ensures Elements(InsertInto(t, v)) == Elements(t) + multiset{v}
  {
    match t
    case Nil =>
      assert Copies(v, 1) == multiset{v};
    case Node(l, d, c, r) =>
      if v == d {
        assert Copies(d, c + 1) == Copies(d, c) + multiset{v};
      } else if v < d {
        InsertElements(l, v);
        var l' := InsertInto(l, v);
        assert InsertInto(t, v) == Node(l', d, c, r);
        assert Elements(InsertInto(t, v)) == Elements(l') + Copies(d, c) + Elements(r);
      } else {
        InsertElements(r, v);
        var r' := InsertInto(r, v);
        assert InsertInto(t, v) == Node(l, d, c, r');
        assert Elements(InsertInto(t, v)) == Elements(l) + Copies(d, c) + Elements(r');
      }
  }

  /** Inserting `v` adds `v` to count_total. */
  lemma {:induction false} InsertTotal(t: Tree, v: int)
    ensures TotalOf(InsertInto(t, v)) == TotalOf(t) + v
  {
    match t
    case Nil =>
    case Node(l, d, c, r) =>
      if v == d {
        assert d * (c + 1) == d * c + d;
      } else if v < d {
        InsertTotal(l, v);
      } else {
        InsertTotal(r, v);
      }
  }

  /** Inserting a stored value adds no node; inserting a new one adds exactly one. */
  lemma {:induction false} InsertNodeCount(t: Tree, v: int)
    requires IsBST(t)
    ensures CountNodes(InsertInto(t, v)) == CountNodes(t) + (if v in Values(t) then 0 else 1)
  {
    match t
    case Nil =>
    case Node(l, d, c, r) =>
      if v < d {
        InsertNodeCount(l, v);
      } else if v > d {
        InsertNodeCount(r, v);
      }
  }

  // ---------------------------------------------------------------------
  // Removal (IntBST.cpp:251-352)

  /**
   * IntBST.cpp:315-332 with 320-328: unlink the leftmost node, giving its
   * parent (or the caller) the leftmost node's right child.
   */
  function DeleteMin(t: Tree): (r: Tree)
    requires t.Node?
    ensures Values(r) <= Values(t)
  {
    if t.left == Nil then t.right
    else Node(DeleteMin(t.left), t.data, t.count, t.right)
  }

  /** DeleteMin takes away exactly the minimum node's copies. */
  lemma {:induction false} DeleteMinElements(t: Tree)
    requires t.Node?
    ensures Elements(DeleteMin(t)) + Copies(MinNode(t).data, MinNode(t).count) == Elements(t)
  {
    if t.left != Nil {
      DeleteMinElements(t.left);
      assert MinNode(t) == MinNode(t.left);
    }
  }

  /** DeleteMin keeps the ordering and drops just the minimum value. */
  lemma {:induction false} DeleteMinOrdered(t: Tree)
    requires t.Node? && IsBST(t)
    ensures IsBST(DeleteMin(t))
    ensures Values(DeleteMin(t)) == Values(t) - {MinNode(t).data}
  {
    if t.left != Nil {
      DeleteMinOrdered(t.left);
      var m := MinNode(t.left);
      assert MinNode(t) == m;
      assert m.data !in Values(t.right);
    }
  }

  /**
   * IntBST.cpp:280-307: a node with count > 1 loses one copy; a leaf goes; a
   * node with one child is bypassed; a node with two children takes the
   * value of its right subtree's minimum. As IntBST.cpp:247-250 says, the
   * minimum's count comes along too; RemoveWithTwoChildAsWritten keeps the
   * source's line 330, which copies only the value.
   */
  function RemoveNode(t: Tree): (r: Tree)
    requires t.Node?
  {
    if t.count > 1 then t.(count := t.count - 1)
    else if t.left == Nil && t.right == Nil then Nil
    else if t.left == Nil || t.right == Nil then (if t.left != Nil then t.left else t.right)
    else RemoveWithTwoChild(t)
  }

  /** IntBST.cpp:315-332, intended: the right minimum moves up with its count. */
  function RemoveWithTwoChild(t: Tree): Tree
    requires t.Node? && t.left.Node? && t.right.Node?
  {
    var m := MinNode(t.right);
    Node(t.left, m.data, m.count, DeleteMin(t.right))
  }

  /** Replacing a single-copy node by its right minimum keeps the ordering and drops just its value. */
  lemma {:induction false} TwoChildOrdered(t: Tree)
    requires t.Node? && t.left.Node? && t.right.Node? && IsBST(t) && t.count == 1
    ensures IsBST(RemoveWithTwoChild(t))
    ensures Values(RemoveWithTwoChild(t)) == Values(t) - {t.data}
  {
    var m := MinNode(t.right);
    DeleteMinOrdered(t.right);
    var r' := DeleteMin(t.right);
    forall v | v in Values(t.left) ensures v < m.data {
      assert m.data in Values(t.right);
    }
    forall v | v in Values(r') ensures m.data < v {
      assert v in Values(t.right) && v != m.data;
    }
  }

  /** The same replacement takes one copy of the node's value out of the stored multiset. */
  lemma {:induction false} TwoChildElements(t: Tree)
    requires t.Node? && t.left.Node? && t.right.Node? && t.count == 1
    ensures Elements(RemoveWithTwoChild(t)) == Elements(t) - multiset{t.data}
  {
    var d, a := t.data, Elements(t.left);
    var m := MinNode(t.right);
    DeleteMinElements(t.right);
    var e, cm := Elements(DeleteMin(t.right)), Copies(m.data, m.count);
    assert Copies(d, 1) == multiset{d};
    assert Elements(t) == a + multiset{d} + (e + cm);
    forall x ensures (a + cm + e)[x] == ((a + multiset{d} + (e + cm)) - multiset{d})[x] {
    }
  }

  /** RemoveNode keeps the ordering; only a node's last copy takes its value away. */
  lemma {:induction false} RemoveNodeOrdered(t: Tree)
    requires t.Node? && IsBST(t)
    ensures IsBST(RemoveNode(t))
    ensures Values(RemoveNode(t)) == if t.count > 1 then Values(t) else Values(t) - {t.data}
  {
    if t.count == 1 && t.left.Node? && t.right.Node? {
      TwoChildOrdered(t);
    }
  }

  /** A node holding several copies loses exactly one of them. */
  lemma {:induction false} DropOneCopy(t: Tree)
    requires t.Node? && t.count > 1
    ensures Elements(t.(count := t.count - 1)) == Elements(t) - multiset{t.data}
  {
    var a, d, m, b := Elements(t.left), t.data, Copies(t.data, t.count - 1), Elements(t.right);
    assert Copies(d, t.count) == m + multiset{d};
    forall x ensures (a + m + b)[x] == ((a + (m + multiset{d}) + b) - multiset{d})[x] {
    }
  }

  /** A single-copy node with at most one child is replaced by that child, dropping its value. */
  lemma {:induction false} BypassElements(t: Tree)
    requires t.Node? && t.count == 1 && (t.left == Nil || t.right == Nil)
    ensures Elements(RemoveNode(t)) == Elements(t) - multiset{t.data}
  {
    var l, d, r := t.left, t.data, t.right;
    assert Copies(d, 1) == multiset{d};
    if l == Nil {
      var b := Elements(r);
      assert RemoveNode(t) == r;
      assert Elements(t) == multiset{} + multiset{d} + b;
      forall x ensures b[x] == ((multiset{} + multiset{d} + b) - multiset{d})[x] {
      }
    } else {
      var a := Elements(l);
      assert RemoveNode(t) == l;
      assert Elements(t) == a + multiset{d} + multiset{};
      forall x ensures a[x] == ((a + multiset{d} + multiset{}) - multiset{d})[x] {
      }
    }
  }

  /** RemoveNode takes one copy of the node's value out of the stored multiset. */
  lemma {:induction false} RemoveNodeElements(t: Tree)
    requires t.Node? && IsBST(t)
    ensures Elements(RemoveNode(t)) == Elements(t) - multiset{t.data}
  {
    if t.count > 1 {
      DropOneCopy(t);
      assert RemoveNode(t) == t.(count := t.count - 1);
    } else if t.left.Node? && t.right.Node? {
      TwoChildElements(t);
      assert RemoveNode(t) == RemoveWithTwoChild(t);
    } else {
      BypassElements(t);
    }
  }

  /**
   * IntBST.cpp:251-273: search for `v`; report false with the tree unchanged
   * when it is absent, otherwise remove one copy with RemoveNode.
   */
  function RemoveFrom(t: Tree, v: int): (res: (Tree, bool))
  {
    match t
    case Nil => (Nil, false)
    case Node(l, d, c, r) =>
      if v == d then (RemoveNode(t), true)
      else if v < d then
        var (l', found) := RemoveFrom(l, v);
        (Node(l', d, c, r), found)
      else
        var (r', found) := RemoveFrom(r, v);
        (Node(l, d, c, r'), found)
  }

  /** remove(v) reports whether `v` was stored, leaves the tree alone when it was not, and keeps the ordering. */
  lemma {:induction false} RemoveFromOrdered(t: Tree, v: int)
    requires IsBST(t)
    ensures RemoveFrom(t, v).1 <==> v in Values(t)
    ensures !RemoveFrom(t, v).1 ==> RemoveFrom(t, v).0 == t
    ensures IsBST(RemoveFrom(t, v).0)
    ensures Values(RemoveFrom(t, v).0) <= Values(t)
  {
    match t
    case Nil =>
    case Node(l, d, c, r) =>
      if v == d {
        RemoveNodeOrdered(t);
      } else if v < d {
        RemoveFromOrdered(l, v);
      } else {
        RemoveFromOrdered(r, v);
      }
  }

  /** remove(v) takes exactly one copy of `v` out of the stored multiset (none if there is none). */
  lemma {:induction false} RemoveFromElements(t: Tree, v: int)
    requires IsBST(t)
    ensures Elements(RemoveFrom(t, v).0) == Elements(t) - multiset{v}
  {
    match t
    case Nil =>
    case Node(l, d, c, r) =>
      if v == d {
        RemoveNodeElements(t);
      } else if v < d {
        RemoveFromElements(l, v);
        ElementsMatchValues(r, v);
        CopiesOnly(d, c, v);
        MinusFromFirst(Elements(l), Copies(d, c), Elements(r), v);
        var l' := RemoveFrom(l, v).0;
        assert RemoveFrom(t, v).0 == Node(l', d, c, r);
      } else {
        RemoveFromElements(r, v);
        ElementsMatchValues(l, v);
        CopiesOnly(d, c, v);
        MinusFromLast(Elements(l), Copies(d, c), Elements(r), v);
        var r' := RemoveFrom(r, v).0;
        assert RemoveFrom(t, v).0 == Node(l, d, c, r');
      }
  }

  /** IntBST.cpp:315-332 as written: line 330 copies the minimum's value but not its count. */
  function RemoveWithTwoChildAsWritten(t: Tree): Tree
    requires t.Node? && t.left.Node? && t.right.Node?
  {
    var m := MinNode(t.right);
    Node(t.left, m.data, t.count, DeleteMin(t.right))
  }

  /**
   * Removing 5 from the tree holding 3, 5, 7, 7 (7 counted twice on the right
   * minimum) loses one 7 as written; the intended removal keeps both.
   */
  lemma TwoChildAsWrittenLosesCopies()
    ensures var t := Node(Node(Nil, 3, 1, Nil), 5, 1, Node(Nil, 7, 2, Nil));
            && Elements(RemoveWithTwoChildAsWritten(t)) == multiset{3, 7}
            && Elements(RemoveWithTwoChild(t)) == multiset{3, 7, 7}
            && Elements(t) - multiset{5} == multiset{3, 7, 7}
  {
    var t := Node(Node(Nil, 3, 1, Nil), 5, 1, Node(Nil, 7, 2, Nil));
    assert Copies(3, 1) == multiset{3};
    assert Copies(5, 1) == multiset{5};
    assert Copies(7, 1) == multiset{7};
    assert Copies(7, 2) == multiset{7, 7};
  }

  // ---------------------------------------------------------------------

  class IntBST {
    var root: Tree
    /** IntBST.h:40: the member vector that return_vector fills. */
    var vec: seq<int>

    ghost predicate Valid()
      reads this
    {
      IsBST(root)
    }

    /** IntBST.cpp:61-64. */
    constructor ()
      ensures Valid() && root == Nil
    {
      root := Nil;
      vec := [];
    }

    /** IntBST.cpp:86-89: the copy has the same shape, values and counts. */
    constructor Copy(source: IntBST)
      requires source.Valid()
      ensures Valid() && root == source.root
    {
      root := PreOrderCopy(source.root);
      vec := [];
    }

    /** IntBST.cpp:194-207. */
    method Insert(v: int)
      requires Valid()
      modifies this`root
      ensures Valid()
      ensures root == InsertInto(old(root), v)
      ensures Elements(root) == old(Elements(root)) + multiset{v}
    {
      InsertOrdered(root, v);
      InsertElements(root, v);
      root := InsertInto(root, v);
    }

    /** IntBST.cpp:251-254. */
    method Remove(v: int) returns (found: bool)
      requires Valid()
      modifies this`root
      ensures Valid()
      ensures (root, found) == RemoveFrom(old(root), v)
      ensures found <==> v in old(Values(root))
      ensures Elements(root) == old(Elements(root)) - multiset{v}
      ensures !found ==> root == old(root)
    {
      RemoveFromOrdered(root, v);
      RemoveFromElements(root, v);
      var (r, f) := RemoveFrom(root, v);
      root, found := r, f;
    }

    /** IntBST.cpp:167-170. */
    function Contains(v: int): (b: bool)
      reads this
      ensures Valid() ==> (b <==> v in Elements(root))
    {
      ElementsMatchValues(root, v);
      ContainsIn(root, v)
    }

    /** IntBST.cpp:124-130: INT_MAX on an empty tree (the comment there says INT_MIN). */
    function FindMin(): (m: int)
      reads this
      ensures root == Nil ==> m == INT_MAX
      ensures root != Nil && Valid() ==> m in Values(root) && forall v :: v in Values(root) ==> m <= v
    {
      if root == Nil then INT_MAX else MinNode(root).data
    }

    /** IntBST.cpp:145-152: INT_MAX on an empty tree. */
    function FindMax(): (m: int)
      reads this
      ensures root == Nil ==> m == INT_MAX
      ensures root != Nil && Valid() ==> m in Values(root) && forall v :: v in Values(root) ==> v <= m
    {
      if root == Nil then INT_MAX else MaxNode(root).data
    }

    /** IntBST.cpp:357-363: -1 for an empty tree, otherwise the helper's height. */
    function TreeHeight(): (h: int)
      reads this
      ensures h == Height(root)
      ensures h < CountNodes(root)
    {
      HeightBelowNodes(root);
      if root == Nil then -1 else HeightFrom(root)
    }

    /** IntBST.cpp:382-385: the number of distinct values. */
    function NodeCount(): (n: int)
      reads this
      ensures Valid() ==> n == |Values(root)|
    {
      CountNodes(root)
    }

    /** IntBST.cpp:399-402: the sum of every stored copy. */
    function CountTotal(): (n: int)
      reads this
      ensures n == Sum(InOrder(root))
    {
      TotalIsSumOfElements(root);
      TotalOf(root)
    }

    /** IntBST.cpp:37-39. */
    function IsEmpty(): (b: bool)
      reads this
      ensures b <==> root == Nil
      ensures Valid() ==> (b <==> |Elements(root)| == 0)
    {
      ElementsMatchValues(root, if root.Node? then root.data else 0);
      root == Nil
    }

    /** IntBST.cpp:21-25: clear `vec`, fill it in post-order and hand back a copy. */
    method ReturnVector() returns (v: seq<int>)
      requires Valid()
      modifies this`vec
      ensures v == vec == PostOrder(root)
      ensures Distinct(v) && forall x :: x in v <==> x in Elements(root)
    {
      vec := [];
      ReturnVectorFrom(root);
      v := vec;
      PostOrderDistinct(root);
      forall x ensures x in v <==> x in Elements(root) {
        ElementsMatchValues(root, x);
      }
    }

    /** IntBST.cpp:27-35: append the post-order values of `node` to `vec`. */
    method ReturnVectorFrom(node: Tree)
      modifies this`vec
      ensures vec == old(vec) + PostOrder(node)
      decreases node
    {
      if node == Nil {
        return;
      }
      ReturnVectorFrom(node.left);
      ReturnVectorFrom(node.right);
      vec := vec + [node.data];
    }
  }
}
