/** Trees of nodes and the order in which the ring of a device tree threads them: a node first, then
    its children from the one created last to the one created first. */
module NodeTree {

  datatype Tree<N> = Tree(node: N, children: seq<Tree<N>>)

  function Order<N>(t: Tree<N>): (s: seq<N>)
    ensures |s| > 0 && s[0] == t.node
  {
    [t.node] + ForestOrder(t.children)
  }

  function ForestOrder<N>(ts: seq<Tree<N>>): seq<N> {
    if ts == [] then [] else Order(ts[|ts| - 1]) + ForestOrder(ts[..|ts| - 1])
  }

  function Roots<N>(ts: seq<Tree<N>>): (s: seq<N>)
    ensures |s| == |ts| && forall i :: 0 <= i < |s| ==> s[i] == ts[i].node
  {
    seq(|ts|, i requires 0 <= i < |ts| => ts[i].node)
  }

  /** The children of x, in the order of their creation. */
  function ChildrenOf<N(==)>(t: Tree<N>, x: N): seq<N> {
    (if t.node == x then Roots(t.children) else []) + ForestChildrenOf(t.children, x)
  }

  function ForestChildrenOf<N(==)>(ts: seq<Tree<N>>, x: N): seq<N> {
    if ts == [] then [] else ForestChildrenOf(ts[..|ts| - 1], x) + ChildrenOf(ts[|ts| - 1], x)
  }

  /** t with the new node n as last child of p. */
  function AddChild<N(==)>(t: Tree<N>, p: N, n: N): Tree<N> {
    Tree(t.node, AddToForest(t.children, p, n) + if t.node == p then [Tree(n, [])] else [])
  }

  function AddToForest<N(==)>(ts: seq<Tree<N>>, p: N, n: N): (r: seq<Tree<N>>)
    ensures Roots(r) == Roots(ts)
  {
    if ts == [] then [] else
      var r := AddToForest(ts[..|ts| - 1], p, n);
      assert Roots(r) == Roots(ts[..|ts| - 1]);
      r + [AddChild(ts[|ts| - 1], p, n)]
  }

  /** t without x and what is below it. */
  function RemoveNode<N(==)>(t: Tree<N>, x: N): Tree<N> {
    Tree(t.node, RemoveFromForest(t.children, x))
  }

  function RemoveFromForest<N(==)>(ts: seq<Tree<N>>, x: N): seq<Tree<N>> {
    if ts == [] then [] else
      var t := ts[|ts| - 1];
      RemoveFromForest(ts[..|ts| - 1], x) + if t.node == x then [] else [RemoveNode(t, x)]
  }

  /** t without the nodes below x. */
  function Pruned<N(==)>(t: Tree<N>, x: N): Tree<N> {
    if t.node == x then Tree(x, []) else Tree(t.node, PrunedForest(t.children, x))
  }

  function PrunedForest<N(==)>(ts: seq<Tree<N>>, x: N): seq<Tree<N>> {
    if ts == [] then [] else PrunedForest(ts[..|ts| - 1], x) + [Pruned(ts[|ts| - 1], x)]
  }

  // ----- Sequences -----

  /** s with n after every p. */
  function InsertAfter<N(==)>(s: seq<N>, p: N, n: N): seq<N> {
    if s == [] then [] else (if s[0] == p then [p, n] else [s[0]]) + InsertAfter(s[1..], p, n)
  }

  /** s without x. */
  function Drop<N(==)>(s: seq<N>, x: N): seq<N> {
    if s == [] then [] else (if s[0] == x then [] else [s[0]]) + Drop(s[1..], x)
  }

  lemma {:induction false} InsertAfterSum<N>(a: seq<N>, b: seq<N>, p: N, n: N)
    ensures InsertAfter(a + b, p, n) == InsertAfter(a, p, n) + InsertAfter(b, p, n)
    decreases |a|
  {
    if a == [] {
      assert a + b == b;
    } else {
      assert (a + b)[1..] == a[1..] + b;
      InsertAfterSum(a[1..], b, p, n);
    }
  }

  lemma {:induction false} DropSum<N>(a: seq<N>, b: seq<N>, x: N)
    ensures Drop(a + b, x) == Drop(a, x) + Drop(b, x)
    decreases |a|
  {
    if a == [] {
      assert a + b == b;
    } else {
      assert (a + b)[1..] == a[1..] + b;
      DropSum(a[1..], b, x);
    }
  }

  ghost predicate Distinct<N>(s: seq<N>) {
    forall i, j :: 0 <= i < j < |s| ==> s[i] != s[j]
  }

  lemma {:induction false} DistinctCounts<N>(s: seq<N>, x: N)
    requires Distinct(s)
    ensures multiset(s)[x] <= 1
  {
    if s != [] {
      DistinctCounts(s[1..], x);
      assert s == [s[0]] + s[1..];
      assert x == s[0] ==> x !in s[1..];
    }
  }

  /** Inserting after the only p puts n at the next index. */
  lemma {:induction false} InsertAfterAt<N>(s: seq<N>, i: nat, n: N)
    requires Distinct(s) && i < |s|
    ensures InsertAfter(s, s[i], n) == s[..i + 1] + [n] + s[i + 1..]
    decreases |s|
  {
    if i == 0 {
      InsertAfterNone(s[1..], s[0], n);
    } else {
      InsertAfterAt(s[1..], i - 1, n);
      assert s == [s[0]] + s[1..];
    }
  }

  lemma {:induction false} InsertAfterNone<N>(s: seq<N>, p: N, n: N)
    requires p !in s
    ensures InsertAfter(s, p, n) == s
    decreases |s|
  {
    if s != [] {
      InsertAfterNone(s[1..], p, n);
    }
  }

  lemma {:induction false} DropAt<N>(s: seq<N>, i: nat)
    requires Distinct(s) && i < |s|
    ensures Drop(s, s[i]) == s[..i] + s[i + 1..]
    decreases |s|
  {
    if i == 0 {
      DropNone(s[1..], s[0]);
    } else {
      DropAt(s[1..], i - 1);
      assert s == [s[0]] + s[1..];
    }
  }

  lemma {:induction false} DropNone<N>(s: seq<N>, x: N)
    requires x !in s
    ensures Drop(s, x) == s
    decreases |s|
  {
    if s != [] {
      DropNone(s[1..], x);
    }
  }

  // ----- A new node -----

  /** list_add(&node->list, &parent->list) keeps the order: the newest child is the first one. */
  lemma {:induction false} OrderAddChild<N>(t: Tree<N>, p: N, n: N)
    ensures Order(AddChild(t, p, n)) == InsertAfter(Order(t), p, n)
    decreases t, 1
  {
    hide InsertAfter, AddToForest, ForestOrder;
    var ts := AddToForest(t.children, p, n);
    OrderAddToForest(t.children, p, n);
    InsertAfterSum([t.node], ForestOrder(t.children), p, n);
    InsertAfterOne(t.node, p, n);
    if t.node == p {
      LastOrder(ts, Tree(n, []));
      EmptyForest<N>([]);
    } else {
      assert ts + [] == ts;
    }
  }

  lemma InsertAfterOne<N>(x: N, p: N, n: N)
    ensures InsertAfter([x], p, n) == if x == p then [p, n] else [x]
  {
    assert [x][1..] == [];
  }

  lemma LastOrder<N>(front: seq<Tree<N>>, t: Tree<N>)
    ensures ForestOrder(front + [t]) == Order(t) + ForestOrder(front)
  {
    assert (front + [t])[..|front|] == front;
  }

  lemma {:induction false} OrderAddToForest<N>(ts: seq<Tree<N>>, p: N, n: N)
    ensures ForestOrder(AddToForest(ts, p, n)) == InsertAfter(ForestOrder(ts), p, n)
    decreases ts, 0
  {
    if ts != [] {
      var front, t := ts[..|ts| - 1], ts[|ts| - 1];
      OrderAddToForest(front, p, n);
      OrderAddChild(t, p, n);
      InsertAfterSum(Order(t), ForestOrder(front), p, n);
      var r := AddToForest(front, p, n);
      assert (r + [AddChild(t, p, n)])[..|r|] == r;
    }
  }

  lemma {:induction false} ChildrenInOrder<N>(t: Tree<N>, x: N)
    ensures forall c <- ChildrenOf(t, x) :: c in ForestOrder(t.children)
    ensures ChildrenOf(t, x) != [] ==> x in Order(t)
    decreases t, 1
  {
    RootsInOrder(t.children);
    ForestChildrenInOrder(t.children, x);
  }

  lemma {:induction false} RootsInOrder<N>(ts: seq<Tree<N>>)
    ensures forall c <- ts :: c.node in ForestOrder(ts)
  {
    if ts != [] {
      RootsInOrder(ts[..|ts| - 1]);
    }
  }

  lemma {:induction false} ForestChildrenInOrder<N>(ts: seq<Tree<N>>, x: N)
    ensures forall c <- ForestChildrenOf(ts, x) :: c in ForestOrder(ts)
    ensures ForestChildrenOf(ts, x) != [] ==> x in ForestOrder(ts)
    decreases ts, 0
  {
    if ts != [] {
      ForestChildrenInOrder(ts[..|ts| - 1], x);
      ChildrenInOrder(ts[|ts| - 1], x);
    }
  }

  lemma OrderCounts<N>(t: Tree<N>, x: N)
    ensures multiset(Order(t))[x] == (if t.node == x then 1 else 0) + multiset(ForestOrder(t.children))[x]
    ensures x in Order(t) <==> t.node == x || x in ForestOrder(t.children)
  {
    assert multiset(Order(t)) == multiset{t.node} + multiset(ForestOrder(t.children));
  }

  lemma ForestCounts<N>(ts: seq<Tree<N>>, x: N)
    requires ts != []
    ensures var a, b := ForestOrder(ts[..|ts| - 1]), Order(ts[|ts| - 1]);
            && multiset(ForestOrder(ts))[x] == multiset(a)[x] + multiset(b)[x]
            && (x in ForestOrder(ts) <==> x in a || x in b)
            && (x in a ==> multiset(a)[x] >= 1) && (x in b ==> multiset(b)[x] >= 1)
  {
  }

  /** The children of every node after a new node n was added below p. */
  lemma {:induction false} ChildrenAddChild<N>(t: Tree<N>, p: N, n: N, x: N)
    requires multiset(Order(t))[p] <= 1 && n !in Order(t)
    ensures ChildrenOf(AddChild(t, p, n), x)
         == if x == p && p in Order(t) then ChildrenOf(t, x) + [n] else ChildrenOf(t, x)
    decreases t, 1
  {
    hide Order, ForestOrder, AddToForest, ForestChildrenOf;
    var ts := t.children;
    var r := AddToForest(ts, p, n);
    OrderCounts(t, p);
    OrderCounts(t, n);
    ChildrenAddToForest(ts, p, n, x);
    if t.node == p {
      NoChildren(n, x);
      assert Roots(r + [Tree(n, [])]) == Roots(ts) + [n];
      ForestChildrenSum(r, [Tree(n, [])], x);
      SingleForest(Tree(n, []), x);
      if x == p {
        ForestChildrenInOrder(ts, x);
        assert ForestChildrenOf(ts, x) == [];
      }
    } else {
      assert r + [] == r;
    }
  }

  lemma NoChildren<N>(n: N, x: N)
    ensures ChildrenOf(Tree(n, []), x) == []
  {
  }

  lemma SingleForest<N>(t: Tree<N>, x: N)
    ensures ForestChildrenOf([t], x) == ChildrenOf(t, x)
  {
    LastTree([], t, x);
  }

  lemma {:induction false} ForestChildrenSum<N>(a: seq<Tree<N>>, b: seq<Tree<N>>, x: N)
    requires |b| <= 1
    ensures ForestChildrenOf(a + b, x) == ForestChildrenOf(a, x) + ForestChildrenOf(b, x)
  {
    if b == [] {
      assert a + b == a;
    } else {
      assert (a + b)[..|a + b| - 1] == a;
      assert b[..0] == [];
    }
  }

  lemma {:induction false} ChildrenAddToForest<N>(ts: seq<Tree<N>>, p: N, n: N, x: N)
    requires multiset(ForestOrder(ts))[p] <= 1 && n !in ForestOrder(ts)
    ensures ForestChildrenOf(AddToForest(ts, p, n), x)
         == if x == p && p in ForestOrder(ts) then ForestChildrenOf(ts, x) + [n] else ForestChildrenOf(ts, x)
    decreases ts, 0
  {
    hide Order, ForestOrder, AddChild, AddToForest, ChildrenOf, ForestChildrenOf;
    if ts == [] {
      EmptyForest(ts);
      EmptyAdded(ts, p, n);
    } else {
      var front, t := ts[..|ts| - 1], ts[|ts| - 1];
      ForestCounts(ts, p);
      ForestCounts(ts, n);
      ChildrenAddToForest(front, p, n, x);
      ChildrenAddChild(t, p, n, x);
      var r, u := AddToForest(front, p, n), AddChild(t, p, n);
      LastAdded(front, t, p, n);
      LastTree(front, t, x);
      LastTree(r, u, x);
      assert front + [t] == ts;
      var inFront, inLast := x == p && p in ForestOrder(front), x == p && p in Order(t);
      if inFront {
        ChildrenInOrder(t, x);
      }
      OneOfTwo(ForestChildrenOf(front, x), ChildrenOf(t, x), n, inFront, inLast);
    }
  }

  lemma LastAdded<N>(front: seq<Tree<N>>, t: Tree<N>, p: N, n: N)
    ensures AddToForest(front + [t], p, n) == AddToForest(front, p, n) + [AddChild(t, p, n)]
  {
    assert (front + [t])[..|front|] == front;
  }

  lemma DistinctInsert<N>(s: seq<N>, i: nat, n: N)
    requires Distinct(s) && n !in s && i <= |s|
    ensures Distinct(s[..i] + [n] + s[i..])
  {
    var r := s[..i] + [n] + s[i..];
    assert forall k :: 0 <= k < |r| ==> r[k] == if k < i then s[k] else if k == i then n else s[k - 1];
  }

  lemma DistinctRemove<N>(s: seq<N>, i: nat)
    requires Distinct(s) && i < |s|
    ensures Distinct(s[..i] + s[i + 1..]) && s[i] !in s[..i] + s[i + 1..]
    ensures forall y <- s[..i] + s[i + 1..] :: y in s
  {
    var r := s[..i] + s[i + 1..];
    assert forall k :: 0 <= k < |r| ==> r[k] == if k < i then s[k] else s[k + 1];
  }

  /** What a new node changes: the order by one place, the children of its parent by one child. */
  lemma AfterAddChild<N>(t: Tree<N>, p: N, n: N)
    requires Distinct(Order(t)) && p in Order(t) && n !in Order(t)
    ensures var s, i := Order(t), Index(Order(t), p);
            Order(AddChild(t, p, n)) == s[..i + 1] + [n] + s[i + 1..]
    ensures Distinct(Order(AddChild(t, p, n)))
    ensures ChildrenOf(AddChild(t, p, n), p) == ChildrenOf(t, p) + [n]
    ensures ChildrenOf(AddChild(t, p, n), n) == []
    ensures forall x <- Order(t) :: x != p ==> ChildrenOf(AddChild(t, p, n), x) == ChildrenOf(t, x)
  {
    hide ChildrenOf, AddChild, Order, Distinct, InsertAfter, Index;
    var s, i := Order(t), Index(Order(t), p);
    OrderAddChild(t, p, n);
    InsertAfterAt(s, i, n);
    DistinctInsert(s, i + 1, n);
    ChildrenAfterAdd(t, p, n);
  }

  lemma ChildrenAfterAdd<N>(t: Tree<N>, p: N, n: N)
    requires Distinct(Order(t)) && p in Order(t) && n !in Order(t)
    ensures ChildrenOf(AddChild(t, p, n), p) == ChildrenOf(t, p) + [n]
    ensures ChildrenOf(AddChild(t, p, n), n) == []
    ensures forall x <- Order(t) :: x != p ==> ChildrenOf(AddChild(t, p, n), x) == ChildrenOf(t, x)
  {
    hide ChildrenOf, AddChild, Order, Distinct;
    DistinctCounts(Order(t), p);
    ChildrenInOrder(t, n);
    ChildrenAddChild(t, p, n, p);
    ChildrenAddChild(t, p, n, n);
    forall x | x in Order(t) && x != p
      ensures ChildrenOf(AddChild(t, p, n), x) == ChildrenOf(t, x)
    {
      ChildrenAddChild(t, p, n, x);
    }
  }

  lemma OneOfTwo<N>(f: seq<N>, c: seq<N>, n: N, first: bool, second: bool)
    requires !(first && second) && (first ==> c == [])
    ensures (if first then f + [n] else f) + (if second then c + [n] else c)
         == if first || second then f + c + [n] else f + c
  {
  }

  lemma LastTree<N>(front: seq<Tree<N>>, t: Tree<N>, x: N)
    ensures ForestChildrenOf(front + [t], x) == ForestChildrenOf(front, x) + ChildrenOf(t, x)
  {
    assert (front + [t])[..|front|] == front;
  }

  lemma EmptyAdded<N>(ts: seq<Tree<N>>, p: N, n: N)
    requires ts == []
    ensures AddToForest(ts, p, n) == ts
  {
  }

  lemma EmptyForest<N>(ts: seq<Tree<N>>)
    requires ts == []
    ensures ForestOrder(ts) == []
  {
  }

  // ----- A removed leaf -----

  lemma {:induction false} OrderRemoveLeaf<N>(t: Tree<N>, x: N)
    requires ChildrenOf(t, x) == [] && t.node != x
    ensures Order(RemoveNode(t, x)) == Drop(Order(t), x)
    decreases t, 1
  {
    OrderRemoveFromForest(t.children, x);
    DropSum([t.node], ForestOrder(t.children), x);
  }

  lemma {:induction false} OrderRemoveFromForest<N>(ts: seq<Tree<N>>, x: N)
    requires ForestChildrenOf(ts, x) == []
    ensures ForestOrder(RemoveFromForest(ts, x)) == Drop(ForestOrder(ts), x)
    decreases ts, 0
  {
    if ts != [] {
      var front, t := ts[..|ts| - 1], ts[|ts| - 1];
      OrderRemoveFromForest(front, x);
      DropSum(Order(t), ForestOrder(front), x);
      var r := RemoveFromForest(front, x);
      if t.node == x {
        assert t.children == [];
        assert r + [] == r;
        assert Order(t) == [x];
      } else {
        OrderRemoveLeaf(t, x);
        assert (r + [RemoveNode(t, x)])[..|r|] == r;
      }
    }
  }

  lemma {:induction false} ChildrenRemoveLeaf<N>(t: Tree<N>, x: N, y: N)
    requires ChildrenOf(t, x) == [] && x != y
    ensures ChildrenOf(RemoveNode(t, x), y) == Drop(ChildrenOf(t, y), x)
    decreases t, 1
  {
    var own := if t.node == y then Roots(t.children) else [];
    ChildrenRemoveFromForest(t.children, x, y);
    DropSum(own, ForestChildrenOf(t.children, y), x);
    RootsRemove(t.children, x);
  }

  lemma {:induction false} RootsRemove<N>(ts: seq<Tree<N>>, x: N)
    ensures Roots(RemoveFromForest(ts, x)) == Drop(Roots(ts), x)
  {
    if ts != [] {
      var front, t := ts[..|ts| - 1], ts[|ts| - 1];
      RootsRemove(front, x);
      assert Roots(ts) == Roots(front) + [t.node];
      DropSum(Roots(front), [t.node], x);
    }
  }

  lemma {:induction false} ChildrenRemoveFromForest<N>(ts: seq<Tree<N>>, x: N, y: N)
    requires ForestChildrenOf(ts, x) == [] && x != y
    ensures ForestChildrenOf(RemoveFromForest(ts, x), y) == Drop(ForestChildrenOf(ts, y), x)
    decreases ts, 0
  {
    if ts != [] {
      var front, t := ts[..|ts| - 1], ts[|ts| - 1];
      ChildrenRemoveFromForest(front, x, y);
      DropSum(ForestChildrenOf(front, y), ChildrenOf(t, y), x);
      var r := RemoveFromForest(front, x);
      if t.node == x {
        assert t.children == [];
        assert r + [] == r;
        assert ChildrenOf(t, y) == [];
      } else {
        ChildrenRemoveLeaf(t, x, y);
        assert (r + [RemoveNode(t, x)])[..|r|] == r;
      }
    }
  }

  /** c stands twice in the order when it is both a root of the forest and a child inside it. */
  lemma {:induction false} RootAndChild<N>(ts: seq<Tree<N>>, c: N, q: N)
    requires c in Roots(ts) && c in ForestChildrenOf(ts, q)
    ensures multiset(ForestOrder(ts))[c] >= 2
    decreases ts
  {
    hide Order, ForestOrder, ChildrenOf;
    var front, t := ts[..|ts| - 1], ts[|ts| - 1];
    ForestCounts(ts, c);
    OrderCounts(t, c);
    assert Roots(ts) == Roots(front) + [t.node];
    RootsInOrder(front);
    ForestChildrenInOrder(front, q);
    ChildrenInOrder(t, q);
    if c in ChildrenOf(t, q) && c in Roots(front) {
      assert exists u <- front :: u.node == c;
    } else if c !in ChildrenOf(t, q) && t.node != c {
      RootAndChild(front, c, q);
    }
  }

  /** A node has one parent. */
  lemma {:induction false} UniqueParent<N>(t: Tree<N>, c: N, p: N, q: N)
    requires c in ChildrenOf(t, p) && c in ChildrenOf(t, q) && multiset(Order(t))[c] <= 1
    ensures p == q
    decreases t, 1
  {
    hide Order, ForestOrder, ForestChildrenOf;
    var ts := t.children;
    OrderCounts(t, c);
    if c in Roots(ts) {
      if c in ForestChildrenOf(ts, p) { RootAndChild(ts, c, p); }
      if c in ForestChildrenOf(ts, q) { RootAndChild(ts, c, q); }
    } else {
      ForestUniqueParent(ts, c, p, q);
    }
  }

  lemma {:induction false} ForestUniqueParent<N>(ts: seq<Tree<N>>, c: N, p: N, q: N)
    requires c in ForestChildrenOf(ts, p) && c in ForestChildrenOf(ts, q) && multiset(ForestOrder(ts))[c] <= 1
    ensures p == q
    decreases ts, 0
  {
    hide Order, ForestOrder, ChildrenOf;
    var front, t := ts[..|ts| - 1], ts[|ts| - 1];
    ForestCounts(ts, c);
    ForestChildrenInOrder(front, p);
    ForestChildrenInOrder(front, q);
    ChildrenInOrder(t, p);
    ChildrenInOrder(t, q);
    OrderCounts(t, c);
    if c in ChildrenOf(t, p) {
      UniqueParent(t, c, p, q);
    } else {
      ForestUniqueParent(front, c, p, q);
    }
  }

  /** What a removed leaf x with parent p changes. */
  lemma AfterRemoveLeaf<N>(t: Tree<N>, x: N, p: N)
    requires Distinct(Order(t)) && x in Order(t) && x != t.node
    requires ChildrenOf(t, x) == [] && x in ChildrenOf(t, p)
    ensures var s, i := Order(t), Index(Order(t), x);
            i > 0 && Order(RemoveNode(t, x)) == s[..i] + s[i + 1..]
    ensures Distinct(Order(RemoveNode(t, x))) && p != x
    ensures forall y <- Order(RemoveNode(t, x)) :: y in Order(t) && y != x
    ensures ChildrenOf(RemoveNode(t, x), p) == Drop(ChildrenOf(t, p), x)
    ensures forall y <- Order(t) :: y != x && y != p ==> ChildrenOf(RemoveNode(t, x), y) == ChildrenOf(t, y)
  {
    hide ChildrenOf, RemoveNode, Order, Distinct, Drop, Index;
    var s, i := Order(t), Index(Order(t), x);
    OrderRemoveLeaf(t, x);
    DropAt(s, i);
    DistinctRemove(s, i);
    DistinctCounts(s, x);
    ChildrenRemoveLeaf(t, x, p);
    forall y | y in Order(t) && y != x && y != p
      ensures ChildrenOf(RemoveNode(t, x), y) == ChildrenOf(t, y)
    {
      ChildrenRemoveLeaf(t, x, y);
      if x in ChildrenOf(t, y) {
        UniqueParent(t, x, p, y);
      }
      DropNone(ChildrenOf(t, y), x);
    }
  }

  lemma {:induction false} InDrop<N>(s: seq<N>, x: N, y: N)
    requires x != y
    ensures y in Drop(s, x) <==> y in s
    decreases |s|
  {
    if s != [] {
      InDrop(s[1..], x, y);
    }
  }

  // ----- Pruning -----

  /** Pruning keeps x and adds no node. */
  lemma {:induction false} PrunedOrder<N>(t: Tree<N>, x: N)
    ensures x in Order(Pruned(t, x)) <==> x in Order(t)
    decreases t, 1
  {
    if t.node == x {
      assert Order(Pruned(t, x))[0] == x;
    } else {
      PrunedForestOrder(t.children, x);
    }
  }

  lemma {:induction false} PrunedForestOrder<N>(ts: seq<Tree<N>>, x: N)
    ensures x in ForestOrder(PrunedForest(ts, x)) <==> x in ForestOrder(ts)
    decreases ts, 0
  {
    if ts != [] {
      var front, t := ts[..|ts| - 1], ts[|ts| - 1];
      PrunedForestOrder(front, x);
      PrunedOrder(t, x);
      LastOrder(PrunedForest(front, x), Pruned(t, x));
    }
  }

  lemma {:induction false} RemoveAbsent<N>(t: Tree<N>, x: N)
    requires x !in ForestOrder(t.children)
    ensures RemoveNode(t, x) == t
    decreases t, 1
  {
    RemoveAbsentFromForest(t.children, x);
  }

  lemma {:induction false} RemoveAbsentFromForest<N>(ts: seq<Tree<N>>, x: N)
    requires x !in ForestOrder(ts)
    ensures RemoveFromForest(ts, x) == ts
    decreases ts, 0
  {
    if ts != [] {
      RemoveAbsentFromForest(ts[..|ts| - 1], x);
      RemoveAbsent(ts[|ts| - 1], x);
    }
  }

  /** Removing a child of x does not show once x is pruned. */
  lemma {:induction false} PrunedAfterRemove<N>(t: Tree<N>, x: N, c: N)
    requires c in ChildrenOf(t, x) && multiset(Order(t))[c] <= 1
    ensures Pruned(RemoveNode(t, c), x) == Pruned(t, x)
    decreases t, 1
  {
    if t.node != x {
      assert multiset(Order(t)) == multiset{t.node} + multiset(ForestOrder(t.children));
      PrunedForestAfterRemove(t.children, x, c);
    }
  }

  lemma {:induction false} PrunedForestAfterRemove<N>(ts: seq<Tree<N>>, x: N, c: N)
    requires c in ForestChildrenOf(ts, x) && multiset(ForestOrder(ts))[c] <= 1
    ensures PrunedForest(RemoveFromForest(ts, c), x) == PrunedForest(ts, x)
    decreases ts, 0
  {
    var front, t := ts[..|ts| - 1], ts[|ts| - 1];
    assert multiset(ForestOrder(ts)) == multiset(Order(t)) + multiset(ForestOrder(front));
    assert multiset(Order(t)) == multiset{t.node} + multiset(ForestOrder(t.children));
    var r := RemoveFromForest(front, c);
    if c in ChildrenOf(t, x) {
      ChildrenInOrder(t, x);
      assert c in ForestOrder(t.children) && c !in ForestOrder(front) && c != t.node;
      RemoveAbsentFromForest(front, c);
      PrunedAfterRemove(t, x, c);
    } else {
      ForestChildrenInOrder(front, x);
      assert c in ForestOrder(front) && c !in Order(t);
      RemoveAbsent(t, c);
      PrunedForestAfterRemove(front, x, c);
    }
    assert (r + [RemoveNode(t, c)])[..|r|] == r;
  }

  lemma PrunedRoot<N>(t: Tree<N>)
    ensures Pruned(t, t.node) == Tree(t.node, [])
  {
  }

  lemma {:induction false} PrunedLeaf<N>(t: Tree<N>, x: N)
    requires ChildrenOf(t, x) == []
    ensures Pruned(t, x) == t
    decreases t, 1
  {
    PrunedForestLeaf(t.children, x);
  }

  lemma {:induction false} PrunedForestLeaf<N>(ts: seq<Tree<N>>, x: N)
    requires ForestChildrenOf(ts, x) == []
    ensures PrunedForest(ts, x) == ts
    decreases ts, 0
  {
    if ts != [] {
      PrunedForestLeaf(ts[..|ts| - 1], x);
      PrunedLeaf(ts[|ts| - 1], x);
    }
  }

  /** Removing x after pruning it removes the whole subtree. */
  lemma {:induction false} RemovePruned<N>(t: Tree<N>, x: N)
    requires t.node != x
    ensures RemoveNode(Pruned(t, x), x) == RemoveNode(t, x)
    decreases t, 1
  {
    RemoveFromPruned(t.children, x);
  }

  lemma {:induction false} RemoveFromPruned<N>(ts: seq<Tree<N>>, x: N)
    ensures RemoveFromForest(PrunedForest(ts, x), x) == RemoveFromForest(ts, x)
    decreases ts, 0
  {
    if ts != [] {
      var front, t := ts[..|ts| - 1], ts[|ts| - 1];
      RemoveFromPruned(front, x);
      var r := PrunedForest(front, x);
      assert (r + [Pruned(t, x)])[..|r|] == r;
      if t.node != x {
        RemovePruned(t, x);
      }
    }
  }

  /** A child of x is below the root and comes after x; without it x stays. */
  lemma ChildOf<N>(t: Tree<N>, x: N, c: N)
    requires Distinct(Order(t)) && c in ChildrenOf(t, x)
    ensures x in Order(t) && c in Order(t) && c != t.node
    ensures Index(Order(t), x) < Index(Order(t), c)
    ensures Pruned(RemoveNode(t, c), x) == Pruned(t, x) && x in Order(RemoveNode(t, c))
  {
    hide Pruned, RemoveNode, ChildrenOf, Order, ForestOrder;
    DistinctCounts(Order(t), c);
    ChildrenInOrder(t, x);
    OrderCounts(t, c);
    ParentBeforeChild(t, x, c);
    PrunedAfterRemove(t, x, c);
    PrunedOrder(t, x);
    PrunedOrder(RemoveNode(t, c), x);
  }

  // ----- Parents come first -----

  /** The place of the first x, or the length. */
  function Index<N(==)>(s: seq<N>, x: N): (i: nat)
    ensures i <= |s| && (i < |s| ==> s[i] == x)
    ensures x in s ==> i < |s|
    ensures forall j :: 0 <= j < i ==> s[j] != x
  {
    if s == [] || s[0] == x then 0 else 1 + Index(s[1..], x)
  }

  lemma {:induction false} IndexSum<N>(a: seq<N>, b: seq<N>, x: N)
    ensures Index(a + b, x) == if x in a then Index(a, x) else |a| + Index(b, x)
    decreases |a|
  {
    if a == [] {
      assert a + b == b;
    } else {
      assert (a + b)[1..] == a[1..] + b;
      IndexSum(a[1..], b, x);
    }
  }

  lemma {:induction false} ParentBeforeChild<N>(t: Tree<N>, x: N, c: N)
    requires c in ChildrenOf(t, x) && multiset(Order(t))[c] <= 1
    ensures Index(Order(t), x) < Index(Order(t), c) < |Order(t)|
    decreases t, 1
  {
    var ts := t.children;
    assert multiset(Order(t)) == multiset{t.node} + multiset(ForestOrder(ts));
    ChildrenInOrder(t, x);
    assert c in ForestOrder(ts) && c != t.node;
    IndexSum([t.node], ForestOrder(ts), c);
    IndexSum([t.node], ForestOrder(ts), x);
    if t.node != x {
      ForestParentBeforeChild(ts, x, c);
    }
  }

  lemma {:induction false} ForestParentBeforeChild<N>(ts: seq<Tree<N>>, x: N, c: N)
    requires c in ForestChildrenOf(ts, x) && multiset(ForestOrder(ts))[c] <= 1
    ensures Index(ForestOrder(ts), x) < Index(ForestOrder(ts), c) < |ForestOrder(ts)|
    decreases ts, 0
  {
    var front, t := ts[..|ts| - 1], ts[|ts| - 1];
    assert multiset(ForestOrder(ts)) == multiset(Order(t)) + multiset(ForestOrder(front));
    IndexSum(Order(t), ForestOrder(front), x);
    IndexSum(Order(t), ForestOrder(front), c);
    if c in ChildrenOf(t, x) {
      ChildrenInOrder(t, x);
      ParentBeforeChild(t, x, c);
    } else {
      ForestChildrenInOrder(front, x);
      assert c in ForestOrder(front) && c !in Order(t);
      ForestParentBeforeChild(front, x, c);
    }
  }

  // ----- A removed subtree -----

  /** u is one of the trees or a subtree of one. */
  predicate Within<N(==)>(ts: seq<Tree<N>>, u: Tree<N>)
    decreases ts
  {
    ts != [] && (ts[|ts| - 1] == u || Within(ts[|ts| - 1].children, u) || Within(ts[..|ts| - 1], u))
  }

  /** The nodes at and below x are neighbours in the order; removing x takes out just that block. */
  lemma {:induction false} RemovedBlock<N>(t: Tree<N>, x: N) returns (a: seq<N>, u: Tree<N>, b: seq<N>)
    requires x in ForestOrder(t.children) && multiset(Order(t))[x] <= 1
    ensures u.node == x && Within(t.children, u) && a != [] && Order(t) == a + Order(u) + b
    ensures Order(RemoveNode(t, x)) == a + b
    decreases t, 1
  {
    hide ForestOrder, RemoveFromForest;
    OrderCounts(t, x);
    var a', u', b' := ForestRemovedBlock(t.children, x);
    GroupLeft([t.node], a', Order(u'), b');
    a, u, b := [t.node] + a', u', b';
  }

  lemma {:induction false} ForestRemovedBlock<N>(ts: seq<Tree<N>>, x: N)
    returns (a: seq<N>, u: Tree<N>, b: seq<N>)
    requires x in ForestOrder(ts) && multiset(ForestOrder(ts))[x] <= 1
    ensures u.node == x && Within(ts, u) && ForestOrder(ts) == a + Order(u) + b
    ensures ForestOrder(RemoveFromForest(ts, x)) == a + b
    decreases ts, 0
  {
    hide Order, ForestOrder, RemoveFromForest, RemoveNode;
    if ts == [] {
      EmptyForest(ts);
    }
    var front, t := ts[..|ts| - 1], ts[|ts| - 1];
    ForestCounts(ts, x);
    OrderCounts(t, x);
    LastRemoved(front, t, x);
    LastOrder(front, t);
    assert front + [t] == ts;
    var f := ForestOrder(front);
    if t.node == x {
      RemoveAbsentFromForest(front, x);
      a, u, b := [], t, f;
      GroupLeft([], [], Order(u), b);
    } else {
      LastOrder(RemoveFromForest(front, x), RemoveNode(t, x));
      if x in Order(t) {
        RemoveAbsentFromForest(front, x);
        var a', u', b' := RemovedBlock(t, x);
        GroupRight(a', Order(u'), b', f);
        a, u, b := a', u', b' + f;
      } else {
        RemoveAbsent(t, x);
        var a', u', b' := ForestRemovedBlock(front, x);
        GroupLeft(Order(t), a', Order(u'), b');
        a, u, b := Order(t) + a', u', b';
      }
    }
  }

  lemma GroupLeft<N>(o: seq<N>, a: seq<N>, c: seq<N>, b: seq<N>)
    ensures o + (a + c + b) == (o + a) + c + b && o + (a + b) == (o + a) + b
    ensures a == [] ==> a + c + b == c + b && a + b == b
  {
  }

  lemma GroupRight<N>(a: seq<N>, c: seq<N>, b: seq<N>, f: seq<N>)
    ensures (a + c + b) + f == a + c + (b + f) && (a + b) + f == a + (b + f)
  {
  }

  lemma LastRemoved<N>(front: seq<Tree<N>>, t: Tree<N>, x: N)
    ensures RemoveFromForest(front + [t], x)
         == if t.node == x then RemoveFromForest(front, x) else RemoveFromForest(front, x) + [RemoveNode(t, x)]
  {
    assert (front + [t])[..|front|] == front;
  }
}
