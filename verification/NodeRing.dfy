/** Device tree nodes in memory: parent and child links, and the circular list through all nodes. */
module NodeRing {
  import opened Bytes
  import opened NodeTree
  import F = FdtFormat
  import FdtRoundTrip

  type word32 = n: nat | n < TWO_32

  class DeviceNode {
    const name: seq<byte>
    var parent: DeviceNode?
    var children: seq<DeviceNode>
    var next: DeviceNode?
    var prev: DeviceNode?
    var phandle: word32
    var properties: seq<F.Property>

    constructor (name: seq<byte>, parent: DeviceNode?)
      ensures this.name == name && this.parent == parent && children == [] && phandle == 0 && properties == []
      ensures next == this && prev == this
    {
      this.name, this.parent, children, phandle, properties := name, parent, [], 0, [];
      new;
      next, prev := this, this;
    }
  }

  /** The properties without the first of that name. */
  function Without(ps: seq<F.Property>, name: seq<byte>): seq<F.Property> {
    if ps == [] then [] else if ps[0].name == name then ps[1..] else [ps[0]] + Without(ps[1..], name)
  }

  /** of_set_property: what was there under the name goes, the new value comes last. */
  function WithProperty(ps: seq<F.Property>, name: seq<byte>, value: seq<byte>): seq<F.Property> {
    Without(ps, name) + [F.Property(name, value)]
  }

  /** All properties but those of that name, in their order. */
  function OthersOf(ps: seq<F.Property>, name: seq<byte>): seq<F.Property> {
    if ps == [] then [] else
      var last := ps[|ps| - 1];
      OthersOf(ps[..|ps| - 1], name) + if last.name == name then [] else [last]
  }

  /** Setting a property takes out the first one of that name, if there is one, appends the new one,
      and keeps all others where they are. */
  lemma SetTakesOutFirst(ps: seq<F.Property>, name: seq<byte>, value: seq<byte>)
    ensures var r := WithProperty(ps, name, value);
            && r[|r| - 1] == F.Property(name, value)
            && OthersOf(r, name) == OthersOf(ps, name)
            && (if exists p <- ps :: p.name == name
                then exists k :: 0 <= k < |ps| && ps[k].name == name && (forall j :: 0 <= j < k ==> ps[j].name != name)
                                 && r[..|r| - 1] == ps[..k] + ps[k + 1..]
                else r[..|r| - 1] == ps)
  {
    hide Without, OthersOf;
    var r := WithProperty(ps, name, value);
    assert r[..|r| - 1] == Without(ps, name);
    var _ := WithoutFirst(ps, name);
    OthersKept(ps, name, value);
  }

  /** The other properties stay, in their order. */
  lemma OthersKept(ps: seq<F.Property>, name: seq<byte>, value: seq<byte>)
    ensures OthersOf(WithProperty(ps, name, value), name) == OthersOf(ps, name)
  {
    hide Without, OthersOf;
    var k := WithoutFirst(ps, name);
    if k < |ps| {
      assert ps == ps[..k] + [ps[k]] + ps[k + 1..];
      OthersSplit(ps[..k], ps[k + 1..], name);
      OthersSplit(ps[..k] + [ps[k]], ps[k + 1..], name);
      OthersAppend(ps[..k], ps[k], name);
      assert OthersOf(ps[..k], name) + [] == OthersOf(ps[..k], name);
    }
    OthersAppend(Without(ps, name), F.Property(name, value), name);
  }

  lemma {:induction false} WithoutFirst(ps: seq<F.Property>, name: seq<byte>) returns (k: nat)
    ensures k <= |ps| && forall j :: 0 <= j < k ==> ps[j].name != name
    ensures k < |ps| ==> ps[k].name == name && Without(ps, name) == ps[..k] + ps[k + 1..]
    ensures k == |ps| ==> Without(ps, name) == ps
    decreases |ps|
  {
    if ps == [] || ps[0].name == name {
      k := 0;
    } else {
      k := WithoutFirst(ps[1..], name);
      assert ps == [ps[0]] + ps[1..];
      k := k + 1;
    }
  }

  lemma OthersAppend(ps: seq<F.Property>, p: F.Property, name: seq<byte>)
    ensures OthersOf(ps + [p], name) == OthersOf(ps, name) + if p.name == name then [] else [p]
  {
    assert (ps + [p])[..|ps|] == ps;
  }

  lemma {:induction false} OthersSplit(a: seq<F.Property>, b: seq<F.Property>, name: seq<byte>)
    ensures OthersOf(a + b, name) == OthersOf(a, name) + OthersOf(b, name)
    decreases |b|
  {
    if b == [] {
      assert a + b == a;
    } else {
      assert (a + b)[..|a + b| - 1] == a + b[..|b| - 1];
      OthersSplit(a, b[..|b| - 1], name);
    }
  }

  /** The phandle property is what a reader of the flattened tree caches. */
  lemma PhandleIsRead(ps: seq<F.Property>, p: word32)
    ensures FdtRoundTrip.PhandleOf(WithProperty(ps, F.PHANDLE, Be32(p))) == p
  {
    hide Be32, FromBe32, Without;
    Be32RoundTrip(p);
  }

  function After(i: nat, n: nat): nat {
    if i + 1 < n then i + 1 else 0
  }

  function Before(i: nat, n: nat): nat
    requires i < n
  {
    if i > 0 then i - 1 else n - 1
  }

  /** The nodes of s form one circular list in this order. */
  ghost predicate Ring(s: seq<DeviceNode>)
    reads s`next, s`prev
  {
    forall i :: 0 <= i < |s| ==> s[i].next == s[After(i, |s|)] && s[After(i, |s|)].prev == s[i]
  }

  lemma RingAt(s: seq<DeviceNode>, i: nat)
    requires Ring(s) && i < |s|
    ensures s[i].next == s[After(i, |s|)] && s[i].prev == s[Before(i, |s|)]
  {
    assert After(Before(i, |s|), |s|) == i;
  }

  /** list_add */
  method ListAdd(node: DeviceNode, head: DeviceNode, ghost s: seq<DeviceNode>, ghost i: nat)
    requires Ring(s) && Distinct(s) && i < |s| && s[i] == head && node !in s
    modifies node`next, node`prev, head`next, head.next`prev
    ensures Ring(s[..i + 1] + [node] + s[i + 1..])
  {
    var next := head.next;
    next.prev := node;
    node.next := next;
    node.prev := head;
    head.next := node;
    forall j | 0 <= j < |s| && j != i
      ensures s[j].next == s[After(j, |s|)] && s[After(j, |s|)].prev == s[j]
    {
      assert s[j] != s[i] && s[After(j, |s|)] != s[After(i, |s|)];
    }
    RingOfParts(s, i, node);
  }

  /** The pairs of neighbours of the ring with node after place i. */
  lemma RingOfParts(s: seq<DeviceNode>, i: nat, node: DeviceNode)
    requires i < |s| && s[i].next == node && node.prev == s[i]
    requires node.next == s[After(i, |s|)] && s[After(i, |s|)].prev == node
    requires forall j :: 0 <= j < |s| && j != i ==> s[j].next == s[After(j, |s|)] && s[After(j, |s|)].prev == s[j]
    ensures Ring(s[..i + 1] + [node] + s[i + 1..])
  {
    var r: seq<DeviceNode> := s[..i + 1] + [node] + s[i + 1..];
    forall k | 0 <= k < |r|
      ensures r[k].next == r[After(k, |r|)] && r[After(k, |r|)].prev == r[k]
    {
      InsertedAt(s, i, node, k);
    }
  }

  lemma InsertedAt(s: seq<DeviceNode>, i: nat, node: DeviceNode, k: nat)
    requires i < |s| && k <= |s|
    ensures var r := s[..i + 1] + [node] + s[i + 1..];
            |r| == |s| + 1 && (r[k], r[After(k, |r|)]) ==
              if k == i then (s[i], node)
              else if k == i + 1 then (node, s[After(i, |s|)])
              else var j := if k < i then k else k - 1; (s[j], s[After(j, |s|)])
  {
    hide Ring;
  }

  /** list_del */
  method ListDel(entry: DeviceNode, ghost s: seq<DeviceNode>, ghost i: nat)
    requires Ring(s) && Distinct(s) && i < |s| && s[i] == entry && entry.next != null && entry.prev != null
    modifies entry.next`prev, entry.prev`next
    ensures Ring(s[..i] + s[i + 1..])
  {
    var next, prev := entry.next, entry.prev;
    next.prev := prev;
    prev.next := next;
    ghost var r: seq<DeviceNode> := s[..i] + s[i + 1..];
    assert |r| == |s| - 1 && forall k :: 0 <= k < |r| ==> r[k] == s[if k < i then k else k + 1];
    forall k | 0 <= k < |r|
      ensures r[k].next == r[After(k, |r|)] && r[After(k, |r|)].prev == r[k]
    {
      var j := if k < i then k else k + 1;
      assert r[k] == s[j] && j != i;
      assert After(Before(i, |s|), |s|) == i;
      if After(j, |s|) == i {
        assert j == Before(i, |s|);
        assert r[After(k, |r|)] == s[After(i, |s|)];
      } else {
        assert After(k, |r|) == (if After(j, |s|) < i then After(j, |s|) else After(j, |s|) - 1);
        assert r[After(k, |r|)] == s[After(j, |s|)] && s[j] != s[Before(i, |s|)];
        assert s[After(j, |s|)] != s[After(i, |s|)];
      }
    }
  }

  /** The nodes reached from one root. */
  class DeviceTree {
    const root: DeviceNode
    ghost var tree: Tree<DeviceNode>
    ghost var nodes: seq<DeviceNode>

    ghost function Members(): set<DeviceNode>
      reads this
    {
      set x | x in nodes
    }

    ghost predicate Shape()
      reads this
    {
      nodes == Order(tree) && tree.node == root && Distinct(nodes)
    }

    /** The parent and child links of every node agree with the tree. */
    ghost predicate Links()
      reads this, nodes`parent, nodes`children, root`parent
    {
      && root.parent == null
      && (forall p <- nodes :: p.children == ChildrenOf(tree, p))
      && (forall c <- nodes :: c != root ==> HasParent(c))
    }

    ghost predicate HasParent(c: DeviceNode)
      reads this, c`parent
    {
      c.parent != null && c.parent in nodes && c in ChildrenOf(tree, c.parent)
    }

    /** The ring is the tree's order. */
    ghost predicate Valid()
      reads this, nodes, root
    {
      Shape() && Links() && Ring(nodes)
    }

    constructor ()
      ensures Valid() && tree == Tree(root, []) && fresh(root) && root.phandle == 0
    {
      root := new DeviceNode([], null);
      tree, nodes := Tree(root, []), [root];
      new;
      NoChildren(root, root);
    }

    /** list_add_tail(&node->parent_list, &parent->children) */
    method AddToParent(parent: DeviceNode, node: DeviceNode)
      requires Shape() && Links() && parent in nodes && node !in nodes
      requires node.parent == parent && node.children == []
      modifies this`tree, this`nodes, parent`children
      ensures Shape() && Links() && tree == AddChild(old(tree), parent, node)
      ensures var i := Index(old(nodes), parent);
              nodes == old(nodes[..i + 1] + [node] + nodes[i + 1..])
    {
      hide Order, ChildrenOf, AddChild, Distinct, Index;
      ghost var i := Index(nodes, parent);
      AfterAddChild(tree, parent, node);
      parent.children := parent.children + [node];
      nodes := nodes[..i + 1] + [node] + nodes[i + 1..];
      tree := AddChild(tree, parent, node);
      assert forall p <- nodes :: p == node || p in old(nodes);
      assert forall p <- nodes :: p.children == ChildrenOf(tree, p);
      assert HasParent(node);
      forall c | c in old(nodes) && c != root
        ensures HasParent(c)
      {
        assert old(HasParent(c));
        assert c.parent in nodes;
      }
    }

    /** of_new_node with a parent */
    method OfNewNode(parent: DeviceNode, name: seq<byte>) returns (node: DeviceNode)
      requires Valid() && parent in nodes
      modifies this`tree, this`nodes, Members()
      ensures Valid() && fresh(node) && node.name == name && node.phandle == 0 && node.properties == []
      ensures tree == AddChild(old(tree), parent, node) && nodes == Order(tree)
      ensures forall x <- old(nodes) :: x.phandle == old(x.phandle) && x.properties == old(x.properties)
    {
      hide Order, ChildrenOf, AddChild, Distinct, Index, Ring, Links;
      ghost var s, i := nodes, Index(nodes, parent);
      node := new DeviceNode(name, parent);
      AddToParent(parent, node);
      RingAt(s, i);
      ListAdd(node, parent, s, i);
    }

    /** list_del(&node->parent_list) of a node without children */
    method RemoveFromParent(node: DeviceNode)
      requires Shape() && Links() && node in nodes && node != root && node.children == []
      modifies this`tree, this`nodes, Members()`children
      ensures Shape() && Links() && tree == RemoveNode(old(tree), node)
      ensures var i := Index(old(nodes), node);
              nodes == old(nodes[..i] + nodes[i + 1..])
    {
      hide Order, ChildrenOf, RemoveNode, Drop, Distinct, Index;
      ghost var i := Index(nodes, node);
      var parent := node.parent;
      assert HasParent(node);
      AfterRemoveLeaf(tree, node, parent);
      parent.children := Drop(parent.children, node);
      nodes := nodes[..i] + nodes[i + 1..];
      tree := RemoveNode(tree, node);
      forall c | c in nodes && c != root
        ensures HasParent(c)
      {
        assert old(HasParent(c));
        InDrop(ChildrenOf(old(tree), c.parent), node, c);
      }
    }

    /** list_del(&node->list) and list_del(&node->parent_list) */
    method Unlink(node: DeviceNode)
      requires Valid() && node in nodes && node != root && node.children == []
      modifies this`tree, this`nodes, Members()
      ensures Valid() && tree == RemoveNode(old(tree), node)
      ensures |nodes| < |old(nodes)| && forall x <- nodes :: x in old(nodes)
      ensures forall x <- old(nodes) :: x.phandle == old(x.phandle) && x.properties == old(x.properties)
    {
      hide Order, ChildrenOf, RemoveNode, Distinct, Index, Ring, Links;
      ghost var s, i := nodes, Index(nodes, node);
      RemoveFromParent(node);
      RingAt(s, i);
      ListDel(node, s, i);
    }

    /** of_delete_node: the children first, each with everything below it; a root only loses them. */
    method OfDeleteNode(node: DeviceNode)
      requires Valid() && node in nodes
      modifies this`tree, this`nodes, Members()
      ensures Valid() && tree == if node == root then Tree(root, []) else RemoveNode(old(tree), node)
      ensures |nodes| <= |old(nodes)| && (node != root ==> |nodes| < |old(nodes)|)
      ensures forall x <- nodes :: x in old(nodes)
      ensures forall x <- old(nodes) :: x.phandle == old(x.phandle) && x.properties == old(x.properties)
      decreases |nodes|, |nodes| - Index(nodes, node)
    {
      hide Order, ChildrenOf, RemoveNode, Ring, Pruned, Distinct;
      while node.children != []
        invariant Valid() && node in nodes && Pruned(tree, node) == Pruned(old(tree), node)
        invariant |nodes| < |old(nodes)| || (nodes == old(nodes) && tree == old(tree))
        invariant forall x <- nodes :: x in old(nodes)
        invariant forall x <- old(nodes) :: x.phandle == old(x.phandle) && x.properties == old(x.properties)
        decreases |nodes|
      {
        var child := node.children[0];
        ChildOf(tree, node, child);
        OfDeleteNode(child);
      }
      PrunedLeaf(tree, node);
      assert tree == Pruned(old(tree), node) && (node != root ==> HasParent(node));
      if node.parent != null {
        RemovePruned(old(tree), node);
        Unlink(node);
      } else {
        PrunedRoot(old(tree));
      }
    }

    // ----- Traversal -----

    /** of_next_node */
    method OfNextNode(node: DeviceNode) returns (r: DeviceNode?)
      requires Valid() && node in nodes
      ensures var i := Index(nodes, node);
              r == if i + 1 < |nodes| then nodes[i + 1] else null
    {
      hide ChildrenOf, Ring, Index;
      ghost var i := Index(nodes, node);
      RingAt(nodes, i);
      var next := node.next;
      if i + 1 < |nodes| {
        assert nodes[i + 1] != nodes[0];
        assert HasParent(next);
      }
      r := if next.parent != null then next else null;
    }

    lemma IndexOf(k: nat)
      requires Shape() && k < |nodes|
      ensures Index(nodes, nodes[k]) == k
    {
    }

    /** of_tree_for_each_node_from(node, root): every node but the root, once each, and then an end. */
    method VisitAll() returns (visited: seq<DeviceNode>)
      requires Valid()
      ensures visited == Order(tree)[1..]
    {
      hide Ring, Links, Index, Order, Distinct;
      visited := [];
      IndexOf(0);
      var node := OfNextNode(root);
      ghost var k := 1;
      while node != null
        invariant 1 <= k <= |nodes| && visited == nodes[1..k]
        invariant node == if k < |nodes| then nodes[k] else null
        decreases |nodes| - k
      {
        visited := visited + [node];
        IndexOf(k);
        node := OfNextNode(node);
        k := k + 1;
      }
    }

    // ----- Phandles -----

    /** No two nodes of the tree share a phandle; 0 is none. */
    ghost predicate DistinctPhandles()
      reads this, Members()
    {
      forall x, y :: x in nodes && y in nodes && x != y && x.phandle == y.phandle ==> x.phandle == 0
    }

    /** of_find_node_by_phandle: the first node after the root in ring order. */
    method OfFindNodeByPhandle(handle: word32) returns (r: DeviceNode?)
      requires Valid()
      ensures r == null ==> forall x <- nodes :: x != root ==> x.phandle != handle
      ensures r != null ==> r in nodes && r != root && r.phandle == handle
      ensures forall x <- nodes :: DistinctPhandles() && handle != 0 && x != root && x.phandle == handle ==> r == x
    {
      hide Ring, Links, Index, Order, Distinct;
      IndexOf(0);
      var node := OfNextNode(root);
      ghost var k := 1;
      while node != null
        invariant 1 <= k <= |nodes|
        invariant node == if k < |nodes| then nodes[k] else null
        invariant forall j :: 1 <= j < k ==> nodes[j].phandle != handle
        decreases |nodes| - k
      {
        IndexOf(k);
        if node.phandle == handle {
          return node;
        }
        node := OfNextNode(node);
        k := k + 1;
      }
      r := null;
    }

    /** of_get_tree_max_phandle */
    method OfGetTreeMaxPhandle() returns (max: word32)
      requires Valid()
      ensures (forall x <- nodes :: x.phandle <= max) && exists x <- nodes :: x.phandle == max
    {
      hide Ring, Links, Index, Order, Distinct;
      max := root.phandle;
      IndexOf(0);
      var n := OfNextNode(root);
      ghost var k := 1;
      while n != null
        invariant 1 <= k <= |nodes|
        invariant n == if k < |nodes| then nodes[k] else null
        invariant forall j :: 0 <= j < k ==> nodes[j].phandle <= max
        invariant exists x <- nodes :: x.phandle == max
        decreases |nodes| - k
      {
        if n.phandle > max {
          max := n.phandle;
        }
        IndexOf(k);
        n := OfNextNode(n);
        k := k + 1;
      }
    }

    /** of_find_root_node */
    method OfFindRootNode(node: DeviceNode) returns (r: DeviceNode)
      requires Valid() && node in nodes
      ensures r == root
    {
      hide Ring, ChildrenOf, Distinct, Order;
      r := node;
      while r.parent != null
        invariant r in nodes
        decreases Index(nodes, r)
      {
        assert HasParent(r);
        ChildOf(tree, r.parent, r);
        r := r.parent;
      }
      assert r != root ==> HasParent(r);
    }

    /** of_node_create_phandle: one more than the largest, in 32 bits. */
    method OfNodeCreatePhandle(node: DeviceNode) returns (p: word32)
      requires Valid() && node in nodes
      modifies node`phandle, node`properties
      ensures Valid() && p == node.phandle
      ensures node.properties == if old(node.phandle) != 0 then old(node.properties)
                                 else WithProperty(old(node.properties), F.PHANDLE, Be32(p))
      ensures OthersOf(node.properties, F.PHANDLE) == old(OthersOf(node.properties, F.PHANDLE))
      ensures old(node.phandle == FdtRoundTrip.PhandleOf(node.properties)) ==>
        node.phandle == FdtRoundTrip.PhandleOf(node.properties)
      ensures old(node.phandle) != 0 ==> p == old(node.phandle)
      ensures old(node.phandle) == 0 ==>
        (p == 0 <==> exists x <- nodes :: old(x.phandle) == TWO_32 - 1)
        && forall x <- nodes :: p != 0 ==> old(x.phandle) < p
      ensures old(DistinctPhandles()) ==> DistinctPhandles()
    {
      hide Ring, ChildrenOf, Distinct, Order, Be32, WithProperty, OthersOf, FdtRoundTrip.PhandleOf;
      if node.phandle != 0 {
        return node.phandle;
      }
      var found := OfFindRootNode(node);
      assert found == root;
      var max := OfGetTreeMaxPhandle();
      p := (max + 1) % TWO_32;
      node.phandle := p;
      PhandleIsRead(node.properties, p);
      OthersKept(node.properties, F.PHANDLE, Be32(p));
      node.properties := WithProperty(node.properties, F.PHANDLE, Be32(p));
    }
  }
}
