/**
 * The values of a DOM tree: nodes held in an arena and addressed by index.
 *
 * A node stands for one C++ `DomNode` (dom_tree.h:133-138): its tag, its
 * text, its parent back-link, its ordered children, its attributes and its
 * map of numeric "extras". A freed node stays in the arena with `live` false.
 *
 * Two invariants make an arena a forest:
 *  - `Ranked`: every child has a smaller rank than its parent, so following
 *    children always ends (no cycles); a ghost rank sequence is kept beside
 *    the nodes for that purpose;
 *  - `Linked`: a live node's children are live, distinct and point back to it,
 *    and a live node's parent is live and lists it among its children.
 */
module DomModel {
  import opened Wrappers

  type NodeId = nat

  datatype Node = Node(
    tag: string,
    text: string,
    parent: Option<NodeId>,
    children: seq<NodeId>,
    attributes: map<string, string>,
    extras: map<int, real>,
    live: bool)

  /** A freshly constructed node: no parent, no children (dom_tree.h:37-40). */
  function Fresh(tag: string, text: string): (node: Node)
    ensures node.live && node.parent == None && node.children == []
    ensures node.tag == tag && node.text == text
    ensures node.attributes == map[] && node.extras == map[]
  {
    Node(tag, text, None, [], map[], map[], true)
  }

  // ---------------------------------------------------------------------
  // Lookups on one node
  // ---------------------------------------------------------------------

  /** get_attribute: the stored value, or None where the source returns NULL. */
  function GetAttribute(node: Node, name: string): (r: Option<string>)
    ensures r.Some? <==> name in node.attributes
    ensures r.Some? ==> r.value == node.attributes[name]
  {
    if name in node.attributes then Some(node.attributes[name]) else None
  }

  function HasExtra(node: Node, key: int): bool {
    key in node.extras
  }

  /** get_extra(key): the caller must know the key is present (the source asserts it). */
  function GetExtra(node: Node, key: int): real
    requires HasExtra(node, key)
  {
    node.extras[key]
  }

  /** get_extra(key, &result): Some exactly when the key is present. */
  function TryGetExtra(node: Node, key: int): (r: Option<real>)
    ensures r.Some? <==> HasExtra(node, key)
    ensures r.Some? ==> r.value == GetExtra(node, key)
  {
    if key in node.extras then Some(node.extras[key]) else None
  }

  /** get_extra_default: the stored value, or the default when the key is absent. */
  function GetExtraDefault(node: Node, key: int, default: real): (r: real)
    ensures HasExtra(node, key) ==> r == GetExtra(node, key)
    ensures !HasExtra(node, key) ==> r == default
  {
    match TryGetExtra(node, key)
    case Some(v) => v
    case None => default
  }

  // ---------------------------------------------------------------------
  // Updates of one node
  // ---------------------------------------------------------------------

  function WithExtra(node: Node, key: int, value: real): Node {
    node.(extras := node.extras[key := value])
  }

  function WithAttribute(node: Node, name: string, value: string): Node {
    node.(attributes := node.attributes[name := value])
  }

  function WithText(node: Node, text: string): Node {
    node.(text := node.text + text)
  }

  /** After set_extra(k, v), has_extra(k) holds, k reads back v and every other key is unchanged. */
  lemma SetExtraThenGet(node: Node, key: int, value: real, other: int)
    ensures HasExtra(WithExtra(node, key, value), key)
    ensures GetExtra(WithExtra(node, key, value), key) == value
    ensures other != key ==> TryGetExtra(WithExtra(node, key, value), other) == TryGetExtra(node, other)
  {
  }

  /** Storing the value a key already holds leaves the node as it was. */
  lemma SetExtraSame(node: Node, key: int, value: real)
    requires key in node.extras && node.extras[key] == value
    ensures WithExtra(node, key, value) == node
  {
    assert node.extras[key := value] == node.extras;
  }

  /** After add_attribute(name, v), get_attribute(name) returns v, whatever was stored before. */
  lemma AddAttributeThenGet(node: Node, name: string, value: string, other: string)
    ensures GetAttribute(WithAttribute(node, name, value), name) == Some(value)
    ensures other != name ==> GetAttribute(WithAttribute(node, name, value), other) == GetAttribute(node, other)
  {
  }

  // ---------------------------------------------------------------------
  // Shape invariants
  // ---------------------------------------------------------------------

  /** Every child index is in the arena and has a smaller rank than its parent. */
  ghost predicate Ranked(nodes: seq<Node>, rank: seq<nat>) {
    |rank| == |nodes| &&
    forall n, i :: 0 <= n < |nodes| && 0 <= i < |nodes[n].children| ==>
      nodes[n].children[i] < |nodes| && rank[nodes[n].children[i]] < rank[n]
  }

  /** Parent and child links of live nodes agree. */
  ghost predicate Linked(nodes: seq<Node>) {
    (forall n, i :: 0 <= n < |nodes| && nodes[n].live && 0 <= i < |nodes[n].children| ==>
      nodes[n].children[i] < |nodes| &&
      nodes[nodes[n].children[i]].live &&
      nodes[nodes[n].children[i]].parent == Some(n))
    && (forall n, i, j :: 0 <= n < |nodes| && nodes[n].live && 0 <= i < j < |nodes[n].children| ==>
      nodes[n].children[i] != nodes[n].children[j])
    && (forall m :: 0 <= m < |nodes| && nodes[m].live && nodes[m].parent.Some? ==>
      nodes[m].parent.value < |nodes| &&
      nodes[nodes[m].parent.value].live &&
      m in nodes[nodes[m].parent.value].children)
  }

  ghost predicate Valid(nodes: seq<Node>, rank: seq<nat>) {
    Ranked(nodes, rank) && Linked(nodes)
  }

  /** Every id of `cs` is in the arena with a rank below `bound`. */
  ghost predicate Below(nodes: seq<Node>, rank: seq<nat>, cs: seq<NodeId>, bound: nat)
    requires |rank| == |nodes|
  {
    forall i :: 0 <= i < |cs| ==> cs[i] < |nodes| && rank[cs[i]] < bound
  }

  lemma ChildrenBelow(nodes: seq<Node>, rank: seq<nat>, n: NodeId)
    requires Ranked(nodes, rank) && n < |nodes|
    ensures Below(nodes, rank, nodes[n].children, rank[n])
  {
  }

  lemma BelowPrefix(nodes: seq<Node>, rank: seq<nat>, cs: seq<NodeId>, bound: nat, k: nat)
    requires |rank| == |nodes| && Below(nodes, rank, cs, bound) && k <= |cs|
    ensures Below(nodes, rank, cs[..k], bound)
  {
    forall i | 0 <= i < k
      ensures cs[..k][i] < |nodes| && rank[cs[..k][i]] < bound
    {
      assert cs[..k][i] == cs[i];
    }
  }

  // ---------------------------------------------------------------------
  // Traversal orders
  // ---------------------------------------------------------------------

  /** The subtree of `n` in pre-order: the node, then each child's subtree in order. */
  ghost function Preorder(nodes: seq<Node>, rank: seq<nat>, n: NodeId): seq<NodeId>
    requires Ranked(nodes, rank) && n < |nodes|
    decreases rank[n], 1
  {
    ChildrenBelow(nodes, rank, n);
    [n] + PreorderList(nodes, rank, nodes[n].children, rank[n])
  }

  ghost function PreorderList(nodes: seq<Node>, rank: seq<nat>, cs: seq<NodeId>, bound: nat): seq<NodeId>
    requires Ranked(nodes, rank) && Below(nodes, rank, cs, bound)
    decreases bound, 0, |cs|
  {
    if cs == [] then []
    else Preorder(nodes, rank, cs[0]) + PreorderList(nodes, rank, cs[1..], bound)
  }

  /** The subtree of `n` in post-order: each child's subtree in order, then the node. */
  ghost function Postorder(nodes: seq<Node>, rank: seq<nat>, n: NodeId): seq<NodeId>
    requires Ranked(nodes, rank) && n < |nodes|
    decreases rank[n], 1
  {
    ChildrenBelow(nodes, rank, n);
    PostorderList(nodes, rank, nodes[n].children, rank[n]) + [n]
  }

  ghost function PostorderList(nodes: seq<Node>, rank: seq<nat>, cs: seq<NodeId>, bound: nat): seq<NodeId>
    requires Ranked(nodes, rank) && Below(nodes, rank, cs, bound)
    decreases bound, 0, |cs|
  {
    if cs == [] then []
    else Postorder(nodes, rank, cs[0]) + PostorderList(nodes, rank, cs[1..], bound)
  }

  /** `m` lies in the subtree of `n` (`n` included). */
  ghost predicate InSub(nodes: seq<Node>, rank: seq<nat>, n: NodeId, m: NodeId)
    requires Ranked(nodes, rank) && n < |nodes|
  {
    m in Preorder(nodes, rank, n)
  }

  // ---------------------------------------------------------------------
  // Facts about subtrees
  // ---------------------------------------------------------------------

  /** Subtree members are in the arena and ranked no higher than the subtree's root. */
  lemma {:induction false} PreorderBounds(nodes: seq<Node>, rank: seq<nat>, n: NodeId)
    requires Ranked(nodes, rank) && n < |nodes|
    ensures forall m :: m in Preorder(nodes, rank, n) ==> m < |nodes| && rank[m] <= rank[n]
    ensures forall m :: m in Preorder(nodes, rank, n) && m != n ==> rank[m] < rank[n]
    decreases rank[n], 1
  {
    ChildrenBelow(nodes, rank, n);
    PreorderListBounds(nodes, rank, nodes[n].children, rank[n]);
  }

  lemma {:induction false} PreorderListBounds(nodes: seq<Node>, rank: seq<nat>, cs: seq<NodeId>, bound: nat)
    requires Ranked(nodes, rank) && Below(nodes, rank, cs, bound)
    ensures forall m :: m in PreorderList(nodes, rank, cs, bound) ==> m < |nodes| && rank[m] < bound
    decreases bound, 0, |cs|
  {
    if cs != [] {
      PreorderBounds(nodes, rank, cs[0]);
      PreorderListBounds(nodes, rank, cs[1..], bound);
    }
  }

  /** A member of the children's pre-order list lies in one child's subtree, and conversely. */
  lemma {:induction false} PreorderListMember(nodes: seq<Node>, rank: seq<nat>, cs: seq<NodeId>, bound: nat, m: NodeId)
    requires Ranked(nodes, rank) && Below(nodes, rank, cs, bound)
    ensures m in PreorderList(nodes, rank, cs, bound) <==>
      exists i :: 0 <= i < |cs| && m in Preorder(nodes, rank, cs[i])
    decreases |cs|
  {
    if cs != [] {
      PreorderListMember(nodes, rank, cs[1..], bound, m);
      if m in PreorderList(nodes, rank, cs, bound) && m !in Preorder(nodes, rank, cs[0]) {
        var i :| 0 <= i < |cs[1..]| && m in Preorder(nodes, rank, cs[1..][i]);
        assert m in Preorder(nodes, rank, cs[i + 1]);
      }
      if exists i :: 0 <= i < |cs| && m in Preorder(nodes, rank, cs[i]) {
        var i :| 0 <= i < |cs| && m in Preorder(nodes, rank, cs[i]);
        if i > 0 {
          assert m in Preorder(nodes, rank, cs[1..][i - 1]);
        }
      }
    }
  }

  /** The subtree of `n` is `n` together with the subtrees of its children. */
  lemma PreorderMember(nodes: seq<Node>, rank: seq<nat>, n: NodeId, m: NodeId)
    requires Ranked(nodes, rank) && n < |nodes|
    ensures m in Preorder(nodes, rank, n) <==>
      m == n || exists i :: 0 <= i < |nodes[n].children| && m in Preorder(nodes, rank, nodes[n].children[i])
  {
    ChildrenBelow(nodes, rank, n);
    PreorderListMember(nodes, rank, nodes[n].children, rank[n], m);
  }

  /** Every node is in its own subtree. */
  lemma SelfInSub(nodes: seq<Node>, rank: seq<nat>, n: NodeId)
    requires Ranked(nodes, rank) && n < |nodes|
    ensures n in Preorder(nodes, rank, n)
  {
    PreorderMember(nodes, rank, n, n);
  }

  /** Subtrees are closed under taking children. */
  lemma {:induction false} SubChild(nodes: seq<Node>, rank: seq<nat>, n: NodeId, m: NodeId, i: nat)
    requires Ranked(nodes, rank) && n < |nodes|
    requires m in Preorder(nodes, rank, n)
    requires m < |nodes| && i < |nodes[m].children|
    ensures nodes[m].children[i] in Preorder(nodes, rank, n)
    decreases rank[n]
  {
    var c := nodes[m].children[i];
    PreorderMember(nodes, rank, n, m);
    if m == n {
      SelfInSub(nodes, rank, c);
      PreorderMember(nodes, rank, n, c);
    } else {
      var k :| 0 <= k < |nodes[n].children| && m in Preorder(nodes, rank, nodes[n].children[k]);
      SubChild(nodes, rank, nodes[n].children[k], m, i);
      PreorderMember(nodes, rank, n, c);
    }
  }

  /** The subtree of a descendant lies inside the subtree of its ancestor. */
  lemma {:induction false} SubNested(nodes: seq<Node>, rank: seq<nat>, n: NodeId, m: NodeId)
    requires Ranked(nodes, rank) && n < |nodes|
    requires m in Preorder(nodes, rank, n)
    ensures m < |nodes|
    ensures forall x :: x in Preorder(nodes, rank, m) ==> x in Preorder(nodes, rank, n)
    decreases rank[n]
  {
    PreorderBounds(nodes, rank, n);
    PreorderMember(nodes, rank, n, m);
    if m != n {
      var k :| 0 <= k < |nodes[n].children| && m in Preorder(nodes, rank, nodes[n].children[k]);
      SubNested(nodes, rank, nodes[n].children[k], m);
      forall x | x in Preorder(nodes, rank, m)
        ensures x in Preorder(nodes, rank, n)
      {
        PreorderMember(nodes, rank, n, x);
      }
    }
  }

  /** In a valid arena the subtree of a live node is live. */
  lemma {:induction false} SubLive(nodes: seq<Node>, rank: seq<nat>, n: NodeId)
    requires Valid(nodes, rank) && n < |nodes| && nodes[n].live
    ensures forall m :: m in Preorder(nodes, rank, n) ==> m < |nodes| && nodes[m].live
    decreases rank[n]
  {
    PreorderBounds(nodes, rank, n);
    forall m | m in Preorder(nodes, rank, n)
      ensures nodes[m].live
    {
      PreorderMember(nodes, rank, n, m);
      if m != n {
        var k :| 0 <= k < |nodes[n].children| && m in Preorder(nodes, rank, nodes[n].children[k]);
        SubLive(nodes, rank, nodes[n].children[k]);
      }
    }
  }

  /** Inside the subtree of a live node, every node but the root has its parent inside the subtree too. */
  lemma {:induction false} SubParent(nodes: seq<Node>, rank: seq<nat>, n: NodeId, m: NodeId)
    requires Valid(nodes, rank) && n < |nodes| && nodes[n].live
    requires m in Preorder(nodes, rank, n) && m != n
    ensures m < |nodes| && nodes[m].parent.Some?
    ensures nodes[m].parent.value in Preorder(nodes, rank, n)
    decreases rank[n]
  {
    PreorderMember(nodes, rank, n, m);
    var k :| 0 <= k < |nodes[n].children| && m in Preorder(nodes, rank, nodes[n].children[k]);
    var c := nodes[n].children[k];
    if m == c {
      SelfInSub(nodes, rank, n);
    } else {
      SubParent(nodes, rank, c, m);
      SubNested(nodes, rank, n, c) by {
        PreorderMember(nodes, rank, n, c);
        SelfInSub(nodes, rank, c);
      }
    }
  }

  /** A live node with a parent ranks below that parent, and the parent is not in its subtree. */
  lemma ParentOutside(nodes: seq<Node>, rank: seq<nat>, n: NodeId)
    requires Valid(nodes, rank) && n < |nodes| && nodes[n].live && nodes[n].parent.Some?
    ensures nodes[n].parent.value < |nodes| && rank[n] < rank[nodes[n].parent.value]
    ensures nodes[n].parent.value !in Preorder(nodes, rank, n)
  {
    var p := nodes[n].parent.value;
    var i :| 0 <= i < |nodes[p].children| && nodes[p].children[i] == n;
    PreorderBounds(nodes, rank, n);
  }

  /** The subtrees of two different children of one node do not meet. */
  lemma {:induction false} SiblingsDisjoint(nodes: seq<Node>, rank: seq<nat>, c1: NodeId, c2: NodeId, m: NodeId)
    requires Valid(nodes, rank)
    requires c1 < |nodes| && c2 < |nodes| && nodes[c1].live && nodes[c2].live
    requires nodes[c1].parent.Some? && nodes[c1].parent == nodes[c2].parent
    requires m in Preorder(nodes, rank, c1) && m in Preorder(nodes, rank, c2)
    ensures c1 == c2
    decreases if m < |rank| && rank[m] <= rank[c1] then rank[c1] - rank[m] else 0
  {
    PreorderBounds(nodes, rank, c1);
    PreorderBounds(nodes, rank, c2);
    ParentOutside(nodes, rank, c1);
    ParentOutside(nodes, rank, c2);
    if m == c1 || m == c2 {
      if c1 != c2 {
        var other := if m == c1 then c2 else c1;
        SubParent(nodes, rank, other, m);
        assert false;
      }
    } else {
      SubParent(nodes, rank, c1, m);
      SubParent(nodes, rank, c2, m);
      SubLive(nodes, rank, c1);
      var q := nodes[m].parent.value;
      assert rank[m] < rank[q] by {
        var i :| 0 <= i < |nodes[q].children| && nodes[q].children[i] == m;
      }
      SiblingsDisjoint(nodes, rank, c1, c2, q);
    }
  }

  /** Post-order lists exactly the members of the subtree. */
  lemma {:induction false} PostorderSameMembers(nodes: seq<Node>, rank: seq<nat>, n: NodeId)
    requires Ranked(nodes, rank) && n < |nodes|
    ensures forall m :: m in Postorder(nodes, rank, n) <==> m in Preorder(nodes, rank, n)
    decreases rank[n], 1
  {
    ChildrenBelow(nodes, rank, n);
    PostorderListSameMembers(nodes, rank, nodes[n].children, rank[n]);
  }

  lemma {:induction false} PostorderListSameMembers(nodes: seq<Node>, rank: seq<nat>, cs: seq<NodeId>, bound: nat)
    requires Ranked(nodes, rank) && Below(nodes, rank, cs, bound)
    ensures forall m :: m in PostorderList(nodes, rank, cs, bound) <==> m in PreorderList(nodes, rank, cs, bound)
    decreases bound, 0, |cs|
  {
    if cs != [] {
      PostorderSameMembers(nodes, rank, cs[0]);
      PostorderListSameMembers(nodes, rank, cs[1..], bound);
    }
  }

  /** Extending a list of children by one extends its orders by that child's subtree. */
  lemma {:induction false} OrderListSnoc(nodes: seq<Node>, rank: seq<nat>, cs: seq<NodeId>, c: NodeId, bound: nat)
    requires Ranked(nodes, rank) && Below(nodes, rank, cs + [c], bound)
    ensures Below(nodes, rank, cs, bound) && c < |nodes|
    ensures PreorderList(nodes, rank, cs + [c], bound) == PreorderList(nodes, rank, cs, bound) + Preorder(nodes, rank, c)
    ensures PostorderList(nodes, rank, cs + [c], bound) == PostorderList(nodes, rank, cs, bound) + Postorder(nodes, rank, c)
    decreases |cs|
  {
    assert forall i :: 0 <= i < |cs| ==> cs[i] == (cs + [c])[i];
    assert (cs + [c])[|cs|] == c;
    if cs == [] {
      assert cs + [c] == [c];
      assert [c][1..] == [];
    } else {
      assert (cs + [c])[1..] == cs[1..] + [c];
      OrderListSnoc(nodes, rank, cs[1..], c, bound);
    }
  }

  // ---------------------------------------------------------------------
  // Frames: subtrees depend only on the children lists inside them
  // ---------------------------------------------------------------------

  /** The nodes listed in `s` have the same children in both arenas. */
  ghost predicate SameShape(n1: seq<Node>, n2: seq<Node>, s: seq<NodeId>) {
    |n1| == |n2| && forall m :: m in s ==> m < |n1| && n2[m].children == n1[m].children
  }

  /** Orders depend only on the children lists inside the subtree, whatever the ranks. */
  lemma {:induction false} OrderFrame(n1: seq<Node>, n2: seq<Node>, r1: seq<nat>, r2: seq<nat>, n: NodeId)
    requires Ranked(n1, r1) && Ranked(n2, r2) && n < |n1|
    requires SameShape(n1, n2, Preorder(n1, r1, n))
    ensures Preorder(n2, r2, n) == Preorder(n1, r1, n)
    ensures Postorder(n2, r2, n) == Postorder(n1, r1, n)
    decreases r1[n], 1
  {
    SelfInSub(n1, r1, n);
    ChildrenBelow(n1, r1, n);
    ChildrenBelow(n2, r2, n);
    assert Preorder(n1, r1, n) == [n] + PreorderList(n1, r1, n1[n].children, r1[n]);
    OrderListFrame(n1, n2, r1, r2, n1[n].children, r1[n], r2[n]);
  }

  lemma {:induction false} OrderListFrame(n1: seq<Node>, n2: seq<Node>, r1: seq<nat>, r2: seq<nat>,
                                          cs: seq<NodeId>, b1: nat, b2: nat)
    requires Ranked(n1, r1) && Ranked(n2, r2) && Below(n1, r1, cs, b1) && Below(n2, r2, cs, b2)
    requires SameShape(n1, n2, PreorderList(n1, r1, cs, b1))
    ensures PreorderList(n2, r2, cs, b2) == PreorderList(n1, r1, cs, b1)
    ensures PostorderList(n2, r2, cs, b2) == PostorderList(n1, r1, cs, b1)
    decreases b1, 0, |cs|
  {
    if cs != [] {
      var whole := PreorderList(n1, r1, cs, b1);
      assert whole == Preorder(n1, r1, cs[0]) + PreorderList(n1, r1, cs[1..], b1);
      assert forall m :: m in Preorder(n1, r1, cs[0]) ==> m in whole;
      assert forall m :: m in PreorderList(n1, r1, cs[1..], b1) ==> m in whole;
      OrderFrame(n1, n2, r1, r2, cs[0]);
      OrderListFrame(n1, n2, r1, r2, cs[1..], b1, b2);
    }
  }

  /** Orders of one arena do not depend on the bound used to justify them. */
  lemma OrderListAnyBound(nodes: seq<Node>, rank: seq<nat>, cs: seq<NodeId>, b1: nat, b2: nat)
    requires Ranked(nodes, rank) && Below(nodes, rank, cs, b1) && Below(nodes, rank, cs, b2)
    ensures PreorderList(nodes, rank, cs, b1) == PreorderList(nodes, rank, cs, b2)
    ensures PostorderList(nodes, rank, cs, b1) == PostorderList(nodes, rank, cs, b2)
  {
    PreorderListBounds(nodes, rank, cs, b1);
    OrderListFrame(nodes, nodes, rank, rank, cs, b1, b2);
  }

  // ---------------------------------------------------------------------
  // Detaching and freeing a subtree
  // ---------------------------------------------------------------------

  /** `s` without its first occurrence of `x` (vector::erase of the first match). */
  function RemoveFirst(s: seq<NodeId>, x: NodeId): (r: seq<NodeId>)
    ensures x !in s ==> r == s
    ensures x in s ==> |r| == |s| - 1
    ensures forall y :: y in r ==> y in s
  {
    if s == [] then []
    else if s[0] == x then s[1..]
    else [s[0]] + RemoveFirst(s[1..], x)
  }

  /** Only `x` can be lost. */
  lemma {:induction false} RemoveFirstKeeps(s: seq<NodeId>, x: NodeId, y: NodeId)
    requires y in s && y != x
    ensures y in RemoveFirst(s, x)
    decreases |s|
  {
    if s[0] != y {
      RemoveFirstKeeps(s[1..], x, y);
    }
  }

  /** Erasing at the first index that holds `x` is RemoveFirst. */
  lemma {:induction false} RemoveFirstAt(s: seq<NodeId>, x: NodeId, k: nat)
    requires k < |s| && s[k] == x && forall j :: 0 <= j < k ==> s[j] != x
    ensures RemoveFirst(s, x) == s[..k] + s[k + 1..]
    decreases k
  {
    if k > 0 {
      RemoveFirstAt(s[1..], x, k - 1);
      assert s[..k] == [s[0]] + s[1..][..k - 1];
      assert s[k + 1..] == s[1..][k..];
    }
  }

  /** Removing from a duplicate-free list drops exactly `x` and keeps the others in order. */
  lemma {:induction false} RemoveFirstDistinct(s: seq<NodeId>, x: NodeId)
    requires forall i, j :: 0 <= i < j < |s| ==> s[i] != s[j]
    ensures forall i, j :: 0 <= i < j < |RemoveFirst(s, x)| ==> RemoveFirst(s, x)[i] != RemoveFirst(s, x)[j]
    ensures forall y :: y in RemoveFirst(s, x) <==> y in s && y != x
    decreases |s|
  {
    if s != [] && s[0] != x {
      RemoveFirstDistinct(s[1..], x);
      var r := RemoveFirst(s, x);
      assert r == [s[0]] + RemoveFirst(s[1..], x);
      assert s[0] !in s[1..];
    } else if s != [] {
      assert s[0] !in s[1..];
    }
  }

  /** The arena with every node of `s` freed. */
  ghost function Killed(nodes: seq<Node>, s: seq<NodeId>): (r: seq<Node>)
    ensures |r| == |nodes|
    ensures forall m :: 0 <= m < |nodes| ==> r[m] == if m in s then nodes[m].(live := false) else nodes[m]
  {
    seq(|nodes|, m requires 0 <= m < |nodes| => if m in s then nodes[m].(live := false) else nodes[m])
  }

  /**
   * What drop_node leaves: the node is erased from its parent's children
   * (first occurrence) and its whole subtree is freed.
   */
  ghost function Detached(nodes: seq<Node>, rank: seq<nat>, n: NodeId): seq<Node>
    requires Ranked(nodes, rank) && n < |nodes|
    requires nodes[n].parent.Some? && nodes[n].parent.value < |nodes|
  {
    var p := nodes[n].parent.value;
    Killed(nodes[p := nodes[p].(children := RemoveFirst(nodes[p].children, n))], Preorder(nodes, rank, n))
  }

  /** Freeing nodes keeps every children list, so the shape invariant and the orders stay. */
  lemma KilledShape(nodes: seq<Node>, rank: seq<nat>, s: seq<NodeId>, n: NodeId)
    requires Ranked(nodes, rank) && n < |nodes|
    ensures Ranked(Killed(nodes, s), rank)
    ensures Preorder(Killed(nodes, s), rank, n) == Preorder(nodes, rank, n)
    ensures Postorder(Killed(nodes, s), rank, n) == Postorder(nodes, rank, n)
  {
    var k := Killed(nodes, s);
    assert forall m :: 0 <= m < |k| ==> k[m].children == nodes[m].children;
    assert Ranked(k, rank);
    PreorderBounds(nodes, rank, n);
    OrderFrame(nodes, k, rank, rank, n);
  }

  /** Detaching a live node with a parent keeps the arena valid. */
  lemma DetachedValid(nodes: seq<Node>, rank: seq<nat>, n: NodeId)
    requires Valid(nodes, rank) && n < |nodes| && nodes[n].live && nodes[n].parent.Some?
    ensures Valid(Detached(nodes, rank, n), rank)
  {
    DetachedRanked(nodes, rank, n);
    DetachedChildLinks(nodes, rank, n);
    DetachedParentLinks(nodes, rank, n);
  }

  /** The children of the detached node's parent and of every other node after drop_node. */
  lemma DetachedChildren(nodes: seq<Node>, rank: seq<nat>, n: NodeId)
    requires Valid(nodes, rank) && n < |nodes| && nodes[n].live && nodes[n].parent.Some?
    ensures var r := Detached(nodes, rank, n);
      var p := nodes[n].parent.value;
      && |r| == |nodes|
      && r[p].children == RemoveFirst(nodes[p].children, n)
      && (forall m :: 0 <= m < |r| && m != p ==> r[m].children == nodes[m].children)
      && (forall m :: 0 <= m < |r| ==> r[m].parent == nodes[m].parent)
      && (forall m :: 0 <= m < |r| ==> (r[m].live <==> nodes[m].live && m !in Preorder(nodes, rank, n)))
  {
  }

  lemma DetachedRanked(nodes: seq<Node>, rank: seq<nat>, n: NodeId)
    requires Valid(nodes, rank) && n < |nodes| && nodes[n].live && nodes[n].parent.Some?
    ensures Ranked(Detached(nodes, rank, n), rank)
  {
    var p := nodes[n].parent.value;
    var r := Detached(nodes, rank, n);
    DetachedChildren(nodes, rank, n);
    forall x, i | 0 <= x < |r| && 0 <= i < |r[x].children|
      ensures r[x].children[i] < |r| && rank[r[x].children[i]] < rank[x]
    {
      if x == p {
        assert r[x].children[i] in nodes[p].children;
      }
    }
  }

  /** Children of surviving live nodes survive, point back, and stay distinct. */
  lemma DetachedChildLinks(nodes: seq<Node>, rank: seq<nat>, n: NodeId)
    requires Valid(nodes, rank) && n < |nodes| && nodes[n].live && nodes[n].parent.Some?
    ensures var r := Detached(nodes, rank, n);
      && (forall x, i :: 0 <= x < |r| && r[x].live && 0 <= i < |r[x].children| ==>
        r[x].children[i] < |r| && r[r[x].children[i]].live && r[r[x].children[i]].parent == Some(x))
      && (forall x, i, j :: 0 <= x < |r| && r[x].live && 0 <= i < j < |r[x].children| ==>
        r[x].children[i] != r[x].children[j])
  {
    var p := nodes[n].parent.value;
    var s := Preorder(nodes, rank, n);
    var r := Detached(nodes, rank, n);
    DetachedChildren(nodes, rank, n);
    ParentOutside(nodes, rank, n);
    PreorderBounds(nodes, rank, n);
    RemoveFirstDistinct(nodes[p].children, n);
    forall x, i | 0 <= x < |r| && r[x].live && 0 <= i < |r[x].children|
      ensures r[x].children[i] < |r| && r[r[x].children[i]].live && r[r[x].children[i]].parent == Some(x)
    {
      var c := r[x].children[i];
      assert x !in s;
      assert c in nodes[x].children;
      assert nodes[c].live && nodes[c].parent == Some(x);
      if c in s {
        if c == n {
          assert false;
        } else {
          SubParent(nodes, rank, n, c);
          assert false;
        }
      }
    }
  }

  /** A surviving live node still has its parent alive and listing it. */
  lemma DetachedParentLinks(nodes: seq<Node>, rank: seq<nat>, n: NodeId)
    requires Valid(nodes, rank) && n < |nodes| && nodes[n].live && nodes[n].parent.Some?
    ensures var r := Detached(nodes, rank, n);
      forall m :: 0 <= m < |r| && r[m].live && r[m].parent.Some? ==>
        r[m].parent.value < |r| && r[r[m].parent.value].live && m in r[r[m].parent.value].children
  {
    var s := Preorder(nodes, rank, n);
    var r := Detached(nodes, rank, n);
    DetachedChildren(nodes, rank, n);
    forall m | 0 <= m < |r| && r[m].live && r[m].parent.Some?
      ensures r[m].parent.value < |r| && r[r[m].parent.value].live && m in r[r[m].parent.value].children
    {
      var q := nodes[m].parent.value;
      assert m !in s;
      var i :| 0 <= i < |nodes[q].children| && nodes[q].children[i] == m;
      if q in s {
        SubChild(nodes, rank, n, q, i);
        assert false;
      }
      assert m != n by {
        SelfInSub(nodes, rank, n);
      }
      if q == nodes[n].parent.value {
        RemoveFirstKeeps(nodes[q].children, n, m);
      }
    }
  }
}
