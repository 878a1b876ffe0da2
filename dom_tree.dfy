/**
 * The mutable DOM tree (dom_tree.h, dom_tree.cpp): an arena of nodes that
 * the operations of `DomNode` update in place. Node ids stand for the
 * `DomNode*` pointers of the source.
 */
module DomTree {
  import opened Wrappers
  import opened Utils
  import opened DomModel

  /** The two find_tags overloads: one tag name, or a list of names matched exactly. */
  datatype TagQuery = Named(name: string) | AnyOf(names: seq<string>)

  predicate TagMatches(tag: string, q: TagQuery) {
    match q
    case Named(name) => tag == name
    case AnyOf(names) => tag in names
  }

  /** Every id of `ms` is an arena index. */
  ghost predicate InArena(nodes: seq<Node>, ms: seq<NodeId>) {
    forall i :: 0 <= i < |ms| ==> ms[i] < |nodes|
  }

  lemma MembersInArena(nodes: seq<Node>, ms: seq<NodeId>)
    requires forall m :: m in ms ==> m < |nodes|
    ensures InArena(nodes, ms)
  {
    forall i | 0 <= i < |ms|
      ensures ms[i] < |nodes|
    {
      assert ms[i] in ms;
    }
  }

  /** A subtree lies in the arena. */
  lemma PreorderInArena(nodes: seq<Node>, rank: seq<nat>, n: NodeId)
    requires Ranked(nodes, rank) && n < |nodes|
    ensures InArena(nodes, Preorder(nodes, rank, n))
  {
    PreorderBounds(nodes, rank, n);
    MembersInArena(nodes, Preorder(nodes, rank, n));
  }

  /** The ids of `ms`, in order, whose node's tag matches `q`. */
  ghost function Hits(nodes: seq<Node>, ms: seq<NodeId>, q: TagQuery): seq<NodeId> {
    if ms == [] then []
    else (if ms[0] < |nodes| && TagMatches(nodes[ms[0]].tag, q) then [ms[0]] else []) + Hits(nodes, ms[1..], q)
  }

  lemma {:induction false} HitsAppend(nodes: seq<Node>, a: seq<NodeId>, b: seq<NodeId>, q: TagQuery)
    ensures Hits(nodes, a + b, q) == Hits(nodes, a, q) + Hits(nodes, b, q)
    decreases |a|
  {
    if a == [] {
      assert a + b == b;
    } else {
      var t := a[1..];
      assert (a + b)[0] == a[0];
      assert (a + b)[1..] == t + b;
      HitsAppend(nodes, t, b, q);
      var h := if a[0] < |nodes| && TagMatches(nodes[a[0]].tag, q) then [a[0]] else [];
      assert Hits(nodes, a + b, q) == h + Hits(nodes, t + b, q);
      assert Hits(nodes, a, q) == h + Hits(nodes, t, q);
      assert h + (Hits(nodes, t, q) + Hits(nodes, b, q)) == (h + Hits(nodes, t, q)) + Hits(nodes, b, q);
    }
  }

  /** Exactly the matching members of `ms` are hits. */
  lemma {:induction false} HitsMembers(nodes: seq<Node>, ms: seq<NodeId>, q: TagQuery)
    requires InArena(nodes, ms)
    ensures forall m :: m in Hits(nodes, ms, q) <==> m in ms && TagMatches(nodes[m].tag, q)
    decreases |ms|
  {
    if ms != [] {
      HitsMembers(nodes, ms[1..], q);
    }
  }

  /** match_list(tag, names, 1) != -1: the tag is one of the names. */
  method IsListed(tag: string, names: seq<string>) returns (listed: bool)
    ensures listed <==> tag in names
  {
    var pos := MatchList(tag, names, 1);
    ExactMatchFound(tag, names);
    listed := pos != -1;
  }

  /** The pre-order of a node cut after its first `i` children. */
  ghost function PreorderPrefix(nodes: seq<Node>, rank: seq<nat>, n: NodeId, i: nat): seq<NodeId>
    requires Ranked(nodes, rank) && n < |nodes| && i <= |nodes[n].children|
  {
    ChildrenBelow(nodes, rank, n);
    [n] + PreorderList(nodes, rank, nodes[n].children[..i], rank[n])
  }

  /** One more child adds its subtree; all children give the whole subtree. */
  lemma PreorderPrefixStep(nodes: seq<Node>, rank: seq<nat>, n: NodeId, i: nat)
    requires Ranked(nodes, rank) && n < |nodes| && i <= |nodes[n].children|
    ensures i < |nodes[n].children| ==>
      nodes[n].children[i] < |nodes| &&
      PreorderPrefix(nodes, rank, n, i + 1) == PreorderPrefix(nodes, rank, n, i) + Preorder(nodes, rank, nodes[n].children[i])
    ensures i == |nodes[n].children| ==> PreorderPrefix(nodes, rank, n, i) == Preorder(nodes, rank, n)
  {
    var cs := nodes[n].children;
    ChildrenBelow(nodes, rank, n);
    if i < |cs| {
      assert cs[..i + 1] == cs[..i] + [cs[i]];
      OrderListSnoc(nodes, rank, cs[..i], cs[i], rank[n]);
    } else {
      assert cs[..i] == cs;
    }
  }

  /** Freeing `a` and then `b` frees both. */
  lemma KilledTwice(nodes: seq<Node>, a: seq<NodeId>, b: seq<NodeId>)
    ensures Killed(Killed(nodes, a), b) == Killed(nodes, a + b)
  {
  }

  /** Freeing one more node on top of `s`. */
  lemma KilledOne(nodes: seq<Node>, s: seq<NodeId>, n: NodeId)
    requires n < |nodes|
    ensures Killed(nodes, s)[n := Killed(nodes, s)[n].(live := false)] == Killed(nodes, [n] + s)
  {
  }

  /** Freeing child `i`'s subtree after the first `i` children's subtrees frees the first `i + 1`. */
  lemma DisposeStep(nodes: seq<Node>, rank: seq<nat>, n: NodeId, i: nat)
    requires Ranked(nodes, rank) && n < |nodes| && i < |nodes[n].children|
    ensures var cs := nodes[n].children;
      var before := Killed(nodes, PreorderList(nodes, rank, cs[..i], rank[n]));
      && cs[i] < |nodes|
      && Ranked(before, rank)
      && Preorder(before, rank, cs[i]) == Preorder(nodes, rank, cs[i])
      && Killed(before, Preorder(nodes, rank, cs[i])) == Killed(nodes, PreorderList(nodes, rank, cs[..i + 1], rank[n]))
  {
    var cs := nodes[n].children;
    ChildrenBelow(nodes, rank, n);
    assert cs[..i + 1] == cs[..i] + [cs[i]];
    OrderListSnoc(nodes, rank, cs[..i], cs[i], rank[n]);
    var done := PreorderList(nodes, rank, cs[..i], rank[n]);
    KilledShape(nodes, rank, done, cs[i]);
    KilledTwice(nodes, done, Preorder(nodes, rank, cs[i]));
  }

  /** The rank update of append_child: the child's subtree keeps its ranks, everything else moves above it. */
  ghost function Lifted(rank: seq<nat>, sub: seq<NodeId>, c: NodeId): (r: seq<nat>)
    requires c < |rank|
    ensures |r| == |rank|
  {
    seq(|rank|, m requires 0 <= m < |rank| => if m in sub then rank[m] else rank[m] + rank[c] + 1)
  }

  /** The arena after append_child(p, c). */
  function Appended(nodes: seq<Node>, p: NodeId, c: NodeId): seq<Node>
    requires p < |nodes| && c < |nodes|
  {
    nodes[p := nodes[p].(children := nodes[p].children + [c])][c := nodes[c].(parent := Some(p))]
  }

  /** append_child(p, c) on a live parentless `c` outside nothing of p's ancestry keeps the arena valid and c's subtree. */
  lemma AppendedValid(nodes: seq<Node>, rank: seq<nat>, p: NodeId, c: NodeId)
    requires DomModel.Valid(nodes, rank) && p < |nodes| && c < |nodes|
    requires nodes[p].live && nodes[c].live && nodes[c].parent == None
    requires p !in Preorder(nodes, rank, c)
    ensures DomModel.Valid(Appended(nodes, p, c), Lifted(rank, Preorder(nodes, rank, c), c))
    ensures Preorder(Appended(nodes, p, c), Lifted(rank, Preorder(nodes, rank, c), c), c) == Preorder(nodes, rank, c)
  {
    AppendedRanked(nodes, rank, p, c);
    AppendedLinked(nodes, rank, p, c);
    var sub := Preorder(nodes, rank, c);
    PreorderBounds(nodes, rank, c);
    OrderFrame(nodes, Appended(nodes, p, c), rank, Lifted(rank, sub, c), c);
  }

  /** Edges inside c's subtree keep their ranks; every other edge, the new one included, comes from above. */
  lemma AppendedRanked(nodes: seq<Node>, rank: seq<nat>, p: NodeId, c: NodeId)
    requires DomModel.Valid(nodes, rank) && p < |nodes| && c < |nodes|
    requires p !in Preorder(nodes, rank, c)
    ensures Ranked(Appended(nodes, p, c), Lifted(rank, Preorder(nodes, rank, c), c))
  {
    var sub := Preorder(nodes, rank, c);
    var r := Lifted(rank, sub, c);
    var a := Appended(nodes, p, c);
    SelfInSub(nodes, rank, c);
    assert p != c;
    forall x, i | 0 <= x < |a| && 0 <= i < |a[x].children|
      ensures a[x].children[i] < |a| && r[a[x].children[i]] < r[x]
    {
      var y := a[x].children[i];
      if x == p && i == |nodes[p].children| {
        assert y == c;
      } else {
        assert y == nodes[x].children[i];
        if x in sub {
          SubChild(nodes, rank, c, x, i);
        }
      }
    }
  }

  /** c becomes a new, distinct child of p and points back to it; every other link is untouched. */
  lemma AppendedLinked(nodes: seq<Node>, rank: seq<nat>, p: NodeId, c: NodeId)
    requires DomModel.Valid(nodes, rank) && p < |nodes| && c < |nodes|
    requires nodes[p].live && nodes[c].live && nodes[c].parent == None
    requires p !in Preorder(nodes, rank, c)
    ensures Linked(Appended(nodes, p, c))
  {
    AppendedChildLinks(nodes, rank, p, c);
    AppendedDistinct(nodes, rank, p, c);
    AppendedParentLinks(nodes, rank, p, c);
  }

  lemma AppendedChildLinks(nodes: seq<Node>, rank: seq<nat>, p: NodeId, c: NodeId)
    requires DomModel.Valid(nodes, rank) && p < |nodes| && c < |nodes|
    requires nodes[p].live && nodes[c].live && nodes[c].parent == None
    requires p !in Preorder(nodes, rank, c)
    ensures var a := Appended(nodes, p, c);
      forall x, i :: 0 <= x < |a| && a[x].live && 0 <= i < |a[x].children| ==>
        a[x].children[i] < |a| && a[a[x].children[i]].live && a[a[x].children[i]].parent == Some(x)
  {
    var a := Appended(nodes, p, c);
    SelfInSub(nodes, rank, c);
    forall x, i | 0 <= x < |a| && a[x].live && 0 <= i < |a[x].children|
      ensures a[x].children[i] < |a| && a[a[x].children[i]].live && a[a[x].children[i]].parent == Some(x)
    {
      if !(x == p && i == |nodes[p].children|) {
        assert a[x].children[i] == nodes[x].children[i];
        assert nodes[x].children[i] != c;
      }
    }
  }

  lemma AppendedDistinct(nodes: seq<Node>, rank: seq<nat>, p: NodeId, c: NodeId)
    requires DomModel.Valid(nodes, rank) && p < |nodes| && c < |nodes|
    requires nodes[p].live && nodes[c].live && nodes[c].parent == None
    requires p !in Preorder(nodes, rank, c)
    ensures var a := Appended(nodes, p, c);
      forall x, i, j :: 0 <= x < |a| && a[x].live && 0 <= i < j < |a[x].children| ==>
        a[x].children[i] != a[x].children[j]
  {
    var a := Appended(nodes, p, c);
    SelfInSub(nodes, rank, c);
    assert c !in nodes[p].children;
    forall x, i, j | 0 <= x < |a| && a[x].live && 0 <= i < j < |a[x].children|
      ensures a[x].children[i] != a[x].children[j]
    {
      if x == p && j == |nodes[p].children| {
        assert a[x].children[i] == nodes[p].children[i];
      }
    }
  }

  lemma AppendedParentLinks(nodes: seq<Node>, rank: seq<nat>, p: NodeId, c: NodeId)
    requires DomModel.Valid(nodes, rank) && p < |nodes| && c < |nodes|
    requires nodes[p].live && nodes[c].live && nodes[c].parent == None
    requires p !in Preorder(nodes, rank, c)
    ensures var a := Appended(nodes, p, c);
      forall m :: 0 <= m < |a| && a[m].live && a[m].parent.Some? ==>
        a[m].parent.value < |a| && a[a[m].parent.value].live && m in a[a[m].parent.value].children
  {
    var a := Appended(nodes, p, c);
    SelfInSub(nodes, rank, c);
    forall m | 0 <= m < |a| && a[m].live && a[m].parent.Some?
      ensures a[m].parent.value < |a| && a[a[m].parent.value].live && m in a[a[m].parent.value].children
    {
      if m != c {
        var q := nodes[m].parent.value;
        assert m in nodes[q].children;
      }
    }
  }

  /**
   * Erasing `n` at the first index `k` that holds it in its parent's
   * children keeps the ranks and the subtree of `n`; freeing that subtree
   * then gives Detached.
   */
  lemma Unlinked(nodes: seq<Node>, rank: seq<nat>, n: NodeId, k: nat)
    requires DomModel.Valid(nodes, rank) && n < |nodes| && nodes[n].live && nodes[n].parent.Some?
    requires nodes[n].parent.value < |nodes|
    requires k <= |nodes[nodes[n].parent.value].children|
    requires forall j :: 0 <= j < k ==> nodes[nodes[n].parent.value].children[j] != n
    requires k == |nodes[nodes[n].parent.value].children| || nodes[nodes[n].parent.value].children[k] == n
    ensures k < |nodes[nodes[n].parent.value].children|
    ensures var p := nodes[n].parent.value;
      var cs := nodes[p].children;
      var mid := nodes[p := nodes[p].(children := cs[..k] + cs[k + 1..])];
      Ranked(mid, rank) && Preorder(mid, rank, n) == Preorder(nodes, rank, n) &&
      Killed(mid, Preorder(mid, rank, n)) == Detached(nodes, rank, n)
  {
    var p := nodes[n].parent.value;
    var cs := nodes[p].children;
    ParentOutside(nodes, rank, n);
    RemoveFirstAt(cs, n, k);
    var mid := nodes[p := nodes[p].(children := cs[..k] + cs[k + 1..])];
    assert forall y :: y in cs[..k] + cs[k + 1..] ==> y in cs;
    assert Ranked(mid, rank) by {
      forall x, i | 0 <= x < |mid| && 0 <= i < |mid[x].children|
        ensures mid[x].children[i] < |mid| && rank[mid[x].children[i]] < rank[x]
      {
        if x == p {
          assert mid[x].children[i] in cs;
        }
      }
    }
    PreorderBounds(nodes, rank, n);
    OrderFrame(nodes, mid, rank, rank, n);
  }

  /** Replacing a node by one with the same links keeps the arena valid. */
  lemma Relabeled(nodes: seq<Node>, rank: seq<nat>, n: NodeId, x: Node)
    requires DomModel.Valid(nodes, rank) && n < |nodes|
    requires x.children == nodes[n].children && x.parent == nodes[n].parent && x.live == nodes[n].live
    ensures DomModel.Valid(nodes[n := x], rank)
  {
    var a := nodes[n := x];
    assert forall m :: 0 <= m < |a| ==> a[m].children == nodes[m].children && a[m].parent == nodes[m].parent && a[m].live == nodes[m].live;
  }

  class Dom {
    var nodes: seq<Node>
    ghost var rank: seq<nat>

    ghost predicate Valid()
      reads this
    {
      DomModel.Valid(nodes, rank)
    }

    constructor ()
      ensures Valid() && nodes == []
    {
      nodes := [];
      rank := [];
    }

    /** new DomNode(tag, text): a live node without parent or children. */
    method NewNode(tag: string, text: string) returns (n: NodeId)
      requires Valid()
      modifies this
      ensures Valid()
      ensures n == |old(nodes)| && nodes == old(nodes) + [Fresh(tag, text)]
    {
      n := |nodes|;
      nodes := nodes + [Fresh(tag, text)];
      rank := rank + [0];
      assert forall m :: 0 <= m < n ==> nodes[m] == old(nodes)[m];
    }

    /**
     * append_child: `c` goes to the end of `p`'s children and its parent
     * becomes `p`; nothing else changes. The child must be detached and must
     * not be an ancestor of `p`, or the result would not be a tree.
     */
    method AppendChild(p: NodeId, c: NodeId)
      requires Valid() && p < |nodes| && c < |nodes|
      requires nodes[p].live && nodes[c].live && nodes[c].parent == None
      requires p !in Preorder(nodes, rank, c)
      modifies this
      ensures Valid()
      ensures nodes == Appended(old(nodes), p, c)
      ensures Preorder(nodes, rank, c) == old(Preorder(nodes, rank, c))
    {
      ghost var sub := Preorder(nodes, rank, c);
      AppendedValid(nodes, rank, p, c);
      SelfInSub(nodes, rank, c);
      nodes := Appended(nodes, p, c);
      rank := Lifted(rank, sub, c);
    }

    /** append_text: the text becomes the old text followed by `text`. */
    method AppendText(n: NodeId, text: string)
      requires Valid() && n < |nodes| && nodes[n].live
      modifies this
      ensures Valid() && rank == old(rank)
      ensures nodes == old(nodes)[n := WithText(old(nodes)[n], text)]
    {
      Relabeled(nodes, rank, n, WithText(nodes[n], text));
      nodes := nodes[n := WithText(nodes[n], text)];
    }

    /** add_attribute: `name` maps to `value`, replacing any earlier value. */
    method AddAttribute(n: NodeId, name: string, value: string)
      requires Valid() && n < |nodes| && nodes[n].live
      modifies this
      ensures Valid() && rank == old(rank)
      ensures nodes == old(nodes)[n := WithAttribute(old(nodes)[n], name, value)]
    {
      Relabeled(nodes, rank, n, WithAttribute(nodes[n], name, value));
      nodes := nodes[n := WithAttribute(nodes[n], name, value)];
    }

    /** set_extra: `key` maps to `value`, replacing any earlier value. */
    method SetExtra(n: NodeId, key: int, value: real)
      requires Valid() && n < |nodes| && nodes[n].live
      modifies this
      ensures Valid() && rank == old(rank)
      ensures nodes == old(nodes)[n := WithExtra(old(nodes)[n], key, value)]
    {
      Relabeled(nodes, rank, n, WithExtra(nodes[n], key, value));
      nodes := nodes[n := WithExtra(nodes[n], key, value)];
    }

    /** find_tags(tag_name, results): appends, in pre-order, the subtree's nodes whose tag equals `name`. */
    method FindTags(n: NodeId, name: string, results: seq<NodeId>) returns (out: seq<NodeId>)
      requires Ranked(nodes, rank) && n < |nodes|
      ensures out == results + Hits(nodes, Preorder(nodes, rank, n), Named(name))
      decreases rank[n]
    {
      out := results;
      if nodes[n].tag == name {
        out := out + [n];
      }
      var cs := nodes[n].children;
      ChildrenBelow(nodes, rank, n);
      var i := 0;
      while i < |cs|
        invariant 0 <= i <= |cs|
        invariant out == results + Hits(nodes, PreorderPrefix(nodes, rank, n, i), Named(name))
      {
        PreorderPrefixStep(nodes, rank, n, i);
        ghost var done := Hits(nodes, PreorderPrefix(nodes, rank, n, i), Named(name));
        ghost var more := Hits(nodes, Preorder(nodes, rank, cs[i]), Named(name));
        HitsAppend(nodes, PreorderPrefix(nodes, rank, n, i), Preorder(nodes, rank, cs[i]), Named(name));
        out := FindTags(cs[i], name, out);
        assert out == results + (done + more);
        i := i + 1;
      }
      PreorderPrefixStep(nodes, rank, n, i);
    }

    /** find_tags(tag_names, results): the same walk, keeping tags equal to some entry of `names`. */
    method FindTagsIn(n: NodeId, names: seq<string>, results: seq<NodeId>) returns (out: seq<NodeId>)
      requires Ranked(nodes, rank) && n < |nodes|
      ensures out == results + Hits(nodes, Preorder(nodes, rank, n), AnyOf(names))
      decreases rank[n]
    {
      out := results;
      var listed := IsListed(nodes[n].tag, names);
      if listed {
        out := out + [n];
      }
      var cs := nodes[n].children;
      ChildrenBelow(nodes, rank, n);
      var i := 0;
      while i < |cs|
        invariant 0 <= i <= |cs|
        invariant out == results + Hits(nodes, PreorderPrefix(nodes, rank, n, i), AnyOf(names))
      {
        PreorderPrefixStep(nodes, rank, n, i);
        ghost var done := Hits(nodes, PreorderPrefix(nodes, rank, n, i), AnyOf(names));
        ghost var more := Hits(nodes, Preorder(nodes, rank, cs[i]), AnyOf(names));
        HitsAppend(nodes, PreorderPrefix(nodes, rank, n, i), Preorder(nodes, rank, cs[i]), AnyOf(names));
        out := FindTagsIn(cs[i], names, out);
        assert out == results + (done + more);
        i := i + 1;
      }
      PreorderPrefixStep(nodes, rank, n, i);
    }

    /**
     * The destructor: frees the children's subtrees one after the other, then
     * the node itself. It needs only the rank invariant, since the links are
     * broken while it runs.
     */
    method Dispose(n: NodeId)
      requires Ranked(nodes, rank) && n < |nodes|
      modifies this
      ensures rank == old(rank)
      ensures nodes == Killed(old(nodes), Preorder(old(nodes), rank, n))
      decreases rank[n]
    {
      ghost var n0 := nodes;
      var cs := nodes[n].children;
      ChildrenBelow(nodes, rank, n);
      var i := 0;
      while i < |cs|
        invariant 0 <= i <= |cs| && rank == old(rank)
        invariant nodes == Killed(n0, PreorderList(n0, rank, cs[..i], rank[n]))
      {
        DisposeStep(n0, rank, n, i);
        Dispose(cs[i]);
        i := i + 1;
      }
      assert cs[..i] == cs;
      ghost var all := PreorderList(n0, rank, cs, rank[n]);
      KilledOne(n0, all, n);
      nodes := nodes[n := nodes[n].(live := false)];
      assert Preorder(n0, rank, n) == [n] + all;
    }

    /**
     * drop_node on a node with a parent: erases the first occurrence of the
     * node from its parent's children and frees its subtree. The source
     * dereferences the parent before testing it for NULL (dom_tree.cpp:61),
     * so a parent is required.
     */
    method DropNode(n: NodeId) returns (ok: bool)
      requires Valid() && n < |nodes| && nodes[n].live && nodes[n].parent.Some?
      modifies this
      ensures Valid() && rank == old(rank) && ok
      ensures nodes == Detached(old(nodes), rank, n)
    {
      ghost var n0 := nodes;
      ParentOutside(nodes, rank, n);
      var p := nodes[n].parent.value;
      var cs := nodes[p].children;
      var k := 0;
      while k < |cs| && cs[k] != n
        invariant 0 <= k <= |cs|
        invariant forall j :: 0 <= j < k ==> cs[j] != n
      {
        k := k + 1;
      }
      Unlinked(nodes, rank, n, k);
      nodes := nodes[p := nodes[p].(children := cs[..k] + cs[k + 1..])];
      Dispose(n);
      DetachedValid(n0, rank, n);
      ok := true;
    }
  }
}
