/**
 * preorder_traverse and postorder_traverse with the default DomTreeVisitor
 * (dom_tree.h, dom_tree.cpp). Its three callbacks accept every node, so a
 * walk calls them on every node of the subtree in a fixed order, never holds
 * the child index, and leaves the tree as it was. A walk is recorded as the
 * sequence of callbacks it makes.
 */
module DefaultTraversal {
  import Utils
  import opened DomModel
  import opened DomTree

  /** One callback of the visitor, on one node. */
  datatype Event = Preprocessed(id: NodeId) | Visited(id: NodeId) | Postprocessed(id: NodeId)

  /** The callbacks of preorder_traverse: preprocess and visit, each child's walk in order, then postprocess. */
  ghost function PreorderEvents(nodes: seq<Node>, rank: seq<nat>, n: NodeId): seq<Event>
    requires Ranked(nodes, rank) && n < |nodes|
    decreases rank[n], 1
  {
    ChildrenBelow(nodes, rank, n);
    [Preprocessed(n), Visited(n)] + PreorderEventsList(nodes, rank, nodes[n].children, rank[n]) + [Postprocessed(n)]
  }

  ghost function PreorderEventsList(nodes: seq<Node>, rank: seq<nat>, cs: seq<NodeId>, bound: nat): seq<Event>
    requires Ranked(nodes, rank) && Below(nodes, rank, cs, bound)
    decreases bound, 0, |cs|
  {
    if cs == [] then []
    else PreorderEvents(nodes, rank, cs[0]) + PreorderEventsList(nodes, rank, cs[1..], bound)
  }

  /** The callbacks of postorder_traverse: preprocess, each child's walk in order, then visit and postprocess. */
  ghost function PostorderEvents(nodes: seq<Node>, rank: seq<nat>, n: NodeId): seq<Event>
    requires Ranked(nodes, rank) && n < |nodes|
    decreases rank[n], 1
  {
    ChildrenBelow(nodes, rank, n);
    [Preprocessed(n)] + PostorderEventsList(nodes, rank, nodes[n].children, rank[n]) + [Visited(n), Postprocessed(n)]
  }

  ghost function PostorderEventsList(nodes: seq<Node>, rank: seq<nat>, cs: seq<NodeId>, bound: nat): seq<Event>
    requires Ranked(nodes, rank) && Below(nodes, rank, cs, bound)
    decreases bound, 0, |cs|
  {
    if cs == [] then []
    else PostorderEvents(nodes, rank, cs[0]) + PostorderEventsList(nodes, rank, cs[1..], bound)
  }

  /** The nodes handed to `visit`, in call order. */
  function Visits(es: seq<Event>): seq<NodeId> {
    if es == [] then [] else (if es[0].Visited? then [es[0].id] else []) + Visits(es[1..])
  }

  /** The nodes handed to `preprocess`, in call order. */
  function Preprocesses(es: seq<Event>): seq<NodeId> {
    if es == [] then [] else (if es[0].Preprocessed? then [es[0].id] else []) + Preprocesses(es[1..])
  }

  lemma ProjectionsAppend(a: seq<Event>, b: seq<Event>)
    ensures Visits(a + b) == Visits(a) + Visits(b)
    ensures Preprocesses(a + b) == Preprocesses(a) + Preprocesses(b)
  {
    VisitsAppend(a, b);
    PreprocessesAppend(a, b);
  }

  lemma {:induction false} VisitsAppend(a: seq<Event>, b: seq<Event>)
    ensures Visits(a + b) == Visits(a) + Visits(b)
    decreases |a|
  {
    if a == [] {
      assert a + b == b;
    } else {
      var h := if a[0].Visited? then [a[0].id] else [];
      assert (a + b)[0] == a[0];
      assert (a + b)[1..] == a[1..] + b;
      VisitsAppend(a[1..], b);
      assert Visits(a + b) == h + (Visits(a[1..]) + Visits(b));
      Utils.Assoc(h, Visits(a[1..]), Visits(b));
    }
  }

  lemma {:induction false} PreprocessesAppend(a: seq<Event>, b: seq<Event>)
    ensures Preprocesses(a + b) == Preprocesses(a) + Preprocesses(b)
    decreases |a|
  {
    if a == [] {
      assert a + b == b;
    } else {
      var h := if a[0].Preprocessed? then [a[0].id] else [];
      assert (a + b)[0] == a[0];
      assert (a + b)[1..] == a[1..] + b;
      PreprocessesAppend(a[1..], b);
      assert Preprocesses(a + b) == h + (Preprocesses(a[1..]) + Preprocesses(b));
      Utils.Assoc(h, Preprocesses(a[1..]), Preprocesses(b));
    }
  }

  /**
   * The pre-order walk visits, and preprocesses, exactly the nodes of the
   * subtree, each once, in pre-order.
   */
  lemma {:induction false} PreorderVisitsAll(nodes: seq<Node>, rank: seq<nat>, n: NodeId)
    requires Ranked(nodes, rank) && n < |nodes|
    ensures Visits(PreorderEvents(nodes, rank, n)) == Preorder(nodes, rank, n)
    ensures Preprocesses(PreorderEvents(nodes, rank, n)) == Preorder(nodes, rank, n)
    decreases rank[n], 1
  {
    ChildrenBelow(nodes, rank, n);
    var cs := nodes[n].children;
    var mid := PreorderEventsList(nodes, rank, cs, rank[n]);
    PreorderListVisitsAll(nodes, rank, cs, rank[n]);
    ProjectionsAppend([Preprocessed(n), Visited(n)], mid);
    ProjectionsAppend([Preprocessed(n), Visited(n)] + mid, [Postprocessed(n)]);
    assert Visits([Preprocessed(n), Visited(n)]) == [n];
    assert Preprocesses([Preprocessed(n), Visited(n)]) == [n];
  }

  lemma {:induction false} PreorderListVisitsAll(nodes: seq<Node>, rank: seq<nat>, cs: seq<NodeId>, bound: nat)
    requires Ranked(nodes, rank) && Below(nodes, rank, cs, bound)
    ensures Visits(PreorderEventsList(nodes, rank, cs, bound)) == PreorderList(nodes, rank, cs, bound)
    ensures Preprocesses(PreorderEventsList(nodes, rank, cs, bound)) == PreorderList(nodes, rank, cs, bound)
    decreases bound, 0, |cs|
  {
    if cs != [] {
      PreorderVisitsAll(nodes, rank, cs[0]);
      PreorderListVisitsAll(nodes, rank, cs[1..], bound);
      ProjectionsAppend(PreorderEvents(nodes, rank, cs[0]), PreorderEventsList(nodes, rank, cs[1..], bound));
    }
  }

  /**
   * The post-order walk visits exactly the nodes of the subtree in
   * post-order, though it preprocesses them in pre-order.
   */
  lemma {:induction false} PostorderVisitsAll(nodes: seq<Node>, rank: seq<nat>, n: NodeId)
    requires Ranked(nodes, rank) && n < |nodes|
    ensures Visits(PostorderEvents(nodes, rank, n)) == Postorder(nodes, rank, n)
    ensures Preprocesses(PostorderEvents(nodes, rank, n)) == Preorder(nodes, rank, n)
    decreases rank[n], 1
  {
    ChildrenBelow(nodes, rank, n);
    var cs := nodes[n].children;
    var mid := PostorderEventsList(nodes, rank, cs, rank[n]);
    PostorderListVisitsAll(nodes, rank, cs, rank[n]);
    ProjectionsAppend([Preprocessed(n)], mid);
    ProjectionsAppend([Preprocessed(n)] + mid, [Visited(n), Postprocessed(n)]);
    assert [Visited(n), Postprocessed(n)][1..] == [Postprocessed(n)];
    assert Visits([Postprocessed(n)]) == [] && Preprocesses([Postprocessed(n)]) == [];
    assert Visits([Visited(n), Postprocessed(n)]) == [n];
    assert Preprocesses([Visited(n), Postprocessed(n)]) == [];
  }

  lemma {:induction false} PostorderListVisitsAll(nodes: seq<Node>, rank: seq<nat>, cs: seq<NodeId>, bound: nat)
    requires Ranked(nodes, rank) && Below(nodes, rank, cs, bound)
    ensures Visits(PostorderEventsList(nodes, rank, cs, bound)) == PostorderList(nodes, rank, cs, bound)
    ensures Preprocesses(PostorderEventsList(nodes, rank, cs, bound)) == PreorderList(nodes, rank, cs, bound)
    decreases bound, 0, |cs|
  {
    if cs != [] {
      PostorderVisitsAll(nodes, rank, cs[0]);
      PostorderListVisitsAll(nodes, rank, cs[1..], bound);
      ProjectionsAppend(PostorderEvents(nodes, rank, cs[0]), PostorderEventsList(nodes, rank, cs[1..], bound));
    }
  }

  /** The walks of the first `i` children, whichever order. */
  lemma EventsListSnoc(nodes: seq<Node>, rank: seq<nat>, n: NodeId, i: nat)
    requires Ranked(nodes, rank) && n < |nodes| && i < |nodes[n].children|
    ensures var cs := nodes[n].children;
      && Below(nodes, rank, cs[..i], rank[n]) && Below(nodes, rank, cs[..i + 1], rank[n]) && cs[i] < |nodes|
      && PreorderEventsList(nodes, rank, cs[..i + 1], rank[n]) ==
         PreorderEventsList(nodes, rank, cs[..i], rank[n]) + PreorderEvents(nodes, rank, cs[i])
      && PostorderEventsList(nodes, rank, cs[..i + 1], rank[n]) ==
         PostorderEventsList(nodes, rank, cs[..i], rank[n]) + PostorderEvents(nodes, rank, cs[i])
  {
    var cs := nodes[n].children;
    ChildrenBelow(nodes, rank, n);
    ListSnoc(nodes, rank, cs[..i], cs[i], rank[n]);
    assert cs[..i + 1] == cs[..i] + [cs[i]];
  }

  lemma {:induction false} ListSnoc(nodes: seq<Node>, rank: seq<nat>, cs: seq<NodeId>, c: NodeId, bound: nat)
    requires Ranked(nodes, rank) && Below(nodes, rank, cs + [c], bound)
    ensures Below(nodes, rank, cs, bound) && c < |nodes|
    ensures PreorderEventsList(nodes, rank, cs + [c], bound) ==
      PreorderEventsList(nodes, rank, cs, bound) + PreorderEvents(nodes, rank, c)
    ensures PostorderEventsList(nodes, rank, cs + [c], bound) ==
      PostorderEventsList(nodes, rank, cs, bound) + PostorderEvents(nodes, rank, c)
    decreases |cs|
  {
    assert (cs + [c])[|cs|] == c;
    if cs == [] {
      assert [c][1..] == [];
    } else {
      assert (cs + [c])[0] == cs[0];
      assert (cs + [c])[1..] == cs[1..] + [c];
      ListSnoc(nodes, rank, cs[1..], c, bound);
      Utils.Assoc(PreorderEvents(nodes, rank, cs[0]), PreorderEventsList(nodes, rank, cs[1..], bound), PreorderEvents(nodes, rank, c));
      Utils.Assoc(PostorderEvents(nodes, rank, cs[0]), PostorderEventsList(nodes, rank, cs[1..], bound), PostorderEvents(nodes, rank, c));
    }
  }

  /** The default visitor: every callback accepts the node. */
  class DefaultVisitor {
    constructor () {}

    method Preprocess(node: Node) returns (ok: bool)
      ensures ok
    {
      ok := true;
    }

    method Visit(node: Node) returns (ok: bool)
      ensures ok
    {
      ok := true;
    }

    method Postprocess(node: Node) returns (ok: bool)
      ensures ok
    {
      ok := true;
    }
  }

  /**
   * preorder_traverse with the default visitor: reports success, makes the
   * callbacks of PreorderEvents, and changes nothing. No child reports a
   * drop, so the child index is never held.
   */
  method PreorderTraverse(dom: Dom, v: DefaultVisitor, n: NodeId) returns (ok: bool, events: seq<Event>)
    requires Ranked(dom.nodes, dom.rank) && n < |dom.nodes|
    ensures ok && events == PreorderEvents(dom.nodes, dom.rank, n)
    decreases dom.rank[n]
  {
    var pre := v.Preprocess(dom.nodes[n]);
    var seen := v.Visit(dom.nodes[n]);
    events := [Preprocessed(n), Visited(n)];
    ghost var cs := dom.nodes[n].children;
    ChildrenBelow(dom.nodes, dom.rank, n);
    assert cs[..0] == [];
    var i := 0;
    while i < |dom.nodes[n].children|
      invariant 0 <= i <= |cs|
      invariant events == [Preprocessed(n), Visited(n)] + PreorderEventsList(dom.nodes, dom.rank, cs[..i], dom.rank[n])
    {
      EventsListSnoc(dom.nodes, dom.rank, n, i);
      var kept, sub := PreorderTraverse(dom, v, dom.nodes[n].children[i]);
      Utils.Assoc([Preprocessed(n), Visited(n)], PreorderEventsList(dom.nodes, dom.rank, cs[..i], dom.rank[n]), sub);
      events := events + sub;
      i := i + 1;
    }
    assert cs[..i] == cs;
    var post := v.Postprocess(dom.nodes[n]);
    events := events + [Postprocessed(n)];
    ok := true;
  }

  /**
   * postorder_traverse with the default visitor: reports success, makes the
   * callbacks of PostorderEvents, and changes nothing.
   */
  method PostorderTraverse(dom: Dom, v: DefaultVisitor, n: NodeId) returns (ok: bool, events: seq<Event>)
    requires Ranked(dom.nodes, dom.rank) && n < |dom.nodes|
    ensures ok && events == PostorderEvents(dom.nodes, dom.rank, n)
    decreases dom.rank[n]
  {
    var pre := v.Preprocess(dom.nodes[n]);
    events := [Preprocessed(n)];
    ghost var cs := dom.nodes[n].children;
    ChildrenBelow(dom.nodes, dom.rank, n);
    assert cs[..0] == [];
    var i := 0;
    while i < |dom.nodes[n].children|
      invariant 0 <= i <= |cs|
      invariant events == [Preprocessed(n)] + PostorderEventsList(dom.nodes, dom.rank, cs[..i], dom.rank[n])
    {
      EventsListSnoc(dom.nodes, dom.rank, n, i);
      var kept, sub := PostorderTraverse(dom, v, dom.nodes[n].children[i]);
      Utils.Assoc([Preprocessed(n)], PostorderEventsList(dom.nodes, dom.rank, cs[..i], dom.rank[n]), sub);
      events := events + sub;
      i := i + 1;
    }
    assert cs[..i] == cs;
    var seen := v.Visit(dom.nodes[n]);
    var post := v.Postprocess(dom.nodes[n]);
    events := events + [Visited(n), Postprocessed(n)];
    ok := true;
  }
}
