/**
 * What the two walks of the body extractor leave behind, as functions of the
 * tree they start from.
 *
 * Both walks visit a subtree, drop every node a test rejects (drop_node:
 * the node leaves its parent's children and its subtree is freed), and go
 * on with the remaining children without skipping one
 * (dom_tree.cpp:83-136, where the child index is stepped back after a drop):
 *  - the extraction walk (post-order, BodyExtractorVisitor) drops negative
 *    nodes before their children are visited, and writes the features of
 *    every surviving node after its children;
 *  - the sanitize walk (pre-order, SanitizeVisitor) drops the nodes the
 *    sanitize classifier accepts, and changes nothing else.
 * `Survivors` lists the nodes that stay, `Pruned` is the arena afterwards,
 * and `Partial` is the arena in the middle of a node's child loop.
 */
module Pruning {
  import opened Wrappers
  import opened DomModel
  import opened BodyFeatures
  import opened BooleanClassifier

  /** The test a walk drops nodes by, and what it writes into the survivors. */
  datatype Pass = Extraction(cfg: Config) | Sanitizing(atoms: seq<Atom>)

  predicate PassValid(pass: Pass) {
    pass.Extraction? ==> ConfigValid(pass.cfg)
  }

  /** Whether the walk drops this node when it reaches it. */
  predicate Drops(pass: Pass, node: Node) {
    match pass
    case Extraction(cfg) => IsNegative(cfg, node)
    case Sanitizing(atoms) => Run(atoms, node.extras) == Value(true)
  }

  /** The children among `cs` the walk keeps, in order. */
  function Kept(nodes: seq<Node>, pass: Pass, cs: seq<NodeId>): (r: seq<NodeId>)
    ensures |r| <= |cs|
    ensures forall y :: y in r ==> y in cs && y < |nodes| && !Drops(pass, nodes[y])
  {
    if cs == [] then []
    else (if cs[0] < |nodes| && !Drops(pass, nodes[cs[0]]) then [cs[0]] else []) + Kept(nodes, pass, cs[1..])
  }

  // ---------------------------------------------------------------------
  // The closed form
  // ---------------------------------------------------------------------

  /** The nodes of the subtree of `n` that the walk keeps, in pre-order. */
  ghost function Survivors(nodes: seq<Node>, rank: seq<nat>, pass: Pass, n: NodeId): seq<NodeId>
    requires Ranked(nodes, rank) && n < |nodes|
    decreases rank[n], 1
  {
    if Drops(pass, nodes[n]) then []
    else
      ChildrenBelow(nodes, rank, n);
      [n] + SurvivorsList(nodes, rank, pass, nodes[n].children, rank[n])
  }

  ghost function SurvivorsList(nodes: seq<Node>, rank: seq<nat>, pass: Pass, cs: seq<NodeId>, bound: nat): seq<NodeId>
    requires Ranked(nodes, rank) && Below(nodes, rank, cs, bound)
    decreases bound, 0, |cs|
  {
    if cs == [] then []
    else Survivors(nodes, rank, pass, cs[0]) + SurvivorsList(nodes, rank, pass, cs[1..], bound)
  }

  /** The features the extraction walk writes into `n`, computed bottom-up over the kept children. */
  ghost function Extracted(cfg: Config, nodes: seq<Node>, rank: seq<nat>, n: NodeId): (v: seq<real>)
    requires ConfigValid(cfg) && Ranked(nodes, rank) && n < |nodes|
    ensures |v| == FeatureCount
    decreases rank[n], 1
  {
    ChildrenBelow(nodes, rank, n);
    FeatureVector(cfg, nodes[n], |Kept(nodes, Extraction(cfg), nodes[n].children)|,
                  ExtractedSums(cfg, nodes, rank, nodes[n].children, rank[n]))
  }

  /** The sums of the aggregated features of the kept children among `cs`. */
  ghost function ExtractedSums(cfg: Config, nodes: seq<Node>, rank: seq<nat>, cs: seq<NodeId>, bound: nat): Aggregate
    requires ConfigValid(cfg) && Ranked(nodes, rank) && Below(nodes, rank, cs, bound)
    decreases bound, 0, |cs|
  {
    if cs == [] then NoChildren
    else Plus(if IsNegative(cfg, nodes[cs[0]]) then NoChildren else AggregateOf(Extracted(cfg, nodes, rank, cs[0])),
              ExtractedSums(cfg, nodes, rank, cs[1..], bound))
  }

  /** The candidates the extraction walk collects under `n`: valid survivors, in post-order. */
  ghost function Found(cfg: Config, nodes: seq<Node>, rank: seq<nat>, n: NodeId): seq<NodeId>
    requires ConfigValid(cfg) && Ranked(nodes, rank) && n < |nodes|
    decreases rank[n], 1
  {
    if IsNegative(cfg, nodes[n]) then []
    else
      ChildrenBelow(nodes, rank, n);
      FoundList(cfg, nodes, rank, nodes[n].children, rank[n]) +
      (if IsCandidateNode(cfg, nodes[n].tag, Extracted(cfg, nodes, rank, n)[TextLength]) then [n] else [])
  }

  ghost function FoundList(cfg: Config, nodes: seq<Node>, rank: seq<nat>, cs: seq<NodeId>, bound: nat): seq<NodeId>
    requires ConfigValid(cfg) && Ranked(nodes, rank) && Below(nodes, rank, cs, bound)
    decreases bound, 0, |cs|
  {
    if cs == [] then []
    else Found(cfg, nodes, rank, cs[0]) + FoundList(cfg, nodes, rank, cs[1..], bound)
  }

  /** A surviving node afterwards: its kept children and, after extraction, its features. */
  ghost function Transform(pass: Pass, nodes: seq<Node>, rank: seq<nat>, x: NodeId): Node
    requires PassValid(pass) && Ranked(nodes, rank) && x < |nodes|
  {
    match pass
    case Extraction(cfg) =>
      nodes[x].(children := Kept(nodes, pass, nodes[x].children),
                extras := nodes[x].extras + FeatureMap(Extracted(cfg, nodes, rank, x)))
    case Sanitizing(_) =>
      nodes[x].(children := Kept(nodes, pass, nodes[x].children))
  }

  /** The arena after walking the nodes `pre` of which `surv` survive: survivors transformed, the others freed. */
  ghost function Pruned(nodes: seq<Node>, rank: seq<nat>, pass: Pass, pre: seq<NodeId>, surv: seq<NodeId>): (r: seq<Node>)
    requires PassValid(pass) && Ranked(nodes, rank)
    ensures |r| == |nodes|
    ensures forall x :: 0 <= x < |nodes| ==>
      r[x] == if x in surv then Transform(pass, nodes, rank, x) else if x in pre then nodes[x].(live := false) else nodes[x]
  {
    seq(|nodes|, x requires 0 <= x < |nodes| && PassValid(pass) && Ranked(nodes, rank) =>
      if x in surv then Transform(pass, nodes, rank, x) else if x in pre then nodes[x].(live := false) else nodes[x])
  }

  /** The arena after walking the subtree of a node the walk keeps. */
  ghost function Walked(nodes: seq<Node>, rank: seq<nat>, pass: Pass, n: NodeId): seq<Node>
    requires PassValid(pass) && Ranked(nodes, rank) && n < |nodes|
  {
    Pruned(nodes, rank, pass, Preorder(nodes, rank, n), Survivors(nodes, rank, pass, n))
  }

  /** The arena once the first `j` children of `n` have been walked; the others are still listed after the kept ones. */
  ghost function Partial(nodes: seq<Node>, rank: seq<nat>, pass: Pass, n: NodeId, j: nat): (r: seq<Node>)
    requires PassValid(pass) && Ranked(nodes, rank) && n < |nodes| && j <= |nodes[n].children|
    ensures |r| == |nodes|
    ensures r[n] == nodes[n].(children := Kept(nodes, pass, nodes[n].children[..j]) + nodes[n].children[j..])
  {
    var cs := nodes[n].children;
    ChildrenBelow(nodes, rank, n);
    Pruned(nodes, rank, pass, PreorderList(nodes, rank, cs[..j], rank[n]), SurvivorsList(nodes, rank, pass, cs[..j], rank[n]))
      [n := nodes[n].(children := Kept(nodes, pass, cs[..j]) + cs[j..])]
  }

  // ---------------------------------------------------------------------
  // Lists
  // ---------------------------------------------------------------------

  lemma {:induction false} KeptSnoc(nodes: seq<Node>, pass: Pass, cs: seq<NodeId>, c: NodeId)
    ensures Kept(nodes, pass, cs + [c]) ==
      Kept(nodes, pass, cs) + (if c < |nodes| && !Drops(pass, nodes[c]) then [c] else [])
    decreases |cs|
  {
    var e := if c < |nodes| && !Drops(pass, nodes[c]) then [c] else [];
    if cs == [] {
      assert [c][1..] == [];
      assert Kept(nodes, pass, [c]) == e + Kept(nodes, pass, []);
    } else {
      var d := cs + [c];
      var h := if cs[0] < |nodes| && !Drops(pass, nodes[cs[0]]) then [cs[0]] else [];
      assert d[0] == cs[0] && d[1..] == cs[1..] + [c];
      KeptSnoc(nodes, pass, cs[1..], c);
      assert Kept(nodes, pass, d) == h + (Kept(nodes, pass, cs[1..]) + e);
      Utils.Assoc(h, Kept(nodes, pass, cs[1..]), e);
    }
  }

  lemma {:induction false} SurvivorsListSnoc(nodes: seq<Node>, rank: seq<nat>, pass: Pass, cs: seq<NodeId>, c: NodeId, bound: nat)
    requires Ranked(nodes, rank) && Below(nodes, rank, cs + [c], bound)
    ensures Below(nodes, rank, cs, bound) && c < |nodes|
    ensures SurvivorsList(nodes, rank, pass, cs + [c], bound) ==
      SurvivorsList(nodes, rank, pass, cs, bound) + Survivors(nodes, rank, pass, c)
    decreases |cs|
  {
    assert forall i :: 0 <= i < |cs| ==> cs[i] == (cs + [c])[i];
    assert (cs + [c])[|cs|] == c;
    if cs == [] {
      assert [c][1..] == [];
    } else {
      assert (cs + [c])[1..] == cs[1..] + [c];
      SurvivorsListSnoc(nodes, rank, pass, cs[1..], c, bound);
      Utils.Assoc(Survivors(nodes, rank, pass, cs[0]), SurvivorsList(nodes, rank, pass, cs[1..], bound),
                  Survivors(nodes, rank, pass, c));
    }
  }

  lemma {:induction false} FoundListSnoc(cfg: Config, nodes: seq<Node>, rank: seq<nat>, cs: seq<NodeId>, c: NodeId, bound: nat)
    requires ConfigValid(cfg) && Ranked(nodes, rank) && Below(nodes, rank, cs + [c], bound)
    ensures Below(nodes, rank, cs, bound) && c < |nodes|
    ensures FoundList(cfg, nodes, rank, cs + [c], bound) ==
      FoundList(cfg, nodes, rank, cs, bound) + Found(cfg, nodes, rank, c)
    decreases |cs|
  {
    assert forall i :: 0 <= i < |cs| ==> cs[i] == (cs + [c])[i];
    assert (cs + [c])[|cs|] == c;
    if cs == [] {
      assert [c][1..] == [];
    } else {
      assert (cs + [c])[1..] == cs[1..] + [c];
      FoundListSnoc(cfg, nodes, rank, cs[1..], c, bound);
      Utils.Assoc(Found(cfg, nodes, rank, cs[0]), FoundList(cfg, nodes, rank, cs[1..], bound),
                  Found(cfg, nodes, rank, c));
    }
  }

  /** Survivors lie in the subtree, and the kept node is the first of them. */
  lemma {:induction false} SurvivorsInside(nodes: seq<Node>, rank: seq<nat>, pass: Pass, n: NodeId)
    requires Ranked(nodes, rank) && n < |nodes|
    ensures forall x :: x in Survivors(nodes, rank, pass, n) ==> x in Preorder(nodes, rank, n)
    ensures !Drops(pass, nodes[n]) ==> n in Survivors(nodes, rank, pass, n)
    ensures Drops(pass, nodes[n]) ==> Survivors(nodes, rank, pass, n) == []
    decreases rank[n], 1
  {
    ChildrenBelow(nodes, rank, n);
    SurvivorsListInside(nodes, rank, pass, nodes[n].children, rank[n]);
  }

  lemma {:induction false} SurvivorsListInside(nodes: seq<Node>, rank: seq<nat>, pass: Pass, cs: seq<NodeId>, bound: nat)
    requires Ranked(nodes, rank) && Below(nodes, rank, cs, bound)
    ensures forall x :: x in SurvivorsList(nodes, rank, pass, cs, bound) ==> x in PreorderList(nodes, rank, cs, bound)
    decreases bound, 0, |cs|
  {
    if cs != [] {
      SurvivorsInside(nodes, rank, pass, cs[0]);
      SurvivorsListInside(nodes, rank, pass, cs[1..], bound);
    }
  }

  // ---------------------------------------------------------------------
  // Frames: a walk depends only on the nodes in its subtree
  // ---------------------------------------------------------------------

  /** The two arenas hold the same nodes at the ids of `s`. */
  ghost predicate Agree(n1: seq<Node>, n2: seq<Node>, s: seq<NodeId>) {
    |n1| == |n2| && forall x :: x in s ==> x < |n1| && n2[x] == n1[x]
  }

  lemma {:induction false} KeptFrame(n1: seq<Node>, n2: seq<Node>, pass: Pass, cs: seq<NodeId>)
    requires |n1| == |n2| && forall x :: x in cs && x < |n1| ==> n2[x] == n1[x]
    ensures Kept(n2, pass, cs) == Kept(n1, pass, cs)
    decreases |cs|
  {
    if cs != [] {
      assert forall x :: x in cs[1..] ==> x in cs;
      KeptFrame(n1, n2, pass, cs[1..]);
    }
  }

  lemma {:induction false} SurvivorsFrame(n1: seq<Node>, n2: seq<Node>, rank: seq<nat>, pass: Pass, n: NodeId)
    requires Ranked(n1, rank) && Ranked(n2, rank) && n < |n1|
    requires Agree(n1, n2, Preorder(n1, rank, n))
    ensures Survivors(n2, rank, pass, n) == Survivors(n1, rank, pass, n)
    decreases rank[n], 1
  {
    SelfInSub(n1, rank, n);
    ChildrenBelow(n1, rank, n);
    ChildrenBelow(n2, rank, n);
    assert forall x :: x in PreorderList(n1, rank, n1[n].children, rank[n]) ==> x in Preorder(n1, rank, n);
    SurvivorsListFrame(n1, n2, rank, pass, n1[n].children, rank[n]);
  }

  lemma {:induction false} SurvivorsListFrame(n1: seq<Node>, n2: seq<Node>, rank: seq<nat>, pass: Pass, cs: seq<NodeId>, bound: nat)
    requires Ranked(n1, rank) && Ranked(n2, rank) && Below(n1, rank, cs, bound)
    requires Agree(n1, n2, PreorderList(n1, rank, cs, bound))
    ensures Below(n2, rank, cs, bound)
    ensures SurvivorsList(n2, rank, pass, cs, bound) == SurvivorsList(n1, rank, pass, cs, bound)
    decreases bound, 0, |cs|
  {
    if cs != [] {
      var whole := PreorderList(n1, rank, cs, bound);
      assert forall x :: x in Preorder(n1, rank, cs[0]) ==> x in whole;
      assert forall x :: x in PreorderList(n1, rank, cs[1..], bound) ==> x in whole;
      SurvivorsFrame(n1, n2, rank, pass, cs[0]);
      SurvivorsListFrame(n1, n2, rank, pass, cs[1..], bound);
    }
  }

  lemma {:induction false} ExtractedFrame(cfg: Config, n1: seq<Node>, n2: seq<Node>, rank: seq<nat>, n: NodeId)
    requires ConfigValid(cfg) && Ranked(n1, rank) && Ranked(n2, rank) && n < |n1|
    requires Agree(n1, n2, Preorder(n1, rank, n))
    ensures Extracted(cfg, n2, rank, n) == Extracted(cfg, n1, rank, n)
    ensures Found(cfg, n2, rank, n) == Found(cfg, n1, rank, n)
    decreases rank[n], 1
  {
    SelfInSub(n1, rank, n);
    ChildrenBelow(n1, rank, n);
    ChildrenBelow(n2, rank, n);
    var cs := n1[n].children;
    assert forall x :: x in PreorderList(n1, rank, cs, rank[n]) ==> x in Preorder(n1, rank, n);
    forall x | x in cs && x < |n1|
      ensures n2[x] == n1[x]
    {
      var i :| 0 <= i < |cs| && cs[i] == x;
      SubChild(n1, rank, n, n, i);
    }
    KeptFrame(n1, n2, Extraction(cfg), cs);
    ExtractedListFrame(cfg, n1, n2, rank, cs, rank[n]);
  }

  lemma {:induction false} ExtractedListFrame(cfg: Config, n1: seq<Node>, n2: seq<Node>, rank: seq<nat>, cs: seq<NodeId>, bound: nat)
    requires ConfigValid(cfg) && Ranked(n1, rank) && Ranked(n2, rank) && Below(n1, rank, cs, bound)
    requires Agree(n1, n2, PreorderList(n1, rank, cs, bound))
    ensures Below(n2, rank, cs, bound)
    ensures ExtractedSums(cfg, n2, rank, cs, bound) == ExtractedSums(cfg, n1, rank, cs, bound)
    ensures FoundList(cfg, n2, rank, cs, bound) == FoundList(cfg, n1, rank, cs, bound)
    decreases bound, 0, |cs|
  {
    if cs != [] {
      var whole := PreorderList(n1, rank, cs, bound);
      SelfInSub(n1, rank, cs[0]);
      assert forall x :: x in Preorder(n1, rank, cs[0]) ==> x in whole;
      assert forall x :: x in PreorderList(n1, rank, cs[1..], bound) ==> x in whole;
      ExtractedFrame(cfg, n1, n2, rank, cs[0]);
      ExtractedListFrame(cfg, n1, n2, rank, cs[1..], bound);
    }
  }

  lemma TransformFrame(n1: seq<Node>, n2: seq<Node>, rank: seq<nat>, pass: Pass, x: NodeId)
    requires PassValid(pass) && Ranked(n1, rank) && Ranked(n2, rank) && x < |n1|
    requires Agree(n1, n2, Preorder(n1, rank, x))
    ensures Transform(pass, n2, rank, x) == Transform(pass, n1, rank, x)
  {
    SelfInSub(n1, rank, x);
    var cs := n1[x].children;
    forall y | y in cs && y < |n1|
      ensures n2[y] == n1[y]
    {
      var i :| 0 <= i < |cs| && cs[i] == y;
      SubChild(n1, rank, x, x, i);
    }
    KeptFrame(n1, n2, pass, cs);
    if pass.Extraction? {
      ExtractedFrame(pass.cfg, n1, n2, rank, x);
    }
  }

  /** `w` is the walk of the part `p`, of which `sv` survive, done on top of `n1`. */
  ghost predicate WalkedOver(nodes: seq<Node>, rank: seq<nat>, pass: Pass, p: seq<NodeId>, sv: seq<NodeId>,
                             n1: seq<Node>, w: seq<Node>)
    requires PassValid(pass) && Ranked(nodes, rank)
  {
    |n1| == |nodes| && |w| == |nodes| &&
    (forall x :: 0 <= x < |nodes| && x in p ==> w[x] == Pruned(nodes, rank, pass, p, sv)[x]) &&
    (forall x :: 0 <= x < |nodes| && x !in p ==> w[x] == n1[x])
  }

  /**
   * Walking a subtree whose nodes have not been touched yet: the result
   * agrees with walking it in the original arena inside the subtree, and
   * leaves everything outside the subtree as it was.
   */
  lemma WalkedLocal(n1: seq<Node>, n2: seq<Node>, rank: seq<nat>, pass: Pass, c: NodeId)
    requires PassValid(pass) && Ranked(n1, rank) && Ranked(n2, rank) && c < |n1|
    requires Agree(n1, n2, Preorder(n1, rank, c))
    ensures Preorder(n2, rank, c) == Preorder(n1, rank, c)
    ensures Survivors(n2, rank, pass, c) == Survivors(n1, rank, pass, c)
    ensures WalkedOver(n1, rank, pass, Preorder(n1, rank, c), Survivors(n1, rank, pass, c), n2, Walked(n2, rank, pass, c))
  {
    var p := Preorder(n1, rank, c);
    OrderFrame(n1, n2, rank, rank, c);
    SurvivorsFrame(n1, n2, rank, pass, c);
    SurvivorsInside(n1, rank, pass, c);
    forall x | x in p
      ensures Transform(pass, n2, rank, x) == Transform(pass, n1, rank, x)
    {
      SubNested(n1, rank, c, x);
      TransformFrame(n1, n2, rank, pass, x);
    }
  }

  // ---------------------------------------------------------------------
  // The child loop, one child at a time
  // ---------------------------------------------------------------------

  /** Before any child is walked nothing has changed. */
  lemma PartialStart(nodes: seq<Node>, rank: seq<nat>, pass: Pass, n: NodeId)
    requires PassValid(pass) && Ranked(nodes, rank) && n < |nodes|
    ensures Partial(nodes, rank, pass, n, 0) == nodes
  {
    var cs := nodes[n].children;
    assert cs[..0] == [];
    assert cs[0..] == cs;
    var r := Partial(nodes, rank, pass, n, 0);
    assert forall x :: 0 <= x < |nodes| ==> r[x] == nodes[x];
  }

  /** The subtree of child `j` meets neither the subtrees of the earlier children nor their parent. */
  lemma ChildApart(nodes: seq<Node>, rank: seq<nat>, n: NodeId, j: nat)
    requires Valid(nodes, rank) && n < |nodes| && nodes[n].live && j < |nodes[n].children|
    ensures var cs := nodes[n].children;
      cs[j] < |nodes| && nodes[cs[j]].live && nodes[cs[j]].parent == Some(n) &&
      Below(nodes, rank, cs[..j], rank[n]) &&
      forall x :: x in Preorder(nodes, rank, cs[j]) ==>
        x != n && x !in PreorderList(nodes, rank, cs[..j], rank[n])
  {
    var cs := nodes[n].children;
    var c := cs[j];
    ChildrenBelow(nodes, rank, n);
    ParentOutside(nodes, rank, c);
    forall x | x in Preorder(nodes, rank, c)
      ensures x !in PreorderList(nodes, rank, cs[..j], rank[n])
    {
      PreorderListMember(nodes, rank, cs[..j], rank[n], x);
      if x in PreorderList(nodes, rank, cs[..j], rank[n]) {
        var i :| 0 <= i < |cs[..j]| && x in Preorder(nodes, rank, cs[..j][i]);
        SiblingsDisjoint(nodes, rank, cs[i], c, x);
        assert false;
      }
    }
  }

  /** While child `j` waits its turn, its subtree is as it was. */
  lemma PartialAgrees(nodes: seq<Node>, rank: seq<nat>, pass: Pass, n: NodeId, j: nat)
    requires PassValid(pass) && Valid(nodes, rank) && n < |nodes| && nodes[n].live && j < |nodes[n].children|
    ensures var c := nodes[n].children[j];
      && c < |nodes| && nodes[c].live && nodes[c].parent == Some(n)
      && Agree(nodes, Partial(nodes, rank, pass, n, j), Preorder(nodes, rank, c))
  {
    var cs := nodes[n].children;
    ChildrenBelow(nodes, rank, n);
    ChildApart(nodes, rank, n, j);
    SurvivorsListInside(nodes, rank, pass, cs[..j], rank[n]);
    PreorderBounds(nodes, rank, cs[j]);
  }

  /** The part `p` (survivors `sv`) is disjoint from the walked parts and from their parent `n`. */
  ghost predicate Apart(n: NodeId, pre: seq<NodeId>, sur: seq<NodeId>, p: seq<NodeId>, sv: seq<NodeId>) {
    (forall x :: x in p ==> x != n && x !in pre && x !in sur) && (forall x :: x in sv ==> x in p)
  }

  /** Child `j` extends the walked parts by its own subtree and its survivors, and is apart from them. */
  lemma ChildStep(nodes: seq<Node>, rank: seq<nat>, pass: Pass, n: NodeId, j: nat)
    requires PassValid(pass) && Valid(nodes, rank) && n < |nodes| && nodes[n].live && j < |nodes[n].children|
    ensures var cs := nodes[n].children;
      var c := cs[j];
      c < |nodes| && Below(nodes, rank, cs[..j], rank[n]) && Below(nodes, rank, cs[..j + 1], rank[n]) &&
      var pre := PreorderList(nodes, rank, cs[..j], rank[n]);
      var sur := SurvivorsList(nodes, rank, pass, cs[..j], rank[n]);
      var p := Preorder(nodes, rank, c);
      var sv := Survivors(nodes, rank, pass, c);
      && PreorderList(nodes, rank, cs[..j + 1], rank[n]) == pre + p
      && SurvivorsList(nodes, rank, pass, cs[..j + 1], rank[n]) == sur + sv
      && Apart(n, pre, sur, p, sv)
      && (Drops(pass, nodes[c]) ==> sv == [])
  {
    var cs := nodes[n].children;
    var c := cs[j];
    ChildrenBelow(nodes, rank, n);
    ChildApart(nodes, rank, n, j);
    SurvivorsInside(nodes, rank, pass, c);
    SurvivorsListInside(nodes, rank, pass, cs[..j], rank[n]);
    assert cs[..j + 1] == cs[..j] + [c];
    OrderListSnoc(nodes, rank, cs[..j], c, rank[n]);
    SurvivorsListSnoc(nodes, rank, pass, cs[..j], c, rank[n]);
  }

  /** After child `j` the list of children reads the kept ones so far, then the rest. */
  lemma ChildrenStep(nodes: seq<Node>, pass: Pass, cs: seq<NodeId>, j: nat)
    requires j < |cs| && cs[j] < |nodes| && forall i :: 0 <= i < j ==> cs[i] != cs[j]
    ensures var k := Kept(nodes, pass, cs[..j]);
      && cs[j..] == [cs[j]] + cs[j + 1..]
      && (!Drops(pass, nodes[cs[j]]) ==> Kept(nodes, pass, cs[..j + 1]) + cs[j + 1..] == k + cs[j..])
      && (Drops(pass, nodes[cs[j]]) ==>
            Kept(nodes, pass, cs[..j + 1]) == k && RemoveFirst(k + cs[j..], cs[j]) == k + cs[j + 1..])
  {
    var c := cs[j];
    assert cs[..j + 1] == cs[..j] + [c];
    assert cs[j..] == [c] + cs[j + 1..];
    KeptSnoc(nodes, pass, cs[..j], c);
    var k := Kept(nodes, pass, cs[..j]);
    Utils.Assoc(k, [c], cs[j + 1..]);
    assert c !in cs[..j] by {
      forall i | 0 <= i < j
        ensures cs[..j][i] != c
      {
      }
    }
    if Drops(pass, nodes[c]) {
      RemoveFirstAt(k + cs[j..], c, |k|);
      assert (k + cs[j..])[..|k|] == k;
      assert (k + cs[j..])[|k| + 1..] == cs[j + 1..];
    }
  }

  /**
   * The bookkeeping of one kept child: walking the child's part `p`, of which
   * `sv` survive, on top of the walked parts `pre` (survivors `sur`) gives
   * the walk of `pre + p`, the parent `n` left as it is.
   */
  lemma StepKernel(nodes: seq<Node>, rank: seq<nat>, pass: Pass, n: NodeId,
                   pre: seq<NodeId>, sur: seq<NodeId>, p: seq<NodeId>, sv: seq<NodeId>,
                   n1: seq<Node>, w: seq<Node>, t: seq<Node>)
    requires PassValid(pass) && Ranked(nodes, rank) && n < |nodes|
    requires Apart(n, pre, sur, p, sv)
    requires |n1| == |nodes|
    requires n1 == Pruned(nodes, rank, pass, pre, sur)[n := n1[n]]
    requires WalkedOver(nodes, rank, pass, p, sv, n1, w)
    requires t == Pruned(nodes, rank, pass, pre + p, sur + sv)[n := n1[n]]
    ensures w == t
  {
    forall x | 0 <= x < |nodes|
      ensures w[x] == t[x]
    {
      if x !in p && x != n {
        assert x !in sv;
      }
    }
  }

  /** The bookkeeping of one dropped child: freeing its part `p` on top of the walked parts. */
  lemma DropKernel(nodes: seq<Node>, rank: seq<nat>, pass: Pass, n: NodeId,
                   pre: seq<NodeId>, sur: seq<NodeId>, p: seq<NodeId>,
                   n1: seq<Node>, parent: Node, d: seq<Node>, t: seq<Node>)
    requires PassValid(pass) && Ranked(nodes, rank) && n < |nodes|
    requires Apart(n, pre, sur, p, [])
    requires |n1| == |nodes|
    requires n1 == Pruned(nodes, rank, pass, pre, sur)[n := n1[n]]
    requires d == Killed(n1[n := parent], p)
    requires t == Pruned(nodes, rank, pass, pre + p, sur + [])[n := parent]
    ensures d == t
  {
    var before := Pruned(nodes, rank, pass, pre, sur);
    var after := Pruned(nodes, rank, pass, pre + p, sur + []);
    assert sur + [] == sur;
    forall x | 0 <= x < |nodes|
      ensures d[x] == t[x]
    {
      if x == n {
        assert n !in p;
      } else if x in p {
        assert x !in sur && x !in pre;
        assert n1[x] == before[x] == nodes[x];
        assert after[x] == nodes[x].(live := false);
      } else {
        assert x in pre + p <==> x in pre;
        assert after[x] == before[x] == n1[x];
      }
    }
  }

  /** A kept child's walk moves the loop on by one child. */
  lemma PartialStepKept(nodes: seq<Node>, rank: seq<nat>, pass: Pass, n: NodeId, j: nat)
    requires PassValid(pass) && Valid(nodes, rank) && n < |nodes| && nodes[n].live && j < |nodes[n].children|
    requires Ranked(Partial(nodes, rank, pass, n, j), rank)
    requires nodes[n].children[j] < |nodes| && !Drops(pass, nodes[nodes[n].children[j]])
    ensures Walked(Partial(nodes, rank, pass, n, j), rank, pass, nodes[n].children[j]) == Partial(nodes, rank, pass, n, j + 1)
  {
    var cs := nodes[n].children;
    var c := cs[j];
    var n1 := Partial(nodes, rank, pass, n, j);
    ChildStep(nodes, rank, pass, n, j);
    ChildrenStep(nodes, pass, cs, j);
    PartialAgrees(nodes, rank, pass, n, j);
    WalkedLocal(nodes, n1, rank, pass, c);
    var pre := PreorderList(nodes, rank, cs[..j], rank[n]);
    var sur := SurvivorsList(nodes, rank, pass, cs[..j], rank[n]);
    StepKernel(nodes, rank, pass, n, pre, sur, Preorder(nodes, rank, c), Survivors(nodes, rank, pass, c),
               n1, Walked(n1, rank, pass, c), Partial(nodes, rank, pass, n, j + 1));
  }

  /** A dropped child's drop_node moves the loop on by one child. */
  lemma PartialStepDropped(nodes: seq<Node>, rank: seq<nat>, pass: Pass, n: NodeId, j: nat)
    requires PassValid(pass) && Valid(nodes, rank) && n < |nodes| && nodes[n].live && j < |nodes[n].children|
    requires Ranked(Partial(nodes, rank, pass, n, j), rank)
    requires nodes[n].children[j] < |nodes| && Drops(pass, nodes[nodes[n].children[j]])
    ensures var n1 := Partial(nodes, rank, pass, n, j);
      var c := nodes[n].children[j];
      n1[c].parent == Some(n) && Detached(n1, rank, c) == Partial(nodes, rank, pass, n, j + 1)
  {
    var cs := nodes[n].children;
    var c := cs[j];
    var n1 := Partial(nodes, rank, pass, n, j);
    ChildStep(nodes, rank, pass, n, j);
    ChildrenStep(nodes, pass, cs, j);
    PartialAgrees(nodes, rank, pass, n, j);
    SelfInSub(nodes, rank, c);
    OrderFrame(nodes, n1, rank, rank, c);
    var pre := PreorderList(nodes, rank, cs[..j], rank[n]);
    var sur := SurvivorsList(nodes, rank, pass, cs[..j], rank[n]);
    DropKernel(nodes, rank, pass, n, pre, sur, Preorder(nodes, rank, c), n1,
               nodes[n].(children := Kept(nodes, pass, cs[..j]) + cs[j + 1..]),
               Detached(n1, rank, c), Partial(nodes, rank, pass, n, j + 1));
  }

  /** Transforming the parent on top of the walk of its children's parts gives the walk of the whole. */
  lemma EndKernel(nodes: seq<Node>, rank: seq<nat>, pass: Pass, n: NodeId,
                  pre: seq<NodeId>, sur: seq<NodeId>, x0: Node, last: seq<Node>)
    requires PassValid(pass) && Ranked(nodes, rank) && n < |nodes|
    requires last == Pruned(nodes, rank, pass, pre, sur)[n := x0]
    ensures last[n := Transform(pass, nodes, rank, n)] == Pruned(nodes, rank, pass, [n] + pre, [n] + sur)
  {
    var t := Pruned(nodes, rank, pass, [n] + pre, [n] + sur);
    forall x | 0 <= x < |nodes|
      ensures last[n := Transform(pass, nodes, rank, n)][x] == t[x]
    {
    }
  }

  /** After the last child, transforming `n` itself gives the walked subtree. */
  lemma PartialEnd(nodes: seq<Node>, rank: seq<nat>, pass: Pass, n: NodeId)
    requires PassValid(pass) && Ranked(nodes, rank) && n < |nodes| && !Drops(pass, nodes[n])
    ensures var last := Partial(nodes, rank, pass, n, |nodes[n].children|);
      && last[n := Transform(pass, nodes, rank, n)] == Walked(nodes, rank, pass, n)
      && (pass.Sanitizing? ==> last == Walked(nodes, rank, pass, n))
  {
    var cs := nodes[n].children;
    ChildrenBelow(nodes, rank, n);
    assert cs[..|cs|] == cs;
    assert cs[|cs|..] == [];
    assert Kept(nodes, pass, cs) + [] == Kept(nodes, pass, cs);
    var last := Partial(nodes, rank, pass, n, |cs|);
    var pre := PreorderList(nodes, rank, cs, rank[n]);
    var sur := SurvivorsList(nodes, rank, pass, cs, rank[n]);
    assert Preorder(nodes, rank, n) == [n] + pre;
    assert Survivors(nodes, rank, pass, n) == [n] + sur;
    EndKernel(nodes, rank, pass, n, pre, sur, nodes[n].(children := Kept(nodes, pass, cs)), last);
    if pass.Sanitizing? {
      assert last[n] == Transform(pass, nodes, rank, n);
      assert last[n := Transform(pass, nodes, rank, n)] == last;
    }
  }

  // ---------------------------------------------------------------------
  // Where the child loop stands
  // ---------------------------------------------------------------------

  /**
   * Before child `j` the current children are the kept ones so far followed
   * by the rest, so child `j` sits at the index the loop holds, and its subtree
   * is untouched.
   */
  lemma LoopAt(nodes: seq<Node>, rank: seq<nat>, pass: Pass, n: NodeId, j: nat)
    requires PassValid(pass) && Valid(nodes, rank) && n < |nodes| && nodes[n].live && j <= |nodes[n].children|
    ensures var cs := nodes[n].children;
      var now := Partial(nodes, rank, pass, n, j);
      var k := Kept(nodes, pass, cs[..j]);
      && |now[n].children| == |k| + |cs| - j
      && now[n].live
      && (j < |cs| ==>
            && now[n].children[|k|] == cs[j]
            && cs[j] < |nodes| && nodes[cs[j]].live && nodes[cs[j]].parent == Some(n)
            && now[cs[j]] == nodes[cs[j]]
            && Agree(nodes, now, Preorder(nodes, rank, cs[j])))
  {
    var cs := nodes[n].children;
    if j < |cs| {
      PartialAgrees(nodes, rank, pass, n, j);
      SelfInSub(nodes, rank, cs[j]);
    }
  }

  /** After child `j` the loop index moves on exactly when the child was kept, and the candidates grow by the child's. */
  lemma LoopNext(nodes: seq<Node>, rank: seq<nat>, pass: Pass, n: NodeId, j: nat)
    requires PassValid(pass) && Ranked(nodes, rank) && n < |nodes| && j < |nodes[n].children|
    ensures var cs := nodes[n].children;
      && |Kept(nodes, pass, cs[..j + 1])| == |Kept(nodes, pass, cs[..j])| + (if Drops(pass, nodes[cs[j]]) then 0 else 1)
      && Below(nodes, rank, cs[..j], rank[n]) && Below(nodes, rank, cs[..j + 1], rank[n])
      && (pass.Extraction? ==>
            FoundList(pass.cfg, nodes, rank, cs[..j + 1], rank[n]) ==
            FoundList(pass.cfg, nodes, rank, cs[..j], rank[n]) + Found(pass.cfg, nodes, rank, cs[j]))
  {
    var cs := nodes[n].children;
    ChildrenBelow(nodes, rank, n);
    BelowPrefix(nodes, rank, cs, rank[n], j);
    BelowPrefix(nodes, rank, cs, rank[n], j + 1);
    assert cs[..j + 1] == cs[..j] + [cs[j]];
    KeptSnoc(nodes, pass, cs[..j], cs[j]);
    if pass.Extraction? {
      FoundListSnoc(pass.cfg, nodes, rank, cs[..j], cs[j], rank[n]);
    }
  }

  /** Every kept child survives the walk of its own subtree. */
  lemma {:induction false} KeptSurvive(nodes: seq<Node>, rank: seq<nat>, pass: Pass, cs: seq<NodeId>, bound: nat)
    requires Ranked(nodes, rank) && Below(nodes, rank, cs, bound)
    ensures forall x :: x in Kept(nodes, pass, cs) ==> x in SurvivorsList(nodes, rank, pass, cs, bound)
    decreases |cs|
  {
    if cs != [] {
      KeptSurvive(nodes, rank, pass, cs[1..], bound);
      SurvivorsInside(nodes, rank, pass, cs[0]);
    }
  }

  /** A node the extraction walk keeps stores the aggregates of its closed-form features. */
  lemma TransformStored(cfg: Config, nodes: seq<Node>, rank: seq<nat>, x: NodeId)
    requires ConfigValid(cfg) && Ranked(nodes, rank) && x < |nodes|
    ensures var t := Transform(Extraction(cfg), nodes, rank, x);
      HasAggregates(t) && StoredAggregate(t) == AggregateOf(Extracted(cfg, nodes, rank, x))
  {
    var v := Extracted(cfg, nodes, rank, x);
    var t := Transform(Extraction(cfg), nodes, rank, x);
    assert t.extras == nodes[x].extras + FeatureMap(v);
  }

  /** The transformed kept children hold their aggregates. */
  lemma KeptStored(cfg: Config, nodes: seq<Node>, rank: seq<nat>, cs: seq<NodeId>, after: seq<Node>)
    requires ConfigValid(cfg) && Ranked(nodes, rank) && |after| == |nodes|
    requires forall x :: x in Kept(nodes, Extraction(cfg), cs) ==> after[x] == Transform(Extraction(cfg), nodes, rank, x)
    ensures var k := Kept(nodes, Extraction(cfg), cs);
      forall i :: 0 <= i < |k| ==> k[i] < |after| && HasAggregates(after[k[i]])
  {
    var k := Kept(nodes, Extraction(cfg), cs);
    forall i | 0 <= i < |k|
      ensures k[i] < |after| && HasAggregates(after[k[i]])
    {
      assert k[i] in k;
      TransformStored(cfg, nodes, rank, k[i]);
    }
  }

  /** The aggregates stored on the transformed kept children sum to what the closed form sums. */
  lemma {:induction false} KeptSums(cfg: Config, nodes: seq<Node>, rank: seq<nat>, cs: seq<NodeId>, bound: nat, after: seq<Node>)
    requires ConfigValid(cfg) && Ranked(nodes, rank) && Below(nodes, rank, cs, bound) && |after| == |nodes|
    requires forall x :: x in Kept(nodes, Extraction(cfg), cs) ==> after[x] == Transform(Extraction(cfg), nodes, rank, x)
    ensures var k := Kept(nodes, Extraction(cfg), cs);
      && (forall i :: 0 <= i < |k| ==> k[i] < |after| && HasAggregates(after[k[i]]))
      && ChildSums(after, k) == ExtractedSums(cfg, nodes, rank, cs, bound)
    decreases |cs|
  {
    KeptStored(cfg, nodes, rank, cs, after);
    if cs != [] {
      var pass := Extraction(cfg);
      assert forall x :: x in Kept(nodes, pass, cs[1..]) ==> x in Kept(nodes, pass, cs);
      KeptSums(cfg, nodes, rank, cs[1..], bound, after);
      if !IsNegative(cfg, nodes[cs[0]]) {
        assert cs[0] in Kept(nodes, pass, cs);
        TransformStored(cfg, nodes, rank, cs[0]);
      }
      KeptSumsCons(cfg, nodes, rank, cs, bound, after);
    }
  }

  /** The step of KeptSums: the first child adds its stored aggregates exactly when it is kept. */
  lemma KeptSumsCons(cfg: Config, nodes: seq<Node>, rank: seq<nat>, cs: seq<NodeId>, bound: nat, after: seq<Node>)
    requires ConfigValid(cfg) && Ranked(nodes, rank) && Below(nodes, rank, cs, bound) && |after| == |nodes| && cs != []
    requires !IsNegative(cfg, nodes[cs[0]]) ==>
      HasAggregates(after[cs[0]]) && StoredAggregate(after[cs[0]]) == AggregateOf(Extracted(cfg, nodes, rank, cs[0]))
    requires var k := Kept(nodes, Extraction(cfg), cs);
      forall i :: 0 <= i < |k| ==> k[i] < |after| && HasAggregates(after[k[i]])
    requires var k := Kept(nodes, Extraction(cfg), cs[1..]);
      forall i :: 0 <= i < |k| ==> k[i] < |after| && HasAggregates(after[k[i]])
    requires ChildSums(after, Kept(nodes, Extraction(cfg), cs[1..])) == ExtractedSums(cfg, nodes, rank, cs[1..], bound)
    ensures ChildSums(after, Kept(nodes, Extraction(cfg), cs)) == ExtractedSums(cfg, nodes, rank, cs, bound)
  {
    var pass := Extraction(cfg);
    var c := cs[0];
    var rest := Kept(nodes, pass, cs[1..]);
    KeptHead(nodes, pass, cs);
    ExtractedSumsHead(cfg, nodes, rank, cs, bound);
    if !IsNegative(cfg, nodes[c]) {
      assert ([c] + rest)[1..] == rest;
      ChildSumsHead(after, [c] + rest);
    }
  }

  /** One unfolding of Kept, for a child of the arena. */
  lemma KeptHead(nodes: seq<Node>, pass: Pass, cs: seq<NodeId>)
    requires cs != [] && cs[0] < |nodes|
    ensures Kept(nodes, pass, cs) ==
      if Drops(pass, nodes[cs[0]]) then Kept(nodes, pass, cs[1..]) else [cs[0]] + Kept(nodes, pass, cs[1..])
  {
  }

  /** One unfolding of ChildSums. */
  lemma ChildSumsHead(nodes: seq<Node>, cs: seq<NodeId>)
    requires forall i :: 0 <= i < |cs| ==> cs[i] < |nodes| && HasAggregates(nodes[cs[i]])
    requires cs != []
    ensures ChildSums(nodes, cs) == Plus(StoredAggregate(nodes[cs[0]]), ChildSums(nodes, cs[1..]))
  {
  }

  /** One unfolding of ExtractedSums. */
  lemma ExtractedSumsHead(cfg: Config, nodes: seq<Node>, rank: seq<nat>, cs: seq<NodeId>, bound: nat)
    requires ConfigValid(cfg) && Ranked(nodes, rank) && Below(nodes, rank, cs, bound) && cs != []
    ensures ExtractedSums(cfg, nodes, rank, cs, bound) ==
      Plus(if IsNegative(cfg, nodes[cs[0]]) then NoChildren else AggregateOf(Extracted(cfg, nodes, rank, cs[0])),
           ExtractedSums(cfg, nodes, rank, cs[1..], bound))
  {
  }

  /** After the child loop, the visit of `n` computes from the current arena exactly the features of the closed form. */
  lemma ExtractEnd(cfg: Config, nodes: seq<Node>, rank: seq<nat>, n: NodeId)
    requires ConfigValid(cfg) && Ranked(nodes, rank) && n < |nodes|
    ensures var last := Partial(nodes, rank, Extraction(cfg), n, |nodes[n].children|);
      var k := last[n].children;
      && (forall i :: 0 <= i < |k| ==> k[i] < |last| && HasAggregates(last[k[i]]))
      && FeatureVector(cfg, last[n], |k|, ChildSums(last, k)) == Extracted(cfg, nodes, rank, n)
      && last[n].(extras := last[n].extras + FeatureMap(Extracted(cfg, nodes, rank, n))) ==
         Transform(Extraction(cfg), nodes, rank, n)
  {
    var pass := Extraction(cfg);
    var cs := nodes[n].children;
    ChildrenBelow(nodes, rank, n);
    var last := Partial(nodes, rank, pass, n, |cs|);
    assert cs[..|cs|] == cs;
    assert cs[|cs|..] == [];
    var k := Kept(nodes, pass, cs);
    assert last[n].children == k;
    KeptSurvive(nodes, rank, pass, cs, rank[n]);
    forall x | x in k
      ensures last[x] == Transform(pass, nodes, rank, x)
    {
      assert x in cs && x != n;
    }
    KeptSums(cfg, nodes, rank, cs, rank[n], last);
    FeatureVectorLabels(cfg, last[n], nodes[n], |k|, ChildSums(last, k));
  }

  /** Found on a kept node: the candidates of its children, then itself when valid. */
  lemma FoundUnfold(cfg: Config, nodes: seq<Node>, rank: seq<nat>, n: NodeId)
    requires ConfigValid(cfg) && Ranked(nodes, rank) && n < |nodes| && !IsNegative(cfg, nodes[n])
    ensures Found(cfg, nodes, rank, n) ==
      FoundUpTo(cfg, nodes, rank, n, |nodes[n].children|) +
      (if IsCandidateNode(cfg, nodes[n].tag, Extracted(cfg, nodes, rank, n)[TextLength]) then [n] else [])
  {
    ChildrenBelow(nodes, rank, n);
    assert nodes[n].children[..|nodes[n].children|] == nodes[n].children;
  }

  // ---------------------------------------------------------------------
  // The sanitize walk keeps the features
  // ---------------------------------------------------------------------

  /** A compiled expression never faults on a node that holds every feature. */
  lemma NoFaultOnFeatured(atoms: seq<Atom>, node: Node)
    requires WellFormed(atoms, FeatureNames) && HasAllFeatures(node)
    ensures Run(atoms, node.extras) != Fault
  {
    RunFromDefined(atoms, node.extras, 0, 0, false);
  }

  /** The candidates the walks of the first `j` children of `n` collect, in post-order. */
  ghost function FoundUpTo(cfg: Config, nodes: seq<Node>, rank: seq<nat>, n: NodeId, j: nat): seq<NodeId>
    requires ConfigValid(cfg) && Ranked(nodes, rank) && n < |nodes| && j <= |nodes[n].children|
  {
    ChildrenBelow(nodes, rank, n);
    BelowPrefix(nodes, rank, nodes[n].children, rank[n], j);
    FoundList(cfg, nodes, rank, nodes[n].children[..j], rank[n])
  }

  /** One turn of the extracting child loop at child `j`: where the child sits, what walking it yields and collects. */
  lemma ExtractTurn(cfg: Config, nodes: seq<Node>, rank: seq<nat>, n: NodeId, j: nat, candidates: seq<NodeId>)
    requires ConfigValid(cfg) && Valid(nodes, rank) && n < |nodes| && nodes[n].live && j < |nodes[n].children|
    requires Ranked(Partial(nodes, rank, Extraction(cfg), n, j), rank)
    ensures var pass := Extraction(cfg);
      var cs := nodes[n].children;
      var now := Partial(nodes, rank, pass, n, j);
      var i := |Kept(nodes, pass, cs[..j])|;
      var c := cs[j];
      && i < |now[n].children| && now[n].children[i] == c
      && c < |now| && now[c].live && now[c].parent == Some(n) && now[c] == nodes[c] && rank[c] < rank[n]
      && Found(cfg, now, rank, c) == Found(cfg, nodes, rank, c)
      && candidates + FoundUpTo(cfg, nodes, rank, n, j) + Found(cfg, nodes, rank, c) ==
         candidates + FoundUpTo(cfg, nodes, rank, n, j + 1)
      && |Kept(nodes, pass, cs[..j + 1])| == i + (if IsNegative(cfg, nodes[c]) then 0 else 1)
      && |Partial(nodes, rank, pass, n, j + 1)[n].children| == |Kept(nodes, pass, cs[..j + 1])| + |cs| - (j + 1)
      && (!IsNegative(cfg, nodes[c]) ==> Walked(now, rank, pass, c) == Partial(nodes, rank, pass, n, j + 1))
      && (IsNegative(cfg, nodes[c]) ==> Detached(now, rank, c) == Partial(nodes, rank, pass, n, j + 1))
  {
    var pass := Extraction(cfg);
    var cs := nodes[n].children;
    LoopAt(nodes, rank, pass, n, j);
    LoopAt(nodes, rank, pass, n, j + 1);
    LoopNext(nodes, rank, pass, n, j);
    ExtractedFrame(cfg, nodes, Partial(nodes, rank, pass, n, j), rank, cs[j]);
    Utils.Assoc(candidates, FoundList(cfg, nodes, rank, cs[..j], rank[n]), Found(cfg, nodes, rank, cs[j]));
    if IsNegative(cfg, nodes[cs[j]]) {
      PartialStepDropped(nodes, rank, pass, n, j);
    } else {
      PartialStepKept(nodes, rank, pass, n, j);
    }
  }

  /** One turn of the sanitizing child loop at child `j`: where the child sits, and what walking it yields. */
  lemma SanitizeTurn(nodes: seq<Node>, rank: seq<nat>, atoms: seq<Atom>, n: NodeId, j: nat)
    requires Valid(nodes, rank) && n < |nodes| && nodes[n].live && j < |nodes[n].children| && AllLiveFeatured(nodes)
    requires Ranked(Partial(nodes, rank, Sanitizing(atoms), n, j), rank)
    ensures var pass := Sanitizing(atoms);
      var cs := nodes[n].children;
      var now := Partial(nodes, rank, pass, n, j);
      var i := |Kept(nodes, pass, cs[..j])|;
      var c := cs[j];
      && i < |now[n].children| && now[n].children[i] == c
      && c < |now| && now[c].live && now[c].parent == Some(n) && now[c] == nodes[c] && rank[c] < rank[n]
      && AllLiveFeatured(now)
      && |Kept(nodes, pass, cs[..j + 1])| == i + (if Drops(pass, nodes[c]) then 0 else 1)
      && |Partial(nodes, rank, pass, n, j + 1)[n].children| == |Kept(nodes, pass, cs[..j + 1])| + |cs| - (j + 1)
      && (!Drops(pass, nodes[c]) ==> Walked(now, rank, pass, c) == Partial(nodes, rank, pass, n, j + 1))
      && (Drops(pass, nodes[c]) ==> Detached(now, rank, c) == Partial(nodes, rank, pass, n, j + 1))
  {
    var pass := Sanitizing(atoms);
    LoopAt(nodes, rank, pass, n, j);
    LoopAt(nodes, rank, pass, n, j + 1);
    LoopNext(nodes, rank, pass, n, j);
    PartialShrunk(nodes, rank, atoms, n, j);
    ShrunkFeatured(nodes, Partial(nodes, rank, pass, n, j));
    if Drops(pass, nodes[nodes[n].children[j]]) {
      PartialStepDropped(nodes, rank, pass, n, j);
    } else {
      PartialStepKept(nodes, rank, pass, n, j);
    }
  }

  /** In the middle of the sanitize walk the arena has only lost nodes. */
  lemma PartialShrunk(nodes: seq<Node>, rank: seq<nat>, atoms: seq<Atom>, n: NodeId, j: nat)
    requires Ranked(nodes, rank) && n < |nodes| && j <= |nodes[n].children|
    ensures Shrunk(nodes, Partial(nodes, rank, Sanitizing(atoms), n, j))
  {
    var pass := Sanitizing(atoms);
    var cs := nodes[n].children;
    ChildrenBelow(nodes, rank, n);
    BelowPrefix(nodes, rank, cs, rank[n], j);
    var sur := SurvivorsList(nodes, rank, pass, cs[..j], rank[n]);
    var pr := Pruned(nodes, rank, pass, PreorderList(nodes, rank, cs[..j], rank[n]), sur);
    var r := Partial(nodes, rank, pass, n, j);
    forall x | 0 <= x < |r|
      ensures r[x].extras == nodes[x].extras && (r[x].live ==> nodes[x].live)
    {
      if x != n {
        assert r[x] == pr[x];
        if x in sur {
          assert pr[x] == nodes[x].(children := Kept(nodes, pass, nodes[x].children));
        }
      }
    }
  }

  /** Nor at its end. */
  lemma WalkedShrunk(nodes: seq<Node>, rank: seq<nat>, atoms: seq<Atom>, n: NodeId)
    requires Ranked(nodes, rank) && n < |nodes|
    ensures Shrunk(nodes, Walked(nodes, rank, Sanitizing(atoms), n))
  {
  }

  // ---------------------------------------------------------------------
  // The extraction walk over a whole document
  // ---------------------------------------------------------------------

  /** A parsed document: a live, parentless root whose subtree holds every live node. */
  ghost predicate Document(nodes: seq<Node>, rank: seq<nat>, root: NodeId) {
    && Ranked(nodes, rank) && root < |nodes| && nodes[root].live && nodes[root].parent.None?
    && forall x :: 0 <= x < |nodes| && nodes[x].live ==> x in Preorder(nodes, rank, root)
  }

  /** Every collected candidate survives the walk. */
  lemma {:induction false} FoundSurvive(cfg: Config, nodes: seq<Node>, rank: seq<nat>, n: NodeId)
    requires ConfigValid(cfg) && Ranked(nodes, rank) && n < |nodes|
    ensures forall x :: x in Found(cfg, nodes, rank, n) ==> x in Survivors(nodes, rank, Extraction(cfg), n)
    decreases rank[n], 1
  {
    if !IsNegative(cfg, nodes[n]) {
      ChildrenBelow(nodes, rank, n);
      FoundListSurvive(cfg, nodes, rank, nodes[n].children, rank[n]);
    }
  }

  lemma {:induction false} FoundListSurvive(cfg: Config, nodes: seq<Node>, rank: seq<nat>, cs: seq<NodeId>, bound: nat)
    requires ConfigValid(cfg) && Ranked(nodes, rank) && Below(nodes, rank, cs, bound)
    ensures forall x :: x in FoundList(cfg, nodes, rank, cs, bound) ==> x in SurvivorsList(nodes, rank, Extraction(cfg), cs, bound)
    decreases bound, 0, |cs|
  {
    if cs != [] {
      FoundSurvive(cfg, nodes, rank, cs[0]);
      FoundListSurvive(cfg, nodes, rank, cs[1..], bound);
    }
  }

  /** After the walk of a live node, every collected candidate is live. */
  lemma FoundLive(cfg: Config, nodes: seq<Node>, rank: seq<nat>, n: NodeId)
    requires ConfigValid(cfg) && Valid(nodes, rank) && n < |nodes| && nodes[n].live
    ensures var w := Walked(nodes, rank, Extraction(cfg), n);
      forall x :: x in Found(cfg, nodes, rank, n) ==> x < |w| && w[x].live
  {
    FoundSurvive(cfg, nodes, rank, n);
    SurvivorsInside(nodes, rank, Extraction(cfg), n);
    SubLive(nodes, rank, n);
  }

  /** After the walk of a whole document, every live node holds every feature. */
  lemma WalkedFeatured(cfg: Config, nodes: seq<Node>, rank: seq<nat>, root: NodeId)
    requires ConfigValid(cfg) && Document(nodes, rank, root)
    ensures AllLiveFeatured(Walked(nodes, rank, Extraction(cfg), root))
  {
    var pass := Extraction(cfg);
    var w := Walked(nodes, rank, pass, root);
    forall x | 0 <= x < |w| && x !in Survivors(nodes, rank, pass, root)
      ensures !w[x].live
    {
      if x !in Preorder(nodes, rank, root) {
        assert w[x] == nodes[x];
      }
    }
    forall x | 0 <= x < |w| && w[x].live
      ensures HasAllFeatures(w[x])
    {
      var v := Extracted(cfg, nodes, rank, x);
      assert w[x].extras == nodes[x].extras + FeatureMap(v);
    }
  }
}
