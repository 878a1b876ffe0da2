/**
 * What get_body does to the parent of the best candidate
 * (body_extractor.cpp:475-532), as functions of the arena: the test each
 * sibling goes through (and the features valid_paragraph_sibling writes on
 * the way), the list of siblings it drops, and the arena once they are
 * dropped.
 */
module SiblingPruning {
  import opened Wrappers
  import opened DomModel
  import opened BodyFeatures
  import opened BooleanClassifier

  /** The first two tests of get_body: the sibling is the best candidate, or a candidate weighing at least max(10, 0.2 * its weight). */
  predicate KeptWithoutTest(best: NodeId, c: NodeId, node: Node)
    requires HasExtra(node, BasicWeight)
  {
    c == best || StrongCandidate(GetExtraDefault(node, IsCandidate, 0.0), GetExtra(node, BasicWeight))
  }

  /** Whether get_body keeps sibling `c`: the first two tests, or else the sibling classifier on the marked features. */
  predicate Keeps(cfg: Config, atoms: seq<Atom>, best: NodeId, c: NodeId, node: Node)
    requires HasExtra(node, BasicWeight)
  {
    KeptWithoutTest(best, c, node) || Run(atoms, ParagraphMarked(cfg, node).extras) == Value(true)
  }

  /** The sibling after the test: valid_paragraph_sibling marked it only when the first two tests failed. */
  function Marked(cfg: Config, best: NodeId, c: NodeId, node: Node): Node
    requires HasExtra(node, BasicWeight)
  {
    if KeptWithoutTest(best, c, node) then node else ParagraphMarked(cfg, node)
  }

  /** Every id of `cs` names a node of the arena holding BASIC_WEIGHT. */
  predicate Weighed(nodes: seq<Node>, cs: seq<NodeId>) {
    forall i :: 0 <= i < |cs| ==> cs[i] < |nodes| && HasExtra(nodes[cs[i]], BasicWeight)
  }

  /** dropping_siblings: the siblings among `cs` that fail the test, in order. */
  function Dropping(cfg: Config, atoms: seq<Atom>, best: NodeId, nodes: seq<Node>, cs: seq<NodeId>): (ds: seq<NodeId>)
    requires Weighed(nodes, cs)
    ensures forall d :: d in ds ==> d in cs && d != best
  {
    if cs == [] then []
    else
      var c := cs[|cs| - 1];
      Dropping(cfg, atoms, best, nodes, cs[..|cs| - 1]) + (if Keeps(cfg, atoms, best, c, nodes[c]) then [] else [c])
  }

  /** The arena after the sibling loop over `cs`: every sibling tested, as Marked says. */
  function MarkedAll(cfg: Config, best: NodeId, nodes: seq<Node>, cs: seq<NodeId>): (r: seq<Node>)
    ensures |r| == |nodes|
  {
    seq(|nodes|, m requires 0 <= m < |nodes| =>
      if m in cs && HasExtra(nodes[m], BasicWeight) then Marked(cfg, best, m, nodes[m]) else nodes[m])
  }

  /** The ids of `cs` not in `ds`, in order. */
  function Without(cs: seq<NodeId>, ds: seq<NodeId>): (r: seq<NodeId>)
    ensures forall x :: x in r <==> x in cs && x !in ds
  {
    if cs == [] then [] else (if cs[0] in ds then [] else [cs[0]]) + Without(cs[1..], ds)
  }

  /** The siblings among `cs` that pass the test, in order. */
  function Passing(cfg: Config, atoms: seq<Atom>, best: NodeId, nodes: seq<Node>, cs: seq<NodeId>): seq<NodeId>
    requires Weighed(nodes, cs)
  {
    if cs == [] then []
    else
      (if Keeps(cfg, atoms, best, cs[0], nodes[cs[0]]) then [cs[0]] else []) +
      Passing(cfg, atoms, best, nodes, cs[1..])
  }

  /** The arena once the siblings `ds` of `p`'s children are dropped: they leave the list, and their subtrees are freed. */
  ghost function CutSiblings(nodes: seq<Node>, rank: seq<nat>, p: NodeId, ds: seq<NodeId>): seq<Node>
    requires Ranked(nodes, rank) && p < |nodes| && Below(nodes, rank, ds, rank[p])
  {
    Killed(nodes[p := nodes[p].(children := Without(nodes[p].children, ds))], PreorderList(nodes, rank, ds, rank[p]))
  }

  // ---------------------------------------------------------------------
  // Lists
  // ---------------------------------------------------------------------

  predicate Distinct(s: seq<NodeId>) {
    forall i, j :: 0 <= i < j < |s| ==> s[i] != s[j]
  }

  /** One more sibling in the loop. */
  lemma DroppingSnoc(cfg: Config, atoms: seq<Atom>, best: NodeId, nodes: seq<Node>, cs: seq<NodeId>, i: nat)
    requires Weighed(nodes, cs) && i < |cs|
    ensures Weighed(nodes, cs[..i]) && Weighed(nodes, cs[..i + 1])
    ensures Dropping(cfg, atoms, best, nodes, cs[..i + 1]) ==
      Dropping(cfg, atoms, best, nodes, cs[..i]) + (if Keeps(cfg, atoms, best, cs[i], nodes[cs[i]]) then [] else [cs[i]])
  {
    assert cs[..i + 1][..i] == cs[..i];
  }

  /** Dropping the failing siblings of a duplicate-free list leaves exactly the passing ones, in order. */
  lemma {:induction false} WithoutDropping(cfg: Config, atoms: seq<Atom>, best: NodeId, nodes: seq<Node>, cs: seq<NodeId>)
    requires Weighed(nodes, cs) && Distinct(cs)
    ensures Without(cs, Dropping(cfg, atoms, best, nodes, cs)) == Passing(cfg, atoms, best, nodes, cs)
    decreases |cs|
  {
    if cs != [] {
      var ds := Dropping(cfg, atoms, best, nodes, cs);
      var t := cs[1..];
      assert Weighed(nodes, t);
      assert Distinct(t);
      WithoutDropping(cfg, atoms, best, nodes, t);
      DroppingSplit(cfg, atoms, best, nodes, cs);
      WithoutExtra(t, Dropping(cfg, atoms, best, nodes, t), ds);
    }
  }

  /** Dropping on a non-empty list, seen from the front. */
  lemma {:induction false} DroppingSplit(cfg: Config, atoms: seq<Atom>, best: NodeId, nodes: seq<Node>, cs: seq<NodeId>)
    requires Weighed(nodes, cs) && cs != []
    ensures Weighed(nodes, cs[1..])
    ensures Dropping(cfg, atoms, best, nodes, cs) ==
      (if Keeps(cfg, atoms, best, cs[0], nodes[cs[0]]) then [] else [cs[0]]) + Dropping(cfg, atoms, best, nodes, cs[1..])
    decreases |cs|
  {
    assert Weighed(nodes, cs[1..]);
    if |cs| > 1 {
      var init := cs[..|cs| - 1];
      DroppingSplit(cfg, atoms, best, nodes, init);
      assert init[1..] == cs[1..][..|cs[1..]| - 1];
      assert init[0] == cs[0];
      assert cs[1..][|cs[1..]| - 1] == cs[|cs| - 1];
      Utils.Assoc(if Keeps(cfg, atoms, best, cs[0], nodes[cs[0]]) then [] else [cs[0]],
                  Dropping(cfg, atoms, best, nodes, init[1..]),
                  if Keeps(cfg, atoms, best, cs[|cs| - 1], nodes[cs[|cs| - 1]]) then [] else [cs[|cs| - 1]]);
    } else {
      assert cs[..0] == [] && cs[1..] == [];
    }
  }

  /** Adding to `ds` ids of `cs` that are not in `t` does not change `Without(t, ...)`, and the head decides alone. */
  lemma {:induction false} WithoutExtra(t: seq<NodeId>, ds: seq<NodeId>, all: seq<NodeId>)
    requires forall x :: x in t ==> (x in ds <==> x in all)
    ensures Without(t, ds) == Without(t, all)
  {
    if t != [] {
      WithoutExtra(t[1..], ds, all);
    }
  }

  /** Erasing the first `d` from the survivors of `ds` is leaving out `ds + [d]`. */
  lemma {:induction false} WithoutRemove(cs: seq<NodeId>, ds: seq<NodeId>, d: NodeId)
    requires Distinct(cs)
    ensures RemoveFirst(Without(cs, ds), d) == Without(cs, ds + [d])
    decreases |cs|
  {
    if cs != [] {
      var t := cs[1..];
      var w := Without(t, ds);
      assert Distinct(t);
      WithoutRemove(t, ds, d);
      assert Without(cs, ds) == (if cs[0] in ds then [] else [cs[0]]) + w;
      assert Without(cs, ds + [d]) == (if cs[0] in ds + [d] then [] else [cs[0]]) + Without(t, ds + [d]);
      if cs[0] in ds {
        assert cs[0] in ds + [d];
        assert Without(cs, ds) == w && Without(cs, ds + [d]) == Without(t, ds + [d]);
      } else if cs[0] == d {
        assert d !in t;
        WithoutExtra(t, ds, ds + [d]);
        assert ([d] + w)[0] == d && ([d] + w)[1..] == w;
        assert Without(cs, ds + [d]) == Without(t, ds + [d]);
      } else {
        assert cs[0] !in ds + [d];
        assert ([cs[0]] + w)[0] != d && ([cs[0]] + w)[1..] == w;
      }
    }
  }

  /** The failing siblings of a duplicate-free list are duplicate-free. */
  lemma {:induction false} DroppingDistinct(cfg: Config, atoms: seq<Atom>, best: NodeId, nodes: seq<Node>, cs: seq<NodeId>)
    requires Weighed(nodes, cs) && Distinct(cs)
    ensures Distinct(Dropping(cfg, atoms, best, nodes, cs))
    decreases |cs|
  {
    if cs != [] {
      var init := cs[..|cs| - 1];
      var c := cs[|cs| - 1];
      assert Weighed(nodes, init) && Distinct(init);
      DroppingDistinct(cfg, atoms, best, nodes, init);
      assert c !in init;
    }
  }

  /** The survivors are exactly the listed siblings that pass the test. */
  lemma {:induction false} PassingMembers(cfg: Config, atoms: seq<Atom>, best: NodeId, nodes: seq<Node>, cs: seq<NodeId>, x: NodeId)
    requires Weighed(nodes, cs)
    ensures x in Passing(cfg, atoms, best, nodes, cs) <==> x in cs && Keeps(cfg, atoms, best, x, nodes[x])
    decreases |cs|
  {
    if cs != [] {
      assert Weighed(nodes, cs[1..]);
      PassingMembers(cfg, atoms, best, nodes, cs[1..], x);
      if x in cs && x != cs[0] {
        assert x in cs[1..];
      }
    }
  }

  /** The best candidate always survives its siblings' pruning, and so does nothing else that passes. */
  lemma BestSurvives(cfg: Config, atoms: seq<Atom>, best: NodeId, nodes: seq<Node>, cs: seq<NodeId>)
    requires Weighed(nodes, cs) && Distinct(cs) && best in cs
    ensures best in Without(cs, Dropping(cfg, atoms, best, nodes, cs))
    ensures |Without(cs, Dropping(cfg, atoms, best, nodes, cs))| == 1 ==> Without(cs, Dropping(cfg, atoms, best, nodes, cs)) == [best]
  {
  }

  // ---------------------------------------------------------------------
  // Marking
  // ---------------------------------------------------------------------

  /** One more sibling tested: only that sibling changes, as Marked says. */
  lemma MarkedAllSnoc(cfg: Config, best: NodeId, nodes: seq<Node>, cs: seq<NodeId>, i: nat)
    requires Weighed(nodes, cs) && Distinct(cs) && i < |cs|
    ensures MarkedAll(cfg, best, nodes, cs[..i])[cs[i]] == nodes[cs[i]]
    ensures MarkedAll(cfg, best, nodes, cs[..i + 1]) ==
      MarkedAll(cfg, best, nodes, cs[..i])[cs[i] := Marked(cfg, best, cs[i], nodes[cs[i]])]
  {
    var a := MarkedAll(cfg, best, nodes, cs[..i]);
    var b := MarkedAll(cfg, best, nodes, cs[..i + 1]);
    assert cs[i] !in cs[..i];
    forall m | 0 <= m < |nodes|
      ensures b[m] == a[cs[i] := Marked(cfg, best, cs[i], nodes[cs[i]])][m]
    {
      assert m in cs[..i + 1] <==> m in cs[..i] || m == cs[i];
    }
  }

  lemma MarkedAllNone(cfg: Config, best: NodeId, nodes: seq<Node>)
    ensures MarkedAll(cfg, best, nodes, []) == nodes
  {
  }

  /** Marking writes extras only, keeps every feature, and changes a sibling exactly when the first two tests fail. */
  lemma MarkedAllShape(cfg: Config, best: NodeId, nodes: seq<Node>, cs: seq<NodeId>)
    requires AllLiveFeatured(nodes)
    ensures var r := MarkedAll(cfg, best, nodes, cs);
      && AllLiveFeatured(r)
      && (forall m :: 0 <= m < |r| ==> r[m].(extras := nodes[m].extras) == nodes[m])
      && (forall m :: 0 <= m < |r| && r[m] != nodes[m] ==> m in cs)
  {
    var r := MarkedAll(cfg, best, nodes, cs);
    forall m | 0 <= m < |r| && r[m].live
      ensures HasAllFeatures(r[m])
    {
      assert HasAllFeatures(nodes[m]);
    }
  }

  /** One turn of the keep-or-drop loop at sibling `i`: what the arena and the drop list become on each branch. */
  lemma MarkTurn(cfg: Config, atoms: seq<Atom>, best: NodeId, nodes: seq<Node>, cs: seq<NodeId>, i: nat)
    requires Weighed(nodes, cs) && Distinct(cs) && i < |cs| && AllLiveFeatured(nodes)
    ensures var a := MarkedAll(cfg, best, nodes, cs[..i]);
      var c := cs[i];
      var node := nodes[c];
      && c < |a| && a[c] == node
      && AllLiveFeatured(MarkedAll(cfg, best, nodes, cs[..i + 1]))
      && (KeptWithoutTest(best, c, node) ==>
            && MarkedAll(cfg, best, nodes, cs[..i + 1]) == a
            && Dropping(cfg, atoms, best, nodes, cs[..i + 1]) == Dropping(cfg, atoms, best, nodes, cs[..i]))
      && (!KeptWithoutTest(best, c, node) ==>
            && MarkedAll(cfg, best, nodes, cs[..i + 1]) == a[c := ParagraphMarked(cfg, node)]
            && Dropping(cfg, atoms, best, nodes, cs[..i + 1]) ==
               Dropping(cfg, atoms, best, nodes, cs[..i]) + (if Run(atoms, ParagraphMarked(cfg, node).extras) == Value(true) then [] else [c]))
  {
    MarkedAllSnoc(cfg, best, nodes, cs, i);
    DroppingSnoc(cfg, atoms, best, nodes, cs, i);
    MarkedAllShape(cfg, best, nodes, cs[..i + 1]);
    var a := MarkedAll(cfg, best, nodes, cs[..i]);
    var c := cs[i];
    if KeptWithoutTest(best, c, nodes[c]) {
      assert a[c := nodes[c]] == a;
    }
  }

  // ---------------------------------------------------------------------
  // Dropping
  // ---------------------------------------------------------------------

  /** Every id of `ds` is a child of `p`. */
  predicate Siblings(nodes: seq<Node>, p: NodeId, ds: seq<NodeId>)
    requires p < |nodes|
  {
    forall i :: 0 <= i < |ds| ==> ds[i] in nodes[p].children
  }

  /** The children of `p` rank below it; the parent and the siblings not dropped lie outside the dropped subtrees. */
  lemma {:induction false} OutsideCut(nodes: seq<Node>, rank: seq<nat>, p: NodeId, ds: seq<NodeId>, x: NodeId)
    requires Valid(nodes, rank) && p < |nodes| && nodes[p].live && Siblings(nodes, p, ds)
    requires x == p || (x in nodes[p].children && x !in ds)
    ensures Below(nodes, rank, ds, rank[p])
    ensures x !in PreorderList(nodes, rank, ds, rank[p])
  {
    forall i | 0 <= i < |ds|
      ensures ds[i] < |nodes| && rank[ds[i]] < rank[p]
    {
      var k :| 0 <= k < |nodes[p].children| && nodes[p].children[k] == ds[i];
    }
    PreorderListMember(nodes, rank, ds, rank[p], x);
    if x in PreorderList(nodes, rank, ds, rank[p]) {
      var i :| 0 <= i < |ds| && x in Preorder(nodes, rank, ds[i]);
      var k :| 0 <= k < |nodes[p].children| && nodes[p].children[k] == ds[i];
      if x == p {
        ParentOutside(nodes, rank, ds[i]);
      } else {
        var kx :| 0 <= kx < |nodes[p].children| && nodes[p].children[kx] == x;
        SelfInSub(nodes, rank, x);
        SiblingsDisjoint(nodes, rank, x, ds[i], x);
      }
      assert false;
    }
  }

  /** Cutting siblings keeps every children list in the arena ranked. */
  lemma CutRanked(nodes: seq<Node>, rank: seq<nat>, p: NodeId, ds: seq<NodeId>)
    requires Ranked(nodes, rank) && p < |nodes| && Below(nodes, rank, ds, rank[p])
    ensures Ranked(CutSiblings(nodes, rank, p, ds), rank)
  {
    var mid := nodes[p := nodes[p].(children := Without(nodes[p].children, ds))];
    assert Ranked(mid, rank) by {
      forall n, i | 0 <= n < |mid| && 0 <= i < |mid[n].children|
        ensures mid[n].children[i] < |mid| && rank[mid[n].children[i]] < rank[n]
      {
        if n == p {
          assert mid[n].children[i] in nodes[p].children;
        }
      }
    }
    KilledShape(mid, rank, PreorderList(nodes, rank, ds, rank[p]), p);
  }

  /** Cutting siblings frees nodes and changes no extras. */
  lemma CutShrunk(nodes: seq<Node>, rank: seq<nat>, p: NodeId, ds: seq<NodeId>)
    requires Ranked(nodes, rank) && p < |nodes| && Below(nodes, rank, ds, rank[p])
    ensures Shrunk(nodes, CutSiblings(nodes, rank, p, ds))
  {
  }

  /**
   * drop_node on the next sibling to drop: the sibling is still live and
   * attached to `p`, and dropping it cuts one more sibling.
   */
  lemma CutStep(nodes: seq<Node>, rank: seq<nat>, p: NodeId, ds: seq<NodeId>, d: NodeId)
    requires Valid(nodes, rank) && p < |nodes| && nodes[p].live
    requires Siblings(nodes, p, ds + [d]) && d !in ds
    ensures Below(nodes, rank, ds, rank[p]) && Below(nodes, rank, ds + [d], rank[p])
    ensures var cut := CutSiblings(nodes, rank, p, ds);
      && Ranked(cut, rank) && d < |cut| && cut[d].live && cut[d].parent == Some(p)
      && Detached(cut, rank, d) == CutSiblings(nodes, rank, p, ds + [d])
  {
    assert Siblings(nodes, p, ds) by {
      forall i | 0 <= i < |ds| ensures ds[i] in nodes[p].children { assert ds[i] == (ds + [d])[i]; }
    }
    assert d == (ds + [d])[|ds|];
    OutsideCut(nodes, rank, p, ds, p);
    OutsideCut(nodes, rank, p, ds, d);
    OutsideCut(nodes, rank, p, ds + [d], p);
    CutRanked(nodes, rank, p, ds);
    var cs := nodes[p].children;
    var k :| 0 <= k < |cs| && cs[k] == d;
    assert nodes[d].live && nodes[d].parent == Some(p);
    var cut := CutSiblings(nodes, rank, p, ds);
    var a := PreorderList(nodes, rank, ds, rank[p]);
    var b := Preorder(nodes, rank, d);
    CutDetach(nodes, rank, p, ds, d, a, b);
  }

  /** The pointwise half of CutStep. */
  lemma CutDetach(nodes: seq<Node>, rank: seq<nat>, p: NodeId, ds: seq<NodeId>, d: NodeId, a: seq<NodeId>, b: seq<NodeId>)
    requires Valid(nodes, rank) && p < |nodes| && nodes[p].live
    requires Below(nodes, rank, ds, rank[p]) && Below(nodes, rank, ds + [d], rank[p])
    requires d < |nodes| && nodes[d].live && nodes[d].parent == Some(p) && d !in ds
    requires a == PreorderList(nodes, rank, ds, rank[p]) && b == Preorder(nodes, rank, d)
    requires p !in a && d !in a && p !in PreorderList(nodes, rank, ds + [d], rank[p])
    requires Ranked(CutSiblings(nodes, rank, p, ds), rank)
    ensures Detached(CutSiblings(nodes, rank, p, ds), rank, d) == CutSiblings(nodes, rank, p, ds + [d])
  {
    var cs := nodes[p].children;
    var cut := CutSiblings(nodes, rank, p, ds);
    OrderListSnoc(nodes, rank, ds, d, rank[p]);
    ParentOutside(nodes, rank, d);
    PreorderBounds(nodes, rank, d);
    assert SameShape(nodes, cut, b);
    OrderFrame(nodes, cut, rank, rank, d);
    assert Distinct(cs) by {
      forall i, j | 0 <= i < j < |cs| ensures cs[i] != cs[j] { }
    }
    WithoutRemove(cs, ds, d);
    assert p !in b;
    assert cut[d] == nodes[d];
    var mid := cut[p := cut[p].(children := RemoveFirst(cut[p].children, d))];
    var y := nodes[p].(children := Without(cs, ds + [d]));
    assert mid[p] == y;
    assert mid == cut[p := y];
    assert Detached(cut, rank, d) == Killed(mid, b);
    KilledAround(nodes, p, nodes[p].(children := Without(cs, ds)), y, a, b);
  }

  /** Freeing two node lists one after the other, with the parent rewritten in between, is freeing both once. */
  lemma KilledAround(nodes: seq<Node>, p: NodeId, x: Node, y: Node, a: seq<NodeId>, b: seq<NodeId>)
    requires p < |nodes| && p !in a && p !in b
    ensures Killed(Killed(nodes[p := x], a)[p := y], b) == Killed(nodes[p := y], a + b)
  {
    var lhs := Killed(Killed(nodes[p := x], a)[p := y], b);
    var rhs := Killed(nodes[p := y], a + b);
    forall m | 0 <= m < |nodes|
      ensures lhs[m] == rhs[m]
    {
      assert m in a + b <==> m in a || m in b;
    }
  }

  /** In a valid arena whose live nodes hold every feature, the children of a live node are live, weighed, attached and distinct. */
  lemma ChildrenWeighed(nodes: seq<Node>, rank: seq<nat>, p: NodeId)
    requires Valid(nodes, rank) && p < |nodes| && nodes[p].live && AllLiveFeatured(nodes)
    ensures Weighed(nodes, nodes[p].children) && Distinct(nodes[p].children)
    ensures forall c :: c in nodes[p].children ==> c < |nodes| && nodes[c].live && nodes[c].parent == Some(p)
  {
    var cs := nodes[p].children;
    forall i | 0 <= i < |cs|
      ensures cs[i] < |nodes| && nodes[cs[i]].live && HasAllFeatures(nodes[cs[i]])
    {
    }
    forall i, j | 0 <= i < j < |cs|
      ensures cs[i] != cs[j]
    {
    }
  }

  lemma {:induction false} WithoutNothing(cs: seq<NodeId>)
    ensures Without(cs, []) == cs
  {
    if cs != [] {
      WithoutNothing(cs[1..]);
    }
  }

  /** Cutting no sibling changes nothing. */
  lemma CutNothing(nodes: seq<Node>, rank: seq<nat>, p: NodeId)
    requires Ranked(nodes, rank) && p < |nodes|
    ensures Below(nodes, rank, [], rank[p]) && CutSiblings(nodes, rank, p, []) == nodes
  {
    WithoutNothing(nodes[p].children);
    assert nodes[p := nodes[p].(children := nodes[p].children)] == nodes;
  }

  /** CutStep at turn `k` of the drop loop over a duplicate-free list of children. */
  lemma CutLoopStep(nodes: seq<Node>, rank: seq<nat>, p: NodeId, drops: seq<NodeId>, k: nat)
    requires Valid(nodes, rank) && p < |nodes| && nodes[p].live
    requires Siblings(nodes, p, drops) && Distinct(drops) && k < |drops|
    ensures Below(nodes, rank, drops[..k], rank[p]) && Below(nodes, rank, drops[..k + 1], rank[p])
    ensures var cut := CutSiblings(nodes, rank, p, drops[..k]);
      && Ranked(cut, rank) && drops[k] < |cut| && cut[drops[k]].live && cut[drops[k]].parent == Some(p)
      && Detached(cut, rank, drops[k]) == CutSiblings(nodes, rank, p, drops[..k + 1])
  {
    var ds := drops[..k];
    assert drops[..k + 1] == ds + [drops[k]];
    assert Siblings(nodes, p, ds + [drops[k]]) by {
      forall i | 0 <= i < k + 1
        ensures (ds + [drops[k]])[i] in nodes[p].children
      {
        assert (ds + [drops[k]])[i] == drops[i];
      }
    }
    assert drops[k] !in ds;
    CutStep(nodes, rank, p, ds, drops[k]);
  }

  // ---------------------------------------------------------------------
  // The best candidate and the body get_body chooses
  // ---------------------------------------------------------------------

  /**
   * max_element with comparer over the first `n` candidates: the index of
   * the first one of greatest BASIC_WEIGHT (a later one replaces it only
   * when strictly heavier).
   */
  function FirstBest(nodes: seq<Node>, cands: seq<NodeId>, n: nat): (at: nat)
    requires 0 < n <= |cands| && Weighed(nodes, cands)
    ensures at < n
    ensures forall i :: 0 <= i < n ==> !Comparer(nodes[cands[at]], nodes[cands[i]])
    ensures forall i :: 0 <= i < at ==> Comparer(nodes[cands[i]], nodes[cands[at]])
    decreases n
  {
    if n == 1 then 0
    else
      var b := FirstBest(nodes, cands, n - 1);
      if Comparer(nodes[cands[b]], nodes[cands[n - 1]]) then n - 1 else b
  }

  /** No candidate outweighs it and every earlier one is lighter: only the first best index is both. */
  lemma FirstBestUnique(nodes: seq<Node>, cands: seq<NodeId>, at: nat)
    requires 0 < |cands| && Weighed(nodes, cands) && at < |cands|
    requires forall i :: 0 <= i < |cands| ==> !Comparer(nodes[cands[at]], nodes[cands[i]])
    requires forall i :: 0 <= i < at ==> Comparer(nodes[cands[i]], nodes[cands[at]])
    ensures at == FirstBest(nodes, cands, |cands|)
  {
    var b := FirstBest(nodes, cands, |cands|);
    assert !Comparer(nodes[cands[at]], nodes[cands[b]]);
    assert !Comparer(nodes[cands[b]], nodes[cands[at]]);
  }

  /**
   * What get_body leaves, from arena `n0` to arena `n1` with body `body`.
   * Without a parent, `best` is the body and nothing changes. Otherwise the
   * siblings of `best` are marked, the failing ones are cut, and `body` is
   * `best` when it is the only child left, else the parent.
   */
  ghost predicate GotBody(cfg: Config, atoms: seq<Atom>, best: NodeId, n0: seq<Node>, n1: seq<Node>, rank: seq<nat>, body: NodeId)
    requires Valid(n0, rank) && AllLiveFeatured(n0) && best < |n0| && n0[best].live
  {
    match n0[best].parent
    case None => body == best && n1 == n0
    case Some(p) =>
      ChildrenWeighed(n0, rank, p);
      var cs := n0[p].children;
      var marked := MarkedAll(cfg, best, n0, cs);
      var drops := Dropping(cfg, atoms, best, n0, cs);
      && Ranked(marked, rank) && Below(marked, rank, drops, rank[p])
      && n1 == CutSiblings(marked, rank, p, drops)
      && n1[p].children == Passing(cfg, atoms, best, n0, cs)
      && body == (if |n1[p].children| == 1 then best else p)
  }

  /** The body and the arena GotBody leaves are the ones ChosenBody and BodyArena name. */
  lemma GotBodyChosen(cfg: Config, atoms: seq<Atom>, best: NodeId, n0: seq<Node>, n1: seq<Node>, rank: seq<nat>, body: NodeId)
    requires Valid(n0, rank) && AllLiveFeatured(n0) && best < |n0| && n0[best].live
    requires GotBody(cfg, atoms, best, n0, n1, rank, body)
    ensures body == ChosenBody(cfg, atoms, best, n0, rank)
    ensures n1 == BodyArena(cfg, atoms, best, n0, rank)
  {
  }

  /** Marking changes no children list: the marked arena stays ranked, and the siblings to drop lie below their parent. */
  lemma MarkedCuttable(cfg: Config, atoms: seq<Atom>, best: NodeId, nodes: seq<Node>, rank: seq<nat>, p: NodeId)
    requires Ranked(nodes, rank) && AllLiveFeatured(nodes) && p < |nodes| && Weighed(nodes, nodes[p].children)
    ensures var cs := nodes[p].children;
      var marked := MarkedAll(cfg, best, nodes, cs);
      Ranked(marked, rank) && Below(marked, rank, Dropping(cfg, atoms, best, nodes, cs), rank[p])
  {
    var cs := nodes[p].children;
    var marked := MarkedAll(cfg, best, nodes, cs);
    MarkedAllShape(cfg, best, nodes, cs);
    forall m | 0 <= m < |marked|
      ensures marked[m].children == nodes[m].children
    {
      assert marked[m].(extras := nodes[m].extras) == nodes[m];
    }
    var drops := Dropping(cfg, atoms, best, nodes, cs);
    forall i | 0 <= i < |drops|
      ensures drops[i] < |marked| && rank[drops[i]] < rank[p]
    {
      assert drops[i] in drops;
    }
  }

  /**
   * The arena get_body leaves around `best`: the same arena when `best`
   * has no parent; otherwise the siblings marked, and the failing ones cut
   * from the parent with their subtrees freed.
   */
  ghost function BodyArena(cfg: Config, atoms: seq<Atom>, best: NodeId, nodes: seq<Node>, rank: seq<nat>): (r: seq<Node>)
    requires Valid(nodes, rank) && AllLiveFeatured(nodes) && best < |nodes| && nodes[best].live
    ensures |r| == |nodes|
  {
    match nodes[best].parent
    case None => nodes
    case Some(p) =>
      ChildrenWeighed(nodes, rank, p);
      MarkedCuttable(cfg, atoms, best, nodes, rank, p);
      var cs := nodes[p].children;
      CutSiblings(MarkedAll(cfg, best, nodes, cs), rank, p, Dropping(cfg, atoms, best, nodes, cs))
  }

  /** The arena get_body leaves stays ranked, and its parent keeps exactly the children that are not dropped. */
  lemma BodyArenaShape(cfg: Config, atoms: seq<Atom>, best: NodeId, nodes: seq<Node>, rank: seq<nat>)
    requires Valid(nodes, rank) && AllLiveFeatured(nodes) && best < |nodes| && nodes[best].live
    ensures Ranked(BodyArena(cfg, atoms, best, nodes, rank), rank)
    ensures nodes[best].parent.None? ==> BodyArena(cfg, atoms, best, nodes, rank) == nodes
    ensures nodes[best].parent.Some? ==> var p := nodes[best].parent.value;
      Weighed(nodes, nodes[p].children) &&
      BodyArena(cfg, atoms, best, nodes, rank)[p].children == Without(nodes[p].children, Dropping(cfg, atoms, best, nodes, nodes[p].children))
  {
    match nodes[best].parent
    case None =>
    case Some(p) =>
      ChildrenWeighed(nodes, rank, p);
      var cs := nodes[p].children;
      MarkedCuttable(cfg, atoms, best, nodes, rank, p);
      var marked := MarkedAll(cfg, best, nodes, cs);
      var drops := Dropping(cfg, atoms, best, nodes, cs);
      CutRanked(marked, rank, p, drops);
      MarkedAllShape(cfg, best, nodes, cs);
      assert marked[p].(extras := nodes[p].extras) == nodes[p];
  }

  /**
   * The body get_body chooses around `best`: `best` itself when it has no
   * parent; otherwise, once the failing siblings are dropped, `best` when
   * it is the only child left of its parent, and the parent when it is not.
   */
  ghost function ChosenBody(cfg: Config, atoms: seq<Atom>, best: NodeId, nodes: seq<Node>, rank: seq<nat>): (b: NodeId)
    requires Valid(nodes, rank) && AllLiveFeatured(nodes) && best < |nodes| && nodes[best].live
    ensures b < |nodes| && nodes[b].live
    ensures b == best || nodes[best].parent == Some(b)
    ensures nodes[best].parent.None? ==> b == best
  {
    match nodes[best].parent
    case None => best
    case Some(p) =>
      ChildrenWeighed(nodes, rank, p);
      if |Passing(cfg, atoms, best, nodes, nodes[p].children)| == 1 then best else p
  }
}
