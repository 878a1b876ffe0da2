/**
 * What `extract` does with the candidates once the extraction walk has
 * collected them (body_extractor.cpp:204-229, 439-473): the promotion of
 * parents and grandparents, the scoring of every listed node, and the choice
 * of the first best one; all as functions of the arena and the list.
 */
module Candidates {
  import opened Wrappers
  import opened DomModel
  import opened BodyFeatures

  // ---------------------------------------------------------------------
  // select_ancestor_nodes
  // ---------------------------------------------------------------------

  /** The arena and the candidate list, which select_ancestor_nodes updates together. */
  datatype Selection = Selection(nodes: seq<Node>, cands: seq<NodeId>)

  /** The parent of `c`, when it has one (in a valid arena it is always inside the arena). */
  function ParentOf(nodes: seq<Node>, c: NodeId): (r: Option<NodeId>)
    ensures r.Some? ==> r.value < |nodes|
  {
    if c < |nodes| && nodes[c].parent.Some? && nodes[c].parent.value < |nodes| then nodes[c].parent else None
  }

  /** add_candidate: writes the source of the candidate and appends it. */
  function Promote(s: Selection, x: NodeId, source: real): (r: Selection)
    requires x < |s.nodes|
  {
    Selection(s.nodes[x := WithExtra(s.nodes[x], CandidateSource, source)], s.cands + [x])
  }

  /**
   * select_ancestor_nodes for candidate `c`, as written: the parent is added
   * (source 1) when parent inclusion is on and it is not yet listed; the
   * grandparent is added (source 2) when grandparent inclusion is on and
   * the PARENT is not listed by then.
   */
  function SelectStep(cfg: Config, s: Selection, c: NodeId): Selection {
    var parent := ParentOf(s.nodes, c);
    var a := if cfg.includeParent && parent.Some? && parent.value !in s.cands then Promote(s, parent.value, 1.0) else s;
    if cfg.includeGrandParent && parent.Some? && |a.nodes| == |s.nodes| &&
       ParentOf(a.nodes, parent.value).Some? && parent.value !in a.cands
    then Promote(a, ParentOf(a.nodes, parent.value).value, 2.0)
    else a
  }

  /** The selection once the first `k` of the original candidates `orig` were promoted. */
  function Selected(cfg: Config, nodes: seq<Node>, orig: seq<NodeId>, k: nat): Selection
    requires k <= |orig|
  {
    if k == 0 then Selection(nodes, orig)
    else SelectStep(cfg, Selected(cfg, nodes, orig, k - 1), orig[k - 1])
  }

  /** The node is as before, or differs only in a CANDIDATE_SOURCE it now holds. */
  predicate Retagged(before: Node, after: Node) {
    after == before ||
    (CandidateSource in after.extras && after == WithExtra(before, CandidateSource, after.extras[CandidateSource]))
  }

  /** `x` is the parent or the grandparent of `c`. */
  predicate AncestorOf(nodes: seq<Node>, c: NodeId, x: NodeId) {
    ParentOf(nodes, c) == Some(x) ||
    (ParentOf(nodes, c).Some? && ParentOf(nodes, ParentOf(nodes, c).value) == Some(x))
  }

  /** `x` is the parent or grandparent of one of the original candidates. */
  ghost predicate Promoted(nodes: seq<Node>, orig: seq<NodeId>, x: NodeId) {
    exists c :: c in orig && AncestorOf(nodes, c, x)
  }

  /** `x` is the parent of one of the original candidates. */
  ghost predicate PromotedParent(nodes: seq<Node>, orig: seq<NodeId>, x: NodeId) {
    exists c :: c in orig && ParentOf(nodes, c) == Some(x)
  }

  /**
   * Promotion keeps the original list as a prefix, touches no node beyond
   * its CANDIDATE_SOURCE, and appends only parents and grandparents of the
   * original candidates.
   */
  ghost predicate Extends(nodes: seq<Node>, orig: seq<NodeId>, s: Selection) {
    && |s.nodes| == |nodes|
    && |orig| <= |s.cands| && s.cands[..|orig|] == orig
    && (forall m :: 0 <= m < |nodes| ==> Retagged(nodes[m], s.nodes[m]))
    && (forall i :: |orig| <= i < |s.cands| ==> Promoted(nodes, orig, s.cands[i]))
  }

  lemma RetaggedParents(nodes: seq<Node>, after: seq<Node>, x: NodeId)
    requires |after| == |nodes| && forall m :: 0 <= m < |nodes| ==> Retagged(nodes[m], after[m])
    ensures ParentOf(after, x) == ParentOf(nodes, x)
  {
    if x < |nodes| {
      assert Retagged(nodes[x], after[x]);
    }
  }

  lemma RetaggedWrite(before: Node, mid: Node, source: real)
    requires Retagged(before, mid)
    ensures Retagged(before, WithExtra(mid, CandidateSource, source))
  {
    if mid != before {
      assert mid.extras == before.extras[CandidateSource := mid.extras[CandidateSource]];
      assert WithExtra(mid, CandidateSource, source).extras == before.extras[CandidateSource := source];
    }
  }

  /** One step of promotion keeps the shape of Extends. */
  lemma SelectStepExtends(cfg: Config, nodes: seq<Node>, orig: seq<NodeId>, s: Selection, c: NodeId)
    requires Extends(nodes, orig, s) && c in orig
    ensures Extends(nodes, orig, SelectStep(cfg, s, c))
  {
    var parent := ParentOf(s.nodes, c);
    RetaggedParents(nodes, s.nodes, c);
    var a := if cfg.includeParent && parent.Some? && parent.value !in s.cands then Promote(s, parent.value, 1.0) else s;
    if a != s {
      PromoteExtends(nodes, orig, s, parent.value, 1.0);
      assert AncestorOf(nodes, c, parent.value);
    }
    var r := SelectStep(cfg, s, c);
    if r != a {
      var g := ParentOf(a.nodes, parent.value).value;
      RetaggedParents(nodes, a.nodes, parent.value);
      PromoteExtends(nodes, orig, a, g, 2.0);
      assert AncestorOf(nodes, c, g);
    }
  }

  lemma PromoteExtends(nodes: seq<Node>, orig: seq<NodeId>, s: Selection, x: NodeId, source: real)
    requires Extends(nodes, orig, s) && x < |s.nodes| && Promoted(nodes, orig, x)
    ensures Extends(nodes, orig, Promote(s, x, source))
  {
    var r := Promote(s, x, source);
    assert r.cands[..|orig|] == s.cands[..|orig|];
    forall m | 0 <= m < |nodes|
      ensures Retagged(nodes[m], r.nodes[m])
    {
      if m == x {
        RetaggedWrite(nodes[m], s.nodes[m], source);
      }
    }
    forall i | |orig| <= i < |r.cands|
      ensures Promoted(nodes, orig, r.cands[i])
    {
      if i < |s.cands| {
        assert r.cands[i] == s.cands[i];
      }
    }
  }

  /** The whole promotion loop keeps Extends. */
  lemma {:induction false} SelectedExtends(cfg: Config, nodes: seq<Node>, orig: seq<NodeId>, k: nat)
    requires k <= |orig|
    ensures Extends(nodes, orig, Selected(cfg, nodes, orig, k))
  {
    if k == 0 {
      assert orig[..|orig|] == orig;
    } else {
      SelectedExtends(cfg, nodes, orig, k - 1);
      SelectStepExtends(cfg, nodes, orig, Selected(cfg, nodes, orig, k - 1), orig[k - 1]);
    }
  }

  /** Turn `i` of the promotion loop reads the `i`-th original candidate, still live, and promotes its ancestors. */
  lemma SelectTurn(cfg: Config, nodes: seq<Node>, orig: seq<NodeId>, i: nat)
    requires i < |orig| && forall c :: c in orig ==> c < |nodes| && nodes[c].live
    ensures var s := Selected(cfg, nodes, orig, i);
      && i < |s.cands| && s.cands[i] == orig[i]
      && orig[i] < |s.nodes| && s.nodes[orig[i]].live
      && SelectStep(cfg, s, orig[i]) == Selected(cfg, nodes, orig, i + 1)
  {
    var s := Selected(cfg, nodes, orig, i);
    SelectedExtends(cfg, nodes, orig, i);
    assert s.cands[..|orig|][i] == s.cands[i];
    assert orig[i] in orig;
    assert Retagged(nodes[orig[i]], s.nodes[orig[i]]);
  }

  /**
   * With parent inclusion on, the grandparent guard never passes: the
   * parent is listed by the time it is tested, so one step adds the parent
   * when it is missing and nothing else.
   */
  lemma ParentInclusionStep(cfg: Config, s: Selection, c: NodeId)
    requires cfg.includeParent
    ensures var parent := ParentOf(s.nodes, c);
      SelectStep(cfg, s, c).cands ==
        s.cands + (if parent.Some? && parent.value !in s.cands then [parent.value] else [])
  {
  }

  /** With parent inclusion on, only parents of the original candidates are ever added. */
  lemma {:induction false} ParentInclusionParents(cfg: Config, nodes: seq<Node>, orig: seq<NodeId>, k: nat)
    requires cfg.includeParent && k <= |orig|
    ensures var s := Selected(cfg, nodes, orig, k);
      forall i :: |orig| <= i < |s.cands| ==> PromotedParent(nodes, orig, s.cands[i])
  {
    if k > 0 {
      ParentInclusionParents(cfg, nodes, orig, k - 1);
      ParentInclusionTurn(cfg, nodes, orig, k - 1);
    }
  }

  /** The step of ParentInclusionParents: promoting the ancestors of candidate `j` adds only its parent. */
  lemma ParentInclusionTurn(cfg: Config, nodes: seq<Node>, orig: seq<NodeId>, j: nat)
    requires cfg.includeParent && j < |orig|
    requires forall i :: |orig| <= i < |Selected(cfg, nodes, orig, j).cands| ==>
      PromotedParent(nodes, orig, Selected(cfg, nodes, orig, j).cands[i])
    ensures var r := Selected(cfg, nodes, orig, j + 1);
      forall i :: |orig| <= i < |r.cands| ==> PromotedParent(nodes, orig, r.cands[i])
  {
    var s := Selected(cfg, nodes, orig, j);
    var c := orig[j];
    assert c in orig;
    ParentInclusionStep(cfg, s, c);
    SelectedExtends(cfg, nodes, orig, j);
    RetaggedParents(nodes, s.nodes, c);
    var r := Selected(cfg, nodes, orig, j + 1);
    assert r == SelectStep(cfg, s, c);
    forall i | |orig| <= i < |r.cands|
      ensures PromotedParent(nodes, orig, r.cands[i])
    {
      if i < |s.cands| {
        assert r.cands[i] == s.cands[i];
        assert PromotedParent(nodes, orig, s.cands[i]);
      } else {
        var parent := ParentOf(s.nodes, c);
        assert parent.Some? && r.cands == s.cands + [parent.value];
        assert r.cands[i] == parent.value;
        assert c in orig && ParentOf(nodes, c) == Some(r.cands[i]);
        assert PromotedParent(nodes, orig, r.cands[i]);
      }
    }
  }

  /** With parent inclusion on, a list without duplicates stays without duplicates. */
  lemma {:induction false} ParentInclusionDistinct(cfg: Config, nodes: seq<Node>, orig: seq<NodeId>, k: nat)
    requires cfg.includeParent && k <= |orig|
    requires forall i, j :: 0 <= i < j < |orig| ==> orig[i] != orig[j]
    ensures var s := Selected(cfg, nodes, orig, k);
      forall i, j :: 0 <= i < j < |s.cands| ==> s.cands[i] != s.cands[j]
  {
    if k > 0 {
      ParentInclusionDistinct(cfg, nodes, orig, k - 1);
      var s := Selected(cfg, nodes, orig, k - 1);
      assert var s' := Selected(cfg, nodes, orig, k - 1); forall i, j :: 0 <= i < j < |s'.cands| ==> s'.cands[i] != s'.cands[j];
      var parent := ParentOf(s.nodes, orig[k - 1]);
      ParentInclusionStep(cfg, s, orig[k - 1]);
      var r := Selected(cfg, nodes, orig, k);
      if parent.Some? && parent.value !in s.cands {
        assert r.cands == s.cands + [parent.value];
        forall i, j | 0 <= i < j < |r.cands|
          ensures r.cands[i] != r.cands[j]
        {
          if j == |s.cands| {
            assert r.cands[i] == s.cands[i] && s.cands[i] in s.cands;
          } else {
            assert r.cands[i] == s.cands[i] && r.cands[j] == s.cands[j];
          }
        }
      } else {
        assert r.cands == s.cands;
      }
    }
  }

  /** In a valid arena, every promoted node of live candidates is live. */
  lemma PromotedLive(nodes: seq<Node>, rank: seq<nat>, orig: seq<NodeId>, x: NodeId)
    requires Valid(nodes, rank) && Promoted(nodes, orig, x)
    requires forall c :: c in orig ==> c < |nodes| && nodes[c].live
    ensures x < |nodes| && nodes[x].live
  {
    var c :| c in orig && AncestorOf(nodes, c, x);
    var p := ParentOf(nodes, c).value;
    assert nodes[p].live;
  }

  /** After promotion every listed node of live candidates is live. */
  lemma SelectedLive(cfg: Config, nodes: seq<Node>, rank: seq<nat>, orig: seq<NodeId>)
    requires Valid(nodes, rank)
    requires forall c :: c in orig ==> c < |nodes| && nodes[c].live
    ensures var s := Selected(cfg, nodes, orig, |orig|);
      forall x :: x in s.cands ==> x < |nodes| && nodes[x].live && x < |s.nodes| && s.nodes[x].live
  {
    var s := Selected(cfg, nodes, orig, |orig|);
    SelectedExtends(cfg, nodes, orig, |orig|);
    forall x | x in s.cands
      ensures x < |nodes| && nodes[x].live && x < |s.nodes| && s.nodes[x].live
    {
      var i :| 0 <= i < |s.cands| && s.cands[i] == x;
      if i < |orig| {
        assert s.cands[..|orig|][i] == x;
        assert x in orig;
      } else {
        PromotedLive(nodes, rank, orig, x);
      }
      assert Retagged(nodes[x], s.nodes[x]);
    }
  }

  // ---------------------------------------------------------------------
  // calculate_basic_score and the scoring loop of extract
  // ---------------------------------------------------------------------

  /**
   * One turn of the scoring loop: BASIC_WEIGHT becomes the score of the
   * node's current features and IS_CANDIDATE whether that score reaches the
   * threshold. (A node without every feature cannot be scored; the loop
   * never meets one.)
   */
  function Scored(cfg: Config, basic: seq<real> -> real, node: Node): Node {
    if HasAllFeatures(node) then
      var score := basic(StoredFeatures(node));
      WithExtra(WithExtra(node, BasicWeight, score), IsCandidate, Flag(score >= cfg.classifierThreshold))
    else node
  }

  /** The arena once the first `k` entries of the list were scored, in list order. */
  function ScoredUpTo(cfg: Config, basic: seq<real> -> real, nodes: seq<Node>, cands: seq<NodeId>, k: nat): (r: seq<Node>)
    requires k <= |cands|
    ensures |r| == |nodes|
  {
    if k == 0 then nodes
    else
      var prev := ScoredUpTo(cfg, basic, nodes, cands, k - 1);
      var c := cands[k - 1];
      if c < |prev| then prev[c := Scored(cfg, basic, prev[c])] else prev
  }

  /** A scored node: IS_CANDIDATE is 1 exactly when its BASIC_WEIGHT reaches the threshold, and 0 otherwise. */
  predicate ScoreConsistent(cfg: Config, node: Node) {
    HasExtra(node, BasicWeight) && HasExtra(node, IsCandidate) &&
    GetExtra(node, IsCandidate) == Flag(GetExtra(node, BasicWeight) >= cfg.classifierThreshold)
  }

  /** Scoring a node with every feature keeps its features and its shape, and makes it consistent. */
  lemma ScoredNode(cfg: Config, basic: seq<real> -> real, node: Node)
    ensures var r := Scored(cfg, basic, node);
      && r.(extras := node.extras) == node
      && (HasAllFeatures(node) ==> HasAllFeatures(r) && ScoreConsistent(cfg, r))
      && (HasAllFeatures(node) ==> GetExtra(r, BasicWeight) == basic(StoredFeatures(node)))
  {
  }

  /** The loop touches only listed nodes, only in their extras, and keeps every feature. */
  lemma {:induction false} ScoredUpToShape(cfg: Config, basic: seq<real> -> real, nodes: seq<Node>, cands: seq<NodeId>, k: nat)
    requires k <= |cands|
    requires forall i :: 0 <= i < |cands| ==> cands[i] < |nodes| && HasAllFeatures(nodes[cands[i]])
    ensures var r := ScoredUpTo(cfg, basic, nodes, cands, k);
      && (forall i :: 0 <= i < |cands| ==> HasAllFeatures(r[cands[i]]))
      && (forall m :: 0 <= m < |nodes| && m !in cands[..k] ==> r[m] == nodes[m])
      && (forall m :: 0 <= m < |nodes| ==> r[m].(extras := nodes[m].extras) == nodes[m])
  {
    if k > 0 {
      ScoredUpToShape(cfg, basic, nodes, cands, k - 1);
      var prev := ScoredUpTo(cfg, basic, nodes, cands, k - 1);
      var c := cands[k - 1];
      var r := ScoredUpTo(cfg, basic, nodes, cands, k);
      ScoredNode(cfg, basic, prev[c]);
      assert r == prev[c := Scored(cfg, basic, prev[c])];
      assert cands[..k] == cands[..k - 1] + [c];
      forall i | 0 <= i < |cands|
        ensures HasAllFeatures(r[cands[i]])
      {
        if cands[i] != c {
          assert r[cands[i]] == prev[cands[i]];
        }
      }
      forall m | 0 <= m < |nodes| && m !in cands[..k]
        ensures r[m] == nodes[m]
      {
        assert m != c && m !in cands[..k - 1];
      }
      forall m | 0 <= m < |nodes|
        ensures r[m].(extras := nodes[m].extras) == nodes[m]
      {
        if m != c {
          assert r[m] == prev[m];
        } else {
          assert r[m].(extras := nodes[m].extras) == prev[m].(extras := nodes[m].extras);
        }
      }
    }
  }

  /**
   * After the loop every listed node holds BASIC_WEIGHT and IS_CANDIDATE,
   * consistent with the threshold, whether it passed or not.
   */
  lemma {:induction false} ScoredUpToConsistent(cfg: Config, basic: seq<real> -> real, nodes: seq<Node>, cands: seq<NodeId>, k: nat)
    requires k <= |cands|
    requires forall i :: 0 <= i < |cands| ==> cands[i] < |nodes| && HasAllFeatures(nodes[cands[i]])
    ensures var r := ScoredUpTo(cfg, basic, nodes, cands, k);
      forall i :: 0 <= i < k ==> ScoreConsistent(cfg, r[cands[i]])
  {
    if k > 0 {
      ScoredUpToConsistent(cfg, basic, nodes, cands, k - 1);
      ScoredUpToShape(cfg, basic, nodes, cands, k - 1);
      var prev := ScoredUpTo(cfg, basic, nodes, cands, k - 1);
      assert forall i :: 0 <= i < k - 1 ==> ScoreConsistent(cfg, prev[cands[i]]);
      var c := cands[k - 1];
      ScoredNode(cfg, basic, prev[c]);
    }
  }

  /**
   * On a list without duplicates, each listed node ends up scored once,
   * from the features it had before the loop.
   */
  lemma {:induction false} ScoredDistinct(cfg: Config, basic: seq<real> -> real, nodes: seq<Node>, cands: seq<NodeId>, k: nat)
    requires k <= |cands|
    requires forall i :: 0 <= i < |cands| ==> cands[i] < |nodes|
    requires forall i, j :: 0 <= i < j < |cands| ==> cands[i] != cands[j]
    ensures var r := ScoredUpTo(cfg, basic, nodes, cands, k);
      forall i :: 0 <= i < |cands| ==>
        r[cands[i]] == if i < k then Scored(cfg, basic, nodes[cands[i]]) else nodes[cands[i]]
  {
    if k > 0 {
      ScoredDistinct(cfg, basic, nodes, cands, k - 1);
    }
  }

  /** Promotion only adds CANDIDATE_SOURCE, so every live node keeps every feature. */
  lemma ExtendsFeatured(nodes: seq<Node>, orig: seq<NodeId>, s: Selection)
    requires Extends(nodes, orig, s) && AllLiveFeatured(nodes)
    ensures AllLiveFeatured(s.nodes)
    ensures forall m :: 0 <= m < |nodes| ==> s.nodes[m].live == nodes[m].live
  {
    forall m | 0 <= m < |nodes|
      ensures s.nodes[m].live == nodes[m].live && (s.nodes[m].live ==> HasAllFeatures(s.nodes[m]))
    {
      assert Retagged(nodes[m], s.nodes[m]);
    }
  }

  /** After the whole promotion loop: every candidate is live and featured, and there is one exactly when the walk found one. */
  lemma SelectedFeatured(cfg: Config, nodes: seq<Node>, rank: seq<nat>, orig: seq<NodeId>)
    requires Valid(nodes, rank) && AllLiveFeatured(nodes)
    requires forall c :: c in orig ==> c < |nodes| && nodes[c].live
    ensures var s := Selected(cfg, nodes, orig, |orig|);
      && AllLiveFeatured(s.nodes)
      && (s.cands == [] <==> orig == [])
      && (forall i :: 0 <= i < |s.cands| ==>
            s.cands[i] < |s.nodes| && s.nodes[s.cands[i]].live && HasAllFeatures(s.nodes[s.cands[i]]))
  {
    var s := Selected(cfg, nodes, orig, |orig|);
    SelectedExtends(cfg, nodes, orig, |orig|);
    SelectedLive(cfg, nodes, rank, orig);
    ExtendsFeatured(nodes, orig, s);
    if orig != [] {
      assert s.cands[..|orig|] == orig;
    }
    forall i | 0 <= i < |s.cands|
      ensures s.cands[i] < |s.nodes| && s.nodes[s.cands[i]].live && HasAllFeatures(s.nodes[s.cands[i]])
    {
      var x := s.cands[i];
      assert x in s.cands;
      assert x < |s.nodes| && s.nodes[x].live;
      assert HasAllFeatures(s.nodes[x]);
    }
  }

  /** Scoring the whole list keeps every live node featured and every node's liveness. */
  lemma ScoredFeatured(cfg: Config, basic: seq<real> -> real, nodes: seq<Node>, cands: seq<NodeId>)
    requires forall i :: 0 <= i < |cands| ==> cands[i] < |nodes| && nodes[cands[i]].live && HasAllFeatures(nodes[cands[i]])
    requires AllLiveFeatured(nodes)
    ensures var r := ScoredUpTo(cfg, basic, nodes, cands, |cands|);
      && AllLiveFeatured(r)
      && (forall m :: 0 <= m < |r| ==> r[m].live == nodes[m].live)
      && (forall i :: 0 <= i < |cands| ==> r[cands[i]].live && HasAllFeatures(r[cands[i]]))
  {
    ScoredUpToShape(cfg, basic, nodes, cands, |cands|);
    var r := ScoredUpTo(cfg, basic, nodes, cands, |cands|);
    assert cands[..|cands|] == cands;
    forall i | 0 <= i < |cands|
      ensures r[cands[i]].live
    {
      assert r[cands[i]].live == nodes[cands[i]].live;
    }
    forall m | 0 <= m < |r| && r[m].live
      ensures HasAllFeatures(r[m])
    {
      assert r[m].live == nodes[m].live;
      if m in cands {
        var i :| 0 <= i < |cands| && cands[i] == m;
      }
    }
  }

  /** ScoredUpToShape at one listed node: it keeps its liveness and its features partway through the loop. */
  /** Turn `i` of the scoring loop: the `i`-th listed node is still as live and featured as before, and scoring it gives the next arena. */
  lemma ScoreTurn(cfg: Config, basic: seq<real> -> real, nodes: seq<Node>, cands: seq<NodeId>, i: nat)
    requires i < |cands|
    requires forall j :: 0 <= j < |cands| ==> cands[j] < |nodes| && HasAllFeatures(nodes[cands[j]])
    ensures var r := ScoredUpTo(cfg, basic, nodes, cands, i);
      var c := cands[i];
      && c < |r| && r[c].live == nodes[c].live && HasAllFeatures(r[c])
      && r[c := Scored(cfg, basic, r[c])] == ScoredUpTo(cfg, basic, nodes, cands, i + 1)
  {
    ScoredUpToAt(cfg, basic, nodes, cands, i, i);
  }

  lemma ScoredUpToAt(cfg: Config, basic: seq<real> -> real, nodes: seq<Node>, cands: seq<NodeId>, k: nat, i: nat)
    requires k <= |cands| && i < |cands|
    requires forall j :: 0 <= j < |cands| ==> cands[j] < |nodes| && HasAllFeatures(nodes[cands[j]])
    ensures var r := ScoredUpTo(cfg, basic, nodes, cands, k);
      r[cands[i]].live == nodes[cands[i]].live && HasAllFeatures(r[cands[i]])
  {
    ScoredUpToShape(cfg, basic, nodes, cands, k);
    var r := ScoredUpTo(cfg, basic, nodes, cands, k);
    assert r[cands[i]].(extras := nodes[cands[i]].extras) == nodes[cands[i]];
  }
}
