/**
 * The body extractor (body_extractor.cpp): the visitors that drop
 * negative nodes, extract features and collect candidates in post-order,
 * and drop the nodes the sanitize classifier accepts in pre-order; the
 * selection of ancestor candidates, their scoring, the choice of the best
 * candidate, the pruning of its siblings, and `extract`, which chains them.
 *
 * The traversals of dom_tree.cpp are written here once per visitor: the
 * visitor's callbacks are inlined into the walk (there is no virtual
 * dispatch), and the walk keeps the source's child loop, whose index stays
 * put when a child was dropped.
 */
module BodyExtraction {
  import opened Wrappers
  import opened Utils
  import opened DomModel
  import opened DomTree
  import opened BodyFeatures
  import opened Pruning
  import opened BooleanClassifier
  import opened Candidates
  import opened SiblingPruning

  /**
   * What extract leaves: no body (no candidate, or post validation
   * failed); a body node still in the tree; a body node the sanitize walk
   * itself dropped, which the source returns after freeing it; or a crash,
   * where drop_node is asked to drop a node without a parent.
   */
  datatype Outcome = NoBody | Body(id: NodeId) | Dangling(id: NodeId) | Crash

  /**
   * What the sanitize walk and post_validate make of the chosen body:
   * kept when the sanitize classifier rejects it; otherwise drop_node
   * crashes on a body without a parent and frees one with a parent.
   */
  function Verdict(atoms: seq<Atom>, body: NodeId, node: Node): (r: Outcome)
    ensures r.Body? <==> !Drops(Sanitizing(atoms), node)
    ensures r == Crash <==> Drops(Sanitizing(atoms), node) && node.parent.None?
    ensures r != NoBody && (r.Body? || r.Dangling? ==> r.id == body)
  {
    if !Drops(Sanitizing(atoms), node) then Body(body)
    else if node.parent.None? then Crash
    else Dangling(body)
  }

  /**
   * The tail of extract on the scored candidates: the first best one, the
   * body get_body chooses around it, and the sanitize verdict on that body
   * as it stood before get_body (which touches neither its parent nor its
   * features).
   */
  ghost function Picked(cfg: Config, sanitize: seq<Atom>, sibling: seq<Atom>,
                        nodes: seq<Node>, rank: seq<nat>, cands: seq<NodeId>): (r: Outcome)
    requires Valid(nodes, rank) && AllLiveFeatured(nodes) && |cands| > 0
    requires forall i :: 0 <= i < |cands| ==> cands[i] < |nodes| && nodes[cands[i]].live
    ensures r != NoBody
    ensures var best := cands[FirstBest(nodes, cands, |cands|)];
      r.Body? || r.Dangling? ==> r.id == best || nodes[best].parent == Some(r.id)
  {
    var best := cands[FirstBest(nodes, cands, |cands|)];
    var body := ChosenBody(cfg, sibling, best, nodes, rank);
    Verdict(sanitize, body, nodes[body])
  }

  /**
   * The tree extract leaves with the body Picked returns: get_body's cut
   * around the first best candidate, then the sanitize walk from the body.
   */
  ghost function PickedArena(cfg: Config, sanitize: seq<Atom>, sibling: seq<Atom>,
                             nodes: seq<Node>, rank: seq<nat>, cands: seq<NodeId>): (r: seq<Node>)
    requires Valid(nodes, rank) && AllLiveFeatured(nodes) && |cands| > 0
    requires forall i :: 0 <= i < |cands| ==> cands[i] < |nodes| && nodes[cands[i]].live
    ensures |r| == |nodes|
  {
    var best := cands[FirstBest(nodes, cands, |cands|)];
    var body := ChosenBody(cfg, sibling, best, nodes, rank);
    BodyArenaShape(cfg, sibling, best, nodes, rank);
    Walked(BodyArena(cfg, sibling, best, nodes, rank), rank, Sanitizing(sanitize), body)
  }

  /**
   * The steps of extract's tail compose to Picked and PickedArena: the
   * first best index, a run of get_body from `nodes` to `n2`, and the
   * sanitize verdict on the body in `n2`, which leaves `n3` when it keeps it.
   */
  lemma PickedSteps(cfg: Config, sanitize: seq<Atom>, sibling: seq<Atom>, nodes: seq<Node>, rank: seq<nat>,
                    cands: seq<NodeId>, at: nat, n2: seq<Node>, body: NodeId, n3: seq<Node>, r: Outcome)
    requires Valid(nodes, rank) && AllLiveFeatured(nodes) && |cands| > 0
    requires forall i :: 0 <= i < |cands| ==> cands[i] < |nodes| && nodes[cands[i]].live
    requires at == FirstBest(nodes, cands, |cands|)
    requires GotBody(cfg, sibling, cands[at], nodes, n2, rank, body)
    requires body < |n2| && n2[body].parent == nodes[body].parent && n2[body].extras == nodes[body].extras
    requires r == Crash <==> n2[body].parent.None? && Drops(Sanitizing(sanitize), n2[body])
    requires r == Dangling(body) <==> n2[body].parent.Some? && Drops(Sanitizing(sanitize), n2[body])
    requires r == Body(body) <==> !Drops(Sanitizing(sanitize), n2[body])
    requires Ranked(n2, rank) && (r.Body? ==> n3 == Walked(n2, rank, Sanitizing(sanitize), body))
    ensures r == Picked(cfg, sanitize, sibling, nodes, rank, cands)
    ensures r.Body? ==> n3 == PickedArena(cfg, sanitize, sibling, nodes, rank, cands)
  {
    GotBodyChosen(cfg, sibling, cands[at], nodes, n2, rank, body);
    assert Drops(Sanitizing(sanitize), n2[body]) == Drops(Sanitizing(sanitize), nodes[body]);
  }

  class BodyExtractor {
    /** The "bodyExtractor" section of the configuration. */
    const config: Config
    /** _sanitize_classifier and _sibling_classifier. */
    const sanitizer: BooleanClassifier
    const sibling: BooleanClassifier
    /**
     * calculate_basic_score before the threshold test: the linear
     * classifier's score of the 19 features, scaled by
     * (1 - LINK_NODE_DENSITY) / sqrt(CANDIDATE_SOURCE + 1).
     */
    const basicScore: seq<real> -> real

    /** What a successful init leaves: a consistent configuration and both expressions compiled against the feature names. */
    ghost predicate Ready()
      reads this, sanitizer, sibling
    {
      ConfigValid(config) &&
      WellFormed(sanitizer.expression, FeatureNames) &&
      WellFormed(sibling.expression, FeatureNames)
    }

    constructor (config: Config, sanitizer: BooleanClassifier,
                 sibling: BooleanClassifier, basicScore: seq<real> -> real)
      ensures this.config == config && this.sanitizer == sanitizer && this.sibling == sibling
      ensures this.basicScore == basicScore
    {
      this.config := config;
      this.sanitizer := sanitizer;
      this.sibling := sibling;
      this.basicScore := basicScore;
    }

    // -------------------------------------------------------------------
    // The extraction visitor
    // -------------------------------------------------------------------

    /** The negative-class-or-id test on one attribute, as drop_negative_node writes it. */
    method NegativeAttributeTest(a: Option<string>) returns (hit: bool)
      ensures hit == NegativeAttribute(config, a)
    {
      hit := false;
      if a.Some? {
        var negative := MatchList(a.value, config.negativeClassIds, 2);
        if negative >= 0 {
          var positive := MatchList(a.value, config.positiveClassIds, 2);
          var negated := if positive == 0 then 1 else 0;
          hit := negated >= 0;
        }
      }
    }

    /**
     * drop_negative_node: drops the node when it is negative and says so.
     * The source would dereference a missing parent, so a negative node
     * must have one.
     */
    method DropNegativeNode(dom: Dom, n: NodeId) returns (dropped: bool)
      requires dom.Valid() && n < |dom.nodes| && dom.nodes[n].live
      requires dom.nodes[n].parent.Some? || !IsNegative(config, dom.nodes[n])
      modifies dom
      ensures dom.Valid() && dom.rank == old(dom.rank)
      ensures dropped == IsNegative(config, old(dom.nodes)[n])
      ensures dropped ==> dom.nodes == Detached(old(dom.nodes), dom.rank, n)
      ensures !dropped ==> dom.nodes == old(dom.nodes)
    {
      var node := dom.nodes[n];
      dropped := false;
      var tagHit := -1;
      if config.negativeTagsEnabled {
        tagHit := MatchList(node.tag, config.negativeTags, 1);
      }
      if config.negativeTagsEnabled && tagHit >= 0 {
        dropped := true;
      } else if config.negativeClassIdsEnabled {
        dropped := NegativeAttributeTest(GetAttribute(node, "class"));
        if !dropped {
          dropped := NegativeAttributeTest(GetAttribute(node, "id"));
        }
      }
      if dropped {
        var _ := dom.DropNode(n);
      }
    }

    /** The loop of extract_features over the current children, summing their stored aggregates. */
    method SumChildren(dom: Dom, cs: seq<NodeId>) returns (sums: Aggregate)
      requires forall i :: 0 <= i < |cs| ==> cs[i] < |dom.nodes| && HasAggregates(dom.nodes[cs[i]])
      ensures sums == ChildSums(dom.nodes, cs)
    {
      sums := NoChildren;
      var i := 0;
      while i < |cs|
        invariant 0 <= i <= |cs|
        invariant Plus(sums, ChildSums(dom.nodes, cs[i..])) == ChildSums(dom.nodes, cs)
      {
        var child := dom.nodes[cs[i]];
        sums := Plus(sums, Aggregate(GetExtra(child, TextLength), GetExtra(child, CommaCount),
                                     GetExtra(child, LinkLength), GetExtra(child, NodeCount),
                                     GetExtra(child, LinkCount)));
        assert cs[i..][1..] == cs[i + 1..];
        i := i + 1;
      }
      assert cs[i..] == [];
    }

    /** The last loop of extract_features: one set_extra per feature id, in id order. */
    method StoreFeatures(dom: Dom, n: NodeId, v: seq<real>)
      requires dom.Valid() && n < |dom.nodes| && dom.nodes[n].live && |v| == FeatureCount
      modifies dom
      ensures dom.Valid() && dom.rank == old(dom.rank)
      ensures dom.nodes == old(dom.nodes)[n := old(dom.nodes)[n].(extras := old(dom.nodes)[n].extras + FeatureMap(v))]
    {
      ghost var n0 := dom.nodes;
      ghost var node := dom.nodes[n];
      var k := 0;
      assert node.extras + FeatureMap(v[..0]) == node.extras;
      assert n0[n := node] == n0;
      while k < FeatureCount
        invariant 0 <= k <= FeatureCount
        invariant dom.Valid() && dom.rank == old(dom.rank)
        invariant dom.nodes == n0[n := node.(extras := node.extras + FeatureMap(v[..k]))]
      {
        dom.SetExtra(n, k, v[k]);
        FeatureMapStep(node.extras, v, k);
        k := k + 1;
      }
      assert v[..k] == v;
    }

    /**
     * extract_features: sums the five aggregated features stored on the
     * current children, computes the node's 19 features from them and from
     * the node itself, and stores each one in the node's extras.
     */
    method ExtractNodeFeatures(dom: Dom, n: NodeId)
      requires Ready() && dom.Valid() && n < |dom.nodes| && dom.nodes[n].live
      requires forall i :: 0 <= i < |dom.nodes[n].children| ==> HasAggregates(dom.nodes[dom.nodes[n].children[i]])
      modifies dom
      ensures dom.Valid() && dom.rank == old(dom.rank)
      ensures var node := old(dom.nodes)[n];
        dom.nodes == old(dom.nodes)[n := node.(extras := node.extras +
          FeatureMap(FeatureVector(config, node, |node.children|, ChildSums(old(dom.nodes), node.children))))]
    {
      var node := dom.nodes[n];
      var sums := SumChildren(dom, node.children);
      var v := FeatureVector(config, node, |node.children|, sums);
      StoreFeatures(dom, n, v);
    }

    /** add_candidate: records the source of the candidate in its extras and appends it. */
    method AddCandidate(dom: Dom, n: NodeId, source: real, candidates: seq<NodeId>) returns (out: seq<NodeId>)
      requires dom.Valid() && n < |dom.nodes| && dom.nodes[n].live
      modifies dom
      ensures dom.Valid() && dom.rank == old(dom.rank)
      ensures dom.nodes == old(dom.nodes)[n := WithExtra(old(dom.nodes)[n], CandidateSource, source)]
      ensures out == candidates + [n]
    {
      dom.SetExtra(n, CandidateSource, source);
      out := candidates + [n];
    }

    /**
     * BodyExtractorVisitor::visit: extracts the node's features and adds it
     * as its own candidate (source 0) when valid_node accepts it. Its
     * CANDIDATE_SOURCE is already 0, so adding it leaves the node as the
     * extraction made it.
     */
    method VisitExtracted(dom: Dom, n: NodeId, candidates: seq<NodeId>) returns (out: seq<NodeId>)
      requires Ready() && dom.Valid() && n < |dom.nodes| && dom.nodes[n].live
      requires forall i :: 0 <= i < |dom.nodes[n].children| ==> HasAggregates(dom.nodes[dom.nodes[n].children[i]])
      modifies dom
      ensures dom.Valid() && dom.rank == old(dom.rank)
      ensures var node := old(dom.nodes)[n];
        var v := FeatureVector(config, node, |node.children|, ChildSums(old(dom.nodes), node.children));
        && dom.nodes == old(dom.nodes)[n := node.(extras := node.extras + FeatureMap(v))]
        && out == candidates + (if IsCandidateNode(config, node.tag, v[TextLength]) then [n] else [])
    {
      ghost var node := dom.nodes[n];
      ghost var v := FeatureVector(config, node, |node.children|, ChildSums(dom.nodes, node.children));
      FeaturedNode(config, node, |node.children|, ChildSums(dom.nodes, node.children));
      ExtractNodeFeatures(dom, n);
      ghost var featured := dom.nodes;
      assert featured[n] == node.(extras := node.extras + FeatureMap(v));
      out := candidates;
      if ValidNode(config, dom.nodes[n]) {
        out := AddCandidate(dom, n, 0.0, out);
        assert dom.nodes == featured;
      }
    }

    /**
     * postorder_traverse with the extraction visitor: drops `n` when it is
     * negative; otherwise walks its children, then visits `n`. The
     * candidates grow by the valid survivors of the subtree in post-order,
     * and the arena becomes the closed form.
     */
    method ExtractionWalk(dom: Dom, n: NodeId, candidates: seq<NodeId>) returns (kept: bool, out: seq<NodeId>)
      requires Ready() && dom.Valid() && n < |dom.nodes| && dom.nodes[n].live
      requires dom.nodes[n].parent.Some? || !IsNegative(config, dom.nodes[n])
      modifies dom
      ensures dom.Valid() && dom.rank == old(dom.rank)
      ensures kept == !IsNegative(config, old(dom.nodes)[n])
      ensures !kept ==> dom.nodes == Detached(old(dom.nodes), dom.rank, n)
      ensures kept ==> dom.nodes == Walked(old(dom.nodes), dom.rank, Extraction(config), n)
      ensures out == candidates + Found(config, old(dom.nodes), dom.rank, n)
      decreases dom.rank[n], 2
    {
      ghost var n0 := dom.nodes;
      ghost var rank := dom.rank;
      ghost var pass := Extraction(config);
      var dropped := DropNegativeNode(dom, n);
      if dropped {
        assert Found(config, n0, rank, n) == [];
        return false, candidates;
      }
      kept := true;
      out := ExtractChildren(dom, n, candidates);
      ExtractEnd(config, n0, rank, n);
      PartialEnd(n0, rank, pass, n);
      ghost var last := dom.nodes;
      ghost var tail := if IsCandidateNode(config, n0[n].tag, Extracted(config, n0, rank, n)[TextLength]) then [n] else [];
      ghost var mid := out;
      out := VisitExtracted(dom, n, out);
      assert dom.nodes == last[n := Transform(pass, n0, rank, n)];
      assert out == mid + tail;
      FoundUnfold(config, n0, rank, n);
      Utils.Assoc(candidates, FoundUpTo(config, n0, rank, n, |n0[n].children|), tail);
    }

    /**
     * The child loop of postorder_traverse: walks each current child, and
     * holds the index when the child was dropped, so that no child is
     * skipped.
     */
    method ExtractChildren(dom: Dom, n: NodeId, candidates: seq<NodeId>) returns (out: seq<NodeId>)
      requires Ready() && dom.Valid() && n < |dom.nodes| && dom.nodes[n].live
      modifies dom
      ensures dom.Valid() && dom.rank == old(dom.rank)
      ensures dom.nodes == Partial(old(dom.nodes), dom.rank, Extraction(config), n, |old(dom.nodes)[n].children|)
      ensures out == candidates + FoundUpTo(config, old(dom.nodes), dom.rank, n, |old(dom.nodes)[n].children|)
      decreases dom.rank[n], 1
    {
      ghost var n0 := dom.nodes;
      ghost var rank := dom.rank;
      ghost var cs := n0[n].children;
      ghost var j: nat := 0;
      PartialStart(n0, rank, Extraction(config), n);
      assert cs[..0] == [];
      assert FoundUpTo(config, n0, rank, n, 0) == [];
      var i: nat := 0;
      out := candidates;
      while i < |dom.nodes[n].children|
        invariant dom.Valid() && dom.rank == rank
        invariant ExtractLoop(dom.nodes, n0, rank, n, j, i, candidates, out)
        decreases |cs| - j
      {
        i, out := ExtractChild(dom, n, n0, j, i, candidates, out);
        j := j + 1;
      }
      assert j == |cs|;
    }

    /**
     * Where the child loop of the extraction walk stands after `j` children
     * of `n`: the arena is the closed form so far, the index `i` has moved
     * past the kept ones, the current children are the kept ones followed by
     * the rest, and the candidates grew by what the walks collected.
     */
    ghost predicate ExtractLoop(nodes: seq<Node>, n0: seq<Node>, rank: seq<nat>, n: NodeId, j: nat, i: nat,
                                candidates: seq<NodeId>, out: seq<NodeId>)
    {
      && ConfigValid(config) && Valid(n0, rank) && n < |n0| && n0[n].live && j <= |n0[n].children|
      && nodes == Partial(n0, rank, Extraction(config), n, j)
      && i == |Kept(n0, Extraction(config), n0[n].children[..j])|
      && |nodes[n].children| == i + |n0[n].children| - j
      && out == candidates + FoundUpTo(config, n0, rank, n, j)
    }

    /** One turn of the child loop: walks child `j`, which sits at index `i`, and moves `i` on when the child stays. */
    method ExtractChild(dom: Dom, n: NodeId, ghost n0: seq<Node>, ghost j: nat, i: nat,
                        ghost candidates: seq<NodeId>, found: seq<NodeId>)
      returns (next: nat, out: seq<NodeId>)
      requires Ready() && dom.Valid() && ExtractLoop(dom.nodes, n0, dom.rank, n, j, i, candidates, found)
      requires i < |dom.nodes[n].children|
      modifies dom
      ensures dom.Valid() && dom.rank == old(dom.rank)
      ensures j < |n0[n].children| && ExtractLoop(dom.nodes, n0, dom.rank, n, j + 1, next, candidates, out)
      decreases dom.rank[n], 0
    {
      ghost var rank := dom.rank;
      ExtractTurn(config, n0, rank, n, j, candidates);
      var c := dom.nodes[n].children[i];
      assert c == n0[n].children[j] && rank[c] < rank[n];
      var childKept;
      childKept, out := ExtractionWalk(dom, c, found);
      if childKept {
        next := i + 1;
      } else {
        next := i;
      }
    }

    // -------------------------------------------------------------------
    // The sanitize visitor
    // -------------------------------------------------------------------

    /**
     * preorder_traverse with the sanitize visitor: drops `n` when the
     * sanitize classifier accepts its features; otherwise walks its
     * children. Every live node was extracted, so BASIC_WEIGHT is already
     * present and the visitor never computes it here. The walk changes
     * nothing but the tree.
     */
    method SanitizeWalk(dom: Dom, n: NodeId, ghost atoms: seq<Atom>) returns (kept: bool)
      requires Ready() && atoms == sanitizer.expression && dom.Valid() && n < |dom.nodes| && dom.nodes[n].live && AllLiveFeatured(dom.nodes)
      requires dom.nodes[n].parent.Some? || !Drops(Sanitizing(atoms), dom.nodes[n])
      modifies dom
      ensures dom.Valid() && dom.rank == old(dom.rank)
      ensures kept == !Drops(Sanitizing(atoms), old(dom.nodes)[n])
      ensures !kept ==> dom.nodes == Detached(old(dom.nodes), dom.rank, n)
      ensures kept ==> dom.nodes == Walked(old(dom.nodes), dom.rank, Sanitizing(atoms), n)
      decreases dom.rank[n], 2
    {
      ghost var n0 := dom.nodes;
      ghost var pass := Sanitizing(atoms);
      var node := dom.nodes[n];
      if !HasExtra(node, BasicWeight) {
        assert false;
      }
      NoFaultOnFeatured(sanitizer.expression, node);
      var hit := sanitizer.Classify(node.extras);
      if hit {
        var _ := dom.DropNode(n);
        return false;
      }
      kept := true;
      SanitizeChildren(dom, n, atoms);
      PartialEnd(n0, dom.rank, pass, n);
    }

    /** The child loop of preorder_traverse, holding the index when a child was dropped. */
    method SanitizeChildren(dom: Dom, n: NodeId, ghost atoms: seq<Atom>)
      requires Ready() && atoms == sanitizer.expression && dom.Valid() && n < |dom.nodes| && dom.nodes[n].live && AllLiveFeatured(dom.nodes)
      modifies dom
      ensures dom.Valid() && dom.rank == old(dom.rank)
      ensures dom.nodes == Partial(old(dom.nodes), dom.rank, Sanitizing(atoms), n, |old(dom.nodes)[n].children|)
      decreases dom.rank[n], 1
    {
      ghost var n0 := dom.nodes;
      ghost var rank := dom.rank;
      ghost var pass := Sanitizing(atoms);
      ghost var cs := n0[n].children;
      ghost var j := 0;
      PartialStart(n0, rank, pass, n);
      assert cs[..0] == [];
      var i := 0;
      while i < |dom.nodes[n].children|
        invariant dom.Valid() && dom.rank == rank && atoms == sanitizer.expression
        invariant 0 <= j <= |cs|
        invariant dom.nodes == Partial(n0, rank, pass, n, j)
        invariant i == |Kept(n0, pass, cs[..j])|
        invariant |dom.nodes[n].children| == i + |cs| - j
        decreases |cs| - j
      {
        i := SanitizeChild(dom, n, atoms, n0, j, i);
        j := j + 1;
      }
      assert j == |cs|;
    }

    /** One turn of the child loop: walks child `j`, which sits at index `i`, and moves `i` on when the child stays. */
    method SanitizeChild(dom: Dom, n: NodeId, ghost atoms: seq<Atom>, ghost n0: seq<Node>, ghost j: nat, i: nat) returns (next: nat)
      requires Ready() && atoms == sanitizer.expression && dom.Valid() && Valid(n0, dom.rank) && n < |n0| && n0[n].live && j < |n0[n].children|
      requires AllLiveFeatured(n0)
      requires dom.nodes == Partial(n0, dom.rank, Sanitizing(atoms), n, j)
      requires i == |Kept(n0, Sanitizing(atoms), n0[n].children[..j])|
      modifies dom
      ensures dom.Valid() && dom.rank == old(dom.rank)
      ensures dom.nodes == Partial(n0, dom.rank, Sanitizing(atoms), n, j + 1)
      ensures next == |Kept(n0, Sanitizing(atoms), n0[n].children[..j + 1])|
      ensures |dom.nodes[n].children| == next + |n0[n].children| - (j + 1)
      decreases dom.rank[n], 0
    {
      ghost var rank := dom.rank;
      SanitizeTurn(n0, rank, atoms, n, j);
      var c := dom.nodes[n].children[i];
      assert c == n0[n].children[j] && rank[c] < rank[n];
      var childKept := SanitizeWalk(dom, c, atoms);
      if childKept {
        next := i + 1;
      } else {
        next := i;
      }
    }

    // -------------------------------------------------------------------
    // Candidates: promotion, scoring and the best one
    // -------------------------------------------------------------------

    /** select_ancestor_nodes for candidate `c`: promotes its parent and its grandparent as SelectStep says. */
    method SelectAncestorNodes(dom: Dom, c: NodeId, candidates: seq<NodeId>) returns (out: seq<NodeId>)
      requires dom.Valid() && c < |dom.nodes| && dom.nodes[c].live
      modifies dom
      ensures dom.Valid() && dom.rank == old(dom.rank)
      ensures Selection(dom.nodes, out) == SelectStep(config, Selection(old(dom.nodes), candidates), c)
    {
      ghost var s := Selection(dom.nodes, candidates);
      var parent := dom.nodes[c].parent;
      out := candidates;
      if config.includeParent && parent.Some? && parent.value !in out {
        out := AddCandidate(dom, parent.value, 1.0, out);
      }
      ghost var a := Selection(dom.nodes, out);
      assert a == if config.includeParent && parent.Some? && parent.value !in s.cands then Promote(s, parent.value, 1.0) else s;
      if config.includeGrandParent && parent.Some? {
        var grandParent := dom.nodes[parent.value].parent;
        assert ParentOf(a.nodes, parent.value) == grandParent;
        if grandParent.Some? && parent.value !in out {
          out := AddCandidate(dom, grandParent.value, 2.0, out);
        }
      }
    }

    /**
     * The promotion loop of extract: select_ancestor_nodes for each
     * candidate the walk collected, read from the growing list by index;
     * the nodes it appends are not revisited.
     */
    method SelectAll(dom: Dom, candidates: seq<NodeId>) returns (out: seq<NodeId>)
      requires dom.Valid() && forall c :: c in candidates ==> c < |dom.nodes| && dom.nodes[c].live
      modifies dom
      ensures dom.Valid() && dom.rank == old(dom.rank)
      ensures Selection(dom.nodes, out) == Selected(config, old(dom.nodes), candidates, |candidates|)
    {
      ghost var n0 := dom.nodes;
      out := candidates;
      var i := 0;
      while i < |candidates|
        invariant 0 <= i <= |candidates|
        invariant dom.Valid() && dom.rank == old(dom.rank)
        invariant Selection(dom.nodes, out) == Selected(config, n0, candidates, i)
      {
        SelectTurn(config, n0, candidates, i);
        var c := out[i];
        out := SelectAncestorNodes(dom, c, out);
        i := i + 1;
      }
    }

    /** calculate_basic_score: reads the 19 stored features in id order, scores them and tests the threshold. */
    method CalculateBasicScore(node: Node) returns (score: real, success: bool)
      requires HasAllFeatures(node)
      ensures score == basicScore(StoredFeatures(node))
      ensures success <==> score >= config.classifierThreshold
    {
      var features: seq<real> := [];
      var j := 0;
      while j < FeatureCount
        invariant 0 <= j <= FeatureCount
        invariant features == StoredFeatures(node)[..j]
      {
        features := features + [GetExtra(node, j)];
        j := j + 1;
      }
      assert features == StoredFeatures(node);
      score := basicScore(features);
      success := score >= config.classifierThreshold;
    }

    /** One turn of the scoring loop: set_extra of the score as BASIC_WEIGHT and of its threshold test as IS_CANDIDATE. */
    method ScoreCandidate(dom: Dom, c: NodeId)
      requires dom.Valid() && c < |dom.nodes| && dom.nodes[c].live && HasAllFeatures(dom.nodes[c])
      modifies dom
      ensures dom.Valid() && dom.rank == old(dom.rank)
      ensures dom.nodes == old(dom.nodes)[c := Scored(config, basicScore, old(dom.nodes)[c])]
    {
      var score, success := CalculateBasicScore(dom.nodes[c]);
      dom.SetExtra(c, BasicWeight, score);
      dom.SetExtra(c, IsCandidate, Flag(success));
    }

    /** The scoring loop of extract: stores BASIC_WEIGHT and IS_CANDIDATE on every listed node, in list order. */
    method ScoreCandidates(dom: Dom, candidates: seq<NodeId>)
      requires dom.Valid()
      requires forall i :: 0 <= i < |candidates| ==>
        candidates[i] < |dom.nodes| && dom.nodes[candidates[i]].live && HasAllFeatures(dom.nodes[candidates[i]])
      modifies dom
      ensures dom.Valid() && dom.rank == old(dom.rank)
      ensures dom.nodes == ScoredUpTo(config, basicScore, old(dom.nodes), candidates, |candidates|)
    {
      ghost var n0 := dom.nodes;
      var i := 0;
      while i < |candidates|
        invariant 0 <= i <= |candidates|
        invariant dom.Valid() && dom.rank == old(dom.rank)
        invariant dom.nodes == ScoredUpTo(config, basicScore, n0, candidates, i)
      {
        ScoreTurn(config, basicScore, n0, candidates, i);
        ScoreCandidate(dom, candidates[i]);
        i := i + 1;
      }
    }

    /** max_element with comparer: the index of the first candidate of greatest BASIC_WEIGHT. */
    method BestCandidate(nodes: seq<Node>, candidates: seq<NodeId>) returns (at: nat)
      requires |candidates| > 0
      requires forall i :: 0 <= i < |candidates| ==> candidates[i] < |nodes| && HasExtra(nodes[candidates[i]], BasicWeight)
      ensures at < |candidates|
      ensures forall i :: 0 <= i < |candidates| ==> !Comparer(nodes[candidates[at]], nodes[candidates[i]])
      ensures forall i :: 0 <= i < at ==> Comparer(nodes[candidates[i]], nodes[candidates[at]])
      ensures at == FirstBest(nodes, candidates, |candidates|)
    {
      at := 0;
      var i := 1;
      while i < |candidates|
        invariant 1 <= i <= |candidates| && at < i
        invariant forall k :: 0 <= k < i ==> !Comparer(nodes[candidates[at]], nodes[candidates[k]])
        invariant forall k :: 0 <= k < at ==> Comparer(nodes[candidates[k]], nodes[candidates[at]])
      {
        if Comparer(nodes[candidates[at]], nodes[candidates[i]]) {
          at := i;
        }
        i := i + 1;
      }
      FirstBestUnique(nodes, candidates, at);
    }

    // -------------------------------------------------------------------
    // get_body
    // -------------------------------------------------------------------

    /** valid_paragraph_sibling: marks IS_P_TAG and HAS_BREAK_PUNC on the sibling, then asks the sibling classifier. */
    method ValidParagraphSibling(dom: Dom, c: NodeId) returns (valid: bool)
      requires Ready() && dom.Valid() && c < |dom.nodes| && dom.nodes[c].live && HasAllFeatures(dom.nodes[c])
      modifies dom
      ensures dom.Valid() && dom.rank == old(dom.rank)
      ensures dom.nodes == old(dom.nodes)[c := ParagraphMarked(config, old(dom.nodes)[c])]
      ensures valid <==> Run(sibling.expression, ParagraphMarked(config, old(dom.nodes)[c]).extras) == Value(true)
    {
      var node := dom.nodes[c];
      var breakAt := MatchList(node.text, config.paragraphBreakPunctuations, 2);
      var endAt := MatchList(node.text, config.paragraphEndPunctuations, 3);
      var found := breakAt >= 0 || endAt >= 0;
      dom.SetExtra(c, IsPTag, Flag(IsPrefix("p", node.tag)));
      dom.SetExtra(c, HasBreakPunc, Flag(found));
      ghost var marked := ParagraphMarked(config, node);
      assert dom.nodes[c] == marked;
      NoFaultOnFeatured(sibling.expression, marked);
      valid := sibling.Classify(dom.nodes[c].extras);
    }

    /** The sibling loop of get_body: tests each child of `p` in order and lists the ones that fail. */
    method MarkSiblings(dom: Dom, best: NodeId, p: NodeId, ghost atoms: seq<Atom>) returns (drops: seq<NodeId>)
      requires Ready() && atoms == sibling.expression && dom.Valid() && AllLiveFeatured(dom.nodes)
      requires p < |dom.nodes| && dom.nodes[p].live
      modifies dom
      ensures dom.Valid() && dom.rank == old(dom.rank) && AllLiveFeatured(dom.nodes)
      ensures Weighed(old(dom.nodes), old(dom.nodes)[p].children)
      ensures dom.nodes == MarkedAll(config, best, old(dom.nodes), old(dom.nodes)[p].children)
      ensures drops == Dropping(config, atoms, best, old(dom.nodes), old(dom.nodes)[p].children)
    {
      ghost var m0 := dom.nodes;
      ghost var cs := m0[p].children;
      ChildrenWeighed(m0, dom.rank, p);
      MarkedAllNone(config, best, m0);
      assert cs[..0] == [];
      drops := [];
      var i := 0;
      while i < |dom.nodes[p].children|
        invariant 0 <= i <= |cs|
        invariant dom.Valid() && dom.rank == old(dom.rank) && atoms == sibling.expression
        invariant dom.nodes == MarkedAll(config, best, m0, cs[..i])
        invariant dom.nodes[p].children == cs && AllLiveFeatured(dom.nodes)
        invariant drops == Dropping(config, atoms, best, m0, cs[..i])
        decreases |cs| - i
      {
        drops := MarkSibling(dom, best, p, atoms, m0, i, drops);
        i := i + 1;
      }
      assert cs[..i] == cs;
    }

    /** One turn of the keep-or-drop loop of get_body, on the sibling at index `i`. */
    method MarkSibling(dom: Dom, best: NodeId, p: NodeId, ghost atoms: seq<Atom>, ghost m0: seq<Node>, i: nat, drops: seq<NodeId>)
      returns (next: seq<NodeId>)
      requires Ready() && atoms == sibling.expression && dom.Valid() && AllLiveFeatured(dom.nodes)
      requires p < |m0| && i < |m0[p].children| && Weighed(m0, m0[p].children) && Distinct(m0[p].children)
      requires AllLiveFeatured(m0) && forall c :: c in m0[p].children ==> c < |m0| && m0[c].live
      requires dom.nodes == MarkedAll(config, best, m0, m0[p].children[..i])
      requires dom.nodes[p].children == m0[p].children
      requires drops == Dropping(config, atoms, best, m0, m0[p].children[..i])
      modifies dom
      ensures dom.Valid() && dom.rank == old(dom.rank) && AllLiveFeatured(dom.nodes)
      ensures dom.nodes == MarkedAll(config, best, m0, m0[p].children[..i + 1])
      ensures dom.nodes[p].children == m0[p].children
      ensures next == Dropping(config, atoms, best, m0, m0[p].children[..i + 1])
    {
      ghost var cs := m0[p].children;
      var s := dom.nodes[p].children[i];
      MarkTurn(config, atoms, best, m0, cs, i);
      var node := dom.nodes[s];
      if s == best || StrongCandidate(GetExtraDefault(node, IsCandidate, 0.0), GetExtra(node, BasicWeight)) {
        next := drops;
      } else {
        var valid := ValidParagraphSibling(dom, s);
        next := if valid then drops else drops + [s];
      }
    }

    /** The drop loop of get_body: drop_node on each listed sibling, in order. */
    method DropSiblings(dom: Dom, p: NodeId, drops: seq<NodeId>)
      requires dom.Valid() && p < |dom.nodes| && dom.nodes[p].live
      requires Siblings(dom.nodes, p, drops) && Distinct(drops)
      modifies dom
      ensures dom.Valid() && dom.rank == old(dom.rank)
      ensures Below(old(dom.nodes), dom.rank, drops, dom.rank[p])
      ensures dom.nodes == CutSiblings(old(dom.nodes), dom.rank, p, drops)
    {
      ghost var m1 := dom.nodes;
      ghost var rank := dom.rank;
      OutsideCut(m1, rank, p, drops, p);
      CutNothing(m1, rank, p);
      assert drops[..0] == [];
      var k := 0;
      while k < |drops|
        invariant 0 <= k <= |drops|
        invariant dom.Valid() && dom.rank == rank
        invariant Below(m1, rank, drops[..k], rank[p])
        invariant dom.nodes == CutSiblings(m1, rank, p, drops[..k])
      {
        CutLoopStep(m1, rank, p, drops, k);
        var _ := dom.DropNode(drops[k]);
        k := k + 1;
      }
      assert drops[..k] == drops;
    }

    /**
     * get_body: a parentless best candidate is the body. Otherwise its
     * siblings that fail the test are dropped, and the body is the only
     * child left (then the best candidate itself) or else the parent.
     */
    method GetBody(dom: Dom, best: NodeId, ghost atoms: seq<Atom>) returns (body: NodeId)
      requires Ready() && atoms == sibling.expression && dom.Valid() && AllLiveFeatured(dom.nodes)
      requires best < |dom.nodes| && dom.nodes[best].live
      modifies dom
      ensures dom.Valid() && dom.rank == old(dom.rank) && AllLiveFeatured(dom.nodes)
      ensures body < |dom.nodes| && dom.nodes[body].live
      ensures GotBody(config, atoms, best, old(dom.nodes), dom.nodes, dom.rank, body)
      ensures dom.nodes[body].parent == old(dom.nodes)[body].parent
      ensures dom.nodes[body].extras == old(dom.nodes)[body].extras
    {
      var parent := dom.nodes[best].parent;
      if parent.None? {
        return best;
      }
      var p := parent.value;
      ghost var m0 := dom.nodes;
      ghost var rank := dom.rank;
      ghost var cs := m0[p].children;
      ChildrenWeighed(m0, rank, p);
      assert best in cs;
      var drops := MarkSiblings(dom, best, p, atoms);
      ghost var m1 := dom.nodes;
      MarkedAllShape(config, best, m0, cs);
      assert m1[p].children == cs && m1[p].live;
      DroppingDistinct(config, atoms, best, m0, cs);
      assert Siblings(m1, p, drops) by {
        forall i | 0 <= i < |drops| ensures drops[i] in m1[p].children { assert drops[i] in drops; }
      }
      DropSiblings(dom, p, drops);
      CutShrunk(m1, rank, p, drops);
      ShrunkFeatured(m1, dom.nodes);
      WithoutDropping(config, atoms, best, m0, cs);
      BestSurvives(config, atoms, best, m0, cs);
      OutsideCut(m1, rank, p, drops, p);
      OutsideCut(m1, rank, p, drops, best);
      assert dom.nodes[p].children == Without(cs, drops);
      assert p !in cs && best != p;
      assert m1[p] == m0[p] && m1[best] == m0[best];
      if |dom.nodes[p].children| == 1 {
        body := dom.nodes[p].children[0];
      } else {
        body := p;
      }
    }

    // -------------------------------------------------------------------
    // extract
    // -------------------------------------------------------------------

    /** post_validate: accepts every body. */
    method PostValidate(dom: Dom, body: NodeId) returns (ok: bool)
      ensures ok
    {
      ok := true;
    }

    /**
     * The first half of extract: the extraction walk from the root, the
     * promotion loop and the scoring loop, which leave the scored list.
     */
    method Collect(dom: Dom, root: NodeId) returns (candidates: seq<NodeId>)
      requires Ready() && dom.Valid() && Document(dom.nodes, dom.rank, root) && !IsNegative(config, dom.nodes[root])
      modifies dom
      ensures dom.Valid() && dom.rank == old(dom.rank) && AllLiveFeatured(dom.nodes)
      ensures var found := Found(config, old(dom.nodes), dom.rank, root);
        var s := Selected(config, Walked(old(dom.nodes), dom.rank, Extraction(config), root), found, |found|);
        && candidates == s.cands
        && dom.nodes == ScoredUpTo(config, basicScore, s.nodes, candidates, |candidates|)
      ensures |candidates| == 0 <==> Found(config, old(dom.nodes), dom.rank, root) == []
      ensures forall i :: 0 <= i < |candidates| ==>
        candidates[i] < |dom.nodes| && dom.nodes[candidates[i]].live && HasAllFeatures(dom.nodes[candidates[i]])
    {
      ghost var n0 := dom.nodes;
      ghost var rank := dom.rank;
      var kept, found := ExtractionWalk(dom, root, []);
      ghost var w := dom.nodes;
      assert kept && w == Walked(n0, rank, Extraction(config), root);
      assert found == Found(config, n0, rank, root);
      WalkedFeatured(config, n0, rank, root);
      FoundLive(config, n0, rank, root);
      candidates := SelectAll(dom, found);
      ghost var s := Selected(config, w, found, |found|);
      SelectedFeatured(config, w, rank, found);
      assert dom.nodes == s.nodes && candidates == s.cands;
      ScoreCandidates(dom, candidates);
      ScoredFeatured(config, basicScore, s.nodes, candidates);
    }

    /**
     * The second half of extract on the body get_body chose: the sanitize
     * walk from the body, then post validation. drop_node on a body
     * without a parent crashes; a body the walk drops is returned freed.
     */
    method Conclude(dom: Dom, body: NodeId) returns (r: Outcome)
      requires Ready() && dom.Valid() && body < |dom.nodes| && dom.nodes[body].live && AllLiveFeatured(dom.nodes)
      modifies dom
      ensures dom.Valid() && dom.rank == old(dom.rank)
      ensures r == Crash <==> old(dom.nodes)[body].parent.None? && Drops(Sanitizing(sanitizer.expression), old(dom.nodes)[body])
      ensures r == Dangling(body) <==> old(dom.nodes)[body].parent.Some? && Drops(Sanitizing(sanitizer.expression), old(dom.nodes)[body])
      ensures r == Body(body) <==> !Drops(Sanitizing(sanitizer.expression), old(dom.nodes)[body])
      ensures r.Body? ==> dom.nodes == Walked(old(dom.nodes), dom.rank, Sanitizing(sanitizer.expression), body)
      ensures r.Body? ==> dom.nodes[body].live
    {
      var node := dom.nodes[body];
      NoFaultOnFeatured(sanitizer.expression, node);
      if node.parent.None? {
        var hit := sanitizer.Classify(node.extras);
        if hit {
          return Crash;
        }
      }
      ghost var before := dom.nodes;
      var kept := SanitizeWalk(dom, body, sanitizer.expression);
      if !kept {
        return Dangling(body);
      }
      SurvivorsInside(before, dom.rank, Sanitizing(sanitizer.expression), body);
      var valid := PostValidate(dom, body);
      r := if valid then Body(body) else NoBody;
    }

    /**
     * extract on a document: collects and scores the candidates, picks the
     * first best one, lets get_body choose the body, and concludes.
     */
    method Extract(dom: Dom, root: NodeId) returns (r: Outcome)
      requires Ready() && dom.Valid() && Document(dom.nodes, dom.rank, root)
      modifies dom
      ensures dom.Valid() && dom.rank == old(dom.rank)
      ensures IsNegative(config, old(dom.nodes)[root]) ==> r == Crash && dom.nodes == old(dom.nodes)
      ensures !IsNegative(config, old(dom.nodes)[root]) ==>
        (r == NoBody <==> Found(config, old(dom.nodes), dom.rank, root) == [])
      ensures !IsNegative(config, old(dom.nodes)[root]) && Found(config, old(dom.nodes), dom.rank, root) != [] ==>
        var found := Found(config, old(dom.nodes), dom.rank, root);
        var s := Selected(config, Walked(old(dom.nodes), dom.rank, Extraction(config), root), found, |found|);
        var scored := ScoredUpTo(config, basicScore, s.nodes, s.cands, |s.cands|);
        && Valid(scored, dom.rank) && AllLiveFeatured(scored) && |s.cands| > 0
        && (forall i :: 0 <= i < |s.cands| ==> s.cands[i] < |scored| && scored[s.cands[i]].live)
        && r == Picked(config, sanitizer.expression, sibling.expression, scored, dom.rank, s.cands)
        && (r.Body? ==> dom.nodes == PickedArena(config, sanitizer.expression, sibling.expression, scored, dom.rank, s.cands))
      ensures !IsNegative(config, old(dom.nodes)[root]) && Found(config, old(dom.nodes), dom.rank, root) == [] ==>
        dom.nodes == Walked(old(dom.nodes), dom.rank, Extraction(config), root)
      ensures r.Body? ==> r.id < |dom.nodes| && dom.nodes[r.id].live
    {
      if IsNegative(config, dom.nodes[root]) {
        return Crash;
      }
      var candidates := Collect(dom, root);
      if |candidates| == 0 {
        return NoBody;
      }
      r := PickBody(dom, candidates);
    }

    /** The tail of extract once candidates exist: the best one, get_body around it, then sanitize and post_validate. */
    method PickBody(dom: Dom, candidates: seq<NodeId>) returns (r: Outcome)
      requires Ready() && dom.Valid() && AllLiveFeatured(dom.nodes) && |candidates| > 0
      requires forall i :: 0 <= i < |candidates| ==>
        candidates[i] < |dom.nodes| && dom.nodes[candidates[i]].live && HasAllFeatures(dom.nodes[candidates[i]])
      modifies dom
      ensures dom.Valid() && dom.rank == old(dom.rank)
      ensures r == Picked(config, sanitizer.expression, sibling.expression, old(dom.nodes), dom.rank, candidates)
      ensures r.Body? ==> dom.nodes == PickedArena(config, sanitizer.expression, sibling.expression, old(dom.nodes), dom.rank, candidates)
      ensures r.Body? ==> r.id < |dom.nodes| && dom.nodes[r.id].live
    {
      ghost var n1 := dom.nodes;
      var at := BestCandidate(dom.nodes, candidates);
      var best := candidates[at];
      var body := GetBody(dom, best, sibling.expression);
      ghost var n2 := dom.nodes;
      r := Conclude(dom, body);
      PickedSteps(config, sanitizer.expression, sibling.expression, n1, dom.rank, candidates, at, n2, body, dom.nodes, r);
    }
  }
}
