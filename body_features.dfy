/**
 * The per-node decisions and features of the body extractor
 * (body_extractor.h, body_extractor.cpp): which nodes are negative and are
 * dropped, which nodes are candidates, and the 19 numeric features that
 * extract_features writes into a node's extras, computed from the node
 * itself and from the features already stored on its direct children.
 */
module BodyFeatures {
  import opened Wrappers
  import opened Utils
  import opened DomModel

  // ---------------------------------------------------------------------
  // Feature ids: an assumed order of the feature enum (the feature list
  // itself is not part of this model), one extras key each
  // ---------------------------------------------------------------------

  const MatchedGoodClassIds: int := 0
  const MatchedBadClassIds: int := 1
  const TagFactor: int := 2
  const TextLength: int := 3
  const CurrentTextLength: int := 4
  const CommaCount: int := 5
  const LinkLength: int := 6
  const LinkCount: int := 7
  const NodeCount: int := 8
  const LinkDensity: int := 9
  const LinkNodeDensity: int := 10
  const IsHeaderTag: int := 11
  const IsInteractiveTag: int := 12
  const IsStructTag: int := 13
  const IsCandidate: int := 14
  const CandidateSource: int := 15
  const BasicWeight: int := 16
  const IsPTag: int := 17
  const HasBreakPunc: int := 18
  /** FN_TOTAL_FEATURE_COUNT */
  const FeatureCount: int := 19

  /** The feature names the classifier expressions refer to, indexed by feature id. */
  const FeatureNames: seq<string> := [
    "FN_MATCHED_GOOD_CLASS_IDS", "FN_MATCHED_BAD_CLASS_IDS", "FN_TAG_FACTOR",
    "FN_TEXT_LENGTH", "FN_CURRENT_TEXT_LENGTH", "FN_COMMA_COUNT",
    "FN_LINK_LENGTH", "FN_LINK_COUNT", "FN_NODE_COUNT",
    "FN_LINK_DENSITY", "FN_LINK_NODE_DENSITY", "FN_IS_HEADER_TAG",
    "FN_IS_INTERACTIVE_TAG", "FN_IS_STRUCT_TAG", "FN_IS_CANDIDATE",
    "FN_CANDIDATE_SOURCE", "FN_BASIC_WEIGHT", "FN_IS_P_TAG",
    "FN_HAS_BREAK_PUNC"]

  const HeaderTags: seq<string> := ["h1", "h2", "h3", "h4", "h5", "h6"]
  const InteractiveTags: seq<string> := ["form", "iframe"]
  const StructTags: seq<string> := ["table", "ul", "div"]

  /** The keys of the "bodyExtractor" configuration section that the extractor reads. */
  datatype Config = Config(
    negativeTagsEnabled: bool,
    negativeTags: seq<string>,
    negativeClassIdsEnabled: bool,
    negativeClassIds: seq<string>,
    positiveClassIds: seq<string>,
    goodClassIds: seq<string>,
    badClassIds: seq<string>,
    candidateTagNames: seq<string>,
    minTextLength: int,
    factorTagNames: seq<string>,
    factorTagValues: seq<real>,
    includeParent: bool,
    includeGrandParent: bool,
    paragraphBreakPunctuations: seq<string>,
    paragraphEndPunctuations: seq<string>,
    classifierThreshold: real)

  /** What init insists on before it accepts a configuration: one factor value per factor tag name. */
  predicate ConfigValid(cfg: Config) {
    |cfg.factorTagValues| == |cfg.factorTagNames|
  }

  function Flag(b: bool): real {
    if b then 1.0 else 0.0
  }

  // ---------------------------------------------------------------------
  // drop_negative_node and valid_node
  // ---------------------------------------------------------------------

  /** match_list(attribute, list, 2) != -1 on an attribute that may be missing; a missing one matches nothing. */
  predicate AttributeMatches(a: Option<string>, list: seq<string>) {
    a.Some? && FirstMatch(a.value, list, 2) != -1
  }

  lemma AttributeMatchesIff(a: Option<string>, list: seq<string>)
    ensures AttributeMatches(a, list) <==> a.Some? && exists e :: e in list && Contains(a.value, e)
  {
    if a.Some? {
      var r := FirstMatch(a.value, list, 2);
      if r >= 0 {
        assert list[r] in list;
      }
    }
  }

  /**
   * `!match_list(...) >= 0`: the negation binds first, so a 0 or a 1 is
   * compared with 0 and the guard holds whatever the match returned.
   */
  predicate NegatedAtLeastZero(r: int) {
    (if r == 0 then 1 else 0) >= 0
  }

  /** The class-or-id test of drop_negative_node on one attribute. */
  predicate NegativeAttribute(cfg: Config, a: Option<string>) {
    a.Some? &&
    FirstMatch(a.value, cfg.negativeClassIds, 2) >= 0 &&
    NegatedAtLeastZero(FirstMatch(a.value, cfg.positiveClassIds, 2))
  }

  /** drop_negative_node's decision: a negative tag, else a negative class, else a negative id. */
  predicate IsNegative(cfg: Config, node: Node) {
    if cfg.negativeTagsEnabled && FirstMatch(node.tag, cfg.negativeTags, 1) >= 0 then true
    else if cfg.negativeClassIdsEnabled then
      NegativeAttribute(cfg, GetAttribute(node, "class")) || NegativeAttribute(cfg, GetAttribute(node, "id"))
    else false
  }

  /**
   * The decision spelled out: a node is negative exactly when negative tags
   * are enabled and its tag is one of them, or negative class ids are
   * enabled and its class or its id contains one of them. The positive
   * class ids never protect a node.
   */
  lemma IsNegativeIff(cfg: Config, node: Node)
    ensures IsNegative(cfg, node) <==>
      (cfg.negativeTagsEnabled && node.tag in cfg.negativeTags) ||
      (cfg.negativeClassIdsEnabled &&
        (AttributeMatches(GetAttribute(node, "class"), cfg.negativeClassIds) ||
         AttributeMatches(GetAttribute(node, "id"), cfg.negativeClassIds)))
  {
    ExactMatchFound(node.tag, cfg.negativeTags);
  }

  /** Whatever the positive class ids are, the same nodes are dropped. */
  lemma PositiveIdsIgnored(cfg: Config, node: Node, positive: seq<string>)
    ensures IsNegative(cfg.(positiveClassIds := positive), node) == IsNegative(cfg, node)
  {
    IsNegativeIff(cfg, node);
    IsNegativeIff(cfg.(positiveClassIds := positive), node);
  }

  /** A candidate tag whose TEXT_LENGTH exceeds min_text_length. */
  predicate IsCandidateNode(cfg: Config, tag: string, textLength: real) {
    tag in cfg.candidateTagNames && textLength > cfg.minTextLength as real
  }

  /** valid_node on the stored extras; get_extra asserts that TEXT_LENGTH is there. */
  function ValidNode(cfg: Config, node: Node): (r: bool)
    requires HasExtra(node, TextLength)
    ensures r <==> IsCandidateNode(cfg, node.tag, GetExtra(node, TextLength))
  {
    ExactMatchFound(node.tag, cfg.candidateTagNames);
    if FirstMatch(node.tag, cfg.candidateTagNames, 1) >= 0 then
      !(GetExtra(node, TextLength) <= cfg.minTextLength as real)
    else false
  }

  // ---------------------------------------------------------------------
  // extract_features
  // ---------------------------------------------------------------------

  /** The five features a node sums over its direct children. */
  datatype Aggregate = Aggregate(textLength: real, commaCount: real, linkLength: real, nodeCount: real, linkCount: real)

  const NoChildren := Aggregate(0.0, 0.0, 0.0, 0.0, 0.0)

  function Plus(a: Aggregate, b: Aggregate): Aggregate {
    Aggregate(a.textLength + b.textLength, a.commaCount + b.commaCount, a.linkLength + b.linkLength,
              a.nodeCount + b.nodeCount, a.linkCount + b.linkCount)
  }

  /** The aggregated features of one feature vector. */
  function AggregateOf(v: seq<real>): Aggregate
    requires |v| == FeatureCount
  {
    Aggregate(v[TextLength], v[CommaCount], v[LinkLength], v[NodeCount], v[LinkCount])
  }

  /** Every feature id has a value in the node's extras. */
  predicate HasAllFeatures(node: Node) {
    forall k :: 0 <= k < FeatureCount ==> k in node.extras
  }

  /** Every live node of the arena holds every feature. */
  ghost predicate AllLiveFeatured(nodes: seq<Node>) {
    forall x :: 0 <= x < |nodes| && nodes[x].live ==> HasAllFeatures(nodes[x])
  }

  /** The arena only lost nodes: extras are as they were and no node came alive. */
  ghost predicate Shrunk(before: seq<Node>, after: seq<Node>) {
    |after| == |before| &&
    forall x :: 0 <= x < |after| ==> after[x].extras == before[x].extras && (after[x].live ==> before[x].live)
  }

  lemma ShrunkFeatured(before: seq<Node>, after: seq<Node>)
    requires AllLiveFeatured(before) && Shrunk(before, after)
    ensures AllLiveFeatured(after)
  {
    forall x | 0 <= x < |after| && after[x].live
      ensures HasAllFeatures(after[x])
    {
      assert before[x].live;
    }
  }

  /** drop_node only loses nodes. */
  lemma DetachedShrunk(nodes: seq<Node>, rank: seq<nat>, n: NodeId)
    requires Ranked(nodes, rank) && n < |nodes| && nodes[n].parent.Some? && nodes[n].parent.value < |nodes|
    ensures Shrunk(nodes, Detached(nodes, rank, n))
  {
  }

  /** The five aggregated features are stored on the node (get_extra asserts each). */
  predicate HasAggregates(node: Node) {
    TextLength in node.extras && CommaCount in node.extras && LinkLength in node.extras &&
    NodeCount in node.extras && LinkCount in node.extras
  }

  function StoredAggregate(node: Node): Aggregate
    requires HasAggregates(node)
  {
    Aggregate(node.extras[TextLength], node.extras[CommaCount], node.extras[LinkLength],
              node.extras[NodeCount], node.extras[LinkCount])
  }

  /** The sums of the aggregated features stored on the children `cs`. */
  function ChildSums(nodes: seq<Node>, cs: seq<NodeId>): Aggregate
    requires forall i :: 0 <= i < |cs| ==> cs[i] < |nodes| && HasAggregates(nodes[cs[i]])
  {
    if cs == [] then NoChildren else Plus(StoredAggregate(nodes[cs[0]]), ChildSums(nodes, cs[1..]))
  }

  /** The node's 19 stored features, in id order. */
  function StoredFeatures(node: Node): (v: seq<real>)
    requires HasAllFeatures(node)
    ensures |v| == FeatureCount
    ensures forall k :: 0 <= k < FeatureCount ==> v[k] == node.extras[k]
  {
    seq(FeatureCount, k requires 0 <= k < FeatureCount && HasAllFeatures(node) => node.extras[k])
  }

  /** The extras a feature vector is written as, one set_extra per id. */
  function FeatureMap(v: seq<real>): (m: map<int, real>)
    ensures forall k :: k in m <==> 0 <= k < |v|
    ensures forall k :: 0 <= k < |v| ==> m[k] == v[k]
  {
    map k | 0 <= k < |v| :: v[k]
  }

  /** The number of commas in a text. */
  function Commas(s: string): (n: nat)
    ensures n <= |s|
  {
    if s == [] then 0 else (if s[0] == ',' then 1 else 0) + Commas(s[1..])
  }

  /** How many of the node's class and id attributes contain an entry of `list` (0, 1 or 2). */
  function AttributeHits(node: Node, list: seq<string>): (r: real)
    ensures r == 0.0 || r == 1.0 || r == 2.0
  {
    Flag(AttributeMatches(GetAttribute(node, "class"), list)) + Flag(AttributeMatches(GetAttribute(node, "id"), list))
  }

  /** TAG_FACTOR: the value paired with the first factor tag name equal to the tag, else 0. */
  function TagFactorOf(cfg: Config, tag: string): (r: real)
    requires ConfigValid(cfg)
    ensures tag !in cfg.factorTagNames ==> r == 0.0
    ensures tag in cfg.factorTagNames ==> exists i :: 0 <= i < |cfg.factorTagNames| && cfg.factorTagNames[i] == tag && r == cfg.factorTagValues[i]
  {
    var pos := FirstMatch(tag, cfg.factorTagNames, 1);
    ExactMatchFound(tag, cfg.factorTagNames);
    if pos != -1 then cfg.factorTagValues[pos] else 0.0
  }

  /** x / y, or 0 when y is 0. */
  function Density(x: real, y: real): (r: real)
    ensures 0.0 <= x <= y ==> 0.0 <= r <= 1.0
    ensures y != 0.0 ==> r * y == x
    ensures y == 0.0 ==> r == 0.0
  {
    if y != 0.0 then x / y else 0.0
  }

  /** Whether the tag counts as a link (strncmp(tag, "a", 1) == 0). */
  predicate IsLinkTag(tag: string) {
    IsPrefix("a", tag)
  }

  /** The node's share of an aggregated feature, summed with its children's. */
  function Accumulated(node: Node, childCount: nat, sums: Aggregate): Aggregate {
    var current := |node.text| as real;
    var anchor := IsLinkTag(node.tag);
    Aggregate(sums.textLength + current,
              sums.commaCount + Commas(node.text) as real,
              sums.linkLength + (if anchor then current else 0.0),
              sums.nodeCount + (if childCount == 0 then 1.0 else 0.0),
              sums.linkCount + (if anchor then 1.0 else 0.0))
  }

  /** Feature `k` of a node whose current children number `childCount` and sum to `sums`. */
  function FeatureAt(cfg: Config, node: Node, childCount: nat, sums: Aggregate, k: int): real
    requires ConfigValid(cfg)
  {
    var a := Accumulated(node, childCount, sums);
    if k == MatchedGoodClassIds then AttributeHits(node, cfg.goodClassIds)
    else if k == MatchedBadClassIds then AttributeHits(node, cfg.badClassIds)
    else if k == TagFactor then TagFactorOf(cfg, node.tag)
    else if k == TextLength then a.textLength
    else if k == CurrentTextLength then |node.text| as real
    else if k == CommaCount then a.commaCount
    else if k == LinkLength then a.linkLength
    else if k == LinkCount then a.linkCount
    else if k == NodeCount then a.nodeCount
    else if k == LinkDensity then Density(a.linkLength, a.textLength)
    else if k == LinkNodeDensity then Density(a.linkCount, a.nodeCount)
    else if k == IsHeaderTag then Flag(node.tag in HeaderTags)
    else if k == IsInteractiveTag then Flag(node.tag in InteractiveTags)
    else if k == IsStructTag then Flag(node.tag in StructTags)
    else 0.0
  }

  /**
   * The feature vector extract_features computes for `node`: tags starting
   * with 'a' count as links, the text length counts every byte of the
   * node's text, a node without children counts itself as a node, and the
   * scoring features start at 0.
   */
  function FeatureVector(cfg: Config, node: Node, childCount: nat, sums: Aggregate): (v: seq<real>)
    requires ConfigValid(cfg)
    ensures |v| == FeatureCount
    ensures forall k :: 0 <= k < FeatureCount ==> v[k] == FeatureAt(cfg, node, childCount, sums, k)
  {
    seq(FeatureCount, k requires 0 <= k < FeatureCount && ConfigValid(cfg) => FeatureAt(cfg, node, childCount, sums, k))
  }

  /** The vector depends on the node's tag, text and attributes only, not on its links or extras. */
  lemma FeatureVectorLabels(cfg: Config, a: Node, b: Node, childCount: nat, sums: Aggregate)
    requires ConfigValid(cfg) && a.tag == b.tag && a.text == b.text && a.attributes == b.attributes
    ensures FeatureVector(cfg, a, childCount, sums) == FeatureVector(cfg, b, childCount, sums)
  {
    assert GetAttribute(a, "class") == GetAttribute(b, "class") && GetAttribute(a, "id") == GetAttribute(b, "id");
  }

  /** Writing one more feature id extends the written map by that id. */
  lemma FeatureMapStep(m: map<int, real>, v: seq<real>, k: nat)
    requires k < |v|
    ensures m + FeatureMap(v[..k + 1]) == (m + FeatureMap(v[..k]))[k := v[k]]
  {
  }

  /** Each aggregated feature is the children's sum plus the node's own share. */
  lemma FeatureVectorAggregates(cfg: Config, node: Node, childCount: nat, sums: Aggregate)
    requires ConfigValid(cfg)
    ensures var v := FeatureVector(cfg, node, childCount, sums);
      var anchor := IsLinkTag(node.tag);
      && v[CurrentTextLength] == |node.text| as real
      && v[TextLength] == sums.textLength + |node.text| as real
      && v[CommaCount] == sums.commaCount + Commas(node.text) as real
      && v[LinkLength] == sums.linkLength + (if anchor then |node.text| as real else 0.0)
      && v[LinkCount] == sums.linkCount + (if anchor then 1.0 else 0.0)
      && v[NodeCount] == sums.nodeCount + (if childCount == 0 then 1.0 else 0.0)
      && v[IsCandidate] == 0.0 && v[CandidateSource] == 0.0 && v[BasicWeight] == 0.0
      && v[IsPTag] == 0.0 && v[HasBreakPunc] == 0.0
  {
  }

  /**
   * A node holding its fresh feature vector reads back TEXT_LENGTH from it,
   * and already holds CANDIDATE_SOURCE 0, so add_candidate with source 0
   * leaves it as it is.
   */
  lemma FeaturedNode(cfg: Config, node: Node, childCount: nat, sums: Aggregate)
    requires ConfigValid(cfg)
    ensures var v := FeatureVector(cfg, node, childCount, sums);
      var f := node.(extras := node.extras + FeatureMap(v));
      && HasExtra(f, TextLength) && GetExtra(f, TextLength) == v[TextLength]
      && WithExtra(f, CandidateSource, 0.0) == f
  {
    var v := FeatureVector(cfg, node, childCount, sums);
    var f := node.(extras := node.extras + FeatureMap(v));
    FeatureVectorAggregates(cfg, node, childCount, sums);
    assert CandidateSource in f.extras && f.extras[CandidateSource] == 0.0;
    SetExtraSame(f, CandidateSource, 0.0);
  }

  /** The category features are 0/1 flags of the three tag lists, and the counts of good and bad hits do not exceed 2. */
  lemma FeatureVectorFlags(cfg: Config, node: Node, childCount: nat, sums: Aggregate)
    requires ConfigValid(cfg)
    ensures var v := FeatureVector(cfg, node, childCount, sums);
      && (v[IsHeaderTag] == 1.0 <==> node.tag in HeaderTags)
      && (v[IsInteractiveTag] == 1.0 <==> node.tag in InteractiveTags)
      && (v[IsStructTag] == 1.0 <==> node.tag in StructTags)
      && v[IsHeaderTag] in {0.0, 1.0} && v[IsInteractiveTag] in {0.0, 1.0} && v[IsStructTag] in {0.0, 1.0}
      && 0.0 <= v[MatchedGoodClassIds] <= 2.0 && 0.0 <= v[MatchedBadClassIds] <= 2.0
      && (v[MatchedGoodClassIds] == 0.0 <==>
           !AttributeMatches(GetAttribute(node, "class"), cfg.goodClassIds) &&
           !AttributeMatches(GetAttribute(node, "id"), cfg.goodClassIds))
  {
  }

  /** Sums that keep link text within all text and count at least no nodes. */
  predicate SaneSums(a: Aggregate) {
    0.0 <= a.linkLength <= a.textLength && 0.0 <= a.commaCount && 0.0 <= a.linkCount && 0.0 <= a.nodeCount
  }

  /**
   * From sane children sums the node's own aggregated features are sane
   * again, the link density lies in [0, 1], and a leaf counts itself as a node.
   */
  lemma FeatureVectorBounds(cfg: Config, node: Node, childCount: nat, sums: Aggregate)
    requires ConfigValid(cfg) && SaneSums(sums)
    requires childCount > 0 ==> sums.nodeCount >= 1.0
    ensures var v := FeatureVector(cfg, node, childCount, sums);
      && SaneSums(AggregateOf(v))
      && v[NodeCount] >= 1.0
      && 0.0 <= v[LinkDensity] <= 1.0
      && 0.0 <= v[LinkNodeDensity]
      && v[CurrentTextLength] <= v[TextLength]
  {
    var v := FeatureVector(cfg, node, childCount, sums);
    assert 0.0 <= v[LinkLength] <= v[TextLength];
  }

  /**
   * LINK_NODE_DENSITY is not a fraction: a leaf link under a link counts two
   * links over one node, since the parent has a child and so adds no node of its own.
   */
  lemma LinkNodeDensityAboveOne(cfg: Config, node: Node, child: Node)
    requires ConfigValid(cfg) && IsLinkTag(node.tag) && IsLinkTag(child.tag)
    ensures var leaf := FeatureVector(cfg, child, 0, NoChildren);
      FeatureVector(cfg, node, 1, AggregateOf(leaf))[LinkNodeDensity] == 2.0
  {
    var leaf := FeatureVector(cfg, child, 0, NoChildren);
    assert leaf[LinkCount] == 1.0 && leaf[NodeCount] == 1.0;
    var v := FeatureVector(cfg, node, 1, AggregateOf(leaf));
    assert v[LinkCount] == 2.0 && v[NodeCount] == 1.0;
  }

  // ---------------------------------------------------------------------
  // get_body and valid_paragraph_sibling
  // ---------------------------------------------------------------------

  /** comparer: orders nodes by their stored BASIC_WEIGHT. */
  predicate Comparer(first: Node, second: Node)
    requires HasExtra(first, BasicWeight) && HasExtra(second, BasicWeight)
  {
    GetExtra(first, BasicWeight) < GetExtra(second, BasicWeight)
  }

  /** The sibling test of get_body on the stored weights: a candidate weighing at least max(10, 0.2 * its weight). */
  predicate StrongCandidate(isCandidate: real, weight: real) {
    isCandidate == 1.0 && weight >= (if 10.0 > weight * 0.2 then 10.0 else weight * 0.2)
  }

  /** max(10, 0.2 * w) <= w only when 10 <= w: the relative bound never decides. */
  lemma StrongCandidateIff(isCandidate: real, weight: real)
    ensures StrongCandidate(isCandidate, weight) <==> isCandidate == 1.0 && weight >= 10.0
  {
  }

  /** Whether the text has a break punctuation anywhere or ends with an end punctuation. */
  predicate HasParagraphPunctuation(cfg: Config, text: string) {
    FirstMatch(text, cfg.paragraphBreakPunctuations, 2) >= 0 || FirstMatch(text, cfg.paragraphEndPunctuations, 3) >= 0
  }

  lemma HasParagraphPunctuationIff(cfg: Config, text: string)
    ensures HasParagraphPunctuation(cfg, text) <==>
      (exists e :: e in cfg.paragraphBreakPunctuations && Contains(text, e)) ||
      (exists e :: e in cfg.paragraphEndPunctuations && IsSuffix(e, text))
  {
    var b := FirstMatch(text, cfg.paragraphBreakPunctuations, 2);
    var e := FirstMatch(text, cfg.paragraphEndPunctuations, 3);
    if b >= 0 {
      assert cfg.paragraphBreakPunctuations[b] in cfg.paragraphBreakPunctuations;
    }
    if e >= 0 {
      assert cfg.paragraphEndPunctuations[e] in cfg.paragraphEndPunctuations;
    }
  }

  /** The two extras valid_paragraph_sibling writes before it asks the sibling classifier. */
  function ParagraphMarked(cfg: Config, node: Node): (r: Node)
    ensures r.extras == node.extras[IsPTag := Flag(IsPrefix("p", node.tag))][HasBreakPunc := Flag(HasParagraphPunctuation(cfg, node.text))]
    ensures r.(extras := node.extras) == node
  {
    node.(extras := node.extras[IsPTag := Flag(IsPrefix("p", node.tag))]
                              [HasBreakPunc := Flag(HasParagraphPunctuation(cfg, node.text))])
  }
}
