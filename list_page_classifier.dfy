/**
 * The feature extractor of the list-page classifier
 * (list_page_classifier.h, list_page_classifier.cpp): one pre-order walk of
 * the tree sums three counters (text bytes under anchors, all text bytes,
 * long non-anchor texts), and four features are computed from them and from
 * the page URL. The SVM that consumes the features is not part of this model.
 */
module ListPageClassifier {
  import opened Utils
  import opened DomModel
  import opened DomTree

  /** The defaults the source falls back to when the configuration lacks a key. */
  const LargeTextLengthDefault: int := 80
  const NonLinkTextLengthDefault: int := 600
  const LargeTextCountDefault: int := 2

  /** The configured thresholds and the URL file name blacklist. */
  datatype Settings = Settings(
    nonLinkTextLengthThreshold: int,
    largeTextCountThreshold: int,
    largeTextThreshold: int,
    filenameBlacklist: seq<string>)

  /** The internal feature vector: IFN_LINK_TEXT_LENGTH, IFN_TEXT_LENGTH, IFN_LARGE_TEXT_COUNT. */
  datatype Counts = Counts(link: int, text: int, large: int)

  const Zero := Counts(0, 0, 0)

  function Add(a: Counts, b: Counts): Counts {
    Counts(a.link + b.link, a.text + b.text, a.large + b.large)
  }

  /** The output feature vector, in the order of the FeatureNames enum; flags are 0 or 1. */
  datatype Features = Features(
    linkTextRatio: real,
    urlIsFilename: real,
    nonLinkTextLengthHigh: real,
    largeTextCountHigh: real)

  function Flag(b: bool): real {
    if b then 1.0 else 0.0
  }

  /** strncmp(tag, "a", 1) == 0: the tag starts with 'a' ("abbr" and "article" included). */
  predicate IsAnchor(tag: string) {
    IsPrefix("a", tag)
  }

  // ---------------------------------------------------------------------
  // process_node and traverse
  // ---------------------------------------------------------------------

  /** What one node adds to the counters. */
  function Contribution(node: Node, s: Settings): Counts {
    var n := NonSpaceCount(node.text);
    if IsAnchor(node.tag) then Counts(n, n, 0)
    else Counts(0, n, if n >= s.largeTextThreshold then 1 else 0)
  }

  /** One node adds its non-space text to the text counter and to the link counter or the large count, never both. */
  lemma ContributionBounds(node: Node, s: Settings)
    ensures var c := Contribution(node, s);
      && c.text == NonSpaceCount(node.text)
      && 0 <= c.link <= c.text
      && 0 <= c.large <= 1
      && (IsAnchor(node.tag) ==> c.link == c.text && c.large == 0)
      && (!IsAnchor(node.tag) ==> c.link == 0 && (c.large == 1 <==> c.text >= s.largeTextThreshold))
  {
  }

  /** The sum of the contributions of the nodes `ms`, in order. */
  function Total(nodes: seq<Node>, ms: seq<NodeId>, s: Settings): Counts {
    if ms == [] then Zero
    else Add(if ms[0] < |nodes| then Contribution(nodes[ms[0]], s) else Zero, Total(nodes, ms[1..], s))
  }

  lemma {:induction false} TotalAppend(nodes: seq<Node>, a: seq<NodeId>, b: seq<NodeId>, s: Settings)
    ensures Total(nodes, a + b, s) == Add(Total(nodes, a, s), Total(nodes, b, s))
    decreases |a|
  {
    if a == [] {
      assert a + b == b;
    } else {
      assert (a + b)[0] == a[0];
      assert (a + b)[1..] == a[1..] + b;
      TotalAppend(nodes, a[1..], b, s);
    }
  }

  /**
   * Summed from zero, the link counter never exceeds the text counter and
   * the large count never exceeds the number of nodes; every counter is
   * non-negative.
   */
  lemma {:induction false} TotalBounds(nodes: seq<Node>, ms: seq<NodeId>, s: Settings)
    ensures var t := Total(nodes, ms, s);
      0 <= t.link <= t.text && 0 <= t.large <= |ms|
    decreases |ms|
  {
    if ms != [] {
      if ms[0] < |nodes| {
        ContributionBounds(nodes[ms[0]], s);
      }
      TotalBounds(nodes, ms[1..], s);
    }
  }

  /** Without anchors there is no link text, and the text counter sums every node's non-space bytes whatever its tag. */
  lemma {:induction false} TotalWithoutAnchors(nodes: seq<Node>, ms: seq<NodeId>, s: Settings)
    requires forall m :: m in ms ==> m < |nodes| && !IsAnchor(nodes[m].tag)
    ensures Total(nodes, ms, s).link == 0
    decreases |ms|
  {
    if ms != [] {
      assert ms[0] in ms;
      assert forall m :: m in ms[1..] ==> m in ms;
      TotalWithoutAnchors(nodes, ms[1..], s);
    }
  }

  /** process_node: adds this node's contribution to the counters. */
  method ProcessNode(node: Node, s: Settings, counts: Counts) returns (out: Counts)
    ensures out == Add(counts, Contribution(node, s))
  {
    var textLength := CountWithoutSpaces(node.text);
    out := counts.(text := counts.text + textLength);
    if |node.tag| >= 1 && node.tag[..1] == "a" {
      out := out.(link := out.link + textLength);
    } else if textLength >= s.largeTextThreshold {
      out := out.(large := out.large + 1);
    }
  }

  /**
   * traverse: processes `n` and then each child's subtree in order, so the
   * counters grow by the contributions of the whole subtree in pre-order.
   * The walk changes nothing in the tree.
   */
  method Traverse(dom: Dom, n: NodeId, s: Settings, counts: Counts) returns (out: Counts)
    requires Ranked(dom.nodes, dom.rank) && n < |dom.nodes|
    ensures out == Add(counts, Total(dom.nodes, Preorder(dom.nodes, dom.rank, n), s))
    decreases dom.rank[n]
  {
    out := ProcessNode(dom.nodes[n], s, counts);
    var cs := dom.nodes[n].children;
    ChildrenBelow(dom.nodes, dom.rank, n);
    var i := 0;
    while i < |cs|
      invariant 0 <= i <= |cs|
      invariant out == Add(counts, Total(dom.nodes, PreorderPrefix(dom.nodes, dom.rank, n, i), s))
    {
      PreorderPrefixStep(dom.nodes, dom.rank, n, i);
      TotalAppend(dom.nodes, PreorderPrefix(dom.nodes, dom.rank, n, i), Preorder(dom.nodes, dom.rank, cs[i]), s);
      out := Traverse(dom, cs[i], s, out);
      i := i + 1;
    }
    PreorderPrefixStep(dom.nodes, dom.rank, n, i);
  }

  // ---------------------------------------------------------------------
  // is_url_filename, calculate_features, extract_features
  // ---------------------------------------------------------------------

  /** The base name of the URL's path, kept when non-empty and not starting with a blacklist entry. */
  function IsUrlFilename(url: string, blacklist: seq<string>): bool {
    var filename := GetBasename(UrlParse(url).path);
    |filename| > 0 && FirstMatch(filename, blacklist, 0) == -1
  }

  /** A URL names a file exactly when its base name is non-empty and starts with no blacklist entry. */
  lemma UrlFilenameIff(url: string, blacklist: seq<string>)
    ensures var filename := GetBasename(UrlParse(url).path);
      IsUrlFilename(url, blacklist) <==>
        filename != "" && forall e :: e in blacklist ==> !IsPrefix(e, filename)
  {
    var filename := GetBasename(UrlParse(url).path);
    var r := FirstMatch(filename, blacklist, 0);
    if r >= 0 {
      assert blacklist[r] in blacklist;
    }
  }

  /** LINK_TEXT_RATIO: link text over all text, 0 when there is no text. */
  function LinkTextRatio(link: int, text: int): (r: real)
    ensures 0 <= link <= text ==> 0.0 <= r <= 1.0
    ensures text > 0 && link == text ==> r == 1.0
    ensures link == 0 || text <= 0 ==> r == 0.0
    ensures text > 0 ==> r * text as real == link as real
  {
    if text > 0 then link as real / text as real else 0.0
  }

  /** calculate_features: the four features from the counters and the URL; the three flags are 0 or 1. */
  function CalculateFeatures(url: string, c: Counts, s: Settings): (f: Features)
    ensures f.linkTextRatio == LinkTextRatio(c.link, c.text)
    ensures f.urlIsFilename == 1.0 <==> IsUrlFilename(url, s.filenameBlacklist)
    ensures f.nonLinkTextLengthHigh == 1.0 <==> c.text - c.link >= s.nonLinkTextLengthThreshold
    ensures f.largeTextCountHigh == 1.0 <==> c.large >= s.largeTextCountThreshold
    ensures f.urlIsFilename in {0.0, 1.0} && f.nonLinkTextLengthHigh in {0.0, 1.0} && f.largeTextCountHigh in {0.0, 1.0}
  {
    Features(
      LinkTextRatio(c.link, c.text),
      Flag(IsUrlFilename(url, s.filenameBlacklist)),
      Flag(c.text - c.link >= s.nonLinkTextLengthThreshold),
      Flag(c.large >= s.largeTextCountThreshold))
  }

  /** extract_features: traverse from zero counters, then calculate_features. */
  method ExtractFeatures(dom: Dom, root: NodeId, url: string, s: Settings) returns (f: Features)
    requires Ranked(dom.nodes, dom.rank) && root < |dom.nodes|
    ensures f == CalculateFeatures(url, Total(dom.nodes, Preorder(dom.nodes, dom.rank, root), s), s)
    ensures 0.0 <= f.linkTextRatio <= 1.0
  {
    var counts := Traverse(dom, root, s, Zero);
    TotalBounds(dom.nodes, Preorder(dom.nodes, dom.rank, root), s);
    f := CalculateFeatures(url, counts, s);
  }
}
