/**
 * The expected values of the list-page classifier's unit tests
 * (tests/list_page_classifier_test.cpp), proved of the model, under the
 * settings the test configuration loads: a non-link text threshold of 20, a
 * large-text count threshold of 2, a large-text length threshold of 8 and
 * the blacklist ["forum.", "list", "default.", "index."].
 */
module ListPageExamples {
  import opened Wrappers
  import opened Utils
  import opened DomModel
  import opened ListPageClassifier
  import opened UtilsExamples

  const TestSettings := Settings(20, 2, 8, FilenameBlacklist)

  // process_node

  /** The tags of the test nodes: only "a" starts with "a". */
  lemma TestTags()
    ensures !IsAnchor("h1") && !IsAnchor("h2") && IsAnchor("a")
  {
    assert "h1"[..1][0] == 'h' && "h2"[..1][0] == 'h';
  }

  /** A non-anchor node with n non-space bytes of text, under the test settings. */
  lemma TextContribution(tag: string, text: string, n: int)
    requires NonSpaceCount(text) == n && !IsAnchor(tag)
    ensures Contribution(Fresh(tag, text), TestSettings) == Counts(0, n, if n >= 8 then 1 else 0)
  {
  }

  /** An anchor node with n non-space bytes of text, under the test settings. */
  lemma LinkContribution(tag: string, text: string, n: int)
    requires NonSpaceCount(text) == n && IsAnchor(tag)
    ensures Contribution(Fresh(tag, text), TestSettings) == Counts(n, n, 0)
  {
  }

  lemma AddZero(c: Counts)
    ensures Add(Zero, c) == c
  {
  }

  /**
   * process_node on the three test nodes, from zero counters: a short
   * heading text, a long one (at least 8 bytes: one large text), and an
   * anchor, whose text counts as link text and never as a large text.
   */
  lemma ProcessNodeExamples(t1: string, t2: string, t3: string)
    requires t1 == "abc def\r\nx" && t2 == "aaaabbbbccccaaaadddds" && t3 == "ab cde"
    ensures Add(Zero, Contribution(Fresh("h1", t1), TestSettings)) == Counts(0, 7, 0)
    ensures Add(Zero, Contribution(Fresh("h2", t2), TestSettings)) == Counts(0, 21, 1)
    ensures Add(Zero, Contribution(Fresh("a", t3), TestSettings)) == Counts(5, 5, 0)
  {
    ProcessNodeCounts(t1, t2, t3);
    TestTags();
    TextContribution("h1", t1, 7);
    TextContribution("h2", t2, 21);
    LinkContribution("a", t3, 5);
    AddZero(Contribution(Fresh("h1", t1), TestSettings));
    AddZero(Contribution(Fresh("h2", t2), TestSettings));
    AddZero(Contribution(Fresh("a", t3), TestSettings));
  }

  // is_url_filename

  lemma DirectoryPieces(u2: string)
    requires u2 == "http://google.com/a/b/c/"
    ensures u2 == "http" + "://" + "google.com" + "/a/b/c/" + ""
  {
  }

  lemma QueryFilePieces(u3: string)
    requires u3 == "http://www.com/x?a=1"
    ensures u3 == "http" + "://" + "www.com" + "/x" + "?a=1"
  {
  }

  lemma IndexPieces(u4: string)
    requires u4 == "http://www.a.com/index.html"
    ensures u4 == "http" + "://" + "www.a.com" + "/index.html" + ""
  {
  }

  lemma ShortHostPieces(u5: string, u6: string)
    requires u5 == "http://www.a/index."
    requires u6 == "http://www.a/forum"
    ensures u5 == "http" + "://" + "www.a" + "/index." + ""
    ensures u6 == "http" + "://" + "www.a" + "/forum" + ""
  {
  }

  lemma FilenameParts()
    ensures Free("http", ':') && NoUpper("http")
    ensures Free("google.com", '/') && NoUpper("google.com") && Free("/a/b/c/", '?')
    ensures Free("www.com", '/') && NoUpper("www.com") && Free("/x", '?')
  {
  }

  lemma ShortHostParts()
    ensures Free("www.a.com", '/') && NoUpper("www.a.com") && Free("/index.html", '?')
    ensures Free("www.a", '/') && NoUpper("www.a") && Free("/index.", '?') && Free("/forum", '?')
  {
  }

  /** The paths urlparse finds in the is_url_filename test URLs. */
  lemma FilenamePaths(u2: string, u3: string, u4: string, u5: string, u6: string)
    requires u2 == "http://google.com/a/b/c/"
    requires u3 == "http://www.com/x?a=1"
    requires u4 == "http://www.a.com/index.html"
    requires u5 == "http://www.a/index."
    requires u6 == "http://www.a/forum"
    ensures UrlParse(u2).path == "/a/b/c/" && UrlParse(u3).path == "/x"
    ensures UrlParse(u4).path == "/index.html" && UrlParse(u5).path == "/index."
    ensures UrlParse(u6).path == "/forum"
  {
    DirectoryPieces(u2);
    QueryFilePieces(u3);
    IndexPieces(u4);
    ShortHostPieces(u5, u6);
    FilenameParts();
    ShortHostParts();
    UrlParseLaidOut(u2, "http", "google.com", "/a/b/c/", "");
    UrlParseLaidOut(u3, "http", "www.com", "/x", "?a=1");
    UrlParseLaidOut(u4, "http", "www.a.com", "/index.html", "");
    UrlParseLaidOut(u5, "http", "www.a", "/index.", "");
    UrlParseLaidOut(u6, "http", "www.a", "/forum", "");
  }

  /**
   * is_url_filename on the six test URLs: no path or a path ending in '/'
   * gives no file name; "index.html" and "index." start with "index.";
   * "x" and "forum" start with no entry.
   */
  lemma IsUrlFilenameExamples(u1: string, u2: string, u3: string, u4: string, u5: string, u6: string)
    requires u1 == "http://www.baidu.com" && u2 == "http://google.com/a/b/c/"
    requires u3 == "http://www.com/x?a=1" && u4 == "http://www.a.com/index.html"
    requires u5 == "http://www.a/index." && u6 == "http://www.a/forum"
    ensures !IsUrlFilename(u1, FilenameBlacklist) && !IsUrlFilename(u2, FilenameBlacklist)
    ensures IsUrlFilename(u3, FilenameBlacklist) && !IsUrlFilename(u4, FilenameBlacklist)
    ensures !IsUrlFilename(u5, FilenameBlacklist) && IsUrlFilename(u6, FilenameBlacklist)
  {
    UrlParseHostOnlyExamples(u1, "http://www.baidu.com?x=1");
    FilenamePaths(u2, u3, u4, u5, u6);
    BasenameX("/x");
    BasenameForum("/forum");
    BasenameIndex("/index.html", "/index.");
    FilenameBasesEmpty();
    FilenameMatches();
  }

  // calculate_features

  lemma ShortFeatureUrlPieces(c1: string, c2: string)
    requires c1 == "http://a/x" && c2 == "http://a/b/c"
    ensures c1 == "http" + "://" + "a" + "/x" + ""
    ensures c2 == "http" + "://" + "a" + "/b/c" + ""
  {
  }

  lemma LongFeatureUrlPieces(c3: string, c4: string)
    requires c3 == "http://www.b/x/c/" && c4 == "http://www.x/a/index.html"
    ensures c3 == "http" + "://" + "www.b" + "/x/c/" + ""
    ensures c4 == "http" + "://" + "www.x" + "/a/index.html" + ""
  {
  }

  lemma FeatureUrlParts()
    ensures Free("http", ':') && NoUpper("http")
    ensures Free("a", '/') && NoUpper("a") && Free("/x", '?') && Free("/b/c", '?')
    ensures Free("www.b", '/') && NoUpper("www.b") && Free("/x/c/", '?')
    ensures Free("www.x", '/') && NoUpper("www.x") && Free("/a/index.html", '?')
  {
  }

  /** The paths urlparse finds in the calculate_features test URLs. */
  lemma FeatureUrlPaths(c1: string, c2: string, c3: string, c4: string)
    requires c1 == "http://a/x" && c2 == "http://a/b/c"
    requires c3 == "http://www.b/x/c/" && c4 == "http://www.x/a/index.html"
    ensures UrlParse(c1).path == "/x" && UrlParse(c2).path == "/b/c"
    ensures UrlParse(c3).path == "/x/c/" && UrlParse(c4).path == "/a/index.html"
  {
    ShortFeatureUrlPieces(c1, c2);
    LongFeatureUrlPieces(c3, c4);
    FeatureUrlParts();
    UrlParseLaidOut(c1, "http", "a", "/x", "");
    UrlParseLaidOut(c2, "http", "a", "/b/c", "");
    UrlParseLaidOut(c3, "http", "www.b", "/x/c/", "");
    UrlParseLaidOut(c4, "http", "www.x", "/a/index.html", "");
  }

  /** The base names of those paths. */
  lemma FeatureUrlBases(p2: string, p3: string, p4: string)
    requires p2 == "/b/c" && p3 == "/x/c/" && p4 == "/a/index.html"
    ensures GetBasename(p2) == "c" && GetBasename(p3) == "" && GetBasename(p4) == "index.html"
  {
    assert p2 == "/b" + "/" + "c" && Free("c", '/');
    assert p4 == "/a" + "/" + "index.html" && Free("index.html", '/');
    BasenameAfter(p2, "/b", "c");
    BasenameTrailing(p3);
    BasenameAfter(p4, "/a", "index.html");
  }

  /** Which of the calculate_features test URLs name a file. */
  lemma FeatureUrlFilenames(c1: string, c2: string, c3: string, c4: string)
    requires c1 == "http://a/x" && c2 == "http://a/b/c"
    requires c3 == "http://www.b/x/c/" && c4 == "http://www.x/a/index.html"
    ensures IsUrlFilename(c1, FilenameBlacklist) && IsUrlFilename(c2, FilenameBlacklist)
    ensures !IsUrlFilename(c3, FilenameBlacklist) && !IsUrlFilename(c4, FilenameBlacklist)
  {
    FeatureUrlPaths(c1, c2, c3, c4);
    BasenameX("/x");
    FeatureUrlBases("/b/c", "/x/c/", "/a/index.html");
    FilenameMatches();
    assert FirstMatch("c", FilenameBlacklist, 0) == -1;
  }

  /**
   * calculate_features on the four test inputs, under the test settings: the
   * link ratio is link over text, the non-link flag needs 20 bytes of
   * non-link text, the large-text flag 2 large texts.
   */
  lemma CalculateFeaturesExamples(c1: string, c2: string, c3: string, c4: string)
    requires c1 == "http://a/x" && c2 == "http://a/b/c"
    requires c3 == "http://www.b/x/c/" && c4 == "http://www.x/a/index.html"
    ensures CalculateFeatures(c1, Counts(9, 12, 1), TestSettings) == Features(0.75, 1.0, 0.0, 0.0)
    ensures CalculateFeatures(c2, Counts(9, 100, 2), TestSettings) == Features(0.09, 1.0, 1.0, 1.0)
    ensures CalculateFeatures(c3, Counts(9, 12, 3), TestSettings) == Features(0.75, 0.0, 0.0, 1.0)
    ensures CalculateFeatures(c4, Counts(9, 15, 0), TestSettings) == Features(0.6, 0.0, 0.0, 0.0)
  {
    FeatureUrlFilenames(c1, c2, c3, c4);
  }

  // traverse and extract_features on the indented test page

  /** The tags and the texts of the lines of the indented test page, in order. */
  const PageTags: seq<string> := ["html", "body", "a", "b", "body1", "x", "h1", "a"]
  const PageTexts: seq<string> := ["", "hello world", "my space", "hello\tworld", "", "abc", "", "hello"]

  /**
   * The arena create_dom_tree builds from the indented test page, in the
   * order it creates the nodes, with the tags and texts of its lines: the
   * root holds nodes 1 and 4, node 1 holds nodes 2 and 3, and nodes 4, 5
   * and 6 each hold the next one.
   */
  function PageTree(tags: seq<string>, texts: seq<string>): (t: seq<Node>)
    requires |tags| == 8 && |texts| == 8
    ensures |t| == 8 && forall i :: 0 <= i < 8 ==> t[i].tag == tags[i] && t[i].text == texts[i]
  {
    [Node(tags[0], texts[0], None, [1, 4], map[], map[], true),
     Node(tags[1], texts[1], Some(0), [2, 3], map[], map[], true),
     Node(tags[2], texts[2], Some(1), [], map[], map[], true),
     Node(tags[3], texts[3], Some(1), [], map[], map[], true),
     Node(tags[4], texts[4], Some(0), [5], map[], map[], true),
     Node(tags[5], texts[5], Some(4), [6], map[], map[], true),
     Node(tags[6], texts[6], Some(5), [7], map[], map[], true),
     Node(tags[7], texts[7], Some(6), [], map[], map[], true)]
  }

  /** Ranks for the page tree: a node ranks above every node under it. */
  const PageRank: seq<nat> := [4, 1, 0, 0, 3, 2, 1, 0]

  /** The page tree's children lists fall in rank, so it is a forest. */
  lemma PageTreeRanked(tags: seq<string>, texts: seq<string>)
    requires |tags| == 8 && |texts| == 8
    ensures Ranked(PageTree(tags, texts), PageRank)
  {
    var t := PageTree(tags, texts);
    assert t[0].children == [1, 4] && t[1].children == [2, 3] && t[2].children == [] && t[3].children == [];
    assert t[4].children == [5] && t[5].children == [6] && t[6].children == [7] && t[7].children == [];
    forall n, i | 0 <= n < |t| && 0 <= i < |t[n].children|
      ensures t[n].children[i] < |t| && PageRank[t[n].children[i]] < PageRank[n]
    {
      assert n == 0 || n == 1 || n == 2 || n == 3 || n == 4 || n == 5 || n == 6 || n == 7;
    }
  }

  lemma PreorderLeaf(nodes: seq<Node>, rank: seq<nat>, n: NodeId)
    requires Ranked(nodes, rank) && n < |nodes| && nodes[n].children == []
    ensures Preorder(nodes, rank, n) == [n]
  {
  }

  lemma PreorderOnly(nodes: seq<Node>, rank: seq<nat>, n: NodeId, c: NodeId)
    requires Ranked(nodes, rank) && n < |nodes| && nodes[n].children == [c]
    ensures c < |nodes| && Preorder(nodes, rank, n) == [n] + Preorder(nodes, rank, c)
  {
    assert nodes[n].children[0] == c;
    ChildrenBelow(nodes, rank, n);
    assert [c][1..] == [];
    assert PreorderList(nodes, rank, [c], rank[n]) == Preorder(nodes, rank, c) + PreorderList(nodes, rank, [], rank[n]);
  }

  lemma PreorderPair(nodes: seq<Node>, rank: seq<nat>, n: NodeId, c: NodeId, d: NodeId)
    requires Ranked(nodes, rank) && n < |nodes| && nodes[n].children == [c, d]
    ensures c < |nodes| && d < |nodes|
    ensures Preorder(nodes, rank, n) == [n] + Preorder(nodes, rank, c) + Preorder(nodes, rank, d)
  {
    assert nodes[n].children[0] == c && nodes[n].children[1] == d;
    ChildrenBelow(nodes, rank, n);
    assert [c, d][1..] == [d] && [d][1..] == [];
    assert PreorderList(nodes, rank, [d], rank[n]) == Preorder(nodes, rank, d) + PreorderList(nodes, rank, [], rank[n]);
    assert PreorderList(nodes, rank, [c, d], rank[n]) == Preorder(nodes, rank, c) + PreorderList(nodes, rank, [d], rank[n]);
  }

  /** The pre-order of the page tree is the order create_dom_tree read the lines in. */
  lemma PageTreePreorder(tags: seq<string>, texts: seq<string>)
    requires |tags| == 8 && |texts| == 8
    ensures Ranked(PageTree(tags, texts), PageRank)
    ensures Preorder(PageTree(tags, texts), PageRank, 0) == [0, 1, 2, 3, 4, 5, 6, 7]
  {
    var t := PageTree(tags, texts);
    PageTreeRanked(tags, texts);
    PreorderLeaf(t, PageRank, 7);
    PreorderOnly(t, PageRank, 6, 7);
    PreorderOnly(t, PageRank, 5, 6);
    PreorderOnly(t, PageRank, 4, 5);
    PreorderLeaf(t, PageRank, 2);
    PreorderLeaf(t, PageRank, 3);
    PreorderPair(t, PageRank, 1, 2, 3);
    PreorderPair(t, PageRank, 0, 1, 4);
  }

  /** The counters over the page tree are the sum of what its eight lines contribute. */
  lemma PageTreeTotal(tags: seq<string>, texts: seq<string>, s: Settings)
    requires |tags| == 8 && |texts| == 8
    ensures var t := PageTree(tags, texts);
      Total(t, [0, 1, 2, 3, 4, 5, 6, 7], s) ==
        Add(Contribution(t[0], s), Add(Contribution(t[1], s), Add(Contribution(t[2], s), Add(Contribution(t[3], s),
        Add(Contribution(t[4], s), Add(Contribution(t[5], s), Add(Contribution(t[6], s), Add(Contribution(t[7], s), Zero))))))))
  {
    var t := PageTree(tags, texts);
    TotalCons(t, 7, [], s);
    TotalCons(t, 6, [7], s);
    TotalCons(t, 5, [6, 7], s);
    TotalCons(t, 4, [5, 6, 7], s);
    TotalCons(t, 3, [4, 5, 6, 7], s);
    TotalCons(t, 2, [3, 4, 5, 6, 7], s);
    TotalCons(t, 1, [2, 3, 4, 5, 6, 7], s);
    TotalCons(t, 0, [1, 2, 3, 4, 5, 6, 7], s);
  }

  lemma TotalCons(nodes: seq<Node>, m: NodeId, rest: seq<NodeId>, s: Settings)
    requires m < |nodes|
    ensures Total(nodes, [m] + rest, s) == Add(Contribution(nodes[m], s), Total(nodes, rest, s))
  {
    assert ([m] + rest)[1..] == rest;
  }

  lemma LowerCount(s: string)
    requires forall j :: 0 <= j < |s| ==> 'a' <= s[j] <= 'z'
    ensures NonSpaceCount(s) == |s|
  {
    Letters(s);
  }

  lemma CountHello(s: string)
    requires s == "hello"
    ensures NonSpaceCount(s) == 5
  {
    assert forall j :: 0 <= j < |s| ==> 'a' <= s[j] <= 'z';
    LowerCount(s);
  }

  lemma CountWorld(s: string)
    requires s == "world"
    ensures NonSpaceCount(s) == 5
  {
    assert forall j :: 0 <= j < |s| ==> 'a' <= s[j] <= 'z';
    LowerCount(s);
  }

  lemma CountMy(s: string)
    requires s == "my"
    ensures NonSpaceCount(s) == 2
  {
    assert forall j :: 0 <= j < |s| ==> 'a' <= s[j] <= 'z';
    LowerCount(s);
  }

  lemma CountSpace(s: string)
    requires s == "space"
    ensures NonSpaceCount(s) == 5
  {
    assert forall j :: 0 <= j < |s| ==> 'a' <= s[j] <= 'z';
    LowerCount(s);
  }

  lemma CountAbc(s: string)
    requires s == "abc"
    ensures NonSpaceCount(s) == 3
  {
    assert forall j :: 0 <= j < |s| ==> 'a' <= s[j] <= 'z';
    LowerCount(s);
  }

  lemma SeparatorCounts(sp: string, tab: string)
    requires sp == " " && tab == "\t"
    ensures NonSpaceCount(sp) == 0 && NonSpaceCount(tab) == 0
  {
    assert IsSpace(sp[0]) && IsSpace(tab[0]);
  }

  lemma TwoWords(s: string, a: string, sep: string, b: string)
    requires s == a + sep + b && NonSpaceCount(sep) == 0
    ensures NonSpaceCount(s) == NonSpaceCount(a) + NonSpaceCount(b)
  {
    NonSpaceCountAppend3(a, sep, b);
  }

  lemma HelloWorldPieces(s: string, a: string, sp: string, b: string)
    requires s == "hello world" && a == "hello" && sp == " " && b == "world"
    ensures s == a + sp + b
  {
  }

  lemma MySpacePieces(s: string, a: string, sp: string, b: string)
    requires s == "my space" && a == "my" && sp == " " && b == "space"
    ensures s == a + sp + b
  {
  }

  lemma HelloTabPieces(s: string, a: string, tab: string, b: string)
    requires s == "hello\tworld" && a == "hello" && tab == "\t" && b == "world"
    ensures s == a + tab + b
  {
  }

  lemma CountHelloWorld(t: string, a: string, sp: string, b: string)
    requires t == "hello world" && a == "hello" && sp == " " && b == "world"
    ensures NonSpaceCount(t) == 10
  {
    HelloWorldPieces(t, a, sp, b);
    CountHello(a);
    CountWorld(b);
    SeparatorCounts(sp, "\t");
    TwoWords(t, a, sp, b);
  }

  lemma CountMySpace(t: string, a: string, sp: string, b: string)
    requires t == "my space" && a == "my" && sp == " " && b == "space"
    ensures NonSpaceCount(t) == 7
  {
    MySpacePieces(t, a, sp, b);
    CountMy(a);
    CountSpace(b);
    SeparatorCounts(sp, "\t");
    TwoWords(t, a, sp, b);
  }

  lemma CountHelloTab(t: string, a: string, tab: string, b: string)
    requires t == "hello\tworld" && a == "hello" && tab == "\t" && b == "world"
    ensures NonSpaceCount(t) == 10
  {
    HelloTabPieces(t, a, tab, b);
    CountHello(a);
    CountWorld(b);
    SeparatorCounts(" ", tab);
    TwoWords(t, a, tab, b);
  }

  /** count_without_spaces on the texts of the page. */
  lemma PageTextCounts(t1: string, t2: string, t3: string, t4: string, t5: string)
    requires t1 == "hello world" && t2 == "my space" && t3 == "hello\tworld" && t4 == "abc" && t5 == "hello"
    ensures NonSpaceCount(t1) == 10 && NonSpaceCount(t2) == 7 && NonSpaceCount(t3) == 10
    ensures NonSpaceCount(t4) == 3 && NonSpaceCount(t5) == 5
  {
    CountHelloWorld(t1, "hello", " ", "world");
    CountMySpace(t2, "my", " ", "space");
    CountHelloTab(t3, "hello", "\t", "world");
    CountAbc(t4);
    CountHello(t5);
  }

  /** The tags of the page: only the two "a" lines start with "a". */
  lemma PageTagsAnchors()
    ensures IsAnchor("a") && !IsAnchor("html") && !IsAnchor("body") && !IsAnchor("b")
    ensures !IsAnchor("body1") && !IsAnchor("x") && !IsAnchor("h1")
  {
    assert "html"[..1][0] == 'h' && "body"[..1][0] == 'b' && "b"[..1][0] == 'b';
    assert "body1"[..1][0] == 'b' && "x"[..1][0] == 'x' && "h1"[..1][0] == 'h';
  }

  /** The counters over any tree of the page's shape whose lines have the page's anchors and text lengths. */
  lemma PageShapeCounts(tags: seq<string>, texts: seq<string>, s: Settings)
    requires |tags| == 8 && |texts| == 8 && s.largeTextThreshold == 8
    requires IsAnchor(tags[2]) && IsAnchor(tags[7])
    requires !IsAnchor(tags[0]) && !IsAnchor(tags[1]) && !IsAnchor(tags[3])
    requires !IsAnchor(tags[4]) && !IsAnchor(tags[5]) && !IsAnchor(tags[6])
    requires NonSpaceCount(texts[0]) == 0 && NonSpaceCount(texts[1]) == 10 && NonSpaceCount(texts[2]) == 7
    requires NonSpaceCount(texts[3]) == 10 && NonSpaceCount(texts[4]) == 0 && NonSpaceCount(texts[5]) == 3
    requires NonSpaceCount(texts[6]) == 0 && NonSpaceCount(texts[7]) == 5
    ensures Ranked(PageTree(tags, texts), PageRank)
    ensures Add(Zero, Total(PageTree(tags, texts), Preorder(PageTree(tags, texts), PageRank, 0), s)) == Counts(12, 35, 2)
  {
    var t := PageTree(tags, texts);
    LineContribution(t[0], s);
    assert Contribution(t[0], s) == Counts(0, 0, 0);
    LineContribution(t[1], s);
    assert Contribution(t[1], s) == Counts(0, 10, 1);
    LineContribution(t[2], s);
    assert Contribution(t[2], s) == Counts(7, 7, 0);
    LineContribution(t[3], s);
    assert Contribution(t[3], s) == Counts(0, 10, 1);
    LineContribution(t[4], s);
    assert Contribution(t[4], s) == Counts(0, 0, 0);
    LineContribution(t[5], s);
    assert Contribution(t[5], s) == Counts(0, 3, 0);
    LineContribution(t[6], s);
    assert Contribution(t[6], s) == Counts(0, 0, 0);
    LineContribution(t[7], s);
    assert Contribution(t[7], s) == Counts(5, 5, 0);
    PageTreePreorder(tags, texts);
    PageTreeTotal(tags, texts, s);
  }

  lemma LineContribution(node: Node, s: Settings)
    ensures IsAnchor(node.tag) ==> Contribution(node, s) == Counts(NonSpaceCount(node.text), NonSpaceCount(node.text), 0)
    ensures !IsAnchor(node.tag) ==>
      Contribution(node, s) == Counts(0, NonSpaceCount(node.text), if NonSpaceCount(node.text) >= s.largeTextThreshold then 1 else 0)
  {
  }

  /** The lines of the page, one by one. */
  lemma PageLines(tags: seq<string>, texts: seq<string>)
    requires tags == PageTags && texts == PageTexts
    ensures |tags| == 8 && |texts| == 8
    ensures tags[0] == "html" && tags[1] == "body" && tags[2] == "a" && tags[3] == "b"
    ensures tags[4] == "body1" && tags[5] == "x" && tags[6] == "h1" && tags[7] == "a"
    ensures texts[0] == "" && texts[1] == "hello world" && texts[2] == "my space" && texts[3] == "hello\tworld"
    ensures texts[4] == "" && texts[5] == "abc" && texts[6] == "" && texts[7] == "hello"
  {
  }

  /**
   * traverse over the page tree from zero counters: 12 bytes of anchor
   * text, 35 bytes of text, and two long non-anchor texts (body's and b's).
   */
  lemma TraverseExample(tags: seq<string>, texts: seq<string>)
    requires tags == PageTags && texts == PageTexts
    ensures Ranked(PageTree(tags, texts), PageRank)
    ensures Add(Zero, Total(PageTree(tags, texts), Preorder(PageTree(tags, texts), PageRank, 0), TestSettings)) == Counts(12, 35, 2)
  {
    PageLines(tags, texts);
    PageTextCounts(texts[1], texts[2], texts[3], texts[5], texts[7]);
    PageTagsAnchors();
    PageShapeCounts(tags, texts, TestSettings);
  }

  lemma PageUrlPieces(u: string)
    requires u == "http://www.google.com/w/a/b/c?q=1"
    ensures u == "http" + "://" + "www.google.com" + "/w/a/b/c" + "?q=1"
  {
  }

  lemma PageUrlParts()
    ensures Free("http", ':') && NoUpper("http")
    ensures Free("www.google.com", '/') && NoUpper("www.google.com") && Free("/w/a/b/c", '?')
  {
  }

  /** The page URL names the file "c", which starts with no blacklist entry. */
  lemma PageUrlFilename(u: string)
    requires u == "http://www.google.com/w/a/b/c?q=1"
    ensures IsUrlFilename(u, FilenameBlacklist)
  {
    PageUrlPieces(u);
    PageUrlParts();
    UrlParseLaidOut(u, "http", "www.google.com", "/w/a/b/c", "?q=1");
    PageBasename("/w/a/b/c");
    FilenameMatches();
    assert FirstMatch("c", FilenameBlacklist, 0) == -1;
  }

  lemma PageBasename(p: string)
    requires p == "/w/a/b/c"
    ensures GetBasename(p) == "c"
  {
    assert p == "/w/a/b" + "/" + "c" && Free("c", '/');
    BasenameAfter(p, "/w/a/b", "c");
  }

  /**
   * extract_features on the page tree and URL: the link ratio 12/35, a
   * file name, 23 bytes of non-link text (at least 20) and two long texts
   * (at least 2).
   */
  lemma ExtractFeaturesExample(tags: seq<string>, texts: seq<string>, u: string)
    requires tags == PageTags && texts == PageTexts && u == "http://www.google.com/w/a/b/c?q=1"
    ensures Ranked(PageTree(tags, texts), PageRank)
    ensures CalculateFeatures(u, Total(PageTree(tags, texts), Preorder(PageTree(tags, texts), PageRank, 0), TestSettings), TestSettings)
      == Features(12.0 / 35.0, 1.0, 1.0, 1.0)
  {
    TraverseExample(tags, texts);
    PageUrlFilename(u);
    var c := Total(PageTree(tags, texts), Preorder(PageTree(tags, texts), PageRank, 0), TestSettings);
    AddZero(c);
    PageFeatures(u, c, TestSettings);
  }

  /** calculate_features on the page's counters under thresholds of 20 and 2: both count flags are set. */
  lemma PageFeatures(u: string, c: Counts, s: Settings)
    requires c == Counts(12, 35, 2) && s.nonLinkTextLengthThreshold == 20 && s.largeTextCountThreshold == 2
    ensures CalculateFeatures(u, c, s) == Features(12.0 / 35.0, Flag(IsUrlFilename(u, s.filenameBlacklist)), 1.0, 1.0)
  {
  }
}
