/**
 * The expected values of the string helpers' unit tests
 * (tests/utils_test.cpp), proved of the model.
 */
module UtilsExamples {
  import opened Utils

  const List: seq<string> := ["abc", "abd", "xab"]

  /** match_list against ["abc", "abd", "xab"] under the prefix pattern (the default). Matching is case-sensitive. */
  lemma PrefixExamples()
    ensures FirstMatch("ab", List, 0) == -1
    ensures FirstMatch("abc", List, 0) == 0
    ensures FirstMatch("", List, 0) == -1
    ensures FirstMatch("bc", List, 0) == -1
    ensures FirstMatch("Ab", List, 0) == -1
    ensures FirstMatch("abcabc", List, 0) == 0
  {
  }

  /** match_list against ["abc", "abd", "xab"] under the exact and suffix patterns. */
  lemma ExactSuffixExamples()
    ensures FirstMatch("abc", List, 1) == 0
    ensures FirstMatch("ab", List, 1) == -1
    ensures FirstMatch("abcd", List, 1) == -1
    ensures FirstMatch("xa2by", List, 3) == -1
    ensures FirstMatch("helloxab", List, 3) == 2
  {
  }

  /** match_list against ["abc", "abd", "xab"] under the substring pattern. */
  lemma ContainsExamples()
    ensures FirstMatch("abd", List, 2) == 1
    ensures FirstMatch("xaby", List, 2) == 2
  {
    assert OccursAt("abd", "abd", 0);
    assert OccursAt("xaby", "xab", 0);
    assert !Contains("abd", "abc") by {
      forall i | 0 <= i <= 0 ensures !OccursAt("abd", "abc", i) {
        assert "abd"[0..3][2] != "abc"[2];
      }
    }
    assert !Contains("xaby", "abc") by {
      forall i | 0 <= i <= 1 ensures !OccursAt("xaby", "abc", i) {
        assert "xaby"[i..i + 3][0] != "abc"[0] || "xaby"[i..i + 3][2] != "abc"[2];
      }
    }
    assert !Contains("xaby", "abd") by {
      forall i | 0 <= i <= 1 ensures !OccursAt("xaby", "abd", i) {
        assert "xaby"[i..i + 3][0] != "abd"[0] || "xaby"[i..i + 3][2] != "abd"[2];
      }
    }
  }

  /** get_basename on the test paths that end in a name. */
  lemma BasenameNamed()
    ensures GetBasename("/a/b/c") == "c"
    ensures GetBasename("a") == "a"
    ensures GetBasename("a/b//c") == "c"
  {
  }

  /** get_basename on the test paths that are empty or end in '/'. */
  lemma BasenameEmpty()
    ensures GetBasename("/a/b/c/") == ""
    ensures GetBasename("") == ""
    ensures GetBasename("a/b//c/d//") == ""
    ensures GetBasename("/") == ""
  {
  }

  /** A token candidate: non-empty and free of delimiters. */
  predicate Solid(w: string, d: string) {
    w != [] && forall j :: 0 <= j < |w| ==> w[j] !in d
  }

  /** A leading delimiter is skipped. */
  lemma TokensLead(c: char, s: string, d: string)
    requires c in d
    ensures Tokens([c] + s, d) == Tokens(s, d)
  {
    assert ([c] + s)[1..] == s;
  }

  /** A run of non-delimiters ended by a delimiter is the next token. */
  lemma TokensWord(t: string, c: char, s: string, d: string)
    requires Solid(t, d) && c in d
    ensures Tokens(t + [c] + s, d) == [t] + Tokens(s, d)
  {
    var u := t + [c] + s;
    TokenAt(u, d, 0, |t|);
    TokensSkip(u, d, |t|);
    assert u[0..] == u && u[..|t|] == t && u[|t| + 1..] == s;
  }

  /** The layout of the first row of the split test table, for any four words. */
  lemma SplitShape(w1: string, w2: string, w3: string, w4: string, d: string)
    requires Solid(w1, d) && Solid(w2, d) && Solid(w3, d) && Solid(w4, d)
    requires ' ' in d && '\t' in d && '\r' in d && '\n' in d
    ensures Tokens([' '] + (['\t'] + (['\n'] + (w1 + ['\r'] + (w2 + [' '] + ([' '] + (w3 + [' '] + ([' '] + (w4 + [' '] + [])))))))), d)
      == [w1, w2, w3, w4]
  {
    var t4 := w4 + [' '] + [];
    var t3 := w3 + [' '] + ([' '] + t4);
    var t2 := w2 + [' '] + ([' '] + t3);
    var t1 := w1 + ['\r'] + t2;
    TokensLead(' ', ['\t'] + (['\n'] + t1), d);
    TokensLead('\t', ['\n'] + t1, d);
    TokensLead('\n', t1, d);
    TokensWord(w1, '\r', t2, d);
    TokensWord(w2, ' ', [' '] + t3, d);
    TokensLead(' ', t3, d);
    TokensWord(w3, ' ', [' '] + t4, d);
    TokensLead(' ', t4, d);
    TokensWord(w4, ' ', [], d);
    assert Tokens([], d) == [];
  }

  lemma SplitPieces(s: string)
    requires s == " \t\nabc\rdef  xyz  a "
    ensures s == [' '] + (['\t'] + (['\n'] + ("abc" + ['\r'] + ("def" + [' '] + ([' '] + ("xyz" + [' '] + ([' '] + ("a" + [' '] + []))))))))
  {
  }

  lemma SplitWords(d: string)
    requires d == " \t\r\n"
    ensures Solid("abc", d) && Solid("def", d) && Solid("xyz", d) && Solid("a", d)
    ensures ' ' in d && '\t' in d && '\r' in d && '\n' in d
  {
    assert 'a' !in d && 'b' !in d && 'c' !in d && 'd' !in d && 'e' !in d && 'f' !in d;
    assert 'x' !in d && 'y' !in d && 'z' !in d;
  }

  /** split on the first row of the test table: runs of non-delimiters, in order. */
  lemma SplitExample(s: string, d: string)
    requires s == " \t\nabc\rdef  xyz  a " && d == " \t\r\n"
    ensures Tokens(s, d) == ["abc", "def", "xyz", "a"]
  {
    SplitPieces(s);
    SplitWords(d);
    SplitShape("abc", "def", "xyz", "a", d);
  }

  /**
   * split with no delimiters, on the other rows of the test table. Only the
   * first row is exercised by the test's loop (its bound divides the size of
   * a table of C strings by the size of std::string); the second row's
   * expected value is not what split yields with no delimiters.
   */
  lemma SplitNoDelimiterExamples()
    ensures Tokens("abc xyzadf.aeo", "") == ["abc xyzadf.aeo"]
    ensures Tokens("", "") == []
    ensures Tokens("xyz", "") == ["xyz"]
  {
    NoDelimiters("abc xyzadf.aeo");
    NoDelimiters("xyz");
  }

  /** count_without_spaces on the test texts without a space. */
  lemma CountSolid()
    ensures NonSpaceCount("") == 0
    ensures NonSpaceCount("abc") == 3
    ensures NonSpaceCount(" \r\t\n\U{000C}\U{000D}") == 0
  {
  }

  /** Bytes above 0x7F count: the six UTF-8 bytes of a two-character Chinese word give 6. */
  lemma CountMultibyte(s: string)
    requires s == "\U{00E5}\U{00AF}\U{00BC}\U{00E8}\U{0088}\U{00AA}"
    ensures NonSpaceCount(s) == 6
  {
    forall j | 0 <= j < |s| ensures !IsSpace(s[j]) {
      assert s[j] >= '\U{0088}';
    }
  }

  lemma NonSpaceCountAppend3(a: string, b: string, c: string)
    ensures NonSpaceCount(a + b + c) == NonSpaceCount(a) + NonSpaceCount(b) + NonSpaceCount(c)
  {
    NonSpaceCountAppend(a + b, c);
    NonSpaceCountAppend(a, b);
  }

  lemma MixedPieces(s: string, w: string)
    requires s == "abc\U{00F2}\U{00E3}abc \r \ta"
    requires w == " a\rb\n\U{00FF}\U{000C}\U{000D}"
    ensures s == "abc\U{00F2}\U{00E3}abc" + " \r \t" + "a"
    ensures w == " a\rb" + "\n\U{00FF}" + "\U{000C}\U{000D}"
  {
  }

  lemma MixedSolid()
    ensures NonSpaceCount("abc\U{00F2}\U{00E3}abc") == 8
  {
    var a := "abc\U{00F2}\U{00E3}abc";
    assert forall j :: 0 <= j < |a| ==> !IsSpace(a[j]);
  }

  lemma MixedCounts()
    ensures NonSpaceCount(" \r \t") == 0 && NonSpaceCount("a") == 1
  {
  }

  lemma ControlCounts()
    ensures NonSpaceCount(" a\rb") == 2
  {
  }

  lemma TrailCounts()
    ensures NonSpaceCount("\n\U{00FF}") == 1 && NonSpaceCount("\U{000C}\U{000D}") == 0
  {
  }

  /** count_without_spaces on the mixed test texts: only the white-space bytes are skipped. */
  lemma CountMixed(s: string, w: string)
    requires s == "abc\U{00F2}\U{00E3}abc \r \ta"
    requires w == " a\rb\n\U{00FF}\U{000C}\U{000D}"
    ensures NonSpaceCount(s) == 9
    ensures NonSpaceCount(w) == 3
  {
    MixedPieces(s, w);
    MixedSolid();
    MixedCounts();
    ControlCounts();
    TrailCounts();
    NonSpaceCountAppend3("abc\U{00F2}\U{00E3}abc", " \r \t", "a");
    NonSpaceCountAppend3(" a\rb", "\n\U{00FF}", "\U{000C}\U{000D}");
  }

  // urlparse on the test URLs

  predicate Free(s: string, c: char) {
    forall j :: 0 <= j < |s| ==> s[j] != c
  }

  predicate NoUpper(s: string) {
    forall j :: 0 <= j < |s| ==> !('A' <= s[j] <= 'Z')
  }

  lemma LowerFixed(s: string)
    requires NoUpper(s)
    ensures Lower(s) == s
  {
  }

  lemma ProtocolAt(url: string, p: string)
    requires |p| + 3 <= |url| && url[..|p|] == p && url[|p|..|p| + 3] == "://"
    requires Free(p, ':')
    ensures Contains(url, "://")
    ensures UrlParse(url).protocol == Lower(p) && |UrlParse(url).protocol| == |p|
  {
    assert OccursAt(url, "://", |p|);
    forall j | 0 <= j < |p|
      ensures !OccursAt(url, "://", j)
    {
      assert url[j..j + 3][0] == url[j] == url[..|p|][j];
    }
    UrlParseProtocol(url);
  }

  lemma HostAt(url: string, b: nat, h: string)
    requires Contains(url, "://") && |UrlParse(url).protocol| + 3 == b
    requires b + |h| <= |url| && url[b..b + |h|] == h && Free(h, '/')
    requires b + |h| == |url| || url[b + |h|] == '/'
    ensures UrlParse(url).host == Lower(h)
  {
    UrlParseHost(url);
    var e := b + |UrlParse(url).host|;
    assert e <= |url| && (e == |url| || url[e] == '/');
    assert forall j :: b <= j < e ==> url[j] != '/';
    forall j | b <= j < b + |h|
      ensures url[j] != '/'
    {
      assert url[j] == url[b..b + |h|][j - b];
    }
    assert e == b + |h|;
  }

  lemma PathAt(url: string, s: nat, a: string)
    requires Contains(url, "://")
    requires |UrlParse(url).protocol| + 3 + |UrlParse(url).host| == s
    requires s + |a| <= |url| && url[s..s + |a|] == a && Free(a, '?')
    requires s + |a| == |url| || url[s + |a|] == '?'
    ensures UrlParse(url).path == a
  {
    forall j | s <= j < s + |a|
      ensures url[j] != '?'
    {
      assert url[j] == url[s..s + |a|][j - s];
    }
    UrlParsePath(url);
  }

  /**
   * A URL laid out as protocol, "://", host, path and an optional '?' and
   * query parses into those parts.
   */
  lemma HeadAt(url: string, p: string, h: string)
    requires |p| + 3 + |h| <= |url|
    requires url[..|p|] == p && url[|p|..|p| + 3] == "://"
    requires url[|p| + 3..|p| + 3 + |h|] == h
    requires Free(p, ':') && Free(h, '/') && NoUpper(p) && NoUpper(h)
    requires |p| + 3 + |h| == |url| || url[|p| + 3 + |h|] == '/'
    ensures Contains(url, "://")
    ensures UrlParse(url).protocol == p && UrlParse(url).host == h
  {
    LowerFixed(p);
    LowerFixed(h);
    ProtocolAt(url, p);
    HostAt(url, |p| + 3, h);
  }

  lemma UrlParseAt(url: string, p: string, h: string, a: string)
    requires |p| + 3 + |h| + |a| <= |url|
    requires url[..|p|] == p && url[|p|..|p| + 3] == "://"
    requires url[|p| + 3..|p| + 3 + |h|] == h
    requires url[|p| + 3 + |h|..|p| + 3 + |h| + |a|] == a
    requires Free(p, ':') && Free(h, '/') && Free(a, '?') && NoUpper(p) && NoUpper(h)
    requires |p| + 3 + |h| == |url| || url[|p| + 3 + |h|] == '/'
    requires |p| + 3 + |h| + |a| == |url| || url[|p| + 3 + |h| + |a|] == '?'
    ensures Contains(url, "://")
    ensures UrlParse(url).protocol == p && UrlParse(url).host == h && UrlParse(url).path == a
  {
    var r := UrlParse(url);
    var s := |p| + 3 + |h|;
    HeadAt(url, p, h);
    assert |r.protocol| + 3 + |r.host| == s;
    PathAt(url, s, a);
  }

  /** Where the parts of a URL laid out as protocol, "://", host, path and rest lie. */
  lemma Layout(url: string, p: string, h: string, a: string, r: string)
    requires url == p + "://" + h + a + r
    ensures |url| == |p| + 3 + |h| + |a| + |r|
    ensures url[..|p|] == p && url[|p|..|p| + 3] == "://"
    ensures url[|p| + 3..|p| + 3 + |h|] == h
    ensures url[|p| + 3 + |h|..|p| + 3 + |h| + |a|] == a
    ensures url[|p| + 3 + |h|..] == a + r
    ensures url[|p| + 3 + |h| + |a|..] == r
  {
    var b := |p| + 3;
    assert url == p + ("://" + (h + (a + r)));
    assert url[b..] == h + (a + r);
    assert url[b + |h|..] == a + r;
  }

  /**
   * A URL laid out as protocol, "://", host, a path starting with '/' and an
   * optional '?' and query parses into those parts; without a path there is
   * no query either, since a '?' before any '/' belongs to the host.
   */
  lemma UrlParseLaidOut(url: string, p: string, h: string, a: string, r: string)
    requires url == p + "://" + h + a + r
    requires Free(p, ':') && Free(h, '/') && Free(a, '?') && NoUpper(p) && NoUpper(h)
    requires a == [] ==> r == []
    requires a != [] ==> a[0] == '/'
    requires r != [] ==> r[0] == '?'
    ensures UrlParse(url) == ParseResult(p, h, a, if r == [] then [] else r[1..])
  {
    Layout(url, p, h, a, r);
    var s := |p| + 3 + |h|;
    assert a != [] ==> url[s] == url[s..][0] == a[0];
    assert r != [] ==> url[s + |a|] == url[s + |a|..][0] == r[0];
    assert r != [] ==> url[s + |a| + 1..] == r[1..];
    UrlParseAt(url, p, h, a);
    UrlParseQuery(url);
  }

  lemma HostOnlyPieces(u1: string, u5: string)
    requires u1 == "http://www.baidu.com" && u5 == "http://www.baidu.com?x=1"
    ensures u1 == "http" + "://" + "www.baidu.com" + "" + ""
    ensures u5 == "http" + "://" + "www.baidu.com?x=1" + "" + ""
    ensures Free("http", ':') && NoUpper("http")
    ensures Free("www.baidu.com", '/') && NoUpper("www.baidu.com")
    ensures Free("www.baidu.com?x=1", '/') && NoUpper("www.baidu.com?x=1")
  {
  }

  /** urlparse on the test URLs without a '/' after "://": a '?' stays in the host. */
  lemma UrlParseHostOnlyExamples(u1: string, u5: string)
    requires u1 == "http://www.baidu.com" && u5 == "http://www.baidu.com?x=1"
    ensures UrlParse(u1) == ParseResult("http", "www.baidu.com", "", "")
    ensures UrlParse(u5) == ParseResult("http", "www.baidu.com?x=1", "", "")
  {
    HostOnlyPieces(u1, u5);
    UrlParseLaidOut(u1, "http", "www.baidu.com", "", "");
    UrlParseLaidOut(u5, "http", "www.baidu.com?x=1", "", "");
  }

  lemma PathPieces(u2: string)
    requires u2 == "http://news.sina.com.cn/a/b/c"
    ensures u2 == "http" + "://" + "news.sina.com.cn" + "/a/b/c" + ""
  {
  }

  lemma QueryPieces(u3: string, u4: string)
    requires u3 == "http://abc.com/x?a=1"
    requires u4 == "http://xyz.com/a/b/c/?x=1"
    ensures u3 == "http" + "://" + "abc.com" + "/x" + "?a=1"
    ensures u4 == "http" + "://" + "xyz.com" + "/a/b/c/" + "?x=1"
  {
  }

  lemma PathParts()
    ensures Free("http", ':') && NoUpper("http")
    ensures Free("news.sina.com.cn", '/') && NoUpper("news.sina.com.cn") && Free("/a/b/c", '?')
  {
  }

  lemma QueryParts()
    ensures Free("abc.com", '/') && NoUpper("abc.com") && Free("/x", '?')
    ensures Free("xyz.com", '/') && NoUpper("xyz.com") && Free("/a/b/c/", '?')
  {
  }

  /** urlparse on the test URLs with a path, with and without a query. */
  lemma UrlParsePathExamples(u2: string, u3: string, u4: string)
    requires u2 == "http://news.sina.com.cn/a/b/c"
    requires u3 == "http://abc.com/x?a=1"
    requires u4 == "http://xyz.com/a/b/c/?x=1"
    ensures UrlParse(u2) == ParseResult("http", "news.sina.com.cn", "/a/b/c", "")
    ensures UrlParse(u3) == ParseResult("http", "abc.com", "/x", "a=1")
    ensures UrlParse(u4) == ParseResult("http", "xyz.com", "/a/b/c/", "x=1")
  {
    PathPieces(u2);
    QueryPieces(u3, u4);
    PathParts();
    QueryParts();
    UrlParseLaidOut(u2, "http", "news.sina.com.cn", "/a/b/c", "");
    UrlParseLaidOut(u3, "http", "abc.com", "/x", "?a=1");
    UrlParseLaidOut(u4, "http", "xyz.com", "/a/b/c/", "?x=1");
    assert "?a=1"[1..] == "a=1" && "?x=1"[1..] == "x=1";
  }

  /** Without "://" in the text, the whole of it is the protocol. */
  lemma NoSchemeAt(url: string, k: nat)
    requires k + 2 < |url| && url[k] == ':' && url[k + 2] != '/'
    requires forall j :: 0 <= j < |url| && j != k ==> url[j] != ':'
    requires NoUpper(url)
    ensures UrlParse(url) == ParseResult(url, "", "", "")
  {
    assert !Contains(url, "://") by {
      forall i | 0 <= i <= |url| - 3
        ensures !OccursAt(url, "://", i)
      {
        assert url[i..i + 3][0] == url[i] && url[i..i + 3][2] == url[i + 2];
      }
    }
    UrlParseNoScheme(url);
    LowerFixed(url);
  }

  /** urlparse on the test URLs without "://", the empty one included. */
  lemma UrlParseNoSchemeExamples(u6: string)
    requires u6 == "http:/www.baidu.com"
    ensures UrlParse(u6) == ParseResult("http:/www.baidu.com", "", "", "")
    ensures UrlParse("") == ParseResult("", "", "", "")
  {
    assert NoUpper(u6);
    assert forall j :: 0 <= j < |u6| && j != 4 ==> u6[j] != ':';
    NoSchemeAt(u6, 4);
    assert Lower("") == "";
  }

  // strings of the list-page classifier tests

  /** The file name blacklist of the list-page classifier test configuration. */
  const FilenameBlacklist: seq<string> := ["forum.", "list", "default.", "index."]

  /** A text of lower-case letters has no white space. */
  lemma Letters(s: string)
    requires forall j :: 0 <= j < |s| ==> 'a' <= s[j] <= 'z'
    ensures NonSpaceCount(s) == |s|
  {
    forall j | 0 <= j < |s| ensures !IsSpace(s[j]) {
      LetterNotSpace(s[j]);
    }
  }

  lemma LetterNotSpace(c: char)
    requires 'a' <= c <= 'z'
    ensures !IsSpace(c)
  {
    assert forall j :: 0 <= j < |Spaces| ==> Spaces[j] < 'a';
  }

  lemma HeadingPieces(s: string)
    requires s == "abc def\r\nx"
    ensures s == "abc" + " " + "def" + "\r\n" + "x"
  {
  }

  lemma HeadingPieceCounts()
    ensures NonSpaceCount("abc") == 3 && NonSpaceCount("def") == 3 && NonSpaceCount("x") == 1
    ensures NonSpaceCount(" ") == 0 && NonSpaceCount("\r\n") == 0
  {
    Letters("abc");
    Letters("def");
    Letters("x");
    assert IsSpace(' ') && IsSpace('\r') && IsSpace('\n');
  }

  lemma HeadingCount(s: string)
    requires s == "abc def\r\nx"
    ensures NonSpaceCount(s) == 7
  {
    HeadingPieces(s);
    HeadingPieceCounts();
    NonSpaceCountAppend3("abc" + " " + "def", "\r\n", "x");
    NonSpaceCountAppend3("abc", " ", "def");
  }

  lemma LongCount(s: string)
    requires s == "aaaabbbbccccaaaadddds"
    ensures NonSpaceCount(s) == 21
  {
    assert forall j :: 0 <= j < |s| ==> 'a' <= s[j] <= 'z';
    Letters(s);
  }

  lemma AnchorPieces(s: string)
    requires s == "ab cde"
    ensures s == "ab" + " " + "cde"
  {
  }

  lemma AnchorPieceCounts()
    ensures NonSpaceCount("ab") == 2 && NonSpaceCount(" ") == 0 && NonSpaceCount("cde") == 3
  {
    Letters("ab");
    Letters("cde");
    assert IsSpace(' ');
  }

  lemma AnchorCount(s: string)
    requires s == "ab cde"
    ensures NonSpaceCount(s) == 5
  {
    AnchorPieces(s);
    AnchorPieceCounts();
    NonSpaceCountAppend3("ab", " ", "cde");
  }

  /** count_without_spaces on the texts of the process_node test nodes. */
  lemma ProcessNodeCounts(t1: string, t2: string, t3: string)
    requires t1 == "abc def\r\nx" && t2 == "aaaabbbbccccaaaadddds" && t3 == "ab cde"
    ensures NonSpaceCount(t1) == 7 && NonSpaceCount(t2) == 21 && NonSpaceCount(t3) == 5
  {
    HeadingCount(t1);
    LongCount(t2);
    AnchorCount(t3);
  }

  /** The base name of a path with one '/', at its head, is the rest of the path. */
  lemma BasenameRooted(p: string, name: string)
    requires p == "/" + name && Free(name, '/')
    ensures GetBasename(p) == name
  {
    var r := GetBasename(p);
    forall j | 1 <= j < |p| ensures p[j] != '/' {
      assert p[j] == name[j - 1];
    }
    assert p[0] == '/';
    assert |r| == |p| - 1;
    assert p[1..] == name;
  }

  /** The base name of the "/x" test path. */
  lemma BasenameX(p: string)
    requires p == "/x"
    ensures GetBasename(p) == "x"
  {
    BasenameRooted(p, "x");
  }

  lemma BasenameForum(p: string)
    requires p == "/forum"
    ensures GetBasename(p) == "forum"
  {
    assert Free("forum", '/');
    BasenameRooted(p, "forum");
  }

  lemma BasenameIndex(p3: string, p4: string)
    requires p3 == "/index.html" && p4 == "/index."
    ensures GetBasename(p3) == "index.html" && GetBasename(p4) == "index."
  {
    assert Free("index.html", '/') && Free("index.", '/');
    BasenameRooted(p3, "index.html");
    BasenameRooted(p4, "index.");
  }

  /** The base name of a path whose last '/' comes just before `name` is `name`. */
  lemma BasenameAfter(p: string, dir: string, name: string)
    requires p == dir + "/" + name && Free(name, '/')
    ensures GetBasename(p) == name
  {
    var r := GetBasename(p);
    var k := |dir|;
    assert p[k] == '/';
    forall j | k < j < |p| ensures p[j] != '/' {
      assert p[j] == name[j - k - 1];
    }
    forall j | |p| - |r| <= j < |p| ensures p[j] != '/' {
      assert p[j] == r[j - (|p| - |r|)];
    }
    assert |r| == |name|;
    assert p[k + 1..] == name;
  }

  /** A path ending in '/' has an empty base name. */
  lemma BasenameTrailing(p: string)
    requires |p| > 0 && p[|p| - 1] == '/'
    ensures GetBasename(p) == ""
  {
  }

  /** The base names of the paths that are empty or end in '/'. */
  lemma FilenameBasesEmpty()
    ensures GetBasename("") == "" && GetBasename("/a/b/c/") == ""
  {
  }

  /** "x" and "forum" start with no blacklist entry: "forum" is one byte short of "forum.". */
  lemma BlacklistMisses()
    ensures !IsPrefix("forum.", "x") && !IsPrefix("list", "x") && !IsPrefix("default.", "x") && !IsPrefix("index.", "x")
    ensures !IsPrefix("forum.", "forum") && !IsPrefix("list", "forum")
    ensures !IsPrefix("default.", "forum") && !IsPrefix("index.", "forum")
  {
    assert "forum"[..4][0] == 'f';
  }

  /** "index.html" and "index." start with "index." and with no earlier entry. */
  lemma BlacklistHits(s: string)
    requires s == "index.html" || s == "index."
    ensures !IsPrefix("forum.", s) && !IsPrefix("list", s) && !IsPrefix("default.", s) && IsPrefix("index.", s)
  {
    forall k | 0 < k <= |s| ensures s[..k][0] == 'i' {
    }
    assert s[..6] == "index.";
  }

  /** Which base names start with a blacklist entry: "forum" is not "forum." */
  lemma FilenameMatches()
    ensures FirstMatch("x", FilenameBlacklist, 0) == -1 && FirstMatch("forum", FilenameBlacklist, 0) == -1
    ensures FirstMatch("index.html", FilenameBlacklist, 0) == 3 && FirstMatch("index.", FilenameBlacklist, 0) == 3
  {
    BlacklistMisses();
    BlacklistHits("index.html");
    BlacklistHits("index.");
  }
}
