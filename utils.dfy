/**
 * The string helpers every other component uses: URL splitting, base names,
 * a strtok-style tokenizer, a matcher of one string against a list of
 * patterns in four modes, and a counter of the non-space bytes of a text.
 *
 * A `char` stands for one byte of a C++ `std::string`; texts are assumed to
 * hold no NUL byte, so the C-string views the source takes of them
 * (`c_str()`, `strlen`) see the whole text.
 */
module Utils {

  // ---------------------------------------------------------------------
  // Relations between strings
  // ---------------------------------------------------------------------

  predicate IsPrefix(p: string, s: string) {
    |p| <= |s| && s[..|p|] == p
  }

  predicate IsSuffix(p: string, s: string) {
    |p| <= |s| && s[|s| - |p|..] == p
  }

  /** `sub` occurs in `s` starting at index `i`. */
  predicate OccursAt(s: string, sub: string, i: int) {
    0 <= i && i + |sub| <= |s| && s[i..i + |sub|] == sub
  }

  /** `sub` occurs somewhere in `s` (the empty string occurs everywhere). */
  predicate Contains(s: string, sub: string) {
    exists i :: 0 <= i <= |s| - |sub| && OccursAt(s, sub, i)
  }

  /** Concatenation is associative. */
  lemma Assoc<T>(a: seq<T>, b: seq<T>, c: seq<T>)
    ensures a + (b + c) == (a + b) + c
  {
  }

  /** The prefix of the whole length is the whole sequence. */
  lemma WholePrefix<T>(s: seq<T>, j: nat)
    requires j == |s|
    ensures s[..j] == s
  {
  }

  /** The first index at or after `from` where `sub` occurs, or `|s|` when there is none (std::search). */
  function SearchFrom(s: string, sub: string, from: nat): (k: nat)
    requires from <= |s|
    ensures from <= k <= |s|
    ensures k < |s| || |sub| == 0 ==> OccursAt(s, sub, k)
    ensures forall j :: from <= j < k ==> !OccursAt(s, sub, j)
    decreases |s| - from
  {
    if from + |sub| > |s| then |s|
    else if s[from..from + |sub|] == sub then from
    else SearchFrom(s, sub, from + 1)
  }

  /** The first index at or after `from` that holds `c`, or `|s|` when there is none (std::find). */
  function FindFrom(s: string, c: char, from: nat): (k: nat)
    requires from <= |s|
    ensures from <= k <= |s|
    ensures k < |s| ==> s[k] == c
    ensures forall j :: from <= j < k ==> s[j] != c
    decreases |s| - from
  {
    if from == |s| then |s|
    else if s[from] == c then from
    else FindFrom(s, c, from + 1)
  }

  /** `tolower` of the C locale: only 'A'..'Z' change. */
  function ToLower(c: char): char {
    if 'A' <= c <= 'Z' then (c as int + 32) as char else c
  }

  /** The text with every byte passed through `ToLower`. */
  function Lower(s: string): string {
    seq(|s|, i requires 0 <= i < |s| => ToLower(s[i]))
  }

  // ---------------------------------------------------------------------
  // urlparse
  // ---------------------------------------------------------------------

  datatype ParseResult = ParseResult(protocol: string, host: string, path: string, query: string)

  /**
   * Splits a URL at its first "://", the first '/' after it and the first
   * '?' after that. The protocol and host are lower-cased; without "://" the
   * whole URL, lower-cased, is the protocol.
   */
  function UrlParse(url: string): ParseResult {
    var p := SearchFrom(url, "://", 0);
    if p == |url| then
      ParseResult(Lower(url), "", "", "")
    else
      var slash := FindFrom(url, '/', p + 3);
      var q := FindFrom(url, '?', slash);
      var rest := if q < |url| then q + 1 else q;
      ParseResult(Lower(url[..p]), Lower(url[p + 3..slash]), url[slash..q], url[rest..])
  }

  /** A text contains `sub` exactly when the search from its start stops before its end. */
  lemma SearchFinds(s: string, sub: string)
    requires |sub| > 0
    ensures Contains(s, sub) <==> SearchFrom(s, sub, 0) < |s|
  {
    var k := SearchFrom(s, sub, 0);
    if k < |s| {
      assert OccursAt(s, sub, k);
    }
  }

  /** Without "://" the whole URL, lower-cased, is the protocol and every other part is empty. */
  lemma UrlParseNoScheme(url: string)
    requires !Contains(url, "://")
    ensures UrlParse(url) == ParseResult(Lower(url), "", "", "")
  {
    SearchFinds(url, "://");
  }

  /** With "://" the protocol is the lower-cased text before its first occurrence. */
  lemma UrlParseProtocol(url: string)
    requires Contains(url, "://")
    ensures var k := |UrlParse(url).protocol|;
      && OccursAt(url, "://", k)
      && (forall j :: 0 <= j < k ==> !OccursAt(url, "://", j))
      && UrlParse(url).protocol == Lower(url[..k])
  {
    SearchFinds(url, "://");
    var p := SearchFrom(url, "://", 0);
    assert UrlParse(url).protocol == Lower(url[..p]);
  }

  /** With "://" the host is the lower-cased text from after it up to the first '/'. */
  lemma UrlParseHost(url: string)
    requires Contains(url, "://")
    ensures var r := UrlParse(url);
      var k := |r.protocol| + 3;
      var h := k + |r.host|;
      && h <= |url|
      && r.host == Lower(url[k..h])
      && (forall j :: k <= j < h ==> url[j] != '/')
      && (h == |url| || url[h] == '/')
  {
    SearchFinds(url, "://");
    var p := SearchFrom(url, "://", 0);
    var slash := FindFrom(url, '/', p + 3);
    assert UrlParse(url).protocol == Lower(url[..p]);
    assert UrlParse(url).host == Lower(url[p + 3..slash]);
  }

  /** With "://" the path runs from the host's end up to the first '?' after it. */
  lemma UrlParsePath(url: string)
    requires Contains(url, "://")
    ensures var r := UrlParse(url);
      var h := |r.protocol| + 3 + |r.host|;
      && h + |r.path| <= |url|
      && url[h..h + |r.path|] == r.path
      && (forall j :: 0 <= j < |r.path| ==> r.path[j] != '?')
      && (h + |r.path| == |url| || url[h + |r.path|] == '?')
  {
    SearchFinds(url, "://");
    var p := SearchFrom(url, "://", 0);
    var slash := FindFrom(url, '/', p + 3);
    var q := FindFrom(url, '?', slash);
    var r := UrlParse(url);
    assert |r.protocol| == p && |r.host| == slash - (p + 3);
    assert r.path == url[slash..q] && |r.path| == q - slash;
    assert slash + |r.path| == q;
    forall j | 0 <= j < |r.path|
      ensures r.path[j] != '?'
    {
      assert r.path[j] == url[slash + j];
    }
  }

  /** With "://" the query is what follows the '?' that ends the path, or empty when there is none. */
  lemma UrlParseQuery(url: string)
    requires Contains(url, "://")
    ensures var r := UrlParse(url);
      var q := |r.protocol| + 3 + |r.host| + |r.path|;
      && q <= |url|
      && (q == |url| ==> r.query == "")
      && (q < |url| ==> r.query == url[q + 1..])
  {
    SearchFinds(url, "://");
    var p := SearchFrom(url, "://", 0);
    var slash := FindFrom(url, '/', p + 3);
    var q := FindFrom(url, '?', slash);
    var r := UrlParse(url);
    assert |r.protocol| + 3 + |r.host| + |r.path| == q;
    assert r.query == url[if q < |url| then q + 1 else q..];
  }

  // ---------------------------------------------------------------------
  // get_basename
  // ---------------------------------------------------------------------

  /** What follows the last '/' of a path, or the whole path when it has none. */
  function GetBasename(path: string): (r: string)
    ensures IsSuffix(r, path)
    ensures forall j :: 0 <= j < |r| ==> r[j] != '/'
    ensures |r| < |path| ==> path[|path| - |r| - 1] == '/'
    ensures |r| == |path| <==> forall j :: 0 <= j < |path| ==> path[j] != '/'
  {
    if path == [] then []
    else if path[|path| - 1] == '/' then []
    else
      var rest := GetBasename(path[..|path| - 1]);
      assert forall j :: 0 <= j < |path| - 1 ==> path[..|path| - 1][j] == path[j];
      rest + [path[|path| - 1]]
  }

  // ---------------------------------------------------------------------
  // split
  // ---------------------------------------------------------------------

  /** The length of the longest prefix of `s` that holds no delimiter. */
  function RunLength(s: string, delims: string): (n: nat)
    ensures n <= |s|
    ensures forall j :: 0 <= j < n ==> s[j] !in delims
    ensures n < |s| ==> s[n] in delims
  {
    if s == [] || s[0] in delims then 0 else 1 + RunLength(s[1..], delims)
  }

  /** The tokens strtok_r yields on `s`: its maximal runs of non-delimiter characters, in order. */
  function Tokens(s: string, delims: string): seq<string>
    decreases |s|
  {
    if s == [] then []
    else if s[0] in delims then Tokens(s[1..], delims)
    else
      var n := RunLength(s, delims);
      [s[..n]] + Tokens(s[n..], delims)
  }

  /** The first position at or after `pos` that holds no delimiter (strspn); skipping delimiters loses no token. */
  method SkipDelimiters(str: string, delimiter: string, pos: nat) returns (start: nat)
    requires pos <= |str|
    ensures pos <= start <= |str|
    ensures start == |str| || str[start] !in delimiter
    ensures Tokens(str[start..], delimiter) == Tokens(str[pos..], delimiter)
  {
    start := pos;
    while start < |str| && str[start] in delimiter
      invariant pos <= start <= |str|
      invariant Tokens(str[start..], delimiter) == Tokens(str[pos..], delimiter)
    {
      TokensSkip(str, delimiter, start);
      start := start + 1;
    }
  }

  /** The end of the run of non-delimiters starting at `start` (strcspn). */
  method ScanToken(str: string, delimiter: string, start: nat) returns (end: nat)
    requires start <= |str|
    ensures start <= end <= |str|
    ensures forall j :: start <= j < end ==> str[j] !in delimiter
    ensures end == |str| || str[end] in delimiter
  {
    end := start;
    while end < |str| && str[end] !in delimiter
      invariant start <= end <= |str|
      invariant forall j :: start <= j < end ==> str[j] !in delimiter
    {
      end := end + 1;
    }
  }

  /**
   * One call of strtok_r on `str` resumed at `pos`: skips delimiters, then
   * yields the token `str[start..end]` and the position after the delimiter
   * ending it, or reports that no token is left.
   */
  method StrTok(str: string, delimiter: string, pos: nat) returns (found: bool, start: nat, end: nat, next: nat)
    requires pos <= |str|
    ensures !found ==> Tokens(str[pos..], delimiter) == []
    ensures found ==> pos <= start < end <= next <= |str|
    ensures found ==> Tokens(str[pos..], delimiter) == [str[start..end]] + Tokens(str[next..], delimiter)
  {
    start := SkipDelimiters(str, delimiter, pos);
    if start == |str| {
      assert str[start..] == [];
      return false, start, start, start;
    }
    end := ScanToken(str, delimiter, start);
    // the delimiter that ends the token is overwritten and the scan resumes after it
    next := if end < |str| then end + 1 else end;
    TokenNext(str, delimiter, start, end, next);
    found := true;
  }

  lemma TokenNext(s: string, delims: string, start: nat, end: nat, next: nat)
    requires start < end <= |s|
    requires forall j :: start <= j < end ==> s[j] !in delims
    requires end == |s| || s[end] in delims
    requires next == if end < |s| then end + 1 else end
    ensures Tokens(s[start..], delims) == [s[start..end]] + Tokens(s[next..], delims)
  {
    TokenAt(s, delims, start, end);
    if end < |s| {
      TokensSkip(s, delims, end);
    }
  }

  /** Appends to `segments` the tokens of `str` separated by any character of `delimiter`. */
  method Split(str: string, delimiter: string, segments: seq<string>) returns (out: seq<string>)
    ensures out == segments + Tokens(str, delimiter)
  {
    out := segments;
    var pos := 0;
    assert str[0..] == str;
    while true
      invariant 0 <= pos <= |str|
      invariant out + Tokens(str[pos..], delimiter) == segments + Tokens(str, delimiter)
      decreases |str| - pos
    {
      var found, start, end, next := StrTok(str, delimiter, pos);
      if !found {
        return;
      }
      out := out + [str[start..end]];
      pos := next;
    }
  }

  lemma TokensSkip(s: string, delims: string, pos: nat)
    requires pos < |s| && s[pos] in delims
    ensures Tokens(s[pos..], delims) == Tokens(s[pos + 1..], delims)
  {
    assert s[pos..][1..] == s[pos + 1..];
  }

  lemma {:induction false} RunLengthIs(s: string, delims: string, n: nat)
    requires n <= |s|
    requires forall j :: 0 <= j < n ==> s[j] !in delims
    requires n == |s| || s[n] in delims
    ensures RunLength(s, delims) == n
    decreases n
  {
    if n > 0 {
      RunLengthIs(s[1..], delims, n - 1);
    }
  }

  lemma TokenAt(s: string, delims: string, pos: nat, end: nat)
    requires pos < end <= |s|
    requires forall j :: pos <= j < end ==> s[j] !in delims
    requires end == |s| || s[end] in delims
    ensures Tokens(s[pos..], delims) == [s[pos..end]] + Tokens(s[end..], delims)
  {
    var t := s[pos..];
    RunLengthIs(t, delims, end - pos);
    assert t[..end - pos] == s[pos..end];
    assert t[end - pos..] == s[end..];
  }

  /** Every token is non-empty and holds no delimiter. */
  lemma {:induction false} TokensWellFormed(s: string, delims: string)
    ensures forall t :: t in Tokens(s, delims) ==>
      t != [] && forall j :: 0 <= j < |t| ==> t[j] !in delims
    decreases |s|
  {
    if s == [] {
    } else if s[0] in delims {
      TokensWellFormed(s[1..], delims);
    } else {
      var n := RunLength(s, delims);
      TokensWellFormed(s[n..], delims);
    }
  }

  function Concat(ts: seq<string>): string {
    if ts == [] then [] else ts[0] + Concat(ts[1..])
  }

  /** The text with every delimiter removed. */
  function Strip(s: string, delims: string): string {
    if s == [] then [] else (if s[0] in delims then [] else [s[0]]) + Strip(s[1..], delims)
  }

  lemma {:induction false} StripAppend(a: string, b: string, delims: string)
    ensures Strip(a + b, delims) == Strip(a, delims) + Strip(b, delims)
    decreases |a|
  {
    if a == [] {
      assert a + b == b;
    } else {
      assert (a + b)[1..] == a[1..] + b;
      StripAppend(a[1..], b, delims);
    }
  }

  lemma {:induction false} StripNone(s: string, delims: string)
    requires forall j :: 0 <= j < |s| ==> s[j] !in delims
    ensures Strip(s, delims) == s
    decreases |s|
  {
    if s != [] {
      StripNone(s[1..], delims);
    }
  }

  /** Nothing but the delimiters is lost: the tokens put together are the text without its delimiters. */
  lemma {:induction false} TokensConcat(s: string, delims: string)
    ensures Concat(Tokens(s, delims)) == Strip(s, delims)
    decreases |s|
  {
    if s == [] {
    } else if s[0] in delims {
      TokensConcat(s[1..], delims);
    } else {
      var n := RunLength(s, delims);
      var ts := Tokens(s[n..], delims);
      assert Tokens(s, delims) == [s[..n]] + ts;
      assert ([s[..n]] + ts)[1..] == ts;
      TokensConcat(s[n..], delims);
      assert s == s[..n] + s[n..];
      StripAppend(s[..n], s[n..], delims);
      StripNone(s[..n], delims);
    }
  }

  /** Tokens joined with one delimiter character each. */
  function Join(ts: seq<string>, d: char): string {
    if ts == [] then []
    else if |ts| == 1 then ts[0]
    else ts[0] + [d] + Join(ts[1..], d)
  }

  /** Splitting undoes joining, for tokens that are non-empty and free of delimiters. */
  lemma {:induction false} SplitJoin(ts: seq<string>, d: char, delims: string)
    requires d in delims
    requires forall i :: 0 <= i < |ts| ==> ts[i] != [] && forall j :: 0 <= j < |ts[i]| ==> ts[i][j] !in delims
    ensures Tokens(Join(ts, d), delims) == ts
    decreases |ts|
  {
    if ts == [] {
    } else {
      var s := Join(ts, d);
      var n := |ts[0]|;
      if |ts| == 1 {
        assert s == ts[0];
        TokenAt(s, delims, 0, n);
        assert s[0..] == s && s[..n] == ts[0] && s[n..] == [];
      } else {
        var rest := Join(ts[1..], d);
        assert s == ts[0] + [d] + rest;
        assert s[..n] == ts[0];
        TokenAt(s, delims, 0, n);
        assert s[0..] == s;
        assert s[n..][1..] == rest;
        SplitJoin(ts[1..], d, delims);
        assert ts == [ts[0]] + ts[1..];
      }
    }
  }

  /** Only delimiters separate tokens: with no delimiters a non-empty text is one token. */
  lemma NoDelimiters(s: string)
    ensures Tokens(s, "") == (if s == [] then [] else [s])
  {
    if s != [] {
      TokenAt(s, "", 0, |s|);
      assert s[0..] == s && s[..|s|] == s && s[|s|..] == [];
    }
  }

  // ---------------------------------------------------------------------
  // match_list
  // ---------------------------------------------------------------------

  /**
   * Whether `s` matches one entry of a list under a pattern: 0 the entry is a
   * prefix of `s`, 1 equal, 2 a substring of `s`, 3 a suffix of `s`; any other
   * pattern matches nothing.
   */
  predicate Matches(s: string, entry: string, pattern: int) {
    match pattern
    case 0 => IsPrefix(entry, s)
    case 1 => s == entry
    case 2 => Contains(s, entry)
    case 3 => IsSuffix(entry, s)
    case _ => false
  }

  /** The index of the first entry `s` matches under `pattern`, or -1. */
  function FirstMatch(s: string, list: seq<string>, pattern: int): (r: int)
    ensures -1 <= r < |list|
    ensures r >= 0 ==> Matches(s, list[r], pattern)
    ensures forall j :: 0 <= j < |list| && (r < 0 || j < r) ==> !Matches(s, list[j], pattern)
  {
    if list == [] then -1
    else if Matches(s, list[0], pattern) then 0
    else
      var r := FirstMatch(s, list[1..], pattern);
      assert forall j :: 1 <= j < |list| ==> list[1..][j - 1] == list[j];
      if r < 0 then -1 else r + 1
  }

  /** The first index of `list` holding exactly `s`, or -1. */
  function IndexOf(s: string, list: seq<string>): (r: int)
    ensures -1 <= r < |list|
    ensures r >= 0 ==> list[r] == s
  {
    if list == [] then -1
    else if list[0] == s then 0
    else var r := IndexOf(s, list[1..]); if r < 0 then -1 else r + 1
  }

  /** match_list with pattern 1 is IndexOf. */
  lemma {:induction false} ExactMatchIsIndexOf(s: string, list: seq<string>)
    ensures FirstMatch(s, list, 1) == IndexOf(s, list)
    decreases |list|
  {
    if list != [] && list[0] != s {
      ExactMatchIsIndexOf(s, list[1..]);
    }
  }

  /** Under pattern 1 some entry matches exactly when the text is one of the entries. */
  lemma ExactMatchFound(s: string, list: seq<string>)
    ensures FirstMatch(s, list, 1) != -1 <==> s in list
  {
    ExactMatchIsIndexOf(s, list);
  }

  /** Whether `entry` is a substring of `s`, as std::string::find tests it. */
  method Find(s: string, entry: string) returns (found: bool)
    ensures found <==> Contains(s, entry)
  {
    if |entry| > |s| {
      return false;
    }
    var i := 0;
    while i + |entry| <= |s|
      invariant 0 <= i <= |s| - |entry| + 1
      invariant forall j :: 0 <= j < i ==> !OccursAt(s, entry, j)
    {
      if s[i..i + |entry|] == entry {
        assert OccursAt(s, entry, i);
        return true;
      }
      i := i + 1;
    }
    return false;
  }

  /** match_list: the index of the first entry `str` matches under `pattern`, -1 when none does. */
  method MatchList(str: string, list: seq<string>, pattern: int) returns (r: int)
    ensures -1 <= r < |list|
    ensures r >= 0 ==> Matches(str, list[r], pattern)
    ensures forall j :: 0 <= j < |list| && (r < 0 || j < r) ==> !Matches(str, list[j], pattern)
    ensures r == FirstMatch(str, list, pattern)
  {
    var len := |str|;
    var i := 0;
    while i < |list|
      invariant 0 <= i <= |list|
      invariant forall j :: 0 <= j < i ==> !Matches(str, list[j], pattern)
    {
      var e := list[i];
      if pattern == 0 {
        if |e| <= len && str[..|e|] == e {
          r := i;
          FirstMatchIs(str, list, pattern, r);
          return;
        }
      } else if pattern == 1 {
        if len == |e| && str[..|e|] == e {
          assert str == e;
          r := i;
          FirstMatchIs(str, list, pattern, r);
          return;
        }
      } else if pattern == 2 {
        var found := Find(str, e);
        if found {
          r := i;
          FirstMatchIs(str, list, pattern, r);
          return;
        }
      } else if pattern == 3 {
        if len >= |e| && str[len - |e|..] == e {
          r := i;
          FirstMatchIs(str, list, pattern, r);
          return;
        }
      } else {
        r := -1;
        FirstMatchIs(str, list, pattern, r);
        return;
      }
      i := i + 1;
    }
    r := -1;
    FirstMatchIs(str, list, pattern, r);
  }

  /** The first-match properties determine the result. */
  lemma FirstMatchIs(s: string, list: seq<string>, pattern: int, r: int)
    requires -1 <= r < |list|
    requires r >= 0 ==> Matches(s, list[r], pattern)
    requires forall j :: 0 <= j < |list| && (r < 0 || j < r) ==> !Matches(s, list[j], pattern)
    ensures r == FirstMatch(s, list, pattern)
  {
  }

  // ---------------------------------------------------------------------
  // count_without_spaces
  // ---------------------------------------------------------------------

  /** The bytes the source treats as white space: ' ', '\r', '\t', '\n' and form feed. */
  const Spaces: string := " \r\t\n\U{000C}\U{000D}"

  predicate IsSpace(c: char) {
    c in Spaces
  }

  /** The number of bytes of `s` that are not white space. */
  function NonSpaceCount(s: string): (n: nat)
    ensures n <= |s|
    ensures n == |s| <==> forall j :: 0 <= j < |s| ==> !IsSpace(s[j])
    ensures n == 0 <==> forall j :: 0 <= j < |s| ==> IsSpace(s[j])
  {
    if s == [] then 0
    else
      assert forall j :: 1 <= j < |s| ==> s[1..][j - 1] == s[j];
      (if IsSpace(s[0]) then 0 else 1) + NonSpaceCount(s[1..])
  }

  lemma {:induction false} NonSpaceCountAppend(a: string, b: string)
    ensures NonSpaceCount(a + b) == NonSpaceCount(a) + NonSpaceCount(b)
    decreases |a|
  {
    if a == [] {
      assert a + b == b;
    } else {
      assert (a + b)[1..] == a[1..] + b;
      NonSpaceCountAppend(a[1..], b);
    }
  }

  /** count_without_spaces: every byte that is not white space counts once, multi-byte characters byte by byte. */
  method CountWithoutSpaces(str: string) returns (count: int)
    ensures count == NonSpaceCount(str)
  {
    count := 0;
    var i := 0;
    while i < |str|
      invariant 0 <= i <= |str|
      invariant count == NonSpaceCount(str[..i])
    {
      assert str[..i + 1] == str[..i] + [str[i]];
      NonSpaceCountAppend(str[..i], [str[i]]);
      if !IsSpace(str[i]) {
        count := count + 1;
      }
      i := i + 1;
    }
    assert str[..i] == str;
  }
}
