/**
 * The closed set of body-extractor features: the FeatureNames enum of
 * body_extractor.h and the name table c_feature_names of body_extractor.cpp.
 * Both are expanded from one feature list, so a feature's id is its
 * position in the table; the rest of the model uses the ids as extras keys.
 *
 * That list (body_extractor_features.h) is not part of this model. The 19
 * features below are the FN_ names body_extractor.cpp reads or writes,
 * numbered 0..18 in an assumed order; the real list may hold other names
 * or another order.
 */
module FeatureSet {
  import opened Wrappers
  import Utils
  import BodyFeatures

  datatype Feature =
    | MatchedGoodClassIds | MatchedBadClassIds | TagFactor
    | TextLength | CurrentTextLength | CommaCount
    | LinkLength | LinkCount | NodeCount
    | LinkDensity | LinkNodeDensity | IsHeaderTag
    | IsInteractiveTag | IsStructTag | IsCandidate
    | CandidateSource | BasicWeight | IsPTag
    | HasBreakPunc

  /** The enum value of a feature: its position in the feature list. */
  function Id(f: Feature): (k: int)
    ensures 0 <= k < BodyFeatures.FeatureCount
  {
    match f
    case MatchedGoodClassIds => 0
    case MatchedBadClassIds => 1
    case TagFactor => 2
    case TextLength => 3
    case CurrentTextLength => 4
    case CommaCount => 5
    case LinkLength => 6
    case LinkCount => 7
    case NodeCount => 8
    case LinkDensity => 9
    case LinkNodeDensity => 10
    case IsHeaderTag => 11
    case IsInteractiveTag => 12
    case IsStructTag => 13
    case IsCandidate => 14
    case CandidateSource => 15
    case BasicWeight => 16
    case IsPTag => 17
    case HasBreakPunc => 18
  }

  /** The feature an enum value in 0..FN_TOTAL_FEATURE_COUNT-1 stands for. */
  function FromId(k: int): (f: Feature)
    requires 0 <= k < BodyFeatures.FeatureCount
    ensures Id(f) == k
  {
    if k == 0 then MatchedGoodClassIds
    else if k == 1 then MatchedBadClassIds
    else if k == 2 then TagFactor
    else if k == 3 then TextLength
    else if k == 4 then CurrentTextLength
    else if k == 5 then CommaCount
    else if k == 6 then LinkLength
    else if k == 7 then LinkCount
    else if k == 8 then NodeCount
    else if k == 9 then LinkDensity
    else if k == 10 then LinkNodeDensity
    else if k == 11 then IsHeaderTag
    else if k == 12 then IsInteractiveTag
    else if k == 13 then IsStructTag
    else if k == 14 then IsCandidate
    else if k == 15 then CandidateSource
    else if k == 16 then BasicWeight
    else if k == 17 then IsPTag
    else HasBreakPunc
  }

  /** Every feature has its own id, and every id names a feature: the enum is a bijection onto 0..18. */
  lemma IdBijective(f: Feature, g: Feature)
    ensures FromId(Id(f)) == f
    ensures Id(f) == Id(g) <==> f == g
  {
  }

  /** The enum values agree with the extras keys the rest of the model uses. */
  lemma IdMatchesKeys()
    ensures Id(MatchedGoodClassIds) == BodyFeatures.MatchedGoodClassIds
    ensures Id(MatchedBadClassIds) == BodyFeatures.MatchedBadClassIds
    ensures Id(TagFactor) == BodyFeatures.TagFactor
    ensures Id(TextLength) == BodyFeatures.TextLength
    ensures Id(CurrentTextLength) == BodyFeatures.CurrentTextLength
    ensures Id(CommaCount) == BodyFeatures.CommaCount
    ensures Id(LinkLength) == BodyFeatures.LinkLength
    ensures Id(LinkCount) == BodyFeatures.LinkCount
    ensures Id(NodeCount) == BodyFeatures.NodeCount
    ensures Id(LinkDensity) == BodyFeatures.LinkDensity
    ensures Id(LinkNodeDensity) == BodyFeatures.LinkNodeDensity
  {
  }

  /** The enum values agree with the extras keys the rest of the model uses (the flags and the scores). */
  lemma IdMatchesFlagKeys()
    ensures Id(IsHeaderTag) == BodyFeatures.IsHeaderTag
    ensures Id(IsInteractiveTag) == BodyFeatures.IsInteractiveTag
    ensures Id(IsStructTag) == BodyFeatures.IsStructTag
    ensures Id(IsCandidate) == BodyFeatures.IsCandidate
    ensures Id(CandidateSource) == BodyFeatures.CandidateSource
    ensures Id(BasicWeight) == BodyFeatures.BasicWeight
    ensures Id(IsPTag) == BodyFeatures.IsPTag
    ensures Id(HasBreakPunc) == BodyFeatures.HasBreakPunc
  {
  }

  /** A feature's name: the entry of the name table at its id (the `#f` of the feature macro). */
  function Name(f: Feature): string {
    BodyFeatures.FeatureNames[Id(f)]
  }

  /** The name table has one entry per feature and no name twice. */
  lemma NamesDistinct()
    ensures |BodyFeatures.FeatureNames| == BodyFeatures.FeatureCount
    ensures forall i, j :: 0 <= i < j < |BodyFeatures.FeatureNames| ==>
      BodyFeatures.FeatureNames[i] != BodyFeatures.FeatureNames[j]
  {
    var t := BodyFeatures.FeatureNames;
    forall i, j | 0 <= i < j < |t|
      ensures t[i] != t[j]
    {
      NamesDiffer(i, j);
    }
  }

  /** Two entries of the name table differ in length or in their seventh character. */
  lemma NamesDiffer(i: int, j: int)
    requires 0 <= i < j < |BodyFeatures.FeatureNames|
    ensures BodyFeatures.FeatureNames[i] != BodyFeatures.FeatureNames[j]
  {
    NameKey(i);
    NameKey(j);
  }

  /** The length and the seventh character of one name of the table. */
  lemma NameKey(i: int)
    requires 0 <= i < |BodyFeatures.FeatureNames|
    ensures Key(BodyFeatures.FeatureNames[i]) == Keys[i]
  {
  }

  function Key(s: string): (int, char) {
    (|s|, if 6 < |s| then s[6] else '0')
  }

  /** Key of each name, in table order; no two are equal. */
  const Keys: seq<(int, char)> := [
    (25, 'C'), (24, 'C'), (13, '_'), (14, 'T'), (22, 'R'), (14, 'M'), (14, 'K'),
    (13, 'K'), (13, 'E'), (15, 'K'), (20, 'K'), (16, 'H'), (21, 'I'), (16, 'S'),
    (15, 'C'), (19, 'D'), (15, 'I'), (11, 'P'), (17, '_')]

  /**
   * Looking a name up in the table, as init does when it turns the words of
   * a classifier expression into feature ids: the feature with that name, if
   * any.
   */
  function Lookup(s: string): (r: Option<Feature>)
    ensures r.Some? ==> Name(r.value) == s
  {
    var k := Utils.IndexOf(s, BodyFeatures.FeatureNames);
    if k < 0 then None else Some(FromId(k))
  }

  /** In a list without repeated entries, the first index holding an entry is its own index. */
  lemma {:induction false} IndexOfDistinct(t: seq<string>, k: int)
    requires 0 <= k < |t|
    requires forall i, j :: 0 <= i < j < |t| ==> t[i] != t[j]
    ensures Utils.IndexOf(t[k], t) == k
    decreases |t|
  {
    if k > 0 {
      assert t[0] != t[k];
      assert t[1..][k - 1] == t[k];
      IndexOfDistinct(t[1..], k - 1);
    }
  }

  /** The first-index search fails exactly on what the list does not hold. */
  lemma {:induction false} IndexOfMissing(s: string, t: seq<string>)
    ensures Utils.IndexOf(s, t) < 0 <==> s !in t
    decreases |t|
  {
    if t != [] && t[0] != s {
      IndexOfMissing(s, t[1..]);
      assert s in t <==> s in t[1..];
    }
  }

  /** Lookup inverts Name. */
  lemma LookupName(f: Feature)
    ensures Lookup(Name(f)) == Some(f)
  {
    var t, k := BodyFeatures.FeatureNames, Id(f);
    NamesDistinct();
    IndexOfDistinct(t, k);
    IdBijective(f, f);
    assert Utils.IndexOf(Name(f), t) == k;
  }

  /** Lookup finds nothing exactly for the words that are not feature names. */
  lemma LookupMissing(s: string)
    ensures Lookup(s) == None <==> s !in BodyFeatures.FeatureNames
  {
    IndexOfMissing(s, BodyFeatures.FeatureNames);
  }
}
