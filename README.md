# page_analysis core, modelled in Dafny

page_analysis takes the DOM tree of an HTML page and finds its main body.
It also computes the features a list-page classifier scores. This project
models the core of that library and proves properties of the model.

- **String utilities** (`utils.dfy`, module `Utils`):
  - `urlparse` splits a URL into protocol, host, path and query;
  - `get_basename` returns the part of a path after its last '/';
  - `split` is a `strtok_r` tokenizer;
  - `match_list` matches one string against a list under four patterns
    (prefix, equal, substring, suffix);
  - `count_without_spaces` counts the bytes of a text that are not white space.
- **The DOM** (`dom_model.dfy`, `dom_tree.dfy`, `default_traversal.dfy`):
  - `DomNode` becomes a value `Node` held in an arena, the class
    `DomTree.Dom`, and is addressed by index;
  - pointer surgery (append_child, drop_node, the destructor) becomes updates
    of the arena;
  - the pre-order and post-order traversals are specified by the visit orders
    `Preorder` and `Postorder`.
  - Two invariants make the arena a forest: `Ranked` (a ghost rank that falls
    from parent to child) and `Linked` (child and parent links agree, and
    nodes under a live node are live).
- **BooleanClassifier** (`boolean_classifier.dfy`):
  - `init` compiles an expression such as `FN_A == 1 && ! FN_B > 0.5 || FN_C <= 2`
    into atoms tagged with the id of their `&&` group;
  - `classify` runs those atoms, skipping the rest of a group that failed and
    returning early when a group succeeded.
  - The model proves that compiling a rendered formula gives back its atoms.
  - It also proves that the run computes the disjunction of conjunctions the
    expression denotes.
- **The body extractor** (`body_features.dfy`, `feature_set.dfy`,
  `pruning.dfy`, `candidates.dfy`, `siblings.dfy`, `body_extractor.dfy`):
  - a post-order walk drops negative nodes, writes 19 features into every
    node that stays, and collects candidate nodes;
  - candidates' parents and grandparents are added, every listed node is
    scored, and the first best one is chosen;
  - its siblings are pruned by the sibling classifier, and a pre-order
    sanitize walk drops what the sanitize classifier accepts.
  - Each walk and loop is a method proved against a closed-form function of
    the tree it starts from: `Walked`, `Found`, `Selected`, `ScoredUpTo`,
    `MarkedAll`, `Dropping` and `CutSiblings`.
- **The list-page features** (`list_page_classifier.dfy`): one pre-order walk
  sums three counters. The four features are computed from those counters
  and from the page URL.
- **Unit-test expectations** (`utils_examples.dfy`, `list_page_examples.dfy`):
  the expected values of the repository's unit tests are proved of the model.

## Behaviour modelled as the code is written

These are places where the code does something other than what it evidently
means. The model follows the code.

- The class and id tests of `drop_negative_node` (body_extractor.cpp:272 and
  :281) are written `... && !match_list(...) >= 0`.
  - The `!` binds first, so the positive-id guard always holds.
  - Positive class ids never protect a node: see `BodyFeatures.NegatedAtLeastZero`
    and `BodyFeatures.PositiveIdsIgnored`.
- The grandparent branch of `select_ancestor_nodes` (body_extractor.cpp:452)
  checks that the PARENT is not yet listed, not the grandparent.
  - `Candidates.SelectStep` keeps that test.
  - When parent inclusion is off, the same grandparent can be listed twice.
- `drop_node` dereferences the parent without a check (dom_tree.cpp:61).
  - `DomTree.Dom.DropNode` requires a parent.
  - `extract` reaches a parentless drop when the root is negative, or when the
    sanitize walk drops the body node and that node is the root. The model
    reports this as the outcome `Crash`.
  - When the sanitize walk drops a body node that has a parent, the source
    frees the node and still returns it. The model reports this as `Dangling`.
- `extract_features` (body_extractor.cpp:328-351) passes the class and id
  attributes to `match_list` without the NULL test that `drop_negative_node`
  makes (lines 270 and 279).
  - On a node without one of them, `match_list` would call `strlen(NULL)`.
  - The model counts a missing attribute as no match.
  - The only tree builder in the repository (tests/body_extractor_test.cpp:218-219)
    gives every node both attributes, so no caller there reaches the case.
- The guard of `get_body` (body_extractor.cpp:491) reads
  `BASIC_WEIGHT >= max(10, 0.2 * BASIC_WEIGHT)`: the node is compared with
  itself. `BodyFeatures.StrongCandidateIff` proves this is the same as
  `IS_CANDIDATE == 1 && BASIC_WEIGHT >= 10`.
- TEXT_LENGTH and CURRENT_TEXT_LENGTH count every byte of the text, white
  space included (body_extractor.cpp:389).
- LINK_NODE_DENSITY is LINK_COUNT / NODE_COUNT and can exceed 1. An anchor
  whose only child is an anchor gets 2: see `BodyFeatures.LinkNodeDensityAboveOne`.
- The split test of tests/utils_test.cpp:94 bounds its loop by
  `sizeof(strs) / sizeof(string) / 2`. On a 64-bit build that is 1, so only
  its first row is checked; on a 32-bit build it can be 0, and then no row is. The model proves that row (`UtilsExamples.SplitExample`). It also
  proves what `split` returns for the other row, which is not that row's
  expected value (`UtilsExamples.SplitNoDelimiterExamples`).

## Model

| member | source | states |
|---|---|---|
| Utils.SearchFrom | utils.cpp:15 | the search stops at the first occurrence of the pattern at or after the start, or at the end when there is none |
| Utils.FindFrom | utils.cpp:22 | the search stops at the first byte equal to the character at or after the start, or at the end |
| Utils.SearchFinds | utils.cpp:15-19 | a text contains the pattern exactly when the search stops before the end of the text |
| Utils.UrlParseNoScheme | utils.cpp:15-19 | without "://" the whole URL, lower-cased, is the protocol, and host, path and query are empty |
| Utils.UrlParseProtocol | utils.cpp:15-17 | with "://" the protocol is the lower-cased text before its FIRST occurrence |
| Utils.UrlParseHost | utils.cpp:21-24 | the host is the lower-cased text after "://" up to the first '/' or the end, and holds no '/' |
| Utils.UrlParsePath | utils.cpp:26-27 | the path is the exact text from that '/' up to the first '?' or the end, and holds no '?' |
| Utils.UrlParseQuery | utils.cpp:28-30 | the query is everything after that '?', and empty when there is no '?' |
| Utils.GetBasename | utils.cpp:34-45 | the result is a suffix of the path without '/', preceded by a '/' unless it is the whole path, and it is the whole path exactly when the path has no '/' |
| Utils.RunLength | utils.cpp:55 | the length of the longest prefix of the text without a delimiter |
| Utils.SkipDelimiters | utils.cpp:55 | skipping leading delimiters stops on a non-delimiter or the end, and leaves the tokens still to come unchanged |
| Utils.ScanToken | utils.cpp:55 | a token runs up to the first delimiter or the end |
| Utils.StrTok | utils.cpp:55-59 | one strtok_r call returns the first remaining token and resumes after the delimiter that ends it, or reports that no token is left |
| Utils.Split | utils.cpp:47-62 | split appends to the output exactly the tokens of the text |
| Utils.TokensWellFormed | utils.cpp:55-59 | every token is non-empty and holds no delimiter |
| Utils.TokensConcat | utils.cpp:55-59 | the tokens, concatenated, are the text with its delimiters removed: no byte is lost, reordered or invented |
| Utils.SplitJoin | utils.cpp:47-62 | splitting non-empty delimiter-free words joined by a delimiter gives back the words |
| Utils.NoDelimiters | utils.cpp:47-62 | with no delimiters a non-empty text is one token and an empty text none |
| Utils.FirstMatch | utils.cpp:64-105 | the result is -1 or the index of a matching entry, and no earlier entry matches |
| Utils.IndexOf | utils.cpp:78-84 | the result is -1 or an index holding the string |
| Utils.ExactMatchIsIndexOf | utils.cpp:78-84 | exact matching finds the first equal entry |
| Utils.ExactMatchFound | utils.cpp:78-84 | exact matching finds an entry exactly when the string is in the list |
| Utils.Find | utils.cpp:86 | the search reports a hit exactly when the text contains the entry |
| Utils.MatchList | utils.cpp:64-105 | the loop returns the first index whose entry matches under the pattern, -1 when none does or the pattern is unknown |
| Utils.NonSpaceCount | utils.cpp:107-131 | the count is at most the length, equals it exactly when no byte is white space, and is 0 exactly when every byte is |
| Utils.NonSpaceCountAppend | utils.cpp:109-131 | the count of a concatenation is the sum of the counts |
| Utils.CountWithoutSpaces | utils.cpp:109-131 | the loop counts exactly the bytes that are not white space |
| DomModel.Fresh | dom_tree.h:37-40 | a new node is live and has the given tag and text, no parent, no children, no attributes and no extras |
| DomModel.GetAttribute | dom_tree.cpp:13-24 | an attribute is found exactly when the node has it, with its value |
| DomModel.TryGetExtra | dom_tree.cpp:153-165 | an extra is found exactly when the node has it, with its value |
| DomModel.GetExtraDefault | dom_tree.cpp:167-179 | an extra the node has gives its value, and a missing one gives the default |
| DomModel.SetExtraThenGet | dom_tree.h:105-108 | after set_extra the key holds the new value and every other key is unchanged |
| DomModel.SetExtraSame | dom_tree.h:105-108 | writing the value a key already holds changes nothing |
| DomModel.AddAttributeThenGet | dom_tree.h:62-65 | after add_attribute the name reads back the value and other names are unchanged |
| DomModel.PreorderMember | dom_tree.cpp:83-108 | a node belongs to a subtree exactly when it is its root or belongs to a child's subtree |
| DomModel.SubParent | dom_tree.cpp:83-108 | every node of a subtree below its root has a parent inside the subtree |
| DomModel.ParentOutside | dom_tree.cpp:52-81 | a node's parent is never inside the node's own subtree |
| DomModel.SiblingsDisjoint | dom_tree.cpp:83-108 | the subtrees of two different children of one parent share no node |
| DomModel.PostorderSameMembers | dom_tree.cpp:110-136 | post-order visits the same nodes as pre-order |
| DomModel.RemoveFirst | dom_tree.cpp:69-76 | erasing the first occurrence removes one entry when the id is present, and leaves the list alone otherwise |
| DomModel.RemoveFirstAt | dom_tree.cpp:69-76 | erasing removes exactly the first position holding the id |
| DomModel.RemoveFirstDistinct | dom_tree.cpp:69-76 | in a list without repeats, erasing removes that id and keeps every other |
| DomModel.Killed | dom_tree.h:42-49 | freeing a list of nodes clears exactly their live flags |
| DomModel.DetachedValid | dom_tree.cpp:52-81 | dropping a node that has a parent leaves a valid forest |
| DomModel.DetachedChildren | dom_tree.cpp:52-81 | after drop_node, the node is gone from its parent's children, every other list and link is unchanged, and exactly its subtree is freed |
| DomTree.HitsAppend | dom_tree.cpp:26-37 | the tag hits of a concatenation are the hits of each part, in order |
| DomTree.HitsMembers | dom_tree.cpp:26-37 | a node is a hit exactly when it is in the list and its tag matches |
| DomTree.IsListed | dom_tree.cpp:41 | the tag test succeeds exactly when the tag is one of the names |
| DomTree.AppendedValid | dom_tree.h:51-55 | appending a parentless node that is not an ancestor of the parent keeps the forest valid and keeps the child's subtree |
| DomTree.Relabeled | dom_tree.h:57-65 | changing a node's text, attributes or extras keeps the forest valid |
| DomTree.Dom.constructor | dom_tree.h:37-40 | a new arena is empty and valid |
| DomTree.Dom.NewNode | dom_tree.h:37-40 | a new node is added at the end of the arena, fresh, and the forest stays valid |
| DomTree.Dom.AppendChild | dom_tree.h:51-55 | the child is appended to the parent's children and linked back to it, and the forest stays valid |
| DomTree.Dom.AppendText | dom_tree.h:57-60 | only the node's text changes |
| DomTree.Dom.AddAttribute | dom_tree.h:62-65 | only that attribute of the node changes |
| DomTree.Dom.SetExtra | dom_tree.h:105-108 | only that extra of the node changes |
| DomTree.Dom.FindTags | dom_tree.cpp:26-37 | the recursion appends, in pre-order, exactly the nodes of the subtree with that tag |
| DomTree.Dom.FindTagsIn | dom_tree.cpp:39-50 | the recursion appends, in pre-order, exactly the nodes of the subtree whose tag is in the list |
| DomTree.Dom.Dispose | dom_tree.h:42-49 | deleting a node frees exactly its subtree |
| DomTree.Dom.DropNode | dom_tree.cpp:52-81 | drop_node returns true, removes the node from its parent's children, frees its subtree, and keeps the forest valid |
| DefaultTraversal.PreorderVisitsAll | dom_tree.cpp:83-108 | the pre-order walk preprocesses and visits every node of the subtree once, parents before children |
| DefaultTraversal.PostorderVisitsAll | dom_tree.cpp:110-136 | the post-order walk preprocesses in pre-order and visits in post-order, children before parents |
| DefaultTraversal.DefaultVisitor.Preprocess | dom_tree.h:14-17 | the default callback accepts every node |
| DefaultTraversal.DefaultVisitor.Visit | dom_tree.h:19-22 | the default callback accepts every node |
| DefaultTraversal.DefaultVisitor.Postprocess | dom_tree.h:24-27 | the default callback accepts every node |
| DefaultTraversal.PreorderTraverse | dom_tree.cpp:83-108 | with the default visitor the walk succeeds, and its callbacks are the pre-order event sequence |
| DefaultTraversal.PostorderTraverse | dom_tree.cpp:110-136 | with the default visitor the walk succeeds, and its callbacks are the post-order event sequence |
| BooleanClassifier.Negated | boolean_classifier.cpp:17-47 | every comparer has an opposite comparer with the negated answer on all inputs |
| BooleanClassifier.CompileStep | boolean_classifier.cpp:59-124 | one step of init on a connective, a "!" or an item that is out of place: the group advances on "\|\|", and the compilation fails where init returns false |
| BooleanClassifier.CompileWellGrouped | boolean_classifier.cpp:49-134 | the compiled groups start at 0 and rise by 0 or 1 from atom to atom, and every atom names a feature and a comparer |
| BooleanClassifier.CompileRender | boolean_classifier.cpp:49-134 | compiling the items of a rendered formula succeeds and gives back its atoms, with the groups renumbered from 0 |
| BooleanClassifier.InitRoundTrip | boolean_classifier.cpp:49-134 | init on the space-joined text of a formula whose names and values are single words gives back its atoms |
| BooleanClassifier.RejectsMissingConnective | boolean_classifier.cpp:61-77 | two atoms in a row, or a "!" after an atom, make init fail |
| BooleanClassifier.RejectsBadAtom | boolean_classifier.cpp:80-121 | an unknown feature name, an unknown operator, a missing value or a double "!" make init fail |
| BooleanClassifier.RejectsTrailer | boolean_classifier.cpp:126-130 | an expression ending in a connective, or in a connective and "!", fails, keeping the atoms compiled before it |
| BooleanClassifier.RunFromOrOfAnds | boolean_classifier.cpp:136-174 | from any loop state consistent with the groups passed so far, the rest of the run yields the disjunction, over groups, of the conjunction of their atoms |
| BooleanClassifier.ClassifyIsOrOfAnds | boolean_classifier.cpp:136-174 | on well-grouped atoms, classify is true exactly when every atom of some group holds |
| BooleanClassifier.RunFromDefined | boolean_classifier.cpp:143-147 | the run never reaches a failed assert when every atom's feature is present and its comparer exists |
| BooleanClassifier.FaultOnSkipped | boolean_classifier.cpp:143-156 | the feature lookup and its assert come before the skip, so a missing feature fails the run even in an atom that would be skipped |
| BooleanClassifier.BooleanClassifier.Init | boolean_classifier.cpp:49-134 | init splits the text on spaces and compiles the items: it reports the compilation's success, appends the compiled atoms, and marks the classifier initialized on success |
| BooleanClassifier.BooleanClassifier.CompileItems | boolean_classifier.cpp:56-130 | the item loop appends the atoms compiled so far, including those before a failure, and reports whether the whole expression compiled |
| BooleanClassifier.BooleanClassifier.Classify | boolean_classifier.cpp:136-174 | the loop returns the run's value, which on well-grouped atoms is the disjunction of conjunctions |
| FeatureSet.IdBijective | body_extractor.h:27-34 | every feature has its own enum value and every enum value names one feature |
| FeatureSet.IdMatchesKeys | body_extractor.h:27-34 | the enum values of the aggregated features are the extras keys the model uses |
| FeatureSet.IdMatchesFlagKeys | body_extractor.h:27-34 | the enum values of the flags and scores are the extras keys the model uses |
| FeatureSet.NamesDistinct | body_extractor.cpp:31-36 | the name table has one entry per feature and no name twice |
| FeatureSet.Lookup | body_extractor.cpp:31-36 | a name found in the table is the name of the feature returned |
| FeatureSet.LookupName | body_extractor.cpp:31-36 | looking up a feature's name gives back that feature |
| FeatureSet.LookupMissing | body_extractor.cpp:31-36 | the lookup fails exactly on words that are not feature names |
| BodyFeatures.AttributeMatchesIff | body_extractor.cpp:269-284 | an attribute hits a list exactly when it is present and contains one of the entries |
| BodyFeatures.IsNegativeIff | body_extractor.cpp:257-298 | a node is negative exactly when negative tags are enabled and its tag is listed, or negative class ids are enabled and its class or its id contains one of them |
| BodyFeatures.PositiveIdsIgnored | body_extractor.cpp:272-281 | the positive class ids never change the decision |
| BodyFeatures.ValidNode | body_extractor.cpp:306-322 | a node is a candidate exactly when its tag is a candidate tag and its TEXT_LENGTH exceeds the minimum |
| BodyFeatures.DetachedShrunk | dom_tree.cpp:52-81 | dropping a node only frees nodes and removes children, so every feature already written stays |
| BodyFeatures.StoredFeatures | body_extractor.cpp:548-554 | the vector read back holds the node's 19 stored features, in enum order |
| BodyFeatures.FeatureMap | body_extractor.cpp:428-431 | writing a vector stores each entry under its index and nothing else |
| BodyFeatures.TagFactorOf | body_extractor.cpp:357-361 | the tag factor is the configured value of the first entry naming the tag, and 0 when there is none |
| BodyFeatures.Density | body_extractor.cpp:403-405 | a density is the quotient when the divisor is non-zero and 0 otherwise, and lies in [0, 1] for a part of a whole |
| BodyFeatures.FeatureVector | body_extractor.cpp:325-437 | the vector has one entry per feature |
| BodyFeatures.FeatureVectorAggregates | body_extractor.cpp:364-400 | the text, comma, link and node counts are the children's sums plus the node's own share, and the candidate and paragraph entries start at 0 |
| BodyFeatures.FeatureVectorFlags | body_extractor.cpp:335-354 | the header, interactive and struct flags are 1 exactly for the listed tags, and the class-and-id match counts are 0, 1 or 2 and are 0 exactly when neither attribute matches |
| BodyFeatures.FeatureVectorBounds | body_extractor.cpp:364-405 | from sane child sums the counts stay sane, NODE_COUNT is at least 1, LINK_DENSITY lies in [0, 1] and CURRENT_TEXT_LENGTH is at most TEXT_LENGTH |
| BodyFeatures.LinkNodeDensityAboveOne | body_extractor.cpp:396-405 | an anchor whose only child is an anchor has LINK_NODE_DENSITY 2 |
| BodyFeatures.StrongCandidateIff | body_extractor.cpp:491 | get_body's weight guard holds exactly when IS_CANDIDATE is 1 and BASIC_WEIGHT is at least 10 |
| BodyFeatures.HasParagraphPunctuationIff | body_extractor.cpp:520-522 | a text has paragraph punctuation exactly when it contains a break mark or ends in an end mark |
| BodyFeatures.ParagraphMarked | body_extractor.cpp:524-525 | marking a sibling writes IS_P_TAG and HAS_BREAK_PUNC and changes nothing else |
| Pruning.Kept | dom_tree.cpp:97-104 | the children that stay are, in order, among the original children, and none of them is dropped by the walk's test |
| Pruning.SurvivorsInside | dom_tree.cpp:83-136 | the nodes a walk keeps lie in the subtree, a kept root is among them, and a dropped root keeps nothing |
| Pruning.PartialEnd | dom_tree.cpp:97-126 | the child loop, run to its end, leaves the arena the walk specifies (for extraction, once the root's features are written) |
| Pruning.KeptSums | body_extractor.cpp:364-378 | the sums read from the kept children are the sums of their extracted features |
| Pruning.ExtractEnd | body_extractor.cpp:325-437 | at the end of the child loop, the features computed from the kept children are the extracted vector |
| Pruning.NoFaultOnFeatured | body_extractor.cpp:101-122 | a featured node never fails a classifier's assert |
| Pruning.WalkedShrunk | body_extractor.cpp:92-126 | the sanitize walk only frees nodes and removes children |
| Pruning.FoundSurvive | body_extractor.cpp:72-84 | every candidate the extraction walk collects is a node it keeps |
| Pruning.FoundLive | body_extractor.cpp:72-84 | every collected candidate is live after the walk |
| Pruning.WalkedFeatured | body_extractor.cpp:54-89 | after the extraction walk of a document, every live node holds all 19 features |
| Candidates.ParentOf | body_extractor.cpp:442 | a parent reported is inside the arena |
| Candidates.SelectedExtends | body_extractor.cpp:204-208 | promotion keeps the original list as a prefix, changes nodes only in CANDIDATE_SOURCE, and appends only parents and grandparents of original candidates |
| Candidates.ParentInclusionStep | body_extractor.cpp:442-446 | with parent inclusion on, one step appends exactly the parent when it exists and is not yet listed |
| Candidates.ParentInclusionParents | body_extractor.cpp:442-446 | with parent inclusion on, every appended entry is the parent of an original candidate |
| Candidates.ParentInclusionDistinct | body_extractor.cpp:442-446 | with parent inclusion on, a list without repeats stays without repeats |
| Candidates.SelectedLive | body_extractor.cpp:204-208 | every listed node is live before and after the promotion |
| Candidates.ScoredNode | body_extractor.cpp:211-222 | scoring writes BASIC_WEIGHT as the score of the 19 features and sets IS_CANDIDATE exactly when that score reaches the threshold, and changes nothing else |
| Candidates.ScoredDistinct | body_extractor.cpp:211-222 | after k turns, every listed node among the first k is scored and every other listed node is untouched |
| Candidates.SelectedFeatured | body_extractor.cpp:204-208 | after promotion every listed node is live and holds all 19 features, and the list is empty exactly when no candidate was found |
| Candidates.ScoredFeatured | body_extractor.cpp:211-222 | scoring keeps every node's liveness and every listed node's features |
| SiblingPruning.Dropping | body_extractor.cpp:484-501 | the siblings to drop are among the children and never include the best candidate |
| SiblingPruning.MarkedAll | body_extractor.cpp:484-501 | the sibling loop leaves the arena's size unchanged |
| SiblingPruning.Without | body_extractor.cpp:498-501 | the ids kept are exactly those of the list not dropped |
| SiblingPruning.WithoutDropping | body_extractor.cpp:484-501 | removing the dropped siblings leaves exactly the siblings that pass, in order |
| SiblingPruning.DroppingDistinct | body_extractor.cpp:484-501 | no sibling is dropped twice |
| SiblingPruning.PassingMembers | body_extractor.cpp:484-495 | a sibling passes exactly when it is a child and the best candidate, a strong candidate, or accepted by the sibling classifier |
| SiblingPruning.BestSurvives | body_extractor.cpp:503-511 | the best candidate always stays, and when it is the only child left it is the result |
| SiblingPruning.MarkedAllShape | body_extractor.cpp:484-501 | the sibling loop changes only extras, only on the parent's children, and keeps every feature |
| SiblingPruning.CutRanked | body_extractor.cpp:498-501 | dropping siblings keeps the arena ranked |
| SiblingPruning.CutShrunk | body_extractor.cpp:498-501 | dropping siblings only frees nodes and removes children |
| BodyExtraction.BodyExtractor.constructor | body_extractor.h:96-99 | the extractor holds the given configuration, the two boolean classifiers and the scoring function |
| BodyExtraction.BodyExtractor.NegativeAttributeTest | body_extractor.cpp:269-284 | the class-or-id test on one attribute, with its always-true positive guard |
| BodyExtraction.BodyExtractor.DropNegativeNode | body_extractor.cpp:257-298 | the node is dropped exactly when it is negative, and the arena is then the arena with that node detached; otherwise it is unchanged |
| BodyExtraction.BodyExtractor.SumChildren | body_extractor.cpp:364-378 | the loop sums the aggregated features of the children |
| BodyExtraction.BodyExtractor.StoreFeatures | body_extractor.cpp:428-431 | the node's extras get the vector, entry by entry, and nothing else changes |
| BodyExtraction.BodyExtractor.ExtractNodeFeatures | body_extractor.cpp:325-437 | the node's extras get the feature vector of the node and of its children's sums |
| BodyExtraction.BodyExtractor.AddCandidate | body_extractor.cpp:460-468 | the node gets its CANDIDATE_SOURCE and is appended to the list |
| BodyExtraction.BodyExtractor.VisitExtracted | body_extractor.cpp:72-84 | the visit writes the features and appends the node when it is a valid candidate |
| BodyExtraction.BodyExtractor.ExtractionWalk | body_extractor.cpp:201 | the post-order walk with the extraction visitor keeps the node exactly when it is not negative, leaves the arena Walked specifies, and appends exactly the candidates Found specifies |
| BodyExtraction.BodyExtractor.ExtractChildren | dom_tree.cpp:119-126 | the child loop of the extraction walk leaves the partial arena with every child walked, and appends their candidates |
| BodyExtraction.BodyExtractor.SanitizeWalk | body_extractor.cpp:536-540 | the pre-order walk with the sanitize visitor keeps the node exactly when the classifier rejects it, leaving the arena Walked specifies |
| BodyExtraction.BodyExtractor.SanitizeChildren | dom_tree.cpp:97-104 | the child loop of the sanitize walk leaves the partial arena with every child walked |
| BodyExtraction.BodyExtractor.SelectAncestorNodes | body_extractor.cpp:439-458 | one call updates the arena and the list as SelectStep says, grandparent guard as written |
| BodyExtraction.BodyExtractor.SelectAll | body_extractor.cpp:204-208 | the promotion loop stops at the end taken before it starts, so it visits only the original candidates and not the nodes it appends, and leaves the selection Selected specifies |
| BodyExtraction.BodyExtractor.CalculateBasicScore | body_extractor.cpp:548-561 | the score is the scoring function of the 19 stored features, and success means it reaches the threshold |
| BodyExtraction.BodyExtractor.ScoreCandidate | body_extractor.cpp:211-222 | one turn of the scoring loop writes BASIC_WEIGHT and IS_CANDIDATE |
| BodyExtraction.BodyExtractor.ScoreCandidates | body_extractor.cpp:211-222 | the scoring loop leaves the arena ScoredUpTo specifies |
| BodyExtraction.BodyExtractor.BestCandidate | body_extractor.cpp:229 | the chosen candidate weighs at least as much as every other, and every earlier one weighs strictly less (max_element returns the first maximum), so it is the one FirstBest names |
| BodyExtraction.BodyExtractor.ValidParagraphSibling | body_extractor.cpp:517-530 | the sibling is marked, and the answer is the sibling classifier's verdict on the marked features |
| BodyExtraction.BodyExtractor.MarkSiblings | body_extractor.cpp:484-496 | the loop over the parent's children leaves the marked arena and returns exactly the siblings to drop |
| BodyExtraction.BodyExtractor.DropSiblings | body_extractor.cpp:498-501 | dropping the listed siblings one by one leaves the parent without them and their subtrees freed |
| BodyExtraction.BodyExtractor.GetBody | body_extractor.cpp:475-512 | without a parent the best candidate is the body and nothing changes; otherwise the failed siblings are dropped, the passing ones stay, and the body is the best candidate when it is the only child left, else the parent; the arena is the one GotBody describes, and the body keeps its parent and its features |
| BodyExtraction.BodyExtractor.PostValidate | body_extractor.cpp:543-546 | post validation accepts every body |
| BodyExtraction.BodyExtractor.Collect | body_extractor.cpp:201-222 | extraction, promotion and scoring leave the arena and the list their specifications compose to, the list is empty exactly when no candidate was found, and every listed node is live and featured |
| BodyExtraction.BodyExtractor.Conclude | body_extractor.cpp:233-251 | the sanitize walk gives Crash for a dropped parentless body, Dangling for a dropped body with a parent, and otherwise the body, still live, in the arena Walked specifies |
| BodyExtraction.BodyExtractor.Extract | body_extractor.cpp:192-252 | a negative root crashes and changes nothing; otherwise there is no body exactly when the walk found no candidate, a body returned is live; without candidates the tree is the one the extraction walk leaves; with candidates the outcome is the one Picked gives for the promoted and scored arena, and a returned body sits in the tree PickedArena describes |
| BodyExtraction.BodyExtractor.PickBody | body_extractor.cpp:229-251 | with at least one candidate the outcome is the one Picked gives: the sanitize verdict on the body get_body chooses around the first best candidate; a body returned is live and sits in the tree PickedArena describes: get_body's sibling cut, then the sanitize walk from the body |
| SiblingPruning.FirstBest | body_extractor.cpp:229 | the first candidate that no candidate outweighs: no candidate weighs more than it, and every earlier candidate weighs strictly less |
| SiblingPruning.FirstBestUnique | body_extractor.cpp:229 | those two properties single out one position, the one FirstBest names |
| SiblingPruning.GotBodyChosen | body_extractor.cpp:475-512 | the body and the tree a run of get_body leaves are the ones ChosenBody and BodyArena name |
| SiblingPruning.ChosenBody | body_extractor.cpp:475-512 | the body is the best candidate when it has no parent or is the only child that passes, else its parent; it is live |
| BodyExtraction.Verdict | body_extractor.cpp:240-251 | the outcome is the body exactly when the sanitize classifier does not drop it, a crash exactly when it drops a node without a parent, and a dangling body otherwise |
| BodyExtraction.Picked | body_extractor.cpp:229-251 | extract with candidates never ends without a body, and the node it returns is the best candidate or its parent |
| SiblingPruning.MarkedCuttable | body_extractor.cpp:484-501 | marking the siblings changes no children list, so the marked tree stays ranked and every sibling to drop ranks below the parent |
| SiblingPruning.BodyArenaShape | body_extractor.cpp:475-512 | the tree get_body leaves is unchanged without a parent; otherwise it stays ranked and the parent keeps exactly its children that are not dropped |
| BodyExtraction.PickedSteps | body_extractor.cpp:229-251 | the first best index, a run of get_body and the sanitize verdict on its body give Picked's outcome and, for a kept body, PickedArena's tree |
| ListPageClassifier.ContributionBounds | list_page_classifier.cpp:100-119 | a node adds its non-space byte count to the text; an anchor adds it to the link text too and is never a large text; any other node is a large text exactly when the count reaches the threshold |
| ListPageClassifier.TotalAppend | list_page_classifier.cpp:85-98 | the counters over a concatenation of nodes are the sums of the counters over each part |
| ListPageClassifier.TotalBounds | list_page_classifier.cpp:85-119 | the link text never exceeds the text, and there are at most as many large texts as nodes |
| ListPageClassifier.TotalWithoutAnchors | list_page_classifier.cpp:108-111 | without anchors the link text is 0 |
| ListPageClassifier.ProcessNode | list_page_classifier.cpp:100-119 | process_node adds the node's contribution to the counters |
| ListPageClassifier.Traverse | list_page_classifier.cpp:85-98 | the recursion adds the contributions of every node of the subtree |
| ListPageClassifier.UrlFilenameIff | list_page_classifier.cpp:121-141 | a URL names a file exactly when the base name of its path is non-empty and starts with no blacklist entry |
| ListPageClassifier.LinkTextRatio | list_page_classifier.cpp:76 | the ratio is link over text when text is positive and 0 otherwise, and lies in [0, 1] for a part of a whole |
| ListPageClassifier.CalculateFeatures | list_page_classifier.cpp:74-83 | the four features are the link ratio, the file-name flag, the non-link text flag at its threshold and the large-text flag at its threshold; the flags are 0 or 1 |
| ListPageClassifier.ExtractFeatures | list_page_classifier.cpp:67-72 | the features of the counters summed over the whole tree, with a link ratio in [0, 1] |
| UtilsExamples.PrefixExamples | tests/utils_test.cpp:102-123 | the prefix-pattern expectations of the match_list test |
| UtilsExamples.ExactSuffixExamples | tests/utils_test.cpp:102-123 | the equal-pattern and suffix-pattern expectations of the match_list test |
| UtilsExamples.ContainsExamples | tests/utils_test.cpp:102-123 | the substring-pattern expectations of the match_list test |
| UtilsExamples.BasenameNamed | tests/utils_test.cpp:51-68 | the get_basename expectations that give a name |
| UtilsExamples.BasenameEmpty | tests/utils_test.cpp:51-68 | the get_basename expectations that give the empty name |
| UtilsExamples.SplitExample | tests/utils_test.cpp:70-100 | the split row the test checks gives its four words |
| UtilsExamples.SplitNoDelimiterExamples | tests/utils_test.cpp:70-100 | with no delimiters, split returns the whole text as one token, and nothing for an empty text |
| UtilsExamples.CountSolid | tests/utils_test.cpp:125-134 | the count_without_spaces expectations for the empty text, a word and the space characters |
| UtilsExamples.CountMultibyte | tests/utils_test.cpp:125-134 | the six bytes of two UTF-8 characters all count |
| UtilsExamples.CountMixed | tests/utils_test.cpp:125-134 | the mixed-text expectations of the count test |
| UtilsExamples.UrlParseHostOnlyExamples | tests/utils_test.cpp:29-49 | the urlparse expectations for URLs without a path |
| UtilsExamples.UrlParsePathExamples | tests/utils_test.cpp:29-49 | the urlparse expectations for URLs with a path and a query |
| UtilsExamples.UrlParseNoSchemeExamples | tests/utils_test.cpp:29-49 | the urlparse expectations for a URL without "://" and for the empty URL |
| UtilsExamples.UrlParseLaidOut | utils.cpp:11-32 | a URL assembled from a lower-case protocol, a host, a path and a query parses back into those parts |
| UtilsExamples.BasenameAfter | utils.cpp:34-45 | the base name of a path whose last '/' comes just before a name is that name |
| ListPageExamples.ProcessNodeExamples | tests/list_page_classifier_test.cpp:213-227 | the counters the process_node test expects after each of its three nodes |
| ListPageExamples.IsUrlFilenameExamples | tests/list_page_classifier_test.cpp:202-211 | the is_url_filename expectations for the six test URLs |
| ListPageExamples.CalculateFeaturesExamples | tests/list_page_classifier_test.cpp:265-283 | the four feature vectors the calculate_features test expects |
| ListPageExamples.PageTreeRanked | tests/list_page_classifier_test.cpp:41-49 | the eight-node tree of the test page, as its indentation lays it out, is a ranked forest |
| ListPageExamples.PageTreePreorder | tests/list_page_classifier_test.cpp:53-61 | the pre-order of the test page visits its nodes in the printed order |
| ListPageExamples.PageTextCounts | tests/list_page_classifier_test.cpp:41-49 | the non-space byte counts of the page's texts are 10, 7, 10, 3 and 5 |
| ListPageExamples.PageShapeCounts | list_page_classifier.cpp:85-119 | on a tree of the page's shape, with two anchors and those counts, the walk sums to link text 12, text 35 and 2 large texts |
| ListPageExamples.TraverseExample | tests/list_page_classifier_test.cpp:229-240 | traverse over the test page gives the expected counters {12, 35, 2} |
| ListPageExamples.PageUrlFilename | tests/list_page_classifier_test.cpp:51 | the test URL names a file |
| ListPageExamples.PageFeatures | list_page_classifier.cpp:74-83 | the counters {12, 35, 2} give the link ratio 12/35 and both text flags 1 |
| ListPageExamples.ExtractFeaturesExample | tests/list_page_classifier_test.cpp:242-253 | extract_features over the test page and URL gives the expected features 12/35, 1, 1, 1 |

## Left out

- Bytes and C strings: a text is a `seq<char>` with one character per byte. Texts are assumed to hold no NUL byte, so `c_str()` and `strlen` see the whole text.
- Integer width: the counters are unbounded integers, so 32-bit `int` overflow in `count_without_spaces` and in the list-page counters is not modelled.
- Floating point: feature values are reals, so `double` rounding is not modelled.
- Number parsing: `atof` (boolean_classifier.cpp:110) is the parameter `parse`.
- Logging: `cout` output and `print_node` (dom_tree.cpp:181-187) have no effect on the result and are left out.
- Configuration loading: `Config` and the config file reader are not part of the model. The values the extractor reads are the datatype `BodyFeatures.Config`, and the list-page values are `ListPageClassifier.Settings`.
- BodyExtractor::init beyond its checks (body_extractor.cpp:137-190): loading the classifiers is replaced by the predicate `Ready`, which holds the factor-pair rule of lines 180-186 and two compiled expressions.
- The linear classifier, the SVM and the score normalisation (body_extractor.cpp:557-559) are the function parameter `basicScore`. SvmClassifier is not part of this model.
- ListPageClassifier's `init` and `classify` (list_page_classifier.cpp:18-65) load settings and call the SVM, and are left out. The defaults 80, 600 and 2 of lines 11-16 are declared as constants.
- The `node_dropped` hook (dom_tree.h:115-118, dom_tree.cpp:11, 56-59): `drop_node` calls a registered function before freeing the node, and tests/body_extractor_test.cpp:239-247 and :320 register one. That function is code outside the core; the model takes it to leave the tree unchanged, and does not model the call.
- `rename_div` (body_extractor.cpp:300-303) has no caller in the core, and is left out.
- `sort_candidates` and the Candidate class (body_extractor.cpp:470-473, body_extractor.h:36-75) have no caller in `extract`, and are left out.
- Pointers and iterators are arena indices.
- Virtual dispatch: the traversals are written once per visitor. The default visitor's walks are in `DefaultTraversal`; the extraction, sanitize and list-page walks inline their visitor's callbacks.
- DefaultTraversal.PreorderTraverse: stated for the default visitor only; other visitors have their own walks.
- DefaultTraversal.PostorderTraverse: stated for the default visitor only; other visitors have their own walks.
- DomTree.Dom.DropNode: requires a parent, because the source dereferences the missing parent (dom_tree.cpp:61). Callers turn that case into the `Crash` outcome.
- BooleanClassifier.BooleanClassifier.Classify: requires that the run never fails an assert (boolean_classifier.cpp:144-147). `RunFromDefined` and `Pruning.NoFaultOnFeatured` show the extractor's calls meet it.
- The `body == NULL` check of `extract` (body_extractor.cpp:235-238) cannot fire and is not modelled.
- The rescoring branch of the sanitize visitor (body_extractor.cpp:104-109) never runs after extraction, because every extracted node holds BASIC_WEIGHT. It is not modelled.
- Freed memory: `Dangling` stands for returning a node that the source has already freed.
- boolean_classifier.h is not part of this model; a new `BooleanClassifier` is taken to start with no atoms and not initialized.
- The test reader `create_dom_tree` (tests/list_page_classifier_test.cpp:98-150) is not modelled. The tree it builds for the test page is written out as `ListPageExamples.PageTree`, and `PageTreePreorder` checks it against the printed form of lines 53-61.
- The feature list body_extractor_features.h is not part of this model. The 19 features are rebuilt from the FN_ names body_extractor.cpp uses, in an assumed order. The comments at body_extractor.cpp:49 and :515 name FN_TEXT_CURRENT_LENGTH and FN_FOUND_BREAK_PUNC, which the code never uses and the model does not have.
- DomTree.Dom.AppendChild: requires a child without a parent that is not an ancestor of the new parent. `append_child` (dom_tree.h:51-55) does not check this. Its only callers, the tree builders of the tests, append freshly made nodes, which meet it.
- Candidate list reallocation: the promotion loop (body_extractor.cpp:204-207) keeps `iter` and `end` while `add_candidate` (line 467) pushes onto the same vector. A `push_back` that reallocates leaves both pointing at freed storage, which is undefined behaviour. The model takes the vector never to reallocate inside the loop, so `end` marks the last original candidate.
- BodyExtraction.BodyExtractor.PickBody: the tree left behind is stated for a returned body only. After a `Dangling` outcome, where the sanitize walk freed the body, the tree is not stated; after a `Crash` the source has no tree.
- BodyExtraction.BodyExtractor.Extract: the tree left behind is stated for a returned body and for a walk that found no candidate. After a `Dangling` outcome it is not stated; after a `Crash` in the sanitize walk the source has no tree.
- tests/body_extractor_test.cpp needs the HTML parser and configuration files, and is not restated.
