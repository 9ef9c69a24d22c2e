# Car screen mirror: UI-tree reconciliation, modelled in Dafny

The car screen mirror tool shows a head unit's screen and its widget tree.
It reads the widget tree from two dumps of the device:

- The accessibility dump is an XML document. Its elements carry text,
  content description, resource id, state flags and a bounds string
  `[l,t][r,b]`.
- The view hierarchy dump is an indented text listing. There is one widget
  per line, the nesting is given by indentation, and bounds `l,t-r,b` are
  relative to the parent.

This project models the part of the tool that turns these dumps into trees
and fuses them:

- **`ViewHierarchy`** models the view hierarchy parser. Lines are scanned
  with hand-written matchers for the parser's four patterns. Blocklisted
  widgets are dropped together with their subtrees. A parent stack turns
  relative bounds into absolute ones. Nodes are attached under their parent
  or under a virtual root. The `ViewHierarchyParser` class holds the parse
  loop, proved equal to a fold of `Step` over the lines.
- **`UIParser`** models the accessibility dump parser. Each element yields
  one node, with defaults for missing attributes. A geometry is derived only
  when the bounds string has exactly four digit runs. The module also holds
  the point hit-test: every node that contains the point, then the smallest
  one.
- **`Scoring`** models how the hybrid parser compares two nodes:
  - the id suffix;
  - the class-name families;
  - the weighted match score, as an exact rational;
  - copying an accessibility node's text, id and flags into a view node.
- **`Matching`** states the hybrid parser's behaviour as functions:
  - the content anchor;
  - the id index;
  - the two candidate strategies, one by id and one by a walk of at most
    two levels;
  - the first-best choice with the 0.5 threshold;
  - the recursive merge with its counters and `used` marks, and the
    methods that compute candidates.
- **`Hybrid`** holds the `HybridUIParser` class. Its fields are the node
  store, the current trees, the counters, the id index and the used marks.
  Its methods are proved against `Matching`.
- **`Search`** models the mirror tool's case-insensitive search and its
  element count.
- **`UiNode`** and **`Text`** hold the node record, pre-order flattening and
  node stores, and the string operations (`in`, `split`, `strip`, `lower`,
  `int()`, `str()`) the parsers rely on.

### Modelling decisions

- **Node identity.** Accessibility nodes are named by their position in a
  node store: every tree read so far, flattened in pre-order one after the
  other.
  - The id index, the `_used` marks and the search context are all store
    positions.
  - So an index entry left over from an earlier tree keeps pointing at that
    earlier tree's node, as the dictionary of node references does. Neither
    the counters nor `ui_node_map` are reset between merges.
- **The merged view tree is a value.** The merge returns the updated
  subtree. `ReplaceAt` writes it back at the anchor's position, which
  stands for the aliasing between the anchor node and the whole view tree.
- **The merge rule is a ghost.** `MatchAndMerge` and `MergeChildren` take a
  ghost `rule`. The rule is any chooser that agrees with `BestMatch` over
  the current index: `Agrees` holds. Their contracts are stated with
  `Merge`, a function over such a rule. `MergeAgreeing` shows that all such
  rules give the same merge.
- **Helper methods for the loops.** Where a source loop calls back into
  the recursion, the model splits it into a method of its own:
  - `IndexChildren` for `_build_ui_index`;
  - `MergeChildren` for `_match_and_merge`;
  - `SearchChildren` for `_search_in_subtree`;
  - `PopToParent` for the stack pop in `parse`;
  - `GatherCandidates` and `PickBest` for `_find_best_match`.
- **The two child loops are one.** The two child loops of
  `_match_and_merge` differ only in the context they pass: the match, or
  the old context. The model merges them into one loop over that context.
- **Scores are exact.** They are real numbers, not binary floats.

The source duplicates the `UIParser` code in car_mirrot_tool.py and
car2.py, and `_searchInNode` also appears in both files. The table cites
one copy of each.

## Model

| member | source | states |
|---|---|---|
| Text.IndexOfFromSpec | car2.py:134-136 | The scan behind `t in s` finds the leftmost occurrence from a start position, and finds nothing only when there is no occurrence from that position on. |
| Text.IndexOfSpec | car2.py:134-136 | `find` returns the leftmost occurrence of the pattern, and returns nothing only when the pattern occurs nowhere. |
| Text.IndexOfFindsContained | car2.py:134-136 | The search succeeds exactly when the substring occurs (`in`). |
| Text.LastCutSpec | car2.py:135-137 | The left-to-right, non-overlapping scan of `split` stops at a cut after which no separator occurs. The cut follows a separator unless the scan found none. |
| Text.SplitLastSpec | car2.py:135-137 | `s.split(sep)[-1]` is a suffix that holds no separator. It is the whole string when there is no separator, and is preceded by a separator otherwise. |
| Text.Split | car2.py:443 | `split('\n')` gives at least one piece, no piece holds the separator, and joining the pieces with it gives the text back. |
| Text.Lower | car_mirrot_tool.py:709-712 | `lower()` keeps the length and lowercases every ASCII capital, character by character. |
| Text.LeadingSpaces | car2.py:455 | The indent is the length of the longest all-whitespace prefix. |
| Text.TrailingSpaces | car2.py:451 | The characters `strip()` removes at the end are the longest all-whitespace suffix. |
| Text.Span | car2.py:608 | A greedy character-class run is the longest prefix whose characters all belong to the class. |
| Text.SpanOf | car2.py:628 | A run of class characters followed by a non-class character or the end is exactly the greedy span. |
| Text.SearchLeftmost | car2.py:615 | `re.search` yields the match at the leftmost position where the pattern matches, and nothing only when no position matches. |
| Text.DigitPrefix | car2.py:615 | A `\d+` group takes the whole maximal run of digits. |
| Text.NatToStringDigits | car2.py:673 | `str(n)` is a non-empty run of digits whose `int()` is `n`. |
| Text.ReadNatOfFormatted | car2.py:650-665 | Reading a number written with `str()` stops at the next non-digit and gives the number back. |
| Text.DigitRuns | car_mirrot_tool.py:183 | Every string `re.findall(r'\d+', s)` returns is a non-empty run of digits. |
| Text.DigitPrefixOf | car2.py:615 | A run of digits followed by a non-digit or the end is exactly the `\d+` prefix. |
| Text.DigitRunsOf | car_mirrot_tool.py:183 | A maximal, non-empty run of digits at the front is the first run found, and the rest of the runs are those of the text after it. |
| Text.DigitRunsSkip | car_mirrot_tool.py:183 | A leading non-digit adds no run. The empty text has no runs by definition, so with `DigitRunsOf` this fixes `DigitRuns` on every text. |
| UiNode.ChildIds | car2.py:126-127 | In a store, the children of a node sit after it in child order, each holding the node's own child. |
| UiNode.ChildSpan | car2.py:126-127 | Each child's subtree starts after the subtrees of the children before it and ends inside its parent's subtree. |
| UiNode.SubtreeAt | car2.py:65-66 | A position inside a tree stored at `id` names the node at that pre-order position of the tree. |
| UiNode.FlatIsStore | car2.py:42-49 | The pre-order flattening `Flat` of a parsed tree is a store: every position starts the flattening of its node. |
| UiNode.StoreConcat | car2.py:42-49 | Appending a newly parsed tree to the store keeps it a store. |
| UiNode.FilterMembers | car_mirrot_tool.py:706-717 | Specifies `Filter`: a filtered walk holds exactly the nodes of the walk that satisfy the test. |
| UiNode.PreorderFilterStep | car_mirrot_tool.py:716-717 | The filtered pre-order walk after one more child is the walk so far followed by that child's filtered walk. |
| UiNode.SameLayoutSize | car2.py:141-175 | Trees with the same layout have the same number of nodes (`Size`). |
| Scoring.ExtractIdSuffixCases | car2.py:129-139 | Specifies `ExtractIdSuffix`: nothing for an empty id. With `:id/` present, a suffix after the last `:id/` that holds no `:id/`. Otherwise, with `/` present, a suffix after the last `/` that holds no `/`. Otherwise the whole id. |
| Scoring.IndexKey | car2.py:117-120 | A node has an index key only when its id and its id suffix are both non-empty, and the key is that suffix. |
| Scoring.SharedGroupExists | car2.py:279-285 | Specifies `SimilarClassNames`: the family loop succeeds exactly when both names mention a member of one of the remaining families. |
| Scoring.SimilarSymmetric | car2.py:264-285 | Class-name similarity is symmetric. |
| Scoring.ImageButtonBridges | car2.py:272-273 | `ImageButton` is similar both to `Button` and to `ImageView`, through the two families that list it. |
| Scoring.AgreeCount | car2.py:254-257 | The number of agreeing flags never exceeds the number of flags compared. |
| Scoring.ChildTermBounds | car2.py:241-248 | The child term is 0.15 for equal counts, including both zero. It is 0 when exactly one count is zero, strictly between 0 and 0.15 when both are non-zero and differ, and always within [0, 0.15]. |
| Scoring.FlagTermBounds | car2.py:251-260 | The flag term lies in [0, 0.15]. |
| Scoring.MatchScoreBounds | car2.py:223-262 | Every `MatchScore` lies in [0, 1]. Without the id bonus it is at most 0.6, and with it at least 0.4. |
| Scoring.SameIdMeetsThreshold | car2.py:228-248 | With a shared id, a similar class or an equal child count makes the score reach the 0.5 threshold. |
| Scoring.CalculateMatchScore | car2.py:223-262 | The accumulator loop over the four flags computes exactly the weighted score `MatchScore`: 0.4 for a shared id, 0.3 or 0.2 for equal or similar classes, the child term and the flag term. |
| Scoring.CopyFlagsGet | car2.py:319-323 | A flag the accessibility node has takes its value. Every other flag keeps the view node's value or stays absent. |
| Scoring.SupplementedFields | car2.py:295-327 | Specifies `Supplemented`: the content-desc and its source come from the content-desc if present, otherwise from the text, otherwise they are kept. The text is always overwritten. The id is copied only when the view node has none. The nine flags are copied when present. Both annotations are set. Class, bounds, package, index, geometry and children are unchanged. |
| Scoring.SupplementTextInfo | car2.py:295-327 | The loop over the nine state flags produces exactly the supplemented node. |
| UIParser.ParseBoundsGeometry | car_mirrot_tool.py:179-192 | A geometry exists exactly when the bounds string has four digit runs. Its corners are the runs in order, its centres floor midpoints, and its width and height the differences. |
| UIParser.ParseNode | car_mirrot_tool.py:157-200 | Missing attributes take their defaults: `''` for text fields, `'0'` for index, `'true'` for enabled and `'false'` for the other eight flags. The nine flags are all present. The geometry follows the bounds rule. Merge annotations are absent. There is one child node per child element, in document order. |
| UIParser.ParseNodeSize | car_mirrot_tool.py:194-198 | The parsed tree has exactly as many nodes as the document has elements. |
| UIParser.ParseUiXml | car_mirrot_tool.py:146-154 | Nothing, not a partial tree, when the document could not be parsed. Otherwise the parsed tree, of the document's size. |
| UIParser.FirstMinArea | car_mirrot_tool.py:212-213 | `min` with the area key picks a hit of least area, and every hit before it is strictly larger. |
| UIParser.FindElementsAtPoint | car_mirrot_tool.py:217-224 | The accumulator receives, in pre-order, exactly the nodes that have corners and contain the point, edges included. |
| UIParser.HitsAtPoint | car_mirrot_tool.py:217-224 | The hits are exactly the nodes of the tree that contain the point. |
| UIParser.NoHit | car_mirrot_tool.py:212-214 | There are no hits exactly when no node contains the point. |
| UIParser.SmallestHit | car_mirrot_tool.py:212-213 | The chosen hit contains the point and has the least area among all nodes that contain it. It is the earliest such node in pre-order. |
| UIParser.FindElementAtPoint | car_mirrot_tool.py:203-214 | Nothing exactly when there is no tree or no node contains the point. Otherwise a containing node of least area, the first in pre-order among equals. |
| Search.SearchInNode | car_mirrot_tool.py:706-717 | The accumulator receives, in pre-order, exactly the nodes that pass `MatchesQuery`: those whose lowercased id, text, class or content-desc contains the query. |
| Search.SearchElement | car_mirrot_tool.py:685-693 | Nothing is searched for an empty query or a missing tree. Otherwise the results hold every matching node of the tree in pre-order, and no other node. |
| Search.CountElements | car2.py:1511-1516 | The count is the number of nodes of the tree (`Size`). |
| ViewHierarchy.MatchClass | car2.py:608-612 | `^([a-zA-Z0-9.$_]+)` matches exactly when the line starts with a class character, and takes the maximal run of them. |
| ViewHierarchy.MatchResourceId | car2.py:628 | A matched id name is a non-empty run of word characters. |
| ViewHierarchy.MatchResourceIdOf | car2.py:628 | Text that starts with `#`, a non-empty lower-case hex run, a space, `app:id/` or `android:id/` and a maximal non-empty word run matches, and the id is that word run. |
| ViewHierarchy.MatchResourceIdParts | car2.py:628 | Every match comes from text of that shape, with the id as its word run. So the pattern matches at the start of `t` exactly when `t` has that shape. |
| ViewHierarchy.ParseLineBounds | car2.py:603-625 | With `ParseLineResourceId`, specifies `ParseLine`: a line yields nothing exactly when it has no leading class name or no bounds quadruple anywhere. The quadruple taken is the leftmost match. |
| ViewHierarchy.ParseLineResourceId | car2.py:627-632 | The recorded id is the non-empty name of the leftmost id match. There is none only when no position matches. |
| ViewHierarchy.AbsoluteBounds | car2.py:647-673 | Absolute bounds are the relative ones moved by the parent's origin, so width and height are kept. |
| ViewHierarchy.RelativeRoundTrip | car2.py:650-665 | Bounds written as `l,t-r,b` match the anchored bounds pattern again and give back the same four numbers. |
| ViewHierarchy.BracketDigitRuns | car2.py:581 | The `[l,t][r,b]` text has exactly the four numbers as its digit runs. |
| ViewHierarchy.BracketGeometry | car2.py:581-589 | Reading `[l,t][r,b]` with the four-digit-run rule gives exactly the geometry of the bounds. |
| ViewHierarchy.CreateUiNode | car2.py:544-601 | The created node's geometry is the absolute bounds with floor-midpoint centres. Its id is `app:id/` plus the widget's id, or empty. Its text, description and children are empty. |
| ViewHierarchy.CreatedBoundsRoundTrip | car2.py:575-589 | The bounds text of a created node reads back, through the accessibility parser's rule, to exactly the geometry it stores. |
| ViewHierarchy.CreatedFlags | car2.py:565-568 | A created node carries the widget's clickable, enabled and focusable state as `true`/`false` text and is never scrollable. |
| ViewHierarchy.PopWhile | car2.py:492-495 | Popping leaves a prefix of both stacks whose top is shallower than the indent. The first entry popped was not shallower. |
| ViewHierarchy.PopToParent | car2.py:492-495 | The pop loop leaves exactly what `PopWhile` describes. |
| ViewHierarchy.AppendKidOk | car2.py:525-528 | Appending a new node as the child of an earlier node keeps every child reference in range and later than its parent. |
| ViewHierarchy.AppendRootOk | car2.py:529-531 | Appending a new top-level node keeps the arena well formed. |
| ViewHierarchy.PushOk | car2.py:524-537 | Pushing onto stacks popped to shallower entries keeps the loop invariant: equal heights, in-range references and strictly increasing indents. |
| ViewHierarchy.AttachOk | car2.py:491-540 | `Attach`, attaching a kept widget, adds one node and keeps the loop invariant. |
| ViewHierarchy.StepOk | car2.py:450-540 | `Step`, one iteration, keeps the loop invariant. |
| ViewHierarchy.RunOk | car2.py:441-542 | `Run`, the fold of `Step` over the lines, keeps the invariant. |
| ViewHierarchy.StepSkipsLine | car2.py:451-468 | A blank line, the header, or a line deeper than a dropped widget leaves the state unchanged. A line without class or bounds only ends the skipping. |
| ViewHierarchy.StepDropsFiltered | car2.py:470-489 | A widget that `ShouldFilter` rejects only records its indent as the skip indent. It is rejected for an id containing a blocklisted id, the blocklisted class, or 0x0 relative bounds. |
| ViewHierarchy.FilteredSubtreeDropped | car2.py:457-489 | A filtered widget and every following deeper line leave the parse as it was, apart from the skip indent. The whole subtree is dropped. |
| ViewHierarchy.SkippedRun | car2.py:458-460 | Lines deeper than the skip indent, or blank, change nothing. |
| ViewHierarchy.AttachStacks | car2.py:491-537 | A kept widget pops both stacks to exactly the entries shallower than its indent and is pushed on both. The skip indent is cleared. |
| ViewHierarchy.AttachView | car2.py:497-516 | The view recorded for a kept widget has its relative bounds moved by the remaining top's absolute bounds, or its relative bounds at top level. Its level is the stack height, and its node is created from it. |
| ViewHierarchy.AttachTree | car2.py:524-531 | A kept widget becomes the last child of the remaining top node, or of the root when the stack was emptied. |
| ViewHierarchy.AttachPushes | car2.py:518-522 | The 0x0 check after moving never drops a widget that passed the filter. |
| ViewHierarchy.PushShape | car2.py:524-537 | The shape of both stacks, the views and the arena after a push. |
| ViewHierarchy.StepKeepsWidget | car2.py:457-540 | A line that is not skipped and whose widget passes the filter is attached, with the skip indent cleared. |
| ViewHierarchy.TraceIsRun | car2.py:450-540 | The recorded sequence of loop states ends in the fold of `Step` over the lines. |
| ViewHierarchy.Build | car2.py:525-534 | The tree of an arena node is that node with only its children replaced: one child per attached arena position, in order, each the tree built from that position. |
| ViewHierarchy.UiFormat | car2.py:675-681 | A single top-level widget becomes the tree itself. Otherwise the top-level widgets, in order, hang under a `RootNode` with empty geometry. |
| ViewHierarchy.ViewHierarchyParser.constructor | car2.py:386-390 | A new parser holds the text, no views and an empty tree. |
| ViewHierarchy.ViewHierarchyParser.Parse | car2.py:441-542 | The line loop leaves the views and the tree as the fold of `Step` over the lines, and returns the views. |
| ViewHierarchy.ViewHierarchyParser.ParseOneLine | car2.py:450-540 | One iteration changes the stacks, skip indent, views and tree exactly as `Step` says. |
| ViewHierarchy.ViewHierarchyParser.AttachWidget | car2.py:491-540 | Keeping a widget changes the stacks, views and tree exactly as `Attach` says. |
| ViewHierarchy.ViewHierarchyParser.ToUiFormat | car2.py:675-681 | The tree the parser object holds, in the accessibility format. |
| Matching.ContentTest | car2.py:100-102 | The anchor test is a non-empty id that mentions `content`. The `endswith(':id/content')` half adds nothing. |
| Matching.FindContentFirst | car2.py:95-109 | Specifies `FindContentNode`: the search finds the first node in pre-order that passes the anchor test, and reports none only when no node passes. |
| Matching.FindContentFirstIn | car2.py:104-107 | The same over a list of siblings, positions counted across their flattenings. |
| Matching.ContentOffset | car2.py:65-77 | The start of the merge in one tree is its anchor, or its root when there is none. |
| Matching.ReplaceAtLayout | car2.py:88 | Merging the anchor's subtree in place keeps the whole view tree's layout, and the merged subtree appears at the anchor's position. |
| Matching.KeyedSpec | car2.py:111-127 | The positions indexed under a key are exactly the range's nodes with that id suffix, in increasing order. |
| Matching.IndexRangeLookup | car2.py:117-127 | With `IndexRangeKeys`, specifies `IndexRange`: indexing a range appends, under each key, exactly the positions of the range that carry it. Earlier entries stay. |
| Matching.IndexRangeKeys | car2.py:121-122 | After indexing, a key is present exactly when it was before or some node of the range carries it. |
| Matching.IndexRangeSplit | car2.py:126-127 | Indexing two adjacent ranges one after the other is indexing their union. |
| Matching.IndexChildStep | car2.py:126-127 | Indexing the next child's subtree continues the pre-order visit of the parent's subtree. |
| Matching.IndexRangeOk | car2.py:117-123 | Every indexed position is a store node whose own id suffix is its key. |
| Matching.IndexOkExtend | car2.py:42-49 | Reading another tree keeps the old index entries well formed. |
| Matching.AvailableExact | car2.py:186-189 | Strategy 1 keeps exactly the unused listed nodes, each scored with the id bonus. |
| Matching.IdCandidatesExact | car2.py:182-189 | Specifies `IdCandidates`: strategy 1 proposes exactly the unused nodes indexed under the view node's id suffix, and each shares that suffix. |
| Matching.SubtreeUnfold | car2.py:208-221 | One level of the subtree walk is the node itself, if unused and scoring above 0, then its children one level down. |
| Matching.SubtreeStop | car2.py:210-211 | Below the maximum depth the walk finds nothing. |
| Matching.SubtreeExact | car2.py:208-221 | Specifies `SubtreeCandidates`: strategy 2 proposes exactly the unused nodes at most two levels below the context that score above 0 without the id bonus. |
| Matching.SubtreeSound | car2.py:208-221 | Every candidate of the walk is such a node. |
| Matching.SubtreeComplete | car2.py:208-221 | Every such node is a candidate of the walk. |
| Matching.SubtreeListWhich | car2.py:220-221 | A candidate of the child loop comes from one child's walk. |
| Matching.SubtreeListIn | car2.py:220-221 | Every candidate of a child's walk is a candidate of the child loop. |
| Matching.SubtreeScoreBound | car2.py:214-217 | A subtree candidate scores in (0, 0.6]. |
| Matching.FirstMax | car2.py:196-198 | The candidate a stable descending sort puts first has the maximal score, and every earlier candidate scores strictly less. |
| Matching.BestMatchSpec | car2.py:177-206 | Specifies `BestMatch` over `Candidates`, strategy 1 followed by strategy 2: a match is an unused store node that is the first maximal candidate and scores at least 0.5. There is no match exactly when every candidate scores below 0.5. |
| Matching.BestMatchUnused | car2.py:186-204 | A match is an unused node of the store. |
| Matching.BestMatchRuleOk | car2.py:186-204 | The choice rule only ever picks unused store nodes. |
| Matching.MatchRule | car2.py:177-206 | There is a rule that agrees with the choice of `_find_best_match`. |
| Matching.MergeAgreeing | car2.py:141-175 | Any two rules that agree with the choice give the same merge. |
| Matching.MergeSameRule | car2.py:141-175 | Rules that choose alike in every context of the store merge alike. |
| Matching.MergeCounts | car2.py:141-175 | With `MergeLayout` and `MergeMarked`, specifies `Merge`: the counters grow by exactly the number of nodes in the view subtree. Marks are only added, one per match, so no node is matched twice. |
| Matching.MergeListCounts | car2.py:161-175 | The same for `MergeList`, over a list of siblings. |
| Matching.MergeLayout | car2.py:141-175 | Merging changes no class, geometry or hierarchy. |
| Matching.MergeListLayout | car2.py:161-175 | The same over a list of siblings. |
| Matching.MergeMarked | car2.py:151-175 | Every merged node carries `text_matched`. The root's flag is true exactly when a match was chosen, and it then has the match's text. An unmatched root keeps its text, description, id and flags. |
| Matching.MergeListMarked | car2.py:161-175 | Every merged sibling's tree is flagged throughout. |
| Matching.RateBounds | car2.py:369 | The match rate lies in [0, 100] and is the matched share of the total. |
| Matching.CollectIdCandidates | car2.py:182-189 | The loop over the indexed nodes collects exactly the strategy 1 candidates. |
| Matching.ScoreRoot | car2.py:214-217 | The visited node is added exactly when it is unused and scores above 0. |
| Matching.SearchInSubtree | car2.py:208-221 | The walk appends exactly the strategy 2 candidates below the root. |
| Matching.SearchChildren | car2.py:220-221 | The child loop appends each child's walk in child order. |
| Matching.GatherCandidates | car2.py:179-193 | The candidate list is strategy 1 followed by strategy 2 from the context. |
| Matching.PickBest | car2.py:196-206 | The sort and threshold test pick the first best candidate when it reaches 0.5, and nothing otherwise. |
| Hybrid.HybridUIParser.constructor | car2.py:35-40 | No trees, zero counters, an empty index and no used marks. |
| Hybrid.HybridUIParser.ParseUiautomator | car2.py:42-49 | A readable document becomes the current accessibility tree, appended to the store. An unreadable one leaves no current tree. Counters, index and marks are unchanged. |
| Hybrid.HybridUIParser.ParseViewHierarchy | car2.py:51-56 | The view tree becomes the fold of the parse loop over the dump, in the accessibility format. |
| Hybrid.HybridUIParser.IndexNode | car2.py:117-123 | A visited node with a non-empty id suffix is appended under that suffix. |
| Hybrid.HybridUIParser.BuildUiIndex | car2.py:111-127 | The index afterwards is the old one with the subtree's nodes appended in pre-order under their suffixes. It stays well formed. |
| Hybrid.HybridUIParser.IndexChildren | car2.py:126-127 | The loop over the children indexes the rest of the subtree in pre-order. |
| Hybrid.HybridUIParser.FindBestMatch | car2.py:177-206 | The result is the rule's first-best choice, an unused store node. Exactly that node gets the used mark. |
| Hybrid.HybridUIParser.MatchAndMerge | car2.py:141-175 | The counters, marks and merged subtree are those of `Merge`. |
| Hybrid.HybridUIParser.MergeChildren | car2.py:161-175 | The child loop leaves the counters, marks and merged children of `MergeList`. |
| Hybrid.HybridUIParser.IndexAndMerge | car2.py:85-88 | The anchor subtree is indexed and the view subtree merged into it. Every view node is counted once and the layout is kept. |
| Hybrid.HybridUIParser.MergeTrees | car2.py:58-93 | With a tree missing, nothing changes. Otherwise the accessibility anchor's subtree is indexed, the view anchor's subtree is merged into it in place, every counted node is counted once, and the view tree keeps its layout. |
| Hybrid.HybridUIParser.GetStatistics | car2.py:362-370 | `total` is matched plus unmatched. The rate is `0%` exactly when the total is 0, and is otherwise the matched share as a percentage. |

## Left out

- **I/O and the device.** `ADBHelper`, subprocess calls, screenshots,
  taps and temporary files are outside the model.
- **The widget toolkit.** The Qt classes, timers, painting, tree widgets
  and what `searchElement` does with its results on screen are outside the
  model.
- **XML parsing.** `ET.parse` and file reading are library calls. The
  model takes the parsed element tree as an `Option<Element>`, where
  `None` means the document could not be parsed.
- **Diagnostics.** `print`, `_get_node_summary` and `_print_statistics`
  only write diagnostics.
- **The regular-expression engine.** Only the concrete patterns are
  modelled, as hand-written scanners. Digits and whitespace are ASCII
  only, and `lower()` changes ASCII letters only.
- Scoring.MatchScore: computes the score exactly, not in binary floating
  point. Python's sum can fall just below or above 0.5 where the exact
  value is 0.5, so the model may decide the threshold differently at that
  boundary. Scores that are equal as exact numbers can also differ as
  floats: 0.4 + 0.2 + 0.15 + 0.075 is 0.8250000000000001 in Python, while
  another sum to 0.825 can round to 0.825. The stable sort may then put a
  different one of the tied candidates first, so the chosen match can
  differ among candidates with equal exact scores.
- Hybrid.HybridUIParser.GetStatistics: returns the rate as an exact
  number, not the one-decimal `"%.1f%"` text.
- Matching.FirstMax: stands for the `sort(..., reverse=True)` followed by
  `[0]`. It picks the element the stable sort puts first. The sorted list
  itself is not built.
- **Always-true guards.** The `if not node` / `if child_info` /
  `if ui_context` guards always pass in the model: every node is a
  non-empty record.
- **Unreachable fallbacks.**
  - The zero-geometry branch of `_create_ui_node` and the fallbacks of
    `_calculate_absolute_bounds` never run on the bounds text the parser
    writes (`RelativeRoundTrip`).
  - The second 0x0 check in `parse` never drops a widget (`AttachPushes`).
  - The model has no code for these branches.
- **Line fields.** `_parse_line` also records the instance hash and
  visibility, and `parse` records the original line. The model keeps them
  in `LineInfo`/`ViewInfo` but states nothing about them, because nothing
  downstream reads them.
- **Bounds text.** The relative and absolute bounds are kept as numbers,
  not as `l,t-r,b` text. `RelativeRoundTrip` shows the text reads back to
  the same numbers.
- **Node identity for merged trees.** The view tree is rebuilt as a value
  rather than mutated through shared references. `ReplaceAt` stands for
  the aliasing between the anchor node and the whole view tree. The
  references of the view parser's node stack are arena positions.
- **The `content` special case of `_create_ui_node`** writes the same text
  as the general case. The model has a single case.
