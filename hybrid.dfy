/**
 * The hybrid parser object (`HybridUIParser`): the tree recovered from the
 * view hierarchy dump is the base, and each of its nodes is matched against a
 * node of the accessibility tree, whose text, description, id and state flags
 * it then takes over. Each method is proved against the functions of
 * `Matching`.
 */
module Hybrid {
  import opened Wrappers
  import opened Text
  import opened UiNode
  import opened Scoring
  import opened Matching
  import UIParser
  import ViewHierarchy

  // ---------------------------------------------------------------- the parser object

  /** `match_rate` of `get_statistics`: the literal `0%` when nothing was counted, otherwise a percentage. */
  datatype MatchRate = NoNodes | Percent(value: real)

  /** The dictionary `get_statistics` returns. */
  datatype Statistics = Statistics(matched: nat, unmatched: nat, total: nat, matchRate: MatchRate)

  class HybridUIParser {
    /** Every accessibility tree read so far, flattened one after the other. */
    var store: seq<Node>
    /** `ui_tree`: the store position of the root of the last tree read. */
    var uiTree: Option<nat>
    /** `vh_tree`: the tree recovered from the last view hierarchy dump. */
    var vhTree: Option<Node>
    var matchedCount: nat
    var unmatchedCount: nat
    /** `ui_node_map`: store positions by id suffix. */
    var uiNodeMap: map<string, seq<nat>>
    /** The store positions carrying the `_used` mark. */
    var used: set<nat>

    ghost predicate Valid()
      reads this`store, this`uiNodeMap, this`uiTree
    {
      IsStore(store) && IndexOk(store, uiNodeMap) && (uiTree.Some? ==> uiTree.value < |store|)
    }

    /** The used marks and the counters, as the merge specification takes them. */
    ghost function Tallies(): Tally
      reads this`used, this`matchedCount, this`unmatchedCount
    {
      Tally(used, matchedCount, unmatchedCount)
    }

    constructor ()
      ensures Valid()
      ensures store == [] && uiTree == None && vhTree == None
      ensures matchedCount == 0 && unmatchedCount == 0 && uiNodeMap == map[] && used == {}
    {
      store, uiTree, vhTree := [], None, None;
      matchedCount, unmatchedCount := 0, 0;
      uiNodeMap, used := map[], {};
    }

    /**
     * `parse_uiautomator`: the parsed tree becomes the current accessibility
     * tree, appended to the store; a document that could not be read leaves
     * no current tree.
     */
    method ParseUiautomator(doc: Option<UIParser.Element>) returns (r: Option<Node>)
      requires Valid()
      modifies this
      ensures Valid()
      ensures r == UIParser.ParseUiXml(doc)
      ensures r.Some? ==> store == old(store) + Flat(r.value) && uiTree == Some(|old(store)|) && store[|old(store)|] == r.value
      ensures r.None? ==> store == old(store) && uiTree == None
      ensures vhTree == old(vhTree) && Tallies() == old(Tallies()) && uiNodeMap == old(uiNodeMap)
    {
      r := UIParser.ParseUiXml(doc);
      if r.Some? {
        FlatIsStore(r.value);
        StoreConcat(store, Flat(r.value));
        IndexOkExtend(store, Flat(r.value), uiNodeMap);
        uiTree := Some(|store|);
        store := store + Flat(r.value);
      } else {
        uiTree := None;
      }
    }

    /**
     * `parse_view_hierarchy`: a fresh view hierarchy parser runs over the
     * dump, and its tree in the accessibility format becomes the current
     * view tree.
     */
    method ParseViewHierarchy(hierarchyText: string) returns (r: Node)
      requires Valid()
      modifies this
      ensures Valid()
      ensures var st := ViewHierarchy.Run(ViewHierarchy.Start([], [], [], []), Split(hierarchyText, '\n'));
        ViewHierarchy.StateOk(st) && r == ViewHierarchy.UiFormat(st.arena, st.kids, st.rootKids)
      ensures vhTree == Some(r)
      ensures store == old(store) && uiTree == old(uiTree) && Tallies() == old(Tallies()) && uiNodeMap == old(uiNodeMap)
    {
      var parser := new ViewHierarchy.ViewHierarchyParser(hierarchyText);
      var _ := parser.Parse();
      ViewHierarchy.RunOk(ViewHierarchy.Start([], [], [], []), Split(hierarchyText, '\n'));
      r := parser.ToUiFormat();
      vhTree := Some(r);
    }

    /** The visit of one node in `_build_ui_index`: a node with an id suffix is appended to the list under it. */
    method IndexNode(id: nat)
      requires Valid() && id < |store|
      modifies this`uiNodeMap
      ensures Valid()
      ensures uiNodeMap == AddToIndex(old(uiNodeMap), store, id)
    {
      var resourceId := store[id].resourceId;
      if resourceId != "" {
        var idSuffix := ExtractIdSuffix(resourceId);
        if idSuffix.Some? && idSuffix.value != "" {
          if idSuffix.value !in uiNodeMap {
            uiNodeMap := uiNodeMap[idSuffix.value := []];
          }
          uiNodeMap := uiNodeMap[idSuffix.value := uiNodeMap[idSuffix.value] + [id]];
        }
      }
      assert uiNodeMap == IndexRange(old(uiNodeMap), store, id, id + 1);
      IndexRangeOk(old(uiNodeMap), store, id, id + 1);
    }

    /**
     * `_build_ui_index`: visits the subtree at `id` in pre-order, appending
     * each node with an id suffix to the list under that suffix.
     */
    method BuildUiIndex(id: nat)
      requires Valid() && id < |store|
      modifies this`uiNodeMap
      ensures Valid()
      ensures uiNodeMap == IndexRange(old(uiNodeMap), store, id, SubtreeEnd(store, id))
      decreases |store| - id, 1
    {
      IndexNode(id);
      IndexChildren(id);
      IndexRangeSplit(old(uiNodeMap), store, id, id + 1, SubtreeEnd(store, id));
    }

    /** The loop of `_build_ui_index` over the children of the node at `id`, which index the rest of its subtree. */
    method IndexChildren(id: nat)
      requires Valid() && id < |store|
      modifies this`uiNodeMap
      ensures Valid()
      ensures uiNodeMap == IndexRange(old(uiNodeMap), store, id + 1, SubtreeEnd(store, id))
      decreases |store| - id, 0
    {
      var cs := ChildIds(store, id);
      ghost var kids := store[id].children;
      ghost var reached := id + 1;
      for k := 0 to |cs|
        invariant Valid()
        invariant reached == id + 1 + |FlatList(kids[..k])| <= SubtreeEnd(store, id)
        invariant uiNodeMap == IndexRange(old(uiNodeMap), store, id + 1, reached)
      {
        IndexChildStep(old(uiNodeMap), store, id, k);
        assert reached == cs[k];
        BuildUiIndex(cs[k]);
        reached := SubtreeEnd(store, cs[k]);
      }
      assert kids[..|cs|] == kids;
    }

    /**
     * `_find_best_match`: collects the candidates of both strategies, takes
     * the first best one, and marks it used when it reaches the threshold.
     * `rule` is any rule that agrees with `BestMatch`.
     */
    method FindBestMatch(vh: Node, ctx: nat, ghost rule: Chooser) returns (best: Option<nat>)
      requires Valid() && ctx < |store| && Agrees(store, uiNodeMap, rule)
      modifies this`used
      ensures Valid()
      ensures best == rule(old(used), vh, ctx)
      ensures best.Some? ==> best.value < |store| && best.value !in old(used)
      ensures used == if best.Some? then old(used) + {best.value} else old(used)
    {
      var candidates := GatherCandidates(store, uiNodeMap, used, vh, ctx);
      best := PickBest(candidates);
      if best.Some? {
        used := used + {best.value};
      }
      assert best == BestMatch(store, uiNodeMap, old(used), vh, ctx);
      BestMatchUnused(store, uiNodeMap, old(used), vh, ctx);
    }

    /**
     * `_match_and_merge`: matches `vh`, counts it, updates it from its match
     * or flags it unmatched, and then does the same for its children, inside
     * the match when there is one and in the old context otherwise.
     */
    method MatchAndMerge(vh: Node, ctx: nat, ghost rule: Chooser) returns (merged: Node)
      requires Valid() && ctx < |store| && Agrees(store, uiNodeMap, rule)
      modifies this`used, this`matchedCount, this`unmatchedCount
      ensures Valid()
      ensures (Tallies(), merged) == Merge(store, rule, old(Tallies()), vh, ctx)
      decreases vh, 1
    {
      ghost var t := Tallies();
      var best := FindBestMatch(vh, ctx, rule);
      var next := ctx;
      if best.Some? {
        matchedCount := matchedCount + 1;
        merged := SupplementTextInfo(vh, store[best.value]);
        next := best.value;
      } else {
        unmatchedCount := unmatchedCount + 1;
        merged := vh.(textMatched := Some(false));
      }
      assert Tallies() == if best.Some? then Tally(t.used + {best.value}, t.matched + 1, t.unmatched) else t.(unmatched := t.unmatched + 1);
      var kids := MergeChildren(vh.children, next, rule);
      merged := merged.(children := kids);
    }

    /** The loop of `_match_and_merge` over the children of a view node, all in the context `ctx`. */
    method MergeChildren(vhs: seq<Node>, ctx: nat, ghost rule: Chooser) returns (kids: seq<Node>)
      requires Valid() && ctx < |store| && Agrees(store, uiNodeMap, rule)
      modifies this`used, this`matchedCount, this`unmatchedCount
      ensures Valid()
      ensures (Tallies(), kids) == MergeList(store, rule, old(Tallies()), vhs, ctx)
      decreases vhs, 0
    {
      kids := [];
      for i := 0 to |vhs|
        invariant Valid()
        invariant (Tallies(), kids) == MergeList(store, rule, old(Tallies()), vhs[..i], ctx)
      {
        assert vhs[..i + 1][..i] == vhs[..i];
        var child := MatchAndMerge(vhs[i], ctx, rule);
        kids := kids + [child];
      }
      assert vhs[..|vhs|] == vhs;
    }

    /**
     * `merge_trees`: with both trees present, starts at the content node of
     * each (or its root), indexes the accessibility subtree, and merges the
     * view subtree into it; the view tree is updated in place and the merged
     * subtree returned. With a tree missing nothing happens. `rule` is the
     * matching rule of the merge, one that agrees with `BestMatch` over the
     * index built (`MergeAgreeing`: any two such rules merge alike).
     */
    method MergeTrees() returns (r: Option<Node>, ghost rule: Chooser)
      requires Valid()
      modifies this`vhTree, this`uiNodeMap, this`used, this`matchedCount, this`unmatchedCount
      ensures Valid()
      ensures old(vhTree).None? || old(uiTree).None? ==>
        r.None? && vhTree == old(vhTree) && uiNodeMap == old(uiNodeMap) && Tallies() == old(Tallies())
      ensures old(vhTree).Some? && old(uiTree).Some? ==> (
        var vh := old(vhTree).value;
        var root := old(uiTree).value;
        var vp := ContentOffset(vh);
        var ctx := root + ContentOffset(store[root]);
        ctx < |store| &&
        uiNodeMap == IndexRange(old(uiNodeMap), store, ctx, SubtreeEnd(store, ctx)) &&
        Agrees(store, uiNodeMap, rule) &&
        r.Some? && (Tallies(), r.value) == Merge(store, rule, old(Tallies()), Flat(vh)[vp], ctx) &&
        vhTree == Some(ReplaceAt(vh, vp, r.value)) &&
        SameLayout(vhTree.value, vh) &&
        matchedCount + unmatchedCount == old(matchedCount) + old(unmatchedCount) + Size(Flat(vh)[vp]))
    {
      if vhTree.None? || uiTree.None? {
        r, rule := None, (used: set<nat>, vh: Node, ctx: nat) => None;
      } else {
        var vh := vhTree.value;
        var root := uiTree.value;
        var vp := ContentOffset(vh);
        var up := ContentOffset(store[root]);
        SubtreeAt(store, root, up);
        var merged;
        merged, rule := IndexAndMerge(Flat(vh)[vp], root + up);
        ReplaceAtLayout(vh, vp, merged);
        vhTree := Some(ReplaceAt(vh, vp, merged));
        r := Some(merged);
      }
    }

    /**
     * The part of `merge_trees` between the two content nodes: indexes the
     * accessibility subtree at `ctx` and merges `vh` into it, every node of
     * `vh` counted once and its layout kept.
     */
    method IndexAndMerge(vh: Node, ctx: nat) returns (merged: Node, ghost rule: Chooser)
      requires Valid() && ctx < |store|
      modifies this`uiNodeMap, this`used, this`matchedCount, this`unmatchedCount
      ensures Valid()
      ensures uiNodeMap == IndexRange(old(uiNodeMap), store, ctx, SubtreeEnd(store, ctx))
      ensures Agrees(store, uiNodeMap, rule)
      ensures (Tallies(), merged) == Merge(store, rule, old(Tallies()), vh, ctx)
      ensures matchedCount + unmatchedCount == old(matchedCount) + old(unmatchedCount) + Size(vh)
      ensures SameLayout(merged, vh)
    {
      BuildUiIndex(ctx);
      rule := MatchRule(store, uiNodeMap);
      ghost var before := Tallies();
      merged := MatchAndMerge(vh, ctx, rule);
      MergeCounts(store, rule, before, vh, ctx);
      MergeLayout(store, rule, before, vh, ctx);
    }

    /** `get_statistics`: the two counters, their sum, and the share matched. */
    function GetStatistics(): (r: Statistics)
      reads this
      ensures r.matched == matchedCount && r.unmatched == unmatchedCount && r.total == matchedCount + unmatchedCount
      ensures r.matchRate.NoNodes? <==> r.total == 0
      ensures r.matchRate.Percent? ==>
        0.0 <= r.matchRate.value <= 100.0 && r.matchRate.value * r.total as real == 100.0 * r.matched as real
    {
      var total := matchedCount + unmatchedCount;
      if total > 0 then
        RateBounds(matchedCount, total);
        Statistics(matchedCount, unmatchedCount, total, Percent(matchedCount as real / total as real * 100.0))
      else
        Statistics(matchedCount, unmatchedCount, total, NoNodes)
    }
  }
}
