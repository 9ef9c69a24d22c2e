/**
 * The two tree queries of the mirror tool that do not touch the widget
 * toolkit: the case-insensitive substring search and the element count.
 */
module Search {
  import opened Wrappers
  import opened Text
  import opened UiNode

  /** The (already lowercased) query occurs in the lowercased resource-id, text, class or content-desc. */
  predicate MatchesQuery(n: Node, query: string) {
    Contains(Lower(n.resourceId), query) || Contains(Lower(n.text), query) ||
    Contains(Lower(n.cls), query) || Contains(Lower(n.contentDesc), query)
  }

  function Matching(query: string): Node -> bool {
    n => MatchesQuery(n, query)
  }

  /** `_searchInNode`: appends, in pre-order, every node of the tree that matches the query. */
  method SearchInNode(node: Node, searchText: string, results: seq<Node>) returns (out: seq<Node>)
    ensures out == results + Filter(Flat(node), Matching(searchText))
    decreases node
  {
    out := results;
    if Contains(Lower(node.resourceId), searchText) || Contains(Lower(node.text), searchText) ||
       Contains(Lower(node.cls), searchText) || Contains(Lower(node.contentDesc), searchText) {
      out := out + [node];
    }
    PreorderFilterStart(node, Matching(searchText));
    var cs := node.children;
    for k := 0 to |cs|
      invariant out == results + Filter([node] + FlatList(cs[..k]), Matching(searchText))
    {
      ghost var before := out;
      out := SearchInNode(cs[k], searchText, out);
      PreorderFilterNext(node, k, Matching(searchText), results, before, out);
    }
    assert cs[..|cs|] == cs;
  }

  /**
   * `searchElement`: lowercases the query; does nothing (no result list) when
   * the query is empty or no tree is loaded; otherwise every matching node of
   * the tree, in pre-order, and no other.
   */
  method SearchElement(query: string, hierarchy: Option<Node>) returns (results: Option<seq<Node>>)
    ensures results.None? <==> query == "" || hierarchy.None?
    ensures results.Some? ==> results.value == Filter(Flat(hierarchy.value), Matching(Lower(query)))
    ensures results.Some? ==>
      forall n :: n in results.value <==> n in Flat(hierarchy.value) && MatchesQuery(n, Lower(query))
  {
    var searchText := Lower(query);
    if searchText == "" || hierarchy.None? {
      return None;
    }
    var found := SearchInNode(hierarchy.value, searchText, []);
    FilterMembers(Flat(hierarchy.value), Matching(searchText));
    results := Some(found);
  }

  /** `countElements`: the number of nodes of the tree. */
  method CountElements(node: Node) returns (count: nat)
    ensures count == Size(node)
    decreases node
  {
    count := 1;
    var cs := node.children;
    for k := 0 to |cs|
      invariant count == 1 + |FlatList(cs[..k])|
    {
      var c := CountElements(cs[k]);
      count := count + c;
      FlatListSnoc(cs, k);
    }
    assert cs[..|cs|] == cs;
  }
}
