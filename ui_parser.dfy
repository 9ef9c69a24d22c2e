/**
 * The attribute-dump parser (`UIParser`): one node per element of the parsed
 * document, with defaults for missing attributes and geometry derived from
 * the bounds string, plus the point hit-test over a node tree.
 */
module UIParser {
  import opened Wrappers
  import opened Text
  import opened UiNode

  /** An element of the already-parsed document: its attribute map and its child elements in document order. */
  datatype Element = Element(attrib: map<string, string>, children: seq<Element>)

  /** Python's `element.get(key, default)`. */
  function Get(attrib: map<string, string>, key: string, default: string): string {
    if key in attrib then attrib[key] else default
  }

  /** The default of a state flag missing from an element: 'true' for enabled, 'false' for the other eight. */
  function FlagDefault(key: string): string {
    if key == "enabled" then "true" else "false"
  }

  /** The geometry keys derived from a bounds string that has exactly four digit runs. */
  function ParseBoundsGeometry(bounds: string): (g: Option<Geometry>)
    ensures g.Some? <==> |DigitRuns(bounds)| == 4
    ensures g.Some? ==>
      var runs := DigitRuns(bounds);
      var x1, y1, x2, y2 := DigitsValue(runs[0]), DigitsValue(runs[1]), DigitsValue(runs[2]), DigitsValue(runs[3]);
      g.value == Geometry(x1, y1, x2, y2, (x1 + x2) / 2, (y1 + y2) / 2, x2 - x1, y2 - y1)
  {
    if bounds == "" then None
    else
      var runs := DigitRuns(bounds);
      if |runs| == 4 then
        var x1, y1, x2, y2 := DigitsValue(runs[0]), DigitsValue(runs[1]), DigitsValue(runs[2]), DigitsValue(runs[3]);
        Some(Geometry(x1, y1, x2, y2, (x1 + x2) / 2, (y1 + y2) / 2, x2 - x1, y2 - y1))
      else None
  }

  /** `_parse_node`: the node record of an element and, recursively, of each of its children. */
  function ParseNode(e: Element): (n: Node)
    ensures n.cls == Get(e.attrib, "class", "") && n.package == Get(e.attrib, "package", "")
    ensures n.text == Get(e.attrib, "text", "") && n.resourceId == Get(e.attrib, "resource-id", "")
    ensures n.contentDesc == Get(e.attrib, "content-desc", "") && n.bounds == Get(e.attrib, "bounds", "")
    ensures n.index == Get(e.attrib, "index", "0")
    ensures n.flags.Keys == set k | k in StateFlags
    ensures forall k :: k in n.flags ==> n.flags[k] == Get(e.attrib, k, FlagDefault(k))
    ensures n.geom == ParseBoundsGeometry(n.bounds)
    ensures n.textSource.None? && !n.infoSupplemented && n.textMatched.None?
    ensures |n.children| == |e.children|
    ensures forall k :: 0 <= k < |e.children| ==> n.children[k] == ParseNode(e.children[k])
    decreases e
  {
    var bounds := Get(e.attrib, "bounds", "");
    Node(
      cls := Get(e.attrib, "class", ""),
      resourceId := Get(e.attrib, "resource-id", ""),
      text := Get(e.attrib, "text", ""),
      contentDesc := Get(e.attrib, "content-desc", ""),
      bounds := bounds,
      package := Get(e.attrib, "package", ""),
      index := Get(e.attrib, "index", "0"),
      flags := map k | k in StateFlags :: Get(e.attrib, k, FlagDefault(k)),
      geom := ParseBoundsGeometry(bounds),
      textSource := None,
      infoSupplemented := false,
      textMatched := None,
      children := seq(|e.children|, k requires 0 <= k < |e.children| => ParseNode(e.children[k])))
  }

  /** The number of elements of a document tree. */
  function ElementCount(e: Element): nat
    decreases e, 1
  {
    1 + ElementCountList(e.children)
  }

  function ElementCountList(es: seq<Element>): nat
    decreases es, 0
  {
    if |es| == 0 then 0 else ElementCount(es[0]) + ElementCountList(es[1..])
  }

  /** Every element yields exactly one node: the tree has as many nodes as the document has elements. */
  lemma {:induction false} ParseNodeSize(e: Element)
    ensures Size(ParseNode(e)) == ElementCount(e)
    decreases e, 1
  {
    ParseListSize(e.children, ParseNode(e).children);
  }

  lemma {:induction false} ParseListSize(es: seq<Element>, ns: seq<Node>)
    requires |ns| == |es| && forall k :: 0 <= k < |es| ==> ns[k] == ParseNode(es[k])
    ensures |FlatList(ns)| == ElementCountList(es)
    decreases es, 0
  {
    if |es| > 0 {
      ParseNodeSize(es[0]);
      ParseListSize(es[1..], ns[1..]);
    }
  }

  /** `parse_ui_xml`: the tree of a document, or nothing (not a partial tree) when the document could not be parsed. */
  function ParseUiXml(doc: Option<Element>): (r: Option<Node>)
    ensures r.None? <==> doc.None?
    ensures doc.Some? ==> r.value == ParseNode(doc.value) && Size(r.value) == ElementCount(doc.value)
  {
    if doc.None? then None
    else
      ParseNodeSize(doc.value);
      Some(ParseNode(doc.value))
  }

  /** The node has all four corner keys and the point lies within them, edges included. */
  predicate ContainsPoint(n: Node, x: int, y: int) {
    n.geom.Some? && n.geom.value.x1 <= x <= n.geom.value.x2 && n.geom.value.y1 <= y <= n.geom.value.y2
  }

  function AtPoint(x: int, y: int): Node -> bool {
    n => ContainsPoint(n, x, y)
  }

  /** The key `min` ranks hits by: width times height. */
  function Area(n: Node): int
    requires n.geom.Some?
  {
    n.geom.value.width * n.geom.value.height
  }

  /** Python's `min(..., key=area)`: the first position holding the smallest area. */
  function FirstMinArea(ns: seq<Node>): (k: nat)
    requires |ns| > 0 && forall i :: 0 <= i < |ns| ==> ns[i].geom.Some?
    ensures k < |ns|
    ensures forall i :: 0 <= i < |ns| ==> Area(ns[k]) <= Area(ns[i])
    ensures forall i :: 0 <= i < k ==> Area(ns[k]) < Area(ns[i])
  {
    if |ns| == 1 then 0
    else
      var k := FirstMinArea(ns[..|ns| - 1]);
      if Area(ns[|ns| - 1]) < Area(ns[k]) then |ns| - 1 else k
  }

  /** `_find_elements_at_point`: appends, in pre-order, every node of the tree that contains the point. */
  method FindElementsAtPoint(node: Node, x: int, y: int, elements: seq<Node>) returns (out: seq<Node>)
    ensures out == elements + Filter(Flat(node), AtPoint(x, y))
    decreases node
  {
    out := elements;
    if node.geom.Some? {
      var g := node.geom.value;
      if g.x1 <= x <= g.x2 && g.y1 <= y <= g.y2 {
        out := out + [node];
      }
    }
    PreorderFilterStart(node, AtPoint(x, y));
    assert out == elements + Filter([node] + FlatList(node.children[..0]), AtPoint(x, y));
    var cs := node.children;
    for k := 0 to |cs|
      invariant out == elements + Filter([node] + FlatList(cs[..k]), AtPoint(x, y))
    {
      ghost var before := out;
      out := FindElementsAtPoint(cs[k], x, y, out);
      PreorderFilterNext(node, k, AtPoint(x, y), elements, before, out);
    }
    assert cs[..|cs|] == cs;
  }

  /**
   * `find_element_at_point`: nothing when there is no tree or no node contains
   * the point; otherwise a containing node of smallest area, the earliest in
   * pre-order among equals.
   */
  method FindElementAtPoint(uiData: Option<Node>, x: int, y: int) returns (r: Option<Node>)
    ensures r.None? <==> uiData.None? || forall n :: n in Flat(uiData.value) ==> !ContainsPoint(n, x, y)
    ensures r.Some? ==> r.value in Flat(uiData.value) && ContainsPoint(r.value, x, y)
    ensures r.Some? ==> forall n :: n in Flat(uiData.value) && ContainsPoint(n, x, y) ==> Area(r.value) <= Area(n)
    ensures r.Some? ==> FirstOfArea(Filter(Flat(uiData.value), AtPoint(x, y)), r.value)
  {
    if uiData.None? {
      return None;
    }
    var elements := FindElementsAtPoint(uiData.value, x, y, []);
    ghost var hits := Filter(Flat(uiData.value), AtPoint(x, y));
    assert elements == hits;
    NoHit(uiData.value, x, y);
    if |elements| > 0 {
      SmallestHit(uiData.value, x, y);
      var k := FirstMinArea(elements);
      r := Some(elements[k]);
    } else {
      r := None;
    }
  }

  /** `n` occurs in `hits` at a position before which every hit has a strictly larger area. */
  predicate FirstOfArea(hits: seq<Node>, n: Node)
    requires n.geom.Some?
  {
    exists k :: 0 <= k < |hits| && hits[k] == n &&
      forall j :: 0 <= j < k ==> hits[j].geom.Some? && Area(n) < Area(hits[j])
  }

  /** No node contains the point exactly when there are no hits. */
  lemma NoHit(t: Node, x: int, y: int)
    ensures |Filter(Flat(t), AtPoint(x, y))| == 0 <==> forall n :: n in Flat(t) ==> !ContainsPoint(n, x, y)
  {
    HitsAtPoint(t, x, y);
    var hits := Filter(Flat(t), AtPoint(x, y));
    if |hits| > 0 {
      assert hits[0] in hits;
    }
  }

  /** The hit `FirstMinArea` picks contains the point, has the least area of all nodes that contain it, and every hit before it is larger. */
  lemma SmallestHit(t: Node, x: int, y: int)
    requires |Filter(Flat(t), AtPoint(x, y))| > 0
    ensures var hits := Filter(Flat(t), AtPoint(x, y));
      (forall i :: 0 <= i < |hits| ==> hits[i].geom.Some?) &&
      var k := FirstMinArea(hits);
      hits[k] in Flat(t) && ContainsPoint(hits[k], x, y) &&
      (forall n :: n in Flat(t) && ContainsPoint(n, x, y) ==> Area(hits[k]) <= Area(n)) &&
      FirstOfArea(hits, hits[k])
  {
    HitsAtPoint(t, x, y);
    var hits := Filter(Flat(t), AtPoint(x, y));
    var k := FirstMinArea(hits);
    assert hits[k] in hits;
    assert FirstOfArea(hits, hits[k]) by {
      assert hits[k] == hits[k] && forall j :: 0 <= j < k ==> hits[j].geom.Some? && Area(hits[k]) < Area(hits[j]);
    }
    LeastAmongHits(t, x, y, k);
  }

  /** The hit at `k` is no larger than any hit, so no larger than any node containing the point. */
  lemma LeastAmongHits(t: Node, x: int, y: int, k: nat)
    requires var hits := Filter(Flat(t), AtPoint(x, y));
      k < |hits| && (forall i :: 0 <= i < |hits| ==> hits[i].geom.Some?) &&
      forall i :: 0 <= i < |hits| ==> Area(hits[k]) <= Area(hits[i])
    ensures var hits := Filter(Flat(t), AtPoint(x, y));
      forall n :: n in Flat(t) && ContainsPoint(n, x, y) ==> Area(hits[k]) <= Area(n)
  {
    var hits := Filter(Flat(t), AtPoint(x, y));
    HitsAtPoint(t, x, y);
    forall n | n in Flat(t) && ContainsPoint(n, x, y) ensures Area(hits[k]) <= Area(n) {
      var i :| 0 <= i < |hits| && hits[i] == n;
    }
  }

  /** The hits of `_find_elements_at_point` are exactly the nodes of the tree that contain the point. */
  lemma HitsAtPoint(t: Node, x: int, y: int)
    ensures var hits := Filter(Flat(t), AtPoint(x, y));
      (forall i :: 0 <= i < |hits| ==> ContainsPoint(hits[i], x, y)) &&
      (forall n :: n in hits <==> n in Flat(t) && ContainsPoint(n, x, y))
  {
    var hits := Filter(Flat(t), AtPoint(x, y));
    FilterMembers(Flat(t), AtPoint(x, y));
    forall i | 0 <= i < |hits| ensures ContainsPoint(hits[i], x, y) {
      assert hits[i] in hits;
    }
  }
}
