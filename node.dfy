/**
 * The widget record both dumps are turned into (a Python dict with fixed keys
 * in the original), its pre-order flattening, and node stores: sequences of
 * nodes in which every node is followed by the rest of its own flattening, so
 * that a position in the store identifies one node of one tree.
 */
module UiNode {
  import opened Wrappers

  /** The derived geometry keys x1, y1, x2, y2, center_x, center_y, width and height, which are set together or not at all. */
  datatype Geometry = Geometry(x1: int, y1: int, x2: int, y2: int, centerX: int, centerY: int, width: int, height: int)

  /**
   * One widget. `flags` holds the boolean-state keys that are present, with
   * their string values ('true'/'false'); `textSource`, `infoSupplemented` and
   * `textMatched` are the merge annotations (absent, false and absent on a
   * freshly parsed node).
   */
  datatype Node = Node(
    cls: string,
    resourceId: string,
    text: string,
    contentDesc: string,
    bounds: string,
    package: string,
    index: string,
    flags: map<string, string>,
    geom: Option<Geometry>,
    textSource: Option<string>,
    infoSupplemented: bool,
    textMatched: Option<bool>,
    children: seq<Node>)

  /** The nine state flags, in the order the merge copies them. */
  const StateFlags: seq<string> :=
    ["clickable", "long-clickable", "checkable", "checked", "selected",
     "enabled", "focusable", "focused", "scrollable"]

  /** Python's `node.get(key)` on a flag key. */
  function FlagGet(n: Node, key: string): Option<string> {
    if key in n.flags then Some(n.flags[key]) else None
  }

  /** The nodes of a tree in pre-order: the node, then each child's flattening in child order. */
  function Flat(n: Node): (r: seq<Node>)
    ensures |r| >= 1 && r[0] == n
    decreases n, 1
  {
    [n] + FlatList(n.children)
  }

  function FlatList(ns: seq<Node>): seq<Node>
    decreases ns, 0
  {
    if |ns| == 0 then [] else Flat(ns[0]) + FlatList(ns[1..])
  }

  /** The number of nodes of a tree. */
  function Size(n: Node): nat { |Flat(n)| }

  lemma {:induction false} FlatListConcat(a: seq<Node>, b: seq<Node>)
    ensures FlatList(a + b) == FlatList(a) + FlatList(b)
    decreases |a|
  {
    if |a| == 0 {
      assert a + b == b;
    } else {
      assert (a + b)[1..] == a[1..] + b;
      FlatListConcat(a[1..], b);
    }
  }

  /** Flattening a list one element longer appends that element's flattening. */
  lemma FlatListSnoc(ns: seq<Node>, k: nat)
    requires k < |ns|
    ensures FlatList(ns[..k + 1]) == FlatList(ns[..k]) + Flat(ns[k])
  {
    assert ns[..k + 1] == ns[..k] + [ns[k]];
    FlatListConcat(ns[..k], [ns[k]]);
    assert FlatList([ns[k]]) == Flat(ns[k]) + FlatList([]);
  }

  /** Where the k-th child's flattening starts inside its parent's list of flattened children. */
  lemma FlatListAt(ns: seq<Node>, k: nat)
    requires k < |ns|
    ensures |FlatList(ns[..k])| + |Flat(ns[k])| <= |FlatList(ns)|
    ensures FlatList(ns)[|FlatList(ns[..k])|..|FlatList(ns[..k])| + |Flat(ns[k])|] == Flat(ns[k])
  {
    assert ns == ns[..k] + ns[k..];
    FlatListConcat(ns[..k], ns[k..]);
    assert FlatList(ns[k..]) == Flat(ns[k]) + FlatList(ns[k + 1..]) by {
      assert ns[k..][1..] == ns[k + 1..];
    }
  }

  /** The node at position `i` of `s` is followed in `s` by the rest of its own pre-order flattening. */
  predicate SegmentAt(s: seq<Node>, i: nat) {
    i < |s| && i + |Flat(s[i])| <= |s| && s[i..i + |Flat(s[i])|] == Flat(s[i])
  }

  /** A node store: every position starts the flattening of the node found there. */
  predicate IsStore(s: seq<Node>) {
    forall i: nat :: i < |s| ==> SegmentAt(s, i)
  }

  lemma SegmentExtend(a: seq<Node>, b: seq<Node>, i: nat)
    requires SegmentAt(a, i)
    ensures SegmentAt(a + b, i)
  {
    assert (a + b)[i] == a[i];
    assert (a + b)[i..i + |Flat(a[i])|] == a[i..i + |Flat(a[i])|];
  }

  lemma SegmentShift(a: seq<Node>, b: seq<Node>, j: nat)
    requires SegmentAt(b, j)
    ensures SegmentAt(a + b, |a| + j)
  {
    assert (a + b)[|a| + j] == b[j];
    assert (a + b)[|a| + j..|a| + j + |Flat(b[j])|] == b[j..j + |Flat(b[j])|];
  }

  /** Two stores side by side form a store. */
  lemma StoreConcat(a: seq<Node>, b: seq<Node>)
    requires IsStore(a) && IsStore(b)
    ensures IsStore(a + b)
  {
    forall i: nat | i < |a + b| ensures SegmentAt(a + b, i) {
      if i < |a| {
        SegmentExtend(a, b, i);
      } else {
        SegmentShift(a, b, i - |a|);
      }
    }
  }

  /** The pre-order flattening of a tree is a store. */
  lemma {:induction false} FlatIsStore(n: Node)
    ensures IsStore(Flat(n))
    decreases n, 1
  {
    FlatListIsStore(n.children);
    var s := Flat(n);
    forall i: nat | i < |s| ensures SegmentAt(s, i) {
      if i == 0 {
        assert s[0..|Flat(s[0])|] == s;
      } else {
        SegmentShift([n], FlatList(n.children), i - 1);
      }
    }
  }

  lemma {:induction false} FlatListIsStore(ns: seq<Node>)
    ensures IsStore(FlatList(ns))
    decreases ns, 0
  {
    if |ns| > 0 {
      FlatIsStore(ns[0]);
      FlatListIsStore(ns[1..]);
      StoreConcat(Flat(ns[0]), FlatList(ns[1..]));
    }
  }

  /** Where each of the trees `ns` starts when their flattenings are laid out one after another from `start`. */
  function Offsets(ns: seq<Node>, start: nat): (r: seq<nat>)
    ensures |r| == |ns|
    ensures forall k :: 0 <= k < |r| ==> r[k] == start + |FlatList(ns[..k])|
  {
    if |ns| == 0 then []
    else
      var init := ns[..|ns| - 1];
      var r := Offsets(init, start) + [start + |FlatList(init)|];
      assert forall k :: 0 <= k < |init| ==> init[..k] == ns[..k];
      r
  }

  /** The store positions of the children of the node at position `id`, in child order. */
  function ChildIds(s: seq<Node>, id: nat): (r: seq<nat>)
    requires IsStore(s) && id < |s|
    ensures |r| == |s[id].children|
    ensures forall k :: 0 <= k < |r| ==> id < r[k] < |s| && s[r[k]] == s[id].children[k]
  {
    var cs := s[id].children;
    var r := Offsets(cs, id + 1);
    assert forall k :: 0 <= k < |r| ==> id < r[k] < |s| && s[r[k]] == cs[k] by {
      forall k | 0 <= k < |r| ensures id < r[k] < |s| && s[r[k]] == cs[k] {
        assert SegmentAt(s, id);
        FlatListAt(cs, k);
        var off := |FlatList(cs[..k])|;
        assert Flat(s[id])[1 + off] == FlatList(cs)[off] == Flat(cs[k])[0];
        assert s[id + 1 + off] == s[id..id + |Flat(s[id])|][1 + off];
      }
    }
    r
  }

  /** The next child's position follows the previous child's whole subtree. */
  lemma ChildIdsStep(s: seq<Node>, id: nat, k: nat)
    requires IsStore(s) && id < |s| && k + 1 < |s[id].children|
    ensures ChildIds(s, id)[k + 1] == ChildIds(s, id)[k] + Size(s[id].children[k])
  {
    FlatListSnoc(s[id].children, k);
  }

  /** A child's position: right after its parent and the subtrees of the children before it. */
  lemma ChildIdsAt(s: seq<Node>, id: nat, k: nat)
    requires IsStore(s) && id < |s| && k < |s[id].children|
    ensures ChildIds(s, id)[k] == id + 1 + |FlatList(s[id].children[..k])|
  {
  }

  lemma ChildIdsFirst(s: seq<Node>, id: nat)
    requires IsStore(s) && id < |s| && 0 < |s[id].children|
    ensures ChildIds(s, id)[0] == id + 1
  {
    assert s[id].children[..0] == [];
  }

  /** The nodes of a list that satisfy `p`, in order (a list comprehension with an `if`). */
  function Filter(ns: seq<Node>, p: Node -> bool): (r: seq<Node>)
    ensures |r| <= |ns|
  {
    if |ns| == 0 then [] else (if p(ns[0]) then [ns[0]] else []) + Filter(ns[1..], p)
  }

  /** `Filter` keeps exactly the members that satisfy the predicate. */
  lemma {:induction false} FilterMembers(ns: seq<Node>, p: Node -> bool)
    ensures forall x :: x in Filter(ns, p) <==> x in ns && p(x)
    decreases |ns|
  {
    if |ns| > 0 {
      FilterMembers(ns[1..], p);
      assert ns == [ns[0]] + ns[1..];
    }
  }

  lemma {:induction false} FilterConcat(a: seq<Node>, b: seq<Node>, p: Node -> bool)
    ensures Filter(a + b, p) == Filter(a, p) + Filter(b, p)
    decreases |a|
  {
    if |a| == 0 {
      assert a + b == b;
    } else {
      var head := if p(a[0]) then [a[0]] else [];
      assert (a + b)[0] == a[0] && (a + b)[1..] == a[1..] + b;
      FilterConcat(a[1..], b, p);
      assert Filter(a + b, p) == head + (Filter(a[1..], p) + Filter(b, p));
      assert (head + Filter(a[1..], p)) + Filter(b, p) == head + (Filter(a[1..], p) + Filter(b, p));
    }
  }

  /** Filtering the pre-order walk before any child has been visited. */
  lemma PreorderFilterStart(node: Node, p: Node -> bool)
    ensures Filter([node] + FlatList(node.children[..0]), p) == if p(node) then [node] else []
  {
    assert [node] + FlatList(node.children[..0]) == [node];
    assert [node][1..] == [];
  }

  /** Filtering the pre-order walk up to one child more. */
  lemma PreorderFilterStep(node: Node, k: nat, p: Node -> bool)
    requires k < |node.children|
    ensures Filter([node] + FlatList(node.children[..k + 1]), p)
         == Filter([node] + FlatList(node.children[..k]), p) + Filter(Flat(node.children[k]), p)
  {
    var cs := node.children;
    FlatListSnoc(cs, k);
    assert [node] + FlatList(cs[..k + 1]) == ([node] + FlatList(cs[..k])) + Flat(cs[k]);
    FilterConcat([node] + FlatList(cs[..k]), Flat(cs[k]), p);
  }

  /** An accumulator that holds the filtered walk up to child `k` and then gets child `k`'s filtered walk holds the walk up to child `k + 1`. */
  lemma PreorderFilterNext(node: Node, k: nat, p: Node -> bool, base: seq<Node>, before: seq<Node>, after: seq<Node>)
    requires k < |node.children|
    requires before == base + Filter([node] + FlatList(node.children[..k]), p)
    requires after == before + Filter(Flat(node.children[k]), p)
    ensures after == base + Filter([node] + FlatList(node.children[..k + 1]), p)
  {
    PreorderFilterStep(node, k, p);
    var prefix := Filter([node] + FlatList(node.children[..k]), p);
    var sub := Filter(Flat(node.children[k]), p);
    assert (base + prefix) + sub == base + (prefix + sub);
  }

  /** Hierarchy, class and geometry agree node for node; only text, id, flags and annotations may differ. */
  predicate SameLayout(a: Node, b: Node)
    decreases a
  {
    a.cls == b.cls && a.bounds == b.bounds && a.geom == b.geom &&
    a.package == b.package && a.index == b.index &&
    |a.children| == |b.children| &&
    forall k :: 0 <= k < |a.children| ==> SameLayout(a.children[k], b.children[k])
  }

  /** Trees with the same layout have the same number of nodes. */
  lemma {:induction false} SameLayoutSize(a: Node, b: Node)
    requires SameLayout(a, b)
    ensures Size(a) == Size(b)
    decreases a, 1
  {
    SameLayoutSizeList(a.children, b.children);
  }

  lemma {:induction false} SameLayoutSizeList(xs: seq<Node>, bs: seq<Node>)
    requires |xs| == |bs| && forall k :: 0 <= k < |xs| ==> SameLayout(xs[k], bs[k])
    ensures |FlatList(xs)| == |FlatList(bs)|
    decreases xs, 0
  {
    if |xs| > 0 {
      SameLayoutSize(xs[0], bs[0]);
      SameLayoutSizeList(xs[1..], bs[1..]);
    }
  }

  /** Every tree has its own layout. */
  lemma {:induction false} SameLayoutRefl(n: Node)
    ensures SameLayout(n, n)
    decreases n
  {
    forall k | 0 <= k < |n.children| ensures SameLayout(n.children[k], n.children[k]) {
      SameLayoutRefl(n.children[k]);
    }
  }

  /** Where the subtree at position `id` of a store ends. */
  function SubtreeEnd(s: seq<Node>, id: nat): (e: nat)
    requires IsStore(s) && id < |s|
    ensures e == id + Size(s[id]) && e <= |s|
  {
    assert SegmentAt(s, id);
    id + Size(s[id])
  }

  /** Within a store, the node `p` places after `id` is the node at pre-order position `p` of `id`'s tree. */
  lemma SubtreeAt(s: seq<Node>, id: nat, p: nat)
    requires IsStore(s) && id < |s| && p < Size(s[id])
    ensures id + p < |s| && s[id + p] == Flat(s[id])[p]
  {
    assert SegmentAt(s, id);
    assert s[id..id + Size(s[id])][p] == s[id + p];
  }

  /**
   * Child `k` of the node at `id` starts where the flattenings of the
   * children before it end, and its subtree ends, inside that of `id`, where
   * the flattenings up to and including it end.
   */
  lemma ChildSpan(s: seq<Node>, id: nat, k: nat)
    requires IsStore(s) && id < |s| && k < |s[id].children|
    ensures ChildIds(s, id)[k] == id + 1 + |FlatList(s[id].children[..k])|
    ensures SubtreeEnd(s, ChildIds(s, id)[k]) == id + 1 + |FlatList(s[id].children[..k + 1])| <= SubtreeEnd(s, id)
  {
    var kids := s[id].children;
    ChildIdsAt(s, id, k);
    FlatListSnoc(kids, k);
    FlatListAt(kids, k);
  }
}
