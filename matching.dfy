/**
 * What the hybrid parser (`HybridUIParser`) computes, as functions over the
 * accessibility node store and the view tree: the content anchor, the id
 * index, the candidates of both matching strategies and the choice among
 * them, and the recursive merge with its counters and marks.
 *
 * The accessibility trees the parser has read live in a pre-order node store
 * (`UiNode.IsStore`): a node is named by its position there, so the id index,
 * the "used" marks and the search context are all store positions. The view
 * hierarchy tree is a plain value; updating one of its subtrees in place is
 * `ReplaceAt`.
 */
module Matching {
  import opened Wrappers
  import opened Text
  import opened UiNode
  import opened Scoring


  // ---------------------------------------------------------------- content anchor

  /** The test of `_find_content_node`: a non-empty id that mentions `content`. */
  predicate IsContent(n: Node) {
    n.resourceId != "" && (Contains(n.resourceId, "content") || EndsWith(n.resourceId, ":id/content"))
  }

  /** The second half of the test adds nothing: an id ending in `:id/content` mentions `content`. */
  lemma ContentTest(n: Node)
    ensures IsContent(n) <==> n.resourceId != "" && Contains(n.resourceId, "content")
  {
    var id := n.resourceId;
    if EndsWith(id, ":id/content") {
      assert OccursAt(id, "content", |id| - 7) by {
        assert id[|id| - 7..|id|] == id[|id| - 11..][4..];
      }
    }
  }

  /**
   * `_find_content_node`: the pre-order position, within `n`'s tree, of the
   * first node passing `IsContent`, or `None` when there is none.
   */
  function FindContentNode(n: Node): Option<nat>
    decreases n, 1
  {
    if IsContent(n) then Some(0)
    else match FindContentIn(n.children)
      case None => None
      case Some(p) => Some(1 + p)
  }

  /** The same search over a list of siblings, positions counted across their flattenings. */
  function FindContentIn(ns: seq<Node>): Option<nat>
    decreases ns, 0
  {
    if |ns| == 0 then None
    else match FindContentNode(ns[0])
      case Some(p) => Some(p)
      case None =>
        match FindContentIn(ns[1..])
        case None => None
        case Some(p) => Some(Size(ns[0]) + p)
  }

  /** No node before position `p` of `s` passes `IsContent`. */
  predicate NoContentBefore(s: seq<Node>, p: nat) {
    forall q :: 0 <= q < p && q < |s| ==> !IsContent(s[q])
  }

  /** The search finds the first content node of the pre-order, and reports none only when there is none. */
  lemma {:induction false} FindContentFirst(n: Node)
    ensures var r := FindContentNode(n);
      (r.Some? ==> r.value < Size(n) && IsContent(Flat(n)[r.value]) && NoContentBefore(Flat(n), r.value)) &&
      (r.None? ==> NoContentBefore(Flat(n), Size(n)))
    decreases n, 1
  {
    FindContentFirstIn(n.children);
    var s := Flat(n);
    var t := FlatList(n.children);
    if !IsContent(n) {
      forall q | 1 <= q < |s| ensures s[q] == t[q - 1] { }
    }
  }

  lemma {:induction false} FindContentFirstIn(ns: seq<Node>)
    ensures var r := FindContentIn(ns); var t := FlatList(ns);
      (r.Some? ==> r.value < |t| && IsContent(t[r.value]) && NoContentBefore(t, r.value)) &&
      (r.None? ==> NoContentBefore(t, |t|))
    decreases ns, 0
  {
    if |ns| > 0 {
      FindContentFirst(ns[0]);
      FindContentFirstIn(ns[1..]);
      var a := Flat(ns[0]);
      var b := FlatList(ns[1..]);
      var t := FlatList(ns);
      assert t == a + b;
      forall q | 0 <= q < |a| ensures t[q] == a[q] { }
      forall q | |a| <= q < |t| ensures t[q] == b[q - |a|] { }
    }
  }

  /** Where `merge_trees` starts in one tree: its content node, or the root when there is none. */
  function ContentOffset(n: Node): (p: nat)
    ensures p < Size(n)
    ensures FindContentNode(n).Some? ==> p == FindContentNode(n).value
    ensures FindContentNode(n).None? ==> p == 0
  {
    FindContentFirst(n);
    match FindContentNode(n)
    case Some(p) => p
    case None => 0
  }

  // ---------------------------------------------------------------- in-place update of a subtree

  /** `n` with the subtree at pre-order position `p` replaced by `r`. */
  function ReplaceAt(n: Node, p: nat, r: Node): Node
    decreases n, 1
  {
    if p == 0 then r else n.(children := ReplaceIn(n.children, p - 1, r))
  }

  function ReplaceIn(ns: seq<Node>, p: nat, r: Node): seq<Node>
    decreases ns, 0
  {
    if |ns| == 0 then []
    else if p < Size(ns[0]) then [ReplaceAt(ns[0], p, r)] + ns[1..]
    else [ns[0]] + ReplaceIn(ns[1..], p - Size(ns[0]), r)
  }

  /**
   * Replacing a subtree by one of the same layout keeps the layout of the
   * whole tree, and the replacement is found at the position it replaced.
   */
  lemma {:induction false} ReplaceAtLayout(n: Node, p: nat, r: Node)
    requires p < Size(n) && SameLayout(r, Flat(n)[p])
    ensures SameLayout(ReplaceAt(n, p, r), n)
    ensures Size(ReplaceAt(n, p, r)) == Size(n)
    ensures Flat(ReplaceAt(n, p, r))[p] == r
    decreases n, 1
  {
    if p == 0 {
      SameLayoutSize(r, n);
    } else {
      var cs := n.children;
      assert Flat(n)[p] == FlatList(cs)[p - 1];
      ReplaceInLayout(cs, p - 1, r);
      var m := ReplaceAt(n, p, r);
      assert Flat(m) == [m] + FlatList(ReplaceIn(cs, p - 1, r));
    }
  }

  lemma {:induction false} ReplaceInLayout(ns: seq<Node>, p: nat, r: Node)
    requires p < |FlatList(ns)| && SameLayout(r, FlatList(ns)[p])
    ensures |ReplaceIn(ns, p, r)| == |ns|
    ensures forall k :: 0 <= k < |ns| ==> SameLayout(ReplaceIn(ns, p, r)[k], ns[k])
    ensures |FlatList(ReplaceIn(ns, p, r))| == |FlatList(ns)|
    ensures FlatList(ReplaceIn(ns, p, r))[p] == r
    decreases ns, 0
  {
    var a := ns[0];
    var m := ReplaceIn(ns, p, r);
    assert FlatList(ns) == Flat(a) + FlatList(ns[1..]);
    forall k | 1 <= k < |ns| ensures SameLayout(ns[k], ns[k]) {
      SameLayoutRefl(ns[k]);
    }
    if p < Size(a) {
      assert FlatList(ns)[p] == Flat(a)[p];
      ReplaceAtLayout(a, p, r);
      assert m[1..] == ns[1..];
      assert FlatList(m) == Flat(m[0]) + FlatList(ns[1..]);
    } else {
      assert FlatList(ns)[p] == FlatList(ns[1..])[p - Size(a)];
      ReplaceInLayout(ns[1..], p - Size(a), r);
      SameLayoutRefl(a);
      assert m[1..] == ReplaceIn(ns[1..], p - Size(a), r);
      assert FlatList(m) == Flat(a) + FlatList(m[1..]);
    }
  }

  // ---------------------------------------------------------------- the id index

  /**
   * The shape of `ui_node_map`: every listed position is a node of the store
   * whose own id suffix is the key it is listed under.
   */
  predicate IndexOk(s: seq<Node>, index: map<string, seq<nat>>) {
    forall key, i :: key in index && 0 <= i < |index[key]| ==> index[key][i] < |s| && IndexKey(s[index[key][i]]) == Some(key)
  }

  /** The positions listed under `key`, none when the key is absent. */
  function Lookup(index: map<string, seq<nat>>, key: string): seq<nat> {
    if key in index then index[key] else []
  }

  /** One visit of `_build_ui_index`: the node at `p` is appended under its id suffix, if it has one. */
  function AddToIndex(index: map<string, seq<nat>>, s: seq<Node>, p: nat): map<string, seq<nat>>
    requires p < |s|
  {
    match IndexKey(s[p])
    case None => index
    case Some(key) => index[key := Lookup(index, key) + [p]]
  }

  /** `index` after visiting the positions `lo .. hi - 1` in order. */
  function IndexRange(index: map<string, seq<nat>>, s: seq<Node>, lo: nat, hi: nat): map<string, seq<nat>>
    requires lo <= hi <= |s|
    decreases hi - lo
  {
    if lo == hi then index else AddToIndex(IndexRange(index, s, lo, hi - 1), s, hi - 1)
  }

  /** The positions in `lo .. hi - 1` whose id suffix is `key`, ascending. */
  function Keyed(s: seq<Node>, lo: nat, hi: nat, key: string): seq<nat>
    requires lo <= hi <= |s|
    decreases hi - lo
  {
    if lo == hi then [] else Keyed(s, lo, hi - 1, key) + (if IndexKey(s[hi - 1]) == Some(key) then [hi - 1] else [])
  }

  /** `Keyed` lists exactly the positions of the range that carry the key, in increasing order. */
  lemma KeyedSpec(s: seq<Node>, lo: nat, hi: nat, key: string)
    requires lo <= hi <= |s|
    ensures forall i :: 0 <= i < |Keyed(s, lo, hi, key)| ==> lo <= Keyed(s, lo, hi, key)[i] < hi
    ensures forall i, j :: 0 <= i < j < |Keyed(s, lo, hi, key)| ==> Keyed(s, lo, hi, key)[i] < Keyed(s, lo, hi, key)[j]
    ensures forall p: nat :: p in Keyed(s, lo, hi, key) <==> lo <= p < hi && IndexKey(s[p]) == Some(key)
  {
    KeyedOrdered(s, lo, hi, key);
    forall p: nat ensures p in Keyed(s, lo, hi, key) <==> lo <= p < hi && IndexKey(s[p]) == Some(key) {
      KeyedHas(s, lo, hi, key, p);
    }
  }

  lemma {:induction false} KeyedOrdered(s: seq<Node>, lo: nat, hi: nat, key: string)
    requires lo <= hi <= |s|
    ensures forall i :: 0 <= i < |Keyed(s, lo, hi, key)| ==> lo <= Keyed(s, lo, hi, key)[i] < hi
    ensures forall i, j :: 0 <= i < j < |Keyed(s, lo, hi, key)| ==> Keyed(s, lo, hi, key)[i] < Keyed(s, lo, hi, key)[j]
    decreases hi - lo
  {
    if lo < hi {
      var init := Keyed(s, lo, hi - 1, key);
      KeyedOrdered(s, lo, hi - 1, key);
      var k := Keyed(s, lo, hi, key);
      assert forall i :: 0 <= i < |init| ==> k[i] == init[i];
      assert |k| > |init| ==> |k| == |init| + 1 && k[|init|] == hi - 1;
    }
  }

  lemma {:induction false} KeyedHas(s: seq<Node>, lo: nat, hi: nat, key: string, p: nat)
    requires lo <= hi <= |s|
    ensures p in Keyed(s, lo, hi, key) <==> lo <= p < hi && IndexKey(s[p]) == Some(key)
    decreases hi - lo
  {
    if lo < hi {
      var before := Keyed(s, lo, hi - 1, key);
      KeyedHas(s, lo, hi - 1, key, p);
      if IndexKey(s[hi - 1]) == Some(key) {
        assert Keyed(s, lo, hi, key) == before + [hi - 1];
      } else {
        assert Keyed(s, lo, hi, key) == before + [];
      }
    }
  }

  /** Visiting a range appends, under each key, the positions of the range that carry it. */
  lemma {:induction false} IndexRangeLookup(index: map<string, seq<nat>>, s: seq<Node>, lo: nat, hi: nat, key: string)
    requires lo <= hi <= |s|
    ensures Lookup(IndexRange(index, s, lo, hi), key) == Lookup(index, key) + Keyed(s, lo, hi, key)
    decreases hi - lo
  {
    if lo < hi {
      var prior, before := Lookup(index, key), Keyed(s, lo, hi - 1, key);
      var mid := IndexRange(index, s, lo, hi - 1);
      IndexRangeLookup(index, s, lo, hi - 1, key);
      assert Lookup(mid, key) == prior + before;
      if IndexKey(s[hi - 1]) == Some(key) {
        assert Lookup(IndexRange(index, s, lo, hi), key) == (prior + before) + [hi - 1];
        assert Keyed(s, lo, hi, key) == before + [hi - 1];
        assert (prior + before) + [hi - 1] == prior + (before + [hi - 1]);
      } else {
        assert Lookup(IndexRange(index, s, lo, hi), key) == Lookup(mid, key);
        assert Keyed(s, lo, hi, key) == before + [];
      }
    }
  }

  /** After visiting a range, the keys are the old ones and those some position of the range carries. */
  lemma {:induction false} IndexRangeKeys(index: map<string, seq<nat>>, s: seq<Node>, lo: nat, hi: nat, key: string)
    requires lo <= hi <= |s|
    ensures key in IndexRange(index, s, lo, hi) <==> key in index || |Keyed(s, lo, hi, key)| > 0
    decreases hi - lo
  {
    if lo < hi {
      IndexRangeKeys(index, s, lo, hi - 1, key);
    }
  }

  /** Visiting two adjacent ranges one after the other is visiting their union. */
  lemma {:induction false} IndexRangeSplit(index: map<string, seq<nat>>, s: seq<Node>, lo: nat, mid: nat, hi: nat)
    requires lo <= mid <= hi <= |s|
    ensures IndexRange(IndexRange(index, s, lo, mid), s, mid, hi) == IndexRange(index, s, lo, hi)
    decreases hi - mid
  {
    if mid < hi {
      IndexRangeSplit(index, s, lo, mid, hi - 1);
    }
  }

  /** Visiting child `k` of the node at `id` right after the nodes before it extends the visit over that child's subtree. */
  lemma IndexChildStep(index: map<string, seq<nat>>, s: seq<Node>, id: nat, k: nat)
    requires IsStore(s) && id < |s| && k < |s[id].children|
    ensures var c := ChildIds(s, id)[k]; var kids := s[id].children;
      c == id + 1 + |FlatList(kids[..k])| &&
      SubtreeEnd(s, c) == id + 1 + |FlatList(kids[..k + 1])| <= SubtreeEnd(s, id) &&
      IndexRange(IndexRange(index, s, id + 1, c), s, c, SubtreeEnd(s, c)) == IndexRange(index, s, id + 1, SubtreeEnd(s, c))
  {
    ChildSpan(s, id, k);
    IndexRangeSplit(index, s, id + 1, ChildIds(s, id)[k], SubtreeEnd(s, ChildIds(s, id)[k]));
  }

  /** Visiting keeps the index well formed. */
  lemma {:induction false} IndexRangeOk(index: map<string, seq<nat>>, s: seq<Node>, lo: nat, hi: nat)
    requires lo <= hi <= |s| && IndexOk(s, index)
    ensures IndexOk(s, IndexRange(index, s, lo, hi))
    decreases hi - lo
  {
    if lo < hi {
      IndexRangeOk(index, s, lo, hi - 1);
    }
  }

  // ---------------------------------------------------------------- candidates

  /** A candidate of `_find_best_match`: a store position and its score. */
  datatype Candidate = Candidate(id: nat, score: real)

  /** Strategy 1 over the positions `ids`: every one not yet used, scored as sharing the id. */
  function Available(s: seq<Node>, used: set<nat>, vh: Node, ids: seq<nat>): seq<Candidate>
    requires forall i :: 0 <= i < |ids| ==> ids[i] < |s|
    decreases |ids|
  {
    if |ids| == 0 then []
    else
      var id := ids[|ids| - 1];
      Available(s, used, vh, ids[..|ids| - 1]) +
      (if id !in used then [Candidate(id, MatchScore(vh, s[id], true))] else [])
  }

  /** Strategy 1: the unused nodes listed under `vh`'s own id suffix. */
  function IdCandidates(s: seq<Node>, index: map<string, seq<nat>>, used: set<nat>, vh: Node): seq<Candidate>
    requires IndexOk(s, index)
  {
    match IndexKey(vh)
    case None => []
    case Some(key) => if key in index then Available(s, used, vh, index[key]) else []
  }

  /** The search depth of `_search_in_subtree` below the context node. */
  const MaxDepth: nat := 2

  /** What is left of the search depth at `depth`, the measure the subtree search decreases. */
  function DepthLeft(depth: nat): nat {
    if depth <= MaxDepth then MaxDepth + 1 - depth else 0
  }

  /**
   * Strategy 2, `_search_in_subtree`: at most `MaxDepth` levels below `root`,
   * in pre-order, every unused node whose score without the id bonus is positive.
   */
  function SubtreeCandidates(s: seq<Node>, used: set<nat>, vh: Node, root: nat, depth: nat): seq<Candidate>
    requires IsStore(s) && root < |s|
    decreases DepthLeft(depth), 0
  {
    if depth > MaxDepth then []
    else
      var here := if root !in used && MatchScore(vh, s[root], false) > 0.0 then [Candidate(root, MatchScore(vh, s[root], false))] else [];
      here + SubtreeList(s, used, vh, ChildIds(s, root), depth + 1)
  }

  function SubtreeList(s: seq<Node>, used: set<nat>, vh: Node, ids: seq<nat>, depth: nat): seq<Candidate>
    requires IsStore(s) && forall i :: 0 <= i < |ids| ==> ids[i] < |s|
    decreases DepthLeft(depth), 1, |ids|
  {
    if |ids| == 0 then []
    else SubtreeList(s, used, vh, ids[..|ids| - 1], depth) + SubtreeCandidates(s, used, vh, ids[|ids| - 1], depth)
  }

  /** One level of strategy 2: the node itself when it qualifies, then its children one level down. */
  lemma SubtreeUnfold(s: seq<Node>, used: set<nat>, vh: Node, root: nat, depth: nat, own: seq<Candidate>)
    requires IsStore(s) && root < |s| && depth <= MaxDepth
    requires own == if root !in used && MatchScore(vh, s[root], false) > 0.0 then [Candidate(root, MatchScore(vh, s[root], false))] else []
    ensures SubtreeCandidates(s, used, vh, root, depth) == own + SubtreeList(s, used, vh, ChildIds(s, root), depth + 1)
  {
  }

  /** Below `MaxDepth` levels strategy 2 finds nothing. */
  lemma SubtreeStop(s: seq<Node>, used: set<nat>, vh: Node, root: nat, depth: nat)
    requires IsStore(s) && root < |s| && depth > MaxDepth
    ensures SubtreeCandidates(s, used, vh, root, depth) == []
  {
  }

  /** Strategy 2 over one more sibling appends that sibling's candidates to those gathered before. */
  lemma SubtreeListSnoc(s: seq<Node>, used: set<nat>, vh: Node, ids: seq<nat>, k: nat, depth: nat, acc: seq<Candidate>)
    requires IsStore(s) && k < |ids| && forall i :: 0 <= i < |ids| ==> ids[i] < |s|
    ensures acc + SubtreeList(s, used, vh, ids[..k + 1], depth) == (acc + SubtreeList(s, used, vh, ids[..k], depth)) + SubtreeCandidates(s, used, vh, ids[k], depth)
  {
    assert ids[..k + 1][..k] == ids[..k];
    var done, next := SubtreeList(s, used, vh, ids[..k], depth), SubtreeCandidates(s, used, vh, ids[k], depth);
    assert (acc + done) + next == acc + (done + next);
  }

  /** `x` is `root` or lies at most `d` levels below it. */
  predicate Below(s: seq<Node>, root: nat, x: nat, d: nat)
    requires IsStore(s) && root < |s|
    decreases d
  {
    x == root || (d > 0 && exists k :: 0 <= k < |ChildIds(s, root)| && Below(s, ChildIds(s, root)[k], x, d - 1))
  }

  /** Every candidate, strategy 1 first and then strategy 2 from the context node. */
  function Candidates(s: seq<Node>, index: map<string, seq<nat>>, used: set<nat>, vh: Node, ctx: nat): seq<Candidate>
    requires IsStore(s) && IndexOk(s, index) && ctx < |s|
  {
    IdCandidates(s, index, used, vh) + SubtreeCandidates(s, used, vh, ctx, 0)
  }

  /** Strategy 1 over a list keeps exactly its unused positions, each scored as sharing the id. */
  lemma {:induction false} AvailableExact(s: seq<Node>, used: set<nat>, vh: Node, ids: seq<nat>)
    requires forall i :: 0 <= i < |ids| ==> ids[i] < |s|
    ensures forall c :: c in Available(s, used, vh, ids) <==>
      c.id in ids && c.id < |s| && c.id !in used && c.score == MatchScore(vh, s[c.id], true)
    decreases |ids|
  {
    if |ids| > 0 {
      var init := ids[..|ids| - 1];
      AvailableExact(s, used, vh, init);
      assert ids == init + [ids[|ids| - 1]];
    }
  }

  /**
   * Strategy 1 proposes exactly the unused nodes listed under `vh`'s id
   * suffix, each scored with the id bonus; each of them has that suffix too.
   */
  lemma IdCandidatesExact(s: seq<Node>, index: map<string, seq<nat>>, used: set<nat>, vh: Node)
    requires IndexOk(s, index)
    ensures forall c :: c in IdCandidates(s, index, used, vh) <==>
      IndexKey(vh).Some? && c.id in Lookup(index, IndexKey(vh).value) && c.id < |s| && c.id !in used &&
      c.score == MatchScore(vh, s[c.id], true)
    ensures forall c :: c in IdCandidates(s, index, used, vh) ==> c.id < |s| && IndexKey(s[c.id]) == IndexKey(vh)
  {
    if IndexKey(vh).Some? && IndexKey(vh).value in index {
      var ids := index[IndexKey(vh).value];
      AvailableExact(s, used, vh, ids);
    }
  }

  /** A candidate of a list of subtrees is a candidate of one of its members: the one at `k`. */
  lemma {:induction false} SubtreeListWhich(s: seq<Node>, used: set<nat>, vh: Node, ids: seq<nat>, depth: nat, c: Candidate) returns (k: nat)
    requires IsStore(s) && forall i :: 0 <= i < |ids| ==> ids[i] < |s|
    requires c in SubtreeList(s, used, vh, ids, depth)
    ensures k < |ids| && c in SubtreeCandidates(s, used, vh, ids[k], depth)
    decreases |ids|
  {
    var init := ids[..|ids| - 1];
    if c in SubtreeList(s, used, vh, init, depth) {
      k := SubtreeListWhich(s, used, vh, init, depth, c);
      assert ids[k] == init[k];
    } else {
      k := |ids| - 1;
    }
  }

  /** Every candidate of a member of a list of subtrees is a candidate of the list. */
  lemma {:induction false} SubtreeListIn(s: seq<Node>, used: set<nat>, vh: Node, ids: seq<nat>, depth: nat, c: Candidate, k: nat)
    requires IsStore(s) && forall i :: 0 <= i < |ids| ==> ids[i] < |s|
    requires k < |ids| && c in SubtreeCandidates(s, used, vh, ids[k], depth)
    ensures c in SubtreeList(s, used, vh, ids, depth)
    decreases |ids|
  {
    var init := ids[..|ids| - 1];
    if k < |init| {
      assert init[k] == ids[k];
      SubtreeListIn(s, used, vh, init, depth, c, k);
    }
  }

  /** Strategy 2 proposes exactly what `FoundBelow` describes. */
  lemma SubtreeExact(s: seq<Node>, used: set<nat>, vh: Node, root: nat, depth: nat)
    requires IsStore(s) && root < |s|
    ensures forall c :: c in SubtreeCandidates(s, used, vh, root, depth) <==> FoundBelow(s, used, vh, root, depth, c)
  {
    forall c ensures c in SubtreeCandidates(s, used, vh, root, depth) <==> FoundBelow(s, used, vh, root, depth, c) {
      if c in SubtreeCandidates(s, used, vh, root, depth) {
        SubtreeSound(s, used, vh, root, depth, c);
      }
      if FoundBelow(s, used, vh, root, depth, c) {
        SubtreeComplete(s, used, vh, root, depth, c);
      }
    }
  }

  lemma {:induction false} SubtreeSound(s: seq<Node>, used: set<nat>, vh: Node, root: nat, depth: nat, c: Candidate)
    requires IsStore(s) && root < |s|
    requires c in SubtreeCandidates(s, used, vh, root, depth)
    ensures FoundBelow(s, used, vh, root, depth, c)
    decreases DepthLeft(depth), 1
  {
    var own := if root !in used && MatchScore(vh, s[root], false) > 0.0 then [Candidate(root, MatchScore(vh, s[root], false))] else [];
    SubtreeUnfold(s, used, vh, root, depth, own);
    if c !in own {
      SubtreeSoundBelow(s, used, vh, root, depth, c);
    }
  }

  /** The children's part of `SubtreeSound`. */
  lemma {:induction false} SubtreeSoundBelow(s: seq<Node>, used: set<nat>, vh: Node, root: nat, depth: nat, c: Candidate)
    requires IsStore(s) && root < |s| && depth <= MaxDepth
    requires c in SubtreeList(s, used, vh, ChildIds(s, root), depth + 1)
    ensures FoundBelow(s, used, vh, root, depth, c)
    decreases DepthLeft(depth), 0
  {
    var cs := ChildIds(s, root);
    var k := SubtreeListWhich(s, used, vh, cs, depth + 1, c);
    SubtreeSound(s, used, vh, cs[k], depth + 1, c);
    BelowChild(s, root, k, c.id, MaxDepth - depth - 1);
  }

  lemma {:induction false} SubtreeComplete(s: seq<Node>, used: set<nat>, vh: Node, root: nat, depth: nat, c: Candidate)
    requires IsStore(s) && root < |s|
    requires FoundBelow(s, used, vh, root, depth, c)
    ensures c in SubtreeCandidates(s, used, vh, root, depth)
    decreases DepthLeft(depth)
  {
    if c.id != root {
      var cs := ChildIds(s, root);
      var k := BelowWhich(s, root, c.id, MaxDepth - depth);
      SubtreeComplete(s, used, vh, cs[k], depth + 1, c);
      SubtreeListIn(s, used, vh, cs, depth + 1, c, k);
    }
  }

  /** A node below the child at `k` is below its parent, one level further. */
  lemma BelowChild(s: seq<Node>, root: nat, k: nat, x: nat, d: nat)
    requires IsStore(s) && root < |s| && k < |ChildIds(s, root)|
    requires Below(s, ChildIds(s, root)[k], x, d)
    ensures Below(s, root, x, d + 1)
  {
  }

  /** A node below `root` other than `root` itself is below one of its children: the one at `k`. */
  lemma BelowWhich(s: seq<Node>, root: nat, x: nat, d: nat) returns (k: nat)
    requires IsStore(s) && root < |s| && x != root && Below(s, root, x, d)
    ensures d > 0 && k < |ChildIds(s, root)| && Below(s, ChildIds(s, root)[k], x, d - 1)
  {
    k :| 0 <= k < |ChildIds(s, root)| && Below(s, ChildIds(s, root)[k], x, d - 1);
  }

  /**
   * What strategy 2 started at `root` on level `depth` looks for: an unused
   * node at most `MaxDepth - depth` levels below `root` whose score without
   * the id bonus is positive.
   */
  predicate FoundBelow(s: seq<Node>, used: set<nat>, vh: Node, root: nat, depth: nat, c: Candidate)
    requires IsStore(s) && root < |s|
  {
    depth <= MaxDepth && c.id < |s| && Below(s, root, c.id, MaxDepth - depth) && c.id !in used &&
    c.score == MatchScore(vh, s[c.id], false) && c.score > 0.0
  }

  /** `k` is where a stable sort by descending score puts its first element: a maximum, and the first one. */
  predicate IsFirstMax(cs: seq<Candidate>, k: nat) {
    k < |cs| &&
    (forall j :: 0 <= j < |cs| ==> cs[j].score <= cs[k].score) &&
    (forall j :: 0 <= j < k ==> cs[j].score < cs[k].score)
  }

  /** The candidate `candidates.sort(key=score, reverse=True)` puts first. */
  function FirstMax(cs: seq<Candidate>): (k: nat)
    requires |cs| > 0
    ensures IsFirstMax(cs, k)
  {
    if |cs| == 1 then 0
    else
      var k := FirstMax(cs[..|cs| - 1]);
      if cs[|cs| - 1].score > cs[k].score then |cs| - 1 else k
  }

  /** The score from which a candidate is accepted. */
  const Threshold: real := 0.5

  /** What `_find_best_match` takes from a list of candidates: the first best one, if its score reaches the threshold. */
  function Pick(cs: seq<Candidate>): Option<nat> {
    if |cs| == 0 then None
    else
      var k := FirstMax(cs);
      if cs[k].score >= Threshold then Some(cs[k].id) else None
  }

  /** The choice of `_find_best_match`. */
  function BestMatch(s: seq<Node>, index: map<string, seq<nat>>, used: set<nat>, vh: Node, ctx: nat): Option<nat>
    requires IsStore(s) && IndexOk(s, index) && ctx < |s|
  {
    Pick(Candidates(s, index, used, vh, ctx))
  }

  /**
   * A match is an unused store node that is the first best candidate and
   * reaches the threshold; there is no match exactly when every candidate
   * scores below the threshold.
   */
  lemma BestMatchSpec(s: seq<Node>, index: map<string, seq<nat>>, used: set<nat>, vh: Node, ctx: nat)
    requires IsStore(s) && IndexOk(s, index) && ctx < |s|
    ensures var b := BestMatch(s, index, used, vh, ctx); var cs := Candidates(s, index, used, vh, ctx);
      (b.Some? ==> (b.value < |s| && b.value !in used &&
        exists k: nat :: IsFirstMax(cs, k) && cs[k].id == b.value && cs[k].score >= Threshold)) &&
      (b.None? <==> forall j :: 0 <= j < |cs| ==> cs[j].score < Threshold)
  {
    var cs := Candidates(s, index, used, vh, ctx);
    IdCandidatesExact(s, index, used, vh);
    SubtreeExact(s, used, vh, ctx, 0);
    if |cs| > 0 {
      var k := FirstMax(cs);
      assert cs[k] in cs;
    }
  }

  /** A match is an unused node of the store. */
  lemma BestMatchUnused(s: seq<Node>, index: map<string, seq<nat>>, used: set<nat>, vh: Node, ctx: nat)
    requires IsStore(s) && IndexOk(s, index) && ctx < |s|
    ensures BestMatch(s, index, used, vh, ctx).Some? ==>
      BestMatch(s, index, used, vh, ctx).value < |s| && BestMatch(s, index, used, vh, ctx).value !in used
  {
    BestMatchSpec(s, index, used, vh, ctx);
  }

  /**
   * Strategy 2 never proposes a node with the id bonus, so a match found
   * by it alone scores at most 0.6; a match needs at least 0.5.
   */
  lemma SubtreeScoreBound(s: seq<Node>, used: set<nat>, vh: Node, root: nat, c: Candidate)
    requires IsStore(s) && root < |s| && c in SubtreeCandidates(s, used, vh, root, 0)
    ensures 0.0 < c.score <= 0.6
  {
    SubtreeExact(s, used, vh, root, 0);
    MatchScoreBounds(vh, s[c.id], false);
  }

  // ---------------------------------------------------------------- merging

  /** What `_match_and_merge` updates besides the tree: the used marks and the two counters. */
  datatype Tally = Tally(used: set<nat>, matched: nat, unmatched: nat)

  /** A matching rule: from the used marks, a view node and a context, the store node chosen, if any. */
  type Chooser = (set<nat>, Node, nat) -> Option<nat>

  /** A rule that only ever chooses an unused node of the store. */
  ghost predicate ChooserOk(s: seq<Node>, choose: Chooser) {
    forall used, vh, ctx :: choose(used, vh, ctx).Some? ==>
      choose(used, vh, ctx).value < |s| && choose(used, vh, ctx).value !in used
  }

  /** The rule of `_find_best_match` over the store `s` and the id index. */
  function BestMatchRule(s: seq<Node>, index: map<string, seq<nat>>): Chooser {
    (used: set<nat>, vh: Node, ctx: nat) =>
      if IsStore(s) && IndexOk(s, index) && ctx < |s| then BestMatch(s, index, used, vh, ctx) else None
  }

  /** `_find_best_match` only chooses unused nodes of the store. */
  lemma BestMatchRuleOk(s: seq<Node>, index: map<string, seq<nat>>)
    requires IsStore(s) && IndexOk(s, index)
    ensures ChooserOk(s, BestMatchRule(s, index))
  {
    forall used: set<nat>, vh: Node, ctx: nat | ctx < |s| {
      BestMatchUnused(s, index, used, vh, ctx);
    }
  }

  /**
   * `rule` chooses as `_find_best_match` does over the store `s` and the id
   * index, and only ever an unused node of the store. (The equations are
   * brought in by `BestMatch` terms only, so that a caller holding just the
   * rule does not have to unfold the matching itself.)
   */
  ghost predicate Agrees(s: seq<Node>, index: map<string, seq<nat>>, rule: Chooser) {
    IsStore(s) && IndexOk(s, index) && ChooserOk(s, rule) &&
    forall used: set<nat>, vh: Node, ctx: nat {:trigger BestMatch(s, index, used, vh, ctx)} :: ctx < |s| ==>
      rule(used, vh, ctx) == BestMatch(s, index, used, vh, ctx)
  }

  /** There is a rule that agrees with `_find_best_match`: `BestMatchRule`. */
  lemma MatchRule(s: seq<Node>, index: map<string, seq<nat>>) returns (rule: Chooser)
    requires IsStore(s) && IndexOk(s, index)
    ensures Agrees(s, index, rule)
  {
    rule := BestMatchRule(s, index);
    BestMatchRuleOk(s, index);
  }

  /**
   * `_match_and_merge` on the view node `vh` with context `ctx`: the tallies
   * afterwards and the updated tree of `vh`. A matched node takes over the
   * match's text and flags and its children are matched inside the match;
   * an unmatched node is flagged so and its children keep the old context.
   */
  function Merge(s: seq<Node>, choose: Chooser, t: Tally, vh: Node, ctx: nat): (Tally, Node)
    requires ChooserOk(s, choose)
    decreases vh, 1
  {
    match choose(t.used, vh, ctx)
    case Some(b) =>
      var kids := MergeList(s, choose, Tally(t.used + {b}, t.matched + 1, t.unmatched), vh.children, b);
      (kids.0, Supplemented(vh, s[b]).(children := kids.1))
    case None =>
      var kids := MergeList(s, choose, t.(unmatched := t.unmatched + 1), vh.children, ctx);
      (kids.0, vh.(textMatched := Some(false), children := kids.1))
  }

  /** `Merge` over a list of siblings in order, each seeing the tallies the previous ones left. */
  function MergeList(s: seq<Node>, choose: Chooser, t: Tally, vhs: seq<Node>, ctx: nat): (Tally, seq<Node>)
    requires ChooserOk(s, choose)
    decreases vhs, 0
  {
    if |vhs| == 0 then (t, [])
    else
      var init := MergeList(s, choose, t, vhs[..|vhs| - 1], ctx);
      var last := Merge(s, choose, init.0, vhs[|vhs| - 1], ctx);
      (last.0, init.1 + [last.1])
  }

  /** Any two rules that agree with `BestMatch` merge alike: the merge does not depend on which one is taken. */
  lemma MergeAgreeing(s: seq<Node>, index: map<string, seq<nat>>, r1: Chooser, r2: Chooser, t: Tally, vh: Node, ctx: nat)
    requires Agrees(s, index, r1) && Agrees(s, index, r2) && ctx < |s|
    ensures Merge(s, r1, t, vh, ctx) == Merge(s, r2, t, vh, ctx)
  {
    forall used: set<nat>, v: Node, c: nat | c < |s| ensures r1(used, v, c) == r2(used, v, c) {
      assert r1(used, v, c) == BestMatch(s, index, used, v, c);
    }
    MergeSameRule(s, r1, r2, t, vh, ctx);
  }

  /** Two rules that choose alike in every context of the store merge alike. */
  lemma {:induction false} MergeSameRule(s: seq<Node>, r1: Chooser, r2: Chooser, t: Tally, vh: Node, ctx: nat)
    requires ChooserOk(s, r1) && ChooserOk(s, r2) && ctx < |s|
    requires forall used: set<nat>, v: Node, c: nat :: c < |s| ==> r1(used, v, c) == r2(used, v, c)
    ensures Merge(s, r1, t, vh, ctx) == Merge(s, r2, t, vh, ctx)
    decreases vh, 1
  {
    var b := r1(t.used, vh, ctx);
    assert r2(t.used, vh, ctx) == b;
    var next := if b.Some? then b.value else ctx;
    var t' := if b.Some? then Tally(t.used + {b.value}, t.matched + 1, t.unmatched) else t.(unmatched := t.unmatched + 1);
    MergeListSameRule(s, r1, r2, t', vh.children, next);
  }

  lemma {:induction false} MergeListSameRule(s: seq<Node>, r1: Chooser, r2: Chooser, t: Tally, vhs: seq<Node>, ctx: nat)
    requires ChooserOk(s, r1) && ChooserOk(s, r2) && ctx < |s|
    requires forall used: set<nat>, v: Node, c: nat :: c < |s| ==> r1(used, v, c) == r2(used, v, c)
    ensures MergeList(s, r1, t, vhs, ctx) == MergeList(s, r2, t, vhs, ctx)
    decreases vhs, 0
  {
    if |vhs| > 0 {
      var init := vhs[..|vhs| - 1];
      MergeListSameRule(s, r1, r2, t, init, ctx);
      MergeSameRule(s, r1, r2, MergeList(s, r1, t, init, ctx).0, vhs[|vhs| - 1], ctx);
    }
  }

  /**
   * Every node of the tree is counted once, as matched or as unmatched; only
   * marks are added, and one per match, so no node is matched twice.
   */
  lemma {:induction false} MergeCounts(s: seq<Node>, choose: Chooser, t: Tally, vh: Node, ctx: nat)
    requires ChooserOk(s, choose)
    ensures var r := Merge(s, choose, t, vh, ctx).0;
      r.matched + r.unmatched == t.matched + t.unmatched + Size(vh) &&
      t.matched <= r.matched && t.used <= r.used && |r.used| == |t.used| + (r.matched - t.matched)
    decreases vh, 1
  {
    match choose(t.used, vh, ctx)
    case Some(b) =>
      assert |t.used + {b}| == |t.used| + 1;
      assert Size(vh) == 1 + |FlatList(vh.children)|;
      MergeListCounts(s, choose, Tally(t.used + {b}, t.matched + 1, t.unmatched), vh.children, b);
    case None =>
      assert Size(vh) == 1 + |FlatList(vh.children)|;
      MergeListCounts(s, choose, t.(unmatched := t.unmatched + 1), vh.children, ctx);
  }

  lemma {:induction false} MergeListCounts(s: seq<Node>, choose: Chooser, t: Tally, vhs: seq<Node>, ctx: nat)
    requires ChooserOk(s, choose)
    ensures var r := MergeList(s, choose, t, vhs, ctx).0;
      r.matched + r.unmatched == t.matched + t.unmatched + |FlatList(vhs)| &&
      t.matched <= r.matched && t.used <= r.used && |r.used| == |t.used| + (r.matched - t.matched)
    decreases vhs, 0
  {
    if |vhs| > 0 {
      var n := |vhs| - 1;
      var init := MergeList(s, choose, t, vhs[..n], ctx);
      var last := Merge(s, choose, init.0, vhs[n], ctx);
      assert MergeList(s, choose, t, vhs, ctx).0 == last.0;
      MergeListCounts(s, choose, t, vhs[..n], ctx);
      MergeCounts(s, choose, init.0, vhs[n], ctx);
      FlatListSnoc(vhs, n);
      assert vhs[..n + 1] == vhs;
      assert |FlatList(vhs)| == |FlatList(vhs[..n])| + Size(vhs[n]);
    }
  }

  /** Merging changes no class, geometry or hierarchy: the result has the layout of the view tree. */
  lemma {:induction false} MergeLayout(s: seq<Node>, choose: Chooser, t: Tally, vh: Node, ctx: nat)
    requires ChooserOk(s, choose)
    ensures SameLayout(Merge(s, choose, t, vh, ctx).1, vh)
    decreases vh, 1
  {
    match choose(t.used, vh, ctx)
    case Some(b) =>
      SupplementedFields(vh, s[b]);
      MergeListLayout(s, choose, Tally(t.used + {b}, t.matched + 1, t.unmatched), vh.children, b);
    case None =>
      MergeListLayout(s, choose, t.(unmatched := t.unmatched + 1), vh.children, ctx);
  }

  lemma {:induction false} MergeListLayout(s: seq<Node>, choose: Chooser, t: Tally, vhs: seq<Node>, ctx: nat)
    requires ChooserOk(s, choose)
    ensures var r := MergeList(s, choose, t, vhs, ctx).1;
      |r| == |vhs| && forall k :: 0 <= k < |vhs| ==> SameLayout(r[k], vhs[k])
    decreases vhs, 0
  {
    if |vhs| > 0 {
      var n := |vhs| - 1;
      var init := MergeList(s, choose, t, vhs[..n], ctx);
      MergeListLayout(s, choose, t, vhs[..n], ctx);
      MergeLayout(s, choose, init.0, vhs[n], ctx);
    }
  }

  /** Every node of the tree carries the `text_matched` flag. */
  predicate Marked(n: Node)
    decreases n
  {
    n.textMatched.Some? && forall k :: 0 <= k < |n.children| ==> Marked(n.children[k])
  }

  /**
   * After merging every node is flagged; the root is flagged matched exactly
   * when a match was chosen, and then carries the match's text, otherwise it
   * keeps its own text, description, id and flags.
   */
  lemma {:induction false} MergeMarked(s: seq<Node>, choose: Chooser, t: Tally, vh: Node, ctx: nat)
    requires ChooserOk(s, choose)
    ensures Marked(Merge(s, choose, t, vh, ctx).1)
    ensures var m := Merge(s, choose, t, vh, ctx).1; var b := choose(t.used, vh, ctx);
      m.textMatched == Some(b.Some?) &&
      (b.Some? ==> b.value < |s| && m.text == s[b.value].text && m.infoSupplemented) &&
      (b.None? ==> (m.text == vh.text && m.contentDesc == vh.contentDesc && m.resourceId == vh.resourceId &&
        m.flags == vh.flags && m.infoSupplemented == vh.infoSupplemented))
    decreases vh, 1
  {
    match choose(t.used, vh, ctx)
    case Some(b) =>
      SupplementedFields(vh, s[b]);
      MergeListMarked(s, choose, Tally(t.used + {b}, t.matched + 1, t.unmatched), vh.children, b);
    case None =>
      MergeListMarked(s, choose, t.(unmatched := t.unmatched + 1), vh.children, ctx);
  }

  lemma {:induction false} MergeListMarked(s: seq<Node>, choose: Chooser, t: Tally, vhs: seq<Node>, ctx: nat)
    requires ChooserOk(s, choose)
    ensures var r := MergeList(s, choose, t, vhs, ctx).1;
      |r| == |vhs| && forall k :: 0 <= k < |r| ==> Marked(r[k])
    decreases vhs, 0
  {
    if |vhs| > 0 {
      var n := |vhs| - 1;
      var init := MergeList(s, choose, t, vhs[..n], ctx);
      MergeListMarked(s, choose, t, vhs[..n], ctx);
      MergeMarked(s, choose, init.0, vhs[n], ctx);
    }
  }

  /** Growing the store keeps an index well formed. */
  lemma IndexOkExtend(s: seq<Node>, more: seq<Node>, index: map<string, seq<nat>>)
    requires IndexOk(s, index)
    ensures IndexOk(s + more, index)
  {
    forall key, i | key in index && 0 <= i < |index[key]|
      ensures index[key][i] < |s + more| && IndexKey((s + more)[index[key][i]]) == Some(key)
    {
      assert (s + more)[index[key][i]] == s[index[key][i]];
    }
  }

  /** The share of matched nodes, as a percentage, lies between 0 and 100. */
  lemma RateBounds(matched: nat, total: nat)
    requires matched <= total && 0 < total
    ensures 0.0 <= matched as real / total as real * 100.0 <= 100.0
    ensures matched as real / total as real * 100.0 * total as real == 100.0 * matched as real
  {
    if matched > 0 {
      Fraction(matched, total);
    }
  }

  // ---------------------------------------------------------------- the candidate search

  /** Both strategies of `_find_best_match`, in order, from the context node `ctx`. */
  method GatherCandidates(s: seq<Node>, index: map<string, seq<nat>>, used: set<nat>, vh: Node, ctx: nat) returns (candidates: seq<Candidate>)
    requires IsStore(s) && IndexOk(s, index) && ctx < |s|
    ensures candidates == Candidates(s, index, used, vh, ctx)
  {
    candidates := CollectIdCandidates(s, index, used, vh);
    candidates := SearchInSubtree(s, used, vh, ctx, candidates, 0);
  }

  /** The end of `_find_best_match`: the stable sort by score and the threshold test on the first candidate. */
  method PickBest(candidates: seq<Candidate>) returns (best: Option<nat>)
    ensures best == Pick(candidates)
  {
    best := None;
    if |candidates| > 0 {
      var k := FirstMax(candidates);
      if candidates[k].score >= Threshold {
        best := Some(candidates[k].id);
      }
    }
  }

  /**
   * Strategy 1 of `_find_best_match`: every unused node listed under the id
   * suffix of `vh`, scored with the id bonus, in index order.
   */
  method CollectIdCandidates(s: seq<Node>, index: map<string, seq<nat>>, used: set<nat>, vh: Node) returns (candidates: seq<Candidate>)
    requires IndexOk(s, index)
    ensures candidates == IdCandidates(s, index, used, vh)
  {
    candidates := [];
    if vh.resourceId != "" {
      var idSuffix := ExtractIdSuffix(vh.resourceId);
      if idSuffix.Some? && idSuffix.value != "" && idSuffix.value in index {
        var ids := index[idSuffix.value];
        assert forall j :: 0 <= j < |ids| ==> ids[j] < |s|;
        for i := 0 to |ids|
          invariant candidates == Available(s, used, vh, ids[..i])
        {
          assert ids[..i + 1][..i] == ids[..i];
          if ids[i] !in used {
            var score := CalculateMatchScore(vh, s[ids[i]], true);
            candidates := candidates + [Candidate(ids[i], score)];
          }
        }
        assert ids[..|ids|] == ids;
      }
    }
  }

  /** The visit of one node in `_search_in_subtree`: an unused node with a positive score is a candidate. */
  method ScoreRoot(s: seq<Node>, used: set<nat>, vh: Node, root: nat) returns (own: seq<Candidate>)
    requires root < |s|
    ensures own == if root !in used && MatchScore(vh, s[root], false) > 0.0 then [Candidate(root, MatchScore(vh, s[root], false))] else []
  {
    own := [];
    if root !in used {
      var score := CalculateMatchScore(vh, s[root], false);
      if score > 0.0 {
        own := [Candidate(root, score)];
      }
    }
  }

  /**
   * `_search_in_subtree`: appends to `candidates` what strategy 2 finds
   * from `root` on level `depth`, given the store and the used marks.
   */
  method SearchInSubtree(s: seq<Node>, used: set<nat>, vh: Node, root: nat, candidates: seq<Candidate>, depth: nat) returns (out: seq<Candidate>)
    requires IsStore(s) && root < |s|
    ensures out == candidates + SubtreeCandidates(s, used, vh, root, depth)
    decreases DepthLeft(depth), 0
  {
    if depth > MaxDepth {
      SubtreeStop(s, used, vh, root, depth);
      out := candidates;
    } else {
      var own := ScoreRoot(s, used, vh, root);
      var cs := ChildIds(s, root);
      SubtreeUnfold(s, used, vh, root, depth, own);
      var below := SubtreeList(s, used, vh, cs, depth + 1);
      assert (candidates + own) + below == candidates + (own + below);
      out := SearchChildren(s, used, vh, cs, candidates + own, depth + 1);
    }
  }

  /** The loop of `_search_in_subtree` over the children at the positions `ids`, on level `depth`. */
  method SearchChildren(s: seq<Node>, used: set<nat>, vh: Node, ids: seq<nat>, candidates: seq<Candidate>, depth: nat) returns (out: seq<Candidate>)
    requires IsStore(s) && forall i :: 0 <= i < |ids| ==> ids[i] < |s|
    ensures out == candidates + SubtreeList(s, used, vh, ids, depth)
    decreases DepthLeft(depth), 1
  {
    out := candidates;
    for k := 0 to |ids|
      invariant out == candidates + SubtreeList(s, used, vh, ids[..k], depth)
    {
      SubtreeListSnoc(s, used, vh, ids, k, depth, candidates);
      out := SearchInSubtree(s, used, vh, ids[k], out, depth);
    }
    assert ids[..|ids|] == ids;
  }

}
