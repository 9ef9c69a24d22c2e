/**
 * The node-to-node comparison of the hybrid parser (`HybridUIParser` in
 * car2.py): the id suffix both trees are matched on, the class-name families,
 * the weighted match score, and the copying of an attribute node's text, id
 * and state flags into a geometry node. Scores are exact rationals.
 */
module Scoring {
  import opened Wrappers
  import opened Text
  import opened UiNode

  /**
   * `_extract_id_suffix`: nothing for an empty id; the text after the last
   * `:id/` when there is one; otherwise the text after the last `/` when there
   * is one; otherwise the whole id. The substring tests are written as
   * searches (`IndexOfFindsContained` equates the two).
   */
  function ExtractIdSuffix(fullId: string): Option<string> {
    if fullId == "" then None
    else if IndexOf(fullId, ":id/").Some? then Some(SplitLast(fullId, ":id/"))
    else if IndexOf(fullId, "/").Some? then Some(SplitLast(fullId, "/"))
    else Some(fullId)
  }

  /** The four cases of `_extract_id_suffix`, each stated by what the suffix is rather than how it is cut. */
  lemma ExtractIdSuffixCases(fullId: string)
    ensures ExtractIdSuffix(fullId).None? <==> fullId == ""
    ensures Contains(fullId, ":id/") ==>
      var r := ExtractIdSuffix(fullId).value;
      EndsWith(fullId, r) && !Contains(r, ":id/") &&
      |r| + 4 <= |fullId| && OccursAt(fullId, ":id/", |fullId| - |r| - 4)
    ensures !Contains(fullId, ":id/") && Contains(fullId, "/") ==>
      var r := ExtractIdSuffix(fullId).value;
      EndsWith(fullId, r) && !Contains(r, "/") &&
      |r| + 1 <= |fullId| && OccursAt(fullId, "/", |fullId| - |r| - 1)
    ensures fullId != "" && !Contains(fullId, ":id/") && !Contains(fullId, "/") ==> ExtractIdSuffix(fullId) == Some(fullId)
  {
    IndexOfFindsContained(fullId, ":id/");
    IndexOfFindsContained(fullId, "/");
    if fullId != "" {
      SplitLastSpec(fullId, ":id/");
      SplitLastSpec(fullId, "/");
    }
  }

  /** The key a node is indexed and looked up under: its id suffix, when the id and the suffix are both non-empty. */
  function IndexKey(n: Node): (r: Option<string>)
    ensures r.Some? ==> n.resourceId != "" && r.value != "" && ExtractIdSuffix(n.resourceId) == r
    ensures r.None? ==> ExtractIdSuffix(n.resourceId) in {None, Some("")}
  {
    var suffix := ExtractIdSuffix(n.resourceId);
    if suffix.Some? && suffix.value != "" then suffix else None
  }

  /** The five class-name families of `_similar_class_names`, in its order. */
  const TypeGroups: seq<seq<string>> := [
    ["TextView", "EditText", "TextInputEditText", "AppCompatTextView"],
    ["Button", "ImageButton", "AppCompatButton", "MaterialButton"],
    ["ImageView", "AppCompatImageView", "ImageButton"],
    ["LinearLayout", "RelativeLayout", "FrameLayout", "ConstraintLayout"],
    ["RecyclerView", "ListView", "ScrollView", "ViewPager"]]

  /** Some name of the family occurs in the class name (`any(c in class1 for c in class_list)`). */
  predicate InGroup(c: string, group: seq<string>) {
    exists i :: 0 <= i < |group| && Contains(c, group[i])
  }

  /** `_similar_class_names`: equal names, or names that both mention a member of one family. */
  predicate SimilarClassNames(class1: string, class2: string) {
    class1 == class2 || SharedGroup(class1, class2, 0)
  }

  /** The loop over the families from the `g`-th on: some family is mentioned by both names. */
  predicate SharedGroup(class1: string, class2: string, g: nat)
    decreases |TypeGroups| - g
  {
    g < |TypeGroups| &&
    ((InGroup(class1, TypeGroups[g]) && InGroup(class2, TypeGroups[g])) || SharedGroup(class1, class2, g + 1))
  }

  /** The family loop finds a family exactly when there is one from the `g`-th on that both names mention. */
  lemma {:induction false} SharedGroupExists(class1: string, class2: string, g: nat)
    ensures SharedGroup(class1, class2, g) <==>
      exists h :: g <= h < |TypeGroups| && InGroup(class1, TypeGroups[h]) && InGroup(class2, TypeGroups[h])
    decreases |TypeGroups| - g
  {
    if g < |TypeGroups| {
      SharedGroupExists(class1, class2, g + 1);
    }
  }

  /** Similarity is symmetric. */
  lemma SimilarSymmetric(class1: string, class2: string)
    ensures SimilarClassNames(class1, class2) == SimilarClassNames(class2, class1)
  {
    SharedGroupExists(class1, class2, 0);
    SharedGroupExists(class2, class1, 0);
    if SharedGroup(class1, class2, 0) {
      var h :| 0 <= h < |TypeGroups| && InGroup(class1, TypeGroups[h]) && InGroup(class2, TypeGroups[h]);
      assert InGroup(class2, TypeGroups[h]) && InGroup(class1, TypeGroups[h]);
    }
    if SharedGroup(class2, class1, 0) {
      var h :| 0 <= h < |TypeGroups| && InGroup(class2, TypeGroups[h]) && InGroup(class1, TypeGroups[h]);
      assert InGroup(class1, TypeGroups[h]) && InGroup(class2, TypeGroups[h]);
    }
  }

  /** A name mentions itself. */
  lemma ContainsSelf(s: string)
    ensures Contains(s, s)
  {
    assert OccursAt(s, s, 0) by { assert s[0..|s|] == s; }
  }

  /** `ImageButton` belongs to both the button and the image family, so it is similar to plain buttons and to image views. */
  lemma ImageButtonBridges()
    ensures SimilarClassNames("ImageButton", "Button") && SimilarClassNames("ImageButton", "ImageView")
  {
    ContainsSelf("Button");
    ContainsSelf("ImageButton");
    ContainsSelf("ImageView");
    assert OccursAt("ImageButton", "Button", 5) by { assert "ImageButton"[5..11] == "Button"; }
    var buttons, images := TypeGroups[1], TypeGroups[2];
    assert buttons[0] == "Button" && buttons[1] == "ImageButton";
    assert images[0] == "ImageView" && images[2] == "ImageButton";
    assert InGroup("ImageButton", buttons) && InGroup("Button", buttons);
    assert InGroup("ImageButton", images) && InGroup("ImageView", images);
    SharedGroupExists("ImageButton", "Button", 0);
    SharedGroupExists("ImageButton", "ImageView", 0);
  }

  /** The four flags whose agreement `_calculate_match_score` counts. */
  const ScoreFlags: seq<string> := ["clickable", "focusable", "enabled", "scrollable"]

  /** The number of the given flags on which the two nodes agree, `node.get(attr)` against `node.get(attr)` (absent equals absent). */
  function AgreeCount(vh: Node, ui: Node, flags: seq<string>): (r: nat)
    ensures r <= |flags|
  {
    if |flags| == 0 then 0
    else AgreeCount(vh, ui, flags[..|flags| - 1]) + (if FlagGet(vh, flags[|flags| - 1]) == FlagGet(ui, flags[|flags| - 1]) then 1 else 0)
  }

  /** Python's `class.split('.')[-1]`: the simple class name. */
  function SimpleName(cls: string): string {
    SplitLast(cls, ".")
  }

  /** The class term: 0.3 for equal simple names, 0.2 for similar ones, 0 otherwise. */
  function ClassTerm(vh: Node, ui: Node): real {
    var a, b := SimpleName(vh.cls), SimpleName(ui.cls);
    if a == b then 0.3 else if SimilarClassNames(a, b) then 0.2 else 0.0
  }

  /** The child-count term: 0.15 for equal counts, 0.15 times min over max when both are non-zero, 0 otherwise. */
  function ChildTerm(a: nat, b: nat): real {
    if a == b then 0.15
    else if a > 0 && b > 0 then 0.15 * ((if a < b then a else b) as real / (if a < b then b else a) as real)
    else 0.0
  }

  /**
   * `_calculate_match_score`, as an exact rational: 0.4 for a shared id,
   * the class term, the child-count term, and 0.15 times the fraction of the
   * four score flags on which the nodes agree.
   */
  function MatchScore(vh: Node, ui: Node, hasSameId: bool): real {
    (if hasSameId then 0.4 else 0.0) + ClassTerm(vh, ui) + ChildTerm(|vh.children|, |ui.children|) +
    0.15 * (AgreeCount(vh, ui, ScoreFlags) as real / 4.0)
  }

  /** A fraction with a positive numerator no larger than its denominator lies in (0, 1]. */
  lemma Fraction(a: nat, b: nat)
    requires 0 < a <= b
    ensures 0.0 < a as real / b as real <= 1.0
  {
    assert a as real / b as real * b as real == a as real;
  }

  /** The child-count term is 0.15 exactly for equal counts, 0.15·min/max when both counts are non-zero, and always within [0, 0.15]. */
  lemma ChildTermBounds(a: nat, b: nat)
    ensures 0.0 <= ChildTerm(a, b) <= 0.15
    ensures a == b ==> ChildTerm(a, b) == 0.15
    ensures a != b && (a == 0 || b == 0) ==> ChildTerm(a, b) == 0.0
    ensures a != b && a > 0 && b > 0 ==> 0.0 < ChildTerm(a, b) < 0.15
  {
    if a != b && a > 0 && b > 0 {
      var lo, hi := if a < b then a else b, if a < b then b else a;
      Fraction(lo, hi);
      assert lo as real / hi as real < 1.0 by {
        assert lo as real / hi as real * hi as real == lo as real;
      }
    }
  }

  /** The flag term is 0.15 times the agreeing fraction of the four flags: one of 0, 0.0375, 0.075, 0.1125, 0.15. */
  lemma FlagTermBounds(vh: Node, ui: Node)
    ensures 0.0 <= 0.15 * (AgreeCount(vh, ui, ScoreFlags) as real / 4.0) <= 0.15
  {
  }

  /** Every score lies in [0, 1]; without the id bonus it is at most 0.6, with it at least 0.4. */
  lemma {:induction false} MatchScoreBounds(vh: Node, ui: Node, hasSameId: bool)
    ensures 0.0 <= MatchScore(vh, ui, hasSameId) <= 1.0
    ensures !hasSameId ==> MatchScore(vh, ui, hasSameId) <= 0.6
    ensures hasSameId ==> 0.4 <= MatchScore(vh, ui, hasSameId)
  {
    ChildTermBounds(|vh.children|, |ui.children|);
    FlagTermBounds(vh, ui);
  }

  /** A shared id alone clears the 0.5 threshold once the class term or the child term contributes at least 0.1. */
  lemma SameIdMeetsThreshold(vh: Node, ui: Node)
    requires ClassTerm(vh, ui) > 0.0 || |vh.children| == |ui.children|
    ensures MatchScore(vh, ui, true) >= 0.5
  {
    ChildTermBounds(|vh.children|, |ui.children|);
    FlagTermBounds(vh, ui);
  }

  /**
   * The loop of `_calculate_match_score`: the id, class and child terms, then
   * the agreeing flags counted one by one, added as 0.15 times their fraction.
   */
  method CalculateMatchScore(vh: Node, ui: Node, hasSameId: bool) returns (score: real)
    ensures score == MatchScore(vh, ui, hasSameId)
  {
    score := 0.0;
    if hasSameId {
      score := score + 0.4;
    }
    var vhClass := SimpleName(vh.cls);
    var uiClass := SimpleName(ui.cls);
    if vhClass == uiClass {
      score := score + 0.3;
    } else if SimilarClassNames(vhClass, uiClass) {
      score := score + 0.2;
    }
    assert score == (if hasSameId then 0.4 else 0.0) + ClassTerm(vh, ui);
    var vhChildCount := |vh.children|;
    var uiChildCount := |ui.children|;
    if vhChildCount == uiChildCount {
      score := score + 0.15;
    } else if vhChildCount > 0 && uiChildCount > 0 {
      var lo := if vhChildCount < uiChildCount then vhChildCount else uiChildCount;
      var hi := if vhChildCount < uiChildCount then uiChildCount else vhChildCount;
      var similarity := lo as real / hi as real;
      score := score + 0.15 * similarity;
    }
    assert score == (if hasSameId then 0.4 else 0.0) + ClassTerm(vh, ui) + ChildTerm(|vh.children|, |ui.children|);
    var attrScore := 0;
    var attrCount := 0;
    for i := 0 to |ScoreFlags|
      invariant attrScore == AgreeCount(vh, ui, ScoreFlags[..i]) && attrCount == i
    {
      assert ScoreFlags[..i + 1][..i] == ScoreFlags[..i];
      if FlagGet(vh, ScoreFlags[i]) == FlagGet(ui, ScoreFlags[i]) {
        attrScore := attrScore + 1;
      }
      attrCount := attrCount + 1;
    }
    assert ScoreFlags[..|ScoreFlags|] == ScoreFlags;
    assert attrScore as real / attrCount as real == AgreeCount(vh, ui, ScoreFlags) as real / 4.0;
    if attrCount > 0 {
      score := score + 0.15 * (attrScore as real / attrCount as real);
    }
  }

  /** The flags of a geometry node after the given attribute-node flags have been copied over, each only if present. */
  function CopyFlags(mine: map<string, string>, theirs: map<string, string>, keys: seq<string>): map<string, string> {
    if |keys| == 0 then mine
    else
      var before := CopyFlags(mine, theirs, keys[..|keys| - 1]);
      var k := keys[|keys| - 1];
      if k in theirs then before[k := theirs[k]] else before
  }

  /** A copied flag takes the attribute node's value; every other flag keeps the geometry node's. */
  lemma {:induction false} CopyFlagsGet(mine: map<string, string>, theirs: map<string, string>, keys: seq<string>, k: string)
    ensures k in CopyFlags(mine, theirs, keys) <==> k in mine || (k in keys && k in theirs)
    ensures k in keys && k in theirs ==> CopyFlags(mine, theirs, keys)[k] == theirs[k]
    ensures k !in keys || k !in theirs ==> k in mine ==> CopyFlags(mine, theirs, keys)[k] == mine[k]
    decreases |keys|
  {
    if |keys| > 0 {
      var init := keys[..|keys| - 1];
      CopyFlagsGet(mine, theirs, init, k);
      assert k in keys <==> k in init || k == keys[|keys| - 1] by {
        assert keys == init + [keys[|keys| - 1]];
      }
    }
  }

  /**
   * The geometry node after `_supplement_text_info` with the attribute node
   * `ui`: the text copied, the content-desc and its source from the attribute
   * node's content-desc or else its text, the id only when the geometry node
   * has none, the nine state flags that the attribute node has, and both merge
   * annotations set.
   */
  function Supplemented(vh: Node, ui: Node): Node {
    var desc := if ui.contentDesc != "" then ui.contentDesc else if ui.text != "" then ui.text else vh.contentDesc;
    var source := if ui.contentDesc != "" then Some("content-desc") else if ui.text != "" then Some("text") else vh.textSource;
    vh.(contentDesc := desc, textSource := source, text := ui.text,
        resourceId := if ui.resourceId != "" && vh.resourceId == "" then ui.resourceId else vh.resourceId,
        flags := CopyFlags(vh.flags, ui.flags, StateFlags),
        infoSupplemented := true, textMatched := Some(true))
  }

  /** What `_supplement_text_info` changes, field by field, and that it changes nothing else. */
  lemma SupplementedFields(vh: Node, ui: Node)
    ensures var r := Supplemented(vh, ui);
      (ui.contentDesc != "" ==> r.contentDesc == ui.contentDesc && r.textSource == Some("content-desc")) &&
      (ui.contentDesc == "" && ui.text != "" ==> r.contentDesc == ui.text && r.textSource == Some("text")) &&
      (ui.contentDesc == "" && ui.text == "" ==> r.contentDesc == vh.contentDesc && r.textSource == vh.textSource) &&
      r.text == ui.text &&
      (vh.resourceId == "" && ui.resourceId != "" ==> r.resourceId == ui.resourceId) &&
      (vh.resourceId != "" || ui.resourceId == "" ==> r.resourceId == vh.resourceId) &&
      r.infoSupplemented && r.textMatched == Some(true) &&
      r.cls == vh.cls && r.bounds == vh.bounds && r.package == vh.package && r.index == vh.index &&
      r.geom == vh.geom && r.children == vh.children
    ensures forall k ::
      FlagGet(Supplemented(vh, ui), k) == (if k in StateFlags && k in ui.flags then FlagGet(ui, k) else FlagGet(vh, k))
  {
    forall k
      ensures FlagGet(Supplemented(vh, ui), k) == (if k in StateFlags && k in ui.flags then FlagGet(ui, k) else FlagGet(vh, k))
    {
      CopyFlagsGet(vh.flags, ui.flags, StateFlags, k);
    }
  }

  /** `_supplement_text_info`, with its loop over the nine state flags. */
  method SupplementTextInfo(vh: Node, ui: Node) returns (r: Node)
    ensures r == Supplemented(vh, ui)
  {
    r := vh;
    if ui.contentDesc != "" {
      r := r.(contentDesc := ui.contentDesc, textSource := Some("content-desc"));
    } else if ui.text != "" {
      r := r.(contentDesc := ui.text, textSource := Some("text"));
    }
    r := r.(text := ui.text);
    if ui.resourceId != "" && r.resourceId == "" {
      r := r.(resourceId := ui.resourceId);
    }
    var flags := r.flags;
    for i := 0 to |StateFlags|
      invariant flags == CopyFlags(vh.flags, ui.flags, StateFlags[..i])
    {
      var attr := StateFlags[i];
      assert StateFlags[..i + 1][..i] == StateFlags[..i];
      if attr in ui.flags {
        flags := flags[attr := ui.flags[attr]];
      }
    }
    assert StateFlags[..|StateFlags|] == StateFlags;
    r := r.(flags := flags);
    r := r.(infoSupplemented := true, textMatched := Some(true));
  }
}
