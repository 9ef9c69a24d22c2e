/**
 * The geometry-dump parser (`ViewHierarchyParser`): one line per widget,
 * nesting given by indentation, bounds relative to the parent. Lines are
 * scanned with hand-written matchers for the parser's four patterns; the
 * parse loop is a class method proved equal to a fold of `Step` over the
 * lines. Created nodes are kept in an arena and refer to their children by
 * arena position, which stands for the dict references the parser's node
 * stack holds.
 */
module ViewHierarchy {
  import opened Wrappers
  import opened Text
  import opened UiNode
  import UIParser

  /** Id substrings that drop a widget and its subtree. */
  const FilterIds: seq<string> := ["action_mode_bar_stub", "navigationBarBackground", "statusBarBackground"]

  /** Class names that drop a widget and its subtree. */
  const FilterClasses: seq<string> := ["android.view.IndicatorBar"]

  /** A bounds quadruple left, top, right, bottom. */
  datatype Bounds = Bounds(left: nat, top: nat, right: nat, bottom: nat)

  /** The regular-expression class `[a-zA-Z0-9.$_]`. */
  predicate IsClassChar(c: char) { IsWordChar(c) || c == '.' || c == '$' }

  /** `^([a-zA-Z0-9.$_]+)`: the class name at the start of the line. */
  function MatchClass(line: string): (r: Option<string>)
    ensures r.Some? <==> |line| > 0 && IsClassChar(line[0])
    ensures r.Some? ==> StartsWith(line, r.value) && (forall i :: 0 <= i < |r.value| ==> IsClassChar(r.value[i]))
    ensures r.Some? && |r.value| < |line| ==> !IsClassChar(line[|r.value|])
  {
    var n := Span(line, IsClassChar);
    if n == 0 then None else Some(line[..n])
  }

  /**
   * `(\d+),(\d+)-(\d+),(\d+)` anchored at the start of `t`: the quadruple and
   * the text after it. Each separator is a non-digit, so every greedy `\d+`
   * takes its whole digit run and backtracking cannot yield another match.
   */
  function MatchBounds(t: string): Option<(Bounds, string)> {
    var a := ReadNat(t);
    if a.None? then None else
    var c1 := Expect(a.value.1, ',');
    if c1.None? then None else
    var b := ReadNat(c1.value);
    if b.None? then None else
    var c2 := Expect(b.value.1, '-');
    if c2.None? then None else
    var c := ReadNat(c2.value);
    if c.None? then None else
    var c3 := Expect(c.value.1, ',');
    if c3.None? then None else
    var d := ReadNat(c3.value);
    if d.None? then None else
    Some((Bounds(a.value.0, b.value.0, c.value.0, d.value.0), d.value.1))
  }

  /** `(?:app|android):id/([a-zA-Z0-9_]+)` anchored at the start of `t`: the id name. */
  function MatchIdName(t: string): (r: Option<string>)
    ensures r.Some? ==> |r.value| > 0 && forall i :: 0 <= i < |r.value| ==> IsWordChar(r.value[i])
  {
    var name :=
      if StartsWith(t, "app:id/") then Some(t[7..])
      else if StartsWith(t, "android:id/") then Some(t[11..])
      else None;
    if name.None? then None else
    var w := Span(name.value, IsWordChar);
    if w == 0 then None else Some(name.value[..w])
  }

  /**
   * `#[a-f0-9]+ (?:app|android):id/([a-zA-Z0-9_]+)` anchored at the start of
   * `t`: the id name. The hex run must be followed by a space, which is not a
   * hex digit, so only the whole run can match.
   */
  function MatchResourceId(t: string): (r: Option<string>)
    ensures r.Some? ==> |r.value| > 0 && forall i :: 0 <= i < |r.value| ==> IsWordChar(r.value[i])
  {
    if |t| == 0 || t[0] != '#' then None else
    var h := Span(t[1..], IsLowerHex);
    if h == 0 then None else
    var t2 := t[1 + h..];
    if |t2| == 0 || t2[0] != ' ' then None else
    MatchIdName(t2[1..])
  }

  /**
   * `t` is `app:id/` or `android:id/`, the non-empty word run `name`, and
   * then `rest`, which does not go on with a word character.
   */
  predicate IdNameParts(t: string, prefix: string, name: string, rest: string) {
    (prefix == "app:id/" || prefix == "android:id/") &&
    |name| > 0 && (forall i :: 0 <= i < |name| ==> IsWordChar(name[i])) &&
    (rest == [] || !IsWordChar(rest[0])) &&
    t == prefix + (name + rest)
  }

  /** `t` is `#`, a non-empty lower-case hex run, a space, and then an id name as `IdNameParts` says. */
  predicate ResourceIdParts(t: string, hex: string, prefix: string, name: string, rest: string) {
    |hex| > 0 && (forall i :: 0 <= i < |hex| ==> IsLowerHex(hex[i])) &&
    |t| > 2 + |hex| && t[..2 + |hex|] == "#" + (hex + " ") &&
    IdNameParts(t[2 + |hex|..], prefix, name, rest)
  }

  lemma MatchIdNameOf(t: string, prefix: string, name: string, rest: string)
    requires IdNameParts(t, prefix, name, rest)
    ensures MatchIdName(t) == Some(name)
  {
    if prefix == "app:id/" {
      assert t[..7] == prefix && t[7..] == name + rest;
    } else {
      assert t[1] == 'n';
      assert t[..11] == prefix && t[11..] == name + rest;
    }
    SpanOf(name, rest, IsWordChar);
    assert (name + rest)[..|name|] == name;
  }

  lemma MatchIdNameParts(t: string) returns (prefix: string, rest: string)
    requires MatchIdName(t).Some?
    ensures IdNameParts(t, prefix, MatchIdName(t).value, rest)
  {
    prefix := if StartsWith(t, "app:id/") then "app:id/" else "android:id/";
    var nm := t[|prefix|..];
    assert t == prefix + nm;
    var w := Span(nm, IsWordChar);
    rest := nm[w..];
    assert nm == nm[..w] + rest;
    assert rest == [] || !IsWordChar(rest[0]) by {
      if rest != [] { assert rest[0] == nm[w]; }
    }
  }

  /** Text of that shape matches, and the captured id is the whole word run. */
  lemma MatchResourceIdOf(t: string, hex: string, prefix: string, name: string, rest: string)
    requires ResourceIdParts(t, hex, prefix, name, rest)
    ensures MatchResourceId(t) == Some(name)
  {
    var k := 2 + |hex|;
    var head := t[..k];
    assert t[0] == head[0] == '#' && t[1 + |hex|] == head[k - 1] == ' ';
    assert t[1..] == hex + t[1 + |hex|..] by {
      assert t[1..k - 1] == head[1..k - 1] == hex;
    }
    SpanOf(hex, t[1 + |hex|..], IsLowerHex);
    MatchIdNameOf(t[k..], prefix, name, rest);
    assert t[1 + |hex|..][1..] == t[k..];
  }

  /** Conversely, every match comes from text of that shape. */
  lemma MatchResourceIdParts(t: string) returns (hex: string, prefix: string, rest: string)
    requires MatchResourceId(t).Some?
    ensures ResourceIdParts(t, hex, prefix, MatchResourceId(t).value, rest)
  {
    var u := t[1..];
    var h := Span(u, IsLowerHex);
    hex := u[..h];
    assert forall i :: 0 <= i < |hex| ==> IsLowerHex(hex[i]) by {
      forall i | 0 <= i < |hex| ensures IsLowerHex(hex[i]) { assert hex[i] == u[i]; }
    }
    var t2 := t[1 + h..];
    assert t2[1..] == t[2 + h..];
    assert t[..2 + h] == "#" + (hex + " ") by {
      assert t[..2 + h] == [t[0]] + t[1..1 + h] + [t[1 + h]];
      assert t[1..1 + h] == hex;
    }
    prefix, rest := MatchIdNameParts(t[2 + h..]);
  }

  /** `\{([a-f0-9]+)` anchored at the start of `t`: the instance hash. */
  function MatchHash(t: string): Option<string> {
    if |t| == 0 || t[0] != '{' then None else
    var h := Span(t[1..], IsLowerHex);
    if h == 0 then None else Some(t[1..][..h])
  }

  /** What `_parse_line` extracts from one stripped line. */
  datatype LineInfo = LineInfo(
    cls: string,
    bounds: Bounds,
    resourceId: Option<string>,
    instanceHash: Option<string>,
    visible: bool,
    focusable: bool,
    enabled: bool,
    clickable: bool)

  /**
   * `_parse_line`: nothing unless the line starts with a class name and holds a
   * bounds quadruple somewhere; the quadruple taken is the leftmost one
   * (`ParseLineBounds`).
   */
  function ParseLine(line: string): Option<LineInfo>
  {
    var cls := MatchClass(line);
    if cls.None? then None else
    var bounds := Search(line, MatchBounds, 0);
    if bounds.None? then None else
    var c := cls.value;
    Some(LineInfo(
      cls := c,
      bounds := bounds.value.0,
      resourceId := Search(line, MatchResourceId, 0),
      instanceHash := Search(line, MatchHash, 0),
      visible := Contains(line, "V."),
      focusable := Contains(line, ".F"),
      enabled := Contains(line, ".E"),
      clickable := Contains(line, ".C") || Contains(c, "Button") || Contains(c, "TextView")))
  }

  /** What `_parse_line` requires of a line, and which quadruple it takes: the leftmost match. */
  lemma ParseLineBounds(line: string)
    ensures ParseLine(line).None? <==> MatchClass(line).None? || forall p :: 0 <= p <= |line| ==> MatchBounds(line[p..]).None?
    ensures ParseLine(line).Some? ==>
      exists p :: 0 <= p <= |line| && MatchBounds(line[p..]).Some? &&
        MatchBounds(line[p..]).value.0 == ParseLine(line).value.bounds &&
        (forall q :: 0 <= q < p ==> MatchBounds(line[q..]).None?)
  {
    SearchLeftmost(line, MatchBounds, 0);
  }

  /** The id `_parse_line` records is the leftmost id match, and it is non-empty. */
  lemma ParseLineResourceId(line: string)
    ensures ParseLine(line).Some? && ParseLine(line).value.resourceId.Some? ==>
      var rid := ParseLine(line).value.resourceId.value;
      |rid| > 0 &&
      exists p :: 0 <= p <= |line| && MatchResourceId(line[p..]) == Some(rid) &&
        (forall q :: 0 <= q < p ==> MatchResourceId(line[q..]).None?)
    ensures ParseLine(line).Some? && ParseLine(line).value.resourceId.None? ==>
      forall p :: 0 <= p <= |line| ==> MatchResourceId(line[p..]).None?
  {
    SearchLeftmost(line, MatchResourceId, 0);
  }

  /** `_should_filter`: a blocklisted id substring, a blocklisted class, or relative bounds of zero width and zero height. */
  predicate ShouldFilter(info: LineInfo) {
    (info.resourceId.Some? && info.resourceId.value != "" &&
      exists f :: f in FilterIds && Contains(info.resourceId.value, f)) ||
    (info.cls != "" && exists f :: f in FilterClasses && f == info.cls) ||
    (info.bounds.right as int - info.bounds.left as int == 0 && info.bounds.bottom as int - info.bounds.top as int == 0)
  }

  /**
   * `_calculate_absolute_bounds`: the child's relative bounds moved by the
   * parent's absolute origin, so width and height are kept.
   */
  function AbsoluteBounds(parent: Bounds, child: Bounds): (r: Bounds)
    ensures r.left == parent.left + child.left && r.top == parent.top + child.top
    ensures r.right as int - r.left as int == child.right as int - child.left as int
    ensures r.bottom as int - r.top as int == child.bottom as int - child.top as int
  {
    Bounds(parent.left + child.left, parent.top + child.top, parent.left + child.right, parent.top + child.bottom)
  }

  /** The `l,t-r,b` text the parser stores bounds as. */
  function FormatRelative(b: Bounds): string {
    NatToString(b.left) + ("," + (NatToString(b.top) + ("-" + (NatToString(b.right) + ("," + NatToString(b.bottom))))))
  }

  /** The `[l,t][r,b]` text a created node carries as its bounds. */
  function FormatBounds(b: Bounds): string {
    "[" + (NatToString(b.left) + ("," + (NatToString(b.top) + ("][" + (NatToString(b.right) + ("," + (NatToString(b.bottom) + "]")))))))
  }

  /**
   * Bounds written as `l,t-r,b` match the bounds pattern at the start again
   * and give back the same numbers, so the anchored matches in
   * `_calculate_absolute_bounds` and `_create_ui_node` always succeed.
   */
  lemma RelativeRoundTrip(b: Bounds)
    ensures MatchBounds(FormatRelative(b)) == Some((b, ""))
  {
    var s4 := NatToString(b.bottom);
    var s3 := NatToString(b.right) + ("," + s4);
    var s2 := NatToString(b.top) + ("-" + s3);
    var s1 := NatToString(b.left) + ("," + s2);
    ReadNatOfFormatted(b.left, "," + s2);
    assert ("," + s2)[1..] == s2;
    ReadNatOfFormatted(b.top, "-" + s3);
    assert ("-" + s3)[1..] == s3;
    ReadNatOfFormatted(b.right, "," + s4);
    assert ("," + s4)[1..] == s4;
    ReadNatOfFormatted(b.bottom, "");
    assert s4 + "" == s4;
  }

  /** The `[l,t][r,b]` text has exactly the four numbers as its digit runs. */
  lemma BracketDigitRuns(b: Bounds)
    ensures DigitRuns(FormatBounds(b)) == [NatToString(b.left), NatToString(b.top), NatToString(b.right), NatToString(b.bottom)]
  {
    var l, t, r, bt := NatToString(b.left), NatToString(b.top), NatToString(b.right), NatToString(b.bottom);
    var s6 := r + ("," + (bt + "]"));
    var s5 := "][" + s6;
    var s2 := l + ("," + (t + s5));
    calc {
      DigitRuns(FormatBounds(b));
      { DigitRunsSkip('[', s2); }
      DigitRuns(s2);
      { NatToStringDigits(b.left); DigitRunsOf(l, "," + (t + s5)); }
      [l] + DigitRuns("," + (t + s5));
      { DigitRunsSkip(',', t + s5); }
      [l] + DigitRuns(t + s5);
      { NatToStringDigits(b.top); DigitRunsOf(t, s5); }
      [l] + ([t] + DigitRuns(s5));
      { assert s5 == [']'] + ("[" + s6); DigitRunsSkip(']', "[" + s6); DigitRunsSkip('[', s6); }
      [l] + ([t] + DigitRuns(s6));
      { RunsTail(b.right, b.bottom); }
      [l] + ([t] + [r, bt]);
    }
  }

  lemma RunsTail(right: nat, bottom: nat)
    ensures DigitRuns(NatToString(right) + ("," + (NatToString(bottom) + "]"))) == [NatToString(right), NatToString(bottom)]
  {
    var r, bt := NatToString(right), NatToString(bottom);
    calc {
      DigitRuns(r + ("," + (bt + "]")));
      { NatToStringDigits(right); DigitRunsOf(r, "," + (bt + "]")); }
      [r] + DigitRuns("," + (bt + "]"));
      { DigitRunsSkip(',', bt + "]"); }
      [r] + DigitRuns(bt + "]");
      { NatToStringDigits(bottom); DigitRunsOf(bt, "]"); }
      [r] + ([bt] + DigitRuns("]"));
      { assert "]" == [']'] + ""; DigitRunsSkip(']', ""); }
      [r] + [bt];
    }
  }

  /**
   * The `[l,t][r,b]` text read back by the attribute parser's geometry rule
   * gives exactly the geometry of the bounds.
   */
  lemma BracketGeometry(b: Bounds)
    ensures UIParser.ParseBoundsGeometry(FormatBounds(b)) ==
      Some(Geometry(b.left, b.top, b.right, b.bottom, (b.left + b.right) / 2, (b.top + b.bottom) / 2,
                    b.right - b.left, b.bottom - b.top))
  {
    BracketDigitRuns(b);
    NatToStringDigits(b.left);
    NatToStringDigits(b.top);
    NatToStringDigits(b.right);
    NatToStringDigits(b.bottom);
  }

  /** The fields `parse` records for a kept widget: the line's fields, absolute bounds, parent bounds, indent, level and the line. */
  datatype ViewInfo = ViewInfo(
    info: LineInfo,
    absolute: Bounds,
    parentBounds: Option<Bounds>,
    indent: nat,
    level: nat,
    originalLine: string)

  /** Python's `str(b).lower()` for a boolean. */
  function BoolStr(b: bool): string { if b then "true" else "false" }

  /**
   * `_create_ui_node`: the node record of a kept widget, from its absolute
   * bounds (`CreatedBoundsRoundTrip` relates its bounds text to its geometry).
   */
  function CreateUiNode(vi: ViewInfo): (n: Node)
    ensures var a := vi.absolute;
      n.geom == Some(Geometry(a.left, a.top, a.right, a.bottom, (a.left + a.right) / 2, (a.top + a.bottom) / 2,
                              a.right - a.left, a.bottom - a.top))
    ensures n.resourceId == if vi.info.resourceId.Some? && vi.info.resourceId.value != "" then "app:id/" + vi.info.resourceId.value else ""
    ensures n.cls == vi.info.cls && n.text == "" && n.contentDesc == "" && n.children == []
  {
    var a := vi.absolute;
    // The source's special case for the id `content` writes the same text.
    var rid := if vi.info.resourceId.Some? && vi.info.resourceId.value != "" then "app:id/" + vi.info.resourceId.value else "";
    Node(
      cls := vi.info.cls,
      resourceId := rid,
      text := "",
      contentDesc := "",
      bounds := FormatBounds(a),
      package := "",
      index := "0",
      flags := map["clickable" := BoolStr(vi.info.clickable), "enabled" := BoolStr(vi.info.enabled),
                   "focusable" := BoolStr(vi.info.focusable), "scrollable" := "false"],
      geom := Some(Geometry(a.left, a.top, a.right, a.bottom, (a.left + a.right) / 2, (a.top + a.bottom) / 2,
                            a.right - a.left, a.bottom - a.top)),
      textSource := None,
      infoSupplemented := false,
      textMatched := None,
      children := [])
  }

  /**
   * The bounds text of a created node reads back, through the attribute
   * parser's four-digit-run rule, to exactly the geometry it stores.
   */
  lemma CreatedBoundsRoundTrip(vi: ViewInfo)
    ensures CreateUiNode(vi).geom == UIParser.ParseBoundsGeometry(CreateUiNode(vi).bounds)
  {
    var n := CreateUiNode(vi);
    assert n.bounds == FormatBounds(vi.absolute);
    BracketGeometry(vi.absolute);
  }

  /** A created node carries the widget's three flags as `true`/`false` text, and is never scrollable. */
  lemma CreatedFlags(vi: ViewInfo)
    ensures var n := CreateUiNode(vi);
      FlagGet(n, "clickable") == Some(BoolStr(vi.info.clickable)) && FlagGet(n, "enabled") == Some(BoolStr(vi.info.enabled)) &&
      FlagGet(n, "focusable") == Some(BoolStr(vi.info.focusable)) && FlagGet(n, "scrollable") == Some("false")
  {
  }

  /** `_create_virtual_root`: the synthetic root that collects the top-level widgets. */
  function VirtualRoot(children: seq<Node>): Node {
    Node(
      cls := "RootNode", resourceId := "", text := "", contentDesc := "", bounds := "[0,0][0,0]",
      package := "", index := "0",
      flags := map["clickable" := "false", "enabled" := "true", "focusable" := "false", "scrollable" := "false"],
      geom := Some(Geometry(0, 0, 0, 0, 0, 0, 0, 0)),
      textSource := None, infoSupplemented := false, textMatched := None,
      children := children)
  }

  /**
   * The state of one parse: the two stacks and the skip indent (locals of
   * `parse`), and the recorded views, the created nodes, each node's children
   * and the root's children (what the parser object keeps).
   */
  datatype ParseState = ParseState(
    parents: seq<ViewInfo>,
    open: seq<nat>,
    skip: int,
    views: seq<ViewInfo>,
    arena: seq<Node>,
    kids: seq<seq<nat>>,
    rootKids: seq<nat>)

  /** Children refer to nodes created after their parent; every reference is in range. */
  predicate ArenaOk(arena: seq<Node>, kids: seq<seq<nat>>, rootKids: seq<nat>) {
    |kids| == |arena| &&
    (forall i, k :: 0 <= i < |kids| && 0 <= k < |kids[i]| ==> i < kids[i][k] < |arena|) &&
    (forall k :: 0 <= k < |rootKids| ==> rootKids[k] < |arena|)
  }

  /** The invariant of the parse loop: the stacks have equal height, point into the arena, and their indents strictly increase. */
  predicate StateOk(st: ParseState) {
    ArenaOk(st.arena, st.kids, st.rootKids) &&
    |st.parents| == |st.open| &&
    (forall k :: 0 <= k < |st.open| ==> st.open[k] < |st.arena|) &&
    (forall i, j :: 0 <= i < j < |st.parents| ==> st.parents[i].indent < st.parents[j].indent) &&
    st.skip >= -1
  }

  /** The stacks at the start of `parse`, over what the parser already holds. */
  function Start(views: seq<ViewInfo>, arena: seq<Node>, kids: seq<seq<nat>>, rootKids: seq<nat>): ParseState {
    ParseState([], [], -1, views, arena, kids, rootKids)
  }

  /**
   * The stack maintenance of `parse`: pop both stacks while the top indent is
   * at least `d`. What is left is a prefix whose top is shallower than `d`;
   * the first entry removed was not.
   */
  function PopWhile(ps: seq<ViewInfo>, os: seq<nat>, d: nat): (r: (seq<ViewInfo>, seq<nat>))
    ensures |r.0| <= |ps| && r.0 == ps[..|r.0|]
    ensures |r.0| > 0 ==> r.0[|r.0| - 1].indent < d
    ensures |r.0| < |ps| ==> ps[|r.0|].indent >= d
    ensures |ps| == |os| ==> r.1 == os[..|r.0|]
    decreases |ps|
  {
    if |ps| > 0 && ps[|ps| - 1].indent >= d then
      var r := PopWhile(ps[..|ps| - 1], if |os| > 0 then os[..|os| - 1] else os, d);
      assert ps[..|ps| - 1][..|r.0|] == ps[..|r.0|];
      assert |ps| == |os| ==> os[..|os| - 1][..|r.0|] == os[..|r.0|];
      r
    else
      assert ps[..|ps|] == ps;
      assert os[..|os|] == os;
      (ps, os)
  }

  /** Blank lines and the header line are passed over before anything else. */
  predicate Ignored(line: string) {
    Strip(line) == "" || Contains(line, "View Hierarchy:")
  }

  /**
   * The part of one loop iteration for a widget that passed the filter: pop
   * the stacks, compute the absolute bounds, create the node, re-check it for
   * 0x0, attach it and push it.
   */
  function Attach(st: ParseState, info: LineInfo, indent: nat, line: string): ParseState {
    var popped := PopWhile(st.parents, st.open, indent);
    var ps, os := popped.0, popped.1;
    var vi := NewView(ps, info, indent, line);
    var node := CreateUiNode(vi);
    if node.geom.value.width == 0 && node.geom.value.height == 0 then
      st.(parents := ps, open := os, skip := indent)
    else
      Push(st, ps, os, vi, node)
  }

  /** The view recorded for a kept widget below the popped parent stack `ps`: absolute and parent bounds from its top, level its height. */
  function NewView(ps: seq<ViewInfo>, info: LineInfo, indent: nat, line: string): ViewInfo {
    var absolute := if |ps| > 0 then AbsoluteBounds(ps[|ps| - 1].absolute, info.bounds) else info.bounds;
    var parentBounds := if |ps| > 0 then Some(ps[|ps| - 1].absolute) else None;
    ViewInfo(info, absolute, parentBounds, indent, |ps|, line)
  }

  /**
   * Attaching a created node: it becomes the last child of the node on top of
   * the popped node stack, or of the root when that stack is empty, and both
   * stacks get it on top.
   */
  function Push(st: ParseState, ps: seq<ViewInfo>, os: seq<nat>, vi: ViewInfo, node: Node): ParseState {
    var id := |st.arena|;
    var kids :=
      if |os| > 0 && os[|os| - 1] < |st.kids| then st.kids[os[|os| - 1] := st.kids[os[|os| - 1]] + [id]]
      else st.kids;
    var rootKids := if |os| > 0 then st.rootKids else st.rootKids + [id];
    ParseState(ps + [vi], os + [id], -1, st.views + [vi], st.arena + [node], kids + [[]], rootKids)
  }

  /** One iteration of the loop of `parse` on one line. */
  function Step(st: ParseState, line: string): ParseState {
    if Ignored(line) then st
    else
      var indent := LeadingSpaces(line);
      if st.skip >= 0 && indent > st.skip then st
      else
        var parsed := ParseLine(Strip(line));
        if parsed.None? then st.(skip := -1)
        else if ShouldFilter(parsed.value) then st.(skip := indent)
        else Attach(st.(skip := -1), parsed.value, indent, line)
  }

  /** The parse loop over a list of lines. */
  function Run(st: ParseState, lines: seq<string>): ParseState
    decreases |lines|
  {
    if |lines| == 0 then st else Step(Run(st, lines[..|lines| - 1]), lines[|lines| - 1])
  }

  /** Appending a child reference to a node created earlier keeps the arena well formed. */
  lemma AppendKidOk(arena: seq<Node>, kids: seq<seq<nat>>, rootKids: seq<nat>, node: Node, parent: nat)
    requires ArenaOk(arena, kids, rootKids) && parent < |arena|
    ensures ArenaOk(arena + [node], kids[parent := kids[parent] + [|arena|]] + [[]], rootKids)
  {
    var kids' := kids[parent := kids[parent] + [|arena|]] + [[]];
    forall i, k | 0 <= i < |kids'| && 0 <= k < |kids'[i]|
      ensures i < kids'[i][k] < |arena| + 1
    {
      if i == parent && k == |kids[parent]| {
      } else {
        assert kids'[i][k] == kids[i][k];
      }
    }
  }

  /** A new top-level node keeps the arena well formed. */
  lemma AppendRootOk(arena: seq<Node>, kids: seq<seq<nat>>, rootKids: seq<nat>, node: Node)
    requires ArenaOk(arena, kids, rootKids)
    ensures ArenaOk(arena + [node], kids + [[]], rootKids + [|arena|])
  {
    var kids' := kids + [[]];
    forall i, k | 0 <= i < |kids'| && 0 <= k < |kids'[i]|
      ensures i < kids'[i][k] < |arena| + 1
    {
      assert kids'[i][k] == kids[i][k];
    }
  }

  /** Pushing onto stacks popped down to entries shallower than the new one keeps the loop invariant. */
  lemma PushOk(st: ParseState, ps: seq<ViewInfo>, os: seq<nat>, vi: ViewInfo, node: Node)
    requires StateOk(st)
    requires |ps| <= |st.parents| && ps == st.parents[..|ps|] && os == st.open[..|ps|]
    requires |ps| > 0 ==> ps[|ps| - 1].indent < vi.indent
    ensures StateOk(Push(st, ps, os, vi, node))
  {
    if |os| > 0 {
      assert os[|os| - 1] == st.open[|os| - 1];
      AppendKidOk(st.arena, st.kids, st.rootKids, node, os[|os| - 1]);
    } else {
      AppendRootOk(st.arena, st.kids, st.rootKids, node);
    }
    var st' := Push(st, ps, os, vi, node);
    assert forall k :: 0 <= k < |os| ==> os[k] == st.open[k];
    forall i, j | 0 <= i < j < |st'.parents| ensures st'.parents[i].indent < st'.parents[j].indent {
      if j < |ps| {
        assert st'.parents[i] == st.parents[i] && st'.parents[j] == st.parents[j];
      } else {
        assert st'.parents[i] == st.parents[i];
        assert st.parents[i].indent <= ps[|ps| - 1].indent;
      }
    }
  }

  /** A kept widget never meets the second 0x0 check, and attaching keeps the loop invariant. */
  lemma AttachOk(st: ParseState, info: LineInfo, indent: nat, line: string)
    requires StateOk(st) && !ShouldFilter(info)
    ensures |Attach(st, info, indent, line).arena| == |st.arena| + 1
    ensures StateOk(Attach(st, info, indent, line))
  {
    var popped := PopWhile(st.parents, st.open, indent);
    var vi := NewView(popped.0, info, indent, line);
    AttachPushes(st, info, indent, line);
    PushOk(st, popped.0, popped.1, vi, CreateUiNode(vi));
  }

  /** Each iteration keeps the loop invariant. */
  lemma StepOk(st: ParseState, line: string)
    requires StateOk(st)
    ensures StateOk(Step(st, line))
  {
    if !Ignored(line) && !(st.skip >= 0 && LeadingSpaces(line) > st.skip) {
      var parsed := ParseLine(Strip(line));
      if parsed.Some? && !ShouldFilter(parsed.value) {
        AttachOk(st.(skip := -1), parsed.value, LeadingSpaces(line), line);
      }
    }
  }

  lemma {:induction false} RunOk(st: ParseState, lines: seq<string>)
    requires StateOk(st)
    ensures StateOk(Run(st, lines))
    decreases |lines|
  {
    if |lines| > 0 {
      RunOk(st, lines[..|lines| - 1]);
      StepOk(Run(st, lines[..|lines| - 1]), lines[|lines| - 1]);
    }
  }

  /**
   * A blank line, the header, or a line indented deeper than a dropped widget
   * leaves the state as it was; a line without a class name or a bounds
   * quadruple only ends the skipping.
   */
  lemma StepSkipsLine(st: ParseState, line: string)
    ensures Ignored(line) || (st.skip >= 0 && LeadingSpaces(line) > st.skip) ==> Step(st, line) == st
    ensures !Ignored(line) && !(st.skip >= 0 && LeadingSpaces(line) > st.skip) && ParseLine(Strip(line)).None? ==>
      Step(st, line) == st.(skip := -1)
  {
  }

  /** A widget that is filtered only sets the skip indent to its own indent. */
  lemma StepDropsFiltered(st: ParseState, line: string)
    requires !Ignored(line) && (st.skip < 0 || LeadingSpaces(line) <= st.skip)
    requires ParseLine(Strip(line)).Some? && ShouldFilter(ParseLine(Strip(line)).value)
    ensures Step(st, line) == st.(skip := LeadingSpaces(line))
  {
  }

  /**
   * A widget that is filtered, and every following line indented deeper than
   * it, leave the parse exactly as it was apart from the skip indent: the
   * widget is dropped with its whole subtree.
   */
  lemma FilteredSubtreeDropped(st: ParseState, line: string, rest: seq<string>)
    requires !Ignored(line) && (st.skip < 0 || LeadingSpaces(line) <= st.skip)
    requires ParseLine(Strip(line)).Some? && ShouldFilter(ParseLine(Strip(line)).value)
    requires forall k :: 0 <= k < |rest| ==> Ignored(rest[k]) || LeadingSpaces(rest[k]) > LeadingSpaces(line)
    ensures Run(st, [line] + rest) == st.(skip := LeadingSpaces(line))
  {
    StepDropsFiltered(st, line);
    RunFirst(st, line, rest);
    SkippedRun(st.(skip := LeadingSpaces(line)), rest);
  }

  /** The parse loop over a first line and then the rest. */
  lemma {:induction false} RunFirst(st: ParseState, line: string, rest: seq<string>)
    ensures Run(st, [line] + rest) == Run(Step(st, line), rest)
    decreases |rest|
  {
    var lines := [line] + rest;
    if |rest| == 0 {
      assert lines[..0] == [];
    } else {
      assert lines[..|lines| - 1] == [line] + rest[..|rest| - 1];
      RunFirst(st, line, rest[..|rest| - 1]);
    }
  }

  /** Lines that are blank or indented deeper than the skip indent leave the parse as it was. */
  lemma {:induction false} SkippedRun(st: ParseState, rest: seq<string>)
    requires st.skip >= 0
    requires forall k :: 0 <= k < |rest| ==> Ignored(rest[k]) || LeadingSpaces(rest[k]) > st.skip
    ensures Run(st, rest) == st
    decreases |rest|
  {
    if |rest| > 0 {
      var n := |rest| - 1;
      SkippedRun(st, rest[..n]);
      StepSkipsLine(st, rest[n]);
    }
  }

  /**
   * A widget that passed the filter pops both stacks down to the entries
   * shallower than its indent (the first entry removed was not) and is pushed
   * on top of both.
   */
  lemma AttachStacks(st: ParseState, info: LineInfo, d: nat, line: string)
    requires StateOk(st) && !ShouldFilter(info)
    ensures var st' := Attach(st, info, d, line); var m := |st'.parents| - 1;
      0 <= m <= |st.parents| && st'.parents[..m] == st.parents[..m] && st'.open[..m] == st.open[..m] &&
      st'.open[m] == |st.arena| && st'.skip == -1
    ensures var st' := Attach(st, info, d, line); var m := |st'.parents| - 1;
      (forall k :: 0 <= k < m ==> st'.parents[k].indent < d) && (m < |st.parents| ==> st.parents[m].indent >= d)
  {
    var popped := PopWhile(st.parents, st.open, d);
    var ps, os := popped.0, popped.1;
    var m := |ps|;
    var vi := NewView(ps, info, d, line);
    AttachPushes(st, info, d, line);
    PushShape(st, ps, os, vi, CreateUiNode(vi));
    var st' := Attach(st, info, d, line);
    assert st'.parents[..m] == ps == st.parents[..m];
    assert st'.open[..m] == os == st.open[..m];
    if m > 0 {
      assert ps[m - 1] == st.parents[m - 1];
    }
    ShallowerPrefix(st.parents, m, d);
    forall k | 0 <= k < m ensures st'.parents[k].indent < d {
      assert st'.parents[k] == st'.parents[..m][k];
    }
  }

  /** In a stack of strictly increasing indents, every entry below one shallower than `d` is shallower than `d` too. */
  lemma ShallowerPrefix(parents: seq<ViewInfo>, m: nat, d: nat)
    requires m <= |parents| && forall i, j :: 0 <= i < j < |parents| ==> parents[i].indent < parents[j].indent
    requires m > 0 ==> parents[m - 1].indent < d
    ensures forall k :: 0 <= k < m ==> parents[k].indent < d
  {
    forall k | 0 <= k < m ensures parents[k].indent < d {
      if k < m - 1 {
        assert parents[k].indent < parents[m - 1].indent;
      }
    }
  }

  /**
   * The view recorded for a kept widget: its absolute bounds are its relative
   * bounds moved by the absolute bounds of the remaining top (or are its
   * relative bounds at top level), its level is the height of that stack, and
   * its node is created from it; the 0x0 check after moving never drops it.
   */
  lemma AttachView(st: ParseState, info: LineInfo, d: nat, line: string)
    requires StateOk(st) && !ShouldFilter(info)
    ensures var st' := Attach(st, info, d, line); var m := |st'.parents| - 1;
      0 <= m <= |st.parents| &&
      st'.parents[m].indent == d && st'.parents[m].info == info && st'.parents[m].level == m &&
      st'.parents[m].absolute == (if m == 0 then info.bounds else AbsoluteBounds(st.parents[m - 1].absolute, info.bounds)) &&
      st'.arena == st.arena + [CreateUiNode(st'.parents[m])] && st'.views == st.views + [st'.parents[m]]
  {
    var popped := PopWhile(st.parents, st.open, d);
    var ps, os := popped.0, popped.1;
    var m := |ps|;
    var vi := NewView(ps, info, d, line);
    AttachPushes(st, info, d, line);
    PushShape(st, ps, os, vi, CreateUiNode(vi));
    if m > 0 {
      assert ps[m - 1] == st.parents[m - 1];
    }
  }

  /** A kept widget becomes the last child of the remaining top node, or of the root when the stack was emptied. */
  lemma AttachTree(st: ParseState, info: LineInfo, d: nat, line: string)
    requires StateOk(st) && !ShouldFilter(info)
    ensures var st' := Attach(st, info, d, line); var m := |st'.parents| - 1;
      0 <= m <= |st.parents| &&
      (m == 0 ==> st'.rootKids == st.rootKids + [|st.arena|] && st'.kids == st.kids + [[]]) &&
      (m > 0 ==> st'.rootKids == st.rootKids && st'.kids == st.kids[st.open[m - 1] := st.kids[st.open[m - 1]] + [|st.arena|]] + [[]])
  {
    var popped := PopWhile(st.parents, st.open, d);
    var ps, os := popped.0, popped.1;
    var m := |ps|;
    var vi := NewView(ps, info, d, line);
    AttachPushes(st, info, d, line);
    PushShape(st, ps, os, vi, CreateUiNode(vi));
    if m > 0 {
      assert os[m - 1] == st.open[m - 1];
    }
  }

  /** For a widget that passed the filter, the 0x0 check after moving never fires: `Attach` always pushes. */
  lemma AttachPushes(st: ParseState, info: LineInfo, d: nat, line: string)
    requires !ShouldFilter(info)
    ensures var popped := PopWhile(st.parents, st.open, d);
      var vi := NewView(popped.0, info, d, line);
      Attach(st, info, d, line) == Push(st, popped.0, popped.1, vi, CreateUiNode(vi))
  {
  }

  /** On a well-formed state and a prefix of its node stack, `Push` appends to the top node's children, or to the root's. */
  lemma PushForm(st: ParseState, ps: seq<ViewInfo>, os: seq<nat>, vi: ViewInfo, node: Node)
    requires StateOk(st) && |os| <= |st.open| && os == st.open[..|os|]
    ensures |os| > 0 ==> os[|os| - 1] < |st.kids|
    ensures Push(st, ps, os, vi, node) ==
      ParseState(ps + [vi], os + [|st.arena|], -1, st.views + [vi], st.arena + [node],
        (if |os| > 0 then st.kids[os[|os| - 1] := st.kids[os[|os| - 1]] + [|st.arena|]] else st.kids) + [[]],
        if |os| > 0 then st.rootKids else st.rootKids + [|st.arena|])
  {
    if |os| > 0 {
      assert os[|os| - 1] == st.open[|os| - 1];
    }
  }

  /** The shape of the state after `Push`. */
  lemma PushShape(st: ParseState, ps: seq<ViewInfo>, os: seq<nat>, vi: ViewInfo, node: Node)
    requires StateOk(st)
    requires |ps| <= |st.parents| && ps == st.parents[..|ps|] && os == st.open[..|ps|]
    ensures var st' := Push(st, ps, os, vi, node);
      var m := |ps|;
      var id := |st.arena|;
      |st'.parents| == m + 1 && st'.parents[..m] == ps && st'.open[..m] == os &&
      st'.parents[m] == vi && st'.open[m] == id && st'.arena == st.arena + [node] &&
      st'.views == st.views + [vi] && st'.skip == -1 &&
      (m == 0 ==> st'.rootKids == st.rootKids + [id] && st'.kids == st.kids + [[]]) &&
      (m > 0 ==> st'.rootKids == st.rootKids && st'.kids == st.kids[os[m - 1] := st.kids[os[m - 1]] + [id]] + [[]])
  {
    var st' := Push(st, ps, os, vi, node);
    assert st'.parents[..|ps|] == ps;
    assert st'.open[..|ps|] == os;
    if |ps| > 0 {
      assert os[|ps| - 1] == st.open[|ps| - 1];
    }
  }

  /** A line that is not skipped and whose widget passes the filter goes through `Attach` with the skip indent cleared. */
  lemma StepKeepsWidget(st: ParseState, line: string)
    requires !Ignored(line) && (st.skip < 0 || LeadingSpaces(line) <= st.skip)
    requires ParseLine(Strip(line)).Some? && !ShouldFilter(ParseLine(Strip(line)).value)
    ensures Step(st, line) == Attach(st.(skip := -1), ParseLine(Strip(line)).value, LeadingSpaces(line), line)
  {
  }

  /** `trace` holds the state before each line and the state after the last: each entry is one step from the one before. */
  predicate IsTrace(trace: seq<ParseState>, lines: seq<string>) {
    |trace| == |lines| + 1 &&
    forall k {:trigger Step(trace[k], lines[k])} :: 0 <= k < |lines| ==> trace[k + 1] == Step(trace[k], lines[k])
  }

  lemma TraceSnoc(trace: seq<ParseState>, lines: seq<string>, i: nat, after: ParseState)
    requires i < |lines| && IsTrace(trace, lines[..i]) && after == Step(trace[i], lines[i])
    ensures IsTrace(trace + [after], lines[..i + 1])
  {
    var t, ls := trace + [after], lines[..i + 1];
    forall k | 0 <= k < |ls| ensures t[k + 1] == Step(t[k], ls[k]) {
      if k < i {
        assert t[k + 1] == trace[k + 1] && t[k] == trace[k] && ls[k] == lines[..i][k];
        assert trace[k + 1] == Step(trace[k], lines[..i][k]);
      }
    }
  }

  /** The last state of a trace over all the lines is the fold of `Step` over them. */
  lemma {:induction false} TraceIsRun(trace: seq<ParseState>, lines: seq<string>)
    requires IsTrace(trace, lines)
    ensures trace[|lines|] == Run(trace[0], lines)
    decreases |lines|
  {
    if |lines| > 0 {
      var n := |lines| - 1;
      var t, ls := trace[..n + 1], lines[..n];
      forall k | 0 <= k < |ls| ensures t[k + 1] == Step(t[k], ls[k]) {
        assert t[k + 1] == trace[k + 1] && t[k] == trace[k] && ls[k] == lines[k];
        assert trace[k + 1] == Step(trace[k], lines[k]);
      }
      TraceIsRun(t, ls);
      assert trace[n + 1] == Step(trace[n], lines[n]);
    }
  }

  /** The tree below arena node `i`: the node with its children's trees in the order they were attached. */
  function Build(arena: seq<Node>, kids: seq<seq<nat>>, i: nat): (r: Node)
    requires ArenaOk(arena, kids, []) && i < |arena|
    ensures r.(children := arena[i].children) == arena[i]
    ensures |r.children| == |kids[i]|
    ensures forall k :: 0 <= k < |kids[i]| ==> r.children[k] == Build(arena, kids, kids[i][k])
    decreases |arena| - i
  {
    var ks := kids[i];
    arena[i].(children := seq(|ks|, k requires 0 <= k < |ks| => Build(arena, kids, ks[k])))
  }

  /**
   * `to_ui_format`: a dump with exactly one top-level widget becomes that
   * widget's tree; otherwise the top-level widgets hang under a virtual
   * `RootNode` with empty bounds.
   */
  function UiFormat(arena: seq<Node>, kids: seq<seq<nat>>, rootKids: seq<nat>): (r: Node)
    requires ArenaOk(arena, kids, rootKids)
    ensures |rootKids| == 1 ==> r == Build(arena, kids, rootKids[0])
    ensures |rootKids| != 1 ==> r.cls == "RootNode" && r.geom == Some(Geometry(0, 0, 0, 0, 0, 0, 0, 0))
    ensures |rootKids| != 1 ==> |r.children| == |rootKids|
    ensures |rootKids| != 1 ==> forall k :: 0 <= k < |rootKids| ==> r.children[k] == Build(arena, kids, rootKids[k])
  {
    if |rootKids| == 1 then Build(arena, kids, rootKids[0])
    else VirtualRoot(seq(|rootKids|, k requires 0 <= k < |rootKids| => Build(arena, kids, rootKids[k])))
  }

  /** The stack maintenance of `parse`: pops both stacks while the top entry is at least as deep as `indent`. */
  method PopToParent(parentStack: seq<ViewInfo>, nodesStack: seq<nat>, indent: nat) returns (ps: seq<ViewInfo>, os: seq<nat>)
    requires |parentStack| == |nodesStack|
    ensures (ps, os) == PopWhile(parentStack, nodesStack, indent)
  {
    ps, os := parentStack, nodesStack;
    while |ps| > 0 && ps[|ps| - 1].indent >= indent
      invariant |ps| == |os|
      invariant PopWhile(ps, os, indent) == PopWhile(parentStack, nodesStack, indent)
      decreases |ps|
    {
      ps := ps[..|ps| - 1];
      if |os| > 0 {
        os := os[..|os| - 1];
      }
    }
  }

  /** The parser object: the dump text, the recorded views, and the tree built so far. */
  class ViewHierarchyParser {
    const hierarchyText: string
    var views: seq<ViewInfo>
    var arena: seq<Node>
    var kids: seq<seq<nat>>
    var rootKids: seq<nat>

    ghost predicate Valid()
      reads this
    {
      ArenaOk(arena, kids, rootKids)
    }

    constructor (hierarchyText: string)
      ensures Valid() && this.hierarchyText == hierarchyText
      ensures views == [] && arena == [] && kids == [] && rootKids == []
    {
      this.hierarchyText := hierarchyText;
      views, arena, kids, rootKids := [], [], [], [];
    }

    /**
     * `parse`: runs the line loop over the dump split at newlines, adding to
     * the recorded views and the tree, and returns the recorded views.
     */
    method Parse() returns (result: seq<ViewInfo>)
      requires Valid()
      modifies this
      ensures Valid()
      ensures var st := Run(Start(old(views), old(arena), old(kids), old(rootKids)), Split(hierarchyText, '\n'));
        views == st.views && arena == st.arena && kids == st.kids && rootKids == st.rootKids
      ensures result == views
    {
      var lines := Split(hierarchyText, '\n');
      ghost var start := Start(views, arena, kids, rootKids);
      var parentStack: seq<ViewInfo> := [];
      var nodesStack: seq<nat> := [];
      var skip: int := -1;
      ghost var trace := [start];
      for i := 0 to |lines|
        invariant |trace| == i + 1 && trace[0] == start
        invariant trace[i] == ParseState(parentStack, nodesStack, skip, views, arena, kids, rootKids)
        invariant IsTrace(trace, lines[..i])
        invariant StateOk(trace[i])
      {
        ghost var after := Step(trace[i], lines[i]);
        TraceSnoc(trace, lines, i, after);
        StepOk(trace[i], lines[i]);
        trace := trace + [after];
        parentStack, nodesStack, skip := ParseOneLine(parentStack, nodesStack, skip, lines[i]);
      }
      assert lines[..|lines|] == lines;
      TraceIsRun(trace, lines);
      result := views;
    }

    /** One iteration of the loop of `parse`, on the line `line`. */
    method ParseOneLine(parentStack: seq<ViewInfo>, nodesStack: seq<nat>, skip: int, line: string)
      returns (ps: seq<ViewInfo>, os: seq<nat>, sk: int)
      requires StateOk(ParseState(parentStack, nodesStack, skip, views, arena, kids, rootKids))
      modifies this
      ensures ParseState(ps, os, sk, views, arena, kids, rootKids) ==
        Step(ParseState(parentStack, nodesStack, skip, old(views), old(arena), old(kids), old(rootKids)), line)
    {
      ghost var before := ParseState(parentStack, nodesStack, skip, views, arena, kids, rootKids);
      ps, os, sk := parentStack, nodesStack, skip;
      StepSkipsLine(before, line);
      if Strip(line) == "" || Contains(line, "View Hierarchy:") {
        return;
      }
      var indentLevel := LeadingSpaces(line);
      if sk >= 0 {
        if indentLevel > sk {
          return;
        } else {
          sk := -1;
        }
      }
      var viewInfo := ParseLine(Strip(line));
      if viewInfo.None? {
        return;
      }
      var info := viewInfo.value;
      if ShouldFilter(info) {
        sk := indentLevel;
        return;
      }
      StepKeepsWidget(before, line);
      ps, os := AttachWidget(ps, os, info, indentLevel, line);
    }

    /**
     * The part of one iteration of `parse` that keeps a widget: pop both
     * stacks to its parent, create its node, attach it and push it.
     */
    method AttachWidget(parentStack: seq<ViewInfo>, nodesStack: seq<nat>, info: LineInfo, indentLevel: nat, line: string)
      returns (ps: seq<ViewInfo>, os: seq<nat>)
      requires !ShouldFilter(info)
      requires StateOk(ParseState(parentStack, nodesStack, -1, views, arena, kids, rootKids))
      modifies this
      ensures ParseState(ps, os, -1, views, arena, kids, rootKids) ==
        Attach(ParseState(parentStack, nodesStack, -1, old(views), old(arena), old(kids), old(rootKids)), info, indentLevel, line)
    {
      ghost var before := ParseState(parentStack, nodesStack, -1, views, arena, kids, rootKids);
      ps, os := PopToParent(parentStack, nodesStack, indentLevel);
      var absolute, parentBounds;
      if |ps| > 0 {
        var parent := ps[|ps| - 1];
        absolute := AbsoluteBounds(parent.absolute, info.bounds);
        parentBounds := Some(parent.absolute);
      } else {
        absolute := info.bounds;
        parentBounds := None;
      }
      var vi := ViewInfo(info, absolute, parentBounds, indentLevel, |ps|, line);
      var uiNode := CreateUiNode(vi);
      // The source checks the node for 0x0 once more here and drops it; moving
      // keeps width and height and 0x0 was filtered above, so that never happens.
      assert vi == NewView(ps, info, indentLevel, line);
      AttachPushes(before, info, indentLevel, line);
      PushForm(before, ps, os, vi, uiNode);
      var id := |arena|;
      if |os| > 0 {
        var parentNode := os[|os| - 1];
        kids := kids[parentNode := kids[parentNode] + [id]];
      } else {
        rootKids := rootKids + [id];
      }
      arena := arena + [uiNode];
      kids := kids + [[]];
      os := os + [id];
      ps := ps + [vi];
      views := views + [vi];
    }

    /** `to_ui_format`, on the tree built so far. */
    function ToUiFormat(): (r: Node)
      reads this
      requires Valid()
      ensures r == UiFormat(arena, kids, rootKids)
    {
      UiFormat(arena, kids, rootKids)
    }
  }
}
