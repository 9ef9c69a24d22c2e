/**
 * The string operations the parsers rely on: Python's `in`, `startswith`,
 * `endswith`, `split`, `strip`, `lower` and the decimal conversions `int()`
 * and `str()`, written out over `seq<char>` for the ASCII range.
 */
module Text {
  import opened Wrappers

  /** Python's `str.isspace` on ASCII characters: space, tab to carriage return, and 0x1C to 0x1F. */
  predicate IsSpace(c: char) {
    var n := c as int;
    n == 32 || 9 <= n <= 13 || 28 <= n <= 31
  }

  /** The regular-expression class `\d` (ASCII digits only). */
  predicate IsDigit(c: char) { '0' <= c <= '9' }

  /** The regular-expression class `[a-f0-9]`. */
  predicate IsLowerHex(c: char) { IsDigit(c) || 'a' <= c <= 'f' }

  /** The regular-expression class `[a-zA-Z0-9_]`. */
  predicate IsWordChar(c: char) { IsDigit(c) || 'a' <= c <= 'z' || 'A' <= c <= 'Z' || c == '_' }

  predicate AllDigits(s: string) { forall i :: 0 <= i < |s| ==> IsDigit(s[i]) }

  predicate StartsWith(s: string, p: string) { |p| <= |s| && s[..|p|] == p }

  predicate EndsWith(s: string, p: string) { |p| <= |s| && s[|s| - |p|..] == p }

  /** `t` occurs in `s` starting at position `i`. */
  predicate OccursAt(s: string, t: string, i: nat) { i + |t| <= |s| && s[i..i + |t|] == t }

  lemma OccursShift(s: string, d: nat, t: string, j: nat)
    requires d <= |s|
    ensures OccursAt(s[d..], t, j) <==> OccursAt(s, t, d + j)
  {
    if d + j + |t| <= |s| {
      assert s[d..][j..j + |t|] == s[d + j..d + j + |t|];
    }
  }

  /** The first position at or after `from` at which `t` occurs in `s` (Python's `str.find(t, from)`, as an option). */
  function IndexOfFrom(s: string, t: string, from: nat): Option<nat>
    requires from <= |s|
    decreases |s| - from
  {
    if OccursAt(s, t, from) then Some(from)
    else if from == |s| then None
    else IndexOfFrom(s, t, from + 1)
  }

  /** Python's `str.find`, as an option. */
  function IndexOf(s: string, t: string): Option<nat> {
    IndexOfFrom(s, t, 0)
  }

  /** `IndexOfFrom` finds the leftmost occurrence from `from` on, and nothing only when there is none. */
  lemma {:induction false} IndexOfFromSpec(s: string, t: string, from: nat)
    requires from <= |s|
    ensures IndexOfFrom(s, t, from).Some? ==>
      var i := IndexOfFrom(s, t, from).value;
      from <= i && OccursAt(s, t, i) && forall j :: from <= j < i ==> !OccursAt(s, t, j)
    ensures IndexOfFrom(s, t, from).None? ==> forall j: nat :: from <= j ==> !OccursAt(s, t, j)
    decreases |s| - from
  {
    if !OccursAt(s, t, from) && from < |s| {
      IndexOfFromSpec(s, t, from + 1);
    }
  }

  /** `IndexOf` finds the leftmost occurrence, and nothing only when there is none. */
  lemma IndexOfSpec(s: string, t: string)
    ensures IndexOf(s, t).Some? ==>
      OccursAt(s, t, IndexOf(s, t).value) && forall j :: 0 <= j < IndexOf(s, t).value ==> !OccursAt(s, t, j)
    ensures IndexOf(s, t).None? ==> forall j: nat :: !OccursAt(s, t, j)
  {
    IndexOfFromSpec(s, t, 0);
  }

  /** Python's `t in s` for strings: `t` occurs somewhere in `s`. */
  predicate Contains(s: string, t: string) {
    exists i: nat | i <= |s| :: OccursAt(s, t, i)
  }

  lemma IndexOfFindsContained(s: string, t: string)
    ensures IndexOf(s, t).Some? <==> Contains(s, t)
  {
    IndexOfSpec(s, t);
    var r := IndexOf(s, t);
    if r.Some? { assert OccursAt(s, t, r.value); }
  }

  /**
   * Where the last piece of `s.split(sep)` starts when the left-to-right,
   * non-overlapping scan of `str.split` resumes at `from`.
   */
  function LastCut(s: string, sep: string, from: nat): (c: nat)
    requires |sep| > 0 && from <= |s|
    ensures from <= c <= |s|
    decreases |s| - from
  {
    IndexOfFromSpec(s, sep, from);
    match IndexOfFrom(s, sep, from)
    case None => from
    case Some(i) => LastCut(s, sep, i + |sep|)
  }

  /** Python's `s.split(sep)[-1]`: the piece after the last separator the scan finds. */
  function SplitLast(s: string, sep: string): string
    requires |sep| > 0
  {
    s[LastCut(s, sep, 0)..]
  }

  /**
   * No separator occurs after the cut; the cut stays at `from` exactly when
   * the scan finds nothing, and otherwise follows a separator.
   */
  lemma {:induction false} LastCutSpec(s: string, sep: string, from: nat)
    requires |sep| > 0 && from <= |s|
    ensures var c := LastCut(s, sep, from);
      (forall j: nat :: c <= j ==> !OccursAt(s, sep, j)) &&
      (c == from <==> IndexOfFrom(s, sep, from).None?) &&
      (c > from ==> |sep| <= c && OccursAt(s, sep, c - |sep|))
    decreases |s| - from
  {
    IndexOfFromSpec(s, sep, from);
    match IndexOfFrom(s, sep, from)
    case None =>
    case Some(i) =>
      LastCutSpec(s, sep, i + |sep|);
  }

  /**
   * The last piece is a suffix that holds no separator; it is the whole string
   * when there is no separator, and is preceded by one otherwise.
   */
  lemma SplitLastSpec(s: string, sep: string)
    requires |sep| > 0
    ensures var r := SplitLast(s, sep);
      EndsWith(s, r) && !Contains(r, sep) &&
      (!Contains(s, sep) ==> r == s) &&
      (Contains(s, sep) ==> |r| + |sep| <= |s| && OccursAt(s, sep, |s| - |r| - |sep|))
  {
    var c := LastCut(s, sep, 0);
    var r := s[c..];
    LastCutSpec(s, sep, 0);
    IndexOfFindsContained(s, sep);
    assert s[|s| - |r|..] == r;
    forall i: nat | i <= |r| ensures !OccursAt(r, sep, i) {
      OccursShift(s, c, sep, i);
    }
    if !Contains(s, sep) {
      assert r == s;
    }
  }

  /** Python's `str.split(sep)` for a one-character separator. */
  function Split(s: string, sep: char): (r: seq<string>)
    ensures |r| >= 1
    ensures forall k :: 0 <= k < |r| ==> sep !in r[k]
    ensures Join(r, sep) == s
    decreases |s|
  {
    IndexOfSpec(s, [sep]);
    match IndexOf(s, [sep])
    case None =>
      assert forall j :: 0 <= j < |s| ==> s[j] != sep by {
        forall j | 0 <= j < |s| ensures s[j] != sep {
          assert s[j..j + 1] == [s[j]];
          assert !OccursAt(s, [sep], j);
        }
      }
      [s]
    case Some(i) =>
      assert forall j :: 0 <= j < i ==> s[j] != sep by {
        forall j | 0 <= j < i ensures s[j] != sep {
          assert s[j..j + 1] == [s[j]];
          assert !OccursAt(s, [sep], j);
        }
      }
      assert s[i] == sep by { assert s[i..i + 1] == [s[i]]; }
      var rest := Split(s[i + 1..], sep);
      assert s == s[..i] + [sep] + s[i + 1..];
      assert ([s[..i]] + rest)[1..] == rest;
      [s[..i]] + rest
  }

  /** The inverse of `Split`: the pieces joined with the separator. */
  function Join(pieces: seq<string>, sep: char): string {
    if |pieces| == 0 then ""
    else if |pieces| == 1 then pieces[0]
    else pieces[0] + [sep] + Join(pieces[1..], sep)
  }

  function LowerChar(c: char): char {
    if 'A' <= c <= 'Z' then (c as int + 32) as char else c
  }

  /** Python's `str.lower` on ASCII letters; every other character is kept. */
  function Lower(s: string): (r: string)
    ensures |r| == |s| && forall i :: 0 <= i < |s| ==> r[i] == LowerChar(s[i])
  {
    seq(|s|, i requires 0 <= i < |s| => LowerChar(s[i]))
  }

  /** The number of leading whitespace characters. */
  function LeadingSpaces(s: string): (n: nat)
    ensures n <= |s|
    ensures forall i :: 0 <= i < n ==> IsSpace(s[i])
    ensures n < |s| ==> !IsSpace(s[n])
    decreases |s|
  {
    if |s| > 0 && IsSpace(s[0]) then 1 + LeadingSpaces(s[1..]) else 0
  }

  /** The number of trailing whitespace characters. */
  function TrailingSpaces(s: string): (n: nat)
    ensures n <= |s|
    ensures forall i :: |s| - n <= i < |s| ==> IsSpace(s[i])
    ensures n < |s| ==> !IsSpace(s[|s| - 1 - n])
    decreases |s|
  {
    if |s| > 0 && IsSpace(s[|s| - 1]) then 1 + TrailingSpaces(s[..|s| - 1]) else 0
  }

  /** Python's `str.lstrip()`. */
  function LStrip(s: string): string { s[LeadingSpaces(s)..] }

  /** Python's `str.strip()`. */
  function Strip(s: string): string {
    var l := LStrip(s);
    l[..|l| - TrailingSpaces(l)]
  }

  /** The length of the longest prefix of `s` whose characters all satisfy `p` (a greedy `[...]+` or `[...]*`). */
  function Span(s: string, p: char -> bool): (n: nat)
    ensures n <= |s|
    ensures forall i :: 0 <= i < n ==> p(s[i])
    ensures n < |s| ==> !p(s[n])
    decreases |s|
  {
    if |s| > 0 && p(s[0]) then 1 + Span(s[1..], p) else 0
  }

  /** A run of `p`-characters followed by a non-`p` character or the end is exactly the span. */
  lemma {:induction false} SpanOf(a: string, b: string, p: char -> bool)
    requires forall i :: 0 <= i < |a| ==> p(a[i])
    requires b == [] || !p(b[0])
    ensures Span(a + b, p) == |a|
    decreases |a|
  {
    if |a| == 0 {
      assert a + b == b;
    } else {
      assert (a + b)[0] == a[0] && (a + b)[1..] == a[1..] + b;
      SpanOf(a[1..], b, p);
    }
  }

  /**
   * Python's `re.search` for a pattern given by the anchored matcher `m`:
   * what `m` yields at the leftmost position from `from` on at which it
   * succeeds (`SearchLeftmost`).
   */
  function Search<T>(s: string, m: string -> Option<T>, from: nat): Option<T>
    requires from <= |s|
    decreases |s| - from
  {
    if m(s[from..]).Some? then m(s[from..])
    else if from == |s| then None
    else Search(s, m, from + 1)
  }

  /** `Search` finds the leftmost match, and finds nothing only when no position matches. */
  lemma {:induction false} SearchLeftmost<T>(s: string, m: string -> Option<T>, from: nat)
    requires from <= |s|
    ensures Search(s, m, from).Some? ==>
      exists p :: from <= p <= |s| && m(s[p..]) == Search(s, m, from) && forall q :: from <= q < p ==> m(s[q..]).None?
    ensures Search(s, m, from).None? ==> forall q :: from <= q <= |s| ==> m(s[q..]).None?
    decreases |s| - from
  {
    if m(s[from..]).None? && from < |s| {
      SearchLeftmost(s, m, from + 1);
    }
  }

  /** The length of the longest prefix of decimal digits. */
  function DigitPrefix(s: string): (n: nat)
    ensures n <= |s| && AllDigits(s[..n])
    ensures n < |s| ==> !IsDigit(s[n])
    decreases |s|
  {
    if |s| > 0 && IsDigit(s[0]) then
      var k := DigitPrefix(s[1..]);
      assert s[..k + 1] == [s[0]] + s[1..][..k];
      1 + k
    else 0
  }

  /** Python's `int()` of a run of decimal digits. */
  function DigitsValue(ds: string): nat
    requires AllDigits(ds)
  {
    if |ds| == 0 then 0
    else 10 * DigitsValue(ds[..|ds| - 1]) + (ds[|ds| - 1] as int - '0' as int)
  }

  /** Python's `str()` of a non-negative integer (`NatToStringDigits`). */
  function NatToString(n: nat): string {
    var d := ['0' + ((n % 10) as char)];
    if n < 10 then d else NatToString(n / 10) + d
  }

  /** `str(n)` is a non-empty run of digits whose `int()` gives `n` back. */
  lemma {:induction false} NatToStringDigits(n: nat)
    ensures var r := NatToString(n); |r| > 0 && AllDigits(r) && DigitsValue(r) == n
  {
    if n >= 10 {
      NatToStringDigits(n / 10);
      var p := NatToString(n / 10);
      var r := NatToString(n);
      assert r == p + ['0' + ((n % 10) as char)];
      assert r[..|r| - 1] == p;
    }
  }

  /** A maximal, non-empty run of digits at the start of `s`: its value and the text after it. */
  function ReadNat(s: string): Option<(nat, string)> {
    var k := DigitPrefix(s);
    if k == 0 then None else Some((DigitsValue(s[..k]), s[k..]))
  }

  /** The text after a leading character `c`, if `s` starts with it. */
  function Expect(s: string, c: char): Option<string> {
    if |s| > 0 && s[0] == c then Some(s[1..]) else None
  }

  /** A non-empty run of digits followed by a non-digit or the end is exactly the digit prefix. */
  lemma DigitPrefixOf(d: string, rest: string)
    requires AllDigits(d)
    requires rest == [] || !IsDigit(rest[0])
    ensures DigitPrefix(d + rest) == |d|
  {
    var s := d + rest;
    var m := |d|;
    assert forall i :: 0 <= i < m ==> IsDigit(s[i]) by {
      forall i | 0 <= i < m ensures IsDigit(s[i]) { assert s[i] == d[i]; }
    }
    assert m < |s| ==> !IsDigit(s[m]) by {
      if m < |s| { assert s[m] == rest[0]; }
    }
  }

  /** Reading back a formatted number stops at the first non-digit. */
  lemma ReadNatOfFormatted(n: nat, rest: string)
    requires rest == [] || !IsDigit(rest[0])
    ensures ReadNat(NatToString(n) + rest) == Some((n, rest))
  {
    NatToStringDigits(n);
    DigitPrefixOf(NatToString(n), rest);
    var s := NatToString(n) + rest;
    assert s[..|NatToString(n)|] == NatToString(n);
    assert s[|NatToString(n)|..] == rest;
  }

  /** Python's `re.findall(r'\d+', s)`: the maximal digit runs of `s`, left to right. */
  function DigitRuns(s: string): (r: seq<string>)
    ensures forall k :: 0 <= k < |r| ==> |r[k]| > 0 && AllDigits(r[k])
    decreases |s|
  {
    if |s| == 0 then []
    else if IsDigit(s[0]) then
      var k := DigitPrefix(s);
      [s[..k]] + DigitRuns(s[k..])
    else DigitRuns(s[1..])
  }

  /** A maximal, non-empty digit run at the front of the text is the first run found. */
  lemma DigitRunsOf(d: string, rest: string)
    requires |d| > 0 && AllDigits(d)
    requires rest == [] || !IsDigit(rest[0])
    ensures DigitRuns(d + rest) == [d] + DigitRuns(rest)
  {
    DigitPrefixOf(d, rest);
    var s := d + rest;
    assert s[0] == d[0];
    assert s[..|d|] == d;
    assert s[|d|..] == rest;
  }

  /** A leading non-digit is skipped. */
  lemma DigitRunsSkip(c: char, rest: string)
    requires !IsDigit(c)
    ensures DigitRuns([c] + rest) == DigitRuns(rest)
  {
    assert ([c] + rest)[1..] == rest;
  }
}
