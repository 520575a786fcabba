/**
 * The README side of the activity script: the document is its list of
 * lines (the file split on "\n"); marker lines are found by their trimmed
 * text, and the numbered activity lines are spliced in after the start
 * marker, either by insertion or by overwriting the existing region in place.
 */
module Readme {
  import opened StringUtil

  const ActivityStart: string := "<!--RECENT_ACTIVITY:start-->"
  const ActivityEnd: string := "<!--RECENT_ACTIVITY:end-->"

  /** `doc.findIndex(l => l.trim() === marker)`, with `None` for -1. */
  function FindMarker(doc: seq<string>, marker: string): (r: Option<nat>)
    ensures r.Some? ==> r.value < |doc|
  {
    if doc == [] then None
    else if Trim(doc[0]) == marker then Some(0)
    else
      var rest := FindMarker(doc[1..], marker);
      if rest.None? then None else Some(rest.value + 1)
  }

  /**
   * The search finds the first line that trims to the marker, and finds
   * nothing only when no line does.
   */
  lemma {:induction false} FindMarkerSpec(doc: seq<string>, marker: string)
    ensures var r := FindMarker(doc, marker);
      (r.Some? ==> Trim(doc[r.value]) == marker) &&
      (r.Some? ==> forall j {:trigger Trim(doc[j])} :: 0 <= j < r.value ==> Trim(doc[j]) != marker) &&
      (r.None? ==> forall j {:trigger Trim(doc[j])} :: 0 <= j < |doc| ==> Trim(doc[j]) != marker)
  {
    if doc != [] && Trim(doc[0]) != marker {
      FindMarkerSpec(doc[1..], marker);
      assert forall j :: 1 <= j < |doc| ==> doc[1..][j - 1] == doc[j];
    }
  }

  /** The first marker line is determined by the lines up to and including it. */
  lemma FindMarkerSamePrefix(doc: seq<string>, other: seq<string>, marker: string, n: nat)
    requires n <= |doc| && n <= |other| && doc[..n] == other[..n]
    requires FindMarker(doc, marker).Some? && FindMarker(doc, marker).value < n
    ensures FindMarker(other, marker) == FindMarker(doc, marker)
  {
    FindMarkerSpec(doc, marker);
    var i := FindMarker(doc, marker).value;
    assert other[i] == doc[..n][i];
    forall j | 0 <= j < i
      ensures Trim(other[j]) != marker
    {
      assert other[j] == doc[..n][j];
    }
    MarkerAt(other, marker, i);
  }

  /** A marker line with no marker line before it is what the search finds. */
  lemma {:induction false} MarkerAt(doc: seq<string>, marker: string, i: nat)
    requires i < |doc| && Trim(doc[i]) == marker
    requires forall j :: 0 <= j < i ==> Trim(doc[j]) != marker
    ensures FindMarker(doc, marker) == Some(i)
  {
    if i > 0 {
      assert Trim(doc[0]) != marker;
      forall j | 0 <= j < i - 1
        ensures Trim(doc[1..][j]) != marker
      {
        assert doc[1..][j] == doc[j + 1];
      }
      MarkerAt(doc[1..], marker, i - 1);
    }
  }

  /** Without a marker line the search finds nothing. */
  lemma {:induction false} NoMarker(doc: seq<string>, marker: string)
    requires forall j :: 0 <= j < |doc| ==> Trim(doc[j]) != marker
    ensures FindMarker(doc, marker).None?
  {
    if doc != [] {
      assert Trim(doc[0]) != marker;
      forall j | 0 <= j < |doc| - 1
        ensures Trim(doc[1..][j]) != marker
      {
        assert doc[1..][j] == doc[j + 1];
      }
      NoMarker(doc[1..], marker);
    }
  }

  /** `${idx + 1}. ${line}`: an activity line with its one-based ordinal. */
  function NumberedLine(idx: nat, line: string): string {
    NatToString(idx + 1) + ". " + line
  }

  /** A numbered line starts with a digit, so it never trims to a marker. */
  lemma NumberedLineIsNotMarker(idx: nat, line: string, marker: string)
    requires marker != [] && !('0' <= marker[0] <= '9')
    ensures Trim(NumberedLine(idx, line)) != marker
  {
    var s := NumberedLine(idx, line);
    assert s[0] == NatToString(idx + 1)[0];
    TrimKeepsFirst(s);
  }

  /** The content lines numbered 1, 2, ... in order. */
  function Numbered(content: seq<string>): seq<string> {
    seq(|content|, k requires 0 <= k < |content| => NumberedLine(k, content[k]))
  }

  /** `doc.splice(at, 0, ...items)`. */
  function SpliceIn(doc: seq<string>, at: nat, items: seq<string>): seq<string>
    requires at <= |doc|
  {
    doc[..at] + items + doc[at..]
  }

  /**
   * First run (no end marker yet): each content line is inserted, numbered,
   * right after the start marker, and the end marker after the last of them.
   */
  method InsertFirstRun(doc: seq<string>, start: nat, content: seq<string>) returns (r: seq<string>)
    requires start < |doc|
    ensures r == doc[..start + 1] + Numbered(content) + [ActivityEnd] + doc[start + 1..]
  {
    var at := start + 1;
    r := doc;
    var idx := 0;
    while idx < |content|
      invariant 0 <= idx <= |content|
      invariant r == doc[..at] + Numbered(content)[..idx] + doc[at..]
    {
      assert r[..at + idx] == doc[..at] + Numbered(content)[..idx];
      assert r[at + idx..] == doc[at..];
      assert Numbered(content)[..idx + 1] == Numbered(content)[..idx] + [NumberedLine(idx, content[idx])];
      r := SpliceIn(r, at + idx, [NumberedLine(idx, content[idx])]);
      idx := idx + 1;
    }
    assert Numbered(content)[..idx] == Numbered(content);
    assert r[..at + |content|] == doc[..at] + Numbered(content);
    assert r[at + |content|..] == doc[at..];
    r := SpliceIn(r, at + |content|, [ActivityEnd]);
  }

  /** How many lines at the head of `content` are non-empty. */
  function LeadingLines(content: seq<string>): (n: nat)
    ensures n <= |content|
    ensures forall k :: 0 <= k < n ==> content[k] != ""
    ensures n < |content| ==> content[n] == ""
  {
    if content == [] || content[0] == "" then 0 else 1 + LeadingLines(content[1..])
  }

  /**
   * Empty region: the numbered lines are inserted right after the start
   * marker, stopping at the first empty content line.
   */
  method InsertIntoEmptyRegion(doc: seq<string>, at: nat, content: seq<string>) returns (r: seq<string>)
    requires at <= |doc|
    ensures r == doc[..at] + Numbered(content[..LeadingLines(content)]) + doc[at..]
  {
    ghost var n := LeadingLines(content);
    r := doc;
    var idx := 0;
    while idx < |content|
      invariant 0 <= idx <= n
      invariant r == doc[..at] + Numbered(content[..n])[..idx] + doc[at..]
    {
      if content[idx] == "" {
        break;
      }
      assert r[..at + idx] == doc[..at] + Numbered(content[..n])[..idx];
      assert r[at + idx..] == doc[at..];
      assert Numbered(content[..n])[..idx + 1] == Numbered(content[..n])[..idx] + [NumberedLine(idx, content[idx])];
      r := SpliceIn(r, at + idx, [NumberedLine(idx, content[idx])]);
      idx := idx + 1;
    }
    assert idx == n;
    assert Numbered(content[..n])[..idx] == Numbered(content[..n]);
  }

  /** How many of the first `i` lines of the section are non-empty. */
  function NonBlankBefore(section: seq<string>, i: nat): (n: nat)
    requires i <= |section|
    ensures n <= i
  {
    if i == 0 then 0 else NonBlankBefore(section, i - 1) + (if section[i - 1] != "" then 1 else 0)
  }

  lemma {:induction false} NonBlankMonotone(section: seq<string>, i: nat, j: nat)
    requires i <= j <= |section|
    ensures NonBlankBefore(section, i) <= NonBlankBefore(section, j)
    decreases j - i
  {
    if i < j {
      NonBlankMonotone(section, i, j - 1);
    }
  }

  /**
   * Line `i` of a non-empty region is overwritten when it is not empty and
   * content is left for it: the non-empty lines before it have not used up
   * the leading non-empty content lines.
   */
  predicate Overwritten(section: seq<string>, content: seq<string>, i: nat)
    requires i < |section|
  {
    section[i] != "" && NonBlankBefore(section, i) < LeadingLines(content)
  }

  /**
   * The region after the in-place update: the k-th non-empty line becomes
   * content line k numbered k+1, for as long as content lasts; empty lines
   * and the lines beyond the content keep their text.
   */
  function Rewritten(section: seq<string>, content: seq<string>): seq<string> {
    seq(|section|, i requires 0 <= i < |section| => RewrittenLine(section, content, i))
  }

  /** Line `i` of the region after the in-place update. */
  function RewrittenLine(section: seq<string>, content: seq<string>, i: nat): string
    requires i < |section|
  {
    if Overwritten(section, content, i)
    then NumberedLine(NonBlankBefore(section, i), content[NonBlankBefore(section, i)])
    else section[i]
  }

  /**
   * Non-empty region: walk its lines, overwriting each non-empty one with
   * the next numbered content line; stop when the content runs out.
   */
  method OverwriteRegion(doc: seq<string>, at: nat, end: nat, content: seq<string>) returns (r: seq<string>)
    requires at < end <= |doc|
    ensures r == doc[..at] + Rewritten(doc[at..end], content) + doc[end..]
  {
    var section := doc[at..end];
    r := doc;
    var count := 0;
    var idx := 0;
    while idx < |section|
      invariant 0 <= idx <= |section|
      invariant count == NonBlankBefore(section, idx) && count <= LeadingLines(content)
      invariant |r| == |doc| && r[..at] == doc[..at] && r[end..] == doc[end..]
      invariant forall k :: 0 <= k < idx ==> r[at + k] == RewrittenLine(section, content, k)
      invariant forall k :: idx <= k < |section| ==> r[at + k] == section[k]
    {
      if count >= |content| || content[count] == "" {
        break;
      }
      assert count < LeadingLines(content);
      if section[idx] != "" {
        assert RewrittenLine(section, content, idx) == NumberedLine(count, content[count]);
        r := r[at + idx := NumberedLine(count, content[count])];
        count := count + 1;
      } else {
        assert RewrittenLine(section, content, idx) == section[idx];
      }
      idx := idx + 1;
    }
    forall k | idx <= k < |section|
      ensures RewrittenLine(section, content, k) == section[k]
    {
      NonBlankMonotone(section, idx, k);
    }
    assert r[at..end] == Rewritten(section, content);
    assert r == r[..at] + r[at..end] + r[end..];
  }

  /** How many of the first `n` lines of the region are overwritten. */
  function OverwrittenCount(section: seq<string>, content: seq<string>, n: nat): nat
    requires n <= |section|
  {
    if n == 0 then 0
    else OverwrittenCount(section, content, n - 1) + (if Overwritten(section, content, n - 1) then 1 else 0)
  }

  /**
   * Exactly min(L, B) lines are overwritten, where L is the number of
   * leading non-empty content lines and B the number of non-empty lines of
   * the region: surplus content is dropped and stale lines stay.
   */
  lemma {:induction false} OverwrittenCountIsMin(section: seq<string>, content: seq<string>, n: nat)
    requires n <= |section|
    ensures var l, b := LeadingLines(content), NonBlankBefore(section, n);
      OverwrittenCount(section, content, n) == if l < b then l else b
  {
    if n > 0 {
      OverwrittenCountIsMin(section, content, n - 1);
    }
  }

  /**
   * The overwritten lines are numbered consecutively from 1: each carries
   * the ordinal one past the number of lines overwritten before it, with
   * the content line of that index.
   */
  lemma RewrittenNumbering(section: seq<string>, content: seq<string>, i: nat)
    requires i < |section| && Overwritten(section, content, i)
    ensures var k := OverwrittenCount(section, content, i);
      k < |content| && Rewritten(section, content)[i] == NumberedLine(k, content[k])
  {
    OverwrittenCountIsMin(section, content, i);
  }

  lemma {:induction false} NonBlankAll(section: seq<string>, i: nat)
    requires i <= |section|
    requires forall k :: 0 <= k < |section| ==> section[k] != ""
    ensures NonBlankBefore(section, i) == i
  {
    if i > 0 {
      NonBlankAll(section, i - 1);
    }
  }

  /**
   * A region without empty lines and no longer than the leading non-empty
   * content is replaced line for line by the numbered content.
   */
  lemma RewrittenWithoutBlanks(section: seq<string>, content: seq<string>)
    requires forall k :: 0 <= k < |section| ==> section[k] != ""
    requires |section| <= LeadingLines(content)
    ensures Rewritten(section, content) == Numbered(content[..|section|])
  {
    forall i | 0 <= i < |section|
      ensures Rewritten(section, content)[i] == Numbered(content[..|section|])[i]
    {
      NonBlankAll(section, i);
    }
  }

  /**
   * The region as the update leaves it when the formatter framed the old
   * lines with empty ones: `p` empty lines, the numbered lines, `q` empty lines.
   */
  function Framed(p: nat, content: seq<string>, q: nat): seq<string> {
    Blanks(p) + Numbered(content) + Blanks(q)
  }

  /** Without empty lines around them, the framed lines are the numbered lines. */
  lemma FramedBare(content: seq<string>)
    ensures Framed(0, content, 0) == Numbered(content)
  {
    assert Blanks(0) == [];
  }

  /** `p` empty lines, then `m` non-empty ones, then `q` empty ones. */
  predicate FramedShape(section: seq<string>, p: nat, m: nat, q: nat) {
    |section| == p + m + q && forall k :: 0 <= k < |section| ==> (section[k] == "" <==> (k < p || p + m <= k))
  }

  lemma {:induction false} NonBlankFramed(section: seq<string>, p: nat, m: nat, q: nat, i: nat)
    requires FramedShape(section, p, m, q) && i <= |section|
    ensures NonBlankBefore(section, i) == if i <= p then 0 else if i <= p + m then i - p else m
  {
    if i > 0 {
      NonBlankFramed(section, p, m, q, i - 1);
    }
  }

  /**
   * A region of `p` empty lines, as many non-empty lines as the content
   * has, and `q` empty lines: the update overwrites the middle lines with
   * the numbered content and keeps the empty lines around them.
   */
  lemma RewrittenFramed(section: seq<string>, content: seq<string>, p: nat, q: nat)
    requires forall k :: 0 <= k < |content| ==> content[k] != ""
    requires FramedShape(section, p, |content|, q)
    ensures Rewritten(section, content) == Framed(p, content, q)
  {
    assert LeadingLines(content) == |content|;
    forall i | 0 <= i < |section|
      ensures Rewritten(section, content)[i] == Framed(p, content, q)[i]
    {
      NonBlankFramed(section, p, |content|, q, i);
      if p <= i < p + |content| {
        assert Framed(p, content, q)[i] == Numbered(content)[i - p];
      }
    }
  }
}
