/**
 * One run of the activity script, end to end: select the activity lines
 * from the events, read the README, find its markers, then either give up,
 * leave it alone, or produce the new README text (the first-run insertion,
 * or the in-place region update followed by the last-update stamp).
 */
module Reconciler {
  import opened StringUtil
  import opened Serializers
  import opened Selection
  import opened Readme
  import opened Timestamp

  /**
   * How a run ends: `tools.exit.failure`, `tools.exit.success` without a
   * write, or a write of the new README text followed by a success exit.
   */
  datatype Outcome =
    | Failure(message: string)
    | Unchanged(message: string)
    | Written(readme: string, message: string)

  const NoStartMessage: string := "Couldn't find the <!--RECENT_ACTIVITY:start--> comment. Exiting!"
  const NoEventsMessage: string := "No PullRequest/Issue/IssueComment events found. Leaving readme unchanged."
  const NoChangesMessage: string := "No changes detected."
  const FirstRunMessage: string := "Wrote to README"
  const PushedMessage: string := "Pushed to remote repository"

  function MissingFileMessage(readmeFile: string): string {
    "Couldn't find the file named " + readmeFile
  }

  /** The README after the first run: numbered lines and the end marker after the start marker. */
  function FirstRun(doc: seq<string>, s: nat, content: seq<string>): seq<string>
    requires s < |doc|
  {
    doc[..s + 1] + Numbered(content) + [ActivityEnd] + doc[s + 1..]
  }

  /** `readmeContent.slice(s + 1, e).join("\n")`; a slice whose end is not past its start is empty. */
  function OldRegion(doc: seq<string>, s: nat, e: nat): string
    requires s < |doc| && e < |doc|
  {
    if s + 1 < e then Join(doc[s + 1..e]) else ""
  }

  /**
   * The README after the region update, before the stamp: the region
   * between the markers is rewritten in place, or, when it is empty, the
   * numbered lines are inserted after the start marker.
   */
  function Updated(doc: seq<string>, s: nat, e: nat, content: seq<string>): seq<string>
    requires s < |doc| && e < |doc|
  {
    if s + 1 < e then doc[..s + 1] + Rewritten(doc[s + 1..e], content) + doc[e..]
    else doc[..s + 1] + Numbered(content[..LeadingLines(content)]) + doc[s + 1..]
  }

  /**
   * What a run does with README text `file` (`None` when it cannot be read)
   * and the selected activity lines `content`, `date` being the rendered
   * DATE_STRING.
   */
  function Reconciled(readmeFile: string, file: Option<string>, content: seq<string>, date: string): Outcome {
    match file
    case None => Failure(MissingFileMessage(readmeFile))
    case Some(text) => ReconciledLines(Split(text), content, date)
  }

  /** What a run does with the README lines `doc`. */
  function ReconciledLines(doc: seq<string>, content: seq<string>, date: string): Outcome {
    match FindMarker(doc, ActivityStart)
    case None => Failure(NoStartMessage)
    case Some(s) =>
      if content == [] then Unchanged(NoEventsMessage)
      else
        match FindMarker(doc, ActivityEnd)
        case None => Written(Join(FirstRun(doc, s, content)), FirstRunMessage)
        case Some(e) => WithRegion(doc, s, e, content, date)
  }

  /**
   * Both markers found: no change when the trimmed old region equals the
   * trimmed new lines, otherwise the region update and the stamp.
   */
  function WithRegion(doc: seq<string>, s: nat, e: nat, content: seq<string>, date: string): Outcome
    requires s < |doc| && e < |doc|
  {
    if Trim(OldRegion(doc, s, e)) == Trim(Join(Numbered(content))) then Unchanged(NoChangesMessage)
    else Written(Join(StampLastUpdate(Updated(doc, s, e, content), date)), PushedMessage)
  }

  /**
   * The script's run: the activity lines are selected from the events, the
   * README is read, and its lines are updated step by step.
   */
  method Run(t: Templates, disabled: seq<string>, maxLines: nat, events: seq<Event>,
             readmeFile: string, file: Option<string>, dateTemplate: string, now: DateParts)
    returns (out: Outcome)
    requires maxLines >= 1 && now.hours < 24
    ensures out == Reconciled(readmeFile, file, Selected(t, disabled, maxLines, events), FormatDate(dateTemplate, now))
  {
    var content := SelectActivity(t, disabled, maxLines, events);
    if file.None? {
      return Failure(MissingFileMessage(readmeFile));
    }
    out := Reconcile(Split(file.value), content, FormatDate(dateTemplate, now));
  }

  /** The README half of a run, on its lines. */
  method Reconcile(doc: seq<string>, content: seq<string>, date: string) returns (out: Outcome)
    ensures out == ReconciledLines(doc, content, date)
  {
    var startIdx := FindMarker(doc, ActivityStart);
    if startIdx.None? {
      return Failure(NoStartMessage);
    }
    var endIdx := FindMarker(doc, ActivityEnd);
    if content == [] {
      return Unchanged(NoEventsMessage);
    }
    var start := startIdx.value;
    if endIdx.None? {
      var readme := InsertFirstRun(doc, start, content);
      return Written(Join(readme), FirstRunMessage);
    }
    var end := endIdx.value;
    var oldContent := if start + 1 < end then Join(doc[start + 1..end]) else "";
    if Trim(oldContent) == Trim(Join(Numbered(content))) {
      return Unchanged(NoChangesMessage);
    }
    var readme := UpdateRegion(doc, start, end, content);
    readme := StampLastUpdate(readme, date);
    return Written(Join(readme), PushedMessage);
  }

  /** The region update after the start marker at `s`, the end marker being at `e`. */
  method UpdateRegion(doc: seq<string>, s: nat, e: nat, content: seq<string>) returns (r: seq<string>)
    requires s < |doc| && e < |doc|
    ensures r == Updated(doc, s, e, content)
  {
    if s + 1 < e {
      r := OverwriteRegion(doc, s + 1, e, content);
    } else {
      r := InsertIntoEmptyRegion(doc, s + 1, content);
    }
  }

  // ---------------------------------------------------------------------------
  // Running again on what a run wrote.

  predicate NoNewlines(lines: seq<string>) {
    forall k :: 0 <= k < |lines| ==> '\n' !in lines[k]
  }

  lemma NumberedNoNewlines(content: seq<string>)
    requires NoNewlines(content)
    ensures NoNewlines(Numbered(content))
  {
    forall k | 0 <= k < |content|
      ensures '\n' !in Numbered(content)[k]
    {
      var digits := NatToString(k + 1);
      assert Numbered(content)[k] == digits + ". " + content[k];
      assert forall c :: c in digits ==> '0' <= c <= '9';
    }
  }

  /**
   * Right after the start marker at `s` come the numbered content lines,
   * framed by `p` and `q` empty lines, and then an end marker, and no end
   * marker comes earlier: the search finds that end marker, since neither
   * an empty line nor a numbered line trims to a marker.
   */
  lemma EndAfterFramed(d: seq<string>, s: nat, e: nat, content: seq<string>, marker: string, p: nat, q: nat)
    requires marker != [] && !('0' <= marker[0] <= '9')
    requires e == s + 1 + p + |content| + q && e < |d|
    requires forall j :: 0 <= j <= s ==> Trim(d[j]) != marker
    requires d[s + 1..e] == Framed(p, content, q)
    requires Trim(d[e]) == marker
    ensures FindMarker(d, marker) == Some(e)
  {
    SplicedFramed(d, s, e, content, marker, p, q);
    MarkerAt(d, marker, e);
  }

  lemma ActivityEndTrims()
    ensures Trim(ActivityEnd) == ActivityEnd
  {
    TrimOfTrimmed(ActivityEnd);
  }

  lemma FirstRunNoNewlines(doc: seq<string>, s: nat, content: seq<string>)
    requires s < |doc| && NoNewlines(doc) && NoNewlines(content)
    ensures NoNewlines(FirstRun(doc, s, content))
  {
    var d := FirstRun(doc, s, content);
    var e: nat := s + 1 + |content|;
    NumberedNoNewlines(content);
    forall k | 0 <= k < |d|
      ensures '\n' !in d[k]
    {
      if s < k < e {
        assert d[k] == Numbered(content)[k - s - 1];
      } else if k > e {
        assert d[k] == doc[k - 1 - |content|];
      }
    }
  }

  /**
   * Lines where the start marker at `s` is followed by the numbered
   * activity lines and then the end marker: a run with that activity
   * reports no change.
   */
  lemma RegionMatches(d: seq<string>, s: nat, e: nat, content: seq<string>, later: string, p: nat, q: nat)
    requires content != [] && e == s + 1 + p + |content| + q
    requires FindMarker(d, ActivityStart) == Some(s) && FindMarker(d, ActivityEnd) == Some(e)
    requires d[s + 1..e] == Framed(p, content, q)
    ensures ReconciledLines(d, content, later) == Unchanged(NoChangesMessage)
  {
    assert OldRegion(d, s, e) == Join(Framed(p, content, q));
    FramedTrims(p, content, q);
    assert WithRegion(d, s, e, content, later) == Unchanged(NoChangesMessage);
  }

  /** The empty lines around the numbered lines vanish under `trim`. */
  lemma FramedTrims(p: nat, content: seq<string>, q: nat)
    requires content != []
    ensures Trim(Join(Framed(p, content, q))) == Trim(Join(Numbered(content)))
  {
    var n := Numbered(content);
    JoinFramed(p, n, q);
    assert NatToString(1) == "1";
    assert n[0] == "1" + ". " + content[0];
    if |n| > 1 {
      assert Join(n) == n[0] + "\n" + Join(n[1..]);
    }
    assert Join(n)[0] == '1';
    TrimFramed(Newlines(p), Join(n), Newlines(q));
  }

  /**
   * On the lines the first run produced the search finds the start marker
   * where it was and the end marker right after the numbered lines.
   */
  lemma FirstRunMarkers(doc: seq<string>, s: nat, content: seq<string>, d: seq<string>, e: nat)
    requires FindMarker(doc, ActivityStart) == Some(s) && FindMarker(doc, ActivityEnd).None?
    requires d == FirstRun(doc, s, content) && e == s + 1 + |content|
    ensures FindMarker(d, ActivityStart) == Some(s) && FindMarker(d, ActivityEnd) == Some(e)
    ensures d[s + 1..e] == Numbered(content)
  {
    FirstRunShape(doc, s, content, d, e);
    FindMarkerSamePrefix(doc, d, ActivityStart, s + 1);
    FindMarkerSpec(doc, ActivityEnd);
    forall j | 0 <= j <= s
      ensures Trim(d[j]) != ActivityEnd
    {
      assert d[j] == doc[..s + 1][j];
    }
    ActivityEndTrims();
    FramedBare(content);
    EndAfterFramed(d, s, e, content, ActivityEnd, 0, 0);
  }

  /** The first run keeps the lines up to the start marker, then writes the numbered lines and the end marker. */
  lemma FirstRunShape(doc: seq<string>, s: nat, content: seq<string>, d: seq<string>, e: nat)
    requires s < |doc| && d == FirstRun(doc, s, content) && e == s + 1 + |content|
    ensures e < |d| && d[..s + 1] == doc[..s + 1] && d[s + 1..e] == Numbered(content) && d[e] == ActivityEnd
  {
  }

  /**
   * On the lines the first run produced, a second run with the same
   * activity finds both markers around the new lines and reports no change.
   */
  lemma FirstRunLinesUnchanged(doc: seq<string>, s: nat, content: seq<string>, later: string)
    requires FindMarker(doc, ActivityStart) == Some(s) && FindMarker(doc, ActivityEnd).None?
    requires content != []
    ensures ReconciledLines(FirstRun(doc, s, content), content, later) == Unchanged(NoChangesMessage)
  {
    var d := FirstRun(doc, s, content);
    var e: nat := s + 1 + |content|;
    FirstRunMarkers(doc, s, content, d, e);
    FramedBare(content);
    RegionMatches(d, s, e, content, later, 0, 0);
  }

  /**
   * The first run writes the numbered lines and the end marker; a second
   * run over the text it wrote, with the same activity, leaves the README
   * alone.
   */
  lemma FirstRunThenUnchanged(readmeFile: string, text: string, content: seq<string>, date: string, later: string)
    requires FindMarker(Split(text), ActivityStart).Some? && FindMarker(Split(text), ActivityEnd).None?
    requires content != [] && NoNewlines(content)
    ensures var doc := Split(text);
      var out := Join(FirstRun(doc, FindMarker(doc, ActivityStart).value, content));
      Reconciled(readmeFile, Some(text), content, date) == Written(out, FirstRunMessage) &&
      Reconciled(readmeFile, Some(out), content, later) == Unchanged(NoChangesMessage)
  {
    var doc := Split(text);
    var s := FindMarker(doc, ActivityStart).value;
    var d := FirstRun(doc, s, content);
    FirstRunNoNewlines(doc, s, content);
    SplitJoin(d);
    FirstRunLinesUnchanged(doc, s, content, later);
  }

  /**
   * The region between the markers at `s` and `e` is empty (and `p`, `q`
   * are zero), or it holds `p` empty lines, `m` non-empty lines and `q`
   * empty lines.
   */
  predicate FitsRegion(doc: seq<string>, s: nat, e: nat, m: nat, p: nat, q: nat) {
    s < e <= |doc| && ((s + 1 == e && p == 0 && q == 0) || FramedShape(doc[s + 1..e], p, m, q))
  }

  /**
   * When the region holds one non-empty line per activity line, framed by
   * empty lines, or is empty with the end marker right below the start
   * marker, the update leaves exactly the numbered lines between the
   * markers, framed by the same empty lines.
   */
  lemma UpdatedFits(doc: seq<string>, s: nat, e: nat, content: seq<string>, p: nat, q: nat)
    requires e < |doc| && FitsRegion(doc, s, e, |content|, p, q)
    requires forall k :: 0 <= k < |content| ==> content[k] != ""
    ensures Updated(doc, s, e, content) == doc[..s + 1] + Framed(p, content, q) + doc[e..]
  {
    assert LeadingLines(content) == |content|;
    if s + 1 < e {
      RewrittenFramed(doc[s + 1..e], content, p, q);
    } else {
      assert content[..|content|] == content;
      FramedBare(content);
    }
  }

  /**
   * After the numbered lines are spliced between the markers, the search
   * finds the start marker where it was and the end marker right after
   * the numbered lines.
   */
  lemma SplicedMarkers(doc: seq<string>, s: nat, e: nat, content: seq<string>, u: seq<string>, end: nat, p: nat, q: nat)
    requires FindMarker(doc, ActivityStart) == Some(s) && FindMarker(doc, ActivityEnd) == Some(e) && s < e
    requires u == doc[..s + 1] + Framed(p, content, q) + doc[e..] && end == s + 1 + p + |content| + q
    ensures FindMarker(u, ActivityStart) == Some(s) && FindMarker(u, ActivityEnd) == Some(end)
    ensures u[s + 1..end] == Framed(p, content, q)
  {
    assert u[..s + 1] == doc[..s + 1];
    FindMarkerSamePrefix(doc, u, ActivityStart, s + 1);
    FindMarkerSpec(doc, ActivityEnd);
    forall j | 0 <= j <= s
      ensures Trim(u[j]) != ActivityEnd
    {
      assert u[j] == doc[j];
    }
    assert u[end] == doc[e];
    EndAfterFramed(u, s, end, content, ActivityEnd, p, q);
  }

  /**
   * When no last-update marker comes before the end marker, none comes
   * before it after the splice either.
   */
  lemma SplicedNoLastUpdate(doc: seq<string>, s: nat, e: nat, content: seq<string>, u: seq<string>, end: nat, p: nat, q: nat)
    requires FindMarker(doc, ActivityEnd) == Some(e) && s < e
    requires FindMarker(doc, LastUpdateStart).None? || FindMarker(doc, LastUpdateStart).value > e
    requires u == doc[..s + 1] + Framed(p, content, q) + doc[e..] && end == s + 1 + p + |content| + q
    ensures forall j :: 0 <= j <= end ==> Trim(u[j]) != LastUpdateStart
  {
    FindMarkerSpec(doc, LastUpdateStart);
    forall j | 0 <= j <= s
      ensures Trim(u[j]) != LastUpdateStart
    {
      assert u[j] == doc[j];
    }
    assert u[s + 1..end] == Framed(p, content, q);
    LastUpdateMarkersDiffer();
    SplicedFramed(u, s, end, content, LastUpdateStart, p, q);
    FindMarkerSpec(doc, ActivityEnd);
    assert u[end] == doc[e];
  }

  /** The lines of a framed region, empty or numbered, never trim to a marker. */
  lemma SplicedFramed(u: seq<string>, s: nat, end: nat, content: seq<string>, marker: string, p: nat, q: nat)
    requires marker != [] && !('0' <= marker[0] <= '9')
    requires s < end <= |u| && u[s + 1..end] == Framed(p, content, q)
    ensures forall j :: s < j < end ==> Trim(u[j]) != marker
  {
    forall j | s < j < end
      ensures Trim(u[j]) != marker
    {
      var k := j - s - 1;
      assert u[j] == Framed(p, content, q)[k];
      if p <= k < p + |content| {
        assert u[j] == Numbered(content)[k - p];
        NumberedLineIsNotMarker(k - p, content[k - p], marker);
      } else {
        assert u[j] == "";
      }
    }
  }

  lemma LastUpdateMarkersDiffer()
    ensures Trim(ActivityEnd) == ActivityEnd != LastUpdateStart
    ensures LastUpdateStart != [] && !('0' <= LastUpdateStart[0] <= '9')
  {
    ActivityEndTrims();
  }

  /**
   * Lines that agree with `u` up to its end marker have the same markers
   * and the same region.
   */
  lemma RegionKept(u: seq<string>, r: seq<string>, s: nat, end: nat, startMarker: string, endMarker: string)
    requires FindMarker(u, startMarker) == Some(s) && FindMarker(u, endMarker) == Some(end)
    requires s < end < |r| && r[..end + 1] == u[..end + 1]
    ensures FindMarker(r, startMarker) == Some(s) && FindMarker(r, endMarker) == Some(end)
    ensures r[s + 1..end] == u[s + 1..end]
  {
    FindMarkerSamePrefix(u, r, startMarker, end + 1);
    FindMarkerSamePrefix(u, r, endMarker, end + 1);
    assert r[s + 1..end] == r[..end + 1][s + 1..end];
    assert u[s + 1..end] == u[..end + 1][s + 1..end];
  }

  /** The stamp writes the date and the end marker, neither with a newline. */
  lemma StampNoNewlines(d: seq<string>, date: string)
    requires NoNewlines(d) && '\n' !in date
    ensures NoNewlines(StampLastUpdate(d, date))
  {
    var found := FindMarker(d, LastUpdateStart);
    if found.Some? {
      assert '\n' !in LastUpdateEnd;
      StampAtNoNewlines(d, found.value, LastUpdateEnd, date);
    }
  }

  /** A stamp at `s` keeps the lines free of newlines when the date and the end marker are. */
  lemma StampAtNoNewlines(d: seq<string>, s: nat, endMarker: string, date: string)
    requires s < |d| && NoNewlines(d) && '\n' !in date && '\n' !in endMarker
    ensures NoNewlines(StampAt(d, Some(s), endMarker, date))
  {
    var r := StampAt(d, Some(s), endMarker, date);
    if EndMarkerInPlace(d, s, endMarker) {
      forall k | 0 <= k < |r|
        ensures '\n' !in r[k]
      {
        if k <= s {
          assert r[k] == r[..s + 1][k] == d[..s + 1][k];
        } else if k > s + 1 {
          assert r[k] == r[s + 2..][k - s - 2] == d[s + 2..][k - s - 2];
        }
      }
    } else {
      forall k | 0 <= k < |r|
        ensures '\n' !in r[k]
      {
        if k <= s {
          assert r[k] == r[..s + 1][k] == d[..s + 1][k];
        } else if k > s + 2 {
          assert r[k] == r[s + 3..][k - s - 3] == d[s + 1..][k - s - 3];
        }
      }
    }
  }

  lemma SplicedNoNewlines(doc: seq<string>, s: nat, e: nat, content: seq<string>, u: seq<string>, p: nat, q: nat)
    requires s < e <= |doc| && NoNewlines(doc) && NoNewlines(content)
    requires u == doc[..s + 1] + Framed(p, content, q) + doc[e..]
    ensures NoNewlines(u)
  {
    var end := s + 1 + p + |content| + q;
    NumberedNoNewlines(content);
    forall k | 0 <= k < |u|
      ensures '\n' !in u[k]
    {
      if s < k < end {
        assert u[k] == Framed(p, content, q)[k - s - 1];
        if s + p < k < s + 1 + p + |content| {
          assert u[k] == Numbered(content)[k - s - 1 - p];
        }
      } else if k >= end {
        assert u[k] == doc[k - end + e];
      }
    }
  }

  /**
   * An update run where the region had one non-empty line per activity
   * line, framed by empty lines (or was empty, with the end marker right
   * below the start marker), and no last-update marker precedes the end
   * marker: a second run over what it wrote, with the same activity,
   * leaves the README alone.
   */
  lemma UpdateLinesUnchanged(doc: seq<string>, s: nat, e: nat, content: seq<string>, date: string, later: string, p: nat, q: nat)
    requires FindMarker(doc, ActivityStart) == Some(s) && FindMarker(doc, ActivityEnd) == Some(e)
    requires FitsRegion(doc, s, e, |content|, p, q)
    requires FindMarker(doc, LastUpdateStart).None? || FindMarker(doc, LastUpdateStart).value > e
    requires content != [] && NoNewlines(doc) && NoNewlines(content) && '\n' !in date
    requires forall k :: 0 <= k < |content| ==> content[k] != ""
    ensures var r := StampLastUpdate(Updated(doc, s, e, content), date);
      Split(Join(r)) == r && ReconciledLines(r, content, later) == Unchanged(NoChangesMessage)
  {
    var u := doc[..s + 1] + Framed(p, content, q) + doc[e..];
    var end: nat := s + 1 + p + |content| + q;
    UpdatedFits(doc, s, e, content, p, q);
    SplicedMarkers(doc, s, e, content, u, end, p, q);
    SplicedNoLastUpdate(doc, s, e, content, u, end, p, q);
    SplicedNoNewlines(doc, s, e, content, u, p, q);
    StampedRegionUnchanged(u, s, end, content, date, later, p, q);
  }

  /**
   * Stamping lines whose activity region is already the numbered lines
   * (framed by empty lines),
   * with no last-update marker above its end marker: the stamped lines
   * read back as written and a run with that activity reports no change.
   */
  lemma StampedRegionUnchanged(u: seq<string>, s: nat, end: nat, content: seq<string>, date: string, later: string, p: nat, q: nat)
    requires content != [] && end == s + 1 + p + |content| + q
    requires FindMarker(u, ActivityStart) == Some(s) && FindMarker(u, ActivityEnd) == Some(end)
    requires u[s + 1..end] == Framed(p, content, q)
    requires forall j :: 0 <= j <= end ==> Trim(u[j]) != LastUpdateStart
    requires NoNewlines(u) && '\n' !in date
    ensures var r := StampLastUpdate(u, date);
      Split(Join(r)) == r && ReconciledLines(r, content, later) == Unchanged(NoChangesMessage)
  {
    var r := StampLastUpdate(u, date);
    StampedMarkers(u, s, end, date);
    StampNoNewlines(u, date);
    SplitJoin(r);
    RegionMatches(r, s, end, content, later, p, q);
  }

  /** A stamp below the activity end marker keeps both markers and the region between them. */
  lemma StampedMarkers(u: seq<string>, s: nat, end: nat, date: string)
    requires s < end && FindMarker(u, ActivityStart) == Some(s) && FindMarker(u, ActivityEnd) == Some(end)
    requires forall j :: 0 <= j <= end ==> Trim(u[j]) != LastUpdateStart
    ensures var r := StampLastUpdate(u, date);
      FindMarker(r, ActivityStart) == Some(s) && FindMarker(r, ActivityEnd) == Some(end) && r[s + 1..end] == u[s + 1..end]
  {
    var r := StampLastUpdate(u, date);
    StampKeepsPrefix(u, end + 1, date);
    RegionKept(u, r, s, end, ActivityStart, ActivityEnd);
  }

  /** `UpdateLinesUnchanged` on the README text. */
  lemma UpdateThenUnchanged(readmeFile: string, text: string, s: nat, e: nat, content: seq<string>, date: string, later: string, p: nat, q: nat)
    requires FindMarker(Split(text), ActivityStart) == Some(s) && FindMarker(Split(text), ActivityEnd) == Some(e)
    requires FitsRegion(Split(text), s, e, |content|, p, q)
    requires FindMarker(Split(text), LastUpdateStart).None? || FindMarker(Split(text), LastUpdateStart).value > e
    requires content != [] && NoNewlines(content) && '\n' !in date
    requires forall k :: 0 <= k < |content| ==> content[k] != ""
    ensures var out := Reconciled(readmeFile, Some(text), content, date);
      out.Written? ==> Reconciled(readmeFile, Some(out.readme), content, later) == Unchanged(NoChangesMessage)
  {
    UpdateLinesUnchanged(Split(text), s, e, content, date, later, p, q);
  }
}
