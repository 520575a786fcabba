# Recent GitHub activity in a README, modelled in Dafny

The activity script (`index.js`) is a scheduled action that keeps a block of
"recent activity" in a profile README. One run does the following:

1. It takes the user's public events and keeps those whose type has a serializer.
   Comments, issues and pull requests each have one, unless their group is named in DISABLE_EVENTS.
2. It turns each event into a line by filling the user's templates.
   The `{ID}`, `{REPO}` and `{URL}` placeholders become Markdown links.
3. It collects up to MAX_LINES non-empty lines.
4. It finds the `<!--RECENT_ACTIVITY:start-->` and `<!--RECENT_ACTIVITY:end-->` markers among the README's lines.
5. Then it does one of the following:
   - gives up when there is no start marker;
   - stops without writing when there is nothing to report, or when the old region already reads the same;
   - on a first run, inserts the numbered lines and an end marker;
   - otherwise, writes the numbered lines into the region and stamps the date between the last-update markers.
     An empty region gets the lines inserted after the start marker.
     A non-empty region has its non-empty lines overwritten in place, and its empty lines are kept.

The project has one module per concern:

- `StringUtil` (`string_util.dfy`) holds the JavaScript string operations the script relies on:
  - `trim`;
  - `split("\n")` / `join("\n")`;
  - `indexOf`;
  - `replace` with a string pattern (first occurrence) and with a global literal pattern (every occurrence);
  - decimal rendering.
- `Serializers` (`serializers.dfy`) holds the serializers, the placeholder links, and which template each event gets.
- `Selection` (`selection.dfy`) holds the event filter and the line-collecting loop.
- `Readme` (`readme.dfy`) holds the marker search and the three ways the activity region is written:
  - the first-run insertion;
  - the insertion into an empty region;
  - the in-place overwrite.
- `Timestamp` (`timestamp.dfy`) holds the DATE_STRING rendering, the last-update stamp and the timezone offset.
- `Reconciler` (`reconciler.dfy`) holds one whole run:
  - `Run`, `Reconcile` and `UpdateRegion` follow the script step by step;
  - the functions `Reconciled`, `ReconciledLines` and `WithRegion` state the outcome of a run declaratively;
  - lemmas show that a second run over what a run wrote reports "No changes detected.".

The following are parameters of the model:

- the events;
- the README text (`None` when it cannot be read);
- the templates;
- the disabled groups;
- the calendar fields of the shifted clock.

Where the script mutates its line array to write the activity region, the methods reassign a `seq<string>` step by step. This covers the `splice` loops of the first run and of an empty region, and the index assignment of the overwrite loop.
The last-update stamp (`splice` or index assignment, index.js:380-389) is the function `Timestamp.StampAt`, which returns the new lines.

## Model

| member | source | states |
|---|---|---|
| StringUtil.TrimSpec | index.js:244-245 | `trim` returns the infix left after dropping only whitespace from both ends, and neither end of the result is whitespace |
| StringUtil.SplitJoin | index.js:238 | Splitting at "\n" recovers the lines that joining with "\n" produced, for any non-empty list of lines free of newlines |
| StringUtil.JoinSplit | index.js:393 | Joining the pieces of a split gives back the original text, so writing an unchanged line list back changes nothing |
| StringUtil.IndexOfSpec | index.js:353-356 | The index found is the first occurrence of the token, and "not found" means it occurs nowhere |
| StringUtil.ReplaceFirstAtFirst | index.js:353-356 | For an occurrence of the pattern with none before it, a string-pattern replace keeps the text before and after that occurrence and puts the replacement in its place, so only the first occurrence changes |
| StringUtil.ReplaceFirstWithout | index.js:353-356 | A string-pattern replace returns a text in which the pattern occurs nowhere unchanged |
| StringUtil.ReplaceAllSkip | index.js:132-134 | A global replace leaves a prefix that cannot start the pattern untouched and continues after it |
| StringUtil.ReplaceAllAtOccurrence | index.js:132-134 | For an occurrence of the pattern with none before it, a global replace keeps the text before it, puts the replacement in its place, and goes on replacing in the rest |
| StringUtil.ReplaceAllWithout | index.js:132-134 | A global replace returns a text in which the pattern occurs nowhere unchanged |
| StringUtil.JoinFramed | index.js:297-299 | Joining a list framed by empty lines gives one newline per leading empty line, the joined list, then one newline per trailing empty line |
| StringUtil.TrimFramed | index.js:302 | Whitespace around a text that starts with a non-whitespace character is dropped by `trim`, so the trimmed result is that of the text alone |
| StringUtil.NatToStringValue | index.js:76 | The decimal rendering of a number reads back as that number |
| Timestamp.TwoDigit | index.js:49-55 | `to2Digit` yields decimal digits that denote the number, and exactly two of them for numbers below 100 |
| Serializers.LinksHaveNoBrace | index.js:73-80 | For a repository name without `{`, the issue/pull-request link and the repository link contain no `{`, so the later placeholder replaces cannot touch them |
| Serializers.CustomUrlIsExpand | index.js:57-71 | For every URL_TEXT, `makeCustomUrl` is a Markdown link to the issue or pull request whose text is URL_TEXT read once from left to right: each `{ID}` becomes "#" and the number, each `{REPO}` the repository name, and every other character stays |
| Serializers.LinkTextIsExpand | index.js:59-63 | The two global replaces on URL_TEXT (`{ID}`, then `{REPO}`) equal that single left-to-right reading, whatever the repository name contains |
| Serializers.TypeNameRoundTrip | index.js:127-213 | Reading an event type name and writing it back gives the name; a type read from its name is that type, so no other event passes for one with a serializer |
| Serializers.CategoriesDisjoint | index.js:167-185 | An event matches at most one of the six activity categories, so the template choice is unambiguous |
| Serializers.SerializeByCategory | index.js:127-199 | The line for an event is its category's template with the placeholders filled in, and the empty string when the event falls into no category |
| Serializers.MergedPullRequestUsesMergedTemplate | index.js:172-175 | A merged closed pull request is reported with PR_MERGED, never PR_CLOSED |
| Serializers.OpenedPullRequestUsesOpenedTemplate | index.js:168-171 | An opened pull request is reported with PR_OPENED, whatever its merge flag |
| Serializers.OtherActionsAreSkipped | index.js:130-185 | Actions other than created/opened/closed, on an unmerged event, serialize to the empty string |
| Serializers.FillIsExpand | index.js:132-134 | For any template, the chain of three global replaces equals a single left-to-right pass in which each `{ID}`, `{REPO}` and `{URL}` becomes its link and every other character stays, when the repository name has no `{` |
| Serializers.FillWithoutPlaceholders | index.js:132-134 | A template without `{` is written out unchanged |
| Serializers.IdInRepoExample | index.js:132-134 | "{ID} in {REPO}" becomes the issue link, " in ", then the repository link |
| Selection.WithSerializer | index.js:211-213 | The filter keeps only events whose type has a serializer, keeps every such event, and never lengthens the feed |
| Selection.WithSerializerAppend | index.js:211-213 | Filtering a concatenated feed is filtering each part and concatenating, so the filter keeps feed order |
| Selection.WithSerializerSingle | index.js:211-213 | A single event is kept exactly when its type has a serializer |
| Selection.CollectLines | index.js:215-226 | The loop yields the first MAX_LINES non-empty serializations, in feed order |
| Selection.SelectActivity | index.js:211-228 | The activity lines are exactly the selection: filter, serialize, drop empties, cap at MAX_LINES |
| Selection.SelectedLines | index.js:211-228 | The selection has at most MAX_LINES lines, none empty, and each is the line of a feed event whose type has a serializer |
| Selection.DisabledTypeIgnored | index.js:129-213 | When a type's group is disabled, removing all events of that type from the feed does not change the activity lines |
| Readme.FindMarkerSpec | index.js:244-258 | `findIndex` on trimmed lines yields the first line equal to the marker, and "not found" means no line matches |
| Readme.FindMarkerSamePrefix | index.js:335-337 | The marker search depends only on the lines up to the first match |
| Readme.MarkerAt | index.js:244-258 | A line that matches the marker, with no match above it, is the one found |
| Readme.NoMarker | index.js:244-258 | Without a matching line the search reports none |
| Readme.NumberedLineIsNotMarker | index.js:273-275 | A numbered activity line never trims to a marker that starts with a non-digit |
| Readme.InsertFirstRun | index.js:270-282 | On a first run the numbered lines, then the end marker, are placed right after the start marker, and all other lines keep their order |
| Readme.LeadingLines | index.js:310-316 | The count of leading non-empty content lines: all before it are non-empty, and the next one (if any) is empty |
| Readme.InsertIntoEmptyRegion | index.js:309-317 | An empty region receives the numbered leading non-empty content lines right after the start marker |
| Readme.OverwriteRegion | index.js:318-333 | The in-place update keeps the lines outside the region, and rewrites the region as the reference `Rewritten` describes |
| Readme.OverwrittenCountIsMin | index.js:320-331 | The number of lines overwritten is the smaller of the region's non-empty lines and the leading non-empty content lines |
| Readme.RewrittenNumbering | index.js:327-329 | Each overwritten region line is content line k numbered k+1, k being how many lines were overwritten before it |
| Readme.RewrittenWithoutBlanks | index.js:320-331 | A region of non-empty lines, no longer than the content, becomes exactly the first numbered content lines |
| Readme.RewrittenFramed | index.js:318-331 | A region of empty lines, one non-empty line per content line, then empty lines (as a code formatter leaves it) becomes the numbered content lines between the same empty lines |
| Timestamp.Hour12 | index.js:362-370 | The twelve-hour value agrees with the hour modulo 12, and equals the hour exactly when the hour is at most 12 |
| Timestamp.UpperAscii | index.js:374 | Upper-casing keeps the length and raises exactly the ASCII lower-case letters |
| Timestamp.FormatDateWithoutTokens | index.js:353-378 | A DATE_STRING without tokens is written out as it is |
| Timestamp.DateLayout | index.js:353-356 | The DATE_STRING "DD/MM/YYYY" renders as day, "/", month, "/", full year, each in plain decimal: the later replaces do not touch the digits and slashes already written |
| Timestamp.TwelveHourLayout | index.js:358-378 | The DATE_STRING "hh:mm aa" renders as the two-digit twelve-hour value, ":", the two-digit minutes, " ", then "am" or "pm" |
| Timestamp.RepeatedDayLayout | index.js:353-356 | In "DD DD YY" only the first "DD" becomes the day and the second stays as written; "YY" becomes the year modulo 100 without zero padding, "YYYY" finding nothing before it |
| Timestamp.ClockLayout | index.js:358-378 | "HH:ss AA" renders as the two-digit 24-hour value, ":", the two-digit seconds, " ", then "AM" or "PM" |
| Timestamp.MidnightIsZeroAm | index.js:362-370 | At 0 h the twelve-hour clock shows "00" am |
| Timestamp.NoonIsTwelveAm | index.js:362-370 | At 12 h the twelve-hour clock shows "12" am |
| Timestamp.OnePmIsZeroOnePm | index.js:362-370 | At 13 h the twelve-hour clock shows "01" pm |
| Timestamp.StampAt | index.js:380-389 | The stamp keeps everything up to the start marker and puts the date after it. If the end marker sits two lines below, only the date line changes; otherwise the date and an end marker are inserted and the rest shifts down by two |
| Timestamp.StampPlacesEndMarker | index.js:380-389 | After a stamp the end marker sits exactly two lines below the start marker |
| Timestamp.StampAtTwice | index.js:380-389 | Stamping twice at the same start marker equals stamping once with the later date, so end markers never pile up |
| Timestamp.StampKeepsPrefix | index.js:335-389 | The stamp changes nothing above the last-update start marker |
| Timestamp.StampLastUpdateTwice | index.js:335-389 | Two runs' stamps equal one stamp with the later date |
| Timestamp.SignedOffset | index.js:346-348 | "±HH:MM" read with the sign on the whole offset: zero exactly for 00:00, negative only for a "-" offset, magnitude HH*60+MM |
| Timestamp.ParsedOffsetAgreement | index.js:346-348 | The script's parse agrees with the signed reading exactly when the offset is positive or has no minutes |
| Timestamp.NegativeHalfHourOffset | index.js:346-348 | "-05:30" is parsed as -270 minutes, where the signed reading gives -330 |
| Timestamp.ShownClockError | index.js:346-351 | For a negative offset with minutes, the shown clock is off by twice the minutes from the clock the signed offset gives; for a positive offset the two agree |
| Reconciler.UpdateRegion | index.js:305-333 | The region update is the in-place overwrite of a non-empty region, or the insertion into an empty one |
| Reconciler.Reconcile | index.js:243-393 | Working on the README lines gives the declared outcome, one of: failure without a start marker; no write without activity; the first-run insertion without an end marker; no write when the trimmed region already matches; otherwise the updated and stamped README |
| Reconciler.Run | index.js:211-402 | A whole run: a missing file fails with the file name, otherwise the outcome on the selected lines and the rendered date |
| Reconciler.RegionMatches | index.js:297-303 | When the region between the markers already holds the numbered lines, framed by any number of empty lines, the run stops with "No changes detected." |
| Reconciler.FirstRunThenUnchanged | index.js:270-303 | After a first-run insertion, running again with the same activity changes nothing |
| Reconciler.UpdatedFits | index.js:305-333 | An empty region ends up holding exactly the numbered activity lines; a region of empty lines, as many non-empty lines as there is activity, then empty lines, ends up holding the numbered activity lines between the same empty lines |
| Reconciler.UpdateThenUnchanged | index.js:297-393 | After an update that fits the region (empty, or with empty lines only before and after the activity lines), running again with the same activity changes nothing, whatever the new date |

## Left out

- Fetching the events (`listPublicEventsForUser`, network): the events are a parameter, already in feed order.
- Reading and writing the README file: the text is a parameter (`None` when the read fails); the written text is the `Written` outcome.
- Committing and pushing (`commitFile`, `exec`, git): not modelled. The commit-failure exit is not modelled either; a write is reported with the script's success message.
- The action inputs (`core.getInput`): they become parameters.
- Lower-casing, splitting and trimming DISABLE_EVENTS: not modelled; the disabled groups are given as a list.
- Logging (`tools.log`, "Found less than … activities", the success log lines): it has no effect on the README.
- The clock and the calendar: `new Date()`, the host's timezone offset, and the conversion of an instant into day/month/year/hours/minutes/seconds. The calendar fields are a parameter. The offset arithmetic is modelled separately (`ShiftedInstant`, `ParsedOffset`); the run does not use it.
- Parsing TIMEZONE_OFFSET (`replace("GMT", "")`, `split(":")`, `parseInt`): the offset functions take the sign and the two numbers already parsed. A malformed offset is not modelled:
  - Digits that do not parse give NaN.
  - An offset without ":" throws at index.js:348 whenever the last-update marker is present, because `timezone[1]` is undefined. Examples are "+0530", or an empty offset once "GMT" is removed. The run then ends before the write at index.js:393, while `Reconciler.Run` reports the updated README as written.
- Reconciler.Run: requires MAX_LINES of at least 1. A non-numeric or zero MAX_LINES, which the script compares loosely with `==`, is not modelled.
- `$` sequences in replacement strings (`$&` and the like): not interpreted. Templates and links are assumed free of them, and replacement is literal.
- `capitalize`: defined but never called.
- Timestamp.StampAt: the stamp is a function from the old lines to the new ones. The in-place `splice` or index assignment on the shared array is not modelled as a state change.
- Aliasing of the README array: the script mutates one array in place; the model reassigns a sequence, so aliasing is not modelled.
- Reconciler.FirstRunThenUnchanged: proved for activity lines without newlines, and for a README with a start marker and no end marker.
- Reconciler.UpdateThenUnchanged: proved when the region is empty, or holds some empty lines, exactly one non-empty line per activity line, then some empty lines. It also requires the last-update marker to be absent or below the region. Not covered: a region with an empty line between two non-empty ones, and a region with a different number of non-empty lines. Such a region is rewritten only partly or keeps its inner empty lines, so the trimmed region differs from the joined numbered lines, and the next run rewrites the same lines and stamps a new date.
- Reconciler.UpdatedFits: the same restriction on the region's shape as Reconciler.UpdateThenUnchanged.
- Serializers.FillIsExpand: requires repository names without `{` (GitHub does not allow them); a `{` in the name could be read as a placeholder by a later replace.

Two details of the date format, as the script renders it:

- DD, MM and YY are not zero-padded; only minutes, hours and seconds are (`to2Digit`).
- 12 h shows as "12" am, since only hours past 12 are reduced and marked pm.

## Findings

| source | as written | input that shows it | evidently intended | confidence | as-written member | corrected member |
|---|---|---|---|---|---|---|
| index.js:346-348 | The offset is `parseInt(hours) * 60 + parseInt(minutes)`, so the minutes are added with a plus sign even when the hours are negative | TIMEZONE_OFFSET "-05:30" gives -270 minutes (4 h 30) instead of -330; "-00:30" gives +30 | The sign applies to the whole offset: -(5*60+30) = -330 | not executed | Timestamp.ParsedOffset, Timestamp.NegativeHalfHourOffset, Timestamp.ShownClockError | Timestamp.SignedOffset, Timestamp.ParsedOffsetAgreement |
