/**
 * The three event serializers of the activity script: which event types
 * have one (depending on the groups switched off in DISABLE_EVENTS), which
 * template each picks by action and merge flag, and how the `{ID}`,
 * `{REPO}` and `{URL}` placeholders are filled with Markdown links.
 */
module Serializers {
  import opened StringUtil

  /**
   * The `type` of a public GitHub event; only the first three have
   * serializers. `OtherEvent` carries any other type name (see `TypeOf`).
   */
  datatype EventType = IssueCommentEvent | IssuesEvent | PullRequestEvent | OtherEvent(name: string)

  /** The type names that are keys of the serializer table. */
  const SerializedNames: seq<string> := ["IssueCommentEvent", "IssuesEvent", "PullRequestEvent"]

  /** The type an event's `type` string denotes. */
  function TypeOf(name: string): (k: EventType)
    ensures k.OtherEvent? <==> name !in SerializedNames
    ensures k.OtherEvent? ==> k.name == name
  {
    if name == SerializedNames[0] then IssueCommentEvent
    else if name == SerializedNames[1] then IssuesEvent
    else if name == SerializedNames[2] then PullRequestEvent
    else OtherEvent(name)
  }

  /** The `type` string of an event type. */
  function NameOf(k: EventType): string {
    match k
    case IssueCommentEvent => SerializedNames[0]
    case IssuesEvent => SerializedNames[1]
    case PullRequestEvent => SerializedNames[2]
    case OtherEvent(name) => name
  }

  /**
   * Reading a type name and writing it back gives the same name, so every
   * `type` string has exactly one type; and a type obtained from a name
   * reads back as itself.
   */
  lemma TypeNameRoundTrip(name: string, k: EventType)
    ensures NameOf(TypeOf(name)) == name
    ensures (k.OtherEvent? ==> k.name !in SerializedNames) ==> TypeOf(NameOf(k)) == k
  {
  }

  /**
   * A public event as the serializers read it: its type, `payload.action`,
   * `repo.name`, the number of the issue or pull request it targets,
   * whether the payload carries an `issue` (otherwise a `pull_request`),
   * and `payload.pull_request.merged`.
   */
  datatype Event = Event(kind: EventType, action: string, repo: string, number: nat,
                         onIssue: bool, merged: bool)

  /** The user's templates: COMMENTS_ACTIVITY, ISSUE_OPENED, ISSUE_CLOSED, PR_OPENED, PR_CLOSED, PR_MERGED, URL_TEXT. */
  datatype Templates = Templates(commentsActivity: string, issueOpened: string, issueClosed: string,
                                 prOpened: string, prClosed: string, prMerged: string,
                                 urlText: string)

  const UrlPrefix: string := "https://github.com"
  const IdToken: string := "{ID}"
  const RepoToken: string := "{REPO}"
  const UrlToken: string := "{URL}"

  /** The web address of the issue or pull request an event targets. */
  function TargetUrl(e: Event): string {
    UrlPrefix + "/" + e.repo + (if e.onIssue then "/issues/" else "/pull/") + NatToString(e.number)
  }

  /** `toUrlFormat(item)`: a link showing `#<number>` to the issue or pull request. */
  function ToUrlFormat(e: Event): string {
    "[#" + NatToString(e.number) + "](" + TargetUrl(e) + ")"
  }

  /** `toUrlFormat(item.repo.name)`: a link showing the repository name to the repository. */
  function RepoUrlFormat(repo: string): string {
    "[" + repo + "](" + UrlPrefix + "/" + repo + ")"
  }

  /** `makeCustomUrl(item)`: URL_TEXT with `{ID}` and `{REPO}` filled in as plain text, linked to the target. */
  function MakeCustomUrl(e: Event, urlText: string): string {
    "[" + ReplaceAll(ReplaceAll(urlText, IdToken, "#" + NatToString(e.number)), RepoToken, e.repo)
    + "](" + TargetUrl(e) + ")"
  }

  /** The chain of global replaces every serializer applies to its template. */
  function Fill(template: string, e: Event, urlText: string): string {
    ReplaceAll(ReplaceAll(ReplaceAll(template, IdToken, ToUrlFormat(e)), RepoToken, RepoUrlFormat(e.repo)),
               UrlToken, MakeCustomUrl(e, urlText))
  }

  /** The DISABLE_EVENTS group that switches off the serializer of an event type. */
  function GroupOf(kind: EventType): Option<string> {
    match kind
    case IssueCommentEvent => Some("comments")
    case IssuesEvent => Some("issues")
    case PullRequestEvent => Some("pr")
    case OtherEvent(_) => None
  }

  /** `serializers.hasOwnProperty(type)`: a serializer is registered unless its group is disabled. */
  predicate HasSerializer(disabled: seq<string>, kind: EventType) {
    GroupOf(kind).Some? && GroupOf(kind).value !in disabled
  }

  /** The kinds of formatted activity line, one per template. */
  datatype Category = Commented | IssueOpened | IssueClosed | PrOpened | PrMerged | PrClosed

  /**
   * When an event falls into a category: a comment that was created, an
   * issue opened or closed, a pull request opened, merged (by any action
   * other than opening), or closed without being merged.
   */
  predicate InCategory(e: Event, c: Category) {
    match c
    case Commented => e.kind == IssueCommentEvent && e.action == "created"
    case IssueOpened => e.kind == IssuesEvent && e.action == "opened"
    case IssueClosed => e.kind == IssuesEvent && e.action == "closed"
    case PrOpened => e.kind == PullRequestEvent && e.action == "opened"
    case PrMerged => e.kind == PullRequestEvent && e.action != "opened" && e.merged
    case PrClosed => e.kind == PullRequestEvent && e.action == "closed" && !e.merged
  }

  /** The template of a category. */
  function TemplateOf(t: Templates, c: Category): string {
    match c
    case Commented => t.commentsActivity
    case IssueOpened => t.issueOpened
    case IssueClosed => t.issueClosed
    case PrOpened => t.prOpened
    case PrMerged => t.prMerged
    case PrClosed => t.prClosed
  }

  /** An event falls into at most one category. */
  lemma CategoriesDisjoint(e: Event, c: Category, d: Category)
    requires InCategory(e, c) && InCategory(e, d)
    ensures c == d
  {
  }

  /** `serializers.IssueCommentEvent`. */
  function SerializeComment(t: Templates, e: Event): string {
    if e.action == "created" then Fill(t.commentsActivity, e, t.urlText) else ""
  }

  /** `serializers.IssuesEvent`. */
  function SerializeIssue(t: Templates, e: Event): string {
    if e.action == "opened" then Fill(t.issueOpened, e, t.urlText)
    else if e.action == "closed" then Fill(t.issueClosed, e, t.urlText)
    else ""
  }

  /** `serializers.PullRequestEvent`: "opened" is checked first, then the merge flag, then "closed". */
  function SerializePullRequest(t: Templates, e: Event): string {
    if e.action == "opened" then Fill(t.prOpened, e, t.urlText)
    else if e.merged then Fill(t.prMerged, e, t.urlText)
    else if e.action == "closed" && !e.merged then Fill(t.prClosed, e, t.urlText)
    else ""
  }

  /**
   * `serializers[item.type](item)` for an event whose type has a serializer:
   * the filled template of the event's category, and "" for an event in no
   * category.
   */
  function Serialize(t: Templates, e: Event): string
    requires !e.kind.OtherEvent?
  {
    match e.kind
    case IssueCommentEvent => SerializeComment(t, e)
    case IssuesEvent => SerializeIssue(t, e)
    case PullRequestEvent => SerializePullRequest(t, e)
  }

  /**
   * The serialization of an event is the filled template of its category,
   * and "" for an event in no category.
   */
  lemma SerializeByCategory(t: Templates, e: Event)
    requires !e.kind.OtherEvent?
    ensures forall c :: InCategory(e, c) ==> Serialize(t, e) == Fill(TemplateOf(t, c), e, t.urlText)
    ensures (forall c :: !InCategory(e, c)) ==> Serialize(t, e) == ""
  {
    match e.kind
    case IssueCommentEvent =>
      assert e.action == "created" ==> InCategory(e, Commented);
    case IssuesEvent =>
      assert e.action == "opened" ==> InCategory(e, IssueOpened);
      assert e.action == "closed" ==> InCategory(e, IssueClosed);
    case PullRequestEvent =>
      assert e.action == "opened" ==> InCategory(e, PrOpened);
      assert e.action != "opened" && e.merged ==> InCategory(e, PrMerged);
      assert e.action == "closed" && !e.merged ==> InCategory(e, PrClosed);
  }

  /** A closed pull request that was merged is reported with PR_MERGED, never PR_CLOSED. */
  lemma MergedPullRequestUsesMergedTemplate(t: Templates, e: Event)
    requires e.kind == PullRequestEvent && e.action == "closed" && e.merged
    ensures Serialize(t, e) == Fill(t.prMerged, e, t.urlText)
  {
    assert InCategory(e, PrMerged);
    SerializeByCategory(t, e);
  }

  /** An opened pull request is reported with PR_OPENED even when its merge flag is set. */
  lemma OpenedPullRequestUsesOpenedTemplate(t: Templates, e: Event)
    requires e.kind == PullRequestEvent && e.action == "opened"
    ensures Serialize(t, e) == Fill(t.prOpened, e, t.urlText)
  {
    assert InCategory(e, PrOpened);
    SerializeByCategory(t, e);
  }

  /** Actions outside the listed ones produce the empty line that the selection skips. */
  lemma OtherActionsAreSkipped(t: Templates, e: Event)
    requires !e.kind.OtherEvent?
    requires e.action != "created" && e.action != "opened" && e.action != "closed"
    requires e.kind == PullRequestEvent ==> !e.merged
    ensures Serialize(t, e) == ""
  {
    SerializeByCategory(t, e);
  }

  // ---------------------------------------------------------------------------
  // Placeholder substitution, seen as one left-to-right pass over the template.

  /**
   * The reference reading of a template: each placeholder, wherever it
   * occurs, stands for its link, and every other character for itself.
   */
  function Expand(template: string, e: Event, urlText: string): string
    decreases |template|
  {
    if template == [] then []
    else if OccursAt(template, IdToken, 0) then ToUrlFormat(e) + Expand(template[|IdToken|..], e, urlText)
    else if OccursAt(template, RepoToken, 0) then RepoUrlFormat(e.repo) + Expand(template[|RepoToken|..], e, urlText)
    else if OccursAt(template, UrlToken, 0) then MakeCustomUrl(e, urlText) + Expand(template[|UrlToken|..], e, urlText)
    else [template[0]] + Expand(template[1..], e, urlText)
  }

  /** No `{` in a string. */
  predicate NoBrace(s: string) {
    forall k :: 0 <= k < |s| ==> s[k] != '{'
  }

  lemma NoBraceConcat(a: string, b: string)
    requires NoBrace(a) && NoBrace(b)
    ensures NoBrace(a + b)
  {
    forall k | 0 <= k < |a + b|
      ensures (a + b)[k] != '{'
    {
      if k < |a| { assert (a + b)[k] == a[k]; } else { assert (a + b)[k] == b[k - |a|]; }
    }
  }

  lemma NoBraceDigits(n: nat)
    ensures NoBrace(NatToString(n))
  {
  }

  /** The links the first two replaces insert contain no `{`, so later replaces leave them alone. */
  lemma LinksHaveNoBrace(e: Event)
    requires NoBrace(e.repo)
    ensures NoBrace(ToUrlFormat(e)) && NoBrace(RepoUrlFormat(e.repo))
  {
    NoBraceDigits(e.number);
    var n := NatToString(e.number);
    NoBraceConcat(UrlPrefix, "/");
    NoBraceConcat(UrlPrefix + "/", e.repo);
    NoBraceConcat(UrlPrefix + "/" + e.repo, if e.onIssue then "/issues/" else "/pull/");
    NoBraceConcat(UrlPrefix + "/" + e.repo + (if e.onIssue then "/issues/" else "/pull/"), n);
    NoBraceConcat("[#", n);
    NoBraceConcat("[#" + n, "](");
    NoBraceConcat("[#" + n + "](", TargetUrl(e));
    NoBraceConcat("[#" + n + "](" + TargetUrl(e), ")");
    NoBraceConcat("[", e.repo);
    NoBraceConcat("[" + e.repo, "](");
    NoBraceConcat("[" + e.repo + "](", UrlPrefix);
    NoBraceConcat("[" + e.repo + "](" + UrlPrefix, "/");
    NoBraceConcat("[" + e.repo + "](" + UrlPrefix + "/", e.repo);
    NoBraceConcat("[" + e.repo + "](" + UrlPrefix + "/" + e.repo, ")");
  }

  /** A `{`-free prefix passes through all three replaces. */
  lemma ReplaceAllNoBrace(x: string, y: string, tok: string, rep: string)
    requires |tok| > 0 && tok[0] == '{' && NoBrace(x)
    ensures ReplaceAll(x + y, tok, rep) == x + ReplaceAll(y, tok, rep)
  {
    ReplaceAllSkip(x, y, tok, rep);
  }

  /** A placeholder other than `tok` passes through the replace of `tok`. */
  lemma ReplaceAllOtherToken(x: string, y: string, tok: string, rep: string)
    requires |tok| > 1 && |x| > 1 && tok[0] == '{' && x[0] == '{' && x[1] != tok[1]
    requires NoBrace(x[1..])
    ensures ReplaceAll(x + y, tok, rep) == x + ReplaceAll(y, tok, rep)
  {
    var s := x + y;
    assert !OccursAt(s, tok, 0) by {
      assert s[1] == x[1];
      assert |tok| <= |s| ==> s[..|tok|][1] == x[1];
    }
    assert ReplaceAll(s, tok, rep) == [x[0]] + ReplaceAll(s[1..], tok, rep);
    assert s[1..] == x[1..] + y;
    ReplaceAllSkip(x[1..], y, tok, rep);
    assert [x[0]] + x[1..] == x;
  }

  /**
   * The chain of global replaces is the single-pass reading of the template:
   * every occurrence of every placeholder is replaced by its link, and
   * nothing else changes (for repository names without `{`, which GitHub
   * does not allow).
   */
  lemma {:induction false} FillIsExpand(template: string, e: Event, urlText: string)
    requires NoBrace(e.repo)
    ensures Fill(template, e, urlText) == Expand(template, e, urlText)
    decreases |template|, 1
  {
    if template == [] {
    } else if OccursAt(template, IdToken, 0) {
      FillIsExpandAtId(template, e, urlText);
    } else if OccursAt(template, RepoToken, 0) {
      FillIsExpandAtRepo(template, e, urlText);
    } else if OccursAt(template, UrlToken, 0) {
      FillIsExpandAtUrl(template, e, urlText);
    } else {
      FillIsExpandAtOther(template, e, urlText);
    }
  }

  /** A template starting with `{ID}`. */
  lemma {:induction false} FillIsExpandAtId(template: string, e: Event, urlText: string)
    requires NoBrace(e.repo) && OccursAt(template, IdToken, 0)
    ensures Fill(template, e, urlText) == Expand(template, e, urlText)
    decreases |template|, 0
  {
    var l1, l2, l3 := ToUrlFormat(e), RepoUrlFormat(e.repo), MakeCustomUrl(e, urlText);
    LinksHaveNoBrace(e);
    var rest := template[|IdToken|..];
    assert template == IdToken + rest;
    FillIsExpand(rest, e, urlText);
    ReplaceAllToken(rest, IdToken, l1);
    var r1 := ReplaceAll(rest, IdToken, l1);
    ReplaceAllNoBrace(l1, r1, RepoToken, l2);
    ReplaceAllNoBrace(l1, ReplaceAll(r1, RepoToken, l2), UrlToken, l3);
  }

  /** A template starting with `{REPO}`. */
  lemma {:induction false} FillIsExpandAtRepo(template: string, e: Event, urlText: string)
    requires NoBrace(e.repo)
    requires !OccursAt(template, IdToken, 0) && OccursAt(template, RepoToken, 0)
    ensures Fill(template, e, urlText) == Expand(template, e, urlText)
    decreases |template|, 0
  {
    var l1, l2, l3 := ToUrlFormat(e), RepoUrlFormat(e.repo), MakeCustomUrl(e, urlText);
    LinksHaveNoBrace(e);
    var rest := template[|RepoToken|..];
    assert template == RepoToken + rest;
    FillIsExpand(rest, e, urlText);
    ReplaceAllOtherToken(RepoToken, rest, IdToken, l1);
    var r1 := ReplaceAll(rest, IdToken, l1);
    ReplaceAllToken(r1, RepoToken, l2);
    ReplaceAllNoBrace(l2, ReplaceAll(r1, RepoToken, l2), UrlToken, l3);
  }

  /** A template starting with `{URL}`. */
  lemma {:induction false} FillIsExpandAtUrl(template: string, e: Event, urlText: string)
    requires NoBrace(e.repo)
    requires !OccursAt(template, IdToken, 0) && !OccursAt(template, RepoToken, 0)
    requires OccursAt(template, UrlToken, 0)
    ensures Fill(template, e, urlText) == Expand(template, e, urlText)
    decreases |template|, 0
  {
    var l1, l2, l3 := ToUrlFormat(e), RepoUrlFormat(e.repo), MakeCustomUrl(e, urlText);
    var rest := template[|UrlToken|..];
    assert template == UrlToken + rest;
    FillIsExpand(rest, e, urlText);
    ReplaceAllOtherToken(UrlToken, rest, IdToken, l1);
    var r1 := ReplaceAll(rest, IdToken, l1);
    ReplaceAllOtherToken(UrlToken, r1, RepoToken, l2);
    ReplaceAllToken(ReplaceAll(r1, RepoToken, l2), UrlToken, l3);
  }

  /**
   * A template starting with a character that opens no placeholder, `{`
   * included: none of the replaces can make its head a placeholder, since
   * every link starts with `[`.
   */
  lemma {:induction false} FillIsExpandAtOther(template: string, e: Event, urlText: string)
    requires NoBrace(e.repo) && template != []
    requires !OccursAt(template, IdToken, 0) && !OccursAt(template, RepoToken, 0)
    requires !OccursAt(template, UrlToken, 0)
    ensures Fill(template, e, urlText) == Expand(template, e, urlText)
    decreases |template|, 0
  {
    var l1, l2, l3 := ToUrlFormat(e), RepoUrlFormat(e.repo), MakeCustomUrl(e, urlText);
    var c, rest := template[0], template[1..];
    FillIsExpand(rest, e, urlText);
    ReplaceAllStep(template, IdToken, l1);
    var r1 := ReplaceAll(rest, IdToken, l1);
    var t1 := [c] + r1;
    assert t1[0] == c && t1[1..] == r1;
    ReplaceAllRestKeepsHead(template, RepoToken, IdToken, l1);
    ReplaceAllStep(t1, RepoToken, l2);
    var r2 := ReplaceAll(r1, RepoToken, l2);
    var t2 := [c] + r2;
    assert t2[0] == c && t2[1..] == r2;
    ReplaceAllRestKeepsHead(t1, UrlToken, RepoToken, l2);
    ReplaceAllRestKeepsHead(template, UrlToken, IdToken, l1);
    ReplaceAllStep(t2, UrlToken, l3);
  }

  /** A template without placeholders is reported verbatim. */
  lemma FillWithoutPlaceholders(template: string, e: Event, urlText: string)
    requires NoBrace(template)
    ensures Fill(template, e, urlText) == template
  {
    assert template + [] == template;
    ReplaceAllNoBrace(template, [], IdToken, ToUrlFormat(e));
    ReplaceAllNoBrace(template, [], RepoToken, RepoUrlFormat(e.repo));
    ReplaceAllNoBrace(template, [], UrlToken, MakeCustomUrl(e, urlText));
  }

  /**
   * The reference reading of URL_TEXT: `{ID}` stands for `#<number>`,
   * `{REPO}` for the repository name, and every other character for itself.
   */
  function ExpandLinkText(u: string, e: Event): string
    decreases |u|
  {
    if u == [] then []
    else if OccursAt(u, IdToken, 0) then "#" + NatToString(e.number) + ExpandLinkText(u[|IdToken|..], e)
    else if OccursAt(u, RepoToken, 0) then e.repo + ExpandLinkText(u[|RepoToken|..], e)
    else [u[0]] + ExpandLinkText(u[1..], e)
  }

  /**
   * `makeCustomUrl`: the text of the link is URL_TEXT read in one pass, with
   * every `{ID}` and `{REPO}` filled in, and the link points at the issue or
   * pull request.
   */
  lemma CustomUrlIsExpand(e: Event, urlText: string)
    ensures MakeCustomUrl(e, urlText) == "[" + ExpandLinkText(urlText, e) + "](" + TargetUrl(e) + ")"
  {
    LinkTextIsExpand(urlText, e);
  }

  /** The two global replaces of `makeCustomUrl` are the one-pass reading of URL_TEXT. */
  lemma {:induction false} LinkTextIsExpand(u: string, e: Event)
    ensures ReplaceAll(ReplaceAll(u, IdToken, "#" + NatToString(e.number)), RepoToken, e.repo)
         == ExpandLinkText(u, e)
    decreases |u|
  {
    var n := "#" + NatToString(e.number);
    if u == [] {
    } else if OccursAt(u, IdToken, 0) {
      var rest := u[|IdToken|..];
      assert u == IdToken + rest;
      LinkTextIsExpand(rest, e);
      ReplaceAllToken(rest, IdToken, n);
      NoBraceDigits(e.number);
      NoBraceConcat("#", NatToString(e.number));
      ReplaceAllNoBrace(n, ReplaceAll(rest, IdToken, n), RepoToken, e.repo);
    } else if OccursAt(u, RepoToken, 0) {
      var rest := u[|RepoToken|..];
      assert u == RepoToken + rest;
      LinkTextIsExpand(rest, e);
      ReplaceAllOtherToken(RepoToken, rest, IdToken, n);
      ReplaceAllToken(ReplaceAll(rest, IdToken, n), RepoToken, e.repo);
    } else {
      LinkTextIsExpand(u[1..], e);
      LinkTextStep(u, e);
    }
  }

  /** A URL_TEXT whose head opens no placeholder keeps its first character. */
  lemma LinkTextStep(u: string, e: Event)
    requires u != [] && !OccursAt(u, IdToken, 0) && !OccursAt(u, RepoToken, 0)
    ensures ReplaceAll(ReplaceAll(u, IdToken, "#" + NatToString(e.number)), RepoToken, e.repo)
         == [u[0]] + ReplaceAll(ReplaceAll(u[1..], IdToken, "#" + NatToString(e.number)), RepoToken, e.repo)
  {
    var n := "#" + NatToString(e.number);
    ReplaceAllStep(u, IdToken, n);
    var t1 := [u[0]] + ReplaceAll(u[1..], IdToken, n);
    assert t1[0] == u[0] && t1[1..] == ReplaceAll(u[1..], IdToken, n);
    ReplaceAllRestKeepsHead(u, RepoToken, IdToken, n);
    ReplaceAllStep(t1, RepoToken, e.repo);
  }

  /** Text without `{` reads as itself. */
  lemma {:induction false} ExpandNoBrace(x: string, y: string, e: Event, urlText: string)
    requires NoBrace(x)
    ensures Expand(x + y, e, urlText) == x + Expand(y, e, urlText)
    decreases |x|
  {
    if x != [] {
      var s := x + y;
      assert s[0] == x[0] && s[1..] == x[1..] + y;
      ExpandPlain(s, e, urlText);
      ExpandNoBrace(x[1..], y, e, urlText);
      ConsConcat(x, Expand(y, e, urlText));
    } else {
      assert x + y == y;
    }
  }

  /** A text starting with a character other than `{` reads as that character and the rest. */
  lemma ExpandPlain(s: string, e: Event, urlText: string)
    requires s != [] && s[0] != '{'
    ensures Expand(s, e, urlText) == [s[0]] + Expand(s[1..], e, urlText)
  {
    NotAtHead(s, IdToken);
    NotAtHead(s, RepoToken);
    NotAtHead(s, UrlToken);
  }

  lemma ConsConcat(x: string, z: string)
    requires x != []
    ensures [x[0]] + (x[1..] + z) == x + z
  {
    assert [x[0]] + x[1..] == x;
  }

  /** A string whose first character differs from that of `tok` does not start with `tok`. */
  lemma NotAtHead(s: string, tok: string)
    requires s != [] && tok != [] && s[0] != tok[0]
    ensures !OccursAt(s, tok, 0)
  {
    if |tok| <= |s| { assert s[..|tok|][0] == s[0]; }
  }

  /** `{ID}` reads as the issue or pull request link. */
  lemma ExpandIdToken(y: string, e: Event, urlText: string)
    ensures Expand(IdToken + y, e, urlText) == ToUrlFormat(e) + Expand(y, e, urlText)
  {
    var s := IdToken + y;
    assert s[..4] == IdToken;
    assert s[4..] == y;
  }

  /** `{REPO}` reads as the repository link. */
  lemma ExpandRepoToken(y: string, e: Event, urlText: string)
    ensures Expand(RepoToken + y, e, urlText) == RepoUrlFormat(e.repo) + Expand(y, e, urlText)
  {
    var s := RepoToken + y;
    assert !OccursAt(s, IdToken, 0) by { assert s[..4][1] == 'R'; }
    assert s[..6] == RepoToken;
    assert s[6..] == y;
  }

  /** "{ID} in {REPO}" reads as the issue link, " in ", and the repository link. */
  lemma ExpandIdInRepo(e: Event, urlText: string)
    ensures Expand("{ID} in {REPO}", e, urlText) == ToUrlFormat(e) + " in " + RepoUrlFormat(e.repo)
  {
    assert "{ID} in {REPO}" == IdToken + (" in " + (RepoToken + ""));
    ExpandIdToken(" in " + (RepoToken + ""), e, urlText);
    ExpandNoBrace(" in ", RepoToken + "", e, urlText);
    ExpandRepoToken("", e, urlText);
  }

  /**
   * The template "{ID} in {REPO}" gives the issue or pull request link,
   * " in ", and the repository link.
   */
  lemma IdInRepoExample(e: Event, urlText: string)
    requires NoBrace(e.repo)
    ensures Fill("{ID} in {REPO}", e, urlText) == ToUrlFormat(e) + " in " + RepoUrlFormat(e.repo)
  {
    FillIsExpand("{ID} in {REPO}", e, urlText);
    ExpandIdInRepo(e, urlText);
  }
}
