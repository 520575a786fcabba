/**
 * Choosing the activity lines: events whose type has a serializer are
 * serialized in feed order, empty results are skipped, and collection stops
 * once MAX_LINES lines are gathered.
 */
module Selection {
  import opened StringUtil
  import opened Serializers

  /** `events.filter(e => serializers.hasOwnProperty(e.type))`. */
  function WithSerializer(disabled: seq<string>, events: seq<Event>): (r: seq<Event>)
    ensures forall k :: 0 <= k < |r| ==> HasSerializer(disabled, r[k].kind) && r[k] in events
    ensures forall e :: e in events && HasSerializer(disabled, e.kind) ==> e in r
    ensures |r| <= |events|
  {
    if events == [] then []
    else
      var rest := WithSerializer(disabled, events[1..]);
      if HasSerializer(disabled, events[0].kind) then [events[0]] + rest else rest
  }

  /** The filter keeps the feed order: filtering a concatenation concatenates the filtered parts. */
  lemma {:induction false} WithSerializerAppend(disabled: seq<string>, a: seq<Event>, b: seq<Event>)
    ensures WithSerializer(disabled, a + b) == WithSerializer(disabled, a) + WithSerializer(disabled, b)
    decreases |a|
  {
    if a == [] {
      assert a + b == b;
    } else {
      var ab := a + b;
      assert ab[0] == a[0];
      assert ab[1..] == a[1..] + b;
      WithSerializerAppend(disabled, a[1..], b);
    }
  }

  /** A single event is kept exactly when its type has a serializer. */
  lemma WithSerializerSingle(disabled: seq<string>, e: Event)
    ensures WithSerializer(disabled, [e]) == if HasSerializer(disabled, e.kind) then [e] else []
  {
    assert [e][1..] == [];
  }

  /** Every event of the sequence has a serializer, so serializing it is defined. */
  predicate AllSerializable(content: seq<Event>) {
    forall k :: 0 <= k < |content| ==> !content[k].kind.OtherEvent?
  }

  /** The serialization of each event of `content`, in order. */
  function Serializations(t: Templates, content: seq<Event>): seq<string>
    requires AllSerializable(content)
  {
    seq(|content|, k requires 0 <= k < |content| => Serialize(t, content[k]))
  }

  /** The non-empty strings of `lines`, in order. */
  function NonEmpty(lines: seq<string>): (r: seq<string>)
    ensures |r| <= |lines|
    ensures forall k :: 0 <= k < |r| ==> r[k] != ""
  {
    if lines == [] then []
    else
      var last := lines[|lines| - 1];
      NonEmpty(lines[..|lines| - 1]) + (if last == "" then [] else [last])
  }

  /** The non-empty serializations of `content`, in order. */
  function Rendered(t: Templates, content: seq<Event>): seq<string>
    requires AllSerializable(content)
  {
    NonEmpty(Serializations(t, content))
  }

  /** The first `n` elements of `s`, or all of them when there are fewer. */
  function Take<T>(s: seq<T>, n: nat): (r: seq<T>)
    ensures |r| == if |s| < n then |s| else n
    ensures r == s[..|r|]
  {
    if |s| <= n then s else s[..n]
  }

  /** What the selection yields: the first `maxLines` non-empty lines of the events that have a serializer. */
  function Selected(t: Templates, disabled: seq<string>, maxLines: nat, events: seq<Event>): seq<string>
  {
    var content := WithSerializer(disabled, events);
    Take(Rendered(t, content), maxLines)
  }

  /** The non-empty strings of a prefix are a prefix of the non-empty strings of the whole. */
  lemma {:induction false} NonEmptyPrefix(lines: seq<string>, j: nat)
    requires j <= |lines|
    ensures |NonEmpty(lines[..j])| <= |NonEmpty(lines)|
    ensures NonEmpty(lines[..j]) == NonEmpty(lines)[..|NonEmpty(lines[..j])|]
    decreases |lines| - j
  {
    if j < |lines| {
      var shorter := lines[..|lines| - 1];
      assert lines[..j] == shorter[..j];
      NonEmptyPrefix(shorter, j);
    } else {
      assert lines[..j] == lines;
    }
  }

  /** One more string is kept unless it is empty. */
  lemma NonEmptyStep(lines: seq<string>, i: nat)
    requires i < |lines|
    ensures NonEmpty(lines[..i + 1]) == NonEmpty(lines[..i]) + (if lines[i] == "" then [] else [lines[i]])
  {
    assert lines[..i + 1][..i] == lines[..i];
  }

  /** One loop step: the next serialization is kept unless it is empty. */
  lemma CollectStep(t: Templates, content: seq<Event>, i: nat, lines: seq<string>)
    requires AllSerializable(content) && i < |content|
    requires lines == NonEmpty(Serializations(t, content)[..i])
    ensures var s := Serialize(t, content[i]);
      NonEmpty(Serializations(t, content)[..i + 1]) == if s == "" then lines else lines + [s]
  {
    NonEmptyStep(Serializations(t, content), i);
  }

  /** Once a prefix already holds `n` non-empty strings, the first `n` of the whole are those. */
  lemma TakeFull(lines: seq<string>, j: nat, n: nat)
    requires j <= |lines| && |NonEmpty(lines[..j])| == n
    ensures Take(NonEmpty(lines), n) == NonEmpty(lines[..j])
  {
    NonEmptyPrefix(lines, j);
  }

  /**
   * The selection: keep the events that have a serializer, then collect
   * their lines.
   */
  method SelectActivity(t: Templates, disabled: seq<string>, maxLines: nat, events: seq<Event>)
    returns (lines: seq<string>)
    requires maxLines >= 1
    ensures lines == Selected(t, disabled, maxLines, events)
  {
    var content := WithSerializer(disabled, events);
    lines := CollectLines(t, maxLines, content);
  }

  /**
   * The selection loop: it serializes the events in feed order, keeps the
   * non-empty lines and stops as soon as MAX_LINES of them are collected.
   */
  method CollectLines(t: Templates, maxLines: nat, content: seq<Event>) returns (lines: seq<string>)
    requires maxLines >= 1 && AllSerializable(content)
    ensures lines == Take(Rendered(t, content), maxLines)
  {
    ghost var all := Serializations(t, content);
    lines := [];
    var i := 0;
    while i < |content|
      invariant 0 <= i <= |content|
      invariant lines == NonEmpty(all[..i])
      invariant |lines| < maxLines
    {
      var eventString := Serialize(t, content[i]);
      CollectStep(t, content, i, lines);
      if eventString != "" {
        lines := lines + [eventString];
      }
      if |lines| == maxLines {
        TakeFull(all, i + 1, maxLines);
        return;
      }
      i := i + 1;
    }
    assert all[..i] == all;
  }

  /**
   * The selection has at most `maxLines` lines, none of them empty, and
   * each is the serialization of an event of the feed whose type has a
   * serializer.
   */
  lemma SelectedLines(t: Templates, disabled: seq<string>, maxLines: nat, events: seq<Event>, k: nat)
    requires k < |Selected(t, disabled, maxLines, events)|
    ensures var r := Selected(t, disabled, maxLines, events);
      |r| <= maxLines && r[k] != "" &&
      exists j :: 0 <= j < |events| && HasSerializer(disabled, events[j].kind) && r[k] == Serialize(t, events[j])
  {
    var content := WithSerializer(disabled, events);
    var all := Serializations(t, content);
    var i := NonEmptySource(all, k);
    assert content[i] in events;
    var j :| 0 <= j < |events| && events[j] == content[i];
    assert Selected(t, disabled, maxLines, events)[k] == Serialize(t, events[j]);
  }

  /** Each kept string is one of the strings. */
  lemma {:induction false} NonEmptySource(lines: seq<string>, k: nat) returns (j: nat)
    requires k < |NonEmpty(lines)|
    ensures j < |lines| && NonEmpty(lines)[k] == lines[j]
    decreases |lines|
  {
    var shorter := lines[..|lines| - 1];
    if k < |NonEmpty(shorter)| {
      j := NonEmptySource(shorter, k);
    } else {
      j := |lines| - 1;
    }
  }

  /** Events of the given type, dropped from the feed. */
  function Without(events: seq<Event>, kind: EventType): (r: seq<Event>)
    ensures forall k :: 0 <= k < |r| ==> r[k].kind != kind && r[k] in events
  {
    if events == [] then []
    else
      var rest := Without(events[1..], kind);
      if events[0].kind == kind then rest else [events[0]] + rest
  }

  /**
   * When the group of an event type is disabled, events of that type never
   * reach the activity lines: removing them all from the feed leaves the
   * selection unchanged.
   */
  lemma {:induction false} DisabledTypeIgnored(t: Templates, disabled: seq<string>, maxLines: nat,
                                              events: seq<Event>, kind: EventType)
    requires GroupOf(kind).Some? && GroupOf(kind).value in disabled
    ensures Selected(t, disabled, maxLines, Without(events, kind)) == Selected(t, disabled, maxLines, events)
  {
    WithSerializerWithout(disabled, events, kind);
  }

  lemma {:induction false} WithSerializerWithout(disabled: seq<string>, events: seq<Event>, kind: EventType)
    requires GroupOf(kind).Some? && GroupOf(kind).value in disabled
    ensures WithSerializer(disabled, Without(events, kind)) == WithSerializer(disabled, events)
  {
    if events != [] {
      WithSerializerWithout(disabled, events[1..], kind);
      if events[0].kind != kind {
        assert ([events[0]] + Without(events[1..], kind))[1..] == Without(events[1..], kind);
      }
    }
  }
}
