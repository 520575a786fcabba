/**
 * The "last update" line of the activity script: rendering DATE_STRING
 * from the components of the shifted clock time, and writing it between
 * the last-update markers.
 */
module Timestamp {
  import opened StringUtil
  import opened Readme

  const LastUpdateStart: string := "<!--RECENT_ACTIVITY:last_update-->"
  const LastUpdateEnd: string := "<!--RECENT_ACTIVITY:last_update_end-->"

  /**
   * The calendar fields the script reads from the shifted `Date`
   * (`getDate`, `getMonth() + 1`, `getFullYear`, `getHours`, `getMinutes`,
   * `getSeconds`).
   */
  datatype DateParts = DateParts(day: nat, month: nat, year: nat, hours: nat, minutes: nat, seconds: nat)

  /** `to2Digit(x)`: zero-padded to two digits below ten. */
  function TwoDigit(x: nat): (r: string)
    ensures forall k :: 0 <= k < |r| ==> '0' <= r[k] <= '9'
    ensures DigitsValue(r) == x
    ensures x < 100 ==> |r| == 2
  {
    NatToStringValue(x);
    if x > 9 then NatToString(x) else "0" + NatToString(x)
  }

  /** The twelve-hour clock value: hours past 12 are taken modulo 12, the others kept. */
  function Hour12(hours: nat): (h: nat)
    requires hours < 24
    ensures h <= 12 && h % 12 == hours % 12
    ensures h == hours <==> hours <= 12
  {
    if hours > 12 then hours % 12 else hours
  }

  /** "pm" for hours past 12, "am" otherwise. */
  function Meridiem(hours: nat): string
  {
    if hours > 12 then "pm" else "am"
  }

  /** `String.prototype.toUpperCase` on ASCII letters. */
  function UpperAscii(s: string): (r: string)
    ensures |r| == |s|
    ensures forall k :: 0 <= k < |s| ==> r[k] == if 'a' <= s[k] <= 'z' then (s[k] as int - 32) as char else s[k]
  {
    if s == [] then []
    else [if 'a' <= s[0] <= 'z' then (s[0] as int - 32) as char else s[0]] + UpperAscii(s[1..])
  }

  /**
   * The values the tokens of DATE_STRING are replaced with, in the order
   * the script replaces them: DD, MM, YYYY, YY, aa, AA, mm, HH, hh, ss.
   */
  function DateValues(d: DateParts): (v: seq<string>)
    requires d.hours < 24
    ensures |v| == 10
  {
    [NatToString(d.day), NatToString(d.month), NatToString(d.year), NatToString(d.year % 100),
     Meridiem(d.hours), UpperAscii(Meridiem(d.hours)),
     TwoDigit(d.minutes), TwoDigit(d.hours), TwoDigit(Hour12(d.hours)), TwoDigit(d.seconds)]
  }

  /** A run of decimal digits. */
  predicate IsDigits(s: string) {
    forall k :: 0 <= k < |s| ==> '0' <= s[k] <= '9'
  }

  /** Ten values, the numbers written in digits and the meridiem in lower case. */
  predicate DateValuesShape(v: seq<string>) {
    |v| == 10 && IsDigits(v[0]) && IsDigits(v[1]) && IsDigits(v[2]) && IsDigits(v[3])
    && (v[4] == "am" || v[4] == "pm") && IsDigits(v[6]) && IsDigits(v[7]) && IsDigits(v[8]) && IsDigits(v[9])
  }

  /** The values of the tokens have that shape. */
  lemma DateValuesShaped(d: DateParts)
    requires d.hours < 24
    ensures DateValuesShape(DateValues(d))
  {
    var v := DateValues(d);
    assert v[4] == Meridiem(d.hours);
    assert IsDigits(v[0]) && IsDigits(v[1]) && IsDigits(v[2]) && IsDigits(v[3]);
    assert IsDigits(v[6]) && IsDigits(v[7]) && IsDigits(v[8]) && IsDigits(v[9]);
  }

  /** The tokens of DATE_STRING paired with their values. */
  function DateTokens(v: seq<string>): (p: seq<(string, string)>)
    requires |v| == 10
    ensures |p| == 10 && forall k :: 0 <= k < |p| ==> |p[k].0| > 0 && p[k].1 == v[k]
  {
    [("DD", v[0]), ("MM", v[1]), ("YYYY", v[2]), ("YY", v[3]), ("aa", v[4]),
     ("AA", v[5]), ("mm", v[6]), ("HH", v[7]), ("hh", v[8]), ("ss", v[9])]
  }

  /** Each `(token, value)` pair applied in turn as a string-pattern replace. */
  function ReplaceEach(s: string, pairs: seq<(string, string)>): string
    requires forall k :: 0 <= k < |pairs| ==> |pairs[k].0| > 0
    decreases |pairs|
  {
    if pairs == [] then s else ReplaceEach(ReplaceFirst(s, pairs[0].0, pairs[0].1), pairs[1..])
  }

  /** A text in which no token occurs goes through the chain unchanged. */
  lemma {:induction false} ReplaceEachAbsent(s: string, pairs: seq<(string, string)>)
    requires forall k :: 0 <= k < |pairs| ==> |pairs[k].0| > 0
    requires forall k :: 0 <= k < |pairs| ==> IndexOf(s, pairs[k].0).None?
    ensures ReplaceEach(s, pairs) == s
    decreases |pairs|
  {
    if pairs != [] {
      assert IndexOf(s, pairs[0].0).None?;
      assert forall k :: 0 <= k < |pairs[1..]| ==> pairs[1..][k] == pairs[k + 1];
      ReplaceEachAbsent(s, pairs[1..]);
    }
  }

  /** A step of the chain that replaces the piece equal to its token, no earlier piece holding the token's first character. */
  lemma ChainPiece(pieces: seq<string>, i: nat, pairs: seq<(string, string)>)
    requires forall k :: 0 <= k < |pairs| ==> |pairs[k].0| > 0
    requires pairs != [] && i < |pieces| && pieces[i] == pairs[0].0
    requires forall k :: 0 <= k < i ==> pieces[i][0] !in pieces[k]
    ensures ReplaceEach(Concat(pieces), pairs) == ReplaceEach(Concat(pieces[i := pairs[0].1]), pairs[1..])
  {
    ReplacePiece(pieces, i, pairs[0].1);
  }

  /** A step of the chain whose token's first character is missing from the text leaves it as it is. */
  lemma ChainAbsent(s: string, pairs: seq<(string, string)>)
    requires forall k :: 0 <= k < |pairs| ==> |pairs[k].0| > 0
    requires pairs != [] && pairs[0].0[0] !in s
    ensures ReplaceEach(s, pairs) == ReplaceEach(s, pairs[1..])
  {
    ReplaceFirstAbsent(s, pairs[0].0, pairs[0].1);
  }

  /** The first `n` steps of the chain leave a text lacking their tokens' first characters as it is. */
  lemma {:induction false} ChainSkip(s: string, pairs: seq<(string, string)>, n: nat)
    requires forall k :: 0 <= k < |pairs| ==> |pairs[k].0| > 0
    requires n <= |pairs| && forall k :: 0 <= k < n ==> pairs[k].0[0] !in s
    ensures ReplaceEach(s, pairs) == ReplaceEach(s, pairs[n..])
    decreases n
  {
    if n > 0 {
      ChainAbsent(s, pairs);
      assert forall k :: 0 <= k < |pairs[1..]| ==> pairs[1..][k] == pairs[k + 1];
      ChainSkip(s, pairs[1..], n - 1);
      assert pairs[1..][n - 1..] == pairs[n..];
    }
  }

  /** DATE_STRING with each token replaced at its first occurrence, in the order of `DateTokens`. */
  function FormatDate(template: string, d: DateParts): string
    requires d.hours < 24
  {
    ReplaceEach(template, DateTokens(DateValues(d)))
  }

  /** No token in the template. */
  predicate NoDateTokens(template: string) {
    IndexOf(template, "DD").None? && IndexOf(template, "MM").None? && IndexOf(template, "YYYY").None?
    && IndexOf(template, "YY").None? && IndexOf(template, "aa").None? && IndexOf(template, "AA").None?
    && IndexOf(template, "mm").None? && IndexOf(template, "HH").None? && IndexOf(template, "hh").None?
    && IndexOf(template, "ss").None?
  }

  /** A template without tokens is written as it is. */
  lemma FormatDateWithoutTokens(template: string, d: DateParts)
    requires d.hours < 24 && NoDateTokens(template)
    ensures FormatDate(template, d) == template
  {
    ReplaceEachAbsent(template, DateTokens(DateValues(d)));
  }

  /** Decimal digits contain no letter or punctuation. */
  lemma DigitsLack(s: string, c: char)
    requires IsDigits(s) && !('0' <= c <= '9')
    ensures c !in s
  {
  }

  /** The template pieces of a five-piece layout read as one text. */
  lemma ConcatFive(a: string, b: string, c: string, d: string, e: string)
    ensures Concat([a, b, c, d, e]) == a + (b + (c + (d + e)))
  {
    assert Concat([e]) == e;
    assert Concat([d, e]) == d + e by { assert [d, e][1..] == [e]; }
    assert Concat([c, d, e]) == c + (d + e) by { assert [c, d, e][1..] == [d, e]; }
    assert Concat([b, c, d, e]) == b + (c + (d + e)) by { assert [b, c, d, e][1..] == [c, d, e]; }
    assert [a, b, c, d, e][1..] == [b, c, d, e];
  }

  /** The day-first date template as pieces. */
  lemma DateTemplate()
    ensures Concat(["DD", "/", "MM", "/", "YYYY"]) == "DD/MM/YYYY"
  {
  }

  /** The twelve-hour template as pieces. */
  lemma TwelveHourTemplate()
    ensures Concat(["hh", ":", "mm", " ", "aa"]) == "hh:mm aa"
  {
  }

  /** The day, month and year values, and their shape. */
  lemma DateValuesOfDate(d: DateParts)
    requires d.hours < 24
    ensures var v := DateValues(d);
      v[0] == NatToString(d.day) && v[1] == NatToString(d.month) && v[2] == NatToString(d.year)
    ensures DateValuesShape(DateValues(d))
  {
    DateValuesShaped(d);
  }

  /** The values the twelve-hour layout uses, and their shape. */
  lemma DateValuesOfClock(d: DateParts)
    requires d.hours < 24
    ensures var v := DateValues(d);
      v[4] == Meridiem(d.hours) && v[6] == TwoDigit(d.minutes) && v[8] == TwoDigit(Hour12(d.hours))
    ensures DateValuesShape(DateValues(d))
  {
    DateValuesShaped(d);
  }

  /**
   * The day-first date layout: day, month and year as plain numbers, with
   * no zero padding.
   */
  lemma DateLayout(d: DateParts)
    requires d.hours < 24
    ensures FormatDate("DD/MM/YYYY", d)
         == Concat([NatToString(d.day), "/", NatToString(d.month), "/", NatToString(d.year)])
  {
    DateValuesOfDate(d);
    DateChain(DateValues(d));
    DateTemplate();
  }

  /** The day-first date layout for any values of the right shape. */
  lemma DateChain(v: seq<string>)
    requires DateValuesShape(v)
    ensures ReplaceEach(Concat(["DD", "/", "MM", "/", "YYYY"]), DateTokens(v)) == Concat([v[0], "/", v[1], "/", v[2]])
  {
    DateChainDayMonth(v);
    DateChainYear(v);
    DateChainRest(v);
  }

  /** DD and then MM are replaced. */
  lemma DateChainDayMonth(v: seq<string>)
    requires DateValuesShape(v)
    ensures ReplaceEach(Concat(["DD", "/", "MM", "/", "YYYY"]), DateTokens(v))
         == ReplaceEach(Concat([v[0], "/", v[1], "/", "YYYY"]), DateTokens(v)[2..])
  {
    var p := DateTokens(v);
    var p0 := ["DD", "/", "MM", "/", "YYYY"];
    ChainPiece(p0, 0, p);
    var p1 := p0[0 := v[0]];
    DigitsLack(v[0], 'M');
    ChainPiece(p1, 2, p[1..]);
    assert p1[2 := v[1]] == [v[0], "/", v[1], "/", "YYYY"];
    assert p[1..][1..] == p[2..];
  }

  /** YYYY is replaced after the day and the month. */
  lemma DateChainYear(v: seq<string>)
    requires DateValuesShape(v)
    ensures ReplaceEach(Concat([v[0], "/", v[1], "/", "YYYY"]), DateTokens(v)[2..])
         == ReplaceEach(Concat([v[0], "/", v[1], "/", v[2]]), DateTokens(v)[3..])
  {
    var p2 := [v[0], "/", v[1], "/", "YYYY"];
    DigitsLack(v[0], 'Y'); DigitsLack(v[1], 'Y');
    ChainPiece(p2, 4, DateTokens(v)[2..]);
    assert p2[4 := v[2]] == [v[0], "/", v[1], "/", v[2]];
    assert DateTokens(v)[2..][1..] == DateTokens(v)[3..];
  }

  /** No later token occurs in a text of digits and slashes. */
  lemma DateChainRest(v: seq<string>)
    requires DateValuesShape(v)
    ensures ReplaceEach(Concat([v[0], "/", v[1], "/", v[2]]), DateTokens(v)[3..]) == Concat([v[0], "/", v[1], "/", v[2]])
  {
    var s := Concat([v[0], "/", v[1], "/", v[2]]);
    ConcatFive(v[0], "/", v[1], "/", v[2]);
    assert IsDigits(v[0]) && IsDigits(v[1]) && IsDigits(v[2]);
    assert forall j :: 0 <= j < |s| ==> s[j] == '/' || '0' <= s[j] <= '9';
    ChainSkip(s, DateTokens(v)[3..], 7);
  }

  /**
   * The twelve-hour layout: the hour on the twelve-hour clock, the minutes,
   * and the lower-case meridiem.
   */
  lemma TwelveHourLayout(d: DateParts)
    requires d.hours < 24
    ensures FormatDate("hh:mm aa", d)
         == Concat([TwoDigit(Hour12(d.hours)), ":", TwoDigit(d.minutes), " ", Meridiem(d.hours)])
  {
    DateValuesOfClock(d);
    TwelveHourChain(DateValues(d));
    TwelveHourTemplate();
  }

  /** The twelve-hour layout for any values of the right shape. */
  lemma TwelveHourChain(v: seq<string>)
    requires DateValuesShape(v)
    ensures ReplaceEach(Concat(["hh", ":", "mm", " ", "aa"]), DateTokens(v)) == Concat([v[8], ":", v[6], " ", v[4]])
  {
    var s := Concat(["hh", ":", "mm", " ", "aa"]);
    ConcatFive("hh", ":", "mm", " ", "aa");
    ChainSkip(s, DateTokens(v), 4);
    TwelveHourMeridiem(v);
    TwelveHourMinutes(v);
    TwelveHourHours(v);
  }

  /** After the lower-case meridiem is written, the template holds no upper-case `A`. */
  lemma LowerMeridiem(m: string)
    requires m == "am" || m == "pm"
    ensures 'A' !in Concat(["hh", ":", "mm", " ", m])
  {
    ConcatFive("hh", ":", "mm", " ", m);
    assert 'A' !in m;
  }

  /** `aa` is replaced by the meridiem and `AA` then finds nothing. */
  lemma TwelveHourMeridiem(v: seq<string>)
    requires DateValuesShape(v)
    ensures ReplaceEach(Concat(["hh", ":", "mm", " ", "aa"]), DateTokens(v)[4..])
         == ReplaceEach(Concat(["hh", ":", "mm", " ", v[4]]), DateTokens(v)[6..])
  {
    var p := DateTokens(v)[4..];
    var p0 := ["hh", ":", "mm", " ", "aa"];
    ChainPiece(p0, 4, p);
    var p5 := p0[4 := v[4]];
    assert p5 == ["hh", ":", "mm", " ", v[4]];
    LowerMeridiem(v[4]);
    ChainAbsent(Concat(p5), p[1..]);
    assert p[1..][1..] == DateTokens(v)[6..];
  }

  /** `mm` is replaced by the minutes and `HH` then finds nothing. */
  lemma TwelveHourMinutes(v: seq<string>)
    requires DateValuesShape(v)
    ensures ReplaceEach(Concat(["hh", ":", "mm", " ", v[4]]), DateTokens(v)[6..])
         == ReplaceEach(Concat(["hh", ":", v[6], " ", v[4]]), DateTokens(v)[8..])
  {
    var p := DateTokens(v)[6..];
    var p5 := ["hh", ":", "mm", " ", v[4]];
    ChainPiece(p5, 2, p);
    var p7 := p5[2 := v[6]];
    assert p7 == ["hh", ":", v[6], " ", v[4]];
    DigitsLack(v[6], 'H');
    ConcatFive("hh", ":", v[6], " ", v[4]);
    ChainAbsent(Concat(p7), p[1..]);
    assert p[1..][1..] == DateTokens(v)[8..];
  }

  /** `hh` is replaced by the twelve-hour value and `ss` then finds nothing. */
  lemma TwelveHourHours(v: seq<string>)
    requires DateValuesShape(v)
    ensures ReplaceEach(Concat(["hh", ":", v[6], " ", v[4]]), DateTokens(v)[8..]) == Concat([v[8], ":", v[6], " ", v[4]])
  {
    var p := DateTokens(v)[8..];
    var p7 := ["hh", ":", v[6], " ", v[4]];
    ChainPiece(p7, 0, p);
    var p9 := p7[0 := v[8]];
    assert p9 == [v[8], ":", v[6], " ", v[4]];
    DigitsLack(v[6], 's'); DigitsLack(v[8], 's');
    ConcatFive(v[8], ":", v[6], " ", v[4]);
    ChainAbsent(Concat(p9), p[1..]);
    assert p[1..][1..] == [];
  }

  /** A step of the chain whose token occurs nowhere in the text leaves it as it is. */
  lemma ChainWithout(s: string, pairs: seq<(string, string)>)
    requires forall k :: 0 <= k < |pairs| ==> |pairs[k].0| > 0
    requires pairs != [] && forall j :: 0 <= j ==> !OccursAt(s, pairs[0].0, j)
    ensures ReplaceEach(s, pairs) == ReplaceEach(s, pairs[1..])
  {
    ReplaceFirstWithout(s, pairs[0].0, pairs[0].1);
  }

  /** `YYYY` does not occur in a text whose only `Y`s are a final `YY`. */
  lemma NoFullYear(x: string)
    requires 'Y' !in x
    ensures forall j :: 0 <= j ==> !OccursAt(x + "YY", "YYYY", j)
  {
    var s := x + "YY";
    forall j | 0 <= j
      ensures !OccursAt(s, "YYYY", j)
    {
      if j + 4 <= |s| {
        assert s[j] == x[j];
        assert s[j..j + 4][0] == s[j];
      }
    }
  }

  /** Upper-casing the meridiem gives "AM" or "PM". */
  lemma UpperMeridiem(hours: nat)
    ensures UpperAscii(Meridiem(hours)) == if hours > 12 then "PM" else "AM"
  {
    var r := UpperAscii(Meridiem(hours));
    assert |r| == 2;
    assert r[1] == 'M';
  }

  /** The repeated-day template as pieces. */
  lemma RepeatedDayTemplate()
    ensures Concat(["DD", " ", "DD", " ", "YY"]) == "DD DD YY"
  {
  }

  /** The clock template as pieces. */
  lemma ClockTemplate()
    ensures Concat(["HH", ":", "ss", " ", "AA"]) == "HH:ss AA"
  {
  }

  /**
   * A repeated token and the two-digit year: only the first `DD` becomes
   * the day, the second stays as written, and `YY` is the year modulo 100
   * without zero padding (`YYYY`, tried before it, finds nothing).
   */
  lemma RepeatedDayLayout(d: DateParts)
    requires d.hours < 24
    ensures FormatDate("DD DD YY", d) == Concat([NatToString(d.day), " ", "DD", " ", NatToString(d.year % 100)])
  {
    DateValuesShaped(d);
    var v := DateValues(d);
    assert v[0] == NatToString(d.day) && v[3] == NatToString(d.year % 100);
    RepeatedDayChain(v);
    RepeatedDayRest(v);
    RepeatedDayTemplate();
  }

  /** The first `DD` is replaced, `MM` and `YYYY` find nothing, and `YY` is replaced. */
  lemma RepeatedDayChain(v: seq<string>)
    requires DateValuesShape(v)
    ensures ReplaceEach(Concat(["DD", " ", "DD", " ", "YY"]), DateTokens(v))
         == ReplaceEach(Concat([v[0], " ", "DD", " ", v[3]]), DateTokens(v)[4..])
  {
    RepeatedDayFirst(v);
    RepeatedDaySkip(v);
    RepeatedDayYear(v);
  }

  /** Only the first `DD` is replaced. */
  lemma RepeatedDayFirst(v: seq<string>)
    requires DateValuesShape(v)
    ensures ReplaceEach(Concat(["DD", " ", "DD", " ", "YY"]), DateTokens(v))
         == ReplaceEach(Concat([v[0], " ", "DD", " ", "YY"]), DateTokens(v)[1..])
  {
    var p0 := ["DD", " ", "DD", " ", "YY"];
    ChainPiece(p0, 0, DateTokens(v));
    assert p0[0 := v[0]] == [v[0], " ", "DD", " ", "YY"];
  }

  /** `MM` and `YYYY` find nothing. */
  lemma RepeatedDaySkip(v: seq<string>)
    requires DateValuesShape(v)
    ensures ReplaceEach(Concat([v[0], " ", "DD", " ", "YY"]), DateTokens(v)[1..])
         == ReplaceEach(Concat([v[0], " ", "DD", " ", "YY"]), DateTokens(v)[3..])
  {
    var t := Concat([v[0], " ", "DD", " ", "YY"]);
    RepeatedDayText(v[0]);
    DigitsLack(v[0], 'M');
    ChainAbsent(t, DateTokens(v)[1..]);
    assert DateTokens(v)[1..][1..] == DateTokens(v)[2..];
    DigitsLack(v[0], 'Y');
    NoFullYear(v[0] + " DD ");
    ChainWithout(t, DateTokens(v)[2..]);
    assert DateTokens(v)[2..][1..] == DateTokens(v)[3..];
  }

  /** The pieces of the repeated-day text after the day is written, read as one text. */
  lemma RepeatedDayText(day: string)
    ensures Concat([day, " ", "DD", " ", "YY"]) == (day + " DD ") + "YY"
    ensures Concat([day, " ", "DD", " ", "YY"]) == day + " DD YY"
  {
    ConcatFive(day, " ", "DD", " ", "YY");
  }

  /** `YY` is replaced by the two-digit year. */
  lemma RepeatedDayYear(v: seq<string>)
    requires DateValuesShape(v)
    ensures ReplaceEach(Concat([v[0], " ", "DD", " ", "YY"]), DateTokens(v)[3..])
         == ReplaceEach(Concat([v[0], " ", "DD", " ", v[3]]), DateTokens(v)[4..])
  {
    var p1 := [v[0], " ", "DD", " ", "YY"];
    DigitsLack(v[0], 'Y');
    ChainPiece(p1, 4, DateTokens(v)[3..]);
    assert p1[4 := v[3]] == [v[0], " ", "DD", " ", v[3]];
    assert DateTokens(v)[3..][1..] == DateTokens(v)[4..];
  }

  /** No later token occurs in a text of digits, spaces and `D`s. */
  lemma RepeatedDayRest(v: seq<string>)
    requires DateValuesShape(v)
    ensures ReplaceEach(Concat([v[0], " ", "DD", " ", v[3]]), DateTokens(v)[4..]) == Concat([v[0], " ", "DD", " ", v[3]])
  {
    var s := Concat([v[0], " ", "DD", " ", v[3]]);
    ConcatFive(v[0], " ", "DD", " ", v[3]);
    assert forall j :: 0 <= j < |s| ==> s[j] == ' ' || s[j] == 'D' || '0' <= s[j] <= '9';
    ChainSkip(s, DateTokens(v)[4..], 6);
  }

  /**
   * The 24-hour clock with seconds and the upper-case meridiem: `HH` and
   * `ss` are two-digit, and `AA` is "AM" or "PM".
   */
  lemma ClockLayout(d: DateParts)
    requires d.hours < 24
    ensures FormatDate("HH:ss AA", d)
         == Concat([TwoDigit(d.hours), ":", TwoDigit(d.seconds), " ", if d.hours > 12 then "PM" else "AM"])
  {
    DateValuesShaped(d);
    var v := DateValues(d);
    UpperMeridiem(d.hours);
    assert v[5] == (if d.hours > 12 then "PM" else "AM");
    assert v[7] == TwoDigit(d.hours) && v[9] == TwoDigit(d.seconds);
    ClockChainUpper(v);
    ClockChainRest(v);
    ClockTemplate();
  }

  /** The tokens before `AA` find nothing, and `AA` is replaced. */
  lemma ClockChainUpper(v: seq<string>)
    requires DateValuesShape(v) && (v[5] == "AM" || v[5] == "PM")
    ensures ReplaceEach(Concat(["HH", ":", "ss", " ", "AA"]), DateTokens(v))
         == ReplaceEach(Concat(["HH", ":", "ss", " ", v[5]]), DateTokens(v)[6..])
  {
    ClockSkip(v);
    ClockUpper(v);
  }

  /** `DD`, `MM`, `YYYY`, `YY` and `aa` find nothing. */
  lemma ClockSkip(v: seq<string>)
    requires |v| == 10
    ensures ReplaceEach(Concat(["HH", ":", "ss", " ", "AA"]), DateTokens(v))
         == ReplaceEach(Concat(["HH", ":", "ss", " ", "AA"]), DateTokens(v)[5..])
  {
    ClockTemplate();
    ChainSkip("HH:ss AA", DateTokens(v), 5);
  }

  /** `AA` is replaced by the upper-case meridiem. */
  lemma ClockUpper(v: seq<string>)
    requires |v| == 10
    ensures ReplaceEach(Concat(["HH", ":", "ss", " ", "AA"]), DateTokens(v)[5..])
         == ReplaceEach(Concat(["HH", ":", "ss", " ", v[5]]), DateTokens(v)[6..])
  {
    var p0 := ["HH", ":", "ss", " ", "AA"];
    ChainPiece(p0, 4, DateTokens(v)[5..]);
    assert p0[4 := v[5]] == ["HH", ":", "ss", " ", v[5]];
    assert DateTokens(v)[5..][1..] == DateTokens(v)[6..];
  }

  /** `mm` finds nothing, `HH` is replaced, `hh` finds nothing, and `ss` is replaced. */
  lemma ClockChainRest(v: seq<string>)
    requires DateValuesShape(v) && (v[5] == "AM" || v[5] == "PM")
    ensures ReplaceEach(Concat(["HH", ":", "ss", " ", v[5]]), DateTokens(v)[6..]) == Concat([v[7], ":", v[9], " ", v[5]])
  {
    ClockMinutes(v);
    ClockHours(v);
    ClockTwelve(v);
    ClockSeconds(v);
  }

  /** `mm` finds nothing in the upper-case meridiem. */
  lemma ClockMinutes(v: seq<string>)
    requires |v| == 10 && (v[5] == "AM" || v[5] == "PM")
    ensures ReplaceEach(Concat(["HH", ":", "ss", " ", v[5]]), DateTokens(v)[6..])
         == ReplaceEach(Concat(["HH", ":", "ss", " ", v[5]]), DateTokens(v)[7..])
  {
    ConcatFive("HH", ":", "ss", " ", v[5]);
    assert 'm' !in v[5];
    ChainAbsent(Concat(["HH", ":", "ss", " ", v[5]]), DateTokens(v)[6..]);
    assert DateTokens(v)[6..][1..] == DateTokens(v)[7..];
  }

  /** `HH` is replaced by the two-digit hour. */
  lemma ClockHours(v: seq<string>)
    requires |v| == 10
    ensures ReplaceEach(Concat(["HH", ":", "ss", " ", v[5]]), DateTokens(v)[7..])
         == ReplaceEach(Concat([v[7], ":", "ss", " ", v[5]]), DateTokens(v)[8..])
  {
    var p1 := ["HH", ":", "ss", " ", v[5]];
    ChainPiece(p1, 0, DateTokens(v)[7..]);
    assert p1[0 := v[7]] == [v[7], ":", "ss", " ", v[5]];
    assert DateTokens(v)[7..][1..] == DateTokens(v)[8..];
  }

  /** `hh` finds nothing. */
  lemma ClockTwelve(v: seq<string>)
    requires DateValuesShape(v) && (v[5] == "AM" || v[5] == "PM")
    ensures ReplaceEach(Concat([v[7], ":", "ss", " ", v[5]]), DateTokens(v)[8..])
         == ReplaceEach(Concat([v[7], ":", "ss", " ", v[5]]), DateTokens(v)[9..])
  {
    ConcatFive(v[7], ":", "ss", " ", v[5]);
    DigitsLack(v[7], 'h');
    assert 'h' !in v[5];
    ChainAbsent(Concat([v[7], ":", "ss", " ", v[5]]), DateTokens(v)[8..]);
    assert DateTokens(v)[8..][1..] == DateTokens(v)[9..];
  }

  /** `ss` is replaced by the two-digit seconds, which ends the chain. */
  lemma ClockSeconds(v: seq<string>)
    requires DateValuesShape(v)
    ensures ReplaceEach(Concat([v[7], ":", "ss", " ", v[5]]), DateTokens(v)[9..]) == Concat([v[7], ":", v[9], " ", v[5]])
  {
    var p2 := [v[7], ":", "ss", " ", v[5]];
    DigitsLack(v[7], 's');
    ChainPiece(p2, 2, DateTokens(v)[9..]);
    assert p2[2 := v[9]] == [v[7], ":", v[9], " ", v[5]];
    assert DateTokens(v)[9..][1..] == [];
  }

  /** The twelve-hour rule at midnight: "00" am. */
  lemma MidnightIsZeroAm()
    ensures TwoDigit(Hour12(0)) == "00" && Meridiem(0) == "am"
  {
    assert NatToString(0) == "0";
  }

  /** The twelve-hour rule at noon: "12" am. */
  lemma NoonIsTwelveAm()
    ensures TwoDigit(Hour12(12)) == "12" && Meridiem(12) == "am"
  {
    assert NatToString(1) == "1";
    assert NatToString(12) == "12";
  }

  /** The twelve-hour rule after noon: 13 h is "01" pm. */
  lemma OnePmIsZeroOnePm()
    ensures TwoDigit(Hour12(13)) == "01" && Meridiem(13) == "pm"
  {
    assert NatToString(1) == "1";
  }

  /**
   * `findIndex((l, i) => l.trim() === endMarker && i - 2 === s) !== -1`:
   * the end marker sits exactly two lines below the start marker at `s`.
   */
  predicate EndMarkerInPlace(doc: seq<string>, s: nat, endMarker: string) {
    s + 2 < |doc| && Trim(doc[s + 2]) == endMarker
  }

  /**
   * The last-update region after writing `date`, given where the start
   * marker was found: when the end marker sits exactly two lines below the
   * start marker the line between them is overwritten; otherwise the date
   * and an end marker are inserted after the start marker. Without a start
   * marker nothing changes.
   */
  function StampAt(doc: seq<string>, found: Option<nat>, endMarker: string, date: string): (r: seq<string>)
    requires found.Some? ==> found.value < |doc|
    ensures found.None? ==> r == doc
    ensures found.Some? ==>
      var s := found.value;
      s + 2 < |r| && r[..s + 1] == doc[..s + 1] && r[s + 1] == date
    ensures found.Some? ==>
      var s := found.value;
      if EndMarkerInPlace(doc, s, endMarker) then |r| == |doc| && r[s + 2..] == doc[s + 2..]
      else |r| == |doc| + 2 && r[s + 2] == endMarker && r[s + 3..] == doc[s + 1..]
  {
    match found
    case None => doc
    case Some(s) =>
      if EndMarkerInPlace(doc, s, endMarker) then doc[s + 1 := date]
      else
        var r := SpliceIn(doc, s + 1, [date, endMarker]);
        assert r[s + 3..] == doc[s + 1..];
        r
  }

  /** After a stamp, the end marker sits two lines below the start marker. */
  lemma StampPlacesEndMarker(doc: seq<string>, s: nat, endMarker: string, date: string)
    requires Trim(endMarker) == endMarker
    requires s < |doc|
    ensures EndMarkerInPlace(StampAt(doc, Some(s), endMarker, date), s, endMarker)
  {
    var r := StampAt(doc, Some(s), endMarker, date);
    if EndMarkerInPlace(doc, s, endMarker) {
      assert r[s + 2] == r[s + 2..][0] == doc[s + 2..][0] == doc[s + 2];
    } else {
      assert r[s + 2] == endMarker;
    }
  }

  /**
   * Stamping again at the same start marker only replaces the date line:
   * the end marker is never duplicated, and the latest date wins.
   */
  lemma {:induction false} StampAtTwice(doc: seq<string>, found: Option<nat>, endMarker: string, first: string, second: string)
    requires Trim(endMarker) == endMarker
    requires found.Some? ==> found.value < |doc|
    ensures StampAt(StampAt(doc, found, endMarker, first), found, endMarker, second)
         == StampAt(doc, found, endMarker, second)
  {
    if found.Some? {
      var s := found.value;
      var once := StampAt(doc, found, endMarker, first);
      StampPlacesEndMarker(doc, s, endMarker, first);
      if EndMarkerInPlace(doc, s, endMarker) {
        assert once[s + 1 := second] == doc[s + 1 := second];
      } else {
        assert once[s + 1 := second] == SpliceIn(doc, s + 1, [second, endMarker]);
      }
    }
  }

  /** The script's stamp: find the start marker, then write the date after it. */
  function StampLastUpdate(doc: seq<string>, date: string): (r: seq<string>)
    ensures FindMarker(doc, LastUpdateStart).None? ==> r == doc
  {
    StampAt(doc, FindMarker(doc, LastUpdateStart), LastUpdateEnd, date)
  }

  /**
   * The stamp changes nothing above the last-update marker: the first `n`
   * lines stay when none of them is that marker.
   */
  lemma StampKeepsPrefix(doc: seq<string>, n: nat, date: string)
    requires n <= |doc|
    requires forall j :: 0 <= j < n ==> Trim(doc[j]) != LastUpdateStart
    ensures var r := StampLastUpdate(doc, date);
      n <= |r| && r[..n] == doc[..n]
  {
    FindMarkerSpec(doc, LastUpdateStart);
    var found := FindMarker(doc, LastUpdateStart);
    if found.Some? {
      var r := StampLastUpdate(doc, date);
      assert found.value >= n;
      assert r[..n] == r[..found.value + 1][..n];
    }
  }

  lemma LastUpdateEndTrims()
    ensures Trim(LastUpdateEnd) == LastUpdateEnd
  {
    TrimOfTrimmed(LastUpdateEnd);
  }

  /**
   * Re-stamping keeps one date line, the latest one: stamping leaves the
   * lines up to the start marker alone, so the second stamp finds the same
   * start marker and the end marker the first one placed.
   */
  lemma StampLastUpdateTwice(doc: seq<string>, first: string, second: string)
    ensures StampLastUpdate(StampLastUpdate(doc, first), second) == StampLastUpdate(doc, second)
  {
    var found := FindMarker(doc, LastUpdateStart);
    if found.Some? {
      var once := StampLastUpdate(doc, first);
      FindMarkerSamePrefix(doc, once, LastUpdateStart, found.value + 1);
    }
    LastUpdateEndTrims();
    StampAtTwice(doc, found, LastUpdateEnd, first, second);
  }

  // ---------------------------------------------------------------------------
  // The timezone offset.

  /**
   * The offset in minutes as the script computes it from TIMEZONE_OFFSET
   * split at ":": `parseInt(hours) * 60 + parseInt(minutes)`.
   */
  function OffsetMinutes(hoursPart: int, minutesPart: int): int {
    hoursPart * 60 + minutesPart
  }

  /** The shifted instant, in milliseconds: the UTC time moved back by the offset. */
  function ShiftedInstant(utcMillis: int, offset: int): int
  {
    utcMillis - offset * 60000
  }

  /**
   * The clock the script shows is off by twice the minutes of a negative
   * offset: two minutes early for each minute of "-HH:MM", and exact for a
   * positive offset.
   */
  lemma ShownClockError(utcMillis: int, negative: bool, hours: nat, minutes: nat)
    ensures ShiftedInstant(utcMillis, ParsedOffset(negative, hours, minutes))
         == ShiftedInstant(utcMillis, SignedOffset(negative, hours, minutes))
            - (if negative then 2 * minutes * 60000 else 0)
  {
  }

  /**
   * The offset "-HH:MM" as parsed by the script: the hours part carries the
   * sign and the minutes part is added with a plus sign.
   */
  function ParsedOffset(negative: bool, hours: nat, minutes: nat): int {
    OffsetMinutes(if negative then -(hours as int) else hours as int, minutes)
  }

  /** The offset "±HH:MM" with the sign applied to the whole of it. */
  function SignedOffset(negative: bool, hours: nat, minutes: nat): (m: int)
    ensures m == 0 <==> hours == 0 && minutes == 0
    ensures (m < 0 ==> negative) && (negative ==> m <= 0)
    ensures (if m < 0 then -m else m) == hours * 60 + minutes
  {
    if negative then -(hours * 60 + minutes) else hours * 60 + minutes
  }

  /**
   * The parse agrees with the signed reading exactly when the offset is
   * positive or has no minutes.
   */
  lemma ParsedOffsetAgreement(negative: bool, hours: nat, minutes: nat)
    ensures ParsedOffset(negative, hours, minutes) == SignedOffset(negative, hours, minutes)
        <==> !negative || minutes == 0
  {
  }

  /** "-05:30" is read as -270 minutes, that is 4 h 30 min, instead of -330. */
  lemma NegativeHalfHourOffset()
    ensures ParsedOffset(true, 5, 30) == -270
    ensures SignedOffset(true, 5, 30) == -330
  {
  }
}
